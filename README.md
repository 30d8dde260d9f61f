# Button-driven digit display: a Dafny model

This project models the firmware in `Interrupcao.c`. The firmware runs on a
microcontroller that drives a 5x5 addressable LED matrix and a red status LED.
Button A (GPIO 5) steps a counter up and button B (GPIO 6) steps it down.
The counter stays in 0..9 and wraps at both ends. A falling-edge interrupt
(`button_irq`) changes the counter, ignoring presses within 200 ms of the
last accepted one, and raises the `update_display` flag. The `main` loop
blinks the status LED and, while the flag is raised, draws the counter's
glyph from the `numbers` font into the 25-pixel buffer `leds`. It then sends
that buffer to the strip as 75 bytes in G, R, B order and lowers the flag.

Modules, one file each:

- `Types` (`types.dfy`): `uint8`, `uint32` and `Option`.
- `Input` (`input.dfy`): the interrupt handler as a pure step function `Irq`
  over the three shared globals. It includes:
  - the unsigned 32-bit debounce subtraction;
  - C's truncating `%` for the counter arithmetic;
  - lemmas on single presses, bounced presses and whole sequences of presses.
- `Matrix` (`matrix.dfy`): the pixel type, the font table (as written in the
  source), the frame a digit renders to, and the byte stream of a frame with
  its inverse.
- `Blink` (`blink.dfy`): one blink check of the main loop as a pure step
  function over `led_state` and `next_blink`, plus lemmas on its timing.
- `Device` (`device.dfy`): class `Firmware`. It holds the globals and the
  main loop's locals, and its methods update them in place:
  - `ButtonIrq`;
  - `SetLed`, `ClearLeds` and `WriteFrame` (`np_set_led`, `np_clear`,
    `np_write`);
  - `Redraw` and `BlinkCheck`, the two halves of a loop iteration;
  - `LoopIteration`, one pass of the loop.

  Each method is proved against the pure function that specifies it.

Time is an input throughout:

- the handler gets its millisecond reading `currentTime` as a parameter;
- a loop iteration gets two microsecond readings: `now`, the clock at the
  test on line 176, and `rearmNow`, the clock read again by
  `make_timeout_time_ms` on line 179;
- `pio_sm_put_blocking` is modelled as appending a byte to the returned
  stream;
- `gpio_put` on the red LED is modelled as the returned `pinWrite`.

Two consequences of the code are worth stating, because they are easy to
misread:

- **Blink period.** A 5 Hz blink (100 ms half-period) would need `next_blink`
  compared with the clock directly. The code instead re-arms `next_blink`
  100 ms ahead and then toggles only once the clock is a further 100 ms past
  it. So after the first toggle, 100 ms after boot, toggles come at least
  200 ms apart (`Blink.ToggleSpacing`, `Blink.RunToggleSpacing`).
- **Ten increments.** From power-up, one B press shows 9. Ten A presses after
  that go once round the ten digits and end on 9 again
  (`Input.DecrementThenTenIncrements`).

## Model

| member | source | states |
|---|---|---|
| `Input.Elapsed` | Interrupcao.c:104 | `current_time - last_press_time` as `uint32`: the unique value below 2^32 that, added to the last press time, gives the current time modulo 2^32; it is the plain difference when the clock has not wrapped |
| `Input.Debounced` | Interrupcao.c:104 | the debounce test: without a clock wrap, a press passes when it comes at least 200 ms after the last accepted one; across a wrap, when the gap measured through 2^32 is at least 200 ms |
| `Input.ElapsedAcrossWrap` | Interrupcao.c:104 | the unsigned subtraction measures the true elapsed time `d` even when the 32-bit millisecond clock wraps between two presses |
| `Input.CRem10` | Interrupcao.c:107-108 | C's `% 10` on `int`: result strictly between -10 and 10, congruent to the operand modulo 10, with the operand's sign |
| `Input.Increment` | Interrupcao.c:107 | `(counter + 1) % 10` on a digit is the next digit, 9 wrapping to 0 |
| `Input.Decrement` | Interrupcao.c:108 | `(counter - 1 + 10) % 10` on a digit is the previous digit, 0 wrapping to 9 |
| `Input.IncrementDecrementInverse` | Interrupcao.c:107-108 | on a digit, an accepted B press undoes an accepted A press and the other way round |
| `Input.IncrementTimesMod` | Interrupcao.c:107 | `n` accepted A presses take digit `c` to `(c + n) mod 10` |
| `Input.TenIncrementsIdentity` | Interrupcao.c:107 | ten accepted A presses return the counter to where it started |
| `Input.Irq` | Interrupcao.c:100-111 | the handler keeps the counter in 0..9; any change to the globals raises the redraw flag and records the press time; the handler never lowers the flag |
| `Input.IrqRejects` | Interrupcao.c:104 | a press less than 200 ms (mod 2^32) after the last accepted one leaves counter, timestamp and flag unchanged |
| `Input.EarlyPressRejected` | Interrupcao.c:26-27 | from the initial globals (last press time 0), every press before 200 ms is rejected |
| `Input.IrqAccepts` | Interrupcao.c:105-110 | an accepted press sets the timestamp to its time and raises the flag for any pin; A gives `(c+1) % 10`, B gives `(c+9) % 10`, any other pin leaves the counter alone |
| `Input.BouncedSecondPress` | Interrupcao.c:104-105 | a second press within 200 ms of an accepted one is fully discarded, so the counter moves by one step, not two |
| `Input.WellSpacedRun` | Interrupcao.c:100-111 | over presses each at least 200 ms (measured modulo 2^32, so across a clock wrap too) after the previous one, the final counter is the start value plus the A presses minus the B presses, mod 10; the timestamp is the last press's time and the flag is raised |
| `Input.DecrementThenTenIncrements` | Interrupcao.c:25-27 | from power-up, B at 200 ms shows 9, and ten A presses 200 ms apart afterwards end on 9 |
| `Matrix.Glyph` | Interrupcao.c:30-91 | each digit's font entry has 25 cells, each 0 or 1 |
| `Matrix.Blank` | Interrupcao.c:135-138 | the cleared buffer has 25 pixels, all `(0,0,0)` |
| `Matrix.Render` | Interrupcao.c:183-187 | the frame for digit `d`: 25 pixels, each either lit or off; which is which is stated by `Matrix.RenderAt` |
| `Matrix.RenderAt` | Interrupcao.c:184-187 | in the frame for digit `d`, pixel `i` is `(G=50,R=0,B=0)` exactly when `numbers[d][i]` is 1 and `(0,0,0)` exactly when it is 0 |
| `Matrix.GlyphsDistinct` | Interrupcao.c:30-91 | the ten glyphs of the font are pairwise different |
| `Matrix.RenderInjective` | Interrupcao.c:182-187 | two digits that render the same frame are the same digit |
| `Matrix.Serialise` | Interrupcao.c:157-162 | the byte stream of a frame has three bytes per pixel; their order is stated by `Matrix.SerialiseLayout` and their completeness by `Matrix.SerialiseRoundTrip` |
| `Matrix.SerialiseLayout` | Interrupcao.c:157-162 | the stream of `n` pixels has `3n` bytes, and bytes `3i`, `3i+1`, `3i+2` are pixel `i`'s G, R and B |
| `Matrix.SerialiseRoundTrip` | Interrupcao.c:156-164 | reading the stream back three bytes at a time gives the buffer it was written from |
| `Blink.Init` | Interrupcao.c:172-173 | before the loop the LED is off and the deadline is the boot-time clock reading |
| `Blink.Due` | Interrupcao.c:176 | the blink test: at least 100000 us have passed since `next_blink` |
| `Blink.Step` | Interrupcao.c:176-180 | a check toggles the LED exactly when `now - next_blink >= 100000` us; a toggle re-arms the deadline to 100 ms after the second clock read; any other check changes nothing |
| `Blink.ToggleSpacing` | Interrupcao.c:176-179 | after a toggle re-armed at time `t`, no check before `t + 200 ms` toggles again, and a check at or after it does |
| `Blink.FirstToggle` | Interrupcao.c:172-176 | the first check toggles exactly when it comes at least 100 ms after boot |
| `Blink.RunToggleSpacing` | Interrupcao.c:175-180 | across any run of checks, however late the loop comes round, the first toggle is at least 100 ms past the pending deadline and each later toggle at least 200 ms past the previous toggle's re-arm reading: no catch-up burst |
| `Blink.RunParity` | Interrupcao.c:176-177 | after any run of checks, the LED level is its start level flipped once per toggle |
| `Device.Firmware.constructor` | Interrupcao.c:22-27 | power-up state: counter 0, last press 0, flag down, buffer all off, LED off, first deadline at boot time |
| `Device.Firmware.ButtonIrq` | Interrupcao.c:100-111 | the in-place handler leaves the three globals equal to `Irq` of their old values, and keeps the counter a digit |
| `Device.Firmware.SetLed` | Interrupcao.c:150-154 | pixel `index` becomes `(G=g, R=r, B=b)` and every other pixel keeps its value |
| `Device.Firmware.ClearLeds` | Interrupcao.c:135-138 | all 25 pixels become `(0,0,0)` |
| `Device.Firmware.WriteFrame` | Interrupcao.c:156-164 | the bytes pushed are exactly 75, pixel `i`'s G, R, B at positions `3i`, `3i+1`, `3i+2`, i.e. the buffer's serialisation |
| `Device.Firmware.Redraw` | Interrupcao.c:182-190 | with the flag raised, the buffer becomes the counter's rendered glyph, its serialisation is sent, and the flag is lowered; with the flag down nothing changes and nothing is sent |
| `Device.Firmware.BlinkCheck` | Interrupcao.c:176-180 | the LED state and deadline move as `Blink.Step` says, and the new LED level is written to the pin exactly when the check toggles |
| `Device.Firmware.LoopIteration` | Interrupcao.c:175-191 | one pass of the loop: the blink check, then the redraw; the flag is down afterwards, and a raised flag yields the frame of the counter's glyph |
| `Device.FrameShowsCounter` | Interrupcao.c:182-188 | the frame a redraw sends decodes back to the counter's glyph, and no other digit sends the same bytes |

## Left out

- Hardware set-up is not modelled: `np_init` (PIO program loading, state-machine claim, 800 kHz clock), `init_buttons`, `init_rgb` and `stdio_init_all`. These are calls into the board SDK, and the model starts from the state they leave. `np_init`'s final `np_clear` is covered by the constructor's all-off buffer.
- The bit timing of the LED bus and the `sleep_us(100)` latch delay after each frame are left out. `pio_sm_put_blocking` is reduced to appending a byte.
- Clock reads (`get_absolute_time`, `to_ms_since_boot`, `make_timeout_time_ms`) are parameters. `to_ms_since_boot`'s truncation to 32 bits is taken as given: the handler receives a `uint32`.
- Device.Firmware.BlinkCheck: microsecond times are unbounded integers. The 64-bit wrap of `absolute_time_t` and the saturation of `make_timeout_time_ms` at the end of time are not modelled; they are out of reach within the device's lifetime.
- Input.Increment: the signed 32-bit overflow of `counter + 1` is not modelled. The counter is always a digit (`Firmware.Valid`), so it cannot occur.
- Preemption of the main loop by `button_irq` and the unsynchronised `volatile` sharing are not modelled. The handler and each half of a loop iteration are separate atomic steps, not interleaved. A press that lands in the middle of a redraw is therefore not modelled.
- The infinite `while(true)` loop is one iteration (`LoopIteration`). Runs of the handler and of the blink check are the functions `Input.Run` and `Blink.Run`.
- Device.Firmware.SetLed: an index of 25 or more is excluded by its precondition. In the source such a call writes outside the array; no caller in the source makes it.
- What the glyphs look like on the physical matrix (wiring and pixel order) is not in the code. The font is only a lookup table here.
