/**
 * The globals of Interrupcao.c and the code that updates them in place: the
 * button interrupt handler, the pixel-buffer primitives, the frame writer and
 * one iteration of the main loop (blink check, then redraw when flagged).
 */
module Device {
  import opened Types
  import opened Input
  import opened Matrix
  import Blink

  class Firmware {
    var counter: int
    var lastPressTime: uint32
    var updateDisplay: bool
    /** The pixel buffer `leds`. */
    const leds: array<Pixel>
    /** The main loop's locals `led_state` and `next_blink` (microseconds since boot). */
    var ledState: bool
    var nextBlink: int

    /** The buffer holds one pixel per LED and the counter is a digit, so the font lookup is in bounds. */
    ghost predicate Valid()
      reads this
    {
      leds.Length == LED_COUNT && 0 <= counter < 10
    }

    /** The three globals the interrupt handler shares with the main loop. */
    function InputView(): InputState
      reads this
    {
      InputState(counter, lastPressTime, updateDisplay)
    }

    /** The main loop's blink locals. */
    function BlinkView(): Blink.BlinkState
      reads this
    {
      Blink.BlinkState(ledState, nextBlink)
    }

    /**
     * Power-up up to the main loop: the globals at their initial values, the
     * buffer cleared, the LED off and the first deadline at the boot-time
     * clock reading `boot`.
     */
    constructor (boot: int)
      ensures Valid() && fresh(leds)
      ensures InputView() == INIT
      ensures leds[..] == Blank()
      ensures BlinkView() == Blink.Init(boot)
    {
      counter, lastPressTime, updateDisplay := 0, 0, false;
      leds := new Pixel[LED_COUNT](_ => OFF);
      ledState, nextBlink := false, boot;
    }

    /** `button_irq(gpio, events)` with `currentTime` the millisecond clock it reads. */
    method ButtonIrq(gpio: nat, currentTime: uint32)
      requires Valid()
      modifies this`counter, this`lastPressTime, this`updateDisplay
      ensures Valid()
      ensures InputView() == Irq(old(InputView()), gpio, currentTime)
    {
      if Elapsed(currentTime, lastPressTime) < DEBOUNCE_MS {
        return;
      }
      lastPressTime := currentTime;
      if gpio == BUTTON_A {
        counter := Increment(counter);
      } else if gpio == BUTTON_B {
        counter := Decrement(counter);
      }
      updateDisplay := true;
    }

    /** `np_set_led(index, r, g, b)`: one pixel takes the given colour, the others keep theirs. */
    method SetLed(index: nat, r: uint8, g: uint8, b: uint8)
      requires Valid() && index < LED_COUNT
      modifies leds
      ensures leds[..] == old(leds[..])[index := Pixel(g, r, b)]
    {
      leds[index] := leds[index].(r := r);
      leds[index] := leds[index].(g := g);
      leds[index] := leds[index].(b := b);
    }

    /** `np_clear`: every pixel off. */
    method ClearLeds()
      requires Valid()
      modifies leds
      ensures leds[..] == Blank()
    {
      for i := 0 to LED_COUNT
        invariant forall k :: 0 <= k < i ==> leds[k] == OFF
      {
        SetLed(i, 0, 0, 0);
      }
    }

    /**
     * `np_write`, with each `pio_sm_put_blocking` an appended byte: the
     * stream is the buffer's serialisation, 75 bytes, G, R, B per pixel.
     */
    method WriteFrame() returns (stream: seq<uint8>)
      requires Valid()
      ensures stream == Serialise(leds[..])
      ensures |stream| == 3 * LED_COUNT
      ensures forall i :: 0 <= i < LED_COUNT ==>
        stream[3 * i] == leds[i].g && stream[3 * i + 1] == leds[i].r && stream[3 * i + 2] == leds[i].b
    {
      stream := [];
      for i := 0 to LED_COUNT
        invariant stream == Serialise(leds[..i])
      {
        stream := stream + [leds[i].g];
        stream := stream + [leds[i].r];
        stream := stream + [leds[i].b];
        assert leds[..i + 1][..i] == leds[..i];
      }
      assert leds[..LED_COUNT] == leds[..];
      SerialiseLayout(leds[..]);
    }

    /**
     * The redraw half of a loop iteration: when the flag is raised, the buffer
     * becomes the counter's glyph, is written out, and the flag is lowered;
     * otherwise nothing happens and nothing is sent.
     */
    method Redraw() returns (frame: Option<seq<uint8>>)
      requires Valid()
      modifies this`updateDisplay, leds
      ensures Valid()
      ensures old(updateDisplay) ==>
        leds[..] == Render(counter) && frame == Some(Serialise(leds[..])) && !updateDisplay
      ensures !old(updateDisplay) ==>
        leds[..] == old(leds[..]) && frame == None && !updateDisplay
    {
      frame := None;
      if updateDisplay {
        ClearLeds();
        for i := 0 to LED_COUNT
          invariant forall k :: 0 <= k < i ==> leds[k] == Render(counter)[k]
          invariant forall k :: i <= k < LED_COUNT ==> leds[k] == OFF
        {
          RenderAt(counter, i);
          assert Glyph(counter)[i] <= 1;
          if NUMBERS[counter][i] != 0 {
            SetLed(i, 0, 50, 0);
          }
        }
        var stream := WriteFrame();
        frame := Some(stream);
        updateDisplay := false;
      }
    }

    /**
     * The blink half of a loop iteration, with `now` the clock at the test and
     * `rearmNow` the clock when the deadline is re-armed; `pinWrite` is the
     * level written to the red LED pin, if any.
     */
    method BlinkCheck(now: int, rearmNow: int) returns (pinWrite: Option<bool>)
      modifies this`ledState, this`nextBlink
      ensures BlinkView() == Blink.Step(old(BlinkView()), now, rearmNow)
      ensures pinWrite == if Blink.Due(old(BlinkView()), now) then Some(ledState) else None
    {
      pinWrite := None;
      if now - nextBlink >= Blink.BLINK_INTERVAL_US {
        ledState := !ledState;
        pinWrite := Some(ledState);
        nextBlink := rearmNow + Blink.BLINK_INTERVAL_US;
      }
    }

    /** One pass of the `while(true)` body: the blink check, then the redraw check. */
    method LoopIteration(now: int, rearmNow: int) returns (pinWrite: Option<bool>, frame: Option<seq<uint8>>)
      requires Valid()
      modifies this`ledState, this`nextBlink, this`updateDisplay, leds
      ensures Valid()
      ensures BlinkView() == Blink.Step(old(BlinkView()), now, rearmNow)
      ensures pinWrite == if Blink.Due(old(BlinkView()), now) then Some(ledState) else None
      ensures !updateDisplay
      ensures old(updateDisplay) ==> leds[..] == Render(counter) && frame == Some(Serialise(Render(counter)))
      ensures !old(updateDisplay) ==> leds[..] == old(leds[..]) && frame == None
    {
      pinWrite := BlinkCheck(now, rearmNow);
      frame := Redraw();
    }
  }

  /**
   * A frame the redraw sends shows one digit only: it decodes back to that
   * digit's glyph, and no other digit's redraw sends the same bytes.
   */
  lemma FrameShowsCounter(d: int, d2: int)
    requires 0 <= d < 10 && 0 <= d2 < 10
    ensures |Serialise(Render(d))| == 3 * LED_COUNT
    ensures Deserialise(Serialise(Render(d))) == Render(d)
    ensures Serialise(Render(d2)) == Serialise(Render(d)) ==> d2 == d
  {
    SerialiseLayout(Render(d));
    SerialiseRoundTrip(Render(d));
    SerialiseRoundTrip(Render(d2));
    if Serialise(Render(d2)) == Serialise(Render(d)) {
      RenderInjective(d, d2);
    }
  }
}
