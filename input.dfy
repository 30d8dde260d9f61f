/**
 * The button interrupt handler of Interrupcao.c (`button_irq`) as a pure
 * step function over the three globals it touches, with the counter
 * arithmetic written out in C's semantics.
 */
module Input {
  import opened Types

  const BUTTON_A: nat := 5
  const BUTTON_B: nat := 6
  /** Debounce window, in milliseconds. */
  const DEBOUNCE_MS: nat := 200

  /** The globals `counter`, `last_press_time` and `update_display`. */
  datatype InputState = InputState(counter: int, lastPress: uint32, updateDisplay: bool)

  /** The values the globals are initialised with. */
  const INIT: InputState := InputState(0, 0, false)

  /** One button interrupt: which pin fired and the millisecond clock read by the handler. */
  datatype Event = Event(gpio: nat, time: uint32)

  /**
   * `now - last` in unsigned 32-bit arithmetic: the one value below 2^32
   * that, added to `last`, gives `now` again modulo 2^32.
   */
  function Elapsed(now: uint32, last: uint32): (d: uint32)
    ensures (last + d) % U32_MODULUS == now
    ensures last <= now ==> d == now - last
  {
    (now - last) % U32_MODULUS
  }

  /** Unsigned subtraction measures elapsed time correctly across a wrap of the clock. */
  lemma ElapsedAcrossWrap(last: uint32, d: uint32)
    ensures Elapsed((last + d) % U32_MODULUS, last) == d
  {
  }

  /** The debounce test of the handler: a press passes when at least 200 ms have elapsed. */
  predicate Debounced(now: uint32, last: uint32)
    ensures last <= now ==> (Debounced(now, last) <==> now >= last + DEBOUNCE_MS)
    ensures now < last ==> (Debounced(now, last) <==> now + U32_MODULUS >= last + DEBOUNCE_MS)
  {
    Elapsed(now, last) >= DEBOUNCE_MS
  }

  /** C's `a % 10` on `int`: the remainder truncates toward zero and takes the sign of `a`. */
  function CRem10(a: int): (r: int)
    ensures -10 < r < 10
    ensures (a - r) % 10 == 0
    ensures a >= 0 ==> 0 <= r
    ensures a <= 0 ==> r <= 0
  {
    if a >= 0 then a % 10 else -((-a) % 10)
  }

  /** `(counter + 1) % 10`: on a digit, the next digit with 9 wrapping to 0. */
  function Increment(c: int): (r: int)
    ensures 0 <= c < 10 ==> r == if c == 9 then 0 else c + 1
  {
    CRem10(c + 1)
  }

  /** `(counter - 1 + 10) % 10`: on a digit, the previous digit with 0 wrapping to 9. */
  function Decrement(c: int): (r: int)
    ensures 0 <= c < 10 ==> r == if c == 0 then 9 else c - 1
  {
    CRem10(c - 1 + 10)
  }

  /** An accepted press on button B undoes one on button A, and the other way round. */
  lemma IncrementDecrementInverse(c: int)
    requires 0 <= c < 10
    ensures Decrement(Increment(c)) == c
    ensures Increment(Decrement(c)) == c
  {
  }

  /** `n` accepted presses of button A in a row. */
  function IncrementTimes(c: int, n: nat): (r: int)
    decreases n
  {
    if n == 0 then c else Increment(IncrementTimes(c, n - 1))
  }

  /** `n` presses of button A move a digit `n` steps forward, modulo 10. */
  lemma {:induction false} IncrementTimesMod(c: int, n: nat)
    requires 0 <= c < 10
    ensures IncrementTimes(c, n) == (c + n) % 10
  {
    if n > 0 {
      IncrementTimesMod(c, n - 1);
    }
  }

  /** Ten accepted presses of button A bring the counter back where it started. */
  lemma TenIncrementsIdentity(c: int)
    requires 0 <= c < 10
    ensures IncrementTimes(c, 10) == c
  {
    IncrementTimesMod(c, 10);
    assert (c + 10) % 10 == c;
  }

  /**
   * `button_irq(gpio, ...)` with the clock reading `now`: a press inside the
   * debounce window changes nothing; any other press records its time, steps
   * the counter for button A or B (no other pin touches it) and raises the
   * redraw flag.
   */
  function Irq(s: InputState, gpio: nat, now: uint32): (r: InputState)
    ensures 0 <= s.counter < 10 ==> 0 <= r.counter < 10
    ensures r != s ==> r.updateDisplay && r.lastPress == now
    ensures s.updateDisplay ==> r.updateDisplay
  {
    if !Debounced(now, s.lastPress) then s
    else
      var c :=
        if gpio == BUTTON_A then Increment(s.counter)
        else if gpio == BUTTON_B then Decrement(s.counter)
        else s.counter;
      InputState(c, now, true)
  }

  /** A press inside the debounce window leaves every global as it was. */
  lemma IrqRejects(s: InputState, gpio: nat, now: uint32)
    requires Elapsed(now, s.lastPress) < DEBOUNCE_MS
    ensures Irq(s, gpio, now) == s
  {
  }

  /** With the initial timestamp 0, no press in the first 200 ms after boot is accepted. */
  lemma EarlyPressRejected(gpio: nat, now: uint32)
    requires now < DEBOUNCE_MS
    ensures Irq(INIT, gpio, now) == INIT
  {
  }

  /** A press that passes the debounce records its time and raises the redraw flag, whatever the pin. */
  lemma IrqAccepts(s: InputState, gpio: nat, now: uint32)
    requires Debounced(now, s.lastPress)
    ensures Irq(s, gpio, now).lastPress == now
    ensures Irq(s, gpio, now).updateDisplay
    ensures gpio != BUTTON_A && gpio != BUTTON_B ==> Irq(s, gpio, now).counter == s.counter
    ensures 0 <= s.counter < 10 && gpio == BUTTON_A ==> Irq(s, gpio, now).counter == (s.counter + 1) % 10
    ensures 0 <= s.counter < 10 && gpio == BUTTON_B ==> Irq(s, gpio, now).counter == (s.counter + 9) % 10
  {
  }

  /** A second press within 200 ms of an accepted one is absorbed: the counter moves exactly one step. */
  lemma BouncedSecondPress(s: InputState, gpio: nat, t1: uint32, gpio2: nat, t2: uint32)
    requires Debounced(t1, s.lastPress)
    requires Elapsed(t2, t1) < DEBOUNCE_MS
    ensures Irq(Irq(s, gpio, t1), gpio2, t2) == Irq(s, gpio, t1)
  {
  }

  /** The handler run over a sequence of interrupts, in order. */
  function Run(s: InputState, events: seq<Event>): (r: InputState)
    decreases |events|
  {
    if events == [] then s else Run(Irq(s, events[0].gpio, events[0].time), events[1..])
  }

  /** How many of the events come from pin `gpio`. */
  function Presses(events: seq<Event>, gpio: nat): (n: nat)
    ensures n <= |events|
  {
    if events == [] then 0
    else (if events[0].gpio == gpio then 1 else 0) + Presses(events[1..], gpio)
  }

  /**
   * Every event passes the debounce against the one before it (the first
   * against `last`), measured in unsigned 32-bit time, so a run may cross the
   * wrap of the millisecond clock.
   */
  predicate WellSpaced(last: uint32, events: seq<Event>)
    decreases |events|
  {
    events == [] ||
    (Debounced(events[0].time, last) && WellSpaced(events[0].time, events[1..]))
  }

  /**
   * Presses spaced at least 200 ms apart (modulo 2^32) are all accepted: the counter ends at
   * its start plus the A presses minus the B presses, modulo 10, the timestamp
   * is that of the last press and the redraw flag is raised.
   */
  lemma {:induction false} WellSpacedRun(s: InputState, events: seq<Event>)
    requires 0 <= s.counter < 10
    requires WellSpaced(s.lastPress, events)
    ensures Run(s, events).counter == (s.counter + Presses(events, BUTTON_A) - Presses(events, BUTTON_B)) % 10
    ensures events != [] ==> Run(s, events).lastPress == events[|events| - 1].time
    ensures events != [] ==> Run(s, events).updateDisplay
    decreases |events|
  {
    if events != [] {
      var e := events[0];
      var s1 := Irq(s, e.gpio, e.time);
      assert Debounced(e.time, s.lastPress);
      IrqAccepts(s, e.gpio, e.time);
      WellSpacedRun(s1, events[1..]);
      var a: int, b: int := Presses(events[1..], BUTTON_A), Presses(events[1..], BUTTON_B);
      var step: int := if e.gpio == BUTTON_A then 1 else if e.gpio == BUTTON_B then -1 else 0;
      assert Presses(events, BUTTON_A) - Presses(events, BUTTON_B) == step + a - b;
      assert s1.counter == (s.counter + step + 10) % 10;
      ModAdd(s.counter + step + 10, a - b);
      assert (s.counter + step + 10 + a - b) % 10 == (s.counter + step + a - b) % 10;
      if events[1..] == [] {
        assert events == [e];
      } else {
        assert events[1..][|events[1..]| - 1] == events[|events| - 1];
      }
    }
  }

  lemma ModAdd(x: int, y: int)
    ensures (x % 10 + y) % 10 == (x + y) % 10
  {
  }

  /**
   * From power-up: one press of B at 200 ms shows 9; ten further presses of A,
   * 200 ms apart, go once round 9, 0, 1, ..., 8 and end on 9 again.
   */
  lemma DecrementThenTenIncrements()
    ensures Run(INIT, [Event(BUTTON_B, 200)]).counter == 9
    ensures Run(INIT, [Event(BUTTON_B, 200)] + seq(10, k requires 0 <= k < 10 => Event(BUTTON_A, 400 + 200 * k))).counter == 9
  {
    var events := [Event(BUTTON_B, 200)] + seq(10, k requires 0 <= k < 10 => Event(BUTTON_A, 400 + 200 * k));
    SpacedPresses(INIT.lastPress, events, 200);
    WellSpacedRun(INIT, events);
    PressesOfOnePin(events[1..], BUTTON_A, BUTTON_A);
    assert events[1..][0].gpio == BUTTON_A;
    PressesOfOnePin(events[1..], BUTTON_A, BUTTON_B);
    assert Presses(events, BUTTON_A) == 10;
    assert Presses(events, BUTTON_B) == 1;
    WellSpacedRun(INIT, events[..1]);
    assert Presses(events[..1], BUTTON_B) == 1;
  }

  /** Events exactly `gap` ms apart, starting `gap` ms after `last`, are well spaced. */
  lemma {:induction false} SpacedPresses(last: uint32, events: seq<Event>, gap: nat)
    requires gap >= DEBOUNCE_MS
    requires forall k :: 0 <= k < |events| ==> events[k].time == last + gap * (k + 1)
    ensures WellSpaced(last, events)
    decreases |events|
  {
    if events != [] {
      var first := events[0].time;
      assert Elapsed(first, last) == gap;
      forall k | 0 <= k < |events[1..]| ensures events[1..][k].time == first + gap * (k + 1) {
        assert events[1..][k] == events[k + 1];
      }
      SpacedPresses(first, events[1..], gap);
    }
  }

  /** When every event comes from pin `p`, all of them count as its presses and none as another pin's. */
  lemma {:induction false} PressesOfOnePin(events: seq<Event>, p: nat, gpio: nat)
    requires forall k :: 0 <= k < |events| ==> events[k].gpio == p
    ensures Presses(events, gpio) == if gpio == p then |events| else 0
    decreases |events|
  {
    if events != [] {
      PressesOfOnePin(events[1..], p, gpio);
    }
  }
}
