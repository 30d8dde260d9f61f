/**
 * The status-LED blink of the main loop of Interrupcao.c, one loop iteration
 * at a time. Times are microseconds since boot; the loop reads the clock
 * twice, once for the test and once more when it re-arms the deadline.
 */
module Blink {
  /** The threshold of the test and the offset of the re-armed deadline (100 ms). */
  const BLINK_INTERVAL_US: int := 100000

  /** The main loop's locals `led_state` and `next_blink`. */
  datatype BlinkState = BlinkState(ledState: bool, nextBlink: int)

  /** Before the loop starts: the LED is off and the deadline is the boot-time clock reading. */
  function Init(boot: int): (s: BlinkState)
    ensures !s.ledState && s.nextBlink == boot
  {
    BlinkState(false, boot)
  }

  /** The test of the loop: at least 100 ms have passed since `next_blink`. */
  predicate Due(s: BlinkState, now: int)
  {
    now - s.nextBlink >= BLINK_INTERVAL_US
  }

  /**
   * One check, with `now` the clock at the test and `rearmNow` the clock when
   * the deadline is re-armed: a due check flips the LED once and moves the
   * deadline 100 ms past `rearmNow`; any other check changes nothing.
   */
  function Step(s: BlinkState, now: int, rearmNow: int): (r: BlinkState)
    ensures r.ledState != s.ledState <==> Due(s, now)
    ensures !Due(s, now) ==> r == s
    ensures Due(s, now) ==> r.nextBlink == rearmNow + BLINK_INTERVAL_US
  {
    if Due(s, now) then BlinkState(!s.ledState, rearmNow + BLINK_INTERVAL_US) else s
  }

  /**
   * After a toggle whose deadline was re-armed at `rearmNow`, no check earlier
   * than 200 ms after `rearmNow` toggles again, and a check at or after that
   * instant does: the half-period of the blink is 200 ms, not 100 ms.
   */
  lemma ToggleSpacing(s: BlinkState, now: int, rearmNow: int, later: int, rearmLater: int)
    requires Due(s, now)
    ensures later < rearmNow + 2 * BLINK_INTERVAL_US ==>
      Step(Step(s, now, rearmNow), later, rearmLater) == Step(s, now, rearmNow)
    ensures later >= rearmNow + 2 * BLINK_INTERVAL_US ==>
      Step(Step(s, now, rearmNow), later, rearmLater).ledState == s.ledState
  {
  }

  /** The first toggle after boot comes 100 ms after the boot-time reading, and no earlier. */
  lemma FirstToggle(boot: int, now: int, rearmNow: int)
    ensures Step(Init(boot), now, rearmNow).ledState <==> now >= boot + BLINK_INTERVAL_US
  {
  }

  /** The loop run over successive checks, each a pair (test time, re-arm time). */
  function Run(s: BlinkState, checks: seq<(int, int)>): (r: BlinkState)
    decreases |checks|
  {
    if checks == [] then s else Run(Step(s, checks[0].0, checks[0].1), checks[1..])
  }

  /** The checks that toggle the LED when the loop runs from `s`, in order. */
  function ToggleChecks(s: BlinkState, checks: seq<(int, int)>): (t: seq<(int, int)>)
    decreases |checks|
  {
    if checks == [] then []
    else
      var first := if Due(s, checks[0].0) then [checks[0]] else [];
      first + ToggleChecks(Step(s, checks[0].0, checks[0].1), checks[1..])
  }

  /** Each toggle of a run is 200 ms past the previous toggle's re-arm reading: no catch-up burst. */
  predicate SpacedToggles(t: seq<(int, int)>)
  {
    forall k :: 0 < k < |t| ==> t[k].0 >= t[k - 1].1 + 2 * BLINK_INTERVAL_US
  }

  /**
   * However late the loop comes round, the first toggle of a run comes at
   * least 100 ms after the pending deadline and each later toggle at least
   * 200 ms after the previous toggle's re-arm reading.
   */
  lemma {:induction false} RunToggleSpacing(s: BlinkState, checks: seq<(int, int)>)
    ensures ToggleChecks(s, checks) != [] ==>
      ToggleChecks(s, checks)[0].0 >= s.nextBlink + BLINK_INTERVAL_US
    ensures SpacedToggles(ToggleChecks(s, checks))
    decreases |checks|
  {
    if checks != [] {
      var c := checks[0];
      var s1 := Step(s, c.0, c.1);
      RunToggleSpacing(s1, checks[1..]);
      var rest := ToggleChecks(s1, checks[1..]);
      if Due(s, c.0) {
        var t := ToggleChecks(s, checks);
        assert t == [c] + rest;
        assert s1.nextBlink == c.1 + BLINK_INTERVAL_US;
        forall k | 0 < k < |t| ensures t[k].0 >= t[k - 1].1 + 2 * BLINK_INTERVAL_US {
          if k == 1 {
            assert t[1] == rest[0] && t[0] == c;
          } else {
            assert t[k] == rest[k - 1] && t[k - 1] == rest[k - 2];
          }
        }
      } else {
        assert ToggleChecks(s, checks) == rest;
      }
    }
  }

  /** After a run, the LED is on when and only when it started on or toggled an odd number of times, but not both. */
  lemma {:induction false} RunParity(s: BlinkState, checks: seq<(int, int)>)
    ensures Run(s, checks).ledState == (s.ledState != (|ToggleChecks(s, checks)| % 2 == 1))
    decreases |checks|
  {
    if checks != [] {
      RunParity(Step(s, checks[0].0, checks[0].1), checks[1..]);
    }
  }
}
