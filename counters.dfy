/** The small counters of the monitoring window: the every-30-frames FPS
    trigger, the session clock shown as hours, minutes and seconds, and the
    count of CRITICAL messages since the session started. */
module Counters {

  /** FPS is recomputed and emitted on frames whose running count is a multiple of 30. */
  const FpsWindow: nat := 30

  /** `fps_counter % 30 == 0`, tested after the increment, so the counter is at least 1. */
  predicate FpsDue(frameCount: nat)
  {
    frameCount % FpsWindow == 0
  }

  /** How many of the frames 1..n emitted an FPS value. */
  function FpsEmissions(n: nat): nat
  {
    if n == 0 then 0 else FpsEmissions(n - 1) + (if FpsDue(n) then 1 else 0)
  }

  /** After n frames the FPS figure has been emitted exactly n / 30 times:
      once per full window of 30 frames. */
  lemma {:induction false} FpsEmissionCount(n: nat)
    ensures FpsEmissions(n) == n / FpsWindow
  {
    if n > 0 {
      FpsEmissionCount(n - 1);
      if n % 30 == 0 {
        assert n / 30 == (n - 1) / 30 + 1;
      } else {
        assert n / 30 == (n - 1) / 30;
      }
    }
  }

  /** `int(td.total_seconds())`: truncation toward zero of the elapsed seconds. */
  function WholeSeconds(seconds: real): (r: int)
    ensures seconds >= 0.0 ==> r as real <= seconds < r as real + 1.0
    ensures seconds < 0.0 ==> r as real - 1.0 < seconds <= r as real
  {
    if seconds >= 0.0 then seconds.Floor else -((-seconds).Floor)
  }

  datatype Clock = Clock(hours: int, minutes: int, seconds: int)

  /** update_clock: hours = elapsed // 3600, minutes = (elapsed % 3600) // 60,
      seconds = elapsed % 60. Python floors and Dafny's division is Euclidean;
      they agree for the positive divisors used here, negative elapsed included. */
  function SessionClock(elapsed: int): (c: Clock)
    ensures c.hours * 3600 + c.minutes * 60 + c.seconds == elapsed
    ensures 0 <= c.minutes < 60 && 0 <= c.seconds < 60
    ensures elapsed >= 0 ==> c.hours >= 0
  {
    var hours := elapsed / 3600;
    var rest := elapsed % 3600;
    var minutes := rest / 60;
    var seconds := elapsed % 60;
    assert rest == minutes * 60 + seconds by {
      assert elapsed == hours * 3600 + rest;
      assert hours * 3600 == (hours * 60) * 60;
      assert elapsed % 60 == rest % 60;
    }
    Clock(hours, minutes, seconds)
  }

  /** Message levels of log_message. */
  datatype Level = Info | Success | Warning | Error | Critical

  /** total_violations after the given messages, counted from the session start. */
  function CriticalCount(levels: seq<Level>): nat
  {
    if levels == [] then 0
    else CriticalCount(levels[..|levels| - 1]) + (if levels[|levels| - 1] == Critical then 1 else 0)
  }

  /** The counter adds up over consecutive stretches of messages. */
  lemma {:induction false} CriticalCountAppend(a: seq<Level>, b: seq<Level>)
    ensures CriticalCount(a + b) == CriticalCount(a) + CriticalCount(b)
    decreases |b|
  {
    if b == [] {
      assert a + b == a;
    } else {
      var b' := b[..|b| - 1];
      CriticalCountAppend(a, b');
      assert (a + b)[..|a + b| - 1] == a + b';
    }
  }

  /** The counter never exceeds the number of messages. */
  lemma {:induction false} CriticalCountBound(levels: seq<Level>)
    ensures CriticalCount(levels) <= |levels|
  {
    if levels != [] {
      CriticalCountBound(levels[..|levels| - 1]);
    }
  }
}
