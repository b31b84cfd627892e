/** The arithmetic both webcam loops share: the miss-count threshold derived
    from the two durations, and the latency-compensated sleep. Seconds are
    exact reals here. */
module Timing {
  import opened Common

  /** Python's `int(x)` on a float: truncation toward zero. */
  function Truncate(x: real): (n: int)
    ensures 0.0 <= x ==> 0 <= n && n as real <= x < n as real + 1.0
    ensures x < 0.0 ==> n <= 0 && n as real - 1.0 < x <= n as real
  {
    if x >= 0.0 then x.Floor else -((-x).Floor)
  }

  /** `int(delay_seconds / sleep_seconds)`: the number of whole sleep intervals
      in the delay. Python raises ZeroDivisionError for a zero sleep. */
  function TriggerThreshold(delay: real, sleep: real): (r: Result<int>)
    ensures r.Err? <==> sleep == 0.0
    ensures r.Err? ==> r.error == ZeroDivisionError
    ensures r.Ok? ==> r.value == Truncate(delay / sleep)
    ensures r.Ok? && 0.0 <= delay && 0.0 < sleep ==>
              0 <= r.value && r.value as real * sleep <= delay < (r.value + 1) as real * sleep
    ensures r.Ok? && delay < 0.0 && 0.0 < sleep ==> r.value <= 0
  {
    if sleep == 0.0 then Err(ZeroDivisionError)
    else
      var n := Truncate(delay / sleep);
      if 0.0 <= delay && 0.0 < sleep then
        WholeIntervals(delay, sleep, n);
        Ok(n)
      else
        Ok(n)
  }

  /** n = floor(delay / sleep) means n sleeps fit in delay and n + 1 do not. */
  lemma WholeIntervals(delay: real, sleep: real, n: int)
    requires 0.0 < sleep
    requires n as real <= delay / sleep < n as real + 1.0
    ensures n as real * sleep <= delay < (n + 1) as real * sleep
  {
    var q := delay / sleep;
    assert q * sleep == delay;
    var below, above := q - n as real, n as real + 1.0 - q;
    assert 0.0 <= below * sleep && 0.0 < above * sleep;
    assert n as real * sleep == delay - below * sleep;
    assert (n + 1) as real * sleep == delay + above * sleep;
  }

  /** `max(0, sleep_seconds - (t2 - t1))`: the pause that brings a tick that
      took `elapsed` seconds up to `sleep` seconds, never negative. */
  function SleepTime(sleep: real, elapsed: real): (pause: real)
    ensures 0.0 <= pause
    ensures sleep <= elapsed + pause
    ensures pause == 0.0 || elapsed + pause == sleep
    ensures 0.0 <= elapsed && 0.0 <= sleep ==> pause <= sleep
  {
    if sleep - elapsed > 0.0 then sleep - elapsed else 0.0
  }
}
