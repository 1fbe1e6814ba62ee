/**
 * Remaining time before an absolute deadline (`_time_left`).
 * Time is counted in integer ticks; `start` and `now` are clock readings.
 */
module TimeBudget {

  /** Ticks left of a `timeout`-tick budget that began at `start`, read at `now`. */
  function TimeLeft(start: int, timeout: int, now: int): (r: nat)
    ensures r == 0 <==> now - start >= timeout
    ensures r > 0 ==> r + (now - start) == timeout
  {
    var remaining := timeout - (now - start);
    if remaining > 0 then remaining else 0
  }

  /** The budget never grows as time passes. */
  lemma TimeLeftNonIncreasing(start: int, timeout: int, t1: int, t2: int)
    requires t1 <= t2
    ensures TimeLeft(start, timeout, t2) <= TimeLeft(start, timeout, t1)
  {
  }

  /** Waiting `d` ticks, no more than what is left, uses up exactly `d` ticks of the budget. */
  lemma TimeLeftAfterWaiting(start: int, timeout: int, now: int, d: nat)
    requires d <= TimeLeft(start, timeout, now)
    ensures TimeLeft(start, timeout, now + d) == TimeLeft(start, timeout, now) - d
  {
  }

  /** An exhausted budget stays exhausted. */
  lemma ExhaustedStaysExhausted(start: int, timeout: int, t1: int, t2: int)
    requires t1 <= t2 && TimeLeft(start, timeout, t1) == 0
    ensures TimeLeft(start, timeout, t2) == 0
  {
  }
}
