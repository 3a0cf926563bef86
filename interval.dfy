/** The conversion of the `-I` interval, in milliseconds, into the
    `struct itimerval` handed to `setitimer`. C's `/` and `%` truncate
    toward zero, so they are written out for negative operands. */
module Interval {

  /** C integer division: the quotient truncated toward zero, so it rounds
      down for a non-negative dividend and up for a negative one. */
  function CDiv(a: int, b: int): (q: int)
    requires b > 0
    ensures a >= 0 ==> 0 <= a - q * b < b
    ensures a < 0 ==> -b < a - q * b <= 0
  {
    if a >= 0 then a / b else -((-a) / b)
  }

  /** C remainder: takes the sign of the dividend. */
  function CRem(a: int, b: int): (r: int)
    requires b > 0
    ensures a == CDiv(a, b) * b + r
    ensures a >= 0 ==> 0 <= r < b
    ensures a < 0 ==> -b < r <= 0
  {
    if a >= 0 then a % b else -((-a) % b)
  }

  datatype TimeVal = TimeVal(sec: int, usec: int)

  /** `it_value` is the first expiry, `it_interval` the repeat period. */
  datatype ITimerVal = ITimerVal(interval: TimeVal, value: TimeVal)

  /** The timer for an interval of `ms` milliseconds: whole seconds and the
      remaining microseconds, with the repeat period equal to the delay. */
  function IntervalTimer(ms: int): (t: ITimerVal)
    ensures t.interval == t.value
  {
    var v := TimeVal(CDiv(ms, 1000), CRem(ms, 1000) * 1000);
    ITimerVal(v, v)
  }

  /** The interval, in milliseconds, a timer value stands for (C arithmetic). */
  function Millis(v: TimeVal): int {
    v.sec * 1000 + CDiv(v.usec, 1000)
  }

  /** Whether `setitimer` accepts a time value: non-negative seconds and
      microseconds below one million. */
  predicate Accepted(v: TimeVal) {
    v.sec >= 0 && 0 <= v.usec < 1000000
  }

  /** The conversion loses nothing: reading the milliseconds back gives the
      requested interval, for every interval, negative ones included. */
  lemma MillisRoundTrip(ms: int)
    ensures Millis(IntervalTimer(ms).value) == ms
    ensures Millis(IntervalTimer(ms).interval) == ms
  {
    var r := CRem(ms, 1000);
    assert CDiv(r * 1000, 1000) == r by {
      if r >= 0 {
        assert (r * 1000) / 1000 == r;
      } else {
        assert (-(r * 1000)) / 1000 == -r;
      }
    }
  }

  /** For a non-negative interval: seconds `ms / 1000`, microseconds
      `(ms % 1000) * 1000`, always below one million, so the timer is one
      `setitimer` accepts; a zero interval gives the all-zero timer. */
  lemma NonNegativeInterval(ms: int)
    requires ms >= 0
    ensures IntervalTimer(ms).value == TimeVal(ms / 1000, (ms % 1000) * 1000)
    ensures 0 <= IntervalTimer(ms).value.usec < 1000000
    ensures IntervalTimer(ms).value.sec * 1000 + IntervalTimer(ms).value.usec / 1000 == ms
    ensures Accepted(IntervalTimer(ms).value)
    ensures ms == 0 <==> IntervalTimer(ms).value == TimeVal(0, 0)
  {
    var r := ms % 1000;
    assert (r * 1000) / 1000 == r;
  }

  /** A negative interval (as `atoi` may return) converts to a timer value
      `setitimer` rejects: a negative second count or a negative microsecond
      count. */
  lemma NegativeIntervalRejected(ms: int)
    requires ms < 0
    ensures !Accepted(IntervalTimer(ms).value)
  {
    var v := IntervalTimer(ms).value;
    if v.sec >= 0 {
      assert v.sec == 0;
      assert CRem(ms, 1000) < 0;
    }
  }
}
