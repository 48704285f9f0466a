/**
 * The timestamps of solution.c. A clock gives the reading of every call of clock_gettime in turn.
 */
module WorkTime {
  const BILLION := 1_000_000_000

  datatype Timespec = Timespec(sec: int, nsec: int)

  predicate Normal(t: Timespec) { 0 <= t.nsec < BILLION }

  function Nanos(t: Timespec): int { t.sec * BILLION + t.nsec }

  /** The normalised timespec of so many nanoseconds. */
  function FromNanos(n: int): (t: Timespec)
    ensures Normal(t) && Nanos(t) == n
  {
    Timespec(n / BILLION, n % BILLION)
  }

  /** The monotonic clock: its readings are normalised and never decrease. */
  ghost predicate Steady(clock: nat -> Timespec) {
    && (forall n: nat :: Normal(clock(n)))
    && forall m: nat, n: nat | m <= n :: Nanos(clock(m)) <= Nanos(clock(n))
  }

  /** get_time_diff is exact, and borrows at most one second. */
  function TimeDiff(from: Timespec, to: Timespec): (d: Timespec)
    requires Normal(from) && Normal(to)
    ensures d == FromNanos(Nanos(to) - Nanos(from))
    ensures Nanos(from) <= Nanos(to) ==> d.sec >= 0
  {
    var sec, nsec := to.sec - from.sec, to.nsec - from.nsec;
    if nsec < 0 then Timespec(sec - 1, nsec + BILLION) else Timespec(sec, nsec)
  }

  /** The two timestamps of struct my_context. */
  class Context {
    var prevTimestamp: Timespec
    var coroWorkTime: Timespec

    constructor ()
      ensures coroWorkTime == Timespec(0, 0) && prevTimestamp == Timespec(0, 0)
    {
      prevTimestamp, coroWorkTime := Timespec(0, 0), Timespec(0, 0);
    }

    /** Lines 291-297. */
    method SetCoroTimestamp(reading: Timespec)
      modifies `prevTimestamp
      ensures prevTimestamp == reading
    {
      prevTimestamp := reading;
    }

    /** Lines 270-288: exact, and normalised again after at most one carry. */
    method UpdateCoroWorkTime(reading: Timespec)
      requires Normal(reading) && Normal(prevTimestamp) && Normal(coroWorkTime)
      modifies `coroWorkTime
      ensures coroWorkTime == FromNanos(old(Nanos(coroWorkTime)) + Nanos(reading) - Nanos(prevTimestamp))
    {
      var timeDiff := TimeDiff(prevTimestamp, reading);
      var sec, nsec := coroWorkTime.sec + timeDiff.sec, coroWorkTime.nsec + timeDiff.nsec;
      var additionalSecs := nsec / BILLION;
      if additionalSecs > 0 {
        sec := sec + additionalSecs;
        nsec := nsec - additionalSecs * BILLION;
      }
      coroWorkTime := Timespec(sec, nsec);
    }
  }
}
