/**
 * Whole-second truncation of the implicit time value: the server clock
 * reading, in microseconds, is cut down to a whole number of seconds with
 * C's integer division, which rounds toward zero.
 */
module ImplicitTimestamp {
  import opened PgTypes

  const USECS_PER_SEC: int := 1_000_000

  /** C's `/` by USECS_PER_SEC: the quotient rounded toward zero. */
  function CDivSeconds(a: int): (q: int)
    ensures 0 <= a ==> 0 <= q * USECS_PER_SEC <= a < q * USECS_PER_SEC + USECS_PER_SEC
    ensures a < 0 ==> q * USECS_PER_SEC - USECS_PER_SEC < a <= q * USECS_PER_SEC <= 0
  {
    if a >= 0 then a / USECS_PER_SEC else -((-a) / USECS_PER_SEC)
  }

  /**
   * The truncation `get_current_timestamp` applies to the clock reading:
   * a whole number of seconds, no farther from zero than the reading and
   * less than one second away from it.
   */
  function TruncateToSeconds(now: Timestamp): (t: Timestamp)
    ensures t % USECS_PER_SEC == 0
    ensures 0 <= now ==> 0 <= t <= now && now - t < USECS_PER_SEC
    ensures now < 0 ==> now <= t <= 0 && t - now < USECS_PER_SEC
  {
    CDivSeconds(now) * USECS_PER_SEC
  }

  /** A whole number of seconds is left as it is. */
  lemma TruncateWholeSeconds(t: Timestamp)
    requires t % USECS_PER_SEC == 0
    ensures TruncateToSeconds(t) == t
  {
    if t >= 0 {
      assert t == (t / USECS_PER_SEC) * USECS_PER_SEC;
    } else {
      assert -t == ((-t) / USECS_PER_SEC) * USECS_PER_SEC;
    }
  }

  /** Truncating twice is truncating once. */
  lemma TruncateIdempotent(now: Timestamp)
    ensures TruncateToSeconds(TruncateToSeconds(now)) == TruncateToSeconds(now)
  {
    TruncateWholeSeconds(TruncateToSeconds(now));
  }

  /** A later clock reading never truncates to an earlier value. */
  lemma TruncateMonotonic(a: Timestamp, b: Timestamp)
    requires a <= b
    ensures TruncateToSeconds(a) <= TruncateToSeconds(b)
  {
  }
}
