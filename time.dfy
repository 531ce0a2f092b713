/** Instants as whole seconds since the epoch, read in UTC, and the two
    calendar measures the core uses: the minute of the hour and the number of
    whole days between two instants. */
module Time {

  /** Seconds since 1970-01-01T00:00:00Z; negative before the epoch. */
  type Instant = int

  const SecondsPerMinute: int := 60
  const SecondsPerHour: int := 3600
  const SecondsPerDay: int := 86400

  /** `OffsetDateTime.getMinute()` at offset UTC.  Dafny's `/` and `%` round
      toward negative infinity for a positive divisor, as the JDK's
      floor-division of epoch seconds does. */
  function MinuteOfHour(t: Instant): (m: int)
    ensures 0 <= m < 60
    ensures t % SecondsPerHour == m * SecondsPerMinute + t % SecondsPerMinute
  {
    (t / SecondsPerMinute) % 60
  }

  /** On minute 00 of some hour (seconds are not looked at). */
  predicate OnTheHour(t: Instant)
  {
    MinuteOfHour(t) == 0
  }

  /** Integer division rounding toward zero, as Java's `long` division does. */
  function TruncDiv(a: int, d: int): (q: int)
    requires d > 0
    ensures a >= 0 ==> q >= 0 && q * d <= a < (q + 1) * d
    ensures a < 0 ==> q <= 0 && (q - 1) * d < a <= q * d
  {
    var q := (if a >= 0 then a else -a) / d;
    FloorDivBounds(if a >= 0 then a else -a, d);
    if a >= 0 then q
    else
      NegatedBounds(q, d, a);
      -q
  }

  lemma FloorDivBounds(n: int, d: int)
    requires n >= 0 && d > 0
    ensures 0 <= n / d && (n / d) * d <= n < (n / d + 1) * d
  {
  }

  lemma NegatedBounds(p: int, d: int, a: int)
    requires p * d <= -a < (p + 1) * d
    ensures (-p - 1) * d < a <= (-p) * d
  {
    assert (-p) * d == -(p * d);
    assert (-p - 1) * d == -((p + 1) * d);
  }

  /** `from.until(to, ChronoUnit.DAYS)`: the signed number of complete days
      from `from` to `to`, a partial day dropped toward zero. */
  function DaysUntil(from: Instant, to: Instant): (days: int)
    ensures to >= from ==> 0 <= days && days * SecondsPerDay <= to - from < (days + 1) * SecondsPerDay
    ensures to < from ==> days <= 0 && (days - 1) * SecondsPerDay < to - from <= days * SecondsPerDay
  {
    TruncDiv(to - from, SecondsPerDay)
  }

  /** `plusHours(k)` leaves the minute of the hour unchanged. */
  lemma MinuteOfHourAfterHours(t: Instant, k: int)
    ensures MinuteOfHour(t + k * SecondsPerHour) == MinuteOfHour(t)
  {
    var q := t / SecondsPerMinute;
    var r := t % SecondsPerMinute;
    assert t == q * 60 + r && 0 <= r < 60;
    assert t + k * SecondsPerHour == (q + 60 * k) * 60 + r;
    assert (t + k * SecondsPerHour) / SecondsPerMinute == q + 60 * k;
    assert (q + 60 * k) % 60 == q % 60;
  }
}
