/**
 * Calendar arithmetic behind the counter-reset policy.
 *
 * An instant is a whole number of seconds since 1970-01-01T00:00:00 UTC.
 * A day is a calendar date in Japan Standard Time (UTC+9, no daylight saving),
 * written as the number of days since 1970-01-01, which was a Thursday.
 * Weekdays follow Python's `date.weekday()`: Monday is 0 and Sunday is 6.
 */
module Dates {

  type Instant = int
  type Day = int

  const SecondsPerDay: int := 86400
  /** Offset of Asia/Tokyo from UTC, in seconds. */
  const JstOffset: int := 9 * 3600
  /** Weekday of day 0 (1970-01-01, a Thursday). */
  const EpochWeekday: int := 3

  /** The JST calendar date of an instant: `t.astimezone(JST).date()`. */
  function JstDate(t: Instant): (d: Day)
    ensures d * SecondsPerDay <= t + JstOffset < d * SecondsPerDay + SecondsPerDay
  {
    (t + JstOffset) / SecondsPerDay
  }

  /** `date.weekday()`: 0 for Monday through 6 for Sunday. */
  function Weekday(d: Day): (w: int)
    ensures 0 <= w < 7
    ensures (d + EpochWeekday - w) % 7 == 0
  {
    (d + EpochWeekday) % 7
  }

  /** `today - timedelta(days=today.weekday())`: the Monday of the week holding `d`. */
  function WeekStart(d: Day): (m: Day)
    ensures m <= d < m + 7
    ensures Weekday(m) == 0
  {
    var m := d - Weekday(d);
    assert (m + EpochWeekday) % 7 == 0;
    m
  }

  /** Two days lie in the same Monday-to-Sunday week exactly when they share a Monday. */
  lemma {:induction false} WeekStartUnique(d: Day, m: Day)
    requires m <= d < m + 7
    requires Weekday(m) == 0
    ensures WeekStart(d) == m
  {
    var w := WeekStart(d);
    assert (w + EpochWeekday) % 7 == 0 && (m + EpochWeekday) % 7 == 0;
    var k := (w + EpochWeekday) / 7;
    var j := (m + EpochWeekday) / 7;
    assert w + EpochWeekday == 7 * k;
    assert m + EpochWeekday == 7 * j;
    assert -7 < 7 * k - 7 * j < 7;
    assert k == j;
  }
}
