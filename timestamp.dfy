/** The part of .NET's DateTime that the birthday calculator uses: a
    timestamp with date, time of day and sub-second ticks, its tick count
    since 0001-01-01 00:00:00 (which is how DateTime compares and subtracts),
    and the fact that this order is the calendar order. */
module Timestamp {
  import opened Calendar

  const TICKS_PER_SECOND := 10_000_000
  const TICKS_PER_MINUTE := 60 * TICKS_PER_SECOND
  const TICKS_PER_HOUR := 60 * TICKS_PER_MINUTE
  const TICKS_PER_DAY := 24 * TICKS_PER_HOUR
  /** DateTime.MaxValue.Ticks: the last tick of 9999-12-31. */
  const MAX_TICKS := 3_155_378_975_999_999_999

  /** `fraction` is the sub-second part, in 100-nanosecond ticks. */
  datatype DateTime = DateTime(year: int, month: int, day: int,
                               hour: int, minute: int, second: int, fraction: int)

  /** What a DateTime value can hold: a valid date and an in-range time. */
  predicate Valid(t: DateTime) {
    IsValidDate(t.month, t.day, t.year) &&
    0 <= t.hour < 24 && 0 <= t.minute < 60 && 0 <= t.second < 60 &&
    0 <= t.fraction < TICKS_PER_SECOND
  }

  /** Ticks elapsed since midnight of the timestamp's day. */
  function TimeOfDayTicks(t: DateTime): (ticks: int)
    requires Valid(t)
    ensures 0 <= ticks < TICKS_PER_DAY
  {
    t.hour * TICKS_PER_HOUR + t.minute * TICKS_PER_MINUTE + t.second * TICKS_PER_SECOND + t.fraction
  }

  /** DateTime.Ticks: ticks elapsed since 0001-01-01 00:00:00. */
  function Ticks(t: DateTime): (ticks: int)
    requires Valid(t)
    ensures 0 <= ticks <= MAX_TICKS
    ensures DaysBeforeYear(t.year) * TICKS_PER_DAY <= ticks
    ensures ticks < (DaysBeforeYear(t.year) + DaysInYear(t.year)) * TICKS_PER_DAY
  {
    var days := DayNumber(t.month, t.day, t.year);
    DayNumberWithinYear(t.month, t.day, t.year);
    DayNumberBound(t.month, t.day, t.year);
    MultiplyByDayMonotone(DaysBeforeYear(t.year), days);
    MultiplyByDayMonotone(days + 1, DaysBeforeYear(t.year) + DaysInYear(t.year));
    MultiplyByDayMonotone(days + 1, 3652059);
    days * TICKS_PER_DAY + TimeOfDayTicks(t)
  }

  /** Scaling a day count to ticks keeps its order. */
  lemma MultiplyByDayMonotone(x: int, y: int)
    requires x <= y
    ensures x * TICKS_PER_DAY <= y * TICKS_PER_DAY
  {
  }

  /** Two timestamps at the same time of day are a whole number of days
      apart: the difference of their day numbers. */
  lemma SameTimeOfDayDifference(a: DateTime, b: DateTime)
    requires Valid(a) && Valid(b)
    requires TimeOfDayTicks(a) == TimeOfDayTicks(b)
    ensures Ticks(b) - Ticks(a) ==
      (DayNumber(b.month, b.day, b.year) - DayNumber(a.month, a.day, a.year)) * TICKS_PER_DAY
  {
  }

  /** DateTime's `<`: comparison of tick counts, which is calendar order. */
  predicate Before(a: DateTime, b: DateTime)
    requires Valid(a) && Valid(b)
    ensures Before(a, b) <==> LexBefore(a, b)
  {
    TicksFollowCalendarOrder(a, b);
    Ticks(a) < Ticks(b)
  }

  /** DateTime.Date: midnight at the start of the timestamp's day. */
  function StartOfDay(t: DateTime): (d: DateTime)
    requires Valid(t)
    ensures Valid(d)
    ensures d.year == t.year && d.month == t.month && d.day == t.day
    ensures d.hour == 0 && d.minute == 0 && d.second == 0 && d.fraction == 0
    ensures !Before(t, d)
    ensures Ticks(t) - Ticks(d) < TICKS_PER_DAY
  {
    DateTime(t.year, t.month, t.day, 0, 0, 0, 0)
  }

  /** Calendar order: lexicographic on (year, month, day, hour, minute,
      second, fraction). */
  predicate LexBefore(a: DateTime, b: DateTime) {
    DateBefore(a.month, a.day, a.year, b.month, b.day, b.year) ||
    (a.year == b.year && a.month == b.month && a.day == b.day &&
     (a.hour < b.hour ||
      (a.hour == b.hour && (a.minute < b.minute ||
        (a.minute == b.minute && (a.second < b.second ||
          (a.second == b.second && a.fraction < b.fraction)))))))
  }

  /** An earlier time of day on the same day has fewer ticks. */
  lemma TimeOfDayOrder(a: DateTime, b: DateTime)
    requires Valid(a) && Valid(b)
    requires a.year == b.year && a.month == b.month && a.day == b.day
    requires LexBefore(a, b)
    ensures TimeOfDayTicks(a) < TimeOfDayTicks(b)
  {
  }

  /** Calendar order implies tick order. */
  lemma LexBeforeImpliesFewerTicks(a: DateTime, b: DateTime)
    requires Valid(a) && Valid(b)
    requires LexBefore(a, b)
    ensures Ticks(a) < Ticks(b)
  {
    if DateBefore(a.month, a.day, a.year, b.month, b.day, b.year) {
      DayNumberOrder(a.month, a.day, a.year, b.month, b.day, b.year);
      var da, db := DayNumber(a.month, a.day, a.year), DayNumber(b.month, b.day, b.year);
      assert da * TICKS_PER_DAY + TICKS_PER_DAY <= db * TICKS_PER_DAY;
    } else {
      TimeOfDayOrder(a, b);
    }
  }

  /** Tick order is exactly calendar order. */
  lemma TicksFollowCalendarOrder(a: DateTime, b: DateTime)
    requires Valid(a) && Valid(b)
    ensures Ticks(a) < Ticks(b) <==> LexBefore(a, b)
  {
    if LexBefore(a, b) {
      LexBeforeImpliesFewerTicks(a, b);
    } else if LexBefore(b, a) {
      LexBeforeImpliesFewerTicks(b, a);
    } else {
      assert a == b;
    }
  }

  /** Distinct timestamps have distinct tick counts. */
  lemma TicksInjective(a: DateTime, b: DateTime)
    requires Valid(a) && Valid(b)
    requires Ticks(a) == Ticks(b)
    ensures a == b
  {
    if LexBefore(a, b) {
      LexBeforeImpliesFewerTicks(a, b);
    } else if LexBefore(b, a) {
      LexBeforeImpliesFewerTicks(b, a);
    }
  }
}
