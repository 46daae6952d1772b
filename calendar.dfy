/** Proleptic Gregorian calendar arithmetic: the date rules that the .NET
    DateTime constructor enforces and that the birthday calculator relies on
    through IsValidDate, together with the day numbering (days since
    0001-01-01) that DateTime uses to order and subtract timestamps. */
module Calendar {

  const MIN_YEAR := 1
  const MAX_YEAR := 9999

  /** Gregorian leap-year rule. */
  predicate IsLeapYear(year: int) {
    year % 4 == 0 && (year % 100 != 0 || year % 400 == 0)
  }

  function DaysInMonth(year: int, month: int): (n: int)
    requires 1 <= month <= 12
    ensures 28 <= n <= 31
    ensures n == 29 <==> month == 2 && IsLeapYear(year)
  {
    if month == 2 then (if IsLeapYear(year) then 29 else 28)
    else if month == 4 || month == 6 || month == 9 || month == 11 then 30
    else 31
  }

  function DaysInYear(year: int): (n: int)
    ensures n == 365 || n == 366
  {
    if IsLeapYear(year) then 366 else 365
  }

  /** Program.IsValidDate: whether `new DateTime(year, month, day)` succeeds,
      i.e. the year is in DateTime's range and the day exists in that month.
      The ensures states the same rule month by month. */
  predicate IsValidDate(month: int, day: int, year: int)
    ensures IsValidDate(month, day, year) <==>
      MIN_YEAR <= year <= MAX_YEAR && 1 <= month <= 12 && 1 <= day &&
      (day <= 28 ||
       (day == 29 && (month != 2 || IsLeapYear(year))) ||
       (day == 30 && month != 2) ||
       (day == 31 && (month == 1 || month == 3 || month == 5 || month == 7 ||
                      month == 8 || month == 10 || month == 12)))
  {
    MIN_YEAR <= year <= MAX_YEAR && 1 <= month <= 12 && 1 <= day <= DaysInMonth(year, month)
  }

  /** Number of days from 0001-01-01 to January 1 of `year`, in the closed
      form DateTime uses (365 per year plus the leap days before it). */
  function DaysBeforeYear(year: int): int
    requires year >= 1
  {
    var n := year - 1;
    n * 365 + n / 4 - n / 100 + n / 400
  }

  /** Number of days in `year` before the first of `month` (month 13 stands
      for the end of the year). */
  function DaysBeforeMonth(year: int, month: int): int
    requires 1 <= month <= 13
    decreases month
  {
    if month == 1 then 0 else DaysBeforeMonth(year, month - 1) + DaysInMonth(year, month - 1)
  }

  /** Days from 0001-01-01 to the given date. */
  function DayNumber(month: int, day: int, year: int): int
    requires IsValidDate(month, day, year)
  {
    DaysBeforeYear(year) + DaysBeforeMonth(year, month) + day - 1
  }

  /** Lexicographic order on (year, month, day). */
  predicate DateBefore(m1: int, d1: int, y1: int, m2: int, d2: int, y2: int) {
    y1 < y2 || (y1 == y2 && (m1 < m2 || (m1 == m2 && d1 < d2)))
  }

  // ---------------------------------------------------------------------
  // Validity

  /** February 29 exists exactly in the leap years of DateTime's range. */
  lemma LeapDayValidity(year: int)
    ensures IsValidDate(2, 29, year) <==> MIN_YEAR <= year <= MAX_YEAR && IsLeapYear(year)
  {
  }

  /** A (month, day) that is a real date in some year is a real date in every
      year of the range, except February 29 in a common year. */
  lemma OnlyLeapDayVaries(month: int, day: int, someYear: int, year: int)
    requires IsValidDate(month, day, someYear)
    requires MIN_YEAR <= year <= MAX_YEAR
    ensures !IsValidDate(month, day, year) <==> month == 2 && day == 29 && !IsLeapYear(year)
  {
  }

  // ---------------------------------------------------------------------
  // Day numbering

  /** The closed form for the start of a year adds exactly the length of the
      previous year. */
  lemma DaysBeforeYearStep(year: int)
    requires year >= 1
    ensures DaysBeforeYear(year + 1) == DaysBeforeYear(year) + DaysInYear(year)
  {
    var n := year - 1;
    assert (n + 1) / 4 == n / 4 + (if year % 4 == 0 then 1 else 0);
    assert (n + 1) / 100 == n / 100 + (if year % 100 == 0 then 1 else 0);
    assert (n + 1) / 400 == n / 400 + (if year % 400 == 0 then 1 else 0);
  }

  /** Every later year starts after the end of an earlier one. */
  lemma {:induction false} DaysBeforeYearMonotone(year: int, later: int)
    requires 1 <= year < later
    ensures DaysBeforeYear(year) + DaysInYear(year) <= DaysBeforeYear(later)
    decreases later - year
  {
    DaysBeforeYearStep(year);
    if year + 1 < later {
      DaysBeforeYearMonotone(year + 1, later);
    }
  }

  /** The months of a year add up to the length of the year. */
  lemma FullYearOfMonths(year: int)
    ensures DaysBeforeMonth(year, 13) == DaysInYear(year)
  {
    assert DaysBeforeMonth(year, 2) == 31;
    assert DaysBeforeMonth(year, 3) == 59 + (if IsLeapYear(year) then 1 else 0);
    assert DaysBeforeMonth(year, 13) == DaysBeforeMonth(year, 3) + 306;
  }

  /** Every later month starts after the end of an earlier one. */
  lemma {:induction false} DaysBeforeMonthMonotone(year: int, month: int, later: int)
    requires 1 <= month < later <= 13
    ensures DaysBeforeMonth(year, month) + DaysInMonth(year, month) <= DaysBeforeMonth(year, later)
    decreases later - month
  {
    if month + 1 < later {
      DaysBeforeMonthMonotone(year, month + 1, later);
    }
  }

  /** Two years' month starts differ only by February 29 and only after
      February. */
  lemma {:induction false} DaysBeforeMonthShift(year: int, other: int, month: int)
    requires 1 <= month <= 13
    ensures DaysBeforeMonth(other, month) - DaysBeforeMonth(year, month) ==
      (if month <= 2 then 0
       else (if IsLeapYear(other) then 1 else 0) - (if IsLeapYear(year) then 1 else 0))
    decreases month
  {
    if month > 1 {
      DaysBeforeMonthShift(year, other, month - 1);
    }
  }

  /** A date's day number lies within its year. */
  lemma DayNumberWithinYear(month: int, day: int, year: int)
    requires IsValidDate(month, day, year)
    ensures DaysBeforeYear(year) <= DayNumber(month, day, year) < DaysBeforeYear(year) + DaysInYear(year)
  {
    DaysBeforeMonthMonotone(year, month, 13);
    FullYearOfMonths(year);
  }

  /** Day numbers follow calendar order: an earlier date has a smaller number. */
  lemma DayNumberOrder(m1: int, d1: int, y1: int, m2: int, d2: int, y2: int)
    requires IsValidDate(m1, d1, y1) && IsValidDate(m2, d2, y2)
    requires DateBefore(m1, d1, y1, m2, d2, y2)
    ensures DayNumber(m1, d1, y1) < DayNumber(m2, d2, y2)
  {
    if y1 < y2 {
      DayNumberWithinYear(m1, d1, y1);
      DayNumberWithinYear(m2, d2, y2);
      DaysBeforeYearMonotone(y1, y2);
    } else if m1 < m2 {
      DaysBeforeMonthMonotone(y1, m1, m2);
    }
  }

  /** The last day of DateTime's range has number 3652058, so every valid
      date is numbered below 3652059. */
  lemma DayNumberBound(month: int, day: int, year: int)
    requires IsValidDate(month, day, year)
    ensures 0 <= DayNumber(month, day, year) < 3652059
  {
    DayNumberWithinYear(month, day, year);
    if year < MAX_YEAR {
      DaysBeforeYearMonotone(year, MAX_YEAR);
    }
    assert DaysBeforeYear(MAX_YEAR) + DaysInYear(MAX_YEAR) == 3652059;
  }
}
