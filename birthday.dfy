/** The birthday calculator: the next anniversary of a birthday relative to
    the current moment (GetNextBirthday), and the number of whole days until
    it, clamped at zero and rounded up (the computation in Main). */
module BirthdayCalculator {
  import opened Calendar
  import opened Timestamp

  /** The birthday placed in `year` at the birthday's time of day, falling
      back to February 28 when the birthday's (month, day) does not exist in
      that year. This is what each of the two if/else blocks of
      GetNextBirthday constructs. */
  function AnniversaryIn(birthday: DateTime, year: int): (a: DateTime)
    requires Valid(birthday)
    requires MIN_YEAR <= year <= MAX_YEAR
    ensures Valid(a)
    ensures a.year == year
    ensures a.hour == birthday.hour && a.minute == birthday.minute && a.second == birthday.second
    ensures a.fraction == 0
    ensures IsValidDate(birthday.month, birthday.day, year) ==>
      a.month == birthday.month && a.day == birthday.day
    ensures !IsValidDate(birthday.month, birthday.day, year) ==>
      birthday.month == 2 && birthday.day == 29 && !IsLeapYear(year) && a.month == 2 && a.day == 28
  {
    OnlyLeapDayVaries(birthday.month, birthday.day, birthday.year, year);
    if IsValidDate(birthday.month, birthday.day, year) then
      DateTime(year, birthday.month, birthday.day, birthday.hour, birthday.minute, birthday.second, 0)
    else
      DateTime(year, 2, 28, birthday.hour, birthday.minute, birthday.second, 0)
  }

  /** Consecutive anniversaries are 365 or 366 days apart, even when one of
      them falls back to February 28. */
  lemma AnniversaryDayGap(birthday: DateTime, year: int)
    requires Valid(birthday)
    requires MIN_YEAR <= year < MAX_YEAR
    ensures var a, b := AnniversaryIn(birthday, year), AnniversaryIn(birthday, year + 1);
      365 <= DayNumber(b.month, b.day, b.year) - DayNumber(a.month, a.day, a.year) <= 366
  {
    var a, b := AnniversaryIn(birthday, year), AnniversaryIn(birthday, year + 1);
    assert a.month == b.month;
    DaysBeforeYearStep(year);
    DaysBeforeMonthShift(year, year + 1, a.month);
  }

  /** The same gap in ticks: at most 366 whole days from one anniversary to
      the next. */
  lemma AnniversaryGap(birthday: DateTime, year: int)
    requires Valid(birthday)
    requires MIN_YEAR <= year < MAX_YEAR
    ensures 365 * TICKS_PER_DAY <= Ticks(AnniversaryIn(birthday, year + 1)) - Ticks(AnniversaryIn(birthday, year))
    ensures Ticks(AnniversaryIn(birthday, year + 1)) - Ticks(AnniversaryIn(birthday, year)) <= 366 * TICKS_PER_DAY
  {
    var a, b := AnniversaryIn(birthday, year), AnniversaryIn(birthday, year + 1);
    AnniversaryDayGap(birthday, year);
    SameTimeOfDayDifference(a, b);
    var gap := DayNumber(b.month, b.day, b.year) - DayNumber(a.month, a.day, a.year);
    MultiplyByDayMonotone(365, gap);
    MultiplyByDayMonotone(gap, 366);
  }

  /** This year's anniversary, when it has not passed, is less than 366 days
      ahead. */
  lemma SameYearAnniversary(birthday: DateTime, now: DateTime)
    requires Valid(birthday) && Valid(now)
    ensures !Before(AnniversaryIn(birthday, now.year), now) ==>
      Ticks(AnniversaryIn(birthday, now.year)) - Ticks(now) < 366 * TICKS_PER_DAY
  {
    var a := AnniversaryIn(birthday, now.year);
    MultiplyByDayMonotone(DaysInYear(now.year), 366);
    assert Ticks(a) - Ticks(now) < DaysInYear(now.year) * TICKS_PER_DAY;
  }

  /** When this year's anniversary has passed, next year's is not in the past
      and is less than 366 days ahead. */
  lemma NextYearAnniversary(birthday: DateTime, now: DateTime)
    requires Valid(birthday) && Valid(now)
    requires now.year < MAX_YEAR
    requires Before(AnniversaryIn(birthday, now.year), now)
    ensures !Before(AnniversaryIn(birthday, now.year + 1), now)
    ensures Ticks(AnniversaryIn(birthday, now.year + 1)) - Ticks(now) < 366 * TICKS_PER_DAY
  {
    AnniversaryGap(birthday, now.year);
  }

  /** The anniversary in `year` is the earliest one not before `now` when
      `year` is this year if this year's has not passed, and next year
      otherwise. */
  lemma EarliestAnniversary(birthday: DateTime, now: DateTime, year: int)
    requires Valid(birthday) && Valid(now)
    requires year == now.year || (year == now.year + 1 && year <= MAX_YEAR)
    requires year == now.year + 1 <==> Before(AnniversaryIn(birthday, now.year), now)
    ensures forall y :: MIN_YEAR <= y <= MAX_YEAR && !Before(AnniversaryIn(birthday, y), now) ==>
      !Before(AnniversaryIn(birthday, y), AnniversaryIn(birthday, year))
  {
  }

  /** Program.GetNextBirthday. The source throws when the roll-over would
      leave year 9999; the second precondition is exactly the set of inputs
      for which it does not. */
  method GetNextBirthday(birthday: DateTime, currentDate: DateTime) returns (nextBirthday: DateTime)
    requires Valid(birthday) && Valid(currentDate)
    requires currentDate.year < MAX_YEAR || !Before(AnniversaryIn(birthday, currentDate.year), currentDate)
    // the returned value is a valid DateTime; each of the four constructions
    // in the body is one, by the ensures of AnniversaryIn and the asserts
    // after each if/else
    ensures Valid(nextBirthday)
    // the result is an anniversary: the birthday's (month, day), or February 28
    // in place of February 29 in a common year, at the birthday's time of day
    ensures nextBirthday == AnniversaryIn(birthday, nextBirthday.year)
    ensures nextBirthday.hour == birthday.hour && nextBirthday.minute == birthday.minute &&
            nextBirthday.second == birthday.second && nextBirthday.fraction == 0
    ensures IsValidDate(birthday.month, birthday.day, nextBirthday.year) ==>
      nextBirthday.month == birthday.month && nextBirthday.day == birthday.day
    ensures !IsValidDate(birthday.month, birthday.day, nextBirthday.year) ==>
      birthday.month == 2 && birthday.day == 29 && !IsLeapYear(nextBirthday.year) &&
      nextBirthday.month == 2 && nextBirthday.day == 28
    // the year is this year, or the next one exactly when this year's has passed
    ensures nextBirthday.year == currentDate.year || nextBirthday.year == currentDate.year + 1
    ensures nextBirthday.year == currentDate.year + 1 <==>
      Before(AnniversaryIn(birthday, currentDate.year), currentDate)
    // never in the past, and the earliest anniversary that is not
    ensures !Before(nextBirthday, currentDate)
    ensures forall year :: MIN_YEAR <= year <= MAX_YEAR && !Before(AnniversaryIn(birthday, year), currentDate) ==>
      !Before(AnniversaryIn(birthday, year), nextBirthday)
    // less than 366 days ahead
    ensures Ticks(nextBirthday) - Ticks(currentDate) < 366 * TICKS_PER_DAY
  {
    var year := currentDate.year;
    OnlyLeapDayVaries(birthday.month, birthday.day, birthday.year, year);
    if IsValidDate(birthday.month, birthday.day, year) {
      nextBirthday := DateTime(year, birthday.month, birthday.day, birthday.hour, birthday.minute, birthday.second, 0);
    } else {
      // February 29 in a common year
      nextBirthday := DateTime(year, 2, 28, birthday.hour, birthday.minute, birthday.second, 0);
    }
    assert nextBirthday == AnniversaryIn(birthday, year);
    SameYearAnniversary(birthday, currentDate);

    if Before(nextBirthday, currentDate) {
      year := year + 1;
      OnlyLeapDayVaries(birthday.month, birthday.day, birthday.year, year);
      if IsValidDate(birthday.month, birthday.day, year) {
        nextBirthday := DateTime(year, birthday.month, birthday.day, birthday.hour, birthday.minute, birthday.second, 0);
      } else {
        // February 29 in a common year
        nextBirthday := DateTime(year, 2, 28, birthday.hour, birthday.minute, birthday.second, 0);
      }
      assert nextBirthday == AnniversaryIn(birthday, year);
      NextYearAnniversary(birthday, currentDate);
    }
    EarliestAnniversary(birthday, currentDate, year);
  }

  /** Main's days-until computation: the difference next - now, set to 0
      when it is not positive, rounded up to whole days. The difference is
      kept in exact ticks rather than as a fractional day count. */
  method DaysUntil(nextBirthday: DateTime, now: DateTime) returns (days: int)
    requires Valid(nextBirthday) && Valid(now)
    ensures days >= 0
    ensures Ticks(nextBirthday) - Ticks(now) <= 0 ==> days == 0
    ensures Ticks(nextBirthday) - Ticks(now) > 0 ==>
      (days - 1) * TICKS_PER_DAY < Ticks(nextBirthday) - Ticks(now) <= days * TICKS_PER_DAY
  {
    var difference := Ticks(nextBirthday) - Ticks(now);
    var daysUntil := difference;
    if daysUntil <= 0 {
      daysUntil := 0;
    }
    days := (daysUntil + TICKS_PER_DAY - 1) / TICKS_PER_DAY;
  }

  /** A ceiling of fewer than `bound` days of ticks is at most `bound`. */
  lemma WholeDaysBound(days: int, difference: int, bound: int)
    requires (days - 1) * TICKS_PER_DAY < difference < bound * TICKS_PER_DAY
    ensures days <= bound
  {
    if days > bound {
      MultiplyByDayMonotone(bound, days - 1);
    }
  }

  /** Main without its console I/O and clock read: the parsed birthday and
      the current moment are parameters; the result is the next birthday and
      the number of days printed. */
  method DaysUntilNextBirthday(birthday: DateTime, now: DateTime) returns (nextBirthday: DateTime, days: int)
    requires Valid(birthday) && Valid(now)
    requires now.year < MAX_YEAR || !Before(AnniversaryIn(birthday, now.year), now)
    ensures Valid(nextBirthday) && !Before(nextBirthday, now)
    // the next birthday is the one GetNextBirthday chooses
    ensures nextBirthday == AnniversaryIn(birthday, nextBirthday.year)
    ensures nextBirthday.year == now.year || nextBirthday.year == now.year + 1
    ensures nextBirthday.year == now.year + 1 <==> Before(AnniversaryIn(birthday, now.year), now)
    ensures 0 <= days <= 366
    ensures days == 0 <==> nextBirthday == now
    ensures days > 0 ==>
      (days - 1) * TICKS_PER_DAY < Ticks(nextBirthday) - Ticks(now) <= days * TICKS_PER_DAY
    ensures AnniversaryIn(birthday, now.year) == now ==> days == 0
  {
    nextBirthday := GetNextBirthday(birthday, now);
    days := DaysUntil(nextBirthday, now);
    if Ticks(nextBirthday) == Ticks(now) {
      TicksInjective(nextBirthday, now);
    }
  }

  /** A February 29 birthday seen from March 1 of the common year 2023 rolls
      over to 2024, where February 29 exists again and is used. */
  method LeapDayRolloverScenario() returns (nextBirthday: DateTime)
    ensures nextBirthday == DateTime(2024, 2, 29, 0, 0, 0, 0)
  {
    var birthday := DateTime(1996, 2, 29, 0, 0, 0, 0);
    var now := DateTime(2023, 3, 1, 9, 30, 0, 0);
    nextBirthday := GetNextBirthday(birthday, now);
  }

  /** A birthday on July 4 seen from midnight of July 4 is zero days away. */
  method SameDayScenario() returns (days: int)
    ensures days == 0
  {
    var birthday := DateTime(1990, 7, 4, 0, 0, 0, 0);
    var now := DateTime(2025, 7, 4, 0, 0, 0, 0);
    var nextBirthday;
    nextBirthday, days := DaysUntilNextBirthday(birthday, now);
  }

  /** The code as written, for a birthday falling today: the parsed birthday
      is at midnight, so from 09:30 on its anniversary the current-year
      candidate is already earlier than now, GetNextBirthday rolls over, and
      365 days are reported instead of 0. */
  method BirthdayLaterTodayScenario() returns (days: int)
    ensures days == 365
  {
    var birthday := DateTime(1990, 7, 4, 0, 0, 0, 0);
    var now := DateTime(2025, 7, 4, 9, 30, 0, 0);
    var nextBirthday;
    nextBirthday, days := DaysUntilNextBirthday(birthday, now);
    assert nextBirthday == DateTime(2026, 7, 4, 0, 0, 0, 0);
  }

  /** Main as the comment "Handle cases where birthday is today" intends:
      the candidate is compared with the start of today (`now.Date`) rather
      than with now, so a birthday on today's date is not rolled over. */
  method DaysUntilNextBirthdayOnDate(birthday: DateTime, now: DateTime) returns (nextBirthday: DateTime, days: int)
    requires Valid(birthday) && Valid(now)
    requires now.year < MAX_YEAR || !Before(AnniversaryIn(birthday, now.year), StartOfDay(now))
    ensures Valid(nextBirthday)
    ensures nextBirthday == AnniversaryIn(birthday, nextBirthday.year)
    ensures nextBirthday.year == now.year || nextBirthday.year == now.year + 1
    // roll over exactly when this year's anniversary falls on an earlier date
    ensures var a := AnniversaryIn(birthday, now.year);
      nextBirthday.year == now.year + 1 <==> DateBefore(a.month, a.day, a.year, now.month, now.day, now.year)
    ensures 0 <= days <= 366
    ensures days == 0 <==> !Before(now, nextBirthday)
    ensures days > 0 ==>
      (days - 1) * TICKS_PER_DAY < Ticks(nextBirthday) - Ticks(now) <= days * TICKS_PER_DAY
    // on the anniversary's date: that anniversary, at most one day away, and
    // no day at all for a birthday at midnight (as "MMddyyyy" parses it)
    ensures var a := AnniversaryIn(birthday, now.year);
      a.month == now.month && a.day == now.day ==> nextBirthday == a && days <= 1
    ensures var a := AnniversaryIn(birthday, now.year);
      (a.month == now.month && a.day == now.day &&
       birthday.hour == 0 && birthday.minute == 0 && birthday.second == 0) ==> days == 0
  {
    var today := StartOfDay(now);
    nextBirthday := GetNextBirthday(birthday, today);
    days := DaysUntil(nextBirthday, now);

    var difference := Ticks(nextBirthday) - Ticks(now);
    assert difference < 366 * TICKS_PER_DAY;
    if days > 0 {
      WholeDaysBound(days, difference, 366);
    }
    var a := AnniversaryIn(birthday, now.year);
    if a.month == now.month && a.day == now.day {
      assert StartOfDay(a) == today;
      assert nextBirthday == a;
      if days > 0 {
        WholeDaysBound(days, difference, 1);
      }
    }
  }

  /** The corrected computation on the same input: 0 days. */
  method BirthdayLaterTodayOnDateScenario() returns (days: int)
    ensures days == 0
  {
    var birthday := DateTime(1990, 7, 4, 0, 0, 0, 0);
    var now := DateTime(2025, 7, 4, 9, 30, 0, 0);
    var nextBirthday;
    nextBirthday, days := DaysUntilNextBirthdayOnDate(birthday, now);
  }
}
