# Birthday calculator — verified model

A model of the birthday calculator's logic. The program reads a birthday and
finds the next anniversary of that birthday, counted from the current moment.
It then reports how many whole days remain until that anniversary. The model
covers the three parts of `Program.cs` that contain logic:

- `IsValidDate`: whether a (month, day, year) triple is a real date in the
  proleptic Gregorian calendar, within DateTime's years 1 to 9999.
- `GetNextBirthday`: puts the birthday in the current year, falling back to
  February 28 when February 29 does not exist that year. If that candidate
  is already past, it rebuilds it one year later and checks the leap day
  again for that year.
- The days-until computation in `Main`: subtract now from the next birthday,
  clamp a non-positive difference to 0, round up to whole days.

Files:

- `calendar.dfy` (module `Calendar`): the leap-year rule, month lengths,
  `IsValidDate`, and day numbers counted from 0001-01-01.
- `timestamp.dfy` (module `Timestamp`): a `DateTime` record with year, month,
  day, hour, minute, second and sub-second ticks. `Ticks` turns it into the
  100-nanosecond tick count that .NET uses to compare and subtract DateTime
  values. A lemma proves that tick order is the same as calendar order.
- `birthday.dfy` (module `BirthdayCalculator`): `AnniversaryIn`, the
  specification of the date that each if/else block of `GetNextBirthday`
  builds. Also the methods `GetNextBirthday`, `DaysUntil` and
  `DaysUntilNextBirthday` (which is `Main` without I/O), and two client
  methods for the worked scenarios.

`GetNextBirthday` is a method whose local `year` and `nextBirthday` are
reassigned in the same order as in the source. Its postcondition says:

- the result is a valid date at the birthday's time of day;
- the result is in this year, or in next year exactly when this year's
  anniversary is already past;
- the result is never before the current moment;
- it is the earliest anniversary in any year that is not before the current
  moment;
- it is less than 366 days ahead.

The source throws only when it has to roll over from year 9999. The model's
precondition excludes exactly those inputs, and no others.

A Feb 29 birthday seen from March 1 of a common year rolls over to the next
year, and `IsValidDate` is checked again for that year: from March 1 2023 the
result is Feb 29 2024, not Feb 28 (`LeapDayRolloverScenario`).

`DaysUntilNextBirthday` models `Main` as written. The section "Findings"
below describes one behaviour of it that the code's own comment does not
intend, and `DaysUntilNextBirthdayOnDate` models the corrected computation
beside it.

## Model

| member | source | states |
|---|---|---|
| `Calendar.DaysInMonth` | birthday_dotnet/Program.cs:85-96 | a month has 28 to 31 days; it has 29 exactly for February of a leap year |
| `Calendar.IsValidDate` | birthday_dotnet/Program.cs:85-96 | holds (its month-by-month ensures) exactly exactly for years 1..9999, months 1..12, days 1..28 always, 29 except February of a common year, 30 except February, 31 only in the seven long months |
| `Calendar.LeapDayValidity` | birthday_dotnet/Program.cs:85-96 | February 29 is a valid date exactly in the Gregorian leap years of 1..9999 |
| `Calendar.OnlyLeapDayVaries` | birthday_dotnet/Program.cs:50-58 | a (month, day) valid in some year is invalid in another in-range year exactly when it is February 29 and that year is common, so the Feb 28 fallback serves only that case |
| `Calendar.DayNumberOrder` | birthday_dotnet/Program.cs:61 | a calendar-earlier date has a strictly smaller day number |
| `Timestamp.Ticks` | birthday_dotnet/Program.cs:22 | a valid timestamp's tick count lies within its own year's ticks and never exceeds DateTime.MaxValue.Ticks |
| `Timestamp.SameTimeOfDayDifference` | birthday_dotnet/Program.cs:22 | two timestamps at the same time of day differ by a whole number of days, the difference of their day numbers |
| `Timestamp.Before` | birthday_dotnet/Program.cs:61 | DateTime's `<`, a comparison of tick counts, holds exactly when the first timestamp is lexicographically earlier in (year, month, day, hour, minute, second, fraction) |
| `Timestamp.TicksFollowCalendarOrder` | birthday_dotnet/Program.cs:61 | fewer ticks exactly when calendar-earlier; the proof behind the contract of `Before` |
| `Timestamp.TicksInjective` | birthday_dotnet/Program.cs:26 | equal tick counts mean equal timestamps |
| `BirthdayCalculator.AnniversaryIn` | birthday_dotnet/Program.cs:50-58 | the constructed date is valid and has the given year and the birthday's hour, minute and second; it has the birthday's month and day when those are valid that year, and otherwise it is February 28 and the birthday is a February 29 in a common year |
| `BirthdayCalculator.AnniversaryDayGap` | birthday_dotnet/Program.cs:63-72 | the anniversaries of consecutive years are 365 or 366 days apart, including a Feb 28 fallback on either side |
| `BirthdayCalculator.AnniversaryGap` | birthday_dotnet/Program.cs:63-72 | the same gap in ticks: from 365 to 366 whole days |
| `BirthdayCalculator.SameYearAnniversary` | birthday_dotnet/Program.cs:46-61 | a current-year anniversary that is not before now is less than 366 days ahead |
| `BirthdayCalculator.NextYearAnniversary` | birthday_dotnet/Program.cs:61-72 | when the current-year anniversary is before now, next year's is not before now and is less than 366 days ahead |
| `BirthdayCalculator.EarliestAnniversary` | birthday_dotnet/Program.cs:60-73 | the year chosen by the roll-over rule gives the earliest anniversary, over all years 1..9999, that is not before now |
| `BirthdayCalculator.GetNextBirthday` | birthday_dotnet/Program.cs:44-76 | every construction is valid; the result is the anniversary in its year at the birthday's time of day; its year is the current year, or the next one exactly when the current-year anniversary is before now; it is not before now, it is the earliest such anniversary, and it is less than 366 days ahead |
| `BirthdayCalculator.DaysUntil` | birthday_dotnet/Program.cs:22-32 | the day count is non-negative; it is 0 when next − now ≤ 0; otherwise it is the least whole number of days at least next − now |
| `BirthdayCalculator.DaysUntilNextBirthday` | birthday_dotnet/Program.cs:19-32 | the next birthday is the anniversary GetNextBirthday chooses (in this year, or next year exactly when this year's is before now); the day count is in 0..366; it is 0 exactly when the next birthday is the current moment; otherwise it is the ceiling of the difference in days; it is 0 when now is this year's anniversary |
| `BirthdayCalculator.LeapDayRolloverScenario` | birthday_dotnet/Program.cs:63-67 | a Feb 29 1996 birthday seen from March 1 2023 gives Feb 29 2024, not Feb 28, because the leap-day check is done again for the new year |
| `BirthdayCalculator.SameDayScenario` | birthday_dotnet/Program.cs:25-29 | a July 4 birthday seen from midnight of July 4 gives a day count of 0 |
| `BirthdayCalculator.BirthdayLaterTodayScenario` | birthday_dotnet/Program.cs:20-32 | as written, a July 4 birthday seen from 09:30 on July 4 2025 rolls over to 2026 and gives 365 days |
| `BirthdayCalculator.DaysUntilNextBirthdayOnDate` | birthday_dotnet/Program.cs:19-32 | corrected Main comparing with the start of today: rolls over exactly when this year's anniversary is on an earlier date; 0..366 days; 0 exactly when now is not before the next birthday; on the anniversary's date the result is that anniversary, at most 1 day away, and 0 days for a birthday at midnight |
| `BirthdayCalculator.BirthdayLaterTodayOnDateScenario` | birthday_dotnet/Program.cs:25-29 | with the correction, the same July 4 09:30 input gives 0 days |

## Left out

- Console I/O (the prompt, `Console.ReadLine`, `Console.WriteLine` and the invalid-format message): plumbing with no logic.
- `DateTime.TryParseExact` with format `MMddyyyy`: a library parser. The model takes an already valid `DateTime` birthday instead.
- `DateTime.Now`: a clock read. The current moment is a parameter of `GetNextBirthday` and `DaysUntilNextBirthday`.
- `DateTimeKind`, time zones and daylight-saving shifts: .NET compares and subtracts the raw tick counts, and the model does the same.
- `TimeSpan.TotalDays` and `Math.Ceiling` on `double`: replaced by exact ceiling division of the tick difference by 864,000,000,000. Floating-point rounding noise is not modelled.
- The try/catch mechanism of `IsValidDate`: only its boolean result is modelled, as an explicit predicate.
- GetNextBirthday: the exception from `new DateTime` when the roll-over passes year 9999 is not modelled. The precondition excludes exactly the inputs that would throw.

## Findings

| source | as written | input that shows it | evidently intended | confidence | as-written member | corrected member |
|---|---|---|---|---|---|---|
| birthday_dotnet/Program.cs:25-29 | `GetNextBirthday(birthday, now)` compares the candidate, which is at the parsed birthday's midnight, with the full current moment, so on the birthday itself any time after 00:00:00.0000000 rolls over to next year; the clamp to 0 is reached only at that single tick | birthday 07041990, now 2025-07-04 09:30:00: 365 days are printed | "Handle cases where birthday is today": 0 days on the birthday, by comparing with the start of today (`now.Date`) | medium; not executed | `BirthdayCalculator.BirthdayLaterTodayScenario` | `BirthdayCalculator.DaysUntilNextBirthdayOnDate` |
