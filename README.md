# go-hijri: the arithmetical Islamic calendar, modelled in Dafny

go-hijri converts dates between the Gregorian calendar and the arithmetical
(tabular) Hijri calendar. That calendar has 30-year cycles of 10631 days. A
common year has 354 days. Month 12 gets an extra day in the leap years, and
four patterns (`Default`, `Base15`, `Fattimid`, `HabashAlHasib`) say which
11 positions of a cycle are leap years.

The model keeps the calendar arithmetic of `hijri.go` and drops the
time-of-day and Julian-day plumbing. A day is named by its integer count `n`
of days since the Hijri epoch. The Julian day of its midnight is
`1948438.5 + n`, the shift that both conversions apply. The modules follow
the program's pieces:

- `GoArith` (`go_arith.dfy`) gives Go's truncating `/` and `%`. Dafny's own
  operators are Euclidean. The two differ only when `ToGregorian` is given
  a year of 0 or less, which a `HijriDate` value can carry.
- `LeapYears` (`leap_years.dfy`) holds the patterns, `isLeapYear`, and the
  leap-year count that the two counting loops compute.
- `HijriDates` (`hijri_date.dfy`) holds the `HijriDate` value, the single
  month-length rule that all three call sites of the source use, and the
  validator `NewHijriDate`.
- `Conversion` (`conversion.dfy`) holds the integer cores of
  `CreateHijriDate` and `ToGregorian`. They are written as methods with the
  source's loops. Each is proved equal to a specification function
  (`DateOfDayCount`, `DayCount`), and the calendar's properties are proved
  about those functions.

Three behaviours of the code differ from its documentation. The model
follows the code in each case.

- `HabashAlHasib` lists year 30 as a leap year (hijri.go:30-32, 207), but
  `isLeapYear` first reduces the year modulo 30 (hijri.go:184). The label 30
  can never match. So the pattern has 10 leap years per cycle while both
  conversions still assume 10631-day cycles. The count 10631·c gets the
  same date as 10631·c − 1, the last day of year 30·c, so its round trip
  fails at every positive multiple of 10631 days
  (`Conversion.HabashAlHasibRoundTrip`). Every date still comes back from
  its own count (`Conversion.DateOfDayCountOfDate`), and consecutive dates
  skip a count after the last day of each cycle (`Conversion.DayCountNext`).
- No year that is a multiple of 30 is a leap year under any pattern,
  `HabashAlHasib` included (`LeapYears.CyclePosition`).
- The doc comment on `CreateHijriDate` says every date before 16 July 622
  is refused. The code refuses only negative counts. Count 0, the day before
  1 Muharram 1 (15 July 622 at midnight), is accepted and becomes year 0,
  month 12, day 29 (`Conversion.CountZero`). That date is one `NewHijriDate`
  refuses.

Odd months have 30 days and even months 29 in all three places that
compute a month's length (hijri.go:55-61, 134-137, 172). Month 12 has 30
days in a leap year. `ToGregorian` adds `29 + month % 2` for each earlier
month, which ignores the leap day. Only month 12 has a leap day, and it is
never an earlier month, so the rule is still the same one.

## Model

| member | source | states |
|---|---|---|
| GoArith.Quo | hijri.go:158 | Go's integer `/` for a positive divisor: the quotient truncated toward zero, which is Dafny's `/` for a dividend that is not negative. |
| GoArith.Rem | hijri.go:159 | Go's integer `%` for a positive divisor: the remainder takes the sign of the dividend, so a negative year gives a negative position. |
| LeapYears.IsCaseLabel | hijri.go:186-210 | The case labels of each pattern's switch, which are the year positions its doc comment lists (hijri.go:18-32). |
| LeapYears.IsLeapYear | hijri.go:183-213 | isLeapYear: the year reduced with Go's `%` by 30 is one of the pattern's case labels. |
| LeapYears.LeapCount | hijri.go:111-115 | The number of leap years among years 1..k that the counting loops find. It is never more than k, and none when k < 1. |
| HijriDates.DaysInMonth | hijri.go:55-61 | The length of a month: 29 days plus one for an odd month, plus the leap day in month 12 of a leap year. The month loop of CreateHijriDate (hijri.go:134-137) and ToGregorian (hijri.go:172, leap-free) use the same rule. |
| HijriDates.MonthsLength | hijri.go:170-173 | The days in the first k months of a year, the sum ToGregorian's month loop accumulates. |
| HijriDates.DaysInYear | hijri.go:122-125 | A year has 354 days, and 355 when it is a leap year. |
| HijriDates.HijriDate.Valid | hijri.go:46-69 | The dates NewHijriDate accepts: year at least 1, month 1..12, day 1..length of the month. |
| Conversion.DaysBeforeYear | hijri.go:157-167 | The days before a year as ToGregorian counts them: whole cycles of 10631 days, 354 for each further year, one more for each leap year among them, with Go's truncating `/` and `%`. |
| Conversion.DayCount | hijri.go:155-176 | The count ToGregorian passes on: the days before the year, the leap-free lengths of the earlier months, and the day. |
| Conversion.CorrectYear | hijri.go:117-126 | The carry step: a positive rest is a day of the next year; otherwise the rest plus the estimated year's length is a day of that year. |
| Conversion.YearAndDayOfYear | hijri.go:100-126 | The year and day of the year CreateHijriDate computes: the cycle split, the 354-day estimate, one day less for each leap year among the estimated years, and the carry step. |
| Conversion.WalkMonths | hijri.go:128-144 | The month loop: take off month lengths until nothing is left over. If month 12 still leaves days, the month is 12 and the day stays 0. |
| Conversion.DateOfDayCount | hijri.go:100-150 | The date CreateHijriDate returns for a count that is not negative: the year from YearAndDayOfYear, the month and day from WalkMonths, and the requested pattern. |
| LeapYears.LeapYearByResidue | hijri.go:183-213 | For a year that is not negative, isLeapYear holds exactly when the year modulo 30 is in the pattern's residue set. Default, Base15 and Fattimid use their documented sets. HabashAlHasib uses its documented set without 30. |
| LeapYears.CyclePosition | hijri.go:183-213 | A year at position 1..30 of any cycle is a leap year iff the position is a case label below 30. The last year of a cycle is never a leap year. |
| LeapYears.CycleEndNotLeap | hijri.go:184-212 | No multiple of 30, negative ones included, is a leap year under any pattern, HabashAlHasib included. |
| LeapYears.LeapYearPeriodic | hijri.go:184 | Whether a year that is not negative is a leap year depends only on the year modulo 30. |
| LeapYears.LeapCountStep | hijri.go:111-115 | One year further into a cycle, the leap count grows by one exactly when that year, in any cycle, is a leap year. |
| LeapYears.LeapYearsPerCycle | hijri.go:101 | A cycle holds 11 leap years under Default, Base15 and Fattimid, and 10 under HabashAlHasib. 30·354 plus the cycle's leap years equals the 10631-day cycle constant iff the pattern is not HabashAlHasib. |
| LeapYears.LeapCountAtCycleEnd | hijri.go:160-167 | Counting over positions 1..29 or 1..30 gives 11 leap years, or 10 under HabashAlHasib. |
| HijriDates.MonthsLengthFormula | hijri.go:170-173 | The first k months hold 29·k days plus one for each odd month among them, plus the leap day when k = 12 in a leap year. |
| HijriDates.YearLength | hijri.go:132-137 | The twelve month lengths add up to 354, or 355 in a leap year. |
| HijriDates.LeapDayOnlyInLastMonth | hijri.go:134-137 | The first eleven months have the same lengths in leap and common years. |
| HijriDates.MonthsLengthMonotone | hijri.go:170-173 | The days in the first i months never exceed the days in the first j months when i ≤ j. |
| HijriDates.NextDay | hijri.go:55-61 | The calendar's next day under the validator's month-length rule, which DayCountNext uses. The next day of a valid date is valid and has the same pattern. |
| HijriDates.NewHijriDate | hijri.go:45-79 | Succeeds iff the year is at least 1, the month is 1..12 and the day is within that month's length. On success it returns the fields and the pattern unchanged. Every failure is the single rejection InvalidDate. |
| HijriDates.NewHijriDateBounds | hijri.go:46-69 | Acceptance in explicit bounds. Day 30 is accepted only in odd months and in month 12 of a leap year. |
| HijriDates.NewHijriDateCases | hijri_test.go:70-177 | Day 30 of month 12 is accepted in the eleven Default leap years 1442..1469 that the tests list. The six dates that the tests expect to fail are refused. |
| Conversion.ToGregorian | hijri.go:155-181 | The day count the two loops accumulate is DayCount(h): the days before the year, the earlier months, and the day. |
| Conversion.YearOfDayCount | hijri.go:100-126 | The cycle split, the year estimate, the leap-year loop and the year correction give exactly the year and the day of the year that YearAndDayOfYear describes. |
| Conversion.MonthAndDay | hijri.go:128-144 | The month loop with its early break gives the month and the day that WalkMonths describes. This includes the day 0 left when month 12 does not use up the days. |
| Conversion.CreateHijriDate | hijri.go:83-152 | A negative count fails with BeforeHijrStarted. Any other count succeeds with DateOfDayCount(n) under the requested pattern. |
| Conversion.WalkMonthsPlaces | hijri.go:132-144 | For a day of the year within the year's length, the month walk stops on a month in 1..12. The day it finds is within that month. The earlier months plus that day give back the day of the year. |
| Conversion.MonthOfDayOfYear | hijri.go:128-144 | From month 1, a day of the year within the year's length is placed on a valid month and day, and the earlier months plus the day give it back. |
| Conversion.DayOfYearOfMonth | hijri.go:132-144 | The month walk inverts the earlier-months sum. Day d of month m is found again from its day of the year. |
| Conversion.DayOfYearInRange | hijri.go:117-126 | After the year correction, the day of the year lies in 1..length of the year found. The year is 0 for count 0 and at least 1 for every positive count. |
| Conversion.YearStart | hijri.go:100-167 | The days before the year found plus the day of the year give back the count. Under HabashAlHasib, a positive multiple of 10631 comes back one day short. |
| Conversion.DateOfDayCountValid | hijri.go:111-150 | Every positive count becomes a valid date that carries the requested pattern and that NewHijriDate accepts unchanged. |
| Conversion.DayCountOfDate | hijri.go:83-181 | ToGregorian of CreateHijriDate(n) gives n back. The exception is HabashAlHasib at positive multiples of 10631, which give n − 1. |
| Conversion.RoundTrip | hijri_test.go:199-225 | Under Default, Base15 and Fattimid, ToGregorian gives back every count that CreateHijriDate accepts. |
| Conversion.HabashAlHasibRoundTrip | hijri.go:205-208 | Under HabashAlHasib, the round trip holds for a count iff the count is 0 or not a multiple of 10631. |
| Conversion.CycleEndYear | hijri.go:100-126 | Every positive multiple of 10631 falls on day 354 of the year that ends the previous cycle. |
| Conversion.CycleEndDate | hijri.go:100-150 | Every positive multiple of 10631 becomes day 29 of month 12 of year 30·c. |
| Conversion.HabashAlHasibCycleEnd | hijri.go:100-150 | Under HabashAlHasib, the counts 10631·c − 1 and 10631·c both become day 29 of month 12 of year 30·c. The count 10631·c has no date of its own. |
| Conversion.CountZero | hijri.go:95-126 | Count 0 is accepted and becomes year 0, month 12, day 29, a date that NewHijriDate refuses. |
| Conversion.FirstDay | hijri.go:95-150 | Count 1 becomes 1 Muharram of year 1 under every pattern. |
| Conversion.FirstDayCount | hijri.go:155-176 | The day count of 1 Muharram 1 is 1 under every pattern. |
| Conversion.KnownDateCount | hijri.go:155-176 | Under Default, 1445-06-19 has the count of 1 January 2024 (Julian day 2460310.5). |
| Conversion.KnownDate | hijri.go:83-152 | Under Default, the count of 1 January 2024 becomes 1445-06-19. |
| Conversion.DaysBeforeNextYear | hijri.go:157-167 | One year further on, the days before the year grow by the length of the year. Under HabashAlHasib they grow by one more day after the last year of a cycle. |
| Conversion.DaysBeforeYearMonotone | hijri.go:157-167 | A year and all the days before it come before any later year. |
| Conversion.DayCountNext | hijri.go:155-176 | The day after a valid date has the next count. The exception is HabashAlHasib after the last day of a cycle, where the count skips one. |
| Conversion.DayCountIncreasing | hijri.go:155-176 | On valid dates under the same pattern, the day count is strictly increasing in (year, month, day) order. |
| Conversion.DateOfDayCountOfDate | hijri.go:83-181 | Under every pattern, HabashAlHasib included, every valid date has a positive count, and CreateHijriDate of that count gives the date back. |

## Left out

- `time.Time` handling is not modelled: the conversion to UTC, stripping the time of day (hijri.go:85-86), and the Gregorian fields of the result. It is host-library behaviour and holds no calendar logic.
- The Julian-day library (`juliandays.FromTime`, `juliandays.ToTime`) and its error path (hijri.go:89-92, 180) are not part of this model. The model starts and stops at the integer count `n`. CreateHijriDate and ToGregorian take or return `n` in place of a `time.Time`.
- Floating-point arithmetic on the Julian day (hijri.go:95, 179) is modelled as an exact integer shift of 1948438.5.
- Conversion.CreateHijriDate: does not model int64 overflow. Counts and years are unbounded integers, and every count the Julian-day conversion can produce is far from the int64 limits.
- Conversion.ToGregorian: does not model int64 overflow. Its input is a `HijriDate`, whose year can be any int64. For years above about 2.6·10^16, `nCycles*10631` (hijri.go:160) wraps around, so Go no longer returns DayCount(h), and the order that DayCountIncreasing states fails there. Years below about −2.6·10^16 leave int64 the same way, and with a small year a month or day near the int64 limit makes `passedDays` wrap at hijri.go:172 and hijri.go:176. The model holds when the year lies between about −2.6·10^16 and 2.6·10^16 and the month and day are far from the int64 limits. That includes every valid date below the bound and every date CreateHijriDate returns.
- HijriDates.NewHijriDate: error messages are not modelled, nor which of the two checks refuses a month above 12 (hijri.go:63-69). Every rejection is the single outcome InvalidDate.
- The test harness is not modelled: CSV fixture loading, date formatting and parsing (hijri_test.go:13-62, 180-197). The only date pair modelled is 1 January 2024 ↔ 1445-06-19; the fixture file is not part of this model.
- LeapYears.IsLeapYear: `LeapYearsPattern` is a `uint8` (hijri.go:15), and a value from 4 to 255 matches no case of the switch (hijri.go:186-212), so under it no year is leap and thirty years hold 10620 days, while both conversions still count 10631 days per cycle (hijri.go:101, 160); the round trip then fails near every cycle end. The model has only the four named patterns.
