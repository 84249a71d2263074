/** The integer core of the two conversions of hijri.go. A day is named by
    its count n of days since the Hijri epoch: the Julian day of its
    midnight is 1948438.5 + n, so 1 Muharram of year 1 is n = 1.
    CreateHijriDate turns a count into a date and ToGregorian turns a date
    back into a count. */
module Conversion {
  import opened GoArith
  import opened LeapYears
  import opened HijriDates

  // ---------------------------------------------------------------------
  // From a date to its day count (ToGregorian)
  // ---------------------------------------------------------------------

  /** The days of the years before `year`: whole 30-year cycles of 10631
      days, then 354 days for each further year and one more for each leap
      year among them. Go's truncating division and remainder are used, so
      for year 0 this is -354. */
  function DaysBeforeYear(year: int, pattern: LeapYearsPattern): int
  {
    var passedYear := year - 1;
    var leftoverYears := Rem(passedYear, 30);
    Quo(passedYear, 30) * 10631 + leftoverYears * 354 + LeapCount(leftoverYears, pattern)
  }

  /** The day count ToGregorian hands to the Julian-day conversion. Its loop
      over the earlier months adds 29 + month % 2 for each of them, that is,
      their lengths in a year without a leap day. */
  function DayCount(h: HijriDate): int
  {
    DaysBeforeYear(h.year, h.pattern) + MonthsLength(h.month - 1, false) + h.day
  }

  /** ToGregorian, up to the final Julian-day conversion. */
  method ToGregorian(h: HijriDate) returns (passedDays: int)
    ensures passedDays == DayCount(h)
  {
    var passedYear := h.year - 1;
    var nCycles := Quo(passedYear, 30);
    var leftoverYears := Rem(passedYear, 30);
    passedDays := nCycles * 10631 + leftoverYears * 354;

    var year := 1;
    while year <= leftoverYears
      invariant 1 <= year && (year == 1 || year <= leftoverYears + 1)
      invariant passedDays == nCycles * 10631 + leftoverYears * 354 + LeapCount(year - 1, h.pattern)
    {
      if IsLeapYear(year, h.pattern) {
        passedDays := passedDays + 1;
      }
      year := year + 1;
    }

    var passedMonths := h.month - 1;
    var month := 1;
    while month <= passedMonths
      invariant 1 <= month && (month == 1 || month <= passedMonths + 1)
      invariant passedDays == DaysBeforeYear(h.year, h.pattern) + MonthsLength(month - 1, false)
    {
      passedDays := passedDays + DaysInMonth(month, false);
      month := month + 1;
    }

    passedDays := passedDays + h.day;
  }

  // ---------------------------------------------------------------------
  // From a day count to a date (CreateHijriDate)
  // ---------------------------------------------------------------------

  /** A year and a day within it. */
  datatype YearDay = YearDay(year: int, dayOfYear: int)

  /** A month and a day within it. */
  datatype MonthDay = MonthDay(month: int, day: int)

  /** The correction step of CreateHijriDate: a positive remainder is a day
      of the year after the estimated one; otherwise the day lies in the
      estimated year itself, counted from that year's start. */
  function CorrectYear(hijriYear: int, leftoverDays: int, pattern: LeapYearsPattern): YearDay
  {
    if leftoverDays > 0 then YearDay(hijriYear + 1, leftoverDays)
    else YearDay(hijriYear, leftoverDays + 354 + (if IsLeapYear(hijriYear, pattern) then 1 else 0))
  }

  /** The year and the day within it that CreateHijriDate finds for a count
      that is not negative: whole cycles, then a 354-day estimate of the
      further years, less one day for each leap year among them, and then
      the correction step. */
  function YearAndDayOfYear(islamicDays: int, pattern: LeapYearsPattern): YearDay
    requires islamicDays >= 0
  {
    var leftoverYears := islamicDays % 10631 / 354;
    CorrectYear(islamicDays / 10631 * 30 + leftoverYears,
      islamicDays % 10631 % 354 - LeapCount(leftoverYears, pattern), pattern)
  }

  /** The month loop of CreateHijriDate from `month` on: the month's length
      is taken off until nothing is left over, giving the month and the day
      in it. If even month 12 leaves days over, the loop ends without a
      break and the day keeps its initial value 0. */
  function WalkMonths(leftoverDays: int, inLeapYear: bool, month: int): MonthDay
    requires 1 <= month <= 12
    decreases 12 - month, leftoverDays
  {
    var rest := leftoverDays - DaysInMonth(month, inLeapYear);
    if rest <= 0 then MonthDay(month, leftoverDays)
    else if month == 12 then MonthDay(12, 0)
    else WalkMonths(rest, inLeapYear, month + 1)
  }

  /** The date CreateHijriDate returns for a count that is not negative. */
  function DateOfDayCount(islamicDays: int, pattern: LeapYearsPattern): HijriDate
    requires islamicDays >= 0
  {
    var yd := YearAndDayOfYear(islamicDays, pattern);
    var md := WalkMonths(yd.dayOfYear, IsLeapYear(yd.year, pattern), 1);
    HijriDate(yd.year, md.month, md.day, pattern)
  }

  /** The month loop of CreateHijriDate: month lengths are taken off the
      day of the year until it is used up. The month and the day start at
      0, and the day stays 0 when even month 12 leaves days over. */
  method MonthAndDay(dayOfYear: int, inLeapYear: bool) returns (hijriMonth: int, hijriDay: int)
    ensures MonthDay(hijriMonth, hijriDay) == WalkMonths(dayOfYear, inLeapYear, 1)
  {
    hijriMonth, hijriDay := 0, 0;
    var leftoverDays := dayOfYear;
    var month := 1;
    while month <= 12
      invariant 1 <= month <= 13
      invariant hijriDay == 0
      invariant month <= 12 ==> WalkMonths(leftoverDays, inLeapYear, month) == WalkMonths(dayOfYear, inLeapYear, 1)
      invariant month == 13 ==> WalkMonths(dayOfYear, inLeapYear, 1) == MonthDay(12, 0) && hijriMonth == 12
    {
      hijriMonth := month;
      var daysInMonth := DaysInMonth(month, inLeapYear);
      leftoverDays := leftoverDays - daysInMonth;
      if leftoverDays <= 0 {
        hijriDay := leftoverDays + daysInMonth;
        break;
      }
      month := month + 1;
    }
  }


  /** The year part of CreateHijriDate: whole cycles of 10631 days, then
      whole 354-day years, then a loop that takes one day off the rest for
      each leap year among those years, and the correction step. */
  method YearOfDayCount(islamicDays: int, leapPattern: LeapYearsPattern) returns (hijriYear: int, dayOfYear: int)
    requires islamicDays >= 0
    ensures YearDay(hijriYear, dayOfYear) == YearAndDayOfYear(islamicDays, leapPattern)
  {
    var nCycles := islamicDays / 10631;
    var leftoverDays := islamicDays % 10631;
    var leftoverYears := leftoverDays / 354;
    leftoverDays := leftoverDays % 354;
    ghost var days := leftoverDays;

    var year := 1;
    while year <= leftoverYears
      invariant 1 <= year <= leftoverYears + 1
      invariant leftoverDays == days - LeapCount(year - 1, leapPattern)
    {
      if IsLeapYear(year, leapPattern) {
        leftoverDays := leftoverDays - 1;
      }
      year := year + 1;
    }

    assert leftoverDays == days - LeapCount(leftoverYears, leapPattern);
    hijriYear := nCycles * 30 + leftoverYears;
    ghost var corrected := CorrectYear(hijriYear, leftoverDays, leapPattern);
    assert corrected == YearAndDayOfYear(islamicDays, leapPattern);
    if leftoverDays > 0 {
      hijriYear := hijriYear + 1;
    } else {
      leftoverDays := leftoverDays + 354;
      if IsLeapYear(hijriYear, leapPattern) {
        leftoverDays := leftoverDays + 1;
      }
    }
    dayOfYear := leftoverDays;
  }

  /** CreateHijriDate, from the day count on. A negative count precedes the
      calendar and is refused. */
  method CreateHijriDate(islamicDays: int, leapPattern: LeapYearsPattern) returns (r: Result<HijriDate>)
    ensures islamicDays < 0 ==> r == Failure(BeforeHijrStarted)
    ensures islamicDays >= 0 ==> r == Success(DateOfDayCount(islamicDays, leapPattern))
  {
    if islamicDays < 0 {
      return Failure(BeforeHijrStarted);
    }
    var hijriYear, dayOfYear := YearOfDayCount(islamicDays, leapPattern);
    var inLeapYear := IsLeapYear(hijriYear, leapPattern);
    var hijriMonth, hijriDay := MonthAndDay(dayOfYear, inLeapYear);
    return Success(HijriDate(hijriYear, hijriMonth, hijriDay, leapPattern));
  }

  // ---------------------------------------------------------------------
  // The month walk
  // ---------------------------------------------------------------------

  /** A day of the year within the year's length is always placed: the walk
      stops at or after `month`, on a day inside the month it stops at, and
      the days of the months it passed plus that day give back the day of
      the year. */
  lemma {:induction false} WalkMonthsPlaces(leftoverDays: int, inLeapYear: bool, month: int)
    requires 1 <= month <= 12
    requires 1 <= leftoverDays <= MonthsLength(12, inLeapYear) - MonthsLength(month - 1, inLeapYear)
    ensures var md := WalkMonths(leftoverDays, inLeapYear, month);
      month <= md.month <= 12 && 1 <= md.day <= DaysInMonth(md.month, inLeapYear) &&
      MonthsLength(md.month - 1, inLeapYear) + md.day == MonthsLength(month - 1, inLeapYear) + leftoverDays
    decreases 12 - month
  {
    if leftoverDays > DaysInMonth(month, inLeapYear) {
      assert month < 12;
      WalkMonthsPlaces(leftoverDays - DaysInMonth(month, inLeapYear), inLeapYear, month + 1);
    }
  }

  /** Conversely, the walk finds every day of every month from `month` on. */
  lemma {:induction false} WalkMonthsFinds(m: int, d: int, inLeapYear: bool, month: int)
    requires 1 <= month <= m <= 12
    requires 1 <= d <= DaysInMonth(m, inLeapYear)
    ensures WalkMonths(MonthsLength(m - 1, inLeapYear) - MonthsLength(month - 1, inLeapYear) + d, inLeapYear, month) ==
      MonthDay(m, d)
    decreases 12 - month
  {
    if month < m {
      MonthsLengthMonotone(month, m - 1, inLeapYear);
      WalkMonthsFinds(m, d, inLeapYear, month + 1);
    }
  }

  /** Every day of a year falls in one of its twelve months, on a day
      within that month, and the days of the months before it plus that
      day give back the day of the year. */
  lemma {:induction false} MonthOfDayOfYear(dayOfYear: int, inLeapYear: bool)
    requires 1 <= dayOfYear <= if inLeapYear then 355 else 354
    ensures var md := WalkMonths(dayOfYear, inLeapYear, 1);
      1 <= md.month <= 12 && 1 <= md.day <= DaysInMonth(md.month, inLeapYear) &&
      MonthsLength(md.month - 1, false) + md.day == dayOfYear
  {
    var md := WalkMonths(dayOfYear, inLeapYear, 1);
    assert 1 <= md.month <= 12 && 1 <= md.day <= DaysInMonth(md.month, inLeapYear) &&
        MonthsLength(md.month - 1, inLeapYear) + md.day == dayOfYear by {
      MonthsLengthFormula(12, inLeapYear);
      WalkMonthsPlaces(dayOfYear, inLeapYear, 1);
    }
    LeapDayOnlyInLastMonth(md.month - 1);
  }

  /** Conversely, the day of the year of a month and a day in it leads the
      month walk back to them. */
  lemma {:induction false} DayOfYearOfMonth(month: int, day: int, inLeapYear: bool)
    requires 1 <= month <= 12 && 1 <= day <= DaysInMonth(month, inLeapYear)
    ensures WalkMonths(MonthsLength(month - 1, false) + day, inLeapYear, 1) == MonthDay(month, day)
  {
    assert MonthsLength(month - 1, inLeapYear) == MonthsLength(month - 1, false) by {
      LeapDayOnlyInLastMonth(month - 1);
    }
    assert MonthsLength(0, inLeapYear) == 0;
    WalkMonthsFinds(month, day, inLeapYear, 1);
  }

  /** Day 354 of a common year is its last day, day 29 of month 12. */
  lemma {:induction false} LastDayOfCommonYear()
    ensures WalkMonths(354, false, 1) == MonthDay(12, 29)
  {
    var months := 11;
    assert MonthsLength(months, false) == 325 by {
      MonthsLengthFormula(months, false);
    }
    WalkMonthsFinds(12, 29, false, 1);
  }

  /** The day of the year of a date of the calendar lies between 1 and the
      length of its year. */
  lemma {:induction false} DayOfYearOfDate(h: HijriDate)
    requires h.Valid()
    ensures 1 <= MonthsLength(h.month - 1, false) + h.day <= DaysInYear(h.year, h.pattern)
  {
    var inLeapYear := IsLeapYear(h.year, h.pattern);
    assert MonthsLength(h.month - 1, false) == MonthsLength(h.month - 1, inLeapYear) by {
      LeapDayOnlyInLastMonth(h.month - 1);
    }
    assert 0 <= MonthsLength(h.month - 1, inLeapYear) by {
      MonthsLengthMonotone(0, h.month - 1, inLeapYear);
    }
    assert MonthsLength(h.month, inLeapYear) <= DaysInYear(h.year, h.pattern) by {
      MonthsLengthMonotone(h.month, 12, inLeapYear);
      YearLength(h.year, h.pattern);
    }
  }

  // ---------------------------------------------------------------------
  // The year estimate and its correction
  // ---------------------------------------------------------------------

  /** Division by 30 of a year given by its cycle and position. */
  lemma {:induction false} CycleDivision(cycles: nat, position: int)
    requires 0 <= position < 30
    ensures (30 * cycles + position) / 30 == cycles && (30 * cycles + position) % 30 == position
  {
  }

  /** The days before a year given by its cycle and its position in the
      cycle: whole cycles of 10631 days, 354 days a year and the leap years
      already passed in the cycle. */
  lemma {:induction false} DaysBeforeYearAt(year: int, cycles: nat, position: int, pattern: LeapYearsPattern)
    requires 0 <= position < 30 && year == 30 * cycles + position + 1
    ensures DaysBeforeYear(year, pattern) == 10631 * cycles + 354 * position + LeapCount(position, pattern)
  {
    assert (year - 1) / 30 == cycles && (year - 1) % 30 == position by {
      CycleDivision(cycles, position);
    }
  }

  /** A year from 1 on lies at position (year - 1) % 30 of cycle
      (year - 1) / 30, and it ends its cycle exactly at position 29. */
  lemma {:induction false} YearInCycle(year: int)
    requires year >= 1
    ensures var cycles := (year - 1) / 30; var position := (year - 1) % 30;
      cycles >= 0 && 0 <= position < 30 && year == 30 * cycles + position + 1 &&
      (year % 30 == 0 <==> position == 29)
  {
  }

  /** Division of a count into cycles of 10631 days and the rest. */
  lemma {:induction false} CountDivision(cycles: nat, rest: int)
    requires 0 <= rest < 10631
    ensures (10631 * cycles + rest) / 10631 == cycles && (10631 * cycles + rest) % 10631 == rest
  {
  }

  /** Division of the rest of a cycle into 354-day years and days. */
  lemma {:induction false} RestDivision(years: int, days: int)
    requires 0 <= years && 0 <= days < 354
    ensures (354 * years + days) / 354 == years && (354 * years + days) % 354 == days
  {
  }

  /** How CreateHijriDate splits a count that is not negative: whole cycles
      of 10631 days, then whole 354-day years, then the days left over.
      Nothing is left over after the cycles exactly at a multiple of 10631. */
  lemma {:induction false} CountParts(islamicDays: int, cycles: int, leftoverYears: int, days: int)
    requires islamicDays >= 0
    requires cycles == islamicDays / 10631 && leftoverYears == islamicDays % 10631 / 354 && days == islamicDays % 10631 % 354
    ensures cycles >= 0 && 0 <= leftoverYears <= 30 && 0 <= days < 354 && 354 * leftoverYears + days < 10631
    ensures islamicDays == 10631 * cycles + 354 * leftoverYears + days
    ensures islamicDays > 0 && islamicDays % 10631 == 0 <==> cycles > 0 && leftoverYears == 0 && days == 0
  {
  }

  /** The correction step lands on a year that is not negative, and on a
      day between 1 and that year's length; the year is 0 only when
      nothing at all is left to place. */
  lemma {:induction false} CorrectYearRange(cycles: nat, leftoverYears: int, days: int, pattern: LeapYearsPattern)
    requires 0 <= leftoverYears <= 30 && 0 <= days < 354
    ensures var yd := CorrectYear(30 * cycles + leftoverYears, days - LeapCount(leftoverYears, pattern), pattern);
      yd.year >= 0 && (yd.year == 0 <==> cycles == 0 && leftoverYears == 0 && days == 0) &&
      1 <= yd.dayOfYear <= DaysInYear(yd.year, pattern)
  {
    var leftoverDays := days - LeapCount(leftoverYears, pattern);
    if leftoverDays <= 0 {
      assert LeapCount(leftoverYears, pattern) <= 30;
    }
  }

  /** The count the year and day found by the correction step stand for:
      the days before that year plus the day of the year. */
  ghost function CorrectedCount(cycles: nat, leftoverYears: int, days: int, pattern: LeapYearsPattern): int
  {
    var yd := CorrectYear(30 * cycles + leftoverYears, days - LeapCount(leftoverYears, pattern), pattern);
    DaysBeforeYear(yd.year, pattern) + yd.dayOfYear
  }

  /** Inside a cycle, a positive corrected remainder is a day of the year
      after the estimate. */
  lemma {:induction false} NextYearStart(cycles: nat, leftoverYears: int, days: int, pattern: LeapYearsPattern)
    requires 0 <= leftoverYears < 30
    requires days - LeapCount(leftoverYears, pattern) > 0
    ensures CorrectedCount(cycles, leftoverYears, days, pattern) == 10631 * cycles + 354 * leftoverYears + days
  {
    var year := 30 * cycles + leftoverYears + 1;
    assert CorrectYear(30 * cycles + leftoverYears, days - LeapCount(leftoverYears, pattern), pattern) ==
      YearDay(year, days - LeapCount(leftoverYears, pattern));
    assert DaysBeforeYear(year, pattern) == 10631 * cycles + 354 * leftoverYears + LeapCount(leftoverYears, pattern) by {
      DaysBeforeYearAt(year, cycles, leftoverYears, pattern);
    }
  }

  /** Otherwise, past the first year of a cycle, the day lies in the
      estimated year, whose own leap day was already taken off. */
  lemma {:induction false} SameYearStart(cycles: nat, leftoverYears: int, days: int, pattern: LeapYearsPattern)
    requires 1 <= leftoverYears <= 30
    requires days - LeapCount(leftoverYears, pattern) <= 0
    ensures CorrectedCount(cycles, leftoverYears, days, pattern) == 10631 * cycles + 354 * leftoverYears + days
  {
    var year := 30 * cycles + leftoverYears;
    var leap := if IsLeapYear(year, pattern) then 1 else 0;
    assert LeapCount(leftoverYears, pattern) == LeapCount(leftoverYears - 1, pattern) + leap by {
      LeapCountStep(year, cycles, leftoverYears - 1, pattern);
    }
    assert CorrectYear(year, days - LeapCount(leftoverYears, pattern), pattern) ==
      YearDay(year, days - LeapCount(leftoverYears, pattern) + 354 + leap);
    assert DaysBeforeYear(year, pattern) ==
        10631 * cycles + 354 * (leftoverYears - 1) + LeapCount(leftoverYears - 1, pattern) by {
      DaysBeforeYearAt(year, cycles, leftoverYears - 1, pattern);
    }
  }

  /** A count that is a positive multiple of 10631 falls on the last day of
      the year that ends the previous cycle; under HabashAlHasib that day
      is one short of the count. */
  lemma {:induction false} CycleEndStart(cycles: nat, pattern: LeapYearsPattern)
    requires cycles >= 1
    ensures CorrectYear(30 * cycles, 0, pattern) == YearDay(30 * cycles, 354)
    ensures DaysBeforeYear(30 * cycles, pattern) + 354 == 10631 * cycles - (if pattern == HabashAlHasib then 1 else 0)
  {
    var last := 29;
    assert !IsLeapYear(30 * cycles, pattern) by {
      CycleEndNotLeap(30 * cycles, cycles, pattern);
    }
    assert DaysBeforeYear(30 * cycles, pattern) == 10631 * (cycles - 1) + 354 * last + LeapCount(last, pattern) by {
      DaysBeforeYearAt(30 * cycles, cycles - 1, last, pattern);
    }
    assert LeapCount(last, pattern) == if pattern == HabashAlHasib then 10 else 11 by {
      LeapCountAtCycleEnd(last, pattern);
    }
  }

  /** Nothing left over at all: the correction step goes back to the last
      day of year 0, 354 days before 1 Muharram of year 1. */
  lemma {:induction false} EpochStart(pattern: LeapYearsPattern)
    ensures CorrectYear(0, 0, pattern) == YearDay(0, 354)
    ensures DaysBeforeYear(0, pattern) + 354 == 0
    ensures !IsLeapYear(0, pattern)
  {
    assert !IsLeapYear(0, pattern);
  }

  /** The count a whole number of cycles stands for after the correction
      step: one day short of it under HabashAlHasib, exact otherwise. */
  lemma {:induction false} WholeCyclesStart(cycles: nat, leftoverYears: int, days: int, pattern: LeapYearsPattern)
    requires leftoverYears == 0 && days == 0
    ensures CorrectedCount(cycles, leftoverYears, days, pattern) ==
      10631 * cycles - (if pattern == HabashAlHasib && cycles > 0 then 1 else 0)
  {
    var year := 30 * cycles;
    assert CorrectYear(30 * cycles + leftoverYears, days - LeapCount(leftoverYears, pattern), pattern) ==
      CorrectYear(year, 0, pattern);
    if cycles == 0 {
      EpochStart(pattern);
    } else {
      CycleEndStart(cycles, pattern);
    }
  }

  /** Where the correction step lands, for a count given by its whole
      cycles, the 354-day years after them and the remaining days: the
      days before the year found plus the day of the year give back the
      count, except at the end of a cycle under HabashAlHasib. */
  lemma {:induction false} CorrectYearStart(cycles: nat, leftoverYears: int, days: int, pattern: LeapYearsPattern, yd: YearDay)
    requires 0 <= leftoverYears <= 30 && 0 <= days < 354 && 354 * leftoverYears + days < 10631
    requires yd == CorrectYear(30 * cycles + leftoverYears, days - LeapCount(leftoverYears, pattern), pattern)
    ensures DaysBeforeYear(yd.year, pattern) + yd.dayOfYear ==
      10631 * cycles + 354 * leftoverYears + days -
      (if pattern == HabashAlHasib && cycles > 0 && leftoverYears == 0 && days == 0 then 1 else 0)
  {
    if days - LeapCount(leftoverYears, pattern) > 0 {
      if leftoverYears == 30 {
        // the last 11 days of a cycle never exceed its leap days
        LeapCountAtCycleEnd(leftoverYears, pattern);
        assert false;
      }
      NextYearStart(cycles, leftoverYears, days, pattern);
    } else if leftoverYears >= 1 {
      SameYearStart(cycles, leftoverYears, days, pattern);
    } else {
      WholeCyclesStart(cycles, leftoverYears, days, pattern);
    }
  }

  // ---------------------------------------------------------------------
  // From a day count to a date and back
  // ---------------------------------------------------------------------

  /** The year correction always leaves a day of the year between 1 and the
      length of the year it names; the count 0 gives year 0 and every
      positive count a year from 1 on. */
  lemma {:induction false} DayOfYearInRange(islamicDays: int, pattern: LeapYearsPattern)
    requires islamicDays >= 0
    ensures var yd := YearAndDayOfYear(islamicDays, pattern);
      yd.year >= 0 && (yd.year >= 1 <==> islamicDays >= 1) && 1 <= yd.dayOfYear <= DaysInYear(yd.year, pattern)
  {
    var cycles := islamicDays / 10631;
    var leftoverYears := islamicDays % 10631 / 354;
    var days := islamicDays % 10631 % 354;
    CountParts(islamicDays, cycles, leftoverYears, days);
    assert YearAndDayOfYear(islamicDays, pattern) ==
        CorrectYear(30 * cycles + leftoverYears, days - LeapCount(leftoverYears, pattern), pattern) by {
      YearAndDayOfYearAt(islamicDays, 30 * cycles + leftoverYears, cycles, leftoverYears, days, pattern);
    }
    CorrectYearRange(cycles, leftoverYears, days, pattern);
  }

  /** Where the year estimate lands: the days before the year found plus
      the day of the year give back the count. Under HabashAlHasib one day
      is lost at the end of every cycle, because its cycles hold only ten
      leap years while the arithmetic assumes 10631 days. */
  lemma {:induction false} YearStart(islamicDays: int, pattern: LeapYearsPattern)
    requires islamicDays >= 0
    ensures var yd := YearAndDayOfYear(islamicDays, pattern);
      DaysBeforeYear(yd.year, pattern) + yd.dayOfYear ==
        islamicDays - (if pattern == HabashAlHasib && islamicDays > 0 && islamicDays % 10631 == 0 then 1 else 0)
  {
    var cycles := islamicDays / 10631;
    var leftoverYears := islamicDays % 10631 / 354;
    var days := islamicDays % 10631 % 354;
    CountParts(islamicDays, cycles, leftoverYears, days);
    var yd := YearAndDayOfYear(islamicDays, pattern);
    assert yd == CorrectYear(30 * cycles + leftoverYears, days - LeapCount(leftoverYears, pattern), pattern) by {
      YearAndDayOfYearAt(islamicDays, 30 * cycles + leftoverYears, cycles, leftoverYears, days, pattern);
    }
    CorrectYearStart(cycles, leftoverYears, days, pattern, yd);
  }

  /** The date of a count is assembled from the year and day of the year
      the year estimate finds and the month and day the month walk finds. */
  lemma {:induction false} DateOfYearDay(islamicDays: int, pattern: LeapYearsPattern, yd: YearDay, md: MonthDay)
    requires islamicDays >= 0 && YearAndDayOfYear(islamicDays, pattern) == yd
    requires WalkMonths(yd.dayOfYear, IsLeapYear(yd.year, pattern), 1) == md
    ensures DateOfDayCount(islamicDays, pattern) == HijriDate(yd.year, md.month, md.day, pattern)
  {
  }

  /** Every positive count becomes a date of the calendar, one that
      NewHijriDate accepts unchanged, under the pattern it was asked for. */
  lemma {:induction false} DateOfDayCountValid(islamicDays: int, pattern: LeapYearsPattern)
    requires islamicDays >= 1
    ensures var h := DateOfDayCount(islamicDays, pattern);
      h.Valid() && h.pattern == pattern && NewHijriDate(h.year, h.month, h.day, pattern) == Success(h)
  {
    var yd := YearAndDayOfYear(islamicDays, pattern);
    var inLeapYear := IsLeapYear(yd.year, pattern);
    var md := WalkMonths(yd.dayOfYear, inLeapYear, 1);
    assert yd.year >= 1 && 1 <= yd.dayOfYear <= MonthsLength(12, inLeapYear) by {
      DayOfYearInRange(islamicDays, pattern);
      YearLength(yd.year, pattern);
    }
    assert 1 <= md.month <= 12 && 1 <= md.day <= DaysInMonth(md.month, inLeapYear) by {
      WalkMonthsPlaces(yd.dayOfYear, inLeapYear, 1);
    }
    assert DateOfDayCount(islamicDays, pattern) == HijriDate(yd.year, md.month, md.day, pattern);
  }

  /** What ToGregorian gives back for the date CreateHijriDate makes of a
      count: the count itself, except under HabashAlHasib at every positive
      multiple of 10631. */
  lemma {:induction false} DayCountOfDate(islamicDays: int, pattern: LeapYearsPattern)
    requires islamicDays >= 0
    ensures DayCount(DateOfDayCount(islamicDays, pattern)) ==
      islamicDays - (if pattern == HabashAlHasib && islamicDays > 0 && islamicDays % 10631 == 0 then 1 else 0)
  {
    var yd := YearAndDayOfYear(islamicDays, pattern);
    var inLeapYear := IsLeapYear(yd.year, pattern);
    var md := WalkMonths(yd.dayOfYear, inLeapYear, 1);
    var h := DateOfDayCount(islamicDays, pattern);
    assert h == HijriDate(yd.year, md.month, md.day, pattern);
    assert 1 <= yd.dayOfYear <= DaysInYear(yd.year, pattern) by {
      DayOfYearInRange(islamicDays, pattern);
    }
    assert MonthsLength(md.month - 1, false) + md.day == yd.dayOfYear by {
      MonthOfDayOfYear(yd.dayOfYear, inLeapYear);
    }
    assert DaysBeforeYear(yd.year, pattern) + yd.dayOfYear ==
        islamicDays - (if pattern == HabashAlHasib && islamicDays > 0 && islamicDays % 10631 == 0 then 1 else 0) by {
      YearStart(islamicDays, pattern);
    }
    assert DayCount(h) == DaysBeforeYear(yd.year, pattern) + MonthsLength(md.month - 1, false) + md.day;
  }

  /** The two conversions are inverse: under Default, Base15 and Fattimid,
      ToGregorian returns every count CreateHijriDate accepts. */
  lemma {:induction false} RoundTrip(islamicDays: int, pattern: LeapYearsPattern)
    requires islamicDays >= 0 && pattern != HabashAlHasib
    ensures DayCount(DateOfDayCount(islamicDays, pattern)) == islamicDays
  {
    DayCountOfDate(islamicDays, pattern);
  }

  /** Under HabashAlHasib the round trip fails exactly at the counts that
      are positive multiples of 10631. */
  lemma {:induction false} HabashAlHasibRoundTrip(islamicDays: int)
    requires islamicDays >= 0
    ensures DayCount(DateOfDayCount(islamicDays, HabashAlHasib)) == islamicDays <==>
      islamicDays == 0 || islamicDays % 10631 != 0
  {
    DayCountOfDate(islamicDays, HabashAlHasib);
  }

  /** A positive multiple of 10631 falls on day 354 of the year that ends
      the previous cycle, whatever the pattern. */
  lemma {:induction false} CycleEndYear(islamicDays: int, year: int, cycles: nat, pattern: LeapYearsPattern)
    requires cycles >= 1 && islamicDays == 10631 * cycles && year == 30 * cycles
    ensures YearAndDayOfYear(islamicDays, pattern) == YearDay(year, 354)
  {
    assert islamicDays / 10631 == cycles && islamicDays % 10631 == 0 by {
      CountDivision(cycles, 0);
    }
    assert CorrectYear(30 * cycles, 0, pattern) == YearDay(30 * cycles, 354) by {
      CycleEndStart(cycles, pattern);
    }
  }

  /** That day is day 29 of month 12, the last day of a common year. */
  lemma {:induction false} CycleEndDate(cycles: nat, pattern: LeapYearsPattern)
    requires cycles >= 1
    ensures DateOfDayCount(10631 * cycles, pattern) == HijriDate(30 * cycles, 12, 29, pattern)
  {
    assert YearAndDayOfYear(10631 * cycles, pattern) == YearDay(30 * cycles, 354) by {
      CycleEndYear(10631 * cycles, 30 * cycles, cycles, pattern);
    }
    assert !IsLeapYear(30 * cycles, pattern) by {
      CycleEndNotLeap(30 * cycles, cycles, pattern);
    }
    LastDayOfCommonYear();
  }

  /** Under HabashAlHasib a cycle of thirty years holds only 10630 days, so
      the count one day before a multiple of 10631 is already the last day
      of the cycle's year 30, whose own leap day the estimate already took
      off. */
  lemma {:induction false} HabashAlHasibCycleEndYear(cycles: nat)
    requires cycles >= 1
    ensures YearAndDayOfYear(10631 * (cycles - 1) + 10630, HabashAlHasib) == YearDay(30 * cycles, 354)
  {
    var n := 10631 * (cycles - 1) + 10630;
    var last := 30;
    assert n / 10631 == cycles - 1 && n % 10631 == 10630 by {
      CountDivision(cycles - 1, 10630);
    }
    assert 10630 / 354 == last && 10630 % 354 == 10 by {
      RestDivision(last, 10);
    }
    assert LeapCount(last, HabashAlHasib) == 10 by {
      LeapCountAtCycleEnd(last, HabashAlHasib);
    }
    assert !IsLeapYear(30 * cycles, HabashAlHasib) by {
      CycleEndNotLeap(30 * cycles, cycles, HabashAlHasib);
    }
  }

  /** Under HabashAlHasib the count one day before a positive multiple of
      10631 and that multiple both become day 29 of month 12 of the year
      that ends the cycle, so that date is reached twice and 1 Muharram of
      the next year is skipped. */
  lemma {:induction false} HabashAlHasibCycleEnd(cycles: nat)
    requires cycles >= 1
    ensures DateOfDayCount(10631 * cycles - 1, HabashAlHasib) == HijriDate(30 * cycles, 12, 29, HabashAlHasib)
    ensures DateOfDayCount(10631 * cycles, HabashAlHasib) == HijriDate(30 * cycles, 12, 29, HabashAlHasib)
  {
    var n := 10631 * (cycles - 1) + 10630;
    assert YearAndDayOfYear(n, HabashAlHasib) == YearDay(30 * cycles, 354) by {
      HabashAlHasibCycleEndYear(cycles);
    }
    assert WalkMonths(354, IsLeapYear(30 * cycles, HabashAlHasib), 1) == MonthDay(12, 29) by {
      CycleEndNotLeap(30 * cycles, cycles, HabashAlHasib);
      LastDayOfCommonYear();
    }
    DateOfYearDay(n, HabashAlHasib, YearDay(30 * cycles, 354), MonthDay(12, 29));
    CycleEndDate(cycles, HabashAlHasib);
  }

  /** The count 0, the day before 1 Muharram of year 1, is not refused: it
      becomes day 29 of month 12 of year 0, a date NewHijriDate would
      refuse. */
  lemma {:induction false} CountZero(pattern: LeapYearsPattern)
    ensures DateOfDayCount(0, pattern) == HijriDate(0, 12, 29, pattern)
    ensures NewHijriDate(0, 12, 29, pattern).Failure?
  {
    assert YearAndDayOfYear(0, pattern) == YearDay(0, 354) by {
      EpochStart(pattern);
    }
    assert WalkMonths(354, IsLeapYear(0, pattern), 1) == MonthDay(12, 29) by {
      EpochStart(pattern);
      LastDayOfCommonYear();
    }
    DateOfYearDay(0, pattern, YearDay(0, 354), MonthDay(12, 29));
  }

  /** The count 1 is 1 Muharram of year 1. */
  lemma {:induction false} FirstDay(pattern: LeapYearsPattern)
    ensures DateOfDayCount(1, pattern) == HijriDate(1, 1, 1, pattern)
  {
    assert YearAndDayOfYear(1, pattern) == YearDay(1, 1) by {
      EstimateInYear(1, 1, 0, 0, 1, pattern);
    }
  }

  /** And ToGregorian gives 1 Muharram of year 1 the count 1. */
  lemma {:induction false} FirstDayCount(pattern: LeapYearsPattern)
    ensures DayCount(HijriDate(1, 1, 1, pattern)) == 1
  {
    assert DaysBeforeYear(1, pattern) == 0 by {
      DaysBeforeYearAt(1, 0, 0, pattern);
    }
  }

  /** A known fixed point: 1 January 2024, Julian day 2460310.5,
      is day 19 of month 6 of 1445 under Default, and ToGregorian gives
      that date the count of that Julian day. */
  lemma {:induction false} KnownDateCount()
    ensures DayCount(HijriDate(1445, 6, 19, Default)) == 2460310 - 1948438
  {
    var fourYears := 4;
    assert DaysBeforeYear(1445, Default) == 48 * 10631 + 4 * 354 + LeapCount(fourYears, Default) by {
      DaysBeforeYearAt(1445, 48, fourYears, Default);
    }
    assert LeapCount(fourYears, Default) == 1;
    var months := 5;
    assert MonthsLength(months, false) == 148 by {
      MonthsLengthFormula(months, false);
    }
  }

  /** And CreateHijriDate turns that count back into the date. */
  lemma {:induction false} KnownDate()
    ensures DateOfDayCount(2460310 - 1948438, Default) == HijriDate(1445, 6, 19, Default)
  {
    var h := HijriDate(1445, 6, 19, Default);
    assert h.Valid() by {
      assert IsLeapYear(1445, Default);
    }
    KnownDateCount();
    DateOfDayCountOfDate(h);
  }

  // ---------------------------------------------------------------------
  // From a date to a day count
  // ---------------------------------------------------------------------

  /** Inside a cycle, the next year starts one year's length later. */
  lemma {:induction false} DaysBeforeNextYearInCycle(year: int, cycles: nat, position: int, pattern: LeapYearsPattern)
    requires 0 <= position < 29 && year == 30 * cycles + position + 1
    ensures DaysBeforeYear(year + 1, pattern) == DaysBeforeYear(year, pattern) + DaysInYear(year, pattern)
  {
    assert DaysBeforeYear(year, pattern) == 10631 * cycles + 354 * position + LeapCount(position, pattern) by {
      DaysBeforeYearAt(year, cycles, position, pattern);
    }
    assert DaysBeforeYear(year + 1, pattern) == 10631 * cycles + 354 * (position + 1) + LeapCount(position + 1, pattern) by {
      DaysBeforeYearAt(year + 1, cycles, position + 1, pattern);
    }
    assert LeapCount(position + 1, pattern) == LeapCount(position, pattern) + (if IsLeapYear(year, pattern) then 1 else 0) by {
      LeapCountStep(year, cycles, position, pattern);
    }
  }

  /** After the last year of a cycle the next cycle starts, 10631 days
      after the previous one: one day later than the years of a
      HabashAlHasib cycle add up to. */
  lemma {:induction false} DaysBeforeNextCycle(year: int, cycles: nat, pattern: LeapYearsPattern)
    requires year == 30 * cycles + 30
    ensures DaysBeforeYear(year + 1, pattern) ==
      DaysBeforeYear(year, pattern) + DaysInYear(year, pattern) + (if pattern == HabashAlHasib then 1 else 0)
  {
    var last := 29;
    assert DaysBeforeYear(year, pattern) == 10631 * cycles + 354 * last + LeapCount(last, pattern) by {
      DaysBeforeYearAt(year, cycles, last, pattern);
    }
    assert DaysBeforeYear(year + 1, pattern) == 10631 * (cycles + 1) by {
      DaysBeforeYearAt(year + 1, cycles + 1, 0, pattern);
    }
    assert LeapCount(last, pattern) == if pattern == HabashAlHasib then 10 else 11 by {
      LeapCountAtCycleEnd(last, pattern);
    }
    assert !IsLeapYear(year, pattern) by {
      CycleEndNotLeap(year, cycles + 1, pattern);
    }
  }

  /** One year further on, the count grows by the length of the year, and
      by one day more under HabashAlHasib after the last year of a cycle. */
  lemma {:induction false} DaysBeforeNextYear(year: int, pattern: LeapYearsPattern)
    requires year >= 1
    ensures DaysBeforeYear(year + 1, pattern) ==
      DaysBeforeYear(year, pattern) + DaysInYear(year, pattern) + (if pattern == HabashAlHasib && year % 30 == 0 then 1 else 0)
  {
    var cycles := (year - 1) / 30;
    var position := (year - 1) % 30;
    assert year == 30 * cycles + position + 1 && (year % 30 == 0 <==> position == 29) by {
      YearInCycle(year);
    }
    if position < 29 {
      DaysBeforeNextYearInCycle(year, cycles, position, pattern);
    } else {
      DaysBeforeNextCycle(year, cycles, pattern);
    }
  }

  /** Within a month, the next day has the next count. */
  lemma {:induction false} NextDayInMonth(h: HijriDate)
    ensures DayCount(h.(day := h.day + 1)) == DayCount(h) + 1
  {
  }

  /** From the last day of a month before month 12 to the first day of the
      next month, the count also grows by one. */
  lemma {:induction false} NextDayInYear(h: HijriDate)
    requires 1 <= h.month < 12 && h.day == DaysInMonth(h.month, IsLeapYear(h.year, h.pattern))
    ensures DayCount(h.(month := h.month + 1, day := 1)) == DayCount(h) + 1
  {
    assert MonthsLength(h.month, false) == MonthsLength(h.month - 1, false) + h.day;
  }

  /** From the last day of a year to 1 Muharram of the next, the count grows
      by one, or by two under HabashAlHasib at the end of a cycle. */
  lemma {:induction false} NextDayNextYear(h: HijriDate)
    requires h.Valid() && h.month == 12 && h.day == DaysInMonth(12, IsLeapYear(h.year, h.pattern))
    ensures DayCount(HijriDate(h.year + 1, 1, 1, h.pattern)) ==
      DayCount(h) + 1 + (if h.pattern == HabashAlHasib && h.year % 30 == 0 then 1 else 0)
  {
    assert MonthsLength(h.month - 1, false) + h.day == DaysInYear(h.year, h.pattern) by {
      MonthsLengthFormula(h.month - 1, false);
    }
    DaysBeforeNextYear(h.year, h.pattern);
  }

  /** Consecutive dates have consecutive counts, except that under
      HabashAlHasib the count skips one after the last day of a year that
      ends a cycle. */
  lemma {:induction false} DayCountNext(h: HijriDate)
    requires h.Valid()
    ensures DayCount(NextDay(h)) == DayCount(h) + 1 +
      (if h.pattern == HabashAlHasib && h.year % 30 == 0 && h.month == 12 && h.day == DaysInMonth(12, IsLeapYear(h.year, h.pattern)) then 1 else 0)
  {
    if h.day < DaysInMonth(h.month, IsLeapYear(h.year, h.pattern)) {
      assert NextDay(h) == h.(day := h.day + 1);
      NextDayInMonth(h);
    } else if h.month < 12 {
      assert NextDay(h) == h.(month := h.month + 1, day := 1);
      NextDayInYear(h);
    } else {
      assert NextDay(h) == HijriDate(h.year + 1, 1, 1, h.pattern);
      NextDayNextYear(h);
    }
  }

  /** The days before a year and the year itself come before any later year. */
  lemma {:induction false} DaysBeforeYearMonotone(year1: int, year2: int, pattern: LeapYearsPattern)
    requires 1 <= year1 < year2
    ensures DaysBeforeYear(year1, pattern) + DaysInYear(year1, pattern) <= DaysBeforeYear(year2, pattern)
    decreases year2 - year1
  {
    DaysBeforeNextYear(year1, pattern);
    if year1 + 1 < year2 {
      DaysBeforeYearMonotone(year1 + 1, year2, pattern);
    }
  }

  /** A date in an earlier year has a smaller count: its year ends before
      the later year starts. */
  lemma {:induction false} DayCountAcrossYears(h1: HijriDate, h2: HijriDate)
    requires h1.Valid() && h2.Valid() && h1.pattern == h2.pattern && h1.year < h2.year
    ensures DayCount(h1) < DayCount(h2)
  {
    DayOfYearOfDate(h1);
    DayOfYearOfDate(h2);
    DaysBeforeYearMonotone(h1.year, h2.year, h1.pattern);
  }

  /** Within a year, a date in an earlier month has a smaller count: its
      month, which is not month 12, ends before the later month starts. */
  lemma {:induction false} DayCountAcrossMonths(h1: HijriDate, h2: HijriDate)
    requires h1.Valid() && h2.Valid() && h1.pattern == h2.pattern && h1.year == h2.year && h1.month < h2.month
    ensures DayCount(h1) < DayCount(h2)
  {
    assert MonthsLength(h1.month - 1, false) + h1.day <= MonthsLength(h1.month, false);
    assert MonthsLength(h1.month, false) <= MonthsLength(h2.month - 1, false) by {
      MonthsLengthMonotone(h1.month, h2.month - 1, false);
    }
  }

  /** Within a month, an earlier day has a smaller count. */
  lemma {:induction false} DayCountWithinMonth(h1: HijriDate, h2: HijriDate)
    requires h1.pattern == h2.pattern && h1.year == h2.year && h1.month == h2.month && h1.day < h2.day
    ensures DayCount(h1) < DayCount(h2)
  {
    assert DaysBeforeYear(h1.year, h1.pattern) == DaysBeforeYear(h2.year, h2.pattern);
  }

  /** ToGregorian keeps calendar order: a date that precedes another has a
      smaller count. In particular no two dates share a count. */
  lemma {:induction false} DayCountIncreasing(h1: HijriDate, h2: HijriDate)
    requires h1.Valid() && h2.Valid() && h1.pattern == h2.pattern
    requires Precedes(h1, h2)
    ensures DayCount(h1) < DayCount(h2)
  {
    if h1.year < h2.year {
      DayCountAcrossYears(h1, h2);
    } else if h1.month < h2.month {
      DayCountAcrossMonths(h1, h2);
    } else {
      DayCountWithinMonth(h1, h2);
    }
  }

  /** A count given by its whole cycles, the 354-day years after them and
      the days left over: CreateHijriDate finds these three parts and
      applies the correction step to them. */
  lemma {:induction false} YearAndDayOfYearAt(islamicDays: int, year: int, cycles: nat, years: int, days: int, pattern: LeapYearsPattern)
    requires 0 <= years && 0 <= days < 354 && 354 * years + days < 10631
    requires islamicDays == 10631 * cycles + 354 * years + days && year == 30 * cycles + years
    ensures YearAndDayOfYear(islamicDays, pattern) == CorrectYear(year, days - LeapCount(years, pattern), pattern)
  {
    assert islamicDays / 10631 == cycles && islamicDays % 10631 == 354 * years + days by {
      CountDivision(cycles, 354 * years + days);
    }
    assert (354 * years + days) / 354 == years && (354 * years + days) % 354 == days by {
      RestDivision(years, days);
    }
  }

  /** The converse round trip inside one cycle, for a date in the year at
      position `position + 1` whose day, added to the leap days before it,
      stays within the 354-day estimate of that year. */
  lemma {:induction false} EstimateInYear(islamicDays: int, year: int, cycles: nat, position: int, dayOfYear: int,
                                          pattern: LeapYearsPattern)
    requires 0 <= position < 30 && 1 <= dayOfYear && LeapCount(position, pattern) + dayOfYear < 354
    requires islamicDays == 10631 * cycles + 354 * position + LeapCount(position, pattern) + dayOfYear
    requires year == 30 * cycles + position + 1
    ensures YearAndDayOfYear(islamicDays, pattern) == YearDay(year, dayOfYear)
  {
    var days := LeapCount(position, pattern) + dayOfYear;
    assert YearAndDayOfYear(islamicDays, pattern) ==
        CorrectYear(30 * cycles + position, days - LeapCount(position, pattern), pattern) by {
      YearAndDayOfYearAt(islamicDays, 30 * cycles + position, cycles, position, days, pattern);
    }
  }

  /** The same when the day spills over the estimate: the estimate then
      names the next year, and the correction brings the day back. */
  lemma {:induction false} EstimateInNextYear(islamicDays: int, year: int, cycles: nat, position: int, dayOfYear: int,
                                              pattern: LeapYearsPattern)
    requires 0 <= position < 30 && dayOfYear <= DaysInYear(year, pattern)
    requires 354 <= LeapCount(position, pattern) + dayOfYear
    requires 354 * position + LeapCount(position, pattern) + dayOfYear < 10631
    requires islamicDays == 10631 * cycles + 354 * position + LeapCount(position, pattern) + dayOfYear
    requires year == 30 * cycles + position + 1
    ensures YearAndDayOfYear(islamicDays, pattern) == YearDay(year, dayOfYear)
  {
    var days := LeapCount(position, pattern) + dayOfYear - 354;
    var leap := if IsLeapYear(year, pattern) then 1 else 0;
    assert LeapCount(position + 1, pattern) == LeapCount(position, pattern) + leap by {
      LeapCountStep(year, cycles, position, pattern);
    }
    assert YearAndDayOfYear(islamicDays, pattern) == CorrectYear(year, days - LeapCount(position + 1, pattern), pattern) by {
      YearAndDayOfYearAt(islamicDays, year, cycles, position + 1, days, pattern);
    }
    assert days - LeapCount(position + 1, pattern) == dayOfYear - 354 - leap;
  }

  /** A date whose count reaches a whole cycle is the last day of the
      cycle: position 29, the last day of a common year of 354 days. Under
      HabashAlHasib no date reaches it: its cycle ends on the count before. */
  lemma {:induction false} EstimateAtCycleEnd(islamicDays: int, year: int, cycles: nat, position: int, dayOfYear: int,
                                              pattern: LeapYearsPattern)
    requires 0 <= position < 30
    requires 1 <= dayOfYear <= DaysInYear(year, pattern)
    requires 10631 <= 354 * position + LeapCount(position, pattern) + dayOfYear
    requires islamicDays == 10631 * cycles + 354 * position + LeapCount(position, pattern) + dayOfYear
    requires year == 30 * cycles + position + 1
    ensures YearAndDayOfYear(islamicDays, pattern) == YearDay(year, dayOfYear)
  {
    var last := 29;
    assert position == last;
    if pattern == HabashAlHasib {
      LeapCountAtCycleEnd(last, pattern);
      CycleEndNotLeap(year, cycles + 1, pattern);
      assert false;
    }
    assert LeapCount(position, pattern) == 11 by {
      LeapCountAtCycleEnd(last, pattern);
    }
    assert dayOfYear == 354 by {
      CycleEndNotLeap(year, cycles + 1, pattern);
    }
    CycleEndYear(islamicDays, year, cycles + 1, pattern);
  }

  /** The count of a date in the year at position `position + 1` of a
      cycle leads CreateHijriDate back to that year and that day of the
      year. */
  lemma {:induction false} EstimateOfDate(islamicDays: int, year: int, cycles: nat, position: int, dayOfYear: int,
                                          pattern: LeapYearsPattern)
    requires 0 <= position < 30
    requires 1 <= dayOfYear <= DaysInYear(year, pattern)
    requires islamicDays == 10631 * cycles + 354 * position + LeapCount(position, pattern) + dayOfYear
    requires year == 30 * cycles + position + 1
    ensures YearAndDayOfYear(islamicDays, pattern) == YearDay(year, dayOfYear)
  {
    if LeapCount(position, pattern) + dayOfYear < 354 {
      EstimateInYear(islamicDays, year, cycles, position, dayOfYear, pattern);
    } else if 354 * position + LeapCount(position, pattern) + dayOfYear < 10631 {
      EstimateInNextYear(islamicDays, year, cycles, position, dayOfYear, pattern);
    } else {
      EstimateAtCycleEnd(islamicDays, year, cycles, position, dayOfYear, pattern);
    }
  }

  /** The count ToGregorian gives a date of the calendar is positive, and the year estimate of
      CreateHijriDate finds the date's year and day of the year in it. */
  lemma {:induction false} EstimateOfDayCount(h: HijriDate)
    requires h.Valid()
    ensures DayCount(h) >= 1
    ensures YearAndDayOfYear(DayCount(h), h.pattern) == YearDay(h.year, MonthsLength(h.month - 1, false) + h.day)
  {
    var pattern := h.pattern;
    var cycles := (h.year - 1) / 30;
    var position := (h.year - 1) % 30;
    var dayOfYear := MonthsLength(h.month - 1, false) + h.day;
    assert 1 <= dayOfYear <= DaysInYear(h.year, pattern) by {
      DayOfYearOfDate(h);
    }
    assert h.year == 30 * cycles + position + 1 by {
      YearInCycle(h.year);
    }
    assert DayCount(h) == 10631 * cycles + 354 * position + LeapCount(position, pattern) + dayOfYear by {
      DaysBeforeYearAt(h.year, cycles, position, pattern);
    }
    EstimateOfDate(DayCount(h), h.year, cycles, position, dayOfYear, pattern);
  }

  /** The converse round trip: under every pattern, each date of the
      calendar has a positive count and CreateHijriDate turns that count
      back into the same date. Under HabashAlHasib the count 10631 * c is
      the one left without a date of its own. */
  lemma {:induction false} DateOfDayCountOfDate(h: HijriDate)
    requires h.Valid()
    ensures DayCount(h) >= 1 && DateOfDayCount(DayCount(h), h.pattern) == h
  {
    assert h == HijriDate(h.year, h.month, h.day, h.pattern);
    var dayOfYear := MonthsLength(h.month - 1, false) + h.day;
    assert WalkMonths(dayOfYear, IsLeapYear(h.year, h.pattern), 1) == MonthDay(h.month, h.day) by {
      DayOfYearOfMonth(h.month, h.day, IsLeapYear(h.year, h.pattern));
    }
    assert DayCount(h) >= 1 && YearAndDayOfYear(DayCount(h), h.pattern) == YearDay(h.year, dayOfYear) by {
      EstimateOfDayCount(h);
    }
    DateOfYearDay(DayCount(h), h.pattern, YearDay(h.year, dayOfYear), MonthDay(h.month, h.day));
  }
}
