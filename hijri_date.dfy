/** The HijriDate value of hijri.go, the single month-length rule that its
    validator and both conversions use, and the validator NewHijriDate. */
module HijriDates {
  import opened LeapYears

  /** The two ways a date can be refused: by the validator, or by the
      conversion from a day before the calendar began. */
  datatype DateError = InvalidDate | BeforeHijrStarted

  datatype Result<T> = Success(value: T) | Failure(error: DateError)

  datatype HijriDate = HijriDate(year: int, month: int, day: int, pattern: LeapYearsPattern)
  {
    /** A date in the calendar: year 1 or later, one of the twelve months,
        and a day within that month's length. */
    predicate Valid()
    {
      year >= 1 && 1 <= month <= 12 && 1 <= day <= DaysInMonth(month, IsLeapYear(year, pattern))
    }
  }

  /** Odd months have 30 days and even months 29; month 12 gets a 30th day in
      a leap year. */
  function DaysInMonth(month: int, inLeapYear: bool): int
    requires month >= 1
  {
    29 + month % 2 + (if inLeapYear && month == 12 then 1 else 0)
  }

  /** The number of days in the first `months` months of a year. */
  function MonthsLength(months: int, inLeapYear: bool): int
    decreases months, inLeapYear
  {
    if months <= 0 then 0
    else MonthsLength(months - 1, inLeapYear) + DaysInMonth(months, inLeapYear)
  }

  /** A year has 354 days, and 355 when it is a leap year. */
  function DaysInYear(year: int, pattern: LeapYearsPattern): int
  {
    if IsLeapYear(year, pattern) then 355 else 354
  }

  /** The months alternate 30 and 29 days from a 30-day first month, so the
      first `months` of them hold 29 days each plus one for every odd
      month among them, and month 12 of a leap year one more. */
  lemma {:induction false} MonthsLengthFormula(months: int, inLeapYear: bool)
    requires 0 <= months <= 12
    ensures MonthsLength(months, inLeapYear) ==
      29 * months + (months + 1) / 2 + (if inLeapYear && months == 12 then 1 else 0)
  {
    if months > 0 {
      MonthsLengthFormula(months - 1, inLeapYear);
    }
  }

  /** The twelve months of a year add up to the length of the year. */
  lemma {:induction false} YearLength(year: int, pattern: LeapYearsPattern)
    ensures MonthsLength(12, IsLeapYear(year, pattern)) == DaysInYear(year, pattern)
  {
    MonthsLengthFormula(12, IsLeapYear(year, pattern));
  }

  /** The leap day falls in month 12, so the first eleven months have the
      same length in every year. */
  lemma {:induction false} LeapDayOnlyInLastMonth(months: int)
    requires months <= 11
    ensures MonthsLength(months, true) == MonthsLength(months, false)
  {
    if months > 0 {
      LeapDayOnlyInLastMonth(months - 1);
    }
  }

  /** The first `i` months of a year never hold more days than the first
      `j` months when i <= j. */
  lemma {:induction false} MonthsLengthMonotone(i: int, j: int, inLeapYear: bool)
    requires i <= j
    ensures MonthsLength(i, inLeapYear) <= MonthsLength(j, inLeapYear)
  {
    if i < j && j > 0 {
      MonthsLengthMonotone(i, j - 1, inLeapYear);
    }
  }

  /** The day after a date of the calendar. */
  function NextDay(h: HijriDate): (next: HijriDate)
    requires h.Valid()
    ensures next.Valid() && next.pattern == h.pattern
  {
    if h.day < DaysInMonth(h.month, IsLeapYear(h.year, h.pattern)) then h.(day := h.day + 1)
    else if h.month < 12 then h.(month := h.month + 1, day := 1)
    else HijriDate(h.year + 1, 1, 1, h.pattern)
  }

  /** Calendar order: by year, then month, then day. */
  predicate Precedes(h1: HijriDate, h2: HijriDate)
  {
    h1.year < h2.year ||
    (h1.year == h2.year && (h1.month < h2.month || (h1.month == h2.month && h1.day < h2.day)))
  }

  /** NewHijriDate: fields below 1 are refused first; then the day is checked
      against the month's length, and only then is a month above 12 refused.
      Whatever the reason, the outcome is one rejection; an accepted date is
      returned exactly as given. */
  function NewHijriDate(year: int, month: int, day: int, leapPattern: LeapYearsPattern): (r: Result<HijriDate>)
    ensures r.Success? <==> HijriDate(year, month, day, leapPattern).Valid()
    ensures r.Success? ==> r.value == HijriDate(year, month, day, leapPattern)
    ensures r.Failure? ==> r.error == InvalidDate
  {
    if year < 1 || month < 1 || day < 1 then Failure(InvalidDate)
    else if day > DaysInMonth(month, IsLeapYear(year, leapPattern)) then Failure(InvalidDate)
    else if month > 12 then Failure(InvalidDate)
    else Success(HijriDate(year, month, day, leapPattern))
  }

  /** The explicit bounds of an accepted date: day 30 of month 12 exists only
      in a leap year, and day 30 of an even month never. */
  lemma {:induction false} NewHijriDateBounds(year: int, month: int, day: int, leapPattern: LeapYearsPattern)
    ensures NewHijriDate(year, month, day, leapPattern).Success? <==>
      year >= 1 && 1 <= month <= 12 && 1 <= day &&
      (day <= 29 || (day == 30 && (month % 2 == 1 || (month == 12 && IsLeapYear(year, leapPattern)))))
  {
  }

  /** The dates the validator must accept and those it must refuse under the
      Default pattern. */
  lemma {:induction false} NewHijriDateCases()
    ensures forall year | year in {1442, 1445, 1447, 1450, 1453, 1456, 1458, 1461, 1464, 1466, 1469} ::
      NewHijriDate(year, 12, 30, Default) == Success(HijriDate(year, 12, 30, Default))
    ensures NewHijriDate(0, 12, 12, Default).Failure?
    ensures NewHijriDate(1, 0, 12, Default).Failure?
    ensures NewHijriDate(1, 12, 0, Default).Failure?
    ensures NewHijriDate(2, 13, 12, Default).Failure?
    ensures NewHijriDate(2, 2, 30, Default).Failure?
    ensures NewHijriDate(1443, 12, 30, Default).Failure?
  {
  }
}
