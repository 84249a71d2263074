/** The four leap-year patterns of the arithmetical Islamic calendar and the
    leap-year test of hijri.go. Every pattern marks year positions in a
    repeating cycle of 30 years. */
module LeapYears {
  import opened GoArith

  datatype LeapYearsPattern = Default | Base15 | Fattimid | HabashAlHasib

  /** The case labels of the pattern's switch in isLeapYear; they are also
      the years the documentation of each pattern lists. */
  predicate IsCaseLabel(position: int, pattern: LeapYearsPattern)
  {
    match pattern
    case Default =>
      position == 2 || position == 5 || position == 7 || position == 10 || position == 13 || position == 16 ||
      position == 18 || position == 21 || position == 24 || position == 26 || position == 29
    case Base15 =>
      position == 2 || position == 5 || position == 7 || position == 10 || position == 13 || position == 15 ||
      position == 18 || position == 21 || position == 24 || position == 26 || position == 29
    case Fattimid =>
      position == 2 || position == 5 || position == 8 || position == 10 || position == 13 || position == 16 ||
      position == 19 || position == 21 || position == 24 || position == 27 || position == 29
    case HabashAlHasib =>
      position == 2 || position == 5 || position == 8 || position == 11 || position == 13 || position == 16 ||
      position == 19 || position == 21 || position == 24 || position == 27 || position == 30
  }

  /** isLeapYear: the year is reduced with Go's `%` by 30 and then matched
      against the pattern's case labels. */
  predicate IsLeapYear(year: int, pattern: LeapYearsPattern)
  {
    IsCaseLabel(Rem(year, 30), pattern)
  }

  /** The number of leap years among years 1..years, as the counting loops of
      CreateHijriDate and ToGregorian find it (none when years < 1). */
  function LeapCount(years: int, pattern: LeapYearsPattern): (count: nat)
    ensures count <= if years > 0 then years else 0
    decreases years, pattern
  {
    if years <= 0 then 0
    else LeapCount(years - 1, pattern) + (if IsLeapYear(years, pattern) then 1 else 0)
  }

  /** For a year that is not negative, being a leap year is a matter of its
      residue modulo 30; the residue sets are those of the documentation,
      except that HabashAlHasib loses its year 30. */
  lemma {:induction false} LeapYearByResidue(year: int, pattern: LeapYearsPattern)
    requires year >= 0
    ensures IsLeapYear(year, pattern) <==>
      match pattern
      case Default => year % 30 in {2, 5, 7, 10, 13, 16, 18, 21, 24, 26, 29}
      case Base15 => year % 30 in {2, 5, 7, 10, 13, 15, 18, 21, 24, 26, 29}
      case Fattimid => year % 30 in {2, 5, 8, 10, 13, 16, 19, 21, 24, 27, 29}
      case HabashAlHasib => year % 30 in {2, 5, 8, 11, 13, 16, 19, 21, 24, 27}
  {
  }

  /** A year at position 1..30 of its cycle is a leap year exactly when the
      position is a case label below 30: the last year of a cycle is never a
      leap year, not even under HabashAlHasib, whose label 30 cannot match a
      residue modulo 30. */
  lemma {:induction false} CyclePosition(cycles: nat, position: int, pattern: LeapYearsPattern)
    requires 1 <= position <= 30
    ensures IsLeapYear(30 * cycles + position, pattern) <==> IsCaseLabel(position, pattern) && position < 30
  {
  }

  /** Going one year further into a cycle adds one to the leap count
      exactly when the year reached is a leap year, in whichever cycle. */
  lemma {:induction false} LeapCountStep(year: int, cycles: nat, position: int, pattern: LeapYearsPattern)
    requires 0 <= position < 30 && year == 30 * cycles + position + 1
    ensures LeapCount(position + 1, pattern) == LeapCount(position, pattern) + (if IsLeapYear(year, pattern) then 1 else 0)
  {
    assert IsLeapYear(year, pattern) == IsLeapYear(position + 1, pattern) by {
      LeapYearPeriodic(cycles, position + 1, pattern);
    }
  }

  /** A multiple of 30, such as the year that ends a cycle, is never a
      leap year, whatever its sign. */
  lemma {:induction false} CycleEndNotLeap(year: int, cycles: int, pattern: LeapYearsPattern)
    requires year == 30 * cycles
    ensures !IsLeapYear(year, pattern)
  {
    assert Rem(year, 30) == 0;
  }

  /** Whether a year that is not negative is a leap year depends only on
      the year modulo 30. */
  lemma {:induction false} LeapYearPeriodic(cycles: nat, year: int, pattern: LeapYearsPattern)
    requires year >= 0
    ensures IsLeapYear(30 * cycles + year, pattern) == IsLeapYear(year, pattern)
  {
  }

  /** The leap years of positions 1..29 under Default, counted five at a time. */
  lemma {:induction false} CycleLeapCountDefault()
    ensures LeapCount(29, Default) == 11
  {
    assert LeapCount(5, Default) == 2;
    assert LeapCount(10, Default) == 4;
    assert LeapCount(15, Default) == 5;
    assert LeapCount(20, Default) == 7;
    assert LeapCount(25, Default) == 9;
  }

  /** The leap years of positions 1..29 under Base15, counted five at a time. */
  lemma {:induction false} CycleLeapCountBase15()
    ensures LeapCount(29, Base15) == 11
  {
    assert LeapCount(5, Base15) == 2;
    assert LeapCount(10, Base15) == 4;
    assert LeapCount(15, Base15) == 6;
    assert LeapCount(20, Base15) == 7;
    assert LeapCount(25, Base15) == 9;
  }

  /** The leap years of positions 1..29 under Fattimid, counted five at a time. */
  lemma {:induction false} CycleLeapCountFattimid()
    ensures LeapCount(29, Fattimid) == 11
  {
    assert LeapCount(5, Fattimid) == 2;
    assert LeapCount(10, Fattimid) == 4;
    assert LeapCount(15, Fattimid) == 5;
    assert LeapCount(20, Fattimid) == 7;
    assert LeapCount(25, Fattimid) == 9;
  }

  /** The leap years of positions 1..29 under HabashAlHasib, counted five at a time. */
  lemma {:induction false} CycleLeapCountHabashAlHasib()
    ensures LeapCount(29, HabashAlHasib) == 10
  {
    assert LeapCount(5, HabashAlHasib) == 2;
    assert LeapCount(10, HabashAlHasib) == 3;
    assert LeapCount(15, HabashAlHasib) == 5;
    assert LeapCount(20, HabashAlHasib) == 7;
    assert LeapCount(25, HabashAlHasib) == 9;
  }

  /** Counting the leap years over one cycle: eleven for the first three
      patterns, but only ten for HabashAlHasib, whose position 30 is never
      reached. Only the first three fill the 10631-day cycle that
      CreateHijriDate and ToGregorian assume. */
  lemma {:induction false} LeapYearsPerCycle(pattern: LeapYearsPattern)
    ensures LeapCount(29, pattern) == if pattern == HabashAlHasib then 10 else 11
    ensures LeapCount(30, pattern) == LeapCount(29, pattern)
    ensures pattern != HabashAlHasib <==> 30 * 354 + LeapCount(30, pattern) == 10631
  {
    match pattern
    case Default => CycleLeapCountDefault();
    case Base15 => CycleLeapCountBase15();
    case Fattimid => CycleLeapCountFattimid();
    case HabashAlHasib => CycleLeapCountHabashAlHasib();
  }

  /** The count over a whole cycle for a position given as a variable, as
      the conversions meet it: a year whose position is 29 or 30. */
  lemma {:induction false} LeapCountAtCycleEnd(position: int, pattern: LeapYearsPattern)
    requires position == 29 || position == 30
    ensures LeapCount(position, pattern) == if pattern == HabashAlHasib then 10 else 11
  {
    LeapYearsPerCycle(pattern);
  }
}
