/**
 * Linear indices of calendar positions: the 365-day count that the coarse year
 * step of the day normaliser preserves, the true Gregorian day number, and hour
 * and minute numbers built on it. The normaliser's carry steps are stated as
 * preserving these indices; here they are related to the leap-day counter of the
 * original and to each other.
 */
module DayNumbers {
  import opened Units
  import opened Calendar
  import opened LeapCounts

  /**
   * Days in the first `k` months of a common year: the sum the epoch conversion
   * accumulates month by month. Only 0 <= k <= 12 is ever used.
   */
  function CumDays(k: int): int
    decreases if k > 12 then 13 else if k < 0 then 0 else k
  {
    if k <= 0 then 0
    else if k > 12 then CumDays(12)
    else CumDays(k - 1) + Days[k - 1]
  }

  /** The same in year `y`, counting February 29 once February is complete. */
  ghost function CumDaysLeap(y: int, k: int): int {
    CumDays(k) + (if IsLeapYear(y) && k >= 2 then 1 else 0)
  }

  /** Day index in a calendar whose every year has 365 days. */
  ghost function NaiveDayNumber(y: int, m: int, d: int): int {
    TypicalDaysPerYear * y + CumDays(m - 1) + d
  }

  /** Gregorian day index; day `d` may lie outside its month, and month 13 is January of `y + 1`. */
  ghost function DayNumber(y: int, m: int, d: int): int {
    TypicalDaysPerYear * y + LeapYearsThrough(y - 1) + CumDaysLeap(y, m - 1) + d
  }

  ghost function HourNumber(y: int, m: int, d: int, h: int): int {
    HoursPerDay * DayNumber(y, m, d) + h
  }

  /** Minute index of the month, day, hour and minute fields of `t`. */
  ghost function MinuteNumber(t: Tm): int {
    MinutesPerHour * HourNumber(t.yr, t.mon, t.day, t.hr) + t.min
  }

  /**
   * The position is from year 1 on, and its 365-day index lies beyond the first
   * year: the day normaliser's truncating year estimate then never takes it
   * before year 1, where the original's leap-day closed form stops counting.
   */
  ghost predicate AfterYearOne(y: int, m: int, d: int) {
    y >= 1 && NaiveDayNumber(y, m, d) > TypicalDaysPerYear
  }

  ghost predicate ValidDate(y: int, m: int, d: int) {
    StartMon <= m <= EndMon && StartDay <= d <= NumDaysOfMonth(y, m)
  }

  ghost predicate DateLess(y1: int, m1: int, d1: int, y2: int, m2: int, d2: int) {
    y1 < y2 || (y1 == y2 && (m1 < m2 || (m1 == m2 && d1 < d2)))
  }

  // ---------------------------------------------------------------------------
  // Month tables.

  lemma CumDaysTable()
    ensures CumDays(1) == 31 && CumDays(2) == 59 && CumDays(3) == 90 && CumDays(4) == 120
    ensures CumDays(5) == 151 && CumDays(6) == 181 && CumDays(7) == 212 && CumDays(8) == 243
    ensures CumDays(9) == 273 && CumDays(10) == 304 && CumDays(11) == 334 && CumDays(12) == 365
  {
    assert CumDays(0) == 0;
    assert CumDays(1) == 31;
    assert CumDays(2) == 59;
    assert CumDays(3) == 90;
    assert CumDays(4) == 120;
    assert CumDays(5) == 151;
    assert CumDays(6) == 181;
    assert CumDays(7) == 212;
    assert CumDays(8) == 243;
    assert CumDays(9) == 273;
    assert CumDays(10) == 304;
    assert CumDays(11) == 334;
  }

  lemma {:induction false} CumDaysMonotone(j: int, k: int)
    requires 0 <= j <= k <= 12
    ensures CumDays(j) <= CumDays(k)
    decreases k - j
  {
    if j < k {
      CumDaysMonotone(j, k - 1);
    }
  }

  lemma CumDaysBounds(k: int)
    ensures 0 <= CumDays(k) <= 365
    ensures k >= 1 ==> CumDays(k) >= 31
  {
    CumDaysTable();
    if 1 <= k <= 12 {
      CumDaysMonotone(1, k);
      CumDaysMonotone(k, 12);
    }
  }

  /** A date valid in a common year lies inside its year of the 365-day index. */
  lemma NaiveInYear(y: int, m: int, d: int)
    requires StartMon <= m <= EndMon && StartDay <= d <= Days[m - 1]
    ensures TypicalDaysPerYear * y < NaiveDayNumber(y, m, d) <= TypicalDaysPerYear * y + TypicalDaysPerYear
  {
    CumDaysBounds(m - 1);
    CumDaysBounds(m);
  }

  /** One more month adds that month's days, leap February included. */
  lemma CumDaysLeapStep(y: int, m: int)
    requires StartMon <= m <= EndMon
    ensures CumDaysLeap(y, m) == CumDaysLeap(y, m - 1) + NumDaysOfMonth(y, m)
  {
  }

  lemma {:induction false} CumDaysLeapGrows(y: int, j: int, k: int)
    requires 0 <= j < k <= 12
    ensures CumDaysLeap(y, k) >= CumDaysLeap(y, j) + NumDaysOfMonth(y, j + 1)
    decreases k - j
  {
    CumDaysLeapStep(y, j + 1);
    if j + 1 < k {
      CumDaysLeapGrows(y, j + 1, k);
    }
  }

  lemma CumDaysLeapYear(y: int)
    ensures CumDaysLeap(y, 12) == TypicalDaysPerYear + (if IsLeapYear(y) then 1 else 0)
  {
    CumDaysTable();
  }

  // ---------------------------------------------------------------------------
  // The carry steps on the indices.

  /** Moving a month forward and its common-year length out of the day keeps the 365-day index. */
  lemma NaiveNextMonth(y: int, m: int, d: int)
    requires StartMon <= m <= EndMon
    ensures NaiveDayNumber(y, m, d) == NaiveDayNumber(y, m + 1, d - Days[m - 1])
  {
  }

  /** Month 13 of `y` is month 1 of `y + 1` for both indices. */
  lemma ThirteenthMonth(y: int, d: int)
    ensures NaiveDayNumber(y, 13, d) == NaiveDayNumber(y + 1, 1, d)
    ensures DayNumber(y, 13, d) == DayNumber(y + 1, 1, d)
  {
    CumDaysTable();
    LeapYearsThroughStep(y);
  }

  lemma NextMonth(y: int, m: int, d: int)
    requires StartMon <= m <= EndMon
    ensures DayNumber(y, m, d) == DayNumber(y, m + 1, d - NumDaysOfMonth(y, m))
  {
    CumDaysLeapStep(y, m);
  }

  /** The month after (y, m) is (y, m + 1), or January of the next year after December. */
  lemma MonthAfter(y: int, m: int, y2: int, m2: int)
    requires StartMon <= m <= EndMon && StartMon <= m2 <= EndMon
    requires MonthsPerYear * y2 + m2 == MonthsPerYear * y + m + 1
    ensures if m == EndMon then y2 == y + 1 && m2 == StartMon else y2 == y && m2 == m + 1
  {
  }

  /**
   * One forward step of the common-year month loop: the day loses the common
   * length of month `m` and the month advances to (y2, m2), the month after (y, m).
   */
  lemma NaiveForwardMonthStep(y: int, m: int, d: int, y2: int, m2: int)
    requires StartMon <= m <= EndMon && StartMon <= m2 <= EndMon
    requires MonthsPerYear * y2 + m2 == MonthsPerYear * y + m + 1
    ensures NaiveDayNumber(y2, m2, d - Days[m - 1]) == NaiveDayNumber(y, m, d)
  {
    MonthAfter(y, m, y2, m2);
    NaiveNextMonth(y, m, d);
    if m == EndMon {
      ThirteenthMonth(y, d - Days[m - 1]);
    }
  }

  /** The same step of the Gregorian month loop, with the actual length of month `m`. */
  lemma ForwardMonthStep(y: int, m: int, d: int, y2: int, m2: int)
    requires StartMon <= m <= EndMon && StartMon <= m2 <= EndMon
    requires MonthsPerYear * y2 + m2 == MonthsPerYear * y + m + 1
    ensures DayNumber(y2, m2, d - NumDaysOfMonth(y, m)) == DayNumber(y, m, d)
  {
    MonthAfter(y, m, y2, m2);
    NextMonth(y, m, d);
    if m == EndMon {
      ThirteenthMonth(y, d - NumDaysOfMonth(y, m));
    }
  }

  /**
   * One backward step of the common-year month loop: the month goes back to
   * (y2, m2), the month before (y, m), and the day gains its common length.
   */
  lemma NaiveBackwardMonthStep(y: int, m: int, d: int, y2: int, m2: int)
    requires StartMon <= m <= EndMon && StartMon <= m2 <= EndMon
    requires MonthsPerYear * y2 + m2 == MonthsPerYear * y + m - 1
    ensures NaiveDayNumber(y2, m2, d + Days[m2 - 1]) == NaiveDayNumber(y, m, d)
  {
    NaiveForwardMonthStep(y2, m2, d + Days[m2 - 1], y, m);
  }

  /** The same step of the Gregorian month loop, with the actual length of month (y2, m2). */
  lemma BackwardMonthStep(y: int, m: int, d: int, y2: int, m2: int)
    requires StartMon <= m <= EndMon && StartMon <= m2 <= EndMon
    requires MonthsPerYear * y2 + m2 == MonthsPerYear * y + m - 1
    ensures DayNumber(y2, m2, d + NumDaysOfMonth(y2, m2)) == DayNumber(y, m, d)
  {
    ForwardMonthStep(y2, m2, d + NumDaysOfMonth(y2, m2), y, m);
  }

  /** Whole years of 365 days move the 365-day index by nothing. */
  lemma NaiveYearJump(y: int, m: int, d: int, c: int)
    ensures NaiveDayNumber(y, m, d) == NaiveDayNumber(y + c, m, d - TypicalDaysPerYear * c)
  {
  }

  // ---------------------------------------------------------------------------
  // The index and its bounds on valid dates.

  /** Within a year a valid date lies between that year's first day and the next year's. */
  lemma DayNumberInYear(y: int, m: int, d: int)
    requires ValidDate(y, m, d)
    ensures DayNumber(y, 1, 1) <= DayNumber(y, m, d) < DayNumber(y + 1, 1, 1)
  {
    ThirteenthMonth(y, 1);
    CumDaysLeapYear(y);
    if m < 12 {
      CumDaysLeapGrows(y, m, 12);
    }
    CumDaysLeapStep(y, m);
  }

  lemma {:induction false} YearStartsGrow(y1: int, y2: int)
    requires y1 <= y2
    ensures DayNumber(y1, 1, 1) + TypicalDaysPerYear * (y2 - y1) <= DayNumber(y2, 1, 1)
    decreases y2 - y1
  {
    if y1 < y2 {
      YearStartsGrow(y1, y2 - 1);
      ThirteenthMonth(y2 - 1, 1);
      CumDaysLeapYear(y2 - 1);
    }
  }

  /** The day number is strictly increasing along the calendar order of valid dates. */
  lemma DayNumberStrictlyMonotone(y1: int, m1: int, d1: int, y2: int, m2: int, d2: int)
    requires ValidDate(y1, m1, d1) && ValidDate(y2, m2, d2)
    requires DateLess(y1, m1, d1, y2, m2, d2)
    ensures DayNumber(y1, m1, d1) < DayNumber(y2, m2, d2)
  {
    if y1 < y2 {
      DayNumberInYear(y1, m1, d1);
      DayNumberInYear(y2, m2, d2);
      YearStartsGrow(y1 + 1, y2);
    } else if m1 < m2 {
      CumDaysLeapStep(y1, m1);
      if m1 < m2 - 1 {
        CumDaysLeapGrows(y1, m1, m2 - 1);
      }
    }
  }

  /** Hence different valid dates have different day numbers. */
  lemma DayNumberInjective(y1: int, m1: int, d1: int, y2: int, m2: int, d2: int)
    requires ValidDate(y1, m1, d1) && ValidDate(y2, m2, d2)
    requires DayNumber(y1, m1, d1) == DayNumber(y2, m2, d2)
    ensures y1 == y2 && m1 == m2 && d1 == d2
  {
    if DateLess(y1, m1, d1, y2, m2, d2) {
      DayNumberStrictlyMonotone(y1, m1, d1, y2, m2, d2);
    } else if DateLess(y2, m2, d2, y1, m1, d1) {
      DayNumberStrictlyMonotone(y2, m2, d2, y1, m1, d1);
    }
  }

  /** A position after year one is not before 0001-01-01 in the Gregorian index. */
  lemma AfterYearOneDayNumber(y: int, m: int, d: int)
    requires AfterYearOne(y, m, d) && StartMon <= m <= EndMon
    ensures DayNumber(y, m, d) >= DayNumber(1, 1, 1)
  {
    LeapYearsThroughCounts(y - 1);
  }

  /** A valid date is in year 1 or later exactly when it is not before 0001-01-01. */
  lemma YearOneByDayNumber(y: int, m: int, d: int)
    requires ValidDate(y, m, d)
    ensures y >= 1 <==> DayNumber(y, m, d) >= DayNumber(1, 1, 1)
  {
    DayNumberInYear(y, m, d);
    if y >= 1 {
      YearStartsGrow(1, y);
    } else {
      YearStartsGrow(y + 1, 1);
    }
  }

  /** A valid date with the day number of a position after year one is in year 1 or later. */
  lemma SameDayAfterYearOne(y0: int, m0: int, d0: int, y: int, m: int, d: int)
    requires AfterYearOne(y0, m0, d0) && StartMon <= m0 <= EndMon
    requires ValidDate(y, m, d) && DayNumber(y, m, d) == DayNumber(y0, m0, d0)
    ensures y >= 1
  {
    AfterYearOneDayNumber(y0, m0, d0);
    YearOneByDayNumber(y, m, d);
  }

  /** Moving a valid date of year 1 or later forward by whole days stays after year one. */
  lemma ForwardDaysAfterYearOne(y: int, m: int, d: int, k: int)
    requires ValidDate(y, m, d) && y >= 1 && k >= 0
    ensures AfterYearOne(y, m, d + k)
  {
    CumDaysBounds(m - 1);
  }

  // ---------------------------------------------------------------------------
  // The original's leap-day counters against the day numbers.

  /**
   * On a date of year 1 or later whose February day is at most 29, the closed
   * form of the instant leap-day counter is exactly the gap between the
   * Gregorian and the 365-day index: the leap days strictly before the date.
   */
  lemma LeapDaysBeforeDate(t: Tm)
    requires t.yr >= 1 && MonInLimits(t) && (t.mon - 1 == Feb ==> t.day <= 29)
    ensures LeapDaysSinceYearZero(CalcYr(t)) ==
      DayNumber(t.yr, t.mon, t.day) - NaiveDayNumber(t.yr, t.mon, t.day)
  {
    LeapYearsThroughStep(t.yr);
    TruncMatchesFloor(CalcYr(t));
  }

  /**
   * Between two such dates the instant overload counts the leap days crossed:
   * the Gregorian day distance minus the 365-day distance.
   */
  lemma LeapDaysWalkedThroughFromCountsCrossed(start: Tm, end: Tm)
    requires start.yr >= 1 && MonInLimits(start) && (start.mon - 1 == Feb ==> start.day <= 29)
    requires end.yr >= 1 && MonInLimits(end) && (end.mon - 1 == Feb ==> end.day <= 29)
    ensures LeapDaysWalkedThroughFrom(start, end) ==
      (DayNumber(end.yr, end.mon, end.day) - DayNumber(start.yr, start.mon, start.day))
      - (NaiveDayNumber(end.yr, end.mon, end.day) - NaiveDayNumber(start.yr, start.mon, start.day))
  {
    LeapDaysBeforeDate(start);
    LeapDaysBeforeDate(end);
  }

  /** The year-only leap-day count from year 1 on is the difference of the floor closed forms. */
  lemma LeapDaysFromYearsFloor(startYr: nat, endYr: nat)
    requires 1 <= startYr && 1 <= endYr
    ensures LeapDaysWalkedThroughFromYears(startYr, endYr) == LeapYearsThrough(endYr - 1) - LeapYearsThrough(startYr - 1)
  {
    YearOnlyCountsLeapYearsBefore(startYr);
    YearOnlyCountsLeapYearsBefore(endYr);
    LeapYearsThroughCounts(startYr - 1);
    LeapYearsThroughCounts(endYr - 1);
  }

  /** The unwrapped flat seconds between two Jan 1 instants are whole Gregorian days. */
  lemma FlatSecondsIsDays(startYr: nat, endYr: nat)
    requires 1 <= startYr && 1 <= endYr
    ensures (endYr - startYr) * SecondsPerYear + LeapDaysWalkedThroughFromYears(startYr, endYr) * SecondsPerDay
      == SecondsPerDay * (DayNumber(endYr, 1, 1) - DayNumber(startYr, 1, 1))
  {
    LeapDaysFromYearsFloor(startYr, endYr);
  }

  /**
   * The leap correction of the day normaliser: a coarse position (valid in the
   * common-year table) with the same 365-day index as (y0, m0, d0), less the leap
   * days from the first of month m0 of y0 to it, has the Gregorian day number
   * of (y0, m0, d0).
   */
  lemma LeapCorrectionRestoresDayNumber(y0: int, m0: int, d0: int, coarse: Tm)
    requires AfterYearOne(y0, m0, d0) && StartMon <= m0 <= EndMon
    requires MonInLimits(coarse) && StartDay <= coarse.day <= Days[coarse.mon - 1]
    requires NaiveDayNumber(coarse.yr, coarse.mon, coarse.day) == NaiveDayNumber(y0, m0, d0)
    ensures DayNumber(coarse.yr, coarse.mon,
      coarse.day - LeapDaysWalkedThroughFrom(Tm(y0, m0, StartDay, StartHr, StartMin, StartSec, StartFracSec), coarse))
      == DayNumber(y0, m0, d0)
  {
    NaiveInYear(coarse.yr, coarse.mon, coarse.day);
    LeapDaysWalkedThroughFromCountsCrossed(Tm(y0, m0, StartDay, StartHr, StartMin, StartSec, StartFracSec), coarse);
  }

  /** From year 1 on, the flat seconds between two Jan 1 instants are whole Gregorian days. */
  lemma NumSecondsBetweenEpochsIsDays(startYr: nat, endYr: nat)
    requires 1 <= startYr <= endYr <= EndYr
    ensures NumSecondsBetweenEpochs(startYr, endYr) ==
      SecondsPerDay * (DayNumber(endYr, 1, 1) - DayNumber(startYr, 1, 1))
  {
    FlatSecondsIsDays(startYr, endYr);
    LeapDaysFromYearsCountsLeapYears(startYr, endYr);
    LeapYearsInAtMost(startYr, endYr);
    var x := (endYr - startYr) * SecondsPerYear + LeapDaysWalkedThroughFromYears(startYr, endYr) * SecondsPerDay;
    assert 0 <= x < SizeModulus;
    DivModUnique(x, SizeModulus, 0, x);
  }

  /** Going back in years, the unsigned result wraps around. */
  lemma NumSecondsBetweenEpochsWraps(startYr: nat, endYr: nat)
    requires 1 <= endYr < startYr <= EndYr
    ensures NumSecondsBetweenEpochs(startYr, endYr) ==
      SizeModulus - SecondsPerDay * (DayNumber(startYr, 1, 1) - DayNumber(endYr, 1, 1))
  {
    FlatSecondsIsDays(startYr, endYr);
    LeapDaysFromYearsCountsLeapYears(startYr, endYr);
    LeapYearsInAtMost(endYr, startYr);
    var x := (endYr - startYr) * SecondsPerYear + LeapDaysWalkedThroughFromYears(startYr, endYr) * SecondsPerDay;
    assert -SizeModulus <= x < 0;
    DivModUnique(x, SizeModulus, -1, SizeModulus + x);
  }

  lemma NumSecondsBetweenEpochsExamples()
    ensures NumSecondsBetweenEpochs(1900, 1900) == 0
    ensures NumSecondsBetweenEpochs(1900, 1970) == 2208988800
    ensures NumSecondsBetweenEpochs(1900, 2000) == 3155673600
  {
  }
}
