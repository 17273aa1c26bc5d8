/**
 * What the Smart Time System promises its users, stated over the model: the
 * epoch conversion and the `sinceEpoch` constructor are inverse on valid
 * instants, `adjust` is idempotent, the two documented roll-overs of `adjust`,
 * and the difference operator agrees with the ordering.
 */
module Guarantees {
  import opened Units
  import opened Calendar
  import opened DayNumbers
  import opened EpochCount
  import opened Normalizer

  // ---------------------------------------------------------------------------
  // Round trip through the epoch counter.

  /**
   * For a valid instant on a consistent table, `toEpoch` gives a count that is
   * not negative, and constructing from that count gives the instant back,
   * second for second.
   */
  method EpochRoundTrip(ts: TimeSystem, x: Tm) returns (n: int, y: Tm)
    requires WellFormed(ts) && IsValid(ts, x)
    ensures n == EpochSeconds(ts, x) && n >= 0
    ensures EqualsNoFrac(y, x) && y.fracSec == StartFracSec
  {
    var original := new SmartTm(x.yr, x.mon, x.day, x.hr, x.min, x.sec, x.fracSec);
    n := original.ToEpoch(ts);
    EpochSecondsIsElapsed(ts, x);
    ElapsedNonNegative(ts, x);
    var rebuilt := new SmartTm.SinceEpoch(ts, n);
    y := rebuilt.Value();
    ElapsedInjective(ts, y, x);
  }

  /** Valid instants with the same count are the same instant, second for second. */
  lemma EpochSecondsInjective(ts: TimeSystem, a: Tm, b: Tm)
    requires WellFormed(ts) && IsValid(ts, a) && IsValid(ts, b)
    requires EpochSeconds(ts, a) == EpochSeconds(ts, b)
    ensures EqualsNoFrac(a, b)
  {
    EpochSecondsIsElapsed(ts, a);
    EpochSecondsIsElapsed(ts, b);
    ElapsedInjective(ts, a, b);
  }

  // ---------------------------------------------------------------------------
  // `adjust`.

  /** A second `adjust` changes nothing: every field but the year is in range after the first. */
  method AdjustIsIdempotent(ts: TimeSystem, t: Tm) returns (once: Tm, twice: Tm)
    ensures FieldsInLimits(ts, once) && twice == once
  {
    var s := new SmartTm(t.yr, t.mon, t.day, t.hr, t.min, t.sec, t.fracSec);
    s.Adjust(ts);
    once := s.Value();
    s.Adjust(ts);
    twice := s.Value();
  }

  /** Second 60 of a minute without a leap second is the position of the next minute's second 0. */
  lemma SixtyIsNextMinute(ts: TimeSystem, a: Tm, b: Tm)
    requires WellFormed(ts) && MinuteFieldsInLimits(a) && a.sec == 60
    requires NumSecondsOfMinute(ts, a) == TypicalSecondsPerMinute
    requires MinuteNumber(b) == MinuteNumber(a) + 1 && b.sec == StartSec
    ensures Elapsed(ts, a) == Elapsed(ts, b)
  {
    MinuteLength(ts, a);
  }

  /**
   * `adjust` of a value whose day, hour and minute stages keep its minute
   * number, not before the epoch minute, with a non-negative second and no
   * fraction, is the one instant with every field but the year in range at the
   * same position on the counter.
   */
  method AdjustToPosition(ts: TimeSystem, t: Tm, target: Tm) returns (r: Tm)
    requires WellFormed(ts) && MonInLimits(t) && MinuteStagesFromYearOne(t)
    requires MinuteNumber(t) >= MinuteNumber(Epoch(ts)) && t.sec >= StartSec && t.fracSec == StartFracSec
    requires FieldsInLimits(ts, target) && target.fracSec == StartFracSec
    requires Elapsed(ts, target) == Elapsed(ts, t)
    ensures r == target
  {
    var s := new SmartTm(t.yr, t.mon, t.day, t.hr, t.min, t.sec, t.fracSec);
    assert AdjustFromEpoch(ts, s.Value());
    s.Adjust(ts);
    r := s.Value();
    ElapsedInjective(ts, r, target);
  }

  /** A real minute from the epoch year on is kept by the minute stages and is not before the epoch minute. */
  lemma RealMinuteFromEpoch(ts: TimeSystem, t: Tm)
    requires EntriesWellFormed(ts) && MinuteFieldsInLimits(t) && t.yr >= ts.epochYr
    ensures MinuteStagesFromYearOne(t) && MinuteNumber(t) >= MinuteNumber(Epoch(ts))
  {
    ForwardDaysAfterYearOne(t.yr, t.mon, t.day, 0);
    EpochYearByMinuteNumber(ts, t);
  }

  /**
   * `adjust` of second 60 of a real minute without a leap second, from the
   * epoch year on, is second 0 of `next`, the minute after it.
   */
  method AdjustSixty(ts: TimeSystem, t: Tm, next: Tm) returns (r: Tm)
    requires WellFormed(ts) && t.yr >= ts.epochYr && MinuteFieldsInLimits(t)
    requires NumSecondsOfMinute(ts, t) == TypicalSecondsPerMinute
    requires t.sec == 60 && t.fracSec == StartFracSec
    requires MinuteFieldsInLimits(next) && MinuteNumber(next) == MinuteNumber(t) + 1
    requires next.sec == StartSec && next.fracSec == StartFracSec
    ensures r == next
  {
    RealMinuteFromEpoch(ts, t);
    SixtyIsNextMinute(ts, t, next);
    r := AdjustToPosition(ts, t, next);
  }

  /**
   * In a minute that holds a tabulated leap second, second 61 is second 0 of
   * `next`, the minute after it: its second 60 is the leap second itself.
   */
  method AdjustSixtyOne(ts: TimeSystem, t: Tm, next: Tm) returns (r: Tm)
    requires WellFormed(ts) && t.yr >= ts.epochYr && MinuteFieldsInLimits(t)
    requires IsLeapMinute(ts, t)
    requires t.sec == 61 && t.fracSec == StartFracSec
    requires MinuteFieldsInLimits(next) && MinuteNumber(next) == MinuteNumber(t) + 1
    requires next.sec == StartSec && next.fracSec == StartFracSec
    ensures r == next
  {
    RealMinuteFromEpoch(ts, t);
    MinuteLength(ts, t);
    r := AdjustToPosition(ts, t, next);
  }

  /**
   * Around the leap second of 2016-12-31, when it is tabulated: 23:59:60 is a
   * valid second and `adjust` leaves it alone, while 23:59:61 rolls over into
   * 00:00:00 of 2017-01-01.
   */
  method AdjustAcrossLeapSecond(ts: TimeSystem) returns (atSixty: Tm, pastIt: Tm)
    requires WellFormed(ts) && ts.epochYr <= 2016
    requires IsLeapMinute(ts, Tm(2016, 12, 31, 23, 59, 60, 0.0))
    ensures atSixty == Tm(2016, 12, 31, 23, 59, 60, 0.0)
    ensures pastIt == Tm(2017, 1, 1, 0, 0, 0, 0.0)
  {
    var s := new SmartTm(2016, 12, 31, 23, 59, 60, 0.0);
    s.Adjust(ts);
    atSixty := s.Value();
    var t := Tm(2016, 12, 31, 23, 59, 61, 0.0);
    NumSecondsSameMinute(ts, t, atSixty);
    NewYearIsNextMinute(2016);
    pastIt := AdjustSixtyOne(ts, t, Tm(2017, 1, 1, 0, 0, 0, 0.0));
  }

  /** Adding one second to 02:02:59 gives 02:02:60, which `adjust` rolls over into 02:03:00. */
  method AdjustIntoNextMinute(ts: TimeSystem, y: int, m: int, d: int) returns (r: Tm)
    requires WellFormed(ts) && y >= ts.epochYr && ValidDate(y, m, d)
    requires !IsLeapMinute(ts, Tm(y, m, d, 2, 2, 59, 0.0))
    ensures r == Tm(y, m, d, 2, 3, 0, 0.0)
  {
    var t := Tm(y, m, d, 2, 2, 59, 0.0);
    var next := Tm(y, m, d, 2, 3, 0, 0.0);
    NumSecondsSameMinute(ts, t, t.(sec := t.sec + 1));
    MinuteNumberShift(t, next);
    r := AdjustSixty(ts, t.(sec := t.sec + 1), next);
  }

  /** 2013-12-31 23:59:60, when no leap second is tabulated there, becomes 2014-01-01 00:00:00. */
  method AdjustIntoNextYear(ts: TimeSystem) returns (r: Tm)
    requires WellFormed(ts) && ts.epochYr <= 2013 && !IsLeapMinute(ts, Tm(2013, 12, 31, 23, 59, 60, 0.0))
    ensures r == Tm(2014, 1, 1, 0, 0, 0, 0.0)
  {
    NewYearIsNextMinute(2013);
    r := AdjustSixty(ts, Tm(2013, 12, 31, 23, 59, 60, 0.0), Tm(2014, 1, 1, 0, 0, 0, 0.0));
  }

  /** Midnight of January 1 is the minute after 23:59 of the previous December 31. */
  lemma NewYearIsNextMinute(y: int)
    ensures MinuteNumber(Tm(y + 1, 1, 1, 0, 0, 0, 0.0)) == MinuteNumber(Tm(y, 12, 31, 23, 59, 60, 0.0)) + 1
  {
    ThirteenthMonth(y, 1);
    CumDaysTable();
  }

  /** February 29 of a common year, 2019, is carried into March: `adjust` gives 2019-03-01. */
  method AdjustLeapDayOfCommonYear(ts: TimeSystem) returns (r: Tm)
    requires WellFormed(ts) && ts.epochYr <= 2019
    ensures r == Tm(2019, 3, 1, 0, 0, 0, 0.0)
  {
    var t := Tm(2019, 2, 29, 0, 0, 0, 0.0);
    var target := Tm(2019, 3, 1, 0, 0, 0, 0.0);
    CumDaysTable();
    assert MinuteNumber(t) == MinuteNumber(target);
    RealMinuteFromEpoch(ts, target);
    ForwardDaysAfterYearOne(2019, 2, 28, 1);
    r := AdjustToPosition(ts, t, target);
  }

  /**
   * 2012-03-05 14:30 with 200 in the second field is 14:33:20, when none of the
   * minutes 14:30 to 14:32 holds a tabulated leap second.
   */
  method AdjustTwoHundredSeconds(ts: TimeSystem) returns (r: Tm)
    requires WellFormed(ts) && ts.epochYr <= 2012
    requires !IsLeapMinute(ts, Tm(2012, 3, 5, 14, 30, 0, 0.0))
    requires !IsLeapMinute(ts, Tm(2012, 3, 5, 14, 31, 0, 0.0))
    requires !IsLeapMinute(ts, Tm(2012, 3, 5, 14, 32, 0, 0.0))
    ensures r == Tm(2012, 3, 5, 14, 33, 20, 0.0)
  {
    var t := Tm(2012, 3, 5, 14, 30, 200, 0.0);
    RealMinuteFromEpoch(ts, t);
    ThreeTypicalMinutes(ts, Tm(2012, 3, 5, 14, 30, 0, 0.0), Tm(2012, 3, 5, 14, 31, 0, 0.0), Tm(2012, 3, 5, 14, 32, 0, 0.0));
    r := AdjustToPosition(ts, t, Tm(2012, 3, 5, 14, 33, 20, 0.0));
  }

  /**
   * One second taken off 2012-03-05 14:30:00 leaves -1 in the second field,
   * which `adjust` brings back to 14:29:59 when that minute holds no tabulated
   * leap second.
   */
  method AdjustBackOneSecond(ts: TimeSystem) returns (r: Tm)
    requires WellFormed(ts) && ts.epochYr <= 2012
    requires !IsLeapMinute(ts, Tm(2012, 3, 5, 14, 29, 0, 0.0))
    ensures r == Tm(2012, 3, 5, 14, 29, 59, 0.0)
  {
    BackOneSecondInDomain(ts);
    var s := new SmartTm(2012, 3, 5, 14, 30, -1, 0.0);
    s.Adjust(ts);
    r := s.Value();
    ElapsedInjective(ts, r, Tm(2012, 3, 5, 14, 29, 59, 0.0));
  }

  /** 14:30 with -1 in the second field is inside the domain of `adjust`, at the position of 14:29:59. */
  lemma BackOneSecondInDomain(ts: TimeSystem)
    requires WellFormed(ts) && ts.epochYr <= 2012
    requires !IsLeapMinute(ts, Tm(2012, 3, 5, 14, 29, 0, 0.0))
    ensures AdjustFromEpoch(ts, Tm(2012, 3, 5, 14, 30, -1, 0.0))
    ensures Elapsed(ts, Tm(2012, 3, 5, 14, 30, -1, 0.0)) == Elapsed(ts, Tm(2012, 3, 5, 14, 29, 59, 0.0))
  {
    var t := Tm(2012, 3, 5, 14, 30, -1, 0.0);
    var before := Tm(2012, 3, 5, 14, 29, 0, 0.0);
    RealMinuteFromEpoch(ts, before);
    assert MinuteNumber(t) == MinuteNumber(before) + 1;
    MinuteLength(ts, before);
    ForwardDaysAfterYearOne(2012, 3, 5, 0);
    assert SecondCarryFromEpoch(ts, t, t.sec);
  }

  /** One hour taken off 2012-03-05 00:00 leaves -1 in the hour field, which `adjust` brings back to 23:00 of March 4. */
  method AdjustBackOneHour(ts: TimeSystem) returns (r: Tm)
    requires WellFormed(ts) && ts.epochYr <= 2012
    ensures r == Tm(2012, 3, 4, 23, 0, 0, 0.0)
  {
    var t := Tm(2012, 3, 5, -1, 0, 0, 0.0);
    var target := Tm(2012, 3, 4, 23, 0, 0, 0.0);
    RealMinuteFromEpoch(ts, target);
    ForwardDaysAfterYearOne(2012, 3, 4, 0);
    assert MinuteNumber(t) == MinuteNumber(target);
    r := AdjustToPosition(ts, t, target);
  }

  /** Three consecutive minutes without a leap second take 180 seconds of the line. */
  lemma ThreeTypicalMinutes(ts: TimeSystem, a: Tm, b: Tm, c: Tm)
    requires WellFormed(ts) && MinuteFieldsInLimits(a) && MinuteFieldsInLimits(b) && MinuteFieldsInLimits(c)
    requires MinuteNumber(b) == MinuteNumber(a) + 1 && MinuteNumber(c) == MinuteNumber(b) + 1
    requires !IsLeapMinute(ts, a) && !IsLeapMinute(ts, b) && !IsLeapMinute(ts, c)
    ensures MinuteStart(ts, MinuteNumber(a) + 3) == MinuteStart(ts, MinuteNumber(a)) + 3 * TypicalSecondsPerMinute
  {
    MinuteLength(ts, a);
    MinuteLength(ts, b);
    MinuteLength(ts, c);
  }

  // ---------------------------------------------------------------------------
  // `operator-`.

  /** Swapping the operands of the difference negates it. */
  method DifferenceAntisymmetric(ts: TimeSystem, lhs: SmartTm, rhs: SmartTm) returns (there: real, back: real)
    requires lhs.mon <= EndMon + 1 && rhs.mon <= EndMon + 1
    ensures there == -back
  {
    there := Difference(ts, lhs, rhs);
    back := Difference(ts, rhs, lhs);
  }

  /** On valid instants the difference is negative exactly when the left one comes first. */
  method DifferenceOrders(ts: TimeSystem, lhs: SmartTm, rhs: SmartTm) returns (d: real)
    requires WellFormed(ts) && IsValid(ts, lhs.Value()) && IsValid(ts, rhs.Value())
    ensures d < 0.0 <==> Less(lhs.Value(), rhs.Value())
  {
    d := Difference(ts, lhs, rhs);
    DifferenceSign(ts, lhs.Value(), rhs.Value());
  }

  /** The integer and fractional parts of the difference order as `operator<` does. */
  lemma DifferenceSign(ts: TimeSystem, a: Tm, b: Tm)
    requires WellFormed(ts) && IsValid(ts, a) && IsValid(ts, b)
    ensures (EpochSeconds(ts, a) - EpochSeconds(ts, b)) as real + (a.fracSec - b.fracSec) < 0.0
            <==> Less(a, b)
  {
    if EqualsNoFrac(a, b) {
      EpochSecondsAgree(ts, a, b);
    } else {
      LessTrichotomy(a, b);
      if Less(a, b) {
        EpochSecondsStrictlyMonotone(ts, a, b);
      } else {
        EpochSecondsStrictlyMonotone(ts, b, a);
        LessAntisymmetricCase(a, b);
      }
    }
  }

  /** Valid instants equal second for second convert to the same count. */
  lemma EpochSecondsAgree(ts: TimeSystem, a: Tm, b: Tm)
    requires WellFormed(ts) && IsValid(ts, a) && IsValid(ts, b) && EqualsNoFrac(a, b)
    ensures EpochSeconds(ts, a) == EpochSeconds(ts, b)
  {
    EpochSecondsIsElapsed(ts, a);
    EpochSecondsIsElapsed(ts, b);
    ElapsedMovesWithSecond(ts, a, b);
  }

  /** When `b` comes first and they differ in a field above the fraction, `a` does not come first. */
  lemma LessAntisymmetricCase(a: Tm, b: Tm)
    requires Less(b, a)
    ensures !Less(a, b)
  {
    if Less(a, b) {
      LessTransitive(a, b, a);
      LessIrreflexive(a);
    }
  }
}
