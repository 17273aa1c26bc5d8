/**
 * The leap-inclusive seconds counter. `EpochSeconds` is the value the epoch
 * conversion computes; `Elapsed` is an independent reading of the same count as
 * a position on a line of minutes, each 60 seconds long or 61 when it holds a
 * tabulated leap second. On a consistent table the two agree, and the counter
 * is strictly increasing along the calendar order.
 */
module EpochCount {
  import opened Units
  import opened Calendar
  import opened LeapCounts
  import opened DayNumbers

  /**
   * What `toEpoch` returns: the common-year month sum, then the year, day, hour
   * and minute terms, the leap days between the epoch and the instant, the leap
   * seconds the instant has passed, and the second.
   */
  function EpochSeconds(ts: TimeSystem, t: Tm): int {
    CumDays(t.mon - 1) * SecondsPerDay
    + (t.yr - ts.epochYr) * SecondsPerYear
    + (t.day - StartDay) * SecondsPerDay
    + (t.hr - StartHr) * SecondsPerHour
    + (t.min - StartMin) * TypicalSecondsPerMinute
    + LeapDaysWalkedThroughFrom(Epoch(ts), t) * SecondsPerDay
    + LeapSecondsWalkedThroughSinceEpoch(ts, t)
    + t.sec - StartSec
  }

  /** A table entry as `init` means it: at or after the epoch year, a real minute, second 60. */
  ghost predicate LeapEntry(ts: TimeSystem, e: Tm) {
    e.yr >= ts.epochYr && MinuteFieldsInLimits(e) && e.sec == 60
  }

  ghost predicate EntriesWellFormed(ts: TimeSystem) {
    ts.epochYr >= 1
    && forall i :: 0 <= i < |ts.leapSecondTms| ==> LeapEntry(ts, ts.leapSecondTms[i])
  }

  /**
   * A consistent leap-second table: well-formed entries in distinct minutes, one
   * delta per entry, each delta the entry's own epoch offset.
   */
  ghost predicate WellFormed(ts: TimeSystem) {
    EntriesWellFormed(ts)
    && |ts.leapSecondTms| == |ts.leapSecondDeltas|
    && (forall i, j :: 0 <= i < j < |ts.leapSecondTms| ==> !SameMinute(ts.leapSecondTms[i], ts.leapSecondTms[j]))
    && (forall i {:trigger ts.leapSecondDeltas[i]} :: 0 <= i < |ts.leapSecondTms| ==>
          ts.leapSecondDeltas[i] == EpochSeconds(ts, ts.leapSecondTms[i]))
  }

  /** Table entries whose minute comes before minute number `k`. */
  ghost function CountBelow(tms: seq<Tm>, k: int): (n: nat)
    ensures n <= |tms|
    decreases |tms|
  {
    if |tms| == 0 then 0
    else CountBelow(tms[..|tms| - 1], k) + (if MinuteNumber(tms[|tms| - 1]) < k then 1 else 0)
  }

  /** Table entries in minute number `k`. */
  ghost function CountAt(tms: seq<Tm>, k: int): (n: nat)
    ensures n <= |tms|
    decreases |tms|
  {
    if |tms| == 0 then 0
    else CountAt(tms[..|tms| - 1], k) + (if MinuteNumber(tms[|tms| - 1]) == k then 1 else 0)
  }

  /** Seconds from the epoch to the start of minute number `k`. */
  ghost function MinuteStart(ts: TimeSystem, k: int): int {
    TypicalSecondsPerMinute * (k - MinuteNumber(Epoch(ts))) + CountBelow(ts.leapSecondTms, k)
  }

  /** Seconds from the epoch to `t`, read off the line of minutes. */
  ghost function Elapsed(ts: TimeSystem, t: Tm): int {
    MinuteStart(ts, MinuteNumber(t)) + t.sec
  }

  /** The first minute of year 1. */
  const YearOneStart: Tm := Tm(1, 1, 1, 0, 0, 0, 0.0)

  // ---------------------------------------------------------------------------
  // Minute numbers and the calendar order.

  lemma MinuteNumberOfDate(t: Tm)
    requires MinuteFieldsInLimits(t)
    ensures ValidDate(t.yr, t.mon, t.day)
    ensures 1440 * DayNumber(t.yr, t.mon, t.day) <= MinuteNumber(t) < 1440 * DayNumber(t.yr, t.mon, t.day) + 1440
  {
  }

  /** On real minutes the minute number orders as the calendar does, and equal numbers mean the same minute. */
  lemma MinuteNumberOrder(a: Tm, b: Tm)
    requires MinuteFieldsInLimits(a) && MinuteFieldsInLimits(b)
    ensures MinuteLess(a, b) <==> MinuteNumber(a) < MinuteNumber(b)
    ensures SameMinute(a, b) <==> MinuteNumber(a) == MinuteNumber(b)
  {
    MinuteNumberOfDate(a);
    MinuteNumberOfDate(b);
    if DateLess(a.yr, a.mon, a.day, b.yr, b.mon, b.day) {
      DayNumberStrictlyMonotone(a.yr, a.mon, a.day, b.yr, b.mon, b.day);
    } else if DateLess(b.yr, b.mon, b.day, a.yr, a.mon, a.day) {
      DayNumberStrictlyMonotone(b.yr, b.mon, b.day, a.yr, a.mon, a.day);
    }
  }

  /** A real minute is in year 1 or later exactly when it is not before the first minute of year 1. */
  lemma YearOneByMinuteNumber(t: Tm)
    requires MinuteFieldsInLimits(t)
    ensures t.yr >= 1 <==> MinuteNumber(t) >= MinuteNumber(YearOneStart)
  {
    MinuteNumberOfDate(t);
    DayNumberInYear(t.yr, t.mon, t.day);
    if t.yr >= 1 {
      YearStartsGrow(1, t.yr);
    } else {
      YearStartsGrow(t.yr + 1, 1);
    }
  }

  /** Carrying whole minutes forward from a real minute of year 1 or later stays after year one. */
  lemma ForwardCarryAfterYearOne(t: Tm, c: int)
    requires MinuteFieldsInLimits(t) && t.yr >= 1 && c >= 0
    ensures AfterYearOne(t.yr, t.mon, t.day + (t.hr + (t.min + c) / MinutesPerHour) / HoursPerDay)
  {
    CumDaysBounds(t.mon - 1);
  }

  /** Stepping one minute back from a real minute later than the first of year 1 stays after year one. */
  lemma BackwardCarryAfterYearOne(t: Tm)
    requires MinuteFieldsInLimits(t) && MinuteNumber(t) > MinuteNumber(YearOneStart)
    ensures AfterYearOne(t.yr, t.mon, t.day + (t.hr + (t.min - 1) / MinutesPerHour) / HoursPerDay)
  {
    YearOneByMinuteNumber(t);
    CumDaysBounds(t.mon - 1);
  }

  /** A real minute is in the epoch year or later exactly when it is not before the epoch minute. */
  lemma EpochYearByMinuteNumber(ts: TimeSystem, t: Tm)
    requires MinuteFieldsInLimits(t)
    ensures t.yr >= ts.epochYr <==> MinuteNumber(t) >= MinuteNumber(Epoch(ts))
  {
    MinuteNumberOfDate(t);
    DayNumberInYear(t.yr, t.mon, t.day);
    if t.yr >= ts.epochYr {
      YearStartsGrow(ts.epochYr, t.yr);
    } else {
      YearStartsGrow(t.yr + 1, ts.epochYr);
    }
  }

  /** The epoch minute is not before the first minute of year 1. */
  lemma EpochMinuteAfterYearOne(ts: TimeSystem)
    requires EntriesWellFormed(ts)
    ensures MinuteNumber(Epoch(ts)) >= MinuteNumber(YearOneStart)
  {
    YearOneByMinuteNumber(Epoch(ts));
  }

  /**
   * Carrying second `s` out of the minute of `t` stays inside the domain of the
   * original's second normaliser: neither the minute nor the minute the typical
   * carry lands in is before the epoch minute, so the unsigned conversions it
   * compares do not wrap, and the day handed to the day normaliser is after
   * year one.
   */
  ghost predicate SecondCarryFromEpoch(ts: TimeSystem, t: Tm, s: int) {
    MinuteNumber(t) >= MinuteNumber(Epoch(ts))
    && TypicalSecondsPerMinute * (MinuteNumber(t) - MinuteNumber(Epoch(ts))) + s >= 0
    && AfterYearOne(t.yr, t.mon, t.day + (t.hr + (t.min + s / TypicalSecondsPerMinute) / MinutesPerHour) / HoursPerDay)
  }

  /** Inside that domain the minute is from year 1 on, and so is the minute the carry lands in. */
  lemma CarryFromEpochYearOne(ts: TimeSystem, t: Tm, s: int)
    requires EntriesWellFormed(ts) && MinuteFieldsInLimits(t) && SecondCarryFromEpoch(ts, t, s)
    ensures t.yr >= 1
    ensures MinuteNumber(t) + s / TypicalSecondsPerMinute >= MinuteNumber(Epoch(ts))
  {
    EpochMinuteAfterYearOne(ts);
    YearOneByMinuteNumber(t);
  }

  /** Any non-negative second of a real minute not before the epoch minute is in the domain. */
  lemma ForwardCarryFromEpoch(ts: TimeSystem, t: Tm, s: int)
    requires EntriesWellFormed(ts) && MinuteFieldsInLimits(t) && s >= 0
    requires MinuteNumber(t) >= MinuteNumber(Epoch(ts))
    ensures SecondCarryFromEpoch(ts, t, s)
  {
    EpochMinuteAfterYearOne(ts);
    YearOneByMinuteNumber(t);
    ForwardCarryAfterYearOne(t, s / TypicalSecondsPerMinute);
  }

  // ---------------------------------------------------------------------------
  // Counting table entries.

  lemma {:induction false} CountBelowMonotone(tms: seq<Tm>, a: int, b: int)
    requires a <= b
    ensures CountBelow(tms, a) <= CountBelow(tms, b)
    decreases |tms|
  {
    if |tms| > 0 {
      CountBelowMonotone(tms[..|tms| - 1], a, b);
    }
  }

  lemma {:induction false} CountBelowStep(tms: seq<Tm>, k: int)
    ensures CountBelow(tms, k + 1) == CountBelow(tms, k) + CountAt(tms, k)
    decreases |tms|
  {
    if |tms| > 0 {
      CountBelowStep(tms[..|tms| - 1], k);
    }
  }

  lemma {:induction false} CountAtNone(tms: seq<Tm>, k: int)
    requires forall i :: 0 <= i < |tms| ==> MinuteNumber(tms[i]) != k
    ensures CountAt(tms, k) == 0
    decreases |tms|
  {
    if |tms| > 0 {
      var front := tms[..|tms| - 1];
      assert forall i :: 0 <= i < |front| ==> front[i] == tms[i];
      CountAtNone(front, k);
    }
  }

  lemma {:induction false} CountAtOne(tms: seq<Tm>, k: int, j: int)
    requires 0 <= j < |tms| && MinuteNumber(tms[j]) == k
    requires forall i :: 0 <= i < |tms| && i != j ==> MinuteNumber(tms[i]) != k
    ensures CountAt(tms, k) == 1
    decreases |tms|
  {
    var n := |tms| - 1;
    var front := tms[..n];
    assert forall i :: 0 <= i < |front| ==> front[i] == tms[i];
    if j == n {
      CountAtNone(front, k);
    } else {
      CountAtOne(front, k, j);
    }
  }

  /** On a well-formed table, a real minute holds one entry if it is a leap minute and none otherwise. */
  lemma CountAtLeapMinute(ts: TimeSystem, t: Tm)
    requires WellFormed(ts) && MinuteFieldsInLimits(t)
    ensures CountAt(ts.leapSecondTms, MinuteNumber(t)) == NumSecondsOfMinute(ts, t) - TypicalSecondsPerMinute
  {
    var tms := ts.leapSecondTms;
    var k := MinuteNumber(t);
    forall i | 0 <= i < |tms|
      ensures SameMinute(t, tms[i]) <==> MinuteNumber(tms[i]) == k
    {
      MinuteNumberOrder(t, tms[i]);
    }
    if j :| 0 <= j < |tms| && SameMinute(t, tms[j]) {
      forall i | 0 <= i < |tms| && i != j
        ensures MinuteNumber(tms[i]) != k
      {
        MinuteNumberOrder(tms[i], tms[j]);
      }
      CountAtOne(tms, k, j);
    } else {
      CountAtNone(tms, k);
    }
  }

  /** Each minute of the line is as long as the original says the minute is. */
  lemma MinuteLength(ts: TimeSystem, t: Tm)
    requires WellFormed(ts) && MinuteFieldsInLimits(t)
    ensures MinuteStart(ts, MinuteNumber(t) + 1) == MinuteStart(ts, MinuteNumber(t)) + NumSecondsOfMinute(ts, t)
  {
    CountBelowStep(ts.leapSecondTms, MinuteNumber(t));
    CountAtLeapMinute(ts, t);
  }

  /** Minutes last at least 60 seconds, so minute starts grow at least that fast. */
  lemma MinuteStartGrows(ts: TimeSystem, a: int, b: int)
    requires a <= b
    ensures MinuteStart(ts, a) + TypicalSecondsPerMinute * (b - a) <= MinuteStart(ts, b)
  {
    CountBelowMonotone(ts.leapSecondTms, a, b);
  }

  // ---------------------------------------------------------------------------
  // The conversion against the line of minutes.

  /** Within a minute of second at most 60, a table entry has been passed exactly when its minute is earlier. */
  lemma PassedIsEarlierMinute(t: Tm, e: Tm)
    requires MinuteFieldsInLimits(t) && MinuteFieldsInLimits(e)
    requires e.sec == 60 && t.sec <= 60
    ensures Passed(t, e) <==> MinuteNumber(e) < MinuteNumber(t)
  {
    LessByMinute(e, t);
    MinuteNumberOrder(e, t);
  }

  lemma {:induction false} CountPassedIsCountBelow(tms: seq<Tm>, t: Tm, k: int)
    requires forall i :: 0 <= i < |tms| ==> (Passed(t, tms[i]) <==> MinuteNumber(tms[i]) < k)
    ensures CountPassed(tms, t) == CountBelow(tms, k)
    decreases |tms|
  {
    if |tms| > 0 {
      var front := tms[..|tms| - 1];
      assert forall i :: 0 <= i < |front| ==> front[i] == tms[i];
      CountPassedIsCountBelow(front, t, k);
    }
  }

  /** The leap seconds an instant has passed are the entries in earlier minutes. */
  lemma PassedEntriesAreEarlier(ts: TimeSystem, t: Tm)
    requires EntriesWellFormed(ts) && MinuteFieldsInLimits(t) && t.sec <= 60
    ensures LeapSecondsWalkedThroughSinceEpoch(ts, t) == CountBelow(ts.leapSecondTms, MinuteNumber(t))
  {
    var tms := ts.leapSecondTms;
    forall i | 0 <= i < |tms|
      ensures Passed(t, tms[i]) <==> MinuteNumber(tms[i]) < MinuteNumber(t)
    {
      PassedIsEarlierMinute(t, tms[i]);
    }
    CountPassedIsCountBelow(tms, t, MinuteNumber(t));
  }

  /** Without the leap seconds, the conversion counts whole Gregorian days, hours and minutes. */
  lemma FlatPartIsDays(ts: TimeSystem, t: Tm)
    requires ts.epochYr >= 1 && t.yr >= 1 && MinuteFieldsInLimits(t)
    ensures EpochSeconds(ts, t) - LeapSecondsWalkedThroughSinceEpoch(ts, t) - t.sec
      == TypicalSecondsPerMinute * (MinuteNumber(t) - MinuteNumber(Epoch(ts)))
  {
    LeapDaysWalkedThroughFromCountsCrossed(Epoch(ts), t);
  }

  /**
   * On a table of well-formed entries, the conversion of a real minute from year
   * 1 on, at a second up to 60, is the position of the instant on the line of
   * minutes.
   */
  lemma EpochSecondsIsElapsed(ts: TimeSystem, t: Tm)
    requires EntriesWellFormed(ts) && t.yr >= 1 && MinuteFieldsInLimits(t) && t.sec <= 60
    ensures EpochSeconds(ts, t) == Elapsed(ts, t)
  {
    FlatPartIsDays(ts, t);
    PassedEntriesAreEarlier(ts, t);
  }

  /** The epoch itself is second 0 when no entry precedes it. */
  lemma {:induction false} NothingBeforeEpoch(ts: TimeSystem)
    requires EntriesWellFormed(ts)
    ensures CountBelow(ts.leapSecondTms, MinuteNumber(Epoch(ts))) == 0
  {
    var tms := ts.leapSecondTms;
    var e := Epoch(ts);
    forall i | 0 <= i < |tms|
      ensures Passed(e, tms[i]) <==> MinuteNumber(tms[i]) < MinuteNumber(e)
    {
      PassedIsEarlierMinute(e, tms[i]);
    }
    CountPassedIsCountBelow(tms, e, MinuteNumber(e));
    CountPassedNone(tms, e);
  }

  lemma {:induction false} CountPassedNone(tms: seq<Tm>, t: Tm)
    requires forall i :: 0 <= i < |tms| ==> !Passed(t, tms[i])
    ensures CountPassed(tms, t) == 0
    decreases |tms|
  {
    if |tms| > 0 {
      var front := tms[..|tms| - 1];
      assert forall i :: 0 <= i < |front| ==> front[i] == tms[i];
      CountPassedNone(front, t);
    }
  }

  /** The conversion of the epoch instant is 0 when no table entry lies before it. */
  lemma EpochIsZero(ts: TimeSystem)
    requires ts.epochYr >= 1
    requires forall i :: 0 <= i < |ts.leapSecondTms| ==> !Less(ts.leapSecondTms[i], Epoch(ts))
    ensures EpochSeconds(ts, Epoch(ts)) == 0
  {
    var tms := ts.leapSecondTms;
    forall i | 0 <= i < |tms|
      ensures !Passed(Epoch(ts), tms[i])
    {
    }
    CountPassedNone(tms, Epoch(ts));
    FlatPartIsDays(ts, Epoch(ts));
  }

  lemma ElapsedOfEpoch(ts: TimeSystem)
    requires EntriesWellFormed(ts)
    ensures Elapsed(ts, Epoch(ts)) == 0
  {
    NothingBeforeEpoch(ts);
  }

  /** Second `n` of the epoch's first minute is position `n` on the counter. */
  lemma ElapsedFromEpoch(ts: TimeSystem, t: Tm, n: int)
    requires EntriesWellFormed(ts) && SameMinute(t, Epoch(ts)) && t.sec == StartSec + n
    ensures Elapsed(ts, t) == n
  {
    ElapsedOfEpoch(ts);
    ElapsedMovesWithSecond(ts, Epoch(ts), t);
  }

  /** Instants at or after the epoch year are at or after second 0. */
  lemma ElapsedNonNegative(ts: TimeSystem, t: Tm)
    requires EntriesWellFormed(ts) && MinuteFieldsInLimits(t) && t.yr >= ts.epochYr && t.sec >= 0
    ensures Elapsed(ts, t) >= 0
  {
    var e := Epoch(ts);
    MinuteNumberOfDate(t);
    DayNumberInYear(t.yr, t.mon, t.day);
    YearStartsGrow(ts.epochYr, t.yr);
    MinuteStartGrows(ts, MinuteNumber(e), MinuteNumber(t));
    NothingBeforeEpoch(ts);
  }

  // ---------------------------------------------------------------------------
  // The counter is injective and monotone on valid instants.

  /** A valid second lies inside its minute on the line. */
  lemma InsideMinute(ts: TimeSystem, t: Tm)
    requires WellFormed(ts) && MinuteFieldsInLimits(t) && SecInLimits(ts, t)
    ensures MinuteStart(ts, MinuteNumber(t)) <= Elapsed(ts, t) < MinuteStart(ts, MinuteNumber(t) + 1)
  {
    MinuteLength(ts, t);
  }

  /** Different valid instants have different positions, ordered as the calendar orders them. */
  lemma ElapsedStrictlyMonotone(ts: TimeSystem, a: Tm, b: Tm)
    requires WellFormed(ts)
    requires MinuteFieldsInLimits(a) && SecInLimits(ts, a) && MinuteFieldsInLimits(b) && SecInLimits(ts, b)
    requires Less(a, b) && !EqualsNoFrac(a, b)
    ensures Elapsed(ts, a) < Elapsed(ts, b)
  {
    LessByMinute(a, b);
    if MinuteLess(a, b) {
      MinuteNumberOrder(a, b);
      EarlierMinuteEarlierPosition(ts, a, b);
    } else {
      ElapsedMovesWithSecond(ts, a, b);
    }
  }

  lemma EarlierMinuteEarlierPosition(ts: TimeSystem, a: Tm, b: Tm)
    requires WellFormed(ts)
    requires MinuteFieldsInLimits(a) && SecInLimits(ts, a) && MinuteFieldsInLimits(b) && SecInLimits(ts, b)
    requires MinuteNumber(a) < MinuteNumber(b)
    ensures Elapsed(ts, a) < Elapsed(ts, b)
  {
    InsideMinute(ts, a);
    InsideMinute(ts, b);
    MinuteStartGrows(ts, MinuteNumber(a) + 1, MinuteNumber(b));
  }

  lemma ElapsedInjective(ts: TimeSystem, a: Tm, b: Tm)
    requires WellFormed(ts)
    requires MinuteFieldsInLimits(a) && SecInLimits(ts, a) && MinuteFieldsInLimits(b) && SecInLimits(ts, b)
    requires Elapsed(ts, a) == Elapsed(ts, b)
    ensures EqualsNoFrac(a, b)
  {
    if !EqualsNoFrac(a, b) {
      LessTrichotomy(a, b);
      if Less(a, b) {
        ElapsedStrictlyMonotone(ts, a, b);
      } else {
        ElapsedStrictlyMonotone(ts, b, a);
      }
    }
  }

  /**
   * The conversion is strictly increasing on valid instants from year 1 on: the
   * leap-inclusive counter of the original is monotone.
   */
  lemma EpochSecondsStrictlyMonotone(ts: TimeSystem, a: Tm, b: Tm)
    requires WellFormed(ts) && a.yr >= 1 && b.yr >= 1
    requires MinuteFieldsInLimits(a) && SecInLimits(ts, a) && MinuteFieldsInLimits(b) && SecInLimits(ts, b)
    requires Less(a, b) && !EqualsNoFrac(a, b)
    ensures EpochSeconds(ts, a) < EpochSeconds(ts, b)
  {
    EpochSecondsIsElapsed(ts, a);
    EpochSecondsIsElapsed(ts, b);
    ElapsedStrictlyMonotone(ts, a, b);
  }

  // ---------------------------------------------------------------------------
  // The leap-second correction of the second normaliser.

  lemma {:induction false} CountWithinIsCountBetween(ds: seq<int>, tms: seq<Tm>, lo: int, hi: int, k0: int, k1: int)
    requires |ds| == |tms| && k0 <= k1
    requires forall i :: 0 <= i < |ds| ==> (lo <= ds[i] <= hi <==> k0 <= MinuteNumber(tms[i]) < k1)
    ensures CountWithin(ds, lo, hi) == CountBelow(tms, k1) - CountBelow(tms, k0)
    decreases |ds|
  {
    if |ds| > 0 {
      var n := |ds| - 1;
      assert forall i :: 0 <= i < n ==> ds[..n][i] == ds[i] && tms[..n][i] == tms[i];
      CountWithinIsCountBetween(ds[..n], tms[..n], lo, hi, k0, k1);
    }
  }

  /** A tabulated delta is the last second of its leap minute. */
  lemma DeltaIsLastSecond(ts: TimeSystem, i: int)
    requires WellFormed(ts) && 0 <= i < |ts.leapSecondTms|
    ensures ts.leapSecondDeltas[i] + 1 == MinuteStart(ts, MinuteNumber(ts.leapSecondTms[i]) + 1)
    ensures ts.leapSecondDeltas[i] == MinuteStart(ts, MinuteNumber(ts.leapSecondTms[i])) + 60
  {
    DeltaIsSecondSixty(ts, i);
    LeapMinuteLength(ts, i);
  }

  lemma DeltaIsSecondSixty(ts: TimeSystem, i: int)
    requires WellFormed(ts) && 0 <= i < |ts.leapSecondTms|
    ensures ts.leapSecondDeltas[i] == MinuteStart(ts, MinuteNumber(ts.leapSecondTms[i])) + 60
  {
    var e, d := ts.leapSecondTms[i], ts.leapSecondDeltas[i];
    assert LeapEntry(ts, e);
    EpochOnTheLine(ts, e, d);
  }

  /** A tabulated minute is 61 seconds long on the line. */
  lemma LeapMinuteLength(ts: TimeSystem, i: int)
    requires WellFormed(ts) && 0 <= i < |ts.leapSecondTms|
    ensures MinuteStart(ts, MinuteNumber(ts.leapSecondTms[i]) + 1)
      == MinuteStart(ts, MinuteNumber(ts.leapSecondTms[i])) + 61
  {
    var e := ts.leapSecondTms[i];
    assert LeapEntry(ts, e);
    MinuteLength(ts, e);
    assert NumSecondsOfMinute(ts, e) == 61 by {
      assert SameMinute(e, ts.leapSecondTms[i]);
    }
  }

  /** From year one on, within a real minute, the conversion reads the position off the line. */
  lemma EpochOnTheLine(ts: TimeSystem, t: Tm, n: int)
    requires EntriesWellFormed(ts) && t.yr >= 1 && MinuteFieldsInLimits(t) && t.sec <= 60
    requires n == EpochSeconds(ts, t)
    ensures n == MinuteStart(ts, MinuteNumber(t)) + t.sec
  {
    EpochSecondsIsElapsed(ts, t);
  }

  /** Every delta is the last second of its entry's minute, one delta per entry. */
  ghost predicate DeltasAreLastSeconds(ts: TimeSystem) {
    |ts.leapSecondDeltas| == |ts.leapSecondTms|
    && forall i :: 0 <= i < |ts.leapSecondTms| ==>
         ts.leapSecondDeltas[i] == MinuteStart(ts, MinuteNumber(ts.leapSecondTms[i])) + 60
         && ts.leapSecondDeltas[i] + 1 == MinuteStart(ts, MinuteNumber(ts.leapSecondTms[i]) + 1)
  }

  lemma WellFormedDeltas(ts: TimeSystem)
    requires WellFormed(ts)
    ensures DeltasAreLastSeconds(ts)
  {
    forall i | 0 <= i < |ts.leapSecondTms|
      ensures ts.leapSecondDeltas[i] == MinuteStart(ts, MinuteNumber(ts.leapSecondTms[i])) + 60
      ensures ts.leapSecondDeltas[i] + 1 == MinuteStart(ts, MinuteNumber(ts.leapSecondTms[i]) + 1)
    {
      DeltaIsLastSecond(ts, i);
    }
  }

  /**
   * From the start of minute `k0` to second `r` of a later minute `k1`, the
   * correction counts exactly the leap seconds of the minutes k0 .. k1 - 1.
   */
  lemma LeapSecondsCrossed(ts: TimeSystem, k0: int, k1: int, r: int, lo: int, hi: int)
    requires DeltasAreLastSeconds(ts) && k0 < k1 && 0 <= r < TypicalSecondsPerMinute
    requires lo == MinuteStart(ts, k0) && hi == MinuteStart(ts, k1) + r
    ensures LeapSecondsWalkedThroughFrom(ts, lo, hi)
      == CountBelow(ts.leapSecondTms, k1) - CountBelow(ts.leapSecondTms, k0)
  {
    MinuteStartGrows(ts, k0, k1);
    DeltasInSpan(ts, k0, k1, r);
    WalkedCountsBetween(ts, lo, hi, k0, k1);
  }

  /** A forward walk counts the entries whose deltas it spans. */
  lemma WalkedCountsBetween(ts: TimeSystem, lo: int, hi: int, k0: int, k1: int)
    requires |ts.leapSecondDeltas| == |ts.leapSecondTms| && lo < hi && k0 <= k1
    requires forall i :: 0 <= i < |ts.leapSecondDeltas| ==>
      (lo <= ts.leapSecondDeltas[i] <= hi <==> k0 <= MinuteNumber(ts.leapSecondTms[i]) < k1)
    ensures LeapSecondsWalkedThroughFrom(ts, lo, hi)
      == CountBelow(ts.leapSecondTms, k1) - CountBelow(ts.leapSecondTms, k0)
  {
    CountWithinIsCountBetween(ts.leapSecondDeltas, ts.leapSecondTms, lo, hi, k0, k1);
  }

  /** The deltas in the walked span are those of the minutes k0 .. k1 - 1. */
  lemma DeltasInSpan(ts: TimeSystem, k0: int, k1: int, r: int)
    requires DeltasAreLastSeconds(ts) && k0 < k1 && 0 <= r < TypicalSecondsPerMinute
    ensures forall i :: 0 <= i < |ts.leapSecondDeltas| ==>
      (MinuteStart(ts, k0) <= ts.leapSecondDeltas[i] <= MinuteStart(ts, k1) + r
       <==> k0 <= MinuteNumber(ts.leapSecondTms[i]) < k1)
  {
    forall i | 0 <= i < |ts.leapSecondDeltas|
      ensures MinuteStart(ts, k0) <= ts.leapSecondDeltas[i] <= MinuteStart(ts, k1) + r
        <==> k0 <= MinuteNumber(ts.leapSecondTms[i]) < k1
    {
      DeltaWithin(ts, k0, k1, r, ts.leapSecondDeltas[i], MinuteNumber(ts.leapSecondTms[i]));
    }
  }

  /**
   * A delta that is the last second of minute `m` lies in the span from the
   * start of minute `k0` to second `r` of minute `k1` exactly when `m` is one
   * of k0 .. k1 - 1.
   */
  lemma DeltaWithin(ts: TimeSystem, k0: int, k1: int, r: int, d: int, m: int)
    requires k0 < k1 && 0 <= r < TypicalSecondsPerMinute
    requires d == MinuteStart(ts, m) + 60 && d + 1 == MinuteStart(ts, m + 1)
    ensures MinuteStart(ts, k0) <= d <= MinuteStart(ts, k1) + r <==> k0 <= m < k1
  {
    if m < k0 {
      MinuteStartGrows(ts, m + 1, k0);
    } else if m >= k1 {
      MinuteStartGrows(ts, k1, m);
    } else {
      MinuteStartGrows(ts, k0, m);
      MinuteStartGrows(ts, m + 1, k1);
    }
  }

  /**
   * Walking back from the start of minute `k0` to second `r` of an earlier
   * minute `k1`, the correction puts back exactly the leap seconds of the
   * minutes k1 .. k0 - 1.
   */
  lemma LeapSecondsCrossedBack(ts: TimeSystem, k1: int, k0: int, r: int, lo: int, hi: int)
    requires DeltasAreLastSeconds(ts) && k1 < k0 && 0 <= r < TypicalSecondsPerMinute
    requires lo == MinuteStart(ts, k1) + r && hi == MinuteStart(ts, k0)
    ensures LeapSecondsWalkedThroughFrom(ts, hi, lo)
      == CountBelow(ts.leapSecondTms, k1) - CountBelow(ts.leapSecondTms, k0)
  {
    MinuteStartGrows(ts, k1, k0);
    DeltasInSpanBack(ts, k1, k0, r);
    CountWithinIsCountBetween(ts.leapSecondDeltas, ts.leapSecondTms, lo, hi, k1, k0);
  }

  /** The deltas in the span walked back are those of the minutes k1 .. k0 - 1. */
  lemma DeltasInSpanBack(ts: TimeSystem, k1: int, k0: int, r: int)
    requires DeltasAreLastSeconds(ts) && k1 < k0 && 0 <= r < TypicalSecondsPerMinute
    ensures forall i :: 0 <= i < |ts.leapSecondDeltas| ==>
      (MinuteStart(ts, k1) + r <= ts.leapSecondDeltas[i] <= MinuteStart(ts, k0)
       <==> k1 <= MinuteNumber(ts.leapSecondTms[i]) < k0)
  {
    forall i | 0 <= i < |ts.leapSecondDeltas|
      ensures MinuteStart(ts, k1) + r <= ts.leapSecondDeltas[i] <= MinuteStart(ts, k0)
        <==> k1 <= MinuteNumber(ts.leapSecondTms[i]) < k0
    {
      DeltaWithinBack(ts, k1, k0, r, ts.leapSecondDeltas[i], MinuteNumber(ts.leapSecondTms[i]));
    }
  }

  /**
   * A delta that is the last second of minute `m` lies in the span from second
   * `r` of minute `k1` to the start of a later minute `k0` exactly when `m` is
   * one of k1 .. k0 - 1.
   */
  lemma DeltaWithinBack(ts: TimeSystem, k1: int, k0: int, r: int, d: int, m: int)
    requires k1 < k0 && 0 <= r < TypicalSecondsPerMinute
    requires d == MinuteStart(ts, m) + 60 && d + 1 == MinuteStart(ts, m + 1)
    ensures MinuteStart(ts, k1) + r <= d <= MinuteStart(ts, k0) <==> k1 <= m < k0
  {
    if m < k1 {
      MinuteStartGrows(ts, m + 1, k1);
    } else if m >= k0 {
      MinuteStartGrows(ts, k0, m);
    } else {
      MinuteStartGrows(ts, k1, m);
      MinuteStartGrows(ts, m + 1, k0);
    }
  }

  // ---------------------------------------------------------------------------
  // The steps of the second's normaliser, each on the line of minutes.

  /** The minute number moves with the minute field when the larger fields stay put. */
  lemma MinuteNumberShift(a: Tm, b: Tm)
    requires a.yr == b.yr && a.mon == b.mon && a.day == b.day && a.hr == b.hr
    ensures MinuteNumber(b) == MinuteNumber(a) + (b.min - a.min)
  {
  }

  /**
   * The coarse phase: carrying whole typical minutes out of a non-negative
   * second and then taking off the leap seconds walked through lands on the
   * same second of the line.
   */
  lemma CoarseCarryKeepsElapsed(ts: TimeSystem, t0: Tm, s0: Tm, t1: Tm, t2: Tm, oldEpoch: int, newEpoch: int)
    requires WellFormed(ts) && MinuteFieldsInLimits(t0) && MinuteFieldsInLimits(t1)
    requires t0.yr >= 1 && t0.sec >= TypicalSecondsPerMinute
    requires SameMinute(t0, s0) && s0.sec == StartSec
    requires MinuteNumber(t1) == MinuteNumber(t0) + t0.sec / TypicalSecondsPerMinute
    requires t1.sec == t0.sec - TypicalSecondsPerMinute * (t0.sec / TypicalSecondsPerMinute)
    requires oldEpoch == EpochSeconds(ts, s0) && newEpoch == EpochSeconds(ts, t1)
    requires SameMinute(t1, t2) && t2.sec == t1.sec - LeapSecondsWalkedThroughFrom(ts, oldEpoch, newEpoch)
    ensures MinuteNumber(t2) > MinuteNumber(t0)
    ensures Elapsed(ts, t2) == Elapsed(ts, t0)
  {
    CoarseEpochsOnTheLine(ts, t0, s0, t1, oldEpoch, newEpoch);
    WellFormedDeltas(ts);
    LeapSecondsCrossed(ts, MinuteNumber(t0), MinuteNumber(t1), t1.sec, oldEpoch, newEpoch);
    CoarseCarryOnTheLine(ts, t0, t1, t2, oldEpoch, newEpoch);
  }

  /**
   * The coarse phase with both conversions already read off the line and the
   * leap seconds walked through counted as those of the minutes passed.
   */
  lemma CoarseCarryOnTheLine(ts: TimeSystem, t0: Tm, t1: Tm, t2: Tm, oldEpoch: int, newEpoch: int)
    requires t0.sec >= TypicalSecondsPerMinute
    requires MinuteNumber(t1) == MinuteNumber(t0) + t0.sec / TypicalSecondsPerMinute
    requires t1.sec == t0.sec - TypicalSecondsPerMinute * (t0.sec / TypicalSecondsPerMinute)
    requires LeapSecondsWalkedThroughFrom(ts, oldEpoch, newEpoch)
      == CountBelow(ts.leapSecondTms, MinuteNumber(t1)) - CountBelow(ts.leapSecondTms, MinuteNumber(t0))
    requires SameMinute(t1, t2) && t2.sec == t1.sec - LeapSecondsWalkedThroughFrom(ts, oldEpoch, newEpoch)
    ensures MinuteNumber(t2) > MinuteNumber(t0)
    ensures Elapsed(ts, t2) == Elapsed(ts, t0)
  {
    var k0, k1 := MinuteNumber(t0), MinuteNumber(t1);
    var c := t0.sec / TypicalSecondsPerMinute;
    MinuteNumberShift(t1, t2);
    CarryAlongTheLine(ts, k0, k1, c, t0.sec, t1.sec, t1.sec - t2.sec);
  }

  /**
   * The coarse phase inside the second normaliser's domain, forward from a
   * second past the typical minute or back from a negative one.
   */
  lemma CoarseCarryKeepsPosition(ts: TimeSystem, t0: Tm, s0: Tm, t1: Tm, t2: Tm, oldEpoch: int, newEpoch: int)
    requires WellFormed(ts) && MinuteFieldsInLimits(t0) && MinuteFieldsInLimits(t1)
    requires SecondCarryFromEpoch(ts, t0, t0.sec) && (t0.sec >= TypicalSecondsPerMinute || t0.sec < StartSec)
    requires SameMinute(t0, s0) && s0.sec == StartSec
    requires MinuteNumber(t1) == MinuteNumber(t0) + t0.sec / TypicalSecondsPerMinute
    requires t1.sec == t0.sec - TypicalSecondsPerMinute * (t0.sec / TypicalSecondsPerMinute)
    requires oldEpoch == EpochSeconds(ts, s0) && newEpoch == EpochSeconds(ts, t1)
    requires SameMinute(t1, t2) && t2.sec == t1.sec - LeapSecondsWalkedThroughFrom(ts, oldEpoch, newEpoch)
    ensures Elapsed(ts, t2) == Elapsed(ts, t0) && MinuteNumber(t2) >= MinuteNumber(Epoch(ts))
    ensures t0.sec >= TypicalSecondsPerMinute ==> MinuteNumber(t2) > MinuteNumber(t0)
    ensures t0.sec < StartSec ==> t2.sec >= StartSec
  {
    CarryFromEpochYearOne(ts, t0, t0.sec);
    if t0.sec >= TypicalSecondsPerMinute {
      CoarseCarryKeepsElapsed(ts, t0, s0, t1, t2, oldEpoch, newEpoch);
    } else {
      EpochMinuteAfterYearOne(ts);
      YearOneByMinuteNumber(t1);
      CoarseCarryBackKeepsElapsed(ts, t0, s0, t1, t2, oldEpoch, newEpoch);
    }
  }

  /**
   * The coarse phase from a negative second: carrying whole typical minutes
   * back and then putting back the leap seconds walked through backwards lands
   * on the same second of the line, now a non-negative one.
   */
  lemma CoarseCarryBackKeepsElapsed(ts: TimeSystem, t0: Tm, s0: Tm, t1: Tm, t2: Tm, oldEpoch: int, newEpoch: int)
    requires WellFormed(ts) && MinuteFieldsInLimits(t0) && MinuteFieldsInLimits(t1)
    requires t0.yr >= 1 && t1.yr >= 1 && t0.sec < StartSec
    requires SameMinute(t0, s0) && s0.sec == StartSec
    requires MinuteNumber(t1) == MinuteNumber(t0) + t0.sec / TypicalSecondsPerMinute
    requires t1.sec == t0.sec - TypicalSecondsPerMinute * (t0.sec / TypicalSecondsPerMinute)
    requires oldEpoch == EpochSeconds(ts, s0) && newEpoch == EpochSeconds(ts, t1)
    requires SameMinute(t1, t2) && t2.sec == t1.sec - LeapSecondsWalkedThroughFrom(ts, oldEpoch, newEpoch)
    ensures t2.sec >= StartSec
    ensures Elapsed(ts, t2) == Elapsed(ts, t0)
  {
    MinuteStartOnTheLine(ts, t0, s0, oldEpoch);
    EpochOnTheLine(ts, t1, newEpoch);
    WellFormedDeltas(ts);
    LeapSecondsCrossedBack(ts, MinuteNumber(t1), MinuteNumber(t0), t1.sec, newEpoch, oldEpoch);
    CoarseCarryBackOnTheLine(ts, t0, t1, t2, oldEpoch, newEpoch);
  }

  /**
   * The backward coarse phase with both conversions read off the line and the
   * leap seconds walked through counted as those of the minutes gone back over.
   */
  lemma CoarseCarryBackOnTheLine(ts: TimeSystem, t0: Tm, t1: Tm, t2: Tm, oldEpoch: int, newEpoch: int)
    requires t0.sec < StartSec
    requires MinuteNumber(t1) == MinuteNumber(t0) + t0.sec / TypicalSecondsPerMinute
    requires t1.sec == t0.sec - TypicalSecondsPerMinute * (t0.sec / TypicalSecondsPerMinute)
    requires LeapSecondsWalkedThroughFrom(ts, oldEpoch, newEpoch)
      == CountBelow(ts.leapSecondTms, MinuteNumber(t1)) - CountBelow(ts.leapSecondTms, MinuteNumber(t0))
    requires SameMinute(t1, t2) && t2.sec == t1.sec - LeapSecondsWalkedThroughFrom(ts, oldEpoch, newEpoch)
    ensures t2.sec >= StartSec
    ensures Elapsed(ts, t2) == Elapsed(ts, t0)
  {
    var k0, k1 := MinuteNumber(t0), MinuteNumber(t1);
    var c := t0.sec / TypicalSecondsPerMinute;
    CountBelowMonotone(ts.leapSecondTms, k1, k0);
    MinuteNumberShift(t1, t2);
    CarryAlongTheLine(ts, k0, k1, c, t0.sec, t1.sec, t1.sec - t2.sec);
  }

  /**
   * Moving `c` minutes on and `60 * c` seconds back, then taking off the leap
   * seconds of the minutes passed, lands where one started.
   */
  lemma CarryAlongTheLine(ts: TimeSystem, k0: int, k1: int, c: int, s0: int, s1: int, walked: int)
    requires k1 == k0 + c && s1 == s0 - TypicalSecondsPerMinute * c
    requires walked == CountBelow(ts.leapSecondTms, k1) - CountBelow(ts.leapSecondTms, k0)
    ensures MinuteStart(ts, k1) + (s1 - walked) == MinuteStart(ts, k0) + s0
  {
  }

  /** Both conversions of the coarse phase read their positions off the line of minutes. */
  lemma CoarseEpochsOnTheLine(ts: TimeSystem, t0: Tm, s0: Tm, t1: Tm, oldEpoch: int, newEpoch: int)
    requires EntriesWellFormed(ts) && MinuteFieldsInLimits(t0) && MinuteFieldsInLimits(t1)
    requires t0.yr >= 1 && MinuteNumber(t1) > MinuteNumber(t0) && 0 <= t1.sec < TypicalSecondsPerMinute
    requires SameMinute(t0, s0) && s0.sec == StartSec
    requires oldEpoch == EpochSeconds(ts, s0) && newEpoch == EpochSeconds(ts, t1)
    ensures oldEpoch == MinuteStart(ts, MinuteNumber(t0))
    ensures newEpoch == MinuteStart(ts, MinuteNumber(t1)) + t1.sec
  {
    MinuteStartOnTheLine(ts, t0, s0, oldEpoch);
    LaterMinuteOnTheLine(ts, t0, t1, newEpoch);
  }

  /** The conversion of second 0 of a real minute from year 1 on is the start of that minute. */
  lemma MinuteStartOnTheLine(ts: TimeSystem, t: Tm, s: Tm, n: int)
    requires EntriesWellFormed(ts) && MinuteFieldsInLimits(t) && t.yr >= 1
    requires SameMinute(t, s) && s.sec == StartSec && n == EpochSeconds(ts, s)
    ensures n == MinuteStart(ts, MinuteNumber(t))
  {
    assert MinuteFieldsInLimits(s) && s.yr >= 1;
    MinuteNumberShift(t, s);
    EpochOnTheLine(ts, s, n);
  }

  /** The conversion of a typical second of a later real minute is its position on the line. */
  lemma LaterMinuteOnTheLine(ts: TimeSystem, t0: Tm, t1: Tm, n: int)
    requires EntriesWellFormed(ts) && MinuteFieldsInLimits(t0) && MinuteFieldsInLimits(t1)
    requires t0.yr >= 1 && MinuteNumber(t1) > MinuteNumber(t0) && 0 <= t1.sec < TypicalSecondsPerMinute
    requires n == EpochSeconds(ts, t1)
    ensures n == MinuteStart(ts, MinuteNumber(t1)) + t1.sec
  {
    YearOneByMinuteNumber(t0);
    YearOneByMinuteNumber(t1);
    EpochOnTheLine(ts, t1, n);
  }

  /** Within one minute the position moves with the second. */
  lemma ElapsedMovesWithSecond(ts: TimeSystem, a: Tm, b: Tm)
    requires SameMinute(a, b)
    ensures Elapsed(ts, b) == Elapsed(ts, a) + (b.sec - a.sec)
  {
    MinuteNumberShift(a, b);
  }

  /** Moving a whole number of seconds from the fraction to the counter keeps their sum. */
  lemma RealCarry(e0: int, count: int, f0: real, e1: int, f1: real)
    requires e1 == e0 + count && f1 == f0 - count as real
    ensures e1 as real + f1 == e0 as real + f0
  {
  }

  /** One forward sweep: leaving a minute by its actual length keeps the position. */
  lemma SweepForwardStep(ts: TimeSystem, here: Tm, after: Tm, k0: int)
    requires MinuteFieldsInLimits(here) && after.sec == here.sec - NumSecondsOfMinute(ts, here)
    ensures WellFormed(ts) && MinuteNumber(here) >= k0 && MinuteNumber(after) == MinuteNumber(here) + 1 ==>
      Elapsed(ts, after) == Elapsed(ts, here) && MinuteNumber(after) >= k0
  {
    if WellFormed(ts) && MinuteNumber(after) == MinuteNumber(here) + 1 {
      MinuteLength(ts, here);
      ElapsedAfterWholeMinute(ts, here, after);
    }
  }

  /** Moving into the next minute less the length of this one keeps the position. */
  lemma ElapsedAfterWholeMinute(ts: TimeSystem, here: Tm, after: Tm)
    requires MinuteNumber(after) == MinuteNumber(here) + 1
    requires MinuteStart(ts, MinuteNumber(here) + 1) == MinuteStart(ts, MinuteNumber(here)) + NumSecondsOfMinute(ts, here)
    requires after.sec == here.sec - NumSecondsOfMinute(ts, here)
    ensures Elapsed(ts, after) == Elapsed(ts, here)
  {
  }

  /** From a real minute at or after year one, the forward step's carry stays after year one. */
  lemma SweepForwardGuard(here: Tm, k0: int)
    requires MinuteFieldsInLimits(here)
    ensures MinuteNumber(here) >= k0 >= MinuteNumber(YearOneStart) ==>
      AfterYearOne(here.yr, here.mon, here.day + (here.hr + (here.min + 1) / MinutesPerHour) / HoursPerDay)
  {
    if MinuteNumber(here) >= k0 >= MinuteNumber(YearOneStart) {
      YearOneByMinuteNumber(here);
      ForwardCarryAfterYearOne(here, 1);
    }
  }

  /**
   * A negative second at or after the start of minute `k0` lies in a later
   * minute, so stepping back one minute stays at or after `k0`.
   */
  lemma BackwardRoom(ts: TimeSystem, here: Tm, k0: int)
    requires here.sec < 0 && Elapsed(ts, here) >= MinuteStart(ts, k0)
    ensures MinuteNumber(here) > k0
  {
    if MinuteNumber(here) <= k0 {
      MinuteStartGrows(ts, MinuteNumber(here), k0);
    }
  }

  /** One backward sweep: entering the previous minute by its actual length keeps the position. */
  lemma SweepBackwardStep(ts: TimeSystem, here: Tm, mid: Tm, after: Tm)
    requires MinuteFieldsInLimits(mid)
    requires after == mid.(sec := here.sec + NumSecondsOfMinute(ts, mid))
    ensures MinuteNumber(after) == MinuteNumber(mid)
    ensures NumSecondsOfMinute(ts, after) == NumSecondsOfMinute(ts, mid)
    ensures WellFormed(ts) && MinuteNumber(mid) == MinuteNumber(here) - 1 ==>
      Elapsed(ts, after) == Elapsed(ts, here)
  {
    MinuteNumberShift(mid, after);
    NumSecondsSameMinute(ts, mid, after);
    if WellFormed(ts) {
      MinuteLength(ts, mid);
    }
  }

  /**
   * A backward step from a position at or after the start of minute `k0`, itself
   * at or after year one, leaves the minute number at or after `k0` and the
   * carry after year one.
   */
  lemma SweepBackwardGuard(ts: TimeSystem, here: Tm, k0: int)
    requires MinuteFieldsInLimits(here) && here.sec < 0
    ensures k0 >= MinuteNumber(YearOneStart) && Elapsed(ts, here) >= MinuteStart(ts, k0) ==>
      MinuteNumber(here) > k0 &&
      AfterYearOne(here.yr, here.mon, here.day + (here.hr + (here.min - 1) / MinutesPerHour) / HoursPerDay)
  {
    if k0 >= MinuteNumber(YearOneStart) && Elapsed(ts, here) >= MinuteStart(ts, k0) {
      BackwardRoom(ts, here, k0);
      BackwardCarryAfterYearOne(here);
    }
  }
}
