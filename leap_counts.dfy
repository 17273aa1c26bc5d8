/**
 * The leap counters: net Gregorian leap days between two years or two instants,
 * the flat seconds between two epochs, and the tabulated leap seconds crossed
 * between two epoch offsets or since the epoch.
 */
module LeapCounts {
  import opened Units
  import opened Calendar

  /** Integer division rounding toward zero, as C++ divides a `long long`. */
  function TruncDiv(x: int, d: int): (q: int)
    requires d > 0
    ensures x >= 0 ==> q * d <= x < q * d + d
    ensures x < 0 ==> q * d - d < x <= q * d
  {
    if x >= 0 then x / d else -((-x) / d)
  }

  /** The closed form `y/4 + y/400 - y/100` of the original, on `long long`. */
  function LeapDaysSinceYearZero(calcYr: int): int {
    TruncDiv(calcYr, 4) + TruncDiv(calcYr, 400) - TruncDiv(calcYr, 100)
  }

  /** The same closed form with floor division; equal to the above from year 0 on. */
  ghost function LeapYearsThrough(y: int): int {
    y / 4 - y / 100 + y / 400
  }

  /** The number of leap years y with `a` <= y < `b`. */
  ghost function LeapYearsIn(a: int, b: int): nat
    requires a <= b
    decreases b - a
  {
    if a == b then 0 else LeapYearsIn(a, b - 1) + (if IsLeapYear(b - 1) then 1 else 0)
  }

  /** Signed count of leap years between the starts of two years. */
  ghost function SignedLeapYears(a: int, b: int): int {
    if a <= b then LeapYearsIn(a, b) else -(LeapYearsIn(b, a) as int)
  }

  /** The leap-year test used on a whole year: decremented when the year is leap. */
  function YearOnlyCalcYr(yr: int): int {
    if IsLeapYear(yr) then yr - 1 else yr
  }

  /** Year-only overload of `leapDaysWalkedThroughFrom`, used between Jan 1 00:00:00 instants. */
  function LeapDaysWalkedThroughFromYears(startYr: nat, endYr: nat): int {
    LeapDaysSinceYearZero(YearOnlyCalcYr(endYr)) - LeapDaysSinceYearZero(YearOnlyCalcYr(startYr))
  }

  /**
   * The year whose closed-form count is taken for an instant: decremented in a leap
   * year when the instant is in January, or in February on or before the 29th.
   */
  function CalcYr(t: Tm): int {
    if IsLeapYear(t.yr) && ((t.mon - 1 == Feb && t.day <= 29) || t.mon - 1 == Jan) then t.yr - 1 else t.yr
  }

  /** Instant overload of `leapDaysWalkedThroughFrom`. */
  function LeapDaysWalkedThroughFrom(start: Tm, end: Tm): int {
    LeapDaysSinceYearZero(CalcYr(end)) - LeapDaysSinceYearZero(CalcYr(start))
  }

  /** One more than the largest `size_t`. */
  const SizeModulus: int := 0x1_0000_0000_0000_0000

  /**
   * `numSecondsBetweenEpochs`: the flat (leap-day-aware, leap-second-free) seconds
   * between two Jan 1 00:00:00 instants, computed on `size_t`, so taken modulo 2^64.
   */
  function NumSecondsBetweenEpochs(startYr: nat, endYr: nat): (r: nat)
    ensures r < SizeModulus
  {
    ((endYr - startYr) * SecondsPerYear + LeapDaysWalkedThroughFromYears(startYr, endYr) * SecondsPerDay) % SizeModulus
  }

  /** How many of `ds` lie in the closed interval [lo, hi]; the loop of the original, as a fold. */
  function CountWithin(ds: seq<int>, lo: int, hi: int): (n: nat)
    ensures n <= |ds|
    decreases |ds|
  {
    if |ds| == 0 then 0
    else CountWithin(ds[..|ds| - 1], lo, hi) + (if hi >= ds[|ds| - 1] && lo <= ds[|ds| - 1] then 1 else 0)
  }

  ghost function IndicesWithin(ds: seq<int>, lo: int, hi: int): set<int> {
    set i | 0 <= i < |ds| && lo <= ds[i] <= hi
  }

  /**
   * `leapSecondsWalkedThroughFrom`: walking forward the tabulated deltas in
   * [start, end] count positively; otherwise (also when start == end) the deltas in
   * [end, start] count negatively.
   */
  function LeapSecondsWalkedThroughFrom(ts: TimeSystem, start: int, end: int): (r: int)
    ensures -|ts.leapSecondDeltas| <= r <= |ts.leapSecondDeltas|
    ensures end > start ==> r >= 0
    ensures end <= start ==> r <= 0
  {
    if end > start then CountWithin(ts.leapSecondDeltas, start, end)
    else -(CountWithin(ts.leapSecondDeltas, end, start) as int)
  }

  /** Is `e` a table entry that `t` has passed: strictly before it and not calendar-equal? */
  predicate Passed(t: Tm, e: Tm) {
    Greater(t, e) && !EqualsNoFrac(t, e)
  }

  function CountPassed(tms: seq<Tm>, t: Tm): (n: nat)
    ensures n <= |tms|
    decreases |tms|
  {
    if |tms| == 0 then 0
    else CountPassed(tms[..|tms| - 1], t) + (if Passed(t, tms[|tms| - 1]) then 1 else 0)
  }

  ghost function IndicesPassed(tms: seq<Tm>, t: Tm): set<int> {
    set i | 0 <= i < |tms| && Passed(t, tms[i])
  }

  /** `leapSecondsWalkedThroughSinceEpoch`: the table entries the instant has passed. */
  function LeapSecondsWalkedThroughSinceEpoch(ts: TimeSystem, t: Tm): (n: nat)
    ensures n <= |ts.leapSecondTms|
  {
    CountPassed(ts.leapSecondTms, t)
  }

  // ---------------------------------------------------------------------------
  // Arithmetic facts about the closed forms.

  lemma DivModUnique(x: int, d: int, q: int, r: int)
    requires d > 0 && 0 <= r < d && x == q * d + r
    ensures x / d == q && x % d == r
  {
    var q0, r0 := x / d, x % d;
    var k := q0 - q;
    assert k * d == q0 * d - q * d;
    assert k * d == r - r0;
    MulAtLeastDivisor(k, d);
    MulAtLeastDivisor(-k, d);
  }

  lemma MulAtLeastDivisor(k: int, d: int)
    requires d > 0
    ensures k >= 1 ==> k * d >= d
  {
    if k >= 1 {
      assert k * d == (k - 1) * d + d;
    }
  }

  /** Moving the dividend by one moves the floor quotient by one exactly at multiples. */
  lemma DivStep(y: int, d: int)
    requires d > 0
    ensures y / d - (y - 1) / d == if y % d == 0 then 1 else 0
  {
    var q, r := (y - 1) / d, (y - 1) % d;
    if r + 1 < d {
      DivModUnique(y, d, q, r + 1);
    } else {
      assert y == (q + 1) * d + 0;
      DivModUnique(y, d, q + 1, 0);
    }
  }

  lemma DivisibleChain(y: int)
    ensures y % 400 == 0 ==> y % 100 == 0
    ensures y % 100 == 0 ==> y % 4 == 0
  {
    if y % 400 == 0 {
      var q := y / 400;
      assert y == (4 * q) * 100 + 0;
      DivModUnique(y, 100, 4 * q, 0);
    }
    if y % 100 == 0 {
      var q := y / 100;
      assert y == (25 * q) * 4 + 0;
      DivModUnique(y, 4, 25 * q, 0);
    }
  }

  /** The floor closed form grows by one exactly across each leap year. */
  lemma LeapYearsThroughStep(y: int)
    ensures LeapYearsThrough(y) - LeapYearsThrough(y - 1) == if IsLeapYear(y) then 1 else 0
  {
    DivStep(y, 4);
    DivStep(y, 100);
    DivStep(y, 400);
    DivisibleChain(y);
  }

  /** Truncation and floor agree on non-negative years. */
  lemma TruncMatchesFloor(c: int)
    requires c >= 0
    ensures LeapDaysSinceYearZero(c) == LeapYearsThrough(c)
  {
  }

  lemma {:induction false} LeapYearsThroughCounts(y: int)
    requires y >= 0
    ensures LeapYearsThrough(y) == LeapYearsIn(1, y + 1)
    decreases y
  {
    if y > 0 {
      LeapYearsThroughCounts(y - 1);
      LeapYearsThroughStep(y);
    }
  }

  lemma {:induction false} LeapYearsInSplit(a: int, b: int, c: int)
    requires a <= b <= c
    ensures LeapYearsIn(a, c) == LeapYearsIn(a, b) + LeapYearsIn(b, c)
    decreases c - b
  {
    if b < c {
      LeapYearsInSplit(a, b, c - 1);
    }
  }

  lemma {:induction false} LeapYearsInAtMost(a: int, b: int)
    requires a <= b
    ensures LeapYearsIn(a, b) <= b - a
    decreases b - a
  {
    if a < b {
      LeapYearsInAtMost(a, b - 1);
    }
  }

  /** For a year from 1 on, the year-only closed form counts the leap years before it. */
  lemma YearOnlyCountsLeapYearsBefore(yr: int)
    requires yr >= 1
    ensures LeapDaysSinceYearZero(YearOnlyCalcYr(yr)) == LeapYearsIn(1, yr)
  {
    LeapYearsThroughCounts(yr - 1);
    LeapYearsThroughStep(yr);
    TruncMatchesFloor(YearOnlyCalcYr(yr));
  }

  /**
   * The year-only leap-day count between two years from 1 on is the signed
   * number of leap years y with startYr <= y < endYr.
   */
  lemma LeapDaysFromYearsCountsLeapYears(startYr: nat, endYr: nat)
    requires startYr >= 1 && endYr >= 1
    ensures LeapDaysWalkedThroughFromYears(startYr, endYr) == SignedLeapYears(startYr, endYr)
  {
    YearOnlyCountsLeapYearsBefore(startYr);
    YearOnlyCountsLeapYearsBefore(endYr);
    if startYr <= endYr {
      LeapYearsInSplit(1, startYr, endYr);
    } else {
      LeapYearsInSplit(1, endYr, startYr);
    }
  }

  lemma LeapDaysFromYearsProperties(a: nat, b: nat)
    ensures LeapDaysWalkedThroughFromYears(a, a) == 0
    ensures LeapDaysWalkedThroughFromYears(a, b) == -LeapDaysWalkedThroughFromYears(b, a)
  {
  }

  lemma LeapDaysFromYearsExamples()
    ensures LeapDaysWalkedThroughFromYears(2000, 2001) == 1
    ensures LeapDaysWalkedThroughFromYears(1900, 1901) == 0
    ensures LeapDaysWalkedThroughFromYears(1900, 2000) == 24
  {
  }

  lemma LeapDaysFromAntisymmetric(start: Tm, end: Tm)
    ensures LeapDaysWalkedThroughFrom(start, end) == -LeapDaysWalkedThroughFrom(end, start)
    ensures LeapDaysWalkedThroughFrom(start, start) == 0
  {
  }

  /** Any 400 consecutive years hold 97 leap years. */
  lemma LeapYearsPer400(a: int)
    requires a >= 1
    ensures LeapYearsIn(a, a + 400) == 97
  {
    LeapYearsThroughCounts(a - 1);
    LeapYearsThroughCounts(a + 399);
    LeapYearsInSplit(1, a, a + 400);
    var y := a - 1;
    DivModUnique(y + 400, 4, y / 4 + 100, y % 4);
    DivModUnique(y + 400, 100, y / 100 + 4, y % 100);
    DivModUnique(y + 400, 400, y / 400 + 1, y % 400);
  }

  // ---------------------------------------------------------------------------
  // The leap-second counts against independent definitions.

  lemma {:induction false} CountWithinIsCardinality(ds: seq<int>, lo: int, hi: int)
    ensures CountWithin(ds, lo, hi) == |IndicesWithin(ds, lo, hi)|
    decreases |ds|
  {
    if |ds| > 0 {
      var n := |ds| - 1;
      var front := ds[..n];
      CountWithinIsCardinality(front, lo, hi);
      var s := IndicesWithin(front, lo, hi);
      if lo <= ds[n] <= hi {
        assert IndicesWithin(ds, lo, hi) == s + {n};
      } else {
        assert IndicesWithin(ds, lo, hi) == s;
      }
    }
  }

  /**
   * Forward, the count of deltas in [start, end]; otherwise minus the count in
   * [end, start] — so for start == end, minus the deltas equal to start.
   */
  lemma LeapSecondsWalkedCharacterised(ts: TimeSystem, start: int, end: int)
    ensures end > start ==>
      LeapSecondsWalkedThroughFrom(ts, start, end) == |IndicesWithin(ts.leapSecondDeltas, start, end)|
    ensures end <= start ==>
      LeapSecondsWalkedThroughFrom(ts, start, end) == -|IndicesWithin(ts.leapSecondDeltas, end, start)|
    ensures LeapSecondsWalkedThroughFrom(ts, start, start) ==
      -|set i | 0 <= i < |ts.leapSecondDeltas| && ts.leapSecondDeltas[i] == start|
  {
    CountWithinIsCardinality(ts.leapSecondDeltas, start, end);
    CountWithinIsCardinality(ts.leapSecondDeltas, end, start);
    CountWithinIsCardinality(ts.leapSecondDeltas, start, start);
    assert IndicesWithin(ts.leapSecondDeltas, start, start)
      == set i | 0 <= i < |ts.leapSecondDeltas| && ts.leapSecondDeltas[i] == start;
  }

  /** Going back over different offsets undoes going forward. */
  lemma LeapSecondsWalkedAntisymmetric(ts: TimeSystem, start: int, end: int)
    requires start != end
    ensures LeapSecondsWalkedThroughFrom(ts, start, end) == -LeapSecondsWalkedThroughFrom(ts, end, start)
  {
  }

  lemma {:induction false} CountPassedIsCardinality(tms: seq<Tm>, t: Tm)
    ensures CountPassed(tms, t) == |IndicesPassed(tms, t)|
    decreases |tms|
  {
    if |tms| > 0 {
      var n := |tms| - 1;
      var front := tms[..n];
      CountPassedIsCardinality(front, t);
      var s := IndicesPassed(front, t);
      if Passed(t, tms[n]) {
        assert IndicesPassed(tms, t) == s + {n};
      } else {
        assert IndicesPassed(tms, t) == s;
      }
    }
  }

  /** The entries counted are exactly those before the value and not calendar-equal to it. */
  lemma LeapSecondsSinceEpochCharacterised(ts: TimeSystem, t: Tm)
    ensures LeapSecondsWalkedThroughSinceEpoch(ts, t) ==
      |set i | 0 <= i < |ts.leapSecondTms| && Less(ts.leapSecondTms[i], t) && !EqualsNoFrac(t, ts.leapSecondTms[i])|
  {
    CountPassedIsCardinality(ts.leapSecondTms, t);
    assert IndicesPassed(ts.leapSecondTms, t) ==
      set i | 0 <= i < |ts.leapSecondTms| && Less(ts.leapSecondTms[i], t) && !EqualsNoFrac(t, ts.leapSecondTms[i]);
  }

  lemma PassedMonotone(a: Tm, b: Tm, e: Tm)
    requires LessEq(a, b) && Passed(a, e)
    ensures Passed(b, e)
  {
  }

  /** A later instant has passed at least as many table entries. */
  lemma {:induction false} CountPassedMonotone(tms: seq<Tm>, a: Tm, b: Tm)
    requires LessEq(a, b)
    ensures CountPassed(tms, a) <= CountPassed(tms, b)
    decreases |tms|
  {
    if |tms| > 0 {
      CountPassedMonotone(tms[..|tms| - 1], a, b);
      if Passed(a, tms[|tms| - 1]) {
        PassedMonotone(a, b, tms[|tms| - 1]);
      }
    }
  }

  lemma LeapSecondsSinceEpochMonotone(ts: TimeSystem, a: Tm, b: Tm)
    requires LessEq(a, b)
    ensures LeapSecondsWalkedThroughSinceEpoch(ts, a) <= LeapSecondsWalkedThroughSinceEpoch(ts, b)
  {
    CountPassedMonotone(ts.leapSecondTms, a, b);
  }
}
