/**
 * The calendar value of the Smart Time System: seven fields, the leap-year and
 * leap-minute bounds, the range predicates whose conjunction is validity, and the
 * lexicographic ordering.
 *
 * The process-wide state of the original (the epoch year, the leap-second table
 * and the initialised flag) is the explicit value `TimeSystem`, passed to every
 * operation that reads it.
 */
module Calendar {
  import opened Units

  /** The seven public fields. Nothing is validated when a value is built. */
  datatype Tm = Tm(yr: int, mon: int, day: int, hr: int, min: int, sec: int, fracSec: real)

  /**
   * What the original keeps in statics: whether `init` ran, the epoch year, the
   * leap-second instants and their leap-inclusive epoch offsets.
   */
  datatype TimeSystem = TimeSystem(
    initialized: bool,
    epochYr: int,
    leapSecondTms: seq<Tm>,
    leapSecondDeltas: seq<int>)

  /** The first instant of the epoch year. */
  function Epoch(ts: TimeSystem): (e: Tm)
    ensures e.yr == ts.epochYr && e.mon == StartMon && e.day == StartDay
    ensures e.hr == StartHr && e.min == StartMin && e.sec == StartSec && e.fracSec == StartFracSec
  {
    Tm(ts.epochYr, StartMon, StartDay, StartHr, StartMin, StartSec, StartFracSec)
  }

  /** Days of each month in a common year, January first. */
  const Days: seq<int> := [31, 28, 31, 30, 31, 30, 31, 31, 30, 31, 30, 31]

  /** Month numbers of the original's `Month` enumeration (zero-based). */
  const Jan: int := 0
  const Feb: int := 1

  /** Gregorian rule: divisible by 4, except centuries not divisible by 400. */
  predicate IsLeapYear(yr: int) {
    yr % 4 == 0 && (yr % 400 == 0 || yr % 100 != 0)
  }

  lemma LeapYearExamples()
    ensures IsLeapYear(2000) && IsLeapYear(2012) && IsLeapYear(2020)
    ensures !IsLeapYear(1900) && !IsLeapYear(2013) && !IsLeapYear(2019) && !IsLeapYear(2100)
  {
  }

  /** Days of month `mon` of year `yr`: the table entry, or 29 for a leap February. */
  function NumDaysOfMonth(yr: int, mon: int): (n: int)
    requires StartMon <= mon <= EndMon
    ensures 28 <= n <= 31
    ensures n == 29 <==> mon - 1 == Feb && IsLeapYear(yr)
    ensures !(mon - 1 == Feb && IsLeapYear(yr)) ==> n == Days[mon - 1]
  {
    if mon - 1 == Feb && IsLeapYear(yr) then Days[Feb] + 1 else Days[mon - 1]
  }

  /** Same year, month, day, hour and minute. */
  predicate SameMinute(a: Tm, b: Tm) {
    a.yr == b.yr && a.mon == b.mon && a.day == b.day && a.hr == b.hr && a.min == b.min
  }

  /** The scan of `isLeapMinute`: does some table entry lie in the minute of `t`? */
  predicate LeapMinuteIn(tms: seq<Tm>, t: Tm)
    decreases |tms|
  {
    |tms| > 0 && (SameMinute(t, tms[0]) || LeapMinuteIn(tms[1..], t))
  }

  lemma {:induction false} LeapMinuteInExists(tms: seq<Tm>, t: Tm)
    ensures LeapMinuteIn(tms, t) <==> exists i :: 0 <= i < |tms| && SameMinute(t, tms[i])
    decreases |tms|
  {
    if |tms| > 0 {
      LeapMinuteInExists(tms[1..], t);
      if LeapMinuteIn(tms[1..], t) {
        var j :| 0 <= j < |tms[1..]| && SameMinute(t, tms[1..][j]);
        assert SameMinute(t, tms[j + 1]);
      }
      if exists i :: 0 <= i < |tms| && SameMinute(t, tms[i]) {
        var i :| 0 <= i < |tms| && SameMinute(t, tms[i]);
        if i > 0 {
          assert SameMinute(t, tms[1..][i - 1]);
        }
      }
    }
  }

  predicate IsLeapMinute(ts: TimeSystem, t: Tm) {
    LeapMinuteIn(ts.leapSecondTms, t)
  }

  /** 61 in a minute that holds a tabulated leap second, 60 otherwise. */
  function NumSecondsOfMinute(ts: TimeSystem, t: Tm): (n: int)
    ensures n == 60 || n == 61
    ensures n == 61 <==> exists i :: 0 <= i < |ts.leapSecondTms| && SameMinute(t, ts.leapSecondTms[i])
  {
    LeapMinuteInExists(ts.leapSecondTms, t);
    if IsLeapMinute(ts, t) then 61 else 60
  }

  /** The length of a minute depends on its minute fields only. */
  lemma NumSecondsSameMinute(ts: TimeSystem, a: Tm, b: Tm)
    requires SameMinute(a, b)
    ensures NumSecondsOfMinute(ts, a) == NumSecondsOfMinute(ts, b)
  {
  }

  // The range predicates of the original; their conjunction is validity.

  predicate YrInLimits(ts: TimeSystem, t: Tm) {
    t.yr >= Epoch(ts).yr && t.yr <= EndYr
  }

  predicate MonInLimits(t: Tm) {
    t.mon >= StartMon && t.mon <= EndMon
  }

  predicate DayInLimits(t: Tm)
    requires MonInLimits(t)
  {
    t.day >= StartDay && t.day <= StartDay + NumDaysOfMonth(t.yr, t.mon) - 1
  }

  predicate HrInLimits(t: Tm) {
    t.hr >= StartHr && t.hr <= EndHr
  }

  predicate MinInLimits(t: Tm) {
    t.min >= StartMin && t.min <= EndMin
  }

  predicate SecInLimits(ts: TimeSystem, t: Tm) {
    t.sec >= StartSec && t.sec <= StartSec + NumSecondsOfMinute(ts, t) - 1
  }

  predicate FracSecInLimits(t: Tm) {
    t.fracSec >= StartFracSec && t.fracSec < EndFracSec
  }

  /** Every field but the year is in range: what the normaliser can always establish. */
  predicate FieldsInLimits(ts: TimeSystem, t: Tm) {
    MonInLimits(t) && DayInLimits(t) && HrInLimits(t) && MinInLimits(t)
    && SecInLimits(ts, t) && FracSecInLimits(t)
  }

  /** Month, day, hour and minute are in range: the instant names a real minute. */
  predicate MinuteFieldsInLimits(t: Tm) {
    MonInLimits(t) && DayInLimits(t) && HrInLimits(t) && MinInLimits(t)
  }

  predicate IsValid(ts: TimeSystem, t: Tm) {
    YrInLimits(ts, t) && MonInLimits(t) && DayInLimits(t) && HrInLimits(t)
    && MinInLimits(t) && SecInLimits(ts, t) && FracSecInLimits(t)
  }

  lemma ValidIsYearAndFields(ts: TimeSystem, t: Tm)
    ensures IsValid(ts, t) <==> YrInLimits(ts, t) && FieldsInLimits(ts, t)
  {
  }

  /** 2020-02-29 is a valid date, 2019-02-29 is not. */
  lemma LeapDayBoundary(ts: TimeSystem)
    requires ts.epochYr <= 2019
    ensures IsValid(ts, Tm(2020, 2, 29, 0, 0, 0, 0.0))
    ensures !IsValid(ts, Tm(2019, 2, 29, 0, 0, 0, 0.0))
  {
  }

  // Equality and ordering.

  predicate EqualsWithFrac(a: Tm, other: Tm) {
    a.yr == other.yr && a.mon == other.mon && a.day == other.day && a.hr == other.hr
    && a.min == other.min && a.sec == other.sec && a.fracSec == other.fracSec
  }

  predicate EqualsNoFrac(a: Tm, other: Tm) {
    a.yr == other.yr && a.mon == other.mon && a.day == other.day && a.hr == other.hr
    && a.min == other.min && a.sec == other.sec
  }

  lemma EqualsCharacterised(a: Tm, b: Tm)
    ensures EqualsWithFrac(a, b) <==> a == b
    ensures EqualsNoFrac(a, b) <==> a.(fracSec := 0.0) == b.(fracSec := 0.0)
    ensures EqualsWithFrac(a, b) ==> EqualsNoFrac(a, b)
  {
  }

  /** `operator<`: lexicographic over (yr, mon, day, hr, min, sec, fracSec). */
  predicate Less(lhs: Tm, rhs: Tm) {
    if lhs.yr == rhs.yr then
      if lhs.mon == rhs.mon then
        if lhs.day == rhs.day then
          if lhs.hr == rhs.hr then
            if lhs.min == rhs.min then
              if lhs.sec == rhs.sec then lhs.fracSec < rhs.fracSec
              else lhs.sec < rhs.sec
            else lhs.min < rhs.min
          else lhs.hr < rhs.hr
        else lhs.day < rhs.day
      else lhs.mon < rhs.mon
    else lhs.yr < rhs.yr
  }

  predicate Greater(lhs: Tm, rhs: Tm) { Less(rhs, lhs) }
  predicate LessEq(lhs: Tm, rhs: Tm) { !Greater(lhs, rhs) }
  predicate GreaterEq(lhs: Tm, rhs: Tm) { !Less(lhs, rhs) }

  /** Lexicographic order of the minute fields alone. */
  predicate MinuteLess(a: Tm, b: Tm) {
    a.yr < b.yr
    || (a.yr == b.yr && (a.mon < b.mon
    || (a.mon == b.mon && (a.day < b.day
    || (a.day == b.day && (a.hr < b.hr
    || (a.hr == b.hr && a.min < b.min)))))))
  }

  /** `<` compares minutes first and, within one minute, seconds and then fractions. */
  lemma LessByMinute(a: Tm, b: Tm)
    ensures Less(a, b) <==>
      MinuteLess(a, b) || (SameMinute(a, b) && (a.sec < b.sec || (a.sec == b.sec && a.fracSec < b.fracSec)))
  {
  }

  lemma LessIrreflexive(a: Tm)
    ensures !Less(a, a)
  {
  }

  lemma LessTransitive(a: Tm, b: Tm, c: Tm)
    requires Less(a, b) && Less(b, c)
    ensures Less(a, c)
  {
  }

  /** Two different values are ordered one way and not the other. */
  lemma LessTrichotomy(a: Tm, b: Tm)
    ensures a != b ==> (Less(a, b) <==> !Less(b, a))
    ensures a == b ==> !Less(a, b) && !Less(b, a)
  {
  }

  lemma DerivedComparisons(a: Tm, b: Tm)
    ensures Greater(a, b) <==> Less(b, a)
    ensures LessEq(a, b) <==> Less(a, b) || a == b
    ensures GreaterEq(a, b) <==> Less(b, a) || a == b
  {
  }
}
