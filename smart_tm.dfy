/**
 * The instant object and its normaliser. Each `Fix` stage brings one field into
 * range by carrying the excess into the next larger unit and handing off up the
 * chain; its contract says which fields end in range, that a field already in
 * range is left alone, and which linear index of the position it preserves.
 */
module Normalizer {
  import opened Units
  import opened Calendar
  import opened LeapCounts
  import opened DayNumbers
  import opened EpochCount

  /** What `fixMon` makes of a value: whole years carried out of the month, the rest untouched. */
  function MonthCarried(t: Tm): (u: Tm)
    ensures MonInLimits(u)
    ensures MonthsPerYear * u.yr + u.mon == MonthsPerYear * t.yr + t.mon
    ensures u.day == t.day && u.hr == t.hr && u.min == t.min && u.sec == t.sec && u.fracSec == t.fracSec
    ensures MonInLimits(t) ==> u == t
  {
    if MonInLimits(t) then t
    else
      var count := (t.mon - StartMon) / MonthsPerYear;
      t.(yr := t.yr + count, mon := t.mon - count * MonthsPerYear)
  }

  /**
   * The day, hour and minute stages keep the minute number: the day is after
   * year one and the hour and minute are not negative, or the day is in range
   * and the hour's carry lands after year one, or the day and the hour are in
   * range and the minute's carry does.
   */
  ghost predicate MinuteStagesFromYearOne(t: Tm)
    requires MonInLimits(t)
  {
    (AfterYearOne(t.yr, t.mon, t.day) && t.hr >= StartHr && t.min >= StartMin)
    || (DayInLimits(t) && AfterYearOne(t.yr, t.mon, t.day + t.hr / HoursPerDay) && t.min >= StartMin)
    || (DayInLimits(t) && HrInLimits(t)
        && AfterYearOne(t.yr, t.mon, t.day + (t.hr + t.min / MinutesPerHour) / HoursPerDay))
  }

  /**
   * The second and fraction stages keep the position: the carry out of the
   * second stays inside the second normaliser's domain and the fraction is not
   * negative, or the second is in range and the carry of the fraction's whole
   * part stays inside that domain.
   */
  ghost predicate SecondStagesFromEpoch(ts: TimeSystem, t: Tm) {
    (SecondCarryFromEpoch(ts, t, t.sec) && t.fracSec >= StartFracSec)
    || (SecInLimits(ts, t) && SecondCarryFromEpoch(ts, t, t.sec + (t.fracSec - StartFracSec).Floor))
  }

  /**
   * Where `adjust` keeps the position on the counter. After the month carry,
   * either the minute stages keep the number of a minute not before the epoch
   * minute and the second and the fraction are not negative, or the minute
   * fields are in range and the second stages keep the position.
   */
  ghost predicate AdjustFromEpoch(ts: TimeSystem, t: Tm) {
    var u := MonthCarried(t);
    (MinuteStagesFromYearOne(u) && MinuteNumber(u) >= MinuteNumber(Epoch(ts))
     && u.sec >= StartSec && u.fracSec >= StartFracSec)
    || (MinuteFieldsInLimits(u) && SecondStagesFromEpoch(ts, u))
  }

  /** After the minute stages, the domain of `adjust` is the domain of the second stages. */
  lemma AdjustDomainAfterMinutes(ts: TimeSystem, u: Tm, v: Tm)
    requires EntriesWellFormed(ts) && MonInLimits(u) && MinuteFieldsInLimits(v)
    requires AdjustFromEpoch(ts, u)
    requires MinuteStagesFromYearOne(u) ==> MinuteNumber(v) == MinuteNumber(u)
    requires MinuteFieldsInLimits(u) ==> v == u
    requires v.sec == u.sec && v.fracSec == u.fracSec
    ensures SecondStagesFromEpoch(ts, v)
  {
    if !(MinuteFieldsInLimits(u) && SecondStagesFromEpoch(ts, u)) {
      ForwardCarryFromEpoch(ts, v, v.sec);
    }
  }

  /** After the second stage, the carry of the fraction's whole part stays inside the second normaliser's domain. */
  lemma SecondStagesAfterSec(ts: TimeSystem, v: Tm, w: Tm)
    requires EntriesWellFormed(ts) && MinuteFieldsInLimits(w) && w.sec >= StartSec
    requires SecondStagesFromEpoch(ts, v) && w.fracSec == v.fracSec
    requires SecInLimits(ts, v) ==> w == v
    requires SecondCarryFromEpoch(ts, v, v.sec) ==> MinuteNumber(w) >= MinuteNumber(Epoch(ts))
    ensures SecondCarryFromEpoch(ts, w, w.sec + (w.fracSec - StartFracSec).Floor)
  {
    if !(SecInLimits(ts, v) && SecondCarryFromEpoch(ts, v, v.sec + (v.fracSec - StartFracSec).Floor)) {
      ForwardCarryFromEpoch(ts, w, w.sec + (w.fracSec - StartFracSec).Floor);
    }
  }

  /** A non-negative second and fraction in the epoch minute are in the domain of `adjust`. */
  lemma EpochSecondInDomain(ts: TimeSystem, t: Tm)
    requires EntriesWellFormed(ts) && SameMinute(t, Epoch(ts))
    requires t.sec >= StartSec && t.fracSec >= StartFracSec
    ensures MonthCarried(t) == t && AdjustFromEpoch(ts, t)
  {
    CumDaysBounds(0);
  }

  class SmartTm {
    var yr: int
    var mon: int
    var day: int
    var hr: int
    var min: int
    var sec: int
    var fracSec: real

    /** The seven fields as a value. */
    function Value(): Tm
      reads this
    {
      Tm(yr, mon, day, hr, min, sec, fracSec)
    }

    /** The field constructor stores its arguments unchanged and validates nothing. */
    constructor (yr: int, mon: int, day: int, hr: int, min: int, sec: int, fracSec: real)
      ensures Value() == Tm(yr, mon, day, hr, min, sec, fracSec)
    {
      this.yr, this.mon, this.day := yr, mon, day;
      this.hr, this.min, this.sec, this.fracSec := hr, min, sec, fracSec;
    }

    /** The default constructor: the first instant of the epoch year. */
    constructor AtEpoch(ts: TimeSystem)
      ensures Value() == Epoch(ts)
    {
      yr, mon, day := ts.epochYr, StartMon, StartDay;
      hr, min, sec, fracSec := StartHr, StartMin, StartSec, StartFracSec;
    }

    /**
     * The instant `sinceEpoch` seconds after the epoch: the epoch with the count
     * added to its second, then adjusted. On a consistent table the result is
     * that position on the leap-inclusive counter.
     */
    constructor SinceEpoch(ts: TimeSystem, sinceEpoch: nat)
      ensures FieldsInLimits(ts, Value()) && fracSec == StartFracSec
      ensures WellFormed(ts) ==> Elapsed(ts, Value()) == sinceEpoch
    {
      yr, mon, day := ts.epochYr, StartMon, StartDay;
      hr, min, sec, fracSec := StartHr, StartMin, StartSec + sinceEpoch, StartFracSec;
      new;
      ghost var start := Value();
      if WellFormed(ts) {
        EpochSecondInDomain(ts, start);
      }
      Adjust(ts);
      if WellFormed(ts) {
        ElapsedFromEpoch(ts, start, sinceEpoch);
      }
    }

    /** The same with a fractional part added to the epoch's zero fraction. */
    constructor SinceEpochFrac(ts: TimeSystem, sinceEpoch: nat, fracSec: real)
      ensures FieldsInLimits(ts, Value())
      ensures WellFormed(ts) && fracSec >= 0.0 ==>
        Elapsed(ts, Value()) as real + this.fracSec == sinceEpoch as real + fracSec
    {
      yr, mon, day := ts.epochYr, StartMon, StartDay;
      hr, min, sec := StartHr, StartMin, StartSec + sinceEpoch;
      this.fracSec := StartFracSec + fracSec;
      new;
      ghost var start := Value();
      if WellFormed(ts) && fracSec >= 0.0 {
        EpochSecondInDomain(ts, start);
      }
      Adjust(ts);
      if WellFormed(ts) {
        ElapsedFromEpoch(ts, start, sinceEpoch);
      }
    }

    // -------------------------------------------------------------------------
    // The normaliser stages.

    /** Carry whole years out of the month; `12 * yr + mon` is kept. */
    method FixMon()
      modifies this
      ensures Value() == MonthCarried(old(Value()))
    {
      if MonInLimits(Value()) {
        return;
      }
      var count := (mon - StartMon) / MonthsPerYear;
      yr := yr + count;
      mon := mon - count * MonthsPerYear;
    }

    /**
     * Step whole months of the common-year table out of the day, forward or
     * back; the 365-day index is kept.
     */
    method StepMonNoLeapCorrection()
      requires MonInLimits(Value())
      modifies this
      ensures MonInLimits(Value()) && StartDay <= day <= Days[mon - 1]
      ensures NaiveDayNumber(yr, mon, day) == old(NaiveDayNumber(yr, mon, day))
      ensures hr == old(hr) && min == old(min) && sec == old(sec) && fracSec == old(fracSec)
      ensures old(StartDay <= day <= Days[mon - 1]) ==> Value() == old(Value())
    {
      StepForwardMonNoLeapCorrection();
      StepBackMonNoLeapCorrection();
    }

    /** The forward loop of `stepMonNoLeapCorrection`: leave months whose common length the day exceeds. */
    method StepForwardMonNoLeapCorrection()
      requires MonInLimits(Value())
      modifies this
      ensures MonInLimits(Value()) && day <= Days[mon - 1]
      ensures NaiveDayNumber(yr, mon, day) == old(NaiveDayNumber(yr, mon, day))
      ensures hr == old(hr) && min == old(min) && sec == old(sec) && fracSec == old(fracSec)
      ensures old(day <= Days[mon - 1]) ==> Value() == old(Value())
    {
      while day > StartDay + Days[mon - 1] - 1
        invariant MonInLimits(Value())
        invariant NaiveDayNumber(yr, mon, day) == old(NaiveDayNumber(yr, mon, day))
        invariant hr == old(hr) && min == old(min) && sec == old(sec) && fracSec == old(fracSec)
        invariant old(day <= Days[mon - 1]) ==> Value() == old(Value())
        decreases day
      {
        ghost var y, m, d := yr, mon, day;
        day := day - Days[mon - 1];
        mon := mon + 1;
        FixMon();
        NaiveForwardMonthStep(y, m, d, yr, mon);
      }
    }

    /** The backward loop of `stepMonNoLeapCorrection`: borrow common-year months while the day is before the first. */
    method StepBackMonNoLeapCorrection()
      requires MonInLimits(Value()) && day <= Days[mon - 1]
      modifies this
      ensures MonInLimits(Value()) && StartDay <= day <= Days[mon - 1]
      ensures NaiveDayNumber(yr, mon, day) == old(NaiveDayNumber(yr, mon, day))
      ensures hr == old(hr) && min == old(min) && sec == old(sec) && fracSec == old(fracSec)
      ensures old(StartDay <= day) ==> Value() == old(Value())
    {
      while day < StartDay
        invariant MonInLimits(Value()) && day <= Days[mon - 1]
        invariant NaiveDayNumber(yr, mon, day) == old(NaiveDayNumber(yr, mon, day))
        invariant hr == old(hr) && min == old(min) && sec == old(sec) && fracSec == old(fracSec)
        invariant old(StartDay <= day) ==> Value() == old(Value())
        decreases StartDay - day
      {
        ghost var y, m, d := yr, mon, day;
        mon := mon - 1;
        FixMon();
        day := day + Days[mon - 1];
        NaiveBackwardMonthStep(y, m, d, yr, mon);
      }
    }

    /** Step whole months of the actual calendar out of the day; the Gregorian day number is kept. */
    method StepMon()
      requires MonInLimits(Value())
      modifies this
      ensures MonInLimits(Value()) && DayInLimits(Value())
      ensures DayNumber(yr, mon, day) == old(DayNumber(yr, mon, day))
      ensures hr == old(hr) && min == old(min) && sec == old(sec) && fracSec == old(fracSec)
      ensures old(DayInLimits(Value())) ==> Value() == old(Value())
    {
      StepForwardMon();
      StepBackMon();
    }

    /** The forward loop of `stepMon`: leave months whose actual length the day exceeds. */
    method StepForwardMon()
      requires MonInLimits(Value())
      modifies this
      ensures MonInLimits(Value()) && day <= NumDaysOfMonth(yr, mon)
      ensures DayNumber(yr, mon, day) == old(DayNumber(yr, mon, day))
      ensures hr == old(hr) && min == old(min) && sec == old(sec) && fracSec == old(fracSec)
      ensures old(day <= NumDaysOfMonth(yr, mon)) ==> Value() == old(Value())
    {
      while day > StartDay + NumDaysOfMonth(yr, mon) - 1
        invariant MonInLimits(Value())
        invariant DayNumber(yr, mon, day) == old(DayNumber(yr, mon, day))
        invariant hr == old(hr) && min == old(min) && sec == old(sec) && fracSec == old(fracSec)
        invariant old(day <= NumDaysOfMonth(yr, mon)) ==> Value() == old(Value())
        decreases day
      {
        ghost var y, m, d := yr, mon, day;
        day := day - NumDaysOfMonth(yr, mon);
        mon := mon + 1;
        FixMon();
        ForwardMonthStep(y, m, d, yr, mon);
      }
    }

    /** The backward loop of `stepMon`: borrow actual months while the day is before the first. */
    method StepBackMon()
      requires MonInLimits(Value()) && day <= NumDaysOfMonth(yr, mon)
      modifies this
      ensures MonInLimits(Value()) && DayInLimits(Value())
      ensures DayNumber(yr, mon, day) == old(DayNumber(yr, mon, day))
      ensures hr == old(hr) && min == old(min) && sec == old(sec) && fracSec == old(fracSec)
      ensures old(StartDay <= day) ==> Value() == old(Value())
    {
      while day < StartDay
        invariant MonInLimits(Value()) && day <= NumDaysOfMonth(yr, mon)
        invariant DayNumber(yr, mon, day) == old(DayNumber(yr, mon, day))
        invariant hr == old(hr) && min == old(min) && sec == old(sec) && fracSec == old(fracSec)
        invariant old(StartDay <= day) ==> Value() == old(Value())
        decreases StartDay - day
      {
        ghost var y, m, d := yr, mon, day;
        mon := mon - 1;
        FixMon();
        day := day + NumDaysOfMonth(yr, mon);
        BackwardMonthStep(y, m, d, yr, mon);
      }
    }

    /**
     * Bring the day into its month: jump typical years, step common-year months,
     * take off the leap days crossed, and step actual months. From year one on the
     * Gregorian day number is kept.
     */
    method FixDay()
      requires MonInLimits(Value())
      modifies this
      ensures MonInLimits(Value()) && DayInLimits(Value())
      ensures hr == old(hr) && min == old(min) && sec == old(sec) && fracSec == old(fracSec)
      ensures old(DayInLimits(Value())) ==> Value() == old(Value())
      ensures old(AfterYearOne(yr, mon, day)) ==> DayNumber(yr, mon, day) == old(DayNumber(yr, mon, day)) && yr >= 1
    {
      if DayInLimits(Value()) {
        return;
      }
      ghost var y0, m0, d0 := yr, mon, day;
      ghost var exact := AfterYearOne(yr, mon, day);
      var start := Tm(yr, mon, StartDay, StartHr, StartMin, StartSec, StartFracSec);
      var count := TruncDiv(day - StartDay, TypicalDaysPerYear);
      NaiveYearJump(yr, mon, day, count);
      yr := yr + count;
      day := day - count * TypicalDaysPerYear;
      StepMonNoLeapCorrection();
      if exact {
        LeapCorrectionRestoresDayNumber(y0, m0, d0, Value());
      }
      day := day - LeapDaysWalkedThroughFrom(start, Value());
      StepMon();
      if exact {
        SameDayAfterYearOne(y0, m0, d0, yr, mon, day);
      }
    }

    /** Carry whole days out of the hour, then fix the day; the hour number is kept from year one on. */
    method FixHr()
      requires MonInLimits(Value())
      modifies this
      ensures MonInLimits(Value()) && HrInLimits(Value())
      ensures old(DayInLimits(Value())) || !old(HrInLimits(Value())) ==> DayInLimits(Value())
      ensures min == old(min) && sec == old(sec) && fracSec == old(fracSec)
      ensures old(HrInLimits(Value())) ==> Value() == old(Value())
      ensures old(AfterYearOne(yr, mon, day + hr / HoursPerDay)) ==>
        HourNumber(yr, mon, day, hr) == old(HourNumber(yr, mon, day, hr)) && yr >= 1
    {
      if HrInLimits(Value()) {
        return;
      }
      var count := (hr - StartHr) / HoursPerDay;
      day := day + count;
      hr := hr - count * HoursPerDay;
      FixDay();
    }

    /** Carry whole hours out of the minute, then fix the hour; the minute number is kept from year one on. */
    method FixMin()
      requires MonInLimits(Value())
      modifies this
      ensures MonInLimits(Value()) && MinInLimits(Value())
      ensures old(HrInLimits(Value())) || !old(MinInLimits(Value())) ==> HrInLimits(Value())
      ensures old(DayInLimits(Value())) ==> DayInLimits(Value())
      ensures sec == old(sec) && fracSec == old(fracSec)
      ensures old(MinInLimits(Value())) ==> Value() == old(Value())
      ensures old(AfterYearOne(yr, mon, day + (hr + min / MinutesPerHour) / HoursPerDay)) ==>
        MinuteNumber(Value()) == old(MinuteNumber(Value())) && yr >= 1
    {
      if MinInLimits(Value()) {
        return;
      }
      var count := (min - StartMin) / MinutesPerHour;
      hr := hr + count;
      min := min - count * MinutesPerHour;
      FixHr();
    }

    /** The day, hour and minute stages of `adjust` in turn; on their domain the minute number is kept. */
    method FixMinuteFields()
      requires MonInLimits(Value())
      modifies this
      ensures MinuteFieldsInLimits(Value())
      ensures sec == old(sec) && fracSec == old(fracSec)
      ensures old(MinuteFieldsInLimits(Value())) ==> Value() == old(Value())
      ensures old(MinuteStagesFromYearOne(Value())) ==>
        MinuteNumber(Value()) == old(MinuteNumber(Value())) && yr >= 1
    {
      ghost var fromDay := AfterYearOne(yr, mon, day) && hr >= StartHr && min >= StartMin;
      ghost var fromHr := DayInLimits(Value()) && AfterYearOne(yr, mon, day + hr / HoursPerDay) && min >= StartMin;
      FixDay();
      if fromDay {
        ForwardDaysAfterYearOne(yr, mon, day, hr / HoursPerDay);
      }
      FixHr();
      if fromDay || fromHr {
        ForwardDaysAfterYearOne(yr, mon, day, (hr + min / MinutesPerHour) / HoursPerDay);
      }
      FixMin();
    }

    /**
     * Bring the second into its minute. Whole typical minutes are carried in one
     * go, the leap seconds crossed on the way are taken off, and the rest is
     * swept a minute at a time using each minute's actual length. On a
     * consistent table and inside the domain where neither conversion goes
     * before the epoch, forward or back, the position on the leap-inclusive
     * counter is kept.
     */
    method FixSec(ts: TimeSystem)
      requires MinuteFieldsInLimits(Value())
      modifies this
      ensures MinuteFieldsInLimits(Value()) && SecInLimits(ts, Value())
      ensures fracSec == old(fracSec)
      ensures old(SecInLimits(ts, Value())) ==> Value() == old(Value())
      ensures WellFormed(ts) && old(SecondCarryFromEpoch(ts, Value(), sec)) ==>
        Elapsed(ts, Value()) == old(Elapsed(ts, Value())) && MinuteNumber(Value()) >= MinuteNumber(Epoch(ts))
        && (old(sec) >= StartSec ==> MinuteNumber(Value()) >= old(MinuteNumber(Value())))
    {
      if SecInLimits(ts, Value()) {
        return;
      }
      ghost var t0 := Value();
      ghost var exact := WellFormed(ts) && SecondCarryFromEpoch(ts, t0, sec);
      if exact {
        EpochMinuteAfterYearOne(ts);
      }
      CarryTypicalMinutes(ts);
      if exact {
        YearOneByMinuteNumber(Value());
      }
      SweepForward(ts);
      SweepBackward(ts, MinuteNumber(t0));
    }

    /**
     * The first part of `fixSec`: carry as many typical minutes as the second
     * holds, forward or back, then correct by the leap seconds walked through on
     * the way. A negative second ends non-negative.
     */
    method CarryTypicalMinutes(ts: TimeSystem)
      requires MinuteFieldsInLimits(Value())
      modifies this
      ensures MinuteFieldsInLimits(Value())
      ensures fracSec == old(fracSec)
      ensures WellFormed(ts) && old(SecondCarryFromEpoch(ts, Value(), sec))
              && (old(sec) >= TypicalSecondsPerMinute || old(sec) < StartSec) ==>
        Elapsed(ts, Value()) == old(Elapsed(ts, Value())) && MinuteNumber(Value()) >= MinuteNumber(Epoch(ts))
        && (old(sec) >= TypicalSecondsPerMinute ==> MinuteNumber(Value()) > old(MinuteNumber(Value())))
        && (old(sec) < StartSec ==> sec >= StartSec)
    {
      ghost var t0 := Value();
      ghost var exact := WellFormed(ts) && SecondCarryFromEpoch(ts, t0, sec)
        && (sec >= TypicalSecondsPerMinute || sec < StartSec);
      var oldEpoch := MoveTypicalMinutes(ts);
      ghost var t1 := Value();
      TakeOffLeapSeconds(ts, oldEpoch);
      if exact {
        CoarseCarryKeepsPosition(ts, t0, Tm(t0.yr, t0.mon, t0.day, t0.hr, t0.min, StartSec, t0.fracSec),
          t1, Value(), oldEpoch, EpochSeconds(ts, t1));
      }
    }

    /**
     * Read the counter at the start of the minute, then move as many typical
     * minutes as the second holds and keep the remainder as the second.
     */
    method MoveTypicalMinutes(ts: TimeSystem) returns (oldEpoch: int)
      requires MinuteFieldsInLimits(Value())
      modifies this
      ensures MinuteFieldsInLimits(Value()) && fracSec == old(fracSec)
      ensures oldEpoch == EpochSeconds(ts, Tm(old(yr), old(mon), old(day), old(hr), old(min), StartSec, old(fracSec)))
      ensures sec == old(sec) - TypicalSecondsPerMinute * (old(sec) / TypicalSecondsPerMinute)
      ensures old(AfterYearOne(yr, mon, day + (hr + (min + sec / TypicalSecondsPerMinute) / MinutesPerHour) / HoursPerDay)) ==>
        MinuteNumber(Value()) == old(MinuteNumber(Value())) + old(sec) / TypicalSecondsPerMinute
    {
      var addSec := sec;
      sec := StartSec;
      oldEpoch := ToEpoch(ts);

      var count := (addSec - StartSec) / TypicalSecondsPerMinute;
      addSec := addSec - count * TypicalSecondsPerMinute;
      ShiftMinutes(count);
      sec := addSec;
    }

    /** Read the counter again and take off the leap seconds walked through since the first reading. */
    method TakeOffLeapSeconds(ts: TimeSystem, oldEpoch: int)
      requires MinuteFieldsInLimits(Value())
      modifies this
      ensures yr == old(yr) && mon == old(mon) && day == old(day) && hr == old(hr) && min == old(min)
      ensures fracSec == old(fracSec)
      ensures sec == old(sec) - LeapSecondsWalkedThroughFrom(ts, oldEpoch, old(EpochSeconds(ts, Value())))
    {
      var newEpoch := ToEpoch(ts);
      sec := sec - LeapSecondsWalkedThroughFrom(ts, oldEpoch, newEpoch);
      FixMin();
    }

    /** Move `count` minutes and fix the minute; when the carry lands after year one, `count` is added to the minute number. */
    method ShiftMinutes(count: int)
      requires MinuteFieldsInLimits(Value())
      modifies this
      ensures MinuteFieldsInLimits(Value())
      ensures sec == old(sec) && fracSec == old(fracSec)
      ensures old(AfterYearOne(yr, mon, day + (hr + (min + count) / MinutesPerHour) / HoursPerDay)) ==>
        MinuteNumber(Value()) == old(MinuteNumber(Value())) + count
    {
      ghost var before := Value();
      min := min + count;
      ghost var pre := Value();
      FixMin();
      MinuteNumberShift(before, pre);
    }

    /** The second part of `fixSec`: step forward while the second overflows its minute. */
    method SweepForward(ts: TimeSystem)
      requires MinuteFieldsInLimits(Value())
      modifies this
      ensures MinuteFieldsInLimits(Value()) && sec <= StartSec + NumSecondsOfMinute(ts, Value()) - 1
      ensures fracSec == old(fracSec)
      ensures old(sec <= StartSec + NumSecondsOfMinute(ts, Value()) - 1) ==> Value() == old(Value())
      ensures old(sec) >= StartSec ==> sec >= StartSec
      ensures WellFormed(ts) && old(yr) >= 1 ==>
        Elapsed(ts, Value()) == old(Elapsed(ts, Value())) && MinuteNumber(Value()) >= old(MinuteNumber(Value()))
    {
      ghost var exact := WellFormed(ts) && yr >= 1;
      ghost var target := Elapsed(ts, Value());
      ghost var k0 := MinuteNumber(Value());
      if exact {
        YearOneByMinuteNumber(Value());
      }
      while sec > StartSec + NumSecondsOfMinute(ts, Value()) - 1
        invariant MinuteFieldsInLimits(Value())
        invariant fracSec == old(fracSec)
        invariant old(sec <= StartSec + NumSecondsOfMinute(ts, Value()) - 1) ==> Value() == old(Value())
        invariant old(sec) >= StartSec ==> sec >= StartSec
        invariant exact ==> k0 >= MinuteNumber(YearOneStart)
        invariant exact ==> Elapsed(ts, Value()) == target && MinuteNumber(Value()) >= k0
        decreases sec
      {
        StepForwardOneMinute(ts, k0);
      }
    }

    /** One step of the forward sweep: give up the length of this minute and move to the next. */
    method StepForwardOneMinute(ts: TimeSystem, ghost k0: int)
      requires MinuteFieldsInLimits(Value()) && sec > StartSec + NumSecondsOfMinute(ts, Value()) - 1
      modifies this
      ensures MinuteFieldsInLimits(Value())
      ensures fracSec == old(fracSec) && StartSec <= sec < old(sec)
      ensures WellFormed(ts) && old(MinuteNumber(Value())) >= k0 >= MinuteNumber(YearOneStart) ==>
        Elapsed(ts, Value()) == old(Elapsed(ts, Value())) && MinuteNumber(Value()) >= k0
    {
      ghost var here := Value();
      SweepForwardGuard(here, k0);
      sec := sec - NumSecondsOfMinute(ts, Value());
      min := min + 1;
      ghost var next := Value();
      FixMin();
      MinuteNumberShift(here, next);
      SweepForwardStep(ts, here, Value(), k0);
    }

    /**
     * The last part of `fixSec`: step back while the second is negative. A
     * position at or after the start of minute `k0`, from year one on, is kept.
     */
    method SweepBackward(ts: TimeSystem, ghost k0: int)
      requires MinuteFieldsInLimits(Value()) && sec <= StartSec + NumSecondsOfMinute(ts, Value()) - 1
      modifies this
      ensures MinuteFieldsInLimits(Value()) && SecInLimits(ts, Value())
      ensures fracSec == old(fracSec)
      ensures old(sec) >= StartSec ==> Value() == old(Value())
      ensures WellFormed(ts) && k0 >= MinuteNumber(YearOneStart) && old(MinuteNumber(Value())) >= k0
              && old(Elapsed(ts, Value())) >= MinuteStart(ts, k0) ==>
        Elapsed(ts, Value()) == old(Elapsed(ts, Value())) && MinuteNumber(Value()) >= k0
    {
      ghost var exact := WellFormed(ts) && k0 >= MinuteNumber(YearOneStart) && MinuteNumber(Value()) >= k0
        && Elapsed(ts, Value()) >= MinuteStart(ts, k0);
      ghost var target := Elapsed(ts, Value());
      while sec < StartSec
        invariant MinuteFieldsInLimits(Value())
        invariant sec <= StartSec + NumSecondsOfMinute(ts, Value()) - 1
        invariant fracSec == old(fracSec)
        invariant old(sec) >= StartSec ==> Value() == old(Value())
        invariant exact ==> Elapsed(ts, Value()) == target && MinuteNumber(Value()) >= k0
        decreases StartSec - sec
      {
        StepBackOneMinute(ts, k0);
      }
    }

    /** One step of the backward sweep: borrow the length of the previous minute. */
    method StepBackOneMinute(ts: TimeSystem, ghost k0: int)
      requires MinuteFieldsInLimits(Value()) && sec < StartSec
      modifies this
      ensures MinuteFieldsInLimits(Value()) && sec <= StartSec + NumSecondsOfMinute(ts, Value()) - 1
      ensures fracSec == old(fracSec) && sec > old(sec)
      ensures WellFormed(ts) && k0 >= MinuteNumber(YearOneStart) && old(Elapsed(ts, Value())) >= MinuteStart(ts, k0) ==>
        Elapsed(ts, Value()) == old(Elapsed(ts, Value())) && MinuteNumber(Value()) >= k0
    {
      ghost var here := Value();
      SweepBackwardGuard(ts, here, k0);
      min := min - 1;
      ghost var prev := Value();
      FixMin();
      ghost var mid := Value();
      sec := sec + NumSecondsOfMinute(ts, Value());
      MinuteNumberShift(here, prev);
      SweepBackwardStep(ts, here, mid, Value());
    }

    /**
     * Carry the whole part of the fraction into the second, then fix the second.
     * On a consistent table, when the carried second is inside the second
     * normaliser's domain, second plus fraction keeps its position.
     */
    method FixFracSec(ts: TimeSystem)
      requires MinuteFieldsInLimits(Value())
      modifies this
      ensures MinuteFieldsInLimits(Value()) && FracSecInLimits(Value())
      ensures old(SecInLimits(ts, Value())) || !old(FracSecInLimits(Value())) ==> SecInLimits(ts, Value())
      ensures old(FracSecInLimits(Value())) ==> Value() == old(Value())
      ensures WellFormed(ts) && old(SecondCarryFromEpoch(ts, Value(), sec + (fracSec - StartFracSec).Floor)) ==>
        Elapsed(ts, Value()) as real + fracSec == old(Elapsed(ts, Value()) as real + fracSec)
    {
      if FracSecInLimits(Value()) {
        return;
      }
      ghost var t0 := Value();
      var count := (fracSec - StartFracSec).Floor;
      sec := sec + count;
      fracSec := fracSec - count as real;
      ghost var t1 := Value();
      ElapsedMovesWithSecond(ts, t0, t1);
      FixSec(ts);
      if WellFormed(ts) && SecondCarryFromEpoch(ts, t1, t1.sec) {
        RealCarry(Elapsed(ts, t0), count, t0.fracSec, Elapsed(ts, Value()), fracSec);
      }
    }

    /**
     * `adjust`: nothing on a valid value; otherwise every stage in turn, after
     * which every field but the year is in range. On a consistent table and
     * inside the domain where no stage goes before the epoch or year one, the
     * position on the counter of the month-carried value is kept.
     */
    method Adjust(ts: TimeSystem)
      modifies this
      ensures FieldsInLimits(ts, Value())
      ensures old(IsValid(ts, Value())) ==> Value() == old(Value())
      ensures old(FieldsInLimits(ts, Value())) ==> Value() == old(Value())
      ensures old(FracSecInLimits(Value())) ==> fracSec == old(fracSec)
      ensures WellFormed(ts) && old(AdjustFromEpoch(ts, Value())) ==>
        Elapsed(ts, Value()) as real + fracSec == old(Elapsed(ts, MonthCarried(Value())) as real + fracSec)
    {
      if IsValid(ts, Value()) {
        return;
      }
      ghost var exact := WellFormed(ts) && AdjustFromEpoch(ts, Value());
      FixMon();
      ghost var u := Value();
      FixMinuteFields();
      if exact {
        AdjustDomainAfterMinutes(ts, u, Value());
      }
      FixSecondFields(ts);
    }

    /** The second and fraction stages of `adjust`; on their domain second plus fraction keeps its position. */
    method FixSecondFields(ts: TimeSystem)
      requires MinuteFieldsInLimits(Value())
      modifies this
      ensures FieldsInLimits(ts, Value())
      ensures old(SecInLimits(ts, Value()) && FracSecInLimits(Value())) ==> Value() == old(Value())
      ensures old(FracSecInLimits(Value())) ==> fracSec == old(fracSec)
      ensures WellFormed(ts) && old(SecondStagesFromEpoch(ts, Value())) ==>
        Elapsed(ts, Value()) as real + fracSec == old(Elapsed(ts, Value()) as real + fracSec)
    {
      ghost var v := Value();
      ghost var exact := WellFormed(ts) && SecondStagesFromEpoch(ts, v);
      ghost var carried := WellFormed(ts) && SecondCarryFromEpoch(ts, v, v.sec);
      FixSec(ts);
      ghost var w := Value();
      if exact {
        assert carried ==> Elapsed(ts, w) == Elapsed(ts, v) && MinuteNumber(w) >= MinuteNumber(Epoch(ts));
        SecondStagesAfterSec(ts, v, w);
      }
      FixFracSec(ts);
    }

    // -------------------------------------------------------------------------
    // The epoch conversion.

    /**
     * `toEpoch`: leap-inclusive seconds since the epoch. The month loop reads the
     * common-year table, so the month may not exceed 13.
     */
    method ToEpoch(ts: TimeSystem) returns (n: int)
      requires mon <= EndMon + 1
      ensures n == EpochSeconds(ts, Value())
    {
      var sum := 0;
      var i := 0;
      while i < mon - 1
        invariant 0 <= i <= if mon - 1 < 0 then 0 else mon - 1
        invariant sum == CumDays(i) * SecondsPerDay
      {
        sum := sum + Days[i] * SecondsPerDay;
        i := i + 1;
      }
      sum := sum + (yr - ts.epochYr) * SecondsPerYear + (day - StartDay) * SecondsPerDay
        + (hr - StartHr) * SecondsPerHour + (min - StartMin) * TypicalSecondsPerMinute
        + LeapDaysWalkedThroughFrom(Epoch(ts), Value()) * SecondsPerDay
        + LeapSecondsWalkedThroughSinceEpoch(ts, Value());
      n := sum + sec - StartSec;
    }

    /** `toEpoch` with the fraction handed back separately. */
    method ToEpochFrac(ts: TimeSystem) returns (n: int, frac: real)
      requires mon <= EndMon + 1
      ensures n == EpochSeconds(ts, Value()) && frac == fracSec
    {
      frac := fracSec;
      n := ToEpoch(ts);
    }
  }

  /** `operator-`: the difference of the two conversions plus the difference of the fractions. */
  method Difference(ts: TimeSystem, lhs: SmartTm, rhs: SmartTm) returns (d: real)
    requires lhs.mon <= EndMon + 1 && rhs.mon <= EndMon + 1
    ensures d == (EpochSeconds(ts, lhs.Value()) - EpochSeconds(ts, rhs.Value())) as real
      + (lhs.fracSec - rhs.fracSec)
  {
    var lFracSec, rFracSec;
    var l, r;
    l, lFracSec := lhs.ToEpochFrac(ts);
    r, rFracSec := rhs.ToEpochFrac(ts);
    var integralDiff := l - r;
    d := integralDiff as real + (lFracSec - rFracSec);
  }
}
