# smart_tm in Dafny

A model of the `smart_tm` calendar engine: a seven-field instant (year, month,
day, hour, minute, second, fractional second) that counts Gregorian leap days
and leap seconds from a table, normalises out-of-range fields with `adjust`,
and converts to and from a seconds counter that includes the leap seconds.

The process-wide state of the original (the epoch instant, the two leap-second
tables and the `initialized` flag) is the value `Calendar.TimeSystem`, passed
to every operation that reads it. The instant is both a value (`Calendar.Tm`,
used for table entries, ordering and the pure counters) and a class
(`Normalizer.SmartTm`) whose fields the normaliser stages update in place.

Modules, following the structure of `smart_tm.cpp` and `smart_tm.h`:

- `Units` (units.dfy): the unit and bound constants.
- `Calendar` (calendar.dfy): the value, the system state, the leap-year and
  leap-minute bounds, the range predicates, equality and the ordering.
- `LeapCounts` (leap_counts.dfy): both `leapDaysWalkedThroughFrom` overloads,
  `numSecondsBetweenEpochs`, `leapSecondsWalkedThroughFrom` and
  `leapSecondsWalkedThroughSinceEpoch`, with their closed-form facts.
- `DayNumbers` (day_number.dfy): a 365-day index and the Gregorian day number.
  These are the linear indices that the month and day stages keep.
- `EpochCount` (epoch.dfy): `EpochSeconds`, the value `toEpoch` computes. It
  also defines `Elapsed`, a separate reading of the same count. `Elapsed` is a
  position on a line of minutes, each 60 seconds long, or 61 when it holds a
  tabulated leap second. On a consistent table (`WellFormed`) the two agree.
  The lemmas of `EpochCount` prove that the count is strictly monotone and
  injective.
- `Normalizer` (smart_tm.dfy): the class, its constructors, the `fix*` stages,
  `stepMon`, `stepMonNoLeapCorrection`, `adjust`, `toEpoch` and `operator-`.
- `LeapTable` (leap_table.dfy): the table-building loop of `init`, over a
  sequence of raw offsets.
- `Guarantees` (guarantees.dfy): what the library promises its users. The
  conversion round trip, that `adjust` is idempotent, that it lands on the
  instant at the same position, the two roll-over examples in the header,
  worked examples (February 29 of a common year, 200 seconds added to a
  minute, a second or an hour taken off, the seconds around a tabulated leap
  second), and that the difference agrees with the ordering.

Two behaviours of the code are easy to misread, and the model follows the code in both.
`leapSecondsWalkedThroughSinceEpoch` counts the entries that the instant is
greater than, so the entries *before* it, excluding an entry equal to it second
for second (smart_tm.cpp:272). `leapSecondsWalkedThroughFrom(s, s)` is minus
the number of deltas equal to `s`, not 0.

23:59:59 plus two seconds, in a minute that holds a tabulated leap second,
lands on 00:00:00 of the next day, not 00:00:01: second 60 is the leap second,
so the second step goes into second 0 of the next minute (smart_tm.cpp:396-433;
`Guarantees.AdjustSixtyOne`, `Guarantees.AdjustAcrossLeapSecond`).

## Model

| member | source | states |
|---|---|---|
| Units.UnitsConsistent | smart_tm.h:95-107 | the per-hour, per-day and per-year second constants are the products of the smaller units (3600 = 60·60, 86400 = 24·3600, 31536000 = 365·86400) |
| Calendar.Epoch | smart_tm.cpp:68-71 | the epoch instant is January 1, 00:00:00.0 of the epoch year held in the system state |
| Calendar.LeapYearExamples | smart_tm.cpp:205-215 | the Gregorian rule on sample years: 2000, 2012 and 2020 are leap years; 1900, 2013, 2019 and 2100 are not |
| Calendar.NumDaysOfMonth | smart_tm.cpp:225-229 | a month has 28 to 31 days; it has 29 exactly for February of a leap year; any other month has its entry of the common-year table |
| Calendar.LeapMinuteInExists | smart_tm.cpp:217-223 | the scan of `isLeapMinute` succeeds exactly when some table entry has the same year, month, day, hour and minute |
| Calendar.NumSecondsOfMinute | smart_tm.cpp:231-235 | a minute has 60 or 61 seconds, and 61 exactly when some table entry lies in that minute |
| Calendar.NumSecondsSameMinute | smart_tm.cpp:217-235 | the length of a minute depends only on its year, month, day, hour and minute fields |
| Calendar.ValidIsYearAndFields | smart_tm.cpp:460-462 | `isValid` holds exactly when the year is in range and every other field is in range |
| Calendar.LeapDayBoundary | smart_tm.h:262-268 | with an epoch before 2020, 2020-02-29 is valid and 2019-02-29 is not |
| Calendar.EqualsCharacterised | smart_tm.cpp:170-176 | `equalsWithFrac` is equality of all seven fields; `equalsNoFrac` is equality once the fractions are ignored; the first implies the second |
| Calendar.LessByMinute | smart_tm.h:271-285 | `<` compares the minute fields first, then the second, then the fraction |
| Calendar.LessIrreflexive | smart_tm.h:271-285 | no value is less than itself |
| Calendar.LessTransitive | smart_tm.h:271-285 | `<` is transitive |
| Calendar.LessTrichotomy | smart_tm.h:271-285 | of two different values exactly one is less than the other; equal values are not ordered |
| Calendar.DerivedComparisons | smart_tm.h:287-289 | `a > b` iff `b < a`; `a <= b` iff `a < b` or they are equal; `a >= b` iff `b < a` or they are equal |
| LeapCounts.TruncDiv | smart_tm.cpp:288 | `long long` division rounds toward zero: the quotient times the divisor is at most the dividend for a non-negative dividend and at least it for a negative one, within one divisor |
| LeapCounts.TruncMatchesFloor | smart_tm.cpp:288 | for a non-negative year the truncating closed form `y/4 + y/400 - y/100` equals the floor closed form |
| LeapCounts.LeapYearsThroughCounts | smart_tm.cpp:288 | the closed form for year `y >= 0` counts the Gregorian leap years from 1 to `y` |
| LeapCounts.YearOnlyCountsLeapYearsBefore | smart_tm.cpp:282-288 | from year 1 on, the closed form of the decremented year counts the leap years strictly before that year |
| LeapCounts.LeapDaysFromYearsCountsLeapYears | smart_tm.cpp:282-295 | the year-only `leapDaysWalkedThroughFrom(a, b)` is the signed number of leap years from the start of `a` to the start of `b` |
| LeapCounts.LeapDaysFromYearsProperties | smart_tm.cpp:282-295 | the year-only count is 0 from a year to itself and antisymmetric |
| LeapCounts.LeapDaysFromYearsExamples | smart_tm.cpp:282-295 | the year-only count is 1 for (2000, 2001), 0 for (1900, 1901) and 24 for (1900, 2000) |
| LeapCounts.LeapDaysFromAntisymmetric | smart_tm.cpp:297-310 | the instant overload is antisymmetric in its two arguments and 0 from an instant to itself |
| LeapCounts.LeapYearsPer400 | smart_tm.cpp:205-209 | any 400 consecutive years hold exactly 97 leap years |
| LeapCounts.NumSecondsBetweenEpochs | smart_tm.cpp:237-239 | the result is a `size_t` value: the flat formula is taken modulo 2^64 |
| LeapCounts.LeapSecondsWalkedThroughFrom | smart_tm.cpp:464-478 | the count never exceeds the table length in absolute value; it is not negative for a forward walk and not positive otherwise |
| LeapCounts.CountWithinIsCardinality | smart_tm.cpp:466-470 | the counting loop gives the number of table positions whose delta lies in the closed interval |
| LeapCounts.LeapSecondsWalkedCharacterised | smart_tm.cpp:464-478 | walking forward (`end > start`) counts the deltas in `[start, end]`; otherwise, `start == end` included, it gives minus the number of deltas in `[end, start]` |
| LeapCounts.LeapSecondsWalkedAntisymmetric | smart_tm.cpp:464-478 | for different endpoints, swapping them negates the count |
| LeapCounts.LeapSecondsWalkedThroughSinceEpoch | smart_tm.cpp:269-276 | the count of passed entries is at most the table length |
| LeapCounts.CountPassedIsCardinality | smart_tm.cpp:269-276 | the loop counts the table positions whose entry the value has passed |
| LeapCounts.LeapSecondsSinceEpochCharacterised | smart_tm.cpp:269-276 | the count is the number of entries strictly before the value under `<` and not equal to it second for second |
| LeapCounts.PassedMonotone | smart_tm.cpp:272 | an entry passed by a value is passed by every value not less than it |
| LeapCounts.CountPassedMonotone | smart_tm.cpp:269-276 | the loop's count does not decrease along `<=` |
| LeapCounts.LeapSecondsSinceEpochMonotone | smart_tm.cpp:269-276 | the leap seconds passed since the epoch do not decrease along `<=` |
| DayNumbers.CumDaysTable | smart_tm.cpp:254-256 | the month loop of `toEpoch` sums to 31, 59, …, 365 days after 1 to 12 months of the common-year table |
| DayNumbers.NaiveInYear | smart_tm.cpp:322-334 | a date within its common-year month lies inside its own year of the 365-day index |
| DayNumbers.MonthAfter | smart_tm.cpp:312-320 | moving one month on and re-normalising the month gives the next month, or January of the next year after December |
| DayNumbers.NaiveForwardMonthStep | smart_tm.cpp:323-327 | taking the common length of month `m` from the day and moving to the next month keeps the 365-day index |
| DayNumbers.NaiveBackwardMonthStep | smart_tm.cpp:329-333 | moving to the previous month and adding its common length to the day keeps the 365-day index |
| DayNumbers.ForwardMonthStep | smart_tm.cpp:337-341 | taking the actual length of month `m` from the day and moving to the next month keeps the Gregorian day number |
| DayNumbers.BackwardMonthStep | smart_tm.cpp:343-347 | moving to the previous month and adding its actual length keeps the Gregorian day number |
| DayNumbers.NaiveYearJump | smart_tm.cpp:361-363 | moving `c` years and taking `365·c` days keeps the 365-day index |
| DayNumbers.DayNumberInYear | smart_tm.cpp:225-229 | a valid date lies between the first day of its year and the first day of the next |
| DayNumbers.DayNumberStrictlyMonotone | smart_tm.cpp:225-229 | the day number strictly increases along the calendar order of valid dates |
| DayNumbers.DayNumberInjective | smart_tm.cpp:225-229 | different valid dates have different day numbers |
| DayNumbers.AfterYearOneDayNumber | smart_tm.cpp:350-370 | a position after year one is not before 0001-01-01 in the Gregorian day number |
| DayNumbers.YearOneByDayNumber | smart_tm.cpp:350-370 | a valid date is in year 1 or later exactly when its day number is not below that of 0001-01-01 |
| DayNumbers.SameDayAfterYearOne | smart_tm.cpp:350-370 | a valid date with the day number of a position after year one is in year 1 or later |
| DayNumbers.ForwardDaysAfterYearOne | smart_tm.cpp:372-394 | a valid date of year 1 or later moved forward by whole days stays after year one |
| DayNumbers.LeapDaysBeforeDate | smart_tm.cpp:297-310 | from year 1 on, the closed form of the instant's decremented year is the number of leap days before the date |
| DayNumbers.LeapDaysWalkedThroughFromCountsCrossed | smart_tm.cpp:297-310 | from year 1 on, the instant overload is the number of leap days between the two dates: the Gregorian day distance minus the 365-day distance |
| DayNumbers.LeapDaysFromYearsFloor | smart_tm.cpp:282-295 | from year 1 on, the year-only count is a difference of floor closed forms |
| DayNumbers.FlatSecondsIsDays | smart_tm.cpp:237-239 | before wrap-around, `(b - a)·31536000 + leapDays(a, b)·86400` is 86400 times the days between January 1 of `a` and of `b` |
| DayNumbers.LeapCorrectionRestoresDayNumber | smart_tm.cpp:356-367 | after the year jump and the common-year month steps, taking off the leap days crossed since the first of the starting month gives back the original Gregorian day number |
| DayNumbers.NumSecondsBetweenEpochsIsDays | smart_tm.cpp:237-239 | for `1 <= a <= b <= 9999` the seconds between the epochs are 86400 times the days between them |
| DayNumbers.NumSecondsBetweenEpochsWraps | smart_tm.cpp:237-239 | for a later start year the unsigned result wraps: 2^64 minus the seconds back |
| DayNumbers.NumSecondsBetweenEpochsExamples | smart_tm.cpp:237-239 | 0 from 1900 to 1900; 2208988800 from 1900 to 1970; 3155673600 from 1900 to 2000 |
| EpochCount.MinuteNumberOfDate | smart_tm.h:262-266 | a real minute lies on a valid date, inside that day's 1440 minutes |
| EpochCount.MinuteNumberOrder | smart_tm.h:271-285 | on real minutes the minute number orders as `<` orders the minute fields (both directions), and equal numbers mean the same minute |
| EpochCount.CountAtLeapMinute | smart_tm.cpp:217-235 | on a consistent table a real minute holds one entry if it is 61 seconds long and none otherwise |
| EpochCount.MinuteLength | smart_tm.cpp:231-235 | on the line of minutes each minute is as long as `numSecondsOfMinute` says |
| EpochCount.MinuteStartGrows | smart_tm.cpp:231-235 | minutes last at least 60 seconds, so minute starts grow at least 60 seconds per minute |
| EpochCount.PassedIsEarlierMinute | smart_tm.cpp:272 | for an entry at second 60 and an instant at second at most 60, the entry is passed exactly when its minute is earlier |
| EpochCount.PassedEntriesAreEarlier | smart_tm.cpp:269-276 | the leap seconds an instant has passed are the table entries in earlier minutes |
| EpochCount.FlatPartIsDays | smart_tm.cpp:241-262 | without the leap seconds and the second, `toEpoch` counts 60 seconds for every minute since the epoch |
| EpochCount.EpochSecondsIsElapsed | smart_tm.cpp:241-262 | from year 1 on, for a real minute and a second at most 60, `toEpoch` is the position on the line of minutes of 60 or 61 seconds |
| EpochCount.NothingBeforeEpoch | smart_tm.cpp:241-262 | no well-formed entry lies in a minute before the epoch |
| EpochCount.EpochIsZero | smart_tm.cpp:241-262 | `toEpoch` of the epoch instant is 0 when no entry precedes it |
| EpochCount.ElapsedOfEpoch | smart_tm.cpp:155-160 | the epoch is position 0 on the counter |
| EpochCount.ElapsedFromEpoch | smart_tm.cpp:155-160 | second `n` of the epoch's first minute is position `n` |
| EpochCount.ElapsedNonNegative | smart_tm.cpp:34-35 | instants in or after the epoch year with a non-negative second are at a non-negative position |
| EpochCount.InsideMinute | smart_tm.h:267 | a second in range lies inside its own minute on the line |
| EpochCount.ElapsedStrictlyMonotone | smart_tm.cpp:21-26 | instants in range that differ second for second are at positions ordered as `<` orders them |
| EpochCount.EarlierMinuteEarlierPosition | smart_tm.cpp:21-26 | any second of an earlier minute comes before any second of a later one |
| EpochCount.ElapsedInjective | smart_tm.cpp:28-29 | instants in range at the same position are equal second for second |
| EpochCount.EpochSecondsStrictlyMonotone | smart_tm.cpp:21-26 | from year 1 on, `toEpoch` strictly increases along `<` on instants that differ second for second |
| EpochCount.CountWithinIsCountBetween | smart_tm.cpp:466-470 | when the deltas in an interval are exactly those of the minutes `k0` to `k1 - 1`, the walk counts the entries in those minutes |
| EpochCount.DeltaIsLastSecond | smart_tm.cpp:107-115 | on a consistent table each delta is second 60 of its entry's minute and the second just before the next minute |
| EpochCount.DeltaIsSecondSixty | smart_tm.cpp:107-115 | on a consistent table each delta is second 60 of its entry's minute |
| EpochCount.LeapMinuteLength | smart_tm.cpp:107-115 | each tabulated minute lasts 61 seconds on the line |
| EpochCount.EpochOnTheLine | smart_tm.cpp:241-262 | from year 1 on, `toEpoch` of a second at most 60 of a real minute is that minute's start plus the second |
| EpochCount.WellFormedDeltas | smart_tm.cpp:107-115 | on a consistent table every delta is the last second of its entry's minute |
| EpochCount.LeapSecondsCrossed | smart_tm.cpp:414-417 | walking from the start of minute `k0` to a typical second of a later minute `k1` crosses exactly the entries of minutes `k0` to `k1 - 1` |
| EpochCount.WalkedCountsBetween | smart_tm.cpp:464-470 | a forward walk over exactly the deltas of minutes `k0` to `k1 - 1` counts those entries |
| EpochCount.DeltasInSpan | smart_tm.cpp:414-417 | the deltas in the walked span are exactly those of the minutes passed |
| EpochCount.DeltaWithin | smart_tm.cpp:414-417 | a single delta lies in the walked span exactly when its minute was passed |
| EpochCount.LeapSecondsCrossedBack | smart_tm.cpp:414-417 | walking back from the start of minute `k0` to a typical second of an earlier minute `k1` gives minus the number of entries of minutes `k1` to `k0 - 1` |
| EpochCount.DeltasInSpanBack | smart_tm.cpp:471-475 | the deltas in the span walked back are exactly those of the minutes gone back over |
| EpochCount.DeltaWithinBack | smart_tm.cpp:471-475 | a single delta lies in the span walked back exactly when its minute was gone back over |
| EpochCount.CoarseCarryKeepsElapsed | smart_tm.cpp:400-419 | carrying whole typical minutes out of a second of at least 60, then taking off the leap seconds walked through, keeps the position and moves to a later minute |
| EpochCount.CoarseCarryOnTheLine | smart_tm.cpp:408-417 | the same step with both conversions read off the line |
| EpochCount.CoarseCarryKeepsPosition | smart_tm.cpp:400-419 | inside the domain, the coarse carry from a second of at least 60 or below 0 keeps the position and stays at or after the epoch minute; forward it moves to a later minute, back it leaves a non-negative second |
| EpochCount.CoarseCarryBackKeepsElapsed | smart_tm.cpp:400-419 | carrying whole typical minutes back out of a negative second, then putting back the leap seconds walked through, keeps the position and leaves a non-negative second |
| EpochCount.CoarseCarryBackOnTheLine | smart_tm.cpp:408-417 | the backward step with both conversions read off the line |
| EpochCount.CarryAlongTheLine | smart_tm.cpp:408-417 | `c` minutes on, `60·c` seconds back, less the leap seconds of the minutes passed, is the same position |
| EpochCount.CoarseEpochsOnTheLine | smart_tm.cpp:400-414 | both conversions of the coarse phase are positions on the line |
| EpochCount.MinuteStartOnTheLine | smart_tm.cpp:400-403 | `toEpoch` at second 0 of a real minute from year 1 on is the start of that minute |
| EpochCount.LaterMinuteOnTheLine | smart_tm.cpp:413-414 | `toEpoch` at a typical second of a later real minute is its position on the line |
| EpochCount.ElapsedMovesWithSecond | smart_tm.cpp:158 | within one minute the position moves one for one with the second |
| EpochCount.RealCarry | smart_tm.cpp:440-442 | moving a whole number from the fraction to the second keeps their sum |
| EpochCount.SweepForwardStep | smart_tm.cpp:422-426 | leaving a minute by its actual length into the next minute keeps the position |
| EpochCount.ElapsedAfterWholeMinute | smart_tm.cpp:422-426 | entering the next minute less this minute's length is the same position |
| EpochCount.SweepForwardGuard | smart_tm.cpp:424-425 | from year 1 on, the carry of one more minute stays in year 1 or later |
| EpochCount.BackwardRoom | smart_tm.cpp:428-432 | a negative second at or after the start of minute `k0` lies in a later minute than `k0` |
| EpochCount.SweepBackwardStep | smart_tm.cpp:428-432 | entering the previous minute and adding its actual length keeps the position, the minute and the minute length |
| EpochCount.SweepBackwardGuard | smart_tm.cpp:428-432 | a backward step from at or after minute `k0` (year 1 on) leaves a minute above `k0` and stays in year 1 or later |
| EpochCount.YearOneByMinuteNumber | smart_tm.h:262-266 | a real minute is in year 1 or later exactly when its number is not below that of 0001-01-01 00:00 |
| EpochCount.EpochYearByMinuteNumber | smart_tm.h:34-35 | a real minute is in the epoch year or later exactly when its number is not below that of the epoch minute |
| EpochCount.EpochMinuteAfterYearOne | smart_tm.h:34-35 | with an epoch year of 1 or later, the epoch minute is not before 0001-01-01 00:00 |
| EpochCount.CarryFromEpochYearOne | smart_tm.cpp:400-414 | inside the second normaliser's domain the minute is in year 1 or later and the typical carry lands at or after the epoch minute |
| EpochCount.ForwardCarryFromEpoch | smart_tm.cpp:400-414 | a non-negative second of a real minute at or after the epoch minute is inside the second normaliser's domain |
| EpochCount.MinuteNumberShift | smart_tm.cpp:384-394 | with the larger fields equal, the minute number moves with the minute field |
| Normalizer.SmartTm.constructor | smart_tm.h:174-175 | the field constructor stores its seven arguments unchanged |
| Normalizer.SmartTm.AtEpoch | smart_tm.h:159 | the default constructor gives the epoch instant |
| Normalizer.SmartTm.SinceEpoch | smart_tm.cpp:155-160 | the result has every field but the year in range and no fraction; on a consistent table it is position `sinceEpoch` on the leap-inclusive counter |
| Normalizer.SmartTm.SinceEpochFrac | smart_tm.cpp:162-168 | every field but the year in range; on a consistent table and a non-negative fraction, position plus fraction is `sinceEpoch + fracSec` |
| Normalizer.MonthCarried | smart_tm.cpp:312-320 | the month ends in 1..12, `12·yr + mon` is kept, the other fields are untouched, and a month in range is left alone |
| Normalizer.EpochSecondInDomain | smart_tm.cpp:155-168 | a non-negative second and fraction in the epoch minute are in the domain on which `adjust` keeps the position |
| Normalizer.SmartTm.FixMon | smart_tm.cpp:312-320 | the new value is `MonthCarried` of the old one |
| Normalizer.SmartTm.StepMonNoLeapCorrection | smart_tm.cpp:322-334 | the day ends in 1..the common length of its month, the 365-day index is kept, the smaller fields are untouched, and a day already there is left alone |
| Normalizer.SmartTm.StepForwardMonNoLeapCorrection | smart_tm.cpp:323-327 | the forward loop ends with the day at most the common month length and keeps the 365-day index |
| Normalizer.SmartTm.StepBackMonNoLeapCorrection | smart_tm.cpp:329-333 | the backward loop ends with the day in 1..the common month length and keeps the 365-day index |
| Normalizer.SmartTm.StepMon | smart_tm.cpp:336-348 | the day ends in range for its month, the Gregorian day number is kept, the smaller fields are untouched, and a day in range is left alone |
| Normalizer.SmartTm.StepForwardMon | smart_tm.cpp:337-341 | the forward loop ends with the day at most the actual month length and keeps the day number |
| Normalizer.SmartTm.StepBackMon | smart_tm.cpp:343-347 | the backward loop ends with the day in range and keeps the day number |
| Normalizer.SmartTm.FixDay | smart_tm.cpp:350-370 | month and day end in range, the smaller fields are untouched, a day in range is left alone, and after year one the Gregorian day number is kept and the year ends at 1 or later |
| Normalizer.SmartTm.FixHr | smart_tm.cpp:372-382 | the hour ends in range (and the day when it was or the hour was not), minute and second are untouched, an hour in range is left alone, and when the carried day is after year one the hour number `24·days + hr` is kept and the year ends at 1 or later |
| Normalizer.SmartTm.FixMin | smart_tm.cpp:384-394 | the minute ends in range (and the hour and day when they were), second and fraction are untouched, a minute in range is left alone, and when the carried day is after year one the minute number is kept and the year ends at 1 or later |
| Normalizer.SmartTm.FixMinuteFields | smart_tm.cpp:452-455 | after the day, hour and minute stages the minute fields are in range, second and fraction untouched, fields already in range left alone, and on the minute stages' domain (`MinuteStagesFromYearOne`: negative hours and minutes only below fields in range) the minute number is kept from year 1 on |
| Normalizer.SmartTm.FixSec | smart_tm.cpp:396-433 | the second ends in range for its minute and the minute fields stay in range, a second in range is left alone, and on a consistent table, for a second positive or negative whose carry stays at or after the epoch (`SecondCarryFromEpoch`), the position on the counter is kept at or after the epoch minute |
| Normalizer.SmartTm.CarryTypicalMinutes | smart_tm.cpp:399-419 | carrying typical minutes and correcting for the leap seconds walked through keeps the minute fields in range; inside the domain, for a second of at least 60 or below 0, the position is kept, a forward carry moves to a later minute and a backward one leaves a non-negative second |
| Normalizer.SmartTm.MoveTypicalMinutes | smart_tm.cpp:399-413 | the counter is read at second 0 of the minute, the remainder of the second modulo 60 is kept, the minute fields end in range, and when the carried day is after year one the minute number grows by the floor of the second over 60 |
| Normalizer.SmartTm.TakeOffLeapSeconds | smart_tm.cpp:414-419 | the minute fields and fraction are untouched and the second loses exactly the leap seconds walked through between the first reading and the counter at the current value |
| Normalizer.SmartTm.ShiftMinutes | smart_tm.cpp:408-412 | adding `count` minutes and fixing the minute keeps the minute fields in range, second and fraction untouched, and when the carried day is after year one `count`, positive or negative, is added to the minute number |
| Normalizer.SmartTm.SweepForward | smart_tm.cpp:421-426 | the forward sweep ends below the minute's length, leaves a short enough second alone, keeps a non-negative second non-negative, and from year 1 on keeps the position |
| Normalizer.SmartTm.StepForwardOneMinute | smart_tm.cpp:422-426 | one forward step lowers the second, leaves it non-negative and keeps the position |
| Normalizer.SmartTm.SweepBackward | smart_tm.cpp:428-432 | the backward sweep ends with the second in range, leaves a non-negative second alone, and on a consistent table keeps a position that lies at or after the start of a minute `k0` of year 1 or later |
| Normalizer.SmartTm.StepBackOneMinute | smart_tm.cpp:428-432 | one backward step raises the second, keeps it below the new minute's length and keeps the position |
| Normalizer.SmartTm.FixFracSec | smart_tm.cpp:435-445 | the fraction ends in [0, 1) and the second in range, a fraction in range is left alone, and on a consistent table, when the carried second (a negative fraction included) stays inside the second normaliser's domain, position plus fraction is kept |
| Normalizer.SmartTm.Adjust | smart_tm.cpp:447-458 | every field but the year ends in range, a valid value (or one with those fields already in range) is left alone, and on a consistent table, inside the domain `AdjustFromEpoch` (carries into any field; a negative second only below minute fields in range; a negative fraction only when the second and the minute fields are in range; nothing before the epoch), position plus fraction of the month-carried value is kept |
| Normalizer.AdjustDomainAfterMinutes | smart_tm.cpp:452-457 | after the minute stages, the domain of `adjust` is the domain of the second stages |
| Normalizer.SmartTm.FixSecondFields | smart_tm.cpp:456-457 | after the second and fraction stages every field but the year is in range, fields in range are left alone, and on their domain second plus fraction keeps its position |
| Normalizer.SecondStagesAfterSec | smart_tm.cpp:435-445 | after the second stage, the carry of the fraction's whole part stays inside the second normaliser's domain |
| Normalizer.SmartTm.ToEpoch | smart_tm.cpp:241-262 | the loop and the sum compute the leap-inclusive count `EpochSeconds`, whose meaning the lemmas of `EpochCount` state |
| Normalizer.SmartTm.ToEpochFrac | smart_tm.cpp:264-267 | the count and the fraction are handed back separately |
| Normalizer.Difference | smart_tm.h:291-295 | `operator-` is the difference of the two counts plus the difference of the fractions |
| LeapTable.Accepted | smart_tm.cpp:107 | the kept offsets are at most as many as read, and an offset is kept exactly when it is greater than the threshold |
| LeapTable.AcceptedAppend | smart_tm.cpp:97-117 | filtering a list in two pieces gives the two filtered pieces in order |
| LeapTable.AcceptedAll | smart_tm.cpp:107 | when every offset is after the threshold, every offset is kept, in order |
| LeapTable.RebasedDeltas | smart_tm.cpp:108 | one delta per kept offset |
| LeapTable.RebasedDeltaAt | smart_tm.cpp:108 | the `i`-th delta is the `i`-th kept offset less the epoch offset plus `i`, on `size_t` |
| LeapTable.LeapInstant | smart_tm.cpp:109-115 | a stored instant is a real minute with a second in 1..61 and no fraction |
| LeapTable.Init | smart_tm.cpp:75-124 | the system is marked initialised with the new epoch year; there is one entry and one delta per offset greater than the seconds from 1900 to the new epoch; the deltas are re-based and shifted; every entry is a real minute with a second in 1..61 and no fraction |
| LeapTable.BuildTable | smart_tm.cpp:84-117 | the loop stores one entry per kept offset and the re-based, shifted deltas; every entry is a real minute with a second in 1..61 and no fraction |
| Guarantees.EpochRoundTrip | smart_tm.cpp:28-29 | on a consistent table, `toEpoch` of a valid instant is not negative, and constructing from it gives the instant back second for second |
| Guarantees.EpochSecondsInjective | smart_tm.cpp:28-29 | valid instants with the same count are equal second for second |
| Guarantees.AdjustIsIdempotent | smart_tm.cpp:447-462 | after `adjust` every field but the year is in range, and a second `adjust` changes nothing |
| Guarantees.AdjustToPosition | smart_tm.h:214-217 | `adjust` of a value in the first case of `AdjustFromEpoch` (month in range, `MinuteStagesFromYearOne`, a minute not before the epoch minute, a non-negative second) with no fraction gives the one instant with every field but the year in range at the same position |
| Guarantees.RealMinuteFromEpoch | smart_tm.h:34-35 | a real minute from the epoch year on is kept by the minute stages and is not before the epoch minute |
| Guarantees.SixtyIsNextMinute | smart_tm.h:203-208 | second 60 of a 60-second minute is second 0 of the next minute |
| Guarantees.AdjustSixty | smart_tm.h:203-212 | `adjust` of second 60 of a 60-second minute from the epoch year on gives second 0 of the next minute |
| Guarantees.AdjustSixtyOne | smart_tm.cpp:396-433 | in a minute holding a tabulated leap second, `adjust` of second 61 gives second 0 of the next minute |
| Guarantees.AdjustAcrossLeapSecond | smart_tm.cpp:396-433 | with the leap second of 2016-12-31 tabulated, 23:59:60 is left alone and 23:59:61 becomes 2017-01-01 00:00:00 |
| Guarantees.AdjustIntoNextMinute | smart_tm.h:203-208 | 02:02:59 plus one second, adjusted, is 02:03:00 of the same day (from the epoch year on) when that minute holds no leap second |
| Guarantees.AdjustIntoNextYear | smart_tm.h:210-212 | 2013-12-31 23:59:60, adjusted, is 2014-01-01 00:00:00 when that minute holds no leap second |
| Guarantees.NewYearIsNextMinute | smart_tm.h:210-212 | 00:00 of January 1 is the minute after 23:59 of the previous December 31 |
| Guarantees.AdjustLeapDayOfCommonYear | smart_tm.cpp:350-370 | 2019-02-29, adjusted, is 2019-03-01 |
| Guarantees.AdjustTwoHundredSeconds | smart_tm.cpp:396-433 | 2012-03-05 14:30 with 200 in the second field, adjusted, is 14:33:20 when none of the minutes 14:30 to 14:32 holds a leap second |
| Guarantees.AdjustBackOneSecond | smart_tm.h:214-217 | 2012-03-05 14:30 with -1 in the second field, adjusted, is 14:29:59 when 14:29 holds no leap second |
| Guarantees.BackOneSecondInDomain | smart_tm.h:214-217 | that value is inside the domain of `adjust` and sits at the position of 14:29:59 |
| Guarantees.AdjustBackOneHour | smart_tm.h:214-217 | 2012-03-05 with -1 in the hour field, adjusted, is 23:00 of March 4 |
| Guarantees.ThreeTypicalMinutes | smart_tm.cpp:231-235 | three consecutive minutes without a leap second take 180 seconds of the line |
| Guarantees.DifferenceAntisymmetric | smart_tm.h:291-295 | swapping the operands of `operator-` negates the difference |
| Guarantees.DifferenceOrders | smart_tm.h:291-295 | on valid instants and a consistent table, the difference is negative exactly when the left operand comes first |
| Guarantees.DifferenceSign | smart_tm.h:291-295 | the integral and fractional differences are negative together exactly when `a < b` |
| Guarantees.EpochSecondsAgree | smart_tm.cpp:241-262 | valid instants equal second for second have the same count |
| Guarantees.LessAntisymmetricCase | smart_tm.h:271-285 | if `b < a` then not `a < b` |

## Left out

- FileIO.cpp and FileIO.h, and the file handling of `init` (opening the stream, the open-failure message, `strtoull`): `init` takes the raw offsets as a sequence of naturals below 2^64.
- `checkInit`, `dateToString`, `timeToString`, `toString` and `operator<<`: console output and formatting only.
- The two `struct tm` constructors: they only add 1900 to the year and 1 to the month of the host structure.
- UTC_MET.h is not part of this model: only its declaration is available.
- Floating point: `fracSec` is a `real`. `floor` of a double in `fixFracSec` is `.Floor`, and `operator-` is exact real arithmetic, without double rounding.
- The casts through `double` in the `count` computations of `fixMon`, `fixDay`, `fixHr`, `fixMin` and `fixSec` are exact: floor division for the floored ones and `TruncDiv` (toward zero) for `fixDay`. Rounding of very large values is not modelled.
- Integer widths: `long long` fields and `size_t` counts are unbounded integers. `numSecondsBetweenEpochs` and the deltas `init` stores are taken modulo 2^64, because those values are stored as `size_t`. `toEpoch` of an instant before the epoch is a negative integer, whereas the original wraps it around as `size_t`. The model of `adjust` therefore differs from the original on instants before the epoch, where the original's leap-second correction compares wrapped counts, and no position is claimed there. The year parameters of `numSecondsBetweenEpochs` are naturals.
- Normalizer.SmartTm.ToEpoch requires a month of at most 13: the month loop reads the common-year table, which a larger month would overrun.
- Normalizer.SmartTm.FixSec: the position on the counter is proved kept only inside `SecondCarryFromEpoch`: the minute and the minute the typical carry lands in are at or after the epoch minute. Outside it the original's two `toEpoch` calls wrap around as `size_t`, and the leap-second correction compares wrapped values. The model's unbounded `toEpoch` does not reproduce that, so there only the ranges are proved.
- Normalizer.SmartTm.FixFracSec: the same domain, for the second with the fraction's whole part carried in.
- Normalizer.SmartTm.Adjust: the position is proved kept inside `AdjustFromEpoch`. The day, hour and minute fields may carry, and a negative hour or minute is covered only when the fields above it are in range. A negative second is covered only when the minute fields are in range, and a negative fraction only when the second and the minute fields are in range. With a negative second below out-of-range minute fields, or a negative fraction below an out-of-range second, the later stage starts from a value that only the earlier stages compute, and its domain would have to be stated on that value. Outside the domain only the ranges are proved. Like the original, `adjust` does not bring the year into `[epoch year, 9999]`, so its result is `FieldsInLimits` rather than `isValid`.
- The exactness clauses of `FixDay`, `FixHr`, `FixMin`, `ShiftMinutes`, the sweeps and the month loops carry the guard `AfterYearOne`. The day normaliser's 365-day year jump goes through positions whose truncating year estimate must not go before year 1, because below year 1 the closed form `y/4 + y/400 - y/100` no longer counts leap years. Composed over the day, hour and minute stages (`MinuteStagesFromYearOne`), the guard leaves out a negative hour below an out-of-range day, and a negative minute below an out-of-range day or hour. The sweeps call no `toEpoch`, so no epoch bound applies to them.
- LeapTable.Init, LeapTable.BuildTable, LeapTable.LeapInstant: the stored entries are proved to be real minutes with a second in 1..61, not second 60. Their second is what `adjust` gives for the raw offset. That this is 60, and that the table `init` builds is `WellFormed`, depends on the offsets of the leap file and is not proved.
- LeapTable.Init, LeapTable.BuildTable, LeapTable.LeapInstant: the conversion of each leap second runs under the epoch year in force before the call, with the partly built tables and the new delta already pushed, exactly as in the loop. The new epoch year is recorded only after the loop.
- Guarantees.EpochRoundTrip and the other results about positions assume a consistent table (`EpochCount.WellFormed`) and an epoch year of 1 or later.
- `fixSec` and `stepMon` and `stepMonNoLeapCorrection` are split into helper methods (`CarryTypicalMinutes`, `MoveTypicalMinutes`, `TakeOffLeapSeconds`, `ShiftMinutes`, the sweep steps, the forward and backward month loops), and `init` into `BuildTable` and `LeapInstant`. They run the same statements in the same order, except that `addSec` loses its whole minutes before `min` is moved rather than after, which touches no shared state.
