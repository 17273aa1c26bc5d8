/** The fixed units and field bounds of the Smart Time System. */
module Units {

  const DefaultEpochYear: int := 1900

  const MonthsPerYear: int := 12
  const HoursPerDay: int := 24
  const MinutesPerHour: int := 60
  /** A minute has 60 seconds unless a leap second is inserted into it. */
  const TypicalSecondsPerMinute: int := 60

  const SecondsPerHour: int := 3600
  const SecondsPerDay: int := 86400
  const SecondsPerYear: int := 31536000

  /** A year has 365 days unless it is a Gregorian leap year. */
  const TypicalDaysPerYear: int := 365

  const StartMon: int := 1
  const StartDay: int := 1
  const StartHr: int := 0
  const StartMin: int := 0
  const StartSec: int := 0
  const StartFracSec: real := 0.0

  const EndYr: int := 9999
  const EndMon: int := 12
  const EndHr: int := 23
  const EndMin: int := 59
  const EndFracSec: real := 1.0

  /** The per-unit second counts agree with each other. */
  lemma UnitsConsistent()
    ensures SecondsPerHour == MinutesPerHour * TypicalSecondsPerMinute
    ensures SecondsPerDay == HoursPerDay * SecondsPerHour
    ensures SecondsPerYear == TypicalDaysPerYear * SecondsPerDay
  {
  }
}
