/** `src/utils/schedule.rs`: the backup intervals the tool knows, in seconds. */
module Scheduling {
  const MINUTE := 60
  const HOUR := 60 * MINUTE
  const DAY := 24 * HOUR

  datatype Schedule =
    | OneMonth
    | SevenDays
    | SixDays
    | OneDay
    | TwelveHours
    | OneHour
    | ThirtyMinutes
    | OneMinute
  {
    /** `to_duration`, in whole seconds. */
    function ToDuration(): (secs: nat)
      ensures secs > 0 && secs % MINUTE == 0
    {
      match this
      case OneMonth => 30 * DAY
      case SevenDays => 7 * DAY
      case SixDays => 6 * DAY
      case OneDay => DAY
      case TwelveHours => 12 * HOUR
      case OneHour => HOUR
      case ThirtyMinutes => 30 * MINUTE
      case OneMinute => MINUTE
    }

    /** Position in declaration order. */
    function Rank(): nat {
      match this
      case OneMonth => 0
      case SevenDays => 1
      case SixDays => 2
      case OneDay => 3
      case TwelveHours => 4
      case OneHour => 5
      case ThirtyMinutes => 6
      case OneMinute => 7
    }
  }

  /** The table in numbers. */
  lemma DurationTable()
    ensures OneMonth.ToDuration() == 2592000
    ensures SevenDays.ToDuration() == 604800
    ensures SixDays.ToDuration() == 518400
    ensures OneDay.ToDuration() == 86400
    ensures TwelveHours.ToDuration() == 43200
    ensures OneHour.ToDuration() == 3600
    ensures ThirtyMinutes.ToDuration() == 1800
    ensures OneMinute.ToDuration() == 60
  {
  }

  /** Later variants are strictly shorter, so no two share a duration. */
  lemma DurationDecreasing(a: Schedule, b: Schedule)
    requires a.Rank() < b.Rank()
    ensures a.ToDuration() > b.ToDuration()
  {
  }

  lemma DurationInjective(a: Schedule, b: Schedule)
    requires a.ToDuration() == b.ToDuration()
    ensures a == b
  {
    if a.Rank() < b.Rank() {
      DurationDecreasing(a, b);
    } else if b.Rank() < a.Rank() {
      DurationDecreasing(b, a);
    }
  }
}
