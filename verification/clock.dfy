/**
 * The wall clock. A `new Date()` becomes an explicit `Instant`: the local
 * weekday (`getDay()`, 0 = Sunday) and the milliseconds since local
 * midnight. Daylight-saving transitions are not modelled, so every day
 * has exactly `DayMs` milliseconds.
 */
module Clock {

  const MinuteMs := 60_000
  const HourMs := 3_600_000
  const DayMs := 86_400_000
  const MinutesPerDay := 1440

  type Weekday = d: int | 0 <= d < 7
  type DayTime = t: int | 0 <= t < 86_400_000

  datatype Instant = Instant(day: Weekday, ms: DayTime)

  /** `now.getHours()`. */
  function Hours(now: Instant): int { now.ms / HourMs }

  /** `now.getMinutes()`. */
  function Minutes(now: Instant): int { now.ms / MinuteMs % 60 }

  /** `now.getHours() * 60 + now.getMinutes()`: the minute of the day, seconds dropped. */
  function MinuteOfDay(now: Instant): (m: int)
    ensures 0 <= m < MinutesPerDay
    ensures m == now.ms / MinuteMs
    ensures m * MinuteMs <= now.ms < m * MinuteMs + MinuteMs
  {
    Hours(now) * 60 + Minutes(now)
  }
}
