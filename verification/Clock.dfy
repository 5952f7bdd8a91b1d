/** Times of day, which may reach into the next day (time/expr.rs). */
module Clocks {
  const TICKS_PER_SECOND: int := 1_000
  const TICKS_PER_MINUTE: int := 60_000
  const TICKS_PER_HOUR: int := 3_600_000
  const TICKS_PER_DAY: int := 86_400_000

  datatype Precision = Hour | Minute | Second | Millisecond

  datatype PartOfDay = Predawn | Morning | Am | Noon | Pm | Evening | Night | LateNight

  datatype Clock = At(hour: nat, minute: nat, second: nat, millis: nat, precision: Precision) | Part(part: PartOfDay)

  /** The hours of a part of the day; beyond 24 they lie in the next day. */
  function Hours(part: PartOfDay): (int, int) {
    match part
    case Predawn => (0, 5)
    case Morning => (5, 10)
    case Am => (0, 12)
    case Noon => (11, 14)
    case Pm => (12, 24)
    case Evening => (16, 19)
    case Night => (18, 24)
    case LateNight => (22, 27)
  }

  function LengthOf(precision: Precision): int {
    match precision
    case Hour => TICKS_PER_HOUR
    case Minute => TICKS_PER_MINUTE
    case Second => TICKS_PER_SECOND
    case Millisecond => 1
  }

  /** The offset from the start of the day and the length. */
  function OffsetAndLen(clock: Clock): (int, int) {
    match clock
    case At(h, m, s, ms, precision) =>
      (h * TICKS_PER_HOUR + m * TICKS_PER_MINUTE + s * TICKS_PER_SECOND + ms, LengthOf(precision))
    case Part(part) => (Hours(part).0 * TICKS_PER_HOUR, (Hours(part).1 - Hours(part).0) * TICKS_PER_HOUR)
  }

  /** What parsing lets through. */
  predicate ValidClock(clock: Clock) {
    clock.At? ==> clock.hour <= 47 && clock.minute <= 59 && clock.second <= 60 && clock.millis <= 999
  }
}
