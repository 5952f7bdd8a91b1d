/** Fuzzy ranges: intervals of which only bounds on the start and on the end are known (time/range.rs). */
module TimeRange {
  /** The 64-bit ends of the axis stand for minus and plus infinity. */
  const NEG_INF: int := -0x8000_0000_0000_0000
  const POS_INF: int := 0x7FFF_FFFF_FFFF_FFFF

  /** The value fits 64 bits. */
  predicate Fits(x: int) {
    NEG_INF <= x <= POS_INF
  }

  predicate IsFinite(t: int) { t != NEG_INF && t != POS_INF }

  /** The start lies in `[earliestStart, latestStart]` and the end in `[earliestEnd, latestEnd]`. */
  datatype FuzzyRange = FuzzyRange(earliestStart: int, latestStart: int, earliestEnd: int, latestEnd: int)
}
