/** Operations on fuzzy ranges as an abstract domain: what they keep, and that they lose no concrete
  * interval (time/range.rs).
  */
module Ranges {
  import opened Wrappers
  import opened TimeRange

  function Min(a: int, b: int): int { if a <= b then a else b }

  function Max(a: int, b: int): int { if a >= b then a else b }

  /** Addition that keeps infinities and stays clear of them. */
  function Offset(t: int, delta: int): int {
    if !IsFinite(t) then t else Max(NEG_INF + 1, Min(POS_INF - 1, t + delta))
  }

  /** The bounds in increasing order. */
  function Sorted(r: FuzzyRange): FuzzyRange {
    FuzzyRange(Min(r.earliestStart, r.latestStart), Max(r.earliestStart, r.latestStart),
               Min(r.earliestEnd, r.latestEnd), Max(r.earliestEnd, r.latestEnd))
  }

  function Normalized(r: FuzzyRange): FuzzyRange {
    var s := Sorted(r);
    s.(latestStart := Min(s.latestStart, s.latestEnd), earliestEnd := Max(s.earliestEnd, s.earliestStart))
  }

  /** `normalized`, which swaps and clamps the fields of its copy. */
  method Normalize(range: FuzzyRange) returns (r: FuzzyRange)
    ensures r == Normalized(range)
  {
    r := range;
    if r.earliestStart > r.latestStart {
      r := r.(earliestStart := r.latestStart, latestStart := r.earliestStart);
    }
    if r.earliestEnd > r.latestEnd {
      r := r.(earliestEnd := r.latestEnd, latestEnd := r.earliestEnd);
    }
    if r.latestStart > r.latestEnd {
      r := r.(latestStart := r.latestEnd);
    }
    if r.earliestEnd < r.earliestStart {
      r := r.(earliestEnd := r.earliestStart);
    }
  }

  function Within(a: int, b: int): FuzzyRange {
    Normalized(FuzzyRange(a, b, a, b))
  }

  const UNKNOWN: FuzzyRange := Within(NEG_INF, POS_INF)

  function Shift(r: FuzzyRange, minDelta: int, maxDelta: int): FuzzyRange {
    Normalized(FuzzyRange(Offset(r.earliestStart, minDelta), Offset(r.latestStart, maxDelta),
                          Offset(r.earliestEnd, minDelta), Offset(r.latestEnd, maxDelta)))
  }

  function Widen(r: FuzzyRange, fuzz: int): FuzzyRange {
    Normalized(FuzzyRange(Offset(r.earliestStart, -fuzz), Offset(r.latestStart, fuzz),
                          Offset(r.earliestEnd, -fuzz), Offset(r.latestEnd, fuzz)))
  }

  function Hull(a: FuzzyRange, b: FuzzyRange): FuzzyRange {
    Normalized(FuzzyRange(Min(a.earliestStart, b.earliestStart), Max(a.latestStart, b.latestStart),
                          Min(a.earliestEnd, b.earliestEnd), Max(a.latestEnd, b.latestEnd)))
  }

  function Width(r: FuzzyRange): Option<int> {
    if IsFinite(r.earliestStart) && IsFinite(r.latestEnd) then Some(Min(POS_INF, r.latestEnd - r.earliestStart))
      else None
  }

  // ------------------------------------------------------------ the invariant

  predicate IsOrdered(r: FuzzyRange) {
    r.earliestStart <= r.latestStart <= r.latestEnd && r.earliestStart <= r.earliestEnd <= r.latestEnd
  }

  /** Normalising reaches the invariant exactly when the least start is no later than the greatest end. */
  lemma NormalizedOrdered(r: FuzzyRange)
    ensures IsOrdered(Normalized(r)) <==> Min(r.earliestStart, r.latestStart) <= Max(r.earliestEnd, r.latestEnd)
    ensures IsOrdered(r) ==> Normalized(r) == r
  {}

  // ------------------------------------------------------------ concrete intervals

  /** An interval of ticks that is not empty and has no infinite end. */
  predicate Concrete(s: int, e: int) {
    NEG_INF < s < e < POS_INF
  }

  predicate Contains(r: FuzzyRange, s: int, e: int) {
    r.earliestStart <= s <= r.latestStart && r.earliestEnd <= e <= r.latestEnd
  }

  /** Normalising only sorts the bounds and cuts off what no interval reaches. */
  lemma NormalizedKeeps(r: FuzzyRange, s: int, e: int)
    requires s <= e
    ensures Contains(Normalized(r), s, e) <==> Contains(Sorted(r), s, e)
  {}

  /** An ordered range holds exactly the intervals whose ends it allows, and at least one unless it ends where it
    * starts.
    */
  lemma OrderedInhabited(r: FuzzyRange)
    requires IsOrdered(r) && r.earliestStart > NEG_INF && r.latestEnd < POS_INF
    ensures (exists s, e :: Concrete(s, e) && Contains(r, s, e)) <==> r.earliestStart < r.latestEnd
  {
    if r.earliestStart < r.latestEnd {
      assert Concrete(r.earliestStart, r.latestEnd) && Contains(r, r.earliestStart, r.latestEnd);
    }
  }

  lemma OffsetMonotone(a: int, s: int, low: int, delta: int)
    requires a <= s && low <= delta && NEG_INF <= a && NEG_INF < s < POS_INF && NEG_INF < s + delta < POS_INF
    ensures Offset(a, low) <= s + delta
  {}

  lemma OffsetMonotoneUp(a: int, s: int, high: int, delta: int)
    requires s <= a && delta <= high && a <= POS_INF && NEG_INF < s < POS_INF && NEG_INF < s + delta < POS_INF
    ensures s + delta <= Offset(a, high)
  {}

  predicate Bounded(r: FuzzyRange) {
    NEG_INF <= r.earliestStart && r.latestEnd <= POS_INF && r.earliestStart < POS_INF && r.latestEnd > NEG_INF
  }

  /** Shifting by anything between the offsets stays in the shifted range. */
  lemma ShiftSound(r: FuzzyRange, minDelta: int, maxDelta: int, s: int, e: int, delta: int)
    requires IsOrdered(r) && Bounded(r) && Concrete(s, e) && Contains(r, s, e)
    requires minDelta <= delta <= maxDelta && Concrete(s + delta, e + delta)
    ensures Contains(Shift(r, minDelta, maxDelta), s + delta, e + delta)
  {
    OffsetMonotone(r.earliestStart, s, minDelta, delta);
    OffsetMonotoneUp(r.latestStart, s, maxDelta, delta);
    OffsetMonotone(r.earliestEnd, e, minDelta, delta);
    OffsetMonotoneUp(r.latestEnd, e, maxDelta, delta);
  }

  /** Moving the start and the end by up to the fuzz, each on its own, stays in the widened range. */
  lemma WidenSound(r: FuzzyRange, fuzz: int, s: int, e: int, ds: int, de: int)
    requires IsOrdered(r) && Bounded(r) && Concrete(s, e) && Contains(r, s, e)
    requires -fuzz <= ds <= fuzz && -fuzz <= de <= fuzz && Concrete(s + ds, e + de)
    ensures Contains(Widen(r, fuzz), s + ds, e + de)
  {
    OffsetMonotone(r.earliestStart, s, -fuzz, ds);
    OffsetMonotoneUp(r.latestStart, s, fuzz, ds);
    OffsetMonotone(r.earliestEnd, e, -fuzz, de);
    OffsetMonotoneUp(r.latestEnd, e, fuzz, de);
  }

  lemma HullSound(a: FuzzyRange, b: FuzzyRange, s: int, e: int)
    requires s <= e && (Contains(a, s, e) || Contains(b, s, e))
    ensures Contains(Hull(a, b), s, e)
  {}

  /** Every interval of `r`, instants included, is one of `c`. */
  ghost predicate Holds(c: FuzzyRange, r: FuzzyRange) {
    forall s, e | s <= e && Contains(r, s, e) :: Contains(c, s, e)
  }

  /** The hull is the least range that holds both. */
  lemma HullLeast(a: FuzzyRange, b: FuzzyRange, c: FuzzyRange)
    requires IsOrdered(a) && IsOrdered(b)
    ensures Holds(c, Hull(a, b)) <==> Holds(c, a) && Holds(c, b)
  {
    forall r | r in [a, b] ensures Contains(r, r.earliestStart, r.latestEnd) &&
      Contains(r, r.latestStart, r.latestEnd) &&
      Contains(r, r.earliestStart, r.earliestEnd) {}
    if Holds(c, Hull(a, b)) {
      forall s, e | s <= e && (Contains(a, s, e) || Contains(b, s, e)) ensures Contains(c, s, e) {
        HullSound(a, b, s, e);
      }
    }
  }

  /** Moving an ordered range by ordered offsets keeps it ordered and clear of the far ends. */
  lemma ShiftOrdered(r: FuzzyRange, minDelta: int, maxDelta: int)
    requires IsOrdered(r) && Bounded(r) && minDelta <= maxDelta
    ensures IsOrdered(Shift(r, minDelta, maxDelta)) && Bounded(Shift(r, minDelta, maxDelta))
  {}

  // ------------------------------------------------------------ windows

  predicate PossiblyOverlaps(r: FuzzyRange, qs: int, qe: int) {
    r.earliestStart < qe && r.latestEnd > qs
  }

  predicate CertainlyOverlaps(r: FuzzyRange, qs: int, qe: int) {
    r.latestStart < qe && r.earliestEnd > qs
  }

  predicate Meets(s: int, e: int, qs: int, qe: int) {
    s < qe && e > qs
  }

  /** Possibly means for some interval of the range, and certainly means for all of them. */
  lemma OverlapsExact(r: FuzzyRange, qs: int, qe: int)
    requires IsOrdered(r)
    ensures PossiblyOverlaps(r, qs, qe) <==> exists s, e :: s <= e && Contains(r, s, e) && Meets(s, e, qs, qe)
    ensures CertainlyOverlaps(r, qs, qe) <==> forall s, e | s <= e && Contains(r, s, e) :: Meets(s, e, qs, qe)
  {
    assert Contains(r, r.earliestStart, r.latestEnd);
    assert Contains(r, r.latestStart, r.latestEnd);
    assert Contains(r, r.earliestStart, r.earliestEnd);
  }
}
