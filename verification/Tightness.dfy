/** Resolving is tight: every start, every end and every time in between that the resolved range offers belongs to an
  * interval that the expression allows (time/resolve.rs).
  */
module Tightness {
  import opened Wrappers
  import opened TimeRange
  import opened Ranges
  import opened Resolver

  // ------------------------------------------------------------ windows

  /** Of a window the resolved range holds nothing but what the window allows. */
  lemma WindowExact(ctx: Context, window: Window, s: int, e: int)
    requires WellPosed(ctx, InWindow(window)) && window.Bounds? && Concrete(s, e)
    ensures Contains(Resolve(ctx, InWindow(window)).range, s, e) <==> Allows(ctx, InWindow(window), s, e)
  {
    WindowReasonable(window.start, window.end, window.calendarUncertain);
  }

  /** What lies between the greatest end before and the least start after is allowed, and nothing else. */
  lemma BetweenExact(ctx: Context, after: seq<Anchor>, before: seq<Anchor>, s: int, e: int)
    requires WellPosed(ctx, Between(after, before)) && AnchorsOpen(ctx) && Concrete(s, e)
    requires ResolveBetween(ctx, after, before).Resolved?
    ensures Contains(ResolveBetween(ctx, after, before).range, s, e) <==> Allows(ctx, Between(after, before), s, e)
  {
    hide AnchorsOpen, AllResolved, MayEndBy, MayStartAt;
    NoneFailed(ctx, after);
    NoneFailed(ctx, before);
    LatestEndRange(ctx, after);
    EarliestStartRange(ctx, before);
    if Contains(ResolveBetween(ctx, after, before).range, s, e) {
      LatestEndReached(ctx, after, s);
      EarliestStartReached(ctx, before, e);
    }
    if Allows(ctx, Between(after, before), s, e) { BetweenSound(ctx, after, before, s, e); }
  }

  // ------------------------------------------------------------ away from the ends of the axis

  function Low(k: int): int { NEG_INF + 1 + k }

  function High(k: int): int { POS_INF - 1 - k }

  /** The bound is infinite or has `k` ticks to the ends of the axis. */
  predicate ClearBound(t: int, k: int) {
    !IsFinite(t) || Low(k) <= t <= High(k)
  }

  /** The range holds an interval, and its bounds are clear of the ends of the axis. */
  predicate Clear(r: FuzzyRange, k: int) {
    && Reasonable(r) && Open(r) && r.earliestStart < r.latestEnd
    && ClearBound(r.earliestStart, k) && ClearBound(r.latestStart, k)
    && ClearBound(r.earliestEnd, k) && ClearBound(r.latestEnd, k)
  }

  /** How far the expression moves what it is resolved from. */
  function Distance(ctx: Context, ast: TimeAst): int {
    match ast
    case InWindow(Bounds(_, _, uncertain)) => if uncertain then 60 * TICKS_PER_DAY else 0
    case Approx(inner) =>
      Distance(ctx, inner) +
      if Resolve(ctx, inner).Resolved? then ApproxFuzz(ctx, Width(Resolve(ctx, inner).range)) else 0
    case Interval(start, end) => Max(Distance(ctx, start), Distance(ctx, end))
    case Relative(_, min, max, unitTicks) =>
      var u := if ScaledUnit(ctx, unitTicks).Some? then ScaledUnit(ctx, unitTicks).value else 0;
      Max(Max(min * u, -(min * u)), Max(max * u, -(max * u)))
    case _ => 0
  }

  /** Anchors and windows hold intervals and are clear of the ends of the axis. */
  ghost predicate Placed(ctx: Context, ast: TimeAst, k: int) {
    && WellPosed(ctx, ast) && (forall a | AnchorRange(ctx, a).Resolved? :: Clear(AnchorRange(ctx, a).range, k))
    && match ast
       case InWindow(Bounds(a, b, _)) => a < b && ClearBound(a, k) && ClearBound(b, k)
       case Approx(inner) => Placed(ctx, inner, k)
       case Interval(start, end) => Placed(ctx, start, k) && Placed(ctx, end, k)
       case _ => true
  }

  ghost predicate MayStart(ctx: Context, ast: TimeAst, s: int) {
    exists e :: Allows(ctx, ast, s, e)
  }

  ghost predicate MayEnd(ctx: Context, ast: TimeAst, e: int) {
    exists s :: Allows(ctx, ast, s, e)
  }

  /** Every start, end and time that the range offers is that of an allowed interval, but for `k` ticks at the ends of
    * the
    * axis.
    */
  ghost predicate Reached(ctx: Context, ast: TimeAst, r: FuzzyRange, k: int) {
    && (forall s | Low(k) <= s < High(k) && r.earliestStart <= s <= r.latestStart && s < r.latestEnd ::
          MayStart(ctx, ast, s))
    && (forall e | Low(k) < e <= High(k) && r.earliestEnd <= e <= r.latestEnd && r.earliestStart < e ::
          MayEnd(ctx, ast, e))
    && (forall t | Low(k) <= t <= High(k) && r.earliestStart <= t <= r.latestEnd :: Somewhere(ctx, ast, t))
  }

  // ------------------------------------------------------------ the range stays clear

  lemma DistanceNonNegative(ctx: Context, ast: TimeAst)
    requires WellPosed(ctx, ast)
    ensures Distance(ctx, ast) >= 0
  {
    hide ScaledUnit, ApproxFuzz, Width;
    match ast
    case Approx(inner) =>
      DistanceNonNegative(ctx, inner);
      if Resolve(ctx, inner).Resolved? {
        ResolvedOrdered(ctx, inner);
        FuzzNonNegative(ctx, Resolve(ctx, inner).range);
      }
    case Interval(start, end) =>
      DistanceNonNegative(ctx, start);
    case _ =>
  }

  function Moved(t: int, delta: int): int {
    if IsFinite(t) then t + delta else t
  }

  lemma OffsetClear(t: int, delta: int, m: int, k: int)
    requires ClearBound(t, k + m) && -m <= delta <= m && k >= 0
    ensures Offset(t, delta) == Moved(t, delta) && ClearBound(Offset(t, delta), k)
    ensures IsFinite(Moved(t, delta)) <==> IsFinite(t)
  {}

  lemma MovedOrder(a: int, b: int, low: int, high: int)
    requires a <= b && NEG_INF <= a && b <= POS_INF && low <= high
    requires IsFinite(a) ==> NEG_INF < a + low < POS_INF
    requires IsFinite(b) ==> NEG_INF < b + high < POS_INF
    ensures Moved(a, low) <= Moved(b, high) && (a < b ==> Moved(a, low) < Moved(b, high))
  {}

  /** Clear of the ends a range moves without being cut off. */
  lemma ShiftClear(r: FuzzyRange, low: int, high: int, m: int, k: int)
    requires Clear(r, k + m) && low <= high && -m <= low && high <= m && k >= 0
    ensures Clear(Shift(r, low, high), k)
    ensures Shift(r, low, high) == FuzzyRange(Moved(r.earliestStart, low), Moved(r.latestStart, high),
                                              Moved(r.earliestEnd, low), Moved(r.latestEnd, high))
  {
    hide Moved, Offset, ClearBound, Normalized;
    OffsetClear(r.earliestStart, low, m, k);
    OffsetClear(r.latestStart, high, m, k);
    OffsetClear(r.earliestEnd, low, m, k);
    OffsetClear(r.latestEnd, high, m, k);
    ShiftOrdered(r, low, high);
    ShiftOpen(r, low, high);
    var moved := FuzzyRange(Moved(r.earliestStart, low), Moved(r.latestStart, high),
                            Moved(r.earliestEnd, low), Moved(r.latestEnd, high));
    BoundsInside(r, low, high, m, k);
    NormalizedOrdered(moved);
  }

  lemma BoundsInside(r: FuzzyRange, low: int, high: int, m: int, k: int)
    requires Clear(r, k + m) && low <= high && -m <= low && high <= m && k >= 0
    ensures IsOrdered(FuzzyRange(Moved(r.earliestStart, low), Moved(r.latestStart, high),
                                 Moved(r.earliestEnd, low), Moved(r.latestEnd, high)))
    ensures Moved(r.earliestStart, low) < Moved(r.latestEnd, high)
  {
    hide Moved, Open;
    MovedOrder(r.earliestStart, r.latestStart, low, high);
    MovedOrder(r.earliestStart, r.latestEnd, low, high);
    MovedOrder(r.earliestEnd, r.latestEnd, low, high);
    MovedOrder(r.earliestStart, r.earliestEnd, low, low);
    MovedOrder(r.latestStart, r.latestEnd, high, high);
  }

  lemma WidenIsShift(r: FuzzyRange, fuzz: int)
    ensures Widen(r, fuzz) == Shift(r, -fuzz, fuzz)
  {}

  lemma WindowClear(a: int, b: int, uncertain: bool, k: int)
    requires Forward(a, b) && a < b && k >= 0
    requires var d := if uncertain then 60 * TICKS_PER_DAY else 0; ClearBound(a, k + d) && ClearBound(b, k + d)
    ensures var r := Within(a, b);
            Clear(if uncertain then Within(r.earliestStart, Offset(r.latestEnd, 60 * TICKS_PER_DAY)) else r, k)
  {}

  lemma IntervalClear(s: FuzzyRange, e: FuzzyRange, k: int)
    requires Clear(s, k) && Clear(e, k)
    requires !(IsFinite(s.earliestStart) && IsFinite(e.latestEnd) && s.earliestStart >= e.latestEnd)
    ensures Clear(Normalized(FuzzyRange(s.earliestStart, s.latestEnd, e.earliestStart, e.latestEnd)), k)
    ensures Normalized(FuzzyRange(s.earliestStart, s.latestEnd, e.earliestStart, e.latestEnd)) ==
            FuzzyRange(s.earliestStart, Min(s.latestEnd, e.latestEnd), Max(e.earliestStart, s.earliestStart),
              e.latestEnd)
  {}

  lemma ClearMore(r: FuzzyRange, k: int, more: int)
    requires Clear(r, k + more) && more >= 0
    ensures Clear(r, k)
  {}

  /** What is placed clear of the ends resolves to a range that is clear of them, less the distance moved. */
  lemma {:induction false} ResolvedClear(ctx: Context, ast: TimeAst, k: int)
    requires Placed(ctx, ast, k + Distance(ctx, ast)) && Resolve(ctx, ast).Resolved? && k >= 0
    ensures Clear(Resolve(ctx, ast).range, k)
    decreases ast
  {
    hide Clear, ClearBound, Widen, Shift, Normalized, Within, ApproxFuzz, Width, ScaledUnit, Offset;
    UnknownClear(k);
    match ast
    case InWindow(Bounds(a, b, uncertain)) =>
      WindowClear(a, b, uncertain, k);
    case Approx(inner) =>
      var r := Resolve(ctx, inner).range;
      var fuzz := ApproxFuzz(ctx, Width(r));
      FuzzOf(ctx, inner);
      assert k + Distance(ctx, ast) == (k + fuzz) + Distance(ctx, inner);
      ResolvedClear(ctx, inner, k + fuzz);
      WidenIsShift(r, fuzz);
      ShiftClear(r, -fuzz, fuzz, fuzz, k);
    case Interval(start, end) =>
      PlacedLess(ctx, start, k + Distance(ctx, start), k + Distance(ctx, ast));
      PlacedLess(ctx, end, k + Distance(ctx, end), k + Distance(ctx, ast));
      if !start.UnknownTime? { ResolvedClear(ctx, start, k); }
      if !end.UnknownTime? { ResolvedClear(ctx, end, k); }
      IntervalClear(PartOf(ctx, start), PartOf(ctx, end), k);
    case Relative(anchor, min, max, unitTicks) =>
      UnitKnown(ctx, unitTicks);
      RelativeOffsets(ctx, min, max, unitTicks);
      var u := ScaledUnit(ctx, unitTicks).value;
      ShiftClear(AnchorRange(ctx, anchor).range, min * u, max * u, Distance(ctx, ast), k);
    case Recurring =>
    case Between(after, before) =>
      BetweenClear(ctx, after, before, k);
  }

  /** What an end of an interval is resolved to. */
  function PartOf(ctx: Context, ast: TimeAst): FuzzyRange {
    if ast.UnknownTime? then UNKNOWN
    else if Resolve(ctx, ast).Resolved? then Resolve(ctx, ast).range
    else UNKNOWN
  }

  lemma UnknownClear(k: int)
    ensures Clear(UNKNOWN, k)
  {}

  lemma FuzzOf(ctx: Context, inner: TimeAst)
    requires WellPosed(ctx, inner) && Resolve(ctx, inner).Resolved?
    ensures ApproxFuzz(ctx, Width(Resolve(ctx, inner).range)) >= 0
  {
    hide ApproxFuzz, Width, Resolve;
    ResolvedOrdered(ctx, inner);
    FuzzNonNegative(ctx, Resolve(ctx, inner).range);
  }

  lemma {:induction false} PlacedLess(ctx: Context, ast: TimeAst, k: int, more: int)
    requires Placed(ctx, ast, more) && k <= more
    ensures Placed(ctx, ast, k)
    decreases ast
  {
    hide Reasonable, Open;
    match ast
    case Approx(inner) =>
      PlacedLess(ctx, inner, k, more);
    case Interval(start, end) =>
      PlacedLess(ctx, start, k, more);
      PlacedLess(ctx, end, k, more);
    case _ =>
  }

  lemma RelativeOffsets(ctx: Context, min: int, max: int, unitTicks: int)
    requires ctx.ticksPerDay.Some? && ctx.ticksPerDay.value > 0 && min <= max && unitTicks > 0
    ensures var u := ScaledUnit(ctx, unitTicks).value; min * u <= max * u
  {
    UnitPositive(ctx, unitTicks);
    ScaledOrder(min, max, ScaledUnit(ctx, unitTicks).value);
  }

  lemma {:induction false} LatestEndClear(ctx: Context, after: seq<Anchor>, k: int)
    requires forall a | AnchorRange(ctx, a).Resolved? :: Clear(AnchorRange(ctx, a).range, k)
    ensures ClearBound(LatestEnd(ctx, after).1, k) && NEG_INF <= LatestEnd(ctx, after).1 < POS_INF
  {
    hide AnchorRange;
    if after != [] { LatestEndClear(ctx, after[..|after| - 1], k); }
  }

  lemma {:induction false} EarliestStartClear(ctx: Context, before: seq<Anchor>, k: int)
    requires forall a | AnchorRange(ctx, a).Resolved? :: Clear(AnchorRange(ctx, a).range, k)
    ensures ClearBound(EarliestStart(ctx, before).1, k) && NEG_INF < EarliestStart(ctx, before).1 <= POS_INF
  {
    hide AnchorRange;
    if before != [] { EarliestStartClear(ctx, before[..|before| - 1], k); }
  }

  lemma BetweenClear(ctx: Context, after: seq<Anchor>, before: seq<Anchor>, k: int)
    requires forall a | AnchorRange(ctx, a).Resolved? :: Clear(AnchorRange(ctx, a).range, k)
    requires ResolveBetween(ctx, after, before).Resolved?
    ensures Clear(ResolveBetween(ctx, after, before).range, k)
  {
    hide AnchorRange;
    LatestEndClear(ctx, after, k);
    EarliestStartClear(ctx, before, k);
  }

  // ------------------------------------------------------------ what is allowed

  /** Moving the intervals of a box by any distance between the offsets reaches every start of the moved box. */
  lemma StartMoved(r: FuzzyRange, low: int, high: int, m: int, s: int) returns (e: int, d: int)
    requires Clear(r, 2 * m + 1) && low <= high && -m <= low && high <= m
    requires Low(m) <= s < High(m) && Moved(r.earliestStart, low) <= s <= Moved(r.latestStart, high)
    requires s < Moved(r.latestEnd, high)
    ensures low <= d <= high && Concrete(s, e) && Concrete(s - d, e - d) && Contains(r, s - d, e - d)
  {
    var x := Max(r.earliestStart, s - high);
    var y := Max(r.earliestEnd, x + 1);
    d := s - x;
    e := y + d;
  }

  lemma EndMoved(r: FuzzyRange, low: int, high: int, m: int, e: int) returns (s: int, d: int)
    requires Clear(r, 2 * m + 1) && low <= high && -m <= low && high <= m
    requires Low(m) < e <= High(m) && Moved(r.earliestEnd, low) <= e <= Moved(r.latestEnd, high)
    requires Moved(r.earliestStart, low) < e
    ensures low <= d <= high && Concrete(s, e) && Concrete(s - d, e - d) && Contains(r, s - d, e - d)
  {
    var y := Min(r.latestEnd, e - low);
    var x := Min(r.latestStart, y - 1);
    d := e - y;
    s := x + d;
  }

  lemma TimeMoved(r: FuzzyRange, low: int, high: int, m: int, t: int) returns (s: int, e: int, d: int)
    requires Clear(r, 2 * m + 1) && low <= high && -m <= low && high <= m
    requires Low(m) <= t <= High(m) && Moved(r.earliestStart, low) <= t <= Moved(r.latestEnd, high)
    ensures low <= d <= high && Concrete(s, e) && Concrete(s - d, e - d) && Contains(r, s - d, e - d) && s <= t <= e
  {
    var w := Max(r.earliestStart, t - high);
    d := t - w;
    var x, y := Min(w, r.latestStart), Max(w, r.earliestEnd);
    if x == y {
      if w < r.latestEnd && w < POS_INF - 1 && w + d < POS_INF - 1 { y := y + 1; } else { x := x - 1; }
    }
    s, e := x + d, y + d;
  }

  lemma RelativeReached(ctx: Context, anchor: Anchor, min: int, max: int, unitTicks: int, m: int)
    requires var ast := Relative(anchor, min, max, unitTicks);
             Placed(ctx, ast, 2 * m + 1) && Distance(ctx, ast) <= m && Resolve(ctx, ast).Resolved?
    ensures Reached(ctx, Relative(anchor, min, max, unitTicks),
      Resolve(ctx, Relative(anchor, min, max, unitTicks)).range,
                    m)
  {
    hide Clear, ScaledUnit, Shift, Moved, Contains, AnchorMay, Concrete, IsFinite;
    var ast, r := Relative(anchor, min, max, unitTicks), AnchorRange(ctx, anchor).range;
    UnitKnown(ctx, unitTicks);
    RelativeOffsets(ctx, min, max, unitTicks);
    var u := ScaledUnit(ctx, unitTicks).value;
    var low, high, moved := min * u, max * u, Resolve(ctx, ast).range;
    assert -m <= low && high <= m;
    ShiftClear(r, low, high, m, m + 1);
    forall s | Low(m) <= s < High(m) && moved.earliestStart <= s <= moved.latestStart && s < moved.latestEnd
      ensures MayStart(ctx, ast, s)
    {
      var e, d := StartMoved(r, low, high, m, s);
      RelativeAllows(ctx, anchor, min, max, unitTicks, s, e, d);
    }
    forall e | Low(m) < e <= High(m) && moved.earliestEnd <= e <= moved.latestEnd && moved.earliestStart < e
      ensures MayEnd(ctx, ast, e)
    {
      var s, d := EndMoved(r, low, high, m, e);
      RelativeAllows(ctx, anchor, min, max, unitTicks, s, e, d);
    }
    forall t | Low(m) <= t <= High(m) && moved.earliestStart <= t <= moved.latestEnd
      ensures Somewhere(ctx, ast, t)
    {
      var s, e, d := TimeMoved(r, low, high, m, t);
      RelativeAllows(ctx, anchor, min, max, unitTicks, s, e, d);
    }
  }

  lemma RelativeAllows(ctx: Context, anchor: Anchor, min: int, max: int, unitTicks: int, s: int, e: int, d: int)
    requires AnchorRange(ctx, anchor).Resolved? && ScaledUnit(ctx, unitTicks).Some? && Concrete(s, e)
    requires Concrete(s - d, e - d) && Contains(AnchorRange(ctx, anchor).range, s - d, e - d)
    requires min * ScaledUnit(ctx, unitTicks).value <= d <= max * ScaledUnit(ctx, unitTicks).value
    ensures Allows(ctx, Relative(anchor, min, max, unitTicks), s, e)
  {
    hide ScaledUnit, AnchorRange, Contains;
    var u := ScaledUnit(ctx, unitTicks).value;
    assert MovedBy(ctx, anchor, min * u, max * u, s, e, d);
  }

  // ------------------------------------------------------------ about

  lemma ApproxAllows(ctx: Context, inner: TimeAst, fuzz: int, s: int, e: int, x: int, y: int)
    requires Resolve(ctx, inner).Resolved? && fuzz == ApproxFuzz(ctx, Width(Resolve(ctx, inner).range))
    requires Allows(ctx, inner, x, y) && -fuzz <= s - x <= fuzz && -fuzz <= e - y <= fuzz && Concrete(s, e)
    ensures Allows(ctx, Approx(inner), s, e)
  {
    hide Resolve, ApproxFuzz, Width;
    assert Near(s - x, fuzz) && Near(e - y, fuzz);
    assert x == s - (s - x) && y == e - (e - y);
  }

  lemma AllowedConcrete(ctx: Context, ast: TimeAst, s: int, e: int)
    requires Allows(ctx, ast, s, e)
    ensures Concrete(s, e)
  {
    hide Resolve, ApproxFuzz, Width, ScaledUnit;
  }

  /** The start in the inner range that is nearest to the start in the widened one. */
  lemma NearestStart(r: FuzzyRange, fuzz: int, m: int, s: int) returns (x: int)
    requires Clear(r, m + 1) && fuzz >= 0 && m >= 0
    requires Low(m) <= s < High(m) && Moved(r.earliestStart, -fuzz) <= s <= Moved(r.latestStart, fuzz)
    requires s < Moved(r.latestEnd, fuzz)
    ensures Low(m) <= x < High(m) && r.earliestStart <= x <= r.latestStart && x < r.latestEnd && -fuzz <= s - x <= fuzz
  {
    x := Max(r.earliestStart, Min(s, Min(r.latestStart, r.latestEnd - 1)));
  }

  lemma NearestEnd(r: FuzzyRange, fuzz: int, m: int, e: int) returns (y: int)
    requires Clear(r, m + 1) && fuzz >= 0 && m >= 0
    requires Low(m) < e <= High(m) && Moved(r.earliestEnd, -fuzz) <= e <= Moved(r.latestEnd, fuzz)
    requires Moved(r.earliestStart, -fuzz) < e
    ensures Low(m) < y <= High(m) && r.earliestEnd <= y <= r.latestEnd && r.earliestStart < y && -fuzz <= e - y <= fuzz
  {
    y := Min(r.latestEnd, Max(e, Max(r.earliestEnd, r.earliestStart + 1)));
  }

  lemma NearestTime(r: FuzzyRange, fuzz: int, m: int, t: int) returns (w: int)
    requires Clear(r, m + 1) && fuzz >= 0 && m >= 0
    requires Low(m) <= t <= High(m) && Moved(r.earliestStart, -fuzz) <= t <= Moved(r.latestEnd, fuzz)
    ensures Low(m) <= w <= High(m) && r.earliestStart <= w <= r.latestEnd && -fuzz <= t - w <= fuzz
  {
    w := Max(r.earliestStart, Min(t, r.latestEnd));
  }

  lemma ApproxReached(ctx: Context, inner: TimeAst, r: FuzzyRange, fuzz: int, m: int)
    requires Resolve(ctx, inner) == Resolved(r) && fuzz == ApproxFuzz(ctx, Width(r)) && fuzz >= 0 && m >= 0
    requires Clear(r, m + 1 + fuzz) && Reached(ctx, inner, r, m) && !inner.UnknownTime?
    ensures Reached(ctx, Approx(inner), Widen(r, fuzz), m)
  {
    hide Resolve, ApproxFuzz, Width, Clear, Moved, Shift, Widen, Allows, Low, High;
    WidenIsShift(r, fuzz);
    ShiftClear(r, -fuzz, fuzz, fuzz, m + 1);
    ClearMore(r, m + 1, fuzz);
    ReachedAt(ctx, inner, r, m);
    var wide := Widen(r, fuzz);
    forall s | Low(m) <= s < High(m) && wide.earliestStart <= s <= wide.latestStart && s < wide.latestEnd
      ensures MayStart(ctx, Approx(inner), s)
    {
      var x := NearestStart(r, fuzz, m, s);
      assert MayStart(ctx, inner, x);
      var y :| Allows(ctx, inner, x, y);
      AllowedConcrete(ctx, inner, x, y);
      InsideAxis(s, m);
      ApproxAllows(ctx, inner, fuzz, s, Max(y, s + 1), x, y);
    }
    forall e | Low(m) < e <= High(m) && wide.earliestEnd <= e <= wide.latestEnd && wide.earliestStart < e
      ensures MayEnd(ctx, Approx(inner), e)
    {
      var y := NearestEnd(r, fuzz, m, e);
      assert MayEnd(ctx, inner, y);
      var x :| Allows(ctx, inner, x, y);
      AllowedConcrete(ctx, inner, x, y);
      InsideAxis(e, m);
      ApproxAllows(ctx, inner, fuzz, Min(x, e - 1), e, x, y);
    }
    forall t | Low(m) <= t <= High(m) && wide.earliestStart <= t <= wide.latestEnd
      ensures Somewhere(ctx, Approx(inner), t)
    {
      var w := NearestTime(r, fuzz, m, t);
      assert Somewhere(ctx, inner, w);
      var x, y :| Allows(ctx, inner, x, y) && x <= w <= y;
      AllowedConcrete(ctx, inner, x, y);
      InsideAxis(t, m);
      ApproxAllows(ctx, inner, fuzz, Min(x, t), Max(y, t), x, y);
    }
  }

  lemma InsideAxis(t: int, m: int)
    requires m >= 0
    ensures Low(m) <= t <= High(m) ==> NEG_INF < t < POS_INF
    ensures t < High(m) ==> t + 1 < POS_INF
    ensures Low(m) < t ==> NEG_INF < t - 1
  {}

  lemma ReachedAt(ctx: Context, ast: TimeAst, r: FuzzyRange, m: int)
    requires Reached(ctx, ast, r, m)
    ensures forall s | Low(m) <= s < High(m) && r.earliestStart <= s <= r.latestStart && s < r.latestEnd ::
              MayStart(ctx, ast, s)
    ensures forall e | Low(m) < e <= High(m) && r.earliestEnd <= e <= r.latestEnd && r.earliestStart < e ::
              MayEnd(ctx, ast, e)
    ensures forall t | Low(m) <= t <= High(m) && r.earliestStart <= t <= r.latestEnd :: Somewhere(ctx, ast, t)
  {}

  // ------------------------------------------------------------ from one time to another

  /** An end of the interval may lie anywhere in its part's range. */
  ghost predicate Covered(ctx: Context, ast: TimeAst, r: FuzzyRange, m: int) {
    forall t | Low(m) <= t <= High(m) && r.earliestStart <= t <= r.latestEnd :: Somewhere(ctx, ast, t)
  }

  lemma IntervalReached(ctx: Context, start: TimeAst, end: TimeAst, sr: FuzzyRange, er: FuzzyRange, m: int)
    requires Clear(sr, m + 1) && Clear(er, m + 1) && Covered(ctx, start, sr, m) && Covered(ctx, end, er, m) && m >= 0
    requires !(IsFinite(sr.earliestStart) && IsFinite(er.latestEnd) && sr.earliestStart >= er.latestEnd)
    requires Low(m) < High(m)
    ensures Reached(ctx, Interval(start, end),
                    FuzzyRange(sr.earliestStart, Min(sr.latestEnd, er.latestEnd),
                               Max(er.earliestStart, sr.earliestStart), er.latestEnd), m)
  {
    hide Somewhere, Resolve;
    var ast := Interval(start, end);
    var r := FuzzyRange(sr.earliestStart, Min(sr.latestEnd, er.latestEnd), Max(er.earliestStart, sr.earliestStart),
                        er.latestEnd);
    forall s | Low(m) <= s < High(m) && r.earliestStart <= s <= r.latestStart && s < r.latestEnd
      ensures MayStart(ctx, ast, s)
    {
      PairAllowed(ctx, start, end, sr, er, m, s, Max(er.earliestStart, s + 1));
    }
    forall e | Low(m) < e <= High(m) && r.earliestEnd <= e <= r.latestEnd && r.earliestStart < e
      ensures MayEnd(ctx, ast, e)
    {
      PairAllowed(ctx, start, end, sr, er, m, Min(sr.latestEnd, e - 1), e);
    }
    forall t | Low(m) <= t <= High(m) && r.earliestStart <= t <= r.latestEnd
      ensures Somewhere(ctx, ast, t)
    {
      var s, e := Min(t, sr.latestEnd), Max(t, er.earliestStart);
      if s == e {
        if t < er.latestEnd && t < High(m) { e := t + 1; } else { s := t - 1; }
      }
      PairAllowed(ctx, start, end, sr, er, m, s, e);
      AllowedSomewhere(ctx, ast, s, e, t);
    }
  }

  lemma PairAllowed(ctx: Context, start: TimeAst, end: TimeAst, sr: FuzzyRange, er: FuzzyRange, m: int, s: int, e: int)
    requires Covered(ctx, start, sr, m) && Covered(ctx, end, er, m) && m >= 0
    requires Low(m) <= s < e <= High(m) && sr.earliestStart <= s <= sr.latestEnd &&
      er.earliestStart <= e <= er.latestEnd
    ensures Allows(ctx, Interval(start, end), s, e)
  {
    hide Somewhere;
  }

  lemma AllowedSomewhere(ctx: Context, ast: TimeAst, s: int, e: int, t: int)
    requires Allows(ctx, ast, s, e) && s <= t <= e
    ensures Somewhere(ctx, ast, t)
  {
    hide Allows;
  }

  // ------------------------------------------------------------ the theorem

  lemma StartIn(r: FuzzyRange, m: int, s: int) returns (e: int)
    requires Clear(r, m + 1) && m >= 0
    requires Low(m) <= s < High(m) && r.earliestStart <= s <= r.latestStart && s < r.latestEnd
    ensures Concrete(s, e) && Contains(r, s, e)
  {
    e := Max(r.earliestEnd, s + 1);
  }

  lemma EndIn(r: FuzzyRange, m: int, e: int) returns (s: int)
    requires Clear(r, m + 1) && m >= 0
    requires Low(m) < e <= High(m) && r.earliestEnd <= e <= r.latestEnd && r.earliestStart < e
    ensures Concrete(s, e) && Contains(r, s, e)
  {
    s := Min(r.latestStart, e - 1);
  }

  lemma TimeIn(r: FuzzyRange, m: int, t: int) returns (s: int, e: int)
    requires Clear(r, m + 1) && m >= 0 && Low(m) < High(m)
    requires Low(m) <= t <= High(m) && r.earliestStart <= t <= r.latestEnd
    ensures Concrete(s, e) && Contains(r, s, e) && s <= t <= e
  {
    s, e := Min(t, r.latestStart), Max(t, r.earliestEnd);
    if s == e {
      if t < r.latestEnd && t < High(m) { e := t + 1; } else { s := t - 1; }
    }
  }

  /** A range that holds an interval and nothing but what is allowed is reached. */
  lemma ExactReached(ctx: Context, ast: TimeAst, r: FuzzyRange, m: int)
    requires Clear(r, m + 1) && m >= 0 && Low(m) < High(m)
    requires forall s, e | Concrete(s, e) && Contains(r, s, e) :: Allows(ctx, ast, s, e)
    ensures Reached(ctx, ast, r, m)
  {
    hide Allows, Clear, Low, High, Concrete, Contains;
    forall s | Low(m) <= s < High(m) && r.earliestStart <= s <= r.latestStart && s < r.latestEnd
      ensures MayStart(ctx, ast, s)
    {
      var e := StartIn(r, m, s);
      assert Allows(ctx, ast, s, e);
    }
    forall e | Low(m) < e <= High(m) && r.earliestEnd <= e <= r.latestEnd && r.earliestStart < e
      ensures MayEnd(ctx, ast, e)
    {
      var s := EndIn(r, m, e);
      assert Allows(ctx, ast, s, e);
    }
    forall t | Low(m) <= t <= High(m) && r.earliestStart <= t <= r.latestEnd
      ensures Somewhere(ctx, ast, t)
    {
      var s, e := TimeIn(r, m, t);
      assert Allows(ctx, ast, s, e);
    }
  }

  /** Resolving loses nothing and offers nothing that the expression does not allow: every start, every end and every
    * time
    * in between is that of an allowed interval.
    */
  lemma {:induction false} ResolveTight(ctx: Context, ast: TimeAst, m: int)
    requires Placed(ctx, ast, 2 * m + 1) && Distance(ctx, ast) <= m && Low(m) < High(m) && Resolve(ctx, ast).Resolved?
    ensures Reached(ctx, ast, Resolve(ctx, ast).range, m)
    decreases ast, 0
  {
    hide Clear, ClearBound, Widen, Shift, Normalized, Within, ApproxFuzz, Width, ScaledUnit, Offset, Reached, Allows,
      Contains, Low, High;
    DistanceNonNegative(ctx, ast);
    match ast
    case InWindow(window) =>
      PlacedLess(ctx, ast, m + 1 + Distance(ctx, ast), 2 * m + 1);
      ResolvedClear(ctx, ast, m + 1);
      forall s, e | Concrete(s, e) && Contains(Resolve(ctx, ast).range, s, e) ensures Allows(ctx, ast, s, e) {
        WindowExact(ctx, window, s, e);
      }
      ExactReached(ctx, ast, Resolve(ctx, ast).range, m);
    case Approx(inner) =>
      var r := Resolve(ctx, inner).range;
      var fuzz := ApproxFuzz(ctx, Width(r));
      FuzzOf(ctx, inner);
      ResolveTight(ctx, inner, m);
      PlacedLess(ctx, inner, m + 1 + fuzz + Distance(ctx, inner), 2 * m + 1);
      ResolvedClear(ctx, inner, m + 1 + fuzz);
      ApproxReached(ctx, inner, r, fuzz, m);
    case Interval(start, end) =>
      PartReached(ctx, start, m);
      PartReached(ctx, end, m);
      IntervalClear(PartOf(ctx, start), PartOf(ctx, end), m + 1);
      IntervalReached(ctx, start, end, PartOf(ctx, start), PartOf(ctx, end), m);
    case Relative(anchor, min, max, unitTicks) =>
      RelativeReached(ctx, anchor, min, max, unitTicks, m);
    case Recurring =>
      UnknownClear(m + 1);
      AllAllowed(ctx);
      ExactReached(ctx, ast, UNKNOWN, m);
    case Between(after, before) =>
      BetweenReached(ctx, after, before, m);
  }

  lemma AllAllowed(ctx: Context)
    ensures forall s, e | Concrete(s, e) :: Allows(ctx, Recurring, s, e)
  {}

  lemma BetweenReached(ctx: Context, after: seq<Anchor>, before: seq<Anchor>, m: int)
    requires Placed(ctx, Between(after, before), 2 * m + 1) && m >= 0 && Low(m) < High(m)
    requires ResolveBetween(ctx, after, before).Resolved?
    ensures Reached(ctx, Between(after, before), ResolveBetween(ctx, after, before).range, m)
  {
    hide Reached, Allows, Contains, Low, High, ResolveBetween, AnchorRange;
    var ast := Between(after, before);
    BetweenClear(ctx, after, before, 2 * m + 1);
    ClearMore(ResolveBetween(ctx, after, before).range, m + 1, m);
    forall s, e | Concrete(s, e) && Contains(ResolveBetween(ctx, after, before).range, s, e)
      ensures Allows(ctx, ast, s, e)
    {
      BetweenExact(ctx, after, before, s, e);
    }
    ExactReached(ctx, ast, ResolveBetween(ctx, after, before).range, m);
  }

  lemma {:induction false} PartReached(ctx: Context, ast: TimeAst, m: int)
    requires Placed(ctx, ast, 2 * m + 1) && Distance(ctx, ast) <= m && Low(m) < High(m)
    requires ast.UnknownTime? || Resolve(ctx, ast).Resolved?
    ensures Clear(PartOf(ctx, ast), m + 1) && Covered(ctx, ast, PartOf(ctx, ast), m)
    decreases ast, 1
  {
    hide Clear, ClearBound, Low, High, Resolve;
    if ast.UnknownTime? {
      UnknownClear(m + 1);
    } else {
      DistanceNonNegative(ctx, ast);
      PlacedLess(ctx, ast, m + 1 + Distance(ctx, ast), 2 * m + 1);
      ResolvedClear(ctx, ast, m + 1);
      ResolveTight(ctx, ast, m);
    }
  }

  // ------------------------------------------------------------ nothing is refused that allows an interval

  /** The offsets of the expression, in ticks, fit 64 bits. */
  predicate OffsetsFit(ctx: Context, ast: TimeAst) {
    match ast
    case Approx(inner) => OffsetsFit(ctx, inner)
    case Interval(start, end) => OffsetsFit(ctx, start) && OffsetsFit(ctx, end)
    case Relative(_, min, max, unitTicks) =>
      ScaledUnit(ctx, unitTicks).Some? ==>
        Fits(min * ScaledUnit(ctx, unitTicks).value) && Fits(max * ScaledUnit(ctx, unitTicks).value)
    case _ => true
  }

  /** An expression that allows an interval is resolved. */
  lemma {:induction false} AllowedResolves(ctx: Context, ast: TimeAst, s: int, e: int)
    requires WellPosed(ctx, ast) && OffsetsFit(ctx, ast) && Allows(ctx, ast, s, e)
    ensures Resolve(ctx, ast).Resolved?
    decreases ast
  {
    hide Widen, Shift, Normalized, Within, ApproxFuzz, Width, ScaledUnit, Offset, Contains;
    match ast
    case Interval(start, end) =>
      assert Somewhere(ctx, start, s) && Somewhere(ctx, end, e);
      if !start.UnknownTime? {
        var x, y := IntervalOf(ctx, start, s);
        AllowedResolves(ctx, start, x, y);
      }
      if !end.UnknownTime? {
        var x, y := IntervalOf(ctx, end, e);
        AllowedResolves(ctx, end, x, y);
      }
      assert Resolve(ctx, ast).Failed? ==> Resolve(ctx, ast) == Failed(Contradiction);
      NotContradictory(ctx, start, end, s, e);
    case Between(after, before) =>
      BetweenResolves(ctx, after, before, s, e);
    case _ =>
  }

  lemma IntervalOf(ctx: Context, ast: TimeAst, t: int) returns (x: int, y: int)
    requires Somewhere(ctx, ast, t) && !ast.UnknownTime?
    ensures Allows(ctx, ast, x, y) && x <= t <= y
  {
    hide Allows;
    x, y :| Allows(ctx, ast, x, y) && x <= t <= y;
  }

  lemma NotContradictory(ctx: Context, start: TimeAst, end: TimeAst, s: int, e: int)
    requires WellPosed(ctx, Interval(start, end)) && Allows(ctx, Interval(start, end), s, e)
    requires start.UnknownTime? || Resolve(ctx, start).Resolved?
    requires end.UnknownTime? || Resolve(ctx, end).Resolved?
    ensures Resolve(ctx, Interval(start, end)) != Failed(Contradiction)
  {
    hide Allows, Resolve;
    if Resolve(ctx, Interval(start, end)) == Failed(Contradiction) {
      IntervalContradiction(ctx, start, end, s, e);
    }
  }

  lemma BetweenResolves(ctx: Context, after: seq<Anchor>, before: seq<Anchor>, s: int, e: int)
    requires WellPosed(ctx, Between(after, before)) && Allows(ctx, Between(after, before), s, e)
    ensures ResolveBetween(ctx, after, before).Resolved?
  {
    hide AnchorRange;
    assert forall i | 0 <= i < |after| :: MayEndBy(ctx, after[i], s);
    assert forall i | 0 <= i < |before| :: MayStartAt(ctx, before[i], e);
    NoneFailed(ctx, after);
    NoneFailed(ctx, before);
    LatestEndBound(ctx, after, s);
    EarliestStartBound(ctx, before, e);
  }

  // ------------------------------------------------------------ the amounts

  /** "About" reaches as far as what it is said of is wide, but half an hour, in the measure of the day, for what is no
    * wider than an hour.
    */
  lemma FuzzMeans(ctx: Context, width: int)
    requires ctx.ticksPerDay.Some? ==> ctx.ticksPerDay.value > 0
    ensures var day := if ctx.ticksPerDay.Some? then ctx.ticksPerDay.value else TICKS_PER_DAY;
            var fuzz := ApproxFuzz(ctx, Some(width));
            if 24 * width <= day then 48 * fuzz <= day < 48 * (fuzz + 1) else fuzz == width
    ensures ApproxFuzz(ctx, None) == 0
  {
    assert TICKS_PER_DAY == 24 * TICKS_PER_HOUR;
  }

  /** A unit is to the day of the calendar as it is to a day of 24 hours, rounded down. */
  lemma UnitMeans(ctx: Context, unitTicks: int)
    requires unitTicks > 0 && (ctx.ticksPerDay.Some? ==> ctx.ticksPerDay.value > 0)
    ensures ScaledUnit(ctx, unitTicks).Some? <==> ctx.ticksPerDay.Some?
    ensures ctx.ticksPerDay.Some? ==>
              var u := ScaledUnit(ctx, unitTicks).value;
              u * TICKS_PER_DAY <= unitTicks * ctx.ticksPerDay.value < (u + 1) * TICKS_PER_DAY
    ensures ctx.ticksPerDay == Some(TICKS_PER_DAY) ==> ScaledUnit(ctx, unitTicks) == Some(unitTicks)
  {}
}
