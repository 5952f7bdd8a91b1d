/** Resolving temporal expressions: the resolved range holds every interval that the expression
  * allows, and a contradiction is reported only when it allows none (time/resolve.rs).
  */
module Resolver {
  import opened Wrappers
  import opened TimeRange
  import opened Ranges

  const TICKS_PER_HOUR: int := 3_600_000
  const TICKS_PER_DAY: int := 86_400_000

  type Anchor = nat

  datatype Error = Unknown | Unparsed | NeedsReference | AnchorNotFound | AmbiguousAnchor | AnchorUnresolved |
      Incomparable | Unsupported | Contradiction | Overflow

  datatype Outcome = Resolved(range: FuzzyRange) | Failed(error: Error)

  datatype Temporal = Temporal(range: FuzzyRange, axis: string)

  datatype AnchorResult = Found(temporal: Temporal) | NotFound | Ambiguous | Unresolved(error: Error)

  /** Dates, weekdays and offsets from the reference are windows of the calendar, or fail there. */
  datatype Window = Bounds(start: int, end: int, calendarUncertain: bool) | Refused(error: Error)

  datatype TimeAst =
    | UnknownTime
    | UnparsedTime
    | InWindow(window: Window)
    | Approx(inner: TimeAst)
    | Interval(start: TimeAst, end: TimeAst)
    | Relative(anchor: Anchor, min: int, max: int, unitTicks: int)
    | Recurring
    | Between(after: seq<Anchor>, before: seq<Anchor>)

  /** The ticks of a day, the units that follow from them, and what is known of the anchors. */
  datatype Context = Context(ticksPerDay: Option<int>, axis: string, lookup: Anchor -> AnchorResult)

  /** The anchor's range, if it was resolved on the same axis. */
  function AnchorRange(ctx: Context, a: Anchor): Outcome {
    match ctx.lookup(a)
    case Found(t) => if t.axis == ctx.axis then Resolved(t.range) else Failed(Incomparable)
    case NotFound => Failed(AnchorNotFound)
    case Ambiguous => Failed(AmbiguousAnchor)
    case Unresolved(e) => Failed(e)
  }

  /** Division of wide integers truncates toward zero. */
  function Truncated(a: int, b: int): int
    requires b > 0
  {
    if a >= 0 then a / b else -((-a) / b)
  }

  /** A unit scaled to the length of the calendar's day. */
  function ScaledUnit(ctx: Context, unitTicks: int): Option<int> {
    if ctx.ticksPerDay.None? then None else Some(Truncated(unitTicks * ctx.ticksPerDay.value, TICKS_PER_DAY))
  }

  /** How far "about" reaches: the width itself, or half an hour for an hour or less. */
  function ApproxFuzz(ctx: Context, width: Option<int>): int {
    if width.None? then 0
    else
      var hour := Truncated(TICKS_PER_HOUR * (if ctx.ticksPerDay.None? then TICKS_PER_DAY else ctx.ticksPerDay.value),
        TICKS_PER_DAY);
      if width.value <= hour then Truncated(hour, 2) else width.value
  }

  /** The latest of the earliest ends, or the first failure. */
  function LatestEnd(ctx: Context, after: seq<Anchor>): (Option<Error>, int) {
    if after == [] then (None, NEG_INF)
    else
      var (error, lo) := LatestEnd(ctx, after[..|after| - 1]);
      if error.Some? then (error, lo)
      else
        match AnchorRange(ctx, after[|after| - 1])
        case Failed(e) => (Some(e), lo)
        case Resolved(r) => (None, Max(lo, r.earliestEnd))
  }

  /** The earliest of the latest starts, or the first failure. */
  function EarliestStart(ctx: Context, before: seq<Anchor>): (Option<Error>, int) {
    if before == [] then (None, POS_INF)
    else
      var (error, hi) := EarliestStart(ctx, before[..|before| - 1]);
      if error.Some? then (error, hi)
      else
        match AnchorRange(ctx, before[|before| - 1])
        case Failed(e) => (Some(e), hi)
        case Resolved(r) => (None, Min(hi, r.latestStart))
  }

  function ResolveBetween(ctx: Context, after: seq<Anchor>, before: seq<Anchor>): Outcome {
    var (afterError, lo) := LatestEnd(ctx, after);
    if afterError.Some? then Failed(afterError.value)
    else
      var (beforeError, hi) := EarliestStart(ctx, before);
      if beforeError.Some? then Failed(beforeError.value)
      else if lo >= hi then Failed(Contradiction)
      else Resolved(Within(lo, hi))
  }

  function Resolve(ctx: Context, ast: TimeAst): Outcome {
    match ast
    case UnknownTime => Failed(Unknown)
    case UnparsedTime => Failed(Unparsed)
    case InWindow(Refused(e)) => Failed(e)
    case InWindow(Bounds(s, e, uncertain)) =>
      var r := Within(s, e);
      Resolved(if uncertain then Within(r.earliestStart, Offset(r.latestEnd, 60 * TICKS_PER_DAY)) else r)
    case Approx(inner) =>
      (match Resolve(ctx, inner)
       case Failed(e) => Failed(e)
       case Resolved(r) => Resolved(Widen(r, ApproxFuzz(ctx, Width(r)))))
    case Interval(start, end) =>
      var s := if start.UnknownTime? then Resolved(UNKNOWN) else Resolve(ctx, start);
      if s.Failed? then s
      else
        var e := if end.UnknownTime? then Resolved(UNKNOWN) else Resolve(ctx, end);
        if e.Failed? then e
        else if IsFinite(s.range.earliestStart) && IsFinite(e.range.latestEnd) &&
          s.range.earliestStart >= e.range.latestEnd then Failed(Contradiction)
        else Resolved(Normalized(FuzzyRange(s.range.earliestStart, s.range.latestEnd, e.range.earliestStart,
          e.range.latestEnd)))
    case Relative(anchor, min, max, unitTicks) =>
      var t := AnchorRange(ctx, anchor);
      if t.Failed? then t
      else
        var u := ScaledUnit(ctx, unitTicks);
        if u.None? then Failed(Unsupported)
        else if !Fits(min * u.value) || !Fits(max * u.value) then Failed(Overflow)
        else Resolved(Shift(t.range, min * u.value, max * u.value))
    case Recurring => Resolved(UNKNOWN)
    case Between(after, before) => ResolveBetween(ctx, after, before)
  }

  /** The loops that narrow the span between the anchors. */
  method Narrow(ctx: Context, after: seq<Anchor>, before: seq<Anchor>) returns (out: Outcome)
    ensures out == ResolveBetween(ctx, after, before)
  {
    var lo, hi := NEG_INF, POS_INF;
    for i := 0 to |after|
      invariant LatestEnd(ctx, after[..i]) == (None, lo)
    {
      assert after[..i + 1][..i] == after[..i];
      var t := AnchorRange(ctx, after[i]);
      if t.Failed? {
        FailureStays(ctx, after, i + 1);
        return t;
      }
      lo := Max(lo, t.range.earliestEnd);
    }
    assert after[..|after|] == after;
    for i := 0 to |before|
      invariant EarliestStart(ctx, before[..i]) == (None, hi)
    {
      assert before[..i + 1][..i] == before[..i];
      var t := AnchorRange(ctx, before[i]);
      if t.Failed? {
        FailureStaysBefore(ctx, before, i + 1);
        return t;
      }
      hi := Min(hi, t.range.latestStart);
    }
    assert before[..|before|] == before;
    if lo >= hi { return Failed(Contradiction); }
    return Resolved(Within(lo, hi));
  }

  lemma {:induction false} FailureStays(ctx: Context, after: seq<Anchor>, i: nat)
    requires i <= |after| && LatestEnd(ctx, after[..i]).0.Some?
    ensures LatestEnd(ctx, after).0 == LatestEnd(ctx, after[..i]).0
    decreases |after|
  {
    if i == |after| {
      assert after[..i] == after;
    } else {
      assert after[..|after| - 1][..i] == after[..i];
      FailureStays(ctx, after[..|after| - 1], i);
    }
  }

  lemma {:induction false} FailureStaysBefore(ctx: Context, before: seq<Anchor>, i: nat)
    requires i <= |before| && EarliestStart(ctx, before[..i]).0.Some?
    ensures EarliestStart(ctx, before).0 == EarliestStart(ctx, before[..i]).0
    decreases |before|
  {
    if i == |before| {
      assert before[..i] == before;
    } else {
      assert before[..|before| - 1][..i] == before[..i];
      FailureStaysBefore(ctx, before[..|before| - 1], i);
    }
  }

  // ------------------------------------------------------------ what an expression allows

  /** The interval, perhaps an instant, is one that the anchor may be. */
  ghost predicate AnchorMay(ctx: Context, a: Anchor, s: int, e: int) {
    AnchorRange(ctx, a).Resolved? && NEG_INF < s <= e < POS_INF && Contains(AnchorRange(ctx, a).range, s, e)
  }

  /** The anchor may have ended by `s`. */
  ghost predicate MayEndBy(ctx: Context, a: Anchor, s: int) {
    exists x, y :: AnchorMay(ctx, a, x, y) && y <= s
  }

  /** The anchor may start at or after `e`. */
  ghost predicate MayStartAt(ctx: Context, a: Anchor, e: int) {
    exists x, y :: AnchorMay(ctx, a, x, y) && e <= x
  }

  /** The time lies in some interval that the expression allows; an unknown one allows any time. */
  ghost predicate Somewhere(ctx: Context, ast: TimeAst, t: int)
    decreases ast, 1
  {
    ast.UnknownTime? || exists x, y :: Allows(ctx, ast, x, y) && x <= t <= y
  }

  /** The interval is that of the anchor moved by `d`, which lies between the offsets. */
  ghost predicate MovedBy(ctx: Context, anchor: Anchor, low: int, high: int, s: int, e: int, d: int) {
    AnchorMay(ctx, anchor, s - d, e - d) && low <= d <= high
  }

  ghost predicate Near(d: int, fuzz: int) {
    -fuzz <= d <= fuzz
  }

  /** The concrete intervals that an expression allows. */
  ghost predicate Allows(ctx: Context, ast: TimeAst, s: int, e: int)
    decreases ast, 0
  {
    Concrete(s, e) &&
    match ast
    case UnknownTime => false
    case UnparsedTime => false
    case InWindow(Refused(_)) => false
    case InWindow(Bounds(a, b, uncertain)) => a <= s && e <= (if uncertain then b + 60 * TICKS_PER_DAY else b)
    case Approx(inner) =>
      && Resolve(ctx, inner).Resolved?
      && var fuzz := ApproxFuzz(ctx, Width(Resolve(ctx, inner).range));
         exists ds, de :: Near(ds, fuzz) && Near(de, fuzz) && Allows(ctx, inner, s - ds, e - de)
    case Interval(start, end) => Somewhere(ctx, start, s) && Somewhere(ctx, end, e)
    case Relative(anchor, min, max, unitTicks) =>
      && ScaledUnit(ctx, unitTicks).Some?
      && exists d :: MovedBy(ctx, anchor, min * ScaledUnit(ctx, unitTicks).value,
        max * ScaledUnit(ctx, unitTicks).value, s, e, d)
    case Recurring => true
    case Between(after, before) =>
      (forall i | 0 <= i < |after| :: MayEndBy(ctx, after[i], s)) &&
      (forall i | 0 <= i < |before| :: MayStartAt(ctx, before[i], e))
  }

  // ------------------------------------------------------------ soundness

  predicate Reasonable(r: FuzzyRange) {
    IsOrdered(r) && Bounded(r)
  }

  /** The window is not backwards and has finite ticks, or is infinite. */
  predicate Forward(a: int, b: int) {
    NEG_INF <= a <= b <= POS_INF && a < POS_INF && NEG_INF < b
  }

  /** Anchor ranges are ordered, offsets are ordered, and units and windows are not backwards. */
  ghost predicate WellPosed(ctx: Context, ast: TimeAst) {
    && (forall a | AnchorRange(ctx, a).Resolved? :: Reasonable(AnchorRange(ctx, a).range))
    && (ctx.ticksPerDay.Some? ==> ctx.ticksPerDay.value > 0)
    && match ast
       case InWindow(Bounds(a, b, _)) => Forward(a, b)
       case Approx(inner) => WellPosed(ctx, inner)
       case Interval(start, end) => WellPosed(ctx, start) && WellPosed(ctx, end)
       case Relative(_, min, max, unitTicks) => min <= max && unitTicks > 0
       case _ => true
  }

  lemma {:induction false} LatestEndBound(ctx: Context, after: seq<Anchor>, s: int)
    requires LatestEnd(ctx, after).0.None? && (forall i | 0 <= i < |after| :: MayEndBy(ctx, after[i], s)) &&
      NEG_INF <= s
    ensures LatestEnd(ctx, after).1 <= s
  {
    if after != [] {
      var n := |after| - 1;
      LatestEndBound(ctx, after[..n], s);
      assert MayEndBy(ctx, after[n], s);
    }
  }

  lemma {:induction false} EarliestStartBound(ctx: Context, before: seq<Anchor>, e: int)
    requires EarliestStart(ctx, before).0.None? && (forall i | 0 <= i < |before| :: MayStartAt(ctx, before[i], e)) &&
      e <= POS_INF
    ensures e <= EarliestStart(ctx, before).1
  {
    if before != [] {
      var n := |before| - 1;
      EarliestStartBound(ctx, before[..n], e);
      assert MayStartAt(ctx, before[n], e);
    }
  }

  lemma {:induction false} LatestEndRange(ctx: Context, after: seq<Anchor>)
    requires forall a | AnchorRange(ctx, a).Resolved? :: Reasonable(AnchorRange(ctx, a).range)
    ensures NEG_INF <= LatestEnd(ctx, after).1 <= POS_INF
  {
    if after != [] { LatestEndRange(ctx, after[..|after| - 1]); }
  }

  lemma {:induction false} EarliestStartRange(ctx: Context, before: seq<Anchor>)
    requires forall a | AnchorRange(ctx, a).Resolved? :: Reasonable(AnchorRange(ctx, a).range)
    ensures NEG_INF <= EarliestStart(ctx, before).1 <= POS_INF
  {
    if before != [] { EarliestStartRange(ctx, before[..|before| - 1]); }
  }

  lemma TruncatedNonNegative(a: int, b: int)
    requires a >= 0 && b > 0
    ensures Truncated(a, b) >= 0
  {}

  lemma UnitPositive(ctx: Context, unitTicks: int)
    requires unitTicks > 0 && ctx.ticksPerDay.Some? && ctx.ticksPerDay.value > 0
    ensures ScaledUnit(ctx, unitTicks).value >= 0
  {
    assert unitTicks * ctx.ticksPerDay.value >= 0;
    TruncatedNonNegative(unitTicks * ctx.ticksPerDay.value, TICKS_PER_DAY);
  }

  lemma FuzzNonNegative(ctx: Context, r: FuzzyRange)
    requires IsOrdered(r) && (ctx.ticksPerDay.Some? ==> ctx.ticksPerDay.value > 0)
    ensures ApproxFuzz(ctx, Width(r)) >= 0
  {}

  lemma ScaledOrder(min: int, max: int, u: int)
    requires min <= max && u >= 0
    ensures min * u <= max * u
  {}

  lemma WindowReasonable(a: int, b: int, uncertain: bool)
    requires Forward(a, b)
    ensures var r := Within(a, b);
            r == FuzzyRange(a, b, a, b) &&
              Reasonable(if uncertain then Within(r.earliestStart, Offset(r.latestEnd, 60 * TICKS_PER_DAY)) else r)
  {}

  lemma WidenOrdered(r: FuzzyRange, fuzz: int)
    requires Reasonable(r) && fuzz >= 0
    ensures Reasonable(Widen(r, fuzz))
  {}

  lemma IntervalOrdered(s: FuzzyRange, e: FuzzyRange)
    requires Reasonable(s) && Reasonable(e)
    requires !(IsFinite(s.earliestStart) && IsFinite(e.latestEnd) && s.earliestStart >= e.latestEnd)
    ensures Reasonable(Normalized(FuzzyRange(s.earliestStart, s.latestEnd, e.earliestStart, e.latestEnd)))
  {}

  lemma UnknownReasonable()
    ensures Reasonable(UNKNOWN)
  {}

  /** Every resolved range is ordered. */
  lemma {:induction false} ResolvedOrdered(ctx: Context, ast: TimeAst)
    requires WellPosed(ctx, ast) && Resolve(ctx, ast).Resolved?
    ensures Reasonable(Resolve(ctx, ast).range)
    decreases ast
  {
    hide Reasonable, Widen, Shift, Normalized, Within, ApproxFuzz, Width, ScaledUnit, Offset;
    UnknownReasonable();
    match ast
    case InWindow(Bounds(a, b, uncertain)) =>
      WindowReasonable(a, b, uncertain);
    case Approx(inner) =>
      ResolvedOrdered(ctx, inner);
      FuzzNonNegative(ctx, Resolve(ctx, inner).range) by { OrderedPart(Resolve(ctx, inner).range); }
      WidenOrdered(Resolve(ctx, inner).range, ApproxFuzz(ctx, Width(Resolve(ctx, inner).range)));
    case Interval(start, end) =>
      if !start.UnknownTime? { ResolvedOrdered(ctx, start); }
      if !end.UnknownTime? { ResolvedOrdered(ctx, end); }
      IntervalOrdered(if start.UnknownTime? then UNKNOWN else Resolve(ctx, start).range, if end.UnknownTime? then
        UNKNOWN else Resolve(ctx, end).range);
    case Relative(anchor, min, max, unitTicks) =>
      RelativeOrdered(ctx, anchor, min, max, unitTicks);
    case Between(after, before) =>
      BetweenOrdered(ctx, after, before);
    case _ =>
  }

  lemma OrderedPart(r: FuzzyRange)
    requires Reasonable(r)
    ensures IsOrdered(r) && Bounded(r)
  {}

  lemma RelativeOrdered(ctx: Context, anchor: Anchor, min: int, max: int, unitTicks: int)
    requires WellPosed(ctx, Relative(anchor, min, max, unitTicks)) &&
      Resolve(ctx, Relative(anchor, min, max, unitTicks)).Resolved?
    ensures Reasonable(Resolve(ctx, Relative(anchor, min, max, unitTicks)).range)
  {
    hide Shift, ScaledUnit;
    UnitKnown(ctx, unitTicks);
    UnitPositive(ctx, unitTicks);
    var u := ScaledUnit(ctx, unitTicks).value;
    ScaledOrder(min, max, u);
    ShiftOrdered(AnchorRange(ctx, anchor).range, min * u, max * u);
  }

  lemma UnitKnown(ctx: Context, unitTicks: int)
    ensures ScaledUnit(ctx, unitTicks).Some? <==> ctx.ticksPerDay.Some?
  {}

  lemma BetweenOrdered(ctx: Context, after: seq<Anchor>, before: seq<Anchor>)
    requires WellPosed(ctx, Between(after, before)) && ResolveBetween(ctx, after, before).Resolved?
    ensures Reasonable(ResolveBetween(ctx, after, before).range)
  {
    LatestEndRange(ctx, after);
    EarliestStartRange(ctx, before);
  }

  /** Every interval that the expression allows lies in the resolved range. */
  lemma {:induction false} ResolveSound(ctx: Context, ast: TimeAst, s: int, e: int)
    requires WellPosed(ctx, ast) && Resolve(ctx, ast).Resolved? && Allows(ctx, ast, s, e)
    ensures Contains(Resolve(ctx, ast).range, s, e)
    decreases ast, 0
  {
    hide Widen, Shift, Normalized, Within, ApproxFuzz, Width, ScaledUnit, Offset, AnchorMay, Somewhere;
    match ast
    case InWindow(Bounds(a, b, uncertain)) =>
      WindowSound(a, b, uncertain, s, e);
    case Approx(inner) =>
      var r := Resolve(ctx, inner).range;
      var fuzz := ApproxFuzz(ctx, Width(r));
      var ds, de :| Near(ds, fuzz) && Near(de, fuzz) && Allows(ctx, inner, s - ds, e - de);
      ResolveSound(ctx, inner, s - ds, e - de);
      ResolvedOrdered(ctx, inner);
      WidenSound(r, fuzz, s - ds, e - de, ds, de);
    case Interval(start, end) =>
      SomewhereSound(ctx, start, s);
      SomewhereSound(ctx, end, e);
      IntervalSound(ctx, start, end, s, e);
    case Relative(anchor, min, max, unitTicks) =>
      RelativeSound(ctx, anchor, min, max, unitTicks, s, e);
    case Recurring =>
      UnknownSound(s, e);
    case Between(after, before) =>
      BetweenSound(ctx, after, before, s, e);
    case _ =>
  }

  lemma WindowSound(a: int, b: int, uncertain: bool, s: int, e: int)
    requires Forward(a, b) && Concrete(s, e) && a <= s && e <= (if uncertain then b + 60 * TICKS_PER_DAY else b)
    ensures var r := Within(a, b);
            Contains(if uncertain then Within(r.earliestStart, Offset(r.latestEnd, 60 * TICKS_PER_DAY)) else r, s, e)
  {
    WindowReasonable(a, b, uncertain);
  }

  lemma UnknownSound(s: int, e: int)
    requires Concrete(s, e)
    ensures Contains(UNKNOWN, s, e)
  {}

  lemma RelativeSound(ctx: Context, anchor: Anchor, min: int, max: int, unitTicks: int, s: int, e: int)
    requires WellPosed(ctx, Relative(anchor, min, max, unitTicks)) &&
      Resolve(ctx, Relative(anchor, min, max, unitTicks)).Resolved?
    requires Allows(ctx, Relative(anchor, min, max, unitTicks), s, e)
    ensures Contains(Resolve(ctx, Relative(anchor, min, max, unitTicks)).range, s, e)
  {
    hide Shift, ScaledUnit;
    var u := ScaledUnit(ctx, unitTicks).value;
    var d :| MovedBy(ctx, anchor, min * u, max * u, s, e, d);
    ShiftSound(AnchorRange(ctx, anchor).range, min * u, max * u, s - d, e - d, d);
  }

  lemma BetweenSound(ctx: Context, after: seq<Anchor>, before: seq<Anchor>, s: int, e: int)
    requires WellPosed(ctx, Between(after, before)) && ResolveBetween(ctx, after, before).Resolved? &&
      Allows(ctx, Between(after, before), s, e)
    ensures Contains(ResolveBetween(ctx, after, before).range, s, e)
  {
    LatestEndBound(ctx, after, s);
    EarliestStartBound(ctx, before, e);
  }

  /** A time in some allowed interval lies between the ends of the resolved range. */
  lemma {:induction false} SomewhereSound(ctx: Context, ast: TimeAst, t: int)
    requires WellPosed(ctx, ast) && Somewhere(ctx, ast, t) && (ast.UnknownTime? || Resolve(ctx, ast).Resolved?)
    ensures !ast.UnknownTime? ==> Resolve(ctx, ast).range.earliestStart <= t <= Resolve(ctx, ast).range.latestEnd
    decreases ast, 1
  {
    hide Allows, Resolve, IsOrdered;
    if !ast.UnknownTime? {
      var x, y :| Allows(ctx, ast, x, y) && x <= t <= y;
      ResolveSound(ctx, ast, x, y);
      ResolvedOrdered(ctx, ast);
      OrderedEnds(Resolve(ctx, ast).range);
    }
  }

  lemma OrderedEnds(r: FuzzyRange)
    requires IsOrdered(r)
    ensures r.earliestStart <= r.latestStart <= r.latestEnd && r.earliestStart <= r.earliestEnd <= r.latestEnd
  {}

  lemma IntervalSound(ctx: Context, start: TimeAst, end: TimeAst, s: int, e: int)
    requires Resolve(ctx, Interval(start, end)).Resolved? && Concrete(s, e)
    requires !start.UnknownTime? ==> Resolve(ctx, start).range.earliestStart <= s <= Resolve(ctx, start).range.latestEnd
    requires !end.UnknownTime? ==> Resolve(ctx, end).range.earliestStart <= e <= Resolve(ctx, end).range.latestEnd
    ensures Contains(Resolve(ctx, Interval(start, end)).range, s, e)
  {}

  // ------------------------------------------------------------ contradictions

  /** All anchors were resolved on the axis of the expression. */
  ghost predicate AllResolved(ctx: Context, anchors: seq<Anchor>) {
    forall i | 0 <= i < |anchors| :: AnchorRange(ctx, anchors[i]).Resolved?
  }

  lemma {:induction false} NoneFailed(ctx: Context, anchors: seq<Anchor>)
    ensures AllResolved(ctx, anchors) <==> LatestEnd(ctx, anchors).0.None?
    ensures AllResolved(ctx, anchors) <==> EarliestStart(ctx, anchors).0.None?
  {
    if anchors != [] {
      var n := |anchors| - 1;
      NoneFailed(ctx, anchors[..n]);
      assert AllResolved(ctx, anchors) <==> AllResolved(ctx, anchors[..n]) && AnchorRange(ctx, anchors[n]).Resolved?;
    }
  }

  /** Whatever the anchors are, "after these and before those" is only called contradictory if it allows no interval. */
  lemma ContradictionSound(ctx: Context, after: seq<Anchor>, before: seq<Anchor>, s: int, e: int)
    requires AllResolved(ctx, after) && AllResolved(ctx, before) &&
      ResolveBetween(ctx, after, before) == Failed(Contradiction)
    ensures !Allows(ctx, Between(after, before), s, e)
  {
    hide MayEndBy, MayStartAt;
    NoneFailed(ctx, after);
    NoneFailed(ctx, before);
    if Allows(ctx, Between(after, before), s, e) {
      LatestEndBound(ctx, after, s);
      EarliestStartBound(ctx, before, e);
    }
  }

  /** The range has an end that may be finite and a start that may be. */
  predicate Open(r: FuzzyRange) {
    r.latestStart > NEG_INF && r.earliestEnd < POS_INF
  }

  ghost predicate AnchorsOpen(ctx: Context) {
    forall a | AnchorRange(ctx, a).Resolved? :: Reasonable(AnchorRange(ctx, a).range) && Open(AnchorRange(ctx, a).range)
  }

  /** Resolving keeps to such ranges. */
  lemma {:induction false} ResolvedOpen(ctx: Context, ast: TimeAst)
    requires WellPosed(ctx, ast) && AnchorsOpen(ctx) && Resolve(ctx, ast).Resolved?
    ensures Open(Resolve(ctx, ast).range)
    decreases ast
  {
    hide Reasonable, Open, Widen, Shift, Normalized, Within, ApproxFuzz, Width, ScaledUnit, Offset;
    UnknownOpen();
    match ast
    case InWindow(Bounds(a, b, uncertain)) =>
      WindowOpen(a, b, uncertain);
    case Approx(inner) =>
      ResolvedOpen(ctx, inner);
      ResolvedOrdered(ctx, inner);
      WidenOpen(Resolve(ctx, inner).range, ApproxFuzz(ctx, Width(Resolve(ctx, inner).range)));
    case Interval(start, end) =>
      UnknownReasonable();
      if !start.UnknownTime? { ResolvedOrdered(ctx, start); }
      if !end.UnknownTime? { ResolvedOrdered(ctx, end); }
      IntervalOpen(if start.UnknownTime? then UNKNOWN else Resolve(ctx, start).range, if end.UnknownTime? then UNKNOWN
        else Resolve(ctx, end).range);
    case Relative(anchor, min, max, unitTicks) =>
      var u := ScaledUnit(ctx, unitTicks).value;
      ShiftOpen(AnchorRange(ctx, anchor).range, min * u, max * u);
    case Between(after, before) =>
      BetweenOpen(ctx, after, before);
    case _ =>
  }

  lemma UnknownOpen()
    ensures Open(UNKNOWN)
  {}

  lemma WindowOpen(a: int, b: int, uncertain: bool)
    requires Forward(a, b)
    ensures var r := Within(a, b);
            Open(if uncertain then Within(r.earliestStart, Offset(r.latestEnd, 60 * TICKS_PER_DAY)) else r)
  {}

  lemma WidenOpen(r: FuzzyRange, fuzz: int)
    requires Reasonable(r) && Open(r)
    ensures Open(Widen(r, fuzz))
  {}

  lemma ShiftOpen(r: FuzzyRange, minDelta: int, maxDelta: int)
    requires Reasonable(r) && Open(r)
    ensures Open(Shift(r, minDelta, maxDelta))
  {}

  lemma IntervalOpen(s: FuzzyRange, e: FuzzyRange)
    requires Reasonable(s) && Reasonable(e)
    ensures Open(Normalized(FuzzyRange(s.earliestStart, s.latestEnd, e.earliestStart, e.latestEnd)))
  {}

  lemma BetweenOpen(ctx: Context, after: seq<Anchor>, before: seq<Anchor>)
    requires WellPosed(ctx, Between(after, before)) && ResolveBetween(ctx, after, before).Resolved?
    ensures Open(ResolveBetween(ctx, after, before).range)
  {
    LatestEndRange(ctx, after);
    EarliestStartRange(ctx, before);
  }

  function Finite(t: int): int {
    Max(NEG_INF + 1, Min(POS_INF - 1, t))
  }

  /** Such an anchor may be an interval that ends at its earliest end. */
  lemma MayEndAtEarliest(ctx: Context, a: Anchor, s: int)
    requires AnchorsOpen(ctx) && AnchorRange(ctx, a).Resolved? && AnchorRange(ctx, a).range.earliestEnd <= s &&
      NEG_INF < s
    ensures MayEndBy(ctx, a, s)
  {
    var r := AnchorRange(ctx, a).range;
    assert Reasonable(r) && Open(r);
    assert AnchorMay(ctx, a, Finite(r.earliestStart), Finite(r.earliestEnd));
  }

  lemma MayStartAtLatest(ctx: Context, a: Anchor, e: int)
    requires AnchorsOpen(ctx) && AnchorRange(ctx, a).Resolved? && e <= AnchorRange(ctx, a).range.latestStart &&
      e < POS_INF
    ensures MayStartAt(ctx, a, e)
  {
    var r := AnchorRange(ctx, a).range;
    assert Reasonable(r) && Open(r);
    assert AnchorMay(ctx, a, Finite(r.latestStart), Finite(r.latestEnd));
  }

  lemma {:induction false} LatestEndReached(ctx: Context, after: seq<Anchor>, s: int)
    requires AnchorsOpen(ctx) && AllResolved(ctx, after) && LatestEnd(ctx, after).1 <= s && NEG_INF < s
    ensures forall i | 0 <= i < |after| :: MayEndBy(ctx, after[i], s)
  {
    hide AnchorsOpen, MayEndBy;
    if after != [] {
      var n := |after| - 1;
      NoneFailed(ctx, after[..n]);
      LatestEndReached(ctx, after[..n], s);
      MayEndAtEarliest(ctx, after[n], s);
    }
  }

  lemma {:induction false} EarliestStartReached(ctx: Context, before: seq<Anchor>, e: int)
    requires AnchorsOpen(ctx) && AllResolved(ctx, before) && e <= EarliestStart(ctx, before).1 && e < POS_INF
    ensures forall i | 0 <= i < |before| :: MayStartAt(ctx, before[i], e)
  {
    hide AnchorsOpen, MayStartAt;
    if before != [] {
      var n := |before| - 1;
      NoneFailed(ctx, before[..n]);
      EarliestStartReached(ctx, before[..n], e);
      MayStartAtLatest(ctx, before[n], e);
    }
  }

  /** The span between the anchors is but the first or the last tick of the axis. */
  predicate AtTheEdge(lo: int, hi: int) {
    (lo == NEG_INF && hi == NEG_INF + 1) || (lo == POS_INF - 1 && hi == POS_INF)
  }

  /** "After these and before those" allows no interval exactly when it is refused as contradictory, for anchors of
    * every kind, or when only the first or the last tick of the axis is left.
    */
  lemma ContradictionExact(ctx: Context, after: seq<Anchor>, before: seq<Anchor>)
    requires WellPosed(ctx, Between(after, before)) && AnchorsOpen(ctx) && AllResolved(ctx, after) &&
      AllResolved(ctx, before)
    ensures (forall s, e :: !Allows(ctx, Between(after, before), s, e)) <==>
              || ResolveBetween(ctx, after, before) == Failed(Contradiction)
              || AtTheEdge(LatestEnd(ctx, after).1, EarliestStart(ctx, before).1)
  {
    hide AnchorsOpen, AllResolved, MayEndBy, MayStartAt;
    NoneFailed(ctx, after);
    NoneFailed(ctx, before);
    LatestEndRange(ctx, after);
    EarliestStartRange(ctx, before);
    var lo, hi := LatestEnd(ctx, after).1, EarliestStart(ctx, before).1;
    forall s, e | Allows(ctx, Between(after, before), s, e) ensures lo <= s < e <= hi {
      LatestEndBound(ctx, after, s);
      EarliestStartBound(ctx, before, e);
    }
    if Finite(lo) < Finite(hi) && lo < POS_INF && NEG_INF < hi {
      LatestEndReached(ctx, after, Finite(lo));
      EarliestStartReached(ctx, before, Finite(hi));
      assert Allows(ctx, Between(after, before), Finite(lo), Finite(hi));
    }
  }

  /** What is before an event that starts at the second tick of the axis has one tick left and is not refused. */
  lemma EdgeNotRefused(ctx: Context)
    requires ctx == Context(Some(TICKS_PER_DAY), "earth",
      a => Found(Temporal(FuzzyRange(NEG_INF + 1, NEG_INF + 1, 0, 0), "earth")))
    ensures ResolveBetween(ctx, [], [7]).Resolved? && forall s, e :: !Allows(ctx, Between([], [7]), s, e)
  {
    assert [7][..0] == [];
    assert EarliestStart(ctx, [7]) == (None, NEG_INF + 1);
    ContradictionExact(ctx, [], [7]);
  }

  /** An interval refused because it starts after its end allows nothing. */
  lemma IntervalContradiction(ctx: Context, start: TimeAst, end: TimeAst, s: int, e: int)
    requires WellPosed(ctx, Interval(start, end)) && Resolve(ctx, Interval(start, end)) == Failed(Contradiction)
    requires start.UnknownTime? || Resolve(ctx, start).Resolved?
    requires end.UnknownTime? || Resolve(ctx, end).Resolved?
    ensures !Allows(ctx, Interval(start, end), s, e)
  {
    if Allows(ctx, Interval(start, end), s, e) {
      SomewhereSound(ctx, start, s);
      SomewhereSound(ctx, end, e);
    }
  }
}
