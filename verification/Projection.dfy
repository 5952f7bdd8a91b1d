/** The rows of a branch projection with their stale marks and time index (projection.rs). */
module Projections {
  import opened Wrappers
  import opened TimeRange
  import Ranges
  import Recurrences
  import T = TemporalIndexes

  type ResourceId = nat
  type Doc = nat

  /** A resolved time; a recurring one keeps its rule beside the range in which it holds. */
  datatype Temporal = Temporal(range: FuzzyRange, axis: string, recurrence: Option<Recurrences.Spec>) {
    predicate Recurs() { recurrence.Some? }
  }

  datatype Row = Row(id: ResourceId, temporal: Option<Temporal>, unresolved: Option<string>,
      alternatives: seq<Temporal>,
      stale: bool)

  datatype Table = Table(rows: seq<Option<Row>>, docOf: map<ResourceId, Doc>, live: set<Doc>, stale: set<Doc>,
                         dated: set<Doc>, recurring: set<Doc>, spans: map<Doc, (int, int)>)

  const NO_ROWS: Table := Table([], map[], {}, {}, {}, {}, map[])

  /** The possible span of the time and of the alternatives on the same axis that do not recur. */
  function Envelope(t: Temporal, alternatives: seq<Temporal>): (int, int) {
    if alternatives == [] then (t.range.earliestStart, t.range.latestEnd)
    else
      var span, a := Envelope(t, alternatives[..|alternatives| - 1]), alternatives[|alternatives| - 1];
      if a.axis == t.axis && !a.Recurs()
      then (Ranges.Min(span.0, a.range.earliestStart), Ranges.Max(span.1, a.range.latestEnd))
      else span
  }

  /** The span by which a row is indexed, if it is. */
  function Indexed(row: Row): Option<(int, int)> {
    if row.temporal.None? || row.temporal.value.Recurs() then None
    else
      var span := Envelope(row.temporal.value, row.alternatives);
      Some((span.0, Ranges.Max(span.1, span.0)))
  }

  function RowAt(t: Table, d: Doc): Option<Row> {
    if d < |t.rows| then t.rows[d] else None
  }

  function RowOf(t: Table, id: ResourceId): Option<Row> {
    if id in t.docOf then RowAt(t, t.docOf[id]) else None
  }

  // ------------------------------------------------------------ operations

  function MarkStale(t: Table, id: ResourceId): Table {
    if RowOf(t, id).None? then t
    else
      var d := t.docOf[id];
      t.(rows := t.rows[d := Some(t.rows[d].value.(stale := true))], stale := t.stale + {d})
  }

  function Unindex(t: Table, d: Doc): Table {
    t.(spans := t.spans - {d}, dated := t.dated - {d}, recurring := t.recurring - {d})
  }

  function DocFor(t: Table, id: ResourceId): Doc {
    if id in t.docOf then t.docOf[id] else |t.rows|
  }

  function IndexTime(t: Table, doc: Doc, row: Row): Table {
    var span := Indexed(row);
    t.(dated := if row.temporal.Some? then t.dated + {doc} else t.dated,
       recurring := if row.temporal.Some? && row.temporal.value.Recurs() then t.recurring + {doc} else t.recurring,
       spans := if span.Some? then t.spans[doc := span.value] else t.spans)
  }

  function Upsert(t: Table, row: Row): Table
    requires DocFor(t, row.id) <= |t.rows|
  {
    var doc := DocFor(t, row.id);
    var rows := if doc < |t.rows| then t.rows else t.rows + [None];
    var timed := IndexTime(if rows[doc].Some? then Unindex(t, doc) else t, doc, row);
    timed.(rows := rows[doc := Some(row)], docOf := t.docOf[row.id := doc], live := t.live + {doc},
      stale := t.stale - {doc})
  }

  function Remove(t: Table, id: ResourceId): Table
    requires id in t.docOf ==> t.docOf[id] < |t.rows|
  {
    if id !in t.docOf then t
    else
      var d := t.docOf[id];
      var cleared := if t.rows[d].Some? then Unindex(t, d) else t;
      cleared.(rows := t.rows[d := None], live := t.live - {d}, stale := t.stale - {d})
  }

  // ------------------------------------------------------------ the invariant

  /** What the sets and the index say about one document. */
  ghost predicate Described(t: Table, d: Doc) {
    var row := RowAt(t, d);
    && (d in t.live <==> row.Some?)
    && (d in t.stale <==> row.Some? && row.value.stale)
    && (d in t.dated <==> row.Some? && row.value.temporal.Some?)
    && (d in t.recurring <==> row.Some? && row.value.temporal.Some? && row.value.temporal.value.Recurs())
    && (d in t.spans <==> row.Some? && Indexed(row.value).Some?)
    && (d in t.spans ==> Some(t.spans[d]) == Indexed(row.value))
    && (row.Some? ==> row.value.id in t.docOf && t.docOf[row.value.id] == d)
  }

  ghost predicate Ok(t: Table) {
    && (forall d: Doc :: Described(t, d))
    && (forall id | id in t.docOf :: t.docOf[id] < |t.rows|)
    && (forall a, b | a in t.docOf && b in t.docOf && t.docOf[a] == t.docOf[b] :: a == b)
  }

  /** Only the row of `id` may differ. */
  ghost predicate Elsewhere(t: Table, t': Table, id: ResourceId) {
    forall x: ResourceId | x != id :: RowOf(t', x) == RowOf(t, x)
  }

  lemma MarkStaleOk(t: Table, id: ResourceId)
    requires Ok(t)
    ensures var t' := MarkStale(t, id);
            && Ok(t') && Elsewhere(t, t', id)
            && RowOf(t', id) == (if RowOf(t, id).None? then None else Some(RowOf(t, id).value.(stale := true)))
            && t'.docOf == t.docOf && t'.spans == t.spans && t'.recurring == t.recurring
  {
    var t' := MarkStale(t, id);
    if RowOf(t, id).Some? {
      hide Indexed;
      var doc := t.docOf[id];
      forall d: Doc ensures Described(t', d) {
        assert Described(t, d);
        SameIndexed(t.rows[doc].value);
        assert d == doc ==> t.rows[doc].value.id == id;
      }
    }
  }

  lemma SameIndexed(row: Row)
    ensures Indexed(row.(stale := true)) == Indexed(row)
  {}

  lemma UpsertOk(t: Table, row: Row)
    requires Ok(t) && !row.stale
    ensures DocFor(t, row.id) <= |t.rows|
    ensures var t' := Upsert(t, row); Ok(t') && Elsewhere(t, t', row.id) && RowOf(t', row.id) == Some(row)
  {
    hide Indexed;
    var doc, t' := DocFor(t, row.id), Upsert(t, row);
    forall d: Doc ensures Described(t', d) {
      assert Described(t, d);
      assert Described(t, doc);
    }
  }

  lemma RemoveOk(t: Table, id: ResourceId)
    requires Ok(t)
    ensures var t' := Remove(t, id); Ok(t') && Elsewhere(t, t', id) && RowOf(t', id) == None
  {
    hide Indexed;
    if id in t.docOf {
      var doc, t' := t.docOf[id], Remove(t, id);
      forall d: Doc ensures Described(t', d) {
        assert Described(t, d);
        assert Described(t, doc);
      }
    }
  }

  // ------------------------------------------------------------ the time filter of a search

  datatype Mode = Possibly | Certainly | Within

  datatype Window = Window(qs: int, qe: int, axis: string, mode: Mode, includeUndated: bool)

  predicate ValidWindow(w: Window) {
    NEG_INF <= w.qs < w.qe <= POS_INF
  }

  /** A time against a window: the range decides, or the occurrences in its part of the window. */
  ghost predicate MatchesWindow(t: Temporal, qs: int, qe: int, certainly: bool) {
    match t.recurrence
    case Some(spec) =>
      && Ranges.PossiblyOverlaps(t.range, qs, qe)
      && Recurrences.Search(spec, Ranges.Max(qs, t.range.earliestStart), Ranges.Min(qe, t.range.latestEnd)) ==
        Some(true)
    case None => if certainly then Ranges.CertainlyOverlaps(t.range, qs, qe)
      else Ranges.PossiblyOverlaps(t.range, qs, qe)
  }

  ghost predicate AcceptsTime(w: Window, t: Temporal) {
    match w.mode
    case Within => if t.recurrence.None? then w.qs <= t.range.earliestStart && t.range.latestEnd <= w.qe
      else MatchesWindow(t, w.qs, w.qe, false)
    case Certainly => MatchesWindow(t, w.qs, w.qe, true)
    case Possibly => MatchesWindow(t, w.qs, w.qe, false)
  }

  /** The three modes for a time that does not recur: some interval that it may be meets the window, every one does, or
    * every one lies within it.
    */
  lemma ModesExact(w: Window, t: Temporal)
    requires t.recurrence.None? && Ranges.IsOrdered(t.range)
    ensures AcceptsTime(w, t) <==>
              match w.mode
              case Possibly => exists s, e :: s <= e && Ranges.Contains(t.range, s, e) && Ranges.Meets(s, e, w.qs, w.qe)
              case Certainly => forall s, e | s <= e && Ranges.Contains(t.range, s, e) :: Ranges.Meets(s, e, w.qs, w.qe)
              case Within => forall s, e | s <= e && Ranges.Contains(t.range, s, e) :: w.qs <= s && e <= w.qe
  {
    Ranges.OverlapsExact(t.range, w.qs, w.qe);
    assert Ranges.Contains(t.range, t.range.earliestStart, t.range.latestEnd);
  }

  /** A time that recurs is accepted in every mode if the search finds an occurrence in its part of the window. */
  lemma ModesRecurring(w: Window, mode: Mode, t: Temporal)
    requires t.recurrence.Some?
    ensures AcceptsTime(w, t) <==> AcceptsTime(w.(mode := mode), t)
  {}

  /** What the time filter keeps: a row whose time the window accepts on its axis, one of which it possibly accepts
    * an alternative, or an undated row if these are wanted.
    */
  ghost predicate Accepts(row: Row, w: Window) {
    match row.temporal
    case None => w.includeUndated
    case Some(t) =>
      || (t.axis == w.axis && AcceptsTime(w, t))
      || (w.mode.Possibly? && exists a :: a in row.alternatives && a.axis == w.axis && AcceptsTime(w, a))
  }

  /** An alternative never makes a row certain: what is certainly accepted is so by every interval of its own time. An
    * alternative does make it possible.
    */
  lemma CertainByOwnTime(row: Row, w: Window)
    requires row.temporal.Some? && row.temporal.value.recurrence.None? && Ranges.IsOrdered(row.temporal.value.range)
    ensures w.mode.Certainly? ==>
              (Accepts(row, w) <==>
                 row.temporal.value.axis == w.axis &&
                 forall s, e | s <= e && Ranges.Contains(row.temporal.value.range, s, e) ::
                   Ranges.Meets(s, e, w.qs, w.qe))
    ensures forall a | a in row.alternatives && a.axis == w.axis && w.mode.Possibly? && AcceptsTime(w, a) ::
              Accepts(row, w)
  {
    ModesExact(w, row.temporal.value);
  }

  /** What a search takes from the index before it looks at rows. */
  ghost predicate Candidate(t: Table, d: Doc, w: Window) {
    || (d in t.spans && t.spans[d].0 < w.qe && t.spans[d].1 > w.qs)
    || d in t.recurring
    || (w.includeUndated && d in t.live && d !in t.dated)
  }

  /** Candidates are rows whose envelope overlaps the window, rows that recur, or undated ones. */
  lemma CandidatesAreRows(t: Table, d: Doc, w: Window)
    requires Ok(t) && Candidate(t, d, w)
    ensures RowAt(t, d).Some?
    ensures match RowAt(t, d).value.temporal
            case None => w.includeUndated
            case Some(main) =>
              main.Recurs() || var span := Envelope(main, RowAt(t, d).value.alternatives);
                span.0 < w.qe && Ranges.Max(span.1, span.0) > w.qs
  {
    assert Described(t, d);
  }

  // ------------------------------------------------------------ which rows a search can lose

  lemma {:induction false} EnvelopeCovers(t: Temporal, alternatives: seq<Temporal>)
    ensures var span := Envelope(t, alternatives);
            && span.0 <= t.range.earliestStart && t.range.latestEnd <= span.1
            && (forall a | a in alternatives && a.axis == t.axis && !a.Recurs() ::
                  span.0 <= a.range.earliestStart && a.range.latestEnd <= span.1)
  {
    if alternatives != [] {
      var n := |alternatives| - 1;
      EnvelopeCovers(t, alternatives[..n]);
      assert forall a | a in alternatives :: a in alternatives[..n] || a == alternatives[n];
    }
  }

  predicate OnTicks(lo: int, hi: int) {
    NEG_INF <= lo <= POS_INF && NEG_INF <= hi <= POS_INF
  }

  /** All bounds are 64-bit ticks, and recurrences are as they are resolved: with no bounds on when they hold. */
  ghost predicate Given(t: Temporal) {
    && OnTicks(t.range.earliestStart, t.range.latestEnd) && OnTicks(t.range.latestStart, t.range.earliestEnd)
    && (t.recurrence.Some? ==> Recurrences.Resolvable(t.recurrence.value) && t.range == Ranges.UNKNOWN)
  }

  ghost predicate GivenRow(row: Row) {
    (row.temporal.Some? ==> Given(row.temporal.value)) && forall a | a in row.alternatives :: Given(a)
  }

  predicate Meets(a: int, b: int, qs: int, qe: int) {
    a < qe && b > qs
  }

  /** The span lies within `[lo, hi]`, unless no window meets it at all. */
  predicate WithinSpan(a: int, b: int, lo: int, hi: int) {
    a < POS_INF && b > NEG_INF ==> lo <= a && b <= hi
  }

  /** A window that meets the span and misses the indexed one, if the span is not within. */
  function Gap(a: int, b: int, lo: int, hi: int): (int, int) {
    if a < lo then (Ranges.Min(a, b - 1), a + 1) else (hi, Ranges.Max(a, hi) + 1)
  }

  /** Every window that meets the span meets the indexed one exactly when it lies within. */
  lemma WithinExact(a: int, b: int, lo: int, hi: int)
    requires OnTicks(a, b) && OnTicks(lo, hi)
    ensures WithinSpan(a, b, lo, hi) ==>
      forall qs, qe | NEG_INF <= qs < qe <= POS_INF && Meets(a, b, qs, qe) :: Meets(lo, hi, qs, qe)
    ensures !WithinSpan(a, b, lo, hi) ==>
              var (qs, qe) := Gap(a, b, lo, hi);
                NEG_INF <= qs < qe <= POS_INF && Meets(a, b, qs, qe) && !Meets(lo, hi, qs, qe)
  {}

  /** A recurring time matches exactly the windows that some occurrence overlaps and whose search stays within 64
    * bits, which fails, away from the ends of the axis, only for the whole axis and an offset ahead of UTC.
    */
  lemma RecurringMatches(t: Temporal, qs: int, qe: int)
    requires t.Recurs() && Given(t) && NEG_INF <= qs < qe <= POS_INF
    ensures var spec := t.recurrence.value;
            && (MatchesWindow(t, qs, qe, false) <==>
                  (exists day :: Recurrences.OccursOn(spec, day, qs, qe)) && !Recurrences.Overflows(spec, qs, qe))
            && (Recurrences.FarFromEnds(qs, qe) ==>
                  (Recurrences.Overflows(spec, qs, qe) <==>
                    qs == NEG_INF && qe == POS_INF && spec.utcOffsetMinutes > 0))
  {
    hide Recurrences.Search, Recurrences.Resolvable, Recurrences.OccursOn, Recurrences.Overflows,
      Recurrences.FarFromEnds;
    Recurrences.ResolvedHaveMargin(t.recurrence.value);
    Recurrences.SearchExact(t.recurrence.value, qs, qe);
    if Recurrences.FarFromEnds(qs, qe) { Recurrences.OverflowExact(t.recurrence.value, qs, qe); }
  }

  /** All that the time can be lies within the span; a recurring one has occurrences on the whole axis, or none. */
  ghost predicate Kept(t: Temporal, lo: int, hi: int) {
    if t.Recurs() then (lo == NEG_INF && hi == POS_INF) || forall day ::
      !Recurrences.MatchesDay(t.recurrence.value.rule, day)
    else WithinSpan(t.range.earliestStart, t.range.latestEnd, lo, hi)
  }

  /** The ends of a span are infinite, or twenty thousand years from the ends of the axis. */
  predicate Settled(lo: int, hi: int) {
    (lo == NEG_INF || NEG_INF + 2 * Recurrences.FAR <= lo) && (hi == POS_INF || hi <= POS_INF - 2 * Recurrences.FAR)
  }

  /** No window that possibly accepts the time misses the span. */
  ghost predicate NeverMissed(t: Temporal, lo: int, hi: int) {
    forall qs, qe | NEG_INF <= qs < qe <= POS_INF && MatchesWindow(t, qs, qe, false) :: Meets(lo, hi, qs, qe)
  }

  /** Every window that possibly accepts a time meets a span exactly when all that the time can be lies within. */
  lemma KeptExact(t: Temporal, lo: int, hi: int)
    requires Given(t) && OnTicks(lo, hi)
    ensures Kept(t, lo, hi) ==> NeverMissed(t, lo, hi)
    ensures !t.Recurs() || Settled(lo, hi) ==> (NeverMissed(t, lo, hi) <==> Kept(t, lo, hi))
  {
    hide Recurrences.Search, Recurrences.Resolvable, Recurrences.OccursOn, Recurrences.Overflows, WithinSpan, Gap,
      Settled;
    if !t.Recurs() {
      var a, b := t.range.earliestStart, t.range.latestEnd;
      WithinExact(a, b, lo, hi);
      assert !WithinSpan(a, b, lo, hi) ==> var (qs, qe) := Gap(a, b, lo, hi); MatchesWindow(t, qs, qe, false);
    } else {
      forall qs, qe | Kept(t, lo, hi) && NEG_INF <= qs < qe <= POS_INF && MatchesWindow(t, qs, qe, false)
        ensures Meets(lo, hi, qs, qe)
      {
        RecurringMatches(t, qs, qe);
        var day :| Recurrences.OccursOn(t.recurrence.value, day, qs, qe);
        DayOf(t, day, qs, qe);
      }
      if Settled(lo, hi) && !Kept(t, lo, hi) {
        var day :| Recurrences.MatchesDay(t.recurrence.value.rule, day);
        var tick := OutsideSpan(t, day, lo, hi);
        assert MatchesWindow(t, tick, tick + 1, false);
      }
    }
  }

  lemma DayOf(t: Temporal, day: int, qs: int, qe: int)
    requires t.Recurs() && Recurrences.OccursOn(t.recurrence.value, day, qs, qe)
    ensures Recurrences.MatchesDay(t.recurrence.value.rule, day)
  {}

  /** Beside a span that is not the whole axis a rule that matches some day has an occurrence. */
  lemma OutsideSpan(t: Temporal, day: int, lo: int, hi: int) returns (tick: int)
    requires t.Recurs() && Given(t) && Settled(lo, hi) && OnTicks(lo, hi) && !(lo == NEG_INF && hi == POS_INF)
    requires Recurrences.MatchesDay(t.recurrence.value.rule, day)
    ensures NEG_INF <= tick < tick + 1 <= POS_INF && !Meets(lo, hi, tick, tick + 1) &&
      MatchesWindow(t, tick, tick + 1, false)
  {
    hide Recurrences.Search, Recurrences.Resolvable, Recurrences.Overflows, Recurrences.MatchesDay,
      Recurrences.StartOn, MatchesWindow, Given;
    var spec := t.recurrence.value;
    var end := if lo != NEG_INF then NEG_INF + Recurrences.FAR + Recurrences.ERA_TICKS
      else POS_INF - Recurrences.FAR - 1;
    var moved := Recurrences.IntoEra(spec, day, end);
    tick := Recurrences.StartOn(spec, moved);
    assert Recurrences.OccursOn(spec, moved, tick, tick + 1);
    RecurringMatches(t, tick, tick + 1);
  }

  /** The certain part of the time lies within the span, and the time is neither before nor after all of it. */
  predicate OwnKept(r: FuzzyRange, lo: int, hi: int) {
    WithinSpan(r.latestStart, r.earliestEnd, lo, hi) && (lo == NEG_INF || lo < r.latestEnd) &&
      (hi == POS_INF || r.earliestStart < hi)
  }

  /** So it is for every ordered range that is not an instant, as resolving gives them. */
  lemma OrderedKept(r: FuzzyRange, lo: int, hi: int)
    requires Ranges.IsOrdered(r) && r.earliestStart < r.latestEnd && lo <= r.earliestStart && r.latestEnd <= hi
    ensures OwnKept(r, lo, hi)
  {}

  /** The envelope has no part in which the row could be sought through an alternative. */
  ghost predicate Covered(row: Row)
    requires row.temporal.Some?
  {
    var t := row.temporal.value;
    t.Recurs() ||
    var span := Indexed(row).value;
    && OwnKept(t.range, span.0, span.1)
    && forall a | a in row.alternatives && (a.axis != t.axis || a.Recurs()) :: Kept(a, span.0, span.1)
  }

  /** No row that the time filter would keep is missing from the candidates of the window. */
  ghost predicate NeverLost(t: Table, d: Doc, row: Row) {
    forall w | ValidWindow(w) && Accepts(row, w) :: Candidate(t, d, w)
  }

  /** How the filter accepts a row's own time, in each mode, against the span by which it is indexed. */
  lemma OwnExact(t: Temporal, lo: int, hi: int)
    requires !t.Recurs() && Given(t) && OnTicks(lo, hi) && lo <= t.range.earliestStart && t.range.latestEnd <= hi
    ensures OwnKept(t.range, lo, hi) <==>
      forall w | ValidWindow(w) && w.axis == t.axis && AcceptsTime(w, t) :: Meets(lo, hi, w.qs, w.qe)
  {
    var a, b := t.range.latestStart, t.range.earliestEnd;
    WithinExact(a, b, lo, hi);
    var (qs, qe) := Gap(a, b, lo, hi);
    var sure := Window(qs, qe, t.axis, Certainly, false);
    assert !WithinSpan(a, b, lo, hi) ==> ValidWindow(sure) && AcceptsTime(sure, t);
    var left := Window(lo - 1, lo, t.axis, Within, false);
    assert lo != NEG_INF && t.range.latestEnd <= lo ==> ValidWindow(left) && AcceptsTime(left, t);
    var right := Window(hi, Ranges.Max(hi + 1, t.range.latestEnd), t.axis, Within, false);
    assert hi != POS_INF && hi <= t.range.earliestStart ==> ValidWindow(right) && AcceptsTime(right, t);
  }

  lemma {:induction false} EnvelopeOnTicks(t: Temporal, alternatives: seq<Temporal>)
    requires Given(t) && forall a | a in alternatives :: Given(a)
    ensures OnTicks(Envelope(t, alternatives).0, Envelope(t, alternatives).1)
  {
    hide Recurrences.Resolvable;
    if alternatives != [] {
      EnvelopeOnTicks(t, alternatives[..|alternatives| - 1]);
      assert Given(alternatives[|alternatives| - 1]);
    }
  }

  /** No row is lost if its index span covers all by which it could be accepted. */
  lemma CoveredNeverLost(row: Row, w: Window)
    requires row.temporal.Some? && !row.temporal.value.Recurs() && GivenRow(row) && Covered(row) && ValidWindow(w) &&
      Accepts(row, w)
    ensures Meets(Indexed(row).value.0, Indexed(row).value.1, w.qs, w.qe)
  {
    hide MatchesWindow, OwnKept, Kept, Given;
    var main := row.temporal.value;
    EnvelopeCovers(main, row.alternatives);
    EnvelopeOnTicks(main, row.alternatives);
    var span := Indexed(row).value;
    if main.axis == w.axis && AcceptsTime(w, main) {
      OwnExact(main, span.0, span.1);
    } else {
      var a :| a in row.alternatives && a.axis == w.axis && AcceptsTime(w, a);
      if a.axis == main.axis && !a.Recurs() {
        PlainMatch(a, w.qs, w.qe);
      } else {
        KeptExact(a, span.0, span.1);
      }
    }
  }

  lemma PlainMatch(t: Temporal, qs: int, qe: int)
    requires !t.Recurs()
    ensures MatchesWindow(t, qs, qe, false) <==> Meets(t.range.earliestStart, t.range.latestEnd, qs, qe)
  {}

  /** A row whose windows all meet its index span is covered. */
  lemma NeverLostCovered(row: Row)
    requires row.temporal.Some? && !row.temporal.value.Recurs() && GivenRow(row) && SettledRow(row)
    requires forall w | ValidWindow(w) && Accepts(row, w) ::
      Meets(Indexed(row).value.0, Indexed(row).value.1, w.qs, w.qe)
    ensures Covered(row)
  {
    hide MatchesWindow, OwnKept, Kept, Given;
    var main := row.temporal.value;
    EnvelopeCovers(main, row.alternatives);
    EnvelopeOnTicks(main, row.alternatives);
    var span := Indexed(row).value;
    OwnExact(main, span.0, span.1);
    forall a | a in row.alternatives ensures Kept(a, span.0, span.1) {
      forall qs, qe | NEG_INF <= qs < qe <= POS_INF &&
        MatchesWindow(a, qs, qe, false) ensures Meets(span.0, span.1, qs, qe) {
        assert Accepts(row, Window(qs, qe, a.axis, Possibly, false));
      }
      KeptExact(a, span.0, span.1);
    }
  }

  /** With recurring alternatives, the ends of the indexed span are infinite or not at the ends of the axis. */
  ghost predicate SettledRow(row: Row) {
    (exists a :: a in row.alternatives && a.Recurs()) && Indexed(row).Some? ==>
      Settled(Indexed(row).value.0, Indexed(row).value.1)
  }

  /** The search misses no row that its time filter would keep, in any mode and on any axis, exactly when the row has
    * no time or is covered: it recurs, or its own time and all that the alternatives left out of the envelope can
    * be lie within the span by which it is indexed.
    */
  lemma NoCandidateLost(t: Table, id: ResourceId)
    requires Ok(t) && RowOf(t, id).Some? && GivenRow(RowOf(t, id).value)
    ensures var row := RowOf(t, id).value;
            && (row.temporal.None? || Covered(row) ==> NeverLost(t, t.docOf[id], row))
            && (SettledRow(row) ==> (NeverLost(t, t.docOf[id], row) <==> row.temporal.None? || Covered(row)))
  {
    hide Accepts, Covered, GivenRow, SettledRow, Ok, Indexed;
    var row, d := RowOf(t, id).value, t.docOf[id];
    DescribedBy(t, d);
    if row.temporal.None? {
      UndatedAccepted(row);
    } else if row.temporal.value.Recurs() {
      CoveredRecurs(row);
    } else {
      SpanIndexed(row);
      var span := Indexed(row).value;
      assert forall w :: Candidate(t, d, w) <==> Meets(span.0, span.1, w.qs, w.qe);
      if Covered(row) {
        forall w | ValidWindow(w) && Accepts(row, w) ensures Candidate(t, d, w) {
          CoveredNeverLost(row, w);
        }
      }
      if NeverLost(t, d, row) && SettledRow(row) {
        NeverLostCovered(row);
      }
    }
  }

  lemma DescribedBy(t: Table, d: Doc)
    requires Ok(t)
    ensures Described(t, d)
  {}

  lemma SpanIndexed(row: Row)
    ensures Indexed(row).Some? <==> row.temporal.Some? && !row.temporal.value.Recurs()
  {}

  lemma UndatedAccepted(row: Row)
    requires row.temporal.None?
    ensures forall w :: Accepts(row, w) <==> w.includeUndated
  {}

  lemma CoveredRecurs(row: Row)
    requires row.temporal.Some? && row.temporal.value.Recurs()
    ensures Covered(row)
  {}

  /** An alternative on another axis is not in the envelope, so that such a row can be lost. */
  lemma OtherAxisMissed()
    ensures var main, other := Temporal(FuzzyRange(0, 1, 1, 2), "a", None),
      Temporal(FuzzyRange(10, 11, 11, 12), "b", None);
            var row, w := Row(7, Some(main), None, [other], false), Window(10, 12, "b", Possibly, false);
            var t := Upsert(NO_ROWS, row);
            Ok(t) && Accepts(row, w) && !Candidate(t, t.docOf[7], w)
  {
    var main, other := Temporal(FuzzyRange(0, 1, 1, 2), "a", None), Temporal(FuzzyRange(10, 11, 11, 12), "b", None);
    LeftOut(main, other);
    assert other in [other] && AcceptsTime(Window(10, 12, "b", Possibly, false), other);
  }

  /** Nor is a recurring alternative, even on the same axis. */
  lemma RecurringAlternativeMissed()
    ensures var main, daily := Temporal(FuzzyRange(0, 1, 1, 2), "a", None),
      Temporal(Ranges.UNKNOWN, "a", Some(EVERY_DAY));
            var row, w := Row(7, Some(main), None, [daily], false), Window(10, 12, "a", Possibly, false);
            var t := Upsert(NO_ROWS, row);
            Ok(t) && Accepts(row, w) && !Candidate(t, t.docOf[7], w)
  {
    var main, daily := Temporal(FuzzyRange(0, 1, 1, 2), "a", None), Temporal(Ranges.UNKNOWN, "a", Some(EVERY_DAY));
    LeftOut(main, daily);
    assert Recurrences.OccursOn(EVERY_DAY, 0, 10, 12);
    Recurrences.ResolvedSearchExact(EVERY_DAY, 10, 12);
    assert daily in [daily] && AcceptsTime(Window(10, 12, "a", Possibly, false), daily);
  }

  /** Nor does the index find an instant at the start of a window that it would have to lie within. */
  lemma InstantMissed()
    ensures var row, w := Row(7, Some(Temporal(FuzzyRange(10, 10, 10, 10), "a", None)), None, [], false),
      Window(10, 12, "a", Within, false);
            var t := Upsert(NO_ROWS, row);
            Ok(t) && Accepts(row, w) && !Candidate(t, t.docOf[7], w)
  {
    assert Ok(NO_ROWS);
    UpsertOk(NO_ROWS, Row(7, Some(Temporal(FuzzyRange(10, 10, 10, 10), "a", None)), None, [], false));
  }

  const EVERY_DAY: Recurrences.Spec := Recurrences.Resolved(Recurrences.Daily, None, 0)

  /** A first row whose one alternative is left out of the envelope is indexed by its own time. */
  lemma LeftOut(main: Temporal, other: Temporal)
    requires !main.Recurs() && (other.axis != main.axis || other.Recurs())
    requires main.range.earliestStart <= main.range.latestEnd
    ensures var t := Upsert(NO_ROWS, Row(7, Some(main), None, [other], false));
            && Ok(t) && t.docOf == map[7 := 0] && t.recurring == {} && t.dated == {0}
            && t.spans == map[0 := (main.range.earliestStart, main.range.latestEnd)]
  {
    assert Ok(NO_ROWS);
    UpsertOk(NO_ROWS, Row(7, Some(main), None, [other], false));
    assert [other][..0] == [];
    assert Envelope(main, [other]) == Envelope(main, []);
  }

  // ------------------------------------------------------------ in place

  /** The ranges of a row can be indexed without overflow. */
  predicate Indexable(row: Row) {
    var span := Indexed(row);
    span.Some? ==>
      && T.InRange(span.value.0) && T.InRange(span.value.1) &&
        T.InRange(Envelope(row.temporal.value, row.alternatives).1)
      && (span.value.0 != NEG_INF && span.value.1 != POS_INF ==> span.value.1 - span.value.0 <= POS_INF)
  }

  class ProjectionSet {
    var rows: seq<Option<Row>>
    var docOf: map<ResourceId, Doc>
    var live: set<Doc>
    var stale: set<Doc>
    var dated: set<Doc>
    var recurring: set<Doc>
    const idxTime: T.TemporalIndex

    ghost function State(): Table
      reads this, idxTime
    {
      Table(rows, docOf, live, stale, dated, recurring, idxTime.Spans())
    }

    ghost predicate Valid()
      reads this, idxTime
    {
      idxTime.Valid() && Ok(State())
    }

    constructor ()
      ensures Valid() && fresh(idxTime) && State() == NO_ROWS
    {
      rows, docOf, live, stale, dated, recurring := [], map[], {}, {}, {}, {};
      idxTime := new T.TemporalIndex();
    }

    method Mark(id: ResourceId)
      requires Valid()
      modifies this`rows, this`stale
      ensures Valid() && State() == MarkStale(old(State()), id)
    {
      hide Ok, T.TemporalIndex.Valid;
      MarkStaleOk(State(), id);
      if id in docOf && docOf[id] < |rows| && rows[docOf[id]].Some? {
        var d := docOf[id];
        rows := rows[d := Some(rows[d].value.(stale := true))];
        stale := stale + {d};
      }
    }

    method Row(id: ResourceId) returns (row: Option<Row>)
      requires Valid()
      ensures row == RowOf(State(), id)
    {
      if id !in docOf { return None; }
      return rows[docOf[id]];
    }

    method UnindexDoc(d: Doc)
      requires idxTime.Valid()
      modifies this`dated, this`recurring, idxTime
      ensures idxTime.Valid() && State() == Unindex(old(State()), d)
    {
      hide T.TemporalIndex.Valid;
      idxTime.Remove(d);
      recurring := recurring - {d};
      dated := dated - {d};
    }

    method IndexRowTime(doc: Doc, row: Row)
      requires idxTime.Valid() && Indexable(row)
      modifies this`dated, this`recurring, idxTime
      ensures idxTime.Valid() && State() == IndexTime(old(State()), doc, row)
    {
      hide T.TemporalIndex.Valid, Envelope;
      if row.temporal.Some? {
        dated := dated + {doc};
        if row.temporal.value.Recurs() {
          recurring := recurring + {doc};
        } else {
          var span := Envelope(row.temporal.value, row.alternatives);
          idxTime.Insert(doc, span.0, span.1);
        }
      }
    }

    method UpsertRow(row: Row)
      requires Valid() && !row.stale && Indexable(row)
      modifies this, idxTime
      ensures Valid() && State() == Upsert(old(State()), row)
    {
      hide Ok, T.TemporalIndex.Valid, Envelope, Indexed;
      ghost var before := State();
      UpsertOk(before, row);
      var doc := if row.id in docOf then docOf[row.id] else |rows|;
      if doc == |rows| {
        rows := rows + [None];
        docOf := docOf[row.id := doc];
      }
      if rows[doc].Some? {
        UnindexDoc(doc);
      }
      IndexRowTime(doc, row);
      live, stale := live + {doc}, stale - {doc};
      rows := rows[doc := Some(row)];
      assert docOf == before.docOf[row.id := doc];
    }

    method RemoveRow(id: ResourceId)
      requires Valid()
      modifies this, idxTime
      ensures Valid() && State() == Remove(old(State()), id)
    {
      hide T.TemporalIndex.Valid, Described;
      RemoveOk(State(), id);
      if id in docOf {
        var d := docOf[id];
        if rows[d].Some? {
          UnindexDoc(d);
        }
        rows := rows[d := None];
        live, stale := live - {d}, stale - {d};
      }
    }
  }
}
