/** What the graph knows of the endpoints of two events, and why that decides the relations
  * between them exactly (time/order.rs, `known_matrix`, `add_relation`, `relation`).
  */
module OrderKnowledge {
  import opened Wrappers
  import opened Allen
  import opened OrderClosure
  import opened OrderModels
  import opened OrderFacts
  import opened OrderState
  import opened OrderInsert
  import opened OrderMerge

  ghost predicate SameModels(rep: seq<nat>, succ: Adjacency, succ': Adjacency)
    requires Graph(rep, succ) && Graph(rep, succ')
  {
    forall v: seq<int> | |v| == |rep| :: IsModel(rep, succ', v) <==> IsModel(rep, succ, v)
  }

  ghost function CellOf(rep: seq<nat>, succ: Adjacency, x: nat, y: nat): Cell
    requires x < |rep| && y < |rep|
  {
    if rep[x] == rep[y] then Some(Le)
    else if Reach(succ, rep[x], rep[y]) then Some(Lt)
    else None
  }

  /** `m` is what merges and paths tell of the points `pts`. */
  ghost predicate Describes(rep: seq<nat>, succ: Adjacency, pts: seq<nat>, m: Known)
    requires |pts| == 4 && InRange(pts, |rep|)
  {
    forall i, j | 0 <= i < 4 && 0 <= j < 4 :: m[i][j] == if i == j then None else CellOf(rep, succ, pts[i], pts[j])
  }

  ghost predicate KnowsCell(rep: seq<nat>, succ: Adjacency, pts: seq<nat>, m: Known, i: nat, j: nat)
    requires |pts| == 4 && InRange(pts, |rep|) && i < 4 && j < 4
  {
    m[i][j].None? || (i != j && m[i][j] == CellOf(rep, succ, pts[i], pts[j]))
  }

  /** `m` is a part of that: a search that ran out of its budget has told nothing. */
  ghost predicate PartOf(rep: seq<nat>, succ: Adjacency, pts: seq<nat>, m: Known)
    requires |pts| == 4 && InRange(pts, |rep|)
  {
    forall i, j | 0 <= i < 4 && 0 <= j < 4 :: KnowsCell(rep, succ, pts, m, i, j)
  }

  lemma WholeIsPart(rep: seq<nat>, succ: Adjacency, pts: seq<nat>, m: Known)
    requires |pts| == 4 && InRange(pts, |rep|) && Describes(rep, succ, pts, m)
    ensures PartOf(rep, succ, pts, m)
  {
    forall i, j | 0 <= i < 4 && 0 <= j < 4 ensures KnowsCell(rep, succ, pts, m, i, j) {
      assert m[i][j] == if i == j then None else CellOf(rep, succ, pts[i], pts[j]);
    }
  }

  /** Every model respects what is known. */
  lemma KnownSound(rep: seq<nat>, succ: Adjacency, pts: seq<nat>, m: Known, v: seq<int>)
    requires Graph(rep, succ) && |pts| == 4 && InRange(pts, |rep|) && PartOf(rep, succ, pts, m)
    requires |v| == |rep| && IsModel(rep, succ, v)
    ensures Respects(m, At(v, pts))
  {
    var x := At(v, pts);
    forall i, j | 0 <= i < 4 && 0 <= j < 4
      ensures CellHolds(m[i][j], x[i], x[j])
    {
      assert KnowsCell(rep, succ, pts, m, i, j);
      if m[i][j].Some? {
        assert v[pts[i]] == v[rep[pts[i]]] && v[pts[j]] == v[rep[pts[j]]];
        if Reach(succ, rep[pts[i]], rep[pts[j]]) {
          ReachIncreases(rep, succ, v, rep[pts[i]], rep[pts[j]]);
        }
      }
    }
  }

  /** Values that respect what is known contradict no path and no merge. */
  lemma KnownComplete(rep: seq<nat>, succ: Adjacency, pts: seq<nat>, m: Known, x: seq<int>)
    requires Graph(rep, succ) && |pts| == 4 && InRange(pts, |rep|) && Describes(rep, succ, pts, m)
    requires |x| == 4 && Respects(m, x)
    ensures Compatible(succ, Reps(rep, pts), x)
  {
    var q := Reps(rep, pts);
    forall i, j | 0 <= i < 4 && 0 <= j < 4 && Reach(succ, q[i], q[j])
      ensures if q[i] == q[j] then x[i] == x[j] else x[i] < x[j]
    {
      if i != j {
        assert CellHolds(m[i][j], x[i], x[j]) && CellHolds(m[j][i], x[j], x[i]);
      }
    }
  }

  lemma SameOrderConstraints(cs: seq<Constraint>, w: seq<int>, x: seq<int>)
    requires |w| == |x| == 4 && SameOrder(w, x) && OverEndpoints(cs)
    ensures AllHold(cs, w) <==> AllHold(cs, x)
  {
    forall k | 0 <= k < |cs|
      ensures Holds(cs[k], w) <==> Holds(cs[k], x)
    {
      assert cs[k] in cs;
    }
  }

  ghost predicate ModelWith(rep: seq<nat>, succ: Adjacency, pts: seq<nat>, cs: seq<Constraint>, v: seq<int>)
    requires Graph(rep, succ) && InRange(pts, |rep|) && |pts| == 4 && OverEndpoints(cs)
  {
    |v| == |rep| && IsModel(rep, succ, v) && AllHold(cs, At(v, pts))
  }

  /** The four-point closure decides whether the whole graph has a model with the constraints. */
  lemma KnownExact(rep: seq<nat>, succ: Adjacency, ord: seq<nat>, pts: seq<nat>, m: Known, cs: seq<Constraint>)
    requires Graph(rep, succ) && Increasing(succ, ord) && |pts| == 4 && InRange(pts, |rep|)
    requires Describes(rep, succ, pts, m) && OverEndpoints(cs)
    ensures (exists x: seq<int> :: Solves(m, cs, x)) <==> exists v: seq<int> :: ModelWith(rep, succ, pts, cs, v)
  {
    hide Describes, PartOf;
    WholeIsPart(rep, succ, pts, m);
    if x: seq<int> :| Solves(m, cs, x) {
      KnownComplete(rep, succ, pts, m, x);
      var v := Extension(rep, succ, ord, pts, x);
      SameOrderConstraints(cs, x, At(v, pts));
      assert ModelWith(rep, succ, pts, cs, v);
    }
    if v: seq<int> :| ModelWith(rep, succ, pts, cs, v) {
      KnownSound(rep, succ, pts, m, v);
      assert Solves(m, cs, At(v, pts));
    }
  }

  lemma RecordsAt(rep: seq<nat>, succ: Adjacency, events: Events, ids: seq<Id>, facts: seq<Fact>, v: seq<int>)
    requires Graph(rep, succ) && Records(rep, succ, events, ids, facts) && |v| == |rep|
    ensures AllRegistered(events, facts) && InBounds(events, |v|) && Registered(events, ids, 2 * |ids|) &&
      |rep| == 2 * |ids|
    ensures IsModel(rep, succ, v) <==> Realises(events, facts, v)
    ensures Realises(events, facts, v) ==> forall id | id in events :: v[events[id].s] < v[events[id].e]
  {}

  /** A model of the graph with the constraints is a timeline of the facts with one more fact. */
  lemma ModelIsTimeline(rep: seq<nat>, succ: Adjacency, events: Events, ids: seq<Id>, facts: seq<Fact>, f: Fact)
    requires Graph(rep, succ) && Records(rep, succ, events, ids, facts) && f.a in events && f.b in events
    requires InRange(Points(events, f.a, f.b), |rep|)
    ensures (exists v: seq<int> :: ModelWith(rep, succ, Points(events, f.a, f.b), EndpointConstraints(f.rel), v))
      <==> Satisfiable(facts + [f])
  {
    hide Records, IsModel, Realises, EndpointConstraints, Satisfies, Registered;
    var pts, cs := Points(events, f.a, f.b), EndpointConstraints(f.rel);
    if v: seq<int> :| ModelWith(rep, succ, pts, cs, v) {
      RecordsAt(rep, succ, events, ids, facts, v);
      var t := TimelineOf(events, v);
      RealisesAgrees(events, facts, v, t);
      FactAgrees(events, f, v, t);
      SatisfiesSnoc(t, facts, f);
    }
    if Satisfiable(facts + [f]) {
      var t: Timeline :| Satisfies(t, facts + [f]);
      SatisfiesSnoc(t, facts, f);
      RecordsAt(rep, succ, events, ids, facts, seq(|rep|, i => 0));
      var v := ValuationOf(events, ids, t);
      RecordsAt(rep, succ, events, ids, facts, v);
      RealisesAgrees(events, facts, v, t);
      FactAgrees(events, f, v, t);
      assert ModelWith(rep, succ, pts, cs, v);
    }
  }

  /** The graph, by its topological order, always has a model: accepted facts are satisfiable. */
  lemma AcceptedSatisfiable(rep: seq<nat>, succ: Adjacency, ord: seq<nat>, events: Events, ids: seq<Id>,
      facts: seq<Fact>)
    requires Graph(rep, succ) && Increasing(succ, ord) && Records(rep, succ, events, ids, facts)
    ensures Satisfiable(facts)
  {
    var v := OrdIsModel(rep, succ, ord);
    var t := TimelineOf(events, v);
    RealisesAgrees(events, facts, v, t);
  }

  lemma PointsInRange(events: Events, ids: seq<Id>, n: nat, a: Id, b: Id)
    requires Registered(events, ids, n) && a in events && b in events
    ensures InRange(Points(events, a, b), n)
  {}

  // ------------------------------------------------------------ taking a relation in

  /** `(rep', succ')` has the models of `(rep, succ)` that satisfy the constraints. */
  ghost predicate Narrowed(rep: seq<nat>, succ: Adjacency, rep': seq<nat>, succ': Adjacency, pts: seq<nat>,
      cs: seq<Constraint>)
    requires Graph(rep, succ) && Graph(rep', succ') && InRange(pts, |rep|) && |pts| == 4 && OverEndpoints(cs)
  {
    |rep'| == |rep| &&
    forall v: seq<int> | |v| == |rep| :: IsModel(rep', succ', v) <==> IsModel(rep, succ, v) && AllHold(cs, At(v, pts))
  }

  lemma NarrowedNone(rep: seq<nat>, succ: Adjacency, pts: seq<nat>)
    requires Graph(rep, succ) && InRange(pts, |rep|) && |pts| == 4
    ensures Narrowed(rep, succ, rep, succ, pts, [])
  {}

  lemma NarrowedLess(rep0: seq<nat>, succ0: Adjacency, rep: seq<nat>, succ: Adjacency, succ': Adjacency, pts: seq<nat>,
      cs: seq<Constraint>, c: Constraint)
    requires Graph(rep0, succ0) && Graph(rep, succ) && Graph(rep, succ') && InRange(pts, |rep0|) && |pts| == 4
    requires OverEndpoints(cs + [c]) && OverEndpoints(cs) && c in cs + [c] && c.op == Less
    requires Narrowed(rep0, succ0, rep, succ, pts, cs) && WithEdge(rep, succ, succ', pts[c.i], pts[c.j])
    ensures Narrowed(rep0, succ0, rep, succ', pts, cs + [c])
  {
    forall v: seq<int> | |v| == |rep|
      ensures IsModel(rep, succ', v) <==> IsModel(rep0, succ0, v) && AllHold(cs + [c], At(v, pts))
    {
      AllHoldLast(cs + [c], At(v, pts));
      assert (cs + [c])[..|cs|] == cs;
    }
  }

  lemma NarrowedSame(rep0: seq<nat>, succ0: Adjacency, rep: seq<nat>, succ: Adjacency, rep': seq<nat>, succ': Adjacency,
      pts: seq<nat>, cs: seq<Constraint>, c: Constraint)
    requires Graph(rep0, succ0) && Graph(rep, succ) && Graph(rep', succ') && InRange(pts, |rep0|) && |pts| == 4
    requires OverEndpoints(cs + [c]) && OverEndpoints(cs) && c in cs + [c] && c.op == Same
    requires Narrowed(rep0, succ0, rep, succ, pts, cs) && WithEquality(rep, succ, rep', succ', pts[c.i], pts[c.j])
    ensures Narrowed(rep0, succ0, rep', succ', pts, cs + [c])
  {
    forall v: seq<int> | |v| == |rep|
      ensures IsModel(rep', succ', v) <==> IsModel(rep0, succ0, v) && AllHold(cs + [c], At(v, pts))
    {
      AllHoldLast(cs + [c], At(v, pts));
      assert (cs + [c])[..|cs|] == cs;
    }
  }

  /** A model that satisfies all the constraints survives the first `k` of them and the next one. */
  lemma NarrowedModel(rep0: seq<nat>, succ0: Adjacency, rep: seq<nat>, succ: Adjacency, pts: seq<nat>,
      cs: seq<Constraint>, k: nat, w: seq<int>)
    requires Graph(rep0, succ0) && Graph(rep, succ) && InRange(pts, |rep0|) && |pts| == 4 && OverEndpoints(cs) &&
      k <= |cs|
    requires Narrowed(rep0, succ0, rep, succ, pts, cs[..k])
    requires |w| == |rep0| && IsModel(rep0, succ0, w) && AllHold(cs, At(w, pts))
    ensures |rep| == |rep0| && IsModel(rep, succ, w)
    ensures k < |cs| ==> cs[k].i < 4 && cs[k].j < 4 && match cs[k].op
                         case Less => w[pts[cs[k].i]] < w[pts[cs[k].j]]
                         case Same => w[pts[cs[k].i]] == w[pts[cs[k].j]]
  {
    assert forall i | 0 <= i < k :: cs[..k][i] == cs[i];
    assert AllHold(cs[..k], At(w, pts)) by {
      forall i | 0 <= i < k
        ensures Holds(cs[..k][i], At(w, pts))
      {
        assert Holds(cs[i], At(w, pts));
      }
    }
    if k < |cs| {
      assert Holds(cs[k], At(w, pts));
      assert cs[k] in cs;
    }
  }

  lemma NarrowedResorted(rep0: seq<nat>, succ0: Adjacency, rep: seq<nat>, succ: Adjacency, succ': Adjacency,
      pts: seq<nat>, cs: seq<Constraint>)
    requires Graph(rep0, succ0) && Graph(rep, succ) && Graph(rep, succ') && InRange(pts, |rep0|) && |pts| == 4 &&
      OverEndpoints(cs)
    requires Narrowed(rep0, succ0, rep, succ, pts, cs) && SameModels(rep, succ, succ')
    ensures Narrowed(rep0, succ0, rep, succ', pts, cs)
  {}

  lemma NarrowedRecords(rep0: seq<nat>, succ0: Adjacency, rep: seq<nat>, succ: Adjacency, events: Events, ids: seq<Id>,
      facts: seq<Fact>, f: Fact)
    requires Graph(rep0, succ0) && Graph(rep, succ) && Records(rep0, succ0, events, ids, facts) && f.a in events &&
      f.b in events
    requires Narrowed(rep0, succ0, rep, succ, Points(events, f.a, f.b), EndpointConstraints(f.rel))
    ensures Records(rep, succ, events, ids, facts + [f])
  {
    assert |rep| == |rep0|;
    forall v: seq<int> | |v| == |rep|
      ensures IsModel(rep, succ, v) <==> Realises(events, facts + [f], v)
    {
      hide IsModel, Realises, EndpointConstraints, Records;
      RecordsAt(rep0, succ0, events, ids, facts, v);
      RealisesSnoc(events, facts, f, v);
    }
  }

  lemma RealisesSnoc(events: Events, facts: seq<Fact>, f: Fact, v: seq<int>)
    requires AllRegistered(events, facts) && f.a in events && f.b in events && InBounds(events, |v|)
    ensures AllRegistered(events, facts + [f])
    ensures Realises(events, facts + [f], v) <==> Realises(events, facts, v) && FactHolds(events, f, v)
  {
    var facts' := facts + [f];
    assert facts'[|facts|] == f;
    assert forall k | 0 <= k < |facts| :: facts'[k] == facts[k];
    hide FactHolds;
    assert Realises(events, facts', v) ==> forall k | 0 <= k < |facts| :: FactHolds(events, facts'[k], v);
    assert Realises(events, facts', v) ==> FactHolds(events, facts'[|facts|], v);
  }

  /** Relating an event to itself is consistent exactly when the relation is equality. */
  lemma SelfRelation(facts: seq<Fact>, a: Id, r: Relation)
    requires Satisfiable(facts)
    ensures Satisfiable(facts + [Fact(a, r, a)]) <==> r == Equals
  {
    var f := Fact(a, r, a);
    if Satisfiable(facts + [f]) {
      var t: Timeline :| Satisfies(t, facts + [f]);
      SatisfiesSnoc(t, facts, f);
    }
    var t: Timeline :| Satisfies(t, facts);
    SatisfiesSnoc(t, facts, f);
  }

  /** A relation to an unregistered event never conflicts. */
  lemma UnregisteredNeverConflicts(events: Events, facts: seq<Fact>, f: Fact)
    requires Satisfiable(facts) && AllRegistered(events, facts) && f.a != f.b
    ensures f.a !in events || f.b !in events ==> Satisfiable(facts + [f])
  {
    if f.a !in events || f.b !in events {
      FreshNeverConflicts(facts, f);
    }
  }

  /** The four-point closure over what is known decides satisfiability of one more fact. Over a part of what is known
    * it still never rules out what can be satisfied.
    */
  lemma ClosureDecides(rep: seq<nat>, succ: Adjacency, ord: seq<nat>, events: Events, ids: seq<Id>, facts: seq<Fact>,
      f: Fact, m: Known)
    requires Graph(rep, succ) && Increasing(succ, ord) && Records(rep, succ, events, ids, facts) && f.a in events &&
      f.b in events
    requires PartOf(rep, succ, Points(events, f.a, f.b), m)
    ensures Satisfiable(facts + [f]) ==>
              && (exists x: seq<int> :: Solves(m, EndpointConstraints(f.rel), x))
              && exists v: seq<int> :: ModelWith(rep, succ, Points(events, f.a, f.b), EndpointConstraints(f.rel), v)
    ensures Describes(rep, succ, Points(events, f.a, f.b), m) ==>
              ((exists x: seq<int> :: Solves(m, EndpointConstraints(f.rel), x)) <==> Satisfiable(facts + [f]))
  {
    PointsInRange(events, ids, |rep|, f.a, f.b);
    hide EndpointConstraints, Records, Satisfiable, Describes, PartOf, Increasing, IsModel;
    var pts, cs := Points(events, f.a, f.b), EndpointConstraints(f.rel);
    ModelIsTimeline(rep, succ, events, ids, facts, f);
    if Describes(rep, succ, pts, m) {
      KnownExact(rep, succ, ord, pts, m, cs);
    }
    if v: seq<int> :| ModelWith(rep, succ, pts, cs, v) {
      KnownSound(rep, succ, pts, m, v);
      assert Solves(m, cs, At(v, pts));
    }
  }

  /** Some timeline of the facts puts `a` in the relation `r` to `b`. */
  ghost predicate Possible(facts: seq<Fact>, a: Id, r: Relation, b: Id) {
    Satisfiable(facts + [Fact(a, r, b)])
  }

  /** The relations consistent with what is known. */
  method RelationsWith(m: Known, ghost a: Id, ghost b: Id, ghost rep: seq<nat>, ghost succ: Adjacency,
      ghost ord: seq<nat>,
                       ghost events: Events, ghost ids: seq<Id>, ghost facts: seq<Fact>)
    returns (rs: set<Relation>)
    requires Graph(rep, succ) && Increasing(succ, ord) && Records(rep, succ, events, ids, facts) && a in events &&
      b in events
    requires InRange(Points(events, a, b), |rep|) && PartOf(rep, succ, Points(events, a, b), m) && NoDiagonal(m)
    ensures forall r | Possible(facts, a, r, b) :: r in rs
    ensures Describes(rep, succ, Points(events, a, b), m) ==> forall r :: r in rs <==> Possible(facts, a, r, b)
  {
    hide Graph, Increasing, Records, Describes, PartOf, EndpointConstraints, Satisfiable, NoDiagonal, ModelWith;
    rs := {};
    ghost var whole := Describes(rep, succ, Points(events, a, b), m);
    for k := 0 to 13
      invariant forall r | Index(r) < k && Possible(facts, a, r, b) :: r in rs
      invariant whole ==> forall r :: r in rs <==> Index(r) < k && Possible(facts, a, r, b)
    {
      var r := ALL_RELATIONS[k];
      var ok := Consistent(m, EndpointConstraints(r));
      ClosureDecides(rep, succ, ord, events, ids, facts, Fact(a, r, b), m);
      if ok {
        rs := rs + {r};
      }
    }
  }

  /** In every timeline of the facts `a` ends no later than `b` starts. */
  ghost predicate AlwaysPrecedes(facts: seq<Fact>, a: Id, b: Id) {
    forall t: Timeline | Satisfies(t, facts) :: t(a).e <= t(b).s
  }

  const PRECEDES: set<Relation> := {Before, Meets}

  /** The possible relations all precede exactly when the events do so in every timeline; if relations that are not
    * possible are listed too, only the one direction is left.
    */
  lemma PrecedesExact(facts: seq<Fact>, a: Id, b: Id, rs: set<Relation>)
    requires Satisfiable(facts) && forall r | Possible(facts, a, r, b) :: r in rs
    ensures rs != {} && (PRECEDES * rs == rs ==> AlwaysPrecedes(facts, a, b))
    ensures (forall r | r in rs :: Possible(facts, a, r, b)) ==> (PRECEDES * rs == rs <==> AlwaysPrecedes(facts, a, b))
  {
    forall t: Timeline | Satisfies(t, facts)
      ensures Of(t(a), t(b)) in rs
    {
      SatisfiesSnoc(t, facts, Fact(a, Of(t(a), t(b)), b));
    }
    var t: Timeline :| Satisfies(t, facts);
    assert Of(t(a), t(b)) in rs;
    if PRECEDES * rs == rs {
      forall t: Timeline | Satisfies(t, facts)
        ensures t(a).e <= t(b).s
      {
        assert Of(t(a), t(b)) in PRECEDES * rs;
      }
    }
    if AlwaysPrecedes(facts, a, b) {
      forall r | r in rs && Possible(facts, a, r, b)
        ensures r in PRECEDES
      {
        var t: Timeline :| Satisfies(t, facts + [Fact(a, r, b)]);
        SatisfiesSnoc(t, facts, Fact(a, r, b));
      }
    }
  }

  // ------------------------------------------------------------ a linear extension

  datatype OrderLabel = OrderLabel(startOrd: nat, endOrd: nat)

  datatype Labelled = Labelled(id: Id, key: OrderLabel)

  /** In every timeline of the facts `a` starts strictly before `b`. */
  ghost predicate StartsBefore(facts: seq<Fact>, a: Id, b: Id) {
    forall t: Timeline | Satisfies(t, facts) :: t(a).s < t(b).s
  }

  ghost function LabelOf(rep: seq<nat>, ord: seq<nat>, p: Span): OrderLabel
    requires p.s < |rep| && p.e < |rep| && rep[p.s] < |ord| && rep[p.e] < |ord|
  {
    OrderLabel(ord[rep[p.s]], ord[rep[p.e]])
  }

  /** The orders of the endpoints are themselves a timeline, so they show every entailed `<`. */
  lemma OrdersFollowStarts(rep: seq<nat>, succ: Adjacency, ord: seq<nat>, events: Events, ids: seq<Id>,
      facts: seq<Fact>,
      a: Id, b: Id)
    requires Graph(rep, succ) && Increasing(succ, ord) && Records(rep, succ, events, ids, facts)
    requires a in events && b in events && StartsBefore(facts, a, b)
    ensures ord[rep[events[a].s]] < ord[rep[events[b].s]]
  {
    var v := OrdIsModel(rep, succ, ord);
    var t := TimelineOf(events, v);
    RealisesAgrees(events, facts, v, t);
    assert t(a).s < t(b).s;
  }

  function PointOf(i: Interval, atStart: bool): int {
    if atStart then i.s else i.e
  }

  function OrderOf(l: OrderLabel, atStart: bool): nat {
    if atStart then l.startOrd else l.endOrd
  }

  /** In every timeline of the facts this end of `a` comes strictly before that end of `b`. */
  ghost predicate PointsBefore(facts: seq<Fact>, a: Id, aStart: bool, b: Id, bStart: bool) {
    forall t: Timeline | Satisfies(t, facts) :: PointOf(t(a), aStart) < PointOf(t(b), bStart)
  }

  /** The labels show every entailed order of two ends, of one event or of two, starts or ends. */
  lemma LabelsFollowPoints(rep: seq<nat>, succ: Adjacency, ord: seq<nat>, events: Events, ids: seq<Id>,
      facts: seq<Fact>,
      a: Id, aStart: bool, b: Id, bStart: bool)
    requires Graph(rep, succ) && Increasing(succ, ord) && Records(rep, succ, events, ids, facts)
    requires Labels(rep, ord, events) && a in events && b in events && PointsBefore(facts, a, aStart, b, bStart)
    ensures OrderOf(LabelOf(rep, ord, events[a]), aStart) < OrderOf(LabelOf(rep, ord, events[b]), bStart)
  {
    var v := OrdIsModel(rep, succ, ord);
    var t := TimelineOf(events, v);
    RealisesAgrees(events, facts, v, t);
    assert PointOf(t(a), aStart) < PointOf(t(b), bStart);
  }

  /** An event starts before it ends. */
  lemma LabelForward(rep: seq<nat>, succ: Adjacency, ord: seq<nat>, events: Events, ids: seq<Id>, facts: seq<Fact>,
      a: Id)
    requires Graph(rep, succ) && Increasing(succ, ord) && Records(rep, succ, events, ids, facts)
    requires Labels(rep, ord, events) && a in events
    ensures LabelOf(rep, ord, events[a]).startOrd < LabelOf(rep, ord, events[a]).endOrd
  {
    LabelsFollowPoints(rep, succ, ord, events, ids, facts, a, true, a, false);
  }

  /** Lexicographic order on `(start_ord, end_ord, id)`. */
  predicate LabelledLe(x: Labelled, y: Labelled) {
    if x.key.startOrd != y.key.startOrd then x.key.startOrd < y.key.startOrd
    else if x.key.endOrd != y.key.endOrd then x.key.endOrd < y.key.endOrd
    else x.id <= y.id
  }

  ghost predicate LabelledSorted(s: seq<Labelled>) {
    forall i, j | 0 <= i < j < |s| :: LabelledLe(s[i], s[j])
  }

  function InsertLabelled(s: seq<Labelled>, x: Labelled): seq<Labelled> {
    if s == [] || LabelledLe(x, s[0]) then [x] + s else [s[0]] + InsertLabelled(s[1..], x)
  }

  ghost predicate DistinctIds(s: seq<Labelled>) {
    forall i, j | 0 <= i < j < |s| :: s[i].id != s[j].id
  }

  lemma {:induction false} InsertLabelledCorrect(s: seq<Labelled>, x: Labelled)
    requires LabelledSorted(s) && DistinctIds(s) && forall y | y in s :: y.id != x.id
    ensures var r := InsertLabelled(s, x);
            LabelledSorted(r) && DistinctIds(r) && forall y :: y in r <==> y == x || y in s
  {
    if s != [] && !LabelledLe(x, s[0]) {
      assert forall y | y in s[1..] :: y in s;
      InsertLabelledCorrect(s[1..], x);
      var t := InsertLabelled(s[1..], x);
      forall k | 0 <= k < |t|
        ensures LabelledLe(s[0], t[k]) && t[k].id != s[0].id
      {
        assert t[k] in t;
      }
    }
  }

  /** `v` lists the events outside `rest`, once each, with their labels, in order. */
  ghost predicate Listing(rep: seq<nat>, ord: seq<nat>, events: Events, v: seq<Labelled>, rest: set<Id>)
    requires Labels(rep, ord, events)
  {
    && LabelledSorted(v) && DistinctIds(v)
    && (forall x | x in v :: x.id in events && x.id !in rest && x.key == LabelOf(rep, ord, events[x.id]))
    && (forall id | id in events && id !in rest :: Labelled(id, LabelOf(rep, ord, events[id])) in v)
  }

  ghost predicate Labels(rep: seq<nat>, ord: seq<nat>, events: Events) {
    forall id | id in events ::
      events[id].s < |rep| && events[id].e < |rep| && rep[events[id].s] < |ord| && rep[events[id].e] < |ord|
  }

  lemma ListingNone(rep: seq<nat>, ord: seq<nat>, events: Events)
    requires Labels(rep, ord, events)
    ensures Listing(rep, ord, events, [], events.Keys)
  {}

  lemma ListingStep(rep: seq<nat>, ord: seq<nat>, events: Events, v: seq<Labelled>, rest: set<Id>, id: Id)
    requires Labels(rep, ord, events) && Listing(rep, ord, events, v, rest) && id in rest && id in events
    ensures Listing(rep, ord, events, InsertLabelled(v, Labelled(id, LabelOf(rep, ord, events[id]))), rest - {id})
  {
    InsertLabelledCorrect(v, Labelled(id, LabelOf(rep, ord, events[id])));
  }

  lemma SortedByStart(s: seq<Labelled>, i: nat, j: nat)
    requires LabelledSorted(s) && i < |s| && j < |s| && s[i].key.startOrd < s[j].key.startOrd
    ensures i < j
  {}

  /** The listing puts an event before every event that starts later in all timelines. */
  lemma ListingFollowsStarts(rep: seq<nat>, succ: Adjacency, ord: seq<nat>, events: Events, ids: seq<Id>,
      facts: seq<Fact>, v: seq<Labelled>, i: nat, j: nat)
    requires Graph(rep, succ) && Increasing(succ, ord) && Records(rep, succ, events, ids, facts)
    requires Labels(rep, ord, events) && Listing(rep, ord, events, v, {}) && i < |v| && j < |v|
    requires StartsBefore(facts, v[i].id, v[j].id)
    ensures i < j
  {
    assert v[i] in v && v[j] in v;
    OrdersFollowStarts(rep, succ, ord, events, ids, facts, v[i].id, v[j].id);
    SortedByStart(v, i, j);
  }

  lemma LabelsDefined(rep: seq<nat>, succ: Adjacency, ord: seq<nat>, events: Events, ids: seq<Id>, facts: seq<Fact>)
    requires Graph(rep, succ) && |ord| == |rep| && Records(rep, succ, events, ids, facts)
    ensures Labels(rep, ord, events)
  {}
}
