/** The temporal order graph (time/order.rs).
  *
  * Events whose absolute time is unknown are pairs of points. `<` edges keep an incremental
  * topological order, `=` merges points by union-find. `accepted` records the relations the
  * graph has taken in; its meaning, in integer timelines, is what the graph must decide.
  */
module OrderGraph {
  import opened Wrappers
  import opened Allen
  import opened OrderClosure
  import opened OrderModels
  import opened OrderRenumber
  import opened OrderFacts
  import opened OrderState
  import opened OrderSearch
  import opened OrderInsert
  import opened OrderMerge
  import opened OrderKahn
  import opened OrderKnowledge

  const DEFAULT_SEARCH_BUDGET: nat := 200_000

  class TemporalOrderGraph {
    var events: Events
    var parent: seq<nat>
    var succ: Adjacency
    var pred: Adjacency
    var ord: seq<nat>
    var nextOrd: nat
    var budget: nat

    ghost var rep: seq<nat>
    ghost var rank: seq<nat>
    ghost var top: nat
    ghost var ids: seq<Id>
    ghost var accepted: seq<Fact>

    /** The lists fit together; this also holds between a merge and the re-sort. */
    ghost predicate Shape()
      reads this
    {
      Structure(parent, succ, pred, ord, rep, rank, top)
    }

    ghost predicate Valid()
      reads this
    {
      Consistency(parent, succ, pred, ord, nextOrd, rep, rank, top, events, ids, accepted)
    }

    constructor ()
      ensures Valid() && accepted == [] && events == map[] && budget == DEFAULT_SEARCH_BUDGET
    {
      hide Consistency;
      events := map[];
      parent, succ, pred, ord := [], [], [], [];
      nextOrd := 0;
      budget := DEFAULT_SEARCH_BUDGET;
      rep, rank, top, ids, accepted := [], [], 0, [], [];
      new;
      EmptyConsistency();
    }

    method Find(x0: nat) returns (x: nat)
      requires Shape() && x0 < |parent|
      ensures x == rep[x0]
    {
      x := FindRoot(parent, x0, rep, rank, top);
    }

    /** Whether a non-empty path of edges leads from `x0` to `y0`; the search is cut off at the
      * order of `y0` and by the budget.
      */
    method Reaches(x0: nat, y0: nat) returns (r: Option<bool>)
      requires Shape() && Increasing(succ, ord) && x0 < |parent| && y0 < |parent|
      ensures r.Some? ==> r.value == (rep[x0] != rep[y0] && Reach(succ, rep[x0], rep[y0]))
      ensures |parent| <= budget ==> r.Some?
    {
      var x := Find(x0);
      var y := Find(y0);
      if x == y || ord[x] >= ord[y] {
        ghost var v := OrdIsModel(rep, succ, ord);
        if Reach(succ, x, y) {
          ReachIncreases(rep, succ, v, x, y);
        }
        return Some(false);
      }
      r := SearchReach(succ, ord, budget, x, y);
    }

    method NewPoint() returns (i: nat)
      modifies this`parent, this`succ, this`pred, this`ord, this`nextOrd, this`rep, this`rank
      ensures i == old(|parent|)
      ensures parent == old(parent) + [i] && succ == old(succ) + [[]] && pred == old(pred) + [[]]
      ensures ord == old(ord) + [old(nextOrd)] && nextOrd == old(nextOrd) + 1
      ensures rep == old(rep) + [i] && rank == old(rank) + [0]
    {
      i := |parent|;
      parent := parent + [i];
      succ := succ + [[]];
      pred := pred + [[]];
      ord := ord + [nextOrd];
      nextOrd := nextOrd + 1;
      rep, rank := rep + [i], rank + [0];
    }

    /** The points of an event, registering it first if it is new. */
    method EnsureEvent(id: Id) returns (p: Span)
      requires Valid()
      modifies this
      ensures Valid() && accepted == old(accepted) && budget == old(budget)
      ensures id in events && events[id] == p
      ensures id in old(events) ==> Same(old(events), old(parent), old(succ), old(pred), old(ord), old(nextOrd))
      ensures id !in old(events) ==> events == old(events)[id := p] && |parent| == old(|parent|) + 2
    {
      hide Consistency, InBounds;
      if id in events {
        return events[id];
      }
      RegisterKeeps(parent, succ, pred, ord, nextOrd, rep, rank, top, events, ids, accepted, id);
      var s := NewPoint();
      var e := NewPoint();
      succ := succ[s := succ[s] + [e]];
      pred := pred[e := pred[e] + [s]];
      p := Span(s, e);
      events := events[id := p];
      ids := ids + [id];
    }

    ghost predicate Same(events0: Events, parent0: seq<nat>, succ0: Adjacency, pred0: Adjacency, ord0: seq<nat>,
        nextOrd0: nat)
      reads this
    {
      events == events0 && parent == parent0 && succ == succ0 && pred == pred0 && ord == ord0 && nextOrd == nextOrd0
    }

    /** Pearce-Kelly: add the edge `x < y` and renumber what it puts out of order.
      *
      * `w` is a model of the graph, if there is one, in which the edge holds; with it the cycle
      * error cannot happen. The order is kept topological if it was; between a merge and the
      * re-sort it is not, and only the models are kept track of.
      */
    method AddLt(x0: nat, y0: nat, ghost w: seq<int>) returns (out: Outcome)
      requires Shape() && x0 < |parent| && y0 < |parent|
      modifies this`succ, this`pred, this`ord
      ensures Shape()
      ensures out == Ok ==> WithEdge(rep, old(succ), succ, x0, y0)
      ensures out != Ok ==> succ == old(succ) && pred == old(pred) && ord == old(ord)
      ensures |w| == |rep| && old(IsModel(rep, succ, w)) && w[x0] < w[y0] ==> out == Ok
      ensures |w| == |rep| && old(IsModel(rep, succ, w)) && w[x0] < w[y0] && old(Topological(rep, succ, ord, nextOrd))
              ==> Topological(rep, succ, ord, nextOrd)
    {
      hide Structure, IsModel, Topological;
      StructureFacts(parent, succ, pred, ord, rep, rank, top);
      if |w| == |rep| && IsModel(rep, succ, w) {
        ModelAtRep(rep, succ, w, x0);
        ModelAtRep(rep, succ, w, y0);
      }
      hide Graph, Mirror, WithEdge;
      var x := Find(x0);
      var y := Find(y0);
      if x == y {
        return Conflict;
      }
      out, succ, pred, ord := InsertEdge(parent, succ, pred, ord, nextOrd, rep, rank, top, x, y, w);
      StructureFacts(parent, succ, pred, ord, rep, rank, top);
      if out == Ok {
        EdgeMeaning(rep, old(succ), succ, x0, y0);
      }
    }

    /** Merge the points `x0` and `y0`, equal in the model `w`. The order is left as it is. */
    method Merge(x0: nat, y0: nat, ghost w: seq<int>) returns (merged: bool)
      requires Shape() && x0 < |parent| && y0 < |parent|
      requires IsModel(rep, succ, w) && w[x0] == w[y0]
      modifies this`parent, this`succ, this`pred, this`rep, this`rank, this`top
      ensures Shape() && |parent| == old(|parent|)
      ensures WithEquality(old(rep), old(succ), rep, succ, x0, y0)
      ensures !merged ==> parent == old(parent) && succ == old(succ) && pred == old(pred) && rep == old(rep)
    {
      hide Structure, IsModel, Graph, WithEquality;
      StructureFacts(parent, succ, pred, ord, rep, rank, top);
      var rx := Find(x0);
      var ry := Find(y0);
      if rx == ry {
        AlreadyMerged(rep, succ, x0, y0);
        return false;
      }
      parent, succ, pred, rep, rank, top := MergePoints(parent, succ, pred, ord, rep, rank, top, rx, ry, x0, y0, w);
      merged := true;
    }

    /** Kahn's algorithm over all representatives; `w` shows that there is no cycle. */
    method ReorderAll(ghost w: seq<int>)
      requires Shape() && IsModel(rep, succ, w)
      modifies this`succ, this`pred, this`ord, this`nextOrd
      ensures Shape() && Topological(rep, succ, ord, nextOrd)
      ensures SameModels(rep, old(succ), succ)
    {
      hide Structure, IsModel, Topological;
      succ, pred, ord, nextOrd := Resort(parent, succ, pred, ord, nextOrd, rep, rank, top, w);
      StructureFacts(parent, succ, pred, ord, rep, rank, top);
    }

    // ---------------------------------------------------------- what is known of four endpoints

    /** Equal, strictly before, or unknown; a search beyond its budget leaves it unknown. */
    method PointRelation(x: nat, y: nat) returns (c: Cell)
      requires Valid() && x < |parent| && y < |parent|
      ensures c.Some? || |parent| <= budget ==> c == CellOf(rep, succ, x, y)
    {
      var rx := Find(x);
      var ry := Find(y);
      if rx == ry {
        return Some(Le);
      }
      var r := Reaches(x, y);
      c := if r == Some(true) then Some(Lt) else None;
    }

    /** What is known of four points, or a part of it when there are more points than the search budget. */
    method KnownMatrix(pts: seq<nat>) returns (m: Known)
      requires Valid() && |pts| == 4 && InRange(pts, |parent|)
      ensures PartOf(rep, succ, pts, m) && NoDiagonal(m)
      ensures |parent| <= budget ==> Describes(rep, succ, pts, m)
    {
      hide Consistency, Reach, CellOf;
      SameLengths(this);
      ghost var whole := |parent| <= budget;
      m := seq(4, i => [None, None, None, None]);
      for i := 0 to 4
        invariant forall p, q | 0 <= p < i && 0 <= q < 4 && p != q :: m[p][q].Some? || whole ==>
          m[p][q] == CellOf(rep, succ, pts[p], pts[q])
        invariant forall p, q | 0 <= p < 4 && 0 <= q < 4 && (p >= i || p == q) :: m[p][q] == None
      {
        for j := 0 to 4
          invariant forall p, q | 0 <= p < i && 0 <= q < 4 && p != q :: m[p][q].Some? || whole ==>
            m[p][q] == CellOf(rep, succ, pts[p], pts[q])
          invariant forall q | 0 <= q < j && i != q :: m[i][q].Some? || whole ==>
            m[i][q] == CellOf(rep, succ, pts[i], pts[q])
          invariant forall p, q | 0 <= p < 4 && 0 <= q < 4 && (p > i || p == q) :: m[p][q] == None
        {
          if i != j {
            var c := PointRelation(pts[i], pts[j]);
            m := Set(m, i, j, c);
          }
        }
      }
    }

    // ---------------------------------------------------------- relations

    /** Add the constraints of a relation, all of which hold in the model `w`. */
    method Constrain(pts: seq<nat>, cs: seq<Constraint>, ghost w: seq<int>)
      requires Shape() && Topological(rep, succ, ord, nextOrd) && |pts| == 4 && InRange(pts, |rep|) && OverEndpoints(cs)
      requires |w| == |rep| && IsModel(rep, succ, w) && AllHold(cs, At(w, pts))
      modifies this`parent, this`succ, this`pred, this`ord, this`nextOrd, this`rep, this`rank, this`top
      ensures Shape() && Topological(rep, succ, ord, nextOrd)
      ensures Narrowed(old(rep), old(succ), rep, succ, pts, cs)
    {
      hide Structure, IsModel, Topological, Graph, Narrowed, WithEdge, WithEquality, AllHold;
      StructureFacts(parent, succ, pred, ord, rep, rank, top);
      NarrowedNone(rep, succ, pts);
      var merged := false;
      for k := 0 to |cs|
        invariant Shape() && |parent| == |rep| == old(|rep|) && Graph(rep, succ)
        invariant Narrowed(old(rep), old(succ), rep, succ, pts, cs[..k])
        invariant !merged ==> Topological(rep, succ, ord, nextOrd)
      {
        var c := cs[k];
        assert cs[..k + 1] == cs[..k] + [c];
        NarrowedModel(old(rep), old(succ), rep, succ, pts, cs, k, w);
        ghost var rep0, succ0 := rep, succ;
        match c.op
        case Less =>
          var out := AddLt(pts[c.i], pts[c.j], w);
          assert out == Ok;
          StructureFacts(parent, succ, pred, ord, rep, rank, top);
          NarrowedLess(old(rep), old(succ), rep, succ0, succ, pts, cs[..k], c);
        case Same =>
          var now := Merge(pts[c.i], pts[c.j], w);
          StructureFacts(parent, succ, pred, ord, rep, rank, top);
          NarrowedSame(old(rep), old(succ), rep0, succ0, rep, succ, pts, cs[..k], c);
          merged := merged || now;
      }
      assert cs[..|cs|] == cs;
      if merged {
        ghost var succ0 := succ;
        NarrowedModel(old(rep), old(succ), rep, succ, pts, cs, |cs|, w);
        ReorderAll(w);
        StructureFacts(parent, succ, pred, ord, rep, rank, top);
        NarrowedResorted(old(rep), old(succ), rep, succ0, succ, pts, cs);
      }
    }

    /** Take in a relation of two registered events unless it contradicts the accepted ones. */
    method Relate(a: Id, rel: Relation, b: Id) returns (out: Outcome)
      requires Valid() && a in events && b in events
      requires |parent| <= budget || Satisfiable(accepted + [Fact(a, rel, b)])
      modifies this
      ensures Valid() && budget == old(budget)
      ensures out == if Satisfiable(old(accepted) + [Fact(a, rel, b)]) then Ok else Conflict
      ensures out == Ok ==> accepted == old(accepted) + [Fact(a, rel, b)]
      ensures out != Ok ==>
                accepted == old(accepted) &&
                  Same(old(events), old(parent), old(succ), old(pred), old(ord), old(nextOrd))
    {
      hide Consistency, Structure, Topological, Graph, EndpointConstraints, IsModel, Narrowed, Satisfiable, Records,
        Describes, PartOf;
      ghost var f := Fact(a, rel, b);
      Facts(this);
      var pts := Points(events, a, b);
      PointsInRange(events, ids, |rep|, a, b);
      hide Registered;
      var cs := EndpointConstraints(rel);
      var m := KnownMatrix(pts);
      var ok := Consistent(m, cs);
      ClosureDecides(rep, succ, ord, events, ids, accepted, f, m);
      if !ok {
        return Conflict;
      }
      ghost var w :| ModelWith(rep, succ, pts, cs, w);
      Constrain(pts, cs, w);
      StructureFacts(parent, succ, pred, ord, rep, rank, top);
      NarrowedRecords(old(rep), old(succ), rep, succ, events, ids, accepted, f);
      accepted := accepted + [f];
      MakeConsistency(parent, succ, pred, ord, nextOrd, rep, rank, top, events, ids, accepted);
      out := Ok;
    }

    /** Take `a rel b` in, or report a conflict.
      *
      * The answer is exact: a conflict means that no integer timeline satisfies the accepted
      * relations and the new one. A conflict changes nothing, not even the set of events. In a
      * graph beyond the search budget this is left open for relations that do contradict.
      */
    method AddRelation(a: Id, rel: Relation, b: Id) returns (out: Outcome)
      requires Valid()
      requires a == b || |parent| + 4 <= budget || Satisfiable(accepted + [Fact(a, rel, b)])
      modifies this
      ensures Valid() && budget == old(budget)
      ensures out == if Satisfiable(old(accepted) + [Fact(a, rel, b)]) then Ok else Conflict
      ensures out == Ok && a != b ==> accepted == old(accepted) + [Fact(a, rel, b)]
      ensures out != Ok || a == b ==>
                accepted == old(accepted) &&
                  Same(old(events), old(parent), old(succ), old(pred), old(ord), old(nextOrd))
    {
      hide Consistency, Satisfiable, Records, Registered;
      Facts(this);
      AcceptedSatisfiable(rep, succ, ord, events, ids, accepted);
      if a == b {
        SelfRelation(accepted, a, rel);
        return if rel == Equals then Ok else Conflict;
      }
      UnregisteredNeverConflicts(events, accepted, Fact(a, rel, b));
      var p := EnsureEvent(a);
      var q := EnsureEvent(b);
      out := Relate(a, rel, b);
    }

    /** The Allen relations that some timeline of the accepted relations realises between `a` and `b`; none of them is
      * missing even beyond the search budget.
      */
    method Relation(a: Id, b: Id) returns (out: Option<set<Relation>>)
      requires Valid()
      ensures out.None? <==> a !in events || b !in events
      ensures out.Some? ==> forall r | Possible(accepted, a, r, b) :: r in out.value
      ensures out.Some? && |parent| <= budget ==> forall r :: r in out.value <==> Possible(accepted, a, r, b)
    {
      if a !in events || b !in events {
        return None;
      }
      Facts(this);
      PointsInRange(events, ids, |rep|, a, b);
      hide Consistency, Possible, Describes, PartOf;
      var m := KnownMatrix(Points(events, a, b));
      var rs := RelationsWith(m, a, b, rep, succ, ord, events, ids, accepted);
      out := Some(rs);
    }

    /** Whether `a` ends no later than `b` starts in every timeline; beyond the search budget it may not be seen. */
    method DefinitelyPrecedes(a: Id, b: Id) returns (out: Option<bool>)
      requires Valid()
      ensures out.None? <==> a !in events || b !in events
      ensures out == Some(true) ==> AlwaysPrecedes(accepted, a, b)
      ensures out.Some? && |parent| <= budget ==> (out.value <==> AlwaysPrecedes(accepted, a, b))
    {
      var rs := Relation(a, b);
      if rs.None? {
        return None;
      }
      Facts(this);
      AcceptedSatisfiable(rep, succ, ord, events, ids, accepted);
      PrecedesExact(accepted, a, b, rs.value);
      out := Some(rs.value != {} && PRECEDES * rs.value == rs.value);
    }

    method Label(id: Id) returns (l: Option<OrderLabel>)
      requires Valid()
      ensures Labels(rep, ord, events)
      ensures l == if id in events then Some(LabelOf(rep, ord, events[id])) else None
      ensures l.Some? ==> l.value.startOrd < l.value.endOrd
    {
      Facts(this);
      LabelsDefined(rep, succ, ord, events, ids, accepted);
      if id in events { LabelForward(rep, succ, ord, events, ids, accepted, id); }
      hide Consistency, Records;
      if id !in events {
        return None;
      }
      var s := Find(events[id].s);
      var e := Find(events[id].e);
      l := Some(OrderLabel(ord[s], ord[e]));
    }

    /** The events sorted by label; the order agrees with every entailed order of starts. */
    method LinearExtension() returns (v: seq<Labelled>)
      requires Valid()
      ensures Labels(rep, ord, events) && Listing(rep, ord, events, v, {})
      ensures forall i, j | 0 <= i < |v| && 0 <= j < |v| && StartsBefore(accepted, v[i].id, v[j].id) :: i < j
    {
      Facts(this);
      LabelsDefined(rep, succ, ord, events, ids, accepted);
      hide Consistency, Records, StartsBefore, Labels, Listing;
      v := [];
      ListingNone(rep, ord, events);
      var rest := events.Keys;
      while rest != {}
        invariant rest <= events.Keys && Listing(rep, ord, events, v, rest)
      {
        var id :| id in rest;
        var l := Label(id);
        ListingStep(rep, ord, events, v, rest, id);
        rest := rest - {id};
        v := InsertLabelled(v, Labelled(id, l.value));
      }
      forall i: nat, j: nat | i < |v| && j < |v| && StartsBefore(accepted, v[i].id, v[j].id)
        ensures i < j
      {
        ListingFollowsStarts(rep, succ, ord, events, ids, accepted, v, i, j);
      }
    }
  }

  lemma SameLengths(g: TemporalOrderGraph)
    requires g.Valid()
    ensures |g.parent| == |g.succ| == |g.pred| == |g.ord| == |g.rep|
  {}

  /** What validity says about the lists. */
  lemma Facts(g: TemporalOrderGraph)
    requires g.Valid()
    ensures |g.parent| == |g.succ| == |g.pred| == |g.ord| == |g.rep| && Graph(g.rep, g.succ) &&
      Increasing(g.succ, g.ord)
    ensures g.Shape() && Topological(g.rep, g.succ, g.ord, g.nextOrd)
    ensures Records(g.rep, g.succ, g.events, g.ids, g.accepted) && AllRegistered(g.events, g.accepted) &&
      Registered(g.events, g.ids, |g.rep|)
  {}

  lemma MakeConsistency(parent: seq<nat>, succ: Adjacency, pred: Adjacency, ord: seq<nat>, nextOrd: nat,
                        rep: seq<nat>, rank: seq<nat>, top: nat, events: Events, ids: seq<Id>, accepted: seq<Fact>)
    requires Structure(parent, succ, pred, ord, rep, rank, top) && Topological(rep, succ, ord, nextOrd)
    requires Graph(rep, succ) && Records(rep, succ, events, ids, accepted)
    ensures Consistency(parent, succ, pred, ord, nextOrd, rep, rank, top, events, ids, accepted)
  {}
}
