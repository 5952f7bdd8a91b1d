/** The meaning of temporal relations between events, independent of the graph.
  *
  * A timeline gives every event a non-empty integer interval. The graph numbers endpoints;
  * `Realises` says the same about a valuation of those numbers.
  */
module OrderFacts {
  import opened Allen
  import opened OrderModels

  /** A resource identifier, compared as a number. */
  type Id = nat

  datatype Fact = Fact(a: Id, rel: Relation, b: Id)

  type Timeline = Id -> Interval

  ghost predicate True(t: Timeline, f: Fact) {
    Of(t(f.a), t(f.b)) == f.rel
  }

  ghost predicate Satisfies(t: Timeline, facts: seq<Fact>) {
    forall k | 0 <= k < |facts| :: True(t, facts[k])
  }

  /** Some integer assignment of endpoints makes all the facts true. */
  ghost predicate Satisfiable(facts: seq<Fact>) {
    exists t: Timeline :: Satisfies(t, facts)
  }

  lemma SatisfiesSnoc(t: Timeline, facts: seq<Fact>, f: Fact)
    ensures Satisfies(t, facts + [f]) <==> Satisfies(t, facts) && True(t, f)
  {
    var all := facts + [f];
    assert all[|facts|] == f;
    assert forall k | 0 <= k < |facts| :: all[k] == facts[k];
    if Satisfies(t, all) {
      assert True(t, all[|facts|]);
      forall k | 0 <= k < |facts| ensures True(t, facts[k]) { assert True(t, all[k]); }
    }
  }

  // ------------------------------------------------------------ numbered endpoints

  datatype Span = Span(s: nat, e: nat)

  type Events = map<Id, Span>

  /** The k-th registered event owns the points 2k and 2k + 1. */
  ghost predicate Registered(events: Events, ids: seq<Id>, n: nat) {
    && n == 2 * |ids|
    && (forall k | 0 <= k < |ids| :: ids[k] in events && events[ids[k]] == Span(2 * k, 2 * k + 1))
    && (forall id | id in events :: id in ids && events[id].s < n && events[id].e < n)
  }

  ghost predicate AllRegistered(events: Events, facts: seq<Fact>) {
    forall k | 0 <= k < |facts| :: facts[k].a in events && facts[k].b in events
  }

  function Points(events: Events, a: Id, b: Id): (pts: seq<nat>)
    requires a in events && b in events
    ensures |pts| == 4
  {
    [events[a].s, events[a].e, events[b].s, events[b].e]
  }

  ghost predicate InBounds(events: Events, n: nat) {
    forall id | id in events :: events[id].s < n && events[id].e < n
  }

  ghost predicate FactHolds(events: Events, f: Fact, v: seq<int>)
    requires f.a in events && f.b in events && InBounds(events, |v|)
  {
    AllHold(EndpointConstraints(f.rel), At(v, Points(events, f.a, f.b)))
  }

  /** The valuation makes every event non-empty and every fact true. */
  ghost predicate Realises(events: Events, facts: seq<Fact>, v: seq<int>)
    requires AllRegistered(events, facts) && InBounds(events, |v|)
  {
    && (forall id | id in events :: v[events[id].s] < v[events[id].e])
    && (forall k | 0 <= k < |facts| :: FactHolds(events, facts[k], v))
  }

  /** Valuation and timeline give the registered events the same intervals. */
  ghost predicate Agree(events: Events, v: seq<int>, t: Timeline)
    requires InBounds(events, |v|)
  {
    forall id | id in events :: v[events[id].s] == t(id).s && v[events[id].e] == t(id).e
  }

  lemma FactAgrees(events: Events, f: Fact, v: seq<int>, t: Timeline)
    requires f.a in events && f.b in events && InBounds(events, |v|) && Agree(events, v, t)
    ensures FactHolds(events, f, v) <==> True(t, f)
  {
    ConstraintsCharacteriseOf(t(f.a), t(f.b), f.rel);
    assert At(v, Points(events, f.a, f.b)) == Endpoints(t(f.a), t(f.b));
  }

  lemma RealisesAgrees(events: Events, facts: seq<Fact>, v: seq<int>, t: Timeline)
    requires AllRegistered(events, facts) && InBounds(events, |v|) && Agree(events, v, t)
    ensures Realises(events, facts, v) <==> Satisfies(t, facts)
  {
    forall k | 0 <= k < |facts|
      ensures FactHolds(events, facts[k], v) <==> True(t, facts[k])
    {
      FactAgrees(events, facts[k], v, t);
    }
  }

  /** Every valuation with non-empty events is a timeline. */
  lemma TimelineOf(events: Events, v: seq<int>) returns (t: Timeline)
    requires InBounds(events, |v|) && forall id | id in events :: v[events[id].s] < v[events[id].e]
    ensures Agree(events, v, t)
  {
    t := (id: Id) =>
      if id in events && events[id].s < |v| && events[id].e < |v| && v[events[id].s] < v[events[id].e]
      then Interval(v[events[id].s], v[events[id].e]) else Interval(0, 1);
  }

  /** Every timeline is a valuation. */
  lemma ValuationOf(events: Events, ids: seq<Id>, t: Timeline) returns (v: seq<int>)
    requires Registered(events, ids, 2 * |ids|)
    ensures |v| == 2 * |ids| && InBounds(events, |v|) && Agree(events, v, t)
  {
    v := seq(2 * |ids|, i requires 0 <= i < 2 * |ids| => if i % 2 == 0 then t(ids[i / 2]).s else t(ids[i / 2]).e);
    forall id | id in events
      ensures v[events[id].s] == t(id).s && v[events[id].e] == t(id).e
    {
      var k :| 0 <= k < |ids| && ids[k] == id;
      assert (2 * k) / 2 == k && (2 * k + 1) / 2 == k;
    }
  }

  // ------------------------------------------------------------ fresh events

  ghost predicate Mentions(facts: seq<Fact>, id: Id) {
    exists k :: 0 <= k < |facts| && (facts[k].a == id || facts[k].b == id)
  }

  function Stretch(i: Interval): Interval {
    Interval(4 * i.s, 4 * i.e)
  }

  /** An interval in the relation to a stretched one: stretching makes room for every relation. */
  function Beside(r: Relation, j: Interval): (i: Interval)
    ensures Of(i, Stretch(j)) == r
  {
    var s, e := 4 * j.s, 4 * j.e;
    match r
    case Before => Interval(s - 2, s - 1)
    case Meets => Interval(s - 1, s)
    case Overlaps => Interval(s - 1, s + 1)
    case Starts => Interval(s, s + 1)
    case During => Interval(s + 1, s + 2)
    case Finishes => Interval(e - 1, e)
    case Equals => Interval(s, e)
    case FinishedBy => Interval(s - 1, e)
    case Contains => Interval(s - 1, e + 1)
    case StartedBy => Interval(s, e + 1)
    case OverlappedBy => Interval(e - 1, e + 1)
    case MetBy => Interval(e, e + 1)
    case After => Interval(e + 1, e + 2)
  }

  lemma StretchKeepsOf(i: Interval, j: Interval)
    ensures Of(Stretch(i), Stretch(j)) == Of(i, j)
  {}

  /** A relation to an event that no fact mentions never contradicts the facts. */
  lemma FreshNeverConflicts(facts: seq<Fact>, f: Fact)
    requires Satisfiable(facts) && f.a != f.b && (!Mentions(facts, f.a) || !Mentions(facts, f.b))
    ensures Satisfiable(facts + [f])
  {
    var t: Timeline :| Satisfies(t, facts);
    var t': Timeline;
    if !Mentions(facts, f.a) {
      t' := (id: Id) => if id == f.a then Beside(f.rel, t(f.b)) else Stretch(t(id));
    } else {
      OfInverse(Beside(Inverse(f.rel), t(f.a)), Stretch(t(f.a)));
      InverseInvolution(f.rel);
      t' := (id: Id) => if id == f.b then Beside(Inverse(f.rel), t(f.a)) else Stretch(t(id));
    }
    forall k | 0 <= k < |facts|
      ensures True(t', facts[k])
    {
      assert True(t, facts[k]);
      StretchKeepsOf(t(facts[k].a), t(facts[k].b));
    }
    SatisfiesSnoc(t', facts, f);
  }
}
