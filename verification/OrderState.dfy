/** The invariant of the temporal order graph, over its fields (time/order.rs). */
module OrderState {
  import opened Allen
  import opened OrderModels
  import opened OrderFacts

  // ------------------------------------------------------------ structure

  /** `parent` is a forest whose roots are the representatives; `rank` grows towards the root. */
  ghost predicate Forest(parent: seq<nat>, rep: seq<nat>, rank: seq<nat>, top: nat) {
    && |parent| == |rep| == |rank|
    && (forall i | 0 <= i < |parent| ::
          && parent[i] < |parent| && rep[i] < |rep| && rank[i] <= top
          && rep[parent[i]] == rep[i]
          && (parent[i] == i <==> rep[i] == i)
          && (parent[i] != i ==> rank[i] < rank[parent[i]]))
  }

  /** `pred` holds the edges of `succ` backwards. */
  ghost predicate Mirror(succ: Adjacency, pred: Adjacency) {
    && |succ| == |pred|
    && (forall i, y {:trigger y in succ[i]} | 0 <= i < |succ| && y in succ[i] :: y < |pred| && i in pred[y])
    && (forall i, y {:trigger i in pred[y]} | 0 <= y < |pred| && i in pred[y] :: i < |succ| && y in succ[i])
  }

  ghost predicate Topological(rep: seq<nat>, succ: Adjacency, ord: seq<nat>, next: nat) {
    && Increasing(succ, ord)
    && Distinct(rep, ord)
    && (forall i | 0 <= i < |rep| && rep[i] == i :: ord[i] < next)
  }

  /** The models of the graph are the valuations that realise the facts. */
  ghost predicate Meaning(rep: seq<nat>, succ: Adjacency, events: Events, facts: seq<Fact>)
    requires Graph(rep, succ) && InBounds(events, |rep|) && AllRegistered(events, facts)
  {
    forall v: seq<int> | |v| == |rep| :: IsModel(rep, succ, v) <==> Realises(events, facts, v)
  }

  ghost predicate Structure(parent: seq<nat>, succ: Adjacency, pred: Adjacency, ord: seq<nat>, rep: seq<nat>,
      rank: seq<nat>, top: nat) {
    && |parent| == |pred| == |ord|
    && Graph(rep, succ)
    && Forest(parent, rep, rank, top)
    && Mirror(succ, pred)
  }

  /** The graph holds the events and says what the accepted facts say. */
  ghost predicate Records(rep: seq<nat>, succ: Adjacency, events: Events, ids: seq<Id>, accepted: seq<Fact>)
    requires Graph(rep, succ)
  {
    && Registered(events, ids, |rep|) && AllRegistered(events, accepted)
    && Meaning(rep, succ, events, accepted)
  }

  ghost predicate Consistency(parent: seq<nat>, succ: Adjacency, pred: Adjacency, ord: seq<nat>, nextOrd: nat,
                              rep: seq<nat>, rank: seq<nat>, top: nat, events: Events, ids: seq<Id>,
                                accepted: seq<Fact>)
  {
    && Structure(parent, succ, pred, ord, rep, rank, top)
    && Topological(rep, succ, ord, nextOrd)
    && Records(rep, succ, events, ids, accepted)
  }

  lemma EmptyRecords(rep: seq<nat>, succ: Adjacency)
    requires |rep| == |succ| == 0
    ensures Graph(rep, succ) && Records(rep, succ, map[], [], [])
  {
    forall v: seq<int> | |v| == 0
      ensures IsModel(rep, succ, v) && Realises(map[], [], v)
    {}
  }

  lemma EmptyConsistency()
    ensures Consistency([], [], [], [], 0, [], [], 0, map[], [], [])
  {
    EmptyRecords([], []);
    hide Records;
  }

  lemma StructureFacts(parent: seq<nat>, succ: Adjacency, pred: Adjacency, ord: seq<nat>, rep: seq<nat>,
      rank: seq<nat>, top: nat)
    requires Structure(parent, succ, pred, ord, rep, rank, top)
    ensures |parent| == |succ| == |pred| == |ord| == |rep| && Graph(rep, succ) && Mirror(succ, pred)
    ensures forall i | 0 <= i < |rep| :: rep[i] < |rep| && rep[rep[i]] == rep[i]
  {}

  lemma StructureForest(parent: seq<nat>, succ: Adjacency, pred: Adjacency, ord: seq<nat>, rep: seq<nat>,
      rank: seq<nat>,
      top: nat)
    requires Structure(parent, succ, pred, ord, rep, rank, top)
    ensures Forest(parent, rep, rank, top)
  {}

  lemma StructureReordered(parent: seq<nat>, succ: Adjacency, pred: Adjacency, ord: seq<nat>, ord': seq<nat>,
      rep: seq<nat>, rank: seq<nat>, top: nat)
    requires Structure(parent, succ, pred, ord, rep, rank, top) && |ord'| == |ord|
    ensures Structure(parent, succ, pred, ord', rep, rank, top)
  {}

  // ------------------------------------------------------------ registering an event

  lemma RegisterStructure(parent: seq<nat>, succ: Adjacency, pred: Adjacency, ord: seq<nat>, rep: seq<nat>,
      rank: seq<nat>, top: nat, o: nat)
    requires Structure(parent, succ, pred, ord, rep, rank, top)
    ensures var n := |parent|;
            Structure(parent + [n, n + 1], succ + [[n + 1], []], pred + [[], [n]], ord + [o, o + 1], rep + [n, n + 1],
              rank + [0, 0], top)
  {
    var n := |parent|;
    var succ', pred', rep' := succ + [[n + 1], []], pred + [[], [n]], rep + [n, n + 1];
    assert forall i | 0 <= i < n :: succ'[i] == succ[i] && pred'[i] == pred[i] && rep'[i] == rep[i];
    assert succ'[n] == [n + 1] && succ'[n + 1] == [] && pred'[n] == [] && pred'[n + 1] == [n];
  }

  lemma RegisterTopological(rep: seq<nat>, succ: Adjacency, ord: seq<nat>, next: nat)
    requires Graph(rep, succ) && Topological(rep, succ, ord, next)
    ensures var n := |rep|; Topological(rep + [n, n + 1], succ + [[n + 1], []], ord + [next, next + 1], next + 2)
  {
    var n := |rep|;
    var succ', ord', rep' := succ + [[n + 1], []], ord + [next, next + 1], rep + [n, n + 1];
    assert forall i | 0 <= i < n :: succ'[i] == succ[i] && ord'[i] == ord[i] && rep'[i] == rep[i];
    assert succ'[n] == [n + 1] && succ'[n + 1] == [];
  }

  /** Two pushes and an edge between the new points, on one list of lists. */
  lemma PushedPair(adj: Adjacency, n: nat)
    requires |adj| == n
    ensures PushFirst(adj, n) == adj + [[n + 1], []] && PushSecond(adj, n) == adj + [[], [n]]
  {
    var a := adj + [[]] + [[]];
    assert a[n] == [] && a[n + 1] == [];
    assert [] + [n + 1] == [n + 1] && [] + [n] == [n];
  }

  function PushFirst(adj: Adjacency, n: nat): Adjacency
    requires |adj| == n
  {
    var a := adj + [[]] + [[]];
    a[n := a[n] + [n + 1]]
  }

  function PushSecond(adj: Adjacency, n: nat): Adjacency
    requires |adj| == n
  {
    var a := adj + [[]] + [[]];
    a[n + 1 := a[n + 1] + [n]]
  }

  lemma RegisterModels(rep: seq<nat>, succ: Adjacency, v: seq<int>)
    requires Graph(rep, succ) && |v| == |rep| + 2
    ensures var n := |rep|;
            && Graph(rep + [n, n + 1], succ + [[n + 1], []])
            && (IsModel(rep + [n, n + 1], succ + [[n + 1], []], v) <==> IsModel(rep, succ, v[..n]) && v[n] < v[n + 1])
  {
    var n := |rep|;
    var succ', rep' := succ + [[n + 1], []], rep + [n, n + 1];
    assert forall i | 0 <= i < n :: succ'[i] == succ[i] && rep'[i] == rep[i] && v[..n][i] == v[i];
    assert succ'[n] == [n + 1] && succ'[n + 1] == [];
    if IsModel(rep', succ', v) {
      assert n + 1 in succ'[n];
      forall i, y {:trigger y in succ[i]} | 0 <= i < |succ| && y in succ[i]
        ensures y < n && v[..n][i] < v[..n][y]
      {
        assert y in succ'[i];
      }
      forall i | 0 <= i < n
        ensures v[..n][i] == v[..n][rep[i]]
      {
        assert v[i] == v[rep'[i]];
      }
    }
  }

  lemma RegisterRealises(events: Events, facts: seq<Fact>, id: Id, n: nat, v: seq<int>)
    requires InBounds(events, n) && AllRegistered(events, facts) && id !in events && |v| == n + 2
    ensures var events' := events[id := Span(n, n + 1)];
            && AllRegistered(events', facts) && InBounds(events', n + 2)
            && (Realises(events', facts, v) <==> Realises(events, facts, v[..n]) && v[n] < v[n + 1])
  {
    var events' := events[id := Span(n, n + 1)];
    forall k | 0 <= k < |facts|
      ensures FactHolds(events', facts[k], v) <==> FactHolds(events, facts[k], v[..n])
    {
      var f := facts[k];
      assert At(v, Points(events', f.a, f.b)) == At(v[..n], Points(events, f.a, f.b));
    }
    forall i | i in events
      ensures v[events'[i].s] < v[events'[i].e] <==> v[..n][events[i].s] < v[..n][events[i].e]
    {}
    assert id in events' && events'[id] == Span(n, n + 1);
  }

  /** A new event adds two points and the edge between them, and no other constraint. */
  lemma RegisterKeeps(parent: seq<nat>, succ: Adjacency, pred: Adjacency, ord: seq<nat>, nextOrd: nat,
                      rep: seq<nat>, rank: seq<nat>, top: nat, events: Events, ids: seq<Id>, accepted: seq<Fact>,
                        id: Id)
    requires Consistency(parent, succ, pred, ord, nextOrd, rep, rank, top, events, ids, accepted) && id !in events
    ensures |parent| == |succ| == |pred|
    ensures var n := |parent|;
            Consistency(parent + [n] + [n + 1], PushFirst(succ, n), PushSecond(pred, n),
              ord + [nextOrd] + [nextOrd + 1], nextOrd + 1 + 1,
                        rep + [n] + [n + 1], rank + [0] + [0], top, events[id := Span(n, n + 1)], ids + [id], accepted)
  {
    hide Structure, Topological, Records, PushFirst, PushSecond, Graph;
    var n := |parent|;
    StructureFacts(parent, succ, pred, ord, rep, rank, top);
    RegisterStructure(parent, succ, pred, ord, rep, rank, top, nextOrd);
    StructureFacts(parent + [n, n + 1], succ + [[n + 1], []], pred + [[], [n]], ord + [nextOrd, nextOrd + 1],
                   rep + [n, n + 1], rank + [0, 0], top);
    RegisterTopological(rep, succ, ord, nextOrd);
    RegisterRecords(rep, succ, events, ids, accepted, id);
    PushedPair(succ, n);
    PushedPair(pred, n);
    assert parent + [n] + [n + 1] == parent + [n, n + 1] && rep + [n] + [n + 1] == rep + [n, n + 1];
    assert ord + [nextOrd] + [nextOrd + 1] == ord + [nextOrd, nextOrd + 1] && rank + [0] + [0] == rank + [0, 0];
  }

  lemma RegisterRecords(rep: seq<nat>, succ: Adjacency, events: Events, ids: seq<Id>, accepted: seq<Fact>, id: Id)
    requires Graph(rep, succ) && Records(rep, succ, events, ids, accepted) && id !in events
    requires Graph(rep + [|rep|, |rep| + 1], succ + [[|rep| + 1], []])
    ensures var n := |rep|;
            Records(rep + [n, n + 1], succ + [[n + 1], []], events[id := Span(n, n + 1)], ids + [id], accepted)
  {
    var n := |rep|;
    var events' := events[id := Span(n, n + 1)];
    forall v: seq<int> | |v| == n + 2
      ensures IsModel(rep + [n, n + 1], succ + [[n + 1], []], v) <==> Realises(events', accepted, v)
    {
      RegisterModels(rep, succ, v);
      RegisterRealises(events, accepted, id, n, v);
      assert |v[..n]| == n;
      hide IsModel, Realises;
    }
    assert Registered(events', ids + [id], n + 2);
  }
}
