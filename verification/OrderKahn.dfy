/** The full re-sort after merges (time/order.rs, `reorder_all`): Kahn's algorithm. */
module OrderKahn {
  import opened OrderModels
  import opened OrderRenumber
  import opened OrderState
  import opened OrderMerge

  // ------------------------------------------------------------ rewriting the lists

  function Dedup(s: seq<nat>): seq<nat> {
    if |s| < 2 then s
    else if s[0] == s[1] then Dedup(s[1..])
    else [s[0]] + Dedup(s[1..])
  }

  ghost predicate Ascending(s: seq<nat>) {
    forall i, j | 0 <= i < j < |s| :: s[i] <= s[j]
  }

  lemma {:induction false} DedupCorrect(s: seq<nat>)
    requires Ascending(s)
    ensures NoDup(Dedup(s)) && forall z :: z in Dedup(s) <==> z in s
  {
    if |s| >= 2 {
      DedupCorrect(s[1..]);
      assert s == [s[0]] + s[1..];
      if s[0] != s[1] {
        assert s[0] !in s[1..];
      }
    }
  }

  ghost predicate SameElements(s: seq<nat>, t: seq<nat>) {
    forall z :: z in s <==> z in t
  }

  /** Replace the entries by their representatives, sort and remove duplicates. */
  method Normalise(parent: seq<nat>, s: seq<nat>, ghost rep: seq<nat>, ghost rank: seq<nat>,
      ghost top: nat) returns (r: seq<nat>)
    requires Forest(parent, rep, rank, top) && forall z | z in s :: z < |rep| && rep[z] == z
    ensures SameElements(r, s) && NoDup(r)
  {
    var m := [];
    for k := 0 to |s|
      invariant m == s[..k]
    {
      assert s[k] in s;
      var z := FindRoot(parent, s[k], rep, rank, top);
      m := m + [z];
    }
    SortByCorrect(m, z => z);
    assert Ascending(Sort(m)) by {
      assert forall i, j | 0 <= i < j < |Sort(m)| :: ((z: nat) => z)(Sort(m)[i]) <= ((z: nat) => z)(Sort(m)[j]);
    }
    r := Dedup(Sort(m));
    DedupCorrect(Sort(m));
  }

  ghost predicate Normalised(adj: Adjacency, adj': Adjacency) {
    |adj'| == |adj| && forall i | 0 <= i < |adj| :: SameElements(adj'[i], adj[i]) && NoDup(adj'[i])
  }

  method NormaliseAll(parent: seq<nat>, adj: Adjacency, ghost rep: seq<nat>, ghost rank: seq<nat>,
      ghost top: nat) returns (r: Adjacency)
    requires Forest(parent, rep, rank, top) && |adj| == |rep|
    requires forall i, z {:trigger z in adj[i]} | 0 <= i < |adj| && z in adj[i] :: z < |rep| && rep[z] == z
    ensures Normalised(adj, r)
  {
    r := adj;
    for i := 0 to |adj|
      invariant |r| == |adj|
      invariant forall j | 0 <= j < i :: SameElements(r[j], adj[j]) && NoDup(r[j])
      invariant forall j | i <= j < |adj| :: r[j] == adj[j]
    {
      var fixed := Normalise(parent, r[i], rep, rank, top);
      r := r[i := fixed];
    }
  }

  // ------------------------------------------------------------ counting unprocessed predecessors

  /** How many of the first `n` nodes outside `done` have an edge to `s`. */
  ghost function Count(succ: Adjacency, done: set<nat>, s: nat, n: nat): nat
    requires n <= |succ|
  {
    if n == 0 then 0
    else Count(succ, done, s, n - 1) + if n - 1 !in done && s in succ[n - 1] then 1 else 0
  }

  lemma {:induction false} CountZero(succ: Adjacency, done: set<nat>, s: nat, n: nat)
    requires n <= |succ|
    ensures Count(succ, done, s, n) == 0 <==> forall v | 0 <= v < n && s in succ[v] :: v in done
  {
    if n > 0 {
      CountZero(succ, done, s, n - 1);
    }
  }

  lemma {:induction false} CountDone(succ: Adjacency, done: set<nat>, s: nat, v: nat, n: nat)
    requires n <= |succ| && v < |succ| && v !in done
    ensures Count(succ, done, s, n) == Count(succ, done + {v}, s, n) + if v < n && s in succ[v] then 1 else 0
  {
    if n > 0 {
      CountDone(succ, done, s, v, n - 1);
    }
  }

  ghost predicate Counts(succ: Adjacency, done: set<nat>, indeg: seq<nat>) {
    |indeg| == |succ| && forall s | 0 <= s < |succ| :: indeg[s] == Count(succ, done, s, |succ|)
  }

  /** The edges of node `i` are counted once each. */
  method CountEdges(out: seq<nat>, indeg0: seq<nat>) returns (indeg: seq<nat>)
    requires NoDup(out) && forall s | s in out :: s < |indeg0|
    ensures |indeg| == |indeg0| && forall s | 0 <= s < |indeg| :: indeg[s] == indeg0[s] + if s in out then 1 else 0
  {
    indeg := indeg0;
    for k := 0 to |out|
      invariant |indeg| == |indeg0|
      invariant forall s | 0 <= s < |indeg| :: indeg[s] == indeg0[s] + if s in out[..k] then 1 else 0
    {
      assert out[k] in out && out[k] !in out[..k];
      indeg := indeg[out[k] := indeg[out[k]] + 1];
      assert out[..k + 1] == out[..k] + [out[k]];
    }
    assert out[..|out|] == out;
  }

  lemma OnlyRootsHaveEdges(parent: seq<nat>, succ: Adjacency, rep: seq<nat>, rank: seq<nat>, top: nat)
    requires Forest(parent, rep, rank, top) && Graph(rep, succ)
    ensures |parent| == |rep| == |succ|
    ensures forall i | 0 <= i < |rep| && rep[i] != i :: forall s: nat :: s !in succ[i]
    ensures forall i, s | 0 <= i < |succ| && s in succ[i] :: s < |succ|
  {}

  method InDegrees(parent: seq<nat>, succ: Adjacency, ghost rep: seq<nat>, ghost rank: seq<nat>,
      ghost top: nat) returns (indeg: seq<nat>)
    requires Forest(parent, rep, rank, top) && Graph(rep, succ) && forall i | 0 <= i < |succ| :: NoDup(succ[i])
    ensures Counts(succ, {}, indeg)
  {
    hide Forest, Graph, NoDup;
    OnlyRootsHaveEdges(parent, succ, rep, rank, top);
    indeg := seq(|parent|, i => 0);
    for i := 0 to |parent|
      invariant |indeg| == |succ| && forall s | 0 <= s < |succ| :: indeg[s] == Count(succ, {}, s, i)
    {
      var r := FindRoot(parent, i, rep, rank, top);
      if r != i {
        assert forall s | 0 <= s < |succ| :: s !in succ[i];
        continue;
      }
      indeg := CountEdges(succ[i], indeg);
    }
  }

  // ------------------------------------------------------------ the queue

  /** The state of the re-sort when the nodes in `done` have their numbers. */
  ghost predicate Sorting(rep: seq<nat>, succ: Adjacency, ord: seq<nat>, next: nat, done: set<nat>) {
    && |ord| == |rep| == |succ|
    && (forall v | v in done :: v < |rep| && rep[v] == v && ord[v] < next)
    && (forall u, v | u in done && v in done && u != v :: ord[u] != ord[v])
    && (forall v, s {:trigger s in succ[v]} | 0 <= v < |succ| && s in succ[v] && s in done ::
      v in done && ord[v] < ord[s])
  }

  /** The queue holds the unprocessed nodes without unprocessed predecessors. */
  ghost predicate Queued(rep: seq<nat>, indeg: seq<nat>, queue: seq<nat>, done: set<nat>) {
    && |indeg| == |rep| && NoDup(queue)
    && (forall q | q in queue :: q < |rep| && rep[q] == q && q !in done && indeg[q] == 0)
    && (forall s | 0 <= s < |rep| && rep[s] == s && indeg[s] == 0 :: s in done || s in queue)
  }

  method InitialQueue(parent: seq<nat>, indeg: seq<nat>, ghost rep: seq<nat>, ghost rank: seq<nat>,
      ghost top: nat) returns (queue: seq<nat>)
    requires Forest(parent, rep, rank, top) && |indeg| == |parent|
    ensures Queued(rep, indeg, queue, {})
  {
    queue := [];
    for i := 0 to |parent|
      invariant NoDup(queue)
      invariant forall q | q in queue :: q < i && rep[q] == q && indeg[q] == 0
      invariant forall s | 0 <= s < i && rep[s] == s && indeg[s] == 0 :: s in queue
    {
      var r := FindRoot(parent, i, rep, rank, top);
      if r == i && indeg[i] == 0 {
        queue := queue + [i];
      }
    }
  }

  /** What is left to subtract for the edges of the node being processed. */
  ghost predicate Releasing(succ: Adjacency, done: set<nat>, indeg: seq<nat>, rest: seq<nat>) {
    && |indeg| == |succ|
    && (forall s | 0 <= s < |succ| :: indeg[s] == Count(succ, done, s, |succ|) + if s in rest then 1 else 0)
  }

  /** The inner loop: subtract the edges of a processed node, queueing those it releases. */
  method Release(ghost rep: seq<nat>, succ: Adjacency, out: seq<nat>, indeg0: seq<nat>, queue0: seq<nat>,
      ghost done: set<nat>)
    returns (indeg: seq<nat>, queue: seq<nat>)
    requires NoDup(out) && (forall s | s in out :: s < |succ| == |rep| && rep[s] == s && s !in done)
    requires Releasing(succ, done, indeg0, out) && Queued(rep, indeg0, queue0, done)
    ensures Counts(succ, done, indeg) && Queued(rep, indeg, queue, done)
  {
    indeg, queue := indeg0, queue0;
    for k := 0 to |out|
      invariant Releasing(succ, done, indeg, out[k..]) && Queued(rep, indeg, queue, done)
    {
      var s := out[k];
      assert s in out && s in out[k..] && s !in out[k + 1..];
      assert out[k..] == [s] + out[k + 1..];
      indeg := indeg[s := indeg[s] - 1];
      if indeg[s] == 0 {
        queue := queue + [s];
      }
    }
    assert out[|out|..] == [];
  }

  /** Kahn's loop: number the nodes in the order in which their predecessors run out. */
  method Number(succ: Adjacency, ord0: seq<nat>, indeg0: seq<nat>, queue0: seq<nat>, ghost rep: seq<nat>,
      ghost w: seq<int>)
    returns (ord: seq<nat>, next: nat)
    requires Graph(rep, succ) && |ord0| == |rep| && IsModel(rep, succ, w) && forall i | 0 <= i < |succ| ::
      NoDup(succ[i])
    requires Counts(succ, {}, indeg0) && Queued(rep, indeg0, queue0, {})
    ensures |ord| == |rep| && Topological(rep, succ, ord, next)
  {
    ord, next := ord0, 0;
    var indeg, queue := indeg0, queue0;
    ghost var done: set<nat> := {};
    while queue != []
      invariant Sorting(rep, succ, ord, next, done)
      invariant Counts(succ, done, indeg) && Queued(rep, indeg, queue, done)
      decreases Unprocessed(rep, done)
    {
      var v := queue[0];
      assert v in queue;
      CountZero(succ, done, v, |succ|);
      Processed(rep, succ, ord, next, done, w, v);
      Dequeued(rep, succ, indeg, queue, done, w);
      ghost var before := Unprocessed(rep, done);
      queue := queue[1..];
      ord := ord[v := next];
      next := next + 1;
      done := done + {v};
      indeg, queue := Release(rep, succ, succ[v], indeg, queue, done);
      assert Unprocessed(rep, done) < before by { assert v in before; }
    }
    AllProcessed(rep, succ, indeg, done, w);
  }

  ghost function Unprocessed(rep: seq<nat>, done: set<nat>): (s: set<nat>)
    ensures forall i: nat :: i in s <==> i < |rep| && rep[i] == i && i !in done
  {
    UnprocessedBelow(rep, done, |rep|)
  }

  ghost function UnprocessedBelow(rep: seq<nat>, done: set<nat>, n: nat): (s: set<nat>)
    requires n <= |rep|
    ensures forall i: nat :: i in s <==> i < n && rep[i] == i && i !in done
  {
    if n == 0 then {}
    else if rep[n - 1] == n - 1 && n - 1 !in done then UnprocessedBelow(rep, done, n - 1) + {n - 1}
    else UnprocessedBelow(rep, done, n - 1)
  }

  lemma Processed(rep: seq<nat>, succ: Adjacency, ord: seq<nat>, next: nat, done: set<nat>, w: seq<int>, v: nat)
    requires Graph(rep, succ) && IsModel(rep, succ, w) && Sorting(rep, succ, ord, next, done)
    requires v < |rep| && rep[v] == v && v !in done && forall u | 0 <= u < |succ| && v in succ[u] :: u in done
    ensures Sorting(rep, succ, ord[v := next], next + 1, done + {v})
  {
    var ord', done' := ord[v := next], done + {v};
    forall u, s {:trigger s in succ[u]} | 0 <= u < |succ| && s in succ[u] && s in done'
      ensures u in done' && ord'[u] < ord'[s]
    {
      if s == v {
        assert u in done;
      }
    }
  }

  /** Taking the head off the queue leaves its edges to be subtracted. */
  lemma Dequeued(rep: seq<nat>, succ: Adjacency, indeg: seq<nat>, queue: seq<nat>, done: set<nat>, w: seq<int>)
    requires Graph(rep, succ) && IsModel(rep, succ, w) && Counts(succ, done, indeg) &&
      Queued(rep, indeg, queue, done) && queue != []
    requires forall v, s {:trigger s in succ[v]} | 0 <= v < |succ| && s in succ[v] && s in done :: v in done
    ensures var v := queue[0];
            && v < |succ|
            && Releasing(succ, done + {v}, indeg, succ[v]) && Queued(rep, indeg, queue[1..], done + {v})
            && (forall s | s in succ[v] :: s < |succ| == |rep| && rep[s] == s && s !in done + {v})
  {
    var v := queue[0];
    assert v in queue;
    forall s | 0 <= s < |succ|
      ensures indeg[s] == Count(succ, done + {v}, s, |succ|) + if s in succ[v] then 1 else 0
    {
      CountDone(succ, done, s, v, |succ|);
    }
    assert queue == [v] + queue[1..];
    assert v !in queue[1..];
    forall s | s in succ[v]
      ensures s !in done + {v}
    {
      assert w[v] < w[s];
    }
  }

  lemma LeastByModel(s: set<nat>, w: seq<int>) returns (m: nat)
    requires s != {} && forall i | i in s :: i < |w|
    ensures m in s && forall i | i in s :: w[m] <= w[i]
  {
    m :| m in s;
    if s - {m} != {} {
      var o := LeastByModel(s - {m}, w);
      if w[o] < w[m] {
        m := o;
      }
    }
  }

  /** With a model there is no cycle, so the queue runs empty only when every node is numbered. */
  lemma AllProcessed(rep: seq<nat>, succ: Adjacency, indeg: seq<nat>, done: set<nat>, w: seq<int>)
    requires Graph(rep, succ) && IsModel(rep, succ, w) && Counts(succ, done, indeg) && Queued(rep, indeg, [], done)
    ensures forall i | 0 <= i < |rep| && rep[i] == i :: i in done
  {
    var u := Unprocessed(rep, done);
    if u != {} {
      var m := LeastByModel(u, w);
      CountZero(succ, done, m, |succ|);
      assert false;
    }
  }

  // ------------------------------------------------------------ the whole re-sort

  lemma NormalisedModels(rep: seq<nat>, succ: Adjacency, succ': Adjacency)
    requires Graph(rep, succ) && Normalised(succ, succ')
    ensures Graph(rep, succ') && forall v: seq<int> | |v| == |rep| :: IsModel(rep, succ', v) <==> IsModel(rep, succ, v)
  {
    forall i, y {:trigger y in succ'[i]} | 0 <= i < |succ'|
      ensures y in succ'[i] <==> y in succ[i]
    {
      assert SameElements(succ'[i], succ[i]);
    }
    forall i, y {:trigger y in succ[i]} | 0 <= i < |succ'|
      ensures y in succ'[i] <==> y in succ[i]
    {
      assert SameElements(succ'[i], succ[i]);
    }
  }

  lemma NormalisedMirror(succ: Adjacency, pred: Adjacency, succ': Adjacency, pred': Adjacency)
    requires Mirror(succ, pred) && Normalised(succ, succ') && Normalised(pred, pred')
    ensures Mirror(succ', pred')
  {
    forall i, y {:trigger y in succ'[i]} | 0 <= i < |succ'| && y in succ'[i]
      ensures y < |pred'| && i in pred'[y]
    {
      assert SameElements(succ'[i], succ[i]) && y in succ[i];
      assert SameElements(pred'[y], pred[y]);
    }
    forall i, y {:trigger i in pred'[y]} | 0 <= y < |pred'| && i in pred'[y]
      ensures i < |succ'| && y in succ'[i]
    {
      assert SameElements(pred'[y], pred[y]) && i in pred[y];
      assert SameElements(succ'[i], succ[i]);
    }
  }

  /** The lists after the re-sort: the same edges once each, in a topological order. */
  method Resort(parent: seq<nat>, succ: Adjacency, pred: Adjacency, ord: seq<nat>, nextOrd: nat,
                ghost rep: seq<nat>, ghost rank: seq<nat>, ghost top: nat, ghost w: seq<int>)
    returns (succ': Adjacency, pred': Adjacency, ord': seq<nat>, nextOrd': nat)
    requires Structure(parent, succ, pred, ord, rep, rank, top) && IsModel(rep, succ, w)
    ensures Structure(parent, succ', pred', ord', rep, rank, top)
    ensures Topological(rep, succ', ord', nextOrd')
    ensures forall v: seq<int> | |v| == |rep| :: IsModel(rep, succ', v) <==> IsModel(rep, succ, v)
  {
    succ' := NormaliseAll(parent, succ, rep, rank, top);
    NormalisedModels(rep, succ, succ');
    var indeg := InDegrees(parent, succ', rep, rank, top);
    var queue := InitialQueue(parent, indeg, rep, rank, top);
    var next;
    ord', next := Number(succ', ord, indeg, queue, rep, w);
    nextOrd' := if next >= nextOrd then next else nextOrd;
    PredRepresentatives(rep, succ, pred);
    pred' := NormaliseAll(parent, pred, rep, rank, top);
    NormalisedMirror(succ, pred, succ', pred');
  }

  lemma PredRepresentatives(rep: seq<nat>, succ: Adjacency, pred: Adjacency)
    requires Graph(rep, succ) && Mirror(succ, pred)
    ensures forall i, z {:trigger z in pred[i]} | 0 <= i < |pred| && z in pred[i] :: z < |rep| && rep[z] == z
  {}
}
