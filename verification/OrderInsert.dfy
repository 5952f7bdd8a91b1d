/** Inserting a strict edge and renumbering the affected region (time/order.rs, `add_lt`). */
module OrderInsert {
  import opened Wrappers
  import opened OrderModels
  import opened OrderRenumber
  import opened OrderSearch
  import opened OrderState

  datatype Outcome = Ok | Conflict | Cycle

  lemma InsertStructure(parent: seq<nat>, succ: Adjacency, pred: Adjacency, ord: seq<nat>, rep: seq<nat>,
      rank: seq<nat>,
      top: nat, x: nat, y: nat)
    requires Structure(parent, succ, pred, ord, rep, rank, top) && x < |rep| && y < |rep| && rep[x] == x && rep[y] == y
    ensures Structure(parent, succ[x := succ[x] + [y]], pred[y := pred[y] + [x]], ord, rep, rank, top)
  {
    var succ', pred' := succ[x := succ[x] + [y]], pred[y := pred[y] + [x]];
    forall i, z
      ensures 0 <= i < |succ| ==> (z in succ'[i] <==> z in succ[i] || (i == x && z == y))
      ensures 0 <= i < |pred| ==> (z in pred'[i] <==> z in pred[i] || (i == y && z == x))
    {}
    hide Forest;
  }

  lemma InsertModels(rep: seq<nat>, succ: Adjacency, x: nat, y: nat, v: seq<int>)
    requires Graph(rep, succ) && x < |rep| && y < |rep| && rep[x] == x && rep[y] == y && |v| == |rep|
    requires Graph(rep, succ[x := succ[x] + [y]])
    ensures IsModel(rep, succ[x := succ[x] + [y]], v) <==> IsModel(rep, succ, v) && v[x] < v[y]
  {
    var succ' := succ[x := succ[x] + [y]];
    forall i, z
      ensures 0 <= i < |succ| ==> (z in succ'[i] <==> z in succ[i] || (i == x && z == y))
    {}
    assert y in succ'[x];
    if IsModel(rep, succ', v) {
      forall i, z {:trigger z in succ[i]} | 0 <= i < |succ| && z in succ[i]
        ensures z < |v| && v[i] < v[z]
      {
        assert z in succ'[i];
      }
    }
  }

  /** A model gives a point the value of its representative. */
  lemma ModelAtRep(rep: seq<nat>, succ: Adjacency, v: seq<int>, i: nat)
    requires Graph(rep, succ) && IsModel(rep, succ, v) && i < |rep|
    ensures |v| == |rep| && rep[i] < |rep| && v[i] == v[rep[i]]
  {}

  /** `succ'` has the models of `succ` in which `x` is before `y`. */
  ghost predicate WithEdge(rep: seq<nat>, succ: Adjacency, succ': Adjacency, x: nat, y: nat)
    requires Graph(rep, succ) && Graph(rep, succ') && x < |rep| && y < |rep|
  {
    forall v: seq<int> | |v| == |rep| :: IsModel(rep, succ', v) <==> IsModel(rep, succ, v) && v[x] < v[y]
  }

  lemma InsertMeaning(rep: seq<nat>, succ: Adjacency, x: nat, y: nat)
    requires Graph(rep, succ) && x < |rep| && y < |rep| && rep[x] == x && rep[y] == y
    requires Graph(rep, succ[x := succ[x] + [y]])
    ensures WithEdge(rep, succ, succ[x := succ[x] + [y]], x, y)
  {
    forall v: seq<int> | |v| == |rep| { InsertModels(rep, succ, x, y, v); }
  }

  lemma EdgePresent(rep: seq<nat>, succ: Adjacency, x: nat, y: nat)
    requires Graph(rep, succ) && x < |rep| && y < |rep| && y in succ[x]
    ensures WithEdge(rep, succ, succ, x, y)
  {}

  /** An edge between representatives orders all the points merged into them. */
  lemma EdgeMeaning(rep: seq<nat>, succ: Adjacency, succ': Adjacency, x: nat, y: nat)
    requires Graph(rep, succ) && Graph(rep, succ') && x < |rep| && y < |rep| &&
      WithEdge(rep, succ, succ', rep[x], rep[y])
    ensures WithEdge(rep, succ, succ', x, y)
  {
    forall v: seq<int> | |v| == |rep|
      ensures IsModel(rep, succ', v) <==> IsModel(rep, succ, v) && v[x] < v[y]
    {
      if IsModel(rep, succ, v) {
        ModelAtRep(rep, succ, v, x);
        ModelAtRep(rep, succ, v, y);
      }
      assert IsModel(rep, succ', v) <==> IsModel(rep, succ, v) && v[rep[x]] < v[rep[y]];
    }
  }

  lemma InsertIncreasing(rep: seq<nat>, succ: Adjacency, ord: seq<nat>, x: nat, y: nat)
    requires Graph(rep, succ) && Increasing(succ, ord) && x < |succ| && y < |succ|
    ensures IncreasingExcept(succ[x := succ[x] + [y]], ord, x, y)
    ensures ord[x] < ord[y] ==> Increasing(succ[x := succ[x] + [y]], ord)
  {
    var succ' := succ[x := succ[x] + [y]];
    forall i, z
      ensures 0 <= i < |succ| ==> (z in succ'[i] <==> z in succ[i] || (i == x && z == y))
    {}
  }

  lemma InsertSorted(rep: seq<nat>, succ: Adjacency, ord: seq<nat>, next: nat, x: nat, y: nat)
    requires Graph(rep, succ) && Topological(rep, succ, ord, next) && x < |succ| && y < |succ|
    ensures Loose(rep, succ[x := succ[x] + [y]], ord, next, x, y)
    ensures ord[x] < ord[y] ==> Topological(rep, succ[x := succ[x] + [y]], ord, next)
  {
    InsertIncreasing(rep, succ, ord, x, y);
  }

  /** The order is topological but for the edge `x < y`. */
  ghost predicate Loose(rep: seq<nat>, succ: Adjacency, ord: seq<nat>, next: nat, x: nat, y: nat) {
    && IncreasingExcept(succ, ord, x, y)
    && Distinct(rep, ord)
    && (forall i | 0 <= i < |rep| && rep[i] == i :: ord[i] < next)
  }

  function Upto(ord: seq<nat>, ub: nat): nat -> bool {
    (m: nat) => m < |ord| && ord[m] <= ub
  }

  function From(ord: seq<nat>, lb: nat): nat -> bool {
    (m: nat) => m < |ord| && ord[m] >= lb
  }

  /** Representatives that a search forward from `y` can meet: no lower than `y` in the model
    * `w`, when there is one, and in the order, when it was topological.
    */
  ghost function AheadOf(rep: seq<nat>, ord: seq<nat>, w: seq<int>, good: bool, topological: bool, y: nat): set<nat>
    requires y < |rep| == |ord| && (good ==> |w| == |rep|)
  {
    set n | n in Nodes(|rep|) && rep[n] == n && (good ==> w[y] <= w[n]) && (topological ==> ord[y] <= ord[n])
  }

  ghost function Behind(rep: seq<nat>, ord: seq<nat>, w: seq<int>, good: bool, topological: bool, x: nat): set<nat>
    requires x < |rep| == |ord| && (good ==> |w| == |rep|)
  {
    set n | n in Nodes(|rep|) && rep[n] == n && (good ==> w[n] <= w[x]) && (topological ==> ord[n] <= ord[x])
  }

  lemma AheadZone(rep: seq<nat>, succ: Adjacency, ord: seq<nat>, w: seq<int>, good: bool, topological: bool, x: nat,
      y: nat, keep: nat -> bool)
    requires Graph(rep, succ) && x < |rep| && y < |rep| == |ord| && rep[y] == y
    requires good ==> IsModel(rep, succ, w)
    requires topological ==> IncreasingExcept(succ, ord, x, y)
    ensures var z := AheadOf(rep, ord, w, good, topological, y);
            y in z && Zone(succ, z, keep) && (good && w[x] < w[y] ==> forall n | n in z && n < |succ| :: x !in succ[n])
  {
    var z := AheadOf(rep, ord, w, good, topological, y);
    forall n, m {:trigger m in succ[n]} | n in z && n < |succ| && m in succ[n]
      ensures m in z && (good && w[x] < w[y] ==> m != x)
    {
    }
  }

  lemma BehindZone(rep: seq<nat>, succ: Adjacency, pred: Adjacency, ord: seq<nat>, w: seq<int>, good: bool,
      topological: bool, x: nat, y: nat, keep: nat -> bool)
    requires Graph(rep, succ) && Mirror(succ, pred) && x < |rep| && y < |rep| == |ord| && rep[x] == x
    requires good ==> IsModel(rep, succ, w)
    requires topological ==> IncreasingExcept(succ, ord, x, y)
    ensures var z := Behind(rep, ord, w, good, topological, x); x in z && Zone(pred, z, keep)
  {
    var z := Behind(rep, ord, w, good, topological, x);
    forall n, m {:trigger m in pred[n]} | n in z && n < |pred| && m in pred[n]
      ensures m in z
    {
      assert n in succ[m];
    }
  }

  function Renumber(ord: seq<nat>, nodes: seq<nat>, slots: seq<nat>): (ord': seq<nat>)
    requires InRange(nodes, |ord|) && |slots| == |nodes|
    ensures |ord'| == |ord|
    decreases |nodes|
  {
    if nodes == [] then ord
    else Renumber(ord, nodes[..|nodes| - 1], slots[..|slots| - 1])[nodes[|nodes| - 1] := slots[|slots| - 1]]
  }

  lemma {:induction false} RenumberCorrect(ord: seq<nat>, nodes: seq<nat>, slots: seq<nat>)
    requires InRange(nodes, |ord|) && |slots| == |nodes| && NoDup(nodes)
    ensures Renumbered(ord, Renumber(ord, nodes, slots), nodes, slots)
    decreases |nodes|
  {
    if nodes != [] {
      var init, last := nodes[..|nodes| - 1], nodes[|nodes| - 1];
      RenumberCorrect(ord, init, slots[..|slots| - 1]);
      assert nodes == init + [last];
      assert last !in init;
    }
  }

  /** Both searches finished without meeting the other side. */
  ghost predicate Swaths(rep: seq<nat>, succ: Adjacency, pred: Adjacency, ord: seq<nat>, w: seq<int>, x: nat, y: nat,
      bwd: seq<nat>, fwd: seq<nat>)
    requires x < |rep| && y < |rep| == |ord| == |w|
  {
    && Collected(succ, Upto(ord, ord[x]), y, Some(x), AheadOf(rep, ord, w, true, true, y), fwd)
    && Collected(pred, From(ord, ord[y]), x, None, Behind(rep, ord, w, true, true, x), bwd)
  }

  lemma SwathsDisjoint(rep: seq<nat>, succ: Adjacency, pred: Adjacency, ord: seq<nat>, w: seq<int>, x: nat, y: nat,
      bwd: seq<nat>, fwd: seq<nat>)
    requires Graph(rep, succ) && x < |rep| && y < |rep| == |ord| == |w| &&
      Swaths(rep, succ, pred, ord, w, x, y, bwd, fwd)
    requires w[x] < w[y] && Distinct(rep, ord) && ord[y] <= ord[x]
    ensures NoDup(bwd + fwd) && InRange(bwd, |ord|) && InRange(fwd, |ord|) && NoDup(Keys(bwd + fwd, ord))
    ensures forall n | n in bwd + fwd :: n < |ord| && rep[n] == n && ord[y] <= ord[n] <= ord[x]
    ensures forall n | n in bwd :: n < |w| && w[n] <= w[x]
    ensures forall n | n in fwd :: n < |w| && w[y] <= w[n]
  {
    forall n | n in bwd
      ensures n < |ord| && rep[n] == n && ord[y] <= ord[n] <= ord[x] && w[n] <= w[x]
    {
      assert n in Behind(rep, ord, w, true, true, x);
      assert n == x || From(ord, ord[y])(n);
    }
    forall n | n in fwd
      ensures n < |ord| && rep[n] == n && ord[y] <= ord[n] <= ord[x] && w[y] <= w[n]
    {
      assert n in AheadOf(rep, ord, w, true, true, y);
      assert n == y || Upto(ord, ord[x])(n);
    }
    assert forall k | 0 <= k < |bwd| :: bwd[k] in bwd;
    assert forall k | 0 <= k < |fwd| :: fwd[k] in fwd;
    var all := bwd + fwd;
    assert forall k | 0 <= k < |bwd| :: all[k] == bwd[k] && all[k] in bwd;
    assert forall k | |bwd| <= k < |all| :: all[k] == fwd[k - |bwd|] && all[k] in fwd;
    assert forall k | 0 <= k < |all| :: all[k] in all;
    forall i, j | 0 <= i < j < |all|
      ensures all[i] != all[j] && ord[all[i]] != ord[all[j]]
    {
      assert all[i] != all[j];
      assert all[i] < all[j] ==> ord[all[i]] != ord[all[j]];
    }
  }

  /** After the renumbering the order is topological for the graph with the new edge. */
  lemma InsertTopological(rep: seq<nat>, succ: Adjacency, pred: Adjacency, ord: seq<nat>, next: nat, w: seq<int>,
      x: nat,
      y: nat, bwd0: seq<nat>, fwd0: seq<nat>)
    requires Graph(rep, succ) && Mirror(succ, pred) && x < |rep| && y < |rep| == |ord| && IsModel(rep, succ, w) &&
      w[x] < w[y]
    requires Loose(rep, succ, ord, next, x, y)
    requires Swaths(rep, succ, pred, ord, w, x, y, bwd0, fwd0) && ord[y] <= ord[x]
    ensures var bwd, fwd := SortBy(bwd0, Key(ord)), SortBy(fwd0, Key(ord));
            && InRange(bwd + fwd, |ord|) && |Sort(Keys(bwd + fwd, ord))| == |bwd + fwd|
            && Topological(rep, succ, Renumber(ord, bwd + fwd, Sort(Keys(bwd + fwd, ord))), next)
  {
    SortByCorrect(bwd0, Key(ord));
    SortByCorrect(fwd0, Key(ord));
    var bwd, fwd := SortBy(bwd0, Key(ord)), SortBy(fwd0, Key(ord));
    assert Swaths(rep, succ, pred, ord, w, x, y, bwd, fwd);
    SwathsDisjoint(rep, succ, pred, ord, w, x, y, bwd, fwd);
    var slots := Sort(Keys(bwd + fwd, ord));
    SortCorrect(Keys(bwd + fwd, ord));
    var ord' := Renumber(ord, bwd + fwd, slots);
    RenumberCorrect(ord, bwd + fwd, slots);
    assert Pool(ord, bwd, fwd, slots);
    SwathsRegion(rep, succ, pred, ord, w, x, y, bwd, fwd);
    hide Swaths, Pool;
    RenumberingIncreases(succ, ord, ord', x, y, bwd, fwd, slots);
    RenumberingDistinct(rep, ord, ord', bwd, fwd, slots, next);
  }

  lemma SwathsRegion(rep: seq<nat>, succ: Adjacency, pred: Adjacency, ord: seq<nat>, w: seq<int>, x: nat, y: nat,
      bwd: seq<nat>, fwd: seq<nat>)
    requires Graph(rep, succ) && Mirror(succ, pred) && x < |rep| && y < |rep| == |ord| && IsModel(rep, succ, w) &&
      w[x] < w[y]
    requires Swaths(rep, succ, pred, ord, w, x, y, bwd, fwd)
    ensures Region(succ, ord, x, y, bwd, fwd)
  {
    forall p, q {:trigger q in succ[p]} | 0 <= p < |succ| && q in succ[p] && p in fwd
      ensures q !in bwd && q < |ord| && (ord[q] <= ord[x] ==> q in fwd)
    {
      assert p in AheadOf(rep, ord, w, true, true, y);
      assert w[p] < w[q];
      assert q !in Behind(rep, ord, w, true, true, x);
      assert Upto(ord, ord[x])(q) <==> ord[q] <= ord[x];
    }
    forall p, q {:trigger q in succ[p]} | 0 <= p < |succ| && q in succ[p] && q in bwd
      ensures ord[y] <= ord[p] ==> p in bwd
    {
      assert p in pred[q];
      assert From(ord, ord[y])(p) <==> ord[y] <= ord[p];
    }
  }

  function Without(s: seq<nat>, z: nat): seq<nat> {
    if s == [] then []
    else if s[0] == z then Without(s[1..], z)
    else [s[0]] + Without(s[1..], z)
  }

  /** `retain` undoes the `push` of an absent element. */
  lemma {:induction false} WithoutPushed(s: seq<nat>, z: nat)
    requires z !in s
    ensures Without(s + [z], z) == s
  {
    if s == [] {
      assert [z][1..] == [];
    } else {
      WithoutPushed(s[1..], z);
      assert (s + [z])[1..] == s[1..] + [z];
    }
  }

  lemma AbsentBothWays(succ: Adjacency, pred: Adjacency, x: nat, y: nat)
    requires Mirror(succ, pred) && x < |succ| && y < |pred| && y !in succ[x]
    ensures x !in pred[y]
  {}

  lemma Restored(adj: Adjacency, x: nat, y: nat)
    requires x < |adj| && y !in adj[x]
    ensures var adj' := adj[x := adj[x] + [y]]; adj'[x := Without(adj'[x], y)] == adj
  {
    WithoutPushed(adj[x], y);
  }

  /** The two searches and the renumbering; `hit` reports a path from `y` back to `x`. */
  method Reorder(ghost rep: seq<nat>, succ: Adjacency, pred: Adjacency, ord: seq<nat>, ghost next: nat, x: nat, y: nat,
                 ghost w: seq<int>, ghost good: bool, ghost sorted: bool)
    returns (hit: bool, ord': seq<nat>)
    requires Graph(rep, succ) && Mirror(succ, pred) && |rep| == |ord| && x < |rep| && y < |rep| && rep[x] == x &&
      rep[y] == y
    requires ord[y] <= ord[x]
    requires good ==> IsModel(rep, succ, w) && w[x] < w[y]
    requires sorted ==> Loose(rep, succ, ord, next, x, y)
    ensures |ord'| == |ord| && (hit ==> ord' == ord)
    ensures good ==> !hit
    ensures good && sorted ==> Topological(rep, succ, ord', next)
  {
    assert good ==> |w| == |rep|;
    hide IsModel, IncreasingExcept;
    ord' := ord;
    var lb, ub := ord[y], ord[x];
    ghost var zone := AheadOf(rep, ord, w, good, sorted, y);
    AheadZone(rep, succ, ord, w, good, sorted, x, y, Upto(ord, ub));
    var fwd;
    hit, fwd := Sweep(succ, Upto(ord, ub), y, Some(x), zone);
    if hit {
      return;
    }
    ghost var zone' := Behind(rep, ord, w, good, sorted, x);
    BehindZone(rep, succ, pred, ord, w, good, sorted, x, y, From(ord, lb));
    var missed, bwd := Sweep(pred, From(ord, lb), x, None, zone');
    if good && sorted {
      InsertTopological(rep, succ, pred, ord, next, w, x, y, bwd, fwd);
    }
    SortByCorrect(bwd, Key(ord));
    SortByCorrect(fwd, Key(ord));
    CollectedInRange(rep, ord, w, good, sorted, x, y, bwd, fwd);
    bwd, fwd := SortBy(bwd, Key(ord)), SortBy(fwd, Key(ord));
    var all := bwd + fwd;
    assert forall k | 0 <= k < |all| :: all[k] in bwd || all[k] in fwd;
    SortCorrect(Keys(all, ord));
    ord' := Renumber(ord, all, Sort(Keys(all, ord)));
  }

  lemma CollectedInRange(rep: seq<nat>, ord: seq<nat>, w: seq<int>, good: bool, sorted: bool, x: nat, y: nat,
      bwd: seq<nat>, fwd: seq<nat>)
    requires x < |rep| == |ord| && y < |rep| && (good ==> |w| == |rep|)
    requires forall n | n in bwd :: n in Behind(rep, ord, w, good, sorted, x)
    requires forall n | n in fwd :: n in AheadOf(rep, ord, w, good, sorted, y)
    ensures forall n | n in bwd :: n < |ord|
    ensures forall n | n in fwd :: n < |ord|
  {}

  /** `add_lt` on representatives: push the edge, repair the order, or take the edge back. */
  method InsertEdge(ghost parent: seq<nat>, succ: Adjacency, pred: Adjacency, ord: seq<nat>, ghost next: nat,
                    ghost rep: seq<nat>, ghost rank: seq<nat>, ghost top: nat, x: nat, y: nat, ghost w: seq<int>)
    returns (out: Outcome, succ': Adjacency, pred': Adjacency, ord': seq<nat>)
    requires Structure(parent, succ, pred, ord, rep, rank, top) && x < |rep| && y < |rep| && rep[x] == x &&
      rep[y] == y && x != y
    ensures Structure(parent, succ', pred', ord', rep, rank, top)
    ensures out == Ok ==> WithEdge(rep, succ, succ', x, y)
    ensures out != Ok ==> succ' == succ && pred' == pred && ord' == ord
    ensures |w| == |rep| && IsModel(rep, succ, w) && w[x] < w[y] ==> out == Ok
    ensures |w| == |rep| && IsModel(rep, succ, w) && w[x] < w[y] && Topological(rep, succ, ord, next) ==>
      Topological(rep, succ', ord', next)
  {
    hide Structure, IsModel, Topological, Loose;
    StructureFacts(parent, succ, pred, ord, rep, rank, top);
    ghost var good := |w| == |rep| && IsModel(rep, succ, w) && w[x] < w[y];
    ghost var sorted := Topological(rep, succ, ord, next);
    succ', pred', ord' := succ, pred, ord;
    if y in succ[x] {
      EdgePresent(rep, succ, x, y);
      return Ok, succ', pred', ord';
    }
    AbsentBothWays(succ, pred, x, y);
    Restored(succ, x, y);
    Restored(pred, y, x);
    InsertStructure(parent, succ, pred, ord, rep, rank, top, x, y);
    if sorted {
      InsertSorted(rep, succ, ord, next, x, y);
    }
    succ' := succ'[x := succ'[x] + [y]];
    pred' := pred'[y := pred'[y] + [x]];
    StructureFacts(parent, succ', pred', ord, rep, rank, top);
    InsertMeaning(rep, succ, x, y);
    if ord[y] > ord[x] {
      return Ok, succ', pred', ord';
    }
    var hit;
    hit, ord' := Reorder(rep, succ', pred', ord, next, x, y, w, good, sorted);
    if hit {
      succ' := succ'[x := Without(succ'[x], y)];
      pred' := pred'[y := Without(pred'[y], x)];
      return Cycle, succ', pred', ord';
    }
    StructureReordered(parent, succ', pred', ord, ord', rep, rank, top);
    out := Ok;
  }
}
