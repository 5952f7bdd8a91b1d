/** Merging two points (time/order.rs, `merge`). */
module OrderMerge {
  import opened OrderModels
  import opened OrderState

  /** Follow parents to the representative. */
  method FindRoot(parent: seq<nat>, x0: nat, ghost rep: seq<nat>, ghost rank: seq<nat>, ghost top: nat) returns (x: nat)
    requires Forest(parent, rep, rank, top) && x0 < |parent|
    ensures x == rep[x0]
  {
    x := x0;
    while parent[x] != x
      invariant x < |parent| && rep[x] == rep[x0]
      decreases top - rank[x]
    {
      x := parent[x];
    }
  }

  // ------------------------------------------------------------ the forest

  ghost function MergedRep(rep: seq<nat>, rx: nat, ry: nat): (r: seq<nat>)
    ensures |r| == |rep| && forall i | 0 <= i < |rep| :: r[i] == if rep[i] == ry then rx else rep[i]
  {
    seq(|rep|, i requires 0 <= i < |rep| => if rep[i] == ry then rx else rep[i])
  }

  ghost function Raised(rank: seq<nat>, rx: nat, ry: nat): seq<nat>
    requires rx < |rank| && ry < |rank|
  {
    if rank[rx] <= rank[ry] then rank[rx := rank[ry] + 1] else rank
  }

  lemma MergeForest(parent: seq<nat>, rep: seq<nat>, rank: seq<nat>, top: nat, rx: nat, ry: nat)
    requires Forest(parent, rep, rank, top) && rx < |rep| && ry < |rep| && rx != ry && rep[rx] == rx && rep[ry] == ry
    ensures Forest(parent[ry := rx], MergedRep(rep, rx, ry), Raised(rank, rx, ry), top + 1)
  {
    var parent', rep', rank' := parent[ry := rx], MergedRep(rep, rx, ry), Raised(rank, rx, ry);
    forall i | 0 <= i < |parent|
      ensures parent'[i] < |parent'| && rep'[i] < |rep'| && rank'[i] <= top + 1 && rep'[parent'[i]] == rep'[i]
      ensures (parent'[i] == i <==> rep'[i] == i) && (parent'[i] != i ==> rank'[i] < rank'[parent'[i]])
    {
      MergeForestAt(parent, rep, rank, top, rx, ry, i);
    }
  }

  lemma MergeForestAt(parent: seq<nat>, rep: seq<nat>, rank: seq<nat>, top: nat, rx: nat, ry: nat, i: nat)
    requires Forest(parent, rep, rank, top) && rx < |rep| && ry < |rep| && rx != ry && rep[rx] == rx &&
      rep[ry] == ry && i < |rep|
    ensures var parent', rep', rank' := parent[ry := rx], MergedRep(rep, rx, ry), Raised(rank, rx, ry);
            && parent'[i] < |parent'| && rep'[i] < |rep'| && rank'[i] <= top + 1 && rep'[parent'[i]] == rep'[i]
            && (parent'[i] == i <==> rep'[i] == i) && (parent'[i] != i ==> rank'[i] < rank'[parent'[i]])
  {
    var p := parent[i];
    assert p < |rep| && rep[i] < |rep| && rank[i] <= top && rep[p] == rep[i];
    assert rank[rx] <= top && rank[ry] <= top && parent[rx] == rx && parent[ry] == ry;
    assert (p == i <==> rep[i] == i) && (p != i ==> rank[i] < rank[p]);
  }

  // ------------------------------------------------------------ the edges

  function Replace(s: seq<nat>, old_: nat, new_: nat): (r: seq<nat>)
    ensures |r| == |s|
  {
    seq(|s|, i requires 0 <= i < |s| => if s[i] == old_ then new_ else s[i])
  }

  lemma ReplaceElements(s: seq<nat>, old_: nat, new_: nat)
    requires old_ != new_
    ensures forall z :: z in Replace(s, old_, new_) <==> (z in s && z != old_) || (z == new_ && old_ in s)
  {
    var r := Replace(s, old_, new_);
    forall z | (z in s && z != old_) || (z == new_ && old_ in s)
      ensures z in r
    {
      if z in s && z != old_ {
        var k :| 0 <= k < |s| && s[k] == z;
        assert r[k] == z;
      } else {
        var k :| 0 <= k < |s| && s[k] == old_;
        assert r[k] == z;
      }
    }
  }

  /** The neighbour `z` of the merged point, seen from `q`'s list `l`. */
  ghost predicate Redirected(l: seq<nat>, l': seq<nat>, rx: nat, ry: nat) {
    forall z :: z in l' <==> (z in l && z != ry) || (z == rx && ry in l)
  }

  ghost predicate Relinked(fwd: Adjacency, back: Adjacency, fwd': Adjacency, back': Adjacency, moved: seq<nat>,
      rx: nat, ry: nat)
    requires rx < |fwd|
  {
    && |fwd'| == |fwd| && |back'| == |back|
    && (forall z :: z in fwd'[rx] <==> z in fwd[rx] || (z in moved && z != rx))
    && (forall i | 0 <= i < |fwd| && i != rx :: fwd'[i] == fwd[i])
    && (forall q | 0 <= q < |back| && q in moved :: Redirected(back[q], back'[q], rx, ry))
    && (forall q | 0 <= q < |back| && q !in moved :: back'[q] == back[q])
  }

  /** One loop of the merge: the neighbours `moved` of `ry` become neighbours of `rx`. */
  method Relink(parent: seq<nat>, fwd: Adjacency, back: Adjacency, moved: seq<nat>, rx: nat, ry: nat,
                ghost rep: seq<nat>, ghost rank: seq<nat>, ghost top: nat)
    returns (fwd': Adjacency, back': Adjacency)
    requires Forest(parent, rep, rank, top) && |fwd| == |back| == |parent| && rx < |fwd| && rx != ry
    requires forall z | z in moved :: z < |rep| && rep[z] == z
    ensures Relinked(fwd, back, fwd', back', moved, rx, ry)
  {
    fwd', back' := fwd, back;
    for k := 0 to |moved|
      invariant Relinked(fwd, back, fwd', back', moved[..k], rx, ry)
    {
      assert moved[k] in moved;
      var s := FindRoot(parent, moved[k], rep, rank, top);
      ghost var fwd0, back0 := fwd', back';
      ReplaceElements(back'[s], ry, rx);
      back' := back'[s := Replace(back'[s], ry, rx)];
      if s != rx && s !in fwd'[rx] {
        fwd' := fwd'[rx := fwd'[rx] + [s]];
      }
      assert moved[..k + 1] == moved[..k] + [s];
      RelinkStep(fwd, back, fwd0, back0, fwd', back', moved[..k], s, rx, ry);
    }
    assert moved[..|moved|] == moved;
  }

  lemma RelinkStep(fwd: Adjacency, back: Adjacency, fwd0: Adjacency, back0: Adjacency, fwd': Adjacency,
      back': Adjacency,
                   moved: seq<nat>, s: nat, rx: nat, ry: nat)
    requires rx < |fwd| == |back| && s < |fwd| && rx != ry
    requires Relinked(fwd, back, fwd0, back0, moved, rx, ry)
    requires |fwd'| == |fwd| && |back'| == |back|
    requires Redirected(back0[s], back'[s], rx, ry) && forall q | 0 <= q < |back| && q != s :: back'[q] == back0[q]
    requires forall i | 0 <= i < |fwd| && i != rx :: fwd'[i] == fwd0[i]
    requires forall z :: z in fwd'[rx] <==> z in fwd0[rx] || (z == s && z != rx)
    ensures Relinked(fwd, back, fwd', back', moved + [s], rx, ry)
  {
    assert forall z :: z in moved + [s] <==> z in moved || z == s;
    forall q | 0 <= q < |back| && q in moved + [s]
      ensures Redirected(back[q], back'[q], rx, ry)
    {
      if q in moved {
        assert Redirected(back[q], back0[q], rx, ry);
      }
    }
  }

  /** Which edges the merged graph has. */
  ghost predicate EdgeAfter(succ: Adjacency, rx: nat, ry: nat, p: nat, q: nat)
    requires p < |succ| && rx < |succ| && ry < |succ|
  {
    p != ry && q != ry && (q in succ[p] || (q == rx && ry in succ[p]) || (p == rx && q in succ[ry]))
  }

  ghost predicate Unrelated(succ: Adjacency, rx: nat, ry: nat)
    requires rx < |succ| && ry < |succ|
  {
    rx !in succ[ry] && ry !in succ[rx] && rx !in succ[rx] && ry !in succ[ry]
  }

  ghost predicate Merged(succ: Adjacency, succ': Adjacency, pred': Adjacency, rx: nat, ry: nat)
    requires rx < |succ| && ry < |succ|
  {
    && |succ'| == |pred'| == |succ|
    && (forall p: nat, q: nat {:trigger q in succ'[p]} | 0 <= p < |succ| :: q in succ'[p] <==>
      EdgeAfter(succ, rx, ry, p, q))
    && (forall p: nat, q: nat {:trigger p in pred'[q]} | 0 <= q < |succ| :: p in pred'[q] <==>
      p < |succ| && EdgeAfter(succ, rx, ry, p, q))
  }

  /** Both loops: the edges of `ry` move to `rx`. */
  method MergeEdges(parent: seq<nat>, succ: Adjacency, pred: Adjacency, rx: nat, ry: nat,
                    ghost rep0: seq<nat>, ghost rep: seq<nat>, ghost rank: seq<nat>, ghost top: nat)
    returns (succ': Adjacency, pred': Adjacency)
    requires Graph(rep0, succ) && Mirror(succ, pred) && |parent| == |succ| && rx < |succ| && ry < |succ| && rx != ry
    requires rep0[rx] == rx && rep0[ry] == ry && rep == MergedRep(rep0, rx, ry) && Forest(parent, rep, rank, top)
    requires Unrelated(succ, rx, ry)
    ensures Merged(succ, succ', pred', rx, ry)
  {
    var s, p := succ[ry], pred[ry];
    var succ1, pred1 := succ[ry := []], pred[ry := []];
    MovedPoints(rep0, succ, pred, rx, ry);
    var succ2, pred2 := Relink(parent, succ1, pred1, s, rx, ry, rep, rank, top);
    pred', succ' := Relink(parent, pred2, succ2, p, rx, ry, rep, rank, top);
    MergedEdges(rep0, succ, pred, succ2, pred2, succ', pred', rx, ry);
  }

  lemma MovedPoints(rep0: seq<nat>, succ: Adjacency, pred: Adjacency, rx: nat, ry: nat)
    requires Graph(rep0, succ) && Mirror(succ, pred) && rx < |succ| && ry < |succ| && rx != ry
    requires rep0[rx] == rx && rep0[ry] == ry && Unrelated(succ, rx, ry)
    ensures forall z | z in succ[ry] :: z < |rep0| && MergedRep(rep0, rx, ry)[z] == z
    ensures forall z | z in pred[ry] :: z < |rep0| && MergedRep(rep0, rx, ry)[z] == z
  {
    forall z | z in pred[ry]
      ensures z < |rep0| && MergedRep(rep0, rx, ry)[z] == z
    {
      assert ry in succ[z];
    }
  }

  lemma MergedEdges(rep0: seq<nat>, succ: Adjacency, pred: Adjacency, succ2: Adjacency, pred2: Adjacency,
      succ': Adjacency, pred': Adjacency, rx: nat, ry: nat)
    requires Graph(rep0, succ) && Mirror(succ, pred) && rx < |succ| && ry < |succ| && rx != ry
    requires Unrelated(succ, rx, ry)
    requires Relinked(succ[ry := []], pred[ry := []], succ2, pred2, succ[ry], rx, ry)
    requires Relinked(pred2, succ2, pred', succ', pred[ry], rx, ry)
    ensures Merged(succ, succ', pred', rx, ry)
  {
    forall p: nat, q: nat {:trigger q in succ'[p]} | 0 <= p < |succ|
      ensures q in succ'[p] <==> EdgeAfter(succ, rx, ry, p, q)
    {
      SuccAfter(rep0, succ, pred, succ2, pred2, succ', pred', rx, ry, p, q);
    }
    forall p: nat, q: nat {:trigger p in pred'[q]} | 0 <= q < |succ|
      ensures p in pred'[q] <==> p < |succ| && EdgeAfter(succ, rx, ry, p, q)
    {
      PredAfter(rep0, succ, pred, succ2, pred2, succ', pred', rx, ry, p, q);
    }
  }

  lemma SuccAfter(rep0: seq<nat>, succ: Adjacency, pred: Adjacency, succ2: Adjacency, pred2: Adjacency,
      succ': Adjacency,
      pred': Adjacency, rx: nat, ry: nat, p: nat, q: nat)
    requires Graph(rep0, succ) && Mirror(succ, pred) && rx < |succ| && ry < |succ| && rx != ry
    requires Unrelated(succ, rx, ry) && p < |succ|
    requires Relinked(succ[ry := []], pred[ry := []], succ2, pred2, succ[ry], rx, ry)
    requires Relinked(pred2, succ2, pred', succ', pred[ry], rx, ry)
    ensures q in succ'[p] <==> EdgeAfter(succ, rx, ry, p, q)
  {
    assert p in pred[ry] <==> ry in succ[p];
    assert p == rx ==> (q in succ2[p] <==> q in succ[rx] || (q in succ[ry] && q != rx));
    assert p != rx && p != ry ==> succ2[p] == succ[p];
    assert p == ry ==> succ2[p] == [];
    if p in pred[ry] {
      assert Redirected(succ2[p], succ'[p], rx, ry);
    } else {
      assert succ'[p] == succ2[p];
    }
  }

  lemma PredAfter(rep0: seq<nat>, succ: Adjacency, pred: Adjacency, succ2: Adjacency, pred2: Adjacency,
      succ': Adjacency,
      pred': Adjacency, rx: nat, ry: nat, p: nat, q: nat)
    requires Graph(rep0, succ) && Mirror(succ, pred) && rx < |succ| && ry < |succ| && rx != ry
    requires Unrelated(succ, rx, ry) && q < |succ|
    requires Relinked(succ[ry := []], pred[ry := []], succ2, pred2, succ[ry], rx, ry)
    requires Relinked(pred2, succ2, pred', succ', pred[ry], rx, ry)
    ensures p in pred'[q] <==> p < |succ| && EdgeAfter(succ, rx, ry, p, q)
  {
    assert p in pred[q] <==> p < |succ| && q in succ[p];
    assert ry in pred[q] <==> q in succ[ry];
    assert p in pred[ry] <==> p < |succ| && ry in succ[p];
    assert rx !in pred[ry] && rx !in pred[rx];
    if q in succ[ry] {
      assert q != ry;
      assert Redirected(pred[ry := []][q], pred2[q], rx, ry);
    } else {
      assert pred2[q] == pred[ry := []][q];
    }
    if q != rx {
      assert pred'[q] == pred2[q];
    } else {
      assert p in pred'[rx] <==> p in pred2[rx] || (p in pred[ry] && p != rx);
    }
  }

  // ------------------------------------------------------------ structure and meaning

  lemma MergeStructure(parent: seq<nat>, succ: Adjacency, pred: Adjacency, ord: seq<nat>, rep: seq<nat>,
      rank: seq<nat>, top: nat,
                       succ': Adjacency, pred': Adjacency, rx: nat, ry: nat)
    requires Structure(parent, succ, pred, ord, rep, rank, top)
    requires rx < |rep| && ry < |rep| && rx != ry && rep[rx] == rx && rep[ry] == ry
    requires Merged(succ, succ', pred', rx, ry)
    ensures Structure(parent[ry := rx], succ', pred', ord, MergedRep(rep, rx, ry), Raised(rank, rx, ry), top + 1)
  {
    MergeForest(parent, rep, rank, top, rx, ry);
    MergeGraph(rep, succ, succ', pred', rx, ry);
    MergeMirror(rep, succ, succ', pred', rx, ry);
    hide Forest, Graph, Mirror, Merged;
  }

  lemma MergeGraph(rep: seq<nat>, succ: Adjacency, succ': Adjacency, pred': Adjacency, rx: nat, ry: nat)
    requires Graph(rep, succ) && rx < |rep| && ry < |rep| && rx != ry && rep[rx] == rx && rep[ry] == ry
    requires Merged(succ, succ', pred', rx, ry)
    ensures Graph(MergedRep(rep, rx, ry), succ')
  {
    var rep' := MergedRep(rep, rx, ry);
    forall i, y {:trigger y in succ'[i]} | 0 <= i < |succ'| && y in succ'[i]
      ensures y < |rep'| && rep'[y] == y && rep'[i] == i
    {
      EdgeEnds(rep, succ, rx, ry, i, y);
    }
  }

  lemma EdgeEnds(rep: seq<nat>, succ: Adjacency, rx: nat, ry: nat, p: nat, q: nat)
    requires Graph(rep, succ) && rx < |rep| && ry < |rep| && rx != ry && rep[rx] == rx && rep[ry] == ry && p < |succ|
    requires EdgeAfter(succ, rx, ry, p, q)
    ensures p != ry && q != ry && q < |rep| && rep[p] == p && rep[q] == q
  {
    if q in succ[p] {
    } else if q == rx && ry in succ[p] {
    } else {
      assert q in succ[ry];
    }
  }

  lemma MergeMirror(rep: seq<nat>, succ: Adjacency, succ': Adjacency, pred': Adjacency, rx: nat, ry: nat)
    requires Graph(rep, succ) && rx < |rep| && ry < |rep| && rx != ry && rep[rx] == rx && rep[ry] == ry
    requires Merged(succ, succ', pred', rx, ry)
    ensures Mirror(succ', pred')
  {
    forall i, y {:trigger y in succ'[i]} | 0 <= i < |succ'| && y in succ'[i]
      ensures y < |pred'| && i in pred'[y]
    {
      EdgeEnds(rep, succ, rx, ry, i, y);
    }
  }

  lemma MergeModels(rep: seq<nat>, succ: Adjacency, succ': Adjacency, pred': Adjacency, rx: nat, ry: nat, v: seq<int>)
    requires Graph(rep, succ) && Graph(MergedRep(rep, rx, ry), succ') && |v| == |rep|
    requires rx < |rep| && ry < |rep| && rx != ry && rep[rx] == rx && rep[ry] == ry
    requires Merged(succ, succ', pred', rx, ry) && Unrelated(succ, rx, ry)
    ensures IsModel(MergedRep(rep, rx, ry), succ', v) <==> IsModel(rep, succ, v) && v[rx] == v[ry]
  {
    var rep' := MergedRep(rep, rx, ry);
    if IsModel(rep', succ', v) {
      assert rep'[ry] == rx;
      forall i | 0 <= i < |rep|
        ensures v[i] == v[rep[i]]
      {
        assert v[i] == v[rep'[i]];
      }
      forall p, q {:trigger q in succ[p]} | 0 <= p < |succ| && q in succ[p]
        ensures q < |v| && v[p] < v[q]
      {
        var p', q' := if p == ry then rx else p, if q == ry then rx else q;
        assert EdgeAfter(succ, rx, ry, p', q');
        assert q' in succ'[p'];
      }
    }
    if IsModel(rep, succ, v) && v[rx] == v[ry] {
      forall p, q {:trigger q in succ'[p]} | 0 <= p < |succ'| && q in succ'[p]
        ensures q < |v| && v[p] < v[q]
      {
        assert EdgeAfter(succ, rx, ry, p, q);
      }
    }
  }

  /** `(rep', succ')` has the models of `(rep, succ)` in which `x` and `y` are equal. */
  ghost predicate WithEquality(rep: seq<nat>, succ: Adjacency, rep': seq<nat>, succ': Adjacency, x: nat, y: nat)
    requires Graph(rep, succ) && Graph(rep', succ') && x < |rep| && y < |rep|
  {
    |rep'| == |rep| &&
    forall v: seq<int> | |v| == |rep| :: IsModel(rep', succ', v) <==> IsModel(rep, succ, v) && v[x] == v[y]
  }

  lemma MergeMeaning(rep: seq<nat>, succ: Adjacency, succ': Adjacency, pred': Adjacency, x: nat, y: nat)
    requires Graph(rep, succ) && x < |rep| && y < |rep| && rep[x] != rep[y]
    requires Graph(MergedRep(rep, rep[x], rep[y]), succ')
    requires Merged(succ, succ', pred', rep[x], rep[y]) && Unrelated(succ, rep[x], rep[y])
    ensures WithEquality(rep, succ, MergedRep(rep, rep[x], rep[y]), succ', x, y)
  {
    forall v: seq<int> | |v| == |rep|
      ensures IsModel(MergedRep(rep, rep[x], rep[y]), succ', v) <==> IsModel(rep, succ, v) && v[x] == v[y]
    {
      MergeModels(rep, succ, succ', pred', rep[x], rep[y], v);
      assert IsModel(rep, succ, v) ==> v[x] == v[rep[x]] && v[y] == v[rep[y]];
    }
  }

  lemma AlreadyMerged(rep: seq<nat>, succ: Adjacency, x: nat, y: nat)
    requires Graph(rep, succ) && x < |rep| && y < |rep| && rep[x] == rep[y]
    ensures WithEquality(rep, succ, rep, succ, x, y)
  {
    assert forall v: seq<int> | |v| == |rep| && IsModel(rep, succ, v) :: v[x] == v[rep[x]] && v[y] == v[rep[y]];
  }

  /** A model that makes the points equal shows that no edge joins them. */
  lemma EqualUnrelated(rep: seq<nat>, succ: Adjacency, w: seq<int>, x: nat, y: nat)
    requires Graph(rep, succ) && IsModel(rep, succ, w) && x < |rep| && y < |rep| && w[x] == w[y]
    ensures Unrelated(succ, rep[x], rep[y])
  {
    assert w[x] == w[rep[x]] && w[y] == w[rep[y]];
  }

  /** The merge of two different representatives, as the new lists. */
  method MergePoints(parent: seq<nat>, succ: Adjacency, pred: Adjacency, ghost ord: seq<nat>, ghost rep: seq<nat>,
      ghost rank: seq<nat>, ghost top: nat, rx: nat, ry: nat, ghost x: nat, ghost y: nat, ghost w: seq<int>)
    returns (parent': seq<nat>, succ': Adjacency, pred': Adjacency, ghost rep': seq<nat>, ghost rank': seq<nat>,
      ghost top': nat)
    requires Structure(parent, succ, pred, ord, rep, rank, top) && x < |rep| && y < |rep| && rx == rep[x] &&
      ry == rep[y] && rx != ry
    requires IsModel(rep, succ, w) && w[x] == w[y]
    ensures |parent'| == |parent| && Structure(parent', succ', pred', ord, rep', rank', top')
    ensures WithEquality(rep, succ, rep', succ', x, y)
  {
    StructureFacts(parent, succ, pred, ord, rep, rank, top);
    StructureForest(parent, succ, pred, ord, rep, rank, top);
    EqualUnrelated(rep, succ, w, x, y);
    hide Structure, IsModel, Unrelated, Merged;
    parent' := parent[ry := rx];
    rep', rank', top' := MergedRep(rep, rx, ry), Raised(rank, rx, ry), top + 1;
    MergeForest(parent, rep, rank, top, rx, ry);
    hide Forest, Mirror;
    succ', pred' := MergeEdges(parent', succ, pred, rx, ry, rep, rep', rank', top');
    MergeStructure(parent, succ, pred, ord, rep, rank, top, succ', pred', rx, ry);
    StructureFacts(parent', succ', pred', ord, rep', rank', top');
    MergeMeaning(rep, succ, succ', pred', x, y);
  }
}
