/** Integer models of an order graph: points merged by `rep`, strict edges `succ`.
  *
  * The graph is correct exactly when its models are those of the relations it was given;
  * reachability is exact exactly when it agrees with every model.
  */
module OrderModels {
  type Adjacency = seq<seq<nat>>

  /** `rep` sends every point to its representative; edges join representatives only. */
  ghost predicate Graph(rep: seq<nat>, succ: Adjacency) {
    && |rep| == |succ|
    && (forall i | 0 <= i < |rep| :: rep[i] < |rep| && rep[rep[i]] == rep[i])
    && (forall i, y {:trigger y in succ[i]} | 0 <= i < |succ| && y in succ[i] ::
      y < |rep| && rep[y] == y && rep[i] == i)
  }

  /** `v` gives equal values to merged points and increases along every edge. */
  ghost predicate IsModel(rep: seq<nat>, succ: Adjacency, v: seq<int>)
    requires Graph(rep, succ)
  {
    && |v| == |rep|
    && (forall i | 0 <= i < |rep| :: v[i] == v[rep[i]])
    && (forall i, y {:trigger y in succ[i]} | 0 <= i < |succ| && y in succ[i] :: y < |v| && v[i] < v[y])
  }

  ghost predicate InRange(pts: seq<nat>, n: nat) {
    forall i | 0 <= i < |pts| :: pts[i] < n
  }

  ghost predicate Increasing(succ: Adjacency, ord: seq<nat>) {
    && |ord| == |succ|
    && (forall i, y {:trigger y in succ[i]} | 0 <= i < |succ| && y in succ[i] :: y < |ord| && ord[i] < ord[y])
  }

  ghost predicate Distinct(rep: seq<nat>, ord: seq<nat>) {
    && |ord| == |rep|
    && (forall i, j | 0 <= i < j < |rep| && rep[i] == i && rep[j] == j :: ord[i] != ord[j])
  }

  // ------------------------------------------------------------ reachability

  ghost predicate Path(succ: Adjacency, p: seq<nat>) {
    && |p| > 0
    && (forall k | 0 <= k < |p| :: p[k] < |succ|)
    && (forall k | 0 < k < |p| :: p[k] in succ[p[k - 1]])
  }

  ghost predicate PathFromTo(succ: Adjacency, p: seq<nat>, x: nat, y: nat) {
    Path(succ, p) && p[0] == x && p[|p| - 1] == y
  }

  /** There is a path of edges, possibly empty, from `x` to `y`. */
  ghost predicate Reach(succ: Adjacency, x: nat, y: nat) {
    exists p :: PathFromTo(succ, p, x, y)
  }

  lemma ReachRefl(succ: Adjacency, x: nat)
    requires x < |succ|
    ensures Reach(succ, x, x)
  {
    assert PathFromTo(succ, [x], x, x);
  }

  lemma ReachStep(succ: Adjacency, x: nat, y: nat, z: nat)
    requires Reach(succ, x, y) && y < |succ| && z in succ[y] && z < |succ|
    ensures Reach(succ, x, z)
  {
    var p :| PathFromTo(succ, p, x, y);
    assert PathFromTo(succ, p + [z], x, z);
  }

  lemma {:induction false} PathIncreases(rep: seq<nat>, succ: Adjacency, v: seq<int>, p: seq<nat>, k: nat)
    requires Graph(rep, succ) && IsModel(rep, succ, v) && Path(succ, p) && k < |p|
    ensures k == 0 || v[p[0]] < v[p[k]]
  {
    if k > 0 {
      PathIncreases(rep, succ, v, p, k - 1);
      assert p[k] in succ[p[k - 1]];
    }
  }

  /** Reachability is sound: it is strict in every model. */
  lemma ReachIncreases(rep: seq<nat>, succ: Adjacency, v: seq<int>, x: nat, y: nat)
    requires Graph(rep, succ) && IsModel(rep, succ, v) && Reach(succ, x, y)
    ensures x < |rep| && y < |rep| && (x == y || v[x] < v[y])
  {
    var p :| PathFromTo(succ, p, x, y);
    PathIncreases(rep, succ, v, p, |p| - 1);
  }

  /** No node of `seen` has an edge to `y`, and every neighbour ordered before `y` is in `seen`. */
  ghost predicate ClosedBelow(succ: Adjacency, ord: seq<nat>, seen: set<nat>, y: nat)
    requires y < |ord|
  {
    forall n, m {:trigger m in succ[n]} | n in seen && n < |succ| && m in succ[n] ::
      m != y && m < |ord| && (ord[m] < ord[y] ==> m in seen)
  }

  /** Pruning the search at the order of `y` loses nothing. */
  lemma PruningExact(succ: Adjacency, ord: seq<nat>, seen: set<nat>, x: nat, y: nat)
    requires Increasing(succ, ord) && x in seen && x != y && y < |succ|
    requires ClosedBelow(succ, ord, seen, y)
    ensures !Reach(succ, x, y)
  {
    if Reach(succ, x, y) {
      var p :| PathFromTo(succ, p, x, y);
      SeenAlongPath(succ, ord, seen, y, p, |p| - 1);
      assert false;
    }
  }

  lemma {:induction false} OrdAlongPath(succ: Adjacency, ord: seq<nat>, p: seq<nat>, i: nat, j: nat)
    requires Increasing(succ, ord) && Path(succ, p) && i < j < |p|
    ensures ord[p[i]] < ord[p[j]]
    decreases j
  {
    assert p[j] in succ[p[j - 1]];
    if i < j - 1 {
      OrdAlongPath(succ, ord, p, i, j - 1);
    }
  }

  lemma {:induction false} SeenAlongPath(succ: Adjacency, ord: seq<nat>, seen: set<nat>, y: nat, p: seq<nat>, k: nat)
    requires Increasing(succ, ord) && Path(succ, p) && p[0] in seen && k < |p| && p[|p| - 1] == y && p[0] != y
    requires ClosedBelow(succ, ord, seen, y)
    ensures p[k] in seen && p[k] != y
  {
    if k > 0 {
      SeenAlongPath(succ, ord, seen, y, p, k - 1);
      assert p[k] in succ[p[k - 1]];
      if k < |p| - 1 {
        OrdAlongPath(succ, ord, p, k, |p| - 1);
      }
    }
  }

  // ------------------------------------------------------------ extending four values to a model

  /** Values for chosen points that no path and no merge contradicts. */
  ghost predicate Compatible(succ: Adjacency, q: seq<nat>, w: seq<int>)
    requires |q| == |w|
  {
    forall i, j | 0 <= i < |q| && 0 <= j < |q| && Reach(succ, q[i], q[j]) ::
      if q[i] == q[j] then w[i] == w[j] else w[i] < w[j]
  }

  function Max(a: int, b: int): int { if a >= b then a else b }

  /** The value of `p` forced by the first `k` chosen points that reach it, on top of its order. */
  ghost function Lift(succ: Adjacency, ord: seq<nat>, q: seq<nat>, u: seq<int>, base: int, k: nat, p: nat): int
    requires k <= |q| == |u| && p < |ord| && InRange(q, |ord|)
  {
    if k == 0 then base + ord[p]
    else
      var r := Lift(succ, ord, q, u, base, k - 1, p);
      if Reach(succ, q[k - 1], p) then Max(r, u[k - 1] + ord[p] - ord[q[k - 1]]) else r
  }

  lemma {:induction false} LiftIncreases(succ: Adjacency, ord: seq<nat>, q: seq<nat>, u: seq<int>, base: int, k: nat,
      p: nat, y: nat)
    requires Increasing(succ, ord) && k <= |q| == |u| && (InRange(q, |ord|))
    requires p < |ord| && y < |ord| && y in succ[p]
    ensures Lift(succ, ord, q, u, base, k, p) < Lift(succ, ord, q, u, base, k, y)
  {
    if k > 0 {
      LiftIncreases(succ, ord, q, u, base, k - 1, p, y);
      if Reach(succ, q[k - 1], p) {
        ReachStep(succ, q[k - 1], p, y);
      }
    }
  }

  ghost predicate Spread(q: seq<nat>, w: seq<int>, u: seq<int>, big: nat, base: int)
    requires |q| == |w| == |u|
  {
    && (forall i, j | 0 <= i < |q| && 0 <= j < |q| :: w[i] < w[j] ==> u[i] + big <= u[j])
    && (forall i, j | 0 <= i < |q| && 0 <= j < |q| :: w[i] == w[j] ==> u[i] == u[j])
    && (forall i | 0 <= i < |q| :: base + big <= u[i])
  }

  /** A chosen point keeps its own value. */
  lemma {:induction false} LiftAtPoint(succ: Adjacency, ord: seq<nat>, q: seq<nat>, w: seq<int>, u: seq<int>, big: nat,
      base: int, k: nat, i: nat)
    requires k <= |q| == |u| == |w| == 4 && i < 4 && |ord| == |succ|
    requires InRange(q, |ord|)
    requires forall p | 0 <= p < |ord| :: ord[p] < big
    requires Compatible(succ, q, w) && Spread(q, w, u, big, base)
    ensures Lift(succ, ord, q, u, base, k, q[i]) <= u[i]
    ensures i < k ==> Lift(succ, ord, q, u, base, k, q[i]) == u[i]
  {
    if k > 0 {
      LiftAtPoint(succ, ord, q, w, u, big, base, k - 1, i);
      var j := k - 1;
      if i == j {
        ReachRefl(succ, q[i]);
      } else if Reach(succ, q[j], q[i]) {
        assert w[j] < w[i] ==> u[j] + big <= u[i];
        assert q[j] == q[i] ==> w[j] == w[i] && u[j] == u[i];
      }
    }
  }

  ghost function Bound(s: seq<nat>): (b: nat)
    ensures forall i | 0 <= i < |s| :: s[i] < b
  {
    if s == [] then 0 else
      var b := Bound(s[1..]);
      if s[0] < b then b else s[0] + 1
  }

  ghost function Least(w: seq<int>): (b: int)
    ensures forall i | 0 <= i < |w| :: b <= w[i]
  {
    if w == [] then 0 else
      var b := Least(w[1..]);
      if w[0] < b then w[0] else b
  }

  lemma Multiply(k: nat, a: int, b: int)
    requires a < b
    ensures k * a + k <= k * b
  {
    assert k * (a + 1) <= k * b;
  }

  ghost function Times(k: nat, a: int): int { k * a }

  lemma ScaleSpread(q: seq<nat>, w: seq<int>, big: nat) returns (u: seq<int>, base: int)
    requires |q| == |w|
    ensures |u| == |w| && Spread(q, w, u, big, base)
  {
    var low := Least(w) - 1;
    u := seq(|w|, i requires 0 <= i < |w| => Times(big, w[i]));
    base := Times(big, low);
    forall a, b | a < b
      ensures Times(big, a) + big <= Times(big, b)
    {
      Multiply(big, a, b);
    }
    hide Times;
  }

  /** Points with the values `x` compare as `w` does. */
  ghost predicate SameOrder(w: seq<int>, x: seq<int>)
    requires |w| == |x|
  {
    forall i, j | 0 <= i < |w| && 0 <= j < |w| :: (w[i] < w[j] <==> x[i] < x[j])
  }

  ghost function At(v: seq<int>, pts: seq<nat>): (x: seq<int>)
    requires InRange(pts, |v|)
    ensures |x| == |pts| && forall i | 0 <= i < |pts| :: x[i] == v[pts[i]]
  {
    seq(|pts|, i requires 0 <= i < |pts| => v[pts[i]])
  }

  ghost function Reps(rep: seq<nat>, pts: seq<nat>): (q: seq<nat>)
    requires InRange(pts, |rep|)
    ensures |q| == |pts| && forall i | 0 <= i < |pts| :: q[i] == rep[pts[i]]
  {
    seq(|pts|, i requires 0 <= i < |pts| => rep[pts[i]])
  }

  /** Completeness: any order of four points that no path contradicts is the order of a model. */
  lemma Extension(rep: seq<nat>, succ: Adjacency, ord: seq<nat>, pts: seq<nat>, w: seq<int>) returns (v: seq<int>)
    requires Graph(rep, succ) && Increasing(succ, ord)
    requires |pts| == |w| == 4 && InRange(pts, |rep|)
    requires Compatible(succ, Reps(rep, pts), w)
    ensures IsModel(rep, succ, v) && SameOrder(w, At(v, pts))
  {
    var q := Reps(rep, pts);
    assert InRange(q, |ord|);
    var big := Bound(ord) + 1;
    var u, base := ScaleSpread(q, w, big);
    v := seq(|rep|, i requires 0 <= i < |rep| => Lift(succ, ord, q, u, base, 4, rep[i]));
    forall i, y {:trigger y in succ[i]} | 0 <= i < |succ| && y in succ[i]
      ensures y < |v| && v[i] < v[y]
    {
      assert rep[i] == i && rep[y] == y;
      LiftIncreases(succ, ord, q, u, base, 4, i, y);
    }
    assert forall i | 0 <= i < 4 :: At(v, pts)[i] == v[pts[i]];
    forall i | 0 <= i < 4
      ensures At(v, pts)[i] == u[i]
    {
      LiftAtPoint(succ, ord, q, w, u, big, base, 4, i);
    }
    forall i, j | 0 <= i < 4 && 0 <= j < 4
      ensures w[i] < w[j] <==> u[i] < u[j]
    {}
  }

  /** The topological order itself is a model. */
  lemma OrdIsModel(rep: seq<nat>, succ: Adjacency, ord: seq<nat>) returns (v: seq<int>)
    requires Graph(rep, succ) && Increasing(succ, ord)
    ensures IsModel(rep, succ, v) && forall i | 0 <= i < |rep| :: v[i] == ord[rep[i]]
  {
    v := seq(|rep|, i requires 0 <= i < |rep| => ord[rep[i]]);
    forall i, y {:trigger y in succ[i]} | 0 <= i < |succ| && y in succ[i]
      ensures y < |v| && v[i] < v[y]
    {
      assert rep[i] == i && rep[y] == y;
    }
  }
}
