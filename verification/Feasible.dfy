/** Which Allen relations two fuzzy intervals admit (time/allen.rs, `possible_relations`).
  *
  * Each relation becomes a difference-constraint system over the four endpoints and an
  * origin; an in-place Floyd-Warshall closure looks for a negative cycle.
  */
module Feasible {
  import opened Allen
  import opened TimeRange

  const ORIGIN: nat := 4

  /** `i128::MAX / 4`, the absent edge. */
  const INF: int := 0x1FFF_FFFF_FFFF_FFFF_FFFF_FFFF_FFFF_FFFF

  /** `m[i][j]` bounds `x[j] - x[i]` from above; `INF` is no bound. */
  type Matrix = m: seq<seq<int>> | |m| == 5 && forall i :: 0 <= i < 5 ==> |m[i]| == 5
    witness seq(5, i => [0, 0, 0, 0, 0])

  function Set(m: Matrix, i: nat, j: nat, w: int): (m': Matrix)
    requires i < 5 && j < 5
    ensures forall p, q | 0 <= p < 5 && 0 <= q < 5 :: m'[p][q] == if p == i && q == j then w else m[p][q]
  {
    m[i := m[i][j := w]]
  }

  // ------------------------------------------------------------ meaning of a matrix

  ghost predicate Bound(m: Matrix, x: seq<int>, i: nat, j: nat)
    requires |x| == 5 && i < 5 && j < 5
  {
    m[i][j] == INF || x[j] - x[i] <= m[i][j]
  }

  /** The assignment `x` satisfies every difference constraint of `m`. */
  ghost predicate Respects(m: Matrix, x: seq<int>)
    requires |x| == 5
  {
    forall i, j | 0 <= i < 5 && 0 <= j < 5 :: Bound(m, x, i, j)
  }

  ghost predicate Triangle(m: Matrix, i: nat, k: nat, j: nat)
    requires i < 5 && k < 5 && j < 5
  {
    m[i][k] != INF && m[k][j] != INF ==> m[i][j] != INF && m[i][j] <= m[i][k] + m[k][j]
  }

  /** Going through `k` is never shorter than going directly. */
  ghost predicate Through(m: Matrix, k: nat)
    requires k < 5
  {
    forall i, j | 0 <= i < 5 && 0 <= j < 5 :: Triangle(m, i, k, j)
  }

  predicate NoNegativeCycle(m: Matrix) {
    forall i | 0 <= i < 5 :: m[i][i] >= 0
  }

  /** No bound of `m'` is looser than the bound of `m` in the same place. */
  ghost predicate Tighter(m': Matrix, m: Matrix) {
    forall i, j | 0 <= i < 5 && 0 <= j < 5 :: m[i][j] == INF || (m'[i][j] != INF && m'[i][j] <= m[i][j])
  }

  lemma TighterRespects(m': Matrix, m: Matrix, x: seq<int>)
    requires |x| == 5 && Tighter(m', m) && Respects(m', x)
    ensures Respects(m, x)
  {
    forall i, j | 0 <= i < 5 && 0 <= j < 5
      ensures Bound(m, x, i, j)
    {
      assert Bound(m', x, i, j);
    }
  }

  // ------------------------------------------------------------ a model of a closed matrix

  function Min(a: int, b: int): int { if a <= b then a else b }

  /** The least of `big` and `Start(i) + m[i][j]` over the first `n` nodes with an edge to `j`. */
  ghost function Potential(m: Matrix, big: int, j: nat, n: nat): (r: int)
    requires j < 5 && n <= 5
    ensures r <= big
    ensures forall i | 0 <= i < n && m[i][j] != INF :: r <= Start(big, i) + m[i][j]
    ensures r == big || exists i :: 0 <= i < n && m[i][j] != INF && r == Start(big, i) + m[i][j]
  {
    if n == 0 then big
    else if m[n - 1][j] == INF then Potential(m, big, j, n - 1)
    else Min(Potential(m, big, j, n - 1), Start(big, n - 1) + m[n - 1][j])
  }

  ghost function Start(big: int, i: nat): int {
    if i == ORIGIN then 0 else big
  }

  ghost predicate Closed(m: Matrix) {
    && (forall i | 0 <= i < 5 :: m[i][i] == 0)
    && (forall k | 0 <= k < 5 :: Through(m, k))
  }

  lemma PotentialStep(m: Matrix, big: int, i: nat, j: nat)
    requires Closed(m) && i < 5 && j < 5 && m[i][j] != INF && big >= 0
    ensures Potential(m, big, j, 5) <= Potential(m, big, i, 5) + m[i][j]
  {
    var p := Potential(m, big, i, 5);
    if p == big {
      assert Start(big, i) <= big;
    } else {
      var a :| 0 <= a < 5 && m[a][i] != INF && p == Start(big, a) + m[a][i];
      assert Through(m, i) && Triangle(m, a, i, j);
    }
  }

  /** A closed matrix is satisfied by an integer assignment that puts the origin at 0. */
  lemma ClosedHasModel(m: Matrix) returns (x: seq<int>)
    requires Closed(m)
    ensures |x| == 5 && x[ORIGIN] == 0 && Respects(m, x)
  {
    var big := Bigger(m, 5);
    x := seq(5, j requires 0 <= j < 5 => Potential(m, big, j, 5));
    forall i, j | 0 <= i < 5 && 0 <= j < 5
      ensures Bound(m, x, i, j)
    {
      if m[i][j] != INF {
        PotentialStep(m, big, i, j);
      }
    }
    var p := Potential(m, big, ORIGIN, 5);
    if p != big {
      var i :| 0 <= i < 5 && m[i][ORIGIN] != INF && p == Start(big, i) + m[i][ORIGIN];
    }
  }

  /** A number that outweighs every edge into the origin. */
  ghost function Bigger(m: Matrix, n: nat): (r: int)
    requires n <= 5
    ensures r >= 0 && forall i | 0 <= i < n :: r + m[i][ORIGIN] >= 0
  {
    if n == 0 then 0
    else
      var r := Bigger(m, n - 1);
      if r + m[n - 1][ORIGIN] >= 0 then r else -m[n - 1][ORIGIN]
  }

  // ------------------------------------------------------------ the closure

  /** Entries are absent or at most `cap`, so no sum of two reaches the sentinel. */
  ghost predicate Capped(m: Matrix, cap: int) {
    forall i, j | 0 <= i < 5 && 0 <= j < 5 :: m[i][j] == INF || m[i][j] <= cap
  }

  /** What one round of the closure leaves in place `(i, j)` when `m[k][k]` is 0. */
  function Relaxed(m: Matrix, k: nat, i: nat, j: nat): int
    requires k < 5 && i < 5 && j < 5
  {
    if m[i][k] == INF || m[k][j] == INF then m[i][j]
    else Min(m[i][j], m[i][k] + m[k][j])
  }

  ghost predicate RoundOf(m: Matrix, m': Matrix, k: nat)
    requires k < 5
  {
    forall i, j | 0 <= i < 5 && 0 <= j < 5 :: m'[i][j] == Relaxed(m, k, i, j)
  }

  /** A round keeps the nodes already gone through and adds `k`. */
  lemma RoundKeepsThrough(m: Matrix, m': Matrix, k: nat, cap: int)
    requires k < 5 && 0 <= cap && 2 * cap < INF && Capped(m, cap) && RoundOf(m, m', k)
    requires m[k][k] == 0
    requires forall q | 0 <= q < k :: Through(m, q)
    ensures forall q | 0 <= q <= k :: Through(m', q)
  {
    forall i, j | 0 <= i < 5 && 0 <= j < 5
      ensures m'[i][j] == Relaxed(m, k, i, j)
      ensures m'[i][k] == m[i][k] && m'[k][j] == m[k][j]
    {
      assert m'[i][k] == Relaxed(m, k, i, k) && m'[k][j] == Relaxed(m, k, k, j);
    }
    forall i, j | 0 <= i < 5 && 0 <= j < 5
      ensures Triangle(m', i, k, j)
    {}
    assert Through(m', k);
    forall q | 0 <= q < k
      ensures Through(m', q)
    {
      forall i, j | 0 <= i < 5 && 0 <= j < 5
        ensures Triangle(m', i, q, j)
      {
        assert Through(m, q);
        RoundTriangle(m, m', k, q, i, j, cap);
      }
    }
  }

  lemma RoundTriangle(m: Matrix, m': Matrix, k: nat, q: nat, i: nat, j: nat, cap: int)
    requires k < 5 && q < 5 && i < 5 && j < 5 && 0 <= cap && 2 * cap < INF && Capped(m, cap)
    requires m[k][k] == 0 && Through(m, q)
    requires m'[i][j] == Relaxed(m, k, i, j) && m'[i][q] == Relaxed(m, k, i, q) && m'[q][j] == Relaxed(m, k, q, j)
    ensures Triangle(m', i, q, j)
  {
    assert Triangle(m, i, q, j) && Triangle(m, i, q, k) && Triangle(m, k, q, j) && Triangle(m, k, q, k);
    var direct1, direct2 := m'[i][q] == m[i][q], m'[q][j] == m[q][j];
    if m'[i][q] == INF || m'[q][j] == INF {
    } else if direct1 && direct2 {
    } else if direct1 {
      assert m[i][k] != INF && m[i][k] <= m[i][q] + m[q][k];
    } else if direct2 {
      assert m[k][j] != INF && m[k][j] <= m[k][q] + m[q][j];
    } else {
      assert m[k][k] <= m[k][q] + m[q][k];
    }
  }

  /** What holds of the matrix in the middle of the round for `k` that began at `m0`. */
  ghost predicate Partial(m0: Matrix, m: Matrix, k: nat, cap: int)
    requires k < 5
  {
    && Tighter(m, m0)
    && Capped(m, 2 * cap)
    && (forall p | 0 <= p < 5 :: (m[p][k] == INF <==> m0[p][k] == INF) && m[p][k] <= m0[p][k])
    && (forall p | 0 <= p < 5 :: (m[k][p] == INF <==> m0[k][p] == INF) && m[k][p] <= m0[k][p])
    && (forall p | 0 <= p < 5 :: m[p][p] <= 0)
  }

  /** Replacing one entry by the way through `k` loses no assignment. */
  lemma EntryRespected(m: Matrix, k: nat, i: nat, j: nat, x: seq<int>)
    requires k < 5 && i < 5 && j < 5 && m[i][k] != INF && m[k][j] != INF
    requires |x| == 5 && Respects(m, x)
    ensures Respects(Set(m, i, j, m[i][k] + m[k][j]), x)
  {
    assert Bound(m, x, i, k) && Bound(m, x, k, j);
    var m' := Set(m, i, j, m[i][k] + m[k][j]);
    forall p, q | 0 <= p < 5 && 0 <= q < 5
      ensures Bound(m', x, p, q)
    {
      assert Bound(m, x, p, q);
    }
  }

  /** Lowering one entry to the way through `k` keeps the state of the round. */
  lemma EntryPartial(m0: Matrix, m: Matrix, k: nat, i: nat, j: nat, cap: int)
    requires k < 5 && i < 5 && j < 5 && 0 <= cap && 2 * cap < INF && Capped(m0, cap) && Partial(m0, m, k, cap)
    requires m[i][k] != INF && m[k][j] != INF && m[i][k] + m[k][j] < m[i][j]
    ensures Partial(m0, Set(m, i, j, m[i][k] + m[k][j]), k, cap)
  {
    assert m0[i][k] <= cap && m0[k][j] <= cap;
  }

  /** The inner loop of a round: row `i` is offered the way through `k`. */
  method RelaxRow(ghost m0: Matrix, m1: Matrix, k: nat, i: nat, ghost cap: int, ghost x: seq<int>) returns (m: Matrix)
    requires k < 5 && i < 5 && 0 <= cap && 2 * cap < INF && Capped(m0, cap) && m1[i][k] != INF && |x| == 5
    requires Partial(m0, m1, k, cap)
    ensures Partial(m0, m, k, cap) && (Respects(m1, x) ==> Respects(m, x))
    ensures forall p, q | 0 <= p < 5 && 0 <= q < 5 && p != i :: m[p][q] == m1[p][q]
    ensures m1[k][k] == 0 ==> forall q | 0 <= q < 5 :: m[i][q] == Relaxed(m1, k, i, q)
  {
    m := m1;
    for j := 0 to 5
      invariant Partial(m0, m, k, cap) && (Respects(m1, x) ==> Respects(m, x))
      invariant forall p, q | 0 <= p < 5 && 0 <= q < 5 && p != i :: m[p][q] == m1[p][q]
      invariant forall q | j <= q < 5 && q != k :: m[i][q] == m1[i][q]
      invariant m[i][k] != INF
      invariant m1[k][k] == 0 ==>
          forall q | 0 <= q < 5 :: m[i][q] == if q < j then Relaxed(m1, k, i, q) else m1[i][q]
    {
      if m[k][j] == INF {
        continue;
      }
      var v := m[i][k] + m[k][j];
      if v < m[i][j] {
        EntryPartial(m0, m, k, i, j, cap);
        if Respects(m, x) { EntryRespected(m, k, i, j, x); }
        m := Set(m, i, j, v);
      }
    }
  }

  /** One round of the closure. */
  method Round(m0: Matrix, k: nat, ghost cap: int, ghost x: seq<int>) returns (m: Matrix)
    requires k < 5 && 0 <= cap && 2 * cap < INF && Capped(m0, cap) && (forall i | 0 <= i < 5 :: m0[i][i] <= 0) &&
      |x| == 5
    ensures Partial(m0, m, k, cap) && (Respects(m0, x) ==> Respects(m, x))
    ensures m0[k][k] == 0 ==> RoundOf(m0, m, k)
  {
    m := m0;
    for i := 0 to 5
      invariant Partial(m0, m, k, cap) && (Respects(m0, x) ==> Respects(m, x))
      invariant m0[k][k] == 0 ==>
          forall p, q | 0 <= p < 5 && 0 <= q < 5 :: m[p][q] == if p < i then Relaxed(m0, k, p, q) else m0[p][q]
    {
      if m[i][k] == INF {
        continue;
      }
      m := RelaxRow(m0, m, k, i, cap, x);
    }
  }

  /** The largest finite entry after `k` rounds. */
  ghost function Cap(k: nat): (r: int)
    requires k <= 5
    ensures 0 < r && 2 * r < INF
  {
    0x8000_0000_0000_0000 * [1, 2, 4, 8, 16, 32][k]
  }

  ghost predicate Ready(m: Matrix) {
    Capped(m, Cap(0)) && forall i | 0 <= i < 5 :: m[i][i] == 0
  }

  ghost predicate Solves(m: Matrix, x: seq<int>) {
    |x| == 5 && x[ORIGIN] == 0 && Respects(m, x)
  }

  /** The closure decides satisfiability exactly. */
  method Close(m0: Matrix) returns (ok: bool)
    requires Ready(m0)
    ensures ok <==> exists x: seq<int> :: Solves(m0, x)
  {
    ghost var x: seq<int> := if x: seq<int> :| Solves(m0, x) then x else [0, 0, 0, 0, 0];
    var m := m0;
    for k := 0 to 5
      invariant Tighter(m, m0) && (Respects(m0, x) ==> Respects(m, x)) && Capped(m, Cap(k))
      invariant forall i | 0 <= i < 5 :: m[i][i] <= 0
      invariant NoNegativeCycle(m) ==> forall q | 0 <= q < k :: Through(m, q)
    {
      ghost var before := m;
      m := Round(m, k, Cap(k), x);
      TighterTransitive(m, before, m0);
      if NoNegativeCycle(m) {
        assert forall i | 0 <= i < 5 :: before[i][i] >= m[i][i];
        RoundKeepsThrough(before, m, k, Cap(k));
      }
    }
    ok := forall i | 0 <= i < 5 :: m[i][i] >= 0;
    if ok {
      x := ClosedHasModel(m);
      TighterRespects(m, m0, x);
      assert Solves(m0, x);
    } else {
      ghost var i :| 0 <= i < 5 && m[i][i] < 0;
      NegativeCycle(m, i, x);
    }
  }

  lemma NegativeCycle(m: Matrix, i: nat, x: seq<int>)
    requires |x| == 5 && i < 5 && m[i][i] < 0
    ensures !Respects(m, x)
  {
    assert !Bound(m, x, i, i);
  }

  lemma TighterTransitive(a: Matrix, b: Matrix, c: Matrix)
    requires Tighter(a, b) && Tighter(b, c)
    ensures Tighter(a, c)
  {}

  // ------------------------------------------------------------ fuzzy intervals

  /** `lo <= x <= hi`, where an infinite bound is no bound. */
  predicate Between(lo: int, x: int, hi: int) {
    (IsFinite(lo) ==> lo <= x) && (IsFinite(hi) ==> x <= hi)
  }

  /** The interval is one that the four bounds of `r` allow. */
  predicate Admits(r: FuzzyRange, i: Interval) {
    Between(r.earliestStart, i.s, r.latestStart) && Between(r.earliestEnd, i.e, r.latestEnd)
  }

  predicate IsTick(t: int) { NEG_INF <= t <= POS_INF }

  predicate Representable(r: FuzzyRange) {
    IsTick(r.earliestStart) && IsTick(r.latestStart) && IsTick(r.earliestEnd) && IsTick(r.latestEnd)
  }

  /** Add the edge `i -> j` with weight `w`, keeping the tighter of two. */
  function AddEdge(m: Matrix, i: nat, j: nat, w: int): (m': Matrix)
    requires i < 5 && j < 5
  {
    if w < m[i][j] then Set(m, i, j, w) else m
  }

  lemma AddEdgeMeans(m: Matrix, i: nat, j: nat, w: int, x: seq<int>)
    requires i < 5 && j < 5 && i != j && w < INF && |x| == 5
    ensures Respects(AddEdge(m, i, j, w), x) <==> Respects(m, x) && x[j] - x[i] <= w
  {
    var m' := AddEdge(m, i, j, w);
    if Respects(m', x) {
      assert Bound(m', x, i, j);
      forall p, q | 0 <= p < 5 && 0 <= q < 5
        ensures Bound(m, x, p, q)
      {
        assert Bound(m', x, p, q);
      }
    }
    if Respects(m, x) && x[j] - x[i] <= w {
      forall p, q | 0 <= p < 5 && 0 <= q < 5
        ensures Bound(m', x, p, q)
      {
        assert Bound(m, x, p, q);
      }
    }
  }

  /** The bounds of one endpoint as edges from and to the origin. */
  function AddBounds(m: Matrix, v: nat, lo: int, hi: int): (m': Matrix)
    requires v < 4 && IsTick(lo) && IsTick(hi) && Ready(m)
    ensures Ready(m')
  {
    var m1 := if IsFinite(lo) then AddEdge(m, v, ORIGIN, -lo) else m;
    if IsFinite(hi) then AddEdge(m1, ORIGIN, v, hi) else m1
  }

  lemma AddBoundsMeans(m: Matrix, v: nat, lo: int, hi: int, x: seq<int>)
    requires v < 4 && IsTick(lo) && IsTick(hi) && Ready(m) && |x| == 5 && x[ORIGIN] == 0
    ensures Respects(AddBounds(m, v, lo, hi), x) <==> Respects(m, x) && Between(lo, x[v], hi)
  {
    var m1 := if IsFinite(lo) then AddEdge(m, v, ORIGIN, -lo) else m;
    AddEdgeMeans(m, v, ORIGIN, -lo, x);
    AddEdgeMeans(m1, ORIGIN, v, hi, x);
  }

  function AddConstraint(m: Matrix, c: Constraint): (m': Matrix)
    requires c.i < 4 && c.j < 4 && c.i != c.j && Ready(m)
    ensures Ready(m')
  {
    match c.op
    case Less => AddEdge(m, c.j, c.i, -1)
    case Same => AddEdge(AddEdge(m, c.j, c.i, 0), c.i, c.j, 0)
  }

  lemma AddConstraintMeans(m: Matrix, c: Constraint, x: seq<int>)
    requires c.i < 4 && c.j < 4 && c.i != c.j && Ready(m) && |x| == 5
    ensures Respects(AddConstraint(m, c), x) <==> Respects(m, x) && Holds(c, x)
  {
    match c.op
    case Less =>
      AddEdgeMeans(m, c.j, c.i, -1, x);
    case Same =>
      AddEdgeMeans(m, c.j, c.i, 0, x);
      AddEdgeMeans(AddEdge(m, c.j, c.i, 0), c.i, c.j, 0, x);
  }

  ghost predicate OverEndpoints(cs: seq<Constraint>) {
    forall c <- cs :: c.i < 4 && c.j < 4 && c.i != c.j
  }

  ghost function Constrained(m: Matrix, cs: seq<Constraint>): (m': Matrix)
    requires OverEndpoints(cs) && Ready(m)
    ensures Ready(m')
  {
    if cs == [] then m else AddConstraint(Constrained(m, cs[..|cs| - 1]), cs[|cs| - 1])
  }

  lemma {:induction false} ConstrainedMeans(m: Matrix, cs: seq<Constraint>, x: seq<int>)
    requires OverEndpoints(cs) && Ready(m) && |x| == 5
    ensures Respects(Constrained(m, cs), x) <==> Respects(m, x) && AllHold(cs, x)
  {
    if cs != [] {
      hide Respects, AllHold, AddConstraint;
      var init, last := cs[..|cs| - 1], cs[|cs| - 1];
      ConstrainedMeans(m, init, x);
      AddConstraintMeans(Constrained(m, init), last, x);
      AllHoldLast(cs, x);
    } else {
      assert AllHold(cs, x);
    }
  }

  const EMPTY_MATRIX: Matrix :=
    [[0, INF, INF, INF, INF], [INF, 0, INF, INF, INF], [INF, INF, 0, INF, INF], [INF, INF, INF, 0, INF],
      [INF, INF, INF, INF, 0]]

  function BoundsSystem(a: FuzzyRange, b: FuzzyRange): (m: Matrix)
    requires Representable(a) && Representable(b)
    ensures Ready(m)
  {
    var d0 := AddBounds(EMPTY_MATRIX, 0, a.earliestStart, a.latestStart);
    var d1 := AddBounds(d0, 1, a.earliestEnd, a.latestEnd);
    var d2 := AddBounds(d1, 2, b.earliestStart, b.latestStart);
    AddBounds(d2, 3, b.earliestEnd, b.latestEnd)
  }

  lemma BoundsSystemMeans(a: FuzzyRange, b: FuzzyRange, x: seq<int>)
    requires Representable(a) && Representable(b) && |x| == 5 && x[ORIGIN] == 0
    ensures Respects(BoundsSystem(a, b), x) <==>
      && Between(a.earliestStart, x[0], a.latestStart) && Between(a.earliestEnd, x[1], a.latestEnd)
      && Between(b.earliestStart, x[2], b.latestStart) && Between(b.earliestEnd, x[3], b.latestEnd)
  {
    assert Respects(EMPTY_MATRIX, x);
    AddBoundsMeans(EMPTY_MATRIX, 0, a.earliestStart, a.latestStart, x);
    var d := AddBounds(EMPTY_MATRIX, 0, a.earliestStart, a.latestStart);
    AddBoundsMeans(d, 1, a.earliestEnd, a.latestEnd, x);
    d := AddBounds(d, 1, a.earliestEnd, a.latestEnd);
    AddBoundsMeans(d, 2, b.earliestStart, b.latestStart, x);
    d := AddBounds(d, 2, b.earliestStart, b.latestStart);
    AddBoundsMeans(d, 3, b.earliestEnd, b.latestEnd, x);
  }

  /** `s < e` for both intervals, then the constraints of the relation. */
  const PROPER: seq<Constraint> := [Constraint(0, 1, Less), Constraint(2, 3, Less)]

  lemma SystemMeans(a: FuzzyRange, b: FuzzyRange, rel: Relation, x: seq<int>)
    requires Representable(a) && Representable(b) && |x| == 5 && x[ORIGIN] == 0
    ensures Respects(Constrained(BoundsSystem(a, b), PROPER + EndpointConstraints(rel)), x) <==>
      && x[0] < x[1] && x[2] < x[3]
      && Admits(a, Interval(x[0], x[1])) && Admits(b, Interval(x[2], x[3]))
      && Of(Interval(x[0], x[1]), Interval(x[2], x[3])) == rel
  {
    hide BoundsSystem, EndpointConstraints, Constrained, Of;
    var cs := PROPER + EndpointConstraints(rel);
    BoundsSystemMeans(a, b, x);
    ConstrainedMeans(BoundsSystem(a, b), cs, x);
    assert AllHold(cs, x) ==> Holds(cs[0], x) && Holds(cs[1], x);
    if x[0] < x[1] && x[2] < x[3] {
      var i, j := Interval(x[0], x[1]), Interval(x[2], x[3]);
      ConstraintsCharacteriseOf(i, j, rel);
      SameConstraints(EndpointConstraints(rel), x, Endpoints(i, j));
      assert AllHold(cs, x) <==> AllHold(EndpointConstraints(rel), x) by {
        assert forall k | 0 <= k < |EndpointConstraints(rel)| :: cs[k + 2] == EndpointConstraints(rel)[k];
        assert forall k | 2 <= k < |cs| :: cs[k] == EndpointConstraints(rel)[k - 2];
      }
    }
  }

  lemma SameConstraints(cs: seq<Constraint>, x: seq<int>, y: seq<int>)
    requires OverEndpoints(cs) && |x| == 5 && |y| == 4 && x[..4] == y
    ensures AllHold(cs, x) <==> AllHold(cs, y)
  {
    assert forall i | 0 <= i < 4 :: x[i] == x[..4][i];
    assert forall k | 0 <= k < |cs| :: Holds(cs[k], x) <==> Holds(cs[k], y);
  }

  /** Some pair of intervals within the bounds stands in the relation. */
  ghost predicate Possible(a: FuzzyRange, b: FuzzyRange, r: Relation) {
    exists i: Interval, j: Interval :: Admits(a, i) && Admits(b, j) && Of(i, j) == r
  }

  lemma SolvableIffPossible(a: FuzzyRange, b: FuzzyRange, rel: Relation)
    requires Representable(a) && Representable(b)
    ensures (exists x: seq<int> :: Solves(Constrained(BoundsSystem(a, b), PROPER + EndpointConstraints(rel)), x))
      <==> Possible(a, b, rel)
  {
    hide BoundsSystem, EndpointConstraints, Constrained, Of;
    var d := Constrained(BoundsSystem(a, b), PROPER + EndpointConstraints(rel));
    if Possible(a, b, rel) {
      var i: Interval, j: Interval :| Admits(a, i) && Admits(b, j) && Of(i, j) == rel;
      var x := [i.s, i.e, j.s, j.e, 0];
      SystemMeans(a, b, rel, x);
      assert Solves(d, x);
    }
    if x: seq<int> :| Solves(d, x) {
      SystemMeans(a, b, rel, x);
      var i: Interval, j: Interval := Interval(x[0], x[1]), Interval(x[2], x[3]);
      assert Admits(a, i) && Admits(b, j);
    }
  }

  /** The five-node constraint system is satisfiable exactly when the relation is possible. */
  method FeasibleRelation(a: FuzzyRange, b: FuzzyRange, rel: Relation) returns (ok: bool)
    requires Representable(a) && Representable(b)
    ensures ok <==> Possible(a, b, rel)
  {
    hide BoundsSystem, EndpointConstraints, AddConstraint, Ready, Possible;
    var cs := PROPER + EndpointConstraints(rel);
    ghost var base := BoundsSystem(a, b);
    var d := BoundsSystem(a, b);
    for k := 0 to |cs|
      invariant d == Constrained(base, cs[..k])
    {
      d := AddConstraint(d, cs[k]);
      assert cs[..k + 1][..k] == cs[..k];
    }
    assert cs[..|cs|] == cs;
    ok := Close(d);
    SolvableIffPossible(a, b, rel);
  }

  /** The relations that intervals within the two four-point bounds can have. */
  method PossibleRelations(a: FuzzyRange, b: FuzzyRange) returns (out: set<Relation>)
    requires Representable(a) && Representable(b)
    ensures forall r :: r in out <==> Possible(a, b, r)
  {
    out := {};
    for k := 0 to 13
      invariant forall r :: r in out <==> Index(r) < k && Possible(a, b, r)
    {
      var r := ALL_RELATIONS[k];
      var ok := FeasibleRelation(a, b, r);
      if ok {
        out := out + {r};
      }
    }
  }
}
