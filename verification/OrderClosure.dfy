/** The closure over four endpoints that decides contradictions in the temporal order
  * graph (time/order.rs, `consistent`).
  */
module OrderClosure {
  import opened Wrappers
  import opened Allen

  /** What is known of two points: strictly before, or not after. */
  datatype Pc = Lt | Le

  type Cell = Option<Pc>

  type Known = m: seq<seq<Cell>> | |m| == 4 && forall i :: 0 <= i < 4 ==> |m[i]| == 4
    witness seq(4, i => [None, None, None, None])

  function Set(m: Known, i: nat, j: nat, c: Cell): (m': Known)
    requires i < 4 && j < 4
    ensures forall p, q | 0 <= p < 4 && 0 <= q < 4 :: m'[p][q] == if p == i && q == j then c else m[p][q]
  {
    m[i := m[i][j := c]]
  }

  function Tighten(cur: Cell, new_: Pc): Cell {
    if cur == Some(Lt) || new_ == Lt then Some(Lt) else Some(Le)
  }

  function Join(a: Pc, b: Pc): Pc {
    if a == Lt || b == Lt then Lt else Le
  }

  // ------------------------------------------------------------ meaning

  ghost predicate CellHolds(c: Cell, x: int, y: int) {
    match c
    case None => true
    case Some(Lt) => x < y
    case Some(Le) => x <= y
  }

  ghost predicate Respects(m: Known, x: seq<int>)
    requires |x| == 4
  {
    forall i, j | 0 <= i < 4 && 0 <= j < 4 :: CellHolds(m[i][j], x[i], x[j])
  }

  ghost predicate NoDiagonal(m: Known) {
    forall i | 0 <= i < 4 :: m[i][i] == None
  }

  /** Going from `i` to `j` through `k` adds nothing to what is known, and shows no `i < i`. */
  ghost predicate Triangle(m: Known, i: nat, k: nat, j: nat)
    requires i < 4 && k < 4 && j < 4
  {
    m[i][k].Some? && m[k][j].Some? ==>
      var c := Join(m[i][k].value, m[k][j].value);
      if i == j then c == Le else m[i][j] == Tighten(m[i][j], c)
  }

  ghost predicate Through(m: Known, k: nat)
    requires k < 4
  {
    forall i, j | 0 <= i < 4 && 0 <= j < 4 :: Triangle(m, i, k, j)
  }

  // ------------------------------------------------------------ a model of a closed matrix

  ghost function Strict(c: Cell): nat {
    if c == Some(Lt) then 1 else 0
  }

  /** How many of the points are strictly before `j`. */
  ghost function Height(m: Known, j: nat): nat
    requires j < 4
  {
    Strict(m[0][j]) + Strict(m[1][j]) + Strict(m[2][j]) + Strict(m[3][j])
  }

  lemma HeightMonotone(m: Known, i: nat, j: nat)
    requires i < 4 && j < 4 && NoDiagonal(m) && Through(m, i) && m[i][j].Some?
    ensures CellHolds(m[i][j], Height(m, i), Height(m, j))
  {
    assert forall a | 0 <= a < 4 :: Triangle(m, a, i, j);
    assert Triangle(m, 0, i, j) && Triangle(m, 1, i, j) && Triangle(m, 2, i, j) && Triangle(m, 3, i, j);
    assert Strict(m[0][i]) <= Strict(m[0][j]) && Strict(m[1][i]) <= Strict(m[1][j]);
    assert Strict(m[2][i]) <= Strict(m[2][j]) && Strict(m[3][i]) <= Strict(m[3][j]);
    assert m[i][j] == Some(Lt) ==> Strict(m[i][i]) < Strict(m[i][j]);
  }

  lemma ClosedHasModel(m: Known) returns (x: seq<int>)
    requires NoDiagonal(m) && forall k | 0 <= k < 4 :: Through(m, k)
    ensures |x| == 4 && Respects(m, x)
  {
    x := [Height(m, 0), Height(m, 1), Height(m, 2), Height(m, 3)];
    forall i, j | 0 <= i < 4 && 0 <= j < 4
      ensures CellHolds(m[i][j], x[i], x[j])
    {
      if m[i][j].Some? {
        HeightMonotone(m, i, j);
      }
    }
  }

  // ------------------------------------------------------------ the closure

  function Relaxed(m: Known, k: nat, i: nat, j: nat): Cell
    requires k < 4 && i < 4 && j < 4
  {
    if i != j && m[i][k].Some? && m[k][j].Some? then
      Tighten(m[i][j], Join(m[i][k].value, m[k][j].value))
    else m[i][j]
  }

  ghost predicate RoundOf(m: Known, m': Known, k: nat)
    requires k < 4
  {
    forall i, j | 0 <= i < 4 && 0 <= j < 4 :: m'[i][j] == Relaxed(m, k, i, j)
  }

  /** No `i < i` through `k`. */
  ghost predicate NoLoop(m: Known, k: nat, i: nat)
    requires k < 4 && i < 4
  {
    m[i][k].Some? && m[k][i].Some? ==> Join(m[i][k].value, m[k][i].value) == Le
  }

  lemma RoundTriangle(m: Known, m': Known, k: nat, q: nat, i: nat, j: nat)
    requires k < 4 && q < 4 && i < 4 && j < 4 && NoDiagonal(m) && q != k
    requires Through(m, q) && NoLoop(m, k, i)
    requires m'[i][j] == Relaxed(m, k, i, j) && m'[i][q] == Relaxed(m, k, i, q) && m'[q][j] == Relaxed(m, k, q, j)
    ensures Triangle(m', i, q, j)
  {
    assert Triangle(m, i, q, j) && Triangle(m, i, q, k) && Triangle(m, k, q, j) && Triangle(m, k, q, k);
  }

  lemma RoundKeepsThrough(m: Known, m': Known, k: nat)
    requires k < 4 && NoDiagonal(m) && RoundOf(m, m', k)
    requires forall i | 0 <= i < 4 :: NoLoop(m, k, i)
    requires forall q | 0 <= q < k :: Through(m, q)
    ensures forall q | 0 <= q <= k :: Through(m', q)
  {
    forall q, i, j | 0 <= q <= k && 0 <= i < 4 && 0 <= j < 4
      ensures Triangle(m', i, q, j)
    {
      if q < k {
        RoundTriangle(m, m', k, q, i, j);
      } else {
        assert NoLoop(m, k, i);
        assert m'[i][k] == Relaxed(m, k, i, k) && m'[k][j] == Relaxed(m, k, k, j);
      }
    }
  }

  lemma SetRespects(m: Known, i: nat, j: nat, p: Pc, x: seq<int>)
    requires i < 4 && j < 4 && |x| == 4
    ensures Respects(Set(m, i, j, Tighten(m[i][j], p)), x) <==> Respects(m, x) && CellHolds(Some(p), x[i], x[j])
  {
    var m' := Set(m, i, j, Tighten(m[i][j], p));
    if Respects(m', x) {
      forall a, b | 0 <= a < 4 && 0 <= b < 4
        ensures CellHolds(m[a][b], x[a], x[b])
      {
        assert CellHolds(m'[a][b], x[a], x[b]);
      }
      assert CellHolds(m'[i][j], x[i], x[j]);
    }
    if Respects(m, x) && CellHolds(Some(p), x[i], x[j]) {
      assert CellHolds(m[i][j], x[i], x[j]);
    }
  }

  lemma StepRespects(m: Known, k: nat, i: nat, j: nat, x: seq<int>)
    requires k < 4 && i < 4 && j < 4 && |x| == 4 && m[i][k].Some? && m[k][j].Some? && Respects(m, x)
    ensures var c := Join(m[i][k].value, m[k][j].value);
            if i == j then c == Le else Respects(Set(m, i, j, Tighten(m[i][j], c)), x)
  {
    assert CellHolds(m[i][k], x[i], x[k]) && CellHolds(m[k][j], x[k], x[j]);
    SetRespects(m, i, j, Join(m[i][k].value, m[k][j].value), x);
  }

  /** One round of the closure; `ok` is false when it meets `i < i`. */
  method Round(m0: Known, k: nat, ghost x: seq<int>) returns (ok: bool, m: Known)
    requires k < 4 && NoDiagonal(m0) && |x| == 4
    ensures ok ==> NoDiagonal(m) && RoundOf(m0, m, k) && forall i | 0 <= i < 4 :: NoLoop(m0, k, i)
    ensures Respects(m0, x) ==> ok && Respects(m, x)
  {
    hide Respects;
    m := m0;
    for i := 0 to 4
      invariant forall p, q | 0 <= p < 4 && 0 <= q < 4 :: m[p][q] == if p < i then Relaxed(m0, k, p, q) else m0[p][q]
      invariant forall p | 0 <= p < i :: NoLoop(m0, k, p)
      invariant Respects(m0, x) ==> Respects(m, x)
    {
      for j := 0 to 4
        invariant forall p, q | 0 <= p < 4 && 0 <= q < 4 ::
            m[p][q] == if p < i || (p == i && q < j) then Relaxed(m0, k, p, q) else m0[p][q]
        invariant forall p | 0 <= p < i :: NoLoop(m0, k, p)
        invariant j > i ==> NoLoop(m0, k, i)
        invariant Respects(m0, x) ==> Respects(m, x)
      {
        assert m[i][k] == m0[i][k] && m[k][j] == m0[k][j];
        if m[i][k].Some? && m[k][j].Some? {
          var c := Join(m[i][k].value, m[k][j].value);
          if Respects(m, x) {
            StepRespects(m, k, i, j, x);
          }
          if i == j {
            if c == Lt {
              return false, m;
            }
          } else {
            m := Set(m, i, j, Tighten(m[i][j], c));
          }
        }
      }
    }
    ok := true;
  }

  /** The known matrix with one constraint of a relation added. */
  function AddConstraint(m: Known, c: Constraint): (m': Known)
    requires c.i < 4 && c.j < 4
  {
    match c.op
    case Less => Set(m, c.i, c.j, Tighten(m[c.i][c.j], Lt))
    case Same =>
      var m1 := Set(m, c.i, c.j, Tighten(m[c.i][c.j], Le));
      Set(m1, c.j, c.i, Tighten(m1[c.j][c.i], Le))
  }

  lemma AddConstraintRespects(m: Known, c: Constraint, x: seq<int>)
    requires c.i < 4 && c.j < 4 && |x| == 4
    ensures Respects(AddConstraint(m, c), x) <==> Respects(m, x) && Holds(c, x)
  {
    match c.op
    case Less =>
      SetRespects(m, c.i, c.j, Lt, x);
    case Same =>
      SetRespects(m, c.i, c.j, Le, x);
      SetRespects(Set(m, c.i, c.j, Tighten(m[c.i][c.j], Le)), c.j, c.i, Le, x);
  }

  ghost predicate OverEndpoints(cs: seq<Constraint>) {
    forall c <- cs :: c.i < 4 && c.j < 4 && c.i != c.j
  }

  ghost function Constrained(m: Known, cs: seq<Constraint>): (m': Known)
    requires OverEndpoints(cs)
    ensures NoDiagonal(m) ==> NoDiagonal(m')
  {
    if cs == [] then m else AddConstraint(Constrained(m, cs[..|cs| - 1]), cs[|cs| - 1])
  }

  lemma {:induction false} ConstrainedRespects(m: Known, cs: seq<Constraint>, x: seq<int>)
    requires OverEndpoints(cs) && |x| == 4
    ensures Respects(Constrained(m, cs), x) <==> Respects(m, x) && AllHold(cs, x)
  {
    if cs != [] {
      hide Respects, AllHold, AddConstraint;
      var init, last := cs[..|cs| - 1], cs[|cs| - 1];
      ConstrainedRespects(m, init, x);
      AddConstraintRespects(Constrained(m, init), last, x);
      AllHoldLast(cs, x);
    } else {
      assert AllHold(cs, x);
    }
  }

  ghost predicate Solves(m: Known, cs: seq<Constraint>, x: seq<int>)
    requires OverEndpoints(cs)
  {
    |x| == 4 && Respects(m, x) && AllHold(cs, x)
  }

  /** The closure finds a contradiction exactly when no integers satisfy what is known and `extra`. */
  method Consistent(known: Known, extra: seq<Constraint>) returns (ok: bool)
    requires NoDiagonal(known) && OverEndpoints(extra)
    ensures ok <==> exists x: seq<int> :: Solves(known, extra, x)
  {
    ghost var x: seq<int> := if x: seq<int> :| Solves(known, extra, x) then x else [0, 0, 0, 0];
    var m := known;
    for k := 0 to |extra|
      invariant m == Constrained(known, extra[..k])
    {
      m := AddConstraint(m, extra[k]);
      assert extra[..k + 1][..k] == extra[..k];
    }
    assert extra[..|extra|] == extra;
    ConstrainedRespects(known, extra, x);
    ghost var m0 := m;
    for k := 0 to 4
      invariant NoDiagonal(m) && forall q | 0 <= q < k :: Through(m, q)
      invariant Solves(known, extra, x) ==> Respects(m, x)
      invariant forall y: seq<int> :: |y| == 4 && Respects(m, y) ==> Respects(m0, y)
    {
      ghost var before := m;
      ok, m := Round(m, k, x);
      if !ok {
        return;
      }
      RoundKeepsThrough(before, m, k);
      forall y: seq<int> | |y| == 4 && Respects(m, y) { RoundTightens(before, m, k, y); }
    }
    ok := forall i | 0 <= i < 4 :: m[i][i] != Some(Lt);
    x := ClosedHasModel(m);
    ConstrainedRespects(known, extra, x);
    assert Solves(known, extra, x);
  }

  lemma RoundTightens(m: Known, m': Known, k: nat, y: seq<int>)
    requires k < 4 && RoundOf(m, m', k) && |y| == 4 && Respects(m', y)
    ensures Respects(m, y)
  {
    forall i, j | 0 <= i < 4 && 0 <= j < 4
      ensures CellHolds(m[i][j], y[i], y[j])
    {
      assert m'[i][j] == Relaxed(m, k, i, j) && CellHolds(m'[i][j], y[i], y[j]);
    }
  }
}
