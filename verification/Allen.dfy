/** Allen's interval algebra (time/allen.rs).
  *
  * A relation set is a bitmask in the program; here it is a `set<Relation>`.
  */
module Allen {
  datatype Relation =
    | Before | Meets | Overlaps | Starts | During | Finishes | Equals
    | FinishedBy | Contains | StartedBy | OverlappedBy | MetBy | After

  const ALL_RELATIONS: seq<Relation> :=
    [Before, Meets, Overlaps, Starts, During, Finishes, Equals,
     FinishedBy, Contains, StartedBy, OverlappedBy, MetBy, After]

  /** The discriminant of the enumeration. */
  function Index(r: Relation): (i: nat)
    ensures i < 13 && ALL_RELATIONS[i] == r
  {
    match r
    case Before => 0 case Meets => 1 case Overlaps => 2 case Starts => 3
    case During => 4 case Finishes => 5 case Equals => 6 case FinishedBy => 7
    case Contains => 8 case StartedBy => 9 case OverlappedBy => 10 case MetBy => 11
    case After => 12
  }

  function Inverse(r: Relation): Relation {
    ALL_RELATIONS[12 - Index(r)]
  }

  function InverseSet(rs: set<Relation>): set<Relation> {
    set r | r in rs :: Inverse(r)
  }

  datatype RawInterval = Interval(s: int, e: int)

  /** A non-empty half-open integer interval `[s, e)`. */
  type Interval = i: RawInterval | i.s < i.e witness Interval(0, 1)

  function Of(a: Interval, b: Interval): Relation {
    if a.s == b.s then
      if a.e == b.e then Equals else if a.e < b.e then Starts else StartedBy
    else if a.e == b.e then
      if a.s > b.s then Finishes else FinishedBy
    else if a.s > b.s && a.e < b.e then During
    else if a.s < b.s && a.e > b.e then Contains
    else if a.s < b.s then
      if a.e < b.s then Before else if a.e == b.s then Meets else Overlaps
    else
      if a.s > b.e then After else if a.s == b.e then MetBy else OverlappedBy
  }

  datatype Comparison = Less | Same

  /** A constraint between two of the four endpoints 0 = a.s, 1 = a.e, 2 = b.s, 3 = b.e. */
  datatype Constraint = Constraint(i: nat, j: nat, op: Comparison)

  function EndpointConstraints(r: Relation): (cs: seq<Constraint>)
    ensures forall c <- cs :: c.i < 4 && c.j < 4 && c.i != c.j
  {
    match r
    case Before => [Constraint(1, 2, Less)]
    case Meets => [Constraint(1, 2, Same)]
    case Overlaps => [Constraint(0, 2, Less), Constraint(2, 1, Less), Constraint(1, 3, Less)]
    case Starts => [Constraint(0, 2, Same), Constraint(1, 3, Less)]
    case During => [Constraint(2, 0, Less), Constraint(1, 3, Less)]
    case Finishes => [Constraint(1, 3, Same), Constraint(2, 0, Less)]
    case Equals => [Constraint(0, 2, Same), Constraint(1, 3, Same)]
    case FinishedBy => [Constraint(1, 3, Same), Constraint(0, 2, Less)]
    case Contains => [Constraint(0, 2, Less), Constraint(3, 1, Less)]
    case StartedBy => [Constraint(0, 2, Same), Constraint(3, 1, Less)]
    case OverlappedBy => [Constraint(2, 0, Less), Constraint(0, 3, Less), Constraint(3, 1, Less)]
    case MetBy => [Constraint(3, 0, Same)]
    case After => [Constraint(3, 0, Less)]
  }

  predicate Holds(c: Constraint, x: seq<int>)
    requires c.i < |x| && c.j < |x|
  {
    match c.op
    case Less => x[c.i] < x[c.j]
    case Same => x[c.i] == x[c.j]
  }

  predicate AllHold(cs: seq<Constraint>, x: seq<int>)
    requires forall c <- cs :: c.i < |x| && c.j < |x|
  {
    forall k :: 0 <= k < |cs| ==> Holds(cs[k], x)
  }

  lemma AllHoldLast(cs: seq<Constraint>, x: seq<int>)
    requires cs != [] && forall c <- cs :: c.i < |x| && c.j < |x|
    ensures AllHold(cs, x) <==> AllHold(cs[..|cs| - 1], x) && Holds(cs[|cs| - 1], x)
  {
    var init := cs[..|cs| - 1];
    assert AllHold(cs, x) ==> Holds(cs[|cs| - 1], x);
    assert forall k | 0 <= k < |init| :: init[k] == cs[k];
    assert AllHold(init, x) ==> forall k | 0 <= k < |init| :: Holds(init[k], x);
  }

  function Endpoints(a: Interval, b: Interval): seq<int> {
    [a.s, a.e, b.s, b.e]
  }

  /** The endpoint constraints of `r` say exactly that the relation is `r`. */
  lemma ConstraintsCharacteriseOf(a: Interval, b: Interval, r: Relation)
    ensures Of(a, b) == r <==> AllHold(EndpointConstraints(r), Endpoints(a, b))
  {
    var cs := EndpointConstraints(r);
    if AllHold(cs, Endpoints(a, b)) {
      assert Holds(cs[0], Endpoints(a, b));
      if |cs| > 1 {
        assert Holds(cs[1], Endpoints(a, b));
      }
      if |cs| > 2 {
        assert Holds(cs[2], Endpoints(a, b));
      }
    }
  }

  /** Swapping the operands inverts the relation. */
  lemma OfInverse(a: Interval, b: Interval)
    ensures Of(b, a) == Inverse(Of(a, b))
  {}

  lemma InverseInvolution(r: Relation)
    ensures Inverse(Inverse(r)) == r
  {}

  // ------------------------------------------------------------ composition

  /** Intervals `a`, `b`, `c` witness that `r3` is possible when `a r1 b` and `b r2 c`. */
  ghost predicate Witnesses(r1: Relation, r2: Relation, r3: Relation, a: Interval, b: Interval, c: Interval) {
    Of(a, b) == r1 && Of(b, c) == r2 && Of(a, c) == r3
  }

  ghost predicate Composable(r1: Relation, r2: Relation, r3: Relation) {
    exists a: Interval, b: Interval, c: Interval :: Witnesses(r1, r2, r3, a, b, c)
  }

  function Below(x: int, y: int): nat {
    if x < y then 1 else 0
  }

  /** How many of the six endpoints lie strictly below `x`. */
  function Rank(a: Interval, b: Interval, c: Interval, x: int): nat {
    Below(a.s, x) + Below(a.e, x) + Below(b.s, x) + Below(b.e, x) + Below(c.s, x) + Below(c.e, x)
  }

  function Compress(a: Interval, b: Interval, c: Interval, i: Interval): (r: RawInterval) {
    Interval(Rank(a, b, c, i.s), Rank(a, b, c, i.e))
  }

  /** Replacing the endpoints by their ranks gives intervals over six values in the same relations. */
  lemma RankCompression(a: Interval, b: Interval, c: Interval) returns (a': Interval, b': Interval, c': Interval)
    ensures 0 <= a'.s && a'.e < 6 && 0 <= b'.s && b'.e < 6 && 0 <= c'.s && c'.e < 6
    ensures Of(a', b') == Of(a, b) && Of(b', c') == Of(b, c) && Of(a', c') == Of(a, c)
  {
    a', b', c' := Compress(a, b, c, a), Compress(a, b, c, b), Compress(a, b, c, c);
  }

  type Table = seq<seq<set<Relation>>>

  ghost predicate TableShape(t: Table) {
    |t| == 13 && forall i :: 0 <= i < 13 ==> |t[i]| == 13
  }

  /** The intervals over `0..6`, in the order the program enumerates them. */
  method SmallIntervals() returns (ivs: seq<Interval>)
    ensures forall i: Interval :: i in ivs <==> 0 <= i.s && i.e < 6
  {
    ivs := [];
    for s := 0 to 6
      invariant forall i: Interval :: i in ivs <==> 0 <= i.s < s && i.e < 6
    {
      for e := s + 1 to 6
        invariant forall i: Interval :: i in ivs <==> 0 <= i.s && i.e < 6 && (i.s < s || (i.s == s && i.e < e))
      {
        ivs := ivs + [Interval(s, e)];
      }
    }
  }

  ghost predicate Sound(t: Table)
    requires TableShape(t)
  {
    forall r1, r2, r3 :: r3 in t[Index(r1)][Index(r2)] ==> Composable(r1, r2, r3)
  }

  ghost predicate Covers(t: Table, a: Interval, b: Interval, c: Interval)
    requires TableShape(t)
  {
    Of(a, c) in t[Index(Of(a, b))][Index(Of(b, c))]
  }

  /** `t[of(a,b)][of(b,c)] |= of(a,c)` */
  function Record(t: Table, a: Interval, b: Interval, c: Interval): (t': Table)
    requires TableShape(t)
    ensures TableShape(t') && Covers(t', a, b, c)
    ensures Sound(t) ==> Sound(t')
    ensures forall x: Interval, y: Interval, z: Interval :: Covers(t, x, y, z) ==> Covers(t', x, y, z)
  {
    var i, j := Index(Of(a, b)), Index(Of(b, c));
    assert Witnesses(Of(a, b), Of(b, c), Of(a, c), a, b, c);
    t[i := t[i][j := t[i][j] + {Of(a, c)}]]
  }

  ghost predicate CoversPair(t: Table, ivs: seq<Interval>, a: Interval, b: Interval)
    requires TableShape(t)
  {
    forall c <- ivs :: Covers(t, a, b, c)
  }

  ghost predicate CoversFirst(t: Table, ivs: seq<Interval>, a: Interval)
    requires TableShape(t)
  {
    forall b <- ivs, c <- ivs :: Covers(t, a, b, c)
  }

  /** A sound table covering every triple over six values is exact over all integers. */
  lemma SmallIntervalsSuffice(t: Table, ivs: seq<Interval>)
    requires TableShape(t) && Sound(t)
    requires forall i: Interval :: i in ivs <==> 0 <= i.s && i.e < 6
    requires forall a <- ivs :: CoversFirst(t, ivs, a)
    ensures forall r1, r2, r3 :: r3 in t[Index(r1)][Index(r2)] <==> Composable(r1, r2, r3)
  {
    forall r1, r2, r3 | Composable(r1, r2, r3)
      ensures r3 in t[Index(r1)][Index(r2)]
    {
      var a: Interval, b: Interval, c: Interval :| Witnesses(r1, r2, r3, a, b, c);
      var a', b', c' := RankCompression(a, b, c);
      assert Covers(t, a', b', c');
    }
  }

  ghost predicate Extends(t: Table, t': Table)
    requires TableShape(t) && TableShape(t')
  {
    forall x: Interval, y: Interval, z: Interval :: Covers(t, x, y, z) ==> Covers(t', x, y, z)
  }

  lemma CoversFirstExtends(t: Table, t': Table, ivs: seq<Interval>, a: Interval)
    requires TableShape(t) && TableShape(t') && Extends(t, t') && CoversFirst(t, ivs, a)
    ensures CoversFirst(t', ivs, a)
  {}

  /** The innermost loop: every `c` for one pair `(a, b)`. */
  method FillPair(t0: Table, ivs: seq<Interval>, a: Interval, b: Interval) returns (t: Table)
    requires TableShape(t0) && Sound(t0)
    ensures TableShape(t) && Sound(t) && Extends(t0, t) && CoversPair(t, ivs, a, b)
  {
    t := t0;
    for k := 0 to |ivs|
      invariant TableShape(t) && Sound(t) && Extends(t0, t)
      invariant forall p | 0 <= p < k :: Covers(t, a, b, ivs[p])
    {
      t := Record(t, a, b, ivs[k]);
    }
  }

  /** The middle loop: every `b` and `c` for one `a`. */
  method FillFirst(t0: Table, ivs: seq<Interval>, a: Interval) returns (t: Table)
    requires TableShape(t0) && Sound(t0)
    ensures TableShape(t) && Sound(t) && Extends(t0, t) && CoversFirst(t, ivs, a)
  {
    t := t0;
    for j := 0 to |ivs|
      invariant TableShape(t) && Sound(t) && Extends(t0, t)
      invariant forall p | 0 <= p < j :: CoversPair(t, ivs, a, ivs[p])
    {
      t := FillPair(t, ivs, a, ivs[j]);
    }
  }

  /** The table built from intervals over six values is exact over all integers. */
  method CompositionTable() returns (t: Table)
    ensures TableShape(t)
    ensures forall r1, r2, r3 :: r3 in t[Index(r1)][Index(r2)] <==> Composable(r1, r2, r3)
  {
    var ivs := SmallIntervals();
    t := seq(13, i => seq(13, j => {}));
    for i := 0 to |ivs|
      invariant TableShape(t) && Sound(t)
      invariant forall p | 0 <= p < i :: CoversFirst(t, ivs, ivs[p])
    {
      ghost var before := t;
      t := FillFirst(t, ivs, ivs[i]);
      forall p | 0 <= p < i { CoversFirstExtends(before, t, ivs, ivs[p]); }
    }
    SmallIntervalsSuffice(t, ivs);
  }

  /** `r3` is in the composition of two relation sets. */
  ghost predicate InComposition(x: set<Relation>, y: set<Relation>, r3: Relation) {
    exists r1, r2 :: r1 in x && r2 in y && Composable(r1, r2, r3)
  }

  method Compose(x: set<Relation>, y: set<Relation>) returns (out: set<Relation>)
    ensures forall r3 :: r3 in out <==> InComposition(x, y, r3)
  {
    hide Composable;
    var t := CompositionTable();
    out := {};
    for i := 0 to 13
      invariant forall r3 :: r3 in out <==>
        exists r1, r2 :: r1 in x && Index(r1) < i && r2 in y && Composable(r1, r2, r3)
    {
      var r1 := ALL_RELATIONS[i];
      if r1 in x {
        ghost var before := out;
        for j := 0 to 13
          invariant forall r3 :: r3 in out <==>
              r3 in before || exists r2 :: r2 in y && Index(r2) < j && Composable(r1, r2, r3)
        {
          var r2 := ALL_RELATIONS[j];
          if r2 in y {
            out := out + t[i][j];
          }
        }
      }
    }
  }

  lemma ComposableInverse(r1: Relation, r2: Relation, r3: Relation)
    requires Composable(r1, r2, r3)
    ensures Composable(Inverse(r2), Inverse(r1), Inverse(r3))
  {
    var a: Interval, b: Interval, c: Interval :| Witnesses(r1, r2, r3, a, b, c);
    OfInverse(a, b);
    OfInverse(b, c);
    OfInverse(a, c);
    assert Witnesses(Inverse(r2), Inverse(r1), Inverse(r3), c, b, a);
  }

  /** Inversion distributes over composition with the operands exchanged. */
  lemma InverseOfComposition(x: set<Relation>, y: set<Relation>, r: Relation)
    ensures InComposition(x, y, r) <==> InComposition(InverseSet(y), InverseSet(x), Inverse(r))
  {
    hide Composable;
    if InComposition(x, y, r) {
      var r1, r2 :| r1 in x && r2 in y && Composable(r1, r2, r);
      ComposableInverse(r1, r2, r);
      assert Inverse(r2) in InverseSet(y) && Inverse(r1) in InverseSet(x);
    }
    if InComposition(InverseSet(y), InverseSet(x), Inverse(r)) {
      var s1, s2 :| s1 in InverseSet(y) && s2 in InverseSet(x) && Composable(s1, s2, Inverse(r));
      ComposableInverse(s1, s2, Inverse(r));
      InverseInvolution(r);
      forall q { InverseInvolution(q); }
      assert Inverse(s2) in x && Inverse(s1) in y;
    }
  }
}
