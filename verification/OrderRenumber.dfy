/** Sorting and the renumbering argument of the Pearce-Kelly insertion (time/order.rs, `add_lt`). */
module OrderRenumber {
  import opened OrderModels

  ghost predicate NoDup(s: seq<nat>) {
    forall i, j | 0 <= i < j < |s| :: s[i] != s[j]
  }

  // ------------------------------------------------------------ sorting by a key

  ghost predicate SortedBy(s: seq<nat>, key: nat -> nat) {
    forall i, j | 0 <= i < j < |s| :: key(s[i]) <= key(s[j])
  }

  /** `r` holds the elements of `s` in another order. */
  ghost predicate Rearranged(s: seq<nat>, r: seq<nat>) {
    |r| == |s| && (forall z :: z in r <==> z in s) && (NoDup(s) ==> NoDup(r))
  }

  function InsertBy(s: seq<nat>, key: nat -> nat, x: nat): seq<nat> {
    if s == [] then [x]
    else if key(x) <= key(s[0]) then [x] + s
    else [s[0]] + InsertBy(s[1..], key, x)
  }

  lemma {:induction false} InsertByElements(s: seq<nat>, key: nat -> nat, x: nat)
    ensures var r := InsertBy(s, key, x);
            |r| == |s| + 1 && (forall z :: z in r <==> z == x || z in s) && (NoDup(s) && x !in s ==> NoDup(r))
  {
    if s != [] && key(x) > key(s[0]) {
      InsertByElements(s[1..], key, x);
      var t := InsertBy(s[1..], key, x);
      if NoDup(s) && x !in s {
        assert s[0] !in s[1..];
        assert s[0] !in t;
        assert NoDup(t);
      }
    }
  }

  lemma {:induction false} InsertBySorted(s: seq<nat>, key: nat -> nat, x: nat)
    requires SortedBy(s, key)
    ensures SortedBy(InsertBy(s, key, x), key)
  {
    if s != [] && key(x) > key(s[0]) {
      var t := InsertBy(s[1..], key, x);
      InsertBySorted(s[1..], key, x);
      InsertByElements(s[1..], key, x);
      forall k | 0 <= k < |t|
        ensures key(s[0]) <= key(t[k])
      {
        assert t[k] in t;
      }
    }
  }

  /** `sort_by_key` */
  function SortBy(s: seq<nat>, key: nat -> nat): seq<nat> {
    if s == [] then [] else InsertBy(SortBy(s[1..], key), key, s[0])
  }

  lemma {:induction false} SortByCorrect(s: seq<nat>, key: nat -> nat)
    ensures Rearranged(s, SortBy(s, key)) && SortedBy(SortBy(s, key), key)
  {
    if s != [] {
      SortByCorrect(s[1..], key);
      InsertByElements(SortBy(s[1..], key), key, s[0]);
      InsertBySorted(SortBy(s[1..], key), key, s[0]);
    }
  }

  function Key(ord: seq<nat>): nat -> nat {
    (n: nat) => if n < |ord| then ord[n] else 0
  }

  /** `sort_unstable` on numbers */
  function Sort(s: seq<nat>): (r: seq<nat>) {
    SortBy(s, z => z)
  }

  lemma SortCorrect(s: seq<nat>)
    ensures Rearranged(s, Sort(s)) && (NoDup(s) ==> StrictlyAscending(Sort(s)))
  {
    SortByCorrect(s, z => z);
    assert NoDup(s) ==> forall i, j | 0 <= i < j < |Sort(s)| :: Sort(s)[i] < Sort(s)[j];
  }

  // ------------------------------------------------------------ strictly increasing sequences

  ghost predicate StrictlyAscending(s: seq<nat>) {
    forall i, j | 0 <= i < j < |s| :: s[i] < s[j]
  }

  ghost predicate Within(a: seq<nat>, b: seq<nat>) {
    forall k | 0 <= k < |a| :: a[k] in b
  }

  lemma {:induction false} PositionAtLeast(a: seq<nat>, b: seq<nat>, i: nat) returns (p: nat)
    requires StrictlyAscending(a) && StrictlyAscending(b) && Within(a, b) && i < |a|
    ensures i <= p < |b| && b[p] == a[i]
  {
    assert a[i] in b;
    p :| 0 <= p < |b| && b[p] == a[i];
    if i > 0 {
      var q := PositionAtLeast(a, b, i - 1);
    }
  }

  lemma {:induction false} PositionAtMost(a: seq<nat>, b: seq<nat>, i: nat) returns (p: nat)
    requires StrictlyAscending(a) && StrictlyAscending(b) && Within(a, b) && i < |a|
    ensures p < |b| && p + |a| <= |b| + i && b[p] == a[i]
    decreases |a| - i
  {
    assert a[i] in b;
    p :| 0 <= p < |b| && b[p] == a[i];
    if i + 1 < |a| {
      var q := PositionAtMost(a, b, i + 1);
    }
  }

  /** The k-th smallest of a larger set is no larger, and the k-th largest is no smaller. */
  lemma Dominated(a: seq<nat>, b: seq<nat>, i: nat)
    requires StrictlyAscending(a) && StrictlyAscending(b) && Within(a, b) && i < |a|
    ensures |a| <= |b| && b[i] <= a[i] && a[i] <= b[|b| - |a| + i]
  {
    var p := PositionAtLeast(a, b, i);
    var q := PositionAtMost(a, b, i);
    var z := PositionAtMost(a, b, 0);
  }

  // ------------------------------------------------------------ renumbering a set of nodes

  function Keys(s: seq<nat>, ord: seq<nat>): (r: seq<nat>)
    requires InRange(s, |ord|)
    ensures |r| == |s| && forall i | 0 <= i < |s| :: r[i] == ord[s[i]]
  {
    seq(|s|, i requires 0 <= i < |s| => ord[s[i]])
  }

  /** The nodes behind and ahead of the insertion, sorted, and the pooled orders they share out. */
  ghost predicate Pool(ord: seq<nat>, bwd: seq<nat>, fwd: seq<nat>, slots: seq<nat>) {
    && InRange(bwd, |ord|) && InRange(fwd, |ord|)
    && NoDup(Keys(bwd + fwd, ord))
    && SortedBy(bwd, Key(ord)) && SortedBy(fwd, Key(ord))
    && slots == Sort(Keys(bwd + fwd, ord))
  }

  ghost predicate Renumbered(ord: seq<nat>, ord': seq<nat>, nodes: seq<nat>, slots: seq<nat>) {
    && |ord'| == |ord| && InRange(nodes, |ord|) && |slots| == |nodes|
    && (forall k | 0 <= k < |nodes| :: ord'[nodes[k]] == slots[k])
    && (forall n | 0 <= n < |ord| && n !in nodes :: ord'[n] == ord[n])
  }

  lemma SortedKeysAscend(s: seq<nat>, ord: seq<nat>)
    requires InRange(s, |ord|) && SortedBy(s, Key(ord)) && NoDup(Keys(s, ord))
    ensures StrictlyAscending(Keys(s, ord))
  {
    forall i, j | 0 <= i < j < |s|
      ensures Keys(s, ord)[i] < Keys(s, ord)[j]
    {
      assert Key(ord)(s[i]) <= Key(ord)(s[j]);
    }
  }

  lemma PoolKeys(ord: seq<nat>, bwd: seq<nat>, fwd: seq<nat>, slots: seq<nat>)
    requires Pool(ord, bwd, fwd, slots)
    ensures |slots| == |bwd| + |fwd|
    ensures StrictlyAscending(slots) && StrictlyAscending(Keys(bwd, ord)) && StrictlyAscending(Keys(fwd, ord))
    ensures Within(Keys(bwd, ord), slots) && Within(Keys(fwd, ord), slots)
    ensures forall z :: z in slots <==> z in Keys(bwd + fwd, ord)
  {
    var keys := Keys(bwd + fwd, ord);
    forall k | 0 <= k < |bwd|
      ensures keys[k] == Keys(bwd, ord)[k]
    {
      assert (bwd + fwd)[k] == bwd[k];
    }
    forall k | 0 <= k < |fwd|
      ensures keys[|bwd| + k] == Keys(fwd, ord)[k]
    {
      assert (bwd + fwd)[|bwd| + k] == fwd[k];
    }
    assert NoDup(Keys(bwd, ord)) by {
      assert forall i, j | 0 <= i < j < |bwd| :: keys[i] != keys[j];
    }
    assert NoDup(Keys(fwd, ord)) by {
      forall i, j | 0 <= i < j < |fwd|
        ensures Keys(fwd, ord)[i] != Keys(fwd, ord)[j]
      {
        assert keys[|bwd| + i] != keys[|bwd| + j];
      }
    }
    SortedKeysAscend(bwd, ord);
    SortedKeysAscend(fwd, ord);
    SortCorrect(keys);
  }

  /** Every new order is some node's old order. */
  lemma SlotIsOldOrder(ord: seq<nat>, bwd: seq<nat>, fwd: seq<nat>, slots: seq<nat>, k: nat) returns (n: nat)
    requires Pool(ord, bwd, fwd, slots) && k < |slots|
    ensures n in bwd + fwd && n < |ord| && slots[k] == ord[n]
  {
    PoolKeys(ord, bwd, fwd, slots);
    assert slots[k] in Keys(bwd + fwd, ord);
    var j :| 0 <= j < |bwd + fwd| && Keys(bwd + fwd, ord)[j] == slots[k];
    n := (bwd + fwd)[j];
  }

  ghost predicate Bounded(ord: seq<nat>, nodes: seq<nat>, lo: nat, hi: nat) {
    forall n | n in nodes :: n < |ord| && lo <= ord[n] <= hi
  }

  /** A node behind moves to a slot that is not above its old order. */
  lemma BehindMovesDown(ord: seq<nat>, ord': seq<nat>, bwd: seq<nat>, fwd: seq<nat>, slots: seq<nat>, lo: nat, hi: nat,
      p: nat)
    returns (k: nat)
    requires Pool(ord, bwd, fwd, slots) && Renumbered(ord, ord', bwd + fwd, slots) && Bounded(ord, bwd + fwd, lo, hi)
    requires p in bwd
    ensures k < |bwd| && bwd[k] == p && k < |slots| && p < |ord| && lo <= ord'[p] == slots[k] <= ord[p]
  {
    PoolKeys(ord, bwd, fwd, slots);
    hide Pool, StrictlyAscending, Within;
    k :| 0 <= k < |bwd| && bwd[k] == p;
    assert (bwd + fwd)[k] == p;
    Dominated(Keys(bwd, ord), slots, k);
    var n := SlotIsOldOrder(ord, bwd, fwd, slots, k);
  }

  /** A node ahead moves to a slot that is not below its old order. */
  lemma AheadMovesUp(ord: seq<nat>, ord': seq<nat>, bwd: seq<nat>, fwd: seq<nat>, slots: seq<nat>, lo: nat, hi: nat,
      p: nat)
    returns (k: nat)
    requires Pool(ord, bwd, fwd, slots) && Renumbered(ord, ord', bwd + fwd, slots) && Bounded(ord, bwd + fwd, lo, hi)
    requires p in fwd
    ensures k < |fwd| && fwd[k] == p && |bwd| + k < |slots| && p < |ord| && ord[p] <= ord'[p] == slots[|bwd| + k] <= hi
  {
    PoolKeys(ord, bwd, fwd, slots);
    hide Pool, StrictlyAscending, Within;
    k :| 0 <= k < |fwd| && fwd[k] == p;
    assert (bwd + fwd)[|bwd| + k] == p;
    Dominated(Keys(fwd, ord), slots, k);
    var n := SlotIsOldOrder(ord, bwd, fwd, slots, |bwd| + k);
  }

  /** How the new orders of two nodes compare, by where the nodes lie. */
  lemma Moves(ord: seq<nat>, ord': seq<nat>, bwd: seq<nat>, fwd: seq<nat>, slots: seq<nat>, lo: nat, hi: nat, p: nat,
      q: nat)
    requires Pool(ord, bwd, fwd, slots) && Renumbered(ord, ord', bwd + fwd, slots) && Bounded(ord, bwd + fwd, lo, hi)
    requires p < |ord| && q < |ord|
    ensures p in bwd ==> ord'[p] <= ord[p]
    ensures q in bwd ==> lo <= ord'[q]
    ensures p in fwd ==> ord'[p] <= hi
    ensures q in fwd ==> ord[q] <= ord'[q]
    ensures p in bwd && q in fwd ==> ord'[p] < ord'[q]
    ensures p in bwd && q in bwd && ord[p] < ord[q] ==> ord'[p] < ord'[q]
    ensures p in fwd && q in fwd && ord[p] < ord[q] ==> ord'[p] < ord'[q]
  {
    PoolKeys(ord, bwd, fwd, slots);
    hide Pool, Bounded, Within;
    var bp, bq, fp, fq := 0, 0, 0, 0;
    if p in bwd { bp := BehindMovesDown(ord, ord', bwd, fwd, slots, lo, hi, p); }
    if q in bwd { bq := BehindMovesDown(ord, ord', bwd, fwd, slots, lo, hi, q); }
    if p in fwd { fp := AheadMovesUp(ord, ord', bwd, fwd, slots, lo, hi, p); }
    if q in fwd { fq := AheadMovesUp(ord, ord', bwd, fwd, slots, lo, hi, q); }
    if p in bwd && q in bwd && ord[p] < ord[q] {
      AscendingIndex(Keys(bwd, ord), bp, bq);
    }
    if p in fwd && q in fwd && ord[p] < ord[q] {
      AscendingIndex(Keys(fwd, ord), fp, fq);
    }
  }

  lemma AscendingIndex(a: seq<nat>, i: nat, j: nat)
    requires StrictlyAscending(a) && i < |a| && j < |a| && a[i] < a[j]
    ensures i < j
  {}

  // ------------------------------------------------------------ the affected region

  /** Closure of the two searches for the insertion of `x < y`. */
  ghost predicate Region(succ: Adjacency, ord: seq<nat>, x: nat, y: nat, bwd: seq<nat>, fwd: seq<nat>)
    requires x < |ord| && y < |ord|
  {
    && x in bwd && y in fwd && |succ| == |ord|
    && (forall p, q {:trigger q in succ[p]} | 0 <= p < |succ| && q in succ[p] && p in fwd ::
          q !in bwd && q < |ord| && (ord[q] <= ord[x] ==> q in fwd))
    && (forall p, q {:trigger q in succ[p]} | 0 <= p < |succ| && q in succ[p] && q in bwd :: ord[y] <= ord[p] ==>
      p in bwd)
  }

  /** Edges increase except for the one being inserted. */
  ghost predicate IncreasingExcept(succ: Adjacency, ord: seq<nat>, x: nat, y: nat) {
    && |ord| == |succ|
    && (forall p, q {:trigger q in succ[p]} | 0 <= p < |succ| && q in succ[p] ::
          q < |ord| && ((p == x && q == y) || ord[p] < ord[q]))
  }

  /** The renumbering makes every edge, including the inserted one, increase again. */
  lemma RenumberingIncreases(succ: Adjacency, ord: seq<nat>, ord': seq<nat>, x: nat, y: nat, bwd: seq<nat>,
      fwd: seq<nat>, slots: seq<nat>)
    requires x < |ord| && y < |ord| && Region(succ, ord, x, y, bwd, fwd) && Pool(ord, bwd, fwd, slots)
    requires Renumbered(ord, ord', bwd + fwd, slots) && Bounded(ord, bwd + fwd, ord[y], ord[x])
    requires IncreasingExcept(succ, ord, x, y)
    ensures Increasing(succ, ord')
  {
    hide Pool, Bounded, StrictlyAscending;
    forall p, q {:trigger q in succ[p]} | 0 <= p < |succ| && q in succ[p]
      ensures q < |ord'| && ord'[p] < ord'[q]
    {
      Moves(ord, ord', bwd, fwd, slots, ord[y], ord[x], p, q);
      assert p in bwd + fwd || ord'[p] == ord[p];
      assert q in bwd + fwd || ord'[q] == ord[q];
    }
  }

  /** A renumbered node takes the old order of a node of the pool. */
  lemma TakesOldOrder(ord: seq<nat>, ord': seq<nat>, bwd: seq<nat>, fwd: seq<nat>, slots: seq<nat>,
      i: nat) returns (k: nat, n: nat)
    requires Pool(ord, bwd, fwd, slots) && Renumbered(ord, ord', bwd + fwd, slots) && i in bwd + fwd
    ensures k < |bwd + fwd| == |slots| && (bwd + fwd)[k] == i && n in bwd + fwd && n < |ord| && i < |ord|
    ensures ord'[i] == slots[k] == ord[n]
  {
    PoolKeys(ord, bwd, fwd, slots);
    var all := bwd + fwd;
    k :| 0 <= k < |all| && all[k] == i;
    n := SlotIsOldOrder(ord, bwd, fwd, slots, k);
  }

  /** The renumbering permutes the orders it touches. */
  lemma RenumberingDistinct(rep: seq<nat>, ord: seq<nat>, ord': seq<nat>, bwd: seq<nat>, fwd: seq<nat>, slots: seq<nat>,
      next: nat)
    requires Pool(ord, bwd, fwd, slots) && Renumbered(ord, ord', bwd + fwd, slots) && Distinct(rep, ord)
    requires forall n | n in bwd + fwd :: n < |rep| && rep[n] == n
    requires forall i | 0 <= i < |rep| && rep[i] == i :: ord[i] < next
    ensures Distinct(rep, ord') && forall i | 0 <= i < |rep| && rep[i] == i :: ord'[i] < next
  {
    PoolKeys(ord, bwd, fwd, slots);
    hide Pool, Within, Keys;
    var all := bwd + fwd;
    forall i | 0 <= i < |rep| && rep[i] == i
      ensures ord'[i] < next
    {
      if i in all {
        var k, n := TakesOldOrder(ord, ord', bwd, fwd, slots, i);
      } else {
        assert ord'[i] == ord[i];
      }
    }
    forall i, j | 0 <= i < j < |rep| && rep[i] == i && rep[j] == j
      ensures ord'[i] != ord'[j]
    {
      DistinctPair(rep, ord, ord', bwd, fwd, slots, i, j);
    }
  }

  lemma DistinctPair(rep: seq<nat>, ord: seq<nat>, ord': seq<nat>, bwd: seq<nat>, fwd: seq<nat>, slots: seq<nat>,
      i: nat, j: nat)
    requires Pool(ord, bwd, fwd, slots) && Renumbered(ord, ord', bwd + fwd, slots) && Distinct(rep, ord)
    requires forall n | n in bwd + fwd :: n < |rep| && rep[n] == n
    requires i < |rep| && j < |rep| && i != j && rep[i] == i && rep[j] == j
    ensures ord'[i] != ord'[j]
  {
    PoolKeys(ord, bwd, fwd, slots);
    hide Pool, Within, Keys;
    var all := bwd + fwd;
    if i in all && j in all {
      var k, n := TakesOldOrder(ord, ord', bwd, fwd, slots, i);
      var l, m := TakesOldOrder(ord, ord', bwd, fwd, slots, j);
      assert k != l;
    } else if i in all {
      var k, n := TakesOldOrder(ord, ord', bwd, fwd, slots, i);
      assert n != j && ord[n] != ord[j];
    } else if j in all {
      var l, m := TakesOldOrder(ord, ord', bwd, fwd, slots, j);
      assert m != i && ord[m] != ord[i];
    }
  }
}
