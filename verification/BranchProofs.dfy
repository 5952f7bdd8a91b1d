/** Every view shows exactly one member of each override family: the invariant behind it, and why
  * every command keeps it.
  */
module BranchProofs {
  import opened Wrappers
  import opened Branches

  // ------------------------------------------------------------ chains

  ghost predicate ForksBelow(s: Store, h: nat) {
    forall b | b in s.branches :: s.branches[b].forkSeq <= h
  }

  ghost predicate ParentsKnown(s: Store) {
    forall b | b in s.branches && s.branches[b].parent.Some? :: s.branches[b].parent.value in s.branches
  }

  /** Ancestors are known branches, seen only up to a fork. */
  lemma {:induction false} ChainShape(s: Store, b: BranchId, limit: nat, depth: nat, h: nat)
    requires ForksBelow(s, h)
    ensures var r := ChainFrom(s, b, limit, depth);
            r.Some? ==>
              && |r.value| > 0 && r.value[0] == Link(b, limit)
              && (forall i | 0 <= i < |r.value| :: r.value[i].branch in s.branches)
              && (forall i | 0 < i < |r.value| :: r.value[i].limit <= h)
    decreases MAX_CHAIN + 1 - depth
  {
    if b in s.branches && depth < MAX_CHAIN && s.branches[b].parent.Some? {
      ChainShape(s, s.branches[b].parent.value, Min(limit, s.branches[b].forkSeq), depth + 1, h);
    }
  }

  /** Chains only read the branches below them. */
  lemma {:induction false} ChainFrame(s: Store, s': Store, b: BranchId, limit: nat, depth: nat)
    requires ParentsKnown(s) && b in s.branches
    requires forall x | x in s.branches :: x in s'.branches && s'.branches[x] == s.branches[x]
    ensures ChainFrom(s', b, limit, depth) == ChainFrom(s, b, limit, depth)
    decreases MAX_CHAIN + 1 - depth
  {
    if depth < MAX_CHAIN && s.branches[b].parent.Some? {
      ChainFrame(s, s', s.branches[b].parent.value, Min(limit, s.branches[b].forkSeq), depth + 1);
    }
  }

  ghost predicate Clipped(c: seq<Link>, c': seq<Link>, f: nat) {
    |c'| == |c| && forall i | 0 <= i < |c| :: c'[i] == Link(c[i].branch, Min(c[i].limit, f))
  }

  /** Starting the same chain at a lower limit and a greater depth clips every limit. */
  lemma {:induction false} ChainClip(s: Store, b: BranchId, limit: nat, f: nat, depth: nat)
    requires ChainFrom(s, b, Min(limit, f), depth + 1).Some?
    ensures ChainFrom(s, b, limit, depth).Some?
    ensures Clipped(ChainFrom(s, b, limit, depth).value, ChainFrom(s, b, Min(limit, f), depth + 1).value, f)
    decreases MAX_CHAIN + 1 - depth
  {
    if s.branches[b].parent.Some? {
      var fork := s.branches[b].forkSeq;
      assert Min(Min(limit, f), fork) == Min(Min(limit, fork), f);
      ChainClip(s, s.branches[b].parent.value, Min(limit, fork), f, depth + 1);
    }
  }

  lemma {:induction false} PositionFirst(chain: seq<Link>, b: BranchId)
    ensures Position(chain, b).None? <==> forall i | 0 <= i < |chain| :: chain[i].branch != b
  {
    if chain != [] {
      PositionFirst(chain[1..], b);
      assert forall i | 0 < i < |chain| :: chain[i] == chain[1..][i - 1];
    }
  }

  lemma {:induction false} PositionClipped(c: seq<Link>, c': seq<Link>, f: nat, b: BranchId)
    requires Clipped(c, c', f)
    ensures Position(c', b) == Position(c, b)
  {
    if c != [] {
      assert c'[0].branch == c[0].branch;
      assert Clipped(c[1..], c'[1..], f);
      PositionClipped(c[1..], c'[1..], f, b);
    }
  }

  // ------------------------------------------------------------ the invariant

  /** Status changes follow one another, and the current status is the last. */
  ghost predicate Linked(a: Assertion) {
    && (a.history != [] ==> a.status == a.history[|a.history| - 1].to)
    && (forall i | 0 < i < |a.history| :: a.history[i].from == a.history[i - 1].to)
  }

  /** Revisions named by assertions are registered, no later than `h`. */
  ghost predicate Dated(s: Store, h: nat) {
    && (forall id | id in s.assertions ::
          && s.assertions[id].createdRevision in s.revisionSeq
          && forall i | 0 <= i < |s.assertions[id].history| :: s.assertions[id].history[i].revision in s.revisionSeq)
    && (forall r | r in s.revisionSeq :: s.revisionSeq[r] <= h)
  }

  /** `overrides` indexes the copies by what they were copied from. */
  ghost predicate Indexed(s: Store) {
    && (forall id | id in s.assertions ::
      s.assertions[id].id == id && s.assertions[id].branch in s.branches && Linked(s.assertions[id]))
    && (forall o: AssertionId, x: AssertionId {:trigger x in OverridesOf(s, o)} | x in OverridesOf(s, o) ::
          x in s.assertions && s.assertions[x].overrides == Some(o) && o in s.assertions)
    && (forall x | x in s.assertions && s.assertions[x].overrides.Some? ::
          x in OverridesOf(s, s.assertions[x].overrides.value) && s.assertions[x].overrides.value in s.assertions)
  }

  /** `root` leads from a copy to the original of its family. */
  ghost predicate Rooted(s: Store, root: map<AssertionId, AssertionId>) {
    && root.Keys == s.assertions.Keys
    && (forall x | x in s.assertions ::
          && root[x] in s.assertions && root[root[x]] == root[x] && s.assertions[root[x]].overrides == None
          && (if s.assertions[x].overrides.None? then root[x] == x
              else s.assertions[x].overrides.value in s.assertions && root[x] == root[s.assertions[x].overrides.value])
          && (s.assertions[x].supersedes.Some? ==>
                s.assertions[x].supersedes.value in s.assertions && root[s.assertions[x].supersedes.value] != root[x]))
  }

  ghost function RangeSet(s: Store, chain: seq<Link>): set<AssertionId> {
    set m | m in s.assertions && InRange(s, chain, s.assertions[m])
  }

  ghost function ShownSet(s: Store, chain: seq<Link>): set<AssertionId> {
    set m | m in s.assertions && Shown(s, chain, s.assertions[m])
  }

  ghost function Originals(s: Store): set<AssertionId> {
    set m | m in s.assertions && s.assertions[m].overrides.None?
  }

  ghost predicate Represents(shown: set<AssertionId>, root: map<AssertionId, AssertionId>, o: AssertionId,
      m: AssertionId) {
    m in shown && m in root && root[m] == o
  }

  /** Of each family whose original is in range exactly one member is shown, and none of the others. */
  ghost predicate Exact(range: set<AssertionId>, shown: set<AssertionId>, originals: set<AssertionId>,
      root: map<AssertionId, AssertionId>) {
    && shown <= range
    && (forall m | m in range :: m in root && root[m] in range)
    && (forall o | o in originals && o in range :: exists m :: Represents(shown, root, o, m))
    && (forall o, m, n | Represents(shown, root, o, m) && Represents(shown, root, o, n) :: m == n)
  }

  ghost predicate OneShown(s: Store, chain: seq<Link>, root: map<AssertionId, AssertionId>) {
    Exact(RangeSet(s, chain), ShownSet(s, chain), Originals(s), root)
  }

  ghost predicate Families(s: Store, root: map<AssertionId, AssertionId>) {
    && Rooted(s, root)
    && forall b | b in s.branches && Chain(s, b).Some? :: OneShown(s, Chain(s, b).value, root)
  }

  /** The invariant in the middle of a commit: forks end before revision `h + 1`. */
  ghost predicate Within(s: Store, root: map<AssertionId, AssertionId>, forks: nat, h: nat) {
    ForksBelow(s, forks) && ParentsKnown(s) && Dated(s, h) && Indexed(s) && Families(s, root)
  }

  ghost predicate Inv(s: Store, root: map<AssertionId, AssertionId>) {
    Within(s, root, s.headSeq, s.headSeq)
  }

  lemma EmptyInv()
    ensures Inv(EMPTY, map[])
  {}

  // ------------------------------------------------------------ commands that change no family

  /** Nothing that decides range and overriding differs between the stores. */
  ghost predicate SameFamilies(s: Store, s': Store) {
    && s'.assertions.Keys == s.assertions.Keys && s'.overrides == s.overrides && s'.branches == s.branches
    && (forall id | id in s.assertions ::
          && s'.assertions[id].id == s.assertions[id].id
          && s'.assertions[id].branch == s.assertions[id].branch
          && s'.assertions[id].overrides == s.assertions[id].overrides
          && SeqOf(s', s'.assertions[id].createdRevision) == SeqOf(s, s.assertions[id].createdRevision))
  }

  lemma SameShown(s: Store, s': Store, chain: seq<Link>, id: AssertionId)
    requires SameFamilies(s, s') && id in s.assertions
    ensures InRange(s', chain, s'.assertions[id]) <==> InRange(s, chain, s.assertions[id])
    ensures Shown(s', chain, s'.assertions[id]) <==> Shown(s, chain, s.assertions[id])
  {
    var a, a' := s.assertions[id], s'.assertions[id];
    assert OverridesOf(s', a'.id) == OverridesOf(s, a.id);
    forall o | o in OverridesOf(s, a.id)
      ensures HiddenBy(s', chain, a', o) <==> HiddenBy(s, chain, a, o)
    {
      if o in s.assertions {
        assert InRange(s', chain, s'.assertions[o]) <==> InRange(s, chain, s.assertions[o]);
      }
    }
  }

  lemma SameOneShown(s: Store, s': Store, chain: seq<Link>)
    requires SameFamilies(s, s')
    ensures RangeSet(s', chain) == RangeSet(s, chain) && ShownSet(s', chain) == ShownSet(s, chain) &&
      Originals(s') == Originals(s)
  {
    forall id | id in s.assertions
      ensures id in RangeSet(s', chain) <==> id in RangeSet(s, chain)
      ensures id in ShownSet(s', chain) <==> id in ShownSet(s, chain)
    {
      SameShown(s, s', chain, id);
    }
  }

  lemma SameKeepsFamilies(s: Store, s': Store, root: map<AssertionId, AssertionId>)
    requires SameFamilies(s, s') && ParentsKnown(s) && Families(s, root) && Rooted(s', root)
    ensures Families(s', root)
  {
    forall b | b in s'.branches && Chain(s', b).Some?
      ensures OneShown(s', Chain(s', b).value, root)
    {
      hide Rooted, Exact, RangeSet, ShownSet, Originals;
      ChainFrame(s, s', b, U64_MAX, 0);
      SameOneShown(s, s', Chain(s, b).value);
    }
  }

  lemma SameIndexed(s: Store, s': Store)
    requires SameFamilies(s, s') && Indexed(s) && forall id | id in s'.assertions :: Linked(s'.assertions[id])
    ensures Indexed(s')
  {
    hide Linked;
    assert forall o :: OverridesOf(s', o) == OverridesOf(s, o);
    forall o: AssertionId, x: AssertionId {:trigger x in OverridesOf(s', o)} | x in OverridesOf(s', o)
      ensures x in s'.assertions && s'.assertions[x].overrides == Some(o) && o in s'.assertions
    {
      assert x in OverridesOf(s, o);
    }
  }

  /** The superseded assertion belongs to another family. */
  ghost predicate SupersedesOthers(s: Store, root: map<AssertionId, AssertionId>) {
    forall x | x in s.assertions && s.assertions[x].supersedes.Some? ::
      x in root && s.assertions[x].supersedes.value in s.assertions && s.assertions[x].supersedes.value in root
      && root[s.assertions[x].supersedes.value] != root[x]
  }

  lemma SameRooted(s: Store, s': Store, root: map<AssertionId, AssertionId>)
    requires SameFamilies(s, s') && Rooted(s, root) && SupersedesOthers(s', root)
    ensures Rooted(s', root)
  {}

  lemma RootedSupersedes(s: Store, root: map<AssertionId, AssertionId>)
    requires Rooted(s, root)
    ensures SupersedesOthers(s, root)
  {}

  lemma SameKeeps(s: Store, s': Store, root: map<AssertionId, AssertionId>, forks: nat, h: nat, h': nat)
    requires Within(s, root, forks, h) && SameFamilies(s, s') && Dated(s', h') && SupersedesOthers(s', root)
    requires forall id | id in s'.assertions :: Linked(s'.assertions[id])
    ensures Within(s', root, forks, h')
  {
    hide SameFamilies, Dated, Linked, SupersedesOthers, Indexed;
    SameIndexed(s, s');
    SameRooted(s, s', root);
    SameKeepsFamilies(s, s', root);
    SameForks(s, s', forks);
  }

  lemma SameForks(s: Store, s': Store, forks: nat)
    requires SameFamilies(s, s') && ForksBelow(s, forks) && ParentsKnown(s)
    ensures ForksBelow(s', forks) && ParentsKnown(s')
  {}

  lemma RegisterKeeps(s: Store, root: map<AssertionId, AssertionId>, rev: RevisionId)
    requires Inv(s, root) && rev !in s.revisionSeq
    ensures Within(Register(s, rev), root, s.headSeq, s.headSeq + 1)
  {
    hide Families, Rooted;
    assert SupersedesOthers(s, root) by { FamiliesRooted(s, root); RootedSupersedes(s, root); }
    SameKeeps(s, Register(s, rev), root, s.headSeq, s.headSeq, s.headSeq + 1);
  }

  lemma FamiliesRooted(s: Store, root: map<AssertionId, AssertionId>)
    requires Families(s, root)
    ensures Rooted(s, root)
  {}

  lemma ChangeLinked(a: Assertion, change: StatusChange)
    requires Linked(a) && change.from == a.status
    ensures Linked(a.(status := change.to, history := a.history + [change]))
  {}

  lemma ChangeDated(s: Store, h: nat, id: AssertionId, change: StatusChange)
    requires Dated(s, h) && change.revision in s.revisionSeq && id in s.assertions
    ensures Dated(Apply(s, ChangeStatus(id, change)), h)
  {}

  lemma ChangeSame(s: Store, h: nat, id: AssertionId, change: StatusChange)
    requires Dated(s, h) && change.revision in s.revisionSeq && id in s.assertions &&
      change.from == s.assertions[id].status
    requires forall x | x in s.assertions :: Linked(s.assertions[x])
    ensures var s' := Apply(s, ChangeStatus(id, change));
            SameFamilies(s, s') && Dated(s', h) && forall x | x in s'.assertions :: Linked(s'.assertions[x])
  {
    hide Linked, Dated;
    ChangeLinked(s.assertions[id], change);
    ChangeDated(s, h, id, change);
  }

  lemma IndexedLinked(s: Store)
    requires Indexed(s)
    ensures forall x | x in s.assertions :: Linked(s.assertions[x])
  {}

  lemma ChangeKeeps(s: Store, root: map<AssertionId, AssertionId>, forks: nat, h: nat, id: AssertionId,
      change: StatusChange)
    requires Within(s, root, forks, h) && change.revision in s.revisionSeq
    requires id in s.assertions && change.from == s.assertions[id].status
    ensures Within(Apply(s, ChangeStatus(id, change)), root, forks, h)
  {
    hide Families, Rooted, Indexed, Dated, Linked, SameFamilies, SupersedesOthers, ForksBelow, ParentsKnown, Apply;
    IndexedLinked(s);
    ChangeSame(s, h, id, change);
    FamiliesRooted(s, root);
    RootedSupersedes(s, root);
    ChangeSupersedes(s, root, id, change);
    SameKeeps(s, Apply(s, ChangeStatus(id, change)), root, forks, h, h);
  }

  lemma ChangeSupersedes(s: Store, root: map<AssertionId, AssertionId>, id: AssertionId, change: StatusChange)
    requires SupersedesOthers(s, root)
    ensures SupersedesOthers(Apply(s, ChangeStatus(id, change)), root)
  {}

  lemma LinkSame(s: Store, h: nat, o: AssertionId, n: AssertionId)
    requires Dated(s, h) && o in s.assertions && n in s.assertions
    requires forall x | x in s.assertions :: Linked(s.assertions[x])
    ensures var s' := Apply(s, LinkSupersede(o, n));
            SameFamilies(s, s') && Dated(s', h) && forall x | x in s'.assertions :: Linked(s'.assertions[x])
  {
    var s' := Apply(s, LinkSupersede(o, n));
    assert Linked(s.assertions[n]);
    assert Linked(s'.assertions[n]);
  }

  lemma LinkKeeps(s: Store, root: map<AssertionId, AssertionId>, forks: nat, h: nat, o: AssertionId, n: AssertionId)
    requires Within(s, root, forks, h) && o in s.assertions && n in s.assertions && o in root && n in root &&
      root[o] != root[n]
    ensures Within(Apply(s, LinkSupersede(o, n)), root, forks, h)
  {
    hide Families, Rooted, Indexed, Dated, Linked, SameFamilies, SupersedesOthers, ForksBelow, ParentsKnown, Apply;
    IndexedLinked(s);
    LinkSame(s, h, o, n);
    FamiliesRooted(s, root);
    RootedSupersedes(s, root);
    LinkSupersedes(s, root, o, n);
    SameKeeps(s, Apply(s, LinkSupersede(o, n)), root, forks, h, h);
  }

  lemma LinkSupersedes(s: Store, root: map<AssertionId, AssertionId>, o: AssertionId, n: AssertionId)
    requires SupersedesOthers(s, root) && o in s.assertions && n in s.assertions && o in root && n in root &&
      root[o] != root[n]
    ensures SupersedesOthers(Apply(s, LinkSupersede(o, n)), root)
  {}

  // ------------------------------------------------------------ new members

  /** A revision later than every fork is in range only in its own branch. */
  lemma OnlyOwnBranch(s: Store, b: BranchId, chain: seq<Link>, a: Assertion, forks: nat)
    requires ForksBelow(s, forks) && Chain(s, b) == Some(chain)
    requires forks < SeqOf(s, a.createdRevision) <= U64_MAX
    ensures InRange(s, chain, a) <==> a.branch == b
    ensures Position(chain, b) == Some(0)
  {
    ChainShape(s, b, U64_MAX, 0, forks);
    PositionFirst(chain, a.branch);
    if Position(chain, a.branch).Some? {
      var p := Position(chain, a.branch).value;
      assert p == 0 || chain[p].limit <= forks;
    }
  }

  ghost predicate Addable(s: Store, a: Assertion, forks: nat) {
    && a.id !in s.assertions && a.branch in s.branches && Linked(a)
    && a.createdRevision in s.revisionSeq && forks < SeqOf(s, a.createdRevision) <= U64_MAX
    && (forall i | 0 <= i < |a.history| :: a.history[i].revision in s.revisionSeq)
  }

  /** An assertion that the view does not reach changes nothing. */
  lemma AddUnseen(range: set<AssertionId>, shown: set<AssertionId>, originals: set<AssertionId>,
      root: map<AssertionId, AssertionId>,
      id: AssertionId, f: AssertionId)
    requires Exact(range, shown, originals, root) && id !in root
    ensures Exact(range, shown, originals, root[id := f]) && Exact(range, shown, originals + {id}, root[id := f])
  {
    var root' := root[id := f];
    forall o, m
      ensures Represents(shown, root', o, m) <==> Represents(shown, root, o, m)
    {}
  }

  /** A new original is the one shown member of its family. */
  lemma AddShown(range: set<AssertionId>, shown: set<AssertionId>, originals: set<AssertionId>,
      root: map<AssertionId, AssertionId>,
      id: AssertionId)
    requires Exact(range, shown, originals, root) && id !in root && forall m | m in root :: root[m] != id
    ensures Exact(range + {id}, shown + {id}, originals + {id}, root[id := id])
  {
    var root', shown' := root[id := id], shown + {id};
    forall o, m
      ensures Represents(shown', root', o, m) <==> Represents(shown, root, o, m) || (m == id && o == id)
    {}
    forall o | o in originals + {id} && o in range + {id}
      ensures exists m :: Represents(shown', root', o, m)
    {
      if o == id {
        assert Represents(shown', root', o, id);
      } else {
        var m :| Represents(shown, root, o, m);
        assert Represents(shown', root', o, m);
      }
    }
  }

  /** A copy takes the place of the member it hides. */
  lemma AddHiding(range: set<AssertionId>, shown: set<AssertionId>, originals: set<AssertionId>,
      root: map<AssertionId, AssertionId>,
      id: AssertionId, h: AssertionId)
    requires Exact(range, shown, originals, root) && id !in root && h in shown && h in root && id !in originals
    ensures Exact(range + {id}, shown - {h} + {id}, originals, root[id := root[h]])
  {
    var root', shown' := root[id := root[h]], shown - {h} + {id};
    assert Represents(shown, root, root[h], h);
    forall o, m
      ensures Represents(shown', root', o, m) <==>
        (Represents(shown, root, o, m) && m != h) || (m == id && o == root[h])
    {}
    forall o | o in originals && o in range + {id}
      ensures exists m :: Represents(shown', root', o, m)
    {
      var m :| Represents(shown, root, o, m);
      if m == h {
        assert Represents(shown', root', o, id);
      } else {
        assert Represents(shown', root', o, m);
      }
    }
  }

  lemma RootedKeys(s: Store, root: map<AssertionId, AssertionId>)
    requires Rooted(s, root)
    ensures root.Keys == s.assertions.Keys && forall m | m in root :: root[m] in root
  {}

  lemma OriginalSets(s: Store, forks: nat, a: Assertion, b: BranchId)
    requires ForksBelow(s, forks) && Indexed(s) && Addable(s, a, forks) && a.overrides.None?
    requires b in s.branches && Chain(s, b).Some?
    ensures var s', chain, new_ := Apply(s, AddAssertion(a)), Chain(s, b).value, if a.branch == b then {a.id} else {};
            && RangeSet(s', chain) == RangeSet(s, chain) + new_
            && ShownSet(s', chain) == ShownSet(s, chain) + new_
            && Originals(s') == Originals(s) + {a.id}
  {
    var s', chain := Apply(s, AddAssertion(a)), Chain(s, b).value;
    OnlyOwnBranch(s, b, chain, a, forks);
    assert OverridesOf(s', a.id) == OverridesOf(s, a.id);
    assert forall x: AssertionId | x in OverridesOf(s, a.id) :: false;
    forall m | m in s.assertions
      ensures m in RangeSet(s', chain) <==> m in RangeSet(s, chain)
      ensures m in ShownSet(s', chain) <==> m in ShownSet(s, chain)
    {
      AddedElsewhere(s, s', chain, a, m);
    }
  }

  /** An assertion that is not copied keeps its place when another one is added. */
  lemma AddedElsewhere(s: Store, s': Store, chain: seq<Link>, a: Assertion, m: AssertionId)
    requires Indexed(s) && a.id !in s.assertions && s' == Apply(s, AddAssertion(a)) && m in s.assertions
    requires a.overrides != Some(m) || !InRange(s, chain, a)
    ensures InRange(s', chain, s'.assertions[m]) <==> InRange(s, chain, s.assertions[m])
    ensures Shown(s', chain, s'.assertions[m]) <==> Shown(s, chain, s.assertions[m])
  {
    assert s'.assertions[m] == s.assertions[m];
    forall o | o in OverridesOf(s, m)
      ensures o in OverridesOf(s', m) &&
        (HiddenBy(s', chain, s.assertions[m], o) <==> HiddenBy(s, chain, s.assertions[m], o))
    {
      assert o in s.assertions && s'.assertions[o] == s.assertions[o];
    }
    forall o | o in OverridesOf(s', m)
      ensures o in OverridesOf(s, m) || (o == a.id && !HiddenBy(s', chain, s.assertions[m], o))
    {}
  }

  lemma AddIndexed(s: Store, a: Assertion, forks: nat)
    requires Indexed(s) && Addable(s, a, forks) && (a.overrides.Some? ==> a.overrides.value in s.assertions)
    ensures Indexed(Apply(s, AddAssertion(a)))
  {
    var s' := Apply(s, AddAssertion(a));
    hide Linked;
    assert forall x: AssertionId | x in OverridesOf(s, a.id) :: false;
    forall o: AssertionId, x: AssertionId {:trigger x in OverridesOf(s', o)}
      ensures x in OverridesOf(s', o) <==> x in OverridesOf(s, o) || (x == a.id && a.overrides == Some(o))
    {}
  }

  lemma AddDated(s: Store, a: Assertion, forks: nat, h: nat)
    requires Dated(s, h) && Addable(s, a, forks)
    ensures Dated(Apply(s, AddAssertion(a)), h)
  {}

  lemma OriginalKeeps(s: Store, root: map<AssertionId, AssertionId>, forks: nat, h: nat, a: Assertion)
    requires Within(s, root, forks, h) && Addable(s, a, forks) && a.overrides.None? &&
      (a.supersedes.Some? ==> a.supersedes.value in s.assertions)
    ensures Within(Apply(s, AddAssertion(a)), root[a.id := a.id], forks, h)
  {
    hide Families, Rooted, Indexed, Dated, Addable, ForksBelow, ParentsKnown, Apply;
    AddIndexed(s, a, forks);
    AddDated(s, a, forks, h);
    ParentsKept(s, a, forks);
    FamiliesRooted(s, root);
    OriginalFamilies(s, root, forks, a);
  }

  lemma OriginalRooted(s: Store, root: map<AssertionId, AssertionId>, a: Assertion)
    requires Rooted(s, root) && a.id !in s.assertions && a.overrides.None? &&
      (a.supersedes.Some? ==> a.supersedes.value in s.assertions)
    ensures Rooted(Apply(s, AddAssertion(a)), root[a.id := a.id])
  {}

  lemma OriginalFamilies(s: Store, root: map<AssertionId, AssertionId>, forks: nat, a: Assertion)
    requires Families(s, root) && Indexed(s) && ForksBelow(s, forks) && ParentsKnown(s)
    requires Addable(s, a, forks) && a.overrides.None? && (a.supersedes.Some? ==> a.supersedes.value in s.assertions)
    ensures Families(Apply(s, AddAssertion(a)), root[a.id := a.id])
  {
    hide Rooted, Indexed, ForksBelow, ParentsKnown;
    var s', root' := Apply(s, AddAssertion(a)), root[a.id := a.id];
    OriginalRooted(s, root, a);
    forall b | b in s'.branches && Chain(s', b).Some?
      ensures OneShown(s', Chain(s', b).value, root')
    {
      OriginalOneShown(s, root, forks, a, b);
    }
  }

  /** A new assertion leaves every branch chain as it was. */
  lemma ChainKept(s: Store, a: Assertion, b: BranchId)
    requires ParentsKnown(s) && b in s.branches
    ensures Chain(Apply(s, AddAssertion(a)), b) == Chain(s, b)
  {
    ChainFrame(s, Apply(s, AddAssertion(a)), b, U64_MAX, 0);
  }

  lemma FamiliesOneShown(s: Store, root: map<AssertionId, AssertionId>, b: BranchId)
    requires Families(s, root) && b in s.branches && Chain(s, b).Some?
    ensures Exact(RangeSet(s, Chain(s, b).value), ShownSet(s, Chain(s, b).value), Originals(s), root)
    ensures root.Keys == s.assertions.Keys && forall m | m in root :: root[m] in root
  {
    hide Exact, RangeSet, ShownSet, Originals;
    RootedKeys(s, root);
  }

  lemma OriginalOneShown(s: Store, root: map<AssertionId, AssertionId>, forks: nat, a: Assertion, b: BranchId)
    requires Families(s, root) && Indexed(s) && ForksBelow(s, forks) && ParentsKnown(s) && b in s.branches
    requires Addable(s, a, forks) && a.overrides.None? &&
      (a.supersedes.Some? ==> a.supersedes.value in s.assertions) && Chain(Apply(s, AddAssertion(a)), b).Some?
    ensures OneShown(Apply(s, AddAssertion(a)), Chain(Apply(s, AddAssertion(a)), b).value, root[a.id := a.id])
  {
    hide Families, Indexed, Exact, RangeSet, ShownSet, Originals, Chain, ForksBelow, ParentsKnown, Apply;
    ChainKept(s, a, b);
    FamiliesOneShown(s, root, b);
    var range, shown := RangeSet(s, Chain(s, b).value), ShownSet(s, Chain(s, b).value);
    OriginalSets(s, forks, a, b);
    if a.branch == b {
      AddShown(range, shown, Originals(s), root, a.id);
    } else {
      AddUnseen(range, shown, Originals(s), root, a.id, a.id);
      assert range + {} == range && shown + {} == shown;
    }
  }

  lemma ParentsKept(s: Store, a: Assertion, forks: nat)
    requires ForksBelow(s, forks) && ParentsKnown(s)
    ensures ForksBelow(Apply(s, AddAssertion(a)), forks) && ParentsKnown(Apply(s, AddAssertion(a)))
  {}

  // ------------------------------------------------------------ copies

  /** A copy of the member `h` that the view of its new branch shows. */
  ghost predicate Copies(s: Store, a: Assertion, h: AssertionId) {
    && h in s.assertions && a.overrides == Some(h) && a.branch != s.assertions[h].branch
    && a.supersedes == s.assertions[h].supersedes
    && Chain(s, a.branch).Some? && Shown(s, Chain(s, a.branch).value, s.assertions[h])
  }

  lemma CopySetsElsewhere(s: Store, forks: nat, a: Assertion, h: AssertionId, b: BranchId)
    requires ForksBelow(s, forks) && Indexed(s) && Addable(s, a, forks) && Copies(s, a, h)
    requires b in s.branches && Chain(s, b).Some? && b != a.branch
    ensures var s', chain := Apply(s, AddAssertion(a)), Chain(s, b).value;
            RangeSet(s', chain) == RangeSet(s, chain) && ShownSet(s', chain) == ShownSet(s, chain) &&
              Originals(s') == Originals(s)
  {
    var s', chain := Apply(s, AddAssertion(a)), Chain(s, b).value;
    OnlyOwnBranch(s, b, chain, a, forks);
    forall m | m in s.assertions
      ensures m in RangeSet(s', chain) <==> m in RangeSet(s, chain)
      ensures m in ShownSet(s', chain) <==> m in ShownSet(s, chain)
    {
      hide Indexed, Shown, ForksBelow, Chain;
      AddedElsewhere(s, s', chain, a, m);
    }
  }

  /** In its own branch the copy is shown and hides what it was copied from. */
  lemma CopyHides(s: Store, forks: nat, a: Assertion, h: AssertionId)
    requires ForksBelow(s, forks) && Indexed(s) && Addable(s, a, forks) && Copies(s, a, h)
    ensures var s', chain := Apply(s, AddAssertion(a)), Chain(s, a.branch).value;
            && InRange(s', chain, s'.assertions[h]) && !Shown(s', chain, s'.assertions[h])
            && InRange(s', chain, a) && Shown(s', chain, a)
  {
    var s', chain := Apply(s, AddAssertion(a)), Chain(s, a.branch).value;
    OnlyOwnBranch(s, a.branch, chain, a, forks);
    assert forall x: AssertionId | x in OverridesOf(s', a.id) :: x in OverridesOf(s, a.id);
    assert a.id in OverridesOf(s', h);
    assert HiddenBy(s', chain, s'.assertions[h], a.id);
  }

  lemma CopySetsHere(s: Store, forks: nat, a: Assertion, h: AssertionId)
    requires ForksBelow(s, forks) && Indexed(s) && Addable(s, a, forks) && Copies(s, a, h)
    ensures var s', chain := Apply(s, AddAssertion(a)), Chain(s, a.branch).value;
            && h in ShownSet(s, chain)
            && RangeSet(s', chain) == RangeSet(s, chain) + {a.id}
            && ShownSet(s', chain) == ShownSet(s, chain) - {h} + {a.id}
            && Originals(s') == Originals(s)
  {
    var s', chain := Apply(s, AddAssertion(a)), Chain(s, a.branch).value;
    CopyHides(s, forks, a, h);
    assert h != a.id;
    forall m | m in s.assertions && m != h
      ensures m in RangeSet(s', chain) <==> m in RangeSet(s, chain)
      ensures m in ShownSet(s', chain) <==> m in ShownSet(s, chain)
    {
      hide Indexed, Shown, ForksBelow, Chain;
      AddedElsewhere(s, s', chain, a, m);
    }
  }

  lemma CopyRooted(s: Store, root: map<AssertionId, AssertionId>, a: Assertion, h: AssertionId)
    requires Rooted(s, root) && a.id !in s.assertions && Copies(s, a, h)
    ensures Rooted(Apply(s, AddAssertion(a)), root[a.id := root[h]])
  {
    hide Shown, Chain;
  }

  lemma CopyOneShown(s: Store, root: map<AssertionId, AssertionId>, forks: nat, a: Assertion, h: AssertionId,
      b: BranchId)
    requires Families(s, root) && Indexed(s) && ForksBelow(s, forks) && ParentsKnown(s) && b in s.branches
    requires Addable(s, a, forks) && Copies(s, a, h) && h in root && Chain(Apply(s, AddAssertion(a)), b).Some?
    ensures OneShown(Apply(s, AddAssertion(a)), Chain(Apply(s, AddAssertion(a)), b).value, root[a.id := root[h]])
  {
    hide Families, Indexed, Exact, RangeSet, ShownSet, Originals, Chain, ForksBelow, ParentsKnown, Apply, Shown,
      Addable;
    ChainKept(s, a, b);
    FamiliesOneShown(s, root, b);
    assert a.id !in s.assertions by { AddableNew(s, a, forks); }
    var range, shown := RangeSet(s, Chain(s, b).value), ShownSet(s, Chain(s, b).value);
    if a.branch == b {
      CopySetsHere(s, forks, a, h);
      OriginalsKnown(s);
      AddHiding(range, shown, Originals(s), root, a.id, h);
    } else {
      CopySetsElsewhere(s, forks, a, h, b);
      AddUnseen(range, shown, Originals(s), root, a.id, root[h]);
    }
  }

  lemma AddableNew(s: Store, a: Assertion, forks: nat)
    requires Addable(s, a, forks)
    ensures a.id !in s.assertions
  {}

  lemma OriginalsKnown(s: Store)
    ensures Originals(s) <= s.assertions.Keys
  {}

  lemma CopyFamilies(s: Store, root: map<AssertionId, AssertionId>, forks: nat, a: Assertion, h: AssertionId)
    requires Families(s, root) && Indexed(s) && ForksBelow(s, forks) && ParentsKnown(s)
    requires Addable(s, a, forks) && Copies(s, a, h) && h in root
    ensures Families(Apply(s, AddAssertion(a)), root[a.id := root[h]])
  {
    hide Rooted, Indexed, ForksBelow, ParentsKnown, Copies;
    var s', root' := Apply(s, AddAssertion(a)), root[a.id := root[h]];
    CopyRooted(s, root, a, h);
    forall b | b in s'.branches && Chain(s', b).Some?
      ensures OneShown(s', Chain(s', b).value, root')
    {
      CopyOneShown(s, root, forks, a, h, b);
    }
  }

  lemma CopyKeeps(s: Store, root: map<AssertionId, AssertionId>, forks: nat, h: nat, a: Assertion, m: AssertionId)
    requires Within(s, root, forks, h) && Addable(s, a, forks) && Copies(s, a, m) && m in root
    ensures Within(Apply(s, AddAssertion(a)), root[a.id := root[m]], forks, h)
  {
    hide Families, Rooted, Indexed, Dated, Addable, ForksBelow, ParentsKnown, Apply, Shown, Chain;
    AddIndexed(s, a, forks);
    AddDated(s, a, forks, h);
    ParentsKept(s, a, forks);
    CopyFamilies(s, root, forks, a, m);
  }

  // ------------------------------------------------------------ new branches

  /** A new branch sees what its parent saw at the fork: everything. */
  lemma BranchChain(s: Store, br: Branch)
    requires ParentsKnown(s) && br.id !in s.branches && br.parent.Some? && br.parent.value in s.branches
    requires Chain(Apply(s, CreateBranch(br)), br.id).Some? && br.forkSeq <= U64_MAX
    ensures Chain(s, br.parent.value).Some?
    ensures var c := Chain(Apply(s, CreateBranch(br)), br.id).value;
            |c| > 0 && c[0] == Link(br.id, U64_MAX) && Clipped(Chain(s, br.parent.value).value, c[1..], br.forkSeq)
  {
    var s', p := Apply(s, CreateBranch(br)), br.parent.value;
    var rest := ChainFrom(s', p, Min(U64_MAX, br.forkSeq), 1);
    assert rest.Some?;
    ChainClip(s', p, U64_MAX, br.forkSeq, 0);
    ChainFrame(s, s', p, U64_MAX, 0);
    assert Chain(s', br.id).value[1..] == rest.value;
  }

  /** Old assertions lie in the new view exactly where they lie in the parent's. */
  lemma BranchRange(s: Store, s': Store, parent: seq<Link>, chain: seq<Link>, id: BranchId, f: nat, a: Assertion)
    requires |chain| > 0 && chain[0].branch == id && Clipped(parent, chain[1..], f)
    requires a.branch != id && SeqOf(s, a.createdRevision) <= f && s'.revisionSeq == s.revisionSeq
    ensures InRange(s', chain, a) <==> InRange(s, parent, a)
    ensures Position(chain, a.branch) ==
      (if Position(parent, a.branch).None? then None else Some(Position(parent, a.branch).value + 1))
  {
    PositionClipped(parent, chain[1..], f, a.branch);
  }

  lemma BranchSets(s: Store, s': Store, parent: seq<Link>, chain: seq<Link>, id: BranchId, f: nat)
    requires |chain| > 0 && chain[0].branch == id && Clipped(parent, chain[1..], f)
    requires Indexed(s) && s'.assertions == s.assertions && s'.overrides == s.overrides &&
      s'.revisionSeq == s.revisionSeq
    requires forall m | m in s.assertions ::
      s.assertions[m].branch != id && SeqOf(s, s.assertions[m].createdRevision) <= f
    ensures RangeSet(s', chain) == RangeSet(s, parent) && ShownSet(s', chain) == ShownSet(s, parent)
  {
    forall m | m in s.assertions
      ensures InRange(s', chain, s.assertions[m]) <==> InRange(s, parent, s.assertions[m])
      ensures Shown(s', chain, s.assertions[m]) <==> Shown(s, parent, s.assertions[m])
    {
      hide Clipped, InRange, Position, Indexed;
      BranchRange(s, s', parent, chain, id, f, s.assertions[m]);
      assert OverridesOf(s', s.assertions[m].id) == OverridesOf(s, s.assertions[m].id);
      forall o | o in s.assertions
        ensures HiddenBy(s', chain, s.assertions[m], o) <==> HiddenBy(s, parent, s.assertions[m], o)
      {
        BranchRange(s, s', parent, chain, id, f, s.assertions[o]);
        RangePosition(s, parent, s.assertions[o]);
      }
    }
  }

  lemma RangePosition(s: Store, chain: seq<Link>, a: Assertion)
    ensures InRange(s, chain, a) ==> Position(chain, a.branch).Some?
  {}

  /** Range and overriding do not read the branch table. */
  lemma BranchesUnread(s: Store, br: Branch, chain: seq<Link>)
    ensures var s' := Apply(s, CreateBranch(br));
            RangeSet(s', chain) == RangeSet(s, chain) && ShownSet(s', chain) == ShownSet(s, chain) &&
              Originals(s') == Originals(s)
  {
    var s' := Apply(s, CreateBranch(br));
    forall a: Assertion
      ensures Shown(s', chain, a) <==> Shown(s, chain, a)
    {
      assert forall o :: HiddenBy(s', chain, a, o) <==> HiddenBy(s, chain, a, o);
    }
  }

  /** All assertions were made at or before revision `f`. */
  ghost predicate MadeBy(s: Store, f: nat) {
    forall m | m in s.assertions :: SeqOf(s, s.assertions[m].createdRevision) <= f
  }

  lemma BranchOneShown(s: Store, root: map<AssertionId, AssertionId>, br: Branch, b: BranchId)
    requires Families(s, root) && Indexed(s) && ParentsKnown(s) && MadeBy(s, br.forkSeq) && br.forkSeq <= U64_MAX
    requires br.id !in s.branches && br.parent.Some? && br.parent.value in s.branches
    requires (b == br.id || b in s.branches) && Chain(Apply(s, CreateBranch(br)), b).Some?
    ensures OneShown(Apply(s, CreateBranch(br)), Chain(Apply(s, CreateBranch(br)), b).value, root)
  {
    hide Families, Exact, RangeSet, ShownSet, Originals, ChainFrom;
    var s' := Apply(s, CreateBranch(br));
    if b == br.id {
      BranchChain(s, br);
      FamiliesOneShown(s, root, br.parent.value);
      BranchSets(s, s', Chain(s, br.parent.value).value, Chain(s', b).value, b, br.forkSeq);
      assert Originals(s') == Originals(s) by { BranchesUnread(s, br, []); }
    } else {
      ChainFrame(s, s', b, U64_MAX, 0);
      FamiliesOneShown(s, root, b);
      BranchesUnread(s, br, Chain(s, b).value);
    }
  }

  lemma CreateIndexed(s: Store, br: Branch)
    requires Indexed(s)
    ensures Indexed(Apply(s, CreateBranch(br)))
  {
    hide Linked;
    var s' := Apply(s, CreateBranch(br));
    forall o: AssertionId, x: AssertionId {:trigger x in OverridesOf(s', o)}
      ensures x in OverridesOf(s', o) <==> x in OverridesOf(s, o)
    {}
  }

  lemma CreateFrame(s: Store, root: map<AssertionId, AssertionId>, f: nat, h: nat, br: Branch)
    requires ForksBelow(s, f) && ParentsKnown(s) && Dated(s, h) && Rooted(s, root)
    requires br.forkSeq == f && br.id !in s.branches && br.parent.Some? && br.parent.value in s.branches
    ensures var s' := Apply(s, CreateBranch(br));
            ForksBelow(s', f) && ParentsKnown(s') && Dated(s', h) && Rooted(s', root)
  {}

  lemma CreateKeeps(s: Store, root: map<AssertionId, AssertionId>, f: nat, h: nat, br: Branch)
    requires Within(s, root, f, h) && MadeBy(s, f) && br.forkSeq == f && f <= U64_MAX
    requires br.id !in s.branches && br.parent.Some? && br.parent.value in s.branches
    ensures Within(Apply(s, CreateBranch(br)), root, f, h)
  {
    hide Rooted, Indexed, Dated, ForksBelow, ParentsKnown, MadeBy;
    CreateFrame(s, root, f, h, br);
    CreateIndexed(s, br);
    var s' := Apply(s, CreateBranch(br));
    forall b | b in s'.branches && Chain(s', b).Some?
      ensures OneShown(s', Chain(s', b).value, root)
    {
      BranchOneShown(s, root, br, b);
    }
  }
}
