/** A branch view does not notice what other branches do: the status it gives to every assertion
  * stays the same, and new assertions stay out of it.
  */
module BranchIsolation {
  import opened Wrappers
  import opened Branches
  import opened BranchProofs

  /** A view of branch `b` that is not limited to what was known at some time. */
  ghost predicate Sees(s: Store, b: BranchId, view: View) {
    b in s.branches && Chain(s, b) == Some(view.chain) && view.asKnownAt.None?
  }

  ghost predicate SameStatus(s: Store, s': Store, view: View, id: AssertionId) {
    && id in s.assertions && id in s'.assertions
    && EffectiveStatus(s', s'.assertions[id], view) == EffectiveStatus(s, s.assertions[id], view)
  }

  ghost predicate Invisible(s: Store, view: View, id: AssertionId) {
    id in s.assertions && EffectiveStatus(s, s.assertions[id], view) == None
  }

  ghost predicate Unnoticed(s: Store, s': Store, view: View) {
    && (forall id | id in s.assertions :: SameStatus(s, s', view, id))
    && (forall id | id in s'.assertions && id !in s.assertions :: Invisible(s', view, id))
  }

  /** No view of a branch other than `written` notices the step from `s` to `s'`. */
  ghost predicate Isolates(s: Store, s': Store, written: Option<BranchId>) {
    forall b: BranchId, view: View | Sees(s, b, view) && written != Some(b) ::
      Sees(s', b, view) && Unnoticed(s, s', view)
  }

  lemma IsolatesTransitive(s: Store, t: Store, u: Store, written: Option<BranchId>)
    requires Isolates(s, t, written) && Isolates(t, u, written)
    ensures Isolates(s, u, written)
  {
    forall b: BranchId, view: View | Sees(s, b, view) && written != Some(b)
      ensures Sees(u, b, view) && Unnoticed(s, u, view)
    {
      hide Sees, EffectiveStatus;
      assert Sees(t, b, view) && Sees(u, b, view);
      forall id | id in s.assertions ensures SameStatus(s, u, view, id) {
        assert SameStatus(s, t, view, id) && SameStatus(t, u, view, id);
      }
      forall id | id in u.assertions && id !in s.assertions ensures Invisible(u, view, id) {
        if id in t.assertions {
          assert Invisible(t, view, id) && SameStatus(t, u, view, id);
        }
      }
    }
  }

  // ------------------------------------------------------------ replay

  lemma {:induction false} ReplayFrame(s: Store, s': Store, history: seq<StatusChange>, limit: nat, known: Option<int>,
      st: Status)
    requires forall i | 0 <= i < |history| :: SeqOf(s', history[i].revision) == SeqOf(s, history[i].revision)
    ensures Replay(s', history, limit, known, st) == Replay(s, history, limit, known, st)
  {
    if history != [] {
      ReplayFrame(s, s', history[..|history| - 1], limit, known, st);
    }
  }

  lemma ReplayIgnores(s: Store, history: seq<StatusChange>, change: StatusChange, limit: nat, known: Option<int>,
      st: Status)
    requires SeqOf(s, change.revision) > limit
    ensures Replay(s, history + [change], limit, known, st) == Replay(s, history, limit, known, st)
  {
    assert (history + [change])[..|history|] == history;
  }

  // ------------------------------------------------------------ one command

  lemma SameStatusStep(s: Store, s': Store, view: View, id: AssertionId)
    requires id in s.assertions && id in s'.assertions && view.asKnownAt.None?
    requires Shown(s', view.chain, s'.assertions[id]) <==> Shown(s, view.chain, s.assertions[id])
    requires s'.assertions[id].branch == s.assertions[id].branch &&
      s'.assertions[id].visibility == s.assertions[id].visibility
    requires s'.assertions[id].canon == s.assertions[id].canon &&
      s'.assertions[id].timeline == s.assertions[id].timeline
    requires Shown(s, view.chain, s.assertions[id]) ==>
      var limit := view.chain[Position(view.chain, s.assertions[id].branch).value].limit;
      Replay(s', s'.assertions[id].history, limit, None, Initial(s'.assertions[id]))
      == Replay(s, s.assertions[id].history, limit, None, Initial(s.assertions[id]))
    ensures SameStatus(s, s', view, id)
  {}

  lemma ForeignLimit(s: Store, b: BranchId, chain: seq<Link>, other: BranchId, f: nat)
    requires ForksBelow(s, f) && Chain(s, b) == Some(chain) && other != b && Position(chain, other).Some?
    ensures chain[Position(chain, other).value].limit <= f
  {
    ChainShape(s, b, U64_MAX, 0, f);
  }

  lemma ChangeUnnoticed(s: Store, f: nat, b: BranchId, view: View, id: AssertionId, change: StatusChange)
    requires ForksBelow(s, f) && Sees(s, b, view) && id in s.assertions && s.assertions[id].branch != b
    requires change.from == s.assertions[id].status && SeqOf(s, change.revision) > f
    ensures Unnoticed(s, Apply(s, ChangeStatus(id, change)), view)
  {
    var s' := Apply(s, ChangeStatus(id, change));
    assert SameFamilies(s, s');
    forall x | x in s.assertions
      ensures SameStatus(s, s', view, x)
    {
      hide SameFamilies, Shown, SameStatus, ForksBelow, Chain;
      SameShown(s, s', view.chain, x);
      var a := s.assertions[x];
      if Position(view.chain, a.branch).Some? {
        var limit := view.chain[Position(view.chain, a.branch).value].limit;
        ReplayFrame(s, s', s'.assertions[x].history, limit, None, Initial(a));
        if x == id {
          ForeignLimit(s, b, view.chain, a.branch, f);
          ReplayIgnores(s, a.history, change, limit, None, Initial(a));
        }
      }
      ShownPosition(s, view.chain, a);
      SameStatusStep(s, s', view, x);
    }
  }

  lemma ShownPosition(s: Store, chain: seq<Link>, a: Assertion)
    ensures Shown(s, chain, a) ==> Position(chain, a.branch).Some?
  {}

  lemma SameHistoryUnnoticed(s: Store, s': Store, view: View, x: AssertionId)
    requires x in s.assertions && x in s'.assertions && view.asKnownAt.None?
    requires s'.assertions[x] == s.assertions[x].(supersedes := s'.assertions[x].supersedes)
    requires Shown(s', view.chain, s'.assertions[x]) <==> Shown(s, view.chain, s.assertions[x])
    requires forall i | 0 <= i < |s.assertions[x].history| ::
      SeqOf(s', s.assertions[x].history[i].revision) == SeqOf(s, s.assertions[x].history[i].revision)
    ensures SameStatus(s, s', view, x)
  {
    hide Shown, SameStatus;
    var a := s.assertions[x];
    if Position(view.chain, a.branch).Some? {
      ReplayFrame(s, s', a.history, view.chain[Position(view.chain, a.branch).value].limit, None, Initial(a));
    }
    ShownPosition(s, view.chain, a);
    SameStatusStep(s, s', view, x);
  }

  lemma AddUnnoticed(s: Store, f: nat, b: BranchId, view: View, a: Assertion)
    requires ForksBelow(s, f) && Indexed(s) && Sees(s, b, view) && Addable(s, a, f) && a.branch != b
    ensures Unnoticed(s, Apply(s, AddAssertion(a)), view)
  {
    var s' := Apply(s, AddAssertion(a));
    OnlyOwnBranch(s, b, view.chain, a, f);
    forall x | x in s.assertions
      ensures SameStatus(s, s', view, x)
    {
      hide SameStatus, ForksBelow, Chain, Indexed, InRange, Shown;
      AddedElsewhere(s, s', view.chain, a, x);
      SameHistoryUnnoticed(s, s', view, x);
    }
    assert !InRange(s', view.chain, a);
    assert Invisible(s', view, a.id);
  }

  lemma LinkUnnoticed(s: Store, view: View, o: AssertionId, n: AssertionId)
    requires n in s.assertions && view.asKnownAt.None?
    ensures Unnoticed(s, Apply(s, LinkSupersede(o, n)), view)
  {
    var s' := Apply(s, LinkSupersede(o, n));
    assert SameFamilies(s, s');
    forall x | x in s.assertions
      ensures SameStatus(s, s', view, x)
    {
      hide SameFamilies, SameStatus, Shown;
      SameShown(s, s', view.chain, x);
      SameHistoryUnnoticed(s, s', view, x);
    }
  }

  lemma CreateUnnoticed(s: Store, view: View, br: Branch)
    requires view.asKnownAt.None?
    ensures Unnoticed(s, Apply(s, CreateBranch(br)), view)
  {
    var s' := Apply(s, CreateBranch(br));
    BranchesUnread(s, br, view.chain);
    forall x | x in s.assertions
      ensures SameStatus(s, s', view, x)
    {
      hide SameStatus, Shown;
      assert x in ShownSet(s', view.chain) <==> x in ShownSet(s, view.chain);
      SameHistoryUnnoticed(s, s', view, x);
    }
  }

  lemma RegisterUnnoticed(s: Store, view: View, rev: RevisionId, h: nat)
    requires view.asKnownAt.None? && Dated(s, h) && rev !in s.revisionSeq
    ensures Unnoticed(s, Register(s, rev), view)
  {
    var s' := Register(s, rev);
    assert SameFamilies(s, s');
    forall x | x in s.assertions
      ensures SameStatus(s, s', view, x)
    {
      hide SameFamilies, SameStatus, Shown;
      SameShown(s, s', view.chain, x);
      SameHistoryUnnoticed(s, s', view, x);
    }
  }

  // ------------------------------------------------------------ steps

  lemma RegisterIsolates(s: Store, rev: RevisionId, h: nat, written: Option<BranchId>)
    requires Dated(s, h) && rev !in s.revisionSeq && ParentsKnown(s)
    ensures Isolates(s, Register(s, rev), written)
  {
    var s' := Register(s, rev);
    forall b: BranchId, view: View | Sees(s, b, view)
      ensures Sees(s', b, view) && Unnoticed(s, s', view)
    {
      hide Unnoticed, Dated, ParentsKnown;
      ChainFrame(s, s', b, U64_MAX, 0);
      RegisterUnnoticed(s, view, rev, h);
    }
  }

  lemma ChangeIsolates(s: Store, f: nat, id: AssertionId, change: StatusChange)
    requires ForksBelow(s, f) && ParentsKnown(s) && id in s.assertions
    requires change.from == s.assertions[id].status && SeqOf(s, change.revision) > f
    ensures Isolates(s, Apply(s, ChangeStatus(id, change)), Some(s.assertions[id].branch))
  {
    var s' := Apply(s, ChangeStatus(id, change));
    forall b: BranchId, view: View | Sees(s, b, view) && s.assertions[id].branch != b
      ensures Sees(s', b, view) && Unnoticed(s, s', view)
    {
      hide Unnoticed, ForksBelow, ParentsKnown;
      ChainFrame(s, s', b, U64_MAX, 0);
      ChangeUnnoticed(s, f, b, view, id, change);
    }
  }

  lemma AddIsolates(s: Store, f: nat, a: Assertion)
    requires ForksBelow(s, f) && ParentsKnown(s) && Indexed(s) && Addable(s, a, f)
    ensures Isolates(s, Apply(s, AddAssertion(a)), Some(a.branch))
  {
    var s' := Apply(s, AddAssertion(a));
    forall b: BranchId, view: View | Sees(s, b, view) && a.branch != b
      ensures Sees(s', b, view) && Unnoticed(s, s', view)
    {
      hide Unnoticed, ForksBelow, ParentsKnown, Indexed, Addable;
      ChainFrame(s, s', b, U64_MAX, 0);
      AddUnnoticed(s, f, b, view, a);
    }
  }

  lemma LinkIsolates(s: Store, o: AssertionId, n: AssertionId, written: Option<BranchId>)
    requires ParentsKnown(s) && n in s.assertions
    ensures Isolates(s, Apply(s, LinkSupersede(o, n)), written)
  {
    var s' := Apply(s, LinkSupersede(o, n));
    forall b: BranchId, view: View | Sees(s, b, view)
      ensures Sees(s', b, view) && Unnoticed(s, s', view)
    {
      hide Unnoticed, ParentsKnown;
      ChainFrame(s, s', b, U64_MAX, 0);
      LinkUnnoticed(s, view, o, n);
    }
  }

  lemma CreateIsolates(s: Store, br: Branch, written: Option<BranchId>)
    requires ParentsKnown(s) && br.id !in s.branches
    ensures Isolates(s, Apply(s, CreateBranch(br)), written)
  {
    var s' := Apply(s, CreateBranch(br));
    forall b: BranchId, view: View | Sees(s, b, view)
      ensures Sees(s', b, view) && Unnoticed(s, s', view)
    {
      hide Unnoticed, ParentsKnown;
      ChainFrame(s, s', b, U64_MAX, 0);
      CreateUnnoticed(s, view, br);
    }
  }
}
