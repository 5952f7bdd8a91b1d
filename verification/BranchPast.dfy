/** What a branch shows as it was known at an earlier time, and what later writes do to it (write.rs, view.rs). */
module BranchPast {
  import opened Wrappers
  import opened Branches
  import opened BranchProofs
  import opened BranchIsolation
  import opened BranchWrites
  import opened BranchStatus

  /** The status that the branch gives for this principal as it was known at time `t`. */
  function KnownIn(s: Store, branch: BranchId, id: AssertionId, p: Principal, t: int): Option<Status> {
    if id !in s.assertions || Chain(s, branch).None? then None
    else EffectiveStatus(s, s.assertions[id], StatusView(Chain(s, branch).value, p).(asKnownAt := Some(t)))
  }

  /** A change is known from its basis on, or else from when it was recorded. */
  function LearnedAt(t: Target, now: int): int {
    match t.basis
    case None => now
    case Some(at) => at
  }

  /** Of an assertion of the branch itself every change in the history is in range. */
  lemma OwnKnown(s: Store, f: nat, id: AssertionId, p: Principal, t: int)
    requires ForksBelow(s, f) && id in s.assertions && s.assertions[id].branch in s.branches
    requires StatusIn(s, s.assertions[id].branch, id, p).Some?
    ensures var a := s.assertions[id];
            KnownIn(s, a.branch, id, p, t) ==
            if a.firstKnownAt > t then None else Some(Replay(s, a.history, U64_MAX, Some(t), Initial(a)))
  {
    hide Shown, ChainFrom, ForksBelow;
    var a := s.assertions[id];
    ChainShape(s, a.branch, U64_MAX, 0, f);
    ReplayStatus(s, a.history, U64_MAX, Some(t), Initial(a));
  }

  /** An appended change takes effect if it is known, and is passed over if not. */
  lemma ReplayAppended(s: Store, s': Store, history: seq<StatusChange>, change: StatusChange, t: int, st: Status)
    requires forall i | 0 <= i < |history| :: SeqOf(s', history[i].revision) == SeqOf(s, history[i].revision)
    requires SeqOf(s', change.revision) <= U64_MAX
    ensures var at := if change.basisAcquiredAt.Some? then change.basisAcquiredAt.value else change.recordedAt;
            Replay(s', history + [change], U64_MAX, Some(t), st) ==
            if at <= t then change.to else Replay(s, history, U64_MAX, Some(t), st)
  {
    assert (history + [change])[..|history|] == history;
    ReplayFrame(s, s', history, U64_MAX, Some(t), st);
  }

  /** The revision of the change is registered, and the others keep their place. */
  lemma RevisionsAfter(s: Store, root: map<AssertionId, AssertionId>, p: Principal, branch: BranchId, target: Target,
      rev: RevisionId, now: int, id: AssertionId)
    requires Inv(s, root) && FreshIds(s, SetStatus(branch, target), rev) && id in s.assertions
    requires StatusIn(s, branch, target.id, p).Some?
    ensures var s' := Write(s, p, SetStatus(branch, target), rev, now);
            && SeqOf(s', rev) <= U64_MAX
            && forall i | 0 <= i < |s.assertions[id].history| ::
                 SeqOf(s', s.assertions[id].history[i].revision) == SeqOf(s, s.assertions[id].history[i].revision)
  {
    hide Chain, StatusIn, StatusCommand, Families, Indexed, ForksBelow, ParentsKnown;
    Planned(s, p, branch, target, rev, now);
    OneCommand(Register(s, rev), StatusCommand(s, p, branch, target, rev, now).value);
    DatedAt(s, s.headSeq, id);
  }

  lemma DatedAt(s: Store, h: nat, id: AssertionId)
    requires Dated(s, h) && id in s.assertions
    ensures forall i | 0 <= i < |s.assertions[id].history| :: s.assertions[id].history[i].revision in s.revisionSeq
  {}

  lemma WithinBranch(s: Store, root: map<AssertionId, AssertionId>, id: AssertionId)
    requires Inv(s, root) && id in s.assertions
    ensures ForksBelow(s, s.headSeq) && s.assertions[id].branch in s.branches && Linked(s.assertions[id])
    ensures forall i | 0 <= i < |s.assertions[id].history| ::
              SeqOf(s, s.assertions[id].history[i].revision) <= s.headSeq
  {
    hide Families, ForksBelow, ParentsKnown, Dated, Indexed, Linked;
    IndexedAt(s, id);
    DatedBound(s, s.headSeq, id);
  }

  /** The history starts from the stored status, or from that before its first change. */
  lemma StartsAs(s: Store, root: map<AssertionId, AssertionId>, id: AssertionId, p: Principal, change: StatusChange,
      a': Assertion)
    requires Inv(s, root) && id in s.assertions && s.headSeq <= U64_MAX
    requires StatusIn(s, s.assertions[id].branch, id, p) == Some(change.from)
    requires a'.history == s.assertions[id].history + [change]
    ensures Initial(a') == Initial(s.assertions[id])
  {
    hide Within, Chain, ForksBelow, Linked, EffectiveStatus;
    WithinBranch(s, root, id);
    OwnStatus(s, s.assertions[id], Chain(s, s.assertions[id].branch).value, p, s.headSeq);
  }

  lemma IsShown(s: Store, branch: BranchId, root: map<AssertionId, AssertionId>, id: AssertionId, m: AssertionId,
      p: Principal, st: Status)
    requires ShownAs(s, branch, root, id, m, p, st)
    ensures StatusIn(s, branch, m, p) == Some(st) && m in s.assertions
  {
    hide Chain, EffectiveStatus;
  }

  /** The status as known at `t` of what a change of status leaves shown: the status asked for from the time on at which
    * the change is known. Before, an assertion of the branch itself has the status it had, but one of another branch,
    * which is copied, has the status of the moment of the change.
    */
  lemma KnownAfter(s: Store, root: map<AssertionId, AssertionId>, p: Principal, branch: BranchId, target: Target,
      rev: RevisionId, now: int, t: int)
      returns (root': map<AssertionId, AssertionId>, m: AssertionId)
    requires Inv(s, root) && FreshIds(s, SetStatus(branch, target), rev)
    requires target.id in s.assertions && StatusIn(s, branch, target.id, p).Some?
    ensures var s', a := Write(s, p, SetStatus(branch, target), rev, now), s.assertions[target.id];
            && Inv(s', root') && target.id in root && ShownAs(s', branch, root', target.id, m, p, target.to)
            && m == (if a.branch == branch then target.id else target.copyId)
            && KnownIn(s', branch, m, p, t) ==
               if a.firstKnownAt > t then None
               else if LearnedAt(target, now) <= t then Some(target.to)
               else if a.branch == branch then KnownIn(s, branch, target.id, p, t)
               else StatusIn(s, branch, target.id, p)
  {
    hide Within, Chain, StatusIn, KnownIn, ShownAs, OthersKeep, EffectiveStatus, Write, Replay, ForksBelow, Linked,
      SeqOf,
      Extends;
    root', m := StatusWritten(s, root, p, branch, target, rev, now);
    var s', a := Write(s, p, SetStatus(branch, target), rev, now), s.assertions[target.id];
    var from := StatusIn(s, branch, target.id, p).value;
    var change := StatusChange(from, target.to, rev, now, target.basis);
    IsShown(s', branch, root', target.id, m, p, target.to);
    WithinBranch(s', root', m);
    OwnKnown(s', s'.headSeq, m, p, t);
    RevisionsAfter(s, root, p, branch, target, rev, now, target.id);
    if a.branch == branch {
      WithinBranch(s, root, target.id);
      OwnKnown(s, s.headSeq, target.id, p, t);
      StartsAs(s, root, target.id, p, change, s'.assertions[m]);
      ReplayAppended(s, s', a.history, change, t, Initial(a));
    } else {
      ReplayAppended(s, s', [], change, t, from);
      ReplayNone(s, t, from);
      assert [] + [change] == [change];
    }
  }

  lemma ReplayNone(s: Store, t: int, st: Status)
    ensures Replay(s, [], U64_MAX, Some(t), st) == st
  {}

  /** A change that is not known at `t` leaves what was known at `t` alone iff the assertion is of the branch itself, or
    * is not known at `t` either, or has still the status as known at `t`.
    */
  lemma PastKept(s: Store, root: map<AssertionId, AssertionId>, p: Principal, branch: BranchId, target: Target,
      rev: RevisionId, now: int, t: int)
      returns (root': map<AssertionId, AssertionId>, m: AssertionId)
    requires Inv(s, root) && FreshIds(s, SetStatus(branch, target), rev)
    requires target.id in s.assertions && StatusIn(s, branch, target.id, p).Some? && LearnedAt(target, now) > t
    ensures var s', a := Write(s, p, SetStatus(branch, target), rev, now), s.assertions[target.id];
            && target.id in root && ShownAs(s', branch, root', target.id, m, p, target.to)
            && (KnownIn(s', branch, m, p, t) == KnownIn(s, branch, target.id, p, t) <==>
                a.branch == branch || a.firstKnownAt > t ||
                KnownIn(s, branch, target.id, p, t) == StatusIn(s, branch, target.id, p))
  {
    hide Inv, Chain, StatusIn, KnownIn, ShownAs, EffectiveStatus, Write;
    root', m := KnownAfter(s, root, p, branch, target, rev, now, t);
    if s.assertions[target.id].firstKnownAt > t { NotYetKnown(s, branch, target.id, p, t); }
  }

  lemma NotYetKnown(s: Store, branch: BranchId, id: AssertionId, p: Principal, t: int)
    requires id in s.assertions && s.assertions[id].firstKnownAt > t
    ensures KnownIn(s, branch, id, p, t).None?
  {
    hide Chain, Shown;
  }

  // ------------------------------------------------------------ a past that changes

  const CLAIM: Assertion := Assertion(1, Claim(1, "p", None, false), MAIN, Accepted, None, None, 1, 0, [], Public, None,
                                      None)

  const RETRACTED: StatusChange := StatusChange(Accepted, Retracted, 2, 10, None)

  /** Accepted at time 0, retracted at time 10, and then a branch is made. */
  const BRANCHED: Store := Store(map[1 := CLAIM.(status := Retracted, history := [RETRACTED])], map[],
                                 map[MAIN := Branch(MAIN, None, 0), 1 := Branch(1, Some(MAIN), 2)],
                                 map[1 := 1, 2 := 2, 3 := 3], 3)

  const HISTORY: seq<Entry> := [
    Entry(SYSTEM, Propose(CLAIM), 1, 0), Entry(SYSTEM, SetStatus(MAIN, Target(1, Retracted, 2, None)), 2, 10),
    Entry(SYSTEM, NewBranch(1, MAIN), 3, 11)]

  lemma BranchedIsRun()
    ensures FreshRun(EMPTY, HISTORY) && Run(EMPTY, HISTORY) == BRANCHED
  {
    var s1 := Store(map[1 := CLAIM], map[], map[MAIN := Branch(MAIN, None, 0)], map[1 := 1], 1);
    var s2 := s1.(assertions := BRANCHED.assertions, revisionSeq := map[1 := 1, 2 := 2], headSeq := 2);
    OneCommand(Register(EMPTY, 1), AddAssertion(Original(CLAIM, None, 1)));
    assert Write(EMPTY, SYSTEM, Propose(CLAIM), 1, 0) == s1;
    OwnMain(s1, 1);
    assert CLAIM.history + [RETRACTED] == [RETRACTED];
    OneCommand(Register(s1, 2), ChangeStatus(1, RETRACTED));
    assert Write(s1, SYSTEM, SetStatus(MAIN, Target(1, Retracted, 2, None)), 2, 10) == s2;
    OneCommand(Register(s2, 3), CreateBranch(Branch(1, Some(MAIN), 2)));
    assert Write(s2, SYSTEM, NewBranch(1, MAIN), 3, 11) == BRANCHED;
    assert HISTORY[1..][1..] == HISTORY[2..] && HISTORY[2..][1..] == [];
    RunUnfolds(EMPTY, HISTORY, s1);
    RunUnfolds(s1, HISTORY[1..], s2);
    RunUnfolds(s2, HISTORY[2..], BRANCHED);
  }

  lemma RunUnfolds(s: Store, run: seq<Entry>, s1: Store)
    requires run != [] && FreshIds(s, run[0].request, run[0].revision)
    requires Write(s, run[0].principal, run[0].request, run[0].revision, run[0].now) == s1
    ensures Run(s, run) == Run(s1, run[1..]) && (FreshRun(s, run) <==> FreshRun(s1, run[1..]))
  {}

  lemma OwnMain(s: Store, id: AssertionId)
    requires s.branches == map[MAIN := Branch(MAIN, None, 0)] && s.assertions == map[id := CLAIM]
    requires s.overrides == map[] && s.revisionSeq == map[1 := 1]
    ensures Chain(s, MAIN) == Some([Link(MAIN, U64_MAX)])
    ensures EffectiveStatus(s, CLAIM, StatusView([Link(MAIN, U64_MAX)], SYSTEM)) == Some(Accepted)
  {}

  lemma BranchedShows()
    ensures 1 in BRANCHED.assertions && StatusIn(BRANCHED, 1, 1, SYSTEM) == Some(Retracted)
    ensures KnownIn(BRANCHED, 1, 1, SYSTEM, 5) == Some(Accepted)
  {
    var chain := [Link(1, U64_MAX), Link(MAIN, 2)];
    assert ChainFrom(BRANCHED, MAIN, 2, 1) == Some([Link(MAIN, 2)]);
    assert [Link(1, U64_MAX)] + [Link(MAIN, 2)] == chain;
    assert ChainFrom(BRANCHED, 1, U64_MAX, 0) == Some(chain);
    assert chain[1..] == [Link(MAIN, 2)];
    assert Replay(BRANCHED, [RETRACTED][..0], 2, Some(5), Accepted) == Accepted;
    assert !Counts(BRANCHED, RETRACTED, 2, Some(5));
    assert Replay(BRANCHED, [RETRACTED], 2, Some(5), Accepted) == Accepted;
    assert Position(chain[1..], MAIN) == Some(0);
    assert Shown(BRANCHED, chain, BRANCHED.assertions[1]);
  }

  /** A retraction at time 10 was not known at time 5. A change in the branch at time 20 makes it look as if it was. */
  lemma PastRewritten()
    ensures FreshRun(EMPTY, HISTORY)
    ensures var s, t := Run(EMPTY, HISTORY), Target(1, Disputed, 3, None);
            && FreshIds(s, SetStatus(1, t), 4)
            && KnownIn(s, 1, 1, SYSTEM, 5) == Some(Accepted)
            && KnownIn(Write(s, SYSTEM, SetStatus(1, t), 4, 20), 1, 3, SYSTEM, 5) == Some(Retracted)
  {
    hide Write, Run, FreshRun, KnownIn, StatusIn, Inv;
    BranchedIsRun();
    EmptyInv();
    BranchedShows();
    var root := RunKeeps(EMPTY, map[], HISTORY);
    var root', m := KnownAfter(BRANCHED, root, SYSTEM, 1, Target(1, Disputed, 3, None), 4, 20, 5);
  }
}
