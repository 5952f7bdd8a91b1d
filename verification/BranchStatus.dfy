/** What the writes of a branch mean: after a change of status, the member of the family that the view of the branch
  * shows has the status asked for, and everything else the status it had (write.rs, view.rs).
  */
module BranchStatus {
  import opened Wrappers
  import opened Branches
  import opened BranchProofs
  import opened BranchIsolation
  import opened BranchWrites

  /** The status that the unrestricted view of the branch gives, for this principal. */
  function StatusIn(s: Store, branch: BranchId, id: AssertionId, p: Principal): Option<Status> {
    if id !in s.assertions || Chain(s, branch).None? then None
    else EffectiveStatus(s, s.assertions[id], StatusView(Chain(s, branch).value, p))
  }

  /** The principal may see the assertion: it is public, shared with a group of theirs, or their own or that of whom
    * they act for. The system sees everything.
    */
  predicate Permitted(p: Principal, v: Visibility) {
    || p.system || v.Public?
    || (v.Groups? && exists g <- v.groups :: g in p.groups)
    || (v.Private? && (p.actor == v.owner || p.onBehalfOf == Some(v.owner)))
  }

  /** A view without restrictions gives a status to exactly those shown assertions that the principal may see. */
  lemma PermittedSee(s: Store, branch: BranchId, id: AssertionId, p: Principal)
    requires id in s.assertions && Chain(s, branch).Some?
    ensures StatusIn(s, branch, id, p).Some? <==>
              Shown(s, Chain(s, branch).value, s.assertions[id]) && Permitted(p, s.assertions[id].visibility)
  {
    hide Shown, Chain;
    var a, chain := s.assertions[id], Chain(s, branch).value;
    if Shown(s, chain, a) {
      ShownPosition(s, chain, a);
      ReplayStatus(s, a.history, chain[Position(chain, a.branch).value].limit, None, Initial(a));
    }
    if a.visibility.Groups? {
      var both := a.visibility.groups * p.groups;
      if both != {} {
        var g :| g in both;
        assert g in a.visibility.groups && g in p.groups;
      }
      if g :| g in a.visibility.groups && g in p.groups {
        assert g in both;
      }
    }
  }

  /** The member `m` of the family of `id` is the one that the view of the branch shows, and this is its status. */
  ghost predicate ShownAs(s: Store, branch: BranchId, root: map<AssertionId, AssertionId>, id: AssertionId,
      m: AssertionId, p: Principal, st: Status)
  {
    && id in root && m in root && root[m] == root[id] && StatusIn(s, branch, m, p) == Some(st)
    && forall n | n in root && root[n] == root[id] && StatusIn(s, branch, n, p).Some? :: n == m
  }

  /** All but the family of `id` have the status they had. */
  ghost predicate OthersKeep(s: Store, s': Store, branch: BranchId, root: map<AssertionId, AssertionId>,
      id: AssertionId,
      p: Principal)
    requires id in root
  {
    forall x | x in s.assertions && x in root && root[x] != root[id] ::
      StatusIn(s', branch, x, p) == StatusIn(s, branch, x, p)
  }

  /** All but the families of these two have the status they had. */
  ghost predicate AllButTwoKeep(s: Store, s': Store, branch: BranchId, root: map<AssertionId, AssertionId>,
      id: AssertionId, other: AssertionId, p: Principal)
    requires id in root && other in root
  {
    forall x | x in s.assertions && x in root && root[x] != root[id] && root[x] != root[other] ::
      StatusIn(s', branch, x, p) == StatusIn(s, branch, x, p)
  }

  /** The same assertion in all but its place and its status. */
  predicate SameContent(a: Assertion, b: Assertion) {
    && a.claim == b.claim && a.supersedes == b.supersedes && a.firstKnownAt == b.firstKnownAt
    && a.visibility == b.visibility && a.canon == b.canon && a.timeline == b.timeline
  }

  // ------------------------------------------------------------ one command

  ghost function NewStatus(cmd: Command): Status
    requires cmd.ChangeStatus? || cmd.AddAssertion?
  {
    if cmd.ChangeStatus? then cmd.change.to else cmd.assertion.status
  }

  lemma OnlyMember(s: Store, branch: BranchId, root: map<AssertionId, AssertionId>, m: AssertionId, p: Principal)
    requires Families(s, root) && branch in s.branches && Chain(s, branch).Some? && m in s.assertions && m in root
    requires StatusIn(s, branch, m, p).Some?
    ensures ShownAs(s, branch, root, m, m, p, StatusIn(s, branch, m, p).value)
  {
    hide Shown, Chain, Families;
    FamiliesOneShown(s, root, branch);
    var shown := ShownSet(s, Chain(s, branch).value);
    forall n | n in root && root[n] == root[m] && StatusIn(s, branch, n, p).Some? ensures n == m {
      PermittedSee(s, branch, n, p);
      PermittedSee(s, branch, m, p);
      assert Represents(shown, root, root[m], n) && Represents(shown, root, root[m], m);
    }
  }

  /** A shown assertion of the branch itself has its stored status. */
  lemma OwnShown(s: Store, root: map<AssertionId, AssertionId>, f: nat, h: nat, m: AssertionId, p: Principal)
    requires Within(s, root, f, h) && h <= U64_MAX && m in s.assertions && Chain(s, s.assertions[m].branch).Some?
    requires Shown(s, Chain(s, s.assertions[m].branch).value, s.assertions[m]) &&
      Permitted(p, s.assertions[m].visibility)
    ensures m in root && ShownAs(s, s.assertions[m].branch, root, m, m, p, s.assertions[m].status)
  {
    hide Shown, Chain, Families, Dated, Indexed, ForksBelow, ParentsKnown, EffectiveStatus, Linked;
    var a := s.assertions[m];
    PermittedSee(s, a.branch, m, p);
    IndexedAt(s, m);
    DatedBound(s, h, m);
    OwnStatus(s, a, Chain(s, a.branch).value, p, f);
    FamiliesOneShown(s, root, a.branch);
    OnlyMember(s, a.branch, root, m, p);
  }

  /** A status command leaves the shown member of the family with the new status. */
  lemma CommandSets(s: Store, root: map<AssertionId, AssertionId>, f: nat, h: nat, branch: BranchId, cmd: Command,
      id: AssertionId, p: Principal)
      returns (root': map<AssertionId, AssertionId>, m: AssertionId)
    requires Within(s, root, f, h) && h <= U64_MAX && Ready(s, f, branch, cmd, id) && branch in s.branches
    requires StatusIn(s, branch, id, p).Some?
    requires cmd.AddAssertion? ==> SameContent(cmd.assertion, s.assertions[id])
    ensures Within(Apply(s, cmd), root', f, h) && Extends(root, root')
    ensures id in root && Chain(Apply(s, cmd), branch) == Chain(s, branch)
    ensures ShownAs(Apply(s, cmd), branch, root', id, m, p, NewStatus(cmd))
    ensures m == (if cmd.ChangeStatus? then id else cmd.assertion.id) && m in Apply(s, cmd).assertions
    ensures root'.Keys == Apply(s, cmd).assertions.Keys
  {
    hide Within, Chain, Shown, EffectiveStatus, Addable;
    var s', chain := Apply(s, cmd), Chain(s, branch).value;
    PermittedSee(s, branch, id, p);
    root' := ReadyStep(s, root, f, h, branch, cmd, id);
    WithinKeys(s, root, f, h);
    WithinKeys(s', root', f, h);
    match cmd
    case ChangeStatus(_, change) =>
      m := id;
      ChangeShown(s, root, f, h, branch, id, change);
      OwnShown(s', root', f, h, m, p);
    case AddAssertion(a) =>
      m := a.id;
      CopyShown(s, root, f, h, a, id);
      OwnShown(s', root', f, h, m, p);
      CopyRoot(s', root', f, h, m, id);
  }

  lemma ChangeShown(s: Store, root: map<AssertionId, AssertionId>, f: nat, h: nat, branch: BranchId, id: AssertionId,
      change: StatusChange)
    requires Within(s, root, f, h) && id in s.assertions && s.assertions[id].branch == branch && branch in s.branches
    ensures var s' := Apply(s, ChangeStatus(id, change));
            && Chain(s', branch) == Chain(s, branch)
            && (Chain(s, branch).Some? ==>
                  (Shown(s', Chain(s, branch).value, s'.assertions[id]) <==>
                   Shown(s, Chain(s, branch).value, s.assertions[id])))
  {
    hide Shown, Families, Dated, Indexed;
    var s' := Apply(s, ChangeStatus(id, change));
    ChainFrame(s, s', branch, U64_MAX, 0);
    if Chain(s, branch).Some? { SameShown(s, s', Chain(s, branch).value, id); }
  }

  lemma CopyShown(s: Store, root: map<AssertionId, AssertionId>, f: nat, h: nat, a: Assertion, id: AssertionId)
    requires Within(s, root, f, h) && Addable(s, a, f) && Copies(s, a, id)
    ensures var s' := Apply(s, AddAssertion(a));
            && Chain(s', a.branch) == Chain(s, a.branch) && a.id in s'.assertions && s'.assertions[a.id] == a
            && Shown(s', Chain(s, a.branch).value, a)
  {
    hide Shown, Families, Dated, Indexed;
    CopyHides(s, f, a, id);
    ChainKept(s, a, a.branch);
  }

  lemma CopyRoot(s: Store, root: map<AssertionId, AssertionId>, f: nat, h: nat, m: AssertionId, id: AssertionId)
    requires Within(s, root, f, h) && m in s.assertions && s.assertions[m].overrides == Some(id)
    ensures m in root && id in root && root[m] == root[id]
  {
    FamiliesRooted(s, root);
  }

  // ------------------------------------------------------------ what stays

  /** Every status stays as it was. */
  ghost predicate AllKeep(s: Store, s': Store, branch: BranchId, p: Principal) {
    forall x | x in s.assertions :: StatusIn(s', branch, x, p) == StatusIn(s, branch, x, p)
  }

  lemma UnnoticedKeeps(s: Store, s': Store, branch: BranchId, p: Principal)
    requires Chain(s', branch) == Chain(s, branch) && s.assertions.Keys <= s'.assertions.Keys
    requires Chain(s, branch).Some? ==> Unnoticed(s, s', StatusView(Chain(s, branch).value, p))
    ensures AllKeep(s, s', branch, p)
  {
    hide Chain, EffectiveStatus;
    forall x | x in s.assertions ensures StatusIn(s', branch, x, p) == StatusIn(s, branch, x, p) {
      if Chain(s, branch).Some? {
        assert SameStatus(s, s', StatusView(Chain(s, branch).value, p), x);
      }
    }
  }

  lemma RegisterStatus(s: Store, root: map<AssertionId, AssertionId>, rev: RevisionId, branch: BranchId, p: Principal)
    requires Inv(s, root) && rev !in s.revisionSeq && branch in s.branches
    ensures Chain(Register(s, rev), branch) == Chain(s, branch) && AllKeep(s, Register(s, rev), branch, p)
  {
    hide Chain, EffectiveStatus, Unnoticed, Families, Dated, Indexed, ParentsKnown;
    ChainFrame(s, Register(s, rev), branch, U64_MAX, 0);
    ChainsByFrame(s, Register(s, rev), branch);
    if Chain(s, branch).Some? {
      RegisterUnnoticed(s, StatusView(Chain(s, branch).value, p), rev, s.headSeq);
    }
    UnnoticedKeeps(s, Register(s, rev), branch, p);
  }

  lemma ChainsByFrame(s: Store, s': Store, branch: BranchId)
    requires ChainFrom(s', branch, U64_MAX, 0) == ChainFrom(s, branch, U64_MAX, 0)
    ensures Chain(s', branch) == Chain(s, branch)
  {}

  /** Adding an assertion changes the status of none but the one it was copied from. */
  lemma AddStatus(s: Store, root: map<AssertionId, AssertionId>, f: nat, h: nat, a: Assertion, branch: BranchId,
      x: AssertionId, p: Principal)
    requires Within(s, root, f, h) && Addable(s, a, f) && branch in s.branches && x in s.assertions
    requires a.overrides != Some(x)
    ensures Chain(Apply(s, AddAssertion(a)), branch) == Chain(s, branch)
    ensures StatusIn(Apply(s, AddAssertion(a)), branch, x, p) == StatusIn(s, branch, x, p)
  {
    hide Chain, Shown, EffectiveStatus, Families, Dated, Indexed, ParentsKnown, SameStatus;
    var s' := Apply(s, AddAssertion(a));
    ChainKept(s, a, branch);
    if Chain(s, branch).Some? {
      var view := StatusView(Chain(s, branch).value, p);
      AddedElsewhere(s, s', view.chain, a, x);
      SameHistoryUnnoticed(s, s', view, x);
      SameStatusIn(s, s', view, x);
    }
  }

  lemma SameStatusIn(s: Store, s': Store, view: View, x: AssertionId)
    requires SameStatus(s, s', view, x)
    ensures x in s.assertions && x in s'.assertions
    ensures EffectiveStatus(s', s'.assertions[x], view) == EffectiveStatus(s, s.assertions[x], view)
  {}

  lemma ChangeStatusOf(s: Store, root: map<AssertionId, AssertionId>, f: nat, h: nat, id: AssertionId,
      change: StatusChange, branch: BranchId, x: AssertionId, p: Principal)
    requires Within(s, root, f, h) && id in s.assertions && branch in s.branches && x in s.assertions && x != id
    ensures StatusIn(Apply(s, ChangeStatus(id, change)), branch, x, p) == StatusIn(s, branch, x, p)
  {
    hide Chain, Shown, EffectiveStatus, Families, Dated, Indexed, ParentsKnown, SameStatus;
    var s' := Apply(s, ChangeStatus(id, change));
    ChainFrame(s, s', branch, U64_MAX, 0);
    ChainsByFrame(s, s', branch);
    if Chain(s, branch).Some? {
      var view := StatusView(Chain(s, branch).value, p);
      SameShown(s, s', view.chain, x);
      SameHistoryUnnoticed(s, s', view, x);
      SameStatusIn(s, s', view, x);
    }
  }

  lemma CommandOthers(s: Store, root: map<AssertionId, AssertionId>, f: nat, h: nat, branch: BranchId, cmd: Command,
      id: AssertionId, p: Principal)
    requires Within(s, root, f, h) && Ready(s, f, branch, cmd, id) && branch in s.branches && id in root
    ensures OthersKeep(s, Apply(s, cmd), branch, root, id, p)
  {
    hide Within, Chain, Shown, EffectiveStatus, Addable, StatusIn, Apply;
    forall x | x in s.assertions && x in root && root[x] != root[id]
      ensures StatusIn(Apply(s, cmd), branch, x, p) == StatusIn(s, branch, x, p)
    {
      match cmd
      case ChangeStatus(_, change) => ChangeStatusOf(s, root, f, h, id, change, branch, x, p);
      case AddAssertion(a) => AddStatus(s, root, f, h, a, branch, x, p);
    }
  }

  /** The shown member of a family stays if its statuses do and no member joins it. */
  lemma ShownStays(s: Store, s': Store, branch: BranchId, root: map<AssertionId, AssertionId>,
      root': map<AssertionId, AssertionId>, id: AssertionId, m: AssertionId, p: Principal, st: Status)
    requires ShownAs(s, branch, root, id, m, p, st) && Extends(root, root') && root.Keys == s.assertions.Keys
    requires forall x | x in root && root[x] == root[id] :: StatusIn(s', branch, x, p) == StatusIn(s, branch, x, p)
    requires forall n | n in root' && n !in root :: root'[n] != root[id]
    ensures ShownAs(s', branch, root', id, m, p, st)
  {
    hide StatusIn;
  }

  // ------------------------------------------------------------ changes of status

  /** What is planned for a status change, in terms of what the view of the branch shows. */
  lemma Planned(s: Store, p: Principal, branch: BranchId, t: Target, rev: RevisionId, now: int)
    ensures StatusCommand(s, p, branch, t, rev, now).Some? <==> StatusIn(s, branch, t.id, p).Some?
    ensures StatusIn(s, branch, t.id, p).Some? ==>
              var cmd := StatusCommand(s, p, branch, t, rev, now).value;
              var change := StatusChange(StatusIn(s, branch, t.id, p).value, t.to, rev, now, t.basis);
              && t.id in s.assertions && branch in s.branches
              && match cmd {
                   case ChangeStatus(id, c) => id == t.id && c == change
                   case AddAssertion(a) =>
                     && a.id == t.copyId && a.status == t.to && a.history == [change]
                     && SameContent(a, s.assertions[t.id])
                   case _ => false
                 }
  {
    hide EffectiveStatus;
  }

  /** The change is made in place in the assertion's own branch, and in a copy with a history of its own elsewhere. */
  ghost predicate Changed(s: Store, s': Store, branch: BranchId, t: Target, m: AssertionId, change: StatusChange) {
    && t.id in s.assertions && m in s'.assertions && s'.assertions[m].branch == branch
    && m == (if s.assertions[t.id].branch == branch then t.id else t.copyId)
    && SameContent(s'.assertions[m], s.assertions[t.id])
    && s'.assertions[m].history ==
         (if s.assertions[t.id].branch == branch then s.assertions[t.id].history else []) + [change]
  }

  lemma CommandContent(s: Store, s': Store, p: Principal, branch: BranchId, t: Target, rev: RevisionId, now: int,
      m: AssertionId)
    requires StatusIn(s, branch, t.id, p).Some? && s'.assertions == s.assertions
    requires var cmd := StatusCommand(s, p, branch, t, rev, now);
             cmd.Some? && (cmd.value.ChangeStatus? || cmd.value.AddAssertion?) &&
             m == (if cmd.value.ChangeStatus? then t.id else cmd.value.assertion.id)
    ensures Changed(s, Apply(s', StatusCommand(s, p, branch, t, rev, now).value), branch, t, m,
                    StatusChange(StatusIn(s, branch, t.id, p).value, t.to, rev, now, t.basis))
  {
    hide EffectiveStatus, Chain;
  }

  /** After a change of status the view shows, of the family of the assertion, a member with the status asked for and
    * the same content, whose history ends with the change; every other family has the status it had.
    */
  lemma StatusWritten(s: Store, root: map<AssertionId, AssertionId>, p: Principal, branch: BranchId, t: Target,
      rev: RevisionId, now: int)
      returns (root': map<AssertionId, AssertionId>, m: AssertionId)
    requires Inv(s, root) && FreshIds(s, SetStatus(branch, t), rev) && StatusIn(s, branch, t.id, p).Some?
    ensures var s' := Write(s, p, SetStatus(branch, t), rev, now);
            && Inv(s', root') && Extends(root, root') && t.id in root
            && ShownAs(s', branch, root', t.id, m, p, t.to) && OthersKeep(s, s', branch, root, t.id, p)
            && Changed(s, s', branch, t, m, StatusChange(StatusIn(s, branch, t.id, p).value, t.to, rev, now, t.basis))
  {
    hide Within, Chain, Shown, EffectiveStatus, Apply, StatusIn, StatusCommand, Ready, ShownAs, OthersKeep, SameContent,
      Changed, Extends;
    var s1, f := Register(s, rev), s.headSeq;
    Planned(s, p, branch, t, rev, now);
    var cmd := StatusCommand(s, p, branch, t, rev, now).value;
    OneCommand(s1, cmd);
    Prepare(s, root, p, branch, t, rev, now);
    root', m := CommandSets(s1, root, f, f + 1, branch, cmd, t.id, p);
    CommandOthers(s1, root, f, f + 1, branch, cmd, t.id, p);
    CommandContent(s, s1, p, branch, t, rev, now, m);
    OthersBefore(s, s1, Apply(s1, cmd), branch, root, t.id, p);
    HeadOf(s1, cmd);
    WithinInv(Apply(s1, cmd), root', f);
  }

  lemma HeadOf(s: Store, cmd: Command)
    ensures Apply(s, cmd).headSeq == s.headSeq && Apply(s, cmd).branches.Keys >= s.branches.Keys
    ensures Apply(s, cmd).assertions.Keys >= s.assertions.Keys
  {}

  /** What the registration of the revision leaves ready. */
  lemma Prepare(s: Store, root: map<AssertionId, AssertionId>, p: Principal, branch: BranchId, t: Target,
      rev: RevisionId, now: int)
    requires Inv(s, root) && rev !in s.revisionSeq && s.headSeq < U64_MAX && t.copyId !in s.assertions
    requires StatusIn(s, branch, t.id, p).Some? && StatusCommand(s, p, branch, t, rev, now).Some? &&
      branch in s.branches
    ensures var s1 := Register(s, rev);
            && Within(s1, root, s.headSeq, s.headSeq + 1) && s1.headSeq == s.headSeq + 1 && s1.branches == s.branches
            && Ready(s1, s.headSeq, branch, StatusCommand(s, p, branch, t, rev, now).value, t.id)
            && s1.assertions == s.assertions && AllKeep(s, s1, branch, p) && t.id in s.assertions
            && StatusIn(s1, branch, t.id, p) == StatusIn(s, branch, t.id, p) && Chain(s1, branch) == Chain(s, branch)
  {
    hide Families, Indexed, Dated, ParentsKnown, ForksBelow, Chain, EffectiveStatus, StatusCommand, Ready, StatusIn;
    Registered(s, root, rev, None);
    PlannedReady(s, s.headSeq, p, branch, t, rev, now);
    RegisterStatus(s, root, rev, branch, p);
  }

  lemma OthersBefore(s: Store, s1: Store, s2: Store, branch: BranchId, root: map<AssertionId, AssertionId>,
      id: AssertionId, p: Principal)
    requires AllKeep(s, s1, branch, p) && s1.assertions == s.assertions && id in root
    requires OthersKeep(s1, s2, branch, root, id, p)
    ensures OthersKeep(s, s2, branch, root, id, p)
  {
    hide StatusIn;
  }

  /** A change of what the principal does not see in the branch is refused and changes nothing. */
  lemma StatusRefused(s: Store, p: Principal, branch: BranchId, t: Target, rev: RevisionId, now: int)
    requires StatusIn(s, branch, t.id, p).None?
    ensures Write(s, p, SetStatus(branch, t), rev, now) == s
  {
    hide StatusCommand;
    Planned(s, p, branch, t, rev, now);
  }

  // ------------------------------------------------------------ acceptance

  /** The member stays shown when another family is written. */
  lemma ShownThrough(s: Store, branch: BranchId, cmd: Command, root: map<AssertionId, AssertionId>,
      root': map<AssertionId, AssertionId>, f: nat, h: nat, changed: AssertionId, id: AssertionId, m: AssertionId,
      p: Principal, st: Status)
    requires Within(s, root, f, h) && Ready(s, f, branch, cmd, changed) && branch in s.branches
    requires Within(Apply(s, cmd), root', f, h) && Extends(root, root')
    requires changed in root && id in root && root[id] != root[changed] && ShownAs(s, branch, root, id, m, p, st)
    ensures ShownAs(Apply(s, cmd), branch, root', id, m, p, st)
  {
    hide Families, Dated, ForksBelow, ParentsKnown, Indexed, Ready, StatusIn, Chain;
    CommandOthers(s, root, f, h, branch, cmd, changed, p);
    WithinKeys(s, root, f, h);
    WithinKeys(Apply(s, cmd), root', f, h);
    forall n | n in root' && n !in root ensures root'[n] != root[id] {
      JoinsFamily(s, root, root', f, h, branch, cmd, changed, n);
    }
    ShownStays(s, Apply(s, cmd), branch, root, root', id, m, p, st);
  }

  /** What a status command adds belongs to the family that it changes. */
  lemma JoinsFamily(s: Store, root: map<AssertionId, AssertionId>, root': map<AssertionId, AssertionId>, f: nat, h: nat,
      branch: BranchId, cmd: Command, changed: AssertionId, n: AssertionId)
    requires Within(s, root, f, h) && Within(Apply(s, cmd), root', f, h) && Ready(s, f, branch, cmd, changed)
    requires Extends(root, root') && changed in root && n in root' && n !in root
    ensures root'[n] == root[changed]
  {
    hide Families, Dated, ForksBelow, ParentsKnown, Indexed, Shown, Chain;
    WithinKeys(s, root, f, h);
    WithinKeys(Apply(s, cmd), root', f, h);
    if cmd.AddAssertion? { CopyRoot(Apply(s, cmd), root', f, h, n, changed); }
  }

  lemma AnotherFamily(s: Store, root: map<AssertionId, AssertionId>, id: AssertionId)
    requires Inv(s, root) && id in s.assertions && s.assertions[id].supersedes.Some?
    ensures var o := s.assertions[id].supersedes.value; o in root && id in root && root[o] != root[id] && o != id
  {
    FamiliesRooted(s, root);
  }

  /** After an acceptance the view shows the family of the assertion accepted and, if it replaces another one, the
    * family of that superseded.
    */
  lemma AcceptWritten(s: Store, root: map<AssertionId, AssertionId>, p: Principal, branch: BranchId, t: Target,
      copyId: AssertionId, rev: RevisionId, now: int)
      returns (root': map<AssertionId, AssertionId>, m: AssertionId, n: AssertionId)
    requires Inv(s, root) && FreshIds(s, Accept(branch, t, copyId), rev)
    requires StatusIn(s, branch, t.id, p).Some? && t.id in s.assertions
    requires s.assertions[t.id].supersedes.Some? ==>
               StatusIn(s, branch, s.assertions[t.id].supersedes.value, p).Some?
    ensures var s', old_ := Write(s, p, Accept(branch, t, copyId), rev, now), s.assertions[t.id].supersedes;
            && Inv(s', root') && Extends(root, root') && t.id in root
            && ShownAs(s', branch, root', t.id, m, p, Accepted)
            && (old_.Some? ==> old_.value in root && ShownAs(s', branch, root', old_.value, n, p, Superseded))
            && AllButTwoKeep(s, s', branch, root, t.id, if old_.Some? then old_.value else t.id, p)
  {
    hide Within, Chain, Shown, EffectiveStatus, Apply, StatusIn, StatusCommand, Ready, ShownAs, OthersKeep, SameContent,
      Extends, Inv, AllButTwoKeep;
    var t' := t.(to := Accepted);
    Planned(s, p, branch, t', rev, now);
    n := t.id;
    if s.assertions[t.id].supersedes.None? {
      root', m := StatusWritten(s, root, p, branch, t', rev, now);
      OneFamily(s, Write(s, p, SetStatus(branch, t'), rev, now), branch, root, t.id, p);
    } else {
      var u := Target(s.assertions[t.id].supersedes.value, Superseded, copyId, None);
      Planned(s, p, branch, u, rev, now);
      AnotherFamily(s, root, t.id);
      root', m, n := TwoWritten(s, root, p, branch, t', u, rev, now);
      TwoCommands(Register(s, rev), StatusCommand(s, p, branch, t', rev, now).value,
        StatusCommand(s, p, branch, u, rev, now).value);
    }
  }

  lemma TwoWritten(s: Store, root: map<AssertionId, AssertionId>, p: Principal, branch: BranchId, t: Target, u: Target,
      rev: RevisionId, now: int)
      returns (root': map<AssertionId, AssertionId>, m: AssertionId, n: AssertionId)
    requires Inv(s, root) && FreshIds(s, SetStatus(branch, t), rev) && u.copyId !in s.assertions && u.copyId != t.copyId
    requires StatusIn(s, branch, t.id, p).Some? && StatusIn(s, branch, u.id, p).Some?
    requires t.id in root && u.id in root && root[t.id] != root[u.id]
    requires StatusCommand(s, p, branch, t, rev, now).Some? && StatusCommand(s, p, branch, u, rev, now).Some?
    ensures var s' := Apply(Apply(Register(s, rev), StatusCommand(s, p, branch, t, rev, now).value),
                            StatusCommand(s, p, branch, u, rev, now).value);
            && Inv(s', root') && Extends(root, root')
            && ShownAs(s', branch, root', t.id, m, p, t.to) && ShownAs(s', branch, root', u.id, n, p, u.to)
            && AllButTwoKeep(s, s', branch, root, t.id, u.id, p)
  {
    hide Within, Chain, Shown, EffectiveStatus, Apply, StatusIn, StatusCommand, Ready, ShownAs, OthersKeep, SameContent,
      Extends, AllKeep, AllButTwoKeep;
    var s1, f := Register(s, rev), s.headSeq;
    Planned(s, p, branch, t, rev, now);
    Planned(s, p, branch, u, rev, now);
    var one, two := StatusCommand(s, p, branch, t, rev, now).value, StatusCommand(s, p, branch, u, rev, now).value;
    Prepare(s, root, p, branch, t, rev, now);
    Prepare(s, root, p, branch, u, rev, now);
    StatusCommandShape(s, p, branch, t, rev, now);
    StatusCommandShape(s, p, branch, u, rev, now);
    var root1: map<AssertionId, AssertionId>;
    root1, m := CommandSets(s1, root, f, f + 1, branch, one, t.id, p);
    var s2 := Apply(s1, one);
    ReadyStays(s1, root, f, f + 1, branch, one, t.id, two, u.id);
    CommandOthers(s1, root, f, f + 1, branch, one, t.id, p);
    KeptOther(s1, s2, branch, root, t.id, u.id, p);
    HeadOf(s1, one);
    SameAfter(s1, one, t.id, u.id, two);
    root', n := CommandSets(s2, root1, f, f + 1, branch, two, u.id, p);
    CommandOthers(s2, root1, f, f + 1, branch, two, u.id, p);
    OthersBefore(s, s1, s2, branch, root, t.id, p);
    BothFamilies(s, s2, Apply(s2, two), branch, root, root1, t.id, u.id, p);
    ExtendsTransitive(root, root1, root');
    ExtendedRoots(root, root1, t.id, u.id);
    ShownThrough(s2, branch, two, root1, root', f, f + 1, u.id, t.id, m, p, t.to);
    HeadOf(s2, two);
    WithinInv(Apply(s2, two), root', f);
  }

  lemma OneFamily(s: Store, s': Store, branch: BranchId, root: map<AssertionId, AssertionId>, id: AssertionId,
      p: Principal)
    requires id in root && OthersKeep(s, s', branch, root, id, p)
    ensures AllButTwoKeep(s, s', branch, root, id, id, p)
  {
    hide StatusIn;
  }

  lemma BothFamilies(s: Store, s2: Store, s3: Store, branch: BranchId, root: map<AssertionId, AssertionId>,
      root1: map<AssertionId, AssertionId>, id: AssertionId, other: AssertionId, p: Principal)
    requires id in root && other in root && Extends(root, root1) && s.assertions.Keys <= s2.assertions.Keys
    requires OthersKeep(s, s2, branch, root, id, p) && other in root1 && OthersKeep(s2, s3, branch, root1, other, p)
    ensures AllButTwoKeep(s, s3, branch, root, id, other, p)
  {
    hide StatusIn;
  }

  lemma ReadyStays(s: Store, root: map<AssertionId, AssertionId>, f: nat, h: nat, branch: BranchId, one: Command,
      id: AssertionId, two: Command, other: AssertionId)
    requires Within(s, root, f, h) && Ready(s, f, branch, one, id) && Ready(s, f, branch, two, other) && id != other
    requires one.AddAssertion? && two.AddAssertion? ==> one.assertion.id != two.assertion.id
    ensures Ready(Apply(s, one), f, branch, two, other)
  {
    hide Families, Dated, Ready, Apply;
    ReadyAfterStatus(s, f, branch, one, id, two, other);
  }

  lemma KeptOther(s: Store, s': Store, branch: BranchId, root: map<AssertionId, AssertionId>, id: AssertionId,
      other: AssertionId, p: Principal)
    requires id in root && OthersKeep(s, s', branch, root, id, p)
    requires other in s.assertions && other in root && root[other] != root[id]
    ensures StatusIn(s', branch, other, p) == StatusIn(s, branch, other, p)
  {}

  lemma SameAfter(s: Store, cmd: Command, id: AssertionId, other: AssertionId, next: Command)
    requires id != other && other in s.assertions
    requires (cmd.ChangeStatus? && cmd.id == id) || (cmd.AddAssertion? && cmd.assertion.id !in s.assertions)
    ensures other in Apply(s, cmd).assertions && Apply(s, cmd).assertions[other] == s.assertions[other]
  {}

  lemma ExtendedRoots(root: map<AssertionId, AssertionId>, root': map<AssertionId, AssertionId>, a: AssertionId,
      b: AssertionId)
    requires Extends(root, root') && a in root && b in root
    ensures a in root' && b in root' && root'[a] == root[a] && root'[b] == root[b]
  {}

  /** An acceptance is refused, and changes nothing, if the view does not show the assertion or what it replaces. */
  lemma AcceptRefused(s: Store, p: Principal, branch: BranchId, t: Target, copyId: AssertionId, rev: RevisionId,
      now: int)
    requires StatusIn(s, branch, t.id, p).None? ||
      (s.assertions[t.id].supersedes.Some? && StatusIn(s, branch, s.assertions[t.id].supersedes.value, p).None?)
    ensures Write(s, p, Accept(branch, t, copyId), rev, now) == s
  {
    hide StatusCommand, StatusIn;
    Planned(s, p, branch, t.(to := Accepted), rev, now);
    if StatusIn(s, branch, t.id, p).Some? {
      Planned(s, p, branch, Target(s.assertions[t.id].supersedes.value, Superseded, copyId, None), rev, now);
    }
  }

  // ------------------------------------------------------------ new assertions

  /** A new assertion as it is stored: the one given, on its own. */
  ghost predicate StoredAs(s: Store, a: Assertion, supersedes: Option<AssertionId>, rev: RevisionId) {
    && a.id in s.assertions
    && s.assertions[a.id] == a.(overrides := None, supersedes := supersedes, createdRevision := rev, history := [])
  }

  /** From `s` to `s'` the assertion was added, shown with its own status, and no other status changed. */
  ghost predicate Joined(s: Store, s': Store, root: map<AssertionId, AssertionId>, root': map<AssertionId, AssertionId>,
      a: Assertion, supersedes: Option<AssertionId>, rev: RevisionId, p: Principal)
  {
    && s'.headSeq == s.headSeq + 1 && s'.branches == s.branches && Chain(s', a.branch) == Chain(s, a.branch)
    && a.id !in root && root' == root[a.id := a.id]
    && AllKeep(s, s', a.branch, p) && StoredAs(s', a, supersedes, rev)
    && (Permitted(p, a.visibility) ==> ShownAs(s', a.branch, root', a.id, a.id, p, a.status))
    && forall x | x in s.assertions :: x in s'.assertions && s'.assertions[x] == s.assertions[x]
  }

  /** A new assertion is shown with its own status to those who may see it, and no other status changes. */
  lemma OriginalWritten(s: Store, root: map<AssertionId, AssertionId>, a: Assertion, old_: Option<AssertionId>,
      rev: RevisionId, p: Principal)
      returns (root': map<AssertionId, AssertionId>)
    requires Inv(s, root) && rev !in s.revisionSeq && a.id !in s.assertions && a.branch in s.branches
    requires s.headSeq < U64_MAX && Chain(s, a.branch).Some? && (old_.Some? ==> old_.value in s.assertions)
    ensures var s' := Apply(Register(s, rev), AddAssertion(Original(a, old_, rev)));
            Within(s', root', s.headSeq, s.headSeq + 1) && Joined(s, s', root, root', a, old_, rev, p)
  {
    hide Within, Chain, Shown, EffectiveStatus, StatusIn, Addable;
    var s1, b, f := Register(s, rev), Original(a, old_, rev), s.headSeq;
    var s2 := Apply(s1, AddAssertion(b));
    Registered(s, root, rev, None);
    RegisterStatus(s, root, rev, a.branch, p);
    OriginalAddable(s, a, old_, rev);
    root' := OriginalStep(s, root, a, old_, rev);
    forall x | x in s.assertions ensures StatusIn(s2, a.branch, x, p) == StatusIn(s, a.branch, x, p) {
      AddStatus(s1, root, f, f + 1, b, a.branch, x, p);
    }
    NewShown(s1, root, f, f + 1, b);
    if Permitted(p, a.visibility) {
      OwnShown(s2, root', f, f + 1, a.id, p);
    }
  }

  lemma NewShown(s: Store, root: map<AssertionId, AssertionId>, f: nat, h: nat, a: Assertion)
    requires Within(s, root, f, h) && Addable(s, a, f) && a.overrides.None? && Chain(s, a.branch).Some?
    ensures var s' := Apply(s, AddAssertion(a));
            Chain(s', a.branch) == Chain(s, a.branch) && Shown(s', Chain(s, a.branch).value, a)
  {
    hide Families, Dated;
    ChainKept(s, a, a.branch);
    OriginalSets(s, f, a, a.branch);
    assert a.id in ShownSet(Apply(s, AddAssertion(a)), Chain(s, a.branch).value);
  }

  lemma JoinedExtends(s: Store, s': Store, root: map<AssertionId, AssertionId>, root': map<AssertionId, AssertionId>,
      a: Assertion, old_: Option<AssertionId>, rev: RevisionId, p: Principal)
    requires Joined(s, s', root, root', a, old_, rev, p)
    ensures Extends(root, root')
  {}

  /** A proposed assertion is stored and shown as it is given, and changes no other status. */
  lemma ProposeWritten(s: Store, root: map<AssertionId, AssertionId>, p: Principal, a: Assertion, rev: RevisionId,
      now: int, q: Principal)
      returns (root': map<AssertionId, AssertionId>)
    requires Inv(s, root) && FreshIds(s, Propose(a), rev) && a.branch in s.branches && Chain(s, a.branch).Some?
    ensures var s' := Write(s, p, Propose(a), rev, now);
            && Inv(s', root') && Extends(root, root') && StoredAs(s', a, None, rev) && AllKeep(s, s', a.branch, q)
            && (Permitted(q, a.visibility) ==> ShownAs(s', a.branch, root', a.id, a.id, q, a.status))
  {
    hide Within, Chain, Shown, EffectiveStatus, StatusIn, Apply, AllKeep, ShownAs, Original;
    root' := OriginalWritten(s, root, a, None, rev, q);
    JoinedExtends(s, Apply(Register(s, rev), AddAssertion(Original(a, None, rev))), root, root', a, None, rev, q);
    OneCommand(Register(s, rev), AddAssertion(Original(a, None, rev)));
    WithinInv(Apply(Register(s, rev), AddAssertion(Original(a, None, rev))), root', s.headSeq);
  }

  /** The replacement and its link, before the replaced assertion is superseded. */
  lemma LinkedWritten(s: Store, root: map<AssertionId, AssertionId>, a: Assertion, o: AssertionId, rev: RevisionId,
      p: Principal)
      returns (root': map<AssertionId, AssertionId>)
    requires Inv(s, root) && rev !in s.revisionSeq && a.id !in s.assertions && a.branch in s.branches
    requires s.headSeq < U64_MAX && Chain(s, a.branch).Some? && o in s.assertions
    ensures var s' := Apply(Apply(Register(s, rev), AddAssertion(Original(a, Some(o), rev))), LinkSupersede(o, a.id));
            Within(s', root', s.headSeq, s.headSeq + 1) && Joined(s, s', root, root', a, Some(o), rev, p)
  {
    hide Within, Chain, Original, Apply, Joined, Register;
    root' := OriginalWritten(s, root, a, Some(o), rev, p);
    var s2 := Apply(Register(s, rev), AddAssertion(Original(a, Some(o), rev)));
    LinkJoins(s, s2, root, root', a, o, rev, p);
  }

  /** Linking the replacement, which was added with the link, leaves it all as it is. */
  lemma LinkJoins(s: Store, s2: Store, root: map<AssertionId, AssertionId>, root': map<AssertionId, AssertionId>,
      a: Assertion, o: AssertionId, rev: RevisionId, p: Principal)
    requires Inv(s, root) && Joined(s, s2, root, root', a, Some(o), rev, p) && o in s.assertions
    requires Within(s2, root', s.headSeq, s.headSeq + 1) && a.branch in s.branches
    ensures var s' := Apply(s2, LinkSupersede(o, a.id));
            Within(s', root', s.headSeq, s.headSeq + 1) && Joined(s, s', root, root', a, Some(o), rev, p)
  {
    hide Families, Dated, Indexed, ForksBelow, ParentsKnown, Chain, StatusIn, Apply, AllKeep, ShownAs;
    WithinKeys(s, root, s.headSeq, s.headSeq);
    RootsKnown(s, root);
    LinkKeeps(s2, root', s.headSeq, s.headSeq + 1, o, a.id);
    LinkedAlready(s2, o, a.id);
  }

  lemma LinkedAlready(s: Store, o: AssertionId, n: AssertionId)
    requires n in s.assertions && s.assertions[n].supersedes == Some(o)
    ensures Apply(s, LinkSupersede(o, n)) == s
  {
    assert s.assertions[n := s.assertions[n].(supersedes := Some(o))] == s.assertions;
  }

  lemma RootsKnown(s: Store, root: map<AssertionId, AssertionId>)
    requires Inv(s, root)
    ensures forall x | x in root :: root[x] in root
  {
    FamiliesRooted(s, root);
  }

  /** What the superseding adds to a store in which the replacement is linked. */
  lemma SupersedeWritten(s: Store, root: map<AssertionId, AssertionId>, f: nat, a: Assertion, id: AssertionId,
      cmd: Command, p: Principal)
      returns (root': map<AssertionId, AssertionId>, m: AssertionId)
    requires Within(s, root, f, f + 1) && s.headSeq == f + 1 <= U64_MAX && Ready(s, f, a.branch, cmd, id)
    requires cmd.ChangeStatus? || cmd.AddAssertion?
    requires a.branch in s.branches && StatusIn(s, a.branch, id, p).Some?
    requires cmd.AddAssertion? ==> SameContent(cmd.assertion, s.assertions[id]) && cmd.assertion.id != a.id
    requires ShownAs(s, a.branch, root, a.id, a.id, p, a.status) && id in root && root[a.id] != root[id]
    requires a.id in s.assertions && a.id != id && (cmd.ChangeStatus? ==> cmd.id == id) && NewStatus(cmd) == Superseded
    ensures var s' := Apply(s, cmd);
            && Inv(s', root') && Extends(root, root') && ShownAs(s', a.branch, root', a.id, a.id, p, a.status)
            && ShownAs(s', a.branch, root', id, m, p, Superseded) && OthersKeep(s, s', a.branch, root, id, p)
            && a.id in s'.assertions && s'.assertions[a.id] == s.assertions[a.id]
  {
    hide Within, Chain, Shown, EffectiveStatus, StatusIn, Apply, ShownAs, Ready, SameContent, Extends, OthersKeep;
    root', m := CommandSets(s, root, f, f + 1, a.branch, cmd, id, p);
    CommandOthers(s, root, f, f + 1, a.branch, cmd, id, p);
    InRoot(s, a.branch, root, a.id, p, a.status);
    ShownThrough(s, a.branch, cmd, root, root', f, f + 1, id, a.id, a.id, p, a.status);
    NewKept(s, cmd, id, a.id);
    HeadOf(s, cmd);
    WithinInv(Apply(s, cmd), root', f);
  }

  lemma InRoot(s: Store, branch: BranchId, root: map<AssertionId, AssertionId>, id: AssertionId, p: Principal,
      st: Status)
    requires ShownAs(s, branch, root, id, id, p, st)
    ensures id in root
  {}

  /** What the theorems need to know of the store in which the replacement is linked. */
  lemma JoinedGives(s: Store, s': Store, root: map<AssertionId, AssertionId>, root': map<AssertionId, AssertionId>,
      a: Assertion, old_: AssertionId, rev: RevisionId, p: Principal)
    requires Inv(s, root) && Joined(s, s', root, root', a, Some(old_), rev, p) && Permitted(p, a.visibility)
    requires old_ in s.assertions
    ensures s'.headSeq == s.headSeq + 1 && s'.branches == s.branches && Chain(s', a.branch) == Chain(s, a.branch)
    ensures AllKeep(s, s', a.branch, p) && StoredAs(s', a, Some(old_), rev) && Extends(root, root')
    ensures ShownAs(s', a.branch, root', a.id, a.id, p, a.status)
    ensures old_ in root && old_ in root' && a.id in root' && root'[a.id] != root'[old_] && a.id != old_
    ensures old_ in s'.assertions && s'.assertions[old_] == s.assertions[old_] && a.id in s'.assertions
    ensures s.assertions.Keys <= s'.assertions.Keys
  {
    hide Families, Dated, Indexed, ForksBelow, ParentsKnown, Chain, StatusIn, ShownAs, AllKeep;
    WithinKeys(s, root, s.headSeq, s.headSeq);
    RootsKnown(s, root);
    JoinedExtends(s, s', root, root', a, Some(old_), rev, p);
  }

  /** A replacement is stored with its link and shown with its own status. If it is accepted at once, the family of the
    * replaced assertion is shown superseded; otherwise no other status changes.
    */
  lemma ReplaceWritten(s: Store, root: map<AssertionId, AssertionId>, p: Principal, a: Assertion, t: Target,
      accepted: bool, rev: RevisionId, now: int)
      returns (root': map<AssertionId, AssertionId>, m: AssertionId)
    requires Inv(s, root) && FreshIds(s, Replace(a, t, accepted), rev) && Permitted(p, a.visibility)
    requires a.branch in s.branches && Chain(s, a.branch).Some? && t.id in s.assertions
    requires accepted ==> StatusIn(s, a.branch, t.id, p).Some?
    ensures var s' := Write(s, p, Replace(a, t, accepted), rev, now);
            && Inv(s', root') && Extends(root, root') && t.id in root
            && StoredAs(s', a, Some(t.id), rev) && ShownAs(s', a.branch, root', a.id, a.id, p, a.status)
            && if accepted
               then ShownAs(s', a.branch, root', t.id, m, p, Superseded) && OthersKeep(s, s', a.branch, root, t.id, p)
               else AllKeep(s, s', a.branch, p)
  {
    hide Within, Chain, Shown, EffectiveStatus, StatusIn, Apply, AllKeep, ShownAs, Original, StatusCommand, Ready,
      Register, Joined, SameContent, Extends, Inv, StoredAs, OthersKeep;
    var s1, f := Register(s, rev), s.headSeq;
    var one, two := AddAssertion(Original(a, Some(t.id), rev)), LinkSupersede(t.id, a.id);
    var root1 := LinkedWritten(s, root, a, t.id, rev, p);
    var s3 := Apply(Apply(s1, one), two);
    JoinedGives(s, s3, root, root1, a, t.id, rev, p);
    if !accepted {
      m, root' := t.id, root1;
      TwoCommands(s1, one, two);
      WithinInv(s3, root', f);
    } else {
      var t' := t.(to := Superseded);
      Planned(s, p, a.branch, t', rev, now);
      var cmd := StatusCommand(s, p, a.branch, t', rev, now).value;
      ThreeCommands(s1, one, two, cmd);
      ReadyAfterReplacement(s, root, p, a, t', rev, now);
      KeptStatus(s, s3, a.branch, t.id, p);
      root', m := SupersedeWritten(s3, root1, f, a, t.id, cmd, p);
      OthersThrough(s, s3, Apply(s3, cmd), a.branch, root, root1, t.id, p);
      ExtendsTransitive(root, root1, root');
      StoredStill(s3, Apply(s3, cmd), a, Some(t.id), rev);
    }
  }

  /** A replacement that is accepted at once is refused as a whole, and changes nothing, if the view does not show what
    * it
    * replaces; and so is every new assertion in an unknown branch.
    */
  lemma ReplaceRefused(s: Store, p: Principal, a: Assertion, t: Target, accepted: bool, rev: RevisionId, now: int)
    requires a.branch !in s.branches || t.id !in s.assertions || (accepted && StatusIn(s, a.branch, t.id, p).None?)
    ensures Write(s, p, Replace(a, t, accepted), rev, now) == s
    ensures a.branch !in s.branches ==> Write(s, p, Propose(a), rev, now) == s
  {
    hide StatusCommand, StatusIn;
    Planned(s, p, a.branch, t.(to := Superseded), rev, now);
  }

  lemma OthersThrough(s: Store, s3: Store, s4: Store, branch: BranchId, root: map<AssertionId, AssertionId>,
      root1: map<AssertionId, AssertionId>, id: AssertionId, p: Principal)
    requires id in root && id in root1 && Extends(root, root1) && s.assertions.Keys <= s3.assertions.Keys
    requires AllKeep(s, s3, branch, p) && OthersKeep(s3, s4, branch, root1, id, p)
    ensures OthersKeep(s, s4, branch, root, id, p)
  {
    hide StatusIn;
  }

  lemma StoredStill(s: Store, s': Store, a: Assertion, supersedes: Option<AssertionId>, rev: RevisionId)
    requires StoredAs(s, a, supersedes, rev) && a.id in s'.assertions && s'.assertions[a.id] == s.assertions[a.id]
    ensures StoredAs(s', a, supersedes, rev)
  {}

  lemma KeptStatus(s: Store, s': Store, branch: BranchId, x: AssertionId, p: Principal)
    requires AllKeep(s, s', branch, p) && x in s.assertions
    ensures StatusIn(s', branch, x, p) == StatusIn(s, branch, x, p)
  {}

  lemma NewKept(s: Store, cmd: Command, changed: AssertionId, x: AssertionId)
    requires x in s.assertions && x != changed
    requires (cmd.ChangeStatus? && cmd.id == changed) || (cmd.AddAssertion? && cmd.assertion.id != x)
    ensures x in Apply(s, cmd).assertions && Apply(s, cmd).assertions[x] == s.assertions[x]
  {}

  lemma ReadyAfterReplacement(s: Store, root: map<AssertionId, AssertionId>, p: Principal, a: Assertion, t: Target,
      rev: RevisionId, now: int)
    requires Inv(s, root) && FreshIds(s, Replace(a, t, true), rev) && a.branch in s.branches
    requires StatusCommand(s, p, a.branch, t, rev, now).Some?
    ensures Ready(Apply(Apply(Register(s, rev), AddAssertion(Original(a, Some(t.id), rev))), LinkSupersede(t.id, a.id)),
                  s.headSeq, a.branch, StatusCommand(s, p, a.branch, t, rev, now).value, t.id)
  {
    hide Families, Indexed, Dated, ParentsKnown, ForksBelow, StatusCommand, Ready, Addable, Isolates;
    var s1, cmd, f := Register(s, rev), StatusCommand(s, p, a.branch, t, rev, now).value, s.headSeq;
    var s2 := Apply(s1, AddAssertion(Original(a, Some(t.id), rev)));
    PlannedReady(s, f, p, a.branch, t, rev, now);
    StatusCommandShape(s, p, a.branch, t, rev, now);
    Registered(s, root, rev, Some(a.branch));
    OriginalAddable(s, a, Some(t.id), rev);
    ReadyAfterOriginal(s1, f, a.branch, Original(a, Some(t.id), rev), cmd, t.id);
    var rootA := OriginalStep(s, root, a, Some(t.id), rev);
    ReadyAfterLink(s2, f, a.branch, t.id, a.id, cmd, t.id);
  }

  // ------------------------------------------------------------ new branches

  /** A new branch begins with what its parent shows: the same status for every assertion and every principal. */
  lemma BranchWritten(s: Store, root: map<AssertionId, AssertionId>, p: Principal, id: BranchId, parent: BranchId,
      rev: RevisionId, now: int, x: AssertionId, q: Principal)
    requires Inv(s, root) && FreshIds(s, NewBranch(id, parent), rev) && parent in s.branches && x in s.assertions
    requires Chain(Write(s, p, NewBranch(id, parent), rev, now), id).Some?
    ensures var s' := Write(s, p, NewBranch(id, parent), rev, now);
            StatusIn(s', id, x, q) == StatusIn(s, parent, x, q) &&
              StatusIn(s', parent, x, q) == StatusIn(s, parent, x, q)
  {
    hide Families, Dated, Indexed, ForksBelow, Chain, ChainFrom, EffectiveStatus, StatusIn, Unnoticed;
    var s1, br := Register(s, rev), Branch(id, Some(parent), s.headSeq);
    var s2 := Apply(s1, CreateBranch(br));
    OneCommand(s1, CreateBranch(br));
    RegisterStatus(s, root, rev, parent, q);
    RegisterKeeps(s, root, rev);
    DatedMade(s, rev);
    BranchChain(s1, br);
    BranchStatusOf(s, s1, br, x, q);
    ChainFrame(s1, s2, parent, U64_MAX, 0);
    ChainsByFrame(s1, s2, parent);
    CreateUnnoticed(s1, StatusView(Chain(s1, parent).value, q), br);
    UnnoticedKeeps(s1, s2, parent, q);
  }

  lemma BranchStatusOf(s: Store, s1: Store, br: Branch, x: AssertionId, q: Principal)
    requires Indexed(s1) && Dated(s, s.headSeq) && br.forkSeq == s.headSeq <= U64_MAX && MadeBy(s1, br.forkSeq)
    requires s1.assertions == s.assertions && x in s.assertions
    requires forall r | r in s.revisionSeq :: r in s1.revisionSeq && s1.revisionSeq[r] == s.revisionSeq[r]
    requires br.parent.Some? && br.id !in s1.branches && Chain(s1, br.parent.value).Some?
    requires var s2 := Apply(s1, CreateBranch(br));
             && Chain(s2, br.id).Some? && |Chain(s2, br.id).value| > 0 && Chain(s2, br.id).value[0].branch == br.id
             && Clipped(Chain(s1, br.parent.value).value, Chain(s2, br.id).value[1..], br.forkSeq)
    ensures StatusIn(Apply(s1, CreateBranch(br)), br.id, x, q) == StatusIn(s1, br.parent.value, x, q)
  {
    hide Chain, ChainFrom, Clipped, Dated, Indexed, MadeBy, InRange;
    var s2, a := Apply(s1, CreateBranch(br)), s1.assertions[x];
    var parent, chain := Chain(s1, br.parent.value).value, Chain(s2, br.id).value;
    OldMade(s1, br, br.forkSeq);
    BranchSets(s1, s2, parent, chain, br.id, br.forkSeq);
    assert x in ShownSet(s2, chain) <==> x in ShownSet(s1, parent);
    if Shown(s1, parent, a) {
      ShownPosition(s1, parent, a);
      BranchRange(s1, s2, parent, chain, br.id, br.forkSeq, a);
      var i := Position(parent, a.branch).value;
      ClippedAt(parent, chain[1..], br.forkSeq, i);
      DatedStill(s, s1, x);
      ReplayClipped(s1, s2, a.history, parent[i].limit, br.forkSeq, Initial(a));
    }
  }

  lemma OldMade(s: Store, br: Branch, f: nat)
    requires Indexed(s) && MadeBy(s, f) && br.id !in s.branches
    ensures forall m | m in s.assertions ::
      s.assertions[m].branch != br.id && SeqOf(s, s.assertions[m].createdRevision) <= f
  {}

  lemma DatedStill(s: Store, s1: Store, x: AssertionId)
    requires Dated(s, s.headSeq) && x in s.assertions
    requires forall r | r in s.revisionSeq :: r in s1.revisionSeq && s1.revisionSeq[r] == s.revisionSeq[r]
    ensures forall i | 0 <= i < |s.assertions[x].history| :: SeqOf(s1, s.assertions[x].history[i].revision) <= s.headSeq
  {}

  lemma ClippedAt(c: seq<Link>, c': seq<Link>, f: nat, i: nat)
    requires Clipped(c, c', f) && i < |c|
    ensures |c'| == |c| && c'[i].limit == Min(c[i].limit, f)
  {}

  /** Cutting the limit at a revision after all changes changes nothing. */
  lemma {:induction false} ReplayClipped(s: Store, s': Store, history: seq<StatusChange>, limit: nat, f: nat,
      st: Status)
    requires s'.revisionSeq == s.revisionSeq && forall i | 0 <= i < |history| :: SeqOf(s, history[i].revision) <= f
    ensures Replay(s', history, Min(limit, f), None, st) == Replay(s, history, limit, None, st)
  {
    if history != [] {
      ReplayClipped(s, s', history[..|history| - 1], limit, f, st);
    }
  }
}
