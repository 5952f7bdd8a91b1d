/** Every write keeps the invariant and is unnoticed by the views of other branches; so does
  * every run of writes.
  */
module BranchWrites {
  import opened Wrappers
  import opened Branches
  import opened BranchProofs
  import opened BranchIsolation

  /** The command changes the status of `id` soundly in store `s`. */
  ghost predicate Ready(s: Store, f: nat, branch: BranchId, cmd: Command, id: AssertionId) {
    match cmd
    case ChangeStatus(x, change) =>
      && x == id && id in s.assertions && s.assertions[id].branch == branch
      && change.from == s.assertions[id].status && change.revision in s.revisionSeq && SeqOf(s, change.revision) > f
    case AddAssertion(a) => Addable(s, a, f) && Copies(s, a, id) && a.branch == branch
    case _ => false
  }

  ghost predicate Extends(root: map<AssertionId, AssertionId>, root': map<AssertionId, AssertionId>) {
    forall x | x in root :: x in root' && root'[x] == root[x]
  }

  lemma ReadyStep(s: Store, root: map<AssertionId, AssertionId>, f: nat, h: nat, branch: BranchId, cmd: Command,
      id: AssertionId)
      returns (root': map<AssertionId, AssertionId>)
    requires Within(s, root, f, h) && Ready(s, f, branch, cmd, id)
    ensures Within(Apply(s, cmd), root', f, h) && Extends(root, root')
    ensures Isolates(s, Apply(s, cmd), Some(branch))
  {
    hide Families, Rooted, Indexed, Dated, Addable, ForksBelow, ParentsKnown, Apply, Copies, Isolates, SeqOf;
    match cmd
    case ChangeStatus(x, change) =>
      ChangeKeeps(s, root, f, h, id, change);
      ChangeIsolates(s, f, id, change);
      root' := root;
    case AddAssertion(a) =>
      WithinKeys(s, root, f, h);
      CopyKnown(s, a, id);
      AddableNew(s, a, f);
      CopyKeeps(s, root, f, h, a, id);
      AddIsolates(s, f, a);
      root' := root[a.id := root[id]];
  }

  lemma WithinKeys(s: Store, root: map<AssertionId, AssertionId>, f: nat, h: nat)
    requires Within(s, root, f, h)
    ensures root.Keys == s.assertions.Keys
  {}

  lemma CopyKnown(s: Store, a: Assertion, h: AssertionId)
    requires Copies(s, a, h)
    ensures h in s.assertions
  {}

  // ------------------------------------------------------------ the planned command is ready

  /** In the assertion's own branch the effective status is the stored one. */
  lemma {:induction false} OwnStatus(s: Store, a: Assertion, chain: seq<Link>, p: Principal, h: nat)
    requires Linked(a) && a.branch in s.branches && Chain(s, a.branch) == Some(chain) && ForksBelow(s, h)
    requires forall i | 0 <= i < |a.history| :: SeqOf(s, a.history[i].revision) <= U64_MAX
    requires EffectiveStatus(s, a, StatusView(chain, p)).Some?
    ensures EffectiveStatus(s, a, StatusView(chain, p)) == Some(a.status)
  {
    ChainShape(s, a.branch, U64_MAX, 0, h);
  }

  lemma DatedBound(s: Store, h: nat, id: AssertionId)
    requires Dated(s, h) && id in s.assertions
    ensures forall i | 0 <= i < |s.assertions[id].history| :: SeqOf(s, s.assertions[id].history[i].revision) <= h
    ensures SeqOf(s, s.assertions[id].createdRevision) <= h
  {}

  lemma IndexedAt(s: Store, id: AssertionId)
    requires Indexed(s) && id in s.assertions
    ensures s.assertions[id].id == id && s.assertions[id].branch in s.branches && Linked(s.assertions[id])
  {}

  lemma PlannedReady(s: Store, h: nat, p: Principal, branch: BranchId, t: Target, rev: RevisionId, now: int)
    requires ForksBelow(s, h) && ParentsKnown(s) && Dated(s, h) && Indexed(s) && h < U64_MAX && s.headSeq == h
    requires rev !in s.revisionSeq && t.copyId !in s.assertions && StatusCommand(s, p, branch, t, rev, now).Some?
    ensures t.id in s.assertions &&
      Ready(Register(s, rev), h, branch, StatusCommand(s, p, branch, t, rev, now).value, t.id)
  {
    hide ForksBelow, ParentsKnown, Dated, Indexed, Linked;
    var s', a, chain := Register(s, rev), s.assertions[t.id], Chain(s, branch).value;
    IndexedAt(s, t.id);
    DatedBound(s, h, t.id);
    if a.branch == branch {
      hide EffectiveStatus;
      OwnStatus(s, a, chain, p, h);
    } else {
      ChainFrame(s, s', branch, U64_MAX, 0);
      RegisteredShown(s, h, rev, chain, t.id);
      ChangeIsLinked();
    }
  }

  lemma ChangeIsLinked()
    ensures forall a: Assertion, change: StatusChange ::
              a.history == [change] && a.status == change.to ==> Linked(a)
  {}

  lemma RegisteredShown(s: Store, h: nat, rev: RevisionId, chain: seq<Link>, id: AssertionId)
    requires Dated(s, h) && rev !in s.revisionSeq && id in s.assertions
    ensures Shown(Register(s, rev), chain, s.assertions[id]) <==> Shown(s, chain, s.assertions[id])
  {
    SameShown(s, Register(s, rev), chain, id);
  }

  // ------------------------------------------------------------ readiness survives earlier commands

  lemma CopyFresh(s: Store, f: nat, branch: BranchId, cmd: Command, id: AssertionId)
    requires Ready(s, f, branch, cmd, id)
    ensures id in s.assertions && (cmd.AddAssertion? ==> cmd.assertion.id !in s.assertions)
  {}

  /** Commands about different assertions do not disturb one another. */
  lemma ReadyAfterStatus(s: Store, f: nat, branch: BranchId, one: Command, id: AssertionId, two: Command,
      other: AssertionId)
    requires ForksBelow(s, f) && ParentsKnown(s) && Indexed(s)
    requires Ready(s, f, branch, one, id) && Ready(s, f, branch, two, other) && id != other
    requires one.AddAssertion? && two.AddAssertion? ==> one.assertion.id != two.assertion.id
    ensures Ready(Apply(s, one), f, branch, two, other)
  {
    CopyFresh(s, f, branch, one, id);
    CopyFresh(s, f, branch, two, other);
    if two.AddAssertion? {
      if one.ChangeStatus? {
        ReadyAfterSame(s, Apply(s, one), f, branch, two, other);
      } else {
        ReadyAfterAdd(s, f, branch, one.assertion, two, other);
      }
    }
  }

  lemma ReadyAfterSame(s: Store, s': Store, f: nat, branch: BranchId, cmd: Command, id: AssertionId)
    requires ParentsKnown(s) && cmd.AddAssertion? && Ready(s, f, branch, cmd, id) && SameFamilies(s, s')
    requires s'.revisionSeq == s.revisionSeq && id in s.assertions &&
      s'.assertions[id].supersedes == s.assertions[id].supersedes
    ensures Ready(s', f, branch, cmd, id)
  {
    var chain := Chain(s, branch).value;
    ChainFrame(s, s', branch, U64_MAX, 0);
    SameShown(s, s', chain, id);
  }

  lemma ReadyAfterAdd(s: Store, f: nat, branch: BranchId, a: Assertion, cmd: Command, id: AssertionId)
    requires ForksBelow(s, f) && ParentsKnown(s) && Indexed(s)
    requires Addable(s, a, f) && a.overrides != Some(id) && Ready(s, f, branch, cmd, id) && cmd.AddAssertion? &&
      a.id != cmd.assertion.id
    ensures Ready(Apply(s, AddAssertion(a)), f, branch, cmd, id)
  {
    hide Indexed, ForksBelow, ParentsKnown;
    ChainKept(s, a, branch);
    AddedElsewhere(s, Apply(s, AddAssertion(a)), Chain(s, branch).value, a, id);
  }

  lemma ReadyAfterOriginal(s: Store, f: nat, branch: BranchId, a: Assertion, cmd: Command, id: AssertionId)
    requires ForksBelow(s, f) && ParentsKnown(s) && Indexed(s) && Addable(s, a, f) && a.overrides.None?
    requires Ready(s, f, branch, cmd, id) && (cmd.AddAssertion? ==> a.id != cmd.assertion.id)
    ensures Ready(Apply(s, AddAssertion(a)), f, branch, cmd, id)
  {
    CopyFresh(s, f, branch, cmd, id);
    if cmd.AddAssertion? {
      ReadyAfterAdd(s, f, branch, a, cmd, id);
    }
  }

  lemma ReadyAfterLink(s: Store, f: nat, branch: BranchId, o: AssertionId, n: AssertionId, cmd: Command,
      id: AssertionId)
    requires ParentsKnown(s) && Ready(s, f, branch, cmd, id) && n in s.assertions && n != id
    ensures Ready(Apply(s, LinkSupersede(o, n)), f, branch, cmd, id)
  {
    CopyFresh(s, f, branch, cmd, id);
    if cmd.AddAssertion? {
      ReadyAfterSame(s, Apply(s, LinkSupersede(o, n)), f, branch, cmd, id);
    }
  }

  // ------------------------------------------------------------ requests

  /** What a request promises: the invariant again, old families kept, other branches undisturbed. */
  ghost predicate Kept(s: Store, s': Store, root: map<AssertionId, AssertionId>, root': map<AssertionId, AssertionId>,
                       written: Option<BranchId>) {
    Inv(s', root') && Extends(root, root') && Isolates(s, s', written)
  }

  lemma WithinInv(s: Store, root: map<AssertionId, AssertionId>, f: nat)
    requires Within(s, root, f, f + 1) && s.headSeq == f + 1
    ensures Inv(s, root)
  {
    hide Families, Indexed, Dated, ParentsKnown;
  }

  lemma NothingKept(s: Store, root: map<AssertionId, AssertionId>, written: Option<BranchId>)
    requires Inv(s, root)
    ensures Kept(s, s, root, root, written)
  {
    hide Within;
    forall view: View | view.asKnownAt.None?
      ensures Unnoticed(s, s, view)
    {}
  }

  lemma Registered(s: Store, root: map<AssertionId, AssertionId>, rev: RevisionId, written: Option<BranchId>)
    requires Inv(s, root) && rev !in s.revisionSeq
    ensures Within(Register(s, rev), root, s.headSeq, s.headSeq + 1) && Isolates(s, Register(s, rev), written)
  {
    hide Families, Indexed, Dated, ParentsKnown, ForksBelow, Isolates;
    RegisterKeeps(s, root, rev);
    RegisterIsolates(s, rev, s.headSeq, written);
  }

  lemma OneCommand(s: Store, cmd: Command)
    ensures ApplyAll(s, [cmd]) == Apply(s, cmd)
  {
    assert [cmd][..0] == [];
  }

  lemma TwoCommands(s: Store, one: Command, two: Command)
    ensures ApplyAll(s, [one, two]) == Apply(Apply(s, one), two)
  {
    assert [one, two][..1] == [one];
    OneCommand(s, one);
  }

  lemma ThreeCommands(s: Store, one: Command, two: Command, three: Command)
    ensures ApplyAll(s, [one, two] + [three]) == Apply(Apply(Apply(s, one), two), three)
  {
    assert ([one, two] + [three])[..2] == [one, two];
    TwoCommands(s, one, two);
  }

  lemma SetStatusKeeps(s: Store, root: map<AssertionId, AssertionId>, p: Principal, branch: BranchId, t: Target,
      rev: RevisionId, now: int)
      returns (root': map<AssertionId, AssertionId>)
    requires Inv(s, root) && FreshIds(s, SetStatus(branch, t), rev) && StatusCommand(s, p, branch, t, rev, now).Some?
    ensures Kept(s, Apply(Register(s, rev), StatusCommand(s, p, branch, t, rev, now).value), root, root', Some(branch))
  {
    hide Families, Indexed, Dated, ParentsKnown, ForksBelow, Isolates, StatusCommand, Ready, Extends;
    var s1, cmd := Register(s, rev), StatusCommand(s, p, branch, t, rev, now).value;
    Registered(s, root, rev, Some(branch));
    PlannedReady(s, s.headSeq, p, branch, t, rev, now);
    root' := ReadyStep(s1, root, s.headSeq, s.headSeq + 1, branch, cmd, t.id);
    IsolatesTransitive(s, s1, Apply(s1, cmd), Some(branch));
    WithinInv(Apply(s1, cmd), root', s.headSeq);
  }

  lemma SupersededOther(s: Store, root: map<AssertionId, AssertionId>, id: AssertionId)
    requires Inv(s, root) && id in s.assertions && s.assertions[id].supersedes.Some?
    ensures s.assertions[id].supersedes.value != id
  {}

  lemma ExtendsTransitive(a: map<AssertionId, AssertionId>, b: map<AssertionId, AssertionId>,
      c: map<AssertionId, AssertionId>)
    requires Extends(a, b) && Extends(b, c)
    ensures Extends(a, c)
  {}

  lemma StatusCommandShape(s: Store, p: Principal, branch: BranchId, t: Target, rev: RevisionId, now: int)
    requires StatusCommand(s, p, branch, t, rev, now).Some?
    ensures var c := StatusCommand(s, p, branch, t, rev, now).value; c.AddAssertion? ==> c.assertion.id == t.copyId
  {}

  lemma AcceptKeeps(s: Store, root: map<AssertionId, AssertionId>, p: Principal, branch: BranchId, t: Target, u: Target,
      rev: RevisionId, now: int)
      returns (root': map<AssertionId, AssertionId>)
    requires Inv(s, root) && FreshIds(s, SetStatus(branch, t), rev) && u.copyId !in s.assertions &&
      u.copyId != t.copyId && t.id != u.id
    requires StatusCommand(s, p, branch, t, rev, now).Some? && StatusCommand(s, p, branch, u, rev, now).Some?
    ensures Kept(s, Apply(Apply(Register(s, rev), StatusCommand(s, p, branch, t, rev, now).value),
                          StatusCommand(s, p, branch, u, rev, now).value), root, root', Some(branch))
  {
    hide Families, Indexed, Dated, ParentsKnown, ForksBelow, Isolates, StatusCommand, Ready, Extends;
    var s1, one, two := Register(s, rev), StatusCommand(s, p, branch, t, rev, now).value,
      StatusCommand(s, p, branch, u, rev, now).value;
    var s2, f := Apply(s1, one), s.headSeq;
    Registered(s, root, rev, Some(branch));
    PlannedReady(s, f, p, branch, t, rev, now);
    PlannedReady(s, f, p, branch, u, rev, now);
    StatusCommandShape(s, p, branch, t, rev, now);
    StatusCommandShape(s, p, branch, u, rev, now);
    ReadyAfterStatus(s1, f, branch, one, t.id, two, u.id);
    var root1 := ReadyStep(s1, root, f, f + 1, branch, one, t.id);
    root' := ReadyStep(s2, root1, f, f + 1, branch, two, u.id);
    IsolatesTransitive(s, s1, s2, Some(branch));
    IsolatesTransitive(s, s2, Apply(s2, two), Some(branch));
    ExtendsTransitive(root, root1, root');
    WithinInv(Apply(s2, two), root', f);
  }

  lemma OriginalAddable(s: Store, a: Assertion, old_: Option<AssertionId>, rev: RevisionId)
    requires a.id !in s.assertions && a.branch in s.branches && s.headSeq < U64_MAX
    ensures Addable(Register(s, rev), Original(a, old_, rev), s.headSeq)
  {}

  lemma OriginalStep(s: Store, root: map<AssertionId, AssertionId>, a: Assertion, old_: Option<AssertionId>,
      rev: RevisionId)
      returns (root': map<AssertionId, AssertionId>)
    requires Inv(s, root) && rev !in s.revisionSeq && a.id !in s.assertions && a.branch in s.branches &&
      s.headSeq < U64_MAX
    requires old_.Some? ==> old_.value in s.assertions
    ensures var s' := Apply(Register(s, rev), AddAssertion(Original(a, old_, rev)));
            && Within(s', root', s.headSeq, s.headSeq + 1) && s'.headSeq == s.headSeq + 1
            && Isolates(s, s', Some(a.branch))
    ensures a.id !in root && root' == root[a.id := a.id] && forall x | x in root :: root[x] in root
  {
    hide Families, Indexed, Dated, ParentsKnown, ForksBelow, Isolates, Addable;
    var s1 := Register(s, rev);
    Registered(s, root, rev, Some(a.branch));
    OriginalAddable(s, a, old_, rev);
    OriginalKeeps(s1, root, s.headSeq, s.headSeq + 1, Original(a, old_, rev));
    AddIsolates(s1, s.headSeq, Original(a, old_, rev));
    FamiliesRooted(s, root);
    RootedKeys(s, root);
    root' := root[a.id := a.id];
    IsolatesTransitive(s, s1, Apply(s1, AddAssertion(Original(a, old_, rev))), Some(a.branch));
  }

  lemma ProposeKeeps(s: Store, root: map<AssertionId, AssertionId>, a: Assertion, rev: RevisionId)
      returns (root': map<AssertionId, AssertionId>)
    requires Inv(s, root) && FreshIds(s, Propose(a), rev) && a.branch in s.branches
    ensures Kept(s, Apply(Register(s, rev), AddAssertion(Original(a, None, rev))), root, root', Some(a.branch))
  {
    hide Within, Isolates, Original;
    root' := OriginalStep(s, root, a, None, rev);
    WithinInv(Apply(Register(s, rev), AddAssertion(Original(a, None, rev))), root', s.headSeq);
  }

  /** A replacement is added and linked to what it replaces. */
  lemma LinkedStep(s: Store, root: map<AssertionId, AssertionId>, a: Assertion, o: AssertionId, rev: RevisionId)
      returns (root': map<AssertionId, AssertionId>)
    requires Inv(s, root) && rev !in s.revisionSeq && a.id !in s.assertions && a.branch in s.branches &&
      s.headSeq < U64_MAX
    requires o in s.assertions
    ensures var s' := Apply(Apply(Register(s, rev), AddAssertion(Original(a, Some(o), rev))), LinkSupersede(o, a.id));
            && Within(s', root', s.headSeq, s.headSeq + 1) && s'.headSeq == s.headSeq + 1
            && Isolates(s, s', Some(a.branch)) && Extends(root, root')
  {
    hide Families, Indexed, Dated, ParentsKnown, ForksBelow, Isolates;
    WithinKeys(s, root, s.headSeq, s.headSeq);
    root' := OriginalStep(s, root, a, Some(o), rev);
    var s2 := Apply(Register(s, rev), AddAssertion(Original(a, Some(o), rev)));
    LinkKeeps(s2, root', s.headSeq, s.headSeq + 1, o, a.id);
    LinkIsolates(s2, o, a.id, Some(a.branch));
    IsolatesTransitive(s, s2, Apply(s2, LinkSupersede(o, a.id)), Some(a.branch));
  }

  lemma ReplaceKeeps(s: Store, root: map<AssertionId, AssertionId>, p: Principal, a: Assertion, t: Target,
      rev: RevisionId, now: int)
      returns (root': map<AssertionId, AssertionId>)
    requires Inv(s, root) && FreshIds(s, Replace(a, t, true), rev) && a.branch in s.branches
    requires StatusCommand(s, p, a.branch, t, rev, now).Some?
    ensures Kept(s, Apply(Apply(Apply(Register(s, rev), AddAssertion(Original(a, Some(t.id), rev))),
      LinkSupersede(t.id, a.id)),
                          StatusCommand(s, p, a.branch, t, rev, now).value), root, root', Some(a.branch))
  {
    hide Families, Indexed, Dated, ParentsKnown, ForksBelow, Isolates, StatusCommand, Ready, Extends, Addable;
    var s1, cmd, f := Register(s, rev), StatusCommand(s, p, a.branch, t, rev, now).value, s.headSeq;
    var s2 := Apply(s1, AddAssertion(Original(a, Some(t.id), rev)));
    var s3 := Apply(s2, LinkSupersede(t.id, a.id));
    PlannedReady(s, f, p, a.branch, t, rev, now);
    StatusCommandShape(s, p, a.branch, t, rev, now);
    Registered(s, root, rev, Some(a.branch));
    OriginalAddable(s, a, Some(t.id), rev);
    ReadyAfterOriginal(s1, f, a.branch, Original(a, Some(t.id), rev), cmd, t.id);
    var rootA := OriginalStep(s, root, a, Some(t.id), rev);
    ReadyAfterLink(s2, f, a.branch, t.id, a.id, cmd, t.id);
    var root1 := LinkedStep(s, root, a, t.id, rev);
    root' := ReadyStep(s3, root1, f, f + 1, a.branch, cmd, t.id);
    IsolatesTransitive(s, s3, Apply(s3, cmd), Some(a.branch));
    ExtendsTransitive(root, root1, root');
    WithinInv(Apply(s3, cmd), root', f);
  }

  lemma DatedMade(s: Store, rev: RevisionId)
    requires Dated(s, s.headSeq) && rev !in s.revisionSeq
    ensures MadeBy(Register(s, rev), s.headSeq)
  {}

  lemma NewBranchKeeps(s: Store, root: map<AssertionId, AssertionId>, id: BranchId, parent: BranchId, rev: RevisionId)
    requires Inv(s, root) && FreshIds(s, NewBranch(id, parent), rev) && parent in s.branches
    ensures Kept(s, Apply(Register(s, rev), CreateBranch(Branch(id, Some(parent), s.headSeq))), root, root, None)
  {
    hide Families, Indexed, Dated, ParentsKnown, ForksBelow, Isolates, MadeBy;
    var s1, br := Register(s, rev), Branch(id, Some(parent), s.headSeq);
    Registered(s, root, rev, None);
    DatedMade(s, rev);
    CreateKeeps(s1, root, s.headSeq, s.headSeq + 1, br);
    CreateIsolates(s1, br, None);
    IsolatesTransitive(s, s1, Apply(s1, CreateBranch(br)), None);
    WithinInv(Apply(s1, CreateBranch(br)), root, s.headSeq);
  }

  /** Every write keeps the invariant, and no view of another branch notices it. */
  lemma WriteKeeps(s: Store, root: map<AssertionId, AssertionId>, p: Principal, req: Request, rev: RevisionId, now: int)
      returns (root': map<AssertionId, AssertionId>)
    requires Inv(s, root) && FreshIds(s, req, rev)
    ensures Kept(s, Write(s, p, req, rev, now), root, root', WrittenBranch(req))
  {
    hide Kept, Inv, Apply, StatusCommand;
    var s1, plan := Register(s, rev), Plan(s, p, req, rev, now);
    if plan.None? {
      NothingKept(s, root, WrittenBranch(req));
      return root;
    }
    match req
    case NewBranch(id, parent) =>
      NewBranchKeeps(s, root, id, parent, rev);
      OneCommand(s1, plan.value[0]);
      root' := root;
    case Propose(a) =>
      root' := ProposeKeeps(s, root, a, rev);
      OneCommand(s1, plan.value[0]);
    case SetStatus(branch, t) =>
      root' := SetStatusKeeps(s, root, p, branch, t, rev, now);
      OneCommand(s1, plan.value[0]);
    case Accept(branch, t, copyId) =>
      var t' := t.(to := Accepted);
      StatusCommandKnown(s, p, branch, t', rev, now);
      if s.assertions[t.id].supersedes.None? {
        root' := SetStatusKeeps(s, root, p, branch, t', rev, now);
        OneCommand(s1, plan.value[0]);
      } else {
        SupersededOther(s, root, t.id);
        root' := AcceptKeeps(s, root, p, branch, t',
          Target(s.assertions[t.id].supersedes.value, Superseded, copyId, None), rev, now);
        TwoCommands(s1, plan.value[0], plan.value[1]);
      }
    case Replace(a, t, accepted) =>
      root' := ReplacePlanKeeps(s, root, p, a, t, accepted, rev, now);
  }

  lemma StatusCommandKnown(s: Store, p: Principal, branch: BranchId, t: Target, rev: RevisionId, now: int)
    requires StatusCommand(s, p, branch, t, rev, now).Some?
    ensures t.id in s.assertions
  {}

  lemma ReplacePlanKeeps(s: Store, root: map<AssertionId, AssertionId>, p: Principal, a: Assertion, t: Target,
      accepted: bool,
                         rev: RevisionId, now: int) returns (root': map<AssertionId, AssertionId>)
    requires Inv(s, root) && FreshIds(s, Replace(a, t, accepted), rev) &&
      Plan(s, p, Replace(a, t, accepted), rev, now).Some?
    ensures Kept(s, Write(s, p, Replace(a, t, accepted), rev, now), root, root', Some(a.branch))
  {
    hide Within, Apply, StatusCommand, Isolates, Extends;
    var s1 := Register(s, rev);
    var one, two := AddAssertion(Original(a, Some(t.id), rev)), LinkSupersede(t.id, a.id);
    if accepted {
      var t' := t.(to := Superseded);
      root' := ReplaceKeeps(s, root, p, a, t', rev, now);
      ThreeCommands(s1, one, two, StatusCommand(s, p, a.branch, t', rev, now).value);
    } else {
      root' := LinkedStep(s, root, a, t.id, rev);
      TwoCommands(s1, one, two);
      WithinInv(Apply(Apply(s1, one), two), root', s.headSeq);
    }
  }

  // ------------------------------------------------------------ runs

  datatype Entry = Entry(principal: Principal, request: Request, revision: RevisionId, now: int)

  function Run(s: Store, run: seq<Entry>): Store
    decreases |run|
  {
    if run == [] then s else Run(Write(s, run[0].principal, run[0].request, run[0].revision, run[0].now), run[1..])
  }

  ghost predicate FreshRun(s: Store, run: seq<Entry>)
    decreases |run|
  {
    run != [] ==>
      && FreshIds(s, run[0].request, run[0].revision)
      && FreshRun(Write(s, run[0].principal, run[0].request, run[0].revision, run[0].now), run[1..])
  }

  ghost predicate OnOtherBranches(run: seq<Entry>, b: BranchId) {
    forall i | 0 <= i < |run| :: WrittenBranch(run[i].request) != Some(b)
  }

  /** A run keeps the invariant. */
  lemma {:induction false} RunKeeps(s: Store, root: map<AssertionId, AssertionId>, run: seq<Entry>)
      returns (root': map<AssertionId, AssertionId>)
    requires Inv(s, root) && FreshRun(s, run)
    ensures Inv(Run(s, run), root')
    decreases |run|
  {
    hide Inv, Isolates, Extends, Write, FreshIds;
    if run == [] {
      root' := root;
    } else {
      var e := run[0];
      var root1 := WriteKeeps(s, root, e.principal, e.request, e.revision, e.now);
      root' := RunKeeps(Write(s, e.principal, e.request, e.revision, e.now), root1, run[1..]);
    }
  }

  /** A view of a branch does not notice any run of writes on other branches. */
  lemma {:induction false} RunUnnoticed(s: Store, root: map<AssertionId, AssertionId>, run: seq<Entry>, b: BranchId,
      view: View)
    requires Inv(s, root) && FreshRun(s, run) && OnOtherBranches(run, b) && Sees(s, b, view)
    ensures Sees(Run(s, run), b, view) && Unnoticed(s, Run(s, run), view)
    decreases |run|
  {
    hide Inv, Extends, Write, FreshIds, Sees, Unnoticed;
    if run == [] {
      NothingUnnoticed(s, view);
    } else {
      var e := run[0];
      var t := Write(s, e.principal, e.request, e.revision, e.now);
      var root1 := WriteKeeps(s, root, e.principal, e.request, e.revision, e.now);
      assert Sees(t, b, view) && Unnoticed(s, t, view);
      assert OnOtherBranches(run[1..], b);
      RunUnnoticed(t, root1, run[1..], b, view);
      UnnoticedTransitive(s, t, Run(t, run[1..]), view);
    }
  }

  lemma NothingUnnoticed(s: Store, view: View)
    ensures Unnoticed(s, s, view)
  {}

  lemma UnnoticedTransitive(s: Store, t: Store, u: Store, view: View)
    requires Unnoticed(s, t, view) && Unnoticed(t, u, view)
    ensures Unnoticed(s, u, view)
  {
    hide EffectiveStatus;
    forall id | id in s.assertions ensures SameStatus(s, u, view, id) {
      assert SameStatus(s, t, view, id) && SameStatus(t, u, view, id);
    }
    forall id | id in u.assertions && id !in s.assertions ensures Invisible(u, view, id) {
      if id in t.assertions {
        assert Invisible(t, view, id) && SameStatus(t, u, view, id);
      }
    }
  }

  // ------------------------------------------------------------ what every view shows

  const SYSTEM: Principal := Principal("", true, {}, None)

  /** The unrestricted view of the chain gives the member `m` of the family of `o` a status. */
  ghost predicate Chosen(s: Store, chain: seq<Link>, root: map<AssertionId, AssertionId>, o: AssertionId,
      m: AssertionId) {
    m in s.assertions && m in root && root[m] == o &&
      EffectiveStatus(s, s.assertions[m], StatusView(chain, SYSTEM)).Some?
  }

  lemma {:induction false} ReplayStatus(s: Store, history: seq<StatusChange>, limit: nat, known: Option<int>,
      st: Status)
    ensures Replay(s, history, limit, known, st) in ALL_STATUSES
  {
    match Replay(s, history, limit, known, st)
    case Accepted =>
    case Proposed =>
    case Disputed =>
    case Retracted =>
    case Superseded =>
  }

  lemma ChosenShown(s: Store, chain: seq<Link>, root: map<AssertionId, AssertionId>, o: AssertionId, m: AssertionId)
    ensures Chosen(s, chain, root, o, m) <==> Represents(ShownSet(s, chain), root, o, m)
  {
    if m in s.assertions && Shown(s, chain, s.assertions[m]) {
      ReplayStatus(s, s.assertions[m].history, chain[Position(chain, s.assertions[m].branch).value].limit, None,
        Initial(s.assertions[m]));
    }
  }

  /** After any run, every branch view shows exactly one member of the family of each original
    * that was made within its chain and limits, and no member of any other family.
    */
  lemma EveryViewShowsOne(run: seq<Entry>) returns (root: map<AssertionId, AssertionId>)
    requires FreshRun(EMPTY, run)
    ensures Rooted(Run(EMPTY, run), root)
    ensures forall b: BranchId, o: AssertionId |
      var s := Run(EMPTY, run);
        b in s.branches && Chain(s, b).Some? && o in s.assertions && s.assertions[o].overrides.None? ::
      var s := Run(EMPTY, run);
      var chain := Chain(s, b).value;
      if InRange(s, chain, s.assertions[o])
      then exists m :: Chosen(s, chain, root, o, m) && forall n | Chosen(s, chain, root, o, n) :: n == m
      else forall n :: !Chosen(s, chain, root, o, n)
  {
    EmptyInv();
    root := RunKeeps(EMPTY, map[], run);
    var s := Run(EMPTY, run);
    assert Families(s, root);
    forall b: BranchId, o: AssertionId | b in s.branches && Chain(s, b).Some? && o in s.assertions &&
      s.assertions[o].overrides.None?
      ensures var chain := Chain(s, b).value;
              if InRange(s, chain, s.assertions[o])
              then exists m :: Chosen(s, chain, root, o, m) && forall n | Chosen(s, chain, root, o, n) :: n == m
              else forall n :: !Chosen(s, chain, root, o, n)
    {
      hide Run, Inv, Rooted, Chain, Shown, InRange, Families, Chosen;
      FamiliesOneShown(s, root, b);
      ChosenOnce(s, Chain(s, b).value, root, o);
    }
  }

  lemma ChosenOnce(s: Store, chain: seq<Link>, root: map<AssertionId, AssertionId>, o: AssertionId)
    requires OneShown(s, chain, root) && o in s.assertions && s.assertions[o].overrides.None?
    ensures if InRange(s, chain, s.assertions[o])
            then exists m :: Chosen(s, chain, root, o, m) && forall n | Chosen(s, chain, root, o, n) :: n == m
            else forall n :: !Chosen(s, chain, root, o, n)
  {
    hide Chosen, Shown, InRange;
    forall m ensures Chosen(s, chain, root, o, m) <==> Represents(ShownSet(s, chain), root, o, m) {
      ChosenShown(s, chain, root, o, m);
    }
    assert InRange(s, chain, s.assertions[o]) <==> o in RangeSet(s, chain);
    if InRange(s, chain, s.assertions[o]) {
      assert o in Originals(s) && o in RangeSet(s, chain);
      var m :| Represents(ShownSet(s, chain), root, o, m);
      assert Chosen(s, chain, root, o, m);
    } else {
      forall n ensures Represents(ShownSet(s, chain), root, o, n) ==> o in RangeSet(s, chain) {
        assert n in ShownSet(s, chain) ==> n in RangeSet(s, chain);
      }
    }
  }

  /** Branch isolation over runs: after any run, a view of a branch gives every assertion the same
    * status before and after any further run of writes on other branches, and none to what they add.
    */
  lemma BranchesAreIsolated(run: seq<Entry>, more: seq<Entry>, b: BranchId, view: View)
    requires FreshRun(EMPTY, run) && FreshRun(Run(EMPTY, run), more) && OnOtherBranches(more, b)
    requires Sees(Run(EMPTY, run), b, view)
    ensures var s, s' := Run(EMPTY, run), Run(Run(EMPTY, run), more);
            && Sees(s', b, view)
            && (forall id | id in s.assertions ::
                  id in s'.assertions &&
                    EffectiveStatus(s', s'.assertions[id], view) == EffectiveStatus(s, s.assertions[id], view))
            && (forall id | id in s'.assertions && id !in s.assertions ::
              EffectiveStatus(s', s'.assertions[id], view) == None)
  {
    hide Run, FreshRun, Inv, EffectiveStatus, Sees, OnOtherBranches;
    EmptyInv();
    var root := RunKeeps(EMPTY, map[], run);
    var s := Run(EMPTY, run);
    RunUnnoticed(s, root, more, b, view);
    var s' := Run(s, more);
    forall id | id in s.assertions
      ensures id in s'.assertions &&
        EffectiveStatus(s', s'.assertions[id], view) == EffectiveStatus(s, s.assertions[id], view)
    {
      assert SameStatus(s, s', view, id);
    }
    forall id | id in s'.assertions && id !in s.assertions
      ensures EffectiveStatus(s', s'.assertions[id], view) == None
    {
      assert Invisible(s', view, id);
    }
  }
}
