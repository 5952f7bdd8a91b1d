/** Copy-on-write branches: what a branch view shows of each assertion (view.rs, and the
  * commands of canonical.rs and write.rs that change it).
  */
module Branches {
  import opened Wrappers

  type BranchId = nat
  type AssertionId = nat
  type RevisionId = nat
  type ResourceId = nat

  const U64_MAX: nat := 0xFFFF_FFFF_FFFF_FFFF

  /** A branch chain deeper than this is an error. */
  const MAX_CHAIN: nat := 64

  datatype Status = Accepted | Proposed | Disputed | Retracted | Superseded

  const ALL_STATUSES: set<Status> := {Accepted, Proposed, Disputed, Retracted, Superseded}

  datatype StatusChange = StatusChange(from: Status, to: Status, revision: RevisionId, recordedAt: int,
      basisAcquiredAt: Option<int>)

  datatype Visibility = Public | Groups(groups: set<string>) | Private(owner: string)

  datatype Principal = Principal(actor: string, system: bool, groups: set<string>, onBehalfOf: Option<string>)

  predicate CanSee(p: Principal, v: Visibility) {
    match v
    case Public => true
    case Groups(gs) => p.system || gs * p.groups != {}
    case Private(owner) => p.system || p.actor == owner || p.onBehalfOf == Some(owner)
  }

  /** What an assertion says: subject, key of its predicate, object if that is a resource, and whether it is denied. */
  datatype Claim = Claim(subject: ResourceId, property: string, target: Option<ResourceId>, negated: bool)

  datatype Assertion = Assertion(
    id: AssertionId, claim: Claim, branch: BranchId, status: Status,
    overrides: Option<AssertionId>, supersedes: Option<AssertionId>,
    createdRevision: RevisionId, firstKnownAt: int, history: seq<StatusChange>,
    visibility: Visibility, canon: Option<ResourceId>, timeline: Option<ResourceId>)

  datatype Branch = Branch(id: BranchId, parent: Option<BranchId>, forkSeq: nat)

  datatype Store = Store(
    assertions: map<AssertionId, Assertion>, overrides: map<AssertionId, seq<AssertionId>>,
    branches: map<BranchId, Branch>, revisionSeq: map<RevisionId, nat>, headSeq: nat)

  const MAIN: BranchId := 0

  const EMPTY: Store := Store(map[], map[], map[MAIN := Branch(MAIN, None, 0)], map[], 0)

  // ------------------------------------------------------------ reading

  datatype Link = Link(branch: BranchId, limit: nat)

  function Min(a: nat, b: nat): nat { if a <= b then a else b }

  /** The branch and its ancestors, each with the last revision visible through it. */
  function ChainFrom(s: Store, b: BranchId, limit: nat, depth: nat): (r: Option<seq<Link>>)
    decreases MAX_CHAIN + 1 - depth
  {
    if b !in s.branches || depth >= MAX_CHAIN then None
    else
      var br := s.branches[b];
      match br.parent
      case None => Some([Link(b, limit)])
      case Some(p) =>
        var rest := ChainFrom(s, p, Min(limit, br.forkSeq), depth + 1);
        if rest.None? then None else Some([Link(b, limit)] + rest.value)
  }

  function Chain(s: Store, b: BranchId): Option<seq<Link>> {
    ChainFrom(s, b, U64_MAX, 0)
  }

  /** `chain.iter().position(|(b, _)| *b == branch)` */
  function Position(chain: seq<Link>, b: BranchId): (r: Option<nat>)
    ensures r.Some? ==> r.value < |chain| && chain[r.value].branch == b
  {
    if chain == [] then None
    else if chain[0].branch == b then Some(0)
    else
      var r := Position(chain[1..], b);
      if r.None? then None else Some(r.value + 1)
  }

  function SeqOf(s: Store, r: RevisionId): nat {
    if r in s.revisionSeq then s.revisionSeq[r] else 0
  }

  /** The assertion was created in the chain, at a revision visible through it. */
  predicate InRange(s: Store, chain: seq<Link>, a: Assertion) {
    var pos := Position(chain, a.branch);
    pos.Some? && SeqOf(s, a.createdRevision) <= chain[pos.value].limit
  }

  /** A copy made in a nearer branch hides `a`. */
  predicate HiddenBy(s: Store, chain: seq<Link>, a: Assertion, o: AssertionId) {
    && o in s.assertions
    && InRange(s, chain, s.assertions[o])
    && Position(chain, a.branch).Some?
    && Position(chain, s.assertions[o].branch).value < Position(chain, a.branch).value
  }

  function OverridesOf(s: Store, id: AssertionId): seq<AssertionId> {
    if id in s.overrides then s.overrides[id] else []
  }

  predicate Overridden(s: Store, chain: seq<Link>, a: Assertion) {
    exists o <- OverridesOf(s, a.id) :: HiddenBy(s, chain, a, o)
  }

  /** In range and not overridden: the member of its family that the view shows. */
  predicate Shown(s: Store, chain: seq<Link>, a: Assertion) {
    InRange(s, chain, a) && !Overridden(s, chain, a)
  }

  datatype View = View(chain: seq<Link>, canon: Option<ResourceId>, timelines: Option<set<ResourceId>>,
                       asKnownAt: Option<int>, statuses: set<Status>, principal: Principal)

  predicate Counts(s: Store, c: StatusChange, limit: nat, asKnownAt: Option<int>) {
    && SeqOf(s, c.revision) <= limit
    && (asKnownAt.Some? ==>
      (if c.basisAcquiredAt.Some? then c.basisAcquiredAt.value else c.recordedAt) <= asKnownAt.value)
  }

  /** The last counting change decides; `st` is the status before the first. */
  function Replay(s: Store, history: seq<StatusChange>, limit: nat, asKnownAt: Option<int>, st: Status): Status {
    if history == [] then st
    else
      var last := history[|history| - 1];
      if Counts(s, last, limit, asKnownAt) then last.to
      else Replay(s, history[..|history| - 1], limit, asKnownAt, st)
  }

  function Initial(a: Assertion): Status {
    if a.history == [] then a.status else a.history[0].from
  }

  function EffectiveStatus(s: Store, a: Assertion, view: View): Option<Status> {
    if !Shown(s, view.chain, a) then None
    else if view.asKnownAt.Some? && a.firstKnownAt > view.asKnownAt.value then None
    else
      var st := Replay(s, a.history, view.chain[Position(view.chain, a.branch).value].limit, view.asKnownAt,
        Initial(a));
      if st !in view.statuses || !CanSee(view.principal, a.visibility) then None
      else if view.canon.Some? && a.canon.Some? && view.canon != a.canon then None
      else if view.timelines.Some? && a.timeline.Some? && a.timeline.value !in view.timelines.value then None
      else Some(st)
  }

  // ------------------------------------------------------------ commands

  datatype Command =
    | AddAssertion(assertion: Assertion)
    | ChangeStatus(id: AssertionId, change: StatusChange)
    | LinkSupersede(old_: AssertionId, new_: AssertionId)
    | CreateBranch(branch: Branch)

  function Apply(s: Store, cmd: Command): Store {
    match cmd
    case AddAssertion(a) =>
      var s1 := s.(assertions := s.assertions[a.id := a]);
      if a.overrides.None? then s1
      else s1.(overrides := s.overrides[a.overrides.value := OverridesOf(s, a.overrides.value) + [a.id]])
    case ChangeStatus(id, change) =>
      if id !in s.assertions then s
      else
        var a := s.assertions[id];
        s.(assertions := s.assertions[id := a.(status := change.to, history := a.history + [change])])
    case LinkSupersede(o, n) =>
      if n !in s.assertions then s
      else s.(assertions := s.assertions[n := s.assertions[n].(supersedes := Some(o))])
    case CreateBranch(b) =>
      s.(branches := s.branches[b.id := b])
  }

  function ApplyAll(s: Store, cmds: seq<Command>): Store {
    if cmds == [] then s else Apply(ApplyAll(s, cmds[..|cmds| - 1]), cmds[|cmds| - 1])
  }

  function Register(s: Store, rev: RevisionId): Store {
    s.(revisionSeq := s.revisionSeq[rev := s.headSeq + 1], headSeq := s.headSeq + 1)
  }

  function Commit(s: Store, rev: RevisionId, cmds: seq<Command>): Store {
    ApplyAll(Register(s, rev), cmds)
  }

  // ------------------------------------------------------------ requests

  /** The view in which the status of an assertion is looked up before it is changed. */
  function StatusView(chain: seq<Link>, p: Principal): View {
    View(chain, None, None, None, ALL_STATUSES, p)
  }

  datatype Target = Target(id: AssertionId, to: Status, copyId: AssertionId, basis: Option<int>)

  /** Change in place in the assertion's own branch; elsewhere copy it into this branch. */
  function StatusCommand(s: Store, p: Principal, branch: BranchId, t: Target, rev: RevisionId,
      now: int): Option<Command> {
    if t.id !in s.assertions then None
    else
      var chain := Chain(s, branch);
      if chain.None? then None
      else
        var a := s.assertions[t.id];
        var from := EffectiveStatus(s, a, StatusView(chain.value, p));
        if from.None? then None
        else
          var change := StatusChange(from.value, t.to, rev, now, t.basis);
          if a.branch == branch then Some(ChangeStatus(t.id, change))
          else Some(AddAssertion(a.(id := t.copyId, branch := branch, overrides := Some(a.id), createdRevision := rev,
                                    status := t.to, history := [change])))
  }

  datatype Request =
    | NewBranch(id: BranchId, parent: BranchId)
    | Propose(assertion: Assertion)
    | SetStatus(branch: BranchId, target: Target)
    | Accept(branch: BranchId, target: Target, copyId: AssertionId)
    | Replace(assertion: Assertion, target: Target, accepted: bool)

  /** A new assertion as `build_assertion` makes it. */
  function Original(a: Assertion, supersedes: Option<AssertionId>, rev: RevisionId): Assertion {
    a.(overrides := None, supersedes := supersedes, createdRevision := rev, history := [])
  }

  function Both(a: Option<Command>, b: Option<Command>): Option<seq<Command>> {
    if a.Some? && b.Some? then Some([a.value, b.value]) else None
  }

  /** The commands of a request, or `None` when the write is refused. */
  function Plan(s: Store, p: Principal, req: Request, rev: RevisionId, now: int): Option<seq<Command>> {
    match req
    case NewBranch(id, parent) =>
      if parent !in s.branches then None else Some([CreateBranch(Branch(id, Some(parent), s.headSeq))])
    case Propose(a) =>
      if a.branch !in s.branches then None else Some([AddAssertion(Original(a, None, rev))])
    case SetStatus(branch, t) =>
      var c := StatusCommand(s, p, branch, t, rev, now);
      if c.None? then None else Some([c.value])
    case Accept(branch, t, copyId) =>
      var c := StatusCommand(s, p, branch, t.(to := Accepted), rev, now);
      if c.None? || s.assertions[t.id].supersedes.None? then (if c.None? then None else Some([c.value]))
      else Both(c, StatusCommand(s, p, branch, Target(s.assertions[t.id].supersedes.value, Superseded, copyId, None),
        rev, now))
    case Replace(a, t, accepted) =>
      if a.branch !in s.branches || t.id !in s.assertions then None
      else
        var head := [AddAssertion(Original(a, Some(t.id), rev)), LinkSupersede(t.id, a.id)];
        if !accepted then Some(head)
        else
          var c := StatusCommand(s, p, a.branch, t.(to := Superseded), rev, now);
          if c.None? then None else Some(head + [c.value])
  }

  /** The identifiers that a request introduces are new, as random identifiers are. */
  predicate FreshIds(s: Store, req: Request, rev: RevisionId) {
    && rev !in s.revisionSeq && s.headSeq < U64_MAX
    && match req
       case NewBranch(id, _) => id !in s.branches
       case Propose(a) => a.id !in s.assertions
       case SetStatus(_, t) => t.copyId !in s.assertions
       case Accept(_, t, c) => t.copyId !in s.assertions && c !in s.assertions && c != t.copyId
       case Replace(a, t, _) => a.id !in s.assertions && t.copyId !in s.assertions && a.id != t.copyId
  }

  function Write(s: Store, p: Principal, req: Request, rev: RevisionId, now: int): Store {
    var cmds := Plan(s, p, req, rev, now);
    if cmds.None? then s else Commit(s, rev, cmds.value)
  }

  /** The branch in which a request makes its assertions and status changes. */
  function WrittenBranch(req: Request): Option<BranchId> {
    match req
    case NewBranch(_, _) => None
    case Propose(a) => Some(a.branch)
    case SetStatus(b, _) => Some(b)
    case Accept(b, _, _) => Some(b)
    case Replace(a, _, _) => Some(a.branch)
  }
}
