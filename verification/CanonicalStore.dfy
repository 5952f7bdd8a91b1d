/** The canonical store as it is updated in place: assertions, branches, revisions and merges. */
module Canonical {
  import opened Wrappers
  import opened Branches
  import I = Identity

  /** A live assertion that its subject and its object are distinct. */
  predicate DeclaresDistinct(a: Assertion) {
    && a.status in {Accepted, Proposed, Disputed}
    && a.claim.property == "distinct_from" && !a.claim.negated && a.claim.target.Some?
  }

  predicate Between(claim: Claim, from: I.ResourceId, into: I.ResourceId)
    requires claim.target.Some?
  {
    claim.subject in {from, into} && claim.target.value in {from, into}
  }

  ghost function DeclaredPairs(assertions: map<AssertionId, Assertion>): set<(I.ResourceId, I.ResourceId)> {
    set a | a in assertions && DeclaresDistinct(assertions[a]) ::
      (assertions[a].claim.subject, assertions[a].claim.target.value)
  }

  lemma DeclaredBlocks(assertions: map<AssertionId, Assertion>, from: I.ResourceId, into: I.ResourceId)
    ensures I.Blocked(DeclaredPairs(assertions), from, into) <==>
              exists a :: a in assertions && DeclaresDistinct(assertions[a]) && Between(assertions[a].claim, from, into)
  {
    if a :| a in assertions && DeclaresDistinct(assertions[a]) && Between(assertions[a].claim, from, into) {
      assert (assertions[a].claim.subject, assertions[a].claim.target.value) in DeclaredPairs(assertions);
    }
  }

  class CanonicalStore {
    var assertions: map<AssertionId, Assertion>
    var overrides: map<AssertionId, seq<AssertionId>>
    var branches: map<BranchId, Branch>
    var revisionSeq: map<RevisionId, nat>
    var headSeq: nat
    var resources: set<I.ResourceId>
    var redirects: map<I.ResourceId, I.ResourceId>
    var mergedMembers: map<I.ResourceId, seq<I.ResourceId>>
    var mergeProposals: map<I.ProposalId, I.Proposal>

    ghost function State(): Store
      reads this
    {
      Store(assertions, overrides, branches, revisionSeq, headSeq)
    }

    ghost function Merges(): I.Identities
      reads this
    {
      I.Identities(resources, redirects, mergedMembers, mergeProposals, DeclaredPairs(assertions))
    }

    constructor ()
      ensures State() == EMPTY && Merges() == I.NO_MERGES
    {
      assertions, overrides, branches := map[], map[], map[MAIN := Branch(MAIN, None, 0)];
      revisionSeq, headSeq := map[], 0;
      resources, redirects, mergedMembers, mergeProposals := {}, map[], map[], map[];
    }

    // ---------------------------------------------------------- reading

    method BranchChain(b: BranchId) returns (r: Option<seq<Link>>)
      ensures r == Chain(State(), b)
    {
      var out: seq<Link>, cur, limit := [], Some(b), U64_MAX;
      assert forall q: seq<Link> :: out + q == q;
      while cur.Some?
        invariant |out| <= MAX_CHAIN
        invariant cur.None? ==> Chain(State(), b) == Some(out)
        invariant cur.Some? ==>
          var rest := ChainFrom(State(), cur.value, limit, |out|);
          Chain(State(), b) == if rest.None? then None else Some(out + rest.value)
        decreases MAX_CHAIN + 1 - |out|, cur.Some?
      {
        var id := cur.value;
        if id !in branches { return None; }
        var br := branches[id];
        ghost var before := out;
        assert forall q: seq<Link> :: before + ([Link(id, limit)] + q) == before + [Link(id, limit)] + q;
        out := out + [Link(id, limit)];
        if |out| > MAX_CHAIN { return None; }
        limit := Min(limit, br.forkSeq);
        cur := br.parent;
      }
      return Some(out);
    }

    method HiddenByCopy(a: Assertion, chain: seq<Link>) returns (hidden: bool)
      requires InRange(State(), chain, a)
      ensures hidden <==> Overridden(State(), chain, a)
    {
      var copies := if a.id in overrides then overrides[a.id] else [];
      for i := 0 to |copies|
        invariant forall k | 0 <= k < i :: !HiddenBy(State(), chain, a, copies[k])
      {
        if copies[i] in assertions {
          var copy := assertions[copies[i]];
          var at := Position(chain, copy.branch);
          var made := if copy.createdRevision in revisionSeq then revisionSeq[copy.createdRevision] else 0;
          if at.Some? && at.value < Position(chain, a.branch).value && made <= chain[at.value].limit {
            assert copies[i] in OverridesOf(State(), a.id);
            return true;
          }
        }
      }
      return false;
    }

    /** `effective_status`, whose loops agree with the declarative reading. */
    method Status(a: Assertion, view: View) returns (r: Option<Status>)
      ensures r == EffectiveStatus(State(), a, view)
    {
      var pos := Position(view.chain, a.branch);
      if pos.None? { return None; }
      var limit := view.chain[pos.value].limit;
      var made := if a.createdRevision in revisionSeq then revisionSeq[a.createdRevision] else 0;
      if made > limit { return None; }
      var hidden := HiddenByCopy(a, view.chain);
      if hidden { return None; }
      if view.asKnownAt.Some? && a.firstKnownAt > view.asKnownAt.value { return None; }
      var st := if a.history == [] then a.status else a.history[0].from;
      for i := 0 to |a.history|
        invariant st == Replay(State(), a.history[..i], limit, view.asKnownAt, Initial(a))
      {
        var c := a.history[i];
        assert a.history[..i + 1][..i] == a.history[..i];
        var seen := if c.revision in revisionSeq then revisionSeq[c.revision] else 0;
        if seen <= limit {
          var known := if c.basisAcquiredAt.Some? then c.basisAcquiredAt.value else c.recordedAt;
          if view.asKnownAt.None? || known <= view.asKnownAt.value {
            st := c.to;
          }
        }
      }
      assert a.history[..|a.history|] == a.history;
      if st !in view.statuses || !CanSee(view.principal, a.visibility) { return None; }
      if view.canon.Some? && a.canon.Some? && view.canon.value != a.canon.value { return None; }
      if view.timelines.Some? && a.timeline.Some? && a.timeline.value !in view.timelines.value { return None; }
      return Some(st);
    }

    method ResolveId(id: I.ResourceId) returns (cur: I.ResourceId)
      ensures cur == I.Resolve(redirects, id)
    {
      cur := id;
      for i := 0 to I.MAX_HOPS
        invariant I.Walk(redirects, cur, I.MAX_HOPS - i) == I.Resolve(redirects, id)
      {
        if cur !in redirects { return; }
        cur := redirects[cur];
      }
    }

    /** The members of the group of `id`, each once; all of them exactly when the elements beyond those that were
      * expanded have no members, and certainly when they are fewer than the limit.
      */
    method IdentityGroup(id: I.ResourceId) returns (out: seq<I.ResourceId>)
      requires I.Forest(redirects) && I.Reversed(Merges())
      ensures out == I.Listed(Merges(), id).0
      ensures I.Distinct(out) && forall x | x in out :: x in I.Group(redirects, id)
      ensures (forall x: I.ResourceId | x in I.Group(redirects, id) :: x in out)
              <==> forall k | I.Listed(Merges(), id).1 <= k < |out| :: I.MembersOf(Merges(), out[k]) == []
      ensures |out| < I.GROUP_LIMIT ==> forall x: I.ResourceId | x in I.Group(redirects, id) :: x in out
      ensures |out| < I.GROUP_LIMIT <==> |I.Group(redirects, id)| < I.GROUP_LIMIT
    {
      hide I.Forest, I.Reversed, I.Collected, I.Distinct, I.Group;
      out := [id];
      var i := 0;
      I.CollectedStart(Merges(), id);
      while i < |out| && |out| < I.GROUP_LIMIT
        invariant i <= |out| && I.Gather(Merges(), out, i, I.GROUP_LIMIT) == I.Listed(Merges(), id)
        invariant I.Collected(Merges(), id, out, i)
        decreases I.GROUP_LIMIT - |out|, |out| - i
      {
        I.CollectedStep(Merges(), id, out, i);
        if out[i] in mergedMembers {
          out := out + mergedMembers[out[i]];
        } else {
          assert out + [] == out;
        }
        i := i + 1;
      }
      I.CollectedResult(Merges(), id, out, i);
      I.CollectedAllIfDone(Merges(), id, out, i);
    }

    // ---------------------------------------------------------- commands

    method RegisterRevision(rev: RevisionId, seq_: nat)
      modifies this`revisionSeq, this`headSeq
      ensures revisionSeq == old(revisionSeq)[rev := seq_]
      ensures headSeq == if old(headSeq) < seq_ then seq_ else old(headSeq)
    {
      revisionSeq := revisionSeq[rev := seq_];
      headSeq := if headSeq < seq_ then seq_ else headSeq;
    }

    method ApplyCommand(cmd: Command)
      modifies this`assertions, this`overrides, this`branches
      ensures State() == Apply(old(State()), cmd)
    {
      match cmd
      case AddAssertion(a) =>
        if a.overrides.Some? {
          var o := a.overrides.value;
          overrides := overrides[o := (if o in overrides then overrides[o] else []) + [a.id]];
        }
        assertions := assertions[a.id := a];
      case ChangeStatus(id, change) =>
        if id in assertions {
          var a := assertions[id];
          assertions := assertions[id := a.(status := change.to, history := a.history + [change])];
        }
      case LinkSupersede(o, n) =>
        if n in assertions {
          assertions := assertions[n := assertions[n].(supersedes := Some(o))];
        }
      case CreateBranch(b) =>
        branches := branches[b.id := b];
    }

    /** A revision gets the next sequence number and its commands are applied in order. */
    method CommitPrepared(rev: RevisionId, cmds: seq<Command>)
      modifies this`assertions, this`overrides, this`branches, this`revisionSeq, this`headSeq
      ensures State() == Commit(old(State()), rev, cmds)
    {
      RegisterRevision(rev, headSeq + 1);
      ghost var start := State();
      for i := 0 to |cmds|
        invariant State() == ApplyAll(start, cmds[..i])
      {
        ApplyCommand(cmds[i]);
        assert cmds[..i + 1][..i] == cmds[..i];
      }
      assert cmds[..|cmds|] == cmds;
    }

    // ---------------------------------------------------------- requests

    method StatusCmds(p: Principal, branch: BranchId, t: Target, rev: RevisionId,
        now: int) returns (cmd: Option<Command>)
      ensures cmd == StatusCommand(State(), p, branch, t, rev, now)
    {
      if t.id !in assertions { return None; }
      var a := assertions[t.id];
      var chain := BranchChain(branch);
      if chain.None? { return None; }
      var from := Status(a, StatusView(chain.value, p));
      if from.None? { return None; }
      var change := StatusChange(from.value, t.to, rev, now, t.basis);
      if a.branch == branch { return Some(ChangeStatus(t.id, change)); }
      var copy := a.(id := t.copyId, branch := branch, overrides := Some(a.id), createdRevision := rev, status := t.to,
        history := [change]);
      return Some(AddAssertion(copy));
    }

    method Prepare(p: Principal, req: Request, rev: RevisionId, now: int) returns (cmds: Option<seq<Command>>)
      ensures cmds == Plan(State(), p, req, rev, now)
    {
      match req
      case NewBranch(id, parent) =>
        if parent !in branches { return None; }
        return Some([CreateBranch(Branch(id, Some(parent), headSeq))]);
      case Propose(a) =>
        if a.branch !in branches { return None; }
        return Some([AddAssertion(Original(a, None, rev))]);
      case SetStatus(branch, t) =>
        var c := StatusCmds(p, branch, t, rev, now);
        return if c.None? then None else Some([c.value]);
      case Accept(branch, t, copyId) =>
        var c := StatusCmds(p, branch, t.(to := Accepted), rev, now);
        if c.None? { return None; }
        if assertions[t.id].supersedes.None? { return Some([c.value]); }
        var d := StatusCmds(p, branch, Target(assertions[t.id].supersedes.value, Superseded, copyId, None), rev, now);
        return if d.None? then None else Some([c.value, d.value]);
      case Replace(a, t, accepted) =>
        if t.id !in assertions || a.branch !in branches { return None; }
        var batch := [AddAssertion(Original(a, Some(t.id), rev)), LinkSupersede(t.id, a.id)];
        if accepted {
          var c := StatusCmds(p, a.branch, t.(to := Superseded), rev, now);
          if c.None? { return None; }
          batch := batch + [c.value];
        }
        return Some(batch);
    }

    /** A refused request changes nothing; an accepted one commits its commands as one revision. */
    method Execute(p: Principal, req: Request, rev: RevisionId, now: int) returns (ok: bool)
      modifies this`assertions, this`overrides, this`branches, this`revisionSeq, this`headSeq
      ensures State() == Write(old(State()), p, req, rev, now)
      ensures ok <==> Plan(old(State()), p, req, rev, now).Some?
    {
      var cmds := Prepare(p, req, rev, now);
      ok := cmds.Some?;
      if ok {
        CommitPrepared(rev, cmds.value);
      }
    }

    method ProposeMerge(id: I.ProposalId, f: I.ResourceId, i: I.ResourceId) returns (error: Option<I.MergeError>)
      modifies this`mergeProposals
      ensures (Merges(), error) == I.Merge(old(Merges()), I.Propose(id, f, i))
    {
      var from := ResolveId(f);
      var into := ResolveId(i);
      if from !in resources || into !in resources { return Some(I.NotFound); }
      if from == into { return Some(I.SameResource); }
      DeclaredBlocks(assertions, from, into);
      if exists a <- assertions.Keys :: DeclaresDistinct(assertions[a]) && Between(assertions[a].claim, from, into) {
        return Some(I.DeclaredDistinct);
      }
      mergeProposals := mergeProposals[id := I.Proposal(from, into, I.Open)];
      return None;
    }

    method DecideMerge(id: I.ProposalId, approve: bool) returns (error: Option<I.MergeError>)
      modifies this`mergeProposals, this`redirects, this`mergedMembers
      ensures (Merges(), error) == I.Merge(old(Merges()), I.Decide(id, approve))
    {
      if id !in mergeProposals { return Some(I.NotFound); }
      var p := mergeProposals[id];
      if p.status != I.Open { return Some(I.AlreadyDecided); }
      var from := ResolveId(p.from);
      var into := ResolveId(p.into);
      if approve && from == into { return Some(I.AlreadyMerged); }
      mergeProposals := mergeProposals[id := p.(status := if approve then I.Approved else I.Rejected)];
      if approve {
        redirects := redirects[from := into];
        mergedMembers := mergedMembers[into := (if into in mergedMembers then mergedMembers[into] else []) + [from]];
      }
      return None;
    }
  }
}
