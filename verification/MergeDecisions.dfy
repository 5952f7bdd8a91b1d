/** What a decision about a merge does, and where the redirects of a run come from (canonical.rs and write.rs). */
module MergeDecisions {
  import opened Wrappers
  import opened Identity

  /** The proposal waits for a decision. */
  predicate IsOpen(s: Identities, id: ProposalId) {
    id in s.proposals && s.proposals[id].status == Open
  }

  /** The state differs at most in the status of this proposal. */
  predicate OnlyMarked(s: Identities, s': Identities, id: ProposalId, status: MergeStatus) {
    && s'.resources == s.resources && s'.distinct == s.distinct && s'.redirects == s.redirects &&
      s'.members == s.members
    && id in s.proposals && s'.proposals == s.proposals[id := s.proposals[id].(status := status)]
  }

  /** A rejection is marked and merges nothing; a decision about anything but an open proposal changes nothing. */
  lemma RejectionMergesNothing(s: Identities, id: ProposalId, approve: bool)
    ensures IsOpen(s, id) && !approve ==>
              var (s', error) := Merge(s, Decide(id, approve)); error.None? && OnlyMarked(s, s', id, Rejected)
    ensures !IsOpen(s, id) ==> var (s', error) := Merge(s, Decide(id, approve)); error.Some? && s' == s
  {}

  /** An approval sends the group of the one resource to the other and leaves every other resource where it is; it is
    * refused, and changes nothing, exactly when the two are one already.
    */
  lemma ApprovalMerges(s: Identities, id: ProposalId)
    requires IsOpen(s, id) && Shallow(s.redirects) && Shallow(Merge(s, Decide(id, true)).0.redirects)
    ensures var (s', error) := Merge(s, Decide(id, true));
            var from, into := Resolve(s.redirects, s.proposals[id].from), Resolve(s.redirects, s.proposals[id].into);
            && (error.Some? <==> from == into) && (error.Some? ==> s' == s)
            && (error.None? ==>
                  && IsApproved(s', id) && s'.resources == s.resources && s'.distinct == s.distinct
                  && s'.redirects.Keys == s.redirects.Keys + {from} && from !in s.redirects
                  && forall x :: Resolve(s'.redirects, x) ==
                       if Resolve(s.redirects, x) == from then into else Resolve(s.redirects, x))
  {
    hide Shallow, Resolve;
    var from, into := Resolve(s.redirects, s.proposals[id].from), Resolve(s.redirects, s.proposals[id].into);
    ResolveIsRoot(s.redirects, s.proposals[id].from);
    ResolveIsRoot(s.redirects, s.proposals[id].into);
    if from != into {
      forall x ensures Resolve(s.redirects[from := into], x) ==
        if Resolve(s.redirects, x) == from then into else Resolve(s.redirects, x)
      {
        ResolveRedirected(s.redirects, from, into, x);
      }
    }
  }

  predicate IsApproved(s: Identities, id: ProposalId) {
    id in s.proposals && s.proposals[id].status == Approved
  }

  /** A live assertion declares the two distinct, in one direction or the other, or one of them distinct from itself. */
  predicate Declared(s: Identities, x: ResourceId, y: ResourceId) {
    (x, y) in s.distinct || (y, x) in s.distinct || (x, x) in s.distinct || (y, y) in s.distinct
  }

  /** A proposal waits for a decision about what its resources resolve to if and only if these are known, differ and are
    * not declared distinct; otherwise nothing changes. It merges nothing.
    */
  lemma ProposalExact(s: Identities, id: ProposalId, f: ResourceId, i: ResourceId)
    ensures var (s', error) := Merge(s, Propose(id, f, i));
            var from, into := Resolve(s.redirects, f), Resolve(s.redirects, i);
            && (error.None? <==> {from, into} <= s.resources && from != into && !Declared(s, from, into))
            && (error.Some? ==> s' == s)
            && (error.None? ==>
                  && s' == s.(proposals := s'.proposals) && IsOpen(s', id)
                  && s'.proposals == s.proposals[id := s'.proposals[id]]
                  && s'.proposals[id].from == from && s'.proposals[id].into == into)
  {
    hide Resolve;
    var from, into := Resolve(s.redirects, f), Resolve(s.redirects, i);
    assert from in {from, into} && into in {from, into};
    assert Blocked(s.distinct, from, into) <==> Declared(s, from, into);
  }

  /** What is declared distinct blocks every proposal between the two until it is retracted. */
  lemma DeclaredBlocks(s: Identities, a: ResourceId, b: ResourceId, id: ProposalId)
    requires var x, y := Resolve(s.redirects, a), Resolve(s.redirects, b); {x, y} <= s.resources && x != y
    ensures var x, y := Resolve(s.redirects, a), Resolve(s.redirects, b);
            var (declared, error) := Merge(s, Distinguish(a, b));
            && error.None? && Merge(declared, Propose(id, a, b)).1 == Some(DeclaredDistinct)
            && Merge(declared, Propose(id, b, a)).1 == Some(DeclaredDistinct)
            && ((x, y) !in s.distinct ==> Merge(declared, Retract(x, y)).0 == s)
  {
    hide Resolve;
    var x, y := Resolve(s.redirects, a), Resolve(s.redirects, b);
    var declared := Merge(s, Distinguish(a, b)).0;
    assert (x, y) in declared.distinct && x in {x, y} && y in {x, y};
    assert (x, y) !in s.distinct ==> declared.distinct - {(x, y)} == s.distinct;
  }

  // ------------------------------------------------------------ runs

  /** The request at `j` approves an open proposal, whose two resources are at `x` and `y` by then. */
  ghost predicate Approves(run: seq<MergeRequest>, j: nat, x: ResourceId, y: ResourceId) {
    && j < |run| && run[j].Decide? && run[j].approve
    && var s := Run(NO_MERGES, run[..j]);
       && IsOpen(s, run[j].id) && x != y
       && x == Resolve(s.redirects, s.proposals[run[j].id].from) &&
         y == Resolve(s.redirects, s.proposals[run[j].id].into)
  }

  ghost predicate SomeApproves(run: seq<MergeRequest>, x: ResourceId, y: ResourceId) {
    exists j: nat :: Approves(run, j, x, y)
  }

  ghost predicate ApprovesOf(run: seq<MergeRequest>, j: nat, id: ProposalId, x: ResourceId, y: ResourceId) {
    Approves(run, j, x, y) && run[j].id == id
  }

  /** Some approval in the run is of this proposal. */
  ghost predicate ApprovedIn(run: seq<MergeRequest>, id: ProposalId) {
    exists j: nat, x, y :: ApprovesOf(run, j, id, x, y)
  }

  /** The last request approves. */
  ghost predicate LastApproves(run: seq<MergeRequest>, x: ResourceId, y: ResourceId) {
    run != [] && Approves(run, |run| - 1, x, y)
  }

  lemma ApprovesBefore(run: seq<MergeRequest>, j: nat, x: ResourceId, y: ResourceId)
    requires run != []
    ensures Approves(run[..|run| - 1], j, x, y) <==> Approves(run, j, x, y) && j < |run| - 1
  {
    hide Run, Resolve;
    if j < |run| - 1 { assert run[..|run| - 1][..j] == run[..j]; }
  }

  /** What the last request adds to the approvals. */
  lemma SomeApprovesMore(run: seq<MergeRequest>, x: ResourceId, y: ResourceId)
    requires run != []
    ensures SomeApproves(run, x, y) <==> SomeApproves(run[..|run| - 1], x, y) || LastApproves(run, x, y)
  {
    hide Approves;
    var before := run[..|run| - 1];
    if j: nat :| Approves(before, j, x, y) { ApprovesBefore(run, j, x, y); }
    if j: nat :| Approves(run, j, x, y) { ApprovesBefore(run, j, x, y); ApprovesInRun(run, j, x, y); }
  }

  lemma ApprovesInRun(run: seq<MergeRequest>, j: nat, x: ResourceId, y: ResourceId)
    requires Approves(run, j, x, y)
    ensures j < |run| && run[j].Decide?
  {}

  lemma ApprovedInMore(run: seq<MergeRequest>, id: ProposalId)
    requires run != []
    ensures ApprovedIn(run, id) <==>
              ApprovedIn(run[..|run| - 1], id) ||
              (run[|run| - 1].Decide? && run[|run| - 1].id == id && exists x, y :: LastApproves(run, x, y))
  {
    hide Run, Resolve;
    var before, last := run[..|run| - 1], run[|run| - 1];
    if ApprovedIn(before, id) {
      var j: nat, x, y :| ApprovesOf(before, j, id, x, y);
      ApprovesBefore(run, j, x, y);
      assert ApprovesOf(run, j, id, x, y);
    }
    if ApprovedIn(run, id) {
      var j: nat, x, y :| ApprovesOf(run, j, id, x, y);
      ApprovesBefore(run, j, x, y);
      assert if j < |run| - 1 then ApprovesOf(before, j, id, x, y) else LastApproves(run, x, y);
    }
    if x, y :| LastApproves(run, x, y) && last.id == id {
      assert ApprovesOf(run, |run| - 1, id, x, y);
    }
  }

  /** What one request does to the redirects. */
  lemma RedirectStep(run: seq<MergeRequest>)
    requires run != []
    ensures var s, s' := Run(NO_MERGES, run[..|run| - 1]), Run(NO_MERGES, run);
            || (s'.redirects == s.redirects && forall x, y :: !LastApproves(run, x, y))
            || exists x, y :: LastApproves(run, x, y) && s'.redirects == s.redirects[x := y]
  {
    hide Resolve, Merge, Run;
    var s, last := Run(NO_MERGES, run[..|run| - 1]), run[|run| - 1];
    RunLast(run);
    MergeRedirects(s, last);
    if last.Decide? && last.approve && IsOpen(s, last.id) {
      var x, y := Resolve(s.redirects, s.proposals[last.id].from), Resolve(s.redirects, s.proposals[last.id].into);
      assert x != y ==> LastApproves(run, x, y);
    }
  }

  lemma MergeRedirects(s: Identities, req: MergeRequest)
    ensures Merge(s, req).0.redirects ==
              if req.Decide? && req.approve && IsOpen(s, req.id) then
                var x, y := Resolve(s.redirects, s.proposals[req.id].from),
                  Resolve(s.redirects, s.proposals[req.id].into);
                if x == y then s.redirects else s.redirects[x := y]
              else s.redirects
  {
    hide Resolve, Blocked;
  }

  /** After any run the redirects come from approvals: what is redirected is what an approval of the run moved, to where
    * one moved it. What was rejected, or is still open, contributes none.
    */
  lemma {:induction false} RedirectsApproved(run: seq<MergeRequest>)
    ensures var r := Run(NO_MERGES, run).redirects;
            && (forall x | x in r :: SomeApproves(run, x, r[x]))
            && forall x, y | SomeApproves(run, x, y) :: x in r
  {
    if run != [] {
      hide LastApproves, SomeApproves, Merge;
      var before := run[..|run| - 1];
      var r, r' := Run(NO_MERGES, before).redirects, Run(NO_MERGES, run).redirects;
      RedirectsApproved(before);
      RedirectStep(run);
      forall x, y
        ensures SomeApproves(run, x, y) <==> SomeApproves(before, x, y) || LastApproves(run, x, y)
      {
        SomeApprovesMore(run, x, y);
      }
      ApprovesOne(run);
    }
  }

  lemma ApprovesOne(run: seq<MergeRequest>)
    ensures forall x, y, x', y' | LastApproves(run, x, y) && LastApproves(run, x', y') :: x == x' && y == y'
  {}

  /** Every proposal has an identifier of its own, as random identifiers are. */
  ghost predicate FreshProposals(run: seq<MergeRequest>) {
    forall i, j | 0 <= i < j < |run| && run[i].Propose? && run[j].Propose? :: run[i].id != run[j].id
  }

  ghost predicate ProposedIn(run: seq<MergeRequest>, id: ProposalId) {
    exists i :: 0 <= i < |run| && run[i].Propose? && run[i].id == id
  }

  lemma {:induction false} KnownProposed(run: seq<MergeRequest>)
    ensures forall id | id in Run(NO_MERGES, run).proposals :: ProposedIn(run, id)
  {
    if run != [] {
      hide Resolve, Blocked, Run, ProposedIn;
      var before := run[..|run| - 1];
      KnownProposed(before);
      forall id ensures ProposedIn(run, id) <==>
        ProposedIn(before, id) || (run[|run| - 1].Propose? && run[|run| - 1].id == id)
      {
        ProposedMore(run, id);
      }
      RunLast(run);
    }
  }

  lemma RunLast(run: seq<MergeRequest>)
    requires run != []
    ensures Run(NO_MERGES, run) == Merge(Run(NO_MERGES, run[..|run| - 1]), run[|run| - 1]).0
  {}

  lemma ProposedMore(run: seq<MergeRequest>, id: ProposalId)
    requires run != []
    ensures ProposedIn(run, id) <==>
              ProposedIn(run[..|run| - 1], id) || (run[|run| - 1].Propose? && run[|run| - 1].id == id)
  {
    var before := run[..|run| - 1];
    if ProposedIn(before, id) {
      var i :| 0 <= i < |before| && before[i].Propose? && before[i].id == id;
      assert run[i].Propose? && run[i].id == id;
    }
    if ProposedIn(run, id) {
      var i :| 0 <= i < |run| && run[i].Propose? && run[i].id == id;
      assert i < |run| - 1 ==> before[i].Propose? && before[i].id == id;
    }
  }

  lemma ApprovedProposed(run: seq<MergeRequest>, id: ProposalId)
    requires ApprovedIn(run, id)
    ensures ProposedIn(run, id)
  {
    hide Run, Resolve;
    var j: nat, x, y :| ApprovesOf(run, j, id, x, y);
    KnownProposed(run[..j]);
    var i :| 0 <= i < j && run[..j][i].Propose? && run[..j][i].id == id;
    assert run[i].Propose? && run[i].id == id;
  }

  /** A proposal counts as approved exactly when an approval of the run was of it. */
  lemma {:induction false} ApprovedExact(run: seq<MergeRequest>)
    requires FreshProposals(run)
    ensures forall id: ProposalId :: IsApproved(Run(NO_MERGES, run), id) <==> ApprovedIn(run, id)
  {
    if run == [] {
      NothingApproved();
    } else {
      hide Approves, ApprovedIn, ProposedIn, Run, Merge;
      var before, last := run[..|run| - 1], run[|run| - 1];
      ApprovedExact(before);
      forall id: ProposalId ensures IsApproved(Run(NO_MERGES, run), id) <==> ApprovedIn(run, id) {
        ApprovedStep(run, id);
      }
    }
  }

  lemma NothingApproved()
    ensures forall id: ProposalId :: !IsApproved(Run(NO_MERGES, []), id) && !ApprovedIn([], id)
  {}

  lemma ApprovedStep(run: seq<MergeRequest>, id: ProposalId)
    requires run != [] && FreshProposals(run)
    requires IsApproved(Run(NO_MERGES, run[..|run| - 1]), id) <==> ApprovedIn(run[..|run| - 1], id)
    ensures IsApproved(Run(NO_MERGES, run), id) <==> ApprovedIn(run, id)
  {
    hide ApprovedIn, ProposedIn, Run, Resolve, Blocked;
    var before, last := run[..|run| - 1], run[|run| - 1];
    var s := Run(NO_MERGES, before);
    RunLast(run);
    ApprovedInMore(run, id);
    if ApprovedIn(before, id) {
      ApprovedProposed(before, id);
      NotProposedAgain(run, id);
    }
    if last.Decide? && last.approve && IsOpen(s, last.id) {
      var x, y := Resolve(s.redirects, s.proposals[last.id].from), Resolve(s.redirects, s.proposals[last.id].into);
      assert x != y ==> LastApproves(run, x, y);
    }
  }

  lemma NotProposedAgain(run: seq<MergeRequest>, id: ProposalId)
    requires run != [] && FreshProposals(run) && ProposedIn(run[..|run| - 1], id)
    ensures run[|run| - 1].Propose? ==> run[|run| - 1].id != id
  {
    var before := run[..|run| - 1];
    var i :| 0 <= i < |before| && before[i].Propose? && before[i].id == id;
    assert run[i].Propose? && run[i].id == id;
  }
}
