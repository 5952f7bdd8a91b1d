/** Identity redirects between merged resources (canonical.rs and the merge requests of write.rs). */
module Identity {
  import opened Wrappers

  type ResourceId = nat
  type ProposalId = nat

  /** `resolve_id` gives up after this many redirects. */
  const MAX_HOPS: nat := 16

  /** `identity_group` stops growing at this size. */
  const GROUP_LIMIT: nat := 256

  datatype MergeStatus = Open | Approved | Rejected

  datatype Proposal = Proposal(from: ResourceId, into: ResourceId, status: MergeStatus)

  /** `members` is the reverse of `redirects`; `distinct` has subject and object of the live `distinct_from` assertions.
    */
  datatype Identities = Identities(resources: set<ResourceId>, redirects: map<ResourceId, ResourceId>,
                                   members: map<ResourceId, seq<ResourceId>>, proposals: map<ProposalId, Proposal>,
                                   distinct: set<(ResourceId, ResourceId)>)

  const NO_MERGES: Identities := Identities({}, map[], map[], map[], {})

  /** At most `hops` redirects from `id`. */
  function Walk(r: map<ResourceId, ResourceId>, id: ResourceId, hops: nat): ResourceId
    decreases hops
  {
    if hops == 0 || id !in r then id else Walk(r, r[id], hops - 1)
  }

  function Resolve(r: map<ResourceId, ResourceId>, id: ResourceId): ResourceId {
    Walk(r, id, MAX_HOPS)
  }

  function MembersOf(s: Identities, id: ResourceId): seq<ResourceId> {
    if id in s.members then s.members[id] else []
  }

  datatype MergeError = NotFound | AlreadyDecided | AlreadyMerged | SameResource | DeclaredDistinct

  /** Asserting and retracting `distinct_from`, and the two steps of a merge. */
  datatype MergeRequest =
    | Create(resource: ResourceId)
    | Distinguish(a: ResourceId, b: ResourceId)
    | Retract(a: ResourceId, b: ResourceId)
    | Propose(id: ProposalId, from: ResourceId, into: ResourceId)
    | Decide(id: ProposalId, approve: bool)

  /** A live assertion about one of the two names one of the two. */
  predicate Blocked(distinct: set<(ResourceId, ResourceId)>, from: ResourceId, into: ResourceId) {
    exists a <- {from, into}, b <- {from, into} :: (a, b) in distinct
  }

  function Merge(s: Identities, req: MergeRequest): (Identities, Option<MergeError>) {
    match req
    case Create(r) => (s.(resources := s.resources + {r}), None)
    case Distinguish(x, y) =>
      var a, b := Resolve(s.redirects, x), Resolve(s.redirects, y);
      if a !in s.resources || b !in s.resources then (s, Some(NotFound))
      else if a == b then (s, Some(SameResource))
      else (s.(distinct := s.distinct + {(a, b)}), None)
    case Retract(a, b) =>
      if (a, b) !in s.distinct then (s, Some(NotFound)) else (s.(distinct := s.distinct - {(a, b)}), None)
    case Propose(id, f, i) =>
      var from, into := Resolve(s.redirects, f), Resolve(s.redirects, i);
      if from !in s.resources || into !in s.resources then (s, Some(NotFound))
      else if from == into then (s, Some(SameResource))
      else if Blocked(s.distinct, from, into) then (s, Some(DeclaredDistinct))
      else (s.(proposals := s.proposals[id := Proposal(from, into, Open)]), None)
    case Decide(id, approve) =>
      if id !in s.proposals then (s, Some(NotFound))
      else if s.proposals[id].status != Open then (s, Some(AlreadyDecided))
      else
        var p := s.proposals[id];
        var from, into := Resolve(s.redirects, p.from), Resolve(s.redirects, p.into);
        if !approve then (s.(proposals := s.proposals[id := p.(status := Rejected)]), None)
        else if from == into then (s, Some(AlreadyMerged))
        else (s.(redirects := s.redirects[from := into], members := s.members[into := MembersOf(s, into) + [from]],
                 proposals := s.proposals[id := p.(status := Approved)]), None)
  }

  function Run(s: Identities, run: seq<MergeRequest>): Identities {
    if run == [] then s else Merge(Run(s, run[..|run| - 1]), run[|run| - 1]).0
  }

  // ------------------------------------------------------------ forests

  /** Every chain of redirects ends within `hops` steps. */
  ghost predicate EndsWithin(r: map<ResourceId, ResourceId>, hops: nat) {
    forall id: ResourceId :: Walk(r, id, hops) !in r
  }

  ghost predicate Forest(r: map<ResourceId, ResourceId>) {
    exists hops: nat :: EndsWithin(r, hops)
  }

  /** No chain is longer than `resolve_id` follows. */
  ghost predicate Shallow(r: map<ResourceId, ResourceId>) {
    EndsWithin(r, MAX_HOPS)
  }

  lemma {:induction false} WalkFurther(r: map<ResourceId, ResourceId>, id: ResourceId, a: nat, b: nat)
    ensures Walk(r, Walk(r, id, a), b) == Walk(r, id, a + b)
    decreases a
  {
    if a > 0 && id in r {
      WalkFurther(r, r[id], a - 1, b);
    }
  }

  lemma WalkStays(r: map<ResourceId, ResourceId>, id: ResourceId, a: nat, b: nat)
    requires Walk(r, id, a) !in r && a <= b
    ensures Walk(r, id, b) == Walk(r, id, a)
  {
    WalkFurther(r, id, a, b - a);
  }

  /** `resolve_id` returns the root of its argument, and returning twice changes nothing. */
  lemma ResolveIsRoot(r: map<ResourceId, ResourceId>, id: ResourceId)
    requires Shallow(r)
    ensures Resolve(r, id) !in r && Resolve(r, Resolve(r, id)) == Resolve(r, id)
    ensures forall hops: nat | Walk(r, id, hops) !in r :: Walk(r, id, hops) == Resolve(r, id)
  {
    forall hops: nat | Walk(r, id, hops) !in r
      ensures Walk(r, id, hops) == Resolve(r, id)
    {
      if hops <= MAX_HOPS { WalkStays(r, id, hops, MAX_HOPS); } else { WalkStays(r, id, MAX_HOPS, hops); }
    }
  }

  /** Redirecting a root to another one sends everything that ended there on to the other. */
  lemma {:induction false} WalkRedirected(r: map<ResourceId, ResourceId>, from: ResourceId, into: ResourceId,
      id: ResourceId, hops: nat)
    requires from !in r && into !in r && from != into
    ensures Walk(r, id, hops) != from ==> Walk(r[from := into], id, hops) == Walk(r, id, hops)
    ensures Walk(r, id, hops) == from ==> Walk(r[from := into], id, hops + 1) == into
    decreases hops
  {
    var r' := r[from := into];
    if hops > 0 && id in r {
      WalkRedirected(r, from, into, r[id], hops - 1);
      assert Walk(r', id, hops) == Walk(r', r[id], hops - 1);
    } else if id == from {
      assert Walk(r', id, 1) == Walk(r', into, 0);
      WalkStays(r', id, 1, hops + 1);
    } else {
      assert id !in r ==> Walk(r', id, hops) == id;
    }
  }

  lemma MergeEnds(r: map<ResourceId, ResourceId>, from: ResourceId, into: ResourceId, hops: nat)
    requires EndsWithin(r, hops) && from !in r && into !in r && from != into
    ensures EndsWithin(r[from := into], hops + 1)
  {
    var r' := r[from := into];
    var more := hops + 1;
    forall id: ResourceId ensures Walk(r', id, more) !in r' {
      WalkRedirected(r, from, into, id, hops);
      if Walk(r, id, hops) != from {
        WalkStays(r', id, hops, more);
      }
    }
  }

  /** A merge keeps every chain within reach exactly when the chains that end in the merged root
    * still have a hop to spare.
    */
  lemma MergeShallow(r: map<ResourceId, ResourceId>, from: ResourceId, into: ResourceId)
    requires Shallow(r) && from !in r && into !in r && from != into
    ensures Shallow(r[from := into]) <==>
      forall id: ResourceId | Resolve(r, id) == from :: Walk(r, id, MAX_HOPS - 1) == from
  {
    var r' := r[from := into];
    forall id: ResourceId
      ensures Walk(r', id, MAX_HOPS) !in r' <==> (Resolve(r, id) == from ==> Walk(r, id, MAX_HOPS - 1) == from)
    {
      WalkRedirected(r, from, into, id, MAX_HOPS - 1);
      WalkRedirected(r, from, into, id, MAX_HOPS);
      if Resolve(r, id) == from && Walk(r, id, MAX_HOPS - 1) != from {
        LastHop(r, id, MAX_HOPS - 1);
        assert Walk(r, id, MAX_HOPS - 1) in r && r[Walk(r, id, MAX_HOPS - 1)] == from;
        WalkFurther(r', id, MAX_HOPS - 1, 1);
        assert Walk(r', id, MAX_HOPS) == Walk(r', Walk(r', id, MAX_HOPS - 1), 1);
        assert Walk(r', id, MAX_HOPS - 1) == Walk(r, id, MAX_HOPS - 1);
        assert Walk(r', Walk(r, id, MAX_HOPS - 1), 1) == Walk(r', from, 0);
      }
    }
  }

  lemma LastHop(r: map<ResourceId, ResourceId>, id: ResourceId, hops: nat)
    ensures Walk(r, id, hops + 1) == Walk(r, Walk(r, id, hops), 1)
    ensures Walk(r, id, hops) in r ==> Walk(r, id, hops + 1) == r[Walk(r, id, hops)]
    ensures Walk(r, id, hops) !in r ==> Walk(r, id, hops + 1) == Walk(r, id, hops)
  {
    WalkFurther(r, id, hops, 1);
    assert Walk(r, id, hops) in r ==> Walk(r, Walk(r, id, hops), 1) == Walk(r, r[Walk(r, id, hops)], 0);
  }

  // ------------------------------------------------------------ the invariant

  ghost predicate Distinct(q: seq<ResourceId>) {
    forall i, j | 0 <= i < j < |q| :: q[i] != q[j]
  }

  /** The member lists are the reverse of the redirects, without repetition. */
  ghost predicate Reversed(s: Identities) {
    && (forall y: ResourceId :: Distinct(MembersOf(s, y)))
    && (forall x: ResourceId, y: ResourceId {:trigger x in MembersOf(s, y)} ::
          x in MembersOf(s, y) <==> x in s.redirects && s.redirects[x] == y)
  }

  lemma ReversedMerge(s: Identities, from: ResourceId, into: ResourceId, s': Identities)
    requires Reversed(s) && from !in s.redirects
    requires s'.redirects == s.redirects[from := into] && s'.members == s.members[into := MembersOf(s, into) + [from]]
    ensures Reversed(s')
  {
    assert from !in MembersOf(s, into);
    forall y: ResourceId ensures MembersOf(s', y) == if y == into then MembersOf(s, y) + [from] else MembersOf(s, y) {}
    forall y: ResourceId ensures Distinct(MembersOf(s', y)) {
      assert Distinct(MembersOf(s, y));
    }
    forall x: ResourceId, y: ResourceId
      ensures x in MembersOf(s', y) <==> x in s'.redirects && s'.redirects[x] == y
    {
      assert x in MembersOf(s, y) <==> x in s.redirects && s.redirects[x] == y;
    }
  }

  /** A request on shallow redirects leaves a forest with its reverse, no deeper than one more hop. */
  lemma MergeKeeps(s: Identities, req: MergeRequest)
    requires Shallow(s.redirects) && Reversed(s)
    ensures var s' := Merge(s, req).0;
            EndsWithin(s'.redirects, MAX_HOPS + 1) && Forest(s'.redirects) && Reversed(s')
  {
    hide Distinct, Walk;
    var s' := Merge(s, req).0;
    if s'.redirects == s.redirects {
      SameReversed(s, s');
      Longer(s.redirects);
    } else {
      var p := s.proposals[req.id];
      var from, into := Resolve(s.redirects, p.from), Resolve(s.redirects, p.into);
      ResolveIsRoot(s.redirects, p.from);
      ResolveIsRoot(s.redirects, p.into);
      MergeEnds(s.redirects, from, into, MAX_HOPS);
      ReversedMerge(s, from, into, s');
    }
  }

  lemma SameReversed(s: Identities, s': Identities)
    requires Reversed(s) && s'.redirects == s.redirects && s'.members == s.members
    ensures Reversed(s')
  {
    assert forall y: ResourceId :: MembersOf(s', y) == MembersOf(s, y);
  }

  lemma Longer(r: map<ResourceId, ResourceId>)
    requires Shallow(r)
    ensures EndsWithin(r, MAX_HOPS + 1)
  {
    var more := MAX_HOPS + 1;
    forall id: ResourceId ensures Walk(r, id, more) !in r {
      WalkStays(r, id, MAX_HOPS, more);
    }
  }

  /** While no chain exceeds 16 hops, the redirects form a forest and the lists are their reverse. */
  lemma {:induction false} RunKeeps(run: seq<MergeRequest>)
    requires forall k | 0 <= k < |run| :: Shallow(Run(NO_MERGES, run[..k]).redirects)
    ensures Forest(Run(NO_MERGES, run).redirects) && Reversed(Run(NO_MERGES, run))
  {
    hide Shallow, Forest, Reversed, Merge;
    if run == [] {
      EmptyForest();
    } else {
      var before := run[..|run| - 1];
      assert forall k | 0 <= k < |before| :: before[..k] == run[..k];
      RunKeeps(before);
      assert Shallow(Run(NO_MERGES, before).redirects);
      MergeKeeps(Run(NO_MERGES, before), run[|run| - 1]);
    }
  }

  lemma EmptyForest()
    ensures Forest(NO_MERGES.redirects) && Reversed(NO_MERGES)
  {
    assert EndsWithin(NO_MERGES.redirects, 0);
  }

  // ------------------------------------------------------------ cycles

  ghost predicate Reaches(r: map<ResourceId, ResourceId>, x: ResourceId, id: ResourceId) {
    exists hops: nat :: Walk(r, x, hops) == id
  }

  /** Before a redirect is reached, changing it changes nothing. */
  lemma {:induction false} WalkAvoids(r: map<ResourceId, ResourceId>, from: ResourceId, into: ResourceId,
      x: ResourceId, hops: nat)
    requires !Reaches(r, x, from)
    ensures Walk(r[from := into], x, hops) == Walk(r, x, hops) && Walk(r, x, hops) != from
    decreases hops
  {
    assert Walk(r, x, 0) == x;
    if hops > 0 && x in r {
      forall k: nat ensures Walk(r, r[x], k) != from {
        assert Walk(r, x, k + 1) == Walk(r, r[x], k);
      }
      WalkAvoids(r, from, into, r[x], hops - 1);
    }
  }

  lemma {:induction false} WalkMeets(r: map<ResourceId, ResourceId>, from: ResourceId, into: ResourceId, x: ResourceId,
      hops: nat)
      returns (k: nat)
    requires Walk(r, x, hops) == from
    ensures k <= hops && Walk(r[from := into], x, k) == from
    decreases hops
  {
    if x == from {
      k := 0;
    } else {
      k := WalkMeets(r, from, into, r[x], hops - 1);
      k := k + 1;
    }
  }

  /** Redirecting `from` to `into`, whether or not it was redirected before, keeps a forest exactly when `into` does not
    * lead to `from`.
    */
  lemma RedirectExact(r: map<ResourceId, ResourceId>, from: ResourceId, into: ResourceId)
    requires Forest(r)
    ensures Forest(r[from := into]) <==> !Reaches(r, into, from)
  {
    var r' := r[from := into];
    if Reaches(r, into, from) {
      var hops: nat :| Walk(r, into, hops) == from;
      var k := WalkMeets(r, from, into, into, hops);
      assert Reaches(r', into, from);
      if Forest(r') { NoCycle(r', into, from); }
    } else {
      var bound: nat :| EndsWithin(r, bound);
      var more := 2 * bound + 1;
      forall x: ResourceId ensures Walk(r', x, more) !in r' {
        AfterRedirect(r, from, into, bound, x);
      }
      assert EndsWithin(r', more);
    }
  }

  lemma AfterRedirect(r: map<ResourceId, ResourceId>, from: ResourceId, into: ResourceId, bound: nat, x: ResourceId)
    requires EndsWithin(r, bound) && !Reaches(r, into, from)
    ensures Walk(r[from := into], x, 2 * bound + 1) !in r[from := into]
  {
    var r' := r[from := into];
    if !Reaches(r, x, from) {
      WalkAvoids(r, from, into, x, bound);
      WalkStays(r', x, bound, 2 * bound + 1);
    } else {
      var hops: nat :| Walk(r, x, hops) == from;
      var k := WalkMeets(r, from, into, x, if hops <= bound then hops else EarlyHop(r, x, hops, bound));
      WalkFurther(r', x, k, 1 + bound);
      assert Walk(r', from, 1 + bound) == Walk(r', into, bound);
      WalkAvoids(r, from, into, into, bound);
      WalkStays(r', x, k + 1 + bound, 2 * bound + 1);
    }
  }

  /** A chain has ended after the bound, so further hops lead to the same resource. */
  function EarlyHop(r: map<ResourceId, ResourceId>, x: ResourceId, hops: nat, bound: nat): (k: nat)
    requires EndsWithin(r, bound) && hops > bound
    ensures k == bound && Walk(r, x, k) == Walk(r, x, hops)
  {
    WalkStays(r, x, bound, hops);
    bound
  }

  // ------------------------------------------------------------ resources declared distinct

  /** No two resources that were declared distinct are one. */
  ghost predicate Separate(s: Identities) {
    forall a, b | (a, b) in s.distinct :: Resolve(s.redirects, a) != Resolve(s.redirects, b)
  }

  /** A merge sends what ended at the one root to the other. */
  lemma ResolveRedirected(r: map<ResourceId, ResourceId>, from: ResourceId, into: ResourceId, x: ResourceId)
    requires Shallow(r) && Shallow(r[from := into]) && from !in r && into !in r && from != into
    ensures Resolve(r[from := into], x) == if Resolve(r, x) == from then into else Resolve(r, x)
  {
    WalkRedirected(r, from, into, x, MAX_HOPS);
    ResolveIsRoot(r[from := into], x);
  }

  /** A merge keeps declared resources apart exactly when no declaration holds between a resource of the one group
    * and a resource of the other, which is more than the two roots that are looked at when it is proposed.
    */
  lemma SeparateExact(s: Identities, from: ResourceId, into: ResourceId)
    requires Shallow(s.redirects) && Shallow(s.redirects[from := into]) && Separate(s)
    requires from !in s.redirects && into !in s.redirects && from != into
    ensures Separate(s.(redirects := s.redirects[from := into])) <==>
              forall a, b | (a, b) in s.distinct :: {Resolve(s.redirects, a), Resolve(s.redirects, b)} != {from, into}
  {
    hide Shallow, Resolve;
    var r, s' := s.redirects, s.(redirects := s.redirects[from := into]);
    forall a, b | (a, b) in s.distinct
      ensures Resolve(s'.redirects, a) != Resolve(s'.redirects, b) <==> {Resolve(r, a), Resolve(r, b)} != {from, into}
    {
      ResolveRedirected(r, from, into, a);
      ResolveRedirected(r, from, into, b);
    }
  }

  const APART: seq<MergeRequest> :=
    [Create(0), Create(1), Create(2), Distinguish(0, 1), Propose(0, 0, 2), Decide(0, true), Propose(1, 1, 2),
      Decide(1, true)]

  /** What proposing and approving a merge of two roots does. */
  function Merged(s: Identities, id: ProposalId, from: ResourceId, into: ResourceId): Identities {
    s.(redirects := s.redirects[from := into], members := s.members[into := MembersOf(s, into) + [from]],
       proposals := s.proposals[id := Proposal(from, into, Approved)])
  }

  lemma ProposedAndApproved(s: Identities, id: ProposalId, from: ResourceId, into: ResourceId)
    requires from !in s.redirects && into !in s.redirects && {from, into} <= s.resources && from != into
    requires !Blocked(s.distinct, from, into)
    ensures Merge(Merge(s, Propose(id, from, into)).0, Decide(id, true)).0 == Merged(s, id, from, into)
  {
    hide Walk, Blocked;
    NotRedirected(s.redirects, from);
    NotRedirected(s.redirects, into);
  }

  /** Two resources that were declared distinct become one when both are merged into a third. */
  lemma DistinctMerged()
    ensures var s := Run(NO_MERGES, APART);
            (0, 1) in s.distinct && Resolve(s.redirects, 0) == 2 && Resolve(s.redirects, 1) == 2 && !Separate(s)
  {
    hide Walk, Merge, Run;
    var s0 := Identities({0, 1, 2}, map[], map[], map[], {(0, 1)});
    ApartStart();
    RunTwo(NO_MERGES, APART, 6);
    ProposedAndApproved(s0, 0, 0, 2);
    RunTwo(NO_MERGES, APART, 8);
    ProposedAndApproved(Merged(s0, 0, 0, 2), 1, 1, 2);
    assert APART[..8] == APART;
    var s := Merged(Merged(s0, 0, 0, 2), 1, 1, 2);
    OneHop(s.redirects, 0, 2);
    OneHop(s.redirects, 1, 2);
  }

  lemma RunTwo(s: Identities, run: seq<MergeRequest>, n: nat)
    requires 2 <= n <= |run|
    ensures Run(s, run[..n]) == Merge(Merge(Run(s, run[..n - 2]), run[n - 2]).0, run[n - 1]).0
  {
    hide Merge;
    assert run[..n][..n - 1] == run[..n - 1];
    assert run[..n - 1][..n - 2] == run[..n - 2];
  }

  lemma ApartStart()
    ensures Run(NO_MERGES, APART[..4]) == Identities({0, 1, 2}, map[], map[], map[], {(0, 1)})
  {
    hide Walk;
    NotRedirected(map[], 0);
    NotRedirected(map[], 1);
    RunTwo(NO_MERGES, APART, 4);
    RunTwo(NO_MERGES, APART, 2);
    assert Run(NO_MERGES, APART[..0]) == NO_MERGES;
  }

  lemma NotRedirected(r: map<ResourceId, ResourceId>, id: ResourceId)
    requires id !in r
    ensures Resolve(r, id) == id
  {}

  lemma OneHop(r: map<ResourceId, ResourceId>, id: ResourceId, root: ResourceId)
    requires id in r && r[id] == root && root !in r
    ensures Resolve(r, id) == root
  {}

  // ------------------------------------------------------------ groups

  /** The resources merged into `id`, directly or not, and `id` itself. */
  ghost function Group(r: map<ResourceId, ResourceId>, id: ResourceId): set<ResourceId> {
    set x | x in r.Keys + {id} && Reaches(r, x, id)
  }

  lemma GroupOfRoot(r: map<ResourceId, ResourceId>, root: ResourceId)
    requires Shallow(r) && root !in r
    ensures forall x: ResourceId :: x in Group(r, root) <==> Resolve(r, x) == root
  {
    forall x: ResourceId ensures x in Group(r, root) <==> Resolve(r, x) == root {
      ResolveIsRoot(r, x);
      if Reaches(r, x, root) {
        var hops: nat :| Walk(r, x, hops) == root;
        assert Walk(r, x, hops) == Resolve(r, x);
      }
    }
  }

  lemma NoCycle(r: map<ResourceId, ResourceId>, x: ResourceId, id: ResourceId)
    requires Forest(r) && Reaches(r, x, id) && id in r
    ensures r[id] != x
  {
    if r[id] == x {
      var hops: nat :| Walk(r, x, hops) == id;
      var bound: nat :| EndsWithin(r, bound);
      Cycle(r, id, hops, bound);
    }
  }

  /** On a cycle a walk of any length ends on a redirected resource. */
  lemma {:induction false} Cycle(r: map<ResourceId, ResourceId>, id: ResourceId, hops: nat, n: nat)
    requires id in r && Walk(r, r[id], hops) == id
    ensures Walk(r, id, n) in r
    decreases n
  {
    if Walk(r, id, n) !in r {
      if n <= hops + 1 {
        WalkStays(r, id, n, hops + 1);
      } else {
        WalkFurther(r, id, hops + 1, n - hops - 1);
        Cycle(r, id, hops, n - hops - 1);
      }
    }
  }

  lemma MemberReaches(r: map<ResourceId, ResourceId>, x: ResourceId, y: ResourceId, id: ResourceId)
    requires Reaches(r, y, id) && x in r && r[x] == y
    ensures Reaches(r, x, id)
  {
    var hops: nat :| Walk(r, y, hops) == id;
    assert Walk(r, x, hops + 1) == id;
  }

  /** The list holds distinct members of the group, and all the children of its first `i` elements. */
  ghost predicate Collected(s: Identities, id: ResourceId, out: seq<ResourceId>, i: nat) {
    && i <= |out| && |out| > 0 && out[0] == id && Distinct(out)
    && (forall k | 0 <= k < |out| :: Reaches(s.redirects, out[k], id))
    && (forall k | 0 < k < |out| :: out[k] in s.redirects && s.redirects[out[k]] in out[..i])
    && (forall x: ResourceId | x in s.redirects && s.redirects[x] in out[..i] :: x in out)
  }

  lemma CollectedStart(s: Identities, id: ResourceId)
    ensures Collected(s, id, [id], 0)
  {
    assert Walk(s.redirects, id, 0) == id;
  }

  lemma CollectedStep(s: Identities, id: ResourceId, out: seq<ResourceId>, i: nat)
    requires Forest(s.redirects) && Reversed(s) && Collected(s, id, out, i) && i < |out|
    ensures Collected(s, id, out + MembersOf(s, out[i]), i + 1)
  {
    hide Reaches, Forest, Collected, MembersOf, Distinct;
    var m := MembersOf(s, out[i]);
    assert forall x | x in m :: x in s.redirects && s.redirects[x] == out[i];
    assert forall x: ResourceId | x in s.redirects && s.redirects[x] == out[i] :: x in m;
    CollectedAt(s, id, out, i);
    forall k | 0 <= k < |m|
      ensures m[k] !in out && Reaches(s.redirects, m[k], id)
    {
      assert m[k] in m;
      MemberReaches(s.redirects, m[k], out[i], id);
      NewMember(s, id, out, i, m[k]);
    }
    DistinctAppend(out, m);
    CollectedExtend(s, id, out, i, m);
  }

  lemma CollectedAt(s: Identities, id: ResourceId, out: seq<ResourceId>, i: nat)
    requires Collected(s, id, out, i) && i < |out|
    ensures Distinct(out) && Reaches(s.redirects, out[i], id)
  {}

  lemma CollectedExtend(s: Identities, id: ResourceId, out: seq<ResourceId>, i: nat, m: seq<ResourceId>)
    requires Collected(s, id, out, i) && i < |out| && Distinct(out + m)
    requires forall k | 0 <= k < |m| ::
      m[k] in s.redirects && s.redirects[m[k]] == out[i] && Reaches(s.redirects, m[k], id)
    requires forall x: ResourceId | x in s.redirects && s.redirects[x] == out[i] :: x in m
    ensures Collected(s, id, out + m, i + 1)
  {
    hide Reaches, Distinct;
    var out' := out + m;
    assert out'[..i + 1] == out[..i] + [out[i]];
  }

  lemma NewMember(s: Identities, id: ResourceId, out: seq<ResourceId>, i: nat, x: ResourceId)
    requires Forest(s.redirects) && Collected(s, id, out, i) && i < |out| && x in s.redirects &&
      s.redirects[x] == out[i]
    ensures x !in out
  {
    if x in out {
      var k :| 0 <= k < |out| && out[k] == x;
      if k == 0 {
        NoCycle(s.redirects, out[i], id);
      }
    }
  }

  lemma DistinctAppend(a: seq<ResourceId>, b: seq<ResourceId>)
    requires Distinct(a) && Distinct(b) && forall x | x in b :: x !in a
    ensures Distinct(a + b)
  {
    forall i, j | 0 <= i < j < |a + b| ensures (a + b)[i] != (a + b)[j] {
      if i < |a| <= j { assert (a + b)[j] in b && (a + b)[i] in a; }
    }
  }

  /** When nothing is left to explore the list is the whole group. */
  lemma CollectedAll(s: Identities, id: ResourceId, out: seq<ResourceId>)
    requires Collected(s, id, out, |out|)
    ensures forall x: ResourceId :: x in out <==> x in Group(s.redirects, id)
  {
    assert out[..|out|] == out;
    forall x: ResourceId ensures x in out <==> x in Group(s.redirects, id) {
      if Reaches(s.redirects, x, id) {
        var hops: nat :| Walk(s.redirects, x, hops) == id;
        ReachesListed(s, id, out, x, hops);
      }
    }
  }

  lemma {:induction false} ReachesListed(s: Identities, id: ResourceId, out: seq<ResourceId>, x: ResourceId, hops: nat)
    requires Collected(s, id, out, |out|) && Walk(s.redirects, x, hops) == id
    ensures x in out
    decreases hops
  {
    assert out[..|out|] == out;
    if hops > 0 && x in s.redirects {
      ReachesListed(s, id, out, s.redirects[x], hops - 1);
    }
  }

  ghost function Elements(q: seq<ResourceId>): set<ResourceId> {
    set x | x in q
  }

  lemma ListedInGroup(s: Identities, id: ResourceId, out: seq<ResourceId>, i: nat)
    requires Collected(s, id, out, i)
    ensures Elements(out) <= Group(s.redirects, id) && |out| <= |Group(s.redirects, id)|
  {
    DistinctSize(out);
    SubsetSize(Elements(out), Group(s.redirects, id));
  }

  /** What the collected list says when the loop stops: it is the whole group exactly when the elements that were
    * not expanded have no members.
    */
  lemma CollectedResult(s: Identities, id: ResourceId, out: seq<ResourceId>, i: nat)
    requires Forest(s.redirects) && Reversed(s) && Collected(s, id, out, i) && (i == |out| || |out| >= GROUP_LIMIT)
    ensures Distinct(out) && forall x | x in out :: x in Group(s.redirects, id)
    ensures (forall x | x in Group(s.redirects, id) :: x in out) <==>
      forall k | i <= k < |out| :: MembersOf(s, out[k]) == []
    ensures |out| < GROUP_LIMIT <==> |Group(s.redirects, id)| < GROUP_LIMIT
  {
    hide Reversed, Forest;
    ListedInGroup(s, id, out, i);
    forall x | x in out ensures x in Group(s.redirects, id) {
      assert x in Elements(out);
    }
    if i == |out| {
      CollectedAll(s, id, out);
      assert Elements(out) == Group(s.redirects, id);
      DistinctSize(out);
    } else if forall k | i <= k < |out| :: MembersOf(s, out[k]) == [] {
      LeavesCollected(s, id, out, i);
      CollectedAll(s, id, out);
    } else {
      var k :| i <= k < |out| && MembersOf(s, out[k]) != [];
      UnlistedMember(s, id, out, i, k);
    }
  }

  /** If the rest of the list has no members, nothing is left to explore. */
  lemma LeavesCollected(s: Identities, id: ResourceId, out: seq<ResourceId>, i: nat)
    requires Reversed(s) && Collected(s, id, out, i) && forall k | i <= k < |out| :: MembersOf(s, out[k]) == []
    ensures Collected(s, id, out, |out|)
  {
    hide Reaches, Distinct;
    assert out[..|out|] == out;
    forall x: ResourceId | x in s.redirects && s.redirects[x] in out ensures x in out {
      var k :| 0 <= k < |out| && out[k] == s.redirects[x];
      assert x in MembersOf(s, out[k]);
      assert k < i;
      assert out[k] in out[..i];
    }
  }

  /** A member of an element that was not expanded is in the group but not in the list. */
  lemma UnlistedMember(s: Identities, id: ResourceId, out: seq<ResourceId>, i: nat, k: nat)
    requires Forest(s.redirects) && Reversed(s) && Collected(s, id, out, i) && i <= k < |out| &&
      MembersOf(s, out[k]) != []
    ensures exists x :: x in Group(s.redirects, id) && x !in out
  {
    hide Reaches, Forest;
    var x := MembersOf(s, out[k])[0];
    assert x in MembersOf(s, out[k]);
    MemberReaches(s.redirects, x, out[k], id);
    if x == id { NoCycle(s.redirects, out[k], id); }
    assert out[k] !in out[..i];
    assert forall j | 0 < j < |out| :: out[j] != x;
    assert x in Group(s.redirects, id) && x !in out;
  }

  /** The loop of `identity_group` from some state on: the list, and how many of its elements were expanded. */
  function Gather(s: Identities, out: seq<ResourceId>, i: nat, limit: nat): (seq<ResourceId>, nat)
    requires i <= |out|
    decreases limit - |out|, |out| - i
  {
    if i == |out| || |out| >= limit then (out, i) else Gather(s, out + MembersOf(s, out[i]), i + 1, limit)
  }

  /** The list for a resource, and how many of its elements were expanded. */
  function Listed(s: Identities, id: ResourceId): (seq<ResourceId>, nat) {
    Gather(s, [id], 0, GROUP_LIMIT)
  }

  lemma {:induction false} GatherCollects(s: Identities, id: ResourceId, out: seq<ResourceId>, i: nat, limit: nat)
    requires Forest(s.redirects) && Reversed(s) && Collected(s, id, out, i)
    ensures var (all, n) := Gather(s, out, i, limit); Collected(s, id, all, n) && (n == |all| || |all| >= limit)
    decreases limit - |out|, |out| - i
  {
    hide Forest, Reversed, Collected;
    CollectedBounds(s, id, out, i);
    if i < |out| && |out| < limit {
      CollectedStep(s, id, out, i);
      GatherCollects(s, id, out + MembersOf(s, out[i]), i + 1, limit);
    }
  }

  /** Below the limit the loop only stops when every element was expanded. */
  lemma CollectedAllIfDone(s: Identities, id: ResourceId, out: seq<ResourceId>, i: nat)
    requires Collected(s, id, out, i) && (i == |out| || |out| >= GROUP_LIMIT)
    ensures |out| < GROUP_LIMIT ==> forall x: ResourceId | x in Group(s.redirects, id) :: x in out
  {
    hide Collected, Group;
    if i == |out| { CollectedAll(s, id, out); }
  }

  lemma CollectedBounds(s: Identities, id: ResourceId, out: seq<ResourceId>, i: nat)
    requires Collected(s, id, out, i)
    ensures i <= |out|
  {}

  /** The list of a group is complete exactly when the elements beyond those that were expanded have no members,
    * and so it is whenever the group has fewer members than the limit.
    */
  lemma GroupExact(s: Identities, id: ResourceId)
    requires Forest(s.redirects) && Reversed(s)
    ensures var (all, n) := Listed(s, id);
            && Distinct(all) && (forall x | x in all :: x in Group(s.redirects, id))
            && ((forall x | x in Group(s.redirects, id) :: x in all) <==>
              forall k | n <= k < |all| :: MembersOf(s, all[k]) == [])
            && (|Group(s.redirects, id)| < GROUP_LIMIT ==> n == |all|)
  {
    hide Forest, Reversed, Collected, Distinct;
    CollectedStart(s, id);
    GatherCollects(s, id, [id], 0, GROUP_LIMIT);
    var (all, n) := Listed(s, id);
    CollectedResult(s, id, all, n);
  }

  /** The members of the elements, in the order of the elements. */
  function Expansion(s: Identities, q: seq<ResourceId>): seq<ResourceId> {
    if q == [] then [] else Expansion(s, q[..|q| - 1]) + MembersOf(s, q[|q| - 1])
  }

  /** The whole group in breadth-first order: what the loop would list without a limit. */
  ghost function Whole(s: Identities, id: ResourceId): seq<ResourceId> {
    Gather(s, [id], 0, |Group(s.redirects, id)| + 1 + GROUP_LIMIT).0
  }

  lemma {:induction false} ExpansionGrows(s: Identities, q: seq<ResourceId>, a: nat, b: nat)
    requires a <= b <= |q|
    ensures Expansion(s, q[..a]) <= Expansion(s, q[..b])
  {
    if a < b {
      ExpansionGrows(s, q, a, b - 1);
      assert q[..b][..b - 1] == q[..b - 1];
    }
  }

  /** Each of the elements from `i` to `n` was expanded when the list was below the limit. */
  ghost predicate ExpandedBelow(s: Identities, q: seq<ResourceId>, i: nat, n: nat, limit: nat)
    requires n <= |q|
  {
    forall k | i <= k < n :: 1 + |Expansion(s, q[..k])| < limit
  }

  lemma ExpandedFirst(s: Identities, q: seq<ResourceId>, i: nat, n: nat, limit: nat)
    requires i < n <= |q| && ExpandedBelow(s, q, i + 1, n, limit) && 1 + |Expansion(s, q[..i])| < limit
    ensures ExpandedBelow(s, q, i, n, limit)
  {
    hide Expansion;
  }

  /** The list consists of the resource and the members of what was expanded, all of it below the limit. */
  lemma {:induction false} GatherShape(s: Identities, id: ResourceId, out: seq<ResourceId>, i: nat, limit: nat)
    requires i <= |out| && out == [id] + Expansion(s, out[..i])
    ensures var (all, n) := Gather(s, out, i, limit);
            i <= n <= |all| && out <= all && all == [id] + Expansion(s, all[..n]) && ExpandedBelow(s, all, i, n, limit)
    decreases limit - |out|, |out| - i
  {
    if i < |out| && |out| < limit {
      hide Expansion, MembersOf, ExpandedBelow;
      var more := out + MembersOf(s, out[i]);
      ExpansionStep(s, out, more, i);
      GatherShape(s, id, more, i + 1, limit);
      var (all, n) := Gather(s, more, i + 1, limit);
      PrefixOf(out, more, all, i);
      ExpandedFirst(s, all, i, n, limit);
    }
  }

  lemma ExpansionStep(s: Identities, out: seq<ResourceId>, more: seq<ResourceId>, i: nat)
    requires i < |out| && out <= more
    ensures Expansion(s, more[..i + 1]) == Expansion(s, out[..i]) + MembersOf(s, out[i])
  {
    assert more[..i + 1][..i] == out[..i];
  }

  lemma PrefixOf(a: seq<ResourceId>, b: seq<ResourceId>, c: seq<ResourceId>, i: nat)
    requires a <= b <= c && i <= |a|
    ensures a <= c && c[..i] == a[..i]
  {}

  /** A loop with a higher limit goes on where the other one stops. */
  lemma {:induction false} GatherGoesOn(s: Identities, out: seq<ResourceId>, i: nat, limit: nat, more: nat)
    requires i <= |out| && limit <= more
    ensures var (all, n) := Gather(s, out, i, limit); n <= |all| && Gather(s, out, i, more) == Gather(s, all, n, more)
    decreases limit - |out|, |out| - i
  {
    if i < |out| && |out| < limit {
      GatherGoesOn(s, out + MembersOf(s, out[i]), i + 1, limit, more);
    }
  }

  /** The breadth-first order: every resource of the group once, after the one it was merged into. */
  lemma BreadthFirst(s: Identities, id: ResourceId)
    requires Forest(s.redirects) && Reversed(s)
    ensures var b := Whole(s, id);
            Distinct(b) && Elements(b) == Group(s.redirects, id) && b == [id] + Expansion(s, b) && Listed(s, id).0 <= b
  {
    hide Forest, Reversed, Collected, Distinct, Group;
    var limit := |Group(s.redirects, id)| + 1 + GROUP_LIMIT;
    CollectedStart(s, id);
    GatherCollects(s, id, [id], 0, limit);
    var (b, m) := Gather(s, [id], 0, limit);
    ListedInGroup(s, id, b, m);
    CollectedDistinct(s, id, b, m);
    CollectedAll(s, id, b);
    assert Expansion(s, [id][..0]) == [];
    GatherShape(s, id, [id], 0, limit);
    assert b[..m] == b;
    assert forall x :: x in Elements(b) <==> x in Group(s.redirects, id);
    var (all, n) := Listed(s, id);
    GatherShape(s, id, [id], 0, GROUP_LIMIT);
    GatherGoesOn(s, [id], 0, GROUP_LIMIT, limit);
    GatherShape(s, id, all, n, limit);
  }

  /** The list is the whole group exactly when, in breadth-first order, fewer resources than the limit come before the
    * members of any resource that has some.
    */
  lemma GroupListed(s: Identities, id: ResourceId)
    requires Forest(s.redirects) && Reversed(s)
    ensures var b := Whole(s, id);
            (forall x | x in Group(s.redirects, id) :: x in Listed(s, id).0) <==>
              forall k | 0 <= k < |b| && MembersOf(s, b[k]) != [] :: 1 + |Expansion(s, b[..k])| < GROUP_LIMIT
  {
    hide Forest, Reversed, Distinct, Group, Gather, Expansion;
    var b := Whole(s, id);
    var (all, n) := Listed(s, id);
    BreadthFirst(s, id);
    GroupExact(s, id);
    ListShape(s, id);
    if forall x | x in Group(s.redirects, id) :: x in all {
      DistinctSize(all);
      DistinctSize(b);
      assert forall x :: x in Elements(all) <==> x in Elements(b);
      assert Elements(all) == Elements(b);
      assert all == b;
    }
    if forall k | 0 <= k < |b| && MembersOf(s, b[k]) != [] :: 1 + |Expansion(s, b[..k])| < GROUP_LIMIT {
      forall k | n <= k < |all| ensures MembersOf(s, all[k]) == [] {
        assert b[k] == all[k] && b[..k] == all[..k];
        ExpansionGrows(s, all, n, k);
      }
    }
  }

  lemma CollectedDistinct(s: Identities, id: ResourceId, out: seq<ResourceId>, i: nat)
    requires Collected(s, id, out, i)
    ensures Distinct(out)
  {}

  lemma ListShape(s: Identities, id: ResourceId)
    requires Forest(s.redirects) && Reversed(s)
    ensures var (all, n) := Listed(s, id);
            && n <= |all| && all == [id] + Expansion(s, all[..n]) && (n == |all| || |all| >= GROUP_LIMIT)
            && ExpandedBelow(s, all, 0, n, GROUP_LIMIT)
  {
    hide Forest, Reversed, Collected, ExpandedBelow;
    assert Expansion(s, [id][..0]) == [];
    GatherShape(s, id, [id], 0, GROUP_LIMIT);
    CollectedStart(s, id);
    GatherCollects(s, id, [id], 0, GROUP_LIMIT);
  }

  /** A root with 255 members, the first of which has a member of its own: no chain is longer than two hops. */
  const CROWD: Identities :=
    Identities(set x: ResourceId | 0 <= x <= 256,
               map x: ResourceId | 1 <= x <= 256 :: if x == 256 then 1 else 0,
               map[0 := seq(255, k => k + 1), 1 := [256]], map[], {})

  lemma CrowdForest()
    ensures Shallow(CROWD.redirects) && Forest(CROWD.redirects) && Reversed(CROWD)
  {
    var r := CROWD.redirects;
    forall id: ResourceId ensures Walk(r, id, MAX_HOPS) !in r {
      assert Walk(r, id, 2) == 0 || id > 256;
      WalkStays(r, id, 2, MAX_HOPS);
    }
    assert EndsWithin(r, MAX_HOPS);
    forall x: ResourceId, y: ResourceId ensures x in MembersOf(CROWD, y) <==> x in r && r[x] == y {
      if y == 0 && 1 <= x <= 255 { assert MembersOf(CROWD, 0)[x - 1] == x; }
    }
  }

  /** Its list stops at 256 elements, before the member of the member. */
  lemma GroupCut()
    ensures Shallow(CROWD.redirects) && Reversed(CROWD) && 256 in Group(CROWD.redirects, 0)
    ensures var (all, n) := Listed(CROWD, 0); |all| == 256 && n == 1 && 256 !in all
  {
    CrowdForest();
    var r := CROWD.redirects;
    assert Walk(r, 256, 2) == Walk(r, 1, 1) == Walk(r, 0, 0) == 0;
    var first := MembersOf(CROWD, 0);
    assert |[0] + first| == 256;
    assert Listed(CROWD, 0) == Gather(CROWD, [0] + first, 1, GROUP_LIMIT);
  }

  lemma {:induction false} DistinctSize(q: seq<ResourceId>)
    requires Distinct(q)
    ensures |Elements(q)| == |q|
  {
    if q != [] {
      var rest, last := q[..|q| - 1], q[|q| - 1];
      DistinctSize(rest);
      assert q == rest + [last] && last !in rest;
      assert Elements(q) == Elements(rest) + {last};
    }
  }

  lemma SubsetSize(a: set<ResourceId>, b: set<ResourceId>)
    requires a <= b
    ensures |a| <= |b|
  {
    assert b == a + (b - a);
    assert |a + (b - a)| == |a| + |b - a|;
  }

  // ------------------------------------------------------------ beyond 16 hops

  /** Resources 0 to `n`, each merged into the next. */
  function Ladder(n: nat): seq<MergeRequest> {
    if n == 0 then [Create(0)] else Ladder(n - 1) + [Create(n), Propose(n, n - 1, n), Decide(n, true)]
  }

  ghost predicate Steps(r: map<ResourceId, ResourceId>, n: nat) {
    forall i: ResourceId :: (i in r <==> i < n) && (i in r ==> r[i] == i + 1)
  }

  lemma {:induction false} WalkSteps(r: map<ResourceId, ResourceId>, n: nat, i: ResourceId, hops: nat)
    requires Steps(r, n) && i <= n
    ensures Walk(r, i, hops) == if i + hops <= n then i + hops else n
    decreases hops
  {
    if hops > 0 && i < n { WalkSteps(r, n, i + 1, hops - 1); }
  }

  lemma RunOne(s: Identities, run: seq<MergeRequest>, a: MergeRequest)
    ensures Run(s, run + [a]) == Merge(Run(s, run), a).0
  {
    assert (run + [a])[..|run|] == run;
  }

  lemma RunThree(s: Identities, run: seq<MergeRequest>, a: MergeRequest, b: MergeRequest, c: MergeRequest)
    ensures Run(s, run + [a, b, c]) == Merge(Merge(Merge(Run(s, run), a).0, b).0, c).0
  {
    hide Merge, Run;
    assert run + [a, b, c] == run + [a] + [b] + [c];
    RunOne(s, run, a);
    RunOne(s, run + [a], b);
    RunOne(s, run + [a] + [b], c);
  }

  ghost predicate Climbed(s: Identities, n: nat) {
    && Steps(s.redirects, n) && s.distinct == {} && (forall i: nat :: i in s.resources <==> i <= n)
    && forall p | p in s.proposals :: p <= n
  }

  lemma Climb(s: Identities, n: nat)
    requires n > 0 && Climbed(s, n - 1)
    ensures Climbed(Merge(Merge(Merge(s, Create(n)).0, Propose(n, n - 1, n)).0, Decide(n, true)).0, n)
  {
    hide Walk;
    WalkSteps(s.redirects, n - 1, n - 1, MAX_HOPS);
    assert Resolve(s.redirects, n - 1) == n - 1;
    assert Resolve(s.redirects, n) == n by { NotRedirected(s.redirects, n); }
    NotRedirected(s.redirects, n - 1);
  }

  lemma {:induction false} LadderSteps(n: nat)
    ensures Climbed(Run(NO_MERGES, Ladder(n)), n)
  {
    hide Climbed, Merge;
    if n > 0 {
      LadderSteps(n - 1);
      Climb(Run(NO_MERGES, Ladder(n - 1)), n);
      RunThree(NO_MERGES, Ladder(n - 1), Create(n), Propose(n, n - 1, n), Decide(n, true));
    } else {
      LadderStart();
    }
  }

  lemma LadderStart()
    ensures Climbed(Run(NO_MERGES, Ladder(0)), 0)
  {
    RunOne(NO_MERGES, [], Create(0));
    assert [] + [Create(0)] == Ladder(0);
  }

  /** Seventeen merges in a row: `resolve_id` stops one short of the root, resolving its result again
    * goes further, and the root's group holds a resource that does not resolve to it.
    */
  lemma SeventeenMerges()
    ensures var r := Run(NO_MERGES, Ladder(17)).redirects;
            Forest(r) && Resolve(r, 0) == 16 && Resolve(r, 16) == 17 && 0 in Group(r, 17)
  {
    hide Merge, Run, Ladder, Forest;
    LadderSteps(17);
    var r := Run(NO_MERGES, Ladder(17)).redirects;
    WalkSteps(r, 17, 0, 16);
    WalkSteps(r, 17, 16, 16);
    WalkSteps(r, 17, 0, 17);
    assert Reaches(r, 0, 17);
    StepsForest(r, 17);
  }

  /** After 33 merges in a row, proposing to merge the last resource into the first and approving it closes a cycle:
    * the ends are followed 16 hops when proposed and 16 more when decided, which does not reach the common root.
    */
  lemma CycleAfterLadder()
    ensures var before := Run(NO_MERGES, Ladder(33));
            var after := Run(NO_MERGES, Ladder(33) + [Propose(99, 33, 0), Decide(99, true)]);
            && Forest(before.redirects) && Reaches(before.redirects, 32, 33)
            && after.redirects == before.redirects[33 := 32] && Walk(after.redirects, 32, 2) == 32 &&
              !Forest(after.redirects)
  {
    hide Merge, Run, Ladder, Forest;
    var run := Ladder(33);
    var s := Run(NO_MERGES, run);
    LadderSteps(33);
    var r := s.redirects;
    StepsForest(r, 33);
    WalkSteps(r, 33, 0, 16);
    WalkSteps(r, 33, 16, 16);
    WalkSteps(r, 33, 32, 1);
    assert Walk(r, 32, 1) == 33;
    assert Reaches(r, 32, 33);
    NotRedirected(r, 33);
    LadderDecided(s);
    assert run + [Propose(99, 33, 0), Decide(99, true)] == run + [Propose(99, 33, 0)] + [Decide(99, true)];
    RunOne(NO_MERGES, run, Propose(99, 33, 0));
    RunOne(NO_MERGES, run + [Propose(99, 33, 0)], Decide(99, true));
    RedirectExact(r, 33, 32);
    assert Walk(r[33 := 32], 32, 2) == Walk(r[33 := 32], 33, 1) == Walk(r[33 := 32], 32, 0);
  }

  lemma StepsForest(r: map<ResourceId, ResourceId>, n: nat)
    requires Steps(r, n)
    ensures Forest(r)
  {
    forall id: ResourceId ensures Walk(r, id, n) !in r {
      if id <= n { WalkSteps(r, n, id, n); }
    }
    assert EndsWithin(r, n);
  }

  lemma LadderDecided(s: Identities)
    requires 16 in s.resources && 33 in s.resources && s.distinct == {}
    requires Resolve(s.redirects, 33) == 33 && Resolve(s.redirects, 0) == 16 && Resolve(s.redirects, 16) == 32
    ensures Merge(Merge(s, Propose(99, 33, 0)).0, Decide(99, true)).0.redirects == s.redirects[33 := 32]
  {
    hide Walk, Resolve;
  }
}
