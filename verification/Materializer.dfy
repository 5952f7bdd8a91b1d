/** The invalidation queue of a branch: a change makes the rows of all that depends on it stale, a stale row
  * stays queued until it is rebuilt, and when the report says consistent no row is stale (materialize.rs, and
  * the freshness report of kb.rs).
  */
module Materializers {
  import opened Wrappers
  import opened Projections
  import I = Identity

  /** What a rebuild reads from the canonical store. */
  datatype Catalog = Catalog(resources: set<ResourceId>, redirects: map<ResourceId, ResourceId>, headSeq: nat)

  datatype Dependency = Dependency(dependent: ResourceId, anchors: set<ResourceId>, names: set<string>)

  /** The outcome of computing a resource: its row, the time cache afterwards, and what its time depends on. */
  datatype Facts = Facts(row: Row, cache: set<ResourceId>, deps: seq<Dependency>)

  datatype State = State(table: Table, cache: set<ResourceId>, dependents: map<ResourceId, set<ResourceId>>,
                         names: map<string, set<ResourceId>>, queue: seq<ResourceId>, queued: set<ResourceId>,
                           materializedSeq: nat)

  function DependentsOf(deps: map<ResourceId, set<ResourceId>>, id: ResourceId): set<ResourceId> {
    if id in deps then deps[id] else {}
  }

  // ------------------------------------------------------------ transitive dependents

  ghost predicate Chain(deps: map<ResourceId, set<ResourceId>>, p: seq<ResourceId>) {
    forall i | 0 <= i < |p| - 1 :: p[i + 1] in DependentsOf(deps, p[i])
  }

  ghost predicate Leads(deps: map<ResourceId, set<ResourceId>>, p: seq<ResourceId>, a: ResourceId, b: ResourceId) {
    p != [] && p[0] == a && p[|p| - 1] == b && Chain(deps, p)
  }

  /** `x` is `id`, or its time depends on `id` directly or through others. */
  ghost predicate DependsOn(deps: map<ResourceId, set<ResourceId>>, x: ResourceId, id: ResourceId) {
    exists p :: Leads(deps, p, id, x)
  }

  lemma DependsOnSelf(deps: map<ResourceId, set<ResourceId>>, id: ResourceId)
    ensures DependsOn(deps, id, id)
  {
    assert Leads(deps, [id], id, id);
  }

  lemma DependsOnMore(deps: map<ResourceId, set<ResourceId>>, x: ResourceId, y: ResourceId, id: ResourceId)
    requires DependsOn(deps, x, id) && y in DependentsOf(deps, x)
    ensures DependsOn(deps, y, id)
  {
    var p :| Leads(deps, p, id, x);
    assert Leads(deps, p + [y], id, y);
  }

  ghost predicate Closed(deps: map<ResourceId, set<ResourceId>>, seen: set<ResourceId>) {
    forall x, y | x in seen && y in DependentsOf(deps, x) :: y in seen
  }

  lemma {:induction false} ClosedChain(deps: map<ResourceId, set<ResourceId>>, seen: set<ResourceId>,
      p: seq<ResourceId>)
    requires Closed(deps, seen) && p != [] && p[0] in seen && Chain(deps, p)
    ensures p[|p| - 1] in seen
  {
    if |p| > 1 {
      assert p[1] in DependentsOf(deps, p[0]);
      forall i | 0 <= i < |p[1..]| - 1 ensures p[1..][i + 1] in DependentsOf(deps, p[1..][i]) {
        assert p[i + 2] in DependentsOf(deps, p[i + 1]);
      }
      ClosedChain(deps, seen, p[1..]);
    }
  }

  lemma ClosedHasAll(deps: map<ResourceId, set<ResourceId>>, seen: set<ResourceId>, id: ResourceId)
    requires Closed(deps, seen) && id in seen
    ensures forall x | DependsOn(deps, x, id) :: x in seen
  {
    forall x | DependsOn(deps, x, id) ensures x in seen {
      var p :| Leads(deps, p, id, x);
      ClosedChain(deps, seen, p);
    }
  }

  // ------------------------------------------------------------ the invariant

  ghost predicate Distinct(q: seq<ResourceId>) {
    forall i, j | 0 <= i < j < |q| :: q[i] != q[j]
  }

  /** The queue and the set hold the same resources, each once. */
  ghost predicate QueueOk(s: State) {
    Distinct(s.queue) && forall x: ResourceId :: x in s.queue <==> x in s.queued
  }

  ghost predicate IsStale(s: State, x: ResourceId) {
    RowOf(s.table, x).Some? && RowOf(s.table, x).value.stale
  }

  /** Every stale row is queued, except perhaps the one being processed. */
  ghost predicate StaleQueued(s: State, except: set<ResourceId>) {
    forall x: ResourceId | IsStale(s, x) && x !in except :: x in s.queued
  }

  ghost predicate Sound(s: State) {
    QueueOk(s) && StaleQueued(s, {})
  }

  function Staled(row: Option<Row>): Option<Row> {
    if row.None? then None else Some(row.value.(stale := true))
  }

  /** `s'` is `s` with exactly the resources of `touched` invalidated. */
  ghost predicate Touched(s: State, s': State, touched: set<ResourceId>) {
    && (forall x: ResourceId :: RowOf(s'.table, x) == if x in touched then Staled(RowOf(s.table, x))
      else RowOf(s.table, x))
    && s'.cache == s.cache - touched && s'.queued == s.queued + touched && s.queue <= s'.queue && QueueOk(s')
    && s'.dependents == s.dependents && s'.names == s.names && s'.materializedSeq == s.materializedSeq
  }

  lemma TouchedNothing(s: State)
    requires QueueOk(s)
    ensures Touched(s, s, {})
  {}

  function Touch(s: State, x: ResourceId): State {
    s.(cache := s.cache - {x}, table := MarkStale(s.table, x), queued := s.queued + {x},
       queue := if x in s.queued then s.queue else s.queue + [x])
  }

  lemma TouchedMore(s: State, t: State, touched: set<ResourceId>, x: ResourceId)
    requires Touched(s, t, touched) && Ok(t.table)
    ensures Touched(s, Touch(t, x), touched + {x})
  {
    MarkStaleOk(t.table, x);
    TouchQueue(t, x);
  }

  lemma TouchQueue(t: State, x: ResourceId)
    requires QueueOk(t)
    ensures QueueOk(Touch(t, x))
  {
    if x !in t.queued { assert x !in t.queue; }
  }

  lemma TouchedTwice(s: State, t: State, u: State, a: set<ResourceId>, b: set<ResourceId>)
    requires Touched(s, t, a) && Touched(t, u, b)
    ensures Touched(s, u, a + b)
  {}

  lemma TouchedSound(s: State, t: State, touched: set<ResourceId>, except: set<ResourceId>)
    requires Touched(s, t, touched) && StaleQueued(s, except)
    ensures StaleQueued(t, except) && QueueOk(t)
  {
    forall x: ResourceId | IsStale(t, x) && x !in except ensures x in t.queued {
      assert x !in touched ==> IsStale(s, x);
    }
  }

  /** A report of consistency means that no row is stale. */
  lemma ConsistentMeansFresh(s: State, headSeq: nat)
    requires Ok(s.table) && Sound(s) && |s.queue| == 0 && s.materializedSeq == headSeq
    ensures s.table.stale == {} && forall x: ResourceId :: !IsStale(s, x)
  {
    forall x: ResourceId ensures !IsStale(s, x) {
      assert IsStale(s, x) ==> x in s.queue;
    }
    forall d: Doc ensures d !in s.table.stale {
      assert Described(s.table, d);
      assert RowAt(s.table, d).Some? ==> !IsStale(s, RowAt(s.table, d).value.id);
    }
  }

  // ------------------------------------------------------------ in place

  /** The elements of a set in some order. */
  method Listed<T(==)>(s: set<T>) returns (q: seq<T>)
    ensures forall x :: x in q <==> x in s
  {
    q := [];
    var rest := s;
    while rest != {}
      invariant rest <= s && forall x :: x in q <==> x in s - rest
      decreases |rest|
    {
      var x :| x in rest;
      q, rest := q + [x], rest - {x};
    }
  }

  /** Everything that the search from `id` can come across. */
  ghost function Universe(deps: map<ResourceId, set<ResourceId>>, id: ResourceId): set<ResourceId> {
    {id} + set k, x | k in deps && x in deps[k] :: x
  }

  /** The work list and what was seen so far. */
  ghost predicate Searching(deps: map<ResourceId, set<ResourceId>>, id: ResourceId, seen: set<ResourceId>,
      work: seq<ResourceId>) {
    && (id in seen || id in work)
    && (forall x | x in seen || x in work :: DependsOn(deps, x, id))
    && (forall x, y | x in seen && y in DependentsOf(deps, x) :: y in seen || y in work)
    && seen <= Universe(deps, id) && (forall x | x in work :: x in Universe(deps, id))
  }

  lemma SearchStart(deps: map<ResourceId, set<ResourceId>>, id: ResourceId)
    ensures Searching(deps, id, {}, [id])
  {
    DependsOnSelf(deps, id);
  }

  lemma SearchSeen(deps: map<ResourceId, set<ResourceId>>, id: ResourceId, seen: set<ResourceId>, work: seq<ResourceId>)
    requires Searching(deps, id, seen, work) && work != [] && work[|work| - 1] in seen
    ensures Searching(deps, id, seen, work[..|work| - 1])
  {
    assert forall x | x in work :: x in work[..|work| - 1] || x == work[|work| - 1];
  }

  lemma SearchNew(deps: map<ResourceId, set<ResourceId>>, id: ResourceId, seen: set<ResourceId>, work: seq<ResourceId>,
      more: seq<ResourceId>)
    requires Searching(deps, id, seen, work) && work != []
    requires forall y :: y in more <==> y in DependentsOf(deps, work[|work| - 1])
    ensures Searching(deps, id, seen + {work[|work| - 1]}, work[..|work| - 1] + more)
  {
    hide DependsOn;
    var x := work[|work| - 1];
    assert forall y | y in work :: y in work[..|work| - 1] || y == x;
    forall y | y in more ensures DependsOn(deps, y, id) {
      DependsOnMore(deps, x, y, id);
    }
  }

  lemma SearchDone(deps: map<ResourceId, set<ResourceId>>, id: ResourceId, seen: set<ResourceId>)
    requires Searching(deps, id, seen, [])
    ensures forall x :: x in seen <==> DependsOn(deps, x, id)
  {
    ClosedHasAll(deps, seen, id);
  }

  /** The rows that are computed are fresh rows of the resource asked for. */
  ghost predicate Computes(compute: (ResourceId, set<ResourceId>) -> Facts) {
    forall id, cache :: compute(id, cache).row.id == id && !compute(id, cache).row.stale &&
      Indexable(compute(id, cache).row)
  }

  /** Everything that depends on `id`, but `id`, is queued, its cached time dropped, and its row, if any, stale. */
  ghost predicate DependentsStale(s: State, deps: map<ResourceId, set<ResourceId>>, id: ResourceId) {
    forall x | DependsOn(deps, x, id) && x != id ::
      x in s.queued && x !in s.cache && (RowOf(s.table, x).Some? ==> IsStale(s, x))
  }

  /** No row but that of `id` changes, and nothing is queued. */
  ghost predicate OthersStay(s: State, s': State, id: ResourceId) {
    s'.queue == s.queue && s'.queued == s.queued && forall x | x != id :: RowOf(s'.table, x) == RowOf(s.table, x)
  }

  /** What another resource depends on, it depends on through a direct dependent that is another resource, too. */
  lemma {:induction false} ThroughAnother(deps: map<ResourceId, set<ResourceId>>, p: seq<ResourceId>, id: ResourceId)
      returns (d: ResourceId)
    requires p != [] && p[0] == id && Chain(deps, p) && p[|p| - 1] != id
    ensures d in DependentsOf(deps, id) && d != id && DependsOn(deps, p[|p| - 1], d)
  {
    assert p[1] in DependentsOf(deps, p[0]);
    forall i | 0 <= i < |p[1..]| - 1 ensures p[1..][i + 1] in DependentsOf(deps, p[1..][i]) {
      assert p[i + 2] in DependentsOf(deps, p[i + 1]);
    }
    if p[1] == id {
      d := ThroughAnother(deps, p[1..], id);
    } else {
      d := p[1];
      assert Leads(deps, p[1..], d, p[|p| - 1]);
    }
  }

  lemma AllDependents(deps: map<ResourceId, set<ResourceId>>, x: ResourceId, id: ResourceId)
    requires DependsOn(deps, x, id) && x != id
    ensures exists d :: d in DependentsOf(deps, id) - {id} && DependsOn(deps, x, d)
  {
    var p :| Leads(deps, p, id, x);
    var d := ThroughAnother(deps, p, id);
    assert d in DependentsOf(deps, id) - {id} && DependsOn(deps, x, d);
  }

  /** Nothing leaves the queue, and every row but that of `id` stays or is queued. */
  ghost predicate QueuedOrSame(s: State, s': State, id: ResourceId) {
    s.queued <= s'.queued && forall x | x != id && x !in s'.queued :: RowOf(s'.table, x) == RowOf(s.table, x)
  }

  /** The row is the one that was computed for the resource, with some cached times, or there is none if the resource is
    * unknown or merged into another one.
    */
  ghost predicate Rebuilt(s: State, catalog: Catalog, compute: (ResourceId, set<ResourceId>) -> Facts, id: ResourceId) {
    if I.Resolve(catalog.redirects, id) == id && id in catalog.resources
    then exists cache :: RowOf(s.table, id) == Some(compute(id, cache).row)
    else RowOf(s.table, id).None?
  }

  class BranchState {
    const projection: ProjectionSet
    var timeCache: set<ResourceId>
    var timeDependents: map<ResourceId, set<ResourceId>>
    var nameDependents: map<string, set<ResourceId>>
    var queue: seq<ResourceId>
    var queued: set<ResourceId>
    var materializedSeq: nat

    ghost function View(): State
      reads this, projection, projection.idxTime
    {
      State(projection.State(), timeCache, timeDependents, nameDependents, queue, queued, materializedSeq)
    }

    ghost predicate Valid()
      reads this, projection, projection.idxTime
    {
      projection.Valid() && Sound(View())
    }

    constructor ()
      ensures Valid() && fresh(projection) && fresh(projection.idxTime)
      ensures View() == State(NO_ROWS, {}, map[], map[], [], {}, 0)
    {
      projection := new ProjectionSet();
      timeCache, timeDependents, nameDependents, queue, queued, materializedSeq := {}, map[], map[], [], {}, 0;
    }

    method TouchOne(x: ResourceId)
      requires projection.Valid()
      modifies this`timeCache, this`queue, this`queued, projection
      ensures projection.Valid() && View() == Touch(old(View()), x)
    {
      hide ProjectionSet.Valid, ProjectionSet.State;
      timeCache := timeCache - {x};
      projection.Mark(x);
      if x !in queued {
        queued := queued + {x};
        queue := queue + [x];
      }
      assert x in old(queued) ==> queued == old(queued) + {x};
    }

    /** Invalidates `id` and exactly what depends on it. */
    method Invalidate(id: ResourceId) returns (ghost touched: set<ResourceId>)
      requires projection.Valid() && QueueOk(View())
      modifies this`timeCache, this`queue, this`queued, projection
      ensures projection.Valid() && Touched(old(View()), View(), touched)
      ensures forall x :: x in touched <==> DependsOn(timeDependents, x, id)
    {
      hide ProjectionSet.Valid, ProjectionSet.State, Touched, Searching, QueueOk, DependsOn, Touch;
      var work, seen := [id], {};
      ghost var start := View();
      TouchedNothing(start);
      SearchStart(timeDependents, id);
      while work != []
        invariant projection.Valid() && Touched(start, View(), seen) && timeDependents == old(timeDependents)
        invariant Searching(timeDependents, id, seen, work)
        decreases Universe(timeDependents, id) - seen, |work|
      {
        ghost var before := work;
        var x := work[|work| - 1];
        work := work[..|work| - 1];
        if x in seen {
          SearchSeen(timeDependents, id, seen, before);
        } else {
          ghost var t := View();
          RowsOk(projection);
          TouchedMore(start, t, seen, x);
          InUniverse(timeDependents, id, seen, before);
          seen := seen + {x};
          TouchOne(x);
          var deps := Listed(DependentsOf(timeDependents, x));
          SearchNew(timeDependents, id, seen - {x}, before, deps);
          assert (seen - {x}) + {x} == seen;
          work := work + deps;
        }
      }
      SearchDone(timeDependents, id, seen);
      touched := seen;
    }

    method InvalidateSome(ids: set<ResourceId>) returns (ghost touched: set<ResourceId>)
      requires projection.Valid() && QueueOk(View())
      modifies this`timeCache, this`queue, this`queued, projection
      ensures projection.Valid() && Touched(old(View()), View(), touched)
      ensures forall x :: x in touched <==> exists id :: id in ids && DependsOn(timeDependents, x, id)
    {
      hide ProjectionSet.Valid, ProjectionSet.State, Touched, QueueOk, DependsOn;
      ghost var start := View();
      TouchedNothing(start);
      touched := {};
      var todo := Listed(ids);
      for i := 0 to |todo|
        invariant projection.Valid() && Touched(start, View(), touched) && timeDependents == old(timeDependents)
        invariant forall x :: x in touched <==> exists id :: id in todo[..i] && DependsOn(timeDependents, x, id)
      {
        ghost var t := View();
        TouchedQueue(start, t, touched);
        assert todo[..i + 1] == todo[..i] + [todo[i]];
        ghost var more := Invalidate(todo[i]);
        TouchedTwice(start, t, View(), touched, more);
        touched := touched + more;
      }
      assert todo[..|todo|] == todo;
    }

    /** After a change of vocabulary everything is invalid. */
    method InvalidateAll(catalog: Catalog) returns (ghost touched: set<ResourceId>)
      requires Valid()
      modifies this`timeCache, this`queue, this`queued, projection
      ensures Valid() && timeCache == {} && catalog.resources <= queued
      ensures Touched(old(View()).(cache := {}), View(), touched)
      ensures forall x :: x in touched <==> exists id :: id in catalog.resources && DependsOn(timeDependents, x, id)
      ensures forall x | x in catalog.resources && RowOf(View().table, x).Some? :: IsStale(View(), x)
    {
      hide ProjectionSet.Valid, ProjectionSet.State, Touched, QueueOk, StaleQueued, DependsOn;
      ghost var before := View();
      timeCache := {};
      ghost var start := View();
      SameQueue(before, start, {});
      touched := InvalidateSome(catalog.resources);
      TouchedSound(start, View(), touched, {});
      SomeTouched(start, View(), timeDependents, catalog.resources, touched);
    }

    method RegisterDeps(deps: seq<Dependency>)
      modifies this`timeDependents, this`nameDependents
      ensures timeDependents == AllAnchors(old(timeDependents), deps) &&
        nameDependents == AllNames(old(nameDependents), deps)
    {
      for i := 0 to |deps|
        invariant timeDependents == AllAnchors(old(timeDependents), deps[..i]) &&
          nameDependents == AllNames(old(nameDependents), deps[..i])
      {
        assert deps[..i + 1][..i] == deps[..i];
        timeDependents := WithAnchors(timeDependents, deps[i].dependent, deps[i].anchors);
        nameDependents := WithNames(nameDependents, deps[i].dependent, deps[i].names);
      }
      assert deps[..|deps|] == deps;
    }

    /** The row of a resource that was taken from the queue. */
    method ProcessOne(catalog: Catalog, compute: (ResourceId, set<ResourceId>) -> Facts, id: ResourceId)
      requires projection.Valid() && QueueOk(View()) && StaleQueued(View(), {id}) && Computes(compute)
      modifies this, projection, projection.idxTime
      ensures Valid() && materializedSeq == old(materializedSeq)
      ensures Rebuilt(View(), catalog, compute, id) && QueuedOrSame(old(View()), View(), id)
      ensures I.Resolve(catalog.redirects, id) != id || id !in catalog.resources ==> RowOf(View().table, id).None?
      ensures I.Resolve(catalog.redirects, id) != id ==> I.Resolve(catalog.redirects, id) in queued
      ensures I.Resolve(catalog.redirects, id) == id && id !in catalog.resources ==> OthersStay(old(View()), View(), id)
      ensures I.Resolve(catalog.redirects, id) == id && id in catalog.resources ==>
                var before, row := RowOf(old(View()).table, id), compute(id, old(timeCache)).row;
                var same := before.Some? && before.value.temporal == row.temporal &&
                  before.value.unresolved == row.unresolved;
                && RowOf(View().table, id) == Some(row)
                && (!same ==> DependentsStale(View(), timeDependents, id))
                && (same ==> OthersStay(old(View()), View(), id) && timeCache == compute(id, old(timeCache)).cache)
      ensures I.Resolve(catalog.redirects, id) == id ==>
        && timeDependents == AllAnchors(old(timeDependents), compute(id, old(timeCache)).deps)
        && nameDependents == AllNames(old(nameDependents), compute(id, old(timeCache)).deps)
    {
      hide ProjectionSet.Valid, ProjectionSet.State, I.Resolve, StaleQueued, QueueOk, Touched, DependsOn;
      var canonical := I.Resolve(catalog.redirects, id);
      ghost var start := View();
      if canonical != id {
        Drop(id);
        if canonical !in queued {
          ghost var before := View();
          ghost var touched := Invalidate(canonical);
          TouchedSound(before, View(), touched, {});
          DroppedStays(before, View(), touched, id);
          IsTouched(before, View(), timeDependents, touched, canonical);
          TouchedOrSame(before, View(), touched, id);
        }
        return;
      }
      var facts := compute(id, timeCache);
      timeCache := facts.cache;
      RegisterDeps(facts.deps);
      SameQueue(start, View(), {id});
      if id !in catalog.resources {
        Drop(id);
        return;
      }
      var old_ := projection.Row(id);
      ghost var before, touched := View(), {};
      TouchedNothing(before);
      if TimeChanged(old_, facts.row) {
        touched := InvalidateSome(DependentsOf(timeDependents, id) - {id});
      }
      TouchedSound(before, View(), touched, {id});
      ghost var middle := View();
      RowsOk(projection);
      projection.UpsertRow(facts.row);
      Upserted(before, middle, View(), touched, facts.row);
    }

    /** Removing the row of `id` leaves no stale row that is not queued. */
    method Drop(id: ResourceId)
      requires projection.Valid() && QueueOk(View()) && StaleQueued(View(), {id})
      modifies projection, projection.idxTime
      ensures Valid() && RowOf(View().table, id).None? && OthersStay(old(View()), View(), id)
    {
      hide ProjectionSet.Valid, ProjectionSet.State;
      RowsOk(projection);
      ghost var start := View();
      RemoveOk(start.table, id);
      projection.RemoveRow(id);
      RemovedSound(start, View(), id);
    }

    /** Takes at most `max` resources from the queue and rebuilds their rows. */
    method Process(catalog: Catalog, compute: (ResourceId, set<ResourceId>) -> Facts, max: nat) returns (processed: nat,
        remaining: nat)
      requires Valid() && Computes(compute)
      modifies this, projection, projection.idxTime
      ensures Valid() && processed <= max && remaining == |queue| && (processed < max ==> remaining == 0)
      ensures materializedSeq == if remaining == 0 then catalog.headSeq else old(materializedSeq)
      ensures remaining == 0 ==> forall x: ResourceId :: !IsStale(View(), x)
      ensures forall x | x in old(queued) || Rebuilt(old(View()), catalog, compute, x) ::
                x in queued || Rebuilt(View(), catalog, compute, x)
      ensures remaining == 0 ==> queued == {}
    {
      hide ProjectionSet.Valid, ProjectionSet.State, StaleQueued, QueueOk, Computes, Rebuilt, QueuedOrSame;
      processed := 0;
      while processed < max && queue != []
        invariant Valid() && processed <= max && materializedSeq == old(materializedSeq)
        invariant forall x | x in old(queued) || Rebuilt(old(View()), catalog, compute, x) ::
            x in queued || Rebuilt(View(), catalog, compute, x)
        decreases max - processed
      {
        ghost var before := View();
        var id := queue[0];
        queue := queue[1..];
        queued := queued - {id};
        processed := processed + 1;
        Popped(before, View(), id);
        ghost var popped := View();
        ProcessOne(catalog, compute, id);
        RebuiltStays(before, popped, View(), catalog, compute, id);
      }
      remaining := |queue|;
      if queue == [] {
        NothingStale(View());
        ghost var before := View();
        materializedSeq := catalog.headSeq;
        SameQueue(before, View(), {});
        RebuiltSame(before, View(), catalog, compute);
        NothingQueued(View());
      }
    }

    /** What depends on a name is invalid, and what depends on that. */
    method InvalidateName(name: string) returns (ghost touched: set<ResourceId>)
      requires Valid()
      modifies this`timeCache, this`queue, this`queued, projection
      ensures Valid() && Touched(old(View()), View(), touched)
      ensures name in nameDependents ==> nameDependents[name] <= queued
      ensures forall x :: x in touched <==>
                exists id :: id in NamedBy(nameDependents, name) && DependsOn(timeDependents, x, id)
    {
      hide ProjectionSet.Valid, ProjectionSet.State, Touched, QueueOk, StaleQueued, DependsOn;
      touched := {};
      TouchedNothing(View());
      if name in nameDependents {
        ghost var start := View();
        touched := InvalidateSome(nameDependents[name]);
        TouchedSound(start, View(), touched, {});
        SomeTouched(start, View(), timeDependents, nameDependents[name], touched);
      }
    }
  }

  // ------------------------------------------------------------ dependencies found by a computation

  function NamedBy(m: map<string, set<ResourceId>>, name: string): set<ResourceId> {
    if name in m then m[name] else {}
  }

  function WithAnchors(m: map<ResourceId, set<ResourceId>>, dependent: ResourceId,
      anchors: set<ResourceId>): map<ResourceId, set<ResourceId>> {
    m + map a | a in anchors :: DependentsOf(m, a) + {dependent}
  }

  function WithNames(m: map<string, set<ResourceId>>, dependent: ResourceId, names: set<string>): map<string,
      set<ResourceId>> {
    m + map n | n in names :: (if n in m then m[n] else {}) + {dependent}
  }

  function AllAnchors(m: map<ResourceId, set<ResourceId>>, deps: seq<Dependency>): map<ResourceId, set<ResourceId>> {
    if deps == [] then m
    else WithAnchors(AllAnchors(m, deps[..|deps| - 1]), deps[|deps| - 1].dependent, deps[|deps| - 1].anchors)
  }

  function AllNames(m: map<string, set<ResourceId>>, deps: seq<Dependency>): map<string, set<ResourceId>> {
    if deps == [] then m
    else WithNames(AllNames(m, deps[..|deps| - 1]), deps[|deps| - 1].dependent, deps[|deps| - 1].names)
  }

  /** Dependents are never forgotten, and every computed dependency is known. */
  lemma {:induction false} AnchorsKept(m: map<ResourceId, set<ResourceId>>, deps: seq<Dependency>)
    ensures forall a :: DependentsOf(m, a) <= DependentsOf(AllAnchors(m, deps), a)
    ensures forall i, a | 0 <= i < |deps| && a in deps[i].anchors ::
      deps[i].dependent in DependentsOf(AllAnchors(m, deps), a)
  {
    if deps != [] {
      AnchorsKept(m, deps[..|deps| - 1]);
    }
  }

  /** The time of the row is not the time it had. */
  predicate TimeChanged(old_: Option<Row>, row: Row) {
    old_.None? || old_.value.temporal != row.temporal || old_.value.unresolved != row.unresolved
  }

  lemma RowsOk(p: ProjectionSet)
    requires p.Valid()
    ensures Ok(p.State())
  {}

  lemma TouchedQueue(s: State, t: State, touched: set<ResourceId>)
    requires Touched(s, t, touched)
    ensures QueueOk(t)
  {}

  /** What some resources and all that depends on them become. */
  lemma SomeTouched(s: State, t: State, deps: map<ResourceId, set<ResourceId>>, ids: set<ResourceId>,
      touched: set<ResourceId>)
    requires Touched(s, t, touched) && forall x :: x in touched <==> exists id :: id in ids && DependsOn(deps, x, id)
    ensures ids <= t.queued && t.cache <= s.cache
    ensures forall x | x in ids && RowOf(t.table, x).Some? :: IsStale(t, x)
  {
    forall x | x in ids ensures x in touched {
      DependsOnSelf(deps, x);
    }
  }

  lemma SameQueue(s: State, t: State, except: set<ResourceId>)
    requires t.table == s.table && t.queue == s.queue && t.queued == s.queued
    ensures QueueOk(s) ==> QueueOk(t)
    ensures StaleQueued(s, except) ==> StaleQueued(t, except)
    ensures (forall x :: IsStale(t, x) <==> IsStale(s, x))
  {}

  lemma RemovedSound(s: State, t: State, id: ResourceId)
    requires QueueOk(s) && StaleQueued(s, {id}) && Elsewhere(s.table, t.table, id) && RowOf(t.table, id).None?
    requires t.queue == s.queue && t.queued == s.queued
    ensures Sound(t)
  {
    forall x: ResourceId | IsStale(t, x) ensures x in t.queued {
      assert x != id && IsStale(s, x);
    }
  }

  lemma IsTouched(s: State, t: State, deps: map<ResourceId, set<ResourceId>>, touched: set<ResourceId>, id: ResourceId)
    requires Touched(s, t, touched) && forall x :: x in touched <==> DependsOn(deps, x, id)
    ensures id in t.queued
  {
    DependsOnSelf(deps, id);
  }

  lemma DroppedStays(s: State, t: State, touched: set<ResourceId>, id: ResourceId)
    requires Touched(s, t, touched) && RowOf(s.table, id).None?
    ensures RowOf(t.table, id).None?
  {}

  lemma Popped(s: State, t: State, id: ResourceId)
    requires Sound(s) && s.queue != [] && id == s.queue[0]
    requires t == s.(queue := s.queue[1..], queued := s.queued - {id})
    ensures QueueOk(t) && StaleQueued(t, {id})
  {
    assert s.queue == [id] + t.queue;
    forall x: ResourceId | IsStale(t, x) && x != id ensures x in t.queued {
      assert IsStale(s, x);
    }
  }

  lemma NothingStale(s: State)
    requires Sound(s) && s.queue == []
    ensures forall x: ResourceId :: !IsStale(s, x)
  {
    forall x: ResourceId ensures !IsStale(s, x) {
      assert IsStale(s, x) ==> x in s.queue;
    }
  }

  /** The new row is fresh, and what was invalidated before it stays stale and queued. */
  lemma Upserted(s: State, t: State, u: State, touched: set<ResourceId>, row: Row)
    requires Touched(s, t, touched) && StaleQueued(t, {row.id}) && QueueOk(t) && Ok(t.table) && !row.stale
    requires DocFor(t.table, row.id) <= |t.table.rows| ==> u == t.(table := Upsert(t.table, row))
    ensures Sound(u) && RowOf(u.table, row.id) == Some(row)
    ensures (forall x :: x in touched <==>
      exists d :: d in DependentsOf(s.dependents, row.id) - {row.id} && DependsOn(s.dependents, x, d))
      ==> DependentsStale(u, s.dependents, row.id)
    ensures touched == {} && QueueOk(s) ==> OthersStay(s, u, row.id) && u.cache == s.cache
    ensures QueuedOrSame(s, u, row.id)
  {
    hide DependsOn;
    if touched == {} && QueueOk(s) { SameElements(s, t); }
    UpsertOk(t.table, row);
    forall x | DependsOn(s.dependents, x, row.id) && x != row.id
      ensures exists d :: d in DependentsOf(s.dependents, row.id) - {row.id} && DependsOn(s.dependents, x, d)
    {
      AllDependents(s.dependents, x, row.id);
    }
    forall x: ResourceId | IsStale(u, x) ensures x in u.queued {
      assert x != row.id && IsStale(t, x);
    }
    forall x: ResourceId | x in touched && x != row.id ensures x in u.queued && x !in u.cache &&
      (RowOf(u.table, x).Some? ==> IsStale(u, x)) {
      assert RowOf(u.table, x) == RowOf(t.table, x);
    }
  }

  lemma TouchedOrSame(s: State, t: State, touched: set<ResourceId>, id: ResourceId)
    requires Touched(s, t, touched)
    ensures QueuedOrSame(s, t, id)
  {}

  /** What was settled before a resource was taken from the queue and processed stays settled or is queued. */
  lemma RebuiltStays(s: State, popped: State, t: State, catalog: Catalog,
      compute: (ResourceId, set<ResourceId>) -> Facts, id: ResourceId)
    requires popped.table == s.table && popped.queued == s.queued - {id}
    requires QueuedOrSame(popped, t, id) && Rebuilt(t, catalog, compute, id)
    ensures forall x | x in s.queued || Rebuilt(s, catalog, compute, x) ::
      x in t.queued || Rebuilt(t, catalog, compute, x)
  {
    hide I.Resolve;
    forall x | (x in s.queued || Rebuilt(s, catalog, compute, x)) && x !in t.queued && x != id
      ensures Rebuilt(t, catalog, compute, x)
    {
      assert x !in popped.queued && RowOf(t.table, x) == RowOf(s.table, x);
    }
  }

  lemma RebuiltSame(s: State, t: State, catalog: Catalog, compute: (ResourceId, set<ResourceId>) -> Facts)
    requires t.table == s.table
    ensures forall x :: Rebuilt(t, catalog, compute, x) <==> Rebuilt(s, catalog, compute, x)
  {}

  lemma NothingQueued(s: State)
    requires QueueOk(s) && s.queue == []
    ensures s.queued == {}
  {
    assert forall x :: x in s.queued ==> x in s.queue;
  }

  lemma {:induction false} DistinctSize(q: seq<ResourceId>, elements: set<ResourceId>)
    requires Distinct(q) && forall x :: x in q <==> x in elements
    ensures |q| == |elements|
  {
    if q == [] {
      assert elements == {};
    } else {
      assert forall x :: x in q <==> x == q[0] || x in q[1..];
      DistinctSize(q[1..], elements - {q[0]});
    }
  }

  lemma SameElements(s: State, t: State)
    requires QueueOk(s) && QueueOk(t) && s.queue <= t.queue && t.queued == s.queued
    ensures t.queue == s.queue
  {
    DistinctSize(s.queue, s.queued);
    DistinctSize(t.queue, t.queued);
  }

  lemma InUniverse(deps: map<ResourceId, set<ResourceId>>, id: ResourceId, seen: set<ResourceId>, work: seq<ResourceId>)
    requires Searching(deps, id, seen, work) && work != []
    ensures work[|work| - 1] in Universe(deps, id)
  {
    assert work[|work| - 1] in work;
  }
}
