/** Depth-first searches over the order graph (time/order.rs, `reaches` and `add_lt`). */
module OrderSearch {
  import opened Wrappers
  import opened OrderModels
  import opened OrderRenumber

  // ------------------------------------------------------------ searching

  ghost function Nodes(n: nat): (s: set<nat>)
    ensures forall i: nat :: i in s <==> i < n
  {
    if n == 0 then {} else Nodes(n - 1) + {n - 1}
  }

  /** No listed neighbour is `y`, and those ordered before `y` have been seen. */
  ghost predicate Expanded(out: seq<nat>, ord: seq<nat>, seen: set<nat>, y: nat)
    requires y < |ord|
  {
    forall m | m in out :: m != y && m < |ord| && (ord[m] < ord[y] ==> m in seen)
  }

  /** Everything seen is reachable, and expanded unless it is on the stack or being visited. */
  ghost predicate Frontier(succ: Adjacency, ord: seq<nat>, x: nat, y: nat, stack: seq<nat>, seen: set<nat>,
      visiting: set<nat>)
    requires y < |ord|
  {
    && x in seen && InRange(stack, |succ|)
    && (forall n | n in seen :: n < |succ| && Reach(succ, x, n))
    && (forall n | n in stack :: n in seen)
    && (forall n | n in seen && n !in stack && n !in visiting :: n < |succ| && Expanded(succ[n], ord, seen, y))
  }

  lemma Push(succ: Adjacency, ord: seq<nat>, x: nat, y: nat, stack: seq<nat>, seen: set<nat>, visiting: set<nat>,
      m: nat)
    requires y < |ord| && Frontier(succ, ord, x, y, stack, seen, visiting) && m < |succ| && Reach(succ, x, m)
    ensures Frontier(succ, ord, x, y, stack + [m], seen + {m}, visiting)
  {
    hide Reach;
    var stack', seen' := stack + [m], seen + {m};
    assert forall z :: z in stack' <==> z in stack || z == m;
    forall z | z in seen' && z !in stack' && z !in visiting
      ensures z < |succ| && Expanded(succ[z], ord, seen', y)
    {
      assert Expanded(succ[z], ord, seen, y);
    }
  }

  lemma Pop(succ: Adjacency, ord: seq<nat>, x: nat, y: nat, stack: seq<nat>, seen: set<nat>)
    requires y < |ord| && Frontier(succ, ord, x, y, stack, seen, {}) && stack != []
    ensures Frontier(succ, ord, x, y, stack[..|stack| - 1], seen, {stack[|stack| - 1]})
  {
    hide Reach, Expanded;
    var init, n := stack[..|stack| - 1], stack[|stack| - 1];
    assert stack == init + [n];
  }

  /** Visit the neighbours of `n`: report `y`, push the unseen ones ordered before it. */
  method Visit(succ: Adjacency, ord: seq<nat>, budget: nat, ghost x: nat, y: nat, n: nat, stack0: seq<nat>,
      seen0: set<nat>)
    returns (r: Option<bool>, stack: seq<nat>, seen: set<nat>)
    requires Increasing(succ, ord) && y < |ord| && n < |succ| && n in seen0
    requires Frontier(succ, ord, x, y, stack0, seen0, {n})
    ensures r == Some(true) ==> Reach(succ, x, y)
    ensures r == None ==> |succ| > budget
    ensures r == Some(false) ==>
      Frontier(succ, ord, x, y, stack, seen, {}) && seen0 <= seen && (seen == seen0 ==> stack == stack0)
  {
    hide Reach, Path;
    stack, seen := stack0, seen0;
    for k := 0 to |succ[n]|
      invariant seen0 <= seen && (seen == seen0 ==> stack == stack0)
      invariant Frontier(succ, ord, x, y, stack, seen, {n})
      invariant Expanded(succ[n][..k], ord, seen, y)
    {
      var m := succ[n][k];
      assert m in succ[n];
      ReachStep(succ, x, n, m);
      if m == y {
        return Some(true), stack, seen;
      }
      if ord[m] < ord[y] && m !in seen {
        Push(succ, ord, x, y, stack, seen, {n}, m);
        seen := seen + {m};
        SubsetBound(seen, |succ|);
        if |seen| > budget {
          return None, stack, seen;
        }
        stack := stack + [m];
      }
      assert succ[n][..k + 1] == succ[n][..k] + [m];
    }
    assert succ[n][..|succ[n]|] == succ[n];
    r := Some(false);
  }

  /** Depth-first search for `y` among the nodes ordered before it. */
  method SearchReach(succ: Adjacency, ord: seq<nat>, budget: nat, x: nat, y: nat) returns (r: Option<bool>)
    requires Increasing(succ, ord) && x < |succ| && y < |succ| && x != y
    ensures r.Some? ==> r.value == Reach(succ, x, y)
    ensures |succ| <= budget ==> r.Some?
  {
    var stack: seq<nat> := [x];
    var seen: set<nat> := {x};
    ReachRefl(succ, x);
    r := Some(false);
    while stack != []
      invariant r == Some(false) && Frontier(succ, ord, x, y, stack, seen, {})
      decreases Nodes(|succ|) - seen, |stack|
    {
      var n := stack[|stack| - 1];
      ghost var seen0 := seen;
      Pop(succ, ord, x, y, stack, seen);
      r, stack, seen := Visit(succ, ord, budget, x, y, n, stack[..|stack| - 1], seen);
      if r != Some(false) {
        return;
      }
      if seen != seen0 {
        assert Nodes(|succ|) - seen < Nodes(|succ|) - seen0;
      }
    }
    assert ClosedBelow(succ, ord, seen, y);
    PruningExact(succ, ord, seen, x, y);
  }

  lemma {:induction false} SubsetBound(s: set<nat>, n: nat)
    requires forall i | i in s :: i < n
    ensures |s| <= n
  {
    if n > 0 {
      assert s == (s - {n - 1}) + (s * {n - 1});
      SubsetBound(s - {n - 1}, n - 1);
      assert |s * {n - 1}| <= 1 by {
        assert s * {n - 1} <= {n - 1};
        if n - 1 in s { assert s * {n - 1} == {n - 1}; } else { assert s * {n - 1} == {}; }
      }
    } else {
      assert s == {};
    }
  }

  // ------------------------------------------------------------ the searches of an insertion

  /** `zone` is closed under the neighbours that `keep` lets through. */
  ghost predicate Zone(adj: Adjacency, zone: set<nat>, keep: nat -> bool) {
    forall n | n in zone :: n < |adj| && forall m | m in adj[n] && keep(m) :: m in zone
  }

  /** Every listed neighbour that `keep` lets through has been seen, and none is `stop`. */
  ghost predicate Swept(adj: seq<nat>, keep: nat -> bool, stop: Option<nat>, seen: set<nat>) {
    forall m | m in adj :: Some(m) != stop && (keep(m) ==> m in seen)
  }

  /** The seen nodes are the ones taken and the ones waiting, each once. */
  ghost predicate Sweeping(adj: Adjacency, keep: nat -> bool, start: nat, zone: set<nat>,
                           taken: seq<nat>, waiting: seq<nat>, seen: set<nat>)
  {
    && NoDup(taken + waiting)
    && (forall n | n in taken :: n in seen) && (forall n | n in waiting :: n in seen)
    && (forall n | n in seen :: (n in taken || n in waiting) && n in zone && (n == start || keep(n)))
    && start in seen
  }

  lemma TakeLast(adj: Adjacency, keep: nat -> bool, start: nat, zone: set<nat>, taken: seq<nat>, waiting: seq<nat>,
      seen: set<nat>)
    requires Sweeping(adj, keep, start, zone, taken, waiting, seen) && waiting != []
    ensures Sweeping(adj, keep, start, zone, taken + [waiting[|waiting| - 1]], waiting[..|waiting| - 1], seen)
  {
    var last, init := waiting[|waiting| - 1], waiting[..|waiting| - 1];
    var all, all' := taken + waiting, (taken + [last]) + init;
    assert waiting == init + [last];
    forall i, j | 0 <= i < j < |all'|
      ensures all'[i] != all'[j]
    {
      var i0 := if i < |taken| then i else if i == |taken| then |all| - 1 else i - 1;
      var j0 := if j < |taken| then j else if j == |taken| then |all| - 1 else j - 1;
      assert all'[i] == all[i0] && all'[j] == all[j0] && i0 != j0;
    }
  }

  lemma AddWaiting(adj: Adjacency, keep: nat -> bool, start: nat, zone: set<nat>, taken: seq<nat>, waiting: seq<nat>,
      seen: set<nat>, m: nat)
    requires Sweeping(adj, keep, start, zone, taken, waiting, seen) && m !in seen && m in zone && keep(m)
    ensures Sweeping(adj, keep, start, zone, taken, waiting + [m], seen + {m})
  {
    var all, all' := taken + waiting, taken + (waiting + [m]);
    assert all' == all + [m];
    assert forall k | 0 <= k < |all| :: all[k] in taken || all[k] in waiting;
    assert forall z :: z in waiting + [m] <==> z in waiting || z == m;
  }

  /** One node of the sweep: its neighbours join the stack unless seen or left out by `keep`. */
  method SweepNode(adj: Adjacency, keep: nat -> bool, ghost start: nat, stop: Option<nat>, ghost zone: set<nat>,
                   ghost taken: seq<nat>, n: nat, stack0: seq<nat>, seen0: set<nat>)
    returns (hit: bool, stack: seq<nat>, seen: set<nat>)
    requires Zone(adj, zone, keep) && n < |adj| && n in zone && Sweeping(adj, keep, start, zone, taken, stack0, seen0)
    ensures hit ==> stop.Some? && stop.value in adj[n]
    ensures !hit ==> Sweeping(adj, keep, start, zone, taken, stack, seen) && Swept(adj[n], keep, stop, seen)
    ensures !hit ==> seen0 <= seen && (seen == seen0 ==> stack == stack0)
  {
    stack, seen := stack0, seen0;
    hide Sweeping;
    for k := 0 to |adj[n]|
      invariant seen0 <= seen && (seen == seen0 ==> stack == stack0)
      invariant Sweeping(adj, keep, start, zone, taken, stack, seen)
      invariant Swept(adj[n][..k], keep, stop, seen)
    {
      var m := adj[n][k];
      assert m in adj[n];
      if stop == Some(m) {
        return true, stack, seen;
      }
      if keep(m) && m !in seen {
        AddWaiting(adj, keep, start, zone, taken, stack, seen, m);
        seen := seen + {m};
        stack := stack + [m];
      }
      assert adj[n][..k + 1] == adj[n][..k] + [m];
    }
    assert adj[n][..|adj[n]|] == adj[n];
    hit := false;
  }

  /** What a finished sweep has collected. */
  ghost predicate Collected(adj: Adjacency, keep: nat -> bool, start: nat, stop: Option<nat>, zone: set<nat>,
      out: seq<nat>) {
    && NoDup(out) && start in out
    && (forall n | n in out :: n in zone && n < |adj| && (n == start || keep(n)))
    && (forall n, m {:trigger m in adj[n]} | n in out && n < |adj| && m in adj[n] ::
      Some(m) != stop && (keep(m) ==> m in out))
  }

  /** Collect the nodes that `keep` lets a search from `start` reach; give up on meeting `stop`. */
  method Sweep(adj: Adjacency, keep: nat -> bool, start: nat, stop: Option<nat>, ghost zone: set<nat>)
    returns (hit: bool, out: seq<nat>)
    requires Zone(adj, zone, keep) && start in zone
    ensures hit ==> stop.Some? && exists n :: n in zone && n < |adj| && stop.value in adj[n]
    ensures !hit ==> Collected(adj, keep, start, stop, zone, out)
  {
    out := [];
    var stack: seq<nat> := [start];
    var seen: set<nat> := {start};
    while stack != []
      invariant Sweeping(adj, keep, start, zone, out, stack, seen)
      invariant forall n | n in out :: n < |adj| && Swept(adj[n], keep, stop, seen)
      decreases zone - seen, |stack|
    {
      var n := stack[|stack| - 1];
      ghost var out0, seen0 := out, seen;
      assert n in stack && n in zone && n < |adj|;
      TakeLast(adj, keep, start, zone, out, stack, seen);
      stack := stack[..|stack| - 1];
      out := out + [n];
      hit, stack, seen := SweepNode(adj, keep, start, stop, zone, out, n, stack, seen);
      if hit {
        return;
      }
      assert forall z | z in out :: z in out0 || z == n;
      if seen != seen0 {
        assert zone - seen < zone - seen0;
      }
    }
    hit := false;
    assert NoDup(out) by { assert out + stack == out; }
    forall n, m {:trigger m in adj[n]} | n in out && n < |adj| && m in adj[n]
      ensures Some(m) != stop && (keep(m) ==> m in out)
    {
      assert Swept(adj[n], keep, stop, seen);
    }
  }
}
