/**
  The start order of services: a topological sort of the declared dependencies.  Dependencies on
  undeclared services are ignored here; repeated and self dependencies are counted as they stand.
*/
module ServiceOrder {
  import opened Wrappers

  type Name = string

  /** The required services of each declared service. */
  type Services = map<Name, seq<Name>>

  // ---------------------------------------------------------------- orders and cycles

  /** d is declared and s requires it. */
  predicate Requires(services: Services, s: Name, d: Name) { s in services && d in services && d in services[s] }

  predicate NoRepeats(p: seq<Name>) { forall i, j :: 0 <= i < j < |p| ==> p[i] != p[j] }

  /** Everything a listed service requires is listed before it. */
  ghost predicate DepsFirst(services: Services, order: seq<Name>)
  {
    forall i, d :: 0 <= i < |order| && Requires(services, order[i], d) ==> d in order[..i]
  }

  /** Every service once, each after what it requires. */
  ghost predicate IsStartOrder(services: Services, order: seq<Name>)
  {
    NoRepeats(order) && (forall s :: s in order <==> s in services) && DepsFirst(services, order)
  }

  /** Each element requires the next. */
  predicate Chain(services: Services, p: seq<Name>)
  {
    forall i :: 0 <= i < |p| - 1 ==> Requires(services, p[i], p[i + 1])
  }

  predicate IsCycle(services: Services, p: seq<Name>) { |p| >= 2 && Chain(services, p) && p[0] == p[|p| - 1] }

  ghost predicate HasCycle(services: Services) { exists p :: IsCycle(services, p) }

  // ---------------------------------------------------------------- a start order excludes cycles

  function Position(order: seq<Name>, s: Name): (i: nat)
    requires s in order
    ensures i < |order| && order[i] == s
  {
    if order[0] == s then 0 else 1 + Position(order[1..], s)
  }

  lemma PositionIsUnique(order: seq<Name>, i: nat)
    requires NoRepeats(order) && i < |order|
    ensures Position(order, order[i]) == i
  {
  }

  /** Along a chain, positions in a start order go down. */
  lemma {:induction false} ChainGoesDown(services: Services, order: seq<Name>, p: seq<Name>, k: nat)
    requires IsStartOrder(services, order) && Chain(services, p) && 0 < k < |p|
    ensures p[0] in order && p[k] in order && Position(order, p[k]) < Position(order, p[0])
  {
    var s, d := p[k - 1], p[k];
    assert Requires(services, s, d);
    var i := Position(order, s);
    assert d in order[..i];
    var j :| 0 <= j < i && order[j] == d;
    PositionIsUnique(order, j);
    if k > 1 { ChainGoesDown(services, order, p, k - 1); }
  }

  lemma StartOrderExcludesCycles(services: Services, order: seq<Name>)
    requires IsStartOrder(services, order)
    ensures !HasCycle(services)
  {
    forall p ensures !IsCycle(services, p) {
      if IsCycle(services, p) { ChainGoesDown(services, order, p, |p| - 1); }
    }
  }

  // ---------------------------------------------------------------- stuck services contain a cycle

  /** Every stuck service requires a stuck service. */
  ghost predicate Stuck(services: Services, u: set<Name>)
  {
    forall s {:trigger WaitsFor(services, u, s)} :: s in u ==> WaitsFor(services, u, s)
  }

  ghost predicate WaitsFor(services: Services, u: set<Name>, s: Name) { exists d :: d in u && Requires(services, s, d) }

  lemma {:induction false} WalkOn(services: Services, u: set<Name>, start: Name, n: nat) returns (p: seq<Name>)
    requires Stuck(services, u) && start in u
    ensures |p| == n + 1 && Chain(services, p) && forall i :: 0 <= i < |p| ==> p[i] in u
  {
    if n == 0 {
      p := [start];
    } else {
      var q := WalkOn(services, u, start, n - 1);
      assert WaitsFor(services, u, q[n - 1]);
      var d :| d in u && Requires(services, q[n - 1], d);
      p := q + [d];
    }
  }

  /** A list longer than the set it draws from repeats an element. */
  lemma {:induction false} Pigeonhole(u: set<Name>, p: seq<Name>) returns (i: nat, j: nat)
    requires (forall k :: 0 <= k < |p| ==> p[k] in u) && |p| > |u|
    ensures i < j < |p| && p[i] == p[j]
    decreases |p|
  {
    var last, rest := p[|p| - 1], p[..|p| - 1];
    if k :| 0 <= k < |rest| && rest[k] == last {
      i, j := k, |rest|;
    } else {
      i, j := Pigeonhole(u - {last}, rest);
    }
  }

  lemma StuckServicesHaveACycle(services: Services, u: set<Name>)
    requires Stuck(services, u) && u != {}
    ensures HasCycle(services)
  {
    var start :| start in u;
    var p := WalkOn(services, u, start, |u|);
    var i, j := Pigeonhole(u, p);
    var c := p[i..j + 1];
    forall k | 0 <= k < |c| - 1 ensures Requires(services, c[k], c[k + 1]) {
      assert Requires(services, p[i + k], p[i + k + 1]);
    }
    assert IsCycle(services, c);
  }

  // ---------------------------------------------------------------- counting what is pending

  /** How many entries of deps are declared and not yet done. */
  function Pending(services: Services, deps: seq<Name>, done: set<Name>): nat
  {
    if deps == [] then 0
    else
      var last := deps[|deps| - 1];
      Pending(services, deps[..|deps| - 1], done) + if last in services && last !in done then 1 else 0
  }

  lemma {:induction false} NothingPending(services: Services, deps: seq<Name>, done: set<Name>)
    ensures Pending(services, deps, done) == 0 <==> forall d :: d in deps && d in services ==> d in done
  {
    if deps != [] {
      NothingPending(services, deps[..|deps| - 1], done);
      assert deps == deps[..|deps| - 1] + [deps[|deps| - 1]];
    }
  }

  /** Finishing a service settles each of its occurrences. */
  lemma {:induction false} PendingAfter(services: Services, deps: seq<Name>, done: set<Name>, n: Name)
    requires n in services && n !in done
    ensures Pending(services, deps, done) == Pending(services, deps, done + {n}) + multiset(deps)[n]
  {
    if deps != [] {
      PendingAfter(services, deps[..|deps| - 1], done, n);
      assert deps == deps[..|deps| - 1] + [deps[|deps| - 1]];
    }
  }

  lemma PendingSnoc(services: Services, deps: seq<Name>, d: Name, done: set<Name>)
    ensures Pending(services, deps + [d], done)
            == Pending(services, deps, done) + if d in services && d !in done then 1 else 0
  {
    assert (deps + [d])[..|deps|] == deps;
  }

  // ---------------------------------------------------------------- the graph

  type Degrees = map<Name, int>

  /** s occurs in the edge list of d as often as d occurs in what was seen of s. */
  ghost predicate EdgesOk(services: Services, seen: Services, adj: Services, d: Name, s: Name)
    requires d in adj && services.Keys == seen.Keys
  {
    multiset(adj[d])[s] == if s in services then multiset(seen[s])[d] else 0
  }

  ghost predicate DegreeOk(services: Services, seen: Services, degree: Degrees, s: Name)
    requires s in seen && s in degree
  {
    degree[s] == Pending(services, seen[s], {})
  }

  ghost predicate Linked(services: Services, seen: Services, adj: Services)
  {
    && seen.Keys == adj.Keys == services.Keys
    && (forall d, s {:trigger EdgesOk(services, seen, adj, d, s)} :: d in services ==>
          EdgesOk(services, seen, adj, d, s))
  }

  /** The in-degrees count the declared entries of `seen`, and the edge lists repeat them. */
  ghost predicate IsGraph(services: Services, seen: Services, degree: Degrees, adj: Services)
  {
    && seen.Keys == degree.Keys == adj.Keys == services.Keys
    && (forall s {:trigger DegreeOk(services, seen, degree, s)} :: s in services ==>
          DegreeOk(services, seen, degree, s))
    && Linked(services, seen, adj)
  }

  lemma EdgesAfter(services: Services, seen: Services, adj: Services, s: Name, d: Name, e: Name, t: Name)
    requires s in services && e in services && seen.Keys == adj.Keys == services.Keys
             && EdgesOk(services, seen, adj, e, t)
    ensures EdgesOk(services, seen[s := seen[s] + [d]], if d in services then adj[d := adj[d] + [s]] else adj, e, t)
  {
  }

  /** One dependency more: it counts, and gets an edge, when it is declared. */
  lemma GraphAfter(services: Services, seen: Services, degree: Degrees, adj: Services, s: Name, d: Name)
    requires s in services && IsGraph(services, seen, degree, adj)
    ensures IsGraph(services, seen[s := seen[s] + [d]],
                    if d in services then degree[s := degree[s] + 1] else degree,
                    if d in services then adj[d := adj[d] + [s]] else adj)
  {
    hide Pending, EdgesOk;
    var seen' := seen[s := seen[s] + [d]];
    var degree' := if d in services then degree[s := degree[s] + 1] else degree;
    var adj' := if d in services then adj[d := adj[d] + [s]] else adj;
    forall t | t in services ensures DegreeOk(services, seen', degree', t) {
      assert DegreeOk(services, seen, degree, t);
      PendingSnoc(services, seen[s], d, {});
    }
    forall e, t | e in services ensures EdgesOk(services, seen', adj', e, t) {
      assert EdgesOk(services, seen, adj, e, t);
      EdgesAfter(services, seen, adj, s, d, e, t);
    }
  }

  /** Counts and links the dependencies of one service. */
  method CountDeps(services: Services, s: Name, degree0: Degrees, adj0: Services, ghost seen: Services)
    returns (degree: Degrees, adj: Services)
    requires s in services && IsGraph(services, seen, degree0, adj0) && seen[s] == []
    ensures IsGraph(services, seen[s := services[s]], degree, adj)
  {
    hide IsGraph;
    degree, adj := degree0, adj0;
    SameKeys(services, seen, degree, adj);
    assert seen[s := services[s][..0]] == seen;
    for k := 0 to |services[s]|
      invariant IsGraph(services, seen[s := services[s][..k]], degree, adj)
    {
      var d := services[s][k];
      ghost var now := seen[s := services[s][..k]];
      SameKeys(services, now, degree, adj);
      GraphAfter(services, now, degree, adj, s, d);
      assert services[s][..k + 1] == services[s][..k] + [d];
      assert now[s := now[s] + [d]] == seen[s := services[s][..k + 1]];
      if d in services {
        adj := adj[d := adj[d] + [s]];
        degree := degree[s := degree[s] + 1];
      }
    }
    assert services[s][..|services[s]|] == services[s];
  }

  lemma SameKeys(services: Services, seen: Services, degree: Degrees, adj: Services)
    requires IsGraph(services, seen, degree, adj)
    ensures seen.Keys == degree.Keys == adj.Keys == services.Keys
  {
  }

  /** The dependencies of the services in `names`, nothing of the others. */
  ghost function SeenOf(services: Services, names: seq<Name>): Services
  {
    map s | s in services :: if s in names then services[s] else []
  }

  /** In-degrees and edge lists of the declared services, visited in the order of the table. */
  method BuildGraph(services: Services, names: seq<Name>) returns (degree: Degrees, adj: Services)
    requires NoRepeats(names) && forall s :: s in names <==> s in services
    ensures IsGraph(services, services, degree, adj)
  {
    hide IsGraph, SeenOf, NoRepeats;
    degree := map s | s in services :: 0;
    adj := map s | s in services :: [];
    EmptyGraph(services, degree, adj);
    for i := 0 to |names|
      invariant IsGraph(services, SeenOf(services, names[..i]), degree, adj)
    {
      SeenNext(services, names, i);
      degree, adj := CountDeps(services, names[i], degree, adj, SeenOf(services, names[..i]));
    }
    assert names[..|names|] == names;
    SeenAll(services, names);
  }

  lemma SeenNext(services: Services, names: seq<Name>, i: nat)
    requires NoRepeats(names) && (forall s :: s in names ==> s in services) && i < |names|
    ensures names[i] in services && names[i] in SeenOf(services, names[..i])
            && SeenOf(services, names[..i])[names[i]] == []
    ensures SeenOf(services, names[..i])[names[i] := services[names[i]]] == SeenOf(services, names[..i + 1])
  {
    hide NoRepeats;
    assert names[i] in names;
    NewName(names, i);
    var a, b := SeenOf(services, names[..i])[names[i] := services[names[i]]], SeenOf(services, names[..i + 1]);
    forall s | s in services ensures a[s] == b[s] { NextPrefix(names, i, s); }
  }

  lemma NewName(names: seq<Name>, i: nat)
    requires NoRepeats(names) && i < |names|
    ensures names[i] !in names[..i]
  {
  }

  lemma NextPrefix(names: seq<Name>, i: nat, s: Name)
    requires i < |names|
    ensures s in names[..i + 1] <==> s in names[..i] || s == names[i]
  {
    assert names[..i + 1] == names[..i] + [names[i]];
  }

  lemma SeenAll(services: Services, names: seq<Name>)
    requires forall s :: s in services ==> s in names
    ensures SeenOf(services, names) == services
  {
  }

  lemma EmptyGraph(services: Services, degree: Degrees, adj: Services)
    requires degree == (map s | s in services :: 0) && adj == (map s | s in services :: [])
    ensures IsGraph(services, SeenOf(services, []), degree, adj)
  {
  }

  // ---------------------------------------------------------------- the sort

  function Listed(order: seq<Name>): set<Name> { set s | s in order }

  ghost predicate DegreeIs(services: Services, done: set<Name>, released: seq<Name>, degree: Degrees, s: Name)
    requires s in services && s in degree
  {
    degree[s] == Pending(services, services[s], done) - multiset(released)[s]
  }

  /** A service has no pending dependency exactly when it was listed or waits in the queue. */
  ghost predicate QueuedIs(order: seq<Name>, queue: seq<Name>, degree: Degrees, s: Name)
    requires s in degree
  {
    degree[s] == 0 <==> s in order + queue
  }

  /**
    `order` is listed and `queue` waits.  The degrees count what is pending with `done` finished,
    less the edges in `released`.
  */
  ghost predicate Sorting(services: Services, done: set<Name>, released: seq<Name>, degree: Degrees, order: seq<Name>,
                          queue: seq<Name>)
  {
    && degree.Keys == services.Keys && NoRepeats(order + queue)
    && (forall s :: s in order + queue ==> s in services)
    && (forall s {:trigger DegreeIs(services, done, released, degree, s)} :: s in services ==>
          DegreeIs(services, done, released, degree, s))
    && (forall s {:trigger QueuedIs(order, queue, degree, s)} :: s in services ==> QueuedIs(order, queue, degree, s))
  }

  lemma AppendNew(p: seq<Name>, s: Name)
    requires NoRepeats(p) && s !in p
    ensures NoRepeats(p + [s])
  {
  }

  /** Taking one edge off lets its target into the queue exactly when nothing else is pending. */
  lemma AfterEdge(services: Services, done: set<Name>, released: seq<Name>, degree: Degrees, order: seq<Name>,
                  queue: seq<Name>, c: Name)
    requires Sorting(services, done, released, degree, order, queue) && c in services
    requires multiset(released)[c] < Pending(services, services[c], done)
    ensures Sorting(services, done, released + [c], degree[c := degree[c] - 1], order,
                    if degree[c] == 1 then queue + [c] else queue)
  {
    hide NoRepeats, Pending;
    assert DegreeIs(services, done, released, degree, c);
    assert QueuedIs(order, queue, degree, c);
    var degree', queue' := degree[c := degree[c] - 1], if degree[c] == 1 then queue + [c] else queue;
    assert order + (queue + [c]) == order + queue + [c];
    if degree[c] == 1 { AppendNew(order + queue, c); }
    forall s | s in services ensures DegreeIs(services, done, released + [c], degree', s) {
      assert DegreeIs(services, done, released, degree, s);
    }
    forall s | s in services ensures QueuedIs(order, queue', degree', s) {
      assert QueuedIs(order, queue, degree, s);
    }
  }

  /** Once all edges of n are taken off, the degrees count n as finished. */
  lemma AfterAllEdges(services: Services, done: set<Name>, adj: Services, degree: Degrees, order: seq<Name>,
                      queue: seq<Name>, n: Name)
    requires n in services && n !in done && Linked(services, services, adj)
    requires Sorting(services, done, adj[n], degree, order, queue)
    ensures Sorting(services, done + {n}, [], degree, order, queue)
  {
    forall s | s in services ensures DegreeIs(services, done + {n}, [], degree, s) {
      assert DegreeIs(services, done, adj[n], degree, s);
      assert EdgesOk(services, services, adj, n, s);
      PendingAfter(services, services[s], done, n);
    }
  }

  /** An edge of n still to be taken off leads to a service that has n pending. */
  lemma EdgeIsPending(services: Services, done: set<Name>, adj: Services, n: Name, k: nat)
    requires n in services && n !in done && Linked(services, services, adj) && k < |adj[n]|
    ensures adj[n][k] in services && multiset(adj[n][..k])[adj[n][k]] < Pending(services, services[adj[n][k]], done)
  {
    var edges, c := adj[n], adj[n][k];
    assert edges == edges[..k] + [c] + edges[k + 1..];
    assert EdgesOk(services, services, adj, n, c);
    PendingAfter(services, services[c], done, n);
  }

  /** Takes the edges of n off, queueing every service that has nothing left pending. */
  method ReleaseEdges(services: Services, adj: Services, n: Name, degree0: Degrees, queue0: seq<Name>,
                      ghost done: set<Name>, ghost order: seq<Name>)
    returns (degree: Degrees, queue: seq<Name>)
    requires n in services && n !in done && Linked(services, services, adj)
             && Sorting(services, done, [], degree0, order, queue0)
    ensures Sorting(services, done + {n}, [], degree, order, queue)
  {
    hide Sorting, Pending;
    degree, queue := degree0, queue0;
    for k := 0 to |adj[n]|
      invariant Sorting(services, done, adj[n][..k], degree, order, queue)
    {
      var c := adj[n][k];
      EdgeIsPending(services, done, adj, n, k);
      AfterEdge(services, done, adj[n][..k], degree, order, queue, c);
      SortingKeys(services, done, adj[n][..k], degree, order, queue);
      assert adj[n][..k + 1] == adj[n][..k] + [c];
      var ready := degree[c] == 1;
      degree := degree[c := degree[c] - 1];
      if ready {
        queue := queue + [c];
      }
    }
    assert adj[n][..|adj[n]|] == adj[n];
    AfterAllEdges(services, done, adj, degree, order, queue, n);
  }

  lemma SortingKeys(services: Services, done: set<Name>, released: seq<Name>, degree: Degrees, order: seq<Name>,
                    queue: seq<Name>)
    requires Sorting(services, done, released, degree, order, queue)
    ensures degree.Keys == services.Keys
  {
  }

  /** The head of the queue can be listed: all it requires is listed, and it is not. */
  lemma HeadIsNext(services: Services, degree: Degrees, order: seq<Name>, queue: seq<Name>)
    requires Sorting(services, Listed(order), [], degree, order, queue) && queue != [] && DepsFirst(services, order)
    ensures queue[0] in services && queue[0] !in Listed(order)
    ensures Sorting(services, Listed(order), [], degree, order + [queue[0]], queue[1..])
    ensures DepsFirst(services, order + [queue[0]]) && Listed(order + [queue[0]]) == Listed(order) + {queue[0]}
  {
    hide Pending;
    var n := queue[0];
    assert order + [n] + queue[1..] == order + queue;
    assert (order + queue)[|order|] == n && (order + queue)[..|order|] == order;
    assert n in order + queue;
    NewName(order + queue, |order|);
    assert DegreeIs(services, Listed(order), [], degree, n);
    assert QueuedIs(order, queue, degree, n);
    NothingPending(services, services[n], Listed(order));
    forall s | s in services ensures QueuedIs(order + [n], queue[1..], degree, s) {
      assert QueuedIs(order, queue, degree, s);
    }
    NextFirst(services, order, n);
  }

  lemma NextFirst(services: Services, order: seq<Name>, n: Name)
    requires DepsFirst(services, order) && n in services && forall d :: d in services[n] && d in services ==> d in order
    ensures DepsFirst(services, order + [n])
  {
    var all := order + [n];
    forall i, d | 0 <= i < |all| && Requires(services, all[i], d) ensures d in all[..i] {
      if i < |order| {
        assert Requires(services, order[i], d) && all[..i] == order[..i];
      } else {
        assert all[..i] == order;
      }
    }
  }

  lemma {:induction false} ListedSize(order: seq<Name>)
    requires NoRepeats(order)
    ensures |Listed(order)| == |order|
  {
    if order != [] {
      var last, rest := order[|order| - 1], order[..|order| - 1];
      ListedSize(rest);
      assert order == rest + [last];
      assert Listed(order) == Listed(rest) + {last};
    }
  }

  lemma {:induction false} SubsetSize(a: set<Name>, b: set<Name>)
    requires a <= b
    ensures |a| <= |b| && (|a| == |b| ==> a == b)
  {
    if a != {} {
      var x :| x in a;
      SubsetSize(a - {x}, b - {x});
    }
  }

  lemma OrderSize(services: Services, degree: Degrees, order: seq<Name>, queue: seq<Name>)
    requires Sorting(services, Listed(order), [], degree, order, queue)
    ensures |order| <= |services| && NoRepeats(order) && Listed(order) <= services.Keys
    ensures |order| == |services| ==> Listed(order) == services.Keys
  {
    forall i, j | 0 <= i < j < |order| ensures order[i] != order[j] {
      assert (order + queue)[i] == order[i] && (order + queue)[j] == order[j];
    }
    forall s | s in order ensures s in services { assert s in order + queue; }
    ListedSize(order);
    SubsetSize(Listed(order), services.Keys);
  }

  /** With an empty queue, either everything is listed or what is left is stuck. */
  lemma DoneOrStuck(services: Services, degree: Degrees, order: seq<Name>)
    requires Sorting(services, Listed(order), [], degree, order, []) && DepsFirst(services, order)
    ensures |order| == |services| ==> IsStartOrder(services, order)
    ensures |order| != |services| ==> HasCycle(services)
  {
    OrderSize(services, degree, order, []);
    if |order| == |services| {
      forall s ensures s in order <==> s in services { assert s in Listed(order) <==> s in order; }
    } else {
      var u := services.Keys - Listed(order);
      ListedSize(order);
      assert services.Keys == u + Listed(order) && |services.Keys| == |u| + |Listed(order)|;
      forall s | s in u ensures WaitsFor(services, u, s) { LeftWaits(services, degree, order, s); }
      StuckServicesHaveACycle(services, u);
    }
  }

  lemma LeftWaits(services: Services, degree: Degrees, order: seq<Name>, s: Name)
    requires Sorting(services, Listed(order), [], degree, order, []) && s in services && s !in order
    ensures WaitsFor(services, services.Keys - Listed(order), s)
  {
    hide Pending;
    assert DegreeIs(services, Listed(order), [], degree, s);
    assert QueuedIs(order, [], degree, s);
    assert order + [] == order;
    NothingPending(services, services[s], Listed(order));
    var d :| d in services[s] && d in services && d !in Listed(order);
    assert Requires(services, s, d);
  }

  /**
    Kahn's algorithm.  `names` is the order of the table and `listing` the arbitrary order in which
    the set of names is run through.
  */
  method TopologicalSort(services: Services, names: seq<Name>, listing: seq<Name>) returns (r: Option<seq<Name>>)
    requires NoRepeats(names) && forall s :: s in names <==> s in services
    requires NoRepeats(listing) && forall s :: s in listing <==> s in services
    ensures r.Some? ==> IsStartOrder(services, r.value)
    ensures r.None? <==> HasCycle(services)
  {
    hide Sorting, Pending, NoRepeats, DepsFirst, HasCycle;
    var degree, adj := BuildGraph(services, names);
    SameKeys(services, services, degree, adj);
    var queue := InitialQueue(services, listing, degree, adj);
    var result: seq<Name> := [];
    NoDeps(services);
    while queue != []
      invariant Sorting(services, Listed(result), [], degree, result, queue) && DepsFirst(services, result)
      decreases |services| - |result|
    {
      var node := queue[0];
      HeadIsNext(services, degree, result, queue);
      ghost var done := Listed(result);
      queue := queue[1..];
      result := result + [node];
      degree, queue := ReleaseEdges(services, adj, node, degree, queue, done, result);
      OrderSize(services, degree, result, queue);
    }
    DoneOrStuck(services, degree, result);
    if |result| != |services| {
      return None;
    }
    StartOrderExcludesCycles(services, result);
    return Some(result);
  }

  lemma NoDeps(services: Services)
    ensures DepsFirst(services, [])
  {
  }

  /** The services without declared dependencies. */
  method InitialQueue(services: Services, listing: seq<Name>, degree: Degrees, ghost adj: Services)
    returns (queue: seq<Name>)
    requires NoRepeats(listing) && (forall s :: s in listing <==> s in services)
             && IsGraph(services, services, degree, adj)
    ensures Sorting(services, Listed([]), [], degree, [], queue)
  {
    queue := [];
    for i := 0 to |listing|
      invariant NoRepeats(queue) && forall s :: s in queue <==> s in listing[..i] && s in degree && degree[s] == 0
    {
      NewName(listing, i);
      assert listing[i] in listing;
      forall s ensures s in listing[..i + 1] <==> s in listing[..i] || s == listing[i] { NextPrefix(listing, i, s); }
      if degree[listing[i]] == 0 {
        AppendNew(queue, listing[i]);
        queue := queue + [listing[i]];
      }
    }
    assert listing[..|listing|] == listing;
    assert [] + queue == queue;
    assert Listed([]) == {};
    forall s | s in services ensures DegreeIs(services, Listed([]), [], degree, s) {
      assert DegreeOk(services, services, degree, s);
    }
  }
}
