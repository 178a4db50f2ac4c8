/**
  The npm dependency walk (app/core/manifests.py, `_walk_npm_graph`): the shortest route from
  the project to every package, by breadth-first search over a possibly cyclic graph.
*/
module NpmGraph {
  import opened Prelude
  import opened Text

  /** Chains of this many names are not extended. */
  const MAX_WALK_DEPTH := 64

  /** A package object of the lockfile; the name lists are the keys of its dependency sections. */
  datatype Entry = Entry(
    name: Option<string>,
    version: Option<string>,
    dev: bool,
    link: bool,
    dependencies: seq<string>,
    optionalDependencies: seq<string>,
    peerDependencies: seq<string>)

  type Graph = map<string, Entry>

  // ---------- chains ----------

  function Children(g: Graph, name: string): seq<string> {
    if name in g then g[name].dependencies + g[name].optionalDependencies else []
  }

  /** A dependency chain: it starts at a direct dependency and follows recorded edges. */
  ghost predicate IsChain(g: Graph, direct: set<string>, p: seq<string>) {
    && p != []
    && p[0] in direct
    && forall k :: 0 <= k < |p| - 1 ==> p[k + 1] in Children(g, p[k])
  }

  ghost predicate ChainTo(g: Graph, direct: set<string>, p: seq<string>, name: string) {
    IsChain(g, direct, p) && p[|p| - 1] == name
  }

  ghost predicate WithinReach(g: Graph, direct: set<string>, name: string) {
    exists p :: ChainTo(g, direct, p, name) && |p| <= MAX_WALK_DEPTH
  }

  /** `r` is a chain to `name`, within the cap, and no chain to `name` is shorter. */
  ghost predicate ShortestRoute(g: Graph, direct: set<string>, r: seq<string>, name: string) {
    && ChainTo(g, direct, r, name) && |r| <= MAX_WALK_DEPTH
    && forall p :: ChainTo(g, direct, p, name) ==> |r| <= |p|
  }

  /** The route map is exact: it holds the reachable names, each with a shortest route. */
  ghost predicate RoutesAreExact(g: Graph, direct: set<string>, routes: Routes) {
    && (forall n :: n in routes <==> WithinReach(g, direct, n))
    && (forall n :: n in routes ==> ShortestRoute(g, direct, routes[n], n) && NoRepeats(routes[n]))
  }

  ghost predicate NoRepeats(p: seq<string>) {
    forall i, j :: 0 <= i < j < |p| ==> p[i] != p[j]
  }

  // ---------- what the search maintains ----------

  type Routes = map<string, seq<string>>
  type Queue = seq<(string, seq<string>)>

  /** Every recorded route is a chain within the cap, and each of its prefixes is recorded too. */
  ghost predicate RoutesAreChains(g: Graph, direct: set<string>, routes: Routes) {
    forall n :: n in routes ==>
      && ChainTo(g, direct, routes[n], n)
      && |routes[n]| <= MAX_WALK_DEPTH
      && PrefixesRecorded(routes, routes[n])
  }

  ghost predicate PrefixesRecorded(routes: Routes, r: seq<string>) {
    forall k :: 0 <= k < |r| ==> r[k] in routes && routes[r[k]] == r[..k + 1]
  }

  ghost predicate Queued(queue: Queue, name: string) {
    exists i :: 0 <= i < |queue| && queue[i].0 == name
  }

  /** The queue holds recorded routes of the current length, then of the next one. */
  ghost predicate QueueInLayers(routes: Routes, queue: Queue, level: nat) {
    && (forall i :: 0 <= i < |queue| ==> queue[i].0 in routes && routes[queue[i].0] == queue[i].1)
    && (forall i :: 0 <= i < |queue| ==> level <= |queue[i].1| <= level + 1)
    && (forall i, j :: 0 <= i < j < |queue| ==> |queue[i].1| <= |queue[j].1|)
    && (forall n :: n in routes && !Queued(queue, n) ==> |routes[n]| <= level)
  }

  ghost predicate ChildRecorded(routes: Routes, child: string, bound: nat) {
    child in routes && |routes[child]| <= bound
  }

  /** A name off the queue, other than `busy`, has all its children recorded one step further. */
  ghost predicate Expanded(g: Graph, routes: Routes, queue: Queue, busy: Option<string>) {
    forall n, c :: n in routes && !Queued(queue, n) && Some(n) != busy && |routes[n]| < MAX_WALK_DEPTH
                   && c in Children(g, n)
                   ==> ChildRecorded(routes, c, |routes[n]| + 1)
  }

  ghost predicate DirectRecorded(direct: set<string>, routes: Routes) {
    forall d :: d in direct ==> d in routes && routes[d] == [d]
  }

  ghost function Universe(g: Graph, direct: set<string>): set<string> {
    direct + set n, c | n in g && c in Children(g, n) :: c
  }

  // ---------- what that means once the queue is empty ----------

  /** A fully expanded route map answers every chain with one at most as long. */
  lemma {:induction false} ChainIsAnswered(g: Graph, direct: set<string>, routes: Routes, p: seq<string>)
    requires RoutesAreChains(g, direct, routes) && DirectRecorded(direct, routes)
    requires Expanded(g, routes, [], None)
    requires IsChain(g, direct, p) && |p| <= MAX_WALK_DEPTH
    ensures ChildRecorded(routes, p[|p| - 1], |p|)
    decreases |p|
  {
    if |p| > 1 {
      var q := p[..|p| - 1];
      var n, c := q[|q| - 1], p[|p| - 1];
      ChainIsAnswered(g, direct, routes, q);
      assert c in Children(g, n);
      assert !Queued([], n);
    }
  }

  lemma RouteDoesNotRepeat(g: Graph, direct: set<string>, routes: Routes, n: string)
    requires RoutesAreChains(g, direct, routes) && n in routes
    ensures NoRepeats(routes[n])
  {
    var r := routes[n];
    assert PrefixesRecorded(routes, r);
    forall i, j | 0 <= i < j < |r| ensures r[i] != r[j] {
      assert |routes[r[i]]| == i + 1 && |routes[r[j]]| == j + 1;
    }
  }

  lemma RouteIsShortest(g: Graph, direct: set<string>, routes: Routes, n: string)
    requires RoutesAreChains(g, direct, routes) && DirectRecorded(direct, routes)
    requires Expanded(g, routes, [], None)
    ensures WithinReach(g, direct, n) ==> n in routes
    ensures n in routes ==> ShortestRoute(g, direct, routes[n], n)
  {
    forall p | ChainTo(g, direct, p, n) && |p| <= MAX_WALK_DEPTH
      ensures n in routes && |routes[n]| <= |p|
    {
      ChainIsAnswered(g, direct, routes, p);
    }
  }

  lemma RoutesAreShortest(g: Graph, direct: set<string>, routes: Routes)
    requires RoutesAreChains(g, direct, routes) && DirectRecorded(direct, routes)
    requires Expanded(g, routes, [], None)
    ensures RoutesAreExact(g, direct, routes)
  {
    forall n ensures n in routes <==> WithinReach(g, direct, n) {
      RouteIsShortest(g, direct, routes, n);
    }
    forall n | n in routes ensures ShortestRoute(g, direct, routes[n], n) && NoRepeats(routes[n]) {
      RouteIsShortest(g, direct, routes, n);
      RouteDoesNotRepeat(g, direct, routes, n);
    }
  }

  // ---------- the search ----------

  lemma LeastName(s: set<string>) returns (least: string)
    requires s != {}
    ensures least in s && forall y :: y in s ==> CompareText(least, y) <= 0
    decreases |s|
  {
    var x :| x in s;
    CompareTextMirrors(x, x);
    if s == {x} {
      return x;
    }
    var rest := LeastName(s - {x});
    CompareTextMirrors(x, rest);
    least := if CompareText(x, rest) <= 0 then x else rest;
    forall y | y in s ensures CompareText(least, y) <= 0 {
      if y != x && least == x {
        CompareTextChains(x, rest, y);
      }
    }
  }

  /** Recording a route for a new child keeps every chain a chain. */
  lemma RecordChild(g: Graph, direct: set<string>, routes: Routes, name: string, child: string)
    requires RoutesAreChains(g, direct, routes)
    requires name in routes && |routes[name]| < MAX_WALK_DEPTH
    requires child in Children(g, name) && child !in routes
    ensures RoutesAreChains(g, direct, routes[child := routes[name] + [child]])
  {
    var chain := routes[name];
    var r := chain + [child];
    var routes' := routes[child := r];
    assert ChainTo(g, direct, r, child);
    forall n | n in routes' ensures PrefixesRecorded(routes', routes'[n]) {
      if n == child {
        forall k | 0 <= k < |r| ensures r[k] in routes' && routes'[r[k]] == r[..k + 1] {
          if k < |chain| {
            assert r[..k + 1] == chain[..k + 1] && r[k] == chain[k];
          }
        }
      } else {
        assert routes'[n] == routes[n];
        assert PrefixesRecorded(routes, routes[n]);
      }
    }
  }

  lemma QueuedAfterAppend(queue: Queue, child: string, r: seq<string>)
    ensures forall n :: Queued(queue + [(child, r)], n) <==> Queued(queue, n) || n == child
  {
    var queue' := queue + [(child, r)];
    assert queue'[|queue|].0 == child;
    forall n ensures Queued(queue', n) <==> Queued(queue, n) || n == child {
      if Queued(queue, n) {
        var i :| 0 <= i < |queue| && queue[i].0 == n;
        assert queue'[i].0 == n;
      }
    }
  }

  /** Queueing the new child keeps the layers, as long as its route is one longer than the level. */
  lemma QueueChild(routes: Routes, queue: Queue, level: nat, child: string, r: seq<string>)
    requires QueueInLayers(routes, queue, level)
    requires child !in routes && |r| == level + 1
    ensures QueueInLayers(routes[child := r], queue + [(child, r)], level)
    ensures forall n :: Queued(queue + [(child, r)], n) <==> Queued(queue, n) || n == child
  {
    QueuedAfterAppend(queue, child, r);
  }

  /** A route recorded for a new, queued child leaves everything already expanded expanded. */
  lemma RecordKeepsExpanded(g: Graph, routes: Routes, queue: Queue, busy: Option<string>, child: string, r: seq<string>)
    requires Expanded(g, routes, queue, busy) && child !in routes
    ensures Expanded(g, routes[child := r], queue + [(child, r)], busy)
  {
    QueuedAfterAppend(queue, child, r);
    var routes', queue' := routes[child := r], queue + [(child, r)];
    forall n, c | n in routes' && !Queued(queue', n) && Some(n) != busy && |routes'[n]| < MAX_WALK_DEPTH
                  && c in Children(g, n)
      ensures ChildRecorded(routes', c, |routes'[n]| + 1)
    {
      assert ChildRecorded(routes, c, |routes[n]| + 1);
    }
  }

  ghost predicate ChildrenRecorded(routes: Routes, children: seq<string>, upTo: nat, bound: nat)
    requires upTo <= |children|
  {
    forall i :: 0 <= i < upTo ==> ChildRecorded(routes, children[i], bound)
  }

  lemma RecordKeepsChildren(routes: Routes, children: seq<string>, k: nat, bound: nat, r: seq<string>)
    requires k < |children| && ChildrenRecorded(routes, children, k, bound)
    requires children[k] !in routes && |r| <= bound
    ensures ChildrenRecorded(routes[children[k] := r], children, k + 1, bound)
  {
    var routes' := routes[children[k] := r];
    forall i | 0 <= i < k + 1 ensures ChildRecorded(routes', children[i], bound) {
      if i < k {
        assert ChildRecorded(routes, children[i], bound);
      }
    }
  }

  /** A child that already has a route has one within the next layer. */
  lemma KnownChildIsNear(routes: Routes, queue: Queue, level: nat, children: seq<string>, k: nat)
    requires k < |children| && ChildrenRecorded(routes, children, k, level + 1)
    requires QueueInLayers(routes, queue, level) && children[k] in routes
    ensures ChildrenRecorded(routes, children, k + 1, level + 1)
  {
    if Queued(queue, children[k]) {
      var i :| 0 <= i < |queue| && queue[i].0 == children[k];
    }
  }

  /** Once all its children are recorded, the busy name is expanded like the rest. */
  lemma BusyDone(g: Graph, routes: Routes, queue: Queue, name: string)
    requires name in routes && Expanded(g, routes, queue, Some(name))
    requires ChildrenRecorded(routes, Children(g, name), |Children(g, name)|, |routes[name]| + 1)
    ensures Expanded(g, routes, queue, None)
  {
    forall n, c | n in routes && !Queued(queue, n) && |routes[n]| < MAX_WALK_DEPTH && c in Children(g, n)
      ensures ChildRecorded(routes, c, |routes[n]| + 1)
    {
      if n == name {
        var i :| 0 <= i < |Children(g, n)| && Children(g, n)[i] == c;
        assert ChildRecorded(routes, Children(g, n)[i], |routes[n]| + 1);
      }
    }
  }

  /** Taking the front route off the queue moves the level to its length. */
  lemma TakeFront(routes: Routes, queue: Queue, level: nat)
    requires queue != [] && QueueInLayers(routes, queue, level)
    ensures QueueInLayers(routes, queue[1..], |queue[0].1|)
    ensures forall n :: Queued(queue, n) ==> Queued(queue[1..], n) || n == queue[0].0
  {
    var rest := queue[1..];
    forall n | Queued(queue, n) ensures Queued(rest, n) || n == queue[0].0 {
      var i :| 0 <= i < |queue| && queue[i].0 == n;
      if i > 0 {
        assert rest[i - 1].0 == n;
      }
    }
  }

  /** Everything the search maintains; `busy` is the name whose children are being recorded. */
  ghost predicate Searching(
    g: Graph, direct: set<string>, routes: Routes, queue: Queue, level: nat, busy: Option<string>) {
    && RoutesAreChains(g, direct, routes)
    && DirectRecorded(direct, routes)
    && QueueInLayers(routes, queue, level)
    && Expanded(g, routes, queue, busy)
  }

  /** Work left to do: names without a route count twice, waiting names once. */
  ghost function Remaining(g: Graph, direct: set<string>, routes: Routes, queue: Queue): nat {
    2 * |Universe(g, direct) - routes.Keys| + |queue|
  }

  lemma RecordingShrinks(
    g: Graph, direct: set<string>, routes: Routes, queue: Queue, name: string, children: seq<string>, child: string,
    r: seq<string>)
    requires child in children && children == Children(g, name) && child !in routes
    ensures Remaining(g, direct, routes[child := r], queue + [(child, r)]) == Remaining(g, direct, routes, queue) - 1
  {
    assert child in Universe(g, direct) by {
      assert name in g && child in Children(g, name);
    }
    var left := Universe(g, direct) - routes.Keys;
    assert Universe(g, direct) - routes[child := r].Keys == left - {child};
  }

  lemma RecordStep(
    g: Graph, direct: set<string>, routes: Routes, queue: Queue, name: string, children: seq<string>, k: nat)
    requires name in routes && |routes[name]| < MAX_WALK_DEPTH && k < |children| && children == Children(g, name)
    requires Searching(g, direct, routes, queue, |routes[name]|, Some(name))
    requires ChildrenRecorded(routes, children, k, |routes[name]| + 1)
    requires children[k] !in routes
    ensures
      var r := routes[name] + [children[k]];
      && Searching(g, direct, routes[children[k] := r], queue + [(children[k], r)], |routes[name]|, Some(name))
      && ChildrenRecorded(routes[children[k] := r], children, k + 1, |routes[name]| + 1)
  {
    var child, r := children[k], routes[name] + [children[k]];
    assert child in Children(g, name);
    RecordChild(g, direct, routes, name, child);
    QueueChild(routes, queue, |routes[name]|, child, r);
    RecordKeepsExpanded(g, routes, queue, Some(name), child, r);
    RecordKeepsChildren(routes, children, k, |routes[name]| + 1, r);
  }

  lemma TakeStep(g: Graph, direct: set<string>, routes: Routes, queue: Queue, level: nat)
    requires queue != [] && Searching(g, direct, routes, queue, level, None)
    ensures Searching(g, direct, routes, queue[1..], |queue[0].1|, Some(queue[0].0))
    ensures queue[0].0 in routes && routes[queue[0].0] == queue[0].1
  {
    TakeFront(routes, queue, level);
  }

  /** Seeds the search with the direct dependencies, in name order. */
  method SeedDirect(g: Graph, direct: set<string>) returns (routes: Routes, queue: Queue)
    ensures Searching(g, direct, routes, queue, 1, None)
  {
    routes, queue := map[], [];
    var unsorted := direct;
    while unsorted != {}
      invariant unsorted <= direct
      invariant routes.Keys == direct - unsorted
      invariant forall n :: n in routes ==> routes[n] == [n]
      invariant forall n :: n in routes <==> Queued(queue, n)
      invariant forall i :: 0 <= i < |queue| ==> queue[i].0 in routes && routes[queue[i].0] == queue[i].1
    {
      ghost var least := LeastName(unsorted);
      var name :| name in unsorted && forall y :: y in unsorted ==> CompareText(name, y) <= 0;
      QueuedAfterAppend(queue, name, [name]);
      unsorted := unsorted - {name};
      routes := routes[name := [name]];
      queue := queue + [(name, [name])];
    }
  }

  /** The search while the first `k` children of `name` have been recorded. */
  ghost predicate Expanding(
    g: Graph, direct: set<string>, name: string, chain: seq<string>, k: nat, routes: Routes, queue: Queue) {
    && name in routes && routes[name] == chain && |chain| < MAX_WALK_DEPTH
    && k <= |Children(g, name)|
    && Searching(g, direct, routes, queue, |chain|, Some(name))
    && ChildrenRecorded(routes, Children(g, name), k, |chain| + 1)
  }

  lemma PassKnownChild(
    g: Graph, direct: set<string>, name: string, chain: seq<string>, k: nat, routes: Routes, queue: Queue)
    requires Expanding(g, direct, name, chain, k, routes, queue)
    requires k < |Children(g, name)| && Children(g, name)[k] in routes
    ensures Expanding(g, direct, name, chain, k + 1, routes, queue)
  {
    KnownChildIsNear(routes, queue, |chain|, Children(g, name), k);
  }

  lemma RecordNewChild(
    g: Graph, direct: set<string>, name: string, chain: seq<string>, k: nat, routes: Routes, queue: Queue)
    requires Expanding(g, direct, name, chain, k, routes, queue)
    requires k < |Children(g, name)| && Children(g, name)[k] !in routes
    ensures
      var child := Children(g, name)[k];
      var routes', queue' := routes[child := chain + [child]], queue + [(child, chain + [child])];
      && Expanding(g, direct, name, chain, k + 1, routes', queue')
      && Remaining(g, direct, routes', queue') <= Remaining(g, direct, routes, queue)
  {
    var children := Children(g, name);
    RecordStep(g, direct, routes, queue, name, children, k);
    RecordingShrinks(g, direct, routes, queue, name, children, children[k], chain + [children[k]]);
  }

  lemma ExpandingDone(
    g: Graph, direct: set<string>, name: string, chain: seq<string>, routes: Routes, queue: Queue)
    requires Expanding(g, direct, name, chain, |Children(g, name)|, routes, queue)
    ensures Searching(g, direct, routes, queue, |chain|, None)
  {
    BusyDone(g, routes, queue, name);
  }

  /** Records a route for every child of `name` that has none yet, and queues it. */
  method ExpandChildren(
    g: Graph, ghost direct: set<string>, name: string, chain: seq<string>, known: Routes, waiting: Queue)
    returns (routes: Routes, queue: Queue)
    requires name in g && Expanding(g, direct, name, chain, 0, known, waiting)
    ensures Searching(g, direct, routes, queue, |chain|, None)
    ensures Remaining(g, direct, routes, queue) <= Remaining(g, direct, known, waiting)
  {
    routes, queue := known, waiting;
    var children := g[name].dependencies + g[name].optionalDependencies;
    for k := 0 to |children|
      invariant Expanding(g, direct, name, chain, k, routes, queue)
      invariant Remaining(g, direct, routes, queue) <= Remaining(g, direct, known, waiting)
    {
      var child := children[k];
      if child in routes {
        PassKnownChild(g, direct, name, chain, k, routes, queue);
        continue;
      }
      RecordNewChild(g, direct, name, chain, k, routes, queue);
      routes := routes[child := chain + [child]];
      queue := queue + [(child, chain + [child])];
    }
    ExpandingDone(g, direct, name, chain, routes, queue);
  }

  /**
    Terminates on every finite graph, cycles included. The routed names are exactly those some
    chain of at most 64 names reaches, and each recorded route is a shortest one.
  */
  method WalkNpmGraph(g: Graph, direct: set<string>) returns (routes: Routes)
    ensures RoutesAreExact(g, direct, routes)
  {
    var queue: Queue;
    routes, queue := SeedDirect(g, direct);
    ghost var level: nat := 1;
    while queue != []
      invariant Searching(g, direct, routes, queue, level, None)
      decreases Remaining(g, direct, routes, queue)
    {
      TakeStep(g, direct, routes, queue, level);
      var (name, chain) := queue[0];
      level := |chain|;
      queue := queue[1..];
      if |chain| >= MAX_WALK_DEPTH {
        continue;
      }
      if name !in g {
        continue;
      }
      routes, queue := ExpandChildren(g, direct, name, chain, routes, queue);
    }
    RoutesAreShortest(g, direct, routes);
  }
}
