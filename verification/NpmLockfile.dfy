/**
  Reading a version 2 lockfile (app/core/manifests.py, `_index_by_name`, `_parse_lock_v2`): which
  packages are installed, how deep each sits and through what it came in.
*/
module NpmLockfile {
  import opened Prelude
  import opened Domain
  import opened NpmGraph

  /** One item of the lockfile's "packages" object; `None` where the value is not an object. */
  datatype Package = Package(path: string, entry: Option<Entry>)

  const MARKER := "node_modules/"

  /** Where `s` last contains `m`, if it does. */
  function LastIndexOf(s: string, m: string): (at: Option<nat>)
    ensures at.Some? ==> at.value + |m| <= |s| && m <= s[at.value..]
  {
    if |s| < |m| then None
    else
      var later := if s == [] then None else LastIndexOf(s[1..], m);
      if later.Some? then
        assert s[later.value + 1..] == s[1..][later.value..];
        Some(later.value + 1)
      else if m <= s then Some(0)
      else None
  }

  /** How often `s` contains the non-empty `m`, counting left to right without overlap. */
  function CountOf(s: string, m: string): nat
    requires m != []
  {
    if |s| < |m| then 0
    else if m <= s then 1 + CountOf(s[|m|..], m)
    else CountOf(s[1..], m)
  }

  function LockPackageName(path: string): Option<string> {
    match LastIndexOf(path, MARKER)
    case None => None
    case Some(at) =>
      var name := path[at + |MARKER|..];
      if name == "" then None else Some(name)
  }

  /** The name a lockfile item goes by, `None` if it is skipped. */
  function PackageName(p: Package): Option<string> {
    if p.path == "" || p.entry.None? || p.entry.value.link then None
    else if p.entry.value.name.Some? then (if p.entry.value.name.value == "" then None else p.entry.value.name)
    else LockPackageName(p.path)
  }

  /** Item `i` is the one the index keeps among the first `upTo`: least nested, first among equals. */
  ghost predicate Hoisted(packages: seq<Package>, upTo: nat, i: nat)
    requires upTo <= |packages|
  {
    && i < upTo && PackageName(packages[i]).Some?
    && forall j :: 0 <= j < upTo && PackageName(packages[j]) == PackageName(packages[i]) ==>
         && CountOf(packages[i].path, MARKER) <= CountOf(packages[j].path, MARKER)
         && (j < i ==> CountOf(packages[i].path, MARKER) < CountOf(packages[j].path, MARKER))
  }

  /** `g` maps every name in the lockfile, and nothing else, to its hoisted entry. */
  ghost predicate IsIndex(packages: seq<Package>, g: Graph) {
    && (forall i :: 0 <= i < |packages| && PackageName(packages[i]).Some? ==> PackageName(packages[i]).value in g)
    && (forall n :: n in g ==> exists i: nat :: HoistedAs(packages, |packages|, i, n, g[n]))
  }

  ghost predicate HoistedAs(packages: seq<Package>, upTo: nat, i: nat, name: string, entry: Entry)
    requires upTo <= |packages|
  {
    Hoisted(packages, upTo, i) && PackageName(packages[i]) == Some(name) && packages[i].entry == Some(entry)
  }

  lemma HoistedStays(packages: seq<Package>, k: nat, i: nat)
    requires k < |packages| && Hoisted(packages, k, i)
    requires PackageName(packages[k]) == PackageName(packages[i]) ==>
      CountOf(packages[i].path, MARKER) <= CountOf(packages[k].path, MARKER)
    ensures Hoisted(packages, k + 1, i)
  {
  }

  /** The index after the first `k` items; `at` records which item each name's entry came from. */
  ghost predicate BestSoFar(packages: seq<Package>, k: nat, best: map<string, (nat, Entry)>, at: map<string, nat>)
    requires k <= |packages|
  {
    && best.Keys == at.Keys
    && (forall i :: 0 <= i < k && PackageName(packages[i]).Some? ==> PackageName(packages[i]).value in best)
    && (forall n :: n in best ==>
         && HoistedAs(packages, k, at[n], n, best[n].1)
         && best[n].0 == CountOf(packages[at[n]].path, MARKER))
  }

  /** Item `k` has a name, and is the first or the least nested of that name so far. */
  predicate Improves(packages: seq<Package>, k: nat, best: map<string, (nat, Entry)>)
    requires k < |packages|
  {
    var known := PackageName(packages[k]);
    known.Some? && (known.value !in best || CountOf(packages[k].path, MARKER) < best[known.value].0)
  }

  lemma OthersStay(packages: seq<Package>, k: nat, best: map<string, (nat, Entry)>, at: map<string, nat>, n: string)
    requires k < |packages| && BestSoFar(packages, k, best, at) && n in best
    requires PackageName(packages[k]) == Some(n) ==> best[n].0 <= CountOf(packages[k].path, MARKER)
    ensures HoistedAs(packages, k + 1, at[n], n, best[n].1)
  {
    HoistedStays(packages, k, at[n]);
  }

  lemma BestKept(packages: seq<Package>, k: nat, best: map<string, (nat, Entry)>, at: map<string, nat>)
    requires k < |packages| && BestSoFar(packages, k, best, at) && !Improves(packages, k, best)
    ensures BestSoFar(packages, k + 1, best, at)
  {
    forall n | n in best ensures HoistedAs(packages, k + 1, at[n], n, best[n].1) {
      OthersStay(packages, k, best, at, n);
    }
  }

  lemma BestTaken(packages: seq<Package>, k: nat, best: map<string, (nat, Entry)>, at: map<string, nat>)
    requires k < |packages| && BestSoFar(packages, k, best, at) && Improves(packages, k, best)
    ensures
      var name, nesting := PackageName(packages[k]).value, CountOf(packages[k].path, MARKER);
      BestSoFar(packages, k + 1, best[name := (nesting, packages[k].entry.value)], at[name := k])
  {
    var name := PackageName(packages[k]).value;
    var nesting, entry := CountOf(packages[k].path, MARKER), packages[k].entry.value;
    var best', at' := best[name := (nesting, entry)], at[name := k];
    HoistedByTaking(packages, k, best, at);
    assert HoistedAs(packages, k + 1, k, name, entry);
    forall n | n in best'
      ensures HoistedAs(packages, k + 1, at'[n], n, best'[n].1)
      ensures best'[n].0 == CountOf(packages[at'[n]].path, MARKER)
    {
      if n != name {
        OthersStay(packages, k, best, at, n);
      }
    }
  }

  lemma HoistedByTaking(packages: seq<Package>, k: nat, best: map<string, (nat, Entry)>, at: map<string, nat>)
    requires k < |packages| && BestSoFar(packages, k, best, at) && PackageName(packages[k]).Some?
    requires PackageName(packages[k]).value in best ==>
      CountOf(packages[k].path, MARKER) < best[PackageName(packages[k]).value].0
    ensures Hoisted(packages, k + 1, k)
  {
    var name := PackageName(packages[k]).value;
    if name in best {
      assert HoistedAs(packages, k, at[name], name, best[name].1);
    }
  }

  method IndexByName(packages: seq<Package>) returns (byName: Graph)
    ensures IsIndex(packages, byName)
  {
    var best: map<string, (nat, Entry)> := map[];
    ghost var at: map<string, nat> := map[];
    for k := 0 to |packages|
      invariant BestSoFar(packages, k, best, at)
    {
      var known := PackageName(packages[k]);
      if known.None? {
        BestKept(packages, k, best, at);
        continue;
      }
      var nesting := CountOf(packages[k].path, MARKER);
      if known.value !in best || nesting < best[known.value].0 {
        BestTaken(packages, k, best, at);
        best := best[known.value := (nesting, packages[k].entry.value)];
        at := at[known.value := k];
      } else {
        BestKept(packages, k, best, at);
      }
    }
    byName := map n | n in best :: best[n].1;
    forall n | n in byName ensures exists i: nat :: HoistedAs(packages, |packages|, i, n, byName[n]) {
      assert HoistedAs(packages, |packages|, at[n], n, byName[n]);
    }
  }

  function RootEntry(packages: seq<Package>): Option<Entry> {
    if packages == [] then None
    else if packages[0].path == "" then packages[0].entry
    else RootEntry(packages[1..])
  }

  function DirectNames(packages: seq<Package>): set<string> {
    match RootEntry(packages)
    case None => {}
    case Some(root) =>
      (set n | n in root.dependencies) + (set n | n in root.optionalDependencies) + (set n | n in root.peerDependencies)
  }

  /** A lockfile item that is reported as a dependency. */
  predicate Reported(p: Package) {
    PackageName(p).Some? && p.entry.value.version.Some? && p.entry.value.version.value != ""
  }

  function ReportedItems(packages: seq<Package>): seq<Package> {
    if packages == [] then []
    else
      var n := |packages| - 1;
      ReportedItems(packages[..n]) + (if Reported(packages[n]) then [packages[n]] else [])
  }

  /** The depth and path reported are the truth about the indexed graph. */
  ghost predicate PlacedCorrectly(g: Graph, direct: set<string>, r: Dependency) {
    if WithinReach(g, direct, r.name)
    then ShortestRoute(g, direct, r.via + [r.name], r.name) && r.depth == |r.via| && NoRepeats(r.via + [r.name])
    else r.depth == 1 && r.via == [] && r.name !in direct
  }

  /** `r` is what the lockfile item `p` is reported as. */
  ghost predicate Describes(g: Graph, direct: set<string>, p: Package, r: Dependency) {
    && PackageName(p) == Some(r.name)
    && r.ecosystem == Npm && r.versionExact && r.versionSpec == r.version
    && p.entry.Some? && p.entry.value.version == Some(r.version)
    && r.reachability ==
      (if p.entry.value.dev then DevOnly else if r.name in direct then RuntimeDirect else RuntimeTransitive)
    && PlacedCorrectly(g, direct, r)
  }

  lemma DirectIsReachable(g: Graph, direct: set<string>, name: string)
    requires name in direct
    ensures WithinReach(g, direct, name)
  {
    assert ChainTo(g, direct, [name], name);
  }

  method Place(ghost g: Graph, direct: set<string>, routes: Routes, item: Package) returns (r: Dependency)
    requires RoutesAreExact(g, direct, routes) && Reported(item)
    ensures Describes(g, direct, item, r)
  {
    var name := PackageName(item).value;
    var reachability :=
      if item.entry.value.dev then DevOnly
      else if name in direct then RuntimeDirect
      else RuntimeTransitive;
    var via := if name in routes then routes[name][..|routes[name]| - 1] else [];
    var depth := |via|;
    if name !in routes {
      if name in direct {
        DirectIsReachable(g, direct, name);
      }
      depth := if name in direct then 0 else 1;
    } else {
      assert via + [name] == routes[name];
    }
    var version := item.entry.value.version.value;
    return Found(Npm, name, version, version, reachability, true, depth, via);
  }

  ghost predicate AllDescribed(g: Graph, direct: set<string>, items: seq<Package>, deps: seq<Dependency>) {
    |deps| == |items| && forall k :: 0 <= k < |deps| ==> Describes(g, direct, items[k], deps[k])
  }

  /** `deps` describes the lockfile's reported items, in order, against the index of the lockfile. */
  ghost predicate DescribesLockfile(packages: seq<Package>, deps: seq<Dependency>) {
    exists g :: IsIndex(packages, g) && AllDescribed(g, DirectNames(packages), ReportedItems(packages), deps)
  }

  /** Reports exactly the lockfile's packages, in order, each at its true distance from the project. */
  method ParseLockV2(packages: seq<Package>) returns (deps: seq<Dependency>)
    ensures DescribesLockfile(packages, deps)
  {
    var direct := DirectNames(packages);
    var byName := IndexByName(packages);
    var routes := WalkNpmGraph(byName, direct);
    deps := [];
    for k := 0 to |packages|
      invariant AllDescribed(byName, direct, ReportedItems(packages[..k]), deps)
    {
      assert packages[..k + 1][..k] == packages[..k];
      if !Reported(packages[k]) {
        continue;
      }
      var resolved := Place(byName, direct, routes, packages[k]);
      deps := deps + [resolved];
    }
    assert packages[..|packages|] == packages;
  }
}
