/**
  What a lockfile reports (app/core/manifests.py, `_lock_package_name`, `_parse_lock_v2`), in the
  words of the lockfile: its paths, its sections and its flags.
*/
module LockfileNames {
  import opened Prelude
  import opened Domain
  import opened NpmGraph
  import opened NpmLockfile

  // ---------- where a path contains the marker ----------

  predicate OccursAt(s: string, m: string, k: nat) {
    k + |m| <= |s| && s[k..k + |m|] == m
  }

  predicate Contains(s: string, m: string) {
    exists k :: 0 <= k <= |s| && OccursAt(s, m, k)
  }

  lemma {:induction false} LastIndexIsLast(s: string, m: string, at: nat)
    requires OccursAt(s, m, at) && forall k :: at < k <= |s| ==> !OccursAt(s, m, k)
    ensures LastIndexOf(s, m) == Some(at)
    decreases |s|
  {
    if at > 0 {
      assert s[1..][at - 1..at - 1 + |m|] == s[at..at + |m|];
      forall k | at - 1 < k <= |s[1..]| ensures !OccursAt(s[1..], m, k) {
        if OccursAt(s[1..], m, k) {
          assert s[1..][k..k + |m|] == s[k + 1..k + 1 + |m|];
          assert OccursAt(s, m, k + 1);
        }
      }
      LastIndexIsLast(s[1..], m, at - 1);
    } else {
      assert m == s[..|m|];
      if s != [] && LastIndexOf(s[1..], m).Some? {
        var k := LastIndexOf(s[1..], m).value;
        assert s[k + 1..k + 1 + |m|] == s[1..][k..k + |m|];
        assert OccursAt(s, m, k + 1);
        assert false;
      }
    }
  }

  lemma OnlySlash(i: nat)
    requires i < 12
    ensures "node_modules/"[i] != '/' && "node_modules/"[12] == '/'
  {
  }

  /** The marker ends in the only slash it has, so it cannot overlap itself. */
  lemma NoOverlap(before: string, after: string, k: nat)
    requires |before| < k < |before| + |"node_modules/"|
    ensures !OccursAt(before + "node_modules/" + after, "node_modules/", k)
  {
    var m := "node_modules/";
    var s := before + m + after;
    var i := |before| + 12 - k;
    OnlySlash(i);
    if k + |m| <= |s| {
      assert s[k..k + |m|][i] == s[k + i] == m[12];
    }
  }

  lemma NotInName(before: string, name: string, k: nat)
    requires !Contains(name, "node_modules/") && k >= |before|
    ensures !OccursAt(before + name, "node_modules/", k)
  {
    var m, s, j := "node_modules/", before + name, k - |before|;
    if k + |m| <= |s| {
      assert name[j..j + |m|] == s[k..k + |m|];
      assert !OccursAt(name, m, j);
    }
  }

  lemma MarkerIsLast(prefix: string, name: string)
    requires !Contains(name, "node_modules/")
    ensures LastIndexOf(prefix + "node_modules/" + name, "node_modules/") == Some(|prefix|)
  {
    var m := "node_modules/";
    var s := prefix + m + name;
    assert s[|prefix|..|prefix| + |m|] == m;
    forall k | |prefix| < k <= |s| ensures !OccursAt(s, m, k) {
      if k < |prefix| + |m| {
        NoOverlap(prefix, name, k);
      } else {
        NotInName(prefix + m, name, k);
      }
    }
    LastIndexIsLast(s, m, |prefix|);
  }

  /** The name of an installed package is what follows the last marker of its path, scopes included. */
  lemma PathNames(prefix: string, name: string)
    requires name != "" && !Contains(name, "node_modules/")
    ensures LockPackageName(prefix + "node_modules/" + name) == Some(name)
  {
    MarkerIsLast(prefix, name);
    assert (prefix + "node_modules/" + name)[|prefix| + |"node_modules/"|..] == name;
  }

  // ---------- what is reported ----------

  /** An installed package: an object at a path of its own that is not a link. */
  predicate IsInstalled(p: Package) {
    p.path != "" && p.entry.Some? && !p.entry.value.link
  }

  /** It goes by its own name if it has one, and otherwise by what follows the last marker of its path. */
  ghost predicate GoesBy(p: Package, name: string) {
    && IsInstalled(p) && name != ""
    && (p.entry.value.name == Some(name)
        || (p.entry.value.name == None && !Contains(name, "node_modules/")
            && exists prefix :: p.path == prefix + "node_modules/" + name))
  }

  lemma NoneAfterLast(s: string, m: string, k: nat)
    requires LastIndexOf(s, m).Some? && m != "" && LastIndexOf(s, m).value < k
    ensures !OccursAt(s, m, k)
  {
    if OccursAt(s, m, k) {
      FoundIfOccurs(s, m, k);
    }
  }

  lemma {:induction false} FoundIfOccurs(s: string, m: string, k: nat)
    requires OccursAt(s, m, k) && m != ""
    ensures LastIndexOf(s, m).Some? && LastIndexOf(s, m).value >= k
    decreases |s|
  {
    if k > 0 {
      assert s[1..][k - 1..k - 1 + |m|] == s[k..k + |m|];
      FoundIfOccurs(s[1..], m, k - 1);
    } else {
      assert m == s[..|m|];
    }
  }

  lemma SuffixOccurs(s: string, m: string, cut: nat, k: nat)
    requires cut <= |s| && OccursAt(s[cut..], m, k)
    ensures OccursAt(s, m, cut + k)
  {
    assert s[cut..][k..k + |m|] == s[cut + k..cut + k + |m|];
  }

  lemma TailHasNone(s: string, m: string, at: nat)
    requires m != "" && LastIndexOf(s, m) == Some(at)
    ensures at + |m| <= |s| && !Contains(s[at + |m|..], m)
  {
    var tail := s[at + |m|..];
    if Contains(tail, m) {
      var k :| 0 <= k <= |tail| && OccursAt(tail, m, k);
      SuffixOccurs(s, m, at + |m|, k);
      NoneAfterLast(s, m, at + |m| + k);
    }
  }

  lemma NameOfPath(path: string, name: string)
    requires LockPackageName(path) == Some(name)
    ensures name != "" && !Contains(name, "node_modules/") && exists prefix :: path == prefix + "node_modules/" + name
  {
    var at := LastIndexOf(path, "node_modules/").value;
    TailHasNone(path, "node_modules/", at);
    assert path == path[..at] + "node_modules/" + name;
  }

  lemma PackageNameIff(p: Package, name: string)
    ensures PackageName(p) == Some(name) <==> GoesBy(p, name)
  {
    if GoesBy(p, name) && p.entry.value.name == None {
      var prefix :| p.path == prefix + "node_modules/" + name;
      PathNames(prefix, name);
    }
    if PackageName(p) == Some(name) && p.entry.value.name == None {
      NameOfPath(p.path, name);
    }
  }

  lemma {:induction false} ReportedIff(packages: seq<Package>, p: Package)
    ensures p in ReportedItems(packages) <==> p in packages && Reported(p)
    decreases |packages|
  {
    if packages != [] {
      var front, last := packages[..|packages| - 1], packages[|packages| - 1];
      assert packages == front + [last];
      ReportedIff(front, p);
    }
  }

  predicate HasVersion(p: Package, version: string) {
    version != "" && p.entry.Some? && p.entry.value.version == Some(version)
  }

  ghost predicate IsReportedAs(deps: seq<Dependency>, name: string, version: string) {
    exists d :: d in deps && d.name == name && d.version == version
  }

  ghost predicate IsInstalledAs(packages: seq<Package>, name: string, version: string) {
    exists p :: p in packages && GoesBy(p, name) && HasVersion(p, version)
  }

  lemma DescribedNames(g: Graph, direct: set<string>, p: Package, d: Dependency)
    requires Describes(g, direct, p, d) && Reported(p)
    ensures GoesBy(p, d.name) && HasVersion(p, d.version)
    ensures forall name, version :: GoesBy(p, name) && HasVersion(p, version) ==> d.name == name && d.version == version
  {
    PackageNameIff(p, d.name);
    forall name, version | GoesBy(p, name) && HasVersion(p, version) ensures d.name == name && d.version == version {
      PackageNameIff(p, name);
    }
  }

  lemma InstalledIsReportable(p: Package, name: string, version: string)
    requires GoesBy(p, name) && HasVersion(p, version)
    ensures Reported(p)
  {
    PackageNameIff(p, name);
  }

  lemma ReportedComesFrom(packages: seq<Package>, deps: seq<Dependency>, g: Graph, k: nat)
    requires AllDescribed(g, DirectNames(packages), ReportedItems(packages), deps) && k < |deps|
    ensures IsInstalledAs(packages, deps[k].name, deps[k].version)
  {
    var p := ReportedItems(packages)[k];
    assert p in ReportedItems(packages) && Describes(g, DirectNames(packages), p, deps[k]);
    ReportedIff(packages, p);
    DescribedNames(g, DirectNames(packages), p, deps[k]);
  }

  lemma InstalledGoesInto(
    packages: seq<Package>, deps: seq<Dependency>, g: Graph, p: Package, name: string, version: string)
    requires AllDescribed(g, DirectNames(packages), ReportedItems(packages), deps)
    requires p in packages && GoesBy(p, name) && HasVersion(p, version)
    ensures IsReportedAs(deps, name, version)
  {
    InstalledIsReportable(p, name, version);
    ReportedIff(packages, p);
    var k :| 0 <= k < |ReportedItems(packages)| && ReportedItems(packages)[k] == p;
    assert Describes(g, DirectNames(packages), p, deps[k]);
    DescribedNames(g, DirectNames(packages), p, deps[k]);
    assert deps[k] in deps;
  }

  /** Every installed package with a version is reported under its name, and nothing else is. */
  lemma EveryInstalledIsReported(packages: seq<Package>, deps: seq<Dependency>, name: string, version: string)
    requires DescribesLockfile(packages, deps)
    ensures IsReportedAs(deps, name, version) <==> IsInstalledAs(packages, name, version)
  {
    var g :| IsIndex(packages, g) && AllDescribed(g, DirectNames(packages), ReportedItems(packages), deps);
    if p :| p in packages && GoesBy(p, name) && HasVersion(p, version) {
      InstalledGoesInto(packages, deps, g, p, name, version);
    }
    if d :| d in deps && d.name == name && d.version == version {
      var k :| 0 <= k < |deps| && deps[k] == d;
      ReportedComesFrom(packages, deps, g, k);
    }
  }

  /** A nested copy is reported under its own name, however deep its path. */
  lemma NestedIsReportedByName(
    packages: seq<Package>, deps: seq<Dependency>, p: Package, prefix: string, name: string, version: string)
    requires DescribesLockfile(packages, deps) && p in packages
    requires p.path == prefix + "node_modules/" + name && name != "" && !Contains(name, "node_modules/")
    requires p.entry.Some? && !p.entry.value.link && p.entry.value.name == None && HasVersion(p, version)
    ensures IsReportedAs(deps, name, version)
  {
    assert p.path != "";
    assert GoesBy(p, name);
    EveryInstalledIsReported(packages, deps, name, version);
  }

  // ---------- which are direct ----------

  /** The project's own entry is the first at the empty path. */
  ghost predicate IsRoot(packages: seq<Package>, root: Entry) {
    exists i :: 0 <= i < |packages| && IsRootAt(packages, root, i)
  }

  ghost predicate IsRootAt(packages: seq<Package>, root: Entry, i: nat) {
    && i < |packages| && packages[i].path == "" && packages[i].entry == Some(root)
    && forall j :: 0 <= j < i ==> packages[j].path != ""
  }

  lemma {:induction false} RootIsFirst(packages: seq<Package>, root: Entry) returns (i: nat)
    requires RootEntry(packages) == Some(root)
    ensures IsRootAt(packages, root, i)
    decreases |packages|
  {
    if packages[0].path == "" {
      return 0;
    }
    var k := RootIsFirst(packages[1..], root);
    assert forall j :: 0 < j < |packages| ==> packages[j] == packages[1..][j - 1];
    return k + 1;
  }

  lemma {:induction false} FirstIsRoot(packages: seq<Package>, root: Entry, i: nat)
    requires IsRootAt(packages, root, i)
    ensures RootEntry(packages) == Some(root)
    decreases |packages|
  {
    if i > 0 {
      assert forall j :: 0 <= j < |packages[1..]| ==> packages[1..][j] == packages[j + 1];
      FirstIsRoot(packages[1..], root, i - 1);
    }
  }

  lemma RootIff(packages: seq<Package>, root: Entry)
    ensures RootEntry(packages) == Some(root) <==> IsRoot(packages, root)
  {
    if RootEntry(packages) == Some(root) {
      var i := RootIsFirst(packages, root);
    }
    if i :| 0 <= i < |packages| && IsRootAt(packages, root, i) {
      FirstIsRoot(packages, root, i);
    }
  }

  /** Direct is what the project's own entry names in any of its three sections. */
  lemma DirectIff(packages: seq<Package>, n: string)
    ensures n in DirectNames(packages) <==> exists root ::
      IsRoot(packages, root)
      && (n in root.dependencies || n in root.optionalDependencies || n in root.peerDependencies)
  {
    if RootEntry(packages).Some? {
      RootIff(packages, RootEntry(packages).value);
    }
    forall root | IsRoot(packages, root) ensures RootEntry(packages) == Some(root) {
      RootIff(packages, root);
    }
  }

  // ---------- which sections are followed ----------

  /** `c` is required, or optionally required, by the entry of `n`; peers are not followed. */
  predicate Requires(g: Graph, n: string, c: string) {
    n in g && (c in g[n].dependencies || c in g[n].optionalDependencies)
  }

  lemma RequiresIff(g: Graph, n: string, c: string)
    ensures c in Children(g, n) <==> Requires(g, n, c)
  {
  }

  lemma OneStepFurther(g: Graph, direct: set<string>, routes: Routes, n: string, c: string)
    requires RoutesAreExact(g, direct, routes) && n in routes && |routes[n]| < 64 && Requires(g, n, c)
    ensures c in routes && |routes[c]| <= |routes[n]| + 1
  {
    RequiresIff(g, n, c);
    var p := routes[n] + [c];
    assert ShortestRoute(g, direct, routes[n], n);
    assert ChainTo(g, direct, p, c);
    assert WithinReach(g, direct, c);
    assert ShortestRoute(g, direct, routes[c], c);
  }

  lemma RouteShape(g: Graph, direct: set<string>, routes: Routes, n: string)
    requires RoutesAreExact(g, direct, routes) && n in routes
    ensures 0 < |routes[n]| <= 64 && routes[n][0] in direct && routes[n][|routes[n]| - 1] == n
    ensures forall k :: 0 <= k < |routes[n]| - 1 ==> Requires(g, routes[n][k], routes[n][k + 1])
  {
    assert ShortestRoute(g, direct, routes[n], n);
    forall k | 0 <= k < |routes[n]| - 1 ensures Requires(g, routes[n][k], routes[n][k + 1]) {
      RequiresIff(g, routes[n][k], routes[n][k + 1]);
    }
  }

  lemma DirectRoute(g: Graph, direct: set<string>, routes: Routes, n: string)
    requires RoutesAreExact(g, direct, routes) && n in direct
    ensures n in routes && routes[n] == [n]
  {
    assert ChainTo(g, direct, [n], n) && WithinReach(g, direct, n);
    assert ShortestRoute(g, direct, routes[n], n);
  }

  /** Each step of the route is a requirement, from a direct dependency to the package, 64 names at most. */
  ghost predicate FollowsSections(g: Graph, direct: set<string>, n: string, route: seq<string>) {
    && 0 < |route| <= 64 && route[0] in direct && route[|route| - 1] == n
    && forall k :: 0 <= k < |route| - 1 ==> Requires(g, route[k], route[k + 1])
  }

  /** Whatever a routed package requires is routed, one step further at most, up to 64 names. */
  ghost predicate ClosedUnderSections(g: Graph, routes: Routes) {
    forall n, c :: n in routes && |routes[n]| < 64 && Requires(g, n, c) ==>
      c in routes && |routes[c]| <= |routes[n]| + 1
  }

  /** The routes are those that the sections that count give, and all of them. */
  lemma RoutesFollowSections(g: Graph, direct: set<string>, routes: Routes)
    requires RoutesAreExact(g, direct, routes)
    ensures forall n :: n in direct ==> n in routes && routes[n] == [n]
    ensures ClosedUnderSections(g, routes)
    ensures forall n :: n in routes ==> FollowsSections(g, direct, n, routes[n])
  {
    forall n | n in direct ensures n in routes && routes[n] == [n] {
      DirectRoute(g, direct, routes, n);
    }
    forall n, c | n in routes && |routes[n]| < 64 && Requires(g, n, c)
      ensures c in routes && |routes[c]| <= |routes[n]| + 1
    {
      OneStepFurther(g, direct, routes, n, c);
    }
    forall n | n in routes ensures FollowsSections(g, direct, n, routes[n]) {
      RouteShape(g, direct, routes, n);
    }
  }

  // ---------- how nested a path is ----------

  lemma {:induction false} CountWithoutMarker(s: string)
    requires !Contains(s, "node_modules/")
    ensures CountOf(s, "node_modules/") == 0
    decreases |s|
  {
    var m := "node_modules/";
    if |s| >= |m| {
      if m <= s {
        assert OccursAt(s, m, 0);
      }
      forall k | 0 <= k <= |s[1..]| ensures !OccursAt(s[1..], m, k) {
        if OccursAt(s[1..], m, k) {
          assert s[1..][k..k + |m|] == s[k + 1..k + 1 + |m|];
          assert OccursAt(s, m, k + 1);
        }
      }
      CountWithoutMarker(s[1..]);
    }
  }

  /** The marker does not begin in a prefix and end in a following marker. */
  lemma NoStraddle(before: string, after: string)
    requires 0 < |before| < |"node_modules/"|
    ensures !("node_modules/" <= before + "node_modules/" + after)
  {
    var m := "node_modules/";
    OnlySlash(12 - |before|);
    assert (before + m + after)[12] == m[12 - |before|];
  }

  /** Each further marker in a path is one more level of nesting. */
  lemma {:induction false} NestingCounts(prefix: string, name: string)
    requires !Contains(name, "node_modules/")
    ensures CountOf(prefix + "node_modules/" + name, "node_modules/") == CountOf(prefix, "node_modules/") + 1
    decreases |prefix|
  {
    var m := "node_modules/";
    var s := prefix + m + name;
    if prefix == "" {
      assert s[..|m|] == m && s[|m|..] == name;
      CountWithoutMarker(name);
    } else if m <= prefix {
      assert s[..|m|] == prefix[..|m|] == m;
      assert s[|m|..] == prefix[|m|..] + m + name;
      NestingCounts(prefix[|m|..], name);
    } else {
      if |prefix| < |m| {
        NoStraddle(prefix, name);
      } else {
        assert s[..|m|] == prefix[..|m|];
      }
      assert s[1..] == prefix[1..] + m + name;
      NestingCounts(prefix[1..], name);
      CountSkips(prefix);
      CountSkips(s);
    }
  }

  lemma CountSkips(s: string)
    requires s != "" && !("node_modules/" <= s)
    ensures CountOf(s, "node_modules/") == CountOf(s[1..], "node_modules/")
  {
  }
}
