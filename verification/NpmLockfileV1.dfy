/**
  Reading a version 1 lockfile (app/core/manifests.py, `_parse_lock_v1`): a tree in which the
  nesting is the dependency chain.
*/
module NpmLockfileV1 {
  import opened Prelude
  import opened Text
  import opened Domain
  import opened NpmGraph

  /** One item of a "dependencies" object whose value is an object; `nested` is its own such section. */
  datatype Node = Node(name: string, version: Option<string>, dev: bool, nested: seq<Node>)

  /** Installed from the registry: a version is recorded and it is not a file or git reference. */
  predicate FromRegistry(n: Node) {
    n.version.Some? && n.version.value != ""
    && !StartsWith(n.version.value, "file:") && !StartsWith(n.version.value, "git")
  }

  function ReachabilityOf(n: Node, depth: nat): Reachability {
    if n.dev then DevOnly else if depth == 0 then RuntimeDirect else RuntimeTransitive
  }

  function ReportOf(n: Node, depth: nat, via: seq<string>): Dependency
    requires FromRegistry(n)
  {
    Found(Npm, n.name, n.version.value, n.version.value, ReachabilityOf(n, depth), true, depth, via)
  }

  /** What a tree at this depth reports: each node, then what is nested in it, in order. */
  function Reports(tree: seq<Node>, depth: nat, via: seq<string>): seq<Dependency>
    decreases tree
  {
    if depth > MAX_WALK_DEPTH || tree == [] then []
    else
      var last := tree[|tree| - 1];
      Reports(tree[..|tree| - 1], depth, via)
      + (if FromRegistry(last) then [ReportOf(last, depth, via)] else [])
      + Reports(last.nested, depth + 1, via + [last.name])
  }

  method ParseLockV1(tree: seq<Node>, depth: nat, via: seq<string>, before: seq<Dependency>)
    returns (deps: seq<Dependency>)
    ensures deps == before + Reports(tree, depth, via)
    decreases tree
  {
    deps := before;
    if depth > MAX_WALK_DEPTH {
      return;
    }
    for i := 0 to |tree|
      invariant deps == before + Reports(tree[..i], depth, via)
    {
      var node := tree[i];
      assert tree[..i + 1][..i] == tree[..i];
      if FromRegistry(node) {
        deps := deps + [ReportOf(node, depth, via)];
      }
      deps := ParseLockV1(node.nested, depth + 1, via + [node.name], deps);
    }
    assert tree[..|tree|] == tree;
  }

  // ---------- the chains of the tree ----------

  /** A chain of nodes from the top of the tree downwards. */
  ghost predicate IsPath(tree: seq<Node>, path: seq<Node>)
    decreases |path|
  {
    path != [] && path[0] in tree && (|path| > 1 ==> IsPath(path[0].nested, path[1..]))
  }

  function Names(path: seq<Node>): (r: seq<string>)
    ensures |r| == |path|
  {
    if path == [] then [] else [path[0].name] + Names(path[1..])
  }

  /** `d` is what the last node of the path is reported as, found through the ones before it. */
  ghost predicate ReportedAt(path: seq<Node>, depth: nat, via: seq<string>, d: Dependency)
    requires path != []
  {
    var n := |path| - 1;
    FromRegistry(path[n]) && d == ReportOf(path[n], depth + n, via + Names(path[..n]))
  }

  /** The path ends at most 64 steps below the direct dependencies. */
  ghost predicate Explains(tree: seq<Node>, depth: nat, via: seq<string>, path: seq<Node>, d: Dependency) {
    IsPath(tree, path) && depth + |path| - 1 <= MAX_WALK_DEPTH && ReportedAt(path, depth, via, d)
  }

  /** Going one node further down the path. */
  lemma ReportedBelow(path: seq<Node>, depth: nat, via: seq<string>, d: Dependency)
    requires |path| > 1
    ensures ReportedAt(path, depth, via, d) <==> ReportedAt(path[1..], depth + 1, via + [path[0].name], d)
  {
    var n := |path| - 1;
    assert path[1..][..n - 1] == path[..n][1..];
    assert via + ([path[0].name] + Names(path[..n][1..])) == via + [path[0].name] + Names(path[..n][1..]);
  }

  lemma ExplainedBelow(tree: seq<Node>, depth: nat, via: seq<string>, node: Node, path: seq<Node>, d: Dependency)
    requires node in tree && Explains(node.nested, depth + 1, via + [node.name], path, d)
    ensures Explains(tree, depth, via, [node] + path, d)
  {
    assert ([node] + path)[1..] == path;
    ReportedBelow([node] + path, depth, via, d);
  }

  lemma ExplainedHere(tree: seq<Node>, depth: nat, via: seq<string>, node: Node)
    requires node in tree && FromRegistry(node) && depth <= MAX_WALK_DEPTH
    ensures Explains(tree, depth, via, [node], ReportOf(node, depth, via))
  {
    assert via + Names([]) == via;
  }

  /** Every reported dependency has a path that explains it. */
  lemma {:induction false} ReportIsExplained(tree: seq<Node>, depth: nat, via: seq<string>, d: Dependency)
    returns (path: seq<Node>)
    requires d in Reports(tree, depth, via)
    ensures Explains(tree, depth, via, path, d)
    decreases tree
  {
    var front, last := tree[..|tree| - 1], tree[|tree| - 1];
    if d in Reports(front, depth, via) {
      path := ReportIsExplained(front, depth, via, d);
      assert path[0] in tree;
    } else if d in Reports(last.nested, depth + 1, via + [last.name]) {
      path := ReportIsExplained(last.nested, depth + 1, via + [last.name], d);
      ExplainedBelow(tree, depth, via, last, path, d);
      path := [last] + path;
    } else {
      ExplainedHere(tree, depth, via, last);
      path := [last];
    }
  }

  /** Everything at the end of a path is reported. */
  lemma {:induction false} ExplainedIsReported(
    tree: seq<Node>, depth: nat, via: seq<string>, path: seq<Node>, d: Dependency)
    requires Explains(tree, depth, via, path, d)
    ensures d in Reports(tree, depth, via)
    decreases tree
  {
    var front, last := tree[..|tree| - 1], tree[|tree| - 1];
    assert tree == front + [last];
    if path[0] in front {
      ExplainedIsReported(front, depth, via, path, d);
    } else if |path| > 1 {
      ReportedBelow(path, depth, via, d);
      ExplainedIsReported(last.nested, depth + 1, via + [last.name], path[1..], d);
    } else {
      assert via + Names([]) == via;
    }
  }

  /**
    A dependency is reported exactly when some chain of at most 65 nodes ends in it: its depth is
    the number of nodes above it and its path is their names.
  */
  lemma ReportsAreTheChains(tree: seq<Node>, d: Dependency)
    ensures d in Reports(tree, 0, []) <==> exists path :: Explains(tree, 0, [], path, d)
  {
    if d in Reports(tree, 0, []) {
      var path := ReportIsExplained(tree, 0, [], d);
    }
    if path :| Explains(tree, 0, [], path, d) {
      ExplainedIsReported(tree, 0, [], path, d);
    }
  }

  /** Depth and path always tell the same story. */
  lemma DepthIsPathLength(tree: seq<Node>, d: Dependency)
    requires d in Reports(tree, 0, [])
    ensures d.depth == |d.via| <= MAX_WALK_DEPTH
    ensures d.reachability == RuntimeDirect ==> d.via == []
  {
    var path := ReportIsExplained(tree, 0, [], d);
  }

  // ---------- in the words of the lockfile ----------

  /** The node is installed from the registry at this version. */
  predicate HasRegistryVersion(n: Node, version: string) {
    n.version == Some(version) && version != "" && !("file:" <= version) && !("git" <= version)
  }

  /** What the lockfile says of a node this deep, found through these names. */
  predicate IsAsRecorded(d: Dependency, n: Node, via: seq<string>) {
    && d.ecosystem == Npm && d.name == n.name && HasRegistryVersion(n, d.version)
    && d.versionExact && d.versionSpec == d.version && d.via == via && d.depth == |via|
    && d.reachability == (if n.dev then DevOnly else if via == [] then RuntimeDirect else RuntimeTransitive)
    && d.automated == Unknown && d.evidence == []
  }

  /** A chain of at most 65 nodes reports its last one as recorded. */
  ghost predicate RecordedAt(tree: seq<Node>, path: seq<Node>, d: Dependency) {
    IsPath(tree, path) && |path| <= 65 && IsAsRecorded(d, path[|path| - 1], Names(path[..|path| - 1]))
  }

  lemma ExplainsIsRecorded(tree: seq<Node>, path: seq<Node>, d: Dependency)
    ensures Explains(tree, 0, [], path, d) <==> RecordedAt(tree, path, d)
  {
    if path != [] {
      assert [] + Names(path[..|path| - 1]) == Names(path[..|path| - 1]);
    }
  }

  /** Reported is exactly what some chain records. */
  lemma ReportedIffRecorded(tree: seq<Node>, d: Dependency)
    ensures d in Reports(tree, 0, []) <==> exists path :: RecordedAt(tree, path, d)
  {
    ReportsAreTheChains(tree, d);
    forall path ensures Explains(tree, 0, [], path, d) <==> RecordedAt(tree, path, d) {
      ExplainsIsRecorded(tree, path, d);
    }
  }
}
