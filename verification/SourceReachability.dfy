/**
  Conservative source reachability (app/core/reachability.py, `analyze_node_reachability`): a
  positive observation survives any uncertainty, a negative conclusion survives none.
*/
module SourceReachability {
  import opened Prelude
  import opened Domain
  import Triage
  import Versions

  const MAX_EVIDENCE := 8

  datatype SourceFile = SourceFile(path: string, content: string)

  datatype SourceBundle = SourceBundle(files: seq<SourceFile>, complete: bool)

  datatype Import = Import(
    sourceFile: string, line: nat, kind: string, specifier: string, package: string, production: bool)

  /**
    The per-file analysis, which is not part of this model: the label a path is accepted under, if
    any, and a file's imports with whether it also has a non-literal one.
  */
  datatype Analyser = Analyser(
    accept: string -> Option<string>,
    imports: (string, string) -> (seq<Import>, bool))

  // ---------- what the bundle says ----------

  function ImportsOf(file: SourceFile, a: Analyser): seq<Import> {
    match a.accept(file.path)
    case None => []
    case Some(path) => a.imports(path, file.content).0
  }

  /** The file leaves something unknown: its path is not accepted, or it imports dynamically. */
  predicate Opaque(file: SourceFile, a: Analyser) {
    match a.accept(file.path)
    case None => true
    case Some(path) => a.imports(path, file.content).1
  }

  predicate Uncertain(b: SourceBundle, a: Analyser) {
    !b.complete || exists file :: file in b.files && Opaque(file, a)
  }

  ghost predicate Imported(b: SourceBundle, a: Analyser, package: string) {
    exists file, item :: file in b.files && item in ImportsOf(file, a) && item.package == package
  }

  ghost predicate ImportedInProduction(b: SourceBundle, a: Analyser, package: string) {
    exists file, item :: file in b.files && item in ImportsOf(file, a) && item.package == package && item.production
  }

  function AllImports(files: seq<SourceFile>, a: Analyser): seq<Import> {
    if files == [] then []
    else AllImports(files[..|files| - 1], a) + ImportsOf(files[|files| - 1], a)
  }

  /** The observations of one package, in the order they were made. */
  function About(imports: seq<Import>, package: string): seq<Import> {
    if imports == [] then []
    else
      var last := imports[|imports| - 1];
      About(imports[..|imports| - 1], package) + (if last.package == package then [last] else [])
  }

  function EvidenceFrom(items: seq<Import>, d: Dependency): (r: seq<Evidence>)
    ensures |r| == |items|
    ensures forall i :: 0 <= i < |items| ==>
      r[i] == Evidence(items[i].sourceFile, items[i].line, items[i].kind, items[i].package, d.via + [d.name])
  {
    if items == [] then []
    else
      var last := items[|items| - 1];
      EvidenceFrom(items[..|items| - 1], d)
      + [Evidence(last.sourceFile, last.line, last.kind, last.package, d.via + [d.name])]
  }

  function FirstOf(items: seq<Import>): seq<Import> {
    if |items| <= MAX_EVIDENCE then items else items[..MAX_EVIDENCE]
  }

  predicate AnyProduction(items: seq<Import>) {
    exists i :: 0 <= i < |items| && items[i].production
  }

  function Root(d: Dependency): string {
    if d.via == [] then "" else d.via[0]
  }

  /** The verdict on one npm dependency, given the observations and whether anything is unknown. */
  function Concluded(d: Dependency, direct: seq<Import>, root: seq<Import>, uncertain: bool): Dependency {
    if direct != [] then
      d.(automated := if AnyProduction(direct) then Reachable else PotentiallyReachable,
         evidence := EvidenceFrom(FirstOf(direct), d))
    else if d.depth > 0 && root != [] then
      d.(automated := PotentiallyReachable, evidence := EvidenceFrom(FirstOf(root), d))
    else
      d.(automated := if uncertain || (d.depth > 0 && d.via == []) then Unknown else NotObserved, evidence := [])
  }

  function Analysed(d: Dependency, b: SourceBundle, a: Analyser): Dependency {
    if d.ecosystem != Npm then d
    else
      var imports := AllImports(b.files, a);
      var root := if Root(d) == "" then [] else About(imports, Root(d));
      Concluded(d, About(imports, d.name), root, Uncertain(b, a))
  }

  // ---------- the analysis ----------

  type Index = map<string, seq<Import>>

  function Lookup(index: Index, package: string): seq<Import> {
    if package in index then index[package] else []
  }

  method IndexByPackage(imports: seq<Import>) returns (byPackage: Index)
    ensures forall package :: Lookup(byPackage, package) == About(imports, package)
  {
    byPackage := map[];
    for i := 0 to |imports|
      invariant forall package :: Lookup(byPackage, package) == About(imports[..i], package)
    {
      var item := imports[i];
      assert imports[..i + 1][..i] == imports[..i];
      ghost var before := byPackage;
      byPackage := byPackage[item.package := Lookup(byPackage, item.package) + [item]];
      forall package ensures Lookup(byPackage, package) == About(imports[..i + 1], package) {
        assert Lookup(before, package) == About(imports[..i], package);
      }
    }
    assert imports[..|imports|] == imports;
  }

  method AnalyzeNodeReachability(
    deps: seq<Dependency>, b: SourceBundle, a: Analyser) returns (analysed: seq<Dependency>)
    ensures |analysed| == |deps|
    ensures forall i :: 0 <= i < |deps| ==> analysed[i] == Analysed(deps[i], b, a)
  {
    var imports: seq<Import> := [];
    var uncertain := !b.complete;
    for i := 0 to |b.files|
      invariant imports == AllImports(b.files[..i], a)
      invariant uncertain <==> !b.complete || exists k :: 0 <= k < i && Opaque(b.files[k], a)
    {
      assert b.files[..i + 1][..i] == b.files[..i];
      var path := a.accept(b.files[i].path);
      if path.None? {
        uncertain := true;
        continue;
      }
      var (found, dynamic) := a.imports(path.value, b.files[i].content);
      imports := imports + found;
      if dynamic {
        uncertain := true;
      }
    }
    assert b.files[..|b.files|] == b.files;
    assert uncertain == Uncertain(b, a) by {
      if Uncertain(b, a) && b.complete {
        var file :| file in b.files && Opaque(file, a);
        var k :| 0 <= k < |b.files| && b.files[k] == file;
      }
      if uncertain && b.complete {
        var k :| 0 <= k < |b.files| && Opaque(b.files[k], a);
        assert b.files[k] in b.files;
      }
    }
    var byPackage := IndexByPackage(imports);
    analysed := [];
    for i := 0 to |deps|
      invariant |analysed| == i
      invariant forall k :: 0 <= k < i ==> analysed[k] == Analysed(deps[k], b, a)
    {
      var d := deps[i];
      if d.ecosystem != Npm {
        analysed := analysed + [d];
        continue;
      }
      var root := if Root(d) == "" then [] else Lookup(byPackage, Root(d));
      analysed := analysed + [Concluded(d, Lookup(byPackage, d.name), root, uncertain)];
    }
  }

  // ---------- observations and files ----------

  lemma {:induction false} AllImportsIff(files: seq<SourceFile>, a: Analyser, item: Import)
    ensures item in AllImports(files, a) <==> exists file :: file in files && item in ImportsOf(file, a)
    decreases |files|
  {
    if files != [] {
      var front, last := files[..|files| - 1], files[|files| - 1];
      assert files == front + [last];
      AllImportsIff(front, a, item);
    }
  }

  lemma {:induction false} AboutIff(imports: seq<Import>, package: string, item: Import)
    ensures item in About(imports, package) <==> item in imports && item.package == package
    decreases |imports|
  {
    if imports != [] {
      var front, last := imports[..|imports| - 1], imports[|imports| - 1];
      assert imports == front + [last];
      AboutIff(front, package, item);
    }
  }

  lemma ObservedIff(b: SourceBundle, a: Analyser, package: string)
    ensures About(AllImports(b.files, a), package) != [] <==> Imported(b, a, package)
    ensures AnyProduction(About(AllImports(b.files, a), package)) <==> ImportedInProduction(b, a, package)
  {
    var all := AllImports(b.files, a);
    var items := About(all, package);
    forall item
      ensures item in items <==>
        item.package == package && exists file :: file in b.files && item in ImportsOf(file, a)
    {
      AboutIff(all, package, item);
      AllImportsIff(b.files, a, item);
    }
    if items != [] {
      assert items[0] in items;
    }
    if AnyProduction(items) {
      var i :| 0 <= i < |items| && items[i].production;
      assert items[i] in items;
    }
  }

  // ---------- what each state means ----------

  /** The direct dependency it came in through, the first name of its path, is imported. */
  ghost predicate RootImported(d: Dependency, b: SourceBundle, a: Analyser) {
    d.depth > 0 && d.via != [] && d.via[0] != "" && Imported(b, a, d.via[0])
  }

  /** The four states, each by its exact condition on the bundle. */
  lemma StateIff(d: Dependency, b: SourceBundle, a: Analyser)
    requires d.ecosystem == Npm
    ensures Analysed(d, b, a).automated == Reachable <==> ImportedInProduction(b, a, d.name)
    ensures Analysed(d, b, a).automated == PotentiallyReachable <==>
      !ImportedInProduction(b, a, d.name) && (Imported(b, a, d.name) || RootImported(d, b, a))
    ensures Analysed(d, b, a).automated == NotObserved <==>
      && !Imported(b, a, d.name) && !RootImported(d, b, a)
      && !Uncertain(b, a) && (d.depth > 0 ==> d.via != [])
  {
    ObservedIff(b, a, d.name);
    if Root(d) != "" {
      ObservedIff(b, a, Root(d));
    }
  }

  predicate Positive(s: AutomatedReachability) {
    s == Reachable || s == PotentiallyReachable
  }

  /** A negative conclusion needs everything: a complete, fully read bundle and a known route. */
  lemma NotObservedIsEarned(d: Dependency, b: SourceBundle, a: Analyser)
    requires d.ecosystem == Npm && Analysed(d, b, a).automated == NotObserved
    ensures b.complete && (d.depth > 0 ==> d.via != [])
    ensures forall file :: file in b.files ==>
      && a.accept(file.path).Some?
      && !a.imports(a.accept(file.path).value, file.content).1
      && (forall item :: item in ImportsOf(file, a) ==>
           item.package != d.name && (d.depth > 0 && d.via != [] && d.via[0] != "" ==> item.package != d.via[0]))
  {
    StateIff(d, b, a);
    forall file | file in b.files ensures !Opaque(file, a) {
    }
    forall file, item | file in b.files && item in ImportsOf(file, a)
      ensures item.package != d.name && (d.depth > 0 && d.via != [] && d.via[0] != "" ==> item.package != d.via[0])
    {
      assert !Imported(b, a, d.name) && !RootImported(d, b, a);
    }
  }

  /** Every file of `b` is in `c`. */
  ghost predicate HasFilesOf(c: SourceBundle, b: SourceBundle) {
    forall file :: file in b.files ==> file in c.files
  }

  /** More files never lower a positive state, however uncertain the larger bundle is. */
  lemma MoreFilesKeepPositive(d: Dependency, b: SourceBundle, c: SourceBundle, a: Analyser)
    requires d.ecosystem == Npm && HasFilesOf(c, b)
    ensures Analysed(d, b, a).automated == Reachable ==> Analysed(d, c, a).automated == Reachable
    ensures Positive(Analysed(d, b, a).automated) ==> Positive(Analysed(d, c, a).automated)
  {
    StateIff(d, b, a);
    StateIff(d, c, a);
  }

  /** Losing completeness only turns "not observed" into "unknown". */
  lemma IncompleteOnlyForgetsNegatives(d: Dependency, b: SourceBundle, a: Analyser)
    requires d.ecosystem == Npm
    ensures
      var before, after := Analysed(d, b, a), Analysed(d, b.(complete := false), a);
      after == if before.automated == NotObserved then before.(automated := Unknown) else before
  {
  }

  /** Some accepted file really has this import, of the package itself or of the root it came in through. */
  ghost predicate Backed(e: Evidence, d: Dependency, b: SourceBundle, a: Analyser) {
    && e.dependencyPath == d.via + [d.name]
    && (e.importedPackage == d.name || (d.depth > 0 && d.via != [] && e.importedPackage == d.via[0]))
    && exists file, item :: file in b.files && item in ImportsOf(file, a)
         && item.sourceFile == e.sourceFile && item.line == e.line && item.package == e.importedPackage
  }

  lemma ObservationIsReal(b: SourceBundle, a: Analyser, package: string, item: Import)
    requires item in About(AllImports(b.files, a), package)
    ensures item.package == package && exists file :: file in b.files && item in ImportsOf(file, a)
  {
    AboutIff(AllImports(b.files, a), package, item);
    AllImportsIff(b.files, a, item);
  }

  lemma EvidenceFromIsBacked(d: Dependency, b: SourceBundle, a: Analyser, package: string, k: nat)
    requires package == d.name || (d.depth > 0 && d.via != [] && package == d.via[0])
    requires k < |EvidenceFrom(FirstOf(About(AllImports(b.files, a), package)), d)|
    ensures Backed(EvidenceFrom(FirstOf(About(AllImports(b.files, a), package)), d)[k], d, b, a)
  {
    var items := About(AllImports(b.files, a), package);
    assert items[k] in items && FirstOf(items)[k] == items[k];
    ObservationIsReal(b, a, package, items[k]);
  }

  /** The package the evidence is about: the dependency itself, or the root it came in through. */
  function EvidencePackage(d: Dependency, b: SourceBundle, a: Analyser): string {
    if About(AllImports(b.files, a), d.name) != [] then d.name else Root(d)
  }

  lemma EvidenceIsOfPackage(d: Dependency, b: SourceBundle, a: Analyser)
    requires d.ecosystem == Npm
    ensures
      var items, package := Analysed(d, b, a).evidence, EvidencePackage(d, b, a);
      items != [] ==>
        && (package == d.name || (d.depth > 0 && d.via != [] && package == d.via[0]))
        && items == EvidenceFrom(FirstOf(About(AllImports(b.files, a), package)), d)
  {
  }

  /** At most eight pieces of evidence, present exactly for the positive states, each from a real import. */
  lemma EvidenceIsBacked(d: Dependency, b: SourceBundle, a: Analyser)
    requires d.ecosystem == Npm
    ensures |Analysed(d, b, a).evidence| <= 8
    ensures Analysed(d, b, a).evidence != [] <==> Positive(Analysed(d, b, a).automated)
    ensures forall k :: 0 <= k < |Analysed(d, b, a).evidence| ==> Backed(Analysed(d, b, a).evidence[k], d, b, a)
  {
    EvidenceIsOfPackage(d, b, a);
    forall k | 0 <= k < |Analysed(d, b, a).evidence| ensures Backed(Analysed(d, b, a).evidence[k], d, b, a) {
      EvidenceFromIsBacked(d, b, a, EvidencePackage(d, b, a), k);
    }
  }

  lemma {:induction false} StateDoesNotAffectMatching(
    d: Dependency, e: Dependency, affected: seq<AffectedPackage>, f: Triage.Feeds)
    requires e == d.(automated := e.automated, evidence := e.evidence)
    ensures Triage.MatchingAffected(e, affected, f) == Triage.MatchingAffected(d, affected, f)
    decreases |affected|
  {
    if affected != [] {
      StateDoesNotAffectMatching(d, e, affected[1..], f);
    }
  }

  lemma DecideKeeps(d: Dependency, e: Dependency, v: Vulnerability, r: Triage.Ruling, kev: bool, fix: Option<string>,
                    score: Option<real>, percentile: Option<real>, ignored: bool)
    ensures Triage.Decide(e, v, r, kev, fix, score, percentile, ignored)
         == Triage.Decide(d, v, r, kev, fix, score, percentile, ignored).(dependency := e)
  {
  }

  /**
    What the analysis observes never stands in for severity: the decision on an analysed dependency
    is the decision on the dependency as the manifest gave it, whatever the sources say.
  */
  lemma AnalysisNeverDecides(
    d: Dependency, b: SourceBundle, a: Analyser, v: Vulnerability, p: Triage.MatchPolicy, f: Triage.Feeds)
    ensures Triage.Triage(Analysed(d, b, a), v, p, f)
         == Triage.Triage(d, v, p, f).(dependency := Analysed(d, b, a))
  {
    var e := Analysed(d, b, a);
    StateDoesNotAffectMatching(d, e, v.affected, f);
    var affected := Triage.MatchingAffected(d, v.affected, f);
    if affected.Some? {
      var s := Versions.SchemeOf(d.ecosystem, f.pep);
      DecideKeeps(
        d, e, v, Triage.Judge(p, Triage.SituationOf(d, v, p, f)), Triage.IsKev(v, f.kev),
        Versions.FirstFix(s, d.version, affected.value.ranges), Triage.ScoreOf(v, f), Triage.PercentileOf(v, f),
        Triage.Ignores(p, v, d, f));
    }
  }
}
