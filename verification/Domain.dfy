/** The shared vocabulary (app/core/types.py): dependencies, advisories and their values. */
module Domain {
  import opened Prelude
  import opened Text

  datatype Ecosystem = Npm | PyPI | Go | CratesIo | Maven

  /** How exposed a dependency is, from the manifest alone. */
  datatype Reachability = RuntimeDirect | RuntimeTransitive | DevOnly

  predicate ShipsToProduction(r: Reachability) {
    r != DevOnly
  }

  datatype AutomatedReachability = Reachable | PotentiallyReachable | NotObserved | Unknown

  datatype Evidence = Evidence(
    sourceFile: string, line: nat, importKind: string, importedPackage: string, dependencyPath: seq<string>)

  datatype Dependency = Dependency(
    ecosystem: Ecosystem,
    name: string,
    version: string,
    versionSpec: string,
    reachability: Reachability,
    versionExact: bool,
    automated: AutomatedReachability,
    evidence: seq<Evidence>,
    depth: nat,
    via: seq<string>)

  /** A dependency as the manifest parsers make them, before any source analysis. */
  function Found(
    ecosystem: Ecosystem, name: string, version: string, versionSpec: string, reachability: Reachability,
    versionExact: bool, depth: nat, via: seq<string>): Dependency
  {
    Dependency(ecosystem, name, version, versionSpec, reachability, versionExact, Unknown, [], depth, via)
  }

  type DependencyKey = (Ecosystem, string, string)

  function KeyOf(d: Dependency): DependencyKey {
    (d.ecosystem, d.name, d.version)
  }

  datatype Severity = UnknownSeverity | Low | Medium | High | Critical

  function SeverityRank(s: Severity): nat {
    match s
    case UnknownSeverity => 0
    case Low => 1
    case Medium => 2
    case High => 3
    case Critical => 4
  }

  datatype AffectedRange = AffectedRange(
    introduced: Option<string>, fixed: Option<string>, lastAffected: Option<string>)

  datatype AffectedPackage = AffectedPackage(
    ecosystem: Ecosystem, name: string, ranges: seq<AffectedRange>, versions: seq<string>)

  datatype Vulnerability = Vulnerability(
    id: string, aliases: seq<string>, severity: Severity, affected: seq<AffectedPackage>, withdrawn: bool)

  predicate IsMalicious(v: Vulnerability) {
    StartsWith(Upper(v.id), "MAL-")
  }

  /** The upper-cased identifiers among `ids` that are CVEs, first occurrences only. */
  function CvesAmong(ids: seq<string>): seq<string> {
    if ids == [] then []
    else
      var front, last := CvesAmong(ids[..|ids| - 1]), Upper(ids[|ids| - 1]);
      if StartsWith(last, "CVE-") && last !in front then front + [last] else front
  }

  function CveIds(v: Vulnerability): seq<string> {
    CvesAmong([v.id] + v.aliases)
  }

  lemma {:induction false} CvesAmongIff(ids: seq<string>, c: string)
    ensures c in CvesAmong(ids) <==> "CVE-" <= c && exists i :: i in ids && Upper(i) == c
    decreases |ids|
  {
    if ids != [] {
      var front, last := ids[..|ids| - 1], ids[|ids| - 1];
      assert ids == front + [last];
      CvesAmongIff(front, c);
      assert Upper(last) == c ==> last in ids;
      if i :| i in ids && Upper(i) == c {
        assert i in front || i == last;
      }
    }
  }

  /** `c` is a CVE the advisory goes by, under its own identifier or an alias. */
  ghost predicate GoesBy(v: Vulnerability, c: string) {
    "CVE-" <= c && exists i :: (i == v.id || i in v.aliases) && Upper(i) == c
  }

  /** The CVEs of an advisory are its own identifier and its aliases, upper-cased, as far as they are CVEs. */
  lemma CveIdsIff(v: Vulnerability, c: string)
    ensures c in CveIds(v) <==> GoesBy(v, c)
  {
    var ids := [v.id] + v.aliases;
    CvesAmongIff(ids, c);
    if i :| i in ids && Upper(i) == c {
      assert i == v.id || i in v.aliases;
    }
    if i :| (i == v.id || i in v.aliases) && Upper(i) == c {
      assert i in ids;
    }
  }
}
