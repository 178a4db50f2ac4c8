/**
  Triage (app/core/matching.py, `MatchPolicy`, `triage`, `_epss_for`, `_matching_affected`): is a
  finding worth interrupting someone for?
*/
module Triage {
  import opened Prelude
  import opened Text
  import opened Domain
  import opened Versions

  datatype MatchPolicy = MatchPolicy(
    alwaysAlertOnKev: bool,
    directThreshold: Severity,
    transitiveThreshold: Severity,
    alertOnDevDependencies: bool,
    devThreshold: Option<Severity>,
    maxDepth: Option<int>,
    epssThreshold: Option<real>,
    ignoredIds: set<string>,
    ignoredPackages: set<string>)

  const DEFAULT_POLICY := MatchPolicy(true, High, Critical, false, None, None, None, {}, {})

  /** What a decision is taken against: the catalogues, and the libraries that read PEP 440 and globs. */
  datatype Feeds = Feeds(
    kev: set<string>,
    epss: map<string, (real, real)>,
    pep: Pep440,
    glob: (string, string) -> bool)

  datatype Verdict = Actionable | Suppressed | NotAffected

  datatype ActionableReason =
    MaliciousPackage | LikelyToBeExploited | ExploitedInWild | CriticalInProduction | HighSeverityDirect

  datatype SuppressionReason =
    Withdrawn | DevOnlyDependency | TransitiveNotDirect | BelowSeverityThreshold | IgnoredByRule

  datatype Decision = Decision(
    dependency: Dependency,
    vulnerability: Vulnerability,
    verdict: Verdict,
    severity: Severity,
    kev: bool,
    fixedVersion: Option<string>,
    actionableReason: Option<ActionableReason>,
    suppressionReason: Option<SuppressionReason>,
    epssScore: Option<real>,
    epssPercentile: Option<real>,
    ignoreOverridden: bool)

  // ---------- the pieces of a decision ----------

  predicate AtLeast(a: Severity, b: Severity) {
    SeverityRank(a) >= SeverityRank(b)
  }

  predicate WithinDepth(p: MatchPolicy, d: Dependency) {
    p.maxDepth.None? || d.depth <= p.maxDepth.value
  }

  predicate Ignores(p: MatchPolicy, v: Vulnerability, d: Dependency, f: Feeds) {
    || (exists id :: id in [v.id] + v.aliases + CveIds(v) && Upper(id) in p.ignoredIds)
    || (exists pattern :: pattern in p.ignoredPackages && f.glob(pattern, Lower(Strip(d.name))))
  }

  function ThresholdFor(p: MatchPolicy, r: Reachability): Severity {
    if r == RuntimeDirect then p.directThreshold
    else if r == DevOnly && p.devThreshold.Some? then p.devThreshold.value
    else p.transitiveThreshold
  }

  predicate IsKev(v: Vulnerability, kev: set<string>) {
    exists k :: k in kev && Upper(k) in CveIds(v)
  }

  /** The score of the highest-scored of these CVEs, the first one among equals. */
  function BestEpss(cves: seq<string>, index: map<string, (real, real)>): Option<(real, real)> {
    if cves == [] then None
    else
      var front, last := BestEpss(cves[..|cves| - 1], index), Upper(cves[|cves| - 1]);
      if last in index && (front.None? || index[last].0 > front.value.0) then Some(index[last]) else front
  }

  method EpssFor(v: Vulnerability, index: map<string, (real, real)>) returns (best: Option<(real, real)>)
    ensures best == BestEpss(CveIds(v), index)
    ensures best.Some? ==> exists cve :: cve in CveIds(v) && Upper(cve) in index && index[Upper(cve)] == best.value
    ensures forall cve :: cve in CveIds(v) && Upper(cve) in index ==> best.Some? && index[Upper(cve)].0 <= best.value.0
  {
    best := None;
    var cves := CveIds(v);
    for i := 0 to |cves|
      invariant best == BestEpss(cves[..i], index)
      invariant best.Some? ==> exists cve :: cve in cves && Upper(cve) in index && index[Upper(cve)] == best.value
      invariant forall k :: 0 <= k < i && Upper(cves[k]) in index ==>
        best.Some? && index[Upper(cves[k])].0 <= best.value.0
    {
      assert cves[..i + 1][..i] == cves[..i];
      var cve := Upper(cves[i]);
      if cve in index && (best.None? || index[cve].0 > best.value.0) {
        assert cves[i] in cves;
        best := Some(index[cve]);
      }
    }
    assert cves[..|cves|] == cves;
  }

  /** The first advisory entry for this package that covers the installed version. */
  function MatchingAffected(d: Dependency, affected: seq<AffectedPackage>, f: Feeds): Option<AffectedPackage> {
    if affected == [] then None
    else if affected[0].ecosystem == d.ecosystem && Lower(affected[0].name) == Lower(d.name)
            && IsAffected(SchemeOf(d.ecosystem, f.pep), d.version, affected[0])
    then Some(affected[0])
    else MatchingAffected(d, affected[1..], f)
  }

  // ---------- the decision ----------

  /** What the layers look at, for an affected pair. */
  datatype Situation = Situation(
    withdrawn: bool, malicious: bool, kev: bool, ignored: bool, score: Option<real>,
    severity: Severity, reachability: Reachability)

  datatype Ruling = Raise(why: ActionableReason) | File(reason: SuppressionReason)

  /** The layers, in order. */
  function Judge(p: MatchPolicy, s: Situation): Ruling {
    if s.withdrawn then File(Withdrawn)
    else if s.malicious then Raise(MaliciousPackage)
    else if s.kev && p.alwaysAlertOnKev then Raise(ExploitedInWild)
    else if s.ignored then File(IgnoredByRule)
    else if p.epssThreshold.Some? && s.score.Some? && s.score.value >= p.epssThreshold.value then
      Raise(LikelyToBeExploited)
    else if !ShipsToProduction(s.reachability) && p.devThreshold.None? && !p.alertOnDevDependencies then
      File(DevOnlyDependency)
    else if !ShipsToProduction(s.reachability)
            && p.devThreshold.Some? && !AtLeast(s.severity, p.devThreshold.value) then
      File(DevOnlyDependency)
    else if AtLeast(s.severity, ThresholdFor(p, s.reachability)) then
      Raise(if s.reachability == RuntimeDirect && s.severity != Critical then HighSeverityDirect
            else CriticalInProduction)
    else if s.reachability == RuntimeTransitive && AtLeast(s.severity, p.directThreshold) then File(TransitiveNotDirect)
    else File(BelowSeverityThreshold)
  }

  function ScoreOf(v: Vulnerability, f: Feeds): Option<real> {
    var best := BestEpss(CveIds(v), f.epss);
    if best.Some? then Some(best.value.0) else None
  }

  function PercentileOf(v: Vulnerability, f: Feeds): Option<real> {
    var best := BestEpss(CveIds(v), f.epss);
    if best.Some? then Some(best.value.1) else None
  }

  function SituationOf(d: Dependency, v: Vulnerability, p: MatchPolicy, f: Feeds): Situation {
    Situation(
      v.withdrawn, IsMalicious(v), IsKev(v, f.kev), Ignores(p, v, d, f), ScoreOf(v, f), v.severity, d.reachability)
  }

  predicate Affects(d: Dependency, v: Vulnerability, f: Feeds) {
    MatchingAffected(d, v.affected, f).Some?
  }

  function Triage(d: Dependency, v: Vulnerability, p: MatchPolicy, f: Feeds): Decision {
    if !Affects(d, v, f) then
      Decision(d, v, NotAffected, v.severity, IsKev(v, f.kev), None, None, None, None, None, false)
    else
      var fixedVersion :=
        FirstFix(SchemeOf(d.ecosystem, f.pep), d.version, MatchingAffected(d, v.affected, f).value.ranges);
      Decide(d, v, Judge(p, SituationOf(d, v, p, f)), IsKev(v, f.kev), fixedVersion, ScoreOf(v, f), PercentileOf(v, f),
        Ignores(p, v, d, f))
  }

  /** A ruling written up as a decision; an ignore rule set aside is flagged. */
  function Decide(
    d: Dependency, v: Vulnerability, ruling: Ruling, kev: bool, fixedVersion: Option<string>,
    score: Option<real>, percentile: Option<real>, ignored: bool): Decision
  {
    match ruling
    case Raise(why) =>
      Decision(d, v, Actionable, v.severity, kev, fixedVersion, Some(why), None, score, percentile, ignored)
    case File(reason) =>
      Decision(d, v, Suppressed, v.severity, kev, fixedVersion, None, Some(reason), score, percentile, false)
  }

  // ---------- what the layers amount to ----------

  /** The rank a severity must reach to be raised on its own; 5 is out of reach. */
  function Floor(p: MatchPolicy, r: Reachability): nat {
    match r
    case RuntimeDirect => SeverityRank(p.directThreshold)
    case RuntimeTransitive => SeverityRank(p.transitiveThreshold)
    case DevOnly =>
      if p.devThreshold.Some? then SeverityRank(p.devThreshold.value)
      else if p.alertOnDevDependencies then SeverityRank(p.transitiveThreshold)
      else 5
  }

  predicate Gated(p: MatchPolicy, v: Vulnerability, f: Feeds) {
    p.epssThreshold.Some? && ScoreOf(v, f).Some? && ScoreOf(v, f).value >= p.epssThreshold.value
  }

  /** Surfaced whatever rules the project has written. */
  predicate Unsilenceable(p: MatchPolicy, v: Vulnerability, f: Feeds) {
    IsMalicious(v) || (p.alwaysAlertOnKev && IsKev(v, f.kev))
  }

  lemma RaisedIff(p: MatchPolicy, s: Situation)
    ensures Judge(p, s).Raise? <==>
      && !s.withdrawn
      && (|| s.malicious
          || (s.kev && p.alwaysAlertOnKev)
          || (!s.ignored
              && ((p.epssThreshold.Some? && s.score.Some? && s.score.value >= p.epssThreshold.value)
                  || SeverityRank(s.severity) >= Floor(p, s.reachability))))
  {
  }

  /** The verdict in one sentence. */
  lemma ActionableIff(d: Dependency, v: Vulnerability, p: MatchPolicy, f: Feeds)
    ensures Triage(d, v, p, f).verdict == Actionable <==>
      && Affects(d, v, f) && !v.withdrawn
      && (Unsilenceable(p, v, f)
          || (!Ignores(p, v, d, f) && (Gated(p, v, f) || SeverityRank(v.severity) >= Floor(p, d.reachability))))
    ensures Triage(d, v, p, f).verdict == NotAffected <==> !Affects(d, v, f)
  {
    RaisedIff(p, SituationOf(d, v, p, f));
  }

  /** Each verdict carries exactly the one kind of reason it needs. */
  lemma OneReason(d: Dependency, v: Vulnerability, p: MatchPolicy, f: Feeds)
    ensures
      var r := Triage(d, v, p, f);
      && (r.actionableReason.Some? <==> r.verdict == Actionable)
      && (r.suppressionReason.Some? <==> r.verdict == Suppressed)
      && (r.ignoreOverridden <==> r.verdict == Actionable && Ignores(p, v, d, f))
  {
  }

  /**
    The default policy is the three documented rules, with malware beside them: exploited, or
    critical and shipped, or high and declared by the project itself.
  */
  lemma DefaultPolicyIff(d: Dependency, v: Vulnerability, f: Feeds)
    ensures Triage(d, v, DEFAULT_POLICY, f).verdict == Actionable <==>
      && Affects(d, v, f) && !v.withdrawn
      && (|| IsMalicious(v)
          || IsKev(v, f.kev)
          || (v.severity == Critical && ShipsToProduction(d.reachability))
          || (AtLeast(v.severity, High) && d.reachability == RuntimeDirect))
  {
    ActionableIff(d, v, DEFAULT_POLICY, f);
    DefaultFloors(d.reachability, v.severity);
  }

  lemma DefaultFloors(r: Reachability, s: Severity)
    ensures SeverityRank(s) >= Floor(DEFAULT_POLICY, r) <==>
      (s == Critical && ShipsToProduction(r)) || (AtLeast(s, High) && r == RuntimeDirect)
  {
  }

  // ---------- monotonicity ----------

  /** `q` is no stricter than `p`. */
  ghost predicate Looser(q: MatchPolicy, p: MatchPolicy) {
    && q.ignoredIds <= p.ignoredIds && q.ignoredPackages <= p.ignoredPackages
    && (p.alwaysAlertOnKev ==> q.alwaysAlertOnKev)
    && (forall r :: Floor(q, r) <= Floor(p, r))
    && (p.epssThreshold.Some? ==> q.epssThreshold.Some? && q.epssThreshold.value <= p.epssThreshold.value)
  }

  /** `g` knows at least as much as `f`: more KEV ids, more or higher EPSS scores, the same libraries. */
  ghost predicate KnowsMore(g: Feeds, f: Feeds) {
    && f.kev <= g.kev
    && (forall k :: k in f.epss ==> k in g.epss && f.epss[k].0 <= g.epss[k].0)
    && g.pep == f.pep && g.glob == f.glob
  }

  lemma {:induction false} BestEpssGrows(cves: seq<string>, f: map<string, (real, real)>, g: map<string, (real, real)>)
    requires forall k :: k in f ==> k in g && f[k].0 <= g[k].0
    requires BestEpss(cves, f).Some?
    ensures BestEpss(cves, g).Some? && BestEpss(cves, f).value.0 <= BestEpss(cves, g).value.0
    decreases |cves|
  {
    if BestEpss(cves[..|cves| - 1], f).Some? {
      BestEpssGrows(cves[..|cves| - 1], f, g);
    }
  }

  lemma FewerIgnores(
    p: MatchPolicy, q: MatchPolicy, v: Vulnerability, worse: Vulnerability, d: Dependency, f: Feeds, g: Feeds)
    requires Looser(q, p) && g.glob == f.glob && worse == v.(severity := worse.severity)
    ensures Ignores(q, worse, d, g) ==> Ignores(p, v, d, f)
  {
    assert CveIds(worse) == CveIds(v);
  }

  /** More severity, more knowledge or a looser policy never turns actionable into suppressed. */
  lemma TriageIsMonotone(
    d: Dependency, v: Vulnerability, worse: Vulnerability, p: MatchPolicy, q: MatchPolicy, f: Feeds, g: Feeds)
    requires worse == v.(severity := worse.severity) && AtLeast(worse.severity, v.severity)
    requires Looser(q, p) && KnowsMore(g, f)
    requires Triage(d, v, p, f).verdict == Actionable
    ensures Triage(d, worse, q, g).verdict == Actionable
  {
    ActionableIff(d, v, p, f);
    ActionableIff(d, worse, q, g);
    SameMatch(d, v.affected, f, g);
    FewerIgnores(p, q, v, worse, d, f, g);
    assert CveIds(worse) == CveIds(v);
    if Gated(p, v, f) && BestEpss(CveIds(v), f.epss).Some? {
      BestEpssGrows(CveIds(v), f.epss, g.epss);
    }
    if IsKev(v, f.kev) {
      var k :| k in f.kev && Upper(k) in CveIds(v);
      assert k in g.kev;
    }
    assert Floor(q, d.reachability) <= Floor(p, d.reachability);
  }

  lemma {:induction false} SameMatch(d: Dependency, affected: seq<AffectedPackage>, f: Feeds, g: Feeds)
    requires f.pep == g.pep
    ensures MatchingAffected(d, affected, f) == MatchingAffected(d, affected, g)
    decreases |affected|
  {
    if affected != [] {
      SameMatch(d, affected[1..], f, g);
    }
  }

  /** Malware and, where KEV alerts, exploited findings survive every ignore set. */
  lemma IgnoresCannotSilence(
    d: Dependency, v: Vulnerability, p: MatchPolicy, f: Feeds, ids: set<string>, packages: set<string>)
    requires Affects(d, v, f) && !v.withdrawn && Unsilenceable(p, v, f)
    ensures Triage(d, v, p.(ignoredIds := ids, ignoredPackages := packages), f).verdict == Actionable
  {
    ActionableIff(d, v, p.(ignoredIds := ids, ignoredPackages := packages), f);
  }

  // ---------- when "critical in production" is literally true ----------

  /** The finding, had it had this severity and this exposure. */
  function Variant(d: Dependency, v: Vulnerability, s: Severity, r: Reachability, p: MatchPolicy, f: Feeds): Decision {
    Triage(d.(reachability := r), v.(severity := s), p, f)
  }

  lemma {:induction false} ExposureDoesNotAffectMatching(
    d: Dependency, affected: seq<AffectedPackage>, r: Reachability, f: Feeds)
    ensures MatchingAffected(d.(reachability := r), affected, f) == MatchingAffected(d, affected, f)
    decreases |affected|
  {
    if affected != [] {
      ExposureDoesNotAffectMatching(d, affected[1..], r, f);
    }
  }

  lemma VariantSituation(d: Dependency, v: Vulnerability, s: Severity, r: Reachability, p: MatchPolicy, f: Feeds)
    requires Affects(d, v, f)
    ensures Variant(d, v, s, r, p, f).actionableReason ==
      var ruling := Judge(p, SituationOf(d, v, p, f).(severity := s, reachability := r));
      if ruling.Raise? then Some(ruling.why) else None
  {
    ExposureDoesNotAffectMatching(d, v.affected, r, f);
    assert CveIds(v.(severity := s)) == CveIds(v);
    assert SituationOf(d.(reachability := r), v.(severity := s), p, f)
        == SituationOf(d, v, p, f).(severity := s, reachability := r);
  }

  lemma JudgedLiterallyIff(p: MatchPolicy, base: Situation)
    requires !base.withdrawn && !base.malicious && !(base.kev && p.alwaysAlertOnKev) && !base.ignored
    requires !(p.epssThreshold.Some? && base.score.Some? && base.score.value >= p.epssThreshold.value)
    ensures (forall s, r :: Judge(p, base.(severity := s, reachability := r)) == Raise(CriticalInProduction)
                            ==> s == Critical && ShipsToProduction(r))
       <==> p.transitiveThreshold == Critical && Floor(p, DevOnly) == 5
  {
    assert Judge(p, base.(severity := p.transitiveThreshold, reachability := RuntimeTransitive))
        == Raise(CriticalInProduction);
    if Floor(p, DevOnly) < 5 {
      assert Judge(p, base.(severity := Critical, reachability := DevOnly)) == Raise(CriticalInProduction);
    }
  }

  /**
    The reason "critical severity, ships to production" is a threshold decision, not a check of
    those words: for a finding decided by severity it is literally true at every severity and
    exposure exactly when the transitive threshold is critical and dev findings cannot alert.
  */
  lemma CriticalReasonIsLiteralIff(d: Dependency, v: Vulnerability, p: MatchPolicy, f: Feeds)
    requires Affects(d, v, f) && !v.withdrawn && !Unsilenceable(p, v, f) && !Ignores(p, v, d, f) && !Gated(p, v, f)
    ensures (forall s, r :: Variant(d, v, s, r, p, f).actionableReason == Some(CriticalInProduction)
                            ==> s == Critical && ShipsToProduction(r))
       <==> p.transitiveThreshold == Critical && Floor(p, DevOnly) == 5
  {
    var base := SituationOf(d, v, p, f);
    forall s, r
      ensures Variant(d, v, s, r, p, f).actionableReason == Some(CriticalInProduction) <==>
        Judge(p, base.(severity := s, reachability := r)) == Raise(CriticalInProduction)
    {
      VariantSituation(d, v, s, r, p, f);
    }
    JudgedLiterallyIff(p, base);
  }

  // ---------- a finding it is not true of ----------

  const HIGH_TRANSITIVE_POLICY := DEFAULT_POLICY.(transitiveThreshold := High)

  function OneVersionAffected(name: string, version: string, s: Severity): Vulnerability {
    Vulnerability("GHSA-0", [], s, [AffectedPackage(Npm, name, [], [version])], false)
  }

  function NpmDependency(name: string, version: string, r: Reachability): Dependency {
    Found(Npm, name, version, version, r, true, if r == RuntimeDirect then 0 else 1, [])
  }

  lemma OneVersionIsAffected(name: string, version: string, s: Severity, r: Reachability, f: Feeds)
    requires Parses(Npm, f.pep, version)
    ensures Affects(NpmDependency(name, version, r), OneVersionAffected(name, version, s), f)
  {
    var affected := OneVersionAffected(name, version, s).affected[0];
    assert version in affected.versions;
    assert Enumerated(SchemeOf(Npm, f.pep), version, affected.versions);
  }

  lemma GhsaIsNoCve(name: string, version: string, s: Severity)
    ensures CveIds(OneVersionAffected(name, version, s)) == []
    ensures !IsMalicious(OneVersionAffected(name, version, s))
  {
    assert Upper("GHSA-0")[0] == 'G';
    assert CvesAmong(["GHSA-0"]) == CvesAmong([]);
  }

  lemma HighTransitiveIsJudgedCritical(s: Situation)
    requires !s.withdrawn && !s.malicious && !s.kev && !s.ignored
    requires s.severity == High && s.reachability == RuntimeTransitive
    ensures Judge(HIGH_TRANSITIVE_POLICY, s) == Raise(CriticalInProduction)
  {
  }

  /**
    A high, transitive finding is reported as "critical severity, ships to production" once a
    project lowers its transitive threshold to high, whatever the feeds hold.
  */
  lemma HighIsReportedAsCritical(name: string, version: string, f: Feeds)
    requires Parses(Npm, f.pep, version)
    ensures
      var r := Triage(
        NpmDependency(name, version, RuntimeTransitive), OneVersionAffected(name, version, High),
        HIGH_TRANSITIVE_POLICY, f);
      r.severity == High && r.actionableReason == Some(CriticalInProduction)
  {
    var d, v := NpmDependency(name, version, RuntimeTransitive), OneVersionAffected(name, version, High);
    OneVersionIsAffected(name, version, High, RuntimeTransitive, f);
    GhsaIsNoCve(name, version, High);
    HighTransitiveIsJudgedCritical(SituationOf(d, v, HIGH_TRANSITIVE_POLICY, f));
  }

  /** And a finding that does not ship is, once dev dependencies may alert. */
  lemma DevIsReportedAsShipping(name: string, version: string, f: Feeds)
    requires Parses(Npm, f.pep, version)
    ensures
      var r := Triage(
        NpmDependency(name, version, DevOnly), OneVersionAffected(name, version, Critical),
        DEFAULT_POLICY.(alertOnDevDependencies := true), f);
      !ShipsToProduction(r.dependency.reachability) && r.actionableReason == Some(CriticalInProduction)
  {
    OneVersionIsAffected(name, version, Critical, DevOnly, f);
    GhsaIsNoCve(name, version, Critical);
  }
}
