/**
  What triage decides (app/core/matching.py, `triage`), in the words of its inputs: the advisory's
  identifiers and entries, the catalogues, the installed version and the policy.
*/
module Verdicts {
  import opened Prelude
  import opened Text
  import opened Domain
  import opened Versions
  import opened Triage

  // ---------- what the inputs say ----------

  ghost predicate Exploited(v: Vulnerability, kev: set<string>) {
    exists k :: k in kev && GoesBy(v, Upper(k))
  }

  predicate IsMalware(v: Vulnerability) {
    "MAL-" <= Upper(v.id)
  }

  /** A rule names the advisory, by any of its identifiers, or the package. */
  ghost predicate Silenced(v: Vulnerability, d: Dependency, p: MatchPolicy, f: Feeds) {
    || (exists i :: (i == v.id || i in v.aliases) && Upper(i) in p.ignoredIds)
    || (exists pattern :: pattern in p.ignoredPackages && f.glob(pattern, Lower(Strip(d.name))))
  }

  /** The entry is about this package, and lists the version or has a range that holds it. */
  ghost predicate CoveredBy(d: Dependency, a: AffectedPackage, f: Feeds) {
    && a.ecosystem == d.ecosystem && Lower(a.name) == Lower(d.name)
    && Parses(d.ecosystem, f.pep, d.version)
    && ((exists u :: u in a.versions && Normalize(d.ecosystem, u) == Normalize(d.ecosystem, d.version))
        || (exists r :: r in a.ranges && InRange(SchemeOf(d.ecosystem, f.pep), d.version, r) == Some(true)))
  }

  ghost predicate IsAffected(d: Dependency, v: Vulnerability, f: Feeds) {
    exists a :: a in v.affected && CoveredBy(d, a, f)
  }

  /** From the mildest to the worst. */
  const SEVERITIES := [UnknownSeverity, Low, Medium, High, Critical]

  predicate AsSevereAs(s: Severity, t: Severity) {
    exists i, j :: 0 <= j <= i < |SEVERITIES| && SEVERITIES[i] == s && SEVERITIES[j] == t
  }

  /** Severity alone is enough, given how the package is used. */
  predicate SevereEnough(p: MatchPolicy, s: Severity, r: Reachability) {
    match r
    case RuntimeDirect => AsSevereAs(s, p.directThreshold)
    case RuntimeTransitive => AsSevereAs(s, p.transitiveThreshold)
    case DevOnly =>
      if p.devThreshold.Some? then AsSevereAs(s, p.devThreshold.value)
      else p.alertOnDevDependencies && AsSevereAs(s, p.transitiveThreshold)
  }

  /** Some CVE the advisory goes by scores at or above the gate the project set. */
  ghost predicate LikelyEnough(p: MatchPolicy, v: Vulnerability, f: Feeds) {
    p.epssThreshold.Some? && exists c :: c in f.epss && GoesBy(v, c) && f.epss[c].0 >= p.epssThreshold.value
  }

  // ---------- they are what triage looks at ----------

  lemma ExploitedIff(v: Vulnerability, kev: set<string>)
    ensures IsKev(v, kev) <==> Exploited(v, kev)
  {
    forall k | k in kev ensures Upper(k) in CveIds(v) <==> GoesBy(v, Upper(k)) {
      CveIdsIff(v, Upper(k));
    }
  }

  lemma SilencedIff(v: Vulnerability, d: Dependency, p: MatchPolicy, f: Feeds)
    ensures Ignores(p, v, d, f) <==> Silenced(v, d, p, f)
  {
    forall i ensures i in [v.id] + v.aliases <==> i == v.id || i in v.aliases {
    }
    forall c | c in CveIds(v) ensures exists i :: (i == v.id || i in v.aliases) && Upper(i) == Upper(c) {
      CveIdsIff(v, c);
      var i :| (i == v.id || i in v.aliases) && Upper(i) == c;
      UpperTwice(i);
    }
    if Silenced(v, d, p, f) {
      if i :| (i == v.id || i in v.aliases) && Upper(i) in p.ignoredIds {
        assert i in [v.id] + v.aliases + CveIds(v);
      }
    }
  }

  /** The entry found is the first that covers the installed version. */
  lemma {:induction false} FirstCovering(d: Dependency, affected: seq<AffectedPackage>, f: Feeds) returns (i: nat)
    ensures i <= |affected| && forall j :: 0 <= j < i ==> !CoveredBy(d, affected[j], f)
    ensures i == |affected| ==> MatchingAffected(d, affected, f) == None
    ensures i < |affected| ==> CoveredBy(d, affected[i], f) && MatchingAffected(d, affected, f) == Some(affected[i])
    decreases |affected|
  {
    if affected == [] || CoveredBy(d, affected[0], f) {
      return 0;
    }
    var k := FirstCovering(d, affected[1..], f);
    i := k + 1;
    forall j | 0 <= j < i ensures !CoveredBy(d, affected[j], f) {
      assert j > 0 ==> affected[j] == affected[1..][j - 1];
    }
  }

  lemma AffectedIff(d: Dependency, v: Vulnerability, f: Feeds)
    ensures Affects(d, v, f) <==> IsAffected(d, v, f)
  {
    var i := FirstCovering(d, v.affected, f);
  }

  lemma AsSevereAsIff(s: Severity, t: Severity)
    ensures AtLeast(s, t) <==> AsSevereAs(s, t)
  {
    assert SEVERITIES[SeverityRank(s)] == s && SEVERITIES[SeverityRank(t)] == t;
  }

  lemma SevereEnoughIff(p: MatchPolicy, s: Severity, r: Reachability)
    ensures SeverityRank(s) >= Floor(p, r) <==> SevereEnough(p, s, r)
  {
    AsSevereAsIff(s, p.directThreshold);
    AsSevereAsIff(s, p.transitiveThreshold);
    if p.devThreshold.Some? {
      AsSevereAsIff(s, p.devThreshold.value);
    }
  }

  lemma {:induction false} BestIsHighest(cves: seq<string>, index: map<string, (real, real)>)
    requires forall i :: 0 <= i < |cves| ==> Upper(cves[i]) == cves[i]
    ensures
      var best := BestEpss(cves, index);
      && (forall c :: c in cves && c in index ==> best.Some? && index[c].0 <= best.value.0)
      && (best.Some? ==> exists c :: c in cves && c in index && index[c] == best.value)
    decreases |cves|
  {
    if cves != [] {
      var front, last := cves[..|cves| - 1], cves[|cves| - 1];
      assert cves == front + [last];
      BestIsHighest(front, index);
    }
  }

  lemma CvesAreUpper(v: Vulnerability)
    ensures forall i :: 0 <= i < |CveIds(v)| ==> Upper(CveIds(v)[i]) == CveIds(v)[i]
  {
    forall i | 0 <= i < |CveIds(v)| ensures Upper(CveIds(v)[i]) == CveIds(v)[i] {
      CveIdsIff(v, CveIds(v)[i]);
      var j :| (j == v.id || j in v.aliases) && Upper(j) == CveIds(v)[i];
      UpperTwice(j);
    }
  }

  /** The score is that of a CVE the advisory goes by, and none of its other CVEs scores higher. */
  lemma ScoreIsBest(v: Vulnerability, f: Feeds)
    ensures forall c :: c in f.epss && GoesBy(v, c) ==> ScoreOf(v, f).Some? && f.epss[c].0 <= ScoreOf(v, f).value
    ensures ScoreOf(v, f).Some? ==> exists c ::
      c in f.epss && GoesBy(v, c) && f.epss[c].0 == ScoreOf(v, f).value && Some(f.epss[c].1) == PercentileOf(v, f)
  {
    CvesAreUpper(v);
    BestIsHighest(CveIds(v), f.epss);
    forall c ensures c in CveIds(v) <==> GoesBy(v, c) {
      CveIdsIff(v, c);
    }
  }

  lemma LikelyEnoughIff(p: MatchPolicy, v: Vulnerability, f: Feeds)
    ensures Gated(p, v, f) <==> LikelyEnough(p, v, f)
  {
    ScoreIsBest(v, f);
  }

  lemma SituationOnInputs(d: Dependency, v: Vulnerability, p: MatchPolicy, f: Feeds)
    ensures
      var s := SituationOf(d, v, p, f);
      && s.withdrawn == v.withdrawn && (s.malicious <==> IsMalware(v)) && (s.kev <==> Exploited(v, f.kev))
      && (s.ignored <==> Silenced(v, d, p, f)) && s.severity == v.severity && s.reachability == d.reachability
      && (OverGate(p, s) <==> LikelyEnough(p, v, f))
  {
    ExploitedIff(v, f.kev);
    SilencedIff(v, d, p, f);
    LikelyEnoughIff(p, v, f);
  }

  // ---------- the verdict ----------

  /** Worth interrupting someone for. */
  lemma ActionableOnInputs(d: Dependency, v: Vulnerability, p: MatchPolicy, f: Feeds)
    ensures Triage.Triage(d, v, p, f).verdict == Actionable <==>
      && IsAffected(d, v, f) && !v.withdrawn
      && (|| IsMalware(v)
          || (p.alwaysAlertOnKev && Exploited(v, f.kev))
          || (!Silenced(v, d, p, f) && (LikelyEnough(p, v, f) || SevereEnough(p, v.severity, d.reachability))))
    ensures Triage.Triage(d, v, p, f).verdict == NotAffected <==> !IsAffected(d, v, f)
  {
    ActionableIff(d, v, p, f);
    AffectedIff(d, v, f);
    ExploitedIff(v, f.kev);
    SilencedIff(v, d, p, f);
    LikelyEnoughIff(p, v, f);
    SevereEnoughIff(p, v.severity, d.reachability);
  }

  /** An exploited advisory alerts under any name the catalogue knows it by, an alias as well as its own. */
  lemma ExploitedAliasIsRaised(d: Dependency, v: Vulnerability, p: MatchPolicy, f: Feeds, alias: string)
    requires IsAffected(d, v, f) && !v.withdrawn && p.alwaysAlertOnKev
    requires (alias == v.id || alias in v.aliases) && "CVE-" <= Upper(alias) && Upper(alias) in f.kev
    ensures
      var r := Triage.Triage(d, v, p, f);
      && r.verdict == Actionable && r.kev
      && r.actionableReason == Some(if IsMalware(v) then MaliciousPackage else ExploitedInWild)
  {
    UpperTwice(alias);
    assert GoesBy(v, Upper(Upper(alias)));
    AffectedIff(d, v, f);
    ExploitedIff(v, f.kev);
  }

  lemma ReasonIsRuling(d: Dependency, v: Vulnerability, p: MatchPolicy, f: Feeds)
    requires IsAffected(d, v, f)
    ensures
      var r, ruling := Triage.Triage(d, v, p, f), Judge(p, SituationOf(d, v, p, f));
      && r.actionableReason == (if ruling.Raise? then Some(ruling.why) else None)
      && r.suppressionReason == (if ruling.File? then Some(ruling.reason) else None)
  {
    AffectedIff(d, v, f);
  }

  predicate OverGate(p: MatchPolicy, s: Situation) {
    p.epssThreshold.Some? && s.score.Some? && s.score.value >= p.epssThreshold.value
  }

  lemma JudgedAlerts(p: MatchPolicy, s: Situation)
    ensures
      var ruling, past := Judge(p, s), !s.withdrawn && !s.malicious;
      var open := past && !(p.alwaysAlertOnKev && s.kev) && !s.ignored;
      var bySeverity := open && !OverGate(p, s) && SevereEnough(p, s.severity, s.reachability);
      && (ruling == Raise(MaliciousPackage) <==> !s.withdrawn && s.malicious)
      && (ruling == Raise(ExploitedInWild) <==> past && p.alwaysAlertOnKev && s.kev)
      && (ruling == Raise(LikelyToBeExploited) <==> open && OverGate(p, s))
      && (ruling == Raise(HighSeverityDirect) <==>
            bySeverity && s.reachability == RuntimeDirect && s.severity != Critical)
      && (ruling == Raise(CriticalInProduction) <==>
            bySeverity && (s.reachability != RuntimeDirect || s.severity == Critical))
  {
    SevereEnoughIff(p, s.severity, s.reachability);
  }

  lemma JudgedFilings(p: MatchPolicy, s: Situation)
    ensures
      var ruling, past := Judge(p, s), !s.withdrawn && !s.malicious && !(p.alwaysAlertOnKev && s.kev);
      var quiet := past && !s.ignored && !OverGate(p, s) && !SevereEnough(p, s.severity, s.reachability);
      var devFiled := s.reachability == DevOnly && (p.devThreshold.Some? || !p.alertOnDevDependencies);
      var buried := s.reachability == RuntimeTransitive && AsSevereAs(s.severity, p.directThreshold);
      && (ruling == File(Withdrawn) <==> s.withdrawn)
      && (ruling == File(IgnoredByRule) <==> past && s.ignored)
      && (ruling == File(DevOnlyDependency) <==> quiet && devFiled)
      && (ruling == File(TransitiveNotDirect) <==> quiet && buried)
      && (ruling == File(BelowSeverityThreshold) <==> quiet && !devFiled && !buried)
  {
    SevereEnoughIff(p, s.severity, s.reachability);
    AsSevereAsIff(s.severity, p.directThreshold);
  }

  /** Which reason an alert carries: the first layer that applies. */
  lemma AlertReasons(d: Dependency, v: Vulnerability, p: MatchPolicy, f: Feeds)
    requires IsAffected(d, v, f)
    ensures
      var why := Triage.Triage(d, v, p, f).actionableReason;
      var past := !v.withdrawn && !IsMalware(v);
      var open := past && !(p.alwaysAlertOnKev && Exploited(v, f.kev)) && !Silenced(v, d, p, f);
      var bySeverity := open && !LikelyEnough(p, v, f) && SevereEnough(p, v.severity, d.reachability);
      && (why == Some(MaliciousPackage) <==> !v.withdrawn && IsMalware(v))
      && (why == Some(ExploitedInWild) <==> past && p.alwaysAlertOnKev && Exploited(v, f.kev))
      && (why == Some(LikelyToBeExploited) <==> open && LikelyEnough(p, v, f))
      && (why == Some(HighSeverityDirect) <==>
            bySeverity && d.reachability == RuntimeDirect && v.severity != Critical)
      && (why == Some(CriticalInProduction) <==>
            bySeverity && (d.reachability != RuntimeDirect || v.severity == Critical))
  {
    ReasonIsRuling(d, v, p, f);
    SituationOnInputs(d, v, p, f);
    JudgedAlerts(p, SituationOf(d, v, p, f));
  }

  /** Which reason a filed finding carries. */
  lemma FilingReasons(d: Dependency, v: Vulnerability, p: MatchPolicy, f: Feeds)
    requires IsAffected(d, v, f)
    ensures
      var why := Triage.Triage(d, v, p, f).suppressionReason;
      var past := !v.withdrawn && !IsMalware(v) && !(p.alwaysAlertOnKev && Exploited(v, f.kev));
      var quiet := past && !Silenced(v, d, p, f) && !LikelyEnough(p, v, f)
                   && !SevereEnough(p, v.severity, d.reachability);
      var devFiled := d.reachability == DevOnly && (p.devThreshold.Some? || !p.alertOnDevDependencies);
      var buried := d.reachability == RuntimeTransitive && AsSevereAs(v.severity, p.directThreshold);
      && (why == Some(Withdrawn) <==> v.withdrawn)
      && (why == Some(IgnoredByRule) <==> past && Silenced(v, d, p, f))
      && (why == Some(DevOnlyDependency) <==> quiet && devFiled)
      && (why == Some(TransitiveNotDirect) <==> quiet && buried)
      && (why == Some(BelowSeverityThreshold) <==> quiet && !devFiled && !buried)
  {
    ReasonIsRuling(d, v, p, f);
    SituationOnInputs(d, v, p, f);
    JudgedFilings(p, SituationOf(d, v, p, f));
  }

  /** Everything else a decision on an affected pair carries. */
  lemma DecisionCarries(d: Dependency, v: Vulnerability, p: MatchPolicy, f: Feeds)
    requires IsAffected(d, v, f)
    ensures
      var r := Triage.Triage(d, v, p, f);
      && r.dependency == d && r.vulnerability == v && r.severity == v.severity
      && (r.kev <==> Exploited(v, f.kev))
      && r.epssScore == ScoreOf(v, f) && r.epssPercentile == PercentileOf(v, f)
      && (r.ignoreOverridden <==> r.verdict == Actionable && Silenced(v, d, p, f))
    ensures exists i ::
      && 0 <= i < |v.affected| && CoveredBy(d, v.affected[i], f)
      && (forall j :: 0 <= j < i ==> !CoveredBy(d, v.affected[j], f))
      && Triage.Triage(d, v, p, f).fixedVersion
         == FirstFix(SchemeOf(d.ecosystem, f.pep), d.version, v.affected[i].ranges)
  {
    AffectedIff(d, v, f);
    ExploitedIff(v, f.kev);
    SilencedIff(v, d, p, f);
    OneReason(d, v, p, f);
    var i := FirstCovering(d, v.affected, f);
  }
}
