/**
  Triage over a whole scan (app/core/matching.py, `triage_all`, `_urgency_key`): every affected
  pair within the depth limit ends up in exactly one of two sorted lists.
*/
module Scan {
  import opened Prelude
  import opened Text
  import opened Domain
  import opened Sorting
  import opened Triage

  type Advisories = map<DependencyKey, seq<Vulnerability>>

  datatype ScanResult = ScanResult(
    actionable: seq<Decision>, suppressed: seq<Decision>, dependenciesScanned: int, unreachedByDepth: nat)

  // ---------- urgency ----------

  /** Exploited first, then severity, then name, then advisory id: -1, 0 or 1. */
  function CompareUrgency(a: Decision, b: Decision): int {
    if a.kev != b.kev then (if a.kev then -1 else 1)
    else if a.severity != b.severity then CompareInt(SeverityRank(b.severity), SeverityRank(a.severity))
    else if CompareText(Lower(a.dependency.name), Lower(b.dependency.name)) != 0 then
      CompareText(Lower(a.dependency.name), Lower(b.dependency.name))
    else CompareText(a.vulnerability.id, b.vulnerability.id)
  }

  predicate NotLessUrgent(a: Decision, b: Decision) {
    CompareUrgency(a, b) <= 0
  }

  lemma UrgencyMirrors(a: Decision, b: Decision)
    ensures CompareUrgency(a, b) == -CompareUrgency(b, a)
  {
    CompareTextMirrors(Lower(a.dependency.name), Lower(b.dependency.name));
    CompareTextMirrors(a.vulnerability.id, b.vulnerability.id);
  }

  lemma UrgencyChains(a: Decision, b: Decision, c: Decision)
    requires CompareUrgency(a, b) <= 0 && CompareUrgency(b, c) <= 0
    ensures CompareUrgency(a, c) <= 0
  {
    var x, y, z := Lower(a.dependency.name), Lower(b.dependency.name), Lower(c.dependency.name);
    CompareTextMirrors(x, y);
    CompareTextMirrors(y, z);
    CompareTextMirrors(x, z);
    if CompareText(x, y) <= 0 && CompareText(y, z) <= 0 {
      CompareTextChains(x, y, z);
    }
    if CompareText(a.vulnerability.id, b.vulnerability.id) <= 0
       && CompareText(b.vulnerability.id, c.vulnerability.id) <= 0 {
      CompareTextChains(a.vulnerability.id, b.vulnerability.id, c.vulnerability.id);
    }
  }

  lemma UrgencyOrders()
    ensures Ordering(NotLessUrgent)
  {
    forall a, b ensures NotLessUrgent(a, b) || NotLessUrgent(b, a) {
      UrgencyMirrors(a, b);
    }
    forall a, b, c | NotLessUrgent(a, b) && NotLessUrgent(b, c) ensures NotLessUrgent(a, c) {
      UrgencyChains(a, b, c);
    }
  }

  /** `a` is the more urgent: exploited, or more severe, or earlier by lower-cased name or identifier. */
  ghost predicate MoreUrgent(a: Decision, b: Decision) {
    var x, y := Lower(a.dependency.name), Lower(b.dependency.name);
    || (a.kev && !b.kev)
    || (a.kev == b.kev && SeverityAbove(a.severity, b.severity))
    || (a.kev == b.kev && a.severity == b.severity && Before(x, y))
    || (a.kev == b.kev && a.severity == b.severity && x == y && Before(a.vulnerability.id, b.vulnerability.id))
  }

  predicate SeverityAbove(s: Severity, t: Severity) {
    || (s == Critical && t != Critical)
    || (s == High && t !in {Critical, High})
    || (s == Medium && t in {Low, UnknownSeverity})
    || (s == Low && t == UnknownSeverity)
  }

  lemma UrgencyIff(a: Decision, b: Decision)
    ensures CompareUrgency(a, b) < 0 <==> MoreUrgent(a, b)
  {
    CompareTextIff(Lower(a.dependency.name), Lower(b.dependency.name));
    CompareTextIff(a.vulnerability.id, b.vulnerability.id);
  }

  /** In a sorted list nothing stands before something more urgent. */
  lemma MostUrgentFirst(rs: seq<Decision>, i: nat, j: nat)
    requires Sorted(NotLessUrgent, rs) && i < j < |rs|
    ensures !MoreUrgent(rs[j], rs[i])
  {
    UrgencyMirrors(rs[i], rs[j]);
    UrgencyIff(rs[j], rs[i]);
  }

  // ---------- what there is to find ----------

  function CandidatesFor(d: Dependency, advisories: Advisories): seq<Vulnerability> {
    if KeyOf(d) in advisories then advisories[KeyOf(d)] else []
  }

  /** The decisions on the affected advisories among `vs`, in order. */
  function FindingsOf(d: Dependency, vs: seq<Vulnerability>, p: MatchPolicy, f: Feeds): seq<Decision> {
    if vs == [] then []
    else
      var last := vs[|vs| - 1];
      FindingsOf(d, vs[..|vs| - 1], p, f) + (if Affects(d, last, f) then [Triage.Triage(d, last, p, f)] else [])
  }

  /** The decision on every affected pair of a dependency within the depth limit, each as often as it occurs. */
  function Findings(deps: seq<Dependency>, advisories: Advisories, p: MatchPolicy, f: Feeds): seq<Decision> {
    if deps == [] then []
    else
      var last := deps[|deps| - 1];
      Findings(deps[..|deps| - 1], advisories, p, f)
      + (if WithinDepth(p, last) then FindingsOf(last, CandidatesFor(last, advisories), p, f) else [])
  }

  function BeyondDepth(deps: seq<Dependency>, p: MatchPolicy): nat {
    if deps == [] then 0
    else BeyondDepth(deps[..|deps| - 1], p) + (if WithinDepth(p, deps[|deps| - 1]) then 0 else 1)
  }

  // ---------- the scan ----------

  /** The decision has this verdict, and exactly the one kind of reason that goes with it. */
  predicate Settled(r: Decision, verdict: Verdict) {
    && r.verdict == verdict
    && (r.actionableReason.Some? <==> verdict == Actionable)
    && (r.suppressionReason.Some? <==> verdict == Suppressed)
  }

  ghost predicate AllHave(rs: seq<Decision>, verdict: Verdict) {
    forall i :: 0 <= i < |rs| ==> Settled(rs[i], verdict)
  }

  /** The decisions with this verdict, in order. */
  function Having(rs: seq<Decision>, verdict: Verdict): seq<Decision> {
    if rs == [] then []
    else
      var last := rs[|rs| - 1];
      Having(rs[..|rs| - 1], verdict) + (if last.verdict == verdict then [last] else [])
  }

  /** The two lists split `findings` by verdict, losing and inventing nothing. */
  ghost predicate Splits(actionable: seq<Decision>, suppressed: seq<Decision>, findings: seq<Decision>) {
    && AllHave(actionable, Actionable) && AllHave(suppressed, Suppressed)
    && multiset(actionable) + multiset(suppressed) == multiset(findings)
  }

  lemma HavingSnoc(rs: seq<Decision>, r: Decision, verdict: Verdict)
    ensures Having(rs + [r], verdict) == Having(rs, verdict) + (if r.verdict == verdict then [r] else [])
  {
    assert (rs + [r])[..|rs|] == rs;
  }

  ghost predicate AllSettled(findings: seq<Decision>) {
    forall i :: 0 <= i < |findings| ==> Settled(findings[i], Actionable) || Settled(findings[i], Suppressed)
  }

  lemma {:induction false} HavingSplits(findings: seq<Decision>)
    requires AllSettled(findings)
    ensures Splits(Having(findings, Actionable), Having(findings, Suppressed), findings)
    decreases |findings|
  {
    if findings != [] {
      var front, last := findings[..|findings| - 1], findings[|findings| - 1];
      assert findings == front + [last];
      HavingSplits(front);
    }
  }

  lemma NextFinding(d: Dependency, vs: seq<Vulnerability>, i: nat, p: MatchPolicy, f: Feeds)
    requires i < |vs|
    ensures
      var r := Triage.Triage(d, vs[i], p, f);
      FindingsOf(d, vs[..i + 1], p, f) == FindingsOf(d, vs[..i], p, f) + (if r.verdict != NotAffected then [r] else [])
  {
    ActionableIff(d, vs[i], p, f);
    assert vs[..i + 1][..i] == vs[..i];
  }

  lemma NextFindings(deps: seq<Dependency>, i: nat, advisories: Advisories, p: MatchPolicy, f: Feeds)
    requires i < |deps|
    ensures
      var before := Findings(deps[..i], advisories, p, f);
      Findings(deps[..i + 1], advisories, p, f) ==
        if WithinDepth(p, deps[i]) then before + FindingsOf(deps[i], CandidatesFor(deps[i], advisories), p, f)
        else before
    ensures BeyondDepth(deps[..i + 1], p) == BeyondDepth(deps[..i], p) + (if WithinDepth(p, deps[i]) then 0 else 1)
  {
    assert deps[..i + 1][..i] == deps[..i];
  }

  lemma Regroup(xs: seq<Decision>, ys: seq<Decision>, zs: seq<Decision>)
    ensures xs + (ys + zs) == xs + ys + zs
  {
  }

  method ScanOne(d: Dependency, vs: seq<Vulnerability>, p: MatchPolicy, f: Feeds,
                 actionable: seq<Decision>, suppressed: seq<Decision>, ghost before: seq<Decision>)
    returns (actionable': seq<Decision>, suppressed': seq<Decision>)
    requires actionable == Having(before, Actionable) && suppressed == Having(before, Suppressed)
    ensures actionable' == Having(before + FindingsOf(d, vs, p, f), Actionable)
    ensures suppressed' == Having(before + FindingsOf(d, vs, p, f), Suppressed)
  {
    actionable', suppressed' := actionable, suppressed;
    assert before + FindingsOf(d, vs[..0], p, f) == before;
    for i := 0 to |vs|
      invariant actionable' == Having(before + FindingsOf(d, vs[..i], p, f), Actionable)
      invariant suppressed' == Having(before + FindingsOf(d, vs[..i], p, f), Suppressed)
    {
      var decision := Triage.Triage(d, vs[i], p, f);
      ghost var found := before + FindingsOf(d, vs[..i], p, f);
      NextFinding(d, vs, i, p, f);
      HavingSnoc(found, decision, Actionable);
      HavingSnoc(found, decision, Suppressed);
      Regroup(before, FindingsOf(d, vs[..i], p, f), if decision.verdict != NotAffected then [decision] else []);
      if decision.verdict == Actionable {
        actionable' := actionable' + [decision];
      } else if decision.verdict == Suppressed {
        suppressed' := suppressed' + [decision];
      } else {
        assert found + [] == found;
      }
    }
    assert vs[..|vs|] == vs;
  }

  /** `sorted` is by urgency, and decisions that tie keep the order they were found in. */
  ghost predicate SortedStably(sorted: seq<Decision>, found: seq<Decision>) {
    && Sorted(NotLessUrgent, sorted)
    && forall r :: TiedWith(sorted, r, NotLessUrgent) == TiedWith(found, r, NotLessUrgent)
  }

  /**
    What a scan promises: nothing lost, nothing invented, each decision with the one reason its
    verdict needs, both lists sorted with ties in the order found, every dependency accounted for.
  */
  ghost predicate Conserves(r: ScanResult, deps: seq<Dependency>, advisories: Advisories, p: MatchPolicy, f: Feeds) {
    && Splits(r.actionable, r.suppressed, Findings(deps, advisories, p, f))
    && SortedStably(r.actionable, Having(Findings(deps, advisories, p, f), Actionable))
    && SortedStably(r.suppressed, Having(Findings(deps, advisories, p, f), Suppressed))
    && r.dependenciesScanned + r.unreachedByDepth == |deps|
    && r.unreachedByDepth == BeyondDepth(deps, p)
  }

  method TriageAll(deps: seq<Dependency>, advisories: Advisories, p: MatchPolicy, f: Feeds) returns (r: ScanResult)
    ensures Conserves(r, deps, advisories, p, f)
  {
    var actionable: seq<Decision>, suppressed: seq<Decision> := [], [];
    var unreached := 0;
    for i := 0 to |deps|
      invariant actionable == Having(Findings(deps[..i], advisories, p, f), Actionable)
      invariant suppressed == Having(Findings(deps[..i], advisories, p, f), Suppressed)
      invariant unreached == BeyondDepth(deps[..i], p)
    {
      NextFindings(deps, i, advisories, p, f);
      if !WithinDepth(p, deps[i]) {
        unreached := unreached + 1;
        continue;
      }
      actionable, suppressed := ScanOne(deps[i], CandidatesFor(deps[i], advisories), p, f, actionable, suppressed,
        Findings(deps[..i], advisories, p, f));
    }
    assert deps[..|deps|] == deps;
    FindingsAreSettled(deps, advisories, p, f);
    SortedSplits(Findings(deps, advisories, p, f));
    return ScanResult(Sort(actionable, NotLessUrgent), Sort(suppressed, NotLessUrgent), |deps| - unreached, unreached);
  }

  lemma StableSort(found: seq<Decision>)
    ensures SortedStably(Sort(found, NotLessUrgent), found)
    ensures multiset(Sort(found, NotLessUrgent)) == multiset(found)
  {
    UrgencyOrders();
    SortSorts(found, NotLessUrgent);
    SortPermutes(found, NotLessUrgent);
    forall r
      ensures TiedWith(Sort(found, NotLessUrgent), r, NotLessUrgent) == TiedWith(found, r, NotLessUrgent)
    {
      SortIsStable(found, r, NotLessUrgent);
    }
  }

  lemma SortedSplits(findings: seq<Decision>)
    requires AllSettled(findings)
    ensures
      var actionable, suppressed := Having(findings, Actionable), Having(findings, Suppressed);
      && Splits(Sort(actionable, NotLessUrgent), Sort(suppressed, NotLessUrgent), findings)
      && SortedStably(Sort(actionable, NotLessUrgent), actionable)
      && SortedStably(Sort(suppressed, NotLessUrgent), suppressed)
  {
    var actionable, suppressed := Having(findings, Actionable), Having(findings, Suppressed);
    HavingSplits(findings);
    StableSort(actionable);
    StableSort(suppressed);
    PermutedHave(actionable, Sort(actionable, NotLessUrgent), Actionable);
    PermutedHave(suppressed, Sort(suppressed, NotLessUrgent), Suppressed);
  }

  lemma PermutedHave(xs: seq<Decision>, ys: seq<Decision>, verdict: Verdict)
    requires AllHave(xs, verdict) && multiset(xs) == multiset(ys)
    ensures AllHave(ys, verdict)
  {
    forall i | 0 <= i < |ys| ensures Settled(ys[i], verdict) {
      assert ys[i] in multiset(xs);
    }
  }

  // ---------- each finding is the triage of an affected pair ----------

  /** A listed decision is the triage of its own affected pair, of a dependency within depth. */
  ghost predicate Warranted(r: Decision, deps: seq<Dependency>, advisories: Advisories, p: MatchPolicy, f: Feeds) {
    && r.dependency in deps && (p.maxDepth.None? || r.dependency.depth <= p.maxDepth.value)
    && (r.dependency.ecosystem, r.dependency.name, r.dependency.version) in advisories
    && r.vulnerability in advisories[(r.dependency.ecosystem, r.dependency.name, r.dependency.version)]
    && Affects(r.dependency, r.vulnerability, f)
    && r == Triage.Triage(r.dependency, r.vulnerability, p, f)
  }

  lemma {:induction false} FindingsOfIff(
    d: Dependency, vs: seq<Vulnerability>, p: MatchPolicy, f: Feeds, v: Vulnerability)
    ensures Triage.Triage(d, v, p, f) in FindingsOf(d, vs, p, f) <==> v in vs && Affects(d, v, f)
    decreases |vs|
  {
    if vs != [] {
      var front, last := vs[..|vs| - 1], vs[|vs| - 1];
      assert vs == front + [last];
      FindingsOfIff(d, front, p, f, v);
      TriageNames(d, v, p, f);
      TriageNames(d, last, p, f);
    }
  }

  lemma TriageNames(d: Dependency, v: Vulnerability, p: MatchPolicy, f: Feeds)
    ensures Triage.Triage(d, v, p, f).dependency == d && Triage.Triage(d, v, p, f).vulnerability == v
  {
  }

  lemma {:induction false} FindingsOfName(d: Dependency, vs: seq<Vulnerability>, p: MatchPolicy, f: Feeds, r: Decision)
    requires r in FindingsOf(d, vs, p, f)
    ensures r.dependency == d && r == Triage.Triage(d, r.vulnerability, p, f)
    decreases |vs|
  {
    var front, last := vs[..|vs| - 1], vs[|vs| - 1];
    if r in FindingsOf(d, front, p, f) {
      FindingsOfName(d, front, p, f, r);
    } else {
      TriageNames(d, last, p, f);
    }
  }

  /** A decision is a finding exactly when it is warranted. */
  lemma {:induction false} FindingsAreWarranted(
    deps: seq<Dependency>, advisories: Advisories, p: MatchPolicy, f: Feeds, r: Decision)
    ensures r in Findings(deps, advisories, p, f) <==> Warranted(r, deps, advisories, p, f)
    decreases |deps|
  {
    if deps != [] {
      var front, last := deps[..|deps| - 1], deps[|deps| - 1];
      assert deps == front + [last];
      FindingsAreWarranted(front, advisories, p, f, r);
      FindingsOfIff(last, CandidatesFor(last, advisories), p, f, r.vulnerability);
      if r in FindingsOf(last, CandidatesFor(last, advisories), p, f) {
        FindingsOfName(last, CandidatesFor(last, advisories), p, f, r);
      }
    }
  }

  lemma FindingsAreSettled(deps: seq<Dependency>, advisories: Advisories, p: MatchPolicy, f: Feeds)
    ensures AllSettled(Findings(deps, advisories, p, f))
  {
    var findings := Findings(deps, advisories, p, f);
    forall i | 0 <= i < |findings| ensures Settled(findings[i], Actionable) || Settled(findings[i], Suppressed) {
      var r := findings[i];
      FindingsAreWarranted(deps, advisories, p, f, r);
      OneReason(r.dependency, r.vulnerability, p, f);
      ActionableIff(r.dependency, r.vulnerability, p, f);
    }
  }

  // ---------- depth ----------

  /** `q` is `p` with a depth limit that is no tighter. */
  predicate Deeper(q: MatchPolicy, p: MatchPolicy) {
    && q == p.(maxDepth := q.maxDepth)
    && (q.maxDepth.Some? ==> p.maxDepth.Some? && p.maxDepth.value <= q.maxDepth.value)
  }

  lemma JudgeIgnoresDepth(p: MatchPolicy, q: MatchPolicy, s: Situation)
    requires q == p.(maxDepth := q.maxDepth)
    ensures Judge(q, s) == Judge(p, s)
  {
  }

  /** The depth limit decides what is looked at, never what is decided. */
  lemma DepthDoesNotDecide(d: Dependency, v: Vulnerability, p: MatchPolicy, q: MatchPolicy, f: Feeds)
    requires q == p.(maxDepth := q.maxDepth)
    ensures Triage.Triage(d, v, q, f) == Triage.Triage(d, v, p, f)
  {
    assert Ignores(q, v, d, f) == Ignores(p, v, d, f);
    assert SituationOf(d, v, q, f) == SituationOf(d, v, p, f);
    JudgeIgnoresDepth(p, q, SituationOf(d, v, p, f));
  }

  lemma {:induction false} FindingsOfIgnoreDepth(
    d: Dependency, vs: seq<Vulnerability>, p: MatchPolicy, q: MatchPolicy, f: Feeds)
    requires q == p.(maxDepth := q.maxDepth)
    ensures FindingsOf(d, vs, q, f) == FindingsOf(d, vs, p, f)
    decreases |vs|
  {
    if vs != [] {
      FindingsOfIgnoreDepth(d, vs[..|vs| - 1], p, q, f);
      DepthDoesNotDecide(d, vs[|vs| - 1], p, q, f);
    }
  }

  lemma {:induction false} DeeperFindsMore(
    deps: seq<Dependency>, advisories: Advisories, p: MatchPolicy, q: MatchPolicy, f: Feeds)
    requires Deeper(q, p)
    ensures multiset(Findings(deps, advisories, p, f)) <= multiset(Findings(deps, advisories, q, f))
    decreases |deps|
  {
    if deps != [] {
      var last := deps[|deps| - 1];
      DeeperFindsMore(deps[..|deps| - 1], advisories, p, q, f);
      FindingsOfIgnoreDepth(last, CandidatesFor(last, advisories), p, q, f);
    }
  }

  lemma SplitCounts(actionable: seq<Decision>, suppressed: seq<Decision>, findings: seq<Decision>, r: Decision)
    requires Splits(actionable, suppressed, findings)
    ensures multiset(actionable)[r] == (if r.verdict == Actionable then multiset(findings)[r] else 0)
    ensures multiset(suppressed)[r] == (if r.verdict == Suppressed then multiset(findings)[r] else 0)
  {
    assert multiset(findings)[r] == multiset(actionable)[r] + multiset(suppressed)[r];
    if r in multiset(actionable) {
      assert r in actionable;
    }
    if r in multiset(suppressed) {
      assert r in suppressed;
    }
  }

  /** Raising the depth limit only adds findings, to each list separately. */
  lemma DeeperKeepsFindings(
    shallow: ScanResult, deep: ScanResult, deps: seq<Dependency>, advisories: Advisories,
    p: MatchPolicy, q: MatchPolicy, f: Feeds)
    requires Deeper(q, p)
    requires Conserves(shallow, deps, advisories, p, f) && Conserves(deep, deps, advisories, q, f)
    ensures multiset(shallow.actionable) <= multiset(deep.actionable)
    ensures multiset(shallow.suppressed) <= multiset(deep.suppressed)
  {
    DeeperFindsMore(deps, advisories, p, q, f);
    var fewer, more := Findings(deps, advisories, p, f), Findings(deps, advisories, q, f);
    forall r
      ensures multiset(shallow.actionable)[r] <= multiset(deep.actionable)[r]
      ensures multiset(shallow.suppressed)[r] <= multiset(deep.suppressed)[r]
    {
      assert multiset(fewer)[r] <= multiset(more)[r];
      SplitCounts(shallow.actionable, shallow.suppressed, fewer, r);
      SplitCounts(deep.actionable, deep.suppressed, more, r);
    }
  }
}
