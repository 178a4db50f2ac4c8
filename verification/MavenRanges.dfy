/**
  Maven ranges among versions that do not clash (app/core/versions.py). Restricted to such texts,
  as many as one likes, the order is total, so what holds of ranges and fixes elsewhere holds here.
*/
module MavenRanges {
  import opened Prelude
  import opened Domain
  import opened Versions
  import opened OsvRanges
  import OsvListings
  import Advisories
  import Maven

  /** Which version texts are under consideration: an advisory's own, say, and those installed. */
  type Texts = string -> bool

  predicate Among(pep: Pep440, texts: Texts, raw: string) {
    texts(raw) && Parses(Domain.Maven, pep, raw)
  }

  function MavenScheme(pep: Pep440): Scheme {
    SchemeOf(Domain.Maven, pep)
  }

  /** Maven, as far as it speaks of these texts. */
  function SchemeAmong(pep: Pep440, texts: Texts): Scheme {
    Scheme(
      v => Among(pep, texts, v),
      (l, r) => if Among(pep, texts, l) && Among(pep, texts, r) then Compare(Domain.Maven, pep, l, r) else None,
      v => Normalize(Domain.Maven, v))
  }

  /** No three of the texts clash. */
  ghost predicate ClashFree(pep: Pep440, texts: Texts) {
    forall a, b, c {:trigger Maven.Clash(Maven.Key(a), Maven.Key(b), Maven.Key(c))} ::
      Among(pep, texts, a) && Among(pep, texts, b) && Among(pep, texts, c) ==>
        !Maven.Clash(Maven.Key(a), Maven.Key(b), Maven.Key(c))
  }

  lemma ComparedAmong(pep: Pep440, texts: Texts, a: string, b: string)
    requires Among(pep, texts, a) && Among(pep, texts, b)
    ensures SchemeAmong(pep, texts).compare(a, b) == Some(Maven.Order(Maven.Key(a), Maven.Key(b)))
  {
    ParsedMavenComparesAt(pep, a, b);
  }

  lemma ChainsWithoutClash(a: seq<Maven.Token>, b: seq<Maven.Token>, c: seq<Maven.Token>)
    requires Maven.Canonical(a) && Maven.Canonical(b) && Maven.Canonical(c)
    requires !Maven.Clash(a, b, c) && !Maven.Clash(b, c, a) && !Maven.Clash(c, a, b)
    ensures Maven.Order(a, a) == 0 && Maven.Order(a, b) == -Maven.Order(b, a)
    ensures Maven.Order(a, b) <= 0 && Maven.Order(b, c) <= 0 ==> Maven.Order(a, c) <= 0
    ensures Maven.Order(a, b) < 0 && Maven.Order(b, c) <= 0 ==> Maven.Order(a, c) < 0
    ensures Maven.Order(a, b) <= 0 && Maven.Order(b, c) < 0 ==> Maven.Order(a, c) < 0
  {
    Maven.OrderMirrors(a, b);
    Maven.OrderMirrors(b, c);
    Maven.OrderZeroIffIdentical(a, a);
    Maven.OrderZeroIffIdentical(a, c);
    if Maven.Order(a, b) <= 0 && Maven.Order(b, c) <= 0 {
      Maven.TransitiveIffNoClash(a, b, c);
    }
  }

  lemma TripleAmong(pep: Pep440, texts: Texts, a: string, b: string, c: string)
    requires ClashFree(pep, texts) && Among(pep, texts, a) && Among(pep, texts, b) && Among(pep, texts, c)
    ensures
      var s := SchemeAmong(pep, texts);
      && s.compare(a, a) == Some(0)
      && s.compare(a, b).Some? && s.compare(b, a).Some? && s.compare(b, c).Some? && s.compare(a, c).Some?
      && s.compare(a, b).value == -s.compare(b, a).value
      && (s.compare(a, b).value <= 0 && s.compare(b, c).value <= 0 ==> s.compare(a, c).value <= 0)
      && (s.compare(a, b).value < 0 && s.compare(b, c).value <= 0 ==> s.compare(a, c).value < 0)
      && (s.compare(a, b).value <= 0 && s.compare(b, c).value < 0 ==> s.compare(a, c).value < 0)
  {
    Maven.KeysAreCanonical(a);
    Maven.KeysAreCanonical(b);
    Maven.KeysAreCanonical(c);
    ComparedAmong(pep, texts, a, a);
    ComparedAmong(pep, texts, a, b);
    ComparedAmong(pep, texts, b, a);
    ComparedAmong(pep, texts, b, c);
    ComparedAmong(pep, texts, a, c);
    ChainsWithoutClash(Maven.Key(a), Maven.Key(b), Maven.Key(c));
  }

  lemma ClashFreeIsOrdered(pep: Pep440, texts: Texts)
    requires ClashFree(pep, texts)
    ensures Ordered(SchemeAmong(pep, texts))
  {
    var s := SchemeAmong(pep, texts);
    forall a, b ensures s.compare(a, b).Some? <==> s.parses(a) && s.parses(b) {
      if Among(pep, texts, a) && Among(pep, texts, b) {
        ComparedAmong(pep, texts, a, b);
      }
    }
    forall a, b, c | s.parses(a) && s.parses(b) && s.parses(c)
      ensures s.compare(a, a) == Some(0)
      ensures s.compare(a, b).value == -s.compare(b, a).value
      ensures s.compare(a, b).value <= 0 && s.compare(b, c).value <= 0 ==> s.compare(a, c).value <= 0
      ensures s.compare(a, b).value < 0 && s.compare(b, c).value <= 0 ==> s.compare(a, c).value < 0
      ensures s.compare(a, b).value <= 0 && s.compare(b, c).value < 0 ==> s.compare(a, c).value < 0
    {
      TripleAmong(pep, texts, a, b, c);
    }
  }

  lemma OrderedHasNoClash(pep: Pep440, texts: Texts, a: string, b: string, c: string)
    requires Ordered(SchemeAmong(pep, texts))
    requires Among(pep, texts, a) && Among(pep, texts, b) && Among(pep, texts, c)
    ensures !Maven.Clash(Maven.Key(a), Maven.Key(b), Maven.Key(c))
  {
    var s := SchemeAmong(pep, texts);
    Maven.KeysAreCanonical(a);
    Maven.KeysAreCanonical(b);
    Maven.KeysAreCanonical(c);
    ComparedAmong(pep, texts, a, b);
    ComparedAmong(pep, texts, b, c);
    ComparedAmong(pep, texts, c, a);
    assert s.parses(a) && s.parses(b) && s.parses(c);
    assert s.compare(a, c).value == -s.compare(c, a).value;
    if i: nat :| Maven.ClashAt(Maven.Key(a), Maven.Key(b), Maven.Key(c), i) {
      Maven.ClashIsCircle(Maven.Key(a), Maven.Key(b), Maven.Key(c), i);
      assert false;
    }
  }

  /** A set of Maven texts is totally preordered exactly when no three of them clash. */
  lemma OrderedIffClashFree(pep: Pep440, texts: Texts)
    ensures Ordered(SchemeAmong(pep, texts)) <==> ClashFree(pep, texts)
  {
    if ClashFree(pep, texts) {
      ClashFreeIsOrdered(pep, texts);
    }
    if Ordered(SchemeAmong(pep, texts)) {
      forall a, b, c | Among(pep, texts, a) && Among(pep, texts, b) && Among(pep, texts, c)
        ensures !Maven.Clash(Maven.Key(a), Maven.Key(b), Maven.Key(c))
      {
        OrderedHasNoClash(pep, texts, a, b, c);
      }
    }
  }

  /** Texts whose qualifiers all rank below the release never clash. */
  lemma LowTextsAreClashFree(pep: Pep440, texts: Texts)
    requires forall v :: Among(pep, texts, v) ==> Maven.AllLow(Maven.Key(v))
    ensures ClashFree(pep, texts)
  {
  }

  // ---------- what one scheme says of the texts another reads ----------

  /** `t` reads fewer texts than `s`, and compares those as `s` does. */
  ghost predicate Restricts(t: Scheme, s: Scheme) {
    && (forall v {:trigger t.parses(v)} :: t.parses(v) ==> s.parses(v))
    && (forall a, b {:trigger s.compare(a, b)} {:trigger t.compare(a, b)} ::
          t.parses(a) && t.parses(b) ==> s.compare(a, b) == t.compare(a, b))
  }

  /** Every bound of the range is one `t` reads. */
  ghost predicate BoundsRead(t: Scheme, r: AffectedRange) {
    && (r.introduced.Some? ==> r.introduced.value == "0" || t.parses(r.introduced.value))
    && (r.fixed.Some? ==> t.parses(r.fixed.value))
    && (r.lastAffected.Some? ==> t.parses(r.lastAffected.value))
  }

  lemma InRangeAgrees(t: Scheme, s: Scheme, version: string, r: AffectedRange)
    requires Restricts(t, s) && t.parses(version) && BoundsRead(t, r)
    ensures InRange(s, version, r) == InRange(t, version, r)
  {
  }

  lemma {:induction false} FoldBoundsRead(t: Scheme, events: seq<Event>, open: Option<string>)
    requires AllReadable(t, events) && OpenIsReadable(t, open)
    ensures forall r :: r in Fold(events, open) ==> BoundsRead(t, r)
    decreases |events|
  {
    if events != [] {
      assert Readable(t, events[0]);
      FoldBoundsRead(t, events[1..], OpenAfter(events[0], open));
    }
  }

  lemma CoveredAgrees(t: Scheme, s: Scheme, version: string, ranges: seq<AffectedRange>)
    requires Restricts(t, s) && t.parses(version) && forall r :: r in ranges ==> BoundsRead(t, r)
    ensures Covered(s, version, ranges) <==> Covered(t, version, ranges)
  {
    forall r | r in ranges ensures InRange(s, version, r) == InRange(t, version, r) {
      InRangeAgrees(t, s, version, r);
    }
  }

  lemma {:induction false} WalkAgrees(t: Scheme, s: Scheme, events: seq<Event>, version: string, vulnerable: bool)
    requires Restricts(t, s) && t.parses(version) && AllReadable(t, events)
    ensures Walk(s, events, version, vulnerable) == Walk(t, events, version, vulnerable)
    decreases |events|
  {
    if events != [] {
      assert Readable(t, events[0]);
      WalkAgrees(t, s, events[1..], version, WalkStep(t, events[0], version, vulnerable));
    }
  }

  lemma AscendingAgrees(t: Scheme, s: Scheme, events: seq<Event>)
    requires Restricts(t, s) && AllReadable(t, events) && Ascending(s, events)
    ensures Ascending(t, events)
  {
    forall i, j | 0 <= i < j < |events| ensures EventBefore(t, events[i], events[j]) {
      assert EventBefore(s, events[i], events[j]) && Readable(t, events[i]) && Readable(t, events[j]);
    }
  }

  lemma {:induction false} CandidatesAgree(t: Scheme, s: Scheme, version: string, ranges: seq<AffectedRange>)
    requires Restricts(t, s) && t.parses(version) && forall r :: r in ranges ==> BoundsRead(t, r)
    ensures FixCandidates(s, version, ranges) == FixCandidates(t, version, ranges)
    ensures forall f :: f in FixCandidates(t, version, ranges) ==> t.parses(f)
    decreases |ranges|
  {
    if ranges != [] {
      var front, last := ranges[..|ranges| - 1], ranges[|ranges| - 1];
      assert ranges == front + [last];
      CandidatesAgree(t, s, version, front);
      assert BoundsRead(t, last);
    }
  }

  lemma {:induction false} LowestAgrees(t: Scheme, s: Scheme, lowest: string, rest: seq<string>)
    requires Restricts(t, s) && t.parses(lowest) && forall f :: f in rest ==> t.parses(f)
    ensures LowestFrom(s, lowest, rest) == LowestFrom(t, lowest, rest)
    decreases |rest|
  {
    if rest != [] {
      var c := t.compare(rest[0], lowest);
      LowestAgrees(t, s, if c.Some? && c.value < 0 then rest[0] else lowest, rest[1..]);
    }
  }

  lemma FirstFixAgrees(t: Scheme, s: Scheme, version: string, ranges: seq<AffectedRange>)
    requires Restricts(t, s) && t.parses(version) && forall r :: r in ranges ==> BoundsRead(t, r)
    ensures FirstFix(s, version, ranges) == FirstFix(t, version, ranges)
  {
    CandidatesAgree(t, s, version, ranges);
    var candidates := FixCandidates(t, version, ranges);
    if candidates != [] {
      assert candidates[0] in candidates && forall f :: f in candidates[1..] ==> f in candidates;
      LowestAgrees(t, s, candidates[0], candidates[1..]);
    }
  }

  // ---------- ranges and fixes ----------

  /** The version and every bound of the events are among clash-free texts, and the events ascend. */
  ghost predicate AmongAndAscending(pep: Pep440, texts: Texts, events: seq<Event>, version: string) {
    && ClashFree(pep, texts) && Among(pep, texts, version)
    && AllReadable(SchemeAmong(pep, texts), events) && Ascending(MavenScheme(pep), events)
  }

  /** Interval membership is the walk, as in the other ecosystems. */
  lemma MavenIntervalsAreTheWalk(pep: Pep440, texts: Texts, events: seq<Event>, version: string)
    requires AmongAndAscending(pep, texts, events, version) && !Doubles(events, false)
    ensures Covered(MavenScheme(pep), version, Fold(events, None)) <==>
      Walk(MavenScheme(pep), events, version, false)
  {
    var s, t := MavenScheme(pep), SchemeAmong(pep, texts);
    ClashFreeIsOrdered(pep, texts);
    AscendingAgrees(t, s, events);
    FoldBoundsRead(t, events, None);
    CoveredAgrees(t, s, version, Fold(events, None));
    WalkAgrees(t, s, events, version, false);
    IntervalsAreTheWalk(t, events, version);
  }

  /** However the events are listed, no version that their sorted walk calls affected is missed. */
  lemma MavenSortedWalkIsCovered(
    pep: Pep440, texts: Texts, listed: seq<Event>, sorted: seq<Event>, version: string)
    requires AmongAndAscending(pep, texts, sorted, version) && multiset(listed) == multiset(sorted)
    requires !OsvListings.Overclosed(sorted) && Walk(MavenScheme(pep), sorted, version, false)
    ensures Covered(MavenScheme(pep), version, Fold(listed, None))
  {
    var s, t := MavenScheme(pep), SchemeAmong(pep, texts);
    ClashFreeIsOrdered(pep, texts);
    AscendingAgrees(t, s, sorted);
    WalkAgrees(t, s, sorted, version, false);
    OsvListings.SortedWalkIsCovered(t, listed, sorted, version);
    OsvListings.PermutedReadable(t, listed, sorted);
    FoldBoundsRead(t, listed, None);
    CoveredAgrees(t, s, version, Fold(listed, None));
  }

  /** In window k the program recommends window k's fix, which no window holds. */
  lemma MavenRecommendedFix(pep: Pep440, texts: Texts, events: seq<Event>, version: string, k: nat)
    requires AmongAndAscending(pep, texts, events, version) && Advisories.Alternates(events, false)
    requires k < |Fold(events, None)| && InRange(MavenScheme(pep), version, Fold(events, None)[k]) == Some(true)
    ensures
      var fix := FirstFix(MavenScheme(pep), version, Fold(events, None));
      fix == Fold(events, None)[k].fixed
      && (fix.Some? ==> !Covered(MavenScheme(pep), fix.value, Fold(events, None)))
  {
    var s, t, ranges := MavenScheme(pep), SchemeAmong(pep, texts), Fold(events, None);
    ClashFreeIsOrdered(pep, texts);
    AscendingAgrees(t, s, events);
    FoldBoundsRead(t, events, None);
    InRangeAgrees(t, s, version, ranges[k]);
    FirstFixAgrees(t, s, version, ranges);
    FirstFixIsLowest(t, version, ranges);
    var fix := FirstFix(t, version, ranges);
    Advisories.RecommendedFix(t, events, version, k, fix);
    if fix.Some? {
      assert BoundsRead(t, ranges[k]);
      CoveredAgrees(t, s, fix.value, ranges);
    }
  }
}
