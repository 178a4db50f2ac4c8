/**
  From an advisory's own events to a verdict and a recommended fix (app/core/osv.py,
  `parse_affected`; app/core/versions.py, `version_matches`, `first_fixed_version`), and on to triage.
*/
module Advisories {
  import opened Prelude
  import opened Domain
  import opened Versions
  import opened OsvRanges
  import opened OsvListings
  import Text
  import Triage

  datatype RawRange = RawRange(kind: string, events: seq<Event>)

  /** One "affected" entry; an ecosystem the program does not know is `None`, a missing name is empty. */
  datatype RawEntry = RawEntry(
    ecosystem: Option<Ecosystem>, name: string, ranges: seq<RawRange>, versions: seq<string>)

  predicate IsVersionRange(r: RawRange) {
    r.kind == "SEMVER" || r.kind == "ECOSYSTEM"
  }

  function FoldedRanges(ranges: seq<RawRange>): seq<AffectedRange> {
    if ranges == [] then []
    else
      var last := ranges[|ranges| - 1];
      FoldedRanges(ranges[..|ranges| - 1]) + (if IsVersionRange(last) then Fold(last.events, None) else [])
  }

  function NonEmpty(versions: seq<string>): seq<string> {
    if versions == [] then []
    else
      var last := versions[|versions| - 1];
      NonEmpty(versions[..|versions| - 1]) + (if last != "" then [last] else [])
  }

  /** What an entry is kept as; `None` when there is nothing to compare against. */
  function KeptAs(e: RawEntry): Option<AffectedPackage> {
    if e.ecosystem.None? || e.name == "" then None
    else if FoldedRanges(e.ranges) == [] && NonEmpty(e.versions) == [] then None
    else Some(AffectedPackage(e.ecosystem.value, e.name, FoldedRanges(e.ranges), NonEmpty(e.versions)))
  }

  function KeptEntries(entries: seq<RawEntry>): seq<AffectedPackage> {
    if entries == [] then []
    else
      var last := KeptAs(entries[|entries| - 1]);
      KeptEntries(entries[..|entries| - 1]) + (if last.Some? then [last.value] else [])
  }

  method ParseRanges(raw: seq<RawRange>) returns (ranges: seq<AffectedRange>)
    ensures ranges == FoldedRanges(raw)
  {
    ranges := [];
    for i := 0 to |raw|
      invariant ranges == FoldedRanges(raw[..i])
    {
      assert raw[..i + 1][..i] == raw[..i];
      if !IsVersionRange(raw[i]) {
        continue;
      }
      var folded := PairRangeEvents(raw[i].events);
      ranges := ranges + folded;
    }
    assert raw[..|raw|] == raw;
  }

  method ParseAffected(entries: seq<RawEntry>) returns (result: seq<AffectedPackage>)
    ensures result == KeptEntries(entries)
  {
    result := [];
    for i := 0 to |entries|
      invariant result == KeptEntries(entries[..i])
    {
      var e := entries[i];
      assert entries[..i + 1][..i] == entries[..i];
      if e.ecosystem.None? || e.name == "" {
        continue;
      }
      var ranges := ParseRanges(e.ranges);
      var versions := NonEmpty(e.versions);
      if ranges == [] && versions == [] {
        continue;
      }
      result := result + [AffectedPackage(e.ecosystem.value, e.name, ranges, versions)];
    }
    assert entries[..|entries|] == entries;
  }

  // ---------- no affected version is missed ----------

  /** The range types whose events are versions, in the schema's words; GIT events are commits. */
  ghost predicate HasVersionEvents(r: RawRange) {
    r.kind in {"SEMVER", "ECOSYSTEM"}
  }

  ghost predicate Listed(s: Scheme, e: RawEntry, version: string) {
    exists v :: v in e.versions && v != "" && s.normalize(v) == s.normalize(version)
  }

  /** A listed version, or a range whose events, walked as they are listed, end vulnerable. */
  ghost predicate AffectsInListOrder(s: Scheme, e: RawEntry, version: string) {
    Listed(s, e, version) || exists r :: r in e.ranges && HasVersionEvents(r) && Walk(s, r.events, version, false)
  }

  /** The schema's verdict: a listed version, or a range whose events, walked in version order, end vulnerable. */
  ghost predicate SchemaAffects(s: Scheme, e: RawEntry, version: string) {
    || Listed(s, e, version)
    || (exists r, sorted :: r in e.ranges && HasVersionEvents(r) && SortedFrom(s, r.events, sorted)
                            && Walk(s, sorted, version, false))
  }

  /** In no range does an introduction have, up to it, as many closings as introductions. */
  ghost predicate NeverOverclosed(s: Scheme, e: RawEntry) {
    forall r, sorted :: r in e.ranges && HasVersionEvents(r) && SortedFrom(s, r.events, sorted) ==> !Overclosed(sorted)
  }

  ghost predicate EntryReadable(s: Scheme, e: RawEntry) {
    forall r :: r in e.ranges && HasVersionEvents(r) ==> AllReadable(s, r.events)
  }

  lemma {:induction false} FoldedRangesHold(s: Scheme, ranges: seq<RawRange>, r: RawRange, version: string)
    requires r in ranges && IsVersionRange(r) && Covered(s, version, Fold(r.events, None))
    ensures Covered(s, version, FoldedRanges(ranges))
    decreases |ranges|
  {
    var front, last := ranges[..|ranges| - 1], ranges[|ranges| - 1];
    assert ranges == front + [last];
    if r == last {
      var hit :| hit in Fold(r.events, None) && InRange(s, version, hit) == Some(true);
      assert hit in FoldedRanges(ranges);
    } else {
      FoldedRangesHold(s, front, r, version);
      var hit :| hit in FoldedRanges(front) && InRange(s, version, hit) == Some(true);
      assert hit in FoldedRanges(ranges);
    }
  }

  lemma {:induction false} NonEmptyKeeps(versions: seq<string>, v: string)
    requires v in versions && v != ""
    ensures v in NonEmpty(versions)
    decreases |versions|
  {
    var front, last := versions[..|versions| - 1], versions[|versions| - 1];
    assert versions == front + [last];
    if v != last {
      NonEmptyKeeps(front, v);
    }
  }

  lemma CoveredEntryIsMatched(s: Scheme, e: RawEntry, r: RawRange, version: string)
    requires s.parses(version) && e.ecosystem.Some? && e.name != ""
    requires r in e.ranges && IsVersionRange(r) && Covered(s, version, Fold(r.events, None))
    ensures KeptAs(e).Some? && IsAffected(s, version, KeptAs(e).value)
  {
    FoldedRangesHold(s, e.ranges, r, version);
  }

  lemma ListedEntryIsMatched(s: Scheme, e: RawEntry, version: string)
    requires s.parses(version) && e.ecosystem.Some? && e.name != "" && Listed(s, e, version)
    ensures KeptAs(e).Some? && IsAffected(s, version, KeptAs(e).value)
  {
    var v :| v in e.versions && v != "" && s.normalize(v) == s.normalize(version);
    NonEmptyKeeps(e.versions, v);
  }

  /** In list order: an entry whose events say it affects a version is kept, and matches that version. */
  lemma AffectedEntryIsMatched(s: Scheme, e: RawEntry, version: string)
    requires Comparable(s) && s.parses(version) && EntryReadable(s, e)
    requires e.ecosystem.Some? && e.name != ""
    requires AffectsInListOrder(s, e, version)
    ensures KeptAs(e).Some? && IsAffected(s, version, KeptAs(e).value)
  {
    if r :| r in e.ranges && HasVersionEvents(r) && Walk(s, r.events, version, false) {
      NothingAffectedIsMissed(s, r.events, version);
      CoveredEntryIsMatched(s, e, r, version);
    } else {
      ListedEntryIsMatched(s, e, version);
    }
  }

  /** An entry the schema says affects a version is kept and matches it, however its events are listed. */
  lemma SchemaEntryIsMatched(s: Scheme, e: RawEntry, version: string)
    requires Ordered(s) && s.parses(version) && EntryReadable(s, e) && NeverOverclosed(s, e)
    requires e.ecosystem.Some? && e.name != ""
    requires SchemaAffects(s, e, version)
    ensures KeptAs(e).Some? && IsAffected(s, version, KeptAs(e).value)
  {
    if r, sorted :| r in e.ranges && HasVersionEvents(r) && SortedFrom(s, r.events, sorted)
                    && Walk(s, sorted, version, false) {
      PermutedReadable(s, sorted, r.events);
      SortedWalkIsCovered(s, r.events, sorted, version);
      CoveredEntryIsMatched(s, e, r, version);
    } else {
      ListedEntryIsMatched(s, e, version);
    }
  }

  /** An entry there is something to compare against is kept, and nothing else is. */
  lemma {:induction false} KeptEntriesIff(entries: seq<RawEntry>, p: AffectedPackage)
    ensures p in KeptEntries(entries) <==> exists e :: e in entries && KeptAs(e) == Some(p)
    decreases |entries|
  {
    if entries != [] {
      var front, last := entries[..|entries| - 1], entries[|entries| - 1];
      assert entries == front + [last];
      KeptEntriesIff(front, p);
    }
  }

  lemma {:induction false} MatchedIsFound(
    d: Dependency, affected: seq<AffectedPackage>, p: AffectedPackage, f: Triage.Feeds)
    requires p in affected && p.ecosystem == d.ecosystem && Text.Lower(p.name) == Text.Lower(d.name)
    requires IsAffected(SchemeOf(d.ecosystem, f.pep), d.version, p)
    ensures Triage.MatchingAffected(d, affected, f).Some?
    decreases |affected|
  {
    if affected[0] != p {
      assert p in affected[1..];
      MatchedIsFound(d, affected[1..], p, f);
    }
  }

  predicate Names(e: RawEntry, d: Dependency) {
    e.ecosystem == Some(d.ecosystem) && e.name != "" && Text.Lower(e.name) == Text.Lower(d.name)
  }

  /** Once an entry for this package matches the version, no policy has the finding waved through as unaffected. */
  lemma MatchedEntryIsTriaged(d: Dependency, v: Vulnerability, entries: seq<RawEntry>, e: RawEntry, f: Triage.Feeds)
    requires v.affected == KeptEntries(entries) && e in entries && Names(e, d)
    requires KeptAs(e).Some? && IsAffected(SchemeOf(d.ecosystem, f.pep), d.version, KeptAs(e).value)
    ensures Triage.Affects(d, v, f)
    ensures forall p :: Triage.Triage(d, v, p, f).verdict != Triage.NotAffected
  {
    KeptEntriesIff(entries, KeptAs(e).value);
    MatchedIsFound(d, v.affected, KeptAs(e).value, f);
    forall p ensures Triage.Triage(d, v, p, f).verdict != Triage.NotAffected {
      Triage.ActionableIff(d, v, p, f);
    }
  }

  /** From the record to triage, in every ecosystem, events taken in list order. */
  lemma NothingIsMissedInListOrder(
    d: Dependency, v: Vulnerability, entries: seq<RawEntry>, e: RawEntry, f: Triage.Feeds)
    requires v.affected == KeptEntries(entries) && e in entries && Names(e, d)
    requires Parses(d.ecosystem, f.pep, d.version) && EntryReadable(SchemeOf(d.ecosystem, f.pep), e)
    requires AffectsInListOrder(SchemeOf(d.ecosystem, f.pep), e, d.version)
    ensures Triage.Affects(d, v, f)
    ensures forall p :: Triage.Triage(d, v, p, f).verdict != Triage.NotAffected
  {
    EveryEcosystemIsComparable(d.ecosystem, f.pep);
    AffectedEntryIsMatched(SchemeOf(d.ecosystem, f.pep), e, d.version);
    MatchedEntryIsTriaged(d, v, entries, e, f);
  }

  /**
    From the record to triage, by the schema's own verdict: if some readable entry for this package
    affects the installed version, the finding is not waved through, however its events are listed.
  */
  lemma NoAffectedDependencyIsMissed(
    d: Dependency, v: Vulnerability, entries: seq<RawEntry>, e: RawEntry, f: Triage.Feeds)
    requires v.affected == KeptEntries(entries) && e in entries && Names(e, d)
    requires Parses(d.ecosystem, f.pep, d.version) && EntryReadable(SchemeOf(d.ecosystem, f.pep), e)
    requires Ordered(SchemeOf(d.ecosystem, f.pep)) && NeverOverclosed(SchemeOf(d.ecosystem, f.pep), e)
    requires SchemaAffects(SchemeOf(d.ecosystem, f.pep), e, d.version)
    ensures Triage.Affects(d, v, f)
    ensures forall p :: Triage.Triage(d, v, p, f).verdict != Triage.NotAffected
  {
    SchemaEntryIsMatched(SchemeOf(d.ecosystem, f.pep), e, d.version);
    MatchedEntryIsTriaged(d, v, entries, e, f);
  }

  // ---------- what is dropped ----------

  predicate IntroducesNothing(events: seq<Event>) {
    forall i :: 0 <= i < |events| ==> events[i].introduced.None?
  }

  lemma IntroducesNothingIff(events: seq<Event>)
    requires events != []
    ensures IntroducesNothing(events) <==> events[0].introduced.None? && IntroducesNothing(events[1..])
  {
    assert forall i :: 0 < i < |events| ==> events[i] == events[1..][i - 1];
    assert forall i :: 0 <= i < |events[1..]| ==> events[1..][i] == events[i + 1];
  }

  lemma {:induction false} FoldEmptyIff(events: seq<Event>, open: Option<string>)
    ensures Fold(events, open) == [] <==> open.None? && IntroducesNothing(events)
    decreases |events|
  {
    if events != [] {
      FoldEmptyIff(events[1..], OpenAfter(events[0], open));
      IntroducesNothingIff(events);
    }
  }

  lemma {:induction false} FoldedEmptyIff(ranges: seq<RawRange>)
    ensures FoldedRanges(ranges) == [] <==>
      forall r :: r in ranges && HasVersionEvents(r) ==> Fold(r.events, None) == []
    decreases |ranges|
  {
    if ranges != [] {
      var front, last := ranges[..|ranges| - 1], ranges[|ranges| - 1];
      assert ranges == front + [last];
      FoldedEmptyIff(front);
    }
  }

  lemma NothingListedIff(versions: seq<string>)
    ensures NonEmpty(versions) == [] <==> forall v :: v in versions ==> v == ""
  {
    if v :| v in versions && v != "" {
      NonEmptyKeeps(versions, v);
    }
    if forall v :: v in versions ==> v == "" {
      OnlyBlanks(versions);
    }
  }

  lemma {:induction false} OnlyBlanks(versions: seq<string>)
    requires forall v :: v in versions ==> v == ""
    ensures NonEmpty(versions) == []
    decreases |versions|
  {
    if versions != [] {
      var front := versions[..|versions| - 1];
      assert versions[|versions| - 1] in versions;
      forall v | v in front ensures v == "" {
        assert v in versions;
      }
      OnlyBlanks(front);
    }
  }

  /** The range introduces something, in a form that can be compared. */
  ghost predicate Introduces(r: RawRange) {
    HasVersionEvents(r) && !IntroducesNothing(r.events)
  }

  /**
    An entry is dropped exactly when its ecosystem is unknown, its name is missing, or it lists no
    version and no SEMVER or ECOSYSTEM range of it introduces anything; one with GIT ranges alone is.
  */
  lemma DroppedIff(e: RawEntry)
    ensures KeptAs(e).None? <==>
      || e.ecosystem.None? || e.name == ""
      || ((forall r :: r in e.ranges ==> !Introduces(r)) && (forall v :: v in e.versions ==> v == ""))
    ensures (forall r :: r in e.ranges ==> r.kind == "GIT") && e.versions == [] ==> KeptAs(e).None?
  {
    FoldedEmptyIff(e.ranges);
    NothingListedIff(e.versions);
    forall r | r in e.ranges ensures Fold(r.events, None) == [] <==> IntroducesNothing(r.events) {
      FoldEmptyIff(r.events, None);
    }
  }

  // ---------- the fix of the window a version lies in ----------

  /** Introductions and fixes strictly taking turns. */
  predicate Alternates(events: seq<Event>, open: bool) {
    events == [] ||
    (if open
     then events[0].introduced.None? && events[0].fixed.Some? && Alternates(events[1..], false)
     else events[0].introduced.Some? && Alternates(events[1..], true))
  }

  /** A window with a readable fix after its introduction, or one that never closes. */
  ghost predicate IsWindow(s: Scheme, r: AffectedRange) {
    && r.introduced.Some? && r.introduced.value != "" && r.lastAffected.None?
    && (r.introduced.value == "0" || s.parses(r.introduced.value))
    && (r.fixed.Some? ==>
         && r.fixed.value != "" && s.parses(r.fixed.value)
         && (r.introduced.value == "0" || Below(s, r.introduced.value, r.fixed.value)))
  }

  /** `q` lies wholly above `p`, which is closed. */
  ghost predicate WindowAbove(s: Scheme, p: AffectedRange, q: AffectedRange) {
    && p.fixed.Some? && q.introduced.Some?
    && q.introduced.value != "0" && Below(s, p.fixed.value, q.introduced.value)
    && (q.fixed.Some? ==> Below(s, p.fixed.value, q.fixed.value))
  }

  ghost predicate WindowsAscend(s: Scheme, ranges: seq<AffectedRange>) {
    && (forall i :: 0 <= i < |ranges| ==> IsWindow(s, ranges[i]))
    && (forall i, j :: 0 <= i < j < |ranges| ==> WindowAbove(s, ranges[i], ranges[j]))
  }

  lemma WindowsPrepend(s: Scheme, w: AffectedRange, ranges: seq<AffectedRange>)
    requires IsWindow(s, w) && WindowsAscend(s, ranges)
    requires forall r :: r in ranges ==> WindowAbove(s, w, r)
    ensures WindowsAscend(s, [w] + ranges)
  {
  }

  lemma SecondTail(s: Scheme, events: seq<Event>)
    requires Ascending(s, events) && AllReadable(s, events) && Alternates(events, false) && |events| > 1
    ensures
      var rest := events[1..][1..];
      && Ascending(s, rest) && AllReadable(s, rest) && Alternates(rest, false)
      && events[1].fixed.Some? && BelowAll(s, events[1].fixed.value, rest)
  {
    var rest := events[1..][1..];
    TailIsAscending(s, events);
    TailIsAscending(s, events[1..]);
    assert events[1..][0] == events[1];
    forall i | 0 <= i < |rest| ensures rest[i] == events[i + 2] && Precedes(s, events[1].fixed.value, rest[i]) {
      assert EventBefore(s, events[1], events[i + 2]);
    }
  }

  lemma FirstWindow(s: Scheme, events: seq<Event>)
    requires Ascending(s, events) && AllReadable(s, events) && Alternates(events, false) && |events| > 1
    ensures IsWindow(s, AffectedRange(events[0].introduced, events[1].fixed, None))
  {
    assert events[1..][0] == events[1];
    assert Readable(s, events[0]) && Readable(s, events[1]) && EventBefore(s, events[0], events[1]);
  }

  lemma {:induction false} AlternatingFoldsToWindows(s: Scheme, events: seq<Event>)
    requires Ordered(s) && AllReadable(s, events) && Ascending(s, events) && Alternates(events, false)
    ensures WindowsAscend(s, Fold(events, None))
    decreases |events|
  {
    if |events| == 1 {
      assert Readable(s, events[0]);
      assert Fold(events, None) == [AffectedRange(events[0].introduced, None, None)];
    } else if |events| > 1 {
      var rest := events[1..][1..];
      SecondTail(s, events);
      AlternatingFoldsToWindows(s, rest);
      LaterIntervalsAreAbove(s, rest, events[1].fixed.value, None);
      FirstWindow(s, events);
      assert Fold(events, None) == [AffectedRange(events[0].introduced, events[1].fixed, None)] + Fold(rest, None);
      WindowsPrepend(s, AffectedRange(events[0].introduced, events[1].fixed, None), Fold(rest, None));
    }
  }

  lemma OnlyThisWindowsFix(s: Scheme, version: string, ranges: seq<AffectedRange>, k: nat, j: nat)
    requires Ordered(s) && s.parses(version) && WindowsAscend(s, ranges)
    requires k < |ranges| && InRange(s, version, ranges[k]) == Some(true)
    requires j < |ranges| && FixesAbove(s, version, ranges[j])
    ensures j >= k
    ensures ranges[k].fixed.Some? && (j > k ==> Below(s, ranges[k].fixed.value, ranges[j].fixed.value))
  {
    if j > k {
      assert WindowAbove(s, ranges[k], ranges[j]);
    }
  }

  /** In window k the recommended fix is window k's own; a window that never closes has none. */
  lemma FixOfWindow(s: Scheme, version: string, ranges: seq<AffectedRange>, k: nat, fix: Option<string>)
    requires Ordered(s) && s.parses(version) && WindowsAscend(s, ranges)
    requires k < |ranges| && InRange(s, version, ranges[k]) == Some(true)
    requires IsFirstFix(s, version, ranges, fix)
    ensures fix == ranges[k].fixed
  {
    if ranges[k].fixed.Some? {
      assert s.compare(version, ranges[k].fixed.value).Some?;
      assert s.compare(ranges[k].fixed.value, version).Some?;
      assert ranges[k] in ranges && FixesAbove(s, version, ranges[k]);
      assert IsFixAbove(s, version, ranges, ranges[k].fixed.value);
    }
    if fix.Some? {
      var r :| r in ranges && r.fixed == fix && FixesAbove(s, version, r);
      var j :| 0 <= j < |ranges| && ranges[j] == r;
      OnlyThisWindowsFix(s, version, ranges, k, j);
    }
  }

  /** Upgrading to window k's fix leaves that window and every earlier one. */
  lemma FixLeavesWindows(s: Scheme, ranges: seq<AffectedRange>, k: nat, j: nat)
    requires Ordered(s) && WindowsAscend(s, ranges)
    requires j <= k < |ranges| && ranges[k].fixed.Some?
    ensures InRange(s, ranges[k].fixed.value, ranges[j]) == Some(false)
  {
    var f := ranges[k].fixed.value;
    if j < k {
      assert WindowAbove(s, ranges[j], ranges[k]);
      assert s.compare(f, ranges[j].fixed.value).Some?;
    }
    assert s.compare(f, f) == Some(0);
    if ranges[j].introduced.value != "0" {
      assert s.compare(f, ranges[j].introduced.value).Some?;
    }
  }

  /** From the events to the recommendation, for ascending alternating lists. */
  lemma RecommendedFix(s: Scheme, events: seq<Event>, version: string, k: nat, fix: Option<string>)
    requires Ordered(s) && s.parses(version)
    requires AllReadable(s, events) && Ascending(s, events) && Alternates(events, false)
    requires k < |Fold(events, None)| && InRange(s, version, Fold(events, None)[k]) == Some(true)
    requires IsFirstFix(s, version, Fold(events, None), fix)
    ensures fix == Fold(events, None)[k].fixed
    ensures fix.Some? ==> forall j :: 0 <= j <= k ==> InRange(s, fix.value, Fold(events, None)[j]) == Some(false)
    ensures fix.Some? ==> !Covered(s, fix.value, Fold(events, None))
  {
    var ranges := Fold(events, None);
    AlternatingFoldsToWindows(s, events);
    FixOfWindow(s, version, ranges, k, fix);
    if fix.Some? {
      forall j | 0 <= j <= k ensures InRange(s, fix.value, ranges[j]) == Some(false) {
        FixLeavesWindows(s, ranges, k, j);
      }
      AlternatingDoesNotDouble(events, false);
      RecommendationIsNotAffected(s, events, version, fix.value);
    }
  }

  lemma {:induction false} AlternatingDoesNotDouble(events: seq<Event>, open: bool)
    requires Alternates(events, open)
    ensures !Doubles(events, open)
    decreases |events|
  {
    if events != [] {
      AlternatingDoesNotDouble(events[1..], !open);
    }
  }
}
