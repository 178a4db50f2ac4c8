/**
  Folding OSV events into intervals (app/core/osv.py, `_pair_range_events`, `parse_affected`).

  The reference is the event walk in the "Evaluation" section of the OSV schema, taken in list
  order. The intervals never miss a version the walk calls affected; for strictly ascending lists
  they are compared with the walk exactly.
*/
module OsvRanges {
  import opened Prelude
  import opened Domain
  import opened Versions

  /** One item of an event list; an item that is not an object has no keys. */
  datatype Event = Event(introduced: Option<string>, fixed: Option<string>, lastAffected: Option<string>)

  // ---------- the fold ----------

  /** The intervals still to come, with a window open since `open` or none open. */
  function Fold(events: seq<Event>, open: Option<string>): seq<AffectedRange> {
    if events == [] then
      if open.Some? then [AffectedRange(open, None, None)] else []
    else
      var e, rest := events[0], events[1..];
      if e.introduced.Some? then
        (if open.Some? then [AffectedRange(open, None, None)] else []) + Fold(rest, e.introduced)
      else if e.fixed.Some? then
        (if open.Some? then [AffectedRange(open, e.fixed, None)] else []) + Fold(rest, None)
      else if e.lastAffected.Some? then
        (if open.Some? then [AffectedRange(open, None, e.lastAffected)] else []) + Fold(rest, None)
      else Fold(rest, open)
  }

  /** The window that is open after an event. */
  function OpenAfter(e: Event, open: Option<string>): Option<string> {
    if e.introduced.Some? then e.introduced
    else if e.fixed.Some? || e.lastAffected.Some? then None
    else open
  }

  lemma FoldStep(events: seq<Event>, i: nat, open: Option<string>)
    requires i < |events|
    ensures Fold(events[i..], open) ==
      var e := events[i];
      var closed := if open.None? then [] else
        if e.introduced.Some? then [AffectedRange(open, None, None)]
        else if e.fixed.Some? then [AffectedRange(open, e.fixed, None)]
        else if e.lastAffected.Some? then [AffectedRange(open, None, e.lastAffected)]
        else [];
      closed + Fold(events[i + 1..], OpenAfter(e, open))
  {
    assert events[i..][1..] == events[i + 1..];
  }

  method PairRangeEvents(events: seq<Event>) returns (ranges: seq<AffectedRange>)
    ensures ranges == Fold(events, None)
  {
    ranges := [];
    var currentIntroduced: Option<string> := None;
    var openWindow := false;
    ghost var all := Fold(events, None);
    for i := 0 to |events|
      invariant openWindow <==> currentIntroduced.Some?
      invariant ranges + Fold(events[i..], currentIntroduced) == all
    {
      var e := events[i];
      FoldStep(events, i, currentIntroduced);
      if e.introduced.Some? {
        if openWindow {
          ranges := ranges + [AffectedRange(currentIntroduced, None, None)];
        }
        currentIntroduced := e.introduced;
        openWindow := true;
        continue;
      }
      if e.fixed.Some? {
        if !openWindow {
          continue;
        }
        ranges := ranges + [AffectedRange(currentIntroduced, e.fixed, None)];
        openWindow := false;
        currentIntroduced := None;
        continue;
      }
      if e.lastAffected.Some? {
        if !openWindow {
          continue;
        }
        ranges := ranges + [AffectedRange(currentIntroduced, None, e.lastAffected)];
        openWindow := false;
        currentIntroduced := None;
        continue;
      }
    }
    if openWindow {
      ranges := ranges + [AffectedRange(currentIntroduced, None, None)];
    }
  }

  // ---------- the walk ----------

  /** Every version an event names is one the scheme can read ("0" opens before everything). */
  ghost predicate Readable(s: Scheme, e: Event) {
    && (e.introduced.Some? ==> e.introduced.value != "" && (e.introduced.value == "0" || s.parses(e.introduced.value)))
    && (e.fixed.Some? ==> e.fixed.value != "" && s.parses(e.fixed.value))
    && (e.lastAffected.Some? ==> e.lastAffected.value != "" && s.parses(e.lastAffected.value))
  }

  ghost predicate AllReadable(s: Scheme, events: seq<Event>) {
    forall i :: 0 <= i < |events| ==> Readable(s, events[i])
  }

  /** The version is at or above an introduction. */
  ghost predicate Since(s: Scheme, version: string, introduced: string) {
    introduced == "0" || (s.compare(version, introduced).Some? && s.compare(version, introduced).value >= 0)
  }

  ghost predicate AtOrAbove(s: Scheme, version: string, bound: string) {
    s.compare(version, bound).Some? && s.compare(version, bound).value >= 0
  }

  ghost predicate StrictlyAbove(s: Scheme, version: string, bound: string) {
    s.compare(version, bound).Some? && s.compare(version, bound).value > 0
  }

  ghost function WalkStep(s: Scheme, e: Event, version: string, vulnerable: bool): bool {
    if e.introduced.Some? && Since(s, version, e.introduced.value) then true
    else if e.fixed.Some? && AtOrAbove(s, version, e.fixed.value) then false
    else if e.lastAffected.Some? && StrictlyAbove(s, version, e.lastAffected.value) then false
    else vulnerable
  }

  /** The schema's evaluation of one range, events taken in list order. */
  ghost predicate Walk(s: Scheme, events: seq<Event>, version: string, vulnerable: bool) {
    if events == [] then vulnerable
    else Walk(s, events[1..], version, WalkStep(s, events[0], version, vulnerable))
  }

  // ---------- nothing is missed ----------

  lemma CoveredByFirst(s: Scheme, version: string, first: AffectedRange, rest: seq<AffectedRange>)
    ensures Covered(s, version, [first] + rest) <==>
      InRange(s, version, first) == Some(true) || Covered(s, version, rest)
  {
    var both := [first] + rest;
    assert both[0] == first;
    if Covered(s, version, rest) {
      var r :| r in rest && InRange(s, version, r) == Some(true);
      assert r in both;
    }
  }

  /** The interval closed by an event, at a version at or above its introduction. */
  lemma ClosedInterval(s: Scheme, version: string, open: string, e: Event)
    requires Comparable(s) && s.parses(version) && open != "" && (open == "0" || s.parses(open)) && Readable(s, e)
    ensures InRange(s, version, AffectedRange(Some(open), None, None)) == Some(Since(s, version, open))
    ensures e.fixed.Some? ==>
      InRange(s, version, AffectedRange(Some(open), e.fixed, None))
      == Some(Since(s, version, open) && !AtOrAbove(s, version, e.fixed.value))
    ensures e.lastAffected.Some? ==>
      InRange(s, version, AffectedRange(Some(open), None, e.lastAffected))
      == Some(Since(s, version, open) && !StrictlyAbove(s, version, e.lastAffected.value))
  {
  }

  ghost predicate OpenIsReadable(s: Scheme, open: Option<string>) {
    open.Some? ==> open.value != "" && (open.value == "0" || s.parses(open.value))
  }

  lemma CoveredLater(s: Scheme, version: string, events: seq<Event>, open: Option<string>)
    requires events != [] && Covered(s, version, Fold(events[1..], OpenAfter(events[0], open)))
    ensures Covered(s, version, Fold(events, open))
  {
    var r :| r in Fold(events[1..], OpenAfter(events[0], open)) && InRange(s, version, r) == Some(true);
    assert r in Fold(events, open);
  }

  /** An event that ends the window without ending the vulnerability closes an interval holding the version. */
  lemma CoveredHere(s: Scheme, version: string, events: seq<Event>, open: Option<string>, vulnerable: bool)
    requires Comparable(s) && s.parses(version) && events != [] && Readable(s, events[0]) && OpenIsReadable(s, open)
    requires vulnerable ==> open.Some? && Since(s, version, open.value)
    requires WalkStep(s, events[0], version, vulnerable)
    requires OpenAfter(events[0], open).None? || !Since(s, version, OpenAfter(events[0], open).value)
    ensures Covered(s, version, Fold(events, open))
  {
    ClosedInterval(s, version, open.value, events[0]);
    assert Fold(events, open)[0] in Fold(events, open);
  }

  lemma {:induction false} WalkIsCoveredFrom(
    s: Scheme, events: seq<Event>, version: string, open: Option<string>, vulnerable: bool)
    requires Comparable(s) && s.parses(version) && AllReadable(s, events) && OpenIsReadable(s, open)
    requires vulnerable ==> open.Some? && Since(s, version, open.value)
    requires Walk(s, events, version, vulnerable)
    ensures Covered(s, version, Fold(events, open))
    decreases |events|
  {
    if events == [] {
      ClosedInterval(s, version, open.value, Event(None, None, None));
      assert AffectedRange(open, None, None) in Fold(events, open);
    } else {
      var e, rest := events[0], events[1..];
      var next := WalkStep(s, e, version, vulnerable);
      var open' := OpenAfter(e, open);
      if next ==> open'.Some? && Since(s, version, open'.value) {
        WalkIsCoveredFrom(s, rest, version, open', next);
        CoveredLater(s, version, events, open);
      } else {
        CoveredHere(s, version, events, open, vulnerable);
      }
    }
  }

  /** For any readable events in any order: what the walk calls affected lies in some interval. */
  lemma NothingAffectedIsMissed(s: Scheme, events: seq<Event>, version: string)
    requires Comparable(s) && s.parses(version) && AllReadable(s, events)
    requires Walk(s, events, version, false)
    ensures Covered(s, version, Fold(events, None))
  {
    WalkIsCoveredFrom(s, events, version, None, false);
  }

  // ---------- ascending lists ----------

  predicate SingleKey(e: Event) {
    && !(e.introduced.Some? && e.fixed.Some?)
    && !(e.introduced.Some? && e.lastAffected.Some?)
    && !(e.fixed.Some? && e.lastAffected.Some?)
  }

  /** `bound` comes before the version the event names, which is therefore not the opening "0". */
  ghost predicate Precedes(s: Scheme, bound: string, e: Event) {
    && (e.introduced.Some? ==> e.introduced.value != "0" && Below(s, bound, e.introduced.value))
    && (e.fixed.Some? ==> Below(s, bound, e.fixed.value))
    && (e.lastAffected.Some? ==> Below(s, bound, e.lastAffected.value))
  }

  ghost predicate Below(s: Scheme, a: string, b: string) {
    s.compare(a, b).Some? && s.compare(a, b).value < 0
  }

  /** `e` comes before `f` in version order. */
  ghost predicate EventBefore(s: Scheme, e: Event, f: Event) {
    && (e.introduced == Some("0") ==> f.introduced != Some("0"))
    && (e.introduced.Some? && e.introduced.value != "0" ==> Precedes(s, e.introduced.value, f))
    && (e.fixed.Some? ==> Precedes(s, e.fixed.value, f))
    && (e.lastAffected.Some? ==> Precedes(s, e.lastAffected.value, f))
  }

  ghost predicate Ascending(s: Scheme, events: seq<Event>) {
    && (forall i :: 0 <= i < |events| ==> SingleKey(events[i]))
    && (forall i, j :: 0 <= i < j < |events| ==> EventBefore(s, events[i], events[j]))
  }

  /** The version lies below everything the events name. */
  ghost predicate BelowAll(s: Scheme, version: string, events: seq<Event>) {
    forall i :: 0 <= i < |events| ==> Precedes(s, version, events[i])
  }

  /** The version is at or above an introduction that a second one followed before any closing event. */
  ghost predicate AboveDoubled(s: Scheme, events: seq<Event>, version: string, open: Option<string>) {
    if events == [] then false
    else
      var e, rest := events[0], events[1..];
      if e.introduced.Some? then
        (open.Some? && Since(s, version, open.value)) || AboveDoubled(s, rest, version, e.introduced)
      else if e.fixed.Some? || e.lastAffected.Some? then AboveDoubled(s, rest, version, None)
      else AboveDoubled(s, rest, version, open)
  }

  ghost predicate OpensAbove(s: Scheme, version: string, open: Option<string>) {
    open.Some? ==> open.value != "" && open.value != "0" && Below(s, version, open.value)
  }

  /** Events above the version change nothing in the walk, and double nothing below it. */
  lemma {:induction false} LaterEventsAreSilent(
    s: Scheme, events: seq<Event>, version: string, open: Option<string>, vulnerable: bool)
    requires Ordered(s) && AllReadable(s, events) && BelowAll(s, version, events) && OpensAbove(s, version, open)
    ensures Walk(s, events, version, vulnerable) == vulnerable
    ensures !AboveDoubled(s, events, version, open)
    decreases |events|
  {
    if events != [] {
      var e := events[0];
      assert Precedes(s, version, e) && Readable(s, e);
      LaterEventsAreSilent(s, events[1..], version, OpenAfter(e, open), vulnerable);
    }
  }

  /** No interval that later events open holds the version. */
  lemma {:induction false} LaterIntervalsAreAbove(s: Scheme, events: seq<Event>, version: string, open: Option<string>)
    requires AllReadable(s, events) && BelowAll(s, version, events) && OpensAbove(s, version, open)
    ensures forall r :: r in Fold(events, open) ==>
      && r.introduced.Some? && OpensAbove(s, version, r.introduced)
      && (r.fixed.Some? ==> Below(s, version, r.fixed.value))
    ensures !Covered(s, version, Fold(events, open))
    decreases |events|
  {
    if events != [] {
      var e := events[0];
      assert Precedes(s, version, e) && Readable(s, e);
      LaterIntervalsAreAbove(s, events[1..], version, OpenAfter(e, open));
    }
    forall r | r in Fold(events, open) ensures InRange(s, version, r) != Some(true) {
    }
  }

  /** The event comes after an introduction. */
  ghost predicate Follows(s: Scheme, introduced: string, e: Event) {
    if introduced == "0" then e.introduced != Some("0") else Precedes(s, introduced, e)
  }

  /** The events all come after the introduction that opened the window. */
  ghost predicate AfterOpen(s: Scheme, open: Option<string>, events: seq<Event>) {
    open.Some? ==> forall i :: 0 <= i < |events| ==> Follows(s, open.value, events[i])
  }

  lemma TailIsAscending(s: Scheme, events: seq<Event>)
    requires events != [] && Ascending(s, events)
    ensures Ascending(s, events[1..])
    ensures events[0].introduced.Some? ==> AfterOpen(s, events[0].introduced, events[1..])
  {
    var rest := events[1..];
    forall i, j | 0 <= i < j < |rest| ensures EventBefore(s, rest[i], rest[j]) {
      assert EventBefore(s, events[i + 1], events[j + 1]);
    }
    forall i | 0 <= i < |rest| ensures SingleKey(rest[i]) && EventBefore(s, events[0], rest[i]) {
      assert EventBefore(s, events[0], events[i + 1]);
    }
  }

  /** A version at or before a closing event is below everything that comes after that event. */
  lemma BelowTheRest(s: Scheme, events: seq<Event>, version: string)
    requires Ordered(s) && s.parses(version) && events != [] && Ascending(s, events) && AllReadable(s, events)
    requires events[0].introduced.None?
    requires || (events[0].fixed.Some? && !AtOrAbove(s, version, events[0].fixed.value))
             || (events[0].lastAffected.Some? && !StrictlyAbove(s, version, events[0].lastAffected.value))
    ensures BelowAll(s, version, events[1..])
  {
    var rest := events[1..];
    var bound := if events[0].fixed.Some? then events[0].fixed.value else events[0].lastAffected.value;
    assert Readable(s, events[0]) && SingleKey(events[0]);
    assert s.compare(version, bound).Some? && s.compare(version, bound).value <= 0;
    forall i | 0 <= i < |rest| ensures Precedes(s, version, rest[i]) {
      assert EventBefore(s, events[0], events[i + 1]);
      assert Readable(s, events[i + 1]);
    }
  }

  /** What a closing event contributes, given the exact content of the intervals after it. */
  lemma ClosingStep(s: Scheme, events: seq<Event>, version: string, open: Option<string>)
    requires Ordered(s) && s.parses(version) && AllReadable(s, events) && events != [] && Ascending(s, events)
    requires OpenIsReadable(s, open)
    requires events[0].introduced.None? && (events[0].fixed.Some? || events[0].lastAffected.Some?)
    requires Covered(s, version, Fold(events[1..], None)) <==>
      Walk(s, events[1..], version, false) || AboveDoubled(s, events[1..], version, None)
    ensures Covered(s, version, Fold(events, open)) <==>
      Walk(s, events, version, open.Some? && Since(s, version, open.value)) || AboveDoubled(s, events, version, open)
  {
    var e, rest := events[0], events[1..];
    var vulnerable := open.Some? && Since(s, version, open.value);
    assert Readable(s, e) && SingleKey(e);
    if open.Some? {
      ClosedInterval(s, version, open.value, e);
      CoveredByFirst(s, version, AffectedRange(open, e.fixed, e.lastAffected), Fold(rest, None));
    }
    if WalkStep(s, e, version, true) {
      BelowTheRest(s, events, version);
      LaterEventsAreSilent(s, rest, version, None, vulnerable);
      LaterEventsAreSilent(s, rest, version, None, false);
    }
  }

  /** What an introduction contributes, given the exact content of the intervals after it. */
  lemma OpeningStep(s: Scheme, events: seq<Event>, version: string, open: Option<string>)
    requires Ordered(s) && s.parses(version) && AllReadable(s, events) && events != [] && Ascending(s, events)
    requires OpenIsReadable(s, open) && AfterOpen(s, open, events) && events[0].introduced.Some?
    requires Covered(s, version, Fold(events[1..], events[0].introduced)) <==>
      || Walk(s, events[1..], version, Since(s, version, events[0].introduced.value))
      || AboveDoubled(s, events[1..], version, events[0].introduced)
    ensures Covered(s, version, Fold(events, open)) <==>
      Walk(s, events, version, open.Some? && Since(s, version, open.value)) || AboveDoubled(s, events, version, open)
  {
    var e, rest := events[0], events[1..];
    assert Readable(s, e) && SingleKey(e);
    if open.Some? {
      ClosedInterval(s, version, open.value, e);
      CoveredByFirst(s, version, AffectedRange(open, None, None), Fold(rest, e.introduced));
    }
  }

  /** The exact content of the intervals, from any point of an ascending list. */
  lemma {:induction false} CoveredExactlyFrom(s: Scheme, events: seq<Event>, version: string, open: Option<string>)
    requires Ordered(s) && s.parses(version) && AllReadable(s, events) && Ascending(s, events)
    requires OpenIsReadable(s, open) && AfterOpen(s, open, events)
    ensures Covered(s, version, Fold(events, open)) <==>
      Walk(s, events, version, open.Some? && Since(s, version, open.value)) || AboveDoubled(s, events, version, open)
    decreases |events|
  {
    var vulnerable := open.Some? && Since(s, version, open.value);
    if events == [] {
      if open.Some? {
        ClosedInterval(s, version, open.value, Event(None, None, None));
        CoveredByFirst(s, version, AffectedRange(open, None, None), []);
      }
    } else {
      var e, rest := events[0], events[1..];
      TailIsAscending(s, events);
      assert Readable(s, e) && SingleKey(e);
      if e.introduced.Some? {
        CoveredExactlyFrom(s, rest, version, e.introduced);
        OpeningStep(s, events, version, open);
      } else if e.fixed.Some? || e.lastAffected.Some? {
        CoveredExactlyFrom(s, rest, version, None);
        ClosingStep(s, events, version, open);
      } else {
        assert AfterOpen(s, open, rest);
        CoveredExactlyFrom(s, rest, version, open);
      }
    }
  }

  /**
    For strictly ascending readable events the intervals hold exactly the versions the walk calls
    affected, and those at or above an introduction that was followed by another.
  */
  lemma AscendingCoverage(s: Scheme, events: seq<Event>, version: string)
    requires Ordered(s) && s.parses(version) && AllReadable(s, events) && Ascending(s, events)
    ensures Covered(s, version, Fold(events, None)) <==>
      Walk(s, events, version, false) || AboveDoubled(s, events, version, None)
  {
    CoveredExactlyFrom(s, events, version, None);
  }

  // ---------- when the intervals are the walk ----------

  /** A second introduction arrives while a window is open. */
  predicate Doubles(events: seq<Event>, open: bool) {
    if events == [] then false
    else if events[0].introduced.Some? then open || Doubles(events[1..], true)
    else if events[0].fixed.Some? || events[0].lastAffected.Some? then Doubles(events[1..], false)
    else Doubles(events[1..], open)
  }

  predicate Fixes(events: seq<Event>) {
    exists i :: 0 <= i < |events| && events[i].fixed.Some?
  }

  /** A fix comes somewhere after a doubled introduction. */
  predicate FixesAfterDouble(events: seq<Event>, open: bool) {
    if events == [] then false
    else if events[0].introduced.Some? then (open && Fixes(events[1..])) || FixesAfterDouble(events[1..], true)
    else if events[0].fixed.Some? || events[0].lastAffected.Some? then FixesAfterDouble(events[1..], false)
    else FixesAfterDouble(events[1..], open)
  }

  /** The version is past the last affected one of event `k`, and before every later introduction. */
  ghost predicate PastLast(s: Scheme, events: seq<Event>, version: string, k: nat) {
    && k < |events| && events[k].lastAffected.Some? && StrictlyAbove(s, version, events[k].lastAffected.value)
    && forall j :: k < j < |events| && events[j].introduced.Some? ==> !Since(s, version, events[j].introduced.value)
  }

  ghost predicate InGap(s: Scheme, events: seq<Event>, version: string) {
    exists k :: PastLast(s, events, version, k)
  }

  /** The version lies in the gap a last affected version leaves somewhere after a doubled introduction. */
  ghost predicate GapAfterDouble(s: Scheme, events: seq<Event>, version: string, open: bool) {
    if events == [] then false
    else if events[0].introduced.Some? then
      (open && InGap(s, events[1..], version)) || GapAfterDouble(s, events[1..], version, true)
    else if events[0].fixed.Some? || events[0].lastAffected.Some? then GapAfterDouble(s, events[1..], version, false)
    else GapAfterDouble(s, events[1..], version, open)
  }

  lemma {:induction false} NoDoubleNoSurplus(s: Scheme, events: seq<Event>, version: string, open: Option<string>)
    requires !Doubles(events, open.Some?)
    ensures !AboveDoubled(s, events, version, open)
    decreases |events|
  {
    if events != [] {
      var e := events[0];
      NoDoubleNoSurplus(s, events[1..], version, OpenAfter(e, open));
    }
  }

  /** With no two introductions in a row, interval membership and the walk are the same thing. */
  lemma IntervalsAreTheWalk(s: Scheme, events: seq<Event>, version: string)
    requires Ordered(s) && s.parses(version) && AllReadable(s, events) && Ascending(s, events)
    requires !Doubles(events, false)
    ensures Covered(s, version, Fold(events, None)) <==> Walk(s, events, version, false)
  {
    AscendingCoverage(s, events, version);
    NoDoubleNoSurplus(s, events, version, None);
  }

  /** Some introduction is at or below the version. */
  ghost predicate Reintroduced(s: Scheme, events: seq<Event>, version: string) {
    exists j :: 0 <= j < |events| && events[j].introduced.Some? && Since(s, version, events[j].introduced.value)
  }

  lemma PastLastInTail(s: Scheme, events: seq<Event>, version: string, k: nat)
    requires events != [] && PastLast(s, events[1..], version, k)
    ensures PastLast(s, events, version, k + 1)
  {
    forall j | k + 1 < j < |events| && events[j].introduced.Some?
      ensures !Since(s, version, events[j].introduced.value)
    {
      assert events[1..][j - 1] == events[j];
    }
  }

  lemma ReintroducedInTail(s: Scheme, events: seq<Event>, version: string)
    requires events != [] && Reintroduced(s, events, version)
    ensures (events[0].introduced.Some? && Since(s, version, events[0].introduced.value))
         || Reintroduced(s, events[1..], version)
  {
    var j :| 0 <= j < |events| && events[j].introduced.Some? && Since(s, version, events[j].introduced.value);
    if j > 0 {
      assert events[1..][j - 1] == events[j];
    }
  }

  /** A gap after the first event, or the one that a last affected version at the front leaves. */
  lemma GapInTail(s: Scheme, events: seq<Event>, version: string)
    requires events != []
    ensures InGap(s, events[1..], version) ==> InGap(s, events, version)
    ensures events[0].lastAffected.Some? && StrictlyAbove(s, version, events[0].lastAffected.value) ==>
      InGap(s, events, version) || Reintroduced(s, events[1..], version)
  {
    var rest := events[1..];
    assert forall i :: 0 <= i < |rest| ==> rest[i] == events[i + 1];
    if InGap(s, rest, version) {
      var k: nat :| PastLast(s, rest, version, k);
      PastLastInTail(s, events, version, k);
    }
    if events[0].lastAffected.Some? && StrictlyAbove(s, version, events[0].lastAffected.value)
       && !Reintroduced(s, rest, version) {
      forall j | 0 < j < |events| && events[j].introduced.Some? ensures !Since(s, version, events[j].introduced.value) {
        assert rest[j - 1] == events[j];
      }
      assert PastLast(s, events, version, 0);
    }
  }

  /** With no fix to come and the version in no gap, vulnerable now or reintroduced later is vulnerable in the end. */
  lemma {:induction false} StaysVulnerable(s: Scheme, events: seq<Event>, version: string, vulnerable: bool)
    requires forall i :: 0 <= i < |events| ==> SingleKey(events[i])
    requires !Fixes(events) && !InGap(s, events, version)
    requires vulnerable || Reintroduced(s, events, version)
    ensures Walk(s, events, version, vulnerable)
    decreases |events|
  {
    if events != [] {
      var e, rest := events[0], events[1..];
      assert !e.fixed.Some? && SingleKey(e);
      assert forall i :: 0 <= i < |rest| ==> rest[i] == events[i + 1];
      GapInTail(s, events, version);
      if Reintroduced(s, events, version) {
        ReintroducedInTail(s, events, version);
      }
      StaysVulnerable(s, rest, version, WalkStep(s, e, version, vulnerable));
    }
  }

  lemma {:induction false} HarmlessDouble(
    s: Scheme, events: seq<Event>, version: string, open: Option<string>, vulnerable: bool)
    requires forall i :: 0 <= i < |events| ==> SingleKey(events[i])
    requires !FixesAfterDouble(events, open.Some?) && !GapAfterDouble(s, events, version, open.Some?)
    requires open.Some? && Since(s, version, open.value) ==> vulnerable
    requires AboveDoubled(s, events, version, open)
    ensures Walk(s, events, version, vulnerable)
    decreases |events|
  {
    var e, rest := events[0], events[1..];
    var next := WalkStep(s, e, version, vulnerable);
    assert SingleKey(e);
    if e.introduced.Some? {
      if open.Some? && Since(s, version, open.value) {
        StaysVulnerable(s, rest, version, next);
      } else {
        HarmlessDouble(s, rest, version, e.introduced, next);
      }
    } else if e.fixed.Some? || e.lastAffected.Some? {
      HarmlessDouble(s, rest, version, None, next);
    } else {
      HarmlessDouble(s, rest, version, open, next);
    }
  }

  /** At its own fix a version is walked to "not affected", whatever came before. */
  lemma {:induction false} FixEndsWalk(s: Scheme, events: seq<Event>, i: nat, vulnerable: bool)
    requires Ordered(s) && AllReadable(s, events) && Ascending(s, events)
    requires i < |events| && events[i].fixed.Some?
    ensures !Walk(s, events, events[i].fixed.value, vulnerable)
    decreases i
  {
    var f := events[i].fixed.value;
    var e, rest := events[0], events[1..];
    assert Readable(s, events[i]);
    TailIsAscending(s, events);
    if i == 0 {
      assert SingleKey(e);
      forall j | 0 <= j < |rest| ensures Precedes(s, f, rest[j]) {
        assert EventBefore(s, events[0], events[j + 1]);
      }
      LaterEventsAreSilent(s, rest, f, None, false);
    } else {
      assert rest[i - 1] == events[i];
      FixEndsWalk(s, rest, i - 1, WalkStep(s, e, f, vulnerable));
    }
  }

  lemma WindowStaysBefore(s: Scheme, events: seq<Event>, open: Option<string>)
    requires events != [] && Ascending(s, events) && AfterOpen(s, open, events)
    ensures AfterOpen(s, OpenAfter(events[0], open), events[1..]) && Ascending(s, events[1..])
  {
    TailIsAscending(s, events);
    if open.Some? {
      forall i | 0 <= i < |events[1..]| ensures Follows(s, open.value, events[1..][i]) {
        assert Follows(s, open.value, events[i + 1]);
      }
    }
  }

  lemma SomeFixFollows(events: seq<Event>) returns (i: nat)
    requires events != [] && Fixes(events[1..])
    ensures i < |events| && events[i].fixed.Some?
  {
    var rest := events[1..];
    var j :| 0 <= j < |rest| && rest[j].fixed.Some?;
    assert rest[j] == events[j + 1];
    i := j + 1;
  }

  /** A fix after a doubled introduction is itself reported as affected, wrongly. */
  lemma {:induction false} FixAfterDouble(s: Scheme, events: seq<Event>, open: Option<string>) returns (i: nat)
    requires Ordered(s) && AllReadable(s, events) && Ascending(s, events) && AfterOpen(s, open, events)
    requires OpenIsReadable(s, open)
    requires FixesAfterDouble(events, open.Some?)
    ensures i < |events| && events[i].fixed.Some?
    ensures AboveDoubled(s, events, events[i].fixed.value, open)
    decreases |events|
  {
    var e, rest := events[0], events[1..];
    if e.introduced.Some? && open.Some? && Fixes(rest) {
      i := SomeFixFollows(events);
    } else {
      WindowStaysBefore(s, events, open);
      assert forall k :: 0 <= k < |rest| ==> rest[k] == events[k + 1];
      var j := FixAfterDouble(s, rest, OpenAfter(e, open));
      i := j + 1;
    }
  }

  lemma {:induction false} PastLastEndsWalk(s: Scheme, events: seq<Event>, version: string, k: nat, vulnerable: bool)
    requires forall i :: 0 <= i < |events| ==> SingleKey(events[i])
    requires PastLast(s, events, version, k)
    ensures !Walk(s, events, version, vulnerable)
    decreases k
  {
    var e, rest := events[0], events[1..];
    assert SingleKey(e);
    assert forall i :: 0 <= i < |rest| ==> rest[i] == events[i + 1];
    if k == 0 {
      NothingReintroduces(s, rest, version);
    } else {
      PastLastEndsWalk(s, rest, version, k - 1, WalkStep(s, e, version, vulnerable));
    }
  }

  lemma {:induction false} NothingReintroduces(s: Scheme, events: seq<Event>, version: string)
    requires forall j :: 0 <= j < |events| && events[j].introduced.Some? ==>
      !Since(s, version, events[j].introduced.value)
    ensures !Walk(s, events, version, false)
    decreases |events|
  {
    if events != [] {
      assert forall i :: 0 <= i < |events[1..]| ==> events[1..][i] == events[i + 1];
      NothingReintroduces(s, events[1..], version);
    }
  }

  lemma LastIsSince(s: Scheme, open: string, e: Event, version: string)
    requires Ordered(s) && Readable(s, e) && e.lastAffected.Some? && (open == "0" || s.parses(open))
    requires Follows(s, open, e) && StrictlyAbove(s, version, e.lastAffected.value)
    ensures Since(s, version, open)
  {
    if open != "0" {
      assert s.parses(version) && s.compare(open, e.lastAffected.value).Some?;
      assert s.compare(e.lastAffected.value, version).Some? && s.compare(open, version).Some?;
    }
  }

  lemma GapBehindOpen(s: Scheme, events: seq<Event>, version: string, open: string)
    requires Ordered(s) && AllReadable(s, events) && Ascending(s, events) && AfterOpen(s, Some(open), events)
    requires OpenIsReadable(s, Some(open))
    requires events != [] && InGap(s, events[1..], version)
    ensures Since(s, version, open)
    ensures forall vulnerable :: !Walk(s, events, version, vulnerable)
  {
    var k: nat :| PastLast(s, events[1..], version, k);
    PastLastInTail(s, events, version, k);
    PastLastIsSince(s, events, version, k + 1, open);
    forall vulnerable ensures !Walk(s, events, version, vulnerable) {
      PastLastEndsWalk(s, events, version, k + 1, vulnerable);
    }
  }

  lemma PastLastIsSince(s: Scheme, events: seq<Event>, version: string, k: nat, open: string)
    requires Ordered(s) && AllReadable(s, events) && AfterOpen(s, Some(open), events)
    requires OpenIsReadable(s, Some(open)) && PastLast(s, events, version, k)
    ensures Since(s, version, open)
  {
    assert Follows(s, open, events[k]) && Readable(s, events[k]);
    LastIsSince(s, open, events[k], version);
  }

  /** A version in a gap after a doubled introduction is reported as affected, wrongly. */
  lemma {:induction false} GapIsReported(s: Scheme, events: seq<Event>, version: string, open: Option<string>)
    requires Ordered(s) && AllReadable(s, events) && Ascending(s, events) && AfterOpen(s, open, events)
    requires OpenIsReadable(s, open)
    requires GapAfterDouble(s, events, version, open.Some?)
    ensures AboveDoubled(s, events, version, open)
    ensures forall vulnerable :: !Walk(s, events, version, vulnerable)
    decreases |events|
  {
    var e, rest := events[0], events[1..];
    assert forall k :: 0 <= k < |rest| ==> rest[k] == events[k + 1];
    if e.introduced.Some? && open.Some? && InGap(s, rest, version) {
      GapBehindOpen(s, events, version, open.value);
    } else {
      WindowStaysBefore(s, events, open);
      GapIsReported(s, rest, version, OpenAfter(e, open));
      forall vulnerable ensures !Walk(s, events, version, vulnerable) {
        assert !Walk(s, rest, version, WalkStep(s, e, version, vulnerable));
      }
    }
  }

  /** The intervals and the walk agree at every version. */
  ghost predicate AgreesEverywhere(s: Scheme, events: seq<Event>) {
    forall version :: s.parses(version) ==>
      (Covered(s, version, Fold(events, None)) <==> Walk(s, events, version, false))
  }

  /**
    Ascending lists: the intervals agree with the walk at every version exactly when no fix comes
    after a doubled introduction, and no version lies past a last affected one that does and before
    whatever is introduced next.
  */
  lemma ExactIffNothingAfterDouble(s: Scheme, events: seq<Event>)
    requires Ordered(s) && AllReadable(s, events) && Ascending(s, events)
    ensures AgreesEverywhere(s, events) <==>
      && !FixesAfterDouble(events, false)
      && forall version :: s.parses(version) ==> !GapAfterDouble(s, events, version, false)
  {
    if FixesAfterDouble(events, false) {
      var i := FixAfterDouble(s, events, None);
      var f := events[i].fixed.value;
      assert Readable(s, events[i]);
      FixEndsWalk(s, events, i, false);
      AscendingCoverage(s, events, f);
      assert s.parses(f);
    } else if version :| s.parses(version) && GapAfterDouble(s, events, version, false) {
      GapIsReported(s, events, version, None);
      AscendingCoverage(s, events, version);
    } else {
      forall version | s.parses(version)
        ensures Covered(s, version, Fold(events, None)) <==> Walk(s, events, version, false)
      {
        AscendingCoverage(s, events, version);
        if AboveDoubled(s, events, version, None) {
          HarmlessDouble(s, events, version, None, false);
        }
      }
    }
  }

  lemma {:induction false} NoLastNoGap(s: Scheme, events: seq<Event>, version: string, open: bool)
    requires forall i :: 0 <= i < |events| ==> events[i].lastAffected.None?
    ensures !GapAfterDouble(s, events, version, open)
    decreases |events|
  {
    if events != [] {
      assert forall i :: 0 <= i < |events[1..]| ==> events[1..][i] == events[i + 1];
      NoLastNoGap(s, events[1..], version, OpenAfter(events[0], if open then Some("") else None).Some?);
    }
  }

  /** Ascending lists of introductions and fixes: exactly when no fix comes after a doubled introduction. */
  lemma ExactIffNoFixAfterDouble(s: Scheme, events: seq<Event>)
    requires Ordered(s) && AllReadable(s, events) && Ascending(s, events)
    requires forall i :: 0 <= i < |events| ==> events[i].lastAffected.None?
    ensures AgreesEverywhere(s, events) <==> !FixesAfterDouble(events, false)
  {
    ExactIffNothingAfterDouble(s, events);
    forall version | s.parses(version) ensures !GapAfterDouble(s, events, version, false) {
      NoLastNoGap(s, events, version, false);
    }
  }

  /** A fix reported as affected comes after a doubled introduction. */
  lemma {:induction false} ReportedFixIsAfterDouble(s: Scheme, events: seq<Event>, i: nat, open: Option<string>)
    requires Ordered(s) && AllReadable(s, events) && Ascending(s, events)
    requires i < |events| && events[i].fixed.Some? && AboveDoubled(s, events, events[i].fixed.value, open)
    ensures FixesAfterDouble(events, open.Some?)
    decreases |events|
  {
    var f := events[i].fixed.value;
    var e, rest := events[0], events[1..];
    assert Readable(s, events[i]) && SingleKey(e);
    assert forall k :: 0 <= k < |rest| ==> rest[k] == events[k + 1];
    TailIsAscending(s, events);
    if i == 0 {
      forall j | 0 <= j < |rest| ensures Precedes(s, f, rest[j]) {
        assert EventBefore(s, events[0], events[j + 1]);
      }
      LaterEventsAreSilent(s, rest, f, None, false);
      assert false;
    } else if e.introduced.Some? && open.Some? {
      assert rest[i - 1].fixed.Some? && Fixes(rest);
    } else {
      ReportedFixIsAfterDouble(s, rest, i - 1, OpenAfter(e, open));
    }
  }

  /** Ascending lists: no fix is itself reported as affected exactly when none follows a doubled introduction. */
  lemma NoFixIsAffectedIff(s: Scheme, events: seq<Event>)
    requires Ordered(s) && AllReadable(s, events) && Ascending(s, events)
    ensures (forall i :: 0 <= i < |events| && events[i].fixed.Some? ==>
               !Covered(s, events[i].fixed.value, Fold(events, None)))
       <==> !FixesAfterDouble(events, false)
  {
    forall i | 0 <= i < |events| && events[i].fixed.Some?
      ensures Covered(s, events[i].fixed.value, Fold(events, None)) <==>
        AboveDoubled(s, events, events[i].fixed.value, None)
    {
      assert Readable(s, events[i]);
      AscendingCoverage(s, events, events[i].fixed.value);
      FixEndsWalk(s, events, i, false);
    }
    if FixesAfterDouble(events, false) {
      var i := FixAfterDouble(s, events, None);
    } else {
      forall i | 0 <= i < |events| && events[i].fixed.Some?
        ensures !AboveDoubled(s, events, events[i].fixed.value, None)
      {
        if AboveDoubled(s, events, events[i].fixed.value, None) {
          ReportedFixIsAfterDouble(s, events, i, None);
        }
      }
    }
  }

  lemma {:induction false} FoldedFixIsAnEvent(events: seq<Event>, open: Option<string>, r: AffectedRange)
    returns (i: nat)
    requires r in Fold(events, open) && r.fixed.Some?
    ensures i < |events| && events[i].fixed == r.fixed
    decreases |events|
  {
    var rest := Fold(events[1..], OpenAfter(events[0], open));
    if r in rest {
      var j := FoldedFixIsAnEvent(events[1..], OpenAfter(events[0], open), r);
      i := j + 1;
    } else {
      i := 0;
    }
  }

  lemma {:induction false} NoDoubleNoFixAfter(events: seq<Event>, open: bool)
    requires !Doubles(events, open)
    ensures !FixesAfterDouble(events, open)
    decreases |events|
  {
    if events != [] {
      NoDoubleNoFixAfter(events[1..], OpenAfter(events[0], if open then Some("") else None).Some?);
    }
  }

  /** With no two introductions in a row, no fix the program could recommend is itself in an interval. */
  lemma RecommendationIsNotAffected(s: Scheme, events: seq<Event>, version: string, f: string)
    requires Ordered(s) && AllReadable(s, events) && Ascending(s, events) && !Doubles(events, false)
    requires IsFixAbove(s, version, Fold(events, None), f)
    ensures !Covered(s, f, Fold(events, None))
  {
    var r :| r in Fold(events, None) && r.fixed == Some(f) && FixesAbove(s, version, r);
    var i := FoldedFixIsAnEvent(events, None, r);
    NoDoubleNoFixAfter(events, false);
    NoFixIsAffectedIff(s, events);
  }

  /** Introduced at a, again at b, fixed at f: the fix itself lies in an interval, but is not affected. */
  lemma DoubledIntroductionOverreports(s: Scheme, a: string, b: string, f: string)
    requires Ordered(s) && a != "" && b != "" && f != "" && a != "0" && b != "0"
    requires Below(s, a, b) && Below(s, b, f)
    ensures
      var events := [Event(Some(a), None, None), Event(Some(b), None, None), Event(None, Some(f), None)];
      Covered(s, f, Fold(events, None)) && !Walk(s, events, f, false)
  {
    var events := [Event(Some(a), None, None), Event(Some(b), None, None), Event(None, Some(f), None)];
    assert s.compare(f, f) == Some(0) && s.compare(f, a).Some?;
    var second, third := events[1..], events[1..][1..];
    assert second[0] == events[1] && third[0] == events[2] && third[1..] == [];
    var r := AffectedRange(Some(a), None, None);
    assert Fold(events, None) == Fold(second, Some(a)) && Fold(second, Some(a)) == [r] + Fold(third, Some(b));
    assert r in Fold(events, None) && InRange(s, f, r) == Some(true);
    forall vulnerable ensures !Walk(s, third, f, vulnerable) {
      assert !WalkStep(s, third[0], f, vulnerable);
      assert Walk(s, third, f, vulnerable) == Walk(s, third[1..], f, WalkStep(s, third[0], f, vulnerable));
    }
    forall vulnerable ensures !Walk(s, second, f, vulnerable) {
      assert Walk(s, second, f, vulnerable) == Walk(s, third, f, WalkStep(s, second[0], f, vulnerable));
    }
    assert Walk(s, events, f, false) == Walk(s, second, f, WalkStep(s, events[0], f, false));
  }
}
