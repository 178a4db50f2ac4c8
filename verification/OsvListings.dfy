/**
  Event lists that are not in version order (app/core/osv.py, `_pair_range_events`).

  The "Evaluation" section of the OSV schema walks the events sorted by version; the fold takes them
  as they are listed. Whether a listing can miss an affected version is a matter of counting.
*/
module OsvListings {
  import opened Prelude
  import opened Domain
  import opened Versions
  import opened OsvRanges

  /** `sorted` is the version order of the listed events. */
  ghost predicate SortedFrom(s: Scheme, listed: seq<Event>, sorted: seq<Event>) {
    multiset(listed) == multiset(sorted) && Ascending(s, sorted)
  }

  predicate IsClosing(e: Event) {
    e.fixed.Some? || e.lastAffected.Some?
  }

  /** The event introduces the version, or an earlier one. */
  ghost predicate Opens(s: Scheme, e: Event, version: string) {
    e.introduced.Some? && Since(s, version, e.introduced.value)
  }

  /** The event ends before the version. */
  ghost predicate Clears(s: Scheme, e: Event, version: string) {
    || (e.fixed.Some? && AtOrAbove(s, version, e.fixed.value))
    || (e.lastAffected.Some? && StrictlyAbove(s, version, e.lastAffected.value))
  }

  ghost function Opening(s: Scheme, events: seq<Event>, version: string): nat {
    if events == [] then 0 else (if Opens(s, events[0], version) then 1 else 0) + Opening(s, events[1..], version)
  }

  ghost function Clearing(s: Scheme, events: seq<Event>, version: string): nat {
    if events == [] then 0 else (if Clears(s, events[0], version) then 1 else 0) + Clearing(s, events[1..], version)
  }

  // ---------- more introduced than cleared is covered ----------

  ghost function OpenCount(s: Scheme, open: Option<string>, version: string): nat {
    if open.Some? && Since(s, version, open.value) then 1 else 0
  }

  predicate AllSingleKey(events: seq<Event>) {
    forall i :: 0 <= i < |events| ==> SingleKey(events[i])
  }

  lemma CoveredByClosing(s: Scheme, events: seq<Event>, version: string, open: Option<string>)
    requires Comparable(s) && s.parses(version) && events != [] && Readable(s, events[0]) && SingleKey(events[0])
    requires OpenIsReadable(s, open) && OpenCount(s, open, version) == 1
    requires events[0].introduced.Some? || (IsClosing(events[0]) && !Clears(s, events[0], version))
    ensures Covered(s, version, Fold(events, open))
  {
    ClosedInterval(s, version, open.value, events[0]);
    assert Fold(events, open)[0] in Fold(events, open);
  }

  /** In any listing: a version more events open than clear lies in some interval. */
  lemma {:induction false} MoreOpenedIsCovered(s: Scheme, events: seq<Event>, version: string, open: Option<string>)
    requires Comparable(s) && s.parses(version) && AllReadable(s, events) && AllSingleKey(events)
    requires OpenIsReadable(s, open)
    requires Opening(s, events, version) + OpenCount(s, open, version) > Clearing(s, events, version)
    ensures Covered(s, version, Fold(events, open))
    decreases |events|
  {
    if events == [] {
      ClosedInterval(s, version, open.value, Event(None, None, None));
      assert AffectedRange(open, None, None) in Fold(events, open);
    } else {
      var e, rest := events[0], events[1..];
      assert Readable(s, e) && SingleKey(e);
      if OpenCount(s, open, version) == 1 && (e.introduced.Some? || (IsClosing(e) && !Clears(s, e, version))) {
        CoveredByClosing(s, events, version, open);
      } else {
        MoreOpenedIsCovered(s, rest, version, OpenAfter(e, open));
        CoveredLater(s, version, events, open);
      }
    }
  }

  // ---------- the counts do not depend on the listing ----------

  lemma {:induction false} CountsWithout(s: Scheme, events: seq<Event>, j: nat, version: string)
    requires j < |events|
    ensures
      var rest := events[..j] + events[j + 1..];
      && Opening(s, events, version) == Opening(s, rest, version) + (if Opens(s, events[j], version) then 1 else 0)
      && Clearing(s, events, version) == Clearing(s, rest, version) + (if Clears(s, events[j], version) then 1 else 0)
    decreases j
  {
    var rest := events[..j] + events[j + 1..];
    if j > 0 {
      CountsWithout(s, events[1..], j - 1, version);
      assert rest[1..] == events[1..][..j - 1] + events[1..][j..];
    } else {
      assert rest == events[1..];
    }
  }

  lemma MultisetWithout(events: seq<Event>, j: nat)
    requires j < |events|
    ensures multiset(events[..j] + events[j + 1..]) == multiset(events) - multiset{events[j]}
  {
    assert events == events[..j] + [events[j]] + events[j + 1..];
  }

  lemma MultisetTail(events: seq<Event>)
    requires events != []
    ensures multiset(events[1..]) == multiset(events) - multiset{events[0]}
  {
    assert events == [events[0]] + events[1..];
  }

  lemma WithoutFirst(a: seq<Event>, b: seq<Event>) returns (j: nat)
    requires multiset(a) == multiset(b) && a != []
    ensures j < |b| && b[j] == a[0] && multiset(a[1..]) == multiset(b[..j] + b[j + 1..])
  {
    assert a[0] in multiset(b);
    j :| 0 <= j < |b| && b[j] == a[0];
    MultisetTail(a);
    MultisetWithout(b, j);
  }

  lemma {:induction false} CountsPermute(s: Scheme, a: seq<Event>, b: seq<Event>, version: string)
    requires multiset(a) == multiset(b)
    ensures Opening(s, a, version) == Opening(s, b, version)
    ensures Clearing(s, a, version) == Clearing(s, b, version)
    decreases |a|
  {
    if a == [] {
      assert |multiset(b)| == |b| && |multiset(a)| == 0;
    } else {
      var j := WithoutFirst(a, b);
      CountsPermute(s, a[1..], b[..j] + b[j + 1..], version);
      CountsWithout(s, b, j, version);
    }
  }

  // ---------- what the walk says about the counts ----------

  function Introductions(events: seq<Event>): nat {
    if events == [] then 0 else (if events[0].introduced.Some? then 1 else 0) + Introductions(events[1..])
  }

  function Closings(events: seq<Event>): nat {
    if events == [] then 0 else (if IsClosing(events[0]) then 1 else 0) + Closings(events[1..])
  }

  /** Up to and including introduction `j` there are no more introductions than closings. */
  predicate OverclosedAt(sorted: seq<Event>, j: nat) {
    j < |sorted| && sorted[j].introduced.Some? && Introductions(sorted[..j + 1]) <= Closings(sorted[..j + 1])
  }

  predicate Overclosed(sorted: seq<Event>) {
    exists j :: 0 <= j < |sorted| && OverclosedAt(sorted, j)
  }

  lemma {:induction false} NoneReached(s: Scheme, events: seq<Event>, version: string)
    requires Ordered(s) && AllReadable(s, events) && BelowAll(s, version, events)
    ensures Opening(s, events, version) == 0 && Clearing(s, events, version) == 0
    decreases |events|
  {
    if events != [] {
      assert Precedes(s, version, events[0]) && Readable(s, events[0]);
      NoneReached(s, events[1..], version);
    }
  }

  lemma {:induction false} Snoc(events: seq<Event>, e: Event)
    ensures Introductions(events + [e]) == Introductions(events) + (if e.introduced.Some? then 1 else 0)
    ensures Closings(events + [e]) == Closings(events) + (if IsClosing(e) then 1 else 0)
    decreases |events|
  {
    if events != [] {
      Snoc(events[1..], e);
      assert (events + [e])[1..] == events[1..] + [e];
    }
  }

  /** The version is at or past every event of the list, whichever kind it is. */
  ghost predicate PastAll(s: Scheme, events: seq<Event>, version: string) {
    forall i :: 0 <= i < |events| ==>
      && (events[i].introduced.Some? ==> Opens(s, events[i], version))
      && (IsClosing(events[i]) ==> Clears(s, events[i], version))
  }

  lemma {:induction false} AllReached(s: Scheme, events: seq<Event>, version: string)
    requires AllSingleKey(events) && PastAll(s, events, version)
    ensures Opening(s, events, version) == Introductions(events)
    ensures Clearing(s, events, version) == Closings(events)
    decreases |events|
  {
    if events != [] {
      var rest := events[1..];
      assert forall i :: 0 <= i < |rest| ==> rest[i] == events[i + 1];
      AllReached(s, rest, version);
    }
  }

  lemma {:induction false} CountsConcat(s: Scheme, a: seq<Event>, b: seq<Event>, version: string)
    ensures Opening(s, a + b, version) == Opening(s, a, version) + Opening(s, b, version)
    ensures Clearing(s, a + b, version) == Clearing(s, a, version) + Clearing(s, b, version)
    decreases |a|
  {
    if a == [] {
      assert a + b == b;
    } else {
      assert (a + b)[1..] == a[1..] + b;
      CountsConcat(s, a[1..], b, version);
    }
  }

  // ---------- without an excess of closings, every listing is safe ----------

  /** Everything from the first event the version has not reached is ahead of it. */
  lemma AheadFrom(s: Scheme, events: seq<Event>, version: string)
    requires Ordered(s) && s.parses(version) && events != [] && Ascending(s, events) && AllReadable(s, events)
    requires events[0].introduced.Some? || IsClosing(events[0])
    requires !Opens(s, events[0], version) && !Clears(s, events[0], version)
    ensures BelowAll(s, version, events[1..])
  {
    var e, rest := events[0], events[1..];
    assert Readable(s, e) && SingleKey(e);
    if e.introduced.None? {
      BelowTheRest(s, events, version);
    } else {
      assert s.compare(version, e.introduced.value).Some?;
      forall i | 0 <= i < |rest| ensures Precedes(s, version, rest[i]) {
        assert EventBefore(s, e, events[i + 1]) && Readable(s, events[i + 1]);
      }
    }
  }

  /** What has not been reached changes neither the walk nor the counts. */
  lemma AheadIsSilent(s: Scheme, events: seq<Event>, version: string, vulnerable: bool)
    requires Ordered(s) && s.parses(version) && events != [] && Ascending(s, events) && AllReadable(s, events)
    requires events[0].introduced.Some? || IsClosing(events[0])
    requires !Opens(s, events[0], version) && !Clears(s, events[0], version)
    ensures Walk(s, events, version, vulnerable) == vulnerable
    ensures Opening(s, events, version) == 0 && Clearing(s, events, version) == 0
  {
    AheadFrom(s, events, version);
    NoneReached(s, events[1..], version);
    LaterEventsAreSilent(s, events[1..], version, None, vulnerable);
  }

  lemma PastOneMore(s: Scheme, past: seq<Event>, e: Event, version: string)
    requires PastAll(s, past, version)
    requires (e.introduced.Some? ==> Opens(s, e, version)) && (IsClosing(e) ==> Clears(s, e, version))
    ensures PastAll(s, past + [e], version)
  {
  }

  lemma BalanceAt(s: Scheme, past: seq<Event>, ahead: seq<Event>, version: string)
    requires AllSingleKey(past) && PastAll(s, past, version)
    ensures Opening(s, past + ahead, version) == Introductions(past) + Opening(s, ahead, version)
    ensures Clearing(s, past + ahead, version) == Closings(past) + Clearing(s, ahead, version)
  {
    CountsConcat(s, past, ahead, version);
    AllReached(s, past, version);
  }

  /** From any point of the walk: vulnerable in the end means more opened than cleared. */
  lemma {:induction false} WalkMeansMoreOpened(
    s: Scheme, past: seq<Event>, ahead: seq<Event>, version: string, vulnerable: bool)
    requires Ordered(s) && s.parses(version) && AllReadable(s, past + ahead) && Ascending(s, past + ahead)
    requires AllSingleKey(past) && !Overclosed(past + ahead) && PastAll(s, past, version)
    requires vulnerable ==> Introductions(past) > Closings(past)
    requires Walk(s, ahead, version, vulnerable)
    ensures Opening(s, past + ahead, version) > Clearing(s, past + ahead, version)
    decreases |ahead|
  {
    if ahead == [] {
      BalanceAt(s, past, ahead, version);
    } else {
      var e, rest := ahead[0], ahead[1..];
      assert ahead == (past + ahead)[|past|..] && (past + ahead)[|past|] == e;
      AheadIsAscending(s, past, ahead);
      if (e.introduced.Some? || IsClosing(e)) && !Opens(s, e, version) && !Clears(s, e, version) {
        AheadIsSilent(s, ahead, version, vulnerable);
        BalanceAt(s, past, ahead, version);
      } else {
        NextIsPast(s, past, ahead, version, vulnerable);
        assert (past + [e]) + rest == past + ahead;
        WalkMeansMoreOpened(s, past + [e], rest, version, WalkStep(s, e, version, vulnerable));
      }
    }
  }

  lemma AheadIsAscending(s: Scheme, past: seq<Event>, ahead: seq<Event>)
    requires AllReadable(s, past + ahead) && Ascending(s, past + ahead)
    ensures AllReadable(s, ahead) && Ascending(s, ahead)
  {
    var all := past + ahead;
    assert forall i :: 0 <= i < |ahead| ==> ahead[i] == all[|past| + i];
    forall i, j | 0 <= i < j < |ahead| ensures EventBefore(s, ahead[i], ahead[j]) {
      assert EventBefore(s, all[|past| + i], all[|past| + j]);
    }
    forall i | 0 <= i < |ahead| ensures Readable(s, ahead[i]) {
      assert Readable(s, all[|past| + i]);
    }
  }

  lemma NextIsPast(s: Scheme, past: seq<Event>, ahead: seq<Event>, version: string, vulnerable: bool)
    requires ahead != [] && AllSingleKey(past) && SingleKey(ahead[0]) && PastAll(s, past, version)
    requires !Overclosed(past + ahead)
    requires (ahead[0].introduced.Some? || IsClosing(ahead[0])) ==>
      Opens(s, ahead[0], version) || Clears(s, ahead[0], version)
    requires vulnerable ==> Introductions(past) > Closings(past)
    ensures
      var past' := past + [ahead[0]];
      && AllSingleKey(past') && PastAll(s, past', version)
      && (WalkStep(s, ahead[0], version, vulnerable) ==> Introductions(past') > Closings(past'))
  {
    var e := ahead[0];
    PastOneMore(s, past, e, version);
    Snoc(past, e);
    if e.introduced.Some? {
      assert (past + ahead)[|past|] == e && (past + ahead)[..|past| + 1] == past + [e];
      assert !OverclosedAt(past + ahead, |past|);
    }
  }

  /** Every version the sorted walk calls affected lies in some interval of the listing. */
  ghost predicate SafeListing(s: Scheme, listed: seq<Event>, sorted: seq<Event>) {
    forall version :: s.parses(version) && Walk(s, sorted, version, false) ==>
      Covered(s, version, Fold(listed, None))
  }

  lemma PermutedKeeps(s: Scheme, listed: seq<Event>, sorted: seq<Event>)
    requires multiset(listed) == multiset(sorted) && AllReadable(s, sorted) && AllSingleKey(sorted)
    ensures AllReadable(s, listed) && AllSingleKey(listed)
  {
    PermutedReadable(s, listed, sorted);
    forall i | 0 <= i < |listed| ensures SingleKey(listed[i]) {
      assert listed[i] in multiset(sorted);
    }
  }

  lemma PermutedReadable(s: Scheme, a: seq<Event>, b: seq<Event>)
    requires multiset(a) == multiset(b) && AllReadable(s, b)
    ensures AllReadable(s, a)
  {
    forall i | 0 <= i < |a| ensures Readable(s, a[i]) {
      assert a[i] in multiset(b);
    }
  }

  /** Where no introduction has as many closings before it as introductions up to it, no order misses anything. */
  lemma SortedWalkIsCovered(s: Scheme, listed: seq<Event>, sorted: seq<Event>, version: string)
    requires Ordered(s) && s.parses(version) && AllReadable(s, sorted) && SortedFrom(s, listed, sorted)
    requires !Overclosed(sorted) && Walk(s, sorted, version, false)
    ensures Covered(s, version, Fold(listed, None))
  {
    assert [] + sorted == sorted;
    WalkMeansMoreOpened(s, [], sorted, version, false);
    CountsPermute(s, listed, sorted, version);
    PermutedKeeps(s, listed, sorted);
    MoreOpenedIsCovered(s, listed, version, None);
  }

  // ---------- with one, some listing misses a version ----------

  lemma {:induction false} KindsWithout(events: seq<Event>, j: nat)
    requires j < |events|
    ensures
      var rest := events[..j] + events[j + 1..];
      && Introductions(events) == Introductions(rest) + (if events[j].introduced.Some? then 1 else 0)
      && Closings(events) == Closings(rest) + (if IsClosing(events[j]) then 1 else 0)
    decreases j
  {
    var rest := events[..j] + events[j + 1..];
    if j > 0 {
      KindsWithout(events[1..], j - 1);
      assert rest[1..] == events[1..][..j - 1] + events[1..][j..];
    } else {
      assert rest == events[1..];
    }
  }

  /** Takes an event of one kind out of the list. */
  lemma TakeOut(s: Scheme, events: seq<Event>, j: nat, version: string) returns (rest: seq<Event>)
    requires j < |events| && PastAll(s, events, version) && AllReadable(s, events) && AllSingleKey(events)
    ensures |rest| == |events| - 1 && multiset(events) == multiset(rest) + multiset{events[j]}
    ensures PastAll(s, rest, version) && AllReadable(s, rest) && AllSingleKey(rest)
    ensures Introductions(events) == Introductions(rest) + (if events[j].introduced.Some? then 1 else 0)
    ensures Closings(events) == Closings(rest) + (if IsClosing(events[j]) then 1 else 0)
  {
    rest := events[..j] + events[j + 1..];
    KindsWithout(events, j);
    assert events == events[..j] + [events[j]] + events[j + 1..];
    forall i | 0 <= i < |rest|
      ensures rest[i] == events[if i < j then i else i + 1] && Readable(s, rest[i]) && SingleKey(rest[i])
    {
      assert Readable(s, events[if i < j then i else i + 1]);
    }
  }

  lemma {:induction false} SomeIntroduction(events: seq<Event>) returns (j: nat)
    requires Introductions(events) > 0
    ensures j < |events| && events[j].introduced.Some?
  {
    if events[0].introduced.Some? {
      return 0;
    }
    var i := SomeIntroduction(events[1..]);
    return i + 1;
  }

  lemma {:induction false} SomeClosing(events: seq<Event>) returns (j: nat)
    requires Closings(events) > 0
    ensures j < |events| && IsClosing(events[j])
  {
    if IsClosing(events[0]) {
      return 0;
    }
    var i := SomeClosing(events[1..]);
    return i + 1;
  }

  lemma {:induction false} StraysFoldToNothing(events: seq<Event>, tail: seq<Event>)
    requires Introductions(events) == 0
    ensures Fold(events + tail, None) == Fold(tail, None)
    decreases |events|
  {
    if events == [] {
      assert events + tail == tail;
    } else {
      assert (events + tail)[1..] == events[1..] + tail;
      StraysFoldToNothing(events[1..], tail);
    }
  }

  lemma PairCoversNothing(s: Scheme, i: Event, c: Event, tail: seq<Event>, version: string)
    requires Comparable(s) && s.parses(version) && Readable(s, i) && Readable(s, c) && SingleKey(i) && SingleKey(c)
    requires i.introduced.Some? && IsClosing(c) && Clears(s, c, version)
    ensures Covered(s, version, Fold([i, c] + tail, None)) <==> Covered(s, version, Fold(tail, None))
  {
    var events := [i, c] + tail;
    assert events[1..] == [c] + tail && events[1..][1..] == tail;
    var r := AffectedRange(i.introduced, c.fixed, c.lastAffected);
    assert Fold(events, None) == [r] + Fold(tail, None);
    ClosedInterval(s, version, i.introduced.value, c);
    CoveredByFirst(s, version, r, Fold(tail, None));
  }

  /** With no more introductions than closings, all of them past, some order of them covers nothing. */
  lemma {:induction false} CancellingOrder(s: Scheme, events: seq<Event>, tail: seq<Event>, version: string)
    returns (order: seq<Event>)
    requires Comparable(s) && s.parses(version) && AllReadable(s, events) && AllSingleKey(events)
    requires PastAll(s, events, version) && Introductions(events) <= Closings(events)
    ensures multiset(order) == multiset(events)
    ensures Covered(s, version, Fold(order + tail, None)) <==> Covered(s, version, Fold(tail, None))
    decreases |events|
  {
    if Introductions(events) == 0 {
      StraysFoldToNothing(events, tail);
      return events;
    }
    var j := SomeIntroduction(events);
    var i := events[j];
    assert Readable(s, i) && SingleKey(i);
    var others := TakeOut(s, events, j, version);
    var k := SomeClosing(others);
    var c := others[k];
    assert Readable(s, c) && SingleKey(c);
    var rest := TakeOut(s, others, k, version);
    var inner := CancellingOrder(s, rest, tail, version);
    order := [i, c] + inner;
    assert order + tail == [i, c] + (inner + tail);
    PairCoversNothing(s, i, c, inner + tail, version);
  }

  lemma {:induction false} IntroductionIsAffected(s: Scheme, events: seq<Event>, j: nat, vulnerable: bool)
    requires Ordered(s) && AllReadable(s, events) && Ascending(s, events)
    requires j < |events| && events[j].introduced.Some? && events[j].introduced.value != "0"
    ensures Walk(s, events, events[j].introduced.value, vulnerable)
    ensures BelowAll(s, events[j].introduced.value, events[j + 1..])
    decreases j
  {
    var v := events[j].introduced.value;
    var e, rest := events[0], events[1..];
    assert Readable(s, events[j]);
    TailIsAscending(s, events);
    if j == 0 {
      assert s.compare(v, v) == Some(0);
      forall i | 0 <= i < |rest| ensures Precedes(s, v, rest[i]) {
        assert EventBefore(s, events[0], events[i + 1]);
      }
      LaterEventsAreSilent(s, rest, v, None, true);
    } else {
      assert rest[j - 1] == events[j] && rest[j..] == events[j + 1..];
      IntroductionIsAffected(s, rest, j - 1, WalkStep(s, e, v, vulnerable));
    }
  }

  /** At its own introduction a version is at or past everything before it. */
  lemma PastAtIntroduction(s: Scheme, sorted: seq<Event>, j: nat)
    requires Ordered(s) && AllReadable(s, sorted) && Ascending(s, sorted)
    requires j < |sorted| && sorted[j].introduced.Some? && sorted[j].introduced.value != "0"
    ensures PastAll(s, sorted[..j + 1], sorted[j].introduced.value)
  {
    var v := sorted[j].introduced.value;
    assert Readable(s, sorted[j]) && SingleKey(sorted[j]);
    assert s.compare(v, v) == Some(0);
    forall i | 0 <= i < j
      ensures sorted[i].introduced.Some? ==> Opens(s, sorted[i], v)
      ensures IsClosing(sorted[i]) ==> Clears(s, sorted[i], v)
    {
      assert EventBefore(s, sorted[i], sorted[j]) && Readable(s, sorted[i]);
    }
  }

  lemma {:induction false} NoClosings(events: seq<Event>)
    requires forall i :: 0 <= i < |events| ==> !IsClosing(events[i])
    ensures Closings(events) == 0
    decreases |events|
  {
    if events != [] {
      assert forall i :: 0 <= i < |events[1..]| ==> events[1..][i] == events[i + 1];
      NoClosings(events[1..]);
    }
  }

  /** Nothing closes before the opening "0", so it is never overclosed. */
  lemma OverclosedIsNotZero(s: Scheme, sorted: seq<Event>, j: nat)
    requires Ascending(s, sorted) && OverclosedAt(sorted, j)
    ensures sorted[j].introduced.value != "0"
  {
    if sorted[j].introduced.value == "0" {
      var past := sorted[..j + 1];
      forall i | 0 <= i < |past| ensures !IsClosing(past[i]) {
        assert SingleKey(sorted[i]);
        assert i < j ==> EventBefore(s, sorted[i], sorted[j]);
      }
      assert past == sorted[..j] + [sorted[j]];
      Snoc(sorted[..j], sorted[j]);
      NoClosings(past);
    }
  }

  /** Some listing of overclosed events misses the very version that an introduction names. */
  lemma OverclosedCanMiss(s: Scheme, sorted: seq<Event>, j: nat) returns (listed: seq<Event>)
    requires Ordered(s) && AllReadable(s, sorted) && Ascending(s, sorted) && OverclosedAt(sorted, j)
    ensures multiset(listed) == multiset(sorted) && s.parses(sorted[j].introduced.value)
    ensures Walk(s, sorted, sorted[j].introduced.value, false)
    ensures !Covered(s, sorted[j].introduced.value, Fold(listed, None))
  {
    var v, past, ahead := sorted[j].introduced.value, sorted[..j + 1], sorted[j + 1..];
    OverclosedIsNotZero(s, sorted, j);
    assert Readable(s, sorted[j]);
    IntroductionIsAffected(s, sorted, j, false);
    PastAtIntroduction(s, sorted, j);
    assert AllReadable(s, past) && AllSingleKey(past) by {
      assert forall i :: 0 <= i < |past| ==> Readable(s, sorted[i]);
    }
    assert sorted == past + ahead;
    AheadIsAscending(s, past, ahead);
    LaterIntervalsAreAbove(s, ahead, v, None);
    var order := CancellingOrder(s, past, ahead, v);
    listed := order + ahead;
  }

  /**
    Every listing of these events covers all the versions the schema's sorted walk calls affected
    exactly when no introduction has, up to it, as many closings as introductions.
  */
  lemma EveryListingIsSafeIff(s: Scheme, sorted: seq<Event>)
    requires Ordered(s) && AllReadable(s, sorted) && Ascending(s, sorted)
    ensures (forall listed :: multiset(listed) == multiset(sorted) ==> SafeListing(s, listed, sorted))
       <==> !Overclosed(sorted)
  {
    if Overclosed(sorted) {
      var j :| 0 <= j < |sorted| && OverclosedAt(sorted, j);
      var listed := OverclosedCanMiss(s, sorted, j);
      assert !SafeListing(s, listed, sorted);
    } else {
      forall listed, version
        | multiset(listed) == multiset(sorted) && s.parses(version) && Walk(s, sorted, version, false)
        ensures Covered(s, version, Fold(listed, None))
      {
        SortedWalkIsCovered(s, listed, sorted, version);
      }
    }
  }

  // ---------- lists in which every closing closes something ----------

  /** In version order, every closing event closes an open window. */
  predicate NoStrays(events: seq<Event>, open: bool) {
    if events == [] then true
    else if events[0].introduced.Some? then NoStrays(events[1..], true)
    else if IsClosing(events[0]) then open && NoStrays(events[1..], false)
    else NoStrays(events[1..], open)
  }

  lemma {:induction false} NoStraysBalance(events: seq<Event>, open: bool, j: nat)
    requires NoStrays(events, open) && AllSingleKey(events) && j < |events| && events[j].introduced.Some?
    ensures Introductions(events[..j + 1]) + (if open then 1 else 0) > Closings(events[..j + 1])
    decreases |events|
  {
    var e, rest := events[0], events[1..];
    assert SingleKey(e);
    assert events[..j + 1][1..] == rest[..j];
    assert forall i :: 0 <= i < |rest| ==> rest[i] == events[i + 1];
    if j > 0 {
      var open' := if e.introduced.Some? then true else if IsClosing(e) then false else open;
      NoStraysBalance(rest, open', j - 1);
    }
  }

  /** Then they may be listed in any order. */
  lemma NoStraysAreSafe(s: Scheme, listed: seq<Event>, sorted: seq<Event>)
    requires Ordered(s) && AllReadable(s, sorted) && SortedFrom(s, listed, sorted) && NoStrays(sorted, false)
    ensures !Overclosed(sorted) && SafeListing(s, listed, sorted)
  {
    forall j | 0 <= j < |sorted| ensures !OverclosedAt(sorted, j) {
      if sorted[j].introduced.Some? {
        NoStraysBalance(sorted, false, j);
      }
    }
    forall version | s.parses(version) && Walk(s, sorted, version, false)
      ensures Covered(s, version, Fold(listed, None))
    {
      SortedWalkIsCovered(s, listed, sorted, version);
    }
  }

  // ---------- a listing that misses a version ----------

  function IntroducedAt(v: string): Event {
    Event(Some(v), None, None)
  }

  function FixedAt(v: string): Event {
    Event(None, Some(v), None)
  }

  lemma SortedOfThree(s: Scheme, a: string, b: string, m: string, c: string)
    requires Ordered(s) && a != "" && b != "" && c != "" && b != "0"
    requires Below(s, a, b) && Below(s, b, m) && Below(s, m, c)
    ensures
      var sorted := [FixedAt(a), IntroducedAt(b), FixedAt(c)];
      Ascending(s, sorted) && AllReadable(s, sorted) && Walk(s, sorted, m, false)
  {
    var sorted := [FixedAt(a), IntroducedAt(b), FixedAt(c)];
    assert s.compare(a, b).Some? && s.compare(b, m).Some? && s.compare(m, c).Some?;
    assert s.compare(b, c).Some? && s.compare(a, c).Some? && s.compare(m, b).Some?;
    assert EventBefore(s, sorted[0], sorted[1]) && EventBefore(s, sorted[0], sorted[2]);
    assert EventBefore(s, sorted[1], sorted[2]);
    var second, third := sorted[1..], sorted[1..][1..];
    assert second[0] == sorted[1] && third[0] == sorted[2] && third[1..] == [];
    assert Since(s, m, b) && !AtOrAbove(s, m, c);
    forall vulnerable ensures Walk(s, second, m, vulnerable) {
      assert WalkStep(s, second[0], m, vulnerable) && WalkStep(s, third[0], m, true);
      assert Walk(s, third, m, true) == Walk(s, third[1..], m, true);
      assert Walk(s, second, m, vulnerable) == Walk(s, third, m, true);
    }
    assert Walk(s, sorted, m, false) == Walk(s, second, m, WalkStep(s, sorted[0], m, false));
  }

  /** Listed as introduced b, fixed a, fixed c: between b and c the sorted walk is vulnerable, no interval holds it. */
  lemma UnsortedListingMisses(s: Scheme, a: string, b: string, m: string, c: string)
    requires Ordered(s) && a != "" && b != "" && c != "" && b != "0"
    requires Below(s, a, b) && Below(s, b, m) && Below(s, m, c)
    ensures
      var listed, sorted := [IntroducedAt(b), FixedAt(a), FixedAt(c)], [FixedAt(a), IntroducedAt(b), FixedAt(c)];
      && SortedFrom(s, listed, sorted) && AllReadable(s, sorted)
      && Walk(s, sorted, m, false) && !Covered(s, m, Fold(listed, None))
  {
    SortedOfThree(s, a, b, m, c);
    assert s.compare(a, b).Some? && s.compare(b, m).Some? && s.compare(a, m).Some? && s.compare(m, a).Some?;
    var x, y, z := IntroducedAt(b), FixedAt(a), FixedAt(c);
    assert multiset([x, y, z]) == multiset{x, y, z} && multiset([y, x, z]) == multiset{x, y, z};
    assert Readable(s, x) && Readable(s, y) && s.parses(m);
    var tail := [FixedAt(c)];
    assert tail[1..] == [] && Fold(tail, None) == [];
    PairCoversNothing(s, IntroducedAt(b), FixedAt(a), tail, m);
    assert [IntroducedAt(b), FixedAt(a)] + tail == [IntroducedAt(b), FixedAt(a), FixedAt(c)];
    assert !Covered(s, m, Fold([x, y, z], None));
    assert SortedFrom(s, [x, y, z], [y, x, z]);
  }
}
