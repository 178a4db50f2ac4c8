/**
  Collapsing duplicate dependencies (app/core/manifests.py, `_dedupe`): one entry per ecosystem,
  name and version, the most exposed one, in name and version order.
*/
module Dedupe {
  import opened Prelude
  import opened Text
  import opened Domain
  import opened Sorting

  /** Lower is more exposed. */
  function Exposure(r: Reachability): nat {
    match r
    case RuntimeDirect => 0
    case RuntimeTransitive => 1
    case DevOnly => 2
  }

  predicate MoreExposed(a: Dependency, b: Dependency) {
    Exposure(a.reachability) < Exposure(b.reachability)
  }

  predicate NotAfter(a: Dependency, b: Dependency) {
    var c := CompareText(Lower(a.name), Lower(b.name));
    c < 0 || (c == 0 && CompareText(a.version, b.version) <= 0)
  }

  lemma NotAfterOrders()
    ensures Ordering(NotAfter)
  {
    forall a, b ensures NotAfter(a, b) || NotAfter(b, a) {
      CompareTextMirrors(Lower(a.name), Lower(b.name));
      CompareTextMirrors(a.version, b.version);
    }
    forall a, b, c | NotAfter(a, b) && NotAfter(b, c) ensures NotAfter(a, c) {
      CompareTextChains(Lower(a.name), Lower(b.name), Lower(c.name));
      CompareTextMirrors(Lower(a.name), Lower(b.name));
      CompareTextMirrors(Lower(b.name), Lower(c.name));
      if CompareText(a.version, b.version) <= 0 && CompareText(b.version, c.version) <= 0 {
        CompareTextChains(a.version, b.version, c.version);
      }
    }
  }

  // ---------- the fold, entries in order of first appearance ----------

  /** Takes in one dependency: in place of a less exposed one of the same key, or at the end. */
  function Upsert(kept: seq<Dependency>, d: Dependency): seq<Dependency> {
    if kept == [] then [d]
    else if KeyOf(kept[0]) == KeyOf(d) then (if MoreExposed(d, kept[0]) then [d] + kept[1..] else kept)
    else [kept[0]] + Upsert(kept[1..], d)
  }

  function Collapse(deps: seq<Dependency>): seq<Dependency> {
    if deps == [] then [] else Upsert(Collapse(deps[..|deps| - 1]), deps[|deps| - 1])
  }

  function Deduped(deps: seq<Dependency>): seq<Dependency> {
    Sort(Collapse(deps), NotAfter)
  }

  predicate DistinctKeys(deps: seq<Dependency>) {
    forall i, j :: 0 <= i < j < |deps| ==> KeyOf(deps[i]) != KeyOf(deps[j])
  }

  // ---------- the method ----------

  /** The values of an insertion-ordered dictionary. */
  function Values(order: seq<DependencyKey>, best: map<DependencyKey, Dependency>): seq<Dependency>
    requires forall i :: 0 <= i < |order| ==> order[i] in best
  {
    if order == [] then [] else [best[order[0]]] + Values(order[1..], best)
  }

  /** The dictionary's keys are its order, without repetition, and every entry sits under its own key. */
  ghost predicate IsDictionary(order: seq<DependencyKey>, best: map<DependencyKey, Dependency>) {
    && (forall i :: 0 <= i < |order| ==> order[i] in best)
    && (forall i, j :: 0 <= i < j < |order| ==> order[i] != order[j])
    && (forall key :: key in best ==> key in order && KeyOf(best[key]) == key)
  }

  lemma {:induction false} UpsertAbsent(order: seq<DependencyKey>, best: map<DependencyKey, Dependency>, d: Dependency)
    requires forall i :: 0 <= i < |order| ==>
      order[i] in best && KeyOf(best[order[i]]) == order[i] && order[i] != KeyOf(d)
    ensures Values(order + [KeyOf(d)], best[KeyOf(d) := d]) == Upsert(Values(order, best), d)
    decreases |order|
  {
    var order', best' := order + [KeyOf(d)], best[KeyOf(d) := d];
    if order == [] {
      assert order' == [KeyOf(d)];
    } else {
      UpsertAbsent(order[1..], best, d);
      assert order'[1..] == order[1..] + [KeyOf(d)];
    }
  }

  lemma {:induction false} UntouchedValues(
    order: seq<DependencyKey>, best: map<DependencyKey, Dependency>, d: Dependency)
    requires forall i :: 0 <= i < |order| ==> order[i] in best && order[i] != KeyOf(d)
    ensures Values(order, best[KeyOf(d) := d]) == Values(order, best)
    decreases |order|
  {
    if order != [] {
      UntouchedValues(order[1..], best, d);
    }
  }

  lemma {:induction false} UpsertPresent(order: seq<DependencyKey>, best: map<DependencyKey, Dependency>, d: Dependency)
    requires forall i :: 0 <= i < |order| ==> order[i] in best && KeyOf(best[order[i]]) == order[i]
    requires forall i, j :: 0 <= i < j < |order| ==> order[i] != order[j]
    requires KeyOf(d) in order
    ensures Upsert(Values(order, best), d)
         == Values(order, if MoreExposed(d, best[KeyOf(d)]) then best[KeyOf(d) := d] else best)
    decreases |order|
  {
    if order[0] == KeyOf(d) {
      UntouchedValues(order[1..], best, d);
    } else {
      UpsertPresent(order[1..], best, d);
    }
  }

  /** Taking one dependency into the dictionary is `Upsert` on its values. */
  lemma DictionaryTakes(order: seq<DependencyKey>, best: map<DependencyKey, Dependency>, d: Dependency)
    requires IsDictionary(order, best)
    ensures
      var key := KeyOf(d);
      if key !in best then
        && IsDictionary(order + [key], best[key := d])
        && Values(order + [key], best[key := d]) == Upsert(Values(order, best), d)
      else
        var best' := if MoreExposed(d, best[key]) then best[key := d] else best;
        IsDictionary(order, best') && Values(order, best') == Upsert(Values(order, best), d)
  {
    if KeyOf(d) !in best {
      UpsertAbsent(order, best, d);
    } else {
      UpsertPresent(order, best, d);
    }
  }

  method Dedupe(deps: seq<Dependency>) returns (r: seq<Dependency>)
    ensures r == Deduped(deps)
  {
    var order: seq<DependencyKey> := [];
    var best: map<DependencyKey, Dependency> := map[];
    for i := 0 to |deps|
      invariant IsDictionary(order, best)
      invariant Values(order, best) == Collapse(deps[..i])
    {
      var d := deps[i];
      var key := KeyOf(d);
      assert deps[..i + 1][..i] == deps[..i];
      DictionaryTakes(order, best, d);
      if key !in best {
        order := order + [key];
        best := best[key := d];
      } else if MoreExposed(d, best[key]) {
        best := best[key := d];
      }
    }
    assert deps[..|deps|] == deps;
    return Sort(Values(order, best), NotAfter);
  }

  // ---------- which entries survive ----------

  /** `d` is the most exposed input entry of its key, and the first of that exposure. */
  ghost predicate Survives(deps: seq<Dependency>, d: Dependency) {
    exists i :: SurvivesAt(deps, d, i)
  }

  ghost predicate SurvivesAt(deps: seq<Dependency>, d: Dependency, i: nat) {
    && i < |deps| && deps[i] == d
    && forall j :: 0 <= j < |deps| && KeyOf(deps[j]) == KeyOf(d) ==>
         !MoreExposed(deps[j], d) && (j < i ==> MoreExposed(d, deps[j]))
  }

  function Find(kept: seq<Dependency>, key: DependencyKey): Option<Dependency> {
    if kept == [] then None
    else if KeyOf(kept[0]) == key then Some(kept[0])
    else Find(kept[1..], key)
  }

  /** The survivor of a key, met from the left. */
  function Survivor(deps: seq<Dependency>, key: DependencyKey): Option<Dependency> {
    if deps == [] then None
    else
      var before, last := Survivor(deps[..|deps| - 1], key), deps[|deps| - 1];
      if KeyOf(last) == key && (before.None? || MoreExposed(last, before.value)) then Some(last) else before
  }

  lemma {:induction false} FindUpserted(kept: seq<Dependency>, d: Dependency, key: DependencyKey)
    ensures Find(Upsert(kept, d), key) ==
      var before := Find(kept, key);
      if KeyOf(d) == key && (before.None? || MoreExposed(d, before.value)) then Some(d) else before
    decreases |kept|
  {
    if kept != [] && KeyOf(kept[0]) != KeyOf(d) {
      FindUpserted(kept[1..], d, key);
      assert Upsert(kept, d)[1..] == Upsert(kept[1..], d);
    }
  }

  lemma {:induction false} FindCollapsed(deps: seq<Dependency>, key: DependencyKey)
    ensures Find(Collapse(deps), key) == Survivor(deps, key)
    decreases |deps|
  {
    if deps != [] {
      FindCollapsed(deps[..|deps| - 1], key);
      FindUpserted(Collapse(deps[..|deps| - 1]), deps[|deps| - 1], key);
    }
  }

  lemma {:induction false} SurvivorSurvives(deps: seq<Dependency>, key: DependencyKey) returns (i: nat)
    ensures Survivor(deps, key).None? ==> forall j :: 0 <= j < |deps| ==> KeyOf(deps[j]) != key
    ensures Survivor(deps, key).Some? ==>
      KeyOf(Survivor(deps, key).value) == key && SurvivesAt(deps, Survivor(deps, key).value, i)
    decreases |deps|
  {
    i := 0;
    if deps != [] {
      var front := deps[..|deps| - 1];
      i := SurvivorSurvives(front, key);
      assert forall j :: 0 <= j < |front| ==> deps[j] == front[j];
      if Survivor(deps, key) == Some(deps[|deps| - 1]) && Survivor(deps, key) != Survivor(front, key) {
        i := |deps| - 1;
      }
    }
  }

  lemma SurvivorIsUnique(deps: seq<Dependency>, d: Dependency, e: Dependency)
    requires Survives(deps, d) && Survives(deps, e) && KeyOf(d) == KeyOf(e)
    ensures d == e
  {
    var i: nat :| SurvivesAt(deps, d, i);
    var j: nat :| SurvivesAt(deps, e, j);
  }

  lemma SurvivorIff(deps: seq<Dependency>, d: Dependency)
    ensures Survivor(deps, KeyOf(d)) == Some(d) <==> Survives(deps, d)
  {
    var i := SurvivorSurvives(deps, KeyOf(d));
    if Survives(deps, d) {
      var j: nat :| SurvivesAt(deps, d, j);
      assert KeyOf(deps[j]) == KeyOf(d);
      SurvivorIsUnique(deps, d, Survivor(deps, KeyOf(d)).value);
    }
  }

  // ---------- distinct keys ----------

  lemma {:induction false} FindNone(kept: seq<Dependency>, key: DependencyKey)
    ensures Find(kept, key).None? <==> forall i :: 0 <= i < |kept| ==> KeyOf(kept[i]) != key
    decreases |kept|
  {
    if kept != [] {
      FindNone(kept[1..], key);
      assert forall i :: 0 < i < |kept| ==> kept[i] == kept[1..][i - 1];
    }
  }

  lemma {:induction false} FindMember(kept: seq<Dependency>, d: Dependency)
    requires DistinctKeys(kept)
    ensures d in kept <==> Find(kept, KeyOf(d)) == Some(d)
    decreases |kept|
  {
    if kept != [] {
      FindMember(kept[1..], d);
      assert kept == [kept[0]] + kept[1..];
    }
  }

  lemma {:induction false} UpsertKeepsDistinct(kept: seq<Dependency>, d: Dependency)
    requires DistinctKeys(kept)
    ensures DistinctKeys(Upsert(kept, d))
    decreases |kept|
  {
    if kept != [] && KeyOf(kept[0]) != KeyOf(d) {
      var rest := Upsert(kept[1..], d);
      UpsertKeepsDistinct(kept[1..], d);
      FindUpserted(kept[1..], d, KeyOf(kept[0]));
      FindNone(kept[1..], KeyOf(kept[0]));
      FindNone(rest, KeyOf(kept[0]));
    }
  }

  lemma {:induction false} CollapseIsDistinct(deps: seq<Dependency>)
    ensures DistinctKeys(Collapse(deps))
    decreases |deps|
  {
    if deps != [] {
      CollapseIsDistinct(deps[..|deps| - 1]);
      UpsertKeepsDistinct(Collapse(deps[..|deps| - 1]), deps[|deps| - 1]);
    }
  }

  lemma DistinctFront(x: Dependency, rest: seq<Dependency>)
    requires DistinctKeys(rest) && forall e :: e in rest ==> KeyOf(e) != KeyOf(x)
    ensures DistinctKeys([x] + rest)
  {
  }

  lemma PlacedMember(x: Dependency, s: seq<Dependency>, e: Dependency)
    requires e in Place(x, s, NotAfter)
    ensures e == x || e in s
  {
    PlacePermutes(x, s, NotAfter);
    assert e in multiset(Place(x, s, NotAfter));
  }

  lemma {:induction false} PlaceKeepsDistinct(x: Dependency, s: seq<Dependency>)
    requires DistinctKeys(s) && forall i :: 0 <= i < |s| ==> KeyOf(s[i]) != KeyOf(x)
    ensures DistinctKeys(Place(x, s, NotAfter))
    decreases |s|
  {
    if s == [] || NotAfter(x, s[0]) {
      DistinctFront(x, s);
    } else {
      var rest := Place(x, s[1..], NotAfter);
      PlaceKeepsDistinct(x, s[1..]);
      forall e | e in rest ensures KeyOf(e) != KeyOf(s[0]) {
        PlacedMember(x, s[1..], e);
      }
      DistinctFront(s[0], rest);
    }
  }

  lemma {:induction false} SortKeepsDistinct(s: seq<Dependency>)
    requires DistinctKeys(s)
    ensures DistinctKeys(Sort(s, NotAfter))
    decreases |s|
  {
    if s != [] {
      var rest := Sort(s[1..], NotAfter);
      SortKeepsDistinct(s[1..]);
      SortPermutes(s[1..], NotAfter);
      forall i | 0 <= i < |rest| ensures KeyOf(rest[i]) != KeyOf(s[0]) {
        assert rest[i] in multiset(s[1..]);
      }
      PlaceKeepsDistinct(s[0], rest);
    }
  }

  // ---------- what the result is ----------

  /** One entry per key, exactly the survivors, in order. */
  lemma DedupedExactly(deps: seq<Dependency>)
    ensures DistinctKeys(Deduped(deps)) && Sorted(NotAfter, Deduped(deps))
    ensures forall d :: d in Deduped(deps) <==> Survives(deps, d)
  {
    CollapseIsDistinct(deps);
    SortKeepsDistinct(Collapse(deps));
    NotAfterOrders();
    SortSorts(Collapse(deps), NotAfter);
    SortPermutes(Collapse(deps), NotAfter);
    forall d ensures d in Deduped(deps) <==> Survives(deps, d) {
      assert d in Deduped(deps) <==> d in multiset(Collapse(deps));
      FindMember(Collapse(deps), d);
      FindCollapsed(deps, KeyOf(d));
      SurvivorIff(deps, d);
    }
  }

  /** No key is dropped. */
  lemma EveryKeySurvives(deps: seq<Dependency>, d: Dependency)
    requires d in deps
    ensures exists e :: e in Deduped(deps) && KeyOf(e) == KeyOf(d) && !MoreExposed(d, e)
  {
    DedupedExactly(deps);
    var i := SurvivorSurvives(deps, KeyOf(d));
    var k :| 0 <= k < |deps| && deps[k] == d;
    var e := Survivor(deps, KeyOf(d)).value;
    assert SurvivesAt(deps, e, i);
  }

  lemma {:induction false} UpsertNew(kept: seq<Dependency>, d: Dependency)
    requires forall i :: 0 <= i < |kept| ==> KeyOf(kept[i]) != KeyOf(d)
    ensures Upsert(kept, d) == kept + [d]
    decreases |kept|
  {
    if kept != [] {
      UpsertNew(kept[1..], d);
    }
  }

  lemma {:induction false} CollapseOfDistinct(deps: seq<Dependency>)
    requires DistinctKeys(deps)
    ensures Collapse(deps) == deps
    decreases |deps|
  {
    if deps != [] {
      var front := deps[..|deps| - 1];
      CollapseOfDistinct(front);
      UpsertNew(front, deps[|deps| - 1]);
    }
  }

  /** Collapsing twice is collapsing once. */
  lemma DedupeIsIdempotent(deps: seq<Dependency>)
    ensures Deduped(Deduped(deps)) == Deduped(deps)
  {
    DedupedExactly(deps);
    CollapseOfDistinct(Deduped(deps));
    SortKeepsSorted(Deduped(deps), NotAfter);
  }

  // ---------- in the words of the entries ----------

  predicate SamePackage(a: Dependency, b: Dependency) {
    a.ecosystem == b.ecosystem && a.name == b.name && a.version == b.version
  }

  /** Some entry of the same ecosystem, name and version has this exposure. */
  ghost predicate Occurs(deps: seq<Dependency>, d: Dependency, r: Reachability) {
    exists e :: e in deps && SamePackage(e, d) && e.reachability == r
  }

  /** Shipping directly wins over transitively, and either over development only. */
  ghost function Strongest(deps: seq<Dependency>, d: Dependency): Reachability {
    if Occurs(deps, d, RuntimeDirect) then RuntimeDirect
    else if Occurs(deps, d, RuntimeTransitive) then RuntimeTransitive
    else DevOnly
  }

  /** Every package found is reported, once, with the strongest exposure it was found with. */
  lemma StrongestExposureWins(deps: seq<Dependency>, d: Dependency)
    requires d in deps
    ensures exists e :: e in Deduped(deps) && e in deps && SamePackage(e, d) && e.reachability == Strongest(deps, d)
    ensures forall e, f :: e in Deduped(deps) && f in Deduped(deps) && SamePackage(e, f) ==> e == f
  {
    DedupedExactly(deps);
    var i := SurvivorSurvives(deps, KeyOf(d));
    var k :| 0 <= k < |deps| && deps[k] == d;
    var e := Survivor(deps, KeyOf(d)).value;
    assert SurvivesAt(deps, e, i) && Survives(deps, e);
    StrongestSurvives(deps, e, i, d);
    forall x, y | x in Deduped(deps) && y in Deduped(deps) && SamePackage(x, y) ensures x == y {
      SurvivorIsUnique(deps, x, y);
    }
  }

  lemma StrongestSurvives(deps: seq<Dependency>, e: Dependency, i: nat, d: Dependency)
    requires SurvivesAt(deps, e, i) && KeyOf(e) == KeyOf(d)
    ensures SamePackage(e, d) && e.reachability == Strongest(deps, d)
  {
    forall x | x in deps && SamePackage(x, d) ensures !MoreExposed(x, e) {
      var j :| 0 <= j < |deps| && deps[j] == x;
      assert KeyOf(deps[j]) == KeyOf(e);
    }
    assert Occurs(deps, d, e.reachability);
  }

  /** The result is in order of lower-cased name, then version, both by code point. */
  lemma InNameThenVersionOrder(deps: seq<Dependency>, i: nat, j: nat)
    requires i < j < |Deduped(deps)|
    ensures
      var a, b := Deduped(deps)[i], Deduped(deps)[j];
      Before(Lower(a.name), Lower(b.name)) || (Lower(a.name) == Lower(b.name) && !Before(b.version, a.version))
  {
    var a, b := Deduped(deps)[i], Deduped(deps)[j];
    DedupedExactly(deps);
    assert NotAfter(a, b);
    CompareTextIff(Lower(a.name), Lower(b.name));
    CompareTextIff(a.version, b.version);
  }
}
