/**
  Typosquat detection (app/core/supply_chain.py, `check_typosquat`).

  The reference is optimal string alignment distance: edit distance in which swapping two
  neighbouring characters also counts as one step. A signal is raised exactly when some popular
  name is at most one such step away once separators and case are folded.
*/
module Typosquat {
  import opened Prelude
  import opened Text
  import opened EditDistance

  const MIN_LENGTH := 5

  const SEPARATORS := "-_."

  const CONFUSABLE: set<set<char>> :=
    {{'l', '1'}, {'l', 'I'}, {'o', '0'}, {'O', '0'}, {'s', '5'}, {'g', '9'}, {'b', '6'}, {'z', '2'}}

  datatype SignalLevel = Notable | Concerning

  datatype Resemblance = Separator | Transposition | Confusable | Length | Substitution

  datatype Signal = Signal(level: SignalLevel, resembles: string, kind: Resemblance)

  function Canonical(name: string): string {
    Without(Lower(Strip(name)), SEPARATORS)
  }

  /** The positions at which two strings of one length differ, in order. */
  function Differences(a: string, b: string): (d: seq<nat>)
    requires |a| == |b|
    ensures forall k :: 0 <= k < |d| ==> d[k] < |a| && a[d[k]] != b[d[k]]
    ensures forall i :: 0 <= i < |a| && a[i] != b[i] ==> i in d
    ensures forall k, l :: 0 <= k < l < |d| ==> d[k] < d[l]
  {
    if a == [] then []
    else
      var n := |a| - 1;
      assert forall i :: 0 <= i < n ==> a[..n][i] == a[i] && b[..n][i] == b[i];
      Differences(a[..n], b[..n]) + (if a[n] != b[n] then [n] else [])
  }

  predicate IsConfusableSwap(left: string, right: string) {
    |left| == |right|
    && var d := Differences(left, right);
    |d| == 1 && {left[d[0]], right[d[0]]} in CONFUSABLE
  }

  predicate IsTransposition(left: string, right: string) {
    |left| == |right|
    && var d := Differences(left, right);
    |d| == 2 && d[1] == d[0] + 1 && left[d[0]] == right[d[1]] && left[d[1]] == right[d[0]]
  }

  // ---------- adjacent swaps ----------

  ghost predicate SwapAt(a: string, b: string, i: nat) {
    && i + 1 < |a| == |b|
    && a[i] != a[i + 1]
    && b[i] == a[i + 1] && b[i + 1] == a[i]
    && forall k :: 0 <= k < |a| && k != i && k != i + 1 ==> a[k] == b[k]
  }

  /** `b` is `a` with two unequal neighbours exchanged. */
  ghost predicate AdjacentSwap(a: string, b: string) {
    exists i :: SwapAt(a, b, i)
  }

  lemma {:induction false} AscendingRises(d: seq<nat>, k: nat)
    requires k < |d| && forall i, j :: 0 <= i < j < |d| ==> d[i] < d[j]
    ensures d[k] >= d[0] + k
  {
    if k > 0 {
      AscendingRises(d, k - 1);
    }
  }

  lemma TranspositionIsAdjacentSwap(a: string, b: string)
    ensures IsTransposition(a, b) <==> AdjacentSwap(a, b)
  {
    if IsTransposition(a, b) {
      var d := Differences(a, b);
      assert SwapAt(a, b, d[0]);
    }
    if AdjacentSwap(a, b) {
      var i: nat :| SwapAt(a, b, i);
      var d := Differences(a, b);
      assert i in d && i + 1 in d;
      AscendingRises(d, |d| - 1);
    }
  }

  lemma {:induction false} DistanceZeroMeansEqual(a: string, b: string)
    requires Distance(a, b) == 0
    ensures a == b
    decreases |a|
  {
    if a != [] && b != [] {
      var a', x := SplitLast(a);
      var b', y := SplitLast(b);
      DistanceSnoc(a', x, b', y);
      DistanceZeroMeansEqual(a', b');
    }
  }

  lemma {:induction false} NoDifferences(a: string)
    ensures Differences(a, a) == []
    decreases |a|
  {
    if a != [] {
      NoDifferences(a[..|a| - 1]);
    }
  }

  /** Two strings of one length that are one edit apart differ in at most one place. */
  lemma {:induction false} OneEditOneDifference(a: string, b: string)
    requires |a| == |b| && Distance(a, b) <= 1
    ensures |Differences(a, b)| <= 1
    decreases |a|
  {
    if a != [] {
      var a', x := SplitLast(a);
      var b', y := SplitLast(b);
      DistanceSnoc(a', x, b', y);
      DistanceAtLeastLengthGap(a', b);
      DistanceAtLeastLengthGap(a, b');
      OneEditOneDifference(a', b');
      assert a[..|a| - 1] == a' && b[..|b| - 1] == b';
      if x != y {
        DistanceZeroMeansEqual(a', b');
        NoDifferences(a');
      }
    }
  }

  /** Swapping unequal neighbours costs exactly two edits, so a limit of two misses no swap. */
  lemma SwapIsTwoEdits(a: string, b: string)
    requires AdjacentSwap(a, b)
    ensures Distance(a, b) == 2
  {
    var i: nat :| SwapAt(a, b, i);
    var script := [Substitute(i, a[i + 1]), Substitute(i + 1, a[i])];
    var half := Apply(script[0], a);
    assert Apply(script[1], half) == b;
    assert Rewrites(script[1..][1..], b, b);
    assert Rewrites(script[1..], half, b);
    assert Rewrites(script, a, b);
    ScriptAtLeastDistance(script, a, b);
    if Distance(a, b) <= 1 {
      OneEditOneDifference(a, b);
      TranspositionIsAdjacentSwap(a, b);
      assert false;
    }
  }

  // ---------- optimal string alignment ----------

  /** Edit distance in which exchanging two neighbours is one step. */
  ghost function Alignment(a: string, b: string): nat
    decreases |a| + |b|
  {
    if a == [] then |b|
    else if b == [] then |a|
    else
      var m, n := |a|, |b|;
      var d := Min(Min(Alignment(a[..m - 1], b) + 1, Alignment(a, b[..n - 1]) + 1),
                   Alignment(a[..m - 1], b[..n - 1]) + Cost(a[m - 1], b[n - 1]));
      if m > 1 && n > 1 && a[m - 1] == b[n - 2] && a[m - 2] == b[n - 1]
      then Min(d, Alignment(a[..m - 2], b[..n - 2]) + 1)
      else d
  }

  lemma {:induction false} AlignmentAtMostDistance(a: string, b: string)
    ensures Alignment(a, b) <= Distance(a, b)
    decreases |a| + |b|
  {
    if a != [] && b != [] {
      AlignmentAtMostDistance(a[..|a| - 1], b);
      AlignmentAtMostDistance(a, b[..|b| - 1]);
      AlignmentAtMostDistance(a[..|a| - 1], b[..|b| - 1]);
    }
  }

  lemma {:induction false} AlignmentZeroMeansEqual(a: string, b: string)
    requires Alignment(a, b) == 0
    ensures a == b
    decreases |a|
  {
    if a != [] && b != [] {
      AlignmentZeroMeansEqual(a[..|a| - 1], b[..|b| - 1]);
      assert a == a[..|a| - 1] + [a[|a| - 1]] && b == b[..|b| - 1] + [b[|b| - 1]];
    }
  }

  lemma ExchangedTailAlignment(a: string, b: string)
    requires |a| == |b| > 1 && a[|a| - 1] == b[|b| - 2] && a[|a| - 2] == b[|b| - 1]
    requires a[..|a| - 2] == b[..|b| - 2]
    ensures Alignment(a, b) <= 1
  {
    var u := a[..|a| - 2];
    DistanceToSelf(u);
    AlignmentAtMostDistance(u, u);
  }

  lemma {:induction false} AlignmentOfSwap(a: string, b: string, i: nat)
    requires SwapAt(a, b, i)
    ensures Alignment(a, b) <= 1
    decreases |a|
  {
    var n := |a|;
    if i + 2 == n {
      assert a[..n - 2] == b[..n - 2];
      ExchangedTailAlignment(a, b);
    } else {
      assert SwapAt(a[..n - 1], b[..n - 1], i);
      AlignmentOfSwap(a[..n - 1], b[..n - 1], i);
    }
  }

  ghost predicate TailExchanged(a: string, b: string) {
    && |a| > 1 && |b| > 1
    && a[|a| - 1] == b[|b| - 2] && a[|a| - 2] == b[|b| - 1]
    && Alignment(a[..|a| - 2], b[..|b| - 2]) == 0
  }

  /** The last step of an alignment of cost at most one. */
  lemma AlignmentLastStep(a: string, b: string)
    requires a != [] && b != [] && Alignment(a, b) <= 1
    ensures || Alignment(a[..|a| - 1], b) == 0
            || Alignment(a, b[..|b| - 1]) == 0
            || Alignment(a[..|a| - 1], b[..|b| - 1]) + Cost(a[|a| - 1], b[|b| - 1]) <= 1
            || TailExchanged(a, b)
  {
  }

  lemma {:induction false} AlignmentOneShapes(a: string, b: string)
    requires Alignment(a, b) <= 1
    ensures Distance(a, b) <= 1 || AdjacentSwap(a, b)
    decreases |a|
  {
    if a != [] && b != [] {
      AlignmentLastStep(a, b);
      var a', x := SplitLast(a);
      var b', y := SplitLast(b);
      assert a' == a[..|a| - 1] && b' == b[..|b| - 1];
      DistanceSnoc(a', x, b', y);
      if Alignment(a', b) == 0 {
        AlignmentZeroMeansEqual(a', b);
        DistanceToSelf(b);
      } else if Alignment(a, b') == 0 {
        AlignmentZeroMeansEqual(a, b');
        DistanceToSelf(a);
      } else if Alignment(a', b') == 0 {
        AlignmentZeroMeansEqual(a', b');
        DistanceToSelf(a');
      } else if TailExchanged(a, b) {
        AlignmentZeroMeansEqual(a[..|a| - 2], b[..|b| - 2]);
        SwappedTail(a, b);
      } else {
        AlignmentOneShapes(a', b');
        SharedLastKeepsShape(a', b', x);
      }
    }
  }

  lemma SharedLastKeepsShape(a: string, b: string, x: char)
    requires Distance(a, b) <= 1 || AdjacentSwap(a, b)
    ensures Distance(a + [x], b + [x]) <= 1 || AdjacentSwap(a + [x], b + [x])
  {
    DistanceSnoc(a, x, b, x);
    if AdjacentSwap(a, b) {
      var i: nat :| SwapAt(a, b, i);
      assert SwapAt(a + [x], b + [x], i);
    }
  }

  lemma SwappedTail(a: string, b: string)
    requires |a| == |b| > 1 && a[..|a| - 2] == b[..|b| - 2]
    requires a[|a| - 1] == b[|b| - 2] && a[|a| - 2] == b[|b| - 1]
    ensures Distance(a, b) <= 1 || AdjacentSwap(a, b)
  {
    var i := |a| - 2;
    assert forall k :: 0 <= k < i ==> a[k] == a[..i][k] == b[..i][k] == b[k];
    if a[i] == a[i + 1] {
      assert a == b;
      DistanceToSelf(a);
    } else {
      assert SwapAt(a, b, i);
    }
  }

  /** One alignment step or none: identical, one edit, or one adjacent swap. */
  lemma AlignmentAtMostOne(a: string, b: string)
    ensures Alignment(a, b) <= 1 <==> a == b || Distance(a, b) == 1 || AdjacentSwap(a, b)
  {
    if Alignment(a, b) <= 1 {
      AlignmentOneShapes(a, b);
      if Distance(a, b) == 0 {
        DistanceZeroMeansEqual(a, b);
      }
    }
    if a == b {
      DistanceToSelf(a);
    }
    AlignmentAtMostDistance(a, b);
    if AdjacentSwap(a, b) {
      var i: nat :| SwapAt(a, b, i);
      AlignmentOfSwap(a, b, i);
    }
  }

  // ---------- look-alikes ----------

  /** The pairs of characters that look alike, either way round. */
  const LOOK_ALIKES: set<(char, char)> :=
    {('l', '1'), ('l', 'I'), ('o', '0'), ('O', '0'), ('s', '5'), ('g', '9'), ('b', '6'), ('z', '2')}

  /** The strings differ in one place, and there by a pair that looks alike. */
  ghost predicate LookAlikeAt(a: string, b: string, i: nat) {
    && i < |a| == |b| && a[i] != b[i] && ((a[i], b[i]) in LOOK_ALIKES || (b[i], a[i]) in LOOK_ALIKES)
    && forall k :: 0 <= k < |a| && k != i ==> a[k] == b[k]
  }

  lemma PairIff(x: char, y: char)
    requires x != y
    ensures {x, y} in CONFUSABLE <==> (x, y) in LOOK_ALIKES || (y, x) in LOOK_ALIKES
  {
    forall p: char, q: char | p != q ensures {x, y} == {p, q} <==> (x == p && y == q) || (x == q && y == p) {
      SamePair(x, y, p, q);
    }
  }

  lemma SamePair(x: char, y: char, p: char, q: char)
    requires x != y && p != q
    ensures {x, y} == {p, q} <==> (x == p && y == q) || (x == q && y == p)
  {
    assert x in {x, y} && y in {x, y} && p in {p, q} && q in {p, q};
  }

  lemma ConfusableLooksAlike(a: string, b: string)
    requires IsConfusableSwap(a, b)
    ensures exists i :: LookAlikeAt(a, b, i)
  {
    var d := Differences(a, b);
    PairIff(a[d[0]], b[d[0]]);
    assert forall k :: 0 <= k < |a| && a[k] != b[k] ==> k in d;
    assert LookAlikeAt(a, b, d[0]);
  }

  lemma LookAlikeIsConfusable(a: string, b: string, i: nat)
    requires LookAlikeAt(a, b, i)
    ensures IsConfusableSwap(a, b)
  {
    var d := Differences(a, b);
    PairIff(a[i], b[i]);
    assert i in d && forall k :: 0 <= k < |d| ==> d[k] == i;
    AscendingRises(d, |d| - 1);
  }

  lemma ConfusableIff(a: string, b: string)
    ensures IsConfusableSwap(a, b) <==> exists i :: LookAlikeAt(a, b, i)
  {
    if IsConfusableSwap(a, b) {
      ConfusableLooksAlike(a, b);
    }
    if i: nat :| LookAlikeAt(a, b, i) {
      LookAlikeIsConfusable(a, b, i);
    }
  }

  // ---------- what folds away ----------

  lemma {:induction false} WithoutConcat(a: string, b: string, dropped: string)
    ensures Without(a + b, dropped) == Without(a, dropped) + Without(b, dropped)
    decreases |a|
  {
    if a == [] {
      assert a + b == b;
    } else {
      assert (a + b)[1..] == a[1..] + b;
      WithoutConcat(a[1..], b, dropped);
    }
  }

  lemma {:induction false} WithoutKeepsRest(s: string, dropped: string)
    requires forall i :: 0 <= i < |s| ==> s[i] !in dropped
    ensures Without(s, dropped) == s
    decreases |s|
  {
    if s != [] {
      WithoutKeepsRest(s[1..], dropped);
    }
  }

  predicate Unspaced(s: string) {
    forall i :: 0 <= i < |s| ==> !IsSpace(s[i])
  }

  lemma UnspacedStrips(s: string)
    requires Unspaced(s)
    ensures Strip(s) == s
  {
    if s != "" {
      StripDrops("", s, "");
      assert "" + s + "" == s;
    }
  }

  lemma CanonicalOfUnspaced(s: string)
    requires Unspaced(s)
    ensures Canonical(s) == Without(Lower(s), SEPARATORS)
  {
    UnspacedStrips(s);
  }

  lemma LowerConcat(a: string, b: string)
    ensures Lower(a + b) == Lower(a) + Lower(b)
  {
    assert forall i :: 0 <= i < |a| ==> (a + b)[i] == a[i];
    assert forall i :: 0 <= i < |b| ==> (a + b)[|a| + i] == b[i];
  }

  lemma WithoutOne(c: char)
    ensures Without([c], SEPARATORS) == if c in SEPARATORS then [] else [c]
  {
    assert [c][1..] == [];
  }

  lemma LowerOfThree(a: string, separator: char, b: string)
    requires LowerChar(separator) == separator
    ensures Lower(a + [separator] + b) == Lower(a) + [separator] + Lower(b)
  {
    LowerConcat(a + [separator], b);
    LowerConcat(a, [separator]);
    assert Lower([separator]) == [separator];
  }

  lemma WithoutOfThree(x: string, separator: char, y: string)
    requires separator in SEPARATORS
    ensures Without(x + [separator] + y, SEPARATORS) == Without(x + y, SEPARATORS)
  {
    WithoutConcat(x + [separator], y, SEPARATORS);
    WithoutConcat(x, [separator], SEPARATORS);
    WithoutConcat(x, y, SEPARATORS);
    WithoutOne(separator);
  }

  lemma SeparatorUnspaced(a: string, separator: char, b: string)
    requires Unspaced(a) && Unspaced(b) && !IsSpace(separator)
    ensures Unspaced(a + [separator] + b) && Unspaced(a + b)
  {
  }

  /** A hyphen, an underscore or a dot anywhere in a name folds away. */
  lemma SeparatorsFoldAway(a: string, separator: char, b: string)
    requires Unspaced(a) && Unspaced(b) && separator in {'-', '_', '.'}
    ensures Canonical(a + [separator] + b) == Canonical(a + b)
  {
    SeparatorUnspaced(a, separator, b);
    CanonicalOfUnspaced(a + [separator] + b);
    CanonicalOfUnspaced(a + b);
    LowerOfThree(a, separator, b);
    LowerConcat(a, b);
    WithoutOfThree(Lower(a), separator, Lower(b));
  }

  lemma LowerUpper(s: string)
    ensures Lower(Upper(s)) == Lower(s)
  {
  }

  lemma UpperUnspaced(s: string)
    requires Unspaced(s)
    ensures Unspaced(Upper(s))
  {
  }

  /** So does case. */
  lemma CaseFoldsAway(name: string)
    requires Unspaced(name)
    ensures Canonical(Upper(name)) == Canonical(name)
  {
    UpperUnspaced(name);
    CanonicalOfUnspaced(name);
    CanonicalOfUnspaced(Upper(name));
    LowerUpper(name);
  }

  /** And nothing else: a name without separators, capitals or spaces is its own canonical form. */
  lemma TheRestStays(name: string)
    requires forall i :: 0 <= i < |name| ==>
      !IsSpace(name[i]) && name[i] !in {'-', '_', '.'} && !('A' <= name[i] <= 'Z')
    ensures Canonical(name) == name
  {
    UnspacedStrips(name);
    assert Lower(name) == name;
    WithoutKeepsRest(name, SEPARATORS);
  }

  /** What a reported kind says about the two canonical names. */
  ghost predicate KindFits(kind: Resemblance, canonical: string, target: string) {
    match kind
    case Separator => canonical == target
    case Transposition => AdjacentSwap(canonical, target)
    case Length => |canonical| != |target| && Distance(canonical, target) == 1
    case Confusable =>
      |canonical| == |target| && Distance(canonical, target) == 1 && IsConfusableSwap(canonical, target)
    case Substitution =>
      |canonical| == |target| && Distance(canonical, target) == 1 && !IsConfusableSwap(canonical, target)
  }

  lemma KindFitsIsOneStep(kind: Resemblance, canonical: string, target: string)
    requires KindFits(kind, canonical, target)
    ensures Alignment(canonical, target) <= 1
  {
    AlignmentAtMostOne(canonical, target);
  }

  /** The comparison against one popular name, `None` for "keep looking". */
  method CompareWith(lowered: string, canonical: string, target: string) returns (signal: Option<Signal>)
    requires lowered != target
    ensures signal.Some? <==> Alignment(canonical, Canonical(target)) <= 1
    ensures signal.Some? ==>
      && signal.value.resembles == target
      && KindFits(signal.value.kind, canonical, Canonical(target))
      && (signal.value.level == Notable <==> signal.value.kind == Substitution)
  {
    var targetCanonical := Canonical(target);
    AlignmentAtMostOne(canonical, targetCanonical);
    TranspositionIsAdjacentSwap(canonical, targetCanonical);
    if canonical == targetCanonical && lowered != target {
      return Some(Signal(Concerning, target, Separator));
    }
    var distance := EditDistance.EditDistance(canonical, targetCanonical, 2);
    if AdjacentSwap(canonical, targetCanonical) {
      SwapIsTwoEdits(canonical, targetCanonical);
    }
    if distance > 2 {
      return None;
    }
    var transposed := IsTransposition(canonical, targetCanonical);
    if distance == 2 && !transposed {
      return None;
    }
    if distance == 0 {
      DistanceZeroMeansEqual(canonical, targetCanonical);
      assert false;
    }
    if transposed {
      return Some(Signal(Concerning, target, Transposition));
    } else if IsConfusableSwap(canonical, targetCanonical) {
      return Some(Signal(Concerning, target, Confusable));
    } else if |canonical| != |targetCanonical| {
      return Some(Signal(Concerning, target, Length));
    }
    return Some(Signal(Notable, target, Substitution));
  }

  /**
    `popular` and `knownDistinct` are the ecosystem's tables. Popular names are visited in an
    arbitrary order; whether there is a signal does not depend on it.
  */
  method CheckTyposquat(name: string, popular: set<string>, knownDistinct: set<string>) returns (signal: Option<Signal>)
    ensures signal.Some? <==>
      && Lower(Strip(name)) !in popular && Lower(Strip(name)) !in knownDistinct
      && |Lower(Strip(name))| >= 5 && Lower(Strip(name))[0] != '@'
      && exists target :: target in popular && Alignment(Canonical(Lower(Strip(name))), Canonical(target)) <= 1
    ensures signal.Some? ==>
      && signal.value.resembles in popular
      && Alignment(Canonical(Lower(Strip(name))), Canonical(signal.value.resembles)) <= 1
      && KindFits(signal.value.kind, Canonical(Lower(Strip(name))), Canonical(signal.value.resembles))
      && (signal.value.level == Notable <==> signal.value.kind == Substitution)
  {
    if popular == {} {
      return None;
    }
    var lowered := Lower(Strip(name));
    if lowered in popular {
      return None;
    }
    if lowered in knownDistinct {
      return None;
    }
    if StartsWith(lowered, "@") {
      return None;
    }
    if |lowered| < MIN_LENGTH {
      return None;
    }
    var canonical := Canonical(lowered);
    var unseen := popular;
    while unseen != {}
      invariant unseen <= popular
      invariant forall t :: t in popular - unseen ==> Alignment(canonical, Canonical(t)) > 1
    {
      var target :| target in unseen;
      signal := CompareWith(lowered, canonical, target);
      if signal.Some? {
        KindFitsIsOneStep(signal.value.kind, canonical, Canonical(target));
        return;
      }
      unseen := unseen - {target};
    }
    return None;
  }
}
