/**
  SemVer precedence (app/core/versions.py, `SemVer._compare`): a total preorder on releases of
  any width and prerelease lists of any length, which on three-part releases is the precedence of
  item 11 of Semantic Versioning 2.0.0.
*/
module SemVer {
  import opened Prelude
  import opened Text

  datatype Identifier = Numeric(n: nat) | Alphanumeric(s: string)

  datatype SemVer = SemVer(
    major: nat,
    minor: nat,
    patch: nat,
    extra: seq<nat>,
    prerelease: seq<Identifier>,
    build: Option<string>)

  function ReleaseKey(v: SemVer): seq<nat> {
    [v.major, v.minor, v.patch] + v.extra
  }

  function Zeros(n: nat): seq<nat> {
    if n == 0 then [] else [0] + Zeros(n - 1)
  }

  function PadTo(key: seq<nat>, width: nat): seq<nat>
    requires |key| <= width
  {
    key + Zeros(width - |key|)
  }

  /** Python's ordering of tuples of integers. */
  function CompareTuples(a: seq<nat>, b: seq<nat>): int {
    if a == [] then (if b == [] then 0 else -1)
    else if b == [] then 1
    else if a[0] != b[0] then CompareInt(a[0], b[0])
    else CompareTuples(a[1..], b[1..])
  }

  function CompareIdentifiers(x: Identifier, y: Identifier): int {
    if x == y then 0
    else if x.Numeric? && y.Numeric? then CompareInt(x.n, y.n)
    else if x.Numeric? != y.Numeric? then (if x.Numeric? then -1 else 1)
    else if CompareText(x.s, y.s) < 0 then -1
    else 1
  }

  /** The zip over shared identifiers, then the longer list wins. */
  function ComparePrereleases(a: seq<Identifier>, b: seq<Identifier>): int {
    if a == [] || b == [] then CompareInt(|a|, |b|)
    else if CompareIdentifiers(a[0], b[0]) != 0 then CompareIdentifiers(a[0], b[0])
    else ComparePrereleases(a[1..], b[1..])
  }

  function Compare(v: SemVer, w: SemVer): int {
    var width := Max(|ReleaseKey(v)|, |ReleaseKey(w)|);
    var a, b := PadTo(ReleaseKey(v), width), PadTo(ReleaseKey(w), width);
    if a != b then (if CompareTuples(a, b) < 0 then -1 else 1)
    else if v.prerelease == [] && w.prerelease == [] then 0
    else if v.prerelease == [] then 1
    else if w.prerelease == [] then -1
    else ComparePrereleases(v.prerelease, w.prerelease)
  }

  // ---------- releases, zero-padded without end ----------

  function Head(s: seq<nat>): nat {
    if s == [] then 0 else s[0]
  }

  function Tail(s: seq<nat>): seq<nat> {
    if s == [] then [] else s[1..]
  }

  /** Compares two releases as if both went on with zeros forever. */
  function CompareReleases(a: seq<nat>, b: seq<nat>): int
    decreases |a| + |b|
  {
    if a == [] && b == [] then 0
    else if Head(a) != Head(b) then CompareInt(Head(a), Head(b))
    else CompareReleases(Tail(a), Tail(b))
  }

  lemma {:induction false} PaddingIsImplicit(a: seq<nat>, b: seq<nat>, width: nat)
    requires |a| <= width && |b| <= width
    ensures CompareTuples(PadTo(a, width), PadTo(b, width)) == CompareReleases(a, b)
    decreases width
  {
    if width > 0 {
      PadHead(a, width);
      PadHead(b, width);
      PaddingIsImplicit(Tail(a), Tail(b), width - 1);
      if a == [] && b == [] {
        assert CompareReleases(a, b) == CompareReleases(Tail(a), Tail(b));
      }
    }
  }

  lemma PadHead(a: seq<nat>, width: nat)
    requires |a| <= width && width > 0
    ensures PadTo(a, width) != [] && PadTo(a, width)[0] == Head(a) && PadTo(a, width)[1..] == PadTo(Tail(a), width - 1)
  {
    if a == [] {
      assert PadTo(a, width) == Zeros(width);
      assert PadTo(Tail(a), width - 1) == Zeros(width - 1);
    }
  }

  lemma {:induction false} TuplesEqualIffZero(a: seq<nat>, b: seq<nat>)
    ensures CompareTuples(a, b) == 0 <==> a == b
    decreases |a|
  {
    if a != [] && b != [] {
      TuplesEqualIffZero(a[1..], b[1..]);
      assert a == [a[0]] + a[1..] && b == [b[0]] + b[1..];
    }
  }

  /** `Compare` in terms of the padded order and the prerelease order. */
  lemma CompareUnfolds(v: SemVer, w: SemVer)
    ensures Compare(v, w) ==
      var r := CompareReleases(ReleaseKey(v), ReleaseKey(w));
      if r != 0 then (if r < 0 then -1 else 1)
      else if v.prerelease == [] && w.prerelease == [] then 0
      else if v.prerelease == [] then 1
      else if w.prerelease == [] then -1
      else ComparePrereleases(v.prerelease, w.prerelease)
  {
    var width := Max(|ReleaseKey(v)|, |ReleaseKey(w)|);
    PaddingIsImplicit(ReleaseKey(v), ReleaseKey(w), width);
    TuplesEqualIffZero(PadTo(ReleaseKey(v), width), PadTo(ReleaseKey(w), width));
  }

  lemma {:induction false} ReleasesMirror(a: seq<nat>, b: seq<nat>)
    ensures -1 <= CompareReleases(a, b) <= 1
    ensures CompareReleases(a, b) == -CompareReleases(b, a)
    decreases |a| + |b|
  {
    if a != [] || b != [] {
      ReleasesMirror(Tail(a), Tail(b));
    }
  }

  lemma {:induction false} ReleasesChain(a: seq<nat>, b: seq<nat>, c: seq<nat>)
    requires CompareReleases(a, b) <= 0 && CompareReleases(b, c) <= 0
    ensures CompareReleases(a, c) <= 0
    ensures CompareReleases(a, b) < 0 || CompareReleases(b, c) < 0 ==> CompareReleases(a, c) < 0
    decreases |a| + |b| + |c|
  {
    if a == [] && b == [] && c == [] {
    } else if Head(a) == Head(b) == Head(c) {
      TailKeeps(a, b);
      TailKeeps(b, c);
      TailKeeps(a, c);
      ReleasesChain(Tail(a), Tail(b), Tail(c));
    } else {
      TailKeeps(a, b);
      TailKeeps(b, c);
      TailKeeps(a, c);
    }
  }

  lemma TailKeeps(a: seq<nat>, b: seq<nat>)
    ensures CompareReleases(a, b) ==
      if Head(a) != Head(b) then CompareInt(Head(a), Head(b)) else CompareReleases(Tail(a), Tail(b))
  {
  }

  // ---------- prereleases ----------

  lemma IdentifiersOrder(x: Identifier, y: Identifier, z: Identifier)
    ensures -1 <= CompareIdentifiers(x, y) <= 1
    ensures CompareIdentifiers(x, y) == -CompareIdentifiers(y, x)
    ensures CompareIdentifiers(x, y) == 0 <==> x == y
    ensures CompareIdentifiers(x, y) < 0 && CompareIdentifiers(y, z) < 0 ==> CompareIdentifiers(x, z) < 0
  {
    if x.Alphanumeric? && y.Alphanumeric? {
      CompareTextMirrors(x.s, y.s);
      if z.Alphanumeric? {
        CompareTextMirrors(y.s, z.s);
        CompareTextMirrors(x.s, z.s);
        if CompareText(x.s, y.s) < 0 && CompareText(y.s, z.s) < 0 {
          CompareTextChains(x.s, y.s, z.s);
        }
      }
    }
  }

  lemma {:induction false} PrereleasesMirror(a: seq<Identifier>, b: seq<Identifier>)
    ensures -1 <= ComparePrereleases(a, b) <= 1
    ensures ComparePrereleases(a, b) == -ComparePrereleases(b, a)
    ensures ComparePrereleases(a, b) == 0 <==> a == b
    decreases |a|
  {
    if a != [] && b != [] {
      IdentifiersOrder(a[0], b[0], b[0]);
      PrereleasesMirror(a[1..], b[1..]);
      assert a == [a[0]] + a[1..] && b == [b[0]] + b[1..];
    }
  }

  lemma {:induction false} PrereleasesChain(a: seq<Identifier>, b: seq<Identifier>, c: seq<Identifier>)
    requires ComparePrereleases(a, b) <= 0 && ComparePrereleases(b, c) <= 0
    ensures ComparePrereleases(a, c) <= 0
    ensures ComparePrereleases(a, b) < 0 || ComparePrereleases(b, c) < 0 ==> ComparePrereleases(a, c) < 0
    decreases |a|
  {
    if a != [] && b != [] && c != [] {
      IdentifiersOrder(a[0], b[0], c[0]);
      IdentifiersOrder(b[0], c[0], a[0]);
      IdentifiersOrder(a[0], c[0], b[0]);
      if a[0] == b[0] == c[0] {
        PrereleasesChain(a[1..], b[1..], c[1..]);
      }
    }
  }

  // ---------- the total preorder ----------

  /** Comparison is a total preorder on versions of every width. */
  lemma CompareIsPreorder(u: SemVer, v: SemVer, w: SemVer)
    ensures Compare(u, u) == 0
    ensures -1 <= Compare(u, v) <= 1 && Compare(u, v) == -Compare(v, u)
    ensures Compare(u, v) <= 0 && Compare(v, w) <= 0 ==> Compare(u, w) <= 0
    ensures Compare(u, v) < 0 && Compare(v, w) <= 0 ==> Compare(u, w) < 0
    ensures Compare(u, v) <= 0 && Compare(v, w) < 0 ==> Compare(u, w) < 0
  {
    CompareMirrors(u, u);
    CompareMirrors(u, v);
    if Compare(u, v) <= 0 && Compare(v, w) <= 0 {
      CompareChains(u, v, w);
    }
  }

  lemma CompareMirrors(u: SemVer, v: SemVer)
    ensures -1 <= Compare(u, v) <= 1 && Compare(u, v) == -Compare(v, u)
  {
    CompareUnfolds(u, v);
    CompareUnfolds(v, u);
    ReleasesMirror(ReleaseKey(u), ReleaseKey(v));
    PrereleasesMirror(u.prerelease, v.prerelease);
  }

  lemma CompareChains(u: SemVer, v: SemVer, w: SemVer)
    requires Compare(u, v) <= 0 && Compare(v, w) <= 0
    ensures Compare(u, w) <= 0
    ensures Compare(u, v) < 0 || Compare(v, w) < 0 ==> Compare(u, w) < 0
  {
    CompareUnfolds(u, v);
    CompareUnfolds(v, w);
    CompareUnfolds(u, w);
    ReleasesChain(ReleaseKey(u), ReleaseKey(v), ReleaseKey(w));
    if u.prerelease != [] && v.prerelease != [] && w.prerelease != []
       && CompareReleases(ReleaseKey(u), ReleaseKey(v)) == 0 == CompareReleases(ReleaseKey(v), ReleaseKey(w)) {
      PrereleasesChain(u.prerelease, v.prerelease, w.prerelease);
    }
    ReleasesMirror(ReleaseKey(u), ReleaseKey(w));
    if CompareReleases(ReleaseKey(u), ReleaseKey(v)) == 0 == CompareReleases(ReleaseKey(v), ReleaseKey(w)) {
      ReleasesMirror(ReleaseKey(u), ReleaseKey(v));
      ReleasesMirror(ReleaseKey(v), ReleaseKey(w));
      ReleasesChain(ReleaseKey(w), ReleaseKey(v), ReleaseKey(u));
    }
  }

  // ---------- when two versions are equal ----------

  function Component(key: seq<nat>, i: nat): nat {
    if i < |key| then key[i] else 0
  }

  lemma {:induction false} ReleasesEqualPointwise(a: seq<nat>, b: seq<nat>)
    ensures CompareReleases(a, b) == 0 <==> forall i: nat :: Component(a, i) == Component(b, i)
    decreases |a| + |b|
  {
    if a != [] || b != [] {
      ReleasesEqualPointwise(Tail(a), Tail(b));
      assert forall i: nat ::
        Component(Tail(a), i) == Component(a, i + 1) && Component(Tail(b), i) == Component(b, i + 1);
      if Head(a) == Head(b) && CompareReleases(Tail(a), Tail(b)) == 0 {
        forall i: nat ensures Component(a, i) == Component(b, i) {
          if i > 0 {
            assert Component(Tail(a), i - 1) == Component(Tail(b), i - 1);
          }
        }
      }
      if forall i: nat :: Component(a, i) == Component(b, i) {
        assert Component(a, 0) == Component(b, 0);
        forall i: nat ensures Component(Tail(a), i) == Component(Tail(b), i) {
          assert Component(a, i + 1) == Component(b, i + 1);
        }
      }
    }
  }

  /** Equal means: the same numbers up to trailing zeros and the same prerelease; build never counts. */
  lemma EqualUpToTrailingZeros(v: SemVer, w: SemVer)
    ensures Compare(v, w) == 0 <==>
      && (forall i: nat :: Component(ReleaseKey(v), i) == Component(ReleaseKey(w), i))
      && v.prerelease == w.prerelease
  {
    CompareUnfolds(v, w);
    ReleasesEqualPointwise(ReleaseKey(v), ReleaseKey(w));
    PrereleasesMirror(v.prerelease, w.prerelease);
  }

  /** The tuple `__hash__` hashes; unlike equality it does not pad. */
  function HashKey(v: SemVer): (seq<nat>, seq<Identifier>) {
    (ReleaseKey(v), v.prerelease)
  }

  /** Equal versions hash alike exactly when they are written with equally many components. */
  lemma EqualVersionsHashAlikeIff(v: SemVer, w: SemVer)
    requires Compare(v, w) == 0
    ensures HashKey(v) == HashKey(w) <==> |v.extra| == |w.extra|
  {
    EqualUpToTrailingZeros(v, w);
    if |v.extra| == |w.extra| {
      var a, b := ReleaseKey(v), ReleaseKey(w);
      forall i | 0 <= i < |a| ensures a[i] == b[i] {
        assert Component(a, i) == Component(b, i);
      }
      assert a == b;
    } else {
      assert |ReleaseKey(v)| != |ReleaseKey(w)|;
    }
  }

  /** The mismatch is real: 1.2.3 and 1.2.3.0 are equal and hash differently. */
  lemma EqualVersionsMayHashApart()
    ensures
      var v, w := SemVer(1, 2, 3, [], [], None), SemVer(1, 2, 3, [0], [], None);
      Compare(v, w) == 0 && HashKey(v) != HashKey(w)
  {
    var v, w := SemVer(1, 2, 3, [], [], None), SemVer(1, 2, 3, [0], [], None);
    forall i: nat ensures Component(ReleaseKey(v), i) == Component(ReleaseKey(w), i) {
    }
    EqualUpToTrailingZeros(v, w);
    assert |ReleaseKey(v)| != |ReleaseKey(w)|;
  }

  // ---------- item 11 of Semantic Versioning 2.0.0 ----------

  /** 11.4: numeric identifiers compare as numbers and rank below the others, which compare as text. */
  predicate IdentifierPrecedes(x: Identifier, y: Identifier) {
    match (x, y)
    case (Numeric(m), Numeric(n)) => m < n
    case (Numeric(_), Alphanumeric(_)) => true
    case (Alphanumeric(_), Numeric(_)) => false
    case (Alphanumeric(s), Alphanumeric(t)) => CompareText(s, t) < 0
  }

  /** 11.4: the first differing identifier decides; if there is none, the larger set of fields wins. */
  ghost predicate PrereleasePrecedes(a: seq<Identifier>, b: seq<Identifier>) {
    exists k :: PrereleaseDecidedAt(a, b, k)
  }

  ghost predicate PrereleaseDecidedAt(a: seq<Identifier>, b: seq<Identifier>, k: nat) {
    && k <= |a| && k < |b| && a[..k] == b[..k]
    && (k == |a| || IdentifierPrecedes(a[k], b[k]))
  }

  /** Item 11, for versions of three numbers. */
  ghost predicate Precedes(v: SemVer, w: SemVer) {
    || v.major < w.major
    || (v.major == w.major && v.minor < w.minor)
    || (v.major == w.major && v.minor == w.minor && v.patch < w.patch)
    || (v.major == w.major && v.minor == w.minor && v.patch == w.patch
        && v.prerelease != []
        && (w.prerelease == [] || PrereleasePrecedes(v.prerelease, w.prerelease)))
  }

  lemma IdentifierOrderIsItem11(x: Identifier, y: Identifier)
    ensures CompareIdentifiers(x, y) < 0 <==> IdentifierPrecedes(x, y)
  {
    if x.Alphanumeric? && y.Alphanumeric? {
      CompareTextMirrors(x.s, y.s);
    }
  }

  lemma {:induction false} LowerPrereleasePrecedes(a: seq<Identifier>, b: seq<Identifier>)
    requires ComparePrereleases(a, b) < 0
    ensures PrereleasePrecedes(a, b)
    decreases |a|
  {
    if a == [] || IdentifierPrecedes(a[0], b[0]) {
      assert PrereleaseDecidedAt(a, b, 0);
    } else {
      IdentifiersOrder(a[0], b[0], b[0]);
      LowerPrereleasePrecedes(a[1..], b[1..]);
      var k: nat :| PrereleaseDecidedAt(a[1..], b[1..], k);
      assert a[..k + 1] == [a[0]] + a[1..][..k] && b[..k + 1] == [b[0]] + b[1..][..k];
      assert PrereleaseDecidedAt(a, b, k + 1);
    }
  }

  lemma {:induction false} PrecedingPrereleaseIsLower(a: seq<Identifier>, b: seq<Identifier>, k: nat)
    requires PrereleaseDecidedAt(a, b, k)
    ensures ComparePrereleases(a, b) < 0
    decreases k
  {
    if k == 0 {
      if a != [] {
        IdentifierOrderIsItem11(a[0], b[0]);
      }
    } else {
      assert a[0] == a[..k][0] && b[0] == b[..k][0];
      assert a[1..][..k - 1] == a[..k][1..] && b[1..][..k - 1] == b[..k][1..];
      PrecedingPrereleaseIsLower(a[1..], b[1..], k - 1);
    }
  }

  lemma PrereleaseOrderIsItem11(a: seq<Identifier>, b: seq<Identifier>)
    ensures ComparePrereleases(a, b) < 0 <==> PrereleasePrecedes(a, b)
  {
    if ComparePrereleases(a, b) < 0 {
      LowerPrereleasePrecedes(a, b);
    }
    if PrereleasePrecedes(a, b) {
      var k: nat :| PrereleaseDecidedAt(a, b, k);
      PrecedingPrereleaseIsLower(a, b, k);
    }
  }

  /** On three-part releases the comparison is item 11, in both directions. */
  lemma AgreesWithItem11(v: SemVer, w: SemVer)
    requires v.extra == [] && w.extra == []
    ensures Compare(v, w) < 0 <==> Precedes(v, w)
    ensures Compare(v, w) > 0 <==> Precedes(w, v)
  {
    ThreeParts(v, w);
    ThreeParts(w, v);
    CompareMirrors(v, w);
  }

  lemma ThreeParts(v: SemVer, w: SemVer)
    requires v.extra == [] && w.extra == []
    ensures Compare(v, w) < 0 <==> Precedes(v, w)
  {
    CompareUnfolds(v, w);
    var a, b := ReleaseKey(v), ReleaseKey(w);
    assert a == [v.major, v.minor, v.patch] && b == [w.major, w.minor, w.patch];
    assert a[1..] == [v.minor, v.patch] && b[1..] == [w.minor, w.patch];
    assert a[1..][1..] == [v.patch] && b[1..][1..] == [w.patch];
    TailKeeps(a, b);
    TailKeeps(a[1..], b[1..]);
    TailKeeps(a[1..][1..], b[1..][1..]);
    PrereleaseOrderIsItem11(v.prerelease, w.prerelease);
  }
}
