/**
  Maven version order (app/core/versions.py, `_maven_tokens`, `_maven_trim`, `_maven_compare`).

  The comparison is antisymmetric and calls two versions equal exactly when their trimmed tokens
  are identical. It is not transitive; the triples on which it goes round in a circle are
  characterised exactly.
*/
module Maven {
  import opened Prelude
  import opened Text

  /** A qualifier's rank is determined by its text, so only the text is kept. */
  datatype Token = Number(n: nat) | Qualifier(text: string)

  const RELEASE_RANK := 5

  const UNKNOWN_RANK := 7

  function Rank(text: string): nat {
    if text in {"alpha", "a"} then 0
    else if text in {"beta", "b"} then 1
    else if text in {"milestone", "m"} then 2
    else if text in {"rc", "cr"} then 3
    else if text == "snapshot" then 4
    else if text in {"", "ga", "final", "release"} then RELEASE_RANK
    else if text == "sp" then 6
    else UNKNOWN_RANK
  }

  // ---------- tokens ----------

  /** A token as the tokeniser makes them. */
  predicate Proper(t: Token) {
    t.Qualifier? ==> t.text != ""
  }

  /** How many leading characters of `s` satisfy `p`. */
  function RunLength(s: string, p: char -> bool): (n: nat)
    ensures n <= |s| && (forall i :: 0 <= i < n ==> p(s[i])) && (n < |s| ==> !p(s[n]))
  {
    if s == [] || !p(s[0]) then 0 else 1 + RunLength(s[1..], p)
  }

  /** How much of `s` its first run takes: digits, or letters, or one character that is neither. */
  function FirstRun(s: string): (n: nat)
    requires s != ""
    ensures 0 < n <= |s|
    ensures IsDigit(s[0]) ==> All(s[..n], IsDigit)
  {
    if IsDigit(s[0]) then RunLength(s, IsDigit)
    else if IsLetter(s[0]) then RunLength(s, IsLetter)
    else 1
  }

  /** The token a run stands for; characters other than digits and letters only end runs. */
  function RunToken(run: string): (t: seq<Token>)
    requires run != "" && (IsDigit(run[0]) ==> All(run, IsDigit))
    ensures |t| <= 1 && (t != [] ==> Proper(t[0]))
  {
    if IsDigit(run[0]) then [Number(Text.Number(run))]
    else if IsLetter(run[0]) then [Qualifier(run)]
    else []
  }

  function Runs(s: string): seq<Token>
    decreases |s|
  {
    if s == "" then [] else RunToken(s[..FirstRun(s)]) + Runs(s[FirstRun(s)..])
  }

  function Tokens(value: string): seq<Token> {
    Runs(Lower(Strip(value)))
  }

  /** A text has tokens exactly when it has a digit or a letter. */
  lemma {:induction false} NoTokensIff(s: string)
    ensures Runs(s) == [] <==> forall i :: 0 <= i < |s| ==> !IsDigit(s[i]) && !IsLetter(s[i])
    decreases |s|
  {
    if s != "" {
      NoTokensIff(s[FirstRun(s)..]);
      if !IsDigit(s[0]) && !IsLetter(s[0]) {
        assert forall i :: 0 < i < |s| ==> s[i] == s[1..][i - 1];
        assert forall i :: 0 <= i < |s[1..]| ==> s[1..][i] == s[i + 1];
      } else {
        assert RunToken(s[..FirstRun(s)]) != [];
      }
    }
  }

  method MavenTokens(value: string) returns (tokens: seq<Token>)
    ensures tokens == Tokens(value)
  {
    var rest := Lower(Strip(value));
    ghost var all := Runs(rest);
    tokens := [];
    while rest != ""
      invariant tokens + Runs(rest) == all
      decreases |rest|
    {
      var n := FirstRun(rest);
      assert tokens + (RunToken(rest[..n]) + Runs(rest[n..])) == tokens + RunToken(rest[..n]) + Runs(rest[n..]);
      tokens := tokens + RunToken(rest[..n]);
      rest := rest[n..];
    }
  }

  /** No run crosses from the end of `a` into `b`. */
  predicate Boundary(a: string, b: string) {
    a == "" || b == ""
    || (!(IsDigit(a[|a| - 1]) && IsDigit(b[0])) && !(IsLetter(a[|a| - 1]) && IsLetter(b[0])))
  }

  /** A run ends at the boundary, provided its last character and the next do not both belong to it. */
  lemma {:induction false} RunStops(a: string, b: string, p: char -> bool)
    requires a != "" && (b == "" || !(p(a[|a| - 1]) && p(b[0])))
    ensures RunLength(a + b, p) == RunLength(a, p)
    decreases |a|
  {
    assert (a + b)[1..] == a[1..] + b && (a + b)[0] == a[0];
    if |a| > 1 {
      RunStops(a[1..], b, p);
    } else {
      assert a[1..] + b == b;
    }
  }

  lemma FirstRunStopsAtBoundary(a: string, b: string)
    requires Boundary(a, b) && a != ""
    ensures FirstRun(a + b) == FirstRun(a)
  {
    if IsDigit(a[0]) {
      RunStops(a, b, IsDigit);
    } else if IsLetter(a[0]) {
      RunStops(a, b, IsLetter);
    }
  }

  lemma CutInFirst(a: string, b: string, n: nat)
    requires n <= |a|
    ensures (a + b)[..n] == a[..n] && (a + b)[n..] == a[n..] + b
  {
  }

  lemma Regroup(a: seq<Token>, b: seq<Token>, c: seq<Token>)
    ensures a + (b + c) == a + b + c
  {
  }

  lemma {:induction false} RunsSplit(a: string, b: string)
    requires Boundary(a, b)
    ensures Runs(a + b) == Runs(a) + Runs(b)
    decreases |a|
  {
    if a == "" {
      assert a + b == b;
    } else {
      var n := FirstRun(a);
      var t := a[n..];
      FirstRunStopsAtBoundary(a, b);
      CutInFirst(a, b, n);
      assert t != "" ==> t[|t| - 1] == a[|a| - 1];
      RunsSplit(t, b);
      Regroup(RunToken(a[..n]), Runs(t), Runs(b));
    }
  }

  lemma SeparatorIsNoToken(separator: char)
    requires !IsDigit(separator) && !IsLetter(separator)
    ensures Runs([separator]) == []
  {
    assert [separator][1..] == "";
  }

  lemma SeparatorEndsRun(a: string, separator: char)
    requires !IsDigit(separator) && !IsLetter(separator)
    ensures Runs(a + [separator]) == Runs(a)
  {
    SeparatorIsNoToken(separator);
    RunsSplit(a, [separator]);
  }

  /** Where digits meet letters, writing a separator or leaving it out reads the same. */
  lemma SeparatorIsOptional(a: string, separator: char, b: string)
    requires Boundary(a, b) && !IsDigit(separator) && !IsLetter(separator)
    ensures Runs((a + [separator]) + b) == Runs(a + b)
  {
    SeparatorEndsRun(a, separator);
    RunsSplit(a, b);
    var left := a + [separator];
    assert Boundary(left, b) by {
      assert left[|left| - 1] == separator;
    }
    RunsSplit(left, b);
  }

  // ---------- trimming ----------

  /** A trailing token that stands for nothing. */
  predicate IsNull(t: Token) {
    match t
    case Number(n) => n == 0
    case Qualifier(text) => Rank(text) == RELEASE_RANK
  }

  predicate Trimmed(tokens: seq<Token>) {
    tokens != [] ==> !IsNull(tokens[|tokens| - 1])
  }

  function Trim(tokens: seq<Token>): (r: seq<Token>)
    ensures r <= tokens && Trimmed(r)
    ensures forall i :: |r| <= i < |tokens| ==> IsNull(tokens[i])
  {
    if tokens != [] && IsNull(tokens[|tokens| - 1]) then Trim(tokens[..|tokens| - 1]) else tokens
  }

  method MavenTrim(tokens: seq<Token>) returns (r: seq<Token>)
    ensures r == Trim(tokens)
  {
    r := tokens;
    while r != []
      invariant Trim(r) == Trim(tokens)
      decreases |r|
    {
      if IsNull(r[|r| - 1]) {
        r := r[..|r| - 1];
      } else {
        break;
      }
    }
  }

  predicate Canonical(tokens: seq<Token>) {
    Trimmed(tokens) && forall i :: 0 <= i < |tokens| ==> Proper(tokens[i])
  }

  lemma {:induction false} RunsAreProper(s: string)
    ensures forall i :: 0 <= i < |Runs(s)| ==> Proper(Runs(s)[i])
    decreases |s|
  {
    if s != "" {
      RunsAreProper(s[FirstRun(s)..]);
    }
  }

  // ---------- comparing ----------

  /** What a missing token counts as, next to a token of the other side. */
  function NullLike(t: Token): Token {
    if t.Number? then Number(0) else Qualifier("")
  }

  function CompareTokens(x: Token, y: Token): int {
    if x.Number? != y.Number? then (if x.Number? then 1 else -1)
    else if x.Number? then CompareInt(x.n, y.n)
    else if Rank(x.text) != Rank(y.text) then CompareInt(Rank(x.text), Rank(y.text))
    else CompareText(x.text, y.text)
  }

  function Rest(s: seq<Token>): seq<Token> {
    if s == [] then [] else s[1..]
  }

  /** The comparison at the front of two token lists, not both empty. */
  function CompareFronts(a: seq<Token>, b: seq<Token>): int
    requires a != [] || b != []
  {
    CompareTokens(if a != [] then a[0] else NullLike(b[0]), if b != [] then b[0] else NullLike(a[0]))
  }

  /** Position by position; the first difference decides. */
  function Order(a: seq<Token>, b: seq<Token>): int
    decreases |a| + |b|
  {
    if a == [] && b == [] then 0
    else if CompareFronts(a, b) != 0 then CompareFronts(a, b)
    else Order(Rest(a), Rest(b))
  }

  function Key(version: string): seq<Token> {
    Trim(Tokens(version))
  }

  function From(s: seq<Token>, i: nat): seq<Token> {
    if i < |s| then s[i..] else []
  }

  function TokenAt(s: seq<Token>, other: seq<Token>, i: nat): Token
    requires i < |s| || i < |other|
  {
    if i < |s| then s[i] else NullLike(other[i])
  }

  lemma OrderStep(a: seq<Token>, b: seq<Token>, i: nat)
    requires i < |a| || i < |b|
    ensures Order(From(a, i), From(b, i)) ==
      var c := CompareTokens(TokenAt(a, b, i), TokenAt(b, a, i));
      if c != 0 then c else Order(From(a, i + 1), From(b, i + 1))
  {
    assert Rest(From(a, i)) == From(a, i + 1) && Rest(From(b, i)) == From(b, i + 1);
  }

  method MavenCompare(left: string, right: string) returns (r: int)
    ensures r == Order(Key(left), Key(right))
  {
    var leftTokens := MavenTokens(left);
    var rightTokens := MavenTokens(right);
    var a := MavenTrim(leftTokens);
    var b := MavenTrim(rightTokens);
    for index := 0 to Max(|a|, |b|)
      invariant Order(From(a, index), From(b, index)) == Order(a, b)
    {
      OrderStep(a, b, index);
      var one, two := TokenAt(a, b, index), TokenAt(b, a, index);
      if one.Number? != two.Number? {
        return if one.Number? then 1 else -1;
      }
      if one.Number? {
        if one.n != two.n {
          return if one.n < two.n then -1 else 1;
        }
        continue;
      }
      if Rank(one.text) != Rank(two.text) {
        return if Rank(one.text) < Rank(two.text) then -1 else 1;
      }
      CompareTextMirrors(one.text, two.text);
      if one.text != two.text {
        return if CompareText(one.text, two.text) < 0 then -1 else 1;
      }
    }
    return 0;
  }

  // ---------- antisymmetry and equality ----------

  lemma TokensOrder(x: Token, y: Token, z: Token)
    ensures -1 <= CompareTokens(x, y) <= 1
    ensures CompareTokens(x, y) == -CompareTokens(y, x)
    ensures CompareTokens(x, y) == 0 <==> x == y
    ensures CompareTokens(x, y) <= 0 && CompareTokens(y, z) <= 0 ==> CompareTokens(x, z) <= 0
  {
    if x.Qualifier? && y.Qualifier? {
      CompareTextMirrors(x.text, y.text);
      if z.Qualifier? && CompareText(x.text, y.text) <= 0 && CompareText(y.text, z.text) <= 0 {
        CompareTextChains(x.text, y.text, z.text);
      }
    }
  }

  lemma {:induction false} OrderMirrors(a: seq<Token>, b: seq<Token>)
    ensures -1 <= Order(a, b) <= 1
    ensures Order(a, b) == -Order(b, a)
    decreases |a| + |b|
  {
    if a != [] || b != [] {
      var x := if a != [] then a[0] else NullLike(b[0]);
      var y := if b != [] then b[0] else NullLike(a[0]);
      TokensOrder(x, y, y);
      OrderMirrors(Rest(a), Rest(b));
    }
  }

  /** An ended version differs from any canonical continuation. */
  lemma {:induction false} EndedDiffers(b: seq<Token>)
    requires b != [] && Canonical(b)
    ensures Order([], b) != 0
    decreases |b|
  {
    TokensOrder(NullLike(b[0]), b[0], b[0]);
    if b[0] == Number(0) {
      EndedDiffers(b[1..]);
    }
  }

  /** Equal exactly when the trimmed tokens, which are what is hashed, are identical. */
  lemma {:induction false} OrderZeroIffIdentical(a: seq<Token>, b: seq<Token>)
    requires Canonical(a) && Canonical(b)
    ensures Order(a, b) == 0 <==> a == b
    decreases |a| + |b|
  {
    if a == [] && b != [] {
      EndedDiffers(b);
    } else if a != [] && b == [] {
      EndedDiffers(a);
      OrderMirrors(a, []);
    } else if a != [] {
      TokensOrder(a[0], b[0], b[0]);
      OrderZeroIffIdentical(a[1..], b[1..]);
      assert a == [a[0]] + a[1..] && b == [b[0]] + b[1..];
    }
  }

  lemma KeysAreCanonical(version: string)
    ensures Canonical(Key(version))
  {
    RunsAreProper(Lower(Strip(version)));
  }

  /** On version strings: antisymmetric, and equality agrees with the hashed key. */
  lemma CompareIsAntisymmetric(left: string, right: string)
    ensures Order(Key(left), Key(right)) == -Order(Key(right), Key(left))
    ensures Order(Key(left), Key(right)) == 0 <==> Key(left) == Key(right)
  {
    KeysAreCanonical(left);
    KeysAreCanonical(right);
    OrderMirrors(Key(left), Key(right));
    OrderZeroIffIdentical(Key(left), Key(right));
  }

  // ---------- where it is transitive ----------

  predicate IsLow(t: Token) {
    t.Qualifier? && Rank(t.text) < RELEASE_RANK
  }

  predicate IsHigh(t: Token) {
    t.Qualifier? && Rank(t.text) >= RELEASE_RANK
  }

  /** Zeros, then a qualifier below the release. */
  predicate LeadsLow(s: seq<Token>) {
    s != [] && (IsLow(s[0]) || (s[0] == Number(0) && LeadsLow(s[1..])))
  }

  /**
    The circle x < h < z < x: all three agree up to position `i` (x with zeros for missing
    tokens), where x has ended, h has a qualifier at or above the release, and z has a zero that
    further zeros and then a qualifier below the release follow.
  */
  ghost predicate ClashAt(x: seq<Token>, h: seq<Token>, z: seq<Token>, i: nat) {
    && |x| <= i < |h| && i < |z|
    && x <= h && (forall k :: |x| <= k < i ==> h[k] == Number(0))
    && h[..i] == z[..i]
    && IsHigh(h[i])
    && z[i] == Number(0) && LeadsLow(z[i + 1..])
  }

  ghost predicate Clash(x: seq<Token>, h: seq<Token>, z: seq<Token>) {
    exists i :: ClashAt(x, h, z, i)
  }

  lemma {:induction false} LeadsLowIsBelow(s: seq<Token>)
    requires Canonical(s)
    ensures Order(s, []) < 0 <==> LeadsLow(s)
    decreases |s|
  {
    if s != [] {
      TokensOrder(s[0], NullLike(s[0]), s[0]);
      if s[0] == Number(0) {
        LeadsLowIsBelow(s[1..]);
      } else if s[0].Qualifier? {
        HighIsAbove(s[0]);
      }
    }
  }

  lemma HighIsAbove(t: Token)
    requires t.Qualifier? && Proper(t)
    ensures CompareTokens(NullLike(t), t) < 0 <==> IsHigh(t)
    ensures CompareTokens(t, NullLike(t)) < 0 <==> IsLow(t)
  {
    TokensOrder(t, NullLike(t), t);
  }

  lemma ClashMovesForward(x: seq<Token>, h: seq<Token>, z: seq<Token>)
    requires h != [] && z != [] && h[0] == z[0] && h[0] == (if x == [] then Number(0) else x[0])
    requires Clash(Rest(x), h[1..], z[1..])
    ensures Clash(x, h, z)
  {
    var i: nat :| ClashAt(Rest(x), h[1..], z[1..], i);
    assert h[..i + 1] == [h[0]] + h[1..][..i] && z[..i + 1] == [z[0]] + z[1..][..i];
    assert z[i + 2..] == z[1..][i + 1..];
    if x != [] {
      assert x == [x[0]] + x[1..];
    }
    assert ClashAt(x, h, z, i + 1);
  }

  /** With x at its end, a circle is a clash. */
  lemma {:induction false} CircleFromEnded(h: seq<Token>, z: seq<Token>)
    requires Canonical(h) && Canonical(z)
    requires Order([], h) < 0 && Order(h, z) < 0 && Order(z, []) < 0
    ensures Clash([], h, z)
    decreases |h| + |z|
  {
    TokensOrder(h[0], z[0], z[0]);
    if h[0].Number? {
      assert h[0] == Number(0) && z[0] == Number(0);
      CircleFromEnded(h[1..], z[1..]);
      ClashMovesForward([], h, z);
    } else {
      HighIsAbove(h[0]);
      TokensOrder(NullLike(h[0]), h[0], z[0]);
      if z[0].Qualifier? {
        HighIsAbove(z[0]);
        TokensOrder(h[0], z[0], NullLike(z[0]));
        assert false;
      }
      LeadsLowIsBelow(z);
      assert ClashAt([], h, z, 0);
    }
  }

  lemma {:induction false} CircleIsClash(a: seq<Token>, b: seq<Token>, c: seq<Token>)
    requires Canonical(a) && Canonical(b) && Canonical(c)
    requires Order(a, b) < 0 && Order(b, c) < 0 && Order(c, a) < 0
    ensures Clash(a, b, c) || Clash(b, c, a) || Clash(c, a, b)
    decreases |a| + |b| + |c|
  {
    if a == [] {
      CircleFromEnded(b, c);
    } else if b == [] {
      CircleFromEnded(c, a);
    } else if c == [] {
      CircleFromEnded(a, b);
    } else {
      TokensOrder(a[0], b[0], c[0]);
      TokensOrder(b[0], c[0], a[0]);
      TokensOrder(c[0], a[0], b[0]);
      assert a[0] == b[0] == c[0];
      CircleIsClash(a[1..], b[1..], c[1..]);
      if Clash(a[1..], b[1..], c[1..]) {
        ClashMovesForward(a, b, c);
      } else if Clash(b[1..], c[1..], a[1..]) {
        ClashMovesForward(b, c, a);
      } else {
        ClashMovesForward(c, a, b);
      }
    }
  }

  lemma {:induction false} ClashIsCircle(x: seq<Token>, h: seq<Token>, z: seq<Token>, i: nat)
    requires Canonical(x) && Canonical(h) && Canonical(z)
    requires ClashAt(x, h, z, i)
    ensures Order(x, h) < 0 && Order(h, z) < 0 && Order(z, x) < 0
    decreases i
  {
    if i == 0 {
      HighIsAbove(h[0]);
      LeadsLowIsBelow(z);
    } else {
      assert h[0] == h[..i][0] == z[..i][0] == z[0];
      assert h[1..][..i - 1] == h[..i][1..] && z[1..][..i - 1] == z[..i][1..];
      assert z[1..][i..] == z[i + 1..];
      assert ClashAt(Rest(x), h[1..], z[1..], i - 1);
      ClashIsCircle(Rest(x), h[1..], z[1..], i - 1);
      TokensOrder(h[0], h[0], h[0]);
      if x != [] {
        assert x[0] == h[0];
      }
    }
  }

  /** For a <= b <= c: a <= c holds exactly when the three do not clash. */
  lemma TransitiveIffNoClash(a: seq<Token>, b: seq<Token>, c: seq<Token>)
    requires Canonical(a) && Canonical(b) && Canonical(c)
    requires Order(a, b) <= 0 && Order(b, c) <= 0
    ensures Order(a, c) <= 0 <==> !Clash(a, b, c) && !Clash(b, c, a) && !Clash(c, a, b)
  {
    OrderZeroIffIdentical(a, b);
    OrderZeroIffIdentical(b, c);
    OrderMirrors(a, c);
    if Order(a, c) > 0 {
      CircleIsClash(a, b, c);
    }
    if Clash(a, b, c) {
      var i: nat :| ClashAt(a, b, c, i);
      ClashIsCircle(a, b, c, i);
    }
    if Clash(b, c, a) {
      var i: nat :| ClashAt(b, c, a, i);
      ClashIsCircle(b, c, a, i);
    }
    if Clash(c, a, b) {
      var i: nat :| ClashAt(c, a, b, i);
      ClashIsCircle(c, a, b, i);
    }
  }

  lemma {:induction false} WholeRun(s: string, p: char -> bool)
    requires All(s, p)
    ensures RunLength(s, p) == |s|
    decreases |s|
  {
    if s != "" {
      WholeRun(s[1..], p);
    }
  }

  lemma OneRun(s: string)
    requires s != "" && (All(s, IsDigit) || All(s, IsLetter))
    ensures Runs(s) == RunToken(s)
  {
    WholeRun(s, if IsDigit(s[0]) then IsDigit else IsLetter);
    assert FirstRun(s) == |s| && s[..|s|] == s && s[|s|..] == "";
  }

  predicate IsPlain(c: char) {
    !IsSpace(c) && LowerChar(c) == c
  }

  lemma PlainTokens(value: string)
    requires value != "" && All(value, IsPlain)
    ensures Tokens(value) == Runs(value)
  {
    StripDrops("", value, "");
    assert "" + value + "" == value;
    assert Lower(value) == value;
  }

  /** Two runs with a separator between them. */
  lemma TwoRuns(a: string, separator: char, b: string)
    requires !IsDigit(separator) && !IsLetter(separator) && b != "" && (All(b, IsDigit) || All(b, IsLetter))
    ensures Runs((a + [separator]) + b) == Runs(a) + RunToken(b)
  {
    SeparatorEndsRun(a, separator);
    assert (a + [separator])[|a + [separator]| - 1] == separator;
    RunsSplit(a + [separator], b);
    OneRun(b);
  }

  /** A plain text that is one run of digits or of letters. */
  predicate IsRun(s: string) {
    s != "" && All(s, IsPlain) && (All(s, IsDigit) || All(s, IsLetter))
  }

  lemma PlainJoins(a: string, separator: char, b: string)
    requires All(a, IsPlain) && All(b, IsPlain) && IsPlain(separator)
    ensures All(a + [separator] + b, IsPlain)
  {
  }

  lemma TokensOfTwoRuns(a: string, separator: char, b: string)
    requires a != "" && All(a, IsPlain) && IsRun(b)
    requires IsPlain(separator) && !IsDigit(separator) && !IsLetter(separator)
    ensures Tokens(a + [separator] + b) == Runs(a) + RunToken(b)
  {
    PlainJoins(a, separator, b);
    PlainTokens(a + [separator] + b);
    TwoRuns(a, separator, b);
  }

  lemma ThreeRuns(a: string, b: string, c: string)
    requires IsRun(a) && IsRun(b) && IsRun(c)
    ensures Tokens(a + ['.'] + b + ['-'] + c) == RunToken(a) + RunToken(b) + RunToken(c)
  {
    PlainJoins(a, '.', b);
    OneRun(a);
    TwoRuns(a, '.', b);
    TokensOfTwoRuns(a + ['.'] + b, '-', c);
  }

  lemma KeyOfNumber(one: string, n: nat)
    requires IsRun(one) && RunToken(one) == [Number(n)] && n > 0
    ensures Key(one) == [Number(n)]
  {
    PlainTokens(one);
    OneRun(one);
  }

  lemma KeyWithQualifier(one: string, high: string, n: nat)
    requires IsRun(one) && RunToken(one) == [Number(n)]
    requires IsRun(high) && RunToken(high) == [Qualifier(high)] && Rank(high) != RELEASE_RANK
    ensures Key(one + ['-'] + high) == [Number(n), Qualifier(high)]
  {
    OneRun(one);
    TokensOfTwoRuns(one, '-', high);
  }

  lemma KeyWithZero(one: string, zero: string, low: string, n: nat)
    requires IsRun(one) && RunToken(one) == [Number(n)]
    requires IsRun(zero) && RunToken(zero) == [Number(0)]
    requires IsRun(low) && RunToken(low) == [Qualifier(low)] && Rank(low) != RELEASE_RANK
    ensures Key(one + ['.'] + zero + ['-'] + low) == [Number(n), Number(0), Qualifier(low)]
  {
    ThreeRuns(one, zero, low);
  }

  lemma CircleOfTokens(n: nat, high: string, low: string)
    requires n > 0 && Proper(Qualifier(high)) && Proper(Qualifier(low))
    requires Rank(high) > RELEASE_RANK && Rank(low) < RELEASE_RANK
    ensures
      var x, h, z := [Number(n)], [Number(n), Qualifier(high)], [Number(n), Number(0), Qualifier(low)];
      Order(x, h) < 0 && Order(h, z) < 0 && Order(z, x) < 0
  {
    var x, h, z := [Number(n)], [Number(n), Qualifier(high)], [Number(n), Number(0), Qualifier(low)];
    assert z[2..] == [Qualifier(low)];
    assert ClashAt(x, h, z, 1);
    ClashIsCircle(x, h, z, 1);
  }

  lemma OneDigit(s: string)
    requires |s| == 1 && IsDigit(s[0])
    ensures All(s, IsDigit) && Text.Number(s) == DigitValue(s[0])
  {
    assert s[..0] == "" && Text.Number(s[..0]) == 0;
  }

  lemma DigitRuns(one: string, zero: string)
    requires one == "1" && zero == "0"
    ensures IsRun(one) && IsRun(zero) && RunToken(one) == [Number(1)] && RunToken(zero) == [Number(0)]
  {
    OneDigit(one);
    OneDigit(zero);
  }

  lemma QualifierRuns(high: string, low: string)
    requires high == "sp" && low == "alpha"
    ensures IsRun(high) && RunToken(high) == [Qualifier(high)] && Rank(high) > RELEASE_RANK
    ensures IsRun(low) && RunToken(low) == [Qualifier(low)] && Rank(low) < RELEASE_RANK
  {
  }

  lemma LiteralRuns(a: string, b: string, c: string) returns (one: string, zero: string, high: string, low: string)
    requires a == "1" && b == "1-sp" && c == "1.0-alpha"
    ensures one == "1" && zero == "0" && high == "sp" && low == "alpha"
    ensures a == one && b == one + ['-'] + high && c == one + ['.'] + zero + ['-'] + low
  {
    one, zero, high, low := "1", "0", "sp", "alpha";
  }

  lemma CircleOfTexts(a: string, b: string, c: string)
    requires a == "1" && b == "1-sp" && c == "1.0-alpha"
    ensures Order(Key(a), Key(b)) < 0 && Order(Key(b), Key(c)) < 0 && Order(Key(c), Key(a)) < 0
  {
    var one, zero, high, low := LiteralRuns(a, b, c);
    DigitRuns(one, zero);
    QualifierRuns(high, low);
    KeyOfNumber(one, 1);
    KeyWithQualifier(one, high, 1);
    KeyWithZero(one, zero, low, 1);
    CircleOfTokens(1, high, low);
  }

  /** A real circle of version texts: 1 < 1-sp < 1.0-alpha < 1. */
  lemma OrderIsNotTransitive()
    ensures Order(Key("1"), Key("1-sp")) < 0
    ensures Order(Key("1-sp"), Key("1.0-alpha")) < 0
    ensures Order(Key("1.0-alpha"), Key("1")) < 0
  {
    CircleOfTexts("1", "1-sp", "1.0-alpha");
  }

  // ---------- qualifiers below the release ----------

  predicate AllLow(s: seq<Token>) {
    forall i :: 0 <= i < |s| && s[i].Qualifier? ==> IsLow(s[i])
  }

  /** Both lists followed by zeros forever, qualifiers below numbers. */
  function ZeroPaddedOrder(a: seq<Token>, b: seq<Token>): int
    decreases |a| + |b|
  {
    if a == [] && b == [] then 0
    else
      var x := if a != [] then a[0] else Number(0);
      var y := if b != [] then b[0] else Number(0);
      if CompareTokens(x, y) != 0 then CompareTokens(x, y) else ZeroPaddedOrder(Rest(a), Rest(b))
  }

  lemma {:induction false} LowOrderIsZeroPadded(a: seq<Token>, b: seq<Token>)
    requires AllLow(a) && AllLow(b)
    ensures Order(a, b) == ZeroPaddedOrder(a, b)
    decreases |a| + |b|
  {
    if a != [] || b != [] {
      LowOrderIsZeroPadded(Rest(a), Rest(b));
    }
  }

  /** With every qualifier below the release the order is transitive. */
  lemma LowOrderIsTransitive(a: seq<Token>, b: seq<Token>, c: seq<Token>)
    requires Canonical(a) && Canonical(b) && Canonical(c)
    requires AllLow(a) && AllLow(b) && AllLow(c)
    requires Order(a, b) <= 0 && Order(b, c) <= 0
    ensures Order(a, c) <= 0
  {
    TransitiveIffNoClash(a, b, c);
  }
}
