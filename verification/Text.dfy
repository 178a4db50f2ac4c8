/** The string operations the program relies on, on ASCII text, and code-point order. */
module Text {
  // ---------- characters ----------

  predicate IsDigit(c: char) {
    '0' <= c <= '9'
  }

  predicate IsLetter(c: char) {
    'a' <= c <= 'z' || 'A' <= c <= 'Z'
  }

  predicate IsSpace(c: char) {
    c == ' ' || '\t' <= c <= '\r' || '\U{001c}' <= c <= '\U{001f}' || c == '\U{0085}' || c == '\U{00a0}'
  }

  function LowerChar(c: char): char {
    if 'A' <= c <= 'Z' then ((c as int) + 32) as char else c
  }

  function UpperChar(c: char): char {
    if 'a' <= c <= 'z' then ((c as int) - 32) as char else c
  }

  // ---------- strings ----------

  function Lower(s: string): (r: string)
    ensures |r| == |s| && forall i :: 0 <= i < |s| ==> r[i] == LowerChar(s[i])
  {
    if s == [] then [] else [LowerChar(s[0])] + Lower(s[1..])
  }

  function Upper(s: string): (r: string)
    ensures |r| == |s| && forall i :: 0 <= i < |s| ==> r[i] == UpperChar(s[i])
  {
    if s == [] then [] else [UpperChar(s[0])] + Upper(s[1..])
  }

  function StripLeft(s: string): string {
    if s != [] && IsSpace(s[0]) then StripLeft(s[1..]) else s
  }

  function StripRight(s: string): string {
    if s != [] && IsSpace(s[|s| - 1]) then StripRight(s[..|s| - 1]) else s
  }

  function Strip(s: string): string {
    StripRight(StripLeft(s))
  }

  predicate StartsWith(s: string, prefix: string) {
    prefix <= s
  }

  predicate All(s: string, p: char -> bool) {
    forall i :: 0 <= i < |s| ==> p(s[i])
  }

  lemma AllExcludes(s: string, p: char -> bool, c: char)
    requires All(s, p) && !p(c)
    ensures c !in s
  {
  }

  /** The characters of `s` that are not in `dropped`. */
  function Without(s: string, dropped: string): string {
    if s == [] then []
    else if s[0] in dropped then Without(s[1..], dropped)
    else [s[0]] + Without(s[1..], dropped)
  }

  // ---------- cutting and joining at a separator ----------

  function IndexOf(s: string, c: char): (i: nat)
    requires c in s
    ensures i < |s| && s[i] == c && c !in s[..i]
  {
    if s[0] == c then 0
    else
      var j := IndexOf(s[1..], c);
      assert s[..j + 1] == [s[0]] + s[1..][..j];
      j + 1
  }

  lemma {:induction false} IndexOfFirst(before: string, c: char, after: string)
    requires c !in before
    ensures c in before + [c] + after && IndexOf(before + [c] + after, c) == |before|
    decreases |before|
  {
    var s := before + [c] + after;
    assert s[|before|] == c;
    if before != [] {
      IndexOfFirst(before[1..], c, after);
      assert s[1..] == before[1..] + [c] + after;
      assert s[0] == before[0];
    }
  }

  function Split(s: string, c: char): (parts: seq<string>)
    ensures parts != [] && forall p :: p in parts ==> c !in p
  {
    if c !in s then [s]
    else [s[..IndexOf(s, c)]] + Split(s[IndexOf(s, c) + 1..], c)
  }

  function Join(parts: seq<string>, c: char): string {
    if parts == [] then []
    else if |parts| == 1 then parts[0]
    else parts[0] + [c] + Join(parts[1..], c)
  }

  lemma JoinPrepend(first: string, rest: seq<string>, c: char)
    requires rest != []
    ensures Join([first] + rest, c) == first + [c] + Join(rest, c)
  {
    assert ([first] + rest)[1..] == rest;
  }

  lemma {:induction false} JoinSplit(s: string, c: char)
    ensures Join(Split(s, c), c) == s
    decreases |s|
  {
    if c in s {
      var i := IndexOf(s, c);
      var before, after := s[..i], s[i + 1..];
      JoinSplit(after, c);
      assert Split(s, c) == [before] + Split(after, c);
      JoinPrepend(before, Split(after, c), c);
      assert s == before + [c] + after;
    }
  }

  lemma SplitAtFirst(before: string, c: char, after: string)
    requires c !in before
    ensures Split(before + [c] + after, c) == [before] + Split(after, c)
  {
    IndexOfFirst(before, c, after);
    var s := before + [c] + after;
    assert s[..|before|] == before && s[|before| + 1..] == after;
  }

  lemma {:induction false} SplitJoin(parts: seq<string>, c: char)
    requires parts != [] && forall p :: p in parts ==> c !in p
    ensures Split(Join(parts, c), c) == parts
    decreases |parts|
  {
    assert parts[0] in parts;
    if |parts| > 1 {
      forall q | q in parts[1..] ensures c !in q {
        assert q in parts;
      }
      SplitJoin(parts[1..], c);
      SplitAtFirst(parts[0], c, Join(parts[1..], c));
      assert parts == [parts[0]] + parts[1..];
    }
  }

  lemma {:induction false} JoinAll(parts: seq<string>, c: char, p: char -> bool)
    requires forall q :: q in parts ==> All(q, p)
    requires p(c)
    ensures All(Join(parts, c), p)
    decreases |parts|
  {
    if |parts| == 1 {
      assert parts[0] in parts;
    } else if |parts| > 1 {
      forall q | q in parts[1..] ensures All(q, p) {
        assert q in parts;
      }
      JoinAll(parts[1..], c, p);
      assert parts[0] in parts;
      assert All(parts[0], p);
    }
  }

  // ---------- decimal numbers ----------

  function DigitChar(n: nat): char
    requires n < 10
  {
    (n + 48) as char
  }

  function DigitValue(c: char): nat
    requires IsDigit(c)
  {
    c as int - 48
  }

  /** Python's `str` of a non-negative integer. */
  function Decimal(n: nat): (s: string)
    ensures s != [] && All(s, IsDigit)
  {
    if n < 10 then [DigitChar(n)] else Decimal(n / 10) + [DigitChar(n % 10)]
  }

  /** Python's `int` of a digit string; leading zeros are fine. */
  function Number(s: string): nat
    requires All(s, IsDigit)
  {
    if s == [] then 0 else 10 * Number(s[..|s| - 1]) + DigitValue(s[|s| - 1])
  }

  lemma {:induction false} NumberOfDecimal(n: nat)
    ensures Number(Decimal(n)) == n
  {
    if n >= 10 {
      NumberOfDecimal(n / 10);
      assert Decimal(n)[..|Decimal(n)| - 1] == Decimal(n / 10);
    }
  }

  // ---------- stripping ----------

  lemma {:induction false} StripLeftDrops(lead: string, core: string)
    requires All(lead, IsSpace) && (core == [] || !IsSpace(core[0]))
    ensures StripLeft(lead + core) == core
    decreases |lead|
  {
    if lead == [] {
      assert lead + core == core;
    } else {
      assert (lead + core)[1..] == lead[1..] + core;
      StripLeftDrops(lead[1..], core);
    }
  }

  lemma {:induction false} StripRightDrops(core: string, trail: string)
    requires All(trail, IsSpace) && (core == [] || !IsSpace(core[|core| - 1]))
    ensures StripRight(core + trail) == core
    decreases |trail|
  {
    if trail == [] {
      assert core + trail == core;
    } else {
      assert (core + trail)[..|core + trail| - 1] == core + trail[..|trail| - 1];
      StripRightDrops(core, trail[..|trail| - 1]);
    }
  }

  lemma StripDrops(lead: string, core: string, trail: string)
    requires All(lead, IsSpace) && All(trail, IsSpace)
    requires core != [] && !IsSpace(core[0]) && !IsSpace(core[|core| - 1])
    ensures Strip(lead + core + trail) == core
  {
    assert lead + core + trail == lead + (core + trail);
    StripLeftDrops(lead, core + trail);
    StripRightDrops(core, trail);
  }

  lemma {:induction false} StripLeftKeeps(s: string) returns (lead: string)
    ensures All(lead, IsSpace) && s == lead + StripLeft(s)
    decreases |s|
  {
    if s != [] && IsSpace(s[0]) {
      var rest := StripLeftKeeps(s[1..]);
      lead := [s[0]] + rest;
    } else {
      lead := [];
    }
  }

  lemma {:induction false} StripRightKeeps(s: string) returns (trail: string)
    ensures All(trail, IsSpace) && s == StripRight(s) + trail
    decreases |s|
  {
    if s != [] && IsSpace(s[|s| - 1]) {
      var rest := StripRightKeeps(s[..|s| - 1]);
      trail := rest + [s[|s| - 1]];
    } else {
      trail := [];
    }
  }

  lemma StripKeeps(s: string) returns (lead: string, trail: string)
    ensures All(lead, IsSpace) && All(trail, IsSpace) && s == lead + Strip(s) + trail
  {
    lead := StripLeftKeeps(s);
    trail := StripRightKeeps(StripLeft(s));
  }

  // ---------- code-point order ----------

  /** Python's ordering of strings: -1, 0 or 1. */
  function CompareText(a: string, b: string): int {
    if a == [] then (if b == [] then 0 else -1)
    else if b == [] then 1
    else if a[0] != b[0] then (if a[0] < b[0] then -1 else 1)
    else CompareText(a[1..], b[1..])
  }

  lemma {:induction false} CompareTextMirrors(a: string, b: string)
    ensures -1 <= CompareText(a, b) <= 1
    ensures CompareText(a, b) == -CompareText(b, a)
    ensures CompareText(a, b) == 0 <==> a == b
    decreases |a|
  {
    if a != [] && b != [] && a[0] == b[0] {
      CompareTextMirrors(a[1..], b[1..]);
      assert a == [a[0]] + a[1..] && b == [b[0]] + b[1..];
    }
  }

  lemma {:induction false} CompareTextChains(a: string, b: string, c: string)
    requires CompareText(a, b) <= 0 && CompareText(b, c) <= 0
    ensures CompareText(a, c) <= 0
    ensures CompareText(a, b) < 0 || CompareText(b, c) < 0 ==> CompareText(a, c) < 0
    decreases |a|
  {
    if a != [] && b != [] && c != [] && a[0] == b[0] == c[0] {
      CompareTextChains(a[1..], b[1..], c[1..]);
    }
  }

  /** `a` runs out first, or has the lower character at the first difference. */
  ghost predicate Before(a: string, b: string) {
    exists k: nat :: BeforeAt(a, b, k)
  }

  ghost predicate BeforeAt(a: string, b: string, k: nat) {
    k <= |a| && k < |b| && a[..k] == b[..k] && (k == |a| || a[k] < b[k])
  }

  lemma {:induction false} LowerIsBefore(a: string, b: string)
    requires CompareText(a, b) < 0
    ensures Before(a, b)
    decreases |a|
  {
    if a == [] || a[0] != b[0] {
      assert BeforeAt(a, b, 0);
    } else {
      LowerIsBefore(a[1..], b[1..]);
      var k: nat :| BeforeAt(a[1..], b[1..], k);
      assert a[..k + 1] == [a[0]] + a[1..][..k] && b[..k + 1] == [b[0]] + b[1..][..k];
      assert BeforeAt(a, b, k + 1);
    }
  }

  lemma {:induction false} BeforeIsLower(a: string, b: string, k: nat)
    requires BeforeAt(a, b, k)
    ensures CompareText(a, b) < 0
    decreases k
  {
    if k > 0 {
      assert a[0] == a[..k][0] && b[0] == b[..k][0];
      assert a[1..][..k - 1] == a[..k][1..] && b[1..][..k - 1] == b[..k][1..];
      BeforeIsLower(a[1..], b[1..], k - 1);
    }
  }

  /** Comparing texts is code-point order. */
  lemma CompareTextIff(a: string, b: string)
    ensures CompareText(a, b) < 0 <==> Before(a, b)
    ensures CompareText(a, b) > 0 <==> Before(b, a)
    ensures CompareText(a, b) == 0 <==> a == b
  {
    CompareTextMirrors(a, b);
    if CompareText(a, b) < 0 {
      LowerIsBefore(a, b);
    }
    if CompareText(a, b) > 0 {
      LowerIsBefore(b, a);
    }
    if k: nat :| BeforeAt(a, b, k) {
      BeforeIsLower(a, b, k);
    }
    if k: nat :| BeforeAt(b, a, k) {
      BeforeIsLower(b, a, k);
    }
  }

  lemma UpperTwice(s: string)
    ensures Upper(Upper(s)) == Upper(s)
  {
  }

  const SMALL := "abcdefghijklmnopqrstuvwxyz"

  const CAPITAL := "ABCDEFGHIJKLMNOPQRSTUVWXYZ"

  /** Case is that of the alphabet, and other characters have none. */
  lemma CaseOfLetters(i: nat, c: char)
    requires i < 26
    ensures UpperChar(SMALL[i]) == CAPITAL[i] && LowerChar(CAPITAL[i]) == SMALL[i]
    ensures c !in SMALL ==> UpperChar(c) == c
    ensures c !in CAPITAL ==> LowerChar(c) == c
  {
    assert |SMALL| == 26 && |CAPITAL| == 26;
    assert forall k :: 0 <= k < 26 ==> SMALL[k] as int == 97 + k && CAPITAL[k] as int == 65 + k;
    if 'a' <= c <= 'z' {
      assert SMALL[c as int - 97] == c;
    }
    if 'A' <= c <= 'Z' {
      assert CAPITAL[c as int - 65] == c;
    }
  }

  lemma LettersAre(c: char)
    ensures IsLetter(c) <==> c in SMALL || c in CAPITAL
  {
    assert |SMALL| == 26 && |CAPITAL| == 26;
    assert forall k :: 0 <= k < 26 ==> SMALL[k] as int == 97 + k && CAPITAL[k] as int == 65 + k;
    if 'a' <= c <= 'z' {
      assert SMALL[c as int - 97] == c;
    }
    if 'A' <= c <= 'Z' {
      assert CAPITAL[c as int - 65] == c;
    }
  }

  lemma DigitsAre(c: char)
    ensures IsDigit(c) <==> c in "0123456789"
  {
    var digits := "0123456789";
    assert forall k :: 0 <= k < 10 ==> digits[k] as int == 48 + k;
    if '0' <= c <= '9' {
      assert digits[c as int - 48] == c;
    }
  }

  /** Blanks, tabs and line ends are white space; digits, letters and ASCII marks are not. */
  lemma WhiteSpace(c: char)
    ensures c in " \t\n\r" ==> IsSpace(c)
    ensures '!' <= c <= '~' ==> !IsSpace(c)
  {
    assert c in " \t\n\r" ==> c == ' ' || c == '\t' || c == '\n' || c == '\r';
  }
}
