/**
  Reading and printing SemVer versions (app/core/versions.py, `SemVer.parse`, `SemVer.__str__`).

  `Shaped` spells out the grammar of the parser's regular expression as a decomposition of the
  text. The parser is proved to accept exactly the texts with such a decomposition, and printing
  followed by parsing is proved to lose nothing the parser read.
*/
module SemVerText {
  import opened Prelude
  import opened Text
  import opened SemVer

  /** A character of a prerelease or build tag. */
  predicate IsTag(c: char) {
    IsDigit(c) || IsLetter(c) || c == '.' || c == '-'
  }

  // ---------- the grammar ----------

  datatype Pieces = Pieces(
    lead: string,
    prefix: string,
    release: seq<string>,
    prerelease: Option<string>,
    build: Option<string>,
    trail: string)

  predicate IsTagText(tag: Option<string>) {
    tag.Some? ==> tag.value != "" && All(tag.value, IsTag)
  }

  predicate AreNumbers(parts: seq<string>) {
    forall i :: 0 <= i < |parts| ==> parts[i] != "" && All(parts[i], IsDigit)
  }

  predicate IsReleaseText(release: seq<string>) {
    release != [] && AreNumbers(release)
  }

  predicate Shaped(p: Pieces) {
    && All(p.lead, IsSpace) && All(p.trail, IsSpace)
    && (p.prefix == "" || p.prefix == "v")
    && IsReleaseText(p.release) && IsTagText(p.prerelease) && IsTagText(p.build)
  }

  /** A tag with its introducing character, or nothing. */
  function Tagged(mark: char, tag: Option<string>): string {
    match tag
    case None => ""
    case Some(t) => [mark] + t
  }

  function Body(p: Pieces): string {
    Join(p.release, '.') + Tagged('-', p.prerelease) + Tagged('+', p.build)
  }

  function Written(p: Pieces): string {
    p.lead + (p.prefix + Body(p)) + p.trail
  }

  /** What the pieces mean: missing numbers are zero, components after the third are extra. */
  function Meaning(p: Pieces): SemVer
    requires Shaped(p)
  {
    ReadParts(p.release, p.prerelease, p.build)
  }

  function ReadParts(release: seq<string>, prerelease: Option<string>, build: Option<string>): SemVer
    requires IsReleaseText(release)
  {
    var numbers := Numbers(release);
    SemVer(
      numbers[0],
      if |numbers| > 1 then numbers[1] else 0,
      if |numbers| > 2 then numbers[2] else 0,
      if |numbers| > 3 then numbers[3..] else [],
      match prerelease case None => [] case Some(t) => Identifiers(Split(t, '.')),
      build)
  }

  function Numbers(parts: seq<string>): (r: seq<nat>)
    requires AreNumbers(parts)
    ensures |r| == |parts|
  {
    if parts == [] then []
    else [Number(parts[0])] + Numbers(parts[1..])
  }

  function ReadIdentifier(s: string): Identifier {
    if s != "" && All(s, IsDigit) then Numeric(Number(s)) else Alphanumeric(s)
  }

  function Identifiers(parts: seq<string>): (r: seq<Identifier>)
    ensures |r| == |parts|
  {
    if parts == [] then [] else [ReadIdentifier(parts[0])] + Identifiers(parts[1..])
  }

  /** A part of a release is digits; a tag is digits, letters, dots and hyphens. */
  lemma PartsAndTags(part: string, tag: string)
    ensures IsReleaseText([part]) <==> part != "" && forall i :: 0 <= i < |part| ==> part[i] in "0123456789"
    ensures IsTagText(Some(tag)) <==> tag != "" && forall i :: 0 <= i < |tag| ==>
      tag[i] in "0123456789" || tag[i] in SMALL || tag[i] in CAPITAL || tag[i] in ".-"
  {
    assert [part][0] == part;
    assert IsReleaseText([part]) <==> part != "" && All(part, IsDigit);
    forall i | 0 <= i < |part| ensures IsDigit(part[i]) <==> part[i] in "0123456789" {
      DigitsAre(part[i]);
    }
    forall c: char ensures IsTag(c) <==> c in "0123456789" || c in SMALL || c in CAPITAL || c in ".-" {
      DigitsAre(c);
      LettersAre(c);
    }
  }

  // ---------- the parser ----------

  /** The text before the first `mark`, and what follows it. */
  function CutAt(s: string, mark: char): (string, Option<string>) {
    if mark in s then (s[..IndexOf(s, mark)], Some(s[IndexOf(s, mark) + 1..])) else (s, None)
  }

  function WithoutV(core: string): string {
    if StartsWith(core, "v") then core[1..] else core
  }

  function Parse(raw: string): Option<SemVer> {
    ParseBody(WithoutV(Strip(raw)))
  }

  function ParseBody(body: string): Option<SemVer> {
    var (main, build) := CutAt(body, '+');
    var (release, prerelease) := CutAt(main, '-');
    var parts := Split(release, '.');
    if IsReleaseText(parts) && IsTagText(prerelease) && IsTagText(build)
    then Some(ReadParts(parts, prerelease, build))
    else None
  }

  lemma CutAfter(before: string, mark: char, tag: Option<string>)
    requires mark !in before
    ensures CutAt(before + Tagged(mark, tag), mark) == (before, tag)
  {
    match tag
    case None =>
      assert before + Tagged(mark, tag) == before;
    case Some(t) =>
      assert before + Tagged(mark, tag) == before + [mark] + t;
      IndexOfFirst(before, mark, t);
      assert (before + [mark] + t)[..|before|] == before;
      assert (before + [mark] + t)[|before| + 1..] == t;
  }

  lemma CutRejoins(s: string, mark: char)
    ensures CutAt(s, mark).0 + Tagged(mark, CutAt(s, mark).1) == s
    ensures mark !in CutAt(s, mark).0
  {
    if mark in s {
      var i := IndexOf(s, mark);
      assert s == s[..i] + ([mark] + s[i + 1..]);
    }
  }

  predicate IsReleaseChar(c: char) {
    IsDigit(c) || c == '.'
  }

  lemma {:induction false} ReleaseTextCharacters(release: seq<string>)
    requires IsReleaseText(release)
    ensures All(Join(release, '.'), IsReleaseChar)
    ensures Join(release, '.') != "" && IsDigit(Join(release, '.')[0])
    ensures IsDigit(Join(release, '.')[|Join(release, '.')| - 1])
    decreases |release|
  {
    assert All(release[0], IsReleaseChar);
    if |release| > 1 {
      ReleaseTextCharacters(release[1..]);
    }
  }

  /** The body of a decomposition is cut back into its pieces. */
  lemma BodyReadsBack(p: Pieces)
    requires Shaped(p)
    ensures ParseBody(Body(p)) == Some(Meaning(p))
  {
    var release := Join(p.release, '.');
    var main := release + Tagged('-', p.prerelease);
    ReleaseTextCharacters(p.release);
    AllExcludes(release, IsReleaseChar, '-');
    assert All(main, c => c != '+');
    AllExcludes(main, c => c != '+', '+');
    CutAfter(main, '+', p.build);
    CutAfter(release, '-', p.prerelease);
    forall q | q in p.release ensures '.' !in q {
      AllExcludes(q, IsDigit, '.');
    }
    SplitJoin(p.release, '.');
  }

  /** The text between the outer spaces starts with `v` or a digit and ends in no space. */
  lemma CoreEnds(p: Pieces)
    requires Shaped(p)
    ensures var core := p.prefix + Body(p);
      core != "" && !IsSpace(core[0]) && !IsSpace(core[|core| - 1]) && WithoutV(core) == Body(p)
  {
    ReleaseTextCharacters(p.release);
    var body := Body(p);
    assert IsDigit(body[0]);
    BodyEnd(p);
    if p.prefix == "" {
      assert p.prefix + body == body;
    } else {
      assert (p.prefix + body)[1..] == body;
    }
  }

  lemma BodyEnd(p: Pieces)
    requires Shaped(p)
    ensures Body(p) != "" && !IsSpace(Body(p)[|Body(p)| - 1])
  {
    ReleaseTextCharacters(p.release);
    if p.build.Some? {
      assert Body(p)[|Body(p)| - 1] == p.build.value[|p.build.value| - 1];
    } else if p.prerelease.Some? {
      assert Body(p)[|Body(p)| - 1] == p.prerelease.value[|p.prerelease.value| - 1];
    }
  }

  /** Every text with a decomposition is accepted and read as the decomposition says. */
  lemma ParseIsComplete(p: Pieces)
    requires Shaped(p)
    ensures Parse(Written(p)) == Some(Meaning(p))
  {
    CoreEnds(p);
    StripDrops(p.lead, p.prefix + Body(p), p.trail);
    BodyReadsBack(p);
  }

  lemma BodyIsPieces(body: string, lead: string, prefix: string, trail: string) returns (p: Pieces)
    requires ParseBody(body).Some?
    requires All(lead, IsSpace) && All(trail, IsSpace) && (prefix == "" || prefix == "v")
    ensures Shaped(p) && Body(p) == body && ParseBody(body) == Some(Meaning(p))
    ensures p.lead == lead && p.prefix == prefix && p.trail == trail
  {
    var (main, build) := CutAt(body, '+');
    var (release, prerelease) := CutAt(main, '-');
    CutRejoins(body, '+');
    CutRejoins(main, '-');
    JoinSplit(release, '.');
    p := Pieces(lead, prefix, Split(release, '.'), prerelease, build, trail);
  }

  lemma WithoutVKeeps(core: string)
    ensures core == (if StartsWith(core, "v") then "v" else "") + WithoutV(core)
  {
  }

  /** Only texts with a decomposition are accepted. */
  lemma ParseIsSound(raw: string) returns (p: Pieces)
    requires Parse(raw).Some?
    ensures Shaped(p) && Written(p) == raw && Parse(raw) == Some(Meaning(p))
  {
    var lead, trail := StripKeeps(raw);
    var core := Strip(raw);
    var prefix := if StartsWith(core, "v") then "v" else "";
    WithoutVKeeps(core);
    p := BodyIsPieces(WithoutV(core), lead, prefix, trail);
  }

  /** The parser accepts exactly the texts of the grammar. */
  lemma ParseAcceptsExactly(raw: string)
    ensures Parse(raw).Some? <==> exists p :: Shaped(p) && Written(p) == raw
  {
    if Parse(raw).Some? {
      var p := ParseIsSound(raw);
    }
    if exists p :: Shaped(p) && Written(p) == raw {
      var p :| Shaped(p) && Written(p) == raw;
      ParseIsComplete(p);
    }
  }

  // ---------- printing ----------

  function PrintIdentifier(x: Identifier): string {
    match x
    case Numeric(n) => Decimal(n)
    case Alphanumeric(s) => s
  }

  function PrintIdentifiers(xs: seq<Identifier>): (r: seq<string>)
    ensures |r| == |xs|
  {
    if xs == [] then [] else [PrintIdentifier(xs[0])] + PrintIdentifiers(xs[1..])
  }

  function Decimals(ns: seq<nat>): (r: seq<string>)
    ensures |r| == |ns|
    ensures AreNumbers(r)
  {
    if ns == [] then [] else [Decimal(ns[0])] + Decimals(ns[1..])
  }

  function PrintRelease(v: SemVer): string {
    var base := Decimal(v.major) + "." + Decimal(v.minor) + "." + Decimal(v.patch);
    if v.extra != [] then base + "." + Join(Decimals(v.extra), '.') else base
  }

  function Print(v: SemVer): string {
    var withPrerelease :=
      if v.prerelease != [] then PrintRelease(v) + "-" + Join(PrintIdentifiers(v.prerelease), '.') else PrintRelease(v);
    if v.build.Some? && v.build.value != "" then withPrerelease + "+" + v.build.value else withPrerelease
  }

  // ---------- the round trip ----------

  lemma {:induction false} NumbersOfDecimals(ns: seq<nat>)
    ensures Numbers(Decimals(ns)) == ns
    decreases |ns|
  {
    if ns != [] {
      var d := Decimals(ns);
      NumberOfDecimal(ns[0]);
      NumbersOfDecimals(ns[1..]);
      assert d[0] == Decimal(ns[0]) && d[1..] == Decimals(ns[1..]);
      assert Numbers(d) == [Number(d[0])] + Numbers(d[1..]);
      assert ns == [ns[0]] + ns[1..];
    }
  }

  /** An identifier as the parser makes them: numbers are never kept as text. */
  predicate Readable(x: Identifier) {
    x.Alphanumeric? ==> !(x.s != "" && All(x.s, IsDigit)) && '.' !in x.s && All(x.s, IsTag)
  }

  predicate AllReadable(xs: seq<Identifier>) {
    forall i :: 0 <= i < |xs| ==> Readable(xs[i])
  }

  predicate AreTags(parts: seq<string>) {
    forall i :: 0 <= i < |parts| ==> '.' !in parts[i] && All(parts[i], IsTag)
  }

  lemma IdentifierReadsBack(x: Identifier)
    requires Readable(x)
    ensures ReadIdentifier(PrintIdentifier(x)) == x
    ensures '.' !in PrintIdentifier(x) && All(PrintIdentifier(x), IsTag)
  {
    if x.Numeric? {
      NumberOfDecimal(x.n);
      AllExcludes(Decimal(x.n), IsDigit, '.');
    }
  }

  lemma {:induction false} IdentifiersReadBack(xs: seq<Identifier>)
    requires AllReadable(xs)
    ensures Identifiers(PrintIdentifiers(xs)) == xs
    ensures AreTags(PrintIdentifiers(xs))
    decreases |xs|
  {
    if xs != [] {
      IdentifierReadsBack(xs[0]);
      IdentifiersReadBack(xs[1..]);
      assert PrintIdentifiers(xs)[1..] == PrintIdentifiers(xs[1..]);
      assert xs == [xs[0]] + xs[1..];
    }
  }

  lemma {:induction false} IdentifiersAreReadable(parts: seq<string>)
    requires AreTags(parts)
    ensures AllReadable(Identifiers(parts))
    decreases |parts|
  {
    if parts != [] {
      IdentifiersAreReadable(parts[1..]);
    }
  }

  lemma {:induction false} SplitAll(s: string, c: char, p: char -> bool)
    requires All(s, p)
    ensures forall q :: q in Split(s, c) ==> All(q, p)
    decreases |s|
  {
    if c in s {
      SplitAll(s[IndexOf(s, c) + 1..], c, p);
    }
  }

  /** What every parsed version satisfies, and all that printing needs to be undone by parsing. */
  predicate Printable(v: SemVer) {
    && AllReadable(v.prerelease)
    && (v.prerelease != [] ==> Join(PrintIdentifiers(v.prerelease), '.') != "")
    && IsTagText(v.build)
  }

  lemma {:induction false} IdentifiersPrintNonEmpty(parts: seq<string>)
    requires parts != [] && Join(parts, '.') != ""
    ensures Join(PrintIdentifiers(Identifiers(parts)), '.') != ""
  {
    if |parts| == 1 {
      assert Identifiers(parts) == [ReadIdentifier(parts[0])];
    } else {
      assert |Identifiers(parts)| > 1;
    }
  }

  lemma ParsedIsPrintable(raw: string)
    requires Parse(raw).Some?
    ensures Printable(Parse(raw).value)
  {
    var p := ParseIsSound(raw);
    if p.prerelease.Some? {
      var t := p.prerelease.value;
      SplitAll(t, '.', IsTag);
      IdentifiersAreReadable(Split(t, '.'));
      JoinSplit(t, '.');
      IdentifiersPrintNonEmpty(Split(t, '.'));
    }
  }

  /** The pieces a printed version is made of. */
  function PrintedPieces(v: SemVer): Pieces {
    Pieces(
      "", "",
      Decimals(ReleaseKey(v)),
      if v.prerelease == [] then None else Some(Join(PrintIdentifiers(v.prerelease), '.')),
      v.build,
      "")
  }

  lemma AppendTag(text: string, mark: char, tag: Option<string>)
    ensures text + Tagged(mark, tag) == if tag.Some? then text + [mark] + tag.value else text
  {
  }

  lemma NothingAround(text: string)
    ensures "" + ("" + text) + "" == text
  {
  }

  lemma PrintIsWritten(v: SemVer)
    requires Printable(v)
    ensures Shaped(PrintedPieces(v)) && Written(PrintedPieces(v)) == Print(v)
  {
    var p := PrintedPieces(v);
    IdentifiersReadBack(v.prerelease);
    JoinAll(PrintIdentifiers(v.prerelease), '.', IsTag);
    PrintedRelease(v);
    AppendTag(PrintRelease(v), '-', p.prerelease);
    AppendTag(PrintRelease(v) + Tagged('-', p.prerelease), '+', p.build);
    NothingAround(Body(p));
  }

  lemma JoinFirst(n: nat, ns: seq<nat>)
    requires ns != []
    ensures Join(Decimals([n] + ns), '.') == Decimal(n) + "." + Join(Decimals(ns), '.')
  {
    assert ([n] + ns)[1..] == ns;
    assert Decimals([n] + ns)[1..] == Decimals(ns);
  }

  lemma PrintedRelease(v: SemVer)
    ensures Join(Decimals(ReleaseKey(v)), '.') == PrintRelease(v)
  {
    var afterMinor := [v.patch] + v.extra;
    assert ReleaseKey(v) == [v.major] + ([v.minor] + afterMinor);
    JoinFirst(v.major, [v.minor] + afterMinor);
    JoinFirst(v.minor, afterMinor);
    if v.extra != [] {
      JoinFirst(v.patch, v.extra);
    } else {
      assert afterMinor == [v.patch];
      assert Decimals([v.patch]) == [Decimal(v.patch)];
    }
  }

  lemma PrintedReadsBack(v: SemVer)
    requires Printable(v)
    ensures Parse(Print(v)) == Some(v)
  {
    var p := PrintedPieces(v);
    PrintIsWritten(v);
    ParseIsComplete(p);
    NumbersOfDecimals(ReleaseKey(v));
    assert ReleaseKey(v)[3..] == v.extra;
    if v.prerelease != [] {
      IdentifiersReadBack(v.prerelease);
      SplitJoin(PrintIdentifiers(v.prerelease), '.');
    }
  }

  function PlainRelease(numbers: seq<nat>): SemVer
    requires |numbers| >= 3
  {
    SemVer(numbers[0], numbers[1], numbers[2], numbers[3..], [], None)
  }

  lemma PlainKey(numbers: seq<nat>)
    requires |numbers| >= 3
    ensures ReleaseKey(PlainRelease(numbers)) == numbers
  {
  }

  lemma UntaggedPrints(v: SemVer)
    requires v.prerelease == [] && v.build.None?
    ensures Printable(v) && Print(v) == PrintRelease(v)
  {
  }

  lemma PlainPrints(numbers: seq<nat>)
    requires |numbers| >= 3
    ensures Printable(PlainRelease(numbers)) && Print(PlainRelease(numbers)) == Join(Decimals(numbers), '.')
  {
    PlainKey(numbers);
    UntaggedPrints(PlainRelease(numbers));
    PrintedRelease(PlainRelease(numbers));
  }

  /** Three or more plain numbers are read as themselves. */
  lemma PlainReleaseReads(numbers: seq<nat>)
    requires |numbers| >= 3
    ensures Parse(Join(Decimals(numbers), '.')) == Some(PlainRelease(numbers))
  {
    PlainPrints(numbers);
    PrintedReadsBack(PlainRelease(numbers));
  }

  /** Numbers left out are zero: 4 is 4.0.0 and 4.2 is 4.2.0. */
  lemma MissingNumbersAreZero(a: nat, b: nat)
    ensures Parse(Decimal(a)) == Some(SemVer(a, 0, 0, [], [], None))
    ensures Parse(Decimal(a) + "." + Decimal(b)) == Some(SemVer(a, b, 0, [], [], None))
  {
    ShortReleaseReads([a]);
    ShortReleaseReads([a, b]);
    assert Decimals([a]) == [Decimal(a)];
    JoinFirst(a, [b]);
    assert Decimals([b]) == [Decimal(b)] && [a] + [b] == [a, b];
  }

  lemma ShortReleaseReads(numbers: seq<nat>)
    requires 0 < |numbers| < 3
    ensures Parse(Join(Decimals(numbers), '.'))
         == Some(SemVer(numbers[0], if |numbers| > 1 then numbers[1] else 0, 0, [], [], None))
  {
    var p := Pieces("", "", Decimals(numbers), None, None, "");
    ParseIsComplete(p);
    NumbersOfDecimals(numbers);
    NothingAround(Body(p));
    assert Body(p) == Join(Decimals(numbers), '.');
  }

  /** For every text the parser accepts, printing and parsing again gives back every field. */
  lemma ParsePrintParse(raw: string)
    requires Parse(raw).Some?
    ensures Parse(Print(Parse(raw).value)) == Parse(raw)
  {
    ParsedIsPrintable(raw);
    PrintedReadsBack(Parse(raw).value);
  }

  /** Printing is injective on parsed versions: different fields print differently. */
  lemma PrintLosesNothing(raw: string, other: string)
    ensures Parse(raw).Some? && Parse(other).Some? && Print(Parse(raw).value) == Print(Parse(other).value) ==>
      Parse(raw) == Parse(other)
  {
    if Parse(raw).Some? && Parse(other).Some? {
      ParsePrintParse(raw);
      ParsePrintParse(other);
    }
  }
}
