/**
  Version schemes, affected ranges and the recommended fix (app/core/versions.py, `normalize`,
  `compare`, `in_range`, `version_matches`, `first_fixed_version`).
*/
module Versions {
  import opened Prelude
  import opened Domain
  import Text
  import SemVer
  import SemVerText
  import Maven

  /**
    How one ecosystem reads and compares version texts. `compare` is `None` where the program
    raises `InvalidVersion`.
  */
  datatype Scheme = Scheme(
    parses: string -> bool,
    compare: (string, string) -> Option<int>,
    normalize: string -> string)

  /** PEP 440 versions, read and compared by a library that is not part of this model. */
  datatype Pep440 = Pep440(valid: string -> bool, compare: (string, string) -> int)

  // ---------- the ecosystems ----------

  function RemovePrefix(s: string, prefix: string): string {
    if prefix <= s then s[|prefix|..] else s
  }

  function RemoveSuffix(s: string, suffix: string): string {
    if |suffix| <= |s| && s[|s| - |suffix|..] == suffix then s[..|s| - |suffix|] else s
  }

  function Normalize(e: Ecosystem, raw: string): string {
    var value := Text.Strip(raw);
    match e
    case Go => RemoveSuffix(RemovePrefix(value, "v"), "+incompatible")
    case Npm => RemovePrefix(value, "v")
    case _ => value
  }

  /** Surrounding space goes in every ecosystem. */
  lemma SpaceIsStripped(e: Ecosystem, lead: string, core: string, trail: string)
    requires Text.All(lead, Text.IsSpace) && Text.All(trail, Text.IsSpace)
    requires core != "" && !Text.IsSpace(core[0]) && !Text.IsSpace(core[|core| - 1])
    ensures Normalize(e, lead + core + trail) == Normalize(e, core)
  {
    Text.StripDrops(lead, core, trail);
    Text.StripDrops("", core, "");
    assert "" + core + "" == core;
  }

  /** A version text without spaces at its ends, without a leading `v` and without Go's suffix. */
  predicate IsBare(core: string) {
    && core != "" && !Text.IsSpace(core[0]) && !Text.IsSpace(core[|core| - 1])
    && core[0] != 'v' && RemoveSuffix(core, "+incompatible") == core
  }

  lemma StripsToItself(core: string)
    requires core != "" && !Text.IsSpace(core[0]) && !Text.IsSpace(core[|core| - 1])
    ensures Text.Strip(core) == core
  {
    Text.StripDrops("", core, "");
    assert "" + core + "" == core;
  }

  /** The prefix `v` goes for Go and npm only, the suffix `+incompatible` for Go only. */
  lemma PrefixAndSuffixGo(e: Ecosystem, core: string)
    requires IsBare(core)
    ensures Normalize(e, core) == core
    ensures Normalize(e, "v" + core) == if e == Go || e == Npm then core else "v" + core
    ensures Normalize(e, core + "+incompatible") == if e == Go then core else core + "+incompatible"
    ensures Normalize(Go, "v" + core + "+incompatible") == core
  {
    var suffix := "+incompatible";
    StripsToItself(core);
    StripsToItself("v" + core);
    StripsToItself(core + suffix);
    StripsToItself("v" + core + suffix);
    assert ("v" + core)[1..] == core && ("v" + core + suffix)[1..] == core + suffix;
    assert (core + suffix)[|core|..] == suffix && (core + suffix)[..|core|] == core;
    assert (core + suffix)[0] == core[0];
  }

  function ReadSemVer(e: Ecosystem, raw: string): Option<SemVer.SemVer> {
    var value := Normalize(e, raw);
    if value == "" then None else SemVerText.Parse(value)
  }

  function Parses(e: Ecosystem, pep: Pep440, raw: string): bool {
    match e
    case PyPI => Normalize(e, raw) != "" && pep.valid(Normalize(e, raw))
    case Maven => Normalize(e, raw) != "" && Maven.Tokens(Normalize(e, raw)) != []
    case _ => ReadSemVer(e, raw).Some?
  }

  function CompareRead(x: Option<SemVer.SemVer>, y: Option<SemVer.SemVer>): Option<int> {
    if x.Some? && y.Some? then Some(SemVer.Compare(x.value, y.value)) else None
  }

  function Compare(e: Ecosystem, pep: Pep440, left: string, right: string): Option<int> {
    match e
    case Maven =>
      if Text.Strip(left) == "" || Text.Strip(right) == "" then None
      else Some(Maven.Order(Maven.Key(left), Maven.Key(right)))
    case PyPI =>
      if !Parses(e, pep, left) || !Parses(e, pep, right) then None
      else Some(pep.compare(Normalize(e, left), Normalize(e, right)))
    case _ => CompareRead(ReadSemVer(e, left), ReadSemVer(e, right))
  }

  function SchemeOf(e: Ecosystem, pep: Pep440): Scheme {
    Scheme(v => Parses(e, pep, v), (l, r) => Compare(e, pep, l, r), v => Normalize(e, v))
  }

  lemma StripTwice(s: string)
    ensures Text.Strip(Text.Strip(s)) == Text.Strip(s)
  {
    StripEnds(s);
    if Text.Strip(s) != "" {
      StripsToItself(Text.Strip(s));
    }
  }

  lemma {:induction false} StripRightEnds(s: string)
    ensures Text.StripRight(s) != "" ==> !Text.IsSpace(Text.StripRight(s)[|Text.StripRight(s)| - 1])
    ensures Text.StripRight(s) <= s
    decreases |s|
  {
    if s != "" && Text.IsSpace(s[|s| - 1]) {
      StripRightEnds(s[..|s| - 1]);
    }
  }

  lemma {:induction false} StripLeftEnds(s: string)
    ensures Text.StripLeft(s) != "" ==> !Text.IsSpace(Text.StripLeft(s)[0])
    decreases |s|
  {
    if s != "" && Text.IsSpace(s[0]) {
      StripLeftEnds(s[1..]);
    }
  }

  lemma StripEnds(s: string)
    ensures
      var core := Text.Strip(s);
      core != "" ==> !Text.IsSpace(core[0]) && !Text.IsSpace(core[|core| - 1])
  {
    StripLeftEnds(s);
    StripRightEnds(Text.StripLeft(s));
  }

  /**
    What parses: for Maven anything with an ASCII letter or digit between its outer spaces, for PyPI
    what the library accepts, and elsewhere what SemVer parsing accepts, each after normalising.
  */
  lemma WhatParses(e: Ecosystem, pep: Pep440, raw: string)
    ensures e == Maven ==> (Parses(e, pep, raw) <==> exists c ::
      c in Text.Strip(raw) && (c in "0123456789" || c in Text.SMALL || c in Text.CAPITAL))
    ensures e == PyPI ==> (Parses(e, pep, raw) <==> Text.Strip(raw) != "" && pep.valid(Text.Strip(raw)))
    ensures e != Maven && e != PyPI ==>
      (Parses(e, pep, raw) <==> Normalize(e, raw) != "" && SemVerText.Parse(Normalize(e, raw)).Some?)
  {
    if e == Maven {
      StripTwice(raw);
      TokensIff(Text.Strip(raw));
    }
  }

  lemma TokensIff(core: string)
    requires Text.Strip(core) == core
    ensures Maven.Tokens(core) != [] <==>
      exists c :: c in core && (c in "0123456789" || c in Text.SMALL || c in Text.CAPITAL)
  {
    var lowered := Text.Lower(core);
    Maven.NoTokensIff(lowered);
    forall i | 0 <= i < |core|
      ensures Text.IsDigit(lowered[i]) || Text.IsLetter(lowered[i]) <==>
        core[i] in "0123456789" || core[i] in Text.SMALL || core[i] in Text.CAPITAL
    {
      LetterOrDigit(core[i]);
    }
    if c :| c in core && (c in "0123456789" || c in Text.SMALL || c in Text.CAPITAL) {
      var i :| 0 <= i < |core| && core[i] == c;
      assert Text.IsDigit(lowered[i]) || Text.IsLetter(lowered[i]);
    }
    if i :| 0 <= i < |lowered| && (Text.IsDigit(lowered[i]) || Text.IsLetter(lowered[i])) {
      assert core[i] in core;
    }
  }

  lemma LetterOrDigit(c: char)
    ensures Text.IsDigit(Text.LowerChar(c)) || Text.IsLetter(Text.LowerChar(c)) <==>
      c in "0123456789" || c in Text.SMALL || c in Text.CAPITAL
  {
    Text.CaseOfLetters(0, c);
    Text.LettersAre(c);
    Text.DigitsAre(c);
  }

  /** PyPI versions compare as the library compares what is left of them without outer spaces. */
  lemma PypiComparesAsLibrary(pep: Pep440, left: string, right: string)
    requires Parses(PyPI, pep, left) && Parses(PyPI, pep, right)
    ensures Compare(PyPI, pep, left, right) == Some(pep.compare(Text.Strip(left), Text.Strip(right)))
  {
  }

  /** npm, Go and crates.io versions compare as the SemVer versions they are read as. */
  lemma SemVerComparesAsRead(e: Ecosystem, pep: Pep440, left: string, right: string)
    requires e != Maven && e != PyPI && Parses(e, pep, left) && Parses(e, pep, right)
    ensures Compare(e, pep, left, right) == Some(SemVer.Compare(
      SemVerText.Parse(Normalize(e, left)).value, SemVerText.Parse(Normalize(e, right)).value))
  {
  }

  /** The scheme compares exactly the texts that parse, and ranks them in a total preorder. */
  ghost predicate Ordered(s: Scheme) {
    && (forall a, b {:trigger s.compare(a, b)} :: s.compare(a, b).Some? <==> s.parses(a) && s.parses(b))
    && (forall a {:trigger s.parses(a)} :: s.parses(a) ==> s.compare(a, a) == Some(0))
    && (forall a, b {:trigger s.compare(a, b)} ::
          s.parses(a) && s.parses(b) ==> s.compare(a, b).value == -s.compare(b, a).value)
    && (forall a, b, c {:trigger s.compare(a, b), s.compare(b, c)} ::
          s.parses(a) && s.parses(b) && s.parses(c) ==>
            && (s.compare(a, b).value <= 0 && s.compare(b, c).value <= 0 ==> s.compare(a, c).value <= 0)
            && (s.compare(a, b).value < 0 && s.compare(b, c).value <= 0 ==> s.compare(a, c).value < 0)
            && (s.compare(a, b).value <= 0 && s.compare(b, c).value < 0 ==> s.compare(a, c).value < 0))
  }

  /** Whatever parses can be compared; nothing is said of the order. */
  ghost predicate Comparable(s: Scheme) {
    forall a, b {:trigger s.compare(a, b)} :: s.parses(a) && s.parses(b) ==> s.compare(a, b).Some?
  }

  lemma ParsedMavenComparesAt(pep: Pep440, left: string, right: string)
    requires Parses(Maven, pep, left) && Parses(Maven, pep, right)
    ensures Compare(Maven, pep, left, right).Some?
  {
  }

  /** In every ecosystem, with no assumption on any library, versions that parse compare without an error. */
  lemma EveryEcosystemIsComparable(e: Ecosystem, pep: Pep440)
    ensures Comparable(SchemeOf(e, pep))
  {
    forall a, b | Parses(e, pep, a) && Parses(e, pep, b) ensures Compare(e, pep, a, b).Some? {
      if e == Maven {
        ParsedMavenComparesAt(pep, a, b);
      }
    }
  }

  lemma ReadingOrders(s: Scheme, read: string -> Option<SemVer.SemVer>)
    requires forall a :: s.parses(a) <==> read(a).Some?
    requires forall a, b :: s.compare(a, b) == CompareRead(read(a), read(b))
    ensures Ordered(s)
  {
    forall a, b, c | s.parses(a) && s.parses(b) && s.parses(c)
      ensures s.compare(a, a) == Some(0)
      ensures s.compare(a, b).value == -s.compare(b, a).value
      ensures s.compare(a, b).value <= 0 && s.compare(b, c).value <= 0 ==> s.compare(a, c).value <= 0
      ensures s.compare(a, b).value < 0 && s.compare(b, c).value <= 0 ==> s.compare(a, c).value < 0
      ensures s.compare(a, b).value <= 0 && s.compare(b, c).value < 0 ==> s.compare(a, c).value < 0
    {
      SemVer.CompareIsPreorder(read(a).value, read(b).value, read(c).value);
    }
  }

  /** npm, Go and crates.io version texts are totally preordered, whatever their shape. */
  lemma SemVerEcosystemsAreOrdered(e: Ecosystem, pep: Pep440)
    requires e == Npm || e == Go || e == CratesIo
    ensures Ordered(SchemeOf(e, pep))
  {
    ReadingOrders(SchemeOf(e, pep), raw => ReadSemVer(e, raw));
  }

  lemma LibraryOrders(s: Scheme, pep: Pep440, read: string -> string)
    requires RanksAll(pep.valid, pep.compare)
    requires forall a :: s.parses(a) <==> read(a) != "" && pep.valid(read(a))
    requires forall a, b :: s.compare(a, b)
                         == if s.parses(a) && s.parses(b) then Some(pep.compare(read(a), read(b))) else None
    ensures Ordered(s)
  {
    forall a, b, c | s.parses(a) && s.parses(b) && s.parses(c)
      ensures s.compare(a, a) == Some(0)
      ensures s.compare(a, b).value == -s.compare(b, a).value
      ensures s.compare(a, b).value <= 0 && s.compare(b, c).value <= 0 ==> s.compare(a, c).value <= 0
      ensures s.compare(a, b).value < 0 && s.compare(b, c).value <= 0 ==> s.compare(a, c).value < 0
      ensures s.compare(a, b).value <= 0 && s.compare(b, c).value < 0 ==> s.compare(a, c).value < 0
    {
      var x, y, z := read(a), read(b), read(c);
      assert pep.compare(z, x) == -pep.compare(x, z);
      assert pep.compare(z, y) == -pep.compare(y, z);
      assert pep.compare(y, x) == -pep.compare(x, y);
    }
  }

  /** PyPI inherits whatever total preorder the PEP 440 library provides. */
  lemma Pep440IsOrdered(pep: Pep440)
    requires RanksAll(pep.valid, pep.compare)
    ensures Ordered(SchemeOf(PyPI, pep))
  {
    LibraryOrders(SchemeOf(PyPI, pep), pep, raw => Normalize(PyPI, raw));
  }

  // ---------- ranges ----------

  /** A bound that is present and not blank. */
  predicate Present(bound: Option<string>) {
    bound.Some? && bound.value != ""
  }

  function InRange(s: Scheme, version: string, r: AffectedRange): Option<bool> {
    var low :=
      if Present(r.introduced) && r.introduced.value != "0" then s.compare(version, r.introduced.value) else Some(0);
    if low.None? then None
    else if low.value < 0 then Some(false)
    else if Present(r.fixed) then
      match s.compare(version, r.fixed.value)
      case None => None
      case Some(c) => Some(c < 0)
    else if Present(r.lastAffected) then
      match s.compare(version, r.lastAffected.value)
      case None => None
      case Some(c) => Some(c <= 0)
    else Some(true)
  }

  predicate Covered(s: Scheme, version: string, ranges: seq<AffectedRange>) {
    exists r :: r in ranges && InRange(s, version, r) == Some(true)
  }

  predicate Enumerated(s: Scheme, version: string, versions: seq<string>) {
    exists v :: v in versions && s.normalize(v) == s.normalize(version)
  }

  /** Parseable, and enumerated or in some range. */
  predicate IsAffected(s: Scheme, version: string, affected: AffectedPackage) {
    s.parses(version) && (Enumerated(s, version, affected.versions) || Covered(s, version, affected.ranges))
  }

  /** A range whose bounds cannot be read is passed over, so it masks no other. */
  method VersionMatches(s: Scheme, version: string, affected: AffectedPackage) returns (r: bool)
    ensures r <==> IsAffected(s, version, affected)
  {
    if !s.parses(version) {
      return false;
    }
    var normalized := s.normalize(version);
    for i := 0 to |affected.versions|
      invariant forall k :: 0 <= k < i ==> s.normalize(affected.versions[k]) != normalized
    {
      if s.normalize(affected.versions[i]) == normalized {
        assert affected.versions[i] in affected.versions;
        return true;
      }
    }
    for i := 0 to |affected.ranges|
      invariant forall k :: 0 <= k < i ==> InRange(s, version, affected.ranges[k]) != Some(true)
    {
      if InRange(s, version, affected.ranges[i]) == Some(true) {
        assert affected.ranges[i] in affected.ranges;
        return true;
      }
    }
    return false;
  }

  // ---------- the fix to recommend ----------

  ghost predicate IsFixAbove(s: Scheme, version: string, ranges: seq<AffectedRange>, f: string) {
    exists r :: r in ranges && r.fixed == Some(f) && FixesAbove(s, version, r)
  }

  /** The range has a fix, and it lies strictly above the installed version. */
  predicate FixesAbove(s: Scheme, version: string, r: AffectedRange) {
    Present(r.fixed) && s.compare(r.fixed.value, version).Some? && s.compare(r.fixed.value, version).value > 0
  }

  function FixCandidates(s: Scheme, version: string, ranges: seq<AffectedRange>): seq<string> {
    if ranges == [] then []
    else
      var last := ranges[|ranges| - 1];
      FixCandidates(s, version, ranges[..|ranges| - 1])
      + (if FixesAbove(s, version, last) then [last.fixed.value] else [])
  }

  lemma {:induction false} CandidatesAreFixes(s: Scheme, version: string, ranges: seq<AffectedRange>, f: string)
    ensures f in FixCandidates(s, version, ranges) <==> IsFixAbove(s, version, ranges, f)
    decreases |ranges|
  {
    if ranges != [] {
      var front, last := ranges[..|ranges| - 1], ranges[|ranges| - 1];
      CandidatesAreFixes(s, version, front, f);
      assert ranges == front + [last];
    }
  }

  /** The lowest of `lowest` and the rest, in the order they are met. */
  function LowestFrom(s: Scheme, lowest: string, rest: seq<string>): string
    decreases |rest|
  {
    if rest == [] then lowest
    else
      var c := s.compare(rest[0], lowest);
      LowestFrom(s, if c.Some? && c.value < 0 then rest[0] else lowest, rest[1..])
  }

  function FirstFix(s: Scheme, version: string, ranges: seq<AffectedRange>): Option<string> {
    var candidates := FixCandidates(s, version, ranges);
    if candidates == [] then None else Some(LowestFrom(s, candidates[0], candidates[1..]))
  }

  lemma LowestFromStep(s: Scheme, lowest: string, candidates: seq<string>, i: nat)
    requires i < |candidates|
    ensures LowestFrom(s, lowest, candidates[i..]) ==
      var c := s.compare(candidates[i], lowest);
      LowestFrom(s, if c.Some? && c.value < 0 then candidates[i] else lowest, candidates[i + 1..])
  {
    assert candidates[i..][1..] == candidates[i + 1..];
  }

  method LowestOf(s: Scheme, candidates: seq<string>) returns (lowest: string)
    requires candidates != []
    ensures lowest == LowestFrom(s, candidates[0], candidates[1..]) && lowest in candidates
  {
    lowest := candidates[0];
    for i := 1 to |candidates|
      invariant lowest in candidates
      invariant LowestFrom(s, lowest, candidates[i..]) == LowestFrom(s, candidates[0], candidates[1..])
    {
      LowestFromStep(s, lowest, candidates, i);
      var c := s.compare(candidates[i], lowest);
      if c.Some? && c.value < 0 {
        lowest := candidates[i];
      }
    }
  }

  /** `f` is readable and not above `g`. */
  ghost predicate AtOrBelow(s: Scheme, f: string, g: string) {
    s.parses(f) && s.compare(f, g).Some? && s.compare(f, g).value <= 0
  }

  lemma {:induction false} LowestFromIsLowest(s: Scheme, lowest: string, rest: seq<string>)
    requires Ordered(s) && s.parses(lowest) && forall f :: f in rest ==> s.parses(f)
    ensures var r := LowestFrom(s, lowest, rest);
      && (r == lowest || r in rest) && AtOrBelow(s, r, lowest)
      && forall f :: f in rest ==> AtOrBelow(s, r, f)
    decreases |rest|
  {
    assert s.compare(lowest, lowest) == Some(0);
    if rest != [] {
      var c := s.compare(rest[0], lowest);
      assert s.compare(lowest, rest[0]).Some? && s.compare(rest[0], rest[0]) == Some(0);
      var next := if c.value < 0 then rest[0] else lowest;
      LowestFromIsLowest(s, next, rest[1..]);
      var r := LowestFrom(s, next, rest[1..]);
      assert AtOrBelow(s, r, next);
      assert s.compare(r, lowest).Some? && s.compare(r, rest[0]).Some?;
      forall f | f in rest ensures AtOrBelow(s, r, f) {
        if f != rest[0] {
          assert f in rest[1..];
        }
      }
    }
  }

  /** `fix` is the lowest fix above the installed version; `None` exactly when there is none above it. */
  ghost predicate IsFirstFix(s: Scheme, version: string, ranges: seq<AffectedRange>, fix: Option<string>) {
    match fix
    case None => forall f :: !IsFixAbove(s, version, ranges, f)
    case Some(fix) =>
      && IsFixAbove(s, version, ranges, fix)
      && forall f :: IsFixAbove(s, version, ranges, f) ==> s.compare(fix, f).Some? && s.compare(fix, f).value <= 0
  }

  method FirstFixedVersion(s: Scheme, version: string, ranges: seq<AffectedRange>) returns (fix: Option<string>)
    ensures fix == FirstFix(s, version, ranges)
    ensures fix.Some? <==> exists r ::
      r in ranges && r.fixed.Some? && r.fixed.value != ""
      && s.compare(r.fixed.value, version).Some? && s.compare(r.fixed.value, version).value > 0
    ensures fix.Some? ==> exists r :: r in ranges && r.fixed == fix
    ensures fix.Some? ==> s.compare(fix.value, version).Some? && s.compare(fix.value, version).value > 0
    ensures fix.Some? ==> IsFixAbove(s, version, ranges, fix.value)
    ensures Ordered(s) ==> IsFirstFix(s, version, ranges, fix)
  {
    var candidates: seq<string> := [];
    for i := 0 to |ranges|
      invariant candidates == FixCandidates(s, version, ranges[..i])
    {
      assert ranges[..i + 1][..i] == ranges[..i];
      if !Present(ranges[i].fixed) {
        continue;
      }
      var c := s.compare(ranges[i].fixed.value, version);
      if c.Some? && c.value > 0 {
        candidates := candidates + [ranges[i].fixed.value];
      }
    }
    assert ranges[..|ranges|] == ranges;
    forall f ensures f in candidates <==> IsFixAbove(s, version, ranges, f) {
      CandidatesAreFixes(s, version, ranges, f);
    }
    if candidates == [] {
      forall r | r in ranges ensures !FixesAbove(s, version, r) {
        assert FixesAbove(s, version, r) ==> IsFixAbove(s, version, ranges, r.fixed.value);
      }
      return None;
    }
    assert candidates[0] in candidates;
    var lowest := LowestOf(s, candidates);
    if Ordered(s) {
      FirstFixIsLowest(s, version, ranges);
    }
    return Some(lowest);
  }

  lemma FirstFixIsLowest(s: Scheme, version: string, ranges: seq<AffectedRange>)
    requires Ordered(s)
    ensures IsFirstFix(s, version, ranges, FirstFix(s, version, ranges))
  {
    var candidates := FixCandidates(s, version, ranges);
    forall f ensures f in candidates <==> IsFixAbove(s, version, ranges, f) {
      CandidatesAreFixes(s, version, ranges, f);
    }
    forall f | f in candidates ensures s.parses(f) {
      assert IsFixAbove(s, version, ranges, f);
      assert s.compare(f, version).Some?;
    }
    if candidates != [] {
      assert candidates[0] in candidates && forall f :: f in candidates[1..] ==> f in candidates;
      LowestFromIsLowest(s, candidates[0], candidates[1..]);
      forall f | IsFixAbove(s, version, ranges, f)
        ensures AtOrBelow(s, FirstFix(s, version, ranges).value, f)
      {
        assert f == candidates[0] || f in candidates[1..];
      }
    }
  }
}
