/**
  The version a range is tested at (app/core/manifests.py, `resolve_npm_floor`,
  `resolve_pypi_floor`): a manifest that only gives a range is judged at a floor of that range.
*/
module Floors {
  import opened Prelude
  import opened Text
  import opened Domain
  import opened Versions
  import SemVer
  import SemVerText

  /** A version text, and whether the range pins it. */
  type Floor = (string, bool)

  // ---------- PyPI ----------

  datatype Clause = Clause(operator: string, version: string)

  predicate Pins(c: Clause) {
    (c.operator == "==" || c.operator == "===") && '*' !in c.version
  }

  function DropDotStars(s: string): string {
    if s == "" then ""
    else if StartsWith(s, ".*") then DropDotStars(s[2..])
    else [s[0]] + DropDotStars(s[1..])
  }

  function DropTrailingDots(s: string): string {
    if s != "" && s[|s| - 1] == '.' then DropTrailingDots(s[..|s| - 1]) else s
  }

  /** The lower bound a clause sets, empty if it sets none. */
  function BoundOf(c: Clause): string {
    if c.operator == ">=" || c.operator == "~=" || c.operator == ">" then c.version
    else if c.operator == "==" && '*' in c.version then DropTrailingDots(Without(DropDotStars(c.version), "*"))
    else ""
  }

  function Bounds(clauses: seq<Clause>): seq<string> {
    if clauses == [] then []
    else
      var last := BoundOf(clauses[|clauses| - 1]);
      Bounds(clauses[..|clauses| - 1]) + (if last != "" then [last] else [])
  }

  predicate HasPin(clauses: seq<Clause>) {
    exists i :: 0 <= i < |clauses| && Pins(clauses[i])
  }

  /** `highest` is one of the bounds and none that can be read lies above it. */
  ghost predicate IsGreatest(s: Scheme, highest: string, bounds: seq<string>) {
    && highest in bounds && s.parses(highest)
    && forall b :: b in bounds && s.parses(b) ==> s.compare(b, highest).Some? && s.compare(b, highest).value <= 0
  }

  /** None of the first `upTo` bounds that can be read lies above `highest`. */
  ghost predicate NoneAbove(s: Scheme, highest: string, bounds: seq<string>, upTo: nat)
    requires upTo <= |bounds|
  {
    forall k :: 0 <= k < upTo && s.parses(bounds[k]) ==>
      s.compare(bounds[k], highest).Some? && s.compare(bounds[k], highest).value <= 0
  }

  method HighestOf(s: Scheme, bounds: seq<string>) returns (highest: string)
    requires Ordered(s) && bounds != []
    ensures highest in bounds
    ensures s.parses(bounds[0]) ==> IsGreatest(s, highest, bounds)
    ensures !s.parses(bounds[0]) ==> highest == bounds[0]
  {
    highest := bounds[0];
    for i := 1 to |bounds|
      invariant highest in bounds
      invariant s.parses(bounds[0]) ==> s.parses(highest) && NoneAbove(s, highest, bounds, i)
      invariant !s.parses(bounds[0]) ==> highest == bounds[0]
    {
      var c := s.compare(bounds[i], highest);
      if s.parses(bounds[0]) {
        NextHighest(s, highest, bounds, i);
      }
      if c.Some? && c.value > 0 {
        highest := bounds[i];
      }
    }
  }

  lemma NextHighest(s: Scheme, highest: string, bounds: seq<string>, i: nat)
    requires Ordered(s) && i < |bounds| && s.parses(highest) && NoneAbove(s, highest, bounds, i)
    ensures
      var c := s.compare(bounds[i], highest);
      if c.Some? && c.value > 0 then s.parses(bounds[i]) && NoneAbove(s, bounds[i], bounds, i + 1)
      else NoneAbove(s, highest, bounds, i + 1)
  {
    if s.compare(bounds[i], highest).Some? && s.compare(bounds[i], highest).value > 0 {
      RaiseHighest(s, highest, bounds, i);
    }
  }

  lemma RaiseHighest(s: Scheme, highest: string, bounds: seq<string>, i: nat)
    requires Ordered(s) && i < |bounds| && NoneAbove(s, highest, bounds, i)
    requires s.compare(bounds[i], highest).Some? && s.compare(bounds[i], highest).value > 0
    ensures s.parses(bounds[i]) && NoneAbove(s, bounds[i], bounds, i + 1)
  {
    assert s.compare(highest, bounds[i]).Some?;
    assert s.compare(bounds[i], bounds[i]) == Some(0);
    forall k | 0 <= k < i && s.parses(bounds[k])
      ensures s.compare(bounds[k], bounds[i]).Some? && s.compare(bounds[k], bounds[i]).value <= 0
    {
      assert s.compare(bounds[k], highest).Some?;
    }
  }

  /**
    A pin wins, exact. Otherwise the greatest lower bound any clause sets; nothing when there is
    none, or when the first one cannot be read.
  */
  ghost predicate IsPypiFloor(s: Scheme, clauses: seq<Clause>, r: Option<Floor>) {
    if HasPin(clauses) then
      exists i :: 0 <= i < |clauses| && Pins(clauses[i]) && (forall k :: 0 <= k < i ==> !Pins(clauses[k]))
                  && r == Some((clauses[i].version, true))
    else if Bounds(clauses) == [] || !s.parses(Bounds(clauses)[0]) then r == None
    else r.Some? && !r.value.1 && IsGreatest(s, r.value.0, Bounds(clauses))
  }

  method ResolvePypiFloor(s: Scheme, clauses: seq<Clause>) returns (r: Option<Floor>)
    requires Ordered(s)
    ensures IsPypiFloor(s, clauses, r)
  {
    for i := 0 to |clauses|
      invariant forall k :: 0 <= k < i ==> !Pins(clauses[k])
    {
      if Pins(clauses[i]) {
        return Some((clauses[i].version, true));
      }
    }
    var floors: seq<string> := [];
    for i := 0 to |clauses|
      invariant floors == Bounds(clauses[..i])
    {
      assert clauses[..i + 1][..i] == clauses[..i];
      var bound := BoundOf(clauses[i]);
      if bound != "" {
        floors := floors + [bound];
      }
    }
    assert clauses[..|clauses|] == clauses;
    if floors == [] {
      return None;
    }
    var highest := HighestOf(s, floors);
    if s.compare(highest, highest).None? {
      return None;
    }
    return Some((highest, false));
  }

  lemma {:induction false} BoundsMembers(clauses: seq<Clause>, b: string)
    ensures b in Bounds(clauses) <==> b != "" && exists c :: c in clauses && BoundOf(c) == b
    decreases |clauses|
  {
    if clauses != [] {
      var front, last := clauses[..|clauses| - 1], clauses[|clauses| - 1];
      assert clauses == front + [last];
      BoundsMembers(front, b);
    }
  }

  lemma SameClauses(clauses: seq<Clause>, others: seq<Clause>, b: string)
    requires multiset(clauses) == multiset(others)
    ensures HasPin(clauses) ==> HasPin(others)
    ensures b in Bounds(clauses) ==> b in Bounds(others)
  {
    forall c | c in clauses ensures c in others {
      assert c in multiset(others);
    }
    if HasPin(clauses) {
      var i :| 0 <= i < |clauses| && Pins(clauses[i]);
      assert clauses[i] in others;
    }
    BoundsMembers(clauses, b);
    BoundsMembers(others, b);
  }

  lemma GreatestIsUnique(s: Scheme, h: string, g: string, bounds: seq<string>, others: seq<string>)
    requires Ordered(s) && IsGreatest(s, h, bounds) && IsGreatest(s, g, others)
    requires forall b :: b in bounds <==> b in others
    ensures s.compare(h, g) == Some(0)
  {
    assert s.compare(h, g).Some? && s.compare(g, h).Some?;
  }

  /** The order in which the clauses are met changes the floor's spelling at most. */
  lemma ClauseOrderDoesNotMatter(
    s: Scheme, clauses: seq<Clause>, others: seq<Clause>, r: Option<Floor>, q: Option<Floor>)
    requires Ordered(s) && multiset(clauses) == multiset(others)
    requires !HasPin(clauses) && forall b :: b in Bounds(clauses) ==> s.parses(b)
    requires IsPypiFloor(s, clauses, r) && IsPypiFloor(s, others, q)
    ensures r.Some? <==> q.Some?
    ensures r.Some? ==> s.compare(r.value.0, q.value.0) == Some(0) && r.value.1 == q.value.1
  {
    forall b ensures b in Bounds(clauses) <==> b in Bounds(others) {
      SameClauses(clauses, others, b);
      SameClauses(others, clauses, b);
    }
    SameClauses(others, clauses, "");
    assert Bounds(clauses) != [] ==> Bounds(clauses)[0] in Bounds(others);
    assert Bounds(others) != [] ==> Bounds(others)[0] in Bounds(clauses);
    if r.Some? && q.Some? {
      GreatestIsUnique(s, r.value.0, q.value.0, Bounds(clauses), Bounds(others));
    }
  }

  // ---------- npm ----------

  /**
    One branch of a union, split on white space: a hyphen range keeps its left operand. The whole
    range being empty or a tag such as "latest" is the empty union.
  */
  datatype Branch = Hyphen(left: string) | Comparators(tokens: seq<string>)

  predicate IsWildcard(part: string) {
    part == "" || part[0] == 'x' || part[0] == 'X'
  }

  function StarsToX(s: string): string {
    if s == "" then "" else [if s[0] == '*' then 'x' else s[0]] + StarsToX(s[1..])
  }

  /** The parts in front of the first wildcard. */
  function ConcreteParts(parts: seq<string>): (r: seq<string>)
    ensures r <= parts
  {
    if parts == [] || IsWildcard(parts[0]) then [] else [parts[0]] + ConcreteParts(parts[1..])
  }

  function FillTo3(parts: seq<string>): seq<string>
    decreases 3 - |parts|
  {
    if |parts| < 3 then FillTo3(parts + ["0"]) else parts
  }

  /** A possibly partial version made concrete, if it is one. */
  function ZeroFill(s: Scheme, raw: string, exact: bool): (r: Option<Floor>)
    ensures r.Some? ==> s.parses(r.value.0)
  {
    var value := s.normalize(raw);
    var parts := Split(StarsToX(value), '.');
    if value == "" then None else FillParts(s, value, parts, ConcreteParts(parts), exact)
  }

  function FillParts(
    s: Scheme, value: string, parts: seq<string>, concrete: seq<string>, exact: bool): (r: Option<Floor>)
    ensures r.Some? ==> s.parses(r.value.0)
  {
    if concrete == [] then None
    else
      var partial := |concrete| < 3 || |concrete| < |parts|;
      var candidate := if |parts| >= 3 && !partial then value else Join(FillTo3(concrete), '.');
      if candidate == "" || !IsDigit(candidate[0]) || !s.parses(candidate) then None
      else Some((candidate, exact && !partial))
  }

  function StripAngles(token: string): string {
    if token != "" && token[0] == '>' then StripAngles(token[1..]) else token
  }

  /** The floor one comparator names. */
  function TokenFloor(s: Scheme, token: string): Option<Floor> {
    if token == "" || token == "*" || token == "x" || token == "X" then None
    else if StartsWith(token, "^") then ZeroFill(s, token[1..], false)
    else if StartsWith(token, "~>") then ZeroFill(s, token[2..], false)
    else if StartsWith(token, "~") then ZeroFill(s, token[1..], false)
    else if StartsWith(token, ">=") then ZeroFill(s, token[2..], false)
    else if StartsWith(token, "=") then ZeroFill(s, token[1..], true)
    else if StartsWith(token, "<") then None
    else if StartsWith(token, ">") then ZeroFill(s, StripAngles(token), false)
    else ZeroFill(s, token, true)
  }

  /** In a set of several comparators only these are looked at. */
  predicate Considered(token: string) {
    StartsWith(token, ">=") || StartsWith(token, "^") || StartsWith(token, "~") || (token != "" && IsDigit(token[0]))
  }

  function FirstFloor(s: Scheme, tokens: seq<string>): Option<Floor> {
    if tokens == [] then None
    else if Considered(tokens[0]) && TokenFloor(s, tokens[0]).Some? then Some((TokenFloor(s, tokens[0]).value.0, false))
    else FirstFloor(s, tokens[1..])
  }

  function BranchFloor(s: Scheme, b: Branch): Option<Floor> {
    match b
    case Hyphen(left) => ZeroFill(s, Strip(left), false)
    case Comparators(tokens) =>
      if |tokens| > 1 then FirstFloor(s, tokens)
      else if |tokens| == 1 then TokenFloor(s, tokens[0])
      else None
  }

  function BranchFloors(s: Scheme, branches: seq<Branch>): seq<Floor> {
    if branches == [] then []
    else
      var last := BranchFloor(s, branches[|branches| - 1]);
      BranchFloors(s, branches[..|branches| - 1]) + (if last.Some? then [last.value] else [])
  }

  /** The least of the branches' floors; pinned only if a single branch has a floor and pins it. */
  ghost predicate IsNpmFloor(s: Scheme, branches: seq<Branch>, r: Option<Floor>) {
    var floors := BranchFloors(s, branches);
    match r
    case None => floors == []
    case Some(floor) =>
      && (exists f :: f in floors && f.0 == floor.0)
      && (forall f :: f in floors ==> NotAbove(s, floor, f))
      && (floor.1 <==> |floors| == 1 && floors[0].1)
  }

  lemma {:induction false} BranchFloorsMembers(s: Scheme, branches: seq<Branch>, f: Floor)
    ensures f in BranchFloors(s, branches) <==> exists b :: b in branches && BranchFloor(s, b) == Some(f)
    decreases |branches|
  {
    if branches != [] {
      var front, last := branches[..|branches| - 1], branches[|branches| - 1];
      assert branches == front + [last];
      BranchFloorsMembers(s, front, f);
    }
  }

  lemma {:induction false} FirstFloorParses(s: Scheme, tokens: seq<string>)
    ensures FirstFloor(s, tokens).Some? ==> s.parses(FirstFloor(s, tokens).value.0)
    decreases |tokens|
  {
    if tokens != [] {
      FirstFloorParses(s, tokens[1..]);
    }
  }

  lemma BranchFloorParses(s: Scheme, b: Branch)
    ensures BranchFloor(s, b).Some? ==> s.parses(BranchFloor(s, b).value.0)
  {
    if b.Comparators? {
      FirstFloorParses(s, b.tokens);
    }
  }

  method CollectFloors(s: Scheme, branches: seq<Branch>) returns (floors: seq<Floor>)
    ensures floors == BranchFloors(s, branches)
  {
    floors := [];
    for i := 0 to |branches|
      invariant floors == BranchFloors(s, branches[..i])
    {
      assert branches[..i + 1][..i] == branches[..i];
      var resolved := BranchFloor(s, branches[i]);
      if resolved.Some? {
        floors := floors + [resolved.value];
      }
    }
    assert branches[..|branches|] == branches;
  }

  method ResolveNpmFloor(s: Scheme, branches: seq<Branch>) returns (r: Option<Floor>)
    requires Ordered(s)
    ensures IsNpmFloor(s, branches, r)
  {
    var floors := CollectFloors(s, branches);
    if floors == [] {
      return None;
    }
    FloorsParse(s, branches);
    var lowest := LowestFloor(s, floors);
    return Some((lowest.0, lowest.1 && |floors| == 1));
  }

  lemma {:induction false} FloorsParse(s: Scheme, branches: seq<Branch>)
    ensures forall f :: f in BranchFloors(s, branches) ==> s.parses(f.0)
    decreases |branches|
  {
    if branches != [] {
      FloorsParse(s, branches[..|branches| - 1]);
      BranchFloorParses(s, branches[|branches| - 1]);
    }
  }

  method LowestFloor(s: Scheme, floors: seq<Floor>) returns (lowest: Floor)
    requires Ordered(s) && floors != [] && forall f :: f in floors ==> s.parses(f.0)
    ensures lowest in floors
    ensures forall f :: f in floors ==> NotAbove(s, lowest, f)
  {
    lowest := floors[0];
    for i := 1 to |floors|
      invariant lowest in floors
      invariant forall k :: 0 <= k < i ==> NotAbove(s, lowest, floors[k])
    {
      assert floors[i] in floors;
      assert s.compare(floors[i].0, lowest.0).Some? && s.compare(lowest.0, floors[i].0).Some?;
      var c := s.compare(floors[i].0, lowest.0);
      if c.Some? && c.value < 0 {
        forall k | 0 <= k < i ensures NotAbove(s, floors[i], floors[k]) {
          assert NotAbove(s, lowest, floors[k]);
          assert floors[k] in floors;
          assert s.compare(lowest.0, floors[k].0).Some? && s.compare(floors[i].0, floors[k].0).Some?;
        }
        assert s.compare(floors[i].0, floors[i].0) == Some(0);
        lowest := floors[i];
      }
    }
    forall f | f in floors ensures NotAbove(s, lowest, f) {
      var k :| 0 <= k < |floors| && floors[k] == f;
    }
  }

  ghost predicate NotAbove(s: Scheme, f: Floor, g: Floor) {
    s.compare(f.0, g.0).Some? && s.compare(f.0, g.0).value <= 0
  }

  // ---------- what a floor promises ----------

  /** The version is at or above what the comparator names, strictly above for `>`. */
  ghost predicate MeetsToken(s: Scheme, version: string, token: string) {
    TokenFloor(s, token).Some? ==>
      && s.compare(version, TokenFloor(s, token).value.0).Some?
      && (if StartsWith(token, ">") && !StartsWith(token, ">=")
          then s.compare(version, TokenFloor(s, token).value.0).value > 0
          else s.compare(version, TokenFloor(s, token).value.0).value >= 0)
  }

  /** The lower bounds of every comparator of a branch hold; upper bounds only narrow this further. */
  ghost predicate MeetsBranch(s: Scheme, version: string, b: Branch) {
    match b
    case Hyphen(left) =>
      ZeroFill(s, Strip(left), false).Some? ==>
        && s.compare(version, ZeroFill(s, Strip(left), false).value.0).Some?
        && s.compare(version, ZeroFill(s, Strip(left), false).value.0).value >= 0
    case Comparators(tokens) => forall i :: 0 <= i < |tokens| ==> MeetsToken(s, version, tokens[i])
  }

  lemma {:induction false} FirstFloorIsBelow(s: Scheme, version: string, tokens: seq<string>)
    requires forall i :: 0 <= i < |tokens| ==> MeetsToken(s, version, tokens[i])
    requires FirstFloor(s, tokens).Some?
    ensures s.compare(version, FirstFloor(s, tokens).value.0).Some?
    ensures s.compare(version, FirstFloor(s, tokens).value.0).value >= 0
    decreases |tokens|
  {
    if Considered(tokens[0]) && TokenFloor(s, tokens[0]).Some? {
      assert MeetsToken(s, version, tokens[0]);
    } else {
      FirstFloorIsBelow(s, version, tokens[1..]);
    }
  }

  /** The floor is at or below every version that meets some branch with a floor. */
  lemma FloorIsBelowPermitted(s: Scheme, branches: seq<Branch>, r: Option<Floor>, b: Branch, version: string)
    requires Ordered(s) && IsNpmFloor(s, branches, r)
    requires b in branches && BranchFloor(s, b).Some? && MeetsBranch(s, version, b)
    ensures r.Some? && s.compare(r.value.0, version).Some? && s.compare(r.value.0, version).value <= 0
  {
    var f := BranchFloor(s, b).value;
    BranchFloorsMembers(s, branches, f);
    assert f in BranchFloors(s, branches);
    assert s.compare(version, f.0).Some? && s.compare(version, f.0).value >= 0 by {
      if b.Comparators? && |b.tokens| > 1 {
        FirstFloorIsBelow(s, version, b.tokens);
      } else if b.Comparators? {
        assert MeetsToken(s, version, b.tokens[0]);
      }
    }
    assert NotAbove(s, r.value, f);
    assert s.compare(r.value.0, f.0).Some? && s.compare(f.0, version).Some? && s.compare(r.value.0, version).Some?;
  }

  // ---------- partial versions ----------

  /** A version written with one to three numbers, with or without a closing wildcard. */
  function Written(numbers: seq<nat>, wild: bool): string {
    Join(WrittenParts(numbers, wild), '.')
  }

  function WrittenParts(numbers: seq<nat>, wild: bool): seq<string> {
    SemVerText.Decimals(numbers) + (if wild then ["x"] else [])
  }

  function Filled(numbers: seq<nat>): (r: seq<nat>)
    ensures |r| == Max(3, |numbers|)
    decreases 3 - |numbers|
  {
    if |numbers| < 3 then Filled(numbers + [0]) else numbers
  }

  predicate IsVersionChar(c: char) {
    IsDigit(c) || c == '.' || c == 'x'
  }

  lemma {:induction false} ConcreteAreNumbers(parts: seq<string>, tail: seq<string>)
    requires SemVerText.AreNumbers(parts) && (tail == [] || IsWildcard(tail[0]))
    ensures ConcreteParts(parts + tail) == parts
    decreases |parts|
  {
    if parts == [] {
      assert parts + tail == tail;
    } else {
      assert (parts + tail)[1..] == parts[1..] + tail && (parts + tail)[0] == parts[0];
      ConcreteAreNumbers(parts[1..], tail);
    }
  }

  lemma {:induction false} NoStars(s: string)
    requires '*' !in s
    ensures StarsToX(s) == s
    decreases |s|
  {
    if s != "" {
      NoStars(s[1..]);
    }
  }

  lemma {:induction false} DecimalsSnoc(numbers: seq<nat>, n: nat)
    ensures SemVerText.Decimals(numbers + [n]) == SemVerText.Decimals(numbers) + [Decimal(n)]
    decreases |numbers|
  {
    if numbers != [] {
      DecimalsSnoc(numbers[1..], n);
      assert (numbers + [n])[1..] == numbers[1..] + [n];
    } else {
      assert [n][1..] == [];
    }
  }

  lemma {:induction false} FillIsFilled(numbers: seq<nat>)
    ensures FillTo3(SemVerText.Decimals(numbers)) == SemVerText.Decimals(Filled(numbers))
    decreases 3 - |numbers|
  {
    if |numbers| < 3 {
      DecimalsSnoc(numbers, 0);
      assert Decimal(0) == "0";
      FillIsFilled(numbers + [0]);
    }
  }

  lemma WrittenShape(numbers: seq<nat>, wild: bool)
    requires numbers != []
    ensures Written(numbers, wild) != "" && IsDigit(Written(numbers, wild)[0])
    ensures All(Written(numbers, wild), IsVersionChar)
    ensures Split(Written(numbers, wild), '.') == WrittenParts(numbers, wild)
  {
    var parts := WrittenParts(numbers, wild);
    forall q | q in parts ensures All(q, IsVersionChar) && '.' !in q {
      if q == "x" {
      } else {
        AllExcludes(q, IsDigit, '.');
      }
    }
    JoinAll(parts, '.', IsVersionChar);
    SplitJoin(parts, '.');
    assert parts[0] == SemVerText.Decimals(numbers)[0];
  }

  lemma WrittenIsNormal(numbers: seq<nat>, wild: bool)
    requires numbers != []
    ensures Normalize(Npm, Written(numbers, wild)) == Written(numbers, wild)
    ensures StarsToX(Written(numbers, wild)) == Written(numbers, wild)
  {
    var raw := Written(numbers, wild);
    WrittenShape(numbers, wild);
    assert "" + raw + "" == raw;
    StripDrops("", raw, "");
    AllExcludes(raw, IsVersionChar, '*');
    NoStars(raw);
  }

  lemma FillPartsGives(s: Scheme, value: string, parts: seq<string>, concrete: seq<string>, text: string, exact: bool)
    requires 1 <= |concrete| <= 3 && |concrete| <= |parts|
    requires Join(FillTo3(concrete), '.') == text && (|parts| == 3 == |concrete| ==> value == text)
    requires text != "" && IsDigit(text[0]) && s.parses(text)
    ensures FillParts(s, value, parts, concrete, exact) == Some((text, exact && |concrete| == 3 == |parts|))
  {
  }

  lemma FilledText(numbers: seq<nat>)
    requires numbers != []
    ensures Join(FillTo3(SemVerText.Decimals(numbers)), '.') == Written(Filled(numbers), false)
  {
    FillIsFilled(numbers);
    WithoutWildcard(Filled(numbers));
  }

  lemma WithoutWildcard(numbers: seq<nat>)
    ensures WrittenParts(numbers, false) == SemVerText.Decimals(numbers)
  {
  }

  lemma ConcreteOfWritten(numbers: seq<nat>, wild: bool)
    ensures ConcreteParts(WrittenParts(numbers, wild)) == SemVerText.Decimals(numbers)
    ensures |WrittenParts(numbers, wild)| == |numbers| + (if wild then 1 else 0)
  {
    ConcreteAreNumbers(SemVerText.Decimals(numbers), if wild then ["x"] else []);
  }

  lemma ZeroFillUnfolds(s: Scheme, raw: string, parts: seq<string>, exact: bool)
    requires raw != "" && s.normalize(raw) == raw && StarsToX(raw) == raw && Split(raw, '.') == parts
    ensures ZeroFill(s, raw, exact) == FillParts(s, raw, parts, ConcreteParts(parts), exact)
  {
  }

  lemma ZeroFillGives(
    s: Scheme, raw: string, parts: seq<string>, concrete: seq<string>, text: string, exact: bool, full: bool)
    requires raw != "" && s.normalize(raw) == raw && StarsToX(raw) == raw
    requires Split(raw, '.') == parts && ConcreteParts(parts) == concrete
    requires 1 <= |concrete| <= 3 && (full <==> |concrete| == 3 == |parts|)
    requires Join(FillTo3(concrete), '.') == text && (full ==> raw == text)
    requires text != "" && IsDigit(text[0]) && s.parses(text)
    ensures ZeroFill(s, raw, exact) == Some((text, exact && full))
  {
    ZeroFillUnfolds(s, raw, parts, exact);
    FillPartsGives(s, raw, parts, concrete, text, exact);
  }

  lemma {:induction false} FilledKeepsThree(numbers: seq<nat>)
    requires |numbers| == 3
    ensures Filled(numbers) == numbers
  {
  }

  lemma WrittenFacts(numbers: seq<nat>, wild: bool)
    requires 1 <= |numbers| <= 3
    ensures Written(numbers, wild) != "" && StarsToX(Written(numbers, wild)) == Written(numbers, wild)
    ensures Split(Written(numbers, wild), '.') == WrittenParts(numbers, wild)
    ensures ConcreteParts(WrittenParts(numbers, wild)) == SemVerText.Decimals(numbers)
    ensures |numbers| == 3 && !wild <==> |SemVerText.Decimals(numbers)| == 3 == |WrittenParts(numbers, wild)|
  {
    WrittenShape(numbers, wild);
    WrittenIsNormal(numbers, wild);
    ConcreteOfWritten(numbers, wild);
  }

  /** A scheme that leaves the text as it is and reads the filled version accepts it. */
  lemma ZeroFillOfWritten(s: Scheme, numbers: seq<nat>, wild: bool, exact: bool, raw: string, text: string)
    requires 1 <= |numbers| <= 3
    requires raw == Written(numbers, wild) && text == Written(Filled(numbers), false)
    requires s.normalize(raw) == raw && s.parses(text)
    ensures ZeroFill(s, raw, exact) == Some((text, exact && (|numbers| == 3 && !wild)))
  {
    WrittenFacts(numbers, wild);
    FilledText(numbers);
    WrittenShape(Filled(numbers), false);
    if |numbers| == 3 && !wild {
      FilledKeepsThree(numbers);
    }
    ZeroFillGives(
      s, raw, WrittenParts(numbers, wild), SemVerText.Decimals(numbers), text, exact, |numbers| == 3 && !wild);
  }

  lemma FilledReads(numbers: seq<nat>)
    requires |numbers| == 3
    ensures ReadSemVer(Npm, Written(numbers, false))
         == Some(SemVer.SemVer(numbers[0], numbers[1], numbers[2], [], [], None))
  {
    assert WrittenParts(numbers, false) == SemVerText.Decimals(numbers);
    WrittenShape(numbers, false);
    WrittenIsNormal(numbers, false);
    SemVerText.PlainReleaseReads(numbers);
  }

  /** `4`, `4.x` and `4.0` all stand for 4.0.0; only three full numbers pin. */
  lemma PartialVersionIsZeroFilled(pep: Pep440, numbers: seq<nat>, wild: bool, exact: bool)
    requires 1 <= |numbers| <= 3
    ensures
      var full := Filled(numbers);
      && ZeroFill(SchemeOf(Npm, pep), Written(numbers, wild), exact)
         == Some((Written(full, false), exact && (|numbers| == 3 && !wild)))
      && ReadSemVer(Npm, Written(full, false)) == Some(SemVer.SemVer(full[0], full[1], full[2], [], [], None))
  {
    FilledReads(Filled(numbers));
    WrittenIsNormal(numbers, wild);
    ZeroFillOfWritten(
      SchemeOf(Npm, pep), numbers, wild, exact, Written(numbers, wild), Written(Filled(numbers), false));
  }
}
