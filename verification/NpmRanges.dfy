/**
  What an npm range means, next to the floor the program tests it at (app/core/manifests.py,
  `resolve_npm_floor`): caret, tilde, comparison, partial and hyphen ranges over releases of three
  numbers, written with the operator attached to its version.
*/
module NpmRanges {
  import opened Prelude
  import opened Text
  import opened Domain
  import opened Versions
  import opened Floors
  import SemVer

  // ---------- ranges ----------

  datatype Operator = Bare | Equal | Caret | Tilde | TildeArrow | AtLeast | Above | Below | AtMost

  datatype Comparator = Comparator(op: Operator, numbers: seq<nat>, wild: bool)

  /** `Anything` is `*`, `x`, `X` or an empty branch. */
  datatype RangeBranch =
    Both(comparators: seq<Comparator>) | Between(left: seq<nat>, right: seq<nat>) | Anything(sign: string)

  datatype Release = Release(major: nat, minor: nat, patch: nat)

  predicate OneToThree(numbers: seq<nat>) {
    1 <= |numbers| <= 3
  }

  predicate WellFormed(c: Comparator) {
    OneToThree(c.numbers) && (c.wild ==> |c.numbers| < 3)
  }

  predicate WellFormedBranch(b: RangeBranch) {
    match b
    case Both(cs) => cs != [] && forall i :: 0 <= i < |cs| ==> WellFormed(cs[i])
    case Between(left, right) => OneToThree(left) && OneToThree(right)
    case Anything(sign) => sign in {"", "*", "x", "X"}
  }

  // ---------- their meaning ----------

  predicate Less(a: Release, b: Release) {
    a.major < b.major
    || (a.major == b.major && (a.minor < b.minor || (a.minor == b.minor && a.patch < b.patch)))
  }

  function NumberAt(numbers: seq<nat>, i: nat): nat {
    if i < |numbers| then numbers[i] else 0
  }

  /** The first release a possibly partial version stands for. */
  function Start(numbers: seq<nat>): Release {
    Release(NumberAt(numbers, 0), NumberAt(numbers, 1), NumberAt(numbers, 2))
  }

  /** The first release past all of those it stands for. */
  function End(numbers: seq<nat>): Release
    requires OneToThree(numbers)
  {
    var v := Start(numbers);
    if |numbers| == 1 then Release(v.major + 1, 0, 0)
    else if |numbers| == 2 then Release(v.major, v.minor + 1, 0)
    else Release(v.major, v.minor, v.patch + 1)
  }

  /** A caret lets everything right of the first number that is not zero move. */
  function CaretEnd(numbers: seq<nat>): Release
    requires OneToThree(numbers)
  {
    var v := Start(numbers);
    if v.major > 0 || |numbers| == 1 then Release(v.major + 1, 0, 0)
    else if v.minor > 0 || |numbers| == 2 then Release(0, v.minor + 1, 0)
    else Release(0, 0, v.patch + 1)
  }

  /** A tilde lets the patch move, and the minor number if it is not written. */
  function TildeEnd(numbers: seq<nat>): Release
    requires OneToThree(numbers)
  {
    var v := Start(numbers);
    if |numbers| == 1 then Release(v.major + 1, 0, 0) else Release(v.major, v.minor + 1, 0)
  }

  predicate Within(low: Release, v: Release, high: Release) {
    !Less(v, low) && Less(v, high)
  }

  predicate Permits(c: Comparator, v: Release)
    requires WellFormed(c)
  {
    match c.op
    case Bare | Equal => Within(Start(c.numbers), v, End(c.numbers))
    case Caret => Within(Start(c.numbers), v, CaretEnd(c.numbers))
    case Tilde | TildeArrow => Within(Start(c.numbers), v, TildeEnd(c.numbers))
    case AtLeast => !Less(v, Start(c.numbers))
    case Above => !Less(v, End(c.numbers))
    case Below => Less(v, Start(c.numbers))
    case AtMost => Less(v, End(c.numbers))
  }

  predicate BranchPermits(b: RangeBranch, v: Release)
    requires WellFormedBranch(b)
  {
    match b
    case Both(cs) => forall i :: 0 <= i < |cs| ==> Permits(cs[i], v)
    case Between(left, right) => Within(Start(left), v, End(right))
    case Anything(_) => true
  }

  predicate WellFormedRange(range: seq<RangeBranch>) {
    forall b :: b in range ==> WellFormedBranch(b)
  }

  ghost predicate RangePermits(range: seq<RangeBranch>, v: Release)
    requires WellFormedRange(range)
  {
    exists b :: b in range && BranchPermits(b, v)
  }

  // ---------- how they are written ----------

  function Sign(op: Operator): string {
    match op
    case Bare => ""
    case Equal => "="
    case Caret => "^"
    case Tilde => "~"
    case TildeArrow => "~>"
    case AtLeast => ">="
    case Above => ">"
    case Below => "<"
    case AtMost => "<="
  }

  function Token(c: Comparator): string {
    Sign(c.op) + Written(c.numbers, c.wild)
  }

  function Tokens(cs: seq<Comparator>): (r: seq<string>)
    ensures |r| == |cs| && forall i :: 0 <= i < |cs| ==> r[i] == Token(cs[i])
  {
    seq(|cs|, i requires 0 <= i < |cs| => Token(cs[i]))
  }

  function WrittenBranch(b: RangeBranch): Branch {
    match b
    case Both(cs) => Comparators(Tokens(cs))
    case Between(left, _) => Hyphen(Written(left, false))
    case Anything(sign) => Comparators(if sign == "" then [] else [sign])
  }

  function WrittenRange(range: seq<RangeBranch>): (r: seq<Branch>)
    ensures |r| == |range| && forall i :: 0 <= i < |range| ==> r[i] == WrittenBranch(range[i])
  {
    seq(|range|, i requires 0 <= i < |range| => WrittenBranch(range[i]))
  }

  function Version(v: Release): string {
    Written([v.major, v.minor, v.patch], false)
  }

  // ---------- reading them ----------

  predicate HasLowerBound(op: Operator) {
    op != Below && op != AtMost
  }

  lemma FilledIsStart(numbers: seq<nat>)
    requires OneToThree(numbers)
    ensures Written(Filled(numbers), false) == Version(Start(numbers))
  {
    var v := Start(numbers);
    if |numbers| == 1 {
      assert Filled(numbers) == Filled(numbers + [0]) == Filled(numbers + [0] + [0]);
      assert numbers + [0] + [0] == [v.major, v.minor, v.patch];
    } else if |numbers| == 2 {
      assert numbers + [0] == [v.major, v.minor, v.patch];
    } else {
      assert numbers == [v.major, v.minor, v.patch];
    }
  }

  /** Floors of partial versions, in terms of what they stand for. */
  lemma ZeroFillIsStart(pep: Pep440, numbers: seq<nat>, wild: bool, exact: bool)
    requires OneToThree(numbers)
    ensures ZeroFill(SchemeOf(Npm, pep), Written(numbers, wild), exact)
         == Some((Version(Start(numbers)), exact && |numbers| == 3 && !wild))
  {
    PartialVersionIsZeroFilled(pep, numbers, wild, exact);
    FilledIsStart(numbers);
  }

  /** What a token with an operator starts with. */
  lemma SignRemoved(op: Operator, written: string)
    requires written != "" && IsDigit(written[0])
    ensures
      var token := Sign(op) + written;
      && token != "" && token != "*" && token != "x" && token != "X"
      && token[|Sign(op)|..] == written
      && (Sign(op) == "" ==> token == written)
      && (IsDigit(token[0]) <==> op == Bare)
      && (StartsWith(token, "^") <==> op == Caret)
      && (StartsWith(token, "~") <==> op == Tilde || op == TildeArrow)
      && (StartsWith(token, "~>") <==> op == TildeArrow)
      && (StartsWith(token, "=") <==> op == Equal)
      && (StartsWith(token, ">") <==> op == Above || op == AtLeast)
      && (StartsWith(token, ">=") <==> op == AtLeast)
      && (StartsWith(token, "<") <==> op == Below || op == AtMost)
  {
    var token := Sign(op) + written;
    assert token[|Sign(op)|] == written[0];
    if Sign(op) == "" {
      assert token == written;
    }
  }

  lemma AngleStripped(written: string)
    requires written != "" && IsDigit(written[0])
    ensures StripAngles(">" + written) == written
  {
    assert (">" + written)[1..] == written;
  }

  /** The operator is recognised, whatever number follows it. */
  lemma SignedFloor(s: Scheme, op: Operator, written: string)
    requires written != "" && IsDigit(written[0])
    ensures TokenFloor(s, Sign(op) + written) ==
      if HasLowerBound(op) then ZeroFill(s, written, op == Bare || op == Equal) else None
  {
    SignRemoved(op, written);
    var token := Sign(op) + written;
    match op
    case Bare => assert token == written;
    case Equal => assert token[1..] == written;
    case Caret => assert token[1..] == written;
    case Tilde => assert token[1..] == written;
    case TildeArrow => assert token[2..] == written;
    case AtLeast => assert token[2..] == written;
    case Above => AngleStripped(written);
    case Below =>
    case AtMost =>
  }

  /** One comparator's floor is the first release of the version it names. */
  lemma TokenFloorIsStart(pep: Pep440, c: Comparator)
    requires WellFormed(c)
    ensures TokenFloor(SchemeOf(Npm, pep), Token(c)) ==
      if !HasLowerBound(c.op) then None
      else Some((Version(Start(c.numbers)), (c.op == Bare || c.op == Equal) && |c.numbers| == 3))
  {
    WrittenShape(c.numbers, c.wild);
    SignedFloor(SchemeOf(Npm, pep), c.op, Written(c.numbers, c.wild));
    ZeroFillIsStart(pep, c.numbers, c.wild, c.op == Bare || c.op == Equal);
  }

  lemma {:induction false} StartReads(v: Release, pep: Pep440)
    ensures ReadSemVer(Npm, Version(v)) == Some(SemVer.SemVer(v.major, v.minor, v.patch, [], [], None))
    ensures SchemeOf(Npm, pep).parses(Version(v))
  {
    FilledReads([v.major, v.minor, v.patch]);
  }

  /** Comparing the texts of two releases compares their numbers. */
  lemma VersionsCompare(pep: Pep440, v: Release, w: Release)
    ensures
      var c := SchemeOf(Npm, pep).compare(Version(v), Version(w));
      c.Some? && (c.value < 0 <==> Less(v, w)) && (c.value > 0 <==> Less(w, v))
  {
    StartReads(v, pep);
    StartReads(w, pep);
    SemVer.AgreesWithItem11(
      SemVer.SemVer(v.major, v.minor, v.patch, [], [], None), SemVer.SemVer(w.major, w.minor, w.patch, [], [], None));
  }

  // ---------- where the program starts a branch ----------

  /** In a set of several comparators, those whose floor is looked for. */
  predicate IsConsidered(op: Operator) {
    op == Bare || op == Caret || op == Tilde || op == TildeArrow || op == AtLeast
  }

  function FirstConsidered(cs: seq<Comparator>): Option<Comparator> {
    if cs == [] then None else if IsConsidered(cs[0].op) then Some(cs[0]) else FirstConsidered(cs[1..])
  }

  /** A single comparator starts at its own version; of several the first that is considered decides. */
  function BranchStart(b: RangeBranch): Option<Release> {
    match b
    case Both(cs) =>
      var decides :=
        if |cs| != 1 then FirstConsidered(cs)
        else if HasLowerBound(cs[0].op) then Some(cs[0])
        else None;
      if decides.Some? then Some(Start(decides.value.numbers)) else None
    case Between(left, _) => Some(Start(left))
    case Anything(_) => None
  }

  /** The branch has a lower bound that is looked for. */
  predicate IsBounded(b: RangeBranch) {
    match b
    case Both(cs) =>
      if |cs| == 1 then HasLowerBound(cs[0].op) else exists i :: 0 <= i < |cs| && IsConsidered(cs[i].op)
    case Between(_, _) => true
    case Anything(_) => false
  }

  lemma {:induction false} FirstConsideredIff(cs: seq<Comparator>)
    ensures FirstConsidered(cs).Some? <==> exists i :: 0 <= i < |cs| && IsConsidered(cs[i].op)
    ensures FirstConsidered(cs).Some? ==>
      IsConsidered(FirstConsidered(cs).value.op) && exists i :: 0 <= i < |cs| && cs[i] == FirstConsidered(cs).value
    decreases |cs|
  {
    if cs != [] {
      FirstConsideredIff(cs[1..]);
      assert forall i :: 0 < i < |cs| ==> cs[i] == cs[1..][i - 1];
      assert forall i :: 0 <= i < |cs[1..]| ==> cs[1..][i] == cs[i + 1];
    }
  }

  lemma BoundedIffStart(b: RangeBranch)
    ensures IsBounded(b) <==> BranchStart(b).Some?
  {
    if b.Both? {
      FirstConsideredIff(b.comparators);
    }
  }

  lemma ConsideredToken(c: Comparator)
    requires WellFormed(c)
    ensures Considered(Token(c)) <==> IsConsidered(c.op)
  {
    WrittenShape(c.numbers, c.wild);
    SignRemoved(c.op, Written(c.numbers, c.wild));
  }

  lemma {:induction false} FirstFloorIsStart(pep: Pep440, cs: seq<Comparator>)
    requires forall i :: 0 <= i < |cs| ==> WellFormed(cs[i])
    ensures FirstFloor(SchemeOf(Npm, pep), Tokens(cs)) ==
      match FirstConsidered(cs)
      case None => None
      case Some(c) => Some((Version(Start(c.numbers)), false))
    decreases |cs|
  {
    if cs != [] {
      TokenFloorIsStart(pep, cs[0]);
      ConsideredToken(cs[0]);
      FirstFloorIsStart(pep, cs[1..]);
      assert Tokens(cs)[1..] == Tokens(cs[1..]);
    }
  }

  lemma StripWritten(numbers: seq<nat>)
    requires OneToThree(numbers)
    ensures Strip(Written(numbers, false)) == Written(numbers, false)
  {
    var raw := Written(numbers, false);
    WrittenShape(numbers, false);
    StripDrops("", raw, "");
    assert "" + raw + "" == raw;
  }

  lemma BranchFloorIsStart(pep: Pep440, b: RangeBranch)
    requires WellFormedBranch(b)
    ensures
      var floor := BranchFloor(SchemeOf(Npm, pep), WrittenBranch(b));
      && (floor.Some? <==> BranchStart(b).Some?)
      && (floor.Some? ==> floor.value.0 == Version(BranchStart(b).value))
  {
    match b
    case Both(cs) =>
      FirstFloorIsStart(pep, cs);
      TokenFloorIsStart(pep, cs[0]);
    case Between(left, _) =>
      StripWritten(left);
      ZeroFillIsStart(pep, left, false, false);
    case Anything(_) =>
  }

  /** A branch is given no floor exactly when it has no lower bound that is looked for. */
  lemma NoFloorIffUnbounded(pep: Pep440, b: RangeBranch)
    requires WellFormedBranch(b)
    ensures BranchFloor(SchemeOf(Npm, pep), WrittenBranch(b)).None? <==> !IsBounded(b)
  {
    BranchFloorIsStart(pep, b);
    BoundedIffStart(b);
  }

  // ---------- the floor is the lowest start ----------

  lemma NoStartIsLower(pep: Pep440, range: seq<RangeBranch>, r: Floor, v: Release, b: RangeBranch)
    requires WellFormedRange(range) && b in range && BranchStart(b).Some?
    requires IsNpmFloor(SchemeOf(Npm, pep), WrittenRange(range), Some(r)) && r.0 == Version(v)
    ensures !Less(BranchStart(b).value, v)
  {
    var s, written := SchemeOf(Npm, pep), WrittenRange(range);
    var k :| 0 <= k < |range| && range[k] == b;
    assert written[k] == WrittenBranch(b);
    BranchFloorIsStart(pep, b);
    var g := BranchFloor(s, WrittenBranch(b)).value;
    BranchFloorsMembers(s, written, g);
    assert NotAbove(s, r, g);
    VersionsCompare(pep, v, BranchStart(b).value);
  }

  /** The floor is where some branch starts, and no branch starts lower. */
  lemma FloorIsAStart(pep: Pep440, range: seq<RangeBranch>, r: Floor) returns (b: RangeBranch, v: Release)
    requires WellFormedRange(range)
    requires IsNpmFloor(SchemeOf(Npm, pep), WrittenRange(range), Some(r))
    ensures b in range && BranchStart(b) == Some(v) && r.0 == Version(v)
    ensures forall other :: other in range && BranchStart(other).Some? ==> !Less(BranchStart(other).value, v)
  {
    var s, written := SchemeOf(Npm, pep), WrittenRange(range);
    var f :| f in BranchFloors(s, written) && f.0 == r.0;
    BranchFloorsMembers(s, written, f);
    var w :| w in written && BranchFloor(s, w) == Some(f);
    var i :| 0 <= i < |written| && written[i] == w;
    b := range[i];
    BranchFloorIsStart(pep, b);
    v := BranchStart(b).value;
    forall other | other in range && BranchStart(other).Some? ensures !Less(BranchStart(other).value, v) {
      NoStartIsLower(pep, range, r, v, other);
    }
  }

  lemma BoundedHasFloor(pep: Pep440, range: seq<RangeBranch>, r: Option<Floor>, b: RangeBranch)
    requires WellFormedRange(range) && b in range
    requires IsNpmFloor(SchemeOf(Npm, pep), WrittenRange(range), r)
    ensures BranchStart(b).Some? ==> r.Some?
  {
    var s, written := SchemeOf(Npm, pep), WrittenRange(range);
    var k :| 0 <= k < |range| && range[k] == b;
    assert written[k] == WrittenBranch(b);
    BranchFloorIsStart(pep, b);
    if BranchStart(b).Some? {
      BranchFloorsMembers(s, written, BranchFloor(s, WrittenBranch(b)).value);
    }
  }

  // ---------- what the floor promises ----------

  lemma PermittedIsAtOrAboveBranchStart(b: RangeBranch, v: Release)
    requires WellFormedBranch(b) && BranchStart(b).Some? && BranchPermits(b, v)
    ensures !Less(v, BranchStart(b).value)
  {
    if b.Both? {
      var cs := b.comparators;
      FirstConsideredIff(cs);
      var c := if |cs| != 1 then FirstConsidered(cs).value else cs[0];
      var i :| 0 <= i < |cs| && cs[i] == c;
    }
  }

  /** With every branch bounded, the floor is at or below every release the range permits. */
  lemma FloorIsBelowEveryPermitted(pep: Pep440, range: seq<RangeBranch>, r: Option<Floor>, v: Release)
    requires WellFormedRange(range) && forall b :: b in range ==> IsBounded(b)
    ensures IsNpmFloor(SchemeOf(Npm, pep), WrittenRange(range), r) && RangePermits(range, v) ==>
      && r.Some?
      && SchemeOf(Npm, pep).compare(r.value.0, Version(v)).Some?
      && SchemeOf(Npm, pep).compare(r.value.0, Version(v)).value <= 0
  {
    if IsNpmFloor(SchemeOf(Npm, pep), WrittenRange(range), r) && RangePermits(range, v) {
      var b :| b in range && BranchPermits(b, v);
      BoundedIffStart(b);
      BoundedHasFloor(pep, range, r, b);
      var first, low := FloorIsAStart(pep, range, r.value);
      PermittedIsAtOrAboveBranchStart(b, v);
      VersionsCompare(pep, low, v);
    }
  }

  // ---------- when the floor is the lowest permitted release ----------

  ghost predicate LowestPermitted(range: seq<RangeBranch>, v: Release)
    requires WellFormedRange(range)
  {
    RangePermits(range, v) && forall w :: RangePermits(range, w) ==> !Less(w, v)
  }

  /** Some branch permits `v`, and is either one that starts there or one without a floor. */
  predicate PermittedAtFloor(range: seq<RangeBranch>, v: Release)
    requires WellFormedRange(range)
  {
    exists b :: b in range && (BranchStart(b) == Some(v) || BranchStart(b).None?) && BranchPermits(b, v)
  }

  /** The lowest release a comparator could permit. */
  function LowEnd(c: Comparator): Release
    requires WellFormed(c)
  {
    if !HasLowerBound(c.op) then Release(0, 0, 0) else if c.op == Above then End(c.numbers) else Start(c.numbers)
  }

  function HighestLowEnd(cs: seq<Comparator>): Release
    requires forall i :: 0 <= i < |cs| ==> WellFormed(cs[i])
  {
    if cs == [] then Release(0, 0, 0)
    else
      var rest := HighestLowEnd(cs[1..]);
      if Less(rest, LowEnd(cs[0])) then LowEnd(cs[0]) else rest
  }

  /** Where a branch's releases would have to begin. */
  function Beginning(b: RangeBranch): Release
    requires WellFormedBranch(b)
  {
    match b
    case Both(cs) => HighestLowEnd(cs)
    case Between(left, _) => Start(left)
    case Anything(_) => Release(0, 0, 0)
  }

  /** The lowest release a branch permits, if it permits any. */
  function Least(b: RangeBranch): Option<Release>
    requires WellFormedBranch(b)
  {
    if BranchPermits(b, Beginning(b)) then Some(Beginning(b)) else None
  }

  /** What a comparator permits begins at its low end and has no gap. */
  lemma PermitsFromLowEnd(c: Comparator, v: Release, w: Release)
    requires WellFormed(c) && Permits(c, w)
    ensures !Less(w, LowEnd(c))
    ensures !Less(v, LowEnd(c)) && !Less(w, v) ==> Permits(c, v)
  {
  }

  lemma {:induction false} HighestLowEndIsHighest(cs: seq<Comparator>)
    requires forall i :: 0 <= i < |cs| ==> WellFormed(cs[i])
    ensures forall i :: 0 <= i < |cs| ==> !Less(HighestLowEnd(cs), LowEnd(cs[i]))
    ensures HighestLowEnd(cs) == Release(0, 0, 0) || exists i :: 0 <= i < |cs| && HighestLowEnd(cs) == LowEnd(cs[i])
    decreases |cs|
  {
    if cs != [] {
      HighestLowEndIsHighest(cs[1..]);
      assert forall i :: 0 < i < |cs| ==> cs[i] == cs[1..][i - 1];
      assert forall i :: 0 <= i < |cs[1..]| ==> cs[1..][i] == cs[i + 1];
    }
  }

  lemma BothBeginsThere(cs: seq<Comparator>, w: Release)
    requires forall i :: 0 <= i < |cs| ==> WellFormed(cs[i]) && Permits(cs[i], w)
    ensures !Less(w, HighestLowEnd(cs))
    ensures forall i :: 0 <= i < |cs| ==> Permits(cs[i], HighestLowEnd(cs))
  {
    HighestLowEndIsHighest(cs);
    forall i | 0 <= i < |cs| ensures !Less(w, LowEnd(cs[i])) {
      PermitsFromLowEnd(cs[i], w, w);
    }
    forall i | 0 <= i < |cs| ensures Permits(cs[i], HighestLowEnd(cs)) {
      PermitsFromLowEnd(cs[i], HighestLowEnd(cs), w);
    }
  }

  /** The computed least release is permitted, and nothing permitted lies below it. */
  lemma LeastIsLeast(b: RangeBranch, w: Release)
    requires WellFormedBranch(b)
    ensures Least(b).Some? ==> BranchPermits(b, Least(b).value)
    ensures BranchPermits(b, w) ==> Least(b).Some? && !Less(w, Least(b).value)
  {
    if BranchPermits(b, w) && b.Both? {
      BothBeginsThere(b.comparators, w);
    }
  }

  /** A branch that is given no floor begins lower. */
  predicate UnboundedGoesLower(range: seq<RangeBranch>, v: Release)
    requires WellFormedRange(range)
  {
    exists b :: b in range && BranchStart(b).None? && Least(b).Some? && Less(Least(b).value, v)
  }

  /** `v` is the floor's release: the start of some branch, and no start is lower. */
  predicate LowestStart(range: seq<RangeBranch>, v: Release) {
    && (exists b :: b in range && BranchStart(b) == Some(v))
    && (forall b :: b in range && BranchStart(b).Some? ==> !Less(BranchStart(b).value, v))
  }

  lemma StartedIsAtOrAbove(range: seq<RangeBranch>, v: Release, b: RangeBranch, w: Release)
    requires WellFormedRange(range) && LowestStart(range, v) && b in range
    requires BranchStart(b).Some? && BranchPermits(b, w)
    ensures !Less(w, v) && (w == v ==> BranchStart(b) == Some(v))
  {
    PermittedIsAtOrAboveBranchStart(b, w);
  }

  lemma LowestStartIff(range: seq<RangeBranch>, v: Release)
    requires WellFormedRange(range) && LowestStart(range, v)
    ensures RangePermits(range, v) <==> PermittedAtFloor(range, v)
    ensures (exists w :: RangePermits(range, w) && Less(w, v)) <==> UnboundedGoesLower(range, v)
  {
    if b :| b in range && BranchPermits(b, v) {
      if BranchStart(b).Some? {
        StartedIsAtOrAbove(range, v, b, v);
      }
    }
    if w :| RangePermits(range, w) && Less(w, v) {
      var b :| b in range && BranchPermits(b, w);
      LeastIsLeast(b, w);
      if BranchStart(b).Some? {
        StartedIsAtOrAbove(range, v, b, w);
      }
    }
    if b :| b in range && BranchStart(b).None? && Least(b).Some? && Less(Least(b).value, v) {
      LeastIsLeast(b, v);
      assert RangePermits(range, Least(b).value);
    }
  }

  /**
    For every range: the floor is the lowest release the range permits exactly when some branch
    that starts there permits its own start, or a branch without a floor permits it, and no branch
    without a floor begins lower. All of it can be computed from the range.
  */
  lemma FloorIsLowestPermittedIff(pep: Pep440, range: seq<RangeBranch>, r: Floor, v: Release)
    requires WellFormedRange(range)
    ensures IsNpmFloor(SchemeOf(Npm, pep), WrittenRange(range), Some(r)) && r.0 == Version(v) ==>
      (LowestPermitted(range, v) <==> PermittedAtFloor(range, v) && !UnboundedGoesLower(range, v))
  {
    if IsNpmFloor(SchemeOf(Npm, pep), WrittenRange(range), Some(r)) && r.0 == Version(v) {
      var b, low := FloorIsAStart(pep, range, r);
      SameText(pep, v, low);
      LowestStartIff(range, v);
    }
  }

  /** With every branch bounded, only the branches that start at the floor matter. */
  lemma BoundedFloorIsLowestIff(pep: Pep440, range: seq<RangeBranch>, r: Floor, v: Release)
    requires WellFormedRange(range) && forall b :: b in range ==> IsBounded(b)
    ensures IsNpmFloor(SchemeOf(Npm, pep), WrittenRange(range), Some(r)) && r.0 == Version(v) ==>
      (LowestPermitted(range, v) <==> exists b :: b in range && BranchStart(b) == Some(v) && BranchPermits(b, v))
  {
    FloorIsLowestPermittedIff(pep, range, r, v);
    forall b | b in range ensures BranchStart(b).Some? {
      BoundedIffStart(b);
    }
  }

  /** A branch of one comparator with a lower bound, or a hyphen range. */
  predicate IsSimple(b: RangeBranch) {
    match b
    case Both(cs) => |cs| == 1 && HasLowerBound(cs[0].op)
    case Between(_, _) => true
    case Anything(_) => false
  }

  /** The branch begins at its own start: it is not `>`, and a hyphen range is the right way round. */
  predicate BeginsAtStart(b: RangeBranch)
    requires WellFormedBranch(b)
  {
    match b
    case Both(cs) => cs[0].op != Above
    case Between(left, right) => Less(Start(left), End(right))
    case Anything(_) => true
  }

  /**
    For unions of single comparators and hyphen ranges: exactly when a branch that starts at the
    floor is not a `>` and not an empty hyphen range.
  */
  lemma SimpleFloorIsLowestIff(pep: Pep440, range: seq<RangeBranch>, r: Floor, v: Release)
    requires WellFormedRange(range) && forall b :: b in range ==> IsSimple(b)
    ensures IsNpmFloor(SchemeOf(Npm, pep), WrittenRange(range), Some(r)) && r.0 == Version(v) ==>
      (LowestPermitted(range, v) <==> exists b :: b in range && BranchStart(b) == Some(v) && BeginsAtStart(b))
  {
    forall b | b in range
      ensures IsBounded(b) && BranchStart(b).Some? && (BranchPermits(b, BranchStart(b).value) <==> BeginsAtStart(b))
    {
    }
    BoundedFloorIsLowestIff(pep, range, r, v);
  }

  lemma SameText(pep: Pep440, v: Release, w: Release)
    requires Version(v) == Version(w)
    ensures v == w
  {
    StartReads(v, pep);
    StartReads(w, pep);
  }

  // ---------- ranges where it is not ----------

  lemma FloorOfOneBranch(pep: Pep440, b: RangeBranch, r: Option<Floor>)
    requires WellFormedBranch(b)
    ensures IsNpmFloor(SchemeOf(Npm, pep), WrittenRange([b]), r) ==>
      && (r.Some? <==> BranchStart(b).Some?)
      && (r.Some? ==> r.value.0 == Version(BranchStart(b).value))
  {
    if IsNpmFloor(SchemeOf(Npm, pep), WrittenRange([b]), r) {
      BoundedHasFloor(pep, [b], r, b);
      if r.Some? {
        var first, v := FloorIsAStart(pep, [b], r.value);
      }
    }
  }

  lemma OneBranchLowest(b: RangeBranch, v: Release)
    requires WellFormedBranch(b) && BranchPermits(b, v)
    requires forall w :: BranchPermits(b, w) ==> !Less(w, v)
    ensures LowestPermitted([b], v)
  {
    assert b in [b];
  }

  function FromOneAndTwo(): (b: RangeBranch)
    ensures WellFormedBranch(b)
  {
    Both([Comparator(AtLeast, [1, 0, 0], false), Comparator(AtLeast, [2, 0, 0], false)])
  }

  lemma FromOneAndTwoMeans(w: Release)
    ensures BranchPermits(FromOneAndTwo(), w) <==> !Less(w, Release(2, 0, 0))
    ensures BranchStart(FromOneAndTwo()) == Some(Release(1, 0, 0))
  {
    var cs := FromOneAndTwo().comparators;
    assert BranchPermits(FromOneAndTwo(), w) <==> Permits(cs[0], w) && Permits(cs[1], w);
  }

  /** `>=1.0.0 >=2.0.0`: the floor is 1.0.0, which is not permitted; the lowest permitted release is 2.0.0. */
  lemma FirstBoundNeedNotBeHighest(pep: Pep440, r: Option<Floor>)
    ensures IsNpmFloor(SchemeOf(Npm, pep), WrittenRange([FromOneAndTwo()]), r) ==>
      r.Some? && r.value.0 == Version(Release(1, 0, 0))
    ensures LowestPermitted([FromOneAndTwo()], Release(2, 0, 0))
  {
    forall w ensures BranchPermits(FromOneAndTwo(), w) <==> !Less(w, Release(2, 0, 0)) {
      FromOneAndTwoMeans(w);
    }
    FromOneAndTwoMeans(Release(0, 0, 0));
    FloorOfOneBranch(pep, FromOneAndTwo(), r);
    OneBranchLowest(FromOneAndTwo(), Release(2, 0, 0));
  }

  function AfterOneTwoThree(): (b: RangeBranch)
    ensures WellFormedBranch(b)
  {
    Both([Comparator(Above, [1, 2, 3], false)])
  }

  lemma AfterOneTwoThreeMeans(w: Release)
    ensures BranchPermits(AfterOneTwoThree(), w) <==> !Less(w, Release(1, 2, 4))
    ensures BranchStart(AfterOneTwoThree()) == Some(Release(1, 2, 3))
  {
    var cs := AfterOneTwoThree().comparators;
    assert BranchPermits(AfterOneTwoThree(), w) <==> Permits(cs[0], w);
  }

  /** `>1.2.3`: the floor is the excluded 1.2.3, the lowest permitted release 1.2.4. */
  lemma ExcludedBoundIsTheFloor(pep: Pep440, r: Option<Floor>)
    ensures IsNpmFloor(SchemeOf(Npm, pep), WrittenRange([AfterOneTwoThree()]), r) ==>
      r.Some? && r.value.0 == Version(Release(1, 2, 3))
    ensures LowestPermitted([AfterOneTwoThree()], Release(1, 2, 4))
  {
    forall w ensures BranchPermits(AfterOneTwoThree(), w) <==> !Less(w, Release(1, 2, 4)) {
      AfterOneTwoThreeMeans(w);
    }
    AfterOneTwoThreeMeans(Release(0, 0, 0));
    FloorOfOneBranch(pep, AfterOneTwoThree(), r);
    OneBranchLowest(AfterOneTwoThree(), Release(1, 2, 4));
  }

  function BetweenOneAndTwo(): (b: RangeBranch)
    ensures WellFormedBranch(b)
  {
    Both([Comparator(Above, [1, 2, 3], false), Comparator(Below, [2, 0, 0], false)])
  }

  lemma BetweenOneAndTwoMeans(w: Release)
    ensures BranchPermits(BetweenOneAndTwo(), w) <==> Within(Release(1, 2, 4), w, Release(2, 0, 0))
    ensures BranchStart(BetweenOneAndTwo()) == None
  {
    var cs := BetweenOneAndTwo().comparators;
    assert BranchPermits(BetweenOneAndTwo(), w) <==> Permits(cs[0], w) && Permits(cs[1], w);
    assert cs[1..] == [cs[1]] && cs[1..][1..] == [];
    assert FirstConsidered(cs) == FirstConsidered(cs[1..]) == FirstConsidered(cs[1..][1..]);
  }

  lemma BetweenOneAndTwoLowest()
    ensures LowestPermitted([BetweenOneAndTwo()], Release(1, 2, 4))
  {
    forall w ensures BranchPermits(BetweenOneAndTwo(), w) <==> Within(Release(1, 2, 4), w, Release(2, 0, 0)) {
      BetweenOneAndTwoMeans(w);
    }
    OneBranchLowest(BetweenOneAndTwo(), Release(1, 2, 4));
  }

  /** `>1.2.3 <2.0.0`: no floor at all, though the lowest permitted release is 1.2.4. */
  lemma ExcludedBoundInASetIsNoFloor(pep: Pep440, r: Option<Floor>)
    ensures IsNpmFloor(SchemeOf(Npm, pep), WrittenRange([BetweenOneAndTwo()]), r) ==>
      r == None
    ensures LowestPermitted([BetweenOneAndTwo()], Release(1, 2, 4))
  {
    BetweenOneAndTwoLowest();
    BetweenOneAndTwoMeans(Release(0, 0, 0));
    FloorOfOneBranch(pep, BetweenOneAndTwo(), r);
  }
}
