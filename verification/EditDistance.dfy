/**
  Bounded edit distance (app/core/supply_chain.py, `edit_distance`).

  The specification is the length of a shortest script of single-character edits, each applied
  at any position. The Levenshtein recurrence is proved to compute that length, and the two-row
  loop with its length cut-off and row-minimum exit is proved to compute the recurrence.
*/
module EditDistance {
  import opened Prelude

  // ---------- edit scripts ----------

  datatype Edit = Insert(at: nat, c: char) | Delete(at: nat) | Substitute(at: nat, c: char)

  predicate Applicable(e: Edit, s: string) {
    match e
    case Insert(at, _) => at <= |s|
    case Delete(at) => at < |s|
    case Substitute(at, _) => at < |s|
  }

  function Apply(e: Edit, s: string): string
    requires Applicable(e, s)
  {
    match e
    case Insert(at, c) => s[..at] + [c] + s[at..]
    case Delete(at) => s[..at] + s[at + 1..]
    case Substitute(at, c) => s[..at] + [c] + s[at + 1..]
  }

  /** Running `script` on `from` ends in `to`. */
  ghost predicate Rewrites(script: seq<Edit>, from: string, to: string)
    decreases |script|
  {
    if script == [] then from == to
    else Applicable(script[0], from) && Rewrites(script[1..], Apply(script[0], from), to)
  }

  /** `k` is the length of a shortest script from `a` to `b`. */
  ghost predicate ShortestScript(a: string, b: string, k: int) {
    && (exists script :: Rewrites(script, a, b) && |script| == k)
    && (forall script :: Rewrites(script, a, b) ==> k <= |script|)
  }

  // ---------- the recurrence ----------

  function Cost(x: char, y: char): nat {
    if x == y then 0 else 1
  }

  /** The Levenshtein recurrence, consuming both strings from the end. */
  function Distance(a: string, b: string): nat
    decreases |a| + |b|
  {
    if a == [] then |b|
    else if b == [] then |a|
    else
      var a', b' := a[..|a| - 1], b[..|b| - 1];
      Min(Min(Distance(a', b) + 1, Distance(a, b') + 1), Distance(a', b') + Cost(a[|a| - 1], b[|b| - 1]))
  }

  /** The recurrence with the last characters named. */
  lemma DistanceSnoc(a: string, x: char, b: string, y: char)
    ensures Distance(a + [x], b + [y])
         == Min(Min(Distance(a, b + [y]) + 1, Distance(a + [x], b) + 1), Distance(a, b) + Cost(x, y))
  {
    var s, t := a + [x], b + [y];
    assert s[..|s| - 1] == a && s[|s| - 1] == x;
    assert t[..|t| - 1] == b && t[|t| - 1] == y;
  }

  lemma SplitLast(s: string) returns (s': string, c: char)
    requires s != []
    ensures s == s' + [c] && |s'| == |s| - 1
  {
    s', c := s[..|s| - 1], s[|s| - 1];
  }

  lemma {:induction false} DistanceToSelf(a: string)
    ensures Distance(a, a) == 0
    decreases |a|
  {
    if a != [] {
      var a', x := SplitLast(a);
      DistanceToSelf(a');
      DistanceSnoc(a', x, a', x);
    }
  }

  lemma {:induction false} DistanceAtLeastLengthGap(a: string, b: string)
    ensures Distance(a, b) >= |a| - |b| && Distance(a, b) >= |b| - |a|
    decreases |a| + |b|
  {
    if a != [] && b != [] {
      DistanceAtLeastLengthGap(a[..|a| - 1], b);
      DistanceAtLeastLengthGap(a, b[..|b| - 1]);
      DistanceAtLeastLengthGap(a[..|a| - 1], b[..|b| - 1]);
    }
  }

  // ---------- every script is at least as long as the recurrence says ----------

  /** Adding or removing one last character moves the distance by at most one. */
  lemma {:induction false} AppendMovesByOne(u: string, c: char, t: string)
    ensures Distance(u + [c], t) <= Distance(u, t) + 1
    ensures Distance(u, t) <= Distance(u + [c], t) + 1
    decreases |t|
  {
    if t != [] {
      var t', y := SplitLast(t);
      AppendMovesByOne(u, c, t');
      DistanceSnoc(u, c, t', y);
      if u != [] {
        var u', x := SplitLast(u);
        DistanceSnoc(u', x, t', y);
      }
      assert Distance(u, t) <= Distance(u, t') + 1;
    }
  }

  /** One last character is missing, extra or different. */
  predicate LastApart(x: string, y: string) {
    || (x != [] && x[..|x| - 1] == y)
    || (y != [] && y[..|y| - 1] == x)
    || (x != [] && y != [] && x[..|x| - 1] == y[..|y| - 1])
  }

  lemma {:induction false} SwapLastMovesByOne(u: string, c: char, d: char, t: string)
    ensures Distance(u + [c], t) <= Distance(u + [d], t) + 1
    decreases |t|
  {
    if t != [] {
      var t', y := SplitLast(t);
      DistanceSnoc(u, c, t', y);
      DistanceSnoc(u, d, t', y);
      SwapLastMovesByOne(u, c, d, t');
    }
  }

  lemma Resnoc(s: string)
    requires s != []
    ensures s == s[..|s| - 1] + [s[|s| - 1]]
  {
  }

  lemma LastApartMovesByOne(x: string, y: string, t: string)
    requires LastApart(x, y)
    ensures Distance(x, t) <= Distance(y, t) + 1
  {
    if x != [] && x[..|x| - 1] == y {
      Resnoc(x);
      AppendMovesByOne(y, x[|x| - 1], t);
    } else if y != [] && y[..|y| - 1] == x {
      Resnoc(y);
      AppendMovesByOne(x, y[|y| - 1], t);
    } else {
      Resnoc(x);
      Resnoc(y);
      SwapLastMovesByOne(x[..|x| - 1], x[|x| - 1], y[|y| - 1], t);
    }
  }

  lemma DropLast(x: string, v: string)
    requires v != []
    ensures x + v != [] && (x + v)[..|x + v| - 1] == x + v[..|v| - 1] && (x + v)[|x + v| - 1] == v[|v| - 1]
  {
  }

  /** The one-step bound survives appending any common suffix. */
  lemma {:induction false} SuffixKeepsBound(x: string, y: string, v: string, t: string)
    requires LastApart(x, y)
    ensures Distance(x + v, t) <= Distance(y + v, t) + 1
    decreases |v| + |t|
  {
    if v == [] {
      LastApartMovesByOne(x, y, t);
      assert x + v == x && y + v == y;
    } else if t == [] {
      assert |x + v| <= |y + v| + 1;
    } else {
      SuffixKeepsBound(x, y, v[..|v| - 1], t);
      SuffixKeepsBound(x, y, v, t[..|t| - 1]);
      SuffixKeepsBound(x, y, v[..|v| - 1], t[..|t| - 1]);
      DropLast(x, v);
      DropLast(y, v);
    }
  }

  lemma AddedCharacter(u: string, c: char, v: string, t: string)
    ensures Distance(u + [c] + v, t) <= Distance(u + v, t) + 1
    ensures Distance(u + v, t) <= Distance(u + [c] + v, t) + 1
  {
    assert (u + [c])[..|u|] == u;
    SuffixKeepsBound(u + [c], u, v, t);
    SuffixKeepsBound(u, u + [c], v, t);
  }

  lemma ChangedCharacter(u: string, c: char, d: char, v: string, t: string)
    ensures Distance(u + [c] + v, t) <= Distance(u + [d] + v, t) + 1
  {
    assert (u + [c])[..|u|] == u == (u + [d])[..|u|];
    SuffixKeepsBound(u + [c], u + [d], v, t);
  }

  lemma OneEditMovesByOne(e: Edit, s: string, t: string)
    requires Applicable(e, s)
    ensures Distance(s, t) <= Distance(Apply(e, s), t) + 1
  {
    match e
    case Insert(at, c) =>
      assert s == s[..at] + s[at..];
      AddedCharacter(s[..at], c, s[at..], t);
    case Delete(at) =>
      assert s == s[..at] + [s[at]] + s[at + 1..];
      AddedCharacter(s[..at], s[at], s[at + 1..], t);
    case Substitute(at, c) =>
      assert s == s[..at] + [s[at]] + s[at + 1..];
      ChangedCharacter(s[..at], s[at], c, s[at + 1..], t);
  }

  lemma {:induction false} ScriptAtLeastDistance(script: seq<Edit>, a: string, b: string)
    requires Rewrites(script, a, b)
    ensures Distance(a, b) <= |script|
    decreases |script|
  {
    if script == [] {
      DistanceToSelf(a);
    } else {
      OneEditMovesByOne(script[0], a, b);
      ScriptAtLeastDistance(script[1..], Apply(script[0], a), b);
    }
  }

  // ---------- some script is as short as the recurrence says ----------

  lemma ApplyLifts(e: Edit, a: string, y: char)
    requires Applicable(e, a)
    ensures Applicable(e, a + [y]) && Apply(e, a + [y]) == Apply(e, a) + [y]
  {
    match e
    case Insert(at, c) => assert (a + [y])[at..] == a[at..] + [y];
    case Delete(at) => assert (a + [y])[at + 1..] == a[at + 1..] + [y];
    case Substitute(at, c) => assert (a + [y])[at + 1..] == a[at + 1..] + [y];
  }

  /** A script for two prefixes also works under a common last character. */
  lemma {:induction false} ScriptLifts(script: seq<Edit>, a: string, b: string, y: char)
    requires Rewrites(script, a, b)
    ensures Rewrites(script, a + [y], b + [y])
    decreases |script|
  {
    if script != [] {
      ApplyLifts(script[0], a, y);
      ScriptLifts(script[1..], Apply(script[0], a), b, y);
    }
  }

  lemma RewritesFirst(e: Edit, rest: seq<Edit>, a: string, b: string)
    requires Applicable(e, a) && Rewrites(rest, Apply(e, a), b)
    ensures Rewrites([e] + rest, a, b)
  {
    assert ([e] + rest)[1..] == rest;
  }

  /** Puts `y` at the end first, then rewrites what is in front of it. */
  lemma InsertThenRewrite(rest: seq<Edit>, a: string, b: string, y: char)
    requires Rewrites(rest, a, b)
    ensures Rewrites([Insert(|a|, y)] + rest, a, b + [y])
  {
    ScriptLifts(rest, a, b, y);
    assert Apply(Insert(|a|, y), a) == a + [y];
    RewritesFirst(Insert(|a|, y), rest, a, b + [y]);
  }

  lemma DeleteThenRewrite(rest: seq<Edit>, a: string, x: char, b: string)
    requires Rewrites(rest, a, b)
    ensures Rewrites([Delete(|a|)] + rest, a + [x], b)
  {
    assert Apply(Delete(|a|), a + [x]) == a;
    RewritesFirst(Delete(|a|), rest, a + [x], b);
  }

  lemma SubstituteThenRewrite(rest: seq<Edit>, a: string, x: char, b: string, y: char)
    requires Rewrites(rest, a, b)
    ensures Rewrites([Substitute(|a|, y)] + rest, a + [x], b + [y])
  {
    ScriptLifts(rest, a, b, y);
    assert Apply(Substitute(|a|, y), a + [x]) == a + [y];
    RewritesFirst(Substitute(|a|, y), rest, a + [x], b + [y]);
  }

  lemma {:induction false} BuildScript(a: string, b: string) returns (script: seq<Edit>)
    ensures Rewrites(script, a, b) && |script| == Distance(a, b)
    decreases |a| + |b|
  {
    if a == [] && b == [] {
      return [];
    }
    var rest;
    if a == [] || (b != [] && Distance(a, b) == Distance(a, b[..|b| - 1]) + 1) {
      var b', y := SplitLast(b);
      rest := BuildScript(a, b');
      InsertThenRewrite(rest, a, b', y);
      return [Insert(|a|, y)] + rest;
    }
    var a', x := SplitLast(a);
    if b == [] || Distance(a, b) == Distance(a', b) + 1 {
      rest := BuildScript(a', b);
      DeleteThenRewrite(rest, a', x, b);
      return [Delete(|a'|)] + rest;
    }
    var b', y := SplitLast(b);
    DistanceSnoc(a', x, b', y);
    rest := BuildScript(a', b');
    if x == y {
      ScriptLifts(rest, a', b', y);
      return rest;
    }
    SubstituteThenRewrite(rest, a', x, b', y);
    return [Substitute(|a'|, y)] + rest;
  }

  /** The recurrence is the length of a shortest edit script, for every pair of strings. */
  lemma DistanceIsShortestScript(a: string, b: string)
    ensures ShortestScript(a, b, Distance(a, b))
  {
    var script := BuildScript(a, b);
    forall other | Rewrites(other, a, b) ensures Distance(a, b) <= |other| {
      ScriptAtLeastDistance(other, a, b);
    }
  }

  // ---------- the bounded two-row loop ----------

  /** The table cell for the first `i` characters of `left` and the first `j` of `right`. */
  ghost function Cell(left: string, right: string, i: nat, j: nat): nat
    requires i <= |left| && j <= |right|
  {
    Distance(left[..i], right[..j])
  }

  lemma CellStep(left: string, right: string, i: nat, j: nat)
    requires i < |left| && j < |right|
    ensures Cell(left, right, i + 1, j + 1)
         == Min(Min(Cell(left, right, i, j + 1) + 1, Cell(left, right, i + 1, j) + 1),
                Cell(left, right, i, j) + Cost(left[i], right[j]))
  {
    assert left[..i + 1] == left[..i] + [left[i]] && right[..j + 1] == right[..j] + [right[j]];
    DistanceSnoc(left[..i], left[i], right[..j], right[j]);
  }

  /** No later cell is below the minimum of an earlier row: the cheapest path crosses every row. */
  lemma {:induction false} LaterCellAboveRow(
    left: string, right: string, row: nat, i: nat, j: nat) returns (column: nat)
    requires row <= i <= |left| && j <= |right|
    ensures column <= j && Cell(left, right, row, column) <= Cell(left, right, i, j)
    decreases i + j
  {
    if row == i {
      column := j;
    } else if j == 0 {
      column := 0;
    } else {
      CellStep(left, right, i - 1, j - 1);
      if Cell(left, right, i, j) == Cell(left, right, i - 1, j) + 1 {
        column := LaterCellAboveRow(left, right, row, i - 1, j);
      } else if Cell(left, right, i, j) == Cell(left, right, i, j - 1) + 1 {
        column := LaterCellAboveRow(left, right, row, i, j - 1);
      } else {
        column := LaterCellAboveRow(left, right, row, i - 1, j - 1);
      }
    }
  }

  /** What either kind of answer says about scripts. */
  lemma AnswerMeansScripts(left: string, right: string, limit: int, r: int)
    requires r == Distance(left, right) || (r == limit + 1 && Distance(left, right) > limit)
    ensures r <= limit ==> ShortestScript(left, right, r)
    ensures r > limit ==> forall script :: Rewrites(script, left, right) ==> |script| > limit
  {
    DistanceIsShortestScript(left, right);
  }

  /**
    The result is the shortest script length, unless that exceeds the limit; then it may
    instead be `limit + 1`. Holds for every limit, negative ones included.
  */
  method EditDistance(left: string, right: string, limit: int) returns (r: int)
    ensures r <= limit ==> ShortestScript(left, right, r)
    ensures r > limit ==> forall script :: Rewrites(script, left, right) ==> |script| > limit
    ensures r == Distance(left, right) || (r == limit + 1 && Distance(left, right) > limit)
  {
    if left == right {
      DistanceToSelf(left);
      AnswerMeansScripts(left, right, limit, 0);
      return 0;
    }
    if Max(|left| - |right|, |right| - |left|) > limit {
      DistanceAtLeastLengthGap(left, right);
      AnswerMeansScripts(left, right, limit, limit + 1);
      return limit + 1;
    }
    var previous := seq(|right| + 1, k requires 0 <= k => k);
    for i := 0 to |left|
      invariant |previous| == |right| + 1
      invariant forall j :: 0 <= j <= |right| ==> previous[j] == Cell(left, right, i, j)
    {
      var current := [i + 1];
      var best := i + 1;
      for j := 0 to |right|
        invariant |current| == j + 1
        invariant forall k :: 0 <= k <= j ==> current[k] == Cell(left, right, i + 1, k) && best <= current[k]
      {
        CellStep(left, right, i, j);
        var value := Min(Min(previous[j + 1] + 1, current[j] + 1), previous[j] + Cost(left[i], right[j]));
        current := current + [value];
        best := Min(best, value);
      }
      if best > limit {
        var column := LaterCellAboveRow(left, right, i + 1, |left|, |right|);
        assert left[..|left|] == left && right[..|right|] == right;
        assert best <= current[column];
        AnswerMeansScripts(left, right, limit, limit + 1);
        return limit + 1;
      }
      previous := current;
    }
    assert left[..|left|] == left && right[..|right|] == right;
    AnswerMeansScripts(left, right, limit, previous[|right|]);
    return previous[|right|];
  }
}
