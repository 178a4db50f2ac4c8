/**
  What a PEP 440 specifier permits, next to the floor the program tests it at
  (app/core/manifests.py, `resolve_pypi_floor`).
*/
module PypiSpecifiers {
  import opened Prelude
  import opened Text
  import opened Versions
  import opened Floors

  // ---------- what each kind of clause contributes ----------

  /** `==` and `===` without a star name one version. */
  predicate NamesOneVersion(c: Clause) {
    c.operator in {"==", "==="} && forall i :: 0 <= i < |c.version| ==> c.version[i] != '*'
  }

  /** The first clause that names one version is the answer, exact, whatever else is asked. */
  lemma FirstPinWins(s: Scheme, clauses: seq<Clause>, i: nat, r: Option<Floor>)
    requires IsPypiFloor(s, clauses, r) && i < |clauses| && NamesOneVersion(clauses[i])
    requires forall k :: 0 <= k < i ==> !NamesOneVersion(clauses[k])
    ensures r == Some((clauses[i].version, true))
  {
    forall k | 0 <= k < |clauses| ensures Pins(clauses[k]) <==> NamesOneVersion(clauses[k]) {
    }
    assert HasPin(clauses);
  }

  /** Without one, the answer is never exact. */
  lemma NoPinIsNotExact(s: Scheme, clauses: seq<Clause>, r: Option<Floor>)
    requires IsPypiFloor(s, clauses, r) && forall c :: c in clauses ==> !NamesOneVersion(c)
    ensures r.Some? ==> !r.value.1
  {
    forall k | 0 <= k < |clauses| ensures !Pins(clauses[k]) {
      assert clauses[k] in clauses;
    }
  }

  lemma {:induction false} DotStarDropped(base: string)
    requires '*' !in base
    ensures DropDotStars(base + ".*") == base
    decreases |base|
  {
    var s := base + ".*";
    if base != "" {
      assert s[1..] == base[1..] + ".*" && s[0] == base[0];
      assert |base| > 1 ==> s[1] == base[1];
      DotStarDropped(base[1..]);
    } else {
      assert s == ".*" && s[2..] == "";
    }
  }

  lemma {:induction false} NoStarToDrop(s: string)
    requires '*' !in s
    ensures Without(s, "*") == s
    decreases |s|
  {
    if s != "" {
      NoStarToDrop(s[1..]);
    }
  }

  /** `>=`, `~=` and `>` bound from below by their own version, `==1.4.*` by 1.4, and nothing else does. */
  lemma BoundsByKind(c: Clause, base: string)
    ensures c.operator in {">=", "~=", ">"} ==> BoundOf(c) == c.version
    ensures c.operator == "==" && c.version == base + ".*" && '*' !in base && base != "" && base[|base| - 1] != '.' ==>
      BoundOf(c) == base
    ensures c.operator !in {">=", "~=", ">", "=="} ==> BoundOf(c) == ""
    ensures c.operator == "==" && '*' !in c.version ==> BoundOf(c) == ""
  {
    if c.operator == "==" && c.version == base + ".*" && '*' !in base && base != "" && base[|base| - 1] != '.' {
      DotStarDropped(base);
      NoStarToDrop(base);
      assert c.version[|base| + 1] == '*';
    }
  }

  // ---------- what the library permits ----------

  /** Whether the version library lets a version through a clause; not part of this model. */
  type Library = (Clause, string) -> bool

  /** `>=`, `~=` and `>` are lower bounds in the library's own order; nothing is assumed of the rest. */
  ghost predicate KeepsBounds(s: Scheme, meets: Library) {
    forall c, v {:trigger meets(c, v)} :: meets(c, v) ==>
      && (c.operator == ">=" || c.operator == "~=" ==>
            s.compare(v, c.version).Some? && s.compare(v, c.version).value >= 0)
      && (c.operator == ">" ==> s.compare(v, c.version).Some? && s.compare(v, c.version).value > 0)
  }

  ghost predicate Permitted(meets: Library, clauses: seq<Clause>, v: string) {
    forall c :: c in clauses ==> meets(c, v)
  }

  /** A `==1.4.*` clause whose bound the version is not at or above. */
  ghost predicate BelowPrefix(s: Scheme, c: Clause, v: string) {
    && c.operator == "==" && BoundOf(c) != "" && s.parses(BoundOf(c))
    && s.compare(v, BoundOf(c)).Some? && s.compare(v, BoundOf(c)).value < 0
  }

  /**
    Without a pin, the floor is at or below a permitted version exactly when the version is not
    below the prefix of any `==1.4.*` clause, as a pre-release of that prefix is.
  */
  lemma FloorIsBelowPermittedIff(s: Scheme, meets: Library, clauses: seq<Clause>, r: Floor, v: string)
    requires Ordered(s) && KeepsBounds(s, meets) && s.parses(v)
    requires !HasPin(clauses) && IsPypiFloor(s, clauses, Some(r)) && Permitted(meets, clauses, v)
    ensures s.compare(r.0, v).Some?
    ensures s.compare(r.0, v).value <= 0 <==> forall c :: c in clauses ==> !BelowPrefix(s, c, v)
  {
    var bounds := Bounds(clauses);
    assert s.parses(r.0) && s.compare(r.0, v).Some? && s.compare(v, r.0).Some?;
    BoundsMembers(clauses, r.0);
    var c :| c in clauses && BoundOf(c) == r.0;
    assert meets(c, v);
    if c :| c in clauses && BelowPrefix(s, c, v) {
      BoundsMembers(clauses, BoundOf(c));
      assert s.compare(BoundOf(c), r.0).Some? && s.compare(BoundOf(c), r.0).value <= 0;
      assert s.compare(BoundOf(c), v).Some?;
    }
  }

  /** Specifiers without such a clause have a floor below everything they permit. */
  lemma FloorIsBelowPermittedWithoutPrefix(s: Scheme, meets: Library, clauses: seq<Clause>, r: Floor, v: string)
    requires Ordered(s) && KeepsBounds(s, meets) && s.parses(v)
    requires forall c :: c in clauses ==> c.operator != "==" && c.operator != "==="
    requires IsPypiFloor(s, clauses, Some(r)) && Permitted(meets, clauses, v)
    ensures s.compare(r.0, v).Some? && s.compare(r.0, v).value <= 0
  {
    forall i | 0 <= i < |clauses| ensures !Pins(clauses[i]) {
      assert clauses[i] in clauses;
    }
    FloorIsBelowPermittedIff(s, meets, clauses, r, v);
  }

  /** `==1.1.*` is floored at 1.1, while the library lets its pre-release 1.1a1 through, which is lower. */
  lemma PrefixFloorIsTooHigh(s: Scheme, meets: Library, star: Clause, r: Option<Floor>)
    requires Ordered(s) && s.parses("1.1") && s.parses("1.1a1")
    requires s.compare("1.1a1", "1.1").value < 0
    requires star == Clause("==", "1.1" + ".*") && meets(star, "1.1a1")
    requires IsPypiFloor(s, [star], r)
    ensures r == Some(("1.1", false)) && Permitted(meets, [star], "1.1a1")
    ensures s.compare(r.value.0, "1.1a1").Some? && s.compare(r.value.0, "1.1a1").value > 0
  {
    BoundsByKind(star, "1.1");
    assert star.version[4] == '*';
    assert Bounds([star]) == Bounds([]) + ["1.1"];
    assert s.compare("1.1", "1.1a1").Some? && s.compare("1.1a1", "1.1").Some?;
  }

  // ---------- when the floor is the lowest permitted version ----------

  /** The specifier permits `v` and no version below it. */
  ghost predicate LowestPermitted(s: Scheme, meets: Library, clauses: seq<Clause>, v: string) {
    && Permitted(meets, clauses, v)
    && forall w :: s.parses(w) && Permitted(meets, clauses, w) ==>
         s.compare(v, w).Some? && s.compare(v, w).value <= 0
  }

  /** Some permitted version is below the prefix of a `==1.4.*` clause. */
  ghost predicate PermitsBelowPrefix(s: Scheme, meets: Library, clauses: seq<Clause>) {
    exists c, w :: c in clauses && s.parses(w) && Permitted(meets, clauses, w) && BelowPrefix(s, c, w)
  }

  /**
    Without a pin: the floor is the lowest permitted version exactly when the specifier permits it
    and permits nothing below a prefix.
  */
  lemma FloorIsLowestPermittedIff(s: Scheme, meets: Library, clauses: seq<Clause>, r: Floor)
    requires Ordered(s) && KeepsBounds(s, meets)
    requires !HasPin(clauses) && IsPypiFloor(s, clauses, Some(r))
    ensures LowestPermitted(s, meets, clauses, r.0) <==>
      Permitted(meets, clauses, r.0) && !PermitsBelowPrefix(s, meets, clauses)
  {
    forall w | s.parses(w) && Permitted(meets, clauses, w)
      ensures s.compare(r.0, w).Some?
      ensures s.compare(r.0, w).value <= 0 <==> forall c :: c in clauses ==> !BelowPrefix(s, c, w)
    {
      FloorIsBelowPermittedIff(s, meets, clauses, r, w);
    }
  }

  predicate IsOrderBound(c: Clause) {
    c.operator == ">=" || c.operator == ">"
  }

  ghost predicate MeetsByOrder(s: Scheme, c: Clause, v: string) {
    var order := s.compare(v, c.version);
    order.Some? && (if c.operator == ">=" then order.value >= 0 else order.value > 0)
  }

  /** The library decides `>=` and `>` by its order alone, and these clauses name versions it reads. */
  ghost predicate DecidedByOrder(s: Scheme, meets: Library, clauses: seq<Clause>, v: string) {
    forall c :: c in clauses && IsOrderBound(c) ==>
      c.version != "" && s.parses(c.version) && (meets(c, v) <==> MeetsByOrder(s, c, v))
  }

  /** `>` at the floor itself. */
  ghost predicate ExcludesFloor(s: Scheme, c: Clause, floor: string) {
    c.operator == ">" && s.compare(floor, c.version) == Some(0)
  }

  /** The floor is at or above every bound, so only a `>` at the floor itself is not met. */
  lemma FloorMeetsBound(s: Scheme, clauses: seq<Clause>, r: Floor, c: Clause)
    requires Ordered(s) && IsGreatest(s, r.0, Bounds(clauses))
    requires c in clauses && IsOrderBound(c) && c.version != "" && s.parses(c.version)
    ensures MeetsByOrder(s, c, r.0) <==> !ExcludesFloor(s, c, r.0)
  {
    BoundsMembers(clauses, c.version);
    assert BoundOf(c) == c.version;
    assert s.compare(c.version, r.0).Some? && s.compare(r.0, c.version).Some?;
  }

  /**
    Clause by clause: the floor is permitted exactly when it is the bound of no `>` clause and every
    clause other than `>=` and `>` lets it through; the other bounds it meets of itself.
  */
  lemma FloorIsPermittedIff(s: Scheme, meets: Library, clauses: seq<Clause>, r: Floor)
    requires Ordered(s) && DecidedByOrder(s, meets, clauses, r.0)
    requires !HasPin(clauses) && IsPypiFloor(s, clauses, Some(r))
    ensures Permitted(meets, clauses, r.0) <==> forall c :: c in clauses ==>
      if IsOrderBound(c) then !ExcludesFloor(s, c, r.0) else meets(c, r.0)
  {
    forall c | c in clauses && IsOrderBound(c) ensures meets(c, r.0) <==> !ExcludesFloor(s, c, r.0) {
      FloorMeetsBound(s, clauses, r, c);
    }
  }

  lemma FloorOfOneBound(s: Scheme, c: Clause, r: Option<Floor>)
    requires Ordered(s) && (c.operator == ">" || c.operator == ">=") && c.version != "" && s.parses(c.version)
    requires IsPypiFloor(s, [c], r)
    ensures r == Some((c.version, false)) && !HasPin([c])
  {
    assert Bounds([c]) == Bounds([]) + [c.version];
    assert !Pins(c);
  }

  /** `>1.0` is floored at 1.0, which it does not permit. */
  lemma StrictBoundIsTheFloor(s: Scheme, meets: Library, r: Option<Floor>)
    requires Ordered(s) && KeepsBounds(s, meets) && s.parses("1.0")
    requires IsPypiFloor(s, [Clause(">", "1.0")], r)
    ensures r == Some(("1.0", false)) && !Permitted(meets, [Clause(">", "1.0")], "1.0")
  {
    var c := Clause(">", "1.0");
    FloorOfOneBound(s, c, r);
    assert c in [c] && s.compare("1.0", "1.0") == Some(0);
  }

  /** `>=1.0,!=1.0` is floored at 1.0, which it excludes by name. */
  lemma ExcludedVersionIsTheFloor(s: Scheme, meets: Library, r: Option<Floor>)
    requires Ordered(s) && s.parses("1.0") && !meets(Clause("!=", "1.0"), "1.0")
    requires IsPypiFloor(s, [Clause(">=", "1.0"), Clause("!=", "1.0")], r)
    ensures r == Some(("1.0", false)) && !Permitted(meets, [Clause(">=", "1.0"), Clause("!=", "1.0")], "1.0")
  {
    var clauses := [Clause(">=", "1.0"), Clause("!=", "1.0")];
    assert clauses[1] in clauses;
    assert clauses[..1] == [clauses[0]] && clauses[..1][..0] == [];
    assert Bounds(clauses[..1]) == Bounds([]) + ["1.0"] && Bounds(clauses) == Bounds(clauses[..1]);
    assert !HasPin(clauses) by {
      assert !Pins(clauses[0]) && !Pins(clauses[1]);
    }
  }
}
