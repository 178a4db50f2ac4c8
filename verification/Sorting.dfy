/** Python's `sorted`: a stable sort under a "not after" relation. */
module Sorting {

  ghost predicate Ordering<T(!new)>(notAfter: (T, T) -> bool) {
    && (forall a, b {:trigger notAfter(a, b)} :: notAfter(a, b) || notAfter(b, a))
    && (forall a, b, c {:trigger notAfter(a, b), notAfter(b, c)} ::
          notAfter(a, b) && notAfter(b, c) ==> notAfter(a, c))
  }

  ghost predicate Sorted<T(!new)>(notAfter: (T, T) -> bool, s: seq<T>) {
    forall i, j :: 0 <= i < j < |s| ==> notAfter(s[i], s[j])
  }

  /** Puts `x`, which came first, in front of everything it is not after. */
  function Place<T>(x: T, s: seq<T>, notAfter: (T, T) -> bool): seq<T> {
    if s == [] then [x]
    else if notAfter(x, s[0]) then [x] + s
    else [s[0]] + Place(x, s[1..], notAfter)
  }

  function Sort<T>(s: seq<T>, notAfter: (T, T) -> bool): seq<T> {
    if s == [] then [] else Place(s[0], Sort(s[1..], notAfter), notAfter)
  }

  lemma {:induction false} PlacePermutes<T>(x: T, s: seq<T>, notAfter: (T, T) -> bool)
    ensures multiset(Place(x, s, notAfter)) == multiset{x} + multiset(s)
    ensures |Place(x, s, notAfter)| == |s| + 1
  {
    if s != [] {
      assert s == [s[0]] + s[1..];
      if !notAfter(x, s[0]) {
        PlacePermutes(x, s[1..], notAfter);
      }
    }
  }

  lemma {:induction false} SortPermutes<T>(s: seq<T>, notAfter: (T, T) -> bool)
    ensures multiset(Sort(s, notAfter)) == multiset(s)
    ensures |Sort(s, notAfter)| == |s|
  {
    if s != [] {
      assert s == [s[0]] + s[1..];
      SortPermutes(s[1..], notAfter);
      PlacePermutes(s[0], Sort(s[1..], notAfter), notAfter);
    }
  }

  lemma {:induction false} PlaceSorts<T(!new)>(x: T, s: seq<T>, notAfter: (T, T) -> bool)
    requires Ordering(notAfter) && Sorted(notAfter, s)
    ensures Sorted(notAfter, Place(x, s, notAfter))
  {
    if s != [] && !notAfter(x, s[0]) {
      PlaceSorts(x, s[1..], notAfter);
      PlacePermutes(x, s[1..], notAfter);
      var rest := Place(x, s[1..], notAfter);
      forall j | 0 <= j < |rest| ensures notAfter(s[0], rest[j]) {
        assert rest[j] in multiset(rest);
      }
    }
  }

  lemma {:induction false} SortSorts<T(!new)>(s: seq<T>, notAfter: (T, T) -> bool)
    requires Ordering(notAfter)
    ensures Sorted(notAfter, Sort(s, notAfter))
  {
    if s != [] {
      SortSorts(s[1..], notAfter);
      PlaceSorts(s[0], Sort(s[1..], notAfter), notAfter);
    }
  }

  predicate Ties<T>(y: T, x: T, notAfter: (T, T) -> bool) {
    notAfter(y, x) && notAfter(x, y)
  }

  /** The elements of `s` that tie with `x`, in order. */
  function TiedWith<T>(s: seq<T>, x: T, notAfter: (T, T) -> bool): seq<T> {
    if s == [] then [] else (if Ties(s[0], x, notAfter) then [s[0]] else []) + TiedWith(s[1..], x, notAfter)
  }

  lemma TiedFront<T>(y: T, s: seq<T>, x: T, notAfter: (T, T) -> bool)
    ensures TiedWith([y] + s, x, notAfter) == (if Ties(y, x, notAfter) then [y] else []) + TiedWith(s, x, notAfter)
  {
    assert ([y] + s)[1..] == s;
  }

  lemma {:induction false} PlaceKeepsTies<T(!new)>(y: T, s: seq<T>, x: T, notAfter: (T, T) -> bool)
    requires Ordering(notAfter)
    ensures TiedWith(Place(y, s, notAfter), x, notAfter)
         == (if Ties(y, x, notAfter) then [y] else []) + TiedWith(s, x, notAfter)
  {
    TiedFront(y, s, x, notAfter);
    if s != [] && !notAfter(y, s[0]) {
      PlaceKeepsTies(y, s[1..], x, notAfter);
      TiedFront(s[0], Place(y, s[1..], notAfter), x, notAfter);
    }
  }

  /** The sort is stable: elements that tie stay in the order they came in. */
  lemma {:induction false} SortIsStable<T(!new)>(s: seq<T>, x: T, notAfter: (T, T) -> bool)
    requires Ordering(notAfter)
    ensures TiedWith(Sort(s, notAfter), x, notAfter) == TiedWith(s, x, notAfter)
  {
    if s != [] {
      SortIsStable(s[1..], x, notAfter);
      PlaceKeepsTies(s[0], Sort(s[1..], notAfter), x, notAfter);
    }
  }

  lemma {:induction false} SortKeepsSorted<T(!new)>(s: seq<T>, notAfter: (T, T) -> bool)
    requires Sorted(notAfter, s)
    ensures Sort(s, notAfter) == s
  {
    if s != [] {
      SortKeepsSorted(s[1..], notAfter);
      assert s == [s[0]] + s[1..];
    }
  }
}
