/** Shared vocabulary: optional values and what it means for a comparison to order things. */
module Prelude {

  datatype Option<+T> = None | Some(value: T)

  function Min(a: int, b: int): int {
    if a <= b then a else b
  }

  function Max(a: int, b: int): int {
    if a <= b then b else a
  }

  /** The sign of comparing two integers, as Python's `-1 if a < b else 1` idiom computes it. */
  function CompareInt(a: int, b: int): int {
    if a == b then 0 else if a < b then -1 else 1
  }

  /** `cmp` ranks everything satisfying `valid`: any two are comparable, and "not above" chains. */
  ghost predicate RanksAll<T(!new)>(valid: T -> bool, cmp: (T, T) -> int) {
    && (forall a, b {:trigger cmp(a, b)} :: valid(a) && valid(b) ==> -1 <= cmp(a, b) <= 1)
    && (forall a {:trigger cmp(a, a)} :: valid(a) ==> cmp(a, a) == 0)
    && (forall a, b {:trigger cmp(a, b)} :: valid(a) && valid(b) ==> cmp(a, b) == -cmp(b, a))
    && (forall a, b, c {:trigger cmp(a, b), cmp(b, c)} ::
          valid(a) && valid(b) && valid(c) && cmp(a, b) <= 0 && cmp(b, c) <= 0 ==> cmp(a, c) <= 0)
  }
}
