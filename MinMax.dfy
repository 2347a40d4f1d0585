// tminmax.h: the min/max/abs/range templates of the library.
module MinMax {

  /** tMin: the first argument when it is not larger, the second otherwise. */
  function Min(a: int, b: int): (r: int)
    ensures r <= a && r <= b
    ensures r == a || r == b
    ensures a <= b ==> r == a
  {
    if a <= b then a else b
  }

  /** tMax: the first argument when it is not smaller, the second otherwise. */
  function Max(a: int, b: int): (r: int)
    ensures r >= a && r >= b
    ensures r == a || r == b
    ensures a >= b ==> r == a
  {
    if a >= b then a else b
  }

  /** tAbs: the magnitude of a. */
  function Abs(a: int): (r: int)
    ensures r >= 0
    ensures r == a || r == -a
  {
    if a >= 0 then a else -a
  }

  /** tOutOfRange: v lies outside the closed interval [l, u]. */
  predicate OutOfRange(v: int, l: int, u: int)
  {
    v < l || v > u
  }

  /** OutOfRange is exactly the negation of membership in [l, u]. */
  lemma OutOfRangeIsNotMember(v: int, l: int, u: int)
    ensures OutOfRange(v, l, u) <==> !(l <= v <= u)
    ensures l > u ==> OutOfRange(v, l, u)
  {
  }

  /** Min and Max together return both arguments. */
  lemma MinMaxPair(a: int, b: int)
    ensures Min(a, b) + Max(a, b) == a + b
    ensures Max(a, b) - Min(a, b) == Abs(a - b)
  {
  }
}
