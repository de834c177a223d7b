/** The integer helper macros of util.h: ABS, MIN, MAX and SIGN.
    The macros are type-generic in C; here they work on unbounded `int`,
    so the overflow of ABS at the most negative machine integer is not
    visible in these functions (see AbsInt32MinOverflows). */
module Util {

  /** ABS(x): the negation of x when x is negative, x otherwise. */
  function Abs(x: int): (r: int)
    ensures r >= 0
    ensures x < 0 ==> r == -x
    ensures x >= 0 ==> r == x
  {
    if x < 0 then -x else x
  }

  /** MIN(a, b): a when a < b, otherwise b. */
  function Min(a: int, b: int): (r: int)
    ensures r <= a && r <= b
    ensures r == a || r == b
  {
    if a < b then a else b
  }

  /** MAX(a, b): a when a > b, otherwise b. */
  function Max(a: int, b: int): (r: int)
    ensures r >= a && r >= b
    ensures r == a || r == b
  {
    if a > b then a else b
  }

  /** SIGN(x): the C comparison results (0 or 1) subtracted, (x > 0) - (x < 0). */
  function Sign(x: int): (r: int)
    ensures -1 <= r <= 1
    ensures r == 1 <==> x > 0
    ensures r == 0 <==> x == 0
    ensures r == -1 <==> x < 0
  {
    (if x > 0 then 1 else 0) - (if x < 0 then 1 else 0)
  }

  /** The sign and the magnitude recompose the number. */
  lemma SignTimesAbs(x: int)
    ensures Sign(x) * Abs(x) == x
  {
  }

  /** MIN and MAX split a pair: they are ordered and together keep its sum. */
  lemma MinMaxPair(a: int, b: int)
    ensures Min(a, b) <= Max(a, b)
    ensures Min(a, b) + Max(a, b) == a + b
    ensures {Min(a, b), Max(a, b)} == {a, b}
  {
  }

  const INT32_MIN: int := -0x8000_0000
  const INT32_MAX: int := 0x7FFF_FFFF

  /** On a 32-bit C int, ABS is exact everywhere except at INT_MIN, where the
      mathematical result does not fit the type. */
  lemma AbsInt32MinOverflows(x: int)
    requires INT32_MIN <= x <= INT32_MAX
    ensures Abs(x) <= INT32_MAX <==> x != INT32_MIN
  {
  }
}
