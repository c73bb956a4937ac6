/** The numeric helpers of the quiz, on exact reals. */
module Numbers {

  function Min(a: real, b: real): (r: real)
    ensures r <= a && r <= b && (r == a || r == b)
  {
    if a <= b then a else b
  }

  function Max(a: real, b: real): (r: real)
    ensures a <= r && b <= r && (r == a || r == b)
  {
    if a >= b then a else b
  }

  /** `clamp(x, a, b)`: `x` bounded below by `a` and above by `b`, the lower
      bound winning when `a > b`. */
  function Clamp(x: real, lo: real, hi: real): (r: real)
    ensures lo <= hi ==> lo <= r <= hi
    ensures lo <= x <= hi ==> r == x
    ensures x < lo ==> r == lo
    ensures lo <= hi < x ==> r == hi
  {
    Max(lo, Min(hi, x))
  }

  /** `clamp` on whole numbers: the result is whole too. */
  function ClampWhole(x: int, lo: int, hi: int): (r: int)
    ensures r as real == Clamp(x as real, lo as real, hi as real)
    ensures lo <= hi ==> lo <= r <= hi
  {
    if x < lo then lo else if x > hi then (if hi >= lo then hi else lo) else x
  }

  /** `Math.round`: the nearest integer, halves rounded up. */
  function Round(x: real): (n: int)
    ensures x - 0.5 < n as real <= x + 0.5
  {
    (x + 0.5).Floor
  }

  /** Rounding never decreases when its argument grows. */
  lemma RoundMonotonic(x: real, y: real)
    requires x <= y
    ensures Round(x) <= Round(y)
  {
  }

  /** Rounding an integer gives it back. */
  lemma RoundOfInteger(n: int)
    ensures Round(n as real) == n
  {
  }
}
