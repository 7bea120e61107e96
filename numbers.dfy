/** The JavaScript numeric primitives the engine relies on, over exact reals and unbounded ints. */
module Numbers {

  /** `Number.EPSILON`, 2^-52: the pivot and singularity tolerance. */
  const Epsilon: real := 1.0 / 4503599627370496.0

  const TwoTo31: int := 2147483648
  const TwoTo32: int := 4294967296

  function Abs(x: real): (r: real)
    ensures r >= 0.0 && (r == x || r == -x)
  {
    if x < 0.0 then -x else x
  }

  /** `Math.ceil`: the least integer not below x. */
  function Ceil(x: real): (r: int)
    ensures x <= r as real < x + 1.0
  {
    -((-x).Floor)
  }

  /** Truncation toward zero, the integer part of ToInt32. */
  function Trunc(x: real): (r: int)
    ensures x >= 0.0 ==> r as real <= x < r as real + 1.0
    ensures x < 0.0 ==> r as real - 1.0 < x <= r as real
  {
    if x >= 0.0 then x.Floor else Ceil(x)
  }

  /** Two's-complement wrap of an integer into the signed 32-bit range. */
  function Wrap32(n: int): (r: int)
    ensures -TwoTo31 <= r < TwoTo31
    ensures (r - n) % TwoTo32 == 0
    ensures -TwoTo31 <= n < TwoTo31 ==> r == n
  {
    var m := n % TwoTo32;
    if m >= TwoTo31 then m - TwoTo32 else m
  }

  /** `x|0`: ToInt32 of a finite number. */
  function ToInt32(x: real): (r: int)
    ensures -TwoTo31 <= r < TwoTo31
    ensures -(TwoTo31 as real) < x < TwoTo31 as real ==> r == Trunc(x)
  {
    Wrap32(Trunc(x))
  }

  /** `Math.round`: the nearest integer, halves rounded up. */
  function Round(x: real): (r: int)
    ensures r as real - 0.5 <= x < r as real + 0.5
  {
    (x + 0.5).Floor
  }
}
