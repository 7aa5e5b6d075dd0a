/**
 The integral/fractional split of a read position.

 The interpolating readers split the read position `writePointer - delay`
 into a whole part, obtained by a `static_cast<int32_t>` (truncation toward
 zero, not floor), and the remainder. For a negative position the remainder
 is therefore negative or zero.
 */
module IntegralFractional {

  /** The two parts of a read position. */
  datatype Split = Split(integral: int, fractional: real)

  /** Truncation toward zero, as a cast of a float to an integer type performs it. */
  function Truncate(x: real): (i: int)
    ensures x >= 0.0 ==> 0 <= i && i as real <= x < i as real + 1.0
    ensures x < 0.0 ==> i <= 0 && i as real - 1.0 < x <= i as real
  {
    if x >= 0.0 then x.Floor else -((-x).Floor)
  }

  /** The smallest whole number at or above `x`. */
  function Ceiling(x: real): (c: int)
    ensures c as real - 1.0 < x <= c as real
  {
    -((-x).Floor)
  }

  /**
   `GET_INTEGRAL_FRACTIONAL(x)`: the two parts add up to `x`, the whole part
   lies between zero and `x`, and the remainder has the sign of `x` and
   magnitude below one.
   */
  function GetIntegralFractional(x: real): (s: Split)
    ensures s.integral as real + s.fractional == x
    ensures x >= 0.0 ==> 0 <= s.integral && 0.0 <= s.fractional < 1.0
    ensures x < 0.0 ==> s.integral <= 0 && -1.0 < s.fractional <= 0.0
  {
    var i := Truncate(x);
    Split(i, x - i as real)
  }

  /** A whole position splits into itself and a zero remainder. */
  lemma SplitOfWhole(k: int)
    ensures GetIntegralFractional(k as real) == Split(k, 0.0)
  {
  }

  /**
   For a non-negative position `p - d` with whole `p`, truncation drops the
   fraction of the delay upwards: the whole part is `p - Ceiling(d)`.
   */
  lemma TruncateOfShift(p: int, d: real)
    requires d <= p as real
    ensures Truncate(p as real - d) == p - Ceiling(d)
  {
  }
}
