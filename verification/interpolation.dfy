/**
 The interpolation kernels of the circular buffer's readers.

 Each kernel combines the taps around a read position, `xm1` (one sample
 before), `x0`, `x1` and `x2` (two samples after), with the fractional part
 `f` of that position. Samples are modelled as reals, so the properties
 below are the algebraic facts about the formulas, without float rounding.
 */
module Interpolation {

  function Min(a: real, b: real): real { if a <= b then a else b }
  function Max(a: real, b: real): real { if a <= b then b else a }

  /** Two-tap linear interpolation `x0 + (x1 - x0) * f`. */
  function Linear(x0: real, x1: real, f: real): (r: real)
    ensures f == 0.0 ==> r == x0
    ensures f == 1.0 ==> r == x1
    ensures f == 0.5 ==> r == (x0 + x1) / 2.0
    ensures 0.0 <= f <= 1.0 ==> Min(x0, x1) <= r <= Max(x0, x1)
  {
    if 0.0 <= f <= 1.0 then LinearStaysBetween(x0, x1, f); x0 + (x1 - x0) * f
    else x0 + (x1 - x0) * f
  }

  /** For a fraction in `[0, 1]`, the linear formula stays between its two taps. */
  lemma LinearStaysBetween(x0: real, x1: real, f: real)
    requires 0.0 <= f <= 1.0
    ensures Min(x0, x1) <= x0 + (x1 - x0) * f <= Max(x0, x1)
  {
    var d := if x0 <= x1 then x1 - x0 else x0 - x1;
    ProductNonNegative(d, f);
    ProductNonNegative(d, 1.0 - f);
    assert d * (1.0 - f) == d - d * f;
  }

  /** The product of two non-negative reals is non-negative. */
  lemma ProductNonNegative(a: real, b: real)
    requires a >= 0.0 && b >= 0.0
    ensures a * b >= 0.0
  {
  }

  /**
   Four-tap cubic interpolation with the difference coefficients
   `a0 = x2 - x1 - xm1 + x0`, `a1 = xm1 - x0 - a0`, `a2 = x1 - xm1`, `a3 = x0`,
   evaluated as `a0*f^3 + a1*f^2 + a2*f + a3`. It passes through `x0` and
   `x1`, and keeps a constant signal constant.
   */
  function Cubic(xm1: real, x0: real, x1: real, x2: real, f: real): (r: real)
    ensures f == 0.0 ==> r == x0
    ensures f == 1.0 ==> r == x1
    ensures xm1 == x0 == x1 == x2 ==> r == x0
  {
    var f2 := f * f;
    var a0 := x2 - x1 - xm1 + x0;
    var a1 := xm1 - x0 - a0;
    var a2 := x1 - xm1;
    var a3 := x0;
    a0 * f * f2 + a1 * f2 + a2 * f + a3
  }

  /** The derivative in `f` of the cubic polynomial above. */
  function CubicSlope(xm1: real, x0: real, x1: real, x2: real, f: real): (s: real)
    ensures f == 0.0 ==> s == x1 - xm1
    ensures f == 1.0 ==> s == x2 - x0
  {
    var a0 := x2 - x1 - xm1 + x0;
    var a1 := xm1 - x0 - a0;
    var a2 := x1 - xm1;
    3.0 * a0 * f * f + 2.0 * a1 * f + a2
  }

  /**
   Four-tap Hermite (Catmull-Rom) interpolation with `c0 = x0`,
   `c1 = (x1 - xm1) / 2`, `c3 = 1.5 * (x0 - x1) + 0.5 * (x2 - xm1)`,
   `c2 = xm1 - x0 + c1 - c3`, evaluated in Horner form. It passes through `x0`
   and `x1`, keeps a constant signal constant and reproduces a straight line
   exactly.
   */
  function Hermite(xm1: real, x0: real, x1: real, x2: real, f: real): (r: real)
    ensures f == 0.0 ==> r == x0
    ensures f == 1.0 ==> r == x1
    ensures xm1 == x0 == x1 == x2 ==> r == x0
    ensures x0 - xm1 == x1 - x0 == x2 - x1 ==> r == x0 + (x1 - x0) * f
  {
    var c0 := x0;
    var c1 := 0.5 * (x1 - xm1);
    var c3 := 1.5 * (x0 - x1) + 0.5 * (x2 - xm1);
    var c2 := xm1 - x0 + c1 - c3;
    assert x0 - xm1 == x1 - x0 == x2 - x1 ==> c3 == 0.0 && c2 == 0.0 && c1 == x1 - x0;
    ((c3 * f + c2) * f + c1) * f + c0
  }

  /** The derivative in `f` of the Hermite polynomial above. */
  function HermiteSlope(xm1: real, x0: real, x1: real, x2: real, f: real): (s: real)
    ensures f == 0.0 ==> s == (x1 - xm1) / 2.0
    ensures f == 1.0 ==> s == (x2 - x0) / 2.0
  {
    var c1 := 0.5 * (x1 - xm1);
    var c3 := 1.5 * (x0 - x1) + 0.5 * (x2 - xm1);
    var c2 := xm1 - x0 + c1 - c3;
    (3.0 * c3 * f + 2.0 * c2) * f + c1
  }

  /** A cubic in Horner form, `((c3 f + c2) f + c1) f + c0`. */
  function Horner(c0: real, c1: real, c2: real, c3: real, f: real): real
  {
    ((c3 * f + c2) * f + c1) * f + c0
  }

  /** The derivative in `f` of `Horner`. */
  function HornerSlope(c1: real, c2: real, c3: real, f: real): real
  {
    (3.0 * c3 * f + 2.0 * c2) * f + c1
  }

  /** The `h^2` part of the change of `Horner` over a step `h` from `f`. */
  function HornerRest(c2: real, c3: real, f: real, h: real): real
  {
    c3 * (3.0 * f + h) + c2
  }

  /**
   The exact expansion of a cubic around `f`: a step `h` changes it by `h`
   times `HornerSlope` plus `h^2` times `HornerRest`. So `HornerSlope` is its
   derivative.
   */
  lemma HornerShift(c0: real, c1: real, c2: real, c3: real, f: real, h: real)
    ensures Horner(c0, c1, c2, c3, f + h) - Horner(c0, c1, c2, c3, f)
         == h * HornerSlope(c1, c2, c3, f) + h * h * HornerRest(c2, c3, f, h)
  {
    var g := f + h;
    assert g * g == f * f + 2.0 * f * h + h * h;
    assert g * g * g == f * f * f + 3.0 * f * f * h + 3.0 * f * h * h + h * h * h;
    assert Horner(c0, c1, c2, c3, g) == c3 * (g * g * g) + c2 * (g * g) + c1 * g + c0;
    assert Horner(c0, c1, c2, c3, f) == c3 * (f * f * f) + c2 * (f * f) + c1 * f + c0;
  }

  /** The coefficients `c1, c2, c3` of the Hermite polynomial. */
  function HermiteCoefficients(xm1: real, x0: real, x1: real, x2: real): (real, real, real)
  {
    var c1 := 0.5 * (x1 - xm1);
    var c3 := 1.5 * (x0 - x1) + 0.5 * (x2 - xm1);
    (c1, xm1 - x0 + c1 - c3, c3)
  }

  /**
   `Hermite` and `HermiteSlope` are `Horner` and `HornerSlope` over those
   coefficients, so by `HornerShift` `HermiteSlope` is the derivative of
   `Hermite`.
   */
  lemma HermiteIsHorner(xm1: real, x0: real, x1: real, x2: real, f: real)
    ensures var (c1, c2, c3) := HermiteCoefficients(xm1, x0, x1, x2);
      && Hermite(xm1, x0, x1, x2, f) == Horner(x0, c1, c2, c3, f)
      && HermiteSlope(xm1, x0, x1, x2, f) == HornerSlope(c1, c2, c3, f)
  {
  }

  /** The coefficients `a2, a1, a0` of the cubic kernel, lowest degree first. */
  function CubicCoefficients(xm1: real, x0: real, x1: real, x2: real): (real, real, real)
  {
    var a0 := x2 - x1 - xm1 + x0;
    (x1 - xm1, xm1 - x0 - a0, a0)
  }

  /**
   `Cubic` and `CubicSlope` are `Horner` and `HornerSlope` over those
   coefficients, so by `HornerShift` `CubicSlope` is the derivative of `Cubic`.
   */
  lemma CubicIsHorner(xm1: real, x0: real, x1: real, x2: real, f: real)
    ensures var (a2, a1, a0) := CubicCoefficients(xm1, x0, x1, x2);
      && Cubic(xm1, x0, x1, x2, f) == Horner(x0, a2, a1, a0, f)
      && CubicSlope(xm1, x0, x1, x2, f) == HornerSlope(a2, a1, a0, f)
  {
  }

  /**
   On the straight line -1, 0, 1, 2 the Hermite kernel returns the point on
   the line at fraction 0.25, while the cubic kernel misses it.
   */
  lemma OnlyHermiteKeepsStraightLines()
    ensures Hermite(-1.0, 0.0, 1.0, 2.0, 0.25) == 0.25
    ensures Cubic(-1.0, 0.0, 1.0, 2.0, 0.25) == 0.34375
  {
  }

  /**
   Consecutive Hermite segments over the taps `xm1, x0, x1, x2, x3` meet with
   the same value and the same slope: the curve has no kinks at sample points.
   */
  lemma HermiteJoinsSmoothly(xm1: real, x0: real, x1: real, x2: real, x3: real)
    ensures Hermite(xm1, x0, x1, x2, 1.0) == Hermite(x0, x1, x2, x3, 0.0)
    ensures HermiteSlope(xm1, x0, x1, x2, 1.0) == HermiteSlope(x0, x1, x2, x3, 0.0)
  {
  }

  /** The same holds of the cubic kernel, whose slopes are twice Hermite's. */
  lemma CubicJoinsSmoothly(xm1: real, x0: real, x1: real, x2: real, x3: real)
    ensures Cubic(xm1, x0, x1, x2, 1.0) == Cubic(x0, x1, x2, x3, 0.0)
    ensures CubicSlope(xm1, x0, x1, x2, 1.0) == CubicSlope(x0, x1, x2, x3, 0.0)
    ensures CubicSlope(xm1, x0, x1, x2, 0.0) == 2.0 * HermiteSlope(xm1, x0, x1, x2, 0.0)
  {
  }
}
