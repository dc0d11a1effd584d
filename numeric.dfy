/** Arithmetic of C doubles and ints, stated over Dafny's exact reals and unbounded ints. */
module Numeric {

  /** Quotient `a / b` of two doubles. The program divides without checking the divisor; a zero
      divisor yields an IEEE infinity or NaN there, which exact reals cannot express, so the model
      gives that case the value 0.0 and every property of a quotient is stated for a nonzero divisor. */
  function Quot(a: real, b: real): (q: real)
    ensures b != 0.0 ==> q * b == a
  {
    if b == 0.0 then 0.0 else a / b
  }

  /** `fabs` */
  function Abs(x: real): (r: real)
    ensures r >= 0.0 && (r == x || r == -x)
  {
    if x < 0.0 then -x else x
  }

  /** The C conversion of a double to an int (`int t = a;`, `(int) atof(..)`): truncation toward zero. */
  function Trunc(x: real): (t: int)
    ensures x >= 0.0 ==> 0 <= t && t as real <= x < t as real + 1.0
    ensures x < 0.0 ==> t <= 0 && t as real - 1.0 < x <= t as real
  {
    if x >= 0.0 then x.Floor else -((-x).Floor)
  }

  /** The C library `abs` on an int. */
  function IntAbs(i: int): (r: int)
    ensures r >= 0 && (r == i || r == -i)
  {
    if i < 0 then -i else i
  }

  /** C's `t % 2`: the remainder takes the sign of the dividend, so it is -1, 0 or 1 and
      `t - CRem2(t)` is even. */
  function CRem2(a: int): (r: int)
    ensures a >= 0 ==> 0 <= r <= 1
    ensures a < 0 ==> -1 <= r <= 0
    ensures (a - r) % 2 == 0
  {
    if a >= 0 then a % 2 else -((-a) % 2)
  }

  /** A double x times an int count a (`a * x` in C, the int converted to double). Products are
      kept behind these functions so that sums of them stay linear for the solver. */
  function Weigh(x: real, a: int): real {
    x * a as real
  }

  /** A product of two doubles. */
  function Times(x: real, y: real): real {
    x * y
  }

  /** `a * b * x` for ints a and b and a double x: the int product, converted, times x. */
  function Prod(a: int, b: int, x: real): real {
    (a * b) as real * x
  }
}
