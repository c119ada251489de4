/**
 * Java's floating-point remainder and integer division, which truncate toward zero.
 * Dafny's own `/` and `%` are Euclidean, so the Java operators are written out here.
 */
module JavaMath {

  /** Rounds toward zero, as a Java cast from double to long does. */
  function Trunc(x: real): (n: int)
    ensures 0.0 <= x ==> n as real <= x < n as real + 1.0
    ensures x < 0.0 ==> n as real - 1.0 < x <= n as real
  {
    if 0.0 <= x then x.Floor else -((-x).Floor)
  }

  /** Java's `a % b` on doubles: `a` minus the truncated quotient times `b`. */
  function Rem(a: real, b: real): real
    requires b != 0.0
  {
    a - b * Trunc(a / b) as real
  }

  /** The divisors the point query uses: latitudes wrap at 90, longitudes at 180. */
  predicate IsPeriod(b: real) {
    b == 90.0 || b == 180.0
  }

  /** The remainder takes the sign of its dividend and is smaller than the divisor. */
  lemma RemBounds(a: real, b: real)
    requires IsPeriod(b)
    ensures 0.0 <= a ==> 0.0 <= Rem(a, b) < b
    ensures a < 0.0 ==> -b < Rem(a, b) <= 0.0
  {
  }

  /** Inside the open interval (-b, b) the remainder leaves its dividend unchanged. */
  lemma RemInsideIsIdentity(a: real, b: real)
    requires IsPeriod(b) && -b < a < b
    ensures Rem(a, b) == a
  {
  }

  /** From b up to 2b the remainder takes the dividend back by exactly one period. */
  lemma RemAboveWrapsOnce(a: real, b: real)
    requires IsPeriod(b) && b <= a < 2.0 * b
    ensures Rem(a, b) == a - b
  {
  }

  /** From -2b up to -b the remainder gives the dividend back one period. */
  lemma RemBelowWrapsOnce(a: real, b: real)
    requires IsPeriod(b) && -2.0 * b < a <= -b
    ensures Rem(a, b) == a + b
  {
  }

  /** Java's `a / b` on longs, truncating toward zero. */
  function Div(a: int, b: int): (q: int)
    requires 0 < b
    ensures 0 <= a ==> 0 <= q && q * b <= a < q * b + b
    ensures a < 0 ==> q <= 0 && q * b - b < a <= q * b
  {
    if 0 <= a then a / b else -((-a) / b)
  }
}
