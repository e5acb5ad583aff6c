/** The two pieces of JavaScript number semantics the delay badge relies on,
    stated over exact reals (IEEE rounding is not modelled). */
module Js {

  /** Truncation toward zero: what `new Date(x)` does to a fractional
      millisecond count, and the quotient that JavaScript's `%` uses. */
  function Trunc(x: real): (r: int)
    ensures 0.0 <= x ==> 0 <= r && r as real <= x < r as real + 1.0
    ensures x < 0.0 ==> r <= 0 && r as real - 1.0 < x <= r as real
  {
    if 0.0 <= x then x.Floor else -((-x).Floor)
  }

  /** JavaScript's `n % d` on numbers: `n` minus the multiple of `d` given
      by the truncated quotient, so that the remainder takes the sign of the
      dividend `n` (unlike Dafny's Euclidean `%`). */
  function Remainder(n: real, d: real): (r: real)
    requires 0.0 < d
    ensures 0.0 <= n ==> 0.0 <= r < d
    ensures n < 0.0 ==> -d < r <= 0.0
    ensures ((n - r) / d).Floor as real == (n - r) / d
  {
    var x := n / d;
    var q := Trunc(x);
    QuotientSign(n, d, x);
    TruncatedRemainder(n, d, x, q);
    WholeMultiple(n, d, q);
    n - d * (q as real)
  }

  /** What the remainder takes away from `n` is `q` whole times `d`. */
  lemma WholeMultiple(n: real, d: real, q: int)
    requires 0.0 < d
    ensures (n - (n - d * (q as real))) / d == q as real
  {
    assert n - (n - d * (q as real)) == d * (q as real);
    assert (d * (q as real)) / d == q as real;
  }

  /** `n` and its quotient by a positive `d` have the same sign. */
  lemma QuotientSign(n: real, d: real, x: real)
    requires 0.0 < d && x == n / d
    ensures n == d * x
    ensures 0.0 <= n <==> 0.0 <= x
  {
  }

  /** Taking away `d` times the truncated quotient leaves `d` times the
      fractional part of the quotient. */
  lemma TruncatedRemainder(n: real, d: real, x: real, q: int)
    requires 0.0 < d && n == d * x && q == Trunc(x)
    requires 0.0 <= n <==> 0.0 <= x
    ensures 0.0 <= n ==> 0.0 <= n - d * (q as real) < d
    ensures n < 0.0 ==> -d < n - d * (q as real) <= 0.0
  {
    var f := x - q as real;
    var r := n - d * (q as real);
    assert r == d * f by {
      assert d * x - d * (q as real) == d * (x - q as real);
    }
    ScaleFraction(d, f);
    if 0.0 <= n {
      assert 0.0 <= f < 1.0;
      assert 0.0 <= d * f < d;
    } else {
      assert -1.0 < f <= 0.0;
      assert -d < d * f <= 0.0;
    }
  }

  /** A positive divisor times a fraction in (-1, 1) stays within (-d, d),
      keeping the fraction's sign. */
  lemma ScaleFraction(d: real, f: real)
    requires 0.0 < d
    ensures 0.0 <= f < 1.0 ==> 0.0 <= d * f < d
    ensures -1.0 < f <= 0.0 ==> -d < d * f <= 0.0
  {
    if 0.0 <= f < 1.0 {
      assert d - d * f == d * (1.0 - f);
    } else if -1.0 < f <= 0.0 {
      assert d + d * f == d * (1.0 + f);
    }
  }
}
