/** The fraction arithmetic behind the RATIONAL entries exif_put_double
    writes: exif_gcd, Euclid's algorithm on absolute values, and the last
    step of exif_dec2frac, which divides the decimal numerator and its
    power-of-ten denominator by their greatest common divisor.
 */
module Rational {

  const INT32_MIN: int := -0x8000_0000
  const INT32_MAX: int := 0x7FFF_FFFF

  /** C's abs on an int; abs(INT_MIN) overflows, so the model keeps away
      from it. */
  function Abs(x: int): nat {
    if x < 0 then -x else x
  }

  /** `d` divides `x`; zero divides only zero. */
  predicate Divides(d: nat, x: int) {
    if d == 0 then x == 0 else x % d == 0
  }

  /** `g` is a greatest common divisor of `a` and `b` in the divisibility
      order: a common divisor that every common divisor divides. */
  ghost predicate IsGcd(g: nat, a: int, b: int) {
    && Divides(g, a) && Divides(g, b)
    && forall d: nat :: Divides(d, a) && Divides(d, b) ==> Divides(d, g)
  }

  lemma MulMod(d: nat, m: int)
    requires d > 0
    ensures (d * m) % d == 0
  {
    var x := d * m;
    var k := m - x / d;
    assert d * k == x % d;
    if k >= 1 {
      MulAtLeast(d, k);
    } else if k <= -1 {
      MulAtLeast(d, -k);
    }
  }

  lemma MulAtLeast(d: nat, k: int)
    requires k >= 1
    ensures d * k >= d
  {
  }

  lemma Combination(d: nat, a: int, b: int, q: int)
    requires d > 0 && a % d == 0 && b % d == 0
    ensures (a + q * b) % d == 0
  {
    var x := a / d;
    var y := b / d;
    assert a == d * x;
    assert b == d * y;
    assert a + q * b == d * (x + q * y);
    MulMod(d, x + q * y);
  }

  /** A number and its absolute value have the same divisors. */
  lemma AbsDivides(d: nat, x: int)
    ensures Divides(d, Abs(x)) <==> Divides(d, x)
  {
    if d > 0 && x < 0 {
      if x % d == 0 {
        Combination(d, 0, x, -1);
      }
      if (-x) % d == 0 {
        Combination(d, 0, -x, -1);
      }
    }
  }

  /** One step of Euclid's loop keeps the common divisors. */
  lemma StepKeepsDivisors(d: nat, u: nat, v: nat)
    requires v > 0
    ensures Divides(d, u) && Divides(d, v) <==> Divides(d, v) && Divides(d, u % v)
  {
    var q := u / v;
    assert u == q * v + u % v;
    if d > 0 {
      if u % d == 0 && v % d == 0 {
        Combination(d, u, v, -q);
      }
      if v % d == 0 && (u % v) % d == 0 {
        Combination(d, u % v, v, q);
      }
    }
  }

  /** exif_gcd: the greatest common divisor of the absolute values, zero
      only when both arguments are zero. */
  method ExifGcd(ui: int, vi: int) returns (g: nat)
    requires INT32_MIN < ui <= INT32_MAX && INT32_MIN < vi <= INT32_MAX
    ensures IsGcd(g, ui, vi)
    ensures g == 0 <==> ui == 0 && vi == 0
  {
    var u := Abs(ui);
    var v := Abs(vi);
    forall d: nat ensures Divides(d, u) && Divides(d, v) <==> Divides(d, ui) && Divides(d, vi) {
      AbsDivides(d, ui);
      AbsDivides(d, vi);
    }
    while v != 0
      invariant forall d: nat :: Divides(d, u) && Divides(d, v) <==> Divides(d, ui) && Divides(d, vi)
      decreases v
    {
      var r := u % v;
      forall d: nat ensures Divides(d, u) && Divides(d, v) <==> Divides(d, v) && Divides(d, r) {
        StepKeepsDivisors(d, u, v);
      }
      u := v;
      v := r;
    }
    assert Divides(0, u) && Divides(0, v) <==> Divides(0, ui) && Divides(0, vi);
    g := u;
  }

  /** A positive number's divisors are no larger than it. */
  lemma DivisorBound(x: nat, g: nat)
    requires g > 0 && Divides(x, g)
    ensures x <= g
  {
    var q := g / x;
    assert g == x * q;
    MulAtLeast(x, q);
  }

  /** The last step of exif_dec2frac (exif.cc:950-956): the decimal
      numerator and its power-of-ten denominator divided by their greatest
      common divisor. Both are non-negative, so C's truncating division is
      the exact quotient. The result is the same ratio in lowest terms. */
  method ReduceFraction(num1: int, den1: int) returns (num: int, den: int)
    requires 0 <= num1 <= INT32_MAX && 0 < den1 <= INT32_MAX
    ensures 0 <= num <= num1 && 0 < den <= den1
    ensures num * den1 == den * num1
    ensures IsGcd(1, num, den)
  {
    var gcd := ExifGcd(num1, den1);
    num := num1 / gcd;
    den := den1 / gcd;
    Quotients(gcd, num1, den1);
    forall d: nat | Divides(d, num) && Divides(d, den) ensures Divides(d, 1) {
      LowestTerms(gcd, num1, den1, num, den, d);
    }
  }

  /** Dividing both by a positive common divisor keeps the ratio. */
  lemma Quotients(g: nat, num1: int, den1: int)
    requires g > 0 && Divides(g, num1) && Divides(g, den1) && 0 <= num1 && 0 < den1
    ensures num1 == g * (num1 / g) && den1 == g * (den1 / g)
    ensures 0 <= num1 / g <= num1 && 0 < den1 / g <= den1
    ensures (num1 / g) * den1 == (den1 / g) * num1
  {
    var n := num1 / g;
    var d := den1 / g;
    assert num1 == g * n && den1 == g * d;
    MulAtLeast(g, n + 1);
    MulAtLeast(n, g);
    MulAtLeast(d, g);
    SwapMul(n, d, g);
  }

  lemma SwapMul(n: int, d: int, g: int)
    ensures n * (g * d) == d * (g * n)
  {
  }

  /** A common divisor of the quotients, scaled by the gcd, divides both
      inputs and so the gcd itself: it can only be one. */
  lemma LowestTerms(gcd: nat, num1: int, den1: int, num: int, den: int, d: nat)
    requires IsGcd(gcd, num1, den1) && gcd > 0 && num1 == gcd * num && den1 == gcd * den && den1 != 0
    requires Divides(d, num) && Divides(d, den)
    ensures d == 1
  {
    assert d != 0;
    var a := num / d;
    var b := den / d;
    assert num1 == (gcd * d) * a && den1 == (gcd * d) * b;
    MulMod(gcd * d, a);
    MulMod(gcd * d, b);
    assert Divides(gcd * d, gcd);
    DivisorBound(gcd * d, gcd);
    MulAtLeast(gcd, d);
  }

  /** Two greatest common divisors of the same pair are the same number,
      so ExifGcd returns the greatest common divisor. */
  lemma GcdUnique(g1: nat, g2: nat, a: int, b: int)
    requires IsGcd(g1, a, b) && IsGcd(g2, a, b)
    ensures g1 == g2
  {
    assert Divides(g1, g2) && Divides(g2, g1);
    if g1 > 0 && g2 > 0 {
      DivisorBound(g1, g2);
      DivisorBound(g2, g1);
    }
  }
}
