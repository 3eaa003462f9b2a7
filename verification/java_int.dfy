/**
 * Java's 32-bit `int` arithmetic over Dafny's unbounded integers: the value
 * range, the two's-complement wrap-around of `+`, `-`, `*` and `/`, and the
 * truncating division and remainder (quotient rounded toward zero, remainder
 * carrying the sign of the dividend). Dafny's own `/` and `%` are Euclidean
 * and disagree with Java's whenever the dividend is negative and not a
 * multiple of the divisor, so they are used here only on non-negative
 * dividends and positive divisors.
 */
module JavaInt {

  const MinInt: int := -0x8000_0000
  const MaxInt: int := 0x7fff_ffff
  /** 2^32, the number of distinct `int` values. */
  const Modulus: int := 0x1_0000_0000

  predicate IsInt32(x: int) { MinInt <= x <= MaxInt }

  /** A Java `int`. */
  type Int32 = x: int | IsInt32(x)

  function Abs(x: int): nat { if x < 0 then -x else x }

  /**
   * The `int` that a Java `+`, `-`, `*` or `/` yields when the exact result
   * is `x`: the one value in range congruent to `x` modulo 2^32.
   */
  function Wrap32(x: int): (r: Int32)
    ensures (x - r) % Modulus == 0
    ensures IsInt32(x) ==> r == x
  {
    (x - MinInt) % Modulus + MinInt
  }

  /** Wrap-around hits zero only at multiples of 2^32. */
  lemma WrapZero(x: int)
    requires -Modulus <= x < Modulus
    ensures Wrap32(x) == 0 <==> x == 0 || x == -Modulus
  {
  }

  /** A value of magnitude at most 2^31 wraps to zero only when it is zero. */
  lemma WrapSmall(x: int)
    requires Abs(x) <= -MinInt
    ensures Wrap32(x) == 0 <==> x == 0
  {
    WrapZero(x);
  }

  /** Java's `a / b` on exact integers: the quotient rounded toward zero. */
  function JavaDiv(a: int, b: int): (q: int)
    requires b != 0
    ensures (a >= 0 && b > 0) || (a <= 0 && b < 0) ==> q >= 0
    ensures (a >= 0 && b < 0) || (a <= 0 && b > 0) ==> q <= 0
  {
    if a >= 0 then
      (if b > 0 then a / b else -(a / -b))
    else
      (if b > 0 then -((-a) / b) else (-a) / (-b))
  }

  /** Java's `a % b`: what JavaDiv leaves over, carrying the sign of `a`. */
  function JavaRem(a: int, b: int): (r: int)
    requires b != 0
    ensures a == JavaDiv(a, b) * b + r
    ensures Abs(r) < Abs(b)
    ensures a >= 0 ==> r >= 0
    ensures a <= 0 ==> r <= 0
  {
    if a >= 0 then a % Abs(b) else -((-a) % Abs(b))
  }

  /** `d` divides `x`: `d` is nonzero and Java's `x % d` is zero. */
  predicate Divides(d: int, x: int) {
    d != 0 && JavaRem(x, d) == 0
  }

  lemma MulAtLeast(k: int, m: int)
    requires k >= 1 && m >= 0
    ensures k * m >= m
  {
  }

  /** Euclidean division by a positive divisor is determined by its defining equation. */
  lemma DivModUnique(a: int, m: int, q: int, r: int)
    requires m > 0 && a == q * m + r && 0 <= r < m
    ensures a / m == q && a % m == r
  {
    var q', r' := a / m, a % m;
    assert (q - q') * m == r' - r;
    if q' != q {
      MulAtLeast(Abs(q - q'), m);
    }
  }

  /**
   * Truncated division is determined by `a == q * b + r`, `|r| < |b|` and
   * the remainder taking the sign of the dividend.
   */
  lemma JavaRemUnique(a: int, b: int, q: int, r: int)
    requires b != 0 && a == q * b + r && Abs(r) < Abs(b)
    requires a >= 0 ==> r >= 0
    requires a <= 0 ==> r <= 0
    ensures JavaDiv(a, b) == q && JavaRem(a, b) == r
  {
    if a >= 0 && b > 0 {
      DivModUnique(a, b, q, r);
    } else if a >= 0 {
      assert a == (-q) * (-b) + r;
      DivModUnique(a, -b, -q, r);
    } else if b > 0 {
      assert -a == (-q) * b + (-r);
      DivModUnique(-a, b, -q, -r);
    } else {
      assert -a == q * (-b) + (-r);
      DivModUnique(-a, -b, q, -r);
    }
  }

  lemma MulAbs(x: int, y: int)
    ensures Abs(x * y) == Abs(x) * Abs(y)
  {
    if x < 0 && y < 0 {
      assert x * y == (-x) * (-y);
    } else if x < 0 {
      assert x * y == -((-x) * y);
    } else if y < 0 {
      assert x * y == -(x * (-y));
    }
  }

  /** Multiples of a nonzero `d` are divisible by it, with the obvious quotient. */
  lemma DividesMultiple(d: int, k: int)
    requires d != 0
    ensures Divides(d, k * d) && JavaDiv(k * d, d) == k
  {
    MulAbs(k, d);
    JavaRemUnique(k * d, d, k, 0);
  }

  /** A divisor of `x` and `y` divides every `k * x + y`. */
  lemma DividesLinear(d: int, x: int, y: int, k: int)
    requires Divides(d, x) && Divides(d, y)
    ensures Divides(d, k * x + y)
  {
    var qx, qy := JavaDiv(x, d), JavaDiv(y, d);
    LinearFactor(d, x, y, k, qx, qy);
    DividesMultiple(d, k * qx + qy);
  }

  lemma LinearFactor(d: int, x: int, y: int, k: int, qx: int, qy: int)
    requires x == qx * d && y == qy * d
    ensures k * x + y == (k * qx + qy) * d
  {
    MulRearrange(k, qx, d);
    assert k * x == qx * (k * d);
  }

  /** The only divisors of 1 are 1 and -1. */
  lemma DividesOne(c: int)
    requires Divides(c, 1)
    ensures Abs(c) == 1
  {
    if Abs(c) > 1 {
      DivModUnique(1, Abs(c), 0, 1);
    }
  }

  /** The truncated quotient is no larger in magnitude than the dividend. */
  lemma JavaDivBound(a: int, b: int)
    requires b != 0
    ensures Abs(JavaDiv(a, b)) <= Abs(a)
  {
    var m, q := Abs(b), Abs(JavaDiv(a, b));
    assert Abs(a) == q * m + Abs(JavaRem(a, b)) by {
      MulAbs(JavaDiv(a, b), b);
    }
    MulAtLeast(m, q);
    assert m * q == q * m;
  }

  /** Multiplying by a nonzero `k` keeps a strict bound on magnitudes. */
  lemma MulKeepsLess(k: int, r: int, b: int)
    requires k != 0 && Abs(r) < Abs(b)
    ensures Abs(k * r) < Abs(k * b)
  {
    MulAbs(k, b);
    MulAbs(k, r);
    MulAtLeast(Abs(b) - Abs(r), Abs(k));
    assert (Abs(b) - Abs(r)) * Abs(k) == Abs(k) * Abs(b) - Abs(k) * Abs(r);
  }

  lemma MulRearrange(x: int, y: int, z: int)
    ensures x * (y * z) == y * (x * z)
  {
  }

  lemma MulSign(x: int, y: int)
    requires x != 0 && y != 0
    ensures x * y != 0 && (x * y > 0 <==> (x > 0) == (y > 0))
  {
    MulAbs(x, y);
    MulAtLeast(Abs(x), Abs(y));
  }

  /** The defining facts of a truncated division survive scaling by `k`. */
  lemma ScaledDivision(k: int, a: int, b: int, q: int, r: int)
    requires k != 0 && a == q * b + r && Abs(r) < Abs(b)
    requires a >= 0 ==> r >= 0
    requires a <= 0 ==> r <= 0
    ensures k * a == q * (k * b) + k * r && Abs(k * r) < Abs(k * b)
    ensures k * a >= 0 ==> k * r >= 0
    ensures k * a <= 0 ==> k * r <= 0
  {
    MulKeepsLess(k, r, b);
    MulRearrange(k, q, b);
    if r != 0 {
      MulSign(k, a);
      MulSign(k, r);
    }
  }

  lemma MulCancel(g: int, h: int, k: int)
    requires g != 0 && g * h == g * k
    ensures h == k
  {
    if h != k {
      MulSign(g, h - k);
    }
  }

  /** Scaling dividend and divisor by `k` scales Java's remainder by `k`. */
  lemma JavaRemScale(k: int, a: int, b: int)
    requires k != 0 && b != 0
    ensures k * b != 0 && JavaRem(k * a, k * b) == k * JavaRem(a, b)
  {
    var q, r := JavaDiv(a, b), JavaRem(a, b);
    ScaledDivision(k, a, b, q, r);
    JavaRemUnique(k * a, k * b, q, k * r);
  }
}
