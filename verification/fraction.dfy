/**
 * The `Fraction` class of the Bruchrechner ("fraction calculator"): a pair of
 * Java `int`s, numerator and denominator, with Euclid's algorithm (`getGGF`,
 * GGF standing for "groesster gemeinsamer Faktor", the greatest common
 * divisor), reduction to lowest terms (`trim`), the four arithmetic
 * operations and `toString`.
 *
 * The behaviour of every operation on field values is given by a function on
 * `Frac`, the pair of fields; the class `Fraction` holds the fields as mutable
 * state and its methods are proved to behave as those functions say. Java's
 * exceptions and `null` become the `Fail` alternative of `Result`.
 */
module Fractions {
  import opened JavaInt
  import opened DecimalText

  /** `FractionException`, `MathException`, and the `null` that `trim` returns. */
  datatype Error = FractionErr | MathErr | Null

  datatype Result<T> = Ok(value: T) | Fail(error: Error)

  /** The two fields of a Fraction. */
  datatype Frac = Frac(num: Int32, den: Int32)

  // ---------------------------------------------------------------------
  // Euclid's algorithm

  /** The recursive Euclidean algorithm over Java's truncating remainder. */
  function Ggf(a: int, b: int): (g: int)
    ensures b != 0 ==> g != 0 && (g == b || Abs(g) < Abs(b))
    decreases Abs(b)
  {
    if b == 0 then a else Ggf(b, JavaRem(a, b))
  }

  /** Every pair with `b != 0` is reduced by a common divisor. */
  lemma {:induction false} GgfDividesBoth(a: int, b: int)
    requires b != 0
    ensures Divides(Ggf(a, b), a) && Divides(Ggf(a, b), b)
    decreases Abs(b)
  {
    var q, r := JavaDiv(a, b), JavaRem(a, b);
    if r == 0 {
      assert Ggf(a, b) == Ggf(b, 0) == b;
      DividesMultiple(b, q);
      DividesMultiple(b, 1);
    } else {
      GgfDividesBoth(b, r);
      DividesLinear(Ggf(b, r), b, r, q);
    }
  }

  /** Every common divisor of `a` and `b` divides their GGF: it is the greatest one. */
  lemma {:induction false} GgfGreatest(a: int, b: int, c: int)
    requires b != 0 && Divides(c, a) && Divides(c, b)
    ensures Divides(c, Ggf(a, b))
    decreases Abs(b)
  {
    var q, r := JavaDiv(a, b), JavaRem(a, b);
    DividesLinear(c, b, a, -q);
    assert (-q) * b + a == r;
    if r == 0 {
      assert Ggf(a, b) == Ggf(b, 0) == b;
    } else {
      GgfGreatest(b, r, c);
    }
  }

  /** On a non-negative `a` and a positive `b` the GGF is positive. */
  lemma {:induction false} GgfPositive(a: int, b: int)
    requires a >= 0 && b > 0
    ensures Ggf(a, b) > 0
    decreases b
  {
    var r := JavaRem(a, b);
    if r == 0 {
      assert Ggf(a, b) == Ggf(b, 0) == b;
    } else {
      GgfPositive(b, r);
    }
  }

  /** Scaling both arguments by a nonzero `k` scales the GGF by `k`, sign included. */
  lemma {:induction false} GgfScale(k: int, a: int, b: int)
    requires k != 0
    ensures Ggf(k * a, k * b) == k * Ggf(a, b)
    decreases Abs(b)
  {
    if b != 0 {
      JavaRemScale(k, a, b);
      GgfScale(k, b, JavaRem(a, b));
    }
  }

  /** `w` has the value `n / d`: the cross products agree. */
  predicate Represents(w: Frac, n: int, d: int) {
    n * w.den == d * w.num
  }

  /** No common divisor other than 1 and -1. */
  ghost predicate Coprime(x: int, y: int) {
    forall c :: Divides(c, x) && Divides(c, y) ==> Abs(c) == 1
  }

  // ---------------------------------------------------------------------
  // Behaviour of each operation on field values

  /** The constructor: both arguments must be nonzero. */
  function Make(num: Int32, den: Int32): (r: Result<Frac>)
    ensures r.Ok? <==> num != 0 && den != 0
    ensures r.Ok? ==> r.value == Frac(num, den)
    ensures r.Fail? ==> r.error == FractionErr
  {
    if num == 0 || den == 0 then Fail(FractionErr) else Ok(Frac(num, den))
  }

  /**
   * `trim`: both fields divided (with Java's `int` division) by their GGF;
   * the `FractionException` of a zero result is turned into `null`.
   */
  function Reduced(v: Frac): (r: Result<Frac>)
    requires v.den != 0
    ensures r.Ok? ==> r.value.num != 0 && r.value.den != 0
  {
    var g := Ggf(v.num, v.den);
    match Make(Wrap32(JavaDiv(v.num, g)), Wrap32(JavaDiv(v.den, g)))
    case Ok(w) => Ok(w)
    case Fail(_) => Fail(Null)
  }

  /** Dividing both fields by their GGF stays in `int` range. */
  predicate TrimFitsInt32(v: Frac)
    requires v.den != 0
  {
    var g := Ggf(v.num, v.den);
    IsInt32(JavaDiv(v.num, g)) && IsInt32(JavaDiv(v.den, g))
  }

  /** `addition`: equal denominators required; the sum of the numerators, reduced. */
  function Sum(x: Frac, y: Frac): (r: Result<Frac>)
    requires x.den != 0 && y.den != 0
    ensures x.den != y.den ==> r == Fail(MathErr)
    ensures r.Ok? ==> x.den == y.den && Wrap32(x.num + y.num) != 0
    ensures r.Ok? ==> r.value.num != 0 && r.value.den != 0
  {
    if y.den == x.den then
      match Make(Wrap32(y.num + x.num), x.den)
      case Ok(s) => Reduced(s)
      case Fail(e) => Fail(e)
    else
      Fail(MathErr)
  }

  /**
   * `subtract`: the receiver's new fields, and the outcome. With equal
   * denominators the receiver is overwritten with the difference before the
   * result is constructed; the result is not reduced.
   */
  function Difference(x: Frac, y: Frac): (r: (Frac, Result<Frac>))
    requires x.den != 0 && y.den != 0
    ensures r.0.den == x.den
    ensures r.1.Ok? ==> r.1.value == r.0 && r.0.num != 0 && x.den == y.den
    ensures r.1.Fail? ==> r.1.error != Null
  {
    if y.den == x.den then
      var d := Frac(Wrap32(x.num - y.num), x.den);
      (d, Make(d.num, d.den))
    else
      (x, Fail(MathErr))
  }

  /** `multiplicat`: numerators and denominators multiplied, then reduced. */
  function Product(x: Frac, y: Frac): (r: Result<Frac>)
    requires x.den != 0 && y.den != 0
    ensures r.Ok? ==> r.value.num != 0 && r.value.den != 0
  {
    match Make(Wrap32(y.num * x.num), Wrap32(y.den * x.den))
    case Ok(p) => Reduced(p)
    case Fail(e) => Fail(e)
  }

  /** `division`: multiplication by the reciprocal of the divisor, reduced once more. */
  function Quotient(x: Frac, y: Frac): (r: Result<Frac>)
    requires x.den != 0 && y.den != 0
    ensures y.num == 0 ==> r == Fail(FractionErr)
    ensures r.Ok? ==> r.value.num != 0 && r.value.den != 0
  {
    match Make(y.den, y.num)
    case Fail(e) => Fail(e)
    case Ok(reciprocal) =>
      match Product(x, reciprocal)
      case Ok(p) => Reduced(p)
      case Fail(e) => Fail(e)
  }

  // ---------------------------------------------------------------------
  // Properties of trim

  /** Both fields are the GGF times a quotient, and the quotients are no larger. */
  lemma ReducedParts(v: Frac)
    requires v.den != 0
    ensures var g := Ggf(v.num, v.den);
      && v.num == JavaDiv(v.num, g) * g && v.den == JavaDiv(v.den, g) * g
      && Abs(JavaDiv(v.num, g)) <= Abs(v.num) && Abs(JavaDiv(v.den, g)) <= Abs(v.den)
      && (JavaDiv(v.num, g) == 0 <==> v.num == 0) && JavaDiv(v.den, g) != 0
  {
    var g := Ggf(v.num, v.den);
    GgfDividesBoth(v.num, v.den);
    JavaDivBound(v.num, g);
    JavaDivBound(v.den, g);
  }

  /**
   * `trim` fails exactly when the numerator is zero (possible only after a
   * failed `subtract`), and then only with `null`.
   */
  lemma ReducedOutcome(v: Frac)
    requires v.den != 0
    ensures Reduced(v).Fail? <==> v.num == 0
    ensures Reduced(v).Fail? ==> Reduced(v).error == Null
  {
    var g := Ggf(v.num, v.den);
    ReducedParts(v);
    WrapSmall(JavaDiv(v.num, g));
    WrapSmall(JavaDiv(v.den, g));
  }

  /** Overflow in `trim` needs a GGF of -1 and a field equal to `Integer.MIN_VALUE`. */
  lemma TrimFits(v: Frac)
    requires v.den != 0
    requires (v.num != MinInt && v.den != MinInt) || Ggf(v.num, v.den) > 0
    ensures TrimFitsInt32(v)
  {
    ReducedParts(v);
  }

  /**
   * Without overflow, `trim` of a nonzero pair divides both fields exactly
   * by the GGF.
   */
  lemma ReducedDividesByGgf(v: Frac)
    requires v.num != 0 && v.den != 0 && TrimFitsInt32(v)
    ensures Reduced(v).Ok?
    ensures var g, w := Ggf(v.num, v.den), Reduced(v).value;
      v.num == w.num * g && v.den == w.den * g
  {
    ReducedOutcome(v);
    ReducedParts(v);
  }

  /** `trim` preserves the value of the fraction: cross products agree. */
  lemma ReducedPreservesValue(v: Frac)
    requires v.num != 0 && v.den != 0 && TrimFitsInt32(v)
    ensures Reduced(v).Ok?
    ensures Represents(Reduced(v).value, v.num, v.den)
  {
    ReducedDividesByGgf(v);
    var g, w := Ggf(v.num, v.den), Reduced(v).value;
    CrossMultiply(v.num, v.den, w.num, w.den, g);
  }

  lemma CrossMultiply(n: int, d: int, p: int, q: int, g: int)
    requires n == p * g && d == q * g
    ensures n * q == d * p
  {
  }

  /** The result of `trim` is in lowest terms: its GGF is 1 and it has no other common divisor. */
  lemma ReducedLowestTerms(v: Frac)
    requires v.num != 0 && v.den != 0 && TrimFitsInt32(v)
    ensures Reduced(v).Ok?
    ensures Ggf(Reduced(v).value.num, Reduced(v).value.den) == 1
    ensures Coprime(Reduced(v).value.num, Reduced(v).value.den)
  {
    ReducedDividesByGgf(v);
    var g, w := Ggf(v.num, v.den), Reduced(v).value;
    GgfOfCofactors(v.num, v.den, w.num, w.den, g);
    GgfOneCoprime(w.num, w.den);
  }

  /** Dividing out the GGF leaves cofactors whose GGF is 1. */
  lemma GgfOfCofactors(n: int, d: int, p: int, q: int, g: int)
    requires n == p * g && d == q * g && g == Ggf(n, d) && g != 0
    ensures Ggf(p, q) == 1
  {
    assert g * p == n && g * q == d;
    GgfScale(g, p, q);
    MulCancel(g, Ggf(p, q), 1);
  }

  /** A GGF of 1 leaves no common divisor but 1 and -1. */
  lemma GgfOneCoprime(p: int, q: int)
    requires q != 0 && Ggf(p, q) == 1
    ensures Coprime(p, q)
  {
    forall c | Divides(c, p) && Divides(c, q)
      ensures Abs(c) == 1
    {
      GgfGreatest(p, q, c);
      DividesOne(c);
    }
  }

  /** Trimming a trimmed fraction changes nothing. */
  lemma ReducedIdempotent(v: Frac)
    requires v.num != 0 && v.den != 0 && TrimFitsInt32(v)
    ensures Reduced(v).Ok?
    ensures Reduced(Reduced(v).value) == Reduced(v)
  {
    ReducedLowestTerms(v);
    var w := Reduced(v).value;
    JavaRemUnique(w.num, 1, w.num, 0);
    JavaRemUnique(w.den, 1, w.den, 0);
  }

  /**
   * A fraction with positive fields trims without overflow to positive
   * fields no larger than the original ones.
   */
  lemma ReducedPositive(v: Frac)
    requires v.num > 0 && v.den > 0
    ensures TrimFitsInt32(v) && Reduced(v).Ok?
    ensures 0 < Reduced(v).value.num <= v.num && 0 < Reduced(v).value.den <= v.den
  {
    GgfPositive(v.num, v.den);
    TrimFits(v);
    ReducedParts(v);
    ReducedOutcome(v);
  }

  /**
   * The overflow corner: `Integer.MIN_VALUE / -1` wraps, so `trim` of
   * -1/MIN_VALUE gives 1/MIN_VALUE, a fraction of the opposite sign. That
   * result is still in lowest terms: trimming it again changes nothing.
   */
  lemma TrimSignFlip()
    ensures Reduced(Frac(-1, MinInt)) == Ok(Frac(1, MinInt))
    ensures !TrimFitsInt32(Frac(-1, MinInt))
    ensures Reduced(Frac(1, MinInt)) == Ok(Frac(1, MinInt))
  {
  }

  /**
   * In the same corner `trim` is not idempotent: the GGF of -5/MIN_VALUE
   * and of 5/MIN_VALUE is -1, so each trims to the other. The final `trim`
   * of `division` can therefore change the product it is given.
   */
  lemma TrimNotIdempotent()
    ensures Ggf(-5, MinInt) == -1 && Ggf(5, MinInt) == -1
    ensures Reduced(Frac(-5, MinInt)) == Ok(Frac(5, MinInt))
    ensures Reduced(Frac(5, MinInt)) == Ok(Frac(-5, MinInt))
    ensures Product(Frac(-5, 1), Frac(1, MinInt)) == Ok(Frac(5, MinInt))
    ensures Quotient(Frac(-5, 1), Frac(MinInt, 1)) == Ok(Frac(-5, MinInt))
  {
    assert Ggf(-5, MinInt) == -1 by {
      assert JavaRem(-5, MinInt) == -5 && JavaRem(MinInt, -5) == -3;
      assert JavaRem(-5, -3) == -2 && JavaRem(-3, -2) == -1 && JavaRem(-2, -1) == 0;
    }
    assert Ggf(5, MinInt) == -1 by {
      assert JavaRem(5, MinInt) == 5 && JavaRem(MinInt, 5) == -3;
      assert JavaRem(5, -3) == 2 && JavaRem(-3, 2) == -1 && JavaRem(2, -1) == 0;
    }
    assert Reduced(Frac(-5, MinInt)) == Ok(Frac(5, MinInt));
    assert Product(Frac(-5, 1), Frac(1, MinInt)) == Ok(Frac(5, MinInt));
  }

  // ---------------------------------------------------------------------
  // Properties of the arithmetic operations

  /**
   * `addition` throws `MathException` exactly on different denominators, and
   * `FractionException` exactly when the `int` sum of the numerators is zero;
   * otherwise it is `trim` of the sum over the shared denominator.
   */
  lemma SumOutcome(x: Frac, y: Frac)
    requires x.den != 0 && y.den != 0
    ensures Sum(x, y) == Fail(MathErr) <==> x.den != y.den
    ensures x.den == y.den ==>
      (Sum(x, y) == Fail(FractionErr) <==> x.num + y.num == 0 || x.num == y.num == MinInt)
    ensures Sum(x, y) != Fail(Null)
  {
    WrapZero(y.num + x.num);
    if x.den == y.den && Wrap32(y.num + x.num) != 0 {
      ReducedOutcome(Frac(Wrap32(y.num + x.num), x.den));
    }
  }

  /** Without overflow, `addition` yields the sum of the two fractions in lowest terms. */
  lemma SumValue(x: Frac, y: Frac)
    requires x.den != 0 && x.den == y.den
    requires IsInt32(x.num + y.num) && x.num + y.num != 0
    requires TrimFitsInt32(Frac(x.num + y.num, x.den))
    ensures Sum(x, y) == Reduced(Frac(x.num + y.num, x.den)) && Sum(x, y).Ok?
    ensures Represents(Sum(x, y).value, x.num + y.num, x.den)
    ensures Coprime(Sum(x, y).value.num, Sum(x, y).value.den)
  {
    var s := Frac(x.num + y.num, x.den);
    ReducedPreservesValue(s);
    ReducedLowestTerms(s);
  }

  /**
   * `subtract` throws `MathException` on different denominators and then
   * leaves the receiver alone. Otherwise the receiver takes the `int`
   * difference over the shared denominator, and the result is that same
   * unreduced pair, or `FractionException` exactly when the numerators were
   * equal, in which case the receiver is left with numerator zero.
   */
  lemma DifferenceOutcome(x: Frac, y: Frac)
    requires x.den != 0 && y.den != 0
    ensures x.den != y.den ==> Difference(x, y) == (x, Fail(MathErr))
    ensures x.den == y.den ==> Difference(x, y).0.den == x.den
    ensures x.den == y.den ==> (Difference(x, y).0.num == 0 <==> x.num == y.num)
    ensures x.den == y.den ==> (Difference(x, y).1.Fail? <==> x.num == y.num)
    ensures Difference(x, y).1.Fail? ==> Difference(x, y).1.error != Null
    ensures Difference(x, y).1.Ok? ==> Difference(x, y).1.value == Difference(x, y).0
    ensures x.den == y.den && IsInt32(x.num - y.num) ==> Difference(x, y).0.num == x.num - y.num
  {
  }

  /**
   * After a `subtract` of equal fractions has thrown, the receiver holds
   * numerator zero: `trim` on it returns `null`, and multiplying with it or
   * dividing by it throws `FractionException`.
   */
  lemma SubtractLeavesZero(x: Frac, y: Frac, z: Frac)
    requires x.den != 0 && z.den != 0 && x == y
    ensures Difference(x, y).1 == Fail(FractionErr)
    ensures var zero := Difference(x, y).0;
      && zero.num == 0 && zero.den != 0
      && Reduced(zero) == Fail(Null)
      && Product(z, zero) == Fail(FractionErr)
      && Product(zero, z) == Fail(FractionErr)
      && Quotient(z, zero) == Fail(FractionErr)
      && Quotient(zero, z) == Fail(FractionErr)
  {
  }

  /**
   * `multiplicat` never throws `MathException` and never yields `null`;
   * without overflow it throws `FractionException` exactly when a numerator
   * is zero.
   */
  lemma ProductOutcome(x: Frac, y: Frac)
    requires x.den != 0 && y.den != 0
    ensures Product(x, y).Fail? ==> Product(x, y).error == FractionErr
    ensures IsInt32(x.num * y.num) && IsInt32(x.den * y.den) ==>
      (Product(x, y).Fail? <==> x.num == 0 || y.num == 0)
  {
    var n, d := Wrap32(y.num * x.num), Wrap32(y.den * x.den);
    if n != 0 && d != 0 {
      ReducedOutcome(Frac(n, d));
    }
    if IsInt32(x.num * y.num) && IsInt32(x.den * y.den) {
      ProductsExact(x, y);
    }
  }

  /** Without overflow, the `int` products are the exact ones, zero only for a zero numerator. */
  lemma ProductsExact(x: Frac, y: Frac)
    requires x.den != 0 && y.den != 0
    requires IsInt32(x.num * y.num) && IsInt32(x.den * y.den)
    ensures Wrap32(y.num * x.num) == x.num * y.num && Wrap32(y.den * x.den) == x.den * y.den
    ensures x.den * y.den != 0 && (x.num * y.num == 0 <==> x.num == 0 || y.num == 0)
  {
  }

  /** Without overflow, `multiplicat` yields the product of the two fractions in lowest terms. */
  lemma ProductValue(x: Frac, y: Frac)
    requires x.num != 0 && x.den != 0 && y.num != 0 && y.den != 0
    requires IsInt32(x.num * y.num) && IsInt32(x.den * y.den)
    requires TrimFitsInt32(Frac(x.num * y.num, x.den * y.den))
    ensures Product(x, y).Ok?
    ensures Represents(Product(x, y).value, x.num * y.num, x.den * y.den)
    ensures Coprime(Product(x, y).value.num, Product(x, y).value.den)
  {
    ProductUnfolds(x, y);
    var p := Frac(x.num * y.num, x.den * y.den);
    ReducedPreservesValue(p);
    ReducedLowestTerms(p);
  }

  /** Without overflow, `multiplicat` is `trim` of the exact products. */
  lemma ProductUnfolds(x: Frac, y: Frac)
    requires x.num != 0 && x.den != 0 && y.num != 0 && y.den != 0
    requires IsInt32(x.num * y.num) && IsInt32(x.den * y.den)
    ensures x.num * y.num != 0 && x.den * y.den != 0
    ensures Product(x, y) == Reduced(Frac(x.num * y.num, x.den * y.den))
  {
    MulSign(x.num, y.num);
    MulSign(x.den, y.den);
    assert y.num * x.num == x.num * y.num && y.den * x.den == x.den * y.den;
  }

  /**
   * `division` throws `FractionException` when either numerator is zero; it
   * never throws `MathException` and never yields `null`. Without overflow
   * in the cross products it succeeds exactly when both numerators are
   * nonzero.
   */
  lemma QuotientOutcome(x: Frac, y: Frac)
    requires x.den != 0 && y.den != 0
    ensures y.num == 0 || x.num == 0 ==> Quotient(x, y) == Fail(FractionErr)
    ensures Quotient(x, y).Fail? ==> Quotient(x, y).error == FractionErr
    ensures IsInt32(x.num * y.den) && IsInt32(x.den * y.num) ==>
      (Quotient(x, y).Fail? <==> x.num == 0 || y.num == 0)
  {
    if y.num != 0 {
      var reciprocal := Frac(y.den, y.num);
      ProductOutcome(x, reciprocal);
      if Product(x, reciprocal).Ok? {
        ReducedOutcome(Product(x, reciprocal).value);
      }
    }
  }

  /**
   * Without overflow, `division` multiplies by the reciprocal (the final
   * `trim` changes nothing) and yields the quotient of the two fractions.
   */
  lemma QuotientValue(x: Frac, y: Frac)
    requires x.num != 0 && x.den != 0 && y.num != 0 && y.den != 0
    requires IsInt32(x.num * y.den) && IsInt32(x.den * y.num)
    requires TrimFitsInt32(Frac(x.num * y.den, x.den * y.num))
    ensures Quotient(x, y) == Product(x, Frac(y.den, y.num)) && Quotient(x, y).Ok?
    ensures Represents(Quotient(x, y).value, x.num * y.den, x.den * y.num)
  {
    var reciprocal := Frac(y.den, y.num);
    ProductValue(x, reciprocal);
    ProductUnfolds(x, reciprocal);
    ReducedIdempotent(Frac(x.num * y.den, x.den * y.num));
  }

  /** Worked examples: 6/8 trims to 3/4, 1/4 + 2/4 = 3/4, 1/4 + 1/3 throws, 2/3 * 3/4 = 1/2, (1/2) / (1/3) = 3/2. */
  lemma Examples()
    ensures Reduced(Frac(6, 8)) == Ok(Frac(3, 4))
    ensures Sum(Frac(1, 4), Frac(2, 4)) == Ok(Frac(3, 4))
    ensures Sum(Frac(1, 4), Frac(1, 3)) == Fail(MathErr)
    ensures Product(Frac(2, 3), Frac(3, 4)) == Ok(Frac(1, 2))
    ensures Quotient(Frac(1, 2), Frac(1, 3)) == Ok(Frac(3, 2))
    ensures Quotient(Frac(1, 2), Frac(0, 3)) == Fail(FractionErr)
  {
  }

  // ---------------------------------------------------------------------
  // toString

  const Prefix: string := "Fraction: ["

  /** The first index of `c` in `s`, or `|s|` when there is none. */
  function IndexOf(s: string, c: char): (k: nat)
    ensures k <= |s| && (k < |s| ==> s[k] == c)
    ensures forall j :: 0 <= j < k ==> s[j] != c
  {
    if s == [] then 0 else if s[0] == c then 0 else 1 + IndexOf(s[1..], c)
  }

  /** Reads back the text `toString` writes. */
  function ParseFraction(s: string): Option<Frac> {
    if |s| < |Prefix| + 1 || s[..|Prefix|] != Prefix || s[|s| - 1] != ']' then None
    else
      var body := s[|Prefix|..|s| - 1];
      var k := IndexOf(body, '/');
      if k == |body| then None
      else
        match (ParseInt(body[..k]), ParseInt(body[k + 1..]))
        case (Some(n), Some(d)) =>
          if IsInt32(n) && IsInt32(d) then Some(Frac(n, d)) else None
        case _ => None
  }

  /** `toString`'s text determines both fields. */
  lemma FormatRoundTrip(v: Frac)
    ensures ParseFraction(Prefix + IntToString(v.num) + "/" + IntToString(v.den) + "]") == Some(v)
  {
    var a, b := IntToString(v.num), IntToString(v.den);
    IntToStringRoundTrip(v.num);
    IntToStringRoundTrip(v.den);
    var s := Prefix + a + "/" + b + "]";
    var body := a + "/" + b;
    assert s[..|Prefix|] == Prefix;
    assert s[|Prefix|..|s| - 1] == body;
    assert forall j :: 0 <= j < |a| ==> body[j] == a[j];
    assert body[|a|] == '/';
    assert IndexOf(body, '/') == |a|;
    assert body[..|a|] == a;
    assert body[|a| + 1..] == b;
  }

  // ---------------------------------------------------------------------
  // The class

  /** The fields of a returned Fraction; errors pass through. */
  function Observe(r: Result<Fraction>): Result<Frac>
    reads if r.Ok? then {r.value} else {}
  {
    match r
    case Ok(f) => Ok(f.Value())
    case Fail(e) => Fail(e)
  }

  class Fraction {
    var numerator: Int32
    var denominator: Int32

    /**
     * Nothing ever stores a zero denominator. The numerator is nonzero after
     * construction but becomes zero when a `subtract` of equal numerators
     * throws.
     */
    ghost predicate Valid()
      reads this
    {
      denominator != 0
    }

    function Value(): Frac
      reads this
    {
      Frac(numerator, denominator)
    }

    /** The field assignments, reached once both arguments have been checked. */
    constructor (numerator: Int32, denominator: Int32)
      requires numerator != 0 && denominator != 0
      ensures Valid() && Value() == Frac(numerator, denominator)
    {
      this.numerator := numerator;
      this.denominator := denominator;
    }

    /** `new Fraction(numerator, denominator)`: throws on a zero argument. */
    static method New(numerator: Int32, denominator: Int32) returns (r: Result<Fraction>)
      ensures Observe(r) == Make(numerator, denominator)
      ensures r.Ok? <==> numerator != 0 && denominator != 0
      ensures r.Fail? ==> r.error == FractionErr
      ensures r.Ok? ==> fresh(r.value) && r.value.Valid()
      ensures r.Ok? ==> r.value.GetNumerator() == numerator && r.value.GetDenominator() == denominator
    {
      if numerator == 0 || denominator == 0 {
        r := Fail(FractionErr);
      } else {
        var f := new Fraction(numerator, denominator);
        r := Ok(f);
      }
    }

    /** `getNumerator()`: the numerator of the fraction's value. */
    function GetNumerator(): (n: Int32)
      reads this
      ensures n == Value().num
    {
      numerator
    }

    /** `getDenominator()`: the denominator of the fraction's value, nonzero. */
    function GetDenominator(): (d: Int32)
      reads this
      ensures d == Value().den
      ensures Valid() ==> d != 0
    {
      denominator
    }

    /** `getGGF()`: a nonzero `int` dividing both fields, and every common divisor divides it. */
    function GetGgf(): (g: Int32)
      reads this
      requires Valid()
      ensures g != 0 && Divides(g, numerator) && Divides(g, denominator)
      ensures forall c :: Divides(c, numerator) && Divides(c, denominator) ==> Divides(c, g)
    {
      GgfDividesBoth(numerator, denominator);
      GgfGreatestAll(numerator, denominator);
      Ggf(GetNumerator(), GetDenominator())
    }

    /** `trim()`: a new, reduced Fraction; the receiver is not modified. */
    method Trim() returns (r: Result<Fraction>)
      requires Valid()
      ensures Observe(r) == Reduced(Value())
      ensures r.Ok? ==> fresh(r.value) && r.value.Valid()
    {
      var ggf := GetGgf();
      r := New(Wrap32(JavaDiv(GetNumerator(), ggf)), Wrap32(JavaDiv(GetDenominator(), ggf)));
      if r.Fail? {
        r := Fail(Null);
      }
    }

    /** `addition(summand)`: neither operand is modified. */
    method Add(summand: Fraction) returns (r: Result<Fraction>)
      requires Valid() && summand.Valid()
      ensures Observe(r) == Sum(Value(), summand.Value())
      ensures r.Ok? ==> fresh(r.value) && r.value.Valid()
    {
      if summand.GetDenominator() == GetDenominator() {
        var sum := New(Wrap32(summand.GetNumerator() + GetNumerator()), GetDenominator());
        if sum.Fail? {
          r := Fail(sum.error);
        } else {
          r := sum.value.Trim();
        }
      } else {
        r := Fail(MathErr);
      }
    }

    /**
     * `subtract(subtrahend)`: with equal denominators the receiver's own
     * fields are overwritten with the difference before the result is
     * constructed. The subtrahend changes only when it is the receiver.
     */
    method Subtract(subtrahend: Fraction) returns (r: Result<Fraction>)
      requires Valid() && subtrahend.Valid()
      modifies this
      ensures Valid()
      ensures (Value(), Observe(r)) == Difference(old(Value()), old(subtrahend.Value()))
      ensures subtrahend != this ==> subtrahend.Value() == old(subtrahend.Value())
      ensures r.Ok? ==> fresh(r.value) && r.value.Valid()
    {
      if subtrahend.GetDenominator() == GetDenominator() {
        numerator := Wrap32(GetNumerator() - subtrahend.GetNumerator());
        denominator := GetDenominator();
        r := New(numerator, denominator);
      } else {
        r := Fail(MathErr);
      }
    }

    /** `multiplicat(multiplier)`: neither operand is modified. */
    method Multiply(multiplier: Fraction) returns (r: Result<Fraction>)
      requires Valid() && multiplier.Valid()
      ensures Observe(r) == Product(Value(), multiplier.Value())
      ensures r.Ok? ==> fresh(r.value) && r.value.Valid()
    {
      var product := New(Wrap32(multiplier.GetNumerator() * GetNumerator()),
                         Wrap32(multiplier.GetDenominator() * GetDenominator()));
      if product.Fail? {
        r := Fail(product.error);
      } else {
        r := product.value.Trim();
      }
    }

    /**
     * `division(divisor)`: the reciprocal is constructed first, so a divisor
     * with numerator zero throws `FractionException`. The product is never
     * `null`, so the final `trim()` call cannot dereference `null`.
     */
    method Divide(divisor: Fraction) returns (r: Result<Fraction>)
      requires Valid() && divisor.Valid()
      ensures Observe(r) == Quotient(Value(), divisor.Value())
      ensures r.Ok? ==> fresh(r.value) && r.value.Valid()
    {
      var reciprocal := New(divisor.GetDenominator(), divisor.GetNumerator());
      if reciprocal.Fail? {
        r := Fail(reciprocal.error);
        return;
      }
      var product := Multiply(reciprocal.value);
      if product.Fail? {
        r := Fail(product.error);
      } else {
        r := product.value.Trim();
      }
    }

    /** `toString()`: the text determines both fields. */
    function ToString(): (s: string)
      reads this
      ensures ParseFraction(s) == Some(Value())
    {
      FormatRoundTrip(Value());
      Prefix + IntToString(numerator) + "/" + IntToString(denominator) + "]"
    }
  }

  /** `toString` of 3/4. */
  lemma ToStringExample(f: Fraction)
    requires f.Value() == Frac(3, 4)
    ensures f.ToString() == "Fraction: [3/4]"
  {
  }

  /** GgfGreatest for every common divisor at once. */
  lemma GgfGreatestAll(a: int, b: int)
    requires b != 0
    ensures forall c :: Divides(c, a) && Divides(c, b) ==> Divides(c, Ggf(a, b))
  {
    forall c | Divides(c, a) && Divides(c, b)
      ensures Divides(c, Ggf(a, b))
    {
      GgfGreatest(a, b, c);
    }
  }
}
