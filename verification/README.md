# Bruchrechner `Fraction`, modelled in Dafny

The Bruchrechner ("fraction calculator") is a single Java class, `Fraction`.
It holds two `int` fields, `numerator` and `denominator`, and offers:

- a constructor that rejects a zero numerator or a zero denominator;
- the getters `getNumerator` and `getDenominator`;
- `getGGF`, Euclid's algorithm (GGF, "groesster gemeinsamer Faktor", is the greatest common divisor);
- `trim`, which reduces to lowest terms;
- `addition`, `subtract`, `multiplicat` and `division`;
- `toString`.

The model has three modules:

- `JavaInt` (java_int.dfy) states Java's `int` semantics over unbounded integers:
  - the 32-bit range;
  - two's-complement wrap-around (`Wrap32`);
  - truncating division and remainder (`JavaDiv`, `JavaRem`: the remainder takes the sign of the dividend, unlike Dafny's Euclidean `%`);
  - divisibility (`Divides`).
- `DecimalText` (decimal_text.dfy) gives the decimal text that string concatenation writes for an `int`, and a parser that reads it back.
- `Fractions` (fraction.dfy) models the class in two layers.
  - A function per operation, on `Frac`, the pair of field values: `Make` is the constructor, `Reduced` is `trim`, then `Sum`, `Difference`, `Product` and `Quotient`.
  - The class `Fraction` has mutable `numerator` and `denominator` fields. Each method is proved to do what the matching function says.
  - Exceptions and `null` become `Fail(FractionErr)`, `Fail(MathErr)` and `Fail(Null)` of a `Result`.

Behaviour the model reproduces:

- **`subtract` mutates its receiver.** It assigns the difference to the receiver's own fields before constructing the result. When the numerators are equal it throws `FractionException`, but the receiver is already left with numerator 0. After that:
  - `trim()` on the receiver takes its `return null` path;
  - multiplying with the receiver, dividing it, or dividing by it throws `FractionException`.

  `Fraction.Subtract` has `modifies this`. When the subtrahend is the receiver itself, the subtrahend changes too.
- **`addition`, `multiplicat` and `division` reduce their result. `subtract` does not.**
- **Java `int` arithmetic wraps.** Sums, differences and products wrap modulo 2^32. A wrapped zero throws `FractionException`, as when two `MIN_VALUE` numerators are added.
- **`trim` can flip a sign.** `trim` divides with Java's `/`, so `MIN_VALUE / -1` wraps. `trim` of -1/MIN_VALUE is therefore 1/MIN_VALUE (`TrimSignFlip`).
- **`trim` is not always idempotent.** The GGF of -5/MIN_VALUE and of 5/MIN_VALUE is -1, so each trims to the other. As a result, the final `trim` in `division` can change the product: (-5/1) / (MIN_VALUE/1) is -5/MIN_VALUE, while the product it trims is 5/MIN_VALUE (`TrimNotIdempotent`).
- **`getGGF` on negative fields follows Java's `%`.** Its sign depends on the operands. Its magnitude is always the greatest common divisor (`GgfDividesBoth`, `GgfGreatest`).
- **`addition` compares denominators.** Its Javadoc (Fraction.java:87, :92) speaks of equal numerators, but the code compares denominators, and the model follows the code.

## Model

| member | source | states |
|---|---|---|
| `JavaInt.Wrap32` | de/matt3o/bruchrechner/Fraction.java:134-135 | an `int` operation yields the one in-range value congruent to the exact result modulo 2^32, and the exact result itself when that fits |
| `JavaInt.JavaRem` | de/matt3o/bruchrechner/Fraction.java:55 | Java's `a % b`: `a == JavaDiv(a, b) * b + r`, `|r| < |b|`, and `r` has the sign of `a` |
| `JavaInt.JavaDiv` | de/matt3o/bruchrechner/Fraction.java:75 | Java's `/` rounds toward zero: the quotient is non-negative for operands of equal sign and non-positive otherwise |
| `DecimalText.IntToString` | de/matt3o/bruchrechner/Fraction.java:154 | the text of an `int` in `toString` is non-empty, starts with `-` exactly for a negative value, and is otherwise all digits, with no leading zero: 0 prints as `0`, and any other value's first digit is not `0` |
| `DecimalText.IntToStringRoundTrip` | de/matt3o/bruchrechner/Fraction.java:154 | the decimal text of an `int` reads back as that `int`, and holds only digits and a minus sign |
| `Fractions.Ggf` | de/matt3o/bruchrechner/Fraction.java:51-56 | the recursion terminates because `|b|` decreases; for `b != 0` the result is nonzero and is `b` or smaller than `|b|`, so it is an `int` |
| `Fractions.GgfDividesBoth` | de/matt3o/bruchrechner/Fraction.java:51-56 | for `b != 0` the GGF divides both `a` and `b` (Java remainder zero) |
| `Fractions.GgfGreatest` | de/matt3o/bruchrechner/Fraction.java:51-56 | every common divisor of `a` and `b` divides the GGF, so its magnitude is the greatest common divisor |
| `Fractions.GgfPositive` | de/matt3o/bruchrechner/Fraction.java:51-56 | for `a >= 0` and `b > 0` the GGF is positive |
| `Fractions.GgfScale` | de/matt3o/bruchrechner/Fraction.java:51-56 | `Ggf(k*a, k*b) == k * Ggf(a, b)` for every nonzero `k`, sign included |
| `Fractions.Fraction.GetGgf` | de/matt3o/bruchrechner/Fraction.java:62-64 | the no-argument `getGGF` is a nonzero `int` that divides both fields and is divided by every common divisor |
| `Fractions.Fraction.constructor` | de/matt3o/bruchrechner/Fraction.java:24-25 | stores both arguments in the fields |
| `Fractions.Fraction.GetNumerator` | de/matt3o/bruchrechner/Fraction.java:33-35 | returns the numerator of the fraction's value |
| `Fractions.Fraction.GetDenominator` | de/matt3o/bruchrechner/Fraction.java:41-43 | returns the denominator of the fraction's value, which is never zero |
| `Fractions.Make` | de/matt3o/bruchrechner/Fraction.java:17-26 | construction succeeds iff both arguments are nonzero and then holds them unchanged; otherwise `FractionException` |
| `Fractions.Fraction.New` | de/matt3o/bruchrechner/Fraction.java:17-43 | construction succeeds iff both arguments are nonzero, otherwise `FractionException`; on success the object is new and the getters return the arguments verbatim |
| `Fractions.Reduced` | de/matt3o/bruchrechner/Fraction.java:71-82 | a successful `trim` never stores a zero field |
| `Fractions.ReducedOutcome` | de/matt3o/bruchrechner/Fraction.java:71-82 | `trim` fails iff the numerator is zero, and then it returns `null` rather than throwing |
| `Fractions.TrimFits` | de/matt3o/bruchrechner/Fraction.java:75 | `trim`'s divisions overflow only when a field is `MIN_VALUE` and the GGF is not positive |
| `Fractions.ReducedDividesByGgf` | de/matt3o/bruchrechner/Fraction.java:72-75 | without overflow, `trim` of a nonzero pair succeeds and each original field is the new field times the GGF |
| `Fractions.ReducedPreservesValue` | de/matt3o/bruchrechner/Fraction.java:71-82 | without overflow, `trim` keeps the value: `n * d' == d * n'` |
| `Fractions.ReducedLowestTerms` | de/matt3o/bruchrechner/Fraction.java:71-82 | without overflow, the trimmed pair has GGF 1 and no common divisor but 1 and -1 |
| `Fractions.ReducedIdempotent` | de/matt3o/bruchrechner/Fraction.java:71-82 | without overflow, trimming a trimmed fraction returns the same pair |
| `Fractions.ReducedPositive` | de/matt3o/bruchrechner/Fraction.java:71-82 | positive fields trim without overflow to positive fields no larger than the originals |
| `Fractions.TrimSignFlip` | de/matt3o/bruchrechner/Fraction.java:75 | `trim` of -1/MIN_VALUE is 1/MIN_VALUE, because `MIN_VALUE / -1` wraps; trimming 1/MIN_VALUE again changes nothing |
| `Fractions.TrimNotIdempotent` | de/matt3o/bruchrechner/Fraction.java:71-82 | the GGF of ±5/MIN_VALUE is -1, so -5/MIN_VALUE and 5/MIN_VALUE `trim` to each other, and `division`'s final `trim` turns the product 5/MIN_VALUE into -5/MIN_VALUE |
| `Fractions.Fraction.Trim` | de/matt3o/bruchrechner/Fraction.java:71-82 | the returned Fraction (or `null`) is `Reduced` of the receiver's fields; the result is a new object and the receiver is not modified |
| `Fractions.Sum` | de/matt3o/bruchrechner/Fraction.java:94-105 | `addition` throws `MathException` on different denominators; a result exists only for equal denominators and a nonzero `int` sum, and has no zero field |
| `Fractions.SumOutcome` | de/matt3o/bruchrechner/Fraction.java:94-105 | `MathException` iff the denominators differ; with equal denominators, `FractionException` iff the `int` sum of the numerators wraps to zero; never `null` |
| `Fractions.SumValue` | de/matt3o/bruchrechner/Fraction.java:98-101 | without overflow, `addition` is `trim` of (n1 + n2, d), has the value of the sum, and is in lowest terms |
| `Fractions.Fraction.Add` | de/matt3o/bruchrechner/Fraction.java:94-105 | the outcome is `Sum` of the two operands' fields; neither operand is modified |
| `Fractions.Difference` | de/matt3o/bruchrechner/Fraction.java:115-124 | `subtract` keeps the receiver's denominator; a result is the receiver's new (unreduced) pair with a nonzero numerator, and only equal denominators give one; a failure is an exception, never `null` |
| `Fractions.DifferenceOutcome` | de/matt3o/bruchrechner/Fraction.java:115-124 | different denominators: `MathException`, receiver unchanged. Equal denominators: the receiver becomes (n1 - n2, d), the result is that same unreduced pair, and `FractionException` is thrown exactly when n1 == n2 |
| `Fractions.SubtractLeavesZero` | de/matt3o/bruchrechner/Fraction.java:117-120 | after a `subtract` of equal fractions throws, the receiver has numerator 0; `trim` on it returns `null`, and multiplying with it, dividing it or dividing by it throws `FractionException` |
| `Fractions.Fraction.Subtract` | de/matt3o/bruchrechner/Fraction.java:115-124 | the receiver's new fields and the outcome are `Difference` of the old fields; the subtrahend changes only if it is the receiver |
| `Fractions.Product` | de/matt3o/bruchrechner/Fraction.java:133-138 | a successful `multiplicat` never stores a zero field |
| `Fractions.ProductOutcome` | de/matt3o/bruchrechner/Fraction.java:133-138 | `multiplicat` fails only with `FractionException`; without overflow it fails iff a numerator is zero |
| `Fractions.ProductUnfolds` | de/matt3o/bruchrechner/Fraction.java:134-137 | without overflow, `multiplicat` is `trim` of (n1*n2, d1*d2) |
| `Fractions.ProductValue` | de/matt3o/bruchrechner/Fraction.java:133-138 | without overflow, `multiplicat` has the value of the product and is in lowest terms |
| `Fractions.Fraction.Multiply` | de/matt3o/bruchrechner/Fraction.java:133-138 | the outcome is `Product` of the two operands' fields; neither operand is modified |
| `Fractions.Quotient` | de/matt3o/bruchrechner/Fraction.java:146-150 | `division` by a divisor with numerator 0 throws `FractionException` from the reciprocal's constructor; a result has no zero field |
| `Fractions.QuotientOutcome` | de/matt3o/bruchrechner/Fraction.java:146-150 | `division` throws `FractionException` when either numerator is 0, fails with nothing else and never yields `null` (so the final `trim()` never dereferences `null`); without overflow in the cross products it fails iff a numerator is 0 |
| `Fractions.QuotientValue` | de/matt3o/bruchrechner/Fraction.java:146-150 | without overflow, `division` equals `multiplicat` by the reciprocal (the last `trim` changes nothing), and its value is (n1*d2)/(d1*n2) |
| `Fractions.Fraction.Divide` | de/matt3o/bruchrechner/Fraction.java:146-150 | the outcome is `Quotient` of the two operands' fields; neither operand is modified |
| `Fractions.Fraction.ToString` | de/matt3o/bruchrechner/Fraction.java:152-155 | the text `Fraction: [n/d]` determines both fields: parsing it gives the fields back |
| `Fractions.FormatRoundTrip` | de/matt3o/bruchrechner/Fraction.java:154 | `"Fraction: [" + n + "/" + d + "]"` parses back to (n, d) for all `int`s |
| `Fractions.ToStringExample` | de/matt3o/bruchrechner/Fraction.java:154 | 3/4 prints as `Fraction: [3/4]` |
| `Fractions.Examples` | de/matt3o/bruchrechner/Fraction.java:71-150 | worked cases: 6/8 trims to 3/4; 1/4 + 2/4 = 3/4; 1/4 + 1/3 throws `MathException`; 2/3 * 3/4 = 1/2; (1/2) / (1/3) = 3/2; dividing by 0/3 throws `FractionException` |

## Left out

- `e.printStackTrace()` (Fraction.java:77) is console output. Only the `null` result that follows it is modelled.
- The classes `FractionException` and `MathException` are not part of this model. Neither is the message text at Fraction.java:104 and :123. Both exceptions are the error tags `FractionErr` and `MathErr`.
- Object identity beyond aliasing of the receiver, and `equals` (not overridden), are left out. Fractions are compared by their fields.
- `ReducedDividesByGgf` and `ReducedPreservesValue` assume that `trim`'s divisions stay in `int` range (`TrimFitsInt32`). `TrimFits` shows this fails only when a field is `MIN_VALUE`, and `TrimSignFlip` shows the value is then not kept, so these two are false without the hypothesis.
- `ReducedLowestTerms` assumes `TrimFitsInt32` too. Its `Ggf == 1` clause needs this: `TrimNotIdempotent` shows the trimmed pair 5/MIN_VALUE has GGF -1. Its `Coprime` clause holds in the `MIN_VALUE` corner as well, but is not proved there, because that proof would need how the GGF changes when just one argument changes sign. `ReducedIdempotent` needs the hypothesis outright: -5/MIN_VALUE and 5/MIN_VALUE trim to each other (`TrimNotIdempotent`).
- `SumValue`, `ProductValue` and `QuotientValue` also assume the `int` sums and products do not wrap. The outcome lemmas and the class methods cover wrapped arithmetic in full.
- A `null` argument to `addition`, `subtract`, `multiplicat` or `division` makes Java throw `NullPointerException`. That case is not modelled: every `Fraction` parameter in the model is a non-null reference.
- A `null` returned by `multiplicat` would make `division` throw `NullPointerException`. That case is not modelled, because `ProductOutcome` proves it never arises.
