# Exact rationals over arbitrary-precision integers

A Dafny model of the Kotlin `rationals` package (`Rational.kt`). That file
defines three things:

- an immutable `Rational(n, d)`, a pair of `BigInteger`s stored exactly as
  given and never reduced;
- arithmetic operators that cross-multiply and never reduce;
- a comparison, an `equals` and a `toString` that reduce by the gcd and put the
  sign on the numerator only at the moment they need to, plus the
  `String.toRational` parser.

`BigInteger` becomes Dafny's unbounded `int`. The source has no loops and no
mutable state, so every operation is a function on the `Rational` datatype.
The properties are proved as contracts and lemmas. A ghost function
`Rationals.Value` gives the real number that a pair with a nonzero denominator
stands for. It is the reference that arithmetic, ordering and rendering are
checked against.

Files and modules:

- `number_theory.dfy` (`NumberTheory`): divisibility; Euclid's `Gcd` as
  `BigInteger.gcd` computes it (on magnitudes, with gcd(0, 0) = 0); the gcd is
  greatest, scales with its arguments, and leaves coprime quotients; Euclid's
  lemma.
- `decimal.dfy` (`Decimal`): `BigInteger(String)` as `ParseInteger` and
  `BigInteger.toString` as `IntToString`, with their round trip.
- `strings.dfy` (`Strings`): Kotlin's `split("/")`, which keeps empty pieces,
  with its inverse `Join`.
- `rational.dfy` (`Rationals`): the datatype, the constructors, the operators
  and `normalize`.
- `ordering.dfy` (`Ordering`): `compareTo`, `equals`, and range membership.
  Also a corrected comparison (see Findings).
- `text.dfy` (`RationalText`): `toString`/`printNormalized` and `toRational`.
- `demo.dfy` (`Demo`): the checks of the `main` smoke test, written as lemmas.

The model follows the code as written, including three behaviours that go
against the code's own evident aim. The general path of `compareTo`
(Rational.kt:92-96) compares by value, and the checks in `main` (lines 13-39)
expect equal values to be `equals`. Against that aim:

- The equal-numerator shortcut (line 91) compares the numerator with itself,
  so that branch always returns 0. With the code as written, `1/2` equals
  `1/3`.
- The equal-denominator shortcut (line 90) compares raw numerators. Over a
  shared negative denominator this reverses the order of the values.
- Nothing rejects a zero denominator. Only `0/0` fails, because only then is
  the gcd zero and the division by it throws. `n/0` normalizes to `±1/0` and
  prints as `"1/0"` or `"-1/0"`. So `Normalize`, `ToString` and the general
  path of `Compare` require "not 0/0" (`Normalizable`). They do not require a
  nonzero denominator.

## Model

| member | source | states |
|---|---|---|
| `Rationals.FromInt` | Rationals/Task/src/rationals/Rational.kt:86 | an integer becomes a pair over 1 whose value is that integer |
| `Rationals.DivBy` | Rationals/Task/src/rationals/Rational.kt:80-82 | `a divBy b` stores (a, b) unreduced, and its value is a/b |
| `Rationals.Neg` | Rationals/Task/src/rationals/Rational.kt:42-45 | the denominator is kept and the value is negated |
| `Rationals.NegInvolutive` | Rationals/Task/src/rationals/Rational.kt:42-45 | negating twice gives back the identical pair |
| `Rationals.Plus` | Rationals/Task/src/rationals/Rational.kt:47-51 | with nonzero denominators the result has a nonzero denominator and its value is the sum |
| `Rationals.Minus` | Rationals/Task/src/rationals/Rational.kt:53-57 | with nonzero denominators the result has a nonzero denominator and its value is the difference |
| `Rationals.Times` | Rationals/Task/src/rationals/Rational.kt:59-63 | with nonzero denominators the result has a nonzero denominator and its value is the product |
| `Rationals.Div` | Rationals/Task/src/rationals/Rational.kt:65-69 | a divisor with zero numerator gives a zero denominator; otherwise the value is the quotient |
| `Rationals.PlusTimesCommute` | Rationals/Task/src/rationals/Rational.kt:47-63 | `plus` and `times` commute on the raw pairs themselves |
| `Rationals.PlusAssociates` | Rationals/Task/src/rationals/Rational.kt:47-51 | `plus` associates on the raw pairs themselves |
| `Rationals.TimesAssociates` | Rationals/Task/src/rationals/Rational.kt:59-63 | `times` associates on the raw pairs themselves |
| `NumberTheory.Gcd` | Rationals/Task/src/rationals/Rational.kt:129 | the gcd divides both arguments and is zero only for gcd(0, 0) |
| `NumberTheory.GcdGreatest` | Rationals/Task/src/rationals/Rational.kt:129 | every common divisor divides the gcd |
| `NumberTheory.QuotientsCoprime` | Rationals/Task/src/rationals/Rational.kt:129-131 | dividing both terms by their gcd leaves them coprime |
| `Rationals.CanonicalSign` | Rationals/Task/src/rationals/Rational.kt:110-123 | sign placement keeps the magnitudes, makes the denominator nonnegative, makes the numerator negative exactly when one term was negative and n != 0, and keeps the value |
| `Rationals.ReduceByGcd` | Rationals/Task/src/rationals/Rational.kt:129-131 | division by `d.gcd(n)` gives coprime terms with the original signs and the original value |
| `Rationals.Normalize` | Rationals/Task/src/rationals/Rational.kt:128-138 | the denominator is nonnegative and zero only if d was; the terms are coprime; the numerator is negative exactly when one of n, d was negative and n != 0; and n·d' = n'·d |
| `Rationals.NormalizeReduced` | Rationals/Task/src/rationals/Rational.kt:128-138 | for d != 0 the result is in lowest terms with a positive denominator and has the same value |
| `Rationals.NormalizeCanonical` | Rationals/Task/src/rationals/Rational.kt:128-138 | pairs of equal value normalize to the same pair |
| `Rationals.NormalizeIdempotent` | Rationals/Task/src/rationals/Rational.kt:128-138 | a pair already in lowest terms is its own normal form |
| `Ordering.CompareInt` | Rationals/Task/src/rationals/Rational.kt:90-95 | `BigInteger.compareTo` is -1, 0 or 1, and its sign is the order of the two integers |
| `Ordering.Compare` | Rationals/Task/src/rationals/Rational.kt:88-98 | the result is -1, 0 or 1; on the general path (different denominators, different numerators) it is the sign of the difference of the values |
| `Ordering.NormalizedCrossCompare` | Rationals/Task/src/rationals/Rational.kt:92-96 | comparing cross products of the normalized operands orders the values |
| `Ordering.CompareSameDenominator` | Rationals/Task/src/rationals/Rational.kt:90 | with a shared positive denominator the result orders the values; with a shared negative one it reverses them |
| `Ordering.CompareSameNumerator` | Rationals/Task/src/rationals/Rational.kt:91 | with equal numerators and different denominators the result is always 0 |
| `Ordering.CompareAntisymmetric` | Rationals/Task/src/rationals/Rational.kt:88-98 | swapping the operands negates the result |
| `Ordering.Equals` | Rationals/Task/src/rationals/Rational.kt:100-105 | `equals` is `compareTo == 0`: over a shared denominator it is equality of numerators, over different denominators equal numerators always pass, and otherwise it is equality of value |
| `Ordering.EqualsReflexive` | Rationals/Task/src/rationals/Rational.kt:100-105 | every pair equals itself, 0/0 included |
| `Ordering.EqualsSymmetric` | Rationals/Task/src/rationals/Rational.kt:100-105 | `equals` is symmetric |
| `Ordering.SameValueEquals` | Rationals/Task/src/rationals/Rational.kt:100-105 | two pairs of the same value are `equals` whatever their representation |
| `Ordering.EqualsIffSameValue` | Rationals/Task/src/rationals/Rational.kt:100-105 | unless the numerators are equal and the denominators differ, `equals` holds exactly when the values are equal |
| `Ordering.EqualsNotTransitive` | Rationals/Task/src/rationals/Rational.kt:91 | 1/2 equals 1/3 and 1/3 equals 2/6, but 1/2 does not equal 2/6 |
| `Ordering.HalfEqualsThird` | Rationals/Task/src/rationals/Rational.kt:91 | as written, 1/2 and 1/3 are `equals` although their values differ |
| `Ordering.NegativeDenominatorReversed` | Rationals/Task/src/rationals/Rational.kt:90 | as written, 1/-2 compares above 0/-2 although its value is below |
| `Ordering.CompareByValue` | Rationals/Task/src/rationals/Rational.kt:92-96 | the comparison without shortcuts: for nonzero denominators it is the sign of the difference of the values |
| `Ordering.CompareByValueOrders` | Rationals/Task/src/rationals/Rational.kt:92-96 | the comparison without shortcuts is antisymmetric and transitive, and so is its equality |
| `Ordering.CompareAgreesByValue` | Rationals/Task/src/rationals/Rational.kt:88-98 | with nonzero denominators the code agrees with the value comparison exactly except on its two shortcuts: equal nonzero numerators over different denominators, and different numerators over a shared negative denominator |
| `Ordering.InRange` | Rationals/Task/src/rationals/Rational.kt:34 | `x in lo..hi` is `x >= lo && x <= hi` by `compareTo`: over one shared denominator it orders the raw numerators, and away from the shortcuts it means lo <= x <= hi by value |
| `Ordering.DivThenTimes` | Rationals/Task/src/rationals/Rational.kt:59-69 | dividing by b (nonzero numerator) and multiplying by b gives a pair equal to the original |
| `Decimal.ParseInteger` | Rationals/Task/src/rationals/Rational.kt:74-75 | `BigInteger(String)` accepts only an optional sign followed by ASCII digits; a digit string gives its decimal value, "-digits" its negation and "+digits" its value; a negative result comes from a leading '-' |
| `Decimal.IntToString` | Rationals/Task/src/rationals/Rational.kt:144 | `"$n"` starts with '-' exactly for negative n; the rest is the decimal digits of abs(n) with no leading zero |
| `Decimal.ParseIntToString` | Rationals/Task/src/rationals/Rational.kt:74-75 | parsing the rendering of any integer gives that integer |
| `Decimal.ParseIntegerRejectsEmpty` | Rationals/Task/src/rationals/Rational.kt:74 | the empty string and a lone sign are rejected |
| `Strings.Split` | Rationals/Task/src/rationals/Rational.kt:72 | `split("/")` gives one more piece than there are separators; no piece contains the separator; joining the pieces restores the string |
| `Strings.SplitJoin` | Rationals/Task/src/rationals/Rational.kt:72 | splitting undoes joining separator-free pieces |
| `RationalText.SignThenReduce` | Rationals/Task/src/rationals/Rational.kt:107-138 | placing the sign and then reducing, as `toString` does, gives the same pair as `normalize` |
| `RationalText.ToString` | Rationals/Task/src/rationals/Rational.kt:107-126 | the rendering is that of the normalized pair: its numerator alone when the denominator is 1, otherwise "n/d" |
| `RationalText.PrintNormalized` | Rationals/Task/src/rationals/Rational.kt:140-145 | the text reads back as a coprime pair with the signs of the arguments and the same cross product, so the same value |
| `RationalText.Render` | Rationals/Task/src/rationals/Rational.kt:144 | the slash appears exactly when the denominator is not 1, and `toRational` reads the text back as the same pair |
| `RationalText.ToStringShape` | Rationals/Task/src/rationals/Rational.kt:140-145 | for d != 0 the rendered terms are coprime, the minus appears only on the numerator and only for negative values, and a shown denominator is above 1 |
| `RationalText.ToStringOfReduced` | Rationals/Task/src/rationals/Rational.kt:140-145 | a pair renders as the reduced pair of its value |
| `RationalText.ToStringCanonical` | Rationals/Task/src/rationals/Rational.kt:107-145 | two pairs with nonzero denominators render alike exactly when their values are equal |
| `RationalText.ToStringScaleInvariant` | Rationals/Task/src/rationals/Rational.kt:107-145 | (k·n, k·d) renders like (n, d) for every k != 0, including k = -1 |
| `RationalText.ToStringZeroDenominator` | Rationals/Task/src/rationals/Rational.kt:107-145 | n/0 with n != 0 renders as "1/0" or "-1/0" |
| `RationalText.ToRational` | Rationals/Task/src/rationals/Rational.kt:71-78 | two or more '/' give "Wrong number of arguments"; otherwise the pieces are parsed, a rejected piece gives the number-format error, no '/' gives denominator 1, and the pieces parse to numerator and denominator |
| `RationalText.ToRationalOfRendered` | Rationals/Task/src/rationals/Rational.kt:71-78 | "x" parses to x/1 and "x/y" parses to (x, y) |
| `RationalText.RoundTrip` | Rationals/Task/src/rationals/Rational.kt:107-145 | for d != 0, parsing the rendering gives the normalized pair, which has the same value and is `equals` to the original |
| `Demo.ArithmeticOnHalfAndThird` | Rationals/Task/src/rationals/Rational.kt:9-25 | 1/2 + 1/3 = 5/6, 1/2 - 1/3 = 1/6, 1/2 · 1/3 = 1/6, (1/2)/(1/3) = 3/2, -(1/2) = -1/2 |
| `Demo.RenderWhole` | Rationals/Task/src/rationals/Rational.kt:27 | 2/1 renders as "2" |
| `Demo.RenderHalves` | Rationals/Task/src/rationals/Rational.kt:28 | -2/4 and 2/-4 render as "-1/2"; -2/-4 and 2/4 render as "1/2" |
| `Demo.ParseFraction` | Rationals/Task/src/rationals/Rational.kt:29 | "117/1098" parses to the unreduced pair 117/1098 |
| `Demo.PrintFraction` | Rationals/Task/src/rationals/Rational.kt:29 | 117/1098 renders as "13/122" |
| `Demo.FractionEqualsReduced` | Rationals/Task/src/rationals/Rational.kt:29 | 117/1098 equals 13/122 |
| `Demo.OrderExamples` | Rationals/Task/src/rationals/Rational.kt:31-34 | 1/2 < 2/3, and 1/2 is in 1/3..2/3 |
| `Demo.LargeTermsEqualHalf` | Rationals/Task/src/rationals/Rational.kt:36-39 | 2000000000/4000000000 and the 39/40-digit pair both equal 1/2 |
| `Demo.ParseErrors` | Rationals/Task/src/rationals/Rational.kt:76 | "1/2/3" is the wrong number of arguments; "", "1/" and "a" are number-format errors |

## Left out

- `main` prints its checks with `println`. The printing is left out; the checks are the `Demo` lemmas.
- `equals(other: Any?)` returns false for arguments that are not `Rational`. Dafny is statically typed, so `Ordering.Equals` only takes two rationals.
- `BigInteger(String)` also accepts non-ASCII Unicode digits (through `Character.digit`). `Decimal.ParseInteger` accepts only ASCII `0`-`9`.
- The `Int` and `Long` overloads of `divBy` and of the constructor only widen their arguments to `BigInteger`. With unbounded `int` they all become `Rationals.DivBy`, and there is no overflow to model.
- Exceptions are not modelled as control flow. The `ArithmeticException` that Java raises when it divides by a zero gcd (only for `0/0`) is excluded by the `Normalizable` precondition. The exceptions of `toRational` are the `RationalText.ParseError` values.
- Java divides by the gcd with truncating `/`. The model uses Dafny's Euclidean `/`. The two agree here because the gcd is positive and divides exactly.
- No `hashCode` is defined, so there is no hashing to model. Kotlin's `Comparable`/`ClosedRange` machinery becomes two `Compare` calls (`Ordering.InRange`).

## Findings

| source | as written | input that shows it | evidently intended | confidence | as-written member | corrected member |
|---|---|---|---|---|---|---|
| Rationals/Task/src/rationals/Rational.kt:91 | the equal-numerator branch returns `other.n.compareTo(n)`; there `n == other.n`, so it is always 0 | 1/2 vs 1/3: compares as 0 and is `equals`, though 1/2 > 1/3 | rationals compare by value, as the general path does | high (not executed) | `Ordering.HalfEqualsThird` | `Ordering.CompareByValue` |
| Rationals/Task/src/rationals/Rational.kt:90 | the equal-denominator branch compares raw numerators even when the shared denominator is negative | 1/-2 vs 0/-2: gives 1, though -1/2 < 0 | rationals compare by value, as the general path does | high (not executed) | `Ordering.NegativeDenominatorReversed` | `Ordering.CompareByValue` |

`Ordering.Compare` and `Ordering.Equals` keep the code as written, since that
is what the library does. `Ordering.CompareByValue` is the same comparison with
the two shortcuts removed. It is proved to order every pair with nonzero
denominators by value (`Ordering.CompareByValueOrders`).
For nonzero denominators, `Ordering.CompareAgreesByValue` names exactly the
inputs on which the two comparisons differ: the two shortcuts above. The round trip (`RationalText.RoundTrip`) holds under both.
The smoke test's `half in third..twoThirds` holds under both as well
(`Demo.OrderExamples`), so the smoke test does not reveal either shortcut.
