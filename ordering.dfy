/** `Rational.compareTo` and `Rational.equals`: two fast paths on the raw
    pairs, then a general path that normalizes both operands and compares cross
    products; equality is "compares as 0". */
module Ordering {
  import opened NumberTheory
  import opened Rationals

  /** `BigInteger.compareTo`: -1, 0 or 1. */
  function CompareInt(x: int, y: int): (c: int)
    ensures -1 <= c <= 1
    ensures (c < 0 <==> x < y) && (c == 0 <==> x == y) && (c > 0 <==> x > y)
  {
    if x < y then -1 else if x > y then 1 else 0
  }

  /** The sign of a real number, as -1, 0 or 1. */
  ghost function RealSign(x: real): int {
    if x < 0.0 then -1 else if x > 0.0 then 1 else 0
  }

  /** The operand pairs on which `compareTo` does not throw: the general path
      normalizes both, which fails only for 0/0. */
  predicate Comparable(a: Rational, b: Rational) {
    a.d == b.d || a.n == b.n || (Normalizable(a) && Normalizable(b))
  }

  /** The general path compares the values: cross products of the normalized
      operands, whose denominators are positive, order them as the values. */
  lemma NormalizedCrossCompare(a: Rational, b: Rational)
    requires a.d != 0 && b.d != 0
    ensures CompareInt(Normalize(a).n * Normalize(b).d, Normalize(a).d * Normalize(b).n)
         == RealSign(Value(a) - Value(b))
  {
    var p, q := Normalize(a), Normalize(b);
    NormalizeReduced(a);
    NormalizeReduced(b);
    LessIff(p, q);
    SameValueIff(p, q);
    assert p.d * q.n == q.n * p.d;
  }

  /** `compareTo`, branch by branch as written. On the general path the result
      is the sign of the difference of the values. */
  function Compare(a: Rational, b: Rational): (c: int)
    requires Comparable(a, b)
    ensures -1 <= c <= 1
    ensures a.d != b.d && a.n != b.n && a.d != 0 && b.d != 0 ==> c == RealSign(Value(a) - Value(b))
  {
    if a.d == b.d then
      CompareInt(a.n, b.n)
    else if a.n == b.n then
      CompareInt(b.n, a.n)
    else
      var p := Normalize(a);
      var q := Normalize(b);
      if a.d != 0 && b.d != 0 then
        NormalizedCrossCompare(a, b);
        CompareInt(p.n * q.d, p.d * q.n)
      else
        CompareInt(p.n * q.d, p.d * q.n)
  }

  /** `equals` on two rationals: `compareTo(other) == 0`. Over a shared
      denominator it is equality of numerators; across different denominators
      equal numerators always pass, and otherwise it is equality of value. */
  predicate Equals(a: Rational, b: Rational): (e: bool)
    requires Comparable(a, b)
    ensures a.d == b.d ==> (e <==> a.n == b.n)
    ensures a.d != b.d && a.n == b.n ==> e
    ensures a.d != b.d && a.n != b.n && a.d != 0 && b.d != 0 ==> (e <==> Value(a) == Value(b))
  {
    Compare(a, b) == 0
  }

  /** The equal-denominator fast path compares raw numerators: it orders the
      values when the shared denominator is positive and reverses them when it
      is negative. */
  lemma CompareSameDenominator(a: Rational, b: Rational)
    requires a.d == b.d
    ensures a.d > 0 ==> Compare(a, b) == RealSign(Value(a) - Value(b))
    ensures a.d < 0 ==> Compare(a, b) == -RealSign(Value(a) - Value(b))
  {
  }

  /** The equal-numerator fast path compares the numerator with itself, so it
      reports "equal" for every pair of different denominators. */
  lemma CompareSameNumerator(a: Rational, b: Rational)
    requires a.d != b.d && a.n == b.n
    ensures Compare(a, b) == 0
  {
  }

  /** Swapping the operands negates the result, on every branch. */
  lemma CompareAntisymmetric(a: Rational, b: Rational)
    requires Comparable(a, b)
    ensures Compare(b, a) == -Compare(a, b)
  {
  }

  /** Every pair equals itself, even 0/0: the equal-denominator branch is taken. */
  lemma EqualsReflexive(a: Rational)
    ensures Equals(a, a)
  {
  }

  /** Equality is symmetric. */
  lemma EqualsSymmetric(a: Rational, b: Rational)
    requires Comparable(a, b)
    ensures Equals(a, b) <==> Equals(b, a)
  {
  }

  /** Pairs of the same value always compare equal, whatever their
      representation. */
  lemma SameValueEquals(a: Rational, b: Rational)
    requires a.d != 0 && b.d != 0 && Value(a) == Value(b)
    ensures Equals(a, b)
  {
  }

  /** Off the equal-numerator shortcut, equality is exactly equality of value. */
  lemma EqualsIffSameValue(a: Rational, b: Rational)
    requires a.d != 0 && b.d != 0
    requires a.d == b.d || a.n != b.n
    ensures Equals(a, b) <==> Value(a) == Value(b)
  {
  }

  /** The comparison the fast paths stand in for: always normalize, then
      compare cross products. It orders every pair of nonzero-denominator
      values correctly. */
  function CompareByValue(a: Rational, b: Rational): (c: int)
    requires Normalizable(a) && Normalizable(b)
    ensures -1 <= c <= 1
    ensures a.d != 0 && b.d != 0 ==> c == RealSign(Value(a) - Value(b))
  {
    var p := Normalize(a);
    var q := Normalize(b);
    if a.d != 0 && b.d != 0 then
      NormalizedCrossCompare(a, b);
      CompareInt(p.n * q.d, p.d * q.n)
    else
      CompareInt(p.n * q.d, p.d * q.n)
  }

  /** The value comparison is a total preorder on nonzero-denominator pairs:
      antisymmetric and transitive, so its equality is an equivalence. */
  lemma CompareByValueOrders(a: Rational, b: Rational, c: Rational)
    requires a.d != 0 && b.d != 0 && c.d != 0
    ensures CompareByValue(b, a) == -CompareByValue(a, b)
    ensures CompareByValue(a, b) <= 0 && CompareByValue(b, c) <= 0 ==> CompareByValue(a, c) <= 0
    ensures CompareByValue(a, b) == 0 && CompareByValue(b, c) == 0 ==> CompareByValue(a, c) == 0
  {
  }

  /** With nonzero denominators the code as written agrees with the value
      comparison except on its two shortcuts: equal nonzero numerators over
      different denominators, and different numerators over a shared negative
      denominator. */
  lemma CompareAgreesByValue(a: Rational, b: Rational)
    requires a.d != 0 && b.d != 0
    ensures Compare(a, b) == CompareByValue(a, b) <==>
      !((a.d != b.d && a.n == b.n && a.n != 0) || (a.d == b.d && a.d < 0 && a.n != b.n))
  {
    if a.d == b.d {
      CompareSameDenominator(a, b);
      if a.d < 0 && a.n != b.n {
        assert Value(a) != Value(b) by {
          SameValueIff(a, b);
          DistinctScaled(a.d, a.n, b.n);
        }
      }
    } else if a.n == b.n {
      if a.n != 0 {
        assert Value(a) != Value(b) by {
          SameValueIff(a, b);
          DistinctScaled(a.n, b.d, a.d);
        }
      } else {
        assert Value(a) == Value(b);
      }
    }
  }

  /** Multiplying by a nonzero factor keeps distinct integers distinct. */
  lemma DistinctScaled(k: int, x: int, y: int)
    requires k != 0 && x != y
    ensures k * x != k * y && x * k != y * k
  {
    var m := Abs(k);
    if x < y {
      ScaleStrict(m, x, y);
    } else {
      ScaleStrict(m, y, x);
    }
    if k < 0 {
      assert k * x == -(m * x) && k * y == -(m * y);
    }
  }

  lemma ScaleStrict(m: int, x: int, y: int)
    requires m > 0 && x < y
    ensures m * x < m * y
  {
    assert m * y - m * x == m * (y - x);
  }

  /** `x in lo..hi` on Kotlin's closed range: `x >= lo && x <= hi`, both by
      `compareTo`. Over one shared denominator it orders the raw numerators;
      away from the shortcuts it is order of the values. */
  predicate InRange(x: Rational, lo: Rational, hi: Rational): (b: bool)
    requires Comparable(x, lo) && Comparable(x, hi)
    ensures x.d == lo.d && x.d == hi.d ==> (b <==> lo.n <= x.n <= hi.n)
    ensures (x.d != 0 && lo.d != 0 && hi.d != 0 &&
             x.d != lo.d && x.n != lo.n && x.d != hi.d && x.n != hi.n) ==>
      (b <==> Value(lo) <= Value(x) <= Value(hi))
  {
    Compare(x, lo) >= 0 && Compare(x, hi) <= 0
  }

  /** As written, the equal-numerator shortcut calls 1/2 and 1/3 equal. */
  lemma HalfEqualsThird()
    ensures Equals(Rational(1, 2), Rational(1, 3))
    ensures Value(Rational(1, 2)) != Value(Rational(1, 3))
    ensures CompareByValue(Rational(1, 2), Rational(1, 3)) == 1
  {
  }

  /** As written, the equal-denominator shortcut reverses the order for a
      shared negative denominator: 1/-2 is below 0/-2 but compares above it. */
  lemma NegativeDenominatorReversed()
    ensures Compare(Rational(1, -2), Rational(0, -2)) == 1
    ensures Value(Rational(1, -2)) < Value(Rational(0, -2))
    ensures CompareByValue(Rational(1, -2), Rational(0, -2)) == -1
  {
  }

  /** The shortcut also makes `equals` intransitive: 1/2 equals 1/3, 1/3
      equals 2/6, but 1/2 does not equal 2/6. */
  lemma EqualsNotTransitive()
    ensures Equals(Rational(1, 2), Rational(1, 3)) && Equals(Rational(1, 3), Rational(2, 6))
    ensures !Equals(Rational(1, 2), Rational(2, 6))
  {
    var a, b := Rational(1, 2), Rational(2, 6);
    assert Value(a) != Value(b);
  }

  /** Dividing by a value with nonzero numerator and multiplying back gives a
      pair equal to the original. */
  lemma DivThenTimes(a: Rational, b: Rational)
    requires a.d != 0 && b.d != 0 && b.n != 0
    ensures Times(Div(a, b), b).d != 0 && Equals(Times(Div(a, b), b), a)
  {
  }
}
