/** The rational value type of `rationals/Rational.kt`: a numerator/denominator
    pair of arbitrary-precision integers, stored as given, with arithmetic that
    cross-multiplies and never reduces, and the `normalize` helper that reduces
    by the gcd and puts the sign on the numerator. */
module Rationals {
  import opened NumberTheory

  /** `Rational(n, d)`: the pair is stored verbatim; `d` may be negative or zero. */
  datatype Rational = Rational(n: int, d: int)

  /** The number a pair with nonzero denominator stands for. */
  ghost function Value(r: Rational): real
    requires r.d != 0
  {
    r.n as real / r.d as real
  }

  /** Two pairs with nonzero denominators stand for the same number exactly
      when their cross products agree. */
  lemma SameValueIff(a: Rational, b: Rational)
    requires a.d != 0 && b.d != 0
    ensures Value(a) == Value(b) <==> a.n * b.d == b.n * a.d
  {
    var an, ad, bn, bd := a.n as real, a.d as real, b.n as real, b.d as real;
    assert Value(a) * ad == an;
    assert Value(b) * bd == bn;
    assert (a.n * b.d) as real == an * bd;
    assert (b.n * a.d) as real == bn * ad;
    if Value(a) == Value(b) {
      assert an * bd == Value(a) * ad * bd;
      assert bn * ad == Value(b) * bd * ad;
    }
  }

  /** With positive denominators, the cross products order the two values. */
  lemma LessIff(a: Rational, b: Rational)
    requires a.d > 0 && b.d > 0
    ensures Value(a) < Value(b) <==> a.n * b.d < b.n * a.d
  {
    var an, ad, bn, bd := a.n as real, a.d as real, b.n as real, b.d as real;
    assert Value(a) * ad == an;
    assert Value(b) * bd == bn;
    assert (a.n * b.d) as real == an * bd;
    assert (b.n * a.d) as real == bn * ad;
    assert an * bd - bn * ad == (Value(a) - Value(b)) * (ad * bd);
    assert ad * bd > 0.0;
  }

  /** `Rational(i)`: an integer over one. */
  function FromInt(i: int): (r: Rational)
    ensures r.d == 1 && Value(r) == i as real
  {
    Rational(i, 1)
  }

  /** `a divBy b` for every integer width: the pair (a, b) as given, unreduced. */
  function DivBy(a: int, b: int): (r: Rational)
    ensures r.n == a && r.d == b
    ensures b != 0 ==> Value(r) == a as real / b as real
  {
    Rational(a, b)
  }

  /** `unaryMinus`: negates the numerator and keeps the denominator. */
  function Neg(a: Rational): (r: Rational)
    ensures r.d == a.d
    ensures a.d != 0 ==> Value(r) == -Value(a)
  {
    Rational(-a.n, a.d)
  }

  /** `plus`: the unreduced cross-multiplied sum. */
  function Plus(a: Rational, b: Rational): (r: Rational)
    ensures a.d != 0 && b.d != 0 ==> r.d != 0 && Value(r) == Value(a) + Value(b)
  {
    Rational(a.n * b.d + b.n * a.d, a.d * b.d)
  }

  /** `minus`: the unreduced cross-multiplied difference. */
  function Minus(a: Rational, b: Rational): (r: Rational)
    ensures a.d != 0 && b.d != 0 ==> r.d != 0 && Value(r) == Value(a) - Value(b)
  {
    Rational(a.n * b.d - b.n * a.d, a.d * b.d)
  }

  /** `times`: the unreduced product. */
  function Times(a: Rational, b: Rational): (r: Rational)
    ensures a.d != 0 && b.d != 0 ==> r.d != 0 && Value(r) == Value(a) * Value(b)
  {
    Rational(a.n * b.n, a.d * b.d)
  }

  /** `div`: multiplication by the swapped divisor; a divisor with zero
      numerator gives a zero denominator, which nothing checks. */
  function Div(a: Rational, b: Rational): (r: Rational)
    ensures b.n == 0 ==> r.d == 0
    ensures a.d != 0 && b.d != 0 && b.n != 0 ==> r.d != 0 && Value(r) == Value(a) / Value(b)
  {
    Rational(a.n * b.d, b.n * a.d)
  }

  /** Negating twice gives back the identical pair. */
  lemma NegInvolutive(a: Rational)
    ensures Neg(Neg(a)) == a
  {
  }

  /** Addition and multiplication commute on the stored pairs themselves. */
  lemma PlusTimesCommute(a: Rational, b: Rational)
    ensures Plus(a, b) == Plus(b, a)
    ensures Times(a, b) == Times(b, a)
  {
  }

  /** Addition associates on the stored pairs themselves. */
  lemma PlusAssociates(a: Rational, b: Rational, c: Rational)
    ensures Plus(Plus(a, b), c) == Plus(a, Plus(b, c))
  {
  }

  /** Multiplication associates on the stored pairs themselves. */
  lemma TimesAssociates(a: Rational, b: Rational, c: Rational)
    ensures Times(Times(a, b), c) == Times(a, Times(b, c))
  {
  }

  /** Every pair except 0/0: the ones whose gcd is nonzero, so that dividing
      by it does not throw. */
  predicate Normalizable(r: Rational) {
    r.n != 0 || r.d != 0
  }

  /** A pair in lowest terms with a positive denominator. */
  predicate Reduced(r: Rational) {
    r.d > 0 && Gcd(Abs(r.d), Abs(r.n)) == 1
  }

  /** The sign placement shared by `toString` and `normalize`: both terms
      negative gives their magnitudes, exactly one negative puts the minus on the
      numerator, otherwise the pair is unchanged. Magnitudes are kept, and the
      denominator becomes its magnitude. */
  function CanonicalSign(r: Rational): (p: Rational)
    ensures Abs(p.n) == Abs(r.n) && p.d == Abs(r.d)
    ensures p.n < 0 <==> (r.n < 0) != (r.d < 0) && r.n != 0
    ensures r.n * p.d == p.n * r.d
  {
    if r.d < 0 && r.n < 0 then
      Rational(Abs(r.n), Abs(r.d))
    else if r.d < 0 || r.n < 0 then
      Rational(0 - Abs(r.n), Abs(r.d))
    else
      r
  }

  /** Both terms divided by `d.gcd(n)`. The gcd divides both, so the division
      is exact and Java's truncating `/` agrees with Dafny's. The quotients are
      coprime and keep the signs and the value of the pair. */
  function ReduceByGcd(r: Rational): (p: Rational)
    requires Normalizable(r)
    ensures Gcd(Abs(p.d), Abs(p.n)) == 1
    ensures (p.n < 0 <==> r.n < 0) && (p.n == 0 <==> r.n == 0)
    ensures (p.d < 0 <==> r.d < 0) && (p.d == 0 <==> r.d == 0)
    ensures r.n * p.d == p.n * r.d
  {
    var g := Gcd(Abs(r.d), Abs(r.n));
    DividesAbs(g, r.n);
    DividesAbs(g, r.d);
    var p := Rational(r.n / g, r.d / g);
    assert Gcd(Abs(p.d), Abs(p.n)) == 1 by {
      ExactQuotient(r.n, g);
      ExactQuotient(r.d, g);
      QuotientsCoprime(Abs(r.d), Abs(r.n));
    }
    assert (p.n < 0 <==> r.n < 0) && (p.n == 0 <==> r.n == 0) by {
      ExactQuotient(r.n, g);
    }
    assert (p.d < 0 <==> r.d < 0) && (p.d == 0 <==> r.d == 0) by {
      ExactQuotient(r.d, g);
    }
    assert r.n * p.d == p.n * r.d by {
      CrossOfQuotients(r.n, r.d, g);
    }
    p
  }

  /** Dividing both terms by a common divisor keeps the cross product. */
  lemma CrossOfQuotients(n: int, d: int, g: nat)
    requires g > 0 && Divides(g, n) && Divides(g, d)
    ensures n * (d / g) == (n / g) * d
  {
    var x, y := n / g, d / g;
    DividesIsMultiple(g, n);
    DividesIsMultiple(g, d);
    calc {
      n * y;
      (g * x) * y;
      x * (g * y);
      x * d;
    }
  }

  /** `normalize`: lowest terms with the sign on the numerator. For a nonzero
      denominator the result is the reduced pair of the same value; for n/0 it
      is 1/0 or -1/0. */
  function Normalize(r: Rational): (p: Rational)
    requires Normalizable(r)
    ensures p.d >= 0 && (p.d == 0 <==> r.d == 0)
    ensures Gcd(Abs(p.d), Abs(p.n)) == 1
    ensures p.n < 0 <==> (r.n < 0) != (r.d < 0) && r.n != 0
    ensures r.n * p.d == p.n * r.d
  {
    var q := ReduceByGcd(r);
    var p := CanonicalSign(q);
    assert r.n * p.d == p.n * r.d by {
      if r.d != 0 {
        SameValueIff(r, q);
        SameValueIff(q, p);
        SameValueIff(r, p);
      }
    }
    p
  }

  /** Two reduced pairs of the same value are the same pair. */
  lemma ReducedUnique(p: Rational, q: Rational)
    requires Reduced(p) && Reduced(q)
    requires p.n * q.d == q.n * p.d
    ensures p == q
  {
    AbsScale(p.n, q.d);
    AbsScale(q.n, p.d);
    assert Abs(p.n) * q.d == Abs(q.n) * p.d;
    assert Divides(p.d, Abs(p.n) * q.d) by {
      MultipleDivides(p.d, Abs(q.n));
    }
    assert Divides(q.d, Abs(q.n) * p.d) by {
      MultipleDivides(q.d, Abs(p.n));
    }
    EuclidLemma(p.d, Abs(p.n), q.d);
    EuclidLemma(q.d, Abs(q.n), p.d);
    DividesBound(p.d, q.d);
    DividesBound(q.d, p.d);
    CancelFactor(p.n, q.n, p.d);
  }

  lemma AbsScale(x: int, y: nat)
    ensures Abs(x * y) == Abs(x) * y
  {
  }

  lemma CancelFactor(x: int, y: int, k: int)
    requires k > 0 && x * k == y * k
    ensures x == y
  {
    assert (x - y) * k == 0;
  }

  /** Normalizing a nonzero-denominator pair gives the one reduced pair of its
      value. */
  lemma NormalizeReduced(r: Rational)
    requires r.d != 0
    ensures Reduced(Normalize(r)) && Value(Normalize(r)) == Value(r)
  {
    SameValueIff(r, Normalize(r));
  }

  /** Pairs of equal value normalize to the same pair, whatever their
      representation. */
  lemma NormalizeCanonical(a: Rational, b: Rational)
    requires a.d != 0 && b.d != 0
    requires Value(a) == Value(b)
    ensures Normalize(a) == Normalize(b)
  {
    var p, q := Normalize(a), Normalize(b);
    NormalizeReduced(a);
    NormalizeReduced(b);
    SameValueIff(p, q);
    ReducedUnique(p, q);
  }

  /** A pair already in lowest terms is its own normal form. */
  lemma NormalizeIdempotent(r: Rational)
    requires Reduced(r)
    ensures Normalize(r) == r
  {
  }
}
