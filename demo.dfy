/** The checks of the smoke test in `main`, stated as lemmas about the model,
    with the canonical-form and parse-error examples that go with them. */
module Demo {
  import opened Rationals
  import opened Ordering
  import opened RationalText
  import opened Decimal
  import opened NumberTheory

  /** The four operators and negation on 1/2 and 1/3. */
  lemma ArithmeticOnHalfAndThird()
    ensures Equals(DivBy(5, 6), Plus(DivBy(1, 2), DivBy(1, 3)))
    ensures Equals(DivBy(1, 6), Minus(DivBy(1, 2), DivBy(1, 3)))
    ensures Equals(DivBy(1, 6), Times(DivBy(1, 2), DivBy(1, 3)))
    ensures Equals(DivBy(3, 2), Div(DivBy(1, 2), DivBy(1, 3)))
    ensures Equals(DivBy(-1, 2), Neg(DivBy(1, 2)))
  {
  }

  /** Canonical renderings: no "/1" for whole numbers. */
  lemma RenderWhole()
    ensures ToString(DivBy(2, 1)) == "2"
  {
    ToStringOfReduced(DivBy(2, 1), Rational(2, 1));
    assert Render(Rational(2, 1)) == "2";
  }

  /** Canonical renderings: lowest terms with the sign on the numerator,
      wherever the pair carried it. */
  lemma RenderHalves()
    ensures ToString(DivBy(-2, 4)) == "-1/2"
    ensures ToString(DivBy(2, -4)) == "-1/2"
    ensures ToString(DivBy(-2, -4)) == "1/2"
    ensures ToString(DivBy(2, 4)) == "1/2"
  {
    assert Render(Rational(-1, 2)) == "-1/2";
    assert Render(Rational(1, 2)) == "1/2";
    ToStringOfReduced(DivBy(-2, 4), Rational(-1, 2));
    ToStringOfReduced(DivBy(2, -4), Rational(-1, 2));
    ToStringOfReduced(DivBy(-2, -4), Rational(1, 2));
    ToStringOfReduced(DivBy(2, 4), Rational(1, 2));
  }

  /** "117/1098" parses to the unreduced pair, ... */
  lemma ParseFraction()
    ensures ToRational("117/1098") == Success(DivBy(117, 1098))
  {
    ToRationalOfRendered(117, 1098);
    assert IntToString(117) == "117" by {
      assert NatToDigits(1) == "1";
      assert NatToDigits(11) == "11";
    }
    assert IntToString(1098) == "1098" by {
      assert NatToDigits(1) == "1";
      assert NatToDigits(10) == "10";
      assert NatToDigits(109) == "109";
    }
    assert IntToString(117) + "/" + IntToString(1098) == "117/1098";
  }

  /** ... which prints reduced ... */
  lemma PrintFraction()
    ensures ToString(DivBy(117, 1098)) == "13/122"
  {
    ThirteenOver122Reduced();
    ToStringOfReduced(DivBy(117, 1098), Rational(13, 122));
    RenderThirteenOver122();
  }

  lemma ThirteenOver122Reduced()
    ensures Reduced(Rational(13, 122))
  {
    assert Gcd(2, 1) == 1;
    assert Gcd(5, 3) == Gcd(3, 2) == 1;
    assert Gcd(122, 13) == Gcd(13, 5) == 1;
  }

  lemma RenderThirteenOver122()
    ensures Render(Rational(13, 122)) == "13/122"
  {
    assert IntToString(13) == "13" && IntToString(122) == "122" by {
      assert NatToDigits(1) == "1";
      assert NatToDigits(12) == "12";
    }
    assert Render(Rational(13, 122)) == IntToString(13) + "/" + IntToString(122);
    assert IntToString(13) + "/" + IntToString(122) == "13/122";
  }

  /** ... and equals the reduced pair. */
  lemma FractionEqualsReduced()
    ensures Equals(DivBy(117, 1098), DivBy(13, 122))
  {
    SameValueIff(DivBy(117, 1098), DivBy(13, 122));
    SameValueEquals(DivBy(117, 1098), DivBy(13, 122));
  }

  /** Order and closed-range membership among 1/3, 1/2 and 2/3. */
  lemma OrderExamples()
    ensures Compare(DivBy(1, 2), DivBy(2, 3)) < 0
    ensures InRange(DivBy(1, 2), DivBy(1, 3), DivBy(2, 3))
    ensures CompareByValue(DivBy(1, 3), DivBy(1, 2)) < 0
  {
  }

  /** Large terms are exact: both reduce by a common factor to 1/2. */
  lemma LargeTermsEqualHalf()
    ensures Equals(DivBy(2000000000, 4000000000), DivBy(1, 2))
    ensures Equals(DivBy(912016490186296920119201192141970416029,
                         1824032980372593840238402384283940832058), DivBy(1, 2))
  {
  }

  /** Wrong piece counts and unparsable pieces are errors. */
  lemma ParseErrors()
    ensures ToRational("1/2/3") == Failure(WrongNumberOfArguments)
    ensures ToRational("") == Failure(NumberFormat)
    ensures ToRational("1/") == Failure(NumberFormat)
    ensures ToRational("a") == Failure(NumberFormat)
  {
  }
}
