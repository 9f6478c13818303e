/** Text conversion of rationals: `Rational.toString` with its helper
    `printNormalized`, and `String.toRational`. */
module RationalText {
  import opened NumberTheory
  import opened Decimal
  import opened Strings
  import opened Rationals
  import opened Ordering

  datatype Result<+R, +E> = Success(value: R) | Failure(error: E)

  /** The two exceptions `toRational` can raise: the `IllegalArgumentException`
      "Wrong number of arguments", and the `NumberFormatException` of
      `BigInteger(String)`. */
  datatype ParseError = WrongNumberOfArguments | NumberFormat

  /** `"$n"` when the denominator is one, `"$n/$d"` otherwise: the slash
      appears exactly when the denominator is shown, and `toRational` reads
      the text back as the same pair. */
  function Render(p: Rational): (s: string)
    ensures '/' in s <==> p.d != 1
    ensures ToRational(s) == Success(p)
  {
    NoSlash(p.n);
    NoSlash(p.d);
    ToRationalOfRendered(p.n, p.d);
    if p.d == 1 then
      IntToString(p.n)
    else
      var s := IntToString(p.n) + "/" + IntToString(p.d);
      assert s[|IntToString(p.n)|] == '/';
      s
  }

  /** `printNormalized`: divide both terms by `divisor.gcd(numerator)`, then
      render. The text reads back as a coprime pair with the signs and the
      cross product of the arguments. */
  function PrintNormalized(numerator: int, divisor: int): (s: string)
    requires numerator != 0 || divisor != 0
    ensures ToRational(s).Success?
    ensures var p := ToRational(s).value;
      Gcd(Abs(p.d), Abs(p.n)) == 1 && numerator * p.d == p.n * divisor &&
      (p.n < 0 <==> numerator < 0) && (p.n == 0 <==> numerator == 0) &&
      (p.d < 0 <==> divisor < 0) && (p.d == 0 <==> divisor == 0)
  {
    Render(ReduceByGcd(Rational(numerator, divisor)))
  }

  /** Placing the sign and then reducing, as `toString` does, gives the same
      pair as reducing and then placing the sign, as `normalize` does. */
  lemma SignThenReduce(r: Rational)
    requires Normalizable(r)
    ensures ReduceByGcd(CanonicalSign(r)) == Normalize(r)
  {
    var c := CanonicalSign(r);
    var p, q := ReduceByGcd(c), Normalize(r);
    if r.d != 0 {
      NormalizeReduced(r);
      assert Reduced(p);
      SameValueIff(r, c);
      SameValueIff(c, p);
      SameValueIff(r, q);
      SameValueIff(p, q);
      ReducedUnique(p, q);
    } else {
      GcdZeroLeft(Abs(p.n));
      GcdZeroLeft(Abs(q.n));
    }
  }

  /** `toString`: the decimal numerator alone when the reduced denominator is
      one, otherwise "numerator/denominator", of the normalized pair. */
  function ToString(r: Rational): (s: string)
    requires Normalizable(r)
    ensures s == Render(Normalize(r))
  {
    var c := CanonicalSign(r);
    SignThenReduce(r);
    PrintNormalized(c.n, c.d)
  }

  /** `String.toRational`: split on "/", then one piece is an integer over one
      and two pieces are numerator and denominator; any other count is the
      wrong number of arguments, and a piece the integer parser rejects fails. */
  function ToRational(s: string): (r: Result<Rational, ParseError>)
    ensures r == Failure(WrongNumberOfArguments) <==> Count(s, '/') >= 2
    ensures r.Success? && Count(s, '/') == 0 ==> r.value.d == 1
    ensures r.Success? ==> ParseInteger(Split(s, '/')[0]) == Some(r.value.n)
    ensures r.Success? && Count(s, '/') == 1 ==> ParseInteger(Split(s, '/')[1]) == Some(r.value.d)
    ensures r == Failure(NumberFormat) <==>
      (Count(s, '/') <= 1 &&
       (ParseInteger(Split(s, '/')[0]).None? || (Count(s, '/') == 1 && ParseInteger(Split(s, '/')[1]).None?)))
  {
    var pieces := Split(s, '/');
    if |pieces| == 1 then
      match ParseInteger(pieces[0])
      case None => Failure(NumberFormat)
      case Some(n) => Success(FromInt(n))
    else if |pieces| == 2 then
      match ParseInteger(pieces[0])
      case None => Failure(NumberFormat)
      case Some(n) =>
        match ParseInteger(pieces[1])
        case None => Failure(NumberFormat)
        case Some(d) => Success(Rational(n, d))
    else
      Failure(WrongNumberOfArguments)
  }

  /** The rendering of an integer never contains the separator. */
  lemma NoSlash(x: int)
    ensures '/' !in IntToString(x)
  {
    var s := IntToString(x);
    forall i | 0 <= i < |s|
      ensures s[i] != '/'
    {
      if i > 0 {
        assert IsDigit(s[i]);
      }
    }
  }

  /** Parsing reads back the integer and the fraction renderings. */
  lemma ToRationalOfRendered(x: int, y: int)
    ensures ToRational(IntToString(x)) == Success(FromInt(x))
    ensures ToRational(IntToString(x) + "/" + IntToString(y)) == Success(Rational(x, y))
  {
    var a, b := IntToString(x), IntToString(y);
    NoSlash(x);
    NoSlash(y);
    ParseIntToString(x);
    ParseIntToString(y);
    SplitNone(a, '/');
    SplitJoin([a, b], '/');
    assert Join([a, b], '/') == a + "/" + b;
  }

  /** The round trip: parsing the rendering of a nonzero-denominator rational
      gives its normal form, which equals it and has the same value. */
  lemma RoundTrip(r: Rational)
    requires r.d != 0
    ensures ToRational(ToString(r)) == Success(Normalize(r))
    ensures Value(Normalize(r)) == Value(r) && Equals(Normalize(r), r)
    ensures CompareByValue(Normalize(r), r) == 0
  {
    var p := Normalize(r);
    ToRationalOfRendered(p.n, p.d);
    NormalizeReduced(r);
    SameValueEquals(p, r);
  }

  /** The rendering of a nonzero-denominator rational is in lowest terms with
      the minus sign, if any, on the numerator and a denominator above one when
      shown. */
  lemma ToStringShape(r: Rational)
    requires r.d != 0
    ensures var p := Normalize(r);
      Gcd(p.d, Abs(p.n)) == 1 && (p.n < 0 <==> Value(r) < 0.0) &&
      (p.d == 1 ==> ToString(r) == IntToString(p.n)) &&
      (p.d != 1 ==> p.d > 1 && ToString(r) == IntToString(p.n) + "/" + IntToString(p.d))
  {
    var p := Normalize(r);
    NormalizeReduced(r);
    LessIff(p, Rational(0, 1));
  }

  /** The rendering is a canonical form: two nonzero-denominator rationals
      render alike exactly when they have the same value. In particular it is
      the same for (n, d), (-n, -d) and every common scaling. */
  lemma ToStringCanonical(a: Rational, b: Rational)
    requires a.d != 0 && b.d != 0
    ensures ToString(a) == ToString(b) <==> Value(a) == Value(b)
  {
    if Value(a) == Value(b) {
      NormalizeCanonical(a, b);
    } else {
      RoundTrip(a);
      RoundTrip(b);
    }
  }

  /** Scaling both terms by any nonzero factor, `-1` included, leaves the
      rendering unchanged. */
  lemma ToStringScaleInvariant(r: Rational, k: int)
    requires r.d != 0 && k != 0
    ensures ToString(Rational(k * r.n, k * r.d)) == ToString(r)
  {
    var s := Rational(k * r.n, k * r.d);
    assert s.n * r.d == r.n * s.d;
    SameValueIff(s, r);
    ToStringCanonical(s, r);
  }

  /** A nonzero-denominator rational renders as the reduced pair of its value. */
  lemma ToStringOfReduced(r: Rational, p: Rational)
    requires r.d != 0 && Reduced(p) && r.n * p.d == p.n * r.d
    ensures ToString(r) == Render(p)
  {
    NormalizeReduced(r);
    SameValueIff(r, p);
    SameValueIff(Normalize(r), p);
    ReducedUnique(Normalize(r), p);
  }

  /** A zero denominator is not rejected: n/0 with n != 0 renders as "1/0" or
      "-1/0", because the gcd is then |n|. */
  lemma ToStringZeroDenominator(n: int)
    requires n != 0
    ensures ToString(Rational(n, 0)) == if n < 0 then "-1/0" else "1/0"
  {
    var p := Normalize(Rational(n, 0));
    GcdZeroLeft(Abs(p.n));
    assert p == Rational(if n < 0 then -1 else 1, 0);
    assert IntToString(0) == "0" && IntToString(1) == "1" && IntToString(-1) == "-1";
  }
}
