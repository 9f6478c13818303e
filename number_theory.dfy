/** Divisibility and the greatest common divisor, as `java.math.BigInteger.gcd`
    provides it to the rational type: gcd(a, b) of the absolute values, with
    gcd(0, 0) == 0. */
module NumberTheory {

  function Abs(x: int): nat {
    if x < 0 then -x else x
  }

  /** `c` divides `a`; zero divides only zero. */
  predicate Divides(c: nat, a: int) {
    if c == 0 then a == 0 else a % c == 0
  }

  /** Euclidean division is unique: any quotient/remainder pair is Dafny's. */
  lemma ModUnique(a: int, m: int, q: int, r: int)
    requires 0 <= r < m
    requires a == q * m + r
    ensures a / m == q && a % m == r
  {
    var q', r' := a / m, a % m;
    assert a == q' * m + r';
    assert (q - q') * m == r' - r;
    ProductBound(q - q', m);
  }

  /** A nonzero multiple of a positive `m` is at least `m` away from zero. */
  lemma ProductBound(k: int, m: int)
    requires m > 0
    ensures k >= 1 ==> k * m >= m
    ensures k <= -1 ==> k * m <= -m
  {
    if k >= 1 {
      assert k * m == (k - 1) * m + m;
    } else if k <= -1 {
      assert k * m == (k + 1) * m - m;
    }
  }

  /** A multiple of a positive `c` is divisible by it, with quotient `k`. */
  lemma MultipleDivides(c: nat, k: int)
    requires c > 0
    ensures Divides(c, c * k) && (c * k) / c == k
  {
    ModUnique(c * k, c, k, 0);
  }

  /** Anything `c` divides is a multiple of `c`. */
  lemma DividesIsMultiple(c: nat, a: int)
    requires c > 0 && Divides(c, a)
    ensures a == c * (a / c)
  {
  }

  /** A common divisor of `b` and `r` divides `q * b + r`. */
  lemma DividesLinear(c: nat, b: int, r: int, q: int)
    requires Divides(c, b) && Divides(c, r)
    ensures Divides(c, q * b + r)
  {
    if c > 0 {
      var y, z := b / c, r / c;
      DividesIsMultiple(c, b);
      DividesIsMultiple(c, r);
      assert q * b + r == c * (q * y + z);
      MultipleDivides(c, q * y + z);
    }
  }

  /** Divisibility does not depend on the sign of the dividend. */
  lemma DividesAbs(c: nat, a: int)
    requires Divides(c, Abs(a))
    ensures Divides(c, a)
  {
    if c > 0 && a < 0 {
      DividesIsMultiple(c, Abs(a));
      assert a == c * -(Abs(a) / c);
      MultipleDivides(c, -(Abs(a) / c));
    }
  }

  /** A divisor of a positive number is no larger than it. */
  lemma DividesBound(c: nat, a: nat)
    requires a > 0 && Divides(c, a)
    ensures 0 < c <= a
  {
    var q := a / c;
    DividesIsMultiple(c, a);
    assert q >= 1;
    assert c * q == c * (q - 1) + c;
    assert c * (q - 1) >= 0;
  }

  /** Every number divides itself. */
  lemma DividesSelf(a: nat)
    ensures Divides(a, a)
  {
    if a > 0 {
      MultipleDivides(a, 1);
    }
  }

  /** Euclid's algorithm. The result divides both arguments and is zero only
      for gcd(0, 0). */
  function Gcd(a: nat, b: nat): (g: nat)
    ensures Divides(g, a) && Divides(g, b)
    ensures g == 0 <==> a == 0 && b == 0
    decreases b
  {
    if b == 0 then
      DividesSelf(a);
      a
    else
      var g := Gcd(b, a % b);
      DividesLinear(g, b, a % b, a / b);
      assert (a / b) * b + a % b == a;
      g
  }

  /** Zero is neutral: gcd(0, x) == x. */
  lemma GcdZeroLeft(x: nat)
    ensures Gcd(0, x) == x
  {
    if x > 0 {
      assert Gcd(0, x) == Gcd(x, 0);
    }
  }

  /** Every common divisor divides the gcd: it is the greatest one. */
  lemma {:induction false} GcdGreatest(a: nat, b: nat, c: nat)
    requires Divides(c, a) && Divides(c, b)
    ensures Divides(c, Gcd(a, b))
    decreases b
  {
    if b > 0 {
      DividesLinear(c, b, a, -(a / b));
      assert a % b == -(a / b) * b + a;
      GcdGreatest(b, a % b, c);
    }
  }

  /** Scaling both arguments scales the gcd. */
  lemma {:induction false} GcdScale(a: nat, b: nat, c: nat)
    ensures Gcd(a * c, b * c) == Gcd(a, b) * c
    decreases b
  {
    if b > 0 && c > 0 {
      assert a * c == (a / b) * (b * c) + (a % b) * c;
      assert (a % b) * c < b * c;
      ModUnique(a * c, b * c, a / b, (a % b) * c);
      GcdScale(b, a % b, c);
    }
  }

  /** Euclid's lemma: if `a` is coprime to `b` and divides `b * c`, it divides `c`. */
  lemma EuclidLemma(a: nat, b: nat, c: nat)
    requires Gcd(a, b) == 1 && Divides(a, b * c)
    ensures Divides(a, c)
  {
    GcdScale(a, b, c);
    if a > 0 {
      MultipleDivides(a, c);
      GcdGreatest(a * c, b * c, a);
    }
  }

  /** If `h` divides `x` then `h * g` divides `g * x`. */
  lemma ScaledDivides(h: nat, g: nat, x: int)
    requires h > 0 && g > 0 && Divides(h, x)
    ensures Divides(h * g, g * x)
  {
    DividesIsMultiple(h, x);
    assert g * x == (h * g) * (x / h);
    MultipleDivides(h * g, x / h);
  }

  /** Dividing two numbers, not both zero, by their gcd leaves them coprime. */
  lemma QuotientsCoprime(a: nat, b: nat)
    requires a > 0 || b > 0
    ensures Gcd(a / Gcd(a, b), b / Gcd(a, b)) == 1
  {
    var g := Gcd(a, b);
    var a', b' := a / g, b / g;
    assert a' > 0 || b' > 0 by {
      ExactQuotient(a, g);
      ExactQuotient(b, g);
    }
    var h := Gcd(a', b');
    assert Divides(h * g, a) && Divides(h * g, b) by {
      DividesIsMultiple(g, a);
      DividesIsMultiple(g, b);
      ScaledDivides(h, g, a');
      ScaledDivides(h, g, b');
    }
    GcdGreatest(a, b, h * g);
    DividesBound(h * g, g);
    ProductBound(h - 1, g);
    assert h * g == (h - 1) * g + g;
    assert h <= 1;
  }

  /** Exact division of an integer by a positive divisor: it commutes with
      absolute value and negation and keeps the sign. */
  lemma ExactQuotient(n: int, g: nat)
    requires g > 0 && Divides(g, n)
    ensures n == g * (n / g)
    ensures Divides(g, Abs(n)) && Abs(n) / g == Abs(n / g)
    ensures Divides(g, -n) && (-n) / g == -(n / g)
    ensures (n / g < 0 <==> n < 0) && (n / g == 0 <==> n == 0)
  {
    var k := n / g;
    DividesIsMultiple(g, n);
    assert Abs(n) == g * Abs(k);
    MultipleDivides(g, Abs(k));
    assert -n == g * (-k);
    MultipleDivides(g, -k);
    if k < 0 {
      assert g * k == g * (k + 1) - g;
      assert g * (k + 1) <= 0;
    } else if k > 0 {
      assert g * k == g * (k - 1) + g;
      assert g * (k - 1) >= 0;
    }
  }
}
