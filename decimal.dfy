/** Decimal text for arbitrary-precision integers: the parser behind
    `BigInteger(String)` and the rendering behind `"$n"` (`BigInteger.toString`). */
module Decimal {
  import opened NumberTheory

  datatype Option<+T> = None | Some(value: T)

  predicate IsDigit(c: char) {
    '0' <= c <= '9'
  }

  predicate AllDigits(s: string) {
    forall i :: 0 <= i < |s| ==> IsDigit(s[i])
  }

  predicate IsSign(c: char) {
    c == '-' || c == '+'
  }

  /** The number a string of ASCII digits denotes, most significant first. */
  function DigitsValue(s: string): nat
    requires AllDigits(s)
  {
    if s == [] then 0 else DigitsValue(s[..|s| - 1]) * 10 + (s[|s| - 1] - '0') as int
  }

  function DigitChar(k: nat): (c: char)
    requires k < 10
    ensures IsDigit(c) && (c - '0') as int == k
  {
    ('0' as int + k) as char
  }

  /** The shortest digit string of `n`: no leading zero except for "0". */
  function NatToDigits(n: nat): (s: string)
    ensures |s| >= 1 && AllDigits(s) && DigitsValue(s) == n
    ensures |s| > 1 ==> s[0] != '0'
  {
    if n < 10 then
      [DigitChar(n)]
    else
      var s := NatToDigits(n / 10) + [DigitChar(n % 10)];
      assert s[..|s| - 1] == NatToDigits(n / 10);
      s
  }

  /** `BigInteger.toString()`: a minus sign for negative values, then the digits
      of the magnitude. */
  function IntToString(x: int): (s: string)
    ensures |s| >= 1
    ensures s[0] == '-' <==> x < 0
    ensures forall i :: 0 < i < |s| ==> IsDigit(s[i])
    ensures x >= 0 ==> IsDigit(s[0])
    ensures var m := if x < 0 then s[1..] else s;
      AllDigits(m) && DigitsValue(m) == Abs(x) && (|m| > 1 ==> m[0] != '0')
  {
    if x < 0 then
      var s := "-" + NatToDigits(-x);
      assert s[1..] == NatToDigits(-x);
      s
    else
      NatToDigits(x)
  }

  /** `BigInteger(String)`: an optional `-` or `+` followed by one or more
      decimal digits, nothing else; `None` stands for `NumberFormatException`. */
  function ParseInteger(s: string): (r: Option<int>)
    ensures r.Some? ==> |s| >= 1 && forall i :: 0 <= i < |s| ==> IsDigit(s[i]) || (i == 0 && IsSign(s[i]))
    ensures r.Some? && r.value < 0 ==> s[0] == '-'
    ensures |s| >= 1 && AllDigits(s) ==> r == Some(DigitsValue(s))
    ensures |s| >= 2 && IsSign(s[0]) && AllDigits(s[1..]) ==>
      r == Some((if s[0] == '-' then -1 else 1) * DigitsValue(s[1..]))
  {
    if |s| >= 1 && IsSign(s[0]) then
      var digits := s[1..];
      if |digits| >= 1 && AllDigits(digits) then
        var magnitude: int := DigitsValue(digits);
        Some(if s[0] == '-' then -magnitude else magnitude)
      else
        None
    else if |s| >= 1 && AllDigits(s) then
      Some(DigitsValue(s))
    else
      None
  }

  /** Parsing the rendering of any integer gives that integer back. */
  lemma ParseIntToString(x: int)
    ensures ParseInteger(IntToString(x)) == Some(x)
  {
    var s := IntToString(x);
    if x < 0 {
      assert s[1..] == NatToDigits(-x);
    }
  }

  /** The empty string and a lone sign are rejected. */
  lemma ParseIntegerRejectsEmpty()
    ensures ParseInteger("") == None
    ensures ParseInteger("-") == None && ParseInteger("+") == None
  {
  }
}
