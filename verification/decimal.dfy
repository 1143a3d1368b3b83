/** Decimal text of integers, as Python's `str(int)` writes it, and a
    reader that accepts everything `str` writes and also leading zeros
    (ASCII digits only). `IsCanonicalInt` singles out the text `str` writes. */
module Decimal {
  import opened Wrappers

  predicate IsDigit(c: char) {
    '0' <= c <= '9'
  }

  predicate AllDigits(s: string) {
    forall i :: 0 <= i < |s| ==> IsDigit(s[i])
  }

  function DigitChar(d: nat): (c: char)
    requires d < 10
    ensures IsDigit(c)
  {
    ('0' as int + d) as char
  }

  function DigitValue(c: char): (d: nat)
    requires IsDigit(c)
    ensures d < 10
  {
    c as int - '0' as int
  }

  /** The value of a string of digits, most significant first; leading
      zeros are allowed, as `int("07")` allows them. */
  function DigitsValue(s: string): (n: nat)
    requires AllDigits(s)
  {
    if |s| == 0 then 0 else DigitsValue(s[..|s| - 1]) * 10 + DigitValue(s[|s| - 1])
  }

  /** `str(n)` for a non-negative `n`: shortest decimal, no leading zero. */
  function NatToDecimal(n: nat): (s: string)
    ensures |s| > 0 && AllDigits(s)
    ensures |s| > 1 ==> s[0] != '0'
    ensures DigitsValue(s) == n
  {
    if n < 10 then [DigitChar(n)]
    else
      var s := NatToDecimal(n / 10) + [DigitChar(n % 10)];
      assert s[..|s| - 1] == NatToDecimal(n / 10);
      s
  }

  /** `str(i)` for any integer: a minus sign before the digits of `-i`. */
  function IntToDecimal(i: int): (s: string)
    ensures |s| > 0
    ensures i >= 0 ==> AllDigits(s)
    ensures i < 0 ==> s[0] == '-' && AllDigits(s[1..])
    ensures i >= 0 ==> DigitsValue(s) == i && (|s| > 1 ==> s[0] != '0')
    ensures i < 0 ==> DigitsValue(s[1..]) == -i && (|s| > 2 ==> s[1] != '0')
  {
    if i < 0 then "-" + NatToDecimal(-i) else NatToDecimal(i)
  }

  /** Reads a non-empty unsigned digit string, leading zeros included;
      `None` for anything else. */
  function ParseNat(s: string): (r: Option<nat>)
    ensures r.Some? <==> |s| > 0 && AllDigits(s)
    ensures r.Some? ==> r.value == DigitsValue(s)
  {
    if |s| > 0 && AllDigits(s) then Some(DigitsValue(s)) else None
  }

  /** Reads digits with an optional leading minus sign: everything
      `str(int)` writes, and also leading zeros and "-0". Unlike Python's
      `int`, it does not accept surrounding whitespace, a '+' sign or '_'
      separators. */
  function ParseInt(s: string): (r: Option<int>)
    ensures r.Some? <==> (|s| > 0 && s[0] == '-' && |s| > 1 && AllDigits(s[1..])) || (|s| > 0 && AllDigits(s))
  {
    if |s| > 0 && s[0] == '-' then
      match ParseNat(s[1..])
      case Some(n) => Some(-(n as int))
      case None => None
    else
      match ParseNat(s)
      case Some(n) => Some(n)
      case None => None
  }

  /** Reading back what `str` wrote gives the number it started from. */
  lemma IntRoundTrip(i: int)
    ensures ParseInt(IntToDecimal(i)) == Some(i)
  {
  }

  /** Distinct integers have distinct decimal text. */
  lemma IntToDecimalInjective(a: int, b: int)
    ensures IntToDecimal(a) == IntToDecimal(b) <==> a == b
  {
  }

  /** The other direction of the round trip: a canonical digit string (no
      superfluous leading zero) is exactly what `str` writes for its value. */
  lemma {:induction false} CanonicalDigitsRoundTrip(s: string)
    requires |s| > 0 && AllDigits(s)
    requires |s| > 1 ==> s[0] != '0'
    ensures NatToDecimal(DigitsValue(s)) == s
    decreases |s|
  {
    var n := DigitsValue(s);
    if |s| == 1 {
      assert s[..0] == [];
      assert DigitsValue(s[..0]) == 0;
      assert n == DigitsValue(s[..0]) * 10 + DigitValue(s[0]);
      assert NatToDecimal(n) == [DigitChar(n)];
    } else {
      var init := s[..|s| - 1];
      assert AllDigits(init);
      if |init| > 1 { assert init[0] == s[0]; }
      CanonicalDigitsRoundTrip(init);
      NonZeroLeadingDigitPositive(init);
      assert n / 10 == DigitsValue(init) && n % 10 == DigitValue(s[|s| - 1]);
      assert n >= 10;
      assert NatToDecimal(n) == NatToDecimal(n / 10) + [DigitChar(n % 10)];
      assert s == init + [s[|s| - 1]];
    }
  }

  /** The text `str(int)` writes: digits with no superfluous leading zero,
      or a minus sign before digits that do not start with '0'. */
  predicate IsCanonicalInt(s: string) {
    || (|s| > 0 && AllDigits(s) && (|s| > 1 ==> s[0] != '0'))
    || (|s| > 1 && s[0] == '-' && AllDigits(s[1..]) && s[1] != '0')
  }

  /** `str` writes canonical text, and canonical text is exactly `str` of
      what the reader makes of it. */
  lemma CanonicalIntRoundTrip(s: string)
    requires IsCanonicalInt(s)
    ensures ParseInt(s).Some? && IntToDecimal(ParseInt(s).value) == s
  {
    if |s| > 1 && s[0] == '-' && AllDigits(s[1..]) && s[1] != '0' {
      var d := s[1..];
      NonZeroLeadingDigitPositive(d);
      CanonicalDigitsRoundTrip(d);
      assert s == "-" + d;
    } else {
      CanonicalDigitsRoundTrip(s);
    }
  }

  /** Everything `str(int)` writes is canonical. */
  lemma IntToDecimalCanonical(i: int)
    ensures IsCanonicalInt(IntToDecimal(i))
  {
    var s := IntToDecimal(i);
    if i < 0 && |s| == 2 {
      assert s[1..] == [s[1]];
      assert DigitsValue([s[1]]) == DigitsValue([s[1]][..0]) * 10 + DigitValue(s[1]);
    }
  }

  /** A digit string that does not start with '0' denotes a positive number. */
  lemma {:induction false} NonZeroLeadingDigitPositive(s: string)
    requires |s| > 0 && AllDigits(s) && s[0] != '0'
    ensures DigitsValue(s) > 0
    decreases |s|
  {
    if |s| > 1 {
      NonZeroLeadingDigitPositive(s[..|s| - 1]);
    }
  }
}
