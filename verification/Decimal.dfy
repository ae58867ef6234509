/** Decimal text of integers, as `to_string` and `parse` of the standard library use it. */
module Decimal {
  import opened Common

  function DigitChar(d: nat): char
    requires d < 10
  {
    "0123456789"[d]
  }

  function DigitValue(c: char): (d: Option<nat>)
    ensures d.Some? ==> d.value < 10
  {
    if '0' <= c <= '9' then Some((c - '0') as nat) else None
  }

  function NatText(n: nat): (s: string)
    ensures |s| > 0
  {
    if n < 10 then [DigitChar(n)] else NatText(n / 10) + [DigitChar(n % 10)]
  }

  function IntText(n: int): string {
    if n < 0 then "-" + NatText(-n) else NatText(n)
  }

  /** Value of a string of digits; anything else has none. */
  function DigitsValue(s: string): Option<nat> {
    if s == [] then None
    else
      var last := DigitValue(s[|s| - 1]);
      if |s| == 1 || last.None? then last
      else
        var front := DigitsValue(s[..|s| - 1]);
        if front.None? then None else Some(10 * front.value + last.value)
  }

  /** `parse` for an unsigned type with values up to `max`: an optional plus sign and digits. */
  function ParseUnsigned(s: string, max: nat): (r: Option<nat>)
    ensures r.Some? ==> r.value <= max
  {
    var digits := if |s| > 0 && s[0] == '+' then s[1..] else s;
    var v := DigitsValue(digits);
    if v.Some? && v.value <= max then v else None
  }

  /** `parse::<i64>`: an optional sign and digits, within the 64-bit range. */
  function ParseInt64(s: string): (r: Option<int>)
    ensures r.Some? ==> -0x8000_0000_0000_0000 <= r.value <= 0x7fff_ffff_ffff_ffff
  {
    if |s| > 0 && s[0] == '-' then
      var v := DigitsValue(s[1..]);
      if v.Some? && v.value <= 0x8000_0000_0000_0000 then Some(-(v.value as int)) else None
    else
      match ParseUnsigned(s, 0x7fff_ffff_ffff_ffff)
      case Some(n) => Some(n as int)
      case None => None
  }

  lemma {:induction false} NatTextRoundTrip(n: nat)
    ensures DigitsValue(NatText(n)) == Some(n)
    ensures '0' <= NatText(n)[0] <= '9'
  {
    if n >= 10 {
      NatTextRoundTrip(n / 10);
      var s := NatText(n);
      assert s[..|s| - 1] == NatText(n / 10);
    }
  }

  /** Decimal notation: the digits of n with one more digit behind them are the text of ten times n plus that digit. */
  lemma DecimalNotation(n: nat, d: nat)
    requires d < 10
    ensures NatText(d) == ["0123456789"[d]]
    ensures n > 0 ==> NatText(10 * n + d) == NatText(n) + ["0123456789"[d]]
    ensures IntText(n) == NatText(n) && (n > 0 ==> IntText(-(n as int)) == "-" + NatText(n))
  {
    assert DigitChar(d) == "0123456789"[d];
    if n > 0 {
      QuotientIs(10 * n + d, 10, n);
    }
  }

  lemma UnsignedRoundTrip(n: nat, max: nat)
    requires n <= max
    ensures ParseUnsigned(NatText(n), max) == Some(n)
  {
    NatTextRoundTrip(n);
  }

  lemma ParseNegative(digits: string, v: nat)
    requires DigitsValue(digits) == Some(v) && v <= 0x8000_0000_0000_0000
    ensures ParseInt64("-" + digits) == Some(-(v as int))
  {
    var s := "-" + digits;
    assert s[0] == '-' && s[1..] == digits;
  }

  lemma ParsePositive(digits: string, v: nat)
    requires digits != [] && DigitsValue(digits) == Some(v) && '0' <= digits[0] <= '9' && v <= 0x7fff_ffff_ffff_ffff
    ensures ParseInt64(digits) == Some(v as int)
  {
    assert digits[0] != '-' && digits[0] != '+';
  }

  lemma Int64RoundTrip(n: int)
    requires -0x8000_0000_0000_0000 <= n <= 0x7fff_ffff_ffff_ffff
    ensures ParseInt64(IntText(n)) == Some(n)
  {
    if n < 0 {
      NatTextRoundTrip(-n);
      ParseNegative(NatText(-n), -n);
    } else {
      NatTextRoundTrip(n);
      ParsePositive(NatText(n), n);
    }
  }

  /** Distinct integers have distinct text. */
  lemma IntTextInjective(a: int, b: int)
    requires IntText(a) == IntText(b)
    ensures a == b
  {
    NatTextRoundTrip(if a < 0 then -a else a);
    NatTextRoundTrip(if b < 0 then -b else b);
    if a < 0 {
      assert IntText(a)[1..] == NatText(-a);
    }
    if b < 0 {
      assert IntText(b)[1..] == NatText(-b);
    }
  }
}
