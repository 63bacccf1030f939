/**
 * Decimal renderings used on the wire: the `std::to_string` form of an
 * int64, the parser that reads it back, and the fixed-width zero-padded
 * digit groups of dates and timestamps.
 */
module Decimal {
  import opened Wrappers

  const MinInt64: int := -0x8000_0000_0000_0000
  const MaxInt64: int := 0x7FFF_FFFF_FFFF_FFFF

  predicate IsDigit(c: char) { '0' <= c <= '9' }

  predicate AllDigits(s: string) {
    forall i :: 0 <= i < |s| ==> IsDigit(s[i])
  }

  function DigitValue(c: char): nat
    requires IsDigit(c)
  {
    c as int - '0' as int
  }

  function DigitChar(d: nat): (c: char)
    requires d < 10
    ensures IsDigit(c) && DigitValue(c) == d
  {
    ('0' as int + d) as char
  }

  /** The number a string of decimal digits denotes, most significant digit first. */
  function DigitsValue(s: string): nat
    requires AllDigits(s)
  {
    if |s| == 0 then 0 else 10 * DigitsValue(s[..|s| - 1]) + DigitValue(s[|s| - 1])
  }

  function Pow10(k: nat): (p: nat)
    ensures p >= 1
  {
    if k == 0 then 1 else 10 * Pow10(k - 1)
  }

  lemma DigitsValueSnoc(s: string, c: char)
    requires AllDigits(s) && IsDigit(c)
    ensures AllDigits(s + [c])
    ensures DigitsValue(s + [c]) == 10 * DigitsValue(s) + DigitValue(c)
  {
    assert (s + [c])[..|s|] == s;
  }

  /** The shortest decimal rendering of `n`: no sign, no leading zero. */
  function NatToString(n: nat): (s: string)
    ensures |s| > 0 && AllDigits(s)
    ensures DigitsValue(s) == n
    ensures |s| > 1 ==> s[0] != '0'
    decreases n
  {
    if n < 10 then [DigitChar(n)]
    else
      var s := NatToString(n / 10) + [DigitChar(n % 10)];
      DigitsValueSnoc(NatToString(n / 10), DigitChar(n % 10));
      s
  }

  /** `std::to_string` of an integer: a minus sign for negatives, then the digits. */
  function IntToString(i: int): (s: string)
  {
    if i < 0 then "-" + NatToString(-i) else NatToString(i)
  }

  /**
   * Reads an int64 written in decimal: an optional minus sign followed by at
   * least one digit and nothing else; values outside int64 are rejected.
   */
  function ParseInt64(s: string): (r: Option<int>)
    ensures r.Some? ==> MinInt64 <= r.value <= MaxInt64
  {
    if |s| > 0 && s[0] == '-' then
      var d := s[1..];
      if |d| > 0 && AllDigits(d) && DigitsValue(d) <= -MinInt64 then Some(0 - DigitsValue(d) as int) else None
    else if |s| > 0 && AllDigits(s) && DigitsValue(s) <= MaxInt64 then Some(DigitsValue(s) as int)
    else None
  }

  /** A digit string, when nonempty and free of any leading zero, is `NatToString` of its value. */
  lemma {:induction false} CanonicalDigits(s: string)
    requires |s| > 0 && AllDigits(s) && (|s| > 1 ==> s[0] != '0')
    ensures NatToString(DigitsValue(s)) == s
    decreases |s|
  {
    var init, last := s[..|s| - 1], s[|s| - 1];
    DigitsPrefix(s);
    if |s| == 1 {
      assert DigitsValue(s) == DigitValue(last) by { assert DigitsValue(init) == 0; }
      assert s == [last];
    } else {
      assert init[0] == s[0];
      CanonicalDigits(init);
      LeadingDigitPositive(init);
      var m, d := DigitsValue(init), DigitValue(last);
      assert DigitsValue(s) == 10 * m + d;
      NatToStringSnoc(m, d);
      assert DigitChar(d) == last;
      assert s == init + [last];
    }
  }

  /** A digit string without its last digit is still a digit string. */
  lemma DigitsPrefix(s: string)
    requires |s| > 0 && AllDigits(s)
    ensures AllDigits(s[..|s| - 1]) && IsDigit(s[|s| - 1])
  {
  }

  /** Appending a digit to a positive number appends its character to the rendering. */
  lemma NatToStringSnoc(m: nat, d: nat)
    requires 0 < m && d < 10
    ensures NatToString(10 * m + d) == NatToString(m) + [DigitChar(d)]
  {
    var n := 10 * m + d;
    assert n / 10 == m && n % 10 == d;
  }

  lemma {:induction false} LeadingDigitPositive(s: string)
    requires |s| > 0 && AllDigits(s) && s[0] != '0'
    ensures DigitsValue(s) > 0
    decreases |s|
  {
    if |s| > 1 {
      assert s[..|s| - 1][0] == s[0];
      LeadingDigitPositive(s[..|s| - 1]);
    }
  }

  /** Round trip: the int64 parser reads back what `IntToString` wrote. */
  lemma Int64RoundTrip(i: int)
    requires MinInt64 <= i <= MaxInt64
    ensures ParseInt64(IntToString(i)) == Some(i)
  {
    var s := IntToString(i);
    if i < 0 {
      assert s[1..] == NatToString(-i);
    } else {
      assert s == NatToString(i);
    }
  }

  /**
   * No redundant leading zero: the only strings `IntToString` produces.
   */
  predicate Canonical(s: string) {
    |s| > 0 &&
    (s[0] == '-' ==> |s| > 1 && s[1] != '0') &&
    (s[0] != '-' ==> (|s| > 1 ==> s[0] != '0'))
  }

  /** Converse round trip: every canonical string the parser accepts is the rendering of its value. */
  lemma ParsedValueRenders(s: string)
    requires ParseInt64(s).Some? && Canonical(s)
    ensures IntToString(ParseInt64(s).value) == s
  {
    if s[0] == '-' {
      var d := s[1..];
      LeadingDigitPositive(d);
      CanonicalDigits(d);
      assert s == "-" + d;
    } else {
      CanonicalDigits(s);
    }
  }

  /** The parser refuses the malformed strings a server must never send as int64. */
  lemma Int64ParserRejects()
    ensures ParseInt64("") == None
    ensures ParseInt64("blah") == None
    ensures ParseInt64("123blah") == None
  {
    assert !IsDigit("blah"[0]);
    assert !IsDigit("123blah"[3]);
  }

  /** `n` written with exactly `width` digits, zero padded on the left. */
  function PadDigits(n: nat, width: nat): (s: string)
    requires n < Pow10(width)
    ensures |s| == width
    decreases width
  {
    if width == 0 then "" else PadDigits(n / 10, width - 1) + [DigitChar(n % 10)]
  }

  /** The padded rendering is all digits and denotes `n`. */
  lemma {:induction false} PadDigitsDenotes(n: nat, width: nat)
    requires n < Pow10(width)
    ensures AllDigits(PadDigits(n, width))
    ensures DigitsValue(PadDigits(n, width)) == n
    decreases width
  {
    if width > 0 {
      PadDigitsDenotes(n / 10, width - 1);
      DigitsValueSnoc(PadDigits(n / 10, width - 1), DigitChar(n % 10));
    }
  }

  /** A digit string is the padded rendering of its own value at its own width. */
  lemma {:induction false} PadDigitsOfDigits(s: string)
    requires AllDigits(s)
    ensures DigitsValue(s) < Pow10(|s|)
    ensures PadDigits(DigitsValue(s), |s|) == s
    decreases |s|
  {
    if |s| > 0 {
      var init, last := s[..|s| - 1], s[|s| - 1];
      PadDigitsOfDigits(init);
      var n := DigitsValue(s);
      assert n == 10 * DigitsValue(init) + DigitValue(last);
      assert n / 10 == DigitsValue(init) && n % 10 == DigitValue(last);
      assert DigitChar(DigitValue(last)) == last;
      assert s == init + [last];
    }
  }
}
