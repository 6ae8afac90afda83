/**
 * Decimal text as the JDK reads and writes it: `Integer.toString`,
 * `Integer.parseInt`, and the part of `Double.parseDouble` followed by an
 * `(int)` cast that the integer conversion falls back on.
 */
module Decimal {
  import opened Wrappers

  const INT_MIN: int := -0x8000_0000
  const INT_MAX: int := 0x7fff_ffff

  /** The range of Java's `int` and `Integer`. */
  type Int32 = x: int | INT_MIN <= x <= INT_MAX

  predicate IsDigit(c: char) { '0' <= c <= '9' }

  predicate AllDigits(s: string) { forall i :: 0 <= i < |s| ==> IsDigit(s[i]) }

  predicate NoDigits(s: string) { forall i :: 0 <= i < |s| ==> !IsDigit(s[i]) }

  function DigitValue(c: char): (d: nat)
    requires IsDigit(c)
    ensures d < 10
  {
    c as int - '0' as int
  }

  function DigitChar(d: nat): (c: char)
    requires d < 10
    ensures IsDigit(c) && DigitValue(c) == d
  {
    ('0' as int + d) as char
  }

  /** The number a string of digits denotes, most significant digit first. */
  function DigitsValue(s: string): nat
    requires AllDigits(s)
    decreases |s|
  {
    if s == [] then 0 else 10 * DigitsValue(s[..|s| - 1]) + DigitValue(s[|s| - 1])
  }

  /** Non-empty, digits only, and no leading zero unless the whole text is "0". */
  predicate Canonical(s: string) {
    |s| > 0 && AllDigits(s) && (s[0] == '0' ==> |s| == 1)
  }

  /** `Integer.toString` of a non-negative number. */
  function NatToString(n: nat): (s: string)
    ensures Canonical(s)
    ensures s[0] == '0' ==> n == 0
    decreases n
  {
    if n < 10 then [DigitChar(n)] else NatToString(n / 10) + [DigitChar(n % 10)]
  }

  /** `Integer.toString` (and `Long.toString`) of any integer. */
  function IntToString(i: int): (s: string)
    ensures |s| > 0 && (s[0] == '-' || IsDigit(s[0]))
  {
    if i < 0 then "-" + NatToString(-i) else NatToString(i)
  }

  /** Reading back a rendered number gives the number. */
  lemma {:induction false} NatToStringValue(n: nat)
    ensures DigitsValue(NatToString(n)) == n
  {
    var s := NatToString(n);
    if n >= 10 {
      assert s[..|s| - 1] == NatToString(n / 10);
      NatToStringValue(n / 10);
    } else {
      assert s[..|s| - 1] == [];
    }
  }

  /** A canonical decimal is the rendering of its own value, so rendering is onto the canonical texts. */
  lemma {:induction false} CanonicalRoundTrip(s: string)
    requires Canonical(s)
    ensures NatToString(DigitsValue(s)) == s
  {
    var last := s[|s| - 1];
    if |s| == 1 {
      assert DigitChar(DigitValue(last)) == last;
      assert s == [last];
      assert s[..0] == [];
    } else {
      var t := s[..|s| - 1];
      assert t[0] == s[0];
      assert Canonical(t);
      CanonicalRoundTrip(t);
      var v := DigitsValue(t);
      var n := 10 * v + DigitValue(last);
      assert n / 10 == v && n % 10 == DigitValue(last);
      assert DigitChar(DigitValue(last)) == last;
      assert s == t + [last];
    }
  }

  /** Distinct numbers render differently. */
  lemma NatToStringInjective(a: nat, b: nat)
    requires NatToString(a) == NatToString(b)
    ensures a == b
  {
    NatToStringValue(a);
    NatToStringValue(b);
  }

  /**
   * `Integer.parseInt` on ASCII text: an optional `-` or `+`, then at least
   * one digit, with a value in int range. Every text it reads is also a
   * decimal literal of the same value, so the double fallback agrees with it.
   */
  function ParseInt(s: string): (r: Option<Int32>)
    ensures r.Some? ==> |s| > 0 && AllDigits(s[1..]) && (IsDigit(s[0]) || (|s| > 1 && (s[0] == '-' || s[0] == '+')))
    ensures r.Some? ==> TruncatedDecimal(s) == Some(r.value as int)
  {
    if |s| == 0 then None
    else
      var digits := if s[0] == '-' || s[0] == '+' then s[1..] else s;
      if |digits| == 0 || !AllDigits(digits) then None
      else
        var v: int := if s[0] == '-' then -(DigitsValue(digits) as int) else DigitsValue(digits);
        assert FirstIndexOf(digits, '.') == |digits| && digits[..|digits|] == digits;
        if INT_MIN <= v <= INT_MAX then Some(v) else None
  }

  /** Position of the first `c` in `s`, or `|s|` when there is none. */
  function FirstIndexOf(s: string, c: char): (k: nat)
    ensures k <= |s|
    ensures c !in s[..k]
    ensures k < |s| ==> s[k] == c
    decreases |s|
  {
    if s == [] then 0
    else if s[0] == c then 0
    else
      var k := 1 + FirstIndexOf(s[1..], c);
      assert s[..k] == [s[0]] + s[1..][..k - 1];
      k
  }

  /**
   * `(int) Double.parseDouble(s)` before the cast saturates, for plain
   * decimal literals: an optional sign, then digits with an optional
   * fraction, or a fraction alone ("12", "1.", "-0.5", ".25"). The value is
   * the whole part with its sign, that is, truncation toward zero.
   */
  function TruncatedDecimal(s: string): (r: Option<int>)
    ensures r.Some? ==> !NoDigits(s)
    ensures r.Some? && r.value < 0 ==> s[0] == '-'
  {
    if |s| > 0 && (s[0] == '-' || s[0] == '+') then
      match UnsignedDecimal(s[1..])
      case Some(w) => Some(if s[0] == '-' then -(w as int) else w)
      case None => None
    else
      match UnsignedDecimal(s)
      case Some(w) => Some(w)
      case None => None
  }

  /** The whole part of an unsigned literal: digits with an optional fraction, or a fraction alone. */
  function UnsignedDecimal(body: string): Option<nat> {
    var dot := FirstIndexOf(body, '.');
    var whole := body[..dot];
    var fraction := if dot < |body| then body[dot + 1..] else "";
    if AllDigits(whole) && AllDigits(fraction) && (|whole| > 0 || |fraction| > 0) then Some(DigitsValue(whole))
    else None
  }

  /** Java's `(int)` cast of a double: values outside the int range saturate. */
  function SaturatingCast(x: int): (r: Int32)
    ensures INT_MIN <= x <= INT_MAX ==> r == x
    ensures x > INT_MAX ==> r == INT_MAX
    ensures x < INT_MIN ==> r == INT_MIN
  {
    if x < INT_MIN then INT_MIN else if x > INT_MAX then INT_MAX else x
  }

  /**
   * The rendering of a number parses back: `parseInt` gives it when it is in
   * int range and rejects it otherwise, and the decimal reading gives it
   * always.
   */
  lemma IntToStringParses(i: int)
    ensures ParseInt(IntToString(i)) == (if INT_MIN <= i <= INT_MAX then Some(i) else None)
    ensures TruncatedDecimal(IntToString(i)) == Some(i)
  {
    var s := IntToString(i);
    var n: nat := if i < 0 then -i else i;
    var digits := NatToString(n);
    NatToStringValue(n);
    if i < 0 {
      assert s[1..] == digits;
    } else {
      assert s == digits;
    }
    var dot := FirstIndexOf(digits, '.');
    assert digits[..dot] == digits;
  }

  /** Text that starts with anything but a sign, a digit or a point is neither an int nor a decimal literal. */
  lemma NotNumberStart(s: string)
    requires |s| > 0 && s[0] != '-' && s[0] != '+' && s[0] != '.' && !IsDigit(s[0])
    ensures ParseInt(s) == None
    ensures TruncatedDecimal(s) == None
  {
    var dot := FirstIndexOf(s, '.');
    if dot > 0 {
      assert s[..dot][0] == s[0];
    }
  }

  /** The first `c` of `s` is the one at `k` when none comes before it. */
  lemma FirstIndexOfAt(s: string, c: char, k: nat)
    requires k < |s| && s[k] == c && c !in s[..k]
    ensures FirstIndexOf(s, c) == k
  {
  }

  /** The unsigned part of a literal "whole.fraction" reads as the whole part, and is not all digits. */
  lemma UnsignedLiteral(whole: string, fraction: string)
    requires |whole| > 0 && AllDigits(whole) && AllDigits(fraction)
    ensures var body := whole + "." + fraction;
      UnsignedDecimal(body) == Some(DigitsValue(whole)) && !AllDigits(body) && IsDigit(body[0])
  {
    var body := whole + "." + fraction;
    assert body[|whole|] == '.';
    assert body[..|whole|] == whole;
    FirstIndexOfAt(body, '.', |whole|);
    assert body[|whole| + 1..] == fraction;
    assert !AllDigits(body) by {
      assert !IsDigit(body[|whole|]);
    }
    assert body[0] == whole[0];
  }

  /** A literal "whole.fraction" is no int, and its decimal reading is the whole part. */
  lemma PositiveLiteral(whole: string, fraction: string)
    requires |whole| > 0 && AllDigits(whole) && AllDigits(fraction)
    ensures ParseInt(whole + "." + fraction) == None
    ensures TruncatedDecimal(whole + "." + fraction) == Some(DigitsValue(whole) as int)
  {
    UnsignedLiteral(whole, fraction);
  }

  /** A minus sign in front of an unsigned literal that is no int: still no int, and the reading is negated. */
  lemma MinusSign(body: string)
    requires UnsignedDecimal(body).Some? && !AllDigits(body)
    ensures ParseInt("-" + body) == None
    ensures TruncatedDecimal("-" + body) == Some(-(UnsignedDecimal(body).value as int))
  {
    var s := "-" + body;
    assert s[0] == '-' && s[1..] == body;
    assert ParseInt(s) == None by {
      assert !AllDigits(s[1..]);
    }
  }

  /** A literal "-whole.fraction" is no int, and its decimal reading is the negated whole part. */
  lemma {:induction false} NegativeLiteral(whole: string, fraction: string)
    requires |whole| > 0 && AllDigits(whole) && AllDigits(fraction)
    ensures ParseInt("-" + (whole + "." + fraction)) == None
    ensures TruncatedDecimal("-" + (whole + "." + fraction)) == Some(-(DigitsValue(whole) as int))
  {
    UnsignedLiteral(whole, fraction);
    MinusSign(whole + "." + fraction);
  }

  /** Text without a single ASCII digit is neither an int nor a decimal literal. */
  lemma NoDigitsNoNumber(s: string)
    requires NoDigits(s)
    ensures ParseInt(s) == None
    ensures TruncatedDecimal(s) == None
  {
    var body := if |s| > 0 && (s[0] == '-' || s[0] == '+') then s[1..] else s;
    assert NoDigits(body);
    var dot := FirstIndexOf(body, '.');
    var whole := body[..dot];
    var fraction := if dot < |body| then body[dot + 1..] else "";
    if |whole| > 0 {
      assert whole[0] == body[0];
    }
    if |fraction| > 0 {
      assert fraction[0] == body[dot + 1];
    }
  }
}
