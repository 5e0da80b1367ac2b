/** Decimal text of integers: Java's `Long.parseLong(String)` and the shortest
    decimal rendering produced by `Long.toString` / `BigInteger.toString`. */
module Decimal {
  import opened Wrappers
  import opened JavaNumbers

  predicate IsDigit(c: char) {
    '0' <= c <= '9'
  }

  predicate AllDigits(s: string) {
    forall i | 0 <= i < |s| :: IsDigit(s[i])
  }

  function DigitValue(c: char): (d: nat)
    requires IsDigit(c)
    ensures d < 10
  {
    (c as int) - ('0' as int)
  }

  function DigitChar(d: nat): (c: char)
    requires d < 10
    ensures IsDigit(c) && DigitValue(c) == d
  {
    ('0' as int + d) as char
  }

  /** The number a run of decimal digits denotes, most significant digit first. */
  function DigitsValue(s: string): nat
    requires AllDigits(s)
    decreases |s|
  {
    if |s| == 0 then 0 else DigitsValue(s[..|s| - 1]) * 10 + DigitValue(s[|s| - 1])
  }

  /** The shortest decimal text of `n`: no leading zero except for zero itself. */
  function FormatNat(n: nat): (s: string)
    ensures |s| > 0 && AllDigits(s)
    ensures n > 0 ==> s[0] != '0'
    ensures n == 0 ==> s == "0"
    decreases n
  {
    if n < 10 then [DigitChar(n)] else FormatNat(n / 10) + [DigitChar(n % 10)]
  }

  /** Decimal text of any integer, with a leading `-` for negative values. */
  function Format(x: int): (s: string)
    ensures |s| > 0
    ensures forall i | 0 <= i < |s| :: IsDigit(s[i]) || s[i] == '-'
    ensures x < 0 <==> s[0] == '-'
  {
    if x < 0 then "-" + FormatNat(-x) else FormatNat(x)
  }

  /** `Long.parseLong(s)`: an optional `+` or `-`, then at least one digit, denoting a value
      inside the `long` range; anything else is a `NumberFormatException`, here `None`. */
  function ParseLong(s: string): (r: Option<Long>)
    ensures r.Some? ==> |s| > 0 && forall i | 1 <= i < |s| :: IsDigit(s[i])
    ensures r.Some? && !IsDigit(s[0]) ==> |s| > 1 && (s[0] == '-' || s[0] == '+')
    ensures r.Some? && r.value < 0 ==> s[0] == '-'
  {
    if |s| == 0 then None
    else
      var signed := s[0] == '-' || s[0] == '+';
      var digits := if signed then s[1..] else s;
      if |digits| == 0 || !AllDigits(digits) then None
      else
        var magnitude: int := DigitsValue(digits);
        var v: int := if s[0] == '-' then -magnitude else magnitude;
        if LongMin <= v <= LongMax then Some(v) else None
  }

  /** Reading the digits `FormatNat` writes gives back the number. */
  lemma {:induction false} DigitsValueOfFormatNat(n: nat)
    ensures DigitsValue(FormatNat(n)) == n
    decreases n
  {
    if n >= 10 {
      var s := FormatNat(n);
      var head := FormatNat(n / 10);
      assert s[..|s| - 1] == head;
      DigitsValueOfFormatNat(n / 10);
    }
  }

  /** Every `long` survives a trip through its decimal text. */
  lemma ParseFormatRoundTrip(x: Long)
    ensures ParseLong(Format(x)) == Some(x)
  {
    var s := Format(x);
    if x < 0 {
      var magnitude: nat := -(x as int);
      var digits := FormatNat(magnitude);
      assert s == "-" + digits;
      assert s[0] == '-' && s[1..] == digits;
      DigitsValueOfFormatNat(magnitude);
      assert DigitsValue(s[1..]) == magnitude;
    } else {
      assert s == FormatNat(x);
      assert IsDigit(s[0]);
      DigitsValueOfFormatNat(x);
    }
  }

  /** A digit string naming a value above `Long.MAX_VALUE` is rejected, while the same
      magnitude with a minus sign is accepted exactly down to `Long.MIN_VALUE`. */
  lemma ParseRejectsOverflow(n: nat)
    ensures n > LongMax ==> ParseLong(FormatNat(n)) == None
    ensures n > TwoTo63 ==> ParseLong("-" + FormatNat(n)) == None
    ensures n == TwoTo63 ==> ParseLong("-" + FormatNat(n)) == Some(LongMin)
  {
    DigitsValueOfFormatNat(n);
    var m := "-" + FormatNat(n);
    assert m[1..] == FormatNat(n);
  }

  /** Leading zeros do not change the parsed value. */
  lemma {:induction false} DigitsValueIgnoresLeadingZero(s: string)
    requires AllDigits(s)
    ensures AllDigits("0" + s) && DigitsValue("0" + s) == DigitsValue(s)
    decreases |s|
  {
    if |s| > 0 {
      var t := "0" + s;
      assert t[..|t| - 1] == "0" + s[..|s| - 1];
      DigitsValueIgnoresLeadingZero(s[..|s| - 1]);
    }
  }

  /** A run of `k` zero digits. */
  function Zeros(k: nat): (z: string)
    ensures |z| == k && AllDigits(z)
  {
    if k == 0 then "" else "0" + Zeros(k - 1)
  }

  /** Any number of leading zeros leaves a digit run's value unchanged. */
  lemma {:induction false} DigitsValueIgnoresLeadingZeros(k: nat, s: string)
    requires AllDigits(s)
    ensures AllDigits(Zeros(k) + s) && DigitsValue(Zeros(k) + s) == DigitsValue(s)
    decreases k
  {
    if k == 0 {
      assert Zeros(k) + s == s;
    } else {
      DigitsValueIgnoresLeadingZeros(k - 1, s);
      DigitsValueIgnoresLeadingZero(Zeros(k - 1) + s);
      assert Zeros(k) + s == "0" + (Zeros(k - 1) + s);
    }
  }

  /** The signs `parseLong` accepts in front of the digits: none, `+` or `-`. */
  predicate IsSign(sign: string) {
    sign == "" || sign == "+" || sign == "-"
  }

  /** A magnitude with its sign applied. */
  function SignedValue(sign: string, magnitude: nat): int {
    if sign == "-" then 0 - magnitude else magnitude
  }

  /** `parseLong` accepts every optional sign followed by a non-empty run of digits: the
      result is the digits' value, negated after `-`, whenever that fits a `long`, and a
      parse failure otherwise. */
  lemma ParseSignedDigits(sign: string, digits: string)
    requires IsSign(sign) && |digits| > 0 && AllDigits(digits)
    ensures var v := SignedValue(sign, DigitsValue(digits));
      ParseLong(sign + digits) == if LongMin <= v <= LongMax then Some(v) else None
  {
    var s := sign + digits;
    if sign == "" {
      assert s == digits;
      assert IsDigit(s[0]);
    } else if sign == "+" {
      assert s[0] == '+' && s[1..] == digits;
    } else {
      assert s[0] == '-' && s[1..] == digits;
    }
  }

  /** A signed number padded with leading zeros parses to the number itself, for every
      magnitude the sign allows within the `long` range. */
  lemma ParsePaddedNumber(sign: string, k: nat, n: nat)
    requires IsSign(sign)
    requires if sign == "-" then n <= TwoTo63 else n <= LongMax
    ensures ParseLong(sign + (Zeros(k) + FormatNat(n))) == Some(SignedValue(sign, n))
  {
    DigitsValueOfFormatNat(n);
    DigitsValueIgnoresLeadingZeros(k, FormatNat(n));
    ParseSignedDigits(sign, Zeros(k) + FormatNat(n));
  }

  /** `parseLong` reads `+7` and `007` as 7 and `-0` as 0. */
  lemma ParseExamples()
    ensures ParseLong("+7") == Some(7) && ParseLong("007") == Some(7) && ParseLong("-0") == Some(0)
  {
    ParsePaddedNumber("+", 0, 7);
    assert "+" + (Zeros(0) + FormatNat(7)) == "+7";
    ParsePaddedNumber("", 2, 7);
    assert "" + (Zeros(2) + FormatNat(7)) == "007";
    ParsePaddedNumber("-", 0, 0);
    assert "-" + (Zeros(0) + FormatNat(0)) == "-0";
  }

  /** Signs and digits alone are not a number: the empty text, a bare sign, and a
      sign-less text with a non-digit are all rejected. */
  lemma ParseRejectsMalformed(s: string)
    ensures ParseLong("") == None && ParseLong("-") == None && ParseLong("+") == None
    ensures |s| > 0 && !IsDigit(s[0]) && s[0] != '-' && s[0] != '+' ==> ParseLong(s) == None
  {
  }
}
