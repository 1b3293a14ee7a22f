/**
  Decimal text and the checked integer parsers of the Rust standard library, shared by the money
  parser and the global id codec.

  A `string` here holds the UTF-8 bytes of a Rust `&str`, one `char` for each byte.
 */
module Decimal {

  datatype Option<+T> = None | Some(value: T)

  const I64_MAX := 0x7FFF_FFFF_FFFF_FFFF
  const I64_MIN := -0x8000_0000_0000_0000
  const U64_MAX := 0xFFFF_FFFF_FFFF_FFFF

  predicate FitsI64(n: int) {
    I64_MIN <= n <= I64_MAX
  }

  type I64 = n: int | I64_MIN <= n <= I64_MAX

  predicate IsDigit(c: char) {
    '0' <= c <= '9'
  }

  predicate AllDigits(s: string) {
    forall i :: 0 <= i < |s| ==> IsDigit(s[i])
  }

  function DigitValue(c: char): (d: nat)
    requires IsDigit(c)
    ensures d < 10
  {
    c as int - '0' as int
  }

  function DigitChar(d: nat): (c: char)
    requires d < 10
    ensures IsDigit(c) && DigitValue(c) == d
  {
    (d + '0' as int) as char
  }

  /** The number a digit text denotes; the empty text denotes zero. */
  ghost function Value(s: string): nat
    requires AllDigits(s)
  {
    if s == "" then 0 else 10 * Value(s[..|s| - 1]) + DigitValue(s[|s| - 1])
  }

  /** `Display` of an unsigned integer: no leading zeros. */
  function PrintNat(n: nat): (s: string)
    ensures s != "" && AllDigits(s)
  {
    if n < 10 then [DigitChar(n)] else PrintNat(n / 10) + [DigitChar(n % 10)]
  }

  /** `Display` of `i64`. */
  function PrintInt(n: int): string {
    if n < 0 then "-" + PrintNat(-n) else PrintNat(n)
  }

  /** The loop `result.checked_mul(10)?.checked_add(digit)?` over the text, from left to right. */
  function CheckedMagnitude(s: string, bound: nat): Option<nat> {
    if s == "" then Some(0)
    else
      match CheckedMagnitude(s[..|s| - 1], bound)
      case None => None
      case Some(high) =>
        var c := s[|s| - 1];
        if !IsDigit(c) || high * 10 > bound || high * 10 + DigitValue(c) > bound then None
        else Some(high * 10 + DigitValue(c))
  }

  /** `str::parse::<u64>`. */
  function ParseU64(s: string): Option<nat> {
    var digits := if s != "" && s[0] == '+' then s[1..] else s;
    if digits == "" then None else CheckedMagnitude(digits, U64_MAX)
  }

  /** `str::parse::<i64>`: an optional sign, then at least one digit; leading zeros are accepted. */
  function ParseI64(s: string): Option<I64> {
    if s == "" then None
    else if s[0] == '-' then
      if s[1..] == "" then None
      else match CheckedMagnitude(s[1..], -I64_MIN)
        case Some(n) =>
          BoundedMagnitude(s[1..], -I64_MIN);
          var value: I64 := 0 - n;
          Some(value)
        case None => None
    else
      var digits := if s[0] == '+' then s[1..] else s;
      if digits == "" then None
      else match CheckedMagnitude(digits, I64_MAX)
        case Some(n) =>
          BoundedMagnitude(digits, I64_MAX);
          var value: I64 := n;
          Some(value)
        case None => None
  }

  lemma BoundedMagnitude(s: string, bound: nat)
    ensures CheckedMagnitude(s, bound).Some? ==> CheckedMagnitude(s, bound).value <= bound
  {
  }

  lemma AllDigitsSnoc(s: string)
    requires s != ""
    ensures AllDigits(s) <==> AllDigits(s[..|s| - 1]) && IsDigit(s[|s| - 1])
  {
  }

  /** The step-by-step overflow checks reject exactly the texts whose value is out of bounds. */
  lemma {:induction false} CheckedMagnitudeIsExact(s: string, bound: nat)
    ensures CheckedMagnitude(s, bound) ==
            if AllDigits(s) && Value(s) <= bound then Some(Value(s)) else None
  {
    if s != "" {
      AllDigitsSnoc(s);
      CheckedMagnitudeIsExact(s[..|s| - 1], bound);
      if AllDigits(s) {
        assert Value(s) == 10 * Value(s[..|s| - 1]) + DigitValue(s[|s| - 1]);
      }
    }
  }

  lemma {:induction false} ValueOfPrintNat(n: nat)
    ensures Value(PrintNat(n)) == n
  {
    if n < 10 {
      assert PrintNat(n) == [DigitChar(n)];
      assert PrintNat(n)[..0] == "";
    } else {
      ValueOfPrintNat(n / 10);
      assert PrintNat(n)[..|PrintNat(n)| - 1] == PrintNat(n / 10);
    }
  }

  /** Appending digits shifts the value by their count; two digits are what the money parser appends. */
  lemma ValueAppendTwo(s: string, hi: char, lo: char)
    requires AllDigits(s) && IsDigit(hi) && IsDigit(lo)
    ensures AllDigits(s + [hi, lo])
    ensures Value(s + [hi, lo]) == 100 * Value(s) + 10 * DigitValue(hi) + DigitValue(lo)
  {
    var t := s + [hi, lo];
    assert t[..|t| - 1] == s + [hi];
    assert (s + [hi])[..|s|] == s;
  }

  /** Every `i64`, including the minimum, survives printing and parsing. */
  lemma ParsePrintI64(n: I64)
    ensures ParseI64(PrintInt(n)) == Some(n)
  {
    var magnitude: nat := if n < 0 then -(n as int) else n;
    var digits := PrintNat(magnitude);
    ValueOfPrintNat(magnitude);
    CheckedMagnitudeIsExact(digits, I64_MAX);
    CheckedMagnitudeIsExact(digits, -I64_MIN);
    if n < 0 {
      assert PrintInt(n)[1..] == digits;
    } else {
      assert PrintInt(n) == digits && IsDigit(digits[0]);
      assert digits[0] != '-' && digits[0] != '+';
    }
  }

  ghost predicate IsSignedText(s: string, sign: string, digits: string, n: int) {
    && s == sign + digits && digits != "" && AllDigits(digits)
    && (sign == "" || sign == "+" || sign == "-")
    && n == if sign == "-" then 0 - Value(digits) else Value(digits)
  }

  lemma AcceptedIsSignedText(s: string) returns (sign: string, digits: string)
    requires ParseI64(s).Some?
    ensures IsSignedText(s, sign, digits, ParseI64(s).value)
  {
    sign, digits := if s[0] == '-' || s[0] == '+' then [s[0]] else "", if s[0] == '-' || s[0] == '+' then s[1..] else s;
    CheckedMagnitudeIsExact(digits, if s[0] == '-' then 0 - I64_MIN else I64_MAX);
    assert s == sign + digits;
  }

  lemma SignedTextIsAccepted(s: string, sign: string, digits: string, n: I64)
    requires IsSignedText(s, sign, digits, n)
    ensures ParseI64(s) == Some(n)
  {
    CheckedMagnitudeIsExact(digits, 0 - I64_MIN);
    CheckedMagnitudeIsExact(digits, I64_MAX);
    if sign != "" {
      assert s[0] == sign[0] && s[1..] == digits;
    } else {
      assert s == digits && IsDigit(s[0]);
    }
  }

  /** The parser accepts an optional sign and at least one digit, and yields the number in decimal. */
  lemma ParseI64IsExact(s: string, n: I64)
    ensures ParseI64(s) == Some(n) <==> exists sign, digits :: IsSignedText(s, sign, digits, n)
  {
    if ParseI64(s) == Some(n) {
      var sign, digits := AcceptedIsSignedText(s);
      assert IsSignedText(s, sign, digits, n);
    }
    if sign, digits :| IsSignedText(s, sign, digits, n) {
      SignedTextIsAccepted(s, sign, digits, n);
    }
  }

  /** A zero after the sign. */
  function ZeroPadded(n: int): string {
    if n < 0 then "-" + ("0" + PrintNat(-n)) else "0" + PrintNat(n)
  }

  lemma {:induction false} ValueOfLeadingZero(s: string)
    requires AllDigits(s)
    ensures AllDigits("0" + s) && Value("0" + s) == Value(s)
  {
    var t := "0" + s;
    if s != "" {
      ValueOfLeadingZero(s[..|s| - 1]);
      assert t[..|t| - 1] == "0" + s[..|s| - 1];
    } else {
      assert t[..0] == "";
    }
  }

  lemma CheckedZeroPadded(n: nat, bound: nat)
    requires n <= bound
    ensures CheckedMagnitude("0" + PrintNat(n), bound) == Some(n)
  {
    ValueOfPrintNat(n);
    ValueOfLeadingZero(PrintNat(n));
    CheckedMagnitudeIsExact("0" + PrintNat(n), bound);
  }

  lemma ParseWithMinus(digits: string, n: int)
    requires n >= 0 && digits != "" && CheckedMagnitude(digits, 0 - I64_MIN) == Some(n)
    ensures ParseI64("-" + digits) == Some(-n)
  {
    BoundedMagnitude(digits, 0 - I64_MIN);
    assert ("-" + digits)[1..] == digits;
  }

  lemma ParseWithoutSign(digits: string, n: nat)
    requires digits != "" && digits[0] != '-' && digits[0] != '+'
    requires CheckedMagnitude(digits, I64_MAX) == Some(n)
    ensures ParseI64(digits) == Some(n)
  {
    BoundedMagnitude(digits, I64_MAX);
  }

  lemma ParseNegativePadded(n: int)
    requires I64_MIN <= n < 0
    ensures ParseI64("-" + ("0" + PrintNat(-n))) == Some(n)
  {
    CheckedZeroPadded(-n, 0 - I64_MIN);
    ParseWithMinus("0" + PrintNat(-n), -n);
  }

  /** The parser accepts a second spelling of every `i64`. */
  lemma ParseZeroPadded(n: I64)
    ensures ParseI64(ZeroPadded(n)) == Some(n)
  {
    if n < 0 {
      ParseNegativePadded(n);
    } else {
      CheckedZeroPadded(n, I64_MAX);
      ParseWithoutSign("0" + PrintNat(n), n);
    }
  }

  lemma ZeroPaddedIsLonger(n: int)
    ensures |ZeroPadded(n)| == |PrintInt(n)| + 1
  {
  }

  /** Whatever the parser accepts is made of a sign and digits. */
  lemma AcceptedI64(s: string)
    requires ParseI64(s).Some?
    ensures forall i :: 0 <= i < |s| ==> IsDigit(s[i]) || s[i] == '-' || s[i] == '+'
  {
    CheckedMagnitudeIsExact(s, I64_MAX);
    CheckedMagnitudeIsExact(s[1..], I64_MAX);
    CheckedMagnitudeIsExact(s[1..], -I64_MIN);
    assert s == [s[0]] + s[1..];
  }
}
