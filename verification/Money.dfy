/**
  Exact decimal money: `Cents::parse_decimal`. No floating point and no overflow; every `i64` number
  of cents, the minimum included, has a decimal text that parses to it.
 */
module Money {
  import opened Decimal

  datatype Error =
    | EmptyValue
    | MissingDigits
    | TooManyFractionDigits
    | InvalidDecimal
    | MagnitudeOverflow
    | CentsOverflow

  datatype Result = Ok(cents: I64) | Err(error: Error)

  /** `split_once('.')`, or the whole text and an empty fraction. */
  function SplitPoint(s: string): (r: (string, string))
    ensures r == (s, "") || r.0 + "." + r.1 == s
  {
    if s == "" then ("", "")
    else if s[0] == '.' then ("", s[1..])
    else
      var (before, after) := SplitPoint(s[1..]);
      assert s == [s[0]] + s[1..];
      ([s[0]] + before, after)
  }

  predicate DecimalDigits(s: string) {
    s != "" && AllDigits(s)
  }

  function PadFraction(s: string): string
    requires |s| <= 2
  {
    if |s| == 0 then "00" else if |s| == 1 then s + "0" else s
  }

  function ParseDecimal(text: string): Result {
    if text == "" then Err(EmptyValue)
    else
      var value := if text[0] == '-' || text[0] == '+' then text[1..] else text;
      if value == "" then Err(MissingDigits) else ParseUnsigned(text[0] == '-', value)
  }

  function ParseUnsigned(negative: bool, value: string): Result {
    var (whole, decimals) := SplitPoint(value);
    if |decimals| > 2 then Err(TooManyFractionDigits)
    else
      var dollars := if whole == "" then "0" else whole;
      var fraction := PadFraction(decimals);
      if !(DecimalDigits(dollars) && DecimalDigits(fraction)) then Err(InvalidDecimal)
      else
        match ParseU64(dollars + fraction)
        case None => Err(MagnitudeOverflow)
        case Some(magnitude) => Signed(negative, magnitude)
  }

  /** `i64::MIN` has no positive counterpart, so it is written out rather than negated. */
  function Signed(negative: bool, magnitude: nat): Result {
    var maxMagnitude := I64_MAX + if negative then 1 else 0;
    if magnitude > maxMagnitude then Err(CentsOverflow)
    else if negative && magnitude == maxMagnitude then Ok(I64_MIN)
    else
      var cents: I64 := magnitude;
      Ok(if negative then 0 - cents else cents)
  }

  // ----- The texts that denote money, described without the parser

  /** An optional sign, digits, and possibly a point with at most two digits; something follows the sign. */
  datatype Literal = Literal(sign: string, dollars: string, point: bool, fraction: string) {
    ghost predicate WellFormed() {
      && (sign == "" || sign == "+" || sign == "-")
      && AllDigits(dollars) && AllDigits(fraction)
      && |fraction| <= 2
      && (!point ==> fraction == "" && dollars != "")
    }

    ghost function Text(): string {
      sign + dollars + (if point then "." else "") + fraction
    }

    ghost function FractionCents(): nat
      requires AllDigits(fraction)
    {
      if |fraction| == 1 then 10 * Value(fraction) else Value(fraction)
    }

    ghost function Cents(): int
      requires WellFormed()
    {
      (if sign == "-" then -1 else 1) * (100 * Value(dollars) + FractionCents())
    }
  }

  ghost predicate Denotes(text: string, l: Literal) {
    l.WellFormed() && l.Text() == text
  }

  predicate IsOverflow(r: Result) {
    r == Err(MagnitudeOverflow) || r == Err(CentsOverflow)
  }

  lemma {:induction false} SplitPointOfDigits(digits: string, point: bool, fraction: string)
    requires AllDigits(digits) && (!point ==> fraction == "")
    ensures SplitPoint(digits + (if point then "." else "") + fraction) == (digits, fraction)
  {
    var s := digits + (if point then "." else "") + fraction;
    if digits == "" {
      if point {
        assert s == "." + fraction;
      }
    } else {
      SplitPointOfDigits(digits[1..], point, fraction);
      assert s[1..] == digits[1..] + (if point then "." else "") + fraction;
      assert IsDigit(s[0]);
      assert digits == [digits[0]] + digits[1..];
    }
  }

  lemma ValueOfShort(a: char, b: char)
    requires IsDigit(a) && IsDigit(b)
    ensures Value([a]) == DigitValue(a) && Value([a, b]) == 10 * DigitValue(a) + DigitValue(b)
  {
    assert [a][..0] == "";
    assert [a, b][..1] == [a];
  }

  /** The digits the parser glues together denote the cents of the amount, sign aside. */
  lemma MagnitudeOfParts(whole: string, decimals: string)
    requires AllDigits(whole) && AllDigits(decimals) && |decimals| <= 2
    ensures var dollars, fraction := if whole == "" then "0" else whole, PadFraction(decimals);
            && DecimalDigits(dollars) && DecimalDigits(fraction) && AllDigits(dollars + fraction)
            && Value(dollars + fraction) ==
               100 * Value(whole) + if |decimals| == 1 then 10 * Value(decimals) else Value(decimals)
  {
    var dollars, fraction := if whole == "" then "0" else whole, PadFraction(decimals);
    ValueOfShort('0', '0');
    if |decimals| == 1 {
      assert decimals == [decimals[0]];
      ValueOfShort(decimals[0], '0');
    } else if |decimals| == 2 {
      ValueOfShort(decimals[0], decimals[1]);
      assert decimals == [decimals[0], decimals[1]];
    }
    assert fraction == [fraction[0], fraction[1]];
    ValueAppendTwo(dollars, fraction[0], fraction[1]);
  }

  lemma SignedIsExact(negative: bool, magnitude: nat)
    ensures var cents: int := if negative then -(magnitude as int) else magnitude;
            Signed(negative, magnitude) == if FitsI64(cents) then Ok(cents) else Err(CentsOverflow)
  {
  }

  lemma ParseSigned(sign: string, value: string)
    requires sign == "" || sign == "+" || sign == "-"
    requires value != "" && value[0] != '-' && value[0] != '+'
    ensures ParseDecimal(sign + value) == ParseUnsigned(sign == "-", value)
  {
    if sign == "" {
      assert sign + value == value;
    } else {
      assert (sign + value)[1..] == value;
      assert (sign + value)[0] == sign[0];
      assert sign == [sign[0]];
    }
  }

  lemma ParseUnsignedIsExact(negative: bool, dollars: string, point: bool, fraction: string)
    requires AllDigits(dollars) && AllDigits(fraction) && |fraction| <= 2
    requires !point ==> fraction == ""
    ensures var magnitude := 100 * Value(dollars) + if |fraction| == 1 then 10 * Value(fraction) else Value(fraction);
            ParseUnsigned(negative, dollars + (if point then "." else "") + fraction) ==
            if magnitude <= U64_MAX then Signed(negative, magnitude) else Err(MagnitudeOverflow)
  {
    SplitPointOfDigits(dollars, point, fraction);
    MagnitudeOfParts(dollars, fraction);
    var glued := (if dollars == "" then "0" else dollars) + PadFraction(fraction);
    assert IsDigit(glued[0]);
    CheckedMagnitudeIsExact(glued, U64_MAX);
  }

  ghost function Magnitude(l: Literal): nat
    requires l.WellFormed()
  {
    100 * Value(l.dollars) + l.FractionCents()
  }

  lemma ParseOfMagnitude(l: Literal)
    requires l.WellFormed()
    ensures ParseDecimal(l.Text()) ==
            if Magnitude(l) <= U64_MAX then Signed(l.sign == "-", Magnitude(l)) else Err(MagnitudeOverflow)
  {
    var unsigned := l.dollars + (if l.point then "." else "") + l.fraction;
    assert l.Text() == l.sign + unsigned;
    assert unsigned[0] == '.' || IsDigit(unsigned[0]);
    ParseSigned(l.sign, unsigned);
    ParseUnsignedIsExact(l.sign == "-", l.dollars, l.point, l.fraction);
  }

  /** Every literal is accepted unless its cents do not fit `i64`, and means exactly its cents. */
  lemma ParseOfLiteral(l: Literal)
    requires l.WellFormed()
    ensures FitsI64(l.Cents()) ==> ParseDecimal(l.Text()) == Ok(l.Cents())
    ensures !FitsI64(l.Cents()) ==> IsOverflow(ParseDecimal(l.Text()))
  {
    ParseOfMagnitude(l);
    SignedIsExact(l.sign == "-", Magnitude(l));
  }

  lemma AcceptedDigits(negative: bool, value: string)
    requires ParseUnsigned(negative, value).Ok? || IsOverflow(ParseUnsigned(negative, value))
    ensures var (whole, decimals) := SplitPoint(value);
            AllDigits(whole) && AllDigits(decimals) && |decimals| <= 2
  {
    var (whole, decimals) := SplitPoint(value);
    assert forall i :: 0 <= i < |decimals| ==> PadFraction(decimals)[i] == decimals[i];
  }

  lemma SplitPointRestores(value: string)
    ensures var (whole, decimals) := SplitPoint(value);
            whole + (if SplitPoint(value) != (value, "") then "." else "") + decimals == value
  {
  }

  lemma UnsignedLiteral(sign: string, value: string) returns (l: Literal)
    requires value != "" && (sign == "" || sign == "+" || sign == "-")
    requires ParseUnsigned(sign == "-", value).Ok? || IsOverflow(ParseUnsigned(sign == "-", value))
    ensures Denotes(sign + value, l)
  {
    AcceptedDigits(sign == "-", value);
    SplitPointRestores(value);
    var (whole, decimals) := SplitPoint(value);
    var point := SplitPoint(value) != (value, "");
    l := Literal(sign, whole, point, decimals);
    var dot := if point then "." else "";
    assert value == whole + dot + decimals;
    assert sign + value == sign + whole + dot + decimals;
  }

  /** The only texts that get past the syntax checks are literals. */
  lemma LiteralOfAccepted(text: string) returns (l: Literal)
    requires ParseDecimal(text).Ok? || IsOverflow(ParseDecimal(text))
    ensures Denotes(text, l)
  {
    if text[0] == '-' || text[0] == '+' {
      l := UnsignedLiteral([text[0]], text[1..]);
      assert text == [text[0]] + text[1..];
    } else {
      l := UnsignedLiteral("", text);
      assert text == "" + text;
    }
  }

  /** The parser's answer, for every text: the cents of the literal it spells, and nothing else. */
  lemma ParseIsExact(text: string, cents: I64)
    ensures ParseDecimal(text) == Ok(cents) <==> exists l :: Denotes(text, l) && l.Cents() == cents
  {
    if ParseDecimal(text) == Ok(cents) {
      var l := LiteralOfAccepted(text);
      ParseOfLiteral(l);
      assert Denotes(text, l) && l.Cents() == cents;
    }
    if l :| Denotes(text, l) && l.Cents() == cents {
      ParseOfLiteral(l);
    }
  }

  /** A text is refused for overflow exactly when it spells an amount whose cents do not fit `i64`. */
  lemma OverflowIsExact(text: string)
    ensures IsOverflow(ParseDecimal(text)) <==> exists l :: Denotes(text, l) && !FitsI64(l.Cents())
  {
    if IsOverflow(ParseDecimal(text)) {
      var l := LiteralOfAccepted(text);
      ParseOfLiteral(l);
      assert Denotes(text, l) && !FitsI64(l.Cents());
    }
    if l :| Denotes(text, l) && !FitsI64(l.Cents()) {
      ParseOfLiteral(l);
    }
  }

  /** The canonical text of an amount: a sign if negative, the dollars, and two digits of cents. */
  function PrintCents(cents: int): string {
    var magnitude := if cents < 0 then -cents else cents;
    (if cents < 0 then "-" else "") + PrintNat(magnitude / 100) + "." +
    [DigitChar(magnitude % 100 / 10), DigitChar(magnitude % 10)]
  }

  /** The literal that the canonical text spells. */
  ghost function Canonical(cents: int): Literal {
    var magnitude := if cents < 0 then -cents else cents;
    Literal(if cents < 0 then "-" else "", PrintNat(magnitude / 100), true,
            [DigitChar(magnitude % 100 / 10), DigitChar(magnitude % 10)])
  }

  lemma CanonicalDenotes(cents: int)
    ensures Denotes(PrintCents(cents), Canonical(cents)) && Canonical(cents).Cents() == cents
  {
    var magnitude := if cents < 0 then -cents else cents;
    ValueOfPrintNat(magnitude / 100);
    ValueOfShort(DigitChar(magnitude % 100 / 10), DigitChar(magnitude % 10));
    assert magnitude == 100 * (magnitude / 100) + 10 * (magnitude % 100 / 10) + magnitude % 10;
  }

  /** Every `i64` number of cents survives printing and parsing. */
  lemma ParsePrintCents(cents: I64)
    ensures ParseDecimal(PrintCents(cents)) == Ok(cents)
  {
    CanonicalDenotes(cents);
    ParseOfLiteral(Canonical(cents));
  }

  /** The remaining errors, each exactly for its own kind of text. */
  lemma SyntaxErrorsAreExact(text: string)
    ensures ParseDecimal(text) == Err(EmptyValue) <==> text == ""
    ensures ParseDecimal(text) == Err(MissingDigits) <==> text == "+" || text == "-"
    ensures ParseDecimal(text).Err? && !IsOverflow(ParseDecimal(text)) <==> !exists l :: Denotes(text, l)
  {
    if text != "" && (text[0] == '-' || text[0] == '+') {
      assert text == [text[0]] + text[1..];
    }
    if ParseDecimal(text).Ok? || IsOverflow(ParseDecimal(text)) {
      var l := LiteralOfAccepted(text);
    }
    if l :| Denotes(text, l) {
      ParseOfLiteral(l);
    }
  }

  // ----- Which of the errors a text gets

  ghost predicate IsSign(sign: string, value: string) {
    sign == "+" || sign == "-" || (sign == "" && (value == "" || (value[0] != '+' && value[0] != '-')))
  }

  /** Behind the sign there is a point, and more than two characters follow the first one. */
  ghost predicate LongFraction(text: string, sign: string, before: string, after: string) {
    && text == sign + before + "." + after && IsSign(sign, before + "." + after)
    && '.' !in before && |after| > 2
  }

  lemma {:induction false} SplitAtFirstPoint(before: string, after: string)
    requires '.' !in before
    ensures SplitPoint(before + "." + after) == (before, after)
  {
    var s := before + "." + after;
    if before == "" {
      assert s == "." + after;
    } else {
      assert s[1..] == before[1..] + "." + after;
      SplitAtFirstPoint(before[1..], after);
      assert before[0] in before && before == [before[0]] + before[1..];
    }
  }

  lemma {:induction false} NoEarlierPoint(s: string)
    ensures '.' !in SplitPoint(s).0
  {
    if s != "" && s[0] != '.' {
      NoEarlierPoint(s[1..]);
    }
  }

  lemma LongFractionIsRefused(text: string, sign: string, before: string, after: string)
    requires LongFraction(text, sign, before, after)
    ensures ParseDecimal(text) == Err(TooManyFractionDigits)
  {
    var value := before + "." + after;
    SplitAtFirstPoint(before, after);
    assert text == sign + value;
    if sign == "" {
      assert text == value;
    } else {
      assert text[0] == sign[0] && text[1..] == value;
    }
  }

  lemma LongFractionOf(sign: string, value: string)
    requires IsSign(sign, value) && |SplitPoint(value).1| > 2
    ensures LongFraction(sign + value, sign, SplitPoint(value).0, SplitPoint(value).1)
  {
    var before, after := SplitPoint(value).0, SplitPoint(value).1;
    NoEarlierPoint(value);
    assert value == before + "." + after;
    assert sign + value == sign + before + "." + after;
  }

  lemma RefusedHasLongFraction(negative: bool, value: string)
    requires ParseUnsigned(negative, value) == Err(TooManyFractionDigits)
    ensures |SplitPoint(value).1| > 2
  {
  }

  lemma RefusedIsLongFraction(text: string) returns (sign: string, before: string, after: string)
    requires ParseDecimal(text) == Err(TooManyFractionDigits)
    ensures LongFraction(text, sign, before, after)
  {
    var value;
    if text[0] == '-' || text[0] == '+' {
      sign, value := [text[0]], text[1..];
    } else {
      sign, value := "", text;
    }
    assert text == sign + value;
    RefusedHasLongFraction(text[0] == '-', value);
    LongFractionOf(sign, value);
    before, after := SplitPoint(value).0, SplitPoint(value).1;
  }

  /** Too many fraction digits are reported for exactly the texts with a long fraction, whatever else is wrong. */
  lemma LongFractionsAreExact(text: string)
    ensures ParseDecimal(text) == Err(TooManyFractionDigits) <==>
            exists sign, before, after :: LongFraction(text, sign, before, after)
  {
    if ParseDecimal(text) == Err(TooManyFractionDigits) {
      var sign, before, after := RefusedIsLongFraction(text);
    }
    if sign, before, after :| LongFraction(text, sign, before, after) {
      LongFractionIsRefused(text, sign, before, after);
    }
  }

  /** What is left is an invalid decimal: no literal, and none of the other syntax errors. */
  lemma InvalidDecimalsAreExact(text: string)
    ensures ParseDecimal(text) == Err(InvalidDecimal) <==>
            && text != "" && text != "+" && text != "-"
            && (!exists sign, before, after :: LongFraction(text, sign, before, after))
            && !exists l :: Denotes(text, l)
  {
    SyntaxErrorsAreExact(text);
    LongFractionsAreExact(text);
  }

  lemma OverflowOfLiteral(l: Literal)
    requires l.WellFormed()
    ensures ParseDecimal(l.Text()) == Err(MagnitudeOverflow) <==> Magnitude(l) > 18_446_744_073_709_551_615
    ensures ParseDecimal(l.Text()) == Err(CentsOverflow) <==>
            Magnitude(l) <= 18_446_744_073_709_551_615 && !FitsI64(l.Cents())
  {
    ParseOfMagnitude(l);
    SignedIsExact(l.sign == "-", Magnitude(l));
  }

  /** Which overflow is reported: whether the cents do not even fit `u64`. */
  lemma OverflowsAreExact(text: string)
    ensures ParseDecimal(text) == Err(MagnitudeOverflow) <==>
            exists l :: Denotes(text, l) && Magnitude(l) > 18_446_744_073_709_551_615
    ensures ParseDecimal(text) == Err(CentsOverflow) <==>
            exists l :: Denotes(text, l) && Magnitude(l) <= 18_446_744_073_709_551_615 && !FitsI64(l.Cents())
  {
    if IsOverflow(ParseDecimal(text)) {
      var l := LiteralOfAccepted(text);
      OverflowOfLiteral(l);
    }
    if l :| Denotes(text, l) && Magnitude(l) > 18_446_744_073_709_551_615 {
      OverflowOfLiteral(l);
    }
    if l :| Denotes(text, l) && Magnitude(l) <= 18_446_744_073_709_551_615 && !FitsI64(l.Cents()) {
      OverflowOfLiteral(l);
    }
  }
}
