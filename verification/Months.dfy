/**
  Budget months: `YYYY-MM` texts that are compared and ranged over as text but stand for calendar
  months.
 */
module Months {
  import opened Decimal

  const MONTH_NUMBERS := ["01", "02", "03", "04", "05", "06", "07", "08", "09", "10", "11", "12"]

  predicate ValidMonth(m: string) {
    |m| == 7 && AllDigits(m[..4]) && m[4] == '-' && m[5..] in MONTH_NUMBERS
  }

  /** Byte-wise lexicographic order, as in the code and in the database. */
  predicate TextLess(a: string, b: string) {
    b != "" && (a == "" || a[0] < b[0] || (a[0] == b[0] && TextLess(a[1..], b[1..])))
  }

  function Digit(m: string, i: nat): int
    requires i < |m|
  {
    m[i] as int - '0' as int
  }

  function Year(m: string): int
    requires |m| == 7
  {
    1000 * Digit(m, 0) + 100 * Digit(m, 1) + 10 * Digit(m, 2) + Digit(m, 3)
  }

  function Month(m: string): int
    requires |m| == 7
  {
    10 * Digit(m, 5) + Digit(m, 6)
  }

  /** Months counted from January of year zero. */
  function Ordinal(m: string): int
    requires |m| == 7
  {
    12 * Year(m) + Month(m) - 1
  }

  const MONTHS_OF_FOUR_DIGIT_YEARS := 120_000

  function Spell(year: nat, month: nat): (s: string)
    requires year <= 9999 && month <= 99
    ensures |s| == 7
  {
    [DigitChar(year / 1000), DigitChar(year / 100 % 10), DigitChar(year / 10 % 10), DigitChar(year % 10), '-',
     DigitChar(month / 10), DigitChar(month % 10)]
  }

  /** The format `%Y-%m`: at least four digits, with a sign before the years below 0000 and above 9999. */
  function Format(n: int): string {
    var year, month := n / 12, n % 12 + 1;
    if year < 0 then "-" + (if year >= -9999 then Spell(-year, month) else LongSpelling(-year, month))
    else if year <= 9999 then Spell(year, month)
    else "+" + LongSpelling(year, month)
  }

  function LongSpelling(year: nat, month: nat): string
    requires month <= 99
  {
    PrintNat(year) + "-" + [DigitChar(month / 10), DigitChar(month % 10)]
  }

  lemma ValidShape(m: string)
    ensures ValidMonth(m) <==>
            && |m| == 7 && IsDigit(m[0]) && IsDigit(m[1]) && IsDigit(m[2]) && IsDigit(m[3]) && m[4] == '-'
            && IsDigit(m[5]) && IsDigit(m[6]) && 1 <= Month(m) <= 12
  {
    if |m| == 7 {
      assert AllDigits(m[..4]) <==> IsDigit(m[0]) && IsDigit(m[1]) && IsDigit(m[2]) && IsDigit(m[3]) by {
        assert m[..4][0] == m[0] && m[..4][1] == m[1] && m[..4][2] == m[2] && m[..4][3] == m[3];
      }
      assert m[5..] == [m[5], m[6]];
      if IsDigit(m[5]) && IsDigit(m[6]) && 1 <= Month(m) <= 12 {
        assert m[5..] == MONTH_NUMBERS[Month(m) - 1];
      }
    }
  }

  lemma OrdinalRange(m: string)
    requires ValidMonth(m)
    ensures 0 <= Ordinal(m) < MONTHS_OF_FOUR_DIGIT_YEARS
    ensures Ordinal(m) / 12 == Year(m) && Ordinal(m) % 12 + 1 == Month(m)
  {
    ValidShape(m);
  }

  lemma FourDigits(a: int, b: int, c: int, d: int)
    requires 0 <= a < 10 && 0 <= b < 10 && 0 <= c < 10 && 0 <= d < 10
    ensures var year := 1000 * a + 100 * b + 10 * c + d;
            year / 1000 == a && year / 100 % 10 == b && year / 10 % 10 == c && year % 10 == d
  {
    var year := 1000 * a + 100 * b + 10 * c + d;
    assert year / 100 == 10 * a + b;
    assert year / 10 == 100 * a + 10 * b + c;
  }

  lemma FormatOfOrdinal(m: string)
    requires ValidMonth(m)
    ensures 0 <= Ordinal(m) && Format(Ordinal(m)) == m
  {
    ValidShape(m);
    OrdinalRange(m);
    FourDigits(Digit(m, 0), Digit(m, 1), Digit(m, 2), Digit(m, 3));
    FourDigits(0, 0, Digit(m, 5), Digit(m, 6));
    SpellDigits(m);
  }

  lemma SpellDigits(m: string)
    requires ValidMonth(m) && 0 <= Year(m) <= 9999 && 0 <= Month(m) <= 99
    requires Year(m) / 1000 == Digit(m, 0) && Year(m) / 100 % 10 == Digit(m, 1)
    requires Year(m) / 10 % 10 == Digit(m, 2) && Year(m) % 10 == Digit(m, 3)
    requires Month(m) / 10 == Digit(m, 5) && Month(m) % 10 == Digit(m, 6)
    ensures Spell(Year(m), Month(m)) == m
  {
    ValidShape(m);
    assert forall i :: 0 <= i < 7 && i != 4 ==> IsDigit(m[i]) && DigitChar(Digit(m, i)) == m[i];
  }

  lemma YearSplits(year: nat)
    requires year <= 9999
    ensures year == 1000 * (year / 1000) + 100 * (year / 100 % 10) + 10 * (year / 10 % 10) + year % 10
  {
    assert year / 10 / 10 == year / 100 && year / 100 / 10 == year / 1000;
  }

  lemma SpellIsRead(year: nat, month: nat)
    requires year <= 9999 && 1 <= month <= 12
    ensures var s := Spell(year, month);
            ValidMonth(s) && Year(s) == year && Month(s) == month
  {
    YearSplits(year);
    ValidShape(Spell(year, month));
  }

  lemma OrdinalOfFormat(n: nat)
    requires n < MONTHS_OF_FOUR_DIGIT_YEARS
    ensures ValidMonth(Format(n)) && Ordinal(Format(n)) == n
  {
    SpellIsRead(n / 12, n % 12 + 1);
  }

  /** The accepted texts are exactly the spellings of the months of the years 0000 to 9999, one each. */
  lemma ValidMonthsAreFormats(m: string)
    ensures ValidMonth(m) <==> exists n: nat :: n < MONTHS_OF_FOUR_DIGIT_YEARS && m == Format(n)
  {
    if ValidMonth(m) {
      FormatOfOrdinal(m);
      OrdinalRange(m);
    }
    if n: nat :| n < MONTHS_OF_FOUR_DIGIT_YEARS && m == Format(n) {
      OrdinalOfFormat(n);
    }
  }

  lemma {:induction false} TextLessAtDifference(a: string, b: string, k: nat)
    requires k < |a| && k < |b| && a[..k] == b[..k] && a[k] != b[k]
    ensures TextLess(a, b) <==> a[k] < b[k]
  {
    if k > 0 {
      assert a[0] == a[..k][0] && b[0] == b[..k][0];
      assert a[1..][..k - 1] == a[..k][1..] && b[1..][..k - 1] == b[..k][1..];
      TextLessAtDifference(a[1..], b[1..], k - 1);
    }
  }

  lemma {:induction false} TextLessIsIrreflexive(a: string)
    ensures !TextLess(a, a)
  {
    if a != "" {
      TextLessIsIrreflexive(a[1..]);
    }
  }

  lemma {:induction false} TextLessIsTotal(a: string, b: string)
    ensures a == b || TextLess(a, b) || TextLess(b, a)
  {
    if a != "" && b != "" && a[0] == b[0] {
      TextLessIsTotal(a[1..], b[1..]);
      assert a == [a[0]] + a[1..] && b == [b[0]] + b[1..];
    }
  }

  lemma {:induction false} TextLessIsTransitive(a: string, b: string, c: string)
    requires TextLess(a, b) && TextLess(b, c)
    ensures TextLess(a, c)
  {
    if a != "" && a[0] == b[0] && b[0] == c[0] {
      TextLessIsTransitive(a[1..], b[1..], c[1..]);
    }
  }

  lemma {:induction false} FirstDifference(a: string, b: string) returns (k: nat)
    requires |a| == |b| && a != b
    ensures k < |a| && a[..k] == b[..k] && a[k] != b[k]
  {
    if a[0] != b[0] {
      k := 0;
    } else {
      assert a == [a[0]] + a[1..] && b == [b[0]] + b[1..];
      k := FirstDifference(a[1..], b[1..]);
      assert a[..k + 1] == [a[0]] + a[1..][..k] && b[..k + 1] == [b[0]] + b[1..][..k];
      k := k + 1;
    }
  }

  lemma DigitsDecide(a: string, b: string, k: nat)
    requires ValidMonth(a) && ValidMonth(b) && k < 7 && a[..k] == b[..k] && a[k] < b[k]
    ensures Ordinal(a) < Ordinal(b)
  {
    ValidShape(a);
    ValidShape(b);
    assert forall i :: 0 <= i < k ==> a[i] == a[..k][i] && b[i] == b[..k][i];
    if k < 4 {
      assert Year(a) < Year(b);
    }
  }

  /** On valid months, text order is calendar order. */
  lemma TextOrderIsCalendarOrder(a: string, b: string)
    requires ValidMonth(a) && ValidMonth(b)
    ensures TextLess(a, b) <==> Ordinal(a) < Ordinal(b)
  {
    if a == b {
      TextLessIsIrreflexive(a);
    } else {
      var k := FirstDifference(a, b);
      TextLessAtDifference(a, b, k);
      if a[k] < b[k] {
        DigitsDecide(a, b, k);
      } else {
        DigitsDecide(b, a, k);
      }
    }
  }

  // ----- The half-open text range of one month

  predicate InTextRange(m: string, from: string, to: string) {
    !TextLess(m, from) && TextLess(m, to)
  }

  /** The month of the exclusive end of a month's time range. */
  function EndMonth(m: string): string
    requires ValidMonth(m)
  {
    OrdinalRange(m);
    Format(Ordinal(m) + 1)
  }

  lemma RangeHoldsItsMonthOnly(m: string, x: string)
    requires ValidMonth(m) && ValidMonth(x) && Ordinal(m) + 1 < MONTHS_OF_FOUR_DIGIT_YEARS
    ensures InTextRange(x, m, EndMonth(m)) <==> x == m
  {
    OrdinalRange(m);
    OrdinalOfFormat(Ordinal(m) + 1);
    TextOrderIsCalendarOrder(x, m);
    TextOrderIsCalendarOrder(x, EndMonth(m));
    SameOrdinal(m, x);
  }

  lemma SameOrdinal(a: string, b: string)
    requires ValidMonth(a) && ValidMonth(b)
    ensures Ordinal(a) == Ordinal(b) <==> a == b
  {
    FormatOfOrdinal(a);
    FormatOfOrdinal(b);
  }

  /** The end of the last four-digit month starts with a plus sign, which sorts before every digit. */
  lemma LastRangeIsEmpty(m: string, x: string)
    requires ValidMonth(m) && ValidMonth(x) && Ordinal(m) + 1 == MONTHS_OF_FOUR_DIGIT_YEARS
    ensures !InTextRange(x, m, EndMonth(m))
  {
    ValidShape(x);
    assert EndMonth(m)[0] == '+' && x[0] != '+';
    TextLessAtDifference(x, EndMonth(m), 0);
  }

  lemma TenThousand()
    ensures PrintNat(10_000) == "10000"
  {
    assert PrintNat(10) == PrintNat(1) + "0" && PrintNat(1) == "1";
    assert PrintNat(100) == PrintNat(10) + "0";
    assert PrintNat(1000) == PrintNat(100) + "0";
    assert PrintNat(10_000) == PrintNat(1000) + "0";
  }

  /** The end of the last month. */
  lemma AfterTheLastMonth()
    ensures Format(120_000) == "+10000-01"
  {
    TenThousand();
    assert Format(120_000) == "+" + LongSpelling(10_000, 1);
  }

  const LAST_MONTH := "9999-12"

  lemma LastOrdinal(m: string)
    requires ValidMonth(m)
    ensures Ordinal(m) + 1 == MONTHS_OF_FOUR_DIGIT_YEARS <==> m == LAST_MONTH
  {
    ValidShape(m);
    assert Year(m) <= 9999 && Month(m) <= 12;
    if Ordinal(m) + 1 == MONTHS_OF_FOUR_DIGIT_YEARS {
      assert Year(m) == 9999 && Month(m) == 12;
      assert m == [m[0], m[1], m[2], m[3], m[4], m[5], m[6]] == LAST_MONTH;
    }
  }

  ghost predicate HoldsItsMonthOnly(m: string)
    requires ValidMonth(m)
  {
    forall x :: ValidMonth(x) ==> (InTextRange(x, m, EndMonth(m)) <==> x == m)
  }

  /**
    The range the report loads its budgets with holds exactly the month itself, for every month but
    the last one, for which it holds nothing.
   */
  lemma RangeIsMonthIff(m: string)
    requires ValidMonth(m)
    ensures HoldsItsMonthOnly(m) <==> m != LAST_MONTH
  {
    OrdinalRange(m);
    LastOrdinal(m);
    if m == LAST_MONTH {
      LastRangeIsEmpty(m, m);
    } else {
      forall x | ValidMonth(x) ensures InTextRange(x, m, EndMonth(m)) <==> x == m {
        RangeHoldsItsMonthOnly(m, x);
      }
    }
  }

  // ----- The time range of a list of months

  ghost predicate Increasing(midnight: int -> int) {
    forall i, j :: i < j ==> midnight(i) < midnight(j)
  }

  ghost predicate Sorted(months: seq<string>) {
    forall i, j :: 0 <= i < j < |months| ==> !TextLess(months[j], months[i])
  }

  /** `midnight` is the start of each month in the configured time zone. */
  function Start(m: string, midnight: int -> int): int
    requires ValidMonth(m)
  {
    midnight(Ordinal(m))
  }

  function End(m: string, midnight: int -> int): int
    requires ValidMonth(m)
  {
    midnight(Ordinal(m) + 1)
  }

  /** From the first start to the last end, a sorted list's range covers every month and no month is cut. */
  lemma SortedRangeCovers(months: seq<string>, midnight: int -> int, i: nat)
    requires Increasing(midnight) && Sorted(months) && i < |months|
    requires forall k :: 0 <= k < |months| ==> ValidMonth(months[k])
    ensures Start(months[0], midnight) <= Start(months[i], midnight)
    ensures End(months[i], midnight) <= End(months[|months| - 1], midnight)
  {
    TextOrderIsCalendarOrder(months[i], months[0]);
    TextOrderIsCalendarOrder(months[|months| - 1], months[i]);
    TextLessIsIrreflexive(months[i]);
  }
}
