/**
  Timestamps are stored and compared as text. An instant is numbered by its UTC fields, with 31 days to
  each month since January of year zero; only the order of instants matters, and the numbers of days that
  a month does not have stay unused.
 */
module Timestamps {
  import opened Decimal
  import opened Months

  const MINUTE := 60
  const HOUR := 3600
  const DAY := 86_400
  const MONTH := 2_678_400

  function UtcMonth(t: int): int {
    t / MONTH
  }

  function Two(n: nat): (s: string)
    requires n < 100
    ensures |s| == 2
  {
    [DigitChar(n / 10), DigitChar(n % 10)]
  }

  function Second(n: nat): (s: string)
    requires n < MINUTE
    ensures |s| == 4
  {
    ":" + Two(n) + "Z"
  }

  function MinuteSecond(n: nat): (s: string)
    requires n < HOUR
    ensures |s| == 7
  {
    ":" + Two(n / MINUTE) + Second(n % MINUTE)
  }

  function TimeOfDay(n: nat): (s: string)
    requires n < DAY
    ensures |s| == 10
  {
    "T" + Two(n / HOUR) + MinuteSecond(n % HOUR)
  }

  function DayAndTime(n: nat): (s: string)
    requires n < MONTH
    ensures |s| == 13
  {
    "-" + Two(n / DAY + 1) + TimeOfDay(n % DAY)
  }

  /** The format `%Y-%m-%dT%H:%M:%SZ`. */
  function Stamp(t: int): string {
    Format(UtcMonth(t)) + DayAndTime(t % MONTH)
  }

  /** Five seconds past 19:55 on the sixth of July 2026. */
  lemma StampOfAnInstant()
    ensures Stamp((12 * 2026 + 6) * MONTH + 5 * DAY + 19 * HOUR + 55 * MINUTE + 5) == "2026-07-06T19:55:05Z"
  {
    var second := 19 * HOUR + 55 * MINUTE + 5;
    var t := (12 * 2026 + 6) * MONTH + 5 * DAY + second;
    assert UtcMonth(t) == 12 * 2026 + 6 && t % MONTH == 5 * DAY + second;
    assert Format(12 * 2026 + 6) == "2026-07";
    assert MinuteSecond(55 * MINUTE + 5) == ":55" + ":05Z";
    assert TimeOfDay(second) == "T19" + (":55" + ":05Z");
    assert DayAndTime(5 * DAY + second) == "-06" + ("T19" + (":55" + ":05Z"));
  }

  // ----- Text order

  lemma {:induction false} TextLessConcat(p: string, q: string, r: string, s: string)
    requires |p| == |r|
    ensures TextLess(p + q, r + s) <==> TextLess(p, r) || (p == r && TextLess(q, s))
  {
    if p == "" {
      assert p + q == q && r + s == s;
    } else {
      assert (p + q)[1..] == p[1..] + q && (r + s)[1..] == r[1..] + s;
      assert p == [p[0]] + p[1..] && r == [r[0]] + r[1..];
      TextLessConcat(p[1..], q, r[1..], s);
    }
  }

  lemma OneCharacter(c: char, d: char)
    ensures TextLess([c], [d]) <==> c < d
  {
    assert [c][1..] == "" && [d][1..] == "";
  }

  lemma TwoDigits(sep: char, m: nat, n: nat)
    requires m < 100 && n < 100
    ensures TextLess([sep] + Two(m), [sep] + Two(n)) <==> m < n
    ensures [sep] + Two(m) == [sep] + Two(n) <==> m == n
  {
    var a, b, c, d := Two(m)[0], Two(m)[1], Two(n)[0], Two(n)[1];
    assert DigitValue(a) == m / 10 && DigitValue(b) == m % 10 && DigitValue(c) == n / 10 && DigitValue(d) == n % 10;
    assert Two(m) == [a] + [b] && Two(n) == [c] + [d];
    TextLessConcat([a], [b], [c], [d]);
    OneCharacter(a, c);
    OneCharacter(b, d);
    TextLessConcat([sep], Two(m), [sep], Two(n));
    TextLessIsIrreflexive([sep]);
    assert ([sep] + Two(m))[1..] == Two(m) && ([sep] + Two(n))[1..] == Two(n);
  }

  /** A field and what comes behind it, in text and as numbers. */
  lemma FieldThenRest(sep: char, m: nat, q: string, n: nat, s: string)
    requires m < 100 && n < 100
    ensures TextLess([sep] + Two(m) + q, [sep] + Two(n) + s) <==> m < n || (m == n && TextLess(q, s))
  {
    TextLessConcat([sep] + Two(m), q, [sep] + Two(n), s);
    TwoDigits(sep, m, n);
  }

  lemma SecondOrder(m: nat, n: nat)
    requires m < MINUTE && n < MINUTE
    ensures TextLess(Second(m), Second(n)) <==> m < n
  {
    FieldThenRest(':', m, "Z", n, "Z");
    TextLessIsIrreflexive("Z");
  }

  lemma MinuteSecondOrder(m: nat, n: nat)
    requires m < HOUR && n < HOUR
    ensures TextLess(MinuteSecond(m), MinuteSecond(n)) <==> m < n
  {
    FieldThenRest(':', m / MINUTE, Second(m % MINUTE), n / MINUTE, Second(n % MINUTE));
    SecondOrder(m % MINUTE, n % MINUTE);
  }

  lemma TimeOfDayOrder(m: nat, n: nat)
    requires m < DAY && n < DAY
    ensures TextLess(TimeOfDay(m), TimeOfDay(n)) <==> m < n
  {
    FieldThenRest('T', m / HOUR, MinuteSecond(m % HOUR), n / HOUR, MinuteSecond(n % HOUR));
    MinuteSecondOrder(m % HOUR, n % HOUR);
  }

  lemma DayAndTimeOrder(m: nat, n: nat)
    requires m < MONTH && n < MONTH
    ensures TextLess(DayAndTime(m), DayAndTime(n)) <==> m < n
  {
    FieldThenRest('-', m / DAY + 1, TimeOfDay(m % DAY), n / DAY + 1, TimeOfDay(n % DAY));
    TimeOfDayOrder(m % DAY, n % DAY);
  }

  lemma SameMonthOrder(t: int, u: int)
    requires UtcMonth(t) == UtcMonth(u)
    ensures TextLess(Stamp(t), Stamp(u)) <==> t < u
  {
    var month := Format(UtcMonth(t));
    TextLessConcat(month, DayAndTime(t % MONTH), month, DayAndTime(u % MONTH));
    TextLessIsIrreflexive(month);
    DayAndTimeOrder(t % MONTH, u % MONTH);
  }

  /** The years that are written with four digits and no sign. */
  predicate FourDigitYear(t: int) {
    0 <= UtcMonth(t) < MONTHS_OF_FOUR_DIGIT_YEARS
  }

  /** From year 0000 to year 9999, text order is time order. */
  lemma TextOrderIsTimeOrder(t: int, u: int)
    requires FourDigitYear(t) && FourDigitYear(u)
    ensures TextLess(Stamp(t), Stamp(u)) <==> t < u
  {
    if UtcMonth(t) == UtcMonth(u) {
      SameMonthOrder(t, u);
    } else {
      var m, n := Format(UtcMonth(t)), Format(UtcMonth(u));
      OrdinalOfFormat(UtcMonth(t));
      OrdinalOfFormat(UtcMonth(u));
      TextLessConcat(m, DayAndTime(t % MONTH), n, DayAndTime(u % MONTH));
      TextOrderIsCalendarOrder(m, n);
    }
  }

  /** The first character of a timestamp tells the three spans of years apart. */
  lemma FirstCharacter(t: int)
    ensures Stamp(t) != ""
    ensures UtcMonth(t) < 0 <==> Stamp(t)[0] == '-'
    ensures UtcMonth(t) >= MONTHS_OF_FOUR_DIGIT_YEARS <==> Stamp(t)[0] == '+'
    ensures FourDigitYear(t) <==> IsDigit(Stamp(t)[0])
  {
    assert Stamp(t)[0] == Format(UtcMonth(t))[0];
  }

  lemma FirstCharacterDecides(t: int, u: int)
    requires Stamp(t) != "" && Stamp(u) != "" && Stamp(t)[0] != Stamp(u)[0]
    ensures TextLess(Stamp(t), Stamp(u)) <==> Stamp(t)[0] < Stamp(u)[0]
  {
  }

  // ----- The half-open text range of a query

  predicate InStampRange(t: int, from: int, to: int) {
    !TextLess(Stamp(t), Stamp(from)) && TextLess(Stamp(t), Stamp(to))
  }

  /** Nothing is in a range that ends after year 9999: its end sorts in front of all other years. */
  lemma LateRangeIsEmpty(t: int, from: int, to: int)
    requires UtcMonth(from) < MONTHS_OF_FOUR_DIGIT_YEARS <= UtcMonth(to)
    ensures !InStampRange(t, from, to)
  {
    FirstCharacter(t);
    FirstCharacter(from);
    FirstCharacter(to);
    if UtcMonth(t) < MONTHS_OF_FOUR_DIGIT_YEARS {
      FirstCharacterDecides(t, to);
    } else {
      FirstCharacterDecides(t, from);
    }
  }

  /** A range may start in the last month before year zero, which is where that year starts east of Greenwich. */
  lemma StampRangeIsTimeRange(t: int, from: int, to: int)
    requires -1 <= UtcMonth(from) < MONTHS_OF_FOUR_DIGIT_YEARS && FourDigitYear(to) && UtcMonth(t) >= -1
    ensures InStampRange(t, from, to) <==> from <= t < to
  {
    StampAgainstStart(t, from);
    FirstCharacter(t);
    FirstCharacter(to);
    if FourDigitYear(t) {
      TextOrderIsTimeOrder(t, to);
    } else {
      FirstCharacterDecides(t, to);
    }
  }

  lemma StampAgainstStart(t: int, from: int)
    requires -1 <= UtcMonth(from) < MONTHS_OF_FOUR_DIGIT_YEARS && UtcMonth(t) >= -1
    ensures if UtcMonth(t) < MONTHS_OF_FOUR_DIGIT_YEARS then TextLess(Stamp(t), Stamp(from)) <==> t < from
            else TextLess(Stamp(t), Stamp(from))
  {
    FirstCharacter(t);
    FirstCharacter(from);
    if UtcMonth(t) == UtcMonth(from) {
      SameMonthOrder(t, from);
    } else if FourDigitYear(t) && FourDigitYear(from) {
      TextOrderIsTimeOrder(t, from);
    } else {
      FirstCharacterDecides(t, from);
    }
  }

  /** Whatever a range that starts in year zero or later holds has a year of four digits. */
  lemma RangeHoldsFourDigitYears(t: int, from: int, to: int)
    requires FourDigitYear(from) && InStampRange(t, from, to)
    ensures FourDigitYear(t)
  {
    FirstCharacter(t);
    FirstCharacter(from);
    if !FourDigitYear(t) {
      FirstCharacterDecides(t, from);
      assert false;
    }
  }

  ghost predicate IsTimeRange(from: int, to: int) {
    forall t :: FourDigitYear(t) ==> (InStampRange(t, from, to) <==> from <= t < to)
  }

  /** For which end a range that starts in a four-digit year holds the times from its start up to its end. */
  lemma RangeIsTimeRangeIff(from: int, to: int)
    requires FourDigitYear(from) && from < to
    ensures IsTimeRange(from, to) <==> FourDigitYear(to)
  {
    if FourDigitYear(to) {
      forall t | FourDigitYear(t) ensures InStampRange(t, from, to) <==> from <= t < to {
        StampRangeIsTimeRange(t, from, to);
      }
    } else {
      LateRangeIsEmpty(from, from, to);
    }
  }
}
