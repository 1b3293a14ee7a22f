/**
  Loading spending: the transactions of a time range, aggregated into one row for each month and
  category in the order in which these first appear.
 */
module Transactions {
  import opened Decimal
  import opened Schema
  import opened Budget
  import opened Months
  import opened Timestamps
  import opened Spending

  /** One that the spending filter lets through if its time does; its category is the id and the kind. */
  datatype Transaction = Transaction(datetime: int, category: (int, CategoryKind), amount: I64)

  /**
    Where months start in the configured time zone, which month a point in time is in, and that month's
    text. Offsets from UTC are less than a day, so a month starts on the last day of the month before, in
    UTC, which is at most four numbers from its end, or on its first day.
   */
  datatype TimeZone = TimeZone(midnight: int -> int, monthAt: int -> int, periodOf: int -> string) {
    ghost predicate Valid() {
      && (forall n :: n * MONTH - 4 * DAY <= midnight(n) < n * MONTH + DAY)
      && (forall t, n :: monthAt(t) == n <==> InMonth(t, n))
      && (forall t {:trigger periodOf(t)} :: periodOf(t) == Format(monthAt(t)))
    }

    ghost predicate InMonth(t: int, n: int) {
      midnight(n) <= t < midnight(n + 1)
    }
  }

  /** The query's range compares the texts of the times. */
  function Loaded(ts: seq<Transaction>, from: int, to: int): seq<Transaction> {
    if ts == [] then []
    else
      var before, last := Loaded(ts[..|ts| - 1], from, to), ts[|ts| - 1];
      if InStampRange(last.datetime, from, to) then before + [last] else before
  }

  /** What the query is to load. */
  ghost function During(ts: seq<Transaction>, from: int, to: int): seq<Transaction> {
    if ts == [] then []
    else
      var before, last := During(ts[..|ts| - 1], from, to), ts[|ts| - 1];
      if from <= last.datetime < to then before + [last] else before
  }

  predicate IsFor(row: SpendingRow, period: string, id: int) {
    row.category.Some? && row.periodLabel == period && row.category.value.0 == id
  }

  /** The first row for the month and the category, or the number of rows. */
  function RowPosition(rows: seq<SpendingRow>, period: string, id: int): (i: nat)
    ensures i <= |rows| && (i < |rows| ==> IsFor(rows[i], period, id))
    ensures forall k :: 0 <= k < i ==> !IsFor(rows[k], period, id)
  {
    if rows == [] || IsFor(rows[0], period, id) then 0 else 1 + RowPosition(rows[1..], period, id)
  }

  function Added(rows: seq<SpendingRow>, period: string, category: (int, CategoryKind), amount: I64): seq<SpendingRow> {
    var i := RowPosition(rows, period, category.0);
    if i < |rows| then rows[i := rows[i].(totalAmount := Add(rows[i].totalAmount, amount))]
    else rows + [SpendingRow(period, Some(category), Add(0, amount))]
  }

  function Aggregated(ts: seq<Transaction>, periodOf: int -> string): seq<SpendingRow> {
    if ts == [] then []
    else
      var last := ts[|ts| - 1];
      Added(Aggregated(ts[..|ts| - 1], periodOf), periodOf(last.datetime), last.category, last.amount)
  }

  method AggregateRows(ts: seq<Transaction>, periodOf: int -> string) returns (aggregates: seq<SpendingRow>)
    ensures aggregates == Aggregated(ts, periodOf) && OneRowEach(aggregates)
  {
    aggregates := [];
    for i := 0 to |ts|
      invariant aggregates == Aggregated(ts[..i], periodOf) && OneRowEach(aggregates)
    {
      assert ts[..i + 1][..i] == ts[..i];
      var t := ts[i];
      var index := RowPosition(aggregates, periodOf(t.datetime), t.category.0);
      if index == |aggregates| {
        aggregates := aggregates + [SpendingRow(periodOf(t.datetime), Some(t.category), 0)];
      }
      var total := Add(aggregates[index].totalAmount, t.amount);
      aggregates := aggregates[index := aggregates[index].(totalAmount := total)];
    }
    assert ts[..|ts|] == ts;
  }

  lemma {:induction false} AggregatedOneRowEach(ts: seq<Transaction>, periodOf: int -> string)
    ensures OneRowEach(Aggregated(ts, periodOf))
  {
    if ts != [] {
      AggregatedOneRowEach(ts[..|ts| - 1], periodOf);
    }
  }

  /** One more transaction leaves every row in its place and adds at most one, behind them. */
  lemma RowsKeepTheirPlaces(ts: seq<Transaction>, t: Transaction, periodOf: int -> string)
    ensures var rows, more := Aggregated(ts, periodOf), Aggregated(ts + [t], periodOf);
            && |rows| <= |more| <= |rows| + 1
            && (forall i :: 0 <= i < |rows| ==>
                  more[i].periodLabel == rows[i].periodLabel && more[i].category == rows[i].category)
            && (|more| == |rows| + 1 ==>
                  more[|rows|].periodLabel == periodOf(t.datetime) && more[|rows|].category == Some(t.category))
  {
    assert (ts + [t])[..|ts|] == ts;
  }

  lemma AddedHead(rows: seq<SpendingRow>, period: string, category: (int, CategoryKind), amount: I64)
    requires rows != []
    ensures Added(rows, period, category, amount) ==
            if IsFor(rows[0], period, category.0)
            then [rows[0].(totalAmount := Add(rows[0].totalAmount, amount))] + rows[1..]
            else [rows[0]] + Added(rows[1..], period, category, amount)
  {
    assert rows == [rows[0]] + rows[1..];
  }

  // ----- A month's rows depend on that month's transactions only

  function Only(ts: seq<Transaction>, month: string, periodOf: int -> string): seq<Transaction> {
    if ts == [] then []
    else
      var before, last := Only(ts[..|ts| - 1], month, periodOf), ts[|ts| - 1];
      if periodOf(last.datetime) == month then before + [last] else before
  }

  function RowsOf(rows: seq<SpendingRow>, month: string): seq<SpendingRow> {
    if rows == [] then []
    else if rows[0].periodLabel == month then [rows[0]] + RowsOf(rows[1..], month)
    else RowsOf(rows[1..], month)
  }

  lemma {:induction false} RowsOfSnoc(rows: seq<SpendingRow>, row: SpendingRow, month: string)
    ensures RowsOf(rows + [row], month) == RowsOf(rows, month) + if row.periodLabel == month then [row] else []
  {
    if rows == [] {
      assert [] + [row] == [row];
    } else {
      assert (rows + [row])[1..] == rows[1..] + [row];
      RowsOfSnoc(rows[1..], row, month);
    }
  }

  lemma {:induction false} OfMonthIsLocal(rows: seq<SpendingRow>, month: string)
    ensures OfMonth(RowsOf(rows, month), month) == OfMonth(rows, month)
  {
    if rows != [] {
      var init, last := rows[..|rows| - 1], rows[|rows| - 1];
      OfMonthIsLocal(init, month);
      assert rows == init + [last];
      RowsOfSnoc(init, last, month);
      if last.periodLabel == month {
        assert RowsOf(rows, month)[..|RowsOf(rows, month)| - 1] == RowsOf(init, month);
      } else {
        assert RowsOf(rows, month) == RowsOf(init, month);
      }
    }
  }

  lemma {:induction false} RowsOfAdded(rows: seq<SpendingRow>, period: string, category: (int, CategoryKind),
                                       amount: I64, month: string)
    ensures RowsOf(Added(rows, period, category, amount), month) ==
            if period == month then Added(RowsOf(rows, month), period, category, amount) else RowsOf(rows, month)
  {
    if rows != [] {
      RowsOfAdded(rows[1..], period, category, amount, month);
      AddedHead(rows, period, category, amount);
      if rows[0].periodLabel == month {
        AddedHead(RowsOf(rows, month), period, category, amount);
      }
    }
  }

  lemma OnlySnoc(ts: seq<Transaction>, t: Transaction, month: string, periodOf: int -> string)
    ensures Only(ts + [t], month, periodOf) ==
            Only(ts, month, periodOf) + if periodOf(t.datetime) == month then [t] else []
    ensures Aggregated(ts + [t], periodOf) ==
            Added(Aggregated(ts, periodOf), periodOf(t.datetime), t.category, t.amount)
  {
    assert (ts + [t])[..|ts|] == ts;
  }

  /** Aggregating and then keeping a month's rows is keeping its transactions and then aggregating. */
  lemma {:induction false} RowsOfAggregated(ts: seq<Transaction>, month: string, periodOf: int -> string)
    ensures RowsOf(Aggregated(ts, periodOf), month) == Aggregated(Only(ts, month, periodOf), periodOf)
  {
    if ts != [] {
      var init, last := ts[..|ts| - 1], ts[|ts| - 1];
      RowsOfAggregated(init, month, periodOf);
      RowsOfAdded(Aggregated(init, periodOf), periodOf(last.datetime), last.category, last.amount, month);
      OnlySnoc(Only(init, month, periodOf), last, month, periodOf);
    }
  }

  lemma MidnightsIncrease(zone: TimeZone)
    requires zone.Valid()
    ensures Increasing(zone.midnight)
  {
    var midnight := zone.midnight;
    forall i, j | i < j ensures midnight(i) < midnight(j) {
      assert midnight(i) < i * MONTH + DAY && j * MONTH - 4 * DAY <= midnight(j);
    }
  }

  lemma PeriodsAreMonths(t: int, month: string, zone: TimeZone)
    requires zone.Valid() && ValidMonth(month)
    ensures zone.periodOf(t) == month <==> Start(month, zone.midnight) <= t < End(month, zone.midnight)
  {
    FormatOfOrdinal(month);
    OrdinalRange(month);
    var n, own := zone.monthAt(t), Ordinal(month);
    assert n == own <==> zone.InMonth(t, own);
    if 0 <= n < MONTHS_OF_FOUR_DIGIT_YEARS {
      OrdinalOfFormat(n);
    } else {
      ValidShape(month);
      assert !IsDigit(Format(n)[0]);
    }
  }

  /** In UTC a month starts at the earliest in the month before year zero and ends at the latest after year 9999. */
  lemma MonthInUtc(month: string, zone: TimeZone)
    requires zone.Valid() && ValidMonth(month)
    ensures -1 <= UtcMonth(Start(month, zone.midnight)) < MONTHS_OF_FOUR_DIGIT_YEARS
    ensures 0 <= UtcMonth(End(month, zone.midnight)) <= MONTHS_OF_FOUR_DIGIT_YEARS
    ensures Start(month, zone.midnight) < End(month, zone.midnight)
    ensures month != LAST_MONTH ==> FourDigitYear(End(month, zone.midnight))
  {
    var n := Ordinal(month);
    OrdinalRange(month);
    LastOrdinal(month);
    assert n * MONTH - 4 * DAY <= zone.midnight(n) < n * MONTH + DAY;
    assert (n + 1) * MONTH - 4 * DAY <= zone.midnight(n + 1) < (n + 1) * MONTH + DAY;
  }

  lemma {:induction false} OnlyOfLoaded(ts: seq<Transaction>, from: int, to: int, month: string, zone: TimeZone)
    requires zone.Valid() && ValidMonth(month) && UtcMonth(from) >= -1
    requires from <= Start(month, zone.midnight) && End(month, zone.midnight) <= to
    ensures Only(Loaded(ts, from, to), month, zone.periodOf) ==
            if FourDigitYear(to) then During(ts, Start(month, zone.midnight), End(month, zone.midnight)) else []
  {
    if ts != [] {
      var init, last := ts[..|ts| - 1], ts[|ts| - 1];
      OnlyOfLoaded(init, from, to, month, zone);
      OnlySnoc(Loaded(init, from, to), last, month, zone.periodOf);
      LoadedInMonth(last.datetime, from, to, month, zone);
    }
  }

  lemma LoadedInMonth(t: int, from: int, to: int, month: string, zone: TimeZone)
    requires zone.Valid() && ValidMonth(month) && UtcMonth(from) >= -1
    requires from <= Start(month, zone.midnight) && End(month, zone.midnight) <= to
    ensures InStampRange(t, from, to) && zone.periodOf(t) == month <==>
            FourDigitYear(to) && Start(month, zone.midnight) <= t < End(month, zone.midnight)
  {
    MonthInUtc(month, zone);
    PeriodsAreMonths(t, month, zone);
    if !FourDigitYear(to) {
      LateRangeIsEmpty(t, from, to);
    } else if UtcMonth(t) >= -1 {
      StampRangeIsTimeRange(t, from, to);
    }
  }

  /** A month's actual amounts, loaded with the range of the month alone. */
  function MonthAmounts(ts: seq<Transaction>, month: string, zone: TimeZone): Amounts
    requires ValidMonth(month)
  {
    OfMonth(Aggregated(Loaded(ts, Start(month, zone.midnight), End(month, zone.midnight)), zone.periodOf), month)
  }

  /** The actual amounts of all transactions of a month. */
  ghost function SpentDuring(ts: seq<Transaction>, month: string, zone: TimeZone): Amounts
    requires ValidMonth(month)
  {
    OfMonth(Aggregated(During(ts, Start(month, zone.midnight), End(month, zone.midnight)), zone.periodOf), month)
  }

  /**
    A range that covers a month yields all of the month's transactions, whatever else is in the range, if
    the range ends before year 10000 in UTC, and otherwise none of them.
   */
  lemma RangeYieldsMonth(ts: seq<Transaction>, from: int, to: int, month: string, zone: TimeZone)
    requires zone.Valid() && ValidMonth(month) && UtcMonth(from) >= -1
    requires from <= Start(month, zone.midnight) && End(month, zone.midnight) <= to
    ensures OfMonth(Aggregated(Loaded(ts, from, to), zone.periodOf), month) ==
            if FourDigitYear(to) then SpentDuring(ts, month, zone) else map[]
  {
    OnlyOfLoaded(ts, from, to, month, zone);
    RowsOfAggregated(Loaded(ts, from, to), month, zone.periodOf);
    OfMonthIsLocal(Aggregated(Loaded(ts, from, to), zone.periodOf), month);
  }

  lemma OwnRangeYieldsMonth(ts: seq<Transaction>, month: string, zone: TimeZone)
    requires zone.Valid() && ValidMonth(month)
    ensures MonthAmounts(ts, month, zone) ==
            if FourDigitYear(End(month, zone.midnight)) then SpentDuring(ts, month, zone) else map[]
  {
    MonthInUtc(month, zone);
    RangeYieldsMonth(ts, Start(month, zone.midnight), End(month, zone.midnight), month, zone);
  }

  /** Any range before year 10000 that covers a month yields the amounts that the month's own range yields. */
  lemma WiderRangeSameMonth(ts: seq<Transaction>, from: int, to: int, month: string, zone: TimeZone)
    requires zone.Valid() && ValidMonth(month) && UtcMonth(from) >= -1 && FourDigitYear(to)
    requires from <= Start(month, zone.midnight) && End(month, zone.midnight) <= to
    ensures OfMonth(Aggregated(Loaded(ts, from, to), zone.periodOf), month) == MonthAmounts(ts, month, zone)
  {
    MonthInUtc(month, zone);
    RangeYieldsMonth(ts, from, to, month, zone);
    OwnRangeYieldsMonth(ts, month, zone);
  }

  // ----- Loading rows

  const MAX_SPENDING_PERIODS := 400

  /** The months that a range between two midnights touches. */
  function PeriodCount(from: int, to: int, zone: TimeZone): int {
    if from < to then zone.monthAt(to - 1) - zone.monthAt(from) + 1 else 0
  }

  /** RFC 3339 has years of four digits only, so other times can be written but not read back. */
  predicate Readable(ts: seq<Transaction>) {
    forall i :: 0 <= i < |ts| ==> FourDigitYear(ts[i].datetime)
  }

  ghost predicate OutsideFourDigits(ts: seq<Transaction>) {
    exists i :: 0 <= i < |ts| && !(0 <= UtcMonth(ts[i].datetime) < 12 * 10_000)
  }

  datatype SpendingResult = Rows(rows: seq<SpendingRow>) | PeriodsRefused | TimeUnreadable

  /** Periods are limited only if the caller names the granularity; rows are monthly in any case. */
  method SpendingRows(ts: seq<Transaction>, from: int, to: int, monthly: bool, zone: TimeZone)
    returns (r: SpendingResult)
    ensures r == PeriodsRefused <==> monthly && PeriodCount(from, to, zone) > MAX_SPENDING_PERIODS
    ensures r == TimeUnreadable <==> r != PeriodsRefused && OutsideFourDigits(Loaded(ts, from, to))
    ensures r.Rows? ==> r.rows == Aggregated(Loaded(ts, from, to), zone.periodOf)
  {
    if monthly && PeriodCount(from, to, zone) > MAX_SPENDING_PERIODS {
      return PeriodsRefused;
    }
    var loaded := Loaded(ts, from, to);
    if !Readable(loaded) {
      return TimeUnreadable;
    }
    var rows := AggregateRows(loaded, zone.periodOf);
    return Rows(rows);
  }

  /** A range that starts in year zero or later loads only times that can be read back. */
  lemma {:induction false} LoadedIsReadable(ts: seq<Transaction>, from: int, to: int)
    requires FourDigitYear(from)
    ensures !OutsideFourDigits(Loaded(ts, from, to))
  {
    if ts != [] {
      LoadedIsReadable(ts[..|ts| - 1], from, to);
      if InStampRange(ts[|ts| - 1].datetime, from, to) {
        RangeHoldsFourDigitYears(ts[|ts| - 1].datetime, from, to);
      }
    }
  }

  /** The first and the last instant of the months from `a` to `b` are in these months. */
  lemma EndsOfMonths(a: int, b: int, zone: TimeZone)
    requires zone.Valid() && a <= b
    ensures zone.midnight(a) < zone.midnight(b + 1)
    ensures zone.monthAt(zone.midnight(a)) == a && zone.monthAt(zone.midnight(b + 1) - 1) == b
  {
    MidnightsIncrease(zone);
    assert zone.midnight(a) < zone.midnight(a + 1) && zone.midnight(b) < zone.midnight(b + 1);
    assert zone.InMonth(zone.midnight(a), a) && zone.InMonth(zone.midnight(b + 1) - 1, b);
  }

  lemma PeriodsOfMonths(first: string, last: string, zone: TimeZone)
    requires zone.Valid() && ValidMonth(first) && ValidMonth(last) && Ordinal(first) <= Ordinal(last)
    ensures PeriodCount(Start(first, zone.midnight), End(last, zone.midnight), zone) ==
            Ordinal(last) - Ordinal(first) + 1
  {
    EndsOfMonths(Ordinal(first), Ordinal(last), zone);
  }

  // ----- Totals in terms of transactions

  /** The exact sum of the transactions in these categories. */
  ghost function TransactionTotal(ts: seq<Transaction>, ids: set<int>): int {
    if ts == [] then 0
    else
      var last := ts[|ts| - 1];
      TransactionTotal(ts[..|ts| - 1], ids) + if last.category.0 in ids then last.amount else 0
  }

  ghost function Share(row: SpendingRow, month: string, ids: set<int>): int {
    if row.category.Some? && row.periodLabel == month && row.category.value.0 in ids then row.totalAmount else 0
  }

  /** The stored total again, from the first row on. */
  ghost function Shares(rows: seq<SpendingRow>, month: string, ids: set<int>): int {
    if rows == [] then 0 else Share(rows[0], month, ids) + Shares(rows[1..], month, ids)
  }

  lemma {:induction false} SharesSnoc(rows: seq<SpendingRow>, row: SpendingRow, month: string, ids: set<int>)
    ensures Shares(rows + [row], month, ids) == Shares(rows, month, ids) + Share(row, month, ids)
  {
    if rows == [] {
      assert ([] + [row])[1..] == [];
    } else {
      assert (rows + [row])[1..] == rows[1..] + [row];
      SharesSnoc(rows[1..], row, month, ids);
    }
  }

  lemma {:induction false} SharesAreStoredTotal(rows: seq<SpendingRow>, month: string, ids: set<int>)
    ensures Shares(rows, month, ids) == StoredTotal(rows, month, ids)
  {
    if rows != [] {
      var init, last := rows[..|rows| - 1], rows[|rows| - 1];
      assert rows == init + [last];
      SharesAreStoredTotal(init, month, ids);
      SharesSnoc(init, last, month, ids);
    }
  }

  lemma WrapAddSame(a: int, b: int, c: int)
    requires Wrap(b) == Wrap(c)
    ensures Wrap(a + b) == Wrap(a + c)
  {
    WrapAdd(a, b);
    WrapAdd(a, c);
  }

  lemma WrapAddend(x: I64, y: I64, rest: int)
    ensures Wrap(Add(x, y) as int + rest) == Wrap(x as int + rest + y as int)
  {
    WrapFits(Add(x, y));
    WrapAdd(x as int + y as int, rest);
    WrapAdd(Add(x, y), rest);
  }

  ghost function Due(period: string, category: (int, CategoryKind), amount: I64, month: string, ids: set<int>): int {
    if period == month && category.0 in ids then amount else 0
  }

  /** Adding a transaction to the rows adds its amount to the total, modulo the width of `i64`. */
  lemma {:induction false} AddedAddsUp(rows: seq<SpendingRow>, period: string, category: (int, CategoryKind),
                                       amount: I64, month: string, ids: set<int>)
    ensures Wrap(Shares(Added(rows, period, category, amount), month, ids)) ==
            Wrap(Shares(rows, month, ids) + Due(period, category, amount, month, ids))
  {
    var rows' := Added(rows, period, category, amount);
    if rows == [] {
      assert rows'[1..] == [];
      WrapFits(amount);
    } else {
      AddedHead(rows, period, category, amount);
      if IsFor(rows[0], period, category.0) {
        assert rows'[1..] == rows[1..];
        WrapAddend(rows[0].totalAmount, amount, Shares(rows[1..], month, ids));
      } else {
        assert rows'[1..] == Added(rows[1..], period, category, amount);
        AddedAddsUp(rows[1..], period, category, amount, month, ids);
        WrapAddSame(Share(rows[0], month, ids), Shares(rows'[1..], month, ids),
                    Shares(rows[1..], month, ids) + Due(period, category, amount, month, ids));
      }
    }
  }

  ghost predicate AllIn(ts: seq<Transaction>, month: string, periodOf: int -> string) {
    forall i :: 0 <= i < |ts| ==> periodOf(ts[i].datetime) == month
  }

  lemma {:induction false} SharesAreTransactionTotal(ts: seq<Transaction>, month: string, ids: set<int>,
                                                     periodOf: int -> string)
    requires AllIn(ts, month, periodOf)
    ensures Wrap(Shares(Aggregated(ts, periodOf), month, ids)) == Wrap(TransactionTotal(ts, ids))
  {
    if ts != [] {
      var init, last := ts[..|ts| - 1], ts[|ts| - 1];
      var rows, due := Aggregated(init, periodOf), Due(month, last.category, last.amount, month, ids);
      SharesAreTransactionTotal(init, month, ids, periodOf);
      AddedAddsUp(rows, month, last.category, last.amount, month, ids);
      WrapAddSame(due, Shares(rows, month, ids), TransactionTotal(init, ids));
      assert periodOf(last.datetime) == month && TransactionTotal(ts, ids) == TransactionTotal(init, ids) + due;
    }
  }

  ghost predicate StoresTotal(rows: seq<SpendingRow>, ts: seq<Transaction>, month: string, ids: set<int>) {
    Wrap(StoredTotal(rows, month, ids)) == Wrap(TransactionTotal(ts, ids))
  }

  lemma StoredTotalIsTransactionTotal(ts: seq<Transaction>, month: string, ids: set<int>, periodOf: int -> string)
    requires AllIn(ts, month, periodOf)
    ensures StoresTotal(Aggregated(ts, periodOf), ts, month, ids)
  {
    SharesAreTransactionTotal(ts, month, ids, periodOf);
    SharesAreStoredTotal(Aggregated(ts, periodOf), month, ids);
  }

  /** Transactions of these categories carry the kind of the group that lists them. */
  ghost predicate KindsMatch(ts: seq<Transaction>, ids: set<int>, income: bool) {
    forall i :: 0 <= i < |ts| && ts[i].category.0 in ids ==> (ts[i].category.1 == Income <==> income)
  }

  lemma {:induction false} DuringKindsMatch(ts: seq<Transaction>, from: int, to: int, ids: set<int>, income: bool)
    requires KindsMatch(ts, ids, income)
    ensures KindsMatch(During(ts, from, to), ids, income)
  {
    if ts != [] {
      DuringKindsMatch(ts[..|ts| - 1], from, to, ids, income);
    }
  }

  lemma {:induction false} RowKindsMatch(ts: seq<Transaction>, ids: set<int>, income: bool, periodOf: int -> string)
    requires KindsMatch(ts, ids, income)
    ensures KindMatches(Aggregated(ts, periodOf), ids, income)
  {
    if ts != [] {
      RowKindsMatch(ts[..|ts| - 1], ids, income, periodOf);
    }
  }

  lemma {:induction false} DuringIsIn(ts: seq<Transaction>, month: string, zone: TimeZone)
    requires zone.Valid() && ValidMonth(month)
    ensures AllIn(During(ts, Start(month, zone.midnight), End(month, zone.midnight)), month, zone.periodOf)
  {
    if ts != [] {
      DuringIsIn(ts[..|ts| - 1], month, zone);
      PeriodsAreMonths(ts[|ts| - 1].datetime, month, zone);
    }
  }

  lemma WrapNeg(a: int, b: int)
    requires Wrap(a) == Wrap(b)
    ensures Wrap(-a) == Wrap(-b)
  {
    WrapAdd(0, a);
    WrapAdd(0, b);
  }

  /** Expenses are the sum of the transactions in expense categories; income is the negation of that in income ones. */
  ghost predicate TotalsAre(r: BudgetReport, ts: seq<Transaction>, groups: seq<CategoryGroup>) {
    && r.incomeActual == Wrap(-TransactionTotal(ts, Ids(CategoriesOf(groups, Income))))
    && r.expensesActual == Wrap(TransactionTotal(ts, Ids(CategoriesOf(groups, Expense))))
  }

  /** No category is listed twice, and transactions carry the kind of the group that lists their category. */
  ghost predicate ListsKinds(groups: seq<CategoryGroup>, ts: seq<Transaction>) {
    && DistinctIds(CategoriesOf(groups, Income)) && DistinctIds(CategoriesOf(groups, Expense))
    && KindsMatch(ts, Ids(CategoriesOf(groups, Income)), true)
    && KindsMatch(ts, Ids(CategoriesOf(groups, Expense)), false)
  }

  lemma IncomeOfRows(income: I64, rows: seq<SpendingRow>, ts: seq<Transaction>, month: string, ids: set<int>)
    requires income == Wrap(-StoredTotal(rows, month, ids)) && StoresTotal(rows, ts, month, ids)
    ensures income == Wrap(-TransactionTotal(ts, ids))
  {
    WrapNeg(StoredTotal(rows, month, ids), TransactionTotal(ts, ids));
  }

  /** The same for any rows whose stored totals are those of the transactions. */
  lemma ReportTotalsOfRows(rows: seq<SpendingRow>, ts: seq<Transaction>, month: string, groups: seq<CategoryGroup>,
                           budgeted: Entries)
    requires OneRowEach(rows)
    requires DistinctIds(CategoriesOf(groups, Income)) && DistinctIds(CategoriesOf(groups, Expense))
    requires KindMatches(rows, Ids(CategoriesOf(groups, Income)), true)
    requires KindMatches(rows, Ids(CategoriesOf(groups, Expense)), false)
    requires StoresTotal(rows, ts, month, Ids(CategoriesOf(groups, Income)))
    requires StoresTotal(rows, ts, month, Ids(CategoriesOf(groups, Expense)))
    ensures TotalsAre(AssembleReport(month, groups, budgeted, OfMonth(rows, month)), ts, groups)
  {
    ReportTotalsAreStoredTotals(rows, month, groups, budgeted);
    var r := AssembleReport(month, groups, budgeted, OfMonth(rows, month));
    IncomeOfRows(r.incomeActual, rows, ts, month, Ids(CategoriesOf(groups, Income)));
  }

  lemma ReportTotalsOfAggregated(ts: seq<Transaction>, month: string, groups: seq<CategoryGroup>,
                                 budgeted: Entries, periodOf: int -> string)
    requires AllIn(ts, month, periodOf) && ListsKinds(groups, ts)
    ensures TotalsAre(AssembleReport(month, groups, budgeted, OfMonth(Aggregated(ts, periodOf), month)), ts, groups)
  {
    var income, expense := Ids(CategoriesOf(groups, Income)), Ids(CategoriesOf(groups, Expense));
    AggregatedOneRowEach(ts, periodOf);
    RowKindsMatch(ts, income, true, periodOf);
    RowKindsMatch(ts, expense, false, periodOf);
    StoredTotalIsTransactionTotal(ts, month, income, periodOf);
    StoredTotalIsTransactionTotal(ts, month, expense, periodOf);
    ReportTotalsOfRows(Aggregated(ts, periodOf), ts, month, groups, budgeted);
  }

  lemma DuringListsKinds(groups: seq<CategoryGroup>, ts: seq<Transaction>, from: int, to: int)
    requires ListsKinds(groups, ts)
    ensures ListsKinds(groups, During(ts, from, to))
  {
    DuringKindsMatch(ts, from, to, Ids(CategoriesOf(groups, Income)), true);
    DuringKindsMatch(ts, from, to, Ids(CategoriesOf(groups, Expense)), false);
  }

  lemma TotalsOfSpentDuring(ts: seq<Transaction>, month: string, groups: seq<CategoryGroup>, budgeted: Entries,
                            zone: TimeZone)
    requires zone.Valid() && ValidMonth(month) && ListsKinds(groups, ts)
    ensures TotalsAre(AssembleReport(month, groups, budgeted, SpentDuring(ts, month, zone)),
                      During(ts, Start(month, zone.midnight), End(month, zone.midnight)), groups)
  {
    var own := During(ts, Start(month, zone.midnight), End(month, zone.midnight));
    DuringIsIn(ts, month, zone);
    DuringListsKinds(groups, ts, Start(month, zone.midnight), End(month, zone.midnight));
    ReportTotalsOfAggregated(own, month, groups, budgeted, zone.periodOf);
  }

  lemma TotalsOfNothing(month: string, groups: seq<CategoryGroup>, budgeted: Entries)
    requires DistinctIds(CategoriesOf(groups, Income)) && DistinctIds(CategoriesOf(groups, Expense))
    ensures TotalsAre(AssembleReport(month, groups, budgeted, map[]), [], groups)
  {
    ReportTotalsOfAggregated([], month, groups, budgeted, t => "");
  }

  /**
    From transactions to report: every transaction of the month is in the month's totals, and counts once,
    if the month ends before year 10000 in UTC; otherwise none is.
   */
  lemma ReportTotalsAreTransactionTotals(ts: seq<Transaction>, month: string, groups: seq<CategoryGroup>,
                                         budgeted: Entries, zone: TimeZone)
    requires zone.Valid() && ValidMonth(month) && ListsKinds(groups, ts)
    ensures var from, to := Start(month, zone.midnight), End(month, zone.midnight);
            TotalsAre(AssembleReport(month, groups, budgeted, MonthAmounts(ts, month, zone)),
                      if FourDigitYear(to) then During(ts, from, to) else [], groups)
  {
    OwnRangeYieldsMonth(ts, month, zone);
    if FourDigitYear(End(month, zone.midnight)) {
      TotalsOfSpentDuring(ts, month, groups, budgeted, zone);
    } else {
      TotalsOfNothing(month, groups, budgeted);
    }
  }
}
