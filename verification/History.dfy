/**
  The budget report history: the reports of all budgeted months in a half-open range, newest first.
 */
module History {
  import opened Decimal
  import opened Schema
  import opened Budget
  import opened Months
  import opened Timestamps
  import opened Spending
  import opened Transactions

  const MAX_BUDGET_REPORT_HISTORY_MONTHS := 120

  datatype Error =
    | InvalidMonth | InvalidStart | InvalidEnd | StartNotBeforeEnd
    | TooManyMonths(count: nat) | TooManyPeriods | UnreadableTime

  datatype Result<+T> = Ok(value: T) | Err(error: Error)

  type Budgets = map<string, Entries>

  predicate InRange(m: string, start: Option<string>, end: Option<string>) {
    && (start.Some? ==> !TextLess(m, start.value))
    && (end.Some? ==> TextLess(m, end.value))
  }

  function MonthsInRange(budgets: Budgets, start: Option<string>, end: Option<string>): set<string> {
    set m | m in budgets && InRange(m, start, end)
  }

  ghost predicate Ascending(months: seq<string>) {
    forall i, j :: 0 <= i < j < |months| ==> TextLess(months[i], months[j])
  }

  /** Where a month goes: in front of the first later one. */
  function Position(months: seq<string>, m: string): (i: nat)
    ensures i <= |months|
    ensures forall k :: 0 <= k < i ==> !TextLess(m, months[k])
    ensures i < |months| ==> TextLess(m, months[i])
  {
    if months == [] || TextLess(m, months[0]) then 0 else 1 + Position(months[1..], m)
  }

  lemma InsertKeepsAscending(months: seq<string>, m: string)
    requires Ascending(months) && m !in months
    ensures var i := Position(months, m);
            Ascending(months[..i] + [m] + months[i..])
  {
    var at := Position(months, m);
    forall k | 0 <= k < at ensures TextLess(months[k], m) {
      TextLessIsTotal(months[k], m);
      assert months[k] in months;
    }
    forall k | at <= k < |months| ensures TextLess(m, months[k]) {
      if k > at {
        TextLessIsTransitive(m, months[at], months[k]);
      }
    }
  }

  /** `keys().cloned().collect()` and `sort()`. */
  method SortedMonths(keys: set<string>) returns (months: seq<string>)
    ensures Ascending(months) && |months| == |keys|
    ensures forall m :: m in months <==> m in keys
  {
    months := [];
    var rest := keys;
    while rest != {}
      invariant Ascending(months) && rest <= keys && |months| + |rest| == |keys|
      invariant forall m :: m in months <==> m in keys - rest
      decreases rest
    {
      var m :| m in rest;
      var i := Position(months, m);
      InsertKeepsAscending(months, m);
      assert forall x :: x in months[..i] + [m] + months[i..] <==> x in months || x == m by {
        assert months == months[..i] + months[i..];
      }
      months := months[..i] + [m] + months[i..];
      rest := rest - {m};
    }
  }

  /** A list with both months spans more periods than a spending request may have. */
  ghost predicate FarApart(a: string, b: string) {
    ValidMonth(a) && ValidMonth(b) && Ordinal(b) - Ordinal(a) >= 400
  }

  ghost predicate ProperRange(start: Option<string>, end: Option<string>) {
    && (start.Some? ==> ValidMonth(start.value)) && (end.Some? ==> ValidMonth(end.value))
    && (start.Some? && end.Some? ==> Ordinal(start.value) < Ordinal(end.value))
  }

  /** In the calendar: not before the start, and before the end, as far as these are given. */
  ghost predicate Asked(m: string, start: Option<string>, end: Option<string>) {
    && ValidMonth(m)
    && (start.None? || (ValidMonth(start.value) && Ordinal(start.value) <= Ordinal(m)))
    && (end.None? || (ValidMonth(end.value) && Ordinal(m) < Ordinal(end.value)))
  }

  ghost function AskedMonths(budgets: Budgets, start: Option<string>, end: Option<string>): set<string> {
    set m | m in budgets && Asked(m, start, end)
  }

  lemma InRangeIsAsked(m: string, start: Option<string>, end: Option<string>)
    requires ProperRange(start, end) && ValidMonth(m)
    ensures InRange(m, start, end) <==> Asked(m, start, end)
  {
    if start.Some? {
      TextOrderIsCalendarOrder(m, start.value);
    }
    if end.Some? {
      TextOrderIsCalendarOrder(m, end.value);
    }
  }

  lemma MonthsInRangeAreAsked(db: Database, start: Option<string>, end: Option<string>)
    requires db.Valid() && ProperRange(start, end)
    ensures MonthsInRange(db.budgets, start, end) == AskedMonths(db.budgets, start, end)
  {
    forall m | m in db.budgets ensures InRange(m, start, end) <==> Asked(m, start, end) {
      InRangeIsAsked(m, start, end);
    }
  }

  /** What the reports are about. */
  datatype Database = Database(budgets: Budgets, groups: seq<CategoryGroup>, transactions: seq<Transaction>) {
    /** `set_budget` and `copy_budgets` accept valid months only. */
    ghost predicate Valid() {
      forall m :: m in budgets ==> ValidMonth(m)
    }
  }

  ghost predicate IsFirst(m: string, months: set<string>) {
    m in months && ValidMonth(m) && forall x :: x in months && ValidMonth(x) ==> Ordinal(m) <= Ordinal(x)
  }

  ghost predicate IsLast(m: string, months: set<string>) {
    m in months && ValidMonth(m) && forall x :: x in months && ValidMonth(x) ==> Ordinal(x) <= Ordinal(m)
  }

  /** The first and the last month of a list that is short enough to be reported. */
  ghost predicate Spans(months: set<string>, first: string, last: string) {
    |months| <= 120 && IsFirst(first, months) && IsLast(last, months)
  }

  ghost predicate Refused(db: Database, zone: TimeZone, start: Option<string>, end: Option<string>, e: Error) {
    var months := AskedMonths(db.budgets, start, end);
    match e
    case InvalidMonth => false
    case InvalidStart => start.Some? && !ValidMonth(start.value)
    case InvalidEnd => (start.Some? ==> ValidMonth(start.value)) && end.Some? && !ValidMonth(end.value)
    case StartNotBeforeEnd =>
      && start.Some? && end.Some? && ValidMonth(start.value) && ValidMonth(end.value)
      && Ordinal(end.value) <= Ordinal(start.value)
    case TooManyMonths(count) =>
      ProperRange(start, end) && count == |months| > 120
    case TooManyPeriods =>
      ProperRange(start, end) && exists a, b :: Spans(months, a, b) && FarApart(a, b)
    case UnreadableTime =>
      ProperRange(start, end) && exists a, b :: Spans(months, a, b) && !FarApart(a, b) && Unreadable(db, zone, a, b)
  }

  /** Among the times loaded for these months there is one that cannot be read back. */
  ghost predicate Unreadable(db: Database, zone: TimeZone, first: string, last: string)
    requires ValidMonth(first) && ValidMonth(last)
  {
    OutsideFourDigits(Loaded(db.transactions, Start(first, zone.midnight), End(last, zone.midnight)))
  }

  function ReportFrom(m: string, db: Database, actual: Amounts): (r: BudgetReport)
    requires m in db.budgets
    ensures r.month == m
  {
    AssembleReport(m, db.groups, db.budgets[m], actual)
  }

  function ReportIn(m: string, db: Database, actual: map<string, Amounts>): (r: BudgetReport)
    requires m in db.budgets
    ensures r.month == m
  {
    ReportFrom(m, db, MonthOf(actual, m))
  }

  /**
    The report of a month in a history whose last month is `last`: with all the month's transactions if the
    history ends before year 10000 in UTC, and with none of them otherwise.
   */
  ghost function ShownReport(m: string, last: string, db: Database, zone: TimeZone): (r: BudgetReport)
    requires m in db.budgets && ValidMonth(m) && ValidMonth(last)
    ensures r.month == m
  {
    var inReach := FourDigitYear(End(last, zone.midnight));
    ReportFrom(m, db, if inReach then SpentDuring(db.transactions, m, zone) else map[])
  }

  /** Each budgeted month of the range once, newest first, with its report. */
  ghost predicate IsHistory(items: seq<BudgetReport>, db: Database, zone: TimeZone,
                            start: Option<string>, end: Option<string>) {
    && (forall i, j :: 0 <= i < j < |items| ==> TextLess(items[j].month, items[i].month))
    && (forall i :: 0 <= i < |items| ==>
          && items[i].month in db.budgets && ValidMonth(items[i].month)
          && InRange(items[i].month, start, end))
    && (forall i :: 0 <= i < |items| ==> items[i] == ShownReport(items[i].month, items[0].month, db, zone))
    && (forall m :: m in db.budgets && InRange(m, start, end) ==> exists i :: 0 <= i < |items| && items[i].month == m)
  }

  lemma NewestFirstIsHistory(items: seq<BudgetReport>, months: seq<string>, db: Database, zone: TimeZone,
                             start: Option<string>, end: Option<string>)
    requires Ascending(months) && |items| == |months|
    requires forall m :: m in months <==> m in MonthsInRange(db.budgets, start, end)
    requires forall k :: 0 <= k < |months| ==> months[k] in db.budgets && ValidMonth(months[k])
    requires forall k :: 0 <= k < |items| ==>
               items[k] == ShownReport(months[|months| - 1 - k], months[|months| - 1], db, zone)
    ensures IsHistory(items, db, zone, start, end)
  {
    assert forall k :: 0 <= k < |months| ==> months[k] in months;
    forall i | 0 <= i < |items|
      ensures items[i].month == months[|months| - 1 - i] && InRange(items[i].month, start, end)
      ensures items[i].month in db.budgets && ValidMonth(items[i].month)
    {
      assert months[|months| - 1 - i] in months;
    }
    forall m | m in db.budgets && InRange(m, start, end) ensures exists i :: 0 <= i < |items| && items[i].month == m {
      assert m in months;
      var k :| 0 <= k < |months| && months[k] == m;
      assert items[|months| - 1 - k].month == m;
    }
  }

  lemma AscendingIsSorted(months: seq<string>)
    requires Ascending(months)
    ensures Sorted(months)
  {
    forall i, j | 0 <= i < j < |months| ensures !TextLess(months[j], months[i]) {
      if TextLess(months[j], months[i]) {
        TextLessIsTransitive(months[i], months[j], months[i]);
        TextLessIsIrreflexive(months[i]);
        assert false;
      }
    }
  }

  /** What one range over all the months yields for each of them. */
  ghost predicate LoadedByMonth(actual: map<string, Amounts>, months: seq<string>, db: Database, zone: TimeZone)
    requires forall k :: 0 <= k < |months| ==> ValidMonth(months[k])
  {
    forall k :: 0 <= k < |months| ==>
      MonthOf(actual, months[k]) ==
      if FourDigitYear(End(months[|months| - 1], zone.midnight))
      then SpentDuring(db.transactions, months[k], zone) else map[]
  }

  lemma OneRangeForAllMonths(actual: map<string, Amounts>, months: seq<string>, db: Database, zone: TimeZone)
    requires zone.Valid() && Ascending(months) && months != []
    requires forall k :: 0 <= k < |months| ==> ValidMonth(months[k])
    requires
      var from, to := Start(months[0], zone.midnight), End(months[|months| - 1], zone.midnight);
      forall m :: MonthOf(actual, m) == OfMonth(Aggregated(Loaded(db.transactions, from, to), zone.periodOf), m)
    ensures LoadedByMonth(actual, months, db, zone)
  {
    var from, to := Start(months[0], zone.midnight), End(months[|months| - 1], zone.midnight);
    AscendingIsSorted(months);
    MidnightsIncrease(zone);
    MonthInUtc(months[0], zone);
    forall k | 0 <= k < |months|
      ensures MonthOf(actual, months[k]) ==
              if FourDigitYear(to) then SpentDuring(db.transactions, months[k], zone) else map[]
    {
      SortedRangeCovers(months, zone.midnight, k);
      RangeYieldsMonth(db.transactions, from, to, months[k], zone);
    }
  }

  lemma FirstToLast(months: seq<string>, m: string)
    requires forall k :: 0 <= k < |months| ==> ValidMonth(months[k])
    requires Ascending(months) && m in months && ValidMonth(m)
    ensures ValidMonth(months[0]) && ValidMonth(months[|months| - 1])
    ensures Ordinal(months[0]) <= Ordinal(m) <= Ordinal(months[|months| - 1])
  {
    TextOrderIsCalendarOrder(months[0], m);
    TextOrderIsCalendarOrder(m, months[|months| - 1]);
  }

  lemma FirstAndLast(months: seq<string>, all: set<string>)
    requires Ascending(months) && months != [] && |months| == |all|
    requires forall m :: m in months <==> m in all
    requires forall k :: 0 <= k < |months| ==> ValidMonth(months[k])
    ensures IsFirst(months[0], all) && IsLast(months[|months| - 1], all)
    ensures forall m :: IsFirst(m, all) ==> m == months[0]
    ensures forall m :: IsLast(m, all) ==> m == months[|months| - 1]
  {
    assert months[0] in months && months[|months| - 1] in months;
    forall m | m in all && ValidMonth(m) ensures Ordinal(months[0]) <= Ordinal(m) <= Ordinal(months[|months| - 1]) {
      FirstToLast(months, m);
    }
    forall m | IsFirst(m, all) ensures m == months[0] {
      SameOrdinal(m, months[0]);
    }
    forall m | IsLast(m, all) ensures m == months[|months| - 1] {
      SameOrdinal(m, months[|months| - 1]);
    }
  }

  /** The checks of the request itself. */
  method CheckRange(start: Option<string>, end: Option<string>) returns (e: Option<Error>)
    ensures e.Some? ==> forall db, zone :: Refused(db, zone, start, end, e.value)
    ensures e.None? ==> ProperRange(start, end)
  {
    if start.Some? && !ValidMonth(start.value) {
      return Some(InvalidStart);
    }
    if end.Some? && !ValidMonth(end.value) {
      return Some(InvalidEnd);
    }
    if start.Some? && end.Some? {
      TextOrderIsCalendarOrder(start.value, end.value);
      if !TextLess(start.value, end.value) {
        return Some(StartNotBeforeEnd);
      }
    }
    return None;
  }

  /** What is refused once the request itself has passed, in terms of the sorted list. */
  ghost predicate RefusedList(db: Database, zone: TimeZone, months: seq<string>, e: Error)
    requires forall k :: 0 <= k < |months| ==> ValidMonth(months[k])
  {
    if |months| > 120 then e == TooManyMonths(|months|)
    else if months == [] then false
    else if FarApart(months[0], months[|months| - 1]) then e == TooManyPeriods
    else Unreadable(db, zone, months[0], months[|months| - 1]) && e == UnreadableTime
  }

  lemma RefusedIff(db: Database, zone: TimeZone, start: Option<string>, end: Option<string>, months: seq<string>,
                   e: Error)
    requires ProperRange(start, end) && |months| == |AskedMonths(db.budgets, start, end)|
    requires forall m :: m in months <==> m in AskedMonths(db.budgets, start, end)
    requires Ascending(months) && forall k :: 0 <= k < |months| ==> ValidMonth(months[k])
    ensures Refused(db, zone, start, end, e) <==> RefusedList(db, zone, months, e)
  {
    if months != [] {
      FirstAndLast(months, AskedMonths(db.budgets, start, end));
    } else {
      assert AskedMonths(db.budgets, start, end) == {};
    }
  }

  lemma RefusedIsRefusedList(db: Database, zone: TimeZone, start: Option<string>, end: Option<string>,
                             months: seq<string>)
    requires ProperRange(start, end) && |months| == |AskedMonths(db.budgets, start, end)|
    requires forall m :: m in months <==> m in AskedMonths(db.budgets, start, end)
    requires Ascending(months) && forall k :: 0 <= k < |months| ==> ValidMonth(months[k])
    ensures forall e :: Refused(db, zone, start, end, e) <==> RefusedList(db, zone, months, e)
  {
    forall e ensures Refused(db, zone, start, end, e) <==> RefusedList(db, zone, months, e) {
      RefusedIff(db, zone, start, end, months, e);
    }
  }

  method BudgetReportHistory(db: Database, zone: TimeZone, start: Option<string>, end: Option<string>)
    returns (r: Result<seq<BudgetReport>>)
    requires db.Valid() && zone.Valid()
    ensures r.Err? ==> Refused(db, zone, start, end, r.error)
    ensures r.Ok? ==> forall e :: !Refused(db, zone, start, end, e)
    ensures r.Ok? ==> IsHistory(r.value, db, zone, start, end)
  {
    var refusal := CheckRange(start, end);
    if refusal.Some? {
      return Err(refusal.value);
    }
    var months := SortedMonths(MonthsInRange(db.budgets, start, end));
    assert forall k :: 0 <= k < |months| ==> months[k] in months;
    MonthsInRangeAreAsked(db, start, end);
    RefusedIsRefusedList(db, zone, start, end, months);
    r := ReportMonths(months, db, zone, start, end);
  }

  /** The rest of `budget_report_history`, from the sorted list on. */
  method ReportMonths(months: seq<string>, db: Database, zone: TimeZone,
                      ghost start: Option<string>, ghost end: Option<string>) returns (r: Result<seq<BudgetReport>>)
    requires zone.Valid() && Ascending(months)
    requires forall k :: 0 <= k < |months| ==> months[k] in db.budgets && ValidMonth(months[k])
    requires forall m :: m in months <==> m in MonthsInRange(db.budgets, start, end)
    ensures r.Err? ==> RefusedList(db, zone, months, r.error)
    ensures r.Ok? ==> forall e :: !RefusedList(db, zone, months, e)
    ensures r.Ok? ==> IsHistory(r.value, db, zone, start, end)
  {
    if |months| == 0 {
      NewestFirstIsHistory([], months, db, zone, start, end);
      return Ok([]);
    }
    if |months| > MAX_BUDGET_REPORT_HISTORY_MONTHS {
      return Err(TooManyMonths(|months|));
    }
    var first, last := months[0], months[|months| - 1];
    FirstToLast(months, first);
    PeriodsOfMonths(first, last, zone);
    var rows := SpendingRows(db.transactions, Start(first, zone.midnight), End(last, zone.midnight), true, zone);
    match rows {
      case PeriodsRefused => return Err(TooManyPeriods);
      case TimeUnreadable => return Err(UnreadableTime);
      case Rows(rows) =>
        var actual := ActualAmountsByMonthCategory(rows);
        var items := NewestFirst(months, m requires m in db.budgets => ReportIn(m, db, actual));
        AssembledIsHistory(items, months, db, zone, start, end, actual);
        return Ok(items);
    }
  }

  /** `months.into_iter().rev().map(report)`. */
  function NewestFirst<T>(months: seq<string>, report: string --> T): (items: seq<T>)
    requires forall k :: 0 <= k < |months| ==> report.requires(months[k])
    ensures |items| == |months|
    ensures forall k :: 0 <= k < |items| ==> items[k] == report(months[|months| - 1 - k])
  {
    seq(|months|, k requires 0 <= k < |months| => report(months[|months| - 1 - k]))
  }

  lemma ItemsAreReports(items: seq<BudgetReport>, months: seq<string>, db: Database, zone: TimeZone,
                        actual: map<string, Amounts>)
    requires forall k :: 0 <= k < |months| ==> months[k] in db.budgets && ValidMonth(months[k])
    requires LoadedByMonth(actual, months, db, zone) && |items| == |months|
    requires forall k :: 0 <= k < |items| ==> items[k] == ReportIn(months[|months| - 1 - k], db, actual)
    ensures forall k :: 0 <= k < |items| ==>
              items[k] == ShownReport(months[|months| - 1 - k], months[|months| - 1], db, zone)
  {
    forall k | 0 <= k < |items|
      ensures items[k] == ShownReport(months[|months| - 1 - k], months[|months| - 1], db, zone)
    {
      var m := months[|months| - 1 - k];
      assert MonthOf(actual, m) == if FourDigitYear(End(months[|months| - 1], zone.midnight))
                                   then SpentDuring(db.transactions, m, zone) else map[];
    }
  }

  lemma AssembledIsHistory(items: seq<BudgetReport>, months: seq<string>, db: Database, zone: TimeZone,
                           start: Option<string>, end: Option<string>, actual: map<string, Amounts>)
    requires zone.Valid() && Ascending(months) && months != [] && |items| == |months|
    requires forall k :: 0 <= k < |months| ==> months[k] in db.budgets && ValidMonth(months[k])
    requires forall m :: m in months <==> m in MonthsInRange(db.budgets, start, end)
    requires
      var from, to := Start(months[0], zone.midnight), End(months[|months| - 1], zone.midnight);
      forall m :: MonthOf(actual, m) == OfMonth(Aggregated(Loaded(db.transactions, from, to), zone.periodOf), m)
    requires forall k :: 0 <= k < |items| ==> items[k] == ReportIn(months[|months| - 1 - k], db, actual)
    ensures IsHistory(items, db, zone, start, end)
  {
    OneRangeForAllMonths(actual, months, db, zone);
    ItemsAreReports(items, months, db, zone, actual);
    NewestFirstIsHistory(items, months, db, zone, start, end);
  }

  // ----- The report of a single month

  /** The budgets that the text range from the month to its end holds for it. */
  function MonthBudgets(budgets: Budgets, m: string): Entries
    requires ValidMonth(m)
  {
    if m in budgets && InRange(m, Some(m), Some(EndMonth(m))) then budgets[m] else map[]
  }

  function MonthReport(m: string, db: Database, zone: TimeZone): BudgetReport
    requires ValidMonth(m)
  {
    AssembleReport(m, db.groups, MonthBudgets(db.budgets, m), MonthAmounts(db.transactions, m, zone))
  }

  method ReportForMonth(m: string, db: Database, zone: TimeZone) returns (r: Result<BudgetReport>)
    ensures r == if !ValidMonth(m) then Err(InvalidMonth)
                 else if Unreadable(db, zone, m, m) then Err(UnreadableTime)
                 else Ok(MonthReport(m, db, zone))
  {
    if !ValidMonth(m) {
      return Err(InvalidMonth);
    }
    var rows := SpendingRows(db.transactions, Start(m, zone.midnight), End(m, zone.midnight), false, zone);
    if rows == TimeUnreadable {
      return Err(UnreadableTime);
    }
    var actual := ActualAmountsByMonthCategory(rows.rows);
    return Ok(AssembleReport(m, db.groups, MonthBudgets(db.budgets, m), MonthOf(actual, m)));
  }

  lemma MonthBudgetsAreLoaded(budgets: Budgets, m: string)
    requires ValidMonth(m)
    ensures MonthBudgets(budgets, m) == if m in budgets && m != LAST_MONTH then budgets[m] else map[]
  {
    OrdinalRange(m);
    LastOrdinal(m);
    if m == LAST_MONTH {
      LastRangeIsEmpty(m, m);
    } else {
      RangeHoldsItsMonthOnly(m, m);
    }
  }

  // ----- When both reports agree

  /** The reports differ at most in what was loaded. */
  lemma ShownIsMonthReport(m: string, last: string, db: Database, zone: TimeZone)
    requires zone.Valid() && ValidMonth(m) && ValidMonth(last) && Ordinal(m) <= Ordinal(last) && m in db.budgets
    requires FourDigitYear(End(last, zone.midnight)) && m != LAST_MONTH
    ensures ShownReport(m, last, db, zone) == MonthReport(m, db, zone)
  {
    MonthBudgetsAreLoaded(db.budgets, m);
    MonthInUtc(m, zone);
    OwnRangeYieldsMonth(db.transactions, m, zone);
  }

  /** The history shows for each month the report that the month's own request yields. */
  lemma HistoryShowsMonthReports(items: seq<BudgetReport>, db: Database, zone: TimeZone,
                                 start: Option<string>, end: Option<string>, i: nat)
    requires zone.Valid() && IsHistory(items, db, zone, start, end) && i < |items|
    requires FourDigitYear(End(items[0].month, zone.midnight)) && items[i].month != LAST_MONTH
    ensures items[i] == MonthReport(items[i].month, db, zone)
  {
    if i > 0 {
      TextOrderIsCalendarOrder(items[i].month, items[0].month);
    }
    ShownIsMonthReport(items[i].month, items[0].month, db, zone);
  }

  /** One cent, budgeted or spent. */
  const RENT := [CategoryGroup("Home", Expense, [Category(1, "Rent")])]
  const CENT: Entries := map[1 := BudgetEntry(1, 1)]
  const CENT_SPENT: Amounts := map[1 := 1]

  lemma OneCent()
    ensures AllBudgeted(RENT, Expense, CENT) == 1 && AllBudgeted(RENT, Expense, map[]) == 0
    ensures AllActual(RENT, Expense, CENT_SPENT) == 1 && AllActual(RENT, Expense, map[]) == 0
  {
    var rent := [Category(1, "Rent")];
    assert RENT[..0] == [] && rent[..0] == [];
    assert ExactBudgeted(rent, CENT) == 1 && ExactBudgeted(rent, map[]) == 0;
    assert ExactActual(rent, CENT_SPENT) == 1 && ExactActual(rent, map[]) == 0;
  }

  lemma BudgetedCentShows(m: string, actual: Amounts, other: Amounts)
    ensures AssembleReport(m, RENT, CENT, actual).expensesBudgeted == 1
    ensures AssembleReport(m, RENT, map[], other).expensesBudgeted == 0
  {
    ReportLosesNothing(m, RENT, CENT, actual);
    ReportLosesNothing(m, RENT, map[], other);
    OneCent();
  }

  lemma SpentCentShows(m: string, budgeted: Entries, other: Entries)
    ensures AssembleReport(m, RENT, budgeted, CENT_SPENT).expensesActual == 1
    ensures AssembleReport(m, RENT, other, map[]).expensesActual == 0
  {
    ReportLosesNothing(m, RENT, budgeted, CENT_SPENT);
    ReportLosesNothing(m, RENT, other, map[]);
    OneCent();
  }

  /** A database that budgets exactly these months and whose times can all be read back. */
  ghost predicate Lists(db: Database, months: seq<string>) {
    db.Valid() && !OutsideFourDigits(db.transactions) && forall m :: m in db.budgets <==> m in months
  }

  /** A cent is spent on the second day of the month, which is in that month in every time zone. */
  function CentInMonth(months: seq<string>, m: string): Database
    requires ValidMonth(m)
  {
    Database(map x | x in months :: CENT, RENT, [Transaction(Ordinal(m) * MONTH + DAY, (1, Expense), 1)])
  }

  lemma CentIsListed(months: seq<string>, m: string)
    requires ValidMonth(m) && forall k :: 0 <= k < |months| ==> ValidMonth(months[k])
    ensures Lists(CentInMonth(months, m), months)
  {
    OrdinalRange(m);
    assert UtcMonth(Ordinal(m) * MONTH + DAY) == Ordinal(m);
  }

  lemma CentAggregates(t: Transaction, periodOf: int -> string)
    requires t.category == (1, Expense) && t.amount == 1
    ensures OfMonth(Aggregated([t], periodOf), periodOf(t.datetime)) == CENT_SPENT
  {
    var row := SpendingRow(periodOf(t.datetime), Some((1, Expense)), 1);
    assert [t][..0] == [] && [row][..0] == [];
    WrapFits(1);
    assert Aggregated([t], periodOf) == [row];
  }

  lemma SecondDayIsInMonth(n: int, zone: TimeZone)
    requires zone.Valid()
    ensures zone.midnight(n) <= n * MONTH + DAY < zone.midnight(n + 1)
  {
    assert zone.midnight(n) < n * MONTH + DAY && (n + 1) * MONTH - 4 * DAY <= zone.midnight(n + 1);
  }

  lemma DuringOfOne(t: Transaction, from: int, to: int)
    requires from <= t.datetime < to
    ensures During([t], from, to) == [t]
  {
    assert [t][..0] == [];
  }

  lemma CentIsSpent(months: seq<string>, m: string, zone: TimeZone)
    requires zone.Valid() && ValidMonth(m)
    ensures SpentDuring(CentInMonth(months, m).transactions, m, zone) == CENT_SPENT
  {
    var t := Transaction(Ordinal(m) * MONTH + DAY, (1, Expense), 1);
    SecondDayIsInMonth(Ordinal(m), zone);
    PeriodsAreMonths(t.datetime, m, zone);
    DuringOfOne(t, Start(m, zone.midnight), End(m, zone.midnight));
    CentAggregates(t, zone.periodOf);
  }

  /** With a last end after year 9999, the history shows nothing spent in any month. */
  lemma LateHistoryIsEmpty(months: seq<string>, m: string, last: string, zone: TimeZone)
    requires zone.Valid() && ValidMonth(m) && ValidMonth(last) && m in months
    requires forall k :: 0 <= k < |months| ==> ValidMonth(months[k])
    requires !FourDigitYear(End(last, zone.midnight)) && m != LAST_MONTH
    ensures var db := CentInMonth(months, m);
            && Lists(db, months)
            && ShownReport(m, last, db, zone).expensesActual == 0
            && MonthReport(m, db, zone).expensesActual == 1
  {
    var db := CentInMonth(months, m);
    CentIsListed(months, m);
    CentIsSpent(months, m, zone);
    MonthInUtc(m, zone);
    OwnRangeYieldsMonth(db.transactions, m, zone);
    SpentCentShows(m, MonthBudgets(db.budgets, m), db.budgets[m]);
  }

  /** The budgets of the last month are in the history and not in the month's own report. */
  lemma LastBudgetsAreMissing(months: seq<string>, last: string, zone: TimeZone)
    requires zone.Valid() && ValidMonth(LAST_MONTH) && ValidMonth(last) && LAST_MONTH in months
    requires forall k :: 0 <= k < |months| ==> ValidMonth(months[k])
    ensures var db := CentInMonth(months, LAST_MONTH);
            && Lists(db, months)
            && ShownReport(LAST_MONTH, last, db, zone).expensesBudgeted == 1
            && MonthReport(LAST_MONTH, db, zone).expensesBudgeted == 0
  {
    var db := CentInMonth(months, LAST_MONTH);
    CentIsListed(months, LAST_MONTH);
    CentIsSpent(months, LAST_MONTH, zone);
    MonthBudgetsAreLoaded(db.budgets, LAST_MONTH);
    var shown := if FourDigitYear(End(last, zone.midnight)) then CENT_SPENT else map[];
    BudgetedCentShows(LAST_MONTH, shown, MonthAmounts(db.transactions, LAST_MONTH, zone));
  }

  /** In a history of these months, the month's report is its own report, whatever the database holds. */
  ghost predicate AlwaysAgree(m: string, months: seq<string>, zone: TimeZone)
    requires m in months && forall k :: 0 <= k < |months| ==> ValidMonth(months[k])
  {
    forall db: Database :: Lists(db, months) ==>
      ShownReport(m, months[|months| - 1], db, zone) == MonthReport(m, db, zone)
  }

  /** For which listed months, time zones and last months it is. */
  lemma ReportsAgreeIff(m: string, months: seq<string>, zone: TimeZone)
    requires zone.Valid() && Ascending(months) && m in months
    requires forall k :: 0 <= k < |months| ==> ValidMonth(months[k])
    ensures AlwaysAgree(m, months, zone) <==>
            FourDigitYear(End(months[|months| - 1], zone.midnight)) && m != LAST_MONTH
  {
    var last := months[|months| - 1];
    if m == LAST_MONTH {
      LastBudgetsAreMissing(months, last, zone);
    } else if !FourDigitYear(End(last, zone.midnight)) {
      LateHistoryIsEmpty(months, m, last, zone);
    } else {
      FirstToLast(months, m);
      forall db: Database | Lists(db, months) ensures ShownReport(m, last, db, zone) == MonthReport(m, db, zone) {
        ShownIsMonthReport(m, last, db, zone);
      }
    }
  }

  /** A history agrees in all its months with their own reports if and only if 9999-12 is not among them. */
  lemma HistoryAgreesIff(months: seq<string>, zone: TimeZone)
    requires zone.Valid() && Ascending(months) && months != []
    requires forall k :: 0 <= k < |months| ==> ValidMonth(months[k])
    ensures (forall m :: m in months ==> AlwaysAgree(m, months, zone)) <==> LAST_MONTH !in months
  {
    forall m | m in months
      ensures AlwaysAgree(m, months, zone) <==>
              FourDigitYear(End(months[|months| - 1], zone.midnight)) && m != LAST_MONTH
    {
      ReportsAgreeIff(m, months, zone);
    }
    MonthInUtc(months[|months| - 1], zone);
    assert months[|months| - 1] in months;
  }

  const UTC := TimeZone(n => n * MONTH, t => t / MONTH, t => Format(t / MONTH))

  lemma UtcIsValid()
    ensures UTC.Valid()
  {
    forall t, n ensures UTC.monthAt(t) == n <==> UTC.InMonth(t, n) {
    }
  }

  /** In UTC, a history of the last two months shows nothing for the first of them, whose own report shows a cent. */
  lemma LastTwoMonthsDisagree()
    ensures var months := ["9999-11", "9999-12"];
            && ValidMonth(months[0]) && ValidMonth(months[1])
            && (var db := CentInMonth(months, months[0]);
                && Lists(db, months)
                && ShownReport(months[0], months[1], db, UTC).expensesActual == 0
                && MonthReport(months[0], db, UTC).expensesActual == 1)
  {
    var months := ["9999-11", "9999-12"];
    UtcIsValid();
    ValidShape(months[0]);
    ValidShape(months[1]);
    LastOrdinal(months[1]);
    assert Ordinal(months[1]) == 119_999 && End(months[1], UTC.midnight) == 120_000 * MONTH;
    LateHistoryIsEmpty(months, months[0], months[1], UTC);
  }

  /**
    In calendar terms: newest first, and exactly the budgeted months from `start` on, if it is given, up to
    but not including `end`, if that is given.
   */
  lemma HistoryIsCalendarRange(items: seq<BudgetReport>, db: Database, zone: TimeZone, start: Option<string>,
                               end: Option<string>, m: string)
    requires IsHistory(items, db, zone, start, end) && ProperRange(start, end)
    requires m in db.budgets && ValidMonth(m)
    ensures forall i, j :: 0 <= i < j < |items| ==>
              && ValidMonth(items[i].month) && ValidMonth(items[j].month)
              && Ordinal(items[j].month) < Ordinal(items[i].month)
    ensures (exists i :: 0 <= i < |items| && items[i].month == m) <==>
            && (start.None? || Ordinal(start.value) <= Ordinal(m))
            && (end.None? || Ordinal(m) < Ordinal(end.value))
  {
    forall i, j | 0 <= i < j < |items|
      ensures ValidMonth(items[i].month) && ValidMonth(items[j].month)
      ensures Ordinal(items[j].month) < Ordinal(items[i].month)
    {
      TextOrderIsCalendarOrder(items[j].month, items[i].month);
    }
    InRangeIsAsked(m, start, end);
  }
}
