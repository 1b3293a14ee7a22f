/**
  The spending rows behind a budget report: the fold that builds the actual amounts by month and
  category, and what the report's totals mean in terms of the rows.
 */
module Spending {
  import opened Decimal
  import opened Schema
  import opened Budget

  /** The category's id and kind, if the row has a category. */
  datatype SpendingRow = SpendingRow(periodLabel: string, category: Option<(int, CategoryKind)>, totalAmount: I64)

  /** Income is stored as negative spending. */
  function Amount(row: SpendingRow): I64
    requires row.category.Some?
  {
    if row.category.value.1 == Income then Neg(row.totalAmount) else row.totalAmount
  }

  /** What the fold knows about one month. */
  function OfMonth(rows: seq<SpendingRow>, month: string): Amounts {
    if rows == [] then map[]
    else
      var before, row := OfMonth(rows[..|rows| - 1], month), rows[|rows| - 1];
      if row.category.Some? && row.periodLabel == month then before[row.category.value.0 := Amount(row)] else before
  }

  function MonthOf(byMonth: map<string, Amounts>, month: string): Amounts {
    if month in byMonth then byMonth[month] else map[]
  }

  method ActualAmountsByMonthCategory(rows: seq<SpendingRow>) returns (byMonth: map<string, Amounts>)
    ensures forall month :: MonthOf(byMonth, month) == OfMonth(rows, month)
    ensures forall month :: month in byMonth <==>
              exists i :: 0 <= i < |rows| && rows[i].category.Some? && rows[i].periodLabel == month
  {
    byMonth := map[];
    for i := 0 to |rows|
      invariant forall month :: MonthOf(byMonth, month) == OfMonth(rows[..i], month)
      invariant forall month :: month in byMonth <==>
                  exists j :: 0 <= j < i && rows[j].category.Some? && rows[j].periodLabel == month
    {
      assert rows[..i + 1][..i] == rows[..i];
      var row := rows[i];
      if row.category.Some? {
        var ofMonth := if row.periodLabel in byMonth then byMonth[row.periodLabel] else map[];
        byMonth := byMonth[row.periodLabel := ofMonth[row.category.value.0 := Amount(row)]];
      }
    }
    assert rows[..|rows|] == rows;
  }

  /** The store groups by month and category, so no two rows are about the same pair. */
  ghost predicate OneRowEach(rows: seq<SpendingRow>) {
    forall i, j :: 0 <= i < j < |rows| && rows[i].category.Some? && rows[j].category.Some? ==>
      rows[i].periodLabel != rows[j].periodLabel || rows[i].category.value.0 != rows[j].category.value.0
  }

  /** The exact sum of a month's rows whose category is in the set. */
  ghost function RowTotal(rows: seq<SpendingRow>, month: string, ids: set<int>): int {
    if rows == [] then 0
    else
      var row := rows[|rows| - 1];
      RowTotal(rows[..|rows| - 1], month, ids) +
      if row.category.Some? && row.periodLabel == month && row.category.value.0 in ids then Amount(row) else 0
  }

  ghost function CategoriesOf(groups: seq<CategoryGroup>, kind: CategoryKind): seq<Category> {
    if groups == [] then []
    else
      CategoriesOf(groups[..|groups| - 1], kind) +
      if groups[|groups| - 1].kind == kind then groups[|groups| - 1].categories else []
  }

  ghost function Ids(categories: seq<Category>): set<int> {
    set i | 0 <= i < |categories| :: categories[i].id
  }

  ghost predicate DistinctIds(categories: seq<Category>) {
    forall i, j :: 0 <= i < j < |categories| ==> categories[i].id != categories[j].id
  }

  lemma {:induction false} ExactActualConcat(a: seq<Category>, b: seq<Category>, actual: Amounts)
    ensures ExactActual(a + b, actual) == ExactActual(a, actual) + ExactActual(b, actual)
  {
    if b == [] {
      assert a + b == a;
    } else {
      ExactActualConcat(a, b[..|b| - 1], actual);
      assert (a + b)[..|a + b| - 1] == a + b[..|b| - 1];
    }
  }

  lemma {:induction false} AllActualFlat(groups: seq<CategoryGroup>, kind: CategoryKind, actual: Amounts)
    ensures AllActual(groups, kind, actual) == ExactActual(CategoriesOf(groups, kind), actual)
  {
    if groups != [] {
      var init, last := groups[..|groups| - 1], groups[|groups| - 1];
      AllActualFlat(init, kind, actual);
      ExactActualConcat(CategoriesOf(init, kind), if last.kind == kind then last.categories else [], actual);
    }
  }

  lemma {:induction false} NewAmount(categories: seq<Category>, actual: Amounts, id: int, x: I64)
    requires DistinctIds(categories) && id !in actual
    ensures ExactActual(categories, actual[id := x]) ==
            ExactActual(categories, actual) + if id in Ids(categories) then x else 0
  {
    if categories != [] {
      var init, last := categories[..|categories| - 1], categories[|categories| - 1];
      NewAmount(init, actual, id, x);
      assert id in Ids(categories) <==> id in Ids(init) || id == last.id by {
        if i :| 0 <= i < |categories| && categories[i].id == id {
          assert i < |init| ==> init[i] == categories[i];
        }
        if i :| 0 <= i < |init| && init[i].id == id {
          assert categories[i].id == id;
        }
        assert categories[|categories| - 1].id == last.id;
      }
      if id in Ids(init) {
        var i :| 0 <= i < |init| && init[i].id == id;
        assert categories[i].id != last.id;
      }
    }
  }

  ghost predicate IsAbout(row: SpendingRow, month: string, id: int) {
    row.category.Some? && row.periodLabel == month && row.category.value.0 == id
  }

  ghost predicate IsLatest(rows: seq<SpendingRow>, month: string, id: int, i: nat) {
    && i < |rows| && IsAbout(rows[i], month, id)
    && forall j :: i < j < |rows| ==> !IsAbout(rows[j], month, id)
  }

  /** Income is stored as negative spending. */
  ghost function AmountOf(row: SpendingRow): int
    requires row.category.Some?
  {
    var stored: int := row.totalAmount;
    if row.category.value.1 == Income then Wrap(-stored) else stored
  }

  /** A category's amount is that of the latest row about it, with its sign turned for income. */
  lemma {:induction false} LatestRowCounts(rows: seq<SpendingRow>, month: string, id: int)
    ensures id in OfMonth(rows, month) <==> exists i: nat :: IsLatest(rows, month, id, i)
    ensures forall i: nat :: IsLatest(rows, month, id, i) && id in OfMonth(rows, month) ==>
              OfMonth(rows, month)[id] == AmountOf(rows[i])
  {
    if rows != [] {
      var last := |rows| - 1;
      var init := rows[..last];
      LatestRowCounts(init, month, id);
      if IsAbout(rows[last], month, id) {
        assert IsLatest(rows, month, id, last);
        assert forall i: nat :: IsLatest(rows, month, id, i) ==> i == last;
      } else {
        assert forall i: nat :: IsLatest(rows, month, id, i) <==> IsLatest(init, month, id, i);
      }
    }
  }

  lemma {:induction false} CategoryTotalIsRowTotal(rows: seq<SpendingRow>, month: string, categories: seq<Category>)
    requires OneRowEach(rows) && DistinctIds(categories)
    ensures ExactActual(categories, OfMonth(rows, month)) == RowTotal(rows, month, Ids(categories))
  {
    if rows == [] {
      NothingSpent(categories);
    } else {
      var init, row := rows[..|rows| - 1], rows[|rows| - 1];
      CategoryTotalIsRowTotal(init, month, categories);
      if row.category.Some? && row.periodLabel == month {
        var id := row.category.value.0;
        assert forall i :: 0 <= i < |init| ==> init[i] == rows[i];
        if id in OfMonth(init, month) {
          LatestRowCounts(init, month, id);
          assert false;
        }
        NewAmount(categories, OfMonth(init, month), id, Amount(row));
      }
    }
  }

  lemma {:induction false} NothingSpent(categories: seq<Category>)
    ensures ExactActual(categories, map[]) == 0
  {
    if categories != [] {
      NothingSpent(categories[..|categories| - 1]);
    }
  }

  /**
    From rows to report: the month's actual totals are the sums of its rows, income with its sign
    turned, over the categories of each kind; nothing is lost or counted twice.
   */
  lemma ReportTotalsAreRowTotals(rows: seq<SpendingRow>, month: string, groups: seq<CategoryGroup>,
                                 budgeted: Entries)
    requires OneRowEach(rows)
    requires DistinctIds(CategoriesOf(groups, Income)) && DistinctIds(CategoriesOf(groups, Expense))
    ensures var r := AssembleReport(month, groups, budgeted, OfMonth(rows, month));
            && r.incomeActual == Wrap(RowTotal(rows, month, Ids(CategoriesOf(groups, Income))))
            && r.expensesActual == Wrap(RowTotal(rows, month, Ids(CategoriesOf(groups, Expense))))
  {
    var actual := OfMonth(rows, month);
    ReportLosesNothing(month, groups, budgeted, actual);
    AllActualFlat(groups, Income, actual);
    AllActualFlat(groups, Expense, actual);
    CategoryTotalIsRowTotal(rows, month, CategoriesOf(groups, Income));
    CategoryTotalIsRowTotal(rows, month, CategoriesOf(groups, Expense));
  }

  /** The rows' amounts as they are stored, where spending is positive and income negative. */
  ghost function StoredTotal(rows: seq<SpendingRow>, month: string, ids: set<int>): int {
    if rows == [] then 0
    else
      var row := rows[|rows| - 1];
      StoredTotal(rows[..|rows| - 1], month, ids) +
      if row.category.Some? && row.periodLabel == month && row.category.value.0 in ids then row.totalAmount else 0
  }

  /** Rows about these categories carry the kind of the group that lists them. */
  ghost predicate KindMatches(rows: seq<SpendingRow>, ids: set<int>, income: bool) {
    forall i :: 0 <= i < |rows| && rows[i].category.Some? && rows[i].category.value.0 in ids ==>
      (rows[i].category.value.1 == Income <==> income)
  }

  lemma {:induction false} RowTotalIsStoredTotal(rows: seq<SpendingRow>, month: string, ids: set<int>, income: bool)
    requires KindMatches(rows, ids, income)
    ensures Wrap(RowTotal(rows, month, ids)) ==
            Wrap(if income then -StoredTotal(rows, month, ids) else StoredTotal(rows, month, ids))
  {
    if rows != [] {
      var init, row := rows[..|rows| - 1], rows[|rows| - 1];
      assert KindMatches(init, ids, income);
      RowTotalIsStoredTotal(init, month, ids, income);
      var before := if income then -StoredTotal(init, month, ids) else StoredTotal(init, month, ids);
      if row.category.Some? && row.periodLabel == month && row.category.value.0 in ids {
        var signed := if income then 0 - row.totalAmount as int else row.totalAmount as int;
        assert Amount(row) == Wrap(signed) by {
          WrapFits(row.totalAmount);
        }
        WrapFits(Amount(row));
        WrapAdd(RowTotal(init, month, ids), Amount(row));
        WrapAdd(before, signed);
      }
    }
  }

  /** In terms of the stored rows: the expenses are their sum, the income is its negation. */
  lemma ReportTotalsAreStoredTotals(rows: seq<SpendingRow>, month: string, groups: seq<CategoryGroup>,
                                    budgeted: Entries)
    requires OneRowEach(rows)
    requires DistinctIds(CategoriesOf(groups, Income)) && DistinctIds(CategoriesOf(groups, Expense))
    requires KindMatches(rows, Ids(CategoriesOf(groups, Income)), true)
    requires KindMatches(rows, Ids(CategoriesOf(groups, Expense)), false)
    ensures var r := AssembleReport(month, groups, budgeted, OfMonth(rows, month));
            && r.incomeActual == Wrap(-StoredTotal(rows, month, Ids(CategoriesOf(groups, Income))))
            && r.expensesActual == Wrap(StoredTotal(rows, month, Ids(CategoriesOf(groups, Expense))))
  {
    ReportTotalsAreRowTotals(rows, month, groups, budgeted);
    RowTotalIsStoredTotal(rows, month, Ids(CategoriesOf(groups, Income)), true);
    RowTotalIsStoredTotal(rows, month, Ids(CategoriesOf(groups, Expense)), false);
  }
}
