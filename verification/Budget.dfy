/**
  The budget report: category lines rolled up into sections and totals. Amounts are `i64` cents whose
  sums wrap around, as they do in the release build, where overflow is not checked.
 */
module Budget {
  import opened Decimal
  import opened Schema

  const MODULUS := 0x1_0000_0000_0000_0000

  /** Two's complement. */
  function Wrap(n: int): I64 {
    var m := n % MODULUS;
    if m > I64_MAX then m - MODULUS else m
  }

  function Add(a: I64, b: I64): I64 {
    Wrap(a as int + b as int)
  }

  function Sub(a: I64, b: I64): I64 {
    Wrap(a as int - b as int)
  }

  function Neg(a: I64): I64 {
    Wrap(0 - a as int)
  }

  function Sum(amounts: seq<I64>): I64 {
    if amounts == [] then 0 else Add(Sum(amounts[..|amounts| - 1]), amounts[|amounts| - 1])
  }

  datatype Category = Category(id: int, name: string)
  datatype CategoryGroup = CategoryGroup(name: string, kind: CategoryKind, categories: seq<Category>)

  /** An id of zero marks an absent entry. */
  datatype BudgetEntry = BudgetEntry(id: int, amount: I64)

  datatype BudgetLine = BudgetLine(id: Option<int>, category: Category, budgeted: I64, actual: I64, remaining: I64)

  datatype BudgetSection = BudgetSection(
    title: string, group: CategoryGroup, budgeted: I64, actual: I64, remaining: I64, lines: seq<BudgetLine>)

  datatype BudgetReport = BudgetReport(
    month: string,
    expensesBudgeted: I64, expensesActual: I64, incomeBudgeted: I64, incomeActual: I64,
    remainingBudgeted: I64, remainingActual: I64,
    sections: seq<BudgetSection>)

  /** By category id: the budgets of a month, and its actual amounts. */
  type Entries = map<int, BudgetEntry>
  type Amounts = map<int, I64>

  function EntryOf(budgeted: Entries, id: int): BudgetEntry {
    if id in budgeted then budgeted[id] else BudgetEntry(0, 0)
  }

  function ActualOf(actual: Amounts, id: int): I64 {
    if id in actual then actual[id] else 0
  }

  function LineOf(c: Category, budgeted: Entries, actual: Amounts): BudgetLine {
    var entry, spent := EntryOf(budgeted, c.id), ActualOf(actual, c.id);
    BudgetLine(if entry.id != 0 then Some(entry.id) else None, c, entry.amount, spent, Sub(entry.amount, spent))
  }

  /** What is budgeted for a category, and what was spent on it; nothing, if it has no entry. */
  ghost function BudgetFor(budgeted: Entries, id: int): I64 {
    if id in budgeted then budgeted[id].amount else 0
  }

  ghost function SpentOn(actual: Amounts, id: int): I64 {
    if id in actual then actual[id] else 0
  }

  ghost predicate HasFigures(c: Category, budgeted: Entries, actual: Amounts) {
    BudgetFor(budgeted, c.id) != 0 || SpentOn(actual, c.id) != 0
  }

  /** Categories with neither a budget nor any spending get no line. */
  function Lines(categories: seq<Category>, budgeted: Entries, actual: Amounts): seq<BudgetLine> {
    if categories == [] then []
    else
      var before := Lines(categories[..|categories| - 1], budgeted, actual);
      var line := LineOf(categories[|categories| - 1], budgeted, actual);
      if line.budgeted != 0 || line.actual != 0 then before + [line] else before
  }

  function BudgetedAmounts(lines: seq<BudgetLine>): (a: seq<I64>)
    ensures |a| == |lines|
  {
    seq(|lines|, i requires 0 <= i < |lines| => lines[i].budgeted)
  }

  function ActualAmounts(lines: seq<BudgetLine>): (a: seq<I64>)
    ensures |a| == |lines|
  {
    seq(|lines|, i requires 0 <= i < |lines| => lines[i].actual)
  }

  function SectionOf(group: CategoryGroup, budgeted: Entries, actual: Amounts): Option<BudgetSection> {
    var lines := Lines(group.categories, budgeted, actual);
    var total, spent := Sum(BudgetedAmounts(lines)), Sum(ActualAmounts(lines));
    if lines != [] || total != 0
    then Some(BudgetSection(group.name, group, total, spent, Sub(total, spent), lines))
    else None
  }

  function Sections(groups: seq<CategoryGroup>, budgeted: Entries, actual: Amounts): seq<BudgetSection> {
    if groups == [] then []
    else
      var before := Sections(groups[..|groups| - 1], budgeted, actual);
      var group := groups[|groups| - 1];
      if group.kind == Transfer then before
      else
        match SectionOf(group, budgeted, actual)
        case Some(section) => before + [section]
        case None => before
  }

  datatype Totals = Totals(incomeBudgeted: I64, incomeActual: I64, expensesBudgeted: I64, expensesActual: I64)

  function AddSection(t: Totals, section: BudgetSection): Totals {
    match section.group.kind
    case Income => t.(incomeBudgeted := Add(t.incomeBudgeted, section.budgeted),
                      incomeActual := Add(t.incomeActual, section.actual))
    case Expense => t.(expensesBudgeted := Add(t.expensesBudgeted, section.budgeted),
                       expensesActual := Add(t.expensesActual, section.actual))
    case Transfer => t
  }

  function TotalsOf(sections: seq<BudgetSection>): Totals {
    if sections == [] then Totals(0, 0, 0, 0)
    else AddSection(TotalsOf(sections[..|sections| - 1]), sections[|sections| - 1])
  }

  function AssembleReport(month: string, groups: seq<CategoryGroup>, budgeted: Entries,
                          actual: Amounts): BudgetReport {
    var sections := Sections(groups, budgeted, actual);
    var t := TotalsOf(sections);
    BudgetReport(month, t.expensesBudgeted, t.expensesActual, t.incomeBudgeted, t.incomeActual,
                 Sub(t.incomeBudgeted, t.expensesBudgeted), Sub(t.incomeActual, t.expensesActual), sections)
  }

  // ----- The exact sums that the report stands for

  ghost function ExactBudgeted(categories: seq<Category>, budgeted: Entries): int {
    if categories == [] then 0
    else ExactBudgeted(categories[..|categories| - 1], budgeted) +
         BudgetFor(budgeted, categories[|categories| - 1].id)
  }

  ghost function ExactActual(categories: seq<Category>, actual: Amounts): int {
    if categories == [] then 0
    else ExactActual(categories[..|categories| - 1], actual) + SpentOn(actual, categories[|categories| - 1].id)
  }

  /** Over all categories of all groups of one kind. */
  ghost function AllBudgeted(groups: seq<CategoryGroup>, kind: CategoryKind, budgeted: Entries): int {
    if groups == [] then 0
    else
      var last := groups[|groups| - 1];
      AllBudgeted(groups[..|groups| - 1], kind, budgeted) +
      if last.kind == kind then ExactBudgeted(last.categories, budgeted) else 0
  }

  ghost function AllActual(groups: seq<CategoryGroup>, kind: CategoryKind, actual: Amounts): int {
    if groups == [] then 0
    else
      var last := groups[|groups| - 1];
      AllActual(groups[..|groups| - 1], kind, actual) +
      if last.kind == kind then ExactActual(last.categories, actual) else 0
  }

  lemma WrapIsModular(n: int, k: int)
    ensures Wrap(n + k * MODULUS) == Wrap(n)
  {
    assert (n + k * MODULUS) % MODULUS == n % MODULUS;
  }

  lemma WrapFits(n: int)
    requires FitsI64(n)
    ensures Wrap(n) == n
  {
  }

  lemma WrapWraps(n: int) returns (k: int)
    ensures Wrap(n) == n + k * MODULUS
  {
    k := if n % MODULUS > I64_MAX then -(n / MODULUS) - 1 else -(n / MODULUS);
  }

  lemma WrapAdd(a: int, b: int)
    ensures Wrap(Wrap(a) as int + Wrap(b) as int) == Wrap(a + b)
    ensures Wrap(Wrap(a) as int - Wrap(b) as int) == Wrap(a - b)
  {
    var i := WrapWraps(a);
    var j := WrapWraps(b);
    WrapIsModular(a + b, i + j);
    WrapIsModular(a - b, i - j);
  }

  lemma AddWrapped(n: int, x: I64)
    ensures Add(Wrap(n), x) == Wrap(n + x)
  {
    WrapFits(x);
    WrapAdd(n, x);
  }

  lemma SumOneMore(lines: seq<BudgetLine>, line: BudgetLine, exactBudgeted: int, exactActual: int)
    requires Sum(BudgetedAmounts(lines)) == Wrap(exactBudgeted) && Sum(ActualAmounts(lines)) == Wrap(exactActual)
    ensures Sum(BudgetedAmounts(lines + [line])) == Wrap(exactBudgeted + line.budgeted)
    ensures Sum(ActualAmounts(lines + [line])) == Wrap(exactActual + line.actual)
  {
    var b, a := BudgetedAmounts(lines + [line]), ActualAmounts(lines + [line]);
    assert b[..|lines|] == BudgetedAmounts(lines) && b[|lines|] == line.budgeted;
    assert a[..|lines|] == ActualAmounts(lines) && a[|lines|] == line.actual;
    AddWrapped(exactBudgeted, line.budgeted);
    AddWrapped(exactActual, line.actual);
  }

  ghost predicate SumsTo(lines: seq<BudgetLine>, exactBudgeted: int, exactActual: int) {
    Sum(BudgetedAmounts(lines)) == Wrap(exactBudgeted) && Sum(ActualAmounts(lines)) == Wrap(exactActual)
  }

  lemma SumsToOneMore(lines: seq<BudgetLine>, c: Category, budgeted: Entries, actual: Amounts,
                      exactBudgeted: int, exactActual: int)
    requires SumsTo(lines, exactBudgeted, exactActual)
    ensures SumsTo(lines + if HasFigures(c, budgeted, actual) then [LineOf(c, budgeted, actual)] else [],
                   exactBudgeted + BudgetFor(budgeted, c.id), exactActual + SpentOn(actual, c.id))
  {
    if HasFigures(c, budgeted, actual) {
      SumOneMore(lines, LineOf(c, budgeted, actual), exactBudgeted, exactActual);
    } else {
      assert lines + [] == lines;
    }
  }

  lemma LinesSnoc(categories: seq<Category>, budgeted: Entries, actual: Amounts)
    requires categories != []
    ensures var init, last := categories[..|categories| - 1], categories[|categories| - 1];
            Lines(categories, budgeted, actual) ==
            Lines(init, budgeted, actual) +
            if HasFigures(last, budgeted, actual) then [LineOf(last, budgeted, actual)] else []
  {
  }

  /** Dropping the lines that are zero on both sides changes neither sum. */
  lemma {:induction false} LinesLoseNothing(categories: seq<Category>, budgeted: Entries, actual: Amounts)
    ensures SumsTo(Lines(categories, budgeted, actual),
                   ExactBudgeted(categories, budgeted), ExactActual(categories, actual))
  {
    if categories != [] {
      var init, last := categories[..|categories| - 1], categories[|categories| - 1];
      LinesLoseNothing(init, budgeted, actual);
      LinesSnoc(categories, budgeted, actual);
      SumsToOneMore(Lines(init, budgeted, actual), last, budgeted, actual,
                    ExactBudgeted(init, budgeted), ExactActual(init, actual));
    }
  }

  /** A section without lines has nothing budgeted, so the second half of the filter never matters. */
  lemma EmptySectionsAreZero(group: CategoryGroup, budgeted: Entries, actual: Amounts)
    ensures SectionOf(group, budgeted, actual) == None <==> Lines(group.categories, budgeted, actual) == []
    ensures SectionOf(group, budgeted, actual) == None ==>
              Wrap(ExactBudgeted(group.categories, budgeted)) == 0 && Wrap(ExactActual(group.categories, actual)) == 0
  {
    LinesLoseNothing(group.categories, budgeted, actual);
  }

  ghost predicate Conserves(t: Totals, groups: seq<CategoryGroup>, budgeted: Entries, actual: Amounts) {
    && t.incomeBudgeted == Wrap(AllBudgeted(groups, Income, budgeted))
    && t.incomeActual == Wrap(AllActual(groups, Income, actual))
    && t.expensesBudgeted == Wrap(AllBudgeted(groups, Expense, budgeted))
    && t.expensesActual == Wrap(AllActual(groups, Expense, actual))
  }

  lemma AddWraps(a: int, b: int)
    ensures Add(Wrap(a), Wrap(b)) == Wrap(a + b)
  {
    WrapAdd(a, b);
  }

  lemma AllOneMore(groups: seq<CategoryGroup>, group: CategoryGroup, kind: CategoryKind,
                   budgeted: Entries, actual: Amounts)
    ensures AllBudgeted(groups + [group], kind, budgeted) ==
            AllBudgeted(groups, kind, budgeted) +
            if group.kind == kind then ExactBudgeted(group.categories, budgeted) else 0
    ensures AllActual(groups + [group], kind, actual) ==
            AllActual(groups, kind, actual) + if group.kind == kind then ExactActual(group.categories, actual) else 0
  {
    assert (groups + [group])[..|groups|] == groups;
  }

  /** Adding a section's figures, which a group without a section would have as zeros, keeps the totals right. */
  lemma AddSectionConserves(t: Totals, groups: seq<CategoryGroup>, section: BudgetSection,
                            budgeted: Entries, actual: Amounts)
    requires Conserves(t, groups, budgeted, actual)
    requires section.budgeted == Wrap(ExactBudgeted(section.group.categories, budgeted))
    requires section.actual == Wrap(ExactActual(section.group.categories, actual))
    ensures Conserves(AddSection(t, section), groups + [section.group], budgeted, actual)
  {
    var kind := section.group.kind;
    AllOneMore(groups, section.group, Income, budgeted, actual);
    AllOneMore(groups, section.group, Expense, budgeted, actual);
    AddWraps(AllBudgeted(groups, kind, budgeted), ExactBudgeted(section.group.categories, budgeted));
    AddWraps(AllActual(groups, kind, actual), ExactActual(section.group.categories, actual));
  }

  lemma AddZeroSection(t: Totals, section: BudgetSection)
    requires section.budgeted == 0 && section.actual == 0
    ensures AddSection(t, section) == t
  {
    WrapFits(t.incomeBudgeted);
    WrapFits(t.incomeActual);
    WrapFits(t.expensesBudgeted);
    WrapFits(t.expensesActual);
  }

  lemma {:induction false} SectionsLoseNothing(groups: seq<CategoryGroup>, budgeted: Entries, actual: Amounts)
    ensures Conserves(TotalsOf(Sections(groups, budgeted, actual)), groups, budgeted, actual)
  {
    if groups != [] {
      var init, group := groups[..|groups| - 1], groups[|groups| - 1];
      assert groups == init + [group];
      SectionsLoseNothing(init, budgeted, actual);
      var before := Sections(init, budgeted, actual);
      if group.kind != Transfer && SectionOf(group, budgeted, actual).Some? {
        var section := SectionOf(group, budgeted, actual).value;
        LinesLoseNothing(group.categories, budgeted, actual);
        AddSectionConserves(TotalsOf(before), init, section, budgeted, actual);
        assert (before + [section])[..|before|] == before;
      } else if group.kind != Transfer {
        EmptySectionsAreZero(group, budgeted, actual);
        var nothing := BudgetSection(group.name, group, 0, 0, 0, []);
        AddSectionConserves(TotalsOf(before), init, nothing, budgeted, actual);
        AddZeroSection(TotalsOf(before), nothing);
      } else {
        AllOneMore(init, group, Income, budgeted, actual);
        AllOneMore(init, group, Expense, budgeted, actual);
      }
    }
  }

  /**
    No cent is lost: each total is the sum over all categories of all groups of its kind, modulo the
    width of `i64`, whatever lines and sections were dropped on the way.
   */
  lemma ReportLosesNothing(month: string, groups: seq<CategoryGroup>, budgeted: Entries, actual: Amounts)
    ensures var r := AssembleReport(month, groups, budgeted, actual);
            && r.incomeBudgeted == Wrap(AllBudgeted(groups, Income, budgeted))
            && r.incomeActual == Wrap(AllActual(groups, Income, actual))
            && r.expensesBudgeted == Wrap(AllBudgeted(groups, Expense, budgeted))
            && r.expensesActual == Wrap(AllActual(groups, Expense, actual))
            && r.remainingBudgeted ==
               Wrap(AllBudgeted(groups, Income, budgeted) - AllBudgeted(groups, Expense, budgeted))
            && r.remainingActual == Wrap(AllActual(groups, Income, actual) - AllActual(groups, Expense, actual))
  {
    SectionsLoseNothing(groups, budgeted, actual);
    WrapAdd(AllBudgeted(groups, Income, budgeted), AllBudgeted(groups, Expense, budgeted));
    WrapAdd(AllActual(groups, Income, actual), AllActual(groups, Expense, actual));
  }

  ghost predicate LineAgrees(line: BudgetLine, c: Category, budgeted: Entries, actual: Amounts) {
    && line.category == c
    && (line.id.Some? <==> c.id in budgeted && budgeted[c.id].id != 0)
    && (line.id.Some? ==> line.id.value == budgeted[c.id].id)
    && line.budgeted == BudgetFor(budgeted, c.id)
    && line.actual == SpentOn(actual, c.id)
    && line.remaining == Wrap(line.budgeted as int - line.actual as int)
  }

  /** How many of the first `k` categories have figures. */
  ghost function LineRank(categories: seq<Category>, k: nat, budgeted: Entries, actual: Amounts): nat
    requires k <= |categories|
  {
    if k == 0 then 0
    else LineRank(categories, k - 1, budgeted, actual) +
         if HasFigures(categories[k - 1], budgeted, actual) then 1 else 0
  }

  /** One line for each category with figures, in the categories' order, and no other line. */
  ghost predicate Lists(lines: seq<BudgetLine>, categories: seq<Category>, budgeted: Entries,
                        actual: Amounts) {
    && |lines| == LineRank(categories, |categories|, budgeted, actual)
    && forall k :: 0 <= k < |categories| && HasFigures(categories[k], budgeted, actual) ==>
         var i := LineRank(categories, k, budgeted, actual);
         i < |lines| && LineAgrees(lines[i], categories[k], budgeted, actual)
  }

  lemma {:induction false} LineRankPrefix(categories: seq<Category>, more: seq<Category>, k: nat,
                                          budgeted: Entries, actual: Amounts)
    requires k <= |categories|
    ensures LineRank(categories + more, k, budgeted, actual) == LineRank(categories, k, budgeted, actual)
  {
    if k > 0 {
      LineRankPrefix(categories, more, k - 1, budgeted, actual);
    }
  }

  lemma ListOneMore(lines: seq<BudgetLine>, categories: seq<Category>, c: Category, more: seq<BudgetLine>,
                    budgeted: Entries, actual: Amounts)
    requires Lists(lines, categories, budgeted, actual)
    requires if HasFigures(c, budgeted, actual)
             then |more| == 1 && LineAgrees(more[0], c, budgeted, actual) else more == []
    ensures Lists(lines + more, categories + [c], budgeted, actual)
  {
    var all := categories + [c];
    LineRankPrefix(categories, [c], |categories|, budgeted, actual);
    forall k | 0 <= k < |all| && HasFigures(all[k], budgeted, actual)
      ensures var i := LineRank(all, k, budgeted, actual);
              i < |lines + more| && LineAgrees((lines + more)[i], all[k], budgeted, actual)
    {
      LineRankPrefix(categories, [c], k, budgeted, actual);
    }
  }

  lemma LineOfAgrees(c: Category, budgeted: Entries, actual: Amounts)
    ensures LineAgrees(LineOf(c, budgeted, actual), c, budgeted, actual)
  {
  }

  lemma {:induction false} LinesListCategories(categories: seq<Category>, budgeted: Entries, actual: Amounts)
    ensures Lists(Lines(categories, budgeted, actual), categories, budgeted, actual)
  {
    if categories != [] {
      var init, last := categories[..|categories| - 1], categories[|categories| - 1];
      assert categories == init + [last];
      LinesListCategories(init, budgeted, actual);
      LineOfAgrees(last, budgeted, actual);
      var more := if HasFigures(last, budgeted, actual) then [LineOf(last, budgeted, actual)] else [];
      ListOneMore(Lines(init, budgeted, actual), init, last, more, budgeted, actual);
      LinesSnoc(categories, budgeted, actual);
    }
  }

  // ----- The remaining figures of the three levels

  function RemainingAmounts(lines: seq<BudgetLine>): (a: seq<I64>)
    ensures |a| == |lines|
  {
    seq(|lines|, i requires 0 <= i < |lines| => lines[i].remaining)
  }

  /** The wrapped sum of what remains in the sections of one kind. */
  function KindRemaining(sections: seq<BudgetSection>, kind: CategoryKind): I64 {
    if sections == [] then 0
    else
      var before, last := KindRemaining(sections[..|sections| - 1], kind), sections[|sections| - 1];
      if last.group.kind == kind then Add(before, last.remaining) else before
  }

  lemma SubWraps(a: int, b: int)
    ensures Sub(Wrap(a), Wrap(b)) == Wrap(a - b)
  {
    WrapAdd(a, b);
  }

  /** Differences may be taken before or after adding up, also when the sums wrap around. */
  lemma SubOfAdd(a: I64, b: I64, c: I64, d: I64)
    ensures Sub(Add(a, c), Add(b, d)) == Add(Sub(a, b), Sub(c, d))
  {
    var w, x, y, z := a as int, b as int, c as int, d as int;
    SubWraps(w + y, x + z);
    AddWraps(w - x, y - z);
    assert w + y - (x + z) == w - x + (y - z);
  }

  lemma SubOfSub(a: I64, b: I64, c: I64, d: I64)
    ensures Sub(Sub(a, c), Sub(b, d)) == Sub(Sub(a, b), Sub(c, d))
  {
    var w, x, y, z := a as int, b as int, c as int, d as int;
    SubWraps(w - y, x - z);
    SubWraps(w - x, y - z);
    assert w - y - (x - z) == w - x - (y - z);
  }

  ghost predicate LinesSubtract(lines: seq<BudgetLine>) {
    forall i :: 0 <= i < |lines| ==> lines[i].remaining == Sub(lines[i].budgeted, lines[i].actual)
  }

  lemma {:induction false} SumOfRemaining(lines: seq<BudgetLine>)
    requires LinesSubtract(lines)
    ensures Sum(RemainingAmounts(lines)) == Sub(Sum(BudgetedAmounts(lines)), Sum(ActualAmounts(lines)))
  {
    WrapFits(0);
    if lines != [] {
      var init, last := lines[..|lines| - 1], lines[|lines| - 1];
      SumOfRemaining(init);
      assert RemainingAmounts(lines)[..|init|] == RemainingAmounts(init);
      assert BudgetedAmounts(lines)[..|init|] == BudgetedAmounts(init);
      assert ActualAmounts(lines)[..|init|] == ActualAmounts(init);
      SubOfAdd(Sum(BudgetedAmounts(init)), Sum(ActualAmounts(init)), last.budgeted, last.actual);
    }
  }

  lemma {:induction false} EveryLineSubtracts(categories: seq<Category>, budgeted: Entries, actual: Amounts)
    ensures LinesSubtract(Lines(categories, budgeted, actual))
  {
    if categories != [] {
      EveryLineSubtracts(categories[..|categories| - 1], budgeted, actual);
      LinesSnoc(categories, budgeted, actual);
    }
  }

  /** A section's remaining figure is both its own difference and the sum of those of its lines. */
  ghost predicate SectionSubtracts(section: BudgetSection) {
    section.remaining == Sub(section.budgeted, section.actual) == Sum(RemainingAmounts(section.lines))
  }

  ghost predicate SectionsSubtract(sections: seq<BudgetSection>) {
    forall i :: 0 <= i < |sections| ==> SectionSubtracts(sections[i])
  }

  lemma {:induction false} TotalsOfRemaining(sections: seq<BudgetSection>)
    requires SectionsSubtract(sections)
    ensures var t := TotalsOf(sections);
            && KindRemaining(sections, Income) == Sub(t.incomeBudgeted, t.incomeActual)
            && KindRemaining(sections, Expense) == Sub(t.expensesBudgeted, t.expensesActual)
  {
    WrapFits(0);
    if sections != [] {
      var init, last := sections[..|sections| - 1], sections[|sections| - 1];
      TotalsOfRemaining(init);
      var t := TotalsOf(init);
      SubOfAdd(t.incomeBudgeted, t.incomeActual, last.budgeted, last.actual);
      SubOfAdd(t.expensesBudgeted, t.expensesActual, last.budgeted, last.actual);
    }
  }

  lemma SectionOfSubtracts(group: CategoryGroup, budgeted: Entries, actual: Amounts)
    ensures SectionOf(group, budgeted, actual).Some? ==>
              SectionSubtracts(SectionOf(group, budgeted, actual).value)
  {
    EveryLineSubtracts(group.categories, budgeted, actual);
    SumOfRemaining(Lines(group.categories, budgeted, actual));
  }

  lemma {:induction false} EverySectionSubtracts(groups: seq<CategoryGroup>, budgeted: Entries, actual: Amounts)
    ensures SectionsSubtract(Sections(groups, budgeted, actual))
  {
    if groups != [] {
      EverySectionSubtracts(groups[..|groups| - 1], budgeted, actual);
      SectionOfSubtracts(groups[|groups| - 1], budgeted, actual);
    }
  }

  /**
    The remaining figures agree at all levels: what remains of the report's budget over its actual
    amounts is what remains in the income sections less what remains in the expense sections, and what
    remains in a section is the sum of what remains on its lines.
   */
  lemma RemainingAgrees(month: string, groups: seq<CategoryGroup>, budgeted: Entries, actual: Amounts)
    ensures var r := AssembleReport(month, groups, budgeted, actual);
            && Sub(r.remainingBudgeted, r.remainingActual) ==
               Sub(KindRemaining(r.sections, Income), KindRemaining(r.sections, Expense))
            && SectionsSubtract(r.sections)
  {
    var sections := Sections(groups, budgeted, actual);
    EverySectionSubtracts(groups, budgeted, actual);
    TotalsOfRemaining(sections);
    var t := TotalsOf(sections);
    SubOfSub(t.incomeBudgeted, t.incomeActual, t.expensesBudgeted, t.expensesActual);
  }

  // ----- What the report shows

  ghost predicate SectionAgrees(section: BudgetSection, group: CategoryGroup, budgeted: Entries,
                                actual: Amounts) {
    && section.group == group && section.title == group.name
    && Lists(section.lines, group.categories, budgeted, actual)
    && section.budgeted == Sum(BudgetedAmounts(section.lines))
    && section.actual == Sum(ActualAmounts(section.lines))
    && SectionSubtracts(section)
  }

  /** A group that the report must show. */
  ghost predicate Figured(group: CategoryGroup, budgeted: Entries, actual: Amounts) {
    group.kind != Transfer &&
    exists j :: 0 <= j < |group.categories| && HasFigures(group.categories[j], budgeted, actual)
  }

  lemma {:induction false} RankIsZero(categories: seq<Category>, k: nat, budgeted: Entries, actual: Amounts)
    requires k <= |categories|
    ensures LineRank(categories, k, budgeted, actual) == 0 <==>
            forall j :: 0 <= j < k ==> !HasFigures(categories[j], budgeted, actual)
  {
    if k > 0 {
      RankIsZero(categories, k - 1, budgeted, actual);
    }
  }

  lemma SectionIffFigured(group: CategoryGroup, budgeted: Entries, actual: Amounts)
    requires group.kind != Transfer
    ensures SectionOf(group, budgeted, actual).Some? <==> Figured(group, budgeted, actual)
  {
    EmptySectionsAreZero(group, budgeted, actual);
    LinesListCategories(group.categories, budgeted, actual);
    RankIsZero(group.categories, |group.categories|, budgeted, actual);
  }

  lemma SectionOfAgrees(group: CategoryGroup, budgeted: Entries, actual: Amounts)
    requires SectionOf(group, budgeted, actual).Some?
    ensures SectionAgrees(SectionOf(group, budgeted, actual).value, group, budgeted, actual)
  {
    LinesListCategories(group.categories, budgeted, actual);
    SectionOfSubtracts(group, budgeted, actual);
  }

  ghost function SectionRank(groups: seq<CategoryGroup>, k: nat, budgeted: Entries, actual: Amounts): nat
    requires k <= |groups|
  {
    if k == 0 then 0
    else SectionRank(groups, k - 1, budgeted, actual) + if Figured(groups[k - 1], budgeted, actual) then 1 else 0
  }

  /** One section for each income or expense group with figures, in the groups' order, and no other section. */
  ghost predicate Shows(sections: seq<BudgetSection>, groups: seq<CategoryGroup>, budgeted: Entries,
                        actual: Amounts) {
    && |sections| == SectionRank(groups, |groups|, budgeted, actual)
    && forall k :: 0 <= k < |groups| && Figured(groups[k], budgeted, actual) ==>
         var i := SectionRank(groups, k, budgeted, actual);
         i < |sections| && SectionAgrees(sections[i], groups[k], budgeted, actual)
  }

  lemma {:induction false} SectionRankPrefix(groups: seq<CategoryGroup>, more: seq<CategoryGroup>, k: nat,
                                             budgeted: Entries, actual: Amounts)
    requires k <= |groups|
    ensures SectionRank(groups + more, k, budgeted, actual) == SectionRank(groups, k, budgeted, actual)
  {
    if k > 0 {
      SectionRankPrefix(groups, more, k - 1, budgeted, actual);
    }
  }

  lemma ShowOneMore(sections: seq<BudgetSection>, groups: seq<CategoryGroup>, group: CategoryGroup,
                    more: seq<BudgetSection>, budgeted: Entries, actual: Amounts)
    requires Shows(sections, groups, budgeted, actual)
    requires if Figured(group, budgeted, actual)
             then |more| == 1 && SectionAgrees(more[0], group, budgeted, actual) else more == []
    ensures Shows(sections + more, groups + [group], budgeted, actual)
  {
    var all := groups + [group];
    SectionRankPrefix(groups, [group], |groups|, budgeted, actual);
    forall k | 0 <= k < |all| && Figured(all[k], budgeted, actual)
      ensures var i := SectionRank(all, k, budgeted, actual);
              i < |sections + more| && SectionAgrees((sections + more)[i], all[k], budgeted, actual)
    {
      SectionRankPrefix(groups, [group], k, budgeted, actual);
      if k < |groups| {
        assert all[k] == groups[k];
      }
    }
  }

  /** The whole report: sections in the groups' order, each the roll-up of lines in its categories' order. */
  lemma {:induction false} SectionsShowGroups(groups: seq<CategoryGroup>, budgeted: Entries, actual: Amounts)
    ensures Shows(Sections(groups, budgeted, actual), groups, budgeted, actual)
  {
    if groups != [] {
      var init, last := groups[..|groups| - 1], groups[|groups| - 1];
      assert groups == init + [last];
      SectionsShowGroups(init, budgeted, actual);
      var more := OneSection(last, budgeted, actual);
      ShowOneMore(Sections(init, budgeted, actual), init, last, more, budgeted, actual);
      assert Sections(groups, budgeted, actual) == Sections(init, budgeted, actual) + more;
    }
  }

  lemma OneSection(group: CategoryGroup, budgeted: Entries, actual: Amounts)
    returns (more: seq<BudgetSection>)
    ensures if Figured(group, budgeted, actual)
            then |more| == 1 && SectionAgrees(more[0], group, budgeted, actual) else more == []
    ensures if group.kind != Transfer && SectionOf(group, budgeted, actual).Some?
            then more == [SectionOf(group, budgeted, actual).value] else more == []
  {
    more := [];
    if group.kind != Transfer {
      SectionIffFigured(group, budgeted, actual);
      if SectionOf(group, budgeted, actual).Some? {
        SectionOfAgrees(group, budgeted, actual);
        more := [SectionOf(group, budgeted, actual).value];
      }
    }
  }
}
