/**
  The category seed: two passes over the same text, one that collects the category groups and one that
  collects the categories, and the id map that joins them. A text is given as
  its lines.
 */
module Seed {
  import opened Schema
  import opened Text

  /** The text before the first bar, or all of it. */
  function BeforeBar(s: string): string {
    if s == "" || s[0] == '|' then "" else [s[0]] + BeforeBar(s[1..])
  }

  /** The first word and the rest; the word stays in the name when blanks stand before it. */
  function SplitEmojiName(value: string): (string, string) {
    var emoji := Word(TrimStart(value));
    if emoji == "" then ("?", value)
    else
      match StripPrefix(value, emoji)
      case Some(rest) => (emoji, Trim(rest))
      case None => (emoji, Trim(value))
  }

  // ----- What a text lists

  datatype Line = Header(emoji: string, name: string) | Category(emoji: string, name: string) | Other

  function Classify(raw: string): Line {
    var line := Trim(raw);
    match StripPrefix(line, "## ")
    case Some(header) =>
      var (emoji, name) := SplitEmojiName(header);
      Header(emoji, name)
    case None =>
      match StripPrefix(line, "- ")
      case None => Other
      case Some(text) =>
        var (emoji, name) := SplitEmojiName(Trim(BeforeBar(text)));
        if name == "Uncategorized" then Other else Category(emoji, name)
  }

  /** The emoji and name of the header that a line at the end of the text would stand under. */
  function CurrentGroup(lines: seq<string>): (string, string) {
    if lines == [] then ("?", "Other")
    else
      match Classify(lines[|lines| - 1])
      case Header(emoji, name) => (emoji, name)
      case _ => CurrentGroup(lines[..|lines| - 1])
  }

  /** A category together with the header it stands under. */
  datatype Entry = Entry(groupEmoji: string, group: string, emoji: string, name: string)

  function Entries(lines: seq<string>): seq<Entry> {
    if lines == [] then []
    else
      var before := Entries(lines[..|lines| - 1]);
      match Classify(lines[|lines| - 1])
      case Category(emoji, name) =>
        var (groupEmoji, group) := CurrentGroup(lines[..|lines| - 1]);
        before + [Entry(groupEmoji, group, emoji, name)]
      case _ => before
  }

  // ----- The two passes

  function KindForGroup(name: string): CategoryKind {
    if name == "Income" then Income else if name == "Transfers" then Transfer else Expense
  }

  datatype GroupParams = GroupParams(name: string, emoji: string, kind: CategoryKind, sortOrder: int)
  datatype CategoryParams = CategoryParams(name: string, emoji: string, groupId: int, sortOrder: int)
  datatype Result = Ok(categories: seq<CategoryParams>) | UnresolvedGroup(name: string)

  ghost predicate Names(entries: seq<Entry>, group: string) {
    exists i :: 0 <= i < |entries| && entries[i].group == group
  }

  /** The first entry of each group, numbered by its position. */
  ghost function FirstEntries(entries: seq<Entry>): seq<GroupParams> {
    if entries == [] then []
    else
      var init, e := entries[..|entries| - 1], entries[|entries| - 1];
      if Names(init, e.group) then FirstEntries(init)
      else FirstEntries(init) + [GroupParams(e.group, e.groupEmoji, KindForGroup(e.group), |entries|)]
  }

  method SeedCategoryGroups(lines: seq<string>) returns (groups: seq<GroupParams>)
    ensures groups == FirstEntries(Entries(lines))
  {
    groups := [];
    var groupNames: set<string> := {};
    var groupName, groupEmoji := "Other", "?";
    var index := 0;
    for i := 0 to |lines|
      invariant (groupEmoji, groupName) == CurrentGroup(lines[..i])
      invariant index == |Entries(lines[..i])|
      invariant forall name :: name in groupNames <==> Names(Entries(lines[..i]), name)
      invariant groups == FirstEntries(Entries(lines[..i]))
    {
      assert lines[..i + 1][..i] == lines[..i];
      ghost var before, after := Entries(lines[..i]), Entries(lines[..i + 1]);
      var line := Trim(lines[i]);
      var header := StripPrefix(line, "## ");
      var text := StripPrefix(line, "- ");
      if header.Some? {
        var (emoji, name) := SplitEmojiName(header.value);
        groupEmoji, groupName := emoji, name;
      } else if text.Some? {
        var (_, categoryName) := SplitEmojiName(Trim(BeforeBar(text.value)));
        if categoryName != "Uncategorized" {
          assert |after| == |before| + 1 && after[..|before|] == before && after[|before|].group == groupName;
          if groupName !in groupNames {
            groups := groups + [GroupParams(groupName, groupEmoji, KindForGroup(groupName), index + 1)];
          }
          groupNames := groupNames + {groupName};
          index := index + 1;
          NamesSnoc(before, after);
        }
      }
    }
    assert lines[..|lines|] == lines;
  }

  lemma NamesSnoc(before: seq<Entry>, after: seq<Entry>)
    requires |after| == |before| + 1 && after[..|before|] == before
    ensures forall name :: Names(after, name) <==> Names(before, name) || name == after[|before|].group
  {
    forall name ensures Names(after, name) <==> Names(before, name) || name == after[|before|].group {
      if i :| 0 <= i < |before| && before[i].group == name {
        assert after[i] == before[i];
      }
      if i :| 0 <= i < |after| && after[i].group == name {
        assert i < |before| ==> before[i] == after[i];
      }
    }
  }

  /** What the second pass makes of the first `count` entries. */
  ghost predicate Resolves(categories: seq<CategoryParams>, entries: seq<Entry>, groupIds: map<string, int>) {
    && |categories| == |entries|
    && forall i :: 0 <= i < |entries| ==>
         && entries[i].group in groupIds
         && categories[i] == CategoryParams(entries[i].name, entries[i].emoji, groupIds[entries[i].group], i)
  }

  ghost predicate FirstUnresolved(entries: seq<Entry>, groupIds: map<string, int>, k: nat) {
    && k < |entries| && entries[k].group !in groupIds
    && forall i :: 0 <= i < k ==> entries[i].group in groupIds
  }

  lemma UnresolvedInPrefix(lines: seq<string>, n: nat, groupIds: map<string, int>, k: nat)
    requires n <= |lines| && FirstUnresolved(Entries(lines[..n]), groupIds, k)
    ensures FirstUnresolved(Entries(lines), groupIds, k) && Entries(lines)[k] == Entries(lines[..n])[k]
  {
    EntriesPrefix(lines, n);
    assert forall j :: 0 <= j <= k ==> Entries(lines)[j] == Entries(lines[..n])[j];
  }

  method SeedCategoryParams(lines: seq<string>, groupIds: map<string, int>) returns (r: Result)
    ensures r.Ok? ==> Resolves(r.categories, Entries(lines), groupIds)
    ensures r.UnresolvedGroup? ==> exists k: nat ::
              FirstUnresolved(Entries(lines), groupIds, k) && Entries(lines)[k].group == r.name
  {
    var categories: seq<CategoryParams> := [];
    var groupName := "Other";
    for i := 0 to |lines|
      invariant groupName == CurrentGroup(lines[..i]).1
      invariant Resolves(categories, Entries(lines[..i]), groupIds)
    {
      assert lines[..i + 1][..i] == lines[..i];
      ghost var before, after := Entries(lines[..i]), Entries(lines[..i + 1]);
      var line := Trim(lines[i]);
      var header := StripPrefix(line, "## ");
      var text := StripPrefix(line, "- ");
      if header.Some? {
        var (_, name) := SplitEmojiName(header.value);
        groupName := name;
      } else if text.Some? {
        var (emoji, name) := SplitEmojiName(Trim(BeforeBar(text.value)));
        if name != "Uncategorized" {
          assert |after| == |before| + 1 && after[..|before|] == before && after[|before|].group == groupName;
          if groupName !in groupIds {
            UnresolvedInPrefix(lines, i + 1, groupIds, |before|);
            return UnresolvedGroup(groupName);
          }
          categories := categories + [CategoryParams(name, emoji, groupIds[groupName], |categories|)];
        }
      }
    }
    assert lines[..|lines|] == lines;
    return Ok(categories);
  }

  lemma {:induction false} EntriesPrefix(lines: seq<string>, n: nat)
    requires n <= |lines|
    ensures Entries(lines[..n]) <= Entries(lines)
  {
    if n == |lines| {
      assert lines[..n] == lines;
    } else {
      EntriesPrefix(lines[..|lines| - 1], n);
      assert lines[..|lines| - 1][..n] == lines[..n];
    }
  }

  const SENTINEL_CATEGORY_GROUP_ID := 0

  /** The map of `seed_categories`; `ids` is what the database assigns to the groups it creates. */
  function GroupIds(groups: seq<GroupParams>, ids: string -> int): map<string, int> {
    if groups == [] then map["Other" := SENTINEL_CATEGORY_GROUP_ID]
    else
      var before, name := GroupIds(groups[..|groups| - 1], ids), groups[|groups| - 1].name;
      if name == "Other" then before else before[name := ids(name)]
  }

  /** Both passes and the map between them: every category of every text finds its group. */
  method SeedCategories(lines: seq<string>, ids: string -> int)
    returns (groups: seq<GroupParams>, categories: seq<CategoryParams>)
    ensures groups == FirstEntries(Entries(lines))
    ensures Resolves(categories, Entries(lines), GroupIds(groups, ids))
  {
    groups := SeedCategoryGroups(lines);
    var groupIds := map["Other" := SENTINEL_CATEGORY_GROUP_ID];
    for i := 0 to |groups|
      invariant groupIds == GroupIds(groups[..i], ids)
    {
      assert groups[..i + 1][..i] == groups[..i];
      if groups[i].name == "Other" {
        continue;
      }
      groupIds := groupIds[groups[i].name := ids(groups[i].name)];
    }
    assert groups[..|groups|] == groups;
    var r := SeedCategoryParams(lines, groupIds);
    if r.UnresolvedGroup? {
      EveryGroupResolves(Entries(lines), ids);
      assert false;
    }
    categories := r.categories;
  }

  /** A group sits at the position of its first entry, counted from one. */
  ghost predicate IsFirst(group: GroupParams, entries: seq<Entry>) {
    && 1 <= group.sortOrder <= |entries|
    && entries[group.sortOrder - 1].group == group.name
    && entries[group.sortOrder - 1].groupEmoji == group.emoji
    && (group.kind == Income <==> group.name == "Income") && (group.kind == Transfer <==> group.name == "Transfers")
    && !Names(entries[..group.sortOrder - 1], group.name)
  }

  ghost predicate AreFirst(groups: seq<GroupParams>, entries: seq<Entry>) {
    && (forall i :: 0 <= i < |groups| ==> IsFirst(groups[i], entries))
    && (forall i, j :: 0 <= i < j < |groups| ==> groups[i].sortOrder < groups[j].sortOrder)
    && (forall name :: Names(entries, name) <==> exists i :: 0 <= i < |groups| && groups[i].name == name)
  }

  /** The groups are the headers with categories: each once, in order, where its first category stands. */
  lemma {:induction false} GroupsAreFirstEntries(entries: seq<Entry>)
    ensures AreFirst(FirstEntries(entries), entries)
  {
    if entries != [] {
      var init := entries[..|entries| - 1];
      GroupsAreFirstEntries(init);
      NamesSnoc(init, entries);
      var before, groups := FirstEntries(init), FirstEntries(entries);
      forall i | 0 <= i < |groups| ensures IsFirst(groups[i], entries) {
        if i < |before| {
          assert groups[i] == before[i] && IsFirst(before[i], init);
          assert entries[..groups[i].sortOrder - 1] == init[..groups[i].sortOrder - 1];
        } else {
          assert entries[..groups[i].sortOrder - 1] == init;
        }
      }
      forall name ensures Names(entries, name) <==> exists i :: 0 <= i < |groups| && groups[i].name == name {
        if i :| 0 <= i < |before| && before[i].name == name {
          assert groups[i].name == name;
        }
        if Names(entries, name) && !Names(init, name) {
          assert groups[|before|].name == name;
        }
      }
    }
  }

  lemma GroupNamesAreDistinct(entries: seq<Entry>, i: nat, j: nat)
    requires i < j < |FirstEntries(entries)|
    ensures FirstEntries(entries)[i].name != FirstEntries(entries)[j].name
  {
    GroupsAreFirstEntries(entries);
    var a, b := FirstEntries(entries)[i], FirstEntries(entries)[j];
    assert IsFirst(a, entries) && IsFirst(b, entries);
    assert entries[..b.sortOrder - 1][a.sortOrder - 1].group == a.name;
  }

  lemma {:induction false} GroupIdsExactly(groups: seq<GroupParams>, ids: string -> int, name: string)
    ensures var groupIds := GroupIds(groups, ids);
            && (name in groupIds <==> name == "Other" || exists i :: 0 <= i < |groups| && groups[i].name == name)
            && (name in groupIds ==>
                  groupIds[name] == if name == "Other" then 0 else ids(name))
  {
    if groups != [] {
      var init := groups[..|groups| - 1];
      GroupIdsExactly(init, ids, name);
      if i :| 0 <= i < |groups| && groups[i].name == name {
        assert i < |init| ==> init[i].name == name;
      }
      if i :| 0 <= i < |init| && init[i].name == name {
        assert groups[i].name == name;
      }
    }
  }

  /** The id map built from one pass has every group that the other pass looks up. */
  lemma EveryGroupResolves(entries: seq<Entry>, ids: string -> int)
    ensures forall k :: 0 <= k < |entries| ==> entries[k].group in GroupIds(FirstEntries(entries), ids)
  {
    GroupsAreFirstEntries(entries);
    forall k | 0 <= k < |entries| ensures entries[k].group in GroupIds(FirstEntries(entries), ids) {
      assert Names(entries, entries[k].group);
      GroupIdsExactly(FirstEntries(entries), ids, entries[k].group);
    }
  }

  /**
    The two passes agree: a group's sort order is one more than that of its first category in the other
    pass, that category has the group's id, and no earlier category does when ids are distinct.
   */
  lemma PassesAgree(lines: seq<string>, ids: string -> int, categories: seq<CategoryParams>, g: nat)
    requires g < |FirstEntries(Entries(lines))|
    requires Resolves(categories, Entries(lines), GroupIds(FirstEntries(Entries(lines)), ids))
    requires forall a, b :: a != b ==> ids(a) != ids(b)
    requires forall a :: ids(a) != 0
    ensures FirstCategoryIs(categories, FirstEntries(Entries(lines))[g], ids)
  {
    var entries := Entries(lines);
    var groups := FirstEntries(entries);
    GroupsAreFirstEntries(entries);
    assert IsFirst(groups[g], entries);
    var first := groups[g].sortOrder - 1;
    assert entries[first].group in GroupIds(groups, ids);
    GroupIdsExactly(groups, ids, groups[g].name);
    forall i | 0 <= i < first ensures categories[i].groupId != IdOf(groups[g].name, ids) {
      assert entries[i].group in GroupIds(groups, ids);
      GroupIdsExactly(groups, ids, entries[i].group);
      assert entries[..first][i].group != groups[g].name;
    }
  }

  function IdOf(group: string, ids: string -> int): int {
    if group == "Other" then 0 else ids(group)
  }

  ghost predicate FirstCategoryIs(categories: seq<CategoryParams>, group: GroupParams, ids: string -> int) {
    && 0 < group.sortOrder <= |categories|
    && categories[group.sortOrder - 1].sortOrder + 1 == group.sortOrder
    && categories[group.sortOrder - 1].groupId == IdOf(group.name, ids)
    && forall i :: 0 <= i < group.sortOrder - 1 ==> categories[i].groupId != IdOf(group.name, ids)
  }

  // ----- Reading back a seed text that was written down

  datatype SeedCategory = SeedCategory(emoji: string, name: string, codes: string)
  datatype SeedGroup = SeedGroup(emoji: string, name: string, categories: seq<SeedCategory>)

  ghost predicate Writable(emoji: string, name: string) {
    IsWord(emoji) && Trimmed(name) && '|' !in emoji && '|' !in name
  }

  function HeaderLine(emoji: string, name: string): string {
    "## " + emoji + " " + name
  }

  function CategoryLine(c: SeedCategory): string {
    "- " + c.emoji + " " + c.name + if c.codes == "" then "" else " | " + c.codes
  }

  lemma SplitOfEmojiAndName(emoji: string, name: string)
    requires IsWord(emoji) && Trimmed(name)
    ensures SplitEmojiName(emoji + " " + name) == (emoji, name)
  {
    var value := emoji + " " + name;
    assert value == emoji + (" " + name);
    WordOfWord(emoji, " " + name);
    assert value[0] == emoji[0] && TrimStart(value) == value;
    assert value[|emoji|..] == " " + name;
    TrimOfTrimmed(name);
  }

  /**
    Of any value: its first word and what follows it, trimmed; but with blanks in front the name is the whole
    value, trimmed, and without any word the emoji is a question mark.
   */
  lemma SplitIsExact(blanks: string, word: string, rest: string)
    requires AllBlank(blanks) && IsWord(word) && (rest == "" || IsWhitespace(rest[0]))
    ensures SplitEmojiName(blanks) == ("?", blanks)
    ensures SplitEmojiName(blanks + word + rest) ==
            (word, Trim(if blanks == "" then rest else blanks + word + rest))
  {
    var value := blanks + word + rest;
    assert value == blanks + (word + rest);
    TrimStartOfBlanks(blanks, word + rest);
    TrimEndOfAllBlank(blanks);
    WordOfWord(word, rest);
    if blanks == "" {
      assert value[|word|..] == rest;
    } else {
      assert value[0] == blanks[0];
    }
  }

  lemma ClassifyHeaderLine(emoji: string, name: string)
    requires IsWord(emoji) && Trimmed(name)
    ensures Classify(HeaderLine(emoji, name)) == Header(emoji, name)
  {
    var line := HeaderLine(emoji, name);
    assert line[|line| - 1] == name[|name| - 1];
    TrimOfTrimmed(line);
    assert line[3..] == emoji + " " + name;
    SplitOfEmojiAndName(emoji, name);
  }

  lemma {:induction false} BeforeBarOf(text: string, rest: string)
    requires '|' !in text
    ensures BeforeBar(text) == text && BeforeBar(text + "|" + rest) == text
  {
    if text == "" {
      assert text + "|" + rest == "|" + rest;
    } else {
      assert text[0] in text && (text + "|" + rest)[1..] == text[1..] + "|" + rest;
      BeforeBarOf(text[1..], rest);
      assert text == [text[0]] + text[1..];
    }
  }

  lemma TextOfCategoryLine(c: SeedCategory)
    requires Writable(c.emoji, c.name) && (c.codes == "" || Trimmed(c.codes))
    ensures Trim(BeforeBar(CategoryLine(c)[2..])) == c.emoji + " " + c.name
  {
    var text := c.emoji + " " + c.name;
    assert Trimmed(text) && '|' !in text;
    TrimOfTrimmed(text);
    if c.codes == "" {
      assert CategoryLine(c)[2..] == text;
      BeforeBarOf(text, "");
    } else {
      assert CategoryLine(c)[2..] == (text + " ") + "|" + (" " + c.codes);
      BeforeBarOf(text + " ", " " + c.codes);
    }
  }

  lemma ClassifyCategoryLine(c: SeedCategory)
    requires Writable(c.emoji, c.name) && (c.codes == "" || Trimmed(c.codes)) && c.name != "Uncategorized"
    ensures Classify(CategoryLine(c)) == Category(c.emoji, c.name)
  {
    var line := CategoryLine(c);
    assert line[|line| - 1] == if c.codes == "" then c.name[|c.name| - 1] else c.codes[|c.codes| - 1];
    TrimOfTrimmed(line);
    assert line[0] == '-' && "- " <= line;
    TextOfCategoryLine(c);
    SplitOfEmojiAndName(c.emoji, c.name);
  }

  lemma ClassifyIgnoresBlanks(before: string, line: string, after: string)
    requires AllBlank(before) && AllBlank(after) && (line == "" || Trimmed(line))
    ensures Classify(before + line + after) == Classify(line)
  {
    TrimOfPadded(before, line, after);
    TrimOfPadded("", line, "");
    assert "" + line + "" == line;
  }

  lemma UncategorizedIsOther(c: SeedCategory)
    requires Writable(c.emoji, c.name) && (c.codes == "" || Trimmed(c.codes)) && c.name == "Uncategorized"
    ensures Classify(CategoryLine(c)) == Other
  {
    var line := CategoryLine(c);
    assert line[|line| - 1] == if c.codes == "" then c.name[|c.name| - 1] else c.codes[|c.codes| - 1];
    TrimOfTrimmed(line);
    assert line[0] == '-' && "- " <= line;
    TextOfCategoryLine(c);
    SplitOfEmojiAndName(c.emoji, c.name);
  }

  function CategoryLines(categories: seq<SeedCategory>): seq<string> {
    if categories == [] then []
    else CategoryLines(categories[..|categories| - 1]) + [CategoryLine(categories[|categories| - 1])]
  }

  function GroupEntries(g: SeedGroup, categories: seq<SeedCategory>): seq<Entry> {
    if categories == [] then []
    else
      var c := categories[|categories| - 1];
      GroupEntries(g, categories[..|categories| - 1]) + [Entry(g.emoji, g.name, c.emoji, c.name)]
  }

  function Written(groups: seq<SeedGroup>): seq<string> {
    if groups == [] then []
    else
      var last := groups[|groups| - 1];
      Written(groups[..|groups| - 1]) + ([HeaderLine(last.emoji, last.name)] + CategoryLines(last.categories))
  }

  function WrittenEntries(groups: seq<SeedGroup>): seq<Entry> {
    if groups == [] then []
    else
      var last := groups[|groups| - 1];
      WrittenEntries(groups[..|groups| - 1]) + GroupEntries(last, last.categories)
  }

  ghost predicate WritableCategory(c: SeedCategory) {
    Writable(c.emoji, c.name) && (c.codes == "" || Trimmed(c.codes)) && c.name != "Uncategorized"
  }

  ghost predicate WritableGroup(g: SeedGroup) {
    IsWord(g.emoji) && Trimmed(g.name) && forall i :: 0 <= i < |g.categories| ==> WritableCategory(g.categories[i])
  }

  lemma EntriesSnoc(lines: seq<string>, line: string)
    ensures var group, kind := CurrentGroup(lines), Classify(line);
            Entries(lines + [line]) ==
            Entries(lines) + if kind.Category? then [Entry(group.0, group.1, kind.emoji, kind.name)] else []
    ensures CurrentGroup(lines + [line]) ==
            if Classify(line).Header? then (Classify(line).emoji, Classify(line).name) else CurrentGroup(lines)
  {
    assert (lines + [line])[..|lines|] == lines;
  }

  /** A line that is no header and no category, blanks aside, or is about "Uncategorized". */
  ghost predicate SaysNothing(line: string) {
    || ((line == "" || Trimmed(line)) && !("## " <= line) && !("- " <= line))
    || exists c: SeedCategory :: IsUncategorized(c) && line == CategoryLine(c)
  }

  ghost predicate IsUncategorized(c: SeedCategory) {
    Writable(c.emoji, c.name) && (c.codes == "" || Trimmed(c.codes)) && c.name == "Uncategorized"
  }

  lemma CategoryLineIsTrimmed(c: SeedCategory)
    requires Trimmed(c.name) && (c.codes == "" || Trimmed(c.codes))
    ensures Trimmed(CategoryLine(c))
  {
    var line := CategoryLine(c);
    assert line[0] == '-';
    assert line[|line| - 1] == if c.codes == "" then c.name[|c.name| - 1] else c.codes[|c.codes| - 1];
  }

  /** Such lines change neither what is listed nor the header in force. */
  lemma OtherLinesAreSkipped(lines: seq<string>, before: string, line: string, after: string)
    requires AllBlank(before) && AllBlank(after) && SaysNothing(line)
    ensures Entries(lines + [before + line + after]) == Entries(lines)
    ensures CurrentGroup(lines + [before + line + after]) == CurrentGroup(lines)
  {
    if (line == "" || Trimmed(line)) && !("## " <= line) && !("- " <= line) {
      TrimOfPadded(before, line, after);
    } else {
      var c: SeedCategory :| IsUncategorized(c) && line == CategoryLine(c);
      CategoryLineIsTrimmed(c);
      ClassifyIgnoresBlanks(before, line, after);
      UncategorizedIsOther(c);
    }
    EntriesSnoc(lines, before + line + after);
  }

  lemma HeaderIsRead(lines: seq<string>, emoji: string, name: string)
    requires IsWord(emoji) && Trimmed(name)
    ensures Entries(lines + [HeaderLine(emoji, name)]) == Entries(lines)
    ensures CurrentGroup(lines + [HeaderLine(emoji, name)]) == (emoji, name)
  {
    ClassifyHeaderLine(emoji, name);
    EntriesSnoc(lines, HeaderLine(emoji, name));
  }

  lemma CategoryIsRead(lines: seq<string>, c: SeedCategory, group: (string, string))
    requires WritableCategory(c)
    requires CurrentGroup(lines) == group
    ensures Entries(lines + [CategoryLine(c)]) == Entries(lines) + [Entry(group.0, group.1, c.emoji, c.name)]
    ensures CurrentGroup(lines + [CategoryLine(c)]) == group
  {
    ClassifyCategoryLine(c);
    EntriesSnoc(lines, CategoryLine(c));
  }

  lemma ConcatAssociates<T>(a: seq<T>, b: seq<T>, c: seq<T>)
    ensures a + (b + c) == a + b + c
  {
  }

  lemma {:induction false} CategoriesAreRead(lines: seq<string>, g: SeedGroup, categories: seq<SeedCategory>)
    requires forall i :: 0 <= i < |categories| ==> WritableCategory(categories[i])
    requires CurrentGroup(lines) == (g.emoji, g.name)
    ensures Entries(lines + CategoryLines(categories)) == Entries(lines) + GroupEntries(g, categories)
    ensures CurrentGroup(lines + CategoryLines(categories)) == (g.emoji, g.name)
  {
    if categories == [] {
      assert lines + [] == lines && Entries(lines) + [] == Entries(lines);
    } else {
      var init, c := categories[..|categories| - 1], categories[|categories| - 1];
      CategoriesAreRead(lines, g, init);
      CategoryIsRead(lines + CategoryLines(init), c, (g.emoji, g.name));
      ConcatAssociates(lines, CategoryLines(init), [CategoryLine(c)]);
      ConcatAssociates(Entries(lines), GroupEntries(g, init), [Entry(g.emoji, g.name, c.emoji, c.name)]);
    }
  }

  /** Categories in front of the first header belong to the group "Other". */
  const LOOSE := SeedGroup("?", "Other", [])

  lemma GroupIsRead(lines: seq<string>, g: SeedGroup)
    requires WritableGroup(g)
    ensures Entries(lines + ([HeaderLine(g.emoji, g.name)] + CategoryLines(g.categories))) ==
            Entries(lines) + GroupEntries(g, g.categories)
  {
    var header := [HeaderLine(g.emoji, g.name)];
    HeaderIsRead(lines, g.emoji, g.name);
    CategoriesAreRead(lines + header, g, g.categories);
    ConcatAssociates(lines, header, CategoryLines(g.categories));
  }

  lemma {:induction false} WrittenGroupsAreRead(lines: seq<string>, groups: seq<SeedGroup>)
    requires forall i :: 0 <= i < |groups| ==> WritableGroup(groups[i])
    ensures Entries(lines + Written(groups)) == Entries(lines) + WrittenEntries(groups)
  {
    if groups == [] {
      assert lines + Written(groups) == lines;
    } else {
      var init, last := groups[..|groups| - 1], groups[|groups| - 1];
      var section := [HeaderLine(last.emoji, last.name)] + CategoryLines(last.categories);
      WrittenGroupsAreRead(lines, init);
      GroupIsRead(lines + Written(init), last);
      ConcatAssociates(lines, Written(init), section);
      ConcatAssociates(Entries(lines), WrittenEntries(init), GroupEntries(last, last.categories));
      assert Written(groups) == Written(init) + section;
    }
  }

  lemma LooseAreRead(loose: seq<SeedCategory>)
    requires forall i :: 0 <= i < |loose| ==> WritableCategory(loose[i])
    ensures Entries(CategoryLines(loose)) == GroupEntries(LOOSE, loose)
  {
    CategoriesAreRead([], LOOSE, loose);
    assert [] + CategoryLines(loose) == CategoryLines(loose);
    assert Entries([]) + GroupEntries(LOOSE, loose) == GroupEntries(LOOSE, loose);
  }

  /** A text written from loose categories and groups reads back as exactly these categories under these headers. */
  lemma WrittenTextIsRead(loose: seq<SeedCategory>, groups: seq<SeedGroup>)
    requires forall i :: 0 <= i < |loose| ==> WritableCategory(loose[i])
    requires forall i :: 0 <= i < |groups| ==> WritableGroup(groups[i])
    ensures Entries(CategoryLines(loose) + Written(groups)) == GroupEntries(LOOSE, loose) + WrittenEntries(groups)
  {
    LooseAreRead(loose);
    WrittenGroupsAreRead(CategoryLines(loose), groups);
  }
}
