/**
  The keyword test of the account type inference: a scan over the non-overlapping occurrences of a
  keyword, from left to right, for one that stands as a whole word.

  `alnum` is `char::is_alphanumeric`; only facts about it that are stated as requirements are used.
 */
module Keyword {
  import opened Decimal

  predicate OccursAt(name: string, keyword: string, i: nat) {
    i + |keyword| <= |name| && name[i..i + |keyword|] == keyword
  }

  /** The first occurrence at or after `from`. */
  function FindFrom(name: string, keyword: string, from: nat): (r: Option<nat>)
    ensures r.Some? ==> from <= r.value && OccursAt(name, keyword, r.value)
    ensures r.Some? ==> forall j :: from <= j < r.value ==> !OccursAt(name, keyword, j)
    ensures r.None? ==> forall j :: from <= j ==> !OccursAt(name, keyword, j)
    decreases |name| - from
  {
    if from + |keyword| > |name| then None
    else if OccursAt(name, keyword, from) then Some(from)
    else FindFrom(name, keyword, from + 1)
  }

  /** `str::match_indices`: each search goes on behind the last match; empty matches move on by one. */
  function MatchIndices(name: string, keyword: string, from: nat): (matches: seq<nat>)
    ensures forall k :: 0 <= k < |matches| ==> from <= matches[k] && OccursAt(name, keyword, matches[k])
    decreases |name| + 1 - from
  {
    match FindFrom(name, keyword, from)
    case None => []
    case Some(i) => [i] + MatchIndices(name, keyword, i + if keyword == "" then 1 else |keyword|)
  }

  predicate IsWholeWord(alnum: char -> bool, name: string, keyword: string, i: nat)
    requires OccursAt(name, keyword, i)
  {
    && !(i > 0 && alnum(name[i - 1]))
    && !(i + |keyword| < |name| && alnum(name[i + |keyword|]))
  }

  predicate ScanFinds(alnum: char -> bool, name: string, keyword: string) {
    var matches := MatchIndices(name, keyword, 0);
    exists k :: 0 <= k < |matches| && IsWholeWord(alnum, name, keyword, matches[k])
  }

  predicate HasKeyword(alnum: char -> bool, name: string, keywords: seq<string>) {
    exists k :: 0 <= k < |keywords| && ScanFinds(alnum, name, keywords[k])
  }

  /** What the scan is for: the keyword stands somewhere in the name with no alphanumeric character beside it. */
  ghost predicate WordOccurs(alnum: char -> bool, name: string, keyword: string) {
    exists i :: WordAt(alnum, name, keyword, i)
  }

  ghost predicate WordAt(alnum: char -> bool, name: string, keyword: string, i: nat) {
    && i + |keyword| <= |name| && name[i..i + |keyword|] == keyword
    && (i == 0 || !alnum(name[i - 1]))
    && (i + |keyword| == |name| || !alnum(name[i + |keyword|]))
  }

  /** The keyword can overlap itself in a way that starts behind a character that is not alphanumeric. */
  ghost predicate HidesItself(alnum: char -> bool, keyword: string, shift: nat) {
    && 0 < shift < |keyword|
    && !alnum(keyword[shift - 1])
    && keyword[shift..] == keyword[..|keyword| - shift]
  }

  /** An occurrence that the scan skips lies inside an earlier match. */
  lemma {:induction false} SkippedInsideMatch(name: string, keyword: string, from: nat, i: nat) returns (m: nat)
    requires from <= i && OccursAt(name, keyword, i) && i !in MatchIndices(name, keyword, from)
    ensures m < i < m + |keyword| && OccursAt(name, keyword, m)
    decreases |name| + 1 - from
  {
    m := FindFrom(name, keyword, from).value;
    var next := m + if keyword == "" then 1 else |keyword|;
    assert MatchIndices(name, keyword, from) == [m] + MatchIndices(name, keyword, next);
    if next <= i {
      m := SkippedInsideMatch(name, keyword, next, i);
    }
  }

  lemma OverlapHides(alnum: char -> bool, name: string, keyword: string, m: nat, i: nat)
    requires m < i < m + |keyword| && OccursAt(name, keyword, m) && OccursAt(name, keyword, i)
    requires IsWholeWord(alnum, name, keyword, i)
    ensures HidesItself(alnum, keyword, i - m)
  {
    var shift := i - m;
    assert name[i - 1] == keyword[shift - 1];
    forall k | 0 <= k < |keyword| - shift ensures keyword[shift + k] == keyword[k] {
      assert name[i + k] == name[m..m + |keyword|][shift + k];
      assert name[i + k] == name[i..i + |keyword|][k];
    }
  }

  /** The scan reports only whole words. */
  lemma ScanIsSound(alnum: char -> bool, name: string, keyword: string)
    requires ScanFinds(alnum, name, keyword)
    ensures WordOccurs(alnum, name, keyword)
  {
    var matches := MatchIndices(name, keyword, 0);
    var k :| 0 <= k < |matches| && IsWholeWord(alnum, name, keyword, matches[k]);
    assert WordAt(alnum, name, keyword, matches[k]);
  }

  lemma ScanIsComplete(alnum: char -> bool, name: string, keyword: string)
    requires forall shift :: !HidesItself(alnum, keyword, shift)
    requires WordOccurs(alnum, name, keyword)
    ensures ScanFinds(alnum, name, keyword)
  {
    var i: nat :| WordAt(alnum, name, keyword, i);
    var matches := MatchIndices(name, keyword, 0);
    if i in matches {
      var k :| 0 <= k < |matches| && matches[k] == i;
      assert IsWholeWord(alnum, name, keyword, matches[k]);
    } else {
      var m := SkippedInsideMatch(name, keyword, 0, i);
      OverlapHides(alnum, name, keyword, m, i);
      assert false;
    }
  }

  /** A name in which a self-hiding keyword stands as a word and the scan does not see it. */
  ghost function HidingName(keyword: string, shift: nat): string
    requires 0 < shift < |keyword|
  {
    [if keyword[0] == 'a' then 'b' else 'a'] + keyword[..shift] + keyword
  }

  lemma HidingNameOccurrences(alnum: char -> bool, keyword: string, shift: nat)
    requires HidesItself(alnum, keyword, shift)
    ensures var name := HidingName(keyword, shift);
            && !OccursAt(name, keyword, 0) && OccursAt(name, keyword, 1) && OccursAt(name, keyword, 1 + shift)
            && MatchIndices(name, keyword, 0) == [1]
  {
    var name := HidingName(keyword, shift);
    assert name[0] != keyword[0];
    assert name[0..|keyword|][0] != keyword[0];
    assert name[1..1 + |keyword|] == keyword by {
      forall k | 0 <= k < |keyword| ensures name[1 + k] == keyword[k] {
        if k >= shift {
          assert keyword[shift..][k - shift] == keyword[..|keyword| - shift][k - shift];
        }
      }
    }
    assert name[1 + shift..1 + shift + |keyword|] == keyword;
    assert FindFrom(name, keyword, 0) == Some(1);
    assert FindFrom(name, keyword, 1 + |keyword|) == None;
    assert MatchIndices(name, keyword, 1 + |keyword|) == [];
  }

  lemma HiddenWord(alnum: char -> bool, keyword: string, shift: nat)
    requires alnum('a') && alnum('b') && HidesItself(alnum, keyword, shift)
    ensures var name := HidingName(keyword, shift);
            WordOccurs(alnum, name, keyword) && !ScanFinds(alnum, name, keyword)
  {
    var name := HidingName(keyword, shift);
    HidingNameOccurrences(alnum, keyword, shift);
    assert name[shift] == keyword[shift - 1];
    assert WordAt(alnum, name, keyword, 1 + shift);
    assert !IsWholeWord(alnum, name, keyword, 1);
  }

  /**
    For exactly which keywords the scan finds every whole word, in every name: those without a
    self-overlap that starts behind a non-alphanumeric character.
   */
  lemma ScanIsCompleteIff(alnum: char -> bool, keyword: string)
    requires alnum('a') && alnum('b')
    ensures (forall name :: ScanFinds(alnum, name, keyword) <==> WordOccurs(alnum, name, keyword)) <==>
            (forall shift :: !HidesItself(alnum, keyword, shift))
  {
    if forall shift :: !HidesItself(alnum, keyword, shift) {
      forall name ensures ScanFinds(alnum, name, keyword) <==> WordOccurs(alnum, name, keyword) {
        if ScanFinds(alnum, name, keyword) {
          ScanIsSound(alnum, name, keyword);
        }
        if WordOccurs(alnum, name, keyword) {
          ScanIsComplete(alnum, name, keyword);
        }
      }
    } else {
      var shift :| HidesItself(alnum, keyword, shift);
      HiddenWord(alnum, keyword, shift);
    }
  }

  /** In particular every keyword made only of alphanumeric characters, even one that overlaps itself. */
  lemma AlphanumericKeywordsAreFound(alnum: char -> bool, name: string, keyword: string)
    requires forall i :: 0 <= i < |keyword| ==> alnum(keyword[i])
    ensures ScanFinds(alnum, name, keyword) <==> WordOccurs(alnum, name, keyword)
  {
    if ScanFinds(alnum, name, keyword) {
      ScanIsSound(alnum, name, keyword);
    }
    if WordOccurs(alnum, name, keyword) {
      forall shift: nat ensures !HidesItself(alnum, keyword, shift) {
      }
      ScanIsComplete(alnum, name, keyword);
    }
  }

  /** For a list of keywords that do not hide themselves, the test finds a word of the list if there is one. */
  lemma HasKeywordIff(alnum: char -> bool, name: string, keywords: seq<string>)
    requires forall k, shift :: 0 <= k < |keywords| ==> !HidesItself(alnum, keywords[k], shift)
    ensures HasKeyword(alnum, name, keywords) <==>
            exists k :: 0 <= k < |keywords| && WordOccurs(alnum, name, keywords[k])
  {
    if k :| 0 <= k < |keywords| && ScanFinds(alnum, name, keywords[k]) {
      ScanIsSound(alnum, name, keywords[k]);
    }
    if k :| 0 <= k < |keywords| && WordOccurs(alnum, name, keywords[k]) {
      ScanIsComplete(alnum, name, keywords[k]);
    }
  }

  /** The keywords of the account type inference that are more than one word. */
  const PHRASES := [
    "money market", "cash mgmt", "cash management", "high yield", "american express", "blue cash", "line of credit"]

  /** Where the words of a phrase start, other than the first. */
  ghost predicate WordStart(keyword: string, i: nat) {
    0 < i < |keyword| && !('a' <= keyword[i - 1] <= 'z')
  }

  lemma PhraseWordStarts(keyword: string, i: nat)
    requires keyword in PHRASES && WordStart(keyword, i)
    ensures keyword[i] != keyword[0] || (i + 1 < |keyword| && keyword[i + 1] != keyword[1])
  {
    if keyword == "money market" {
    } else if keyword == "cash mgmt" {
    } else if keyword == "cash management" {
    } else if keyword == "high yield" {
    } else if keyword == "american express" {
    } else if keyword == "blue cash" {
    } else {
      assert keyword == "line of credit";
    }
  }

  lemma SameStart(alnum: char -> bool, keyword: string, shift: nat)
    requires HidesItself(alnum, keyword, shift)
    ensures keyword[shift] == keyword[0] && (shift + 1 < |keyword| ==> keyword[shift + 1] == keyword[1])
  {
    assert keyword[shift..][0] == keyword[..|keyword| - shift][0];
    if shift + 1 < |keyword| {
      assert keyword[shift..][1] == keyword[..|keyword| - shift][1];
    }
  }

  /** No phrase hides itself, so the scan is complete for the phrases too. */
  lemma PhrasesAreFound(alnum: char -> bool, name: string, keyword: string)
    requires forall c :: 'a' <= c <= 'z' ==> alnum(c)
    requires keyword in PHRASES
    ensures ScanFinds(alnum, name, keyword) <==> WordOccurs(alnum, name, keyword)
  {
    forall shift: nat ensures !HidesItself(alnum, keyword, shift) {
      if HidesItself(alnum, keyword, shift) {
        PhraseWordStarts(keyword, shift);
        SameStart(alnum, keyword, shift);
        assert false;
      }
    }
    ScanIsCompleteIff(alnum, keyword);
  }
}
