/**
  Text functions of the Rust standard library. A `string` here holds the Unicode scalar values of a
  Rust `&str`.
 */
module Text {
  import opened Decimal

  /** The White_Space property of Unicode. */
  predicate IsWhitespace(c: char) {
    || '\U{0009}' <= c <= '\U{000D}' || c == ' ' || c == '\U{0085}' || c == '\U{00A0}' || c == '\U{1680}'
    || '\U{2000}' <= c <= '\U{200A}' || c == '\U{2028}' || c == '\U{2029}' || c == '\U{202F}' || c == '\U{205F}'
    || c == '\U{3000}'
  }

  /** The property lists exactly these characters. */
  lemma WhitespaceIsListed(c: char)
    ensures IsWhitespace(c) <==>
            c as int in {0x09, 0x0A, 0x0B, 0x0C, 0x0D, 0x20, 0x85, 0xA0, 0x1680, 0x2000, 0x2001, 0x2002, 0x2003,
                         0x2004, 0x2005, 0x2006, 0x2007, 0x2008, 0x2009, 0x200A, 0x2028, 0x2029, 0x202F, 0x205F,
                         0x3000}
  {
  }

  function TrimStart(s: string): string {
    if s != "" && IsWhitespace(s[0]) then TrimStart(s[1..]) else s
  }

  function TrimEnd(s: string): string {
    if s != "" && IsWhitespace(s[|s| - 1]) then TrimEnd(s[..|s| - 1]) else s
  }

  function Trim(s: string): string {
    TrimEnd(TrimStart(s))
  }

  function StripPrefix(s: string, prefix: string): Option<string> {
    if prefix <= s then Some(s[|prefix|..]) else None
  }

  function Word(s: string): string {
    if s == "" || IsWhitespace(s[0]) then "" else [s[0]] + Word(s[1..])
  }

  /** `split_whitespace`: the maximal runs of other characters. */
  function SplitWhitespace(s: string): seq<string>
    decreases |s|
  {
    if s == "" then []
    else if IsWhitespace(s[0]) then SplitWhitespace(s[1..])
    else
      var word := Word(s);
      WordLength(s);
      [word] + SplitWhitespace(s[|word|..])
  }

  lemma WordLength(s: string)
    ensures |Word(s)| <= |s|
    ensures s != "" && !IsWhitespace(s[0]) ==> |Word(s)| > 0
  {
  }

  function Join(words: seq<string>, separator: string): string {
    if words == [] then ""
    else if |words| == 1 then words[0]
    else words[0] + separator + Join(words[1..], separator)
  }

  predicate IsWord(s: string) {
    s != "" && forall i :: 0 <= i < |s| ==> !IsWhitespace(s[i])
  }

  lemma {:induction false} WordOfWord(word: string, rest: string)
    requires forall i :: 0 <= i < |word| ==> !IsWhitespace(word[i])
    requires rest == "" || IsWhitespace(rest[0])
    ensures Word(word + rest) == word
  {
    if word == "" {
      assert word + rest == rest;
    } else {
      assert (word + rest)[1..] == word[1..] + rest;
      WordOfWord(word[1..], rest);
      assert word == [word[0]] + word[1..];
    }
  }

  /** Words joined by spaces split into the same words. */
  lemma {:induction false} SplitOfJoin(words: seq<string>)
    requires forall i :: 0 <= i < |words| ==> IsWord(words[i])
    ensures SplitWhitespace(Join(words, " ")) == words
  {
    if words != [] {
      var word, rest := words[0], if |words| == 1 then "" else " " + Join(words[1..], " ");
      var joined := Join(words, " ");
      assert joined == word + rest;
      WordOfWord(word, rest);
      assert joined[|word|..] == rest;
      SplitOfJoin(words[1..]);
      assert SplitWhitespace(rest) == words[1..] by {
        if |words| > 1 {
          assert rest[1..] == Join(words[1..], " ");
        }
      }
    }
  }

  predicate Trimmed(s: string) {
    s != "" && !IsWhitespace(s[0]) && !IsWhitespace(s[|s| - 1])
  }

  lemma TrimOfTrimmed(s: string)
    requires Trimmed(s)
    ensures Trim(s) == s && Trim(" " + s) == s && Trim(s + " ") == s
  {
    assert (" " + s)[1..] == s && (s + " ")[..|s|] == s;
  }

  // ----- Blanks of any kind and number

  predicate AllBlank(s: string) {
    forall i :: 0 <= i < |s| ==> IsWhitespace(s[i])
  }

  lemma {:induction false} TrimStartOfBlanks(blanks: string, s: string)
    requires AllBlank(blanks) && (s == "" || !IsWhitespace(s[0]))
    ensures TrimStart(blanks + s) == s
  {
    if blanks == "" {
      assert blanks + s == s;
    } else {
      assert (blanks + s)[1..] == blanks[1..] + s;
      TrimStartOfBlanks(blanks[1..], s);
    }
  }

  lemma {:induction false} TrimEndOfBlanks(s: string, blanks: string)
    requires AllBlank(blanks) && (s == "" || !IsWhitespace(s[|s| - 1]))
    ensures TrimEnd(s + blanks) == s
  {
    if blanks == "" {
      assert s + blanks == s;
    } else {
      assert (s + blanks)[..|s + blanks| - 1] == s + blanks[..|blanks| - 1];
      TrimEndOfBlanks(s, blanks[..|blanks| - 1]);
    }
  }

  lemma {:induction false} TrimEndOfAllBlank(blanks: string)
    requires AllBlank(blanks)
    ensures TrimEnd(blanks) == "" && TrimStart(blanks) == ""
  {
    assert "" + blanks == blanks && blanks + "" == blanks;
    TrimEndOfBlanks("", blanks);
    TrimStartOfBlanks(blanks, "");
  }

  /** Trimming takes off all blanks at both ends and nothing else. */
  lemma TrimOfPadded(before: string, s: string, after: string)
    requires AllBlank(before) && AllBlank(after) && (s == "" || Trimmed(s))
    ensures Trim(before + s + after) == s
  {
    if s == "" {
      assert before + s + after == before + after && AllBlank(before + after);
      TrimEndOfAllBlank(before + after);
    } else {
      assert before + s + after == before + (s + after);
      TrimStartOfBlanks(before, s + after);
      TrimEndOfBlanks(s, after);
    }
  }

  /** The words with blanks in front of, between and behind them. */
  function Spaced(blanks: seq<string>, words: seq<string>): string
    requires |blanks| == |words| + 1
  {
    if words == [] then blanks[0] else blanks[0] + words[0] + Spaced(blanks[1..], words[1..])
  }

  lemma {:induction false} SplitAfterBlanks(blanks: string, s: string)
    requires AllBlank(blanks)
    ensures SplitWhitespace(blanks + s) == SplitWhitespace(s)
  {
    if blanks == "" {
      assert blanks + s == s;
    } else {
      assert (blanks + s)[1..] == blanks[1..] + s;
      SplitAfterBlanks(blanks[1..], s);
    }
  }

  /** A text splits into its words, however they are spaced. */
  lemma {:induction false} SplitOfSpaced(blanks: seq<string>, words: seq<string>)
    requires |blanks| == |words| + 1 && forall i :: 0 <= i < |blanks| ==> AllBlank(blanks[i])
    requires forall i :: 0 < i < |words| ==> blanks[i] != ""
    requires forall i :: 0 <= i < |words| ==> IsWord(words[i])
    ensures SplitWhitespace(Spaced(blanks, words)) == words
  {
    if words == [] {
      assert blanks[0] + "" == blanks[0];
      SplitAfterBlanks(blanks[0], "");
    } else {
      var word, rest := words[0], Spaced(blanks[1..], words[1..]);
      assert Spaced(blanks, words) == blanks[0] + (word + rest);
      SplitAfterBlanks(blanks[0], word + rest);
      assert rest != "" ==> IsWhitespace(rest[0]) by {
        if rest != "" {
          assert blanks[1] != "" ==> rest[0] == blanks[1][0];
        }
      }
      WordOfWord(word, rest);
      assert (word + rest)[0] == word[0] && (word + rest)[|word|..] == rest;
      SplitOfSpaced(blanks[1..], words[1..]);
    }
  }

  /** Joined are all the words, with exactly one separator between each two of them. */
  lemma {:induction false} JoinOneMore(words: seq<string>, separator: string, w: string)
    ensures Join([], separator) == "" && Join([w], separator) == w
    ensures words != [] ==> Join(words + [w], separator) == Join(words, separator) + separator + w
  {
    if |words| == 1 {
      assert (words + [w])[1..] == [w];
    } else if |words| > 1 {
      assert (words + [w])[1..] == words[1..] + [w];
      JoinOneMore(words[1..], separator, w);
    }
  }
}
