/**
 The string surgery `evaluate` performs before it looks at any token:
 `trimEnd()`, the regular-expression replacement of `\s+` by one space,
 and `split(" ")`, which keeps empty pieces.
 */
module Text {

  /** Kotlin's `Char.isWhitespace` (Java's `isWhitespace` or `isSpaceChar`):
      the characters `trimEnd()` strips. */
  predicate IsWhitespace(c: char) {
    || '\t' <= c <= '\r'
    || '\U{1C}' <= c <= ' '
    || c == '\U{A0}' || c == '\U{1680}'
    || '\U{2000}' <= c <= '\U{200A}'
    || c == '\U{2028}' || c == '\U{2029}' || c == '\U{202F}'
    || c == '\U{205F}' || c == '\U{3000}'
  }

  /** The regular-expression class `\s` (without UNICODE_CHARACTER_CLASS):
      space, tab, line feed, vertical tab, form feed, carriage return. */
  predicate IsRegexSpace(c: char) {
    c == ' ' || '\t' <= c <= '\r'
  }

  /** The characters of `s` that are not `\s`, in order. */
  function Squeeze(s: string): string
    decreases |s|
  {
    if s == [] then []
    else if IsRegexSpace(s[0]) then Squeeze(s[1..])
    else [s[0]] + Squeeze(s[1..])
  }

  /** The only `\s` character left is the plain space. */
  predicate NoStraySpace(s: string) {
    forall i :: 0 <= i < |s| && IsRegexSpace(s[i]) ==> s[i] == ' '
  }

  /** No two spaces in a row. */
  predicate NoDoubleSpace(s: string) {
    forall i :: 0 <= i < |s| - 1 && s[i] == ' ' ==> s[i + 1] != ' '
  }

  /** What a normalised current entry looks like. */
  predicate Normalized(s: string) {
    && (s == [] || !IsWhitespace(s[|s| - 1]))
    && NoStraySpace(s)
    && NoDoubleSpace(s)
  }

  /** `trimEnd()`: the longest prefix of `s` not ending in whitespace. */
  function TrimEnd(s: string): (r: string)
    ensures r <= s
    ensures r == [] || !IsWhitespace(r[|r| - 1])
    ensures forall i :: |r| <= i < |s| ==> IsWhitespace(s[i])
    decreases |s|
  {
    if s == [] || !IsWhitespace(s[|s| - 1]) then s else TrimEnd(s[..|s| - 1])
  }

  /** Drops the run of `\s` characters at the front of `s`. */
  function DropSpaceRun(s: string): (r: string)
    ensures |r| <= |s| && r == s[|s| - |r|..]
    ensures r == [] || !IsRegexSpace(r[0])
    ensures forall i :: 0 <= i < |s| - |r| ==> IsRegexSpace(s[i])
    ensures Squeeze(r) == Squeeze(s)
    decreases |s|
  {
    if s != [] && IsRegexSpace(s[0]) then
      var r := DropSpaceRun(s[1..]);
      assert s[1..][|s[1..]| - |r|..] == s[|s| - |r|..];
      assert forall i :: 0 < i < |s| - |r| ==> s[i] == s[1..][i - 1];
      r
    else s
  }

  /** `replace("\\s+".toRegex(), " ")`: every maximal run of `\s` becomes one space. */
  function CollapseSpaces(s: string): (r: string)
    ensures NoStraySpace(r) && NoDoubleSpace(r)
    ensures Squeeze(r) == Squeeze(s)
    ensures r == [] <==> s == []
    ensures s != [] ==> (r[0] == ' ' <==> IsRegexSpace(s[0]))
    ensures s != [] && !IsRegexSpace(s[|s| - 1]) ==> r[|r| - 1] == s[|s| - 1]
    decreases |s|
  {
    if s == [] then []
    else if IsRegexSpace(s[0]) then " " + CollapseSpaces(DropSpaceRun(s))
    else [s[0]] + CollapseSpaces(s[1..])
  }

  /** The current entry as `evaluate` appends it: `trimEnd()` then the `\s+` replacement. */
  function Normalize(entry: string): (r: string)
    ensures Normalized(r)
    ensures Squeeze(r) == Squeeze(TrimEnd(entry))
  {
    CollapseSpaces(TrimEnd(entry))
  }

  lemma {:induction false} CollapseFixes(s: string)
    requires NoStraySpace(s) && NoDoubleSpace(s)
    ensures CollapseSpaces(s) == s
    decreases |s|
  {
    if s != [] {
      assert NoStraySpace(s[1..]) && NoDoubleSpace(s[1..]) by {
        forall i | 0 <= i < |s[1..]| ensures IsRegexSpace(s[1..][i]) ==> s[1..][i] == ' ' {
          assert s[1..][i] == s[i + 1];
        }
        forall i | 0 <= i < |s[1..]| - 1 && s[1..][i] == ' ' ensures s[1..][i + 1] != ' ' {
          assert s[1..][i] == s[i + 1];
        }
      }
      CollapseFixes(s[1..]);
      if IsRegexSpace(s[0]) {
        assert s[0] == ' ';
        assert DropSpaceRun(s) == s[1..];
      }
    }
  }

  /** Normalising is idempotent: an already normalised entry is left alone. */
  lemma {:induction false} NormalizeFixes(s: string)
    requires Normalized(s)
    ensures Normalize(s) == s
  {
    assert TrimEnd(s) == s;
    CollapseFixes(s);
  }

  /** No `\s` character at all. */
  predicate NoRegexSpace(w: string) {
    forall j :: 0 <= j < |w| ==> !IsRegexSpace(w[j])
  }

  lemma NoRegexSpaceHasNoSpace(w: string)
    requires NoRegexSpace(w)
    ensures ' ' !in w
  {
  }

  /** The longest prefix of `s` free of `\s`. */
  function FrontWord(s: string): (w: string)
    ensures w <= s && NoRegexSpace(w)
    ensures |w| < |s| ==> IsRegexSpace(s[|w|])
    ensures s != [] && !IsRegexSpace(s[0]) ==> w != []
    decreases |s|
  {
    if s == [] || IsRegexSpace(s[0]) then []
    else
      var rest := FrontWord(s[1..]);
      assert s == [s[0]] + s[1..];
      [s[0]] + rest
  }

  /** The words of a line: its maximal runs of non-`\s` characters, in order.
      This is the reference the `\s+` replacement is measured against. */
  function Words(s: string): (r: seq<string>)
    ensures forall i :: 0 <= i < |r| ==> r[i] != [] && NoRegexSpace(r[i])
    decreases |s|
  {
    if s == [] then []
    else if IsRegexSpace(s[0]) then Words(s[1..])
    else
      var w := FrontWord(s);
      [w] + Words(s[|w|..])
  }

  /** A character other than `\s` passes through the replacement. */
  lemma CollapseLetter(c: char, x: string)
    requires !IsRegexSpace(c)
    ensures CollapseSpaces([c] + x) == [c] + CollapseSpaces(x)
  {
    assert ([c] + x)[1..] == x;
  }

  /** A `\s`-free word in front passes through the replacement untouched. */
  lemma {:induction false} CollapseWord(w: string, x: string)
    requires NoRegexSpace(w)
    ensures CollapseSpaces(w + x) == w + CollapseSpaces(x)
    decreases |w|
  {
    if w == [] {
      assert w + x == x;
    } else {
      NoRegexSpaceTail(w);
      ConsAppend(w, x);
      ConsAppend(w, CollapseSpaces(x));
      CollapseLetter(w[0], w[1..] + x);
      CollapseWord(w[1..], x);
    }
  }

  lemma NoRegexSpaceTail(w: string)
    requires w != [] && NoRegexSpace(w)
    ensures !IsRegexSpace(w[0]) && NoRegexSpace(w[1..])
  {
    forall j | 0 <= j < |w[1..]| ensures !IsRegexSpace(w[1..][j]) {
      assert w[1..][j] == w[j + 1];
    }
  }

  lemma ConsAppend(w: string, x: string)
    requires w != []
    ensures w + x == [w[0]] + (w[1..] + x)
  {
  }

  /** Leading `\s` characters carry no word. */
  lemma {:induction false} WordsSkipSpaces(s: string)
    ensures Words(DropSpaceRun(s)) == Words(s)
    decreases |s|
  {
    if s != [] && IsRegexSpace(s[0]) {
      WordsSkipSpaces(s[1..]);
    }
  }

  /** A leading run of `\s` becomes a single space. */
  lemma CollapseSpaceRun(s: string)
    requires s != [] && IsRegexSpace(s[0])
    ensures CollapseSpaces(s) == " " + CollapseSpaces(DropSpaceRun(s))
  {
  }

  /** Dropping the leading `\s` of a line that ends in a word leaves a line
      that starts and ends with a word. */
  lemma DropSpaceRunKeepsLast(s: string)
    requires s != [] && !IsRegexSpace(s[|s| - 1])
    ensures var v := DropSpaceRun(s);
      v != [] && !IsRegexSpace(v[0]) && v[|v| - 1] == s[|s| - 1]
  {
  }

  /** A line that starts with a word is that word, then the rest. */
  lemma FrontWordSplit(u: string)
    requires u != [] && !IsRegexSpace(u[0])
    ensures var w := FrontWord(u);
      && |w| <= |u|
      && u == w + u[|w|..]
      && Words(u) == [w] + Words(u[|w|..])
      && (|w| < |u| ==> IsRegexSpace(u[|w|..][0]) && u[|w|..][|u| - |w| - 1] == u[|u| - 1])
  {
    var w := FrontWord(u);
    var rest := u[|w|..];
    assert u[..|w|] == w;
    assert u == w + rest;
    assert Words(u) == [w] + Words(rest);
  }

  /** On a line that starts and ends with a word, the replacement leaves
      exactly the words, one space between each two. */
  lemma {:induction false} CollapseIsJoin(u: string)
    requires u != [] && !IsRegexSpace(u[0]) && !IsRegexSpace(u[|u| - 1])
    ensures Words(u) != [] && CollapseSpaces(u) == Join(Words(u))
    decreases |u|
  {
    var w := FrontWord(u);
    var rest := u[|w|..];
    FrontWordSplit(u);
    CollapseWord(w, rest);
    if rest != [] {
      assert |rest| == |u| - |w|;
      assert rest[|rest| - 1] == u[|u| - 1];
      assert !IsRegexSpace(rest[|rest| - 1]);
      var v := DropSpaceRun(rest);
      DropSpaceRunKeepsLast(rest);
      CollapseIsJoin(v);
      WordsSkipSpaces(rest);
      CollapseSpaceRun(rest);
      var ws := Words(v);
      JoinCons(w, ws);
      SpacedJoin(w, CollapseSpaces(rest), Join(ws));
    } else {
      assert CollapseSpaces(u) == w + [];
    }
  }

  /** The `\s+` replacement on a line ending in a word: a single space for
      a leading run of `\s`, then the words joined by single spaces. */
  lemma CollapseWords(s: string)
    requires s != [] && !IsRegexSpace(s[|s| - 1])
    ensures Words(s) != []
    ensures IsRegexSpace(s[0]) ==> CollapseSpaces(s) == " " + Join(Words(s))
    ensures !IsRegexSpace(s[0]) ==> CollapseSpaces(s) == Join(Words(s))
  {
    if IsRegexSpace(s[0]) {
      var v := DropSpaceRun(s);
      DropSpaceRunKeepsLast(s);
      CollapseIsJoin(v);
      WordsSkipSpaces(s);
      CollapseSpaceRun(s);
      assert Words(s) == Words(v);
    } else {
      CollapseIsJoin(s);
    }
  }

  /** The pieces `split(" ")` makes of a normalised entry are the entry's
      words, after an empty piece when the entry starts with `\s`; a blank
      entry gives the single empty piece. */
  lemma NormalizeWords(entry: string)
    ensures var t := TrimEnd(entry);
      Split(Normalize(entry))
      == if t == [] then [""] else if IsRegexSpace(t[0]) then [""] + Words(t) else Words(t)
  {
    var t := TrimEnd(entry);
    if t != [] {
      assert !IsRegexSpace(t[|t| - 1]);
      SplitCollapse(t);
    }
  }

  lemma SplitCollapse(t: string)
    requires t != [] && !IsRegexSpace(t[|t| - 1])
    ensures Split(CollapseSpaces(t)) == if IsRegexSpace(t[0]) then [""] + Words(t) else Words(t)
  {
    CollapseWords(t);
    var ws := Words(t);
    SplitWords(ws);
    if IsRegexSpace(t[0]) {
      SplitLeadingSpace(Join(ws));
    }
  }

  lemma SplitLeadingSpace(b: string)
    ensures Split(" " + b) == [""] + Split(b)
  {
    assert (" " + b)[1..] == b;
  }

  /** Words joined by single spaces split back into the same words. */
  lemma SplitWords(ws: seq<string>)
    requires ws != []
    requires forall i :: 0 <= i < |ws| ==> NoRegexSpace(ws[i])
    ensures Split(Join(ws)) == ws
  {
    forall i | 0 <= i < |ws| ensures ' ' !in ws[i] {
      NoRegexSpaceHasNoSpace(ws[i]);
    }
    SplitJoin(ws);
  }

  /** `joinToString(" ")`: the inverse of `Split`. */
  function Join(words: seq<string>): string
    decreases |words|
  {
    if |words| == 0 then ""
    else if |words| == 1 then words[0]
    else words[0] + " " + Join(words[1..])
  }

  lemma SpacedJoin(w: string, tail: string, joined: string)
    requires tail == " " + joined
    ensures w + tail == w + " " + joined
  {
  }

  lemma JoinCons(w: string, ws: seq<string>)
    requires ws != []
    ensures Join([w] + ws) == w + " " + Join(ws)
  {
    assert ([w] + ws)[1..] == ws;
  }

  /** Kotlin's `split(" ")`: the pieces between single spaces, empty pieces
      included, so `""` splits into `[""]` and `"5 "` into `["5", ""]`. */
  function Split(s: string): (r: seq<string>)
    ensures |r| >= 1
    ensures forall i :: 0 <= i < |r| ==> ' ' !in r[i]
    ensures Join(r) == s
    decreases |s|
  {
    if s == [] then [""]
    else
      var rest := Split(s[1..]);
      if s[0] == ' ' then
        assert Join([""] + rest) == " " + Join(rest) by {
          assert ([""] + rest)[1..] == rest;
        }
        [""] + rest
      else
        var first := [s[0]] + rest[0];
        assert Join([first] + rest[1..]) == [s[0]] + Join(rest) by {
          if |rest| > 1 {
            assert ([first] + rest[1..])[1..] == rest[1..];
          }
        }
        [first] + rest[1..]
  }

  lemma {:induction false} SplitWord(a: string)
    requires ' ' !in a
    ensures Split(a) == [a]
    decreases |a|
  {
    if a != [] {
      SplitWord(a[1..]);
      assert [a[0]] + a[1..] == a;
    }
  }

  /** A word followed by a space splits off as the first token. */
  lemma {:induction false} SplitPrefix(a: string, b: string)
    requires ' ' !in a
    ensures Split(a + " " + b) == [a] + Split(b)
    decreases |a|
  {
    if a == [] {
      assert (" " + b)[1..] == b;
    } else {
      assert (a + " " + b)[1..] == a[1..] + " " + b;
      SplitPrefix(a[1..], b);
      assert [a[0]] + a[1..] == a;
    }
  }

  /** `Split` inverts `Join` on words without spaces. */
  lemma {:induction false} SplitJoin(words: seq<string>)
    requires |words| >= 1
    requires forall i :: 0 <= i < |words| ==> ' ' !in words[i]
    ensures Split(Join(words)) == words
    decreases |words|
  {
    if |words| == 1 {
      SplitWord(words[0]);
    } else {
      SplitJoin(words[1..]);
      SplitPrefix(words[0], Join(words[1..]));
    }
  }

  /** An empty string or one ending in a space splits with an empty last token. */
  lemma {:induction false} SplitTrailingEmpty(s: string)
    requires s == [] || s[|s| - 1] == ' '
    ensures Split(s)[|Split(s)| - 1] == ""
    decreases |s|
  {
    if s != [] {
      if |s| > 1 {
        assert s[1..][|s[1..]| - 1] == ' ';
      }
      SplitTrailingEmpty(s[1..]);
    }
  }

  /** Each word followed by one space, the way a stack is written out. */
  function Terminated(words: seq<string>): (r: string)
    ensures r == [] <==> words == []
    ensures r != [] ==> r[|r| - 1] == ' '
    decreases |words|
  {
    if words == [] then ""
    else Terminated(words[..|words| - 1]) + words[|words| - 1] + " "
  }

  lemma TerminatedRegroup(a: string, w: string, b: string)
    ensures a + w + " " + b == a + (w + " " + b)
  {
  }

  /** Space-terminated words followed by more text split back into the
      words, then the pieces of that text. */
  lemma {:induction false} SplitTerminated(words: seq<string>, next: string)
    requires forall i :: 0 <= i < |words| ==> ' ' !in words[i]
    ensures Split(Terminated(words) + next) == words + Split(next)
    decreases |words|
  {
    if words == [] {
      assert "" + next == next;
    } else {
      var below, word := words[..|words| - 1], words[|words| - 1];
      calc {
        Split(Terminated(words) + next);
        { assert Terminated(words) == Terminated(below) + word + " ";
          TerminatedRegroup(Terminated(below), word, next); }
        Split(Terminated(below) + (word + " " + next));
        { SplitTerminated(below, word + " " + next); }
        below + Split(word + " " + next);
        { SplitPrefix(word, next); }
        below + ([word] + Split(next));
        { assert below + [word] == words; }
        words + Split(next);
      }
    }
  }
}
