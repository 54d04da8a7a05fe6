/**
 * `format_str` of note_editor/pdf_maker.py: the free-text body of a note is
 * set in a monospaced font by a renderer without tab stops, so every tab is
 * replaced by the spaces that reach the next multiple of 8 columns, line by
 * line. Line splitting follows `Strings.SplitLines` ('\n' only).
 */
module TabExpansion {
  import opened Strings

  const TabSize: nat := 8

  /** The number of spaces a tab found at column `col` becomes: 8 - col % 8. */
  function TabWidth(col: nat): (w: nat)
    ensures 1 <= w <= TabSize
    ensures (col + w) % TabSize == 0
  {
    TabSize - col % TabSize
  }

  /** Reference definition: `s` starting at column `col`, each tab widened to the next tab stop. */
  function ExpandFrom(col: nat, s: string): string
    decreases |s|
  {
    if s == [] then []
    else if s[0] == '\t' then Spaces(TabWidth(col)) + ExpandFrom(col + TabWidth(col), s[1..])
    else [s[0]] + ExpandFrom(col + 1, s[1..])
  }

  /** A whole line, which starts at column 0. */
  function Expand(line: string): string
  {
    ExpandFrom(0, line)
  }

  lemma {:induction false} ExpandFromNoTab(col: nat, s: string)
    ensures '\t' !in ExpandFrom(col, s)
    decreases |s|
  {
    if s != [] {
      if s[0] == '\t' {
        ExpandFromNoTab(col + TabWidth(col), s[1..]);
      } else {
        ExpandFromNoTab(col + 1, s[1..]);
      }
    }
  }

  /** Expansion adds only spaces: any other character is in the result exactly when it is in the line. */
  lemma {:induction false} ExpandFromKeeps(col: nat, s: string, c: char)
    requires c != ' ' && c != '\t'
    ensures c in ExpandFrom(col, s) <==> c in s
    decreases |s|
  {
    if s != [] {
      assert s == [s[0]] + s[1..];
      if s[0] == '\t' {
        ExpandFromKeeps(col + TabWidth(col), s[1..], c);
        assert c !in Spaces(TabWidth(col));
      } else {
        ExpandFromKeeps(col + 1, s[1..], c);
      }
    }
  }

  /** A line without tabs is left as it is. */
  lemma {:induction false} ExpandFromTabFree(col: nat, s: string)
    requires '\t' !in s
    ensures ExpandFrom(col, s) == s
    decreases |s|
  {
    if s != [] {
      assert s == [s[0]] + s[1..];
      ExpandFromTabFree(col + 1, s[1..]);
    }
  }

  lemma {:induction false} ExpandFromEmpty(col: nat, s: string)
    ensures ExpandFrom(col, s) == [] <==> s == []
  {
  }

  /**
   * The first tab, after the tab-free text `u`, sits at column `col + |u|`;
   * it becomes 1 to 8 spaces, after which the text goes on at a multiple of 8.
   */
  lemma {:induction false} ExpandFromTab(col: nat, u: string, v: string)
    requires '\t' !in u
    ensures ExpandFrom(col, u + ['\t'] + v)
            == u + Spaces(TabWidth(col + |u|)) + ExpandFrom(col + |u| + TabWidth(col + |u|), v)
    decreases |u|
  {
    if u == [] {
      assert u + ['\t'] + v == ['\t'] + v;
    } else {
      assert u + ['\t'] + v == [u[0]] + (u[1..] + ['\t'] + v);
      assert u == [u[0]] + u[1..];
      ExpandFromTab(col + 1, u[1..], v);
    }
  }

  /** Two worked examples: "a\tb" gets 7 spaces, "abcdefgh\ti" a full 8. */
  lemma ExpandExampleShort()
    ensures Expand("a\tb") == "a" + Spaces(7) + "b"
  {
    var u, v := "a", "b";
    assert "a\tb" == u + ['\t'] + v;
    ExpandFromTab(0, u, v);
    assert TabWidth(1) == 7;
    ExpandFromTabFree(8, v);
  }

  lemma ExpandExampleAtStop()
    ensures Expand("abcdefgh\ti") == "abcdefgh" + Spaces(8) + "i"
  {
    var u, v := "abcdefgh", "i";
    assert "abcdefgh\ti" == u + ['\t'] + v;
    assert ExpandFrom(0, u + ['\t'] + v) == u + Spaces(8) + ExpandFrom(16, v) by {
      ExpandFromTab(0, u, v);
    }
    ExpandFromTabFree(16, v);
  }

  /** Where the first tab of `done + rest` is when `done` holds none. */
  lemma FindAfterTabFree(done: string, rest: string)
    requires '\t' !in done && '\t' in rest
    ensures Find(done + rest, '\t') == |done| + Find(rest, '\t')
  {
    var line := done + rest;
    var j := Find(rest, '\t');
    assert line[|done| + j] == '\t';
    assert line[..|done| + j] == done + rest[..j];
  }

  /** Replacing the first tab by spaces leaves one tab fewer. */
  lemma ReplaceFirstTabCount(s: string, w: string)
    requires '\t' in s && '\t' !in w
    ensures multiset(ReplaceFirst(s, '\t', w))['\t'] == multiset(s)['\t'] - 1
  {
    var p := Find(s, '\t');
    assert s == s[..p] + ['\t'] + s[p + 1..];
    assert multiset(s) == multiset(s[..p]) + multiset{'\t'} + multiset(s[p + 1..]);
    assert multiset(w)['\t'] == 0;
  }

  lemma TakeAfter(x: string, y: string, j: nat)
    requires j <= |y|
    ensures (x + y)[..|x| + j] == x + y[..j]
  {
  }

  lemma DropAfter(x: string, y: string, j: nat)
    requires j <= |y|
    ensures (x + y)[|x| + j..] == y[j..]
  {
  }

  lemma ReplaceRegroup(done: string, rest: string, ws: string, j: nat)
    requires j < |rest|
    requires ReplaceFirst(done + rest, '\t', ws)
             == (done + rest)[..|done| + j] + ws + (done + rest)[|done| + j + 1..]
    ensures ReplaceFirst(done + rest, '\t', ws) == done + rest[..j] + ws + rest[j + 1..]
  {
    TakeAfter(done, rest, j);
    DropAfter(done, rest, j + 1);
  }

  /** Replacing the first tab of `done + rest`, where `done` holds none, replaces the first tab of `rest`. */
  lemma ReplaceAfterTabFree(done: string, rest: string, ws: string)
    requires '\t' !in done && '\t' in rest
    ensures ReplaceFirst(done + rest, '\t', ws)
            == done + rest[..Find(rest, '\t')] + ws + rest[Find(rest, '\t') + 1..]
  {
    var line := done + rest;
    var j := Find(rest, '\t');
    assert Find(line, '\t') == |done| + j by {
      FindAfterTabFree(done, rest);
    }
    assert ReplaceFirst(line, '\t', ws) == line[..|done| + j] + ws + line[|done| + j + 1..] by {
      assert line[|done| + j] == '\t';
    }
    ReplaceRegroup(done, rest, ws, j);
  }

  lemma Regroup(a: string, b: string, c: string, d: string)
    ensures a + (b + c + d) == (a + b + c) + d
  {
  }

  /** The text moved into the expanded part holds no tab. */
  lemma StepTabFree(done: string, rest: string, ws: string)
    requires '\t' !in done && '\t' in rest && '\t' !in ws
    ensures '\t' !in done + rest[..Find(rest, '\t')] + ws
  {
    var j := Find(rest, '\t');
    assert '\t' !in rest[..j];
  }

  /** `ExpandFromTab` read at the first tab of `s`, found at `j`. */
  lemma ExpandFromFirstTab(col: nat, s: string, j: nat, ws: string, col': nat)
    requires '\t' in s && j == Find(s, '\t')
    requires ws == Spaces(TabWidth(col + j)) && col' == col + j + TabWidth(col + j)
    ensures ExpandFrom(col, s) == s[..j] + ws + ExpandFrom(col', s[j + 1..])
  {
    assert s == s[..j] + ['\t'] + s[j + 1..];
    ExpandFromTab(col, s[..j], s[j + 1..]);
  }

  /**
   * One round of the loop of `ExpandLine` keeps its invariant: with `done`
   * expanded and tab-free, the text of `rest` up to its first tab, at `j`,
   * and the spaces `ws` that replace that tab join the expanded part, which
   * then ends at column `col'`.
   */
  lemma ExpandStep(original: string, done: string, rest: string, j: nat, ws: string, col': nat)
    requires '\t' in rest && j == Find(rest, '\t')
    requires ws == Spaces(TabWidth(|done| + j)) && col' == |done| + j + TabWidth(|done| + j)
    requires Expand(original) == done + ExpandFrom(|done|, rest)
    ensures Expand(original) == (done + rest[..j] + ws) + ExpandFrom(col', rest[j + 1..])
  {
    ExpandFromFirstTab(|done|, rest, j, ws, col');
    Regroup(done, rest[..j], ws, ExpandFrom(col', rest[j + 1..]));
  }

  /** `line.find('\t')` / `line.replace('\t', white_space, 1)` until no tab is left. */
  method ExpandLine(original: string) returns (line: string)
    ensures line == Expand(original)
  {
    line := original;
    ghost var done: string := [];
    ghost var rest := original;
    while Find(line, '\t') != -1
      invariant line == done + rest
      invariant '\t' !in done
      invariant Expand(original) == done + ExpandFrom(|done|, rest)
      decreases |rest|
    {
      var tabPos := Find(line, '\t');
      var whiteSpace := Spaces(TabSize - tabPos % TabSize);
      ghost var j := Find(rest, '\t');
      assert tabPos == |done| + j by {
        FindAfterTabFree(done, rest);
      }
      assert whiteSpace == Spaces(TabWidth(|done| + j));
      ghost var done' := done + rest[..j] + whiteSpace;
      ghost var col' := |done| + j + TabWidth(|done| + j);
      assert |done'| == col';
      assert Expand(original) == done' + ExpandFrom(col', rest[j + 1..]) by {
        ExpandStep(original, done, rest, j, whiteSpace, col');
      }
      assert '\t' !in done' by {
        StepTabFree(done, rest, whiteSpace);
      }
      assert ReplaceFirst(line, '\t', whiteSpace) == done' + rest[j + 1..] by {
        ReplaceAfterTabFree(done, rest, whiteSpace);
      }
      line := ReplaceFirst(line, '\t', whiteSpace);
      done, rest := done', rest[j + 1..];
    }
    ExpandFromTabFree(|done|, rest);
  }

  /** The lines of the text, each with its tabs expanded. */
  function ExpandedLines(s: string): (lines: seq<string>)
    ensures |lines| == |SplitLines(s)|
  {
    var split := SplitLines(s);
    seq(|split|, k requires 0 <= k < |split| => Expand(split[k]))
  }

  /** What `format_str` returns: the expanded lines joined by '\n'. */
  function Formatted(s: string): string
  {
    Join(ExpandedLines(s))
  }

  /** `format_str`. */
  method FormatStr(s: string) returns (r: string)
    ensures r == Formatted(s)
  {
    var splitStr := SplitLines(s);
    var splitStrNew: seq<string> := [];
    for k := 0 to |splitStr|
      invariant |splitStrNew| == k
      invariant forall m :: 0 <= m < k ==> splitStrNew[m] == Expand(splitStr[m])
    {
      var line := ExpandLine(splitStr[k]);
      splitStrNew := splitStrNew + [line];
    }
    assert splitStrNew == ExpandedLines(s);
    r := Join(splitStrNew);
  }

  /** The formatted text holds no tab. */
  lemma FormattedHasNoTab(s: string)
    ensures '\t' !in Formatted(s)
  {
    var lines := ExpandedLines(s);
    forall k | 0 <= k < |lines|
      ensures '\t' !in lines[k]
    {
      ExpandFromNoTab(0, SplitLines(s)[k]);
    }
    JoinContains(lines, '\t');
  }

  /** A text without tabs comes back unchanged, less a final newline. */
  lemma FormattedTabFree(s: string)
    requires '\t' !in s
    ensures Formatted(s) == DropFinalNewline(s)
  {
    var split := SplitLines(s);
    JoinSplitLines(s);
    assert '\t' !in DropFinalNewline(s);
    JoinContains(split, '\t');
    forall k | 0 <= k < |split|
      ensures Expand(split[k]) == split[k]
    {
      ExpandFromTabFree(0, split[k]);
    }
    assert ExpandedLines(s) == split;
  }

  /**
   * Line structure is kept: splitting the output again gives one expanded
   * line per input line (when the last line is not empty, since a final
   * empty line is lost on joining).
   */
  lemma FormattedLines(s: string)
    requires SplitLines(s) == [] || SplitLines(s)[|SplitLines(s)| - 1] != []
    ensures SplitLines(Formatted(s)) == ExpandedLines(s)
  {
    var split := SplitLines(s);
    var lines := ExpandedLines(s);
    SplitLinesNoNewline(s);
    forall k | 0 <= k < |lines|
      ensures '\n' !in lines[k]
    {
      ExpandFromKeeps(0, split[k], '\n');
    }
    if split != [] {
      ExpandFromEmpty(0, split[|split| - 1]);
    }
    SplitLinesJoin(lines);
  }

  // ----- the visible characters survive expansion -----

  /** The characters of `s` other than spaces and tabs, in order. */
  function Visible(s: string): string
  {
    if s == [] then []
    else if s[0] == ' ' || s[0] == '\t' then Visible(s[1..])
    else [s[0]] + Visible(s[1..])
  }

  lemma {:induction false} VisibleConcat(a: string, b: string)
    ensures Visible(a + b) == Visible(a) + Visible(b)
  {
    if a == [] {
      assert a + b == b;
    } else {
      assert (a + b)[0] == a[0] && (a + b)[1..] == a[1..] + b;
      VisibleConcat(a[1..], b);
    }
  }

  lemma {:induction false} VisibleSpaces(n: nat)
    ensures Visible(Spaces(n)) == []
  {
    if n > 0 {
      assert Spaces(n)[1..] == Spaces(n - 1);
      VisibleSpaces(n - 1);
    }
  }

  /** Dropping spaces and tabs from a line and from its expansion gives the same text. */
  lemma {:induction false} VisibleExpandFrom(col: nat, s: string)
    ensures Visible(ExpandFrom(col, s)) == Visible(s)
    decreases |s|
  {
    if s != [] {
      if s[0] == '\t' {
        var w := TabWidth(col);
        var e := ExpandFrom(col + w, s[1..]);
        assert ExpandFrom(col, s) == Spaces(w) + e;
        VisibleExpandFrom(col + w, s[1..]);
        VisibleConcat(Spaces(w), e);
        VisibleSpaces(w);
        assert Visible(s) == Visible(s[1..]);
      } else {
        var e := ExpandFrom(col + 1, s[1..]);
        assert ExpandFrom(col, s) == [s[0]] + e;
        VisibleExpandFrom(col + 1, s[1..]);
        VisibleConcat([s[0]], e);
      }
    }
  }

  lemma {:induction false} VisibleJoin(a: seq<string>, b: seq<string>)
    requires |a| == |b|
    requires forall k :: 0 <= k < |a| ==> Visible(a[k]) == Visible(b[k])
    ensures Visible(Join(a)) == Visible(Join(b))
  {
    if |a| > 1 {
      VisibleJoin(a[1..], b[1..]);
      VisibleConcat(a[0] + "\n", Join(a[1..]));
      VisibleConcat(a[0], "\n");
      VisibleConcat(b[0] + "\n", Join(b[1..]));
      VisibleConcat(b[0], "\n");
    }
  }

  /** Removing the spaces and tabs from the output recovers the other characters of the text, in order. */
  lemma FormattedVisible(s: string)
    ensures Visible(Formatted(s)) == Visible(DropFinalNewline(s))
  {
    var split := SplitLines(s);
    forall k | 0 <= k < |split|
      ensures Visible(ExpandedLines(s)[k]) == Visible(split[k])
    {
      VisibleExpandFrom(0, split[k]);
    }
    VisibleJoin(ExpandedLines(s), split);
    JoinSplitLines(s);
  }
}
