/**
 * The handful of Python string operations the note editor relies on,
 * restated over `seq<char>`: `str.find` and `str.replace(old, new, 1)` for a
 * single character, `str.splitlines` and `'\n'.join`, `str(n)` for a natural
 * number, ASCII `casefold`/`capitalize`, and the `<` order on strings.
 */
module Strings {

  /** `s.find(c)`: -1 when `c` does not occur, otherwise the index of its first occurrence. */
  function Find(s: string, c: char): (r: int)
    ensures r == -1 <==> c !in s
    ensures r != -1 ==> 0 <= r < |s| && s[r] == c
    ensures forall k :: 0 <= k < r ==> s[k] != c
  {
    if |s| == 0 then -1
    else if s[0] == c then 0
    else
      var k := Find(s[1..], c);
      if k == -1 then -1 else k + 1
  }

  /** `s.replace(c, w, 1)`: the first occurrence of `c`, if any, is replaced by `w`. */
  function ReplaceFirst(s: string, c: char, w: string): (r: string)
    ensures c !in s ==> r == s
    ensures c in s ==> r == s[..Find(s, c)] + w + s[Find(s, c) + 1..]
  {
    if |s| == 0 then s
    else if s[0] == c then w + s[1..]
    else
      var t := ReplaceFirst(s[1..], c, w);
      assert c in s[1..] ==> s[..Find(s, c)] == [s[0]] + s[1..][..Find(s[1..], c)];
      [s[0]] + t
  }

  /** `''.join([' ' for i in range(n)])`. */
  function Spaces(n: nat): (r: string)
    ensures |r| == n
    ensures forall k :: 0 <= k < n ==> r[k] == ' '
  {
    seq(n, _ => ' ')
  }

  /**
   * `s.splitlines()` restricted to '\n' as the only line boundary: the text
   * between newlines, where a final newline does not open another line.
   */
  function SplitLines(s: string): (lines: seq<string>)
    decreases |s|
  {
    if s == [] then []
    else
      var k := Find(s, '\n');
      if k == -1 then [s] else [s[..k]] + SplitLines(s[k + 1..])
  }

  /** `'\n'.join(lines)`. */
  function Join(lines: seq<string>): (s: string)
  {
    if |lines| == 0 then []
    else if |lines| == 1 then lines[0]
    else lines[0] + "\n" + Join(lines[1..])
  }

  /** `s` without the one line terminator that `splitlines` followed by `join` loses. */
  function DropFinalNewline(s: string): string
  {
    if |s| > 0 && s[|s| - 1] == '\n' then s[..|s| - 1] else s
  }

  lemma {:induction false} SplitLinesNoNewline(s: string)
    ensures forall k :: 0 <= k < |SplitLines(s)| ==> '\n' !in SplitLines(s)[k]
    decreases |s|
  {
    if s != [] {
      var k := Find(s, '\n');
      if k != -1 {
        SplitLinesNoNewline(s[k + 1..]);
      }
    }
  }

  lemma SplitLinesEmpty(s: string)
    ensures SplitLines(s) == [] <==> s == []
  {
  }

  lemma JoinCons(a: string, lines: seq<string>)
    requires lines != []
    ensures Join([a] + lines) == a + "\n" + Join(lines)
  {
    assert ([a] + lines)[1..] == lines;
  }

  /** The split of a text whose first newline sits at `k`. */
  lemma SplitLinesAt(s: string, k: nat)
    requires k < |s| && s[k] == '\n'
    requires forall m :: 0 <= m < k ==> s[m] != '\n'
    ensures SplitLines(s) == [s[..k]] + SplitLines(s[k + 1..])
  {
  }

  lemma DropFinalNewlineAfter(head: string, rest: string)
    requires rest != []
    ensures DropFinalNewline(head + "\n" + rest) == head + "\n" + DropFinalNewline(rest)
  {
    var s := head + "\n" + rest;
    if rest[|rest| - 1] == '\n' {
      assert s[..|s| - 1] == head + "\n" + rest[..|rest| - 1];
    }
  }

  lemma JoinSplitLinesOneLine(s: string)
    requires '\n' !in s
    ensures Join(SplitLines(s)) == DropFinalNewline(s)
  {
    if s != [] {
      assert SplitLines(s) == [s];
      assert s[|s| - 1] != '\n';
    }
  }

  lemma JoinSplitLinesLastLine(head: string)
    requires '\n' !in head
    ensures Join(SplitLines(head + "\n")) == DropFinalNewline(head + "\n")
  {
    var s := head + "\n";
    assert s[..|head|] == head;
    SplitLinesAt(s, |head|);
    assert s[|head| + 1..] == [];
    assert s[..|s| - 1] == head;
  }

  /** Splitting into lines and joining them back gives the text back, less a final newline. */
  lemma {:induction false} JoinSplitLines(s: string)
    ensures Join(SplitLines(s)) == DropFinalNewline(s)
    decreases |s|
  {
    var k := Find(s, '\n');
    if k == -1 {
      JoinSplitLinesOneLine(s);
    } else {
      var head, rest := s[..k], s[k + 1..];
      assert s == head + "\n" + rest;
      if rest == [] {
        JoinSplitLinesLastLine(head);
      } else {
        SplitLinesAt(s, k);
        JoinSplitLines(rest);
        SplitLinesEmpty(rest);
        JoinCons(head, SplitLines(rest));
        DropFinalNewlineAfter(head, rest);
      }
    }
  }

  /** Joining lines that hold no newline, the last of them not empty, and splitting again gives the lines back. */
  lemma {:induction false} SplitLinesJoin(lines: seq<string>)
    requires forall k :: 0 <= k < |lines| ==> '\n' !in lines[k]
    requires lines == [] || lines[|lines| - 1] != []
    ensures SplitLines(Join(lines)) == lines
  {
    if |lines| == 1 {
      assert Find(lines[0], '\n') == -1;
    } else if |lines| > 1 {
      var a, tail := lines[0], lines[1..];
      assert lines == [a] + tail;
      SplitLinesJoin(tail);
      JoinCons(a, tail);
      var t := Join(tail);
      var s := a + "\n" + t;
      assert s[..|a|] == a;
      assert s[|a| + 1..] == t;
      SplitLinesAt(s, |a|);
    }
  }

  /** A character other than '\n' occurs in a join exactly when it occurs in one of the lines. */
  lemma {:induction false} JoinContains(lines: seq<string>, c: char)
    requires c != '\n'
    ensures c in Join(lines) <==> exists k :: 0 <= k < |lines| && c in lines[k]
  {
    if |lines| > 1 {
      JoinContains(lines[1..], c);
      assert Join(lines) == lines[0] + "\n" + Join(lines[1..]);
      if c in Join(lines[1..]) {
        var k :| 0 <= k < |lines[1..]| && c in lines[1..][k];
        assert c in lines[k + 1];
      }
      if exists k :: 0 <= k < |lines| && c in lines[k] {
        var k :| 0 <= k < |lines| && c in lines[k];
        if k > 0 {
          assert c in lines[1..][k - 1];
        }
      }
    }
  }

  // ----- str(n) for natural numbers -----

  function DigitChar(d: nat): (c: char)
    requires d < 10
    ensures '0' <= c <= '9'
  {
    ['0', '1', '2', '3', '4', '5', '6', '7', '8', '9'][d]
  }

  function DigitValue(c: char): (d: nat)
    requires '0' <= c <= '9'
    ensures d < 10 && DigitChar(d) == c
  {
    (c as int - '0' as int) as nat
  }

  /** `str(n)`: the decimal digits of `n`, most significant first, without leading zeros. */
  function NatToString(n: nat): (s: string)
    ensures |s| > 0
    ensures forall k :: 0 <= k < |s| ==> '0' <= s[k] <= '9'
  {
    if n < 10 then [DigitChar(n)] else NatToString(n / 10) + [DigitChar(n % 10)]
  }

  /** `int(s)` for a string of decimal digits. */
  function ParseNat(s: string): nat
    requires forall k :: 0 <= k < |s| ==> '0' <= s[k] <= '9'
  {
    if |s| == 0 then 0 else 10 * ParseNat(s[..|s| - 1]) + DigitValue(s[|s| - 1])
  }

  lemma {:induction false} ParseNatToString(n: nat)
    ensures ParseNat(NatToString(n)) == n
  {
    var s := NatToString(n);
    if n >= 10 {
      ParseNatToString(n / 10);
      assert s[..|s| - 1] == NatToString(n / 10);
      assert DigitValue(DigitChar(n % 10)) == n % 10 by {
        var d := n % 10;
        assert DigitChar(DigitValue(DigitChar(d))) == DigitChar(d);
        DigitCharInjective(DigitValue(DigitChar(d)), d);
      }
    } else {
      DigitCharInjective(DigitValue(DigitChar(n)), n);
    }
  }

  lemma DigitCharInjective(d: nat, e: nat)
    requires d < 10 && e < 10 && DigitChar(d) == DigitChar(e)
    ensures d == e
  {
  }

  /** Different numbers have different decimal representations. */
  lemma NatToStringInjective(m: nat, n: nat)
    requires m != n
    ensures NatToString(m) != NatToString(n)
  {
    ParseNatToString(m);
    ParseNatToString(n);
  }

  // ----- case mapping, restricted to ASCII letters -----

  function Lower(c: char): char
  {
    if 'A' <= c <= 'Z' then (c as int + 32) as char else c
  }

  function Upper(c: char): char
  {
    if 'a' <= c <= 'z' then (c as int - 32) as char else c
  }

  /** `s.casefold()` on ASCII letters; every other character is kept. */
  function CaseFold(s: string): (r: string)
    ensures |r| == |s|
    ensures forall k :: 0 <= k < |s| ==> r[k] == Lower(s[k])
  {
    seq(|s|, k requires 0 <= k < |s| => Lower(s[k]))
  }

  /** `s.capitalize()` on ASCII letters: the first character upper case, the rest lower case. */
  function Capitalize(s: string): (r: string)
    ensures |r| == |s|
    ensures |s| > 0 ==> r[0] == Upper(s[0])
    ensures forall k :: 0 < k < |s| ==> r[k] == Lower(s[k])
  {
    if s == [] then [] else [Upper(s[0])] + CaseFold(s[1..])
  }

  // ----- the order of Python's `<` on str: code point by code point, a proper prefix first -----

  predicate Less(a: string, b: string)
  {
    if |a| == 0 then |b| > 0
    else if |b| == 0 then false
    else if a[0] != b[0] then a[0] < b[0]
    else Less(a[1..], b[1..])
  }

  lemma {:induction false} LessIrreflexive(a: string)
    ensures !Less(a, a)
  {
    if |a| > 0 {
      LessIrreflexive(a[1..]);
    }
  }

  lemma {:induction false} LessAsymmetric(a: string, b: string)
    requires Less(a, b)
    ensures !Less(b, a)
  {
    if |a| > 0 && |b| > 0 && a[0] == b[0] {
      LessAsymmetric(a[1..], b[1..]);
    }
  }

  lemma {:induction false} LessTransitive(a: string, b: string, c: string)
    requires Less(a, b) && Less(b, c)
    ensures Less(a, c)
  {
    if |a| > 0 && a[0] == b[0] && b[0] == c[0] {
      LessTransitive(a[1..], b[1..], c[1..]);
    }
  }

  lemma {:induction false} LessTotal(a: string, b: string)
    requires a != b
    ensures Less(a, b) || Less(b, a)
  {
    if |a| > 0 && |b| > 0 && a[0] == b[0] {
      assert a == [a[0]] + a[1..] && b == [b[0]] + b[1..];
      LessTotal(a[1..], b[1..]);
    }
  }
}
