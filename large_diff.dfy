/** The side-by-side assertion message of
    byu_pytest_utils/large_diff_conftest.py: when two long strings are
    compared with `==`, their lines are shown in two columns, each
    left-justified to its widest line, the shorter side filled with blank
    rows. */
module LargeDiff {
  import opened TextUtil

  const MinLinesDiff := 3
  const Header := "Observed (left) == Expected (right)"
  const Separator := " | "

  /** An operand of the comparison: a string, or anything else. */
  datatype Operand = Str(s: string) | Other

  /** `s.splitlines()` with `\n` as the only line boundary: each line
      loses its `\n`, and a final `\n` starts no further line. */
  function SplitLines(s: string): (lines: seq<string>)
    ensures lines == [] <==> s == ""
    decreases |s|
  {
    if s == "" then []
    else
      var k := Find(s, '\n', 0);
      if k == -1 then [s] else [s[..k]] + SplitLines(s[k + 1..])
  }

  /** No line holds a newline. */
  lemma {:induction false} SplitLinesNoNewline(s: string)
    ensures forall k :: 0 <= k < |SplitLines(s)| ==> '\n' !in SplitLines(s)[k]
    decreases |s|
  {
    if s != "" {
      var k := Find(s, '\n', 0);
      if k == -1 {
        assert SplitLines(s) == [s];
        assert '\n' !in s by {
          forall m | 0 <= m < |s| ensures s[m] != '\n' { }
        }
      } else {
        var head, rest := s[..k], s[k + 1..];
        assert '\n' !in head by {
          forall m | 0 <= m < |head| ensures head[m] != '\n' {
            assert head[m] == s[m];
          }
        }
        SplitLinesNoNewline(rest);
        var tail := SplitLines(rest);
        assert SplitLines(s) == [head] + tail;
        forall m | 0 <= m < |tail| + 1 ensures '\n' !in ([head] + tail)[m] {
          if m > 0 {
            assert ([head] + tail)[m] == tail[m - 1];
          }
        }
      }
    }
  }

  /** Joining the lines with newlines gives the text back, up to a final
      newline. */
  lemma {:induction false} SplitLinesJoin(s: string)
    ensures s == Join("\n", SplitLines(s)) + FinalNewline(s)
    decreases |s|
  {
    if s != "" {
      var k := Find(s, '\n', 0);
      if k == -1 {
        assert SplitLines(s) == [s];
      } else {
        var rest := s[k + 1..];
        var head := s[..k];
        var tail := SplitLines(rest);
        assert SplitLines(s) == [head] + tail;
        assert s == head + "\n" + rest;
        SplitLinesJoin(rest);
        JoinStep(head, rest, tail);
        assert s == Join("\n", [head] + tail) + FinalNewline(s);
      }
    }
  }

  /** The newline that ends the text, if any. */
  function FinalNewline(s: string): string {
    if s != "" && s[|s| - 1] == '\n' then "\n" else ""
  }

  lemma JoinStep(head: string, rest: string, tail: seq<string>)
    requires rest == Join("\n", tail) + FinalNewline(rest)
    requires tail == [] <==> rest == ""
    ensures head + "\n" + rest == Join("\n", [head] + tail) + FinalNewline(head + "\n" + rest)
  {
    JoinCons("\n", head, tail);
    var s := head + "\n" + rest;
    if rest != "" {
      assert s[|s| - 1] == rest[|rest| - 1];
    }
  }

  lemma {:induction false} JoinCons(sep: string, x: string, xs: seq<string>)
    ensures Join(sep, [x] + xs) == if xs == [] then x else x + sep + Join(sep, xs)
    decreases |xs|
  {
    if |xs| > 1 {
      var init := xs[..|xs| - 1];
      JoinCons(sep, x, init);
      assert ([x] + xs)[..|xs|] == [x] + init;
    } else if |xs| == 1 {
      assert [x] + xs == [x, xs[0]];
      assert [x, xs[0]][..1] == [x];
    }
  }

  /** `max(len(line) for line in lines)`; 0 stands for the empty case,
      which the source never reaches. */
  function MaxLen(lines: seq<string>): (r: nat)
    ensures forall k :: 0 <= k < |lines| ==> |lines[k]| <= r
    ensures lines != [] ==> exists k :: 0 <= k < |lines| && |lines[k]| == r
  {
    if lines == [] then 0
    else
      var m := MaxLen(lines[1..]);
      assert forall k :: 1 <= k < |lines| ==> lines[k] == lines[1..][k - 1];
      if |lines[0]| >= m then |lines[0]| else m
  }

  /** Row k's cell of one side: the line left-justified to the width, or
      a blank of that width past the last line. */
  function Cell(lines: seq<string>, k: nat, width: nat): string {
    if k < |lines| then PadTo(lines[k], width) else Spaces(width)
  }

  /** Row k of the two columns, below the header. */
  function Row(left: seq<string>, right: seq<string>, k: nat): string {
    Cell(left, k, MaxLen(left)) + Separator + Cell(right, k, MaxLen(right))
  }

  /** The message as a function of the two line lists. */
  function SideBySide(left: seq<string>, right: seq<string>): seq<string> {
    var n := if |left| < |right| then |right| else |left|;
    [Header] + seq(n, k requires 0 <= k < n => Row(left, right, k))
  }

  /** A cell is exactly as wide as its side's widest line; it starts with
      its line, and is blank past the last line. */
  lemma CellFacts(lines: seq<string>, k: nat)
    ensures |Cell(lines, k, MaxLen(lines))| == MaxLen(lines)
    ensures k < |lines| ==> lines[k] <= Cell(lines, k, MaxLen(lines))
    ensures k >= |lines| ==> Cell(lines, k, MaxLen(lines)) == Spaces(MaxLen(lines))
  {
    if k < |lines| {
      assert |lines[k]| <= MaxLen(lines);
    }
  }

  /** Every row is the left cell, ` | `, and the right cell, each as wide
      as its side's widest line. */
  lemma RowFacts(left: seq<string>, right: seq<string>, k: nat)
    ensures var row, lw, rw := Row(left, right, k), MaxLen(left), MaxLen(right);
            |row| == lw + |Separator| + rw &&
            row[lw..lw + |Separator|] == Separator &&
            (k < |left| ==> left[k] <= row[..lw]) &&
            (k >= |left| ==> row[..lw] == Spaces(lw)) &&
            (k < |right| ==> right[k] <= row[lw + |Separator|..]) &&
            (k >= |right| ==> row[lw + |Separator|..] == Spaces(rw))
  {
    var lw, rw := MaxLen(left), MaxLen(right);
    var l, r := Cell(left, k, lw), Cell(right, k, rw);
    CellFacts(left, k);
    CellFacts(right, k);
    var row := l + Separator + r;
    assert row[..lw] == l;
    assert row[lw..lw + |Separator|] == Separator;
    assert row[lw + |Separator|..] == r;
  }

  /** The rows of the message: the header, then one row per line of the
      longer side, all of them equally wide. */
  lemma SideBySideFacts(left: seq<string>, right: seq<string>)
    ensures var rows := SideBySide(left, right);
            |rows| == 1 + (if |left| < |right| then |right| else |left|) &&
            rows[0] == Header &&
            forall k :: 1 <= k < |rows| ==> |rows[k]| == MaxLen(left) + |Separator| + MaxLen(right)
  {
    var rows := SideBySide(left, right);
    forall k | 1 <= k < |rows|
      ensures |rows[k]| == MaxLen(left) + |Separator| + MaxLen(right)
    {
      assert rows[k] == Row(left, right, k - 1);
      RowFacts(left, right, k - 1);
    }
  }

  /** `pytest_assertrepr_compare`: `None` unless the operator is `==` and
      both operands are strings of more than three lines. */
  method AssertReprCompare(op: string, left: Operand, right: Operand) returns (r: Option<seq<string>>)
    ensures r.Some? <==> op == "==" && left.Str? && |SplitLines(left.s)| > MinLinesDiff &&
                         right.Str? && |SplitLines(right.s)| > MinLinesDiff
    ensures r.Some? ==> r.value == SideBySide(SplitLines(left.s), SplitLines(right.s))
  {
    if !(op == "==" && left.Str? && |SplitLines(left.s)| > MinLinesDiff &&
         right.Str? && |SplitLines(right.s)| > MinLinesDiff) {
      return None;
    }
    var leftLines, rightLines := SplitLines(left.s), SplitLines(right.s);
    var leftWidth, rightWidth := MaxLen(leftLines), MaxLen(rightLines);
    var leftView := seq(|leftLines|, k requires 0 <= k < |leftLines| => PadTo(leftLines[k], leftWidth));
    var rightView := seq(|rightLines|, k requires 0 <= k < |rightLines| => PadTo(rightLines[k], rightWidth));
    while |leftView| < |rightView|
      invariant |leftLines| <= |leftView|
      invariant |leftView| == |leftLines| || |leftView| <= |rightView|
      invariant forall k :: 0 <= k < |leftView| ==> leftView[k] == Cell(leftLines, k, leftWidth)
      decreases |rightView| - |leftView|
    {
      leftView := leftView + [Spaces(leftWidth)];
    }
    while |rightView| < |leftView|
      invariant |rightLines| <= |rightView|
      invariant |rightView| == |rightLines| || |rightView| <= |leftView|
      invariant forall k :: 0 <= k < |rightView| ==> rightView[k] == Cell(rightLines, k, rightWidth)
      decreases |leftView| - |rightView|
    {
      rightView := rightView + [Spaces(rightWidth)];
    }
    var n := |leftView|;
    assert n == if |leftLines| < |rightLines| then |rightLines| else |leftLines|;
    forall k | 0 <= k < n
      ensures leftView[k] + Separator + rightView[k] == Row(leftLines, rightLines, k)
    {
    }
    r := Some([Header] + seq(n, k requires 0 <= k < n => leftView[k] + Separator + rightView[k]));
    assert r.value == SideBySide(leftLines, rightLines);
  }
}
