/** `bufio.Scanner` with its default `ScanLines` split: the DDL text is read
    one line at a time, without the newline and without one `\r` before it;
    a last line with no newline after it is still read, an empty remainder
    is not. */
module Lines {
  import opened Types
  import opened Text

  function DropCR(s: string): string {
    if |s| > 0 && s[|s| - 1] == '\r' then s[..|s| - 1] else s
  }

  function SplitLines(s: string): (ls: seq<string>)
    ensures forall k :: 0 <= k < |ls| ==> '\n' !in ls[k]
    decreases |s|
  {
    if s == [] then []
    else
      match Cut(s, "\n")
      case None =>
        ContainsChar(s, '\n');
        [DropCR(s)]
      case Some((line, rest)) =>
        FirstCharAt(s, '\n', |line|);
        assert s[..|line|] == line;
        [DropCR(line)] + SplitLines(rest)
  }

  /** Without carriage returns, the lines with a newline after each give the
      text back, plus a newline if it did not end in one. */
  lemma {:induction false} SplitLinesRejoin(s: string)
    requires '\r' !in s
    ensures Terminated(SplitLines(s), "\n") == Rejoined(s)
    decreases |s|
  {
    if s == [] {
    } else if '\n' in s {
      var line, rest := FirstNewline(s);
      NoCRInParts(s, line, rest);
      SplitLinesRejoin(rest);
      SplitLinesStep(s, line, rest);
      RejoinStep(s, line, rest, SplitLines(rest));
    } else {
      LastLine(s);
    }
  }

  /** The text with a newline after its last line. */
  function Rejoined(s: string): string {
    if s == [] || s[|s| - 1] == '\n' then s else s + "\n"
  }

  /** One more line in front: the rejoined text grows by that line and
      its newline. */
  lemma RejoinStep(s: string, line: string, rest: string, ls: seq<string>)
    requires s == line + "\n" + rest
    requires Terminated(ls, "\n") == Rejoined(rest)
    ensures Terminated([line] + ls, "\n") == Rejoined(s)
  {
    assert ([line] + ls)[0] == line && ([line] + ls)[1..] == ls;
    var head := line + "\n";
    assert Terminated([line] + ls, "\n") == head + Rejoined(rest);
    assert s == head + rest;
    if rest == [] {
      assert s == head;
      assert s[|s| - 1] == '\n';
    } else {
      assert s[|s| - 1] == rest[|rest| - 1];
      if rest[|rest| - 1] != '\n' {
        assert head + (rest + "\n") == (head + rest) + "\n";
      }
    }
  }

  /** A text without newlines is one line. */
  lemma LastLine(s: string)
    requires s != [] && '\r' !in s && '\n' !in s
    ensures SplitLines(s) == [s]
    ensures Terminated(SplitLines(s), "\n") == s + "\n"
  {
    ContainsChar(s, '\n');
    assert s[|s| - 1] in s;
    assert DropCR(s) == s;
    assert Terminated([s], "\n") == s + "\n" + [];
  }

  /** Neither side of a split has a carriage return the whole lacks, and the
      line before the newline keeps its last character. */
  lemma NoCRInParts(s: string, line: string, rest: string)
    requires s == line + "\n" + rest && '\r' !in s
    ensures '\r' !in rest && DropCR(line) == line
  {
    if line != [] {
      assert line[|line| - 1] == s[|line| - 1];
    }
    forall k | 0 <= k < |rest| ensures rest[k] != '\r' {
      assert rest[k] == s[|line| + 1 + k];
    }
  }

  /** The text up to the first newline, and the text after it. */
  lemma FirstNewline(s: string) returns (line: string, rest: string)
    requires '\n' in s
    ensures s == line + "\n" + rest && '\n' !in line
  {
    ContainsChar(s, '\n');
    line, rest := Cut(s, "\n").value.0, Cut(s, "\n").value.1;
    FirstCharAt(s, '\n', |line|);
    assert s[..|line|] == line;
  }

  /** A newline-free prefix followed by a newline is the first line. */
  lemma SplitLinesStep(s: string, line: string, rest: string)
    requires s == line + "\n" + rest && '\n' !in line
    ensures SplitLines(s) == [DropCR(line)] + SplitLines(rest)
  {
    CutUnique(s, "\n", line, rest) by {
      forall k | 0 <= k < |line| ensures !OccursAt(s, "\n", k) {
        assert s[k..k + 1] == [line[k]];
      }
    }
  }

  /** A text ending in a newline is a newline-free first line, a newline,
      and a remainder that is empty or again ends in a newline. */
  lemma FirstLine(a: string) returns (line: string, rest: string)
    requires a != [] && a[|a| - 1] == '\n'
    ensures a == line + "\n" + rest && '\n' !in line
    ensures rest == [] || rest[|rest| - 1] == '\n'
  {
    assert a[|a| - 1] in a;
    line, rest := FirstNewline(a);
    if rest != [] {
      assert rest[|rest| - 1] == a[|a| - 1];
    }
  }

  /** A text that ends in a newline splits on its own: the lines of `a + b`
      are the lines of `a` followed by the lines of `b`. */
  lemma {:induction false} SplitLinesAppend(a: string, b: string)
    requires a == [] || a[|a| - 1] == '\n'
    ensures SplitLines(a + b) == SplitLines(a) + SplitLines(b)
    decreases |a|
  {
    if a != [] {
      var line, rest := FirstLine(a);
      assert a + b == line + "\n" + (rest + b);
      SplitLinesStep(a, line, rest);
      SplitLinesStep(a + b, line, rest + b);
      SplitLinesAppend(rest, b);
      assert [DropCR(line)] + (SplitLines(rest) + SplitLines(b)) == ([DropCR(line)] + SplitLines(rest)) + SplitLines(b);
    } else {
      assert a + b == b;
    }
  }
}
