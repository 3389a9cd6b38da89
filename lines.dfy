// Option, the usual Some/None wrapper for the editor-less and no-match cases.
module Wrappers {
  datatype Option<+T> = None | Some(value: T)
}

// Text as a sequence of lines separated by "\n": JavaScript's `split("\n")`,
// `join("\n")`, and the character offset at which a line starts.
module Lines {

  // Number of "\n" characters in `s`.
  function NewlineCount(s: string): nat
  {
    if |s| == 0 then 0
    else (if s[0] == '\n' then 1 else 0) + NewlineCount(s[1..])
  }

  // A document line: it never holds a line break itself.
  predicate IsLine(s: string)
  {
    '\n' !in s
  }

  // What a text document holds: at least one line, none with a line break inside.
  predicate WellFormed(lines: seq<string>)
  {
    |lines| >= 1 && forall i :: 0 <= i < |lines| ==> IsLine(lines[i])
  }

  // `lines.join("\n")`.
  function Join(lines: seq<string>): string
  {
    if |lines| == 0 then ""
    else if |lines| == 1 then lines[0]
    else lines[0] + "\n" + Join(lines[1..])
  }

  // `s.split("\n")`: the pieces of `s` between line breaks. There is always
  // one more piece than there are line breaks.
  function Split(s: string): (pieces: seq<string>)
    ensures |pieces| == NewlineCount(s) + 1
  {
    if |s| == 0 then [""]
    else
      var rest := Split(s[1..]);
      if s[0] == '\n' then [""] + rest
      else [[s[0]] + rest[0]] + rest[1..]
  }

  // No piece of a split holds a line break, and joining the pieces with "\n"
  // gives back the string.
  lemma {:induction false} SplitPieces(s: string)
    ensures WellFormed(Split(s))
    ensures Join(Split(s)) == s
  {
    if |s| > 0 {
      var rest := Split(s[1..]);
      SplitPieces(s[1..]);
      if s[0] != '\n' {
        var head := [s[0]] + rest[0];
        assert s == [s[0]] + s[1..];
        assert IsLine(head);
        if |rest| == 1 {
          assert Split(s) == [head];
        } else {
          assert Join(rest) == rest[0] + "\n" + Join(rest[1..]);
          assert Split(s) == [head] + rest[1..];
        }
      } else {
        assert s == "\n" + s[1..];
      }
    }
  }

  // Character offset of the first character of line `n`, counting one for each line break.
  function LineStart(lines: seq<string>, n: nat): nat
    requires n <= |lines|
  {
    if n == 0 then 0 else LineStart(lines, n - 1) + |lines[n - 1]| + 1
  }

  lemma {:induction false} NewlineCountAppend(a: string, b: string)
    ensures NewlineCount(a + b) == NewlineCount(a) + NewlineCount(b)
  {
    if |a| == 0 {
      assert a + b == b;
    } else {
      assert (a + b)[1..] == a[1..] + b;
      NewlineCountAppend(a[1..], b);
    }
  }

  lemma {:induction false} NewlineCountOfLine(s: string)
    requires IsLine(s)
    ensures NewlineCount(s) == 0
  {
    if |s| > 0 {
      assert s[1..] == s[|s| - |s[1..]|..];
      assert forall i :: 0 <= i < |s[1..]| ==> s[1..][i] == s[i + 1];
      NewlineCountOfLine(s[1..]);
    }
  }

  // Joining lines that hold no line break adds exactly one line break between neighbours.
  lemma {:induction false} NewlineCountOfJoin(lines: seq<string>)
    requires WellFormed(lines)
    ensures NewlineCount(Join(lines)) == |lines| - 1
  {
    NewlineCountOfLine(lines[0]);
    if |lines| > 1 {
      NewlineCountOfJoin(lines[1..]);
      NewlineCountAppend(lines[0], "\n");
      NewlineCountAppend(lines[0] + "\n", Join(lines[1..]));
    }
  }

  // Joining two non-empty runs of lines puts one line break between them.
  lemma {:induction false} JoinConcat(xs: seq<string>, ys: seq<string>)
    requires |xs| >= 1 && |ys| >= 1
    ensures Join(xs + ys) == Join(xs) + "\n" + Join(ys)
  {
    if |xs| == 1 {
      assert (xs + ys)[1..] == ys;
    } else {
      assert (xs + ys)[1..] == xs[1..] + ys;
      JoinConcat(xs[1..], ys);
    }
  }

  // A prefix that holds no line break becomes part of the first piece.
  lemma {:induction false} SplitPrefix(a: string, s: string)
    requires IsLine(a)
    ensures Split(a + s) == [a + Split(s)[0]] + Split(s)[1..]
  {
    if |a| == 0 {
      assert a + s == s;
      assert a + Split(s)[0] == Split(s)[0];
    } else {
      assert (a + s)[1..] == a[1..] + s;
      assert a[1..] == a[|a| - |a[1..]|..];
      assert forall i :: 0 <= i < |a[1..]| ==> a[1..][i] == a[i + 1];
      SplitPrefix(a[1..], s);
      assert [a[0]] + (a[1..] + Split(s)[0]) == a + Split(s)[0];
    }
  }

  // A break-free prefix followed by a line break becomes a piece of its own.
  lemma SplitAtBreak(first: string, rest: string)
    requires IsLine(first)
    ensures Split(first + "\n" + rest) == [first] + Split(rest)
  {
    assert ("\n" + rest)[1..] == rest;
    assert Split("\n" + rest) == [""] + Split(rest);
    SplitPrefix(first, "\n" + rest);
    assert first + "\n" + rest == first + ("\n" + rest);
    assert first + "" == first;
  }

  // Splitting what was joined gives back the lines.
  lemma {:induction false} SplitJoin(lines: seq<string>)
    requires WellFormed(lines)
    ensures Split(Join(lines)) == lines
  {
    if |lines| == 1 {
      SplitPrefix(lines[0], "");
      assert lines[0] + "" == lines[0];
    } else {
      SplitJoin(lines[1..]);
      SplitAtBreak(lines[0], Join(lines[1..]));
    }
  }

  // Line `n` starts one character after the text of the lines before it.
  lemma {:induction false} LineStartAfterJoin(lines: seq<string>, n: nat)
    requires 1 <= n <= |lines|
    ensures LineStart(lines, n) == |Join(lines[..n])| + 1
  {
    if n > 1 {
      LineStartAfterJoin(lines, n - 1);
      assert lines[..n] == lines[..n - 1] + [lines[n - 1]];
      JoinConcat(lines[..n - 1], [lines[n - 1]]);
    } else {
      assert lines[..1] == [lines[0]];
    }
  }

  // The text of lines 0..b-1 is followed by the line break that ends line b - 1.
  lemma TextBeforeLineStart(lines: seq<string>, b: nat)
    requires 0 < b < |lines|
    ensures LineStart(lines, b) <= |Join(lines)|
    ensures Join(lines)[..LineStart(lines, b)] == Join(lines[..b]) + "\n"
  {
    LineStartAfterJoin(lines, b);
    assert lines == lines[..b] + lines[b..];
    JoinConcat(lines[..b], lines[b..]);
  }

  // The text from the start of line `a` up to the start of line `b` is lines
  // `a` to `b - 1` joined, followed by the line break that ends line `b - 1`.
  lemma TextBetweenLineStarts(lines: seq<string>, a: nat, b: nat)
    requires a < b < |lines|
    ensures LineStart(lines, a) <= LineStart(lines, b) <= |Join(lines)|
    ensures Join(lines)[LineStart(lines, a)..LineStart(lines, b)] == Join(lines[a..b]) + "\n"
  {
    if a == 0 {
      TextBeforeLineStart(lines, b);
      assert lines[a..b] == lines[..b];
    } else {
      var pre, mid, post := lines[..a], lines[a..b], lines[b..];
      assert lines[..b] == pre + mid;
      assert lines == pre + mid + post;
      JoinConcat(pre, mid);
      JoinConcat(pre + mid, post);
      LineStartAfterJoin(lines, a);
      LineStartAfterJoin(lines, b);
      var whole := Join(pre) + "\n" + Join(mid) + "\n" + Join(post);
      assert Join(lines) == whole;
      assert whole[|Join(pre)| + 1..|Join(pre)| + 1 + |Join(mid)| + 1] == Join(mid) + "\n";
    }
  }
}
