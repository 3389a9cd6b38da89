// Where insertText puts the completion and which range it reports as selected:
// the host's text edit on a document of lines, getEndPosition, and what the
// two together guarantee about the lines that come out.
module Insertion {
  import opened Lines

  // vscode.Position: a zero-based line number and a character column.
  datatype Position = Position(line: nat, character: nat)

  // vscode.Selection(anchor, active): the range from the anchor to the cursor end.
  datatype Selection = Selection(anchor: Position, active: Position)

  // Offset of a position in the document text (lines joined with "\n").
  function OffsetOf(lines: seq<string>, pos: Position): nat
    requires pos.line < |lines|
  {
    LineStart(lines, pos.line) + pos.character
  }

  // The text before the end of line n is a prefix of the whole document text.
  lemma JoinPrefixLength(lines: seq<string>, n: nat)
    requires 1 <= n <= |lines|
    ensures |Join(lines[..n])| <= |Join(lines)|
  {
    if n < |lines| {
      assert lines == lines[..n] + lines[n..];
      JoinConcat(lines[..n], lines[n..]);
    } else {
      assert lines[..n] == lines;
    }
  }

  // The end of line `line` is where the text of lines 0..line stops.
  lemma EndOfLineOffset(lines: seq<string>, line: nat)
    requires line < |lines|
    ensures OffsetOf(lines, Position(line, |lines[line]|)) == |Join(lines[..line + 1])| <= |Join(lines)|
  {
    LineStartAfterJoin(lines, line + 1);
    JoinPrefixLength(lines, line + 1);
  }

  // A WorkspaceEdit that inserts `ins` at `pos`, as the host applies it: `ins`
  // is spliced into the document text at the position's offset and the text is
  // read back as lines. The document gains one line per line break inserted.
  function ApplyInsert(lines: seq<string>, pos: Position, ins: string): (r: seq<string>)
    requires WellFormed(lines)
    requires pos.line < |lines| && pos.character <= |lines[pos.line]|
    ensures WellFormed(r)
    ensures |r| == |lines| + NewlineCount(ins)
  {
    var text := Join(lines);
    var at := OffsetOf(lines, pos);
    EndOfLineOffset(lines, pos.line);
    assert text == text[..at] + text[at..];
    NewlineCountAppend(text[..at], text[at..]);
    NewlineCountAppend(text[..at], ins);
    NewlineCountAppend(text[..at] + ins, text[at..]);
    NewlineCountOfJoin(lines);
    SplitPieces(text[..at] + ins + text[at..]);
    Split(text[..at] + ins + text[at..])
  }

  // getEndPosition: column 0 of the line `startLine` plus the number of pieces
  // of `text.split("\n")`, which is one past the last inserted line.
  function GetEndPosition(text: string, startLine: nat): (p: Position)
    ensures p.character == 0
    ensures p.line == startLine + NewlineCount(text) + 1
    ensures p.line > startLine
  {
    Position(startLine + |Split(text)|, 0)
  }

  // Joining three runs of lines, the middle one placed between the other two.
  lemma JoinAround(pre: seq<string>, mid: seq<string>, post: seq<string>)
    requires |pre| >= 1 && |mid| >= 1
    ensures post == [] ==> Join(pre + mid + post) == Join(pre) + "\n" + Join(mid)
    ensures post != [] ==> Join(pre + mid + post) == Join(pre) + "\n" + Join(mid) + "\n" + Join(post)
  {
    JoinConcat(pre, mid);
    if post == [] {
      assert pre + mid + post == pre + mid;
    } else {
      JoinConcat(pre + mid, post);
    }
  }

  // After the text of lines 0..L come a line break and the text of the later lines.
  lemma TextAfterLine(lines: seq<string>, L: nat)
    requires L + 1 < |lines|
    ensures var text, head := Join(lines), Join(lines[..L + 1]);
            && |head| <= |text|
            && text[..|head|] == head
            && text[|head|..] == "\n" + Join(lines[L + 1..])
  {
    var head, tail := Join(lines[..L + 1]), Join(lines[L + 1..]);
    assert lines == lines[..L + 1] + lines[L + 1..];
    JoinConcat(lines[..L + 1], lines[L + 1..]);
    assert Join(lines) == head + "\n" + tail;
  }

  // Splicing a line break and the text of `pieces` into the document text at
  // the end of line L gives the text of the lines with `pieces` placed after
  // line L.
  lemma SpliceAtLineEnd(lines: seq<string>, L: nat, pieces: seq<string>)
    requires L < |lines| && |pieces| >= 1
    ensures var text, at := Join(lines), |Join(lines[..L + 1])|;
            && at <= |text|
            && text[..at] + ("\n" + Join(pieces)) + text[at..] == Join(lines[..L + 1] + pieces + lines[L + 1..])
  {
    var text, head, ins := Join(lines), Join(lines[..L + 1]), "\n" + Join(pieces);
    JoinAround(lines[..L + 1], pieces, lines[L + 1..]);
    if L + 1 == |lines| {
      assert lines[..L + 1] == lines;
      assert text[..|text|] + ins + text[|text|..] == text + ins;
    } else {
      TextAfterLine(lines, L);
      assert text[..|head|] + ins + text[|head|..] == head + ins + ("\n" + Join(lines[L + 1..]));
    }
  }

  // Lines 0..L, then `pieces`, then the lines after L: a well-formed document
  // in which lines 0..L keep their places and each later line i moves to
  // i + |pieces|.
  lemma PlaceAfterLine(lines: seq<string>, L: nat, pieces: seq<string>)
    requires WellFormed(lines) && L < |lines| && WellFormed(pieces)
    ensures var shaped := lines[..L + 1] + pieces + lines[L + 1..];
            && WellFormed(shaped)
            && |shaped| == |lines| + |pieces|
            && shaped[..L + 1] == lines[..L + 1]
            && shaped[L + 1..L + 1 + |pieces|] == pieces
            && forall i :: L < i < |lines| ==> shaped[i + |pieces|] == lines[i]
  {
  }

  // Inserting "\n" + t at the end of line L leaves lines 0..L alone, adds the
  // pieces of t as lines L+1..L+k, and moves every later line down by k.
  lemma InsertAfterLine(lines: seq<string>, L: nat, t: string)
    requires WellFormed(lines) && L < |lines|
    ensures var r := ApplyInsert(lines, Position(L, |lines[L]|), "\n" + t);
            var k := NewlineCount(t) + 1;
            && r == lines[..L + 1] + Split(t) + lines[L + 1..]
            && |r| == |lines| + k
            && r[..L + 1] == lines[..L + 1]
            && r[L + 1..L + 1 + k] == Split(t)
            && forall i :: L < i < |lines| ==> r[i + k] == lines[i]
  {
    var pieces := Split(t);
    SplitPieces(t);
    EndOfLineOffset(lines, L);
    SpliceAtLineEnd(lines, L, pieces);
    PlaceAfterLine(lines, L, pieces);
    SplitJoin(lines[..L + 1] + pieces + lines[L + 1..]);
  }

  // Round trip: the lines from the selection's start line up to (not
  // including) its end line, joined with "\n", are exactly the inserted text.
  lemma InsertedTextRoundTrip(lines: seq<string>, L: nat, t: string)
    requires WellFormed(lines) && L < |lines|
    ensures var r := ApplyInsert(lines, Position(L, |lines[L]|), "\n" + t);
            var end := GetEndPosition(t, L + 1);
            && L + 1 < end.line <= |r|
            && Join(r[L + 1..end.line]) == t
  {
    InsertAfterLine(lines, L, t);
    SplitPieces(t);
  }

  // The text from the start of line s to the start of line s + |pieces|, in a
  // document whose lines s.. hold `pieces` and have a line after them, is the
  // pieces joined plus one line break.
  lemma PiecesBetweenLineStarts(r: seq<string>, s: nat, pieces: seq<string>)
    requires |pieces| >= 1 && s + |pieces| < |r|
    requires r[s..s + |pieces|] == pieces
    ensures LineStart(r, s) <= LineStart(r, s + |pieces|) <= |Join(r)|
    ensures Join(r)[LineStart(r, s)..LineStart(r, s + |pieces|)] == Join(pieces) + "\n"
  {
    TextBetweenLineStarts(r, s, s + |pieces|);
  }

  // Measured in characters, the selection from (L+1, 0) to the end position
  // covers the inserted text plus the line break after it, when a line
  // follows the inserted ones.
  lemma SelectedTextEndsWithLineBreak(lines: seq<string>, L: nat, t: string)
    requires WellFormed(lines) && L + 1 < |lines|
    ensures var r := ApplyInsert(lines, Position(L, |lines[L]|), "\n" + t);
            var start := Position(L + 1, 0);
            var end := GetEndPosition(t, L + 1);
            && end.line < |r|
            && OffsetOf(r, start) <= OffsetOf(r, end) <= |Join(r)|
            && Join(r)[OffsetOf(r, start)..OffsetOf(r, end)] == t + "\n"
  {
    var r := ApplyInsert(lines, Position(L, |lines[L]|), "\n" + t);
    var pieces := Split(t);
    var e := L + 1 + |pieces|;
    SplitPieces(t);
    assert e < |r| && r[L + 1..e] == pieces by {
      InsertAfterLine(lines, L, t);
    }
    PiecesBetweenLineStarts(r, L + 1, pieces);
    assert GetEndPosition(t, L + 1) == Position(e, 0);
    assert OffsetOf(r, Position(L + 1, 0)) == LineStart(r, L + 1);
    assert OffsetOf(r, Position(e, 0)) == LineStart(r, e);
  }
}
