// The command of extension.js: the active text editor, isInCommentLine,
// insertText, selectText, and the handler that runs them in order.
//
// The completion request is not modelled; the text it returns is an input of
// the handler. The edit is applied to the document before the selection is
// computed.
module Extension {
  import opened Wrappers
  import opened Lines
  import opened Comment
  import opened Insertion

  // The informational message shown when the cursor is not on a comment line.
  const NotInCommentMessage := "You should be in a comment"

  // The prompt the handler passes to the completion request.
  const Query := ""

  // vscode.TextEditor: the lines of its document and its selection. The
  // cursor is the active end of the selection.
  class TextEditor {
    var lines: seq<string>
    var selection: Selection

    ghost predicate Valid()
      reads this
    {
      WellFormed(lines)
    }

    // The cursor is on a line of the document, so `document.lineAt` accepts it.
    predicate CursorOnDocument()
      reads this
    {
      selection.active.line < |lines|
    }

    constructor (lines: seq<string>, selection: Selection)
      requires WellFormed(lines)
      ensures Valid() && this.lines == lines && this.selection == selection
    {
      this.lines := lines;
      this.selection := selection;
    }
  }

  // isInCommentLine: false without an active editor; otherwise the regex test
  // of the cursor line, which holds exactly when that line is a comment line.
  // The test here is the one without the `g` flag (see Comment.GlobalTestAlternates).
  function IsInCommentLine(editor: TextEditor?): (inComment: bool)
    reads editor
    requires editor != null ==> editor.CursorOnDocument()
    ensures editor == null ==> !inComment
    ensures editor != null ==> (inComment <==> IsCommentLine(editor.lines[editor.selection.active.line]))
  {
    editor != null && Exec(editor.lines[editor.selection.active.line], 0, false).0
  }

  // insertText: with no active editor, nothing. Otherwise "\n" + text is
  // inserted at the end of the cursor line L, and the returned selection runs
  // from (L+1, 0) to getEndPosition(text, L+1). The edit leaves lines 0..L as
  // they were, puts the pieces of text on lines L+1..L+k, moves the later
  // lines down by k, and the lines the selection spans join back to text.
  method InsertText(editor: TextEditor?, text: string) returns (selection: Option<Selection>)
    requires editor != null ==> editor.Valid() && editor.CursorOnDocument()
    modifies editor
    ensures editor == null ==> selection == None
    ensures editor != null ==>
              var L, before := old(editor.selection.active.line), old(editor.lines);
              var k := NewlineCount(text) + 1;
              && editor.Valid()
              && editor.lines == ApplyInsert(before, Position(L, |before[L]|), "\n" + text)
              && editor.lines == before[..L + 1] + Split(text) + before[L + 1..]
              && |editor.lines| == |before| + k
              && editor.selection == old(editor.selection)
              && selection == Some(Selection(Position(L + 1, 0), Position(L + 1 + k, 0)))
              && Join(editor.lines[L + 1..L + 1 + k]) == text
  {
    if editor == null {
      return None;
    }
    var lineIndex := editor.selection.active.line;
    var characterIndex := |editor.lines[lineIndex]|;
    var insertionPosition := Position(lineIndex, characterIndex);
    editor.lines := ApplyInsert(editor.lines, insertionPosition, "\n" + text);
    InsertAfterLine(old(editor.lines), lineIndex, text);
    InsertedTextRoundTrip(old(editor.lines), lineIndex, text);

    var startLine := lineIndex + 1;
    var startPos := Position(startLine, 0);
    var endPos := GetEndPosition(text, startLine);
    selection := Some(Selection(startPos, endPos));
  }

  // selectText: the active editor's selection becomes `selection`; the
  // document is untouched.
  method SelectText(editor: TextEditor?, selection: Selection)
    requires editor != null
    modifies editor
    ensures editor.selection == selection && editor.lines == old(editor.lines)
  {
    editor.selection := selection;
  }

  // What one run of the command ends with: the informational message, or a
  // completion requested with `prompt` and inserted and selected.
  datatype Outcome = Informed(message: string) | Completed(prompt: string, selection: Selection)

  // The command handler. Off a comment line (or with no active editor) it
  // shows the message and changes nothing. On a comment line L it requests a
  // completion with the empty prompt, inserts the returned `completion` after
  // line L, and selects from (L+1, 0) to (L+1+k, 0), the lines holding it.
  method RunCommand(editor: TextEditor?, completion: string) returns (outcome: Outcome)
    requires editor != null ==> editor.Valid() && editor.CursorOnDocument()
    modifies editor
    ensures !old(IsInCommentLine(editor)) ==>
              && outcome == Informed(NotInCommentMessage)
              && (editor != null ==> unchanged(editor))
    ensures old(IsInCommentLine(editor)) ==>
              var L, before := old(editor.selection.active.line), old(editor.lines);
              var k := NewlineCount(completion) + 1;
              && outcome == Completed(Query, Selection(Position(L + 1, 0), Position(L + 1 + k, 0)))
              && editor.Valid()
              && editor.lines == before[..L + 1] + Split(completion) + before[L + 1..]
              && editor.selection == outcome.selection
              && Join(editor.lines[outcome.selection.anchor.line..outcome.selection.active.line]) == completion
  {
    var inCommentLine := IsInCommentLine(editor);
    if !inCommentLine {
      return Informed(NotInCommentMessage);
    }
    var selection := InsertText(editor, completion);
    SelectText(editor, selection.value);
    outcome := Completed(Query, selection.value);
  }
}
