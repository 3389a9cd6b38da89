# Coder Jr command, modelled in Dafny

Coder Jr is a VS Code extension with one command. When the cursor is on a
comment line, the command asks for a completion and inserts the returned text
on new lines after the cursor line. It then selects the inserted lines.

This project models the logic of that command:

- **Comment recogniser** (`comment.dfy`, module `Comment`). `IsCommentLine` is
  the declarative reading of `COMMENT_REGEX`. A line is a comment line when
  it holds a `/*` and, later, a separate `*/`. It is also one when it holds a
  `//` at column 0 or after any character other than `:`. The regex engine's
  own reading is modelled too: which alternative wins at each start index
  (`MatchAt`), where the lazy and greedy parts stop (`FirstClose`,
  `LineEnd`), the left-to-right scan (`Search`), and `RegExp.prototype.test`
  with and without the `g` flag (`Exec`). `SearchFromStart` proves that the
  two readings agree.
- **Lines of a document** (`lines.dfy`, module `Lines`). These are
  JavaScript's `split("\n")` and `join("\n")`, the line-break count, and the
  offset at which each line starts.
- **Insertion and selection arithmetic** (`insertion.dfy`, module
  `Insertion`). The host's insert edit is modelled as splicing a string into
  the document text at a position's offset, then reading the text back as
  lines (`ApplyInsert`). `GetEndPosition` is modelled too. The lemmas state
  the shape of the document after the edit, the round trip between the
  selection and the inserted text, and the off-by-one convention at the end
  of the selection.
- **The command** (`extension.dfy`, module `Extension`). A `TextEditor` class
  holds the document lines and the selection, which the methods change in
  place. It comes with `IsInCommentLine`, `InsertText`, `SelectText`, and the
  handler `RunCommand`.

`extension.js` recognises only the `/* */` and `//` comment syntaxes, and it
inserts the completion exactly as the request returns it. The handler passes
the empty string as the prompt, and the model records that as `Query`.

## Model

| member | source | states |
|---|---|---|
| `Comment.FirstClose` | extension.js:125 | The lazy `[\s\S]*?` stops at the first `*/` at or after the given index. It is None only when no `*/` follows. |
| `Comment.LineEnd` | extension.js:125 | The greedy `(.*)$` under the `m` flag stops at the first line terminator, or at the end of the line. |
| `Comment.MatchAt` | extension.js:125 | A match starts at p exactly when one of these holds: a `/*` there with a separate `*/` later; a non-`:` character followed by `//`; or `//` at a line start. A match is at least two characters long. |
| `Comment.MatchAtEnd` | extension.js:125 | A block match ends right after the first `*/` at or after p + 2, which the lazy `[\s\S]*?` stops at. A `//` match ends at the first line terminator after the slashes, or at the end of the string. |
| `Comment.Search` | extension.js:125 | The scan from an index reports the end of a match. That end lies at least two characters past the index and within the string. |
| `Comment.SearchLeftmost` | extension.js:125 | What the scan reports is the match of a start index p at or after the given one, and no start index between the given one and p matches: the leftmost match. |
| `Comment.SearchReaches` | extension.js:125 | If a match starts at some index at or after the given one, the scan finds a match. |
| `Comment.SearchFinds` | extension.js:125 | The scan finds a match exactly when some start index at or after the given one matches, and what it reports is the leftmost such match. |
| `Comment.SearchFromStart` | extension.js:125 | Scanning from index 0 finds a match if and only if the line is a comment line in the declarative sense (block comment, or `//` not preceded by `:`). |
| `Comment.Exec` | extension.js:120 | Without the `g` flag, `test` is true exactly for comment lines and leaves `lastIndex` alone. With the flag, `test` is true exactly when `lastIndex` is within the string and some start index at or after it matches. A success moves `lastIndex` to the end of the leftmost such match, at least 2 past its old value. A failure resets it to 0. |
| `Comment.CommentRegex.constructor` | extension.js:125 | The module-level regex starts with `lastIndex` 0. |
| `Comment.CommentRegex.Test` | extension.js:120 | `COMMENT_REGEX.test(lineText)` as written: the result and the new `lastIndex` are those of `Exec` with the `g` flag, starting from the stored `lastIndex`. |
| `Comment.GlobalTestAlternates` | extension.js:120 | With the `g` flag, a line with no line terminator and only a `//` comment passes the first test, which leaves `lastIndex` at the line's end. The same line then fails the next test, which resets `lastIndex` to 0. Without the flag, both tests pass. |
| `Comment.FahrenheitPromptAlternates` | extension.js:125 | `// convert fahrenheit to celsius` is a comment line. Given to `test` twice with the `g` flag, it gives true (`lastIndex` 32) and then false. |
| `Comment.SlashesAtColumnZero` | extension.js:125 | Any line that starts with `//` is a comment line. |
| `Comment.SlashesAfterOtherCharacter` | extension.js:125 | A `//` right after any character other than `:` makes a comment line. |
| `Comment.UrlIsNotComment` | extension.js:125 | `http://` followed by text without `/` is not a comment line. |
| `Comment.SharedStarIsNotComment` | extension.js:125 | `/*/` is not a comment line, because the close may not reuse the opening `*`. `/**/` is a comment line. |
| `Lines.Split` | extension.js:93 | `text.split("\n")` has exactly one more piece than `text` has line breaks. |
| `Lines.SplitPieces` | extension.js:93 | No piece of `text.split("\n")` holds a line break, and joining the pieces with `"\n"` gives back `text`. |
| `Lines.SplitJoin` | extension.js:93 | Splitting the `"\n"`-join of break-free lines gives back those lines. |
| `Lines.TextBetweenLineStarts` | extension.js:73-75 | The document text from the start of line a to the start of line b (where a < b < line count) is lines a..b-1 joined, plus one line break. |
| `Lines.TextBeforeLineStart` | extension.js:73-75 | The document text before the start of line b (b > 0) is lines 0..b-1 joined, plus one line break. |
| `Insertion.EndOfLineOffset` | extension.js:67-68 | The insertion position (cursor line, length of that line) has as its offset the length of the text of lines 0..L. That offset lies within the document. |
| `Insertion.ApplyInsert` | extension.js:69-71 | Applying an insert edit keeps the document well formed (at least one line, no line break inside a line). The line count grows by the number of line breaks inserted. |
| `Insertion.GetEndPosition` | extension.js:92-96 | The end position is at column 0, on line `startLine` + (line breaks in the text) + 1. That line is always strictly after `startLine`. |
| `Insertion.SpliceAtLineEnd` | extension.js:66-70 | Splicing `"\n"` + text at the end of line L gives the text of lines 0..L, then the text's pieces, then the later lines. This holds both when L is the last line and when it is not. |
| `Insertion.InsertAfterLine` | extension.js:66-71 | After the edit, lines 0..L are unchanged. Lines L+1..L+k are the pieces of `text.split("\n")`, with k = line breaks + 1. Each later line i moves to i + k, and the line count grows by exactly k. |
| `Insertion.InsertedTextRoundTrip` | extension.js:73-75 | The lines from the selection's start line up to (not including) its end line, joined with `"\n"`, are exactly the inserted text. |
| `Insertion.SelectedTextEndsWithLineBreak` | extension.js:73-75 | When a line follows the inserted ones, the selection from (L+1, 0) to the end position covers the inserted text plus one line break. This is the end convention of `getEndPosition`. |
| `Extension.IsInCommentLine` | extension.js:114-121 | False with no active editor. Otherwise, true exactly when the cursor line is a comment line. |
| `Extension.InsertText` | extension.js:61-83 | With no editor, returns nothing. Otherwise the new lines are the edit applied at (L, length of line L) with `"\n"` + text, and equal the shape above. The editor's selection is untouched. The result is the selection (L+1, 0) to (L+1+k, 0), and the lines it spans join back to text. |
| `Extension.SelectText` | extension.js:104-107 | The editor's selection becomes the given selection. The document is unchanged. |
| `Extension.RunCommand` | extension.js:11-29 | Off a comment line, or with no active editor, the handler shows "You should be in a comment" and changes nothing. On comment line L, it requests a completion with the empty prompt and inserts it after L. It then sets the selection to (L+1, 0)..(L+1+k, 0), and the selected lines join back to the completion. |

## Findings

| source | as written | input that shows it | evidently intended | confidence | as-written member | corrected member |
|---|---|---|---|---|---|---|
| extension.js:120-125 | `COMMENT_REGEX` carries the `g` flag and is a single module-level object. `test` therefore starts scanning at the `lastIndex` left by the previous call. | The line `// convert fahrenheit to celsius`, given to `test` twice: the first call is true and sets `lastIndex` to 32; the second call scans from 32, is false, and resets it to 0. So every second invocation on such a line says "You should be in a comment". | Every test looks at the whole cursor line (no `g` flag). | high; not executed | `Comment.CommentRegex.Test`, `Comment.GlobalTestAlternates` | `Extension.IsInCommentLine` (the test without the `g` flag, `Comment.Exec` with `global` false) |

## Left out

- Extension plumbing is not modelled: `activate`, `deactivate`, command registration, `context.subscriptions`, and the status-bar message. The informational message appears only as the `Informed` outcome of `RunCommand`.
- The completion request `makeHttpRequestToOpenAi` is not modelled. It is a stub that waits 2000 ms and returns a fixed string. Its result is the `completion` input of `RunCommand`.
- Timing is not modelled: the 2000 ms and 10 ms delays, and the fact that `applyEdit` is not awaited. The model applies the edit in full before the selection is computed.
- A rejected edit is not modelled. `applyEdit` can report failure when the document changed underneath it; the model always applies the edit.
- The active editor can change between the handler's awaits. The model uses one editor throughout a run.
- Documents are modelled with `"\n"` line breaks only. The host's conversion of inserted line breaks to a CRLF document's line ending is not modelled, and a `"\r"` in the completion is an ordinary character.
- Positions are plain numbers. The host clamps a position past the last line; the model does not. After `RunCommand` on the last line, the selection's end lies one line past the document, so the next run's `CursorOnDocument` precondition (which `document.lineAt` demands) does not hold until the cursor moves.
- `RunCommand` uses the test without the `g` flag. The as-written behaviour is kept separately in `Comment.CommentRegex` (see Findings).
- The regex's capture groups are not modelled: nothing in `extension.js` reads them.
- Calling `selectText` with no active editor throws, because it dereferences the editor without a check. The model's `SelectText` therefore requires an editor.
- Comment.Exec: string indices and `lastIndex` count Dafny `char`s (Unicode scalar values), while JavaScript counts UTF-16 code units. A single test gives the same result either way. With the `g` flag, though, the as-written `lastIndex` carried to the next test differs after a line that holds characters outside the Basic Multilingual Plane. For example, after `// 😀` JavaScript leaves 5 and the model 4, so a following `abcd //x` is false in JavaScript and true in the model. Columns in `Position` count `char`s as well; the edit and the selection use that count consistently.
