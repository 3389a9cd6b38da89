// The comment-line recogniser of extension.js: the regular expression
// COMMENT_REGEX, `/(\/\*([\s\S]*?)\*\/|([^:]|^)\/\/(.*)$)/gm`, read two ways.
//
// IsCommentLine is the declarative reading: a line is a comment line when it
// holds a `/* ... */` block comment or a `//` that is not preceded by `:`.
// MatchAt, Search and Exec are the operational reading: how a backtracking
// regular-expression engine scans the line, which alternative wins at each
// start index, where the match ends, and what the `g` flag does to the regex
// object's `lastIndex`. SearchFromStart proves that the two readings agree.
module Comment {
  import opened Wrappers

  // ECMAScript line terminators: `.` does not match them, and under the `m` flag `^` matches right after one.
  predicate IsLineTerminator(c: char)
  {
    c == '\n' || c == '\r' || c == '\U{2028}' || c == '\U{2029}'
  }

  // `/*` starts at index i.
  predicate OpensBlockAt(s: string, i: int)
  {
    0 <= i && i + 1 < |s| && s[i] == '/' && s[i + 1] == '*'
  }

  // `*/` starts at index j.
  predicate ClosesBlockAt(s: string, j: int)
  {
    0 <= j && j + 1 < |s| && s[j] == '*' && s[j + 1] == '/'
  }

  // `//` starts at index i.
  predicate SlashesAt(s: string, i: int)
  {
    0 <= i && i + 1 < |s| && s[i] == '/' && s[i + 1] == '/'
  }

  // A `/*` followed by a separate `*/`: the two may not share their `*`.
  ghost predicate HasBlockComment(s: string)
  {
    exists i, j :: OpensBlockAt(s, i) && ClosesBlockAt(s, j) && i + 2 <= j
  }

  // A `//` at the start of the line or after any character other than `:`, so `http://` does not count.
  ghost predicate HasLineComment(s: string)
  {
    exists i :: SlashesAt(s, i) && (i == 0 || s[i - 1] != ':')
  }

  // The line holds a comment in one of the two syntaxes COMMENT_REGEX knows.
  ghost predicate IsCommentLine(s: string)
  {
    HasBlockComment(s) || HasLineComment(s)
  }

  // The first `*/` at index `from` or later: the lazy `[\s\S]*?` stops at the earliest close.
  function FirstClose(s: string, from: nat): (r: Option<nat>)
    decreases |s| - from
    ensures r.Some? ==> from <= r.value && ClosesBlockAt(s, r.value)
    ensures r.Some? ==> forall j :: from <= j < r.value ==> !ClosesBlockAt(s, j)
    ensures r.None? ==> forall j :: from <= j ==> !ClosesBlockAt(s, j)
  {
    if from + 1 >= |s| then None
    else if ClosesBlockAt(s, from) then Some(from)
    else FirstClose(s, from + 1)
  }

  // Where the greedy `(.*)$` stops: at the first line terminator at or after `from`, or at the end.
  function LineEnd(s: string, from: nat): (e: nat)
    requires from <= |s|
    decreases |s| - from
    ensures from <= e <= |s|
    ensures e < |s| ==> IsLineTerminator(s[e])
    ensures forall k :: from <= k < e ==> !IsLineTerminator(s[k])
  {
    if from == |s| || IsLineTerminator(s[from]) then from else LineEnd(s, from + 1)
  }

  // The end of the match of COMMENT_REGEX that starts at index p, if any. The
  // engine tries the block alternative first, then `[^:]` followed by `//`,
  // then `^` followed by `//`. A match is at least two characters long.
  function MatchAt(s: string, p: nat): (r: Option<nat>)
    requires p <= |s|
    ensures r.Some? <==>
              (OpensBlockAt(s, p) && exists j :: ClosesBlockAt(s, j) && p + 2 <= j)
              || (p < |s| && s[p] != ':' && SlashesAt(s, p + 1))
              || ((p == 0 || IsLineTerminator(s[p - 1])) && SlashesAt(s, p))
    ensures r.Some? ==> p + 2 <= r.value <= |s|
  {
    var close := FirstClose(s, p + 2);
    if OpensBlockAt(s, p) && close.Some? then Some(close.value + 2)
    else if p < |s| && s[p] != ':' && SlashesAt(s, p + 1) then Some(LineEnd(s, p + 3))
    else if (p == 0 || IsLineTerminator(s[p - 1])) && SlashesAt(s, p) then Some(LineEnd(s, p + 2))
    else None
  }

  // Where a match ends. A block match ends right after the first `*/` that
  // does not share the opening `*`, where the lazy `[\s\S]*?` stops. A `//`
  // match ends at the first line terminator after the slashes, or at the end
  // of the string, where the greedy `.*` followed by `$` stops under the `m` flag.
  lemma MatchAtEnd(s: string, p: nat)
    requires p <= |s|
    ensures OpensBlockAt(s, p) && (exists j :: ClosesBlockAt(s, j) && p + 2 <= j) ==>
              var r := MatchAt(s, p);
              && r.Some? && p + 4 <= r.value
              && ClosesBlockAt(s, r.value - 2)
              && forall j :: p + 2 <= j < r.value - 2 ==> !ClosesBlockAt(s, j)
    ensures MatchAt(s, p).Some? && !(OpensBlockAt(s, p) && exists j :: ClosesBlockAt(s, j) && p + 2 <= j) ==>
              var e := MatchAt(s, p).value;
              && (e == |s| || IsLineTerminator(s[e]))
              && forall k :: p + 2 <= k < e ==> !IsLineTerminator(s[k])
  {
  }

  // The engine's scan: the end of the first match that starts at index `from`
  // or later. SearchFinds and SearchLeftmost say which match that is.
  function Search(s: string, from: nat): (r: Option<nat>)
    decreases |s| + 1 - from
    ensures r.Some? ==> from + 2 <= r.value <= |s|
  {
    if from > |s| then None
    else if MatchAt(s, from).Some? then MatchAt(s, from)
    else Search(s, from + 1)
  }

  // A start index that does not match is skipped by the scan.
  lemma SearchSkips(s: string, from: nat)
    requires from <= |s| && MatchAt(s, from).None?
    ensures Search(s, from) == Search(s, from + 1)
  {
  }

  // No match starts in [from, p) when none starts at `from` nor in [from + 1, p).
  lemma NoMatchExtends(s: string, from: nat, p: nat)
    requires from <= |s| && MatchAt(s, from).None?
    requires p <= |s| && forall q :: from + 1 <= q < p ==> MatchAt(s, q).None?
    ensures forall q :: from <= q < p ==> MatchAt(s, q).None?
  {
  }

  // The match the scan reports is the leftmost one: it starts at some index
  // `p` at or after `from`, and no start index between `from` and `p` matches.
  lemma {:induction false} SearchLeftmost(s: string, from: nat) returns (p: nat)
    requires Search(s, from).Some?
    decreases |s| + 1 - from
    ensures from <= p <= |s| && MatchAt(s, p) == Search(s, from)
    ensures forall q :: from <= q < p ==> MatchAt(s, q).None?
  {
    assert from <= |s|;
    if MatchAt(s, from).Some? {
      p := from;
    } else {
      SearchSkips(s, from);
      p := SearchLeftmost(s, from + 1);
      NoMatchExtends(s, from, p);
    }
  }

  // A match that starts at or after `from` is never missed by the scan.
  lemma {:induction false} SearchReaches(s: string, from: nat, p: nat)
    requires from <= p <= |s| && MatchAt(s, p).Some?
    decreases p - from
    ensures Search(s, from).Some?
  {
    if MatchAt(s, from).None? {
      SearchSkips(s, from);
      SearchReaches(s, from + 1, p);
    }
  }

  // The scan from `from` finds a match exactly when some start index at or
  // after `from` matches, and what it reports is the leftmost such match.
  lemma SearchFinds(s: string, from: nat)
    ensures Search(s, from).Some? <==> exists p :: from <= p <= |s| && MatchAt(s, p).Some?
    ensures Search(s, from).Some? ==>
              exists p :: from <= p <= |s| && MatchAt(s, p) == Search(s, from) && forall q :: from <= q < p ==> MatchAt(s, q).None?
  {
    if Search(s, from).Some? {
      var p := SearchLeftmost(s, from);
    }
    if exists p :: from <= p <= |s| && MatchAt(s, p).Some? {
      var p :| from <= p <= |s| && MatchAt(s, p).Some?;
      SearchReaches(s, from, p);
    }
  }

  // Scanning the whole line finds a match exactly when the line is a comment line.
  lemma SearchFromStart(s: string)
    ensures Search(s, 0).Some? <==> IsCommentLine(s)
  {
    if HasBlockComment(s) {
      var i, j :| OpensBlockAt(s, i) && ClosesBlockAt(s, j) && i + 2 <= j;
      assert MatchAt(s, i).Some?;
      SearchReaches(s, 0, i);
    } else if HasLineComment(s) {
      var i :| SlashesAt(s, i) && (i == 0 || s[i - 1] != ':');
      if i == 0 {
        assert MatchAt(s, 0).Some?;
        SearchReaches(s, 0, 0);
      } else {
        assert MatchAt(s, i - 1).Some?;
        SearchReaches(s, 0, i - 1);
      }
    }
    if Search(s, 0).Some? {
      var p := SearchLeftmost(s, 0);
      if OpensBlockAt(s, p) && exists j :: ClosesBlockAt(s, j) && p + 2 <= j {
        assert HasBlockComment(s);
      } else if p < |s| && s[p] != ':' && SlashesAt(s, p + 1) {
        assert SlashesAt(s, p + 1) && s[p + 1 - 1] != ':';
      } else {
        assert SlashesAt(s, p) && (p == 0 || s[p - 1] != ':');
      }
    }
  }

  // `COMMENT_REGEX.test(s)`: whether a match is found, and the regex's
  // `lastIndex` afterwards. Without the `g` flag the scan starts at index 0
  // and `lastIndex` is left alone. With it, as written in extension.js, the
  // scan starts at `lastIndex`, a match moves `lastIndex` to the end of the
  // leftmost match, and a failure (or a `lastIndex` past the end) resets it to 0.
  function Exec(s: string, lastIndex: nat, global: bool): (r: (bool, nat))
    ensures !global ==> r.1 == lastIndex && (r.0 <==> IsCommentLine(s))
    ensures global ==> (r.0 <==> lastIndex <= |s| && exists p :: lastIndex <= p <= |s| && MatchAt(s, p).Some?)
    ensures global && r.0 ==> lastIndex + 2 <= r.1 <= |s|
    ensures global && r.0 ==>
              exists p :: lastIndex <= p <= |s| && MatchAt(s, p) == Some(r.1) && forall q :: lastIndex <= q < p ==> MatchAt(s, q).None?
    ensures global && !r.0 ==> r.1 == 0
  {
    SearchFromStart(s);
    SearchFinds(s, lastIndex);
    if !global then (Search(s, 0).Some?, lastIndex)
    else if lastIndex > |s| then (false, 0)
    else match Search(s, lastIndex)
      case Some(e) => (true, e)
      case None => (false, 0)
  }

  // COMMENT_REGEX as written: one module-level regex object whose `lastIndex` survives between calls.
  class CommentRegex {
    var lastIndex: nat

    constructor ()
      ensures lastIndex == 0
    {
      lastIndex := 0;
    }

    // `COMMENT_REGEX.test(s)` with the `g` flag.
    method Test(s: string) returns (found: bool)
      modifies this
      ensures (found, lastIndex) == Exec(s, old(lastIndex), true)
    {
      var r := Exec(s, lastIndex, true);
      found, lastIndex := r.0, r.1;
    }
  }

  // The `g` flag makes the test alternate. A line whose only comment is a
  // `//` comment passes the first test, which leaves `lastIndex` at the end of
  // the line; the same line then fails the next test, which resets
  // `lastIndex` to 0. Without the flag both tests pass.
  lemma GlobalTestAlternates(s: string)
    requires forall k :: 0 <= k < |s| ==> !IsLineTerminator(s[k])
    requires !HasBlockComment(s) && HasLineComment(s)
    ensures Exec(s, 0, true) == (true, |s|)
    ensures Exec(s, |s|, true) == (false, 0)
    ensures Exec(s, 0, false).0 && Exec(s, |s|, false).0
  {
    SearchFromStart(s);
    var p := SearchLeftmost(s, 0);
    assert MatchAt(s, |s|).None?;
    assert Search(s, |s|) == None;
  }

  // A typical prompt line, given to `test` twice in a row on the as-written regex.
  lemma FahrenheitPromptAlternates()
    ensures var s := "// convert fahrenheit to celsius";
            IsCommentLine(s) && Exec(s, 0, true) == (true, 32) && Exec(s, 32, true) == (false, 0)
  {
    var s := "// convert fahrenheit to celsius";
    assert SlashesAt(s, 0);
    assert forall k :: 0 <= k < |s| ==> s[k] != '*' && !IsLineTerminator(s[k]);
    GlobalTestAlternates(s);
  }

  // `//` at the very start of a line always makes a comment line.
  lemma SlashesAtColumnZero(rest: string)
    ensures IsCommentLine("//" + rest)
  {
    assert SlashesAt("//" + rest, 0);
  }

  // A `//` after any character but `:` makes a comment line.
  lemma SlashesAfterOtherCharacter(before: string, c: char, rest: string)
    requires c != ':'
    ensures IsCommentLine(before + [c] + "//" + rest)
  {
    var s := before + [c] + "//" + rest;
    assert SlashesAt(s, |before| + 1) && s[|before|] == c;
  }

  // A bare URL is not a comment line: its only `//` follows `:`.
  lemma UrlIsNotComment(host: string)
    requires '/' !in host
    ensures !IsCommentLine("http://" + host)
  {
  }

  // `/*/` is not a block comment: the close may not reuse the opening `*`.
  lemma SharedStarIsNotComment()
    ensures !IsCommentLine("/*/") && IsCommentLine("/**/")
  {
    assert OpensBlockAt("/**/", 0) && ClosesBlockAt("/**/", 2);
  }
}
