/**
 * A character cursor over CSS source text: whitespace and comment skipping,
 * identifier reading, reading up to a token, and reading a balanced
 * enclosed region. Lines and columns start at 1.
 */
module Cursor {
  import opened Wrappers
  import opened Syntax

  predicate IsWhitespace(c: char) {
    c == ' ' || c == '\t' || c == '\n' || c == '\r' || c == '\U{000C}'
  }

  predicate IsNameStart(c: char) {
    ('a' <= c <= 'z') || ('A' <= c <= 'Z') || c == '_'
  }

  predicate IsNameChar(c: char) {
    IsNameStart(c) || ('0' <= c <= '9') || c == '-'
  }

  /** The first position at or after `i` whose character does not satisfy `p` (or the end). */
  function ScanWhile(t: string, i: nat, p: char -> bool): (j: nat)
    requires i <= |t|
    ensures i <= j <= |t|
    ensures forall k :: i <= k < j ==> p(t[k])
    ensures j < |t| ==> !p(t[j])
    decreases |t| - i
  {
    if i == |t| || !p(t[i]) then i else ScanWhile(t, i + 1, p)
  }

  /** The predicate that holds exactly where `p` does not. */
  function Negate(p: char -> bool): (q: char -> bool)
    ensures forall c :: q(c) == !p(c)
  {
    c => !p(c)
  }

  /** The position after the whitespace at `i`. */
  function SkipWs(t: string, i: nat): (j: nat)
    requires i <= |t|
    ensures i <= j <= |t|
  {
    ScanWhile(t, i, IsWhitespace)
  }

  /** The line of position `i`: one more than the newlines before it. */
  function LineAt(t: string, i: nat): (line: nat)
    requires i <= |t|
    ensures 1 <= line <= i + 1
  {
    if i == 0 then 1 else LineAt(t, i - 1) + (if t[i - 1] == '\n' then 1 else 0)
  }

  /** The column of position `i`: one more than the characters since the last newline before it. */
  function ColumnAt(t: string, i: nat): (column: nat)
    requires i <= |t|
    ensures 1 <= column <= i + 1
    ensures i > 0 && t[i - 1] != '\n' ==> column > 1
  {
    if i == 0 then 1 else if t[i - 1] == '\n' then 1 else ColumnAt(t, i - 1) + 1
  }

  /** Whether a comment opens at position `i`. */
  predicate OpensComment(t: string, i: nat) {
    i + 1 < |t| && t[i] == '/' && t[i + 1] == '*'
  }

  /** The first position at or after `k` where the comment terminator starts, if any. */
  function CommentClose(t: string, k: nat): (r: Option<nat>)
    requires k <= |t|
    ensures r.Some? ==> k <= r.value && r.value + 2 <= |t| && t[r.value] == '*' && t[r.value + 1] == '/'
    ensures r.None? ==> forall m :: k <= m && m + 1 < |t| ==> !(t[m] == '*' && t[m + 1] == '/')
    decreases |t| - k
  {
    if k + 1 >= |t| then None
    else if t[k] == '*' && t[k + 1] == '/' then Some(k)
    else CommentClose(t, k + 1)
  }

  /**
   * Skips whitespace and complete comments from `i`: the position reached and
   * the text of each comment skipped, without its delimiters. An unterminated
   * comment is left unread.
   */
  function Collect(t: string, i: nat): (r: (nat, seq<string>))
    requires i <= |t|
    ensures i <= r.0 <= |t|
    ensures r.0 < |t| ==> !IsWhitespace(t[r.0])
    ensures r.1 == [] ==> r.0 == SkipWs(t, i)
    decreases |t| - i
  {
    var w := SkipWs(t, i);
    if OpensComment(t, w) && CommentClose(t, w + 2).Some? then
      var c := CommentClose(t, w + 2).value;
      var rest := Collect(t, c + 2);
      (rest.0, [t[w + 2..c]] + rest.1)
    else
      (w, [])
  }

  /** Whether an identifier starts at `i`: a name-start character, optionally after one '-'. */
  predicate StartsIdent(t: string, i: nat) {
    || (i < |t| && IsNameStart(t[i]))
    || (i + 1 < |t| && t[i] == '-' && IsNameStart(t[i + 1]))
  }

  /** The end of the identifier `-?[A-Za-z_][A-Za-z0-9_-]*` starting at `i`, if one does. */
  function IdentEnd(t: string, i: nat): (r: Option<nat>)
    requires i <= |t|
    ensures r.Some? ==> i < r.value <= |t|
    ensures r.Some? ==> forall k :: i < k < r.value ==> IsNameChar(t[k])
    ensures r.Some? ==> r.value == |t| || !IsNameChar(t[r.value])
    ensures r.Some? <==> StartsIdent(t, i)
  {
    var s := if i < |t| && t[i] == '-' then i + 1 else i;
    if s < |t| && IsNameStart(t[s]) then Some(ScanWhile(t, s + 1, IsNameChar)) else None
  }

  /**
   * Scanning from `k` inside an enclosed region nested `depth` deep, the
   * position of the character that closes the outermost level, if any.
   * Characters inside single- or double-quoted strings are not delimiters.
   */
  function MatchingClose(t: string, k: nat, depth: nat, quote: Option<char>, open: char -> bool, close: char -> bool): (r: Option<nat>)
    requires k <= |t| && depth > 0
    ensures r.Some? ==> k <= r.value < |t| && close(t[r.value])
    decreases |t| - k
  {
    if k == |t| then None
    else
      var c := t[k];
      if quote.Some? then
        MatchingClose(t, k + 1, depth, if c == quote.value then None else quote, open, close)
      else if c == '"' || c == '\'' then
        MatchingClose(t, k + 1, depth, Some(c), open, close)
      else if close(c) then
        if depth == 1 then Some(k) else MatchingClose(t, k + 1, depth - 1, None, open, close)
      else if open(c) then
        MatchingClose(t, k + 1, depth + 1, None, open, close)
      else
        MatchingClose(t, k + 1, depth, None, open, close)
  }

  /** Characters Java's `String.trim` removes: everything at or below the space. */
  predicate IsTrimmed(c: char) {
    c <= ' '
  }

  /** `s` without leading and trailing characters at or below the space (Java's `String.trim`). */
  function Trim(s: string): (r: string)
    ensures |r| <= |s|
    ensures r != [] ==> !IsTrimmed(r[0]) && !IsTrimmed(r[|r| - 1])
    ensures exists i, j ::
      && 0 <= i <= j <= |s| && r == s[i..j]
      && (forall k :: 0 <= k < i ==> IsTrimmed(s[k]))
      && (forall k :: j <= k < |s| ==> IsTrimmed(s[k]))
    ensures (forall k :: 0 <= k < |s| ==> IsTrimmed(s[k])) <==> r == []
  {
    var i := ScanWhile(s, 0, IsTrimmed);
    var j := TrimEnd(s, i);
    s[i..j]
  }

  /** The end of `s` after dropping trailing trimmable characters, not going below `i`. */
  function TrimEnd(s: string, i: nat): (j: nat)
    requires i <= |s|
    ensures i <= j <= |s|
    ensures forall k :: j <= k < |s| ==> IsTrimmed(s[k])
    ensures j > i ==> !IsTrimmed(s[j - 1])
    decreases |s|
  {
    if |s| == i || !IsTrimmed(s[|s| - 1]) then |s| else TrimEnd(s[..|s| - 1], i)
  }

  /** A mutable read position over source text, with a buffer of collected comments. */
  class Source {
    const text: string
    var index: nat
    var comments: seq<string>

    ghost predicate Valid()
      reads this
    {
      index <= |text|
    }

    constructor (text: string)
      ensures Valid() && this.text == text
      ensures index == 0 && comments == []
    {
      this.text := text;
      index := 0;
      comments := [];
    }

    function Line(): nat
      reads this
      requires Valid()
    {
      LineAt(text, index)
    }

    function Column(): nat
      reads this
      requires Valid()
    {
      ColumnAt(text, index)
    }

    /** The character at the read position; none at the end of input. */
    function Current(): Option<char>
      reads this
      requires Valid()
    {
      if index < |text| then Some(text[index]) else None
    }

    predicate Eof()
      reads this
      requires Valid()
    {
      index == |text|
    }

    method SkipWhitespace()
      requires Valid()
      modifies this
      ensures Valid() && index == SkipWs(text, old(index)) && comments == old(comments)
    {
      index := SkipWs(text, index);
    }

    /** Skips whitespace and comments, adding each comment to the buffer. */
    method CollectComments()
      requires Valid()
      modifies this
      ensures Valid()
      ensures index == Collect(text, old(index)).0
      ensures comments == old(comments) + Collect(text, old(index)).1
    {
      var r := Collect(text, index);
      index := r.0;
      comments := comments + r.1;
    }

    /** Hands out the buffered comments and empties the buffer. */
    method FlushComments() returns (flushed: seq<string>)
      requires Valid()
      modifies this
      ensures Valid() && index == old(index)
      ensures flushed == old(comments) && comments == []
    {
      flushed := comments;
      comments := [];
    }

    /** Consumes the current character when it matches `token`. */
    method OptionallyPresent(token: char -> bool) returns (present: bool)
      requires Valid()
      modifies this
      ensures Valid() && comments == old(comments)
      ensures present == (old(index) < |text| && token(text[old(index)]))
      ensures index == if present then old(index) + 1 else old(index)
    {
      present := index < |text| && token(text[index]);
      if present {
        index := index + 1;
      }
    }

    /** Reads an identifier at the read position, consuming nothing when there is none. */
    method ReadIdent() returns (name: Option<string>)
      requires Valid()
      modifies this
      ensures Valid() && comments == old(comments)
      ensures IdentEnd(text, old(index)).None? ==> name == None && index == old(index)
      ensures IdentEnd(text, old(index)).Some? ==>
        index == IdentEnd(text, old(index)).value && name == Some(text[old(index)..index])
    {
      var e := IdentEnd(text, index);
      if e.Some? {
        name := Some(text[index..e.value]);
        index := e.value;
      } else {
        name := None;
      }
    }

    /** Consumes and returns the text before the next character matching `stop` (or to the end). */
    method Until(stop: char -> bool) returns (s: string)
      requires Valid()
      modifies this
      ensures Valid() && comments == old(comments)
      ensures index == ScanWhile(text, old(index), Negate(stop))
      ensures s == text[old(index)..index]
    {
      var e := ScanWhile(text, index, Negate(stop));
      s := text[index..e];
      index := e;
    }

    /**
     * At a character matching `open`, consumes the balanced region up to its
     * matching `close` and returns the text between the two; running out of
     * input first is an error.
     */
    method ChompEnclosedValue(open: char -> bool, close: char -> bool) returns (r: Result<string, ParseError>)
      requires Valid() && index < |text| && open(text[index])
      modifies this
      ensures Valid() && comments == old(comments)
      ensures MatchingClose(text, old(index) + 1, 1, None, open, close).None? ==>
        && index == |text|
        && r == Failure(ParseError(ExpectedClosing, LineAt(text, |text|), ColumnAt(text, |text|)))
      ensures MatchingClose(text, old(index) + 1, 1, None, open, close).Some? ==>
        var c := MatchingClose(text, old(index) + 1, 1, None, open, close).value;
        index == c + 1 && r == Success(text[old(index) + 1..c])
    {
      var c := MatchingClose(text, index + 1, 1, None, open, close);
      if c.None? {
        index := |text|;
        return Failure(ParseError(ExpectedClosing, LineAt(text, |text|), ColumnAt(text, |text|)));
      }
      r := Success(text[index + 1..c.value]);
      index := c.value + 1;
    }
  }
}
