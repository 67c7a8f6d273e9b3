/**
 * The selector-group parser of the older parser API: skips whitespace, and
 * when a selector can start there, reads everything up to the next '{' as
 * one selector group and passes it to every worker.
 */
module SelectorParsing {
  import opened Syntax
  import opened Cursor

  predicate IsAsciiLetter(c: char) {
    'a' <= c <= 'z' || 'A' <= c <= 'Z'
  }

  /** The characters a selector may begin with: a letter, '*', '#' or '.'. */
  predicate IsSelectorStart(c: char) {
    IsAsciiLetter(c) || c == '*' || c == '#' || c == '.'
  }

  predicate IsOpenBracket(c: char) {
    c == '{'
  }

  /** A worker notified of parsed syntax; `received` is everything passed to it, in order. */
  class Consumer {
    var received: seq<Node>

    constructor ()
      ensures received == []
    {
      received := [];
    }
  }

  /** How many times `w` occurs in `workers`. */
  function Count(workers: seq<Consumer>, w: Consumer): (k: nat)
    ensures k <= |workers|
  {
    if workers == [] then 0
    else Count(workers[..|workers| - 1], w) + (if workers[|workers| - 1] == w then 1 else 0)
  }

  /** `k` copies of `n`. */
  function Repeat(n: Node, k: nat): (r: seq<Node>)
    ensures |r| == k && forall i :: 0 <= i < k ==> r[i] == n
  {
    if k == 0 then [] else Repeat(n, k - 1) + [n]
  }

  lemma {:induction false} CountPositiveIffPresent(workers: seq<Consumer>, w: Consumer)
    ensures Count(workers, w) > 0 <==> w in workers
  {
    if workers != [] {
      var init := workers[..|workers| - 1];
      CountPositiveIffPresent(init, w);
      assert workers == init + [workers[|workers| - 1]];
    }
  }

  /** In a list of distinct workers, every one of them occurs once. */
  lemma {:induction false} DistinctCountsOne(workers: seq<Consumer>, w: Consumer)
    requires forall i, j :: 0 <= i < j < |workers| ==> workers[i] != workers[j]
    requires w in workers
    ensures Count(workers, w) == 1
  {
    var init := workers[..|workers| - 1];
    var last := workers[|workers| - 1];
    assert workers == init + [last];
    if w == last {
      assert forall k :: 0 <= k < |init| ==> init[k] != last;
      CountPositiveIffPresent(init, w);
    } else {
      DistinctCountsOne(init, w);
    }
  }

  /** Passes `n` to each worker in turn; a worker listed twice receives it twice. */
  method Notify(workers: seq<Consumer>, n: Node)
    modifies set w | w in workers
    ensures forall w :: w in workers ==> w.received == old(w.received) + Repeat(n, Count(workers, w))
  {
    var i := 0;
    while i < |workers|
      invariant 0 <= i <= |workers|
      invariant forall w :: w in workers ==> w.received == old(w.received) + Repeat(n, Count(workers[..i], w))
    {
      assert workers[..i + 1][..i] == workers[..i];
      workers[i].received := workers[i].received + [n];
      i := i + 1;
    }
    assert workers[..i] == workers;
  }

  /**
   * Parses a selector group at the read position: declines (false) when the
   * first character after whitespace cannot start a selector, notifying no
   * one; otherwise passes one selector group, positioned at that character
   * and holding the text up to the next '{', to the workers and returns true.
   */
  method Parse(stream: Source, workers: seq<Consumer>) returns (accepted: bool)
    requires stream.Valid()
    modifies stream, set w | w in workers
    ensures stream.Valid() && stream.comments == old(stream.comments)
    ensures var t, s := stream.text, SkipWs(stream.text, old(stream.index));
      accepted <==> s < |t| && IsSelectorStart(t[s])
    ensures var t, s := stream.text, SkipWs(stream.text, old(stream.index));
      !accepted ==>
        && stream.index == s
        && forall w :: w in workers ==> w.received == old(w.received)
    ensures var t, s := stream.text, SkipWs(stream.text, old(stream.index));
      accepted ==>
        var e := ScanWhile(t, s, Negate(IsOpenBracket));
        var group := SelectorGroup(LineAt(t, s), ColumnAt(t, s), t[s..e]);
        && stream.index == e
        && forall w :: w in workers ==> w.received == old(w.received) + Repeat(SelectorGroupNode(group), Count(workers, w))
  {
    stream.SkipWhitespace();

    var current := stream.Current();
    if current.None? || !IsSelectorStart(current.value) {
      return false;
    }

    var line := stream.Line();
    var column := stream.Column();
    var content := stream.Until(IsOpenBracket);

    Notify(workers, SelectorGroupNode(SelectorGroup(line, column, content)));
    accepted := true;
  }
}
