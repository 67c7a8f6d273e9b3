/**
 * The raw at-rule parser: reads `@name expression;` or `@name expression { block }`
 * without parsing the expression or the block, and broadcasts one at-rule.
 */
module RawAtRuleParsing {
  import opened Wrappers
  import opened Syntax
  import opened Cursor

  /** The token predicates of the token factory that shape an at-rule. */
  datatype AtRuleTokens = AtRuleTokens(
    expressionEnd: char -> bool,
    termination: char -> bool,
    blockBegin: char -> bool,
    blockEnd: char -> bool)

  /** Where an at-rule read from `i` begins: after whitespace and comments. */
  function RuleStart(t: string, i: nat): (p: nat)
    requires i <= |t|
    ensures i <= p <= |t|
    ensures p < |t| ==> !IsWhitespace(t[p])
    ensures LeadingComments(t, i) == [] ==> p == SkipWs(t, i)
  {
    Collect(t, SkipWs(t, i)).0
  }

  /** The comments skipped before the at-rule read from `i`. */
  function LeadingComments(t: string, i: nat): seq<string>
    requires i <= |t|
  {
    Collect(t, SkipWs(t, i)).1
  }

  predicate AtSignAt(t: string, p: nat) {
    p < |t| && t[p] == '@'
  }

  /** Where the expression that starts at `n` ends: the first expression-end character, or the end. */
  function ExpressionEnd(t: string, n: nat, tok: AtRuleTokens): (e: nat)
    requires n <= |t|
    ensures n <= e <= |t|
    ensures forall k :: n <= k < e ==> !tok.expressionEnd(t[k])
    ensures e < |t| ==> tok.expressionEnd(t[e])
  {
    ScanWhile(t, n, Negate(tok.expressionEnd))
  }

  /** The expression that starts at `n`: the trimmed text up to its end, absent when that is empty. */
  function ExpressionAt(t: string, n: nat, tok: AtRuleTokens): Option<RawSyntax>
    requires n <= |t|
  {
    var content := Trim(t[n..ExpressionEnd(t, n, tok)]);
    if content == [] then None else Some(RawSyntax(LineAt(t, n), ColumnAt(t, n), content))
  }

  /** Whether a block is read at `w`: no termination character there, and a block-begin one. */
  predicate BlockOpensAt(t: string, w: nat, tok: AtRuleTokens) {
    w < |t| && !tok.termination(t[w]) && tok.blockBegin(t[w])
  }

  /** The position of the character that closes the block opening at `w`, if a block opens and closes. */
  function BlockClose(t: string, w: nat, tok: AtRuleTokens): (r: Option<nat>)
    requires w <= |t|
    ensures r.Some? ==> BlockOpensAt(t, w, tok) && w < r.value < |t|
  {
    if BlockOpensAt(t, w, tok) then MatchingClose(t, w + 1, 1, None, tok.blockBegin, tok.blockEnd) else None
  }

  /** A block opens at `w` and the input ends before it closes. */
  predicate BlockUnclosed(t: string, w: nat, tok: AtRuleTokens)
    requires w <= |t|
  {
    BlockOpensAt(t, w, tok) && BlockClose(t, w, tok).None?
  }

  /** The block read at `w`: the trimmed text between its delimiters, absent when that is empty or no block opens. */
  function BlockAt(t: string, w: nat, tok: AtRuleTokens): Option<RawSyntax>
    requires w <= |t|
  {
    var close := BlockClose(t, w, tok);
    if close.None? then None
    else
      var content := Trim(t[w + 1..close.value]);
      if content == [] then None else Some(RawSyntax(LineAt(t, w), ColumnAt(t, w), content))
  }

  /** Where reading an at-rule stops: after its block, else after its termination character. */
  function RuleEnd(t: string, w: nat, tok: AtRuleTokens): (end: nat)
    requires w <= |t|
    ensures w <= end <= |t|
  {
    var close := BlockClose(t, w, tok);
    if close.Some? then close.value + 1
    else if w < |t| && tok.termination(t[w]) then w + 1
    else w
  }

  /** The three ways reading an at-rule can stop, position `w` being right after the expression. */
  lemma RuleEndCases(t: string, w: nat, tok: AtRuleTokens)
    requires w <= |t|
    ensures BlockClose(t, w, tok).Some? ==> RuleEnd(t, w, tok) == BlockClose(t, w, tok).value + 1
    ensures BlockClose(t, w, tok).None? && w < |t| && tok.termination(t[w]) ==> RuleEnd(t, w, tok) == w + 1
    ensures BlockClose(t, w, tok).None? && !(w < |t| && tok.termination(t[w])) ==> RuleEnd(t, w, tok) == w
  {
  }

  /**
   * At position `w` after the expression: consumes a termination character,
   * or, failing that, reads the block that begins there, if one does.
   */
  method ReadBlock(source: Source, tok: AtRuleTokens) returns (r: Result<Option<RawSyntax>, ParseError>)
    requires source.Valid()
    modifies source
    ensures source.Valid() && source.comments == old(source.comments)
    ensures var t, w := source.text, old(source.index);
      if BlockUnclosed(t, w, tok) then
        r == Failure(ParseError(ExpectedClosing, LineAt(t, |t|), ColumnAt(t, |t|)))
      else
        r == Success(BlockAt(t, w, tok)) && source.index == RuleEnd(t, w, tok)
  {
    var terminated := source.OptionallyPresent(tok.termination);
    if terminated || source.index == |source.text| || !tok.blockBegin(source.text[source.index]) {
      return Success(None);
    }
    var line := source.Line();
    var column := source.Column();
    var chomped := source.ChompEnclosedValue(tok.blockBegin, tok.blockEnd);
    if chomped.Failure? {
      return Failure(chomped.error);
    }
    var content := Trim(chomped.value);
    r := Success(if content == [] then None else Some(RawSyntax(line, column, content)));
  }

  /** The position after the expression of the rule whose name ends at `n`, and any whitespace. */
  function AfterExpression(t: string, n: nat, tok: AtRuleTokens): nat
    requires n <= |t|
  {
    SkipWs(t, ExpressionEnd(t, n, tok))
  }

  /**
   * What becomes of the at-rule whose '@' is at `p`: the result `r`, and the
   * read position, buffered comments and delivered nodes afterwards, given the
   * nodes delivered before and the comments `pending` in front of the rule.
   */
  ghost predicate AtRuleOutcome(t: string, p: nat, tok: AtRuleTokens, r: Result<bool, ParseError>,
                                index: nat, comments: seq<string>, delivered: seq<Node>,
                                before: seq<Node>, pending: seq<string>)
    requires AtSignAt(t, p)
  {
    // '@' without a name
    && (!StartsIdent(t, p + 1) ==>
          r == Failure(ParseError(MissingAtRuleName, LineAt(t, p + 1), ColumnAt(t, p + 1))))
    && (StartsIdent(t, p + 1) ==>
          var n := IdentEnd(t, p + 1).value;
          var w := AfterExpression(t, n, tok);
          // a block that is never closed
          && (BlockUnclosed(t, w, tok) ==>
                r == Failure(ParseError(ExpectedClosing, LineAt(t, |t|), ColumnAt(t, |t|))))
          // neither an expression nor a block
          && (!BlockUnclosed(t, w, tok) && ExpressionAt(t, n, tok).None? && BlockAt(t, w, tok).None? ==>
                r == Failure(ParseError(MissingAtRuleValue, LineAt(t, RuleEnd(t, w, tok)), ColumnAt(t, RuleEnd(t, w, tok)))))
          // otherwise: exactly one at-rule is broadcast
          && (!BlockUnclosed(t, w, tok) && (ExpressionAt(t, n, tok).Some? || BlockAt(t, w, tok).Some?) ==>
                && r == Success(true)
                && index == RuleEnd(t, w, tok)
                && comments == []
                && delivered == before + [AtRuleNode(AtRule(
                     LineAt(t, p), ColumnAt(t, p), t[p + 1..n], ExpressionAt(t, n, tok), BlockAt(t, w, tok),
                     pending))]))
  }

  /**
   * The rest of an at-rule whose '@' is at `p`: the name, the expression, the
   * block, and the broadcast of the whole rule with the comments buffered so far.
   */
  method ParseAfterAt(source: Source, broadcaster: Broadcaster, tok: AtRuleTokens,
                      ghost p: nat, startLine: int, startColumn: int)
    returns (r: Result<bool, ParseError>)
    requires source.Valid() && AtSignAt(source.text, p) && source.index == p + 1
    requires startLine == LineAt(source.text, p) && startColumn == ColumnAt(source.text, p)
    modifies source, broadcaster
    ensures source.Valid()
    ensures r.Failure? ==> broadcaster.delivered == old(broadcaster.delivered)
    ensures r != Success(false)
    ensures AtRuleOutcome(source.text, p, tok, r, source.index, source.comments, broadcaster.delivered,
                          old(broadcaster.delivered), old(source.comments))
  {
    ghost var t, comments0 := source.text, source.comments;
    var name := source.ReadIdent();
    if name.None? {
      assert !StartsIdent(t, p + 1);
      return Failure(ParseError(MissingAtRuleName, source.Line(), source.Column()));
    }
    ghost var n := source.index;
    assert StartsIdent(t, p + 1) && n == IdentEnd(t, p + 1).value && name.value == t[p + 1..n];

    // the expression: everything up to its end token, trimmed
    var line := source.Line();
    var column := source.Column();
    var content := source.Until(tok.expressionEnd);
    content := Trim(content);
    var expression := if content == [] then None else Some(RawSyntax(line, column, content));
    assert expression == ExpressionAt(t, n, tok);

    source.SkipWhitespace();
    ghost var w := source.index;
    assert w == AfterExpression(t, n, tok);
    var comments := source.FlushComments();
    assert comments == comments0;

    var block := ReadBlock(source, tok);
    if block.Failure? {
      return Failure(block.error);
    }
    assert block.value == BlockAt(t, w, tok);

    if expression.None? && block.value.None? {
      return Failure(ParseError(MissingAtRuleValue, source.Line(), source.Column()));
    }

    // comments inside the block belong to the block
    var _ := source.FlushComments();

    var node := AtRuleNode(AtRule(startLine, startColumn, name.value, expression, block.value, comments));
    assert node == AtRuleNode(AtRule(
      LineAt(t, p), ColumnAt(t, p), t[p + 1..n], ExpressionAt(t, n, tok), BlockAt(t, w, tok), comments0));
    broadcaster.Broadcast(node);
    r := Success(true);
  }

  /**
   * Parses one at-rule at the read position. Declines (Success(false)) when
   * the first character after whitespace and comments is not '@'; otherwise
   * either broadcasts exactly one at-rule and returns Success(true), or fails.
   */
  method Parse(source: Source, broadcaster: Broadcaster, tok: AtRuleTokens) returns (r: Result<bool, ParseError>)
    requires source.Valid()
    modifies source, broadcaster
    ensures source.Valid()
    ensures r.Failure? ==> broadcaster.delivered == old(broadcaster.delivered)
    // not an at-rule: decline, having consumed only whitespace and comments
    ensures var t, p := source.text, RuleStart(source.text, old(source.index));
      && (r == Success(false) <==> !AtSignAt(t, p))
      && (!AtSignAt(t, p) ==>
            && broadcaster.delivered == old(broadcaster.delivered)
            && source.index == p
            && source.comments == old(source.comments) + LeadingComments(t, old(source.index)))
    // otherwise: what becomes of the rule after its '@'
    ensures var t, p := source.text, RuleStart(source.text, old(source.index));
      AtSignAt(t, p) ==>
        AtRuleOutcome(t, p, tok, r, source.index, source.comments, broadcaster.delivered,
                      old(broadcaster.delivered), old(source.comments) + LeadingComments(t, old(source.index)))
  {
    ghost var t, i0, buffered := source.text, source.index, source.comments;
    ghost var p := RuleStart(t, i0);
    source.SkipWhitespace();
    source.CollectComments();
    assert source.index == p;

    // where the rule starts
    var startLine := source.Line();
    var startColumn := source.Column();

    var isAt := source.OptionallyPresent(c => c == '@');
    if !isAt {
      assert !AtSignAt(t, p);
      return Success(false);
    }
    assert AtSignAt(t, p) && source.index == p + 1;

    assert source.comments == buffered + LeadingComments(t, i0);
    r := ParseAfterAt(source, broadcaster, tok, p, startLine, startColumn);
  }
}
