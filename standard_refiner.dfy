/**
 * The standard refinement strategies: at-rules are never refined, function
 * values go to the first standard function strategy that accepts them, and
 * selectors and declarations are refined by parsing their raw content.
 *
 * The parser run on raw content is a parameter: a function from the content
 * (and, for declarations, its starting position) to what the parse emitted,
 * the comments left over once it stopped, and whether it reached the end.
 */
module Refinement {
  import opened Wrappers
  import opened Syntax

  /** The outcome of running a sub-parser over raw content, after collecting trailing comments. */
  datatype SubParse = SubParse(
    emitted: seq<Node>,   // every node the sub-parser broadcast, in order
    comments: seq<string>, // comments flushed after it stopped
    atEnd: bool,          // whether nothing is left of the content
    line: int,            // where it stopped
    column: int)

  /** A function value such as `url(...)`, as handed to function value strategies. */
  datatype FunctionValue = FunctionValue(name: string, arguments: string)

  /** The selector parts among `nodes`, in order. */
  function SelectorParts(nodes: seq<Node>): (parts: seq<Node>)
    ensures forall n :: n in parts <==> n in nodes && n.SelectorPartNode?
    ensures |parts| <= |nodes|
  {
    if nodes == [] then []
    else (if nodes[0].SelectorPartNode? then [nodes[0]] else []) + SelectorParts(nodes[1..])
  }

  lemma {:induction false} SelectorPartsDistributes(a: seq<Node>, b: seq<Node>)
    ensures SelectorParts(a + b) == SelectorParts(a) + SelectorParts(b)
  {
    if a == [] {
      assert a + b == b;
    } else {
      assert (a + b)[0] == a[0];
      assert (a + b)[1..] == a[1..] + b;
      SelectorPartsDistributes(a[1..], b);
    }
  }

  /** Selector parts pass the filter unchanged. */
  lemma {:induction false} SelectorPartsKeepsParts(nodes: seq<Node>)
    requires forall k :: 0 <= k < |nodes| ==> nodes[k].SelectorPartNode?
    ensures SelectorParts(nodes) == nodes
  {
    if nodes != [] {
      SelectorPartsKeepsParts(nodes[1..]);
    }
  }

  /** The first property value among `nodes`, if any. */
  function FirstValue(nodes: seq<Node>): (r: Option<Node>)
    ensures r.None? <==> forall k :: 0 <= k < |nodes| ==> !nodes[k].PropertyValueNode?
    ensures r.Some? ==>
      exists i :: 0 <= i < |nodes| && nodes[i] == r.value && r.value.PropertyValueNode? &&
        forall k :: 0 <= k < i ==> !nodes[k].PropertyValueNode?
  {
    if nodes == [] then None
    else if nodes[0].PropertyValueNode? then Some(nodes[0])
    else
      var r := FirstValue(nodes[1..]);
      assert forall k :: 1 <= k < |nodes| ==> nodes[k] == nodes[1..][k - 1];
      r
  }

  /** A selector whose raw content is refined into parts. */
  class Selector {
    const rawContent: string
    var parts: seq<Node>
    var orphaned: seq<string>

    constructor (rawContent: string)
      ensures this.rawContent == rawContent && parts == [] && orphaned == []
    {
      this.rawContent := rawContent;
      parts := [];
      orphaned := [];
    }

    method OrphanedComment(comment: string)
      modifies this
      ensures orphaned == old(orphaned) + [comment] && parts == old(parts)
    {
      orphaned := orphaned + [comment];
    }

    /** Appends parts, recording the append in the log of broadcaster `b`. */
    method AppendAll(added: seq<Node>, ghost b: Broadcaster)
      modifies this, b
      ensures parts == old(parts) + added && orphaned == old(orphaned)
      ensures b.delivered == old(b.delivered) && b.log == old(b.log) + [PartsStored]
    {
      parts := parts + added;
      b.log := b.log + [PartsStored];
    }
  }

  /** A declaration whose raw property value is refined into a value. */
  class Declaration {
    const line: int
    const column: int
    const rawValue: string
    var value: Option<Node>
    var orphaned: seq<string>

    constructor (line: int, column: int, rawValue: string)
      ensures this.line == line && this.column == column && this.rawValue == rawValue
      ensures value == None && orphaned == []
    {
      this.line := line;
      this.column := column;
      this.rawValue := rawValue;
      value := None;
      orphaned := [];
    }

    method OrphanedComment(comment: string)
      modifies this
      ensures orphaned == old(orphaned) + [comment] && value == old(value)
    {
      orphaned := orphaned + [comment];
    }

    method PropertyValue(v: Node)
      modifies this
      ensures value == Some(v) && orphaned == old(orphaned)
    {
      value := Some(v);
    }
  }

  /** There is no default refinement for at-rules: always declines, changing nothing. */
  method RefineAtRule(rule: AtRule, broadcaster: Broadcaster) returns (refined: bool)
    ensures !refined
  {
    refined := false;
  }

  /**
   * Offers the function value to each strategy in order and stops at the
   * first that accepts it; `tried` is how many were asked.
   */
  method RefineFunctionValue(strategies: seq<FunctionValue -> bool>, fv: FunctionValue) returns (refined: bool, tried: nat)
    ensures refined <==> exists i :: 0 <= i < |strategies| && strategies[i](fv)
    ensures tried <= |strategies|
    ensures forall k :: 0 <= k < tried - 1 ==> !strategies[k](fv)
    ensures refined ==> 0 < tried && strategies[tried - 1](fv)
    ensures !refined ==> tried == |strategies|
  {
    tried := 0;
    while tried < |strategies|
      invariant tried <= |strategies|
      invariant forall k :: 0 <= k < tried ==> !strategies[k](fv)
    {
      var accepted := strategies[tried](fv);
      tried := tried + 1;
      if accepted {
        return true, tried;
      }
    }
    refined := false;
  }

  /** Attaches each comment, in order, as an orphaned comment of the selector. */
  method AttachToSelector(selector: Selector, comments: seq<string>)
    modifies selector
    ensures selector.orphaned == old(selector.orphaned) + comments && selector.parts == old(selector.parts)
  {
    var i := 0;
    while i < |comments|
      invariant i <= |comments|
      invariant selector.orphaned == old(selector.orphaned) + comments[..i] && selector.parts == old(selector.parts)
    {
      selector.OrphanedComment(comments[i]);
      i := i + 1;
    }
    assert comments[..i] == comments;
  }

  /** Attaches each comment, in order, as an orphaned comment of the declaration. */
  method AttachToDeclaration(declaration: Declaration, comments: seq<string>)
    modifies declaration
    ensures declaration.orphaned == old(declaration.orphaned) + comments && declaration.value == old(declaration.value)
  {
    var i := 0;
    while i < |comments|
      invariant i <= |comments|
      invariant declaration.orphaned == old(declaration.orphaned) + comments[..i]
      invariant declaration.value == old(declaration.value)
    {
      declaration.OrphanedComment(comments[i]);
      i := i + 1;
    }
    assert comments[..i] == comments;
  }

  /** Broadcasts each node, in order. */
  method BroadcastAll(broadcaster: Broadcaster, nodes: seq<Node>)
    modifies broadcaster
    ensures broadcaster.delivered == old(broadcaster.delivered) + nodes
    ensures broadcaster.log == old(broadcaster.log) + Deliveries(nodes)
  {
    var i := 0;
    while i < |nodes|
      invariant i <= |nodes|
      invariant broadcaster.delivered == old(broadcaster.delivered) + nodes[..i]
      invariant broadcaster.log == old(broadcaster.log) + Deliveries(nodes[..i])
    {
      assert nodes[..i + 1][..i] == nodes[..i];
      broadcaster.Broadcast(nodes[i]);
      i := i + 1;
    }
    assert nodes[..i] == nodes;
  }

  /**
   * Refines a selector. Everything the sub-parse broadcasts is held back in a
   * paused queue; leftover content raises UnparsableSelector and the queue is
   * never released. Otherwise the selector parts are stored first, while the
   * outer broadcaster has delivered nothing new, and only then is the queue
   * released.
   */
  method RefineSelector(selector: Selector, broadcaster: Broadcaster, subParse: string -> SubParse)
    returns (r: Result<bool, ParseError>)
    modifies selector, broadcaster
    ensures var sp := subParse(selector.rawContent);
      && selector.orphaned == old(selector.orphaned) + sp.comments
      && (!sp.atEnd ==>
            && r == Failure(ParseError(UnparsableSelector, sp.line, sp.column))
            && selector.parts == old(selector.parts)
            && broadcaster.delivered == old(broadcaster.delivered)
            && broadcaster.log == old(broadcaster.log))
      && (sp.atEnd ==>
            && r == Success(true)
            && selector.parts == old(selector.parts) + SelectorParts(sp.emitted)
            && broadcaster.delivered == old(broadcaster.delivered) + sp.emitted
            && broadcaster.log == old(broadcaster.log) + [PartsStored] + Deliveries(sp.emitted))
  {
    var sp := subParse(selector.rawContent);
    // the paused queue
    var queued := sp.emitted;

    AttachToSelector(selector, sp.comments);

    if !sp.atEnd {
      return Failure(ParseError(UnparsableSelector, sp.line, sp.column));
    }

    selector.AppendAll(SelectorParts(queued), broadcaster);

    // resume the queue
    BroadcastAll(broadcaster, queued);
    r := Success(true);
  }

  /**
   * Refines a declaration. What the sub-parse broadcasts goes out at once.
   * Leftover content raises UnparsableDeclarationValue; a parse that produced
   * no property value raises ExpectedValue; otherwise the first property value
   * becomes the declaration's value.
   */
  method RefineDeclaration(declaration: Declaration, broadcaster: Broadcaster, subParse: (string, int, int) -> SubParse)
    returns (r: Result<bool, ParseError>)
    modifies declaration, broadcaster
    ensures var sp := subParse(declaration.rawValue, declaration.line, declaration.column);
      && broadcaster.delivered == old(broadcaster.delivered) + sp.emitted
      && declaration.orphaned == old(declaration.orphaned) + sp.comments
      && (!sp.atEnd ==>
            r == Failure(ParseError(UnparsableDeclarationValue, sp.line, sp.column)) && declaration.value == old(declaration.value))
      && (sp.atEnd && FirstValue(sp.emitted).None? ==>
            r == Failure(ParseError(ExpectedValue, sp.line, sp.column)) && declaration.value == old(declaration.value))
      && (sp.atEnd && FirstValue(sp.emitted).Some? ==>
            r == Success(true) && declaration.value == FirstValue(sp.emitted))
  {
    var sp := subParse(declaration.rawValue, declaration.line, declaration.column);
    BroadcastAll(broadcaster, sp.emitted);

    AttachToDeclaration(declaration, sp.comments);

    if !sp.atEnd {
      return Failure(ParseError(UnparsableDeclarationValue, sp.line, sp.column));
    }

    var first := FirstValue(sp.emitted);
    if first.None? {
      return Failure(ParseError(ExpectedValue, sp.line, sp.column));
    }
    declaration.PropertyValue(first.value);
    r := Success(true);
  }
}
