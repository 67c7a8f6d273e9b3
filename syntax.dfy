/**
 * The syntax nodes the parsers and refiners produce, the parse errors they
 * raise, and the broadcaster that carries nodes to listeners.
 */
module Syntax {
  import opened Wrappers

  /** An unparsed slice of source text and where it started. */
  datatype RawSyntax = RawSyntax(line: int, column: int, content: string)

  /** An at-rule as read by the raw parser: name, optional expression, optional block, attached comments. */
  datatype AtRule = AtRule(
    line: int,
    column: int,
    name: string,
    expression: Option<RawSyntax>,
    block: Option<RawSyntax>,
    comments: seq<string>)

  /** A selector group of the older parser API: its raw text and where it started. */
  datatype SelectorGroup = SelectorGroup(line: int, column: int, content: string)

  /** The nodes a parser can broadcast. */
  datatype Node =
    | AtRuleNode(rule: AtRule)
    | SelectorGroupNode(group: SelectorGroup)
    | SelectorPartNode(part: string)
    | PropertyValueNode(value: string)
    | OtherNode(description: string)

  /** Message codes of parse errors. */
  datatype Message =
    | MissingAtRuleName
    | MissingAtRuleValue
    | ExpectedClosing
    | UnparsableSelector
    | UnparsableDeclarationValue
    | ExpectedValue

  /** A fatal parse error, carrying the source position at which it was raised. */
  datatype ParseError = ParseError(message: Message, line: int, column: int)

  /**
   * What happened at a broadcaster, in order: a node delivered to its
   * listeners, or a refined selector's parts stored while it waited.
   */
  datatype Event = Delivered(node: Node) | PartsStored

  /** The events of delivering `nodes` one after another. */
  ghost function Deliveries(nodes: seq<Node>): seq<Event> {
    if nodes == [] then [] else Deliveries(nodes[..|nodes| - 1]) + [Delivered(nodes[|nodes| - 1])]
  }

  /**
   * An immediate broadcaster; `delivered` is everything its listeners have
   * received, in order, and `log` the same deliveries interleaved with the
   * other events recorded against it.
   */
  class Broadcaster {
    var delivered: seq<Node>
    ghost var log: seq<Event>

    constructor ()
      ensures delivered == [] && log == []
    {
      delivered := [];
      log := [];
    }

    method Broadcast(n: Node)
      modifies this
      ensures delivered == old(delivered) + [n]
      ensures log == old(log) + [Delivered(n)]
    {
      delivered := delivered + [n];
      log := log + [Delivered(n)];
    }
  }
}
