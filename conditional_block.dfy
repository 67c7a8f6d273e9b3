/**
 * Conditional at-rule blocks, `@if(condition) { statements }`: the block's
 * statements are written when its condition is among the manager's true
 * conditions, and in passthrough mode the block is written out whole,
 * wrapper included.
 */
module Conditionals {

  /** The conditions that currently count as true, and whether blocks are passed through as written. */
  class ConditionalsManager {
    var passthrough: bool
    var trueConditions: set<string>

    constructor (passthrough: bool, trueConditions: set<string>)
      ensures this.passthrough == passthrough && this.trueConditions == trueConditions
    {
      this.passthrough := passthrough;
      this.trueConditions := trueConditions;
    }

    /** Conditions are compared exactly, case included. */
    predicate HasCondition(condition: string)
      reads this
    {
      condition in trueConditions
    }
  }

  /** The statements' outputs, one after another in order. */
  function Concat(outputs: seq<string>): (r: string)
    ensures |outputs| == 1 ==> r == outputs[0]
  {
    if outputs == [] then [] else Concat(outputs[..|outputs| - 1]) + outputs[|outputs| - 1]
  }

  /** Writing two runs of statements writes the first run, then the second. */
  lemma {:induction false} ConcatAppend(a: seq<string>, b: seq<string>)
    ensures Concat(a + b) == Concat(a) + Concat(b)
  {
    if b == [] {
      assert a + b == a;
    } else {
      var init := b[..|b| - 1];
      assert (a + b)[..|a + b| - 1] == a + init;
      ConcatAppend(a, init);
    }
  }

  /** Each statement's output occurs in the whole output, in its place. */
  lemma {:induction false} ConcatContainsEach(outputs: seq<string>, i: nat)
    requires i < |outputs|
    ensures Concat(outputs) == Concat(outputs[..i]) + outputs[i] + Concat(outputs[i + 1..])
  {
    assert outputs == outputs[..i] + [outputs[i]] + outputs[i + 1..];
    ConcatAppend(outputs[..i] + [outputs[i]], outputs[i + 1..]);
    ConcatAppend(outputs[..i], [outputs[i]]);
  }

  /** What passthrough mode writes before the statements. */
  function Opening(condition: string, compressed: bool): string {
    "@if(" + condition + ")" + (if compressed then "" else " ") + "{" + (if compressed then "" else "\n")
  }

  /** What passthrough mode writes after the statements. */
  function Closing(compressed: bool): string {
    (if compressed then "" else "\n") + "}"
  }

  /** The passthrough wrapper around a body: spaced and on its own lines unless compressed. */
  function Wrap(condition: string, body: string, compressed: bool): (r: string)
    ensures compressed ==> r == "@if(" + condition + "){" + body + "}"
    ensures !compressed ==> r == "@if(" + condition + ") {\n" + body + "\n}"
  {
    Opening(condition, compressed) + body + Closing(compressed)
  }

  /** Writes each statement after `out`, in order. */
  method WriteStatements(out: string, statements: seq<string>) returns (written: string)
    ensures written == out + Concat(statements)
  {
    written := out;
    var i := 0;
    while i < |statements|
      invariant i <= |statements|
      invariant written == out + Concat(statements[..i])
    {
      assert statements[..i + 1][..i] == statements[..i];
      written := written + statements[i];
      i := i + 1;
    }
    assert statements[..i] == statements;
  }

  class ConditionalAtRuleBlock {
    const line: int
    const column: int
    const manager: ConditionalsManager
    const condition: string
    /** The statements of the block, each as the writer renders it. */
    const statements: seq<string>

    constructor (line: int, column: int, manager: ConditionalsManager, condition: string, statements: seq<string>)
      ensures this.line == line && this.column == column
      ensures this.manager == manager && this.condition == condition && this.statements == statements
    {
      this.line := line;
      this.column := column;
      this.manager := manager;
      this.condition := condition;
      this.statements := statements;
    }

    /** For blocks created dynamically: no line and column, recorded as -1. */
    constructor WithoutPosition(manager: ConditionalsManager, condition: string, statements: seq<string>)
      ensures line == -1 && column == -1
      ensures this.manager == manager && this.condition == condition && this.statements == statements
    {
      line := -1;
      column := -1;
      this.manager := manager;
      this.condition := condition;
      this.statements := statements;
    }

    function Condition(): (c: string)
      ensures c == condition
    {
      condition
    }

    /**
     * The block is written in passthrough mode, or when its condition is
     * among the true conditions, compared exactly.
     */
    function IsWritable(): (w: bool)
      reads manager
      ensures manager.passthrough ==> w
      ensures !manager.passthrough ==> (w <==> condition in manager.trueConditions)
    {
      manager.passthrough || manager.HasCondition(condition)
    }

    /**
     * Writes the block: its statements in order, wrapped in `@if(condition){...}`
     * when the manager is in passthrough mode, and bare otherwise.
     */
    method Write(compressed: bool) returns (out: string)
      ensures manager.passthrough ==> out == Wrap(condition, Concat(statements), compressed)
      ensures !manager.passthrough ==> out == Concat(statements)
    {
      out := "";
      if manager.passthrough {
        out := out + "@if(" + condition + ")";
        if !compressed {
          out := out + " ";
        }
        out := out + "{";
        if !compressed {
          out := out + "\n";
        }
        assert out == Opening(condition, compressed);
      }

      out := WriteStatements(out, statements);

      if manager.passthrough {
        ghost var body := out;
        if !compressed {
          out := out + "\n";
        }
        out := out + "}";
        assert out == body + Closing(compressed);
      }
    }
  }
}
