/** The rule itself: frames that are updated in place, a stack of them, and the handlers. */
module CognitiveComplexity {
  import opened Options
  import opened Ast
  import Metric
  import opened ScoreMachine
  import StackDiscipline

  class FunctionFrame {
    const node: Node
    const name: Option<string>
    var complexity: int
    var nesting: int

    constructor (node: Node, link: Link)
      ensures this.node == node && name == FunctionName(node, link)
      ensures complexity == 0 && nesting == 0
    {
      this.node := node;
      this.name := FunctionName(node, link);
      complexity, nesting := 0, 0;
    }

    ghost function Abs(): Frame
      reads this
    {
      Frame(node, name, complexity, nesting)
    }
  }

  class Rule {
    const threshold: nat
    var stack: seq<FunctionFrame>
    var reports: seq<Metric.Report>

    ghost predicate Valid()
      reads this
    {
      forall i, j :: 0 <= i < j < |stack| ==> stack[i] != stack[j]
    }

    ghost function Abs(): State
      reads this, stack
    {
      State(seq(|stack|, i requires 0 <= i < |stack| reads this, stack => stack[i].Abs()), reports)
    }

    /** The threshold is the configured one, or 15. */
    constructor (configured: Option<nat>)
      ensures Valid() && Abs() == Start
      ensures threshold == if configured.Some? then configured.value else 15
    {
      threshold := if configured.Some? then configured.value else 15;
      stack, reports := [], [];
    }

    method Score(withNesting: bool)
      requires Valid()
      modifies stack
      ensures Abs() == ScoreMachine.Score(old(Abs()), withNesting)
    {
      if stack == [] { return; }
      var frame := stack[|stack| - 1];
      frame.complexity := frame.complexity + 1 + if withNesting then frame.nesting else 0;
    }

    method PushNesting()
      requires Valid()
      modifies stack
      ensures Abs() == ScoreMachine.PushNesting(old(Abs()))
    {
      if stack != [] {
        var frame := stack[|stack| - 1];
        frame.nesting := frame.nesting + 1;
      }
    }

    method PopNesting()
      requires Valid()
      modifies stack
      ensures Abs() == ScoreMachine.PopNesting(old(Abs()))
    {
      if stack != [] {
        var frame := stack[|stack| - 1];
        frame.nesting := frame.nesting - 1;
      }
    }

    method EnterFunction(node: Node, link: Link)
      requires Valid()
      modifies this
      ensures Valid() && Abs() == ScoreMachine.EnterFunction(old(Abs()), node, link)
      ensures |stack| == |old(stack)| + 1 && stack[..|old(stack)|] == old(stack)
      ensures fresh(stack[|old(stack)|])
    {
      var frame := new FunctionFrame(node, link);
      stack := stack + [frame];
    }

    method ExitFunction(node: Node)
      requires Valid()
      modifies this
      ensures Valid() && Abs() == ScoreMachine.ExitFunction(old(Abs()), node, threshold)
      ensures stack <= old(stack)
    {
      if stack == [] { return; }
      var frame := stack[|stack| - 1];
      stack := stack[..|stack| - 1];
      if frame.node != node { return; }
      if frame.complexity > threshold {
        reports := reports + [Metric.ReportFor(node, frame.name, frame.complexity)];
      }
    }

    method IsRecursiveCall(node: Node) returns (recursive: bool)
      ensures recursive == Ast.IsRecursiveCall(node, InnermostName(Abs()))
    {
      recursive := stack != [] && Ast.IsRecursiveCall(node, stack[|stack| - 1].name);
    }

    /** The handler of every type that both costs and deepens. */
    method EnterNesting()
      requires Valid()
      modifies stack
      ensures Abs() == ScoreMachine.PushNesting(ScoreMachine.Score(old(Abs()), true))
    {
      Score(true);
      PushNesting();
    }

    /** The flat charge, when there is one. */
    method ScoreIf(charged: bool)
      requires Valid()
      modifies stack
      ensures Abs() == if charged then ScoreMachine.Score(old(Abs()), false) else old(Abs())
    {
      if charged {
        Score(false);
      }
    }

    method OnEnterType(node: Node, link: Link)
      requires Valid()
      modifies this, stack
      ensures Valid() && Abs() == EnterType(old(Abs()), node, link)
      ensures forall k :: 0 <= k < |stack| ==> stack[k] in old(stack) || fresh(stack[k])
    {
      match node.kind {
        case Function(_) =>
          EnterFunction(node, link);
        case IfStatement =>
          if IsElseIf(node, link) {
            Score(false);
          } else {
            EnterNesting();
          }
        case Nesting(_) =>
          EnterNesting();
        case LogicalExpression(operator) =>
          ScoreIf(IsCounted(operator) && StartsLogicalSequence(operator, link));
        case CallExpression =>
          var recursive := IsRecursiveCall(node);
          ScoreIf(recursive);
        case Jump(_) =>
          ScoreIf(Get(node, "label").Some?);
        case _ =>
      }
    }

    method OnEnter(node: Node, link: Link)
      requires Valid()
      modifies this, stack
      ensures Valid() && Abs() == Step(old(Abs()), Enter(node, link), threshold)
      ensures forall k :: 0 <= k < |stack| ==> stack[k] in old(stack) || fresh(stack[k])
    {
      OnEnterType(node, link);
      ScoreIf(IsAlternate(link) && !node.kind.IfStatement?);
    }

    method OnLeave(node: Node, link: Link)
      requires Valid()
      modifies this, stack
      ensures Valid() && Abs() == Step(old(Abs()), Leave(node, link), threshold)
      ensures stack <= old(stack)
    {
      match node.kind {
        case Function(_) =>
          ExitFunction(node);
        case IfStatement =>
          if !IsElseIf(node, link) {
            PopNesting();
          }
        case Nesting(_) =>
          PopNesting();
        case _ =>
      }
    }
  }

  /** One lint of one program: the handlers fed with the events of the walk, one at a time. */
  method Lint(root: Node, configured: Option<nat>) returns (reports: seq<Metric.Report>)
    ensures var threshold := if configured.Some? then configured.value else 15;
            reports == Metric.Flagged(Metric.Functions(root, Root), threshold)
  {
    var rule := new Rule(configured);
    var events := Walk(root, Root);
    var i := 0;
    while i < |events|
      invariant 0 <= i <= |events|
      invariant rule.Valid()
      invariant fresh(rule) && forall k :: 0 <= k < |rule.stack| ==> fresh(rule.stack[k])
      invariant Run(rule.Abs(), events[i..], rule.threshold) == Run(Start, events, rule.threshold)
    {
      match events[i] {
        case Enter(node, link) =>
          rule.OnEnter(node, link);
        case Leave(node, link) =>
          rule.OnLeave(node, link);
      }
      assert events[i..][1..] == events[i + 1..];
      i := i + 1;
    }
    StackDiscipline.WholeProgram(root, rule.threshold);
    reports := rule.reports;
  }
}
