/**
 The rule as an event machine. ESLint walks the tree depth first and tells the rule of every node
 it enters and leaves; the rule keeps one frame for each function it is inside of.
 */
module ScoreMachine {
  import opened Options
  import opened Ast
  import opened Metric

  datatype Frame = Frame(node: Node, name: Option<string>, complexity: int, nesting: int)

  datatype State = State(stack: seq<Frame>, reports: seq<Report>)

  datatype Event = Enter(node: Node, link: Link) | Leave(node: Node, link: Link)

  const Start := State([], [])

  // ----- one event

  /** Adds to the innermost frame; nothing happens outside every function. */
  function Bump(stack: seq<Frame>, complexity: int, nesting: int): seq<Frame> {
    if stack == [] then []
    else
      var n := |stack| - 1;
      stack[n := stack[n].(complexity := stack[n].complexity + complexity,
                          nesting := stack[n].nesting + nesting)]
  }

  function Score(s: State, withNesting: bool): State {
    if s.stack == [] then s
    else s.(stack := Bump(s.stack, 1 + if withNesting then s.stack[|s.stack| - 1].nesting else 0, 0))
  }

  function PushNesting(s: State): State {
    s.(stack := Bump(s.stack, 0, 1))
  }

  function PopNesting(s: State): State {
    s.(stack := Bump(s.stack, 0, -1))
  }

  function InnermostName(s: State): Option<string> {
    if s.stack == [] then None else s.stack[|s.stack| - 1].name
  }

  function EnterFunction(s: State, node: Node, link: Link): State {
    s.(stack := s.stack + [Frame(node, FunctionName(node, link), 0, 0)])
  }

  function ExitFunction(s: State, node: Node, threshold: nat): State {
    if s.stack == [] then s
    else
      var frame := s.stack[|s.stack| - 1];
      var popped := s.(stack := s.stack[..|s.stack| - 1]);
      if frame.node != node || frame.complexity <= threshold then popped
      else popped.(reports := popped.reports + [ReportFor(node, frame.name, frame.complexity)])
  }

  /** The handler registered for the node's own type. */
  function EnterType(s: State, node: Node, link: Link): State {
    match node.kind
    case Function(_) => EnterFunction(s, node, link)
    case IfStatement =>
      if IsElseIf(node, link) then Score(s, false) else PushNesting(Score(s, true))
    case Nesting(_) => PushNesting(Score(s, true))
    case LogicalExpression(operator) =>
      if IsCounted(operator) && StartsLogicalSequence(operator, link) then Score(s, false) else s
    case CallExpression => if IsRecursiveCall(node, InnermostName(s)) then Score(s, false) else s
    case Jump(_) => if Get(node, "label").Some? then Score(s, false) else s
    case _ => s
  }

  /**
   Then the handler of the more specific selector `IfStatement > *.alternate`. It runs second, so
   when the node is a function the charge goes to the frame that was just pushed.
   */
  function EnterAlternate(s: State, node: Node, link: Link): State {
    if IsAlternate(link) && !node.kind.IfStatement? then Score(s, false) else s
  }

  function LeaveType(s: State, node: Node, link: Link, threshold: nat): State {
    match node.kind
    case Function(_) => ExitFunction(s, node, threshold)
    case IfStatement => if IsElseIf(node, link) then s else PopNesting(s)
    case Nesting(_) => PopNesting(s)
    case _ => s
  }

  function Step(s: State, event: Event, threshold: nat): State {
    match event
    case Enter(node, link) => EnterAlternate(EnterType(s, node, link), node, link)
    case Leave(node, link) => LeaveType(s, node, link, threshold)
  }

  // ----- a whole walk

  function Run(s: State, events: seq<Event>, threshold: nat): State
    decreases events
  {
    if events == [] then s else Run(Step(s, events[0], threshold), events[1..], threshold)
  }

  function Walk(node: Node, link: Link): seq<Event>
    decreases node, 1
  {
    [Enter(node, link)] + WalkAll(node.children, node) + [Leave(node, link)]
  }

  function WalkAll(children: seq<Child>, parent: Node): seq<Event>
    decreases children, 0
  {
    if children == [] then []
    else Walk(children[0].node, In(parent, children[0].field)) + WalkAll(children[1..], parent)
  }

  lemma {:induction false} RunAppend(s: State, a: seq<Event>, b: seq<Event>, threshold: nat)
    ensures Run(s, a + b, threshold) == Run(Run(s, a, threshold), b, threshold)
    decreases a
  {
    if a == [] {
      assert a + b == b;
    } else {
      assert (a + b)[1..] == a[1..] + b;
      RunAppend(Step(s, a[0], threshold), a[1..], b, threshold);
    }
  }

  lemma RunOne(s: State, event: Event, threshold: nat)
    ensures Run(s, [event], threshold) == Step(s, event, threshold)
  {
  }

  lemma RunWalk(s: State, node: Node, link: Link, threshold: nat)
    ensures Run(s, Walk(node, link), threshold)
         == Step(Run(Step(s, Enter(node, link), threshold), WalkAll(node.children, node), threshold),
                 Leave(node, link), threshold)
  {
    var inside := WalkAll(node.children, node);
    RunAppend(s, [Enter(node, link)] + inside, [Leave(node, link)], threshold);
    RunAppend(s, [Enter(node, link)], inside, threshold);
    RunOne(s, Enter(node, link), threshold);
    RunOne(Run(s, [Enter(node, link)] + inside, threshold), Leave(node, link), threshold);
  }

  /** No frame has ever popped more nesting than it pushed. */
  predicate Sound(s: State) {
    forall i :: 0 <= i < |s.stack| ==> s.stack[i].nesting >= 0
  }

  function Depth(s: State): nat
    requires Sound(s)
  {
    if s.stack == [] then 0 else s.stack[|s.stack| - 1].nesting
  }

  /** The state with a charge added to the innermost frame and reports added at the end. */
  function Charged(s: State, charge: nat, reports: seq<Report>): State {
    State(Bump(s.stack, charge, 0), s.reports + reports)
  }

  lemma ChargedTwice(s: State, a: nat, r: seq<Report>, b: nat, q: seq<Report>)
    ensures Charged(Charged(s, a, r), b, q) == Charged(s, a + b, r + q)
  {
  }

  lemma ChargedKeeps(s: State, charge: nat, reports: seq<Report>)
    requires Sound(s)
    ensures var t := Charged(s, charge, reports);
            Sound(t) && InnermostName(t) == InnermostName(s) && Depth(t) == Depth(s)
    ensures Charged(s, 0, []) == s
  {
  }

  /**
   Refinement: walking any subtree, from any state, adds the subtree's recursively defined cost
   to the innermost frame, appends the reports of the functions in it, and changes nothing else.
   */
  lemma {:induction false} WalkRefines(s: State, node: Node, link: Link, threshold: nat)
    requires Sound(s)
    ensures Run(s, Walk(node, link), threshold)
         == Charged(s, Cost(node, link, InnermostName(s), Depth(s)),
                    Flagged(Functions(node, link), threshold))
    decreases node, 1
  {
    RunWalk(s, node, link, threshold);
    EnterIsSound(s, node, link, threshold);
    WalkAllRefines(Step(s, Enter(node, link), threshold), node.children, node, threshold);
    AroundContents(s, node, link, threshold);
  }

  lemma EnterIsSound(s: State, node: Node, link: Link, threshold: nat)
    requires Sound(s)
    ensures Sound(Step(s, Enter(node, link), threshold))
  {
  }

  /** Entering a node, its contents, and leaving it come to the node's own cost and reports. */
  lemma AroundContents(s: State, node: Node, link: Link, threshold: nat)
    requires Sound(s) && Sound(Step(s, Enter(node, link), threshold))
    ensures Step(Contents(Step(s, Enter(node, link), threshold), node, threshold),
                 Leave(node, link), threshold)
         == Charged(s, Cost(node, link, InnermostName(s), Depth(s)),
                    Flagged(Functions(node, link), threshold))
  {
    if node.kind.Function? {
      FunctionWalk(s, node, link, threshold);
      FlaggedAppend(FunctionsAll(node.children, node), [Place(node, link)], threshold);
    } else {
      PlainWalk(s, node, link, threshold);
      assert FunctionsAll(node.children, node) + [] == FunctionsAll(node.children, node);
    }
  }

  lemma {:induction false} WalkAllRefines(s: State, children: seq<Child>, parent: Node, threshold: nat)
    requires Sound(s)
    ensures Run(s, WalkAll(children, parent), threshold)
         == Charged(s, CostAll(children, parent, InnermostName(s), Depth(s)),
                    Flagged(FunctionsAll(children, parent), threshold))
    decreases children, 0
  {
    ChargedKeeps(s, 0, []);
    if children != [] {
      var node, link := children[0].node, In(parent, children[0].field);
      var name, depth := InnermostName(s), Depth(s);
      var charge, reports := Cost(node, link, name, depth), Flagged(Functions(node, link), threshold);
      var rest := children[1..];
      WalkRefines(s, node, link, threshold);
      ChargedKeeps(s, charge, reports);
      WalkAllRefines(Charged(s, charge, reports), rest, parent, threshold);
      RunAppend(s, Walk(node, link), WalkAll(rest, parent), threshold);
      FlaggedFirst(children, parent, threshold);
      ChargedTwice(s, charge, reports, CostAll(rest, parent, name, depth),
                   Flagged(FunctionsAll(rest, parent), threshold));
    }
  }

  lemma FlaggedFirst(children: seq<Child>, parent: Node, threshold: nat)
    requires children != []
    ensures Flagged(FunctionsAll(children, parent), threshold)
         == Flagged(Functions(children[0].node, In(parent, children[0].field)), threshold)
            + Flagged(FunctionsAll(children[1..], parent), threshold)
  {
    FlaggedAppend(Functions(children[0].node, In(parent, children[0].field)),
                  FunctionsAll(children[1..], parent), threshold);
  }

  /** What the contents of a node do to the state in which it was entered. */
  function Contents(entered: State, node: Node, threshold: nat): State
    requires Sound(entered)
  {
    Charged(entered, CostAll(node.children, node, InnermostName(entered), Depth(entered)),
            Flagged(FunctionsAll(node.children, node), threshold))
  }

  lemma BumpTop(stack: seq<Frame>, top: Frame, complexity: int, nesting: int)
    ensures Bump(stack + [top], complexity, nesting)
         == stack + [top.(complexity := top.complexity + complexity, nesting := top.nesting + nesting)]
  {
  }

  /** A frame is pushed, with the charge of the `else` the function may follow. */
  lemma FunctionEntered(s: State, node: Node, link: Link, threshold: nat)
    requires node.kind.Function?
    ensures Step(s, Enter(node, link), threshold)
         == State(s.stack + [Frame(node, FunctionName(node, link), ElseCharge(node, link), 0)], s.reports)
  {
  }

  /** That frame is popped, and reported when its score is above the threshold. */
  lemma FunctionLeft(s: State, node: Node, link: Link, inner: seq<Report>, threshold: nat)
    requires node.kind.Function?
    ensures var top := Frame(node, FunctionName(node, link), FunctionScore(node, link), 0);
            Step(State(s.stack + [top], s.reports + inner), Leave(node, link), threshold)
            == State(s.stack, s.reports + (inner + Flagged([Place(node, link)], threshold)))
  {
  }

  lemma FunctionWalk(s: State, node: Node, link: Link, threshold: nat)
    requires Sound(s) && node.kind.Function?
    ensures Sound(Step(s, Enter(node, link), threshold))
    ensures Step(Contents(Step(s, Enter(node, link), threshold), node, threshold),
                 Leave(node, link), threshold)
         == Charged(s, 0, Flagged(FunctionsAll(node.children, node), threshold)
                          + Flagged([Place(node, link)], threshold))
  {
    var name, inner := FunctionName(node, link), Flagged(FunctionsAll(node.children, node), threshold);
    var entered := State(s.stack + [Frame(node, name, ElseCharge(node, link), 0)], s.reports);
    var scored := State(s.stack + [Frame(node, name, FunctionScore(node, link), 0)], s.reports + inner);
    FunctionEntered(s, node, link, threshold);
    FunctionContents(s, node, link, threshold);
    assert Contents(entered, node, threshold) == scored;
    FunctionLeft(s, node, link, inner, threshold);
    ChargedNothing(s, inner + Flagged([Place(node, link)], threshold));
  }

  lemma ChargedNothing(s: State, reports: seq<Report>)
    ensures Charged(s, 0, reports) == State(s.stack, s.reports + reports)
  {
    assert Bump(s.stack, 0, 0) == s.stack;
  }

  /** The pushed frame collects what the contents cost from depth 0: the function's score. */
  lemma FunctionContents(s: State, node: Node, link: Link, threshold: nat)
    requires Sound(s) && node.kind.Function?
    ensures var name := FunctionName(node, link);
            var entered := State(s.stack + [Frame(node, name, ElseCharge(node, link), 0)], s.reports);
            && Sound(entered)
            && Contents(entered, node, threshold)
               == State(s.stack + [Frame(node, name, FunctionScore(node, link), 0)],
                        s.reports + Flagged(FunctionsAll(node.children, node), threshold))
  {
    var top := Frame(node, FunctionName(node, link), ElseCharge(node, link), 0);
    BumpTop(s.stack, top, CostAll(node.children, node, top.name, 0), 0);
  }

  function Raise(node: Node, link: Link): (raise: int)
    ensures 0 <= raise <= 1
  {
    if BearsSurcharge(node, link) then 1 else 0
  }

  /** The innermost frame is charged, and deepened when the node deepens what is inside it. */
  lemma PlainEntered(s: State, node: Node, link: Link, threshold: nat)
    requires Sound(s) && !node.kind.Function?
    ensures var charge := OwnCharge(node, link, InnermostName(s), Depth(s)) + ElseCharge(node, link);
            Step(s, Enter(node, link), threshold)
            == State(Bump(s.stack, charge, Raise(node, link)), s.reports)
  {
  }

  lemma PlainLeft(s: State, node: Node, link: Link, threshold: nat)
    requires !node.kind.Function?
    ensures Step(s, Leave(node, link), threshold)
         == State(Bump(s.stack, 0, -Raise(node, link)), s.reports)
  {
  }

  /** Raising the innermost nesting keeps every state sound, and is what `Inside` says. */
  lemma RaisedDepth(s: State, charge: nat, raise: nat)
    requires Sound(s)
    ensures var t := State(Bump(s.stack, charge, raise), s.reports);
            && Sound(t) && InnermostName(t) == InnermostName(s)
            && (s.stack != [] ==> Depth(t) == Depth(s) + raise)
  {
  }

  lemma PlainWalk(s: State, node: Node, link: Link, threshold: nat)
    requires Sound(s) && !node.kind.Function?
    ensures Sound(Step(s, Enter(node, link), threshold))
    ensures Step(Contents(Step(s, Enter(node, link), threshold), node, threshold),
                 Leave(node, link), threshold)
         == Charged(s, Cost(node, link, InnermostName(s), Depth(s)),
                    Flagged(FunctionsAll(node.children, node), threshold))
  {
    var name, raise := InnermostName(s), Raise(node, link);
    var charge := OwnCharge(node, link, name, Depth(s)) + ElseCharge(node, link);
    PlainEntered(s, node, link, threshold);
    RaisedDepth(s, charge, raise);
    var entered := Step(s, Enter(node, link), threshold);
    var inside := CostAll(node.children, node, InnermostName(entered), Depth(entered));
    PlainLeft(Contents(entered, node, threshold), node, link, threshold);
    BumpAround(s.stack, charge, raise, inside);
    PlainCost(s, node, link, entered);
  }

  /** Outside every function nothing is charged; inside one, the charges add up to the cost. */
  lemma PlainCost(s: State, node: Node, link: Link, entered: State)
    requires Sound(s) && Sound(entered) && !node.kind.Function? && (s.stack == [] <==> entered.stack == [])
    requires s.stack != [] ==>
               InnermostName(entered) == InnermostName(s) && Depth(entered) == Inside(node, link, Depth(s))
    ensures var charge := OwnCharge(node, link, InnermostName(s), Depth(s)) + ElseCharge(node, link);
            var inside := CostAll(node.children, node, InnermostName(entered), Depth(entered));
            Bump(s.stack, charge + inside, 0)
            == Bump(s.stack, Cost(node, link, InnermostName(s), Depth(s)), 0)
  {
  }

  lemma BumpAround(stack: seq<Frame>, charge: int, raise: int, inside: int)
    ensures Bump(Bump(Bump(stack, charge, raise), inside, 0), 0, -raise)
         == Bump(stack, charge + inside, 0)
  {
  }
}
