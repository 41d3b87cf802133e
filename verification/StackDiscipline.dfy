/** What holds at every event of a walk, and what follows for whole programs. */
module StackDiscipline {
  import opened Ast
  import opened Metric
  import opened Isolation
  import opened ScoreMachine

  /**
   One event done properly: leaving a function finds that function's frame on top, no nesting
   is negative before or after, only the innermost frame changes, and no score goes down.
   */
  predicate Disciplined(s: State, event: Event, threshold: nat) {
    var t := Step(s, event, threshold);
    && Sound(s) && Sound(t)
    && (event.Leave? && event.node.kind.Function? ==>
          s.stack != [] && s.stack[|s.stack| - 1].node == event.node)
    && |s.stack| - 1 <= |t.stack| <= |s.stack| + 1
    && (forall i :: 0 <= i < |s.stack| - 1 ==> t.stack[i] == s.stack[i])
    && (|t.stack| >= |s.stack| > 0 ==>
          t.stack[|s.stack| - 1].complexity >= s.stack[|s.stack| - 1].complexity)
  }

  predicate DisciplinedRun(s: State, events: seq<Event>, threshold: nat)
    decreases events
  {
    events == []
    || (Disciplined(s, events[0], threshold)
        && DisciplinedRun(Step(s, events[0], threshold), events[1..], threshold))
  }

  lemma {:induction false} DisciplinedAppend(s: State, a: seq<Event>, b: seq<Event>, threshold: nat)
    requires DisciplinedRun(s, a, threshold)
    requires DisciplinedRun(Run(s, a, threshold), b, threshold)
    ensures DisciplinedRun(s, a + b, threshold)
    decreases a
  {
    if a == [] {
      assert a + b == b;
    } else {
      assert (a + b)[1..] == a[1..] + b;
      DisciplinedAppend(Step(s, a[0], threshold), a[1..], b, threshold);
    }
  }

  lemma DisciplinedOne(s: State, event: Event, threshold: nat)
    requires Disciplined(s, event, threshold)
    ensures DisciplinedRun(s, [event], threshold)
  {
  }

  lemma EnterDisciplined(s: State, node: Node, link: Link, threshold: nat)
    requires Sound(s)
    ensures Disciplined(s, Enter(node, link), threshold)
  {
  }

  lemma LeaveDisciplined(s: State, node: Node, link: Link, threshold: nat)
    requires Sound(s)
    ensures var entered := Step(s, Enter(node, link), threshold);
            Sound(entered)
            && Disciplined(Contents(entered, node, threshold), Leave(node, link), threshold)
  {
    if node.kind.Function? {
      LeaveFunctionDisciplined(s, node, link, threshold);
    } else {
      LeavePlainDisciplined(s, node, link, threshold);
    }
  }

  lemma LeaveFunctionDisciplined(s: State, node: Node, link: Link, threshold: nat)
    requires Sound(s) && node.kind.Function?
    ensures var entered := Step(s, Enter(node, link), threshold);
            Sound(entered)
            && Disciplined(Contents(entered, node, threshold), Leave(node, link), threshold)
  {
  }

  lemma LeavePlainDisciplined(s: State, node: Node, link: Link, threshold: nat)
    requires Sound(s) && !node.kind.Function?
    ensures var entered := Step(s, Enter(node, link), threshold);
            Sound(entered)
            && Disciplined(Contents(entered, node, threshold), Leave(node, link), threshold)
  {
  }

  /** Every event of the walk of any subtree is disciplined, from any sound state. */
  lemma {:induction false} WalkDisciplined(s: State, node: Node, link: Link, threshold: nat)
    requires Sound(s)
    ensures DisciplinedRun(s, Walk(node, link), threshold)
    decreases node, 1
  {
    var enter, leave, inside := Enter(node, link), Leave(node, link), WalkAll(node.children, node);
    EnterDisciplined(s, node, link, threshold);
    DisciplinedOne(s, enter, threshold);
    RunOne(s, enter, threshold);
    var entered := Step(s, enter, threshold);
    WalkAllDisciplined(entered, node.children, node, threshold);
    DisciplinedAppend(s, [enter], inside, threshold);
    RunAppend(s, [enter], inside, threshold);
    WalkAllRefines(entered, node.children, node, threshold);
    LeaveDisciplined(s, node, link, threshold);
    DisciplinedOne(Run(s, [enter] + inside, threshold), leave, threshold);
    DisciplinedAppend(s, [enter] + inside, [leave], threshold);
  }

  lemma {:induction false} WalkAllDisciplined(s: State, children: seq<Child>, parent: Node,
                                              threshold: nat)
    requires Sound(s)
    ensures DisciplinedRun(s, WalkAll(children, parent), threshold)
    decreases children, 0
  {
    if children != [] {
      var node, link := children[0].node, In(parent, children[0].field);
      WalkDisciplined(s, node, link, threshold);
      WalkRefines(s, node, link, threshold);
      ChargedKeeps(s, Cost(node, link, InnermostName(s), Depth(s)),
                   Flagged(Functions(node, link), threshold));
      WalkAllDisciplined(Run(s, Walk(node, link), threshold), children[1..], parent, threshold);
      DisciplinedAppend(s, Walk(node, link), WalkAll(children[1..], parent), threshold);
    }
  }

  lemma {:induction false} DisciplinedAt(s: State, events: seq<Event>, i: nat, threshold: nat)
    requires DisciplinedRun(s, events, threshold) && i < |events|
    ensures Disciplined(Run(s, events[..i], threshold), events[i], threshold)
    decreases i
  {
    if i == 0 {
      assert Run(s, events[..0], threshold) == s;
    } else {
      var rest := events[1..];
      DisciplinedAt(Step(s, events[0], threshold), rest, i - 1, threshold);
      assert events[..i] == [events[0]] + rest[..i - 1];
      RunCons(s, events[0], rest[..i - 1], threshold);
      assert events[i] == rest[i - 1];
    }
  }

  lemma RunCons(s: State, event: Event, rest: seq<Event>, threshold: nat)
    ensures Run(s, [event] + rest, threshold) == Run(Step(s, event, threshold), rest, threshold)
  {
    RunAppend(s, [event], rest, threshold);
    RunOne(s, event, threshold);
  }

  /**
   At every event of the walk of a whole program the stack is in order: the mismatch guard in
   the exit handler never fires and no nesting is ever negative.
   */
  lemma EveryEventDisciplined(root: Node, i: nat, threshold: nat)
    requires i < |Walk(root, Root)|
    ensures Disciplined(Run(Start, Walk(root, Root)[..i], threshold), Walk(root, Root)[i], threshold)
  {
    WalkDisciplined(Start, root, Root, threshold);
    DisciplinedAt(Start, Walk(root, Root), i, threshold);
  }

  /**
   The rule reports exactly the functions whose recursively defined score is above the
   threshold, in the order they are left, and ends with the stack it began with.
   */
  lemma WholeProgram(root: Node, threshold: nat)
    ensures Run(Start, Walk(root, Root), threshold)
         == State([], Flagged(Functions(root, Root), threshold))
  {
    WalkRefines(Start, root, Root, threshold);
  }

  /**
   A function's score, and those of the functions in it, do not depend on how deep it stands or
   what surrounds it: from any two states, and in any two places that give it the same name and
   the same `else` charge, walking it appends the same reports.
   */
  lemma NestedFunctionIgnoresSurroundings(s: State, at: Link, t: State, other: Link, f: Node,
                                          threshold: nat)
    requires Sound(s) && Sound(t) && f.kind.Function?
    requires FunctionName(f, at) == FunctionName(f, other) && IsAlternate(at) == IsAlternate(other)
    ensures var reports := Flagged(Functions(f, at), threshold);
            && Run(s, Walk(f, at), threshold) == State(s.stack, s.reports + reports)
            && Run(t, Walk(f, other), threshold) == State(t.stack, t.reports + reports)
  {
    FunctionWalked(s, f, at, threshold);
    FunctionWalked(t, f, other, threshold);
    SameFlags(f, at, other, threshold);
  }

  /** A function never charges the frame it is walked in. */
  lemma FunctionWalked(s: State, f: Node, at: Link, threshold: nat)
    requires Sound(s) && f.kind.Function?
    ensures Run(s, Walk(f, at), threshold)
         == State(s.stack, s.reports + Flagged(Functions(f, at), threshold))
  {
    WalkRefines(s, f, at, threshold);
    ChargedNothing(s, Flagged(Functions(f, at), threshold));
  }

  lemma SameFlags(f: Node, at: Link, other: Link, threshold: nat)
    requires f.kind.Function?
    requires FunctionName(f, at) == FunctionName(f, other) && IsAlternate(at) == IsAlternate(other)
    ensures Flagged(Functions(f, at), threshold) == Flagged(Functions(f, other), threshold)
  {
    var inner := FunctionsAll(f.children, f);
    FlaggedAppend(inner, [Place(f, at)], threshold);
    FlaggedAppend(inner, [Place(f, other)], threshold);
    FlaggedOne(Place(f, at), threshold);
    FlaggedOne(Place(f, other), threshold);
  }

  /** Emptying or refilling nested functions does not move the innermost frame at all. */
  lemma OuterFrameIgnoresNestedBodies(s: State, a: Node, b: Node, link: Link, threshold: nat)
    requires Sound(s) && Hollow(a) == Hollow(b)
    ensures Run(s, Walk(a, link), threshold).stack == Run(s, Walk(b, link), threshold).stack
  {
    WalkRefines(s, a, link, threshold);
    WalkRefines(s, b, link, threshold);
    CostIgnoresNestedBodies(a, link, b, link, InnermostName(s), Depth(s));
  }
}
