/** What the two ways of writing several tests cost: one after the other, and inside each other. */
module Shapes {
  import opened Options
  import opened Ast
  import opened Metric

  function If(test: Node, consequent: Node, alternate: Option<Node>): Node {
    Node(0, IfStatement,
         [Child("test", test), Child("consequent", consequent)]
         + if alternate.Some? then [Child("alternate", alternate.value)] else [])
  }

  function Block(node: Node): Node {
    Node(0, Other("BlockStatement"), [Child("body", node)])
  }

  /** `if … else if … else if … else last` */
  function Chain(tests: seq<Node>, bodies: seq<Node>, last: Option<Node>): Node
    requires |tests| == |bodies| > 0
  {
    If(tests[0], bodies[0],
       if |tests| == 1 then last else Some(Chain(tests[1..], bodies[1..], last)))
  }

  /** `if … { if … { if … leaf } }` */
  function Staircase(tests: seq<Node>, leaf: Node): Node {
    if tests == [] then leaf else If(tests[0], Block(Staircase(tests[1..], leaf)), None)
  }

  /** What the nodes cost when all stand at one depth. */
  function Level(nodes: seq<Node>, name: Option<string>, depth: nat): nat {
    if nodes == [] then 0 else Cost(nodes[0], Root, name, depth) + Level(nodes[1..], name, depth)
  }

  /** What the nodes cost when each stands one level deeper than the one before. */
  function Descending(nodes: seq<Node>, name: Option<string>, depth: nat): nat {
    if nodes == [] then 0
    else Cost(nodes[0], Root, name, depth) + Descending(nodes[1..], name, depth + 1)
  }

  /** Only an `if` can tell that it follows `else`, and only an operator what is above it. */
  lemma CostUnder(node: Node, link: Link, name: Option<string>, depth: nat)
    requires link.In? ==> !link.parent.kind.LogicalExpression?
    requires IsAlternate(link) ==> !node.kind.IfStatement?
    ensures Cost(node, link, name, depth)
         == Cost(node, Root, name, depth)
            + if IsAlternate(link) && !node.kind.Function? then 1 else 0
  {
  }

  lemma CostAllCons(child: Child, rest: seq<Child>, parent: Node, name: Option<string>, depth: nat)
    ensures CostAll([child] + rest, parent, name, depth)
         == Cost(child.node, In(parent, child.field), name, depth)
            + CostAll(rest, parent, name, depth)
  {
  }

  lemma CostOfIf(test: Node, consequent: Node, alternate: Option<Node>, link: Link,
                 name: Option<string>, depth: nat)
    ensures var node := If(test, consequent, alternate);
            var inner := Inside(node, link, depth);
            Cost(node, link, name, depth)
            == OwnCharge(node, link, name, depth)
               + Cost(test, Root, name, inner) + Cost(consequent, Root, name, inner)
               + if alternate.Some? then Cost(alternate.value, In(node, "alternate"), name, inner)
                 else 0
  {
    var node := If(test, consequent, alternate);
    var inner := Inside(node, link, depth);
    var tail := if alternate.Some? then [Child("alternate", alternate.value)] else [];
    CostUnder(test, In(node, "test"), name, inner);
    CostUnder(consequent, In(node, "consequent"), name, inner);
    assert node.children == [Child("test", test)] + ([Child("consequent", consequent)] + tail);
    CostAllCons(Child("test", test), [Child("consequent", consequent)] + tail, node, name, inner);
    CostAllCons(Child("consequent", consequent), tail, node, name, inner);
    if alternate.Some? {
      CostAllCons(tail[0], [], node, name, inner);
    }
  }

  /**
   An `else` costs the function around it 1, and what follows it; but a function that follows it
   takes the charge along, and the function around is charged as if there were no `else`.
   */
  lemma ElseCost(test: Node, consequent: Node, alternate: Node, link: Link, name: Option<string>,
                 depth: nat)
    requires !alternate.kind.IfStatement?
    ensures Cost(If(test, consequent, Some(alternate)), link, name, depth)
         == Cost(If(test, consequent, None), link, name, depth)
            + if alternate.kind.Function? then 0
              else 1 + Cost(alternate, Root, name, Inside(If(test, consequent, None), link, depth))
  {
    var node := If(test, consequent, Some(alternate));
    CostOfIf(test, consequent, Some(alternate), link, name, depth);
    CostOfIf(test, consequent, None, link, name, depth);
    CostUnder(alternate, In(node, "alternate"), name, Inside(node, link, depth));
  }

  lemma {:induction false} ElseIfChainCost(tests: seq<Node>, bodies: seq<Node>, last: Option<Node>,
                                           link: Link, name: Option<string>, depth: nat)
    requires |tests| == |bodies| > 0 && IsAlternate(link)
    requires last.Some? ==> !last.value.kind.IfStatement? && !last.value.kind.Function?
    ensures Cost(Chain(tests, bodies, last), link, name, depth)
         == |tests| + Level(tests, name, depth) + Level(bodies, name, depth)
            + if last.Some? then 1 + Cost(last.value, Root, name, depth) else 0
  {
    var alternate :=
      if |tests| == 1 then last else Some(Chain(tests[1..], bodies[1..], last));
    var node := If(tests[0], bodies[0], alternate);
    CostOfIf(tests[0], bodies[0], alternate, link, name, depth);
    if |tests| == 1 {
      if last.Some? {
        CostUnder(last.value, In(node, "alternate"), name, depth);
      }
      assert tests[1..] == [] && bodies[1..] == [];
    } else {
      ElseIfChainCost(tests[1..], bodies[1..], last, In(node, "alternate"), name, depth);
    }
  }

  /**
   A chain of n tests at depth d costs d + n, and 1 for a final `else`, on top of what its tests
   and bodies cost one level down: the depth is paid once, by the first `if`.
   */
  lemma ChainCost(tests: seq<Node>, bodies: seq<Node>, last: Option<Node>,
                  link: Link, name: Option<string>, depth: nat)
    requires |tests| == |bodies| > 0 && !IsAlternate(link)
    requires last.Some? ==> !last.value.kind.IfStatement? && !last.value.kind.Function?
    ensures Cost(Chain(tests, bodies, last), link, name, depth)
         == depth + |tests| + Level(tests, name, depth + 1) + Level(bodies, name, depth + 1)
            + if last.Some? then 1 + Cost(last.value, Root, name, depth + 1) else 0
  {
    var alternate :=
      if |tests| == 1 then last else Some(Chain(tests[1..], bodies[1..], last));
    var node := If(tests[0], bodies[0], alternate);
    CostOfIf(tests[0], bodies[0], alternate, link, name, depth);
    if |tests| == 1 {
      if last.Some? {
        CostUnder(last.value, In(node, "alternate"), name, depth + 1);
      }
      assert tests[1..] == [] && bodies[1..] == [];
    } else {
      ElseIfChainCost(tests[1..], bodies[1..], last, In(node, "alternate"), name, depth + 1);
    }
  }

  /** 1 + 2 + … + n */
  function Triangle(n: nat): nat {
    if n == 0 then 0 else n + Triangle(n - 1)
  }

  lemma {:induction false} TriangleFormula(n: nat)
    ensures Triangle(n) == n * (n + 1) / 2
  {
    if n > 0 {
      TriangleFormula(n - 1);
      assert n * (n + 1) == (n - 1) * n + 2 * n;
    }
  }

  lemma {:induction false} StaircaseSteps(tests: seq<Node>, leaf: Node, link: Link,
                                          name: Option<string>, depth: nat)
    requires link.In? ==> !link.parent.kind.LogicalExpression? && !IsAlternate(link)
    ensures Cost(Staircase(tests, leaf), link, name, depth)
         == |tests| * depth + Triangle(|tests|)
            + Descending(tests, name, depth + 1) + Cost(leaf, Root, name, depth + |tests|)
  {
    if tests == [] {
      CostUnder(leaf, link, name, depth);
    } else {
      var block := Block(Staircase(tests[1..], leaf));
      CostOfIf(tests[0], block, None, link, name, depth);
      CostOfBlock(Staircase(tests[1..], leaf), name, depth + 1);
      StaircaseSteps(tests[1..], leaf, In(block, "body"), name, depth + 1);
      NextStep(|tests|, depth);
      assert depth + 1 + |tests[1..]| == depth + |tests|;
    }
  }

  lemma CostOfBlock(node: Node, name: Option<string>, depth: nat)
    ensures Cost(Block(node), Root, name, depth) == Cost(node, In(Block(node), "body"), name, depth)
  {
    assert Block(node).children == [Child("body", node)] + [];
    CostAllCons(Child("body", node), [], Block(node), name, depth);
  }

  lemma NextStep(n: nat, depth: nat)
    requires n > 0
    ensures (n - 1) * (depth + 1) + Triangle(n - 1) + 1 + depth == n * depth + Triangle(n)
  {
    calc {
      (n - 1) * (depth + 1);
      n * (depth + 1) - (depth + 1);
      n * depth + n - depth - 1;
    }
  }

  /**
   n tests nested inside each other at depth d cost n*d + n(n+1)/2 on top of what the tests and
   the innermost body cost: every level pays for all the levels above it.
   */
  lemma StaircaseCost(tests: seq<Node>, leaf: Node, link: Link, name: Option<string>, depth: nat)
    requires link.In? ==> !link.parent.kind.LogicalExpression? && !IsAlternate(link)
    ensures var n := |tests|;
            Cost(Staircase(tests, leaf), link, name, depth)
            == n * depth + n * (n + 1) / 2
               + Descending(tests, name, depth + 1) + Cost(leaf, Root, name, depth + n)
  {
    StaircaseSteps(tests, leaf, link, name, depth);
    TriangleFormula(|tests|);
  }
}
