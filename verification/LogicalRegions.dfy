/**
 Runs of logical operators. The rule charges some operator nodes by looking at one parent; what
 it means to charge is one unit for each maximal connected region of nodes with one operator.
 */
module LogicalRegions {
  import opened Options
  import opened Ast
  import opened Metric
  import opened Sets

  /** A tree of operators whose leaves are any other nodes. */
  datatype Expr = Leaf(node: Node) | Op(operator: LogicalOperator, left: Expr, right: Expr)

  predicate LeavesPlain(e: Expr) {
    match e
    case Leaf(node) => !node.kind.LogicalExpression?
    case Op(_, l, r) => LeavesPlain(l) && LeavesPlain(r)
  }

  function ToNode(e: Expr): Node {
    match e
    case Leaf(node) => node
    case Op(operator, l, r) =>
      Node(0, LogicalExpression(operator), [Child("left", ToNode(l)), Child("right", ToNode(r))])
  }

  /** Where a node is: the turns from the top, `true` for right. */
  type Path = seq<bool>

  function At(e: Expr, p: Path): Option<LogicalOperator> {
    match e
    case Leaf(_) => None
    case Op(operator, l, r) => if p == [] then Some(operator) else At(if p[0] then r else l, p[1..])
  }

  predicate CountedAt(e: Expr, p: Path) {
    At(e, p).Some? && IsCounted(At(e, p).value)
  }

  function Above(p: Path): Path
    requires p != []
  {
    p[..|p| - 1]
  }

  // ----- regions

  /** Parent and child with the same counted operator. */
  predicate Adjacent(e: Expr, p: Path, q: Path) {
    && CountedAt(e, p) && At(e, p) == At(e, q)
    && ((q != [] && Above(q) == p) || (p != [] && Above(p) == q))
  }

  predicate IsTrail(e: Expr, trail: seq<Path>) {
    && trail != [] && CountedAt(e, trail[0])
    && forall i :: 0 <= i < |trail| - 1 ==> Adjacent(e, trail[i], trail[i + 1])
  }

  ghost predicate Connected(e: Expr, p: Path, q: Path) {
    exists trail :: IsTrail(e, trail) && trail[0] == p && trail[|trail| - 1] == q
  }

  function Prefixed(turn: bool, paths: set<Path>): set<Path> {
    set p | p in paths :: [turn] + p
  }

  function CountedPaths(e: Expr): set<Path> {
    match e
    case Leaf(_) => {}
    case Op(operator, l, r) =>
      (if IsCounted(operator) then {[]} else {})
      + Prefixed(false, CountedPaths(l)) + Prefixed(true, CountedPaths(r))
  }

  ghost function Region(e: Expr, p: Path): set<Path> {
    set q | q in CountedPaths(e) && Connected(e, p, q)
  }

  ghost function Regions(e: Expr): set<set<Path>> {
    set p | p in CountedPaths(e) :: Region(e, p)
  }

  lemma {:induction false} CountedPathsAt(e: Expr, p: Path)
    ensures p in CountedPaths(e) <==> CountedAt(e, p)
  {
    if e.Op? && p != [] {
      CountedPathsAt(if p[0] then e.right else e.left, p[1..]);
      assert p == [p[0]] + p[1..];
      assert p in Prefixed(p[0], CountedPaths(if p[0] then e.right else e.left))
        <==> p[1..] in CountedPaths(if p[0] then e.right else e.left);
    }
  }

  // ----- the node a region is charged at

  predicate IsHead(e: Expr, p: Path) {
    p == [] || At(e, Above(p)) != At(e, p)
  }

  function Head(e: Expr, p: Path): Path
    decreases |p|
  {
    if IsHead(e, p) then p else Head(e, Above(p))
  }

  /** The way from a node up to its head, and the way back. */
  function Climb(e: Expr, p: Path): seq<Path>
    decreases |p|
  {
    if IsHead(e, p) then [p] else [p] + Climb(e, Above(p))
  }

  function Descend(e: Expr, p: Path): seq<Path>
    decreases |p|
  {
    if IsHead(e, p) then [p] else Descend(e, Above(p)) + [p]
  }

  lemma {:induction false} ClimbIsTrail(e: Expr, p: Path)
    requires CountedAt(e, p)
    ensures IsTrail(e, Climb(e, p))
    ensures Climb(e, p)[0] == p && Climb(e, p)[|Climb(e, p)| - 1] == Head(e, p)
    decreases |p|
  {
    if !IsHead(e, p) {
      ClimbIsTrail(e, Above(p));
      var trail := Climb(e, p);
      forall i | 0 <= i < |trail| - 1
        ensures Adjacent(e, trail[i], trail[i + 1])
      {
        if i > 0 {
          assert trail[i] == Climb(e, Above(p))[i - 1];
        }
      }
    }
  }

  lemma {:induction false} DescendIsTrail(e: Expr, p: Path)
    requires CountedAt(e, p)
    ensures IsTrail(e, Descend(e, p))
    ensures Descend(e, p)[0] == Head(e, p) && Descend(e, p)[|Descend(e, p)| - 1] == p
    decreases |p|
  {
    if !IsHead(e, p) {
      DescendIsTrail(e, Above(p));
    }
  }

  lemma {:induction false} TrailKeepsHead(e: Expr, trail: seq<Path>)
    requires IsTrail(e, trail)
    ensures Head(e, trail[0]) == Head(e, trail[|trail| - 1])
    ensures CountedAt(e, trail[|trail| - 1])
  {
    if |trail| > 1 {
      assert Adjacent(e, trail[0], trail[1]);
      var rest := trail[1..];
      forall i | 0 <= i < |rest| - 1
        ensures Adjacent(e, rest[i], rest[i + 1])
      {
        assert Adjacent(e, trail[i + 1], trail[i + 2]);
      }
      TrailKeepsHead(e, rest);
    }
  }

  /** Two nodes are in one region exactly when they share a head. */
  lemma ConnectedIffSameHead(e: Expr, p: Path, q: Path)
    requires CountedAt(e, p) && CountedAt(e, q)
    ensures Connected(e, p, q) <==> Head(e, p) == Head(e, q)
  {
    if Connected(e, p, q) {
      var trail :| IsTrail(e, trail) && trail[0] == p && trail[|trail| - 1] == q;
      TrailKeepsHead(e, trail);
    }
    if Head(e, p) == Head(e, q) {
      ClimbIsTrail(e, p);
      DescendIsTrail(e, q);
      var up, down := Climb(e, p), Descend(e, q);
      var trail := up + down[1..];
      forall i | 0 <= i < |trail| - 1
        ensures Adjacent(e, trail[i], trail[i + 1])
      {
        if i >= |up| - 1 {
          var j := i - (|up| - 1);
          assert Adjacent(e, down[j], down[j + 1]);
        }
      }
      assert IsTrail(e, trail) && trail[0] == p && trail[|trail| - 1] == q;
    }
  }

  lemma {:induction false} HeadIsHead(e: Expr, p: Path)
    requires CountedAt(e, p)
    ensures CountedAt(e, Head(e, p)) && IsHead(e, Head(e, p))
    decreases |p|
  {
    if !IsHead(e, p) {
      HeadIsHead(e, Above(p));
    }
  }

  // ----- counting

  /** The heads of the regions, of a tree that stands under the operator `above`. */
  function Heads(e: Expr, above: Option<LogicalOperator>): set<Path> {
    set p | p in CountedPaths(e) && (if p == [] then At(e, p) != above else IsHead(e, p))
  }

  /** The charged nodes, counted as the rule does, by looking at one parent. */
  function ChargedOperators(e: Expr, above: Option<LogicalOperator>): nat {
    match e
    case Leaf(_) => 0
    case Op(operator, l, r) =>
      (if IsCounted(operator) && above != Some(operator) then 1 else 0)
      + ChargedOperators(l, Some(operator)) + ChargedOperators(r, Some(operator))
  }

  lemma HeadsBelow(e: Expr, above: Option<LogicalOperator>, turn: bool, p: Path)
    requires e.Op?
    ensures [turn] + p in Heads(e, above)
       <==> p in Heads(if turn then e.right else e.left, Some(e.operator))
  {
    var sub := if turn then e.right else e.left;
    CountedPathsAt(e, [turn] + p);
    CountedPathsAt(sub, p);
    assert ([turn] + p)[1..] == p;
    if p != [] {
      assert Above([turn] + p)[1..] == Above(p);
    }
  }

  lemma HeadsSplit(e: Expr, above: Option<LogicalOperator>)
    requires e.Op?
    ensures Heads(e, above)
         == (if IsCounted(e.operator) && above != Some(e.operator) then {[]} else {})
            + Prefixed(false, Heads(e.left, Some(e.operator)))
            + Prefixed(true, Heads(e.right, Some(e.operator)))
  {
    var whole := (if IsCounted(e.operator) && above != Some(e.operator) then {[]} else {})
                 + Prefixed(false, Heads(e.left, Some(e.operator)))
                 + Prefixed(true, Heads(e.right, Some(e.operator)));
    forall p: Path
      ensures p in Heads(e, above) <==> p in whole
    {
      CountedPathsAt(e, p);
      if p != [] {
        HeadsBelow(e, above, p[0], p[1..]);
        assert p == [p[0]] + p[1..];
        assert p in Prefixed(p[0], Heads(if p[0] then e.right else e.left, Some(e.operator)))
          <==> p[1..] in Heads(if p[0] then e.right else e.left, Some(e.operator));
      }
    }
  }

  lemma PrefixedSize(turn: bool, paths: set<Path>)
    ensures |Prefixed(turn, paths)| == |paths|
  {
    forall x: Path, y: Path | [turn] + x == [turn] + y
      ensures x == y
    {
      assert x == ([turn] + x)[1..] && y == ([turn] + y)[1..];
    }
    ImageSize(paths, p => [turn] + p, Prefixed(turn, paths));
  }

  lemma {:induction false} ChargedAreHeads(e: Expr, above: Option<LogicalOperator>)
    ensures ChargedOperators(e, above) == |Heads(e, above)|
  {
    if e.Op? {
      HeadsSplit(e, above);
      ChargedAreHeads(e.left, Some(e.operator));
      ChargedAreHeads(e.right, Some(e.operator));
      var left := Prefixed(false, Heads(e.left, Some(e.operator)));
      var right := Prefixed(true, Heads(e.right, Some(e.operator)));
      PrefixedSize(false, Heads(e.left, Some(e.operator)));
      PrefixedSize(true, Heads(e.right, Some(e.operator)));
      assert left !! right !! {[]};
    }
  }

  lemma SameHeadSameRegion(e: Expr, p: Path, q: Path)
    requires CountedAt(e, p) && CountedAt(e, q)
    ensures Region(e, p) == Region(e, q) <==> Head(e, p) == Head(e, q)
  {
    forall r | r in CountedPaths(e)
      ensures Connected(e, p, r) <==> Head(e, p) == Head(e, r)
      ensures Connected(e, q, r) <==> Head(e, q) == Head(e, r)
    {
      CountedPathsAt(e, r);
      ConnectedIffSameHead(e, p, r);
      ConnectedIffSameHead(e, q, r);
    }
    CountedPathsAt(e, p);
    assert p in Region(e, p);
  }

  /** There are as many regions as heads. */
  lemma RegionsAreHeads(e: Expr)
    ensures |Regions(e)| == |Heads(e, None)|
  {
    var heads := Heads(e, None);
    forall h, g | h in heads && g in heads && Region(e, h) == Region(e, g)
      ensures h == g
    {
      CountedPathsAt(e, h);
      CountedPathsAt(e, g);
      SameHeadSameRegion(e, h, g);
    }
    forall p | p in CountedPaths(e)
      ensures Head(e, p) in heads && Region(e, p) == Region(e, Head(e, p))
    {
      CountedPathsAt(e, p);
      HeadIsHead(e, p);
      CountedPathsAt(e, Head(e, p));
      SameHeadSameRegion(e, p, Head(e, p));
    }
    var image := set h | h in heads :: Region(e, h);
    assert Regions(e) == image;
    ImageSize(heads, h => Region(e, h), image);
  }

  /** The rule charges one unit for each maximal connected region of one counted operator. */
  lemma ChargedAreRegions(e: Expr)
    ensures ChargedOperators(e, None) == |Regions(e)|
  {
    ChargedAreHeads(e, None);
    RegionsAreHeads(e);
  }

  // ----- what an expression costs

  function LeafCosts(e: Expr, name: Option<string>, depth: nat): nat {
    match e
    case Leaf(node) => Cost(node, Root, name, depth)
    case Op(_, l, r) => LeafCosts(l, name, depth) + LeafCosts(r, name, depth)
  }

  function OperatorOver(link: Link): Option<LogicalOperator> {
    if link.In? && link.parent.kind.LogicalExpression? then Some(link.parent.kind.operator) else None
  }

  lemma {:induction false} CostByOperators(e: Expr, link: Link, name: Option<string>, depth: nat)
    requires LeavesPlain(e) && !IsAlternate(link)
    ensures Cost(ToNode(e), link, name, depth)
         == ChargedOperators(e, OperatorOver(link)) + LeafCosts(e, name, depth)
  {
    if e.Op? {
      var node := ToNode(e);
      var cs := node.children;
      CostByOperators(e.left, In(node, "left"), name, depth);
      CostByOperators(e.right, In(node, "right"), name, depth);
      assert cs[1..] == [cs[1]] && [cs[1]][1..] == [];
      assert CostAll(cs[1..], node, name, depth)
          == Cost(ToNode(e.right), In(node, "right"), name, depth);
    }
  }

  /**
   Wherever an expression stands that is not under an operator itself, it costs one for each
   region of `&&` or `||`, and what its leaves cost; `??` costs nothing and separates regions.
   */
  lemma ExpressionCost(e: Expr, link: Link, name: Option<string>, depth: nat)
    requires LeavesPlain(e) && !IsAlternate(link) && OperatorOver(link).None?
    ensures Cost(ToNode(e), link, name, depth) == |Regions(e)| + LeafCosts(e, name, depth)
  {
    CostByOperators(e, link, name, depth);
    ChargedAreRegions(e);
  }

  predicate OnlyOperator(e: Expr, operator: LogicalOperator) {
    e.Op? ==> e.operator == operator && OnlyOperator(e.left, operator) && OnlyOperator(e.right, operator)
  }

  lemma {:induction false} OneOperatorCharges(e: Expr, operator: LogicalOperator,
                                              above: Option<LogicalOperator>)
    requires OnlyOperator(e, operator)
    ensures ChargedOperators(e, above)
         == if e.Op? && IsCounted(operator) && above != Some(operator) then 1 else 0
  {
    if e.Op? {
      OneOperatorCharges(e.left, operator, Some(operator));
      OneOperatorCharges(e.right, operator, Some(operator));
    }
  }

  /** A chain of one operator, however long and however bracketed, is one region, or none for `??`. */
  lemma OneOperatorOneRegion(e: Expr, operator: LogicalOperator)
    requires e.Op? && OnlyOperator(e, operator)
    ensures |Regions(e)| == match operator case And => 1 case Or => 1 case Coalesce => 0
  {
    OneOperatorCharges(e, operator, None);
    ChargedAreRegions(e);
  }

  // ----- the operators by name

  /** `??` costs nothing, and lets either side cost what it would cost alone. */
  lemma CoalesceCost(l: Expr, r: Expr, link: Link, name: Option<string>, depth: nat)
    requires LeavesPlain(l) && LeavesPlain(r) && !IsAlternate(link)
    ensures Cost(ToNode(Op(Coalesce, l, r)), link, name, depth)
         == Cost(ToNode(l), Root, name, depth) + Cost(ToNode(r), Root, name, depth)
  {
    CostByOperators(Op(Coalesce, l, r), link, name, depth);
    CostByOperators(l, Root, name, depth);
    CostByOperators(r, Root, name, depth);
    NotUnder(l, Coalesce);
    NotUnder(r, Coalesce);
  }

  /** Standing under an operator saves the topmost charge when the operator is the same. */
  lemma NotUnder(e: Expr, above: LogicalOperator)
    ensures ChargedOperators(e, Some(above))
         == ChargedOperators(e, None)
            - if above != Coalesce && e.Op? && e.operator == above then 1 else 0
  {
  }

  /** `&&` or `||` costs 1, and saves the 1 of either side that begins with the same operator. */
  lemma BranchingCost(operator: LogicalOperator, l: Expr, r: Expr, link: Link, name: Option<string>,
                      depth: nat)
    requires operator == And || operator == Or
    requires LeavesPlain(l) && LeavesPlain(r) && !IsAlternate(link) && OperatorOver(link).None?
    ensures Cost(ToNode(Op(operator, l, r)), link, name, depth)
         == 1
            + Cost(ToNode(l), Root, name, depth) - (if l.Op? && l.operator == operator then 1 else 0)
            + Cost(ToNode(r), Root, name, depth) - (if r.Op? && r.operator == operator then 1 else 0)
  {
    CostByOperators(Op(operator, l, r), link, name, depth);
    CostByOperators(l, Root, name, depth);
    CostByOperators(r, Root, name, depth);
    NotUnder(l, operator);
    NotUnder(r, operator);
  }

  /** A chain of one operator: 1 for `&&` or `||`, nothing for `??`, however long and bracketed. */
  lemma ChainOfOneOperator(e: Expr, operator: LogicalOperator, link: Link, name: Option<string>,
                           depth: nat)
    requires e.Op? && OnlyOperator(e, operator)
    requires LeavesPlain(e) && !IsAlternate(link) && OperatorOver(link).None?
    ensures Cost(ToNode(e), link, name, depth)
         == LeafCosts(e, name, depth) + match operator case And => 1 case Or => 1 case Coalesce => 0
  {
    OneOperatorCharges(e, operator, None);
    CostByOperators(e, link, name, depth);
  }

  /** The regions cover exactly the `&&` and `||` nodes, and each has one of the two throughout. */
  lemma RegionOperators(e: Expr, p: Path, q: Path)
    ensures p in CountedPaths(e) <==> At(e, p) == Some(And) || At(e, p) == Some(Or)
    ensures p in CountedPaths(e) && q in Region(e, p) ==> At(e, q) == At(e, p)
  {
    CountedPathsAt(e, p);
    if p in CountedPaths(e) && q in Region(e, p) {
      var trail :| IsTrail(e, trail) && trail[0] == p && trail[|trail| - 1] == q;
      TrailKeepsOperator(e, trail);
    }
  }

  lemma {:induction false} TrailKeepsOperator(e: Expr, trail: seq<Path>)
    requires IsTrail(e, trail)
    ensures At(e, trail[0]) == At(e, trail[|trail| - 1])
  {
    if |trail| > 1 {
      var before := trail[..|trail| - 1];
      assert Adjacent(e, trail[|before| - 1], trail[|before|]);
      forall i | 0 <= i < |before| - 1
        ensures Adjacent(e, before[i], before[i + 1])
      {
        assert Adjacent(e, trail[i], trail[i + 1]);
      }
      TrailKeepsOperator(e, before);
    }
  }
}
