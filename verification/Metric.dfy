/**
 Cognitive complexity as a function of the tree, with the laws the metric is for: what depth
 costs, what a nested function costs its parent, and what chains and staircases cost.
 */
module Metric {
  import opened Options
  import opened Ast

  // ----- the recursive definition

  /** What a node costs by itself when it stands at the given depth of a function called `name`. */
  function OwnCharge(node: Node, link: Link, name: Option<string>, depth: nat): nat {
    match node.kind
    case IfStatement => if IsAlternate(link) then 1 else 1 + depth
    case Nesting(_) => 1 + depth
    case LogicalExpression(operator) =>
      if IsCounted(operator) && StartsLogicalSequence(operator, link) then 1 else 0
    case CallExpression => if IsRecursiveCall(node, name) then 1 else 0
    case Jump(_) => if Get(node, "label").Some? then 1 else 0
    case _ => 0
  }

  /** The flat charge for an `else` that is not an `else if`. */
  function ElseCharge(node: Node, link: Link): nat {
    if IsAlternate(link) && !node.kind.IfStatement? then 1 else 0
  }

  function Inside(node: Node, link: Link, depth: nat): nat {
    if BearsSurcharge(node, link) then depth + 1 else depth
  }

  /** What a subtree adds to the function around it. A nested function adds nothing. */
  function Cost(node: Node, link: Link, name: Option<string>, depth: nat): nat
    decreases node, 1
  {
    if node.kind.Function? then 0
    else
      OwnCharge(node, link, name, depth) + ElseCharge(node, link)
      + CostAll(node.children, node, name, Inside(node, link, depth))
  }

  function CostAll(children: seq<Child>, parent: Node, name: Option<string>, depth: nat): nat
    decreases children, 0
  {
    if children == [] then 0
    else
      Cost(children[0].node, In(parent, children[0].field), name, depth)
      + CostAll(children[1..], parent, name, depth)
  }

  /** The score of a function: its contents from depth 0, under the function's own name. */
  function FunctionScore(node: Node, link: Link): nat {
    ElseCharge(node, link) + CostAll(node.children, node, FunctionName(node, link), 0)
  }

  // ----- the reports

  datatype Place = Place(node: Node, link: Link)

  /** `at` is the node the message points to, `called` how the message names the function. */
  datatype Report = Report(at: Node, called: string, complexity: nat)

  /** Every function of the tree, in the order the walk leaves them. */
  function Functions(node: Node, link: Link): seq<Place>
    decreases node, 1
  {
    FunctionsAll(node.children, node)
    + if node.kind.Function? then [Place(node, link)] else []
  }

  function FunctionsAll(children: seq<Child>, parent: Node): seq<Place>
    decreases children, 0
  {
    if children == [] then []
    else
      Functions(children[0].node, In(parent, children[0].field))
      + FunctionsAll(children[1..], parent)
  }

  function Label(name: Option<string>): string {
    if Truthy(name) then "'" + name.value + "'" else "this function"
  }

  function ReportFor(node: Node, name: Option<string>, complexity: nat): Report {
    var id := Get(node, "id");
    Report(if id.Some? then id.value else node, Label(name), complexity)
  }

  /** The report on one function, when it scores above the threshold. */
  function Flag(f: Place, threshold: nat): seq<Report> {
    var score := FunctionScore(f.node, f.link);
    if score > threshold then [ReportFor(f.node, FunctionName(f.node, f.link), score)] else []
  }

  /** The functions that score above the threshold, each with its report, in order. */
  function Flagged(places: seq<Place>, threshold: nat): seq<Report> {
    if places == [] then [] else Flag(places[0], threshold) + Flagged(places[1..], threshold)
  }

  lemma {:induction false} FlaggedAppend(a: seq<Place>, b: seq<Place>, threshold: nat)
    ensures Flagged(a + b, threshold) == Flagged(a, threshold) + Flagged(b, threshold)
  {
    if a == [] {
      assert a + b == b;
    } else {
      assert (a + b)[1..] == a[1..] + b;
      FlaggedAppend(a[1..], b, threshold);
      Associative(Flag(a[0], threshold), Flagged(a[1..], threshold), Flagged(b, threshold));
    }
  }

  lemma Associative(x: seq<Report>, y: seq<Report>, z: seq<Report>)
    ensures x + (y + z) == x + y + z
  {
  }

  lemma FlaggedOne(f: Place, threshold: nat)
    ensures Flagged([f], threshold) == Flag(f, threshold)
  {
    assert [f][1..] == [];
  }

  // ----- the definition as a plain sum over the nodes a function owns

  /** An owned node and its ancestors up to, and without, the function that owns it. */
  datatype Site = Site(place: Place, above: seq<Place>)

  function Owned(node: Node, link: Link, above: seq<Place>): seq<Site>
    decreases node, 1
  {
    if node.kind.Function? then []
    else
      [Site(Place(node, link), above)]
      + OwnedAll(node.children, node, above + [Place(node, link)])
  }

  function OwnedAll(children: seq<Child>, parent: Node, above: seq<Place>): seq<Site>
    decreases children, 0
  {
    if children == [] then []
    else
      Owned(children[0].node, In(parent, children[0].field), above)
      + OwnedAll(children[1..], parent, above)
  }

  /** How many of the ancestors deepen what is inside them. */
  function DepthOf(above: seq<Place>): nat {
    if above == [] then 0
    else
      DepthOf(above[..|above| - 1])
      + if BearsSurcharge(above[|above| - 1].node, above[|above| - 1].link) then 1 else 0
  }

  /** One break in the flow, and one more for every structure it is nested in. */
  function SiteCharge(site: Site, name: Option<string>): nat {
    var Place(node, link) := site.place;
    ElseCharge(node, link)
    + if BearsSurcharge(node, link) then 1 + DepthOf(site.above)
      else OwnCharge(node, link, name, 0)
  }

  function SumCharges(sites: seq<Site>, name: Option<string>): nat {
    if sites == [] then 0 else SiteCharge(sites[0], name) + SumCharges(sites[1..], name)
  }

  lemma {:induction false} SumChargesAppend(a: seq<Site>, b: seq<Site>, name: Option<string>)
    ensures SumCharges(a + b, name) == SumCharges(a, name) + SumCharges(b, name)
  {
    if a == [] {
      assert a + b == b;
    } else {
      assert (a + b)[1..] == a[1..] + b;
      SumChargesAppend(a[1..], b, name);
    }
  }

  lemma {:induction false} CostIsSum(node: Node, link: Link, name: Option<string>, above: seq<Place>)
    ensures Cost(node, link, name, DepthOf(above)) == SumCharges(Owned(node, link, above), name)
    decreases node, 1
  {
    if !node.kind.Function? {
      var here := [Site(Place(node, link), above)];
      var inner := above + [Place(node, link)];
      assert inner[..|inner| - 1] == above;
      CostAllIsSum(node.children, node, name, inner);
      SumChargesAppend(here, OwnedAll(node.children, node, inner), name);
      assert SumCharges(here, name) == SiteCharge(here[0], name) + SumCharges(here[1..], name);
    }
  }

  lemma {:induction false} CostAllIsSum(children: seq<Child>, parent: Node, name: Option<string>,
                                        above: seq<Place>)
    ensures CostAll(children, parent, name, DepthOf(above))
         == SumCharges(OwnedAll(children, parent, above), name)
    decreases children, 0
  {
    if children != [] {
      var link := In(parent, children[0].field);
      CostIsSum(children[0].node, link, name, above);
      CostAllIsSum(children[1..], parent, name, above);
      SumChargesAppend(Owned(children[0].node, link, above),
                       OwnedAll(children[1..], parent, above), name);
    }
  }

  /**
   A function's score is the sum, over the nodes it owns, of 1 for each break in the flow plus 1
   for each nesting structure of the same function around it.
   */
  lemma ScoreIsSumOverOwnedNodes(node: Node, link: Link)
    ensures FunctionScore(node, link)
         == ElseCharge(node, link)
            + SumCharges(OwnedAll(node.children, node, []), FunctionName(node, link))
  {
    CostAllIsSum(node.children, node, FunctionName(node, link), []);
  }

  /**
   A function's score is exactly that sum unless the function itself is what follows `else`: then
   the charge for the `else` is on top of it.
   */
  lemma ScoreIsSumIffNotAlternate(f: Node, link: Link)
    requires f.kind.Function?
    ensures FunctionScore(f, link) == SumCharges(OwnedAll(f.children, f, []), FunctionName(f, link))
       <==> !IsAlternate(link)
  {
    ScoreIsSumOverOwnedNodes(f, link);
  }

  // ----- depth

  /** How many of the nodes pay for depth. */
  function Surcharged(sites: seq<Site>): nat {
    if sites == [] then 0
    else
      (if BearsSurcharge(sites[0].place.node, sites[0].place.link) then 1 else 0)
      + Surcharged(sites[1..])
  }

  lemma {:induction false} SurchargedAppend(a: seq<Site>, b: seq<Site>)
    ensures Surcharged(a + b) == Surcharged(a) + Surcharged(b)
  {
    if a == [] {
      assert a + b == b;
    } else {
      assert (a + b)[1..] == a[1..] + b;
      SurchargedAppend(a[1..], b);
    }
  }

  lemma SurchargedCons(site: Site, sites: seq<Site>)
    ensures Surcharged([site] + sites)
         == (if BearsSurcharge(site.place.node, site.place.link) then 1 else 0) + Surcharged(sites)
  {
  }

  lemma OwnChargeShift(node: Node, link: Link, name: Option<string>, depth: nat, k: nat)
    ensures Inside(node, link, depth + k) == Inside(node, link, depth) + k
    ensures OwnCharge(node, link, name, depth + k)
         == OwnCharge(node, link, name, depth)
            + k * (if BearsSurcharge(node, link) then 1 else 0)
  {
  }

  lemma DistributeOver(k: int, a: int, b: int)
    ensures k * (a + b) == k * a + k * b
  {
  }

  /**
   Moving a subtree k levels deeper costs exactly k for each of its nodes that pays for depth;
   `else`, `else if`, operators, recursion and labelled jumps cost what they did.
   */
  lemma {:induction false} DepthShift(node: Node, link: Link, name: Option<string>, depth: nat,
                                      k: nat, above: seq<Place>)
    ensures Cost(node, link, name, depth + k)
         == Cost(node, link, name, depth) + k * Surcharged(Owned(node, link, above))
    decreases node, 1
  {
    if !node.kind.Function? {
      var inner := above + [Place(node, link)];
      OwnChargeShift(node, link, name, depth, k);
      DepthShiftAll(node.children, node, name, Inside(node, link, depth), k, inner);
      DistributeOver(k, if BearsSurcharge(node, link) then 1 else 0,
                     Surcharged(OwnedAll(node.children, node, inner)));
      SurchargedCons(Site(Place(node, link), above), OwnedAll(node.children, node, inner));
    }
  }

  lemma {:induction false} DepthShiftAll(children: seq<Child>, parent: Node, name: Option<string>,
                                         depth: nat, k: nat, above: seq<Place>)
    ensures CostAll(children, parent, name, depth + k)
         == CostAll(children, parent, name, depth)
            + k * Surcharged(OwnedAll(children, parent, above))
    decreases children, 0
  {
    if children != [] {
      var link := In(parent, children[0].field);
      var first := Owned(children[0].node, link, above);
      var rest := OwnedAll(children[1..], parent, above);
      DepthShift(children[0].node, link, name, depth, k, above);
      DepthShiftAll(children[1..], parent, name, depth, k, above);
      SurchargedAppend(first, rest);
      DistributeOver(k, Surcharged(first), Surcharged(rest));
    }
  }

  lemma NothingOrMore(k: nat, n: nat)
    requires k > 0
    ensures k * n == 0 <==> n == 0
  {
  }

  /**
   The documentation lets a function raise the nesting for its own contents; the code begins every
   function at depth 0. For a function nested at any depth the two give the same score exactly
   when none of the nodes it owns pays for depth.
   */
  lemma DocumentedNestingIff(node: Node, link: Link, raised: nat)
    requires raised > 0
    ensures FunctionScore(node, link)
              == ElseCharge(node, link) + CostAll(node.children, node, FunctionName(node, link), raised)
       <==> Surcharged(OwnedAll(node.children, node, [])) == 0
  {
    DepthShiftAll(node.children, node, FunctionName(node, link), 0, raised, []);
    NothingOrMore(raised, Surcharged(OwnedAll(node.children, node, [])));
  }
}
