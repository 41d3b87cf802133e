/** What a nested function is to the function around it: nothing but its place in the tree. */
module Isolation {
  import opened Options
  import opened Ast
  import opened Metric

  /** The tree with every nested function emptied and the identities forgotten. */
  function Hollow(node: Node): Node
    decreases node, 1
  {
    Node(0, node.kind, if node.kind.Function? then [] else HollowAll(node.children))
  }

  function HollowAll(children: seq<Child>): seq<Child>
    decreases children, 0
  {
    if children == [] then []
    else [Child(children[0].field, Hollow(children[0].node))] + HollowAll(children[1..])
  }

  /** Two places that look the same to their occupant: same field, same type of parent. */
  predicate Alike(a: Link, b: Link) {
    if a.In? && b.In? then a.parent.kind == b.parent.kind && a.field == b.field else a == b
  }

  lemma {:induction false} HollowLookup(children: seq<Child>, field: string)
    ensures var found := Lookup(children, field);
            Lookup(HollowAll(children), field)
            == if found.Some? then Some(Hollow(found.value)) else None
  {
    if children != [] && children[0].field != field {
      HollowLookup(children[1..], field);
      assert HollowAll(children)[1..] == HollowAll(children[1..]);
    }
  }

  lemma {:induction false} HollowParts(a: seq<Child>, b: seq<Child>)
    requires HollowAll(a) == HollowAll(b)
    ensures a == [] <==> b == []
    ensures a != [] ==>
              && a[0].field == b[0].field
              && Hollow(a[0].node) == Hollow(b[0].node)
              && HollowAll(a[1..]) == HollowAll(b[1..])
  {
    if a != [] {
      assert HollowAll(a)[0] == HollowAll(b)[0];
      assert HollowAll(a)[1..] == HollowAll(a[1..]);
      assert HollowAll(b)[1..] == HollowAll(b[1..]);
    }
  }

  lemma SameLookup(a: seq<Child>, b: seq<Child>, field: string)
    requires HollowAll(a) == HollowAll(b)
    ensures Lookup(a, field).Some? == Lookup(b, field).Some?
    ensures Lookup(a, field).Some? ==>
              Hollow(Lookup(a, field).value) == Hollow(Lookup(b, field).value)
  {
    HollowLookup(a, field);
    HollowLookup(b, field);
  }

  lemma SameRecursion(a: Node, b: Node, name: Option<string>)
    requires HollowAll(a.children) == HollowAll(b.children)
    ensures IsRecursiveCall(a, name) == IsRecursiveCall(b, name)
  {
    SameLookup(a.children, b.children, "callee");
    var callee, callee' := Get(a, "callee"), Get(b, "callee");
    if callee.Some? && callee.value.kind.MemberExpression? {
      SameLookup(callee.value.children, callee'.value.children, "object");
      SameLookup(callee.value.children, callee'.value.children, "property");
    }
  }

  /** Replacing the contents of nested functions leaves what the subtree costs unchanged. */
  lemma {:induction false} CostIgnoresNestedBodies(a: Node, at: Link, b: Node, bt: Link,
                                                   name: Option<string>, depth: nat)
    requires Hollow(a) == Hollow(b) && Alike(at, bt)
    ensures Cost(a, at, name, depth) == Cost(b, bt, name, depth)
    decreases a, 1
  {
    if !a.kind.Function? {
      SameRecursion(a, b, name);
      SameLookup(a.children, b.children, "label");
      CostAllIgnoresNestedBodies(a.children, a, b.children, b, name, Inside(a, at, depth));
    }
  }

  lemma {:induction false} CostAllIgnoresNestedBodies(a: seq<Child>, p: Node, b: seq<Child>, q: Node,
                                                      name: Option<string>, depth: nat)
    requires HollowAll(a) == HollowAll(b) && p.kind == q.kind
    ensures CostAll(a, p, name, depth) == CostAll(b, q, name, depth)
    decreases a, 0
  {
    HollowParts(a, b);
    if a != [] {
      CostIgnoresNestedBodies(a[0].node, In(p, a[0].field), b[0].node, In(q, b[0].field), name, depth);
      CostAllIgnoresNestedBodies(a[1..], p, b[1..], q, name, depth);
    }
  }

  /** Two functions that differ only inside the functions nested in them have the same score. */
  lemma OuterScoreIgnoresNestedBodies(f: Node, g: Node, link: Link)
    requires f.kind == g.kind && f.kind.Function?
    requires HollowAll(f.children) == HollowAll(g.children)
    ensures FunctionScore(f, link) == FunctionScore(g, link)
    ensures FunctionName(f, link) == FunctionName(g, link)
  {
    SameLookup(f.children, g.children, "id");
    CostAllIgnoresNestedBodies(f.children, f, g.children, g, FunctionName(f, link), 0);
  }

  /**
   What it is to be the same but for nested functions: of the same type, and unless that is a function,
   with the same fields holding nodes that are the same in this sense.
   */
  predicate SameOutside(a: Node, b: Node)
    decreases a, 1
  {
    a.kind == b.kind && (a.kind.Function? || AllSameOutside(a.children, b.children))
  }

  predicate AllSameOutside(a: seq<Child>, b: seq<Child>)
    decreases a, 0
  {
    if a == [] || b == [] then a == [] && b == []
    else
      && a[0].field == b[0].field && SameOutside(a[0].node, b[0].node)
      && AllSameOutside(a[1..], b[1..])
  }

  /** Two trees are hollowed alike exactly when they are the same but for nested functions. */
  lemma {:induction false} HollowIff(a: Node, b: Node)
    ensures Hollow(a) == Hollow(b) <==> SameOutside(a, b)
    decreases a, 1
  {
    if a.kind == b.kind && !a.kind.Function? {
      HollowAllIff(a.children, b.children);
    }
  }

  lemma {:induction false} HollowAllIff(a: seq<Child>, b: seq<Child>)
    ensures HollowAll(a) == HollowAll(b) <==> AllSameOutside(a, b)
    decreases a, 0
  {
    if a != [] && b != [] {
      HollowIff(a[0].node, b[0].node);
      HollowAllIff(a[1..], b[1..]);
      if HollowAll(a) == HollowAll(b) {
        HollowParts(a, b);
      }
    }
  }
}
