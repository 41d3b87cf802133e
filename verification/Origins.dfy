/** Whom a call calls, and where a function has its name from, case by case on nodes written out. */
module Origins {
  import opened Options
  import opened Ast
  import opened Metric

  // ----- recursion

  function Call(uid: nat, callee: Node, rest: seq<Child>): Node {
    Node(uid, CallExpression, [Child("callee", callee)] + rest)
  }

  function Member(uid: nat, object_: Node, property: Node): Node {
    Node(uid, MemberExpression, [Child("object", object_), Child("property", property)])
  }

  /** A call costs 1 on top of its parts exactly when it calls, by its bare name, the function it is in. */
  lemma CallByName(uid: nat, callee: Node, rest: seq<Child>, link: Link, name: Option<string>, depth: nat)
    requires callee.kind.Identifier? && (link.In? ==> link.field != "alternate")
    ensures var call := Call(uid, callee, rest);
            Cost(call, link, name, depth)
            == CostAll(call.children, call, name, depth)
               + if name == Some(callee.kind.name) && name != Some("") then 1 else 0
  {
  }

  /** The same for a call on an object: it must be `this`, and the property the function's name. */
  lemma CallOnObject(uid: nat, member: nat, object_: Node, property: Node, rest: seq<Child>, link: Link,
                     name: Option<string>, depth: nat)
    requires link.In? ==> link.field != "alternate"
    ensures var call := Call(uid, Member(member, object_, property), rest);
            Cost(call, link, name, depth)
            == CostAll(call.children, call, name, depth)
               + if object_.kind == ThisExpression && property.kind.Identifier?
                    && name == Some(property.kind.name) && name != Some("") then 1 else 0
  {
    var callee := Member(member, object_, property);
    assert callee.children[1..] == [Child("property", property)];
    assert Lookup([Child("property", property)], "property") == Some(property);
    assert Lookup(callee.children, "property") == Lookup(callee.children[1..], "property");
  }

  /** Calling anything else, the result of a call say, costs only its parts. */
  lemma CallOfAnythingElse(uid: nat, callee: Node, rest: seq<Child>, link: Link, name: Option<string>,
                           depth: nat)
    requires !callee.kind.Identifier? && !callee.kind.MemberExpression?
    requires link.In? ==> link.field != "alternate"
    ensures var call := Call(uid, callee, rest);
            Cost(call, link, name, depth) == CostAll(call.children, call, name, depth)
  {
  }

  // ----- names

  /** The function has no `id` that could name it. */
  predicate Anonymous(f: Node) {
    forall child <- f.children ::
      child.field == "id" ==> !child.node.kind.Identifier? || child.node.kind.name == ""
  }

  /** Where a report on the function points: to its `id`, or to the function when it has none. */
  predicate PointsTo(f: Node, at: Node) {
    Child("id", at) in f.children || (at == f && forall child <- f.children :: child.field != "id")
  }

  /** Under every threshold the function is reported under this name, and with its own score. */
  ghost predicate ReportedAs(f: Node, link: Link, called: string) {
    exists at :: PointsTo(f, at) && ReportedAt(f, link, called, at)
  }

  ghost predicate ReportedAt(f: Node, link: Link, called: string, at: Node) {
    forall threshold: nat ::
      Flagged([Place(f, link)], threshold)
      == if FunctionScore(f, link) > threshold then [Report(at, called, FunctionScore(f, link))] else []
  }

  lemma {:induction false} LookupFinds(children: seq<Child>, field: string)
    ensures var found := Lookup(children, field);
            if found.Some? then Child(field, found.value) in children
            else forall child <- children :: child.field != field
  {
    if children != [] && children[0].field != field {
      LookupFinds(children[1..], field);
    }
  }

  lemma ReportNames(f: Node, link: Link, called: string)
    requires called == if Truthy(FunctionName(f, link)) then "'" + FunctionName(f, link).value + "'"
                       else "this function"
    ensures ReportedAs(f, link, called)
  {
    LookupFinds(f.children, "id");
    var id := Get(f, "id");
    var at := if id.Some? then id.value else f;
    forall threshold: nat
      ensures Flagged([Place(f, link)], threshold)
           == if FunctionScore(f, link) > threshold then [Report(at, called, FunctionScore(f, link))] else []
    {
      FlaggedOne(Place(f, link), threshold);
    }
    assert PointsTo(f, at) && ReportedAt(f, link, called, at);
  }

  /** A function with a name of its own has that name, wherever it stands. */
  lemma OwnName(f: Node, id: Node, rest: seq<Child>, link: Link)
    requires f.children == [Child("id", id)] + rest && id.kind.Identifier? && id.kind.name != ""
    ensures FunctionName(f, link) == Some(id.kind.name)
    ensures ReportedAs(f, link, "'" + id.kind.name + "'")
  {
    ReportNames(f, link, "'" + id.kind.name + "'");
  }

  /** The field in which a declarator, method or property holds what it is called. */
  function NameField(holder: NodeType): Option<string> {
    match holder
    case VariableDeclarator => Some("id")
    case MethodDefinition => Some("key")
    case Property => Some("key")
    case PropertyDefinition => Some("key")
    case _ => None
  }

  /**
   An anonymous function has the name of the declarator, method or property it stands in, when that
   is an identifier.
   */
  lemma HolderName(f: Node, holder: Node, key: Node, rest: seq<Child>, field: string)
    requires Anonymous(f) && NameField(holder.kind).Some?
    requires holder.children == [Child(NameField(holder.kind).value, key)] + rest
    ensures FunctionName(f, In(holder, field))
         == if key.kind.Identifier? then Some(key.kind.name) else None
    ensures ReportedAs(f, In(holder, field),
                       if key.kind.Identifier? && key.kind.name != "" then "'" + key.kind.name + "'"
                       else "this function")
  {
    LookupFinds(f.children, "id");
    ReportNames(f, In(holder, field),
                if key.kind.Identifier? && key.kind.name != "" then "'" + key.kind.name + "'"
                else "this function");
  }

  /** Anywhere else it has none. */
  lemma NoName(f: Node, link: Link)
    requires Anonymous(f) && (link.In? ==> NameField(link.parent.kind).None?)
    ensures FunctionName(f, link) == None
    ensures ReportedAs(f, link, "this function")
  {
    LookupFinds(f.children, "id");
    ReportNames(f, link, "this function");
  }

  // ----- `else`

  /**
   In the `alternate` of an `if`, and nowhere else, a node costs 1 more than it would on its own: the
   alternate of a conditional expression costs nothing extra.
   */
  lemma OnlyElseCosts(node: Node, parent: Node, field: string, name: Option<string>, depth: nat)
    requires !node.kind.IfStatement? && !node.kind.Function? && !parent.kind.LogicalExpression?
    ensures Cost(node, In(parent, field), name, depth)
         == Cost(node, Root, name, depth)
            + if parent.kind == IfStatement && field == "alternate" then 1 else 0
  {
  }

  /** An `if` there costs 1 and its parts, anywhere else 1, the depth, and its parts one level down. */
  lemma OnlyElseIfIsFlat(node: Node, parent: Node, field: string, name: Option<string>, depth: nat)
    requires node.kind.IfStatement?
    ensures Cost(node, In(parent, field), name, depth)
         == if parent.kind == IfStatement && field == "alternate"
            then 1 + CostAll(node.children, node, name, depth)
            else 1 + depth + CostAll(node.children, node, name, depth + 1)
  {
  }
}
