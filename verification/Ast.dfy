/**
 The syntax tree the cognitive-complexity rule walks: the node types it tells apart, the field
 each child sits in, and the pure questions the rule asks about a node and its parent.
 */
module Ast {
  import opened Options

  datatype FunctionKind = FunctionDeclaration | FunctionExpression | ArrowFunctionExpression

  /** The nodes, other than `if`, that cost 1 plus the depth and deepen what is inside them. */
  datatype NestingKind =
    | ConditionalExpression
    | SwitchStatement
    | ForStatement
    | ForInStatement
    | ForOfStatement
    | WhileStatement
    | DoWhileStatement
    | CatchClause

  datatype LogicalOperator = And | Or | Coalesce

  datatype JumpKind = BreakStatement | ContinueStatement

  datatype NodeType =
    | Function(function_: FunctionKind)
    | IfStatement
    | Nesting(nesting: NestingKind)
    | LogicalExpression(operator: LogicalOperator)
    | CallExpression
    | Jump(jump: JumpKind)
    | Identifier(name: string)
    | ThisExpression
    | MemberExpression
    | VariableDeclarator
    | MethodDefinition
    | Property
    | PropertyDefinition
    | Other(typeName: string)

  datatype Child = Child(field: string, node: Node)

  /** `uid` stands for object identity: a parsed tree gives every node a different one. */
  datatype Node = Node(uid: nat, kind: NodeType, children: seq<Child>)

  /** The `parent` of a node, together with the parent's field that holds the node. */
  datatype Link = Root | In(parent: Node, field: string)

  function Lookup(children: seq<Child>, field: string): Option<Node> {
    if children == [] then None
    else if children[0].field == field then Some(children[0].node)
    else Lookup(children[1..], field)
  }

  function Get(node: Node, field: string): Option<Node> {
    Lookup(node.children, field)
  }

  /** The name of a node that is there and is an identifier. */
  function IdentifierName(node: Option<Node>): Option<string> {
    if node.Some? && node.value.kind.Identifier? then Some(node.value.kind.name) else None
  }

  /** A name is usable only when it is there and, as JavaScript's truth test has it, not empty. */
  predicate Truthy(name: Option<string>) {
    name.Some? && name.value != ""
  }

  function FunctionName(node: Node, link: Link): Option<string> {
    var own := IdentifierName(Get(node, "id"));
    if Truthy(own) then own
    else if link.Root? then None
    else
      match link.parent.kind
      case VariableDeclarator => IdentifierName(Get(link.parent, "id"))
      case MethodDefinition => IdentifierName(Get(link.parent, "key"))
      case Property => IdentifierName(Get(link.parent, "key"))
      case PropertyDefinition => IdentifierName(Get(link.parent, "key"))
      case _ => None
  }

  /** The node is what follows `else`. */
  predicate IsAlternate(link: Link) {
    link.In? && link.parent.kind.IfStatement? && link.field == "alternate"
  }

  predicate IsElseIf(node: Node, link: Link) {
    node.kind.IfStatement? && IsAlternate(link)
  }

  predicate IsCounted(operator: LogicalOperator) {
    operator == And || operator == Or
  }

  predicate StartsLogicalSequence(operator: LogicalOperator, link: Link) {
    link.Root? || !link.parent.kind.LogicalExpression? || !IsCounted(link.parent.kind.operator)
    || link.parent.kind.operator != operator
  }

  /** Whether a call is the function of the given name calling itself. */
  predicate IsRecursiveCall(node: Node, name: Option<string>) {
    var callee := Get(node, "callee");
    && Truthy(name)
    && callee.Some?
    && match callee.value.kind
       case Identifier(called) => called == name.value
       case MemberExpression =>
         var object_ := Get(callee.value, "object");
         && object_.Some? && object_.value.kind.ThisExpression?
         && IdentifierName(Get(callee.value, "property")) == name
       case _ => false
  }

  /** The node pays the current depth on top of its flat 1, and deepens what is inside it. */
  predicate BearsSurcharge(node: Node, link: Link) {
    node.kind.Nesting? || (node.kind.IfStatement? && !IsAlternate(link))
  }
}
