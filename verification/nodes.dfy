/** The expression tree (the source's `Node` hierarchy).

    The four node classes become the four constructors of `Node`. The source
    stores the operator of a unary or binary node as a lambda; here it is an
    operator tag, interpreted by `ApplyUnary` and `ApplyBinary`. The `name`
    of an operator node is kept because the printer writes it out ("not",
    "and", "OR", ...). */
module Nodes {

  datatype UnaryOperator = Not

  datatype BinaryOperator = And | Or | Xor

  datatype Node =
    | ConstantNode(value: bool)
    | VariableNode(name: string)
    | UnaryOperatorNode(name: string, unaryOp: UnaryOperator, child: Node)
    | BinaryOperatorNode(name: string, binaryOp: BinaryOperator, children: seq<Node>)

  /** The lambda `bool -> !bool` stored in every unary node of the source. */
  function ApplyUnary(op: UnaryOperator, a: bool): bool {
    match op
    case Not => !a
  }

  /** `Boolean::logicalAnd`, `Boolean::logicalOr` and `Boolean::logicalXor`. */
  function ApplyBinary(op: BinaryOperator, a: bool, b: bool): bool {
    match op
    case And => a && b
    case Or => a || b
    case Xor => a != b
  }

  /** True iff the variable `x` occurs somewhere in `e`. */
  predicate Occurs(x: string, e: Node) {
    match e
    case ConstantNode(_) => false
    case VariableNode(name) => name == x
    case UnaryOperatorNode(_, _, child) => Occurs(x, child)
    case BinaryOperatorNode(_, _, children) =>
      exists i :: 0 <= i < |children| && Occurs(x, children[i])
  }

  /** Every binary node has at least one child: the shape the evaluator's
      stack discipline needs (the parser produces at least two). */
  predicate NonEmptyOperands(e: Node) {
    match e
    case ConstantNode(_) => true
    case VariableNode(_) => true
    case UnaryOperatorNode(_, _, child) => NonEmptyOperands(child)
    case BinaryOperatorNode(_, _, children) =>
      |children| >= 1 && forall i :: 0 <= i < |children| ==> NonEmptyOperands(children[i])
  }

  /** Number of children of a binary node that evaluate to true. */
  function CountTrue(children: seq<Node>, env: map<string, bool>): nat
    decreases children, 0
  {
    if |children| == 0 then 0
    else CountTrue(children[..|children| - 1], env) + (if Value(children[|children| - 1], env) then 1 else 0)
  }

  /** Reference meaning of a tree: AND holds when every child holds, OR when
      some child holds, XOR when an odd number of children hold. A variable
      missing from `env` reads as false (the evaluator rejects such trees). */
  function Value(e: Node, env: map<string, bool>): bool
    decreases e, 1
  {
    match e
    case ConstantNode(v) => v
    case VariableNode(name) => if name in env then env[name] else false
    case UnaryOperatorNode(_, op, child) => ApplyUnary(op, Value(child, env))
    case BinaryOperatorNode(_, op, children) =>
      match op
      case And => CountTrue(children, env) == |children|
      case Or => CountTrue(children, env) > 0
      case Xor => CountTrue(children, env) % 2 == 1
  }
}
