/** `ExpressionEvaluator`: the visitor that evaluates a tree with an explicit
    stack of booleans.

    Visiting a node pushes its value; a unary node pops its child's value and
    pushes the result; a binary node visits its children left to right and
    then pops them again, last child first, folding them with its operator.
    `Visit` models that stack discipline step by step, including the pops
    from an empty stack that a malformed tree causes, and
    `VisitComputesValue` proves that on a well-formed tree it pushes exactly
    the reference value `Nodes.Value`. */
module ExpressionEvaluator {
  import opened Wrappers
  import opened Nodes

  /** The `positions` map built by the constructor: each name maps to its
      index in the list, a later occurrence overwriting an earlier one. */
  function Positions(variables: seq<string>): (r: map<string, nat>)
    ensures r.Keys == set x | x in variables
    ensures forall x :: x in r ==> r[x] < |variables| && variables[r[x]] == x
    ensures forall x, j :: x in r && r[x] < j < |variables| ==> variables[j] != x
  {
    if |variables| == 0 then map[]
    else Positions(variables[..|variables| - 1])[variables[|variables| - 1] := |variables| - 1]
  }

  /** With no repeated names, every name maps to its own index. */
  lemma PositionsOfDistinct(variables: seq<string>, i: nat)
    requires i < |variables|
    requires Distinct(variables)
    ensures variables[i] in Positions(variables) && Positions(variables)[variables[i]] == i
  {
  }

  /** The evaluator's state: name positions, the current assignment and the stack. */
  datatype Evaluator = Evaluator(positions: map<string, nat>, values: seq<bool>, stack: seq<bool>)

  function NewEvaluator(variables: seq<string>): Evaluator {
    Evaluator(Positions(variables), [], [])
  }

  /** `setValues`: the assignment must have one value per distinct name; the
      stack is cleared. */
  function SetValues(ev: Evaluator, values: seq<bool>): (r: Result<Evaluator>)
    ensures r.Err? <==> |values| != |ev.positions|
    ensures r.Err? ==> r.error == IllegalArgument
    ensures r.Ok? ==> r.value.positions == ev.positions && r.value.values == values && r.value.stack == []
  {
    if |values| != |ev.positions| then Err(IllegalArgument)
    else Ok(ev.(values := values, stack := []))
  }

  /** One pop-and-apply step of `performBinaryOperation`, repeated
      `remaining` times: `result := op(result, pop())`. */
  function FoldPops(op: BinaryOperator, stack: seq<bool>, result: bool, remaining: nat): Result<seq<bool>>
    decreases remaining
  {
    if remaining == 0 then Ok(stack + [result])
    else if |stack| == 0 then Err(EmptyStack)
    else FoldPops(op, stack[..|stack| - 1], ApplyBinary(op, result, stack[|stack| - 1]), remaining - 1)
  }

  /** `performBinaryOperation(op, childrenCount)`: pops the last child's
      value, folds the remaining `childrenCount - 1` values into it and
      pushes the result. */
  function PerformBinaryOperation(op: BinaryOperator, stack: seq<bool>, childrenCount: nat): Result<seq<bool>> {
    if |stack| == 0 then Err(EmptyStack)
    else FoldPops(op, stack[..|stack| - 1], stack[|stack| - 1], if childrenCount == 0 then 0 else childrenCount - 1)
  }

  /** `node.accept(evaluator)`: the stack after visiting `e`. */
  function Visit(ev: Evaluator, e: Node): Result<seq<bool>>
    decreases e, 1
  {
    match e
    case ConstantNode(v) => Ok(ev.stack + [v])
    case VariableNode(name) =>
      if name !in ev.positions then Err(IllegalState)
      else if ev.positions[name] >= |ev.values| then Err(IndexOutOfBounds)
      else Ok(ev.stack + [ev.values[ev.positions[name]]])
    case UnaryOperatorNode(_, op, child) =>
      var st :- Visit(ev, child);
      if |st| == 0 then Err(EmptyStack)
      else Ok(st[..|st| - 1] + [ApplyUnary(op, st[|st| - 1])])
    case BinaryOperatorNode(_, op, children) =>
      var st :- VisitAll(ev, children);
      PerformBinaryOperation(op, st, |children|)
  }

  /** `children.forEach(child -> child.accept(this))`. */
  function VisitAll(ev: Evaluator, children: seq<Node>): Result<seq<bool>>
    decreases children, 0
  {
    if |children| == 0 then Ok(ev.stack)
    else
      var st :- VisitAll(ev, children[..|children| - 1]);
      Visit(ev.(stack := st), children[|children| - 1])
  }

  /** `getResult`: exactly one value must be left on the stack. */
  function GetResult(stack: seq<bool>): (r: Result<bool>)
    ensures r.Ok? <==> |stack| == 1
    ensures r.Ok? ==> r.value == stack[0]
    ensures r.Err? ==> r.error == IllegalState
  {
    if |stack| != 1 then Err(IllegalState) else Ok(stack[0])
  }

  /** One full evaluation as `Util.filterAssignments` performs it:
      `setValues`, `accept`, `getResult`. */
  function Evaluate(variables: seq<string>, e: Node, values: seq<bool>): Result<bool> {
    var ev :- SetValues(NewEvaluator(variables), values);
    var st :- Visit(ev, e);
    GetResult(st)
  }

  // ---------------------------------------------------------------------
  // Correctness of the stack discipline

  /** The assignment the evaluator sees, as a name-to-value map. */
  function Env(ev: Evaluator): map<string, bool> {
    map x | x in ev.positions && ev.positions[x] < |ev.values| :: ev.values[ev.positions[x]]
  }

  /** Every variable of `e` has a position inside the current assignment. */
  ghost predicate Bound(ev: Evaluator, e: Node) {
    forall x :: Occurs(x, e) ==> x in ev.positions && ev.positions[x] < |ev.values|
  }

  function CountTrueValues(vs: seq<bool>): nat {
    if |vs| == 0 then 0
    else CountTrueValues(vs[..|vs| - 1]) + (if vs[|vs| - 1] then 1 else 0)
  }

  lemma {:induction false} CountTrueValuesBound(vs: seq<bool>)
    ensures CountTrueValues(vs) <= |vs|
  {
    if |vs| > 0 {
      CountTrueValuesBound(vs[..|vs| - 1]);
    }
  }

  /** What folding `acc` with values holding `count` trues among `n` gives. */
  function Folded(op: BinaryOperator, acc: bool, count: nat, n: nat): bool {
    match op
    case And => acc && count == n
    case Or => acc || count > 0
    case Xor => acc != (count % 2 == 1)
  }

  /** Popping and folding the top |vs| values of the stack. */
  lemma {:induction false} FoldPopsFolds(op: BinaryOperator, below: seq<bool>, vs: seq<bool>, acc: bool)
    ensures FoldPops(op, below + vs, acc, |vs|) == Ok(below + [Folded(op, acc, CountTrueValues(vs), |vs|)])
  {
    if |vs| > 0 {
      var n := |vs|;
      var init := vs[..n - 1];
      var st := below + vs;
      assert st[..|st| - 1] == below + init;
      assert st[|st| - 1] == vs[n - 1];
      assert FoldPops(op, st, acc, n) == FoldPops(op, below + init, ApplyBinary(op, acc, vs[n - 1]), n - 1);
      FoldPopsFolds(op, below, init, ApplyBinary(op, acc, vs[n - 1]));
      CountTrueValuesBound(init);
      assert CountTrueValues(vs) == CountTrueValues(init) + (if vs[n - 1] then 1 else 0);
      assert Folded(op, ApplyBinary(op, acc, vs[n - 1]), CountTrueValues(init), n - 1)
          == Folded(op, acc, CountTrueValues(vs), n);
    } else {
      assert below + vs == below;
    }
  }

  /** The values of `children`, in order. */
  function ChildValues(children: seq<Node>, env: map<string, bool>): (r: seq<bool>)
    ensures |r| == |children|
  {
    seq(|children|, i requires 0 <= i < |children| => Value(children[i], env))
  }

  lemma {:induction false} CountTrueMatches(children: seq<Node>, env: map<string, bool>)
    ensures CountTrue(children, env) == CountTrueValues(ChildValues(children, env))
  {
    if |children| > 0 {
      var n := |children|;
      CountTrueMatches(children[..n - 1], env);
      assert ChildValues(children, env)[..n - 1] == ChildValues(children[..n - 1], env);
    }
  }

  /** On a tree whose binary nodes have operands and whose variables are all
      bound, visiting pushes exactly the tree's value and touches nothing
      below it. */
  lemma {:induction false} VisitComputesValue(ev: Evaluator, e: Node)
    requires NonEmptyOperands(e) && Bound(ev, e)
    ensures Visit(ev, e) == Ok(ev.stack + [Value(e, Env(ev))])
    decreases e, 1
  {
    match e
    case ConstantNode(_) =>
    case VariableNode(_) =>
    case UnaryOperatorNode(_, op, child) =>
      VisitComputesValue(ev, child);
    case BinaryOperatorNode(_, op, children) =>
      ChildrenBound(ev, e);
      VisitAllPushesValues(ev, children);
      var vs := ChildValues(children, Env(ev));
      PerformBinaryOnValues(op, ev.stack, vs);
      FoldedMeaning(op, vs);
      CountTrueMatches(children, Env(ev));
  }

  lemma ChildrenBound(ev: Evaluator, e: Node)
    requires e.BinaryOperatorNode? && Bound(ev, e)
    ensures forall i :: 0 <= i < |e.children| ==> Bound(ev, e.children[i])
  {
    forall i | 0 <= i < |e.children| ensures Bound(ev, e.children[i]) {
      forall x | Occurs(x, e.children[i]) ensures x in ev.positions && ev.positions[x] < |ev.values| {
        assert Occurs(x, e);
      }
    }
  }

  /** `performBinaryOperation` over the values of all operands, pushed in
      order: the last one folded with the others. */
  lemma PerformBinaryOnValues(op: BinaryOperator, below: seq<bool>, vs: seq<bool>)
    requires |vs| > 0
    ensures PerformBinaryOperation(op, below + vs, |vs|)
      == Ok(below + [Folded(op, vs[|vs| - 1], CountTrueValues(vs[..|vs| - 1]), |vs| - 1)])
  {
    var n := |vs|;
    var st := below + vs;
    assert st[..|st| - 1] == below + vs[..n - 1];
    assert st[|st| - 1] == vs[n - 1];
    FoldPopsFolds(op, below, vs[..n - 1], vs[n - 1]);
  }

  /** The fold of the operands' values is their conjunction, disjunction or
      parity. */
  lemma FoldedMeaning(op: BinaryOperator, vs: seq<bool>)
    requires |vs| > 0
    ensures op == And ==> (Folded(op, vs[|vs| - 1], CountTrueValues(vs[..|vs| - 1]), |vs| - 1) <==> CountTrueValues(vs) == |vs|)
    ensures op == Or ==> (Folded(op, vs[|vs| - 1], CountTrueValues(vs[..|vs| - 1]), |vs| - 1) <==> CountTrueValues(vs) > 0)
    ensures op == Xor ==> (Folded(op, vs[|vs| - 1], CountTrueValues(vs[..|vs| - 1]), |vs| - 1) <==> CountTrueValues(vs) % 2 == 1)
  {
    CountTrueValuesBound(vs[..|vs| - 1]);
  }

  lemma {:induction false} VisitAllPushesValues(ev: Evaluator, children: seq<Node>)
    requires forall i :: 0 <= i < |children| ==> NonEmptyOperands(children[i]) && Bound(ev, children[i])
    ensures VisitAll(ev, children) == Ok(ev.stack + ChildValues(children, Env(ev)))
    decreases children, 0
  {
    if |children| > 0 {
      var n := |children|;
      VisitAllPushesValues(ev, children[..n - 1]);
      var st := ev.stack + ChildValues(children[..n - 1], Env(ev));
      var ev' := ev.(stack := st);
      assert VisitAll(ev, children) == Visit(ev', children[n - 1]);
      assert Bound(ev', children[n - 1]);
      VisitComputesValue(ev', children[n - 1]);
      assert Env(ev') == Env(ev);
      assert ChildValues(children, Env(ev)) == ChildValues(children[..n - 1], Env(ev)) + [Value(children[n - 1], Env(ev))];
      assert st + [Value(children[n - 1], Env(ev))] == ev.stack + ChildValues(children, Env(ev));
    } else {
      assert ev.stack + ChildValues(children, Env(ev)) == ev.stack;
    }
  }

  predicate Distinct(variables: seq<string>) {
    forall a, b :: 0 <= a < b < |variables| ==> variables[a] != variables[b]
  }

  lemma {:induction false} DistinctCardinality(variables: seq<string>)
    requires Distinct(variables)
    ensures |set x | x in variables| == |variables|
  {
    if |variables| > 0 {
      var n := |variables|;
      var init := variables[..n - 1];
      DistinctCardinality(init);
      assert (set x | x in variables) == (set x | x in init) + {variables[n - 1]};
      assert variables[n - 1] !in (set x | x in init);
    }
  }

  /** The assignment `values` given to `variables`, as seen by the evaluator. */
  function Assignment(variables: seq<string>, values: seq<bool>): map<string, bool> {
    Env(Evaluator(Positions(variables), values, []))
  }

  /** With distinct names and one value per name, the i-th name reads the
      i-th value. */
  lemma AssignmentOfDistinct(variables: seq<string>, values: seq<bool>)
    requires Distinct(variables) && |values| == |variables|
    ensures Assignment(variables, values).Keys == set x | x in variables
    ensures forall i :: 0 <= i < |variables| ==> Assignment(variables, values)[variables[i]] == values[i]
  {
    forall i | 0 <= i < |variables| ensures variables[i] in Positions(variables) && Positions(variables)[variables[i]] == i {
      PositionsOfDistinct(variables, i);
    }
  }

  /** The whole evaluation returns the reference value of the tree under the
      assignment, provided the names are distinct and cover the tree. */
  lemma EvaluateComputesValue(variables: seq<string>, e: Node, values: seq<bool>)
    requires NonEmptyOperands(e)
    requires Distinct(variables) && |values| == |variables|
    requires forall x :: Occurs(x, e) ==> x in variables
    ensures Evaluate(variables, e, values) == Ok(Value(e, Assignment(variables, values)))
  {
    var positions := Positions(variables);
    DistinctCardinality(variables);
    var ev := Evaluator(positions, values, []);
    assert SetValues(NewEvaluator(variables), values) == Ok(ev);
    forall x | Occurs(x, e) ensures x in positions && positions[x] < |values| {
      assert x in positions.Keys;
    }
    VisitComputesValue(ev, e);
    assert [Value(e, Env(ev))] == ev.stack + [Value(e, Env(ev))];
  }

  /** A variable without a position makes the visit fail, wherever it
      occurs in the tree. */
  lemma {:induction false} UnknownVariableFails(ev: Evaluator, e: Node, x: string)
    requires Occurs(x, e) && x !in ev.positions
    ensures Visit(ev, e).Err?
    decreases e, 1
  {
    match e
    case VariableNode(_) =>
    case UnaryOperatorNode(_, _, child) =>
      UnknownVariableFails(ev, child, x);
    case BinaryOperatorNode(_, _, children) =>
      var i :| 0 <= i < |children| && Occurs(x, children[i]);
      UnknownVariableFailsAll(ev, children, x, i);
  }

  lemma {:induction false} UnknownVariableFailsAll(ev: Evaluator, children: seq<Node>, x: string, i: int)
    requires 0 <= i < |children| && Occurs(x, children[i]) && x !in ev.positions
    ensures VisitAll(ev, children).Err?
    decreases children, 0
  {
    var n := |children|;
    if i < n - 1 {
      assert children[..n - 1][i] == children[i];
      UnknownVariableFailsAll(ev, children[..n - 1], x, i);
    } else {
      var prefix := VisitAll(ev, children[..n - 1]);
      if prefix.Ok? {
        UnknownVariableFails(ev.(stack := prefix.value), children[n - 1], x);
      }
    }
  }

  /** The evaluation refuses a tree that uses a name outside the list. */
  lemma UnknownVariableRejected(variables: seq<string>, e: Node, values: seq<bool>, x: string)
    requires Occurs(x, e) && x !in variables
    ensures Evaluate(variables, e, values).Err?
  {
    var r := SetValues(NewEvaluator(variables), values);
    if r.Ok? {
      UnknownVariableFails(r.value, e, x);
    }
  }
}
