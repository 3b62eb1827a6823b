/** `Mask`: one product term of the Quine-McCluskey tables.

    A mask holds one value per variable (the source's bytes 0, 1 and 2:
    the variable appears negated, appears plain, or does not appear), the
    set of truth-table rows it was built from, and whether all of those rows
    are don't-cares. The mutable `combined` flag of the source is not part
    of the value: the minimizer model computes it from the column. */
module Masks {
  import opened Wrappers
  import opened Nodes
  import Util
  import ExpressionEvaluator

  /** One position of a mask: byte 0, 1 or 2 of the source. */
  datatype Trit = Neg | Pos | Absent

  datatype Mask = Mask(values: seq<Trit>, indexes: set<int>, dontCare: bool)

  /** Name given to the negation nodes a mask produces. */
  const NOT: string := "NOT"

  /** The mask positions for a complete assignment: every variable appears,
      plain where the assignment is true and negated where it is false. */
  function Literal(a: seq<bool>): (r: seq<Trit>)
    ensures |r| == |a|
  {
    seq(|a|, j requires 0 <= j < |a| => if a[j] then Pos else Neg)
  }

  /** `new Mask(index, numberOfVariables, dontCare)`: the mask of the single
      row `index`; at least one variable, and the row must exist. */
  function FromIndex(index: Util.Int32, numberOfVariables: int, dontCare: bool): (r: Result<Mask>)
    ensures r.Ok? <==> 1 <= numberOfVariables && 0 <= index < Util.Pow2(numberOfVariables)
    ensures r.Err? ==> r.error == IllegalArgument
    ensures r.Ok? ==> r.value == Mask(Literal(Util.Combination(numberOfVariables, index)), {index}, dontCare)
  {
    if numberOfVariables < 1 then Err(IllegalArgument)
    else if index < 0 || index > Util.Pow2(numberOfVariables) - 1 then Err(IllegalArgument)
    else
      var bytes := Util.IndexToByteArray(index, numberOfVariables).value;
      Util.IndexToByteArrayOfNonNegative(index, numberOfVariables);
      var values := seq(|bytes|, j requires 0 <= j < |bytes| => if bytes[j] == 1 then Pos else Neg);
      assert values == Literal(Util.Combination(numberOfVariables, index));
      Ok(Mask(values, {index}, dontCare))
  }

  /** `new Mask(values, indexes, dontCare)`: a missing pattern, a missing
      index set or an empty index set are rejected. */
  function FromPattern(values: Option<seq<Trit>>, indexes: Option<set<int>>, dontCare: bool): (r: Result<Mask>)
    ensures r.Ok? <==> values.Some? && indexes.Some? && indexes.value != {}
    ensures r.Err? ==> r.error == IllegalArgument
    ensures r.Ok? ==> r.value.values == values.value && r.value.indexes == indexes.value && r.value.dontCare == dontCare
  {
    if values.None? then Err(IllegalArgument)
    else if indexes.None? || indexes.value == {} then Err(IllegalArgument)
    else Ok(Mask(values.value, indexes.value, dontCare))
  }

  /** `countOfOnes()`: how many variables appear plain. */
  function CountOfOnes(values: seq<Trit>): (r: nat)
    ensures r == multiset(values)[Pos]
  {
    if |values| == 0 then 0
    else
      var init := values[..|values| - 1];
      assert values == init + [values[|values| - 1]];
      CountOfOnes(init) + (if values[|values| - 1] == Pos then 1 else 0)
  }

  // ---------------------------------------------------------------------
  // Combining two masks

  /** p and q have the same width and differ at position d only, where
      neither of them has the variable absent. */
  predicate DiffersOnlyAt(p: seq<Trit>, q: seq<Trit>, d: int) {
    && |p| == |q| && 0 <= d < |p|
    && p[d] != q[d] && p[d] != Absent && q[d] != Absent
    && forall j :: 0 <= j < |p| && j != d ==> p[j] == q[j]
  }

  /** The loop of `combine` from position i on; `difference` records that a
      differing position was met before i. */
  function CombineFrom(p: seq<Trit>, q: seq<Trit>, i: nat, difference: bool): Option<seq<Trit>>
    requires |p| == |q| && i <= |p|
    decreases |p| - i
  {
    if i == |p| then Some([])
    else if p[i] != q[i] then
      if p[i] == Absent || q[i] == Absent || difference then None
      else
        match CombineFrom(p, q, i + 1, true)
        case None => None
        case Some(rest) => Some([Absent] + rest)
    else
      match CombineFrom(p, q, i + 1, difference)
      case None => None
      case Some(rest) => Some([p[i]] + rest)
  }

  predicate SameFrom(p: seq<Trit>, q: seq<Trit>, i: nat)
    requires |p| == |q|
  {
    forall j :: i <= j < |p| ==> p[j] == q[j]
  }

  /** `DiffersOnlyAt` restricted to the positions from i on. */
  predicate OnlyAtFrom(p: seq<Trit>, q: seq<Trit>, i: nat, d: int)
    requires |p| == |q|
  {
    && i <= d < |p|
    && p[d] != q[d] && p[d] != Absent && q[d] != Absent
    && forall j :: i <= j < |p| && j != d ==> p[j] == q[j]
  }

  /** The scan from position i keeps the suffix when the suffixes agree,
      marks the one differing position absent when there is exactly one
      (and none was met before), and fails otherwise. */
  lemma {:induction false} CombineFromSpec(p: seq<Trit>, q: seq<Trit>, i: nat, difference: bool)
    requires |p| == |q| && i <= |p|
    ensures SameFrom(p, q, i) ==> CombineFrom(p, q, i, difference) == Some(p[i..])
    ensures forall d :: OnlyAtFrom(p, q, i, d) ==>
      CombineFrom(p, q, i, difference) == if difference then None else Some(p[d := Absent][i..])
    ensures CombineFrom(p, q, i, difference).Some? ==>
      SameFrom(p, q, i) || (!difference && exists d :: OnlyAtFrom(p, q, i, d))
    decreases |p| - i
  {
    if i == |p| {
      assert p[i..] == [];
    } else {
      CombineFromSpec(p, q, i + 1, true);
      CombineFromSpec(p, q, i + 1, difference);
      assert p[i..] == [p[i]] + p[i + 1..];
      if SameFrom(p, q, i) {
        assert SameFrom(p, q, i + 1);
        assert p[i] == q[i];
        assert CombineFrom(p, q, i + 1, difference) == Some(p[i + 1..]);
        assert CombineFrom(p, q, i, difference) == Some([p[i]] + p[i + 1..]);
      }
      forall d | OnlyAtFrom(p, q, i, d)
        ensures CombineFrom(p, q, i, difference) == if difference then None else Some(p[d := Absent][i..])
      {
        assert p[d := Absent][i..] == [p[d := Absent][i]] + p[d := Absent][i + 1..];
        if d == i {
          assert SameFrom(p, q, i + 1);
          assert p[d := Absent][i + 1..] == p[i + 1..];
        } else {
          assert OnlyAtFrom(p, q, i + 1, d);
        }
      }
      if CombineFrom(p, q, i, difference).Some? && !SameFrom(p, q, i) {
        if p[i] != q[i] {
          assert SameFrom(p, q, i + 1);
          assert OnlyAtFrom(p, q, i, i);
        } else {
          var d :| OnlyAtFrom(p, q, i + 1, d);
          assert OnlyAtFrom(p, q, i, d);
        }
      }
    }
  }

  /** Different positions are absent-free and unique, so at most one d
      fits. */
  lemma DiffersOnlyAtUnique(p: seq<Trit>, q: seq<Trit>, d: int, e: int)
    requires DiffersOnlyAt(p, q, d) && DiffersOnlyAt(p, q, e)
    ensures d == e
  {
  }

  /** Changing one position changes the number of plain variables by the
      difference at that position. */
  lemma CountOfOnesUpdate(p: seq<Trit>, d: int, t: Trit)
    requires 0 <= d < |p|
    ensures CountOfOnes(p[d := t]) + (if p[d] == Pos then 1 else 0) == CountOfOnes(p) + (if t == Pos then 1 else 0)
  {
    assert p == p[..d] + [p[d]] + p[d + 1..];
    assert p[d := t] == p[..d] + [t] + p[d + 1..];
  }

  /** Two masks differing only at d have weights one apart, the lighter one
      being negated there. */
  lemma DiffersOnlyAtWeights(p: seq<Trit>, q: seq<Trit>, d: int)
    requires DiffersOnlyAt(p, q, d)
    ensures q == p[d := q[d]]
    ensures CountOfOnes(q) == CountOfOnes(p) + 1 <==> p[d] == Neg
    ensures CountOfOnes(p) == CountOfOnes(q) + 1 <==> p[d] == Pos
  {
    assert q == p[d := q[d]];
    CountOfOnesUpdate(p, d, q[d]);
  }

  /** `combine(other)` (the private helper; widths already checked). */
  function Combine(m: Mask, other: Mask): Option<Mask>
    requires |m.values| == |other.values|
  {
    match CombineFrom(m.values, other.values, 0, false)
    case None => None
    case Some(values) => Some(Mask(values, m.indexes + other.indexes, m.dontCare && other.dontCare))
  }

  /** `combineWith(other)`: a missing mask or a mask of another width is
      rejected; otherwise the masks merge exactly when they differ at one
      position where both have the variable, and the merged mask has that
      variable absent, the union of the rows and is a don't-care only if
      both were. */
  function CombineWith(m: Mask, other: Option<Mask>): (r: Result<Option<Mask>>)
    ensures r.Err? <==> other.None? || |m.values| != |other.value.values|
    ensures r.Err? ==> r.error == IllegalArgument
    ensures r.Ok? ==> (r.value.Some? <==> exists d :: DiffersOnlyAt(m.values, other.value.values, d))
    ensures r.Ok? ==> forall d :: DiffersOnlyAt(m.values, other.value.values, d) ==>
      r.value == Some(Mask(m.values[d := Absent], m.indexes + other.value.indexes, m.dontCare && other.value.dontCare))
  {
    if other.None? then Err(IllegalArgument)
    else if |m.values| != |other.value.values| then Err(IllegalArgument)
    else
      var p := m.values;
      var q := other.value.values;
      var weights := CountOfOnes(p) - CountOfOnes(q);
      CombineFromSpec(p, q, 0, false);
      assert p[0..] == p;
      assert forall d :: DiffersOnlyAt(p, q, d) <==> OnlyAtFrom(p, q, 0, d);
      assert forall d :: DiffersOnlyAt(p, q, d) ==> p[d := Absent][0..] == p[d := Absent];
      assert SameFrom(p, q, 0) ==> p == q;
      assert forall d :: DiffersOnlyAt(p, q, d) ==> weights == 1 || weights == -1 by {
        forall d | DiffersOnlyAt(p, q, d) ensures weights == 1 || weights == -1 {
          DiffersOnlyAtWeights(p, q, d);
        }
      }
      if weights != 1 && weights != -1 then Ok(None)
      else Ok(Combine(m, other.value))
  }

  // ---------------------------------------------------------------------
  // Back to expressions

  /** The loop of `toVariableNodes` over the first k positions. */
  function Literals(values: seq<Trit>, variables: seq<string>, k: nat): seq<Node>
    requires k <= |values| == |variables|
  {
    if k == 0 then []
    else
      var nodes := Literals(values, variables, k - 1);
      match values[k - 1]
      case Neg => nodes + [UnaryOperatorNode(NOT, Not, VariableNode(variables[k - 1]))]
      case Pos => nodes + [VariableNode(variables[k - 1])]
      case Absent => nodes
  }

  /** `toVariableNodes(variables)`: one literal per variable present in the
      mask, in variable order, or the constant true when none is. */
  function ToVariableNodes(m: Mask, variables: seq<string>): (r: Result<seq<Node>>)
    ensures r.Err? <==> |m.values| != |variables|
    ensures r.Err? ==> r.error == IllegalArgument
    ensures r.Ok? ==> |r.value| > 0
  {
    if |m.values| != |variables| then Err(IllegalArgument)
    else
      var nodes := Literals(m.values, variables, |variables|);
      if |nodes| == 0 then Ok([ConstantNode(true)]) else Ok(nodes)
  }

  // ---------------------------------------------------------------------
  // Meaning of a mask

  /** The assignment a lies in the product term p. */
  predicate Matches(p: seq<Trit>, a: seq<bool>) {
    |p| == |a| && forall j :: 0 <= j < |p| ==> (p[j] == Pos ==> a[j]) && (p[j] == Neg ==> !a[j])
  }

  /** The truth-table rows covered by the product term p. */
  function Rows(p: seq<Trit>): set<int> {
    set i | 0 <= i < Util.Pow2(|p|) && Matches(p, Util.Combination(|p|, i))
  }

  /** All of the nodes hold under env. */
  predicate AllHold(nodes: seq<Node>, env: map<string, bool>) {
    forall i :: 0 <= i < |nodes| ==> Value(nodes[i], env)
  }

  /** The assignment lies in the first k + 1 positions iff it lies in the
      first k and agrees with position k. */
  lemma MatchesPrefix(p: seq<Trit>, a: seq<bool>, k: nat)
    requires k < |p| == |a|
    ensures Matches(p[..k + 1], a[..k + 1]) <==>
      Matches(p[..k], a[..k]) && (p[k] == Pos ==> a[k]) && (p[k] == Neg ==> !a[k])
  {
    assert forall j :: 0 <= j < k ==> p[..k + 1][j] == p[..k][j] && a[..k + 1][j] == a[..k][j];
  }

  /** The literal written for one position holds iff the assignment agrees
      with that position. */
  lemma LiteralValue(t: Trit, x: string, env: map<string, bool>, b: bool)
    requires t != Absent && x in env && env[x] == b
    ensures Value(if t == Neg then UnaryOperatorNode(NOT, Not, VariableNode(x)) else VariableNode(x), env)
      <==> (t == Pos ==> b) && (t == Neg ==> !b)
  {
  }

  /** Every literal the mask produces holds under an assignment iff the
      assignment lies in the product term (names distinct). */
  lemma {:induction false} LiteralsMeaning(values: seq<Trit>, variables: seq<string>, k: nat, a: seq<bool>)
    requires k <= |values| == |variables| == |a|
    requires ExpressionEvaluator.Distinct(variables)
    ensures AllHold(Literals(values, variables, k), ExpressionEvaluator.Assignment(variables, a))
      <==> Matches(values[..k], a[..k])
  {
    if k > 0 {
      LiteralsMeaning(values, variables, k - 1, a);
      MatchesPrefix(values, a, k - 1);
      var env := ExpressionEvaluator.Assignment(variables, a);
      var nodes := Literals(values, variables, k - 1);
      if values[k - 1] == Absent {
        assert Literals(values, variables, k) == nodes;
      } else {
        var x := variables[k - 1];
        var lit := if values[k - 1] == Neg then UnaryOperatorNode(NOT, Not, VariableNode(x)) else VariableNode(x);
        assert Literals(values, variables, k) == nodes + [lit];
        ExpressionEvaluator.AssignmentOfDistinct(variables, a);
        assert x in env && env[x] == a[k - 1];
        LiteralValue(values[k - 1], x, env, a[k - 1]);
        AppendHolds(nodes, lit, env);
      }
    }
  }

  /** The literals are leaves and negated leaves: the evaluator can walk
      each of them. */
  lemma {:induction false} LiteralsOperands(values: seq<Trit>, variables: seq<string>, k: nat)
    requires k <= |values| == |variables|
    ensures forall i :: 0 <= i < |Literals(values, variables, k)| ==> NonEmptyOperands(Literals(values, variables, k)[i])
  {
    if k > 0 {
      LiteralsOperands(values, variables, k - 1);
      var nodes := Literals(values, variables, k - 1);
      var all := Literals(values, variables, k);
      assert forall i :: 0 <= i < |nodes| ==> all[i] == nodes[i];
    }
  }

  /** A list with one more node holds iff the list and the node hold. */
  lemma AppendHolds(nodes: seq<Node>, node: Node, env: map<string, bool>)
    ensures AllHold(nodes + [node], env) <==> AllHold(nodes, env) && Value(node, env)
  {
    var all := nodes + [node];
    assert forall i :: 0 <= i < |nodes| ==> all[i] == nodes[i];
    assert all[|nodes|] == node;
  }

  /** The literal `toVariableNodes` writes for a 0 or a 1 at a position
      named x. */
  function LiteralNode(t: Trit, x: string): Node {
    if t == Neg then UnaryOperatorNode(NOT, Not, VariableNode(x)) else VariableNode(x)
  }

  /** The number of non-absent positions below k. */
  function CountPresent(values: seq<Trit>, k: nat): nat
    requires k <= |values|
  {
    if k == 0 then 0 else CountPresent(values, k - 1) + (if values[k - 1] != Absent then 1 else 0)
  }

  lemma {:induction false} CountPresentBelow(values: seq<Trit>, j: nat, k: nat)
    requires j < k <= |values| && values[j] != Absent
    ensures CountPresent(values, j) < CountPresent(values, k)
  {
    if j < k - 1 {
      CountPresentBelow(values, j, k - 1);
    }
  }

  lemma {:induction false} CountPresentZero(values: seq<Trit>, k: nat)
    requires k <= |values|
    ensures CountPresent(values, k) == 0 <==> forall j :: 0 <= j < k ==> values[j] == Absent
  {
    if k > 0 {
      CountPresentZero(values, k - 1);
    }
  }

  /** One literal per non-absent position. */
  lemma {:induction false} LiteralsCount(values: seq<Trit>, variables: seq<string>, k: nat)
    requires k <= |values| == |variables|
    ensures |Literals(values, variables, k)| == CountPresent(values, k)
  {
    if k > 0 {
      LiteralsCount(values, variables, k - 1);
    }
  }

  /** The literal of position j sits in `nodes` after one literal per
      earlier non-absent position. */
  predicate LiteralAt(nodes: seq<Node>, values: seq<Trit>, variables: seq<string>, j: nat)
    requires j < |values| == |variables|
  {
    CountPresent(values, j) < |nodes| && nodes[CountPresent(values, j)] == LiteralNode(values[j], variables[j])
  }

  lemma {:induction false} LiteralsByPosition(values: seq<Trit>, variables: seq<string>, k: nat)
    requires k <= |values| == |variables|
    ensures forall j {:trigger LiteralAt(Literals(values, variables, k), values, variables, j)} ::
      0 <= j < k && values[j] != Absent ==> LiteralAt(Literals(values, variables, k), values, variables, j)
  {
    if k > 0 {
      LiteralsByPosition(values, variables, k - 1);
      LiteralsCount(values, variables, k - 1);
      var prev := Literals(values, variables, k - 1);
      assert Literals(values, variables, k)
        == if values[k - 1] == Absent then prev else prev + [LiteralNode(values[k - 1], variables[k - 1])];
      PositionsStep(values, variables, k, prev, Literals(values, variables, k));
    }
  }

  /** One turn of `toVariableNodes`' loop keeps every earlier literal at
      its place and appends the literal of position k-1, if any. */
  lemma PositionsStep(values: seq<Trit>, variables: seq<string>, k: nat, prev: seq<Node>, all: seq<Node>)
    requires 0 < k <= |values| == |variables|
    requires |prev| == CountPresent(values, k - 1)
    requires forall j {:trigger LiteralAt(prev, values, variables, j)} ::
      0 <= j < k - 1 && values[j] != Absent ==> LiteralAt(prev, values, variables, j)
    requires all == if values[k - 1] == Absent then prev else prev + [LiteralNode(values[k - 1], variables[k - 1])]
    ensures forall j {:trigger LiteralAt(all, values, variables, j)} ::
      0 <= j < k && values[j] != Absent ==> LiteralAt(all, values, variables, j)
  {
    forall j | 0 <= j < k && values[j] != Absent
      ensures LiteralAt(all, values, variables, j)
    {
      if j < k - 1 {
        assert LiteralAt(prev, values, variables, j);
        assert all[CountPresent(values, j)] == prev[CountPresent(values, j)];
      }
    }
  }

  /** `toVariableNodes` position by position: a mask with every position
      absent gives the single constant true; otherwise one literal per
      non-absent position, in position order, `NOT(name)` for a 0 and
      `name` for a 1. */
  lemma ToVariableNodesShape(m: Mask, variables: seq<string>)
    requires |m.values| == |variables|
    ensures ToVariableNodes(m, variables).Ok?
    ensures (forall k :: 0 <= k < |m.values| ==> m.values[k] == Absent) ==>
      ToVariableNodes(m, variables).value == [ConstantNode(true)]
    ensures (exists k :: 0 <= k < |m.values| && m.values[k] != Absent) ==>
      && |ToVariableNodes(m, variables).value| == CountPresent(m.values, |m.values|)
      && forall k :: 0 <= k < |m.values| && m.values[k] != Absent ==>
        && CountPresent(m.values, k) < |ToVariableNodes(m, variables).value|
        && ToVariableNodes(m, variables).value[CountPresent(m.values, k)] == LiteralNode(m.values[k], variables[k])
  {
    LiteralsCount(m.values, variables, |variables|);
    LiteralsByPosition(m.values, variables, |variables|);
    CountPresentZero(m.values, |variables|);
    forall k | 0 <= k < |m.values| && m.values[k] != Absent
      ensures LiteralAt(Literals(m.values, variables, |variables|), m.values, variables, k)
    {
    }
  }

  /** The conjunction of the nodes `toVariableNodes` returns is exactly the
      mask's product term. */
  lemma ToVariableNodesMeaning(m: Mask, variables: seq<string>, a: seq<bool>)
    requires |m.values| == |variables| == |a|
    requires ExpressionEvaluator.Distinct(variables)
    ensures ToVariableNodes(m, variables).Ok?
    ensures forall i :: 0 <= i < |ToVariableNodes(m, variables).value| ==>
      NonEmptyOperands(ToVariableNodes(m, variables).value[i])
    ensures AllHold(ToVariableNodes(m, variables).value, ExpressionEvaluator.Assignment(variables, a))
      <==> Matches(m.values, a)
  {
    LiteralsMeaning(m.values, variables, |variables|, a);
    LiteralsOperands(m.values, variables, |variables|);
    assert m.values[..|variables|] == m.values && a[..|variables|] == a;
  }

  /** A complete assignment lies in a literal pattern iff it is that
      assignment. */
  lemma MatchesLiteral(a: seq<bool>, b: seq<bool>)
    requires |a| == |b|
    ensures Matches(Literal(a), b) <==> a == b
  {
    if Matches(Literal(a), b) {
      assert forall j :: 0 <= j < |a| ==> a[j] == b[j] by {
        forall j | 0 <= j < |a| ensures a[j] == b[j] {
          assert Literal(a)[j] == if a[j] then Pos else Neg;
        }
      }
    }
  }

  /** The mask of a single row covers exactly that row. */
  lemma RowsOfIndex(n: nat, index: nat)
    requires index < Util.Pow2(n)
    ensures Rows(Literal(Util.Combination(n, index))) == {index}
  {
    var p := Literal(Util.Combination(n, index));
    forall i | i in Rows(p) ensures i == index {
      MatchesLiteral(Util.Combination(n, index), Util.Combination(n, i));
      Util.CombinationInjective(n, i, index);
    }
    MatchesLiteral(Util.Combination(n, index), Util.Combination(n, index));
  }

  /** Merging two masks that differ at one position covers the rows of both. */
  lemma RowsOfMerge(p: seq<Trit>, q: seq<Trit>, d: int)
    requires DiffersOnlyAt(p, q, d)
    ensures Rows(p[d := Absent]) == Rows(p) + Rows(q)
  {
    var n := |p|;
    forall i | 0 <= i < Util.Pow2(n)
      ensures Matches(p[d := Absent], Util.Combination(n, i)) <==>
        Matches(p, Util.Combination(n, i)) || Matches(q, Util.Combination(n, i))
    {
      var a := Util.Combination(n, i);
      if Matches(p[d := Absent], a) {
        if a[d] == (p[d] == Pos) {
          assert Matches(p, a);
        } else {
          assert Matches(q, a);
        }
      }
    }
  }

  /** Every product term covers at least one row: the one with the absent
      variables false. */
  lemma RowsNonEmpty(p: seq<Trit>)
    ensures Rows(p) != {}
  {
    var a := seq(|p|, j requires 0 <= j < |p| => p[j] == Pos);
    var i := Util.BooleanArrayToInt(a);
    Util.CombinationOfBooleanArrayToInt(a);
    assert Matches(p, Util.Combination(|p|, i));
    assert i in Rows(p);
  }

  /** `equals`: masks are equal when their patterns are (the hash code is a
      function of the pattern, so its check never separates equal patterns). */
  predicate Equals(m: Mask, other: Mask) {
    m.values == other.values
  }

  // ---------------------------------------------------------------------
  // The examples of the mask tests

  /** Row 5 of four variables has two variables plain; row 15 four. */
  lemma ExampleCountOfOnes()
    ensures FromIndex(5, 4, true).Ok? && CountOfOnes(FromIndex(5, 4, true).value.values) == 2
    ensures FromIndex(15, 4, true).Ok? && CountOfOnes(FromIndex(15, 4, true).value.values) == 4
  {
    assert Util.Pow2(4) == 16;
    assert Util.Combination(4, 5) == [false, true, false, true];
    assert Util.Combination(4, 15) == [true, true, true, true];
    assert Literal([false, true, false, true]) == [Neg, Pos, Neg, Pos];
    assert Literal([true, true, true, true]) == [Pos, Pos, Pos, Pos];
  }

  /** The patterns of rows 12, 13 and 14 of four variables. */
  lemma ExampleRows()
    ensures FromIndex(12, 4, false) == Ok(Mask([Pos, Pos, Neg, Neg], {12}, false))
    ensures FromIndex(13, 4, false) == Ok(Mask([Pos, Pos, Neg, Pos], {13}, false))
    ensures FromIndex(14, 4, false) == Ok(Mask([Pos, Pos, Pos, Neg], {14}, false))
  {
    ExampleRow(12, [true, true, false, false], [Pos, Pos, Neg, Neg]);
    ExampleRow(13, [true, true, false, true], [Pos, Pos, Neg, Pos]);
    ExampleRow(14, [true, true, true, false], [Pos, Pos, Pos, Neg]);
  }

  lemma ExampleRow(index: Util.Int32, row: seq<bool>, pattern: seq<Trit>)
    requires (index, row, pattern) in {(12, [true, true, false, false], [Pos, Pos, Neg, Neg]),
                                      (13, [true, true, false, true], [Pos, Pos, Neg, Pos]),
                                      (14, [true, true, true, false], [Pos, Pos, Pos, Neg])}
    ensures FromIndex(index, 4, false) == Ok(Mask(pattern, {index}, false))
  {
    assert Util.Pow2(4) == 16;
    assert Util.Combination(4, index) == row;
    assert Literal(row) == pattern;
  }


  /** Rows 13 and 12 of four variables merge into 1 1 0 -. */
  lemma ExampleCombine()
    ensures FromIndex(13, 4, false).Ok? && FromIndex(12, 4, false).Ok?
    ensures CombineWith(FromIndex(13, 4, false).value, Some(FromIndex(12, 4, false).value))
      == Ok(Some(Mask([Pos, Pos, Neg, Absent], {13, 12}, false)))
  {
    ExampleRows();
    var p := [Pos, Pos, Neg, Pos];
    var q := [Pos, Pos, Neg, Neg];
    var m := FromIndex(13, 4, false).value;
    var o := FromIndex(12, 4, false).value;
    assert m.values == p && o.values == q;
    assert DiffersOnlyAt(m.values, o.values, 3);
    assert p[3 := Absent] == [Pos, Pos, Neg, Absent];
    assert m.indexes + o.indexes == {13, 12};
  }

  /** Rows 13 and 14 of four variables differ in two places and do not
      merge. */
  lemma ExampleNoCombine()
    ensures FromIndex(13, 4, false).Ok? && FromIndex(14, 4, false).Ok?
    ensures CombineWith(FromIndex(13, 4, false).value, Some(FromIndex(14, 4, false).value)) == Ok(None)
  {
    ExampleRows();
    var p := [Pos, Pos, Neg, Pos];
    var r := [Pos, Pos, Pos, Neg];
    forall d
      ensures !DiffersOnlyAt(p, r, d)
    {
      if d != 2 {
        assert p[2] != r[2];
      } else {
        assert p[3] != r[3];
      }
    }
  }
}
