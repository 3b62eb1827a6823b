/** The bit-vector and truth-table helpers of `Util`.

    An assignment of n variables is a `seq<bool>` of length n, most
    significant variable first; row index i of the truth table is the
    assignment `Combination(n, i)`. */
module Util {
  import opened Wrappers
  import opened Nodes
  import ExpressionEvaluator


  /** 2^n; the source computes it with `Math.pow` on doubles. */
  function Pow2(n: nat): (r: nat)
    ensures r >= 1
  {
    if n == 0 then 1 else 2 * Pow2(n - 1)
  }

  /** Bit k of x (bit 0 is the least significant). */
  predicate Bit(x: nat, k: nat) {
    if k == 0 then x % 2 == 1 else Bit(x / 2, k - 1)
  }

  /** Java's `int`. */
  type Int32 = x: int | -0x8000_0000 <= x < 0x8000_0000

  /** Java's `byte`. */
  type Byte = b: int | -128 <= b < 128

  /** `getCombination(numberOfBits, number)`: the low `numberOfBits` bits of
      `number`, most significant first. */
  function Combination(numberOfBits: nat, number: nat): (r: seq<bool>)
    ensures |r| == numberOfBits
  {
    if numberOfBits == 0 then []
    else Combination(numberOfBits - 1, number / 2) + [number % 2 == 1]
  }

  /** Position j of an assignment holds bit n-1-j of its row index. */
  lemma {:induction false} CombinationBits(n: nat, number: nat)
    ensures forall j :: 0 <= j < n ==> Combination(n, number)[j] == Bit(number, n - 1 - j)
  {
    if n > 0 {
      CombinationBits(n - 1, number / 2);
    }
  }

  /** `booleanArrayToInt(values)`: the value of `values` read as a binary
      number, most significant position first. */
  function BooleanArrayToInt(values: seq<bool>): (r: nat)
    ensures r < Pow2(|values|)
  {
    if |values| == 0 then 0
    else 2 * BooleanArrayToInt(values[..|values| - 1]) + (if values[|values| - 1] then 1 else 0)
  }

  /** Reading back an enumerated assignment gives its row index. */
  lemma {:induction false} BooleanArrayToIntOfCombination(n: nat, i: nat)
    requires i < Pow2(n)
    ensures BooleanArrayToInt(Combination(n, i)) == i
  {
    if n > 0 {
      var c := Combination(n, i);
      assert c[..n - 1] == Combination(n - 1, i / 2);
      BooleanArrayToIntOfCombination(n - 1, i / 2);
    }
  }

  /** Enumerating the row index of an assignment gives the assignment back. */
  lemma {:induction false} CombinationOfBooleanArrayToInt(values: seq<bool>)
    ensures Combination(|values|, BooleanArrayToInt(values)) == values
  {
    if |values| > 0 {
      var n := |values|;
      var init := values[..n - 1];
      var x := BooleanArrayToInt(values);
      assert x / 2 == BooleanArrayToInt(init);
      CombinationOfBooleanArrayToInt(init);
      assert values == init + [values[n - 1]];
    }
  }

  /** Different row indexes of the table give different assignments. */
  lemma CombinationInjective(n: nat, i: nat, j: nat)
    requires i < Pow2(n) && j < Pow2(n)
    requires Combination(n, i) == Combination(n, j)
    ensures i == j
  {
    BooleanArrayToIntOfCombination(n, i);
    BooleanArrayToIntOfCombination(n, j);
  }

  /** `forEach(variables, consumer)`: the assignments handed to the consumer,
      in call order. */
  function ForEach(numberOfVariables: nat): (r: seq<seq<bool>>)
    ensures |r| == Pow2(numberOfVariables)
    ensures forall i :: 0 <= i < |r| ==> |r[i]| == numberOfVariables && BooleanArrayToInt(r[i]) == i
  {
    RowsReadBack(numberOfVariables);
    seq(Pow2(numberOfVariables), i requires 0 <= i => Combination(numberOfVariables, i))
  }

  /** Every row of the table reads back as its own index. */
  lemma RowsReadBack(n: nat)
    ensures forall i :: 0 <= i < Pow2(n) ==> BooleanArrayToInt(Combination(n, i)) == i
  {
    forall i | 0 <= i < Pow2(n)
      ensures BooleanArrayToInt(Combination(n, i)) == i
    {
      BooleanArrayToIntOfCombination(n, i);
    }
  }

  /** Each assignment of the right length is handed to the consumer exactly
      once, at the position given by its binary value. */
  lemma ForEachVisitsEveryAssignmentOnce(n: nat, values: seq<bool>)
    requires |values| == n
    ensures BooleanArrayToInt(values) < |ForEach(n)|
    ensures ForEach(n)[BooleanArrayToInt(values)] == values
    ensures forall i :: 0 <= i < |ForEach(n)| && ForEach(n)[i] == values ==> i == BooleanArrayToInt(values)
  {
    CombinationOfBooleanArrayToInt(values);
    forall i | 0 <= i < |ForEach(n)| && ForEach(n)[i] == values
      ensures i == BooleanArrayToInt(values)
    {
      CombinationInjective(n, i, BooleanArrayToInt(values));
    }
  }

  /** A number below 2^m has no bits set from position m on. */
  lemma {:induction false} HighBitsClear(x: nat, m: nat, k: nat)
    requires x < Pow2(m) && m <= k
    ensures !Bit(x, k)
  {
    if k > 0 {
      if m == 0 {
        assert x == 0;
        HighBitsClear(0, 0, k - 1);
      } else {
        HighBitsClear(x / 2, m - 1, k - 1);
      }
    }
  }

  lemma Pow2Of31()
    ensures Pow2(31) == 0x8000_0000 && Pow2(32) == 0x1_0000_0000
  {
    assert Pow2(8) == 0x100;
    assert Pow2(16) == 0x1_0000;
    assert Pow2(24) == 0x100_0000;
  }

  /** A number at least 2^31 and below 2^32 has bit 31 set. */
  lemma {:induction false} Bit31Set(u: nat)
    requires 0x8000_0000 <= u < 0x1_0000_0000
    ensures Bit(u, 31)
  {
    Pow2Of31();
    var x := u;
    var k := 0;
    while k < 31
      invariant 0 <= k <= 31
      invariant Pow2(31 - k) <= x < Pow2(32 - k)
      invariant Bit(u, 31) == Bit(x, 31 - k)
    {
      x := x / 2;
      k := k + 1;
    }
  }

  /** `indexToByteArray(x, n)`: the low `min(n, 32)` bits of the two's
      complement of `x`, most significant first, as 0/1 bytes; when n > 32
      the positions above bit 31 repeat bit 31 (the `preExpand` step). A
      negative length fails like the array allocation in the source. */
  function IndexToByteArray(x: Int32, n: int): (r: Result<seq<Byte>>)
    ensures r.Ok? <==> n >= 0
    ensures r.Ok? ==> |r.value| == n
    ensures r.Ok? ==> forall j :: 0 <= j < n ==> r.value[j] == 0 || r.value[j] == 1
  {
    if n < 0 then Err(NegativeArraySize)
    else
      var u := x % 0x1_0000_0000;
      Ok(seq(n, j requires 0 <= j < n =>
        var k := n - 1 - j;
        if (if k < 32 then Bit(u, k) else Bit(u, 31)) then 1 else 0))
  }

  /** For a non-negative index the bytes are its plain binary expansion,
      the same bits `Combination` produces. */
  lemma IndexToByteArrayOfNonNegative(x: Int32, n: nat)
    requires x >= 0
    ensures IndexToByteArray(x, n).Ok?
    ensures forall j :: 0 <= j < n ==>
      IndexToByteArray(x, n).value[j] == (if Combination(n, x)[j] then 1 else 0)
  {
    var r := IndexToByteArray(x, n).value;
    assert x % 0x1_0000_0000 == x;
    CombinationBits(n, x);
    forall j | 0 <= j < n
      ensures r[j] == (if Combination(n, x)[j] then 1 else 0)
    {
      var k := n - 1 - j;
      if k >= 32 {
        Pow2Of31();
        HighBitsClear(x, 31, 31);
        HighBitsClear(x, 31, k);
      }
    }
  }

  /** A negative index is sign-extended: every position holding bit 31 or
      above is 1. */
  lemma IndexToByteArrayOfNegative(x: Int32, n: nat)
    requires x < 0
    ensures IndexToByteArray(x, n).Ok?
    ensures forall j :: 0 <= j < n && n - 1 - j >= 31 ==> IndexToByteArray(x, n).value[j] == 1
  {
    Bit31Set(x % 0x1_0000_0000);
  }

  // ---------------------------------------------------------------------
  // Truth tables of expressions

  /** What the evaluator makes of `expression` on each row of the table,
      in the order `forEach` hands the rows out. */
  function Evaluations(variables: seq<string>, expression: Node): (r: seq<Result<bool>>)
    ensures |r| == Pow2(|variables|)
  {
    seq(Pow2(|variables|), i requires 0 <= i < Pow2(|variables|) =>
      ExpressionEvaluator.Evaluate(variables, expression, Combination(|variables|, i)))
  }

  /** The loop of `filterAssignments` over rows 0 .. k-1 of a table of n
      variables whose evaluations are `results`: the rows, in order, whose
      value is `expressionValue`; the first evaluation error aborts the
      whole loop. */
  function FilterRows(n: nat, results: seq<Result<bool>>, expressionValue: bool, k: nat): (r: Result<seq<seq<bool>>>)
    requires k <= |results|
    ensures r.Ok? ==> |r.value| <= k
  {
    if k == 0 then Ok([])
    else
      var kept :- FilterRows(n, results, expressionValue, k - 1);
      var value :- results[k - 1];
      Ok(if value == expressionValue then kept + [Combination(n, k - 1)] else kept)
  }

  /** `filterAssignments(variables, expression, expressionValue)`. */
  function FilterAssignments(variables: seq<string>, expression: Node, expressionValue: bool): (r: Result<seq<seq<bool>>>)
    ensures r.Ok? ==> |r.value| <= |ForEach(|variables|)|
  {
    FilterRows(|variables|, Evaluations(variables, expression), expressionValue, Pow2(|variables|))
  }

  /** The rows, by index, on which `expression` has the value `expressionValue`. */
  function RowsWithValue(variables: seq<string>, expression: Node, expressionValue: bool): set<nat> {
    set i | 0 <= i < Pow2(|variables|) && RowValue(variables, expression, i) == expressionValue
  }

  /** The expression is evaluable: its binary nodes have operands and its
      variables are among the distinct names given. */
  ghost predicate Evaluable(variables: seq<string>, expression: Node) {
    && NonEmptyOperands(expression)
    && ExpressionEvaluator.Distinct(variables)
    && forall x :: Occurs(x, expression) ==> x in variables
  }

  /** The value of `expression` on row i of the table. */
  function RowValue(variables: seq<string>, expression: Node, i: nat): bool {
    Value(expression, ExpressionEvaluator.Assignment(variables, Combination(|variables|, i)))
  }

  predicate Increasing(rows: seq<seq<bool>>) {
    forall a, b :: 0 <= a < b < |rows| ==> BooleanArrayToInt(rows[a]) < BooleanArrayToInt(rows[b])
  }

  /** The truth table of `expression`: its value on each row, in row
      order. */
  function Table(variables: seq<string>, expression: Node): (t: seq<bool>)
    ensures |t| == Pow2(|variables|)
  {
    seq(Pow2(|variables|), i requires 0 <= i < Pow2(|variables|) => RowValue(variables, expression, i))
  }

  lemma TableEntry(variables: seq<string>, expression: Node, i: nat)
    requires i < Pow2(|variables|)
    ensures Table(variables, expression)[i] == RowValue(variables, expression, i)
  {
  }

  /** Reference for the filtering loop: the assignments of the rows below k
      whose entry in `table` is `wanted`, in table order. */
  function Selected(n: nat, table: seq<bool>, wanted: bool, k: nat): seq<seq<bool>>
    requires k <= |table|
  {
    if k == 0 then []
    else Selected(n, table, wanted, k - 1) + (if table[k - 1] == wanted then [Combination(n, k - 1)] else [])
  }

  /** An assignment is among the selected rows iff it has the table's width,
      its row index is below k and that row is wanted. */
  lemma {:induction false} SelectedMember(n: nat, table: seq<bool>, wanted: bool, k: nat, v: seq<bool>)
    requires k <= |table| && k <= Pow2(n)
    ensures v in Selected(n, table, wanted, k) <==>
      (|v| == n && BooleanArrayToInt(v) < k && table[BooleanArrayToInt(v)] == wanted)
  {
    if k > 0 {
      SelectedMember(n, table, wanted, k - 1, v);
      SelectedStep(n, table, wanted, k, v);
      RowOfAssignment(n, k - 1, v);
    }
  }

  lemma SelectedStep(n: nat, table: seq<bool>, wanted: bool, k: nat, v: seq<bool>)
    requires 0 < k <= |table|
    ensures v in Selected(n, table, wanted, k) <==>
      v in Selected(n, table, wanted, k - 1) || (table[k - 1] == wanted && v == Combination(n, k - 1))
  {
  }

  /** v is the assignment of row i exactly when it has n positions and
      reads back as i. */
  lemma RowOfAssignment(n: nat, i: nat, v: seq<bool>)
    requires i < Pow2(n)
    ensures v == Combination(n, i) <==> |v| == n && BooleanArrayToInt(v) == i
  {
    BooleanArrayToIntOfCombination(n, i);
    if |v| == n && BooleanArrayToInt(v) == i {
      CombinationOfBooleanArrayToInt(v);
    }
  }

  /** The selected rows come in increasing row order, all below k. */
  lemma {:induction false} SelectedIncreasing(n: nat, table: seq<bool>, wanted: bool, k: nat)
    requires k <= |table| && k <= Pow2(n)
    ensures Increasing(Selected(n, table, wanted, k))
    ensures forall a :: 0 <= a < |Selected(n, table, wanted, k)| ==> BooleanArrayToInt(Selected(n, table, wanted, k)[a]) < k
  {
    if k > 0 {
      SelectedIncreasing(n, table, wanted, k - 1);
      BooleanArrayToIntOfCombination(n, k - 1);
      if table[k - 1] == wanted {
        AppendIncreasing(Selected(n, table, wanted, k - 1), Combination(n, k - 1), k);
      }
    }
  }

  /** A row after every row of an increasing list keeps it increasing. */
  lemma AppendIncreasing(prev: seq<seq<bool>>, last: seq<bool>, k: nat)
    requires Increasing(prev) && BooleanArrayToInt(last) + 1 == k
    requires forall a :: 0 <= a < |prev| ==> BooleanArrayToInt(prev[a]) < k - 1
    ensures Increasing(prev + [last])
    ensures forall a :: 0 <= a < |prev + [last]| ==> BooleanArrayToInt((prev + [last])[a]) < k
  {
    var result := prev + [last];
    forall a, b | 0 <= a < b < |result|
      ensures BooleanArrayToInt(result[a]) < BooleanArrayToInt(result[b])
    {
      assert result[a] == prev[a];
      if b < |prev| {
        assert result[b] == prev[b];
      }
    }
    forall a | 0 <= a < |result|
      ensures BooleanArrayToInt(result[a]) < k
    {
      if a < |prev| {
        assert result[a] == prev[a];
      }
    }
  }

  /** An evaluable expression evaluates to its truth table on every row. */
  lemma EvaluationsAreTable(variables: seq<string>, expression: Node)
    requires Evaluable(variables, expression)
    ensures forall i :: 0 <= i < Pow2(|variables|) ==>
      Evaluations(variables, expression)[i] == Ok(Table(variables, expression)[i])
  {
    forall i | 0 <= i < Pow2(|variables|)
      ensures Evaluations(variables, expression)[i] == Ok(Table(variables, expression)[i])
    {
      ExpressionEvaluator.EvaluateComputesValue(variables, expression, Combination(|variables|, i));
      TableEntry(variables, expression, i);
    }
  }

  /** When every evaluation succeeds with the table's entry, the loop keeps
      exactly the wanted rows, in table order, without error. */
  lemma {:induction false} FilterRowsKeepsMatching(n: nat, results: seq<Result<bool>>, table: seq<bool>,
                                                   expressionValue: bool, k: nat)
    requires k <= |results| && k <= |table|
    requires forall i :: 0 <= i < k ==> results[i] == Ok(table[i])
    ensures FilterRows(n, results, expressionValue, k) == Ok(Selected(n, table, expressionValue, k))
  {
    if k > 0 {
      FilterRowsKeepsMatching(n, results, table, expressionValue, k - 1);
      var prev := Selected(n, table, expressionValue, k - 1);
      assert prev + [] == prev;
    }
  }
  /** An evaluation error on any row below k aborts the loop. */
  lemma {:induction false} FilterRowsFails(n: nat, results: seq<Result<bool>>, expressionValue: bool, k: nat, i: nat)
    requires i < k <= |results| && results[i].Err?
    ensures FilterRows(n, results, expressionValue, k).Err?
  {
    if i < k - 1 {
      FilterRowsFails(n, results, expressionValue, k - 1, i);
    }
  }

  /** An expression naming a variable missing from the list makes
      `filterAssignments` fail: the evaluator refuses it on the first row. */
  lemma FilterAssignmentsRejectsUnknown(variables: seq<string>, expression: Node, x: string)
    requires Occurs(x, expression) && x !in variables
    ensures FilterAssignments(variables, expression, true).Err?
    ensures FilterAssignments(variables, expression, false).Err?
  {
    var results := Evaluations(variables, expression);
    ExpressionEvaluator.UnknownVariableRejected(variables, expression, Combination(|variables|, 0), x);
    assert results[0].Err?;
    FilterRowsFails(|variables|, results, true, Pow2(|variables|), 0);
    FilterRowsFails(|variables|, results, false, Pow2(|variables|), 0);
  }


  /** `filterAssignments` keeps, in increasing row order, exactly the
      assignments whose row has the requested value in the truth table. */
  lemma FilterAssignmentsKeepsRows(variables: seq<string>, expression: Node, expressionValue: bool)
    requires Evaluable(variables, expression)
    ensures FilterAssignments(variables, expression, expressionValue).Ok?
    ensures forall v :: v in FilterAssignments(variables, expression, expressionValue).value <==>
      (|v| == |variables| && Table(variables, expression)[BooleanArrayToInt(v)] == expressionValue)
    ensures Increasing(FilterAssignments(variables, expression, expressionValue).value)
  {
    var n := |variables|;
    var table := Table(variables, expression);
    EvaluationsAreTable(variables, expression);
    FilterRowsKeepsMatching(n, Evaluations(variables, expression), table, expressionValue, Pow2(n));
    SelectedIncreasing(n, table, expressionValue, Pow2(n));
    forall v
      ensures v in Selected(n, table, expressionValue, Pow2(n)) <==> (|v| == n && table[BooleanArrayToInt(v)] == expressionValue)
    {
      SelectedMember(n, table, expressionValue, Pow2(n), v);
    }
  }

  /** `filterAssignments` keeps exactly the assignments on which the
      expression has the requested value, in increasing row order. */
  lemma FilterAssignmentsKeepsMatching(variables: seq<string>, expression: Node, expressionValue: bool)
    requires Evaluable(variables, expression)
    ensures FilterAssignments(variables, expression, expressionValue).Ok?
    ensures forall v :: v in FilterAssignments(variables, expression, expressionValue).value <==>
      (|v| == |variables| && Value(expression, ExpressionEvaluator.Assignment(variables, v)) == expressionValue)
    ensures Increasing(FilterAssignments(variables, expression, expressionValue).value)
  {
    FilterAssignmentsKeepsRows(variables, expression, expressionValue);
    forall v | |v| == |variables|
      ensures Table(variables, expression)[BooleanArrayToInt(v)] == Value(expression, ExpressionEvaluator.Assignment(variables, v))
    {
      TableEntry(variables, expression, BooleanArrayToInt(v));
      CombinationOfBooleanArrayToInt(v);
    }
  }

  /** Shared body of `toSumOfMinterms` and `toProductOfMaxterms`. */
  function PerformFilterAndConvert(variables: seq<string>, expression: Node, expectedValue: bool): Result<set<nat>> {
    var kept :- FilterAssignments(variables, expression, expectedValue);
    Ok(set v | v in kept :: BooleanArrayToInt(v))
  }

  /** `toSumOfMinterms`: the indexes of the rows where the expression is true. */
  function ToSumOfMinterms(variables: seq<string>, expression: Node): Result<set<nat>> {
    PerformFilterAndConvert(variables, expression, true)
  }

  /** `toProductOfMaxterms`: the indexes of the rows where the expression is false. */
  function ToProductOfMaxterms(variables: seq<string>, expression: Node): Result<set<nat>> {
    PerformFilterAndConvert(variables, expression, false)
  }

  lemma PerformFilterAndConvertIsRows(variables: seq<string>, expression: Node, expectedValue: bool)
    requires Evaluable(variables, expression)
    ensures PerformFilterAndConvert(variables, expression, expectedValue) == Ok(RowsWithValue(variables, expression, expectedValue))
  {
    var n := |variables|;
    var table := Table(variables, expression);
    FilterAssignmentsKeepsRows(variables, expression, expectedValue);
    var kept := FilterAssignments(variables, expression, expectedValue).value;
    var got := set v | v in kept :: BooleanArrayToInt(v);
    var want := RowsWithValue(variables, expression, expectedValue);
    forall i | i in want ensures i in got {
      BooleanArrayToIntOfCombination(n, i);
      TableEntry(variables, expression, i);
      assert Combination(n, i) in kept;
    }
    forall i | i in got ensures i in want {
      var v :| v in kept && i == BooleanArrayToInt(v);
      TableEntry(variables, expression, i);
    }
    assert got == want;
  }

  /** The minterms are exactly the true rows, the maxterms exactly the false
      rows, and together they partition the table [0, 2^n). */
  lemma MintermsAndMaxtermsPartition(variables: seq<string>, expression: Node)
    requires Evaluable(variables, expression)
    ensures ToSumOfMinterms(variables, expression) == Ok(RowsWithValue(variables, expression, true))
    ensures ToProductOfMaxterms(variables, expression) == Ok(RowsWithValue(variables, expression, false))
    ensures ToSumOfMinterms(variables, expression).value * ToProductOfMaxterms(variables, expression).value == {}
    ensures forall i :: 0 <= i < Pow2(|variables|) <==>
      i in ToSumOfMinterms(variables, expression).value + ToProductOfMaxterms(variables, expression).value
  {
    PerformFilterAndConvertIsRows(variables, expression, true);
    PerformFilterAndConvertIsRows(variables, expression, false);
  }
}
