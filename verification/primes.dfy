/** What the columns of the Quine-McCluskey table hold, and that the masks
    `findPrimaryImplicants` collects are exactly the prime implicants of the
    function (minterms M, don't-cares D, n variables).

    Column k holds, bucket by bucket, every product term with k absent
    variables whose rows all lie in M + D; a term of the column takes part
    in no merge exactly when no single variable can be dropped from it, so
    the masks extracted are the implicants that cannot be widened and are
    not made of don't-cares alone. */
module PrimeImplicants {
  import opened Wrappers
  import opened Masks
  import opened Minimizer
  import Util

  /** Number of absent variables of a pattern. */
  function Absents(p: seq<Trit>): nat {
    multiset(p)[Absent]
  }

  /** Every index lies in the truth table of n variables. */
  predicate InRange(indexes: set<int>, n: nat) {
    forall i :: i in indexes ==> 0 <= i < Util.Pow2(n)
  }

  /** The product term p of n variables is true only on minterms and
      don't-cares. */
  predicate Implicant(p: seq<Trit>, n: nat, minterms: set<int>, dontCares: set<int>) {
    |p| == n && Rows(p) <= minterms + dontCares
  }

  /** The mask the tables hold for pattern p: its rows, and whether they are
      all don't-cares. */
  function MaskOf(p: seq<Trit>, dontCares: set<int>): Mask {
    Mask(p, Rows(p), Rows(p) <= dontCares)
  }

  /** Some variable of p can be dropped with p staying an implicant. */
  predicate Widenable(p: seq<Trit>, n: nat, minterms: set<int>, dontCares: set<int>) {
    exists d :: 0 <= d < |p| && p[d] != Absent && Implicant(p[d := Absent], n, minterms, dontCares)
  }

  /** A prime implicant that is true on at least one minterm. */
  predicate PrimeImplicant(p: seq<Trit>, n: nat, minterms: set<int>, dontCares: set<int>) {
    Implicant(p, n, minterms, dontCares) && !(Rows(p) <= dontCares) && !Widenable(p, n, minterms, dontCares)
  }

  /** m is the table's mask of a prime implicant. */
  predicate IsPrime(m: Mask, n: nat, minterms: set<int>, dontCares: set<int>) {
    m == MaskOf(m.values, dontCares) && PrimeImplicant(m.values, n, minterms, dontCares)
  }

  /** m belongs in bucket w of column k. */
  predicate InBucket(m: Mask, k: nat, w: nat, n: nat, minterms: set<int>, dontCares: set<int>) {
    && m == MaskOf(m.values, dontCares)
    && Implicant(m.values, n, minterms, dontCares)
    && Absents(m.values) == k
    && CountOfOnes(m.values) == w
  }

  /** Column k holds exactly the implicants with k absent variables, bucketed
      by their number of plain variables. */
  ghost predicate ColumnInvariant(column: Column, k: nat, n: nat, minterms: set<int>, dontCares: set<int>) {
    && k <= n + 1
    && |column| == n + 1 - k
    && forall w, m :: 0 <= w < |column| ==> (m in column[w] <==> InBucket(m, k, w, n, minterms, dontCares))
  }

  // ---------------------------------------------------------------------
  // Counting positions

  lemma MultisetUpdate(p: seq<Trit>, d: int, t: Trit)
    requires 0 <= d < |p|
    ensures multiset(p[d := t]) + multiset{p[d]} == multiset(p) + multiset{t}
  {
    assert p == p[..d] + [p[d]] + p[d + 1..];
    assert p[d := t] == p[..d] + [t] + p[d + 1..];
  }

  /** Plain and absent positions together are at most all positions. */
  lemma {:induction false} CountsBound(p: seq<Trit>)
    ensures CountOfOnes(p) + Absents(p) <= |p|
  {
    if |p| > 0 {
      CountsBound(p[1..]);
      assert p == [p[0]] + p[1..];
      assert multiset(p) == multiset{p[0]} + multiset(p[1..]);
    }
  }

  lemma AbsentPosition(p: seq<Trit>) returns (d: int)
    requires Absents(p) > 0
    ensures 0 <= d < |p| && p[d] == Absent
  {
    assert Absent in multiset(p);
    assert Absent in p;
    d :| 0 <= d < |p| && p[d] == Absent;
  }

  /** Fixing an absent variable of p to t removes one absent position and
      adds a plain one when t is Pos. */
  lemma FixAbsent(p: seq<Trit>, d: int, t: Trit)
    requires 0 <= d < |p| && p[d] == Absent && t != Absent
    ensures Absents(p[d := t]) + 1 == Absents(p)
    ensures CountOfOnes(p[d := t]) == CountOfOnes(p) + (if t == Pos then 1 else 0)
    ensures DiffersOnlyAt(p[d := Neg], p[d := Pos], d) && p[d := Neg][d := Absent] == p
  {
    MultisetUpdate(p, d, t);
  }

  /** Dropping the present variable at d adds one absent position and
      removes a plain one when it was Pos. */
  lemma DropPresent(p: seq<Trit>, d: int)
    requires 0 <= d < |p| && p[d] != Absent
    ensures Absents(p[d := Absent]) == Absents(p) + 1
    ensures CountOfOnes(p[d := Absent]) + (if p[d] == Pos then 1 else 0) == CountOfOnes(p)
  {
    MultisetUpdate(p, d, Absent);
  }

  // ---------------------------------------------------------------------
  // Rows of related patterns

  /** Dropping a variable only adds rows. */
  lemma RowsWiden(p: seq<Trit>, d: int)
    requires 0 <= d < |p|
    ensures Rows(p) <= Rows(p[d := Absent])
  {
    forall i | i in Rows(p) ensures i in Rows(p[d := Absent]) {
      assert Matches(p[d := Absent], Util.Combination(|p|, i));
    }
  }

  /** The pattern with the variable at d flipped. */
  function Flip(p: seq<Trit>, d: int): seq<Trit>
    requires 0 <= d < |p|
  {
    p[d := if p[d] == Pos then Neg else Pos]
  }

  /** Dropping the present variable at d covers p and its flip. */
  lemma RowsOfDrop(p: seq<Trit>, d: int)
    requires 0 <= d < |p| && p[d] != Absent
    ensures DiffersOnlyAt(p, Flip(p, d), d) && DiffersOnlyAt(Flip(p, d), p, d)
    ensures Rows(p[d := Absent]) == Rows(p) + Rows(Flip(p, d))
    ensures Flip(p, d)[d := Absent] == p[d := Absent]
    ensures Absents(Flip(p, d)) == Absents(p)
    ensures CountOfOnes(Flip(p, d)) == CountOfOnes(p) + (if p[d] == Pos then -1 else 1)
  {
    RowsOfMerge(p, Flip(p, d), d);
    MultisetUpdate(p, d, Flip(p, d)[d]);
  }

  // ---------------------------------------------------------------------
  // The first column

  /** A pattern without absent variables is the literal of one row. */
  lemma LiteralOfComplete(p: seq<Trit>) returns (i: nat)
    requires Absents(p) == 0
    ensures i < Util.Pow2(|p|) && p == Literal(Util.Combination(|p|, i)) && Rows(p) == {i}
  {
    var a := seq(|p|, j requires 0 <= j < |p| => p[j] == Pos);
    i := Util.BooleanArrayToInt(a);
    Util.CombinationOfBooleanArrayToInt(a);
    assert Absent !in p;
    assert p == Literal(a);
    RowsOfIndex(|p|, i);
  }

  lemma LiteralHasNoAbsent(a: seq<bool>)
    ensures Absents(Literal(a)) == 0
  {
    if Absent in multiset(Literal(a)) {
      assert Absent in Literal(a);
    }
  }

  /** The masks of the first column are the implicants without absent
      variables. */
  lemma FirstColumnSound(minterms: set<int>, dontCares: set<int>, n: nat, w: nat, m: Mask)
    requires InRange(minterms + dontCares, n) && minterms * dontCares == {}
    requires FirstColumn(minterms, dontCares, n).Ok? && w < n + 1
    requires m in FirstColumn(minterms, dontCares, n).value[w]
    ensures InBucket(m, 0, w, n, minterms, dontCares)
  {
    var i: nat, dontCare :| ((i in minterms && !dontCare) || (i in dontCares && dontCare))
      && m == RowMask(i, n, dontCare) && CountOfOnes(m.values) == w;
    assert m == RowMask(i, n, dontCare);
    assert RowMask(i, n, dontCare).values == Literal(Util.Combination(n, i));
    var p := Literal(Util.Combination(n, i));
    assert m.values == p && m.indexes == {i} && m.dontCare == dontCare;
    RowsOfIndex(n, i);
    LiteralHasNoAbsent(Util.Combination(n, i));
    assert i !in minterms * dontCares;
    assert dontCare <==> {i} <= dontCares;
    assert Rows(p) == {i};
    assert MaskOf(p, dontCares) == Mask(p, {i}, {i} <= dontCares);
  }

  /** Every implicant without absent variables is in the first column. */
  lemma FirstColumnComplete(minterms: set<int>, dontCares: set<int>, n: nat, w: nat, m: Mask)
    requires InRange(minterms + dontCares, n) && minterms * dontCares == {}
    requires FirstColumn(minterms, dontCares, n).Ok? && w < n + 1
    requires InBucket(m, 0, w, n, minterms, dontCares)
    ensures m in FirstColumn(minterms, dontCares, n).value[w]
  {
    var i := LiteralOfComplete(m.values);
    assert i in minterms + dontCares;
    assert i !in minterms * dontCares;
    if i in minterms {
      assert m == RowMask(i, n, false);
      assert m in (set i | i in minterms && 0 <= i && CountOfOnes(RowMask(i, n, false).values) == w :: RowMask(i, n, false));
    } else {
      assert m == RowMask(i, n, true);
      assert m in (set i | i in dontCares && 0 <= i && CountOfOnes(RowMask(i, n, true).values) == w :: RowMask(i, n, true));
    }
  }

  /** The first column holds the implicants without absent variables. */
  lemma FirstColumnInvariant(minterms: set<int>, dontCares: set<int>, n: nat)
    requires InRange(minterms + dontCares, n) && minterms * dontCares == {}
    ensures FirstColumn(minterms, dontCares, n).Ok?
    ensures ColumnInvariant(FirstColumn(minterms, dontCares, n).value, 0, n, minterms, dontCares)
  {
    var column := FirstColumn(minterms, dontCares, n).value;
    forall w, m | 0 <= w < |column|
      ensures m in column[w] <==> InBucket(m, 0, w, n, minterms, dontCares)
    {
      if m in column[w] {
        FirstColumnSound(minterms, dontCares, n, w, m);
      }
      if InBucket(m, 0, w, n, minterms, dontCares) {
        FirstColumnComplete(minterms, dontCares, n, w, m);
      }
    }
  }

  // ---------------------------------------------------------------------
  // The next column

  /** A merge of two masks of neighbouring buckets of column k belongs in
      the lower bucket of column k + 1. */
  lemma MergeInBucket(column: Column, k: nat, w: nat, n: nat, minterms: set<int>, dontCares: set<int>, a: Mask, b: Mask)
    requires ColumnInvariant(column, k, n, minterms, dontCares)
    requires w + 1 < |column| && a in column[w] && b in column[w + 1] && Merge(a, b).Some?
    ensures InBucket(Merge(a, b).value, k + 1, w, n, minterms, dontCares)
  {
    assert InBucket(a, k, w, n, minterms, dontCares) && InBucket(b, k, w + 1, n, minterms, dontCares);
    var d :| DiffersOnlyAt(a.values, b.values, d);
    DiffersOnlyAtWeights(a.values, b.values, d);
    RowsOfMerge(a.values, b.values, d);
    DropPresent(a.values, d);
  }

  /** Every implicant with k + 1 absent variables is the merge of two masks
      of neighbouring buckets of column k. */
  lemma SplitIntoBuckets(column: Column, k: nat, w: nat, n: nat, minterms: set<int>, dontCares: set<int>, m: Mask)
    requires ColumnInvariant(column, k, n, minterms, dontCares)
    requires InBucket(m, k + 1, w, n, minterms, dontCares)
    ensures w + 1 < |column|
    ensures exists a, b :: a in column[w] && b in column[w + 1] && Merge(a, b) == Some(m)
  {
    var p := m.values;
    var d := AbsentPosition(p);
    var lo := p[d := Neg];
    var hi := p[d := Pos];
    FixAbsent(p, d, Neg);
    FixAbsent(p, d, Pos);
    RowsOfMerge(lo, hi, d);
    assert lo[d := Absent] == p;
    CountsBound(hi);
    var a := MaskOf(lo, dontCares);
    var b := MaskOf(hi, dontCares);
    assert InBucket(a, k, w, n, minterms, dontCares);
    assert InBucket(b, k, w + 1, n, minterms, dontCares);
    assert Merge(a, b) == Some(m);
  }

  /** The merges of column k form column k + 1. */
  lemma NextColumnInvariant(column: Column, k: nat, n: nat, minterms: set<int>, dontCares: set<int>)
    requires ColumnInvariant(column, k, n, minterms, dontCares) && k <= n
    ensures ColumnInvariant(NextColumn(column), k + 1, n, minterms, dontCares)
  {
    var next := NextColumn(column);
    forall w, m | 0 <= w < |next|
      ensures m in next[w] <==> InBucket(m, k + 1, w, n, minterms, dontCares)
    {
      if m in next[w] {
        var a, b :| a in column[w] && b in column[w + 1] && Merge(a, b).Some? && Merge(a, b).value == m;
        MergeInBucket(column, k, w, n, minterms, dontCares, a, b);
      }
      if InBucket(m, k + 1, w, n, minterms, dontCares) {
        SplitIntoBuckets(column, k, w, n, minterms, dontCares, m);
      }
    }
  }

  // ---------------------------------------------------------------------
  // Combined masks and the extracted ones

  /** Two masks that merge into an implicant let either of them drop the
      variable they differ in. */
  lemma MergedWidenable(a: Mask, b: Mask, n: nat, minterms: set<int>, dontCares: set<int>)
    requires Merge(a, b).Some? && Implicant(Merge(a, b).value.values, n, minterms, dontCares)
    ensures Widenable(a.values, n, minterms, dontCares) && Widenable(b.values, n, minterms, dontCares)
  {
    var d :| DiffersOnlyAt(a.values, b.values, d);
    assert Merge(a, b).value.values == a.values[d := Absent];
    assert a.values[d := Absent] == b.values[d := Absent];
  }

  /** A mask that merges with a neighbour can drop a variable. */
  lemma CombinedWidenable(column: Column, k: nat, w: nat, n: nat, minterms: set<int>, dontCares: set<int>, m: Mask)
    requires ColumnInvariant(column, k, n, minterms, dontCares)
    requires w < |column| && m in column[w] && Combined(column, w, m)
    ensures Widenable(m.values, n, minterms, dontCares)
  {
    if w + 1 < |column| && exists b :: b in column[w + 1] && Merge(m, b).Some? {
      var b :| b in column[w + 1] && Merge(m, b).Some?;
      MergeInBucket(column, k, w, n, minterms, dontCares, m, b);
      MergedWidenable(m, b, n, minterms, dontCares);
    } else {
      var a :| a in column[w - 1] && Merge(a, m).Some?;
      MergeInBucket(column, k, w - 1, n, minterms, dontCares, a, m);
      MergedWidenable(a, m, n, minterms, dontCares);
    }
  }

  /** A mask that can drop a variable merges with the mask that has that
      variable flipped. */
  lemma WidenableCombined(column: Column, k: nat, w: nat, n: nat, minterms: set<int>, dontCares: set<int>, m: Mask)
    requires ColumnInvariant(column, k, n, minterms, dontCares)
    requires w < |column| && m in column[w] && Widenable(m.values, n, minterms, dontCares)
    ensures Combined(column, w, m)
  {
    var p := m.values;
    assert InBucket(m, k, w, n, minterms, dontCares);
    var d :| 0 <= d < |p| && p[d] != Absent && Implicant(p[d := Absent], n, minterms, dontCares);
    var q := Flip(p, d);
    RowsOfDrop(p, d);
    var other := MaskOf(q, dontCares);
    if p[d] == Neg {
      CountsBound(q);
      assert InBucket(other, k, w + 1, n, minterms, dontCares);
      assert other in column[w + 1];
      assert CombineWith(m, Some(other)).Ok?;
      assert Merge(m, other).Some?;
    } else {
      assert InBucket(other, k, w - 1, n, minterms, dontCares);
      assert other in column[w - 1];
      assert CombineWith(other, Some(m)).Ok?;
      assert Merge(other, m).Some?;
    }
  }

  /** A mask of the column merges with a neighbour exactly when one of its
      variables can be dropped. */
  lemma CombinedMeaning(column: Column, k: nat, w: nat, n: nat, minterms: set<int>, dontCares: set<int>, m: Mask)
    requires ColumnInvariant(column, k, n, minterms, dontCares)
    requires w < |column| && m in column[w]
    ensures Combined(column, w, m) <==> Widenable(m.values, n, minterms, dontCares)
  {
    if Combined(column, w, m) {
      CombinedWidenable(column, k, w, n, minterms, dontCares, m);
    }
    if Widenable(m.values, n, minterms, dontCares) {
      WidenableCombined(column, k, w, n, minterms, dontCares, m);
    }
  }

  /** The masks extracted from column k are the primes with k absent
      variables. */
  lemma ExtractMeaning(column: Column, k: nat, n: nat, minterms: set<int>, dontCares: set<int>)
    requires ColumnInvariant(column, k, n, minterms, dontCares)
    ensures forall m :: m in Extract(column) <==> IsPrime(m, n, minterms, dontCares) && Absents(m.values) == k
  {
    forall m ensures m in Extract(column) <==> IsPrime(m, n, minterms, dontCares) && Absents(m.values) == k {
      if m in Extract(column) {
        var w :| 0 <= w < |column| && m in column[w] && !Combined(column, w, m) && !m.dontCare;
        CombinedMeaning(column, k, w, n, minterms, dontCares, m);
      }
      if IsPrime(m, n, minterms, dontCares) && Absents(m.values) == k {
        var w := CountOfOnes(m.values);
        CountsBound(m.values);
        assert m in column[w];
        CombinedMeaning(column, k, w, n, minterms, dontCares, m);
      }
    }
  }

  /** An implicant with more than j absent variables can be narrowed to one
      with exactly j. */
  lemma {:induction false} Narrow(p: seq<Trit>, j: nat, n: nat, minterms: set<int>, dontCares: set<int>) returns (q: seq<Trit>)
    requires Implicant(p, n, minterms, dontCares) && Absents(p) >= j
    ensures Implicant(q, n, minterms, dontCares) && Absents(q) == j
    decreases Absents(p)
  {
    if Absents(p) == j {
      q := p;
    } else {
      var d := AbsentPosition(p);
      FixAbsent(p, d, Neg);
      FixAbsent(p, d, Pos);
      RowsOfMerge(p[d := Neg], p[d := Pos], d);
      q := Narrow(p[d := Neg], j, n, minterms, dontCares);
    }
  }

  /** When no merge happens, no implicant has more than k absent
      variables. */
  lemma UnmodifiedMeansWidest(column: Column, k: nat, n: nat, minterms: set<int>, dontCares: set<int>, p: seq<Trit>)
    requires ColumnInvariant(column, k, n, minterms, dontCares) && |column| > 0
    requires !Modified(column)
    requires Implicant(p, n, minterms, dontCares)
    ensures Absents(p) <= k
  {
    if Absents(p) > k {
      var q := Narrow(p, k + 1, n, minterms, dontCares);
      NextColumnInvariant(column, k, n, minterms, dontCares);
      var w := CountOfOnes(q);
      CountsBound(q);
      assert InBucket(MaskOf(q, dontCares), k + 1, w, n, minterms, dontCares);
    }
  }

  /** From column k on, with the primes of the earlier columns found, the
      search collects exactly the primes. */
  lemma {:induction false} FindPrimesCollectsPrimes(column: Column, k: nat, n: nat, minterms: set<int>, dontCares: set<int>, found: set<Mask>)
    requires ColumnInvariant(column, k, n, minterms, dontCares)
    requires forall m :: m in found <==> IsPrime(m, n, minterms, dontCares) && Absents(m.values) < k
    ensures forall m :: m in FindPrimes(column, found) <==> IsPrime(m, n, minterms, dontCares)
    decreases |column|
  {
    if |column| == 0 {
      forall m | IsPrime(m, n, minterms, dontCares) ensures Absents(m.values) < k {
        CountsBound(m.values);
      }
    } else {
      ExtractMeaning(column, k, n, minterms, dontCares);
      var primes := found + Extract(column);
      if !Modified(column) {
        forall m | IsPrime(m, n, minterms, dontCares) ensures m in primes {
          UnmodifiedMeansWidest(column, k, n, minterms, dontCares, m.values);
        }
      } else {
        NextColumnInvariant(column, k, n, minterms, dontCares);
        FindPrimesCollectsPrimes(NextColumn(column), k + 1, n, minterms, dontCares, primes);
      }
    }
  }

  /** `findPrimaryImplicants()` returns exactly the prime implicants that
      are true on some minterm, each with its rows. */
  lemma FindPrimesTheorem(minterms: set<int>, dontCares: set<int>, n: nat)
    requires InRange(minterms + dontCares, n) && minterms * dontCares == {}
    ensures FirstColumn(minterms, dontCares, n).Ok?
    ensures forall m :: m in FindPrimes(FirstColumn(minterms, dontCares, n).value, {}) <==> IsPrime(m, n, minterms, dontCares)
  {
    FirstColumnInvariant(minterms, dontCares, n);
    FindPrimesCollectsPrimes(FirstColumn(minterms, dontCares, n).value, 0, n, minterms, dontCares, {});
  }

  // ---------------------------------------------------------------------
  // Every minterm has a prime implicant

  /** An implicant through a minterm widens to a prime implicant through it. */
  lemma {:induction false} Widen(p: seq<Trit>, j: int, n: nat, minterms: set<int>, dontCares: set<int>) returns (q: seq<Trit>)
    requires Implicant(p, n, minterms, dontCares) && j in Rows(p) && j in minterms && minterms * dontCares == {}
    ensures PrimeImplicant(q, n, minterms, dontCares) && j in Rows(q)
    decreases n - Absents(p)
  {
    if Widenable(p, n, minterms, dontCares) {
      var d :| 0 <= d < |p| && p[d] != Absent && Implicant(p[d := Absent], n, minterms, dontCares);
      RowsWiden(p, d);
      DropPresent(p, d);
      CountsBound(p[d := Absent]);
      q := Widen(p[d := Absent], j, n, minterms, dontCares);
    } else {
      assert j !in minterms * dontCares;
      q := p;
    }
  }

  /** Every minterm lies in the rows of some prime. */
  lemma PrimeCovers(j: int, n: nat, minterms: set<int>, dontCares: set<int>) returns (m: Mask)
    requires InRange(minterms + dontCares, n) && minterms * dontCares == {} && j in minterms
    ensures IsPrime(m, n, minterms, dontCares) && j in m.indexes
  {
    var p := Literal(Util.Combination(n, j));
    RowsOfIndex(n, j);
    var q := Widen(p, j, n, minterms, dontCares);
    m := MaskOf(q, dontCares);
  }
}
