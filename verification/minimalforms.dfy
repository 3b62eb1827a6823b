/** What the minimizer promises as a whole: after construction with valid
    arguments the stored forms are exactly the minimum covers of the
    minterms by prime implicants, and every expression built from a form
    is true on each minterm and false on each row that is neither a
    minterm nor a don't-care. */
module MinimalForms {
  import opened Wrappers
  import opened Nodes
  import opened Masks
  import opened Minimizer
  import opened PrimeImplicants
  import opened MinimalCovers
  import Util
  import ExpressionEvaluator

  // ---------------------------------------------------------------------
  // Minimization

  /** The set of prime implicants exists (the table computes it). */
  lemma PrimesExist(minterms: set<int>, dontCares: set<int>, n: nat) returns (primes: set<Mask>)
    requires InRange(minterms + dontCares, n) && minterms * dontCares == {}
    ensures forall m :: m in primes <==> IsPrime(m, n, minterms, dontCares)
  {
    FindPrimesTheorem(minterms, dontCares, n);
    primes := FindPrimes(FirstColumn(minterms, dontCares, n).value, {});
  }

  /** `minimize()` on valid arguments succeeds, and its forms are exactly
      the minimum covers of the minterms by prime implicants. */
  lemma MinimizeTheorem(minterms: set<int>, dontCares: set<int>, n: nat, primes: set<Mask>)
    requires InRange(minterms + dontCares, n) && minterms * dontCares == {}
    requires forall m :: m in primes <==> IsPrime(m, n, minterms, dontCares)
    ensures Minimize(minterms, dontCares, n).Ok?
    ensures forall chosen :: chosen in Minimize(minterms, dontCares, n).value <==>
      IsMinimumCover(chosen, primes, minterms)
  {
    FindPrimesTheorem(minterms, dontCares, n);
    assert FindPrimes(FirstColumn(minterms, dontCares, n).value, {}) == primes;
    forall j | j in minterms ensures Covered(primes, j) {
      var m := PrimeCovers(j, n, minterms, dontCares);
      assert m in primes;
    }
    ChooseMinimalCoverTheorem(primes, minterms, n);
  }

  /** The constructor fails only with an illegal argument: the index and
      empty-set failures inside the cover search never arise. */
  lemma OnlyArgumentErrors(mintermSet: Option<set<Util.Int32>>, dontCareSet: Option<set<Util.Int32>>,
                           variables: Option<seq<string>>)
    ensures NewMinimizer(mintermSet, dontCareSet, variables).Err? ==>
      NewMinimizer(mintermSet, dontCareSet, variables).error == IllegalArgument
  {
    if && mintermSet.Some? && dontCareSet.Some? && variables.Some? && |variables.value| > 0
       && mintermSet.value * dontCareSet.value == {}
       && InRange(mintermSet.value + dontCareSet.value, |variables.value|)
    {
      var primes := PrimesExist(mintermSet.value, dontCareSet.value, |variables.value|);
      MinimizeTheorem(mintermSet.value, dontCareSet.value, |variables.value|, primes);
    }
  }

  /** A minimizer built from valid arguments holds exactly the minimum
      covers of its minterms by prime implicants. */
  lemma NewMinimizerTheorem(minterms: set<Util.Int32>, dontCares: set<Util.Int32>, variables: seq<string>,
                            primes: set<Mask>)
    requires |variables| > 0
    requires InRange(minterms + dontCares, |variables|) && minterms * dontCares == {}
    requires forall m :: m in primes <==> IsPrime(m, |variables|, minterms, dontCares)
    ensures NewMinimizer(Some(minterms), Some(dontCares), Some(variables)).Ok?
    ensures NewMinimizer(Some(minterms), Some(dontCares), Some(variables)).value ==
      Minimizer(minterms, dontCares, variables, NewMinimizer(Some(minterms), Some(dontCares), Some(variables)).value.minimalForms)
    ensures NewMinimizer(Some(minterms), Some(dontCares), Some(variables)).value.minimalForms.Some?
    ensures forall chosen ::
      chosen in NewMinimizer(Some(minterms), Some(dontCares), Some(variables)).value.minimalForms.value
      <==> IsMinimumCover(chosen, primes, minterms)
  {
    MinimizeTheorem(minterms, dontCares, |variables|, primes);
  }

  // ---------------------------------------------------------------------
  // The forms as expressions

  /** An AND node of the children holds iff all of them hold; an OR node
      iff one of them holds. */
  lemma {:induction false} CountTrueMeaning(children: seq<Node>, env: map<string, bool>)
    ensures CountTrue(children, env) <= |children|
    ensures CountTrue(children, env) == |children| <==> forall i :: 0 <= i < |children| ==> Value(children[i], env)
    ensures CountTrue(children, env) > 0 <==> exists i :: 0 <= i < |children| && Value(children[i], env)
    decreases |children|
  {
    if |children| > 0 {
      var init := children[..|children| - 1];
      CountTrueMeaning(init, env);
      assert forall i :: 0 <= i < |init| ==> init[i] == children[i];
    }
  }

  /** `combineWithAnd(mask)` holds exactly on the rows of the mask. */
  lemma CombineWithAndMeaning(mask: Mask, variables: seq<string>, a: seq<bool>)
    requires |mask.values| == |variables| == |a|
    requires ExpressionEvaluator.Distinct(variables)
    ensures CombineWithAnd(mask, variables).Ok?
    ensures NonEmptyOperands(CombineWithAnd(mask, variables).value)
    ensures Value(CombineWithAnd(mask, variables).value, ExpressionEvaluator.Assignment(variables, a))
      <==> Matches(mask.values, a)
  {
    ToVariableNodesMeaning(mask, variables, a);
    CountTrueMeaning(ToVariableNodes(mask, variables).value, ExpressionEvaluator.Assignment(variables, a));
  }

  /** Every mask of the form has one column per variable. */
  predicate Fits(form: seq<Mask>, variables: seq<string>) {
    forall k :: 0 <= k < |form| ==> |form[k].values| == |variables|
  }

  /** The products built for a form hold exactly on the rows of their
      masks, one product per mask. */
  lemma {:induction false} ProductsMeaning(form: seq<Mask>, variables: seq<string>, a: seq<bool>)
    requires Fits(form, variables) && |a| == |variables|
    requires ExpressionEvaluator.Distinct(variables)
    ensures Products(form, variables).Ok?
    ensures forall k :: 0 <= k < |form| ==>
      && NonEmptyOperands(Products(form, variables).value[k])
      && (Value(Products(form, variables).value[k], ExpressionEvaluator.Assignment(variables, a))
          <==> Matches(form[k].values, a))
  {
    if |form| > 0 {
      CombineWithAndMeaning(form[0], variables, a);
      ProductsMeaning(form[1..], variables, a);
      var rest := Products(form[1..], variables).value;
      var all := Products(form, variables).value;
      assert all == [CombineWithAnd(form[0], variables).value] + rest;
      forall k | 1 <= k < |form| ensures all[k] == rest[k - 1] && form[k] == form[1..][k - 1] { }
    }
  }

  /** `combineWithOr(form)` holds exactly where some mask of the form
      matches. */
  lemma CombineWithOrMeaning(form: seq<Mask>, variables: seq<string>, a: seq<bool>)
    requires |form| > 0 && Fits(form, variables) && |a| == |variables|
    requires ExpressionEvaluator.Distinct(variables)
    ensures CombineWithOr(form, variables).Ok?
    ensures NonEmptyOperands(CombineWithOr(form, variables).value)
    ensures Value(CombineWithOr(form, variables).value, ExpressionEvaluator.Assignment(variables, a))
      <==> exists k :: 0 <= k < |form| && Matches(form[k].values, a)
  {
    ProductsMeaning(form, variables, a);
    CountTrueMeaning(Products(form, variables).value, ExpressionEvaluator.Assignment(variables, a));
  }

  /** Each node built for a listed form holds exactly where some mask of
      that form matches; an empty form (the constant false) ends the list,
      so no form is lost unless an empty one comes before the last. */
  lemma {:induction false} FormsToNodesMeaning(listing: seq<seq<Mask>>, variables: seq<string>, a: seq<bool>)
    requires forall i :: 0 <= i < |listing| ==> Fits(listing[i], variables)
    requires |a| == |variables| && ExpressionEvaluator.Distinct(variables)
    ensures FormsToNodes(listing, variables).Ok?
    ensures (forall i :: 0 <= i < |listing| - 1 ==> |listing[i]| > 0) ==>
      |FormsToNodes(listing, variables).value| == |listing|
    ensures forall i :: 0 <= i < |FormsToNodes(listing, variables).value| ==>
      && NonEmptyOperands(FormsToNodes(listing, variables).value[i])
      && (Value(FormsToNodes(listing, variables).value[i], ExpressionEvaluator.Assignment(variables, a))
          <==> exists k :: 0 <= k < |listing[i]| && Matches(listing[i][k].values, a))
  {
    if |listing| > 0 && |listing[0]| > 0 {
      CombineWithOrMeaning(listing[0], variables, a);
      FormsToNodesMeaning(listing[1..], variables, a);
      var rest := FormsToNodes(listing[1..], variables).value;
      var all := FormsToNodes(listing, variables).value;
      assert all == [CombineWithOr(listing[0], variables).value] + rest;
      forall i | 1 <= i < |all| ensures all[i] == rest[i - 1] && listing[i] == listing[1..][i - 1] { }
    }
    FormsToNodesLength(listing, variables);
  }

  /** Only an empty form, which becomes the constant false, ends the list
      early: when no form before the last is empty, there is one node per
      form. */
  lemma {:induction false} FormsToNodesLength(listing: seq<seq<Mask>>, variables: seq<string>)
    requires FormsToNodes(listing, variables).Ok?
    ensures (forall i :: 0 <= i < |listing| - 1 ==> |listing[i]| > 0) ==>
      |FormsToNodes(listing, variables).value| == |listing|
  {
    if |listing| > 0 && |listing[0]| > 0 {
      FormsToNodesLength(listing[1..], variables);
      if forall i :: 0 <= i < |listing| - 1 ==> |listing[i]| > 0 {
        forall i | 0 <= i < |listing[1..]| - 1 ensures |listing[1..][i]| > 0 {
          assert listing[1..][i] == listing[i + 1];
        }
      }
    }
  }

  // ---------------------------------------------------------------------
  // The forms represent the function

  /** A minimum cover by primes holds on every minterm and on no row
      outside the minterms and don't-cares. */
  lemma CoverRepresents(chosen: set<Mask>, primes: set<Mask>, minterms: set<int>, dontCares: set<int>, n: nat, j: int)
    requires forall m :: m in primes <==> IsPrime(m, n, minterms, dontCares)
    requires IsCover(chosen, primes, minterms)
    requires 0 <= j < Util.Pow2(n)
    ensures (exists p :: p in chosen && Matches(p.values, Util.Combination(n, j))) <==> j in minterms || (j in dontCares && exists p :: p in chosen && j in Rows(p.values))
  {
    if j in minterms {
      var p :| p in chosen && j in p.indexes;
      assert IsPrime(p, n, minterms, dontCares);
      assert j in Rows(p.values);
    }
    if p :| p in chosen && Matches(p.values, Util.Combination(n, j)) {
      assert IsPrime(p, n, minterms, dontCares);
      assert j in Rows(p.values);
    }
    if j in dontCares && exists p :: p in chosen && j in Rows(p.values) {
      var p :| p in chosen && j in Rows(p.values);
      assert IsPrime(p, n, minterms, dontCares);
    }
  }

  /** The masks of listed covers have one column per variable. */
  lemma ListedFit(forms: set<set<Mask>>, listing: seq<seq<Mask>>, primes: set<Mask>, minterms: set<int>,
                  dontCares: set<int>, variables: seq<string>)
    requires forall m :: m in primes <==> IsPrime(m, |variables|, minterms, dontCares)
    requires forall chosen :: chosen in forms ==> IsCover(chosen, primes, minterms)
    requires Lists(listing, forms)
    ensures forall i :: 0 <= i < |listing| ==> Fits(listing[i], variables)
  {
    forall i | 0 <= i < |listing| ensures Fits(listing[i], variables) {
      assert Members(listing[i]) in forms;
      forall k | 0 <= k < |listing[i]| ensures |listing[i][k].values| == |variables| {
        assert listing[i][k] in Members(listing[i]);
      }
    }
  }

  /** The node of one listed cover is true on row j when j is a minterm,
      and false when j is neither a minterm nor a don't-care. */
  lemma ListedFormRepresents(form: seq<Mask>, node: Node, primes: set<Mask>, minterms: set<int>,
                             dontCares: set<int>, variables: seq<string>, j: int)
    requires forall m :: m in primes <==> IsPrime(m, |variables|, minterms, dontCares)
    requires IsCover(Members(form), primes, minterms)
    requires 0 <= j < Util.Pow2(|variables|)
    requires Value(node, ExpressionEvaluator.Assignment(variables, Util.Combination(|variables|, j)))
      <==> exists k :: 0 <= k < |form| && Matches(form[k].values, Util.Combination(|variables|, j))
    ensures j in minterms ==> Value(node, ExpressionEvaluator.Assignment(variables, Util.Combination(|variables|, j)))
    ensures j !in minterms && j !in dontCares ==>
      !Value(node, ExpressionEvaluator.Assignment(variables, Util.Combination(|variables|, j)))
  {
    var a := Util.Combination(|variables|, j);
    var chosen := Members(form);
    CoverRepresents(chosen, primes, minterms, dontCares, |variables|, j);
    if j in minterms {
      var p :| p in chosen && Matches(p.values, a);
      var k :| 0 <= k < |form| && form[k] == p;
    }
    if k :| 0 <= k < |form| && Matches(form[k].values, a) {
      assert form[k] in chosen;
    }
  }

  /** Every expression `getMinimalFormsAsExpressions()` returns for a
      minimizer built from valid arguments is true on each minterm and false
      on each row that is neither a minterm nor a don't-care. */
  lemma FormsRepresentFunction(minterms: set<Util.Int32>, dontCares: set<Util.Int32>, variables: seq<string>,
                               listing: seq<seq<Mask>>, j: int)
    requires |variables| > 0 && ExpressionEvaluator.Distinct(variables)
    requires InRange(minterms + dontCares, |variables|) && minterms * dontCares == {}
    requires NewMinimizer(Some(minterms), Some(dontCares), Some(variables)).Ok?
    requires NewMinimizer(Some(minterms), Some(dontCares), Some(variables)).value.minimalForms.Some?
    requires Lists(listing, NewMinimizer(Some(minterms), Some(dontCares), Some(variables)).value.minimalForms.value)
    requires 0 <= j < Util.Pow2(|variables|)
    ensures GetMinimalFormsAsExpressions(NewMinimizer(Some(minterms), Some(dontCares), Some(variables)).value, listing).Ok?
    ensures forall i ::
      0 <= i < |GetMinimalFormsAsExpressions(NewMinimizer(Some(minterms), Some(dontCares), Some(variables)).value, listing).value|
      ==>
      var node := GetMinimalFormsAsExpressions(NewMinimizer(Some(minterms), Some(dontCares), Some(variables)).value, listing).value[i];
      var env := ExpressionEvaluator.Assignment(variables, Util.Combination(|variables|, j));
      && (j in minterms ==> Value(node, env))
      && (j !in minterms && j !in dontCares ==> !Value(node, env))
  {
    var n := |variables|;
    var primes := PrimesExist(minterms, dontCares, n);
    NewMinimizerTheorem(minterms, dontCares, variables, primes);
    var mz := NewMinimizer(Some(minterms), Some(dontCares), Some(variables)).value;
    assert mz.variables == variables;
    ListingRepresents(mz.minimalForms.value, listing, primes, minterms, dontCares, variables, j);
    assert GetMinimalFormsAsExpressions(mz, listing) == FormsToNodes(listing, variables);
  }

  /** Every expression built from a listing of covers of the minterms by
      prime implicants represents the function on row j. */
  lemma ListingRepresents(forms: set<set<Mask>>, listing: seq<seq<Mask>>, primes: set<Mask>, minterms: set<int>,
                          dontCares: set<int>, variables: seq<string>, j: int)
    requires ExpressionEvaluator.Distinct(variables)
    requires forall m :: m in primes <==> IsPrime(m, |variables|, minterms, dontCares)
    requires forall chosen :: chosen in forms ==> IsCover(chosen, primes, minterms)
    requires Lists(listing, forms)
    requires 0 <= j < Util.Pow2(|variables|)
    ensures FormsToNodes(listing, variables).Ok?
    ensures forall i :: 0 <= i < |FormsToNodes(listing, variables).value| ==>
      var node := FormsToNodes(listing, variables).value[i];
      var env := ExpressionEvaluator.Assignment(variables, Util.Combination(|variables|, j));
      && (j in minterms ==> Value(node, env))
      && (j !in minterms && j !in dontCares ==> !Value(node, env))
  {
    var a := Util.Combination(|variables|, j);
    ListedFit(forms, listing, primes, minterms, dontCares, variables);
    FormsToNodesMeaning(listing, variables, a);
    var nodes := FormsToNodes(listing, variables).value;
    forall i | 0 <= i < |nodes|
      ensures j in minterms ==> Value(nodes[i], ExpressionEvaluator.Assignment(variables, a))
      ensures j !in minterms && j !in dontCares ==> !Value(nodes[i], ExpressionEvaluator.Assignment(variables, a))
    {
      assert Members(listing[i]) in forms;
      ListedFormRepresents(listing[i], nodes[i], primes, minterms, dontCares, variables, j);
    }
  }

}
