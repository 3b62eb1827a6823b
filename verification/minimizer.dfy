/** `Minimizer`: minimal sum-of-products forms by the Quine-McCluskey
    method, with Pyne-McCluskey (Petrick) selection of the minimal covers.

    The first column of the table buckets the masks of the minterms and
    don't-cares by their number of plain variables; every next column holds
    the merges of neighbouring buckets. Masks that take part in no merge and
    are not don't-cares are the prime implicants. The essential implicants
    are those that alone cover some minterm; the minterms they leave
    uncovered give the clauses of the p-function, whose expansion into a sum
    of products is filtered down to the products of least cardinality.

    The source's hash sets become Dafny sets: masks are compared by their
    pattern, and every mask in a column carries exactly the rows of its
    pattern, so a set of masks behaves like the set of their patterns. */
module Minimizer {
  import opened Wrappers
  import opened Nodes
  import opened Masks
  import Util
  import NodeAsExpressionPrinter

  /** Name given to the disjunction nodes of a minimal form. */
  const OR: string := "OR"
  /** Name given to the conjunction nodes of a minimal form. */
  const AND: string := "AND"

  /** One column of the table: bucket w holds the masks with w plain
      variables. */
  type Column = seq<set<Mask>>

  /** A minimizer after construction: `minimalForms` is missing when the
      list of variables was empty and minimization did not run. */
  datatype Minimizer = Minimizer(
    minterms: set<int>,
    dontCares: set<int>,
    variables: seq<string>,
    minimalForms: Option<set<set<Mask>>>)

  // ---------------------------------------------------------------------
  // Construction

  /** The constructor: argument checks, the overlap check, then
      minimization. An empty list of variables ends construction early
      without minimizing. */
  function NewMinimizer(mintermSet: Option<set<Util.Int32>>, dontCareSet: Option<set<Util.Int32>>,
                        variables: Option<seq<string>>): (r: Result<Minimizer>)
    ensures mintermSet.None? || variables.None? ==> r == Err(IllegalArgument)
    ensures mintermSet.Some? && variables.Some? && |variables.value| == 0 ==> r.Ok? && r.value.minimalForms.None?
    ensures mintermSet.Some? && variables.Some? && |variables.value| > 0 ==>
      (r == Err(IllegalArgument) <==>
        (|| dontCareSet.None?
         || mintermSet.value * dontCareSet.value != {}
         || exists i :: i in mintermSet.value + dontCareSet.value && !(0 <= i < Util.Pow2(|variables.value|))))
    ensures mintermSet.Some? && variables.Some? && |variables.value| > 0 && r.Ok? ==>
      r.value.minimalForms.Some? && r.value.variables == variables.value
  {
    if mintermSet.None? || variables.None? then Err(IllegalArgument)
    else if |variables.value| == 0 then Ok(Minimizer({}, {}, [], None))
    else if dontCareSet.None? then Err(IllegalArgument)
    else if mintermSet.value * dontCareSet.value != {} then Err(IllegalArgument)
    else
      var forms :- Minimize(mintermSet.value, dontCareSet.value, |variables.value|);
      Ok(Minimizer(mintermSet.value, dontCareSet.value, variables.value, Some(forms)))
  }

  /** `minimize()`: prime implicants, then the minimal covers. */
  function Minimize(minterms: set<int>, dontCares: set<int>, n: nat): (r: Result<set<set<Mask>>>)
    ensures r == Err(IllegalArgument) <==> exists i :: i in minterms + dontCares && !(0 <= i < Util.Pow2(n))
  {
    var first :- FirstColumn(minterms, dontCares, n);
    ChooseMinimalCover(FindPrimes(first, {}), minterms, n)
  }

  // ---------------------------------------------------------------------
  // Prime implicants

  /** The mask `new Mask(i, n, dontCare)` builds for row i. */
  function RowMask(i: nat, n: nat, dontCare: bool): Mask {
    Mask(Literal(Util.Combination(n, i)), {i}, dontCare)
  }

  /** `createFirstColumn()`: n + 1 buckets holding the masks of the minterms
      and then of the don't-cares; an index outside the truth table is
      rejected by the mask constructor. */
  function FirstColumn(minterms: set<int>, dontCares: set<int>, n: nat): (r: Result<Column>)
    ensures r.Ok? <==> forall i :: i in minterms + dontCares ==> 0 <= i < Util.Pow2(n)
    ensures r.Err? ==> r.error == IllegalArgument
    ensures r.Ok? ==> |r.value| == n + 1
  {
    if exists i :: i in minterms + dontCares && !(0 <= i < Util.Pow2(n)) then Err(IllegalArgument)
    else Ok(seq(n + 1, w =>
      (set i | i in minterms && 0 <= i && CountOfOnes(RowMask(i, n, false).values) == w :: RowMask(i, n, false))
      + (set i | i in dontCares && 0 <= i && CountOfOnes(RowMask(i, n, true).values) == w :: RowMask(i, n, true))))
  }

  /** `lowerMask.combineWith(greaterMask)` for two masks of one column. */
  function Merge(a: Mask, b: Mask): Option<Mask> {
    match CombineWith(a, Some(b))
    case Ok(merged) => merged
    case Err(_) => None
  }

  /** The next column: bucket i holds every merge of a mask of bucket i with
      a mask of bucket i + 1. */
  function NextColumn(column: Column): (r: Column)
    ensures |r| == if |column| == 0 then 0 else |column| - 1
  {
    if |column| == 0 then []
    else
      seq(|column| - 1, i requires 0 <= i < |column| - 1 =>
        set a, b | a in column[i] && b in column[i + 1] && Merge(a, b).Some? :: Merge(a, b).value)
  }

  /** Some merge happened while building the next column
      (`nextColumnModified`). */
  predicate Modified(column: Column) {
    exists i :: 0 <= i < |NextColumn(column)| && NextColumn(column)[i] != {}
  }

  /** The `combined` flag of mask m of bucket i once the column has been
      combined: it merged with a mask of the bucket above or below. */
  predicate Combined(column: Column, i: int, m: Mask)
    requires 0 <= i < |column|
  {
    || (i + 1 < |column| && exists b :: b in column[i + 1] && Merge(m, b).Some?)
    || (0 < i && exists a :: a in column[i - 1] && Merge(a, m).Some?)
  }

  /** `extractPossiblePrimaryImplicants`: the masks of the column that
      merged with nothing and are not don't-cares. */
  function Extract(column: Column): set<Mask> {
    set i, m | 0 <= i < |column| && m in column[i] && !Combined(column, i, m) && !m.dontCare :: m
  }

  /** `findPrimaryImplicants()` from the given column on, with the
      implicants found in the earlier columns. */
  function FindPrimes(column: Column, found: set<Mask>): (r: set<Mask>)
    ensures found <= r
    decreases |column|
  {
    if |column| == 0 then found
    else
      var primes := found + Extract(column);
      if !Modified(column) then primes else FindPrimes(NextColumn(column), primes)
  }

  // ---------------------------------------------------------------------
  // Minimal covers

  /** The prime implicants whose rows include row j (column j of the cover
      table). */
  function Coverers(primes: set<Mask>, j: int): set<Mask> {
    set p | p in primes && j in p.indexes
  }

  /** `selectImportantPrimaryImplicants`: the implicants that are the only
      cover of some minterm. */
  function Essentials(primes: set<Mask>, minterms: set<int>): set<Mask> {
    set j, p | j in minterms && p in primes && Coverers(primes, j) == {p} :: p
  }

  /** Row j is among the rows of some mask of `chosen`. */
  predicate Covered(chosen: set<Mask>, j: int) {
    exists c :: c in chosen && j in c.indexes
  }

  /** `buildPFunction` over the rows below k: one clause, the set of its
      coverers, per minterm the essentials leave uncovered. */
  function Clauses(primes: set<Mask>, minterms: set<int>, essentials: set<Mask>, k: nat): (r: seq<set<Mask>>)
    ensures |r| <= k
  {
    if k == 0 then []
    else
      Clauses(primes, minterms, essentials, k - 1)
      + (if k - 1 in minterms && !Covered(essentials, k - 1) then [Coverers(primes, k - 1)] else [])
  }

  /** The product of the clauses multiplied out (`findMinimalSet`'s loop):
      one pick from every clause, duplicates absorbed by the set union. */
  function Expand(clauses: seq<set<Mask>>): set<set<Mask>>
    requires |clauses| > 0
  {
    if |clauses| == 1 then set p | p in clauses[0] :: {p}
    else set s, p | s in Expand(clauses[..|clauses| - 1]) && p in clauses[|clauses| - 1] :: s + {p}
  }

  /** All masks of all products. */
  function Union(products: set<set<Mask>>): set<Mask> {
    set s, p | s in products && p in s :: p
  }

  lemma UnionBound(products: set<set<Mask>>, s: set<Mask>)
    requires s in products
    ensures |s| <= |Union(products)|
  {
    assert s <= Union(products);
    SubsetCardinality(s, Union(products));
  }

  /** A subset is no larger than its superset, and equally large only when
      the two are equal. */
  lemma SubsetCardinality<T>(s: set<T>, t: set<T>)
    requires s <= t
    ensures |s| <= |t|
    ensures |s| == |t| ==> s == t
  {
    assert t == s + (t - s);
    assert s * (t - s) == {};
  }

  /** The least cardinality of the products, scanned upward from k. */
  function SmallestFrom(products: set<set<Mask>>, k: nat, bound: nat): (r: nat)
    requires exists s :: s in products && k <= |s| <= bound
    requires forall s :: s in products ==> k <= |s|
    ensures (exists s :: s in products && |s| == r) && forall s :: s in products ==> r <= |s|
    decreases bound - k
  {
    if exists s :: s in products && |s| == k then k
    else SmallestFrom(products, k + 1, bound)
  }

  /** `min()` of the cardinalities of a non-empty set of products. */
  function MinCardinality(products: set<set<Mask>>): (r: nat)
    requires products != {}
    ensures (exists s :: s in products && |s| == r) && forall s :: s in products ==> r <= |s|
  {
    var s :| s in products;
    UnionBound(products, s);
    SmallestFrom(products, 0, |Union(products)|)
  }

  /** `calculateLowestCardinalitySets`: the products of least cardinality;
      `min()` of an empty stream fails. */
  function LowestCardinality(products: set<set<Mask>>): (r: Result<set<set<Mask>>>)
    ensures r.Err? <==> products == {}
    ensures r.Err? ==> r.error == NoSuchElement
    ensures r.Ok? ==> forall s :: s in r.value <==> s in products && forall t :: t in products ==> |s| <= |t|
  {
    if products == {} then Err(NoSuchElement)
    else
      var least := MinCardinality(products);
      Ok(set s | s in products && |s| == least)
  }

  /** `findMinimalSet`: the first clause is read before the loop, so an
      empty p-function fails. */
  function FindMinimalSet(clauses: seq<set<Mask>>): (r: Result<set<set<Mask>>>)
    ensures |clauses| == 0 ==> r == Err(IndexOutOfBounds)
  {
    if |clauses| == 0 then Err(IndexOutOfBounds)
    else LowestCardinality(Expand(clauses))
  }

  /** `chooseMinimalCover`: the essentials alone when they cover every
      minterm, otherwise the essentials completed by each least product of
      the p-function. */
  function ChooseMinimalCover(primes: set<Mask>, minterms: set<int>, n: nat): Result<set<set<Mask>>> {
    var essentials := Essentials(primes, minterms);
    if forall j :: j in minterms ==> Covered(essentials, j) then Ok({essentials})
    else
      var least :- FindMinimalSet(Clauses(primes, minterms, essentials, Util.Pow2(n)));
      Ok(set s | s in least :: essentials + s)
  }

  // ---------------------------------------------------------------------
  // The minimal forms as expressions

  /** `combineWithAnd(mask)`: the product of the mask's literals, a single
      literal left unwrapped. */
  function CombineWithAnd(mask: Mask, variables: seq<string>): (r: Result<Node>)
    ensures r.Err? <==> |mask.values| != |variables|
  {
    var children :- ToVariableNodes(mask, variables);
    if |children| == 1 then Ok(children[0]) else Ok(BinaryOperatorNode(AND, And, children))
  }

  /** The loop of `combineWithOr` over the masks of one form. */
  function Products(form: seq<Mask>, variables: seq<string>): (r: Result<seq<Node>>)
    ensures r.Ok? ==> |r.value| == |form|
  {
    if |form| == 0 then Ok([])
    else
      var first :- CombineWithAnd(form[0], variables);
      var rest :- Products(form[1..], variables);
      Ok([first] + rest)
  }

  /** `combineWithOr(minimalForm)`: the sum of the products, a single
      product left unwrapped. */
  function CombineWithOr(form: seq<Mask>, variables: seq<string>): Result<Node> {
    var children :- Products(form, variables);
    if |children| == 1 then Ok(children[0]) else Ok(BinaryOperatorNode(OR, Or, children))
  }

  /** The masks of a listed form. */
  function Members(form: seq<Mask>): set<Mask> {
    set m | m in form
  }

  /** `listing` enumerates the forms, each once, each mask of a form once:
      the iteration order of the source's list of hash sets. */
  predicate Lists(listing: seq<seq<Mask>>, forms: set<set<Mask>>) {
    && (forall i :: 0 <= i < |listing| ==> Members(listing[i]) in forms)
    && (forall f :: f in forms ==> exists i :: 0 <= i < |listing| && Members(listing[i]) == f)
    && (forall i, j :: 0 <= i < j < |listing| ==> Members(listing[i]) != Members(listing[j]))
    && (forall i :: 0 <= i < |listing| ==> forall k, l :: 0 <= k < l < |listing[i]| ==> listing[i][k] != listing[i][l])
  }

  /** The loop of `getMinimalFormsAsExpressions`: an empty form (the
      contradiction) gives the constant false and ends the list. */
  function FormsToNodes(listing: seq<seq<Mask>>, variables: seq<string>): (r: Result<seq<Node>>)
    ensures r.Ok? ==> |r.value| <= |listing|
  {
    if |listing| == 0 then Ok([])
    else if |listing[0]| == 0 then Ok([ConstantNode(false)])
    else
      var node :- CombineWithOr(listing[0], variables);
      var rest :- FormsToNodes(listing[1..], variables);
      Ok([node] + rest)
  }

  /** `getMinimalFormsAsExpressions()`, the forms visited in the order
      `listing` gives; a minimizer that never minimized refuses. */
  function GetMinimalFormsAsExpressions(minimizer: Minimizer, listing: seq<seq<Mask>>): (r: Result<seq<Node>>)
    requires minimizer.minimalForms.Some? ==> Lists(listing, minimizer.minimalForms.value)
    ensures minimizer.minimalForms.None? <==> r == Err(UnsupportedOperation)
  {
    if minimizer.minimalForms.None? then Err(UnsupportedOperation)
    else
      var nodes := FormsToNodes(listing, minimizer.variables);
      if nodes.Ok? then nodes else Err(IllegalArgument)
  }

  /** `getMinimalFormsAsString()`: each minimal form printed. */
  function GetMinimalFormsAsString(minimizer: Minimizer, listing: seq<seq<Mask>>): (r: Result<seq<string>>)
    requires minimizer.minimalForms.Some? ==> Lists(listing, minimizer.minimalForms.value)
  {
    var nodes :- GetMinimalFormsAsExpressions(minimizer, listing);
    Ok(seq(|nodes|, i requires 0 <= i < |nodes| => NodeAsExpressionPrinter.Print(nodes[i])))
  }
}
