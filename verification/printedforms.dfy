/** The minimal forms as text: every expression the minimizer builds is a
    sum of products of literals, which needs no brackets, so the text
    `getMinimalFormsAsString` prints for it is parsed back into the same
    expression (its operator names in the parser's lower case), and that
    expression still represents the minimized function. */
module PrintedForms {
  import opened Wrappers
  import opened Nodes
  import opened ReadBack
  import Lexer
  import Parser
  import Masks
  import Minimizer
  import Util
  import ExpressionEvaluator
  import MinimalForms
  import PrimeImplicants
  import Printer = NodeAsExpressionPrinter

  /** An operand that never needs brackets: a constant, a variable or a
      negation, with readable names. */
  predicate Atomic(e: Node) {
    Readable(e) && Unbracketed(e) && Parser.Precedence(e) == 4
  }

  /** Every variable of the list is a name the lexer reads back. */
  predicate Names(variables: seq<string>) {
    forall i :: 0 <= i < |variables| ==> VariableName(variables[i])
  }

  /** The operator names the minimizer gives its nodes, in upper case, are
      read as the operators. */
  lemma UpperKeywords()
    ensures Word(Masks.NOT, Lexer.NOT_TOKEN)
    ensures Word(Minimizer.AND, Lexer.AND_TOKEN)
    ensures Word(Minimizer.OR, Lexer.OR_TOKEN)
  {
    UpperKeyword(Masks.NOT, Lexer.NOT, Lexer.NOT_TOKEN);
    UpperKeyword(Minimizer.AND, Lexer.AND, Lexer.AND_TOKEN);
    UpperKeyword(Minimizer.OR, Lexer.OR, Lexer.OR_TOKEN);
  }

  lemma UpperKeyword(w: string, keyword: string, t: Lexer.Token)
    requires (w, keyword, t) in {(Masks.NOT, Lexer.NOT, Lexer.NOT_TOKEN),
                                 (Minimizer.AND, Lexer.AND, Lexer.AND_TOKEN),
                                 (Minimizer.OR, Lexer.OR, Lexer.OR_TOKEN)}
    ensures Word(w, t)
  {
    assert Lexer.EqualsIgnoreCase(w, keyword);
    Lexer.ClassifyOperators(w);
  }

  /** `toVariableNodes` yields literals: variables and their negations. */
  lemma {:induction false} LiteralsAtomic(values: seq<Masks.Trit>, variables: seq<string>, k: nat)
    requires k <= |values| == |variables| && Names(variables)
    ensures forall i :: 0 <= i < |Masks.Literals(values, variables, k)| ==> Atomic(Masks.Literals(values, variables, k)[i])
  {
    if k > 0 {
      LiteralsAtomic(values, variables, k - 1);
      var prev := Masks.Literals(values, variables, k - 1);
      var all := Masks.Literals(values, variables, k);
      if values[k - 1] == Masks.Absent {
        assert all == prev;
      } else {
        var x := variables[k - 1];
        var lit := if values[k - 1] == Masks.Neg then UnaryOperatorNode(Masks.NOT, Not, VariableNode(x)) else VariableNode(x);
        assert all == prev + [lit];
        LiteralAtomic(x);
        AppendAtomic(prev, lit);
      }
    }
  }

  /** A variable and its negation are atomic when the name reads back. */
  lemma LiteralAtomic(x: string)
    requires VariableName(x)
    ensures Atomic(VariableNode(x)) && Atomic(UnaryOperatorNode(Masks.NOT, Not, VariableNode(x)))
  {
    UpperKeywords();
  }

  lemma AppendAtomic(nodes: seq<Node>, node: Node)
    requires forall i :: 0 <= i < |nodes| ==> Atomic(nodes[i])
    requires Atomic(node)
    ensures forall i :: 0 <= i < |nodes + [node]| ==> Atomic((nodes + [node])[i])
  {
    var all := nodes + [node];
    assert forall i :: 0 <= i < |nodes| ==> all[i] == nodes[i];
    assert all[|nodes|] == node;
  }

  lemma VariableNodesAtomic(m: Masks.Mask, variables: seq<string>)
    requires Names(variables) && Masks.ToVariableNodes(m, variables).Ok?
    ensures forall i :: 0 <= i < |Masks.ToVariableNodes(m, variables).value| ==>
      Atomic(Masks.ToVariableNodes(m, variables).value[i])
  {
    LiteralsAtomic(m.values, variables, |variables|);
  }

  /** A product is an atom, or a conjunction of at least two atoms. */
  lemma ProductPrintable(m: Masks.Mask, variables: seq<string>)
    requires Names(variables) && Minimizer.CombineWithAnd(m, variables).Ok?
    ensures
      var product := Minimizer.CombineWithAnd(m, variables).value;
      Readable(product) && Unbracketed(product) && Parser.Precedence(product) >= 3
  {
    VariableNodesAtomic(m, variables);
    UpperKeywords();
  }

  lemma {:induction false} ProductsPrintable(form: seq<Masks.Mask>, variables: seq<string>)
    requires Names(variables) && Minimizer.Products(form, variables).Ok?
    ensures forall i :: 0 <= i < |Minimizer.Products(form, variables).value| ==>
      var product := Minimizer.Products(form, variables).value[i];
      Readable(product) && Unbracketed(product) && Parser.Precedence(product) >= 3
  {
    if |form| > 0 {
      ProductPrintable(form[0], variables);
      ProductsPrintable(form[1..], variables);
    }
  }

  /** A non-empty form is a product, or a disjunction of at least two
      products: it needs no brackets. */
  lemma SumPrintable(form: seq<Masks.Mask>, variables: seq<string>)
    requires Names(variables) && |form| > 0 && Minimizer.CombineWithOr(form, variables).Ok?
    ensures Readable(Minimizer.CombineWithOr(form, variables).value)
    ensures Unbracketed(Minimizer.CombineWithOr(form, variables).value)
  {
    ProductsPrintable(form, variables);
    UpperKeywords();
  }

  lemma {:induction false} FormsPrintable(listing: seq<seq<Masks.Mask>>, variables: seq<string>)
    requires Names(variables) && Minimizer.FormsToNodes(listing, variables).Ok?
    ensures forall i :: 0 <= i < |Minimizer.FormsToNodes(listing, variables).value| ==>
      Readable(Minimizer.FormsToNodes(listing, variables).value[i])
      && Unbracketed(Minimizer.FormsToNodes(listing, variables).value[i])
  {
    if |listing| > 0 && |listing[0]| > 0 {
      SumPrintable(listing[0], variables);
      FormsPrintable(listing[1..], variables);
    }
  }

  /** `getMinimalFormsAsString()` prints one text per minimal expression,
      and each text is parsed back into that expression, with the
      operators named in lower case. */
  lemma FormsTextParses(minimizer: Minimizer.Minimizer, listing: seq<seq<Masks.Mask>>)
    requires minimizer.minimalForms.Some? ==> Minimizer.Lists(listing, minimizer.minimalForms.value)
    requires Names(minimizer.variables)
    requires Minimizer.GetMinimalFormsAsExpressions(minimizer, listing).Ok?
    ensures
      var nodes := Minimizer.GetMinimalFormsAsExpressions(minimizer, listing).value;
      var texts := Minimizer.GetMinimalFormsAsString(minimizer, listing);
      && texts.Ok? && |texts.value| == |nodes|
      && forall i :: 0 <= i < |nodes| ==> Parse(texts.value[i]) == Ok(Normal(nodes[i]))
  {
    var nodes := Minimizer.GetMinimalFormsAsExpressions(minimizer, listing).value;
    FormsPrintable(listing, minimizer.variables);
    forall i | 0 <= i < |nodes|
      ensures Parse(Printer.Print(nodes[i])) == Ok(Normal(nodes[i]))
    {
      PrintParses(nodes[i]);
    }
  }

  /** The text parser's reading of a printed form. */
  function Parse(text: string): Result<Node> {
    Parser.Parse(Some(text))
  }

  /** End to end: for a minimizer built from valid arguments whose variable
      names the lexer reads back, every printed minimal form parses into an
      expression that is true on each minterm and false on each row that is
      neither a minterm nor a don't-care. */
  lemma FormsTextRepresentFunction(minterms: set<Util.Int32>, dontCares: set<Util.Int32>, variables: seq<string>,
                                   listing: seq<seq<Masks.Mask>>, j: int)
    requires |variables| > 0 && ExpressionEvaluator.Distinct(variables) && Names(variables)
    requires PrimeImplicants.InRange(minterms + dontCares, |variables|) && minterms * dontCares == {}
    requires Minimizer.NewMinimizer(Some(minterms), Some(dontCares), Some(variables)).Ok?
    requires Minimizer.NewMinimizer(Some(minterms), Some(dontCares), Some(variables)).value.minimalForms.Some?
    requires Minimizer.Lists(listing, Minimizer.NewMinimizer(Some(minterms), Some(dontCares), Some(variables)).value.minimalForms.value)
    requires 0 <= j < Util.Pow2(|variables|)
    ensures
      var minimizer := Minimizer.NewMinimizer(Some(minterms), Some(dontCares), Some(variables)).value;
      var texts := Minimizer.GetMinimalFormsAsString(minimizer, listing);
      var env := ExpressionEvaluator.Assignment(variables, Util.Combination(|variables|, j));
      && texts.Ok?
      && forall i :: 0 <= i < |texts.value| ==>
        && Parse(texts.value[i]).Ok?
        && (j in minterms ==> Value(Parse(texts.value[i]).value, env))
        && (j !in minterms && j !in dontCares ==> !Value(Parse(texts.value[i]).value, env))
  {
    var minimizer := Minimizer.NewMinimizer(Some(minterms), Some(dontCares), Some(variables)).value;
    var env := ExpressionEvaluator.Assignment(variables, Util.Combination(|variables|, j));
    MinimalForms.FormsRepresentFunction(minterms, dontCares, variables, listing, j);
    assert minimizer.variables == variables;
    FormsTextParses(minimizer, listing);
    var nodes := Minimizer.GetMinimalFormsAsExpressions(minimizer, listing).value;
    forall i | 0 <= i < |nodes|
      ensures Value(Normal(nodes[i]), env) == Value(nodes[i], env)
    {
      NormalValue(nodes[i], env);
    }
  }
}
