/** `NodeAsExpressionPrinter`: the visitor that writes a tree back out as
    text, one token per visited node, joined with single spaces.

    A constant is written `true` or `false`, a variable and an operator by
    their names; a unary operator precedes its operand and a binary
    operator stands between each pair of neighbouring children. No
    brackets are written. */
module NodeAsExpressionPrinter {
  import opened Nodes

  /** The strings handed to the `StringJoiner` while `e` is visited. */
  function Tokens(e: Node): seq<string>
    decreases e, 1
  {
    match e
    case ConstantNode(v) => [if v then "true" else "false"]
    case VariableNode(name) => [name]
    case UnaryOperatorNode(name, _, child) => [name] + Tokens(child)
    case BinaryOperatorNode(name, _, children) => Interleave(children, name)
  }

  /** The loop over the children of a binary node: each child's tokens,
      followed by the operator's name unless it is the last child. */
  function Interleave(children: seq<Node>, name: string): seq<string>
    decreases children, 0
  {
    if |children| == 0 then []
    else if |children| == 1 then Tokens(children[0])
    else Tokens(children[0]) + [name] + Interleave(children[1..], name)
  }

  /** `StringJoiner(" ")`: the strings separated by single spaces. */
  function Join(tokens: seq<string>): string {
    if |tokens| == 0 then ""
    else if |tokens| == 1 then tokens[0]
    else tokens[0] + " " + Join(tokens[1..])
  }

  /** `getExpressionAsString()` after visiting `e`. */
  function Print(e: Node): string {
    Join(Tokens(e))
  }

  // ---------------------------------------------------------------------
  // Reading the tokens back

  /** The pieces of s between spaces (empty pieces included). */
  function Split(s: string): (r: seq<string>)
    ensures |r| > 0
  {
    if |s| == 0 then [""]
    else
      var rest := Split(s[1..]);
      if s[0] == ' ' then [""] + rest
      else [[s[0]] + rest[0]] + rest[1..]
  }

  /** A token without spaces, followed by a space, splits off as one piece. */
  lemma {:induction false} SplitToken(t: string, rest: string)
    requires ' ' !in t
    ensures Split(t + rest) == [t + Split(rest)[0]] + Split(rest)[1..]
  {
    var pieces := Split(rest);
    if |t| == 0 {
      assert t + rest == rest;
      assert t + pieces[0] == pieces[0];
      assert [pieces[0]] + pieces[1..] == pieces;
    } else {
      assert (t + rest)[1..] == t[1..] + rest;
      assert (t + rest)[0] == t[0] && t[0] != ' ';
      SplitToken(t[1..], rest);
      var inner := Split(t[1..] + rest);
      assert inner[0] == t[1..] + pieces[0] && inner[1..] == pieces[1..];
      assert [t[0]] + (t[1..] + pieces[0]) == t + pieces[0];
    }
  }

  /** Splitting the joined tokens on spaces gives the tokens back, as long as
      there is at least one token and no token contains a space. */
  lemma {:induction false} SplitJoin(tokens: seq<string>)
    requires |tokens| > 0
    requires forall i :: 0 <= i < |tokens| ==> ' ' !in tokens[i]
    ensures Split(Join(tokens)) == tokens
  {
    if |tokens| == 1 {
      SplitToken(tokens[0], "");
      assert tokens[0] + "" == tokens[0];
    } else {
      var rest := Join(tokens[1..]);
      SplitJoin(tokens[1..]);
      assert Split(" " + rest) == [""] + Split(rest);
      SplitToken(tokens[0], " " + rest);
      assert tokens[0] + " " + rest == tokens[0] + (" " + rest);
      assert tokens[0] + "" == tokens[0];
    }
  }

  /** No variable or operator name in the tree contains a space. */
  predicate NoSpaces(e: Node)
    decreases e
  {
    match e
    case ConstantNode(_) => true
    case VariableNode(name) => ' ' !in name
    case UnaryOperatorNode(name, _, child) => ' ' !in name && NoSpaces(child)
    case BinaryOperatorNode(name, _, children) =>
      ' ' !in name && forall i :: 0 <= i < |children| ==> NoSpaces(children[i])
  }

  /** Every token of a tree whose names have no spaces is free of spaces;
      a tree whose binary nodes have operands yields at least one token. */
  lemma {:induction false} TokensShape(e: Node)
    requires NoSpaces(e)
    ensures forall i :: 0 <= i < |Tokens(e)| ==> ' ' !in Tokens(e)[i]
    ensures NonEmptyOperands(e) ==> |Tokens(e)| > 0
    decreases e, 1
  {
    match e
    case ConstantNode(v) =>
      assert ' ' !in "true" && ' ' !in "false";
    case VariableNode(_) =>
    case UnaryOperatorNode(_, _, child) =>
      TokensShape(child);
    case BinaryOperatorNode(name, _, children) =>
      InterleaveShape(children, name);
  }

  lemma {:induction false} InterleaveShape(children: seq<Node>, name: string)
    requires ' ' !in name
    requires forall i :: 0 <= i < |children| ==> NoSpaces(children[i])
    ensures forall i :: 0 <= i < |Interleave(children, name)| ==> ' ' !in Interleave(children, name)[i]
    ensures |children| > 0 && (forall i :: 0 <= i < |children| ==> NonEmptyOperands(children[i])) ==>
      |Interleave(children, name)| > 0
    decreases children, 0
  {
    if |children| > 0 {
      TokensShape(children[0]);
      if |children| > 1 {
        InterleaveShape(children[1..], name);
        assert forall i :: 0 <= i < |children[1..]| ==> children[1..][i] == children[i + 1];
      }
    }
  }

  /** The printed text splits on spaces into exactly the visited tokens. */
  lemma PrintSplitsIntoTokens(e: Node)
    requires NoSpaces(e) && NonEmptyOperands(e)
    ensures Split(Print(e)) == Tokens(e)
  {
    TokensShape(e);
    SplitJoin(Tokens(e));
  }

  /** A binary node with k children writes its children's tokens and k - 1
      more; `InterleaveChildAt` and `InterleaveNameAt` say where each goes. */
  lemma {:induction false} InterleaveLength(children: seq<Node>, name: string)
    ensures |Interleave(children, name)| ==
      TokenCount(children) + (if |children| == 0 then 0 else |children| - 1)
  {
    if |children| > 1 {
      InterleaveLength(children[1..], name);
    }
  }

  /** Total number of tokens the children write on their own. */
  function TokenCount(children: seq<Node>): nat {
    if |children| == 0 then 0 else |Tokens(children[0])| + TokenCount(children[1..])
  }

  /** Where child `i` of a binary node starts in the node's tokens: after the
      tokens of the children before it and one operator name per child. */
  function Offset(children: seq<Node>, i: nat): nat
    requires i <= |children|
  {
    TokenCount(children[..i]) + i
  }

  lemma OffsetStep(children: seq<Node>, i: nat)
    requires 1 <= i <= |children|
    ensures Offset(children, i) == |Tokens(children[0])| + 1 + Offset(children[1..], i - 1)
  {
    assert children[..i][1..] == children[1..][..i - 1];
  }

  /** Token `j` of child `i` sits at `Offset(children, i) + j` in what the
      node writes. */
  lemma {:induction false} InterleaveChildAt(children: seq<Node>, name: string, i: nat, j: nat)
    requires i < |children| && j < |Tokens(children[i])|
    ensures Offset(children, i) + j < |Interleave(children, name)|
    ensures Interleave(children, name)[Offset(children, i) + j] == Tokens(children[i])[j]
    decreases children
  {
    if i == 0 {
      assert children[..0] == [];
    } else {
      OffsetStep(children, i);
      InterleaveChildAt(children[1..], name, i - 1, j);
      assert children[1..][i - 1] == children[i];
    }
  }

  /** The operator name sits right before child `i + 1`, that is, between
      child `i` and child `i + 1`, for every `i < k - 1`. */
  lemma {:induction false} InterleaveNameAt(children: seq<Node>, name: string, i: nat)
    requires i + 1 < |children|
    ensures 0 < Offset(children, i + 1) <= |Interleave(children, name)|
    ensures Interleave(children, name)[Offset(children, i + 1) - 1] == name
    decreases children
  {
    OffsetStep(children, i + 1);
    if i == 0 {
      assert children[1..][..0] == [];
    } else {
      InterleaveNameAt(children[1..], name, i - 1);
    }
  }
}
