/** `Parser`: recursive descent over the lexer's tokens.

    The grammar, from the loosest operator to the tightest:

      S  -> E1 EOF
      E1 -> E2 (or E2)*
      E2 -> E3 (xor E3)*
      E3 -> E4 (and E4)*
      E4 -> not E4 | E5
      E5 -> variable | constant | ( E1 )

    A level with one operand returns that operand; a level with several
    returns one n-ary operator node holding all of them. Levels 1 to 3 are
    `binaryNode` applied to the level's operator; level 4 is `e4`.

    Every function reads the tokens from position `pos` and reports the
    node with the position just after it. Every failure, of the lexer or
    of the parser, is a `ParserFailure`. */
module Parser {
  import opened Wrappers
  import opened Nodes
  import opened Lexer

  /** The fewest children `checkIsCorrectLength` lets a binary node have. */
  const MINIMUM_LENGTH: nat := 2

  /** A parsed subtree and the position of the first token after it. */
  datatype Parsed = Parsed(node: Node, next: nat)

  /** The operands gathered by the loop of `binaryNode`. */
  datatype Gathered = Gathered(children: seq<Node>, next: nat)

  /** `currentToken`: the token at `pos`; past the end, the end of input. */
  function Current(toks: seq<Token>, pos: nat): Token {
    if pos < |toks| then toks[pos] else EOF_TOKEN
  }

  /** The operator token of levels 1 (`e1`), 2 (`e2`) and 3 (`e3`). */
  function LevelToken(level: nat): (t: Token)
    requires 1 <= level <= 3
    ensures t.Operator?
  {
    if level == 1 then OR_TOKEN else if level == 2 then XOR_TOKEN else AND_TOKEN
  }

  /** The function the source hands to the node of each level. */
  function LevelOperator(level: nat): BinaryOperator
    requires 1 <= level <= 3
  {
    if level == 1 then Or else if level == 2 then Xor else And
  }

  /** `binaryNode(expectedOperator, methodToCall, operator)` for one of
      levels 1 to 3: one operand, and when the level's operator follows,
      the loop gathering the others. */
  function Binary(toks: seq<Token>, pos: nat, level: nat): (r: Result<Parsed>)
    requires 1 <= level <= 3 && pos <= |toks|
    ensures r.Ok? ==> pos < r.value.next <= |toks|
    ensures r.Err? ==> r.error == ParserFailure
    ensures r.Ok? ==> Canonical(r.value.node)
    decreases |toks| - pos, 2 * (4 - level) + 2
  {
    match Operand(toks, pos, level)
    case Err(e) => Err(e)
    case Ok(first) =>
      if Current(toks, first.next) != LevelToken(level) then Ok(first)
      else
        match Gather(toks, first.next, level, [first.node])
        case Err(e) => Err(e)
        case Ok(gathered) =>
          if |gathered.children| < MINIMUM_LENGTH then Err(ParserFailure)
          else
            var node := BinaryOperatorNode(LevelToken(level).name, LevelOperator(level), gathered.children);
            Ok(Parsed(node, gathered.next))
  }

  /** The `methodToCall` of a level: the next tighter level. */
  function Operand(toks: seq<Token>, pos: nat, level: nat): (r: Result<Parsed>)
    requires 1 <= level <= 3 && pos <= |toks|
    ensures r.Ok? ==> pos < r.value.next <= |toks|
    ensures r.Err? ==> r.error == ParserFailure
    ensures r.Ok? ==> Canonical(r.value.node)
    decreases |toks| - pos, 2 * (4 - level) + 1
  {
    if level == 3 then Unary(toks, pos) else Binary(toks, pos, level + 1)
  }

  /** The loop of `binaryNode`: while the current token is the level's
      operator, consume it and parse one more operand. */
  function Gather(toks: seq<Token>, pos: nat, level: nat, children: seq<Node>): (r: Result<Gathered>)
    requires 1 <= level <= 3 && pos <= |toks|
    requires forall i :: 0 <= i < |children| ==> Canonical(children[i])
    ensures r.Ok? ==> pos <= r.value.next <= |toks|
    ensures r.Ok? ==> |r.value.children| >= |children| && r.value.children[..|children|] == children
    ensures r.Ok? && Current(toks, pos) == LevelToken(level) ==> |r.value.children| > |children|
    ensures r.Ok? ==> Current(toks, r.value.next) != LevelToken(level)
    ensures r.Ok? ==> forall i :: 0 <= i < |r.value.children| ==> Canonical(r.value.children[i])
    ensures r.Err? ==> r.error == ParserFailure
    decreases |toks| - pos, 2 * (4 - level) + 2
  {
    if Current(toks, pos) == EOF_TOKEN || Current(toks, pos) != LevelToken(level) then
      Ok(Gathered(children, pos))
    else
      match Operand(toks, pos + 1, level)
      case Err(e) => Err(e)
      case Ok(child) => Gather(toks, child.next, level, children + [child.node])
  }

  /** `e4`: a negation applies to the level-4 expression after it. */
  function Unary(toks: seq<Token>, pos: nat): (r: Result<Parsed>)
    requires pos <= |toks|
    ensures r.Ok? ==> pos < r.value.next <= |toks|
    ensures r.Err? ==> r.error == ParserFailure
    ensures r.Ok? ==> Canonical(r.value.node)
    decreases |toks| - pos, 2
  {
    if Current(toks, pos) == NOT_TOKEN then
      match Unary(toks, pos + 1)
      case Err(e) => Err(e)
      case Ok(operand) => Ok(Parsed(UnaryOperatorNode(NOT_TOKEN.name, Not, operand.node), operand.next))
    else Primary(toks, pos)
  }

  /** `e5`: a variable, a constant, or a bracketed level-1 expression;
      any other token is refused. */
  function Primary(toks: seq<Token>, pos: nat): (r: Result<Parsed>)
    requires pos <= |toks|
    ensures r.Ok? ==> pos < r.value.next <= |toks|
    ensures r.Err? ==> r.error == ParserFailure
    ensures r.Ok? ==> Canonical(r.value.node)
    ensures !Current(toks, pos).Variable? && !Current(toks, pos).Constant? && Current(toks, pos) != OPEN_BRACKET_TOKEN ==> r.Err?
    decreases |toks| - pos, 1
  {
    match Current(toks, pos)
    case Variable(name) => Ok(Parsed(VariableNode(name), pos + 1))
    case Constant(value) => Ok(Parsed(ConstantNode(value), pos + 1))
    case OpenBracket =>
      (match Binary(toks, pos + 1, 1)
       case Err(e) => Err(e)
       case Ok(inner) =>
         if Current(toks, inner.next) != CLOSED_BRACKET_TOKEN then Err(ParserFailure)
         else Ok(Parsed(inner.node, inner.next + 1)))
    case _ => Err(ParserFailure)
  }

  /** `s`: a level-1 expression that must end at the end of input. */
  function Sentence(toks: seq<Token>): (r: Result<Node>)
    ensures r.Err? ==> r.error == ParserFailure
    ensures r.Ok? ==> Canonical(r.value)
  {
    match Binary(toks, 0, 1)
    case Err(e) => Err(e)
    case Ok(parsed) =>
      if Current(toks, parsed.next) != EOF_TOKEN then Err(ParserFailure) else Ok(parsed.node)
  }

  /** `new Parser(expression).getExpression()`: a missing text or a lexer
      error is reported as a parser error. */
  function Parse(expression: Option<string>): (r: Result<Node>)
    ensures r.Err? ==> r.error == ParserFailure
    ensures r.Ok? ==> Canonical(r.value) && NonEmptyOperands(r.value)
    ensures expression.None? ==> r.Err?
    ensures expression.Some? && TokensOf(expression.value).Err? ==> r.Err?
  {
    match Tokenize(expression)
    case Err(_) => Err(ParserFailure)
    case Ok(toks) =>
      var r := Sentence(toks);
      if r.Ok? then CanonicalOperands(r.value); r else r
  }

  // ---------------------------------------------------------------------
  // The trees the parser builds

  /** The shape of every tree the parser returns: negations are named
      `not`, every binary node has at least two operands and carries the
      name of its operator's token. */
  predicate Canonical(e: Node) {
    match e
    case ConstantNode(_) => true
    case VariableNode(_) => true
    case UnaryOperatorNode(name, op, child) => name == NOT && Canonical(child)
    case BinaryOperatorNode(name, op, children) =>
      && |children| >= MINIMUM_LENGTH
      && name == OperatorToken(op).name
      && forall i :: 0 <= i < |children| ==> Canonical(children[i])
  }

  /** The token of each binary operator. */
  function OperatorToken(op: BinaryOperator): Token {
    match op
    case Or => OR_TOKEN
    case Xor => XOR_TOKEN
    case And => AND_TOKEN
  }

  /** A canonical tree is one the evaluator can walk. */
  lemma {:induction false} CanonicalOperands(e: Node)
    requires Canonical(e)
    ensures NonEmptyOperands(e)
  {
    match e
    case ConstantNode(_) =>
    case VariableNode(_) =>
    case UnaryOperatorNode(_, _, child) =>
      CanonicalOperands(child);
    case BinaryOperatorNode(_, _, children) =>
      forall i | 0 <= i < |children|
        ensures NonEmptyOperands(children[i])
      {
        CanonicalOperands(children[i]);
      }
  }

  // ---------------------------------------------------------------------
  // Writing a tree as tokens the parser reads back

  /** Binding strength of each binary operator: `or` binds loosest. */
  function Strength(op: BinaryOperator): (r: nat)
    ensures 1 <= r <= 3 && LevelOperator(r) == op && LevelToken(r) == OperatorToken(op)
  {
    match op
    case Or => 1
    case Xor => 2
    case And => 3
  }

  /** The level of the grammar at which a tree is an operand without
      brackets: its operator's strength, 4 for everything else. */
  function Precedence(e: Node): (r: nat)
    ensures 1 <= r <= 4
  {
    if e.BinaryOperatorNode? then Strength(e.binaryOp) else 4
  }

  /** The tokens of `e` where the grammar expects a level-`level`
      expression: bracketed when `e` binds more loosely than that. */
  function Rendered(e: Node, level: nat): seq<Token>
    requires 1 <= level <= 4
    decreases e, 1
  {
    if Precedence(e) >= level then Bare(e)
    else [OPEN_BRACKET_TOKEN] + Bare(e) + [CLOSED_BRACKET_TOKEN]
  }

  /** The tokens of `e` itself: a negation before its operand, a binary
      operator between each pair of neighbouring operands. */
  function Bare(e: Node): seq<Token>
    decreases e, 0
  {
    match e
    case ConstantNode(value) => [Constant(value)]
    case VariableNode(name) => [Variable(name)]
    case UnaryOperatorNode(_, _, child) => [NOT_TOKEN] + Rendered(child, 4)
    case BinaryOperatorNode(_, op, children) => Joined(children, op)
  }

  /** The operands of `op`, each one level tighter, separated by `op`. */
  function Joined(children: seq<Node>, op: BinaryOperator): seq<Token>
    decreases children
  {
    if |children| == 0 then []
    else if |children| == 1 then Rendered(children[0], Strength(op) + 1)
    else Rendered(children[0], Strength(op) + 1) + [OperatorToken(op)] + Joined(children[1..], op)
  }

  /** The whole tree as the sentence the parser reads. */
  function Render(e: Node): seq<Token> {
    Rendered(e, 1) + [EOF_TOKEN]
  }

  // ---------------------------------------------------------------------
  // The parser reads the rendering back

  /** The parser of a level: `e1` to `e3`, or `e4` for level 4. */
  function Level(toks: seq<Token>, pos: nat, level: nat): (r: Result<Parsed>)
    requires 1 <= level <= 4 && pos <= |toks|
  {
    if level == 4 then Unary(toks, pos) else Binary(toks, pos, level)
  }

  /** The token `t` ends an expression of level `level`: it is no operator
      of that level or a looser one. */
  predicate Stops(level: nat, t: Token) {
    && (level <= 1 ==> t != OR_TOKEN)
    && (level <= 2 ==> t != XOR_TOKEN)
    && (level <= 3 ==> t != AND_TOKEN)
  }

  /** The tokens from `pos` on begin with `ts`. */
  predicate At(toks: seq<Token>, pos: nat, ts: seq<Token>) {
    pos + |ts| <= |toks| && forall k :: 0 <= k < |ts| ==> toks[pos + k] == ts[k]
  }

  lemma AtSplit(toks: seq<Token>, pos: nat, a: seq<Token>, b: seq<Token>)
    requires At(toks, pos, a + b)
    ensures At(toks, pos, a) && At(toks, pos + |a|, b)
  {
    forall k | 0 <= k < |a|
      ensures toks[pos + k] == a[k]
    {
      assert (a + b)[k] == a[k];
    }
    forall k | 0 <= k < |b|
      ensures toks[pos + |a| + k] == b[k]
    {
      assert (a + b)[|a| + k] == b[k];
    }
  }

  lemma AtFirst(toks: seq<Token>, pos: nat, ts: seq<Token>)
    requires At(toks, pos, ts) && |ts| > 0
    ensures Current(toks, pos) == ts[0]
  {
    assert toks[pos + 0] == ts[0];
  }

  /** An expression a tighter level reads is read the same by a looser
      level, when the token after it stops the looser level. */
  lemma {:induction false} Lift(toks: seq<Token>, pos: nat, low: nat, high: nat, parsed: Parsed)
    requires 1 <= low <= high <= 4 && pos <= |toks|
    requires Level(toks, pos, high) == Ok(parsed)
    requires Stops(low, Current(toks, parsed.next))
    ensures Level(toks, pos, low) == Ok(parsed)
    decreases high - low
  {
    if low < high {
      Lift(toks, pos, low + 1, high, parsed);
      assert Operand(toks, pos, low) == Ok(parsed);
    }
  }

  /** The rendering of a canonical tree at a level is read back as the
      tree, up to the token after it. */
  lemma {:induction false} RenderedParses(e: Node, level: nat, toks: seq<Token>, pos: nat)
    requires Canonical(e) && 1 <= level <= 4
    requires At(toks, pos, Rendered(e, level))
    requires Stops(level, Current(toks, pos + |Rendered(e, level)|))
    ensures Level(toks, pos, level) == Ok(Parsed(e, pos + |Rendered(e, level)|))
    decreases e, 3
  {
    var end := pos + |Rendered(e, level)|;
    if Precedence(e) >= level {
      BareParses(e, toks, pos);
      Lift(toks, pos, level, Precedence(e), Parsed(e, end));
    } else {
      var bare := Bare(e);
      AtSplit(toks, pos, [OPEN_BRACKET_TOKEN] + bare, [CLOSED_BRACKET_TOKEN]);
      AtSplit(toks, pos, [OPEN_BRACKET_TOKEN], bare);
      AtFirst(toks, pos, [OPEN_BRACKET_TOKEN]);
      AtFirst(toks, pos + 1 + |bare|, [CLOSED_BRACKET_TOKEN]);
      BareParses(e, toks, pos + 1);
      Lift(toks, pos + 1, 1, Precedence(e), Parsed(e, pos + 1 + |bare|));
      assert Primary(toks, pos) == Ok(Parsed(e, end));
      assert Level(toks, pos, 4) == Ok(Parsed(e, end));
      Lift(toks, pos, level, 4, Parsed(e, end));
    }
  }

  /** The bare tokens of a canonical tree are read back as the tree by the
      level of its own precedence. */
  lemma {:induction false} BareParses(e: Node, toks: seq<Token>, pos: nat)
    requires Canonical(e)
    requires At(toks, pos, Bare(e))
    requires Stops(Precedence(e), Current(toks, pos + |Bare(e)|))
    ensures Level(toks, pos, Precedence(e)) == Ok(Parsed(e, pos + |Bare(e)|))
    decreases e, 2
  {
    match e
    case ConstantNode(_) =>
      AtFirst(toks, pos, Bare(e));
      assert Unary(toks, pos) == Primary(toks, pos);
    case VariableNode(_) =>
      AtFirst(toks, pos, Bare(e));
      assert Unary(toks, pos) == Primary(toks, pos);
    case UnaryOperatorNode(_, _, _) =>
      NegationParses(e, toks, pos);
    case BinaryOperatorNode(_, _, _) =>
      OperationParses(e, toks, pos);
  }

  lemma {:induction false} NegationParses(e: Node, toks: seq<Token>, pos: nat)
    requires e.UnaryOperatorNode? && Canonical(e)
    requires At(toks, pos, Bare(e))
    ensures Unary(toks, pos) == Ok(Parsed(e, pos + |Bare(e)|))
    decreases e, 1
  {
    var child := e.child;
    assert Bare(e) == [NOT_TOKEN] + Rendered(child, 4);
    assert e == UnaryOperatorNode(NOT_TOKEN.name, Not, child);
    AtSplit(toks, pos, [NOT_TOKEN], Rendered(child, 4));
    AtFirst(toks, pos, [NOT_TOKEN]);
    RenderedParses(child, 4, toks, pos + 1);
  }

  lemma {:induction false} OperationParses(e: Node, toks: seq<Token>, pos: nat)
    requires e.BinaryOperatorNode? && Canonical(e)
    requires At(toks, pos, Bare(e))
    requires Stops(Strength(e.binaryOp), Current(toks, pos + |Bare(e)|))
    ensures Binary(toks, pos, Strength(e.binaryOp)) == Ok(Parsed(e, pos + |Bare(e)|))
    decreases e, 1
  {
    var op, children := e.binaryOp, e.children;
    var level := Strength(op);
    var next := pos + |Rendered(children[0], level + 1)|;
    OperationTokens(e, toks, pos);
    RenderedParses(children[0], level + 1, toks, pos);
    OperandIsLevel(toks, pos, level);
    assert children[..1] == [children[0]];
    GatherParses(children, 1, op, toks, next);
    BinaryOf(toks, pos, level, Parsed(children[0], next), Gathered(children, pos + |Bare(e)|));
  }

  /** `Operand` is the next tighter level. */
  lemma OperandIsLevel(toks: seq<Token>, pos: nat, level: nat)
    requires 1 <= level <= 3 && pos <= |toks|
    ensures Operand(toks, pos, level) == Level(toks, pos, level + 1)
  {
  }

  /** `binaryNode` when its level's operator follows the first operand. */
  lemma BinaryOf(toks: seq<Token>, pos: nat, level: nat, first: Parsed, gathered: Gathered)
    requires 1 <= level <= 3 && pos <= |toks|
    requires Operand(toks, pos, level) == Ok(first)
    requires Current(toks, first.next) == LevelToken(level)
    requires Gather(toks, first.next, level, [first.node]) == Ok(gathered)
    requires |gathered.children| >= MINIMUM_LENGTH
    ensures Binary(toks, pos, level)
      == Ok(Parsed(BinaryOperatorNode(LevelToken(level).name, LevelOperator(level), gathered.children), gathered.next))
  {
  }

  /** The tokens of a binary node: its first operand, then an operator. */
  lemma OperationTokens(e: Node, toks: seq<Token>, pos: nat)
    requires e.BinaryOperatorNode? && |e.children| >= 2
    requires At(toks, pos, Bare(e))
    ensures At(toks, pos, Rendered(e.children[0], Strength(e.binaryOp) + 1))
    ensures At(toks, pos + |Rendered(e.children[0], Strength(e.binaryOp) + 1)|, [OperatorToken(e.binaryOp)] + Joined(e.children[1..], e.binaryOp))
    ensures Current(toks, pos + |Rendered(e.children[0], Strength(e.binaryOp) + 1)|) == OperatorToken(e.binaryOp)
    ensures |Bare(e)| == |Rendered(e.children[0], Strength(e.binaryOp) + 1)| + 1 + |Joined(e.children[1..], e.binaryOp)|
  {
    var op, children := e.binaryOp, e.children;
    var first := Rendered(children[0], Strength(op) + 1);
    var others := [OperatorToken(op)] + Joined(children[1..], op);
    JoinedFrom(children, 0, op);
    assert children[0..] == children;
    AtSplit(toks, pos, first, others);
    AtFirst(toks, pos + |first|, others);
  }

  /** The loop of `binaryNode` gathers the remaining operands, each after
      one operator token. */
  lemma {:induction false} GatherParses(children: seq<Node>, i: nat, op: BinaryOperator, toks: seq<Token>, pos: nat)
    requires 1 <= i < |children|
    requires forall j :: 0 <= j < |children| ==> Canonical(children[j])
    requires At(toks, pos, [OperatorToken(op)] + Joined(children[i..], op))
    requires Stops(Strength(op), Current(toks, pos + 1 + |Joined(children[i..], op)|))
    ensures Gather(toks, pos, Strength(op), children[..i])
      == Ok(Gathered(children, pos + 1 + |Joined(children[i..], op)|))
    decreases children, |children| - i, 2
  {
    if i + 1 == |children| {
      GatherLast(children, i, op, toks, pos);
    } else {
      GatherMore(children, i, op, toks, pos);
    }
  }

  /** One turn of the loop of `binaryNode`: an operator, an operand of
      the next tighter level, and the turns after it. */
  lemma GatherThrough(toks: seq<Token>, pos: nat, level: nat, children: seq<Node>, child: Parsed, rest: Gathered)
    requires 1 <= level <= 3 && pos < |toks|
    requires forall i :: 0 <= i < |children| ==> Canonical(children[i])
    requires Current(toks, pos) == LevelToken(level)
    requires Level(toks, pos + 1, level + 1) == Ok(child)
    requires Gather(toks, child.next, level, children + [child.node]) == Ok(rest)
    ensures Gather(toks, pos, level, children) == Ok(rest)
  {
    assert Operand(toks, pos + 1, level) == Ok(child);
  }


  lemma {:induction false} GatherLast(children: seq<Node>, i: nat, op: BinaryOperator, toks: seq<Token>, pos: nat)
    requires 1 <= i && i + 1 == |children|
    requires forall j :: 0 <= j < |children| ==> Canonical(children[j])
    requires At(toks, pos, [OperatorToken(op)] + Joined(children[i..], op))
    requires Stops(Strength(op), Current(toks, pos + 1 + |Joined(children[i..], op)|))
    ensures Gather(toks, pos, Strength(op), children[..i])
      == Ok(Gathered(children, pos + 1 + |Joined(children[i..], op)|))
    decreases children, |children| - i, 1
  {
    var level := Strength(op);
    var first := Rendered(children[i], level + 1);
    assert Joined(children[i..], op) == first;
    AtSplit(toks, pos, [OperatorToken(op)], first);
    AtFirst(toks, pos, [OperatorToken(op)]);
    RenderedParses(children[i], level + 1, toks, pos + 1);
    assert children[..i] + [children[i]] == children;
    GatherThrough(toks, pos, level, children[..i], Parsed(children[i], pos + 1 + |first|), Gathered(children, pos + 1 + |first|));
  }

  lemma {:induction false} GatherMore(children: seq<Node>, i: nat, op: BinaryOperator, toks: seq<Token>, pos: nat)
    requires 1 <= i && i + 1 < |children|
    requires forall j :: 0 <= j < |children| ==> Canonical(children[j])
    requires At(toks, pos, [OperatorToken(op)] + Joined(children[i..], op))
    requires Stops(Strength(op), Current(toks, pos + 1 + |Joined(children[i..], op)|))
    ensures Gather(toks, pos, Strength(op), children[..i])
      == Ok(Gathered(children, pos + 1 + |Joined(children[i..], op)|))
    decreases children, |children| - i, 1
  {
    var level := Strength(op);
    var next := pos + 1 + |Rendered(children[i], level + 1)|;
    NextOperand(children, i, op, toks, pos);
    GatherParses(children, i + 1, op, toks, next);
    assert children[..i] + [children[i]] == children[..i + 1];
    GatherThrough(toks, pos, level, children[..i], Parsed(children[i], next),
                  Gathered(children, pos + 1 + |Joined(children[i..], op)|));
  }

  /** The operand after an operator that is not the last one is read by
      the next tighter level, up to the next operator. */
  lemma NextOperand(children: seq<Node>, i: nat, op: BinaryOperator, toks: seq<Token>, pos: nat)
    requires 1 <= i && i + 1 < |children|
    requires forall j :: 0 <= j < |children| ==> Canonical(children[j])
    requires At(toks, pos, [OperatorToken(op)] + Joined(children[i..], op))
    ensures Current(toks, pos) == OperatorToken(op) && pos < |toks|
    ensures Level(toks, pos + 1, Strength(op) + 1)
      == Ok(Parsed(children[i], pos + 1 + |Rendered(children[i], Strength(op) + 1)|))
    ensures At(toks, pos + 1 + |Rendered(children[i], Strength(op) + 1)|, [OperatorToken(op)] + Joined(children[i + 1..], op))
    ensures |Joined(children[i..], op)| == |Rendered(children[i], Strength(op) + 1)| + 1 + |Joined(children[i + 1..], op)|
    decreases children, |children| - i, 0
  {
    var level := Strength(op);
    var next := pos + 1 + |Rendered(children[i], level + 1)|;
    MoreTokens(children, i, op, toks, pos);
    AtFirst(toks, next, [OperatorToken(op)] + Joined(children[i + 1..], op));
    RenderedParses(children[i], level + 1, toks, pos + 1);
  }


  /** The tokens after an operator: one operand, then the operator again. */
  lemma MoreTokens(children: seq<Node>, i: nat, op: BinaryOperator, toks: seq<Token>, pos: nat)
    requires 1 <= i && i + 1 < |children|
    requires At(toks, pos, [OperatorToken(op)] + Joined(children[i..], op))
    ensures Current(toks, pos) == OperatorToken(op)
    ensures At(toks, pos + 1, Rendered(children[i], Strength(op) + 1))
    ensures At(toks, pos + 1 + |Rendered(children[i], Strength(op) + 1)|, [OperatorToken(op)] + Joined(children[i + 1..], op))
    ensures |Joined(children[i..], op)| == |Rendered(children[i], Strength(op) + 1)| + 1 + |Joined(children[i + 1..], op)|
  {
    var first := Rendered(children[i], Strength(op) + 1);
    var others := [OperatorToken(op)] + Joined(children[i + 1..], op);
    JoinedFrom(children, i, op);
    AtOperatorThen(toks, pos, OperatorToken(op), first, others);
  }

  /** The tokens of the children from the i-th on: the i-th child, the
      operator, and the rest. */
  lemma JoinedFrom(children: seq<Node>, i: nat, op: BinaryOperator)
    requires i + 1 < |children|
    ensures Joined(children[i..], op)
      == Rendered(children[i], Strength(op) + 1) + ([OperatorToken(op)] + Joined(children[i + 1..], op))
  {
    var first := Rendered(children[i], Strength(op) + 1);
    var rest := Joined(children[i + 1..], op);
    assert children[i..][1..] == children[i + 1..];
    assert Joined(children[i..], op) == first + [OperatorToken(op)] + rest;
    assert first + [OperatorToken(op)] + rest == first + ([OperatorToken(op)] + rest);
  }

  lemma AtOperatorThen(toks: seq<Token>, pos: nat, t: Token, a: seq<Token>, b: seq<Token>)
    requires At(toks, pos, [t] + (a + b))
    ensures Current(toks, pos) == t && At(toks, pos + 1, a) && At(toks, pos + 1 + |a|, b)
  {
    assert [t] + (a + b) == [t] + a + b;
    AtSplit(toks, pos, [t] + a, b);
    AtSplit(toks, pos, [t], a);
    AtFirst(toks, pos, [t]);
  }


  /** Every canonical tree, rendered with the brackets its shape needs, is
      parsed back into itself: together with `Sentence`'s own contract,
      the trees the parser can return are exactly the canonical ones. */
  lemma ParseRendered(e: Node)
    requires Canonical(e)
    ensures Sentence(Render(e)) == Ok(e)
  {
    var toks := Render(e);
    AtSplit(toks, 0, Rendered(e, 1), [EOF_TOKEN]);
    RenderedParses(e, 1, toks, 0);
  }

  // ---------------------------------------------------------------------
  // Examples

  /** An error at a tighter level is an error of every looser one. */
  lemma {:induction false} FailureRises(toks: seq<Token>, pos: nat, level: nat)
    requires 1 <= level <= 4 && pos <= |toks|
    requires Level(toks, pos, level).Err?
    ensures Binary(toks, pos, 1).Err?
    decreases level
  {
    if level > 1 {
      assert Operand(toks, pos, level - 1).Err?;
      FailureRises(toks, pos, level - 1);
    }
  }

  /** `and` binds tighter than `or`; a chain of one operator becomes one
      node. */
  lemma ExamplePrecedence()
    ensures Sentence([Variable("A"), OR_TOKEN, Variable("B"), AND_TOKEN, Variable("C"), EOF_TOKEN])
      == Ok(BinaryOperatorNode(OR, Or, [VariableNode("A"),
              BinaryOperatorNode(AND, And, [VariableNode("B"), VariableNode("C")])]))
  {
    var conjunction := BinaryOperatorNode(AND, And, [VariableNode("B"), VariableNode("C")]);
    var e := BinaryOperatorNode(OR, Or, [VariableNode("A"), conjunction]);
    assert Rendered(VariableNode("B"), 4) == [Variable("B")];
    assert Rendered(VariableNode("C"), 4) == [Variable("C")];
    assert [VariableNode("B"), VariableNode("C")][1..] == [VariableNode("C")];
    assert Joined([VariableNode("C")], And) == [Variable("C")];
    assert Rendered(conjunction, 2) == [Variable("B"), AND_TOKEN, Variable("C")];
    assert Rendered(VariableNode("A"), 2) == [Variable("A")];
    assert [VariableNode("A"), conjunction][1..] == [conjunction];
    assert Joined([conjunction], Or) == Rendered(conjunction, 2);
    assert Joined([VariableNode("A"), conjunction], Or) == [Variable("A"), OR_TOKEN] + Rendered(conjunction, 2);
    assert Rendered(e, 1) == [Variable("A"), OR_TOKEN, Variable("B"), AND_TOKEN, Variable("C")];
    assert Render(e) == [Variable("A"), OR_TOKEN, Variable("B"), AND_TOKEN, Variable("C"), EOF_TOKEN];
    ParseRendered(e);
  }

  lemma ExampleChain()
    ensures Sentence([Variable("A"), OR_TOKEN, Variable("B"), OR_TOKEN, Variable("C"), EOF_TOKEN])
      == Ok(BinaryOperatorNode(OR, Or, [VariableNode("A"), VariableNode("B"), VariableNode("C")]))
  {
    var operands := [VariableNode("A"), VariableNode("B"), VariableNode("C")];
    var chain := BinaryOperatorNode(OR, Or, operands);
    assert Rendered(VariableNode("A"), 2) == [Variable("A")];
    assert Rendered(VariableNode("B"), 2) == [Variable("B")];
    assert Rendered(VariableNode("C"), 2) == [Variable("C")];
    assert operands[1..][1..] == [VariableNode("C")];
    assert Joined([VariableNode("C")], Or) == [Variable("C")];
    assert Joined(operands[1..], Or) == [Variable("B"), OR_TOKEN, Variable("C")];
    assert Rendered(chain, 1) == [Variable("A"), OR_TOKEN, Variable("B"), OR_TOKEN, Variable("C")];
    assert Render(chain) == [Variable("A"), OR_TOKEN, Variable("B"), OR_TOKEN, Variable("C"), EOF_TOKEN];
    ParseRendered(chain);
  }

  /** Refused token sequences: nothing, two operands without an operator,
      an unclosed bracket, an operator without its right operand. */
  lemma ExampleErrors()
    ensures Sentence([EOF_TOKEN]).Err?
    ensures Sentence([Variable("A"), Variable("B"), EOF_TOKEN]).Err?
    ensures Sentence([OPEN_BRACKET_TOKEN, Variable("A"), EOF_TOKEN]).Err?
    ensures Sentence([Variable("A"), AND_TOKEN, EOF_TOKEN]).Err?
    ensures Parse(None).Err?
  {
    var empty := [EOF_TOKEN];
    assert Unary(empty, 0).Err?;
    FailureRises(empty, 0, 4);

    var two := [Variable("A"), Variable("B"), EOF_TOKEN];
    assert Unary(two, 0) == Ok(Parsed(VariableNode("A"), 1));
    Lift(two, 0, 1, 4, Parsed(VariableNode("A"), 1));

    var open := [OPEN_BRACKET_TOKEN, Variable("A"), EOF_TOKEN];
    assert Unary(open, 1) == Ok(Parsed(VariableNode("A"), 2));
    Lift(open, 1, 1, 4, Parsed(VariableNode("A"), 2));
    assert Unary(open, 0).Err?;
    FailureRises(open, 0, 4);

    var dangling := [Variable("A"), AND_TOKEN, EOF_TOKEN];
    assert Unary(dangling, 2).Err?;
    assert Gather(dangling, 1, 3, [VariableNode("A")]).Err?;
    assert Unary(dangling, 0) == Ok(Parsed(VariableNode("A"), 1));
    assert Operand(dangling, 0, 3) == Ok(Parsed(VariableNode("A"), 1));
    assert Current(dangling, 1) == LevelToken(3);
    assert Binary(dangling, 0, 3).Err?;
    FailureRises(dangling, 0, 3);
  }
}
