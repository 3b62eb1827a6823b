/** Reading printed text back: the words `NodeAsExpressionPrinter` writes,
    joined with single spaces, are read by the lexer as the tokens the
    parser's rendering of the tree predicts, so the parser returns the tree.

    The printer writes no brackets. Its text reads back as the tree only
    when no operand binds more loosely than its place in the grammar
    demands (`Unbracketed`), as in the minimizer's sums of products.
    `PrintLosesBrackets` shows a tree the parser itself returns whose
    printed text parses into a different function; `PrintBracketed`, the
    printer with the brackets put back, reads back as every tree it is
    given. */
module ReadBack {
  import opened Wrappers
  import opened Nodes
  import opened Lexer
  import opened Parser
  import Printer = NodeAsExpressionPrinter

  // ---------------------------------------------------------------------
  // Words the lexer reads as one token

  /** A run of identifier characters starting with a letter. */
  predicate IsWord(w: string) {
    |w| > 0 && IsLetter(w[0]) && forall k :: 0 <= k < |w| ==> IsIdentifierChar(w[k])
  }

  /** The word `w`, standing alone, is read as the token `t`. */
  predicate Word(w: string, t: Token) {
    IsWord(w) && Classify(w) == t
  }

  /** The text `w` standing alone is read as the token `t`: a word, or a
      bracket. */
  predicate Reads(w: string, t: Token) {
    || Word(w, t)
    || (w == "(" && t == OPEN_BRACKET_TOKEN)
    || (w == ")" && t == CLOSED_BRACKET_TOKEN)
  }

  /** Position by position, each text is read as its token. */
  predicate ReadsAll(words: seq<string>, ts: seq<Token>) {
    |words| == |ts| && forall k :: 0 <= k < |ts| ==> Reads(words[k], ts[k])
  }

  /** A name the lexer reads back as the variable of that very name. */
  predicate VariableName(name: string) {
    Word(name, Variable(name))
  }

  /** `w` sits in `data` at `i`, followed by a space or by the end. */
  predicate Standing(data: string, i: nat, w: string) {
    && i + |w| <= |data|
    && data[i..i + |w|] == w
    && (i + |w| == |data| || data[i + |w|] == ' ')
  }

  lemma {:induction false} EqualsIgnoreCaseReflexive(s: string)
    ensures EqualsIgnoreCase(s, s)
    decreases |s|
  {
    if |s| > 0 {
      EqualsIgnoreCaseReflexive(s[1..]);
    }
  }

  /** A variable name is a word in which no letter is lower case and which
      spells no keyword in any case. */
  lemma VariableNameMeaning(name: string)
    ensures VariableName(name) <==>
      && IsWord(name)
      && (forall k :: 0 <= k < |name| ==> !('a' <= name[k] <= 'z'))
      && !EqualsIgnoreCase(name, AND) && !EqualsIgnoreCase(name, OR)
      && !EqualsIgnoreCase(name, XOR) && !EqualsIgnoreCase(name, NOT)
      && !EqualsIgnoreCase(name, TRUE) && !EqualsIgnoreCase(name, FALSE)
  {
    ClassifyOthers(name);
    if IsWord(name) && (forall k :: 0 <= k < |name| ==> !('a' <= name[k] <= 'z')) {
      assert Upper(name) == name;
    }
    if VariableName(name) {
      forall k | 0 <= k < |name|
        ensures !('a' <= name[k] <= 'z')
      {
        assert Upper(name)[k] == name[k];
      }
    }
  }

  /** The keywords the printers write are read as their tokens. */
  lemma KeywordWords()
    ensures Word(TRUE, TRUE_TOKEN) && Word(FALSE, FALSE_TOKEN)
    ensures Word(AND, AND_TOKEN) && Word(OR, OR_TOKEN) && Word(XOR, XOR_TOKEN) && Word(NOT, NOT_TOKEN)
  {
    ConstantWord(TRUE, TRUE_TOKEN);
    ConstantWord(FALSE, FALSE_TOKEN);
    OperatorWord(AND, AND_TOKEN);
    OperatorWord(OR, OR_TOKEN);
    OperatorWord(XOR, XOR_TOKEN);
    OperatorWord(NOT, NOT_TOKEN);
  }

  lemma ConstantWord(w: string, t: Token)
    requires (w == TRUE && t == TRUE_TOKEN) || (w == FALSE && t == FALSE_TOKEN)
    ensures Word(w, t)
  {
    EqualsIgnoreCaseReflexive(w);
    ClassifyOthers(w);
  }

  lemma OperatorWord(w: string, t: Token)
    requires t.Operator? && w == t.name && w in {AND, OR, XOR, NOT}
    ensures Word(w, t)
  {
    EqualsIgnoreCaseReflexive(w);
    ClassifyOperators(w);
  }

  // ---------------------------------------------------------------------
  // The lexer reads joined words back

  /** The identifier run starting at i ends where the identifier
      characters do. */
  lemma {:induction false} IdentifierRun(data: string, i: nat, end: nat)
    requires i <= end <= |data|
    requires forall k :: i <= k < end ==> IsIdentifierChar(data[k])
    requires end == |data| || !IsIdentifierChar(data[end])
    ensures IdentifierEnd(data, i) == end
    decreases end - i
  {
    if i < end {
      IdentifierRun(data, i + 1, end);
    }
  }

  /** A text standing at i is extracted as the token it reads as. */
  lemma WordScans(data: string, i: nat, w: string, t: Token)
    requires Reads(w, t) && Standing(data, i, w)
    ensures ExtractNextToken(data, i) == Ok(Scan(t, i + |w|))
  {
    assert data[i] == w[0];
    if IsWord(w) {
      forall k | i <= k < i + |w|
        ensures IsIdentifierChar(data[k])
      {
        assert data[k] == w[k - i];
      }
      IdentifierRun(data, i, i + |w|);
    }
  }

  /** A separator in front of the rest changes nothing. */
  lemma SkipSeparator(data: string, j: nat)
    requires j < |data| && IsWhitespace(data[j])
    ensures TokensFrom(data, j) == TokensFrom(data, j + 1)
  {
    assert SkipWhitespaces(data, j) == SkipWhitespaces(data, j + 1);
  }

  /** A word between the text before it and a space or the end stands
      there. */
  lemma StandingIn(p: string, w: string, rest: string)
    requires rest == "" || rest[0] == ' '
    ensures Standing(p + w + rest, |p|, w)
  {
    assert (p + w + rest)[|p|..|p| + |w|] == w;
  }

  /** The token a standing text is read as comes first, and the tokens
      after it follow from past the space behind it. */
  lemma LexStep(data: string, i: nat, w: string, t: Token, next: nat)
    requires Reads(w, t) && Standing(data, i, w)
    requires next == if i + |w| == |data| then |data| else i + |w| + 1
    requires TokensFrom(data, next).Ok?
    ensures TokensFrom(data, i) == Ok([t] + TokensFrom(data, next).value)
  {
    WordScans(data, i, w, t);
    assert data[i] == w[0];
    ScanStep(data, i, Scan(t, i + |w|), next);
  }

  /** `TokensStep` for a token that starts right at i and is followed by
      a separator or the end. */
  lemma ScanStep(data: string, i: nat, scan: Scan, next: nat)
    requires i < |data| && !IsWhitespace(data[i])
    requires ExtractNextToken(data, i) == Ok(scan)
    requires next == if scan.next == |data| then |data| else scan.next + 1
    requires scan.next < |data| ==> data[scan.next] == ' '
    requires TokensFrom(data, next).Ok?
    ensures TokensFrom(data, i) == Ok([scan.token] + TokensFrom(data, next).value)
  {
    if scan.next < |data| {
      SkipSeparator(data, scan.next);
    }
    TokensStep(data, i, scan);
  }

  /** The lexer reads the words, joined with single spaces, as their
      tokens followed by the end of input, whatever text comes before. */
  lemma {:induction false} LexWords(p: string, words: seq<string>, ts: seq<Token>)
    requires ReadsAll(words, ts)
    ensures TokensFrom(p + Printer.Join(words), |p|) == Ok(ts + [EOF_TOKEN])
    decreases |ts|
  {
    var data := p + Printer.Join(words);
    if |ts| == 0 {
      assert data == p;
      assert ts + [EOF_TOKEN] == [EOF_TOKEN];
    } else if |ts| == 1 {
      assert Reads(words[0], ts[0]);
      assert data == p + words[0] + "";
      StandingIn(p, words[0], "");
      assert TokensFrom(data, |data|) == Ok([EOF_TOKEN]);
      LexStep(data, |p|, words[0], ts[0], |data|);
      assert ts + [EOF_TOKEN] == [ts[0]] + [EOF_TOKEN];
    } else {
      assert Reads(words[0], ts[0]);
      var q := p + words[0] + " ";
      var rest := Printer.Join(words[1..]);
      assert data == p + words[0] + (" " + rest);
      assert data == q + rest;
      assert ReadsAll(words[1..], ts[1..]) by {
        forall k | 0 <= k < |ts| - 1
          ensures Reads(words[1..][k], ts[1..][k])
        {
          assert Reads(words[k + 1], ts[k + 1]);
        }
      }
      LexWords(q, words[1..], ts[1..]);
      assert TokensFrom(data, |q|) == Ok(ts[1..] + [EOF_TOKEN]);
      StandingIn(p, words[0], " " + rest);
      LexStep(data, |p|, words[0], ts[0], |q|);
      Cons(ts, EOF_TOKEN);
    }
  }

  lemma Cons(ts: seq<Token>, last: Token)
    requires |ts| > 0
    ensures ts + [last] == [ts[0]] + (ts[1..] + [last])
  {
  }

  lemma ReadsAppend(w1: seq<string>, t1: seq<Token>, w2: seq<string>, t2: seq<Token>)
    requires ReadsAll(w1, t1) && ReadsAll(w2, t2)
    ensures ReadsAll(w1 + w2, t1 + t2)
  {
    forall k | 0 <= k < |t1 + t2|
      ensures Reads((w1 + w2)[k], (t1 + t2)[k])
    {
      if k >= |t1| {
        assert Reads(w2[k - |t1|], t2[k - |t1|]);
      }
    }
  }

  // ---------------------------------------------------------------------
  // Trees and the names in them

  /** Every name in the tree is read back as what the tree says it is:
      variables as themselves, each operator as its operator's keyword in
      some case; binary nodes have the operands the parser gives them. */
  predicate Readable(e: Node) {
    match e
    case ConstantNode(_) => true
    case VariableNode(name) => VariableName(name)
    case UnaryOperatorNode(name, _, child) => Word(name, NOT_TOKEN) && Readable(child)
    case BinaryOperatorNode(name, op, children) =>
      && |children| >= MINIMUM_LENGTH
      && Word(name, OperatorToken(op))
      && forall i :: 0 <= i < |children| ==> Readable(children[i])
  }

  /** No operand binds more loosely than its place demands: a negated
      operand is no binary node, and an operand of a binary node is no
      binary node of the same or a looser operator. */
  predicate Unbracketed(e: Node) {
    match e
    case ConstantNode(_) => true
    case VariableNode(_) => true
    case UnaryOperatorNode(_, _, child) => Precedence(child) == 4 && Unbracketed(child)
    case BinaryOperatorNode(_, op, children) =>
      forall i :: 0 <= i < |children| ==> Precedence(children[i]) > Strength(op) && Unbracketed(children[i])
  }

  /** The tree with every operator renamed as the parser names it. */
  function Normal(e: Node): (r: Node)
    ensures Precedence(r) == Precedence(e)
    decreases e, 1
  {
    match e
    case ConstantNode(_) => e
    case VariableNode(_) => e
    case UnaryOperatorNode(_, op, child) => UnaryOperatorNode(NOT, op, Normal(child))
    case BinaryOperatorNode(_, op, children) => BinaryOperatorNode(OperatorToken(op).name, op, NormalAll(children))
  }

  function NormalAll(children: seq<Node>): (r: seq<Node>)
    decreases children, 0
  {
    seq(|children|, i requires 0 <= i < |children| => Normal(children[i]))
  }

  /** Renaming makes a readable tree one the parser can return, leaves a
      tree the parser returned as it is, and never changes the meaning. */
  lemma {:induction false} NormalCanonical(e: Node)
    requires Readable(e)
    ensures Canonical(Normal(e))
    decreases e
  {
    match e
    case ConstantNode(_) =>
    case VariableNode(_) =>
    case UnaryOperatorNode(_, _, child) =>
      NormalCanonical(child);
    case BinaryOperatorNode(_, _, children) =>
      forall i | 0 <= i < |children|
        ensures Canonical(NormalAll(children)[i])
      {
        NormalCanonical(children[i]);
      }
  }

  lemma {:induction false} NormalKeepsCanonical(e: Node)
    requires Canonical(e)
    ensures Normal(e) == e
    decreases e
  {
    match e
    case ConstantNode(_) =>
    case VariableNode(_) =>
    case UnaryOperatorNode(_, _, child) =>
      NormalKeepsCanonical(child);
    case BinaryOperatorNode(_, _, children) =>
      forall i | 0 <= i < |children|
        ensures NormalAll(children)[i] == children[i]
      {
        NormalKeepsCanonical(children[i]);
      }
      assert NormalAll(children) == children;
  }

  lemma {:induction false} NormalValue(e: Node, env: map<string, bool>)
    ensures Value(Normal(e), env) == Value(e, env)
    decreases e
  {
    match e
    case ConstantNode(_) =>
    case VariableNode(_) =>
    case UnaryOperatorNode(_, _, child) =>
      NormalValue(child, env);
    case BinaryOperatorNode(_, _, children) =>
      forall i | 0 <= i < |children|
        ensures Value(NormalAll(children)[i], env) == Value(children[i], env)
      {
        NormalValue(children[i], env);
      }
      CountTrueNormal(children, env);
  }

  lemma {:induction false} CountTrueNormal(children: seq<Node>, env: map<string, bool>)
    requires forall i :: 0 <= i < |children| ==> Value(NormalAll(children)[i], env) == Value(children[i], env)
    ensures CountTrue(NormalAll(children), env) == CountTrue(children, env)
    decreases |children|
  {
    if |children| > 0 {
      var init := children[..|children| - 1];
      assert NormalAll(children)[..|children| - 1] == NormalAll(init);
      CountTrueNormal(init, env);
    }
  }

  // ---------------------------------------------------------------------
  // The printer with brackets

  /** The words of `e` where the grammar expects a level-`level`
      expression: bracketed when `e` binds more loosely than that. */
  function Written(e: Node, level: nat): seq<string>
    requires 1 <= level <= 4
    decreases e, 1
  {
    if Precedence(e) >= level then WrittenBare(e)
    else ["("] + WrittenBare(e) + [")"]
  }

  /** The words of `e` itself, as the printer visits it, with each operand
      written for its place. */
  function WrittenBare(e: Node): seq<string>
    decreases e, 0
  {
    match e
    case ConstantNode(v) => [if v then TRUE else FALSE]
    case VariableNode(name) => [name]
    case UnaryOperatorNode(name, _, child) => [name] + Written(child, 4)
    case BinaryOperatorNode(name, op, children) => WrittenJoined(children, op, name)
  }

  function WrittenJoined(children: seq<Node>, op: BinaryOperator, name: string): seq<string>
    decreases children
  {
    if |children| == 0 then []
    else if |children| == 1 then Written(children[0], Strength(op) + 1)
    else Written(children[0], Strength(op) + 1) + [name] + WrittenJoined(children[1..], op, name)
  }

  /** The printer with the brackets the grammar needs put back. */
  function PrintBracketed(e: Node): string {
    Printer.Join(Written(e, 1))
  }

  /** The bracketed words are read as the parser's rendering of the
      renamed tree. */
  lemma {:induction false} WrittenReads(e: Node, level: nat)
    requires 1 <= level <= 4 && Readable(e)
    ensures ReadsAll(Written(e, level), Rendered(Normal(e), level))
    decreases e, 1
  {
    WrittenBareReads(e);
    if Precedence(e) < level {
      ReadsAppend(["("], [OPEN_BRACKET_TOKEN], WrittenBare(e), Bare(Normal(e)));
      ReadsAppend(["("] + WrittenBare(e), [OPEN_BRACKET_TOKEN] + Bare(Normal(e)), [")"], [CLOSED_BRACKET_TOKEN]);
    }
  }

  lemma {:induction false} WrittenBareReads(e: Node)
    requires Readable(e)
    ensures ReadsAll(WrittenBare(e), Bare(Normal(e)))
    decreases e, 0
  {
    KeywordWords();
    match e
    case ConstantNode(v) =>
    case VariableNode(_) =>
    case UnaryOperatorNode(name, _, child) =>
      WrittenReads(child, 4);
      ReadsAppend([name], [NOT_TOKEN], Written(child, 4), Rendered(Normal(child), 4));
    case BinaryOperatorNode(name, op, children) =>
      WrittenJoinedReads(children, op, name);
  }

  lemma {:induction false} WrittenJoinedReads(children: seq<Node>, op: BinaryOperator, name: string)
    requires Word(name, OperatorToken(op))
    requires forall i :: 0 <= i < |children| ==> Readable(children[i])
    ensures ReadsAll(WrittenJoined(children, op, name), Joined(NormalAll(children), op))
    decreases children
  {
    var normal := NormalAll(children);
    if |children| == 1 {
      WrittenReads(children[0], Strength(op) + 1);
    } else if |children| > 1 {
      var level := Strength(op) + 1;
      assert normal[1..] == NormalAll(children[1..]);
      WrittenReads(children[0], level);
      WrittenJoinedReads(children[1..], op, name);
      ReadsAppend(Written(children[0], level), Rendered(normal[0], level), [name], [OperatorToken(op)]);
      ReadsAppend(Written(children[0], level) + [name], Rendered(normal[0], level) + [OperatorToken(op)],
        WrittenJoined(children[1..], op, name), Joined(normal[1..], op));
    }
  }

  /** The text of a tree read back: the lexer and the parser return the
      renamed tree. */
  lemma ReadsBack(e: Node, words: seq<string>)
    requires Readable(e) && ReadsAll(words, Rendered(Normal(e), 1))
    ensures Parse(Some(Printer.Join(words))) == Ok(Normal(e))
  {
    var text := Printer.Join(words);
    LexWords("", words, Rendered(Normal(e), 1));
    assert "" + text == text;
    NormalCanonical(e);
    ParseRendered(Normal(e));
  }

  /** Printed with its brackets, every readable tree is parsed back into
      itself up to the case of its operator names, and a tree the parser
      returned comes back unchanged. */
  lemma BracketedPrintParses(e: Node)
    requires Readable(e)
    ensures Parse(Some(PrintBracketed(e))) == Ok(Normal(e))
    ensures Canonical(e) ==> Parse(Some(PrintBracketed(e))) == Ok(e)
  {
    WrittenReads(e, 1);
    ReadsBack(e, Written(e, 1));
    if Canonical(e) {
      NormalKeepsCanonical(e);
    }
  }

  // ---------------------------------------------------------------------
  // The printer as written

  /** A tree that needs no brackets is written by the printer exactly as
      with brackets. */
  lemma {:induction false} UnbracketedTokens(e: Node)
    requires Unbracketed(e)
    ensures Printer.Tokens(e) == WrittenBare(e)
    decreases e, 1
  {
    match e
    case ConstantNode(_) =>
    case VariableNode(_) =>
    case UnaryOperatorNode(_, _, child) =>
      UnbracketedTokens(child);
    case BinaryOperatorNode(name, op, children) =>
      UnbracketedInterleave(children, op, name);
  }

  lemma {:induction false} UnbracketedInterleave(children: seq<Node>, op: BinaryOperator, name: string)
    requires forall i :: 0 <= i < |children| ==> Precedence(children[i]) > Strength(op) && Unbracketed(children[i])
    ensures Printer.Interleave(children, name) == WrittenJoined(children, op, name)
    decreases children, 0
  {
    if |children| > 0 {
      UnbracketedTokens(children[0]);
      if |children| > 1 {
        UnbracketedInterleave(children[1..], op, name);
      }
    }
  }

  /** The promise of the printer, for the trees it keeps: the text of a
      readable tree that needs no brackets is parsed back into the tree up
      to the case of its operator names, and into the tree itself when the
      parser returned it. */
  lemma PrintParses(e: Node)
    requires Readable(e) && Unbracketed(e)
    ensures Printer.Print(e) == PrintBracketed(e)
    ensures Parse(Some(Printer.Print(e))) == Ok(Normal(e))
    ensures Canonical(e) ==> Parse(Some(Printer.Print(e))) == Ok(e)
  {
    UnbracketedTokens(e);
    BracketedPrintParses(e);
  }

  /** `(A or B) and C`, as the parser returns it. */
  const Grouped: Node :=
    BinaryOperatorNode(AND, And, [BinaryOperatorNode(OR, Or, [VariableNode("A"), VariableNode("B")]), VariableNode("C")])

  /** `A or (B and C)`, as the parser returns it. */
  const Regrouped: Node :=
    BinaryOperatorNode(OR, Or, [VariableNode("A"), BinaryOperatorNode(AND, And, [VariableNode("B"), VariableNode("C")])])

  /** A single capital letter names a variable. */
  lemma LetterName(c: char)
    requires 'A' <= c <= 'Z'
    ensures VariableName([c])
  {
    VariableNameMeaning([c]);
  }

  lemma GroupingsReadable()
    ensures Readable(Grouped) && Canonical(Grouped) && !Unbracketed(Grouped)
    ensures Readable(Regrouped) && Canonical(Regrouped) && Unbracketed(Regrouped)
  {
    GroupedReadable();
    RegroupedReadable();
  }

  lemma GroupedReadable()
    ensures Readable(Grouped) && Canonical(Grouped) && !Unbracketed(Grouped)
  {
    KeywordWords();
    LettersReadable();
    PairReadable(VariableNode("A"), VariableNode("B"), Or);
    PairReadable(BinaryOperatorNode(OR, Or, [VariableNode("A"), VariableNode("B")]), VariableNode("C"), And);
    assert Precedence(Grouped.children[0]) == 1;
  }

  lemma RegroupedReadable()
    ensures Readable(Regrouped) && Canonical(Regrouped) && Unbracketed(Regrouped)
  {
    KeywordWords();
    LettersReadable();
    PairReadable(VariableNode("B"), VariableNode("C"), And);
    PairReadable(VariableNode("A"), BinaryOperatorNode(AND, And, [VariableNode("B"), VariableNode("C")]), Or);
    RegroupedUnbracketed();
  }


  lemma RegroupedUnbracketed()
    ensures Unbracketed(Regrouped)
  {
    var conjunction := BinaryOperatorNode(AND, And, [VariableNode("B"), VariableNode("C")]);
    assert Unbracketed(conjunction);
    assert Regrouped.children == [VariableNode("A"), conjunction];
    assert Precedence(conjunction) == 3;
  }

  lemma LettersReadable()
    ensures Readable(VariableNode("A")) && Readable(VariableNode("B")) && Readable(VariableNode("C"))
  {
    LetterName('A');
    LetterName('B');
    LetterName('C');
    assert "A" == ['A'] && "B" == ['B'] && "C" == ['C'];
  }

  /** A node of two readable operands, named as the parser names it, is
      readable and returned by the parser. */
  lemma PairReadable(x: Node, y: Node, op: BinaryOperator)
    requires Readable(x) && Readable(y) && Canonical(x) && Canonical(y)
    requires Word(OperatorToken(op).name, OperatorToken(op))
    ensures Readable(BinaryOperatorNode(OperatorToken(op).name, op, [x, y]))
    ensures Canonical(BinaryOperatorNode(OperatorToken(op).name, op, [x, y]))
  {
  }

  lemma GroupingsPrinted()
    ensures Printer.Print(Grouped) == "A or B and C" == Printer.Print(Regrouped)
  {
    var a, b, c := VariableNode("A"), VariableNode("B"), VariableNode("C");
    var disjunction, conjunction := BinaryOperatorNode(OR, Or, [a, b]), BinaryOperatorNode(AND, And, [b, c]);
    InterleavePair(a, b, OR);
    InterleavePair(b, c, AND);
    InterleavePair(disjunction, c, AND);
    InterleavePair(a, conjunction, OR);
    var words := ["A", "or", "B", "and", "C"];
    assert Printer.Tokens(Grouped) == words == Printer.Tokens(Regrouped);
    assert words[1..][1..][1..][1..] == ["C"];
    assert Printer.Join(words) == "A or B and C";
  }

  /** The printer writes a pair of operands around the operator's name. */
  lemma InterleavePair(x: Node, y: Node, name: string)
    ensures Printer.Interleave([x, y], name) == Printer.Tokens(x) + [name] + Printer.Tokens(y)
  {
    assert [x, y][1..] == [y];
  }

  lemma GroupingsDiffer(env: map<string, bool>)
    requires env == map["A" := true, "B" := false, "C" := false]
    ensures !Value(Grouped, env) && Value(Regrouped, env)
  {
    var a, b, c := VariableNode("A"), VariableNode("B"), VariableNode("C");
    var disjunction, conjunction := BinaryOperatorNode(OR, Or, [a, b]), BinaryOperatorNode(AND, And, [b, c]);
    CountPair(a, b, env);
    CountPair(b, c, env);
    CountPair(disjunction, c, env);
    CountPair(a, conjunction, env);
  }

  /** How many of two operands hold. */
  lemma CountPair(x: Node, y: Node, env: map<string, bool>)
    ensures CountTrue([x, y], env) == (if Value(x, env) then 1 else 0) + (if Value(y, env) then 1 else 0)
  {
    assert [x, y][..1] == [x] && [x][..0] == [];
    assert CountTrue([x], env) == (if Value(x, env) then 1 else 0);
  }

  /** The parser returns `(A or B) and C` from its bracketed text, yet the
      printer writes it `A or B and C`, which the parser reads as
      `A or (B and C)`: a different function, true where A holds and B and
      C do not. */
  lemma PrintLosesBrackets()
    ensures Parse(Some(PrintBracketed(Grouped))) == Ok(Grouped)
    ensures Printer.Print(Grouped) == "A or B and C"
    ensures Parse(Some(Printer.Print(Grouped))) == Ok(Regrouped)
    ensures Value(Grouped, map["A" := true, "B" := false, "C" := false])
      != Value(Regrouped, map["A" := true, "B" := false, "C" := false])
  {
    GroupingsReadable();
    GroupingsPrinted();
    GroupingsDiffer(map["A" := true, "B" := false, "C" := false]);
    BracketedPrintParses(Grouped);
    PrintParses(Regrouped);
  }
}
