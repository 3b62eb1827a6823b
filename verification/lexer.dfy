/** `Lexer`: splits the text of a Boolean expression into tokens.

    A token is a variable (a letter followed by letters, digits and
    underscores, upper-cased), a constant (`true`, `false`, `1`, `0`), an
    operator (`and`, `or`, `xor`, `not` in any case, or `*`, `+`, `:+:`,
    `!`), a bracket, or the end of input. Spaces, tabs and line breaks
    separate tokens.

    As in the source, the lexer reads its text through an index: every
    extraction below starts at index `i` of `data` and reports the token
    together with the index just after it. */
module Lexer {
  import opened Wrappers

  /** `TokenType` together with the value a token of that type carries. */
  datatype Token =
    | Eof
    | Variable(name: string)
    | Constant(value: bool)
    | Operator(name: string)
    | OpenBracket
    | ClosedBracket

  const AND: string := "and"
  const NOT: string := "not"
  const OR: string := "or"
  const XOR: string := "xor"
  const XOR_SIGN: string := ":+:"
  const TRUE: string := "true"
  const TRUE_NUMERIC: string := "1"
  const FALSE: string := "false"
  const FALSE_NUMERIC: string := "0"

  const AND_TOKEN: Token := Operator(AND)
  const NOT_TOKEN: Token := Operator(NOT)
  const OR_TOKEN: Token := Operator(OR)
  const XOR_TOKEN: Token := Operator(XOR)
  const TRUE_TOKEN: Token := Constant(true)
  const FALSE_TOKEN: Token := Constant(false)
  const OPEN_BRACKET_TOKEN: Token := OpenBracket
  const CLOSED_BRACKET_TOKEN: Token := ClosedBracket
  const EOF_TOKEN: Token := Eof

  /** The lexer: the text, how far it has been read, and the last token
      handed out. */
  datatype Lexer = Lexer(data: string, currentIndex: nat, currentToken: Option<Token>)

  /** The constructor refuses a missing text. */
  function NewLexer(expression: Option<string>): (r: Result<Lexer>)
    ensures r.Err? <==> expression.None?
    ensures r.Err? ==> r.error == LexerFailure
    ensures r.Ok? ==> r.value == Lexer(expression.value, 0, None)
  {
    if expression.None? then Err(LexerFailure) else Ok(Lexer(expression.value, 0, None))
  }

  // ---------------------------------------------------------------------
  // Characters

  /** The four separators `isWhitespace` accepts. */
  predicate IsWhitespace(c: char) {
    c == '\n' || c == '\t' || c == '\r' || c == ' '
  }

  predicate IsLetter(c: char) {
    'a' <= c <= 'z' || 'A' <= c <= 'Z'
  }

  predicate IsDigit(c: char) {
    '0' <= c <= '9'
  }

  /** A character that continues an identifier. */
  predicate IsIdentifierChar(c: char) {
    IsLetter(c) || IsDigit(c) || c == '_'
  }

  /** The first characters of the operators. */
  predicate IsOperator(c: char) {
    c == '*' || c == '+' || c == '!' || c == XOR_SIGN[0]
  }

  function ToUpper(c: char): char {
    if 'a' <= c <= 'z' then (c as int - 32) as char else c
  }

  function ToLower(c: char): char {
    if 'A' <= c <= 'Z' then (c as int + 32) as char else c
  }

  function Upper(s: string): (r: string)
    ensures |r| == |s|
    ensures forall i :: 0 <= i < |s| ==> r[i] == ToUpper(s[i])
  {
    seq(|s|, i requires 0 <= i < |s| => ToUpper(s[i]))
  }

  /** Two characters agree, or agree once upper-cased, or once lower-cased. */
  predicate SameIgnoringCase(a: char, b: char) {
    a == b || ToUpper(a) == ToUpper(b) || ToLower(a) == ToLower(b)
  }

  /** `String.equalsIgnoreCase`: same length, and the characters agree
      position by position, ignoring case. */
  predicate EqualsIgnoreCase(a: string, b: string) {
    |a| == |b| && (|a| == 0 || (SameIgnoringCase(a[0], b[0]) && EqualsIgnoreCase(a[1..], b[1..])))
  }

  // ---------------------------------------------------------------------
  // Extraction

  /** `skipWhitespaces`: the index of the first non-separator at or after i. */
  function SkipWhitespaces(data: string, i: nat): (r: nat)
    requires i <= |data|
    ensures i <= r <= |data|
    ensures r == |data| || !IsWhitespace(data[r])
    decreases |data| - i
  {
    if i < |data| && IsWhitespace(data[i]) then SkipWhitespaces(data, i + 1) else i
  }

  /** The end of the run of identifier characters starting at i. */
  function IdentifierEnd(data: string, i: nat): (r: nat)
    requires i <= |data|
    ensures i <= r <= |data|
    ensures r == |data| || !IsIdentifierChar(data[r])
    decreases |data| - i
  {
    if i < |data| && IsIdentifierChar(data[i]) then IdentifierEnd(data, i + 1) else i
  }

  /** The end of the run of digits starting at i. */
  function DigitsEnd(data: string, i: nat): (r: nat)
    requires i <= |data|
    ensures i <= r <= |data|
    ensures r == |data| || !IsDigit(data[r])
    decreases |data| - i
  {
    if i < |data| && IsDigit(data[i]) then DigitsEnd(data, i + 1) else i
  }

  /** A token and the index just after it. */
  datatype Scan = Scan(token: Token, next: nat)

  /** The token of the first entry of the table whose word equals
      `word`, ignoring case. */
  function Lookup(word: string, table: seq<(string, Token)>): (r: Option<Token>)
    ensures r.Some? ==> exists k :: 0 <= k < |table| && EqualsIgnoreCase(word, table[k].0) && r.value == table[k].1
    ensures r.None? ==> forall k :: 0 <= k < |table| ==> !EqualsIgnoreCase(word, table[k].0)
    decreases |table|
  {
    if |table| == 0 then None
    else if EqualsIgnoreCase(word, table[0].0) then Some(table[0].1)
    else Lookup(word, table[1..])
  }

  /** The word operators, in the order `extractOperator` tries them. */
  const OPERATOR_WORDS: seq<(string, Token)> := [(AND, AND_TOKEN), (OR, OR_TOKEN), (XOR, XOR_TOKEN), (NOT, NOT_TOKEN)]

  /** `extractOperator`: the word operators, in any case. */
  function ExtractOperator(word: string): (r: Option<Token>)
    ensures r.Some? ==> r.value.Operator?
  {
    Lookup(word, OPERATOR_WORDS)
  }

  /** `extractBoolean`: `true` in any case or `1`, else `false` in any case
      or `0`. */
  function ExtractBoolean(word: string): (r: Option<Token>)
    ensures r.Some? ==> r.value.Constant?
  {
    if EqualsIgnoreCase(word, TRUE) || word == TRUE_NUMERIC then Some(TRUE_TOKEN)
    else if EqualsIgnoreCase(word, FALSE) || word == FALSE_NUMERIC then Some(FALSE_TOKEN)
    else None
  }

  /** How `extractIdentifier` reads a word: an operator, else a constant,
      else an upper-cased variable. */
  function Classify(word: string): Token {
    match ExtractOperator(word)
    case Some(t) => t
    case None =>
      match ExtractBoolean(word)
      case Some(t) => t
      case None => Variable(Upper(word))
  }

  /** `extractIdentifier`: the longest identifier, classified. */
  function ExtractIdentifier(data: string, i: nat): (r: Scan)
    requires i < |data| && IsLetter(data[i])
    ensures r.next == IdentifierEnd(data, i) && i < r.next
  {
    var end := IdentifierEnd(data, i);
    Scan(Classify(data[i..end]), end)
  }

  /** `extractConstant`: the digits must spell `1` or `0`. */
  function ExtractConstant(data: string, i: nat): (r: Result<Scan>)
    requires i < |data| && IsDigit(data[i])
    ensures r.Ok? <==> data[i..DigitsEnd(data, i)] in {TRUE_NUMERIC, FALSE_NUMERIC}
    ensures r.Err? ==> r.error == LexerFailure
    ensures r.Ok? ==> r.value == Scan(Constant(data[i] == '1'), i + 1)
  {
    var end := DigitsEnd(data, i);
    match ExtractBoolean(data[i..end])
    case None => Err(LexerFailure)
    case Some(t) => Ok(Scan(t, end))
  }

  /** `extractXor` as intended: the next three characters must be `:+:`;
      a text that ends sooner is refused like any other mismatch. */
  function ExtractXor(data: string, i: nat): (r: Result<Scan>)
    requires i <= |data|
    ensures r.Ok? <==> i + 3 <= |data| && data[i..i + 3] == XOR_SIGN
    ensures r.Err? ==> r.error == LexerFailure
    ensures r.Ok? ==> r.value == Scan(XOR_TOKEN, i + 3)
  {
    if |data| - i < |XOR_SIGN| then Err(LexerFailure)
    else if data[i..i + |XOR_SIGN|] == XOR_SIGN then Ok(Scan(XOR_TOKEN, i + |XOR_SIGN|))
    else Err(LexerFailure)
  }

  /** `extractXor` as written: `new String(data, currentIndex, 3)` fails
      with an index error, not a lexer error, when fewer than three
      characters remain. */
  function ExtractXorAsWritten(data: string, i: nat): (r: Result<Scan>)
    requires i <= |data|
    ensures |data| - i < 3 ==> r == Err(IndexOutOfBounds)
    ensures |data| - i >= 3 ==> r == ExtractXor(data, i)
  {
    if |data| - i < |XOR_SIGN| then Err(IndexOutOfBounds)
    else if data[i..i + |XOR_SIGN|] == XOR_SIGN then Ok(Scan(XOR_TOKEN, i + |XOR_SIGN|))
    else Err(LexerFailure)
  }

  /** The documented promise of `extractXor` (every failure is a lexer
      error) fails for a colon near the end of the text. */
  lemma XorAtEndEscapes()
    ensures ExtractXorAsWritten("a :+", 2) == Err(IndexOutOfBounds)
    ensures ExtractXor("a :+", 2) == Err(LexerFailure)
  {
  }

  /** `extractAndOrNot`: one of the signs `*`, `+`, `!`. */
  function ExtractAndOrNot(data: string, i: nat): (r: Result<Scan>)
    requires i < |data|
    ensures r.Ok? <==> data[i] in {'*', '+', '!'}
    ensures r.Err? ==> r.error == LexerFailure
    ensures r.Ok? ==> r.value.next == i + 1
    ensures r.Ok? ==> r.value.token == (if data[i] == '*' then AND_TOKEN else if data[i] == '+' then OR_TOKEN else NOT_TOKEN)
  {
    match data[i]
    case '*' => Ok(Scan(AND_TOKEN, i + 1))
    case '+' => Ok(Scan(OR_TOKEN, i + 1))
    case '!' => Ok(Scan(NOT_TOKEN, i + 1))
    case _ => Err(LexerFailure)
  }

  /** `extractBrackets`: one bracket. */
  function ExtractBrackets(data: string, i: nat): (r: Scan)
    requires i < |data|
    ensures r.next == i + 1
    ensures r.token == if data[i] == '(' then OPEN_BRACKET_TOKEN else CLOSED_BRACKET_TOKEN
  {
    Scan(if data[i] == '(' then OPEN_BRACKET_TOKEN else CLOSED_BRACKET_TOKEN, i + 1)
  }

  /** `extractNextToken`: the character at i picks the extraction; any
      other character is refused. */
  function ExtractNextToken(data: string, i: nat): (r: Result<Scan>)
    requires i < |data|
    ensures r.Ok? ==> i < r.value.next <= |data|
    ensures r.Ok? ==> r.value.token != Eof
    ensures r.Err? ==> r.error == LexerFailure
    ensures !IsLetter(data[i]) && !IsDigit(data[i]) && !IsOperator(data[i]) && data[i] != '(' && data[i] != ')' ==> r.Err?
  {
    var c := data[i];
    if IsLetter(c) then Ok(ExtractIdentifier(data, i))
    else if IsDigit(c) then ExtractConstant(data, i)
    else if IsOperator(c) then
      if c == XOR_SIGN[0] then ExtractXor(data, i) else ExtractAndOrNot(data, i)
    else if c == '(' || c == ')' then Ok(ExtractBrackets(data, i))
    else Err(LexerFailure)
  }

  // ---------------------------------------------------------------------
  // The lexer

  /** `nextToken()`: after the end of input has been handed out, no more
      tokens; otherwise skip separators and extract one token. */
  function NextToken(lexer: Lexer): (r: Result<Lexer>)
    requires lexer.currentIndex <= |lexer.data|
    ensures lexer.currentToken == Some(EOF_TOKEN) ==> r == Err(LexerFailure)
    ensures r.Err? ==> r.error == LexerFailure
    ensures r.Ok? ==> r.value.data == lexer.data && r.value.currentToken.Some?
    ensures r.Ok? ==> lexer.currentIndex <= r.value.currentIndex <= |lexer.data|
    ensures r.Ok? && r.value.currentToken != Some(EOF_TOKEN) ==> lexer.currentIndex < r.value.currentIndex
  {
    if lexer.currentToken == Some(EOF_TOKEN) then Err(LexerFailure)
    else
      var data := lexer.data;
      var start := SkipWhitespaces(data, lexer.currentIndex);
      if start == |data| then Ok(Lexer(data, start, Some(EOF_TOKEN)))
      else
        match ExtractNextToken(data, start)
        case Err(e) => Err(e)
        case Ok(scan) => Ok(Lexer(data, scan.next, Some(scan.token)))
  }

  /** Every token the text yields from index i on, the end of input last. */
  function TokensFrom(data: string, i: nat): (r: Result<seq<Token>>)
    requires i <= |data|
    ensures r.Err? ==> r.error == LexerFailure
    ensures r.Ok? ==> |r.value| > 0 && r.value[|r.value| - 1] == Eof
    decreases |data| - i
  {
    var start := SkipWhitespaces(data, i);
    if start == |data| then Ok([EOF_TOKEN])
    else
      match ExtractNextToken(data, start)
      case Err(e) => Err(e)
      case Ok(scan) =>
        match TokensFrom(data, scan.next)
        case Err(e) => Err(e)
        case Ok(rest) => Ok([scan.token] + rest)
  }

  /** The tokens of the whole text. */
  function TokensOf(s: string): (r: Result<seq<Token>>)
    ensures r.Err? ==> r.error == LexerFailure
    ensures r.Ok? ==> |r.value| > 0 && r.value[|r.value| - 1] == Eof
  {
    TokensFrom(s, 0)
  }

  /** The tokens a fresh lexer hands out for the expression. */
  function Tokenize(expression: Option<string>): (r: Result<seq<Token>>)
    ensures r.Err? ==> r.error == LexerFailure
    ensures expression.None? ==> r.Err?
    ensures expression.Some? ==> r == TokensOf(expression.value)
  {
    var lexer :- NewLexer(expression);
    TokensFrom(lexer.data, lexer.currentIndex)
  }

  /** One step of the sequence: the token extracted after the separators,
      then the tokens after it. */
  lemma TokensStep(data: string, i: nat, scan: Scan)
    requires i <= |data| && SkipWhitespaces(data, i) < |data|
    requires ExtractNextToken(data, SkipWhitespaces(data, i)) == Ok(scan)
    requires TokensFrom(data, scan.next).Ok?
    ensures TokensFrom(data, i) == Ok([scan.token] + TokensFrom(data, scan.next).value)
  {
  }

  /** The end of input comes only last. */
  lemma {:induction false} EofOnlyLast(data: string, i: nat)
    requires i <= |data| && TokensFrom(data, i).Ok?
    ensures forall k :: 0 <= k < |TokensFrom(data, i).value| - 1 ==> TokensFrom(data, i).value[k] != Eof
    decreases |data| - i
  {
    var start := SkipWhitespaces(data, i);
    if start < |data| {
      var scan := ExtractNextToken(data, start).value;
      EofOnlyLast(data, scan.next);
    }
  }

  /** One call of `nextToken()` hands out the first of the tokens still to
      come and leaves the others to come; an error from the call is an
      error of the whole sequence. */
  lemma NextTokenFollowsTokens(lexer: Lexer)
    requires lexer.currentIndex <= |lexer.data| && lexer.currentToken != Some(EOF_TOKEN)
    ensures NextToken(lexer).Err? ==> TokensFrom(lexer.data, lexer.currentIndex).Err?
    ensures TokensFrom(lexer.data, lexer.currentIndex).Ok? ==>
      && NextToken(lexer).Ok?
      && NextToken(lexer).value.currentToken == Some(TokensFrom(lexer.data, lexer.currentIndex).value[0])
      && (NextToken(lexer).value.currentToken != Some(EOF_TOKEN) ==>
          TokensFrom(lexer.data, NextToken(lexer).value.currentIndex)
          == Ok(TokensFrom(lexer.data, lexer.currentIndex).value[1..]))
  {
  }

  /** Two words equal ignoring case have equal lengths and agree at the
      front. */
  lemma Initial(word: string, keyword: string)
    requires EqualsIgnoreCase(word, keyword) && |keyword| > 0
    ensures |word| == |keyword| && SameIgnoringCase(word[0], keyword[0])
  {
  }

  /** `extractOperator` as the chain of comparisons the source writes. */
  lemma OperatorChain(word: string)
    ensures ExtractOperator(word) ==
      if EqualsIgnoreCase(word, AND) then Some(AND_TOKEN)
      else if EqualsIgnoreCase(word, OR) then Some(OR_TOKEN)
      else if EqualsIgnoreCase(word, XOR) then Some(XOR_TOKEN)
      else if EqualsIgnoreCase(word, NOT) then Some(NOT_TOKEN)
      else None
  {
    var last: seq<(string, Token)> := [(NOT, NOT_TOKEN)];
    assert last[1..] == [];
    var last2 := [(XOR, XOR_TOKEN)] + last;
    assert last2[1..] == last;
    var last3 := [(OR, OR_TOKEN)] + last2;
    assert last3[1..] == last2;
    assert OPERATOR_WORDS[1..] == last3;
    assert Lookup(word, last) == if EqualsIgnoreCase(word, NOT) then Some(NOT_TOKEN) else None;
    assert Lookup(word, last2) == if EqualsIgnoreCase(word, XOR) then Some(XOR_TOKEN) else Lookup(word, last);
    assert Lookup(word, last3) == if EqualsIgnoreCase(word, OR) then Some(OR_TOKEN) else Lookup(word, last2);
  }

  /** Each keyword that holds of a word, with its front letter. */
  lemma Keywords(word: string)
    ensures EqualsIgnoreCase(word, AND) ==> |word| == 3 && SameIgnoringCase(word[0], 'a')
    ensures EqualsIgnoreCase(word, OR) ==> |word| == 2 && SameIgnoringCase(word[0], 'o')
    ensures EqualsIgnoreCase(word, XOR) ==> |word| == 3 && SameIgnoringCase(word[0], 'x')
    ensures EqualsIgnoreCase(word, NOT) ==> |word| == 3 && SameIgnoringCase(word[0], 'n')
    ensures EqualsIgnoreCase(word, TRUE) ==> |word| == 4 && SameIgnoringCase(word[0], 't')
    ensures EqualsIgnoreCase(word, FALSE) ==> |word| == 5 && SameIgnoringCase(word[0], 'f')
  {
    if EqualsIgnoreCase(word, AND) { Initial(word, AND); }
    if EqualsIgnoreCase(word, OR) { Initial(word, OR); }
    if EqualsIgnoreCase(word, XOR) { Initial(word, XOR); }
    if EqualsIgnoreCase(word, NOT) { Initial(word, NOT); }
    if EqualsIgnoreCase(word, TRUE) { Initial(word, TRUE); }
    if EqualsIgnoreCase(word, FALSE) { Initial(word, FALSE); }
  }

  /** The word operators are recognised in any case, and only they. */
  lemma ClassifyOperators(word: string)
    ensures Classify(word) == AND_TOKEN <==> EqualsIgnoreCase(word, AND)
    ensures Classify(word) == OR_TOKEN <==> EqualsIgnoreCase(word, OR)
    ensures Classify(word) == XOR_TOKEN <==> EqualsIgnoreCase(word, XOR)
    ensures Classify(word) == NOT_TOKEN <==> EqualsIgnoreCase(word, NOT)
  {
    OperatorChain(word);
    Keywords(word);
  }

  /** Any other word is a constant when it spells one, else a variable
      named by the word in upper case. */
  lemma ClassifyOthers(word: string)
    ensures Classify(word) == TRUE_TOKEN <==> EqualsIgnoreCase(word, TRUE) || word == TRUE_NUMERIC
    ensures Classify(word) == FALSE_TOKEN <==> EqualsIgnoreCase(word, FALSE) || word == FALSE_NUMERIC
    ensures Classify(word).Variable? <==>
      && !EqualsIgnoreCase(word, AND) && !EqualsIgnoreCase(word, OR)
      && !EqualsIgnoreCase(word, XOR) && !EqualsIgnoreCase(word, NOT)
      && !EqualsIgnoreCase(word, TRUE) && word != TRUE_NUMERIC
      && !EqualsIgnoreCase(word, FALSE) && word != FALSE_NUMERIC
    ensures Classify(word).Variable? ==> Classify(word).name == Upper(word)
  {
    OperatorChain(word);
    Keywords(word);
  }

  // ---------------------------------------------------------------------
  // Examples

  /** Mixed case is read as the keyword. */
  lemma ExampleMixedCase()
    ensures TokensOf("FaLse") == Ok([FALSE_TOKEN, EOF_TOKEN])
  {
    var text := "FaLse";
    assert SkipWhitespaces(text, 0) == 0;
    assert IdentifierEnd(text, 0) == 5 && text[0..5] == text;
    ClassifyOthers(text);
    assert TokensFrom(text, 5) == Ok([EOF_TOKEN]);
    TokensStep(text, 0, Scan(FALSE_TOKEN, 5));
    assert [FALSE_TOKEN] + [EOF_TOKEN] == [FALSE_TOKEN, EOF_TOKEN];
  }

  /** Variables are upper-cased, operators read in any case. */
  lemma ExampleVariables()
    ensures TokensOf("A aNd b") == Ok([Variable("A"), AND_TOKEN, Variable("B"), EOF_TOKEN])
  {
    var text := "A aNd b";
    ExampleVariablesAfterA();
    assert IdentifierEnd(text, 0) == 1 && text[0..1] == "A";
    ClassifyOthers("A");
    assert Upper("A") == "A";
    assert SkipWhitespaces(text, 0) == 0;
    TokensStep(text, 0, Scan(Variable("A"), 1));
    assert [Variable("A")] + [AND_TOKEN, Variable("B"), EOF_TOKEN]
      == [Variable("A"), AND_TOKEN, Variable("B"), EOF_TOKEN];
  }

  lemma ExampleVariablesAfterA()
    ensures TokensFrom("A aNd b", 1) == Ok([AND_TOKEN, Variable("B"), EOF_TOKEN])
  {
    var text := "A aNd b";
    ExampleVariablesAfterAnd();
    assert IdentifierEnd(text, 2) == 5 && text[2..5] == "aNd";
    ClassifyOperators("aNd");
    assert SkipWhitespaces(text, 1) == 2;
    TokensStep(text, 1, Scan(AND_TOKEN, 5));
    assert [AND_TOKEN] + [Variable("B"), EOF_TOKEN] == [AND_TOKEN, Variable("B"), EOF_TOKEN];
  }

  lemma ExampleVariablesAfterAnd()
    ensures TokensFrom("A aNd b", 5) == Ok([Variable("B"), EOF_TOKEN])
  {
    var text := "A aNd b";
    assert TokensFrom(text, 7) == Ok([EOF_TOKEN]);
    assert IdentifierEnd(text, 6) == 7 && text[6..7] == "b";
    ClassifyOthers("b");
    assert Upper("b") == "B";
    assert SkipWhitespaces(text, 5) == 6;
    TokensStep(text, 5, Scan(Variable("B"), 7));
    assert [Variable("B")] + [EOF_TOKEN] == [Variable("B"), EOF_TOKEN];
  }


  /** The sign and the word for exclusive or give the same token. */
  lemma ExampleXor()
    ensures TokensOf(":+: xor") == Ok([XOR_TOKEN, XOR_TOKEN, EOF_TOKEN])
  {
    var text := ":+: xor";
    assert TokensFrom(text, 7) == Ok([EOF_TOKEN]);
    assert IdentifierEnd(text, 4) == 7 && text[4..7] == "xor";
    ClassifyOperators("xor");
    assert SkipWhitespaces(text, 3) == 4;
    TokensStep(text, 3, Scan(XOR_TOKEN, 7));
    assert text[0..3] == XOR_SIGN;
    assert SkipWhitespaces(text, 0) == 0;
    TokensStep(text, 0, Scan(XOR_TOKEN, 3));
    assert [XOR_TOKEN] + ([XOR_TOKEN] + [EOF_TOKEN]) == [XOR_TOKEN, XOR_TOKEN, EOF_TOKEN];
  }

  /** Refused texts: a leading underscore, a number other than 0 or 1, an
      unknown sign, a form feed, a colon not starting `:+:`. */
  lemma ExampleErrors()
    ensures TokensOf("_a").Err?
    ensures TokensOf("255").Err?
    ensures TokensOf("~").Err?
    ensures TokensOf([12 as char]).Err?
    ensures TokensOf(":pero:").Err?
  {
    assert DigitsEnd("255", 0) == 3 && "255"[0..3] == "255";
    assert ":pero:"[0..3][1] != XOR_SIGN[1];
  }

  /** An error behind a valid prefix makes the whole sequence an error. */
  lemma ExampleLateError()
    ensures TokensOf("a and 10").Err?
  {
    var text := "a and 10";
    assert IdentifierEnd(text, 0) == 1;
    assert SkipWhitespaces(text, 1) == 2;
    assert IdentifierEnd(text, 2) == 5;
    assert SkipWhitespaces(text, 5) == 6;
    assert DigitsEnd(text, 6) == 8 && text[6..8] == "10";
  }
}
