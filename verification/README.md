# Boolean function minimizer and expression front end

A Dafny model of the Boolean-function package of `java_course-hw08`
(`hr.fer.zemris.bf`), with the properties its code and documentation promise
proved about the model. There are three cooperating parts.

- **Quine-McCluskey minimizer** (`Mask`, `Minimizer`).
  - A mask is a product term over n variables: each position is plain, negated or absent.
  - A mask carries the truth-table rows it covers and a don't-care flag.
  - The minimizer builds the first column of single-row masks, bucketed by their number of plain variables.
  - It merges neighbouring buckets column after column.
  - It collects the masks that merged with nothing (and are not don't-cares) as prime implicants.
  - It picks the essential implicants and expands Petrick's product of sums.
  - It keeps the completions of least cardinality.
  - The minimal forms are turned into expression trees and printed.
- **Expression front end**.
  - The `Lexer` turns text into tokens.
  - The recursive-descent `Parser` implements the grammar: OR binds loosest, then XOR, then AND, then NOT, then an atom.
  - Three tree walkers work on the parsed tree: `ExpressionEvaluator` (a stack machine), `VariablesGetter` (the sorted, unique variable names) and `NodeAsExpressionPrinter` (infix text, tokens joined by single spaces).
- **Truth-table bridge** (`Util`).
  - Row index and assignment convert both ways, most significant variable first.
  - It enumerates all 2^n assignments.
  - It builds the minterm and maxterm sets of an expression.

Modules follow the source:

| module | models |
|---|---|
| `Wrappers` | `Option` (a Java `null`) and `Result`, whose `Error` names the exception class thrown |
| `Nodes` | the four node classes as one datatype, with the reference meaning `Value` |
| `Util`, `ExpressionEvaluator`, `VariablesGetter`, `NodeAsExpressionPrinter` | the utility classes |
| `Lexer`, `Parser` | the lexer and the parser |
| `Masks`, `Minimizer` | `Mask` and `Minimizer` |

Four modules hold only the theory:

- `PrimeImplicants`: what the columns hold, and that exactly the primes are found.
- `MinimalCovers`: that `chooseMinimalCover` returns exactly the minimum covers.
- `MinimalForms`: the minimizer as a whole, including that the expressions it builds represent the function.
- `ReadBack` and `PrintedForms`: text printed by the printer, read back by the lexer and parser.

End to end, `PrintedForms.FormsTextRepresentFunction` states the following for a minimizer built from valid arguments:

- every minimal form printed by `getMinimalFormsAsString` is parsed back;
- the parsed expression is true on every minterm;
- it is false on every row that is neither a minterm nor a don't-care.

### Failure modes of the code

- A mask width mismatch is an `IllegalArgumentException`.
- An empty p-function is read with `get(0)` and fails with `IndexOutOfBoundsException`.
- An empty stream of products fails in `min()` with `NoSuchElementException`.
- `MinimalForms.OnlyArgumentErrors` proves that neither of the last two failures can escape the constructor.

## Model

| member | source | states |
|---|---|---|
| Util.CombinationBits | src/main/java/hr/fer/zemris/bf/utils/Util.java:94-101 | position j of the n-variable assignment of row i holds bit n-1-j of i (most significant variable first) |
| Util.BooleanArrayToInt | src/main/java/hr/fer/zemris/bf/utils/Util.java:150-157 | the value read from an assignment of n variables is a row of the table, below 2^n |
| Util.BooleanArrayToIntOfCombination | src/main/java/hr/fer/zemris/bf/utils/Util.java:150-157 | reading back the assignment of row i gives i, for every row i < 2^n |
| Util.CombinationOfBooleanArrayToInt | src/main/java/hr/fer/zemris/bf/utils/Util.java:94-101 | enumerating the row read from any assignment gives that assignment back |
| Util.CombinationInjective | src/main/java/hr/fer/zemris/bf/utils/Util.java:94-101 | different rows of the table get different assignments |
| Util.ForEach | src/main/java/hr/fer/zemris/bf/utils/Util.java:71-77 | the consumer is called 2^n times; the k-th call gets an assignment of n values that `booleanArrayToInt` reads back as k |
| Util.ForEachVisitsEveryAssignmentOnce | src/main/java/hr/fer/zemris/bf/utils/Util.java:71-77 | every assignment of the right width is handed out exactly once, at the position of its row index |
| Util.IndexToByteArray | src/main/java/hr/fer/zemris/bf/utils/Util.java:238-246 | succeeds exactly for a non-negative length, returns that many bytes, each 0 or 1 |
| Util.IndexToByteArrayOfNonNegative | src/main/java/hr/fer/zemris/bf/utils/Util.java:238-246 | for an index x >= 0 the bytes are the n-bit binary expansion of x, the same bits as `getCombination` |
| Util.IndexToByteArrayOfNegative | src/main/java/hr/fer/zemris/bf/utils/Util.java:256-265 | a negative index is sign-extended: every position for bit 31 or above holds 1 |
| Util.FilterAssignmentsKeepsMatching | src/main/java/hr/fer/zemris/bf/utils/Util.java:127-139 | on an evaluable expression the filter succeeds and keeps exactly the assignments on which the expression has the requested value, in increasing row order |
| Util.FilterRowsKeepsMatching | src/main/java/hr/fer/zemris/bf/utils/Util.java:127-139 | when every row evaluates, the loop keeps, in row order, exactly the assignments of the rows whose value is the requested one |
| Util.FilterAssignmentsRejectsUnknown | src/main/java/hr/fer/zemris/bf/utils/Util.java:127-139 | an expression naming a variable outside the list makes the filter fail, for either requested value, as the evaluator's exception escapes the loop |
| Util.PerformFilterAndConvertIsRows | src/main/java/hr/fer/zemris/bf/utils/Util.java:216-220 | the converted rows are exactly the row indexes where the expression has the requested value |
| Util.MintermsAndMaxtermsPartition | src/main/java/hr/fer/zemris/bf/utils/Util.java:174-195 | minterms are exactly the true rows, maxterms exactly the false rows; they are disjoint and together make up [0, 2^n) |
| ExpressionEvaluator.Positions | src/main/java/hr/fer/zemris/bf/utils/ExpressionEvaluator.java:57-62 | every listed name has a position, the position holds that name, and no later position holds it (a repeated name keeps its last index) |
| ExpressionEvaluator.PositionsOfDistinct | src/main/java/hr/fer/zemris/bf/utils/ExpressionEvaluator.java:57-62 | with distinct names, each name's position is its index in the list |
| ExpressionEvaluator.SetValues | src/main/java/hr/fer/zemris/bf/utils/ExpressionEvaluator.java:76-85 | fails with an illegal argument exactly when the number of values is not the number of distinct names; otherwise stores the values and empties the stack |
| ExpressionEvaluator.GetResult | src/main/java/hr/fer/zemris/bf/utils/ExpressionEvaluator.java:151-157 | succeeds exactly when one value is on the stack and returns it; otherwise an illegal state |
| ExpressionEvaluator.FoldPopsFolds | src/main/java/hr/fer/zemris/bf/utils/ExpressionEvaluator.java:124-130 | popping and folding k values gives AND: all hold, OR: one holds, XOR: the parity of the true ones, leaving the stack below untouched |
| ExpressionEvaluator.VisitComputesValue | src/main/java/hr/fer/zemris/bf/utils/ExpressionEvaluator.java:87-110 | visiting a tree with bound variables pushes exactly its reference value onto the stack |
| ExpressionEvaluator.EvaluateComputesValue | src/main/java/hr/fer/zemris/bf/utils/ExpressionEvaluator.java:137-157 | `setValues`, `accept`, `getResult` return the tree's value under the assignment, when the names are distinct and cover the tree |
| ExpressionEvaluator.AssignmentOfDistinct | src/main/java/hr/fer/zemris/bf/utils/ExpressionEvaluator.java:91-98 | with distinct names, the i-th variable reads the i-th value |
| ExpressionEvaluator.UnknownVariableRejected | src/main/java/hr/fer/zemris/bf/utils/ExpressionEvaluator.java:91-98 | a tree using a name outside the list is refused, wherever the name occurs |
| VariablesGetter.CollectIsOccurs | src/main/java/hr/fer/zemris/bf/utils/VariablesGetter.java:58-74 | the visitor collects a name exactly when it occurs as a variable somewhere in the tree |
| VariablesGetter.Sorted | src/main/java/hr/fer/zemris/bf/utils/VariablesGetter.java:85-91 | the list holds exactly the names of the set, in strictly increasing `Below` order (code-point order, which is `compareTo`'s order for names without characters above U+FFFF) |
| VariablesGetter.GetVariablesSpec | src/main/java/hr/fer/zemris/bf/utils/VariablesGetter.java:85-91 | `getVariables` lists each variable of the tree once, strictly increasing, and nothing else |
| VariablesGetter.SortedUnique | src/main/java/hr/fer/zemris/bf/utils/VariablesGetter.java:85-91 | any strictly increasing list of the same names equals the result, so it does not depend on the hash set's order |
| VariablesGetter.ExampleVariables | src/main/java/hr/fer/zemris/bf/utils/VariablesGetter.java:20-31 | the tree of `(c + a) xor (a or b)` has the variables A, B, C |
| NodeAsExpressionPrinter.SplitJoin | src/main/java/hr/fer/zemris/bf/utils/NodeAsExpressionPrinter.java:33 | joining tokens without spaces by single spaces and splitting again gives the tokens back |
| NodeAsExpressionPrinter.PrintSplitsIntoTokens | src/main/java/hr/fer/zemris/bf/utils/NodeAsExpressionPrinter.java:69-71 | the printed text splits on spaces into exactly the tokens visited |
| NodeAsExpressionPrinter.InterleaveLength | src/main/java/hr/fer/zemris/bf/utils/NodeAsExpressionPrinter.java:52-62 | a binary node with k children writes its children's tokens and k-1 more |
| NodeAsExpressionPrinter.InterleaveChildAt | src/main/java/hr/fer/zemris/bf/utils/NodeAsExpressionPrinter.java:52-62 | token j of child i is written at position (tokens of the children before i) + i + j, so the children appear in order, each one whole |
| NodeAsExpressionPrinter.InterleaveNameAt | src/main/java/hr/fer/zemris/bf/utils/NodeAsExpressionPrinter.java:52-62 | the operator name is written right before child i+1 for every i < k-1, that is, once between each pair of neighbouring children |
| Masks.FromIndex | src/main/java/hr/fer/zemris/bf/qmc/Mask.java:133-141 | rejects fewer than one variable and any row outside [0, 2^n); otherwise the pattern is the row's assignment (no absent position) and the rows are exactly that row |
| Masks.FromPattern | src/main/java/hr/fer/zemris/bf/qmc/Mask.java:160-168 | rejects a missing pattern and a missing or empty row set; otherwise stores exactly what it is given |
| Masks.CountOfOnes | src/main/java/hr/fer/zemris/bf/qmc/Mask.java:197-201 | the count is the number of plain positions |
| Masks.CombineWith | src/main/java/hr/fer/zemris/bf/qmc/Mask.java:276-289 | rejects a missing mask or another width; the masks merge exactly when they differ at one position where both have the variable, and the merge drops that variable, unites the rows and is a don't-care only if both are |
| Masks.CombineFromSpec | src/main/java/hr/fer/zemris/bf/qmc/Mask.java:307-324 | the scan of `combine` keeps equal positions, marks the single differing position absent, and fails on a second difference or an absent one |
| Masks.DiffersOnlyAtWeights | src/main/java/hr/fer/zemris/bf/qmc/Mask.java:276-289 | masks that merge have weights exactly one apart, so the weight check in `combineWith` rejects no merge |
| Masks.ToVariableNodes | src/main/java/hr/fer/zemris/bf/qmc/Mask.java:343-346 | fails with an illegal-argument error exactly when the name list has another width; otherwise yields at least one node |
| Masks.ToVariableNodesShape | src/main/java/hr/fer/zemris/bf/qmc/Mask.java:347-361 | a mask with every position absent gives the single constant true; otherwise there is one node per non-absent position, in position order: `NOT(name)` for a 0 and `name` for a 1 |
| Masks.ToVariableNodesMeaning | src/main/java/hr/fer/zemris/bf/qmc/Mask.java:343-361 | all the literals produced hold under an assignment exactly when the assignment lies in the mask's product term |
| Masks.RowsOfIndex | src/main/java/hr/fer/zemris/bf/qmc/Mask.java:133-141 | the pattern built for a row covers exactly that row |
| Masks.RowsOfMerge | src/main/java/hr/fer/zemris/bf/qmc/Mask.java:307-324 | the merged pattern covers exactly the rows of both patterns |
| Masks.ExampleCountOfOnes | src/test/java/hr/fer/zemris/bf/qmc/MaskTest.java:42-48 | row 5 of four variables has two plain variables, row 15 four |
| Masks.ExampleCombine | src/test/java/hr/fer/zemris/bf/qmc/MaskTest.java:57-61 | rows 13 and 12 merge into 1 1 0 - covering {12, 13} |
| Masks.ExampleNoCombine | src/test/java/hr/fer/zemris/bf/qmc/MaskTest.java:83-87 | rows 13 and 14 do not merge |
| Minimizer.NewMinimizer | src/main/java/hr/fer/zemris/bf/qmc/Minimizer.java:251-299 | missing minterms or variables are rejected; an empty variable list skips minimization; otherwise a missing don't-care set, an overlap or a row outside the table is rejected, and nothing else is |
| Minimizer.Minimize | src/main/java/hr/fer/zemris/bf/qmc/Minimizer.java:306-309 | fails with an illegal argument exactly when some row lies outside the truth table |
| Minimizer.FirstColumn | src/main/java/hr/fer/zemris/bf/qmc/Minimizer.java:357-393 | has n + 1 buckets, and fails exactly when some minterm or don't-care lies outside the table |
| Minimizer.LowestCardinality | src/main/java/hr/fer/zemris/bf/qmc/Minimizer.java:811-820 | keeps exactly the products no other product is smaller than, all ties kept; fails on no products |
| Minimizer.FindMinimalSet | src/main/java/hr/fer/zemris/bf/qmc/Minimizer.java:781-798 | an empty p-function fails with an index error |
| Minimizer.GetMinimalFormsAsExpressions | src/main/java/hr/fer/zemris/bf/qmc/Minimizer.java:145-161 | refuses with an unsupported operation exactly when minimization never ran |
| PrimeImplicants.FirstColumnInvariant | src/main/java/hr/fer/zemris/bf/qmc/Minimizer.java:357-393 | bucket w of the first column holds exactly the single-row implicants with w plain variables |
| PrimeImplicants.NextColumnInvariant | src/main/java/hr/fer/zemris/bf/qmc/Minimizer.java:406-445 | if column k holds exactly the implicants with k absent variables by bucket, the merged column holds exactly those with k + 1 |
| PrimeImplicants.CombinedMeaning | src/main/java/hr/fer/zemris/bf/qmc/Minimizer.java:435-445 | a mask is marked combined exactly when one of its variables can be dropped with the term still an implicant |
| PrimeImplicants.ExtractMeaning | src/main/java/hr/fer/zemris/bf/qmc/Minimizer.java:489-504 | the masks extracted from a column are exactly its prime implicants that are not pure don't-cares |
| PrimeImplicants.FindPrimesTheorem | src/main/java/hr/fer/zemris/bf/qmc/Minimizer.java:318-346 | `findPrimaryImplicants` returns exactly the prime implicants true on some minterm |
| PrimeImplicants.PrimeCovers | src/main/java/hr/fer/zemris/bf/qmc/Minimizer.java:318-346 | every minterm lies in the rows of some prime implicant |
| MinimalCovers.EssentialsInCover | src/main/java/hr/fer/zemris/bf/qmc/Minimizer.java:639-664 | every cover of the minterms contains every essential implicant |
| MinimalCovers.EssentialsSuffice | src/main/java/hr/fer/zemris/bf/qmc/Minimizer.java:544-574 | when the essentials cover all minterms they are the one and only minimum cover |
| MinimalCovers.ExpandMember | src/main/java/hr/fer/zemris/bf/qmc/Minimizer.java:781-798 | every product of the expanded p-function meets every clause and is drawn from the clauses |
| MinimalCovers.ExpandBelow | src/main/java/hr/fer/zemris/bf/qmc/Minimizer.java:781-798 | every set meeting all clauses contains some product of the expansion |
| MinimalCovers.LeastContains | src/main/java/hr/fer/zemris/bf/qmc/Minimizer.java:781-820 | any set meeting all clauses and no larger than a least product is itself among the least products |
| MinimalCovers.CompletedCovers | src/main/java/hr/fer/zemris/bf/qmc/Minimizer.java:575-590 | the essentials completed by each least product are exactly the minimum covers |
| MinimalCovers.ChooseMinimalCoverTheorem | src/main/java/hr/fer/zemris/bf/qmc/Minimizer.java:544-590 | when the primes cover every minterm, `chooseMinimalCover` succeeds and returns exactly the covers of least cardinality |
| MinimalForms.MinimizeTheorem | src/main/java/hr/fer/zemris/bf/qmc/Minimizer.java:306-309 | on valid rows `minimize` succeeds and its forms are exactly the minimum covers by prime implicants |
| MinimalForms.NewMinimizerTheorem | src/main/java/hr/fer/zemris/bf/qmc/Minimizer.java:122-133 | a minimizer built from valid arguments keeps them and holds exactly the minimum covers |
| MinimalForms.OnlyArgumentErrors | src/main/java/hr/fer/zemris/bf/qmc/Minimizer.java:122-133 | construction fails only with an illegal argument: the index and empty-stream failures of the cover search never arise |
| MinimalForms.CountTrueMeaning | src/main/java/hr/fer/zemris/bf/qmc/Minimizer.java:173-204 | an AND of nodes holds exactly when all hold, an OR exactly when one holds |
| MinimalForms.CombineWithAndMeaning | src/main/java/hr/fer/zemris/bf/qmc/Minimizer.java:198-204 | the product built for a mask holds exactly on the assignments in the mask's rows |
| MinimalForms.CombineWithOrMeaning | src/main/java/hr/fer/zemris/bf/qmc/Minimizer.java:173-183 | the sum built for a form holds exactly where some mask of the form matches |
| MinimalForms.FormsToNodesMeaning | src/main/java/hr/fer/zemris/bf/qmc/Minimizer.java:145-161 | each expression built holds exactly where some mask of its form matches, one expression per form unless an empty form ends the list early |
| MinimalForms.FormsRepresentFunction | src/main/java/hr/fer/zemris/bf/qmc/Minimizer.java:145-161 | every minimal expression is true on each minterm and false on each row that is neither a minterm nor a don't-care |
| Lexer.NewLexer | src/main/java/hr/fer/zemris/bf/lexer/Lexer.java:185-191 | refuses exactly a missing text, with a lexer error |
| Lexer.SkipWhitespaces | src/main/java/hr/fer/zemris/bf/lexer/Lexer.java:445-469 | stops at the first character that is not a space, tab, CR or LF, or at the end |
| Lexer.ClassifyOperators | src/main/java/hr/fer/zemris/bf/lexer/Lexer.java:301-314 | a word is read as `and`, `or`, `xor` or `not` exactly when it spells that keyword in any case |
| Lexer.ClassifyOthers | src/main/java/hr/fer/zemris/bf/lexer/Lexer.java:273-336 | any other word is true or false when it spells one in any case, else a variable named by the word in upper case |
| Lexer.ExtractConstant | src/main/java/hr/fer/zemris/bf/lexer/Lexer.java:347-357 | a run of digits is accepted exactly when it is 1 or 0, read as true or false |
| Lexer.ExtractXor | src/main/java/hr/fer/zemris/bf/lexer/Lexer.java:367-375 | succeeds exactly when the next three characters are `:+:`, with the xor token; any other text is a lexer error |
| Lexer.ExtractXorAsWritten | src/main/java/hr/fer/zemris/bf/lexer/Lexer.java:367-375 | with fewer than three characters left the source fails with an index error; otherwise it agrees with `ExtractXor` |
| Lexer.XorAtEndEscapes | src/main/java/hr/fer/zemris/bf/lexer/Lexer.java:367-375 | on `a :+` the written code raises an index error where a lexer error is promised |
| Lexer.ExtractAndOrNot | src/main/java/hr/fer/zemris/bf/lexer/Lexer.java:386-402 | `*`, `+` and `!` are read as and, or, not; any other character is a lexer error |
| Lexer.ExtractNextToken | src/main/java/hr/fer/zemris/bf/lexer/Lexer.java:244-261 | a token always advances the index and is never the end of input; a character that starts no token is a lexer error |
| Lexer.NextToken | src/main/java/hr/fer/zemris/bf/lexer/Lexer.java:206-234 | after the end of input was handed out every call fails; otherwise a token is handed out and the index only advances |
| Lexer.NextTokenFollowsTokens | src/main/java/hr/fer/zemris/bf/lexer/Lexer.java:206-234 | successive `nextToken` calls hand out exactly the token sequence of the text, and an error of a call is an error of the whole sequence |
| Lexer.EofOnlyLast | src/main/java/hr/fer/zemris/bf/lexer/Lexer.java:221-234 | the end of input appears only as the last token |
| Lexer.ExampleVariables | src/test/java/hr/fer/zemris/bf/lexer/LexerTest.java:59-64 | `A aNd b` is read as A, and, B, end |
| Lexer.ExampleErrors | src/test/java/hr/fer/zemris/bf/lexer/LexerTest.java:113-141 | `_a`, `255`, `~`, a form feed and `:pero:` are refused |
| Lexer.ExampleLateError | src/test/java/hr/fer/zemris/bf/lexer/LexerTest.java:143-149 | `a and 10` is refused |
| Parser.Binary | src/main/java/hr/fer/zemris/bf/parser/Parser.java:159-174 | a level's parse consumes at least one token and returns a tree the parser can return (n-ary nodes of at least two operands); errors are parser errors |
| Parser.Gather | src/main/java/hr/fer/zemris/bf/parser/Parser.java:159-174 | the loop keeps the operands already read, adds one operand per operator token, and stops at the first token that is not the level's operator |
| Parser.Primary | src/main/java/hr/fer/zemris/bf/parser/Parser.java:236-253 | anything but a variable, a constant or an opening bracket is refused |
| Parser.Parse | src/main/java/hr/fer/zemris/bf/parser/Parser.java:68-91 | a missing text and every lexer error are reported as parser errors; a parsed tree is canonical and can be evaluated |
| Parser.ParseRendered | src/main/java/hr/fer/zemris/bf/parser/Parser.java:85-130 | every canonical tree, written with the brackets its shape needs, is parsed back into itself |
| Parser.FailureRises | src/main/java/hr/fer/zemris/bf/parser/Parser.java:102-130 | a failure at a tighter level is a failure of the whole expression |
| Parser.ExamplePrecedence | src/main/java/hr/fer/zemris/bf/parser/Parser.java:102-130 | `A or B and C` parses as `A or (B and C)` |
| Parser.ExampleChain | src/main/java/hr/fer/zemris/bf/parser/Parser.java:159-174 | `A or B or C` becomes one OR node of three operands |
| Parser.ExampleErrors | src/main/java/hr/fer/zemris/bf/parser/Parser.java:85-91 | an empty text, two operands without an operator, an unclosed bracket and a missing right operand are refused |
| ReadBack.VariableNameMeaning | src/main/java/hr/fer/zemris/bf/lexer/Lexer.java:273-285 | a name is read back as itself exactly when it is an identifier without lower-case letters that spells no keyword |
| ReadBack.LexWords | src/main/java/hr/fer/zemris/bf/lexer/Lexer.java:206-261 | words joined by single spaces are read as their tokens followed by the end of input |
| ReadBack.NormalValue | src/main/java/hr/fer/zemris/bf/utils/ExpressionEvaluator.java:100-130 | renaming operators as the parser names them never changes the value |
| ReadBack.BracketedPrintParses | src/main/java/hr/fer/zemris/bf/utils/NodeAsExpressionPrinter.java:14-20 | the printer with brackets put back prints every readable tree as a text parsed back into that tree, up to the case of operator names |
| ReadBack.PrintParses | src/main/java/hr/fer/zemris/bf/utils/NodeAsExpressionPrinter.java:14-20 | for a readable tree that needs no brackets, the printer's text is parsed back into the tree |
| ReadBack.PrintLosesBrackets | src/main/java/hr/fer/zemris/bf/utils/NodeAsExpressionPrinter.java:52-62 | `(A or B) and C` is printed `A or B and C`, which is parsed as a different function |
| PrintedForms.SumPrintable | src/main/java/hr/fer/zemris/bf/qmc/Minimizer.java:173-204 | a minimal form built from readable names is a sum of products that needs no brackets |
| PrintedForms.FormsTextParses | src/main/java/hr/fer/zemris/bf/qmc/Minimizer.java:215-226 | `getMinimalFormsAsString` prints one text per minimal expression, parsed back into that expression |
| PrintedForms.FormsTextRepresentFunction | src/main/java/hr/fer/zemris/bf/qmc/Minimizer.java:215-226 | each printed minimal form parses into an expression true on each minterm and false on each row outside the minterms and don't-cares |

## Left out

- Logging: the logging calls and helpers of the minimizer are left out, because they do not affect results.
- Demos: the demo programs and `Main` of the minimizer package are I/O glue and are left out.
- Tree printer: `ExpressionTreePrinter` only writes indented text to standard output, so it is left out.
- `hashCode` and `toString`: these are left out for masks and tokens.
  - `Masks.Equals` compares patterns only.
  - Within a column, equal patterns always carry equal rows and don't-care flags (`PrimeImplicants.InBucket` fixes both). Set membership of `Mask` values therefore agrees with the source's deduplication by pattern.
- Iteration orders: the order of hash sets is not modelled.
  - The forms are listed in any order without repetition (`Minimizer.Lists`).
  - The minimal forms are compared as sets.
  - `BitSet`s of implicant indexes are sets of masks.
- Copying and mutation:
  - Defensive copies of constructor arguments are left out, and so is `removeAll` on the caller's sets. Values are immutable in the model.
  - The `combined` flag of a mask is a predicate (`Minimizer.Combined`): whether the mask merged with a neighbour.
- Character classes:
  - Letters and digits are ASCII only, and case mapping is ASCII.
  - Java's `Character.isLetter`/`isDigit` also accept other Unicode letters and digits.
- Powers of two: `Math.pow` on doubles is modelled as exact integer powers of two.
  - The source's `(int) Math.pow(2, n)` in `forEach` saturates from n = 31 on, and `booleanArrayToInt` narrows its double sum to an `int`. Neither narrowing is modelled.
  - Minterm and don't-care indexes are still Java `int`s (`Util.Int32`).
- Util.CombinationBits: `getCombination` tests `(1 << i) & number`, and a Java `int` shift uses `i mod 32`. For more than 32 variables the positions above bit 31 therefore repeat the low bits (n = 33, number = 1 sets position 0). The model states the exact bit `n-1-j` for every width and does not model this wrap. `Util.Combination`, and every member built on it, inherits that choice.
- VariablesGetter.Below: it orders names by Unicode code point, while `String.compareTo` compares UTF-16 code units. The two orders agree only on names without characters above U+FFFF. For example, U+FF21 sorts before U+1D400 in the model, but after it in Java (surrogate 0xD835 < 0xFF21). The lexer produces only ASCII names, so the names the parser gives the visitor are not affected.
- Lazy tokens: the parser reads the token sequence of the whole text at once.
  - Its result equals the lazy lexer's: every lexer error becomes a parser error.
  - A token sequence that fails to lex fails to parse.
- Lexer.TokensFrom: the xor sign is read by the corrected `Lexer.ExtractXor`, so an index error from a trailing `:` or `:+` is not modelled there. `Lexer.ExtractXorAsWritten` records it.
- Parser.Parse: it lexes with `Lexer.TokensFrom`, so a text such as `a and :+` ends as `ParserFailure`. In the code the lexer's `StringIndexOutOfBoundsException` escapes the parser, which catches only `LexerException`. The claim that every lexer error is reported as a parser error covers only the `LexerException`s.
- Masks.FromPattern: Java's `Mask(byte[], Set, boolean)` stores any byte values, while `Masks.Trit` holds only 0, 1 and 2 (`Neg`, `Pos`, `Absent`). A pattern with any other byte cannot be built in the model. Every pattern the minimizer builds uses only these three values.
- ReadBack.PrintParses: the round trip is stated only for readable trees, meaning names the lexer reads back as themselves (upper-case identifiers that spell no keyword). Other names are changed by the lexer, for example a lower-case variable is upper-cased.
- Performance: the cost of the exponential p-function expansion is not modelled. The contracts are about results.

## Findings

| source | as written | input that shows it | evidently intended | confidence | as-written member | corrected member |
|---|---|---|---|---|---|---|
| src/main/java/hr/fer/zemris/bf/lexer/Lexer.java:367-375 | `new String(data, currentIndex, 3)` is built before the `:+:` comparison, so fewer than three characters left raises `StringIndexOutOfBoundsException` | text `a :+`, lexing the `:` at index 2 | every malformed xor sign is a `LexerException` (the parser wraps only those) | not executed | Lexer.XorAtEndEscapes | Lexer.ExtractXor |
| src/main/java/hr/fer/zemris/bf/utils/NodeAsExpressionPrinter.java:52-62 | binary nodes are printed without brackets, against the re-parseable promise of lines 16-19 | the tree of `(A or B) and C` prints `A or B and C`, which parses as `A or (B and C)`; they differ at A = true, B = C = false | the printed text parses back into the same tree | not executed | ReadBack.PrintLosesBrackets | ReadBack.BracketedPrintParses |

The minimizer's own output is unaffected by the second finding: its forms are sums of products and need no brackets (`PrintedForms.FormsTextParses`).
