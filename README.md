# truth-table-rs: the formula compiler, modelled in Dafny

truth-table-rs reads a propositional formula such as `(a | b) & ~c -> d <-> e` and compiles
it in three stages:

1. A shunting-yard pass turns the infix text into postfix tokens.
2. An operand stack reduces the tokens to a tree of `And`, `Or`, `Not`, `If`, `Iff` and `Atom`
   nodes, and the atom names below the root become the formula's variables.
3. The tree is evaluated under a partial assignment of truth values (`Option<bool>`), and
   printed back with minimal parentheses.

The repository holds this pipeline three times:

- `src/lib.rs`: one-character atoms, tokens are operators or atoms. The `Operator` impl at
  `src/lib.rs:382-465` is `src/operator.rs` plus `to_char` (src/lib.rs:455-464), which
  `src/lib.rs` never calls and which the model takes from `src/main.rs`.
- `src/lexer.rs`, `src/parser.rs` and `src/operator.rs`: the same, except that a run of letters
  is one token, and a run starting with `t`, `T`, `f` or `F` is a `Value` literal.
  `src/parser.rs` is `lib.rs`'s parser word for word.
- `src/main.rs`, the variant `src/test.rs` exercises: the tokenizer writes operators back as
  characters, the parser reads those characters, and the variables are kept as a list.

Each module is one file:

- `Operators` (`operators.dfy`): the operator table and lexeme recognition at an index cursor,
  which stands in for `Peekable<Chars>`.
- `OperatorStack`: the pop rules the three tokenizers share.
- `Tokens`: the postfix token.
- `Tokenizer`: `shunting_yard` of `lib.rs`.
- `Lexer`: `shunting_yard` of `lexer.rs`.
- `Ast`: the tree, the printer, `children` and the evaluator.
- `Parser`: `parse_expr` and `parse` of `lib.rs` and `parser.rs`.
- `CharPipeline`: all of `main.rs`.
- `MainConversions` and `MainExamples`: the inputs of `test.rs` carried through `main.rs`.
- `OperandOrder`: the order of the atoms `lib.rs`'s tokenizer outputs.
- `LexerOrder`: the order of the atoms and literals `lexer.rs`'s tokenizer outputs.
- `RoundTrip`: printer and parser together.

Every loop of the source is a `method` with a `while` loop. Each is proved equal to a
specification function: `Step` is one turn of the loop and `Scan` the whole loop, with the
invariant `Scan(input, current state) == Scan(input, initial state)`. The properties are proved
about those functions.

`main.rs`'s `FormulaParser` is a class with the fields `source` and `pos`. Its `parse_expr`
advances `pos`.

The model reproduces these behaviours of the source:

- The character right after a recognised `&`, `|`, `->` or `<->` is skipped. The main loop
  calls `input.next()` once more after `from_peekable` has moved past the lexeme.
- A `-` or `<` that does not complete an arrow becomes an atom, after characters were consumed.
- An unmatched `)` is ignored, and an unmatched `(` leaks a marker into the output.
- A formula that is a bare atom has no variables.
- Evaluation stops at the first operand that decides the result.

Rust panics become the three errors of `Parser.ParseError`:

- `EmptyStack`: an `unwrap` on an empty operand stack.
- `InvalidToken`: "Invalid token".
- `InvalidExpression`: "Invalid expression".

In `src/main.rs`, `from_peekable` (main.rs:254-273) consumes characters only for `-` and `<`.
Every other character goes to `from_char` after a peek, so `&` and `|` are single characters,
`&&` is two And operators, and no character is skipped after `&` or `|`. Only `->` and `<->`
skip one. The `main.rs` and `lib.rs` tokenizers still agree on text with no `!` where every
`&` and `|` is followed by a space or the end (`CharPipeline.ConvertAgreesOnSpacedAndOr`).
`lib.rs` skips that space right after the sign, and `main.rs` passes over it on its next turn.
Every text of `test.rs` is of that kind.

`src/test.rs:99-111` expects a panic "Invalid variable", but `eval` returns `None` there,
as `MainExamples.EvalMissingVariable` states. The model follows the code.

## Model

| member | source | states |
|---|---|---|
| Operators.Precedence | src/operator.rs:59-67 | stack precedence is at most 4, and 0 exactly for If and Iff |
| Operators.PrecedenceOrder | src/operator.rs:59-67 | Parenthesis > Not > And > Or > If = Iff; the only tie is If with Iff |
| Operators.OnlyNotIsRightAssociative | src/operator.rs:69-74 | an operator is right-associative iff it is Not |
| Operators.FromChar | src/operator.rs:49-57 | a character is an operator iff it is an And, Or, Not or parenthesis character; `&` gives And and nothing else does, the Or bar gives Or and nothing else does, `~` and `!` give Not, `(` and `)` give Parenthesis |
| Operators.Assoc | src/operator.rs:69-74 | the associativity table; `OnlyNotIsRightAssociative` states it |
| Operators.Next | src/lib.rs:53 | the loop's `input.next()` moves one character forward, and does nothing at the end of the input |
| Operators.Lexeme | src/operator.rs:14-47 | recognition never moves the cursor back nor past the input, and consumes at most 3 characters |
| Operators.FromPeekable | src/operator.rs:14-47 | the cursor-advancing method returns exactly the operator and cursor of `Lexeme` |
| Operators.LexemeSpec | src/operator.rs:14-47 | each outcome's consumed text: `->` for If, `<->` for Iff, one or two `&` for And, one or two Or bars for Or; Not and Parenthesis consume nothing; a None that consumed starts with `-` or `<` |
| Operators.LexemeArrows | src/operator.rs:17-30 | `->` gives If after exactly 2 characters, `<->` gives Iff after exactly 3 |
| Operators.LexemeDoubled | src/operator.rs:31-44 | the And and Or characters give And and Or and consume 1 character, or 2 when doubled |
| Operators.LexemeIncomplete | src/operator.rs:17-29 | a `-` without `>` gives None after 1 character; `<` gives None after 1 (no `-`) or 2 (`<-` without `>`) |
| Operators.LexemePeekOnly | src/operator.rs:45 | every other character is only peeked at, and gives `from_char`'s answer; empty input gives None |
| OperatorStack.Reverse | src/lib.rs:55 | a drained stack comes out top first: element k is the element k places below the top |
| OperatorStack.PopFor | src/lib.rs:38-50 | what the pop loop before a push takes off the stack; stated by `PopForShape`, `PopForMaximal` and `PopForNoMarker` |
| OperatorStack.Close | src/lib.rs:24-31 | what the pop loop on `)` takes off the stack; stated by `CloseSpec` |
| OperatorStack.PopForShape | src/lib.rs:38-50 | before a push the stack keeps a prefix of itself, and the popped operators are the rest, top first |
| OperatorStack.PopForMaximal | src/lib.rs:38-50 | every popped operator pops before `o` (not a marker; higher, or equal with `o` left-associative), and the new top does not |
| OperatorStack.PopForNoMarker | src/lib.rs:38-49 | no Parenthesis marker is popped before a push |
| OperatorStack.CloseSpec | src/lib.rs:24-31 | `)` outputs everything above the nearest marker, top first, and drops the marker; without a marker it outputs the whole stack and leaves it empty |
| OperatorStack.PopHigher | src/lib.rs:38-49 | the pop loop before a push pops exactly what `PopFor` describes |
| OperatorStack.PopToParenthesis | src/lib.rs:24-31 | the pop loop on `)` pops exactly what `Close` describes |
| Tokenizer.Step | src/lib.rs:17-54 | each turn of the loop moves the cursor forward and stays within the input |
| Tokenizer.Scan | src/lib.rs:17-54 | the loop ends at the end of the input |
| Tokenizer.Tokenize | src/lib.rs:12-57 | the loop, then the stack drained top first; the lemmas below, `OperandOrder` and `RoundTrip.RoundTrip` state what it gives |
| Tokenizer.ShuntingYard | src/lib.rs:12-57 | the loop over the cursor, output and stack gives exactly `Tokenize` |
| Tokenizer.ScanNoMarker | src/lib.rs:24-49 | the loop itself never outputs a Parenthesis marker |
| Tokenizer.TokenizeMarkerIffUnclosed | src/lib.rs:55 | the output holds a marker iff a `(` is left unclosed on the stack at the end |
| Tokenizer.ScanNoOpen | src/lib.rs:23 | without `(` in the input no marker reaches the stack |
| Tokenizer.NoOpenNoMarker | src/lib.rs:12-57 | text without `(` tokenizes without a marker |
| Tokenizer.ScanNoValues | src/lib.rs:162-166 | the loop outputs atoms and operators only |
| Tokenizer.TokenizeNoValues | src/lib.rs:12-57 | `lib.rs`'s tokenizer never outputs a literal |
| Tokenizer.StepPlain | src/lib.rs:19-36 | a space is passed over; a non-operator character becomes a one-character atom, and nothing after it is skipped |
| Tokenizer.ScanPlain | src/lib.rs:17-54 | over spaces and non-operator characters the loop outputs one atom per character, in input order |
| Tokenizer.PlainTextIsOperands | src/lib.rs:19-36 | operator-free text tokenizes to its characters as atoms, in order, spaces left out |
| Tokenizer.SkipAfterAnd | src/lib.rs:53 | `a&b` tokenizes to `a &`: the `b` after the operator is skipped |
| Tokenizer.SkipAfterArrow | src/lib.rs:53 | `a->b` tokenizes to `a ->`: the `b` after the arrow is skipped |
| Tokenizer.IncompleteArrowIsAtom | src/lib.rs:33-37 | in `a-b` the incomplete `-` becomes an atom and the `b` is consumed with it |
| Tokenizer.IncompleteDoubleArrowIsAtom | src/lib.rs:33-37 | `<-b` tokenizes to the single atom `<` |
| Tokenizer.OnlySpaceIsSkipped | src/lib.rs:19-22 | a tab is an atom; only a space is skipped |
| Tokenizer.UnclosedParenthesisLeaks | src/lib.rs:55 | `(a` leaks a Parenthesis token into the output |
| Tokenizer.UnmatchedParenthesisIgnored | src/lib.rs:24-31 | `a)` tokenizes to `a`: an unmatched `)` is not an error |
| Lexer.Truth | src/lexer.rs:41-42 | a word's literal value, after lower-casing; stated by `TruthOfWords` and `StepOnLetters` |
| Lexer.Lex | src/lexer.rs:10-82 | the loop, then the stack drained; stated by `LexerOrder.LexKeepsOrder`, `LexerOrder.SpacedWords`, `LexAgreesWithoutLetters`, `LexNoValues` and the examples |
| Lexer.ToLower | src/lexer.rs:41 | ASCII upper-case letters move to lower case; every other character is unchanged |
| Lexer.Lower | src/lexer.rs:41 | lower-casing a word lower-cases each character, keeping the length |
| Lexer.RunEnd | src/lexer.rs:33-40 | the run starting at `i` is maximal: all letters, followed by a non-letter or the end |
| Lexer.ReadRun | src/lexer.rs:46-53 | the inner loop reads exactly the maximal run of letters |
| Lexer.Step | src/lexer.rs:15-79 | each turn of the loop moves the cursor forward, stays within the input, and only appends to the output |
| Lexer.Scan | src/lexer.rs:15-79 | the loop ends at the end of the input, and what was output before stays a prefix of the output |
| Lexer.ShuntingYard | src/lexer.rs:10-82 | the loop gives exactly `Lex`; the atom accumulator is empty at every turn |
| Lexer.StepOnLetters | src/lexer.rs:30-56 | a letter emits one token for its whole maximal run: a `Value` of the run's truth for t/T/f/F, else an `Atom` of the run; nothing after it is skipped |
| Lexer.TruthOfWords | src/lexer.rs:41-42 | `true` and `t` in any case are true; `false`, `f`, `foo` and `tru` are false |
| Lexer.ScanAgreesWithoutLetters | src/lexer.rs:57-78 | on text without letters a turn of `lexer.rs`'s loop is a turn of `lib.rs`'s loop |
| Lexer.LexAgreesWithoutLetters | src/lexer.rs:10-82 | on text without letters the two tokenizers give the same tokens, drain included |
| Lexer.ScanNoValues | src/lexer.rs:30-43 | with no letter t/T/f/F the loop outputs no literal |
| Lexer.LexNoValues | src/lexer.rs:30-43 | text without t/T/f/F lexes to atoms and operators only |
| Lexer.WordIsOneToken | src/lexer.rs:30-43 | `foo` is the single literal false |
| Lexer.NoSkipAfterWord | src/lexer.rs:45-56 | `abc x` gives `abc` and `x`: nothing is skipped after a word |
| Lexer.SkipAfterOperatorAfterWord | src/lexer.rs:78 | `ab&c` gives `ab &`: the character after an operator is still skipped |
| Parser.OperatorOf | src/lib.rs:205-229 | the operator of a binary node is binary and rebuilds that node from its children |
| Parser.Apply | src/lib.rs:205-230 | one operator applied to the operand stack; stated by `ApplySpec` |
| Parser.Reduce | src/lib.rs:196-271 | the loop over the tokens; stated by `ReducePostfix`, `ReduceSpells` and `ReduceOkIff` |
| Parser.Build | src/lib.rs:193-276 | the reduction, then one tree left on the stack; stated by `BuildPostfix`, `BuildOnlyFromPostfix` and `BuildOkIff` |
| Parser.ApplySpec | src/lib.rs:205-230 | applying an operator fails with InvalidToken iff it is a marker, succeeds iff enough operands are there, and keeps the stack below the operands |
| Parser.ParseExpr | src/lib.rs:193-276 | the operand-stack loop gives exactly `Build`: the tree, or the first error |
| Parser.ReducePostfix | src/lib.rs:196-271 | reducing a tree's postfix tokens pushes exactly that tree, whatever lies below or follows |
| Parser.BuildPostfix | src/lib.rs:193-276 | the builder inverts the postfix form: every tree is built back from its postfix tokens |
| Parser.ReduceSpells | src/lib.rs:196-271 | the stack's postfix forms followed by the unread tokens are the same at every step |
| Parser.BuildOnlyFromPostfix | src/lib.rs:193-276 | a tree is built only from its own postfix form |
| Parser.ReduceOkIff | src/lib.rs:196-271 | reduction succeeds iff no token is a marker and no pop underflows, and then the stack grows by the tokens' height |
| Parser.BuildOkIff | src/parser.rs:32-74 | tokens are accepted iff no step underflows, no marker appears and the final height is 1 |
| Parser.Parse | src/lib.rs:178-190 | parse fails exactly when `Build` fails, with its error; on success the root is the built tree and the variables are `Ast.Variables` of it |
| Ast.Precedence | src/lib.rs:79-88 | printing precedence is at most 5 |
| Ast.Print | src/lib.rs:90-135 | `fmt_with_precedence` as written; `RoundTrip.PrintAgrees` ties it to the corrected printer, and `RoundTrip.RightNestingIsLost` shows where they part |
| Ast.ToString | src/lib.rs:72-76 | the printer against precedence 0; read back to the tree by `RoundTrip.ToStringRoundTrip` |
| Ast.Descendants | src/lib.rs:137-159 | the proper descendants in pre-order; stated by `DescendantsAreProper` and `AtomAmongSelfAndDescendants` |
| Ast.CollectChildren | src/lib.rs:137-154 | `_children` appends the proper descendants in pre-order to what the deque held |
| Ast.Children | src/lib.rs:155-159 | `children` is the list of proper descendants in pre-order |
| Ast.DescendantsAreProper | src/main.rs:91-122 | every node but the root is listed once, and each is a proper part of the tree |
| Ast.Variables | src/lib.rs:178-190 | the variables are the atoms of the tree, except that a bare-atom tree has none |
| Ast.VariablesAreAtoms | src/lib.rs:181-189 | the atom names among the proper descendants are the tree's atoms, or none for a bare atom |
| Ast.AtomAmongSelfAndDescendants | src/lib.rs:137-154 | the atoms of a tree are those among the tree itself and its proper descendants |
| Ast.AtomNamesElements | src/main.rs:139-147 | a name is in the variable list iff some atom of the list carries it |
| Ast.ListVariablesAreVariables | src/main.rs:136-149 | `main.rs`'s variable list holds the same names as `lib.rs`'s variable set |
| Ast.EvalInner | src/lib.rs:290-308 | the evaluator; stated by the four lemmas below and `ShortCircuit` |
| Ast.Formula.Eval | src/lib.rs:286-288 | evaluation of the root; the `EvalInner` lemmas apply |
| Ast.EvalFollowsTruthTables | src/lib.rs:290-308 | with every atom assigned, evaluation is defined and follows the truth tables |
| Ast.UndefinedNeedsMissingAtom | src/lib.rs:290-308 | an undefined result always has an unassigned atom behind it |
| Ast.DefinedIsStable | src/lib.rs:290-308 | a defined result stays the same under every extension of the assignment |
| Ast.ShortCircuit | src/lib.rs:291-304 | And with left false, Or with left true and If with left false decide without the right; None on the left, or under Iff on either side, propagates |
| Ast.MissingVariableOnTheRight | src/lib.rs:292-294 | `a & b` with only `a` assigned is false when a is false and undefined when a is true |
| CharPipeline.MainFromChar | src/main.rs:275-283 | a character is an operator iff it is `&`, the Or bar, `~` or a parenthesis; `!` is not Not here |
| CharPipeline.MainLexeme | src/main.rs:254-273 | recognition never moves the cursor back nor past the input |
| CharPipeline.MainLexemeSpec | src/main.rs:254-273 | `->` and `<->` are consumed whole; any other operator consumes nothing; a None that consumed starts with `-` or `<` |
| CharPipeline.MainLexemeArrowsAsOperatorTable | src/main.rs:257-270 | on `-` and `<` the two operator tables agree |
| CharPipeline.MainLexemeSingleCharacter | src/main.rs:271 | `&`, the Or bar, `~` and the parentheses are only peeked at |
| CharPipeline.MainFromPeekable | src/main.rs:254-273 | the cursor-advancing method returns exactly `MainLexeme`'s answer |
| CharPipeline.ToChar | src/main.rs:302-311 | the character an operator is written as; `DecodeToChar` states that the parser reads it back |
| CharPipeline.ToChars | src/main.rs:302-311 | operators written as characters, one `to_char` each, in order |
| CharPipeline.Step | src/main.rs:33-70 | each turn of the loop moves the cursor forward, stays within the input, and only appends to the output |
| CharPipeline.Scan | src/main.rs:33-70 | the loop ends at the end of the input, and what was output before stays a prefix of the output |
| CharPipeline.ShuntingYard | src/main.rs:29-73 | the loop gives exactly `Convert` |
| CharPipeline.Convert | src/main.rs:29-73 | the loop, then the stack drained as characters; stated by `ConvertAgreesOnSpacedAndOr` and the `MainConversions` examples |
| CharPipeline.StepAgreesWithoutAndOr | src/main.rs:33-70 | on any character but `&`, the Or bar and `!`, a turn of `main.rs`'s loop is a turn of `lib.rs`'s loop with its output spelled as characters |
| CharPipeline.ScanOverAndOr | src/main.rs:33-70 | on `&` or the Or bar followed by a space or the end, `main.rs`'s loop reaches the state `lib.rs`'s one turn reaches: it outputs and pushes the same, then passes over the space that `lib.rs` skips at src/lib.rs:53 |
| CharPipeline.ScanAgreesOnSpacedAndOr | src/main.rs:33-70 | on text with no `!` whose `&` and Or bars are followed by a space or the end, the two loops agree from any state |
| CharPipeline.ConvertAgreesOnSpacedAndOr | src/main.rs:29-73 | on such text, `main.rs`'s postfix characters are `lib.rs`'s postfix tokens with atoms as their characters, operators by `to_char` and an unclosed marker as `(` |
| CharPipeline.SpellPostfix | src/main.rs:302-311 | a tree's `lib.rs` postfix tokens, spelled with `to_char`, are the characters `main.rs` writes for the tree |
| CharPipeline.Decode | src/main.rs:157-193 | the parser reads no character as a literal |
| CharPipeline.DecodeAll | src/main.rs:154-194 | one token per character, never a literal nor a marker |
| CharPipeline.DecodeToChar | src/main.rs:302-311 | `to_char` and the parser's reading invert each other on the five operators; a leaked marker comes back as the atom `(` |
| CharPipeline.DecodePostfixChars | src/main.rs:151-198 | a tree's characters read back as its postfix tokens and are built back into the tree |
| CharPipeline.FormulaParser.constructor | src/main.rs:130-134 | `new` keeps the converted text, read from position 0 |
| CharPipeline.FormulaParser.ParseExpr | src/main.rs:151-198 | the characters from `pos` on give `Build` of their tokens; `pos` ends at the end unless an operand was missing |
| CharPipeline.FormulaParser.Parse | src/main.rs:136-149 | the tree, and the atom names among its proper descendants in pre-order, repeats kept |
| CharPipeline.Compile | src/main.rs:130-149 | conversion, then the parser; stated by `CompileIff` and the `MainExamples` lemmas |
| CharPipeline.ListFormula.Eval | src/main.rs:207-209 | evaluation of the root; the `Ast.EvalInner` lemmas apply |
| CharPipeline.CompileIff | src/main.rs:130-149 | a text compiles to a tree iff its converted characters spell the tree's postfix form; the variables are then its descendant atoms |
| CharPipeline.CompileText | src/main.rs:130-149 | a fresh parser on a text gives `Compile` of it |
| MainConversions.ConvertPrinted | src/main.rs:29-73 | a text `lib.rs`'s printer writes for a tree with plain atoms and no same-level right child, spaced around `&` and the Or bar, converts to the tree's postfix characters |
| MainConversions.ConvertAndOr | src/test.rs:7 | a & b or-bar c converts to ab&c and an Or bar |
| MainConversions.ConvertParenthesised | src/test.rs:8 | a & (b or-bar c) converts to abc, an Or bar, then & |
| MainConversions.ConvertNot | src/test.rs:9 | `~a & b` converts to `a~b&` |
| MainConversions.ConvertOrAnd | src/test.rs:47 | a or-bar b & c converts to abc& and an Or bar |
| MainConversions.ConvertImplicationChain | src/test.rs:116 | `a -> b -> c` converts to `ab-c-` |
| MainConversions.ConvertComplex | src/test.rs:68 | (a or-bar b) & ~c -> d <-> e converts to ab, an Or bar, then c~&d-e< |
| MainConversions.ConvertAnd | src/test.rs:102 | `a & b` converts to `ab&` |
| MainConversions.ConvertIncompleteArrow | src/main.rs:49-52 | `ab-c` converts to `ab-`: the incomplete `-` is output and the `c` is consumed |
| MainExamples.CompileAndOr | src/test.rs:15-17 | a & b or-bar c compiles to Or(And(a, b), c) with variables `a`, `b`, `c` |
| MainExamples.CompileOrAnd | src/test.rs:47-48 | a or-bar b & c compiles to Or(a, And(b, c)) |
| MainExamples.CompileImplicationChain | src/test.rs:116-117 | `a -> b -> c` compiles to (a -> b) -> c |
| MainExamples.CompileComplex | src/test.rs:68-69 | (a or-bar b) & ~c -> d <-> e compiles to Iff(If(And(Or(a, b), Not(c)), d), e) |
| MainExamples.CompileIncompleteArrow | src/main.rs:172-180 | the `-` output for an incomplete arrow is read back as implication: `ab-c` compiles to a -> b |
| MainExamples.EvalAndOr | src/test.rs:26-41 | Or(And(a, b), c) is true at a=T, b=F, c=T and false at c=F |
| MainExamples.EvalOrAnd | src/test.rs:47-62 | Or(a, And(b, c)) is true at a=F, b=T, c=T and false at c=F |
| MainExamples.EvalComplex | src/test.rs:68-95 | the complex formula is true on both assignments the test tries |
| MainExamples.EvalImplicationChain | src/test.rs:116-131 | (a -> b) -> c is true at (T, F, T) and false at (T, T, F) |
| MainExamples.EvalMissingVariable | src/test.rs:99-111 | `a & b` with only a=T evaluates to None, with no panic |
| OperandOrder.StepAtoms | src/lib.rs:19-37 | a turn outputs at most one atom: its own character, when it is not a space, a parenthesis or an operator |
| OperandOrder.ScanSelects | src/lib.rs:17-54 | from any state the loop outputs as atoms a selection of the remaining characters, in the text's order |
| OperandOrder.TokenizeKeepsOrder | src/lib.rs:12-57 | for every text, each atom is one character, and the atoms are characters of the text in the text's order |
| OperandOrder.StepOperands | src/lib.rs:19-53 | on text whose operators are complete and followed by a space or the end, a turn outputs exactly the operand characters it passes |
| OperandOrder.ScanOperands | src/lib.rs:17-54 | on such text the loop outputs exactly the remaining operand characters, in order |
| OperandOrder.SpacedOperands | src/lib.rs:12-57 | on such text the atoms are exactly the operand characters: all but spaces, parentheses and operators, in order |
| OperandOrder.SpacedFormula | src/lib.rs:12-57 | `a & ~b -> c` keeps its atoms `a`, `b`, `c` in order |
| LexerOrder.StepOperandTokens | src/lexer.rs:17-62 | a turn outputs at most one atom or literal, the one read at the cursor (its whole letter run, or its one character), and moves past it |
| LexerOrder.ScanPicks | src/lexer.rs:15-79 | from any state the loop outputs operands read at places of the remaining text, left to right, each ending before the next begins |
| LexerOrder.LexKeepsOrder | src/lexer.rs:10-82 | for every text, the atoms and literals are read at increasing places of the text: a letter run as one `Value` (t/T/f/F) or `Atom`, any other character alone |
| LexerOrder.StepWords | src/lexer.rs:15-79 | on text whose operators are complete and followed by a space or the end, a turn outputs exactly the words and operand characters it passes |
| LexerOrder.ScanWords | src/lexer.rs:15-79 | on such text the loop outputs exactly the remaining words and operand characters, in order |
| LexerOrder.SpacedWords | src/lexer.rs:10-82 | on such text the atoms and literals are exactly the text's maximal letter runs and other operand characters, in order |
| LexerOrder.SpacedFormula | src/lexer.rs:10-82 | `ab & ~c -> t` gives the atoms `ab`, `c` and the literal true, in order |
| RoundTrip.RightBound | src/lib.rs:117-126 | the corrected bound for a right child is above the node's own precedence |
| RoundTrip.PendingLevels | src/lib.rs:38-49 | the operators a printed subtree leaves on the stack are at its level or above, so the next operator pops them all |
| RoundTrip.Drain | src/lib.rs:55 | the tokens emitted for a printed subtree, then its pending operators drained, are its postfix form |
| RoundTrip.ScanPrinted | src/lib.rs:12-57 | tokenizing a printed subtree emits its tokens and leaves its pending operators, whatever was output or stacked before |
| RoundTrip.RoundTrip | src/lib.rs:72-135 | with the corrected printer, a tree with one-character plain atoms tokenizes to its postfix form and is built back into itself |
| RoundTrip.PrintAgrees | src/lib.rs:90-135 | on trees where no binary node has a right child at its own level, and no If sits right of an Iff, `lib.rs`'s printer gives the corrected printer's text |
| RoundTrip.ToStringRoundTrip | src/lib.rs:72-135 | on those trees with one-character plain atoms, `lib.rs`'s printed text tokenizes to the postfix form and is built back into the tree |
| RoundTrip.RightNestingIsLost | src/lib.rs:117-121 | `lib.rs` prints a -> (b -> c) as `a -> b -> c`, which is read back as (a -> b) -> c; the two differ at a=b=c=F |
| RoundTrip.NestingsDiffer | src/lib.rs:299-301 | a -> (b -> c) is true and (a -> b) -> c false at a=b=c=F |
| RoundTrip.RightNestingIsKept | src/lib.rs:117-121 | the corrected printer gives `a -> (b -> c)`, read back as a -> (b -> c) |

## Left out

- `print_truth_table` (src/lib.rs:310-379, src/main.rs:231-240) and `main` (src/main.rs:9-27):
  console output only.
- The debug `println!` of src/main.rs:138. It is I/O.
- benches/formula_benches.rs holds benchmarks and no logic; it is not part of this model.
- `is_alphabetic` is taken over the ASCII letters. Unicode letters are not modelled.
- `HashMap` and `HashSet` are Dafny `map` and `set`; hashing and iteration order are not modelled.
- The `fmt::Formatter` error path. The printer is a function returning a string.
- Rust panics become `Parser.ParseError` results. The panic message text is not modelled.
- `Parser.ParseExpr` requires tokens without `Value` literals. `src/parser.rs:36-42` matches only
  atoms and operators, so `lexer.rs`'s tokens with literals cannot reach it.
- `CharPipeline.FormulaParser.ParseExpr`: does not state where `pos` stops after an
  empty-stack error. The source panics there, and nothing reads `pos` afterwards.
- `Tokenizer.Step`, `Lexer.Step` and `CharPipeline.Step` state only that the cursor advances
  (and, for the last two, that the output is only appended to). What each turn does is stated
  by the methods proved against them, and by the lemmas about `Scan`.
- A general round trip for the printer as written. It does not hold (see Findings). It is
  proved for the corrected printer, and for the printer as written on the trees where the
  two agree; both only for trees whose atoms are one plain character, since `lib.rs`'s
  tokenizer reads longer names as several atoms.
- `OperandOrder.SpacedOperands` covers only text whose operators are complete and followed by
  a space or the end. Elsewhere the character after an operator, or after an incomplete
  arrow, is lost, and `OperandOrder.TokenizeKeepsOrder` only says the atoms keep their order.
- `LexerOrder.SpacedWords` covers only text whose operators are complete and followed by a
  space or the end. Elsewhere the character after an operator is lost and a word after it is
  read from its second letter; `LexerOrder.LexKeepsOrder` still says the operands keep their order.
- `CharPipeline.Convert`: its agreement with `lib.rs` is proved only on text with no `!` where
  every `&` and `|` is followed by a space or the end. Elsewhere the two tokenizers differ
  (`main.rs` keeps the character after `&` or `|`, reads `&&` as two And operators and `!` as an
  atom), and `main.rs`'s output is stated only by the loop's equality with `Convert` and by
  `MainConversions.ConvertIncompleteArrow`.
- The second example of the same defect is not proved: `Iff(a, If(b, c))` prints as
  `a <-> b -> c` and is read back as `If(Iff(a, b), c)`.

## Findings

| source | as written | input that shows it | evidently intended | confidence | as-written member | corrected member |
|---|---|---|---|---|---|---|
| src/lib.rs:103-126 | both children of a binary node are printed against the node's own precedence, so a right child at the same level loses its parentheses, while the tokenizer groups equal levels to the left | `If(a, If(b, c))` prints as `a -> b -> c`, which is read back as `If(If(a, b), c)`; the two differ at a = b = c = false | print the right child against a bound above the node's level (above If for Iff), so the printed text reads back to the same tree | not executed | RoundTrip.RightNestingIsLost | RoundTrip.RoundTrip |
