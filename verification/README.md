# silang front end in Dafny

A model of the front end of the `silang` compiler, with proofs about it.
The front end has four parts:

- **The macro preprocessor** (`Preprocessor.cpp`). It copies the source text to its output. On the way it replaces every word that has a definition, and it acts on `$def NAME VALUE` and `$inc "file"`.
- **The lexer** (`Scanner.cpp`). A character-level state machine that yields one token per call: keywords, identifiers, decimal/hex/octal/binary integers, floats, string literals with escapes, operators, and `#` / `## … ##` comments.
- **The recursive-descent parser** (`Parser.cpp`). It handles global declarations, functions with typed arguments and a return type, packages with typed fields, and function bodies (declarations, `return`, `if`/`else`, `while`, `for`, assignments, calls and package variables). It keeps three symbol tables (variables with their scope depth, functions, packages).
- **The expression compiler** (`Parser_Expr.cpp`). It turns infix into postfix with an operator stack. It then evaluates the postfix queue: constant sub-expressions are folded, and anything involving a variable or call goes to register code over the 16 registers of the SILENT architecture (`types.hpp`).

Everything is pure functions over immutable data:

- Reading a character is looking at the head of the remaining input.
- `ungetc` is not dropping that character.
- The parser runs over the token sequence the lexer produces.
- The parser's member variables (current token, tables, scope depth, emitted code) are threaded through explicitly.
- Every parser rule returns its state even on error, because the original mutates it regardless.
- The emitted assembly text is modelled as a sequence of instructions (`Load`, `Apply`, `Call`, `PushConst`, `SetR0`, `PushR0`).

Modules, one per file:

- `Types` (types.dfy): character classes and constants.
- `Errors` (errors.dfy): error values, `Option`, `Result`.
- `Tokens` (tokens.dfy).
- `Symbols` (symbols.dfy): `createVar` and `exitScope`.
- `Scanner` (scanner.dfy) and `ScannerProps` (scanner_props.dfy).
- `Evaluation` (eval.dfy) and `EvaluationProps` (eval_props.dfy): the postfix evaluation pass.
- `Expressions` (expr.dfy) and `ExpressionProps` (expr_props.dfy): the infix pass, `expr`, `args` and `argsList`.
- `Parser` (parser.dfy) and `ParserProps` (parser_props.dfy).
- `Preprocessor` (preprocessor.dfy) and `PreprocessorProps` (preprocessor_props.dfy).

The model reproduces these behaviours of the code:

- `args` is not always successful. An error in an argument expression, or a missing `,`, is returned early (Parser.cpp:664-698). `expr` ignores that result and continues from where `args` stopped (Parser_Expr.cpp:158).
- The preprocessor's Id state stops at `;` as well as at non-visible characters (Preprocessor.cpp:239).
- A statement `ID ( args ) ;` neither checks the name nor emits a call (Parser.cpp:1131-1147).
- `P x ;` enters `P` (the package name), not `x`, as the variable (Parser.cpp:1154).
- A name refused by `createVar` in a declaration or an argument list is silently skipped: its result is ignored at Parser.cpp:237, 258, 343, 446, 795, 816 and 1154.
- In the lexer, the character right after `#` is consumed even when it is a newline: it is only compared with `#`. An empty `#` comment therefore runs to the end of the next line (Scanner.cpp:760-787).
- When an expression fails during evaluation (too complex, a missing operand, a division by zero), the register loads already printed stay in the output (Parser_Expr.cpp:254-265).

Where the model departs from the code, "## Left out" says so. The main instance is the reading of a `$def` name: the preprocessor uses the corrected version described under Findings, and the code as written is modelled beside it.

## Model

| member | source | states |
|---|---|---|
| Types.ToLower | src/Scanner.cpp:657-661 | `tolower` gives a lower-case letter exactly for letters, keeps digits digits, and leaves every code that is not an upper-case letter (EOF included) unchanged |
| Types.Peek | src/Scanner.cpp:148-151 | `fgetc` yields EOF exactly when the input is exhausted |
| Types.Advance | src/Scanner.cpp:148-151 | a read consumes one character, and nothing once the input is exhausted |
| Types.CharClasses | src/types.hpp:36-37 | every `ischar` code is printable; printable means `ischar` or space; EOF is neither; space is white space and printable but not `ischar` |
| Errors.SyntaxError | src/Parser.cpp:67 | a syntax error is an error that `ParserProcessState` propagates |
| Symbols.CreateVar | src/Parser.cpp:18-44 | a declaration is refused exactly when the name is a function or already a variable in any scope, with the source's message for each case; a refusal changes nothing; an accepted declaration adds exactly the new name with its type and depth and keeps every other entry |
| Symbols.ExitScope | src/Parser.cpp:49-65 | the variables that remain are exactly those not declared at the depth being left, with their entries unchanged; functions and packages are untouched |
| Symbols.ExitScopeIdempotent | src/Parser.cpp:49-65 | leaving the same depth twice is the same as leaving it once |
| Symbols.ExitScopeLowers | src/Parser.cpp:135-140 | when nothing is deeper than the current depth, leaving it keeps every variable of the enclosing depths and leaves nothing deeper than the enclosing depth |
| Symbols.ExitScopeUndoesCreate | src/Parser.cpp:888-893 | declaring a fresh name in a block and then leaving the block gives the same tables as leaving it without the declaration |
| Symbols.ExitScopeKeepsOuter | src/Parser.cpp:49-65 | a variable declared at another depth survives leaving a depth |
| Symbols.ExitScopeForgetsAdded | src/Parser.cpp:969-974 | whatever a block declared at its own depth is gone once the block is left |
| Symbols.ExitScopeUnused | src/Parser.cpp:49-65 | leaving a depth at which nothing is declared changes nothing |
| Scanner.ParseId | src/Scanner.cpp:101-122 | a keyword token is spelled as the word read; any other word becomes an identifier carrying that word |
| Scanner.DigitValue | src/Scanner.cpp:406-421 | a hexadecimal digit of either case has a value below 16, and a decimal digit has its numeric value |
| Scanner.DigitValueBound | src/Scanner.cpp:406-455 | a digit accepted in the hex, octal or binary state is below that base's radix |
| Scanner.Strtoll | src/Scanner.cpp:124-135 | the literal's value lies in 0..LLONG_MAX, equals the digit string's value whenever that fits, and is 0 for no digits |
| Scanner.GetToken | src/Scanner.cpp:164-822 | a call leaves a suffix of the input; Eof is returned only once the input is used up; any other token consumes at least one character |
| Scanner.ScanStart | src/Scanner.cpp:189-311 | the Start state leaves a suffix; it reaches Eof only with nothing left; any other token consumes input |
| Scanner.ScanId | src/Scanner.cpp:314-331 | the Id state leaves a suffix of the input and yields a token other than Eof |
| Scanner.ScanNumber | src/Scanner.cpp:333-404 | the Number state leaves a suffix and yields a token other than Eof |
| Scanner.ScanBased | src/Scanner.cpp:406-455 | the hex, octal and binary states always yield an integer literal |
| Scanner.ScanFloatingPoint | src/Scanner.cpp:457-472 | the state after `.` leaves a suffix and yields a token other than Eof |
| Scanner.ScanFraction | src/Scanner.cpp:474-493 | the fraction state leaves a suffix and yields a token other than Eof |
| Scanner.ScanExp | src/Scanner.cpp:496-515 | the state after `e` leaves a suffix and yields a token other than Eof |
| Scanner.ScanExpSign | src/Scanner.cpp:518-532 | the state after the exponent's sign leaves a suffix and yields a token other than Eof |
| Scanner.ScanExpTail | src/Scanner.cpp:535-549 | the exponent digits state always yields a float literal |
| Scanner.ScanString | src/Scanner.cpp:552-578 | the string state leaves a suffix and yields a token other than Eof |
| Scanner.ScanEscape | src/Scanner.cpp:581-654 | the escape state leaves a suffix and yields a token other than Eof |
| Scanner.EscapeChar | src/Scanner.cpp:583-637 | a one-letter escape stands for a control character (`\a` … `\v`, with `\e` as ESC), except `\\`, `\'` and `\"`, which stand for themselves, and only those three do |
| ScannerProps.EscapeDistinct | src/Scanner.cpp:583-637 | no two escape letters stand for the same character |
| Scanner.ScanEscapeHex1 | src/Scanner.cpp:657-673 | the first `\x` digit state leaves a suffix and yields a token other than Eof |
| Scanner.ScanEscapeHex2 | src/Scanner.cpp:676-693 | the second `\x` digit state leaves a suffix and yields a token other than Eof |
| Scanner.ScanNonEqu | src/Scanner.cpp:696-709 | the state after `!` leaves a suffix and yields a token other than Eof |
| Scanner.ScanLess | src/Scanner.cpp:712-725 | the state after `<` leaves a suffix and yields a token other than Eof |
| Scanner.ScanMore | src/Scanner.cpp:728-741 | the state after `>` leaves a suffix and yields a token other than Eof |
| Scanner.ScanAssign | src/Scanner.cpp:744-757 | the state after `=` leaves a suffix and yields a token other than Eof |
| Scanner.ScanStartComment | src/Scanner.cpp:760-772 | after `#` the lexer leaves a suffix, reaches Eof only with nothing left, and consumes input for any other token |
| Scanner.ScanComment | src/Scanner.cpp:775-787 | the line comment state keeps the same guarantees as the Start state it returns to |
| Scanner.ScanMulComment | src/Scanner.cpp:790-802 | the block comment state keeps the same guarantees |
| Scanner.ScanEndMulComment | src/Scanner.cpp:805-817 | the state after a `#` inside a block comment keeps the same guarantees |
| Scanner.Tokenize | src/Scanner.cpp:299-303 | the token stream of any input ends with Eof, and Eof appears nowhere before the end |
| ScannerProps.KeywordTable | src/Scanner.cpp:101-122 | a word is a keyword exactly when it is one of the eleven spellings, and each spelling gives its own keyword |
| ScannerProps.ScanIdWord | src/Scanner.cpp:314-331 | the Id state reads letters, digits and `_` up to the first other character, leaves that character unread, and classifies the word |
| ScannerProps.LexWord | src/Scanner.cpp:197-201 | a word starting with a letter or `_` lexes as its keyword or identifier with what follows left unread; it is an identifier exactly when no keyword is spelled like it |
| ScannerProps.SkipSpaces | src/Scanner.cpp:192-195 | white space before a token does not change the token or what follows it |
| ScannerProps.EndOfInput | src/Scanner.cpp:299-303 | the empty input yields Eof |
| ScannerProps.StrayCharacter | src/Scanner.cpp:304-308 | a character that starts no token yields the Null token and consumes only that character |
| ScannerProps.LexLess | src/Scanner.cpp:712-725 | `<=` is one token; `<` not followed by `=` is `<`, with the next character left unread |
| ScannerProps.LexMore | src/Scanner.cpp:728-741 | `>=` is one token; `>` not followed by `=` is `>`, with the next character left unread |
| ScannerProps.LexAssign | src/Scanner.cpp:744-757 | `==` is one token; `=` not followed by `=` is assignment, with the next character left unread |
| ScannerProps.LexNotEqual | src/Scanner.cpp:696-709 | `!=` is one token; `!` followed by anything else is the Null token and also consumes that next character |
| ScannerProps.ScanNumberDigits | src/Scanner.cpp:333-338 | the Number state accumulates decimal digits |
| ScannerProps.ScanBasedDigits | src/Scanner.cpp:406-455 | the hex, octal and binary states read their digits up to the first non-digit, leave it unread, and yield the `strtoll` value |
| ScannerProps.StartDigit | src/Scanner.cpp:203-207 | a digit enters the Number state with that digit read |
| ScannerProps.NumberEnds | src/Scanner.cpp:395-400 | a character that continues no number ends a decimal literal, is left unread, and the literal has the `strtoll` value |
| ScannerProps.LexDecimal | src/Scanner.cpp:333-404 | a run of decimal digits lexes as the saturated value of the digits, with what follows left unread |
| ScannerProps.LexBased | src/Scanner.cpp:341-381 | `0x`, `0o` and `0b` followed by digits lex as the value of those digits in base 16, 8 and 2 |
| ScannerProps.BadBasePrefix | src/Scanner.cpp:341-381 | a base letter after any digits other than a lone `0` is the Null token, and the letter is consumed |
| ScannerProps.IntRoundTrip | src/Scanner.cpp:124-135 | any natural number up to LLONG_MAX, written in base 10, 16, 8 or 2 with its prefix, lexes back to itself |
| ScannerProps.ScanFractionDigits | src/Scanner.cpp:474-493 | fraction digits up to a character that is neither a digit nor `e`/`E` give a float whose lexeme is everything read |
| ScannerProps.ScanExpTailDigits | src/Scanner.cpp:535-549 | exponent digits up to a non-digit give a float whose lexeme is everything read |
| ScannerProps.NumberDot | src/Scanner.cpp:383-387 | `.` after integer digits enters the floating point state |
| ScannerProps.NumberExp | src/Scanner.cpp:389-393 | `e` or `E` after integer digits enters the exponent state |
| ScannerProps.FloatingPointDigit | src/Scanner.cpp:457-472 | a digit after `.` enters the fraction state |
| ScannerProps.LexMantissa | src/Scanner.cpp:203-207 | a token starting with digits is read by the Number state with all those digits |
| ScannerProps.LexFraction | src/Scanner.cpp:383-493 | `digits . digits` lexes as a float whose lexeme is exactly the text read |
| ScannerProps.ScanExponent | src/Scanner.cpp:496-549 | after `e`, an optional sign and at least one digit complete a float with that lexeme |
| ScannerProps.NumberExponent | src/Scanner.cpp:333-549 | integer digits, `e`, an optional sign and digits lex as one float literal |
| ScannerProps.LexExponent | src/Scanner.cpp:333-549 | `digits e [sign] digits` lexes as a float whose lexeme is the text read |
| ScannerProps.FractionExponent | src/Scanner.cpp:457-549 | fraction digits followed by an exponent give one float literal |
| ScannerProps.NumberFractionExponent | src/Scanner.cpp:333-549 | integer digits, a fraction and an exponent give one float literal |
| ScannerProps.LexFractionExponent | src/Scanner.cpp:333-549 | `digits . digits e [sign] digits` lexes as one float whose lexeme is the text read |
| ScannerProps.ScanFractionDigitsThenExp | src/Scanner.cpp:474-493 | fraction digits followed by `e` or `E` move on to the exponent state with everything read so far |
| ScannerProps.FractionNeedsDigit | src/Scanner.cpp:457-472 | a `.` not followed by a digit is the Null token, and the character after `.` is consumed |
| ScannerProps.ExponentNeedsDigit | src/Scanner.cpp:496-532 | after `e` there must be a sign or a digit, and after a sign a digit; otherwise the Null token, with the offending character consumed |
| ScannerProps.LexExponentNeedsDigit | src/Scanner.cpp:389-532 | an exponent without digits makes the whole number the Null token |
| ScannerProps.ScanPlain | src/Scanner.cpp:552-578 | printable characters other than `"` and `\` stand for themselves inside a string literal |
| ScannerProps.ScanEncodedChar | src/Scanner.cpp:552-693 | each byte's literal spelling (its escape letter from the reverse table `\a \b \e \f \n \r \t \v \\ \"`, else itself when printable, else `\x` with two hex digits) reads back as that byte |
| ScannerProps.EscapeTableInverse | src/Scanner.cpp:583-637 | the lexer's escape table inverts the independent reverse table: `\a`→7, `\b`→8, `\e`→27, `\f`→12, `\n`→10, `\r`→13, `\t`→9, `\v`→11, `\\`, `\"`; and every accepted escape except `\'` is the one that table chooses |
| ScannerProps.ScanEncoded | src/Scanner.cpp:552-693 | an encoded payload followed by the closing `"` reads back as the payload |
| ScannerProps.StartString | src/Scanner.cpp:209-213 | `"` enters the string state |
| ScannerProps.StringRoundTrip | src/Scanner.cpp:552-693 | every byte string, spelled as a literal, lexes back to exactly that string with what follows left unread |
| ScannerProps.StringRejectsControl | src/Scanner.cpp:552-578 | a control character inside a literal (a raw newline included) is the Null token |
| ScannerProps.StringUnterminated | src/Scanner.cpp:552-578 | a literal that reaches the end of the input is the Null token |
| ScannerProps.StringRejectsEscape | src/Scanner.cpp:581-654 | a backslash before a character outside the escape table (other than `x`) is the Null token |
| ScannerProps.ScanBadHex | src/Scanner.cpp:657-693 | a non-hex character in a `\x` escape is the Null token |
| ScannerProps.StringRejectsHex | src/Scanner.cpp:645-693 | `\x` must be followed by two hexadecimal digits of either case, otherwise the literal is the Null token |
| ScannerProps.StartHash | src/Scanner.cpp:294-298 | `#` enters the comment-start state |
| ScannerProps.ScanCommentLine | src/Scanner.cpp:775-787 | a line comment is skipped up to and including its newline, and lexing restarts after it |
| ScannerProps.ScanCommentToEnd | src/Scanner.cpp:775-787 | a line comment without a newline runs to the end of the input |
| ScannerProps.LineComment | src/Scanner.cpp:760-787 | `#` text newline is invisible to the token stream |
| ScannerProps.LoneHash | src/Scanner.cpp:760-772 | the character after `#` is consumed even when it is a newline, so `#` alone on a line also hides the next line |
| ScannerProps.CommentAtEnd | src/Scanner.cpp:760-787 | a line comment on the last line ends the input |
| ScannerProps.ScanBlockBody | src/Scanner.cpp:790-817 | a block comment body is skipped up to the closing `##` |
| ScannerProps.ScanBlockToEnd | src/Scanner.cpp:790-817 | an unclosed block comment body runs to the end of the input |
| ScannerProps.BlockComment | src/Scanner.cpp:760-817 | `## body ##` is invisible to the token stream |
| ScannerProps.BlockCommentAtEnd | src/Scanner.cpp:760-817 | an unterminated block comment ends the input |
| Evaluation.TruncDiv | src/Parser_Expr.cpp:411-416 | C++ integer division: the quotient is truncated toward zero, the remainder is smaller than the divisor in magnitude, and it has the dividend's sign |
| Evaluation.Fold | src/Parser_Expr.cpp:294-615 | folding two constants fails exactly on division by a zero divisor, with "Cannot divide by zero"; a comparison gives 0 or 1; arithmetic gives an integer exactly for two integers, and then the exact integer result |
| Evaluation.Step | src/Parser_Expr.cpp:238-653 | one queue item keeps the register counter equal to the stack size and within ARCH_REG_NUM; an operand fails exactly when all registers are in use ("too complex") and otherwise is pushed; an operator with fewer than two operands fails; an operator replaces the top two entries by one and leaves the rest; code is only appended |
| Evaluation.Run | src/Parser_Expr.cpp:238-653 | evaluating a queue keeps the register invariant, only appends code, and can fail only with "too complex", "expected 2 arguments" or "divide by zero" |
| Evaluation.RunAppend | src/Parser_Expr.cpp:238-653 | evaluating a queue in two parts is evaluating it whole, and the first error stops the rest |
| Evaluation.Emitted | src/Parser_Expr.cpp:238-653 | the code printed by the time evaluation stops extends the code before it, and is the finished machine's code when evaluation succeeds |
| Evaluation.EmittedAppend | src/Parser_Expr.cpp:238-653 | what a queue in two parts prints is what the first part prints when it fails, and otherwise what the second part prints after it |
| Evaluation.Finish | src/Parser_Expr.cpp:655-677 | a constant result is pushed or put in r0; otherwise r0 is pushed when asked; a constant expression with an empty stack is an error |
| EvaluationProps.RegisterMode | src/Parser_Expr.cpp:241-651 | in register mode the postfix queue of a tree emits the reference code (left into r_k, right into r_k+1, combine) and leaves one result, exactly when the tree's register need fits ARCH_REG_NUM; otherwise it is "too complex" |
| EvaluationProps.RegisterModeLeftDone | src/Parser_Expr.cpp:618-651 | once a node's left operand is in registers, its right operand and operator complete the node's reference code or fail as too complex |
| EvaluationProps.RegisterModeRight | src/Parser_Expr.cpp:618-651 | the right operand goes to the next register and the operator combines the two into the lower one |
| EvaluationProps.StepApply | src/Parser_Expr.cpp:618-651 | an operator in register mode emits `r(n-2) = r(n-2) op r(n-1)` and leaves one accumulator |
| EvaluationProps.ApplyTop | src/Parser_Expr.cpp:618-651 | with both operands in registers, the operator writes `r(n-1) = r(n-1) op r(n)` after the right operand's code and frees the upper register |
| EvaluationProps.ImmediateMode | src/Parser_Expr.cpp:241-615 | an integer constant tree that fits the registers folds to its reference value, or to "divide by zero", and emits no code |
| EvaluationProps.StepFold | src/Parser_Expr.cpp:294-615 | an operator on two integer constants replaces them by the folded value, or fails on a zero divisor |
| EvaluationProps.FoldTop | src/Parser_Expr.cpp:294-615 | two folded constants on top of the stack are replaced by their folded value, or fail on a zero divisor, emitting no code |
| EvaluationProps.RightCombTooComplex | src/Parser_Expr.cpp:618-644 | the register bound is a real limit: `1 + (1 + …)` nested ARCH_REG_NUM deep is too complex in register mode |
| EvaluationProps.EmittedRegister | src/Parser_Expr.cpp:248-265 | register mode prints the reference code of a tree that fits; for a tree that does not, the loads and operations printed before the load that finds no free register are a proper prefix of it |
| EvaluationProps.EmittedImmediate | src/Parser_Expr.cpp:248-262 | immediate mode prints nothing for an integer constant tree, whether it folds or divides by zero |
| EvaluationProps.ComparisonDuals | src/Parser_Expr.cpp:428-607 | integer comparisons fold to 0 or 1; `<` and `>` (and `<=` and `>=`) mirror each other, and `<=`, `>=`, `!=` are the negations of `>`, `<`, `==` |
| EvaluationProps.PromotedComparison | src/Parser_Expr.cpp:428-607 | when double comparison is exact on converted integers, comparing an integer with a converted integer folds to the same 0 or 1 as comparing the two integers |
| EvaluationProps.TooManyRegisters | src/Parser_Expr.cpp:618-644 | any well-formed tree whose register need exceeds ARCH_REG_NUM is "too complex" when evaluated from an empty machine |
| ExpressionProps.PrecedenceByRank | src/Parser_Expr.cpp:22-67 | the pairwise push table is a strict order on three levels (`+ -` < `* /` < comparisons): an operator is pushed over a lower level and pops the same or a higher level; `(` holds every operator |
| Expressions.Kept | src/Parser_Expr.cpp:13-78 | an incoming operator pops exactly the stack entries above the topmost `(` or looser-binding operator |
| Expressions.Operation | src/Parser_Expr.cpp:13-78 | `ParserExprOperation` pushes the operator on top of a prefix of the stack, moves only what it popped to the output, loses nothing (multiset preserved), and pops nothing that binds at least as tight as the operator |
| Expressions.PopGroup | src/Parser_Expr.cpp:185-200 | `)` moves the entries above the topmost `(` to the output and drops that `(`, losing nothing else |
| Expressions.Absorb | src/Parser_Expr.cpp:131-214 | a token that does not end the expression keeps the bracket counter equal to the number of open `(` on the stack; data goes straight to the output; an identifier turns off constant folding |
| Expressions.Drain | src/Parser_Expr.cpp:216-225 | at the end of the expression the stack is emptied to the output top first |
| Expressions.InfixLoop | src/Parser_Expr.cpp:128-229 | the infix pass stops at a token that ends the expression with an empty stack, or fails only with "unknown name" or "expected left bracket"; it never reads backwards and only appends code |
| Expressions.Shift | src/Parser_Expr.cpp:176-229 | absorbing a token and fetching the next keeps the infix pass's guarantees |
| Expressions.CallSite | src/Parser_Expr.cpp:148-172 | a function name in an expression disables folding and keeps the infix pass's guarantees |
| Expressions.Expr | src/Parser_Expr.cpp:111-686 | a successful `expr` stops on a token that ends an expression at bracket depth 0 and never reads backwards |
| Expressions.Args | src/Parser.cpp:664-675 | a successful `args` stops on `)` and never reads backwards |
| Expressions.ArgsList | src/Parser.cpp:680-698 | a successful `argsList` stops on `)`; a token other than `,` or `)` gives "Expected \",\" after function argument" without consuming it |
| ExpressionProps.ArgsCompiled | src/Parser.cpp:664-698 | `args` over `a1 , … , an )` (variable expressions that fit the registers) succeeds on the `)` with the reference code of each argument followed by `push(r0)`, in order |
| ExpressionProps.ArgsListCompiled | src/Parser.cpp:680-698 | `argsList` over `, a1 , … , an )` does the same for the further arguments, and stops on `)` with nothing emitted when there are none |
| ExpressionProps.ShiftStep | src/Parser_Expr.cpp:131-229 | a token that neither ends the expression nor names a function is absorbed, and the pass continues with the next token |
| ExpressionProps.InfixRendered | src/Parser_Expr.cpp:128-229 | reading a fully parenthesised expression appends exactly its postfix form to the output |
| ExpressionProps.LeafStep | src/Parser_Expr.cpp:131-176 | a literal or a variable goes to the output |
| ExpressionProps.OpenStep | src/Parser_Expr.cpp:179-183 | `(` is pushed and counted |
| ExpressionProps.OperatorStep | src/Parser_Expr.cpp:24-30 | an operator right above `(` is pushed |
| ExpressionProps.CloseStep | src/Parser_Expr.cpp:185-200 | the `)` of a bracketed node leaves exactly the node's postfix form in the output |
| ExpressionProps.AbsorbOpen | src/Parser_Expr.cpp:179-183 | `(` goes on the stack and raises the bracket counter |
| ExpressionProps.InfixClose | src/Parser_Expr.cpp:185-200 | `)` with one operator above its `(` moves that operator to the output and lowers the counter |
| ExpressionProps.AbsorbClose | src/Parser_Expr.cpp:185-200 | the same for the state change alone |
| ExpressionProps.PopGroupOperator | src/Parser_Expr.cpp:188-199 | popping a group with one operator moves that operator and drops the `(` |
| ExpressionProps.InfixEnds | src/Parser_Expr.cpp:216-225 | with brackets closed and the stack empty, a terminator ends the pass with nothing changed |
| ExpressionProps.CompileVariables | src/Parser_Expr.cpp:111-686 | a parenthesised expression over variables compiles to the reference register code (plus `push(r0)` when asked) exactly when it fits the registers; otherwise it is "too complex" after printing a proper prefix of that code (the loads before the one with no free register) |
| ExpressionProps.CompileConstant | src/Parser_Expr.cpp:111-686 | a parenthesised integer constant expression compiles to one push or `r0 =` of its value, or fails on division by zero |
| ExpressionProps.ConstantQueue | src/Parser_Expr.cpp:231-686 | once the infix pass yields an integer tree's queue, `expr` emits its folded value |
| ExpressionProps.ShiftOperand | src/Parser_Expr.cpp:131-176 | a literal goes straight to the output |
| ExpressionProps.ShiftOver | src/Parser_Expr.cpp:32-69 | an operator that binds tighter than the stack's top is pushed over it |
| ExpressionProps.AbsorbOver | src/Parser_Expr.cpp:32-69 | the same for the state change alone |
| ExpressionProps.ShiftUnder | src/Parser_Expr.cpp:71-77 | an operator that does not bind tighter than a single stacked operator moves that operator to the output and takes its place |
| ExpressionProps.AbsorbUnder | src/Parser_Expr.cpp:71-77 | the same for the state change alone |
| ExpressionProps.OperationUnder | src/Parser_Expr.cpp:71-77 | `ParserExprOperation` pops one looser-or-equal entry and then pushes onto the empty stack |
| ExpressionProps.ShiftFirst | src/Parser_Expr.cpp:16-20 | an operator on an empty stack is pushed |
| ExpressionProps.AbsorbFirst | src/Parser_Expr.cpp:16-20 | the same for the state change alone |
| ExpressionProps.EndTwo | src/Parser_Expr.cpp:216-225 | a terminator drains two stacked operators top first |
| ExpressionProps.EndOne | src/Parser_Expr.cpp:216-225 | a terminator drains one stacked operator |
| ExpressionProps.MulBindsTighter | src/Parser_Expr.cpp:36-40 | `x + y * z` gives the queue `x y z * +` |
| ExpressionProps.ComparisonBindsTighter | src/Parser_Expr.cpp:46-50 | `x + y < z` gives `x y z < +`: comparisons bind tighter than `+` in this compiler |
| ExpressionProps.LeftAssociative | src/Parser_Expr.cpp:71-77 | `x - y - z` gives `x y - z -`: equal operators associate to the left |
| ExpressionProps.UnknownNameRejected | src/Parser_Expr.cpp:169-172 | a name that is neither a variable nor a function is an error at that name |
| ExpressionProps.CallNeedsBracketRejected | src/Parser_Expr.cpp:164-167 | a function name not followed by `(` is an error |
| ExpressionProps.CallWithoutArguments | src/Parser_Expr.cpp:148-167 | `f()` compiles to the call, then loading its return value into r0, then pushing r0 |
| ExpressionProps.UnclosedBracket | src/Parser_Expr.cpp:680-683 | an unclosed `(` still emits the value and then reports the bracket balance |
| ExpressionProps.UnclosedScan | src/Parser_Expr.cpp:179-225 | the unmatched `(` is drained into the queue behind the operand |
| ExpressionProps.UnclosedRun | src/Parser_Expr.cpp:238-653 | evaluation ignores a `(` left in the queue |
| ExpressionProps.CloseEndsExpression | src/Parser_Expr.cpp:185-225 | a `)` that closes nothing opened in the expression ends it and is left for the caller |
| Parser.TypeOf | src/Parser.cpp:213-221 | exactly `byte`, `int` and `float` name a value type, and none of them is a package |
| Parser.AddArg | src/Parser.cpp:338-353 | an argument appends its type to the function's signature, keeps its return type and the other functions, and declares at most one variable at the argument depth |
| Parser.DefArgs | src/Parser.cpp:311-403 | `defArgs` only appends non-package argument types to the current function and only declares variables one level deeper; success consumes input |
| Parser.DefArgsList | src/Parser.cpp:410-512 | `defArgsList` keeps the same guarantees for each further argument |
| Parser.FuncType | src/Parser.cpp:704-743 | the return type is accepted exactly for `byte`, `int`, `float` or `void`; it is then recorded (never a package) and nothing else changes; otherwise "Unexpected function return type" with the tables unchanged |
| Parser.AddField | src/Parser.cpp:540-557 | a field is added to its package only; all other packages and tables are untouched |
| Parser.PackItem | src/Parser.cpp:518-578 | `packItem` only adds value-typed fields to the current package, refuses an empty body, and on success the package has gained a field |
| Parser.PackItemList | src/Parser.cpp:584-658 | `packItemList` only adds value-typed fields to the current package and never removes one |
| Parser.Declaration | src/Parser.cpp:785-841 | a successful `TYPE ID ;` or `TYPE ID = expr ;` leaves exactly the tables `createVar` produces for that name; a failure changes no table |
| Parser.Body | src/Parser.cpp:749-1184 | a function body leaves functions and packages alone, keeps names distinct, never reads backwards, and on success returns to the depth it started at, having declared only at that depth |
| Parser.Enclosed | src/Parser.cpp:888-893 | a nested block raises the depth, and on success forgets everything it declared, giving back the enclosing tables |
| Parser.Block | src/Parser.cpp:965-976 | a compound statement's block followed by the rest of the body keeps the body's guarantees |
| Parser.ReturnStatement | src/Parser.cpp:844-869 | `return` statements keep the body's guarantees |
| Parser.Guarded | src/Parser.cpp:871-910 | `if` and `while` statements keep the body's guarantees |
| Parser.ElseStatement | src/Parser.cpp:913-981 | `else if` and `else` keep the body's guarantees |
| Parser.ForStatement | src/Parser.cpp:1024-1086 | `for` statements keep the body's guarantees |
| Parser.NameStatement | src/Parser.cpp:1099-1178 | statements starting with a name keep the body's guarantees |
| Parser.Assignment | src/Parser.cpp:1107-1129 | assigning to a name that is not a variable is refused at once; otherwise the body's guarantees hold |
| Parser.CallStatement | src/Parser.cpp:1131-1147 | call statements keep the body's guarantees |
| Parser.PackDeclaration | src/Parser.cpp:1149-1173 | `P x ;` with `P` not a package is refused at once; otherwise the body's guarantees hold |
| Parser.Prog | src/Parser.cpp:74-306 | the program rule only adds functions and packages, never changes a package once defined, keeps variable and function names distinct, and on success has declared only globals at depth 0 |
| Parser.Function | src/Parser.cpp:80-164 | a function definition keeps the program rule's guarantees |
| Parser.Header | src/Parser.cpp:111-158 | the argument list and what follows keep the program rule's guarantees |
| Parser.Signature | src/Parser.cpp:119-153 | the return type and the function's block keep the program rule's guarantees |
| Parser.FunctionBody | src/Parser.cpp:127-148 | leaving the function's block forgets its arguments and locals, and the rest of the program keeps the guarantees |
| Parser.Package | src/Parser.cpp:166-204 | a package definition keeps the program rule's guarantees |
| Parser.PackageBody | src/Parser.cpp:178-198 | a new package is entered empty and then filled only with its own fields |
| Parser.Parse | src/Parser.cpp:1190-1199 | a successful parse ends at depth 0 with every variable global and no name both a variable and a function |
| ParserProps.MoreArgsParsed | src/Parser.cpp:410-512 | `, TYPE ID … )` is accepted up to the `)`, declaring each argument in order |
| ParserProps.ArgumentsParsed | src/Parser.cpp:311-403 | a well-formed argument list is accepted up to and including its `)`, declaring each argument in order |
| ParserProps.DeclaredSignature | src/Parser.cpp:338-356 | the argument types are appended to the signature in order, the return type is kept, and other functions and packages are untouched |
| ParserProps.DeclaredVariables | src/Parser.cpp:338-356 | each fresh argument name becomes a variable of its type one level deeper than the function |
| ParserProps.DeclarationsKept | src/Parser.cpp:441-458 | an earlier variable survives later argument declarations of other names |
| ParserProps.ArgumentNamedAsFunction | src/Parser.cpp:338-356 | an argument named like its own function is refused silently: its type is still appended but no variable is entered |
| ParserProps.ListEnds | src/Parser.cpp:588-595 | `; }` ends the field list successfully with nothing changed |
| ParserProps.ListField | src/Parser.cpp:596-650 | `; TYPE ID` adds the field, or stops with the duplicate-field error naming it |
| ParserProps.FirstField | src/Parser.cpp:524-567 | the first field is added, or refused as a duplicate |
| ParserProps.MoreFieldsParsed | src/Parser.cpp:584-658 | the remaining fields are accepted exactly when all names are new, adding them all |
| ParserProps.FieldsParsed | src/Parser.cpp:518-578 | a package body is accepted exactly when its field names are new and pairwise different, adding one field per declaration |
| ParserProps.AddedFields | src/Parser.cpp:540-557 | a package ends up with its earlier fields plus one field of the declared type per new name |
| ParserProps.TopLevel | src/Parser.cpp:291-303 | at the top level the end of input is Ok with "Reached the end of the source file"; a bare name is "NYI"; other keywords and tokens are refused with their messages |
| ParserProps.GlobalDeclaration | src/Parser.cpp:227-248 | `TYPE ID ;` at the top level declares a global (through `createVar`) and hands over to the rest of the program |
| ParserProps.OneDeclarationEndsOk | src/Parser.cpp:74-306 | a program made of one global declaration ends with a plain Ok |
| ParserProps.FunctionRedefinition | src/Parser.cpp:90-107 | a function named like a variable or an existing function is refused with the message for each case |
| ParserProps.PackageRedefinition | src/Parser.cpp:178-198 | a package name may be defined only once |
| ParserProps.EmptyPackageRefused | src/Parser.cpp:569-572 | a package without fields is refused |
| ParserProps.AssignmentToUndefined | src/Parser.cpp:1107-1113 | assigning to a name that is not a variable is refused |
| ParserProps.UndefinedPackageRefused | src/Parser.cpp:1149-1172 | `P x ;` with `P` not a package is refused |
| ParserProps.PackageVariableNamedAfterPackage | src/Parser.cpp:1149-1165 | `P x ;` enters `P` as the package variable, and `x` is not declared |
| ParserProps.DeclarationThenBody | src/Parser.cpp:785-806 | `TYPE ID ;` in a body declares the name at the current depth and continues with the rest |
| ParserProps.RedeclarationContinues | src/Parser.cpp:792-806 | redeclaring a variable or function name in a body is silently ignored |
| ParserProps.BodyCloses | src/Parser.cpp:1093-1096 | `}` ends a body successfully with nothing changed |
| ParserProps.ElseBlock | src/Parser.cpp:965-976 | `else {` opens a nested block |
| ParserProps.BlockLocalForgotten | src/Parser.cpp:965-976 | a variable declared inside `else { … }` cannot be assigned after the block |
| ParserProps.FunctionEntered | src/Parser.cpp:84-111 | a fresh function name is entered with no arguments and no return type before its header is parsed |
| ParserProps.HeaderArguments | src/Parser.cpp:111-119 | the header's `(` hands over to the argument list, then to the signature |
| ParserProps.VoidSignature | src/Parser.cpp:119-137 | `: void {` records the void return type and enters the function's block |
| Preprocessor.GetToken | src/Preprocessor.cpp:47-254 | every token other than the end consumes input; the end is reached only with nothing left, after copying everything read, none of which could start a word |
| Preprocessor.Word | src/Preprocessor.cpp:237-251 | a word extends to the first character that is not visible or is `;`; that character is left unread and the word is replaced by its definition, if any |
| Preprocessor.Cmd | src/Preprocessor.cpp:92-121 | a directive writes nothing and yields a definition or an inclusion, consuming input |
| Preprocessor.IncStart | src/Preprocessor.cpp:123-139 | `$inc` yields an inclusion or one of its two errors, writing nothing |
| Preprocessor.IncScan | src/Preprocessor.cpp:141-159 | the file name is everything up to the first `"`, which is consumed; the scan fails exactly when there is no `"` left |
| Preprocessor.DefNameStart | src/Preprocessor.cpp:161-178 | white space before the name is skipped; the end of input is "Expected varible name to be defined" |
| Preprocessor.DefName | src/Preprocessor.cpp:180-200 | (corrected) the name yields a definition or the missing-name error, writing nothing |
| Preprocessor.DefNameAsWritten | src/Preprocessor.cpp:180-200 | (as written) the name yields a definition or the missing-name error, writing nothing |
| Preprocessor.DefValueStart | src/Preprocessor.cpp:202-219 | the value's leading white space is skipped; the definition keeps its name |
| Preprocessor.DefValue | src/Preprocessor.cpp:221-235 | the value is the rest of the line; the newline is consumed and not part of it |
| Preprocessor.Preprocess | src/Preprocessor.cpp:256-305 | an empty input writes nothing, keeps the definitions and succeeds |
| PreprocessorProps.WordAt | src/Preprocessor.cpp:237-251 | a visible character other than `$` starts a word that runs to the first non-word character |
| PreprocessorProps.PreprocessPlain | src/Preprocessor.cpp:263-300 | after a word the run continues from where the word ended |
| PreprocessorProps.WordReplacedOnce | src/Preprocessor.cpp:29-41 | a whole word is written once, replaced by its definition if it has one |
| PreprocessorProps.NotRescanned | src/Preprocessor.cpp:29-41 | a replacement is not expanded again: with `A` defined as `B` and `B` as `C`, `A` becomes `B` |
| PreprocessorProps.PreprocessSkip | src/Preprocessor.cpp:83-87 | a character that cannot start a word is copied and the run goes on |
| PreprocessorProps.ExpandsWithoutDirectives | src/Preprocessor.cpp:256-305 | text without `$` comes out as the reference word-by-word expansion, with the definitions unchanged and no error |
| PreprocessorProps.WordStep | src/Preprocessor.cpp:237-300 | a word moves the run and the reference expansion on by the same replaced text |
| PreprocessorProps.ExpandIdentity | src/Preprocessor.cpp:29-41 | with no definitions, text comes out unchanged |
| PreprocessorProps.CmdReads | src/Preprocessor.cpp:92-121 | a directive's name extends to the first white space |
| Preprocessor.ParseCmd | src/Preprocessor.cpp:10-24 | the command word is `$inc` exactly for `inc` and `$def` exactly for `def`; every other word is no command |
| PreprocessorProps.CommandRead | src/Preprocessor.cpp:92-121 | `$inc` and `$def` go on to their directive; any other word is "Unexpected preprocessor command" |
| PreprocessorProps.CommandUnterminated | src/Preprocessor.cpp:92-121 | a directive name cut off by the end of the input is reported (the original never stops here) |
| PreprocessorProps.UnknownCommandStops | src/Preprocessor.cpp:112 | an unknown directive stops the run with nothing written |
| PreprocessorProps.ValueRead | src/Preprocessor.cpp:202-235 | a value is the rest of its line, and the newline is consumed |
| PreprocessorProps.DefineDirective | src/Preprocessor.cpp:92-235 | `$def NAME VALUE` on a line of its own defines NAME as VALUE and consumes the line |
| PreprocessorProps.PreprocessDefine | src/Preprocessor.cpp:295-299 | the run continues after a definition with it in force, writing nothing |
| PreprocessorProps.DefinitionApplies | src/Preprocessor.cpp:295-299 | a defined word after its definition is replaced by the value |
| PreprocessorProps.LaterDefinitionWins | src/Preprocessor.cpp:298 | a later definition of a name replaces the earlier one |
| PreprocessorProps.EmptyDefinition | src/Preprocessor.cpp:189-192 | (corrected) a name alone on its line is defined as empty, and the next line is kept |
| PreprocessorProps.DefinitionSwallowsNextLine | src/Preprocessor.cpp:182-191 | (as written) a name alone on its line takes the next line as its value; with the newline tested first, that line is kept |
| PreprocessorProps.IncludeDirective | src/Preprocessor.cpp:123-159 | `$inc "FILE"` names the file up to the closing quote |
| PreprocessorProps.IncStartQuote | src/Preprocessor.cpp:123-159 | after `$inc `, a quote starts the file name, which runs to the next quote |
| PreprocessorProps.PreprocessInclude | src/Preprocessor.cpp:279-294 | an included file's output takes the directive's place and its definitions stay in force; a file that cannot be opened stops the run with "cannot find included file" |
| PreprocessorProps.IncludeWithoutQuote | src/Preprocessor.cpp:133-136 | `$inc` followed by anything but white space and a quote is "Expected file to include" |
| PreprocessorProps.UnterminatedInclude | src/Preprocessor.cpp:147-150 | a file name without its closing quote is refused |

## Left out

- Diagnostic output: the `printf` traces of the parser and the preprocessor ("Change scope", "Define new variable", "prep:") and the error printing of Error.cpp are not modelled.
- File I/O: the lexer and the preprocessor read a string instead of a `FILE*`. main.cpp (option handling, temporary files) is not part of this model.
- `$inc`: opening the file and running a nested preprocessor on it are a parameter (`Opener`). A file that opens is modelled by the text it produces and the definitions afterwards. The original ignores the nested run's result, and so does the model.
- Floating point: a float literal's value is kept symbolic (its lexeme). Folding with doubles goes through an abstract `FloatSem` (comparison and equality), because IEEE arithmetic is not modelled. The `strtod` conversion is not modelled.
- Evaluation.Fold: integer folding is exact; the 64-bit wrap-around of `i64` arithmetic on overflow is not modelled.
- Scanner.Strtoll: saturation at LLONG_MAX is modelled; `errno` is not.
- Scanner.ScanStart: states only suffix, progress and when Eof is reached. Skipping white space is stated by ScannerProps.SkipSpaces.
- Scanner.ScanBased: states only that the token is an integer literal. Its value is stated by ScannerProps.ScanBasedDigits and ScannerProps.LexBased.
- Scanner.ScanExpTail: states only that the token is a float literal. Its lexeme is stated by ScannerProps.ScanExpTailDigits.
- Scanner.ScanId: states only that the input left is a suffix and the token is not Eof. What the state reads is stated by ScannerProps.ScanIdWord and ScannerProps.LexWord.
- Scanner.ScanNumber: states only suffix and not Eof. The numbers it reads are stated by the ScannerProps integer and float lemmas.
- Scanner.ScanFloatingPoint: states only suffix and not Eof (see ScannerProps.LexFraction).
- Scanner.ScanFraction: states only suffix and not Eof (see ScannerProps.ScanFractionDigits).
- Scanner.ScanExp: states only suffix and not Eof (see ScannerProps.ScanExponent).
- Scanner.ScanExpSign: states only suffix and not Eof (see ScannerProps.ExponentNeedsDigit).
- Scanner.ScanString: states only suffix and not Eof (see ScannerProps.StringRoundTrip).
- Scanner.ScanEscape: states only suffix and not Eof (see ScannerProps.ScanEncodedChar).
- Scanner.ScanEscapeHex1: states only suffix and not Eof (see ScannerProps.ScanBadHex).
- Scanner.ScanEscapeHex2: states only suffix and not Eof (see ScannerProps.ScanBadHex).
- Scanner.ScanNonEqu: states only suffix and not Eof (see ScannerProps.LexNotEqual).
- Scanner.ScanLess: states only suffix and not Eof (see ScannerProps.LexLess).
- Scanner.ScanMore: states only suffix and not Eof (see ScannerProps.LexMore).
- Scanner.ScanAssign: states only suffix and not Eof (see ScannerProps.LexAssign).
- Scanner.ScanStartComment: states only the progress guarantees (see ScannerProps.LineComment).
- Scanner.ScanComment: states only the progress guarantees (see ScannerProps.LineComment).
- Scanner.ScanMulComment: states only the progress guarantees (see ScannerProps.BlockComment).
- Scanner.ScanEndMulComment: states only the progress guarantees (see ScannerProps.BlockComment).
- Scanner.GetToken: states progress only; what each lexeme yields is stated lexeme by lexeme in ScannerProps.
- Expressions.Expr: states progress and the stopping token only; the code it emits is stated by ExpressionProps.CompileVariables, ExpressionProps.CompileConstant and the error lemmas.
- Expressions.Args: states progress and the stopping token only, because it is mutually recursive with `expr` and a code contract would have to carry `expr`'s. The code of a list of variable arguments is stated by ExpressionProps.ArgsCompiled; constant arguments and failing arguments are covered only by `expr`'s own contract.
- Expressions.ArgsList: states progress, the stopping `)` and the missing-`,` error only, for the same reason. The code of further arguments is stated by ExpressionProps.ArgsListCompiled.
- Scanner.EscapeChar: its contract does not name each letter's character. The table is stated by ScannerProps.EscapeTableInverse against the independent reverse table ScannerProps.EscapeLetter, which the string round trip uses.
- Parser.Body: states the invariant every statement keeps; individual statements are covered by the ParserProps lemmas, not by one end-to-end characterisation.
- Parser.Prog: states the invariant of the program rule, not the full grammar; the top-level cases are stated by ParserProps.TopLevel and the following lemmas.
- Preprocessor.Preprocess: its own contract covers only the empty input; each directive and plain text are characterised by the PreprocessorProps lemmas. It reads a `$def` name with the corrected Preprocessor.DefName (see Findings), so a name alone on its line is defined as empty; what the code as written does there is stated by Preprocessor.DefNameAsWritten and PreprocessorProps.DefinitionSwallowsNextLine.
- Preprocessor.GetToken: after `$def` it reads the name with the corrected Preprocessor.DefName (see Findings), not as written; the written behaviour is stated by Preprocessor.DefNameAsWritten and PreprocessorProps.DefinitionSwallowsNextLine.
- Preprocessor.DefNameStart: hands the name to the corrected Preprocessor.DefName (see Findings), not to Preprocessor.DefNameAsWritten.
- Preprocessor.Cmd: reads a `$def` name through the corrected Preprocessor.DefName (see Findings). At the end of the input the original keeps adding EOF to the command name forever; the model reports "Unexpected end of input in preprocessor command" instead.
- An `operationStack[0]` read on an empty stack (a constant expression with nothing in it) is undefined behaviour in the original; the model reports an error.
- Commented-out code is not modelled: struct arguments (Parser.cpp:368-392, 472-497) and struct return types (Parser.cpp:731-734). The `Creating packages as arguments is not yet implemented` error is modelled.
- The source's `KeywordType::Null` and `Parser::VarType::Struct` are never produced by the live code and are omitted.

## Findings

| source | as written | input that shows it | evidently intended | confidence | as-written member | corrected member |
|---|---|---|---|---|---|---|
| src/Preprocessor.cpp:182-191 | `DefVarId` tests `isspace` before `== '\n'`. A newline is white space, so the end-of-line branch never runs. The newline then leads into value capture, which skips blank lines and takes the next line as the value. | `$def X` newline `int y;` newline defines `X` as `int y;`, and the line `int y;` disappears from the output | a name alone on its line is defined as empty, and the next line is kept | not executed | Preprocessor.DefNameAsWritten, PreprocessorProps.DefinitionSwallowsNextLine | Preprocessor.DefName, PreprocessorProps.EmptyDefinition |
