# Minilang compiler core in Dafny

Minilang is a small teaching language. A program is a list of `var x: int;` /
`var y: float;` declarations followed by statements: assignment, `print`,
`return`, `read` and `while … do … done`. Expressions are built from integer and
float literals, variables, `+ -` (lowest precedence) and `* / > <`. The
compiler is a chain of passes:

1. the lexer (`lex`), which turns text into tokens;
2. the recursive-descent parser (`parse`), which builds declaration and statement trees;
3. `build_symtab`, which maps each declared name to its type and rejects
   duplicate declarations;
4. `typecheck`, which annotates every expression with `int` or `float` and
   rejects mixed operands, mismatched assignments and float loop conditions;
5. two back ends that flatten expressions into temporaries:
   - `codegen` prints a C program: header, `main`, declarations, statements
     and a closing brace;
   - `tac_gen` prints three-address code: the statements only, with `return` kept.

The Dafny modules follow the passes:

- `Decimal`: digit strings and `str(int)`.
- `Tokens` and `Ast`: the data.
- `Errors`: the error values and the `Result` type.
- `Lexer`.
- `Parser`, with `ParserLaws` holding the round trip and grammar laws.
- `SymbolTable` and `TypeCheck`.
- `Lowering`: the flattening both back ends share.
- `Render`: how each instruction is printed.
- `FlatSemantics`: a symbolic reading of the flat code.
- `CodeGen` and `TacGen`.

Every pass is a pure function. A call of the source's `error(...)` becomes a
`Failure` value. So do the Python exceptions that sit on the same paths:
- an `IndexError` from reading past the end of the text or of the token list;
- a `KeyError` from looking up an undeclared name.

Both generators print as they go, so a generator that stops part-way returns
an `Emission` holding the instructions printed so far, the failure and the
temporary counter. Each generator keeps its temporary counter in a
module-level global that is never reset. The model passes it in and out as `n`;
it is 0 in a fresh process. An instruction (`Lowering.Instr`) stands for one
`print` call, and `Render.Render` gives its text for either back end.

## Model

| member | source | states |
|---|---|---|
| Lexer.Keyword | lexical_analyzer.py:101-118 | A word becomes an identifier token, carrying the word, exactly when it is none of `print return read var while do done int float`. It becomes a TYPE token exactly for `int` and `float`, and the token carries that name. |
| Lexer.LexSkipsComment | lexical_analyzer.py:49-51 | `#` discards everything up to and including the next newline. |
| Lexer.LexInt | lexical_analyzer.py:78-92 | A maximal digit run not followed by `.` is one integer token whose value is the decimal value of the digits. |
| Lexer.LexFloat | lexical_analyzer.py:83-89 | Digits, `.`, then a possibly empty digit run form one float token holding both digit strings. The scan resumes at the first non-digit after them. |
| Lexer.LexScansWord | lexical_analyzer.py:95-118 | A maximal run of letters, digits and `_`, starting with a letter or `_`, is one keyword or identifier token. |
| Lexer.LexRunsOffEnd | lexical_analyzer.py:48-99 | An integer, a float (digits, `.`, digits), a word or a comment that reaches the end of the text without a following character fails. The inner loops read one character past it. |
| Lexer.LexSpell | lexical_analyzer.py:9-122 | Round trip for any token sequence the lexer can produce. In such a sequence identifiers are non-keyword words, and float literals have a non-empty digit string before the point and a digit string after it. Write the sequence as text with one space after each token, and lexing that text gives back exactly those tokens. |
| Parser.Peek | parser.py:77-81 | Gives the kind of the first token, and nothing exactly when no tokens are left. |
| Parser.Consume | parser.py:70-75 | Succeeds exactly when the first token has the requested kind. It then returns that token and the tokens after it. Otherwise it fails: with an end-of-tokens error when the list is empty, else with an expected/found error naming both kinds. |
| Parser.ParseDecls | parser.py:91-95 | The declaration loop never grows the tokens. When it succeeds, the next token is not `var`. |
| Parser.ParseStmts | parser.py:108-112 | The statement loop never grows the tokens. When it succeeds, the next token cannot start a statement. |
| Parser.ParseExpr | parser.py:147-160 | An expression consumes at least one token. When it succeeds, the next token is not `+` or `-`. |
| Parser.ParseTerm | parser.py:162-183 | A term consumes at least one token. When it succeeds, the next token is not `*`, `/`, `>` or `<`. |
| ParserLaws.DeclsParse | parser.py:91-106 | Round trip for declarations: the tokens of any declaration list parse back to that list, up to a token that is not `var`. |
| ParserLaws.StmtParses | parser.py:114-145 | Round trip for each statement form: the tokens of any statement parse back to that statement, whatever follows. |
| ParserLaws.StmtsParse | parser.py:108-112 | Round trip for statement lists, up to a token that cannot start a statement. |
| ParserLaws.ExprParses | parser.py:147-202 | Round trip for expressions: the tokens of any expression, with binary operands in parentheses, parse back to that expression, up to a token that cannot continue it. |
| ParserLaws.ProgramParses | parser.py:83-89 | Round trip for whole programs: parsing the tokens of any program gives that program. |
| ParserLaws.TrailingTokensIgnored | parser.py:204 | The parser does not require the end of the tokens. Tokens that cannot continue the program are silently dropped. |
| ParserLaws.AdditiveOperatorsAssociateLeft | parser.py:147-160 | `a ± b ± c …` over atoms parses as a left-nested chain. |
| ParserLaws.MultiplicativeOperatorsAssociateLeft | parser.py:162-183 | `a * b / c > d …` over atoms parses as a left-nested chain. The comparisons share the level of `*` and `/`. |
| ParserLaws.MultiplicativeBindsTighterRight | parser.py:147-183 | `a + b * c` parses as `a + (b * c)`, for every additive and every multiplicative operator. |
| ParserLaws.MultiplicativeBindsTighterLeft | parser.py:147-183 | `a * b + c` parses as `(a * b) + c`. |
| ParserLaws.ReadStatementShape | parser.py:132-136 | `read` succeeds exactly when an identifier and `;` follow. The node keeps the whole identifier token. |
| ParserLaws.LoopBodyShape | parser.py:137-143 | A successful loop has `do`, then a statement list, then `done`. The node holds the condition and that list. |
| SymbolTable.AddDeclsSucceeds | build_symbol_table.py:15-19 | Adding declarations to a table succeeds exactly when their names are pairwise distinct and none is already in the table. |
| SymbolTable.BuildSymtabSpec | build_symbol_table.py:14-20 | Succeeds exactly when the declared names are distinct. The table then has exactly the declared names as keys, one entry per declaration, each mapped to its declared type. |
| SymbolTable.BuildSymtabRejectsFirstDuplicate | build_symbol_table.py:16-17 | On failure, the error names a declaration j that repeats an earlier name, and the declarations before j are distinct. So j is the first repeat. |
| SymbolTable.BuildSymtabOrderIrrelevant | build_symbol_table.py:14-20 | Reordering the declarations of a successful program gives the same table. |
| TypeCheck.CheckExpr | typecheck.py:44-59 | A successful check returns a tree that erases to the input. Every node carries the type the typing rules give it. |
| TypeCheck.CheckExprIffTypable | typecheck.py:44-59 | check_expr succeeds with type t exactly when the expression has type t under the rules: literals their own type, identifiers their declared type, operators the common type of both operands. |
| TypeCheck.TypeUnique | typecheck.py:53-59 | No expression has both types. |
| TypeCheck.CheckStmtIffOk | typecheck.py:22-42 | check_stmt succeeds exactly when the statement obeys the rules. An assignment's target must be declared with the right side's type. Printed and returned expressions must have some type. A loop condition must be an int and every body statement must obey the rules. `read` is not checked. |
| TypeCheck.Typecheck | typecheck.py:61-64 | A successful check keeps the declarations and returns annotated statements that erase to the input statements. |
| TypeCheck.TypecheckIffWellTyped | typecheck.py:61-64 | The pass succeeds exactly when every statement obeys the rules. |
| TypeCheck.FloatConditionRejected | typecheck.py:37-40 | A float loop condition is rejected before the body is looked at. |
| Lowering.Flag | codegen.py:46-49 | The conversion flag is `d` exactly for int and `f` exactly for float. |
| Lowering.ConversionFlags | codegen.py:44-57 | `print` ends with a `printf` of the expression's location using the flag of the expression's type. A `read` of a declared variable is one `scanf` using the flag of the variable's declared type. |
| Lowering.GenExpr | codegen.py:66-78 | Without a suggested location, flattening an expression advances the counter by one per literal and operator. A non-variable result lives in the last temporary drawn. |
| Lowering.GenExprDefinesFreshTemps | codegen.py:66-78 | The code for an expression assigns exactly the temporaries n+1, …, next, in order, and nothing else. |
| Lowering.GenStmtTempsFresh | codegen.py:38-64 | Every temporary a statement's code assigns, loop bodies and the loop refresh included, is one the statement itself drew: numbered above the counter it started from and at most the counter it ends with. |
| Lowering.GenStmtsTempsFresh | codegen.py:29-33 | Over a whole list of statements, every assigned temporary lies between the starting counter (exclusive) and the final counter (inclusive), so the shared counter hands out each temporary to one place only. |
| Lowering.LoopBodyKeepsGuard | codegen.py:58-64 | A loop body assigns only temporaries numbered above those of its condition. It never re-assigns the temporary holding the guard. |
| Lowering.LaterStatementsDrawFresh | codegen.py:89-90 | For statements generated one after another, no temporary assigned by the earlier ones is assigned again by the later ones. Each group's temporaries lie in its own counter range. |
| Lowering.GenExprLocation | codegen.py:66-78 | A variable is used in place with no code. Any other expression's result is in a temporary drawn by this call. |
| Lowering.WhileLoopShape | codegen.py:58-64 | A loop is: condition code, `while (g) {`, the body, the condition recomputed into g, `}`. For a literal condition the recomputation writes g. For an operator condition it never writes g, so the guard keeps its first value. |
| Lowering.BackendsAgreeOnAll | tac_gen.py:20-63 | On statements without `return`, the C and TAC generators emit the same instructions, draw the same temporaries and fail at the same place. |
| Lowering.UndeclaredTargetFails | codegen.py:39-57 | Assignment and `read` fail exactly when the target is undeclared. They then fail before emitting anything or drawing a temporary. |
| Lowering.GenStmtsAppend | codegen.py:89-90 | If the first list of statements generates without failure, generating the two lists one after the other emits the first list's code and then the second's. The counter passes from one to the other, and the result fails exactly when the second list does. |
| Lowering.GenStmtsStopsAt | codegen.py:89-90 | If statement j is the first with an undeclared target, the loop generates every statement before j in full, then stops with statement j's own output and failure. |
| Lowering.GenStmtsFailure | codegen.py:89-90 | A failing statement loop fails at the first statement with an undeclared target. Every statement before it has its targets declared. The output is the full code of those statements followed by what the failing statement printed, and the failure is that statement's. |
| Lowering.GenStmtsSucceed | codegen.py:89-90 | The statement loop runs to the end exactly when every assigned or read variable, at any loop depth, is declared. |
| Lowering.GenStmtsShape | codegen.py:38-64 | Statement code contains no header, `main` or declaration. Its braces balance when it succeeds. Over the whole code, it never closes more braces than it opens. |
| Render.TempNamesDistinct | codegen.py:29-33 | Two temporaries print the same, in either back end, exactly when they are the same temporary. |
| Render.VariableMeetsTemp | codegen.py:29-33 | A variable prints like a temporary only if its name has a temporary's shape. The names `t1` and `t_1` are such variables. |
| Render.FloatTextValue | codegen.py:67-70 | A printed float literal keeps its value. The integer part is the same number. The fraction, read over its own number of digits, is the same fraction. |
| Render.FloatTextCanonical | codegen.py:67-70 | A printed float literal, read back and printed again, gives the same text. |
| FlatSemantics.GenExprComputes | codegen.py:66-78 | Running an expression's code leaves, at its result location, the expression with each variable replaced by its current value. Variables, the input, the output and the temporaries numbered up to n are left as they were. |
| FlatSemantics.GenStmtsPerform | codegen.py:38-57 | For straight-line statements (assignment, print, read), running the generated instructions, with temporaries and variables as separate locations, and performing the statements directly agree on every variable, the remaining input and the printed output. |
| Render.PrintedNamesFaithful | codegen.py:29-33 | When no variable in play has a temporary's shape, two locations print the same exactly when they are the same location. Under that condition the printed names identify the locations of the instructions one to one. |
| FlatSemantics.TempCapture | tac_gen.py:14-25 | Temporaries are not renamed away from variables. With `t2` declared, `t2 = 7; print t2 + 1;` gives instructions that print 7 + 1, yet the printed code names both the variable and the literal's temporary `t2`. |
| FlatSemantics.RefreshUpdatesGuardOnlyForLiterals | codegen.py:58-64 | Recomputing a loop condition into the guard temporary stores the condition's current value only for a literal. For an operator the guard keeps its old value. |
| CodeGen.DeclLines | codegen.py:35-36 | One C declaration per variable, in declaration order, each with its declared type. |
| CodeGen.Codegen | codegen.py:80-92 | The C program begins with the header, `main` and the declarations. It fails exactly as the statement loop does and leaves the counter where the loop does. |
| CodeGen.CodegenSucceeds | codegen.py:88-90 | The C generator runs to the end exactly when every assigned or read variable is declared. |
| CodeGen.CodegenPreambleOnce | codegen.py:80-86 | The header is line 0 and only line 0, and `main` is line 1 and only line 1. Declarations are exactly lines 2 to 1+number of declarations. |
| CodeGen.CodegenBraces | codegen.py:80-92 | On success every brace is closed and the last line closes `main`. On failure `main` at least is left open. |
| CodeGen.CodegenDeclares | codegen.py:84-86 | Each declared variable appears as a C declaration of its type before any statement. |
| CodeGen.CodegenTextFrame | codegen.py:80-92 | The printed text is the include line, the `main` line, the declarations, the statements, and `}` when the generator runs to the end. |
| TacGen.TacGenShape | tac_gen.py:65-67 | Three-address code has no header, `main` or declarations. Its braces balance on success, which happens exactly when every assigned or read variable is declared. |
| TacGen.CodegenWrapsTac | tac_gen.py:8-67 | On programs without `return`, the C program is the three-address code wrapped in the preamble and a closing brace, with the same temporaries and the same failure. |
| TacGen.ReturnOnlyInTac | tac_gen.py:33-35 | For a lone `return e`, TAC computes e and returns its location, while the C program is only the preamble and `}`. |

## Left out

- The driver `minilang.py`: reading the program from standard input, choosing a pass, and printing to standard output. `Render.Output` models the printed text.
- The process exit in `error()`: an error is a `Failure` value. The generators keep what they printed before failing.
- Integer width: literals are unbounded naturals, as Python ints are.
- The `AST_RETURN` node: `AST_NODES.py` does not define it, so in the source every comparison with it raises NameError. The model treats `return` as a node kind of its own. This is the evident intent of the parser, typecheck and tac_gen.
- Floating point: a float literal is kept as its two digit strings. `Render.FloatText` prints Python's positional `repr` of them. Exponent notation for very large or small values is not modelled.
- Render.FloatTextValue: states that the printed literal keeps the value of its digits, which is what Python prints only up to 15 significant digits. Past that, `float(num)` rounds to the nearest double (`9007199254740993.0` prints as `9007199254740992.0`, `1.0000000000000001` as `1.0`), and the model does not round.
- FlatSemantics.GenStmtsPerform: holds for the instructions, where a temporary and a variable are different locations. The printed program names temporaries `t_N`/`tN` without avoiding variable names, so a declared variable of that shape can be overwritten (`FlatSemantics.TempCapture`). When no variable has a temporary's shape, printed names and locations correspond one to one (`Render.PrintedNamesFaithful`). The model does not restate the semantics over printed names.
- Character classes: `isspace`, `isdigit`, `isalpha` and `isalnum` are restricted to ASCII. Python also accepts other Unicode letters, digits and spaces.
- The `peek() is None` paths in the parser's error messages: the text of those messages is not modelled, only the failure.
- FlatSemantics: loops are not executed. It covers straight-line statements. The loop's behaviour is stated structurally by `Lowering.WhileLoopShape` and `FlatSemantics.RefreshUpdatesGuardOnlyForLiterals`.
- FlatSemantics: C block scoping is not modelled. In C, a literal loop condition refreshed inside the loop is a new declaration that shadows the guard.
- FlatSemantics: values are symbolic expressions over the initial variables. Arithmetic, division by zero and C's numeric conversions in `printf`/`scanf` are not evaluated.
- The global temporary counters: they are passed in and out as `n`. Their starting value across several runs in one process is left to the caller.
