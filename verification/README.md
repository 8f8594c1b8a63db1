# mt_rust interpreter core in Dafny

This project models the front half and the evaluator of `mt_rust`, a small
interpreter written in Rust, and proves properties of the model. The pipeline is:

- **Lexer** (`src/lexer.rs`): a single-pass character scanner. It produces
  - single-character punctuation tokens;
  - greedy integer and float literals;
  - double-quoted strings with no escapes;
  - `Illegal(ch, position, line)` for every other character, letters included;
  - a final `Eof`.

  Whitespace and newline tokens are then filtered out.
- **Parser** (`src/parser.rs`): a recursive-descent parser over a token vector with a cursor.
  - It has one precedence tier per function: `or`, `and`, `equality`, `comparison`, `term`, `factor`, `prefix`, `atom`.
  - Every binary tier is a left-folding loop.
  - The only statements are `print expr ;` and `expr ;`.
- **Evaluator** (`src/eval.rs`):
  - `+ - * /` on two `i64`s and on two floats, and `+` on two strings.
  - Every expression form other than an integer, float or string literal or a binary node evaluates to `Null`; that includes boolean literals.
  - One value per expression statement; one printed value per print statement.
- **Environment** (`src/environment.rs`): a chain of scopes with `define`, `get` and `assign`.

## Modules

| file | module | source |
|---|---|---|
| `results.dfy` | `Results` | `Option` and `Result` |
| `tokens.dfy` | `Tokens` | `src/tokens.rs` |
| `ast.dfy` | `Ast` | `src/ast.rs` |
| `lexer.dfy` | `Lexing` | the scanner |
| `lexer_props.dfy` | `LexerProperties` | properties of the scanner |
| `parser.dfy` | `Parsing` | the parser |
| `parser_roundtrip.dfy` | `ParserRoundTrip` | a printer with minimal parentheses, and the proof that the parser reads back every tree it can build |
| `parser_props.dfy` | `ParserProperties` | statements, whole programs, precedence and associativity examples, error paths |
| `eval.dfy` | `Evaluation` | the evaluator |
| `eval_props.dfy` | `EvaluationProperties` | properties of the evaluator |
| `environment.dfy` | `Environments` | the scopes |
| `pipeline.dfy` | `Pipeline` | lex, parse, eval as one turn of the read-eval loop, without I/O |

## How the model follows the code

**Failures are values.** Where the source panics, unwraps `None` or loops forever, the model returns a value instead:

- the lexer returns a `LexError`:
  - `back_char` after a number that ends the input;
  - an integer literal too large for `i64`;
  - a string with no closing quote, where the source reads NUL characters forever.
- `consume` returns `Step.Panicked`.
- The parse loop returns `ParseOutcome.Stuck` when a failed statement consumed nothing. The source then repeats the same iteration forever.
- The evaluator returns a `RuntimeError`:
  - mismatched operand kinds;
  - an operator it has no arm for;
  - `i64` overflow (the panic of a debug build);
  - a zero divisor;
  - `i64::MIN / -1`.

**The parser as a level ladder.** The six binary tier functions of the source are one function `ParseLevel(k, ..)`:

- levels 7 down to 2 are `or`, `and`, `equality`, `comparison`, `term`, `factor`;
- level 1 is `prefix`; level 0 is `atom`.
- `FoldTier(k, ..)` is the loop of tier `k`.
- `OperatorRank(tok)` names the tier whose loop consumes `tok`.

`term` and `factor` test the token by matching on `peek` rather than calling `expect`. That is the same thing here, because no operator token is `Eof`.

**Where the code does less than its declared types suggest.** The model follows the code in each of these cases:

- The parser has no statements besides `print` and expression statements, and no identifiers or assignment.
- The evaluator ignores prefix operators and booleans: `-5` evaluates to `Null`.
- The lexer does not back up before a `.` that is not followed by a digit. So `1.;` lexes as the float literal `1.` followed by `;`.
- A failed statement keeps the tokens it consumed. So `- - 1;` is read as `-1;`: the first attempt fails after consuming one `-`, and the loop resumes after it.

## Model

| member | source | states |
|---|---|---|
| Lexing.New | src/lexer.rs:13-24 | The scanner starts at index 0 on line 1, having already read the first character. |
| Lexing.ReadChar | src/lexer.rs:27-35 | `read_char` moves to the read position, with the next read one further on, keeps the input and line, and yields the character there, or NUL past the end. Inside the input it keeps the scanner consistent and steps exactly one index forward. |
| Lexing.BackChar | src/lexer.rs:37-41 | `back_char` succeeds exactly when the index it steps back to lies inside the input; the next `read_char` then re-reads that index. |
| Lexing.ReadDigits | src/lexer.rs:47-51 | The digit loop collects exactly the maximal run of digits and stops on the first non-digit. |
| Lexing.ReadNumber | src/lexer.rs:44-65 | A number yields an `Integer` or `Float` token. It leaves the line unchanged and the read position strictly inside the input. |
| Lexing.ReadFraction | src/lexer.rs:52-60 | After a point, the result is a `Float` token and the read position stays inside the input. |
| Lexing.ReadString | src/lexer.rs:67-75 | A string succeeds exactly when a `"` follows the opening one. It then stops on that closing quote, and its token holds exactly the characters between the quotes. Otherwise it is `UnterminatedString` at the opening quote. |
| Lexing.ReadStringBody | src/lexer.rs:70-72 | The body loop ends exactly at the next `"`, having appended every character before it; with no `"` left it reports the string as unterminated. |
| Lexing.MatchToken | src/lexer.rs:77-110 | `Eof` is produced exactly at NUL, and a newline raises the line count by one. Any other token moves the read position forward. |
| Lexing.CharToken | src/lexer.rs:78-108 | A single-character arm yields `Eof` exactly for NUL. It never yields a newline, number or string token. |
| Lexing.LexLoop | src/lexer.rs:125-131 | A successful scan is non-empty and ends with `Eof`. |
| Lexing.StripWhitespace | src/lexer.rs:112-122 | Stripping never lengthens the list and leaves no `WhiteSpace` or `NewLine`. It is the identity when it removes nothing, and it keeps a non-blank last token last. |
| Lexing.Lex | src/lexer.rs:125-137 | `lex` fails exactly when its scanning loop does. On success the tokens end with `Eof` and hold no `WhiteSpace` or `NewLine`. |
| LexerProperties.StripAppend | src/lexer.rs:112-122 | Stripping distributes over concatenation, so surviving tokens keep their order. |
| LexerProperties.StripKeepsVisible | src/lexer.rs:112-122 | A list with no `WhiteSpace` or `NewLine` passes through unchanged. |
| LexerProperties.StripMembers | src/lexer.rs:112-122 | The stripped list holds exactly the non-blank tokens of the input list. |
| LexerProperties.StripIdempotent | src/lexer.rs:112-122 | Stripping twice equals stripping once. |
| LexerProperties.StripShape | src/lexer.rs:136 | A list ending in its only `Eof` still ends in its only `Eof` after stripping. |
| LexerProperties.LexShape | src/lexer.rs:125-136 | A successful `lex` ends with exactly one `Eof`, has no other `Eof`, and has no `WhiteSpace` or `NewLine`. |
| LexerProperties.LexLoopSingleEof | src/lexer.rs:125-131 | The scanning loop emits `Eof` only as its last token. |
| LexerProperties.LexLoopStep | src/lexer.rs:127-130 | One loop turn emits a non-`Eof` token and moves strictly forward. It counts one line per `NewLine`, and an `Illegal` token carries the current character, index and line. |
| LexerProperties.DigitStartsNumber | src/lexer.rs:97 | A digit is handed to `read_number`. |
| LexerProperties.DigitRun | src/lexer.rs:47-51 | A run of digits ended by a non-digit is read whole. The scanner then sits on the character after the run. |
| LexerProperties.IntegerLiteral | src/lexer.rs:44-64 | A maximal digit run not followed by `.` is one `Integer` token with the run's decimal value, and the next character is re-scanned. This holds exactly when the value fits `i64`; otherwise the result is `IntegerOutOfRange`. |
| LexerProperties.FractionRead | src/lexer.rs:52-60 | After the point, the digits are kept in the literal text. The read fails exactly when they end the input. |
| LexerProperties.FloatLiteral | src/lexer.rs:44-60 | `digits . digits*` is one `Float` token with that exact text, and the character after it is re-scanned. When the literal ends the input, the result is `NumberAtEndOfInput`. |
| LexerProperties.NumberAtEnd | src/lexer.rs:59-63 | A number that runs to the end of the input makes `back_char` fail. |
| LexerProperties.StringLiteral | src/lexer.rs:67-75 | `"` yields a `String` token holding exactly the characters up to the next `"`. Scanning resumes after the closing quote. |
| LexerProperties.UnterminatedStringLiteral | src/lexer.rs:67-75 | A `"` with no closing `"` is reported as `UnterminatedString` at the opening quote. |
| LexerProperties.PunctuationTokens | src/lexer.rs:80-103 | Each punctuation and blank character maps to its fixed token and is consumed alone. A newline also raises the line count. |
| LexerProperties.IllegalCharacter | src/lexer.rs:107-108 | Every unrecognised character, letters included, yields `Illegal` with the character, its index and the current line. |
| LexerProperties.MatchTokenIllegal | src/lexer.rs:108 | `match_token` builds `Illegal` only from the current character, index and line. |
| LexerProperties.IllegalPositions | src/lexer.rs:100-131 | Each `Illegal` token's index holds its character. Its line is the starting line plus the `NewLine` tokens before it, so newlines inside strings do not count. |
| LexerProperties.IllegalLines | src/lexer.rs:13-24 | For a whole input, an `Illegal` token's line is 1 plus the number of newlines lexed before it at top level. |
| Parsing.Peek | src/parser.rs:257-259 | `peek` yields a token of the vector, and `Eof` at the last position of a well-formed vector. |
| Parsing.Done | src/parser.rs:252-254 | `done` holds exactly on `Eof`, so always at the end of a well-formed vector. |
| Parsing.Expect | src/parser.rs:233-241 | `expect(t)` holds exactly when the cursor is on `t` and `t` is not `Eof`; `expect(Eof)` never holds. |
| Parsing.Previous | src/parser.rs:262-264 | `previous` yields the token just before the cursor. |
| Parsing.PreviousAfterAdvance | src/parser.rs:244-249 | After `advance` past a token that is not `Eof`, `previous` is that token. |
| Parsing.Advance | src/parser.rs:244-249 | `advance` moves one token forward except on `Eof`, and never leaves the vector. |
| Parsing.Consume | src/parser.rs:224-230 | `consume` succeeds exactly when `expect` holds, and then moves one token forward. Otherwise it panics with the given message. |
| Parsing.ParseExpression | src/parser.rs:77-79 | An expression parse consumes at least one token on success. It keeps the cursor in bounds, and builds only grammar trees. |
| Parsing.ParseLevel | src/parser.rs:81-186 | Every tier consumes at least one token on success. It keeps the cursor in bounds, and builds only trees whose binary operators belong to a tier. |
| Parsing.FoldTier | src/parser.rs:81-175 | A tier's loop never moves the cursor backwards or out of bounds. It builds only grammar trees. |
| Parsing.ParsePrefix | src/parser.rs:177-186 | `prefix` consumes at least one token on success. It builds a prefix node only for `-` or `!`. |
| Parsing.ParseAtom | src/parser.rs:188-222 | `atom` consumes at least one token on success and keeps the cursor in bounds. |
| Parsing.ParseStatement | src/parser.rs:56-62 | A statement is a print or expression statement over a grammar tree, and it advances the cursor. |
| Parsing.PrintStatement | src/parser.rs:64-69 | `print_statement` yields a `Print` node. |
| Parsing.ExpressionStatement | src/parser.rs:71-75 | `expression_statement` yields an expression statement node. |
| Parsing.Declaration | src/parser.rs:48-54 | `declaration` turns a failed statement into `None` with the cursor where the failure was found, and passes a panic on. It never moves the cursor back, and moves it forward when it yields a statement. |
| Parsing.Parse | src/parser.rs:32-46 | `parse` yields only print and expression statements over grammar trees. |
| Parsing.ParseFrom | src/parser.rs:35-44 | The loop only gets stuck at a token where a declaration consumes nothing and which is not `Eof`. |
| ParserRoundTrip.ParenAtom | src/parser.rs:214-218 | A parenthesised expression yields the inner tree with no extra node. |
| ParserRoundTrip.FoldOnce | src/parser.rs:81-175 | One turn of a tier's loop folds the right operand into a left-growing `Infix` node. |
| ParserRoundTrip.LiteralCase | src/parser.rs:190-213 | A literal token parses to the literal node with the same payload. |
| ParserRoundTrip.PrefixCase | src/parser.rs:177-186 | A prefix operator applies to the atom that follows it. |
| ParserRoundTrip.AtomCase | src/parser.rs:184 | Without a prefix operator, `prefix` is `atom`. |
| ParserRoundTrip.ParenCase | src/parser.rs:214-218 | A parenthesised expression parses to the inner tree, with the cursor after `)`. |
| ParserRoundTrip.DescendCase | src/parser.rs:81-175 | A tier whose loop finds no operator of its own returns the next tighter tier's tree. |
| ParserRoundTrip.InfixCase | src/parser.rs:81-175 | A binary node is read back with its left operand from the same tier and its right operand from the next tighter tier, which is left associativity. |
| ParserRoundTrip.EmitParses | src/parser.rs:77-222 | Every grammar tree, printed with minimal parentheses, is parsed back to itself by every tier that can hold it. The cursor ends just after it. |
| ParserRoundTrip.ExpressionRoundTrip | src/parser.rs:77-79 | `expression` reads back every grammar tree from its printed tokens. |
| ParserProperties.FailureRises | src/parser.rs:81-186 | A failure at `prefix` is the failure of every looser tier. |
| ParserProperties.NoOperand | src/parser.rs:220 | A token that cannot start an operand makes the expression fail with "Expected expression" without moving the cursor. |
| ParserProperties.StuckAtNonOperand | src/parser.rs:32-46 | If the cursor sits on a token that starts no statement, `parse` stops with no statements at `Eof` and is stuck anywhere else. |
| ParserProperties.StatementRoundTrip | src/parser.rs:48-75 | Every statement the parser builds is read back from its printed tokens, cursor after the `;`. |
| ParserProperties.PrintRoundTrip | src/parser.rs:64-69 | `print e ;` is read back as `Print(e)`. |
| ParserProperties.ExpressionStatementRoundTrip | src/parser.rs:71-75 | `e ;` is read back as an expression statement. |
| ParserProperties.ParseFromStep | src/parser.rs:35-44 | A parsed statement is kept in front of the rest, in source order. |
| ParserProperties.ParseFromSkip | src/parser.rs:35-44 | A failed statement that consumed tokens is dropped, and parsing goes on after it. |
| ParserProperties.ProgramFrom | src/parser.rs:32-46 | The parse loop reads a printed program back statement by statement. |
| ParserProperties.ParseRoundTrip | src/parser.rs:32-75 | `parse` reads back every program it can build, from its printed tokens followed by `Eof`. |
| ParserProperties.FactorBindsTighter | src/parser.rs:134-175 | `a + b * c` parses as `a + (b * c)`. |
| ParserProperties.SubtractionGroupsLeft | src/parser.rs:134-153 | `a - b - c` parses as `(a - b) - c`. |
| ParserProperties.ParenthesesRegroup | src/parser.rs:214-218 | `print (a + b) * c ;` parses as a print of `(a + b) * c` with no parenthesis node. |
| ParserProperties.DoublePrefixDropsFirst | src/parser.rs:177-186 | `- - n ;` fails on its first attempt after one `-`, so the parse yields `-n`. |
| ParserProperties.IllegalStartIsStuck | src/parser.rs:32-46 | A statement starting with an `Illegal` token consumes nothing, so the parse loop makes no progress. |
| ParserProperties.IntegerExpression | src/parser.rs:188-195 | An integer token not followed by a binary operator is a whole expression. |
| ParserProperties.MissingSemicolonAborts | src/parser.rs:71-75 | A missing `;` is a panic of the whole parse, not a dropped statement. |
| ParserProperties.MissingParenAborts | src/parser.rs:214-218 | A missing `)` is a panic of the whole parse. |
| ParserProperties.PrefixOfPrefixFails | src/parser.rs:177-186 | For every token vector, `-` or `!` followed by `-` or `!` fails with "Expected expression" at the second operator, and the declaration is dropped with the cursor there. |
| ParserProperties.ExpressionWithoutSemicolonAborts | src/parser.rs:71-75 | For every token vector, an expression statement whose expression is not followed by `;` ends `parse` with the panic "Expected ';' after expression.". |
| ParserProperties.PrintWithoutSemicolonAborts | src/parser.rs:64-69 | For every token vector, a print statement whose expression is not followed by `;` ends `parse` with the panic "Expected ; after print". |
| ParserProperties.UnclosedParenPanics | src/parser.rs:214-218 | For every token vector, `(` and an expression not followed by `)` is a panic of `atom` and of the whole expression, and at the start of a statement it ends `parse`. |
| Evaluation.Quotient | src/eval.rs:54 | `/` on `i64`s is the division-by-zero error exactly for a zero divisor and the overflow error exactly for `i64::MIN / -1`, and succeeds otherwise with an integer no larger in absolute value than the dividend. |
| Evaluation.Apply | src/eval.rs:36-58 | A binary operator yields an integer, float or string, never `Null` or a boolean. Its errors name the operator, and division by zero arises only from `/` on two integers with divisor zero. |
| Evaluation.EvalExpression | src/eval.rs:27-64 | Only a binary node can fail. No expression evaluates to a boolean, and the value is `Null` exactly for the forms without an arm. |
| Evaluation.EvalStatement | src/eval.rs:69-77 | A statement completes exactly when its expression evaluates. An expression statement then contributes its value to the result, a print statement its value to the output, and a failure contributes nothing. |
| Evaluation.Eval | src/eval.rs:66-81 | A completed run yields exactly one value or printed line per statement; a stopped run printed fewer lines than there are statements. |
| Evaluation.EvalLoop | src/eval.rs:66-81 | The loop over the statements returns what the recursive definition `Eval` returns. |
| EvaluationProperties.LiteralValues | src/eval.rs:28-62 | Integer, float and string literals evaluate with the same payload. Every form without an arm, including prefix and boolean, evaluates to `Null`. |
| EvaluationProperties.InfixOutcome | src/eval.rs:33-60 | A binary node evaluates its left operand first, then its right, and propagates the first failure. Its value is never `Null` or a boolean. |
| EvaluationProperties.ApplyKinds | src/eval.rs:36-58 | An operator other than `+ - * /` is `InvalidOperator`. One of those four with mismatched operand kinds is `InvalidTypes`, in both directions. A success keeps the operands' kind. |
| EvaluationProperties.StringConcatenation | src/eval.rs:40 | `String + String` concatenates. |
| EvaluationProperties.IntArithmetic | src/eval.rs:37-52 | `+ - *` on two `i64`s give the mathematical result exactly when it fits in an `i64`. Otherwise they give the overflow error. |
| EvaluationProperties.TruncDivRemainder | src/eval.rs:54 | Integer division leaves a remainder smaller than the divisor, with the sign of the dividend. That is, it truncates toward zero. |
| EvaluationProperties.TruncDivUnique | src/eval.rs:54 | That remainder condition determines the quotient. |
| EvaluationProperties.IntDivision | src/eval.rs:53-57 | `/` on `i64`s fails exactly on a zero divisor (division by zero) or on `i64::MIN / -1` (overflow). Otherwise it gives the truncated quotient. |
| EvaluationProperties.EvalCompleted | src/eval.rs:66-81 | `eval` completes exactly when every statement's expression evaluates. It then returns one value per expression statement and prints one value per print statement, both in order. |
| EvaluationProperties.EvalStopped | src/eval.rs:66-81 | When `eval` stops, it stops at the first failing statement, with its error, after printing exactly what the earlier statements print. |
| EvaluationProperties.EvalAppend | src/eval.rs:68-79 | Evaluating two statement lists one after the other is evaluating their concatenation. |
| Environments.New | src/environment.rs:12-17 | A fresh environment is one empty scope. |
| Environments.NewFrom | src/environment.rs:19-24 | `new_from` adds one empty scope in front of the parent's scopes. |
| Environments.Define | src/environment.rs:26-28 | `define` rewrites only the innermost scope. The enclosing scopes are unchanged. |
| Environments.Assign | src/environment.rs:40-49 | The only failure of `assign` is an undefined variable naming the variable. |
| Environments.Get | src/environment.rs:30-38 | `get` finds a value exactly when some scope binds the name. |
| Environments.GetInnermost | src/environment.rs:30-38 | `get` finds a value exactly when some scope binds the name, and then it is the innermost scope's binding. |
| Environments.NewIsEmpty | src/environment.rs:12-17 | A fresh environment binds nothing. |
| Environments.NewFromSees | src/environment.rs:19-24 | A new scope's `get` agrees with the parent's for every name. |
| Environments.DefineGet | src/environment.rs:26-32 | After `define`, `get` returns the new value for that name, shadowing any outer binding, and the old result for every other name. |
| Environments.AssignFails | src/environment.rs:40-49 | `assign` fails exactly when no scope binds the name, so it never creates a binding. |
| Environments.AssignScopes | src/environment.rs:41-45 | A successful `assign` rewrites the innermost binding scope and no other, and keeps the number of scopes. |
| Environments.AssignGet | src/environment.rs:40-49 | After a successful `assign`, `get` returns the new value for that name and the old result for every other name. |
| Pipeline.ParsedProgramsAreHandled | src/eval.rs:68-78 | Every statement the parser builds has an arm in `eval`. |
| Pipeline.Run | src/main.rs:26-30 | One turn fails in the lexer exactly when lexing fails, with the lexer's error. The lexer's tokens always meet the parser's demand that they end in `Eof`. A parser panic or endless loop ends the turn with that outcome, and a line is evaluated exactly when it parses, as the program the parser returned. |

## Left out

- I/O is not modelled: the REPL loop, stdin, stdout and file reading in `src/main.rs`, and `read_file`.
- The `println!` in `eval` is modelled as a list of printed values. `Display` formatting is not modelled.
- The lexer's debug dump of the token list is not modelled.
- Floating point is not modelled:
  - a float literal is kept as its text;
  - float arithmetic is kept as a symbolic tree (`FloatValue.Arith`);
  - no `f64` value is computed.
- `src/typechecker.rs` is a stub, and its call in `src/main.rs` is commented out.
- The unused `Precedence` enum of the parser is not modelled.
- Byte length and character index are assumed to agree. The input is treated as ASCII over `seq<char>`, so the byte-length test of `read_char` is not modelled.
- The `Statement` variants `If`, `IfElse`, `While`, `Let` and `Block` are declared only. So are the `Expression` variants `Identifier`, `Variable` and `Assign`. The parser never builds them and the evaluator has no arm for them.
- The environment is modelled on its own and is not wired into the evaluator. The source does not declare it as a module, and it needs `Value: Clone`, which `Value` does not derive.
- Each update of the environment returns a new environment; the source mutates a scope in place.
- Evaluation.Apply: overflow is modelled as the panic of a debug build. A release build wraps around instead, and that is not modelled.
- Evaluation.Eval: `eval` has no arm for the declared-only statement variants. The model requires every statement to be a print or expression statement, and `Pipeline.ParsedProgramsAreHandled` shows the parser meets that.
- Parsing.ParseFrom: the endless loop of `parse` on a statement that consumes no token is reported as `Stuck`, not run forever.
- Lexing.ReadStringBody: an unterminated string, which makes the source read NUL characters forever, is reported as `UnterminatedString`.
- The lexer has no round-trip property: printing a token list and lexing it back is not proved.
