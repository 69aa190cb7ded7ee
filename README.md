# A verified model of a toy MATLAB-to-C++ translator

`main.py` translates a small MATLAB-like language into a C++ program. It
builds a PLY lexer from the `reserved` table and the `t_` rules, and a PLY
parser from the `p_` functions, whose actions assemble C++ text bottom-up.
The script reads `input.m`, parses it, and writes `output.cpp`: an
`#include`/`main()` header, one line per translated source line, and a
closing `return 0; }`.

This project models that core in Dafny and proves properties of it:

- `wrappers.dfy` (`Wrappers`): `Option` gives Python's `None`; `Result` gives a raised exception.
- `lexer.dfy` (`Lexer`) is the scanner.
  - The token types and the `reserved` table.
  - Each token rule, as one step: `IdStep`, `StringStep`, `NumberStep`, `NewlineStep`, the literal rules, and the ignore and error rules.
  - The rule PLY picks at a position (`StepAt`), and the whole scan (`Lex`).
  - A `Lexer` class with the fields PLY's lexer object updates: `lexpos`, `lineno`, and the messages `t_error` prints. Its methods are proved against `StepAt` and `Lex`.
  - Rule priority follows PLY. Ignored characters come first. Then the function rules, in definition order. Then the string rules, longest regular expression first, ties in definition order.
  - Under that priority some token types are never produced. `==` scans as two EQUALS because `\=` is tried before `==`. `;` is claimed by SEMICOLON before COLON. The string rules `mod`, `if`, `return`, `end` and `\disp` are shadowed by `t_ID` or `t_NUMBER`; `t_ID` still types `if`, `return`, `end` and `disp` through `reserved`.
- `translator.dfy` (`Translator`) holds the semantic actions.
  - The syntax tree has one constructor per production.
  - Each `p_` action is a function from its children's values to its own.
  - A `TypeError` is raised when an `if` body is empty: its value is `None`, and `for l in t[3]` iterates it. It is modelled as `Failure(NoneNotIterable)`.
  - Each action's loop is also a method proved equal to its function.
- `parser.dfy` (`Parser`) is a recursive-descent reader of the same grammar.
  - It reads the types and texts of the tokens.
  - A printer maps each tree back to terminals.
  - Reader and printer are proved inverse on everything the scanner can produce.
- `pipeline.dfy` (`Pipeline`) is the top level: scan, parse, translate.

The model follows `main.py` as written:

- Every assignment becomes a declaration `auto x = e`. There is no set of declared names.
- There are no loops, no `mod`, no comments and no binary operators in the grammar.
- STRING tokens are scanned but no production uses them.

## Model

| member | source | states |
|---|---|---|
| Lexer.Classify | main.py:57-59 | An identifier lexeme is typed by `reserved` when it is a key, and as ID otherwise. Every non-ID type it gives has that lexeme as its one spelling. |
| Lexer.StringEnd | main.py:64-66 | `".*"` at a quote ends after the last quote before the line break. The match spans two quotes with no line break between them. No quote lies between the match's end and the line break. With no second quote on the line there is no match. |
| Lexer.NumberEnd | main.py:69-71 | `\d+\.?\d*` at a digit takes a number lexeme (digits with at most one point) that one more character cannot extend. |
| Lexer.MatchLiteral | main.py:31-54 | The string rule that wins at a position spells exactly the text it takes, one or two characters. A matching two-character rule (`++`, `>=`, `<=`, `--`) beats the one-character rule for its first character; otherwise the one-character rule for that character wins. It never has type COMPARISON, COLON or MODULO. No string rule matches outside the listed punctuation. |
| Lexer.PairKind | main.py:41-48 | The two-character rules that win are exactly `++`, `>=`, `<=` and `--`, each with its own spelling. |
| Lexer.SingleKind | main.py:31-52 | The one-character rules that win, one per punctuation character. `=` is EQUALS and `;` is SEMICOLON. |
| Lexer.IdStep | main.py:57-61 | `t_ID` takes the longest identifier, typed by `reserved`, as a token at the current line and offset. |
| Lexer.StringStep | main.py:64-66 | `t_STRING` yields a STRING token spelled as the input slice it matched, which reaches to `StringEnd`: just past the last quote on the line. |
| Lexer.NumberStep | main.py:69-71 | `t_NUMBER` yields a NUMBER token whose text is the longest number lexeme. |
| Lexer.NewlineStep | main.py:78-80 | `t_newline` takes the whole run of line breaks, yields nothing, and adds the run's length (its count of `\n`) to the line counter. |
| Lexer.SkipStep | main.py:83-85 | `t_ignore` and `t_error` move the position by one and yield nothing. `t_error` records the character with its line and offset. |
| Lexer.LiteralStep | main.py:31-54 | A string rule yields a well-spelled token of a type some input can produce; its type and length are the ones `MatchLiteral` chose, so the longest rule wins. |
| Lexer.StepAt | main.py:57-85 | The rule fired at a position, in PLY's priority order: `t_ID` exactly at a letter, taking the longest identifier typed by `reserved`; `t_STRING` exactly at a quote with a closing quote on the line; `t_NUMBER` exactly at a digit, taking the longest number; a string rule exactly where `MatchLiteral` finds one, taking what it chose. It always advances. The line counter grows by the line breaks passed and only on a newline run. Tokens come exactly from the token rules, and a message exactly from `t_error`. Blanks are ignored exactly at `' '` and `'\t'`. An illegal character is not a blank, a line break, a letter, a digit or listed punctuation. A quote is illegal when no second quote follows it on its line. |
| Lexer.LongestIdentifier | main.py:57-58 | At a letter `t_ID` fires, and its identifier cannot be extended by the next character. |
| Lexer.LongestNumber | main.py:69-70 | At a digit `t_NUMBER` fires, and its number cannot be extended by the next character. |
| Lexer.LexemesVerbatim | main.py:57-71 | Every token's text is the unaltered input slice at the token's offset. It is spelled as its type requires, and its type is never COMPARISON, COLON or MODULO. |
| Lexer.TokensInSourceOrder | main.py:57-85 | Tokens come out in source order and never overlap. |
| Lexer.LinenoCountsNewlines | main.py:78-80 | Every token's line number is 1 plus the count of line breaks before its offset. |
| Lexer.NewlineRunCounts | main.py:78-80 | A newline run yields nothing and raises the line counter by its length. Scanning resumes after the run, at a character that is not a line break. |
| Lexer.IllegalCharacterSkipped | main.py:83-85 | An illegal character yields no token and is reported with its line and offset. Scanning resumes one character later. |
| Lexer.ComparisonShadowed | main.py:37-38 | `==` scans as two EQUALS tokens at offsets 0 and 1, never as one COMPARISON. |
| Lexer.Lexer.constructor | main.py:88 | A fresh lexer is at offset 0, line 1, with no messages. |
| Lexer.Lexer.Skip | main.py:85 | `skip(n)` moves the position by `n`. |
| Lexer.Lexer.OnNewline | main.py:80 | The line counter grows by the count of `\n` in the matched text. |
| Lexer.Lexer.OnError | main.py:83-85 | The illegal character is reported at the current line and offset, and the position moves by exactly one. |
| Lexer.Lexer.FireRule | main.py:57-85 | One rule firing updates position, line counter and messages exactly as `StepAt` says, and hands back its token. |
| Lexer.Lexer.NextToken | main.py:229 | Fires rules until one yields a token or the input ends. The tokens still to come lose exactly the one handed back. Messages plus those still to come are preserved. |
| Lexer.Tokenize | main.py:229 | Pulling tokens from a fresh lexer until none is left gives exactly `Lex(data, 0, 1)`: all its tokens and all its messages. |
| Translator.DispText | main.py:214-222 | The `disp` text is `cout<<`, then the argument, then `<<endl`: twelve characters more than the argument. |
| Translator.DispAction | main.py:218-222 | The loop that copies the argument character by character builds exactly `DispText`. |
| Translator.ExprTextShape | main.py:109-121 | The text of an expression built from scanner lexemes is non-empty, has no `;` and no line break, and has as many `(` as `)`. |
| Translator.TokenTextShape | main.py:109-116 | A NUMBER or ID lexeme has no `;`, no line break and no parenthesis. |
| Translator.DispBalance | main.py:219-222 | `disp` adds no parenthesis to its argument's text. |
| Translator.StatementTextShape | main.py:180-192 | The text of an assignment or return built from scanner lexemes is non-empty and has no `;` or line break. |
| Translator.LineTerminated | main.py:140-148 | A statement or expression line built from scanner lexemes ends in exactly one `;`, with none before it. An `if` line is passed on unchanged. |
| Translator.IfText | main.py:151-172 | `p_ifstatement` raises exactly when the then-body, or the else-body of a two-armed `if`, is `None`. |
| Translator.IfStatementAction | main.py:151-172 | The loops of `p_ifstatement` build exactly `IfText`, raising in the same cases. |
| Translator.IfStatementRaises | main.py:156-172 | An `if` statement raises exactly when one of its bodies raises or is empty. |
| Translator.OneArmElseFree | main.py:156-162 | `else` occurs in a one-armed `if`'s text exactly when it occurs in the condition or in a body line. |
| Translator.ElseInsertedBeforeClose | main.py:163-172 | The two-armed text is the one-armed text with `}else{`, a line break and the else-lines inserted before the final `}` and line break. |
| Translator.BodyRaises | main.py:124-133 | A body's value is computed exactly when every one of its lines translates. |
| Translator.BodyNone | main.py:124-137 | A body's value is `None` exactly for the empty body. |
| Translator.BodyInOrder | main.py:124-133 | A non-empty body's value lists one text per line, in source order. Each text is that line's translation. |
| Translator.AssignAlwaysDeclares | main.py:180-183 | Every assignment line in a body is written as a declaration, `auto`, the target, `=`, the value and `;`, wherever it stands. |
| Translator.AssignTextParts | main.py:183 | In an assignment's text, the target lies between `auto ` and ` = `, has no blank in it, and the value's text follows. |
| Translator.AssignTextDetermines | main.py:183 | Two assignments with the same text have the same target and the same value text. |
| Translator.AppendLines | main.py:101-102 | The appending loop adds each line, then a line break, in order. |
| Translator.ProgramText | main.py:96-106 | The written text begins with the header and ends with the footer and a line break. |
| Translator.ProgramAction | main.py:92-106 | `p_program`'s loop writes exactly `ProgramText` of the body's value. |
| Translator.ProgramLineAt | main.py:100-102 | Line `i` of the body is written, with its line break, right after the header and the lines before it. |
| Translator.EmptyProgram | main.py:92-106 | An empty program writes only the header, the footer and a line break, whether `p_program` is handed `None` by `program : empty` or the empty body's value by `program : body`. |
| Translator.Translate | main.py:92-106 | The translation succeeds exactly when every line of the body translates. It then writes the header, each line's text followed by a line break in source order, the footer and a line break. |
| Translator.BodyTexts | main.py:124-133 | When every line of a body translates, its value is computed and lists the texts of all the body's lines in source order; the empty body contributes no text. |
| Translator.ArgsInOrder | main.py:200-211 | The argument list has one text per argument, in order, each the argument's translation. |
| Parser.BodyStopsAtNonLine | main.py:124-126 | A body ends only at the end of the input or before a terminal that cannot begin a line. |
| Parser.ExpressionRoundTrip | main.py:109-121 | Reading an expression's terminals gives the expression back, whatever follows. |
| Parser.GroupRoundTrip | main.py:119-121 | The same for a parenthesised expression. |
| Parser.DispRoundTrip | main.py:214-215 | The same for a `disp` call. |
| Parser.StatementRoundTrip | main.py:180-192 | Reading a statement's terminals gives it back. The only condition is that a bare `return` is not followed by the start of an expression. |
| Parser.AssignRoundTrip | main.py:180-181 | The same for an assignment. |
| Parser.ReturnRoundTrip | main.py:186-188 | The same for `return` with and without a value. |
| Parser.LineRoundTrip | main.py:140-143 | Reading a line's terminals gives the line back, whatever follows. |
| Parser.IfRoundTrip | main.py:151-153 | Reading an `if` statement's terminals, of either form, gives it back. |
| Parser.BodyRoundTrip | main.py:124-126 | Reading a body's terminals gives the body back, when what follows cannot begin a line. |
| Parser.ProgramRoundTrip | main.py:92-94 | Every body's terminals read back as that body, as a whole program. |
| Parser.LexedCanonical | main.py:57-71 | The scanner's tokens are canonical terminals: each spelled as its type requires. |
| Parser.ExpressionPrinted | main.py:109-121 | On canonical terminals, what an expression was read from is exactly its printed terminals. |
| Parser.StatementPrinted | main.py:180-192 | The same for statements. |
| Parser.LinePrinted | main.py:140-143 | The same for lines. |
| Parser.IfPrinted | main.py:151-153 | The same for `if` statements. |
| Parser.BodyPrinted | main.py:124-126 | The same for bodies. |
| Parser.ProgramInverse | main.py:92-94 | On canonical terminals the program reader and the printer are inverse: the terminals read as a body exactly when they are that body's terminals. |
| Pipeline.Run | main.py:225-229 | The input is accepted exactly when its tokens are the terminals of some syntax tree, and the run then writes that tree's translation. |
| Pipeline.ProgramReads | main.py:92-94 | Canonical terminals read as a program exactly when they are some body's terminals, and then as that body. |
| Pipeline.LinesValid | main.py:140-153 | Statement and expression lines of a body read from canonical terminals, at any depth, including lines in `if` bodies, carry lexemes the scanner produces. |
| Pipeline.AcceptedLinesTerminated | main.py:140-148 | In every program the scanner and parser accept, each statement or expression line at any depth, including lines in `if` bodies, is written with exactly one `;`, at its end. |

## Left out

- File I/O: `open`, `read`, `write` and `close` of `input.m` and `output.cpp` (lines 89, 106, 227-232) are parameters and results. `Run` takes the input text and answers the text written.
- Console output: the `print(t.type)` in `t_ID` and the message `t_error` prints. The model keeps the messages as `Diagnostic` records instead.
- PLY's LALR table construction, conflict reporting and parser driver. The parser is recursive descent over the same productions, with the lookahead the tables use. On the empty input, PLY resolves the reduce/reduce conflict between `program : empty` and `body : empty`. `EmptyProgram` shows both write the same text.
- Syntax-error recovery. `p_error` is not defined, so PLY reports the error and discards tokens and states to carry on. The model reports any syntax error as `None`.
- `\d` matches any Unicode decimal digit in Python 3. The model uses the ASCII digits only.
- Parser: it reads token types and texts only. Positions and line numbers are not used, as no action reads them.
- `p_expression_group` is defined twice, with the same rule and action. Python keeps the second; the model has the rule once.
- `function_args` cannot be reached from `program`. Its action is modelled by `ArgsValue` and `ArgsInOrder`, but no parser rule produces it.
- Run: the order of errors is not modelled. PLY runs each action as soon as it reduces, so an `if` with an empty body raises (line 159) before a syntax error later in the input is reached. `Run` parses the whole input first, so there a syntax error anywhere in the input takes precedence over an action that raises earlier.
- Integer and string widths: Python's integers and strings are unbounded, so no wrap-around is modelled.
