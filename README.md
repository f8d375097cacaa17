# A verified model of the code_calc front end

`code_calc.c` is the front end of a compiler for a tiny accumulator language: one
instruction per line, each an operator (`+ - * /`) with a number or a one-letter
variable operand, an assignment `= x`, or a bare `=` that ends the program. The
program reads the source into one buffer in which every line ends with `;`. It then
runs three passes over shared global state: a diagnostics log and a `removed_lines`
counter that turns positions back into user-visible line numbers.

1. The line filter (`validate_tokens`) drops every line the grammar rejects and logs it.
2. The token extractor (`extract_tokens`) turns each kept line into a token (`scan_one_token`).
3. The analyzer (`analize_tokens`) makes sure the token list ends with exactly one
   end-of-program token. It puts an assignment to the result variable `$` before that token.

The model is in five modules:

- `Tokens` (tokens.dfy): the token record (type, operation, payload) and the diagnostic
  record that replaces the formatted text of the error buffer.
- `Grammar` (grammar.dfy): a hand-written recogniser `IsValidLine` for the regular
  expression at code_calc.c:7. It comes with a generator (`Shape`, `Render`) and its
  inverse (`ShapeOf`), which show that the two describe the same set of lines.
- `Scanner` (scanner.dfy): `ScanOneToken`, which follows the branches of
  `scan_one_token`. `Meaning` is an independent reference semantics per line shape.
- `Lines` (lines.dfy): what the two buffer walks compute, as functions on the text of
  the buffer. `Segments` gives the `;`-terminated lines, `Accepted` the kept lines,
  `Join` the kept buffer, `Rejections` the log entries and `ValidTokens` the extracted
  tokens. It also has the lemmas relating them.
- `Compiler` (compiler.dfy): the session class. Its fields are the log and the
  `removed_lines` counter, and its methods are the three passes. Each works on arrays
  with loops, as the source does.
  - The buffer is an `array<char>` holding a NUL-terminated string.
  - `line` and `tmp` are local arrays.
  - The token list is an `array<Token>` and a count.

## Model

| member | source | states |
|---|---|---|
| `Grammar.SkipSpaces` | code_calc.c:230 | the first index at or after `k` that is not a space (or the end), with only spaces before it |
| `Grammar.DigitsEnd` | code_calc.c:264 | the end of the digit run starting at `k`: all digits before it, a non-digit or the end at it |
| `Grammar.RenderedIsValid` | code_calc.c:7 | every line of each of the three grammar shapes, with any padding, is accepted by the recogniser |
| `Grammar.ShapeOf` | code_calc.c:7 | every accepted line is the rendering of a well-formed shape (the converse of RenderedIsValid) |
| `Grammar.ValidLineChars` | code_calc.c:7 | an accepted line holds only spaces, operators, `=`, digits and lower-case letters, so no `;` and no NUL |
| `Scanner.OperationOf` | code_calc.c:233-249 | the operator switch never yields the end operation, and yields assignment exactly for `=` |
| `Scanner.DecimalValue` | code_calc.c:264-269 | the value of a run of `n` digits is below 10^n |
| `Scanner.DecimalValueFitsInt` | code_calc.c:269 | a run of at most nine digits has a value that fits a 32-bit `int`, so `atoi` cannot overflow on it |
| `Scanner.ScanOneToken` | code_calc.c:218-277 | the token is invalid exactly when the grammar rejects the line; otherwise it is well typed (variable with a name, literal with a value and an arithmetic operation, end marker with the end operation) |
| `Scanner.ScanRendered` | code_calc.c:230-270 | for every shape: operator and digits scan to a literal with that operation and the decimal value; operator and letter to a variable with that operation and name; `= x` to a variable with assignment and name `x`; bare `=` to the end-of-program token |
| `Scanner.ScanValidLine` | code_calc.c:271-274 | every accepted line scans to the meaning of its shape, which is never invalid |
| `Lines.SegmentsOfJoin` | code_calc.c:156-181 | splitting a buffer of `;`-terminated lines gives back exactly those lines, with nothing pending |
| `Lines.AcceptedAllValid` | code_calc.c:168-175 | the filter keeps every line exactly when every line is accepted, and filtering twice is filtering once |
| `Lines.RejectionsExact` | code_calc.c:174-180 | one diagnostic per rejected line and no other: it names line `base + index` for exactly the rejected indices, all are "unrecognised token", and their line numbers strictly increase |
| `Lines.ValidateIdempotent` | code_calc.c:156-187 | the filtered buffer splits into exactly the accepted lines, all of them accepted; filtering it again changes nothing and logs nothing |
| `Lines.ValidTokensOfAccepted` | code_calc.c:197-214 | the extracted tokens are the scans of the accepted lines, one per accepted line, in line order |
| `Lines.ExtractAfterValidate` | code_calc.c:206-210 | extracting from the filtered buffer gives the same tokens as extracting from the original one |
| `Lines.FilteredFits` | code_calc.c:157-160 | if no line of the buffer overflows the 500-character line buffer, no line of the filtered buffer does either |
| `Compiler.FirstEop` | code_calc.c:302-309 | the index of the first end-of-program token: none before it, one at it (or the count when there is none) |
| `Compiler.AnalyzerDiagnosticsCases` | code_calc.c:311-328 | at most one diagnostic; "missing end marker" exactly when there is no end-of-program token; none exactly when the only one is the last token |
| `Compiler.ReanalyzeTerminated` | code_calc.c:302-339 | an analyzed token list has its only end marker last, so analyzing it again logs nothing |
| `Compiler.StrCopy` | code_calc.c:165-170 | `strcpy` into `tmp` at offset `k` of the NUL-terminated `line`: its characters and its terminating NUL land there, and no other cell changes |
| `Compiler.AppendLine` | code_calc.c:170-172 | a kept line and its `;` are appended to `tmp`: the `;` overwrites the NUL that `strcpy` left, the offset grows by the line's length plus one, and no later cell changes |
| `Compiler.CopyBack` | code_calc.c:186 | the kept text and a terminating NUL are copied to the start of the buffer; the cells after the NUL keep their contents |
| `Compiler.Push` | code_calc.c:162 | one character is appended to the collected line |
| `Compiler.FilteringKeep` | code_calc.c:168-173 | the `;` of an accepted line adds it and its `;` to the kept text and counts it as kept |
| `Compiler.FilteringReject` | code_calc.c:174-179 | the `;` of a rejected line clears the flag and logs "unrecognised token" at `ln + removed_lines` |
| `Compiler.FilteringDone` | code_calc.c:184-187 | after the whole buffer, the kept text is the filtered buffer and holds no NUL, the flag says whether all lines were accepted, and `ln - l` is the number of rejected lines |
| `Compiler.ExtractingLine` | code_calc.c:203-210 | the `;` of a line keeps its token unless it is invalid; an invalid one adds one to the counter |
| `Compiler.Session.constructor` | code_calc.c:9-11 | a fresh session has an empty log and the counter at 1 |
| `Compiler.Session.ValidateTokens` | code_calc.c:145-188 | it stops with an overflow exactly when some line passes 499 characters. Otherwise the buffer becomes the accepted lines in order, each followed by `;`, and the cells after its NUL are unchanged. It returns true exactly when every line is accepted, logs exactly the rejections and adds their number to the counter |
| `Compiler.Session.FilterLines` | code_calc.c:156-182 | the filter's loop stops with an overflow exactly when some line passes 499 characters; otherwise it ends in the filter's state of the whole text: the kept text is the accepted lines joined, the counts are the number of lines and of accepted lines, the flag says whether all were accepted, and the log gained exactly the rejections |
| `Compiler.Session.FilterChar` | code_calc.c:161-181 | one pass of the filter's loop moves its state (collected line, kept text, counts, flag, log) to that of the text one character longer |
| `Compiler.Session.FilterLineEnd` | code_calc.c:164-181 | the end of one line moves the filter's state past the `;` and empties the collected line |
| `Compiler.Session.ExtractTokens` | code_calc.c:191-215 | it returns the number of accepted lines, and the tokens written are the scans of those lines in order. Token slots past the number of lines are unchanged, and the counter grows by the number of dropped lines |
| `Compiler.Session.ExtractLines` | code_calc.c:197-213 | the extractor's loop ends in the extractor's state of the whole text: the tokens written are the valid scans of all its lines in order, the counter gained the number of dropped lines, and no slot past the number of lines is written |
| `Compiler.Session.ExtractChar` | code_calc.c:199-211 | one pass of the extractor's loop moves its state (collected line, tokens, counter) to that of the text one character longer |
| `Compiler.Session.AnalyzeTokens` | code_calc.c:297-340 | `i` is the first end-of-program token, or the count. The call returns `i + 2` and leaves `tokens[0..i)` and everything from `i + 2` on unchanged. Slot `i` becomes the `$` assignment and slot `i + 1` an end-of-program token with the end operation, so it is the only end marker and the last one. It logs exactly the analyzer's diagnostic |

## Left out

- `main` (code_calc.c:56-96): argument handling, opening the input file, printing. Calls into the C library are not modelled.
- `serialize_input` (code_calc.c:124-142): reading the file with `fgets`. Its output, a `;`-separated NUL-terminated buffer, is the input of the model. This is also where blank lines are dropped, without touching the line counter. The model's filter therefore sees no blank lines, and an empty segment that does reach it is rejected like any other line.
- `print_tokens` (code_calc.c:280-294): debug output only.
- `is_valid_line` (code_calc.c:98-122): the POSIX regex calls and the `exit(-1)` path on a regex failure are not modelled. `Grammar.IsValidLine` is written from the pattern at code_calc.c:7.
- Compiler.Session.ValidateTokens: when a line is too long the source calls `exit(-3)`. The model returns `overflow` and promises nothing about the state, since the process ends there.
- Compiler.Session.ExtractTokens: it requires that no line passes 499 characters (`LinesFit`), since the source performs no check and would write past `line`. `Lines.FilteredFits` shows that the filter's output meets this whenever its input does. It also requires a token array at least as long as the number of lines, in place of the fixed `tokens[500]`.
- Compiler.Session.AnalyzeTokens: it requires room for two tokens after the first end-of-program token, in place of the fixed `tokens[500]`.
- Scanner.ScanOneToken: a literal's value is the unbounded decimal value of its digits. The source's `atoi` overflows on values past 2^31 - 1, and `num[100]` overflows on runs of 100 or more digits. `Scanner.DecimalValueFitsInt` gives a safe bound instead.
- Scanner.ScanOneToken: fields the source leaves uninitialised are modelled as `NoData` for a token's payload. The operation of a token for a rejected line is `End`; the source does not set it, and no later pass reads it.
- `tmp` is never NUL-terminated before `strcpy(buffer, tmp)` (code_calc.c:186). The model copies exactly the kept text and a NUL, which is the evident intent. `tmp` has the size of the buffer rather than 10000 cells.
- The diagnostics text: `sprintf` into the 2000-byte `error_buffer`, `error_cnt` as a byte offset, and a possible overflow of that buffer. Diagnostics are `(line, kind)` records, and the log's length plays the part of `error_cnt`.
- Optimisation, code generation, a modulo operator and division-by-zero warnings do not exist in `code_calc.c`, so they are not modelled. In particular `%` is not an operator of the grammar. The analyzer does not change the `removed_lines` counter.
