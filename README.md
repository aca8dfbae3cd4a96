# 24-point web front end: the expression text pipeline

The website sends a handful of integers to a 24-point solver and shows the
answers. The solver runs as a native process behind the Node server or as a
WebAssembly module in the browser. The JavaScript around the solver does all
the text work, and this project models it:

- **Lexer.** `tokenize` cuts an infix expression into number, identifier
  and symbol tokens. A `-` becomes part of a number only where a negative
  literal is allowed.
- **Parser.** `parseToAst` is a recursive-descent parser over a shared
  cursor. It implements `+ -` below `* /` below postfix `!`, left-associative
  binary levels, function calls with argument lists, and parentheses.
- **LaTeX renderer.** `toLatex` and `infixToLatex` turn the tree into LaTeX.
  When lexing or parsing fails, they fall back to an escaped `\text{...}`.
- **Output scraping.** `stripPrompt` and `extractSolutions` (server) and
  `parseOutput` (browser) pull the answer expressions out of the solver's
  output. They de-duplicate the answers and cap them at a limit.
- **API validation.** `parseNumbers` (browser) reads the numbers from the
  input box. `isSafeNumber` and the request checks of the `/api/solve`
  handler validate a request on the server.

`app.js:36-227` is a verbatim copy of `server.js:46-235`. The model cites the
server's copy once for both.

Modules:

- `Base`: result types, character classes, `trim`, `lastIndexOf`, and
  `split(/\r?\n/)`.
- `Lexer`: a reference lexer `Lex`, and the `Tokenize` loop proved equal to
  it.
- `Parser`: reference grammar functions, and a `Parser` class whose methods
  move the cursor and are proved equal to them.
- `Unparse`: a printer from trees back to tokens, the proof that parsing
  undoes it, and the proof that the printed tokens, written out as text,
  lex back to themselves, so `infixToLatex` of printed text renders the
  tree it came from.
- `Latex`: the renderer as the source writes it, a corrected variant, and
  the fallback escape with its inverse. `infixToLatex`, and with it the
  scraping and the handler, renders as the source does. The corrected
  rule for `-` (see "## Findings") is stated and proved on its own, as
  `Latex.ToLatexCorrected`.
- `Scrape`: `stripPrompt`, the `ExtractSolutions` loop proved equal to a
  specification, and `parseOutput`.
- `Api`: `parseNumbers`, the printing of numbers and its round trip, and
  the `/api/solve` handler.

## Model

| member | source | states |
|---|---|---|
| Base.Trim | server.js:238 | the result has no space at either end, is a slice of the input, and everything cut off on either side is a space |
| Base.LastIndexOf | server.js:255 | -1 or the start of an occurrence of the pattern, with no occurrence further right |
| Base.SplitLines | server.js:252 | at least one line, and no line contains a line feed |
| Base.SplitLinesJoin | server.js:252 | without carriage returns, joining the lines with line feeds gives the text back |
| Base.SplitLinesOne | server.js:252 | a text without a line feed is a single line, carriage returns included |
| Base.SplitLinesCrLf | server.js:252 | a CR LF ends the line in front of it, and neither character stays in a line |
| Base.SplitLinesJoinCrLf | server.js:252 | lines without line feeds, joined with CR LF, split back into exactly those lines, including lines that hold a lone CR |
| Base.TrimAfterSpaces | server.js:238 | leading spaces do not change the result of `trim` |
| Lexer.Lex | server.js:46-94 | the reference lexer `tokenize`: a left-to-right scan that reads one token at each non-blank character or fails on the first unknown one; `LexBlankFree` and `LexFails` characterise it completely |
| Lexer.DigitRunEnd | server.js:79 | the end of the maximal digit run starting at `j` |
| Lexer.SkipDigits | server.js:78-79 | the inner `while` loop stops at the end of the digit run |
| Lexer.SkipLetters | server.js:85-86 | the inner `while` loop stops at the end of the letter run |
| Lexer.ReadToken | server.js:57-91 | a token read at a non-blank character is non-empty and fits in the rest of the input |
| Lexer.ReadTokenMaximal | server.js:57-91 | a token fails exactly on an unknown character, and the error names that character; a token read is well formed, is the text at the cursor, is a negative literal only after an operator, `(`, `,` or at the start, and is maximal (the next character could not extend it) |
| Lexer.StepToken | server.js:57-91 | conversely, any well-formed, maximal token at the cursor is the one the lexer reads there |
| Lexer.Tokenize | server.js:46-94 | the loop returns exactly the reference lexer's result, tokens or error |
| Lexer.EmitNumber | server.js:62-83 | a digit, or a `-` followed by a digit where negatives are allowed, emits the whole digit run as one number |
| Lexer.EmitSymbol | server.js:57-75 | punctuation, and a `-` that cannot start a negative number, emit a one-character symbol |
| Lexer.EmitIdent | server.js:84-90 | a letter emits the whole letter run as one identifier |
| Lexer.LexJoin | server.js:46-94 | on success, the tokens are well formed and their texts concatenate to the input without its blanks |
| Lexer.LexFromFails | server.js:51-92 | from any cursor, the lexer fails exactly at the first unknown character and reports that character |
| Lexer.LexFails | server.js:91 | lexing fails if and only if the input holds a character outside the lexer's alphabet; the error names the first one |
| Lexer.LexOfJoin | server.js:46-94 | well-formed tokens that do not merge when written side by side are lexed back from their concatenation |
| Lexer.LexFromSeparated | server.js:46-94 | tokens lexed from blank-free text never merge with their neighbours |
| Lexer.LexBlankFree | server.js:46-94 | for blank-free text, `Lex(s) == Ok(ts)` holds exactly when `ts` is well formed, separated and concatenates to `s` |
| Lexer.SeparatedConcat | server.js:62-75 | two token runs that each lex back still do when written one after the other, provided the last token of the first does not merge with the next and a negative literal opening the second may start there |
| Parser.Parse | server.js:96-174 | the reference `parseToAst`: one expression from the first token on, and `extra tokens` when any remain; `ParseUnparse` gives its successes and the lemmas below its four errors |
| Parser.Expression | server.js:110-119 | a successful parse consumes at least one token and stays within the input |
| Parser.Term | server.js:121-130 | as for `Expression`, one precedence level down |
| Parser.Factor | server.js:132-139 | as for `Expression`, for postfix `!` |
| Parser.Primary | server.js:141-169 | as for `Expression`, for numbers, calls and parentheses |
| Parser.Arguments | server.js:153-158 | a successful argument list holds at least one argument and consumes tokens |
| Parser.Parser.constructor | server.js:97 | the cursor starts at 0 over the given tokens |
| Parser.Parser.Match | server.js:99-105 | steps over the next token exactly when its value is `v`, whatever its type |
| Parser.Parser.Expect | server.js:106-108 | as `Match`, and a miss is the error `expected v` |
| Parser.Parser.ParseExpression | server.js:110-119 | the method's result and final cursor equal the reference grammar's |
| Parser.Parser.ParseTerm | server.js:121-130 | the method's result and final cursor equal the reference grammar's |
| Parser.Parser.ParseFactor | server.js:132-139 | the method's result and final cursor equal the reference grammar's |
| Parser.Parser.ParseArguments | server.js:153-158 | the argument loop's result and final cursor equal the reference grammar's |
| Parser.Parser.ParsePrimary | server.js:141-169 | the method's result and final cursor equal the reference grammar's |
| Parser.ParseToAst | server.js:96-174 | the result is one expression with no tokens left over, or the parser's error |
| Parser.ParseWF | server.js:96-174 | a tree parsed from lexer output has numbers and names of the lexer's shapes |
| Parser.ParseFirstTokenErrors | server.js:141-172 | at the first token, no token gives `unexpected end`, a symbol other than `(` (so `-` before `(`) gives `unexpected token` naming it, and a name without a following `(` gives `expected (` |
| Unparse.ParseUnparse | server.js:96-174 | parsing the minimally parenthesised printing of any well-formed tree gives that tree back |
| Unparse.ExprFull | server.js:110-119 | the printing of a tree at the `+`/`-` level, followed by a token that ends an expression, parses to that tree |
| Unparse.TermFull | server.js:121-130 | the same at the `*`/`/` level |
| Unparse.FactorFull | server.js:132-139 | the same at the `!` level |
| Unparse.PrimaryFull | server.js:141-169 | the same for a primary: a number, a call, or a parenthesised lower-level tree |
| Unparse.ArgsFull | server.js:153-158 | a printed argument list before `)` parses to the call's arguments |
| Unparse.UnparseSeparated | server.js:46-94 | the printed tokens of a well-formed tree are well formed and no two neighbours would be lexed as one; in particular each `-` operator follows an operand, so it never absorbs a following digit |
| Unparse.PrintedTextLexes | server.js:46-94 | lexing the printed tokens, written side by side without blanks, gives exactly those tokens back |
| Unparse.InfixToLatexOfPrinted | server.js:226-235 | `infixToLatex` of the printed text of a well-formed tree is that tree's LaTeX as the source renders it, never the `\text{...}` fallback |
| Unparse.InfixToLatexLosesGrouping | server.js:202 | as written, `infixToLatex` gives the texts `1-(2+3)` and `1-2+3` the same LaTeX, `1 - 2 + 3` |
| Unparse.ParseDanglingOperator | server.js:110-143 | a printed expression followed by `+`, `-`, `*` or `/` and nothing else gives `unexpected end` |
| Unparse.ParseMissingOperand | server.js:141-168 | a printed expression, an operator and then a symbol other than `(` give `unexpected token` naming that symbol |
| Unparse.ParseExtraTokens | server.js:171-172 | a printed expression followed by a token no operator loop takes (`)`, `,`, a number or a name) gives `extra tokens` |
| Unparse.ParseUnclosedParen | server.js:162-166 | `(`, a printed expression, and then no `)` gives `expected )` |
| Latex.Render | server.js:176-224 | `toLatex` for either rule for `-`; the lemmas below fix how each node kind renders |
| Latex.ToLatex | server.js:176-224 | `toLatex` as the source writes it, the renderer everything downstream uses |
| Latex.InfixToLatex | server.js:226-235 | lex, parse and render, or the escaped `\text{...}` fallback; `FallbackIff` and `InfixToLatexOfPrinted` characterise it |
| Latex.Prec | server.js:177-185 | precedence is below 2 exactly for `+`/`-` nodes and below 3 exactly for binary nodes |
| Latex.SumOperandsNeverWrapped | server.js:202 | as written, the operands of `+` and `-` are never parenthesised |
| Latex.SubtractionLosesGrouping | server.js:202 | as written, `a - (b ± c)` and `(a - b) ± c` render to the same text |
| Latex.SubtractionLosesGroupingExample | server.js:202 | as written, `1 - (2 + 3)` and `(1 - 2) + 3` both render as `1 - 2 + 3` |
| Latex.SubtractionKeepsGrouping | server.js:202 | corrected: the right operand of `-` is parenthesised when it is a sum or difference |
| Latex.SubtractionGroupingDistinct | server.js:202 | corrected: `a - (b ± c)` and `(a - b) ± c` always render differently |
| Latex.ProductGroupsSums | server.js:199-201 | a product parenthesises exactly its `+`/`-` operands |
| Latex.QuotientIsFraction | server.js:194-198 | a quotient renders as `\frac{..}{..}` with unwrapped operands |
| Latex.FactorialGroupsOperators | server.js:204-210 | a factorial parenthesises its operand exactly when that is a binary node or another factorial |
| Latex.CallUsesLeadingArguments | server.js:211-222 | arguments after the second never show in a call's rendering, `log` included |
| Latex.CallRendersFirstArgument | server.js:211-222 | except for `log` with two or more arguments, a call renders exactly as the call on its first argument alone; with no argument it renders as on an argument whose text is empty |
| Latex.UnescapeEscape | server.js:232 | the fallback escape is undone by `Unescape`, so no two expressions share a fallback |
| Latex.EscapeUnescape | server.js:232 | every text `Unescape` accepts is the escape of what it returns |
| Latex.EscapeEachChar | server.js:232 | the three global replaces escape each character independently |
| Latex.RenderInfixToLatex | server.js:226-235 | the method returns the reference `InfixToLatex`: the rendering when lexing and parsing succeed, else the fallback |
| Latex.RenderStart | server.js:176-224 | no rendering of a parsed tree starts with `\t` |
| Latex.FallbackIff | server.js:226-235 | the result starts with `\text{` exactly when lexing or parsing failed |
| Scrape.FirstTokenStart | server.js:244 | the leftmost index where the expression-token pattern matches (`sqrt`, `lg`, `lb`, `log`, a digit, `(` or `-`), or none |
| Scrape.DropPrompt | server.js:239 | the result is a trimmed suffix of the input; when the input starts with `>>>`, exactly those three characters and the maximal run of spaces after them are removed; otherwise nothing is |
| Scrape.DropLabel | server.js:240-243 | for the colon (ASCII or fullwidth) with no colon after it, the result is the trimmed text after it; without a colon, the input; always a trimmed, colon-free suffix of the input |
| Scrape.StripPrompt | server.js:237-247 | the result is a suffix of the trimmed input; it is trimmed, has no colon, and an expression token can start only at its front |
| Scrape.StripPromptCut | server.js:244-246 | after the prompt and the label are dropped, the result is the text from the first match of the expression-token pattern on, or all of it when nothing matches; the final `trim` removes nothing |
| Scrape.StripPromptKeepsExpression | server.js:237-247 | a clean expression passes unchanged |
| Scrape.StripPromptDropsPrompt | server.js:239 | `>>> e` cleans to `e` |
| Scrape.StripPromptOfPrompt | server.js:237-247 | a prompt in front of a trimmed, colon-free text with no expression token is dropped and the rest is kept whole |
| Scrape.StripPromptDropsLabel | server.js:240-243 | any label ending in a colon before a clean expression is removed |
| Scrape.StripPromptIdempotent | server.js:237-247 | cleaning twice is cleaning once, for every result that contains an expression token (the requires) |
| Scrape.StripPromptTwice | server.js:237-247 | without that restriction cleaning is not idempotent: `>>> >>> x` cleans to `>>> x`, and that cleans to `x` |
| Scrape.BeforeMarker | server.js:255-257 | for the occurrence of ` = 24` at an index above 0 with none after it, the trimmed text before it; empty when there is no occurrence above index 0 |
| Scrape.Candidate | server.js:255-258 | the cleaned text in front of the marker: trimmed, colon-free, and non-empty only when the line has a marker above index 0 |
| Scrape.BeforeMarkerOfLine | server.js:254-257 | a trimmed expression followed by ` = 24` yields the expression |
| Scrape.CandidateOfPromptLine | server.js:254-258 | a solver line `>>> e = 24` yields `e` |
| Scrape.ScanLines | server.js:253-264 | the `for` loop with its `seen` set and early `break` computes the reference scan |
| Scrape.Solutions | server.js:249-266 | the reference scan of the lines' candidates, annotated with their LaTeX; `SolutionsMeaning` characterises it |
| Scrape.ExtractSolutions | server.js:249-266 | the method returns the reference `Solutions` |
| Scrape.SolutionsMeaning | server.js:249-266 | the solutions are the first occurrences of the non-empty candidates, in order, cut at the limit, each with its LaTeX |
| Scrape.SolutionsShape | server.js:249-266 | at most `limit` solutions for a positive limit, at most one for a negative one; distinct non-empty expressions; LaTeX from `infixToLatex` |
| Scrape.SolutionsFromLines | server.js:249-266 | every solution comes from a line; with limit 0 every non-empty candidate appears |
| Scrape.ParseOutput | app.js:264-275 | the trimmed non-empty lines, cut at the marker, empty results dropped; `ParseOutputClean` and `ParseOutputAgrees` characterise it |
| Scrape.ParseOutputClean | app.js:264-275 | every entry of `parseOutput` is non-empty and trimmed |
| Scrape.BeforeMarkerTrim | app.js:267-273 | trimming a line before cutting it at the marker changes nothing |
| Scrape.ParseOutputAgrees | app.js:264-275 | the server's candidates are the browser's entries after `stripPrompt`, empty ones dropped |
| Api.ShowNat | server.js:298 | the decimal digits of a natural number, which read back as that number |
| Api.ParseShowInt | app.js:19 | a printed integer converts back to itself |
| Api.ParseInt | app.js:19 | `Number` followed by `Number.isInteger` on an optional sign and decimal digits; a converted word is non-empty, and `ParseShowInt` shows printed integers convert back |
| Api.SplitSeparators | app.js:15 | at least one piece, and no piece contains whitespace or a comma |
| Api.ParseNumbers | app.js:13-20 | split, trim, drop empty words, convert, keep integers; characterised by `ParseNumbersWords`, `ParseNumbersConcat`, `ParseNumbersBlank` and `ParseNumbersJoin` |
| Api.ParseNumbersWords | app.js:13-20 | the result is the words that convert to integers, in order; `trim` changes nothing |
| Api.ParseNumbersConcat | app.js:13-20 | the numbers of `a` + separator + `b` are the numbers of `a` followed by those of `b` |
| Api.ParseNumbersBlank | app.js:13-20 | a text of separators only gives no numbers |
| Api.ParseNumbersJoin | app.js:318 | `parseNumbers(numbers.join(" "))` gives the numbers back |
| Api.IsSafeNumber | server.js:303-305 | an integer of magnitude at most 1000 |
| Api.RequestNumbers | server.js:316 | `body.numbers` when it is an array, else the empty list |
| Api.RequestLimit | server.js:317 | `body.limit` capped at 1000 when it is an integer, else 200; `LimitClamp` states the bounds |
| Api.ValidNumbers | server.js:318 | one to eight numbers, each safe |
| Api.Handle | server.js:307-335 | the `/api/solve` handler; `HandleStatus`, `HandleRejects` and `HandleSolved` characterise its replies |
| Api.Property | server.js:316-317 | a property is present exactly when the body is an object holding that key |
| Api.ErrorPayload | server.js:333 | the error message is never empty, and is the thrown message when that is non-empty |
| Api.LimitClamp | server.js:317 | the limit is at most 1000; an integer up to 1000 is kept, a larger one becomes 1000, anything else 200 |
| Api.HandleStatus | server.js:307-335 | every answer is 200, 400, 405 or 500; 405 exactly for a non-POST method; only 200 carries solutions; error messages are non-empty |
| Api.HandleRejects | server.js:318-321 | a parsed POST body gets 400 exactly when its numbers are not one to eight safe integers |
| Api.HandleSolved | server.js:314-329 | a 200 answer comes from one to eight integers in [-1000, 1000], passed to the solver as a line that reads back as them; the solutions are the scrape of its output under the clamped limit, and `count` is their number, at most a positive limit |

## Left out

- The solver itself is not part of this model. It is reached only through a
  child process or a WebAssembly export. `Api.Handle` takes it as a function
  from the input line to the output or to the error message.
- HTTP plumbing, static file serving, and `parseBody` are left out.
  `parseBody`'s result (the parsed JSON, or the message it rejected with,
  such as an oversized body or invalid JSON) is a parameter of `Api.Handle`.
  `tookMs` and `stderr` in the reply are not modelled: they come from the
  clock and the child process.
- `runSolver`'s spawning, streaming and timeout are left out. A timeout or
  spawn failure is an error result of the solver parameter.
- The browser's `solve`, the DOM updates, KaTeX rendering and WebAssembly
  start-up are user interface and foreign calls. `solve`'s use of
  `numbers.join(" ")` is covered by `Api.ParseNumbersJoin`.
- Api.ParseInt: accepts only an optional sign followed by decimal digits.
  JavaScript's `Number` also turns forms such as `1.0`, `1e3` or `0x10` into
  integers; the model drops those parts. The model also keeps every digit
  string exactly, whereas `Number` rounds digit strings above 2^53 to the
  nearest double and turns those beyond about 1.8e308 into `Infinity`,
  which `Number.isInteger` then drops.
- JSON numbers are exact reals. Double rounding, `Infinity` from a huge
  literal, and `-0` are not modelled. `Number.isFinite` always holds for an
  exact number.
- Api.Property: `body.numbers` and `body.limit` are read only from JSON
  objects. For strings, numbers, booleans and arrays those keys are
  `undefined`, which is what the model returns. Reading from `null` throws.
  The thrown message is modelled as V8's text.
- The regular expressions (`/[0-9]/`, `/[a-z]/i`, `/[\s,]+/`, `/\r?\n/`,
  `/^>>>\s*/`, the `stripPrompt` token pattern) are written as explicit
  character predicates and searches. `\s` and `trim` use the ECMAScript
  whitespace set.
- `Lexer.SkipDigits`, `Lexer.SkipLetters` and `Parser.Parser.ParseArguments`
  are inner loops of the source, written as separate methods.
- Strings are sequences of UTF-16 code units in JavaScript and of Unicode
  scalar values here. Every character the model inspects lies in the Basic
  Multilingual Plane.
- Integers in token texts are strings and are never evaluated, so there is
  no overflow to model. `ShowInt` prints unbounded integers.

## Findings

| source | as written | input that shows it | evidently intended | confidence | as-written member | corrected member |
|---|---|---|---|---|---|---|
| server.js:202 (copy at app.js:194) | the operands of `+` and `-` go through `wrapIf(child, 1)`, which never parenthesises because every precedence is at least 1 | `1-(2+3)` renders as `1 - 2 + 3`, the same as `(1-2)+3`, although the values are -4 and 2 | the right operand of `-` is parenthesised when it is a sum or difference | high, not executed | Unparse.InfixToLatexLosesGrouping | Latex.SubtractionGroupingDistinct |
