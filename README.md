# SimpleCalculator in Dafny

A model of the integer calculator in `SimpleCalculator.cpp`, with proofs about it. It covers
the whole core of that file:

- **`Token`**: a type character paired with a value.
- **`AEUtils`**: the character tables and `compress`.
- **`TokenStream`**: a cursor over the text that yields one token at a time, with a one-character
  `putBack`.
- **`checkBraceNesting`**: the stack scan that checks brace balance.
- **`ExpressionValidator`**: the adjacent-pair filter (`validatePair`, `validate`), which runs on
  the compressed text.
- **`Expression`**: validates its text once, then evaluates it on demand with three mutually
  recursive procedures (`evaluate`, `getTerm`, `getUnitTerm`). These parse and compute in one
  pass over a `TokenStream`. The class caches the result, or marks the expression invalid when
  the evaluation throws.

## Layout

| file | module | what it holds |
|---|---|---|
| `outcomes.dfy` | `Outcomes` | `Failure` (the three exceptions) and `Result` |
| `lexical.dfy` | `Lexical` | the character classes, decimal reading, `Strip` and the `Compress` loop |
| `tokens.dfy` | `Tokens` | `Token`, the reading function `Next`, and the `TokenStream` class |
| `braces.dfy` | `Braces` | the `CheckBraceNesting` loop against `Balanced`, and its algebra |
| `validator.dfy` | `Validator` | `ValidPair`, the `Validate` loop against `WellFormed` |
| `evaluation.dfy` | `Evaluation` | the fused evaluator as functions of the text and a cursor: `ExprAt`, `TermAt`, `UnitAt` and their loops |
| `calculator.dfy` | `Calculator` | the `Expression` class; its stream methods are proved equal to the functions above |
| `grammar.dfy` | `Grammar` | expression trees, their standard value, and the text that writes them out |
| `agreement.dfy` | `Agreement` | the evaluator reads a written-out tree and gives its standard value |
| `validity.dfy` | `Validity` | the validator accepts every written-out tree in which signs only open an expression |
| `completeness.dfy` | `Completeness` | the converse: an accepted text that the evaluator gets through is a written-out tree of that kind |
| `endtoend.dfy` | `EndToEnd` | the whole pipeline on such trees, in both directions |
| `spacing.dfy` | `Spacing` | whitespace between tokens changes nothing, unless it splits a literal |
| `samples.dfy`, `spaced.dfy` | `Samples`, `SpacedSamples` | the inputs of the file's own test functions, with the outcomes the model gives |
| `loose.dfy` | `LooseSamples` | the test inputs with whitespace between many of their tokens, assembled from short pieces |

## How the model relates to the code

- **Each loop has a specification function.**
  - `compress`, `checkBraceNesting`, `validate` and `nextToken` are loops. Each is a method with
    loop invariants, proved equal to a function: `Strip`, `Balanced`, `WellFormed` and `Next`.
  - The three evaluation procedures mutate a shared stream. They are methods over a
    `TokenStream` object. Each is proved to return what `ExprAt`, `TermAt` or `UnitAt` returns,
    and to leave the cursor where that function says.
- **Exceptions become values.** The exceptions the evaluator throws are the `Failure` values of a
  `Result`. `Expression.Evaluate` turns a failure into "not valid" and returns
  `numeric_limits<int>::min()`, as the catch block does.
- **What reaches the evaluator.**
  - `Expression::evaluate()` builds the stream over the raw text, whitespace included.
  - `putBack` pushes back one character.
  - `nextToken` skips whitespace token by token, through the stream's `>>`.
- **The evaluator is checked against a reference.** The reference is a tree grammar (`Grammar`)
  with a standard, left-associative value, and the proofs show:
  - Evaluating a written-out tree gives its value, or the same division-by-zero failure.
  - The validator accepts such a text when a sign only opens an expression (`Validity`).
  - Conversely, when the validator accepts a text and its evaluation succeeds, the text is such a
    tree, the evaluation reads all of it, and the result is the tree's value (`Completeness`).
  - The text a calculator line compresses to can be evaluated in its place, unless whitespace
    splits a literal (`Spacing`).
- **The validator is not a full grammar.** It accepts texts whose evaluation fails or gives a
  value the compressed text does not have:
  - It accepts `"1 2"`, because that compresses to `12`. The raw text evaluates to 1, and the
    leftover `2` is ignored.
  - It accepts `"1 42"`. The literal 42 then acts as `*`, because `getTerm` compares
    `getValue()` with the code of `*`, so the evaluation fails.
  - It accepts `"2 42 3"` as `2423`. There the literal 42 acts as `*` and the line evaluates to 6.
  - It accepts `"1-"`, which fails in `getUnitTerm`: no rule looks at the last character alone.
  - It accepts `"*1"`, which fails in `getUnitTerm`: any operator may follow the `(` that the
    validator puts before the first character.
  - It accepts `"1/0"`, which fails with the division-by-zero error.

## Model

| member | source | states |
|---|---|---|
| Lexical.ClassesAreTables | SimpleCalculator.cpp:54-74 | `isOperator`, `isNonDigit` and `isAllowed` hold exactly for the members of `operators`, `notDigits` and `allowedChars` |
| Lexical.ClassesPartition | SimpleCalculator.cpp:54-56 | the allowed characters are exactly the digits plus the six non-digit symbols, the two classes are disjoint, the non-digits are the operators plus the two braces, and no allowed character is whitespace |
| Lexical.LeadingZero | SimpleCalculator.cpp:113-116 | reading an integer ignores leading zeros ("0013" is 13) |
| Lexical.DecimalValueBound | SimpleCalculator.cpp:113-116 | a run of k digits denotes a number below 10^k |
| Lexical.Strip | SimpleCalculator.cpp:79-86 | the compressed text is no longer than the input and holds no whitespace |
| Lexical.Compress | SimpleCalculator.cpp:79-86 | the loop returns the input with its whitespace removed, in order |
| Lexical.StripConcat | SimpleCalculator.cpp:79-86 | compressing keeps order: it distributes over concatenation |
| Lexical.StripCounts | SimpleCalculator.cpp:79-86 | compressing keeps every non-whitespace character as often as it occurs and drops all whitespace |
| Lexical.StripNoSpace | SimpleCalculator.cpp:79-86 | a text without whitespace is left unchanged, so compressing twice changes nothing |
| Tokens.SymbolValue | SimpleCalculator.cpp:20-34 | a symbol token's `getValue` is its character code (42 for `*`, 47 for `/`); the literal 42 reports the same value as `*` while the two tokens differ under `operator==` |
| Tokens.DigitRunEnd | SimpleCalculator.cpp:113-115 | the extraction of an integer ends inside the text and is not followed by a digit |
| Tokens.DigitRunDigits | SimpleCalculator.cpp:113-115 | every character the integer extraction consumes is a digit |
| Tokens.RunValueIsDecimal | SimpleCalculator.cpp:114-115 | the value accumulated in place is the decimal value of the run |
| Tokens.Next | SimpleCalculator.cpp:102-120 | reading never moves the cursor back or past the end, and every token other than the sentinel consumes input |
| Tokens.NextAtEnd | SimpleCalculator.cpp:102-120 | after the last non-blank character only the sentinel is read, and the cursor stays at the end |
| Tokens.NextStart | SimpleCalculator.cpp:104-105 | the token read starts at the first non-blank character after the cursor |
| Tokens.NextSymbol | SimpleCalculator.cpp:106-109 | an operator or brace is read as the one-character token of that character |
| Tokens.NextLiteral | SimpleCalculator.cpp:110-116 | a maximal run of digits is one literal: its type is the first digit and its value the decimal reading of the whole run |
| Tokens.PutBackRereads | SimpleCalculator.cpp:124-126 | after an operator or brace, stepping back one character re-reads the same token with the same cursor |
| Tokens.TokenStream.constructor | SimpleCalculator.cpp:98 | a stream starts at the beginning of its text |
| Tokens.TokenStream.NextToken | SimpleCalculator.cpp:102-120 | the method returns the token `Next` reads and moves the cursor to where `Next` leaves it |
| Tokens.TokenStream.ReadInteger | SimpleCalculator.cpp:113-115 | `ss >> val` consumes the maximal run of digits and returns its value |
| Tokens.TokenStream.HasNextToken | SimpleCalculator.cpp:121-123 | when it reports no more input, only the sentinel can be read |
| Tokens.TokenStream.PutBack | SimpleCalculator.cpp:124-126 | rewinds the cursor by one character |
| Braces.CheckBraceNesting | SimpleCalculator.cpp:134-146 | returns true exactly when the depth never drops below zero and ends at zero |
| Braces.NeverBelowZeroPrefix | SimpleCalculator.cpp:139-141 | a text whose depth never drops below zero has no prefix that does |
| Braces.NetCounts | SimpleCalculator.cpp:134-146 | the final depth is the number of opening braces minus the number of closing ones |
| Braces.BalancedIffCounts | SimpleCalculator.cpp:134-146 | balanced in both directions: no prefix closes more braces than it opens, and the totals are equal |
| Braces.NetConcat | SimpleCalculator.cpp:134-146 | depths add up over concatenation |
| Braces.NoBracesBalanced | SimpleCalculator.cpp:134-146 | a text without brace characters is balanced |
| Braces.BalancedConcat | SimpleCalculator.cpp:134-146 | two balanced texts side by side are balanced |
| Braces.BalancedWrap | SimpleCalculator.cpp:134-146 | a balanced text wrapped in a brace pair is balanced |
| Validator.Validate | SimpleCalculator.cpp:171-190 | the loop accepts exactly the non-empty, balanced texts whose characters are all allowed and whose adjacent pairs pass `validatePair`, with a virtual `(` before the first |
| Validator.PairsOkAt | SimpleCalculator.cpp:179-188 | the pair scan succeeds exactly when every character is allowed and fits after its predecessor |
| Validator.PairsOkConcat | SimpleCalculator.cpp:179-188 | the pair scan splits at any point of the text, the left part's last character becoming the right part's predecessor |
| Validator.BadPairRejects | SimpleCalculator.cpp:154-168 | one failing pair anywhere makes `validate` reject the text |
| Validator.WellFormedShape | SimpleCalculator.cpp:154-168 | in an accepted text nothing starts with `)`, no `)` precedes a digit or `(`, no digit precedes `(`, no `(` or operator precedes `)`, and no two operators meet |
| Evaluation.TruncDiv | SimpleCalculator.cpp:271 | C++ division truncates toward zero: the remainder is smaller than the divisor in magnitude and has the dividend's sign |
| Evaluation.ExprAt | SimpleCalculator.cpp:236-257 | a successful `evaluate` consumes input and stays inside the text |
| Evaluation.ExprLoop | SimpleCalculator.cpp:240-256 | the loop stops at the end, or one character back after a put-back token |
| Evaluation.TermAt | SimpleCalculator.cpp:258-283 | a successful `getTerm` consumes input and stays inside the text |
| Evaluation.TermLoop | SimpleCalculator.cpp:261-282 | the loop stops at the end, or one character back after a put-back token |
| Evaluation.UnitAt | SimpleCalculator.cpp:285-304 | a successful `getUnitTerm` consumes input and stays inside the text |
| Calculator.Expression.constructor | SimpleCalculator.cpp:307-314 | a new expression is valid exactly when its compressed text passes the validator, and it is not evaluated |
| Calculator.Expression.Validate | SimpleCalculator.cpp:224-231 | an already valid expression stays valid; otherwise validity becomes the validator's verdict on the compressed text |
| Calculator.Expression.IsValid | SimpleCalculator.cpp:316-318 | a valid expression has passed the validator; an invalid one has no value |
| Calculator.Expression.IsEvaluated | SimpleCalculator.cpp:320-322 | an evaluated expression is valid and its cached value is its result |
| Calculator.Expression.Evaluate | SimpleCalculator.cpp:324-346 | returns the cached value when evaluated and the int minimum when invalid; otherwise evaluates, caching the value, or on failure marks the expression invalid, leaves the cached value alone and returns the int minimum |
| Calculator.Expression.EvaluateStream | SimpleCalculator.cpp:236-257 | returns what `ExprAt` gives from the stream's cursor and leaves the cursor where it says |
| Calculator.Expression.SumTerms | SimpleCalculator.cpp:238-256 | the `+`/`-` loop returns what `ExprLoop` gives and leaves the cursor where it says |
| Calculator.Expression.GetTerm | SimpleCalculator.cpp:258-283 | returns what `TermAt` gives, division by zero included, and leaves the cursor where it says |
| Calculator.Expression.GetUnitTerm | SimpleCalculator.cpp:285-304 | returns what `UnitAt` gives, including the missing-brace and bad-token failures, and leaves the cursor where it says |
| Grammar.ExprValue | SimpleCalculator.cpp:193-210 | an expression's value sums its terms from the left; the only failure is division by zero |
| Grammar.SumsValue | SimpleCalculator.cpp:196-198 | the remaining terms fail only by division by zero |
| Grammar.TermValue | SimpleCalculator.cpp:199-200 | a term fails only by division by zero |
| Grammar.FactorsValue | SimpleCalculator.cpp:265-273 | multiplying and dividing from the left fails only on a zero divisor |
| Grammar.UnitValue | SimpleCalculator.cpp:285-301 | a unit fails only by division by zero inside a group |
| Grammar.ExprShape | SimpleCalculator.cpp:196-202 | a written expression is non-empty, starts the way a unit starts and ends with a digit or `)` |
| Grammar.SumsShape | SimpleCalculator.cpp:196-198 | written remaining terms start with `+` or `-` and end with a digit or `)` |
| Grammar.TermShape | SimpleCalculator.cpp:199-200 | a written term starts the way a unit starts and ends with a digit or `)` |
| Grammar.FactorsShape | SimpleCalculator.cpp:199-200 | written remaining factors start with `*` or `/` and end with a digit or `)` |
| Grammar.UnitShape | SimpleCalculator.cpp:201-202 | a written literal or group starts with a digit or `(`, a signed unit with its sign |
| Agreement.UnitReads | SimpleCalculator.cpp:285-304 | `getUnitTerm` reads a written unit exactly and gives its value |
| Agreement.SignedReads | SimpleCalculator.cpp:290-293 | a sign and its unit are read exactly, `-` negating the value |
| Agreement.GroupReads | SimpleCalculator.cpp:294-301 | a parenthesised expression is read up to its closing brace and gives the inner value |
| Agreement.FactorsReads | SimpleCalculator.cpp:261-282 | the `getTerm` loop reads the written remaining factors and applies them from the left |
| Agreement.TimesReads | SimpleCalculator.cpp:262-265 | a `*` step multiplies the accumulated value by the next unit |
| Agreement.OverReads | SimpleCalculator.cpp:266-274 | a `/` step fails on a zero unit and otherwise divides with truncation |
| Agreement.TermReads | SimpleCalculator.cpp:258-283 | `getTerm` reads a written term exactly and gives its value |
| Agreement.SumsReads | SimpleCalculator.cpp:240-256 | the `evaluate` loop reads the written remaining terms and applies them from the left |
| Agreement.PlusReads | SimpleCalculator.cpp:241-244 | a `+` step adds the next term |
| Agreement.MinusReads | SimpleCalculator.cpp:245-248 | a `-` step subtracts the next term |
| Agreement.ExprReads | SimpleCalculator.cpp:236-257 | `evaluate` reads a written expression exactly and gives its value |
| Agreement.EvaluatesPrinted | SimpleCalculator.cpp:193-210 | on the written text of any tree, evaluation reads to the end and gives the tree's value, or fails by division by zero exactly when that value does |
| Validity.AcceptedConcat | SimpleCalculator.cpp:171-190 | two accepted pieces joined are accepted |
| Validity.OperatorAccepted | SimpleCalculator.cpp:162-166 | an operator may follow `(`, a digit or `)` |
| Validity.DigitsAccepted | SimpleCalculator.cpp:154-168 | a run of digits may follow `(`, an operator or a digit |
| Validity.UnitAccepted | SimpleCalculator.cpp:154-168 | a unit passes after `(`, and after an operator when it carries no sign |
| Validity.GroupAccepted | SimpleCalculator.cpp:154-168 | a parenthesised accepted expression passes after `(` or an operator |
| Validity.TermAccepted | SimpleCalculator.cpp:154-168 | a term passes after `(`, and after an operator when it does not start with a sign |
| Validity.FactorsAccepted | SimpleCalculator.cpp:154-168 | remaining factors pass after a digit or `)` |
| Validity.SumsAccepted | SimpleCalculator.cpp:154-168 | remaining terms pass after a digit or `)` |
| Validity.ExprAccepted | SimpleCalculator.cpp:179-188 | an expression passes after the virtual `(` the validator starts from |
| Validity.PlainWellFormed | SimpleCalculator.cpp:171-190 | `validate` accepts every written tree whose signs only open an expression, and that text has no whitespace |
| EndToEnd.PlainVerdict | SimpleCalculator.cpp:307-346 | such a text is valid and evaluates to the tree's value; its only failure is division by zero |
| EndToEnd.SpacedVerdict | SimpleCalculator.cpp:324-331 | a raw line that compresses to such a text, with no whitespace inside a literal, gets the tree's verdict |
| EndToEnd.EvaluatedIffPlainTree | SimpleCalculator.cpp:324-331 | a raw line with no whitespace inside a literal evaluates to v exactly when its compressed text is a written tree, with signs only opening an expression, whose value is v |
| Completeness.NextIn | SimpleCalculator.cpp:102-120 | on a text that passes the pair rules, `nextToken` reads the sentinel exactly at the end, an operator or brace as itself, and a digit as the literal of its whole run |
| Completeness.UnitTree | SimpleCalculator.cpp:285-304 | when `getUnitTerm` succeeds on such a text, it has read a written unit, unsigned after an operator, whose value it returns, and no digit follows |
| Completeness.SignedTree | SimpleCalculator.cpp:290-293 | a sign it reads never follows an operator, and it applies to an unsigned unit |
| Completeness.GroupTree | SimpleCalculator.cpp:294-301 | a brace it reads opens a written expression closed by the next `)`, after which no digit follows |
| Completeness.FactorsTree | SimpleCalculator.cpp:261-282 | when the `getTerm` loop succeeds on such a text, it has read written factors, and it stops at the end or before `+`, `-` or `)`, never before a literal |
| Completeness.FactorStepReads | SimpleCalculator.cpp:262-273 | a successful `*` or `/` step reads a unit after an operator, a divisor is not zero, and the loop goes on with the product or the truncated quotient |
| Completeness.TimesTree | SimpleCalculator.cpp:262-265 | a successful `*` step has read `*`, an unsigned unit and written factors |
| Completeness.OverTree | SimpleCalculator.cpp:266-274 | a successful `/` step has read `/`, a non-zero unsigned unit and written factors |
| Completeness.TermTree | SimpleCalculator.cpp:258-283 | when `getTerm` succeeds on such a text, it has read a written term, whose value it returns, and a `+`, `-`, `)` or the end follows |
| Completeness.SumsTree | SimpleCalculator.cpp:240-256 | when the `evaluate` loop succeeds on such a text, it has read written remaining terms, and it stops at the end or before `)` |
| Completeness.SumStepReads | SimpleCalculator.cpp:241-248 | a successful `+` or `-` step reads a term after an operator, and the loop goes on with the sum or difference |
| Completeness.PlusTree | SimpleCalculator.cpp:241-244 | a successful `+` step has read `+`, a term without a leading sign and written remaining terms |
| Completeness.MinusTree | SimpleCalculator.cpp:245-248 | a successful `-` step has read `-`, a term without a leading sign and written remaining terms |
| Completeness.ExprTree | SimpleCalculator.cpp:236-257 | when `evaluate` succeeds on such a text, it has read a written expression whose signs only open an expression, whose value it returns, and the end or `)` follows |
| Completeness.AcceptedFits | SimpleCalculator.cpp:179-188 | on an accepted text, every character is allowed and fits after its predecessor, the first after a virtual `(` |
| Completeness.NoCloseAfterBalanced | SimpleCalculator.cpp:134-146 | in a balanced text, no `)` directly follows a balanced prefix |
| Completeness.AcceptedEvaluated | SimpleCalculator.cpp:171-190 | when `validate` accepts a text and its evaluation succeeds, the evaluation reads the whole text, and the text is a written tree whose signs only open an expression and whose value is the result |
| Spacing.NoSpaceAfterDigitSplitsNone | SimpleCalculator.cpp:113-115 | whitespace that never follows a digit cannot split a literal |
| Spacing.Count | SimpleCalculator.cpp:79-86 | a raw cursor maps into the compressed text, and past a non-blank character it is positive |
| Spacing.CountStep | SimpleCalculator.cpp:79-86 | a non-blank character moves to the position its count gives in the compressed text |
| Spacing.SpacesKeepCount | SimpleCalculator.cpp:79-86 | skipping whitespace does not move the compressed cursor |
| Spacing.RunAfterDigit | SimpleCalculator.cpp:113-115 | unless whitespace splits it, the rest of a literal is the same in both texts |
| Spacing.RunRead | SimpleCalculator.cpp:110-116 | a literal is read as the whole run of digits from its first digit |
| Spacing.NextLiteralStrip | SimpleCalculator.cpp:110-116 | a literal is read the same way from the raw and the compressed text |
| Spacing.NextStrip | SimpleCalculator.cpp:102-120 | `nextToken` reads the same token from the raw text as from the compressed text at the corresponding cursor |
| Spacing.ExprAtStrip | SimpleCalculator.cpp:236-257 | `evaluate` gives the same value or failure on both texts, with corresponding cursors |
| Spacing.ExprLoopStrip | SimpleCalculator.cpp:240-256 | the `+`/`-` loop agrees on both texts |
| Spacing.TermAtStrip | SimpleCalculator.cpp:258-283 | `getTerm` agrees on both texts |
| Spacing.TermLoopStrip | SimpleCalculator.cpp:261-282 | the `*`/`/` loop agrees on both texts |
| Spacing.UnitAtStrip | SimpleCalculator.cpp:285-304 | `getUnitTerm` agrees on both texts |
| Spacing.WhitespaceIgnored | SimpleCalculator.cpp:324-331 | unless whitespace splits a literal, a line gets the verdict of its compressed text |
| Samples.TokenStreamLiterals | SimpleCalculator.cpp:530-547 | in "12+0013-(22+6)*7", "12" reads as 12 with type `1`, and "0013" as 13 with type `0` |
| Samples.TokenStreamShortLiterals | SimpleCalculator.cpp:558-587 | the literals 22, 6 and 7 of the same text |
| Samples.TokenStreamSymbols | SimpleCalculator.cpp:538-592 | its operators and braces, and the sentinel at its end |
| Samples.TokenSample | SimpleCalculator.cpp:594-630 | `getValue` of `Token('0')` is its code, of `Token('0', 25)` 25, and of each brace and sign its code |
| Samples.TruncDivSample | SimpleCalculator.cpp:271 | -17 / -2 is 8, and -7 / 2 and 7 / -2 are -3 |
| Samples.EvaluateSum | SimpleCalculator.cpp:396-400 | "1+23" evaluates to 24 |
| Samples.ProductSample | SimpleCalculator.cpp:402 | "23*(2+2)" is a term worth 92 |
| Samples.EvaluatePrecedence | SimpleCalculator.cpp:402-406 | "1+23*(2+2)" evaluates to 93 |
| Samples.ChainTailValue | SimpleCalculator.cpp:408 | "+6-7+8" adds 7 |
| Samples.EvaluateChain | SimpleCalculator.cpp:408-412 | "1+2-3+4-5+6-7+8" evaluates to 6 |
| Samples.LeftoverAccepted | SimpleCalculator.cpp:224-231 | "1 2" passes validation as "12" |
| Samples.LeftoverEvaluation | SimpleCalculator.cpp:236-257 | on "1 2", evaluate stops after the literal 1 |
| Samples.LeftoverIgnored | SimpleCalculator.cpp:324-331 | "1 2" evaluates to 1 |
| Samples.LiteralAsOperatorAccepted | SimpleCalculator.cpp:224-231 | "1 42" passes validation as "142" |
| Samples.LiteralAsOperatorEvaluation | SimpleCalculator.cpp:262-264 | on "1 42", the literal 42 acts as `*` and no unit follows it |
| Samples.LiteralAsOperator | SimpleCalculator.cpp:302-303 | "1 42" fails with a bad token |
| Samples.LiteralAsProductAccepted | SimpleCalculator.cpp:224-231 | "2 42 3" passes validation as "2423" |
| Samples.LiteralAsProductEvaluation | SimpleCalculator.cpp:261-265 | on "2 42 3", the literal 42 acts as `*`, and the product of 2 and 3 is read to the end |
| Samples.LiteralAsProduct | SimpleCalculator.cpp:324-331 | "2 42 3" evaluates to 6 |
| Samples.LeadingOperatorAccepted | SimpleCalculator.cpp:179-188 | "*1" passes validation, since an operator may follow the virtual `(` |
| Samples.LeadingOperatorEvaluation | SimpleCalculator.cpp:285-304 | on "*1", no unit starts the text |
| Samples.LeadingOperator | SimpleCalculator.cpp:302-303 | "*1" fails with a bad token |
| Samples.DivisionByZero | SimpleCalculator.cpp:266-269 | "1/0" passes validation and fails with the division-by-zero error |
| Samples.TrailingOperatorAccepted | SimpleCalculator.cpp:179-188 | "1-" passes validation, since no rule looks at the last character alone |
| Samples.TrailingOperatorEvaluation | SimpleCalculator.cpp:285-304 | on "1-", no unit follows the `-` |
| Samples.TrailingOperator | SimpleCalculator.cpp:302-303 | "1-" fails with a bad token |
| Samples.BraceSamples | SimpleCalculator.cpp:645-664 | "(abc)" and "isui \tuh\t" are balanced |
| Samples.NestedBraceSamples | SimpleCalculator.cpp:650-658 | "((isui )\tuh\t)" is balanced and "((isui )\t)uh\t)" is not |
| Samples.RejectedSamples | SimpleCalculator.cpp:674-709 | the empty text, "()", "((3+))" and "((5+4*(7+9-)))" are rejected |
| Samples.RejectedPairSamples | SimpleCalculator.cpp:716-727 | ")(", a digit before `(` and two operators in a row are rejected |
| Samples.AcceptedSamples | SimpleCalculator.cpp:668-684 | "(4+5)" and "((3+5))" are accepted |
| Samples.AcceptedSignSample | SimpleCalculator.cpp:692-696 | "((+4))" is accepted |
| Samples.NestedText | SimpleCalculator.cpp:698 | the tree used for "5+4*(7+9)" writes out as that text |
| Samples.AcceptedNestedSample | SimpleCalculator.cpp:698-702 | "((5+4*(7+9)))" is accepted |
| Samples.DeepSumText | SimpleCalculator.cpp:710 | the inner tree writes out as "7+9-(1)" |
| Samples.DeepText | SimpleCalculator.cpp:710 | the tree used for "5+4*(7+9-(1))" writes out as that text |
| Samples.AcceptedDeepSample | SimpleCalculator.cpp:710-714 | "((5+4*(7+9-(1))))" is accepted |
| SpacedSamples.TabbedStrip | SimpleCalculator.cpp:414 | the tab in "(1+2-d)*4-5+(6-7)\t*8" is dropped by compression and follows no digit |
| SpacedSamples.Surround | SimpleCalculator.cpp:79-86 | whitespace-free text around a harmless raw text is kept by compression |
| SpacedSamples.SpreadValue | SimpleCalculator.cpp:414 | "(1+2-d)*4-5+(6-7)*8" is worth (3-d)*4-13 |
| SpacedSamples.DoubledValue | SimpleCalculator.cpp:420 | "2*(e)" is worth twice e |
| SpacedSamples.QuotientValue | SimpleCalculator.cpp:426-437 | "(e)/(2-d)" fails for d = 2 and otherwise divides with truncation |
| SpacedSamples.EvaluateTabbed | SimpleCalculator.cpp:414-418 | "(1+2-3)*4-5+(6-7)\t*8" evaluates to -13 |
| SpacedSamples.EvaluateDoubled | SimpleCalculator.cpp:420-424 | "2*((1+2-3)*4-5+(6-7)\t*8)" evaluates to -26 |
| SpacedSamples.EvaluateByZero | SimpleCalculator.cpp:426-430 | "(2*((1+2-3)*4-5+(6-7)\t*8))/(2-2)" fails by division by zero, so `evaluate` marks it invalid |
| SpacedSamples.EvaluateQuotient | SimpleCalculator.cpp:431-435 | "(2*((1+2-3)*4-5+(6-7)\t*8))/(2-4)" evaluates to 13 |
| SpacedSamples.EvaluateTruncated | SimpleCalculator.cpp:437-440 | "(((1+2-4)*4-5+(6-7)\t*8))/(2-4)" evaluates to 8 |
| LooseSamples.StripFromIsStrip | SimpleCalculator.cpp:79-86 | compressing from the front, one character at a time, gives the compressed text |
| LooseSamples.JoinNoSplit | SimpleCalculator.cpp:79-86 | two texts joined at a character that is neither whitespace nor a digit let compression join no two literals |
| LooseSamples.Join | SimpleCalculator.cpp:79-86 | such a join compresses to the two compressed pieces, one after the other |
| LooseSamples.EvaluateNested | SimpleCalculator.cpp:443-447 | "(\t2 * ( 3 * ( 4 * ( 5 + 6 ) + 7 ) + 8 ) - 10 ) * 2" evaluates to 624 |
| LooseSamples.EvaluateMixed | SimpleCalculator.cpp:449-453 | " 3 *\t(-2*9)+6*(8+2)" evaluates to 6 |
| LooseSamples.EvaluateLone | SimpleCalculator.cpp:455-459 | " 5   " evaluates to 5 |
| LooseSamples.EvaluateGrouped | SimpleCalculator.cpp:462-466 | "(3 - 1) * 2 + 3" evaluates to 7 |
| LooseSamples.EvaluateLong | SimpleCalculator.cpp:472-474 | "( 4 +1)-2   +45 * 2     -1 +2+3" is valid, and worth 97 |
| LooseSamples.EvaluateOpened | SimpleCalculator.cpp:476-478 | "(4+(2-(1*2)*3))" is valid, and worth 0 |
| LooseSamples.EvaluateRaised | SimpleCalculator.cpp:480-482 | "( +(2-(1*2)*3))" is valid, and worth -4 |
| LooseSamples.EvaluateOneOpened | SimpleCalculator.cpp:484-486 | "( (1)+(2-(1*2)*3))" is valid, and worth -3 |
| LooseSamples.AcceptedLone | SimpleCalculator.cpp:488-490 | " 1 " is valid, and worth 1 |
| LooseSamples.RejectedOpen | SimpleCalculator.cpp:492-494 | " (1 " is not valid: a brace stays open |
| LooseSamples.RejectedClose | SimpleCalculator.cpp:496-498 | " 1 )" is not valid: a brace closes that was never opened |
| LooseSamples.RejectedDigitBrace | SimpleCalculator.cpp:500-502 | " 1 (2)" is not valid: a digit stands before `(` |
| LooseSamples.EvaluateTimesGroup | SimpleCalculator.cpp:504-506 | " 1 *(2)" is valid, and worth 2 |
| LooseSamples.RejectedMissingOperator | SimpleCalculator.cpp:508-510 | " 1 *\t(2*9)+6(8+2)" is not valid: a digit stands before `(` |
| LooseSamples.AcceptedMixed | SimpleCalculator.cpp:512-518 | " 1 *\t(2*9)+6*(8+2)" and " 1 *\t(-2*9)+6*(8+2)" are valid |
| LooseSamples.RejectedDoubleOperator | SimpleCalculator.cpp:520-522 | " 1 *\t(-2*9)++6*(8+2)" is not valid: two operators stand in a row |
| LooseSamples.AcceptedSign | SimpleCalculator.cpp:524-526 | "- 2" is valid, and worth -2 |

## Left out

- Console output (`std::cout` messages in `validate` and `evaluate`) is not modelled; only the
  values and flags are.
- The interactive loop in `main`, the free `evaluate(const std::string &)` that prints a result,
  and the test functions are not part of this model. The test inputs appear only as the
  `Samples`, `SpacedSamples` and `LooseSamples` lemmas.
- `int` is 32 bits in the code. The model uses unbounded integers throughout, so overflow in `+`, `-`,
  `*`, in `-getUnitTerm` of the minimum, in `INT_MIN / -1` and in the `>>` extraction of a
  literal too large for `int` is not modelled.
- Tokens.TokenStream.HasNextToken: models `ss.good()` as "characters remain after the cursor".
  The stream's end-of-file flag is set only when an extraction runs into the end. The code
  therefore still reports input after a final operator or brace. The next `>> ch` then fails
  and `ch` is read uninitialised. This happens whenever the line ends in an operator or a brace,
  as in `"(1+2)"`, and whenever it ends in whitespace. The contract states only that "no more
  input" means that only the sentinel can be read.
- Tokens.TokenStream.PutBack: rewinds one character whatever the token, as `ss.putback(type)`
  does for a symbol. The character before the cursor differs from the token's type only after a
  multi-digit literal: a symbol is the character just read, and a one-digit literal ends on its
  own type. The sentinel is never put back, because both loops stop on it. After a multi-digit
  literal, `std::stringbuf` in read-write mode still moves the cursor back one character, as the
  model does, but writes the literal's first digit over its last one. The model re-reads the
  last digit instead. The token re-read is a digit literal in both cases.
- Calculator.Expression.Evaluate: the failure result is `numeric_limits<int>::min()`, as in the
  code. A legitimate result with that value cannot be told apart from a failure; the flags say
  which it is.
- Exceptions are modelled as `Result` and `Partial` values. The catch in `evaluate()` catches
  only the three `runtime_error`s the evaluator throws; no other exception source exists in the model.
- The evaluator and the tree grammar are related in both directions. `Agreement.EvaluatesPrinted`
  holds for the written text of every tree. `Completeness.AcceptedEvaluated` covers every accepted
  text that evaluates without failure. The failures on accepted texts are shown by example only:
  a bad token (`"1 42"`, `"1-"`, `"*1"`) and a division by zero (`"1/0"`). No lemma characterises the
  accepted texts that fail.
