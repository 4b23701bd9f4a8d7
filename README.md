# jdbg debugger core in Dafny

jdbg is a command-line Java debugger. A server holds live Java Debug Interface (JDI) connections
to target JVMs. It keeps one `DebugSession` per connection and turns JDI events into a buffered
stream of `DebugEvent`s that clients poll. It can also evaluate Java expressions in a suspended
frame. This project models the server's core and proves properties of the model:

- **Expression parser** (`ExpressionParser.java`).
  - `lexer.dfy` and `grammar.dfy` state the recursive descent as functions of the text and a cursor.
  - `parser.dfy` is the parser class itself. It has the mutable cursor `pos` and the `while` loops of every precedence level, and each method is proved to agree with its grammar function.
  - `parser_props.dfy`, `parser_cases.dfy`, `parser_prefix.dfy`, `parser_numbers.dfy`, `parser_chains.dfy` and `parser_errors.dfy` prove what the parser promises over all inputs of each shape:
    - precedence and left associativity;
    - unary operators and casts;
    - literal kinds;
    - postfix chains;
    - the positioned `ParseException`s.
  - `parser_levels.dfy` states precedence in general. A chain of operands joined by binary operators and `instanceof` tests is rendered as text, and the parse of that text is proved equal to the tree that a reference precedence-climbing definition builds. Lemmas for each operator, each pair of operators and conditions such as `a > 0 && b < 100 || c == 0` follow from it.
  - `parser_creation.dfy` proves `new T()` and `new T(a)` for every dotted type name.
- **Expression interpreter** (`JdiInterpreter.java`).
  - `values.dfy` holds the JDI values and an abstract target VM. That VM gives the class table, field reads and method invocation as parameters, and floating-point arithmetic as an oracle.
  - `interp.dfy` is the recursive evaluator.
  - `interpreter.dfy` is the interpreter class, whose loops (`findMethod`, the superclass walk, argument evaluation) are proved against `interp.dfy`.
  - `interp_props.dfy` proves widening, overload selection, equality, short-circuiting and the numeric behaviour.
- **Debug session** (`DebugSession.java`, `session.dfy`). This covers:
  - the breakpoint registries and the table of installed event requests;
  - the bounded event buffer, which drops the oldest event when full and numbers events in increasing order;
  - the destructive, filtered `pollEvents`;
  - thread selection and the lifecycle state.
- **Event dispatch** (`EventProcessor.java`, `events.dfy`). Each handler is a method on the session, proved equal to one step of a function `Step` over a view of the session. `shouldResume` is a predicate over an event set.
- **Session registry** (`SessionManager.java`, `manager.dfy`). A map of sessions plus the active id.
- **Completion** (`CompletionServiceImpl.java`, `completion.dfy`, with `sorting.dfy` and `strs.dfy`). The filters, the prefix-first ranking, limits, de-duplication, and the stable sort by name.
- **Location strings** of `Breakpoint` and `FrameInfo` (`model.dfy`).

`parser_fixes.dfy`, `interp_fixes.dfy` and `session_fixes.dfy` hold corrected definitions for the defects listed under Findings. Each stands beside the as-written definition and is proved to agree with it wherever the as-written one behaves as intended.

Where the project's tests or documentation expect something the code does not do, the model follows the code. Those cases are listed under Findings or Left out.

## Model

| member | source | states |
|---|---|---|
| Lexer.Span | server/src/main/java/dev/jdbg/server/eval/ExpressionParser.java:452-456 | the end of a run: every character before it is kept, the one at it (if any) is not |
| Lexer.SkipWs | server/src/main/java/dev/jdbg/server/eval/ExpressionParser.java:452-456 | whitespace skipping lands on the end of the text or on a character that is not whitespace, never before the start |
| Lexer.SkipWsIdempotent | server/src/main/java/dev/jdbg/server/eval/ExpressionParser.java:452-456 | skipping whitespace twice is skipping it once |
| Lexer.IdentEnd | server/src/main/java/dev/jdbg/server/eval/ExpressionParser.java:302-312 | an identifier run ends at the end of the text or at a character that cannot continue an identifier |
| Lexer.DigitsEnd | server/src/main/java/dev/jdbg/server/eval/ExpressionParser.java:399-401 | a digit run holds only digits and ends at the end or at a non-digit |
| Lexer.Match | server/src/main/java/dev/jdbg/server/eval/ExpressionParser.java:462-479 | `match` succeeds exactly when the operator text follows the whitespace and is not refused (`<`, `>`, `=`, `!` before `=`; `&` before `&`; `\|` before `\|`); its position is after the operator, else after the whitespace |
| Lexer.MatchKeyword | server/src/main/java/dev/jdbg/server/eval/ExpressionParser.java:481-491 | `matchKeyword` succeeds exactly when the keyword follows the whitespace as a whole word |
| Lexer.Expect | server/src/main/java/dev/jdbg/server/eval/ExpressionParser.java:493-499 | `expect(c)` succeeds exactly when `c` is the next non-blank character, moving past it; otherwise it raises a ParseException naming `c` at that position |
| Grammar.Identifier | server/src/main/java/dev/jdbg/server/eval/ExpressionParser.java:302-312 | an identifier succeeds exactly on an identifier-start character; its text is the whole identifier run; otherwise "expected identifier" at the first non-blank position |
| Grammar.QualifiedRest | server/src/main/java/dev/jdbg/server/eval/ExpressionParser.java:319-330 | the dotted-name loop never moves backwards and stays within the text |
| Grammar.QualifiedRestStep | server/src/main/java/dev/jdbg/server/eval/ExpressionParser.java:320-325 | one `.name` qualifier is appended to the type name, reading the name as `parseIdentifier` does |
| Grammar.DimsRest | server/src/main/java/dev/jdbg/server/eval/ExpressionParser.java:332-342 | the `[]` loop never moves backwards and reports errors inside the text |
| Grammar.TypeName | server/src/main/java/dev/jdbg/server/eval/ExpressionParser.java:314-345 | `parseTypeName` never moves backwards and reports errors inside the text |
| Grammar.Escape | server/src/main/java/dev/jdbg/server/eval/ExpressionParser.java:378-390 | every character other than `n t r 0` escapes to itself |
| Grammar.StringBody | server/src/main/java/dev/jdbg/server/eval/ExpressionParser.java:347-363 | the string loop never moves backwards and reports errors inside the text |
| Grammar.StringLiteral | server/src/main/java/dev/jdbg/server/eval/ExpressionParser.java:347-363 | `parseStringLiteral` never moves backwards and reports errors inside the text |
| Grammar.CharLiteral | server/src/main/java/dev/jdbg/server/eval/ExpressionParser.java:365-376 | `parseCharLiteral` never moves backwards and reports errors inside the text, including the index error of reading past the end |
| Grammar.FractionEnd | server/src/main/java/dev/jdbg/server/eval/ExpressionParser.java:403-410 | an optional fraction never moves backwards and stays within the text |
| Grammar.ExponentDigits | server/src/main/java/dev/jdbg/server/eval/ExpressionParser.java:412-421 | the exponent digits start after the marker and an optional sign |
| Grammar.ScanNumber | server/src/main/java/dev/jdbg/server/eval/ExpressionParser.java:392-439 | a number scan: integer digits, then fraction, exponent and suffix in order; an integer literal has no fraction or exponent and its text is exactly its digits |
| Grammar.ScanNumberParts | server/src/main/java/dev/jdbg/server/eval/ExpressionParser.java:392-439 | the number scan is the composition of its parts, digits, fraction, exponent, suffix |
| Grammar.Number | server/src/main/java/dev/jdbg/server/eval/ExpressionParser.java:392-450 | `parseNumberLiteral` never moves backwards and reports errors inside the text |
| Grammar.CastScan | server/src/main/java/dev/jdbg/server/eval/ExpressionParser.java:167-178 | the cast lookahead loop never moves backwards and stays within the text |
| Grammar.Or | server/src/main/java/dev/jdbg/server/eval/ExpressionParser.java:51-58 | this level of the recursive descent never moves the cursor backwards and reports every ParseException at a position inside the text |
| Grammar.OrRest | server/src/main/java/dev/jdbg/server/eval/ExpressionParser.java:53-56 | this level of the recursive descent never moves the cursor backwards and reports every ParseException at a position inside the text |
| Grammar.And | server/src/main/java/dev/jdbg/server/eval/ExpressionParser.java:60-67 | this level of the recursive descent never moves the cursor backwards and reports every ParseException at a position inside the text |
| Grammar.AndRest | server/src/main/java/dev/jdbg/server/eval/ExpressionParser.java:62-65 | this level of the recursive descent never moves the cursor backwards and reports every ParseException at a position inside the text |
| Grammar.Equality | server/src/main/java/dev/jdbg/server/eval/ExpressionParser.java:69-81 | this level of the recursive descent never moves the cursor backwards and reports every ParseException at a position inside the text |
| Grammar.EqualityRest | server/src/main/java/dev/jdbg/server/eval/ExpressionParser.java:71-79 | this level of the recursive descent never moves the cursor backwards and reports every ParseException at a position inside the text |
| Grammar.Comparison | server/src/main/java/dev/jdbg/server/eval/ExpressionParser.java:83-102 | this level of the recursive descent never moves the cursor backwards and reports every ParseException at a position inside the text |
| Grammar.ComparisonRest | server/src/main/java/dev/jdbg/server/eval/ExpressionParser.java:85-100 | this level of the recursive descent never moves the cursor backwards and reports every ParseException at a position inside the text |
| Grammar.Additive | server/src/main/java/dev/jdbg/server/eval/ExpressionParser.java:104-116 | this level of the recursive descent never moves the cursor backwards and reports every ParseException at a position inside the text |
| Grammar.AdditiveRest | server/src/main/java/dev/jdbg/server/eval/ExpressionParser.java:106-114 | this level of the recursive descent never moves the cursor backwards and reports every ParseException at a position inside the text |
| Grammar.Multiplicative | server/src/main/java/dev/jdbg/server/eval/ExpressionParser.java:118-132 | this level of the recursive descent never moves the cursor backwards and reports every ParseException at a position inside the text |
| Grammar.MultiplicativeRest | server/src/main/java/dev/jdbg/server/eval/ExpressionParser.java:120-130 | this level of the recursive descent never moves the cursor backwards and reports every ParseException at a position inside the text |
| Grammar.Unary | server/src/main/java/dev/jdbg/server/eval/ExpressionParser.java:134-154 | this level of the recursive descent never moves the cursor backwards and reports every ParseException at a position inside the text |
| Grammar.Postfix | server/src/main/java/dev/jdbg/server/eval/ExpressionParser.java:187-212 | this level of the recursive descent never moves the cursor backwards and reports every ParseException at a position inside the text |
| Grammar.PostfixRest | server/src/main/java/dev/jdbg/server/eval/ExpressionParser.java:190-209 | this level of the recursive descent never moves the cursor backwards and reports every ParseException at a position inside the text |
| Grammar.Primary | server/src/main/java/dev/jdbg/server/eval/ExpressionParser.java:214-267 | this level of the recursive descent never moves the cursor backwards and reports every ParseException at a position inside the text |
| Grammar.NewExpression | server/src/main/java/dev/jdbg/server/eval/ExpressionParser.java:269-284 | this level of the recursive descent never moves the cursor backwards and reports every ParseException at a position inside the text |
| Grammar.Arguments | server/src/main/java/dev/jdbg/server/eval/ExpressionParser.java:286-300 | this level of the recursive descent never moves the cursor backwards and reports every ParseException at a position inside the text |
| Grammar.ArgumentsRest | server/src/main/java/dev/jdbg/server/eval/ExpressionParser.java:291-296 | this level of the recursive descent never moves the cursor backwards and reports every ParseException at a position inside the text |
| Parser.ExpressionParser.constructor | server/src/main/java/dev/jdbg/server/eval/ExpressionParser.java:26-29 | a new parser holds the text with its cursor at 0 |
| Parser.ExpressionParser.Parse | server/src/main/java/dev/jdbg/server/eval/ExpressionParser.java:31-39 | `parse` returns what the grammar function `ParseAt` answers from the cursor: the whole text up to surrounding whitespace, or the unexpected character at its index |
| Parser.ExpressionParser.ParseOr | server/src/main/java/dev/jdbg/server/eval/ExpressionParser.java:51-58 | the loop over the mutable cursor yields the same tree or error, and leaves the cursor at the same place, as the recursive grammar function `Grammar.Or`, whose properties are the lemmas below |
| Parser.ExpressionParser.ParseAnd | server/src/main/java/dev/jdbg/server/eval/ExpressionParser.java:60-67 | the loop over the mutable cursor yields the same tree or error, and leaves the cursor at the same place, as the recursive grammar function `Grammar.And`, whose properties are the lemmas below |
| Parser.ExpressionParser.ParseEquality | server/src/main/java/dev/jdbg/server/eval/ExpressionParser.java:69-81 | the loop over the mutable cursor yields the same tree or error, and leaves the cursor at the same place, as the recursive grammar function `Grammar.Equality`, whose properties are the lemmas below |
| Parser.ExpressionParser.ParseComparison | server/src/main/java/dev/jdbg/server/eval/ExpressionParser.java:83-102 | the loop over the mutable cursor yields the same tree or error, and leaves the cursor at the same place, as the recursive grammar function `Grammar.Comparison`, whose properties are the lemmas below |
| Parser.ExpressionParser.ParseAdditive | server/src/main/java/dev/jdbg/server/eval/ExpressionParser.java:104-116 | the loop over the mutable cursor yields the same tree or error, and leaves the cursor at the same place, as the recursive grammar function `Grammar.Additive`, whose properties are the lemmas below |
| Parser.ExpressionParser.ParseMultiplicative | server/src/main/java/dev/jdbg/server/eval/ExpressionParser.java:118-132 | the loop over the mutable cursor yields the same tree or error, and leaves the cursor at the same place, as the recursive grammar function `Grammar.Multiplicative`, whose properties are the lemmas below |
| Parser.ExpressionParser.ParseUnary | server/src/main/java/dev/jdbg/server/eval/ExpressionParser.java:134-154 | the loop over the mutable cursor yields the same tree or error, and leaves the cursor at the same place, as the recursive grammar function `Grammar.Unary`, whose properties are the lemmas below |
| Parser.ExpressionParser.ParsePostfix | server/src/main/java/dev/jdbg/server/eval/ExpressionParser.java:187-212 | the loop over the mutable cursor yields the same tree or error, and leaves the cursor at the same place, as the recursive grammar function `Grammar.Postfix`, whose properties are the lemmas below |
| Parser.ExpressionParser.ParsePrimary | server/src/main/java/dev/jdbg/server/eval/ExpressionParser.java:214-267 | the loop over the mutable cursor yields the same tree or error, and leaves the cursor at the same place, as the recursive grammar function `Grammar.Primary`, whose properties are the lemmas below |
| Parser.ExpressionParser.ParseNewExpression | server/src/main/java/dev/jdbg/server/eval/ExpressionParser.java:269-284 | the loop over the mutable cursor yields the same tree or error, and leaves the cursor at the same place, as the recursive grammar function `Grammar.NewExpression`, whose properties are the lemmas below |
| Parser.ExpressionParser.ParseArguments | server/src/main/java/dev/jdbg/server/eval/ExpressionParser.java:286-300 | the loop over the mutable cursor yields the same tree or error, and leaves the cursor at the same place, as the recursive grammar function `Grammar.Arguments`, whose properties are the lemmas below |
| Parser.ExpressionParser.ParseIdentifier | server/src/main/java/dev/jdbg/server/eval/ExpressionParser.java:302-312 | the loop over the mutable cursor yields the same tree or error, and leaves the cursor at the same place, as the recursive grammar function `Grammar.Identifier`, whose properties are the lemmas below |
| Parser.ExpressionParser.ParseTypeName | server/src/main/java/dev/jdbg/server/eval/ExpressionParser.java:314-345 | the loop over the mutable cursor yields the same tree or error, and leaves the cursor at the same place, as the recursive grammar function `Grammar.TypeName`, whose properties are the lemmas below |
| Parser.ExpressionParser.ParseStringLiteral | server/src/main/java/dev/jdbg/server/eval/ExpressionParser.java:347-363 | the loop over the mutable cursor yields the same tree or error, and leaves the cursor at the same place, as the recursive grammar function `Grammar.StringLiteral`, whose properties are the lemmas below |
| Parser.ExpressionParser.ParseCharLiteral | server/src/main/java/dev/jdbg/server/eval/ExpressionParser.java:365-376 | the loop over the mutable cursor yields the same tree or error, and leaves the cursor at the same place, as the recursive grammar function `Grammar.CharLiteral`, whose properties are the lemmas below |
| Parser.ExpressionParser.ParseNumberLiteral | server/src/main/java/dev/jdbg/server/eval/ExpressionParser.java:392-450 | the loop over the mutable cursor yields the same tree or error, and leaves the cursor at the same place, as the recursive grammar function `Grammar.Number`, whose properties are the lemmas below |
| Parser.ExpressionParser.LookAheadForCast | server/src/main/java/dev/jdbg/server/eval/ExpressionParser.java:156-185 | the lookahead answers whether a parenthesized type name follows (`LooksLikeCast`) and puts the cursor back where it was |
| Parser.ExpressionParser.ParseDims | server/src/main/java/dev/jdbg/server/eval/ExpressionParser.java:333-341 | the `[]` loop of `parseTypeName` agrees with `Grammar.DimsRest` |
| Parser.ExpressionParser.ParseQualifiedRest | server/src/main/java/dev/jdbg/server/eval/ExpressionParser.java:319-330 | the `.name` loop of `parseTypeName` agrees with `Grammar.QualifiedRest` |
| Parser.ExpressionParser.ParseEscapeSequence | server/src/main/java/dev/jdbg/server/eval/ExpressionParser.java:378-390 | one escaped character is read and mapped by `Escape`; at the end of the text the read fails with the index error at that index |
| Parser.ExpressionParser.SkipDigits | server/src/main/java/dev/jdbg/server/eval/ExpressionParser.java:399-401 | the cursor ends where the digit run ends |
| Parser.ExpressionParser.ScanNumberLiteral | server/src/main/java/dev/jdbg/server/eval/ExpressionParser.java:392-439 | the scan of a number literal is `Grammar.ScanNumber`, and the cursor ends after its suffix |
| Parser.ExpressionParser.ScanExponent | server/src/main/java/dev/jdbg/server/eval/ExpressionParser.java:412-422 | an exponent is present exactly on `e`/`E`; its digits start after an optional sign, and the cursor ends after them |
| Parser.ExpressionParser.ScanSuffix | server/src/main/java/dev/jdbg/server/eval/ExpressionParser.java:424-437 | each suffix flag is set exactly on its letter in either case, and the cursor moves past a suffix only when there is one |
| Parser.ExpressionParser.SkipWhitespace | server/src/main/java/dev/jdbg/server/eval/ExpressionParser.java:452-456 | the cursor moves to `SkipWs` of where it was |
| Parser.ExpressionParser.Match | server/src/main/java/dev/jdbg/server/eval/ExpressionParser.java:462-479 | the result and the cursor are those of `Lexer.Match` |
| Parser.ExpressionParser.MatchKeyword | server/src/main/java/dev/jdbg/server/eval/ExpressionParser.java:481-491 | the result and the cursor are those of `Lexer.MatchKeyword` |
| Parser.ExpressionParser.Expect | server/src/main/java/dev/jdbg/server/eval/ExpressionParser.java:493-499 | success or the ParseException, and the cursor, are those of `Lexer.Expect` |
| ParserProps.MatchFails | server/src/main/java/dev/jdbg/server/eval/ExpressionParser.java:462-479 | an operator whose first character is not next does not match, and the cursor stops after the whitespace |
| ParserProps.OrRestStops | server/src/main/java/dev/jdbg/server/eval/ExpressionParser.java:53-56 | before a character that starts none of its operators, the loop stops with the tree it has |
| ParserProps.AndRestStops | server/src/main/java/dev/jdbg/server/eval/ExpressionParser.java:62-65 | before a character that starts none of its operators, the loop stops with the tree it has |
| ParserProps.EqualityRestStops | server/src/main/java/dev/jdbg/server/eval/ExpressionParser.java:71-79 | before a character that starts none of its operators, the loop stops with the tree it has |
| ParserProps.ComparisonRestStops | server/src/main/java/dev/jdbg/server/eval/ExpressionParser.java:85-100 | before a character that starts none of its operators, the loop stops with the tree it has |
| ParserProps.AdditiveRestStops | server/src/main/java/dev/jdbg/server/eval/ExpressionParser.java:106-114 | before a character that starts none of its operators, the loop stops with the tree it has |
| ParserProps.MultiplicativeRestStops | server/src/main/java/dev/jdbg/server/eval/ExpressionParser.java:120-130 | before a character that starts none of its operators, the loop stops with the tree it has |
| ParserProps.PostfixRestStops | server/src/main/java/dev/jdbg/server/eval/ExpressionParser.java:190-209 | before a character that starts none of its operators, the loop stops with the tree it has |
| ParserProps.RestAtEnd | server/src/main/java/dev/jdbg/server/eval/ExpressionParser.java:51-132 | at the end of the text every binary loop stops with the tree it has |
| ParserProps.OrOfUnary | server/src/main/java/dev/jdbg/server/eval/ExpressionParser.java:51-132 | an operand that reaches the end of the text is the whole expression at every precedence level, and an operand that fails fails every level |
| ParserProps.ParseOfUnary | server/src/main/java/dev/jdbg/server/eval/ExpressionParser.java:31-39 | a unary expression that covers the text up to whitespace is the parse; its error is the parse error |
| ParserProps.UnaryOfPostfix | server/src/main/java/dev/jdbg/server/eval/ExpressionParser.java:134-154 | text that starts with no prefix operator and no parenthesis is parsed as a postfix expression |
| ParserProps.ParseOfPrimary | server/src/main/java/dev/jdbg/server/eval/ExpressionParser.java:31-39 | a primary covering the whole text, with no prefix operator, is the whole parse |
| ParserProps.ParseOfPrimaryErr | server/src/main/java/dev/jdbg/server/eval/ExpressionParser.java:31-39 | a failing primary, with no prefix operator, fails the whole parse with its error |
| ParserProps.ParseName | server/src/main/java/dev/jdbg/server/eval/ExpressionParser.java:240-263 | an identifier alone parses to the literal for `true`/`false`/`null`, to `this`, or else to a variable; an identifier that only begins with a keyword is a variable |
| ParserProps.FrontAndBack | server/src/main/java/dev/jdbg/server/eval/ExpressionParser.java:192-201 | a dotted name read from the front and from the back is the same text |
| ParserProps.NameEnds | server/src/main/java/dev/jdbg/server/eval/ExpressionParser.java:302-312 | a field name in the text ends at the following dot or the end |
| ParserProps.FieldsOfPath | server/src/main/java/dev/jdbg/server/eval/ExpressionParser.java:187-212 | the field-access chain the parser builds from the front is the dotted path the interpreter reads |
| ParserProps.FieldInText | server/src/main/java/dev/jdbg/server/eval/ExpressionParser.java:192-201 | one `.field` suffix in the text is read as one field access |
| ParserProps.DotsInText | server/src/main/java/dev/jdbg/server/eval/ExpressionParser.java:190-209 | the `.f1.f2...` suffix of a dotted name is the chain the postfix loop reads |
| ParserProps.PostfixRestField | server/src/main/java/dev/jdbg/server/eval/ExpressionParser.java:192-201 | the field branch of the postfix loop builds a field access on the tree so far |
| ParserProps.PostfixOfDots | server/src/main/java/dev/jdbg/server/eval/ExpressionParser.java:187-212 | the postfix loop reads a chain of `.field` suffixes into nested field accesses up to the end of the text |
| ParserProps.ParseDottedName | server/src/main/java/dev/jdbg/server/eval/ExpressionParser.java:187-212 | a dotted name parses into the chain of field accesses that the interpreter reads back as the same name |
| ParserProps.DottedNameRoundTrip | server/src/main/java/dev/jdbg/server/eval/ExpressionParser.java:187-212 | a dotted name parsed, then read by the interpreter as a class name, is the name itself |
| ParserProps.ScanDecimal | server/src/main/java/dev/jdbg/server/eval/ExpressionParser.java:392-439 | a decimal numeral, with or without a type suffix, scans as an integer literal ending where its digits end |
| ParserProps.NumberOfDecimal | server/src/main/java/dev/jdbg/server/eval/ExpressionParser.java:439-449 | a decimal numeral is the literal of its kind when it fits that kind, else the library number-format error |
| ParserProps.PrimaryOfDigit | server/src/main/java/dev/jdbg/server/eval/ExpressionParser.java:235-237 | a primary that starts with a digit is a number literal |
| ParserProps.ParseIntLiteral | server/src/main/java/dev/jdbg/server/eval/ExpressionParser.java:447-449 | a numeral that fits an int parses to that int, one that does not is the number-format error |
| ParserProps.ParseLongLiteral | server/src/main/java/dev/jdbg/server/eval/ExpressionParser.java:445-446 | a numeral with an `L` suffix is a long literal within the long range |
| ParserProps.NegatedLiteralOutOfRange | server/src/main/java/dev/jdbg/server/eval/ExpressionParser.java:138-140 | `-n` for every numeral n beyond the int range is the number-format error, so the smallest int cannot be written as a literal |
| ParserProps.EscapeCharReadsBack | server/src/main/java/dev/jdbg/server/eval/ExpressionParser.java:378-390 | a character written with its escape reads back as itself |
| ParserProps.StringBodyChar | server/src/main/java/dev/jdbg/server/eval/ExpressionParser.java:350-360 | one character written with its escape is one turn of the string loop |
| ParserProps.StringBodyAtQuote | server/src/main/java/dev/jdbg/server/eval/ExpressionParser.java:350-360 | at the closing quote the string loop ends with what it has read |
| ParserProps.StringBodyReadsBack | server/src/main/java/dev/jdbg/server/eval/ExpressionParser.java:350-360 | the string loop reads escaped text back up to the closing quote |
| ParserProps.StringLiteralRoundTrip | server/src/main/java/dev/jdbg/server/eval/ExpressionParser.java:347-363 | any string, written with its escapes between quotes, parses back to exactly that string |
| ParserProps.CharLiteralParses | server/src/main/java/dev/jdbg/server/eval/ExpressionParser.java:365-376 | a quoted character reads as that character |
| ParserProps.EscapedCharLiteralParses | server/src/main/java/dev/jdbg/server/eval/ExpressionParser.java:365-390 | a backslash and any character between quotes read as the escape of that character |
| ParserProps.LoneQuoteFails | server/src/main/java/dev/jdbg/server/eval/ExpressionParser.java:365-376 | a lone quote reads past the end: the index error at 1, not a ParseException |
| ParserProps.DimsRestStopsBeforeBracket | server/src/main/java/dev/jdbg/server/eval/ExpressionParser.java:333-341 | the `[]` loop of a type name only stops before a character other than `[` |
| ParserProps.NewNeverCreatesArray | server/src/main/java/dev/jdbg/server/eval/ExpressionParser.java:269-284 | whatever follows `new`, the array branch is never reached: `new` yields only object creations or errors |
| ParserProps.CastScanOfName | server/src/main/java/dev/jdbg/server/eval/ExpressionParser.java:167-178 | the cast lookahead runs over identifier characters up to the first other character |
| ParserProps.RestAtStop | server/src/main/java/dev/jdbg/server/eval/ExpressionParser.java:51-132 | before a character that starts no operator every loop stops with the tree it has; a lone `=` is such a character |
| ParserProps.UnaryOfMinus | server/src/main/java/dev/jdbg/server/eval/ExpressionParser.java:138-140 | a `-` before an operand builds its negation |
| ParserProps.UnaryOfCast | server/src/main/java/dev/jdbg/server/eval/ExpressionParser.java:146-151 | when the lookahead accepts a parenthesized type name, the unary operand after it is cast to that type |
| ParserProps.CastHead | server/src/main/java/dev/jdbg/server/eval/ExpressionParser.java:156-185 | `(a)` at the start of `(a)-b` passes the lookahead and reads as type `a` |
| ParserProps.PrimaryOfName | server/src/main/java/dev/jdbg/server/eval/ExpressionParser.java:240-263 | a non-keyword identifier not followed by `(` is a variable |
| ParserProps.VariableToEnd | server/src/main/java/dev/jdbg/server/eval/ExpressionParser.java:240-263 | a name reaching the end of the text is a variable |
| ParserProps.ParenthesizedNameIsCast | server/src/main/java/dev/jdbg/server/eval/ExpressionParser.java:146-151 | for every name a, `(a)-b` parses as the cast of `-b` to type a, not as a subtraction |
| ParserProps.SingleEqualsUnexpected | server/src/main/java/dev/jdbg/server/eval/ExpressionParser.java:31-39 | a lone `=` ends the expression and is reported as the unexpected character at its index |
| ParserProps.ArgumentsEndWithParen | server/src/main/java/dev/jdbg/server/eval/ExpressionParser.java:286-300 | an argument list that parses ends just after its closing parenthesis |
| ParserPrefix.UnaryOfNot | server/src/main/java/dev/jdbg/server/eval/ExpressionParser.java:135-137 | a `!` that does not start `!=` wraps the unary expression after it in a negation node |
| ParserPrefix.UnaryOfPlus | server/src/main/java/dev/jdbg/server/eval/ExpressionParser.java:141-143 | a unary `+` is skipped: the result is the unary expression after it, with no node of its own |
| ParserPrefix.VarToEnd | server/src/main/java/dev/jdbg/server/eval/ExpressionParser.java:240-263 | a variable name reaching the end of the text is a variable operand |
| ParserPrefix.ParseOfUnaryAt | server/src/main/java/dev/jdbg/server/eval/ExpressionParser.java:31-39 | a unary expression from the start reaching the end of the text is the parse |
| ParserPrefix.UnaryPlusBuildsNoNode | server/src/main/java/dev/jdbg/server/eval/ExpressionParser.java:141-143 | for every variable a, `+a` parses to the variable itself |
| ParserPrefix.MinusNegates | server/src/main/java/dev/jdbg/server/eval/ExpressionParser.java:138-140 | for every variable a, `-a` parses to the negation of the variable |
| ParserPrefix.DoubleNotNests | server/src/main/java/dev/jdbg/server/eval/ExpressionParser.java:135-137 | for every variable a, `!!a` parses to two nested negations |
| ParserPrefix.NegatedLiteralInRange | server/src/main/java/dev/jdbg/server/eval/ExpressionParser.java:138-140 | for every numeral n up to the largest int, `-n` parses to the negation of the int literal n, never to a negative literal |
| ParserPrefix.CastOpen | server/src/main/java/dev/jdbg/server/eval/ExpressionParser.java:156-185 | `(T)` for every type name T passes the cast lookahead and reads T as the type name |
| ParserPrefix.CastBindsTighterThanAdd | server/src/main/java/dev/jdbg/server/eval/ExpressionParser.java:146-151 | for every type name T and variables a, b: `(T) a + b` is the sum of the cast of a and b |
| ParserNumbers.DigitRun | server/src/main/java/dev/jdbg/server/eval/ExpressionParser.java:399-401 | the digit loop stops at the first non-digit |
| ParserNumbers.ParseNumeral | server/src/main/java/dev/jdbg/server/eval/ExpressionParser.java:235-237 | a number literal covering the text is the parse |
| ParserNumbers.ParseNumeralErr | server/src/main/java/dev/jdbg/server/eval/ExpressionParser.java:235-237 | a number literal that the library parser rejects fails the parse with its error |
| ParserNumbers.FractionIsDouble | server/src/main/java/dev/jdbg/server/eval/ExpressionParser.java:403-410 | for all digit strings m, f: `m.f` is a double literal with that text |
| ParserNumbers.FloatSuffix | server/src/main/java/dev/jdbg/server/eval/ExpressionParser.java:430-442 | `m.f` followed by `f` or `F` is a float literal; the suffix is not part of its text |
| ParserNumbers.DoubleSuffix | server/src/main/java/dev/jdbg/server/eval/ExpressionParser.java:433-444 | `m.f` followed by `d` or `D` is a double literal; the lower-case `d` is cut from its text and the upper-case `D` is kept |
| ParserNumbers.LeadingDotIsDouble | server/src/main/java/dev/jdbg/server/eval/ExpressionParser.java:235 | `.f` for a digit string f starts a number and is a double literal |
| ParserNumbers.ExponentIsDouble | server/src/main/java/dev/jdbg/server/eval/ExpressionParser.java:412-422 | `m.fee` with exponent digits is a double literal with that text |
| ParserNumbers.ExponentWithoutDigits | server/src/main/java/dev/jdbg/server/eval/ExpressionParser.java:412-422 | `me` with no exponent digits is the library number-format error on that text |
| ParserCases.MatchFromBlank | server/src/main/java/dev/jdbg/server/eval/ExpressionParser.java:462-479 | matching from before the blanks is matching from after them |
| ParserCases.UnaryFromBlank | server/src/main/java/dev/jdbg/server/eval/ExpressionParser.java:134-154 | a unary expression read from before its leading blanks is the one read after them |
| ParserCases.ParseOfAdditive | server/src/main/java/dev/jdbg/server/eval/ExpressionParser.java:31-39 | a sum covering the text is the whole parse |
| ParserCases.ParseOfAnd | server/src/main/java/dev/jdbg/server/eval/ExpressionParser.java:31-39 | a conjunction covering the text is the whole parse |
| ParserCases.ParseOfOr | server/src/main/java/dev/jdbg/server/eval/ExpressionParser.java:31-39 | an expression from the start reaching the end of the text is the parse |
| ParserCases.ParseOfOrErr | server/src/main/java/dev/jdbg/server/eval/ExpressionParser.java:31-39 | an expression that fails fails the parse with the same error |
| ParserCases.OrOfErr | server/src/main/java/dev/jdbg/server/eval/ExpressionParser.java:51-132 | an operand that fails fails every precedence level above it with the same error |
| ParserCases.ComparisonRestOne | server/src/main/java/dev/jdbg/server/eval/ExpressionParser.java:83-102 | a single `<` or `>` comparison, not followed by another comparison operator, builds one comparison node |
| ParserCases.AdditiveOfUnary | server/src/main/java/dev/jdbg/server/eval/ExpressionParser.java:104-132 | a unary operand before a character that starts no `*`/`/`/`%`/`+`/`-` is the whole sum |
| ParserCases.MultiplicativeOfUnary | server/src/main/java/dev/jdbg/server/eval/ExpressionParser.java:118-132 | a unary operand before a character that starts no multiplicative operator is the whole product |
| ParserCases.OrOfAdditive | server/src/main/java/dev/jdbg/server/eval/ExpressionParser.java:51-102 | a sum before a character that starts no comparison, equality or logical operator is the whole expression |
| ParserCases.UnaryOfParen | server/src/main/java/dev/jdbg/server/eval/ExpressionParser.java:146-153 | a parenthesis that the lookahead does not take for a cast starts a postfix expression |
| ParserCases.PrimaryOfParen | server/src/main/java/dev/jdbg/server/eval/ExpressionParser.java:218-222 | a parenthesized expression is a primary ending after its closing parenthesis |
| ParserCases.PrimaryOfParenUnclosed | server/src/main/java/dev/jdbg/server/eval/ExpressionParser.java:218-222 | a parenthesized expression running to the end fails with "expected `)`" at the end |
| ParserCases.NotACast | server/src/main/java/dev/jdbg/server/eval/ExpressionParser.java:156-185 | `(a` followed by a blank and anything but `)` is not taken for a cast |
| ParserCases.MulBindsTighterThanAdd | server/src/main/java/dev/jdbg/server/eval/ExpressionParser.java:104-132 | for all variables a, b, c: `a + b * c` is `a + (b * c)` |
| ParserCases.ParenthesesGroupFirst | server/src/main/java/dev/jdbg/server/eval/ExpressionParser.java:214-222 | for all variables a, b, c: `(a + b) * c` multiplies the parenthesized sum by c |
| ParserCases.ComparisonsBindTighterThanAnd | server/src/main/java/dev/jdbg/server/eval/ExpressionParser.java:60-102 | for all variables a, b, c, d: `a < b && c > d` is the conjunction of the two comparisons |
| ParserCases.SubtractionIsLeftAssociative | server/src/main/java/dev/jdbg/server/eval/ExpressionParser.java:104-116 | for all variables a, b, c: `a - b - c` is `(a - b) - c` |
| ParserChains.MemberAt | server/src/main/java/dev/jdbg/server/eval/ExpressionParser.java:192-201 | `.f` before `.`, `[` or the end builds a field access |
| ParserChains.EmptyArguments | server/src/main/java/dev/jdbg/server/eval/ExpressionParser.java:286-300 | `()` is the empty argument list |
| ParserChains.CallAt | server/src/main/java/dev/jdbg/server/eval/ExpressionParser.java:192-197 | `.m()` builds a call of m on the expression before it |
| ParserChains.IndexAt | server/src/main/java/dev/jdbg/server/eval/ExpressionParser.java:202-205 | `[i]` builds an array access indexed by the variable i |
| ParserChains.SuffixAt | server/src/main/java/dev/jdbg/server/eval/ExpressionParser.java:190-209 | one suffix at the front of the text is one turn of the postfix loop, building its node |
| ParserChains.PostfixOfChain | server/src/main/java/dev/jdbg/server/eval/ExpressionParser.java:187-212 | the postfix loop reads any chain of suffixes, up to the end, into nested nodes with the first suffix innermost |
| ParserChains.ParseChain | server/src/main/java/dev/jdbg/server/eval/ExpressionParser.java:187-212 | for every variable and every chain of `.f`, `.m()` and `[i]` suffixes, the text parses into that chain applied left to right (`obj.foo().bar().baz()` has the `baz` call at its root) |
| ParserChains.ParseReceiverlessCall | server/src/main/java/dev/jdbg/server/eval/ExpressionParser.java:256-260 | for every name f and chain of suffixes, `f()` followed by the chain is a call with no receiver, the suffixes applied to its result |
| ParserErrors.OperandMissing | server/src/main/java/dev/jdbg/server/eval/ExpressionParser.java:266 | where no operand starts, the unary level fails with "expected expression" at the first non-blank position |
| ParserErrors.NoOperandIsExpectedExpression | server/src/main/java/dev/jdbg/server/eval/ExpressionParser.java:266 | every text whose first non-blank character starts no expression, the empty text included, fails with "expected expression" at that position |
| ParserErrors.PostfixOfPrimaryErr | server/src/main/java/dev/jdbg/server/eval/ExpressionParser.java:187-188 | a failing primary fails the postfix expression |
| ParserErrors.MultiplicativeOfErr | server/src/main/java/dev/jdbg/server/eval/ExpressionParser.java:118-119 | a failing unary operand fails the product |
| ParserErrors.AdditiveRestAddErr | server/src/main/java/dev/jdbg/server/eval/ExpressionParser.java:107-108 | a `+` whose right operand fails fails the sum |
| ParserErrors.TrailingOperatorExpectsExpression | server/src/main/java/dev/jdbg/server/eval/ExpressionParser.java:107-108 | for every variable a, `a +` fails with "expected expression" at the end of the text |
| ParserErrors.UnclosedParenthesis | server/src/main/java/dev/jdbg/server/eval/ExpressionParser.java:218-222 | for all variables a, b, `(a + b` fails with "expected `)`" at the end of the text |
| ParserErrors.IndexUnclosed | server/src/main/java/dev/jdbg/server/eval/ExpressionParser.java:202-205 | an index running to the end of the text fails with "expected `]`" at the end |
| ParserErrors.UnclosedIndex | server/src/main/java/dev/jdbg/server/eval/ExpressionParser.java:202-205 | for every variable a and int numeral n, `a[n` fails with "expected `]`" at the end of the text |
| ParserErrors.ParseOfOrLeftover | server/src/main/java/dev/jdbg/server/eval/ExpressionParser.java:35-37 | an expression followed by a non-blank character fails the parse with that character as unexpected, at its index |
| ParserErrors.UnexpectedAfterName | server/src/main/java/dev/jdbg/server/eval/ExpressionParser.java:35-37 | for every variable a and character c that starts no operator, `a c...` fails with c unexpected at its index |
| ParserErrors.PrimaryOfNew | server/src/main/java/dev/jdbg/server/eval/ExpressionParser.java:253-254 | `new` as a whole word in primary position hands the rest to the creation parser |
| ParserErrors.TypeNameOfName | server/src/main/java/dev/jdbg/server/eval/ExpressionParser.java:314-345 | a simple type name is the identifier followed by the `[]` loop |
| ParserErrors.NewExpressionOfErr | server/src/main/java/dev/jdbg/server/eval/ExpressionParser.java:269-271 | a failing type name fails the creation expression |
| ParserErrors.NewArrayIsRefused | server/src/main/java/dev/jdbg/server/eval/ExpressionParser.java:269-284 | for every type name t, `new t[...` with anything but `]` after the bracket fails with "expected `]`" right after the bracket |
| ParserErrors.StringBodyRunsOut | server/src/main/java/dev/jdbg/server/eval/ExpressionParser.java:350-361 | a string body without quote or backslash runs to the end, where "expected `\"`" is raised |
| ParserErrors.UnterminatedString | server/src/main/java/dev/jdbg/server/eval/ExpressionParser.java:347-363 | every unterminated string literal (no quote, no backslash) fails with "expected `\"`" at the end of the text |
| ParserErrors.UnterminatedChar | server/src/main/java/dev/jdbg/server/eval/ExpressionParser.java:365-376 | a character literal whose character is not followed by a closing quote fails with "expected `'`" just after the character |
| ParserFixes.DimsRestFixed | server/src/main/java/dev/jdbg/server/eval/ExpressionParser.java:333-341 | the corrected `[]` loop never moves backwards and stays within the text |
| ParserFixes.TypeNameFixed | server/src/main/java/dev/jdbg/server/eval/ExpressionParser.java:314-345 | the corrected type name never moves backwards and reports errors inside the text |
| ParserFixes.DimsRestFixedAgrees | server/src/main/java/dev/jdbg/server/eval/ExpressionParser.java:333-341 | wherever the as-written `[]` loop succeeds, the corrected one reads the same pairs and stops at the same place |
| ParserFixes.NewExpressionFixedAgrees | server/src/main/java/dev/jdbg/server/eval/ExpressionParser.java:269-284 | every creation the as-written parser accepts is read the same by the corrected one |
| ParserFixes.NewArrayCreatesArray | server/src/main/java/dev/jdbg/server/eval/ExpressionParser.java:273-278 | for every type name t and variable a, the corrected `new t[a]` is the array creation of t with size a |
| ParserFixes.CharLiteralFixed | server/src/main/java/dev/jdbg/server/eval/ExpressionParser.java:365-376 | the corrected character literal never moves backwards and reports errors inside the text |
| ParserFixes.CharLiteralFixedRaisesParseErrors | server/src/main/java/dev/jdbg/server/eval/ExpressionParser.java:365-376 | the corrected literal fails only with a ParseException, at the index where the as-written one reads past the end, and equals the as-written one everywhere else |
| ParserFixes.LoneQuoteIsParseError | server/src/main/java/dev/jdbg/server/eval/ExpressionParser.java:365-376 | with the correction a lone quote is a ParseException at the end of the text |
| Interp.PotentialClassName | server/src/main/java/dev/jdbg/server/eval/JdiInterpreter.java:158-170 | only variables and field chains on a variable read as a name; a variable reads as its own name |
| Interp.ResolveClass | server/src/main/java/dev/jdbg/server/eval/JdiInterpreter.java:143-152 | a class is resolved exactly when the expression reads as a name and a type of that name is loaded, and it is that name |
| Interp.ToBoolean | server/src/main/java/dev/jdbg/server/eval/JdiInterpreter.java:645-650 | only a boolean converts, to its own value; anything else is "expected boolean" |
| Interp.ToDouble | server/src/main/java/dev/jdbg/server/eval/JdiInterpreter.java:652-675 | exactly the non-boolean primitives convert; integers convert exactly, float and double to their bits; anything else is "expected numeric" |
| Interp.Compare | server/src/main/java/dev/jdbg/server/eval/JdiInterpreter.java:545-548 | on integers that doubles hold exactly, each comparison operator is the mathematical comparison |
| Interp.IntArith | server/src/main/java/dev/jdbg/server/eval/JdiInterpreter.java:564-576 | arithmetic on int-kind operands always yields an int |
| Interp.LongArith | server/src/main/java/dev/jdbg/server/eval/JdiInterpreter.java:564-576 | arithmetic involving a long always yields a long |
| Interp.Arith | server/src/main/java/dev/jdbg/server/eval/JdiInterpreter.java:564-576 | the result kind is double if either side is double, else float if either is float, else long if either is long, else int; the value is well formed for its kind |
| Interp.ReferenceTypeName | server/src/main/java/dev/jdbg/server/eval/JdiInterpreter.java:582-618 | every object but the class marker has a reference type name |
| Interp.FirstNoArg | server/src/main/java/dev/jdbg/server/eval/JdiInterpreter.java:596-605 | the no-argument `toString` found is one of the candidates and takes no argument; none found means no candidate takes none |
| Interp.ObjectText | server/src/main/java/dev/jdbg/server/eval/JdiInterpreter.java:596-616 | an object with no no-argument `toString` prints as its type name, `@`, and its unique id in hexadecimal |
| Interp.ValueToString | server/src/main/java/dev/jdbg/server/eval/JdiInterpreter.java:582-618 | only the class marker has no text; `null` prints as "null" and a string as its own text |
| Interp.UniqueId | server/src/main/java/dev/jdbg/server/eval/JdiInterpreter.java:620-643 | every object but the class marker has an identity |
| Interp.ValuesEqual | server/src/main/java/dev/jdbg/server/eval/JdiInterpreter.java:620-643 | equality fails only when a class marker is compared with an object |
| Interp.TypeOf | server/src/main/java/dev/jdbg/server/eval/JdiInterpreter.java:386-435 | every value but null and the class marker has a type, primitive exactly for primitives |
| Interp.WrapperType | server/src/main/java/dev/jdbg/server/eval/JdiInterpreter.java:462-474 | exactly the eight primitive type names have a wrapper class |
| Interp.IsAssignable | server/src/main/java/dev/jdbg/server/eval/JdiInterpreter.java:386-435 | assignability fails only for the class marker; null is assignable exactly to reference parameters |
| Interp.AllAssignable | server/src/main/java/dev/jdbg/server/eval/JdiInterpreter.java:366-373 | the parameter loop accepts exactly when every argument is assignable to its parameter; it fails only on a class marker |
| Interp.FirstCompatible | server/src/main/java/dev/jdbg/server/eval/JdiInterpreter.java:355-384 | the method found is a candidate that is applicable to the arguments; none found means no candidate is applicable |
| Interp.FindMethod | server/src/main/java/dev/jdbg/server/eval/JdiInterpreter.java:355-384 | a method found has the name asked for, is declared or inherited by the type, and is applicable to the arguments |
| Interp.LiteralValue | server/src/main/java/dev/jdbg/server/eval/JdiInterpreter.java:105-129 | only the null literal mirrors to null; a string literal mirrors to a fresh string with that text |
| Interp.StaticField | server/src/main/java/dev/jdbg/server/eval/JdiInterpreter.java:187-199 | a field the class does not have is "static field not found"; a value read is that of a static field of the class |
| Interp.FieldOf | server/src/main/java/dev/jdbg/server/eval/JdiInterpreter.java:201-231 | a field of null is "field on null" and a field of a primitive is "field on primitive" |
| Interp.InvokeStatic | server/src/main/java/dev/jdbg/server/eval/JdiInterpreter.java:331-353 | with no applicable static method the call is "static method not found", naming the method, the argument count and the class |
| Interp.CallOn | server/src/main/java/dev/jdbg/server/eval/JdiInterpreter.java:300-329 | a call on null is "method on null" and a call on a primitive is "method on primitive" |
| Interp.ElementOf | server/src/main/java/dev/jdbg/server/eval/JdiInterpreter.java:476-500 | indexing succeeds exactly on an array with an int index inside it, giving that element; an int index outside it is "index out of bounds" with the index |
| Interp.UnaryOn | server/src/main/java/dev/jdbg/server/eval/JdiInterpreter.java:677-704 | `!` succeeds exactly on booleans and negates them; `-` succeeds exactly on int, long, float and double |
| Interp.CastTo | server/src/main/java/dev/jdbg/server/eval/JdiInterpreter.java:706-743 | a cast of null is null, a cast of a boolean is "expected numeric", and an object casts to itself when the type is loaded, else "unknown type" |
| Interp.InstanceOfTest | server/src/main/java/dev/jdbg/server/eval/JdiInterpreter.java:745-780 | `null instanceof T` is false, and every successful test answers a boolean |
| Interp.ArrayTypeName | server/src/main/java/dev/jdbg/server/eval/JdiInterpreter.java:837-857 | an array type name starts with `[` |
| Interp.Replace | server/src/main/java/dev/jdbg/server/eval/JdiInterpreter.java:837-857 | each occurrence of the character is replaced and nothing else changes |
| Interp.NewArrayOf | server/src/main/java/dev/jdbg/server/eval/JdiInterpreter.java:812-835 | a size that is not an int is "array size not integer", and a negative one is "negative array size" |
| Interp.EvalArgs | server/src/main/java/dev/jdbg/server/eval/JdiInterpreter.java:268-272 | the evaluated arguments are as many as the argument expressions |
| Interp.Evaluate | server/src/main/java/dev/jdbg/server/eval/JdiInterpreter.java:59-73 | a successful evaluation is the evaluation of the expression and never a class; an evaluation error is passed on unchanged |
| InterpProps.CanWidenIsWideningChain | server/src/main/java/dev/jdbg/server/eval/JdiInterpreter.java:449-460 | `canWiden` is exactly the one-to-five-step chain of widening primitive conversions of the Java Language Specification, section 5.1.2 |
| InterpProps.CanWidenStrictOrder | server/src/main/java/dev/jdbg/server/eval/JdiInterpreter.java:449-460 | widening is irreflexive and transitive; nothing widens to char, byte or boolean, and boolean widens to nothing |
| InterpProps.WrapperTypeInjective | server/src/main/java/dev/jdbg/server/eval/JdiInterpreter.java:462-474 | distinct primitive types have distinct wrapper classes |
| InterpProps.TruncDivRem | server/src/main/java/dev/jdbg/server/eval/JdiInterpreter.java:545-561 | division and remainder truncate as Java's do: the remainder is smaller than the divisor in size and takes the dividend's sign |
| InterpProps.IntAddSaturates | server/src/main/java/dev/jdbg/server/eval/JdiInterpreter.java:564-576 | an int sum is exact where Java does not overflow, and beyond that saturates where Java wraps around |
| InterpProps.IntDivIsTruncating | server/src/main/java/dev/jdbg/server/eval/JdiInterpreter.java:545-576 | int division truncates, except that the one overflowing quotient saturates where Java wraps around |
| InterpProps.RemainderByZeroIsZero | server/src/main/java/dev/jdbg/server/eval/JdiInterpreter.java:549-555 | an int `%` by zero yields 0 instead of raising |
| InterpProps.DivisionByZeroRaises | server/src/main/java/dev/jdbg/server/eval/JdiInterpreter.java:549-554 | `/` by a zero of any numeric kind is the interpreter's "division by zero" |
| InterpProps.NegateTwice | server/src/main/java/dev/jdbg/server/eval/JdiInterpreter.java:677-704 | int negation is an involution, and the smallest int is its own negation |
| InterpProps.CastFromInt | server/src/main/java/dev/jdbg/server/eval/JdiInterpreter.java:706-743 | casts from int are Java's widening and narrowing conversions; a cast to boolean is refused |
| InterpProps.CastLongToIntSaturates | server/src/main/java/dev/jdbg/server/eval/JdiInterpreter.java:706-743 | a long outside the int range saturates when cast to int, where Java keeps its low 32 bits |
| InterpProps.CharIntRoundTrip | server/src/main/java/dev/jdbg/server/eval/JdiInterpreter.java:706-743 | a char cast to int and back is the same char |
| InterpProps.BooleansNeverEqual | server/src/main/java/dev/jdbg/server/eval/JdiInterpreter.java:620-643 | two booleans never compare equal |
| InterpProps.TrueEqualsTrueIsFalse | server/src/main/java/dev/jdbg/server/eval/JdiInterpreter.java:529-534 | `true == true` evaluates to false and `true != true` to true |
| InterpProps.StringLiteralsNeverIdentical | server/src/main/java/dev/jdbg/server/eval/JdiInterpreter.java:529-534 | two string literals are never `==` |
| InterpProps.IntegerEqualityIsNumeric | server/src/main/java/dev/jdbg/server/eval/JdiInterpreter.java:620-643 | integers of any kinds are equal exactly when their numeric values are |
| InterpProps.ObjectEqualityIsIdentity | server/src/main/java/dev/jdbg/server/eval/JdiInterpreter.java:620-643 | objects are equal exactly when their unique ids are |
| InterpProps.ValuesEqualSymmetric | server/src/main/java/dev/jdbg/server/eval/JdiInterpreter.java:620-643 | `==` is symmetric whenever the VM's double equality is |
| InterpProps.CompareEqSymmetric | server/src/main/java/dev/jdbg/server/eval/JdiInterpreter.java:545-548 | numeric equality is symmetric whenever the VM's double equality is |
| InterpProps.AndShortCircuits | server/src/main/java/dev/jdbg/server/eval/JdiInterpreter.java:504-510 | `&&` with a false left side is false, whatever the right side would do |
| InterpProps.OrShortCircuits | server/src/main/java/dev/jdbg/server/eval/JdiInterpreter.java:512-518 | `\|\|` with a true left side is true, whatever the right side would do |
| InterpProps.ConditionalNeedsBoolean | server/src/main/java/dev/jdbg/server/eval/JdiInterpreter.java:504-518 | `&&` and `\|\|` with a non-boolean left side are "expected boolean" |
| InterpProps.ConcatenationText | server/src/main/java/dev/jdbg/server/eval/JdiInterpreter.java:524-526 | `+` with a string on either side is a new string of both sides' texts |
| InterpProps.ConcatenateInt | server/src/main/java/dev/jdbg/server/eval/JdiInterpreter.java:524-526 | a string plus an int is the string followed by the int's decimal text |
| InterpProps.FirstCompatibleIsFirst | server/src/main/java/dev/jdbg/server/eval/JdiInterpreter.java:355-384 | the method found is the first applicable candidate: every candidate before it is inapplicable |
| InterpProps.FindOnlyFailsOnMarkers | server/src/main/java/dev/jdbg/server/eval/JdiInterpreter.java:355-384 | method lookup fails only when a class marker is an argument |
| InterpProps.NullArgument | server/src/main/java/dev/jdbg/server/eval/JdiInterpreter.java:386-435 | null is accepted by every reference parameter and by no primitive one |
| InterpProps.IntArgument | server/src/main/java/dev/jdbg/server/eval/JdiInterpreter.java:386-435 | an int is accepted by int, long, float and double parameters, and among reference types only by `java.lang.Integer` |
| InterpProps.InstanceOfAgreesWithAssignability | server/src/main/java/dev/jdbg/server/eval/JdiInterpreter.java:745-780 | for an object of a loaded class, `instanceof T` holds exactly when the object is assignable to T |
| InterpProps.ClassReachesInherited | server/src/main/java/dev/jdbg/server/eval/JdiInterpreter.java:386-435 | every class reaches itself and everything its superclass reaches |
| InterpProps.ImplementsSuperinterface | server/src/main/java/dev/jdbg/server/eval/JdiInterpreter.java:437-447 | a class reaches every interface it lists and their superinterfaces, transitively |
| InterpProps.PotentialClassNameOfPath | server/src/main/java/dev/jdbg/server/eval/JdiInterpreter.java:158-170 | a dotted field path reads as its dotted name |
| InterpProps.PathOfPotentialClassName | server/src/main/java/dev/jdbg/server/eval/JdiInterpreter.java:158-170 | only dotted field paths read as names |
| InterpProps.ClassNameIsNotAValue | server/src/main/java/dev/jdbg/server/eval/JdiInterpreter.java:59-73 | a dotted name of a loaded class, evaluated on its own, is refused as a class used as a value |
| InterpProps.StaticFieldThroughClassName | server/src/main/java/dev/jdbg/server/eval/JdiInterpreter.java:187-199 | `C.f` for a loaded class C is the static field read |
| InterpProps.NamedReceiverIsTakenForClass | server/src/main/java/dev/jdbg/server/eval/JdiInterpreter.java:274-287 | a call whose receiver is a plain name with no class of that name loaded is "class not loaded", even when the name is a local variable |
| InterpProps.ArgumentsFirst | server/src/main/java/dev/jdbg/server/eval/JdiInterpreter.java:267-287 | arguments are evaluated before the receiver: an argument error is the call's error |
| InterpFixes.WrapCongruent | server/src/main/java/dev/jdbg/server/eval/JdiInterpreter.java:564-576 | wrapping to 32 bits keeps the value modulo 2^32 |
| InterpFixes.JavaBooleanEquality | server/src/main/java/dev/jdbg/server/eval/JdiInterpreter.java:529-534 | with the correction, booleans are `==` exactly when equal and `!=` exactly when different |
| InterpFixes.JavaIntArithWraps | server/src/main/java/dev/jdbg/server/eval/JdiInterpreter.java:545-576 | with the correction, int arithmetic yields the int congruent to the exact result modulo 2^32, and the exact result whenever it is an int |
| InterpFixes.JavaIntOverflowWraps | server/src/main/java/dev/jdbg/server/eval/JdiInterpreter.java:545-576 | with the correction, the largest int plus one and the smallest int divided by -1 are the smallest int |
| InterpFixes.JavaRemainderByZeroThrows | server/src/main/java/dev/jdbg/server/eval/JdiInterpreter.java:549-555 | with the correction, an integer `%` by zero throws "division by zero", as `/` does |
| InterpFixes.JavaIntArithAgrees | server/src/main/java/dev/jdbg/server/eval/JdiInterpreter.java:545-576 | where the exact result is an int and nothing is divided by zero, the corrected arithmetic is the as-written one |
| InterpFixes.JavaLongToIntKeepsLowBits | server/src/main/java/dev/jdbg/server/eval/JdiInterpreter.java:706-743 | with the correction, `(int)` of a long is the int congruent to it modulo 2^32, and the long itself when it is an int |
| InterpFixes.JavaCastAgrees | server/src/main/java/dev/jdbg/server/eval/JdiInterpreter.java:706-743 | for a long that is an int, the corrected cast is the as-written one |
| InterpFixes.LocalReceiverIsCalled | server/src/main/java/dev/jdbg/server/eval/JdiInterpreter.java:274-287 | with the correction, a call on a local variable's name invokes the method on its value |
| InterpFixes.JavaCallAgrees | server/src/main/java/dev/jdbg/server/eval/JdiInterpreter.java:267-329 | for every receiver that is not a local's name, the corrected call is the as-written one |
| Interpreter.LastBinding | server/src/main/java/dev/jdbg/server/eval/JdiInterpreter.java:36-46 | the index of the last variable with that name, -1 when there is none |
| Interpreter.GatheredIsLastBinding | server/src/main/java/dev/jdbg/server/eval/JdiInterpreter.java:36-46 | a name is bound in the gathered locals exactly when some visible variable has it, and to the value of the last such variable |
| Interpreter.PrefixedAssoc | server/src/main/java/dev/jdbg/server/eval/JdiInterpreter.java:268-272 | prefixing evaluated arguments composes, and an empty prefix changes nothing |
| Interpreter.JdiInterpreter.constructor | server/src/main/java/dev/jdbg/server/eval/JdiInterpreter.java:28-46 | the interpreter holds the VM and frame, the locals gathered from the frame and the frame's `this` |
| Interpreter.JdiInterpreter.Evaluate | server/src/main/java/dev/jdbg/server/eval/JdiInterpreter.java:59-73 | the result is `Interp.Evaluate`: the expression's value, never a class, or the evaluation error |
| Interpreter.JdiInterpreter.EvalExpr | server/src/main/java/dev/jdbg/server/eval/JdiInterpreter.java:75-103 | the result is the evaluation `Interp.Eval` gives the expression in this frame's environment |
| Interpreter.JdiInterpreter.EvalFieldAccess | server/src/main/java/dev/jdbg/server/eval/JdiInterpreter.java:179-231 | the result is the field access evaluated by `Interp.Eval`: dotted class name, static field, or field of the target's value |
| Interpreter.JdiInterpreter.EvalMethodCall | server/src/main/java/dev/jdbg/server/eval/JdiInterpreter.java:267-329 | the result is the call evaluated by `Interp.Eval`: arguments first, then the static or instance call |
| Interpreter.JdiInterpreter.EvalBinary | server/src/main/java/dev/jdbg/server/eval/JdiInterpreter.java:502-562 | the result is the binary expression evaluated by `Interp.Eval`, short-circuiting `&&` and `\|\|` |
| Interpreter.JdiInterpreter.EvalConditional | server/src/main/java/dev/jdbg/server/eval/JdiInterpreter.java:504-518 | the loop-free short-circuit half: the right side is evaluated only after a true `&&` or a false `\|\|` left side, as `Interp.Eval` states |
| Interpreter.JdiInterpreter.EvalNewObject | server/src/main/java/dev/jdbg/server/eval/JdiInterpreter.java:782-810 | the result is the creation evaluated by `Interp.Eval`: a loaded class, the first applicable constructor, a new instance |
| Interpreter.JdiInterpreter.EvalArguments | server/src/main/java/dev/jdbg/server/eval/JdiInterpreter.java:268-272 | the argument loop yields `EvalArgs`: the values in order, or the first error |
| Interpreter.JdiInterpreter.CallMethodOn | server/src/main/java/dev/jdbg/server/eval/JdiInterpreter.java:300-329 | the instance half of the call is `CallOn` |
| Interpreter.JdiInterpreter.InvokeStaticMethod | server/src/main/java/dev/jdbg/server/eval/JdiInterpreter.java:331-353 | the static call is `InvokeStatic` |
| Interpreter.JdiInterpreter.FindMethodOf | server/src/main/java/dev/jdbg/server/eval/JdiInterpreter.java:355-384 | the candidate loop yields `FindMethod`: the first applicable method of that name, or none |
| Interpreter.JdiInterpreter.ArgumentsCompatible | server/src/main/java/dev/jdbg/server/eval/JdiInterpreter.java:366-373 | the parameter loop yields `AllAssignable`, stopping at the first parameter that refuses its argument |
| Interpreter.JdiInterpreter.IsAssignableFrom | server/src/main/java/dev/jdbg/server/eval/JdiInterpreter.java:386-435 | the result is `IsAssignable` |
| Interpreter.JdiInterpreter.SuperclassWalk | server/src/main/java/dev/jdbg/server/eval/JdiInterpreter.java:405-421 | the superclass loop finds the target exactly when `ClassReaches` holds: the start or a superclass of it is the target or implements it |
| Interpreter.JdiInterpreter.ImplementsInterface | server/src/main/java/dev/jdbg/server/eval/JdiInterpreter.java:437-447 | the interface is the target or one of its superinterfaces reaches it, transitively |
| Interpreter.JdiInterpreter.InstanceOfCheck | server/src/main/java/dev/jdbg/server/eval/JdiInterpreter.java:745-780 | the result is `InstanceOfTest` |
| Session.OfferShape | server/src/main/java/dev/jdbg/server/DebugSession.java:333-338 | the offered event becomes the tail; below capacity nothing is lost, at capacity exactly the oldest event is dropped |
| Session.OfferKeepsBuffer | server/src/main/java/dev/jdbg/server/DebugSession.java:326-349 | offering the next-numbered event keeps the buffer within capacity with strictly increasing sequence numbers |
| Session.Matching | server/src/main/java/dev/jdbg/server/DebugSession.java:365-368 | the events passing the type filter are among the buffered events |
| Session.MaxEvents | server/src/main/java/dev/jdbg/server/DebugSession.java:361 | the number of events a poll may deliver is always positive: the limit, or no limit when it is not positive |
| Session.PollDrainsPrefix | server/src/main/java/dev/jdbg/server/DebugSession.java:359-374 | a poll removes a prefix of the buffer and delivers exactly the matching events of that prefix in buffer order, stopping early only when the limit is reached |
| Session.PollDrainsStep | server/src/main/java/dev/jdbg/server/DebugSession.java:362-372 | one turn of the poll loop keeps the drained-prefix property |
| Session.PollAll | server/src/main/java/dev/jdbg/server/DebugSession.java:359-374 | with no filter and room for everything, a poll delivers the whole buffer and empties it |
| Session.PollWithTypeFilterDrains | server/src/main/java/dev/jdbg/server/DebugSession.java:359-374 | since dispatched events carry an empty type, any filter not listing "" delivers nothing and still empties the buffer |
| Session.PollTakesFromBuffer | server/src/main/java/dev/jdbg/server/DebugSession.java:359-374 | delivered events come from the buffer and what stays is a suffix of it |
| Session.PollAscending | server/src/main/java/dev/jdbg/server/DebugSession.java:359-374 | delivered events come out in strictly increasing sequence order |
| Session.BufferSuffixOk | server/src/main/java/dev/jdbg/server/DebugSession.java:326-374 | what is left after a poll removes a prefix is still a well-formed buffer |
| Session.PollInSequence | server/src/main/java/dev/jdbg/server/DebugSession.java:359-374 | from a well-formed buffer a poll delivers ascending events and leaves a well-formed buffer |
| Session.BreakpointInfo.Type | server/src/main/java/dev/jdbg/server/DebugSession.java:537-539 | a breakpoint is a method breakpoint exactly when it has a method name |
| Session.BreakpointInfo.LocationString | server/src/main/java/dev/jdbg/server/DebugSession.java:541-546 | a method breakpoint's location starts `Class.`, a line breakpoint's `Class:` |
| Session.NewBreakpointInfo | server/src/main/java/dev/jdbg/server/DebugSession.java:507-533 | a new breakpoint info holds the given fields, is enabled and has never been hit |
| Session.LineLocationReadsBack | server/src/main/java/dev/jdbg/server/DebugSession.java:541-546 | a line breakpoint's location string gives back the class before its last `:` and the line as the decimal after it |
| Session.MethodLocationReadsBack | server/src/main/java/dev/jdbg/server/DebugSession.java:541-546 | a method breakpoint's location string gives back the class before its last `.` and the method after it |
| Session.HitRecorded | server/src/main/java/dev/jdbg/server/DebugSession.java:442-455 | a hit on a known breakpoint adds one to its count in Java int arithmetic; no other info changes and no id is added |
| Session.LineLocations | server/src/main/java/dev/jdbg/server/DebugSession.java:163-176 | at most one location per loaded class |
| Session.FirstOfLine | server/src/main/java/dev/jdbg/server/DebugSession.java:165-170 | a class contributes exactly the first location of the line, when that line has any |
| Session.Located | server/src/main/java/dev/jdbg/server/DebugSession.java:194-202 | every location comes from one of the methods, at most one per method |
| Session.FirstLocationOfLine | server/src/main/java/dev/jdbg/server/DebugSession.java:165-170 | the location found is the first one of the line, or none |
| Session.Delete | server/src/main/java/dev/jdbg/server/DebugSession.java:223-229 | deleting a request clears that handle and leaves every other one |
| Session.Tagged | server/src/main/java/dev/jdbg/server/DebugSession.java:163-203 | one request per location |
| Session.TaggedAppend | server/src/main/java/dev/jdbg/server/DebugSession.java:163-203 | the requests for two runs of locations are those of each run, in order |
| Session.LineRequestsTagged | server/src/main/java/dev/jdbg/server/DebugSession.java:163-176 | the line loop creates one enabled request tagged with the id at each class's first location of the line |
| Session.LocatedRequestsTagged | server/src/main/java/dev/jdbg/server/DebugSession.java:194-202 | the method loop creates one tagged request per method that has a location |
| Session.MethodRequestsTagged | server/src/main/java/dev/jdbg/server/DebugSession.java:192-203 | the class and method loops create one tagged request per method location, class by class |
| Session.TaggedAt | server/src/main/java/dev/jdbg/server/DebugSession.java:163-203 | request i of the run is the enabled request at location i, tagged with the breakpoint id |
| Session.RemoveLeavesEarlierRequests | server/src/main/java/dev/jdbg/server/DebugSession.java:171 | with two or more requests for one id, removing the breakpoint leaves the first request installed |
| Session.Registered | server/src/main/java/dev/jdbg/server/DebugSession.java:171 | after the puts the id maps to the last handle only; other ids are untouched |
| Session.CreateAtLine | server/src/main/java/dev/jdbg/server/DebugSession.java:163-176 | the line loop appends the tagged requests at the first location of the line in each class |
| Session.CreateAtLocated | server/src/main/java/dev/jdbg/server/DebugSession.java:194-202 | the inner method loop appends a request per located method |
| Session.MethodRequestsStep | server/src/main/java/dev/jdbg/server/DebugSession.java:192-203 | one class of the outer loop appends its located methods' requests |
| Session.CreateAtMethods | server/src/main/java/dev/jdbg/server/DebugSession.java:192-203 | the method loops append a tagged request at every method location of that name, class by class |
| Session.FirstThread | server/src/main/java/dev/jdbg/server/DebugSession.java:141-146 | the thread found is the first with that id; none found means no thread has it |
| Session.IndexIn | server/src/main/java/dev/jdbg/server/DebugSession.java:141-146 | the index of a listed thread |
| Session.DebugSession.constructor | server/src/main/java/dev/jdbg/server/DebugSession.java:48-57 | a new session is CONNECTED with nothing selected, no breakpoints, no requests and an empty event buffer |
| Session.DebugSession.SetHost | server/src/main/java/dev/jdbg/server/DebugSession.java:91-93 | the host is set |
| Session.DebugSession.SetPort | server/src/main/java/dev/jdbg/server/DebugSession.java:99-101 | the port is set |
| Session.DebugSession.SetPid | server/src/main/java/dev/jdbg/server/DebugSession.java:107-109 | the pid is set |
| Session.DebugSession.SetState | server/src/main/java/dev/jdbg/server/DebugSession.java:75-77 | the state is set |
| Session.DebugSession.SetSelectedThreadId | server/src/main/java/dev/jdbg/server/DebugSession.java:115-117 | the selected thread is set |
| Session.DebugSession.SetSelectedFrameIndex | server/src/main/java/dev/jdbg/server/DebugSession.java:123-125 | the selected frame is set |
| Session.DebugSession.GetThread | server/src/main/java/dev/jdbg/server/DebugSession.java:136-147 | the thread found is the first with the given id, or with the selected id for 0 |
| Session.DebugSession.Install | server/src/main/java/dev/jdbg/server/DebugSession.java:167-170 | a created request gets the next handle |
| Session.DebugSession.DeleteRequest | server/src/main/java/dev/jdbg/server/DebugSession.java:223-229 | the request table loses that request |
| Session.DebugSession.Register | server/src/main/java/dev/jdbg/server/DebugSession.java:171 | the registry maps the id to the last of the new handles |
| Session.DebugSession.AddLineBreakpoint | server/src/main/java/dev/jdbg/server/DebugSession.java:155-183 | the info is stored; with no class loaded one class-prepare request carries the line, else one tagged request per class at the line's first location, the registry keeping the last handle |
| Session.DebugSession.AddMethodBreakpoint | server/src/main/java/dev/jdbg/server/DebugSession.java:185-210 | the info is stored; with no class loaded one class-prepare request carries the method, else one tagged request per method location, the registry keeping the last handle |
| Session.DebugSession.RemoveBreakpoint | server/src/main/java/dev/jdbg/server/DebugSession.java:223-229 | the registered request is deleted and both the registry entry and the info are dropped |
| Session.DebugSession.SetBreakpointEnabled | server/src/main/java/dev/jdbg/server/DebugSession.java:231-240 | the registered request and the stored info take the flag; an unknown id changes nothing |
| Session.DebugSession.ClearBreakpoints | server/src/main/java/dev/jdbg/server/DebugSession.java:246-252 | every registered request is deleted and both maps are emptied |
| Session.DebugSession.AddExceptionBreakpoint | server/src/main/java/dev/jdbg/server/DebugSession.java:255-274 | one exception request filtered on the first loaded class of that name, or on every exception, is installed and registered with its info |
| Session.DebugSession.RemoveExceptionBreakpoint | server/src/main/java/dev/jdbg/server/DebugSession.java:276-282 | the registered exception request is deleted and its entry and info dropped |
| Session.DebugSession.ResumeAll | server/src/main/java/dev/jdbg/server/DebugSession.java:289-292 | the session is RUNNING |
| Session.DebugSession.SuspendAll | server/src/main/java/dev/jdbg/server/DebugSession.java:294-297 | the session is SUSPENDED |
| Session.DebugSession.Step | server/src/main/java/dev/jdbg/server/DebugSession.java:299-315 | an unknown thread fails and changes nothing; otherwise the thread's step requests are deleted and one enabled single-step request is added |
| Session.DebugSession.DispatchEvent | server/src/main/java/dev/jdbg/server/DebugSession.java:326-349 | the event gets the next sequence number and becomes the tail; at capacity the oldest event is dropped and the drop recorded; the buffer stays well formed |
| Session.DebugSession.PollEvents | server/src/main/java/dev/jdbg/server/DebugSession.java:359-374 | the poll takes what `Poll` describes: the matching events of a drained prefix, up to the limit; the buffer stays well formed |
| Session.DebugSession.ClearEvents | server/src/main/java/dev/jdbg/server/DebugSession.java:407-410 | the buffer is empty and no drop is recorded |
| Session.DebugSession.GetEventInfo | server/src/main/java/dev/jdbg/server/DebugSession.java:415-433 | the info reports the buffer size, capacity, drop flag and the oldest and newest timestamps, zero when empty |
| Session.DebugSession.HandleBreakpointHit | server/src/main/java/dev/jdbg/server/DebugSession.java:442-455 | the hit is counted, the thread recorded at the breakpoint and selected at its top frame, and the session SUSPENDED |
| Session.DebugSession.GetBreakpointForThread | server/src/main/java/dev/jdbg/server/DebugSession.java:460-462 | a thread has a breakpoint exactly when it is recorded, and it is the recorded one |
| Session.DebugSession.ClearBreakpointForThread | server/src/main/java/dev/jdbg/server/DebugSession.java:467-469 | only that thread's entry is removed |
| Session.DebugSession.Close | server/src/main/java/dev/jdbg/server/DebugSession.java:478-486 | the session is DISCONNECTED |
| Session.StepsDeleted | server/src/main/java/dev/jdbg/server/DebugSession.java:303-309 | exactly the step requests of that thread are deleted |
| Session.DeleteAll | server/src/main/java/dev/jdbg/server/DebugSession.java:246-252 | exactly the requests with the given handles are deleted |
| Session.SetEnabled | server/src/main/java/dev/jdbg/server/DebugSession.java:231-240 | only the live request with that handle takes the flag |
| SessionFixes.KindName | server/src/main/java/dev/jdbg/server/DebugSession.java:326-349 | an event type names its payload, and is "breakpoint" exactly for a breakpoint hit |
| SessionFixes.PollWithRoomDrains | server/src/main/java/dev/jdbg/server/DebugSession.java:359-374 | with room for the whole buffer a poll delivers every matching event and empties the buffer |
| SessionFixes.BreakpointFilterSelectsHits | server/src/main/java/dev/jdbg/server/DebugSession.java:359-374 | with typed events, the filter ["breakpoint"] delivers exactly the breakpoint hits, in order, and empties the buffer |
| SessionFixes.MatchingHits | server/src/main/java/dev/jdbg/server/DebugSession.java:365-368 | with typed events, an event passes the "breakpoint" filter exactly when it is a breakpoint hit |
| SessionFixes.Handles | server/src/main/java/dev/jdbg/server/DebugSession.java:163-203 | consecutive handles from the first new one |
| SessionFixes.RegisteredAll | server/src/main/java/dev/jdbg/server/DebugSession.java:171 | the corrected registry keeps every handle of the id, after those it had; other ids are untouched |
| SessionFixes.RemoveAll | server/src/main/java/dev/jdbg/server/DebugSession.java:223-229 | the corrected removal keeps the table's size |
| SessionFixes.RemoveDeletesRun | server/src/main/java/dev/jdbg/server/DebugSession.java:223-229 | with the corrected registry, removal deletes a whole appended run and leaves what came before |
| SessionFixes.RemoveAfterAddDeletesEvery | server/src/main/java/dev/jdbg/server/DebugSession.java:155-229 | with the corrected registry, adding a breakpoint over several locations and removing it leaves none of its requests and the earlier ones unchanged |
| SessionFixes.RemoveAfterDeferredDeletesEvery | server/src/main/java/dev/jdbg/server/DebugSession.java:212-229 | with the corrected registry, removing a materialised deferred breakpoint leaves none of its requests |
| SessionFixes.LookupOfZeroNeverReturns | server/src/main/java/dev/jdbg/server/DebugSession.java:136-140 | with no thread selected, `getThread(0)` never stops calling itself |
| SessionFixes.LookupReturnsWithinTwo | server/src/main/java/dev/jdbg/server/DebugSession.java:136-140 | otherwise it stops within two calls, looking up the given id or else the selected one |
| SessionFixes.SelectedThread | server/src/main/java/dev/jdbg/server/DebugSession.java:136-147 | the corrected lookup: id 0 means the selected thread, and with none selected there is no thread |
| SessionFixes.SelectedThreadAgrees | server/src/main/java/dev/jdbg/server/DebugSession.java:136-147 | wherever the as-written lookup returns, the corrected one finds the same thread |
| SessionFixes.LookupAgrees | server/src/main/java/dev/jdbg/server/DebugSession.java:136-140 | a lookup that returns answers the given id, or else the selected one |
| Events.StatusOf | server/src/main/java/dev/jdbg/server/EventProcessor.java:310-321 | the JDI codes 0 to 5 map to their own status and round-trip through its code; every other code is UNKNOWN |
| Events.StatusRoundTrip | server/src/main/java/dev/jdbg/server/EventProcessor.java:310-321 | every status survives the round trip through its JDI code |
| Events.LocationOf | server/src/main/java/dev/jdbg/server/EventProcessor.java:269-287 | the location holds the thread's id and name and the location's class, method and line; an absent source name is "" |
| Events.InfoOf | server/src/main/java/dev/jdbg/server/EventProcessor.java:289-308 | the info holds the thread's id, name, suspension and mapped status; no group is "" and the frame count is -1 unless frames are known |
| Events.Emitted | server/src/main/java/dev/jdbg/server/EventProcessor.java:66-217 | an event reports nothing exactly when it is an untagged breakpoint, a class prepare or unhandled; otherwise the report matches its kind: the hit's id and thread, the exception's class and catch location, exit code 0, "VM disconnected" |
| Events.StateAfter | server/src/main/java/dev/jdbg/server/EventProcessor.java:86-217 | breakpoints, steps and exceptions leave the session SUSPENDED, VM death TERMINATED and disconnect DISCONNECTED; other events keep the state |
| Events.DeferredRequests | server/src/main/java/dev/jdbg/server/EventProcessor.java:219-256 | a positive line materialises at most the first location of the line; with neither line nor method nothing; every request is enabled and tagged with the id |
| Events.TaggedAll | server/src/main/java/dev/jdbg/server/EventProcessor.java:239-248 | every materialised request is the enabled request at its location, tagged with the id |
| Events.ShouldResume | server/src/main/java/dev/jdbg/server/EventProcessor.java:258-267 | a set resumes exactly when none of its events is a breakpoint, step or exception event |
| Events.EmittedCount | server/src/main/java/dev/jdbg/server/EventProcessor.java:34-41 | a set reports at most one event per JDI event |
| Events.ThreadEventsResume | server/src/main/java/dev/jdbg/server/EventProcessor.java:166-191 | a set of thread start and death events reports one event each and resumes |
| Events.Dispatched | server/src/main/java/dev/jdbg/server/EventProcessor.java:97-104 | reporting numbers the event one past the last; below capacity it is appended and nothing is dropped |
| Events.StepKeepsBuffer | server/src/main/java/dev/jdbg/server/EventProcessor.java:66-84 | processing any event keeps the buffer within capacity with strictly increasing numbers |
| Events.StepFields | server/src/main/java/dev/jdbg/server/EventProcessor.java:66-217 | processing an event changes exactly the parts its handler changes: state and selection, the hit count, the request table, and the buffer only through its report |
| Events.StepNumbers | server/src/main/java/dev/jdbg/server/EventProcessor.java:66-84 | processing an event uses exactly one sequence number per reported event |
| Events.UntaggedBreakpointIgnored | server/src/main/java/dev/jdbg/server/EventProcessor.java:86-90 | a breakpoint event without a breakpoint id leaves the session exactly as it was |
| Events.StepOnHit | server/src/main/java/dev/jdbg/server/EventProcessor.java:86-106 | a tagged hit counts the hit, records and selects the thread at frame 0, suspends, and reports the hit |
| Events.StepOnStep | server/src/main/java/dev/jdbg/server/EventProcessor.java:108-128 | a step selects the thread at frame 0, suspends, deletes its step request and reports the step |
| Events.StepOnException | server/src/main/java/dev/jdbg/server/EventProcessor.java:130-164 | an exception selects the thread at frame 0, suspends, and reports the exception at its catch location if any, else where thrown |
| Events.StepOnThreadEvent | server/src/main/java/dev/jdbg/server/EventProcessor.java:166-191 | thread start and death only report |
| Events.StepOnClassPrepare | server/src/main/java/dev/jdbg/server/EventProcessor.java:219-256 | a class prepare for a deferred breakpoint adds its requests and deletes the watch; otherwise nothing changes; nothing is reported |
| Events.StepOnOther | server/src/main/java/dev/jdbg/server/EventProcessor.java:66-84 | an unhandled event changes nothing |
| Events.StepOnVmDeath | server/src/main/java/dev/jdbg/server/EventProcessor.java:193-204 | VM death TERMINATES the session and reports exit code 0 |
| Events.StepOnDisconnect | server/src/main/java/dev/jdbg/server/EventProcessor.java:206-217 | disconnect DISCONNECTS the session and reports it |
| Events.BreakpointHitCounts | server/src/main/java/dev/jdbg/server/EventProcessor.java:86-106 | a hit on a known breakpoint below the int maximum raises its count by exactly one, leaves the other infos alone, and records and selects the thread |
| Events.DeferredNotRegistered | server/src/main/java/dev/jdbg/server/EventProcessor.java:219-256 | materialising a deferred breakpoint adds requests but leaves both registries as they were, so the id stays unknown to removal |
| Events.Steps | server/src/main/java/dev/jdbg/server/EventProcessor.java:34-41 | processing a run keeps the buffer well formed, numbers exactly the reported events, and never touches the registries |
| Events.StepsSnoc | server/src/main/java/dev/jdbg/server/EventProcessor.java:34-41 | the run through an event is the run before it plus one step |
| Events.EventProcessor.constructor | server/src/main/java/dev/jdbg/server/EventProcessor.java:16-20 | the processor serves the session it is given |
| Events.EventProcessor.Dispatch | server/src/main/java/dev/jdbg/server/EventProcessor.java:97-104 | the event is built with the session's id and time and dispatched, as `Dispatched` describes |
| Events.EventProcessor.HandleBreakpointEvent | server/src/main/java/dev/jdbg/server/EventProcessor.java:86-106 | the session moves as `Step` describes for a breakpoint event |
| Events.EventProcessor.SelectStopped | server/src/main/java/dev/jdbg/server/EventProcessor.java:112-115 | the thread is selected at frame 0 and the session SUSPENDED |
| Events.EventProcessor.HandleStepEvent | server/src/main/java/dev/jdbg/server/EventProcessor.java:108-128 | the session moves as `Step` describes for a step event |
| Events.EventProcessor.HandleExceptionEvent | server/src/main/java/dev/jdbg/server/EventProcessor.java:130-164 | the session moves as `Step` describes for an exception event |
| Events.EventProcessor.HandleThreadEvent | server/src/main/java/dev/jdbg/server/EventProcessor.java:166-191 | the session moves as `Step` describes for a thread start or death |
| Events.EventProcessor.HandleVmDeathEvent | server/src/main/java/dev/jdbg/server/EventProcessor.java:193-204 | the session moves as `Step` describes for VM death |
| Events.EventProcessor.HandleDisconnect | server/src/main/java/dev/jdbg/server/EventProcessor.java:206-217 | the session moves as `Step` describes for a disconnect, as the loop's VMDisconnectedException handler does too |
| Events.EventProcessor.HandleClassPrepareEvent | server/src/main/java/dev/jdbg/server/EventProcessor.java:219-256 | the request table gains the deferred breakpoint's requests and loses the watch; an untagged watch changes nothing |
| Events.EventProcessor.ProcessEvent | server/src/main/java/dev/jdbg/server/EventProcessor.java:66-84 | the session moves one `Step`; host, port and pid are untouched |
| Events.EventProcessor.ProcessEventSet | server/src/main/java/dev/jdbg/server/EventProcessor.java:34-41 | every event of the set is processed in order, and the answer is whether to resume, `ShouldResume` |
| Manager.SessionManager.constructor | server/src/main/java/dev/jdbg/server/SessionManager.java:19-20 | a new manager has no sessions and no active id |
| Manager.SessionManager.CreateSession | server/src/main/java/dev/jdbg/server/SessionManager.java:22-32 | the id is the requested one when given, else the first eight characters of a UUID; an id already registered is refused with "session already exists"; nothing is registered |
| Manager.SessionManager.Register | server/src/main/java/dev/jdbg/server/SessionManager.java:50-57 | the session is registered under its id and becomes active when none was |
| Manager.SessionManager.AttachRemote | server/src/main/java/dev/jdbg/server/SessionManager.java:34-63 | a taken id or a failed attach changes nothing and fails; otherwise a fresh CONNECTED remote session with that host and port is registered and made active when none was |
| Manager.SessionManager.AttachLocal | server/src/main/java/dev/jdbg/server/SessionManager.java:65-92 | as for remote attach, through the process connector, the session recording the pid |
| Manager.SessionManager.TargetId | server/src/main/java/dev/jdbg/server/SessionManager.java:94-106 | the id looked up is the given one, else the active one |
| Manager.SessionManager.GetSession | server/src/main/java/dev/jdbg/server/SessionManager.java:94-106 | no id and no active session is "no active session"; the lookup succeeds exactly when the target id is registered, giving its session; else "session not found" naming it |
| Manager.SessionManager.GetSessionOptional | server/src/main/java/dev/jdbg/server/SessionManager.java:108-114 | a session is found exactly when `getSession` succeeds, and it is the same one |
| Manager.SessionManager.ListSessions | server/src/main/java/dev/jdbg/server/SessionManager.java:116-118 | the registered sessions, each id's session listed once, as many as there are ids |
| Manager.SessionManager.SetActiveSession | server/src/main/java/dev/jdbg/server/SessionManager.java:124-129 | a registered id becomes active; an unregistered one is "session not found" and the active id stays |
| Manager.SessionManager.RemoveSession | server/src/main/java/dev/jdbg/server/SessionManager.java:131-140 | a registered session is dropped and closed; if it was active some remaining session becomes active, or none when none remains; no other session is touched |
| Manager.SessionManager.CloseAll | server/src/main/java/dev/jdbg/server/SessionManager.java:142-148 | every session is closed, then none is registered and none is active |
| Manager.InjectiveValues | server/src/main/java/dev/jdbg/server/SessionManager.java:116-118 | a map with distinct values has as many values as keys |
| Completion.ByValueTotalPreorder | server/src/main/java/dev/jdbg/server/CompletionServiceImpl.java:104 | ordering items by value is a total preorder, as `List.sort` requires |
| Completion.ClassOrderTotalPreorder | server/src/main/java/dev/jdbg/server/CompletionServiceImpl.java:48-55 | the class comparator is a total preorder |
| Completion.Limit | server/src/main/java/dev/jdbg/server/CompletionServiceImpl.java:43 | the requested limit when positive, else 50 |
| Completion.Matching | server/src/main/java/dev/jdbg/server/CompletionServiceImpl.java:45-47 | exactly the loaded class names whose lower-cased form contains the lower-cased prefix |
| Completion.Ranked | server/src/main/java/dev/jdbg/server/CompletionServiceImpl.java:45-55 | the matching names, each as often as it matches, sorted by the class comparator |
| Completion.CompleteClasses | server/src/main/java/dev/jdbg/server/CompletionServiceImpl.java:39-73 | at most the limit of names, exactly the limit when enough match, each a loaded name containing the prefix case-insensitively |
| Completion.CompleteClassesOrder | server/src/main/java/dev/jdbg/server/CompletionServiceImpl.java:48-55 | names starting with the prefix come first, and each group is in `compareTo` order |
| Completion.RankedGroups | server/src/main/java/dev/jdbg/server/CompletionServiceImpl.java:48-55 | sortedness by the class comparator is exactly the two ordered groups |
| Completion.CompleteClassesKeepsBest | server/src/main/java/dev/jdbg/server/CompletionServiceImpl.java:48-56 | a matching name left out means the answer is full and every name in it ranks no later than the left-out one |
| Completion.SimplifyTypeName | server/src/main/java/dev/jdbg/server/CompletionServiceImpl.java:300-303 | the simple name is the dot-free text after the last `.`, the whole name when it has none |
| Completion.SimplifyQualified | server/src/main/java/dev/jdbg/server/CompletionServiceImpl.java:300-303 | a qualified name loses exactly its package |
| Completion.FormatMethodParams | server/src/main/java/dev/jdbg/server/CompletionServiceImpl.java:290-298 | "..." when the argument types cannot be listed, "" for none, the simple name for one, and for two or more the first simple name, ", ", then the rest joined the same way |
| Completion.JoinSimplifiedAppend | server/src/main/java/dev/jdbg/server/CompletionServiceImpl.java:290-293 | joining two non-empty lists of argument types is joining each with one ", " between them, so neighbouring simple names are always separated by ", " |
| Completion.MethodItem | server/src/main/java/dev/jdbg/server/CompletionServiceImpl.java:93-99 | a method's item has the method name as value, `name(params)` with the formatted parameters as display, and the return type name as description |
| Completion.InsertKeepsDistinct | server/src/main/java/dev/jdbg/server/CompletionServiceImpl.java:104 | inserting an item with a new name keeps names distinct |
| Completion.SortKeepsDistinct | server/src/main/java/dev/jdbg/server/CompletionServiceImpl.java:104 | sorting keeps names distinct |
| Completion.MethodOffered | server/src/main/java/dev/jdbg/server/CompletionServiceImpl.java:88-102 | a qualifying method whose name no earlier qualifying method has supplies an offered item |
| Completion.CompleteMethods | server/src/main/java/dev/jdbg/server/CompletionServiceImpl.java:76-116 | each qualifying method name is offered once, sorted by name, its item from the first method with that name; nothing for no class |
| Completion.FrameAt | server/src/main/java/dev/jdbg/server/CompletionServiceImpl.java:149-164 | a missing thread, a running thread and a negative index are errors; an index past the last frame is an empty answer; otherwise the indexed frame |
| Completion.TargetFrame | server/src/main/java/dev/jdbg/server/CompletionServiceImpl.java:149-157 | the frame looked up uses the selected thread for id 0 and the selected frame for a negative index |
| Completion.ThisOffered | server/src/main/java/dev/jdbg/server/CompletionServiceImpl.java:170-176 | `this` is offered exactly when the frame has a receiver and "this" starts with the prefix |
| Completion.LocalsOffered | server/src/main/java/dev/jdbg/server/CompletionServiceImpl.java:179-191 | exactly the locals whose lower-cased name starts with the prefix are offered |
| Completion.FieldsOffered | server/src/main/java/dev/jdbg/server/CompletionServiceImpl.java:266-274 | exactly the fields whose lower-cased name starts with the prefix are offered |
| Completion.CompleteVariables | server/src/main/java/dev/jdbg/server/CompletionServiceImpl.java:166-193 | `this` and the matching locals, each once, sorted by name, items of the same name kept in their order (a stable sort) |
| Completion.CompleteFields | server/src/main/java/dev/jdbg/server/CompletionServiceImpl.java:257-276 | nothing without a receiver, else the matching fields, each once, sorted stably by name |
| Completion.CompleteVariablesAt | server/src/main/java/dev/jdbg/server/CompletionServiceImpl.java:144-205 | the target frame's error, an empty answer past the last frame, or its sorted matching variables |
| Completion.CompleteFieldsAt | server/src/main/java/dev/jdbg/server/CompletionServiceImpl.java:233-288 | the target frame's error, an empty answer past the last frame or without a receiver, or its sorted matching fields |
| Model.Text | server/src/main/java/dev/jdbg/model/Breakpoint.java:123-129 | string concatenation renders a null String as "null", any other as itself |
| Model.IntText | server/src/main/java/dev/jdbg/model/Breakpoint.java:123-129 | string concatenation renders a null Integer as "null", any other as its decimal text |
| Model.Breakpoint.Empty | server/src/main/java/dev/jdbg/model/Breakpoint.java:24 | the no-argument breakpoint has every reference null, is disabled and never hit |
| Model.Breakpoint.constructor | server/src/main/java/dev/jdbg/model/Breakpoint.java:27-34 | a new breakpoint has its id, session and type, is enabled, never hit, created now, with no location yet |
| Model.Breakpoint.SetId | server/src/main/java/dev/jdbg/model/Breakpoint.java:40-42 | the id is set and no other field changes |
| Model.Breakpoint.SetSessionId | server/src/main/java/dev/jdbg/model/Breakpoint.java:48-50 | the session id is set and no other field changes |
| Model.Breakpoint.SetType | server/src/main/java/dev/jdbg/model/Breakpoint.java:56-58 | the type is set and no other field changes |
| Model.Breakpoint.SetClassName | server/src/main/java/dev/jdbg/model/Breakpoint.java:64-66 | the class name is set and no other field changes |
| Model.Breakpoint.SetLineNumber | server/src/main/java/dev/jdbg/model/Breakpoint.java:72-74 | the line number is set and no other field changes |
| Model.Breakpoint.SetMethodName | server/src/main/java/dev/jdbg/model/Breakpoint.java:80-82 | the method name is set and no other field changes |
| Model.Breakpoint.SetCondition | server/src/main/java/dev/jdbg/model/Breakpoint.java:88-90 | the condition is set and no other field changes |
| Model.Breakpoint.SetEnabled | server/src/main/java/dev/jdbg/model/Breakpoint.java:96-98 | the enabled flag is set and no other field changes |
| Model.Breakpoint.SetCreatedAt | server/src/main/java/dev/jdbg/model/Breakpoint.java:112-114 | the creation time is set and no other field changes |
| Model.Breakpoint.SetHitCount | server/src/main/java/dev/jdbg/model/Breakpoint.java:104-106 | the hit count is set to the given int and no other field changes |
| Model.Breakpoint.IncrementHitCount | server/src/main/java/dev/jdbg/model/Breakpoint.java:116-118 | one more hit in Java int arithmetic: one more below the int maximum, the int minimum at it; no other field changes |
| Model.BreakpointLocation | server/src/main/java/dev/jdbg/model/Breakpoint.java:123-129 | a missing type is a NullPointerException; a line breakpoint reads `class:line`, a method breakpoint `class.method`, an exception breakpoint its class, null parts as "null" |
| Model.LineBreakpointReadsBack | server/src/main/java/dev/jdbg/model/Breakpoint.java:125 | a line breakpoint's location gives back the class before its last `:` and the line as the decimal after it |
| Model.FrameInfo.constructor | server/src/main/java/dev/jdbg/model/FrameInfo.java:18-19 | a new frame has index 0, every reference null and is not native |
| Model.FrameInfo.SetIndex | server/src/main/java/dev/jdbg/model/FrameInfo.java:25-27 | the index is set and no other field changes |
| Model.FrameInfo.SetClassName | server/src/main/java/dev/jdbg/model/FrameInfo.java:33-35 | the class name is set and no other field changes |
| Model.FrameInfo.SetMethodName | server/src/main/java/dev/jdbg/model/FrameInfo.java:41-43 | the method name is set and no other field changes |
| Model.FrameInfo.SetSourceName | server/src/main/java/dev/jdbg/model/FrameInfo.java:49-51 | the source name is set and no other field changes |
| Model.FrameInfo.SetLineNumber | server/src/main/java/dev/jdbg/model/FrameInfo.java:57-59 | the line number is set and no other field changes |
| Model.FrameInfo.SetNative | server/src/main/java/dev/jdbg/model/FrameInfo.java:65-67 | the native flag is set and no other field changes |
| Model.FrameInfo.GetLocationString | server/src/main/java/dev/jdbg/model/FrameInfo.java:72-85 | the builder's text is the frame's location string `FrameLocation` |
| Model.FrameLocation | server/src/main/java/dev/jdbg/model/FrameInfo.java:72-85 | `class.method`, then ` (source:line)`, ` (source)` without a line, ` (Native Method)` for a native frame without source, else nothing more |
| Model.SourceWinsOverNative | server/src/main/java/dev/jdbg/model/FrameInfo.java:75-82 | a frame with a source reads the same whether or not it is native |
| Model.FrameLineReadsBack | server/src/main/java/dev/jdbg/model/FrameInfo.java:75-80 | with a source and a line, the text between the last `:` and the closing parenthesis is the line in decimal |
| Strs.Lower | server/src/main/java/dev/jdbg/server/CompletionServiceImpl.java:42 | upper-case ASCII letters are lowered, every other character kept |
| Strs.LowerStr | server/src/main/java/dev/jdbg/server/CompletionServiceImpl.java:42 | lowering keeps the length and lowers each character |
| Strs.LexLeTotal | server/src/main/java/dev/jdbg/server/CompletionServiceImpl.java:54 | `compareTo` orders any two strings |
| Strs.LexLeAntisymmetric | server/src/main/java/dev/jdbg/server/CompletionServiceImpl.java:54 | strings ordered both ways by `compareTo` are equal |
| Strs.LexLeTransitive | server/src/main/java/dev/jdbg/server/CompletionServiceImpl.java:54 | the `compareTo` order is transitive |
| Strs.DigitChar | server/src/main/java/dev/jdbg/server/eval/JdiInterpreter.java:582-618 | the decimal digit of 0 to 9 |
| Strs.NatToString | server/src/main/java/dev/jdbg/server/eval/JdiInterpreter.java:582-618 | decimal digits only, at least one, no leading zero |
| Strs.IntToString | server/src/main/java/dev/jdbg/server/eval/JdiInterpreter.java:582-618 | at least one character, a minus sign exactly for negative numbers |
| Strs.DecimalOfNatToString | server/src/main/java/dev/jdbg/server/eval/JdiInterpreter.java:582-618 | the decimal rendering of a natural number reads back as that number |
| Strs.HexString | server/src/main/java/dev/jdbg/server/eval/JdiInterpreter.java:615 | the unique-id hexadecimal text is never empty |
| Strs.HexOfNat | server/src/main/java/dev/jdbg/server/eval/JdiInterpreter.java:615 | hexadecimal digits of a natural number, at least one |
| Strs.LastIndexOf | server/src/main/java/dev/jdbg/server/CompletionServiceImpl.java:300-303 | the last index holding the character, -1 when none does |
| Strs.LastIndexOfJoin | server/src/main/java/dev/jdbg/server/CompletionServiceImpl.java:300-303 | in `a + c + b` with no c in b, the last c is the joining one |
| Sorting.InsertBy | server/src/main/java/dev/jdbg/server/CompletionServiceImpl.java:104 | inserting adds exactly the one element |
| Sorting.SortBy | server/src/main/java/dev/jdbg/server/CompletionServiceImpl.java:104 | sorting is a permutation |
| Sorting.InsertBySorted | server/src/main/java/dev/jdbg/server/CompletionServiceImpl.java:104 | inserting into a sorted list under a total preorder keeps it sorted |
| Sorting.SortBySorted | server/src/main/java/dev/jdbg/server/CompletionServiceImpl.java:104 | sorting under a total preorder yields a sorted list |
| Sorting.SortedPrefix | server/src/main/java/dev/jdbg/server/CompletionServiceImpl.java:56 | a prefix of a sorted list is sorted |
| Sorting.Take | server/src/main/java/dev/jdbg/server/CompletionServiceImpl.java:56 | `limit(n)` keeps a prefix of at most n elements, exactly n when there are enough |
| Sorting.Filter | server/src/main/java/dev/jdbg/server/CompletionServiceImpl.java:47 | `filter` keeps exactly the elements passing the test |
| Sorting.Level | server/src/main/java/dev/jdbg/server/CompletionServiceImpl.java:104 | the elements ranked level with k |
| Sorting.InsertByStable | server/src/main/java/dev/jdbg/server/CompletionServiceImpl.java:104 | insertion keeps elements ranked level in order, the inserted one first among them |
| Sorting.SortByStable | server/src/main/java/dev/jdbg/server/CompletionServiceImpl.java:104 | the sort is stable: elements ranked level keep their order, as `List.sort` promises |
| Values.Saturate | server/src/main/java/dev/jdbg/server/eval/JdiInterpreter.java:575 | a narrowing of a double goes to the nearest bound, and keeps values in range |
| Values.Sat32 | server/src/main/java/dev/jdbg/server/eval/JdiInterpreter.java:575 | saturating to int yields an int |
| Values.Sat64 | server/src/main/java/dev/jdbg/server/eval/JdiInterpreter.java:575 | saturating to long yields a long |
| Values.Wrap32 | server/src/main/java/dev/jdbg/model/Breakpoint.java:116-118 | wrapping to int yields an int, and keeps an int as it is |
| Values.Wrap64 | server/src/main/java/dev/jdbg/server/eval/JdiInterpreter.java:677-704 | wrapping to long yields a long, and keeps a long as it is |
| Values.Wrap16 | server/src/main/java/dev/jdbg/server/eval/JdiInterpreter.java:706-743 | wrapping to short yields a short, and keeps one as it is |
| Values.Wrap8 | server/src/main/java/dev/jdbg/server/eval/JdiInterpreter.java:706-743 | wrapping to byte yields a byte, and keeps one as it is |
| Values.WrapChar | server/src/main/java/dev/jdbg/server/eval/JdiInterpreter.java:706-743 | wrapping to char yields a char, and keeps one as it is |
| Values.MethodsByName | server/src/main/java/dev/jdbg/server/eval/JdiInterpreter.java:357 | exactly the methods of the type with that name: every one found has the name, every method of the type with the name is found, and an unknown type has none |
| Values.MethodsNamed | server/src/main/java/dev/jdbg/server/eval/JdiInterpreter.java:357 | exactly the methods with that name |
| ParserLevels.Climb | server/src/main/java/dev/jdbg/server/eval/ExpressionParser.java:51-132 | the reference precedence-climbing tree of a chain at level L stops only at the end or before an operator looser than L |
| ParserLevels.Loop | server/src/main/java/dev/jdbg/server/eval/ExpressionParser.java:51-132 | the reference left-nesting loop of a level stops only at the end or before a looser operator |
| ParserLevels.OrStep | server/src/main/java/dev/jdbg/server/eval/ExpressionParser.java:53-56 | one turn of the `\|\|` loop: the operand parsed by `parseAnd` after the operator becomes the right side of a new left-nested `\|\|` node |
| ParserLevels.AndStep | server/src/main/java/dev/jdbg/server/eval/ExpressionParser.java:62-65 | one turn of the `&&` loop: the operand parsed by `parseEquality` becomes the right side of a new left-nested `&&` node |
| ParserLevels.EqualityStep | server/src/main/java/dev/jdbg/server/eval/ExpressionParser.java:71-80 | one turn of the equality loop, for `==` and `!=` alike: the operand parsed by `parseComparison` joins the tree built so far on the left |
| ParserLevels.ComparisonStep | server/src/main/java/dev/jdbg/server/eval/ExpressionParser.java:85-100 | one turn of the relational loop, for `<=`, `>=`, `<` and `>`: the operand parsed by `parseAdditive` joins the tree built so far on the left |
| ParserLevels.InstanceOfStep | server/src/main/java/dev/jdbg/server/eval/ExpressionParser.java:95-97 | one `instanceof` turn of the relational loop: the type name read by `parseTypeName` wraps the tree built so far in an instanceof test |
| ParserLevels.AdditiveStep | server/src/main/java/dev/jdbg/server/eval/ExpressionParser.java:106-115 | one turn of the additive loop, for `+` and `-`: the operand parsed by `parseMultiplicative` joins the tree built so far on the left |
| ParserLevels.MultiplicativeStep | server/src/main/java/dev/jdbg/server/eval/ExpressionParser.java:120-131 | one turn of the multiplicative loop, for `*`, `/` and `%`: the operand parsed by `parseUnary` joins the tree built so far on the left |
| ParserLevels.RestStops | server/src/main/java/dev/jdbg/server/eval/ExpressionParser.java:51-132 | a level's loop stops, keeping its tree, in front of an operator of a looser level |
| ParserLevels.RestEnds | server/src/main/java/dev/jdbg/server/eval/ExpressionParser.java:51-132 | every level's loop stops, keeping its tree, at the end of the text |
| ParserLevels.TypeNameOfDots | server/src/main/java/dev/jdbg/server/eval/ExpressionParser.java:314-345 | `parseTypeName` reads a dotted name `root.f1...fn` followed by neither `.`, `[` nor an identifier character as exactly that name, ending after it |
| ParserLevels.ParseChain | server/src/main/java/dev/jdbg/server/eval/ExpressionParser.java:51-132 | for every chain of variables and int numerals joined by binary operators and `instanceof` tests, the parse is the precedence-climbing tree: `\|\|` loosest, then `&&`, equality, relational and `instanceof`, additive, multiplicative tightest, each level nesting left |
| ParserLevels.BinaryOperator | server/src/main/java/dev/jdbg/server/eval/ExpressionParser.java:51-132 | for every binary operator `op` and variables a, b: `a op b` is the binary node of `op` |
| ParserLevels.TwoOperators | server/src/main/java/dev/jdbg/server/eval/ExpressionParser.java:51-132 | for all operators op1, op2 and variables: `a op1 b op2 c` nests `a op1 b` inside op2 when op2 binds no tighter than op1 (same level nests left), else nests `b op2 c` inside op1 |
| ParserLevels.ConditionalExpression | server/src/main/java/dev/jdbg/server/eval/ExpressionParser.java:51-101 | for all variables a, b, c and int numerals m, n, k: `a > m && b < n \|\| c == k` is the `\|\|` of the `&&` of the two comparisons and the equality |
| ParserLevels.InstanceOfTest | server/src/main/java/dev/jdbg/server/eval/ExpressionParser.java:83-101 | for every variable a and dotted type name T: `a instanceof T` is the instanceof test of a against T |
| ParserLevels.InstanceOfInCondition | server/src/main/java/dev/jdbg/server/eval/ExpressionParser.java:60-101 | for every variable a, b, dotted type T and int numeral n: `a instanceof T && b > n` is the `&&` of the test and the comparison |
| ParserCreation.ArgumentsRestStops | server/src/main/java/dev/jdbg/server/eval/ExpressionParser.java:292-294 | the argument loop stops, keeping the list, where no comma follows |
| ParserCreation.OneArgument | server/src/main/java/dev/jdbg/server/eval/ExpressionParser.java:286-300 | `(a)` is a list of one argument, the variable a, ending after the `)` |
| ParserCreation.NewObjectOf | server/src/main/java/dev/jdbg/server/eval/ExpressionParser.java:269-284 | a type name not followed by `[` and then an argument list is an object creation of that type with those arguments |
| ParserCreation.ParseOfNew | server/src/main/java/dev/jdbg/server/eval/ExpressionParser.java:214-284 | `new T` followed by an argument list that ends the text parses to the creation of T with those arguments |
| ParserCreation.NewWithoutArguments | server/src/main/java/dev/jdbg/server/eval/ExpressionParser.java:269-300 | for every dotted type name T: `new T()` is the creation of T with no arguments |
| ParserCreation.NewWithOneArgument | server/src/main/java/dev/jdbg/server/eval/ExpressionParser.java:269-300 | for every dotted type name T and variable a: `new T(a)` is the creation of T with the one argument a |
| Lexer.MatchConsumes | server/src/main/java/dev/jdbg/server/eval/ExpressionParser.java:462-479 | what a successful `match` consumed is the operator text itself, and an accepted one-character operator is never the first character of `<=`, `>=`, `==`, `!=`, `&&` or `\|\|` |
| Lexer.MatchKeywordConsumes | server/src/main/java/dev/jdbg/server/eval/ExpressionParser.java:481-491 | a matched keyword is the text just before the cursor, and no identifier character follows it |
| Lexer.ExpectConsumes | server/src/main/java/dev/jdbg/server/eval/ExpressionParser.java:493-499 | a successful `expect(c)` leaves the cursor just past a `c` |

## Left out

- Character classes are ASCII only: `Lexer.IsWhitespace`, `Lexer.IsDigit`, `Lexer.IsIdentStart`, `Lexer.IsIdentPart` and `Strs.LowerStr`.
  - Java's `Character.isWhitespace`, `isDigit`, `isJavaIdentifierStart`, `isJavaIdentifierPart` and `String.toLowerCase` also accept other Unicode letters, digits and spaces.
  - So a name such as `café` is a variable in Java but a parse error in the model, and case folding of non-ASCII prefixes differs.
- Strings are sequences of Unicode scalar values, not UTF-16 code units.
  - A character outside the Basic Multilingual Plane counts as one character in the model and two in Java.
  - Parse positions after such a character, `Strs.LexLe` against `compareTo`, and a char literal of such a character all differ.
- `Values.Value` has no void value. A call of a void method is whatever the VM oracle `invoke` returns, so the interpreter's handling of JDI's `VoidValue` is not modelled.
- Floating point is abstract:
  - float and double arithmetic, comparison, rendering and literal parsing are the oracle `Values.FloatOps`;
  - long arithmetic is exact only while doubles hold the values exactly (`Interp.LongArith`);
  - beyond that the result is the oracle's.
- `InterpProps.CastLongToIntSaturates`: is proved only for longs below 2^53 in magnitude, the range where the double the source converts through is exact.
- JDI calls are oracles or parameters:
  - the class table;
  - field reads;
  - `invokeMethod`, `newInstance` and array creation;
  - `classesByName`, `locationsOfLine` and `allThreads`;
  - a remote `toString`.
- Concurrency is not modelled:
  - the `EventProcessor.run` loop on its own thread, `shutdown` and interrupts;
  - the event listeners, `waitForEvent` and its deadline;
  - the concurrent maps and the deque's thread safety.

  One turn of the loop on an event set is `Events.EventProcessor.ProcessEventSet`. Its `VMDisconnectedException` handler is `Events.EventProcessor.HandleDisconnect`.
- Some inputs become parameters:
  - the clock (`now`, `times`);
  - the UUID a session or breakpoint id is cut from;
  - whether a connector attached.
- The connector lookup and the `close`/`dispose` calls that swallow exceptions are not modelled.
- `Session.DebugSession.ResumeAll`, `Session.DebugSession.SuspendAll`, `Session.DebugSession.Step`: the run state of the target VM is not modelled. `vm.resume()` and `vm.suspend()` (DebugSession.java:290, :295 and :314) have no counterpart, so `ResumeAll` and `SuspendAll` only set the session state, and `Step` only replaces the thread's step requests.
- `InterpFixes.JavaCall`: corrects only a receiver that is the simple name of a local variable. `a.b.m()` with a local `a` is still resolved as a call on a class `a.b`, the same defect as the last Findings row.
- Aliasing of `BreakpointInfo` is not modelled: it is a value in the session's map, updated by replacement.
- `completeSessions`, `completeThreads` and `completeBreakpoints` are not modelled; they copy lists without filtering logic. `DebuggerServiceImpl.java`, the CLI, storage and the bytecode-injection evaluator are not part of this model.
- `Session.DebugSession.GetThread`: requires a non-zero thread id or a selected thread. With both zero the Java method calls itself forever (see Findings). The same requires is on `Session.DebugSession.Step`, `Completion.TargetFrame`, `Completion.CompleteVariablesAt` and `Completion.CompleteFieldsAt`, which look the thread up the same way.
- `ParserProps.NegatedLiteralOutOfRange`: follows the code. `-2147483648` is a negation of a literal that does not fit an int, so it fails with the number-format error, whatever a test expects.
- `ParserProps.ParenthesizedNameIsCast`: follows the code. A parenthesized name always passes the cast lookahead, so `(a)-b` is the cast of `-b` to a type `a`. For the same reason a nested `((((a))))` is not the variable a test expects.
- `SessionFixes.KindName`: only the name "breakpoint" is taken from a client. The other event type names are chosen for the corrected dispatch.

## Findings

| source | as written | input that shows it | evidently intended | confidence | as-written member | corrected member |
|---|---|---|---|---|---|---|
| server/src/main/java/dev/jdbg/server/EventProcessor.java:97-104 | No dispatched `DebugEvent` has its event type set, so every event carries the empty type, and `pollEvents` with a type filter drops every event | a buffer holding one breakpoint hit, polled with the filter `["breakpoint"]` that the client sends: nothing is delivered and the buffer is emptied | each event is typed by its payload, and the filter `["breakpoint"]` delivers exactly the breakpoint hits | not executed | Session.PollWithTypeFilterDrains | SessionFixes.BreakpointFilterSelectsHits |
| server/src/main/java/dev/jdbg/server/eval/ExpressionParser.java:332-342 | `parseTypeName` takes every `[` and then demands `]`, so the array branch of `parseNewExpression` (:273-278) is never reached | `new int[5]`: ParseException "Expected ']'" at index 8 | `new T[n]` creates an array of n elements of type T | not executed | ParserErrors.NewArrayIsRefused | ParserFixes.NewArrayCreatesArray |
| server/src/main/java/dev/jdbg/server/eval/ExpressionParser.java:365-376 | `parseCharLiteral` calls `charAt` past the end of a truncated literal | `'`: StringIndexOutOfBoundsException at index 1 instead of a ParseException | a truncated character literal is a ParseException at the end of the text | not executed | ParserProps.LoneQuoteFails | ParserFixes.LoneQuoteIsParseError |
| server/src/main/java/dev/jdbg/server/eval/JdiInterpreter.java:620-643 | `valuesEqual` converts both sides with `toDouble`, which throws on a boolean; the exception is caught and the answer is false | `true == true` evaluates to false, and `true != true` to true | booleans compare by value (section 15.21.2 of the Java Language Specification) | not executed | InterpProps.TrueEqualsTrueIsFalse | InterpFixes.JavaBooleanEquality |
| server/src/main/java/dev/jdbg/server/eval/JdiInterpreter.java:564-576 | int arithmetic is done in double and then cast with `(int)`, which saturates | `2147483647 + 1` evaluates to 2147483647 | int arithmetic wraps around (section 15.18.2 of the Java Language Specification): -2147483648 | not executed | InterpProps.IntAddSaturates | InterpFixes.JavaIntArithWraps |
| server/src/main/java/dev/jdbg/server/eval/JdiInterpreter.java:706-743 | a cast of a long to int goes through double and saturates | `(int) 4294967296L` evaluates to 2147483647 | the narrowing keeps the low 32 bits (section 5.1.3 of the Java Language Specification): 0 | not executed | InterpProps.CastLongToIntSaturates | InterpFixes.JavaLongToIntKeepsLowBits |
| server/src/main/java/dev/jdbg/server/eval/JdiInterpreter.java:549-555 | only `/` checks for a zero divisor; `%` computes the double remainder NaN, which `(int)` makes 0 | `5 % 0` evaluates to 0 | an integer remainder by zero throws, as division does (section 15.17.3 of the Java Language Specification) | not executed | InterpProps.RemainderByZeroIsZero | InterpFixes.JavaRemainderByZeroThrows |
| server/src/main/java/dev/jdbg/server/DebugSession.java:171 | each request of a breakpoint is put under the same id, so the registry keeps only the last request | a method breakpoint on a method with two overloads, then `removeBreakpoint`: the first request stays installed | removal deletes every request of the breakpoint | not executed | Session.RemoveLeavesEarlierRequests | SessionFixes.RemoveAfterAddDeletesEvery |
| server/src/main/java/dev/jdbg/server/EventProcessor.java:231-248 | requests created when a deferred breakpoint's class loads are never registered in the session | a line breakpoint set before its class loads, the class then loads, then `removeBreakpoint`: the request stays installed | removal deletes the requests the breakpoint gained when its class loaded | not executed | Events.DeferredNotRegistered | SessionFixes.RemoveAfterDeferredDeletesEvery |
| server/src/main/java/dev/jdbg/server/DebugSession.java:136-140 | `getThread(0)` calls `getThread(selectedThreadId)`, which with no thread selected is `getThread(0)` again | `getThread(0)` with no thread selected: unbounded recursion | id 0 with no thread selected finds no thread | not executed | SessionFixes.LookupOfZeroNeverReturns | SessionFixes.SelectedThread |
| server/src/main/java/dev/jdbg/server/eval/JdiInterpreter.java:274-287 | a call whose receiver is a plain name is always taken for a static call | `list.size()` where `list` is a local variable and no class named `list` is loaded: "Class not loaded: list" | a simple name that is a local variable denotes the variable (section 6.5.2 of the Java Language Specification), and the method is called on its value (the correction covers only a receiver that is the simple name itself, see "## Left out") | not executed | InterpProps.NamedReceiverIsTakenForClass | InterpFixes.LocalReceiverIsCalled |
