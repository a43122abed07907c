# Lox scanner of `src/tokens.rs`, modelled in Dafny

This project models the lexical scanner of a Rust implementation of the Lox
language from *Crafting Interpreters*. It covers the token vocabulary, the
per-character step `parse_chars`, the character walks it performs, the
reserved-word matching of `keyword_match` / `walk_keywords` /
`match_on_keywords`, and the driver `scan_tokens`.

The model follows the code as it is written. In particular:

- The operators `!`, `=`, `>`, `<` and `/` always consume the character after them, whatever it is. The source does not peek, so `=a` scans as `=` alone.
- A line comment (`//` through the next line feed, or through the end of input) yields no token. `scan_tokens` therefore reports it as an unidentified character.
- Whitespace yields no token and is reported, unless something consumed it first. A word or number run consumes the space, tab or line feed that ends it, and `!`, `=`, `>`, `<` and `/` consume whatever character follows them.
- A reserved word is matched by prefix. The run is compared up to its first Unicode whitespace character against the table of its first letter, and any table entry the compared part is a prefix of survives. So `fu` scans as `fun`. A lone `f` may scan as `for`, `fun` or `false`, depending on hash-set iteration order.
- A string with no closing quote runs to the end of input and is still a `STRING` token. Nothing is unescaped.
- A run starting with a numeric character is a `NUMBER` if it parses as an `f64`. Otherwise it is an `IDENTIFIER` that carries the run as a string literal.
- Every token is on line 0.

The scanner of *Crafting Interpreters* behaves differently. It peeks after an operator and consumes the next character only when it completes a two-character token. It skips whitespace and comments without reporting them. It looks reserved words up by their exact spelling. It reports an unterminated string and emits no token for it. It counts lines. This model describes the Rust code, not the book.

Module layout:

- `Tokens` (`tokens.dfy`) holds the token kinds, literals, tokens, the step outcome `Lexed` and the one diagnostic record.
- `Primitives` (`primitives.dfy`) holds the platform services the scanner calls: Unicode classification and the `f64` parser. They are parameters, constrained by `Sound` to the Unicode tables on ASCII.
- `TokenInvariants` (`invariants.dfy`) defines what a well-formed token and a valid step are.
- `Walk` (`walk.dfy`) holds the iterator walks: `walk_to_next_whitespace`, `walk_to_next_quote` and the comment loop.
- `Keywords` (`keywords.dfy`) holds the keyword tables, `walk_keywords`, `match_on_keywords` and `keyword_match`, together with `Classification`, which states their result over the reserved words themselves, independently of the tables.
- `Scanner` (`scanner.dfy`) holds `parse_chars` (`ParseChars`), the scan relation `Scans`, the executable `ScanTokens` and the properties of whole scans.
- `ScanProperties` (`properties.dfy`) says what a step does case by case, and how a step combines with the scan of the rest.
- `ScannerExamples` (`examples.dfy`) holds the repository's own unit tests, stated as theorems about every possible outcome of the scan, plus a few inputs that show where the scanner departs from a conventional lexer.

Because of the hash-set choice, one `parse_chars` step offers a *set* of candidate tokens. `Scans(p, s, tokens, diagnostics)` is the relation "this is one possible run of `scan_tokens` on `s`". The executable `ScanTokens` picks one candidate per step and is proved to produce such a run. `ScansExactly` states that a run is the only possible one.

## Model

| member | source | states |
|---|---|---|
| Tokens.NewToken | src/tokens.rs:41-43 | A bare token has the given kind, no lexeme, no literal and line 0 |
| Walk.TakeUntil | src/tokens.rs:274-289 | The run is a prefix of the input and holds no stopping character. The first stopping character ends it and is consumed, and the rest is what follows it. With no stopping character the whole input is consumed |
| Walk.TakeUntilReassembles | src/tokens.rs:274-289 | Run, stopping character and rest put back together give the input: the walk loses nothing |
| Walk.TakeUntilUnique | src/tokens.rs:274-289 | For any stop-free run followed by a stopping character, the walk takes exactly that run and leaves exactly what follows |
| Walk.TakeUntilWhole | src/tokens.rs:274-289 | Input with no stopping character is taken whole and leaves nothing |
| Walk.WalkToNextWhitespace | src/tokens.rs:274-289 | The run starts with the current character and holds no space, tab or line feed after it. The delimiter that ends it is consumed, not kept |
| Walk.WalkToNextWhitespaceRun | src/tokens.rs:274-289 | A delimiter-free body followed by a delimiter or the end of input gives exactly the current character plus the body, and the rest after the delimiter |
| Walk.WalkToNextQuote | src/tokens.rs:302-314 | The body holds no double quote and runs to the next quote or the end of input. The closing quote is consumed |
| Walk.WalkToNextQuoteRun | src/tokens.rs:302-314 | A quote-free body followed by a quote or the end of input gives exactly that body, and the rest after the quote |
| Walk.SkipComment | src/tokens.rs:183-190 | With a line feed present, everything through the first line feed is discarded. Without one, the whole input is consumed |
| Walk.SkipCommentThrough | src/tokens.rs:183-190 | A comment body without a line feed, then a line feed, leaves exactly what follows |
| TokenInvariants.SymbolTokenWellFormed | src/tokens.rs:112-179 | Punctuation and operator tokens are well formed and are not the end-of-input token |
| Keywords.KeywordEntriesWellFormed | src/tokens.rs:244-266 | Every table entry is a reserved word with its canonical lower-case spelling, starting with the table's letter |
| Keywords.KeywordTablesPrefixFree | src/tokens.rs:246-263 | No entry of a table is a prefix of another entry of the same table |
| Keywords.EveryKeywordInItsTable | src/tokens.rs:242-268 | Every reserved word appears in the table of its first letter |
| Keywords.TableMatchesReserved | src/tokens.rs:244-266 | On a compared part starting with a letter, the candidates from that letter's table are exactly its classification over all reserved words: the table holds every reserved word starting with the letter and no other |
| Keywords.WordEnd | src/tokens.rs:338-340 | The comparison stops at the first Unicode whitespace of the word, or at its end |
| Keywords.IdentifierToken | src/tokens.rs:291-300 | The token of a run that is no reserved word has kind `IDENTIFIER` and the run as lexeme |
| Keywords.IdentifierTokenWellFormed | src/tokens.rs:291-300 | That token is well formed, with the run as its `Identifier` literal, on line 0 and of no reserved-word kind |
| Keywords.KeywordTokenWellFormed | src/tokens.rs:374-385 | The token built for a surviving table entry is that reserved word, with its full spelling as lexeme, no literal and line 0 |
| Keywords.WalkKeywords | src/tokens.rs:317-359 | Answers None exactly when no entry survives the comparison, and otherwise some entry of which the compared part of the word is a prefix |
| Keywords.MatchOnKeywords | src/tokens.rs:361-392 | Always emits, and consumes exactly what the whitespace walk consumes |
| Keywords.MatchOnKeywordsTokens | src/tokens.rs:361-392 | Every candidate is well formed, and two different candidates are both reserved words |
| Keywords.KeywordMatch | src/tokens.rs:242-272 | Always emits and consumes the run. Every candidate is valid: well formed, never end of input, and differing only between reserved words |
| Keywords.KeywordMatchClassifies | src/tokens.rs:242-392 | For any character that is not whitespace, the candidates are every reserved word of which the run, compared up to its first whitespace, is a prefix. When there is none, the only candidate is the identifier token of the whole run |
| Keywords.SurvivorsOfExactWord | src/tokens.rs:317-359 | In a prefix-free table, a whitespace-free word equal to an entry survives against that entry alone |
| Keywords.MatchOnKeywordsExact | src/tokens.rs:361-392 | A run spelling a table entry of a prefix-free table yields that entry's token alone |
| Keywords.ReservedWordExact | src/tokens.rs:242-392 | A run that is exactly a reserved word yields that reserved word alone, with its spelling as lexeme and no literal |
| Scanner.PunctuationKind | src/tokens.rs:114-123 | Exactly the ten characters `( ) [ ] , . - + ; *` have a kind, and each such kind is a punctuation kind |
| Scanner.OperatorKinds | src/tokens.rs:124-179 | Exactly `!`, `=`, `>` and `<` have a one- and a two-character kind, and both are operator kinds |
| Scanner.Operator | src/tokens.rs:124-179 | Emits exactly one operator token and consumes the next character, if any |
| Scanner.NumberToken | src/tokens.rs:207-226 | The run is the lexeme, and the token is a well-formed number or identifier |
| Scanner.SlashOrComment | src/tokens.rs:180-198 | Consumes a prefix of the input. When it emits, it emits only a slash |
| Scanner.NumberRun | src/tokens.rs:203-227 | Emits exactly one valid number or identifier token and consumes a prefix of the input |
| Scanner.StringLiteral | src/tokens.rs:228-237 | Emits exactly one string token whose literal is its lexeme, and consumes a prefix of the input |
| Scanner.ParseChars | src/tokens.rs:103-240 | A step consumes a prefix of the rest of the input and either yields no token or offers valid candidates |
| Scanner.Scans | src/tokens.rs:394-425 | The possible outcomes of a scan: one candidate token or one report per step, then end of input. An outcome holds at least one token, and at most one token or report per input character, plus the end-of-input token |
| Scanner.ScanEndsWithEof | src/tokens.rs:394-425 | Every scan ends with the end-of-input token and holds no other |
| Scanner.ScanTokensWellFormed | src/tokens.rs:394-425 | Every token of every scan is well formed |
| Scanner.ScanDiagnosticsFixed | src/tokens.rs:407-414 | Every diagnostic is the fixed "Unidentified char" record at line 0 |
| Scanner.ScanDeterministic | src/tokens.rs:394-425 | Two scans of one input report the same diagnostics, have the same length, and differ only where both hold a reserved word |
| Scanner.ScanPrefixStart | src/tokens.rs:394-400 | Before the loop nothing is produced, and every scan of the input completes a scan of the input |
| Scanner.ScanPrefixSkipped | src/tokens.rs:409-413 | A step that yields no token adds one diagnostic and keeps the loop invariant |
| Scanner.ScanPrefixEmitted | src/tokens.rs:406-408 | A step that yields a token adds one of its candidates and keeps the loop invariant |
| Scanner.ScanTokens | src/tokens.rs:394-425 | The loop's output is a possible scan of the source that ends with the end-of-input token, and every token is well formed |
| ScanProperties.SymbolsAreNotAlphanumeric | src/tokens.rs:112-199 | Under sound classification no symbol and no double quote reaches the alphabetic or numeric guards |
| ScanProperties.PunctuationStep | src/tokens.rs:114-123 | A punctuation mark yields its kind and consumes nothing more |
| ScanProperties.OperatorDispatch | src/tokens.rs:124-179 | `!`, `=`, `>` and `<` go to the operator rule |
| ScanProperties.OperatorStep | src/tokens.rs:124-179 | An operator consumes the next character whatever it is, and gives the two-character kind exactly when that character is `=` |
| ScanProperties.OperatorAtEnd | src/tokens.rs:124-179 | At the end of input the one-character operator is emitted |
| ScanProperties.SlashDispatch | src/tokens.rs:180-198 | `/` goes to the slash-or-comment rule |
| ScanProperties.SlashStep | src/tokens.rs:180-198 | `/` followed by anything but `/` yields a slash and consumes that character. Alone, it yields a slash |
| ScanProperties.CommentStep | src/tokens.rs:180-190 | `//` yields no token and discards everything through the next line feed |
| ScanProperties.CommentToEnd | src/tokens.rs:180-190 | A comment without a line feed consumes the rest of the input |
| ScanProperties.NumericDispatch | src/tokens.rs:203-204 | A numeric, non-alphabetic character goes to the number rule |
| ScanProperties.NumberStep | src/tokens.rs:203-227 | A numeric run up to the next delimiter is a number when it parses, otherwise an identifier with the run as string literal. The delimiter is consumed |
| ScanProperties.QuoteDispatch | src/tokens.rs:228-237 | Under sound classification a double quote goes to the string rule |
| ScanProperties.StringStep | src/tokens.rs:228-237 | A quote starts a string whose lexeme and literal are the body up to the next quote or the end of input. The closing quote is consumed |
| ScanProperties.AlphabeticStep | src/tokens.rs:199-202 | An alphabetic character goes to `keyword_match` |
| ScanProperties.WordStep | src/tokens.rs:199-202 | An alphabetic character starts a word that runs to the next delimiter, which is consumed |
| ScanProperties.WordStepClassified | src/tokens.rs:199-202 | A whitespace-free word yields exactly its classification: every reserved word the whole word is a prefix of, or else the identifier. These are also the candidates from the table of its first letter |
| ScanProperties.ReservedWordStep | src/tokens.rs:199-202 | A reserved word ended by a delimiter or the end of input yields that reserved word alone |
| ScanProperties.UnmatchedStep | src/tokens.rs:238 | An ASCII character no rule matches yields no token and consumes only itself |
| ScanProperties.StepShrinks | src/tokens.rs:103-240 | Every step consumes at least its own character, so the scan terminates |
| ScanProperties.ScanAfterSkipped | src/tokens.rs:406-414 | A step that yields no token costs exactly one diagnostic, and the scan goes on with the rest |
| ScanProperties.ScanAfterEmitted | src/tokens.rs:406-408 | A step that yields a token puts one of its candidates first, and the scan goes on with the rest |
| ScanProperties.ScanEmpty | src/tokens.rs:416-420 | The empty input scans to the end-of-input token alone, with no diagnostics |
| ScanProperties.ScansExactlyEmpty | src/tokens.rs:416-420 | The end-of-input token is the one and only outcome of the empty input |
| ScanProperties.EmitThen | src/tokens.rs:406-408 | A step with one candidate, followed by a rest with one outcome, gives the input one outcome: that candidate followed by the rest's |
| ScanProperties.SkipThen | src/tokens.rs:409-413 | A step with no token, followed by a rest with one outcome, gives the input one outcome with one more diagnostic |
| ScanProperties.EmitOneOf | src/tokens.rs:406-408 | A scan of a step with several candidates starts with any one of them |
| ScanProperties.LastStep | src/tokens.rs:406-420 | When a step consumes all input, the scans are exactly one of its candidates followed by the end-of-input token |
| ScanProperties.EndAfterFirst | src/tokens.rs:416-420 | After the first token, the empty input contributes exactly the end-of-input token |
| ScanProperties.AsciiWordThen | src/tokens.rs:199-202 | An ASCII word whose reference candidates are one token, followed by a rest with one outcome, gives one outcome starting with that token |
| ScanProperties.AsciiNumberThen | src/tokens.rs:203-227 | An ASCII numeric run, followed by a rest with one outcome, gives one outcome starting with its number or identifier token |
| ScanProperties.ReservedWordThen | src/tokens.rs:242-392 | A reserved word, followed by a rest with one outcome, gives one outcome starting with that reserved word |
| ScannerExamples.ScanEqual | src/tokens.rs:451-454 | `=` scans to `EQUAL` and nothing else |
| ScannerExamples.ScanGreater | src/tokens.rs:456-459 | `>` scans to `GREATER` and nothing else |
| ScannerExamples.ScanLeftBracket | src/tokens.rs:461-464 | `[` scans to `LeftBrace` and nothing else |
| ScannerExamples.ScanGreaterEqual | src/tokens.rs:466-469 | `>=` scans to `GreatEqual` and nothing else |
| ScannerExamples.ScanComment | src/tokens.rs:471-477 | A comment line then `!=` scans to `BangEqual` alone, with the comment reported once, for every comment text without a line feed |
| ScannerExamples.ScanSlash | src/tokens.rs:479-482 | `/` scans to `SLASH` and nothing else |
| ScannerExamples.ScanIdentifier | src/tokens.rs:484-495 | `hello` scans to one identifier with itself as lexeme and identifier literal |
| ScannerExamples.ScanAnd | src/tokens.rs:497-507 | `and` scans to the `AND` reserved word |
| ScannerExamples.ScanString | src/tokens.rs:509-519 | `"and"` scans to one string with lexeme and literal `and` |
| ScannerExamples.ScanNumber | src/tokens.rs:521-531 | `123` scans to one number carrying the parsed value |
| ScannerExamples.ScanDecimal | src/tokens.rs:533-543 | `123.123` scans to one number carrying the parsed value |
| ScannerExamples.ScanTwoDecimalPoints | src/tokens.rs:545-555 | `123.123.123`, which does not parse, scans to one identifier with the run as string literal |
| ScannerExamples.ScanDecimalThenLetters | src/tokens.rs:557-569 | `123.123ffafaf`, which does not parse, scans to one identifier with the run as string literal |
| ScannerExamples.ScanUnidentified | src/tokens.rs:571-582 | `@` yields only the end-of-input token and one diagnostic |
| ScannerExamples.ScanFun | src/tokens.rs:584-594 | `fun` scans to the `FUN` reserved word |
| ScannerExamples.ScanFor | src/tokens.rs:596-606 | `for` scans to the `FOR` reserved word |
| ScannerExamples.ScanFalse | src/tokens.rs:608-618 | `false` scans to the `FALSE` reserved word |
| ScannerExamples.ScanFalseFun | src/tokens.rs:620-638 | `false fun` scans to `FALSE` then `FUN`. The space between them is consumed, not reported |
| ScannerExamples.ScanFunny | src/tokens.rs:640-650 | `funny` scans to an identifier, not to `fun` |
| ScannerExamples.ScanNile | src/tokens.rs:652-662 | `nile` scans to an identifier, not to `nil` |
| ScannerExamples.ScanDeclaration | src/tokens.rs:664-696 | `var hello = 2.1212 fun` scans to `VAR`, identifier `hello`, `EQUAL`, a number and `FUN` |
| ScannerExamples.ScanDeclarationFromName | src/tokens.rs:664-696 | The declaration after its reserved word scans to the remaining four tokens |
| ScannerExamples.ScanAssignedNumber | src/tokens.rs:138-151 | `= 2.1212 fun`: the `=` swallows the space after it |
| ScannerExamples.ScanNumberThenFun | src/tokens.rs:203-227 | A number ended by a space, then `fun`, scans to those two tokens |
| ScannerExamples.ScanEqualSwallows | src/tokens.rs:138-151 | `=a` scans to `EQUAL` alone: the `a` is swallowed |
| ScannerExamples.ScanUnterminatedString | src/tokens.rs:228-237 | `"ab` with no closing quote still scans to a string `ab`, with nothing reported |
| ScannerExamples.ScanPrefixOfFun | src/tokens.rs:317-392 | `fu` scans to `FUN` with the full spelling as lexeme |
| ScannerExamples.ScanLoneF | src/tokens.rs:317-359 | The scans of `f` are exactly `FOR`, `FUN` or `FALSE`, then end of input, with no diagnostics |

## Left out

- `src/main.rs` is not part of this model. It reads files and the prompt and prints results.
- The diagnostic sink `report` is a side effect in the source. Here each call becomes one entry of a returned diagnostic list. Its printing is not modelled.
- The `println!` tracing throughout `parse_chars`, `walk_keywords` and `scan_tokens` is not modelled.
- The `f64` parser (`str::parse::<f64>`) is a parameter of the model, `Platform.parseF64`, and values are opaque bit patterns. The examples that involve numbers take the parser's answer as a hypothesis.
- `char::is_alphabetic`, `is_numeric` and `is_whitespace` are parameters. `Sound` constrains them only on ASCII, where they match Rust's tables. Behaviour on non-ASCII characters holds for any classification.
- `walk_keywords` indexes each keyword with the word's byte offset. The model uses the character position instead. The two agree when the word is ASCII, and every reserved word is ASCII.
- The `token_types.get(index)` fallback at src/tokens.rs:386-388 cannot be reached. The model keeps spelling and kind in one table entry, so every surviving index has a kind.
- Scanner.ScanTokens: which reserved word a hash-set iteration picks is not modelled. The method picks one arbitrarily, and `Scans` admits every pick.
- The `i32` line number is always 0 in the source, so it is kept as a constant with no overflow.
- ScannerExamples.ScanComment: proved for every comment text without a line feed, which includes the test's ` hello i am a comment `.
