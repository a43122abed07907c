/** Whole scans of the inputs the repository's own tests use, and of a few
    inputs that show how the scanner behaves where it departs from a
    conventional lexer. Each states the one and only outcome (tokens and
    diagnostics) of `scan_tokens`, or every outcome where the hash-set order
    leaves a choice. The character classification is assumed sound on ASCII
    and, where a run is handed to the float parser, the parser's answer is a
    hypothesis. */
module ScannerExamples {
  import opened Tokens
  import opened Primitives
  import opened Keywords
  import opened Scanner
  import opened ScanProperties

  /** The token of a reserved word as the scanner builds it. */
  function Reserved(k: TokenType): Token
    requires IsKeywordKind(k)
  {
    Token(k, Some(Spelling(k)), None, 0)
  }

  /** The identifier token of a word, with the word as lexeme and literal. */
  function Named(w: seq<char>): Token {
    Token(Identifier, Some(w), Some(IdentifierLit(w)), 0)
  }

  /** `=` alone: the operator at the end of input. */
  lemma ScanEqual(p: Platform)
    ensures ScansExactly(p, "=", [NewToken(Equal), NewToken(Eof)], [])
  {
    assert ['='] + [] == "=";
    assert [NewToken(Equal)] + [NewToken(Eof)] == [NewToken(Equal), NewToken(Eof)];
    ScansExactlyEmpty(p);
    OperatorAtEnd(p, '=');
    EmitThen(p, '=', [], NewToken(Equal), [], [NewToken(Eof)], []);
  }

  lemma ScanGreater(p: Platform)
    ensures ScansExactly(p, ">", [NewToken(Greater), NewToken(Eof)], [])
  {
    assert ['>'] + [] == ">";
    assert [NewToken(Greater)] + [NewToken(Eof)] == [NewToken(Greater), NewToken(Eof)];
    ScansExactlyEmpty(p);
    OperatorAtEnd(p, '>');
    EmitThen(p, '>', [], NewToken(Greater), [], [NewToken(Eof)], []);
  }

  /** `[` is the left-brace token (the source's naming). */
  lemma ScanLeftBracket(p: Platform)
    ensures ScansExactly(p, "[", [NewToken(LeftBrace), NewToken(Eof)], [])
  {
    assert ['['] + [] == "[";
    assert [NewToken(LeftBrace)] + [NewToken(Eof)] == [NewToken(LeftBrace), NewToken(Eof)];
    ScansExactlyEmpty(p);
    PunctuationStep(p, '[', []);
    EmitThen(p, '[', [], NewToken(LeftBrace), [], [NewToken(Eof)], []);
  }

  lemma ScanGreaterEqual(p: Platform)
    ensures ScansExactly(p, ">=", [NewToken(GreatEqual), NewToken(Eof)], [])
  {
    assert ['>'] + (['='] + []) == ">=";
    assert [NewToken(GreatEqual)] + [NewToken(Eof)] == [NewToken(GreatEqual), NewToken(Eof)];
    ScansExactlyEmpty(p);
    OperatorStep(p, '>', '=', []);
    EmitThen(p, '>', ['='] + [], NewToken(GreatEqual), [], [NewToken(Eof)], []);
  }

  /** `!=` alone: the two-character operator. */
  lemma ScanBangEqual(p: Platform)
    ensures ScansExactly(p, "!=", [NewToken(BangEqual), NewToken(Eof)], [])
  {
    assert ['!'] + (['='] + []) == "!=";
    assert [NewToken(BangEqual)] + [NewToken(Eof)] == [NewToken(BangEqual), NewToken(Eof)];
    ScansExactlyEmpty(p);
    OperatorStep(p, '!', '=', []);
    EmitThen(p, '!', ['='] + [], NewToken(BangEqual), [], [NewToken(Eof)], []);
  }

  /** A comment line, then `!=`: the comment yields no token but is
      reported once. Stated for every comment text without a line feed,
      " hello i am a comment " among them. */
  lemma ScanComment(p: Platform, text: seq<char>)
    requires '\n' !in text
    ensures ScansExactly(p, "//" + text + "\n!=", [NewToken(BangEqual), NewToken(Eof)], [UnidentifiedChar])
  {
    assert ['/'] + (['/'] + (text + ['\n'] + "!=")) == "//" + text + "\n!=";
    assert [UnidentifiedChar] + [] == [UnidentifiedChar];
    ScanBangEqual(p);
    CommentStep(p, text, "!=");
    SkipThen(p, '/', ['/'] + (text + ['\n'] + "!="), "!=", [NewToken(BangEqual), NewToken(Eof)], []);
  }

  lemma ScanSlash(p: Platform)
    ensures ScansExactly(p, "/", [NewToken(Slash), NewToken(Eof)], [])
  {
    assert ['/'] + [] == "/";
    assert [NewToken(Slash)] + [NewToken(Eof)] == [NewToken(Slash), NewToken(Eof)];
    ScansExactlyEmpty(p);
    SlashStep(p, ' ', []);
    EmitThen(p, '/', [], NewToken(Slash), [], [NewToken(Eof)], []);
  }

  /** A word no reserved word starts with is an identifier, with itself as
      lexeme and identifier literal. */
  lemma ScanIdentifier(p: Platform)
    requires Sound(p)
    ensures ScansExactly(p, "hello", [Named("hello"), NewToken(Eof)], [])
  {
    assert ['h'] + "ello" == "hello" && ['h'] + "ello" + [] == "hello";
    assert Candidates(KeywordsFor('h'), "hello", "hello") == {Named("hello")};
    assert [Named("hello")] + [NewToken(Eof)] == [Named("hello"), NewToken(Eof)];
    ScansExactlyEmpty(p);
    AsciiWordThen(p, 'h', "ello", [], Named("hello"), [NewToken(Eof)], []);
  }

  lemma ScanAnd(p: Platform)
    requires Sound(p)
    ensures ScansExactly(p, "and", [Reserved(And), NewToken(Eof)], [])
  {
    assert Spelling(And) + [] == "and";
    assert [Reserved(And)] + [NewToken(Eof)] == [Reserved(And), NewToken(Eof)];
    ScansExactlyEmpty(p);
    ReservedWordThen(p, And, [], [NewToken(Eof)], []);
  }

  /** A quoted reserved word is a string: the quotes are dropped. */
  lemma ScanString(p: Platform)
    requires Sound(p)
    ensures ScansExactly(p, "\"and\"", [Token(String, Some("and"), Some(Str("and")), 0), NewToken(Eof)], [])
  {
    var t := Token(String, Some("and"), Some(Str("and")), 0);
    assert ['"'] + ("and" + ['"']) == "\"and\"";
    assert ['"'][1..] == [];
    assert [t] + [NewToken(Eof)] == [t, NewToken(Eof)];
    ScansExactlyEmpty(p);
    StringStep(p, "and", ['"']);
    EmitThen(p, '"', "and" + ['"'], t, [], [NewToken(Eof)], []);
  }

  /** A string with no closing quote runs to the end of input and is still a
      string token; nothing is reported. */
  lemma ScanUnterminatedString(p: Platform)
    requires Sound(p)
    ensures ScansExactly(p, "\"ab", [Token(String, Some("ab"), Some(Str("ab")), 0), NewToken(Eof)], [])
  {
    var t := Token(String, Some("ab"), Some(Str("ab")), 0);
    assert ['"'] + ("ab" + []) == "\"ab";
    assert [t] + [NewToken(Eof)] == [t, NewToken(Eof)];
    ScansExactlyEmpty(p);
    StringStep(p, "ab", []);
    EmitThen(p, '"', "ab" + [], t, [], [NewToken(Eof)], []);
  }

  /** A numeric run the parser accepts is a number. */
  lemma ScanNumber(p: Platform, v: F64)
    requires Sound(p) && p.parseF64("123") == Some(v)
    ensures ScansExactly(p, "123", [Token(Number, Some("123"), Some(NumberLit(v)), 0), NewToken(Eof)], [])
  {
    var t := Token(Number, Some("123"), Some(NumberLit(v)), 0);
    assert ['1'] + "23" == "123" && ['1'] + "23" + [] == "123";
    assert [t] + [NewToken(Eof)] == [t, NewToken(Eof)];
    ScansExactlyEmpty(p);
    AsciiNumberThen(p, '1', "23", [], [NewToken(Eof)], []);
  }

  lemma ScanDecimal(p: Platform, v: F64)
    requires Sound(p) && p.parseF64("123.123") == Some(v)
    ensures ScansExactly(p, "123.123", [Token(Number, Some("123.123"), Some(NumberLit(v)), 0), NewToken(Eof)], [])
  {
    var t := Token(Number, Some("123.123"), Some(NumberLit(v)), 0);
    assert ['1'] + "23.123" == "123.123" && ['1'] + "23.123" + [] == "123.123";
    assert [t] + [NewToken(Eof)] == [t, NewToken(Eof)];
    ScansExactlyEmpty(p);
    AsciiNumberThen(p, '1', "23.123", [], [NewToken(Eof)], []);
  }

  /** A numeric run the parser rejects is an identifier carrying the run as
      a string literal. */
  lemma ScanTwoDecimalPoints(p: Platform)
    requires Sound(p) && p.parseF64("123.123.123") == None
    ensures ScansExactly(p, "123.123.123",
                         [Token(Identifier, Some("123.123.123"), Some(Str("123.123.123")), 0), NewToken(Eof)], [])
  {
    var t := Token(Identifier, Some("123.123.123"), Some(Str("123.123.123")), 0);
    assert ['1'] + "23.123.123" == "123.123.123" && ['1'] + "23.123.123" + [] == "123.123.123";
    assert [t] + [NewToken(Eof)] == [t, NewToken(Eof)];
    ScansExactlyEmpty(p);
    AsciiNumberThen(p, '1', "23.123.123", [], [NewToken(Eof)], []);
  }

  lemma ScanDecimalThenLetters(p: Platform)
    requires Sound(p) && p.parseF64("123.123ffafaf") == None
    ensures ScansExactly(p, "123.123ffafaf",
                         [Token(Identifier, Some("123.123ffafaf"), Some(Str("123.123ffafaf")), 0), NewToken(Eof)], [])
  {
    var t := Token(Identifier, Some("123.123ffafaf"), Some(Str("123.123ffafaf")), 0);
    assert ['1'] + "23.123ffafaf" == "123.123ffafaf" && ['1'] + "23.123ffafaf" + [] == "123.123ffafaf";
    assert [t] + [NewToken(Eof)] == [t, NewToken(Eof)];
    ScansExactlyEmpty(p);
    AsciiNumberThen(p, '1', "23.123ffafaf", [], [NewToken(Eof)], []);
  }

  /** An unrecognised character yields no token and one report; the scan
      goes on to the end-of-input token. */
  lemma ScanUnidentified(p: Platform)
    requires Sound(p)
    ensures ScansExactly(p, "@", [NewToken(Eof)], [UnidentifiedChar])
  {
    assert ['@'] + [] == "@";
    assert [UnidentifiedChar] + [] == [UnidentifiedChar];
    assert IsAscii('@') && !IsAsciiLetter('@') && !IsAsciiDigit('@');
    ScansExactlyEmpty(p);
    UnmatchedStep(p, '@', []);
    SkipThen(p, '@', [], [], [NewToken(Eof)], []);
  }

  lemma ScanFun(p: Platform)
    requires Sound(p)
    ensures ScansExactly(p, "fun", [Reserved(Fun), NewToken(Eof)], [])
  {
    assert Spelling(Fun) + [] == "fun";
    assert [Reserved(Fun)] + [NewToken(Eof)] == [Reserved(Fun), NewToken(Eof)];
    ScansExactlyEmpty(p);
    ReservedWordThen(p, Fun, [], [NewToken(Eof)], []);
  }

  lemma ScanFor(p: Platform)
    requires Sound(p)
    ensures ScansExactly(p, "for", [Reserved(For), NewToken(Eof)], [])
  {
    assert Spelling(For) + [] == "for";
    assert [Reserved(For)] + [NewToken(Eof)] == [Reserved(For), NewToken(Eof)];
    ScansExactlyEmpty(p);
    ReservedWordThen(p, For, [], [NewToken(Eof)], []);
  }

  lemma ScanFalse(p: Platform)
    requires Sound(p)
    ensures ScansExactly(p, "false", [Reserved(False), NewToken(Eof)], [])
  {
    assert Spelling(False) + [] == "false";
    assert [Reserved(False)] + [NewToken(Eof)] == [Reserved(False), NewToken(Eof)];
    ScansExactlyEmpty(p);
    ReservedWordThen(p, False, [], [NewToken(Eof)], []);
  }

  /** Two reserved words separated by a space: the space is consumed as the
      first word's delimiter and never reported. */
  lemma ScanFalseFun(p: Platform)
    requires Sound(p)
    ensures ScansExactly(p, "false fun", [Reserved(False), Reserved(Fun), NewToken(Eof)], [])
  {
    assert Spelling(False) + ([' '] + "fun") == "false fun";
    assert ([' '] + "fun")[1..] == "fun";
    assert [Reserved(False)] + [Reserved(Fun), NewToken(Eof)] == [Reserved(False), Reserved(Fun), NewToken(Eof)];
    ScanFun(p);
    ReservedWordThen(p, False, [' '] + "fun", [Reserved(Fun), NewToken(Eof)], []);
  }

  /** A word that extends a reserved word is an identifier. */
  lemma ScanFunny(p: Platform)
    requires Sound(p)
    ensures ScansExactly(p, "funny", [Named("funny"), NewToken(Eof)], [])
  {
    assert ['f'] + "unny" == "funny" && ['f'] + "unny" + [] == "funny";
    FunnyCandidates();
    assert [Named("funny")] + [NewToken(Eof)] == [Named("funny"), NewToken(Eof)];
    ScansExactlyEmpty(p);
    AsciiWordThen(p, 'f', "unny", [], Named("funny"), [NewToken(Eof)], []);
  }

  lemma ScanNile(p: Platform)
    requires Sound(p)
    ensures ScansExactly(p, "nile", [Named("nile"), NewToken(Eof)], [])
  {
    assert ['n'] + "ile" == "nile" && ['n'] + "ile" + [] == "nile";
    NileCandidates();
    assert [Named("nile")] + [NewToken(Eof)] == [Named("nile"), NewToken(Eof)];
    ScansExactlyEmpty(p);
    AsciiWordThen(p, 'n', "ile", [], Named("nile"), [NewToken(Eof)], []);
  }

  /** A declaration: reserved word, identifier, `=` (which swallows the
      space after it), number, reserved word. */
  lemma ScanDeclaration(p: Platform, v: F64)
    requires Sound(p) && p.parseF64("2.1212") == Some(v)
    ensures ScansExactly(p, "var hello = 2.1212 fun",
                         [Reserved(Var), Named("hello"), NewToken(Equal),
                          Token(Number, Some("2.1212"), Some(NumberLit(v)), 0),
                          Reserved(Fun), NewToken(Eof)], [])
  {
    var tail := [Named("hello"), NewToken(Equal), Token(Number, Some("2.1212"), Some(NumberLit(v)), 0),
                 Reserved(Fun), NewToken(Eof)];
    DeclarationPieces();
    assert [Reserved(Var)] + tail == [Reserved(Var), tail[0], tail[1], tail[2], tail[3], tail[4]];
    ScanDeclarationFromName(p, v);
    ReservedWordThen(p, Var, [' '] + "hello = 2.1212 fun", tail, []);
  }

  /** The declaration after its reserved word and delimiter. */
  lemma ScanDeclarationFromName(p: Platform, v: F64)
    requires Sound(p) && p.parseF64("2.1212") == Some(v)
    ensures ScansExactly(p, "hello = 2.1212 fun",
                         [Named("hello"), NewToken(Equal),
                          Token(Number, Some("2.1212"), Some(NumberLit(v)), 0),
                          Reserved(Fun), NewToken(Eof)], [])
  {
    var tail := [NewToken(Equal), Token(Number, Some("2.1212"), Some(NumberLit(v)), 0), Reserved(Fun), NewToken(Eof)];
    DeclarationPieces();
    assert Candidates(KeywordsFor('h'), "hello", "hello") == {Named("hello")};
    assert [Named("hello")] + tail == [Named("hello"), tail[0], tail[1], tail[2], tail[3]];
    ScanAssignedNumber(p, v);
    AsciiWordThen(p, 'h', "ello", [' '] + "= 2.1212 fun", Named("hello"), tail, []);
  }

  /** `=`, the space it swallows, a number and a reserved word. */
  lemma ScanAssignedNumber(p: Platform, v: F64)
    requires Sound(p) && p.parseF64("2.1212") == Some(v)
    ensures ScansExactly(p, "= 2.1212 fun",
                         [NewToken(Equal), Token(Number, Some("2.1212"), Some(NumberLit(v)), 0),
                          Reserved(Fun), NewToken(Eof)], [])
  {
    var tail := [Token(Number, Some("2.1212"), Some(NumberLit(v)), 0), Reserved(Fun), NewToken(Eof)];
    assert ['='] + ([' '] + "2.1212 fun") == "= 2.1212 fun";
    assert [NewToken(Equal)] + tail == [NewToken(Equal), tail[0], tail[1], tail[2]];
    ScanNumberThenFun(p, v);
    OperatorStep(p, '=', ' ', "2.1212 fun");
    EmitThen(p, '=', [' '] + "2.1212 fun", NewToken(Equal), "2.1212 fun", tail, []);
  }

  /** A number delimited by a space, then a reserved word. */
  lemma ScanNumberThenFun(p: Platform, v: F64)
    requires Sound(p) && p.parseF64("2.1212") == Some(v)
    ensures ScansExactly(p, "2.1212 fun",
                         [Token(Number, Some("2.1212"), Some(NumberLit(v)), 0), Reserved(Fun), NewToken(Eof)], [])
  {
    var t := Token(Number, Some("2.1212"), Some(NumberLit(v)), 0);
    assert ['2'] + ".1212" == "2.1212" && ['2'] + ".1212" + ([' '] + "fun") == "2.1212 fun";
    assert ([' '] + "fun")[1..] == "fun";
    assert [t] + [Reserved(Fun), NewToken(Eof)] == [t, Reserved(Fun), NewToken(Eof)];
    ScanFun(p);
    AsciiNumberThen(p, '2', ".1212", [' '] + "fun", [Reserved(Fun), NewToken(Eof)], []);
  }

  /** How the declaration's text splits into the pieces its steps consume. */
  lemma DeclarationPieces()
    ensures Spelling(Var) + ([' '] + "hello = 2.1212 fun") == "var hello = 2.1212 fun"
    ensures ([' '] + "hello = 2.1212 fun")[1..] == "hello = 2.1212 fun"
    ensures ['h'] + "ello" == "hello" && ['h'] + "ello" + ([' '] + "= 2.1212 fun") == "hello = 2.1212 fun"
    ensures ([' '] + "= 2.1212 fun")[1..] == "= 2.1212 fun"
  {
    assert Spelling(Var) == "var";
  }

  /** An operator swallows the character after it even when it is not `=`. */
  lemma ScanEqualSwallows(p: Platform)
    ensures ScansExactly(p, "=a", [NewToken(Equal), NewToken(Eof)], [])
  {
    assert ['='] + (['a'] + []) == "=a";
    assert [NewToken(Equal)] + [NewToken(Eof)] == [NewToken(Equal), NewToken(Eof)];
    ScansExactlyEmpty(p);
    OperatorStep(p, '=', 'a', []);
    EmitThen(p, '=', ['a'] + [], NewToken(Equal), [], [NewToken(Eof)], []);
  }

  /** A proper prefix of a single reserved word is scanned as that word,
      with the full spelling as lexeme. */
  lemma ScanPrefixOfFun(p: Platform)
    requires Sound(p)
    ensures ScansExactly(p, "fu", [Reserved(Fun), NewToken(Eof)], [])
  {
    assert ['f'] + "u" == "fu" && ['f'] + "u" + [] == "fu";
    PrefixOfFunCandidates();
    assert [Reserved(Fun)] + [NewToken(Eof)] == [Reserved(Fun), NewToken(Eof)];
    ScansExactlyEmpty(p);
    AsciiWordThen(p, 'f', "u", [], Reserved(Fun), [NewToken(Eof)], []);
  }

  /** The reserved words starting with `f`. */
  function ReservedWithF(): set<Token> {
    {Reserved(For), Reserved(Fun), Reserved(False)}
  }

  /** A lone `f` is a prefix of three reserved words; the scan may yield any
      one of them. */
  lemma ScanLoneF(p: Platform, tokens: seq<Token>, diagnostics: seq<Diagnostic>)
    requires Sound(p)
    ensures Scans(p, "f", tokens, diagnostics) <==>
      |tokens| == 2 && tokens[0] in ReservedWithF() && tokens[1] == NewToken(Eof) && diagnostics == []
  {
    var choices := ReservedWithF();
    assert ['f'] + [] == "f" && [] + [] == "" && ['f'] == "f";
    assert IsAscii('f') && IsAsciiLetter('f') && !IsAsciiWhitespace('f');
    LoneFCandidates();
    WordStepClassified(p, 'f', [], []);
    assert ParseChars(p, 'f', []) == Emitted(choices, []);
    LastStep(p, 'f', [], choices, tokens, diagnostics);
  }

  /** No reserved word starting with `f` extends `funny`. */
  lemma FunnyCandidates()
    ensures Candidates(KeywordsFor('f'), "funny", "funny") == {Named("funny")}
  {
    var kws := KeywordsFor('f');
    assert !("funny" <= kws[0].spelling) by { assert "funny"[1] != kws[0].spelling[1]; }
    assert !("funny" <= kws[1].spelling);
    assert !("funny" <= kws[2].spelling) by { assert "funny"[1] != kws[2].spelling[1]; }
    assert forall k :: k in kws ==> k == kws[0] || k == kws[1] || k == kws[2];
    var matched := set k | k in kws && "funny" <= k.spelling :: KeywordToken(k);
    assert matched == {};
  }

  /** `nil` does not extend `nile`. */
  lemma NileCandidates()
    ensures Candidates(KeywordsFor('n'), "nile", "nile") == {Named("nile")}
  {
    var kws := KeywordsFor('n');
    assert !("nile" <= kws[0].spelling);
    assert forall k :: k in kws ==> k == kws[0];
    var matched := set k | k in kws && "nile" <= k.spelling :: KeywordToken(k);
    assert matched == {};
  }

  /** Of the reserved words starting with `f`, only `fun` extends `fu`. */
  lemma PrefixOfFunCandidates()
    ensures Candidates(KeywordsFor('f'), "fu", "fu") == {Reserved(Fun)}
  {
    var kws := KeywordsFor('f');
    assert !("fu" <= kws[0].spelling) by { assert "fu"[1] != kws[0].spelling[1]; }
    assert !("fu" <= kws[2].spelling) by { assert "fu"[1] != kws[2].spelling[1]; }
    assert "fu" <= kws[1].spelling by { assert "fu" == kws[1].spelling[..2]; }
    assert forall k :: k in kws ==> k == kws[0] || k == kws[1] || k == kws[2];
    var matched := set k | k in kws && "fu" <= k.spelling :: KeywordToken(k);
    assert KeywordToken(kws[1]) == Reserved(Fun);
    assert Reserved(Fun) in matched;
    assert matched == {Reserved(Fun)};
  }

  /** All three reserved words starting with `f` extend `f`. */
  lemma LoneFCandidates()
    ensures Candidates(KeywordsFor('f'), "f", "f") == ReservedWithF()
  {
    var kws := KeywordsFor('f');
    assert "f" <= kws[0].spelling by { assert "f" == kws[0].spelling[..1]; }
    assert "f" <= kws[1].spelling by { assert "f" == kws[1].spelling[..1]; }
    assert "f" <= kws[2].spelling by { assert "f" == kws[2].spelling[..1]; }
    assert forall k :: k in kws ==> k == kws[0] || k == kws[1] || k == kws[2];
    var matched := set k | k in kws && "f" <= k.spelling :: KeywordToken(k);
    assert KeywordToken(kws[0]) == Reserved(For) && KeywordToken(kws[1]) == Reserved(Fun) &&
      KeywordToken(kws[2]) == Reserved(False);
    assert Reserved(For) in matched && Reserved(Fun) in matched && Reserved(False) in matched;
    assert matched == {Reserved(For), Reserved(Fun), Reserved(False)};
  }
}
