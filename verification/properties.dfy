/** What one `parse_chars` step does, case by case, and what that means for
    the whole scan: which token it yields and how much input it consumes. */
module ScanProperties {
  import opened Tokens
  import opened Primitives
  import opened Walk
  import opened Keywords
  import opened Scanner

  /** The characters `parse_chars` matches before its guards. */
  predicate IsDispatchedSymbol(c: char) {
    PunctuationKind(c).Some? || OperatorKinds(c).Some? || c == '/'
  }

  /** Under sound classification no dispatched symbol and no double quote is
      alphabetic or numeric. */
  lemma SymbolsAreNotAlphanumeric(p: Platform, c: char)
    requires Sound(p)
    requires IsDispatchedSymbol(c) || c == '"'
    ensures !p.isAlphabetic(c) && !p.isNumeric(c)
  {
    assert IsAscii(c) && !IsAsciiLetter(c) && !IsAsciiDigit(c);
  }

  /** A punctuation mark yields its fixed kind and consumes nothing more. */
  lemma PunctuationStep(p: Platform, c: char, s: seq<char>)
    requires PunctuationKind(c).Some?
    ensures ParseChars(p, c, s) == Emitted({NewToken(PunctuationKind(c).value)}, s)
    ensures IsSymbolKind(PunctuationKind(c).value)
  {
  }

  /** `!`, `=`, `>` and `<` are handed to the operator rule. */
  lemma OperatorDispatch(p: Platform, c: char, s: seq<char>)
    requires OperatorKinds(c).Some?
    ensures ParseChars(p, c, s) == Operator(s, OperatorKinds(c).value.0, OperatorKinds(c).value.1)
  {
    assert PunctuationKind(c).None?;
  }

  /** `!`, `=`, `>` and `<` consume the next character, whatever it is; the
      two-character kind exactly when that character is `=`. */
  lemma OperatorStep(p: Platform, c: char, d: char, s: seq<char>)
    requires OperatorKinds(c).Some?
    ensures var kinds := OperatorKinds(c).value;
      ParseChars(p, c, [d] + s) == Emitted({NewToken(if d == '=' then kinds.1 else kinds.0)}, s)
  {
    OperatorDispatch(p, c, [d] + s);
    assert ([d] + s)[1..] == s && ([d] + s)[0] == d;
  }

  /** At the end of input the one-character operator is still emitted. */
  lemma OperatorAtEnd(p: Platform, c: char)
    requires OperatorKinds(c).Some?
    ensures ParseChars(p, c, []) == Emitted({NewToken(OperatorKinds(c).value.0)}, [])
  {
    OperatorDispatch(p, c, []);
  }

  /** A `/` is handed to the slash-or-comment rule. */
  lemma SlashDispatch(p: Platform, s: seq<char>)
    ensures ParseChars(p, '/', s) == SlashOrComment(s)
  {
    assert PunctuationKind('/').None? && OperatorKinds('/').None?;
  }

  /** `/` followed by anything but `/` yields a slash and consumes that
      character; alone at the end it yields a slash too. */
  lemma SlashStep(p: Platform, d: char, s: seq<char>)
    requires d != '/'
    ensures ParseChars(p, '/', [d] + s) == Emitted({NewToken(Slash)}, s)
    ensures ParseChars(p, '/', []) == Emitted({NewToken(Slash)}, [])
  {
    SlashDispatch(p, [d] + s);
    SlashDispatch(p, []);
    assert ([d] + s)[1..] == s;
  }

  /** `//` starts a comment that yields no token and discards everything up to
      and including the next line feed. */
  lemma CommentStep(p: Platform, body: seq<char>, s: seq<char>)
    requires '\n' !in body
    ensures ParseChars(p, '/', ['/'] + (body + ['\n'] + s)) == Skipped(s)
  {
    var input := ['/'] + (body + ['\n'] + s);
    assert input[0] == '/' && input[1..] == body + ['\n'] + s;
    SkipCommentThrough(body, s);
    SlashDispatch(p, input);
  }

  /** A comment without a line feed runs to the end of input. */
  lemma CommentToEnd(p: Platform, body: seq<char>)
    requires '\n' !in body
    ensures ParseChars(p, '/', ['/'] + body) == Skipped([])
  {
    SlashDispatch(p, ['/'] + body);
    assert (['/'] + body)[1..] == body;
  }

  /** A run starting with a numeric, non-alphabetic character is that
      character plus everything up to the next delimiter, which is consumed:
      a number when it parses, else an identifier with the run as string
      literal. */
  lemma NumberStep(p: Platform, c: char, body: seq<char>, tail: seq<char>)
    requires !IsDispatchedSymbol(c) && !p.isAlphabetic(c) && p.isNumeric(c)
    requires forall i :: 0 <= i < |body| ==> !IsDelimiter(body[i])
    requires tail == [] || IsDelimiter(tail[0])
    ensures var run := [c] + body;
      ParseChars(p, c, body + tail) == Emitted(
        {match p.parseF64(run)
         case Some(v) => Token(Number, Some(run), Some(NumberLit(v)), 0)
         case None => Token(Identifier, Some(run), Some(Str(run)), 0)},
        if tail == [] then [] else tail[1..])
  {
    NumericDispatch(p, c, body + tail);
    WalkToNextWhitespaceRun(c, body, tail);
  }

  /** A numeric character that is not alphabetic (and no symbol) is handed
      to the number rule. */
  lemma NumericDispatch(p: Platform, c: char, s: seq<char>)
    requires !IsDispatchedSymbol(c) && !p.isAlphabetic(c) && p.isNumeric(c)
    ensures ParseChars(p, c, s) == NumberRun(p, c, s)
  {
    assert PunctuationKind(c).None? && OperatorKinds(c).None? && c != '/';
  }

  /** A double quote starts a string: everything up to the next double quote,
      or to the end of input, is both lexeme and string literal; the closing
      quote is consumed and nothing is unescaped. */
  lemma StringStep(p: Platform, body: seq<char>, tail: seq<char>)
    requires Sound(p)
    requires '"' !in body
    requires tail == [] || tail[0] == '"'
    ensures ParseChars(p, '"', body + tail) ==
      Emitted({Token(String, Some(body), Some(Str(body)), 0)}, if tail == [] then [] else tail[1..])
  {
    QuoteDispatch(p, body + tail);
    WalkToNextQuoteRun(body, tail);
  }

  /** Under sound classification a double quote is handed to the string
      rule. */
  lemma QuoteDispatch(p: Platform, s: seq<char>)
    requires Sound(p)
    ensures ParseChars(p, '"', s) == StringLiteral(s)
  {
    assert PunctuationKind('"').None? && OperatorKinds('"').None?;
    SymbolsAreNotAlphanumeric(p, '"');
  }

  /** An alphabetic character goes to `keyword_match`: under sound
      classification no dispatched symbol is alphabetic. */
  lemma AlphabeticStep(p: Platform, c: char, s: seq<char>)
    requires Sound(p) && p.isAlphabetic(c)
    ensures ParseChars(p, c, s) == KeywordMatch(p, c, s)
  {
    if IsDispatchedSymbol(c) {
      SymbolsAreNotAlphanumeric(p, c);
      assert false;
    }
    assert PunctuationKind(c).None? && OperatorKinds(c).None? && c != '/';
  }

  /** An alphabetic character starts a word, classified by `keyword_match`
      on the run up to the next delimiter, which is consumed. */
  lemma WordStep(p: Platform, c: char, body: seq<char>, tail: seq<char>)
    requires Sound(p) && p.isAlphabetic(c)
    requires forall i :: 0 <= i < |body| ==> !IsDelimiter(body[i])
    requires tail == [] || IsDelimiter(tail[0])
    ensures ParseChars(p, c, body + tail) == KeywordMatch(p, c, body + tail)
    ensures WalkToNextWhitespace(c, body + tail) == Split([c] + body, if tail == [] then [] else tail[1..])
  {
    AlphabeticStep(p, c, body + tail);
    WalkToNextWhitespaceRun(c, body, tail);
  }

  /** A word with no whitespace in it, ended by a delimiter or the end of
      input, yields exactly the classification of the whole word: the
      reserved words it is a prefix of, or else the identifier. These are
      the candidates of the table of its first letter. */
  lemma WordStepClassified(p: Platform, c: char, body: seq<char>, tail: seq<char>)
    requires Sound(p) && p.isAlphabetic(c) && !p.isWhitespace(c)
    requires forall i :: 0 <= i < |body| ==> !IsDelimiter(body[i]) && !p.isWhitespace(body[i])
    requires tail == [] || IsDelimiter(tail[0])
    ensures var w := [c] + body;
      ParseChars(p, c, body + tail) ==
        Emitted(Candidates(KeywordsFor(c), w, w), if tail == [] then [] else tail[1..])
    ensures var w := [c] + body;
      ParseChars(p, c, body + tail) ==
        Emitted(Classification(w, w), if tail == [] then [] else tail[1..])
  {
    var w := [c] + body;
    WordStep(p, c, body, tail);
    KeywordMatchByTable(p, c, body + tail);
    assert forall i :: 0 <= i < |w| ==> !p.isWhitespace(w[i]);
    WordEndOfPlainWord(p, w);
    assert w[..WordEnd(p, w)] == w;
    TableMatchesReserved(c, w, w);
  }

  /** A reserved word ended by a delimiter or the end of input is scanned as
      that reserved word, with its spelling as lexeme and no literal. */
  lemma ReservedWordStep(p: Platform, k: TokenType, tail: seq<char>)
    requires Sound(p) && IsKeywordKind(k)
    requires tail == [] || IsDelimiter(tail[0])
    ensures |Spelling(k)| > 0
    ensures ParseChars(p, Spelling(k)[0], Spelling(k)[1..] + tail) ==
      Emitted({Token(k, Some(Spelling(k)), None, 0)}, if tail == [] then [] else tail[1..])
  {
    EveryKeywordInItsTable(k);
    var c := Spelling(k)[0];
    KeywordEntriesWellFormed(c);
    var j :| 0 <= j < |KeywordsFor(c)| && KeywordsFor(c)[j] == Keyword(Spelling(k), k);
    assert EntryWellFormed(c, KeywordsFor(c)[j]);
    assert IsAscii(c) && IsAsciiLetter(c);
    AlphabeticStep(p, c, Spelling(k)[1..] + tail);
    ReservedWordExact(p, k, tail);
  }

  /** An ASCII character no rule matches (a space, tab or line feed between
      tokens, `@`, ...) yields no token and consumes only itself. */
  lemma UnmatchedStep(p: Platform, c: char, s: seq<char>)
    requires Sound(p) && IsAscii(c) && !IsAsciiLetter(c) && !IsAsciiDigit(c)
    requires !IsDispatchedSymbol(c) && c != '"'
    ensures ParseChars(p, c, s) == Skipped(s)
  {
    assert PunctuationKind(c).None? && OperatorKinds(c).None? && c != '/';
    assert !p.isAlphabetic(c) && !p.isNumeric(c);
  }

  /** Every step consumes at least the character it was handed, so the scan
      terminates: the rest is a proper suffix of the input. */
  lemma StepShrinks(p: Platform, s: seq<char>)
    requires |s| > 0
    ensures var r := ParseChars(p, s[0], s[1..]);
      |r.rest| < |s| && r.rest == s[|s| - |r.rest|..]
  {
  }

  /** A step that yields no token costs exactly one diagnostic, and the scan
      carries on with the rest. */
  lemma ScanAfterSkipped(p: Platform, s: seq<char>, tokens: seq<Token>, diagnostics: seq<Diagnostic>)
    requires |s| > 0 && ParseChars(p, s[0], s[1..]).Skipped?
    ensures Scans(p, s, tokens, diagnostics) <==>
      |diagnostics| > 0 && diagnostics[0] == UnidentifiedChar &&
      Scans(p, ParseChars(p, s[0], s[1..]).rest, tokens, diagnostics[1..])
  {
  }

  /** A step that yields a token puts one of its candidates first. */
  lemma ScanAfterEmitted(p: Platform, s: seq<char>, tokens: seq<Token>, diagnostics: seq<Diagnostic>)
    requires |s| > 0 && ParseChars(p, s[0], s[1..]).Emitted?
    ensures Scans(p, s, tokens, diagnostics) <==>
      |tokens| > 0 && tokens[0] in ParseChars(p, s[0], s[1..]).choices &&
      Scans(p, ParseChars(p, s[0], s[1..]).rest, tokens[1..], diagnostics)
  {
  }

  /** The empty input scans to the end-of-input token alone. */
  lemma ScanEmpty(p: Platform, tokens: seq<Token>, diagnostics: seq<Diagnostic>)
    ensures Scans(p, [], tokens, diagnostics) <==> tokens == [NewToken(Eof)] && diagnostics == []
  {
  }

  /** `tokens` and `diagnostics` are the one and only outcome of scanning `s`. */
  ghost predicate ScansExactly(p: Platform, s: seq<char>, tokens: seq<Token>, diagnostics: seq<Diagnostic>) {
    forall ts, ds :: Scans(p, s, ts, ds) <==> ts == tokens && ds == diagnostics
  }

  /** The empty input has the end-of-input token as its only outcome. */
  lemma ScansExactlyEmpty(p: Platform)
    ensures ScansExactly(p, [], [NewToken(Eof)], [])
  {
    forall ts, ds
      ensures Scans(p, [], ts, ds) <==> ts == [NewToken(Eof)] && ds == []
    {
      ScanEmpty(p, ts, ds);
    }
  }

  /** A step with one candidate `t` puts `t` in front of the one outcome of
      the rest. */
  lemma EmitThen(p: Platform, c: char, s: seq<char>, t: Token, rest: seq<char>,
                 tokens: seq<Token>, diagnostics: seq<Diagnostic>)
    requires ParseChars(p, c, s) == Emitted({t}, rest)
    requires ScansExactly(p, rest, tokens, diagnostics)
    ensures ScansExactly(p, [c] + s, [t] + tokens, diagnostics)
  {
    var input := [c] + s;
    assert input[0] == c && input[1..] == s;
    forall ts, ds
      ensures Scans(p, input, ts, ds) <==> ts == [t] + tokens && ds == diagnostics
    {
      ScanAfterEmitted(p, input, ts, ds);
      ConsIff(ts, t, tokens);
    }
  }

  /** A step with several candidates puts any one of them in front of an
      outcome of the rest. */
  lemma EmitOneOf(p: Platform, c: char, s: seq<char>, choices: set<Token>, rest: seq<char>,
                  tokens: seq<Token>, diagnostics: seq<Diagnostic>)
    requires ParseChars(p, c, s) == Emitted(choices, rest)
    ensures Scans(p, [c] + s, tokens, diagnostics) <==>
      |tokens| > 0 && tokens[0] in choices && Scans(p, rest, tokens[1..], diagnostics)
  {
    var input := [c] + s;
    assert input[0] == c && input[1..] == s;
    ScanAfterEmitted(p, input, tokens, diagnostics);
  }

  /** A step that consumes the whole input and yields one of several
      candidates: the scans are exactly one candidate, then the end-of-input
      token. */
  lemma LastStep(p: Platform, c: char, s: seq<char>, choices: set<Token>,
                 tokens: seq<Token>, diagnostics: seq<Diagnostic>)
    requires ParseChars(p, c, s) == Emitted(choices, [])
    ensures Scans(p, [c] + s, tokens, diagnostics) <==>
      |tokens| == 2 && tokens[0] in choices && tokens[1] == NewToken(Eof) && diagnostics == []
  {
    EmitOneOf(p, c, s, choices, [], tokens, diagnostics);
    if |tokens| > 0 {
      EndAfterFirst(p, tokens, diagnostics);
    }
  }

  /** What may follow a first token when the input is used up. */
  lemma EndAfterFirst(p: Platform, tokens: seq<Token>, diagnostics: seq<Diagnostic>)
    requires |tokens| > 0
    ensures Scans(p, [], tokens[1..], diagnostics) <==>
      |tokens| == 2 && tokens[1] == NewToken(Eof) && diagnostics == []
  {
    ScanEmpty(p, tokens[1..], diagnostics);
    TailIsOne(tokens, NewToken(Eof));
  }

  /** A step that yields no token puts one diagnostic in front of the one
      outcome of the rest. */
  lemma SkipThen(p: Platform, c: char, s: seq<char>, rest: seq<char>,
                 tokens: seq<Token>, diagnostics: seq<Diagnostic>)
    requires ParseChars(p, c, s) == Skipped(rest)
    requires ScansExactly(p, rest, tokens, diagnostics)
    ensures ScansExactly(p, [c] + s, tokens, [UnidentifiedChar] + diagnostics)
  {
    var input := [c] + s;
    assert input[0] == c && input[1..] == s;
    forall ts, ds
      ensures Scans(p, input, ts, ds) <==> ts == tokens && ds == [UnidentifiedChar] + diagnostics
    {
      ScanAfterSkipped(p, input, ts, ds);
      ConsIff(ds, UnidentifiedChar, diagnostics);
    }
  }

  /** An ASCII word ended by a delimiter or the end of input puts its one
      candidate in front of the one outcome of what follows the delimiter. */
  lemma AsciiWordThen(p: Platform, c: char, body: seq<char>, tail: seq<char>, t: Token,
                      tokens: seq<Token>, diagnostics: seq<Diagnostic>)
    requires Sound(p) && IsAsciiLetter(c)
    requires forall i :: 0 <= i < |body| ==> IsAsciiLetter(body[i])
    requires tail == [] || IsDelimiter(tail[0])
    requires Candidates(KeywordsFor(c), [c] + body, [c] + body) == {t}
    requires ScansExactly(p, if tail == [] then [] else tail[1..], tokens, diagnostics)
    ensures ScansExactly(p, [c] + body + tail, [t] + tokens, diagnostics)
  {
    assert IsAscii(c);
    forall i | 0 <= i < |body|
      ensures !IsDelimiter(body[i]) && !p.isWhitespace(body[i])
    {
      assert IsAscii(body[i]);
    }
    assert [c] + (body + tail) == [c] + body + tail;
    WordStepClassified(p, c, body, tail);
    EmitThen(p, c, body + tail, t, if tail == [] then [] else tail[1..], tokens, diagnostics);
  }

  /** A run starting with an ASCII digit, ended by a delimiter or the end of
      input, puts its number (or identifier) token in front of the one outcome
      of what follows the delimiter. */
  lemma AsciiNumberThen(p: Platform, c: char, body: seq<char>, tail: seq<char>,
                        tokens: seq<Token>, diagnostics: seq<Diagnostic>)
    requires Sound(p) && IsAsciiDigit(c)
    requires forall i :: 0 <= i < |body| ==> !IsDelimiter(body[i])
    requires tail == [] || IsDelimiter(tail[0])
    requires ScansExactly(p, if tail == [] then [] else tail[1..], tokens, diagnostics)
    ensures ScansExactly(p, [c] + body + tail, [NumberToken(p, [c] + body)] + tokens, diagnostics)
  {
    assert IsAscii(c) && !IsAsciiLetter(c);
    assert !IsDispatchedSymbol(c);
    assert [c] + (body + tail) == [c] + body + tail;
    NumberStep(p, c, body, tail);
    EmitThen(p, c, body + tail, NumberToken(p, [c] + body), if tail == [] then [] else tail[1..],
             tokens, diagnostics);
  }

  /** A reserved word ended by a delimiter or the end of input puts its
      token in front of the one outcome of what follows the delimiter. */
  lemma ReservedWordThen(p: Platform, k: TokenType, tail: seq<char>,
                         tokens: seq<Token>, diagnostics: seq<Diagnostic>)
    requires Sound(p) && IsKeywordKind(k)
    requires tail == [] || IsDelimiter(tail[0])
    requires ScansExactly(p, if tail == [] then [] else tail[1..], tokens, diagnostics)
    ensures ScansExactly(p, Spelling(k) + tail, [Token(k, Some(Spelling(k)), None, 0)] + tokens, diagnostics)
  {
    var w := Spelling(k);
    ReservedWordStep(p, k, tail);
    Uncons(w, tail);
    EmitThen(p, w[0], w[1..] + tail, Token(k, Some(w), None, 0),
             if tail == [] then [] else tail[1..], tokens, diagnostics);
  }

  /** A non-empty sequence is its head in front of its tail. */
  lemma Uncons<T>(w: seq<T>, tail: seq<T>)
    requires |w| > 0
    ensures [w[0]] + (w[1..] + tail) == w + tail
  {
    assert w == [w[0]] + w[1..];
  }

  /** The tail of a non-empty sequence is `[x]` exactly when the sequence
      has two elements and ends with `x`. */
  lemma TailIsOne<T>(xs: seq<T>, x: T)
    requires |xs| > 0
    ensures xs[1..] == [x] <==> |xs| == 2 && xs[1] == x
  {
    if |xs| == 2 && xs[1] == x {
      assert xs[1..] == [x];
    }
  }

  lemma ConsIff<T>(xs: seq<T>, x: T, tail: seq<T>)
    ensures (|xs| > 0 && xs[0] == x && xs[1..] == tail) <==> xs == [x] + tail
  {
    if xs == [x] + tail {
      assert xs[1..] == tail;
    }
    if |xs| > 0 && xs[0] == x && xs[1..] == tail {
      assert xs == [xs[0]] + xs[1..];
    }
  }
}
