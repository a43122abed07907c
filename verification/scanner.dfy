/** The scanner: one `parse_chars` step, the scan relation it induces, and
    `scan_tokens`, which pulls characters until the input is exhausted and
    appends the end-of-input token. */
module Scanner {
  import opened Tokens
  import opened Primitives
  import opened Walk
  import opened Keywords
  import opened TokenInvariants

  /** The kinds of the single-character punctuation marks: exactly the ten
      characters `( ) [ ] , . - + ; *` have one. */
  function PunctuationKind(c: char): (r: Option<TokenType>)
    ensures r.Some? <==> c == '(' || c == ')' || c == '[' || c == ']' || c == ',' ||
                         c == '.' || c == '-' || c == '+' || c == ';' || c == '*'
    ensures r.Some? ==> IsSymbolKind(r.value)
  {
    match c
    case '(' => Some(LeftParen)
    case ')' => Some(RightParen)
    case '[' => Some(LeftBrace)
    case ']' => Some(RightBrace)
    case ',' => Some(Comma)
    case '.' => Some(Dot)
    case '-' => Some(Minus)
    case '+' => Some(Plus)
    case ';' => Some(SemiColon)
    case '*' => Some(Star)
    case _ => None
  }

  /** The one- and two-character kinds of the operators that may be followed
      by `=`: exactly `!`, `=`, `>` and `<` have them. */
  function OperatorKinds(c: char): (r: Option<(TokenType, TokenType)>)
    ensures r.Some? <==> c == '!' || c == '=' || c == '>' || c == '<'
    ensures r.Some? ==> IsSymbolKind(r.value.0) && IsSymbolKind(r.value.1)
  {
    match c
    case '!' => Some((Bang, BangEqual))
    case '=' => Some((Equal, EqualEqual))
    case '>' => Some((Greater, GreatEqual))
    case '<' => Some((Less, LessEqual))
    case _ => None
  }

  /** An operator that may be doubled: the next character is consumed
      unconditionally; the two-character kind only when it is `=`. */
  function Operator(s: seq<char>, single: TokenType, double: TokenType): (r: Lexed)
    ensures r.Emitted? && |r.choices| == 1
    ensures forall t :: t in r.choices ==> t == NewToken(single) || t == NewToken(double)
    ensures |s| == 0 ==> r.rest == []
    ensures |s| > 0 ==> r.rest == s[1..]
  {
    if |s| == 0 then Emitted({NewToken(single)}, [])
    else if s[0] == '=' then Emitted({NewToken(double)}, s[1..])
    else Emitted({NewToken(single)}, s[1..])
  }

  /** The token of a run that starts with a numeric character: a number when
      the run parses as a float, otherwise an identifier carrying the run as a
      string literal. */
  function NumberToken(p: Platform, run: seq<char>): (t: Token)
    ensures t.lexeme == Some(run)
    ensures t.kind == Number || t.kind == Identifier
    ensures WellFormedToken(p, t)
  {
    match p.parseF64(run)
    case Some(v) => Token(Number, Some(run), Some(NumberLit(v)), 0)
    case None => Token(Identifier, Some(run), Some(Str(run)), 0)
  }

  /** A `/`: a line comment when followed by another `/`, otherwise a slash
      that consumes the next character. */
  function SlashOrComment(s: seq<char>): (r: Lexed)
    ensures |r.rest| <= |s| && r.rest == s[|s| - |r.rest|..]
    ensures r.Emitted? ==> r.choices == {NewToken(Slash)}
  {
    if |s| == 0 then Emitted({NewToken(Slash)}, [])
    else if s[0] == '/' then Skipped(SkipComment(s[1..]))
    else Emitted({NewToken(Slash)}, s[1..])
  }

  /** A run that starts with a numeric character `c`. */
  function NumberRun(p: Platform, c: char, s: seq<char>): (r: Lexed)
    ensures r.Emitted? && |r.rest| <= |s| && r.rest == s[|s| - |r.rest|..]
    ensures exists t :: r.choices == {t} && (t.kind == Number || t.kind == Identifier)
    ensures ValidChoices(p, r)
  {
    var w := WalkToNextWhitespace(c, s);
    var t := NumberToken(p, w.taken);
    SingleChoiceValid(p, t, w.rest);
    Emitted({t}, w.rest)
  }

  /** A string literal after its opening double quote. */
  function StringLiteral(s: seq<char>): (r: Lexed)
    ensures r.Emitted? && |r.rest| <= |s| && r.rest == s[|s| - |r.rest|..]
    ensures exists body :: r.choices == {Token(String, Some(body), Some(Str(body)), 0)}
  {
    var w := WalkToNextQuote(s);
    Emitted({Token(String, Some(w.taken), Some(Str(w.taken)), 0)}, w.rest)
  }

  /** A bare punctuation or operator token is a valid offer. */
  lemma SymbolChoiceValid(p: Platform, k: TokenType, rest: seq<char>)
    requires IsSymbolKind(k)
    ensures ValidChoices(p, Emitted({NewToken(k)}, rest))
  {
    SymbolTokenWellFormed(p, k);
    SingleChoiceValid(p, NewToken(k), rest);
  }

  lemma OperatorValid(p: Platform, s: seq<char>, single: TokenType, double: TokenType)
    requires IsSymbolKind(single) && IsSymbolKind(double)
    ensures ValidChoices(p, Operator(s, single, double))
  {
    if |s| == 0 {
      assert Operator(s, single, double) == Emitted({NewToken(single)}, []);
      SymbolChoiceValid(p, single, []);
    } else if s[0] == '=' {
      assert Operator(s, single, double) == Emitted({NewToken(double)}, s[1..]);
      SymbolChoiceValid(p, double, s[1..]);
    } else {
      assert Operator(s, single, double) == Emitted({NewToken(single)}, s[1..]);
      SymbolChoiceValid(p, single, s[1..]);
    }
  }

  lemma SlashOrCommentValid(p: Platform, s: seq<char>)
    ensures ValidChoices(p, SlashOrComment(s))
  {
    if SlashOrComment(s).Emitted? {
      SymbolChoiceValid(p, Slash, SlashOrComment(s).rest);
    }
  }

  lemma StringLiteralValid(p: Platform, s: seq<char>)
    ensures ValidChoices(p, StringLiteral(s))
  {
    var w := WalkToNextQuote(s);
    SingleChoiceValid(p, Token(String, Some(w.taken), Some(Str(w.taken)), 0), w.rest);
  }

  /** `parse_chars`: the step taken on the character `c` with `s` left to
      read. The step consumes a prefix of `s` (possibly empty) and either
      yields no token or offers its candidate tokens, all well formed. The
      dispatch order is the source's: punctuation and operators first, then
      alphabetic, then numeric characters, then the double quote. */
  function ParseChars(p: Platform, c: char, s: seq<char>): (r: Lexed)
    ensures |r.rest| <= |s| && r.rest == s[|s| - |r.rest|..]
    ensures ValidChoices(p, r)
  {
    match PunctuationKind(c)
    case Some(k) =>
      SymbolChoiceValid(p, k, s);
      Emitted({NewToken(k)}, s)
    case None =>
      match OperatorKinds(c)
      case Some(kinds) =>
        OperatorValid(p, s, kinds.0, kinds.1);
        Operator(s, kinds.0, kinds.1)
      case None =>
        if c == '/' then
          SlashOrCommentValid(p, s);
          SlashOrComment(s)
        else if p.isAlphabetic(c) then
          KeywordMatch(p, c, s)
        else if p.isNumeric(c) then
          NumberRun(p, c, s)
        else if c == '"' then
          StringLiteralValid(p, s);
          StringLiteral(s)
        else
          Skipped(s)
  }

  /** `tokens` and `diagnostics` are one possible outcome of `scan_tokens` on
      `s`: each step either contributes one of its candidate tokens or reports
      one `UnidentifiedChar`, and the end of input contributes the
      end-of-input token. Every step consumes at least one character, so a
      scan has at most one token or diagnostic per character of input, plus
      the end-of-input token. */
  predicate Scans(p: Platform, s: seq<char>, tokens: seq<Token>, diagnostics: seq<Diagnostic>)
    ensures Scans(p, s, tokens, diagnostics) ==>
      |tokens| > 0 && |tokens| + |diagnostics| <= |s| + 1
    decreases |s|
  {
    if |s| == 0 then
      tokens == [NewToken(Eof)] && diagnostics == []
    else
      match ParseChars(p, s[0], s[1..])
      case Skipped(rest) =>
        |diagnostics| > 0 && diagnostics[0] == UnidentifiedChar &&
        Scans(p, rest, tokens, diagnostics[1..])
      case Emitted(choices, rest) =>
        |tokens| > 0 && tokens[0] in choices &&
        Scans(p, rest, tokens[1..], diagnostics)
  }

  /** Every scan ends with the end-of-input token and contains no other. */
  lemma {:induction false} ScanEndsWithEof(p: Platform, s: seq<char>, tokens: seq<Token>, diagnostics: seq<Diagnostic>)
    requires Scans(p, s, tokens, diagnostics)
    ensures EndsWithEof(tokens)
    decreases |s|
  {
    if |s| > 0 {
      var r := ParseChars(p, s[0], s[1..]);
      if r.Skipped? {
        assert Scans(p, r.rest, tokens, diagnostics[1..]);
        ScanEndsWithEof(p, r.rest, tokens, diagnostics[1..]);
      } else {
        assert tokens[0] in r.choices && Scans(p, r.rest, tokens[1..], diagnostics);
        ScanEndsWithEof(p, r.rest, tokens[1..], diagnostics);
        EndsWithEofCons(tokens);
      }
    }
  }

  /** The last token, and only the last, is the end-of-input token. */
  predicate EndsWithEof(tokens: seq<Token>) {
    |tokens| > 0 && tokens[|tokens| - 1] == NewToken(Eof) &&
    forall i :: 0 <= i < |tokens| - 1 ==> tokens[i].kind != Eof
  }

  lemma EndsWithEofCons(tokens: seq<Token>)
    requires |tokens| > 0 && tokens[0].kind != Eof && EndsWithEof(tokens[1..])
    ensures EndsWithEof(tokens)
  {
    forall i | 0 < i < |tokens|
      ensures tokens[i] == tokens[1..][i - 1]
    {
    }
  }

  /** Every token of every scan is well formed. */
  lemma {:induction false} ScanTokensWellFormed(p: Platform, s: seq<char>, tokens: seq<Token>, diagnostics: seq<Diagnostic>)
    requires Scans(p, s, tokens, diagnostics)
    ensures AllWellFormed(p, tokens)
    decreases |s|
  {
    if |s| > 0 {
      var r := ParseChars(p, s[0], s[1..]);
      if r.Skipped? {
        assert Scans(p, r.rest, tokens, diagnostics[1..]);
        ScanTokensWellFormed(p, r.rest, tokens, diagnostics[1..]);
      } else {
        assert tokens[0] in r.choices && Scans(p, r.rest, tokens[1..], diagnostics);
        ScanTokensWellFormed(p, r.rest, tokens[1..], diagnostics);
        AllWellFormedCons(p, tokens);
      }
    } else {
      assert WellFormedToken(p, NewToken(Eof));
    }
  }

  predicate AllWellFormed(p: Platform, tokens: seq<Token>) {
    forall i :: 0 <= i < |tokens| ==> WellFormedToken(p, tokens[i])
  }

  lemma AllWellFormedCons(p: Platform, tokens: seq<Token>)
    requires |tokens| > 0 && WellFormedToken(p, tokens[0]) && AllWellFormed(p, tokens[1..])
    ensures AllWellFormed(p, tokens)
  {
    forall i | 0 < i < |tokens|
      ensures tokens[i] == tokens[1..][i - 1]
    {
    }
  }

  /** Every diagnostic of every scan is the fixed "Unidentified char" record
      at line 0. */
  lemma {:induction false} ScanDiagnosticsFixed(p: Platform, s: seq<char>, tokens: seq<Token>, diagnostics: seq<Diagnostic>)
    requires Scans(p, s, tokens, diagnostics)
    ensures forall i :: 0 <= i < |diagnostics| ==> diagnostics[i] == UnidentifiedChar
    decreases |s|
  {
    if |s| > 0 {
      var r := ParseChars(p, s[0], s[1..]);
      if r.Skipped? {
        assert diagnostics[0] == UnidentifiedChar && Scans(p, r.rest, tokens, diagnostics[1..]);
        ScanDiagnosticsFixed(p, r.rest, tokens, diagnostics[1..]);
        AllUnidentifiedCons(diagnostics);
      } else {
        assert Scans(p, r.rest, tokens[1..], diagnostics);
        ScanDiagnosticsFixed(p, r.rest, tokens[1..], diagnostics);
      }
    }
  }

  lemma AllUnidentifiedCons(diagnostics: seq<Diagnostic>)
    requires |diagnostics| > 0 && diagnostics[0] == UnidentifiedChar
    requires forall i :: 0 <= i < |diagnostics| - 1 ==> diagnostics[1..][i] == UnidentifiedChar
    ensures forall i :: 0 <= i < |diagnostics| ==> diagnostics[i] == UnidentifiedChar
  {
    forall i | 0 < i < |diagnostics|
      ensures diagnostics[i] == diagnostics[1..][i - 1]
    {
    }
  }

  /** Two token sequences of the same length that differ at most where both
      hold a reserved word. */
  predicate SameUpToKeywords(t1: seq<Token>, t2: seq<Token>) {
    |t1| == |t2| &&
    forall i :: 0 <= i < |t1| && t1[i] != t2[i] ==>
      IsKeywordKind(t1[i].kind) && IsKeywordKind(t2[i].kind)
  }

  lemma SameUpToKeywordsCons(t1: seq<Token>, t2: seq<Token>)
    requires |t1| > 0 && |t2| > 0
    requires t1[0] != t2[0] ==> IsKeywordKind(t1[0].kind) && IsKeywordKind(t2[0].kind)
    requires SameUpToKeywords(t1[1..], t2[1..])
    ensures SameUpToKeywords(t1, t2)
  {
    forall i | 0 < i < |t1|
      ensures t1[i] == t1[1..][i - 1] && t2[i] == t2[1..][i - 1]
    {
    }
  }

  lemma DropFirst<T>(d: seq<T>)
    requires |d| > 0
    ensures d == [d[0]] + d[1..]
  {
  }

  /** Two scans of the same input report the same diagnostics, have the same
      length, and differ at most where both hold a reserved word (the one
      freedom the hash-set order leaves). */
  lemma {:induction false} ScanDeterministic(p: Platform, s: seq<char>,
                                             t1: seq<Token>, d1: seq<Diagnostic>,
                                             t2: seq<Token>, d2: seq<Diagnostic>)
    requires Scans(p, s, t1, d1) && Scans(p, s, t2, d2)
    ensures d1 == d2
    ensures SameUpToKeywords(t1, t2)
    decreases |s|
  {
    if |s| > 0 {
      var r := ParseChars(p, s[0], s[1..]);
      if r.Skipped? {
        assert Scans(p, r.rest, t1, d1[1..]) && Scans(p, r.rest, t2, d2[1..]);
        ScanDeterministic(p, r.rest, t1, d1[1..], t2, d2[1..]);
        DropFirst(d1);
        DropFirst(d2);
      } else {
        assert t1[0] in r.choices && t2[0] in r.choices;
        assert OnlyKeywordsDiffer(r.choices);
        assert Scans(p, r.rest, t1[1..], d1) && Scans(p, r.rest, t2[1..], d2);
        ScanDeterministic(p, r.rest, t1[1..], d1, t2[1..], d2);
        SameUpToKeywordsCons(t1, t2);
      }
    }
  }

  /** Having produced `tokens` and `diagnostics` from `source`, with `rest`
      still to read, every scan of `rest` completes a scan of `source`. */
  ghost predicate ScanPrefix(p: Platform, source: seq<char>, tokens: seq<Token>,
                       diagnostics: seq<Diagnostic>, rest: seq<char>) {
    forall ts, ds :: Scans(p, rest, ts, ds) ==> Scans(p, source, tokens + ts, diagnostics + ds)
  }

  /** Nothing produced yet, all of `source` left. */
  lemma ScanPrefixStart(p: Platform, source: seq<char>)
    ensures ScanPrefix(p, source, [], [], source)
  {
    forall ts: seq<Token>, ds: seq<Diagnostic> | Scans(p, source, ts, ds)
      ensures Scans(p, source, [] + ts, [] + ds)
    {
      assert [] + ts == ts && [] + ds == ds;
    }
  }

  /** A step that yields no token adds one diagnostic. */
  lemma ScanPrefixSkipped(p: Platform, source: seq<char>, tokens: seq<Token>,
                          diagnostics: seq<Diagnostic>, rest: seq<char>)
    requires ScanPrefix(p, source, tokens, diagnostics, rest)
    requires |rest| > 0 && ParseChars(p, rest[0], rest[1..]).Skipped?
    ensures ScanPrefix(p, source, tokens, diagnostics + [UnidentifiedChar], ParseChars(p, rest[0], rest[1..]).rest)
  {
    var next := ParseChars(p, rest[0], rest[1..]).rest;
    forall ts, ds | Scans(p, next, ts, ds)
      ensures Scans(p, source, tokens + ts, diagnostics + [UnidentifiedChar] + ds)
    {
      assert ([UnidentifiedChar] + ds)[1..] == ds;
      assert Scans(p, rest, ts, [UnidentifiedChar] + ds);
      assert diagnostics + [UnidentifiedChar] + ds == diagnostics + ([UnidentifiedChar] + ds);
    }
  }

  /** A step that yields a token adds one of its candidates. */
  lemma ScanPrefixEmitted(p: Platform, source: seq<char>, tokens: seq<Token>,
                          diagnostics: seq<Diagnostic>, rest: seq<char>, t: Token)
    requires ScanPrefix(p, source, tokens, diagnostics, rest)
    requires |rest| > 0 && ParseChars(p, rest[0], rest[1..]).Emitted?
    requires t in ParseChars(p, rest[0], rest[1..]).choices
    ensures ScanPrefix(p, source, tokens + [t], diagnostics, ParseChars(p, rest[0], rest[1..]).rest)
  {
    var next := ParseChars(p, rest[0], rest[1..]).rest;
    forall ts, ds | Scans(p, next, ts, ds)
      ensures Scans(p, source, tokens + [t] + ts, diagnostics + ds)
    {
      assert ([t] + ts)[1..] == ts;
      assert Scans(p, rest, [t] + ts, ds);
      assert tokens + [t] + ts == tokens + ([t] + ts);
    }
  }

  /** `scan_tokens`: pull one character at a time, hand it to `parse_chars`,
      push the token it returns or report the character, and append the
      end-of-input token once the input is exhausted. Where a step offers
      several reserved words, one is picked arbitrarily. */
  method ScanTokens(p: Platform, source: seq<char>) returns (tokens: seq<Token>, diagnostics: seq<Diagnostic>)
    ensures Scans(p, source, tokens, diagnostics)
    ensures EndsWithEof(tokens)
    ensures AllWellFormed(p, tokens)
  {
    tokens, diagnostics := [], [];
    var rest := source;
    ScanPrefixStart(p, source);
    while |rest| > 0
      invariant ScanPrefix(p, source, tokens, diagnostics, rest)
      decreases |rest|
    {
      var step := ParseChars(p, rest[0], rest[1..]);
      match step {
        case Skipped(_) =>
          ScanPrefixSkipped(p, source, tokens, diagnostics, rest);
          diagnostics := diagnostics + [UnidentifiedChar];
        case Emitted(choices, _) =>
          var t :| t in choices;
          ScanPrefixEmitted(p, source, tokens, diagnostics, rest, t);
          tokens := tokens + [t];
      }
      rest := step.rest;
    }
    assert Scans(p, rest, [NewToken(Eof)], []);
    assert diagnostics + [] == diagnostics;
    tokens := tokens + [NewToken(Eof)];
    ScanEndsWithEof(p, source, tokens, diagnostics);
    ScanTokensWellFormed(p, source, tokens, diagnostics);
  }
}
