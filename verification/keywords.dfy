/** Reserved-word classification of an alphabetic run: the per-letter keyword
    tables, the prefix matching of `walk_keywords` and the token
    `match_on_keywords` builds from it. */
module Keywords {
  import opened Tokens
  import opened Primitives
  import opened Walk
  import opened TokenInvariants

  datatype Keyword = Keyword(spelling: seq<char>, kind: TokenType)

  /** The reserved words tried for a run starting with `c`, in table order;
      empty for a letter that starts no reserved word. */
  function KeywordsFor(c: char): seq<Keyword> {
    match c
    case 'a' => [Keyword("and", And)]
    case 'c' => [Keyword("class", Class)]
    case 'e' => [Keyword("else", Else)]
    case 'f' => [Keyword("for", For), Keyword("fun", Fun), Keyword("false", False)]
    case 'i' => [Keyword("if", If)]
    case 'n' => [Keyword("nil", Nil)]
    case 'o' => [Keyword("or", Or)]
    case 'p' => [Keyword("print", Print)]
    case 'r' => [Keyword("return", Return)]
    case 's' => [Keyword("super", Super)]
    case 't' => [Keyword("this", This), Keyword("true", True)]
    case 'v' => [Keyword("var", Var)]
    case 'w' => [Keyword("while", While)]
    case _ => []
  }

  predicate IsLowerAscii(c: char) {
    'a' <= c <= 'z'
  }

  /** A table entry is a reserved word spelled canonically, made of lower-case
      ASCII letters and starting with the table's letter. */
  predicate EntryWellFormed(c: char, k: Keyword) {
    IsKeywordKind(k.kind) && k.spelling == Spelling(k.kind) &&
    |k.spelling| > 0 && k.spelling[0] == c &&
    forall i :: 0 <= i < |k.spelling| ==> IsLowerAscii(k.spelling[i])
  }

  /** Every reserved word is spelled with lower-case ASCII letters. */
  lemma SpellingIsLowerAscii(k: TokenType)
    requires IsKeywordKind(k)
    ensures |Spelling(k)| > 0
    ensures forall i :: 0 <= i < |Spelling(k)| ==> IsLowerAscii(Spelling(k)[i])
  {
  }

  /** Every table entry is well formed. */
  lemma KeywordEntriesWellFormed(c: char)
    ensures forall j :: 0 <= j < |KeywordsFor(c)| ==> EntryWellFormed(c, KeywordsFor(c)[j])
  {
    forall j | 0 <= j < |KeywordsFor(c)|
      ensures EntryWellFormed(c, KeywordsFor(c)[j])
    {
      var k := KeywordsFor(c)[j];
      assert IsKeywordKind(k.kind) && k.spelling == Spelling(k.kind) && k.spelling[0] == c;
      SpellingIsLowerAscii(k.kind);
    }
  }

  /** No entry of a table is a prefix of another entry of the same table. */
  lemma KeywordTablesPrefixFree(c: char)
    ensures PrefixFree(KeywordsFor(c))
  {
    if c == 'f' {
      assert "for"[1] != "fun"[1] && "fun"[1] != "false"[1] && "for"[1] != "false"[1];
    } else if c == 't' {
      assert "this"[1] != "true"[1];
    }
  }

  /** Every reserved word appears in the table of its initial letter. */
  lemma EveryKeywordInItsTable(k: TokenType)
    requires IsKeywordKind(k)
    ensures |Spelling(k)| > 0
    ensures Keyword(Spelling(k), k) in KeywordsFor(Spelling(k)[0])
  {
  }

  /** The position of the first whitespace character of `w` (in the Unicode
      sense of the platform), or `|w|` when there is none: `walk_keywords`
      stops comparing there. */
  function WordEnd(p: Platform, w: seq<char>): (m: nat)
    ensures m <= |w|
    ensures forall i :: 0 <= i < m ==> !p.isWhitespace(w[i])
    ensures m < |w| ==> p.isWhitespace(w[m])
    decreases |w|
  {
    if |w| == 0 then 0
    else if p.isWhitespace(w[0]) then 0
    else 1 + WordEnd(p, w[1..])
  }

  /** `w` and `spelling` agree on their first `n` characters, and `spelling`
      has at least `n` of them. */
  predicate Agrees(w: seq<char>, spelling: seq<char>, n: nat)
    requires n <= |w|
  {
    n <= |spelling| && forall k :: 0 <= k < n ==> spelling[k] == w[k]
  }

  /** The indices of the keywords still matching after `walk_keywords` has
      compared `w` up to its first whitespace: those of which that part of
      `w` is a prefix. */
  function Survivors(p: Platform, w: seq<char>, kws: seq<Keyword>): (s: set<nat>)
    ensures forall j :: j in s ==> j < |kws|
  {
    set j: nat | j < |kws| && w[..WordEnd(p, w)] <= kws[j].spelling
  }

  lemma AgreesIsPrefix(w: seq<char>, spelling: seq<char>, n: nat)
    requires n <= |w|
    ensures Agrees(w, spelling, n) <==> w[..n] <= spelling
  {
  }

  /** `walk_keywords`: the loop of tokens.rs, with the hash set of surviving
      indices as a Dafny set. It answers `None` exactly when no keyword
      survives, and otherwise some survivor: which one depends on the hash
      set's iteration order, so it is chosen arbitrarily here. */
  method WalkKeywords(p: Platform, w: seq<char>, kws: seq<Keyword>) returns (r: Option<nat>)
    ensures r.None? <==> Survivors(p, w, kws) == {}
    ensures r.Some? ==> r.value in Survivors(p, w, kws)
  {
    var matching: set<nat> := set j: nat | j < |kws| && Agrees(w, kws[j].spelling, 0);
    var i := 0;
    while i < |w|
      invariant i <= |w|
      invariant forall k :: 0 <= k < i ==> !p.isWhitespace(w[k])
      invariant matching == set j: nat | j < |kws| && Agrees(w, kws[j].spelling, i)
    {
      if p.isWhitespace(w[i]) {
        break;
      }
      var j := 0;
      while j < |kws|
        invariant j <= |kws|
        invariant matching == set x: nat | x < |kws| && Agrees(w, kws[x].spelling, i) &&
          (x < j ==> i < |kws[x].spelling| && kws[x].spelling[i] == w[i])
      {
        if i < |kws[j].spelling| {
          if kws[j].spelling[i] != w[i] {
            matching := matching - {j};
          }
        } else {
          matching := matching - {j};
        }
        j := j + 1;
      }
      i := i + 1;
    }
    assert i == WordEnd(p, w);
    forall j: nat | j < |kws|
      ensures j in matching <==> j in Survivors(p, w, kws)
    {
      AgreesIsPrefix(w, kws[j].spelling, i);
    }
    if matching == {} {
      r := None;
    } else {
      var j :| j in matching;
      r := Some(j);
    }
  }

  /** The token of a word that is no reserved word: the run is both the lexeme
      and an `Identifier` literal. */
  function IdentifierToken(run: seq<char>): (t: Token)
    ensures t.kind == Identifier && t.lexeme == Some(run)
  {
    Token(Identifier, Some(run), Some(IdentifierLit(run)), 0)
  }

  /** The token of a matched reserved word: its full spelling, no literal. */
  function KeywordToken(k: Keyword): (t: Token)
  {
    Token(k.kind, Some(k.spelling), None, 0)
  }

  /** The identifier token of a run is well formed on every platform and is
      no reserved word. */
  lemma IdentifierTokenWellFormed(p: Platform, run: seq<char>)
    ensures WellFormedToken(p, IdentifierToken(run)) && !IsKeywordKind(IdentifierToken(run).kind)
  {
  }

  /** The token of a table entry that is a reserved word spelled canonically
      is well formed and is that reserved word. */
  lemma KeywordTokenWellFormed(p: Platform, k: Keyword)
    requires IsKeywordKind(k.kind) && k.spelling == Spelling(k.kind)
    ensures WellFormedToken(p, KeywordToken(k)) && IsKeywordKind(KeywordToken(k).kind)
  {
  }

  /** `match_on_keywords`: collect the run, then emit the identifier token when
      no keyword survives, or the token of any one survivor. */
  function MatchOnKeywords(p: Platform, first: char, s: seq<char>, kws: seq<Keyword>): (r: Lexed)
    ensures r.Emitted? && r.choices != {}
    ensures r.rest == WalkToNextWhitespace(first, s).rest
  {
    var w := WalkToNextWhitespace(first, s);
    var alive := Survivors(p, w.taken, kws);
    if alive == {} then
      Emitted({IdentifierToken(w.taken)}, w.rest)
    else
      var choices := set x | x in alive :: KeywordToken(kws[x]);
      var j :| j in alive;
      assert KeywordToken(kws[j]) in choices;
      Emitted(choices, w.rest)
  }

  /** Every candidate `match_on_keywords` offers is a well-formed token, and
      two different candidates are both reserved words, when the table holds
      reserved words spelled canonically. */
  lemma MatchOnKeywordsTokens(p: Platform, first: char, s: seq<char>, kws: seq<Keyword>)
    requires forall j :: 0 <= j < |kws| ==> IsKeywordKind(kws[j].kind) && kws[j].spelling == Spelling(kws[j].kind)
    ensures ValidChoices(p, MatchOnKeywords(p, first, s, kws))
  {
    var w := WalkToNextWhitespace(first, s);
    var alive := Survivors(p, w.taken, kws);
    var r := MatchOnKeywords(p, first, s, kws);
    if alive == {} {
      assert r == Emitted({IdentifierToken(w.taken)}, w.rest);
      IdentifierTokenWellFormed(p, w.taken);
      SingleChoiceValid(p, IdentifierToken(w.taken), w.rest);
    } else {
      var choices := set x | x in alive :: KeywordToken(kws[x]);
      assert r.choices == choices;
      forall t | t in choices
        ensures WellFormedToken(p, t) && IsKeywordKind(t.kind)
      {
        var x :| x in alive && t == KeywordToken(kws[x]);
        KeywordTokenWellFormed(p, kws[x]);
      }
    }
  }

  /** `keyword_match`: a letter that starts some reserved word goes through
      `match_on_keywords` with its table; any other alphabetic character
      starts an identifier. */
  function KeywordMatch(p: Platform, c: char, s: seq<char>): (r: Lexed)
    ensures r.Emitted? && r.choices != {}
    ensures r.rest == WalkToNextWhitespace(c, s).rest
    ensures ValidChoices(p, r)
  {
    var kws := KeywordsFor(c);
    if |kws| == 0 then
      var w := WalkToNextWhitespace(c, s);
      IdentifierTokenWellFormed(p, w.taken);
      SingleChoiceValid(p, IdentifierToken(w.taken), w.rest);
      Emitted({IdentifierToken(w.taken)}, w.rest)
    else
      KeywordEntriesWellFormed(c);
      assert forall j :: 0 <= j < |kws| ==> EntryWellFormed(c, kws[j]);
      MatchOnKeywordsTokens(p, c, s, kws);
      MatchOnKeywords(p, c, s, kws)
  }

  /** A word with no whitespace in it is compared in full. */
  lemma {:induction false} WordEndOfPlainWord(p: Platform, w: seq<char>)
    requires forall i :: 0 <= i < |w| ==> !p.isWhitespace(w[i])
    ensures WordEnd(p, w) == |w|
  {
  }

  /** The candidates a run should yield, stated directly from a table: the
      tokens of the entries of which the `compared` part of the run is a
      prefix, or the identifier token of the whole run `w` when there is
      none. */
  function Candidates(kws: seq<Keyword>, compared: seq<char>, w: seq<char>): set<Token> {
    var matched := set k | k in kws && compared <= k.spelling :: KeywordToken(k);
    if matched == {} then {IdentifierToken(w)} else matched
  }

  /** `match_on_keywords` offers exactly the reference candidates of the run
      it collected, compared up to its first whitespace. */
  lemma MatchOnKeywordsClassifies(p: Platform, first: char, s: seq<char>, kws: seq<Keyword>)
    ensures var w := WalkToNextWhitespace(first, s).taken;
      MatchOnKeywords(p, first, s, kws).choices == Candidates(kws, w[..WordEnd(p, w)], w)
  {
    var w := WalkToNextWhitespace(first, s).taken;
    var compared := w[..WordEnd(p, w)];
    var alive := Survivors(p, w, kws);
    var matched := set k | k in kws && compared <= k.spelling :: KeywordToken(k);
    var choices := set x | x in alive :: KeywordToken(kws[x]);
    forall t | t in matched
      ensures t in choices
    {
      var k :| k in kws && compared <= k.spelling && t == KeywordToken(k);
      var j :| 0 <= j < |kws| && kws[j] == k;
      assert j in alive;
    }
    forall t | t in choices
      ensures t in matched
    {
      var j :| j in alive && t == KeywordToken(kws[j]);
      assert kws[j] in kws;
    }
    assert matched == choices;
    if alive == {} {
      assert choices == {};
    } else {
      var j :| j in alive;
      assert KeywordToken(kws[j]) in choices;
    }
  }

  /** `keyword_match` offers exactly the table candidates for the table of
      the run's first letter (an empty table for a letter that starts no
      reserved word). */
  lemma KeywordMatchByTable(p: Platform, c: char, s: seq<char>)
    ensures var w := WalkToNextWhitespace(c, s).taken;
      KeywordMatch(p, c, s).choices == Candidates(KeywordsFor(c), w[..WordEnd(p, w)], w)
  {
    var w := WalkToNextWhitespace(c, s).taken;
    var kws := KeywordsFor(c);
    if |kws| > 0 {
      MatchOnKeywordsClassifies(p, c, s, kws);
    } else {
      assert forall k :: k !in kws;
    }
  }

  /** The tokens of all reserved words that `u` is a prefix of, with the
      reserved word's full spelling as lexeme and no literal. */
  function PrefixedReserved(u: seq<char>): set<Token> {
    set k: TokenType | IsKeywordKind(k) && u <= Spelling(k) :: Token(k, Some(Spelling(k)), None, 0)
  }

  /** The classification a run `w` should get when its compared part is
      `u`, stated over the reserved words themselves and no table: every
      reserved word `u` is a prefix of, or else the identifier `w`. */
  function Classification(u: seq<char>, w: seq<char>): set<Token> {
    var r := PrefixedReserved(u);
    if r == {} then {IdentifierToken(w)} else r
  }

  /** The table of a letter holds every reserved word starting with it, and
      only those: on a compared part starting with that letter the table
      candidates are the classification. */
  lemma TableMatchesReserved(c: char, u: seq<char>, w: seq<char>)
    requires |u| > 0 && u[0] == c
    ensures Candidates(KeywordsFor(c), u, w) == Classification(u, w)
  {
    var kws := KeywordsFor(c);
    var matched := set k | k in kws && u <= k.spelling :: KeywordToken(k);
    forall t | t in matched
      ensures t in PrefixedReserved(u)
    {
      var k :| k in kws && u <= k.spelling && t == KeywordToken(k);
      var j :| 0 <= j < |kws| && kws[j] == k;
      KeywordEntriesWellFormed(c);
      assert EntryWellFormed(c, kws[j]);
    }
    forall t | t in PrefixedReserved(u)
      ensures t in matched
    {
      var k :| IsKeywordKind(k) && u <= Spelling(k) && t == Token(k, Some(Spelling(k)), None, 0);
      EveryKeywordInItsTable(k);
      assert Spelling(k)[0] == c;
      assert Keyword(Spelling(k), k) in kws;
      assert KeywordToken(Keyword(Spelling(k), k)) == t;
    }
    assert matched == PrefixedReserved(u);
  }

  /** `keyword_match` offers exactly the classification of the run it
      collected, compared up to its first whitespace: all reserved words
      that part is a prefix of, or the identifier token of the whole run. */
  lemma KeywordMatchClassifies(p: Platform, c: char, s: seq<char>)
    requires !p.isWhitespace(c)
    ensures var w := WalkToNextWhitespace(c, s).taken;
      KeywordMatch(p, c, s).choices == Classification(w[..WordEnd(p, w)], w)
  {
    var w := WalkToNextWhitespace(c, s).taken;
    var u := w[..WordEnd(p, w)];
    KeywordMatchByTable(p, c, s);
    assert WordEnd(p, w) > 0;
    assert u[0] == c;
    TableMatchesReserved(c, u, w);
  }

  /** No entry of `kws` is a prefix of another. */
  predicate PrefixFree(kws: seq<Keyword>) {
    forall j, j' :: 0 <= j < |kws| && 0 <= j' < |kws| && j != j' ==> !(kws[j].spelling <= kws[j'].spelling)
  }

  /** A run equal to the spelling of entry `j0` of a prefix-free table, with no
      whitespace in it and ended by a delimiter or the end of input, has
      that entry as its only candidate. */
  lemma MatchOnKeywordsExact(p: Platform, kws: seq<Keyword>, j0: nat, body: seq<char>, tail: seq<char>)
    requires PrefixFree(kws)
    requires j0 < |kws| && |kws[j0].spelling| > 0 && body == kws[j0].spelling[1..]
    requires forall i :: 0 <= i < |body| ==> !IsDelimiter(body[i])
    requires forall i :: 0 <= i < |kws[j0].spelling| ==> !p.isWhitespace(kws[j0].spelling[i])
    requires tail == [] || IsDelimiter(tail[0])
    ensures MatchOnKeywords(p, kws[j0].spelling[0], body + tail, kws)
      == Emitted({KeywordToken(kws[j0])}, if tail == [] then [] else tail[1..])
  {
    var word := kws[j0].spelling;
    var c := word[0];
    WalkToNextWhitespaceRun(c, body, tail);
    assert [c] + body == word;
    WordEndOfPlainWord(p, word);
    SurvivorsOfExactWord(p, kws, j0);
    var choices := set x | x in {j0} :: KeywordToken(kws[x]);
    assert choices == {KeywordToken(kws[j0])};
  }

  /** In a prefix-free table, a whitespace-free word equal to entry `j0`
      survives against that entry alone. */
  lemma SurvivorsOfExactWord(p: Platform, kws: seq<Keyword>, j0: nat)
    requires PrefixFree(kws)
    requires j0 < |kws| && WordEnd(p, kws[j0].spelling) == |kws[j0].spelling|
    ensures Survivors(p, kws[j0].spelling, kws) == {j0}
  {
    var word := kws[j0].spelling;
    assert word[..WordEnd(p, word)] == word;
  }

  /** A run that is exactly a reserved word, ended by a space, tab, line feed
      or the end of input, yields that reserved word and nothing else: its
      kind, its spelling as lexeme and no literal. */
  lemma ReservedWordExact(p: Platform, k: TokenType, tail: seq<char>)
    requires Sound(p)
    requires IsKeywordKind(k)
    requires tail == [] || IsDelimiter(tail[0])
    ensures |Spelling(k)| > 0
    ensures KeywordMatch(p, Spelling(k)[0], Spelling(k)[1..] + tail)
      == Emitted({Token(k, Some(Spelling(k)), None, 0)}, if tail == [] then [] else tail[1..])
  {
    var word := Spelling(k);
    EveryKeywordInItsTable(k);
    var c := word[0];
    var kws := KeywordsFor(c);
    KeywordEntriesWellFormed(c);
    KeywordTablesPrefixFree(c);
    var j0 :| 0 <= j0 < |kws| && kws[j0] == Keyword(word, k);
    assert EntryWellFormed(c, kws[j0]);
    forall i | 0 <= i < |word|
      ensures !p.isWhitespace(word[i]) && !IsDelimiter(word[i])
    {
      assert IsLowerAscii(word[i]);
      assert IsAscii(word[i]) && !IsAsciiWhitespace(word[i]);
    }
    MatchOnKeywordsExact(p, kws, j0, word[1..], tail);
  }
}
