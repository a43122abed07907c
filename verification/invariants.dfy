/** The properties every token the scanner produces keeps. */
module TokenInvariants {
  import opened Tokens
  import opened Primitives

  /** The invariants every token the scanner produces keeps: it is on line 0;
      an end-of-input token has neither lexeme nor literal; a reserved word
      carries its spelling and no literal; a number carries the value its
      lexeme parsed to; a string and an identifier carry their lexeme as
      literal (as a string literal only for a numeric run that failed to
      parse); and only identifiers carry an identifier literal. */
  predicate WellFormedToken(p: Platform, t: Token) {
    t.line == 0 &&
    (t.kind == Eof ==> t.lexeme.None? && t.literal.None?) &&
    (IsKeywordKind(t.kind) ==> t.lexeme == Some(Spelling(t.kind)) && t.literal.None?) &&
    (t.kind == Number ==>
       t.lexeme.Some? && t.literal.Some? && t.literal.value.NumberLit? &&
       p.parseF64(t.lexeme.value) == Some(t.literal.value.value)) &&
    (t.kind == String ==> t.lexeme.Some? && t.literal == Some(Str(t.lexeme.value))) &&
    (t.kind == Identifier ==>
       t.lexeme.Some? &&
       (t.literal == Some(IdentifierLit(t.lexeme.value)) ||
        (t.literal == Some(Str(t.lexeme.value)) && p.parseF64(t.lexeme.value).None?))) &&
    (t.literal.Some? && t.literal.value.IdentifierLit? ==> t.kind == Identifier)
  }

  /** Two different candidates of one step are both reserved words: the only
      freedom a step has is which reserved word the hash-set order picks. */
  predicate OnlyKeywordsDiffer(choices: set<Token>) {
    forall t, t' :: t in choices && t' in choices && t != t' ==>
      IsKeywordKind(t.kind) && IsKeywordKind(t'.kind)
  }

  /** What every step guarantees about the tokens it offers: at least one,
      each well formed and none the end-of-input token, and two different
      ones only when both are reserved words. */
  predicate ValidChoices(p: Platform, r: Lexed) {
    r.Emitted? ==>
      r.choices != {} &&
      (forall t :: t in r.choices ==> WellFormedToken(p, t) && t.kind != Eof) &&
      OnlyKeywordsDiffer(r.choices)
  }

  /** A single well-formed candidate is a valid offer. */
  lemma SingleChoiceValid(p: Platform, t: Token, rest: seq<char>)
    requires WellFormedToken(p, t) && t.kind != Eof
    ensures ValidChoices(p, Emitted({t}, rest))
  {
  }

  /** A bare punctuation or operator token is well formed. */
  lemma SymbolTokenWellFormed(p: Platform, k: TokenType)
    requires IsSymbolKind(k)
    ensures WellFormedToken(p, NewToken(k)) && NewToken(k).kind != Eof
  {
  }
}
