/** The token vocabulary of the scanner: token kinds, literal values, tokens and
    the diagnostic record the scanner reports for an unrecognised character. */
module Tokens {

  datatype Option<+T> = None | Some(value: T)

  /** A 64-bit IEEE 754 value, kept as its bit pattern. No floating-point
      arithmetic is modelled: the scanner only stores what the parser returns. */
  datatype F64 = F64(bits: bv64)

  datatype TokenType =
    // single-character tokens
    | LeftParen | RightParen | LeftBrace | RightBrace
    | Comma | Dot | Minus | Plus | SemiColon | Slash | Star
    // one- or two-character tokens
    | Bang | BangEqual | Equal | EqualEqual
    | Greater | GreatEqual | Less | LessEqual
    // literals
    | Identifier | String | Number
    // reserved words
    | And | Class | Else | False | Fun | For | If | Nil
    | Or | Print | Return | Super | This | True | Var | While
    // end of input
    | Eof

  /** The punctuation and operator kinds: tokens of these kinds carry
      neither lexeme nor literal. */
  predicate IsSymbolKind(k: TokenType) {
    k in {LeftParen, RightParen, LeftBrace, RightBrace, Comma, Dot, Minus, Plus,
          SemiColon, Slash, Star, Bang, BangEqual, Equal, EqualEqual,
          Greater, GreatEqual, Less, LessEqual}
  }

  /** The reserved-word kinds. */
  predicate IsKeywordKind(k: TokenType) {
    k in {And, Class, Else, False, Fun, For, If, Nil,
          Or, Print, Return, Super, This, True, Var, While}
  }

  /** The canonical spelling of each reserved-word kind. */
  function Spelling(k: TokenType): seq<char>
    requires IsKeywordKind(k)
  {
    match k
    case And => "and"
    case Class => "class"
    case Else => "else"
    case False => "false"
    case Fun => "fun"
    case For => "for"
    case If => "if"
    case Nil => "nil"
    case Or => "or"
    case Print => "print"
    case Return => "return"
    case Super => "super"
    case This => "this"
    case True => "true"
    case Var => "var"
    case While => "while"
  }

  datatype Literal =
    | IdentifierLit(name: seq<char>)
    | Str(text: seq<char>)
    | NumberLit(value: F64)

  /** A token; `lexeme` is optional because operator, punctuation and
      end-of-input tokens are built without one. */
  datatype Token = Token(kind: TokenType, lexeme: Option<seq<char>>,
                         literal: Option<Literal>, line: int)

  /** `Token::new_token`: a bare token with no lexeme, no literal and line 0. */
  function NewToken(kind: TokenType): (t: Token)
    ensures t.kind == kind && t.lexeme.None? && t.literal.None? && t.line == 0
  {
    Token(kind, None, None, 0)
  }

  /** The outcome of one `parse_chars` step and the input left after it.
      `Skipped` is the step that returned `None`; `Emitted` lists every token
      the step may return: one, except when a hash-set iteration order picks
      among several reserved words. */
  datatype Lexed = Skipped(rest: seq<char>) | Emitted(choices: set<Token>, rest: seq<char>)

  /** The record passed to the diagnostic sink: line, context label, message. */
  datatype Diagnostic = Diagnostic(line: int, context: seq<char>, message: seq<char>)

  /** The one diagnostic the scanner ever reports, for a step that yields no token. */
  const UnidentifiedChar: Diagnostic := Diagnostic(0, "", "Unidentified char")
}
