/** The token vocabulary of the Lox front end (lox/src/token.rs). */
module Tokens {
  import opened Wrappers

  /** Rust's `i32`, the type of source line numbers. */
  newtype int32 = x: int | -0x8000_0000 <= x < 0x8000_0000

  /** The payload of `Literal::Number`: an `f64`, kept as its 64-bit pattern.
      No arithmetic or formatting is done on it anywhere in the model. */
  type F64 = bv64

  datatype TokenType =
    // Single-character tokens.
    | LeftParen | RightParen | LeftBrace | RightBrace
    | Comma | Dot | Minus | Plus | Semicolon | Colon | Slash | Star | QuestionMark
    // One or two character tokens.
    | Bang | BangEqual | Equal | EqualEqual
    | Greater | GreaterEqual | Less | LessEqual
    // Literals.
    | Identifier | String | Number
    // Keywords.
    | And | Class | Else | False | Fun | For | If | Nil | Or
    | Print | Return | Super | This | True | Var | While
    | Eof

  /** A constant as it appears in the source text. */
  datatype Literal =
    | Number(n: F64)
    | String(s: string)
    | True
    | False
    | Nil

  /** An immutable token; its four fields are what the accessors
      `token_type`, `lexeme`, `literal` and `line` return. */
  datatype Token = Token(tokenType: TokenType, lexeme: string, literal: Option<Literal>, line: int32)

  /** `Token::new`: the accessors give back exactly what was passed in. */
  function NewToken(tokenType: TokenType, lexeme: string, literal: Option<Literal>, line: int32): (t: Token)
    ensures t.tokenType == tokenType
    ensures t.lexeme == lexeme
    ensures t.literal == literal
    ensures t.line == line
  {
    Token(tokenType, lexeme, literal, line)
  }

  /** `From<&TokenType> for Literal`: the three constant keywords become
      their literal, every other kind falls back to `Nil` (the Rust code
      also writes a diagnostic, which is output only). */
  function LiteralOfKind(kind: TokenType): (lit: Literal)
    ensures lit.True? <==> kind == TokenType.True
    ensures lit.False? <==> kind == TokenType.False
    ensures lit.Nil? <==> kind != TokenType.True && kind != TokenType.False
    ensures !lit.Number? && !lit.String?
  {
    if kind == TokenType.True then Literal.True
    else if kind == TokenType.False then Literal.False
    else Literal.Nil
  }

  /** `Display for Literal`, for every case except `Number`. */
  function Show(lit: Literal): (text: string)
    requires !lit.Number?
    ensures lit.String? ==> text == lit.s
    ensures lit.True? ==> text == "true"
    ensures lit.False? ==> text == "false"
    ensures lit.Nil? ==> text == "nil"
  {
    match lit
    case String(s) => s
    case True => "true"
    case False => "false"
    case Nil => "nil"
  }

  /** Converting a kind and displaying the result: only `true` and `false`
      come out as themselves, everything else shows as `nil`. */
  lemma ShowKindLiteral(kind: TokenType)
    ensures Show(LiteralOfKind(kind)) ==
      (if kind == TokenType.True then "true"
       else if kind == TokenType.False then "false"
       else "nil")
  {
  }
}
