/** The token vocabulary shared by the lexer and the parser (src/tokens.rs). */
module Tokens {

  const I64_MIN: int := -0x8000_0000_0000_0000
  const I64_MAX: int := 0x7FFF_FFFF_FFFF_FFFF

  /** Rust's `i64`. */
  type I64 = x: int | InI64(x)

  predicate InI64(x: int) {
    I64_MIN <= x <= I64_MAX
  }

  /** The decimal text of a floating-point literal, as the lexer collected it.
      Its `f64` value is not modelled: the text stands for it. */
  datatype FloatLit = FloatLit(text: string)

  datatype Token =
    // one-character tokens
    | LeftParen | RightParen | Plus | Minus | Times | Divide | Dot | SemiColon | Quote
    | Or | And | Xor | Bang | Equal | DoubleEqual | BangEqual
    | Greater | Less | GreaterEqual | LessEqual
    | Comma | LeftBrace | RightBrace | Colon
    // invisible tokens
    | WhiteSpace | NewLine | Eof
    // literals
    | Integer(i: I64)
    | Float(f: FloatLit)
    | Bool(b: bool)
    | String(s: string)
    | Identifier(name: string)
    // keywords
    | Print | If | Else | Let | While
    // an unrecognised character, with its position in the input and its line
    | Illegal(ch: char, pos: nat, line: nat)
}
