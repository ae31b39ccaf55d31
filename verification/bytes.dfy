/** Bytes of the input buffer and the named byte values the lexer and the atom
    grammar compare against. All of them are ASCII. */
module Bytes {

  newtype byte = x: int | 0 <= x < 256

  const TAB: byte := 9
  const NEWLINE: byte := 10
  const RETURN: byte := 13
  const SPACE: byte := 32
  const BANG: byte := 33          // !
  const QUOTE: byte := 34         // "
  const HASH: byte := 35          // #
  const DOLLAR: byte := 36        // $
  const PERCENT: byte := 37       // %
  const AMPERSAND: byte := 38     // &
  const LPAREN: byte := 40        // (
  const RPAREN: byte := 41        // )
  const STAR: byte := 42          // *
  const PLUS: byte := 43          // +
  const COMMA: byte := 44         // ,
  const MINUS: byte := 45         // -
  const DOT: byte := 46           // .
  const SLASH: byte := 47         // /
  const COLON: byte := 58         // :
  const SEMICOLON: byte := 59     // ;
  const EQUALS: byte := 61        // =
  const QUESTION: byte := 63      // ?
  const LBRACKET: byte := 91      // [
  const ESCAPE: byte := 92        // backslash, ESCAPE_CHAR in the implementation
  const RBRACKET: byte := 93      // ]
  const UNDERSCORE: byte := 95    // _
  const LBRACE: byte := 123       // {
  const RBRACE: byte := 125       // }

  /** The discard marker `#_`. */
  const DISCARD: seq<byte> := [HASH, UNDERSCORE]
  /** `nil` */
  const NIL: seq<byte> := [110, 105, 108]
  /** `true` */
  const TRUE: seq<byte> := [116, 114, 117, 101]
  /** `false` */
  const FALSE: seq<byte> := [102, 97, 108, 115, 101]

  predicate IsAscii(b: byte) {
    b < 128
  }

  predicate IsLetter(b: byte) {
    (97 <= b <= 122) || (65 <= b <= 90)
  }
}
