/** Lexical units and the single-byte classifiers of the lexer. */
module Lexemes {
  import opened Bytes
  import opened Results

  /** Kinds of lexical unit. An opening and a closing bracket of one family
      share a kind. */
  datatype Lexeme = String | Atom | VecParen | MapParen | ListParen

  /** A lexical unit together with the bytes of the input it covers. */
  datatype LexedNode = LexedNode(lexeme: Lexeme, value: seq<byte>)

  predicate IsBracket(l: Lexeme) {
    l.ListParen? || l.VecParen? || l.MapParen?
  }

  /** The closing byte of a bracket family; None for atoms and strings. */
  function GetMatchingParen(l: Lexeme): (r: Option<byte>)
    ensures r.Some? <==> IsBracket(l)
    ensures r.Some? ==> IsParen(r.value) && GetParenLexeme(r.value) == Some(l)
    ensures r.Some? ==> r.value == RPAREN || r.value == RBRACE || r.value == RBRACKET
  {
    match l
    case ListParen => Some(RPAREN)
    case MapParen => Some(RBRACE)
    case VecParen => Some(RBRACKET)
    case _ => None
  }

  /** The bracket family of a byte, open and close alike. */
  function GetParenLexeme(c: byte): (r: Option<Lexeme>)
    ensures r.Some? <==> IsParen(c)
    ensures r.Some? ==> IsBracket(r.value)
    ensures r == Some(ListParen) <==> c == LPAREN || c == RPAREN
    ensures r == Some(VecParen) <==> c == LBRACKET || c == RBRACKET
    ensures r == Some(MapParen) <==> c == LBRACE || c == RBRACE
  {
    if c == LPAREN || c == RPAREN then Some(ListParen)
    else if c == LBRACE || c == RBRACE then Some(MapParen)
    else if c == LBRACKET || c == RBRACKET then Some(VecParen)
    else None
  }

  /** ASCII decimal digits, the byte range 48 to 57. */
  predicate IsDigit(c: byte) {
    48 <= c <= 57
  }

  predicate IsParen(c: byte) {
    c in {LPAREN, RPAREN, LBRACKET, RBRACKET, LBRACE, RBRACE}
  }

  /** Separators: tab, newline, carriage return, space and comma. */
  predicate IsWhitespace(c: byte) {
    c in {TAB, NEWLINE, RETURN, SPACE, COMMA}
  }

  /** The lexer's byte classes: ten digits, six bracket bytes and five
      separators, and no byte in two of them. */
  lemma ByteClasses()
    ensures |set c: byte | IsDigit(c)| == 10
    ensures |set c: byte | IsParen(c)| == 6
    ensures |set c: byte | IsWhitespace(c)| == 5
    ensures forall c: byte :: !(IsDigit(c) && IsParen(c)) && !(IsDigit(c) && IsWhitespace(c))
                             && !(IsParen(c) && IsWhitespace(c))
  {
    DigitCount();
    ParenCount();
    WhitespaceCount();
  }

  lemma DigitCount()
    ensures |set c: byte | IsDigit(c)| == 10
  {
    var low := {48, 49, 50, 51, 52};
    var high := {53, 54, 55, 56, 57};
    assert (set c: byte | IsDigit(c)) == low + high;
    assert low !! high;
  }

  lemma ParenCount()
    ensures |set c: byte | IsParen(c)| == 6
  {
    assert (set c: byte | IsParen(c)) == {LPAREN, RPAREN, LBRACKET, RBRACKET, LBRACE, RBRACE};
  }

  lemma WhitespaceCount()
    ensures |set c: byte | IsWhitespace(c)| == 5
  {
    assert (set c: byte | IsWhitespace(c)) == {TAB, NEWLINE, RETURN, SPACE, COMMA};
  }
}
