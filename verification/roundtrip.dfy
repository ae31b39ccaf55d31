/** Whole-text properties of `EdnRead` and `EdnWrite`: what small inputs
    read as, and what survives a write followed by a read. */
module RoundTrip {
  import opened Bytes
  import opened Results
  import opened Utf8
  import opened Lexemes
  import opened Types
  import opened Atoms
  import opened Lexer
  import opened Reader

  /** A single word is one Atom unit, classified by `HandleAtom`: `nil`,
      a keyword or a boolean, and Nil for every other word (numbers and
      symbols included). */
  lemma ReadWord(w: seq<byte>)
    requires |w| > 0 && forall i | 0 <= i < |w| :: PlainByte(w[i])
    ensures EdnRead(w) == HandleAtom(LexedNode(Atom, w))
    ensures EdnRead(w).Ok? && !EdnRead(w).value.Symbol?
    ensures w == NIL ==> EdnRead(w) == Ok(Nil)
    ensures EdnRead(w).value.Keyword? <==> IsKeywordText(w)
    ensures EdnRead(w).value.Bool? <==> ValidBool(w)
    ensures w != NIL && !IsKeywordText(w) && !ValidBool(w) ==> EdnRead(w) == Ok(Nil)
  {
    LexWord(w);
    assert w[0..|w|] == w;
    assert Borrow(w, [Span(Atom, 0, |w|)]) == [LexedNode(Atom, w)];
  }

  /** The three literals the writer knows are written back as read. */
  lemma LiteralRoundTrip(s: seq<byte>)
    requires s == NIL || s == TRUE || s == FALSE
    ensures EdnRead(s).Ok? && EdnWrite(EdnRead(s).value) == Ok(s)
  {
    assert forall i | 0 <= i < |s| :: PlainByte(s[i]) && IsAscii(s[i]);
    ReadWord(s);
    AsciiIsValidUtf8(s);
  }

  /** A text survives a read followed by a write exactly when it is one of
      those three: every other text fails to read or to write, or is written
      differently. A String is read from the bytes before a closing quote, so
      it is shorter than the text; a Bool the reader builds is `true` or
      `false`. */
  lemma TextRoundTrip(t: seq<byte>)
    ensures EdnRead(t).Ok? && EdnWrite(EdnRead(t).value) == Ok(t)
        <==> t == NIL || t == TRUE || t == FALSE
  {
    ReadStringBeforeQuote(t);
    if t == NIL || t == TRUE || t == FALSE {
      LiteralRoundTrip(t);
    }
  }

  /** A String read from a text is the content of its first unit, which the
      lexer closes on a quote of the text: so the text holds a quote and is
      longer than the String. */
  lemma ReadStringBeforeQuote(t: seq<byte>)
    ensures EdnRead(t).Ok? && EdnRead(t).value.String? ==>
      QUOTE in t && |EdnRead(t).value.text| < |t|
  {
    if EdnRead(t).Ok? && EdnRead(t).value.String? {
      LexWellFormed(t);
      var spans := Lex(t).value;
      var units := Borrow(t, spans);
      assert |units| > 0;
      var first := units[0];
      assert LeadingLexeme(ReadAhead(first, units[1..]).0.value) == first.lexeme == Lexeme.String;
      assert ReadAhead(first, units[1..]).0 == Ok(Node.String(first.value));
      assert SpanOk(t, spans[0]);
      assert t[spans[0].end] == QUOTE;
    }
  }

  /** The writable nodes a reader can also build are read back from what
      the writer gives. */
  lemma ReadAfterWrite(n: Node)
    requires n.Nil? || (n.Bool? && ValidBool(n.text))
    ensures EdnWrite(n).Ok? && EdnRead(EdnWrite(n).value) == Ok(n)
  {
    if n.Nil? {
      NilReadAfterWrite();
    } else {
      BoolReadAfterWrite(n.text);
    }
  }

  /** Among the nodes a reader builds, exactly Nil and the two booleans are
      read back from what the writer gives: every other node fails to write
      or, for a String, is written without its quotes and no longer reads
      as a String. */
  lemma NodeRoundTrip(n: Node)
    requires Readable(n)
    ensures EdnWrite(n).Ok? && EdnRead(EdnWrite(n).value) == Ok(n)
        <==> n.Nil? || (n.Bool? && ValidBool(n.text))
  {
    if n.Nil? || (n.Bool? && ValidBool(n.text)) {
      ReadAfterWrite(n);
    } else if n.String? {
      ReadStringBeforeQuote(n.text);
    }
  }

  lemma NilReadAfterWrite()
    ensures EdnWrite(Nil) == Ok(NIL) && EdnRead(NIL) == Ok(Nil)
  {
    assert forall i | 0 <= i < |NIL| :: PlainByte(NIL[i]);
    ReadWord(NIL);
  }

  lemma BoolReadAfterWrite(s: seq<byte>)
    requires ValidBool(s)
    ensures EdnWrite(Bool(s)) == Ok(s) && EdnRead(s) == Ok(Bool(s))
  {
    assert forall i | 0 <= i < |s| :: PlainByte(s[i]) && IsAscii(s[i]);
    AsciiIsValidUtf8(s);
    ReadWord(s);
  }

  /** A quoted text without inner quotes reads as a String of the bytes
      between the quotes; the writer gives those bytes back without the
      quotes, so a read after the write no longer sees a String. */
  lemma QuotedString(body: seq<byte>)
    requires QUOTE !in body
    ensures EdnRead([QUOTE] + body + [QUOTE]) == Ok(Node.String(body))
    ensures ValidUtf8(body) ==> EdnWrite(Node.String(body)) == Ok(body)
    ensures !(EdnRead(body).Ok? && EdnRead(body).value.String?)
  {
    ReadStringBeforeQuote(body);
    var s := [QUOTE] + body + [QUOTE];
    LexQuoted(body);
    assert s[1..|body| + 1] == body;
    assert Borrow(s, [Span(Lexeme.String, 1, |body| + 1)]) == [LexedNode(Lexeme.String, body)];
  }

  /** A word right before an opening quote is lost. */
  lemma QuoteDropsPendingWord(w: seq<byte>, body: seq<byte>)
    requires |w| > 0 && forall i | 0 <= i < |w| :: PlainByte(w[i])
    requires QUOTE !in body
    ensures EdnRead(w + [QUOTE] + body + [QUOTE]) == Ok(Node.String(body))
  {
    var s := w + [QUOTE] + body + [QUOTE];
    LexWordThenQuoted(w, body);
    assert s[|w| + 1..|w| + |body| + 1] == body;
    assert Borrow(s, [Span(Lexeme.String, |w| + 1, |w| + |body| + 1)])
        == [LexedNode(Lexeme.String, body)];
  }

  /** A comment is read as a value: its text is the first Atom, and such a
      word is none of `nil`, a keyword or a boolean, so it reads as Nil. */
  lemma CommentReadsAsNil(c: seq<byte>, w: seq<byte>)
    requires forall i | 0 <= i < |c| :: PlainByte(c[i])
    requires forall i | 0 <= i < |w| :: PlainByte(w[i])
    ensures EdnRead([SEMICOLON] + c + [NEWLINE] + w) == Ok(Nil)
  {
    var s := [SEMICOLON] + c + [NEWLINE] + w;
    var n := |c| + 1;
    LexComment(c, w);
    var text := [SEMICOLON] + c;
    assert s[0..n] == text;
    var units := Borrow(s, [Span(Atom, 0, n), Span(Atom, n, |s|)]);
    assert units[0] == LexedNode(Atom, text);
    assert text[0] == SEMICOLON && text != NIL && !ValidBool(text);
    assert HandleAtom(LexedNode(Atom, text)) == Ok(Nil);
  }

  /** A quote that is never closed: its content is read as a word. */
  lemma UnterminatedString(body: seq<byte>)
    requires |body| > 0 && QUOTE !in body
    ensures EdnRead([QUOTE] + body) == HandleAtom(LexedNode(Atom, body))
  {
    var s := [QUOTE] + body;
    LexUnterminated(body);
    assert s[1..|body| + 1] == body;
    assert Borrow(s, [Span(Atom, 1, |body| + 1)]) == [LexedNode(Atom, body)];
  }

  /** Input of separators only has nothing to read. */
  lemma BlankInput(s: seq<byte>)
    requires forall i | 0 <= i < |s| :: IsWhitespace(s[i])
    ensures EdnRead(s) == Err(NO_TOKENS)
  {
    LexBlank(s);
  }

  /** A word between two bracket bytes of one family is a collection of
      that family holding the word's node; braces give a Map with no
      children. */
  lemma ReadBracketed(open: byte, w: seq<byte>, close: byte, l: Lexeme)
    requires GetParenLexeme(open) == Some(l) && GetParenLexeme(close) == Some(l)
    requires |w| > 0 && forall i | 0 <= i < |w| :: PlainByte(w[i])
    ensures EdnRead([open] + w + [close]).Ok?
    ensures l == ListParen ==> EdnRead([open] + w + [close]) == Ok(List([HandleAtom(LexedNode(Atom, w)).value]))
    ensures l == VecParen ==> EdnRead([open] + w + [close]) == Ok(Vector([HandleAtom(LexedNode(Atom, w)).value]))
    ensures l == MapParen ==> EdnRead([open] + w + [close]) == Ok(Map)
  {
    var s := [open] + w + [close];
    LexBracketed(open, w, close, l);
    assert s[1..|w| + 1] == w && s[0..0] == [] && s[|w| + 1..|w| + 1] == [];
    var bracket := LexedNode(l, []);
    var word := LexedNode(Atom, w);
    var units := Borrow(s, [Span(l, 0, 0), Span(Atom, 1, |w| + 1), Span(l, |w| + 1, |w| + 1)]);
    assert units == [bracket, word, bracket];
    var child := HandleAtom(word).value;
    assert ReadAhead(word, [bracket]) == (Ok(child), [bracket]);
    assert ReadCollection(bracket, [child], [bracket]) == (HandleCollection(bracket, [child]), []);
    assert [word, bracket][1..] == [bracket];
    ReadCollectionStep(bracket, [], child, [word, bracket], [bracket]);
    assert units[0] == bracket && units[1..] == [word, bracket];
    assert [] + [child] == [child];
    assert ReadAhead(bracket, [word, bracket]) == ReadCollection(bracket, [], [word, bracket]);
    assert ReadTokens(units) == HandleCollection(bracket, [child]);
  }

  /** An opening byte closes a collection as well as a closing one does. */
  lemma BracketsIndistinguishable(w: seq<byte>)
    requires |w| > 0 && forall i | 0 <= i < |w| :: PlainByte(w[i])
    ensures EdnRead([LPAREN] + w + [LPAREN]) == EdnRead([LPAREN] + w + [RPAREN])
    ensures EdnRead([RBRACKET] + w + [LBRACKET]) == EdnRead([LBRACKET] + w + [RBRACKET])
  {
    ReadBracketed(LPAREN, w, LPAREN, ListParen);
    ReadBracketed(LPAREN, w, RPAREN, ListParen);
    ReadBracketed(RBRACKET, w, LBRACKET, VecParen);
    ReadBracketed(LBRACKET, w, RBRACKET, VecParen);
  }

  /** A bracket with no unit of its family after it ends in an EOF error. */
  lemma UnclosedBracket(open: byte, w: seq<byte>, l: Lexeme)
    requires GetParenLexeme(open) == Some(l)
    requires |w| > 0 && forall i | 0 <= i < |w| :: PlainByte(w[i])
    ensures EdnRead([open] + w) == Err(UNEXPECTED_EOF)
  {
    var s := [open] + w;
    LexOpenWord(open, w, l);
    assert s[1..|w| + 1] == w;
    var bracket := LexedNode(l, []);
    var units := Borrow(s, [Span(l, 0, 0), Span(Atom, 1, |w| + 1)]);
    assert units == [bracket, LexedNode(Atom, w)];
    UnclosedCollection(bracket, [], units[1..]);
  }
}
