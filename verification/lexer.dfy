/** The lexer: one left-to-right pass over the input that cuts it into
    spans. `Step` is the body of the scanning loop as a pure state
    transition, `Run` iterates it to the end of the input and `Lex` flushes
    the last pending span; `LexLoop` is the same loop written imperatively,
    proved equal to `Lex`. */
module Lexer {
  import opened Bytes
  import opened Results
  import opened Lexemes

  /** Returned when a bracket byte has no bracket family; the contract of
      `Step` shows it cannot happen. */
  const MALFORMED: string := "WTF?"

  /** A lexical unit as the lexer emits it: a kind and the half-open byte
      range `start..end` of the input it covers. */
  datatype Span = Span(lexeme: Lexeme, start: nat, end: nat)

  /** The loop state: the units emitted so far, the start `token` of the
      pending span, the current byte `pos` and the three mode flags. */
  datatype LexState = LexState(
    tokens: seq<Span>,
    token: nat,
    pos: nat,
    inString: bool,
    inComment: bool,
    escaping: bool)

  function Start(): LexState {
    LexState([], 0, 0, false, false, false)
  }

  /** Emits the pending span `token..pos` as an Atom when it is not empty:
      a pending span is never lost, and an empty Atom is never emitted. */
  function Flush(tokens: seq<Span>, token: nat, pos: nat): (r: seq<Span>)
    requires token <= pos
    ensures tokens <= r && |r| == |tokens| + (if token < pos then 1 else 0)
    ensures forall i | |tokens| <= i < |r| :: r[i] == Span(Atom, token, pos) && token < pos
  {
    if token != pos then tokens + [Span(Atom, token, pos)] else tokens
  }

  /** The comment flag once the byte at `pos` is seen: an unescaped
      semicolon outside a string opens a comment. The comment's bytes are
      still lexed as usual; only a newline ends it. */
  function CommentAt(s: seq<byte>, st: LexState): bool
    requires st.pos < |s|
  {
    st.inComment || (!st.inString && s[st.pos] == SEMICOLON && !st.escaping)
  }

  /** One iteration of the scanning loop, on the byte at `pos`. */
  function Step(s: seq<byte>, st: LexState): (r: Result<LexState>)
    requires st.token <= st.pos < |s|
    ensures r.Ok?
    ensures r.value.pos == st.pos + 1 && r.value.token <= r.value.pos
    ensures st.tokens <= r.value.tokens && |r.value.tokens| <= |st.tokens| + 2
  {
    var c := s[st.pos];
    var inComment := CommentAt(s, st);
    if inComment && c == NEWLINE then
      // The comment ends; the newline stays at the start of the next span.
      Ok(LexState(Flush(st.tokens, st.token, st.pos), st.pos, st.pos + 1,
                  st.inString, false, st.escaping))
    else if c == QUOTE && !st.escaping then
      // Opening a string drops the pending span; closing it emits the bytes
      // since the pending start.
      var tokens := if st.inString then st.tokens + [Span(Lexeme.String, st.token, st.pos)]
                    else st.tokens;
      Ok(LexState(tokens, st.pos + 1, st.pos + 1, !st.inString, inComment, st.escaping))
    else if st.inString then
      Ok(st.(pos := st.pos + 1, inComment := inComment))
    else if IsParen(c) || IsWhitespace(c) then
      var flushed := Flush(st.tokens, st.token, st.pos);
      if IsParen(c) then
        match GetParenLexeme(c)
        case Some(l) =>
          Ok(LexState(flushed + [Span(l, st.pos, st.pos)], st.pos + 1, st.pos + 1,
                      false, inComment, st.escaping))
        case None => Err(MALFORMED)
      else
        Ok(LexState(flushed, st.pos + 1, st.pos + 1, false, inComment, st.escaping))
    else
      var escaping := if st.escaping then false else c == ESCAPE;
      var pending := s[st.token..st.pos];
      if (|pending| > 0 && pending == DISCARD) || (|pending| == 2 && pending[0] == ESCAPE) then
        // A pending `#_`, or an escape byte and one more, is its own Atom.
        Ok(LexState(st.tokens + [Span(Atom, st.token, st.pos)], st.pos, st.pos + 1,
                    false, inComment, escaping))
      else
        Ok(st.(pos := st.pos + 1, inComment := inComment, escaping := escaping))
  }

  /** Runs the loop from `st` to the end of the input. */
  function Run(s: seq<byte>, st: LexState): (r: Result<LexState>)
    requires st.token <= st.pos <= |s|
    ensures r.Ok?
    ensures r.value.pos == |s| && r.value.token <= r.value.pos
    ensures st.tokens <= r.value.tokens
    decreases |s| - st.pos
  {
    if st.pos == |s| then Ok(st)
    else
      match Step(s, st)
      case Err(e) => Err(e)
      case Ok(next) => Run(s, next)
  }

  /** The lexer: the loop, then a flush of the span still pending at the
      end of the input (an unterminated string's content included). It
      never fails, and every unit is an in-bounds slice of the input. */
  function Lex(s: seq<byte>): (r: Result<seq<Span>>)
    ensures r.Ok?
    ensures forall i | 0 <= i < |r.value| :: r.value[i].start <= r.value[i].end <= |s|
  {
    RunPreservesInv(s, Start());
    var st := Run(s, Start()).value;
    FlushWellFormed(s, st);
    Ok(Flush(st.tokens, st.token, st.pos))
  }

  /** The scanning loop as the implementation writes it, with mutable
      cursors and flags. */
  method LexLoop(s: seq<byte>) returns (r: Result<seq<Span>>)
    ensures r == Lex(s)
    ensures r.Ok?
  {
    var tokens: seq<Span> := [];
    var escaping := false;
    var inString := false;
    var inComment := false;
    var token: nat := 0;
    var pos: nat := 0;
    while pos < |s|
      invariant token <= pos <= |s|
      invariant Run(s, LexState(tokens, token, pos, inString, inComment, escaping))
                == Run(s, Start())
    {
      ghost var before := LexState(tokens, token, pos, inString, inComment, escaping);
      var c := s[pos];
      if !inString && c == SEMICOLON && !escaping {
        inComment := true;
      }
      if inComment {
        if c == NEWLINE {
          inComment := false;
          if token != pos {
            tokens := tokens + [Span(Atom, token, pos)];
            token := pos;
          }
          pos := pos + 1;
          assert Step(s, before) == Ok(LexState(tokens, token, pos, inString, inComment, escaping));
          continue;
        }
      }
      if c == QUOTE && !escaping {
        if inString {
          tokens := tokens + [Span(Lexeme.String, token, pos)];
          inString := false;
        } else {
          inString := true;
        }
        pos := pos + 1;
        token := pos;
        assert Step(s, before) == Ok(LexState(tokens, token, pos, inString, inComment, escaping));
        continue;
      }
      if inString {
      } else if IsParen(c) || IsWhitespace(c) {
        if token != pos {
          tokens := tokens + [Span(Atom, token, pos)];
          token := pos;
        }
        if IsParen(c) {
          match GetParenLexeme(c) {
            case Some(l) =>
              tokens := tokens + [Span(l, token, pos)];
            case None =>
              return Err(MALFORMED);
          }
        }
        token := token + 1;
      } else {
        if escaping {
          escaping := false;
        } else if c == ESCAPE {
          escaping := true;
        }
        var diff := pos - token;
        if (diff > 0 && s[token..pos] == DISCARD) || (diff == 2 && s[token] == ESCAPE) {
          tokens := tokens + [Span(Atom, token, pos)];
          token := pos;
        }
      }
      pos := pos + 1;
      assert Step(s, before) == Ok(LexState(tokens, token, pos, inString, inComment, escaping));
    }
    if token != pos {
      tokens := tokens + [Span(Atom, token, pos)];
    }
    return Ok(tokens);
  }

  // ---------------------------------------------------------------------
  // What the emitted spans look like

  /** A String span ends right before its closing quote, holds no quote, and
      starts right after its opening quote, unless a comment-ending newline
      inside the string restarted it: then it starts at that newline, and a
      semicolon occurs earlier in the input. */
  ghost predicate StringOpened(s: seq<byte>, start: nat, limit: nat)
    requires start <= limit <= |s|
  {
    1 <= start
    && (s[start - 1] == QUOTE
        || (start < limit && s[start] == NEWLINE && SEMICOLON in s[..start]))
  }

  /** The shape of one emitted span, by kind: in bounds; an Atom is never
      empty; a bracket span is empty and sits on a byte of its family; a
      String span is closed by a quote and holds none. */
  ghost predicate SpanOk(s: seq<byte>, sp: Span) {
    && sp.start <= sp.end <= |s|
    && (sp.lexeme.Atom? ==> sp.start < sp.end)
    && (IsBracket(sp.lexeme) ==>
          sp.start == sp.end < |s| && GetParenLexeme(s[sp.start]) == Some(sp.lexeme))
    && (sp.lexeme.String? ==>
          && sp.end < |s| && s[sp.end] == QUOTE
          && QUOTE !in s[sp.start..sp.end]
          && StringOpened(s, sp.start, sp.end))
  }

  /** Every span has its shape and each starts at or after the end of every
      earlier one. */
  ghost predicate WellFormedSpans(s: seq<byte>, spans: seq<Span>) {
    && (forall i | 0 <= i < |spans| :: SpanOk(s, spans[i]))
    && (forall i, j | 0 <= i < j < |spans| :: spans[i].end <= spans[j].start)
  }

  /** The loop invariant of the scan. */
  ghost predicate Inv(s: seq<byte>, st: LexState) {
    && st.token <= st.pos <= |s|
    && WellFormedSpans(s, st.tokens)
    && (|st.tokens| > 0 ==> st.tokens[|st.tokens| - 1].end <= st.token)
    // Inside a string `escaping` is never set, so every quote there closes it.
    && (st.inString ==> !st.escaping)
    && (st.inString ==> QUOTE !in s[st.token..st.pos] && StringOpened(s, st.token, st.pos))
    && (st.inComment ==> SEMICOLON in s[..st.pos])
  }

  lemma AppendWellFormed(s: seq<byte>, spans: seq<Span>, sp: Span)
    requires WellFormedSpans(s, spans) && SpanOk(s, sp)
    requires |spans| > 0 ==> spans[|spans| - 1].end <= sp.start
    ensures WellFormedSpans(s, spans + [sp])
  {
    var r := spans + [sp];
    forall i, j | 0 <= i < j < |r|
      ensures r[i].end <= r[j].start
    {
      if j == |spans| && i < |spans| - 1 {
        assert spans[i].end <= spans[|spans| - 1].start <= spans[|spans| - 1].end;
      }
    }
  }

  lemma CommentAtKeepsSemicolon(s: seq<byte>, st: LexState)
    requires Inv(s, st) && st.pos < |s|
    ensures CommentAt(s, st) ==> SEMICOLON in s[..st.pos + 1]
  {
    assert s[..st.pos + 1] == s[..st.pos] + [s[st.pos]];
  }

  lemma FlushWellFormed(s: seq<byte>, st: LexState)
    requires Inv(s, st)
    ensures WellFormedSpans(s, Flush(st.tokens, st.token, st.pos))
  {
    if st.token != st.pos {
      AppendWellFormed(s, st.tokens, Span(Atom, st.token, st.pos));
    }
  }

  lemma StepCommentEnd(s: seq<byte>, st: LexState)
    requires Inv(s, st) && st.pos < |s|
    requires CommentAt(s, st) && s[st.pos] == NEWLINE
    ensures Inv(s, Step(s, st).value)
  {
    FlushWellFormed(s, st);
    if st.inString {
      assert s[st.pos..st.pos + 1] == [NEWLINE];
    }
  }

  lemma StepQuote(s: seq<byte>, st: LexState)
    requires Inv(s, st) && st.pos < |s|
    requires !(CommentAt(s, st) && s[st.pos] == NEWLINE)
    requires s[st.pos] == QUOTE && !st.escaping
    ensures Inv(s, Step(s, st).value)
  {
    CommentAtKeepsSemicolon(s, st);
    if st.inString {
      AppendWellFormed(s, st.tokens, Span(Lexeme.String, st.token, st.pos));
    }
  }

  lemma StepInString(s: seq<byte>, st: LexState)
    requires Inv(s, st) && st.pos < |s|
    requires !(CommentAt(s, st) && s[st.pos] == NEWLINE)
    requires !(s[st.pos] == QUOTE && !st.escaping)
    requires st.inString
    ensures Inv(s, Step(s, st).value)
  {
    CommentAtKeepsSemicolon(s, st);
    assert s[st.token..st.pos + 1] == s[st.token..st.pos] + [s[st.pos]];
  }

  lemma StepSeparator(s: seq<byte>, st: LexState)
    requires Inv(s, st) && st.pos < |s|
    requires !(CommentAt(s, st) && s[st.pos] == NEWLINE)
    requires !(s[st.pos] == QUOTE && !st.escaping)
    requires !st.inString && (IsParen(s[st.pos]) || IsWhitespace(s[st.pos]))
    ensures Inv(s, Step(s, st).value)
  {
    CommentAtKeepsSemicolon(s, st);
    FlushWellFormed(s, st);
    if IsParen(s[st.pos]) {
      StepParen(s, st);
    }
  }

  lemma StepParen(s: seq<byte>, st: LexState)
    requires Inv(s, st) && st.pos < |s|
    requires !st.inString && IsParen(s[st.pos])
    ensures var l := GetParenLexeme(s[st.pos]).value;
      WellFormedSpans(s, Flush(st.tokens, st.token, st.pos) + [Span(l, st.pos, st.pos)])
  {
    FlushWellFormed(s, st);
    var l := GetParenLexeme(s[st.pos]).value;
    AppendWellFormed(s, Flush(st.tokens, st.token, st.pos), Span(l, st.pos, st.pos));
  }

  lemma StepAtomByte(s: seq<byte>, st: LexState)
    requires Inv(s, st) && st.pos < |s|
    requires !(CommentAt(s, st) && s[st.pos] == NEWLINE)
    requires !(s[st.pos] == QUOTE && !st.escaping)
    requires !st.inString && !IsParen(s[st.pos]) && !IsWhitespace(s[st.pos])
    ensures Inv(s, Step(s, st).value)
  {
    CommentAtKeepsSemicolon(s, st);
    var pending := s[st.token..st.pos];
    if (|pending| > 0 && pending == DISCARD) || (|pending| == 2 && pending[0] == ESCAPE) {
      AppendWellFormed(s, st.tokens, Span(Atom, st.token, st.pos));
    }
  }

  /** One step of the scan keeps the invariant. */
  lemma StepPreservesInv(s: seq<byte>, st: LexState)
    requires Inv(s, st) && st.pos < |s|
    ensures Inv(s, Step(s, st).value)
  {
    var c := s[st.pos];
    if CommentAt(s, st) && c == NEWLINE {
      StepCommentEnd(s, st);
    } else if c == QUOTE && !st.escaping {
      StepQuote(s, st);
    } else if st.inString {
      StepInString(s, st);
    } else if IsParen(c) || IsWhitespace(c) {
      StepSeparator(s, st);
    } else {
      StepAtomByte(s, st);
    }
  }

  /** The whole scan keeps the invariant. */
  lemma {:induction false} RunPreservesInv(s: seq<byte>, st: LexState)
    requires Inv(s, st)
    ensures Inv(s, Run(s, st).value)
    decreases |s| - st.pos
  {
    if st.pos < |s| {
      StepPreservesInv(s, st);
      RunPreservesInv(s, Step(s, st).value);
    }
  }

  /** Lexing always succeeds, and every emitted span is an in-bounds slice
      of the input of the shape `SpanOk` describes, each starting at or after
      the previous one's end. */
  lemma LexWellFormed(s: seq<byte>)
    ensures Lex(s).Ok?
    ensures WellFormedSpans(s, Lex(s).value)
  {
    RunPreservesInv(s, Start());
    var st := Run(s, Start()).value;
    if st.token != st.pos {
      AppendWellFormed(s, st.tokens, Span(Atom, st.token, st.pos));
    }
  }

  /** For input without a semicolon, a String span is exactly the bytes
      strictly between an opening and a closing quote. */
  lemma LexStringsBetweenQuotes(s: seq<byte>, i: nat)
    requires SEMICOLON !in s
    requires i < |Lex(s).value| && Lex(s).value[i].lexeme.String?
    ensures var sp := Lex(s).value[i];
      && 1 <= sp.start <= sp.end < |s|
      && s[sp.start - 1] == QUOTE && s[sp.end] == QUOTE
      && QUOTE !in s[sp.start..sp.end]
  {
    LexWellFormed(s);
    var sp := Lex(s).value[i];
    assert SpanOk(s, sp);
  }

  /** A separator byte outside a string emits no unit of its own: at most
      the pending Atom before it is flushed, and that Atom ends before the
      separator. */
  lemma SeparatorEmitsNoOwnToken(s: seq<byte>, st: LexState)
    requires Inv(s, st) && st.pos < |s|
    requires !st.inString && IsWhitespace(s[st.pos])
    ensures var next := Step(s, st).value;
      && |next.tokens| <= |st.tokens| + 1
      && (forall k | |st.tokens| <= k < |next.tokens| ::
            next.tokens[k] == Span(Atom, st.token, st.pos))
  {
  }

  // ---------------------------------------------------------------------
  // Whole-input shapes

  /** A byte that neither separates, quotes, opens a comment, escapes nor
      starts the discard marker. */
  predicate PlainByte(b: byte) {
    !IsParen(b) && !IsWhitespace(b) && b != QUOTE && b != SEMICOLON && b != ESCAPE && b != HASH
  }

  /** Plain bytes only extend the pending span, in or out of a comment, as
      long as the span does not start with `#` or an escape byte. */
  lemma {:induction false} RunPlain(s: seq<byte>, st: LexState, k: nat)
    requires st.token <= st.pos <= k <= |s|
    requires !st.inString && !st.escaping
    requires forall i | st.pos <= i < k :: PlainByte(s[i])
    requires forall i | st.token <= i < st.pos :: s[i] != HASH && s[i] != ESCAPE
    ensures Run(s, st) == Run(s, st.(pos := k))
    decreases k - st.pos
  {
    if st.pos < k {
      var pending := s[st.token..st.pos];
      assert |pending| > 0 ==> pending[0] == s[st.token];
      assert Step(s, st) == Ok(st.(pos := st.pos + 1));
      RunPlain(s, st.(pos := st.pos + 1), k);
    }
  }

  /** A non-empty run of plain bytes is a single Atom. */
  lemma LexWord(w: seq<byte>)
    requires |w| > 0 && forall i | 0 <= i < |w| :: PlainByte(w[i])
    ensures Lex(w) == Ok([Span(Atom, 0, |w|)])
  {
    RunPlain(w, Start(), |w|);
    var fin := Start().(pos := |w|);
    assert Run(w, fin) == Ok(fin);
    assert Flush(fin.tokens, fin.token, fin.pos) == [Span(Atom, 0, |w|)];
  }

  /** Inside a string and outside a comment, every byte but a quote only
      advances the cursor: the pending span grows and nothing is emitted. */
  lemma {:induction false} RunInString(s: seq<byte>, st: LexState, k: nat)
    requires st.token <= st.pos <= k <= |s|
    requires st.inString && !st.inComment && !st.escaping
    requires forall i | st.pos <= i < k :: s[i] != QUOTE
    ensures Run(s, st) == Run(s, st.(pos := k))
    decreases k - st.pos
  {
    if st.pos < k {
      assert Step(s, st) == Ok(st.(pos := st.pos + 1));
      RunInString(s, st.(pos := st.pos + 1), k);
    }
  }

  /** A quoted body without quotes is a single String unit covering exactly
      the body. */
  lemma LexQuoted(body: seq<byte>)
    requires QUOTE !in body
    ensures Lex([QUOTE] + body + [QUOTE]) == Ok([Span(Lexeme.String, 1, |body| + 1)])
  {
    var s := [QUOTE] + body + [QUOTE];
    var inside := LexState([], 1, 1, true, false, false);
    assert Step(s, Start()) == Ok(inside);
    forall i | 1 <= i < |body| + 1
      ensures s[i] != QUOTE
    {
      assert s[i] == body[i - 1];
    }
    RunInString(s, inside, |body| + 1);
    var closing := inside.(pos := |body| + 1);
    assert s[|body| + 1] == QUOTE;
    assert !CommentAt(s, closing);
    assert closing.tokens + [Span(Lexeme.String, 1, |body| + 1)] == [Span(Lexeme.String, 1, |body| + 1)];
    assert Step(s, closing).value.tokens == [Span(Lexeme.String, 1, |body| + 1)];
    assert Step(s, closing).value.pos == |s|;
    assert Step(s, closing)
        == Ok(LexState([Span(Lexeme.String, 1, |body| + 1)], |s|, |s|, false, false, false));
  }

  /** An opening quote drops the word pending before it: only the string's
      body becomes a unit. */
  lemma LexWordThenQuoted(w: seq<byte>, body: seq<byte>)
    requires |w| > 0 && forall i | 0 <= i < |w| :: PlainByte(w[i])
    requires QUOTE !in body
    ensures Lex(w + [QUOTE] + body + [QUOTE])
         == Ok([Span(Lexeme.String, |w| + 1, |w| + |body| + 1)])
  {
    var s := w + [QUOTE] + body + [QUOTE];
    var n := |w|;
    RunPlain(s, Start(), n);
    var opening := Start().(pos := n);
    assert s[n] == QUOTE && !CommentAt(s, opening);
    var inside := LexState([], n + 1, n + 1, true, false, false);
    assert Step(s, opening) == Ok(inside);
    forall i | n + 1 <= i < n + |body| + 1
      ensures s[i] != QUOTE
    {
      assert s[i] == body[i - n - 1];
    }
    RunInString(s, inside, n + |body| + 1);
    var closing := inside.(pos := n + |body| + 1);
    assert s[n + |body| + 1] == QUOTE;
    assert !CommentAt(s, closing);
    var sp := Span(Lexeme.String, n + 1, n + |body| + 1);
    assert closing.tokens + [sp] == [sp];
    assert Step(s, closing).value.tokens == [sp];
    assert Step(s, closing) == Ok(LexState([sp], |s|, |s|, false, false, false));
  }

  /** The comment line of `LexComment`: once the newline is seen, the
      comment's text is one Atom and the newline starts the pending span. */
  lemma RunCommentLine(s: seq<byte>, n: nat)
    requires 0 < n < |s| && s[0] == SEMICOLON && s[n] == NEWLINE
    requires forall i | 1 <= i < n :: PlainByte(s[i])
    ensures Run(s, Start()) == Run(s, LexState([Span(Atom, 0, n)], n, n + 1, false, false, false))
  {
    assert CommentAt(s, Start());
    var first := Start().(pos := 1, inComment := true);
    assert Step(s, Start()) == Ok(first);
    RunPlain(s, first, n);
    var ending := first.(pos := n);
    assert CommentAt(s, ending);
    assert Flush(ending.tokens, ending.token, ending.pos) == [Span(Atom, 0, n)];
    assert Step(s, ending) == Ok(LexState([Span(Atom, 0, n)], n, n + 1, false, false, false));
  }

  /** A comment is not skipped: its text, semicolon included, is an Atom,
      and the newline that ends it starts the next Atom. */
  lemma LexComment(c: seq<byte>, w: seq<byte>)
    requires forall i | 0 <= i < |c| :: PlainByte(c[i])
    requires forall i | 0 <= i < |w| :: PlainByte(w[i])
    ensures Lex([SEMICOLON] + c + [NEWLINE] + w)
         == Ok([Span(Atom, 0, |c| + 1), Span(Atom, |c| + 1, |c| + |w| + 2)])
  {
    var s := [SEMICOLON] + c + [NEWLINE] + w;
    var n := |c| + 1;
    forall i | 1 <= i < n
      ensures PlainByte(s[i])
    {
      assert s[i] == c[i - 1];
    }
    assert s[0] == SEMICOLON && s[n] == NEWLINE;
    RunCommentLine(s, n);
    var after := LexState([Span(Atom, 0, n)], n, n + 1, false, false, false);
    forall i | n + 1 <= i < |s|
      ensures PlainByte(s[i])
    {
      assert s[i] == w[i - n - 1];
    }
    RunPlain(s, after, |s|);
    var fin := after.(pos := |s|);
    assert Run(s, fin) == Ok(fin);
    assert Flush(fin.tokens, fin.token, fin.pos) == [Span(Atom, 0, n), Span(Atom, n, |s|)];
  }

  /** The content of an unterminated string is flushed as an Atom at the
      end of the input. */
  lemma LexUnterminated(body: seq<byte>)
    requires |body| > 0 && QUOTE !in body
    ensures Lex([QUOTE] + body) == Ok([Span(Atom, 1, |body| + 1)])
  {
    var s := [QUOTE] + body;
    var inside := LexState([], 1, 1, true, false, false);
    assert Step(s, Start()) == Ok(inside);
    forall i | 1 <= i < |s|
      ensures s[i] != QUOTE
    {
      assert s[i] == body[i - 1];
    }
    RunInString(s, inside, |s|);
    var fin := inside.(pos := |s|);
    assert Run(s, fin) == Ok(fin);
    assert Run(s, Start()) == Run(s, inside);
    assert Flush(fin.tokens, fin.token, fin.pos) == [Span(Atom, 1, |body| + 1)];
  }

  /** A bracket byte, then a word: the bracket is a unit of its own, the
      word is an Atom. */
  lemma LexOpenWord(open: byte, w: seq<byte>, l: Lexeme)
    requires GetParenLexeme(open) == Some(l)
    requires |w| > 0 && forall i | 0 <= i < |w| :: PlainByte(w[i])
    ensures Lex([open] + w) == Ok([Span(l, 0, 0), Span(Atom, 1, |w| + 1)])
  {
    var s := [open] + w;
    var first := LexState([Span(l, 0, 0)], 1, 1, false, false, false);
    assert s[0] == open && IsParen(open) && !CommentAt(s, Start());
    assert Step(s, Start()).value.tokens == [Span(l, 0, 0)];
    assert Step(s, Start()) == Ok(first);
    RunPlain(s, first, |w| + 1);
    var fin := first.(pos := |w| + 1);
    assert Run(s, fin) == Ok(fin);
    assert Flush(fin.tokens, fin.token, fin.pos) == [Span(l, 0, 0), Span(Atom, 1, |w| + 1)];
  }

  /** A word between two bracket bytes of one family: three units, whether
      the second byte is the matching closer or not. */
  lemma LexBracketed(open: byte, w: seq<byte>, close: byte, l: Lexeme)
    requires GetParenLexeme(open) == Some(l) && GetParenLexeme(close) == Some(l)
    requires |w| > 0 && forall i | 0 <= i < |w| :: PlainByte(w[i])
    ensures Lex([open] + w + [close])
         == Ok([Span(l, 0, 0), Span(Atom, 1, |w| + 1), Span(l, |w| + 1, |w| + 1)])
  {
    var s := [open] + w + [close];
    var first := LexState([Span(l, 0, 0)], 1, 1, false, false, false);
    assert s[0] == open && IsParen(open) && IsParen(close);
    assert !CommentAt(s, Start());
    assert Flush([], 0, 0) == [];
    assert Step(s, Start()).value.tokens == [Span(l, 0, 0)];
    assert Step(s, Start()).value.inComment == false;
    assert Step(s, Start()) == Ok(first);
    RunPlain(s, first, |w| + 1);
    var last := first.(pos := |w| + 1);
    assert s[|w| + 1] == close && !CommentAt(s, last);
    assert Flush(last.tokens, last.token, last.pos) == [Span(l, 0, 0), Span(Atom, 1, |w| + 1)];
    var fin := LexState([Span(l, 0, 0), Span(Atom, 1, |w| + 1), Span(l, |w| + 1, |w| + 1)],
                        |w| + 2, |w| + 2, false, false, false);
    assert Step(s, last).value.tokens == fin.tokens;
    assert Step(s, last).value.inComment == false;
    assert Step(s, last) == Ok(fin);
    assert Run(s, fin) == Ok(fin);
  }

  /** The discard marker is not skipped: a pending `#_` is cut off as an
      Atom of its own as soon as the next ordinary byte arrives. */
  lemma LexDiscard(w: seq<byte>)
    requires |w| > 0 && forall i | 0 <= i < |w| :: PlainByte(w[i])
    ensures Lex(DISCARD + w) == Ok([Span(Atom, 0, 2), Span(Atom, 2, |w| + 2)])
  {
    var s := DISCARD + w;
    assert s[0] == HASH && s[1] == UNDERSCORE && s[2] == w[0];
    var second := Start().(pos := 1);
    assert Step(s, Start()) == Ok(second);
    var third := Start().(pos := 2);
    assert s[0..1] == [HASH];
    assert Step(s, second) == Ok(third);
    assert s[0..2] == DISCARD && PlainByte(s[2]) && !CommentAt(s, third);
    var cut := LexState([Span(Atom, 0, 2)], 2, 3, false, false, false);
    assert [] + [Span(Atom, 0, 2)] == [Span(Atom, 0, 2)];
    assert Step(s, third) == Ok(cut);
    assert Run(s, Start()) == Run(s, second) == Run(s, third) == Run(s, cut);
    forall i | 3 <= i < |s|
      ensures PlainByte(s[i])
    {
      assert s[i] == w[i - 2];
    }
    RunPlain(s, cut, |s|);
    var fin := cut.(pos := |s|);
    assert Run(s, fin) == Ok(fin);
    assert Flush(fin.tokens, fin.token, fin.pos) == [Span(Atom, 0, 2), Span(Atom, 2, |w| + 2)];
  }

  /** An escape byte keeps the quote after it from opening a string: the
      two bytes are cut off as an Atom, and no String unit appears. */
  lemma LexEscapedQuote(w: seq<byte>)
    requires |w| > 0 && forall i | 0 <= i < |w| :: PlainByte(w[i])
    ensures Lex([ESCAPE, QUOTE] + w) == Ok([Span(Atom, 0, 2), Span(Atom, 2, |w| + 2)])
  {
    var s := [ESCAPE, QUOTE] + w;
    assert s[0] == ESCAPE && s[1] == QUOTE && s[2] == w[0];
    var escaped := Start().(pos := 1, escaping := true);
    assert Step(s, Start()) == Ok(escaped);
    var quoted := Start().(pos := 2);
    assert s[0..1] == [ESCAPE];
    assert Step(s, escaped) == Ok(quoted);
    assert s[0..2] == [ESCAPE, QUOTE] && PlainByte(s[2]) && !CommentAt(s, quoted);
    var cut := LexState([Span(Atom, 0, 2)], 2, 3, false, false, false);
    assert [] + [Span(Atom, 0, 2)] == [Span(Atom, 0, 2)];
    assert Step(s, quoted) == Ok(cut);
    assert Run(s, Start()) == Run(s, escaped) == Run(s, quoted) == Run(s, cut);
    forall i | 3 <= i < |s|
      ensures PlainByte(s[i])
    {
      assert s[i] == w[i - 2];
    }
    RunPlain(s, cut, |s|);
    var fin := cut.(pos := |s|);
    assert Run(s, fin) == Ok(fin);
    assert Flush(fin.tokens, fin.token, fin.pos) == [Span(Atom, 0, 2), Span(Atom, 2, |w| + 2)];
  }

  /** An escape byte keeps the semicolon after it from opening a comment:
      the newline that follows is then a separator and joins no Atom,
      whereas after an unescaped semicolon it starts the next Atom
      (`LexComment`). */
  lemma LexEscapedSemicolon(w: seq<byte>)
    requires |w| > 0 && forall i | 0 <= i < |w| :: PlainByte(w[i])
    ensures Lex([ESCAPE, SEMICOLON, NEWLINE] + w) == Ok([Span(Atom, 0, 2), Span(Atom, 3, |w| + 3)])
  {
    var s := [ESCAPE, SEMICOLON, NEWLINE] + w;
    assert s[0] == ESCAPE && s[1] == SEMICOLON && s[2] == NEWLINE;
    var escaped := Start().(pos := 1, escaping := true);
    assert Step(s, Start()) == Ok(escaped);
    var semicolon := Start().(pos := 2);
    assert !CommentAt(s, escaped);
    assert Step(s, escaped) == Ok(semicolon);
    var cut := LexState([Span(Atom, 0, 2)], 3, 3, false, false, false);
    assert !CommentAt(s, semicolon) && IsWhitespace(s[2]);
    assert Flush([], 0, 2) == [Span(Atom, 0, 2)];
    assert Step(s, semicolon) == Ok(cut);
    assert Run(s, Start()) == Run(s, escaped) == Run(s, semicolon) == Run(s, cut);
    forall i | 3 <= i < |s|
      ensures PlainByte(s[i])
    {
      assert s[i] == w[i - 3];
    }
    RunPlain(s, cut, |s|);
    var fin := cut.(pos := |s|);
    assert Run(s, fin) == Ok(fin);
    assert Flush(fin.tokens, fin.token, fin.pos) == [Span(Atom, 0, 2), Span(Atom, 3, |w| + 3)];
  }

  /** The escape flag survives a separator: after an escape byte and a
      space the next quote does not open a string, the later quote opens
      one that is never closed, and everything after the escape byte is
      lost. */
  lemma LexEscapeAcrossSeparator(w: seq<byte>)
    requires forall i | 0 <= i < |w| :: PlainByte(w[i])
    ensures Lex([ESCAPE, SPACE, QUOTE] + w + [QUOTE]) == Ok([Span(Atom, 0, 1)])
  {
    var s := [ESCAPE, SPACE, QUOTE] + w + [QUOTE];
    var n := |w| + 3;
    assert s[0] == ESCAPE && s[1] == SPACE && s[2] == QUOTE && s[n] == QUOTE;
    var escaped := Start().(pos := 1, escaping := true);
    assert Step(s, Start()) == Ok(escaped);
    var spaced := LexState([Span(Atom, 0, 1)], 2, 2, false, false, true);
    assert Flush([], 0, 1) == [Span(Atom, 0, 1)];
    assert Step(s, escaped) == Ok(spaced);
    var quoted := spaced.(pos := 3, escaping := false);
    assert Step(s, spaced) == Ok(quoted);
    forall i | 3 <= i < n
      ensures PlainByte(s[i])
    {
      assert s[i] == w[i - 3];
    }
    RunPlain(s, quoted, n);
    var last := quoted.(pos := n);
    assert !CommentAt(s, last);
    var fin := LexState([Span(Atom, 0, 1)], n + 1, n + 1, true, false, false);
    assert Step(s, last) == Ok(fin);
    assert Run(s, fin) == Ok(fin);
    assert Run(s, Start()) == Run(s, escaped) == Run(s, spaced) == Run(s, quoted);
    assert Run(s, quoted) == Run(s, last) == Run(s, fin);
    assert Flush(fin.tokens, fin.token, fin.pos) == [Span(Atom, 0, 1)];
  }

  lemma {:induction false} RunBlank(s: seq<byte>, st: LexState)
    requires st.token == st.pos <= |s| && st.tokens == []
    requires !st.inString && !st.inComment && !st.escaping
    requires forall i | st.pos <= i < |s| :: IsWhitespace(s[i])
    ensures Run(s, st) == Ok(st.(token := |s|, pos := |s|))
    decreases |s| - st.pos
  {
    if st.pos < |s| {
      assert Step(s, st) == Ok(st.(token := st.pos + 1, pos := st.pos + 1));
      RunBlank(s, st.(token := st.pos + 1, pos := st.pos + 1));
    }
  }

  /** Input made only of separators produces no units at all. */
  lemma LexBlank(s: seq<byte>)
    requires forall i | 0 <= i < |s| :: IsWhitespace(s[i])
    ensures Lex(s) == Ok([])
  {
    RunBlank(s, Start());
  }
}
