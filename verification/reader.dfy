/** The recursive-descent reader over the unit sequence, and the two entry
    points `EdnRead` and `EdnWrite`. Units are consumed from the front; the
    part left over is returned next to the result. */
module Reader {
  import opened Bytes
  import opened Results
  import opened Lexemes
  import opened Types
  import opened Atoms
  import opened Lexer

  const UNEXPECTED_EOF: string := "Unexpected EOF"
  const NO_TOKENS: string := "No parseable tokens found"

  /** The nodes the reader can build. Since an opening and a closing bracket
      are the same unit, the first unit of the collection's own family ends
      it: a List never holds a List directly, nor a Vector a Vector, and a
      Map holds nothing. */
  ghost predicate Readable(n: Node)
    decreases n
  {
    match n
    case List(items) =>
      forall i | 0 <= i < |items| :: Readable(items[i]) && LeadingLexeme(items[i]) != ListParen
    case Vector(items) =>
      forall i | 0 <= i < |items| :: Readable(items[i]) && LeadingLexeme(items[i]) != VecParen
    case Map => true
    case _ => ReadableAtom(n)
  }

  /** Builds the collection a bracket family stands for; braces give a Map
      without children. */
  function HandleCollection(token: LexedNode, collection: seq<Node>): (r: Result<Node>)
    ensures r.Ok? <==> IsBracket(token.lexeme)
    ensures r.Ok? ==> LeadingLexeme(r.value) == token.lexeme
    ensures r.Ok? && (r.value.List? || r.value.Vector?) ==> r.value.items == collection
    ensures r.Err? ==> r.error == MALFORMED
  {
    match token.lexeme
    case ListParen => Ok(List(collection))
    case VecParen => Ok(Vector(collection))
    case MapParen => Ok(Map)
    case _ => Err(MALFORMED)
  }

  /** Reads one value starting with `token`; returns it and the units after
      it. */
  function ReadAhead(token: LexedNode, tokens: seq<LexedNode>): (r: (Result<Node>, seq<LexedNode>))
    ensures |r.1| <= |tokens|
    ensures r.0.Err? ==> r.0.error == UNEXPECTED_EOF && r.1 == []
    ensures !IsBracket(token.lexeme) ==> r == (HandleAtom(token), tokens)
    ensures r.0.Ok? ==> LeadingLexeme(r.0.value) == token.lexeme
    decreases |tokens|, 1
  {
    match GetMatchingParen(token.lexeme)
    case Some(_) => ReadCollection(token, [], tokens)
    case None => (HandleAtom(token), tokens)
  }

  /** The collection loop of `ReadAhead`: children read so far are in
      `collection`; the next unit of the family of `open` closes it. */
  function ReadCollection(open: LexedNode, collection: seq<Node>, tokens: seq<LexedNode>)
    : (r: (Result<Node>, seq<LexedNode>))
    requires IsBracket(open.lexeme)
    ensures |r.1| <= |tokens|
    ensures r.0.Err? ==> r.0.error == UNEXPECTED_EOF && r.1 == []
    ensures r.0.Ok? ==> LeadingLexeme(r.0.value) == open.lexeme
    decreases |tokens|, 0
  {
    if |tokens| == 0 then (Err(UNEXPECTED_EOF), [])
    else
      var next := tokens[0];
      if next.lexeme == open.lexeme then (HandleCollection(open, collection), tokens[1..])
      else
        var child := ReadAhead(next, tokens[1..]);
        if child.0.Err? then (Err(child.0.error), child.1)
        else ReadCollection(open, collection + [child.0.value], child.1)
  }

  /** Everything the reader builds is `Readable`. */
  lemma {:induction false} ReadAheadReadable(token: LexedNode, tokens: seq<LexedNode>)
    ensures ReadAhead(token, tokens).0.Ok? ==> Readable(ReadAhead(token, tokens).0.value)
    decreases |tokens|, 1
  {
    if IsBracket(token.lexeme) {
      ReadCollectionReadable(token, [], tokens);
    }
  }

  lemma {:induction false} ReadCollectionReadable(open: LexedNode, collection: seq<Node>,
                                                  tokens: seq<LexedNode>)
    requires IsBracket(open.lexeme)
    requires forall i | 0 <= i < |collection| ::
      Readable(collection[i]) && LeadingLexeme(collection[i]) != open.lexeme
    ensures ReadCollection(open, collection, tokens).0.Ok? ==>
      Readable(ReadCollection(open, collection, tokens).0.value)
    decreases |tokens|, 0
  {
    if |tokens| > 0 && tokens[0].lexeme != open.lexeme {
      var child := ReadAhead(tokens[0], tokens[1..]);
      if child.0.Ok? {
        ReadAheadReadable(tokens[0], tokens[1..]);
        var more := collection + [child.0.value];
        assert forall i | 0 <= i < |more| ::
          Readable(more[i]) && LeadingLexeme(more[i]) != open.lexeme;
        ReadCollectionReadable(open, more, child.1);
      }
    }
  }

  /** No unit of `tokens` belongs to the family `l`. */
  predicate NoUnitOf(tokens: seq<LexedNode>, l: Lexeme) {
    forall i | 0 <= i < |tokens| :: tokens[i].lexeme != l
  }

  /** The reader only ever drops units from the front: a family absent from
      its input is absent from what it leaves. */
  lemma {:induction false} ReadAheadKeeps(token: LexedNode, tokens: seq<LexedNode>, l: Lexeme)
    requires NoUnitOf(tokens, l)
    ensures NoUnitOf(ReadAhead(token, tokens).1, l)
    decreases |tokens|, 1
  {
    if IsBracket(token.lexeme) {
      ReadCollectionKeeps(token, [], tokens, l);
    }
  }

  lemma {:induction false} ReadCollectionKeeps(open: LexedNode, collection: seq<Node>,
                                               tokens: seq<LexedNode>, l: Lexeme)
    requires IsBracket(open.lexeme)
    requires NoUnitOf(tokens, l)
    ensures NoUnitOf(ReadCollection(open, collection, tokens).1, l)
    decreases |tokens|, 0
  {
    if |tokens| > 0 && tokens[0].lexeme != open.lexeme {
      var child := ReadAhead(tokens[0], tokens[1..]);
      ReadAheadKeeps(tokens[0], tokens[1..], l);
      if child.0.Ok? {
        ReadCollectionStep(open, collection, child.0.value, tokens, child.1);
        ReadCollectionKeeps(open, collection + [child.0.value], child.1, l);
      }
    }
  }

  /** The reader only takes units off the front: what it leaves is a
      suffix of its input. */
  lemma {:induction false} ReadAheadSuffix(token: LexedNode, tokens: seq<LexedNode>)
    ensures exists k :: 0 <= k <= |tokens| && ReadAhead(token, tokens).1 == tokens[k..]
    decreases |tokens|, 1
  {
    if IsBracket(token.lexeme) {
      ReadCollectionSuffix(token, [], tokens);
    } else {
      assert ReadAhead(token, tokens).1 == tokens[0..];
    }
  }

  lemma {:induction false} ReadCollectionSuffix(open: LexedNode, collection: seq<Node>,
                                                tokens: seq<LexedNode>)
    requires IsBracket(open.lexeme)
    ensures exists k :: 0 <= k <= |tokens| && ReadCollection(open, collection, tokens).1 == tokens[k..]
    decreases |tokens|, 0
  {
    var r := ReadCollection(open, collection, tokens);
    if |tokens| == 0 {
      assert r.1 == tokens[0..];
    } else if tokens[0].lexeme == open.lexeme {
      assert r.1 == tokens[1..];
    } else {
      var child := ReadAhead(tokens[0], tokens[1..]);
      if child.0.Err? {
        assert r.1 == tokens[|tokens|..];
      } else {
        var more := collection + [child.0.value];
        ReadCollectionStep(open, collection, child.0.value, tokens, child.1);
        ReadAheadSuffix(tokens[0], tokens[1..]);
        var j :| 0 <= j <= |tokens| - 1 && child.1 == tokens[1..][j..];
        ReadCollectionSuffix(open, more, child.1);
        var m :| 0 <= m <= |child.1| && ReadCollection(open, more, child.1).1 == child.1[m..];
        DropTwice(tokens, j, m);
      }
    }
  }

  /** A collection that is read ends on a unit of its own family: what is
      left is exactly the units after that one. */
  lemma {:induction false} ReadCollectionCloses(open: LexedNode, collection: seq<Node>,
                                                tokens: seq<LexedNode>)
    requires IsBracket(open.lexeme)
    requires ReadCollection(open, collection, tokens).0.Ok?
    ensures exists k :: 0 <= k < |tokens| && tokens[k].lexeme == open.lexeme
                        && ReadCollection(open, collection, tokens).1 == tokens[k + 1..]
    decreases |tokens|
  {
    var r := ReadCollection(open, collection, tokens);
    if tokens[0].lexeme == open.lexeme {
      assert r.1 == tokens[0 + 1..];
    } else {
      var child := ReadAhead(tokens[0], tokens[1..]);
      var more := collection + [child.0.value];
      ReadCollectionStep(open, collection, child.0.value, tokens, child.1);
      ReadAheadSuffix(tokens[0], tokens[1..]);
      var j :| 0 <= j <= |tokens| - 1 && child.1 == tokens[1..][j..];
      ReadCollectionCloses(open, more, child.1);
      var m :| 0 <= m < |child.1| && child.1[m].lexeme == open.lexeme
               && ReadCollection(open, more, child.1).1 == child.1[m + 1..];
      ShiftSuffix(tokens, j, m);
    }
  }

  lemma DropTwice(tokens: seq<LexedNode>, j: nat, m: nat)
    requires j < |tokens| && m <= |tokens[1..][j..]|
    ensures tokens[1..][j..][m..] == tokens[j + 1 + m..]
  {
  }

  lemma ShiftSuffix(tokens: seq<LexedNode>, j: nat, m: nat)
    requires j < |tokens| && m < |tokens[1..][j..]|
    ensures tokens[1..][j..][m] == tokens[j + 1 + m]
    ensures tokens[1..][j..][m + 1..] == tokens[j + 1 + m + 1..]
  {
  }

  /** Reads the first value of a unit sequence; the units after it are
      ignored. */
  function ReadTokens(tokens: seq<LexedNode>): (r: Result<Node>)
    ensures r.Err? ==> r.error == UNEXPECTED_EOF || r.error == NO_TOKENS
    ensures r == Err(NO_TOKENS) <==> tokens == []
    ensures r.Ok? ==> Readable(r.value)
  {
    if |tokens| == 0 then Err(NO_TOKENS)
    else
      ReadAheadReadable(tokens[0], tokens[1..]);
      ReadAhead(tokens[0], tokens[1..]).0
  }

  /** The units of the lexer with the bytes each span covers. */
  function Borrow(s: seq<byte>, spans: seq<Span>): seq<LexedNode>
    requires forall i | 0 <= i < |spans| :: spans[i].start <= spans[i].end <= |s|
  {
    seq(|spans|, i requires 0 <= i < |spans| =>
      LexedNode(spans[i].lexeme, s[spans[i].start..spans[i].end]))
  }

  /** Reads the first value of an input text. */
  function EdnRead(s: seq<byte>): (r: Result<Node>)
    ensures r.Err? ==> r.error == UNEXPECTED_EOF || r.error == NO_TOKENS
    ensures r.Ok? ==> Readable(r.value)
  {
    ReadTokens(Borrow(s, Lex(s).value))
  }

  /** Writes a node; see `ToString`. */
  function EdnWrite(n: Node): Result<seq<byte>> {
    ToString(n)
  }

  // ---------------------------------------------------------------------
  // Units for a node: the inverse of the reader

  /** The units a node is read from: a leaf is one unit, a collection is
      its children's units between two units of its family. */
  function Emit(n: Node): seq<LexedNode>
    decreases n, 1
  {
    match n
    case Nil => [LexedNode(Atom, NIL)]
    case Bool(v) => [LexedNode(Atom, v)]
    case Keyword(ns, name) => [LexedNode(Atom, [COLON] + JoinName((ns, name)))]
    case String(v) => [LexedNode(Lexeme.String, v)]
    case List(items) => [LexedNode(ListParen, [])] + EmitAll(items) + [LexedNode(ListParen, [])]
    case Vector(items) => [LexedNode(VecParen, [])] + EmitAll(items) + [LexedNode(VecParen, [])]
    case Map => [LexedNode(MapParen, []), LexedNode(MapParen, [])]
    case _ => []
  }

  function EmitAll(items: seq<Node>): seq<LexedNode>
    decreases items, 0
  {
    if |items| == 0 then [] else Emit(items[0]) + EmitAll(items[1..])
  }

  lemma ConsSplit(a: seq<LexedNode>, b: seq<LexedNode>)
    requires |a| > 0
    ensures (a + b)[0] == a[0] && (a + b)[1..] == a[1..] + b
  {
  }

  /** One child of a collection: when the next unit is not of the
      collection's family, the child read from it is appended. */
  lemma ReadCollectionStep(open: LexedNode, collection: seq<Node>, child: Node,
                           tokens: seq<LexedNode>, rest: seq<LexedNode>)
    requires IsBracket(open.lexeme)
    requires |tokens| > 0 && tokens[0].lexeme != open.lexeme
    requires ReadAhead(tokens[0], tokens[1..]) == (Ok(child), rest)
    ensures ReadCollection(open, collection, tokens)
         == ReadCollection(open, collection + [child], rest)
  {
  }

  /** A leaf node is read back from its single unit. */
  lemma ReadEmitLeaf(n: Node, rest: seq<LexedNode>)
    requires ReadableAtom(n)
    ensures |Emit(n)| == 1 && Emit(n)[0].lexeme == LeadingLexeme(n)
    ensures ReadAhead(Emit(n)[0], rest) == (Ok(n), rest)
  {
    match n
    case Nil =>
      assert HandleAtom(LexedNode(Atom, NIL)) == Ok(Nil);
    case Bool(v) =>
      assert HandleAtom(LexedNode(Atom, v)) == Ok(Bool(v));
    case String(v) =>
      assert HandleAtom(LexedNode(Lexeme.String, v)) == Ok(n);
    case Keyword(ns, name) =>
      ReadEmitKeyword(ns, name, rest);
  }

  lemma ReadEmitKeyword(ns: Option<seq<byte>>, name: seq<byte>, rest: seq<LexedNode>)
    requires WellFormedName((ns, name))
    ensures ReadAhead(LexedNode(Atom, [COLON] + JoinName((ns, name))), rest) == (Ok(Keyword(ns, name)), rest)
  {
    var text := [COLON] + JoinName((ns, name));
    assert text[1..] == JoinName((ns, name));
    ParseSymbolInverse((ns, name));
    assert ParseKeyword(text) == Some((ns, name));
    assert HandleAtom(LexedNode(Atom, text)) == Ok(Keyword(ns, name));
  }

  /** Reading the units of a readable node gives the node back and leaves
      whatever follows untouched. */
  lemma {:induction false} ReadEmit(n: Node, rest: seq<LexedNode>)
    requires Readable(n)
    ensures |Emit(n)| > 0 && Emit(n)[0].lexeme == LeadingLexeme(n)
    ensures ReadAhead(Emit(n)[0], Emit(n)[1..] + rest) == (Ok(n), rest)
    decreases n, 1
  {
    if n.List? || n.Vector? {
      var open := Emit(n)[0];
      assert Emit(n)[1..] + rest == EmitAll(n.items) + [open] + rest;
      ReadEmitAll(open, [], n.items, rest);
      assert [] + n.items == n.items;
    } else if n.Map? {
      assert Emit(n)[1..] + rest == [LexedNode(MapParen, [])] + rest;
    } else {
      ReadEmitLeaf(n, rest);
      assert Emit(n)[1..] + rest == rest;
    }
  }

  /** Reading the units of readable children and then a unit of the
      collection's family completes the collection, children in order. */
  lemma {:induction false} ReadEmitAll(open: LexedNode, collection: seq<Node>, items: seq<Node>,
                                       rest: seq<LexedNode>)
    requires IsBracket(open.lexeme)
    requires forall i | 0 <= i < |items| ::
      Readable(items[i]) && LeadingLexeme(items[i]) != open.lexeme
    ensures ReadCollection(open, collection, EmitAll(items) + [open] + rest)
         == (HandleCollection(open, collection + items), rest)
    decreases items, 1
  {
    if |items| == 0 {
      ReadEmitAllNone(open, collection, items, rest);
    } else {
      ReadEmitAllHead(open, collection, items, rest);
      var more := collection + [items[0]];
      assert forall i | 0 <= i < |items[1..]| ::
        Readable(items[1..][i]) && LeadingLexeme(items[1..][i]) != open.lexeme
      by {
        forall i | 0 <= i < |items[1..]|
          ensures Readable(items[1..][i]) && LeadingLexeme(items[1..][i]) != open.lexeme
        {
          assert items[1..][i] == items[i + 1];
        }
      }
      ReadEmitAll(open, more, items[1..], rest);
      assert more + items[1..] == collection + items;
    }
  }

  /** The first child's units are consumed by reading the first child. */
  lemma {:induction false} ReadEmitAllHead(open: LexedNode, collection: seq<Node>, items: seq<Node>,
                                           rest: seq<LexedNode>)
    requires IsBracket(open.lexeme) && |items| > 0
    requires Readable(items[0]) && LeadingLexeme(items[0]) != open.lexeme
    ensures ReadCollection(open, collection, EmitAll(items) + [open] + rest)
         == ReadCollection(open, collection + [items[0]], EmitAll(items[1..]) + [open] + rest)
    decreases items, 0
  {
    var head := items[0];
    var after := EmitAll(items[1..]) + [open] + rest;
    EmitAllCons(items, [open] + rest);
    assert EmitAll(items) + [open] + rest == Emit(head) + after;
    ReadEmit(head, after);
    ReadEmitAllStep(open, collection, head, after);
  }

  lemma ReadEmitAllNone(open: LexedNode, collection: seq<Node>, items: seq<Node>,
                        rest: seq<LexedNode>)
    requires IsBracket(open.lexeme) && items == []
    ensures ReadCollection(open, collection, EmitAll(items) + [open] + rest)
         == (HandleCollection(open, collection + items), rest)
  {
    ReadCollectionClose(open, collection, rest);
    assert EmitAll(items) + [open] + rest == [open] + rest;
    assert collection + items == collection;
  }

  lemma EmitAllCons(items: seq<Node>, tail: seq<LexedNode>)
    requires |items| > 0
    ensures EmitAll(items) + tail == Emit(items[0]) + (EmitAll(items[1..]) + tail)
  {
  }

  /** A unit of the collection's family closes it at once. */
  lemma ReadCollectionClose(open: LexedNode, collection: seq<Node>, rest: seq<LexedNode>)
    requires IsBracket(open.lexeme)
    ensures ReadCollection(open, collection, [open] + rest) == (HandleCollection(open, collection), rest)
  {
    assert ([open] + rest)[1..] == rest;
  }

  /** The first child's units are consumed by reading the first child. */
  lemma ReadEmitAllStep(open: LexedNode, collection: seq<Node>, head: Node, after: seq<LexedNode>)
    requires IsBracket(open.lexeme)
    requires |Emit(head)| > 0 && Emit(head)[0].lexeme != open.lexeme
    requires ReadAhead(Emit(head)[0], Emit(head)[1..] + after) == (Ok(head), after)
    ensures ReadCollection(open, collection, Emit(head) + after)
         == ReadCollection(open, collection + [head], after)
  {
    ConsSplit(Emit(head), after);
    ReadCollectionStep(open, collection, head, Emit(head) + after, after);
  }

  /** Every readable node is read back from its units, whatever follows. */
  lemma ReadTokensEmit(n: Node, extra: seq<LexedNode>)
    requires Readable(n)
    ensures ReadTokens(Emit(n) + extra) == Ok(n)
  {
    ReadEmit(n, extra);
    var units := Emit(n);
    ConsSplit(units, extra);
    assert ReadTokens(units + extra) == ReadAhead(units[0], units[1..] + extra).0;
  }

  // ---------------------------------------------------------------------
  // Units after a value are never looked at

  lemma {:induction false} ReadAheadFrame(token: LexedNode, tokens: seq<LexedNode>,
                                          extra: seq<LexedNode>)
    requires ReadAhead(token, tokens).0.Ok?
    ensures ReadAhead(token, tokens + extra)
         == (ReadAhead(token, tokens).0, ReadAhead(token, tokens).1 + extra)
    decreases |tokens|, 1
  {
    if IsBracket(token.lexeme) {
      ReadCollectionFrame(token, [], tokens, extra);
    }
  }

  lemma {:induction false} ReadCollectionFrame(open: LexedNode, collection: seq<Node>,
                                               tokens: seq<LexedNode>, extra: seq<LexedNode>)
    requires IsBracket(open.lexeme)
    requires ReadCollection(open, collection, tokens).0.Ok?
    ensures ReadCollection(open, collection, tokens + extra)
         == (ReadCollection(open, collection, tokens).0,
             ReadCollection(open, collection, tokens).1 + extra)
    decreases |tokens|, 0
  {
    var next := tokens[0];
    assert (tokens + extra)[0] == next;
    assert (tokens + extra)[1..] == tokens[1..] + extra;
    if next.lexeme != open.lexeme {
      var (n, rest) := ReadAhead(next, tokens[1..]);
      ReadAheadFrame(next, tokens[1..], extra);
      ReadCollectionFrame(open, collection + [n.value], rest, extra);
    }
  }

  /** Once a value is read, units appended after the input change nothing. */
  lemma ReadTokensIgnoresTrailing(tokens: seq<LexedNode>, extra: seq<LexedNode>)
    requires ReadTokens(tokens).Ok?
    ensures ReadTokens(tokens + extra) == ReadTokens(tokens)
  {
    ReadAheadFrame(tokens[0], tokens[1..], extra);
    assert (tokens + extra)[0] == tokens[0];
    assert (tokens + extra)[1..] == tokens[1..] + extra;
  }

  /** A collection whose family never occurs again is never closed. */
  lemma {:induction false} UnclosedCollection(open: LexedNode, collection: seq<Node>,
                                              tokens: seq<LexedNode>)
    requires IsBracket(open.lexeme)
    requires NoUnitOf(tokens, open.lexeme)
    ensures ReadCollection(open, collection, tokens) == (Err(UNEXPECTED_EOF), [])
    decreases |tokens|
  {
    if |tokens| > 0 {
      var child := ReadAhead(tokens[0], tokens[1..]);
      ReadAheadKeeps(tokens[0], tokens[1..], open.lexeme);
      if child.0.Ok? {
        ReadCollectionStep(open, collection, child.0.value, tokens, child.1);
        UnclosedCollection(open, collection + [child.0.value], child.1);
      }
    }
  }
}
