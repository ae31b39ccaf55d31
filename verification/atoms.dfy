/** The atom grammar: symbol and keyword bodies, booleans, and the
    classification of a leaf unit into a Node. */
module Atoms {
  import opened Bytes
  import opened Results
  import opened Lexemes
  import opened Types

  const COULD_NOT_PARSE_ATOM: string := "Could not parse atom"

  /** An optional namespace and a name, as a symbol or keyword body splits. */
  type Name = (Option<seq<byte>>, seq<byte>)

  /** The non-digit bytes a symbol may hold: letters and `.*+!-_?$%&=:#/`. */
  predicate SymbolByte(c: byte) {
    IsLetter(c)
    || c in {DOT, STAR, PLUS, BANG, MINUS, UNDERSCORE, QUESTION,
             DOLLAR, PERCENT, AMPERSAND, EQUALS, COLON, HASH, SLASH}
  }

  predicate NameByte(c: byte) {
    IsDigit(c) || SymbolByte(c)
  }

  /** The first-byte rules: not empty, no leading digit, colon or `#`, a
      leading slash only as the whole body, and no sign or dot followed by
      a digit (those start numbers). */
  predicate LeadingRejected(s: seq<byte>) {
    || |s| == 0
    || IsDigit(s[0]) || s[0] == COLON || s[0] == HASH
    || (s[0] == SLASH && |s| != 1)
    || (|s| > 1 && (s[0] == MINUS || s[0] == PLUS || s[0] == DOT) && IsDigit(s[1]))
  }

  ghost predicate AtMostOneSlash(s: seq<byte>) {
    forall i, j | 0 <= i < j < |s| :: !(s[i] == SLASH && s[j] == SLASH)
  }

  /** A well-formed symbol body, stated over the whole text at once. */
  ghost predicate ValidSymbol(s: seq<byte>) {
    && !LeadingRejected(s)
    && (forall i | 0 <= i < |s| :: NameByte(s[i]))
    && AtMostOneSlash(s)
  }

  /** The text a split name stands for. A namespace keeps its slash. */
  function JoinName(n: Name): seq<byte> {
    (if n.0.Some? then n.0.value else []) + n.1
  }

  /** A split of a valid symbol body at its only slash: the namespace ends
      with the slash and the name holds none. */
  ghost predicate WellFormedName(n: Name) {
    && ValidSymbol(JoinName(n))
    && SLASH !in n.1
    && (n.0.Some? ==> |n.0.value| > 0 && n.0.value[|n.0.value| - 1] == SLASH)
  }

  /** The backward scan over `s[..l]`: checks every byte and remembers the
      position just past the one slash, failing on a second one. */
  function ScanSymbol(s: seq<byte>, l: nat, slashPos: nat): (r: Option<nat>)
    requires l <= |s|
    requires slashPos == 0 || l < slashPos <= |s|
    requires forall i | l <= i < |s| :: s[i] == SLASH <==> i + 1 == slashPos
    ensures r.Some? <==> (forall i | 0 <= i < l :: NameByte(s[i])) && AtMostOneSlash(s)
    ensures r.Some? ==> r.value <= |s|
    ensures r.Some? ==> forall i | 0 <= i < |s| :: s[i] == SLASH <==> i + 1 == r.value
    decreases l
  {
    if l == 0 then Some(slashPos)
    else
      var c := s[l - 1];
      if !IsDigit(c) && !SymbolByte(c) then None
      else if c == SLASH then
        if slashPos != 0 then
          assert s[l - 1] == SLASH && s[slashPos - 1] == SLASH;
          None
        else ScanSymbol(s, l - 1, l)
      else ScanSymbol(s, l - 1, slashPos)
  }

  /** Splits a symbol body into an optional namespace (with its trailing
      slash) and a name. */
  function ParseSymbol(s: seq<byte>): (r: Option<Name>)
    ensures r.Some? <==> ValidSymbol(s)
    ensures r.Some? ==> WellFormedName(r.value) && JoinName(r.value) == s
    ensures r.Some? ==> (r.value.0.None? <==> SLASH !in s)
  {
    if LeadingRejected(s) then None
    else
      match ScanSymbol(s, |s|, 0)
      case None => None
      case Some(slashPos) =>
        var r := (if slashPos != 0 then Some(s[..slashPos]) else None, s[slashPos..]);
        assert JoinName(r) == s;
        assert forall k | 0 <= k < |r.1| :: r.1[k] == s[slashPos + k];
        assert slashPos != 0 ==> s[slashPos - 1] == SLASH;
        Some(r)
  }

  /** Splitting is the inverse of joining: a well-formed split is what
      `ParseSymbol` returns for the text it stands for. */
  lemma ParseSymbolInverse(n: Name)
    requires WellFormedName(n)
    ensures ParseSymbol(JoinName(n)) == Some(n)
  {
    var s := JoinName(n);
    var m := ParseSymbol(s).value;
    if n.0.Some? {
      var k := |n.0.value|;
      assert s[k - 1] == SLASH;
      var k' := |m.0.value|;
      assert s[k' - 1] == SLASH;
      assert k' == k;
      assert m.0.value == s[..k] == n.0.value;
      assert m.1 == s[k..] == n.1;
    } else {
      assert s == n.1;
    }
  }

  /** A keyword is a colon followed by a symbol body. */
  function ParseKeyword(s: seq<byte>): (r: Option<Name>)
    ensures r.Some? <==> |s| > 0 && s[0] == COLON && ValidSymbol(s[1..])
    ensures r.Some? ==> WellFormedName(r.value) && [COLON] + JoinName(r.value) == s
  {
    if |s| == 0 || s[0] != COLON then None
    else ParseSymbol(s[1..])
  }

  predicate ValidBool(s: seq<byte>) {
    s == TRUE || s == FALSE
  }

  /** `true` and `false` are neither `nil` nor keyword text, so the checks
      `HandleAtom` makes before `ValidBool` never take them; as symbol
      bodies they would be bare names without a namespace. */
  lemma ValidBoolShape(s: seq<byte>)
    ensures ValidBool(s) ==> s != NIL && !IsKeywordText(s) && ParseSymbol(s) == Some((None, s))
  {
    if ValidBool(s) {
      assert s[0] != COLON;
      assert forall i | 0 <= i < |s| :: IsLetter(s[i]);
      assert SLASH !in s;
    }
  }

  /** Whether `s` is the text of a keyword. */
  ghost predicate IsKeywordText(s: seq<byte>) {
    |s| > 0 && s[0] == COLON && ValidSymbol(s[1..])
  }

  /** The leaf nodes the classifier can build. */
  ghost predicate ReadableAtom(n: Node) {
    || n.Nil?
    || (n.Bool? && ValidBool(n.text))
    || (n.Keyword? && WellFormedName((n.ns, n.name)))
    || n.String?
  }

  /** The kind of the first unit a node is read from. */
  function LeadingLexeme(n: Node): Lexeme {
    match n
    case List(_) => ListParen
    case Vector(_) => VecParen
    case Map => MapParen
    case String(_) => Lexeme.String
    case _ => Atom
  }

  /** Classifies a leaf unit: an Atom is `nil`, else a keyword, else a
      boolean, else (numbers and symbols included) Nil; a String unit keeps
      its raw bytes. Bracket units are not leaves. */
  function HandleAtom(token: LexedNode): (r: Result<Node>)
    ensures r.Ok? <==> !IsBracket(token.lexeme)
    ensures r.Err? ==> r.error == COULD_NOT_PARSE_ATOM
    ensures r.Ok? ==> ReadableAtom(r.value) && LeadingLexeme(r.value) == token.lexeme
    ensures token.lexeme.String? ==> r == Ok(Node.String(token.value))
    ensures token.lexeme.Atom? ==>
      && (r.value.Keyword? <==> IsKeywordText(token.value))
      && (r.value.Bool? <==> ValidBool(token.value))
      && (r.value.Keyword? ==> [COLON] + JoinName((r.value.ns, r.value.name)) == token.value)
      && (r.value.Bool? ==> r.value.text == token.value)
      && (token.value == NIL || (!IsKeywordText(token.value) && !ValidBool(token.value))
          <==> r == Ok(Nil))
  {
    match token.lexeme
    case Atom =>
      if token.value == NIL then Ok(Nil)
      else
        (match ParseKeyword(token.value)
         case Some((ns, name)) => Ok(Keyword(ns, name))
         case None => if ValidBool(token.value) then Ok(Bool(token.value)) else Ok(Nil))
    case String => Ok(Node.String(token.value))
    case _ => Err(COULD_NOT_PARSE_ATOM)
  }
}
