/** The parsed-value union and the partial writer `to_string`. */
module Types {
  import opened Bytes
  import opened Results
  import opened Utf8

  const UTF8_FAILURE: string := "UTF8 decoding failure"
  const UNKNOWN: string := "UNKNOWN"

  /** One parsed value. Byte payloads are copies of the spans of the input
      the implementation borrows. Symbol, Int, Float, Char, Set, Tagged and
      Discard exist in the union but the reader never builds them. */
  datatype Node =
    | Nil
    | Symbol(text: seq<byte>)
    | Keyword(ns: Option<seq<byte>>, name: seq<byte>)
    | Bool(text: seq<byte>)
    | Int(text: seq<byte>)
    | Float(text: seq<byte>)
    | Char(ch: char)
    | String(text: seq<byte>)
    | List(items: seq<Node>)
    | Vector(items: seq<Node>)
    | Map
    | Set(items: seq<Node>)
    | Tagged(tag: seq<byte>, tagged: seq<byte>)
    | Discard(inner: Node)

  /** The writer: `nil` for Nil, the raw text of a Bool or String when it is
      valid UTF-8 (no quotes are added around a String), and an error for
      every other variant. The Ok payload is the UTF-8 text as bytes. */
  function ToString(n: Node): (r: Result<seq<byte>>)
    ensures r.Ok? <==> n.Nil? || ((n.Bool? || n.String?) && ValidUtf8(n.text))
    ensures r.Ok? ==> ValidUtf8(r.value)
    ensures n.Nil? ==> r == Ok(NIL)
    ensures (n.Bool? || n.String?) && r.Ok? ==> r.value == n.text
    ensures r.Err? && (n.Bool? || n.String?) ==> r.error == UTF8_FAILURE
    ensures r.Err? && !n.Bool? && !n.String? ==> r.error == UNKNOWN
  {
    match n
    case Nil =>
      AsciiIsValidUtf8(NIL);
      Ok(NIL)
    case Bool(v) => if ValidUtf8(v) then Ok(v) else Err(UTF8_FAILURE)
    case String(v) => if ValidUtf8(v) then Ok(v) else Err(UTF8_FAILURE)
    case _ => Err(UNKNOWN)
  }
}
