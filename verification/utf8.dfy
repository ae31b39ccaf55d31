/** Well-formed UTF-8, as defined by the UTF8-octets grammar of RFC 3629
    section 4. The writer hands its byte payloads to the host's UTF-8
    decoder, which accepts exactly these sequences; the decoder itself is
    not part of this model. */
module Utf8 {
  import opened Bytes

  predicate IsTail(b: byte) {
    0x80 <= b <= 0xBF
  }

  /** Length of the UTF8-char that starts `s`, or 0 when `s` does not start
      with one (empty input, a stray continuation byte, an overlong form, a
      surrogate, a value above U+10FFFF or a truncated sequence). */
  function FirstCharLength(s: seq<byte>): (n: nat)
    ensures n <= |s| && n <= 4
    ensures n > 0 ==> |s| > 0
    ensures |s| > 0 && IsAscii(s[0]) ==> n == 1
  {
    if |s| == 0 then 0
    else
      var b := s[0];
      if b <= 0x7F then 1
      else if 0xC2 <= b <= 0xDF then
        if |s| >= 2 && IsTail(s[1]) then 2 else 0
      else if b == 0xE0 then
        if |s| >= 3 && 0xA0 <= s[1] <= 0xBF && IsTail(s[2]) then 3 else 0
      else if (0xE1 <= b <= 0xEC) || (0xEE <= b <= 0xEF) then
        if |s| >= 3 && IsTail(s[1]) && IsTail(s[2]) then 3 else 0
      else if b == 0xED then
        if |s| >= 3 && 0x80 <= s[1] <= 0x9F && IsTail(s[2]) then 3 else 0
      else if b == 0xF0 then
        if |s| >= 4 && 0x90 <= s[1] <= 0xBF && IsTail(s[2]) && IsTail(s[3]) then 4 else 0
      else if 0xF1 <= b <= 0xF3 then
        if |s| >= 4 && IsTail(s[1]) && IsTail(s[2]) && IsTail(s[3]) then 4 else 0
      else if b == 0xF4 then
        if |s| >= 4 && 0x80 <= s[1] <= 0x8F && IsTail(s[2]) && IsTail(s[3]) then 4 else 0
      else 0
  }

  /** `s` is a concatenation of UTF8-chars. */
  predicate ValidUtf8(s: seq<byte>)
    decreases |s|
  {
    |s| == 0 || (FirstCharLength(s) > 0 && ValidUtf8(s[FirstCharLength(s)..]))
  }

  /** Every ASCII text is valid UTF-8. */
  lemma {:induction false} AsciiIsValidUtf8(s: seq<byte>)
    requires forall i | 0 <= i < |s| :: IsAscii(s[i])
    ensures ValidUtf8(s)
    decreases |s|
  {
    if |s| > 0 {
      assert FirstCharLength(s) == 1;
      AsciiIsValidUtf8(s[1..]);
    }
  }

  /** A lone continuation byte, the overlong two-byte form of NUL and the
      encoded surrogate U+D800 are rejected. */
  lemma InvalidExamples()
    ensures !ValidUtf8([0x80])
    ensures !ValidUtf8([0xC0, 0x80])
    ensures !ValidUtf8([0xED, 0xA0, 0x80])
  {
  }
}
