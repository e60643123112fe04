/** Well-formed UTF-8, the check behind Rust's `String::from_utf8` and
    `str::from_utf8` (the byte-sequence table of section 4 of RFC 3629). */
module Utf8 {
  import opened Bytes

  predicate Continuation(b: Byte) {
    0x80 <= b <= 0xBF
  }

  /** The length of the well-formed sequence that starts `s`, or 0 if `s`
      does not start with one. */
  function LeadingSequenceLength(s: seq<Byte>): (n: nat)
    ensures n <= |s|
    ensures 0 < |s| && s[0] < 0x80 ==> n == 1
  {
    if |s| == 0 then 0
    else
      var b := s[0];
      if b < 0x80 then 1
      else if 0xC2 <= b <= 0xDF then
        if 2 <= |s| && Continuation(s[1]) then 2 else 0
      else if b == 0xE0 then
        if 3 <= |s| && 0xA0 <= s[1] <= 0xBF && Continuation(s[2]) then 3 else 0
      else if 0xE1 <= b <= 0xEC || 0xEE <= b <= 0xEF then
        if 3 <= |s| && Continuation(s[1]) && Continuation(s[2]) then 3 else 0
      else if b == 0xED then
        if 3 <= |s| && 0x80 <= s[1] <= 0x9F && Continuation(s[2]) then 3 else 0
      else if b == 0xF0 then
        if 4 <= |s| && 0x90 <= s[1] <= 0xBF && Continuation(s[2]) && Continuation(s[3]) then 4 else 0
      else if 0xF1 <= b <= 0xF3 then
        if 4 <= |s| && Continuation(s[1]) && Continuation(s[2]) && Continuation(s[3]) then 4 else 0
      else if b == 0xF4 then
        if 4 <= |s| && 0x80 <= s[1] <= 0x8F && Continuation(s[2]) && Continuation(s[3]) then 4 else 0
      else 0
  }

  predicate ValidUtf8(s: seq<Byte>)
    decreases |s|
  {
    |s| == 0 || (0 < LeadingSequenceLength(s) && ValidUtf8(s[LeadingSequenceLength(s)..]))
  }

  predicate IsAscii(s: seq<Byte>) {
    forall i :: 0 <= i < |s| ==> s[i] < 0x80
  }

  /** Every ASCII text is well-formed UTF-8. */
  lemma {:induction false} AsciiIsUtf8(s: seq<Byte>)
    requires IsAscii(s)
    ensures ValidUtf8(s)
  {
    if |s| > 0 {
      AsciiIsUtf8(s[1..]);
    }
  }
}
