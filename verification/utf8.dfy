/** Well-formed UTF-8 as section 4 of RFC 3629 defines it: the syntax that
    `String::from_utf8` accepts (no overlong forms, no surrogates, nothing
    above U+10FFFF). */
module Utf8 {
  import opened Bytes

  predicate IsTail(b: uint8) {
    0x80 <= b <= 0xBF
  }

  /** `s` is a sequence of well-formed characters: each step reads one
      character of one to four bytes, with the lead-byte ranges and the
      restricted second-byte ranges of the table in section 4 of RFC 3629. */
  predicate ValidUtf8(s: seq<uint8>)
    decreases |s|
  {
    if |s| == 0 then true
    else
      var b := s[0];
      if b <= 0x7F then ValidUtf8(s[1..])
      else if 0xC2 <= b <= 0xDF then
        |s| >= 2 && IsTail(s[1]) && ValidUtf8(s[2..])
      else if b == 0xE0 then
        |s| >= 3 && 0xA0 <= s[1] <= 0xBF && IsTail(s[2]) && ValidUtf8(s[3..])
      else if 0xE1 <= b <= 0xEC || 0xEE <= b <= 0xEF then
        |s| >= 3 && IsTail(s[1]) && IsTail(s[2]) && ValidUtf8(s[3..])
      else if b == 0xED then
        |s| >= 3 && 0x80 <= s[1] <= 0x9F && IsTail(s[2]) && ValidUtf8(s[3..])
      else if b == 0xF0 then
        |s| >= 4 && 0x90 <= s[1] <= 0xBF && IsTail(s[2]) && IsTail(s[3]) && ValidUtf8(s[4..])
      else if 0xF1 <= b <= 0xF3 then
        |s| >= 4 && IsTail(s[1]) && IsTail(s[2]) && IsTail(s[3]) && ValidUtf8(s[4..])
      else if b == 0xF4 then
        |s| >= 4 && 0x80 <= s[1] <= 0x8F && IsTail(s[2]) && IsTail(s[3]) && ValidUtf8(s[4..])
      else false
  }

  /** A well-formed string never starts with a continuation byte, with the
      overlong lead bytes C0 and C1, or with a lead byte above F4. */
  lemma LeadByte(s: seq<uint8>)
    requires ValidUtf8(s) && |s| > 0
    ensures !IsTail(s[0]) && s[0] != 0xC0 && s[0] != 0xC1 && s[0] <= 0xF4
  {
  }

  /** The bytes of a Rust `str`: always well-formed UTF-8. */
  type Utf8Bytes = s: seq<uint8> | ValidUtf8(s) witness []

  /** Every ASCII string is well-formed UTF-8. */
  lemma {:induction false} AsciiIsValid(s: seq<uint8>)
    requires forall i :: 0 <= i < |s| ==> s[i] < 0x80
    ensures ValidUtf8(s)
    decreases |s|
  {
    if |s| > 0 {
      AsciiIsValid(s[1..]);
    }
  }

  /** Concrete cases of section 4 of RFC 3629: an overlong encoding of '/'
      (C0 AF), a UTF-16 surrogate (ED A0 80), a code point above U+10FFFF
      (F4 90 80 80) and a lone continuation byte are all rejected, while
      U+00E9, U+20AC and U+1F600 are accepted. */
  lemma Rfc3629Examples()
    ensures !ValidUtf8([0xC0, 0xAF])
    ensures !ValidUtf8([0xED, 0xA0, 0x80])
    ensures !ValidUtf8([0xF4, 0x90, 0x80, 0x80])
    ensures !ValidUtf8([0x80])
    ensures ValidUtf8([0xC3, 0xA9])
    ensures ValidUtf8([0xE2, 0x82, 0xAC])
    ensures ValidUtf8([0xF0, 0x9F, 0x98, 0x80])
  {
    assert [0xC3, 0xA9][2..] == [];
    assert [0xE2, 0x82, 0xAC][3..] == [];
    assert [0xF0, 0x9F, 0x98, 0x80][4..] == [];
  }
}
