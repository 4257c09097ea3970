/** Bytes and the little-endian 32-bit integers of the frame's length prefix. */
module Bytes {

  type uint8 = x: int | 0 <= x < 0x100

  const U32_LIMIT: nat := 0x1_0000_0000

  /** The value of the first four bytes of `s` read as an unsigned
      little-endian integer (`read_u32::<LittleEndian>`). */
  function ReadU32Le(s: seq<uint8>): (n: nat)
    requires |s| >= 4
    ensures n < U32_LIMIT
  {
    s[0] as int + 0x100 * (s[1] as int + 0x100 * (s[2] as int + 0x100 * s[3] as int))
  }

  /** The four bytes of `n`, least significant first
      (`write_u32::<LittleEndian>`). */
  function WriteU32Le(n: nat): (s: seq<uint8>)
    requires n < U32_LIMIT
    ensures |s| == 4
    ensures ReadU32Le(s) == n
  {
    var q1 := n / 0x100;
    var q2 := q1 / 0x100;
    [n % 0x100, q1 % 0x100, q2 % 0x100, q2 / 0x100]
  }

  /** Splitting `low + 256 * high` at the byte boundary. */
  lemma SplitByte(low: int, high: nat)
    requires 0 <= low < 0x100
    ensures (low + 0x100 * high) % 0x100 == low
    ensures (low + 0x100 * high) / 0x100 == high
  {
  }

  /** Writing what was read gives back the same four bytes: the encoding is
      a bijection between four-byte strings and `[0, 2^32)`. */
  lemma WriteReadU32Le(s: seq<uint8>)
    requires |s| == 4
    ensures WriteU32Le(ReadU32Le(s)) == s
  {
    var h2: nat := s[2] as int + 0x100 * s[3] as int;
    var h1: nat := s[1] as int + 0x100 * h2;
    SplitByte(s[0], h1);
    SplitByte(s[1], h2);
    SplitByte(s[2], s[3]);
  }
}
