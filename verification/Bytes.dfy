/** Bytes and little-endian words. */
module Bytes {
  type Byte = b: int | 0 <= b < 256

  function U16(s: seq<Byte>, i: nat): (n: nat)
    requires i + 2 <= |s|
    ensures n < 0x1_0000
  {
    s[i] as int + 0x100 * s[i + 1] as int
  }

  function U32(s: seq<Byte>, i: nat): (n: nat)
    requires i + 4 <= |s|
    ensures n < 0x1_0000_0000
  {
    U16(s, i) + 0x1_0000 * U16(s, i + 2)
  }
}
