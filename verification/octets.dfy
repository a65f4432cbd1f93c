/** Bytes as eight-bit vectors, and the one fact about converting integers to them. */
module Octets {
  /** A byte on the wire. */
  type Byte = bv8

  /** An integer below 256 survives the trip to a byte and back. */
  lemma ByteValue(x: int)
    requires 0 <= x < 256
    ensures (x as Byte) as int == x
  {
  }

  /** A character below 256 survives the trip to a byte and back. */
  lemma CharValue(c: char)
    requires c as int < 256
    ensures (c as Byte) as char == c
  {
    var n := c as int;
    ByteValue(n);
    assert c as Byte == n as Byte;
    assert ((c as Byte) as int) as char == c;
  }

  /** XOR with the same key twice is the identity. */
  lemma XorCancel(x: Byte, k: Byte)
    ensures (x ^ k) ^ k == x
  {
  }
}
