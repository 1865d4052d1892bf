/** Little-endian field decoding shared by the binary file readers of this model. */
module Bytes {
  /** The bytes of an ASCII string literal. */
  function Ascii(s: string): (r: seq<bv8>)
    requires forall i | 0 <= i < |s| :: s[i] as int < 256
    ensures |r| == |s|
  {
    seq(|s|, i requires 0 <= i < |s| => (s[i] as int) as bv8)
  }

  /** A little-endian `uint16_t` field. */
  function U16At(data: seq<bv8>, pos: nat): (v: nat)
    requires pos + 2 <= |data|
    ensures v < 0x1_0000
  {
    data[pos] as nat + 0x100 * data[pos + 1] as nat
  }

  /** A little-endian two's-complement `int16_t` field. */
  function I16At(data: seq<bv8>, pos: nat): (v: int)
    requires pos + 2 <= |data|
    ensures -0x8000 <= v < 0x8000
  {
    var u := U16At(data, pos);
    if u >= 0x8000 then u - 0x1_0000 else u
  }

  /** A little-endian `uint32_t` field. */
  function U32At(data: seq<bv8>, pos: nat): (v: nat)
    requires pos + 4 <= |data|
    ensures v < 0x1_0000_0000
  {
    U16At(data, pos) + 0x1_0000 * U16At(data, pos + 2)
  }
}
