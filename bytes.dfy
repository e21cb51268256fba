/** Fixed-width unsigned values and the byte-order helpers shared by the model. */
module Bytes {

  /** An unsigned 8-bit value (`unsigned char`, `u_int8_t`). */
  type byte = x: int | 0 <= x < 0x100

  /** An unsigned 16-bit value (`unsigned short`, `u_int16_t`). */
  type u16 = x: int | 0 <= x < 0x1_0000

  /** The two bytes of v in network (big-endian) order, as `htons` lays them out. */
  function BigEndian16(v: u16): (r: seq<byte>)
    ensures |r| == 2 && (r[0] as int) * 0x100 + r[1] == v
  {
    [v / 0x100, v % 0x100]
  }

  /** The big-endian 16-bit value at offset i (what `ntohs` reads). */
  function BigEndian16At(h: seq<byte>, i: nat): u16
    requires i + 1 < |h|
  {
    (h[i] as int) * 0x100 + h[i + 1]
  }

  /** The little-endian 16-bit value at offset i (a host-order `unsigned short` read). */
  function LittleEndian16At(h: seq<byte>, i: nat): u16
    requires i + 1 < |h|
  {
    h[i] + (h[i + 1] as int) * 0x100
  }
}
