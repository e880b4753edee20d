/**
 Fixed-width integers of the C sources, link-layer addresses, and the little-endian layout of a
 16-bit word in memory.
 */
module Bytes {

  type Byte = x: int | 0 <= x < 256

  type U16 = x: int | 0 <= x < 0x1_0000

  /** An Ethernet address; linkaddr_t is one too. */
  type LinkAddr = a: seq<Byte> | |a| == 6 witness [0, 0, 0, 0, 0, 0]

  /** linkaddr_null, linkaddr6_null */
  const NULL_ADDR: LinkAddr := [0, 0, 0, 0, 0, 0]

  datatype Option<+T> = None | Some(value: T)

  /** The two bytes a little-endian core stores for a uint16_t. */
  function Le16(n: U16): (s: seq<Byte>)
    ensures |s| == 2
  {
    [n % 256, n / 256]
  }

  /** The uint16_t a little-endian core loads from offset `at`. */
  function Load16(s: seq<Byte>, at: nat): U16
    requires at + 2 <= |s|
  {
    s[at] as int + 256 * s[at + 1] as int
  }
}
