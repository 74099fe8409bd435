/** Bytes, 16-bit words and the two byte orders in which the stack stores them. */
module Bytes {

  type byte = x: int | 0 <= x < 0x100

  type uint16 = x: int | 0 <= x < 0x1_0000

  datatype Option<+T> = None | Some(value: T)

  /** The byte of `x` of weight 1. */
  function Low(x: uint16): byte { x % 0x100 }

  /** The byte of `x` of weight 256. */
  function High(x: uint16): byte { x / 0x100 }

  /** The 16-bit value whose low and high bytes are given. */
  function Join(low: byte, high: byte): uint16 {
    low + 0x100 * high
  }

  /** Big-endian 16-bit field at offset `p`: the network byte order. */
  function Be16(s: seq<byte>, p: nat): uint16
    requires p + 2 <= |s|
  {
    Join(s[p + 1], s[p])
  }

  /** `s` with the big-endian 16-bit field at `p` set to `x`. */
  function SetBe16(s: seq<byte>, p: nat, x: uint16): (r: seq<byte>)
    requires p + 2 <= |s|
    ensures |r| == |s|
    ensures forall k :: 0 <= k < |s| && k != p && k != p + 1 ==> r[k] == s[k]
  {
    s[p := High(x)][p + 1 := Low(x)]
  }
}
