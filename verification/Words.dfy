/** Machine words: bounded naturals, with the wrap-around of their arithmetic written out. */
module Words {

  type uint8 = x: nat | x < 0x100
  type uint16 = x: nat | x < 0x1_0000
  type uint32 = x: nat | x < 0x1_0000_0000

  type byte = uint8

  const MAX_UINT32: uint32 := 0xFFFF_FFFF

  function AddU8(a: uint8, b: uint8): (r: uint8) {
    if a + b < 0x100 then a + b else a + b - 0x100
  }

  function SubU8(a: uint8, b: uint8): (r: uint8) {
    if b <= a then a - b else a - b + 0x100
  }

  function AddU16(a: uint16, b: uint16): (r: uint16) {
    if a + b < 0x1_0000 then a + b else a + b - 0x1_0000
  }

  function SubU16(a: uint16, b: uint16): (r: uint16) {
    if b <= a then a - b else a - b + 0x1_0000
  }

  function Zeros(n: nat): (r: seq<byte>)
    ensures |r| == n && forall i :: 0 <= i < n ==> r[i] == 0
  {
    seq(n, i => 0)
  }
}
