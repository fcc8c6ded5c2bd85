/** Octets, big-endian fields, and the two address types carried on the wire. */
module Octets {
  type u8 = x: int | 0 <= x < 0x100
  type u16 = x: int | 0 <= x < 0x1_0000
  type u32 = x: int | 0 <= x < 0x1_0000_0000

  type Frame = seq<u8>

  type Mac = s: seq<u8> | |s| == 6 witness [0, 0, 0, 0, 0, 0]
  type Ipv4 = s: seq<u8> | |s| == 4 witness [0, 0, 0, 0]

  const BROADCAST_MAC: Mac := [0xFF, 0xFF, 0xFF, 0xFF, 0xFF, 0xFF]
  const ZERO_MAC: Mac := [0, 0, 0, 0, 0, 0]
  const UNSPECIFIED: Ipv4 := [0, 0, 0, 0]

  function Be16(w: u16): (s: seq<u8>)
    ensures |s| == 2
  {
    [w / 0x100, w % 0x100]
  }

  function Word16(high: u8, low: u8): u16 {
    high * 0x100 + low
  }

  function Word32(a: u8, b: u8, c: u8, d: u8): u32 {
    Word16(a, b) * 0x1_0000 + Word16(c, d)
  }

  lemma Word16OfBe16(w: u16)
    ensures Word16(Be16(w)[0], Be16(w)[1]) == w
  {
  }

  lemma Be16OfWord16(high: u8, low: u8)
    ensures Be16(Word16(high, low)) == [high, low]
  {
  }

  /** The octets from `start` on, `count` of them. */
  function Slice(s: Frame, start: nat, count: nat): Frame
    requires start + count <= |s|
  {
    s[start..start + count]
  }

  /** What is left of a frame copied into a buffer of `capacity` octets. */
  function Cut(s: Frame, capacity: nat): Frame {
    if |s| <= capacity then s else s[..capacity]
  }

  /** `target[offset..offset + n].copy_from_slice(source)`. */
  method CopyFromSlice(target: array<u8>, offset: nat, source: seq<u8>)
    requires offset + |source| <= target.Length
    modifies target
    ensures forall i :: 0 <= i < target.Length ==>
      target[i] == if offset <= i < offset + |source| then source[i - offset] else old(target[i])
  {
    forall i | 0 <= i < |source| {
      target[offset + i] := source[i];
    }
  }
}
