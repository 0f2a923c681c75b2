/** Bytes, sectors and the little-endian fields that the drivers read and write in place. */
module Bytes {

  type u8 = x: int | 0 <= x < 256
  type u16 = x: int | 0 <= x < 0x1_0000
  type u32 = x: int | 0 <= x < 0x1_0000_0000

  /** One 512-byte disk sector. */
  type Sector = s: seq<u8> | |s| == 512 witness seq(512, _ => 0)

  datatype Option<+T> = None | Some(value: T)

  function Min(a: int, b: int): int { if a <= b then a else b }

  function Zeros(n: nat): (s: seq<u8>)
    ensures |s| == n
  {
    seq(n, _ => 0)
  }

  /** read_u16 of kernel/fat12.c. */
  function LE16(s: seq<u8>, o: nat): u16
    requires o + 2 <= |s|
  {
    s[o] as int + 256 * s[o + 1] as int
  }

  /** read_u32 of kernel/fat12.c. */
  function LE32(s: seq<u8>, o: nat): u32
    requires o + 4 <= |s|
  {
    s[o] as int + 256 * s[o + 1] as int + 0x1_0000 * s[o + 2] as int + 0x100_0000 * s[o + 3] as int
  }

  /** The low byte comes first. */
  lemma LowByteFirst()
    ensures LE16([0x34, 0x12], 0) == 0x1234 && LE32([0x78, 0x56, 0x34, 0x12], 0) == 0x1234_5678
    ensures PutLE16([0, 0], 0, 0x1234) == [0x34, 0x12] && PutLE32([0, 0, 0, 0], 0, 0x1234_5678) == [0x78, 0x56, 0x34, 0x12]
  {
  }

  /** write_u16 of kernel/fat12.c: two bytes change, low byte first. */
  function PutLE16(s: seq<u8>, o: nat, v: u16): (t: seq<u8>)
    requires o + 2 <= |s|
    ensures |t| == |s|
    ensures LE16(t, o) == v
    ensures forall k :: 0 <= k < |s| && !(o <= k < o + 2) ==> t[k] == s[k]
  {
    s[o := v % 256][o + 1 := v / 256]
  }

  lemma FourDigits(v: u32)
    ensures v == v % 256 + 256 * (v / 256 % 256) + 0x1_0000 * (v / 0x1_0000 % 256) + 0x100_0000 * (v / 0x100_0000)
    ensures v / 0x100_0000 < 256
  {
    var a, b := v / 256, v / 0x1_0000;
    assert b == a / 256 && v / 0x100_0000 == b / 256;
  }

  /** write_u32 of kernel/fat12.c: four bytes change, low byte first. */
  function PutLE32(s: seq<u8>, o: nat, v: u32): (t: seq<u8>)
    requires o + 4 <= |s|
    ensures |t| == |s|
    ensures LE32(t, o) == v
    ensures forall k :: 0 <= k < |s| && !(o <= k < o + 4) ==> t[k] == s[k]
  {
    FourDigits(v);
    s[o := v % 256][o + 1 := v / 256 % 256][o + 2 := v / 0x1_0000 % 256][o + 3 := v / 0x100_0000]
  }
}
