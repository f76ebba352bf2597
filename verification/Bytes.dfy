/** Bytes, machine words and the big- and little-endian fields the kernel reads and writes. */
module Bytes {
  type byte = x: int | 0 <= x < 0x100
  type u16 = x: int | 0 <= x < 0x1_0000
  type u32 = x: int | 0 <= x < 0x1_0000_0000

  const TWO32: int := 0x1_0000_0000

  /** The byte sequence `b` with `data` copied over it at offset `off`. */
  function Splice<T>(b: seq<T>, off: nat, data: seq<T>): (r: seq<T>)
    requires off + |data| <= |b|
    ensures |r| == |b|
    ensures forall i :: 0 <= i < |b| ==> r[i] == if off <= i < off + |data| then data[i - off] else b[i]
  {
    b[..off] + data + b[off + |data|..]
  }

  function Be16(v: u16): (r: seq<byte>)
    ensures |r| == 2 && r[0] as int * 0x100 + r[1] == v
  {
    [v / 0x100, v % 0x100]
  }

  function Be32(v: u32): (r: seq<byte>)
    ensures |r| == 4
    ensures r[0] as int * 0x100_0000 + r[1] as int * 0x1_0000 + r[2] as int * 0x100 + r[3] == v
  {
    [v / 0x100 / 0x100 / 0x100, v / 0x100 / 0x100 % 0x100, v / 0x100 % 0x100, v % 0x100]
  }

  function ReadBe16(b: seq<byte>, off: nat): u16
    requires off + 2 <= |b|
  {
    b[off] as int * 0x100 + b[off + 1]
  }

  function ReadBe32(b: seq<byte>, off: nat): u32
    requires off + 4 <= |b|
  {
    b[off] as int * 0x100_0000 + b[off + 1] as int * 0x1_0000 + b[off + 2] as int * 0x100 + b[off + 3]
  }

  function Le32(v: u32): (r: seq<byte>)
    ensures |r| == 4
    ensures r[3] as int * 0x100_0000 + r[2] as int * 0x1_0000 + r[1] as int * 0x100 + r[0] == v
  {
    [v % 0x100, v / 0x100 % 0x100, v / 0x100 / 0x100 % 0x100, v / 0x100 / 0x100 / 0x100]
  }

  function ReadLe32(b: seq<byte>, off: nat): u32
    requires off + 4 <= |b|
  {
    b[off] as int + b[off + 1] as int * 0x100 + b[off + 2] as int * 0x1_0000 + b[off + 3] as int * 0x100_0000
  }

  function Le16(v: u16): (r: seq<byte>)
    ensures |r| == 2 && r[1] as int * 0x100 + r[0] == v
  {
    [v % 0x100, v / 0x100]
  }

  function ReadLe16(b: seq<byte>, off: nat): u16
    requires off + 2 <= |b|
  {
    b[off] as int + b[off + 1] as int * 0x100
  }

  /** What is appended last is at the end. */
  lemma TailOf(front: seq<byte>, last: seq<byte>, r: seq<byte>)
    requires r == front + last
    ensures r[|front|..|r|] == last
  {
  }

  lemma FieldRoundTrip16(b: seq<byte>, off: nat, v: u16)
    requires off + 2 <= |b|
    ensures b[off..off + 2] == Be16(v) ==> ReadBe16(b, off) == v
    ensures b[off..off + 2] == Le16(v) ==> ReadLe16(b, off) == v
  {
    assert b[off..off + 2][0] == b[off] && b[off..off + 2][1] == b[off + 1];
  }

  lemma FieldRoundTrip32(b: seq<byte>, off: nat, v: u32)
    requires off + 4 <= |b|
    ensures b[off..off + 4] == Be32(v) ==> ReadBe32(b, off) == v
    ensures b[off..off + 4] == Le32(v) ==> ReadLe32(b, off) == v
  {
    var s := b[off..off + 4];
    assert s[0] == b[off] && s[1] == b[off + 1] && s[2] == b[off + 2] && s[3] == b[off + 3];
  }
}
