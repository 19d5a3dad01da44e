// Bytes, fixed-width integers as they are laid out in a file, and in-place
// writes on sequences.
module Bytes {
  type byte = x: int | 0 <= x < 256

  const INT32_MIN: int := -0x8000_0000
  const INT32_MAX: int := 0x7FFF_FFFF
  const UINT16_MAX: int := 0xFFFF

  function Min(a: int, b: int): int {
    if a < b then a else b
  }

  function Max(a: int, b: int): int {
    if a < b then b else a
  }

  // `mem` with `data` written over it from position `at` on.
  function Splice(mem: seq<byte>, at: nat, data: seq<byte>): (r: seq<byte>)
    requires at + |data| <= |mem|
    ensures |r| == |mem|
  {
    mem[..at] + data + mem[at + |data|..]
  }

  lemma SpliceAt(mem: seq<byte>, at: nat, data: seq<byte>)
    requires at + |data| <= |mem|
    ensures Splice(mem, at, data)[at..at + |data|] == data
    ensures forall a :: 0 <= a < |mem| ==>
              Splice(mem, at, data)[a] == if at <= a < at + |data| then data[a - at] else mem[a]
  {
  }

  lemma SpliceTail(mem: seq<byte>, at: nat, data: seq<byte>)
    requires at + |data| <= |mem|
    ensures Splice(mem, at, data)[at..] == data + mem[at + |data|..]
  {
  }

  lemma SpliceNothing(mem: seq<byte>, at: nat)
    requires at <= |mem|
    ensures Splice(mem, at, []) == mem
  {
  }

  lemma SpliceAppend(mem: seq<byte>, at: nat, data: seq<byte>, b: byte)
    requires at + |data| < |mem|
    ensures Splice(mem, at, data)[at + |data| := b] == Splice(mem, at, data + [b])
  {
  }

  // A 16-bit value in little-endian order.
  function Le16(v: int): (b: seq<byte>)
    requires 0 <= v <= UINT16_MAX
    ensures |b| == 2
  {
    [v % 256, v / 256]
  }

  function FromLe16(b: seq<byte>): (v: int)
    requires |b| == 2
    ensures 0 <= v <= UINT16_MAX
  {
    var lo: int, hi: int := b[0], b[1];
    lo + 256 * hi
  }

  // A 32-bit two's complement value in little-endian order.
  function Le32(v: int): (b: seq<byte>)
    requires INT32_MIN <= v <= INT32_MAX
    ensures |b| == 4
  {
    var u := if v < 0 then v + 0x1_0000_0000 else v;
    var u1 := u / 256;
    var u2 := u1 / 256;
    [u % 256, u1 % 256, u2 % 256, u2 / 256]
  }

  function FromLe32(b: seq<byte>): (v: int)
    requires |b| == 4
    ensures INT32_MIN <= v <= INT32_MAX
  {
    var b0: int, b1: int, b2: int, b3: int := b[0], b[1], b[2], b[3];
    var u := b0 + 256 * (b1 + 256 * (b2 + 256 * b3));
    if u >= 0x8000_0000 then u - 0x1_0000_0000 else u
  }

  // Every byte weighs 256 times as much as the one before it; a 32-bit value of
  // which the highest bit is set counts as negative.
  lemma Positional(b: seq<byte>)
    ensures |b| == 2 ==> FromLe16(b) == b[0] as int + b[1] as int * 0x100
    ensures |b| == 4 ==>
              FromLe32(b) == b[0] as int + b[1] as int * 0x100 + b[2] as int * 0x1_0000 + b[3] as int * 0x100_0000
                             - if b[3] >= 128 then 0x1_0000_0000 else 0
  {
  }

  lemma Le32RoundTrip(v: int)
    requires INT32_MIN <= v <= INT32_MAX
    ensures FromLe32(Le32(v)) == v
  {
  }

  lemma Le16RoundTrip(v: int)
    requires 0 <= v <= UINT16_MAX
    ensures FromLe16(Le16(v)) == v
  {
  }
}
