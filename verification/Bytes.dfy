/** Machine integers, byte strings, and the little-endian fields laid out in them. */
module Bytes {
  type u8 = x: int | 0 <= x < 0x100
  type u16 = x: int | 0 <= x < 0x1_0000
  type u32 = x: int | 0 <= x < 0x1_0000_0000
  type u64 = x: int | 0 <= x < 0x1_0000_0000_0000_0000

  // Every supported target is 64-bit, so `usize` and `u64` have the same range.
  const USIZE_LIMIT: int := 0x1_0000_0000_0000_0000
  const U32_LIMIT: int := 0x1_0000_0000

  function Min(a: int, b: int): int {
    if a <= b then a else b
  }

  function Max(a: int, b: int): int {
    if a <= b then b else a
  }

  /** Whether the bit of weight `weight` is set in `x`. */
  predicate HasBit(x: nat, weight: nat)
    requires weight > 0
  {
    x / weight % 2 == 1
  }

  function Zeros(n: nat): seq<u8> {
    seq(n, _ => 0)
  }

  function U16At(d: seq<u8>, at: nat): u16
    requires at + 2 <= |d|
  {
    d[at] as int + 0x100 * (d[at + 1] as int)
  }

  function U32At(d: seq<u8>, at: nat): u32
    requires at + 4 <= |d|
  {
    d[at] as int + 0x100 * (d[at + 1] as int) + 0x1_0000 * (d[at + 2] as int) + 0x100_0000 * (d[at + 3] as int)
  }

  function U64At(d: seq<u8>, at: nat): u64
    requires at + 8 <= |d|
  {
    U32At(d, at) + 0x1_0000_0000 * U32At(d, at + 4)
  }

  function Le16(v: u16): seq<u8> {
    [v % 0x100, v / 0x100]
  }

  function Le32(v: u32): seq<u8> {
    var a := v / 0x100;
    var b := a / 0x100;
    [v % 0x100, a % 0x100, b % 0x100, b / 0x100]
  }

  function Le64(v: u64): seq<u8> {
    Le32(v % 0x1_0000_0000) + Le32(v / 0x1_0000_0000)
  }

  /** `d` with the bytes from `at` on replaced by `v`; nothing else moves. */
  function Overwrite(d: seq<u8>, at: nat, v: seq<u8>): (r: seq<u8>)
    requires at + |v| <= |d|
    ensures |r| == |d|
    ensures forall i {:trigger r[i]} :: 0 <= i < |d| ==> r[i] == if at <= i < at + |v| then v[i - at] else d[i]
  {
    seq(|d|, i requires 0 <= i < |d| => if at <= i < at + |v| then v[i - at] else d[i])
  }

  /** Writing a little-endian field and reading it at the same place gives the value written. */
  lemma ReadBack32(d: seq<u8>, at: nat, v: u32)
    requires at + 4 <= |d|
    ensures U32At(Overwrite(d, at, Le32(v)), at) == v
  {
  }
}
