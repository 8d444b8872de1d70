/** Bytes and the little-endian integer fields every packet of the library is built from. */
module Bytes {

  type byte = x: int | 0 <= x < 256

  const TWO16: int := 0x1_0000
  const TWO31: int := 0x8000_0000
  const TWO32: int := 0x1_0000_0000
  const TWO63: int := 0x8000_0000_0000_0000
  const TWO64: int := 0x1_0000_0000_0000_0000

  type u16 = x: int | 0 <= x < TWO16
  type u32 = x: int | 0 <= x < TWO32
  type u64 = x: int | 0 <= x < TWO64
  type i32 = x: int | -TWO31 <= x < TWO31
  type i64 = x: int | -TWO63 <= x < TWO63

  /** How far a write to the connection gets before it reports an error, if it does. */
  datatype Write = Complete | Cut(n: nat)

  predicate Succeeds(raw: seq<byte>, w: Write) { w.Cut? ==> w.n > |raw| }

  function Written(raw: seq<byte>, w: Write): seq<byte> {
    if Succeeds(raw, w) then raw else raw[..w.n]
  }

  lemma GetsTo(raw: seq<byte>, n: nat)
    ensures Succeeds(raw, Complete) && Written(raw, Complete) == raw
    ensures n <= |raw| ==> !Succeeds(raw, Cut(n)) && Written(raw, Cut(n)) == raw[..n]
  {}

  function Le16(n: u16): (r: seq<byte>)
    ensures |r| == 2
  {
    [n % 256, n / 256]
  }

  function FromLe16(b: seq<byte>): (n: u16)
    requires |b| == 2
  {
    b[0] as int + 256 * b[1] as int
  }

  function Le32(n: u32): (r: seq<byte>)
    ensures |r| == 4
  {
    Le16(n % TWO16) + Le16(n / TWO16)
  }

  function FromLe32(b: seq<byte>): (n: u32)
    requires |b| == 4
  {
    FromLe16(b[..2]) + TWO16 * FromLe16(b[2..])
  }

  function Le64(n: u64): (r: seq<byte>)
    ensures |r| == 8
  {
    Le32(n % TWO32) + Le32(n / TWO32)
  }

  function FromLe64(b: seq<byte>): (n: u64)
    requires |b| == 8
  {
    FromLe32(b[..4]) + TWO32 * FromLe32(b[4..])
  }

  // ---------------------------------------------------------------------------------------------
  // Fields at fixed places, least significant byte first
  // ---------------------------------------------------------------------------------------------

  function At16(b: seq<byte>, i: nat): int
    requires i + 2 <= |b|
  {
    b[i] as int + 0x100 * b[i+1] as int
  }

  function At32(b: seq<byte>, i: nat): int
    requires i + 4 <= |b|
  {
    b[i] as int + 0x100 * b[i+1] as int + 0x1_0000 * b[i+2] as int + 0x100_0000 * b[i+3] as int
  }

  function At64(b: seq<byte>, i: nat): int
    requires i + 8 <= |b|
  {
    At32(b, i) + 0x1_0000_0000 * At32(b, i + 4)
  }

  lemma FieldAt16(b: seq<byte>, i: nat)
    requires i + 2 <= |b|
    ensures FromLe16(b[i..i+2]) == At16(b, i)
  {}

  lemma FieldAt32(b: seq<byte>, i: nat)
    requires i + 4 <= |b|
    ensures FromLe32(b[i..i+4]) == At32(b, i)
  {}

  lemma FieldAt64(b: seq<byte>, i: nat)
    requires i + 8 <= |b|
    ensures FromLe64(b[i..i+8]) == At64(b, i)
  {
    hide FromLe32, At32;
    FieldAt32(b, i);
    FieldAt32(b, i + 4);
    assert b[i..i+8][..4] == b[i..i+4] && b[i..i+8][4..] == b[i+4..i+8];
  }

  lemma Le32RoundTrip(n: u32)
    ensures FromLe32(Le32(n)) == n
  {
    var b := Le32(n);
    assert b[..2] == Le16(n % TWO16) && b[2..] == Le16(n / TWO16);
  }

  lemma Le64RoundTrip(n: u64)
    ensures FromLe64(Le64(n)) == n
  {
    var b := Le64(n);
    assert b[..4] == Le32(n % TWO32) && b[4..] == Le32(n / TWO32);
    Le32RoundTrip(n % TWO32);
    Le32RoundTrip(n / TWO32);
  }

  lemma FromLe32Inverse(b: seq<byte>)
    requires |b| == 4
    ensures Le32(FromLe32(b)) == b
  {
    var lo, hi := FromLe16(b[..2]), FromLe16(b[2..]);
    assert FromLe32(b) % TWO16 == lo && FromLe32(b) / TWO16 == hi;
    assert Le16(lo) == b[..2] && Le16(hi) == b[2..];
  }

  lemma FromLe64Inverse(b: seq<byte>)
    requires |b| == 8
    ensures Le64(FromLe64(b)) == b
  {
    var lo, hi := FromLe32(b[..4]), FromLe32(b[4..]);
    assert FromLe64(b) % TWO32 == lo && FromLe64(b) / TWO32 == hi;
    FromLe32Inverse(b[..4]);
    FromLe32Inverse(b[4..]);
  }

  /** Go's conversion of a signed 32-bit integer to uint32, and back. */
  function ToU32(n: i32): u32 { n % TWO32 }
  function ToI32(n: u32): i32 { if n < TWO31 then n else n - TWO32 }
  function ToU64(n: i64): u64 { n % TWO64 }
  function ToI64(n: u64): i64 { if n < TWO63 then n else n - TWO64 }
}
