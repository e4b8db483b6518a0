/** Fixed-width integers, byte buffers and the option/result shapes shared by every module. */
module Base {
  datatype Option<+T> = None | Some(value: T)

  datatype IndexError =
    | IndexCorruption
    | UnsupportedVersion(version: nat)
    | QueryParse
    | SlicePanic  // Rust panics when a slice starts after it ends

  datatype Result<+T> = Ok(value: T) | Err(error: IndexError)

  const U32_MAX: int := 0xFFFF_FFFF
  const U32_MODULUS: int := 0x1_0000_0000

  type u8 = x: int | 0 <= x < 0x100
  type u16 = x: int | 0 <= x < 0x1_0000
  type u32 = x: int | 0 <= x < 0x1_0000_0000

  type u64 = x: int | 0 <= x < 0x1_0000_0000_0000_0000

  type bytes = seq<u8>

  function WrappingSub(a: u32, b: u32): u32 {
    if a >= b then a - b else a - b + U32_MODULUS
  }

  function SaturatingAdd(a: u32, b: u32): u32 {
    if a + b <= U32_MAX then a + b else U32_MAX
  }

  // Little-endian fields.

  function LittleEndian(n: nat, width: nat): (b: bytes)
    ensures |b| == width
  {
    if width == 0 then [] else [n % 0x100] + LittleEndian(n / 0x100, width - 1)
  }

  function FromLittleEndian(b: bytes): nat {
    if b == [] then 0 else b[0] + 0x100 * FromLittleEndian(b[1..])
  }

  function Capacity(width: nat): nat {
    if width == 0 then 1 else 0x100 * Capacity(width - 1)
  }

  lemma {:induction false} LittleEndianRead(n: nat, width: nat)
    requires n < Capacity(width)
    ensures FromLittleEndian(LittleEndian(n, width)) == n
  {
    if width > 0 { LittleEndianRead(n / 0x100, width - 1); }
  }

  lemma {:induction false} FromLittleEndianBound(b: bytes)
    ensures FromLittleEndian(b) < Capacity(|b|)
  {
    if b != [] { FromLittleEndianBound(b[1..]); }
  }

  lemma Widths()
    ensures Capacity(2) == 0x1_0000 && Capacity(4) == U32_MODULUS
  {
    assert Capacity(2) == 0x100 * Capacity(1);
    assert Capacity(4) == 0x100 * (0x100 * Capacity(2));
  }

  lemma WideWidth()
    ensures Capacity(8) == 0x1_0000_0000_0000_0000
  {
    Widths();
    assert Capacity(6) == 0x100 * (0x100 * Capacity(4));
    assert Capacity(8) == 0x100 * (0x100 * Capacity(6));
  }

  function U16Bytes(x: u16): (b: bytes)
    ensures |b| == 2
  {
    LittleEndian(x, 2)
  }

  function U32Bytes(x: u32): (b: bytes)
    ensures |b| == 4
  {
    LittleEndian(x, 4)
  }

  function U64Bytes(x: u64): (b: bytes)
    ensures |b| == 8
  {
    LittleEndian(x, 8)
  }

  function ReadU16(b: bytes, at: nat): u16
    requires at + 2 <= |b|
  {
    FromLittleEndianBound(b[at..at + 2]);
    Widths();
    FromLittleEndian(b[at..at + 2])
  }

  function ReadU32(b: bytes, at: nat): u32
    requires at + 4 <= |b|
  {
    FromLittleEndianBound(b[at..at + 4]);
    Widths();
    FromLittleEndian(b[at..at + 4])
  }

  function ReadU64(b: bytes, at: nat): u64
    requires at + 8 <= |b|
  {
    FromLittleEndianBound(b[at..at + 8]);
    WideWidth();
    FromLittleEndian(b[at..at + 8])
  }

  /** A field written at some offset of a buffer is read back from there. */
  lemma ReadU32Written(b: bytes, at: nat, x: u32)
    requires at + 4 <= |b| && b[at..at + 4] == U32Bytes(x)
    ensures ReadU32(b, at) == x
  {
    Widths();
    LittleEndianRead(x, 4);
  }

  lemma ReadU16Written(b: bytes, at: nat, x: u16)
    requires at + 2 <= |b| && b[at..at + 2] == U16Bytes(x)
    ensures ReadU16(b, at) == x
  {
    Widths();
    LittleEndianRead(x, 2);
  }

  lemma ReadU64Written(b: bytes, at: nat, x: u64)
    requires at + 8 <= |b| && b[at..at + 8] == U64Bytes(x)
    ensures ReadU64(b, at) == x
  {
    WideWidth();
    LittleEndianRead(x, 8);
  }

  lemma SubSlice<T>(s: seq<T>, a: nat, b: nat, i: nat, j: nat)
    requires a <= b <= |s| && i <= j <= b - a
    ensures s[a..b][i..j] == s[a + i..a + j]
  {
    var inner, outer := s[a..b][i..j], s[a + i..a + j];
    forall k | 0 <= k < |inner| ensures inner[k] == outer[k] {
    }
  }

  // Sorted lists of numbers.

  ghost predicate Nondecreasing(s: seq<int>) {
    forall i, j :: 0 <= i < j < |s| ==> s[i] <= s[j]
  }

  ghost predicate Increasing(s: seq<int>) {
    forall i, j :: 0 <= i < j < |s| ==> s[i] < s[j]
  }

  /** A strictly increasing list is determined by its elements. */
  lemma {:induction false} IncreasingUnique(a: seq<int>, b: seq<int>)
    requires Increasing(a) && Increasing(b)
    requires forall x :: x in a <==> x in b
    ensures a == b
  {
    assert b != [] ==> b[0] in b;
    if a == [] {
    } else {
      assert a[0] in a && b != [];
      assert b[0] in b;
      assert a[0] == b[0];
      forall x ensures x in a[1..] <==> x in b[1..] {
        if x in a[1..] { assert x in b; assert x != b[0]; }
        if x in b[1..] { assert x in a; assert x != a[0]; }
      }
      IncreasingUnique(a[1..], b[1..]);
    }
  }
}
