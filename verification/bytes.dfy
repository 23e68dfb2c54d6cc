/**
 Bytes and fixed-width little-endian unsigned integers.

 The kernel reads the ELF header and the program-header table by
 reinterpreting raw memory on a little-endian machine (x86-64). This module
 makes that reinterpretation explicit: a field of `n` bytes is the
 little-endian number those bytes spell, and encoding a number back into
 `n` bytes is its exact inverse.
 */
module Bytes {

  type Byte = x: int | 0 <= x < 0x100
  type U16 = x: int | 0 <= x < 0x1_0000
  type U32 = x: int | 0 <= x < 0x1_0000_0000
  type U64 = x: int | 0 <= x < 0x1_0000_0000_0000_0000

  /** 256 to the power `n`: the number of values an `n`-byte field can hold. */
  function Pow256(n: nat): (p: nat)
    ensures p >= 1
  {
    if n == 0 then 1 else 256 * Pow256(n - 1)
  }

  lemma Pow256Widths()
    ensures Pow256(2) == 0x1_0000
    ensures Pow256(4) == 0x1_0000_0000
    ensures Pow256(8) == 0x1_0000_0000_0000_0000
  {
  }

  /** The number spelled by `s`, least significant byte first. */
  function FromLe(s: seq<Byte>): (v: nat)
    ensures v < Pow256(|s|)
  {
    if |s| == 0 then 0 else s[0] + 256 * FromLe(s[1..])
  }

  /** The `n` bytes that spell `v`, least significant byte first. */
  function ToLe(v: nat, n: nat): (s: seq<Byte>)
    requires v < Pow256(n)
    ensures |s| == n
    ensures n > 0 ==> s[0] == v % 256
  {
    if n == 0 then [] else [v % 256] + ToLe(v / 256, n - 1)
  }

  /** Decoding an encoded number gives the number back. */
  lemma {:induction false} FromLeToLe(v: nat, n: nat)
    requires v < Pow256(n)
    ensures FromLe(ToLe(v, n)) == v
  {
    if n > 0 {
      var s := ToLe(v, n);
      assert s[1..] == ToLe(v / 256, n - 1);
      FromLeToLe(v / 256, n - 1);
    }
  }

  /** Encoding a decoded field gives the same bytes back. */
  lemma {:induction false} ToLeFromLe(s: seq<Byte>)
    ensures ToLe(FromLe(s), |s|) == s
  {
    if |s| > 0 {
      var v := FromLe(s);
      assert v % 256 == s[0] && v / 256 == FromLe(s[1..]);
      ToLeFromLe(s[1..]);
      assert s == [s[0]] + s[1..];
    }
  }

  /** Two fields of the same width that decode to the same number are the same bytes. */
  lemma FromLeInjective(s: seq<Byte>, t: seq<Byte>)
    requires |s| == |t|
    requires FromLe(s) == FromLe(t)
    ensures s == t
  {
    ToLeFromLe(s);
    ToLeFromLe(t);
  }

  /** The unsigned 16-bit little-endian field at bytes `off .. off+2` of `buf`. */
  function ReadU16(buf: seq<Byte>, off: nat): (v: U16)
    requires off + 2 <= |buf|
  {
    Pow256Widths();
    FromLe(buf[off..off + 2])
  }

  /** The unsigned 32-bit little-endian field at bytes `off .. off+4` of `buf`. */
  function ReadU32(buf: seq<Byte>, off: nat): (v: U32)
    requires off + 4 <= |buf|
  {
    Pow256Widths();
    FromLe(buf[off..off + 4])
  }

  /** The unsigned 64-bit little-endian field at bytes `off .. off+8` of `buf`. */
  function ReadU64(buf: seq<Byte>, off: nat): (v: U64)
    requires off + 8 <= |buf|
  {
    Pow256Widths();
    FromLe(buf[off..off + 8])
  }

  function WriteU16(v: U16): (s: seq<Byte>)
    ensures |s| == 2 && FromLe(s) == v
  {
    Pow256Widths();
    FromLeToLe(v, 2);
    ToLe(v, 2)
  }

  function WriteU32(v: U32): (s: seq<Byte>)
    ensures |s| == 4 && FromLe(s) == v
  {
    Pow256Widths();
    FromLeToLe(v, 4);
    ToLe(v, 4)
  }

  function WriteU64(v: U64): (s: seq<Byte>)
    ensures |s| == 8 && FromLe(s) == v
  {
    Pow256Widths();
    FromLeToLe(v, 8);
    ToLe(v, 8)
  }

  /** A slice of a slice is a slice of the original. */
  lemma SliceOfSlice<T>(s: seq<T>, a: nat, b: nat, c: nat, d: nat)
    requires a <= b <= |s| && c <= d <= b - a
    ensures s[a..b][c..d] == s[a + c..a + d]
  {
    forall k | 0 <= k < d - c
      ensures s[a..b][c..d][k] == s[a + c..a + d][k]
    {
      assert s[a..b][c..d][k] == s[a..b][c + k] == s[a + c + k];
    }
  }
}
