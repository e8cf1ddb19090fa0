/** Fixed-width integers and their little-endian byte images. */
module Bytes {
  type byte = x: int | 0 <= x < 256
  type u16 = x: int | 0 <= x < 0x1_0000
  type u32 = x: int | 0 <= x < 0x1_0000_0000
  type u64 = x: int | 0 <= x < 0x1_0000_0000_0000_0000

  const U16_SIZE: nat := 0x1_0000
  const U32_SIZE: nat := 0x1_0000_0000
  const U64_SIZE: nat := 0x1_0000_0000_0000_0000

  function Pow256(w: nat): (p: nat)
    ensures p > 0
  {
    if w == 0 then 1 else 256 * Pow256(w - 1)
  }

  /** The low `w` bytes of `n`, least significant first. */
  function ToLe(n: nat, w: nat): (s: seq<byte>)
    ensures |s| == w
  {
    if w == 0 then [] else [n % 256] + ToLe(n / 256, w - 1)
  }

  function FromLe(s: seq<byte>): (n: nat)
    ensures n < Pow256(|s|)
  {
    if s == [] then 0 else s[0] + 256 * FromLe(s[1..])
  }

  lemma {:induction false} FromToLe(n: nat, w: nat)
    requires n < Pow256(w)
    ensures FromLe(ToLe(n, w)) == n
    decreases w
  {
    if w > 0 {
      FromToLe(n / 256, w - 1);
      assert ToLe(n, w)[1..] == ToLe(n / 256, w - 1);
    }
  }

  lemma {:induction false} ToFromLe(s: seq<byte>)
    ensures ToLe(FromLe(s), |s|) == s
  {
    if s != [] {
      ToFromLe(s[1..]);
      assert FromLe(s) / 256 == FromLe(s[1..]);
    }
  }

  function Put16(n: u16): (s: seq<byte>)
    ensures |s| == 2 && Get16(s) == n
  {
    FromToLe(n, 2);
    ToLe(n, 2)
  }

  function Put32(n: u32): (s: seq<byte>)
    ensures |s| == 4 && Get32(s) == n
  {
    FromToLe(n, 4);
    ToLe(n, 4)
  }

  function Put64(n: u64): (s: seq<byte>)
    ensures |s| == 8 && Get64(s) == n
  {
    FromToLe(n, 8);
    ToLe(n, 8)
  }

  function Get16(s: seq<byte>): (n: u16)
    requires |s| == 2
  {
    assert Pow256(2) == U16_SIZE;
    FromLe(s)
  }

  function Get32(s: seq<byte>): (n: u32)
    requires |s| == 4
  {
    assert Pow256(4) == U32_SIZE;
    FromLe(s)
  }

  function Get64(s: seq<byte>): (n: u64)
    requires |s| == 8
  {
    assert Pow256(8) == U64_SIZE;
    FromLe(s)
  }

  lemma PutGet16(s: seq<byte>)
    requires |s| == 2
    ensures Put16(Get16(s)) == s
  {
    ToFromLe(s);
  }

  lemma PutGet32(s: seq<byte>)
    requires |s| == 4
    ensures Put32(Get32(s)) == s
  {
    ToFromLe(s);
  }

  lemma PutGet64(s: seq<byte>)
    requires |s| == 8
    ensures Put64(Get64(s)) == s
  {
    ToFromLe(s);
  }

  lemma SliceOfSlice<T>(s: seq<T>, p: nat, q: nat, i: nat, j: nat)
    requires i <= j && p + j <= q <= |s|
    ensures s[p..q][i..j] == s[p + i..p + j]
  {
    var d := s[p..q];
    forall k | 0 <= k < j - i
      ensures d[i..j][k] == s[p + i..p + j][k]
    {
      assert d[i..j][k] == d[i + k] == s[p + (i + k)];
    }
  }

  // ---------------------------------------------------------------- integers by byte position

  function U16At(s: seq<byte>, i: nat): u16
    requires i + 2 <= |s|
  {
    var b: seq<nat> := [s[i], s[i + 1]];
    b[0] + 0x100 * b[1]
  }

  function U32At(s: seq<byte>, i: nat): u32
    requires i + 4 <= |s|
  {
    var b: seq<nat> := [s[i], s[i + 1], s[i + 2], s[i + 3]];
    b[0] + 0x100 * b[1] + 0x1_0000 * b[2] + 0x100_0000 * b[3]
  }

  function U64At(s: seq<byte>, i: nat): u64
    requires i + 8 <= |s|
  {
    var lo: nat, hi: nat := U32At(s, i), U32At(s, i + 4);
    lo + 0x1_0000_0000 * hi
  }

  lemma FromLeStep(s: seq<byte>, i: nat, j: nat)
    requires i < j <= |s|
    ensures FromLe(s[i..j]) == s[i] + 256 * FromLe(s[i + 1..j])
    ensures FromLe(s[j..j]) == 0
  {
    assert s[i..j][1..] == s[i + 1..j];
  }

  /** Reading is little-endian: the first byte counts least. */
  lemma ReadsLittleEndian(s: seq<byte>, i: nat)
    ensures i + 2 <= |s| ==> Get16(s[i..i + 2]) == U16At(s, i)
    ensures i + 4 <= |s| ==> Get32(s[i..i + 4]) == U32At(s, i)
    ensures i + 8 <= |s| ==> Get64(s[i..i + 8]) == U64At(s, i)
  {
    hide FromLe;
    if i + 2 <= |s| {
      FromLeStep(s, i, i + 2);
      FromLeStep(s, i + 1, i + 2);
    }
    if i + 4 <= |s| {
      FromLeFour(s, i, i + 4);
      FromLeStep(s, i, i + 4);
    }
    if i + 8 <= |s| {
      FromLeFour(s, i, i + 8);
      FromLeFour(s, i + 4, i + 8);
      FromLeStep(s, i, i + 8);
    }
  }

  lemma FromLeFour(s: seq<byte>, i: nat, j: nat)
    requires i + 4 <= j <= |s|
    ensures FromLe(s[i..j]) == U32At(s, i) + 0x1_0000_0000 * FromLe(s[i + 4..j])
  {
    hide FromLe;
    FromLeStep(s, i, j);
    FromLeStep(s, i + 1, j);
    FromLeStep(s, i + 2, j);
    FromLeStep(s, i + 3, j);
  }
}
