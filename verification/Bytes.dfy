/** Bytes, results and the big-endian integers every wire format of the project uses. */
module Bytes {

  type byte = b: int | 0 <= b < 256

  type u16 = v: int | 0 <= v < 0x1_0000
  type u32 = v: int | 0 <= v < 0x1_0000_0000
  type u64 = v: int | 0 <= v < 0x1_0000_0000_0000_0000

  /** A value, or the exception the source raises instead. */
  datatype Result<+T, +E> = Ok(value: T) | Err(error: E)

  datatype Option<+T> = None | Some(value: T)

  function Repeat<T>(value: T, count: nat): (s: seq<T>)
    ensures |s| == count && forall k :: 0 <= k < count ==> s[k] == value
  {
    if count == 0 then [] else [value] + Repeat(value, count - 1)
  }

  function Pow2(n: nat): (p: nat)
    ensures p > 0
  {
    if n == 0 then 1 else 2 * Pow2(n - 1)
  }

  lemma {:induction false} Pow2Monotone(a: nat, b: nat)
    requires a <= b
    ensures Pow2(a) <= Pow2(b)
    decreases b - a
  {
    if a >= b {
    } else {
      Pow2Monotone(a, b - 1);
    }
  }

  lemma ThirtyTwo()
    ensures Pow2(32) == 0x1_0000_0000
  {
    assert Pow2(4) == 16;
    assert Pow2(8) == 256;
    assert Pow2(12) == 4096;
    assert Pow2(16) == 0x1_0000;
    assert Pow2(20) == 0x10_0000;
    assert Pow2(24) == 0x100_0000;
    assert Pow2(28) == 0x1000_0000;
  }

  lemma DoubleUp(n: nat)
    ensures Pow2(n + 1) == 2 * Pow2(n)
  {
  }

  lemma SixtyFour()
    ensures Pow2(64) == 0x1_0000_0000_0000_0000
  {
    ThirtyTwo();
    assert Pow2(36) == 0x10_0000_0000;
    assert Pow2(40) == 0x100_0000_0000;
    assert Pow2(44) == 0x1000_0000_0000;
    assert Pow2(48) == 0x1_0000_0000_0000;
    assert Pow2(52) == 0x10_0000_0000_0000;
    assert Pow2(56) == 0x100_0000_0000_0000;
    assert Pow2(60) == 0x1000_0000_0000_0000;
  }

  function Pow256(n: nat): (p: nat)
    ensures p > 0
  {
    if n == 0 then 1 else 256 * Pow256(n - 1)
  }

  /** The `n` low-order base-256 digits of `v`, most significant first. */
  function BigEndian(v: nat, n: nat): (s: seq<byte>)
    ensures |s| == n
  {
    if n == 0 then [] else BigEndian(v / 256, n - 1) + [v % 256]
  }

  function FromBigEndian(s: seq<byte>): (v: nat)
    ensures v < Pow256(|s|)
  {
    if |s| == 0 then 0 else FromBigEndian(s[..|s| - 1]) * 256 + s[|s| - 1]
  }

  lemma {:induction false} DecodeBigEndian(v: nat, n: nat)
    requires v < Pow256(n)
    ensures FromBigEndian(BigEndian(v, n)) == v
  {
    if n == 0 {
    } else {
      DecodeBigEndian(v / 256, n - 1);
      assert BigEndian(v, n)[..n - 1] == BigEndian(v / 256, n - 1);
    }
  }

  lemma {:induction false} EncodeBigEndian(s: seq<byte>)
    ensures BigEndian(FromBigEndian(s), |s|) == s
  {
    if |s| == 0 {
    } else {
      EncodeBigEndian(s[..|s| - 1]);
      assert s == s[..|s| - 1] + [s[|s| - 1]];
    }
  }

  lemma Widths()
    ensures Pow256(1) == 0x100
    ensures Pow256(2) == 0x1_0000
    ensures Pow256(4) == 0x1_0000_0000
    ensures Pow256(8) == 0x1_0000_0000_0000_0000
  {
    assert Pow256(3) == 0x100_0000;
    assert Pow256(5) == 0x100_0000_0000;
    assert Pow256(6) == 0x1_0000_0000_0000;
    assert Pow256(7) == 0x100_0000_0000_0000;
  }

  /** `v` shifted right by `k` bytes. */
  function ShiftBytes(v: nat, k: nat): nat {
    if k == 0 then v else ShiftBytes(v / 256, k - 1)
  }

  /** Each digit is one shift and one truncation of the value. */
  lemma {:induction false} BigEndianDigit(v: nat, n: nat, k: nat)
    requires k < n
    ensures BigEndian(v, n)[k] == ShiftBytes(v, n - 1 - k) % 256
  {
    if k >= n - 1 {
    } else {
      BigEndianDigit(v / 256, n - 1, k);
    }
  }

  // ----- the loops that store and accumulate the digits

  method WriteBigEndian(out: array<byte>, offset: nat, value: nat, width: nat)
    requires offset + width <= out.Length
    modifies out
    ensures out[..offset + width] == old(out[..offset]) + BigEndian(value, width)
    ensures forall k :: offset + width <= k < out.Length ==> out[k] == old(out[k])
  {
    for index := 0 to width
      invariant out[..offset] == old(out[..offset])
      invariant out[offset..offset + index] == BigEndian(value, width)[..index]
      invariant forall k :: offset + width <= k < out.Length ==> out[k] == old(out[k])
    {
      BigEndianDigit(value, width, index);
      out[offset + index] := ShiftBytes(value, width - 1 - index) % 256;
      assert out[offset..offset + index + 1] == out[offset..offset + index] + [out[offset + index]];
    }
    assert out[..offset + width] == out[..offset] + out[offset..offset + width];
  }

  method ReadBigEndian(bytes: seq<byte>, offset: nat, width: nat) returns (value: nat)
    requires offset + width <= |bytes|
    ensures value == FromBigEndian(bytes[offset..offset + width])
  {
    value := 0;
    for index := 0 to width
      invariant value == FromBigEndian(bytes[offset..offset + index])
    {
      value := value * 256 + bytes[offset + index];
      assert bytes[offset..offset + index + 1][..index] == bytes[offset..offset + index];
    }
  }
}
