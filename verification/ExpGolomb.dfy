/** Bits of a byte string, and the unsigned Exp-Golomb codes of section 9.1 of ITU-T H.264. */
module ExpGolomb {
  import opened Bytes

  type bit = b: int | 0 <= b < 2

  datatype BitError = TruncatedHeader | CodeOverflow

  /** The `n` low-order bits of `v`, most significant first. */
  function Binary(v: nat, n: nat): (s: seq<bit>)
    ensures |s| == n
  {
    if n == 0 then [] else Binary(v / 2, n - 1) + [v % 2]
  }

  function FromBinary(s: seq<bit>): (v: nat)
    ensures v < Pow2(|s|)
  {
    if |s| == 0 then 0 else FromBinary(s[..|s| - 1]) * 2 + s[|s| - 1]
  }

  lemma {:induction false} DecodeBinary(v: nat, n: nat)
    requires v < Pow2(n)
    ensures FromBinary(Binary(v, n)) == v
  {
    if n == 0 {
    } else {
      DecodeBinary(v / 2, n - 1);
      assert Binary(v, n)[..n - 1] == Binary(v / 2, n - 1);
    }
  }

  lemma {:induction false} EncodeBinary(s: seq<bit>)
    ensures Binary(FromBinary(s), |s|) == s
  {
    if |s| == 0 {
    } else {
      EncodeBinary(s[..|s| - 1]);
      assert s == s[..|s| - 1] + [s[|s| - 1]];
    }
  }

  // ----- codes

  /** The number of binary digits of `x`, less one. */
  function Log2(x: nat): (n: nat)
    requires x > 0
    ensures Pow2(n) <= x < 2 * Pow2(n)
  {
    if x == 1 then 0 else 1 + Log2(x / 2)
  }

  /** ue(v): as many zeros as `v + 1` has digits after its first, then `v + 1`. */
  function UeCode(v: nat): seq<bit> {
    var n := Log2(v + 1);
    Repeat<bit>(0, n) + [1] + Binary(v + 1 - Pow2(n), n)
  }

  lemma {:induction false} Log2Unique(x: nat, n: nat)
    requires Pow2(n) <= x < 2 * Pow2(n)
    ensures Log2(x) == n
  {
    if n == 0 {
    } else {
      Log2Unique(x / 2, n - 1);
    }
  }

  // ----- reading a code

  function SuffixOf(bits: seq<bit>, offset: nat, leading: nat): Result<(nat, nat), BitError> {
    if offset + leading > |bits| then Err(TruncatedHeader)
    else Ok((Pow2(leading) - 1 + FromBinary(bits[offset..offset + leading]), offset + leading))
  }

  /** `read_ue` with `leading` zeros already read: the value and the offset behind the code. */
  function UeFrom(bits: seq<bit>, offset: nat, leading: nat): Result<(nat, nat), BitError>
    decreases |bits| - offset
  {
    if offset >= |bits| then Err(TruncatedHeader)
    else if bits[offset] == 0 then
      if leading + 1 > 31 then Err(CodeOverflow) else UeFrom(bits, offset + 1, leading + 1)
    else SuffixOf(bits, offset + 1, leading)
  }

  function Ue(bits: seq<bit>, offset: nat): Result<(nat, nat), BitError> {
    UeFrom(bits, offset, 0)
  }

  /** Reading over the zeros of a code. */
  lemma {:induction false} UeOverZeros(bits: seq<bit>, offset: nat, leading: nat, n: nat)
    requires leading <= n && offset + (n - leading) < |bits|
    requires forall k :: offset <= k < offset + (n - leading) ==> bits[k] == 0
    requires bits[offset + (n - leading)] == 1 && leading <= 31
    ensures UeFrom(bits, offset, leading) ==
            if n <= 31 then SuffixOf(bits, offset + (n - leading) + 1, n) else Err(CodeOverflow)
    decreases n - leading
  {
    if leading < n && leading + 1 <= 31 {
      UeOverZeros(bits, offset + 1, leading + 1, n);
    }
  }

  /**
    A code of a value up to 2^32 - 2 reads back as the value, and exactly its bits are
    consumed; the codes of larger values are refused.
   */
  lemma UeReadsCode(before: seq<bit>, v: nat, after: seq<bit>)
    ensures Ue(before + UeCode(v) + after, |before|) ==
            if v <= 0xFFFF_FFFE then Ok((v, |before| + |UeCode(v)|)) else Err(CodeOverflow)
  {
    hide UeCode, Ue, Log2, Binary, Pow2;
    CodeBits(before, v, after);
    UeReadsAt(before + UeCode(v) + after, |before|, v);
  }

  lemma UeReadsAt(bits: seq<bit>, at: nat, v: nat)
    requires var n := Log2(v + 1);
             && at + n + 1 + n <= |bits|
             && (forall k :: at <= k < at + n ==> bits[k] == 0) && bits[at + n] == 1
             && bits[at + n + 1..at + n + 1 + n] == Binary(v + 1 - Pow2(n), n)
    ensures Ue(bits, at) ==
            if v <= 0xFFFF_FFFE then Ok((v, at + 2 * Log2(v + 1) + 1)) else Err(CodeOverflow)
  {
    hide UeFrom, Log2, Binary, Pow2, FromBinary;
    var n := Log2(v + 1);
    UeOverZeros(bits, at, 0, n);
    DecodeBinary(v + 1 - Pow2(n), n);
    ThirtyTwo();
    DoubleUp(n);
    if n <= 31 {
      Pow2Monotone(n + 1, 32);
    } else {
      Pow2Monotone(32, n);
    }
  }

  lemma CodeBits(before: seq<bit>, v: nat, after: seq<bit>)
    ensures var n, bits, at := Log2(v + 1), before + UeCode(v) + after, |before|;
            && |UeCode(v)| == n + 1 + n
            && (forall k :: at <= k < at + n ==> bits[k] == 0) && bits[at + n] == 1
            && bits[at + n + 1..at + n + 1 + n] == Binary(v + 1 - Pow2(n), n)
  {
  }

  /** Zeros, a one and as many more bits are the code of the value they are read as. */
  lemma {:induction false} SuffixIsCode(bits: seq<bit>, start: nat, leading: nat)
    requires leading <= 31 && start + leading + 1 + leading <= |bits|
    requires bits[start..start + leading] == Repeat<bit>(0, leading) && bits[start + leading] == 1
    ensures var suffix := bits[start + leading + 1..start + leading + 1 + leading];
            var v := Pow2(leading) - 1 + FromBinary(suffix);
            v <= 0xFFFF_FFFE && bits[start..start + leading + 1 + leading] == UeCode(v)
  {
    hide Pow2, Log2, Binary, FromBinary, Repeat;
    var suffix := bits[start + leading + 1..start + leading + 1 + leading];
    var v := Pow2(leading) - 1 + FromBinary(suffix);
    DoubleUp(leading);
    Log2Unique(v + 1, leading);
    EncodeBinary(suffix);
    ThirtyTwo();
    Pow2Monotone(leading + 1, 32);
  }

  /** Whatever is read was a code: the bits consumed are the code of the value, which fits 32 bits. */
  lemma {:induction false} UeReadsOnlyCodes(bits: seq<bit>, offset: nat, leading: nat)
    requires leading <= 31 && leading <= offset <= |bits| && UeFrom(bits, offset, leading).Ok?
    requires bits[offset - leading..offset] == Repeat<bit>(0, leading)
    ensures var (v, end) := UeFrom(bits, offset, leading).value;
            v <= 0xFFFF_FFFE && offset < end <= |bits| && bits[offset - leading..end] == UeCode(v)
    decreases |bits| - offset
  {
    hide UeCode, Pow2, FromBinary;
    if bits[offset] == 0 {
      assert bits[offset - leading..offset + 1] == bits[offset - leading..offset] + [0];
      assert Repeat<bit>(0, leading) + [0] == Repeat<bit>(0, leading + 1);
      UeReadsOnlyCodes(bits, offset + 1, leading + 1);
    } else {
      SuffixIsCode(bits, offset - leading, leading);
    }
  }
}
