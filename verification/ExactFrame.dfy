/** The lab's exact frame: a 44-byte header, the PackBits payload, and an FNV-1a checksum of the raw bytes. */
module ExactFrame {
  import opened Bytes
  import opened PackBits

  const HEADER := 44
  const MAGIC: seq<byte> := [0x4C, 0x44, 0x54, 0x43]
  const FNV_OFFSET: u64 := 0xCBF2_9CE4_8422_2325
  const FNV_PRIME := 0x100_0000_01B3

  // ----- checksum

  function Xor(a: nat, b: nat): nat
    decreases a + b
  {
    if a == 0 && b == 0 then 0 else 2 * Xor(a / 2, b / 2) + (a + b) % 2
  }

  function FnvStep(value: u64, b: byte): u64 {
    Xor(value, b) * FNV_PRIME % 0x1_0000_0000_0000_0000
  }

  function FnvFrom(value: u64, data: seq<byte>): u64 {
    if data == [] then value else FnvStep(FnvFrom(value, data[..|data| - 1]), data[|data| - 1])
  }

  function Fnv1a(data: seq<byte>): u64 {
    FnvFrom(FNV_OFFSET, data)
  }

  method Checksum(data: seq<byte>) returns (value: u64)
    ensures value == Fnv1a(data)
  {
    value := FNV_OFFSET;
    for i := 0 to |data|
      invariant value == FnvFrom(FNV_OFFSET, data[..i])
    {
      assert data[..i + 1][..i] == data[..i];
      value := FnvStep(value, data[i]);
    }
    assert data[..|data|] == data;
  }

  // ----- what the checksum tells apart

  const MODULUS := 0x1_0000_0000_0000_0000
  /** FNV_PRIME * PRIME_INVERSE == 887285111055 * MODULUS + 1. */
  const PRIME_INVERSE := 0xCE96_5057_AFF6_957B

  lemma {:induction false} XorBound(a: nat, b: nat, n: nat)
    requires a < Pow2(n) && b < Pow2(n)
    ensures Xor(a, b) < Pow2(n)
  {
    if n == 0 {
    } else {
      XorBound(a / 2, b / 2, n - 1);
    }
  }

  lemma {:induction false} XorCancels(a: nat, c: nat, b: nat)
    requires Xor(a, b) == Xor(c, b)
    ensures a == c
    decreases a + b + c
  {
    if a == 0 && b == 0 && c == 0 {
    } else {
      hide Xor;
      XorUnfold(a, b);
      XorUnfold(c, b);
      XorCancels(a / 2, c / 2, b / 2);
      SameHalves(a, c, b);
    }
  }

  lemma SameHalves(a: nat, c: nat, b: nat)
    requires a / 2 == c / 2 && (a + b) % 2 == (c + b) % 2
    ensures a == c
  {
  }

  lemma XorUnfold(a: nat, b: nat)
    ensures Xor(a, b) == 2 * Xor(a / 2, b / 2) + (a + b) % 2
  {
  }

  lemma {:induction false} XorCommutes(a: nat, b: nat)
    ensures Xor(a, b) == Xor(b, a)
    decreases a + b
  {
    if a == 0 && b == 0 {
    } else {
      XorCommutes(a / 2, b / 2);
    }
  }

  /** Multiplication by the prime loses nothing. */
  lemma TimesPrimeCancels(x: nat, y: nat)
    requires x < MODULUS && y < MODULUS && x * FNV_PRIME % MODULUS == y * FNV_PRIME % MODULUS
    ensures x == y
  {
    var k, l := x * FNV_PRIME / MODULUS, y * FNV_PRIME / MODULUS;
    var d := x - y;
    assert d * FNV_PRIME == (k - l) * MODULUS;
    assert FNV_PRIME * PRIME_INVERSE == 887285111055 * MODULUS + 1;
    assert d == MODULUS * ((k - l) * PRIME_INVERSE - d * 887285111055);
  }

  /** A step of the checksum is injective in the value and in the byte. */
  lemma FnvStepCancels(v: u64, b: byte, w: u64, c: byte)
    requires FnvStep(v, b) == FnvStep(w, c) && (v == w || b == c)
    ensures v == w && b == c
  {
    hide Xor;
    SixtyFour();
    XorBound(v, b, 64);
    XorBound(w, c, 64);
    TimesPrimeCancels(Xor(v, b), Xor(w, c));
    if v == w {
      XorCommutes(v, b);
      XorCommutes(w, c);
      XorCancels(b, c, v);
    } else {
      XorCancels(v, w, b);
    }
  }

  predicate DiffersOnlyAt(a: seq<byte>, b: seq<byte>, i: nat) {
    i < |a| == |b| && a[i] != b[i] && forall k :: 0 <= k < |a| && k != i ==> a[k] == b[k]
  }

  /** Replacing any one byte changes the checksum. */
  lemma {:induction false} OneByteTells(value: u64, a: seq<byte>, b: seq<byte>, i: nat)
    requires DiffersOnlyAt(a, b, i)
    ensures FnvFrom(value, a) != FnvFrom(value, b)
    decreases |a|
  {
    hide FnvStep;
    var last := |a| - 1;
    var v, w := FnvFrom(value, a[..last]), FnvFrom(value, b[..last]);
    if i == last {
      assert a[..last] == b[..last];
    } else {
      OneByteTells(value, a[..last], b[..last], i);
    }
    if FnvStep(v, a[last]) == FnvStep(w, b[last]) {
      FnvStepCancels(v, a[last], w, b[last]);
    }
  }

  /** A published test vector of the 64-bit FNV-1a hash, for the letter a. */
  lemma FnvOfLetterA()
    ensures Fnv1a([]) == 0xCBF2_9CE4_8422_2325 && Fnv1a([0x61]) == 0xAF63_DC4C_8601_EC8C
  {
    hide Xor;
    assert [0x61][..0] == [];
    XorWithByte(0xCB_F29C_E484_2223, 0x25, 0x61);
    XorOf25And61();
  }

  lemma XorOf25And61()
    ensures Xor(0x25, 0x61) == 0x44
  {
    assert Xor(0, 0) == 0;
    assert Xor(0, 1) == 1;
    assert Xor(1, 3) == 2;
    assert Xor(2, 6) == 4;
    assert Xor(4, 12) == 8;
    assert Xor(9, 24) == 17;
    assert Xor(0x12, 0x30) == 0x22;
  }

  lemma {:induction false} XorZero(a: nat)
    ensures Xor(a, 0) == a
  {
    if a == 0 {
    } else {
      XorZero(a / 2);
    }
  }

  function ShiftLeft(v: nat, n: nat): nat {
    if n == 0 then v else 2 * ShiftLeft(v, n - 1)
  }

  /** Only the low byte changes. */
  lemma XorWithByte(high: nat, low: byte, b: byte)
    ensures Xor(high * 256 + low, b) == high * 256 + Xor(low, b)
  {
    hide Xor;
    assert Pow2(8) == 256 by { assert Pow2(4) == 16; }
    assert ShiftLeft(high, 1) == 2 * high;
    assert ShiftLeft(high, 2) == 4 * high;
    assert ShiftLeft(high, 4) == 16 * high;
    assert ShiftLeft(high, 6) == 64 * high;
    assert ShiftLeft(high, 8) == 256 * high;
    XorShift(high, low, b, 8);
  }

  lemma {:induction false} XorShift(high: nat, low: nat, b: nat, n: nat)
    requires low < Pow2(n) && b < Pow2(n)
    ensures Xor(ShiftLeft(high, n) + low, b) == ShiftLeft(high, n) + Xor(low, b)
  {
    hide Xor;
    if n == 0 {
      XorZero(high);
      XorZero(0);
    } else {
      hide ShiftLeft;
      HalfShifted(high, low, b, n);
      XorUnfold(ShiftLeft(high, n) + low, b);
      XorUnfold(low, b);
      XorShift(high, low / 2, b / 2, n - 1);
    }
  }

  lemma HalfShifted(high: nat, low: nat, b: nat, n: nat)
    requires n > 0
    ensures (ShiftLeft(high, n) + low) / 2 == ShiftLeft(high, n - 1) + low / 2
    ensures (ShiftLeft(high, n) + low + b) % 2 == (low + b) % 2
    ensures ShiftLeft(high, n) == 2 * ShiftLeft(high, n - 1)
  {
    ShiftOnce(high, n);
    hide ShiftLeft;
    HalfOfDouble(ShiftLeft(high, n - 1), low, b);
  }

  lemma ShiftOnce(high: nat, n: nat)
    requires n > 0
    ensures ShiftLeft(high, n) == 2 * ShiftLeft(high, n - 1)
  {
  }

  lemma HalfOfDouble(x: nat, low: nat, b: nat)
    ensures (2 * x + low) / 2 == x + low / 2 && (2 * x + low + b) % 2 == (low + b) % 2
  {
  }

  // ----- header

  datatype CodecHeader = CodecHeader(
    width: u32, height: u32, stride: u32, rawLen: u32, payloadLen: u32, sequence: u64, checksum: u64)

  datatype ExactError =
    | PackRange | TruncatedFrame | FrameHeader | FrameGeometry | FramePayload
    | Payload(error: DecodeError) | BadChecksum

  function Layout(h: CodecHeader): (s: seq<byte>)
    ensures |s| == HEADER
  {
    MAGIC + [1, 1, 0, 1] + BigEndian(h.width, 4) + BigEndian(h.height, 4) + BigEndian(h.stride, 4) +
    BigEndian(h.rawLen, 4) + BigEndian(h.payloadLen, 4) + BigEndian(h.sequence, 8) + BigEndian(h.checksum, 8)
  }

  function Fields(s: seq<byte>): CodecHeader
    requires |s| >= HEADER
  {
    Widths();
    CodecHeader(
      FromBigEndian(s[8..12]), FromBigEndian(s[12..16]), FromBigEndian(s[16..20]), FromBigEndian(s[20..24]),
      FromBigEndian(s[24..28]), FromBigEndian(s[28..36]), FromBigEndian(s[36..44]))
  }

  lemma LayoutSlices(h: CodecHeader, tail: seq<byte>)
    ensures var s := Layout(h) + tail;
            && s[..8] == MAGIC + [1, 1, 0, 1] && s[8..12] == BigEndian(h.width, 4) &&
               s[12..16] == BigEndian(h.height, 4)
            && s[16..20] == BigEndian(h.stride, 4) && s[20..24] == BigEndian(h.rawLen, 4)
            && s[24..28] == BigEndian(h.payloadLen, 4) && s[28..36] == BigEndian(h.sequence, 8)
            && s[36..44] == BigEndian(h.checksum, 8) && s[HEADER..] == tail
  {
  }

  lemma FieldsOfLayout(h: CodecHeader, tail: seq<byte>)
    ensures Fields(Layout(h) + tail) == h
  {
    LayoutSlices(h, tail);
    Widths();
    DecodeBigEndian(h.width, 4);
    DecodeBigEndian(h.height, 4);
    DecodeBigEndian(h.stride, 4);
    DecodeBigEndian(h.rawLen, 4);
    DecodeBigEndian(h.payloadLen, 4);
    DecodeBigEndian(h.sequence, 8);
    DecodeBigEndian(h.checksum, 8);
  }

  // ----- frames

  predicate IsU32(v: int) { 0 <= v < 0x1_0000_0000 }

  /** `struct.pack` refuses a field outside its width. */
  function EncodeExact(raw: seq<byte>, width: int, height: int, sequence: int): Result<seq<byte>, ExactError> {
    var payload := Encode(raw);
    if IsU32(width) && IsU32(height) && IsU32(width * 4) && IsU32(|raw|) && IsU32(|payload|) &&
       0 <= sequence < 0x1_0000_0000_0000_0000
    then Ok(Layout(CodecHeader(width, height, width * 4, |raw|, |payload|, sequence, Fnv1a(raw))) + payload)
    else Err(PackRange)
  }

  function DecodeExact(encoded: seq<byte>): Result<(int, seq<byte>), ExactError> {
    if |encoded| < HEADER then Err(TruncatedFrame)
    else if encoded[..8] != MAGIC + [1, 1, 0, 1] then Err(FrameHeader)
    else
      var h := Fields(encoded);
      if h.width <= 0 || h.height <= 0 || h.stride != h.width * 4 ||
        h.rawLen != h.stride * h.height then Err(FrameGeometry)
      else if HEADER + h.payloadLen != |encoded| then Err(FramePayload)
      else
        match Decode(encoded[HEADER..], h.rawLen)
        case Err(e) => Err(Payload(e))
        case Ok(raw) => if Fnv1a(raw) != h.checksum then Err(BadChecksum) else Ok((h.sequence, raw))
  }

  /** Encoded is every image whose sizes and sequence number fit their fields; the stride takes four bytes a pixel. */
  lemma EncodesExactly(raw: seq<byte>, width: int, height: int, sequence: int)
    ensures EncodeExact(raw, width, height, sequence).Ok? <==>
            && 0 <= width < 0x4000_0000 && 0 <= height < 0x1_0000_0000
            && |raw| < 0x1_0000_0000 && |Encode(raw)| < 0x1_0000_0000
            && 0 <= sequence < 0x1_0000_0000_0000_0000
    ensures |raw| <= 0xFE00_0000 ==> |Encode(raw)| < 0x1_0000_0000
  {
    hide Encode, Fnv1a, Layout;
    ExpansionBound(raw);
  }

  /**
    A frame that was encoded decodes to itself exactly when its length is width * height * 4,
    neither side is zero, and the payload has no 129-byte literal.
   */
  lemma {:induction false} ExactRoundTrip(raw: seq<byte>, width: int, height: int, sequence: int)
    ensures var encoded := EncodeExact(raw, width, height, sequence);
            encoded.Ok? ==>
              (DecodeExact(encoded.value) == Ok((sequence, raw)) <==>
               width > 0 && height > 0 && |raw| == width * 4 * height && !HasOversizeLiteral(raw))
  {
    hide Encode, Decode, Fnv1a, HasOversizeLiteral, Layout, Fields;
    var encoded := EncodeExact(raw, width, height, sequence);
    if encoded.Ok? {
      var payload := Encode(raw);
      var h := CodecHeader(width, height, width * 4, |raw|, |payload|, sequence, Fnv1a(raw));
      LayoutSlices(h, payload);
      FieldsOfLayout(h, payload);
      RoundTripExactly(raw);
    }
  }

  /** What is refused before the payload is looked at, and why. */
  lemma HeaderRefusedExactly(e: seq<byte>)
    ensures DecodeExact(e) == Err(TruncatedFrame) <==> |e| < 44
    ensures DecodeExact(e) == Err(FrameHeader) <==> |e| >= 44 && e[..8] != MAGIC + [1, 1, 0, 1]
    ensures DecodeExact(e) == Err(FramePayload) <==>
            && |e| >= 44 && e[..8] == MAGIC + [1, 1, 0, 1]
            && var h := Fields(e);
               && h.width > 0 && h.height > 0 && h.stride == h.width * 4 && h.rawLen == h.stride * h.height
               && h.payloadLen != |e| - 44
  {
    hide Fields, Decode, Fnv1a;
  }

  // ----- what is accepted

  lemma LayoutOfFields(s: seq<byte>)
    requires |s| >= HEADER && s[..8] == MAGIC + [1, 1, 0, 1]
    ensures Layout(Fields(s)) == s[..HEADER]
  {
    hide BigEndian, FromBigEndian;
    EncodeBigEndian(s[8..12]);
    EncodeBigEndian(s[12..16]);
    EncodeBigEndian(s[16..20]);
    EncodeBigEndian(s[20..24]);
    EncodeBigEndian(s[24..28]);
    EncodeBigEndian(s[28..36]);
    EncodeBigEndian(s[36..44]);
    assert s[..16] == s[..8] + s[8..12] + s[12..16];
    assert s[..24] == s[..16] + s[16..20] + s[20..24];
    assert s[..36] == s[..24] + s[24..28] + s[28..36];
    assert s[..HEADER] == s[..36] + s[36..44];
  }

  /** The bytes are the header of these pixels, their checksum included, and a payload that decodes to them. */
  predicate IsExactFrame(e: seq<byte>, sequence: int, raw: seq<byte>, width: int, height: int, payload: seq<byte>) {
    && 0 <= sequence < MODULUS && IsU32(width) && IsU32(height) && IsU32(width * 4) && IsU32(|raw|) && IsU32(|payload|)
    && width > 0 && height > 0 && |raw| == width * 4 * height && Decode(payload, |raw|) == Ok(raw)
    && e == Layout(CodecHeader(width, height, width * 4, |raw|, |payload|, sequence, Fnv1a(raw))) + payload
  }

  lemma AcceptedIsExact(e: seq<byte>)
    requires DecodeExact(e).Ok?
    ensures |e| >= HEADER
    ensures var (sequence, raw) := DecodeExact(e).value;
            IsExactFrame(e, sequence, raw, Fields(e).width, Fields(e).height, e[HEADER..])
  {
    hide Decode, Fnv1a, Layout, Fields;
    LayoutOfFields(e);
    var raw := DecodeExact(e).value.1;
    DecodeExtends(e[HEADER..], 0, [], Fields(e).rawLen);
    assert |raw| == Fields(e).rawLen by { DecodedLength(e[HEADER..], Fields(e).rawLen); }
    assert e == e[..HEADER] + e[HEADER..];
  }

  lemma DecodedLength(payload: seq<byte>, expected: int)
    ensures Decode(payload, expected).Ok? ==> |Decode(payload, expected).value| == expected
  {
    hide DecodeFrom;
    DecodeExtends(payload, 0, [], expected);
  }

  lemma ExactIsAccepted(e: seq<byte>, sequence: int, raw: seq<byte>, width: int, height: int, payload: seq<byte>)
    requires IsExactFrame(e, sequence, raw, width, height, payload)
    ensures DecodeExact(e) == Ok((sequence, raw))
  {
    hide Decode, Fnv1a, Layout, Fields;
    var h := CodecHeader(width, height, width * 4, |raw|, |payload|, sequence, Fnv1a(raw));
    LayoutSlices(h, payload);
    FieldsOfLayout(h, payload);
  }

  /** Exactly the frames with the right geometry, payload and checksum are accepted. */
  lemma AcceptsExactly(e: seq<byte>, sequence: int, raw: seq<byte>)
    ensures DecodeExact(e) == Ok((sequence, raw)) <==>
            exists width, height, payload :: IsExactFrame(e, sequence, raw, width, height, payload)
  {
    hide DecodeExact, IsExactFrame, Fields;
    if DecodeExact(e) == Ok((sequence, raw)) {
      AcceptedIsExact(e);
    }
    forall width, height, payload | IsExactFrame(e, sequence, raw, width, height, payload)
      ensures DecodeExact(e) == Ok((sequence, raw))
    {
      ExactIsAccepted(e, sequence, raw, width, height, payload);
    }
  }

  /** A frame whose payload decodes to anything that differs from its pixels in one byte is refused. */
  lemma DamagedByteRefused(h: CodecHeader, raw: seq<byte>, payload: seq<byte>, i: nat)
    requires h.checksum == Fnv1a(raw) && Decode(payload, h.rawLen).Ok?
    requires DiffersOnlyAt(raw, Decode(payload, h.rawLen).value, i)
    ensures DecodeExact(Layout(h) + payload).Err?
  {
    hide Decode, FnvFrom, Layout, Fields, DiffersOnlyAt;
    LayoutSlices(h, payload);
    FieldsOfLayout(h, payload);
    OneByteTells(FNV_OFFSET, raw, Decode(payload, h.rawLen).value, i);
  }
}
