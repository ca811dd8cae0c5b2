/** The slice class of an H.264 slice NAL unit, read from its first three Exp-Golomb codes (section 7.3.3). */
module SliceHeader {
  import opened Bytes
  import opened Rbsp
  import opened ExpGolomb

  const IDR_BITS := 8

  datatype SliceClass = P | B | I | SP | SI

  datatype SliceError = NoData | BadRbsp(rbsp: RbspError) | BadBits(bits: BitError) | InvalidType

  // ----- bytes and bits

  function BitsOf(bytes: seq<byte>): (bits: seq<bit>)
    ensures |bits| == 8 * |bytes|
  {
    if bytes == [] then [] else Binary(bytes[0], 8) + BitsOf(bytes[1..])
  }

  lemma Pow2Of8()
    ensures Pow2(8) == 256
  {
    assert Pow2(4) == 16;
  }

  function Pack(bits: seq<bit>): (bytes: seq<byte>)
    requires |bits| % 8 == 0
    ensures |bytes| == |bits| / 8
  {
    Pow2Of8();
    if bits == [] then [] else [FromBinary(bits[..8])] + Pack(bits[8..])
  }

  lemma {:induction false} UnpackPacked(bits: seq<bit>)
    requires |bits| % 8 == 0
    ensures BitsOf(Pack(bits)) == bits
    decreases |bits|
  {
    hide Binary, FromBinary;
    if bits == [] {
    } else {
      UnpackPacked(bits[8..]);
      EncodeBinary(bits[..8]);
      assert Pack(bits)[1..] == Pack(bits[8..]);
      assert bits == bits[..8] + bits[8..];
    }
  }

  function ShiftBits(v: nat, k: nat): nat {
    if k == 0 then v else ShiftBits(v / 2, k - 1)
  }

  lemma {:induction false} BinaryDigit(v: nat, n: nat, k: nat)
    requires k < n
    ensures Binary(v, n)[k] == ShiftBits(v, n - 1 - k) % 2
  {
    if k >= n - 1 {
    } else {
      BinaryDigit(v / 2, n - 1, k);
    }
  }

  /** Bit `k` is bit 7 - k % 8 of byte k / 8. */
  lemma {:induction false} BitAt(bytes: seq<byte>, k: nat)
    requires k < 8 * |bytes|
    ensures BitsOf(bytes)[k] == ShiftBits(bytes[k / 8], 7 - k % 8) % 2
    decreases |bytes|
  {
    hide Binary, ShiftBits;
    if k < 8 {
      BinaryDigit(bytes[0], 8, k);
    } else {
      BitAt(bytes[1..], k - 8);
      assert bytes[1..][(k - 8) / 8] == bytes[k / 8];
    }
  }

  // ----- the parser

  function ClassOf(sliceType: nat): (c: SliceClass)
    ensures sliceType == 0 || sliceType == 5 ==> c == P
    ensures sliceType == 1 || sliceType == 6 ==> c == B
    ensures sliceType == 2 || sliceType == 7 ==> c == I
    ensures sliceType == 3 || sliceType == 8 ==> c == SP
    ensures sliceType == 4 || sliceType == 9 ==> c == SI
  {
    match sliceType % 5
    case 0 => P
    case 1 => B
    case 2 => I
    case 3 => SP
    case _ => SI
  }

  function ParseBits(bits: seq<bit>, isIdr: bool): Result<SliceClass, SliceError> {
    match Ue(bits, 0)
    case Err(e) => Err(BadBits(e))
    case Ok((_, o1)) =>
      match Ue(bits, o1)
      case Err(e) => Err(BadBits(e))
      case Ok((sliceType, o2)) =>
        if sliceType > 9 then Err(InvalidType)
        else
          match Ue(bits, o2)
          case Err(e) => Err(BadBits(e))
          case Ok((_, o3)) =>
            if isIdr && (o3 > |bits| || IDR_BITS > |bits| - o3) then Err(BadBits(TruncatedHeader))
            else Ok(ClassOf(sliceType))
  }

  function StripZeros(s: seq<byte>): seq<byte> {
    s[..|s| - TrailingZeros(s)]
  }

  function ParseSlice(payload: seq<byte>, isIdr: bool): Result<SliceClass, SliceError> {
    var data := StripZeros(payload);
    if data == [] then Err(NoData)
    else
      match Unescape(data)
      case Err(e) => Err(BadRbsp(e))
      case Ok(rbsp) => ParseBits(BitsOf(rbsp), isIdr)
  }

  // ----- what a well-formed header reads as

  /** The header fields in the order of section 7.3.3, then whatever follows. */
  function HeaderBits(firstMb: nat, sliceType: nat, ppsId: nat, tail: seq<bit>): seq<bit> {
    UeCode(firstMb) + UeCode(sliceType) + UeCode(ppsId) + tail
  }

  lemma ParsesHeader(firstMb: nat, sliceType: nat, ppsId: nat, tail: seq<bit>, isIdr: bool)
    requires firstMb <= 0xFFFF_FFFE && sliceType <= 0xFFFF_FFFE && ppsId <= 0xFFFF_FFFE
    requires isIdr ==> |tail| >= IDR_BITS
    ensures ParseBits(HeaderBits(firstMb, sliceType, ppsId, tail), isIdr) ==
            if sliceType > 9 then Err(InvalidType) else Ok(ClassOf(sliceType))
  {
    hide Ue, UeCode;
    var a, b, c := UeCode(firstMb), UeCode(sliceType), UeCode(ppsId);
    var bits := HeaderBits(firstMb, sliceType, ppsId, tail);
    UeReadsCode([], firstMb, b + c + tail);
    assert [] + a + (b + c + tail) == bits;
    UeReadsCode(a, sliceType, c + tail);
    assert a + b + (c + tail) == bits;
    UeReadsCode(a + b, ppsId, tail);
    assert (a + b) + c + tail == bits;
  }

  lemma {:induction false} StripAppended(s: seq<byte>, zeros: nat)
    requires s != [] && s[|s| - 1] != 0
    ensures TrailingZeros(s + Repeat<byte>(0, zeros)) == zeros
  {
    if zeros == 0 {
      assert s + [] == s;
    } else {
      StripAppended(s, zeros - 1);
      var t := s + Repeat<byte>(0, zeros);
      assert t[..|t| - 1] == s + Repeat<byte>(0, zeros - 1);
    }
  }

  /**
    A slice header of any three values that fit 32 bits, packed into bytes, escaped, and
    followed by any number of trailing zero bytes, gives the class of its slice type, and
    slice types above 9 are refused.
   */
  lemma {:induction false} ClassIsRead(firstMb: nat, sliceType: nat, ppsId: nat, tail: seq<bit>, isIdr: bool,
        zeros: nat)
    requires firstMb <= 0xFFFF_FFFE && sliceType <= 0xFFFF_FFFE && ppsId <= 0xFFFF_FFFE
    requires isIdr ==> |tail| >= IDR_BITS
    requires |HeaderBits(firstMb, sliceType, ppsId, tail)| % 8 == 0
    requires var rbsp := Pack(HeaderBits(firstMb, sliceType, ppsId, tail));
             rbsp != [] && rbsp[|rbsp| - 1] != 0 && |rbsp| <= MAX_RBSP && |Escape(rbsp)| <= MAX_RBSP + MAX_RBSP / 2
    ensures var rbsp := Pack(HeaderBits(firstMb, sliceType, ppsId, tail));
            ParseSlice(Escape(rbsp) + Repeat<byte>(0, zeros), isIdr) ==
            if sliceType > 9 then Err(InvalidType) else Ok(ClassOf(sliceType))
  {
    hide Unescape, ParseBits, Pack, BitsOf, HeaderBits, TrailingZeros, EscapeFrom;
    var bits := HeaderBits(firstMb, sliceType, ppsId, tail);
    var rbsp := Pack(bits);
    var e := Escape(rbsp);
    StripAppended(e, zeros);
    assert StripZeros(e + Repeat<byte>(0, zeros)) == e;
    UnescapeExactly(e, rbsp);
    UnpackPacked(bits);
    ParsesHeader(firstMb, sliceType, ppsId, tail, isIdr);
  }

  /** The same for a NAL unit escaped as the standard says, if its RBSP has no long zero run. */
  lemma {:induction false} StandardClassIsRead(
      firstMb: nat, sliceType: nat, ppsId: nat, tail: seq<bit>, isIdr: bool, zeros: nat)
    requires firstMb <= 0xFFFF_FFFE && sliceType <= 0xFFFF_FFFE && ppsId <= 0xFFFF_FFFE
    requires isIdr ==> |tail| >= IDR_BITS
    requires |HeaderBits(firstMb, sliceType, ppsId, tail)| % 8 == 0
    requires var rbsp := Pack(HeaderBits(firstMb, sliceType, ppsId, tail));
             && rbsp != [] && rbsp[|rbsp| - 1] != 0 && !LongZeroRun(rbsp)
             && |rbsp| <= MAX_RBSP && |StandardNal(rbsp)| <= MAX_RBSP + MAX_RBSP / 2
    ensures var rbsp := Pack(HeaderBits(firstMb, sliceType, ppsId, tail));
            ParseSlice(StandardNal(rbsp) + Repeat<byte>(0, zeros), isIdr) ==
            if sliceType > 9 then Err(InvalidType) else Ok(ClassOf(sliceType))
  {
    hide ParseSlice, Pack, HeaderBits, LongZeroRun, StandardFrom, EscapeFrom;
    var rbsp := Pack(HeaderBits(firstMb, sliceType, ppsId, tail));
    EscapingsAgreeExactly(rbsp);
    assert StandardNal(rbsp) == Escape(rbsp);
    ClassIsRead(firstMb, sliceType, ppsId, tail, isIdr, zeros);
  }

  // ----- nothing else is accepted

  datatype Header = Header(firstMb: nat, sliceType: nat, ppsId: nat, tail: seq<bit>)

  /** The values fit, the type is a slice type, and an IDR slice has the bits its header still needs. */
  predicate IsHeader(bits: seq<bit>, isIdr: bool, h: Header) {
    && h.firstMb <= 0xFFFF_FFFE && h.sliceType <= 9 && h.ppsId <= 0xFFFF_FFFE
    && (isIdr ==> |h.tail| >= IDR_BITS)
    && bits == HeaderBits(h.firstMb, h.sliceType, h.ppsId, h.tail)
  }

  lemma UeIsCode(bits: seq<bit>, offset: nat)
    requires offset <= |bits| && Ue(bits, offset).Ok?
    ensures var (v, end) := Ue(bits, offset).value;
            v <= 0xFFFF_FFFE && offset < end <= |bits| && bits[offset..end] == UeCode(v)
  {
    hide UeCode, UeFrom;
    assert bits[offset..offset] == Repeat<bit>(0, 0);
    UeReadsOnlyCodes(bits, offset, 0);
  }

  lemma AcceptsOnlyHeaders(bits: seq<bit>, isIdr: bool) returns (h: Header)
    requires ParseBits(bits, isIdr).Ok?
    ensures IsHeader(bits, isIdr, h) && ParseBits(bits, isIdr) == Ok(ClassOf(h.sliceType))
  {
    hide Ue, UeCode, ClassOf;
    UeIsCode(bits, 0);
    var (firstMb, o1) := Ue(bits, 0).value;
    UeIsCode(bits, o1);
    var (sliceType, o2) := Ue(bits, o1).value;
    UeIsCode(bits, o2);
    var (ppsId, o3) := Ue(bits, o2).value;
    h := Header(firstMb, sliceType, ppsId, bits[o3..]);
    assert bits == bits[0..o1] + bits[o1..o2] + bits[o2..o3] + bits[o3..];
  }

  /** A NAL payload, taken apart: the unescaped bytes, the header in them, and the zero bytes behind. */
  datatype Slice = Slice(rbsp: seq<byte>, header: Header, zeros: nat)

  predicate IsSlice(payload: seq<byte>, isIdr: bool, s: Slice) {
    && s.rbsp != [] && s.rbsp[|s.rbsp| - 1] != 0
    && |s.rbsp| <= MAX_RBSP && |Escape(s.rbsp)| <= MAX_RBSP + MAX_RBSP / 2
    && payload == Escape(s.rbsp) + Repeat<byte>(0, s.zeros)
    && IsHeader(BitsOf(s.rbsp), isIdr, s.header)
  }

  lemma {:induction false} TrailingAreZeros(s: seq<byte>)
    ensures forall i :: |s| - TrailingZeros(s) <= i < |s| ==> s[i] == 0
    ensures TrailingZeros(s) < |s| ==> s[|s| - TrailingZeros(s) - 1] != 0
  {
    if s == [] || s[|s| - 1] != 0 {
    } else {
      TrailingAreZeros(s[..|s| - 1]);
    }
  }

  lemma StripSplits(s: seq<byte>)
    ensures var data := StripZeros(s);
            s == data + Repeat<byte>(0, TrailingZeros(s)) && (data == [] || data[|data| - 1] != 0)
  {
    hide TrailingZeros;
    TrailingAreZeros(s);
  }

  /** Whatever is accepted is the escaping of a header, with zero bytes behind it. */
  lemma AcceptsOnlySlices(payload: seq<byte>, isIdr: bool) returns (s: Slice)
    requires ParseSlice(payload, isIdr).Ok?
    ensures IsSlice(payload, isIdr, s) && ParseSlice(payload, isIdr) == Ok(ClassOf(s.header.sliceType))
  {
    hide Unescape, ParseBits, BitsOf, HeaderBits, TrailingZeros, EscapeFrom, StripZeros, ClassOf;
    var data := StripZeros(payload);
    StripSplits(payload);
    var rbsp := Unescape(data).value;
    UnescapeExactly(data, rbsp);
    assert rbsp != [] by { EscapeNothing(); }
    var h := AcceptsOnlyHeaders(BitsOf(rbsp), isIdr);
    s := Slice(rbsp, h, TrailingZeros(payload));
  }

  lemma EscapeNothing()
    ensures Escape([]) == []
  {
  }

  lemma SliceIsRead(payload: seq<byte>, isIdr: bool, s: Slice)
    requires IsSlice(payload, isIdr, s)
    ensures ParseSlice(payload, isIdr) == Ok(ClassOf(s.header.sliceType))
  {
    hide Unescape, ParseBits, BitsOf, HeaderBits, TrailingZeros, EscapeFrom, ClassOf;
    var e, h := Escape(s.rbsp), s.header;
    StripAppended(e, s.zeros);
    assert StripZeros(payload) == e;
    UnescapeExactly(e, s.rbsp);
    ParsesHeader(h.firstMb, h.sliceType, h.ppsId, h.tail, isIdr);
  }

  /** The payload is a slice of one of two types. */
  ghost predicate IsOfType(payload: seq<byte>, isIdr: bool, t: nat, u: nat) {
    exists s :: IsSlice(payload, isIdr, s) && (s.header.sliceType == t || s.header.sliceType == u)
  }

  lemma TypeParses(payload: seq<byte>, isIdr: bool, t: nat)
    requires t <= 4
    ensures IsOfType(payload, isIdr, t, t + 5) <==> ParseSlice(payload, isIdr) == Ok(ClassOf(t))
  {
    hide ParseSlice, HeaderBits, BitsOf, EscapeFrom;
    if ParseSlice(payload, isIdr) == Ok(ClassOf(t)) {
      var s := AcceptsOnlySlices(payload, isIdr);
    }
    if s :| IsSlice(payload, isIdr, s) && (s.header.sliceType == t || s.header.sliceType == t + 5) {
      SliceIsRead(payload, isIdr, s);
    }
  }

  /**
    The parser returns a class if and only if the payload is, up to zero bytes behind it, the
    escaping of three codes and a tail, and its slice type is one of the two of that class
    (table 7-6).
   */
  lemma SliceParsesExactly(payload: seq<byte>, isIdr: bool)
    ensures ParseSlice(payload, isIdr) == Ok(P) <==> IsOfType(payload, isIdr, 0, 5)
    ensures ParseSlice(payload, isIdr) == Ok(B) <==> IsOfType(payload, isIdr, 1, 6)
    ensures ParseSlice(payload, isIdr) == Ok(I) <==> IsOfType(payload, isIdr, 2, 7)
    ensures ParseSlice(payload, isIdr) == Ok(SP) <==> IsOfType(payload, isIdr, 3, 8)
    ensures ParseSlice(payload, isIdr) == Ok(SI) <==> IsOfType(payload, isIdr, 4, 9)
  {
    hide ParseSlice, IsOfType;
    TypeParses(payload, isIdr, 0);
    TypeParses(payload, isIdr, 1);
    TypeParses(payload, isIdr, 2);
    TypeParses(payload, isIdr, 3);
    TypeParses(payload, isIdr, 4);
  }

  /** There is no data exactly if every byte is zero. */
  lemma NoDataExactly(payload: seq<byte>, isIdr: bool)
    ensures ParseSlice(payload, isIdr) == Err(NoData) <==> forall i :: 0 <= i < |payload| ==> payload[i] == 0
  {
    hide TrailingZeros, Unescape, ParseBits, BitsOf;
    TrailingAreZeros(payload);
    BitsHaveData(payload, isIdr);
  }

  lemma BitsHaveData(payload: seq<byte>, isIdr: bool)
    ensures StripZeros(payload) != [] ==> ParseSlice(payload, isIdr) != Err(NoData)
  {
    hide TrailingZeros, Unescape, BitsOf, Ue;
  }

  // ----- the source's reader

  lemma EmptySuffix(bits: seq<bit>, start: nat)
    requires start <= |bits|
    ensures FromBinary(bits[start..start]) == 0
  {
  }

  lemma SuffixBit(bits: seq<bit>, start: nat, index: nat)
    requires start + index < |bits| && index < 31
    ensures FromBinary(bits[start..start + index + 1]) ==
              FromBinary(bits[start..start + index]) * 2 + bits[start + index]
    ensures FromBinary(bits[start..start + index + 1]) < 0x1_0000_0000
  {
    assert bits[start..start + index + 1][..index] == bits[start..start + index];
    ThirtyTwo();
    Pow2Monotone(index + 1, 32);
  }

  lemma {:induction false} SuffixFits(bits: seq<bit>, start: nat, leading: nat)
    requires start + leading <= |bits| && leading <= 31
    ensures Pow2(leading) - 1 + FromBinary(bits[start..start + leading]) < 0x1_0000_0000
  {
    hide Pow2, FromBinary;
    ThirtyTwo();
    DoubleUp(leading);
    Pow2Monotone(leading + 1, 32);
  }

  /** Where the reader stands after an error: at the end, or behind 32 zeros. */
  function StoppedAt(e: BitError, start: nat, size: nat): nat {
    if e == CodeOverflow then start + 32 else if start > size then start else size
  }

  class BitReader {
    const bytes: seq<byte>
    var bitOffset: nat

    constructor (bytes: seq<byte>)
      ensures this.bytes == bytes && bitOffset == 0
    {
      this.bytes := bytes;
      bitOffset := 0;
    }

    method ReadBit() returns (r: Result<bit, BitError>)
      modifies this
      ensures old(bitOffset) >= 8 * |bytes| ==> r == Err(TruncatedHeader) && bitOffset == old(bitOffset)
      ensures old(bitOffset) < 8 * |bytes| ==> r == Ok(BitsOf(bytes)[old(bitOffset)]) && bitOffset == old(bitOffset) + 1
    {
      if bitOffset / 8 >= |bytes| {
        return Err(TruncatedHeader);
      }
      BitAt(bytes, bitOffset);
      var b := ShiftBits(bytes[bitOffset / 8], 7 - bitOffset % 8) % 2;
      bitOffset := bitOffset + 1;
      return Ok(b);
    }

    /** Reads one code; all arithmetic stays within 32 bits. */
    method ReadUe() returns (r: Result<u32, BitError>)
      modifies this
      ensures match Ue(BitsOf(bytes), old(bitOffset))
              case Ok((v, end)) => r == Ok(v) && bitOffset == end
              case Err(e) => r == Err(e) && bitOffset == StoppedAt(e, old(bitOffset), 8 * |bytes|)
    {
      hide BitsOf;
      ghost var bits, start := BitsOf(bytes), bitOffset;
      var leading: u32 := 0;
      var b := ReadBit();
      while b == Ok(0)
        invariant leading <= 31
        invariant b.Ok? ==> start + leading + 1 == bitOffset <= |bits| && b.value == bits[bitOffset - 1]
        invariant b.Err? ==> b == Err(TruncatedHeader) && bitOffset == start + leading >= |bits|
        invariant leading > 0 ==> start + leading <= |bits|
        invariant Ue(bits, start) == UeFrom(bits, start + leading, leading)
        decreases 31 - leading
      {
        leading := leading + 1;
        if leading > 31 {
          return Err(CodeOverflow);
        }
        b := ReadBit();
      }
      if b.Err? {
        return Err(b.error);
      }
      r := ReadSuffix(leading);
    }

    method ReadSuffix(leading: u32) returns (r: Result<u32, BitError>)
      requires leading <= 31 && bitOffset <= 8 * |bytes|
      modifies this
      ensures match SuffixOf(BitsOf(bytes), old(bitOffset), leading)
              case Ok((v, end)) => r == Ok(v) && bitOffset == end
              case Err(e) => r == Err(e) && bitOffset == 8 * |bytes|
    {
      hide BitsOf, FromBinary, Pow2;
      ghost var bits, start := BitsOf(bytes), bitOffset;
      var suffix: u32 := 0;
      EmptySuffix(bits, start);
      for index := 0 to leading
        invariant bitOffset == start + index <= |bits|
        invariant suffix == FromBinary(bits[start..bitOffset])
      {
        var b := ReadBit();
        if b.Err? {
          return Err(b.error);
        }
        SuffixBit(bits, start, index);
        suffix := suffix * 2 + b.value;
      }
      SuffixFits(bits, start, leading);
      var base: u32 := Pow2(leading) - 1;
      return Ok(base + suffix);
    }

    method RequireBits(count: nat) returns (r: Result<(), BitError>)
      ensures r.Ok? <==> bitOffset + count <= 8 * |bytes|
      ensures r.Err? ==> r == Err(TruncatedHeader)
    {
      var totalBits := |bytes| * 8;
      if bitOffset > totalBits || count > totalBits - bitOffset {
        return Err(TruncatedHeader);
      }
      return Ok(());
    }
  }

  method ParseSliceClass(payload: seq<byte>, isIdr: bool) returns (r: Result<SliceClass, SliceError>)
    ensures r == ParseSlice(payload, isIdr)
  {
    hide BitsOf, Ue, Unescape;
    var size: nat := |payload|;
    assert payload[..size] == payload;
    while size != 0 && payload[size - 1] == 0
      invariant size <= |payload|
      invariant StripZeros(payload) == StripZeros(payload[..size])
    {
      assert payload[..size][..size - 1] == payload[..size - 1];
      size := size - 1;
    }
    assert StripZeros(payload) == payload[..size];
    if size == 0 {
      return Err(NoData);
    }
    var rbsp := UnescapeRbsp(payload[..size]);
    if rbsp.Err? {
      return Err(BadRbsp(rbsp.error));
    }
    var reader := new BitReader(rbsp.value);
    var firstMb := reader.ReadUe();
    if firstMb.Err? {
      return Err(BadBits(firstMb.error));
    }
    var sliceType := reader.ReadUe();
    if sliceType.Err? {
      return Err(BadBits(sliceType.error));
    }
    if sliceType.value > 9 {
      return Err(InvalidType);
    }
    var ppsId := reader.ReadUe();
    if ppsId.Err? {
      return Err(BadBits(ppsId.error));
    }
    if isIdr {
      var enough := reader.RequireBits(IDR_BITS);
      if enough.Err? {
        return Err(BadBits(enough.error));
      }
    }
    return Ok(ClassOf(sliceType.value));
  }
}
