/**
  The 44-byte media header, in its two implementations: the C++ `validate`, `encode` and
  `decode`, and the Python `media_packet` and `parse_media`.
 */
module MediaWire {
  import opened Bytes

  const HEADER_LENGTH := 44
  const MAX_FRAME := 16 * 1024 * 1024
  const MAX_FRAGMENT := 16 * 1024
  const NO_DEPENDENCY: u64 := 0xFFFF_FFFF_FFFF_FFFF
  const MAGIC: seq<byte> := [0x4C, 0x44, 0x53, 0x4B]

  datatype MediaHeader = MediaHeader(
    kind: byte, flags: u16, stream: u32, epoch: u32, frameId: u64, dependency: u64,
    frameLen: u32, offset: u32, fragmentLen: u16)

  predicate Keyframe(flags: u16) { flags % 2 == 1 }

  predicate Parity(flags: u16) { flags / 8 % 2 == 1 }

  // ----- the byte layout both sides share

  function Layout(h: MediaHeader): (s: seq<byte>)
    ensures |s| == HEADER_LENGTH
  {
    MAGIC + [1, h.kind] + BigEndian(h.flags, 2) + BigEndian(h.stream, 4) + BigEndian(h.epoch, 4) +
    BigEndian(h.frameId, 8) + BigEndian(h.dependency, 8) + BigEndian(h.frameLen, 4) +
    BigEndian(h.offset, 4) + BigEndian(h.fragmentLen, 2) + [0, 0]
  }

  /** The fixed bytes of a header: magic, version and the two reserved zeros. */
  predicate Framed(bytes: seq<byte>)
    requires |bytes| >= HEADER_LENGTH
  {
    bytes[..4] == MAGIC && bytes[4] == 1 && bytes[42] == 0 && bytes[43] == 0
  }

  function Fields(bytes: seq<byte>): MediaHeader
    requires |bytes| >= HEADER_LENGTH
  {
    Widths();
    MediaHeader(
      bytes[5], FromBigEndian(bytes[6..8]), FromBigEndian(bytes[8..12]), FromBigEndian(bytes[12..16]),
      FromBigEndian(bytes[16..24]), FromBigEndian(bytes[24..32]), FromBigEndian(bytes[32..36]),
      FromBigEndian(bytes[36..40]), FromBigEndian(bytes[40..42]))
  }

  lemma LayoutSlices(h: MediaHeader, tail: seq<byte>)
    ensures var s := Layout(h) + tail;
            && Framed(s) && s[5] == h.kind
            && s[6..8] == BigEndian(h.flags, 2) && s[8..12] == BigEndian(h.stream, 4)
            && s[12..16] == BigEndian(h.epoch, 4) && s[16..24] == BigEndian(h.frameId, 8)
            && s[24..32] == BigEndian(h.dependency, 8) && s[32..36] == BigEndian(h.frameLen, 4)
            && s[36..40] == BigEndian(h.offset, 4) && s[40..42] == BigEndian(h.fragmentLen, 2)
  {
  }

  lemma FieldsOfLayout(h: MediaHeader, tail: seq<byte>)
    ensures Framed(Layout(h) + tail) && Fields(Layout(h) + tail) == h
  {
    LayoutSlices(h, tail);
    Widths();
    DecodeBigEndian(h.flags, 2);
    DecodeBigEndian(h.stream, 4);
    DecodeBigEndian(h.epoch, 4);
    DecodeBigEndian(h.frameId, 8);
    DecodeBigEndian(h.dependency, 8);
    DecodeBigEndian(h.frameLen, 4);
    DecodeBigEndian(h.offset, 4);
    DecodeBigEndian(h.fragmentLen, 2);
  }

  lemma LayoutOfFields(bytes: seq<byte>)
    requires |bytes| >= HEADER_LENGTH && Framed(bytes)
    ensures Layout(Fields(bytes)) == bytes[..HEADER_LENGTH]
  {
    EncodeBigEndian(bytes[6..8]);
    EncodeBigEndian(bytes[8..12]);
    EncodeBigEndian(bytes[12..16]);
    EncodeBigEndian(bytes[16..24]);
    EncodeBigEndian(bytes[24..32]);
    EncodeBigEndian(bytes[32..36]);
    EncodeBigEndian(bytes[36..40]);
    EncodeBigEndian(bytes[40..42]);
    assert bytes[..44] == bytes[..4] + [bytes[4], bytes[5]] + bytes[6..8] + bytes[8..12] + bytes[12..16] +
      bytes[16..24] + bytes[24..32] + bytes[32..36] + bytes[36..40] + bytes[40..42] + [bytes[42], bytes[43]];
  }

  // ----- C++ side

  datatype HeaderError =
    | Truncated | BadMagic | BadVersion | BadReserved
    | UnknownKind | UnknownFlags | FrameLength | FragmentLength | FragmentRange
    | KeyframeDependency | ForwardDependency | FlagCombination

  function Validate(h: MediaHeader): Result<(), HeaderError> {
    if h.kind < 1 || h.kind > 4 then Err(UnknownKind)
    else if h.flags >= 16 then Err(UnknownFlags)
    else if h.frameLen == 0 || h.frameLen > MAX_FRAME then Err(FrameLength)
    else if h.fragmentLen == 0 || h.fragmentLen > MAX_FRAGMENT then Err(FragmentLength)
    else if h.offset >= h.frameLen || h.offset + h.fragmentLen > h.frameLen then Err(FragmentRange)
    else if Keyframe(h.flags) && h.dependency != NO_DEPENDENCY then Err(KeyframeDependency)
    else if h.dependency != NO_DEPENDENCY && h.dependency >= h.frameId then Err(ForwardDependency)
    else if Parity(h.flags) && Keyframe(h.flags) then Err(FlagCombination)
    else Ok(())
  }

  function EncodeHeader(h: MediaHeader): Result<seq<byte>, HeaderError> {
    match Validate(h)
    case Err(e) => Err(e)
    case Ok(_) => Ok(Layout(h))
  }

  function DecodeHeader(bytes: seq<byte>): Result<MediaHeader, HeaderError> {
    if |bytes| < HEADER_LENGTH then Err(Truncated)
    else if bytes[..4] != MAGIC then Err(BadMagic)
    else if bytes[4] != 1 then Err(BadVersion)
    else if bytes[42] != 0 || bytes[43] != 0 then Err(BadReserved)
    else
      match Validate(Fields(bytes))
      case Err(e) => Err(e)
      case Ok(_) => Ok(Fields(bytes))
  }

  /** A header is written exactly when it is valid, and then reads back as itself. */
  lemma EncodeThenDecode(h: MediaHeader, tail: seq<byte>)
    ensures EncodeHeader(h).Ok? <==> Validate(h).Ok?
    ensures EncodeHeader(h).Ok? ==> DecodeHeader(EncodeHeader(h).value + tail) == Ok(h)
  {
    if Validate(h).Ok? {
      FieldsOfLayout(h, tail);
    }
  }

  /** Whatever is accepted was written: encoding the header gives back the bytes it was read from. */
  lemma {:induction false} DecodeThenEncode(bytes: seq<byte>)
    ensures DecodeHeader(bytes).Ok? ==>
              |bytes| >= HEADER_LENGTH && EncodeHeader(DecodeHeader(bytes).value) == Ok(bytes[..HEADER_LENGTH])
  {
    if DecodeHeader(bytes).Ok? {
      LayoutOfFields(bytes);
    }
  }

  method WriteIdentity(out: array<byte>, h: MediaHeader)
    requires out.Length == HEADER_LENGTH
    modifies out
    ensures out[..32] == old(out[..6]) + BigEndian(h.flags, 2) + BigEndian(h.stream, 4) +
                         BigEndian(h.epoch, 4) + BigEndian(h.frameId, 8) + BigEndian(h.dependency, 8)
    ensures forall k :: 32 <= k < out.Length ==> out[k] == old(out[k])
  {
    WriteBigEndian(out, 6, h.flags, 2);
    WriteBigEndian(out, 8, h.stream, 4);
    WriteBigEndian(out, 12, h.epoch, 4);
    WriteBigEndian(out, 16, h.frameId, 8);
    WriteBigEndian(out, 24, h.dependency, 8);
  }

  method WriteRange(out: array<byte>, h: MediaHeader)
    requires out.Length == HEADER_LENGTH
    modifies out
    ensures out[..42] ==
            old(out[..32]) + BigEndian(h.frameLen, 4) + BigEndian(h.offset, 4) + BigEndian(h.fragmentLen, 2)
    ensures forall k :: 42 <= k < out.Length ==> out[k] == old(out[k])
  {
    WriteBigEndian(out, 32, h.frameLen, 4);
    WriteBigEndian(out, 36, h.offset, 4);
    WriteBigEndian(out, 40, h.fragmentLen, 2);
  }

  method EncodeInto(h: MediaHeader) returns (r: Result<seq<byte>, HeaderError>)
    ensures r == EncodeHeader(h)
  {
    var valid := Validate(h);
    if valid.Err? {
      return Err(valid.error);
    }
    var out := new byte[44](_ => 0);
    out[0], out[1], out[2], out[3] := 0x4C, 0x44, 0x53, 0x4B;
    out[4] := 1;
    out[5] := h.kind;
    assert out[..6] == MAGIC + [1, h.kind];
    WriteIdentity(out, h);
    WriteRange(out, h);
    assert out[..] == out[..42] + [0, 0];
    return Ok(out[..]);
  }

  method DecodeFrom(bytes: seq<byte>) returns (r: Result<MediaHeader, HeaderError>)
    ensures r == DecodeHeader(bytes)
  {
    if |bytes| < 44 {
      return Err(Truncated);
    }
    if bytes[0] != 0x4C || bytes[1] != 0x44 || bytes[2] != 0x53 || bytes[3] != 0x4B {
      return Err(BadMagic);
    }
    assert bytes[..4] == MAGIC;
    if bytes[4] != 1 {
      return Err(BadVersion);
    }
    if bytes[42] != 0 || bytes[43] != 0 {
      return Err(BadReserved);
    }
    Widths();
    var flags := ReadBigEndian(bytes, 6, 2);
    var stream := ReadBigEndian(bytes, 8, 4);
    var epoch := ReadBigEndian(bytes, 12, 4);
    var frameId := ReadBigEndian(bytes, 16, 8);
    var dependency := ReadBigEndian(bytes, 24, 8);
    var frameLen := ReadBigEndian(bytes, 32, 4);
    var offset := ReadBigEndian(bytes, 36, 4);
    var fragmentLen := ReadBigEndian(bytes, 40, 2);
    var header := MediaHeader(bytes[5], flags, stream, epoch, frameId, dependency, frameLen, offset, fragmentLen);
    var valid := Validate(header);
    if valid.Err? {
      return Err(valid.error);
    }
    return Ok(header);
  }

  // ----- Python side

  datatype Key = Key(stream: u32, epoch: u32, frameId: u64, kind: byte)

  datatype Packet = Packet(key: Key, frameLen: nat, offset: nat, payload: seq<byte>)

  datatype ParseError = TruncatedMedia | MediaHeaderFault | MediaBounds | MediaRange | MediaKeyframe | MediaForward

  function ParseMedia(datagram: seq<byte>): (r: Result<Packet, ParseError>)
    ensures r.Ok? ==> PacketFits(r.value)
  {
    if |datagram| < HEADER_LENGTH then Err(TruncatedMedia)
    else
      var h := Fields(datagram);
      if datagram[..4] != MAGIC || datagram[4] != 1 || h.kind !in {1, 2, 3, 4} || datagram[42..44] != [0, 0]
      then Err(MediaHeaderFault)
      else if h.flags >= 16 || h.frameLen <= 0 || h.frameLen > MAX_FRAME || h.fragmentLen <= 0 ||
        h.fragmentLen > MAX_FRAGMENT
      then Err(MediaBounds)
      else if h.offset >= h.frameLen || h.offset + h.fragmentLen > h.frameLen ||
        |datagram| != HEADER_LENGTH + h.fragmentLen
      then Err(MediaRange)
      else if Keyframe(h.flags) && h.dependency != NO_DEPENDENCY then Err(MediaKeyframe)
      else if h.dependency != NO_DEPENDENCY && h.dependency >= h.frameId then Err(MediaForward)
      else Ok(Packet(Key(h.stream, h.epoch, h.frameId, h.kind), h.frameLen, h.offset, datagram[HEADER_LENGTH..]))
  }

  predicate PacketFits(p: Packet) {
    p.payload != [] && p.offset + |p.payload| <= p.frameLen <= MAX_FRAME
  }

  /**
    On datagrams as long as their header says, the two parsers accept the same inputs,
    apart from keyframes marked as parity, which only the C++ side refuses.
   */
  lemma ParsersAgree(datagram: seq<byte>)
    requires |datagram| >= HEADER_LENGTH && |datagram| == HEADER_LENGTH + Fields(datagram).fragmentLen
    ensures var h := Fields(datagram);
            && (DecodeHeader(datagram).Ok? <==> ParseMedia(datagram).Ok? && !(Keyframe(h.flags) && Parity(h.flags)))
            && (DecodeHeader(datagram).Ok? ==>
                  DecodeHeader(datagram).value == h &&
                  ParseMedia(datagram) == Ok(Packet(Key(h.stream, h.epoch, h.frameId, h.kind),
                                                    h.frameLen, h.offset, datagram[HEADER_LENGTH..])))
  {
    assert datagram[42..44] == [datagram[42], datagram[43]];
  }

  /** And what both refuse, they refuse for the same reason, which the Python side tells less exactly. */
  lemma RefusalsAgree(datagram: seq<byte>)
    requires |datagram| >= HEADER_LENGTH && |datagram| == HEADER_LENGTH + Fields(datagram).fragmentLen
    ensures var ours, theirs := ParseMedia(datagram), DecodeHeader(datagram);
            && (ours == Err(MediaHeaderFault) <==>
                 theirs.Err? && theirs.error in {BadMagic, BadVersion, BadReserved, UnknownKind})
            && (ours == Err(MediaBounds) <==>
                 theirs.Err? && theirs.error in {UnknownFlags, FrameLength, FragmentLength})
            && (ours == Err(MediaRange) <==> theirs == Err(FragmentRange))
            && (ours == Err(MediaKeyframe) <==> theirs == Err(KeyframeDependency))
            && (ours == Err(MediaForward) <==> theirs == Err(ForwardDependency))
            && theirs != Err(Truncated)
  {
    hide Fields;
    assert datagram[42..44] == [datagram[42], datagram[43]];
  }

  /** `struct.pack` refuses a field outside its width. */
  datatype PackError = FragmentBounds | PackRange

  function MediaPacket(frame: seq<byte>, frameId: int, offset: int, payload: seq<byte>): Result<seq<byte>, PackError> {
    if 0 <= frameId <= NO_DEPENDENCY && |frame| < 0x1_0000_0000 && 0 <= offset < 0x1_0000_0000 && |payload| < 0x1_0000
    then Ok(Layout(MediaHeader(1, 5, 1, 1, frameId, NO_DEPENDENCY, |frame|, offset, |payload|)) + payload)
    else Err(PackRange)
  }

  /** Every datagram sent reads, on the C++ side, as a part of a lossless keyframe that depends on no other frame. */
  lemma SentHeader(frame: seq<byte>, frameId: u64, offset: nat, payload: seq<byte>)
    requires 0 < |frame| <= MAX_FRAME && 0 < |payload| <= MAX_FRAGMENT && offset + |payload| <= |frame|
    ensures MediaPacket(frame, frameId, offset, payload).Ok?
    ensures var d := MediaPacket(frame, frameId, offset, payload).value;
            && |d| == HEADER_LENGTH + |payload| && d[5] == 1 && d[6] == 0 && d[7] == 5
            && DecodeHeader(d) ==
               Ok(MediaHeader(1, 5, 1, 1, frameId, NO_DEPENDENCY, |frame|, offset, |payload|))
  {
    hide Layout, Fields, BigEndian;
    var h := MediaHeader(1, 5, 1, 1, frameId, NO_DEPENDENCY, |frame|, offset, |payload|);
    FieldsOfLayout(h, payload);
    LayoutSlices(h, payload);
    FlagBytes();
    var d := Layout(h) + payload;
    assert d[6] == d[6..8][0] && d[7] == d[6..8][1];
  }

  lemma FlagBytes()
    ensures BigEndian(5, 2) == [0, 5]
  {
    assert BigEndian(0, 1) == [0];
  }

  lemma ParsePacket(frame: seq<byte>, frameId: u64, offset: nat, payload: seq<byte>)
    requires 0 < |frame| <= MAX_FRAME && 0 < |payload| <= MAX_FRAGMENT && offset + |payload| <= |frame|
    ensures MediaPacket(frame, frameId, offset, payload).Ok?
    ensures ParseMedia(MediaPacket(frame, frameId, offset, payload).value) ==
            Ok(Packet(Key(1, 1, frameId, 1), |frame|, offset, payload))
  {
    var h := MediaHeader(1, 5, 1, 1, frameId, NO_DEPENDENCY, |frame|, offset, |payload|);
    FieldsOfLayout(h, payload);
    var d := Layout(h) + payload;
    assert d[42..44] == [d[42], d[43]];
    assert d[HEADER_LENGTH..] == payload;
  }
}
