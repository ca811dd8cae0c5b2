/**
  The exact test codec of the lab: a PackBits variant. A control byte of 0x80 or more
  announces a run of 3 to 130 copies of one byte; a smaller one announces 1 to 128
  literal bytes. The encoder stops a literal only after it has reached 128 bytes, and
  steps over a pair in one go, so a literal of 129 bytes is possible; its control byte
  is then 0x80, which means something else to the decoder.
 */
module PackBits {
  import opened Bytes

  const MIN_RUN := 3
  const MAX_RUN := 130
  const LITERAL_LIMIT := 128

  datatype DecodeError = MalformedRun | DecompressionBound | MalformedLiteral | DecodedLength

  // ----- what the encoder computes

  /** Length of the longest run of equal bytes at `cursor`, looking no further than 130. */
  function RunAt(data: seq<byte>, cursor: nat): (run: nat)
    requires cursor < |data|
    ensures 1 <= run <= MAX_RUN && cursor + run <= |data|
  {
    ExtendRun(data, cursor, 1)
  }

  function ExtendRun(data: seq<byte>, cursor: nat, run: nat): (longest: nat)
    requires 1 <= run <= MAX_RUN && cursor + run <= |data|
    ensures run <= longest <= MAX_RUN && cursor + longest <= |data|
    decreases MAX_RUN - run
  {
    if run < MAX_RUN && cursor + run < |data| && data[cursor + run] == data[cursor]
    then ExtendRun(data, cursor, run + 1)
    else run
  }

  /** Where the literal that began at `start` ends, once the bytes before `cursor` are taken. */
  function LiteralEnd(data: seq<byte>, start: nat, cursor: nat): (end: nat)
    requires start < cursor <= |data| && cursor - start <= LITERAL_LIMIT + 1
    ensures cursor <= end <= |data| && end - start <= LITERAL_LIMIT + 1
    decreases |data| - cursor
  {
    if cursor < |data| && cursor - start < LITERAL_LIMIT && RunAt(data, cursor) < MIN_RUN
    then LiteralEnd(data, start, cursor + RunAt(data, cursor))
    else cursor
  }

  /** Where the block that starts at `cursor` ends. */
  function BlockEnd(data: seq<byte>, cursor: nat): (end: nat)
    requires cursor < |data|
    ensures cursor < end <= |data| && end - cursor <= MAX_RUN
    ensures RunAt(data, cursor) < MIN_RUN ==> end - cursor <= LITERAL_LIMIT + 1
  {
    var run := RunAt(data, cursor);
    if run >= MIN_RUN then cursor + run else LiteralEnd(data, cursor, cursor + run)
  }

  /** The block at `cursor` as it is written: control byte, then one byte or the literal. */
  function Block(data: seq<byte>, cursor: nat): (w: seq<byte>)
    requires cursor < |data|
    ensures |w| >= 2
  {
    var end := BlockEnd(data, cursor);
    if RunAt(data, cursor) >= MIN_RUN then [0x80 + (end - cursor - MIN_RUN), data[cursor]]
    else [end - cursor - 1] + data[cursor..end]
  }

  function EncodeFrom(data: seq<byte>, cursor: nat): seq<byte>
    requires cursor <= |data|
    decreases |data| - cursor
  {
    if cursor == |data| then []
    else Block(data, cursor) + EncodeFrom(data, BlockEnd(data, cursor))
  }

  function Encode(data: seq<byte>): seq<byte> {
    EncodeFrom(data, 0)
  }

  lemma RepeatOneMore(b: byte, n: nat)
    ensures Repeat(b, n + 1) == Repeat(b, n) + [b]
  {
  }

  /** `ExtendRun` finds equal bytes, and stops only at a different byte, the end or the limit. */
  lemma {:induction false} RunIsLongest(data: seq<byte>, cursor: nat, run: nat)
    requires 1 <= run <= MAX_RUN && cursor + run <= |data|
    requires data[cursor..cursor + run] == Repeat(data[cursor], run)
    ensures var longest := ExtendRun(data, cursor, run);
            && data[cursor..cursor + longest] == Repeat(data[cursor], longest)
            && (longest < MAX_RUN && cursor + longest < |data| ==> data[cursor + longest] != data[cursor])
    decreases MAX_RUN - run
  {
    hide Repeat;
    if run < MAX_RUN && cursor + run < |data| && data[cursor + run] == data[cursor] {
      assert data[cursor..cursor + run + 1] == data[cursor..cursor + run] + [data[cursor]];
      RepeatOneMore(data[cursor], run);
      RunIsLongest(data, cursor, run + 1);
    }
  }

  /** The run at `cursor` is equal bytes, and no longer one of at most 130 begins there. */
  lemma RunAtIsLongest(data: seq<byte>, cursor: nat)
    requires cursor < |data|
    ensures var run := RunAt(data, cursor);
            && data[cursor..cursor + run] == Repeat(data[cursor], run)
            && (run == MAX_RUN || cursor + run == |data| || data[cursor + run] != data[cursor])
  {
    RunIsLongest(data, cursor, 1);
  }

  /** Three equal bytes begin at `i`. */
  predicate TripleAt(data: seq<byte>, i: nat) {
    i + 2 < |data| && data[i] == data[i + 1] == data[i + 2]
  }

  /** A literal may end here: at the end, before three equal bytes, or once it is full, but not within a pair. */
  predicate LiteralStops(data: seq<byte>, start: nat, end: nat)
    requires start <= end <= |data|
  {
    end == |data| || TripleAt(data, end) || (end - start >= LITERAL_LIMIT && data[end - 1] != data[end])
  }

  lemma TripleExactly(data: seq<byte>, cursor: nat)
    requires cursor < |data|
    ensures RunAt(data, cursor) >= MIN_RUN <==> TripleAt(data, cursor)
    ensures RunAt(data, cursor) == 2 ==> data[cursor] == data[cursor + 1]
    ensures RunAt(data, cursor) < MIN_RUN ==>
              var end := cursor + RunAt(data, cursor); end == |data| || data[end] != data[end - 1]
  {
    var run := RunAt(data, cursor);
    RunAtIsLongest(data, cursor);
    hide RunAt;
    var same := data[cursor..cursor + run];
    assert run > 1 ==> data[cursor + 1] == same[1];
    assert run > 2 ==> data[cursor + 2] == same[2];
    assert data[cursor + run - 1] == same[run - 1];
  }

  lemma {:induction false} LiteralIsGreedy(data: seq<byte>, start: nat, cursor: nat)
    requires start < cursor <= |data| && cursor - start <= LITERAL_LIMIT + 1
    requires cursor < |data| ==> data[cursor - 1] != data[cursor]
    ensures var end := LiteralEnd(data, start, cursor);
            && LiteralStops(data, start, end)
            && (forall i :: cursor <= i < end ==> !TripleAt(data, i) && !LiteralStops(data, start, i))
    decreases |data| - cursor
  {
    hide RunAt;
    if cursor < |data| {
      TripleExactly(data, cursor);
      if cursor - start < LITERAL_LIMIT && RunAt(data, cursor) < MIN_RUN {
        LiteralIsGreedy(data, start, cursor + RunAt(data, cursor));
      }
    }
  }

  /**
    A block that begins with three equal bytes is the longest run of them up to 130. Any other
    is a literal that takes bytes up to the first place where a literal may end.
   */
  lemma BlocksExactly(data: seq<byte>, cursor: nat)
    requires cursor < |data|
    ensures var end := BlockEnd(data, cursor);
            if TripleAt(data, cursor) then
              && Block(data, cursor) == [0x80 + (end - cursor - 3), data[cursor]]
              && data[cursor..end] == Repeat(data[cursor], end - cursor)
              && (end - cursor == 130 || end == |data| || data[end] != data[cursor])
            else
              && Block(data, cursor) == [end - cursor - 1] + data[cursor..end]
              && LiteralStops(data, cursor, end)
              && forall i :: cursor < i < end ==> !LiteralStops(data, cursor, i)
  {
    hide RunAt, LiteralEnd, TripleAt, LiteralStops, Repeat;
    TripleExactly(data, cursor);
    if TripleAt(data, cursor) {
      RunAtIsLongest(data, cursor);
    } else {
      LiteralExactly(data, cursor);
    }
  }

  lemma LiteralExactly(data: seq<byte>, cursor: nat)
    requires cursor < |data| && RunAt(data, cursor) < MIN_RUN
    ensures var end := BlockEnd(data, cursor);
            LiteralStops(data, cursor, end) && forall i :: cursor < i < end ==> !LiteralStops(data, cursor, i)
  {
    hide RunAt, LiteralEnd;
    TripleExactly(data, cursor);
    var first := cursor + RunAt(data, cursor);
    LiteralIsGreedy(data, cursor, first);
    forall i | cursor < i < first ensures !LiteralStops(data, cursor, i) {
      assert i == cursor + 1;
    }
  }

  // ----- what the decoder computes

  /** The block read at `start`, with room for `room` more bytes: its bytes, and where the next one begins. */
  function BlockOf(payload: seq<byte>, start: nat, room: int): (r: Result<(seq<byte>, nat), DecodeError>)
    requires start < |payload|
    ensures r.Ok? ==> start < r.value.1 <= |payload| && |r.value.0| <= room
  {
    var control := payload[start];
    if control >= 0x80 then
      var count := control - 0x80 + MIN_RUN;
      if start + 1 >= |payload| then Err(MalformedRun)
      else if count > room then Err(DecompressionBound)
      else Ok((Repeat(payload[start + 1], count), start + 2))
    else
      var end := start + 1 + control + 1;
      if end > |payload| || control + 1 > room then Err(MalformedLiteral)
      else Ok((payload[start + 1..end], end))
  }

  function DecodeFrom(payload: seq<byte>, cursor: nat, out: seq<byte>, expected: int): Result<seq<byte>, DecodeError>
    decreases |payload| - cursor
  {
    if cursor >= |payload| then
      if |out| == expected then Ok(out) else Err(DecodedLength)
    else
      match BlockOf(payload, cursor, expected - |out|)
      case Err(e) => Err(e)
      case Ok((bytes, next)) => DecodeFrom(payload, next, out + bytes, expected)
  }

  function Decode(payload: seq<byte>, expected: int): Result<seq<byte>, DecodeError> {
    DecodeFrom(payload, 0, [], expected)
  }

  // ----- what the decoder accepts

  /** What one block stands for. */
  datatype Piece = Run(count: nat, value: byte) | Literal(bytes: seq<byte>)

  predicate ValidPiece(p: Piece) {
    match p
    case Run(count, _) => MIN_RUN <= count <= MAX_RUN
    case Literal(bytes) => 1 <= |bytes| <= LITERAL_LIMIT
  }

  predicate AllValid(pieces: seq<Piece>) {
    forall p <- pieces :: ValidPiece(p)
  }

  function PieceBytes(p: Piece): seq<byte>
    requires ValidPiece(p)
  {
    match p
    case Run(count, value) => [0x80 + (count - MIN_RUN), value]
    case Literal(bytes) => [|bytes| - 1] + bytes
  }

  function PieceData(p: Piece): seq<byte> {
    match p
    case Run(count, value) => Repeat(value, count)
    case Literal(bytes) => bytes
  }

  function Written(pieces: seq<Piece>): seq<byte>
    requires AllValid(pieces)
  {
    if pieces == [] then [] else PieceBytes(pieces[0]) + Written(pieces[1..])
  }

  function Expanded(pieces: seq<Piece>): seq<byte> {
    if pieces == [] then [] else PieceData(pieces[0]) + Expanded(pieces[1..])
  }

  /** A block that is read is a piece. */
  lemma ReadsPiece(payload: seq<byte>, start: nat, room: int) returns (p: Piece)
    requires start < |payload| && BlockOf(payload, start, room).Ok?
    ensures var (bytes, next) := BlockOf(payload, start, room).value;
            ValidPiece(p) && PieceData(p) == bytes && payload[start..] == PieceBytes(p) + payload[next..]
  {
    var (bytes, next) := BlockOf(payload, start, room).value;
    if payload[start] >= 0x80 {
      p := Run(payload[start] - 0x80 + MIN_RUN, payload[start + 1]);
    } else {
      p := Literal(bytes);
    }
  }

  /** A piece that is written is read, if there is room for it. */
  lemma PieceIsRead(payload: seq<byte>, start: nat, room: int, p: Piece, rest: seq<byte>)
    requires ValidPiece(p) && |PieceData(p)| <= room && start <= |payload| && payload[start..] == PieceBytes(p) + rest
    ensures var next := start + |PieceBytes(p)|;
            && start < next <= |payload| && payload[next..] == rest
            && BlockOf(payload, start, room) == Ok((PieceData(p), next))
  {
    var block, tail := PieceBytes(p), payload[start..];
    assert payload[start] == tail[0] == block[0];
    assert payload[start + |block|..] == tail[|block|..];
    if p.Literal? {
      assert payload[start + 1..start + |block|] == tail[1..|block|] == block[1..];
    } else {
      assert payload[start + 1] == tail[1] == block[1];
    }
  }

  lemma {:induction false} DecodesOnlyPieces(payload: seq<byte>, cursor: nat, out: seq<byte>, expected: int)
    returns (pieces: seq<Piece>)
    requires cursor <= |payload| && DecodeFrom(payload, cursor, out, expected).Ok?
    ensures AllValid(pieces) && Written(pieces) == payload[cursor..]
    ensures DecodeFrom(payload, cursor, out, expected) == Ok(out + Expanded(pieces))
    ensures |out + Expanded(pieces)| == expected
    decreases |payload| - cursor
  {
    hide BlockOf, PieceBytes, PieceData;
    if cursor >= |payload| {
      pieces := [];
      assert out + [] == out;
    } else {
      var (bytes, next) := BlockOf(payload, cursor, expected - |out|).value;
      var p := ReadsPiece(payload, cursor, expected - |out|);
      var rest := DecodesOnlyPieces(payload, next, out + bytes, expected);
      pieces := [p] + rest;
      assert pieces[1..] == rest;
      assert out + Expanded(pieces) == out + bytes + Expanded(rest);
    }
  }

  lemma {:induction false} PiecesDecode(
      payload: seq<byte>, cursor: nat, out: seq<byte>, expected: int, pieces: seq<Piece>)
    requires cursor <= |payload| && AllValid(pieces) && payload[cursor..] == Written(pieces)
    requires |out| + |Expanded(pieces)| == expected
    ensures DecodeFrom(payload, cursor, out, expected) == Ok(out + Expanded(pieces))
    decreases |pieces|
  {
    hide BlockOf, PieceBytes, PieceData;
    if pieces == [] {
      assert out + [] == out;
    } else {
      var p, rest := pieces[0], pieces[1..];
      PieceIsRead(payload, cursor, expected - |out|, p, Written(rest));
      PiecesDecode(payload, cursor + |PieceBytes(p)|, out + PieceData(p), expected, rest);
      assert out + Expanded(pieces) == out + PieceData(p) + Expanded(rest);
    }
  }

  ghost predicate IsWriting(payload: seq<byte>, data: seq<byte>) {
    exists pieces :: AllValid(pieces) && Written(pieces) == payload && Expanded(pieces) == data
  }

  /** The decoder returns `data` exactly if the payload writes it as runs and literals and its length is as expected. */
  lemma {:induction false} DecodesExactly(payload: seq<byte>, expected: int, data: seq<byte>)
    ensures Decode(payload, expected) == Ok(data) <==> |data| == expected && IsWriting(payload, data)
  {
    hide DecodeFrom, Written, Expanded;
    assert payload[0..] == payload;
    if Decode(payload, expected) == Ok(data) {
      var pieces := DecodesOnlyPieces(payload, 0, [], expected);
      assert [] + Expanded(pieces) == Expanded(pieces);
    }
    if |data| == expected {
      forall pieces | AllValid(pieces) && Written(pieces) == payload && Expanded(pieces) == data
        ensures Decode(payload, expected) == Ok(data)
      {
        PiecesDecode(payload, 0, [], expected, pieces);
        assert [] + Expanded(pieces) == Expanded(pieces);
      }
    }
  }

  /** Where a payload is refused: behind some pieces, with one of four faults. */
  predicate RefusedBehind(payload: seq<byte>, expected: int, pieces: seq<Piece>, error: DecodeError)
    requires AllValid(pieces)
  {
    var at, room := |Written(pieces)|, expected - |Expanded(pieces)|;
    && Written(pieces) <= payload
    && match error
       case MalformedRun => at + 1 == |payload| && payload[at] >= 0x80
       case DecompressionBound => at + 1 < |payload| && payload[at] >= 0x80 && payload[at] - 0x80 + 3 > room
       case MalformedLiteral =>
         at < |payload| && payload[at] < 0x80 && (payload[at] + 1 > |payload| - (at + 1) || payload[at] + 1 > room)
       case DecodedLength => at == |payload| && room != 0
  }

  lemma {:induction false} MorePieces(pieces: seq<Piece>, p: Piece)
    requires AllValid(pieces) && ValidPiece(p)
    ensures AllValid(pieces + [p]) && Written(pieces + [p]) == Written(pieces) + PieceBytes(p)
    ensures Expanded(pieces + [p]) == Expanded(pieces) + PieceData(p)
  {
    hide PieceBytes, PieceData;
    if pieces == [] {
      assert [p][1..] == [] && pieces + [p] == [p];
    } else {
      MorePieces(pieces[1..], p);
      assert (pieces + [p])[1..] == pieces[1..] + [p];
    }
  }

  lemma {:induction false} RefusesFrom(payload: seq<byte>, cursor: nat, pieces: seq<Piece>, expected: int)
    returns (read: seq<Piece>)
    requires cursor <= |payload| && AllValid(pieces) && Written(pieces) == payload[..cursor]
    requires DecodeFrom(payload, cursor, Expanded(pieces), expected).Err?
    ensures AllValid(read)
    ensures RefusedBehind(payload, expected, read, DecodeFrom(payload, cursor, Expanded(pieces), expected).error)
    decreases |payload| - cursor
  {
    hide PieceBytes, PieceData, Written, Expanded;
    var room := expected - |Expanded(pieces)|;
    if cursor == |payload| || BlockOf(payload, cursor, room).Err? {
      read := pieces;
    } else {
      hide BlockOf;
      var next := BlockOf(payload, cursor, room).value.1;
      var p := ReadsPiece(payload, cursor, room);
      MorePieces(pieces, p);
      NextPiece(payload, cursor, next, PieceBytes(p));
      read := RefusesFrom(payload, next, pieces + [p], expected);
    }
  }

  lemma NextPiece(payload: seq<byte>, cursor: nat, next: nat, block: seq<byte>)
    requires cursor <= next <= |payload| && payload[cursor..] == block + payload[next..]
    ensures payload[..next] == payload[..cursor] + block
  {
    assert |block| == next - cursor;
    assert payload[cursor..next] == payload[cursor..][..next - cursor];
    assert payload[..next] == payload[..cursor] + payload[cursor..next];
  }

  /** Whatever the decoder refuses has one of the four faults, behind the pieces that were read. */
  lemma {:induction false} DecodeRefuses(payload: seq<byte>, expected: int) returns (read: seq<Piece>)
    requires Decode(payload, expected).Err?
    ensures AllValid(read) && RefusedBehind(payload, expected, read, Decode(payload, expected).error)
  {
    hide DecodeFrom, RefusedBehind;
    assert payload[..0] == [];
    NoPieces();
    read := RefusesFrom(payload, 0, [], expected);
  }

  lemma NoPieces()
    ensures Written([]) == [] && Expanded([]) == []
  {
  }

  // ----- the round trip, and exactly when it holds

  /** A literal of 129 bytes starts at `cursor`. */
  predicate OversizeAt(data: seq<byte>, cursor: nat)
    requires cursor < |data|
  {
    RunAt(data, cursor) < MIN_RUN && BlockEnd(data, cursor) - cursor == LITERAL_LIMIT + 1
  }

  /** Start of the first 129-byte literal among the blocks from `cursor` on, or the end of the data. */
  function FirstOversize(data: seq<byte>, cursor: nat): (at: nat)
    requires cursor <= |data|
    ensures cursor <= at <= |data| && (at < |data| ==> OversizeAt(data, at))
    decreases |data| - cursor
  {
    if cursor == |data| || OversizeAt(data, cursor) then cursor
    else FirstOversize(data, BlockEnd(data, cursor))
  }

  /** The guard of the failing case: some literal of the encoding of `data` holds 129 bytes. */
  predicate HasOversizeLiteral(data: seq<byte>) {
    FirstOversize(data, 0) < |data|
  }

  /** Every other block, wherever it is written, reads back as the bytes it covers. */
  lemma ReadsBack(data: seq<byte>, cursor: nat, payload: seq<byte>, start: nat)
    requires cursor < |data| && !OversizeAt(data, cursor)
    requires start < |payload| && Block(data, cursor) <= payload[start..]
    ensures BlockOf(payload, start, |data| - cursor) ==
            Ok((data[cursor..BlockEnd(data, cursor)], start + |Block(data, cursor)|))
  {
    hide LiteralEnd;
    var end := BlockEnd(data, cursor);
    var block := Block(data, cursor);
    assert forall k :: 0 <= k < |block| ==> payload[start..][k] == block[k];
    if RunAt(data, cursor) >= MIN_RUN {
      RunIsLongest(data, cursor, 1);
    } else {
      assert payload[start + 1..start + |block|] == block[1..];
    }
  }

  /** Decoding is right up to the first 129-byte literal, from which `at` bytes are left to read. */
  lemma {:induction false} DecodeUpTo(data: seq<byte>, cursor: nat, payload: seq<byte>, start: nat) returns (at: nat)
    requires cursor <= |data| && start <= |payload| && payload[start..] == EncodeFrom(data, cursor)
    ensures var first := FirstOversize(data, cursor);
            && at <= |payload| && payload[at..] == EncodeFrom(data, first)
            && DecodeFrom(payload, start, data[..cursor], |data|) == DecodeFrom(payload, at, data[..first], |data|)
    decreases |data| - cursor
  {
    hide Block, BlockEnd, BlockOf, OversizeAt;
    if cursor == |data| || OversizeAt(data, cursor) {
      at := start;
    } else {
      var end, next := BlockEnd(data, cursor), start + |Block(data, cursor)|;
      ReadsBack(data, cursor, payload, start);
      assert payload[next..] == payload[start..][|Block(data, cursor)|..];
      assert data[..cursor] + data[cursor..end] == data[..end];
      at := DecodeUpTo(data, end, payload, next);
    }
  }

  lemma {:induction false} DecodeExtends(payload: seq<byte>, cursor: nat, out: seq<byte>, expected: int)
    ensures var r := DecodeFrom(payload, cursor, out, expected);
            r.Ok? ==> |r.value| == expected && out <= r.value
    decreases |payload| - cursor
  {
    if cursor >= |payload| {
    } else {
      var block := BlockOf(payload, cursor, expected - |out|);
      if block.Ok? {
        DecodeExtends(payload, block.value.1, out + block.value.0, expected);
      }
    }
  }

  /** The decoder takes a literal of 129 bytes for a run of three copies of its first byte. */
  lemma ReadsOversize(data: seq<byte>, at: nat, payload: seq<byte>, start: nat)
    requires at < |data| && OversizeAt(data, at)
    requires start < |payload| && Block(data, at) <= payload[start..]
    ensures BlockOf(payload, start, |data| - at) == Ok((Repeat(data[at], 3), start + 2))
  {
    hide LiteralEnd;
    assert payload[start..][0] == 0x80 && payload[start..][1] == data[at];
  }

  /**
    At the first literal of 129 bytes the decoder writes three copies of its first byte.
    Whatever it makes of the rest, a decoded frame differs from the input right there.
   */
  lemma {:induction false} OversizeLiteralCorrupts(data: seq<byte>)
    requires HasOversizeLiteral(data)
    ensures var at := FirstOversize(data, 0);
            var r := Decode(Encode(data), |data|);
            at + 3 <= |data| && data[at..at + 3] != Repeat(data[at], 3) &&
            (r.Ok? ==> |r.value| == |data| && r.value[at..at + 3] == Repeat(data[at], 3))
  {
    hide LiteralEnd, FirstOversize, Block, BlockEnd, BlockOf, Repeat;
    var payload := Encode(data);
    var start := DecodeUpTo(data, 0, payload, 0);
    assert data[..0] == [];
    var at := FirstOversize(data, 0);
    ReadsOversize(data, at, payload, start);
    var out := data[..at] + Repeat(data[at], 3);
    DecodeExtends(payload, start + 2, out, |data|);
    assert out[at..] == Repeat(data[at], 3);
    LiteralOpening(data, at);
  }

  /** A literal never opens with three equal bytes: those would have been a run. */
  lemma LiteralOpening(data: seq<byte>, at: nat)
    requires at + 3 <= |data| && RunAt(data, at) < MIN_RUN
    ensures data[at..at + 3] != Repeat(data[at], 3)
  {
    var run := RunAt(data, at);
    RunIsLongest(data, at, 1);
    assert data[at..at + 3][run] == data[at + run];
  }

  /** The round trip holds for exactly the inputs whose encoding has no 129-byte literal. */
  lemma RoundTripExactly(data: seq<byte>)
    ensures Decode(Encode(data), |data|) == Ok(data) <==> !HasOversizeLiteral(data)
  {
    if HasOversizeLiteral(data) {
      OversizeLiteralCorrupts(data);
    } else {
      var at := DecodeUpTo(data, 0, Encode(data), 0);
      assert data[..0] == [] && data[..|data|] == data;
    }
  }

  /**
    Inputs on which the round trip fails: 127 bytes without equal neighbours, then a pair
    that no third copy extends.
   */
  lemma PairAcrossLimit(data: seq<byte>)
    requires |data| >= 129
    requires forall k {:trigger data[k]} :: 0 <= k < 127 ==> data[k] != data[k + 1]
    requires data[127] == data[128] && (|data| > 129 ==> data[129] != data[128])
    ensures Decode(Encode(data), |data|) != Ok(data)
  {
    forall k | 0 <= k < 127 ensures RunAt(data, k) == 1 {
      assert data[k] != data[k + 1];
    }
    LiteralReaches(data, 1);
    assert RunAt(data, 127) == 2;
    RoundTripExactly(data);
  }

  lemma {:induction false} LiteralReaches(data: seq<byte>, cursor: nat)
    requires |data| >= 129 && 1 <= cursor <= 127
    requires forall k :: 0 <= k < 127 ==> RunAt(data, k) == 1
    ensures LiteralEnd(data, 0, cursor) == LiteralEnd(data, 0, 127)
    decreases 127 - cursor
  {
    if cursor >= 127 {
    } else {
      assert RunAt(data, cursor) == 1;
      LiteralReaches(data, cursor + 1);
    }
  }

  // ----- expansion bound

  /**
    A literal shorter than 128 bytes is last or is followed by a run, whose saving pays
    for the literal's control byte; the other literals cost one byte for every 128.
   */
  lemma {:induction false} ExpansionFrom(data: seq<byte>, cursor: nat)
    requires cursor <= |data|
    ensures var left := |data| - cursor;
            var size := |EncodeFrom(data, cursor)|;
            && size <= left + left / 128 + 1
            && (left > 0 && RunAt(data, cursor) >= MIN_RUN ==> size <= left + left / 128)
    decreases |data| - cursor
  {
    hide RunAt, LiteralEnd, Block, EncodeFrom, BlockEnd;
    EncodeEnd(data);
    if cursor >= |data| {
    } else {
      EncodeStep(data, cursor);
      ExpansionFrom(data, BlockEnd(data, cursor));
      if RunAt(data, cursor) < MIN_RUN {
        LiteralBlock(data, cursor);
      }
    }
  }

  lemma EncodeEnd(data: seq<byte>)
    ensures EncodeFrom(data, |data|) == []
  {
  }

  lemma EncodeStep(data: seq<byte>, cursor: nat)
    requires cursor < |data|
    ensures var end := BlockEnd(data, cursor);
            |EncodeFrom(data, cursor)| ==
              (if RunAt(data, cursor) >= MIN_RUN then 2 else 1 + end - cursor) + |EncodeFrom(data, end)|
    ensures RunAt(data, cursor) >= MIN_RUN ==> BlockEnd(data, cursor) == cursor + RunAt(data, cursor)
  {
    hide RunAt, LiteralEnd;
  }

  lemma LiteralBlock(data: seq<byte>, cursor: nat)
    requires cursor < |data| && RunAt(data, cursor) < MIN_RUN
    ensures var end := BlockEnd(data, cursor);
            end < |data| && end - cursor < LITERAL_LIMIT ==> RunAt(data, end) >= MIN_RUN
  {
    hide RunAt, LiteralEnd;
    LiteralStopsAtRun(data, cursor, cursor + RunAt(data, cursor));
  }

  lemma {:induction false} LiteralStopsAtRun(data: seq<byte>, start: nat, cursor: nat)
    requires start < cursor <= |data| && cursor - start <= LITERAL_LIMIT + 1
    ensures var end := LiteralEnd(data, start, cursor);
            end < |data| && end - start < LITERAL_LIMIT ==> RunAt(data, end) >= MIN_RUN
    decreases |data| - cursor
  {
    if cursor < |data| && cursor - start < LITERAL_LIMIT && RunAt(data, cursor) < MIN_RUN {
      LiteralStopsAtRun(data, start, cursor + RunAt(data, cursor));
    }
  }

  lemma ExpansionBound(data: seq<byte>)
    ensures |Encode(data)| <= |data| + |data| / 128 + 1
  {
    ExpansionFrom(data, 0);
  }

  // ----- the source's loops

  method CountRun(data: seq<byte>, cursor: nat) returns (run: nat)
    requires cursor < |data|
    ensures run == RunAt(data, cursor)
  {
    run := 1;
    while cursor + run < |data| && data[cursor + run] == data[cursor] && run < MAX_RUN
      invariant 1 <= run <= MAX_RUN && cursor + run <= |data|
      invariant RunAt(data, cursor) == ExtendRun(data, cursor, run)
    {
      run := run + 1;
    }
  }

  method ScanLiteral(data: seq<byte>, start: nat, first: nat) returns (cursor: nat)
    requires start < first <= |data| && first - start <= LITERAL_LIMIT
    ensures cursor == LiteralEnd(data, start, first)
  {
    cursor := first;
    while cursor < |data| && cursor - start < LITERAL_LIMIT
      invariant start < cursor <= |data| && cursor - start <= LITERAL_LIMIT + 1
      invariant LiteralEnd(data, start, first) == LiteralEnd(data, start, cursor)
    {
      var nextRun := CountRun(data, cursor);
      if nextRun >= MIN_RUN {
        break;
      }
      cursor := cursor + nextRun;
    }
  }

  method WriteBlock(data: seq<byte>, start: nat) returns (block: seq<byte>, cursor: nat)
    requires start < |data|
    ensures block == Block(data, start) && cursor == BlockEnd(data, start)
  {
    hide RunAt, LiteralEnd;
    var run := CountRun(data, start);
    if run >= MIN_RUN {
      return [0x80 + (run - MIN_RUN), data[start]], start + run;
    }
    cursor := ScanLiteral(data, start, start + run);
    block := [cursor - start - 1] + data[start..cursor];
  }

  method EncodePackBits(data: seq<byte>) returns (out: seq<byte>)
    ensures out == Encode(data)
  {
    out := [];
    var cursor := 0;
    while cursor < |data|
      invariant 0 <= cursor <= |data|
      invariant Encode(data) == out + EncodeFrom(data, cursor)
    {
      var block, end := WriteBlock(data, cursor);
      assert out + block + EncodeFrom(data, end) == out + EncodeFrom(data, cursor);
      out := out + block;
      cursor := end;
    }
  }

  method ReadBlock(payload: seq<byte>, start: nat, room: int) returns (r: Result<(seq<byte>, nat), DecodeError>)
    requires start < |payload|
    ensures r == BlockOf(payload, start, room)
  {
    var control := payload[start];
    var cursor := start + 1;
    if control >= 0x80 {
      var count := control % 0x80 + MIN_RUN;
      if cursor >= |payload| {
        return Err(MalformedRun);
      }
      if count > room {
        return Err(DecompressionBound);
      }
      return Ok((Repeat(payload[cursor], count), cursor + 1));
    }
    var end := cursor + control + 1;
    if end > |payload| || control + 1 > room {
      return Err(MalformedLiteral);
    }
    return Ok((payload[cursor..end], end));
  }

  method DecodePackBits(payload: seq<byte>, expected: int) returns (r: Result<seq<byte>, DecodeError>)
    ensures r == Decode(payload, expected)
  {
    var out: seq<byte> := [];
    var cursor := 0;
    while cursor < |payload|
      invariant 0 <= cursor <= |payload|
      invariant Decode(payload, expected) == DecodeFrom(payload, cursor, out, expected)
    {
      var block := ReadBlock(payload, cursor, expected - |out|);
      if block.Err? {
        return Err(block.error);
      }
      out := out + block.value.0;
      cursor := block.value.1;
    }
    if |out| != expected {
      return Err(DecodedLength);
    }
    return Ok(out);
  }
}
