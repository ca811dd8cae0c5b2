/** The whole path of a lab frame: encode, cut into datagrams, deliver in any order, reassemble, decode. */
module EndToEnd {
  import opened Bytes
  import opened MediaWire
  import opened Tiling
  import opened Reassembly
  import opened ReassemblyRuns
  import opened Delivery
  import ExactFrame
  import PackBits

  // ----- the fragmenter

  /** The pieces of `frame` at `offset`, `offset + cap`, and so on. */
  function Chunks(frame: seq<byte>, cap: nat, offset: nat): Fragments
    requires cap > 0
    decreases |frame| - offset
  {
    if offset >= |frame| then map[]
    else Chunks(frame, cap, offset + cap)[offset := Chunk(frame, cap, offset)]
  }

  function Chunk(frame: seq<byte>, cap: nat, offset: nat): seq<byte>
    requires offset <= |frame|
  {
    frame[offset..if offset + cap <= |frame| then offset + cap else |frame|]
  }

  function PacketFor(frame: seq<byte>, frameId: u64, offset: nat, payload: seq<byte>): seq<byte>
    requires |frame| <= MAX_FRAME && offset <= MAX_FRAME && |payload| <= MAX_FRAGMENT
  {
    MediaPacket(frame, frameId, offset, payload).value
  }

  function Packets(frame: seq<byte>, frameId: u64, cap: nat, offset: nat): seq<seq<byte>>
    requires 0 < cap <= MAX_FRAGMENT && |frame| <= MAX_FRAME
    decreases |frame| - offset
  {
    if offset >= |frame| then []
    else [PacketFor(frame, frameId, offset, Chunk(frame, cap, offset))] + Packets(frame, frameId, cap, offset + cap)
  }

  function Fragment(frame: seq<byte>, frameId: int, mtu: int): Result<seq<seq<byte>>, PackError> {
    var cap := mtu - HEADER_LENGTH;
    if frame == [] || |frame| > MAX_FRAME || cap <= 0 || cap > MAX_FRAGMENT then Err(FragmentBounds)
    else if !(0 <= frameId <= NO_DEPENDENCY) then Err(PackRange)
    else Ok(Packets(frame, frameId, cap, 0))
  }

  /** Cut is exactly a frame of 1 to 16777216 bytes, by an MTU of 45 to 16428, under a 64-bit number. */
  lemma FragmentsExactly(frame: seq<byte>, frameId: int, mtu: int)
    ensures var r := Fragment(frame, frameId, mtu);
            && (r.Ok? <==>
                 1 <= |frame| <= 16777216 && 45 <= mtu <= 16428 && 0 <= frameId < 0x1_0000_0000_0000_0000)
            && (r == Err(PackRange) <==>
                 && 1 <= |frame| <= 16777216 && 45 <= mtu <= 16428
                 && (frameId < 0 || frameId >= 0x1_0000_0000_0000_0000))
  {
    hide Packets;
  }

  /** The pieces are disjoint, inside the frame, and each is the slice at its offset. */
  lemma {:induction false} ChunksCut(frame: seq<byte>, cap: nat, offset: nat)
    requires cap > 0
    ensures Within(Chunks(frame, cap, offset), offset, |frame|)
    ensures forall o <- Chunks(frame, cap, offset) ::
              Chunks(frame, cap, offset)[o] == Chunk(frame, cap, o) == frame[o..o + |Chunk(frame, cap, o)|]
    decreases |frame| - offset
  {
    hide Within;
    if offset < |frame| {
      ChunksCut(frame, cap, offset + cap);
      PutFirst(Chunks(frame, cap, offset + cap), offset, Chunk(frame, cap, offset), |frame|);
    } else {
      NoChunks(offset, |frame|);
    }
  }

  lemma NoChunks(lo: nat, hi: nat)
    ensures Within(map[], lo, hi)
  {
  }

  /** A piece before all others. */
  lemma PutFirst(rest: Fragments, o: nat, payload: seq<byte>, hi: nat)
    requires payload != [] && o + |payload| <= hi
    requires Within(rest, o + |payload|, hi) || rest == map[]
    ensures Within(rest[o := payload], o, hi)
  {
    var m := rest[o := payload];
    forall p <- m, q <- m | p != q ensures Apart(m, p, q) {
      if p != o && q != o {
        assert Apart(rest, p, q);
      }
    }
  }

  /** No byte of the frame is left out. */
  lemma {:induction false} ChunksCover(frame: seq<byte>, cap: nat, offset: nat, i: nat)
    requires cap > 0 && offset <= i < |frame|
    ensures Covered(Chunks(frame, cap, offset), i)
    decreases |frame| - offset
  {
    hide Within;
    var rest := Chunks(frame, cap, offset + cap);
    if i < offset + cap {
      assert CoveredBy(Chunks(frame, cap, offset), i, offset);
    } else {
      ChunksCover(frame, cap, offset + cap, i);
      assert offset !in rest by { ChunksLater(frame, cap, offset + cap, offset); }
      CoveredAfter(rest, offset, Chunk(frame, cap, offset), i);
    }
  }

  lemma ChunksLater(frame: seq<byte>, cap: nat, lo: nat, o: nat)
    requires cap > 0 && o < lo
    ensures o !in Chunks(frame, cap, lo)
  {
    hide Chunks;
    ChunksCut(frame, cap, lo);
  }

  lemma CoveredAfter(rest: Fragments, o: nat, payload: seq<byte>, i: nat)
    requires o !in rest && Covered(rest, i)
    ensures Covered(rest[o := payload], i)
  {
    var p: nat :| CoveredBy(rest, i, p);
    assert CoveredBy(rest[o := payload], i, p);
  }

  /** The datagram for the chunk at `o`. */
  function Sent(frame: seq<byte>, frameId: u64, cap: nat, o: nat): seq<byte>
    requires 0 < cap <= MAX_FRAGMENT && |frame| <= MAX_FRAME && o <= |frame|
  {
    PacketFor(frame, frameId, o, Chunk(frame, cap, o))
  }

  /** The fragmenter sends one datagram for each chunk, and nothing else. */
  lemma {:induction false} SendsEachChunk(frame: seq<byte>, frameId: u64, cap: nat, offset: nat)
    requires 0 < cap <= MAX_FRAGMENT && |frame| <= MAX_FRAME
    ensures forall o <- Chunks(frame, cap, offset) ::
              o < |frame| && Sent(frame, frameId, cap, o) in Packets(frame, frameId, cap, offset)
    ensures forall d <- Packets(frame, frameId, cap, offset) ::
              exists o :: o in Chunks(frame, cap, offset) && o < |frame| && d == Sent(frame, frameId, cap, o)
    decreases |frame| - offset
  {
    hide PacketFor, Chunk;
    if offset >= |frame| {
    } else {
      SendsEachChunk(frame, frameId, cap, offset + cap);
      var rest := Packets(frame, frameId, cap, offset + cap);
      assert Packets(frame, frameId, cap, offset) == [Sent(frame, frameId, cap, offset)] + rest;
      forall d <- Packets(frame, frameId, cap, offset)
        ensures exists o :: o in Chunks(frame, cap, offset) && o < |frame| && d == Sent(frame, frameId, cap, o)
      {
        if d == Sent(frame, frameId, cap, offset) {
          assert offset in Chunks(frame, cap, offset);
        } else {
          assert d in rest;
          var o :| o in Chunks(frame, cap, offset + cap) && o < |frame| && d == Sent(frame, frameId, cap, o);
          assert o in Chunks(frame, cap, offset);
        }
      }
    }
  }

  /** They are sent in the order of their offsets, which are the multiples of the fragment size. */
  lemma {:induction false} SendsInOrder(frame: seq<byte>, frameId: u64, cap: nat, offset: nat)
    requires 0 < cap <= MAX_FRAGMENT && |frame| <= MAX_FRAME
    ensures var packets := Packets(frame, frameId, cap, offset);
            && |packets| == |Chunks(frame, cap, offset)|
            && forall i :: 0 <= i < |packets| ==>
                 offset + i * cap < |frame| && packets[i] == Sent(frame, frameId, cap, offset + i * cap)
    decreases |frame| - offset
  {
    hide PacketFor, Chunk;
    if offset >= |frame| {
    } else {
      SendsInOrder(frame, frameId, cap, offset + cap);
      ChunksLater(frame, cap, offset + cap, offset);
      var packets, rest := Packets(frame, frameId, cap, offset), Packets(frame, frameId, cap, offset + cap);
      forall i | 0 <= i < |packets|
        ensures offset + i * cap < |frame| && packets[i] == Sent(frame, frameId, cap, offset + i * cap)
      {
        if i > 0 {
          assert offset + cap + (i - 1) * cap == offset + i * cap;
        }
      }
    }
  }

  function KeyOf(frameId: u64): Key {
    Key(1, 1, frameId, 1)
  }

  /** Each datagram parses as the chunk it was made for. */
  lemma SentParses(frame: seq<byte>, frameId: u64, cap: nat, o: nat)
    requires 0 < cap <= MAX_FRAGMENT && 0 < |frame| <= MAX_FRAME && o in Chunks(frame, cap, 0)
    ensures o < |frame|
    ensures ParseMedia(Sent(frame, frameId, cap, o)) ==
            Ok(Packet(KeyOf(frameId), |frame|, o, Chunks(frame, cap, 0)[o]))
  {
    ChunksCut(frame, cap, 0);
    ParsePacket(frame, frameId, o, Chunk(frame, cap, o));
  }

  lemma CutUp(frame: seq<byte>, cap: nat)
    requires cap > 0 && 0 < |frame| <= MAX_FRAME
    ensures CutsUp(Chunks(frame, cap, 0), frame)
  {
    ChunksCut(frame, cap, 0);
    forall i | 0 <= i < |frame| ensures Covered(Chunks(frame, cap, 0), i) {
      ChunksCover(frame, cap, 0, i);
    }
  }

  // ----- delivery

  /**
    Operation `i` delivers one of the datagrams, or any byte string that is not a packet of
    this frame's key, or it is a discard; the last two do not cost the frame.
   */
  ghost predicate CleanStep(h: History, key: Key, packets: seq<seq<byte>>, i: nat) {
    i < |h.ops| && i + 1 < |h.states| &&
    match h.ops[i]
    case DiscardAll => key !in h.states[i].frames
    case Datagram(bytes) =>
      || bytes in packets
      || (&& (ParseMedia(bytes).Ok? ==> ParseMedia(bytes).value.key != key)
          && (key in h.states[i].frames ==> key in h.states[i + 1].frames))
  }

  /** A run of a reassembler with room for the frame, in which the frame's key is not disturbed. */
  ghost predicate CleanRun(h: History, key: Key, packets: seq<seq<byte>>, frameLen: nat) {
    && Recorded(h) && Inv(h.states[0]) && key !in h.states[0].frames
    && frameLen <= h.states[0].maxBytes && h.states[0].maxFrames >= 1
    && forall i {:trigger CleanStep(h, key, packets, i)} :: 0 <= i < |h.ops| ==> CleanStep(h, key, packets, i)
  }

  /** Operation `n` delivers the last of the datagrams still missing. */
  ghost predicate LastMissing(h: History, packets: seq<seq<byte>>, n: nat) {
    && n < |h.ops|
    && (forall d <- packets :: Datagram(d) in h.ops[..n + 1])
    && (exists d <- packets :: Datagram(d) !in h.ops[..n])
  }

  /** No delivery of a datagram before operation `n` returned anything. */
  ghost predicate SilentBefore(h: History, packets: seq<seq<byte>>, n: nat) {
    forall i :: 0 <= i < n && i < |h.ops| && i < |h.outcomes| && h.ops[i].Datagram? && h.ops[i].bytes in packets ==>
      h.outcomes[i] == Waiting
  }

  lemma CleanIsFair(h: History, frame: seq<byte>, frameId: u64, cap: nat)
    requires 0 < cap <= MAX_FRAGMENT && 0 < |frame| <= MAX_FRAME
    requires CleanRun(h, KeyOf(frameId), Packets(frame, frameId, cap, 0), |frame|)
    ensures FairRun(h, KeyOf(frameId), Chunks(frame, cap, 0), frame)
  {
    hide ParseMedia, Inv, CutsUp, Step, Chunks, Packets, Sent, Apply;
    CutUp(frame, cap);
    var key, chunks, packets := KeyOf(frameId), Chunks(frame, cap, 0), Packets(frame, frameId, cap, 0);
    forall i | 0 <= i < |h.ops| ensures Undisturbed(h, key, chunks, frame, i) {
      assert CleanStep(h, key, packets, i);
      if h.ops[i].Datagram? && h.ops[i].bytes in packets {
        SendsEachChunk(frame, frameId, cap, 0);
        var o :| o in chunks && o < |frame| && h.ops[i].bytes == Sent(frame, frameId, cap, o);
        SentParses(frame, frameId, cap, o);
      }
    }
  }

  lemma {:induction false} GotMember(ops: seq<Op>, key: Key, o: nat)
    ensures o in Got(ops, key) <==> exists op <- ops :: o in OffsetOf(op, key)
  {
    hide OffsetOf;
    if ops == [] {
    } else {
      var before, last := ops[..|ops| - 1], ops[|ops| - 1];
      GotMember(before, key, o);
      assert ops == before + [last];
    }
  }

  /** A chunk counts as received exactly when its datagram has been delivered. */
  lemma {:induction false} GotExactly(h: History, frame: seq<byte>, frameId: u64, cap: nat, n: nat, o: nat)
    requires 0 < cap <= MAX_FRAGMENT && 0 < |frame| <= MAX_FRAME && n <= |h.ops| && o in Chunks(frame, cap, 0)
    requires CleanRun(h, KeyOf(frameId), Packets(frame, frameId, cap, 0), |frame|)
    ensures o < |frame|
    ensures o in Got(h.ops[..n], KeyOf(frameId)) <==> Datagram(Sent(frame, frameId, cap, o)) in h.ops[..n]
  {
    hide ParseMedia, Inv, Step, Chunks, Packets, Sent, Got;
    SentParses(frame, frameId, cap, o);
    var key, packets := KeyOf(frameId), Packets(frame, frameId, cap, 0);
    GotMember(h.ops[..n], key, o);
    assert o in OffsetOf(Datagram(Sent(frame, frameId, cap, o)), key);
    forall i | 0 <= i < n && o in OffsetOf(h.ops[i], key) ensures h.ops[i] == Datagram(Sent(frame, frameId, cap, o)) {
      assert CleanStep(h, key, packets, i);
      SendsEachChunk(frame, frameId, cap, 0);
      var p :| p in Chunks(frame, cap, 0) && p < |frame| && h.ops[i].bytes == Sent(frame, frameId, cap, p);
      SentParses(frame, frameId, cap, p);
    }
  }

  /**
    End to end. Encode a frame, fragment it, and deliver the datagrams in any order, with
    duplicates and with other traffic in between. The delivery of the last missing datagram
    returns the frame, no earlier one returns anything, and decoding gives back the sequence
    number and the raw bytes exactly when the raw bytes fill the picture and their encoding
    has no 129-byte literal.
   */
  lemma {:induction false} FrameSurvivesDelivery(
      raw: seq<byte>, width: int, height: int, sequence: int, frameId: int, mtu: int, h: History, n: nat)
    requires var encoded := ExactFrame.EncodeExact(raw, width, height, sequence);
             encoded.Ok? && Fragment(encoded.value, frameId, mtu).Ok?
    requires var frame := ExactFrame.EncodeExact(raw, width, height, sequence).value;
             var packets := Fragment(frame, frameId, mtu).value;
             CleanRun(h, KeyOf(frameId), packets, |frame|) && LastMissing(h, packets, n)
    ensures var frame := ExactFrame.EncodeExact(raw, width, height, sequence).value;
            var packets := Fragment(frame, frameId, mtu).value;
            && h.outcomes[n] == Complete(frameId, frame)
            && SilentBefore(h, packets, n)
            && (ExactFrame.DecodeExact(frame) == Ok((sequence, raw)) <==>
                width > 0 && height > 0 && |raw| == width * 4 * height && !PackBits.HasOversizeLiteral(raw))
  {
    hide ExactFrame.EncodeExact, ExactFrame.DecodeExact, CleanRun, SilentBefore, Packets;
    var frame := ExactFrame.EncodeExact(raw, width, height, sequence).value;
    ExactFrame.ExactRoundTrip(raw, width, height, sequence);
    Reassembles(frame, frameId, mtu - HEADER_LENGTH, h, n);
  }

  /**
    The datagrams of a frame, given to a new reassembler in any order and any number of times
    each, until the last missing one has arrived.
   */
  lemma {:induction false} AnyOrderWillDo(
      frame: seq<byte>, frameId: int, mtu: int, maxFrames: int, maxBytes: int, deliveries: seq<seq<byte>>)
    requires Fragment(frame, frameId, mtu).Ok? && maxFrames >= 1 && |frame| <= maxBytes
    requires Exhausts(deliveries, Fragment(frame, frameId, mtu).value)
    ensures var outcomes := Record(Init(maxFrames, maxBytes), Datagrams(deliveries)).outcomes;
            var last := |deliveries| - 1;
            outcomes[last] == Complete(frameId, frame) && forall i :: 0 <= i < last ==> outcomes[i] == Waiting
  {
    hide Packets, Apply, Init, Record, ParseMedia;
    var packets, ops := Fragment(frame, frameId, mtu).value, Datagrams(deliveries);
    var s, last := Init(maxFrames, maxBytes), |deliveries| - 1;
    var h := Record(s, ops);
    RecordIsRun(s, ops);
    InitInv(maxFrames, maxBytes);
    NewHoldsNothing(maxFrames, maxBytes);
    forall i | 0 <= i < |h.ops| ensures CleanStep(h, KeyOf(frameId), packets, i) {
      assert deliveries[i] in deliveries;
    }
    DeliversLast(deliveries, packets, h);
    Reassembles(frame, frameId, mtu - HEADER_LENGTH, h, last);
    forall i | 0 <= i < last ensures h.outcomes[i] == Waiting {
      assert deliveries[i] in deliveries;
    }
  }

  /** Only these datagrams, all of them, and the last delivery is the first of its kind. */
  ghost predicate Exhausts(deliveries: seq<seq<byte>>, packets: seq<seq<byte>>) {
    && deliveries != []
    && (forall d <- deliveries :: d in packets) && (forall d <- packets :: d in deliveries)
    && deliveries[|deliveries| - 1] !in deliveries[..|deliveries| - 1]
  }

  function Datagrams(deliveries: seq<seq<byte>>): (ops: seq<Op>)
    ensures |ops| == |deliveries| && forall i :: 0 <= i < |ops| ==> ops[i] == Datagram(deliveries[i])
  {
    seq(|deliveries|, i requires 0 <= i < |deliveries| => Datagram(deliveries[i]))
  }

  lemma NewHoldsNothing(maxFrames: int, maxBytes: int)
    ensures var s := Init(maxFrames, maxBytes);
            s.frames == map[] && s.maxFrames == maxFrames && s.maxBytes == maxBytes
  {
  }

  lemma DeliversLast(deliveries: seq<seq<byte>>, packets: seq<seq<byte>>, h: History)
    requires Exhausts(deliveries, packets) && h.ops == Datagrams(deliveries)
    ensures LastMissing(h, packets, |deliveries| - 1)
  {
    var last := |deliveries| - 1;
    assert h.ops[..last + 1] == h.ops;
    forall d <- packets ensures Datagram(d) in h.ops {
      var i :| 0 <= i < |deliveries| && deliveries[i] == d;
      assert h.ops[i] == Datagram(d);
    }
    var d := deliveries[last];
    assert d in deliveries;
    forall i | 0 <= i < last ensures h.ops[..last][i] != Datagram(d) {
      assert deliveries[..last][i] == deliveries[i];
    }
  }

  lemma {:induction false} Reassembles(frame: seq<byte>, frameId: u64, cap: nat, h: History, n: nat)
    requires 0 < cap <= MAX_FRAGMENT && 0 < |frame| <= MAX_FRAME && n < |h.ops|
    requires var packets := Packets(frame, frameId, cap, 0);
             CleanRun(h, KeyOf(frameId), packets, |frame|) && LastMissing(h, packets, n)
    ensures h.outcomes[n] == Complete(frameId, frame)
    ensures SilentBefore(h, Packets(frame, frameId, cap, 0), n)
  {
    hide ParseMedia, Inv, Step, Chunks, Packets, Sent, Got, OffsetOf;
    var key, chunks, packets := KeyOf(frameId), Chunks(frame, cap, 0), Packets(frame, frameId, cap, 0);
    CleanIsFair(h, frame, frameId, cap);
    SendsEachChunk(frame, frameId, cap, 0);
    GotAll(h, frame, frameId, cap, n);
    ReturnedOnLastChunk(h, key, chunks, frame, n);
    forall i | 0 <= i < n && h.ops[i].Datagram? && h.ops[i].bytes in packets ensures OffsetOf(h.ops[i], key) != {} {
      var o :| o in chunks && o < |frame| && h.ops[i].bytes == Sent(frame, frameId, cap, o);
      SentParses(frame, frameId, cap, o);
      OffsetOfPacket(h.ops[i], key);
    }
  }

  lemma OffsetOfPacket(op: Op, key: Key)
    requires op.Datagram? && ParseMedia(op.bytes).Ok? && ParseMedia(op.bytes).value.key == key
    ensures OffsetOf(op, key) != {}
  {
    hide ParseMedia;
    assert ParseMedia(op.bytes).value.offset in OffsetOf(op, key);
  }

  lemma GotAll(h: History, frame: seq<byte>, frameId: u64, cap: nat, n: nat)
    requires 0 < cap <= MAX_FRAGMENT && 0 < |frame| <= MAX_FRAME && n < |h.ops|
    requires var packets := Packets(frame, frameId, cap, 0);
             CleanRun(h, KeyOf(frameId), packets, |frame|) && LastMissing(h, packets, n)
    ensures Got(h.ops[..n], KeyOf(frameId)) != Chunks(frame, cap, 0).Keys == Got(h.ops[..n + 1], KeyOf(frameId))
  {
    hide ParseMedia, Inv, Step, Chunks, Packets, Sent, Got, OffsetOf, CleanRun, FairRun;
    var key, chunks, packets := KeyOf(frameId), Chunks(frame, cap, 0), Packets(frame, frameId, cap, 0);
    SendsEachChunk(frame, frameId, cap, 0);
    CleanIsFair(h, frame, frameId, cap);
    var d :| d in packets && Datagram(d) !in h.ops[..n];
    var missing :| missing in chunks && missing < |frame| && d == Sent(frame, frameId, cap, missing);
    GotExactly(h, frame, frameId, cap, n, missing);
    forall o <- chunks ensures o in Got(h.ops[..n + 1], key) {
      GotExactly(h, frame, frameId, cap, n + 1, o);
    }
    if Got(h.ops[..n + 1], key) != chunks.Keys {
      HoldsWhatArrived(h, key, chunks, frame, n + 1);
    }
  }
}
