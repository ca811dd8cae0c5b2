/**
  Sending a frame in fragments and putting it together again: in any order, with duplicates
  and with other traffic in between, the frame is returned on the last missing fragment and
  not before.
 */
module Delivery {
  import opened Bytes
  import opened MediaWire
  import opened Tiling
  import opened Reassembly
  import opened ReassemblyRuns

  // ----- a frame cut into chunks

  /** `chunks` are the pieces of `frame`, each at its own offset, and nothing is missing. */
  ghost predicate CutsUp(chunks: Fragments, frame: seq<byte>) {
    && 0 < |frame| <= MAX_FRAME && Within(chunks, 0, |frame|)
    && (forall i :: 0 <= i < |frame| ==> Covered(chunks, i))
    && (forall o <- chunks :: chunks[o] == frame[o..o + |chunks[o]|])
  }

  ghost function Restrict(chunks: Fragments, got: set<nat>): Fragments {
    map o | o in chunks && o in got :: chunks[o]
  }

  lemma RestrictWithin(chunks: Fragments, got: set<nat>, hi: nat)
    requires Within(chunks, 0, hi)
    ensures Within(Restrict(chunks, got), 0, hi)
  {
    var m := Restrict(chunks, got);
    forall o <- m, p <- m | o != p ensures Apart(m, o, p) {
      assert Apart(chunks, o, p);
    }
  }

  /** The lengths of the chunks received add up to the frame exactly when none is missing. */
  lemma CompleteExactly(chunks: Fragments, frame: seq<byte>, got: set<nat>)
    requires CutsUp(chunks, frame) && got <= chunks.Keys
    ensures TotalLength(Restrict(chunks, got)) == |frame| <==> got == chunks.Keys
  {
    hide TotalLength;
    var m := Restrict(chunks, got);
    RestrictWithin(chunks, got, |frame|);
    FullExactly(m, 0, |frame|);
    if got == chunks.Keys {
      assert m == chunks;
    } else {
      var missing :| missing in chunks && missing !in got;
      assert chunks[missing] != [];
      NotCovered(chunks, got, missing, |frame|);
    }
  }

  lemma NotCovered(chunks: Fragments, got: set<nat>, missing: nat, hi: nat)
    requires Within(chunks, 0, hi) && missing in chunks && missing !in got
    ensures !Covered(Restrict(chunks, got), missing)
  {
    var m := Restrict(chunks, got);
    forall o ensures !CoveredBy(m, missing, o) {
      if o in m {
        assert chunks[missing] != [] && Apart(chunks, o, missing);
      }
    }
  }

  lemma AssemblesTo(chunks: Fragments, frame: seq<byte>)
    requires CutsUp(chunks, frame)
    ensures Assemble(chunks, 0) == Frame(frame)
  {
    FullExactly(chunks, 0, |frame|);
    NoGap(chunks, 0, |frame|);
    AssembleInOrder(chunks, 0, |frame|);
    hide Assemble, InOrder, TotalLength;
    var bytes := Assemble(chunks, 0).bytes;
    forall i | 0 <= i < |frame| ensures bytes[i] == frame[i] {
      assert Carried(chunks, 0, bytes, i);
      var o: nat :| CoveredBy(chunks, i, o) && chunks[o][i - o] == bytes[i - 0];
      assert chunks[o][i - o] == frame[o..o + |chunks[o]|][i - o];
    }
    assert bytes == frame;
  }

  // ----- one packet of the frame

  /** What the reassembler holds for `key` when the chunks in `got` have arrived. */
  ghost predicate Holds(s: State, key: Key, chunks: Fragments, frame: seq<byte>, got: set<nat>) {
    if got == {} then key !in s.frames
    else key in s.frames && s.frames[key] == Partial(|frame|, Restrict(chunks, got))
  }

  lemma NoOverlap(chunks: Fragments, got: set<nat>, o: nat, hi: nat)
    requires Within(chunks, 0, hi) && o in chunks && o !in got
    ensures var held := Restrict(chunks, got);
            o !in held && forall other <- held :: !Meets(held, o, chunks[o], other)
  {
    forall other <- Restrict(chunks, got) ensures !Meets(Restrict(chunks, got), o, chunks[o], other) {
      assert Apart(chunks, o, other);
    }
  }

  lemma StoreChunk(s: State, key: Key, chunks: Fragments, frame: seq<byte>, got: set<nat>, o: nat)
    requires CutsUp(chunks, frame) && got < chunks.Keys && o in chunks
    requires key in s.frames && s.frames[key] == Partial(|frame|, Restrict(chunks, got))
    ensures var (s', outcome) := Store(s, Packet(key, |frame|, o, chunks[o]));
            if got + {o} == chunks.Keys then outcome == Complete(key.frameId, frame)
            else outcome == Waiting && Holds(s', key, chunks, frame, got + {o})
  {
    hide CutsUp, Within, TotalLength, Assemble;
    var p := Packet(key, |frame|, o, chunks[o]);
    if o in got {
      assert got + {o} == got;
    } else {
      assert Within(chunks, 0, |frame|) by { CutsWithin(chunks, frame); }
      NoOverlap(chunks, got, o, |frame|);
      assert Restrict(chunks, got)[o := chunks[o]] == Restrict(chunks, got + {o});
      CompleteExactly(chunks, frame, got + {o});
      if got + {o} == chunks.Keys {
        assert Restrict(chunks, got + {o}) == chunks;
        AssemblesTo(chunks, frame);
      }
    }
  }

  lemma CutsWithin(chunks: Fragments, frame: seq<byte>)
    requires CutsUp(chunks, frame)
    ensures Within(chunks, 0, |frame|)
  {
  }

  lemma {:induction false} DeliverChunk(s: State, key: Key, chunks: Fragments, frame: seq<byte>, got: set<nat>, o: nat)
    requires Inv(s) && |frame| <= s.maxBytes && s.maxFrames >= 1
    requires CutsUp(chunks, frame) && got < chunks.Keys && o in chunks && Holds(s, key, chunks, frame, got)
    ensures var (s', outcome) := IngestPacket(s, Packet(key, |frame|, o, chunks[o]));
            if got + {o} == chunks.Keys then outcome == Complete(key.frameId, frame)
            else outcome == Waiting && Holds(s', key, chunks, frame, got + {o})
  {
    if got == {} {
      AdmitKeeps(s, key, |frame|);
      assert Restrict(chunks, {}) == map[];
      hide CutsUp, Store, Evict, Inv;
      StoreChunk(Open(Evict(s, |frame|), key, |frame|), key, chunks, frame, got, o);
    } else {
      hide CutsUp, Store;
      StoreChunk(s, key, chunks, frame, got, o);
    }
  }

  lemma StoreOthers(s: State, p: Packet, key: Key)
    requires p.key in s.frames && p.key != key
    ensures var s' := Store(s, p).0;
            key in s'.frames ==> key in s.frames && s'.frames[key] == s.frames[key]
  {
  }

  /** A packet of another key leaves the frame as it is, unless it evicts it. */
  lemma OtherPacket(s: State, p: Packet, key: Key)
    requires Inv(s) && p.key != key
    ensures var s' := IngestPacket(s, p).0;
            key in s'.frames ==> key in s.frames && s'.frames[key] == s.frames[key]
  {
    hide Inv, Store;
    if p.frameLen <= s.maxBytes {
      if p.key !in s.frames {
        var evicted := Evict(s, p.frameLen);
        EvictKeepsOthers(s, p.frameLen);
        if !NoRoom(evicted, p.frameLen) {
          StoreOthers(Open(evicted, p.key, p.frameLen), p, key);
        }
      } else if s.frames[p.key].frameLen == p.frameLen {
        StoreOthers(s, p, key);
      }
    }
  }

  lemma {:induction false} EvictKeepsOthers(s: State, frameLen: nat)
    requires Inv(s)
    ensures forall k <- Evict(s, frameLen).frames :: k in s.frames && Evict(s, frameLen).frames[k] == s.frames[k]
  {
    EvictKeeps(s, frameLen);
  }

  // ----- whole runs

  /** The offsets of the packets of `key` among the operations. */
  ghost function Got(ops: seq<Op>, key: Key): set<nat> {
    if ops == [] then {} else Got(ops[..|ops| - 1], key) + OffsetOf(ops[|ops| - 1], key)
  }

  ghost function OffsetOf(op: Op, key: Key): set<nat> {
    if op.Datagram? && ParseMedia(op.bytes).Ok? && ParseMedia(op.bytes).value.key == key
    then {ParseMedia(op.bytes).value.offset}
    else {}
  }

  /**
    Operation `i` brings one of the chunks, or it is about something else: it may be any
    byte string that is not a packet of this key, or a discard, provided it does not cost a
    frame of this key that is held.
   */
  ghost predicate Undisturbed(h: History, key: Key, chunks: Fragments, frame: seq<byte>, i: nat) {
    i < |h.ops| && i + 1 < |h.states| &&
    match h.ops[i]
    case DiscardAll => key !in h.states[i].frames
    case Datagram(bytes) =>
      match ParseMedia(bytes)
      case Ok(p) =>
        if p.key == key then p.offset in chunks && p == Packet(key, |frame|, p.offset, chunks[p.offset])
        else key in h.states[i].frames ==> key in h.states[i + 1].frames
      case Err(_) => true
  }

  ghost predicate FairRun(h: History, key: Key, chunks: Fragments, frame: seq<byte>) {
    && Recorded(h) && Inv(h.states[0]) && key !in h.states[0].frames
    && |frame| <= h.states[0].maxBytes && h.states[0].maxFrames >= 1
    && CutsUp(chunks, frame)
    && forall i {:trigger Undisturbed(h, key, chunks, frame, i)} ::
         0 <= i < |h.ops| ==> Undisturbed(h, key, chunks, frame, i)
  }

  /** One operation of a fair run, while the frame is incomplete before it. */
  lemma FairStep(h: History, key: Key, chunks: Fragments, frame: seq<byte>, i: nat, got: set<nat>)
    requires FairRun(h, key, chunks, frame) && i < |h.ops|
    requires got < chunks.Keys && Holds(h.states[i], key, chunks, frame, got)
    ensures var own := OffsetOf(h.ops[i], key);
            && own <= chunks.Keys
            && (got + own != chunks.Keys ==> Holds(h.states[i + 1], key, chunks, frame, got + own))
            && (own != {} ==>
                  h.outcomes[i] == if got + own == chunks.Keys then Complete(key.frameId, frame) else Waiting)
  {
    hide CutsUp, Inv, IngestPacket, ParseMedia, Holds;
    RecordedKeeps(h, i);
    assert Step(h, i) && Undisturbed(h, key, chunks, frame, i);
    var s := h.states[i];
    if h.ops[i].Datagram? && OffsetOf(h.ops[i], key) != {} {
      DeliverChunk(s, key, chunks, frame, got, ParseMedia(h.ops[i].bytes).value.offset);
    } else {
      assert got + {} == got;
      if h.ops[i].Datagram? && ParseMedia(h.ops[i].bytes).Ok? {
        OtherPacket(s, ParseMedia(h.ops[i].bytes).value, key);
      }
      HoldsUnchanged(s, h.states[i + 1], key, chunks, frame, got);
    }
  }

  lemma HoldsUnchanged(s: State, s': State, key: Key, chunks: Fragments, frame: seq<byte>, got: set<nat>)
    requires Holds(s, key, chunks, frame, got)
    requires key in s'.frames ==> key in s.frames && s'.frames[key] == s.frames[key]
    requires key in s.frames ==> key in s'.frames
    ensures Holds(s', key, chunks, frame, got)
  {
  }

  /** While a chunk is missing, the reassembler holds exactly the chunks that have arrived. */
  lemma {:induction false} HoldsWhatArrived(h: History, key: Key, chunks: Fragments, frame: seq<byte>, n: nat)
    requires FairRun(h, key, chunks, frame) && n <= |h.ops|
    requires chunks.Keys != Got(h.ops[..n], key)
    ensures Got(h.ops[..n], key) < chunks.Keys && Holds(h.states[n], key, chunks, frame, Got(h.ops[..n], key))
    decreases n
  {
    hide CutsUp, Inv, Undisturbed, Holds, OffsetOf, Step;
    if n == 0 {
      assert Holds(h.states[0], key, chunks, frame, {}) by { StartsEmpty(h, key, chunks, frame); }
    } else {
      assert h.ops[..n][..n - 1] == h.ops[..n - 1];
      var before := Got(h.ops[..n - 1], key);
      if before == chunks.Keys {
        OwnOffsets(h, key, chunks, frame, n - 1);
        assert false;
      }
      HoldsWhatArrived(h, key, chunks, frame, n - 1);
      FairStep(h, key, chunks, frame, n - 1, before);
    }
  }

  lemma StartsEmpty(h: History, key: Key, chunks: Fragments, frame: seq<byte>)
    requires FairRun(h, key, chunks, frame)
    ensures Holds(h.states[0], key, chunks, frame, {}) && chunks.Keys != {}
  {
    assert Covered(chunks, 0);
    var o :| CoveredBy(chunks, 0, o);
  }

  lemma OwnOffsets(h: History, key: Key, chunks: Fragments, frame: seq<byte>, i: nat)
    requires FairRun(h, key, chunks, frame) && i < |h.ops|
    ensures OffsetOf(h.ops[i], key) <= chunks.Keys
  {
    hide ParseMedia;
    assert Undisturbed(h, key, chunks, frame, i);
  }

  /**
    In any fair run the frame is returned by the operation that brings the last missing
    chunk, and no operation before it that brings a chunk returns anything.
   */
  lemma {:induction false} ReturnedOnLastChunk(h: History, key: Key, chunks: Fragments, frame: seq<byte>, n: nat)
    requires FairRun(h, key, chunks, frame) && n < |h.ops|
    requires Got(h.ops[..n], key) != chunks.Keys == Got(h.ops[..n + 1], key)
    ensures h.outcomes[n] == Complete(key.frameId, frame)
    ensures forall i :: 0 <= i < n && OffsetOf(h.ops[i], key) != {} ==> h.outcomes[i] == Waiting
  {
    hide CutsUp, Inv, Undisturbed, Holds, OffsetOf, Step;
    assert h.ops[..n + 1][..n] == h.ops[..n];
    HoldsWhatArrived(h, key, chunks, frame, n);
    FairStep(h, key, chunks, frame, n, Got(h.ops[..n], key));
    assert OffsetOf(h.ops[n], key) != {};
    forall i | 0 <= i < n && OffsetOf(h.ops[i], key) != {} ensures h.outcomes[i] == Waiting {
      GotGrows(h.ops, key, i + 1, n);
      GotGrows(h.ops, key, i, n);
      assert h.ops[..i + 1][..i] == h.ops[..i];
      HoldsWhatArrived(h, key, chunks, frame, i);
      FairStep(h, key, chunks, frame, i, Got(h.ops[..i], key));
    }
  }

  lemma {:induction false} GotGrows(ops: seq<Op>, key: Key, i: nat, n: nat)
    requires i <= n <= |ops|
    ensures Got(ops[..i], key) <= Got(ops[..n], key)
    decreases n
  {
    hide OffsetOf;
    if i >= n {
    } else {
      GotGrows(ops, key, i, n - 1);
      assert ops[..n][..n - 1] == ops[..n - 1];
    }
  }
}
