/**
  Exactly which packets the reassembler takes, and that a returned frame contradicts none of
  them: a packet that carries something else for a position already held costs the frame.
 */
module Acceptance {
  import opened Bytes
  import opened MediaWire
  import opened Tiling
  import opened Reassembly
  import opened ReassemblyRuns
  import opened Provenance

  // ----- one packet

  /** For position `i` something is held, and the packet brings another byte or another extent. */
  ghost predicate ClashAt(m: Fragments, p: Packet, i: nat) {
    p.offset <= i < p.offset + |p.payload| &&
    exists o :: CoveredBy(m, i, o) && (o != p.offset || m[o] != p.payload)
  }

  ghost predicate Clashes(m: Fragments, p: Packet) {
    exists i :: ClashAt(m, p, i)
  }

  /** The frame has the fragment's bytes at its positions. */
  predicate AgreesWith(frame: seq<byte>, offset: nat, payload: seq<byte>) {
    offset + |payload| <= |frame| && frame[offset..offset + |payload|] == payload
  }

  ghost predicate AgreesWithAll(frame: seq<byte>, m: Fragments) {
    forall o <- m :: AgreesWith(frame, o, m[o])
  }

  lemma AssembledAgrees(m: Fragments, frame: seq<byte>)
    requires Within(m, 0, |frame|) && Assembled(m, 0, |frame|, Frame(frame))
    ensures AgreesWithAll(frame, m)
  {
    forall o <- m ensures AgreesWith(frame, o, m[o]) {
      forall k | 0 <= k < |m[o]| ensures frame[o + k] == m[o][k] {
        assert Carried(m, 0, frame, o + k);
        var other :| CoveredBy(m, o + k, other) && m[other][o + k - other] == frame[o + k];
        assert other != o ==> Apart(m, o, other);
      }
    }
  }

  lemma MeetsIsClash(m: Fragments, p: Packet, other: nat)
    requires other in m && p.offset !in m && Meets(m, p.offset, p.payload, other)
    ensures Clashes(m, p)
  {
    var i := if p.offset >= other then p.offset else other;
    assert CoveredBy(m, i, other);
    assert ClashAt(m, p, i);
  }

  /** With nothing held at its offset, a packet clashes exactly if it meets a fragment. */
  lemma ClashExactly(m: Fragments, p: Packet)
    requires p.offset !in m
    ensures Clashes(m, p) <==> exists other <- m :: Meets(m, p.offset, p.payload, other)
  {
    if Clashes(m, p) {
      var i :| ClashAt(m, p, i);
      var o :| CoveredBy(m, i, o);
      assert Meets(m, p.offset, p.payload, o);
    }
    forall other <- m | Meets(m, p.offset, p.payload, other) ensures Clashes(m, p) {
      MeetsIsClash(m, p, other);
    }
  }

  /** With something held at its offset, exactly if that is something else. */
  lemma RepeatExactly(m: Fragments, p: Packet, hi: nat)
    requires Within(m, 0, hi) && p.offset in m && p.payload != []
    ensures Clashes(m, p) <==> m[p.offset] != p.payload
  {
    if m[p.offset] != p.payload {
      assert CoveredBy(m, p.offset, p.offset);
      assert ClashAt(m, p, p.offset);
    } else {
      forall i, o | p.offset <= i < p.offset + |p.payload| && CoveredBy(m, i, o) ensures o == p.offset {
        assert o != p.offset ==> Apart(m, o, p.offset);
      }
    }
  }

  /** The outcome of a packet of a held key and length, from what is held alone. */
  ghost predicate StoreOutcome(s: State, p: Packet, s': State, outcome: Outcome)
    requires p.key in s.frames
  {
    var m := s.frames[p.key].fragments;
    var more := m[p.offset := p.payload];
    if Clashes(m, p) then
      && s' == Drop(s, p.key)
      && outcome == Rejected(if p.offset in m then FragmentConflict else FragmentOverlap)
    else if forall i :: 0 <= i < p.frameLen ==> Covered(more, i) then
      && s' == Drop(s, p.key)
      && outcome.Complete? && outcome.frameId == p.key.frameId
      && |outcome.bytes| == p.frameLen && AgreesWithAll(outcome.bytes, more)
    else
      s' == s.(frames := s.frames[p.key := Partial(p.frameLen, more)]) && outcome == Waiting
  }

  lemma StoreExactly(s: State, p: Packet)
    requires Inv(s) && PacketFits(p) && p.key in s.frames && s.frames[p.key].frameLen == p.frameLen
    ensures StoreOutcome(s, p, Store(s, p).0, Store(s, p).1)
  {
    hide Drop, Finish, TotalLength, Accounted, Meets, Clashes;
    var m := s.frames[p.key].fragments;
    assert Incomplete(s.frames[p.key]);
    if p.offset in m {
      RepeatExactly(m, p, p.frameLen);
      if m[p.offset] == p.payload {
        assert m[p.offset := p.payload] == m;
        assert s.frames[p.key := Partial(p.frameLen, m)] == s.frames;
        FullExactly(m, 0, p.frameLen);
      }
    } else {
      ClashExactly(m, p);
      if !Clashes(m, p) {
        StoredKeeps(s, p);
        FinishExactly(WithFragment(s, p), p);
        assert Drop(WithFragment(s, p), p.key) == Drop(s, p.key) by { DropForgets(s, p); }
      }
    }
  }

  lemma DropForgets(s: State, p: Packet)
    requires p.key in s.frames
    ensures Drop(WithFragment(s, p), p.key) == Drop(s, p.key)
  {
    assert WithFragment(s, p).frames - {p.key} == s.frames - {p.key};
  }

  lemma FinishExactly(s: State, p: Packet)
    requires p.key in s.frames && s.frames[p.key].frameLen == p.frameLen && Accounted(s)
    requires AllIncomplete(s.frames - {p.key}) && Within(s.frames[p.key].fragments, 0, p.frameLen)
    ensures var (s', outcome) := Finish(s, p.key);
            if forall i :: 0 <= i < p.frameLen ==> Covered(s.frames[p.key].fragments, i) then
              && s' == Drop(s, p.key) && outcome.Complete? && outcome.frameId == p.key.frameId
              && |outcome.bytes| == p.frameLen && AgreesWithAll(outcome.bytes, s.frames[p.key].fragments)
            else s' == s && outcome == Waiting
  {
    hide Drop, Accounted, TotalLength, Covered;
    var m := s.frames[p.key].fragments;
    FullExactly(m, 0, p.frameLen);
    FinishKeeps(s, p.key);
    if TotalLength(m) == p.frameLen {
      AssembledAgrees(m, Finish(s, p.key).1.bytes);
    }
  }

  /** What a packet meets: the key's own frame, or a new one once room was made. */
  ghost function Found(s: State, p: Packet): State {
    if p.key in s.frames then s else Open(Evict(s, p.frameLen), p.key, p.frameLen)
  }

  /**
    The outcome of every packet, each error included: over budget it changes nothing; a new key
    is refused only if no frame may be held at all; a held key is lost to a packet of another
    length or one that clashes, and every other frame stays; everything else is taken.
   */
  lemma PacketExactly(s: State, p: Packet)
    requires Inv(s) && PacketFits(p)
    ensures var (s', outcome) := IngestPacket(s, p);
            if p.frameLen > s.maxBytes then s' == s && outcome == Rejected(FrameBudget)
            else if p.key !in s.frames && s.maxFrames < 1 then
              s' == Evict(s, p.frameLen) && outcome == Rejected(Capacity)
            else if p.key in s.frames && s.frames[p.key].frameLen != p.frameLen then
              s' == Drop(s, p.key) && outcome == Rejected(MetadataConflict)
            else StoreOutcome(Found(s, p), p, s', outcome)
  {
    hide Evict, Drop, Store, StoreOutcome, Inv, NoRoom;
    if p.frameLen <= s.maxBytes {
      if p.key !in s.frames {
        AdmitKeeps(s, p.key, p.frameLen);
        if s.maxFrames >= 1 {
          StoreExactly(Found(s, p), p);
        }
      } else if s.frames[p.key].frameLen == p.frameLen {
        StoreExactly(s, p);
      }
    }
  }

  /** A packet of a held key is refused exactly if it is over budget, of another length, or clashes. */
  lemma HeldRefusedExactly(s: State, p: Packet)
    requires Inv(s) && PacketFits(p) && p.key in s.frames
    ensures IngestPacket(s, p).1.Rejected? <==>
            || p.frameLen > s.maxBytes || p.frameLen != s.frames[p.key].frameLen
            || Clashes(s.frames[p.key].fragments, p)
    ensures IngestPacket(s, p).1.Rejected? && p.frameLen <= s.maxBytes ==>
              IngestPacket(s, p).0.frames == s.frames - {p.key}
  {
    hide IngestPacket, Inv, Clashes, Covered, AgreesWithAll;
    PacketExactly(s, p);
  }

  // ----- whole runs

  lemma TakenIsHeld(s: State, p: Packet)
    requires Inv(s) && PacketFits(p) && IngestPacket(s, p).1 == Waiting
    ensures var s' := IngestPacket(s, p).0;
            p.key in s'.frames && IsFragment(p, p.key, s'.frames[p.key], p.offset)
  {
    hide IngestPacket, Inv, Clashes, Covered, AgreesWithAll, Evict;
    PacketExactly(s, p);
  }

  /** A returned frame has the bytes of the packet that completed it and of everything held before. */
  lemma CompleteAgrees(s: State, p: Packet)
    requires Inv(s) && PacketFits(p) && IngestPacket(s, p).1.Complete?
    ensures var frame := IngestPacket(s, p).1.bytes;
            && |frame| == p.frameLen && AgreesWith(frame, p.offset, p.payload)
            && (p.key in s.frames ==>
                  s.frames[p.key].frameLen == p.frameLen && AgreesWithAll(frame, s.frames[p.key].fragments))
  {
    hide IngestPacket, Inv, Clashes, Covered, Evict;
    PacketExactly(s, p);
    var m := Found(s, p).frames[p.key].fragments;
    var frame := IngestPacket(s, p).1.bytes;
    var more := m[p.offset := p.payload];
    assert p.offset in more && more[p.offset] == p.payload;
    if p.key in s.frames {
      NoClashKeeps(m, p);
      forall o <- m ensures AgreesWith(frame, o, m[o]) {
        assert o in more;
      }
    }
  }

  lemma NoClashKeeps(m: Fragments, p: Packet)
    requires !Clashes(m, p) && p.payload != []
    ensures p.offset in m && m[p.offset] != [] ==> m[p.offset] == p.payload
  {
    if p.offset in m && m[p.offset] != [] && m[p.offset] != p.payload {
      assert CoveredBy(m, p.offset, p.offset);
      assert ClashAt(m, p, p.offset);
    }
  }

  lemma StoreForward(s: State, p: Packet, k: Key, o: nat)
    requires p.key in s.frames && k in s.frames && o in s.frames[k].fragments && k in Store(s, p).0.frames
    requires s.frames[p.key].frameLen == p.frameLen
    ensures Shared(s.frames[k], Store(s, p).0.frames[k], o)
  {
    hide TotalLength, Meets;
  }

  /** A fragment of a key that stays held stays with it. */
  lemma StepForward(s: State, op: Op, k: Key, o: nat)
    requires Inv(s) && k in s.frames && o in s.frames[k].fragments && k in Apply(s, op).0.frames
    ensures Shared(s.frames[k], Apply(s, op).0.frames[k], o)
  {
    hide ParseMedia, Incomplete, NoRoom, Store;
    if op.Datagram? && ParseMedia(op.bytes).Ok? {
      var p := ParseMedia(op.bytes).value;
      if p.frameLen <= s.maxBytes {
        if p.key in s.frames {
          if s.frames[p.key].frameLen == p.frameLen {
            StoreForward(s, p, k, o);
          }
        } else {
          EvictKeeps(s, p.frameLen);
          var evicted := Evict(s, p.frameLen);
          if !NoRoom(evicted, p.frameLen) {
            var opened' := Open(evicted, p.key, p.frameLen);
            StoreOthersKept(opened', p, k);
            StoreForward(opened', p, k, o);
          }
        }
      }
    }
  }

  lemma StoreOthersKept(s: State, p: Packet, k: Key)
    requires p.key in s.frames && k != p.key && k in Store(s, p).0.frames
    ensures k in s.frames
  {
    hide TotalLength, Meets;
  }

  /** What a taken packet brought is held as long as its key is. */
  lemma {:induction false} HeldFromThen(h: History, j: nat, n: nat, p: Packet)
    requires Recorded(h) && Inv(h.states[0]) && j < n <= |h.ops|
    requires AcceptedAt(h, j, p) && h.outcomes[j] == Waiting && HeldSince(h, j, n, p.key)
    ensures IsFragment(p, p.key, h.states[n].frames[p.key], p.offset)
    decreases n
  {
    hide Apply, ParseMedia, Inv;
    assert Step(h, n - 1);
    RecordedKeeps(h, n - 1);
    if n == j + 1 {
      ApplyIsIngest(h.states[j], h.ops[j], p);
      TakenIsHeld(h.states[j], p);
    } else {
      HeldFromThen(h, j, n - 1, p);
      StepForward(h.states[n - 1], h.ops[n - 1], p.key, p.offset);
    }
  }

  lemma ApplyIsIngest(s: State, op: Op, p: Packet)
    requires op.Datagram? && ParseMedia(op.bytes) == Ok(p)
    ensures Apply(s, op) == IngestPacket(s, p) && PacketFits(p)
  {
    hide IngestPacket;
  }

  lemma CompleteEnds(s: State, p: Packet)
    requires Inv(s) && PacketFits(p) && IngestPacket(s, p).1.Complete?
    ensures p.key !in IngestPacket(s, p).0.frames
  {
    hide IngestPacket, Inv, Clashes, Covered, AgreesWithAll, Evict;
    PacketExactly(s, p);
  }

  /**
    Over every run of arbitrary byte strings: a returned frame agrees, on all its positions,
    with every packet of its key that was taken while the key has been held ever since.
   */
  lemma FrameContradictsNothing(h: History, n: nat, j: nat, p: Packet)
    requires Recorded(h) && Inv(h.states[0]) && n < |h.ops| && h.outcomes[n].Complete?
    requires h.ops[n].Datagram? && ParseMedia(h.ops[n].bytes).Ok?
    requires j <= n && AcceptedAt(h, j, p) && p.key == ParseMedia(h.ops[n].bytes).value.key
    requires HeldSince(h, j, n, p.key)
    ensures |h.outcomes[n].bytes| == p.frameLen && AgreesWith(h.outcomes[n].bytes, p.offset, p.payload)
  {
    hide Apply, ParseMedia, Inv, IngestPacket, PacketFits, IsFragment;
    var q := ParseMedia(h.ops[n].bytes).value;
    assert Step(h, n) && Step(h, j);
    RecordedKeeps(h, n);
    RecordedKeeps(h, j);
    ApplyIsIngest(h.states[n], h.ops[n], q);
    CompleteAgrees(h.states[n], q);
    if j < n {
      ApplyIsIngest(h.states[j], h.ops[j], p);
      if h.outcomes[j].Complete? {
        CompleteEnds(h.states[j], p);
        assert false;
      }
      HeldFromThen(h, j, n, p);
      FragmentAgrees(h.states[n], p, h.outcomes[n].bytes);
    }
  }

  lemma FragmentAgrees(s: State, p: Packet, frame: seq<byte>)
    requires p.key in s.frames && IsFragment(p, p.key, s.frames[p.key], p.offset)
    requires s.frames[p.key].frameLen == |frame| && AgreesWithAll(frame, s.frames[p.key].fragments)
    ensures |frame| == p.frameLen && AgreesWith(frame, p.offset, p.payload)
  {
  }
}
