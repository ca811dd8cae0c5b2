/**
  One step of the bounded reassembler, as a function from state and datagram to state and
  outcome, and the invariant every step keeps.
 */
module Reassembly {
  import opened Bytes
  import opened MediaWire
  import opened Ordering
  import opened Tiling

  datatype Partial = Partial(frameLen: nat, fragments: Fragments)

  datatype State = State(
    maxFrames: int, maxBytes: int, frames: map<Key, Partial>, reserved: int, maxReserved: int)

  datatype IngestError =
    | Unparsed(error: ParseError) | FrameBudget | Capacity | MetadataConflict
    | FragmentConflict | FragmentOverlap | GapFound

  datatype Outcome = Waiting | Complete(frameId: u64, bytes: seq<byte>) | Rejected(error: IngestError)

  // ----- key order: Python compares the tuples field by field

  predicate KeyLe(a: Key, b: Key) {
    || a.stream < b.stream
    || (a.stream == b.stream &&
        (|| a.epoch < b.epoch
         || (a.epoch == b.epoch &&
             (|| a.frameId < b.frameId
              || (a.frameId == b.frameId && a.kind <= b.kind)))))
  }

  predicate IsLeastKey(keys: set<Key>, k: Key) {
    k in keys && forall other {:trigger KeyLe(k, other)} :: other in keys ==> KeyLe(k, other)
  }

  function LeastKey(keys: set<Key>): (k: Key)
    requires keys != {}
    ensures IsLeastKey(keys, k)
  {
    assert TotalOrder(KeyLe);
    Least(keys, KeyLe)
  }

  // ----- the step

  function Init(maxFrames: int, maxBytes: int): State {
    State(maxFrames, maxBytes, map[], 0, 0)
  }

  predicate SameLimits(a: State, b: State) {
    a.maxFrames == b.maxFrames && a.maxBytes == b.maxBytes
  }

  predicate NoRoom(s: State, frameLen: nat) {
    |s.frames| >= s.maxFrames || s.reserved + frameLen > s.maxBytes
  }

  function Drop(s: State, key: Key): State {
    if key in s.frames
    then s.(frames := s.frames - {key}, reserved := s.reserved - s.frames[key].frameLen)
    else s
  }

  /** Drop the smallest keys until the frame fits or nothing is held. */
  function Evict(s: State, frameLen: nat): (e: State)
    ensures SameLimits(s, e)
    decreases |s.frames|
  {
    if s.frames != map[] && NoRoom(s, frameLen)
    then Evict(Drop(s, LeastKey(s.frames.Keys)), frameLen)
    else s
  }

  function Open(s: State, key: Key, frameLen: nat): State {
    s.(frames := s.frames[key := Partial(frameLen, map[])],
       reserved := s.reserved + frameLen,
       maxReserved := Max(s.maxReserved, s.reserved + frameLen))
  }

  predicate Meets(fragments: Fragments, offset: nat, payload: seq<byte>, other: nat)
    requires other in fragments
  {
    var end, otherEnd := offset + |payload|, other + |fragments[other]|;
    Max(offset, other) < (if end <= otherEnd then end else otherEnd)
  }

  function WithFragment(s: State, p: Packet): State
    requires p.key in s.frames
  {
    var partial := s.frames[p.key];
    s.(frames := s.frames[p.key := partial.(fragments := partial.fragments[p.offset := p.payload])])
  }

  ghost function Store(s: State, p: Packet): (r: (State, Outcome))
    requires p.key in s.frames
    ensures SameLimits(s, r.0) && r.0.maxReserved == s.maxReserved && r.0.reserved <= s.reserved
  {
    var held := s.frames[p.key].fragments;
    if p.offset in held then
      if held[p.offset] == p.payload then (s, Waiting)
      else (Drop(s, p.key), Rejected(FragmentConflict))
    else if exists other <- held :: Meets(held, p.offset, p.payload, other) then
      (Drop(s, p.key), Rejected(FragmentOverlap))
    else
      var stored := WithFragment(s, p);
      Finish(stored, p.key)
  }

  /** Hand the frame over once its fragments add up to its length. */
  ghost function Finish(s: State, key: Key): (r: (State, Outcome))
    requires key in s.frames
    ensures SameLimits(s, r.0) && r.0.maxReserved == s.maxReserved && r.0.reserved <= s.reserved
  {
    var partial := s.frames[key];
    if TotalLength(partial.fragments) != partial.frameLen then (s, Waiting)
    else
      match Assemble(partial.fragments, 0)
      case Gap => (Drop(s, key), Rejected(GapFound))
      case Frame(bytes) => (Drop(s, key), Complete(key.frameId, bytes))
  }

  ghost function Ingest(s: State, datagram: seq<byte>): (r: (State, Outcome))
    ensures SameLimits(s, r.0)
  {
    match ParseMedia(datagram)
    case Err(e) => (s, Rejected(Unparsed(e)))
    case Ok(p) => IngestPacket(s, p)
  }

  ghost function IngestPacket(s: State, p: Packet): (r: (State, Outcome))
    ensures SameLimits(s, r.0)
  {
    if p.frameLen > s.maxBytes then (s, Rejected(FrameBudget))
    else if p.key !in s.frames then
      var evicted := Evict(s, p.frameLen);
      if NoRoom(evicted, p.frameLen) then (evicted, Rejected(Capacity))
      else Store(Open(evicted, p.key, p.frameLen), p)
    else if s.frames[p.key].frameLen != p.frameLen then (Drop(s, p.key), Rejected(MetadataConflict))
    else Store(s, p)
  }

  // ----- the invariant

  ghost function FrameLengths(frames: map<Key, Partial>): map<Key, nat> {
    map k | k in frames :: frames[k].frameLen
  }

  ghost function HeldBytes(frames: map<Key, Partial>): nat {
    Sum(FrameLengths(frames))
  }

  /** Fragments of one key: nonempty, disjoint, inside the frame, and not yet all of it. */
  ghost predicate Incomplete(p: Partial) {
    Within(p.fragments, 0, p.frameLen) && TotalLength(p.fragments) < p.frameLen
  }

  ghost predicate AllIncomplete(frames: map<Key, Partial>) {
    forall k <- frames :: Incomplete(frames[k])
  }

  /** The byte account: `reserved` is what the held frames will take, and within both limits. */
  ghost predicate Accounted(s: State) {
    && s.reserved == HeldBytes(s.frames)
    && s.reserved <= s.maxReserved <= Max(s.maxBytes, 0)
    && |s.frames| <= Max(s.maxFrames, 0)
  }

  ghost predicate Inv(s: State) {
    Accounted(s) && AllIncomplete(s.frames)
  }

  lemma HeldRemove(frames: map<Key, Partial>, key: Key)
    requires key in frames
    ensures HeldBytes(frames) == frames[key].frameLen + HeldBytes(frames - {key})
  {
    SumRemove(FrameLengths(frames), key);
    assert FrameLengths(frames) - {key} == FrameLengths(frames - {key});
  }

  lemma HeldInsert(frames: map<Key, Partial>, key: Key, partial: Partial)
    requires key !in frames
    ensures HeldBytes(frames[key := partial]) == HeldBytes(frames) + partial.frameLen
  {
    HeldRemove(frames[key := partial], key);
    assert frames[key := partial] - {key} == frames;
  }

  lemma HeldReplace(frames: map<Key, Partial>, key: Key, partial: Partial)
    requires key in frames && partial.frameLen == frames[key].frameLen
    ensures HeldBytes(frames[key := partial]) == HeldBytes(frames)
  {
    assert FrameLengths(frames[key := partial]) == FrameLengths(frames);
  }

  lemma DropKeeps(s: State, key: Key)
    requires Accounted(s)
    ensures Accounted(Drop(s, key))
  {
    if key in s.frames {
      HeldRemove(s.frames, key);
      assert (s.frames - {key}).Keys == s.frames.Keys - {key};
    }
  }

  lemma {:induction false} EvictKeeps(s: State, frameLen: nat)
    requires Accounted(s)
    ensures var e := Evict(s, frameLen);
            && Accounted(e) && (e.frames == map[] || !NoRoom(e, frameLen))
            && e.maxReserved == s.maxReserved
            && (forall k <- e.frames :: k in s.frames && e.frames[k] == s.frames[k])
    decreases |s.frames|
  {
    if s.frames != map[] && NoRoom(s, frameLen) {
      var victim := LeastKey(s.frames.Keys);
      DropKeeps(s, victim);
      EvictKeeps(Drop(s, victim), frameLen);
    }
  }

  lemma OpenKeeps(s: State, key: Key, frameLen: nat)
    requires Accounted(s) && key !in s.frames && !NoRoom(s, frameLen)
    ensures Accounted(Open(s, key, frameLen))
  {
    HeldInsert(s.frames, key, Partial(frameLen, map[]));
    assert s.frames[key := Partial(frameLen, map[])].Keys == s.frames.Keys + {key};
  }

  lemma EmptyIncomplete(frameLen: nat)
    requires frameLen > 0
    ensures Incomplete(Partial(frameLen, map[]))
  {
    assert Lengths(map[]) == map[];
  }

  /** A fragment that meets none of the others joins them. */
  lemma AddFragment(m: Fragments, offset: nat, payload: seq<byte>, hi: nat)
    requires Within(m, 0, hi) && offset !in m && payload != [] && offset + |payload| <= hi
    requires forall other <- m :: !Meets(m, offset, payload, other)
    ensures Within(m[offset := payload], 0, hi)
  {
    var m' := m[offset := payload];
    forall o <- m', p <- m' | o != p ensures Apart(m', o, p) {
      if o != offset && p != offset {
        assert Apart(m, o, p);
      } else {
        var other := if o == offset then p else o;
        assert !Meets(m, offset, payload, other);
        assert m[other] != [];
      }
    }
  }

  /** Completion is reported exactly when the fragments tile the frame, and never as a gap. */
  lemma FinishKeeps(s: State, key: Key)
    requires Accounted(s) && key in s.frames && AllIncomplete(s.frames - {key})
    requires Within(s.frames[key].fragments, 0, s.frames[key].frameLen)
    ensures var (s', outcome) := Finish(s, key);
            && Inv(s') && !outcome.Rejected?
            && (outcome.Complete? ==>
                  && outcome.frameId == key.frameId
                  && Assembled(s.frames[key].fragments, 0, s.frames[key].frameLen, Frame(outcome.bytes)))
  {
    var partial := s.frames[key];
    TotalBound(partial.fragments, 0, partial.frameLen);
    if TotalLength(partial.fragments) == partial.frameLen {
      NoGap(partial.fragments, 0, partial.frameLen);
      AssembleInOrder(partial.fragments, 0, partial.frameLen);
      DropKeeps(s, key);
    } else {
      forall k <- s.frames ensures Incomplete(s.frames[k]) {
        if k != key { assert Incomplete((s.frames - {key})[k]); }
      }
    }
  }

  lemma {:induction false} StoredKeeps(s: State, p: Packet)
    requires Inv(s) && PacketFits(p) && p.key in s.frames && s.frames[p.key].frameLen == p.frameLen
    requires var held := s.frames[p.key].fragments;
             p.offset !in held && forall other <- held :: !Meets(held, p.offset, p.payload, other)
    ensures var stored := WithFragment(s, p);
            && Accounted(stored) && AllIncomplete(stored.frames - {p.key})
            && Within(stored.frames[p.key].fragments, 0, p.frameLen)
  {
    assert Incomplete(s.frames[p.key]);
    AddFragment(s.frames[p.key].fragments, p.offset, p.payload, p.frameLen);
    var stored := WithFragment(s, p);
    HeldReplace(s.frames, p.key, stored.frames[p.key]);
    assert stored.frames.Keys == s.frames.Keys;
    assert stored.frames - {p.key} == s.frames - {p.key};
  }

  lemma {:induction false} StoreKeeps(s: State, p: Packet)
    requires Inv(s) && PacketFits(p) && p.key in s.frames && s.frames[p.key].frameLen == p.frameLen
    ensures Inv(Store(s, p).0)
    ensures Store(s, p).1.Rejected? ==> Store(s, p).1.error in {FragmentConflict, FragmentOverlap}
  {
    hide Incomplete, Meets, Finish, Within;
    var held := s.frames[p.key].fragments;
    if p.offset in held || exists other <- held :: Meets(held, p.offset, p.payload, other) {
      DropKeeps(s, p.key);
    } else {
      StoredKeeps(s, p);
      FinishKeeps(WithFragment(s, p), p.key);
    }
  }

  lemma RoomExactly(s: State, frameLen: nat)
    requires Accounted(s) && frameLen <= s.maxBytes && (s.frames == map[] || !NoRoom(s, frameLen))
    ensures NoRoom(s, frameLen) <==> s.maxFrames < 1
  {
    if s.frames == map[] {
      assert FrameLengths(s.frames) == map[];
    }
  }

  /** After eviction there is room for every frame within the byte budget, unless no frame may be held at all. */
  lemma AdmitKeeps(s: State, key: Key, frameLen: nat)
    requires Inv(s) && key !in s.frames && 0 < frameLen <= s.maxBytes
    ensures var evicted := Evict(s, frameLen);
            && Inv(evicted) && (NoRoom(evicted, frameLen) <==> s.maxFrames < 1)
            && (!NoRoom(evicted, frameLen) ==> Inv(Open(evicted, key, frameLen)))
  {
    hide Incomplete, Evict, NoRoom;
    EvictKeeps(s, frameLen);
    var evicted := Evict(s, frameLen);
    forall k <- evicted.frames ensures Incomplete(evicted.frames[k]) {
      assert Incomplete(s.frames[k]);
    }
    RoomExactly(evicted, frameLen);
    if !NoRoom(evicted, frameLen) {
      OpenKeeps(evicted, key, frameLen);
      EmptyIncomplete(frameLen);
    }
  }

  lemma {:induction false} PacketKeeps(s: State, p: Packet)
    requires Inv(s) && PacketFits(p)
    ensures Inv(IngestPacket(s, p).0) && IngestPacket(s, p).1 != Rejected(GapFound)
    ensures IngestPacket(s, p).1 == Rejected(Capacity) <==>
            p.frameLen <= s.maxBytes && p.key !in s.frames && s.maxFrames < 1
  {
    if p.frameLen <= s.maxBytes {
      if p.key !in s.frames {
        AdmitKeeps(s, p.key, p.frameLen);
        var evicted := Evict(s, p.frameLen);
        if !NoRoom(evicted, p.frameLen) {
          StoreKeeps(Open(evicted, p.key, p.frameLen), p);
        }
      } else if s.frames[p.key].frameLen == p.frameLen {
        StoreKeeps(s, p);
      } else {
        DropKeeps(s, p.key);
      }
    }
  }
}
