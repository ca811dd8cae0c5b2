/**
  Properties of whole runs of the reassembler, over any sequence of byte strings: the byte
  account, its high-water mark, and which frames are evicted.
 */
module ReassemblyRuns {
  import opened Bytes
  import opened MediaWire
  import opened Ordering
  import opened Tiling
  import opened Reassembly

  datatype Op = Datagram(bytes: seq<byte>) | DiscardAll

  ghost function Apply(s: State, op: Op): (r: (State, Outcome))
    ensures SameLimits(s, r.0)
  {
    match op
    case Datagram(bytes) => Ingest(s, bytes)
    case DiscardAll => (s.(frames := map[], reserved := 0), Waiting)
  }

  ghost function Run(s: State, ops: seq<Op>): State {
    if ops == [] then s else Apply(Run(s, ops[..|ops| - 1]), ops[|ops| - 1]).0
  }

  lemma {:induction false} ApplyKeeps(s: State, op: Op)
    requires Inv(s)
    ensures Inv(Apply(s, op).0) && Apply(s, op).1 != Rejected(GapFound)
  {
    match op
    case Datagram(bytes) =>
      if ParseMedia(bytes).Ok? {
        PacketKeeps(s, ParseMedia(bytes).value);
      }
    case DiscardAll =>
      assert FrameLengths(map[]) == map[];
  }

  lemma InitInv(maxFrames: int, maxBytes: int)
    ensures Inv(Init(maxFrames, maxBytes))
  {
    assert FrameLengths(map[]) == map[];
  }

  lemma {:induction false} RunKeeps(s: State, ops: seq<Op>)
    requires Inv(s)
    ensures Inv(Run(s, ops))
    ensures SameLimits(s, Run(s, ops))
  {
    if ops == [] {
    } else {
      RunKeeps(s, ops[..|ops| - 1]);
      ApplyKeeps(Run(s, ops[..|ops| - 1]), ops[|ops| - 1]);
    }
  }

  /**
    In every state a new reassembler can reach, whatever it was fed: the account is exact and
    within both limits, stored fragments never overlap, and the next datagram is never
    refused for a gap, and refused for capacity only if no frame may be held at all.
   */
  lemma {:induction false} ReachableStates(maxFrames: int, maxBytes: int, ops: seq<Op>, datagram: seq<byte>)
    ensures var s := Run(Init(maxFrames, maxBytes), ops);
            && Accounted(s) && AllIncomplete(s.frames)
            && s.maxFrames == maxFrames && s.maxBytes == maxBytes
            && Ingest(s, datagram).1 != Rejected(GapFound)
            && (maxFrames >= 1 ==> Ingest(s, datagram).1 != Rejected(Capacity))
  {
    InitInv(maxFrames, maxBytes);
    RunKeeps(Init(maxFrames, maxBytes), ops);
    var s := Run(Init(maxFrames, maxBytes), ops);
    if ParseMedia(datagram).Ok? {
      PacketKeeps(s, ParseMedia(datagram).value);
    }
  }

  /** Whatever a reassembler was fed, after a discard it holds nothing, and of the past it keeps the high-water mark. */
  lemma {:induction false} DiscardForgets(maxFrames: int, maxBytes: int, ops: seq<Op>)
    ensures var high := Run(Init(maxFrames, maxBytes), ops).maxReserved;
            Run(Init(maxFrames, maxBytes), ops + [DiscardAll]) == Init(maxFrames, maxBytes).(maxReserved := high)
  {
    InitInv(maxFrames, maxBytes);
    RunKeeps(Init(maxFrames, maxBytes), ops);
    assert (ops + [DiscardAll])[..|ops|] == ops;
  }

  /** A recorded run: the operations, what each returned, and the states between them. */
  datatype History = History(ops: seq<Op>, outcomes: seq<Outcome>, states: seq<State>)

  ghost predicate Step(h: History, i: nat) {
    i < |h.ops| && i < |h.outcomes| && i + 1 < |h.states| &&
    Apply(h.states[i], h.ops[i]) == (h.states[i + 1], h.outcomes[i])
  }

  ghost predicate Recorded(h: History) {
    && |h.outcomes| == |h.ops| && |h.states| == |h.ops| + 1
    && forall i {:trigger Step(h, i)} :: 0 <= i < |h.ops| ==> Step(h, i)
  }

  /** The record of a run: there is one for every state and every operations. */
  ghost function Record(s: State, ops: seq<Op>): (h: History)
    ensures h.ops == ops && |h.outcomes| == |ops| && |h.states| == |ops| + 1 && h.states[0] == s
  {
    if ops == [] then History([], [], [s])
    else
      var h := Record(s, ops[..|ops| - 1]);
      var (next, outcome) := Apply(h.states[|ops| - 1], ops[|ops| - 1]);
      History(ops, h.outcomes + [outcome], h.states + [next])
  }

  lemma {:induction false} RecordIsRun(s: State, ops: seq<Op>)
    ensures Recorded(Record(s, ops)) && Record(s, ops).states[|ops|] == Run(s, ops)
  {
    hide Apply;
    if ops == [] {
    } else {
      var h, before := Record(s, ops), Record(s, ops[..|ops| - 1]);
      RecordIsRun(s, ops[..|ops| - 1]);
      forall i | 0 <= i < |ops| ensures Step(h, i) {
        if i < |ops| - 1 {
          assert Step(before, i);
        }
      }
    }
  }

  lemma {:induction false} RecordedKeeps(h: History, n: nat)
    requires Recorded(h) && Inv(h.states[0]) && n <= |h.ops|
    ensures Inv(h.states[n]) && SameLimits(h.states[0], h.states[n])
  {
    hide Apply, Inv;
    if n == 0 {
    } else {
      RecordedKeeps(h, n - 1);
      assert Step(h, n - 1);
      ApplyKeeps(h.states[n - 1], h.ops[n - 1]);
    }
  }

  // ----- eviction

  /** The state without its `n` smallest keys. */
  function DropLeast(s: State, n: nat): State
    requires n <= |s.frames|
    decreases n
  {
    if n == 0 then s else DropLeast(Drop(s, LeastKey(s.frames.Keys)), n - 1)
  }

  /** `prefix` holds the smallest of the held keys: none outside it is smaller. */
  ghost predicate KeyPrefix(keys: set<Key>, prefix: set<Key>) {
    prefix <= keys &&
    forall k, other {:trigger KeyLe(k, other)} :: k in prefix && other in keys && other !in prefix ==> KeyLe(k, other)
  }

  function Victims(s: State, frameLen: nat): (n: nat)
    ensures n <= |s.frames|
    decreases |s.frames|
  {
    if s.frames != map[] && NoRoom(s, frameLen)
    then 1 + Victims(Drop(s, LeastKey(s.frames.Keys)), frameLen)
    else 0
  }

  /**
    Eviction drops the fewest frames that make room, smallest keys first: with fewer
    victims there was no room, and with these there is, or nothing is held any more.
   */
  lemma EvictsFewest(s: State, frameLen: nat)
    ensures Evict(s, frameLen) == DropLeast(s, Victims(s, frameLen))
    ensures Victims(s, frameLen) == |s.frames| || !NoRoom(Evict(s, frameLen), frameLen)
    ensures forall n :: 0 <= n < Victims(s, frameLen) ==> NoRoom(DropLeast(s, n), frameLen)
  {
    EvictDropsLeast(s, frameLen);
    forall n | 0 <= n < Victims(s, frameLen) ensures NoRoom(DropLeast(s, n), frameLen) {
      FewerLeaveNoRoom(s, frameLen, n);
    }
  }

  lemma {:induction false} EvictDropsLeast(s: State, frameLen: nat)
    ensures Evict(s, frameLen) == DropLeast(s, Victims(s, frameLen))
    ensures Victims(s, frameLen) == |s.frames| || !NoRoom(Evict(s, frameLen), frameLen)
    decreases |s.frames|
  {
    if s.frames != map[] && NoRoom(s, frameLen) {
      var next := Drop(s, LeastKey(s.frames.Keys));
      EvictDropsLeast(next, frameLen);
      assert DropLeast(s, Victims(s, frameLen)) == DropLeast(next, Victims(next, frameLen));
    }
  }

  lemma VictimsFirst(s: State, frameLen: nat)
    requires Victims(s, frameLen) > 0
    ensures s.frames != map[] && NoRoom(s, frameLen)
    ensures Victims(s, frameLen) == 1 + Victims(Drop(s, LeastKey(s.frames.Keys)), frameLen)
  {
  }

  lemma {:induction false} FewerLeaveNoRoom(s: State, frameLen: nat, n: nat)
    requires n < Victims(s, frameLen)
    ensures NoRoom(DropLeast(s, n), frameLen)
    decreases n
  {
    hide Victims, Drop, NoRoom;
    VictimsFirst(s, frameLen);
    if n == 0 {
    } else {
      var next := Drop(s, LeastKey(s.frames.Keys));
      FewerLeaveNoRoom(next, frameLen, n - 1);
      assert DropLeast(s, n) == DropLeast(next, n - 1);
    }
  }

  /** The `n` smallest keys. */
  ghost function Smallest(keys: set<Key>, n: nat): (r: set<Key>)
    requires n <= |keys|
    ensures r <= keys && |r| == n
    decreases n
  {
    if n == 0 then {} else {LeastKey(keys)} + Smallest(keys - {LeastKey(keys)}, n - 1)
  }

  lemma {:induction false} SmallestIsPrefix(keys: set<Key>, n: nat)
    requires n <= |keys|
    ensures KeyPrefix(keys, Smallest(keys, n))
    decreases n
  {
    if n == 0 {
    } else {
      var least := LeastKey(keys);
      SmallestIsPrefix(keys - {least}, n - 1);
      PrefixStep(keys, least, Smallest(keys - {least}, n - 1));
    }
  }

  /** Dropping `n` victims removes the `n` smallest keys and leaves the other frames alone. */
  lemma {:induction false} DropsSmallest(s: State, n: nat)
    requires n <= |s.frames|
    ensures DropLeast(s, n).frames == s.frames - Smallest(s.frames.Keys, n)
    decreases n
  {
    if n == 0 {
      assert s.frames - {} == s.frames;
    } else {
      var least := LeastKey(s.frames.Keys);
      var next := Drop(s, least);
      assert next.frames.Keys == s.frames.Keys - {least};
      DropsSmallest(next, n - 1);
      assert DropLeast(s, n) == DropLeast(next, n - 1);
      RemoveTwice(s.frames, {least}, Smallest(next.frames.Keys, n - 1));
    }
  }

  lemma RemoveTwice(frames: map<Key, Partial>, a: set<Key>, b: set<Key>)
    ensures frames - a - b == frames - (a + b)
  {
  }

  lemma PrefixStep(keys: set<Key>, least: Key, rest: set<Key>)
    requires IsLeastKey(keys, least) && KeyPrefix(keys - {least}, rest)
    ensures KeyPrefix(keys, {least} + rest)
  {
    assert forall other <- keys :: KeyLe(least, other);
  }

  /** A key prefix is determined by its size. */
  lemma {:induction false} PrefixIsSmallest(keys: set<Key>, prefix: set<Key>)
    requires KeyPrefix(keys, prefix)
    ensures |prefix| <= |keys| && prefix == Smallest(keys, |prefix|)
    decreases |prefix|
  {
    hide KeyPrefix;
    PrefixSize(keys, prefix);
    if prefix == {} {
    } else {
      var least := LeastKey(keys);
      PrefixHasLeast(keys, prefix);
      PrefixIsSmallest(keys - {least}, prefix - {least});
      assert prefix == {least} + (prefix - {least});
    }
  }

  lemma PrefixSize(keys: set<Key>, prefix: set<Key>)
    requires KeyPrefix(keys, prefix)
    ensures |prefix| <= |keys|
  {
    SubsetSize(prefix, keys);
  }

  lemma PrefixHasLeast(keys: set<Key>, prefix: set<Key>)
    requires KeyPrefix(keys, prefix) && prefix != {}
    ensures keys != {} && LeastKey(keys) in prefix
    ensures KeyPrefix(keys - {LeastKey(keys)}, prefix - {LeastKey(keys)})
  {
    var k :| k in prefix;
    assert k in keys;
    var least := LeastKey(keys);
    assert KeyLe(least, k);
    assert least !in prefix ==> KeyLe(k, least);
  }

  lemma SubsetSize(part: set<Key>, whole: set<Key>)
    requires part <= whole
    ensures |part| <= |whole| && (|part| == |whole| ==> part == whole)
  {
    assert whole == part + (whole - part);
    assert |whole| == |part| + |whole - part|;
  }

  /** There is room for a frame once the keys `gone` are no longer held. */
  ghost predicate RoomWithout(s: State, gone: set<Key>, frameLen: nat) {
    |s.frames - gone| < s.maxFrames && HeldBytes(s.frames - gone) + frameLen <= s.maxBytes
  }

  lemma {:induction false} DropLeastKeeps(s: State, n: nat)
    requires Accounted(s) && n <= |s.frames|
    ensures Accounted(DropLeast(s, n)) && SameLimits(s, DropLeast(s, n))
    decreases n
  {
    hide Accounted;
    if n == 0 {
    } else {
      var least := LeastKey(s.frames.Keys);
      DropKeeps(s, least);
      DropLeastKeeps(Drop(s, least), n - 1);
    }
  }

  lemma RoomExactlyWithout(s: State, frameLen: nat, n: nat)
    requires Accounted(s) && n <= |s.frames|
    ensures RoomWithout(s, Smallest(s.frames.Keys, n), frameLen) <==> !NoRoom(DropLeast(s, n), frameLen)
  {
    hide Smallest, DropLeast;
    DropsSmallest(s, n);
    DropLeastKeeps(s, n);
  }

  /**
    Eviction removes exactly the shortest prefix of the keys, in their order, that makes room,
    or everything if none does: any shorter prefix leaves no room.
   */
  lemma EvictsShortestPrefix(s: State, frameLen: nat) returns (gone: set<Key>)
    requires Accounted(s)
    ensures KeyPrefix(s.frames.Keys, gone) && Evict(s, frameLen).frames == s.frames - gone
    ensures RoomWithout(s, gone, frameLen) || gone == s.frames.Keys
    ensures forall less :: KeyPrefix(s.frames.Keys, less) && |less| < |gone| ==> !RoomWithout(s, less, frameLen)
  {
    hide Smallest, DropLeast, KeyPrefix, RoomWithout, NoRoom, Accounted, Victims, Evict;
    var n := Victims(s, frameLen);
    gone := Smallest(s.frames.Keys, n);
    EvictsFewest(s, frameLen);
    DropsSmallest(s, n);
    SmallestIsPrefix(s.frames.Keys, n);
    RoomExactlyWithout(s, frameLen, n);
    SubsetSize(gone, s.frames.Keys);
    forall less | KeyPrefix(s.frames.Keys, less) && |less| < n ensures !RoomWithout(s, less, frameLen) {
      PrefixIsSmallest(s.frames.Keys, less);
      RoomExactlyWithout(s, frameLen, |less|);
    }
  }

  // ----- the high-water mark

  ghost function EvictTrace(s: State, frameLen: nat): seq<int>
    decreases |s.frames|
  {
    if s.frames != map[] && NoRoom(s, frameLen) then
      var next := Drop(s, LeastKey(s.frames.Keys));
      [next.reserved] + EvictTrace(next, frameLen)
    else []
  }

  /** Every value `reserved` takes while one operation runs, in order. */
  ghost function ReservedDuring(s: State, op: Op): seq<int> {
    var last := [Apply(s, op).0.reserved];
    if op.Datagram? && ParseMedia(op.bytes).Ok? then
      var p := ParseMedia(op.bytes).value;
      if p.frameLen <= s.maxBytes && p.key !in s.frames then
        EvictTrace(s, p.frameLen) + Admitted(s, p) + last
      else last
    else last
  }

  ghost function ReservedTrace(s: State, ops: seq<Op>): seq<int> {
    if ops == [] then []
    else
      var before := ops[..|ops| - 1];
      ReservedTrace(s, before) + ReservedDuring(Run(s, before), ops[|ops| - 1])
  }

  lemma {:induction false} EvictTraceFalls(s: State, frameLen: nat, floor: int)
    requires Accounted(s) && s.reserved <= floor
    ensures MaxOf(floor, EvictTrace(s, frameLen)) == floor
    decreases |s.frames|
  {
    if s.frames != map[] && NoRoom(s, frameLen) {
      var next := Drop(s, LeastKey(s.frames.Keys));
      DropKeeps(s, LeastKey(s.frames.Keys));
      EvictTraceFalls(next, frameLen, floor);
      MaxOfSplit(floor, [next.reserved], EvictTrace(next, frameLen));
      assert [next.reserved][..0] == [];
    }
  }

  /** What admission of a new key adds to the trace, and so to the high-water mark. */
  ghost function Admitted(s: State, p: Packet): seq<int> {
    var evicted := Evict(s, p.frameLen);
    if NoRoom(evicted, p.frameLen) then [] else [Open(evicted, p.key, p.frameLen).reserved]
  }

  lemma AdmitHighWater(s: State, p: Packet)
    requires Inv(s) && p.frameLen <= s.maxBytes && p.key !in s.frames
    ensures IngestPacket(s, p).0.maxReserved == MaxOf(s.maxReserved, Admitted(s, p))
    ensures IngestPacket(s, p).0.reserved <= MaxOf(s.maxReserved, Admitted(s, p))
  {
    var evicted := Evict(s, p.frameLen);
    EvictKeeps(s, p.frameLen);
    if !NoRoom(evicted, p.frameLen) {
      assert Admitted(s, p)[..0] == [];
    }
  }

  lemma {:induction false} StepHighWater(s: State, op: Op)
    requires Inv(s)
    ensures Apply(s, op).0.maxReserved == MaxOf(s.maxReserved, ReservedDuring(s, op))
  {
    var last := Apply(s, op).0;
    assert MaxOf(s.maxReserved, [last.reserved]) == Max(s.maxReserved, last.reserved) by {
      assert [last.reserved][..0] == [];
    }
    if op.Datagram? && ParseMedia(op.bytes).Ok? {
      var p := ParseMedia(op.bytes).value;
      if p.frameLen <= s.maxBytes && p.key !in s.frames {
        AdmitHighWater(s, p);
        EvictTraceFalls(s, p.frameLen, s.maxReserved);
        MaxOfPeak(s.maxReserved, EvictTrace(s, p.frameLen), Admitted(s, p), last.reserved);
      }
    }
  }

  /** `max_reserved` is the largest value `reserved` ever had, also in the middle of a step. */
  lemma {:induction false} HighWaterExact(maxFrames: int, maxBytes: int, ops: seq<Op>)
    ensures Run(Init(maxFrames, maxBytes), ops).maxReserved == MaxOf(0, ReservedTrace(Init(maxFrames, maxBytes), ops))
  {
    var init := Init(maxFrames, maxBytes);
    if ops == [] {
    } else {
      var before := ops[..|ops| - 1];
      HighWaterExact(maxFrames, maxBytes, before);
      InitInv(maxFrames, maxBytes);
      RunKeeps(init, before);
      StepHighWater(Run(init, before), ops[|ops| - 1]);
      MaxOfSplit(0, ReservedTrace(init, before), ReservedDuring(Run(init, before), ops[|ops| - 1]));
    }
  }
}
