/**
  Where the bytes of a returned frame come from: over any run, each was carried for its
  position by an accepted datagram of the same key and frame length, and the key has been
  held without interruption since that datagram.
 */
module Provenance {
  import opened Bytes
  import opened MediaWire
  import opened Tiling
  import opened Reassembly
  import opened ReassemblyRuns

  // ----- one step

  /** Fragment `o` is the same in both partial frames. */
  predicate Shared(a: Partial, b: Partial, o: nat) {
    a.frameLen == b.frameLen && o in a.fragments && o in b.fragments && a.fragments[o] == b.fragments[o]
  }

  predicate IsFragment(p: Packet, k: Key, partial: Partial, o: nat) {
    p.key == k && p.frameLen == partial.frameLen && p.offset == o && o in partial.fragments &&
      partial.fragments[o] == p.payload
  }

  lemma StoreOrigin(s: State, p: Packet, k: Key, o: nat)
    requires p.key in s.frames && s.frames[p.key].frameLen == p.frameLen
    requires k in Store(s, p).0.frames && o in Store(s, p).0.frames[k].fragments
    ensures var (s', outcome) := Store(s, p);
            || (k in s.frames && Shared(s.frames[k], s'.frames[k], o))
            || (IsFragment(p, k, s'.frames[k], o) && outcome == Waiting)
  {
  }

  lemma {:induction false} PacketOrigin(s: State, p: Packet, k: Key, o: nat)
    requires Inv(s)
    requires k in IngestPacket(s, p).0.frames && o in IngestPacket(s, p).0.frames[k].fragments
    ensures var (s', outcome) := IngestPacket(s, p);
            || (k in s.frames && Shared(s.frames[k], s'.frames[k], o))
            || (IsFragment(p, k, s'.frames[k], o) && outcome == Waiting)
  {
    if p.frameLen <= s.maxBytes {
      if p.key !in s.frames {
        EvictKeeps(s, p.frameLen);
        var evicted := Evict(s, p.frameLen);
        if !NoRoom(evicted, p.frameLen) {
          StoreOrigin(Open(evicted, p.key, p.frameLen), p, k, o);
        }
      } else if s.frames[p.key].frameLen == p.frameLen {
        StoreOrigin(s, p, k, o);
      }
    }
  }

  /** `p` carries byte `i` of `frame`. */
  predicate Carries(p: Packet, frame: seq<byte>, i: nat) {
    p.frameLen == |frame| && p.offset <= i < p.offset + |p.payload| && i < |frame| &&
      p.payload[i - p.offset] == frame[i]
  }

  /** Fragment `o` of a partial frame carries byte `i` of `frame`. */
  ghost predicate HeldByte(partial: Partial, o: nat, frame: seq<byte>, i: nat) {
    partial.frameLen == |frame| && i < |frame| && CoveredBy(partial.fragments, i, o) &&
      partial.fragments[o][i - o] == frame[i]
  }

  lemma StoreComplete(s: State, p: Packet, i: nat)
    requires Inv(s) && PacketFits(p) && p.key in s.frames && s.frames[p.key].frameLen == p.frameLen
    requires Store(s, p).1.Complete? && i < |Store(s, p).1.bytes|
    ensures Store(s, p).1.frameId == p.key.frameId
    ensures Carries(p, Store(s, p).1.bytes, i) || exists o :: HeldByte(s.frames[p.key], o, Store(s, p).1.bytes, i)
  {
    hide Accounted, AllIncomplete, Within, TotalLength, Assemble;
    StoredKeeps(s, p);
    FinishKeeps(WithFragment(s, p), p.key);
    var m, frame := WithFragment(s, p).frames[p.key].fragments, Store(s, p).1.bytes;
    assert Assembled(m, 0, p.frameLen, Frame(frame));
    CarriedSplit(s.frames[p.key].fragments, p.offset, p.payload, frame, i);
    if !Carries(p, frame, i) {
      var o :| CoveredBy(s.frames[p.key].fragments, i, o) && s.frames[p.key].fragments[o][i - o] == frame[i];
      assert HeldByte(s.frames[p.key], o, frame, i);
    }
  }

  /** A byte carried with one fragment added is carried by that fragment or by one of the others. */
  lemma CarriedSplit(m: Fragments, offset: nat, payload: seq<byte>, frame: seq<byte>, i: nat)
    requires offset !in m && i < |frame| && Carried(m[offset := payload], 0, frame, i)
    ensures || (offset <= i < offset + |payload| && payload[i - offset] == frame[i])
            || exists o :: CoveredBy(m, i, o) && m[o][i - o] == frame[i]
  {
    var m' := m[offset := payload];
    var o :| CoveredBy(m', i, o) && m'[o][i - o] == frame[i - 0];
    assert o != offset ==> CoveredBy(m, i, o);
  }

  lemma PacketComplete(s: State, p: Packet, i: nat)
    requires Inv(s) && PacketFits(p)
    requires IngestPacket(s, p).1.Complete? && i < |IngestPacket(s, p).1.bytes|
    ensures IngestPacket(s, p).1.frameId == p.key.frameId
    ensures var frame := IngestPacket(s, p).1.bytes;
            Carries(p, frame, i) || (p.key in s.frames && exists o :: HeldByte(s.frames[p.key], o, frame, i))
  {
    if p.key !in s.frames {
      AdmitKeeps(s, p.key, p.frameLen);
      var admitted := Open(Evict(s, p.frameLen), p.key, p.frameLen);
      StoreComplete(admitted, p, i);
    } else {
      StoreComplete(s, p, i);
    }
  }

  lemma {:induction false} StepOrigin(s: State, op: Op, k: Key, o: nat)
    requires Inv(s) && k in Apply(s, op).0.frames && o in Apply(s, op).0.frames[k].fragments
    ensures var (s', outcome) := Apply(s, op);
            || (k in s.frames && Shared(s.frames[k], s'.frames[k], o))
            || (op.Datagram? && ParseMedia(op.bytes).Ok? && outcome == Waiting &&
                IsFragment(ParseMedia(op.bytes).value, k, s'.frames[k], o))
  {
    if op.Datagram? && ParseMedia(op.bytes).Ok? {
      PacketOrigin(s, ParseMedia(op.bytes).value, k, o);
    }
  }

  lemma StepComplete(s: State, op: Op, i: nat)
    requires Inv(s) && Apply(s, op).1.Complete? && i < |Apply(s, op).1.bytes|
    ensures op.Datagram? && ParseMedia(op.bytes).Ok?
    ensures var p, frame := ParseMedia(op.bytes).value, Apply(s, op).1.bytes;
            && Apply(s, op).1.frameId == p.key.frameId
            && (Carries(p, frame, i) || (p.key in s.frames && exists o :: HeldByte(s.frames[p.key], o, frame, i)))
  {
    PacketComplete(s, ParseMedia(op.bytes).value, i);
  }

  // ----- whole runs

  /** Operation `j` delivered packet `p`, and the reassembler took it. */
  ghost predicate AcceptedAt(h: History, j: nat, p: Packet) {
    j < |h.ops| && j < |h.outcomes| && h.ops[j].Datagram? && ParseMedia(h.ops[j].bytes) == Ok(p) &&
      !h.outcomes[j].Rejected?
  }

  /** After each of the operations j .. n-1, `key` was held. */
  ghost predicate HeldSince(h: History, j: nat, n: nat, key: Key) {
    n < |h.states| && forall m :: j < m <= n ==> key in h.states[m].frames
  }

  lemma {:induction false} FragmentOrigin(h: History, maxFrames: int, maxBytes: int, n: nat, k: Key, o: nat)
    returns (j: nat, p: Packet)
    requires Recorded(h) && h.states[0] == Init(maxFrames, maxBytes) && n <= |h.ops|
    requires k in h.states[n].frames && o in h.states[n].frames[k].fragments
    ensures j < n && AcceptedAt(h, j, p) && HeldSince(h, j, n, k) && IsFragment(p, k, h.states[n].frames[k], o)
    decreases n
  {
    hide Apply, ParseMedia, Inv;
    if n == 0 {
      assert false;
    } else {
      var before := h.states[n - 1];
      assert Step(h, n - 1);
      InitInv(maxFrames, maxBytes);
      RecordedKeeps(h, n - 1);
      StepOrigin(before, h.ops[n - 1], k, o);
      if k in before.frames && Shared(before.frames[k], h.states[n].frames[k], o) {
        j, p := FragmentOrigin(h, maxFrames, maxBytes, n - 1, k, o);
      } else {
        j, p := n - 1, ParseMedia(h.ops[n - 1].bytes).value;
      }
    }
  }

  /** Operation `j` carried byte `i` of the frame operation `n` returned, and its key was held ever since. */
  ghost predicate CarriedAt(h: History, n: nat, key: Key, frame: seq<byte>, i: nat, j: nat, p: Packet) {
    j <= n && AcceptedAt(h, j, p) && p.key == key && Carries(p, frame, i) && HeldSince(h, j, n, key)
  }

  lemma EveryByteWasCarried(h: History, maxFrames: int, maxBytes: int, n: nat, i: nat)
    requires Recorded(h) && h.states[0] == Init(maxFrames, maxBytes) && n < |h.ops|
    requires h.outcomes[n].Complete? && i < |h.outcomes[n].bytes|
    ensures h.ops[n].Datagram? && ParseMedia(h.ops[n].bytes).Ok?
    ensures var key := ParseMedia(h.ops[n].bytes).value.key;
            && h.outcomes[n].frameId == key.frameId
            && exists j, p :: CarriedAt(h, n, key, h.outcomes[n].bytes, i, j, p)
  {
    hide Apply, ParseMedia, Inv;
    assert Step(h, n);
    InitInv(maxFrames, maxBytes);
    RecordedKeeps(h, n);
    StepComplete(h.states[n], h.ops[n], i);
    var p, frame := ParseMedia(h.ops[n].bytes).value, h.outcomes[n].bytes;
    if Carries(p, frame, i) {
      assert CarriedAt(h, n, p.key, frame, i, n, p);
    } else {
      var o :| HeldByte(h.states[n].frames[p.key], o, frame, i);
      var j, q := FragmentOrigin(h, maxFrames, maxBytes, n, p.key, o);
      assert CarriedAt(h, n, p.key, frame, i, j, q);
    }
  }
}
