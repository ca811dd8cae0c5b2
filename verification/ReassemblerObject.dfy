/** The reassembler as it runs: an object whose table of partial frames is updated in place. */
module ReassemblerObject {
  import opened Bytes
  import opened MediaWire
  import opened Ordering
  import opened Tiling
  import opened Reassembly

  method MeetsAny(fragments: Fragments, offset: nat, payload: seq<byte>) returns (found: bool)
    ensures found <==> exists other <- fragments :: Meets(fragments, offset, payload, other)
  {
    var left := fragments.Keys;
    while left != {}
      invariant left <= fragments.Keys
      invariant forall other <- fragments.Keys - left :: !Meets(fragments, offset, payload, other)
      decreases |left|
    {
      var other :| other in left;
      if Meets(fragments, offset, payload, other) {
        return true;
      }
      left := left - {other};
    }
    return false;
  }

  method SumLengths(fragments: Fragments) returns (total: nat)
    ensures total == TotalLength(fragments)
  {
    hide TotalLength;
    total := 0;
    var rest: Fragments := fragments;
    while rest != map[]
      invariant total + TotalLength(rest) == TotalLength(fragments)
      decreases |rest|
    {
      var o: nat :| o in rest;
      TotalRemove(rest, o);
      total := total + |rest[o]|;
      rest := rest - {o};
    }
    EmptyTotal();
  }

  lemma EmptyTotal()
    ensures TotalLength(map[]) == 0
  {
    assert Lengths(map[]) == map[];
  }

  /** What the assembly of `m` makes of the bytes already written. */
  ghost function Prepend(bytes: seq<byte>, rest: Assembly): Assembly {
    match rest
    case Gap => Gap
    case Frame(tail) => Frame(bytes + tail)
  }

  lemma AssembleStep(m: Fragments, cursor: nat, bytes: seq<byte>)
    requires m != map[]
    ensures Prepend(bytes, Assemble(m, cursor)) ==
            if FirstOffset(m) != cursor then Gap
            else Prepend(bytes + m[cursor], Assemble(m - {cursor}, cursor + |m[cursor]|))
  {
    if FirstOffset(m) == cursor {
      var rest := Assemble(m - {cursor}, cursor + |m[cursor]|);
      assert rest.Frame? ==> bytes + (m[cursor] + rest.bytes) == bytes + m[cursor] + rest.bytes;
    }
  }

  lemma AssembleEmpty(cursor: nat)
    ensures Assemble(map[], cursor) == Frame([])
  {
  }

  method CopyInto(output: array<byte>, at: nat, payload: seq<byte>)
    requires at + |payload| <= output.Length
    modifies output
    ensures output[..at + |payload|] == old(output[..at]) + payload
  {
    forall i | 0 <= i < |payload| {
      output[at + i] := payload[i];
    }
  }

  method AssembleFrame(fragments: Fragments, frameLen: nat) returns (result: Assembly)
    requires TotalLength(fragments) == frameLen
    ensures result == Assemble(fragments, 0)
  {
    hide TotalLength, Assemble, FirstOffset;
    var output := new byte[frameLen](_ => 0);
    var cursor: nat := 0;
    var rest: Fragments := fragments;
    while rest != map[]
      invariant cursor + TotalLength(rest) == frameLen == output.Length
      invariant Assemble(fragments, 0) == Prepend(output[..cursor], Assemble(rest, cursor))
      decreases |rest|
    {
      AssembleStep(rest, cursor, output[..cursor]);
      var position: nat := FirstOffset(rest);
      if position != cursor {
        return Gap;
      }
      var payload := rest[position];
      TotalRemove(rest, position);
      CopyInto(output, position, payload);
      rest := rest - {position};
      cursor := cursor + |payload|;
    }
    EmptyTotal();
    AssembleEmpty(cursor);
    assert output[..] == output[..cursor] + [];
    return Frame(output[..]);
  }

  class Reassembler {
    const maxFrames: int
    const maxBytes: int
    var frames: map<Key, Partial>
    var reserved: int
    var maxReserved: int

    ghost function Model(): State
      reads this
    {
      State(maxFrames, maxBytes, frames, reserved, maxReserved)
    }

    ghost predicate Valid()
      reads this
    {
      Inv(Model())
    }

    constructor (maxFrames: int, maxBytes: int)
      ensures Valid() && Model() == Init(maxFrames, maxBytes)
    {
      this.maxFrames, this.maxBytes := maxFrames, maxBytes;
      frames, reserved, maxReserved := map[], 0, 0;
      new;
      assert FrameLengths(map[]) == map[];
    }

    method DropKey(key: Key)
      modifies this
      ensures Model() == Drop(old(Model()), key)
    {
      if key in frames {
        reserved := reserved - frames[key].frameLen;
        frames := frames - {key};
      }
    }

    method EvictFor(frameLen: nat)
      modifies this
      ensures Model() == Evict(old(Model()), frameLen)
    {
      hide LeastKey;
      while frames != map[] && (|frames| >= maxFrames || reserved + frameLen > maxBytes)
        invariant Evict(Model(), frameLen) == Evict(old(Model()), frameLen)
        decreases |frames|
      {
        var victim := LeastKey(frames.Keys);
        reserved := reserved - frames[victim].frameLen;
        frames := frames - {victim};
      }
    }

    method StorePacket(p: Packet) returns (outcome: Outcome)
      requires p.key in frames && frames[p.key].frameLen == p.frameLen
      modifies this
      ensures (Model(), outcome) == Store(old(Model()), p)
    {
      var partial := frames[p.key];
      if p.offset in partial.fragments {
        if partial.fragments[p.offset] == p.payload {
          return Waiting;
        }
        DropKey(p.key);
        return Rejected(FragmentConflict);
      }
      var overlap := MeetsAny(partial.fragments, p.offset, p.payload);
      if overlap {
        DropKey(p.key);
        return Rejected(FragmentOverlap);
      }
      var fragments := partial.fragments[p.offset := p.payload];
      frames := frames[p.key := Partial(p.frameLen, fragments)];
      assert Model() == WithFragment(old(Model()), p);
      var total := SumLengths(fragments);
      if total != p.frameLen {
        return Waiting;
      }
      var assembly := AssembleFrame(fragments, p.frameLen);
      DropKey(p.key);
      match assembly
      case Gap => return Rejected(GapFound);
      case Frame(bytes) => return Complete(p.key.frameId, bytes);
    }

    method IngestDatagram(datagram: seq<byte>) returns (outcome: Outcome)
      requires Valid()
      modifies this
      ensures Valid()
      ensures (Model(), outcome) == Ingest(old(Model()), datagram)
    {
      hide Inv, ParseMedia, Evict, Store;
      var parsed := ParseMedia(datagram);
      if parsed.Err? {
        return Rejected(Unparsed(parsed.error));
      }
      var p := parsed.value;
      PacketKeeps(Model(), p);
      if p.frameLen > maxBytes {
        return Rejected(FrameBudget);
      }
      if p.key !in frames {
        EvictFor(p.frameLen);
        if |frames| >= maxFrames || reserved + p.frameLen > maxBytes {
          return Rejected(Capacity);
        }
        frames := frames[p.key := Partial(p.frameLen, map[])];
        reserved := reserved + p.frameLen;
        maxReserved := Max(maxReserved, reserved);
      } else if frames[p.key].frameLen != p.frameLen {
        DropKey(p.key);
        return Rejected(MetadataConflict);
      }
      outcome := StorePacket(p);
    }

    method DiscardAll()
      modifies this
      ensures Model() == old(Model()).(frames := map[], reserved := 0)
      ensures old(Valid()) ==> Valid()
    {
      frames := map[];
      reserved := 0;
      assert FrameLengths(map[]) == map[];
    }
  }
}
