/**
  Fragments of one frame: a map from offset to payload. If the fragments are disjoint, lie
  inside the frame and their lengths add up to its length, they tile it without a gap.
 */
module Tiling {
  import opened Bytes
  import opened Ordering

  type Fragments = map<nat, seq<byte>>

  // ----- finite sums

  ghost function Sum<K>(m: map<K, nat>): nat
    decreases |m|
  {
    if m == map[] then 0
    else
      var k :| k in m;
      m[k] + Sum(m - {k})
  }

  /** A sum does not depend on the order in which the entries are taken. */
  lemma {:induction false} SumRemove<K>(m: map<K, nat>, k: K)
    requires k in m
    ensures Sum(m) == m[k] + Sum(m - {k})
    decreases |m|
  {
    var first :| first in m && Sum(m) == m[first] + Sum(m - {first});
    if first != k {
      SumRemove(m - {first}, k);
      SumRemove(m - {k}, first);
      assert m - {first} - {k} == m - {k} - {first};
    }
  }

  ghost function Lengths(m: Fragments): map<nat, nat> {
    map o | o in m :: |m[o]|
  }

  ghost function TotalLength(m: Fragments): nat {
    Sum(Lengths(m))
  }

  lemma TotalRemove(m: Fragments, o: nat)
    requires o in m
    ensures TotalLength(m) == |m[o]| + TotalLength(m - {o})
  {
    SumRemove(Lengths(m), o);
    assert Lengths(m) - {o} == Lengths(m - {o});
  }

  // ----- disjoint fragments within bounds

  /** The byte ranges at `o` and `p` do not meet. */
  predicate Apart(m: Fragments, o: nat, p: nat)
    requires o in m && p in m
  {
    o + |m[o]| <= p || p + |m[p]| <= o
  }

  /** Nonempty, pairwise disjoint fragments inside [lo, hi). */
  ghost predicate Within(m: Fragments, lo: nat, hi: nat) {
    && (forall o <- m :: m[o] != [] && lo <= o && o + |m[o]| <= hi)
    && (forall o <- m, p <- m :: o != p ==> Apart(m, o, p))
  }

  ghost predicate CoveredBy(m: Fragments, i: nat, o: nat) {
    o in m && o <= i < o + |m[o]|
  }

  ghost predicate Covered(m: Fragments, i: nat) {
    exists o :: CoveredBy(m, i, o)
  }

  predicate IsFirst(m: Fragments, o: nat) {
    o in m && forall p <- m :: o <= p
  }

  function FirstOffset(m: Fragments): (o: nat)
    requires m != map[]
    ensures IsFirst(m, o)
  {
    assert TotalOrder(NatLe);
    var o := Least(m.Keys, NatLe);
    assert forall p <- m :: NatLe(o, p);
    o
  }

  /** What is left after the first fragment lies behind it. */
  lemma DropFirst(m: Fragments, lo: nat, hi: nat)
    requires Within(m, lo, hi) && m != map[]
    ensures var o: nat := FirstOffset(m);
            Within(m - {o}, o + |m[o]|, hi) && TotalLength(m) == |m[o]| + TotalLength(m - {o})
  {
    var o: nat := FirstOffset(m);
    TotalRemove(m, o);
    forall p <- m - {o} ensures o + |m[o]| <= p {
      assert Apart(m, o, p);
      assert m[p] != [] && o <= p;
    }
    forall p <- m - {o}, q <- m - {o} | p != q ensures Apart(m - {o}, p, q) {
      assert Apart(m, p, q);
    }
  }

  /** Disjoint fragments have no more bytes than the range that holds them. */
  lemma {:induction false} TotalBound(m: Fragments, lo: nat, hi: nat)
    requires Within(m, lo, hi) && lo <= hi
    ensures TotalLength(m) <= hi - lo
    decreases |m|
  {
    if m == map[] {
    } else {
      var o: nat := FirstOffset(m);
      DropFirst(m, lo, hi);
      assert m[o] != [];
      TotalBound(m - {o}, o + |m[o]|, hi);
    }
  }

  /** A position that nothing covers leaves the sum short. */
  lemma {:induction false} GapLeavesRoom(m: Fragments, lo: nat, hi: nat, i: nat)
    requires Within(m, lo, hi) && lo <= i < hi && forall o <- m :: !CoveredBy(m, i, o)
    ensures TotalLength(m) < hi - lo
    decreases |m|
  {
    if m == map[] {
    } else {
      var o: nat := FirstOffset(m);
      DropFirst(m, lo, hi);
      assert !CoveredBy(m, i, o);
      if i < o {
        TotalBound(m - {o}, o + |m[o]|, hi);
      } else {
        forall p <- m - {o} ensures !CoveredBy(m - {o}, i, p) {
          assert !CoveredBy(m, i, p);
        }
        GapLeavesRoom(m - {o}, o + |m[o]|, hi, i);
      }
    }
  }

  /** The sum reaches the length of the range exactly when every position is covered. */
  lemma {:induction false} FullExactly(m: Fragments, lo: nat, hi: nat)
    requires Within(m, lo, hi) && lo <= hi
    ensures TotalLength(m) == hi - lo <==> forall i :: lo <= i < hi ==> Covered(m, i)
  {
    if i :| lo <= i < hi && !Covered(m, i) {
      GapLeavesRoom(m, lo, hi, i);
    } else {
      CoverIsFull(m, lo, hi);
    }
  }

  lemma {:induction false} CoverIsFull(m: Fragments, lo: nat, hi: nat)
    requires Within(m, lo, hi) && lo <= hi
    requires forall i :: lo <= i < hi ==> Covered(m, i)
    ensures TotalLength(m) == hi - lo
    decreases |m|
  {
    if lo == hi {
      TotalBound(m, lo, hi);
    } else {
      assert Covered(m, lo);
      var at :| CoveredBy(m, lo, at);
      var o: nat := FirstOffset(m);
      DropFirst(m, lo, hi);
      assert o == lo by { assert m[o] != [] && o <= at; }
      var next := o + |m[o]|;
      forall i | next <= i < hi ensures Covered(m - {o}, i) {
        CoveredBehind(m, o, i);
      }
      CoverIsFull(m - {o}, next, hi);
    }
  }

  lemma CoveredBehind(m: Fragments, o: nat, i: nat)
    requires o in m && o + |m[o]| <= i && Covered(m, i)
    ensures Covered(m - {o}, i)
  {
    var p :| CoveredBy(m, i, p);
    assert CoveredBy(m - {o}, i, p);
  }

  // ----- assembling in offset order

  datatype Assembly = Gap | Frame(bytes: seq<byte>)

  /** The payloads in offset order, each starting where the one before it ended. */
  function Assemble(m: Fragments, cursor: nat): Assembly
    decreases |m|
  {
    if m == map[] then Frame([])
    else
      var position: nat := FirstOffset(m);
      if position != cursor then Gap
      else
        match Assemble(m - {position}, cursor + |m[position]|)
        case Gap => Gap
        case Frame(bytes) => Frame(m[position] + bytes)
  }

  /** Byte `i` of the frame, which starts at `cursor`, is what some fragment carries for that position. */
  ghost predicate Carried(m: Fragments, cursor: nat, bytes: seq<byte>, i: nat) {
    cursor <= i < cursor + |bytes| && exists o :: CoveredBy(m, i, o) && m[o][i - o] == bytes[i - cursor]
  }

  ghost predicate Assembled(m: Fragments, cursor: nat, end: nat, result: Assembly) {
    && result.Frame? && cursor + |result.bytes| == end
    && forall i :: cursor <= i < end ==> Carried(m, cursor, result.bytes, i)
  }

  /** Taken in offset order, each fragment starts where the one before it ended, up to `end`. */
  ghost predicate InOrder(m: Fragments, cursor: nat, end: nat)
    decreases |m|
  {
    if m == map[] then cursor == end
    else
      var o: nat := FirstOffset(m);
      o == cursor && InOrder(m - {o}, o + |m[o]|, end)
  }

  /** Disjoint fragments whose lengths add up leave no gap. */
  lemma {:induction false} NoGap(m: Fragments, cursor: nat, end: nat)
    requires cursor <= end && Within(m, cursor, end) && TotalLength(m) == end - cursor
    ensures InOrder(m, cursor, end)
    decreases |m|
  {
    if m == map[] {
    } else {
      var o: nat := FirstOffset(m);
      DropFirst(m, cursor, end);
      TotalBound(m - {o}, o + |m[o]|, end);
      NoGap(m - {o}, o + |m[o]|, end);
    }
  }

  lemma {:induction false} AssembleInOrder(m: Fragments, cursor: nat, end: nat)
    requires InOrder(m, cursor, end)
    ensures Assembled(m, cursor, end, Assemble(m, cursor))
    decreases |m|
  {
    if m == map[] {
    } else {
      AssembleInOrder(m - {cursor}, cursor + |m[cursor]|, end);
      AssembledStep(m, cursor, end, Assemble(m - {cursor}, cursor + |m[cursor]|));
    }
  }

  lemma AssembledStep(m: Fragments, o: nat, end: nat, rest: Assembly)
    requires o in m && Assembled(m - {o}, o + |m[o]|, end, rest)
    ensures Assembled(m, o, end, Frame(m[o] + rest.bytes))
  {
    forall i | o <= i < end ensures Carried(m, o, m[o] + rest.bytes, i) {
      if i < o + |m[o]| {
        assert CoveredBy(m, i, o);
      } else {
        assert Carried(m - {o}, o + |m[o]|, rest.bytes, i);
        var p :| CoveredBy(m - {o}, i, p) && (m - {o})[p][i - p] == rest.bytes[i - (o + |m[o]|)];
        assert CoveredBy(m, i, p);
      }
    }
  }
}
