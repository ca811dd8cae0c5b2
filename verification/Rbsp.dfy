/**
  Emulation prevention of H.264: the escaping of section 7.3.1 of ITU-T H.264, and the
  unescaping the probe does, which keeps counting zeros across an emulation-prevention byte.
 */
module Rbsp {
  import opened Bytes

  const MAX_RBSP := 4 * 1024 * 1024

  datatype RbspError = ExceedsBound | OmitsEscape | MalformedEscape

  function TrailingZeros(s: seq<byte>): (n: nat)
    ensures n <= |s|
  {
    if s == [] || s[|s| - 1] != 0 then 0 else 1 + TrailingZeros(s[..|s| - 1])
  }

  /** What `unescape_rbsp` does from `cursor` on, with `out` already produced. */
  function UnescapeFrom(e: seq<byte>, cursor: nat, out: seq<byte>): Result<seq<byte>, RbspError>
    decreases |e| - cursor
  {
    if cursor >= |e| then Ok(out)
    else if TrailingZeros(out) >= 2 && e[cursor] <= 3 then
      if e[cursor] != 3 then Err(OmitsEscape)
      else if cursor + 1 >= |e| || e[cursor + 1] > 3 then Err(MalformedEscape)
      else Push(e, cursor + 1, out)
    else Push(e, cursor, out)
  }

  function Push(e: seq<byte>, cursor: nat, out: seq<byte>): Result<seq<byte>, RbspError>
    requires cursor < |e|
    decreases |e| - cursor, 0
  {
    if |out| == MAX_RBSP then Err(ExceedsBound) else UnescapeFrom(e, cursor + 1, out + [e[cursor]])
  }

  function Unescape(e: seq<byte>): Result<seq<byte>, RbspError> {
    if |e| > MAX_RBSP + MAX_RBSP / 2 then Err(ExceedsBound) else UnescapeFrom(e, 0, [])
  }

  // ----- the exact inverse

  function Zeros(before: nat, b: byte): nat {
    if b == 0 then before + 1 else 0
  }

  /** A 03 before every byte at most 3 that follows two or more zeros of the RBSP. */
  function EscapeFrom(zeros: nat, r: seq<byte>): (e: seq<byte>)
    ensures |e| >= |r| && (r != [] ==> e[|e| - 1] == r[|r| - 1])
    decreases |r|
  {
    if r == [] then []
    else (if zeros >= 2 && r[0] <= 3 then [3, r[0]] else [r[0]]) + EscapeFrom(Zeros(zeros, r[0]), r[1..])
  }

  function Escape(r: seq<byte>): seq<byte> {
    EscapeFrom(0, r)
  }

  lemma ZerosAfter(out: seq<byte>, b: byte)
    ensures TrailingZeros(out + [b]) == Zeros(TrailingZeros(out), b)
  {
    assert (out + [b])[..|out|] == out;
  }

  /** One byte of the RBSP, with the 03 before it if there is one. */
  lemma UnescapesByte(e: seq<byte>, cursor: nat, out: seq<byte>, r: seq<byte>)
    requires cursor <= |e| && r != [] && e[cursor..] == EscapeFrom(TrailingZeros(out), r) && |out| < MAX_RBSP
    ensures var next := cursor + (if TrailingZeros(out) >= 2 && r[0] <= 3 then 2 else 1);
            && next <= |e| && e[next..] == EscapeFrom(Zeros(TrailingZeros(out), r[0]), r[1..])
            && UnescapeFrom(e, cursor, out) == UnescapeFrom(e, next, out + [r[0]])
  {
    hide TrailingZeros;
    var rest := e[cursor..];
    var step := if TrailingZeros(out) >= 2 && r[0] <= 3 then 2 else 1;
    assert e[cursor] == rest[0];
    if step == 2 {
      assert e[cursor + 1] == rest[1];
    }
    assert e[cursor + step..] == rest[step..];
  }

  lemma {:induction false} UnescapesEscape(e: seq<byte>, cursor: nat, out: seq<byte>, r: seq<byte>)
    requires cursor <= |e| && e[cursor..] == EscapeFrom(TrailingZeros(out), r) && |out| + |r| <= MAX_RBSP
    ensures UnescapeFrom(e, cursor, out) == Ok(out + r)
    decreases |r|
  {
    if r == [] {
      assert out + r == out;
    } else {
      hide TrailingZeros, UnescapeFrom, EscapeFrom;
      UnescapesByte(e, cursor, out, r);
      ZerosAfter(out, r[0]);
      var next := cursor + (if TrailingZeros(out) >= 2 && r[0] <= 3 then 2 else 1);
      UnescapesEscape(e, next, out + [r[0]], r[1..]);
      assert out + r == out + [r[0]] + r[1..];
    }
  }

  /** An accepted byte, with the 03 before it if one was needed. */
  lemma AcceptsByte(e: seq<byte>, cursor: nat, out: seq<byte>) returns (next: nat, b: byte)
    requires cursor < |e| && |out| <= MAX_RBSP && UnescapeFrom(e, cursor, out).Ok?
    ensures cursor < next <= |e| && |out| < MAX_RBSP
    ensures e[cursor..next] == if TrailingZeros(out) >= 2 && b <= 3 then [3, b] else [b]
    ensures UnescapeFrom(e, cursor, out) == UnescapeFrom(e, next, out + [b])
  {
    hide TrailingZeros;
    next := cursor + (if TrailingZeros(out) >= 2 && e[cursor] <= 3 then 2 else 1);
    b := e[next - 1];
  }

  lemma EscapeJoins(e: seq<byte>, cursor: nat, next: nat, zeros: nat, b: byte, tail: seq<byte>)
    requires cursor <= next <= |e| && e[cursor..next] == if zeros >= 2 && b <= 3 then [3, b] else [b]
    requires e[next..] == EscapeFrom(Zeros(zeros, b), tail)
    ensures e[cursor..] == EscapeFrom(zeros, [b] + tail)
  {
    assert ([b] + tail)[1..] == tail;
    assert e[cursor..] == e[cursor..next] + e[next..];
  }

  lemma {:induction false} AcceptsOnlyEscapes(e: seq<byte>, cursor: nat, out: seq<byte>)
    requires cursor <= |e| && |out| <= MAX_RBSP && UnescapeFrom(e, cursor, out).Ok?
    ensures var r := UnescapeFrom(e, cursor, out).value;
            out <= r && |r| <= MAX_RBSP && e[cursor..] == EscapeFrom(TrailingZeros(out), r[|out|..])
    decreases |e| - cursor
  {
    if cursor >= |e| {
    } else {
      hide TrailingZeros, EscapeFrom, UnescapeFrom;
      var next, b := AcceptsByte(e, cursor, out);
      AcceptsOnlyEscapes(e, next, out + [b]);
      ZerosAfter(out, b);
      var r := UnescapeFrom(e, cursor, out).value;
      assert r[|out|..] == [b] + r[|out| + 1..];
      EscapeJoins(e, cursor, next, TrailingZeros(out), b, r[|out| + 1..]);
    }
  }

  /**
    `Unescape` accepts exactly the escaped forms within its bounds, and undoes them: it is a
    bijection from what it accepts to RBSPs, with `Escape` as its inverse.
   */
  lemma UnescapeExactly(e: seq<byte>, r: seq<byte>)
    ensures Unescape(e) == Ok(r) <==>
            |e| <= MAX_RBSP + MAX_RBSP / 2 && |r| <= MAX_RBSP && e == Escape(r)
  {
    if |e| <= MAX_RBSP + MAX_RBSP / 2 {
      assert e[0..] == e;
      if Unescape(e) == Ok(r) {
        AcceptsOnlyEscapes(e, 0, []);
        assert r[0..] == r;
      }
      if |r| <= MAX_RBSP && e == Escape(r) {
        UnescapesEscape(e, 0, [], r);
        assert [] + r == r;
      }
    }
  }

  /** Where a string is refused: behind the escaping of what was read, with one of three faults. */
  predicate RefusedBehind(e: seq<byte>, r: seq<byte>, error: RbspError) {
    var at, zeros := |Escape(r)|, TrailingZeros(r);
    && Escape(r) <= e && at < |e| && |r| <= MAX_RBSP
    && match error
       case OmitsEscape => zeros >= 2 && e[at] < 3
       case MalformedEscape => zeros >= 2 && e[at] == 3 && (at + 1 == |e| || e[at + 1] > 3)
       case ExceedsBound => |r| == MAX_RBSP
  }

  lemma {:induction false} EscapeAppend(before: seq<byte>, r: seq<byte>, b: byte)
    ensures EscapeFrom(TrailingZeros(before), r + [b]) == EscapeFrom(TrailingZeros(before), r) +
            if TrailingZeros(before + r) >= 2 && b <= 3 then [3, b] else [b]
    decreases |r|
  {
    hide TrailingZeros, EscapeFrom;
    var all, zeros := r + [b], TrailingZeros(before);
    EscapeStep(zeros, all);
    if r == [] {
      assert all[1..] == [] && before + r == before;
      EscapeEnd(zeros);
      EscapeEnd(Zeros(zeros, b));
    } else {
      var more := before + [r[0]];
      EscapeAppend(more, r[1..], b);
      EscapeStep(zeros, r);
      ZerosAfter(before, r[0]);
      assert all[1..] == r[1..] + [b];
      assert more + r[1..] == before + r;
    }
  }

  lemma {:induction false} RefusesFrom(e: seq<byte>, cursor: nat, out: seq<byte>) returns (r: seq<byte>)
    requires cursor <= |e| && |out| <= MAX_RBSP && Escape(out) == e[..cursor] && UnescapeFrom(e, cursor, out).Err?
    ensures RefusedBehind(e, r, UnescapeFrom(e, cursor, out).error)
    decreases |e| - cursor
  {
    hide TrailingZeros, EscapeFrom;
    var next := cursor + (if TrailingZeros(out) >= 2 && e[cursor] <= 3 then 2 else 1);
    if |out| == MAX_RBSP || next > |e| || (next == cursor + 2 && (e[cursor] != 3 || e[cursor + 1] > 3)) {
      r := out;
    } else {
      EscapeAppend([], out, e[next - 1]);
      assert TrailingZeros([]) == 0 by { NoTrailingZeros(); }
      assert [] + out == out;
      assert e[..next] == e[..cursor] + e[cursor..next];
      r := RefusesFrom(e, next, out + [e[next - 1]]);
    }
  }

  lemma NoTrailingZeros()
    ensures TrailingZeros([]) == 0
  {
  }

  /** What is refused although it is short enough has one of the three faults, behind what was read. */
  lemma {:induction false} UnescapeRefuses(e: seq<byte>) returns (r: seq<byte>)
    requires |e| <= MAX_RBSP + MAX_RBSP / 2 && Unescape(e).Err?
    ensures RefusedBehind(e, r, Unescape(e).error)
  {
    hide UnescapeFrom, RefusedBehind;
    EscapesNothing();
    assert e[..0] == [];
    r := RefusesFrom(e, 0, []);
  }

  lemma EscapesNothing()
    ensures Escape([]) == []
  {
  }

  // ----- against the standard

  /** Section 7.3.1: an inserted 03 starts the count of zeros afresh. */
  function StandardFrom(zeros: nat, r: seq<byte>): seq<byte>
    decreases |r|
  {
    if r == [] then []
    else if zeros >= 2 && r[0] <= 3 then [3, r[0]] + StandardFrom(Zeros(0, r[0]), r[1..])
    else [r[0]] + StandardFrom(Zeros(zeros, r[0]), r[1..])
  }

  /** An RBSP that ends in a zero byte gets a final 03 (section 7.4.1.1). */
  function StandardNal(r: seq<byte>): seq<byte> {
    StandardFrom(0, r) + (if r != [] && r[|r| - 1] == 0 then [3] else [])
  }

  /** Three zeros, then a byte at most 3. */
  predicate LongZeroRun(r: seq<byte>) {
    exists i :: 0 <= i < |r| - 3 && RunAt(r, i)
  }

  predicate RunAt(r: seq<byte>, i: nat)
    requires i + 3 < |r|
  {
    r[i] == 0 && r[i + 1] == 0 && r[i + 2] == 0 && r[i + 3] <= 3
  }

  /** With `zeros` zeros before it, `r` continues no run of three with a byte at most 3. */
  predicate ShortRuns(zeros: nat, r: seq<byte>)
    decreases |r|
  {
    r == [] || (!(zeros >= 3 && r[0] <= 3) && ShortRuns(Zeros(zeros, r[0]), r[1..]))
  }

  /** The two counts of zeros while the escapings agree. */
  predicate InStep(ours: nat, standard: nat) {
    (ours <= 2 && standard == ours) || (ours == 3 && standard == 1)
  }

  lemma {:induction false} AgreeOnShortRuns(ours: nat, standard: nat, r: seq<byte>)
    requires InStep(ours, standard)
    ensures ShortRuns(ours, r) ==> EscapeFrom(ours, r) == StandardFrom(standard, r)
    ensures !ShortRuns(ours, r) ==> |EscapeFrom(ours, r)| > |StandardFrom(standard, r)|
    decreases |r|
  {
    if r == [] {
    } else {
      if ours >= 3 && r[0] <= 3 {
        NoShorter(Zeros(ours, r[0]), Zeros(standard, r[0]), r[1..]);
      } else {
        var inserts := standard >= 2 && r[0] <= 3;
        AgreeOnShortRuns(Zeros(ours, r[0]), if inserts then Zeros(0, r[0]) else Zeros(standard, r[0]), r[1..]);
      }
    }
  }

  lemma {:induction false} NoShorter(ours: nat, standard: nat, r: seq<byte>)
    requires ours >= standard
    ensures |EscapeFrom(ours, r)| >= |StandardFrom(standard, r)|
    decreases |r|
  {
    if r == [] {
    } else {
      var inserts := standard >= 2 && r[0] <= 3;
      NoShorter(Zeros(ours, r[0]), if inserts then Zeros(0, r[0]) else Zeros(standard, r[0]), r[1..]);
    }
  }

  /** `ShortRuns`, read off the bytes. */
  lemma {:induction false} ShortRunsExactly(done: seq<byte>, r: seq<byte>)
    ensures ShortRuns(TrailingZeros(done), r) <==>
            forall i :: |done| - 3 <= i < |done + r| - 3 && 0 <= i ==> !RunAt(done + r, i)
    decreases |r|
  {
    var s := done + r;
    if r == [] {
    } else {
      ZerosAfter(done, r[0]);
      assert done + [r[0]] + r[1..] == s;
      ShortRunsExactly(done + [r[0]], r[1..]);
      if |done| >= 3 {
        ThreeZeros(done);
        var i := |done| - 3;
        assert RunAt(s, i) <==> TrailingZeros(done) >= 3 && r[0] <= 3;
      }
    }
  }

  lemma ThreeZeros(s: seq<byte>)
    requires |s| >= 3
    ensures TrailingZeros(s) >= 3 <==> s[|s| - 3] == 0 && s[|s| - 2] == 0 && s[|s| - 1] == 0
  {
    var t := s[..|s| - 1];
    var u := t[..|t| - 1];
    assert TrailingZeros(s) >= 3 <==> s[|s| - 1] == 0 && TrailingZeros(t) >= 2;
    assert TrailingZeros(t) >= 2 <==> t[|t| - 1] == 0 && TrailingZeros(u) >= 1;
  }

  /** The two escapings give the same bytes exactly when no three zeros precede a byte at most 3. */
  lemma EscapingsAgreeExactly(r: seq<byte>)
    ensures Escape(r) == StandardFrom(0, r) <==> !LongZeroRun(r)
  {
    ShortRunsExactly([], r);
    assert [] + r == r;
    AgreeOnShortRuns(0, 0, r);
  }

  /**
    A NAL unit escaped as the standard says reads back, within the bounds, exactly when its
    RBSP has no three zeros before a byte at most 3 and does not end in a zero byte.
   */
  lemma ReadsStandardExactly(r: seq<byte>)
    requires |StandardNal(r)| <= MAX_RBSP + MAX_RBSP / 2 && |r| <= MAX_RBSP
    ensures Unescape(StandardNal(r)) == Ok(r) <==> !LongZeroRun(r) && (r == [] || r[|r| - 1] != 0)
  {
    hide Unescape, LongZeroRun;
    UnescapeExactly(StandardNal(r), r);
    EscapingsAgreeExactly(r);
    if r != [] && r[|r| - 1] == 0 {
      assert StandardNal(r)[|StandardNal(r)| - 1] == 3;
      assert Escape(r)[|Escape(r)| - 1] == 0;
    } else {
      assert StandardNal(r) == StandardFrom(0, r);
    }
  }

  /** A standard NAL unit that is refused: three zeros and a one, escaped as 00 00 03 00 01. */
  lemma StandardRefused()
    ensures StandardNal([0, 0, 0, 1]) == [0, 0, 3, 0, 1]
    ensures Unescape([0, 0, 3, 0, 1]) == Err(OmitsEscape)
  {
    var r: seq<byte> := [0, 0, 0, 1];
    assert r[1..] == [0, 0, 1] && r[1..][1..] == [0, 1] && r[1..][1..][1..] == [1] && r[1..][1..][1..][1..] == [];
    var e: seq<byte> := [0, 0, 3, 0, 1];
    assert TrailingZeros([0]) == 1;
    assert [0, 0][..1] == [0] && TrailingZeros([0, 0]) == 2;
    assert [0, 0, 0][..2] == [0, 0] && TrailingZeros([0, 0, 0]) == 3;
    assert UnescapeFrom(e, 4, [0, 0, 0]) == Err(OmitsEscape);
    assert UnescapeFrom(e, 2, [0, 0]) == Err(OmitsEscape);
    assert UnescapeFrom(e, 1, [0]) == Err(OmitsEscape);
  }

  /** A standard NAL unit that is misread: the last 03 of 00 00 03 00 03 01 belongs to the payload. */
  lemma StandardMisread()
    ensures StandardNal([0, 0, 0, 3, 1]) == [0, 0, 3, 0, 3, 1]
    ensures Unescape([0, 0, 3, 0, 3, 1]) == Ok([0, 0, 0, 1])
  {
    var r: seq<byte> := [0, 0, 0, 3, 1];
    assert r[1..] == [0, 0, 3, 1] && r[1..][1..] == [0, 3, 1] && r[1..][1..][1..] == [3, 1];
    assert [3, 1][1..] == [1] && [1][1..] == [];
    assert StandardFrom(1, [3, 1]) == [3, 1];
    assert StandardFrom(2, [0, 3, 1]) == [3, 0, 3, 1];
    assert StandardFrom(0, r) == [0, 0, 3, 0, 3, 1];
    EscapedThreeZeros();
    UnescapeExactly([0, 0, 3, 0, 3, 1], [0, 0, 0, 1]);
  }

  lemma EscapedThreeZeros()
    ensures Escape([0, 0, 0, 1]) == [0, 0, 3, 0, 3, 1]
  {
    hide EscapeFrom;
    var a: seq<byte>, b: seq<byte>, c: seq<byte>, d: seq<byte> := [1], [0, 1], [0, 0, 1], [0, 0, 0, 1];
    assert EscapeFrom(3, a) == [3, 1] by { EscapeStep(3, a); EscapeEnd(0); assert a[1..] == []; }
    assert EscapeFrom(2, b) == [3, 0, 3, 1] by { EscapeStep(2, b); assert b[1..] == a; }
    assert EscapeFrom(1, c) == [0, 3, 0, 3, 1] by { EscapeStep(1, c); assert c[1..] == b; }
    assert EscapeFrom(0, d) == [0, 0, 3, 0, 3, 1] by { EscapeStep(0, d); assert d[1..] == c; }
  }

  lemma EscapeStep(zeros: nat, r: seq<byte>)
    requires r != []
    ensures EscapeFrom(zeros, r) ==
            (if zeros >= 2 && r[0] <= 3 then [3, r[0]] else [r[0]]) + EscapeFrom(Zeros(zeros, r[0]), r[1..])
  {
  }

  lemma EscapeEnd(zeros: nat)
    ensures EscapeFrom(zeros, []) == []
  {
  }

  /**
    What a standard payload may hold for its NAL unit to be accepted, with `ours` zeros in the
    output and `standard` by the standard's count: where the counts part, a byte at most 3 must
    be a 3, and then the next one must be at most 3 as well; and a payload must not end there.
   */
  predicate ReadsOn(ours: nat, standard: nat, r: seq<byte>)
    decreases |r|
  {
    if r == [] then standard == 0 || ours < 2
    else if standard >= 2 && r[0] <= 3 then ReadsOn(Zeros(ours, r[0]), Zeros(0, r[0]), r[1..])
    else if ours >= 2 && r[0] <= 3 then
      r[0] == 3 && |r| >= 2 && r[1] <= 3 && ReadsOn(Zeros(ours, r[1]), Zeros(0, r[1]), r[2..])
    else ReadsOn(Zeros(ours, r[0]), Zeros(standard, r[0]), r[1..])
  }

  /** The final 03, if the payload ends in a zero byte. */
  function FinalByte(standard: nat, r: seq<byte>): seq<byte> {
    if (if r == [] then standard > 0 else r[|r| - 1] == 0) then [3] else []
  }

  function StandardRest(standard: nat, r: seq<byte>): seq<byte> {
    StandardFrom(standard, r) + FinalByte(standard, r)
  }

  lemma StandardStep(standard: nat, r: seq<byte>)
    requires r != []
    ensures StandardRest(standard, r) ==
            if standard >= 2 && r[0] <= 3 then [3, r[0]] + StandardRest(Zeros(0, r[0]), r[1..])
            else [r[0]] + StandardRest(Zeros(standard, r[0]), r[1..])
  {
  }

  lemma TakesByte(e: seq<byte>, cursor: nat, out: seq<byte>)
    requires cursor < |e| && |out| < MAX_RBSP && !(TrailingZeros(out) >= 2 && e[cursor] <= 3)
    ensures UnescapeFrom(e, cursor, out) == UnescapeFrom(e, cursor + 1, out + [e[cursor]])
  {
    hide TrailingZeros;
  }

  lemma TakesEscape(e: seq<byte>, cursor: nat, out: seq<byte>)
    requires cursor < |e| && |out| < MAX_RBSP && TrailingZeros(out) >= 2 && e[cursor] <= 3
    ensures if e[cursor] == 3 && cursor + 1 < |e| && e[cursor + 1] <= 3
            then UnescapeFrom(e, cursor, out) == UnescapeFrom(e, cursor + 2, out + [e[cursor + 1]])
            else UnescapeFrom(e, cursor, out).Err?
  {
    hide TrailingZeros;
  }

  lemma {:induction false} AcceptsStandardFrom(e: seq<byte>, cursor: nat, out: seq<byte>, standard: nat, r: seq<byte>)
    requires cursor <= |e| && e[cursor..] == StandardRest(standard, r)
    requires TrailingZeros(out) >= standard && |out| + |r| < MAX_RBSP
    ensures UnescapeFrom(e, cursor, out).Ok? <==> ReadsOn(TrailingZeros(out), standard, r)
    decreases |r|
  {
    hide StandardRest, TrailingZeros, UnescapeFrom;
    var ours := TrailingZeros(out);
    if r == [] {
      AcceptsEnd(e, cursor, out, standard);
    } else {
      var b := r[0];
      StandardStep(standard, r);
      ZerosAfter(out, b);
      if standard >= 2 && b <= 3 {
        assert e[cursor] == e[cursor..][0] && e[cursor + 1] == e[cursor..][1] && e[cursor + 2..] == e[cursor..][2..];
        TakesEscape(e, cursor, out);
        AcceptsStandardFrom(e, cursor + 2, out + [b], Zeros(0, b), r[1..]);
      } else {
        assert e[cursor] == e[cursor..][0] && e[cursor + 1..] == e[cursor..][1..];
        if ours >= 2 && b <= 3 {
          AcceptsMisread(e, cursor, out, standard, r);
        } else {
          TakesByte(e, cursor, out);
          AcceptsStandardFrom(e, cursor + 1, out + [b], Zeros(standard, b), r[1..]);
        }
      }
    }
  }

  lemma AcceptsEnd(e: seq<byte>, cursor: nat, out: seq<byte>, standard: nat)
    requires cursor <= |e| && e[cursor..] == StandardRest(standard, []) && |out| < MAX_RBSP
    ensures UnescapeFrom(e, cursor, out).Ok? <==> ReadsOn(TrailingZeros(out), standard, [])
  {
    hide TrailingZeros;
    if standard > 0 {
      assert e[cursor] == e[cursor..][0] == 3 && |e| == cursor + 1;
      if TrailingZeros(out) >= 2 {
        TakesEscape(e, cursor, out);
      } else {
        TakesByte(e, cursor, out);
      }
    }
  }

  /** Where the counts have parted. */
  lemma AcceptsMisread(e: seq<byte>, cursor: nat, out: seq<byte>, standard: nat, r: seq<byte>)
    requires r != [] && cursor < |e| && e[cursor] == r[0] <= 3 && |out| + |r| < MAX_RBSP
    requires TrailingZeros(out) >= 2 > standard && e[cursor + 1..] == StandardRest(Zeros(standard, r[0]), r[1..])
    ensures UnescapeFrom(e, cursor, out).Ok? <==> ReadsOn(TrailingZeros(out), standard, r)
    decreases |r|, 0
  {
    hide StandardRest, TrailingZeros, UnescapeFrom;
    TakesEscape(e, cursor, out);
    if r[0] == 3 {
      if |r| == 1 {
        NothingLeft();
        assert r[1..] == [];
        assert |e[cursor + 1..]| == 0;
      } else {
        StandardStep(0, r[1..]);
        assert e[cursor + 1] == e[cursor + 1..][0] && e[cursor + 2..] == e[cursor + 1..][1..];
        if r[1] <= 3 {
          ZerosAfter(out, r[1]);
          assert r[1..][1..] == r[2..];
          AcceptsStandardFrom(e, cursor + 2, out + [r[1]], Zeros(0, r[1]), r[2..]);
        }
      }
    }
  }

  lemma NothingLeft()
    ensures StandardRest(0, []) == []
  {
  }

  /** A standard NAL unit within the bounds is accepted, rightly or not, exactly if its payload reads on. */
  lemma AcceptsStandardExactly(r: seq<byte>)
    requires |StandardNal(r)| <= MAX_RBSP + MAX_RBSP / 2 && |r| < MAX_RBSP
    ensures Unescape(StandardNal(r)).Ok? <==> ReadsOn(0, 0, r)
  {
    hide UnescapeFrom;
    var e := StandardNal(r);
    assert e == StandardRest(0, r) && e[0..] == e;
    AcceptsStandardFrom(e, 0, [], 0, r);
  }

  // ----- the source's loop, with its 8-bit saturating counter

  method UnescapeRbsp(ebsp: seq<byte>) returns (r: Result<seq<byte>, RbspError>)
    ensures r == Unescape(ebsp)
  {
    if |ebsp| > MAX_RBSP + MAX_RBSP / 2 {
      return Err(ExceedsBound);
    }
    var rbsp: seq<byte> := [];
    var zeroCount: byte := 0;
    var afterEscape := false;
    for cursor := 0 to |ebsp|
      invariant zeroCount == if TrailingZeros(rbsp) <= 255 then TrailingZeros(rbsp) else 255
      invariant afterEscape ==> cursor < |ebsp|
      invariant UnescapeFrom(ebsp, 0, []) ==
                if afterEscape then Push(ebsp, cursor, rbsp) else UnescapeFrom(ebsp, cursor, rbsp)
    {
      var b := ebsp[cursor];
      if zeroCount >= 2 && b <= 3 && !afterEscape {
        if b != 3 {
          return Err(OmitsEscape);
        }
        if cursor + 1 >= |ebsp| || ebsp[cursor + 1] > 3 {
          return Err(MalformedEscape);
        }
        afterEscape := true;
        continue;
      }
      if |rbsp| == MAX_RBSP {
        return Err(ExceedsBound);
      }
      ZerosAfter(rbsp, b);
      rbsp := rbsp + [b];
      afterEscape := false;
      if b == 0 {
        if zeroCount != 255 {
          zeroCount := zeroCount + 1;
        }
      } else {
        zeroCount := 0;
      }
    }
    return Ok(rbsp);
  }
}
