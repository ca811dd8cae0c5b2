/**
  Which byte strings the probe's splitter refuses and why, and what it returns for the others,
  told from where the three bytes 00 00 01 occur.
 */
module StartCodes {
  import opened Bytes
  import opened AnnexB

  predicate AllCodes(s: seq<byte>, codes: seq<nat>) {
    forall k :: 0 <= k < |codes| ==> ThreeAt(s, codes[k])
  }

  /** The positions of 00 00 01 at or after `from`, ascending. */
  function Codes(s: seq<byte>, from: nat): (codes: seq<nat>)
    ensures AllCodes(s, codes) && forall c <- codes :: from <= c
    decreases |s| - from
  {
    if from + 3 > |s| then [] else (if ThreeAt(s, from) then [from] else []) + Codes(s, from + 1)
  }

  /** Where the unit before the code at `c` ends: a zero before the code belongs to the code. */
  function EndBefore(s: seq<byte>, c: nat): nat
    requires c <= |s|
  {
    if c > 0 && s[c - 1] == 0 then c - 1 else c
  }

  function UnitEnd(s: seq<byte>, codes: seq<nat>, k: nat): nat
    requires k < |codes| && AllCodes(s, codes)
  {
    if k + 1 < |codes| then EndBefore(s, codes[k + 1]) else |s|
  }

  /** Unit `k` is what lies between code `k` and the next one. */
  predicate IsUnit(s: seq<byte>, codes: seq<nat>, k: nat, unit: seq<byte>)
    requires k < |codes| && AllCodes(s, codes)
  {
    var begin, end := codes[k] + 3, UnitEnd(s, codes, k);
    begin <= end <= |s| && unit == s[begin..end]
  }

  predicate AreUnits(s: seq<byte>, codes: seq<nat>, units: seq<seq<byte>>)
    requires AllCodes(s, codes)
  {
    |units| == |codes| && forall k :: 0 <= k < |codes| ==> IsUnit(s, codes, k, units[k])
  }

  lemma {:induction false} CodesMove(s: seq<byte>, from: nat, end: nat)
    requires from <= end && forall i :: from <= i < end ==> !ThreeAt(s, i)
    ensures Codes(s, from) == Codes(s, end)
    decreases end
  {
    if from >= end {
    } else {
      CodesMove(s, from, end - 1);
    }
  }

  /** No code overlaps another. */
  lemma CodesBehind(s: seq<byte>, c: nat)
    requires ThreeAt(s, c)
    ensures Codes(s, c) == [c] + Codes(s, c + 3)
  {
    assert !ThreeAt(s, c + 1) && !ThreeAt(s, c + 2);
    CodesMove(s, c + 1, c + 3);
  }

  /** The splitter's next code is the next occurrence, with a zero before it if there is one. */
  predicate NextTells(s: seq<byte>, cursor: nat)
    requires cursor <= |s|
  {
    var codes, next := Codes(s, cursor), NextCode(s, cursor);
    if codes == [] then next == |s|
    else
      var c := codes[0];
      && codes == [c] + Codes(s, c + 3) && next == (if c > cursor then EndBefore(s, c) else c)
      && next + CodeAt(s, next) == c + 3
  }

  lemma ThreeTells(s: seq<byte>, cursor: nat)
    requires ThreeAt(s, cursor)
    ensures NextTells(s, cursor)
  {
    hide NextCode, Codes;
    NextCodeHere(s, cursor);
    CodesBehind(s, cursor);
  }

  lemma FourTells(s: seq<byte>, cursor: nat)
    requires FourAt(s, cursor)
    ensures NextTells(s, cursor)
  {
    hide NextCode, Codes;
    NextCodeHere(s, cursor);
    CodesBehind(s, cursor + 1);
    CodesMove(s, cursor, cursor + 1);
  }

  lemma NoneTells(s: seq<byte>, cursor: nat)
    requires cursor < |s| && CodeAt(s, cursor) == 0 && NextTells(s, cursor + 1)
    ensures NextTells(s, cursor)
  {
    hide NextCode, Codes;
    NextCodeHere(s, cursor);
    CodesMove(s, cursor, cursor + 1);
  }

  lemma {:induction false} NextIs(s: seq<byte>, cursor: nat)
    requires cursor <= |s|
    ensures NextTells(s, cursor)
    decreases |s| - cursor
  {
    hide NextTells;
    if cursor >= |s| {
      NothingTells(s);
    } else if ThreeAt(s, cursor) {
      ThreeTells(s, cursor);
    } else if FourAt(s, cursor) {
      FourTells(s, cursor);
    } else {
      NextIs(s, cursor + 1);
      NoneTells(s, cursor);
    }
  }

  lemma NothingTells(s: seq<byte>)
    ensures NextTells(s, |s|)
  {
  }

  /** Behind the first code, or from the beginning, the splitter's units are those between the codes. */
  lemma {:induction false} UnitsAre(s: seq<byte>, cursor: nat)
    requires cursor <= |s|
    ensures AreUnits(s, Codes(s, cursor), Units(s, NextCode(s, cursor)))
    decreases |s| - cursor
  {
    hide CodeAt, NextCode, Codes, ThreeAt;
    NextIs(s, cursor);
    var codes, next := Codes(s, cursor), NextCode(s, cursor);
    if codes == [] {
    } else {
      var begin := codes[0] + 3;
      var rest, end := Codes(s, begin), NextCode(s, begin);
      CodeFits(s, codes[0]);
      UnitsAre(s, begin);
      NextIs(s, begin);
      UnitsFrom(s, next);
      FirstUnit(s, codes[0]);
      MoreUnits(s, codes, Units(s, next));
    }
  }

  lemma CodeFits(s: seq<byte>, c: nat)
    requires ThreeAt(s, c)
    ensures c + 3 <= |s| && s[c + 2] == 1
  {
  }

  lemma UnitsFrom(s: seq<byte>, at: nat)
    requires at < |s| && CodeAt(s, at) > 0
    ensures var begin := at + CodeAt(s, at);
            Units(s, at) == [s[begin..NextCode(s, begin)]] + Units(s, NextCode(s, begin))
  {
  }

  lemma FirstUnit(s: seq<byte>, c: nat)
    requires ThreeAt(s, c)
    ensures c + 3 <= |s| && NextCode(s, c + 3) ==
            if Codes(s, c + 3) == [] then |s| else EndBefore(s, Codes(s, c + 3)[0])
  {
    hide NextCode, CodeAt, Codes;
    NextIs(s, c + 3);
  }

  lemma MoreUnits(s: seq<byte>, codes: seq<nat>, units: seq<seq<byte>>)
    requires codes != [] && units != [] && AllCodes(s, codes)
    requires IsUnit(s, codes, 0, units[0]) && AreUnits(s, codes[1..], units[1..])
    ensures AreUnits(s, codes, units)
  {
    forall k | 0 <= k < |codes| ensures IsUnit(s, codes, k, units[k]) {
      if k > 0 {
        assert IsUnit(s, codes[1..], k - 1, units[1..][k - 1]);
      }
    }
  }

  /** Some byte before the first code is not zero. */
  predicate Garbage(s: seq<byte>, codes: seq<nat>)
    requires AllCodes(s, codes)
  {
    codes != [] && exists i :: 0 <= i < codes[0] && s[i] != 0
  }

  /** Some code is followed at once by the next one or by the end. */
  predicate Bare(s: seq<byte>, codes: seq<nat>)
    requires AllCodes(s, codes)
  {
    exists k :: 0 <= k < |codes| && UnitEnd(s, codes, k) == codes[k] + 3
  }

  lemma GarbageExactly(s: seq<byte>)
    ensures var first := NextCode(s, 0);
            Garbage(s, Codes(s, 0)) <==> first < |s| && exists b <- s[..first] :: b != 0
  {
    hide NextCode, CodeAt, Codes, ThreeAt;
    NextIs(s, 0);
    var codes, first := Codes(s, 0), NextCode(s, 0);
    if codes == [] {
    } else {
      CodeFits(s, codes[0]);
      if i :| 0 <= i < codes[0] && s[i] != 0 {
        assert s[..first][i] == s[i];
        assert s[i] in s[..first];
      }
      if b :| b in s[..first] && b != 0 {
        var i :| 0 <= i < first && s[..first][i] == b;
        assert s[i] == b;
      }
    }
  }

  lemma BareExactly(s: seq<byte>, codes: seq<nat>, units: seq<seq<byte>>)
    requires AllCodes(s, codes) && AreUnits(s, codes, units)
    ensures Bare(s, codes) <==> [] in units
  {
    hide UnitEnd, ThreeAt;
    if k :| 0 <= k < |codes| && UnitEnd(s, codes, k) == codes[k] + 3 {
      assert IsUnit(s, codes, k, units[k]);
      assert units[k] == [];
    }
    if [] in units {
      var k :| 0 <= k < |units| && units[k] == [];
      assert IsUnit(s, codes, k, units[k]);
    }
  }

  /**
    For every byte string: with more than 2048 codes there are too many units; else, with a
    nonzero byte before the first code, there is leading garbage; else, with a code that
    nothing follows, a unit is empty; else the units are what lies between the codes.
   */
  lemma SplitsExactly(s: seq<byte>)
    ensures var codes := Codes(s, 0);
            && (Split(s) == Err(TooManyUnits) <==> |codes| > MAX_UNITS)
            && (Split(s) == Err(LeadingGarbage) <==> |codes| <= MAX_UNITS && Garbage(s, codes))
            && (Split(s) == Err(EmptyUnit) <==> |codes| <= MAX_UNITS && !Garbage(s, codes) && Bare(s, codes))
            && (Split(s).Ok? ==> AreUnits(s, codes, Split(s).value))
  {
    hide NextCode, CodeAt, Codes, Units, Bare, Garbage;
    var codes := Codes(s, 0);
    UnitsAre(s, 0);
    GarbageExactly(s);
    BareExactly(s, codes, Units(s, NextCode(s, 0)));
  }
}
