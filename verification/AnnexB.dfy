/**
  H.264 access units as byte streams (Annex B of ITU-T H.264): the encoder's conversion from
  length-prefixed NAL units, and the probe's splitting at start codes.
 */
module AnnexB {
  import opened Bytes

  const MAX_UNITS := 2048
  const START: seq<byte> := [0, 0, 0, 1]

  datatype SplitError = TooManyUnits | LeadingGarbage | EmptyUnit

  // ----- streams

  /** Each unit behind a four-byte start code. */
  function Stream(units: seq<seq<byte>>): seq<byte> {
    if units == [] then [] else START + units[0] + Stream(units[1..])
  }

  /** Each unit behind its length as four big-endian bytes. */
  function Prefixed(units: seq<seq<byte>>): seq<byte> {
    if units == [] then [] else BigEndian(|units[0]|, 4) + units[0] + Prefixed(units[1..])
  }

  function TotalSize(units: seq<seq<byte>>): nat {
    if units == [] then 0 else |units[0]| + TotalSize(units[1..])
  }

  // ----- start codes

  predicate ThreeAt(s: seq<byte>, i: nat) {
    i + 3 <= |s| && s[i] == 0 && s[i + 1] == 0 && s[i + 2] == 1
  }

  predicate FourAt(s: seq<byte>, i: nat) {
    i + 4 <= |s| && s[i] == 0 && s[i + 1] == 0 && s[i + 2] == 0 && s[i + 3] == 1
  }

  /** The length of the start code at `i`, or zero. */
  function CodeAt(s: seq<byte>, i: nat): (n: nat)
    ensures n <= 4 && (n > 0 ==> 3 <= n && i + n <= |s|)
  {
    if FourAt(s, i) then 4 else if ThreeAt(s, i) then 3 else 0
  }

  ghost predicate Embeds(s: seq<byte>) {
    exists i :: ThreeAt(s, i)
  }

  /** The first start code at or after `cursor`, or the end. */
  function NextCode(s: seq<byte>, cursor: nat): (n: nat)
    requires cursor <= |s|
    ensures cursor <= n <= |s| && (n < |s| ==> CodeAt(s, n) > 0)
    decreases |s| - cursor
  {
    if cursor == |s| || CodeAt(s, cursor) > 0 then cursor else NextCode(s, cursor + 1)
  }

  /** The units from the start code at `at` on. */
  function Units(s: seq<byte>, at: nat): seq<seq<byte>>
    requires at <= |s| && (at < |s| ==> CodeAt(s, at) > 0)
    decreases |s| - at
  {
    if at == |s| then []
    else
      var begin := at + CodeAt(s, at);
      var end := NextCode(s, begin);
      [s[begin..end]] + Units(s, end)
  }

  function Split(s: seq<byte>): Result<seq<seq<byte>>, SplitError> {
    var first := NextCode(s, 0);
    var units := Units(s, first);
    if |units| > MAX_UNITS then Err(TooManyUnits)
    else if first < |s| && exists b <- s[..first] :: b != 0 then Err(LeadingGarbage)
    else if [] in units then Err(EmptyUnit)
    else Ok(units)
  }

  // ----- splitting finds the units of a stream

  predicate WellFormed(units: seq<seq<byte>>) {
    units == [] || (0 < |units[0]| < 0x1_0000_0000 && WellFormed(units[1..]))
  }

  ghost predicate Clean(units: seq<seq<byte>>) {
    units == [] || (!Embeds(units[0]) && Clean(units[1..]))
  }

  lemma {:induction false} NextCodeIs(s: seq<byte>, cursor: nat, n: nat)
    requires cursor <= n <= |s| && (n < |s| ==> CodeAt(s, n) > 0)
    requires forall i :: cursor <= i < n ==> CodeAt(s, i) == 0
    ensures NextCode(s, cursor) == n
    decreases n - cursor
  {
    if cursor >= n {
    } else {
      assert CodeAt(s, cursor) == 0;
      NextCodeIs(s, cursor + 1, n);
    }
  }

  lemma {:induction false} NextCodeSkips(s: seq<byte>, cursor: nat, i: nat)
    requires cursor <= |s| && cursor <= i < NextCode(s, cursor)
    ensures CodeAt(s, i) == 0
    decreases |s| - cursor
  {
    if cursor >= i {
    } else {
      NextCodeSkips(s, cursor + 1, i);
    }
  }

  /** Inside a unit that embeds no start code, and is followed by the end or by another, none begins. */
  lemma NoCodeInside(s: seq<byte>, begin: nat, end: nat, i: nat)
    requires begin <= i < end <= |s| && !Embeds(s[begin..end])
    requires end == |s| || START <= s[end..]
    ensures CodeAt(s, i) == 0
  {
    var u := s[begin..end];
    if end < |s| {
      assert s[end] == s[end..][0] && s[end + 1] == s[end..][1] && s[end + 2] == s[end..][2];
    }
    assert !ThreeAt(u, i - begin) && !ThreeAt(u, i + 1 - begin);
  }

  /** The parts of a stream's first unit, at any offset. */
  lemma StreamAt(s: seq<byte>, at: nat, units: seq<seq<byte>>)
    requires at <= |s| && units != [] && s[at..] == Stream(units)
    ensures var begin, end := at + 4, at + 4 + |units[0]|;
            end <= |s| && CodeAt(s, at) == 4 && s[begin..end] == units[0] && s[end..] == Stream(units[1..])
  {
    var u, tail := units[0], Stream(units[1..]);
    var rest := s[at..];
    assert rest == START + (u + tail);
    assert forall k :: 0 <= k < 4 ==> s[at + k] == rest[k] == START[k];
    assert s[at + 4..at + 4 + |u|] == rest[4..4 + |u|];
    assert s[at + 4 + |u|..] == rest[4 + |u|..];
  }

  lemma StreamEnds(s: seq<byte>, at: nat)
    requires at <= |s| && s[at..] == Stream([])
    ensures at == |s|
  {
  }

  lemma StreamStarts(s: seq<byte>, at: nat, units: seq<seq<byte>>)
    requires at <= |s| && s[at..] == Stream(units)
    ensures at == |s| || START <= s[at..]
  {
  }

  lemma {:induction false} UnitsOfStream(s: seq<byte>, at: nat, units: seq<seq<byte>>)
    requires at <= |s| && s[at..] == Stream(units)
    requires WellFormed(units) && Clean(units)
    ensures (at < |s| ==> CodeAt(s, at) == 4) && Units(s, at) == units
    decreases |units|
  {
    hide Embeds, NextCode, Stream, CodeAt;
    if units == [] {
      StreamEnds(s, at);
    } else {
      var begin, end := at + 4, at + 4 + |units[0]|;
      StreamAt(s, at, units);
      UnitsOfStream(s, end, units[1..]);
      StreamStarts(s, end, units[1..]);
      forall i | begin <= i < end ensures CodeAt(s, i) == 0 {
        NoCodeInside(s, begin, end, i);
      }
      NextCodeIs(s, begin, end);
      assert units == [units[0]] + units[1..];
    }
  }

  lemma {:induction false} SplitsStream(units: seq<seq<byte>>)
    requires WellFormed(units) && Clean(units) && |units| <= MAX_UNITS
    ensures Split(Stream(units)) == Ok(units)
  {
    hide Embeds, NextCode, Units, CodeAt, Stream;
    var s := Stream(units);
    assert s[0..] == s;
    UnitsOfStream(s, 0, units);
    NextCodeIs(s, 0, 0);
    assert s[..0] == [];
    NoEmptyUnit(units);
  }

  lemma {:induction false} NoEmptyUnit(units: seq<seq<byte>>)
    requires WellFormed(units)
    ensures [] !in units
  {
    if units == [] {
    } else {
      NoEmptyUnit(units[1..]);
      assert units == [units[0]] + units[1..];
    }
  }

  // ----- what splitting can return

  /** No unit returned embeds a start code, and three or four bytes go to each start code. */
  lemma {:induction false} UnitsAreClean(s: seq<byte>, at: nat)
    requires at <= |s| && (at < |s| ==> CodeAt(s, at) > 0)
    ensures Clean(Units(s, at))
    ensures 3 * |Units(s, at)| <= |s| - at - TotalSize(Units(s, at)) <= 4 * |Units(s, at)|
    decreases |s| - at
  {
    hide Embeds, NextCode, CodeAt;
    if at >= |s| {
    } else {
      var begin := at + CodeAt(s, at);
      var end := NextCode(s, begin);
      UnitsAreClean(s, end);
      UnitIsClean(s, begin);
      assert Units(s, at)[1..] == Units(s, end);
    }
  }

  lemma UnitIsClean(s: seq<byte>, begin: nat)
    requires begin <= |s|
    ensures !Embeds(s[begin..NextCode(s, begin)])
  {
    var end := NextCode(s, begin);
    var u := s[begin..end];
    forall i ensures !ThreeAt(u, i) {
      if ThreeAt(u, i) {
        NextCodeSkips(s, begin, begin + i);
      }
    }
  }

  lemma ThreeParts(s: seq<byte>, at: nat, begin: nat, end: nat)
    requires at <= begin <= end <= |s|
    ensures s[at..] == s[at..begin] + s[begin..end] + s[end..]
  {
  }

  lemma FullCode(s: seq<byte>, at: nat)
    requires at <= |s|
    ensures CodeAt(s, at) == 4 ==> s[at..at + 4] == START
  {
  }

  /** If every start code took four bytes, the input is the stream of the units. */
  lemma {:induction false} FullCodesAreStream(s: seq<byte>, at: nat)
    requires at <= |s| && (at < |s| ==> CodeAt(s, at) > 0)
    requires |s| - at == 4 * |Units(s, at)| + TotalSize(Units(s, at))
    ensures s[at..] == Stream(Units(s, at))
    decreases |s| - at
  {
    if at >= |s| {
    } else {
      hide NextCode, CodeAt, Clean;
      var begin := at + CodeAt(s, at);
      var end := NextCode(s, begin);
      UnitsAreClean(s, end);
      FullCode(s, at);
      var units := Units(s, at);
      assert units[1..] == Units(s, end);
      FullCodesAreStream(s, end);
      ThreeParts(s, at, begin, end);
    }
  }

  // ----- conversion

  /** The first bytes look like a start code, so the data is passed on as it is. */
  predicate LooksLikeStream(data: seq<byte>) {
    |data| >= 4 && data[0] == 0 && data[1] == 0 && (data[2] == 1 || (data[2] == 0 && data[3] == 1))
  }

  function ConvertFrom(data: seq<byte>, offset: nat, out: seq<byte>): Option<seq<byte>>
    decreases |data| - offset
  {
    if offset + 4 <= |data| then
      var length := FromBigEndian(data[offset..offset + 4]);
      if length == 0 || length > |data| - (offset + 4) then None
      else ConvertFrom(data, offset + 4 + length, out + START + data[offset + 4..offset + 4 + length])
    else if offset == |data| && out != [] then Some(out) else None
  }

  /** `convert_to_annex_b` for a sample without length information. */
  function Convert(data: seq<byte>): Option<seq<byte>> {
    if data == [] then None
    else if LooksLikeStream(data) then Some(data)
    else ConvertFrom(data, 0, [])
  }

  /** The bytes of a length-prefixed unit, at any offset. */
  lemma PrefixedAt(data: seq<byte>, offset: nat, units: seq<seq<byte>>)
    requires offset <= |data| && units != [] && data[offset..] == Prefixed(units)
    ensures var u := units[0];
            && offset + 4 + |u| <= |data| && data[offset..offset + 4] == BigEndian(|u|, 4)
            && data[offset + 4..offset + 4 + |u|] == u && data[offset + 4 + |u|..] == Prefixed(units[1..])
  {
    hide BigEndian;
    PartsOf(data, offset, BigEndian(|units[0]|, 4), units[0], Prefixed(units[1..]));
  }

  lemma PartsOf(data: seq<byte>, offset: nat, a: seq<byte>, b: seq<byte>, c: seq<byte>)
    requires offset <= |data| && data[offset..] == a + b + c
    ensures offset + |a| + |b| <= |data| && data[offset..offset + |a|] == a
    ensures data[offset + |a|..offset + |a| + |b|] == b && data[offset + |a| + |b|..] == c
  {
    var rest := data[offset..];
    assert data[offset..offset + |a|] == rest[..|a|];
    assert data[offset + |a|..offset + |a| + |b|] == rest[|a|..|a| + |b|];
    assert data[offset + |a| + |b|..] == rest[|a| + |b|..];
  }

  lemma StreamCons(out: seq<byte>, units: seq<seq<byte>>)
    requires units != []
    ensures out + Stream(units) == out + START + units[0] + Stream(units[1..])
  {
  }

  lemma ConvertEnd(data: seq<byte>, offset: nat, out: seq<byte>)
    requires offset <= |data| && data[offset..] == Prefixed([]) && |out| > 0
    ensures ConvertFrom(data, offset, out) == Some(out + Stream([]))
  {
    assert out + Stream([]) == out;
  }

  lemma ConvertStep(data: seq<byte>, offset: nat, out: seq<byte>, units: seq<seq<byte>>)
    requires offset <= |data| && units != [] && data[offset..] == Prefixed(units) && WellFormed(units)
    ensures var next := offset + 4 + |units[0]|;
            && next <= |data| && data[next..] == Prefixed(units[1..])
            && ConvertFrom(data, offset, out) == ConvertFrom(data, next, out + START + units[0])
  {
    hide Prefixed, FromBigEndian, BigEndian;
    PrefixedAt(data, offset, units);
    Widths();
    DecodeBigEndian(|units[0]|, 4);
  }

  lemma {:induction false} ConvertsPrefixed(data: seq<byte>, offset: nat, out: seq<byte>, units: seq<seq<byte>>)
    requires offset <= |data| && data[offset..] == Prefixed(units) && WellFormed(units)
    requires |out| > 0 || |units| > 0
    ensures ConvertFrom(data, offset, out) == Some(out + Stream(units))
    decreases |units|
  {
    hide Prefixed, ConvertFrom, Stream;
    if units == [] {
      ConvertEnd(data, offset, out);
    } else {
      ConvertStep(data, offset, out, units);
      ConvertsPrefixed(data, offset + 4 + |units[0]|, out + START + units[0], units[1..]);
      StreamCons(out, units);
    }
  }

  /** Lengths whose four bytes look like the beginning of a stream. */
  predicate LooksLikeCode(length: nat) {
    length == 1 || 256 <= length < 512
  }

  lemma FourBytes(n: nat)
    requires n < 0x1_0000_0000
    ensures BigEndian(n, 4) == [n / 0x100_0000, n / 0x1_0000 % 256, n / 256 % 256, n % 256]
  {
    assert BigEndian(n / 256 / 256 / 256, 1) == [n / 256 / 256 / 256 % 256];
    assert BigEndian(n / 256 / 256, 2) == [n / 256 / 256 / 256 % 256, n / 256 / 256 % 256];
    assert BigEndian(n / 256, 3) == [n / 256 / 256 / 256 % 256, n / 256 / 256 % 256, n / 256 % 256];
    assert n / 256 / 256 == n / 0x1_0000 && n / 256 / 256 / 256 == n / 0x100_0000;
  }

  lemma LooksLikeStreamExactly(units: seq<seq<byte>>)
    requires units != [] && WellFormed(units)
    ensures LooksLikeStream(Prefixed(units)) <==> LooksLikeCode(|units[0]|)
  {
    hide Prefixed, BigEndian;
    var data := Prefixed(units);
    assert data[0..] == data;
    PrefixedAt(data, 0, units);
    FourBytes(|units[0]|);
    assert forall k :: 0 <= k < 4 ==> data[k] == data[0..4][k];
  }

  predicate AllSingle(units: seq<seq<byte>>) {
    units == [] || (|units[0]| == 1 && AllSingle(units[1..]))
  }

  lemma CodeOfOne(n: nat)
    requires n < 0x1_0000_0000
    ensures BigEndian(n, 4) == START <==> n == 1
  {
    FourBytes(n);
    hide BigEndian;
  }

  lemma TailsCompare(p: seq<byte>, q: seq<byte>, u: seq<byte>, a: seq<byte>, b: seq<byte>)
    requires |p| == |q|
    ensures p + u + a == q + u + b <==> p == q && a == b
  {
    var x, y := p + u + a, q + u + b;
    assert x[..|p|] == p && y[..|p|] == q;
    assert x[|p| + |u|..] == a && y[|p| + |u|..] == b;
  }

  /** The two forms coincide exactly when every length is one. */
  lemma {:induction false} SameFormExactly(units: seq<seq<byte>>)
    requires WellFormed(units)
    ensures Prefixed(units) == Stream(units) <==> AllSingle(units)
  {
    hide BigEndian;
    if units == [] {
    } else {
      var u, rest := units[0], units[1..];
      assert units == [u] + rest;
      SameFormExactly(rest);
      CodeOfOne(|u|);
      TailsCompare(BigEndian(|u|, 4), START, u, Prefixed(rest), Stream(rest));
    }
  }

  /** Whatever the loop accepts was length-prefixed units. */
  lemma {:induction false} ConvertsOnlyPrefixed(data: seq<byte>, offset: nat, out: seq<byte>)
    returns (units: seq<seq<byte>>)
    requires offset <= |data| && ConvertFrom(data, offset, out).Some?
    ensures WellFormed(units) && data[offset..] == Prefixed(units)
    ensures ConvertFrom(data, offset, out) == Some(out + Stream(units))
    decreases |data| - offset
  {
    hide Prefixed, Stream, BigEndian, FromBigEndian;
    if offset + 4 > |data| {
      units := [];
      PrefixedNothing();
      assert data[offset..] == [] && out + [] == out;
    } else {
      var prefix := data[offset..offset + 4];
      var next := offset + 4 + FromBigEndian(prefix);
      var unit := data[offset + 4..next];
      var rest := ConvertsOnlyPrefixed(data, next, out + START + unit);
      units := [unit] + rest;
      EncodeBigEndian(prefix);
      Widths();
      PrefixedFirst(unit, rest, out);
      assert data[offset..] == prefix + unit + data[next..];
    }
  }

  lemma PrefixedNothing()
    ensures Prefixed([]) == [] && Stream([]) == []
  {
  }

  lemma PrefixedFirst(unit: seq<byte>, rest: seq<seq<byte>>, out: seq<byte>)
    requires 0 < |unit| < 0x1_0000_0000 && WellFormed(rest)
    ensures WellFormed([unit] + rest) && Prefixed([unit] + rest) == BigEndian(|unit|, 4) + unit + Prefixed(rest)
    ensures out + Stream([unit] + rest) == out + START + unit + Stream(rest)
  {
    hide BigEndian;
    assert ([unit] + rest)[1..] == rest;
  }

  ghost predicate Converts(data: seq<byte>, out: seq<byte>, units: seq<seq<byte>>) {
    units != [] && WellFormed(units) && data == Prefixed(units) && out == Stream(units)
  }

  /** Data that does not begin like a stream is converted exactly if it is length-prefixed units. */
  lemma ConvertsExactly(data: seq<byte>, out: seq<byte>)
    requires !LooksLikeStream(data)
    ensures Convert(data) == Some(out) <==> exists units :: Converts(data, out, units)
  {
    hide ConvertFrom, LooksLikeStream, Prefixed, Stream;
    assert data[0..] == data;
    PrefixedNothing();
    if Convert(data) == Some(out) {
      var units := ConvertsOnlyPrefixed(data, 0, []);
      assert [] + Stream(units) == Stream(units);
      assert Converts(data, out, units);
    }
    forall units | Converts(data, out, units) ensures Convert(data) == Some(out) {
      ConvertsPrefixed(data, 0, [], units);
      assert [] + Stream(units) == Stream(units);
      PrefixedSome(units);
    }
  }

  lemma PrefixedSome(units: seq<seq<byte>>)
    requires units != []
    ensures Prefixed(units) != []
  {
  }

  lemma {:induction false} PrefixedSize(units: seq<seq<byte>>)
    ensures |Prefixed(units)| == 4 * |units| + TotalSize(units)
  {
    if units == [] {
    } else {
      PrefixedSize(units[1..]);
    }
  }

  ghost predicate Survives(units: seq<seq<byte>>) {
    var converted := Convert(Prefixed(units));
    converted.Some? && Split(converted.value) == Ok(units)
  }

  lemma {:induction false} StreamSplitsExactly(units: seq<seq<byte>>)
    requires WellFormed(units)
    ensures Split(Stream(units)) == Ok(units) <==> |units| <= MAX_UNITS && Clean(units)
  {
    hide Stream, CodeAt, NextCode, Units, Clean;
    if |units| <= MAX_UNITS && Clean(units) {
      SplitsStream(units);
    } else {
      UnitsAreClean(Stream(units), NextCode(Stream(units), 0));
    }
  }

  /**
    Length-prefixed units that go through conversion and splitting come back as they were
    exactly when there are at most 2048 of them, none embeds a start code, and the first
    length is neither 1 nor in 256..511, unless all lengths are 1.
   */
  lemma SurvivesExactly(units: seq<seq<byte>>)
    requires units != [] && WellFormed(units)
    ensures Survives(units) <==>
            |units| <= MAX_UNITS && Clean(units) && (!LooksLikeCode(|units[0]|) || AllSingle(units))
  {
    hide Split, Clean, NextCode, ConvertFrom;
    var data := Prefixed(units);
    LooksLikeStreamExactly(units);
    StreamSplitsExactly(units);
    PrefixedSize(units);
    assert data[0..] == data;
    if !LooksLikeCode(|units[0]|) {
      ConvertsPrefixed(data, 0, [], units);
      assert [] + Stream(units) == Stream(units);
    } else {
      SameFormExactly(units);
      if Split(data) == Ok(units) {
        PassedOnUnchanged(data, units);
      }
    }
  }

  /** One clean unit of 256 bytes, whose length reads as a start code. */
  lemma LengthTakenForCode()
    ensures var units := [Repeat<byte>(255, 256)];
            WellFormed(units) && Clean(units) && !Survives(units)
  {
    hide Survives;
    var units := [Repeat<byte>(255, 256)];
    assert !Embeds(units[0]);
    assert |units[1..]| == 0;
    SurvivesExactly(units);
  }

  lemma PassedOnUnchanged(data: seq<byte>, units: seq<seq<byte>>)
    requires LooksLikeStream(data) && Split(data) == Ok(units) && |data| == 4 * |units| + TotalSize(units)
    ensures data == Stream(units)
  {
    hide Stream, TotalSize;
    NextCodeIs(data, 0, 0);
    FullCodesAreStream(data, 0);
    assert data[0..] == data;
  }

  // ----- conversion by length information

  /** A unit without the start code it may begin with. */
  function StripCode(u: seq<byte>): seq<byte> {
    u[CodeAt(u, 0)..]
  }

  /** The units `lengths` cuts `data` into, from `offset` on, without their start codes. */
  function CutFrom(data: seq<byte>, lengths: seq<u32>, offset: nat): Option<seq<seq<byte>>>
    requires offset <= |data|
    decreases |lengths|
  {
    if lengths == [] then if offset == |data| then Some([]) else None
    else if lengths[0] == 0 || lengths[0] > |data| - offset then None
    else
      var next := offset + lengths[0];
      var unit := StripCode(data[offset..next]);
      if unit == [] then None
      else
        match CutFrom(data, lengths[1..], next)
        case None => None
        case Some(rest) => Some([unit] + rest)
  }

  function ConvertByLength(data: seq<byte>, lengths: seq<u32>): Option<seq<byte>> {
    if data == [] || lengths == [] || |lengths| > MAX_UNITS then None
    else
      match CutFrom(data, lengths, 0)
      case None => None
      case Some(units) => Some(Stream(units))
  }

  lemma {:induction false} CutsAtMost(data: seq<byte>, lengths: seq<u32>, offset: nat)
    requires offset <= |data| && CutFrom(data, lengths, offset).Some?
    ensures |CutFrom(data, lengths, offset).value| == |lengths|
    ensures WellFormed(CutFrom(data, lengths, offset).value)
    decreases |lengths|
  {
    if lengths == [] {
    } else {
      CutsAtMost(data, lengths[1..], offset + lengths[0]);
    }
  }

  /** Splitting what was converted by length gives the units the lengths cut out, if none embeds a start code. */
  lemma ConvertByLengthSplits(data: seq<byte>, lengths: seq<u32>)
    requires ConvertByLength(data, lengths).Some?
    ensures CutFrom(data, lengths, 0).Some?
    ensures Split(ConvertByLength(data, lengths).value) == Ok(CutFrom(data, lengths, 0).value) <==>
            Clean(CutFrom(data, lengths, 0).value)
  {
    hide Split, Clean;
    CutsAtMost(data, lengths, 0);
    StreamSplitsExactly(CutFrom(data, lengths, 0).value);
  }

  function Total(lengths: seq<u32>): nat {
    if lengths == [] then 0 else lengths[0] + Total(lengths[1..])
  }

  /** No piece that the lengths cut out is a start code and nothing else. */
  predicate NoBareCode(data: seq<byte>, lengths: seq<u32>, offset: nat)
    requires offset + Total(lengths) <= |data|
    decreases |lengths|
  {
    lengths == [] ||
    (var piece := data[offset..offset + lengths[0]];
     piece != [0, 0, 1] && piece != START && NoBareCode(data, lengths[1..], offset + lengths[0]))
  }

  predicate AllPositive(lengths: seq<u32>) {
    lengths == [] || (lengths[0] > 0 && AllPositive(lengths[1..]))
  }

  lemma StripsToNothing(u: seq<byte>)
    requires u != []
    ensures StripCode(u) == [] <==> u == [0, 0, 1] || u == START
  {
    if StripCode(u) == [] {
      assert |u| == CodeAt(u, 0);
    }
  }

  lemma {:induction false} CutsExactly(data: seq<byte>, lengths: seq<u32>, offset: nat)
    requires offset <= |data|
    ensures CutFrom(data, lengths, offset).Some? <==>
            AllPositive(lengths) && offset + Total(lengths) == |data| && NoBareCode(data, lengths, offset)
    decreases |lengths|
  {
    hide StripCode;
    if lengths == [] {
    } else if 0 < lengths[0] <= |data| - offset {
      StripsToNothing(data[offset..offset + lengths[0]]);
      CutsExactly(data, lengths[1..], offset + lengths[0]);
    }
  }

  /** Accepted are exactly 1 to 2048 positive lengths that sum to the data and cut out no bare code. */
  lemma LengthsAcceptedExactly(data: seq<byte>, lengths: seq<u32>)
    ensures ConvertByLength(data, lengths).Some? <==>
            && 1 <= |lengths| <= MAX_UNITS && AllPositive(lengths)
            && Total(lengths) == |data| && NoBareCode(data, lengths, 0)
  {
    hide CutFrom, NoBareCode;
    CutsExactly(data, lengths, 0);
  }

  // ----- the source's loops

  function Starts(s: seq<byte>, at: nat): seq<(nat, nat)>
    requires at <= |s| && (at < |s| ==> CodeAt(s, at) > 0)
    decreases |s| - at
  {
    if at == |s| then []
    else [(at, CodeAt(s, at))] + Starts(s, NextCode(s, at + CodeAt(s, at)))
  }

  /** Unit `k` lies between start code `k` and the next one. */
  ghost predicate UnitBetween(s: seq<byte>, starts: seq<(nat, nat)>, units: seq<seq<byte>>, k: nat) {
    && k < |starts| && k < |units|
    && var begin, end := starts[k].0 + starts[k].1, if k + 1 < |starts| then starts[k + 1].0 else |s|;
       begin <= end <= |s| && units[k] == s[begin..end]
  }

  lemma {:induction false} UnitsBetween(s: seq<byte>, at: nat, k: nat)
    requires at <= |s| && (at < |s| ==> CodeAt(s, at) > 0)
    ensures |Starts(s, at)| == |Units(s, at)|
    ensures k < |Units(s, at)| ==> UnitBetween(s, Starts(s, at), Units(s, at), k)
    decreases |s| - at
  {
    hide CodeAt, NextCode;
    if at >= |s| {
    } else {
      var end := NextCode(s, at + CodeAt(s, at));
      UnitsBetween(s, end, if k > 0 then k - 1 else 0);
      if end < |s| {
        assert Starts(s, end)[0].0 == end;
      }
    }
  }

  lemma NoCodeAtEnd(s: seq<byte>, cursor: nat)
    requires cursor <= |s| < cursor + 3
    ensures NextCode(s, cursor) == |s|
  {
    NextCodeIs(s, cursor, |s|);
  }

  method FindStarts(bytes: seq<byte>) returns (starts: Option<seq<(nat, nat)>>)
    ensures var all := Starts(bytes, NextCode(bytes, 0));
            starts == if |all| > MAX_UNITS then None else Some(all)
  {
    hide NextCode, Starts;
    ghost var all := Starts(bytes, NextCode(bytes, 0));
    var found: seq<(nat, nat)> := [];
    var cursor := 0;
    while cursor + 3 <= |bytes|
      invariant 0 <= cursor <= |bytes| && |found| <= MAX_UNITS
      invariant all == found + Starts(bytes, NextCode(bytes, cursor))
    {
      NextCodeHere(bytes, cursor);
      var four := cursor + 4 <= |bytes| && bytes[cursor] == 0 && bytes[cursor + 1] == 0 &&
                  bytes[cursor + 2] == 0 && bytes[cursor + 3] == 1;
      var three := !four && bytes[cursor] == 0 && bytes[cursor + 1] == 0 && bytes[cursor + 2] == 1;
      if four || three {
        var prefixSize := if four then 4 else 3;
        StartsHead(bytes, cursor, found);
        if |found| == MAX_UNITS {
          return None;
        }
        found := found + [(cursor, prefixSize)];
        cursor := cursor + prefixSize;
      } else {
        cursor := cursor + 1;
      }
    }
    NoCodeAtEnd(bytes, cursor);
    NoMoreStarts(bytes);
    assert found + [] == found;
    return Some(found);
  }

  lemma NoMoreStarts(s: seq<byte>)
    ensures Starts(s, |s|) == []
  {
  }

  lemma StartsHead(s: seq<byte>, at: nat, found: seq<(nat, nat)>)
    requires at < |s| && CodeAt(s, at) > 0
    ensures found + Starts(s, at) == found + [(at, CodeAt(s, at))] + Starts(s, NextCode(s, at + CodeAt(s, at)))
  {
  }

  lemma NextCodeHere(s: seq<byte>, cursor: nat)
    requires cursor < |s|
    ensures NextCode(s, cursor) == if CodeAt(s, cursor) > 0 then cursor else NextCode(s, cursor + 1)
  {
  }

  method SplitAnnexB(bytes: seq<byte>) returns (r: Result<seq<seq<byte>>, SplitError>)
    ensures r == Split(bytes)
  {
    hide NextCode, Units, Starts, CodeAt;
    ghost var units := Units(bytes, NextCode(bytes, 0));
    UnitsBetween(bytes, NextCode(bytes, 0), 0);
    var found := FindStarts(bytes);
    if found.None? {
      return Err(TooManyUnits);
    }
    var starts := found.value;
    if starts == [] {
      NoStarts(bytes);
      return Ok([]);
    }
    FirstStart(bytes);
    if exists b <- bytes[..starts[0].0] :: b != 0 {
      return Err(LeadingGarbage);
    }
    var nals: seq<seq<byte>> := [];
    for index := 0 to |starts|
      invariant nals == units[..index] && [] !in nals
    {
      UnitsBetween(bytes, NextCode(bytes, 0), index);
      var begin := starts[index].0 + starts[index].1;
      var end := if index + 1 == |starts| then |bytes| else starts[index + 1].0;
      assert bytes[begin..end] == units[index];
      if begin >= end {
        assert [] == units[index];
        return Err(EmptyUnit);
      }
      nals := nals + [bytes[begin..end]];
    }
    assert nals == units;
    return Ok(nals);
  }

  lemma NoStarts(s: seq<byte>)
    requires Starts(s, NextCode(s, 0)) == []
    ensures NextCode(s, 0) == |s| && Split(s) == Ok([])
  {
  }

  lemma FirstStart(s: seq<byte>)
    requires Starts(s, NextCode(s, 0)) != []
    ensures NextCode(s, 0) < |s| && Starts(s, NextCode(s, 0))[0].0 == NextCode(s, 0)
  {
  }

  method ConvertToAnnexB(data: seq<byte>) returns (r: Option<seq<byte>>)
    ensures r == Convert(data)
  {
    if |data| == 0 {
      return None;
    }
    if |data| >= 4 && data[0] == 0 && data[1] == 0 && (data[2] == 1 || (data[2] == 0 && data[3] == 1)) {
      return Some(data);
    }
    var out: seq<byte> := [];
    var offset := 0;
    while offset + 4 <= |data|
      invariant 0 <= offset <= |data|
      invariant ConvertFrom(data, 0, []) == ConvertFrom(data, offset, out)
    {
      var length := ReadBigEndian(data, offset, 4);
      offset := offset + 4;
      if length == 0 || length > |data| - offset {
        return None;
      }
      out := out + START + data[offset..offset + length];
      offset := offset + length;
    }
    return if offset == |data| && out != [] then Some(out) else None;
  }

  method ConvertWithLengths(data: seq<byte>, lengths: seq<u32>) returns (r: Option<seq<byte>>)
    ensures r == ConvertByLength(data, lengths)
  {
    hide CodeAt, StripCode;
    if data == [] || lengths == [] || |lengths| > MAX_UNITS {
      return None;
    }
    var out: seq<byte> := [];
    var offset := 0;
    ghost var units: seq<seq<byte>> := [];
    assert lengths[0..] == lengths;
    AfterNothing(CutFrom(data, lengths, 0));
    for index := 0 to |lengths|
      invariant 0 <= offset <= |data| && out == Stream(units)
      invariant CutFrom(data, lengths, 0) == After(units, CutFrom(data, lengths[index..], offset))
    {
      ghost var rest := lengths[index..];
      assert rest[0] == lengths[index] && rest[1..] == lengths[index + 1..];
      if lengths[index] == 0 || lengths[index] > |data| - offset {
        return None;
      }
      var unit := StripCode(data[offset..offset + lengths[index]]);
      if unit == [] {
        return None;
      }
      StreamSnoc(units, unit);
      AfterSnoc(units, unit, CutFrom(data, rest[1..], offset + lengths[index]));
      out := out + START + unit;
      units := units + [unit];
      offset := offset + lengths[index];
    }
    assert units + [] == units;
    return if offset == |data| then Some(out) else None;
  }

  ghost function After(done: seq<seq<byte>>, rest: Option<seq<seq<byte>>>): Option<seq<seq<byte>>> {
    match rest
    case None => None
    case Some(units) => Some(done + units)
  }

  lemma AfterNothing(rest: Option<seq<seq<byte>>>)
    ensures After([], rest) == rest
  {
    if rest.Some? {
      assert [] + rest.value == rest.value;
    }
  }

  lemma AfterSnoc(done: seq<seq<byte>>, unit: seq<byte>, rest: Option<seq<seq<byte>>>)
    ensures After(done + [unit], rest) == After(done, After([unit], rest))
  {
    if rest.Some? {
      assert done + ([unit] + rest.value) == done + [unit] + rest.value;
    }
  }

  lemma {:induction false} StreamSnoc(units: seq<seq<byte>>, unit: seq<byte>)
    ensures Stream(units + [unit]) == Stream(units) + START + unit
  {
    if units == [] {
      assert [unit][1..] == [] && [] + [unit] == [unit];
    } else {
      StreamSnoc(units[1..], unit);
      assert (units + [unit])[1..] == units[1..] + [unit];
    }
  }
}
