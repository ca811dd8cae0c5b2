/** Least elements and sorted enumerations of finite sets, for the source's `min` and `sorted`, and subsequences. */
module Ordering {

  ghost predicate TotalOrder<T(!new)>(le: (T, T) -> bool) {
    && (forall x, y :: le(x, y) || le(y, x))
    && (forall x, y :: le(x, y) && le(y, x) ==> x == y)
    && (forall x, y, z :: le(x, y) && le(y, z) ==> le(x, z))
  }

  predicate IsLeast<T(!new)>(m: T, s: set<T>, le: (T, T) -> bool) {
    m in s && forall x <- s :: le(m, x)
  }

  lemma LeastExists<T(!new)>(s: set<T>, le: (T, T) -> bool)
    requires s != {} && TotalOrder(le)
    ensures exists m :: IsLeast(m, s, le)
    decreases |s|
  {
    var m :| m in s;
    if s == {m} {
      assert IsLeast(m, s, le);
    } else {
      LeastExists(s - {m}, le);
      var other :| IsLeast(other, s - {m}, le);
      if le(other, m) {
        assert IsLeast(other, s, le);
      } else {
        assert IsLeast(m, s, le);
      }
    }
  }

  function Least<T(!new)>(s: set<T>, le: (T, T) -> bool): (m: T)
    requires s != {} && TotalOrder(le)
    ensures IsLeast(m, s, le)
  {
    LeastExists(s, le);
    var m :| m in s && IsLeast(m, s, le);
    m
  }

  function Sorted<T(!new)>(s: set<T>, le: (T, T) -> bool): (r: seq<T>)
    requires TotalOrder(le)
    ensures |r| == |s|
    decreases |s|
  {
    if s == {} then []
    else
      var m := Least(s, le);
      [m] + Sorted(s - {m}, le)
  }

  /** `Sorted` lists each element of the set once, in order. */
  lemma {:induction false} SortedLists<T(!new)>(s: set<T>, le: (T, T) -> bool)
    requires TotalOrder(le)
    ensures forall x :: x in Sorted(s, le) <==> x in s
    ensures forall i, j :: 0 <= i < j < |s| ==>
              Sorted(s, le)[i] != Sorted(s, le)[j] && le(Sorted(s, le)[i], Sorted(s, le)[j])
    decreases |s|
  {
    if s == {} {
    } else {
      var m := Least(s, le);
      SortedLists(s - {m}, le);
      var tail := Sorted(s - {m}, le);
      assert Sorted(s, le) == [m] + tail;
      forall j | 0 <= j < |tail| ensures tail[j] != m && le(m, tail[j]) {
        assert tail[j] in s - {m};
      }
    }
  }

  predicate NatLe(x: nat, y: nat) {
    x <= y
  }

  /** Lexicographic order, of Python's tuples and strings. */
  predicate LexLe<T(==)>(a: seq<T>, b: seq<T>, le: (T, T) -> bool) {
    if a == [] then true
    else if b == [] then false
    else if a[0] == b[0] then LexLe(a[1..], b[1..], le)
    else le(a[0], b[0])
  }

  lemma LexTotal<T(!new)>(a: seq<T>, b: seq<T>, le: (T, T) -> bool)
    requires TotalOrder(le)
    ensures LexLe(a, b, le) || LexLe(b, a, le)
    ensures LexLe(a, b, le) && LexLe(b, a, le) ==> a == b
  {
    if a != [] && b != [] && a[0] == b[0] {
      LexTotal(a[1..], b[1..], le);
      assert a == [a[0]] + a[1..] && b == [b[0]] + b[1..];
    }
  }

  lemma LexTransitive<T(!new)>(a: seq<T>, b: seq<T>, c: seq<T>, le: (T, T) -> bool)
    requires TotalOrder(le) && LexLe(a, b, le) && LexLe(b, c, le)
    ensures LexLe(a, c, le)
  {
    if a != [] && b != [] && c != [] && a[0] == b[0] == c[0] {
      LexTransitive(a[1..], b[1..], c[1..], le);
    }
  }

  /** Python compares strings by code point, first difference first. */
  predicate StringLe(a: string, b: string) {
    LexLe(a, b, CharLe)
  }

  predicate CharLe(x: char, y: char) {
    x <= y
  }

  lemma StringOrder()
    ensures TotalOrder(StringLe)
  {
    forall a, b ensures (StringLe(a, b) || StringLe(b, a)) && (StringLe(a, b) && StringLe(b, a) ==> a == b) {
      LexTotal(a, b, CharLe);
    }
    forall a, b, c | StringLe(a, b) && StringLe(b, c) ensures StringLe(a, c) {
      LexTransitive(a, b, c, CharLe);
    }
  }

  // ----- running maxima

  function Max(a: int, b: int): int {
    if a >= b then a else b
  }

  /** The largest of `xs`, or `floor` if none is larger. */
  function MaxOf(floor: int, xs: seq<int>): int {
    if xs == [] then floor else Max(MaxOf(floor, xs[..|xs| - 1]), xs[|xs| - 1])
  }

  lemma {:induction false} MaxOfSplit(floor: int, a: seq<int>, b: seq<int>)
    ensures MaxOf(floor, a + b) == MaxOf(MaxOf(floor, a), b)
    decreases |b|
  {
    if b == [] {
      assert a + b == a;
    } else {
      assert (a + b)[..|a + b| - 1] == a + b[..|b| - 1];
      MaxOfSplit(floor, a, b[..|b| - 1]);
    }
  }

  /** A trace that stays below the floor, then `peak`, then a value no higher. */
  lemma MaxOfPeak(floor: int, below: seq<int>, peak: seq<int>, last: int)
    requires MaxOf(floor, below) == floor && last <= MaxOf(floor, peak)
    ensures MaxOf(floor, below + peak + [last]) == MaxOf(floor, peak)
  {
    MaxOfSplit(floor, below + peak, [last]);
    MaxOfSplit(floor, below, peak);
    assert [last][..0] == [];
  }

  // ----- subsequences

  /** `a` is `b` with some elements left out. */
  predicate Subsequence<T(==)>(a: seq<T>, b: seq<T>) {
    if a == [] then true
    else if b == [] then false
    else
      (a[|a| - 1] == b[|b| - 1] && Subsequence(a[..|a| - 1], b[..|b| - 1])) || Subsequence(a, b[..|b| - 1])
  }

  lemma SubsequenceBoth<T>(a: seq<T>, b: seq<T>, e: T)
    requires Subsequence(a, b)
    ensures Subsequence(a + [e], b + [e])
  {
    assert (a + [e])[..|a|] == a && (b + [e])[..|b|] == b;
  }

  lemma SubsequenceMore<T>(a: seq<T>, b: seq<T>, e: T)
    requires Subsequence(a, b)
    ensures Subsequence(a, b + [e])
  {
    assert (b + [e])[..|b|] == b;
  }

  /** Leaving out one more element keeps a subsequence. */
  lemma {:induction false} SubsequenceLess<T>(a: seq<T>, i: nat, b: seq<T>)
    requires i < |a| && Subsequence(a, b)
    ensures Subsequence(a[..i] + a[i + 1..], b)
    decreases |b|
  {
    var a', b' := a[..|a| - 1], b[..|b| - 1];
    var less := a[..i] + a[i + 1..];
    assert b == b' + [b[|b| - 1]];
    if a[|a| - 1] == b[|b| - 1] && Subsequence(a', b') {
      if i == |a| - 1 {
        assert less == a';
        SubsequenceMore(a', b', b[|b| - 1]);
      } else {
        SubsequenceLess(a', i, b');
        assert less == a'[..i] + a'[i + 1..] + [a[|a| - 1]];
        SubsequenceBoth(a'[..i] + a'[i + 1..], b', b[|b| - 1]);
      }
    } else {
      SubsequenceLess(a, i, b');
      SubsequenceMore(less, b', b[|b| - 1]);
    }
  }
}
