/**
  The dependency-cycle search of the source check: a recursive depth-first search that
  shares its colour sets, its path and its findings between all calls.
 */
module CycleSearch {
  import opened Ordering

  type Graph = map<string, set<string>>

  /** A node without an entry has no outgoing edges. */
  function Targets(graph: Graph, node: string): set<string> {
    if node in graph then graph[node] else {}
  }

  /** Consecutive nodes are joined by edges. */
  ghost predicate Walk(graph: Graph, w: seq<string>) {
    forall i {:trigger Targets(graph, w[i])} :: 0 <= i < |w| - 1 ==> w[i + 1] in Targets(graph, w[i])
  }

  ghost predicate ClosedWalk(graph: Graph, w: seq<string>) {
    |w| >= 2 && w[0] == w[|w| - 1] && Walk(graph, w)
  }

  ghost predicate Distinct(s: seq<string>) {
    forall i, j :: 0 <= i < j < |s| ==> s[i] != s[j]
  }

  /** A closed walk that visits no node twice. */
  ghost predicate Cycle(graph: Graph, c: seq<string>) {
    ClosedWalk(graph, c) && Distinct(c[..|c| - 1])
  }

  ghost predicate Acyclic(graph: Graph) {
    forall w :: !ClosedWalk(graph, w)
  }

  /** The edge from `a` to `b` closes one of the cycles found. */
  ghost predicate Closes(failures: seq<seq<string>>, a: string, b: string) {
    exists k :: 0 <= k < |failures| && ClosingEdge(failures[k], a, b)
  }

  predicate ClosingEdge(c: seq<string>, a: string, b: string) {
    |c| >= 2 && c[|c| - 2] == a && c[|c| - 1] == b
  }

  /** Some edge of the walk closes one of the cycles found. */
  ghost predicate IsCut(failures: seq<seq<string>>, w: seq<string>) {
    exists i :: 0 <= i < |w| - 1 && Closes(failures, w[i], w[i + 1])
  }

  /** `b` was finished before position `i`. */
  ghost predicate FinishedBefore(finished: seq<string>, i: nat, b: string) {
    exists j :: 0 <= j < i && j < |finished| && finished[j] == b
  }

  /** Every edge of a finished node leads to a node finished earlier, or closes a cycle found. */
  ghost predicate Settled(graph: Graph, finished: seq<string>, failures: seq<seq<string>>) {
    forall i, b {:trigger FinishedBefore(finished, i, b)} ::
      0 <= i < |finished| && b in Targets(graph, finished[i]) ==>
        FinishedBefore(finished, i, b) || Closes(failures, finished[i], b)
  }

  ghost predicate AllCycles(graph: Graph, failures: seq<seq<string>>) {
    forall k :: 0 <= k < |failures| ==> Cycle(graph, failures[k])
  }

  // ----- what settled nodes imply

  /** Along a walk without closing edges, finish positions fall. */
  lemma {:induction false} PositionsFall(
      graph: Graph, finished: seq<string>, failures: seq<seq<string>>, w: seq<string>, n: nat, p: nat) returns (q: nat)
    requires Settled(graph, finished, failures) && Walk(graph, w) && n < |w|
    requires forall i :: 0 <= i < |w| - 1 ==> !Closes(failures, w[i], w[i + 1])
    requires p < |finished| && finished[p] == w[0]
    ensures q < |finished| && finished[q] == w[n] && q <= p && (n > 0 ==> q < p)
    decreases n
  {
    hide Closes;
    if n == 0 {
      q := p;
    } else {
      var before := PositionsFall(graph, finished, failures, w, n - 1, p);
      assert w[n - 1 + 1] in Targets(graph, w[n - 1]);
      assert !Closes(failures, w[n - 1], w[n - 1 + 1]);
      assert FinishedBefore(finished, before, w[n]);
      q :| 0 <= q < before && q < |finished| && finished[q] == w[n];
    }
  }

  /** Every closed walk contains an edge that closes one of the cycles found. */
  lemma ClosedWalkIsCut(graph: Graph, finished: seq<string>, failures: seq<seq<string>>, w: seq<string>)
    requires Settled(graph, finished, failures) && Distinct(finished)
    requires forall node <- graph :: node in finished
    requires ClosedWalk(graph, w)
    ensures IsCut(failures, w)
  {
    hide Settled, Closes;
    if forall i :: 0 <= i < |w| - 1 ==> !Closes(failures, w[i], w[i + 1]) {
      assert w[0 + 1] in Targets(graph, w[0]);
      assert w[0] in finished;
      var p :| 0 <= p < |finished| && finished[p] == w[0];
      var q := PositionsFall(graph, finished, failures, w, |w| - 1, p);
      assert false;
    }
  }

  lemma EmptyExactly(graph: Graph, finished: seq<string>, failures: seq<seq<string>>)
    requires Settled(graph, finished, failures) && Distinct(finished) && AllCycles(graph, failures)
    requires forall node <- graph :: node in finished
    ensures failures == [] <==> Acyclic(graph)
  {
    hide Settled, Distinct;
    if failures != [] {
      assert Cycle(graph, failures[0]);
      assert ClosedWalk(graph, failures[0]);
    } else {
      forall w ensures !ClosedWalk(graph, w) {
        if ClosedWalk(graph, w) {
          ClosedWalkIsCut(graph, finished, failures, w);
        }
      }
    }
  }

  // ----- the shared state of the search

  datatype State = State(
    visiting: set<string>, visited: set<string>, path: seq<string>, failures: seq<seq<string>>, finished: seq<string>)

  /** Nodes the search can meet: closed under edges. */
  ghost predicate Universe(graph: Graph, universe: set<string>) {
    graph.Keys <= universe && forall node <- graph :: graph[node] <= universe
  }

  ghost predicate Colours(s: State) {
    && Distinct(s.path) && (forall x :: x in s.visiting <==> x in s.path)
    && Distinct(s.finished) && (forall x :: x in s.visited <==> x in s.finished)
    && s.visiting !! s.visited
  }

  ghost predicate Consistent(graph: Graph, universe: set<string>, s: State) {
    && Colours(s) && Walk(graph, s.path) && s.visiting + s.visited <= universe
    && Settled(graph, s.finished, s.failures) && AllCycles(graph, s.failures)
  }

  /** `s` is where the search stood, `t` where it stands after more calls. */
  predicate Extends(s: State, t: State) {
    t.path == s.path && t.visiting == s.visiting && s.visited <= t.visited &&
    s.finished <= t.finished && s.failures <= t.failures
  }

  /** The edge from the last node of the path to `node` exists. */
  predicate Follows(graph: Graph, path: seq<string>, node: string) {
    path != [] ==> node in Targets(graph, path[|path| - 1])
  }

  function Entered(s: State, node: string): State {
    s.(visiting := s.visiting + {node}, path := s.path + [node])
  }

  function Left(s: State, node: string): State
    requires s.path != []
  {
    s.(visiting := s.visiting - {node}, path := s.path[..|s.path| - 1],
       visited := s.visited + {node}, finished := s.finished + [node])
  }

  lemma EnterKeeps(graph: Graph, universe: set<string>, s: State, node: string)
    requires Consistent(graph, universe, s) && Follows(graph, s.path, node)
    requires node in universe && node !in s.visiting && node !in s.visited
    ensures Consistent(graph, universe, Entered(s, node))
  {
    hide Settled, AllCycles;
  }

  /** All edges of `node` lead to finished nodes or close a cycle that was found. */
  ghost predicate Explored(graph: Graph, s: State, node: string) {
    forall b <- Targets(graph, node) :: b in s.visited || Closes(s.failures, node, b)
  }

  lemma LeaveKeeps(graph: Graph, universe: set<string>, s: State, node: string)
    requires Consistent(graph, universe, s) && s.path != [] && s.path[|s.path| - 1] == node && Explored(graph, s, node)
    ensures Consistent(graph, universe, Left(s, node))
  {
    LeaveColours(s, node);
    hide Colours, Closes, Distinct;
    var t := Left(s, node);
    forall i, b | 0 <= i < |t.finished| && b in Targets(graph, t.finished[i])
      ensures FinishedBefore(t.finished, i, b) || Closes(t.failures, t.finished[i], b)
    {
      if i < |s.finished| {
        assert FinishedBefore(s.finished, i, b) || Closes(s.failures, s.finished[i], b);
        FinishedBeforeMore(s.finished, t.finished, i, b);
      } else if b in s.visited {
        FinishedSomewhere(s, b);
        FinishedBeforeMore(s.finished, t.finished, i, b);
      }
    }
  }

  lemma FinishedSomewhere(s: State, b: string)
    requires Colours(s) && b in s.visited
    ensures FinishedBefore(s.finished, |s.finished|, b)
  {
    assert b in s.finished;
  }

  lemma FinishedBeforeMore(finished: seq<string>, more: seq<string>, i: nat, b: string)
    requires finished <= more && i <= |finished|
    ensures FinishedBefore(finished, i, b) ==> FinishedBefore(more, i, b)
  {
    if FinishedBefore(finished, i, b) {
      var j :| 0 <= j < i && j < |finished| && finished[j] == b;
      assert more[j] == b;
    }
  }

  lemma LeaveColours(s: State, node: string)
    requires Colours(s) && s.path != [] && s.path[|s.path| - 1] == node
    ensures Colours(Left(s, node))
  {
    var t := Left(s, node);
    assert s.path == t.path + [node];
    assert node !in t.path;
    assert node !in s.finished;
  }

  /** The path from the first occurrence of `node`, closed with `node`, is a cycle. */
  lemma ReportKeeps(graph: Graph, universe: set<string>, s: State, node: string, start: nat)
    requires Consistent(graph, universe, s) && Follows(graph, s.path, node)
    requires start < |s.path| && s.path[start] == node
    ensures var t := s.(failures := s.failures + [s.path[start..] + [node]]);
            Consistent(graph, universe, t) && Closes(t.failures, s.path[|s.path| - 1], node)
  {
    hide Settled, Cycle, Colours, Targets, Walk;
    var c := s.path[start..] + [node];
    var t := s.(failures := s.failures + [c]);
    PathColours(s, t.failures);
    PathCycle(graph, s.path, node, start);
    assert t.failures[|s.failures|] == c;
    ClosesMore(graph, s.finished, s.failures, t.failures);
  }

  lemma PathColours(s: State, failures: seq<seq<string>>)
    requires Colours(s)
    ensures Distinct(s.path) && Colours(s.(failures := failures))
  {
  }

  lemma PathCycle(graph: Graph, path: seq<string>, node: string, start: nat)
    requires Distinct(path) && Walk(graph, path) && Follows(graph, path, node)
    requires start < |path| && path[start] == node
    ensures Cycle(graph, path[start..] + [node])
  {
    hide Targets;
    var c := path[start..] + [node];
    assert c[..|c| - 1] == path[start..];
    forall i | 0 <= i < |c| - 1 ensures c[i + 1] in Targets(graph, c[i]) {
      assert c[i] == path[start + i];
    }
  }

  lemma ClosesMore(graph: Graph, finished: seq<string>, failures: seq<seq<string>>, more: seq<seq<string>>)
    requires failures <= more && Settled(graph, finished, failures)
    ensures Settled(graph, finished, more)
  {
    forall i, b | 0 <= i < |finished| && b in Targets(graph, finished[i])
      ensures FinishedBefore(finished, i, b) || Closes(more, finished[i], b)
    {
      if !FinishedBefore(finished, i, b) {
        assert Closes(failures, finished[i], b);
        var k :| 0 <= k < |failures| && ClosingEdge(failures[k], finished[i], b);
        assert more[k] == failures[k];
      }
    }
  }

  lemma PathHolds(graph: Graph, universe: set<string>, s: State, node: string)
    requires Consistent(graph, universe, s) && node in s.visiting
    ensures node in s.path
  {
  }

  lemma TargetsKnown(graph: Graph, universe: set<string>, node: string)
    requires Universe(graph, universe)
    ensures Targets(graph, node) <= universe
  {
  }

  ghost predicate Lists(names: seq<string>, all: set<string>) {
    forall name :: name in names <==> name in all
  }

  predicate Ascending(names: seq<string>) {
    forall i, j :: 0 <= i < j < |names| ==> names[i] != names[j] && StringLe(names[i], names[j])
  }

  /** The first `i` edges of `node` lead to finished nodes or close a cycle that was found. */
  ghost predicate ExploredUpTo(s: State, node: string, targets: seq<string>, i: nat) {
    forall k :: 0 <= k < i && k < |targets| ==> targets[k] in s.visited || Closes(s.failures, node, targets[k])
  }

  lemma ExploredNone(s: State, node: string, targets: seq<string>)
    ensures ExploredUpTo(s, node, targets, 0)
  {
  }

  /** The targets in sorted order are all of them. */
  lemma ExploredAll(graph: Graph, s: State, node: string, targets: seq<string>)
    requires Lists(targets, Targets(graph, node)) && ExploredUpTo(s, node, targets, |targets|)
    ensures Explored(graph, s, node)
  {
    hide Closes, Targets;
  }

  lemma ClosesStill(failures: seq<seq<string>>, more: seq<seq<string>>, a: string, b: string)
    requires failures <= more && Closes(failures, a, b)
    ensures Closes(more, a, b)
  {
    var k :| 0 <= k < |failures| && ClosingEdge(failures[k], a, b);
    assert more[k] == failures[k];
  }

  /** What was finished or reported stays so, and the next target is one of the two. */
  lemma ExploredNext(s: State, t: State, node: string, targets: seq<string>, i: nat)
    requires Extends(s, t) && i < |targets| && ExploredUpTo(s, node, targets, i)
    requires targets[i] in t.visited || Closes(t.failures, node, targets[i])
    ensures ExploredUpTo(t, node, targets, i + 1)
  {
    hide Closes;
    forall k | 0 <= k < i ensures targets[k] in t.visited || Closes(t.failures, node, targets[k]) {
      if targets[k] !in s.visited {
        ClosesStill(s.failures, t.failures, node, targets[k]);
      }
    }
  }

  lemma ExtendsSelf(s: State)
    ensures Extends(s, s)
  {
  }

  /** In the loop over a node's targets the node is the last of the path, and is still being visited. */
  lemma NextTarget(graph: Graph, s: State, node: string, t: State, targets: seq<string>, i: nat)
    requires node !in s.visiting && Extends(Entered(s, node), t) && i < |targets| &&
              Lists(targets, Targets(graph, node))
    ensures Follows(graph, t.path, targets[i]) && targets[i] in Targets(graph, node)
    ensures node in t.visiting && s.visiting <= t.visiting && s.visited <= t.visited
  {
    EnterLeaveExtends(s, node, t);
    assert targets[i] in targets;
  }

  lemma ExtendsTransitive(s: State, t: State, u: State)
    requires Extends(s, t) && Extends(t, u)
    ensures Extends(s, u)
  {
  }

  lemma EnterLeaveExtends(s: State, node: string, t: State)
    requires node !in s.visiting && Extends(Entered(s, node), t)
    ensures t.path != [] && t.path[|t.path| - 1] == node && node in t.visiting
    ensures Extends(s, Left(t, node))
  {
    assert t.path == s.path + [node];
  }

  // ----- the order of the findings

  /** At the first position where they differ, `a` has the smaller name. */
  ghost predicate Earlier(a: seq<string>, b: seq<string>) {
    exists i: nat :: DiffersAt(a, b, i)
  }

  predicate DiffersAt(a: seq<string>, b: seq<string>, i: nat) {
    i < |a| && i < |b| && a[..i] == b[..i] && a[i] != b[i] && StringLe(a[i], b[i])
  }

  ghost predicate AllEarlier(trails: seq<seq<string>>, w: seq<string>) {
    forall k :: 0 <= k < |trails| ==> Earlier(trails[k], w)
  }

  ghost predicate AllUpTo(trails: seq<seq<string>>, w: seq<string>) {
    forall k :: 0 <= k < |trails| ==> Earlier(trails[k], w) || w <= trails[k]
  }

  /** A walk from a key, without repeats but for its last node, that ends in the cycle. */
  ghost predicate LeadsTo(graph: Graph, trail: seq<string>, c: seq<string>) {
    && Walk(graph, trail) && 2 <= |c| <= |trail| && trail[|trail| - |c|..] == c
    && trail[0] in graph && Distinct(trail[..|trail| - 1])
  }

  /** The findings stand in the order of the walks that led to them. */
  ghost predicate InOrder(graph: Graph, trails: seq<seq<string>>, failures: seq<seq<string>>) {
    && |trails| == |failures|
    && (forall k :: 0 <= k < |trails| ==> LeadsTo(graph, trails[k], failures[k]))
    && (forall j, k :: 0 <= j < k < |trails| ==> Earlier(trails[j], trails[k]))
  }

  lemma TrailsEnter(trails: seq<seq<string>>, w: seq<string>, t: string)
    requires AllEarlier(trails, w)
    ensures AllEarlier(trails, w + [t]) && AllUpTo(trails, w)
  {
    hide StringLe;
    forall k | 0 <= k < |trails| ensures Earlier(trails[k], w + [t]) {
      var i: nat :| DiffersAt(trails[k], w, i);
      assert (w + [t])[..i] == w[..i];
      assert DiffersAt(trails[k], w + [t], i);
    }
  }

  lemma TrailsLeave(trails: seq<seq<string>>, w: seq<string>, t: string)
    requires AllUpTo(trails, w + [t])
    ensures AllUpTo(trails, w)
  {
    hide StringLe;
    forall k | 0 <= k < |trails| ensures Earlier(trails[k], w) || w <= trails[k] {
      if Earlier(trails[k], w + [t]) {
        var i: nat :| DiffersAt(trails[k], w + [t], i);
        if i < |w| {
          assert (w + [t])[..i] == w[..i];
          assert DiffersAt(trails[k], w, i);
        } else {
          assert (w + [t])[..i] == w;
        }
      } else {
        assert w <= w + [t] <= trails[k];
      }
    }
  }

  lemma TrailsNext(trails: seq<seq<string>>, w: seq<string>, t: string, next: string)
    requires AllUpTo(trails, w + [t]) && t != next && StringLe(t, next)
    ensures AllEarlier(trails, w + [next])
  {
    hide AllUpTo;
    forall k | 0 <= k < |trails| ensures Earlier(trails[k], w + [next]) {
      UpToAt(trails, w + [t], k);
      TrailNext(trails[k], w, t, next);
    }
  }

  lemma UpToAt(trails: seq<seq<string>>, w: seq<string>, k: nat)
    requires AllUpTo(trails, w) && k < |trails|
    ensures Earlier(trails[k], w) || w <= trails[k]
  {
  }

  lemma TrailNext(trail: seq<string>, w: seq<string>, t: string, next: string)
    requires (Earlier(trail, w + [t]) || w + [t] <= trail) && t != next && StringLe(t, next)
    ensures Earlier(trail, w + [next])
  {
    hide StringLe;
    if w + [t] <= trail {
      assert trail[|w|] == (w + [t])[|w|] == t;
      assert trail[..|w|] == (w + [t])[..|w|] == w == (w + [next])[..|w|];
      assert DiffersAt(trail, w + [next], |w|);
    } else {
      var i: nat :| DiffersAt(trail, w + [t], i);
      assert (w + [t])[..i] == (w + [next])[..i];
      if i == |w| {
        NamesBefore(trail[i], t, next);
      }
      assert DiffersAt(trail, w + [next], i);
    }
  }

  lemma NamesBefore(a: string, b: string, c: string)
    requires a != b && StringLe(a, b) && b != c && StringLe(b, c)
    ensures a != c && StringLe(a, c)
  {
    hide StringLe;
    StringOrder();
  }

  lemma TrailAdded(
      graph: Graph, trails: seq<seq<string>>, failures: seq<seq<string>>, trail: seq<string>, c: seq<string>)
    requires InOrder(graph, trails, failures) && AllEarlier(trails, trail) && LeadsTo(graph, trail, c)
    ensures InOrder(graph, trails + [trail], failures + [c]) && AllUpTo(trails + [trail], trail)
  {
    hide Earlier, LeadsTo;
  }

  lemma PathLeads(graph: Graph, universe: set<string>, s: State, node: string, start: nat)
    requires Consistent(graph, universe, s) && Follows(graph, s.path, node) && (s.path + [node])[0] in graph
    requires start < |s.path|
    ensures LeadsTo(graph, s.path + [node], s.path[start..] + [node])
  {
    hide Settled, AllCycles, Targets;
    var trail := s.path + [node];
    assert trail[..|trail| - 1] == s.path;
    forall i | 0 <= i < |trail| - 1 ensures trail[i + 1] in Targets(graph, trail[i]) {
      assert trail[i] == s.path[i];
    }
    assert trail[start..] == s.path[start..] + [node];
  }

  // ----- no edge closes two findings

  /** The walk on which each node was entered: the path ends in it, and each trail goes on from it. */
  ghost predicate Entries(entries: map<string, seq<string>>, s: State, trails: seq<seq<string>>) {
    && entries.Keys == s.visiting + s.visited
    && (forall n :: 1 <= n <= |s.path| ==> EntryOf(entries, s.path[..n]))
    && (forall k :: 0 <= k < |trails| ==> |trails[k]| >= 2 && EntryOf(entries, trails[k][..|trails[k]| - 1]))
  }

  predicate EntryOf(entries: map<string, seq<string>>, w: seq<string>) {
    w != [] && w[|w| - 1] in entries && entries[w[|w| - 1]] == w
  }

  lemma EntryAdded(entries: map<string, seq<string>>, s: State, trails: seq<seq<string>>, node: string)
    requires Entries(entries, s, trails) && node !in s.visiting && node !in s.visited
    ensures Entries(entries[node := s.path + [node]], Entered(s, node), trails)
  {
    var more, t := entries[node := s.path + [node]], Entered(s, node);
    forall n | 1 <= n <= |t.path| ensures EntryOf(more, t.path[..n]) {
      if n <= |s.path| {
        assert t.path[..n] == s.path[..n];
        assert EntryOf(entries, s.path[..n]);
      } else {
        assert t.path[..n] == t.path;
      }
    }
  }

  lemma EntryLeft(entries: map<string, seq<string>>, s: State, trails: seq<seq<string>>, node: string)
    requires Entries(entries, s, trails) && s.path != [] && node in s.visiting
    ensures Entries(entries, Left(s, node), trails)
  {
    var t := Left(s, node);
    assert t.visiting + t.visited == s.visiting + s.visited;
    forall n | 1 <= n <= |t.path| ensures EntryOf(entries, t.path[..n]) {
      assert t.path[..n] == s.path[..n];
    }
  }

  lemma EntryTrail(
      entries: map<string, seq<string>>, s: State, trails: seq<seq<string>>, node: string, failures: seq<seq<string>>)
    requires Entries(entries, s, trails) && s.path != []
    ensures Entries(entries, s.(failures := failures), trails + [s.path + [node]])
  {
    var trail := s.path + [node];
    assert trail[..|trail| - 1] == s.path == s.path[..|s.path|];
    assert EntryOf(entries, s.path[..|s.path|]);
  }

  /** The last edge of a finding. */
  function ClosingOf(c: seq<string>): (string, string)
    requires |c| >= 2
  {
    (c[|c| - 2], c[|c| - 1])
  }

  ghost predicate ClosedOnce(failures: seq<seq<string>>) {
    && (forall k :: 0 <= k < |failures| ==> |failures[k]| >= 2)
    && (forall j, k :: 0 <= j < k < |failures| ==> ClosingOf(failures[j]) != ClosingOf(failures[k]))
  }

  lemma EachClosedOnce(
      graph: Graph, entries: map<string, seq<string>>, s: State, trails: seq<seq<string>>)
    requires InOrder(graph, trails, s.failures) && Entries(entries, s, trails)
    ensures ClosedOnce(s.failures)
  {
    hide Earlier;
    var failures := s.failures;
    forall k | 0 <= k < |failures| ensures |failures[k]| >= 2 {
      assert LeadsTo(graph, trails[k], failures[k]);
    }
    forall j, k | 0 <= j < k < |failures| ensures ClosingOf(failures[j]) != ClosingOf(failures[k]) {
      assert LeadsTo(graph, trails[j], failures[j]) && LeadsTo(graph, trails[k], failures[k]);
      if ClosingOf(failures[j]) == ClosingOf(failures[k]) {
        TrailEnds(graph, trails[j], failures[j]);
        TrailEnds(graph, trails[k], failures[k]);
        SameTrail(entries, trails[j], trails[k]);
        NotEarlier(trails[j]);
        assert false;
      }
    }
  }

  lemma TrailEnds(graph: Graph, trail: seq<string>, c: seq<string>)
    requires LeadsTo(graph, trail, c)
    ensures ClosingOf(trail) == ClosingOf(c)
  {
    hide Walk, Distinct;
    assert c == trail[|trail| - |c|..];
  }

  lemma SameTrail(entries: map<string, seq<string>>, a: seq<string>, b: seq<string>)
    requires |a| >= 2 && |b| >= 2 && ClosingOf(a) == ClosingOf(b)
    requires EntryOf(entries, a[..|a| - 1]) && EntryOf(entries, b[..|b| - 1])
    ensures a == b
  {
    assert a == a[..|a| - 1] + [a[|a| - 1]] && b == b[..|b| - 1] + [b[|b| - 1]];
  }

  lemma NotEarlier(w: seq<string>)
    ensures !Earlier(w, w)
  {
  }

  lemma AscendingAt(names: seq<string>, i: nat)
    requires Ascending(names) && i + 1 < |names|
    ensures names[i] != names[i + 1] && StringLe(names[i], names[i + 1])
  {
  }

  method SortedNames(names: set<string>) returns (r: seq<string>)
    ensures Lists(r, names) && Ascending(r)
  {
    StringOrder();
    SortedLists(names, StringLe);
    r := Sorted(names, StringLe);
  }

  class Search {
    const graph: Graph
    var visiting: set<string>
    var visited: set<string>
    var path: seq<string>
    var failures: seq<seq<string>>
    ghost var finished: seq<string>
    ghost var trails: seq<seq<string>>
    ghost var entries: map<string, seq<string>>

    ghost function Now(): State
      reads this
    {
      State(visiting, visited, path, failures, finished)
    }

    constructor (graph: Graph)
      ensures this.graph == graph && Now() == State({}, {}, [], [], []) && trails == [] && entries == map[]
    {
      this.graph := graph;
      trails, entries := [], map[];
      visiting, visited, path, failures, finished := {}, {}, [], [], [];
    }

    method IndexOf(node: string) returns (start: nat)
      requires node in path
      ensures start < |path| && path[start] == node && node !in path[..start]
    {
      start := 0;
      while path[start] != node
        invariant start < |path| && node in path[start..] && node !in path[..start]
        decreases |path| - start
      {
        start := start + 1;
      }
    }

    /** The search stands in a state it can be in, with its findings in order. */
    ghost predicate Sound(universe: set<string>)
      reads this
    {
      && Consistent(graph, universe, Now())
      && InOrder(graph, trails, failures) && Entries(entries, Now(), trails)
    }

    /** Afterwards `node` is finished, or the edge that led to it closes a cycle that was recorded. */
    method Visit(node: string, ghost universe: set<string>)
      requires Universe(graph, universe) && Sound(universe)
      requires node in universe && Follows(graph, path, node) && (path + [node])[0] in graph
      requires AllEarlier(trails, path + [node])
      modifies this
      ensures Sound(universe) && Extends(old(Now()), Now())
      ensures node in visited || (path != [] && Closes(failures, path[|path| - 1], node))
      ensures AllUpTo(trails, path + [node])
      decreases universe - visiting - visited
    {
      hide Sound, Universe, Closes, Targets, Ascending, ExploredUpTo, Extends, Explored, AllEarlier, AllUpTo, StringLe;
      ghost var start, w := Now(), path + [node];
      TrailsEnter(trails, w, "");
      ExtendsSelf(start);
      if node in visited {
        return;
      }
      if node in visiting {
        Report(node, universe);
        return;
      }
      ghost var white := universe - visiting - visited;
      TargetsKnown(graph, universe, node);
      EnterNode(node, universe);
      var targets := SortedNames(Targets(graph, node));
      ExtendsSelf(Now());
      ExploredNone(Now(), node, targets);
      if targets != [] {
        TrailsEnter(trails, w, targets[0]);
      }
      for i := 0 to |targets|
        invariant Sound(universe) && Extends(Entered(start, node), Now()) && path == w
        invariant ExploredUpTo(Now(), node, targets, i) && AllUpTo(trails, w)
        invariant i < |targets| ==> AllEarlier(trails, w + [targets[i]])
      {
        ghost var before := Now();
        NextTarget(graph, start, node, before, targets, i);
        assert universe - visiting - visited < white by { assert node in white && node in visiting; }
        Visit(targets[i], universe);
        ExtendsTransitive(Entered(start, node), before, Now());
        EnterLeaveExtends(start, node, Now());
        ExploredNext(before, Now(), node, targets, i);
        TrailsLeave(trails, w, targets[i]);
        if i + 1 < |targets| {
          AscendingAt(targets, i);
          TrailsNext(trails, w, targets[i], targets[i + 1]);
        }
      }
      EnterLeaveExtends(start, node, Now());
      ExploredAll(graph, Now(), node, targets);
      LeaveNode(node, universe);
    }

    method EnterNode(node: string, ghost universe: set<string>)
      requires Sound(universe) && Follows(graph, path, node)
      requires node in universe && node !in visiting && node !in visited
      modifies this
      ensures Sound(universe) && Now() == Entered(old(Now()), node) && trails == old(trails)
    {
      hide Consistent, InOrder, Entries;
      EnterKeeps(graph, universe, Now(), node);
      EntryAdded(entries, Now(), trails, node);
      entries := entries[node := path + [node]];
      visiting := visiting + {node};
      path := path + [node];
    }

    method LeaveNode(node: string, ghost universe: set<string>)
      requires Sound(universe) && node in visiting && path != [] && path[|path| - 1] == node
      requires Explored(graph, Now(), node)
      modifies this
      ensures Sound(universe) && Now() == Left(old(Now()), node) && trails == old(trails)
    {
      hide Consistent, InOrder, Entries, Explored;
      LeaveKeeps(graph, universe, Now(), node);
      EntryLeft(entries, Now(), trails, node);
      path := path[..|path| - 1];
      visiting := visiting - {node};
      visited := visited + {node};
      finished := finished + [node];
    }

    /** Records the part of the path from the node on. */
    method Report(node: string, ghost universe: set<string>)
      requires Sound(universe) && Follows(graph, path, node) && node in visiting
      requires (path + [node])[0] in graph && AllEarlier(trails, path + [node])
      modifies `failures, `trails
      ensures Sound(universe) && Extends(old(Now()), Now())
      ensures path != [] && Closes(failures, path[|path| - 1], node)
      ensures AllUpTo(trails, path + [node])
    {
      hide Consistent, Closes, InOrder, AllEarlier, AllUpTo, LeadsTo, Entries;
      PathHolds(graph, universe, Now(), node);
      var start := IndexOf(node);
      ReportKeeps(graph, universe, Now(), node, start);
      PathLeads(graph, universe, Now(), node, start);
      TrailAdded(graph, trails, failures, path + [node], path[start..] + [node]);
      EntryTrail(entries, Now(), trails, node, failures + [path[start..] + [node]]);
      trails := trails + [path + [node]];
      failures := failures + [path[start..] + [node]];
    }
  }

  ghost function Nodes(graph: Graph): set<string> {
    graph.Keys + set node, b | node in graph && b in graph[node] :: b
  }

  /**
    Each path reported is a cycle of the graph; each closed walk of the graph contains the
    closing edge of a reported cycle; so nothing is reported exactly when the graph is acyclic.
    The reports stand in the lexicographic order of the walks, each from a key of the graph,
    that led to them, and no edge closes two of them.
   */
  method CycleFailures(graph: Graph) returns (failures: seq<seq<string>>, ghost trails: seq<seq<string>>)
    ensures AllCycles(graph, failures)
    ensures forall w :: ClosedWalk(graph, w) ==> IsCut(failures, w)
    ensures failures == [] <==> Acyclic(graph)
    ensures InOrder(graph, trails, failures)
    ensures ClosedOnce(failures)
  {
    hide Entries, ClosedOnce;
    hide Consistent, Universe, Closes, StringLe, ClosedWalk, AllCycles, Ascending, AllEarlier, AllUpTo, InOrder;
    var search := new Search(graph);
    ghost var universe := Nodes(graph);
    StartConsistent(graph);
    var nodes := SortedNames(graph.Keys);
    NoTrails(graph, if nodes == [] then [] else [] + [nodes[0]]);
    for i := 0 to |nodes|
      invariant search.graph == graph && fresh(search)
      invariant search.Sound(universe) && search.path == []
      invariant forall k :: 0 <= k < i ==> nodes[k] in search.visited
      invariant i < |nodes| ==> AllEarlier(search.trails, [] + [nodes[i]])
    {
      assert nodes[i] in nodes;
      search.Visit(nodes[i], universe);
      if i + 1 < |nodes| {
        AscendingAt(nodes, i);
        TrailsNext(search.trails, [], nodes[i], nodes[i + 1]);
      }
    }
    failures, trails := search.failures, search.trails;
    EachClosedOnce(graph, search.entries, search.Now(), trails);
    Conclude(graph, universe, search.Now(), nodes);
  }

  lemma NoTrails(graph: Graph, w: seq<string>)
    ensures InOrder(graph, [], []) && AllEarlier([], w)
    ensures Entries(map[], State({}, {}, [], [], []), [])
  {
  }

  lemma StartConsistent(graph: Graph)
    ensures Universe(graph, Nodes(graph)) && graph.Keys <= Nodes(graph)
    ensures Consistent(graph, Nodes(graph), State({}, {}, [], [], []))
  {
  }

  lemma Conclude(graph: Graph, universe: set<string>, s: State, nodes: seq<string>)
    requires Consistent(graph, universe, s)
    requires Lists(nodes, graph.Keys)
    requires forall k :: 0 <= k < |nodes| ==> nodes[k] in s.visited
    ensures AllCycles(graph, s.failures)
    ensures forall w :: ClosedWalk(graph, w) ==> IsCut(s.failures, w)
    ensures s.failures == [] <==> Acyclic(graph)
  {
    hide ClosedWalk, Settled;
    assert forall node <- graph :: node in s.finished;
    EmptyExactly(graph, s.finished, s.failures);
    forall w | ClosedWalk(graph, w) ensures IsCut(s.failures, w) {
      ClosedWalkIsCut(graph, s.finished, s.failures, w);
    }
  }
}
