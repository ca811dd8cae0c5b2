/**
  What becomes of every event pushed into the input queue, told from the pushed events and
  what was queued when each was pushed. Before the latch a transition always survives, and a
  motion is missing only if a newer one took its place at the end of the queue, if it met a
  full queue that ends in a transition, or if it was the oldest motion when a transition met
  a full queue.
 */
module MotionFate {
  import opened Bytes
  import opened InputQueue

  /**
    A ledger of positions in `pushed`: what is queued, what was delivered and how many events
    had been pushed by then, and for each push what was queued before it.
   */
  datatype Ledger = Ledger(
    pushed: seq<Event>, queue: seq<nat>, gone: seq<(nat, nat)>, queues: seq<seq<nat>>, closed: bool)

  const EMPTY := Ledger([], [], [], [], false)

  predicate Positions(at: seq<nat>, size: nat) {
    forall i :: 0 <= i < |at| ==> at[i] < size
  }

  function Values(pushed: seq<Event>, at: seq<nat>): (events: seq<Event>)
    requires Positions(at, |pushed|)
    ensures |events| == |at| && forall i :: 0 <= i < |at| ==> events[i] == pushed[at[i]]
  {
    seq(|at|, i requires 0 <= i < |at| => pushed[at[i]])
  }

  function Firsts(gone: seq<(nat, nat)>): (at: seq<nat>)
    ensures |at| == |gone| && forall i :: 0 <= i < |at| ==> at[i] == gone[i].0
  {
    seq(|gone|, i requires 0 <= i < |gone| => gone[i].0)
  }

  /** Everything delivered or still queued, in order. */
  function Out(l: Ledger): seq<nat> {
    Firsts(l.gone) + l.queue
  }

  predicate Increasing(at: seq<nat>) {
    forall i, j :: 0 <= i < j < |at| ==> at[i] < at[j]
  }

  predicate WellFormed(l: Ledger) {
    && |l.queues| == |l.pushed| && Positions(Out(l), |l.pushed|) && Increasing(Out(l))
    && (forall k :: 0 <= k < |l.queues| ==> Positions(l.queues[k], k))
    && (forall k :: 0 <= k < |l.gone| ==> l.gone[k].0 < l.gone[k].1 <= |l.pushed|)
  }

  predicate EndsInMotion(pushed: seq<Event>, queue: seq<nat>)
    requires Positions(queue, |pushed|)
  {
    queue != [] && Motion(pushed[queue[|queue| - 1]])
  }

  lemma QueuePositions(l: Ledger)
    requires WellFormed(l)
    ensures Positions(l.queue, |l.pushed|) && Increasing(l.queue)
  {
    var out := Out(l);
    assert forall i :: 0 <= i < |l.queue| ==> l.queue[i] == out[|l.gone| + i];
  }

  /** The queue, kept by positions. */
  function Enter(l: Ledger, op: Op): Ledger
    requires WellFormed(l)
  {
    QueuePositions(l);
    if l.closed then l
    else
      match op
      case Pops =>
        if l.queue == [] then l else l.(queue := l.queue[1..], gone := l.gone + [(l.queue[0], |l.pushed|)])
      case Pushes(e) =>
        var next := l.(pushed := l.pushed + [e], queues := l.queues + [l.queue]);
        if Motion(e) then
          if EndsInMotion(l.pushed, l.queue) then next.(queue := l.queue[..|l.queue| - 1] + [|l.pushed|])
          else if |l.queue| < CAPACITY then next.(queue := l.queue + [|l.pushed|])
          else next
        else if |l.queue| < CAPACITY then next.(queue := l.queue + [|l.pushed|])
        else
          var i := FirstMotion(Values(l.pushed, l.queue));
          if i < |l.queue| then next.(queue := l.queue[..i] + l.queue[i + 1..] + [|l.pushed|])
          else next.(queue := [], closed := true)
  }

  lemma PopWellFormed(l: Ledger)
    requires WellFormed(l)
    ensures WellFormed(Enter(l, Pops)) && (!l.closed ==> Out(Enter(l, Pops)) == Out(l))
  {
    QueuePositions(l);
    if !l.closed && l.queue != [] {
      assert Out(Enter(l, Pops)) == Out(l);
    }
  }

  predicate Without(queue: seq<nat>, kept: seq<nat>, i: nat) {
    i < |queue| && kept == queue[..i] + queue[i + 1..]
  }

  ghost predicate LacksOne(queue: seq<nat>, kept: seq<nat>) {
    exists i :: Without(queue, kept, i)
  }

  lemma DropAt(all: seq<nat>, some: seq<nat>, at: nat)
    requires Increasing(all) && Without(all, some, at)
    ensures Increasing(some)
    ensures forall k :: 0 <= k < |some| ==> some[k] == (if k < at then all[k] else all[k + 1]) && some[k] != all[at]
    ensures forall k :: 0 <= k < |all| && k != at ==> all[k] in some
  {
    forall k | 0 <= k < |some| ensures some[k] == (if k < at then all[k] else all[k + 1]) {
    }
    forall k | 0 <= k < |all| && k != at ensures all[k] in some {
      assert all[k] == some[if k < at then k else k - 1];
    }
  }

  lemma AppendTop(all: seq<nat>, n: nat)
    requires Increasing(all) && Positions(all, n)
    ensures Increasing(all + [n]) && Positions(all + [n], n + 1)
  {
  }

  lemma OutWithout(gone: seq<nat>, queue: seq<nat>, kept: seq<nat>, i: nat, n: nat)
    requires Increasing(gone + queue) && Positions(gone + queue, n) && Without(queue, kept, i)
    ensures Increasing(gone + kept) && Positions(gone + kept, n)
  {
    var all, some := gone + queue, gone + kept;
    assert some == all[..|gone| + i] + all[|gone| + i + 1..];
    DropAt(all, some, |gone| + i);
  }

  /** The queue after a push: what was kept, which is all but at most one position, and then perhaps the new one. */
  lemma PushKeeps(l: Ledger, e: Event)
    requires WellFormed(l) && !l.closed && !Enter(l, Pushes(e)).closed
    ensures var queue := Enter(l, Pushes(e)).queue;
            || queue == l.queue || queue == l.queue + [|l.pushed|]
            || (queue != [] && queue[|queue| - 1] == |l.pushed| && LacksOne(l.queue, queue[..|queue| - 1]))
  {
    hide FirstMotion, WellFormed;
    QueuePositions(l);
    var queue := Enter(l, Pushes(e)).queue;
    if Motion(e) && EndsInMotion(l.pushed, l.queue) {
      assert Without(l.queue, l.queue[..|l.queue| - 1], |l.queue| - 1);
      assert queue[..|queue| - 1] == l.queue[..|l.queue| - 1];
    } else if !Motion(e) && |l.queue| >= CAPACITY {
      var i := FirstMotion(Values(l.pushed, l.queue));
      assert queue[..|queue| - 1] == l.queue[..i] + l.queue[i + 1..];
      assert Without(l.queue, queue[..|queue| - 1], i);
    }
  }

  lemma PushPositions(l: Ledger, e: Event)
    requires WellFormed(l) && !l.closed && !Enter(l, Pushes(e)).closed
    ensures var out := Firsts(l.gone) + Enter(l, Pushes(e)).queue;
            Increasing(out) && Positions(out, |l.pushed| + 1)
  {
    hide Enter, Increasing;
    var gone, n, queue := Firsts(l.gone), |l.pushed|, Enter(l, Pushes(e)).queue;
    PushKeeps(l, e);
    AppendTop(gone + l.queue, n);
    if queue == l.queue {
    } else if queue == l.queue + [n] {
      assert gone + queue == gone + l.queue + [n];
    } else {
      var kept := queue[..|queue| - 1];
      var i :| Without(l.queue, kept, i);
      OutWithout(gone, l.queue, kept, i, n);
      AppendTop(gone + kept, n);
      assert gone + queue == gone + kept + [n];
    }
  }

  lemma PushFields(l: Ledger, e: Event)
    requires WellFormed(l) && !l.closed
    ensures var l' := Enter(l, Pushes(e));
            && l'.pushed == l.pushed + [e] && l'.queues == l.queues + [l.queue] && l'.gone == l.gone
            && (l'.closed ==> l'.queue == [])
  {
    hide FirstMotion, WellFormed;
  }

  lemma PushWellFormed(l: Ledger, e: Event)
    requires WellFormed(l)
    ensures WellFormed(Enter(l, Pushes(e)))
  {
    hide FirstMotion, Increasing;
    QueuePositions(l);
    if l.closed {
    } else {
      hide Enter;
      var l' := Enter(l, Pushes(e));
      PushFields(l, e);
      if l'.closed {
        GoneIncreasing(Firsts(l.gone), l.queue);
        GonePositions(l);
        assert Out(l') == Firsts(l.gone);
      } else {
        PushPositions(l, e);
      }
    }
  }

  lemma GoneIncreasing(gone: seq<nat>, queue: seq<nat>)
    requires Increasing(gone + queue)
    ensures Increasing(gone)
  {
    assert forall i :: 0 <= i < |gone| ==> gone[i] == (gone + queue)[i];
  }

  lemma EnterWellFormed(l: Ledger, op: Op)
    requires WellFormed(l)
    ensures WellFormed(Enter(l, op))
  {
    hide WellFormed, Enter;
    match op
    case Pops => PopWellFormed(l);
    case Pushes(e) => PushWellFormed(l, e);
  }

  function LedgerOf(ops: seq<Op>): (l: Ledger)
    ensures WellFormed(l)
  {
    if ops == [] then EMPTY
    else
      var before := LedgerOf(ops[..|ops| - 1]);
      EnterWellFormed(before, ops[|ops| - 1]);
      Enter(before, ops[|ops| - 1])
  }

  // ----- the ledger tells what the queue does

  predicate Matches(t: Trace, l: Ledger)
    requires WellFormed(l)
  {
    QueuePositions(l);
    GonePositions(l);
    && t.state.latched == l.closed
    && (!l.closed ==>
         && t.pushed == l.pushed && t.state.events == Values(l.pushed, l.queue)
         && t.delivered == Values(l.pushed, Firsts(l.gone)))
  }

  lemma GonePositions(l: Ledger)
    requires WellFormed(l)
    ensures Positions(Firsts(l.gone), |l.pushed|)
  {
    assert forall i :: 0 <= i < |l.gone| ==> Firsts(l.gone)[i] == Out(l)[i];
  }

  lemma StepMatches(t: Trace, l: Ledger, op: Op)
    requires WellFormed(l) && Matches(t, l)
    ensures WellFormed(Enter(l, op)) && Matches(Step(t, op), Enter(l, op))
  {
    hide Increasing, WellFormed;
    EnterWellFormed(l, op);
    QueuePositions(l);
    GonePositions(l);
    var l' := Enter(l, op);
    QueuePositions(l');
    GonePositions(l');
    match op
    case Pops =>
      if !l.closed && l.queue != [] {
        assert Values(l.pushed, l.queue)[1..] == Values(l.pushed, l.queue[1..]);
        assert Firsts(l'.gone) == Firsts(l.gone) + [l.queue[0]];
        ValuesAppend(l.pushed, Firsts(l.gone), l.queue[0]);
      }
    case Pushes(e) =>
      if !l.closed {
        PushMatches(t, l, e);
      }
  }

  lemma ValuesAppend(pushed: seq<Event>, at: seq<nat>, n: nat)
    requires Positions(at, |pushed|) && n < |pushed|
    ensures Positions(at + [n], |pushed|) && Values(pushed, at + [n]) == Values(pushed, at) + [pushed[n]]
  {
  }

  lemma ValuesMore(pushed: seq<Event>, e: Event, at: seq<nat>)
    requires Positions(at, |pushed|)
    ensures Positions(at, |pushed| + 1) && Values(pushed + [e], at) == Values(pushed, at)
  {
  }

  lemma ValuesWithout(pushed: seq<Event>, at: seq<nat>, i: nat)
    requires Positions(at, |pushed|) && i < |at|
    ensures Positions(at[..i] + at[i + 1..], |pushed|)
    ensures Values(pushed, at[..i] + at[i + 1..]) == Values(pushed, at)[..i] + Values(pushed, at)[i + 1..]
  {
  }

  lemma PushMatches(t: Trace, l: Ledger, e: Event)
    requires WellFormed(l) && Matches(t, l) && !l.closed && WellFormed(Enter(l, Pushes(e)))
    ensures Matches(Step(t, Pushes(e)), Enter(l, Pushes(e)))
  {
    hide Increasing, FirstMotion, WellFormed, Positions, Values;
    var l', queue, n := Enter(l, Pushes(e)), l.queue, |l.pushed|;
    QueuePositions(l);
    GonePositions(l);
    QueuePositions(l');
    GonePositions(l');
    PushFields(l, e);
    ValuesMore(l.pushed, e, queue);
    ValuesMore(l.pushed, e, Firsts(l.gone));
    ValuesAppend(l'.pushed, queue, n);
    if Motion(e) && EndsInMotion(l.pushed, queue) {
      assert queue[..|queue| - 1] + queue[|queue|..] == queue[..|queue| - 1];
      ValuesWithout(l'.pushed, queue, |queue| - 1);
      ValuesAppend(l'.pushed, queue[..|queue| - 1], n);
    } else if !Motion(e) && |queue| >= CAPACITY && !l'.closed {
      var i := FirstMotion(Values(l.pushed, queue));
      ValuesWithout(l'.pushed, queue, i);
      ValuesAppend(l'.pushed, queue[..i] + queue[i + 1..], n);
    }
  }

  lemma {:induction false} RunMatches(ops: seq<Op>)
    ensures Matches(Run(START, ops), LedgerOf(ops))
  {
    hide Matches, WellFormed, Enter, Step;
    if ops == [] {
      StartMatches();
    } else {
      RunMatches(ops[..|ops| - 1]);
      StepMatches(Run(START, ops[..|ops| - 1]), LedgerOf(ops[..|ops| - 1]), ops[|ops| - 1]);
    }
  }

  lemma StartMatches()
    ensures WellFormed(EMPTY) && Matches(START, EMPTY)
  {
  }

  // ----- fates

  /** When a newer motion was pushed, this one was the last in the queue. */
  predicate Superseded(l: Ledger, n: nat, m: nat)
    requires WellFormed(l)
  {
    && m < |l.pushed| && Motion(l.pushed[m]) && l.queues[m] != [] && l.queues[m][|l.queues[m]| - 1] == n
    && Motion(l.pushed[n])
  }

  /** A motion pushed when the queue was full and ended in a transition. */
  predicate Refused(l: Ledger, n: nat)
    requires WellFormed(l)
  {
    n < |l.pushed| && Motion(l.pushed[n]) && |l.queues[n]| >= CAPACITY && !EndsInMotion(l.pushed[..n], l.queues[n])
  }

  /** When a transition met a full queue, this was the oldest motion in it. */
  predicate Erased(l: Ledger, n: nat, m: nat)
    requires WellFormed(l)
  {
    m < |l.pushed| && !Motion(l.pushed[m]) && |l.queues[m]| >= CAPACITY && OldestMotion(l.pushed[..m], l.queues[m], n)
  }

  predicate OldestMotion(pushed: seq<Event>, queue: seq<nat>, n: nat)
    requires Positions(queue, |pushed|)
  {
    exists i :: 0 <= i < |queue| && queue[i] == n && Motion(pushed[n]) &&
                forall j :: 0 <= j < i ==> !Motion(pushed[queue[j]])
  }

  ghost predicate Lost(l: Ledger, n: nat)
    requires WellFormed(l)
  {
    (exists m :: Superseded(l, n, m)) || Refused(l, n) || (exists m :: Erased(l, n, m))
  }

  /** Every event pushed survives exactly if it did not meet one of the three fates. */
  ghost predicate AllTold(l: Ledger)
    requires WellFormed(l)
  {
    forall n :: 0 <= n < |l.pushed| ==> (n in Out(l) <==> !Lost(l, n))
  }

  /** No newer motion follows before the next transition, up to `end` pushes. */
  predicate NewestUntil(pushed: seq<Event>, n: nat, end: nat)
    requires n < |pushed| && end <= |pushed|
  {
    Motion(pushed[n]) ==>
      forall m :: n < m < end && Motion(pushed[m]) ==> exists k :: n < k < m && !Motion(pushed[k])
  }

  /** Queued motions are newest as of now, delivered ones were when they were delivered. */
  predicate AllNewest(l: Ledger)
    requires WellFormed(l)
  {
    QueuePositions(l);
    && (forall i :: 0 <= i < |l.queue| ==> NewestUntil(l.pushed, l.queue[i], |l.pushed|))
    && (forall k :: 0 <= k < |l.gone| ==> NewestUntil(l.pushed, l.gone[k].0, l.gone[k].1))
  }

  /** The push of `e` costs the queue position `x`. */
  ghost predicate DropsNow(l: Ledger, e: Event, x: nat)
    requires WellFormed(l)
  {
    QueuePositions(l);
    if Motion(e) then EndsInMotion(l.pushed, l.queue) && l.queue[|l.queue| - 1] == x
    else |l.queue| >= CAPACITY && OldestMotion(l.pushed, l.queue, x)
  }

  lemma {:induction false} FirstMotionExactly(events: seq<Event>, i: nat)
    requires i < |events|
    ensures FirstMotion(events) == i <==> Motion(events[i]) && forall j :: 0 <= j < i ==> !Motion(events[j])
  {
    if i == 0 {
    } else {
      FirstMotionExactly(events[1..], i - 1);
      assert forall j :: 0 <= j < i - 1 ==> events[1..][j] == events[j + 1];
    }
  }

  lemma OldestExactly(pushed: seq<Event>, queue: seq<nat>, x: nat)
    requires Positions(queue, |pushed|) && Increasing(queue)
    ensures var i := FirstMotion(Values(pushed, queue));
            OldestMotion(pushed, queue, x) <==> i < |queue| && queue[i] == x
  {
    hide FirstMotion, Increasing;
    var events := Values(pushed, queue);
    var first := FirstMotion(events);
    if first < |queue| {
      FirstMotionExactly(events, first);
    }
    forall i | 0 <= i < |queue| && queue[i] == x && Motion(pushed[x]) &&
               forall j :: 0 <= j < i ==> !Motion(pushed[queue[j]])
      ensures first == i
    {
      FirstMotionExactly(events, i);
    }
  }

  /** What is out after a push that does not close the queue. */
  lemma OutNext(l: Ledger, e: Event, x: nat)
    requires WellFormed(l) && !l.closed && !Enter(l, Pushes(e)).closed && x < |l.pushed|
    ensures x in Out(Enter(l, Pushes(e))) <==> x in Out(l) && !DropsNow(l, e, x)
  {
    hide FirstMotion, WellFormed, OldestMotion;
    QueuePositions(l);
    OldestExactly(l.pushed, l.queue, x);
    var queue, queue' := l.queue, Enter(l, Pushes(e)).queue;
    PushFields(l, e);
    if Motion(e) && EndsInMotion(l.pushed, queue) {
      DroppedAt(l, queue', |queue| - 1, x);
    } else if !Motion(e) && |queue| >= CAPACITY {
      DroppedAt(l, queue', FirstMotion(Values(l.pushed, queue)), x);
    }
  }

  lemma DroppedAt(l: Ledger, queue': seq<nat>, i: nat, x: nat)
    requires WellFormed(l) && i < |l.queue| && x < |l.pushed|
    requires queue' == l.queue[..i] + l.queue[i + 1..] + [|l.pushed|]
    ensures x in Firsts(l.gone) + queue' <==> x in Out(l) && l.queue[i] != x
  {
    hide Increasing;
    var all := Out(l);
    var some := all[..|l.gone| + i] + all[|l.gone| + i + 1..];
    InWithout(all, some, |l.gone| + i, x);
    assert Firsts(l.gone) + queue' == some + [|l.pushed|];
  }

  lemma InWithout(all: seq<nat>, some: seq<nat>, at: nat, x: nat)
    requires Increasing(all) && Without(all, some, at)
    ensures x in some <==> x in all && x != all[at]
  {
    hide Increasing;
    DropAt(all, some, at);
    if x in all && x != all[at] {
      var k :| 0 <= k < |all| && all[k] == x;
    }
  }

  /** What is lost after a push. */
  lemma LostNext(l: Ledger, e: Event, x: nat)
    requires WellFormed(l) && !l.closed && x < |l.pushed|
    requires WellFormed(Enter(l, Pushes(e)))
    ensures Lost(Enter(l, Pushes(e)), x) <==> Lost(l, x) || DropsNow(l, e, x)
  {
    hide Enter, OldestMotion, Increasing;
    var l', n := Enter(l, Pushes(e)), |l.pushed|;
    PushFields(l, e);
    QueuePositions(l);
    SameFates(l, l', e, x);
    if DropsNow(l, e, x) {
      if Motion(e) {
        assert Superseded(l', x, n);
      } else {
        assert Erased(l', x, n);
      }
    }
    forall m: nat | Superseded(l', x, m) ensures Lost(l, x) || DropsNow(l, e, x) {
      if m < n {
        assert Superseded(l, x, m);
      }
    }
    forall m: nat | Erased(l', x, m) ensures Lost(l, x) || DropsNow(l, e, x) {
      if m < n {
        assert Erased(l, x, m);
      }
    }
    if Lost(l, x) {
      if m :| Superseded(l, x, m) {
        assert Superseded(l', x, m);
      } else if !Refused(l, x) {
        var m :| Erased(l, x, m);
        assert Erased(l', x, m);
      }
    }
  }

  /** Fates met before are as they were. */
  lemma SameFates(l: Ledger, l': Ledger, e: Event, x: nat)
    requires WellFormed(l) && WellFormed(l') && x < |l.pushed|
    requires l'.pushed == l.pushed + [e] && l'.queues == l.queues + [l.queue]
    ensures forall m :: 0 <= m < |l.pushed| ==>
              (Superseded(l', x, m) <==> Superseded(l, x, m)) && (Erased(l', x, m) <==> Erased(l, x, m))
    ensures Refused(l', x) <==> Refused(l, x)
    ensures l'.pushed[..|l.pushed|] == l.pushed
  {
    hide OldestMotion;
    forall m | 0 <= m < |l.pushed| ensures l'.pushed[..m] == l.pushed[..m] && l'.queues[m] == l.queues[m] {
    }
    assert l'.pushed[..|l.pushed|] == l.pushed;
  }

  /** The new event itself. */
  lemma NewTold(l: Ledger, e: Event)
    requires WellFormed(l) && !l.closed && !Enter(l, Pushes(e)).closed
    requires WellFormed(Enter(l, Pushes(e)))
    ensures |l.pushed| in Out(Enter(l, Pushes(e))) <==> !Lost(Enter(l, Pushes(e)), |l.pushed|)
  {
    hide FirstMotion, Increasing;
    var l', n := Enter(l, Pushes(e)), |l.pushed|;
    QueuePositions(l);
    PushFields(l, e);
    assert l'.pushed[..n] == l.pushed && l'.queues[n] == l.queue;
    assert n in Out(l') <==> n in l'.queue by { NotGone(l, n); }
    assert Refused(l', n) <==> Motion(e) && |l.queue| >= CAPACITY && !EndsInMotion(l.pushed, l.queue);
    forall m | 0 <= m <= n ensures !Superseded(l', n, m) && !Erased(l', n, m) {
      assert Positions(l'.queues[m], m);
    }
    if n in l'.queue {
      assert !Refused(l', n);
    } else {
      assert l'.queue == l.queue;
    }
  }

  lemma NotGone(l: Ledger, n: nat)
    requires WellFormed(l) && n >= |l.pushed|
    ensures n !in Firsts(l.gone)
  {
    GonePositions(l);
  }

  lemma ToldKept(l: Ledger, op: Op)
    requires WellFormed(l) && AllTold(l)
    ensures WellFormed(Enter(l, op)) && (!Enter(l, op).closed ==> AllTold(Enter(l, op)))
  {
    hide WellFormed, Lost, DropsNow, Out, FirstMotion;
    EnterWellFormed(l, op);
    var l' := Enter(l, op);
    if !l'.closed {
      match op
      case Pops =>
        PopWellFormed(l);
        PopKeepsFates(l);
      case Pushes(e) =>
        PushFields(l, e);
        forall x | 0 <= x < |l'.pushed| ensures x in Out(l') <==> !Lost(l', x) {
          if x < |l.pushed| {
            OutNext(l, e, x);
            LostNext(l, e, x);
          } else {
            NewTold(l, e);
          }
        }
    }
  }

  lemma PopKeepsFates(l: Ledger)
    requires WellFormed(l) && !l.closed && WellFormed(Enter(l, Pops))
    ensures Enter(l, Pops).pushed == l.pushed && Enter(l, Pops).queues == l.queues
    ensures forall x :: 0 <= x < |l.pushed| ==> (Lost(Enter(l, Pops), x) <==> Lost(l, x))
  {
    hide OldestMotion;
    var l' := Enter(l, Pops);
    forall x, m | 0 <= x < |l.pushed|
      ensures (Superseded(l', x, m) <==> Superseded(l, x, m)) && (Erased(l', x, m) <==> Erased(l, x, m))
    {
    }
  }

  // ----- newest

  lemma NewestKept(l: Ledger, op: Op)
    requires WellFormed(l) && AllNewest(l)
    ensures WellFormed(Enter(l, op)) && (!Enter(l, op).closed ==> AllNewest(Enter(l, op)))
  {
    hide NewestUntil, WellFormed;
    EnterWellFormed(l, op);
    QueuePositions(l);
    if !Enter(l, op).closed {
      match op
      case Pops => QueuePositions(Enter(l, op));
      case Pushes(e) => PushNewest(l, e);
    }
  }

  lemma PushNewest(l: Ledger, e: Event)
    requires WellFormed(l) && AllNewest(l) && !l.closed && !Enter(l, Pushes(e)).closed
    requires WellFormed(Enter(l, Pushes(e)))
    ensures AllNewest(Enter(l, Pushes(e)))
  {
    hide Enter, NewestUntil, FirstMotion;
    var l', n := Enter(l, Pushes(e)), |l.pushed|;
    PushFields(l, e);
    QueuePositions(l);
    QueuePositions(l');
    forall k | 0 <= k < |l'.gone| ensures NewestUntil(l'.pushed, l'.gone[k].0, l'.gone[k].1) {
      assert NewestUntil(l.pushed, l.gone[k].0, l.gone[k].1);
      NewestPrefix(l.pushed, e, l.gone[k].0, l.gone[k].1);
    }
    forall i | 0 <= i < |l'.queue| ensures NewestUntil(l'.pushed, l'.queue[i], n + 1) {
      if l'.queue[i] == n {
        NewestLast(l'.pushed);
      } else {
        QueuedBefore(l, e, i);
      }
    }
  }

  lemma NewestPrefix(pushed: seq<Event>, e: Event, n: nat, end: nat)
    requires n < |pushed| && end <= |pushed| && NewestUntil(pushed, n, end)
    ensures NewestUntil(pushed + [e], n, end)
  {
    var more := pushed + [e];
    if Motion(more[n]) {
      forall m | n < m < end && Motion(more[m]) ensures exists k :: n < k < m && !Motion(more[k]) {
        assert Motion(pushed[m]);
        var k :| n < k < m && !Motion(pushed[k]);
        assert !Motion(more[k]);
      }
    }
  }

  lemma NewestLast(pushed: seq<Event>)
    requires pushed != []
    ensures NewestUntil(pushed, |pushed| - 1, |pushed|)
  {
  }

  /** A transition behind a queued motion parts it from the new event, unless the motion is the last and goes. */
  lemma QueuedBefore(l: Ledger, e: Event, i: nat)
    requires WellFormed(l) && AllNewest(l) && !l.closed && !Enter(l, Pushes(e)).closed
    requires i < |Enter(l, Pushes(e)).queue| && Enter(l, Pushes(e)).queue[i] < |l.pushed|
    ensures NewestUntil(l.pushed + [e], Enter(l, Pushes(e)).queue[i], |l.pushed| + 1)
  {
    hide WellFormed, FirstMotion, NewestUntil, Increasing;
    QueuePositions(l);
    var n, queue := |l.pushed|, Enter(l, Pushes(e)).queue;
    var j: nat := if i < |l.queue| && l.queue[i] == queue[i] then i else i + 1;
    assert j < |l.queue| && l.queue[j] == queue[i];
    assert Motion(e) && Motion(l.pushed[queue[i]]) ==> j < |l.queue| - 1 by {
      hide Positions;
      assert Increasing(l.queue);
    }
    if Motion(e) && Motion(l.pushed[queue[i]]) {
      TransitionBehind(l, j);
    }
    assert NewestUntil(l.pushed, l.queue[j], n);
    NewestExtends(l.pushed, e, queue[i]);
  }

  lemma TransitionBehind(l: Ledger, j: nat)
    requires WellFormed(l) && AllNewest(l) && j < |l.queue| - 1
    requires l.queue[j] < |l.pushed| && Motion(l.pushed[l.queue[j]])
    ensures TransitionAfter(l.pushed, l.queue[j])
  {
    QueuePositions(l);
    var x, y := l.queue[j], l.queue[j + 1];
    assert NewestUntil(l.pushed, x, |l.pushed|);
    if Motion(l.pushed[y]) {
      var k :| x < k < y && !Motion(l.pushed[k]);
    }
  }

  predicate TransitionAfter(pushed: seq<Event>, x: nat) {
    exists k :: x < k < |pushed| && !Motion(pushed[k])
  }

  lemma NewestExtends(pushed: seq<Event>, e: Event, x: nat)
    requires x < |pushed| && NewestUntil(pushed, x, |pushed|)
    requires Motion(e) && Motion(pushed[x]) ==> TransitionAfter(pushed, x)
    ensures NewestUntil(pushed + [e], x, |pushed| + 1)
  {
    var more := pushed + [e];
    if Motion(more[x]) {
      forall m | x < m < |more| && Motion(more[m]) ensures exists k :: x < k < m && !Motion(more[k]) {
        if m < |pushed| {
          assert Motion(pushed[m]);
          var k :| x < k < m && !Motion(pushed[k]);
          assert !Motion(more[k]);
        } else {
          var k :| x < k < |pushed| && !Motion(pushed[k]);
          assert !Motion(more[k]);
        }
      }
    }
  }

  // ----- every run

  /** No transition pushed before `m` came after the last event then queued. */
  predicate EndIsLatest(l: Ledger, m: nat)
    requires WellFormed(l)
  {
    m < |l.pushed| && l.queues[m] != [] ==>
      forall k :: l.queues[m][|l.queues[m]| - 1] < k < m ==> Motion(l.pushed[k])
  }

  predicate AllEndsLatest(l: Ledger)
    requires WellFormed(l)
  {
    forall m :: 0 <= m < |l.pushed| ==> EndIsLatest(l, m)
  }

  lemma EndLatestNow(l: Ledger, k: nat)
    requires WellFormed(l) && AllTold(l) && l.queue != [] && l.queue[|l.queue| - 1] < k < |l.pushed|
    ensures Motion(l.pushed[k])
  {
    var out := Out(l);
    assert out[|out| - 1] == l.queue[|l.queue| - 1];
    assert k !in out;
  }

  lemma EndsKept(l: Ledger, op: Op)
    requires WellFormed(l) && AllTold(l) && AllEndsLatest(l) && WellFormed(Enter(l, op)) && !l.closed
    ensures AllEndsLatest(Enter(l, op))
  {
    hide Increasing, AllTold, FirstMotion;
    var l' := Enter(l, op);
    match op
    case Pops =>
      forall m | 0 <= m < |l'.pushed| ensures EndIsLatest(l', m) {
        assert EndIsLatest(l, m);
      }
    case Pushes(e) =>
      hide Enter;
      PushFields(l, e);
      forall m | 0 <= m < |l'.pushed| ensures EndIsLatest(l', m) {
        if m < |l.pushed| {
          assert EndIsLatest(l, m);
        } else if l.queue != [] {
          forall k | l.queue[|l.queue| - 1] < k < m ensures Motion(l'.pushed[k]) {
            EndLatestNow(l, k);
          }
        }
      }
  }

  lemma {:induction false} RunTold(ops: seq<Op>)
    ensures !LedgerOf(ops).closed ==> AllTold(LedgerOf(ops)) && AllNewest(LedgerOf(ops)) && AllEndsLatest(LedgerOf(ops))
  {
    hide AllTold, AllNewest, AllEndsLatest, WellFormed, Enter;
    if ops == [] {
      StartTold();
    } else {
      var before := LedgerOf(ops[..|ops| - 1]);
      RunTold(ops[..|ops| - 1]);
      if before.closed {
        StaysClosed(before, ops[|ops| - 1]);
      } else {
        ToldKept(before, ops[|ops| - 1]);
        NewestKept(before, ops[|ops| - 1]);
        EndsKept(before, ops[|ops| - 1]);
      }
    }
  }

  lemma StaysClosed(l: Ledger, op: Op)
    requires WellFormed(l) && l.closed
    ensures Enter(l, op).closed
  {
  }

  lemma StartTold()
    ensures AllTold(EMPTY) && AllNewest(EMPTY) && AllEndsLatest(EMPTY)
  {
  }

  /**
    Every run that is not latched: what was delivered, and then what is queued, are the
    pushed events at increasing positions; a pushed event is among them exactly if none of
    the three fates met it; and a motion among them is the newest of its stretch.
   */
  lemma {:induction false} EveryEventTold(ops: seq<Op>)
    requires !Run(START, ops).state.latched
    ensures var t, l := Run(START, ops), LedgerOf(ops);
            && t.pushed == l.pushed && Positions(Out(l), |t.pushed|) && Increasing(Out(l))
            && t.delivered + t.state.events == Values(t.pushed, Out(l))
            && AllTold(l) && AllNewest(l)
  {
    hide AllTold, AllNewest, AllEndsLatest, Increasing;
    RunMatches(ops);
    RunTold(ops);
    var l := LedgerOf(ops);
    QueuePositions(l);
    GonePositions(l);
    assert Values(l.pushed, Firsts(l.gone)) + Values(l.pushed, l.queue) == Values(l.pushed, Out(l));
  }

  /** What the ledger holds as the queue before a push is the queue of the run so far. */
  lemma {:induction false} QueueBefore(ops: seq<Op>, k: nat)
    requires k < |ops| && ops[k].Pushes? && !Run(START, ops[..k]).state.latched
    ensures var t, l := Run(START, ops[..k]), LedgerOf(ops);
            && |t.pushed| < |l.pushed| && l.pushed[..|t.pushed|] == t.pushed && l.pushed[|t.pushed|] == ops[k].event
            && Positions(l.queues[|t.pushed|], |t.pushed|)
            && t.state.events == Values(t.pushed, l.queues[|t.pushed|])
  {
    hide Increasing, Enter, Step;
    var t, before := Run(START, ops[..k]), LedgerOf(ops[..k]);
    RunMatches(ops[..k]);
    QueuePositions(before);
    if k == |ops| - 1 {
      PushFields(before, ops[k].event);
    } else {
      var last := |ops| - 1;
      assert ops[..last][..k] == ops[..k];
      QueueBefore(ops[..last], k);
      EnterGrows(LedgerOf(ops[..last]), ops[last]);
    }
  }

  lemma EnterGrows(l: Ledger, op: Op)
    requires WellFormed(l)
    ensures l.pushed <= Enter(l, op).pushed && l.queues <= Enter(l, op).queues
  {
    hide FirstMotion, WellFormed;
  }

  /** The newest motion of a stretch is missing only if a full queue refused it or gave it up for a transition. */
  lemma {:induction false} NewestMissing(ops: seq<Op>, n: nat)
    requires !Run(START, ops).state.latched && n < |Run(START, ops).pushed|
    requires NewestUntil(Run(START, ops).pushed, n, |Run(START, ops).pushed|)
    ensures var l := LedgerOf(ops); n in Out(l) || Refused(l, n) || exists m :: Erased(l, n, m)
  {
    hide Increasing, Out, Refused, Erased, Enter, Step;
    RunMatches(ops);
    RunTold(ops);
    var l := LedgerOf(ops);
    hide AllEndsLatest, Superseded, NewestUntil;
    if m: nat :| Superseded(l, n, m) {
      NotTheNewest(l, n, m);
    }
  }

  lemma NotTheNewest(l: Ledger, n: nat, m: nat)
    requires WellFormed(l) && AllEndsLatest(l) && Superseded(l, n, m)
    ensures n < |l.pushed| && !NewestUntil(l.pushed, n, |l.pushed|)
  {
    assert EndIsLatest(l, m);
  }

  /** A motion pushed into an open queue ends it, unless 64 events are queued and the last is a transition. */
  lemma {:induction false} NewestQueued(ops: seq<Op>, e: Event)
    requires !Run(START, ops).state.latched && Motion(e)
    ensures var before, after := Run(START, ops).state, Run(START, ops + [Pushes(e)]).state;
            var full := |before.events| == CAPACITY && !Motion(before.events[CAPACITY - 1]);
            && !after.latched
            && (full ==> after.events == before.events)
            && (!full ==> after.events != [] && after.events[|after.events| - 1] == e)
  {
    hide FirstMotion;
    assert (ops + [Pushes(e)])[..|ops|] == ops;
    RunInv(ops);
  }
}
