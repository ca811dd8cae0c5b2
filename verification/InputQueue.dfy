/**
  The bounded queue between the window procedure and the client. Mouse motion may be
  replaced; key, button, wheel and release transitions may not. When transitions alone fill
  the queue, one overflow marker takes its place and the queue is closed.
 */
module InputQueue {
  import opened Bytes
  import opened Ordering

  const CAPACITY := 64
  const MOUSE_MOVE := 1
  const OVERFLOW := 6

  datatype Event = Event(kind: byte, button: byte, pressed: byte, x: int, y: int, wheel: int, vk: u32)

  const MARKER := Event(OVERFLOW, 0, 0, 0, 0, 0, 0)

  predicate Motion(e: Event) {
    e.kind == MOUSE_MOVE
  }

  datatype State = State(events: seq<Event>, latched: bool)

  /** Index of the first motion in the queue, or its length. */
  function FirstMotion(events: seq<Event>): (i: nat)
    ensures i <= |events| && (i < |events| ==> Motion(events[i]))
  {
    if events == [] || Motion(events[0]) then 0 else 1 + FirstMotion(events[1..])
  }

  function Push(s: State, e: Event): State {
    if s.latched then s
    else if Motion(e) then
      if s.events != [] && Motion(s.events[|s.events| - 1]) then s.(events := s.events[..|s.events| - 1] + [e])
      else if |s.events| < CAPACITY then s.(events := s.events + [e])
      else s
    else if |s.events| >= CAPACITY then
      var i := FirstMotion(s.events);
      if i < |s.events| then s.(events := s.events[..i] + s.events[i + 1..] + [e])
      else State([MARKER], true)
    else s.(events := s.events + [e])
  }

  function Pop(s: State): (State, Option<Event>) {
    if s.events == [] then (s, None) else (s.(events := s.events[1..]), Some(s.events[0]))
  }

  /** Bounded; and once latched, nothing but the marker is left. */
  predicate Inv(s: State) {
    |s.events| <= CAPACITY && (s.latched ==> s.events == [] || s.events == [MARKER])
  }

  // ----- transitions

  function Transitions(events: seq<Event>): (t: seq<Event>)
    ensures |t| <= |events|
  {
    if events == [] then []
    else
      var last := events[|events| - 1];
      Transitions(events[..|events| - 1]) + (if Motion(last) then [] else [last])
  }

  lemma {:induction false} TransitionsConcat(a: seq<Event>, b: seq<Event>)
    ensures Transitions(a + b) == Transitions(a) + Transitions(b)
    decreases |b|
  {
    if b == [] {
      assert a + b == a;
    } else {
      assert (a + b)[..|a + b| - 1] == a + b[..|b| - 1];
      TransitionsConcat(a, b[..|b| - 1]);
    }
  }

  lemma NoTransitions()
    ensures Transitions([]) == []
  {
  }

  lemma TransitionsOne(e: Event)
    ensures Transitions([e]) == if Motion(e) then [] else [e]
  {
    assert [e][..0] == [];
  }

  lemma {:induction false} OnlyTransitions(events: seq<Event>)
    requires FirstMotion(events) == |events|
    ensures Transitions(events) == events
  {
    if events == [] {
    } else {
      OnlyTransitions(events[1..]);
      TransitionsConcat([events[0]], events[1..]);
      TransitionsOne(events[0]);
      assert events == [events[0]] + events[1..];
    }
  }

  lemma {:induction false} MotionLeavesFewer(events: seq<Event>)
    requires FirstMotion(events) < |events|
    ensures |Transitions(events)| < |events|
  {
    hide Transitions;
    var i := FirstMotion(events);
    TransitionsConcat(events[..i], [events[i]]);
    TransitionsConcat(events[..i] + [events[i]], events[i + 1..]);
    TransitionsOne(events[i]);
    assert events == events[..i] + [events[i]] + events[i + 1..];
  }

  lemma RemoveMotion(events: seq<Event>, i: nat)
    requires i < |events| && Motion(events[i])
    ensures Transitions(events[..i] + events[i + 1..]) == Transitions(events)
  {
    hide Transitions;
    TransitionsConcat(events[..i], events[i + 1..]);
    TransitionsConcat(events[..i], [events[i]]);
    TransitionsConcat(events[..i] + [events[i]], events[i + 1..]);
    TransitionsOne(events[i]);
    assert events == events[..i] + [events[i]] + events[i + 1..];
  }

  // ----- refinement: a latching FIFO of transitions

  /** Transitions wait in order; one too many closes the queue for good, with one marker to deliver. */
  datatype Fifo = Waiting(queue: seq<Event>) | Closed(marker: bool)

  function FifoPush(f: Fifo, e: Event): Fifo {
    match f
    case Waiting(queue) => if |queue| < CAPACITY then Waiting(queue + [e]) else Closed(true)
    case Closed(_) => f
  }

  function FifoPop(f: Fifo): (Fifo, Option<Event>) {
    match f
    case Waiting(queue) => if queue == [] then (f, None) else (Waiting(queue[1..]), Some(queue[0]))
    case Closed(marker) => if marker then (Closed(false), Some(MARKER)) else (f, None)
  }

  function Abstract(s: State): Fifo {
    if s.latched then Closed(s.events != []) else Waiting(Transitions(s.events))
  }

  lemma TransitionCount(s: State)
    requires Inv(s) && !s.latched
    ensures |Transitions(s.events)| == CAPACITY <==> |s.events| >= CAPACITY && FirstMotion(s.events) == |s.events|
  {
    if FirstMotion(s.events) == |s.events| {
      OnlyTransitions(s.events);
    } else {
      MotionLeavesFewer(s.events);
    }
  }

  /** A pushed transition does what the FIFO does; a pushed motion leaves the FIFO alone. */
  lemma PushRefines(s: State, e: Event)
    requires Inv(s)
    ensures Inv(Push(s, e))
    ensures Abstract(Push(s, e)) == if Motion(e) then Abstract(s) else FifoPush(Abstract(s), e)
  {
    hide Transitions;
    if !s.latched {
      TransitionsOne(e);
      TransitionsConcat(s.events, [e]);
      TransitionCount(s);
      if Motion(e) {
        if s.events != [] && Motion(s.events[|s.events| - 1]) {
          var last := |s.events| - 1;
          RemoveMotion(s.events, last);
          TransitionsConcat(s.events[..last], [e]);
          assert s.events[..last] + s.events[last + 1..] == s.events[..last];
        }
      } else if |s.events| >= CAPACITY && FirstMotion(s.events) < |s.events| {
        var i := FirstMotion(s.events);
        RemoveMotion(s.events, i);
        TransitionsConcat(s.events[..i] + s.events[i + 1..], [e]);
      }
    }
  }

  /** A pop delivers a motion and leaves the FIFO alone, or delivers what the FIFO delivers. */
  lemma PopRefines(s: State)
    requires Inv(s)
    ensures var (s', e) := Pop(s);
            && Inv(s')
            && (e.Some? && Motion(e.value) ==> Abstract(s') == Abstract(s))
            && (e.Some? && !Motion(e.value) ==> FifoPop(Abstract(s)) == (Abstract(s'), e))
            && (e == None ==> s' == s && FifoPop(Abstract(s)) == (Abstract(s), None))
  {
    hide Transitions;
    if s.events == [] {
      NoTransitions();
    } else {
      TransitionsConcat([s.events[0]], s.events[1..]);
      TransitionsOne(s.events[0]);
      assert s.events == [s.events[0]] + s.events[1..];
    }
  }

  // ----- what is left out

  lemma AppendSubsequence(delivered: seq<Event>, queue: seq<Event>, pushed: seq<Event>, e: Event)
    requires Subsequence(delivered + queue, pushed)
    ensures Subsequence(delivered + (queue + [e]), pushed + [e])
  {
    SubsequenceBoth(delivered + queue, pushed, e);
    assert delivered + (queue + [e]) == delivered + queue + [e];
  }

  lemma ReplaceSubsequence(delivered: seq<Event>, queue: seq<Event>, i: nat, pushed: seq<Event>, e: Event)
    requires Subsequence(delivered + queue, pushed) && i < |queue|
    ensures Subsequence(delivered + (queue[..i] + queue[i + 1..] + [e]), pushed + [e])
  {
    hide Subsequence;
    var all, at, kept := delivered + queue, |delivered| + i, queue[..i] + queue[i + 1..];
    SubsequenceLess(all, at, pushed);
    assert all[..at] + all[at + 1..] == delivered + kept;
    AppendSubsequence(delivered, kept, pushed, e);
  }

  /** What was delivered, then what is queued, stays a subsequence of what was pushed. */
  lemma PushSubsequence(delivered: seq<Event>, s: State, pushed: seq<Event>, e: Event)
    requires !Push(s, e).latched && Subsequence(delivered + s.events, pushed)
    ensures Subsequence(delivered + Push(s, e).events, pushed + [e])
  {
    hide Subsequence;
    var n := |s.events|;
    if Motion(e) {
      if s.events != [] && Motion(s.events[n - 1]) {
        ReplaceSubsequence(delivered, s.events, n - 1, pushed, e);
        assert s.events[..n - 1] + s.events[n..] == s.events[..n - 1];
      } else if n < CAPACITY {
        AppendSubsequence(delivered, s.events, pushed, e);
      } else {
        SubsequenceMore(delivered + s.events, pushed, e);
      }
    } else if n >= CAPACITY {
      ReplaceSubsequence(delivered, s.events, FirstMotion(s.events), pushed, e);
    } else {
      AppendSubsequence(delivered, s.events, pushed, e);
    }
  }

  // ----- whole runs

  datatype Op = Pushes(event: Event) | Pops

  datatype Trace = Trace(state: State, pushed: seq<Event>, delivered: seq<Event>)

  function Step(t: Trace, op: Op): Trace {
    match op
    case Pushes(e) => Trace(Push(t.state, e), t.pushed + [e], t.delivered)
    case Pops =>
      var (s, e) := Pop(t.state);
      Trace(s, t.pushed, if e.Some? then t.delivered + [e.value] else t.delivered)
  }

  function Run(t: Trace, ops: seq<Op>): Trace {
    if ops == [] then t else Step(Run(t, ops[..|ops| - 1]), ops[|ops| - 1])
  }

  const START := Trace(State([], false), [], [])

  /** Until the queue latches: no transition is lost, doubled or reordered, and nothing is made up. */
  predicate Faithful(t: Trace) {
    Inv(t.state) &&
    (!t.state.latched ==>
      && Transitions(t.delivered) + Transitions(t.state.events) == Transitions(t.pushed)
      && Subsequence(t.delivered + t.state.events, t.pushed))
  }

  lemma StepFaithful(t: Trace, op: Op)
    requires Faithful(t)
    ensures Faithful(Step(t, op))
  {
    hide Transitions, Subsequence;
    match op
    case Pushes(e) =>
      PushRefines(t.state, e);
      if !Push(t.state, e).latched {
        PushSubsequence(t.delivered, t.state, t.pushed, e);
        TransitionsConcat(t.pushed, [e]);
        TransitionsOne(e);
      }
    case Pops =>
      PopRefines(t.state);
      if t.state.events != [] {
        MoveOver(t.delivered, t.state.events);
      }
  }

  /** Moving an event from the queue to the delivered ones changes neither sequence as a whole. */
  lemma MoveOver(delivered: seq<Event>, events: seq<Event>)
    requires events != []
    ensures delivered + [events[0]] + events[1..] == delivered + events
    ensures Transitions(delivered + [events[0]]) + Transitions(events[1..]) ==
              Transitions(delivered) + Transitions(events)
  {
    hide Transitions;
    assert delivered + [events[0]] + events[1..] == delivered + events;
    TransitionsConcat(delivered + [events[0]], events[1..]);
    TransitionsConcat(delivered, events);
  }

  lemma {:induction false} RunFaithful(ops: seq<Op>)
    ensures Faithful(Run(START, ops))
  {
    hide Faithful;
    if ops == [] {
      StartFaithful();
    } else {
      RunFaithful(ops[..|ops| - 1]);
      StepFaithful(Run(START, ops[..|ops| - 1]), ops[|ops| - 1]);
    }
  }

  lemma StartFaithful()
    ensures Faithful(START)
  {
    assert Transitions([]) == [];
    assert START.delivered + START.state.events == [];
  }

  /** The FIFO driven by one operation; a pop that delivers a motion does not concern it. */
  function FifoStep(fifo: Fifo, delivered: seq<Event>, op: Op, popped: Option<Event>): (Fifo, seq<Event>) {
    match op
    case Pushes(e) => (if Motion(e) then fifo else FifoPush(fifo, e), delivered)
    case Pops =>
      if popped.Some? && Motion(popped.value) then (fifo, delivered)
      else
        var (rest, e) := FifoPop(fifo);
        (rest, if e.Some? then delivered + [e.value] else delivered)
  }

  function FifoRun(ops: seq<Op>): (Fifo, seq<Event>) {
    if ops == [] then (Waiting([]), [])
    else
      var before := ops[..|ops| - 1];
      var (fifo, delivered) := FifoRun(before);
      FifoStep(fifo, delivered, ops[|ops| - 1], Pop(Run(START, before).state).1)
  }

  lemma StepFollows(t: Trace, op: Op)
    requires Inv(t.state)
    ensures (Abstract(Step(t, op).state), Transitions(Step(t, op).delivered)) ==
            FifoStep(Abstract(t.state), Transitions(t.delivered), op, Pop(t.state).1)
  {
    hide Transitions, Abstract, FifoPush, FifoPop;
    match op
    case Pushes(e) => PushRefines(t.state, e);
    case Pops =>
      PopRefines(t.state);
      var e := Pop(t.state).1;
      if e.Some? {
        TransitionsConcat(t.delivered, [e.value]);
        TransitionsOne(e.value);
        assert Transitions(t.delivered) + [] == Transitions(t.delivered);
      }
  }

  /** Seen without motions, every run is a run of the latching FIFO. */
  lemma {:induction false} FollowsFifo(ops: seq<Op>)
    ensures FifoRun(ops) == (Abstract(Run(START, ops).state), Transitions(Run(START, ops).delivered))
  {
    hide Step, FifoStep, Faithful;
    if ops == [] {
    } else {
      FollowsFifo(ops[..|ops| - 1]);
      RunInv(ops[..|ops| - 1]);
      StepFollows(Run(START, ops[..|ops| - 1]), ops[|ops| - 1]);
    }
  }

  lemma RunInv(ops: seq<Op>)
    ensures Inv(Run(START, ops).state)
  {
    RunFaithful(ops);
  }

  /** The queue latches exactly on the 65th transition that has not been delivered. */
  lemma LatchesExactly(ops: seq<Op>, e: Event)
    ensures var t := Run(START, ops);
            var undelivered := |Transitions(t.pushed)| - |Transitions(t.delivered)|;
            Push(t.state, e).latched <==> t.state.latched || (!Motion(e) && undelivered == CAPACITY)
  {
    hide Transitions, Subsequence;
    RunFaithful(ops);
    var t := Run(START, ops);
    if !t.state.latched {
      TransitionCount(t.state);
    }
  }

  predicate HasPop(ops: seq<Op>) {
    Pops in ops
  }

  /** After the push that latches, the first pop delivers the marker, and nothing else is ever delivered. */
  lemma {:induction false} OnlyTheMarker(t: Trace, ops: seq<Op>)
    requires t.state == State([MARKER], true)
    ensures var t' := Run(t, ops);
            && t'.state == State(if HasPop(ops) then [] else [MARKER], true)
            && t'.delivered == t.delivered + (if HasPop(ops) then [MARKER] else [])
  {
    if ops == [] {
      assert t.delivered + [] == t.delivered;
    } else {
      var before, last := ops[..|ops| - 1], ops[|ops| - 1];
      assert ops == before + [last];
      OnlyTheMarker(t, before);
    }
  }

  // ----- motions are coalesced

  predicate MotionPair(events: seq<Event>, i: nat) {
    i + 1 < |events| && Motion(events[i]) && Motion(events[i + 1])
  }

  ghost predicate Coalesced(events: seq<Event>) {
    forall i: nat :: !MotionPair(events, i)
  }

  lemma PushCoalesces(s: State, e: Event)
    requires Coalesced(s.events)
    ensures Coalesced(Push(s, e).events)
  {
    hide FirstMotion;
    var events, pushed := s.events, Push(s, e).events;
    var at := FirstMotion(events);
    forall i: nat ensures !MotionPair(pushed, i) {
      assert !MotionPair(events, i) && !MotionPair(events, i + 1);
      assert i > 0 ==> !MotionPair(events, i - 1);
    }
  }

  lemma PopCoalesces(s: State)
    requires Coalesced(s.events)
    ensures Coalesced(Pop(s).0.events)
  {
    forall i: nat ensures !MotionPair(Pop(s).0.events, i) {
      assert !MotionPair(s.events, i + 1);
    }
  }

  /** In every reachable state no two motions stand next to each other in the queue. */
  lemma {:induction false} RunCoalesces(ops: seq<Op>)
    ensures Coalesced(Run(START, ops).state.events)
  {
    hide Coalesced, Push, Pop;
    if ops == [] {
      StartCoalesced();
    } else {
      var before := Run(START, ops[..|ops| - 1]);
      RunCoalesces(ops[..|ops| - 1]);
      match ops[|ops| - 1]
      case Pushes(e) => PushCoalesces(before.state, e);
      case Pops => PopCoalesces(before.state);
    }
  }

  lemma StartCoalesced()
    ensures Coalesced(START.state.events)
  {
  }

  // ----- the object

  class InputEventQueue {
    var events: seq<Event>
    var overflowLatched: bool

    ghost function Model(): State
      reads this
    {
      State(events, overflowLatched)
    }

    ghost predicate Valid()
      reads this
    {
      Inv(Model())
    }

    constructor ()
      ensures Valid() && Model() == START.state
    {
      events, overflowLatched := [], false;
    }

    method FindMotion() returns (i: nat)
      ensures i == FirstMotion(events)
    {
      i := 0;
      while i < |events| && !Motion(events[i])
        invariant 0 <= i <= |events|
        invariant FirstMotion(events) == i + FirstMotion(events[i..])
      {
        assert events[i..][1..] == events[i + 1..];
        i := i + 1;
      }
    }

    method PushEvent(e: Event)
      requires Valid()
      modifies this
      ensures Valid() && Model() == Push(old(Model()), e)
    {
      hide Inv, FirstMotion, Abstract, Transitions, FifoPush;
      PushRefines(Model(), e);
      if overflowLatched {
        return;
      }
      if e.kind == MOUSE_MOVE {
        if events != [] && events[|events| - 1].kind == MOUSE_MOVE {
          events := events[..|events| - 1] + [e];
        } else if |events| < CAPACITY {
          events := events + [e];
        }
        return;
      }
      if |events| >= CAPACITY {
        var motionAt := FindMotion();
        if motionAt < |events| {
          events := events[..motionAt] + events[motionAt + 1..];
        } else {
          events := [MARKER];
          overflowLatched := true;
          return;
        }
      }
      events := events + [e];
    }

    method PopEvent() returns (e: Option<Event>)
      requires Valid()
      modifies this
      ensures Valid() && (Model(), e) == Pop(old(Model()))
    {
      hide Inv, Abstract, Transitions, FifoPop;
      PopRefines(Model());
      if events == [] {
        return None;
      }
      e := Some(events[0]);
      events := events[1..];
    }
  }
}
