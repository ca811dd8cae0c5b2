/**
  What the viewer puts on the wire over whole runs, told from the steps: when its queue folds
  into a snapshot, which motions get through, and that nothing else is added or left out.
 */
module ViewerWire {
  import opened Bytes
  import opened Input
  import opened Ordering
  import opened Viewer

  // ----- the overflow

  /** Some discrete event met 256 pending ones. */
  ghost predicate Overflowed(steps: seq<Step>) {
    exists n :: 0 <= n < |steps| && Overflows(Run(START, steps[..n]), steps[n])
  }

  predicate Overflows(s: State, step: Step) {
    step.Discrete? && IsDiscrete(step.event) && |s.pending| >= 256
  }

  /** The queue is folded into a snapshot exactly if a discrete event meets 256 pending ones. */
  lemma {:induction false} CoalescesExactly(steps: seq<Step>)
    ensures Run(START, steps).coalesced <==> Overflowed(steps)
  {
    hide Overflows, ApplyHeld, PushPending, Transmit;
    if steps == [] {
    } else {
      var before, last := steps[..|steps| - 1], |steps| - 1;
      var s := Run(START, before);
      CoalescesExactly(before);
      OverflowNext(steps);
      StepCoalesces(s, steps[last]);
    }
  }

  lemma StepCoalesces(s: State, step: Step)
    ensures Next(s, step).coalesced <==> s.coalesced || Overflows(s, step)
  {
  }

  lemma OverflowNext(steps: seq<Step>)
    requires steps != []
    ensures var before, last := steps[..|steps| - 1], |steps| - 1;
            Overflowed(steps) <==> Overflowed(before) || Overflows(Run(START, before), steps[last])
  {
    hide Overflows, Run;
    var before, last := steps[..|steps| - 1], |steps| - 1;
    assert forall n :: 0 <= n <= last ==> before[..n] == steps[..n];
    if Overflowed(before) {
      var n :| 0 <= n < |before| && Overflows(Run(START, before[..n]), before[n]);
      assert Overflows(Run(START, steps[..n]), steps[n]);
    }
    if Overflowed(steps) {
      var n :| 0 <= n < |steps| && Overflows(Run(START, steps[..n]), steps[n]);
      if n < last {
        assert Overflows(Run(START, before[..n]), before[n]);
      }
    }
  }

  // ----- nothing is added or left out on the way to the wire

  /** Keys, buttons and motions, without snapshots and releases. */
  function Plain(events: seq<InputEvent>): seq<InputEvent> {
    if events == [] then []
    else
      var last := events[|events| - 1];
      Plain(events[..|events| - 1]) + (if last.Snapshot? || last.ReleaseAll? then [] else [last])
  }

  lemma PlainAppend(events: seq<InputEvent>, e: InputEvent)
    ensures Plain(events + [e]) == Plain(events) + (if e.Snapshot? || e.ReleaseAll? then [] else [e])
  {
    assert (events + [e])[..|events|] == events;
  }

  /** What the network task took from the channel. */
  function TakenOf(s: State): seq<InputEvent> {
    if |s.channel| <= |s.accepted| then s.accepted[..|s.accepted| - |s.channel|] else []
  }

  lemma TakenNext(s: State, step: Step)
    requires NetBehind(s)
    ensures TakenOf(Next(s, step)) ==
            if step.Receive? && s.running && s.channel != [] then TakenOf(s) + [s.channel[0]] else TakenOf(s)
  {
    hide Fold, ApplyHeld, PushPending;
    if step.Receive? && s.running && s.channel != [] {
      var taken := |s.accepted| - |s.channel|;
      assert s.accepted[taken] == s.accepted[taken..][0];
    }
  }

  lemma WireNext(s: State, step: Step)
    ensures Plain(Events(Next(s, step).wire)) == Plain(Events(s.wire)) +
            if step.Receive? && s.running && s.channel != [] then Plain([s.channel[0]]) else []
  {
    hide Events, Plain, ApplyHeld, PushPending;
    PlainNothing();
    match step
    case Receive =>
      if s.running && s.channel != [] {
        WireAppend(s, s.channel[0]);
      }
    case Tick => WireAppend(s, Snapshot(s.netHeld));
    case Stop(_) => WireAppend(s, ReleaseAll);
    case _ =>
  }

  lemma PlainNothing()
    ensures Plain([]) == []
  {
  }

  lemma WireAppend(s: State, e: InputEvent)
    ensures Plain(Events(s.wire + [Message(Bump(s.sequence), e)])) == Plain(Events(s.wire)) + Plain([e])
    ensures e.Snapshot? || e.ReleaseAll? ==> Plain([e]) == []
  {
    hide Events, Plain;
    EventsAppend(s.wire, Bump(s.sequence), e);
    PlainAppend(Events(s.wire), e);
    PlainAppend([], e);
    PlainNothing();
    assert [] + [e] == [e];
  }

  /** Over every run: snapshots and releases apart, the wire carries what the network task took, once and in order. */
  lemma {:induction false} WireCarriesTaken(steps: seq<Step>)
    ensures var s := Run(START, steps); Plain(Events(s.wire)) == Plain(TakenOf(s))
  {
    hide Next, Events, Plain, NetBehind, TakenOf;
    if steps == [] {
      NothingCarried();
    } else {
      var before, step := steps[..|steps| - 1], steps[|steps| - 1];
      var s := Run(START, before);
      WireCarriesTaken(before);
      RunKeeps(before);
      TakenNext(s, step);
      WireNext(s, step);
      if step.Receive? && s.running && s.channel != [] {
        PlainAppend(TakenOf(s), s.channel[0]);
        PlainAppend([], s.channel[0]);
        PlainNothing();
        assert [] + [s.channel[0]] == [s.channel[0]];
      }
    }
  }

  lemma NothingCarried()
    ensures Plain(Events(START.wire)) == Plain(TakenOf(START))
  {
  }

  /** Every tick sends a snapshot of what a receiver of all messages so far would hold. */
  lemma {:induction false} TickSends(steps: seq<Step>)
    requires Run(START, steps).running
    ensures var s, t := Run(START, steps), Run(START, steps + [Tick]);
            Events(t.wire) == Events(s.wire) + [Snapshot(Fold(RELEASED, Events(s.wire)))]
  {
    hide Fold, Events, Run;
    RunKeeps(steps);
    var s := Run(START, steps);
    RunLast(steps, Tick);
    EventsAppend(s.wire, Bump(s.sequence), Snapshot(s.netHeld));
  }

  lemma RunLast(steps: seq<Step>, step: Step)
    ensures Run(START, steps + [step]) == Next(Run(START, steps), step)
  {
    assert (steps + [step])[..|steps|] == steps;
  }

  // ----- motions

  /** The absolute motions of the UI, in order. */
  function Moves(steps: seq<Step>): seq<InputEvent> {
    if steps == [] then []
    else
      var step := steps[|steps| - 1];
      Moves(steps[..|steps| - 1]) + (if step.Move? && step.event.MotionAbsolute? then [step.event] else [])
  }

  function Motions(events: seq<InputEvent>): seq<InputEvent> {
    if events == [] then []
    else
      var last := events[|events| - 1];
      Motions(events[..|events| - 1]) + (if last.MotionAbsolute? then [last] else [])
  }

  lemma MotionsAppend(events: seq<InputEvent>, e: InputEvent)
    ensures Motions(events + [e]) == Motions(events) + (if e.MotionAbsolute? then [e] else [])
  {
    assert (events + [e])[..|events|] == events;
  }

  function Waiting(s: State): seq<InputEvent> {
    if s.motion.Some? then [s.motion.value] else []
  }

  /**
    The motions that got into the channel, and the one that waits, are some of the moves, in
    order and none twice; and while the viewer runs, the last of them is the newest move.
   */
  predicate MotionsTold(moves: seq<InputEvent>, s: State) {
    var told := Motions(s.accepted) + Waiting(s);
    && Subsequence(told, moves)
    && (s.running && moves != [] ==> told != [] && told[|told| - 1] == moves[|moves| - 1])
  }

  lemma MoveTold(moves: seq<InputEvent>, s: State, e: InputEvent)
    requires MotionsTold(moves, s) && e.MotionAbsolute?
    ensures MotionsTold(moves + [e], s.(motion := Some(e)))
  {
    hide Subsequence, Motions;
    DropWaiting(moves, s);
    SubsequenceBoth(Motions(s.accepted), moves, e);
  }

  lemma DropWaiting(moves: seq<InputEvent>, s: State)
    requires MotionsTold(moves, s)
    ensures Subsequence(Motions(s.accepted), moves)
  {
    hide Subsequence, Motions;
    var sent := Motions(s.accepted);
    var told := sent + Waiting(s);
    if s.motion.Some? {
      SubsequenceLess(told, |sent|, moves);
      assert told[..|sent|] + told[|sent| + 1..] == sent;
    } else {
      assert told == sent;
    }
  }

  lemma NextTold(moves: seq<InputEvent>, s: State, step: Step)
    requires MotionsTold(moves, s) && Bounded(s)
    ensures var moved := step.Move? && step.event.MotionAbsolute?;
            MotionsTold(moves + (if moved then [step.event] else []), Next(s, step))
  {
    hide Subsequence, Motions, ApplyHeld, PushPending, Numbered;
    assert moves + [] == moves;
    match step
    case Move(e) =>
      if e.MotionAbsolute? {
        MoveTold(moves, s, e);
      }
    case SendReliable =>
      if s.pending != [] {
        MotionsAppend(s.accepted, s.pending[0]);
        assert Motions(s.accepted) + [] == Motions(s.accepted);
      }
    case SendMotion =>
      if s.motion.Some? {
        MotionsAppend(s.accepted, s.motion.value);
        DropWaiting(moves, s);
        assert Motions(s.accepted) + [] == Motions(s.accepted);
        assert Motions(s.accepted) + [s.motion.value] + [] == Motions(s.accepted) + [s.motion.value];
      }
    case _ =>
  }

  lemma {:induction false} NewestMotionKept(steps: seq<Step>)
    ensures MotionsTold(Moves(steps), Run(START, steps))
  {
    hide Next, MotionsTold, Bounded;
    if steps == [] {
      StartTold();
    } else {
      var before, step := steps[..|steps| - 1], steps[|steps| - 1];
      NewestMotionKept(before);
      RunKeeps(before);
      NextTold(Moves(before), Run(START, before), step);
    }
  }

  lemma StartTold()
    ensures MotionsTold([], START)
  {
    assert Motions(START.accepted) + Waiting(START) == [];
  }

  // ----- everything arrives

  lemma {:induction false} MotionsOfPlain(events: seq<InputEvent>)
    ensures Motions(Plain(events)) == Motions(events)
  {
    if events == [] {
    } else {
      var before, last := events[..|events| - 1], events[|events| - 1];
      MotionsOfPlain(before);
      MotionsAppend(Plain(before), last);
      assert Plain(before) + [] == Plain(before) && Motions(before) + [] == Motions(before);
    }
  }

  /** How far a state is from having handed everything to the network task. */
  function Distance(s: State): nat {
    2 * |s.pending| + |s.channel| + (if s.motion.Some? then 2 else 0)
  }

  /** The next step on the way. */
  function Onward(s: State): Step {
    if s.channel != [] then Receive else if s.pending != [] then SendReliable else SendMotion
  }

  lemma OnwardNearer(s: State)
    requires s.running && Distance(s) > 0
    ensures var t := Next(s, Onward(s)); t.running && t.held == s.held && Distance(t) < Distance(s)
  {
    hide ApplyHeld;
  }

  /**
    From every state that the running viewer can reach, some further steps of sending and
    receiving lead to a state in which a receiver of all messages holds what the UI held, and
    the last motion it saw is the newest move.
   */
  lemma {:induction false} EverythingArrives(steps: seq<Step>) returns (more: seq<Step>)
    requires Run(START, steps).running
    ensures forall step <- more :: step in {Receive, SendReliable, SendMotion}
    ensures var s, t := Run(START, steps), Run(START, steps + more);
            && t.running && Fold(RELEASED, Events(t.wire)) == s.held
            && (Moves(steps) != [] ==>
                 var seen := Motions(Events(t.wire));
                 seen != [] && seen[|seen| - 1] == Moves(steps)[|Moves(steps)| - 1])
    decreases Distance(Run(START, steps))
  {
    hide Next, Fold, Events, Motions, Plain, Moves, Onward, Distance;
    var s := Run(START, steps);
    if Distance(s) == 0 {
      more := [];
      assert steps + more == steps;
      ArrivedAll(steps);
    } else {
      var step := Onward(s);
      OnwardNearer(s);
      RunLast(steps, step);
      var rest := EverythingArrives(steps + [step]);
      more := [step] + rest;
      assert steps + more == steps + [step] + rest;
      OnwardSteps(s);
      MovesSame(steps, step);
    }
  }

  lemma OnwardSteps(s: State)
    ensures Onward(s) in {Receive, SendReliable, SendMotion}
  {
  }

  lemma MovesSame(steps: seq<Step>, step: Step)
    requires !step.Move?
    ensures Moves(steps + [step]) == Moves(steps)
  {
    assert (steps + [step])[..|steps|] == steps;
  }

  lemma ArrivedAll(steps: seq<Step>)
    requires var s := Run(START, steps); s.running && Distance(s) == 0
    ensures var s := Run(START, steps);
            && Fold(RELEASED, Events(s.wire)) == s.held
            && (Moves(steps) != [] ==>
                 var seen := Motions(Events(s.wire));
                 seen != [] && seen[|seen| - 1] == Moves(steps)[|Moves(steps)| - 1])
  {
    hide Run, Fold, Events, Motions, Plain, Moves, Subsequence;
    var s := Run(START, steps);
    Converges(steps);
    NewestMotionKept(steps);
    WireCarriesTaken(steps);
    MotionsOfPlain(Events(s.wire));
    MotionsOfPlain(TakenOf(s));
    assert TakenOf(s) == s.accepted;
    assert Motions(s.accepted) + [] == Motions(s.accepted);
  }
}
