/**
  The gate that keeps callbacks out during shutdown. The mutex makes each call one atomic
  step; threads, leases and waiters interleave in any order, and waiters may wake spuriously.
 */
module CallbackGate {

  datatype Waiter = Parked | Woken | Returned

  /** `leases` are the lease objects that hold the gate, `waiters` the threads in `wait_for_drain`. */
  datatype State = State(closed: bool, active: int, leases: set<nat>, waiters: map<nat, Waiter>)

  const START := State(false, 0, {}, map[])

  datatype Step =
    | TryEnter(lease: nat)
    | Release(lease: nat)
    | Transfer(source: nat, target: nat)
    | Close
    | Wait(thread: nat)
    | Wake(thread: nat)
    | Recheck(thread: nat)

  function NotifyAll(s: State): State {
    s.(waiters := map w | w in s.waiters :: if s.waiters[w] == Parked then Woken else s.waiters[w])
  }

  /** The predicate of the condition variable: return if no callback is active, else sleep. */
  function Check(s: State, thread: nat): State {
    s.(waiters := s.waiters[thread := if s.active == 0 then Returned else Parked])
  }

  /** Steps that a thread could not take leave the state as it is. */
  function Next(s: State, step: Step): State {
    match step
    case TryEnter(l) =>
      if s.closed || l in s.leases then s else s.(active := s.active + 1, leases := s.leases + {l})
    case Release(l) =>
      if l !in s.leases then s
      else
        var left := s.(active := s.active - 1, leases := s.leases - {l});
        if left.closed && left.active == 0 then NotifyAll(left) else left
    case Transfer(source, target) =>
      if source !in s.leases || target in s.leases then s else s.(leases := s.leases - {source} + {target})
    case Close =>
      var shut := s.(closed := true);
      if shut.active == 0 then NotifyAll(shut) else shut
    case Wait(t) =>
      if t in s.waiters && s.waiters[t] != Returned then s else Check(s, t)
    case Wake(t) =>
      if t in s.waiters && s.waiters[t] == Parked then s.(waiters := s.waiters[t := Woken]) else s
    case Recheck(t) =>
      if t in s.waiters && s.waiters[t] == Woken then Check(s, t) else s
  }

  function Run(s: State, steps: seq<Step>): State {
    if steps == [] then s else Next(Run(s, steps[..|steps| - 1]), steps[|steps| - 1])
  }

  predicate Drained(s: State) {
    s.closed && s.active == 0
  }

  predicate Counted(s: State) {
    s.active == |s.leases|
  }

  predicate NoSleeper(s: State) {
    forall w <- s.waiters :: s.waiters[w] != Parked
  }

  /** The count is the number of live leases, and a drained gate has no sleeping waiter. */
  predicate Inv(s: State) {
    Counted(s) && (Drained(s) ==> NoSleeper(s))
  }

  lemma MoveMember(leases: set<nat>, source: nat, target: nat)
    requires source in leases && target !in leases
    ensures |leases - {source} + {target}| == |leases|
  {
    assert |leases - {source}| == |leases| - 1;
  }

  lemma CountKept(s: State, step: Step)
    requires Counted(s)
    ensures Counted(Next(s, step))
  {
    match step
    case Release(l) =>
      if l in s.leases {
        assert |s.leases - {l}| == |s.leases| - 1;
      }
    case Transfer(source, target) =>
      if source in s.leases && target !in s.leases {
        MoveMember(s.leases, source, target);
      }
    case _ =>
  }

  /** Whichever step drains the gate wakes the sleepers, and nobody falls asleep in a drained gate. */
  lemma WakesSleepers(s: State, step: Step)
    requires Counted(s) && (Drained(s) ==> NoSleeper(s)) && Drained(Next(s, step))
    ensures NoSleeper(Next(s, step))
  {
  }

  lemma NextKeeps(s: State, step: Step)
    requires Inv(s)
    ensures Inv(Next(s, step))
  {
    hide Next, Counted, NoSleeper, Drained;
    CountKept(s, step);
    if Drained(Next(s, step)) {
      WakesSleepers(s, step);
    }
  }

  lemma {:induction false} RunKeeps(s: State, steps: seq<Step>)
    requires Inv(s)
    ensures Inv(Run(s, steps))
  {
    hide Inv, Next;
    if steps == [] {
    } else {
      RunKeeps(s, steps[..|steps| - 1]);
      NextKeeps(Run(s, steps[..|steps| - 1]), steps[|steps| - 1]);
    }
  }

  /**
    In every state that any number of threads can reach: the count of active callbacks is the
    number of live leases, and no waiter sleeps once the gate is closed and drained.
   */
  lemma {:induction false} NoLostWakeup(steps: seq<Step>)
    ensures var s := Run(START, steps);
            s.active == |s.leases| && (Drained(s) ==> NoSleeper(s))
  {
    RunKeeps(START, steps);
  }

  lemma DrainedStep(s: State, step: Step)
    requires Inv(s) && Drained(s)
    ensures Drained(Next(s, step)) && Next(s, step).leases == {}
  {
    assert s.leases == {};
  }

  /** Once closed and drained, no callback is active, and none ever becomes active. */
  lemma {:induction false} DrainedForever(s: State, steps: seq<Step>)
    requires Inv(s) && Drained(s)
    ensures Drained(Run(s, steps)) && Run(s, steps).leases == {}
  {
    hide Next;
    if steps == [] {
      assert s.leases == {};
    } else {
      var before := Run(s, steps[..|steps| - 1]);
      DrainedForever(s, steps[..|steps| - 1]);
      RunKeeps(s, steps[..|steps| - 1]);
      DrainedStep(before, steps[|steps| - 1]);
    }
  }

  /** The thread's wait returned in this step. */
  predicate Returns(s: State, step: Step, thread: nat) {
    (step == Wait(thread) || step == Recheck(thread)) && thread in Next(s, step).waiters &&
    Next(s, step).waiters[thread] == Returned && (thread !in s.waiters || s.waiters[thread] != Returned)
  }

  /** If a wait returns while the gate is closed, no callback runs from then on. */
  lemma WaitAfterCloseIsFinal(steps: seq<Step>, step: Step, thread: nat, more: seq<Step>)
    requires Returns(Run(START, steps), step, thread) && Run(START, steps).closed
    ensures Run(Next(Run(START, steps), step), more).leases == {}
  {
    hide Run;
    RunKeeps(START, steps);
    var s := Run(START, steps);
    NextKeeps(s, step);
    DrainedForever(Next(s, step), more);
  }

  /** In a closed gate without leases every waiter has returned or will with its next check. */
  lemma WaitersCanReturn(steps: seq<Step>, thread: nat)
    requires var s := Run(START, steps); s.closed && s.leases == {} && thread in s.waiters
    ensures var s := Run(START, steps);
            s.waiters[thread] == Returned || Next(s, Recheck(thread)).waiters[thread] == Returned
  {
    hide Run;
    RunKeeps(START, steps);
  }

  /** When the last callback leaves, its leaving wakes the sleepers exactly if the gate is closed. */
  lemma LastLeaveWakesExactly(steps: seq<Step>, lease: nat)
    requires Run(START, steps).leases == {lease}
    ensures var s := Run(START, steps);
            NoSleeper(Next(s, Release(lease))) <==> s.closed || NoSleeper(s)
  {
    hide Run;
    RunKeeps(START, steps);
  }

  // ----- told from the steps

  /** A waiter that was woken looks again; any other thread has just arrived. */
  function LookStep(s: State, thread: nat): Step {
    if thread in s.waiters && s.waiters[thread] == Woken then Recheck(thread) else Wait(thread)
  }

  /** The gate is closed exactly if it was ever told to close. */
  lemma {:induction false} ClosedExactly(steps: seq<Step>)
    ensures Run(START, steps).closed <==> Close in steps
  {
    if steps == [] {
    } else {
      ClosedExactly(steps[..|steps| - 1]);
      assert steps == steps[..|steps| - 1] + [steps[|steps| - 1]];
    }
  }

  /**
    After every run: a lease is granted exactly before the gate was told to close, is live until
    it is released or moved to a lease that is not, and the step changes no other lease.
   */
  lemma {:induction false} LeasesExactly(steps: seq<Step>, step: Step, lease: nat)
    ensures var before, after := Run(START, steps).leases, Run(START, steps + [step]).leases;
            lease in after <==>
            if lease in before then
              step != Release(lease) && !(step.Transfer? && step.source == lease && step.target !in before)
            else
              || (step == TryEnter(lease) && Close !in steps)
              || (step.Transfer? && step.source in before && step.target == lease)
  {
    ClosedExactly(steps);
    assert (steps + [step])[..|steps|] == steps;
  }

  /** After every run: a look of a waiter that is not asleep returns exactly if no lease is live, and else it sleeps. */
  lemma {:induction false} LooksExactly(steps: seq<Step>, thread: nat)
    requires var w := Run(START, steps).waiters; thread !in w || w[thread] != Parked
    ensures var s := Run(START, steps);
            Run(START, steps + [LookStep(s, thread)]).waiters ==
            s.waiters[thread := if s.leases == {} then Returned else Parked]
  {
    var s := Run(START, steps);
    RunKeeps(START, steps);
    assert (steps + [LookStep(s, thread)])[..|steps|] == steps;
  }

  /** After every run: a sleeper wakes exactly by a spurious wake-up or with the step that leaves the gate drained. */
  lemma {:induction false} WakesExactly(steps: seq<Step>, step: Step, thread: nat)
    requires var w := Run(START, steps).waiters; thread in w && w[thread] == Parked
    ensures var after := Run(START, steps + [step]);
            && thread in after.waiters
            && after.waiters[thread] == (if step == Wake(thread) || Drained(after) then Woken else Parked)
  {
    RunKeeps(START, steps);
    assert (steps + [step])[..|steps|] == steps;
    assert Drained(Run(START, steps)) ==> NoSleeper(Run(START, steps));
  }

  /** Closing is necessary: a waiter of an open gate can sleep although the last callback has left. */
  lemma OpenGateLosesWakeup()
    ensures Run(START, [TryEnter(1), Wait(7), Release(1)]) == State(false, 0, {}, map[7 := Parked])
  {
    var steps := [TryEnter(1), Wait(7), Release(1)];
    assert steps[..2] == [TryEnter(1), Wait(7)] && steps[..2][..1] == [TryEnter(1)] && steps[..2][..1][..0] == [];
    assert Run(START, [TryEnter(1)]) == State(false, 1, {1}, map[]);
    assert Run(START, [TryEnter(1), Wait(7)]) == State(false, 1, {1}, map[7 := Parked]);
    assert {1} - {1} == {};
  }

  // ----- the objects, one call at a time

  lemma SomeLease(s: State, lease: nat)
    requires Counted(s) && lease in s.leases
    ensures s.active > 0
  {
    assert |s.leases - {lease}| == |s.leases| - 1;
  }

  /** `state` adds to the two fields who holds the gate and who waits for it. */
  class Gate {
    var activeCallbacks: nat
    var closed: bool
    ghost var state: State

    ghost predicate Valid()
      reads this
    {
      Inv(state) && activeCallbacks == state.active && closed == state.closed
    }

    constructor ()
      ensures Valid() && state == START
    {
      activeCallbacks, closed, state := 0, false, START;
    }

    method Enter(ghost lease: nat) returns (granted: bool)
      requires Valid() && lease !in state.leases
      modifies this
      ensures Valid() && state == Next(old(state), TryEnter(lease))
      ensures granted <==> lease in state.leases
    {
      hide Inv;
      NextKeeps(state, TryEnter(lease));
      state := Next(state, TryEnter(lease));
      if closed {
        return false;
      }
      activeCallbacks := activeCallbacks + 1;
      return true;
    }

    /** Says whether all sleeping waiters are notified. */
    method Shut() returns (notify: bool)
      requires Valid()
      modifies this
      ensures Valid() && state == Next(old(state), Close)
      ensures notify ==> NoSleeper(state)
      ensures !notify ==> state.waiters == old(state.waiters)
    {
      NextKeeps(state, Close);
      state := Next(state, Close);
      closed := true;
      notify := activeCallbacks == 0;
    }

    method Leave(ghost lease: nat) returns (notify: bool)
      requires Valid() && lease in state.leases
      modifies this
      ensures Valid() && state == Next(old(state), Release(lease))
      ensures notify ==> NoSleeper(state)
      ensures !notify ==> state.waiters == old(state.waiters)
    {
      SomeLease(state, lease);
      NextKeeps(state, Release(lease));
      state := Next(state, Release(lease));
      activeCallbacks := activeCallbacks - 1;
      notify := closed && activeCallbacks == 0;
    }

    /** One look of a waiter at the count: on arrival, or after it was woken. */
    method Look(ghost thread: nat) returns (drained: bool)
      requires Valid() && (thread in state.waiters ==> state.waiters[thread] != Parked)
      modifies this
      ensures Valid() && state == Check(old(state), thread)
      ensures state == Next(old(state), LookStep(old(state), thread))
      ensures drained <==> state.leases == {}
    {
      ghost var step := LookStep(state, thread);
      NextKeeps(state, step);
      state := Next(state, step);
      drained := activeCallbacks == 0;
    }
  }

  /** A lease gives its grant up once: when it is released, or when the grant moves to another lease. */
  class Lease {
    var gate: Gate?
    ghost var grant: nat

    ghost predicate Valid()
      reads this, gate
    {
      gate != null ==> gate.Valid() && grant in gate.state.leases
    }

    /** What a granted entry returns. */
    constructor (g: Gate, ghost grant: nat)
      requires g.Valid() && grant in g.state.leases
      ensures Valid() && gate == g && this.grant == grant
    {
      gate, this.grant := g, grant;
    }

    method ReleaseLease() returns (notify: bool)
      requires Valid()
      modifies this, gate
      ensures Valid() && gate == null
      ensures old(gate) == null ==> !notify
      ensures old(gate) != null ==> old(gate).Valid() && old(gate).state == Next(old(gate.state), Release(old(grant)))
    {
      hide Inv, Next;
      notify := false;
      if gate != null {
        notify := gate.Leave(grant);
        gate := null;
      }
    }

    method MoveAssign(other: Lease) returns (notify: bool)
      requires Valid() && other.Valid()
      requires other != this && gate != null && gate == other.gate ==> grant != other.grant
      modifies this, other, gate
      ensures Valid() && other.Valid()
      ensures other == this ==> gate == old(gate) && grant == old(grant) && !notify
      ensures other != this ==> gate == old(other.gate) && grant == old(other.grant) && other.gate == null
      ensures other != this && old(gate) != null ==>
                old(gate).Valid() && old(gate).state == Next(old(gate.state), Release(old(grant)))
    {
      hide Inv;
      notify := false;
      if this != other {
        notify := ReleaseLease();
        gate, grant := other.gate, other.grant;
        other.gate := null;
      }
    }
  }

  /** A lease on the gate, or none once it is closed. */
  method TryEnterGate(gate: Gate, ghost grant: nat) returns (lease: Lease?)
    requires gate.Valid() && grant !in gate.state.leases
    modifies gate
    ensures gate.Valid() && gate.state == Next(old(gate.state), TryEnter(grant))
    ensures lease == null <==> old(gate.closed)
    ensures lease != null ==> fresh(lease) && lease.Valid() && lease.gate == gate && lease.grant == grant
  {
    hide Inv;
    var granted := gate.Enter(grant);
    if !granted {
      return null;
    }
    lease := new Lease(gate, grant);
  }
}
