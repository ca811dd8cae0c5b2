/**
  Input in the software viewer: the UI thread queues discrete events for a bounded channel,
  folds them into a snapshot when its own bounded queue overflows, and the network task
  forwards what it receives, with a snapshot of its own view at intervals.
 */
module Viewer {
  import opened Bytes
  import opened Input

  const MAX_PENDING := 256
  const CHANNEL_CAPACITY := 128

  // ----- the pending queue and the channel

  /** `PendingReliableInput::push`: a full queue is replaced by a snapshot of what is held. */
  function PushPending(pending: seq<InputEvent>, limit: nat, e: InputEvent, held: InputState): seq<InputEvent> {
    if |pending| < limit then pending + [e] else [Snapshot(held)]
  }

  datatype SendResult = Sent | Full | Closed

  class Channel {
    const capacity: nat
    var queue: seq<InputEvent>
    var closed: bool

    constructor (capacity: nat)
      ensures this.capacity == capacity && queue == [] && !closed
    {
      this.capacity := capacity;
      queue, closed := [], false;
    }

    method TrySend(e: InputEvent) returns (r: SendResult)
      modifies this
      ensures closed == old(closed)
      ensures r == if closed then Closed else if |old(queue)| >= capacity then Full else Sent
      ensures queue == if r == Sent then old(queue) + [e] else old(queue)
    {
      if closed {
        return Closed;
      }
      if |queue| >= capacity {
        return Full;
      }
      queue := queue + [e];
      return Sent;
    }
  }

  /** Pending events and channel after as many events as fit have moved, in order. */
  function Moved(pending: seq<InputEvent>, queue: seq<InputEvent>, capacity: nat): (seq<InputEvent>, seq<InputEvent>) {
    if pending == [] || |queue| >= capacity then (pending, queue)
    else Moved(pending[1..], queue + [pending[0]], capacity)
  }

  class PendingReliableInput {
    var events: seq<InputEvent>
    const maxEvents: nat

    ghost predicate Valid()
      reads this
    {
      1 <= maxEvents && |events| <= maxEvents
    }

    constructor (maxEvents: nat)
      ensures Valid() && events == [] && this.maxEvents == if maxEvents >= 1 then maxEvents else 1
    {
      this.maxEvents := if maxEvents >= 1 then maxEvents else 1;
      events := [];
    }

    method Push(e: InputEvent, held: InputState) returns (coalesced: bool)
      requires Valid()
      modifies this
      ensures Valid() && events == PushPending(old(events), maxEvents, e, held)
      ensures coalesced <==> |old(events)| == maxEvents
    {
      if |events| < maxEvents {
        events := events + [e];
        return false;
      }
      events := [];
      events := events + [Snapshot(held)];
      return true;
    }

    /** Moves as many events as fit, in order; a closed channel costs the event that found it closed. */
    method Flush(channel: Channel) returns (ok: bool)
      requires Valid()
      modifies this, channel
      ensures Valid() && channel.closed == old(channel.closed)
      ensures ok <==> !channel.closed || old(events) == []
      ensures ok ==> (events, channel.queue) == Moved(old(events), old(channel.queue), channel.capacity)
      ensures !ok ==> channel.queue == old(channel.queue) && events == old(events)[1..]
    {
      while events != []
        invariant |events| <= |old(events)| && Valid() && channel.closed == old(channel.closed)
        invariant Moved(events, channel.queue, channel.capacity) ==
                  Moved(old(events), old(channel.queue), channel.capacity)
        invariant channel.closed ==> events == old(events) && channel.queue == old(channel.queue)
        decreases |events|
      {
        ghost var all := events;
        var e := events[0];
        events := events[1..];
        var r := channel.TrySend(e);
        match r
        case Sent =>
        case Full =>
          events := [e] + events;
          assert events == all;
          break;
        case Closed =>
          return false;
      }
      return true;
    }
  }

  // ----- the two threads as one step system

  /**
    `accepted` is everything the channel ever took, `issued` every discrete event of the UI,
    `wire` every message the network task sent; the other fields are the source's variables.
   */
  datatype State = State(
    held: InputState, pending: seq<InputEvent>, motion: Option<InputEvent>, coalesced: bool,
    channel: seq<InputEvent>, accepted: seq<InputEvent>, issued: seq<InputEvent>,
    netHeld: InputState, sequence: u64, wire: seq<Message>, running: bool)

  const START := State(RELEASED, [], None, false, [], [], [], RELEASED, 0, [], true)

  /** Steps of the UI thread and of the network task, in any interleaving. */
  datatype Step =
    | Discrete(event: InputEvent)
    | Move(event: InputEvent)
    | SendReliable
    | SendMotion
    | Receive
    | Tick
    | Stop(clean: bool)

  /** Key and button events; the UI knows no code or button the wire could not carry. */
  predicate IsDiscrete(e: InputEvent) {
    (e.Key? || e.PointerButton?) && CodeInRange(e)
  }

  function Bump(sequence: u64): u64 {
    if sequence == MAX_SEQUENCE then sequence else sequence + 1
  }

  function Transmit(s: State, e: InputEvent): State {
    s.(sequence := Bump(s.sequence), wire := s.wire + [Message(Bump(s.sequence), e)])
  }

  function Next(s: State, step: Step): State {
    match step
    case Discrete(e) =>
      if !IsDiscrete(e) then s
      else
        var held := ApplyHeld(s.held, e);
        s.(held := held, pending := PushPending(s.pending, MAX_PENDING, e, held), issued := s.issued + [e],
           coalesced := s.coalesced || |s.pending| >= MAX_PENDING)
    case Move(e) =>
      if !e.MotionAbsolute? then s else s.(held := ApplyHeld(s.held, e), motion := Some(e))
    case SendReliable =>
      if s.pending == [] then s
      else if !s.running then s.(pending := s.pending[1..])
      else if |s.channel| >= CHANNEL_CAPACITY then s
      else s.(pending := s.pending[1..], channel := s.channel + [s.pending[0]], accepted := s.accepted + [s.pending[0]])
    case SendMotion =>
      if s.motion == None then s
      else if !s.running then s.(motion := None)
      else if |s.channel| >= CHANNEL_CAPACITY then s
      else s.(motion := None, channel := s.channel + [s.motion.value], accepted := s.accepted + [s.motion.value])
    case Receive =>
      if !s.running || s.channel == [] then s
      else Transmit(s.(channel := s.channel[1..], netHeld := ApplyHeld(s.netHeld, s.channel[0])), s.channel[0])
    case Tick =>
      if !s.running then s else Transmit(s, Snapshot(s.netHeld))
    case Stop(clean) =>
      if !s.running then s else if clean then Transmit(s, ReleaseAll).(running := false) else s.(running := false)
  }

  function Run(s: State, steps: seq<Step>): State {
    if steps == [] then s else Next(Run(s, steps[..|steps| - 1]), steps[|steps| - 1])
  }

  function Reliable(events: seq<InputEvent>): seq<InputEvent> {
    if events == [] then []
    else
      var last := events[|events| - 1];
      Reliable(events[..|events| - 1]) + (if last.MotionAbsolute? then [] else [last])
  }

  /** A flush of the open channel is one send step for each pending event. */
  lemma {:induction false} FlushIsSteps(s: State)
    requires s.running
    ensures var t := Run(s, Repeat(SendReliable, |s.pending|));
            && (t.pending, t.channel) == Moved(s.pending, s.channel, CHANNEL_CAPACITY)
            && t == s.(pending := t.pending, channel := t.channel, accepted := t.accepted)
            && t.accepted + t.pending == s.accepted + s.pending
    decreases |s.pending|
  {
    hide Next;
    if s.pending == [] {
    } else if |s.channel| >= CHANNEL_CAPACITY {
      StuckSteps(s, |s.pending|);
    } else {
      var next := Next(s, SendReliable);
      SendOne(s);
      FlushIsSteps(next);
      RunFirst(s, SendReliable, Repeat(SendReliable, |next.pending|));
      assert s.accepted + s.pending == next.accepted + next.pending;
    }
  }

  lemma SendOne(s: State)
    requires s.running && s.pending != [] && |s.channel| < CHANNEL_CAPACITY
    ensures Next(s, SendReliable) ==
            s.(pending := s.pending[1..],
               channel := s.channel + [s.pending[0]],
               accepted := s.accepted + [s.pending[0]])
  {
  }

  lemma {:induction false} StuckSteps(s: State, n: nat)
    requires s.running && |s.channel| >= CHANNEL_CAPACITY
    ensures Run(s, Repeat(SendReliable, n)) == s
  {
    if n == 0 {
    } else {
      StuckSteps(s, n - 1);
      assert Repeat(SendReliable, n)[..n - 1] == Repeat(SendReliable, n - 1);
    }
  }

  lemma {:induction false} RunFirst(s: State, first: Step, rest: seq<Step>)
    ensures Run(s, [first] + rest) == Run(Next(s, first), rest)
    decreases |rest|
  {
    hide Next;
    var all := [first] + rest;
    if rest == [] {
      assert all == [first] && [first][..0] == [];
    } else {
      RunFirst(s, first, rest[..|rest| - 1]);
      assert all[..|all| - 1] == [first] + rest[..|rest| - 1];
    }
  }

  // ----- what every step keeps

  /** The UI's state is what the events on their way will bring about. */
  predicate UiAhead(s: State) {
    s.running ==> Fold(RELEASED, s.accepted + s.pending) == s.held
  }

  /** The network task has applied what it has taken from the channel, no more and no less. */
  predicate NetBehind(s: State) {
    var taken := |s.accepted| - |s.channel|;
    0 <= taken && s.accepted[taken..] == s.channel && s.netHeld == Fold(RELEASED, s.accepted[..taken])
  }

  /** A receiver of all messages so far holds what the network task holds. */
  predicate WireAgrees(s: State) {
    s.running ==> Fold(RELEASED, Events(s.wire)) == s.netHeld
  }

  predicate Bounded(s: State) {
    |s.pending| <= MAX_PENDING && |s.channel| <= CHANNEL_CAPACITY &&
    (forall i :: 0 <= i < |s.pending| ==> !s.pending[i].MotionAbsolute?) &&
    (s.motion.Some? ==> s.motion.value.MotionAbsolute?) &&
    s.sequence == (if |s.wire| < MAX_SEQUENCE then |s.wire| else MAX_SEQUENCE) && Numbered(s.wire)
  }

  /** Until the first coalescing, no discrete event is lost, doubled or reordered. */
  predicate Lossless(s: State) {
    s.running && !s.coalesced ==> Reliable(s.accepted) + s.pending == s.issued
  }

  predicate AllInRange(events: seq<InputEvent>) {
    forall i :: 0 <= i < |events| ==> CodeInRange(events[i])
  }

  predicate Carriable(s: State) {
    AllInRange(s.pending) && AllInRange(s.channel) && forall i :: 0 <= i < |s.wire| ==> CodeInRange(s.wire[i].event)
  }

  predicate Inv(s: State) {
    UiAhead(s) && NetBehind(s) && WireAgrees(s) && Bounded(s) && Lossless(s) && Carriable(s)
  }

  lemma UiAheadKept(s: State, step: Step)
    requires UiAhead(s) && Bounded(s)
    ensures UiAhead(Next(s, step))
  {
    hide Fold, Reliable, Numbered;
    var all := s.accepted + s.pending;
    match step
    case Discrete(e) =>
      var held := ApplyHeld(s.held, e);
      FoldConcat(RELEASED, all, [e]);
      FoldOne(Fold(RELEASED, all), e);
      assert s.accepted + (s.pending + [e]) == all + [e];
      FoldConcat(RELEASED, s.accepted, [Snapshot(held)]);
      FoldOne(Fold(RELEASED, s.accepted), Snapshot(held));
    case SendReliable =>
      if s.pending != [] {
        assert s.accepted + [s.pending[0]] + s.pending[1..] == all;
      }
    case SendMotion =>
      if s.motion.Some? {
        FoldSkips(s.accepted, s.motion.value, s.pending);
      }
    case _ =>
  }

  /** An absolute motion changes nothing that is held, wherever it is put. */
  lemma FoldSkips(a: seq<InputEvent>, motion: InputEvent, b: seq<InputEvent>)
    requires motion.MotionAbsolute?
    ensures Fold(RELEASED, a + [motion] + b) == Fold(RELEASED, a + b)
  {
    hide Fold;
    FoldConcat(RELEASED, a + [motion], b);
    FoldConcat(RELEASED, a, [motion]);
    FoldOne(Fold(RELEASED, a), motion);
    FoldConcat(RELEASED, a, b);
  }

  lemma NetBehindKept(s: State, step: Step)
    requires NetBehind(s)
    ensures NetBehind(Next(s, step))
  {
    hide Fold, PushPending;
    var taken := |s.accepted| - |s.channel|;
    match step
    case SendReliable =>
      if s.pending != [] {
        ChannelGrows(s, s.pending[0]);
      }
    case SendMotion =>
      if s.motion.Some? {
        ChannelGrows(s, s.motion.value);
      }
    case Receive =>
      if s.channel != [] {
        assert s.accepted[taken] == s.accepted[taken..][0];
        assert s.accepted[..taken + 1] == s.accepted[..taken] + [s.channel[0]];
        FoldConcat(RELEASED, s.accepted[..taken], [s.channel[0]]);
        FoldOne(s.netHeld, s.channel[0]);
        assert s.accepted[taken + 1..] == s.channel[1..];
      }
    case _ =>
  }

  lemma ChannelGrows(s: State, e: InputEvent)
    requires NetBehind(s)
    ensures var taken := |s.accepted| - |s.channel|;
            (s.accepted + [e])[taken..] == s.channel + [e] && (s.accepted + [e])[..taken] == s.accepted[..taken]
  {
  }

  lemma WireAgreesKept(s: State, step: Step)
    requires WireAgrees(s)
    ensures WireAgrees(Next(s, step))
  {
    hide Fold, PushPending;
    if step.Receive? && s.channel != [] {
      EventsAppend(s.wire, Bump(s.sequence), s.channel[0]);
      FoldConcat(RELEASED, Events(s.wire), [s.channel[0]]);
      FoldOne(s.netHeld, s.channel[0]);
    }
    if step.Tick? {
      EventsAppend(s.wire, Bump(s.sequence), Snapshot(s.netHeld));
      FoldConcat(RELEASED, Events(s.wire), [Snapshot(s.netHeld)]);
      FoldOne(Fold(RELEASED, Events(s.wire)), Snapshot(s.netHeld));
    }
  }

  lemma EventsAppend(wire: seq<Message>, sequence: u64, e: InputEvent)
    ensures Events(wire + [Message(sequence, e)]) == Events(wire) + [e]
  {
    assert (wire + [Message(sequence, e)])[..|wire|] == wire;
  }

  lemma BoundedKept(s: State, step: Step)
    requires Bounded(s)
    ensures Bounded(Next(s, step))
  {
    hide ApplyHeld;
  }

  lemma LosslessKept(s: State, step: Step)
    requires Lossless(s) && Bounded(s)
    ensures Lossless(Next(s, step))
  {
    hide ApplyHeld, Numbered;
    match step
    case SendReliable =>
      if s.pending != [] && s.running && !s.coalesced {
        ReliableAppend(s.accepted, s.pending[0]);
        assert s.pending == [s.pending[0]] + s.pending[1..];
      }
    case SendMotion =>
      if s.motion.Some? {
        ReliableAppend(s.accepted, s.motion.value);
      }
    case _ =>
  }

  lemma ReliableAppend(events: seq<InputEvent>, e: InputEvent)
    ensures Reliable(events + [e]) == Reliable(events) + (if e.MotionAbsolute? then [] else [e])
  {
    assert (events + [e])[..|events|] == events;
  }

  lemma CarriableKept(s: State, step: Step)
    requires Carriable(s) && Bounded(s)
    ensures Carriable(Next(s, step))
  {
    hide ApplyHeld, Numbered;
  }

  lemma {:induction false} RunKeeps(steps: seq<Step>)
    ensures Inv(Run(START, steps))
  {
    hide Next, UiAhead, NetBehind, WireAgrees, Bounded, Lossless, Carriable;
    if steps == [] {
      StartKeeps();
    } else {
      var s, step := Run(START, steps[..|steps| - 1]), steps[|steps| - 1];
      RunKeeps(steps[..|steps| - 1]);
      UiAheadKept(s, step);
      NetBehindKept(s, step);
      WireAgreesKept(s, step);
      BoundedKept(s, step);
      LosslessKept(s, step);
      CarriableKept(s, step);
    }
  }

  lemma StartKeeps()
    ensures Inv(START)
  {
    assert Fold(RELEASED, []) == RELEASED && Reliable([]) == [] && Events([]) == [];
  }

  /**
    Convergence, over every interleaving: once nothing is pending and the channel is empty,
    the network task, and a receiver that has applied all messages, hold exactly what the UI
    holds, however often the queue overflowed or the channel was full.
   */
  lemma {:induction false} Converges(steps: seq<Step>)
    ensures var s := Run(START, steps);
            s.running && s.pending == [] && s.channel == [] ==>
              s.netHeld == s.held && Fold(RELEASED, Events(s.wire)) == s.held
  {
    hide Run, Fold, Events;
    RunKeeps(steps);
    var s := Run(START, steps);
    assert s.accepted + [] == s.accepted && s.accepted[..|s.accepted|] == s.accepted;
  }

  /** A clean stop is the last message, and leaves a receiver of all messages holding nothing. */
  lemma {:induction false} StopReleases(steps: seq<Step>, more: seq<Step>)
    requires Run(START, steps).running
    ensures var s := Run(START, steps + [Stop(true)] + more);
            !s.running && Fold(RELEASED, Events(s.wire)) == RELEASED
  {
    hide Fold, Events;
    var all := steps + [Stop(true)] + more;
    if more == [] {
      var s := Run(START, steps);
      assert all == steps + [Stop(true)] && (steps + [Stop(true)])[..|steps|] == steps;
      EventsAppend(s.wire, Bump(s.sequence), ReleaseAll);
      FoldConcat(RELEASED, Events(s.wire), [ReleaseAll]);
      FoldOne(Fold(RELEASED, Events(s.wire)), ReleaseAll);
    } else {
      StopReleases(steps, more[..|more| - 1]);
      assert all[..|all| - 1] == steps + [Stop(true)] + more[..|more| - 1];
    }
  }

  // ----- sampling the keyboard

  /** The keys of the window library that have a usage, and any other. */
  datatype WindowKey =
    | Letter(n: nat) | Digit(n: nat)
    | Enter | Escape | Backspace | Tab | Space | Right | Left | Down | Up | LeftCtrl | LeftShift | LeftAlt
    | OtherKey(name: string)

  /** The USB HID usage of a key. */
  function HidUsage(k: WindowKey): Option<KeyCode> {
    match k
    case Letter(n) => if n < 26 then Some(0x04 + n) else None
    case Digit(n) => if n == 0 then Some(0x27) else if n < 10 then Some(0x1d + n) else None
    case Enter => Some(0x28)
    case Escape => Some(0x29)
    case Backspace => Some(0x2a)
    case Tab => Some(0x2b)
    case Space => Some(0x2c)
    case Right => Some(0x4f)
    case Left => Some(0x50)
    case Down => Some(0x51)
    case Up => Some(0x52)
    case LeftCtrl => Some(0xe0)
    case LeftShift => Some(0xe1)
    case LeftAlt => Some(0xe2)
    case OtherKey(_) => None
  }

  /** The key of a usage, by the keyboard page of the USB HID usage tables. */
  function KeyWithUsage(c: KeyCode): Option<WindowKey> {
    if 0x04 <= c <= 0x1d then Some(Letter(c - 0x04))
    else if 0x1e <= c <= 0x26 then Some(Digit(c - 0x1d))
    else
      match c
      case 0x27 => Some(Digit(0))
      case 0x28 => Some(Enter)
      case 0x29 => Some(Escape)
      case 0x2a => Some(Backspace)
      case 0x2b => Some(Tab)
      case 0x2c => Some(Space)
      case 0x4f => Some(Right)
      case 0x50 => Some(Left)
      case 0x51 => Some(Down)
      case 0x52 => Some(Up)
      case 0xe0 => Some(LeftCtrl)
      case 0xe1 => Some(LeftShift)
      case 0xe2 => Some(LeftAlt)
      case _ => None
  }

  /** Usages and keys determine each other. */
  lemma UsageExactly(k: WindowKey, c: KeyCode)
    ensures HidUsage(k) == Some(c) <==> KeyWithUsage(c) == Some(k)
  {
    match k
    case Letter(n) =>
    case Digit(n) =>
    case _ =>
  }

  /** No two keys share a usage. */
  lemma UsageIdentifiesKey(j: WindowKey, k: WindowKey)
    requires HidUsage(j).Some? && HidUsage(j) == HidUsage(k)
    ensures j == k
  {
  }

  function Usages(keys: set<WindowKey>): set<KeyCode> {
    set k | k in keys && HidUsage(k).Some? :: HidUsage(k).value
  }

  function Members(keys: seq<WindowKey>): set<WindowKey> {
    set k | k in keys
  }

  /** One event for each key with a usage, in the order the keys are met. */
  function KeyEvents(keys: seq<WindowKey>, pressed: bool): seq<InputEvent> {
    if keys == [] then []
    else
      var usage := HidUsage(keys[|keys| - 1]);
      KeyEvents(keys[..|keys| - 1], pressed) + (if usage.Some? then [Key(usage.value, pressed)] else [])
  }

  lemma {:induction false} FoldKeyEvents(s: InputState, keys: seq<WindowKey>, pressed: bool)
    ensures var r := Fold(s, KeyEvents(keys, pressed));
            var codes := Usages(Members(keys));
            r == s.(keys := if pressed then s.keys + codes else s.keys - codes)
  {
    hide HidUsage;
    if keys == [] {
    } else {
      var before, last := keys[..|keys| - 1], keys[|keys| - 1];
      assert keys == before + [last];
      FoldKeyEvents(s, before, pressed);
      LastUsage(before, last);
      if HidUsage(last) == None {
        assert KeyEvents(before, pressed) + [] == KeyEvents(before, pressed);
      } else {
        FoldConcat(s, KeyEvents(before, pressed), [Key(HidUsage(last).value, pressed)]);
        FoldOne(Fold(s, KeyEvents(before, pressed)), Key(HidUsage(last).value, pressed));
      }
    }
  }

  lemma LastUsage(before: seq<WindowKey>, last: WindowKey)
    ensures Usages(Members(before + [last])) ==
            Usages(Members(before)) + (if HidUsage(last).Some? then {HidUsage(last).value} else {})
  {
    hide HidUsage;
    assert Members(before + [last]) == Members(before) + {last};
  }

  /**
    One pass of the UI loop over the keyboard: pressing what is newly down and releasing what
    no longer is, in any order, leaves exactly the usages of the keys that are down.
   */
  lemma SamplingTracksKeys(
      before: set<WindowKey>, now: set<WindowKey>, pressed: seq<WindowKey>, released: seq<WindowKey>, s: InputState)
    requires s.keys == Usages(before)
    requires Members(pressed) == now - before && Members(released) == before - now
    ensures var events := KeyEvents(pressed, true) + KeyEvents(released, false);
            Fold(s, events) == s.(keys := Usages(now))
  {
    hide Fold, KeyEvents, HidUsage;
    var down := Fold(s, KeyEvents(pressed, true));
    FoldConcat(s, KeyEvents(pressed, true), KeyEvents(released, false));
    FoldKeyEvents(s, pressed, true);
    FoldKeyEvents(down, released, false);
    UsagesChange(before, now);
  }

  lemma UsagesChange(before: set<WindowKey>, now: set<WindowKey>)
    ensures Usages(before) + Usages(now - before) - Usages(before - now) == Usages(now)
  {
    hide HidUsage;
    forall c ensures c in Usages(before) + Usages(now - before) - Usages(before - now) <==> c in Usages(now) {
      if c in Usages(now) {
        var k :| k in now && HidUsage(k) == Some(c);
        if k !in before {
          assert k in now - before;
        }
        forall j | j in before - now ensures HidUsage(j) != Some(c) {
          if HidUsage(j) == Some(c) {
            UsageIdentifiesKey(j, k);
          }
        }
      }
    }
  }

  /** The key events that the UI issues in a run, in order. */
  function KeysIn(steps: seq<Step>): seq<InputEvent> {
    if steps == [] then []
    else
      var step := steps[|steps| - 1];
      KeysIn(steps[..|steps| - 1]) +
      (if step.Discrete? && IsDiscrete(step.event) && step.event.Key? then [step.event] else [])
  }

  /** Nothing but these changes which keys the UI holds. */
  lemma {:induction false} HeldKeys(steps: seq<Step>)
    ensures Run(START, steps).held.keys == Fold(RELEASED, KeysIn(steps)).keys
  {
    hide Fold;
    if steps == [] {
      assert Fold(RELEASED, []) == RELEASED by { FoldNothing(RELEASED); }
    } else {
      var before, step := steps[..|steps| - 1], steps[|steps| - 1];
      HeldKeys(before);
      if step.Discrete? && IsDiscrete(step.event) && step.event.Key? {
        FoldConcat(RELEASED, KeysIn(before), [step.event]);
        FoldOne(Fold(RELEASED, KeysIn(before)), step.event);
      } else {
        assert KeysIn(before) + [] == KeysIn(before);
      }
    }
  }

  lemma FoldNothing(s: InputState)
    ensures Fold(s, []) == s
  {
  }

  /** One pass over the keyboard: the keys down, and the order in which the differences were met. */
  datatype Pass = Pass(down: set<WindowKey>, pressed: seq<WindowKey>, released: seq<WindowKey>)

  /** The keys down after the last pass. */
  function KeysDown(passes: seq<Pass>): set<WindowKey> {
    if passes == [] then {} else passes[|passes| - 1].down
  }

  /** Each pass meets exactly what has changed since the one before. */
  predicate Sampled(passes: seq<Pass>) {
    passes == [] ||
    (var before, p := passes[..|passes| - 1], passes[|passes| - 1];
     && Sampled(before)
     && Members(p.pressed) == p.down - KeysDown(before) && Members(p.released) == KeysDown(before) - p.down)
  }

  function PassEvents(passes: seq<Pass>): seq<InputEvent> {
    if passes == [] then []
    else
      var p := passes[|passes| - 1];
      PassEvents(passes[..|passes| - 1]) + (KeyEvents(p.pressed, true) + KeyEvents(p.released, false))
  }

  lemma {:induction false} PassesTrackKeys(passes: seq<Pass>)
    requires Sampled(passes)
    ensures Fold(RELEASED, PassEvents(passes)).keys == Usages(KeysDown(passes))
  {
    hide Fold, KeyEvents, Usages;
    if passes == [] {
      FoldNothing(RELEASED);
      NoUsages();
    } else {
      var before, p := passes[..|passes| - 1], passes[|passes| - 1];
      PassesTrackKeys(before);
      var s := Fold(RELEASED, PassEvents(before));
      FoldConcat(RELEASED, PassEvents(before), KeyEvents(p.pressed, true) + KeyEvents(p.released, false));
      SamplingTracksKeys(KeysDown(before), p.down, p.pressed, p.released, s);
    }
  }

  lemma NoUsages()
    ensures Usages({}) == {}
  {
  }

  /**
    In every run, interleaved with anything, whose key events are those of some passes over
    the keyboard, the UI holds the usages of the keys that are down.
   */
  lemma UiHoldsKeysDown(steps: seq<Step>, passes: seq<Pass>)
    requires Sampled(passes) && KeysIn(steps) == PassEvents(passes)
    ensures Run(START, steps).held.keys == Usages(KeysDown(passes))
  {
    hide Run, KeysIn, PassEvents, Fold, Usages;
    HeldKeys(steps);
    PassesTrackKeys(passes);
  }
}
