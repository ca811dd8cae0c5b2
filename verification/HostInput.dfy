/**
  The host's input reconciler: it drops messages of old epochs and old sequence numbers, turns
  snapshots into the key and button actions that are missing, and releases everything when
  the epoch changes or the client disconnects.
 */
module HostInput {
  import opened Bytes
  import opened Input

  datatype InputMessage = InputMessage(epoch: u32, sequence: u64, event: InputEvent)

  datatype Reconciler = Reconciler(epoch: Option<u32>, retired: bool, last: Option<u64>, held: InputState)

  const FRESH := Reconciler(None, false, None, RELEASED)

  datatype Outcome = Applied(actions: seq<InputEvent>) | StaleSequence | StaleEpoch | Failed

  // ----- from snapshots to actions

  /** The key actions for the codes below `n` on which the two states differ. */
  function KeyActions(current: InputState, desired: InputState, n: nat): seq<InputEvent>
    requires n <= 512
  {
    if n == 0 then []
    else
      var code: KeyCode := n - 1;
      KeyActions(current, desired, n - 1) +
      (if (code in current.keys) != (code in desired.keys) then [Key(code, code in desired.keys)] else [])
  }

  function ButtonActions(current: InputState, desired: InputState, n: nat): seq<InputEvent>
    requires n <= 16
  {
    if n == 0 then []
    else
      var button: Button := n - 1;
      ButtonActions(current, desired, n - 1) +
      (if (button in current.buttons) == (button in desired.buttons) then []
       else [PointerButton(button, button in desired.buttons)])
  }

  function Actions(current: InputState, desired: InputState): seq<InputEvent> {
    KeyActions(current, desired, 512) + ButtonActions(current, desired, 16)
  }

  /** The codes of `desired` below `n`, and those of `current` from there on. */
  function MixedKeys(current: InputState, desired: InputState, n: nat): set<KeyCode> {
    (set c | c in desired.keys && c < n) + (set c | c in current.keys && c >= n)
  }

  function MixedButtons(current: InputState, desired: InputState, n: nat): set<Button> {
    (set b | b in desired.buttons && b < n) + (set b | b in current.buttons && b >= n)
  }

  lemma {:induction false} FoldKeyActions(current: InputState, desired: InputState, n: nat)
    requires n <= 512
    ensures Fold(current, KeyActions(current, desired, n)) == current.(keys := MixedKeys(current, desired, n))
  {
    hide Fold;
    if n == 0 {
      FoldNone(current);
      assert MixedKeys(current, desired, 0) == current.keys;
    } else {
      FoldKeyActions(current, desired, n - 1);
      var before, code: KeyCode := KeyActions(current, desired, n - 1), n - 1;
      if (code in current.keys) != (code in desired.keys) {
        FoldConcat(current, before, [Key(code, code in desired.keys)]);
        FoldOne(Fold(current, before), Key(code, code in desired.keys));
      } else {
        assert before + [] == before;
      }
      KeyMoves(current, desired, n);
    }
  }

  lemma KeyMoves(current: InputState, desired: InputState, n: nat)
    requires 0 < n <= 512
    ensures var code: KeyCode := n - 1;
            var mixed := MixedKeys(current, desired, n - 1);
            MixedKeys(current, desired, n) ==
            if (code in current.keys) == (code in desired.keys) then mixed
            else if code in desired.keys then mixed + {code} else mixed - {code}
  {
  }

  lemma {:induction false} FoldButtonActions(s: InputState, current: InputState, desired: InputState, n: nat)
    requires n <= 16 && s.buttons == current.buttons
    ensures Fold(s, ButtonActions(current, desired, n)) == s.(buttons := MixedButtons(current, desired, n))
  {
    hide Fold;
    if n == 0 {
      FoldNone(s);
      assert MixedButtons(current, desired, 0) == current.buttons;
    } else {
      FoldButtonActions(s, current, desired, n - 1);
      var before, button: Button := ButtonActions(current, desired, n - 1), n - 1;
      if (button in current.buttons) != (button in desired.buttons) {
        FoldConcat(s, before, [PointerButton(button, button in desired.buttons)]);
        FoldOne(Fold(s, before), PointerButton(button, button in desired.buttons));
      } else {
        assert before + [] == before;
      }
      ButtonMoves(current, desired, n);
    }
  }

  lemma ButtonMoves(current: InputState, desired: InputState, n: nat)
    requires 0 < n <= 16
    ensures var button: Button := n - 1;
            var mixed := MixedButtons(current, desired, n - 1);
            MixedButtons(current, desired, n) ==
            if (button in current.buttons) == (button in desired.buttons) then mixed
            else if button in desired.buttons then mixed + {button} else mixed - {button}
  {
  }

  lemma FoldNone(s: InputState)
    ensures Fold(s, []) == s
  {
  }

  /** Carrying out the actions takes a platform from the current state to the desired one. */
  lemma ActionsReconcile(current: InputState, desired: InputState)
    ensures Fold(current, Actions(current, desired)) == desired
  {
    hide Fold, KeyActions, ButtonActions;
    FoldKeyActions(current, desired, 512);
    var keyed := current.(keys := MixedKeys(current, desired, 512));
    FoldButtonActions(keyed, current, desired, 16);
    FoldConcat(current, KeyActions(current, desired, 512), ButtonActions(current, desired, 16));
    assert MixedKeys(current, desired, 512) == desired.keys;
    assert MixedButtons(current, desired, 16) == desired.buttons;
  }

  // ----- one message

  /** `apply_fresh`: the new state and the actions, or an error for a code or button out of range. */
  function Fresh(held: InputState, e: InputEvent): Result<(InputState, seq<InputEvent>), ()> {
    match e
    case Key(code, pressed) =>
      if (code <= 511 && code in held.keys) == pressed then Ok((held, []))
      else if code > 511 then Err(())
      else Ok((ApplyHeld(held, e), [e]))
    case PointerButton(button, pressed) =>
      if (button < 16 && button in held.buttons) == pressed then Ok((held, []))
      else if button >= 16 then Err(())
      else Ok((ApplyHeld(held, e), [e]))
    case Snapshot(state) => Ok((state, Actions(held, state)))
    case ReleaseAll => Ok((RELEASED, Actions(held, RELEASED)))
    case _ => Ok((held, [e]))
  }

  /** A fresh event changes the state as the sender's own bookkeeping does, and the actions realise the change. */
  lemma FreshApplies(held: InputState, e: InputEvent)
    ensures Fresh(held, e).Ok? ==> Fresh(held, e).value.0 == ApplyHeld(held, e) == Fold(held, Fresh(held, e).value.1)
    ensures Fresh(held, e).Err? <==> OutOfRangePress(e)
    ensures OutOfRangePress(e) ==> ApplyHeld(held, e) == held
  {
    hide Fold, Actions;
    FoldNone(held);
    FoldOne(held, e);
    match e
    case Snapshot(state) => ActionsReconcile(held, state);
    case ReleaseAll => ActionsReconcile(held, RELEASED);
    case _ =>
  }

  /** The message opens an epoch newer than the reconciler's. */
  predicate Newer(r: Reconciler, m: InputMessage) {
    r.epoch.Some? && m.epoch > r.epoch.value
  }

  function Apply(r: Reconciler, m: InputMessage): (Reconciler, Outcome) {
    if r.retired && r.epoch.Some? && m.epoch <= r.epoch.value then (r, StaleEpoch)
    else
      var r1 := r.(retired := false);
      if r1.epoch.Some? && m.epoch < r1.epoch.value then (r1, StaleEpoch)
      else if r1.epoch.Some? && m.epoch > r1.epoch.value then
        var released := Actions(r1.held, RELEASED);
        var renewed := Reconciler(Some(m.epoch), false, None, RELEASED);
        match Fresh(RELEASED, m.event)
        case Err(_) => (renewed, Failed)
        case Ok((held, actions)) => (renewed.(held := held, last := Some(m.sequence)), Applied(released + actions))
      else
        var r2 := r1.(epoch := Some(m.epoch));
        if r2.last.Some? && m.sequence <= r2.last.value then (r2, StaleSequence)
        else
          match Fresh(r2.held, m.event)
          case Err(_) => (r2, Failed)
          case Ok((held, actions)) => (r2.(held := held, last := Some(m.sequence)), Applied(actions))
  }

  function Emitted(o: Outcome): seq<InputEvent> {
    if o.Applied? then o.actions else []
  }

  /**
    The failing case: a newer epoch begins with a press of a code or button out of range while
    something is held. The reconciler forgets what is held, and the release actions are lost
    with the error. The wire decoder refuses such codes, so only a direct call gets here.
   */
  predicate LosesReleases(r: Reconciler, m: InputMessage) {
    Newer(r, m) && OutOfRangePress(m.event) && r.held != RELEASED
  }

  /** A platform that held what the reconciler held does so afterwards, exactly outside the failing case. */
  lemma PlatformFollowsExactly(r: Reconciler, m: InputMessage)
    ensures var (r', outcome) := Apply(r, m);
            Fold(r.held, Emitted(outcome)) == r'.held <==> !LosesReleases(r, m)
  {
    hide Fold, Actions, Fresh;
    FoldNone(r.held);
    FreshApplies(r.held, m.event);
    FreshApplies(RELEASED, m.event);
    if Newer(r, m) && Fresh(RELEASED, m.event).Ok? {
      ActionsReconcile(r.held, RELEASED);
      FoldConcat(r.held, Actions(r.held, RELEASED), Fresh(RELEASED, m.event).value.1);
    }
  }

  // ----- whole runs

  datatype Op = Deliver(message: InputMessage) | Disconnect | ReleasePlan

  /** A reconciler, and what the platform holds after all actions so far. */
  datatype Host = Host(reconciler: Reconciler, platform: InputState)

  /** What one operation does to the reconciler, and the actions it causes. */
  function After(r: Reconciler, op: Op): (Reconciler, seq<InputEvent>) {
    match op
    case Deliver(m) =>
      var (r', outcome) := Apply(r, m);
      (r', Emitted(outcome))
    case Disconnect =>
      (r.(held := RELEASED, retired := r.epoch.Some?, last := None), Actions(r.held, RELEASED))
    case ReleasePlan =>
      (r.(held := RELEASED), Actions(r.held, RELEASED))
  }

  function Step(h: Host, op: Op): Host {
    var (r, actions) := After(h.reconciler, op);
    Host(r, Fold(h.platform, actions))
  }

  function Run(h: Host, ops: seq<Op>): Host {
    if ops == [] then h else Step(Run(h, ops[..|ops| - 1]), ops[|ops| - 1])
  }

  predicate InSync(h: Host) {
    h.platform == h.reconciler.held
  }

  /** The operation runs into the failing case. */
  predicate Loses(r: Reconciler, op: Op) {
    op.Deliver? && LosesReleases(r, op.message)
  }

  lemma StepInSyncExactly(h: Host, op: Op)
    requires InSync(h)
    ensures InSync(Step(h, op)) <==> !Loses(h.reconciler, op)
  {
    hide Fold, Actions, Apply, LosesReleases;
    match op
    case Deliver(m) => PlatformFollowsExactly(h.reconciler, m);
    case _ => ActionsReconcile(h.reconciler.held, RELEASED);
  }

  const NEW_HOST := Host(FRESH, RELEASED)

  ghost predicate SyncThroughout(ops: seq<Op>) {
    forall n :: 0 <= n <= |ops| ==> InSync(Run(NEW_HOST, ops[..n]))
  }

  ghost predicate NeverLoses(ops: seq<Op>) {
    forall n :: 0 <= n < |ops| ==> !Loses(Run(NEW_HOST, ops[..n]).reconciler, ops[n])
  }

  /**
    Over every run of messages, disconnects and release plans, of any epochs and in any order,
    the platform holds throughout exactly what the reconciler says it holds, if and only if no
    operation runs into the failing case.
   */
  lemma {:induction false} PlatformInSync(ops: seq<Op>)
    ensures SyncThroughout(ops) <==> NeverLoses(ops)
  {
    hide InSync, Loses, Step;
    if ops == [] {
      StartInSync();
      assert ops[..0] == [];
    } else {
      var before, op := ops[..|ops| - 1], ops[|ops| - 1];
      PlatformInSync(before);
      SyncSplits(ops);
      assert before[..|before|] == before;
      if SyncThroughout(before) {
        assert InSync(Run(NEW_HOST, before[..|before|]));
        StepInSyncExactly(Run(NEW_HOST, before), op);
      }
    }
  }

  lemma SyncSplits(ops: seq<Op>)
    requires ops != []
    ensures var before, last := ops[..|ops| - 1], |ops| - 1;
            && (SyncThroughout(ops) <==> SyncThroughout(before) && InSync(Run(NEW_HOST, ops)))
            && (NeverLoses(ops) <==> NeverLoses(before) && !Loses(Run(NEW_HOST, before).reconciler, ops[last]))
  {
    hide InSync, Loses, Run;
    var before, last := ops[..|ops| - 1], |ops| - 1;
    assert ops[..|ops|] == ops;
    assert forall n :: 0 <= n <= last ==> before[..n] == ops[..n];
    if SyncThroughout(ops) {
      assert InSync(Run(NEW_HOST, ops[..|ops|]));
      forall n | 0 <= n <= |before| ensures InSync(Run(NEW_HOST, before[..n])) {
        assert InSync(Run(NEW_HOST, ops[..n]));
      }
    }
    if NeverLoses(ops) {
      assert !Loses(Run(NEW_HOST, ops[..last]).reconciler, ops[last]);
      forall n | 0 <= n < |before| ensures !Loses(Run(NEW_HOST, before[..n]).reconciler, before[n]) {
        assert !Loses(Run(NEW_HOST, ops[..n]).reconciler, ops[n]);
      }
    }
  }

  /** Messages that the wire can carry never run into it. */
  lemma CarriedNeverLose(ops: seq<Op>)
    requires forall i :: 0 <= i < |ops| && ops[i].Deliver? ==> CodeInRange(ops[i].message.event)
    ensures SyncThroughout(ops)
  {
    hide Run, InSync, SyncThroughout;
    PlatformInSync(ops);
  }

  lemma StartInSync()
    ensures InSync(NEW_HOST)
  {
  }

  /** Direct calls into the failing case: the platform keeps a key down that the reconciler has forgotten. */
  lemma ReleasesLost()
    ensures var ops := [Deliver(InputMessage(1, 1, Key(4, true))), Deliver(InputMessage(2, 1, Key(512, true)))];
            Run(NEW_HOST, ops) == Host(Reconciler(Some(2), false, None, RELEASED), InputState({4}, {}))
  {
    hide Actions;
    var first, second := Deliver(InputMessage(1, 1, Key(4, true))), Deliver(InputMessage(2, 1, Key(512, true)));
    var held := InputState({4}, {});
    assert [first, second][..1] == [first] && [first][..0] == [];
    assert RELEASED.keys + {4} == {4};
    assert ApplyHeld(RELEASED, Key(4, true)) == held;
    assert Fresh(RELEASED, Key(4, true)) == Ok((held, [Key(4, true)]));
    FoldOne(RELEASED, Key(4, true));
    assert Run(NEW_HOST, [first]) == Host(Reconciler(Some(1), false, Some(1), held), held);
    FoldNone(held);
  }

  /** After a disconnect nothing is held, and no message of that epoch or an older one has any effect. */
  lemma {:induction false} DisconnectRetires(h: Host, ops: seq<Op>)
    requires InSync(h) && h.reconciler.epoch.Some?
    requires forall i :: 0 <= i < |ops| ==> ops[i].Deliver? && ops[i].message.epoch <= h.reconciler.epoch.value
    ensures var gone := Step(h, Disconnect);
            gone.platform == RELEASED && Run(gone, ops) == gone
  {
    hide Fold, Actions, Fresh;
    ActionsReconcile(h.reconciler.held, RELEASED);
    if ops == [] {
    } else {
      DisconnectRetires(h, ops[..|ops| - 1]);
      FoldNone(RELEASED);
    }
  }

  // ----- what the host holds after any run

  function AfterAll(r: Reconciler, ops: seq<Op>): Reconciler {
    if ops == [] then r else After(AfterAll(r, ops[..|ops| - 1]), ops[|ops| - 1]).0
  }

  lemma {:induction false} RunReconciler(h: Host, ops: seq<Op>)
    ensures Run(h, ops).reconciler == AfterAll(h.reconciler, ops)
  {
    hide After, Fold;
    if ops == [] {
    } else {
      RunReconciler(h, ops[..|ops| - 1]);
    }
  }

  /** The newest epoch of any message, if there was one. */
  function NewestEpoch(ops: seq<Op>): Option<u32> {
    if ops == [] then None
    else
      var before, op := NewestEpoch(ops[..|ops| - 1]), ops[|ops| - 1];
      if op.Deliver? && (before.None? || op.message.epoch > before.value) then Some(op.message.epoch) else before
  }

  /** The operations from the first message of the newest epoch on, without the messages of older ones. */
  function Session(ops: seq<Op>): seq<Op> {
    if ops == [] then []
    else
      var before, op := ops[..|ops| - 1], ops[|ops| - 1];
      var newest := NewestEpoch(before);
      if op.Deliver? && (newest.None? || op.message.epoch > newest.value) then [op]
      else if newest.None? || (op.Deliver? && op.message.epoch < newest.value) then Session(before)
      else Session(before) + [op]
  }

  predicate Usable(op: Op) {
    op.Deliver? && !OutOfRangePress(op.message.event)
  }

  /** The message is usable, and no usable message before it has as high a number. */
  predicate IsRecord(session: seq<Op>, k: nat)
    requires k < |session|
  {
    Usable(session[k]) &&
    forall j :: 0 <= j < k && Usable(session[j]) ==> session[j].message.sequence < session[k].message.sequence
  }

  /** The events of the records and a release for each release plan, in order. */
  function Effects(session: seq<Op>): seq<InputEvent> {
    if session == [] then []
    else
      var last := |session| - 1;
      Effects(session[..last]) +
      (if session[last] == ReleasePlan then [ReleaseAll]
       else if IsRecord(session, last) then [session[last].message.event]
       else [])
  }

  /** The highest number of a usable message, if there is one. */
  function HighestNumber(session: seq<Op>): Option<u64> {
    if session == [] then None
    else
      var before, op := HighestNumber(session[..|session| - 1]), session[|session| - 1];
      if Usable(op) && Above(op.message.sequence, before) then Some(op.message.sequence) else before
  }

  predicate Above(n: u64, floor: Option<u64>) {
    floor.None? || n > floor.value
  }

  lemma {:induction false} HighestExactly(session: seq<Op>, n: u64)
    ensures Above(n, HighestNumber(session)) <==>
            forall j :: 0 <= j < |session| && Usable(session[j]) ==> session[j].message.sequence < n
  {
    if session == [] {
    } else {
      var before := session[..|session| - 1];
      HighestExactly(before, n);
      assert session == before + [session[|session| - 1]];
    }
  }

  lemma RecordExactly(session: seq<Op>, op: Op)
    ensures IsRecord(session + [op], |session|) <==>
            Usable(op) && Above(op.message.sequence, HighestNumber(session))
  {
    hide HighestNumber;
    if Usable(op) {
      HighestExactly(session, op.message.sequence);
      var all := session + [op];
      assert forall j :: 0 <= j < |session| ==> all[j] == session[j];
    }
  }

  lemma EffectsNext(session: seq<Op>, op: Op)
    ensures HighestNumber(session + [op]) ==
            if Usable(op) && Above(op.message.sequence, HighestNumber(session)) then Some(op.message.sequence)
            else HighestNumber(session)
    ensures Effects(session + [op]) == Effects(session) +
            (if op == ReleasePlan then [ReleaseAll]
             else if Usable(op) && Above(op.message.sequence, HighestNumber(session)) then [op.message.event]
             else [])
  {
    assert (session + [op])[..|session|] == session;
    RecordExactly(session, op);
  }

  /** What the operations of one epoch leave: once disconnected nothing, else the fold of their effects. */
  function Settled(epoch: u32, session: seq<Op>): Reconciler {
    if Disconnect in session then Reconciler(Some(epoch), true, None, RELEASED)
    else Reconciler(Some(epoch), false, HighestNumber(session), Fold(RELEASED, Effects(session)))
  }

  /** A reconciler that an epoch of this number can begin on. */
  predicate Awaits(r: Reconciler, epoch: u32) {
    r == FRESH || (r.epoch.Some? && r.epoch.value < epoch)
  }

  predicate AllAwaited(r: Reconciler, ops: seq<Op>) {
    forall i :: 0 <= i < |ops| && ops[i].Deliver? ==> Awaits(r, ops[i].message.epoch)
  }

  lemma EpochBegins(r: Reconciler, m: InputMessage)
    requires Awaits(r, m.epoch)
    ensures After(r, Deliver(m)).0 == Settled(m.epoch, [Deliver(m)])
  {
    hide Actions, Fresh, ApplyHeld, Fold, Effects, HighestNumber;
    FreshApplies(RELEASED, m.event);
    EffectsNext([], Deliver(m));
    assert [] + [Deliver(m)] == [Deliver(m)];
    NoEffects();
    FoldConcat(RELEASED, [], [m.event]);
    FoldOne(RELEASED, m.event);
  }

  lemma NoEffects()
    ensures HighestNumber([]) == None && Effects([]) == [] && Fold(RELEASED, []) == RELEASED
  {
  }

  lemma MessageSettles(session: seq<Op>, m: InputMessage)
    ensures After(Settled(m.epoch, session), Deliver(m)).0 == Settled(m.epoch, session + [Deliver(m)])
  {
    hide Actions, Fresh, ApplyHeld, Fold, Effects, HighestNumber;
    var held := Fold(RELEASED, Effects(session));
    EffectsNext(session, Deliver(m));
    FreshApplies(held, m.event);
    FoldConcat(RELEASED, Effects(session), [m.event]);
    FoldOne(held, m.event);
    assert Effects(session) + [] == Effects(session);
    assert Disconnect in session + [Deliver(m)] <==> Disconnect in session;
  }

  lemma ReleaseSettles(epoch: u32, session: seq<Op>, op: Op)
    requires !op.Deliver?
    ensures After(Settled(epoch, session), op).0 == Settled(epoch, session + [op])
  {
    hide Actions, Fold, Effects, HighestNumber;
    EffectsNext(session, op);
    FoldConcat(RELEASED, Effects(session), [ReleaseAll]);
    FoldOne(Fold(RELEASED, Effects(session)), ReleaseAll);
  }

  lemma OlderIgnored(epoch: u32, session: seq<Op>, m: InputMessage)
    requires m.epoch < epoch
    ensures After(Settled(epoch, session), Deliver(m)).0 == Settled(epoch, session)
  {
    hide Fold, Effects, HighestNumber;
  }

  lemma StillAwaits(r: Reconciler, op: Op, epoch: u32)
    requires Awaits(r, epoch) && !op.Deliver?
    ensures Awaits(After(r, op).0, epoch)
  {
    hide Actions;
  }

  lemma {:induction false} AwaitsUntilMessage(r: Reconciler, ops: seq<Op>, epoch: u32)
    requires Awaits(r, epoch) && NewestEpoch(ops).None?
    ensures Awaits(AfterAll(r, ops), epoch)
  {
    hide Awaits, After;
    if ops == [] {
    } else {
      AwaitsUntilMessage(r, ops[..|ops| - 1], epoch);
      StillAwaits(AfterAll(r, ops[..|ops| - 1]), ops[|ops| - 1], epoch);
    }
  }

  /**
    After any run of messages of any epochs, in any order, with any losses, repeats and codes,
    and of disconnects and release plans: the reconciler holds the fold of the effects of the
    newest epoch, or nothing if it was disconnected since.
   */
  lemma {:induction false} HostFollows(r: Reconciler, ops: seq<Op>)
    requires AllAwaited(r, ops) && NewestEpoch(ops).Some?
    ensures AfterAll(r, ops) == Settled(NewestEpoch(ops).value, Session(ops))
  {
    hide After, Awaits, Settled;
    var before, op := ops[..|ops| - 1], ops[|ops| - 1];
    var newest := NewestEpoch(before);
    if newest.None? {
      AwaitsUntilMessage(r, before, op.message.epoch);
      EpochBegins(AfterAll(r, before), op.message);
    } else {
      HostFollows(r, before);
      if !op.Deliver? {
        ReleaseSettles(newest.value, Session(before), op);
      } else if op.message.epoch < newest.value {
        OlderIgnored(newest.value, Session(before), op.message);
      } else if op.message.epoch == newest.value {
        MessageSettles(Session(before), op.message);
      } else {
        SettledAwaits(newest.value, Session(before), op.message.epoch);
        EpochBegins(AfterAll(r, before), op.message);
      }
    }
  }

  /** The same for a new host, without any condition. */
  lemma EveryRun(ops: seq<Op>)
    ensures Run(NEW_HOST, ops).reconciler ==
            if NewestEpoch(ops).None? then FRESH else Settled(NewestEpoch(ops).value, Session(ops))
  {
    hide Run, AfterAll, Settled, Session, NewestEpoch;
    RunReconciler(NEW_HOST, ops);
    if NewestEpoch(ops).None? {
      StaysFresh(ops);
    } else {
      HostFollows(FRESH, ops);
    }
  }

  lemma {:induction false} StaysFresh(ops: seq<Op>)
    requires NewestEpoch(ops).None?
    ensures AfterAll(FRESH, ops) == FRESH
  {
    hide Actions;
    if ops == [] {
    } else {
      StaysFresh(ops[..|ops| - 1]);
    }
  }

  lemma SettledAwaits(epoch: u32, session: seq<Op>, newer: u32)
    requires epoch < newer
    ensures Awaits(Settled(epoch, session), newer)
  {
    hide Effects, HighestNumber, Fold;
  }

  /** The message is usable, of the newest epoch, and with a number that no usable one of it exceeds. */
  predicate IsNewest(ops: seq<Op>, k: nat)
    requires k < |ops|
  {
    Usable(ops[k]) &&
    forall j :: 0 <= j < |ops| && ops[j].Deliver? ==>
      || ops[j].message.epoch < ops[k].message.epoch
      || (&& ops[j].message.epoch == ops[k].message.epoch
          && (Usable(ops[j]) ==>
                if j < k then ops[j].message.sequence < ops[k].message.sequence
                else ops[j].message.sequence <= ops[k].message.sequence))
  }

  /** No release plan comes after it, and no disconnect after the first message of its epoch. */
  predicate Undisturbed(ops: seq<Op>, k: nat)
    requires k < |ops| && ops[k].Deliver?
  {
    && (forall j :: k < j < |ops| ==> ops[j].Deliver?)
    && (forall i, j :: 0 <= i < j < k && ops[j] == Disconnect && ops[i].Deliver? ==>
          ops[i].message.epoch < ops[k].message.epoch)
  }

  /** Whatever was lost or reordered, the newest message decides if it is a snapshot. */
  lemma {:induction false} SnapshotRepairs(r: Reconciler, ops: seq<Op>, k: nat)
    requires AllAwaited(r, ops)
    requires k < |ops| && IsNewest(ops, k) && Undisturbed(ops, k) && ops[k].message.event.Snapshot?
    ensures AfterAll(r, ops).held == ops[k].message.event.state
  {
    hide After, Awaits, Settled, NewestEpoch, Session;
    var before, op, epoch := ops[..|ops| - 1], ops[|ops| - 1], ops[k].message.epoch;
    NewestIs(ops, k);
    HostFollows(r, ops);
    if k == |ops| - 1 {
      SnapshotLast(ops);
    } else {
      assert IsNewest(before, k) && Undisturbed(before, k) && AllAwaited(r, before);
      SnapshotRepairs(r, before, k);
      NewestIs(before, k);
      HostFollows(r, before);
      SessionHolds(before, k);
      AfterLast(r, ops);
      KeepsSettled(epoch, Session(before), op, ops[k].message.sequence);
    }
  }

  lemma AfterLast(r: Reconciler, ops: seq<Op>)
    requires ops != []
    ensures AfterAll(r, ops) == After(AfterAll(r, ops[..|ops| - 1]), ops[|ops| - 1]).0
  {
  }

  lemma {:induction false} NewestBounds(ops: seq<Op>, j: nat)
    requires j < |ops| && ops[j].Deliver?
    ensures NewestEpoch(ops).Some? && ops[j].message.epoch <= NewestEpoch(ops).value
  {
    if j == |ops| - 1 {
    } else {
      NewestBounds(ops[..|ops| - 1], j);
    }
  }

  lemma {:induction false} NewestBounded(ops: seq<Op>, epoch: u32)
    requires forall j :: 0 <= j < |ops| && ops[j].Deliver? ==> ops[j].message.epoch <= epoch
    ensures NewestEpoch(ops).Some? ==> NewestEpoch(ops).value <= epoch
  {
    if ops == [] {
    } else {
      NewestBounded(ops[..|ops| - 1], epoch);
    }
  }

  lemma NewestIs(ops: seq<Op>, k: nat)
    requires k < |ops| && IsNewest(ops, k)
    ensures NewestEpoch(ops) == Some(ops[k].message.epoch)
  {
    hide NewestEpoch;
    NewestBounds(ops, k);
    NewestBounded(ops, ops[k].message.epoch);
  }

  /** Operations of the newest epoch are in the session, and the session has nothing else. */
  lemma {:induction false} SessionHolds(ops: seq<Op>, k: nat)
    requires k < |ops| && ops[k].Deliver? && NewestEpoch(ops) == Some(ops[k].message.epoch)
    ensures ops[k] in Session(ops)
  {
    if k == |ops| - 1 {
    } else {
      NewestBounds(ops[..|ops| - 1], k);
      SessionHolds(ops[..|ops| - 1], k);
    }
  }

  lemma {:induction false} SessionFrom(ops: seq<Op>, x: Op) returns (j: nat)
    requires x in Session(ops)
    ensures NewestEpoch(ops).Some? && j < |ops| && ops[j] == x
    ensures x.Deliver? ==> x.message.epoch == NewestEpoch(ops).value
    ensures !x.Deliver? ==> exists i :: 0 <= i < j && ops[i].Deliver? && ops[i].message.epoch == NewestEpoch(ops).value
  {
    var before, op := ops[..|ops| - 1], ops[|ops| - 1];
    if x == op && (op.Deliver? ==> op.message.epoch == NewestEpoch(ops).value) && NewestEpoch(ops).Some? {
      j := |ops| - 1;
      if !x.Deliver? {
        var i := NewestArrives(before);
      }
    } else {
      j := SessionFrom(before, x);
    }
  }

  lemma {:induction false} NewestArrives(ops: seq<Op>) returns (i: nat)
    requires NewestEpoch(ops).Some?
    ensures i < |ops| && ops[i].Deliver? && ops[i].message.epoch == NewestEpoch(ops).value
  {
    var before := ops[..|ops| - 1];
    if NewestEpoch(before) == NewestEpoch(ops) {
      i := NewestArrives(before);
    } else {
      i := |ops| - 1;
    }
  }

  lemma SnapshotLast(ops: seq<Op>)
    requires ops != [] && IsNewest(ops, |ops| - 1) && Undisturbed(ops, |ops| - 1)
    requires ops[|ops| - 1].message.event.Snapshot? && NewestEpoch(ops).Some?
    ensures Settled(NewestEpoch(ops).value, Session(ops)).held == ops[|ops| - 1].message.event.state
  {
    hide Settled, IsNewest, Undisturbed;
    var before, op := ops[..|ops| - 1], ops[|ops| - 1];
    NewestIsUsable(ops, |ops| - 1);
    NewestIs(ops, |ops| - 1);
    var epoch, newest := op.message.epoch, NewestEpoch(before);
    if newest == Some(epoch) {
      SessionBelow(ops);
      SnapshotSettles(epoch, Session(before), op);
    } else {
      NoEffects();
      assert [] + [op] == [op];
      SnapshotSettles(epoch, [], op);
    }
  }

  lemma NewestIsUsable(ops: seq<Op>, k: nat)
    requires k < |ops| && IsNewest(ops, k)
    ensures Usable(ops[k])
  {
  }

  /** Before a newest message that ends the run, its session has lower numbers and no disconnect. */
  lemma SessionBelow(ops: seq<Op>)
    requires ops != [] && IsNewest(ops, |ops| - 1) && Undisturbed(ops, |ops| - 1)
    requires NewestEpoch(ops[..|ops| - 1]) == Some(ops[|ops| - 1].message.epoch)
    ensures var session := Session(ops[..|ops| - 1]);
            Disconnect !in session && Above(ops[|ops| - 1].message.sequence, HighestNumber(session))
  {
    hide NewestEpoch, Session, HighestNumber, Above;
    var before, m := ops[..|ops| - 1], ops[|ops| - 1].message;
    var session := Session(before);
    if Disconnect in session {
      var j := SessionFrom(before, Disconnect);
      assert false;
    }
    forall n | 0 <= n < |session| && Usable(session[n]) ensures session[n].message.sequence < m.sequence {
      var j := SessionFrom(before, session[n]);
      assert ops[j] == session[n];
    }
    HighestExactly(session, m.sequence);
  }

  lemma SnapshotSettles(epoch: u32, session: seq<Op>, op: Op)
    requires Usable(op) && op.message.event.Snapshot? && Above(op.message.sequence, HighestNumber(session))
    requires Disconnect !in session
    ensures Settled(epoch, session + [op]).held == op.message.event.state
  {
    hide Fold, Effects, HighestNumber;
    EffectsNext(session, op);
    FoldConcat(RELEASED, Effects(session), [op.message.event]);
    FoldOne(Fold(RELEASED, Effects(session)), op.message.event);
  }

  lemma KeepsSettled(epoch: u32, session: seq<Op>, op: Op, n: u64)
    requires op.Deliver? && op.message.epoch <= epoch
    requires op.message.epoch < epoch || !Usable(op) || op.message.sequence <= n
    requires exists x <- session :: Usable(x) && x.message.sequence == n
    ensures After(Settled(epoch, session), op).0 == Settled(epoch, session)
  {
    hide Fold, Effects, HighestNumber, Fresh, Actions;
    HighestExactly(session, n);
    assert !Above(n, HighestNumber(session)) by {
      var x :| x in session && Usable(x) && x.message.sequence == n;
      var j :| 0 <= j < |session| && session[j] == x;
    }
    FreshApplies(Fold(RELEASED, Effects(session)), op.message.event);
  }

  // ----- one client's messages, delivered in order with repeats

  /** The messages of one session, as the host decodes them. */
  function Sent(epoch: u32, wire: seq<Message>): (ms: seq<InputMessage>)
    ensures |ms| == |wire|
    ensures forall i :: 0 <= i < |wire| ==> ms[i] == InputMessage(epoch, wire[i].sequence, wire[i].event)
  {
    seq(|wire|, i requires 0 <= i < |wire| => InputMessage(epoch, wire[i].sequence, wire[i].event))
  }

  /** How many messages have arrived, when each delivery is the next one or a repeat. */
  function Reach(deliveries: seq<nat>): nat {
    if deliveries == [] then 0
    else
      var before, i := Reach(deliveries[..|deliveries| - 1]), deliveries[|deliveries| - 1];
      if i + 1 > before then i + 1 else before
  }

  predicate NextOrRepeat(deliveries: seq<nat>) {
    if deliveries == [] then true
    else
      var before := deliveries[..|deliveries| - 1];
      NextOrRepeat(before) && deliveries[|deliveries| - 1] <= Reach(before)
  }

  function Delivered(ms: seq<InputMessage>, deliveries: seq<nat>): (ops: seq<Op>)
    requires Reach(deliveries) <= |ms|
    ensures |ops| == |deliveries| && forall op <- ops :: op.Deliver? && op.message in ms
  {
    if deliveries == [] then []
    else
      var before := deliveries[..|deliveries| - 1];
      Delivered(ms, before) + [Deliver(ms[deliveries[|deliveries| - 1]])]
  }

  /** As many of `n` messages as have a number of their own. */
  function Counted(n: nat): (c: nat)
    ensures c <= n
  {
    if n < MAX_SEQUENCE then n else MAX_SEQUENCE
  }

  lemma {:induction false} InOrderEffects(epoch: u32, wire: seq<Message>, deliveries: seq<nat>)
    requires Numbered(wire) && (forall m <- wire :: CodeInRange(m.event))
    requires NextOrRepeat(deliveries) && 0 < Reach(deliveries) <= |wire|
    ensures var session, n := Delivered(Sent(epoch, wire), deliveries), Counted(Reach(deliveries));
            HighestNumber(session) == Some(n) && Effects(session) == Events(wire[..n])
  {
    hide Effects, HighestNumber, Numbered, CodeInRange;
    var before, i := deliveries[..|deliveries| - 1], deliveries[|deliveries| - 1];
    var op := Deliver(Sent(epoch, wire)[i]);
    assert op.message.sequence == NumberOf(i) by { NumberAt(wire, i); }
    assert wire[i] in wire;
    EffectsNext(Delivered(Sent(epoch, wire), before), op);
    if before == [] {
      NoEffects();
      EventsNext(wire, 0);
    } else {
      ReachesSomething(before);
      InOrderEffects(epoch, wire, before);
      if Counted(Reach(before)) < Counted(Reach(deliveries)) {
        EventsNext(wire, Counted(Reach(before)));
      }
    }
  }

  lemma NumberAt(wire: seq<Message>, i: nat)
    requires Numbered(wire) && i < |wire|
    ensures wire[i].sequence == NumberOf(i)
  {
  }

  lemma ReachesSomething(deliveries: seq<nat>)
    requires deliveries != []
    ensures Reach(deliveries) > 0
  {
  }

  lemma {:induction false} OneEpoch(epoch: u32, ops: seq<Op>)
    requires ops != [] && forall op <- ops :: op.Deliver? && op.message.epoch == epoch
    ensures NewestEpoch(ops) == Some(epoch) && Session(ops) == ops
  {
    var before, op := ops[..|ops| - 1], ops[|ops| - 1];
    assert ops == before + [op];
    if before == [] {
      assert NewestEpoch(before) == None;
    } else {
      OneEpoch(epoch, before);
    }
  }

  /**
    A session of any length, delivered in order with any repeats: the host holds the fold of
    the messages that have arrived, up to the last one with a number of its own.
   */
  lemma HostFollowsInOrder(r: Reconciler, epoch: u32, wire: seq<Message>, deliveries: seq<nat>)
    requires Awaits(r, epoch) && Numbered(wire) && (forall m <- wire :: CodeInRange(m.event))
    requires NextOrRepeat(deliveries) && 0 < Reach(deliveries) <= |wire|
    ensures var n := Counted(Reach(deliveries));
            AfterAll(r, Delivered(Sent(epoch, wire), deliveries)) ==
            Reconciler(Some(epoch), false, Some(n), Fold(RELEASED, Events(wire[..n])))
  {
    hide Effects, HighestNumber, Numbered, NextOrRepeat, AfterAll, Session, NewestEpoch, Events, Fold, Awaits,
         CodeInRange;
    var arrived := Delivered(Sent(epoch, wire), deliveries);
    forall op <- arrived ensures op.message.epoch == epoch {
      var i :| 0 <= i < |wire| && Sent(epoch, wire)[i] == op.message;
    }
    OneEpoch(epoch, arrived);
    HostFollows(r, arrived);
    InOrderEffects(epoch, wire, deliveries);
  }

  // ----- the object

  class InputReconciler {
    var epoch: Option<u32>
    var epochRetired: bool
    var lastSequence: Option<u64>
    var state: InputState

    ghost function Model(): Reconciler
      reads this
    {
      Reconciler(epoch, epochRetired, lastSequence, state)
    }

    constructor ()
      ensures Model() == FRESH
    {
      epoch, epochRetired, lastSequence, state := None, false, None, RELEASED;
    }

    method ReconcileSnapshot(snapshot: InputState) returns (actions: seq<InputEvent>)
      modifies this`state
      ensures state == snapshot && actions == Actions(old(state), snapshot)
    {
      actions := [];
      for code := 0 to 512
        invariant actions == KeyActions(state, snapshot, code)
      {
        var current, desired := code in state.keys, code in snapshot.keys;
        if current != desired {
          actions := actions + [Key(code, desired)];
        }
      }
      for button := 0 to 16
        invariant actions == KeyActions(state, snapshot, 512) + ButtonActions(state, snapshot, button)
      {
        var current, desired := button in state.buttons, button in snapshot.buttons;
        if current != desired {
          actions := actions + [PointerButton(button, desired)];
        }
      }
      state := snapshot;
    }

    method ApplyFresh(e: InputEvent) returns (r: Result<seq<InputEvent>, ()>)
      modifies this`state
      ensures match Fresh(old(state), e)
              case Ok((held, actions)) => r == Ok(actions) && state == held
              case Err(_) => r == Err(()) && state == old(state)
    {
      hide Actions;
      match e
      case Key(code, pressed) =>
        if (code <= 511 && code in state.keys) == pressed {
          return Ok([]);
        }
        if code > 511 {
          return Err(());
        }
        state := ApplyHeld(state, e);
        return Ok([e]);
      case PointerButton(button, pressed) =>
        if (button < 16 && button in state.buttons) == pressed {
          return Ok([]);
        }
        if button >= 16 {
          return Err(());
        }
        state := ApplyHeld(state, e);
        return Ok([e]);
      case Snapshot(snapshot) =>
        var actions := ReconcileSnapshot(snapshot);
        return Ok(actions);
      case ReleaseAll =>
        var actions := ReconcileSnapshot(RELEASED);
        return Ok(actions);
      case _ =>
        return Ok([e]);
    }

    method ApplyMessage(m: InputMessage) returns (outcome: Outcome)
      modifies this
      ensures (Model(), outcome) == Apply(old(Model()), m)
    {
      hide Actions, Fresh;
      if epochRetired {
        if epoch.Some? && m.epoch <= epoch.value {
          return StaleEpoch;
        }
        epochRetired := false;
      }
      if epoch.Some? && m.epoch < epoch.value {
        return StaleEpoch;
      }
      if epoch.Some? && m.epoch > epoch.value {
        var released := ReconcileSnapshot(RELEASED);
        epoch := Some(m.epoch);
        epochRetired := false;
        lastSequence := None;
        var more := ApplyFresh(m.event);
        if more.Err? {
          return Failed;
        }
        lastSequence := Some(m.sequence);
        return Applied(released + more.value);
      }
      if epoch.None? {
        epoch := Some(m.epoch);
        epochRetired := false;
      }
      if lastSequence.Some? && m.sequence <= lastSequence.value {
        return StaleSequence;
      }
      var actions := ApplyFresh(m.event);
      if actions.Err? {
        return Failed;
      }
      lastSequence := Some(m.sequence);
      return Applied(actions.value);
    }

    method DisconnectReleasePlan() returns (actions: seq<InputEvent>)
      modifies this
      ensures actions == Actions(old(state), RELEASED)
      ensures Model() == Reconciler(old(epoch), old(epoch).Some?, None, RELEASED)
    {
      actions := ReconcileSnapshot(RELEASED);
      epochRetired := epoch.Some?;
      lastSequence := None;
    }
  }
}
