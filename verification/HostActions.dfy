/**
  What the host's reconciler emits, told from the delivered messages: every applied message is
  carried out once and in order, motion and wheel events as they are, and everything else as
  the list of key and button actions on which the state before and the state after differ.
 */
module HostActions {
  import opened Bytes
  import opened Input
  import opened HostInput

  // ----- the difference of two states

  /** Keys come before buttons, and both by ascending code. */
  function Rank(e: InputEvent): nat {
    match e
    case Key(code, _) => code
    case PointerButton(button, _) => 512 + button
    case _ => 1000
  }

  predicate Ascending(actions: seq<InputEvent>) {
    forall i, j :: 0 <= i < j < |actions| ==> Rank(actions[i]) < Rank(actions[j])
  }

  /** For the key codes below `n`, the actions that lead from one state to the other, and no others. */
  ghost predicate KeyDifference(actions: seq<InputEvent>, from: InputState, to: InputState, n: nat) {
    && (forall a <- actions :: a.Key? && a.code < n && a.code < 512)
    && (forall c: KeyCode | c < n :: Key(c, true) in actions <==> c !in from.keys && c in to.keys)
    && (forall c: KeyCode | c < n :: Key(c, false) in actions <==> c in from.keys && c !in to.keys)
  }

  ghost predicate ButtonDifference(actions: seq<InputEvent>, from: InputState, to: InputState, n: nat) {
    && (forall a <- actions :: a.PointerButton? && a.button < n && a.button < 16)
    && (forall b: Button | b < n :: PointerButton(b, true) in actions <==> b !in from.buttons && b in to.buttons)
    && (forall b: Button | b < n :: PointerButton(b, false) in actions <==> b in from.buttons && b !in to.buttons)
  }

  /** Every press and release on which the states differ, once, in ascending order, and nothing else. */
  ghost predicate Difference(actions: seq<InputEvent>, from: InputState, to: InputState) {
    Ascending(actions) &&
    exists k :: 0 <= k <= |actions| && KeyDifference(actions[..k], from, to, 512) &&
                ButtonDifference(actions[k..], from, to, 16)
  }

  lemma AscendingAppend(actions: seq<InputEvent>, a: InputEvent)
    requires Ascending(actions) && forall x <- actions :: Rank(x) < Rank(a)
    ensures Ascending(actions + [a])
  {
  }

  lemma {:induction false} KeysDiffer(from: InputState, to: InputState, n: nat)
    requires n <= 512
    ensures KeyDifference(KeyActions(from, to, n), from, to, n) && Ascending(KeyActions(from, to, n))
  {
    if n == 0 {
    } else {
      KeysDiffer(from, to, n - 1);
      var before, code: KeyCode := KeyActions(from, to, n - 1), n - 1;
      AscendingAppend(before, Key(code, code in to.keys));
      KeyDifferenceNext(before, from, to, code);
    }
  }

  lemma KeyDifferenceNext(before: seq<InputEvent>, from: InputState, to: InputState, code: KeyCode)
    requires KeyDifference(before, from, to, code)
    ensures var last := if (code in from.keys) != (code in to.keys) then [Key(code, code in to.keys)] else [];
            KeyDifference(before + last, from, to, code + 1)
  {
  }

  lemma {:induction false} ButtonsDiffer(from: InputState, to: InputState, n: nat)
    requires n <= 16
    ensures ButtonDifference(ButtonActions(from, to, n), from, to, n) && Ascending(ButtonActions(from, to, n))
  {
    if n == 0 {
    } else {
      ButtonsDiffer(from, to, n - 1);
      var before, button: Button := ButtonActions(from, to, n - 1), n - 1;
      AscendingAppend(before, PointerButton(button, button in to.buttons));
      ButtonDifferenceNext(before, from, to, button);
    }
  }

  lemma ButtonDifferenceNext(before: seq<InputEvent>, from: InputState, to: InputState, button: Button)
    requires ButtonDifference(before, from, to, button)
    ensures var last := if (button in from.buttons) == (button in to.buttons) then []
                        else [PointerButton(button, button in to.buttons)];
            ButtonDifference(before + last, from, to, button + 1)
  {
  }

  lemma ActionsDiffer(from: InputState, to: InputState)
    ensures Difference(Actions(from, to), from, to)
  {
    hide KeyActions, ButtonActions;
    var keys, buttons := KeyActions(from, to, 512), ButtonActions(from, to, 16);
    KeysDiffer(from, to, 512);
    ButtonsDiffer(from, to, 16);
    var all := Actions(from, to);
    assert all[..|keys|] == keys && all[|keys|..] == buttons;
    forall i, j | 0 <= i < j < |all| ensures Rank(all[i]) < Rank(all[j]) {
      if i < |keys| <= j {
        assert all[i] in keys && all[j] in buttons;
      }
    }
  }

  // ----- one event

  /** Events that change nothing held and go to the platform as they are. */
  predicate Passing(e: InputEvent) {
    e.MotionRelative? || e.MotionAbsolute? || e.Wheel?
  }

  /** The actions that carry out one event on a platform that holds `held`. */
  ghost predicate CarriesOut(actions: seq<InputEvent>, held: InputState, e: InputEvent) {
    if Passing(e) then actions == [e] else Difference(actions, held, ApplyHeld(held, e))
  }

  lemma NoDifference(held: InputState)
    ensures Difference([], held, held)
  {
    var none: seq<InputEvent> := [];
    assert none[..0] == [] && none[0..] == [];
  }

  lemma KeyDiffers(held: InputState, code: KeyCode, pressed: bool)
    requires (code in held.keys) != pressed
    ensures Difference([Key(code, pressed)], held, ApplyHeld(held, Key(code, pressed)))
  {
    var actions := [Key(code, pressed)];
    assert actions[..1] == actions && actions[1..] == [];
  }

  lemma ButtonDiffers(held: InputState, button: Button, pressed: bool)
    requires (button in held.buttons) != pressed
    ensures Difference([PointerButton(button, pressed)], held, ApplyHeld(held, PointerButton(button, pressed)))
  {
    var actions := [PointerButton(button, pressed)];
    assert actions[..0] == [] && actions[0..] == actions;
  }

  lemma FreshCarriesOut(held: InputState, e: InputEvent)
    requires !OutOfRangePress(e)
    ensures Fresh(held, e).Ok? && CarriesOut(Fresh(held, e).value.1, held, e)
  {
    hide Difference, Actions;
    NoDifference(held);
    match e
    case Key(code, pressed) =>
      if code < 512 && (code in held.keys) != pressed {
        KeyDiffers(held, code, pressed);
      } else if code < 512 {
        assert ApplyHeld(held, e) == held;
      }
    case PointerButton(button, pressed) =>
      if button < 16 && (button in held.buttons) != pressed {
        ButtonDiffers(held, button, pressed);
      } else if button < 16 {
        assert ApplyHeld(held, e) == held;
      }
    case Snapshot(state) => ActionsDiffer(held, state);
    case ReleaseAll => ActionsDiffer(held, RELEASED);
    case _ =>
  }

  // ----- which messages are applied

  /** The message is of an epoch newer than any before it. */
  predicate Opens(before: seq<Op>, m: InputMessage) {
    NewestEpoch(before).None? || m.epoch > NewestEpoch(before).value
  }

  /**
    The message is usable and opens an epoch, or it is of the newest one, which was not
    disconnected since it began, with a higher number than every usable message of it so far.
   */
  predicate Taken(before: seq<Op>, m: InputMessage) {
    && !OutOfRangePress(m.event)
    && (|| Opens(before, m)
        || (&& m.epoch == NewestEpoch(before).value
            && Disconnect !in Session(before)
            && forall x <- Session(before) :: Usable(x) ==> x.message.sequence < m.sequence))
  }

  /** What one more operation may emit, told from the operations before it and what is held. */
  ghost predicate Emits(actions: seq<InputEvent>, before: seq<Op>, held: InputState, op: Op) {
    match op
    case Deliver(m) =>
      if !Taken(before, m) then actions == []
      else if !Opens(before, m) then CarriesOut(actions, held, m.event)
      else
        exists k :: 0 <= k <= |actions| && Difference(actions[..k], held, RELEASED) &&
                    CarriesOut(actions[k..], RELEASED, m.event)
    case _ => Difference(actions, held, RELEASED)
  }

  lemma StaleEmitsNothing(epoch: u32, session: seq<Op>, m: InputMessage)
    requires m.epoch <= epoch
    requires m.epoch == epoch ==>
               || Disconnect in session || OutOfRangePress(m.event)
               || exists x <- session :: Usable(x) && x.message.sequence >= m.sequence
    ensures After(Settled(epoch, session), Deliver(m)).1 == []
  {
    hide Fold, Effects, HighestNumber, Actions, Fresh;
    FreshApplies(Fold(RELEASED, Effects(session)), m.event);
    HighestExactly(session, m.sequence);
    if x :| x in session && Usable(x) && x.message.sequence >= m.sequence {
      var j :| 0 <= j < |session| && session[j] == x;
    }
  }

  lemma NextEmits(epoch: u32, session: seq<Op>, m: InputMessage)
    requires m.epoch == epoch && Disconnect !in session && !OutOfRangePress(m.event)
    requires forall x <- session :: Usable(x) ==> x.message.sequence < m.sequence
    ensures var r := Settled(epoch, session); CarriesOut(After(r, Deliver(m)).1, r.held, m.event)
  {
    hide Fold, Effects, HighestNumber, Actions, Fresh, CarriesOut;
    HighestExactly(session, m.sequence);
    FreshCarriesOut(Settled(epoch, session).held, m.event);
  }

  lemma OpeningEmits(r: Reconciler, m: InputMessage)
    requires Newer(r, m) && !OutOfRangePress(m.event)
    ensures var actions := After(r, Deliver(m)).1;
            exists k :: 0 <= k <= |actions| && Difference(actions[..k], r.held, RELEASED) &&
                        CarriesOut(actions[k..], RELEASED, m.event)
  {
    hide Actions, Fresh, CarriesOut, Difference;
    FreshCarriesOut(RELEASED, m.event);
    ActionsDiffer(r.held, RELEASED);
    var actions, k := After(r, Deliver(m)).1, |Actions(r.held, RELEASED)|;
    assert actions[..k] == Actions(r.held, RELEASED) && actions[k..] == Fresh(RELEASED, m.event).value.1;
  }

  lemma FirstEmits(m: InputMessage)
    ensures var actions := After(FRESH, Deliver(m)).1;
            if OutOfRangePress(m.event) then actions == [] else CarriesOut(actions, RELEASED, m.event)
  {
    hide Actions, Fresh, CarriesOut;
    FreshApplies(RELEASED, m.event);
    if !OutOfRangePress(m.event) {
      FreshCarriesOut(RELEASED, m.event);
    }
  }

  lemma OpeningFails(r: Reconciler, m: InputMessage)
    requires Newer(r, m) && OutOfRangePress(m.event)
    ensures After(r, Deliver(m)).1 == []
  {
    hide Actions, Fresh;
    FreshApplies(RELEASED, m.event);
  }

  /** Every operation of every run emits what the messages before it and its own event call for. */
  lemma {:induction false} EveryStepEmits(before: seq<Op>, op: Op)
    ensures var r := Run(NEW_HOST, before).reconciler; Emits(After(r, op).1, before, r.held, op)
  {
    hide Run, After, Session, Difference, CarriesOut;
    EveryRun(before);
    var r := Run(NEW_HOST, before).reconciler;
    match op
    case Deliver(m) => DeliveryEmits(before, m);
    case _ => ReleaseEmits(r, op);
  }

  lemma ReleaseEmits(r: Reconciler, op: Op)
    requires !op.Deliver?
    ensures Difference(After(r, op).1, r.held, RELEASED)
  {
    hide Actions, Difference;
    ActionsDiffer(r.held, RELEASED);
  }

  lemma DeliveryEmits(before: seq<Op>, m: InputMessage)
    ensures var r := Run(NEW_HOST, before).reconciler; Emits(After(r, Deliver(m)).1, before, r.held, Deliver(m))
  {
    hide Run, After, Session, NewestEpoch, Difference, CarriesOut, Fold, Effects, HighestNumber;
    EveryRun(before);
    var r := Run(NEW_HOST, before).reconciler;
    if NewestEpoch(before).None? {
      FirstEmits(m);
      OpensFromNothing(After(r, Deliver(m)).1, m.event);
    } else if Opens(before, m) {
      if OutOfRangePress(m.event) {
        OpeningFails(r, m);
      } else {
        OpeningEmits(r, m);
      }
    } else if Taken(before, m) {
      NextEmits(m.epoch, Session(before), m);
    } else {
      StaleEmitsNothing(NewestEpoch(before).value, Session(before), m);
    }
  }

  lemma OpensFromNothing(actions: seq<InputEvent>, e: InputEvent)
    ensures CarriesOut(actions, RELEASED, e) ==>
            exists k :: 0 <= k <= |actions| && Difference(actions[..k], RELEASED, RELEASED) &&
                        CarriesOut(actions[k..], RELEASED, e)
  {
    hide CarriesOut, Difference;
    NoDifference(RELEASED);
    assert actions[..0] == [] && actions[0..] == actions;
  }

  /** What every delivery of every run is answered with. */
  lemma {:induction false} EveryOutcome(before: seq<Op>, m: InputMessage)
    ensures var outcome := Apply(Run(NEW_HOST, before).reconciler, m).1;
            var newest, session := NewestEpoch(before), Session(before);
            && (outcome.Applied? <==> Taken(before, m))
            && (outcome == StaleEpoch <==>
                  && newest.Some?
                  && (m.epoch < newest.value || (m.epoch == newest.value && Disconnect in session)))
            && (outcome == StaleSequence <==>
                  && newest == Some(m.epoch) && Disconnect !in session
                  && exists x <- session :: Usable(x) && x.message.sequence >= m.sequence)
  {
    hide Run, Session, NewestEpoch, Fold, Effects, HighestNumber, Actions, Fresh, ApplyHeld;
    EveryRun(before);
    var r, session := Run(NEW_HOST, before).reconciler, Session(before);
    FreshApplies(r.held, m.event);
    FreshApplies(RELEASED, m.event);
    HighestExactly(session, m.sequence);
    if x :| x in session && Usable(x) && x.message.sequence >= m.sequence {
      var j :| 0 <= j < |session| && session[j] == x;
    }
  }

  // ----- motion and wheel events over whole runs

  function PassingOf(events: seq<InputEvent>): seq<InputEvent> {
    if events == [] then []
    else
      var last := events[|events| - 1];
      PassingOf(events[..|events| - 1]) + (if Passing(last) then [last] else [])
  }

  /** All actions of a run of a new host. */
  function Emissions(ops: seq<Op>): seq<InputEvent> {
    if ops == [] then []
    else
      var before := ops[..|ops| - 1];
      Emissions(before) + After(Run(NEW_HOST, before).reconciler, ops[|ops| - 1]).1
  }

  /** The events of the applied messages. */
  function TakenEvents(ops: seq<Op>): seq<InputEvent> {
    if ops == [] then []
    else
      var before, op := ops[..|ops| - 1], ops[|ops| - 1];
      TakenEvents(before) + (if op.Deliver? && Taken(before, op.message) then [op.message.event] else [])
  }

  lemma {:induction false} PassingConcat(a: seq<InputEvent>, b: seq<InputEvent>)
    ensures PassingOf(a + b) == PassingOf(a) + PassingOf(b)
    decreases |b|
  {
    if b == [] {
      assert a + b == a;
    } else {
      assert (a + b)[..|a + b| - 1] == a + b[..|b| - 1];
      PassingConcat(a, b[..|b| - 1]);
    }
  }

  lemma PassingOne(e: InputEvent)
    ensures PassingOf([e]) == if Passing(e) then [e] else []
  {
    assert [e][..0] == [];
  }

  lemma {:induction false} NonePasses(events: seq<InputEvent>)
    requires forall e <- events :: !Passing(e)
    ensures PassingOf(events) == []
  {
    if events == [] {
    } else {
      NonePasses(events[..|events| - 1]);
    }
  }

  lemma DifferencePassesNothing(actions: seq<InputEvent>, from: InputState, to: InputState)
    requires Difference(actions, from, to)
    ensures PassingOf(actions) == []
  {
    hide KeyDifference, ButtonDifference, Ascending, PassingOf;
    var k :| 0 <= k <= |actions| && KeyDifference(actions[..k], from, to, 512) &&
             ButtonDifference(actions[k..], from, to, 16);
    KeysPassNothing(actions[..k], from, to);
    ButtonsPassNothing(actions[k..], from, to);
    PassingConcat(actions[..k], actions[k..]);
    assert actions == actions[..k] + actions[k..];
  }

  lemma KeysPassNothing(actions: seq<InputEvent>, from: InputState, to: InputState)
    requires KeyDifference(actions, from, to, 512)
    ensures PassingOf(actions) == []
  {
    hide PassingOf;
    NonePasses(actions);
  }

  lemma ButtonsPassNothing(actions: seq<InputEvent>, from: InputState, to: InputState)
    requires ButtonDifference(actions, from, to, 16)
    ensures PassingOf(actions) == []
  {
    hide PassingOf;
    NonePasses(actions);
  }

  lemma CarriesOutPasses(actions: seq<InputEvent>, held: InputState, e: InputEvent)
    requires CarriesOut(actions, held, e)
    ensures PassingOf(actions) == PassingOf([e])
  {
    hide Difference, PassingOf;
    PassingOne(e);
    if !Passing(e) {
      DifferencePassesNothing(actions, held, ApplyHeld(held, e));
    }
  }

  lemma EmitsPasses(actions: seq<InputEvent>, before: seq<Op>, held: InputState, op: Op)
    requires Emits(actions, before, held, op)
    ensures PassingOf(actions) ==
            PassingOf(if op.Deliver? && Taken(before, op.message) then [op.message.event] else [])
  {
    hide Difference, CarriesOut, PassingOf, Taken, Opens;
    NonePasses([]);
    match op
    case Deliver(m) =>
      if Taken(before, m) {
        if Opens(before, m) {
          var k :| 0 <= k <= |actions| && Difference(actions[..k], held, RELEASED) &&
                   CarriesOut(actions[k..], RELEASED, m.event);
          DifferencePassesNothing(actions[..k], held, RELEASED);
          CarriesOutPasses(actions[k..], RELEASED, m.event);
          PassingConcat(actions[..k], actions[k..]);
          assert actions == actions[..k] + actions[k..];
        } else {
          CarriesOutPasses(actions, held, m.event);
        }
      }
    case _ => DifferencePassesNothing(actions, held, RELEASED);
  }

  /**
    Over every run of a new host: the motion and wheel events it emits are those of the applied
    messages, each once and in order.
   */
  lemma {:induction false} EveryMotionOnce(ops: seq<Op>)
    ensures PassingOf(Emissions(ops)) == PassingOf(TakenEvents(ops))
  {
    hide Run, After, Emits, Taken, PassingOf;
    if ops == [] {
    } else {
      var before, op := ops[..|ops| - 1], ops[|ops| - 1];
      var r := Run(NEW_HOST, before).reconciler;
      EveryMotionOnce(before);
      EveryStepEmits(before, op);
      EmitsPasses(After(r, op).1, before, r.held, op);
      PassingConcat(Emissions(before), After(r, op).1);
      PassingConcat(TakenEvents(before), if op.Deliver? && Taken(before, op.message) then [op.message.event] else []);
    }
  }
}
