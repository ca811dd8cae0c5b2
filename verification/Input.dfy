/** Input events, the held state they describe, and how a sequence of events changes it. */
module Input {
  import opened Bytes

  type KeyCode = c: int | 0 <= c < 512
  type Button = b: int | 0 <= b < 16

  /** Keys and buttons held down. */
  datatype InputState = InputState(keys: set<KeyCode>, buttons: set<Button>)

  const RELEASED := InputState({}, {})

  datatype InputEvent =
    | Key(code: u16, pressed: bool)
    | PointerButton(button: byte, pressed: bool)
    | MotionRelative(dx: int, dy: int)
    | MotionAbsolute(x: u32, y: u32, width: u32, height: u32)
    | Wheel(horizontal: int, vertical: int)
    | Snapshot(state: InputState)
    | ReleaseAll

  /** The key code or button, if the event has one, is one that can be held. */
  predicate CodeInRange(e: InputEvent) {
    (e.Key? ==> e.code <= 511) && (e.PointerButton? ==> e.button < 16)
  }

  /** A press that the host's reconciler refuses. */
  predicate OutOfRangePress(e: InputEvent) {
    !CodeInRange(e) && e.pressed
  }

  /** Codes above 511 and buttons above 15 are refused, and the viewer ignores the refusal. */
  function ApplyHeld(s: InputState, e: InputEvent): InputState {
    match e
    case Key(code, pressed) =>
      if code > 511 then s else if pressed then s.(keys := s.keys + {code}) else s.(keys := s.keys - {code})
    case PointerButton(button, pressed) =>
      if button >= 16 then s else if pressed then s.(buttons := s.buttons + {button})
        else s.(buttons := s.buttons - {button})
    case ReleaseAll => RELEASED
    case Snapshot(state) => state
    case _ => s
  }

  /** What a receiver holds after a sequence of events. */
  function Fold(s: InputState, events: seq<InputEvent>): InputState {
    if events == [] then s else ApplyHeld(Fold(s, events[..|events| - 1]), events[|events| - 1])
  }

  lemma {:induction false} FoldConcat(s: InputState, a: seq<InputEvent>, b: seq<InputEvent>)
    ensures Fold(s, a + b) == Fold(Fold(s, a), b)
    decreases |b|
  {
    if b == [] {
      assert a + b == a;
    } else {
      assert (a + b)[..|a + b| - 1] == a + b[..|b| - 1];
      FoldConcat(s, a, b[..|b| - 1]);
    }
  }

  lemma FoldOne(s: InputState, e: InputEvent)
    ensures Fold(s, [e]) == ApplyHeld(s, e)
  {
    assert [e][..0] == [];
  }

  // ----- numbered messages

  const MAX_SEQUENCE: u64 := 0xFFFF_FFFF_FFFF_FFFF

  datatype Message = Message(sequence: u64, event: InputEvent)

  function Events(wire: seq<Message>): (e: seq<InputEvent>)
    ensures |e| == |wire|
  {
    if wire == [] then [] else Events(wire[..|wire| - 1]) + [wire[|wire| - 1].event]
  }

  /** The number of message `i`, counted from one and saturating. */
  function NumberOf(i: nat): u64 {
    if i < MAX_SEQUENCE then i + 1 else MAX_SEQUENCE
  }

  predicate Numbered(wire: seq<Message>) {
    forall i :: 0 <= i < |wire| ==> wire[i].sequence == NumberOf(i)
  }

  lemma EventsNext(wire: seq<Message>, n: nat)
    requires n < |wire|
    ensures Events(wire[..n + 1]) == Events(wire[..n]) + [wire[n].event]
  {
    assert wire[..n + 1][..n] == wire[..n];
  }
}
