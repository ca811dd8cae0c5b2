/**
  The lease on a duplicated desktop frame: when a capture source holds a frame, when the GPU
  may still be reading it, and when it is given back. What the native calls report is a
  parameter of every method; the calls themselves are recorded in a ghost log, which a
  protocol stated on its own judges.
 */
module DdaLease {
  import opened Bytes

  // ----- the protocol of the duplication object

  datatype Event =
    | AcquireFrame(ok: bool)   // AcquireNextFrame
    | ReleaseFrame(ok: bool)
    | ReadFrame                // a copy or conversion of the frame is queued on the GPU
    | AwaitQueue(ok: bool)     // the completion query is waited for
    | DropAll                  // duplication, context and device are let go

  /** A frame is held from the duplication object; the GPU may still be reading it. */
  datatype Native = Native(held: bool, busy: bool)

  const IDLE := Native(false, false)

  predicate Permits(n: Native, e: Event) {
    match e
    case AcquireFrame(_) => !n.held
    case ReleaseFrame(_) => n.held && !n.busy
    case ReadFrame => n.held
    case AwaitQueue(_) => true
    case DropAll => true
  }

  /** A failed release leaves the frame held, a failed wait proves nothing. */
  function After(n: Native, e: Event): Native {
    match e
    case AcquireFrame(ok) => n.(held := n.held || ok)
    case ReleaseFrame(ok) => n.(held := n.held && !ok)
    case ReadFrame => n.(busy := true)
    case AwaitQueue(ok) => n.(busy := n.busy && !ok)
    case DropAll => IDLE
  }

  /** Where a log of calls leads, if every call in it was permitted. */
  function Judge(log: seq<Event>): Option<Native> {
    if log == [] then Some(IDLE)
    else
      var n := Judge(log[..|log| - 1]);
      var e := log[|log| - 1];
      if n.Some? && Permits(n.value, e) then Some(After(n.value, e)) else None
  }

  lemma JudgeNext(log: seq<Event>, e: Event)
    requires Judge(log).Some? && Permits(Judge(log).value, e)
    ensures Judge(log + [e]) == Some(After(Judge(log).value, e))
  {
    assert (log + [e])[..|log|] == log;
  }

  /** In a log that is judged lawful, so is everything before any point of it. */
  lemma {:induction false} LawfulPrefix(log: seq<Event>, i: nat)
    requires i < |log| && Judge(log).Some?
    ensures Judge(log[..i]).Some? && Permits(Judge(log[..i]).value, log[i])
  {
    if i >= |log| - 1 {
    } else {
      LawfulPrefix(log[..|log| - 1], i);
      assert log[..|log| - 1][..i] == log[..i];
    }
  }

  /** Between `i` and `j` the queue was waited for with success, or everything was let go. */
  predicate ProvenBetween(log: seq<Event>, i: nat, j: nat)
    requires i < j <= |log|
  {
    exists k :: i < k < j && (log[k] == AwaitQueue(true) || log[k] == DropAll)
  }

  predicate GivenBackBetween(log: seq<Event>, i: nat, j: nat)
    requires i < j <= |log|
  {
    exists k :: i < k < j && (log[k] == ReleaseFrame(true) || log[k] == DropAll)
  }

  lemma JudgeAt(log: seq<Event>, i: nat)
    requires i < |log| && Judge(log).Some?
    ensures Judge(log[..i + 1]).Some? && Judge(log[..i]).Some? && Permits(Judge(log[..i]).value, log[i])
    ensures Judge(log[..i + 1]).value == After(Judge(log[..i]).value, log[i])
  {
    LawfulPrefix(log, i);
    JudgeNext(log[..i], log[i]);
    assert log[..i + 1] == log[..i] + [log[i]];
  }

  lemma {:induction false} BusyUntilProven(log: seq<Event>, i: nat, j: nat)
    requires i < j < |log| && Judge(log).Some? && log[i] == ReadFrame
    ensures Judge(log[..j]).Some? && (Judge(log[..j]).value.busy || ProvenBetween(log, i, j))
  {
    hide Judge;
    JudgeAt(log, j - 1);
    if i >= j - 1 {
    } else {
      BusyUntilProven(log, i, j - 1);
      if ProvenBetween(log, i, j - 1) {
        var k :| i < k < j - 1 && (log[k] == AwaitQueue(true) || log[k] == DropAll);
      } else {
        assert !ProvenBetween(log, i, j) ==> log[j - 1] != AwaitQueue(true) && log[j - 1] != DropAll;
      }
    }
  }

  lemma {:induction false} HeldUntilGivenBack(log: seq<Event>, i: nat, j: nat)
    requires i < j < |log| && Judge(log).Some? && log[i] == AcquireFrame(true)
    ensures Judge(log[..j]).Some? && (Judge(log[..j]).value.held || GivenBackBetween(log, i, j))
  {
    hide Judge;
    JudgeAt(log, j - 1);
    if i >= j - 1 {
    } else {
      HeldUntilGivenBack(log, i, j - 1);
      if GivenBackBetween(log, i, j - 1) {
        var k :| i < k < j - 1 && (log[k] == ReleaseFrame(true) || log[k] == DropAll);
      } else {
        assert !GivenBackBetween(log, i, j) ==> log[j - 1] != ReleaseFrame(true) && log[j - 1] != DropAll;
      }
    }
  }

  /**
    What a lawful log says of the calls in it: a frame is not given back after the GPU was
    told to read it without proof in between that it has finished, and no frame is acquired
    while another is out.
   */
  lemma LawfulMeans(log: seq<Event>, i: nat, j: nat)
    requires i < j < |log| && Judge(log).Some?
    ensures log[i] == ReadFrame && log[j].ReleaseFrame? ==> ProvenBetween(log, i, j)
    ensures log[i] == AcquireFrame(true) && log[j].AcquireFrame? ==> GivenBackBetween(log, i, j)
  {
    hide Judge;
    JudgeAt(log, j);
    if log[i] == ReadFrame {
      BusyUntilProven(log, i, j);
    }
    if log[i] == AcquireFrame(true) {
      HeldUntilGivenBack(log, i, j);
    }
  }

  // ----- what a call asks for and what the native calls report

  datatype Description = Description(width: u32, height: u32, format: u32)

  const NV12: u32 := 103
  const BGRA: u32 := 87
  const RGBA: u32 := 28

  datatype StartFate = NoOutput | NoDevice | NoDuplication | NoQuery | AllCreated

  /** `texture` covers the texture query and the frame's metadata. */
  datatype PollFate =
    | TimedOut
    | Failed
    | NoResource(release: bool)
    | Arrived(d: Description, texture: bool, release: bool)

  /**
    `release` is the release after a proven copy, `proof` and `releaseAgain` the wait and the
    release made on the way out of a failed detach; `prepare` covers the video processor and
    the pooled texture, `intermediate` the staging texture.
   */
  datatype DetachFate = DetachFate(
    texture: bool, prepare: bool, outputView: bool, inputView: bool, intermediate: bool, intermediateView: bool,
    blit: bool, wait: bool, release: bool, proof: bool, releaseAgain: bool)

  datatype Request = Request(format: u32, width: u32, height: u32)

  /** Zero stands for the frame's own value, and three formats may be given by their four letters. */
  function Resolved(r: Request, d: Description): Request {
    var format := if r.format == 0 then d.format else r.format;
    Request(
      if format == 0x3231_564E then NV12
      else if format == 0x4152_4742 then BGRA
      else if format == 0x4142_4752 then RGBA
      else format,
      if r.width == 0 then d.width else r.width,
      if r.height == 0 then d.height else r.height)
  }

  /** The GPU starts to read the frame. */
  predicate Begins(r: Request, d: Description, f: DetachFate) {
    var q := Resolved(r, d);
    if q.format == d.format then q.width == d.width && q.height == d.height && f.texture
    else
      q.format == NV12 && q.width % 2 == 0 && q.height % 2 == 0 &&
      f.prepare && f.outputView && (f.inputView || f.intermediate)
  }

  /** It is also known to have finished. */
  predicate Completes(r: Request, d: Description, f: DetachFate) {
    Begins(r, d, f) && f.wait &&
    (Resolved(r, d).format != d.format ==> f.blit && (f.inputView || f.intermediateView))
  }

  /** Four letters as a number, the first in the lowest byte. */
  function Letters(a: char, b: char, c: char, d: char): nat {
    a as nat + 256 * (b as nat + 256 * (c as nat + 256 * d as nat))
  }

  /** The formats by number and by letters, and zero for the frame's own values. */
  lemma FormatsByLetters(d: Description, width: u32, height: u32)
    ensures Resolved(Request(Letters('N', 'V', '1', '2'), width, height), d).format == NV12
    ensures Resolved(Request(Letters('B', 'G', 'R', 'A'), width, height), d).format == BGRA
    ensures Resolved(Request(Letters('R', 'G', 'B', 'A'), width, height), d).format == RGBA
    ensures d.format in {NV12, BGRA, RGBA} ==>
              Resolved(Request(0, 0, 0), d) == Resolved(Request(d.format, d.width, d.height), d) ==
              Request(d.format, d.width, d.height)
    ensures width > 0 && height > 0 ==>
              var q := Resolved(Request(0, width, height), d); q.width == width && q.height == height
  {
  }

  /** A copy that is made has the frame's format and size, or it is NV12 of even size. */
  lemma CopyIsAsAsked(r: Request, d: Description, f: DetachFate)
    requires Completes(r, d, f)
    ensures var q := Resolved(r, d);
            || (q == Request(d.format, d.width, d.height) && f.texture && f.wait)
            || (&& q.format == NV12 != d.format && q.width % 2 == q.height % 2 == 0
                && f.prepare && f.outputView && f.blit && f.wait
                && (f.inputView || (f.intermediate && f.intermediateView)))
  {
  }

  // ----- the source

  datatype Reason = CopyGuard | ReleaseFailed

  /** A call returns, throws, or ends the process. */
  datatype Outcome = Returned | Threw | Ended(reason: Reason)

  /** A frame that cannot be used is given back at once; if that fails the process ends. */
  function PollOutcome(f: PollFate): Outcome {
    match f
    case TimedOut => Returned
    case Failed => Threw
    case NoResource(release) => if release then Returned else Ended(ReleaseFailed)
    case Arrived(_, texture, release) => if texture then Returned else if release then Threw else Ended(ReleaseFailed)
  }

  /** The process ends exactly if a frame was acquired, cannot be used, and cannot be given back. */
  lemma PollOutcomes(f: PollFate)
    ensures PollOutcome(f) == Ended(ReleaseFailed) <==> (f.NoResource? || (f.Arrived? && !f.texture)) && !f.release
    ensures PollOutcome(f) == Threw <==> f.Failed? || (f.Arrived? && !f.texture && f.release)
    ensures PollOutcome(f) != Ended(CopyGuard)
  {
  }

  class DdaCaptureSource {
    var duplication: bool
    var device: bool
    var context: bool
    var query: bool
    var pending: bool
    var description: Description
    var copyStarted: bool
    var copyCompleted: bool
    var unusable: bool
    ghost var log: seq<Event>

    /** Every call made so far was permitted when it was made. */
    ghost predicate Lawful()
      reads this
    {
      Judge(log).Some?
    }

    ghost function Device(): Native
      requires Lawful()
      reads this
    {
      Judge(log).value
    }

    predicate Ready()
      reads this
    {
      !unusable && duplication && device && context && query
    }

    /**
      What holds between public calls. A frame is outstanding exactly when the pending texture
      is set; nothing is being read and no copy is recorded as begun.
     */
    ghost predicate Valid()
      reads this
    {
      && Lawful()
      && Device() == Native(pending, false)
      && !copyStarted && !copyCompleted
      && (unusable ==> !duplication)
      && (pending ==> Ready())
      && (query ==> duplication)
      && (duplication ==> device && context)
    }

    constructor ()
      ensures Valid() && !duplication && !unusable && log == []
    {
      duplication, device, context, query, pending := false, false, false, false, false;
      description := Description(0, 0, 0);
      copyStarted, copyCompleted, unusable := false, false, false;
      log := [];
    }

    /** Makes one native call, which the protocol must permit. */
    ghost method Call(e: Event)
      requires Lawful() && Permits(Device(), e)
      modifies `log
      ensures log == old(log) + [e] && Lawful() && Device() == After(old(Device()), e)
    {
      JudgeNext(log, e);
      log := log + [e];
    }

    method Start(f: StartFate) returns (outcome: Outcome)
      requires Valid()
      modifies this
      ensures Valid() && log == old(log)
      ensures outcome == (if old(duplication) || f != AllCreated then Threw else Returned)
      ensures old(duplication) ==> Ready() == old(Ready()) && pending == old(pending) && unusable == old(unusable)
      ensures !old(duplication) ==>
                !unusable && !pending && Ready() == (f == AllCreated) && duplication == (f.NoQuery? || f.AllCreated?)
    {
      hide Judge;
      if duplication {
        return Threw;
      }
      unusable := false;
      if f == NoOutput {
        return Threw;
      }
      device, context := f != NoDevice, f != NoDevice;
      if f == NoDevice || f == NoDuplication {
        return Threw;
      }
      duplication := true;
      if f == NoQuery {
        return Threw;
      }
      query := true;
      return Returned;
    }

    method Poll(f: PollFate) returns (outcome: Outcome, frame: Option<Description>)
      requires Valid()
      modifies `description, `pending, `log
      ensures Lawful() && (outcome.Ended? || Valid())
      ensures !Ready() || old(pending) ==> outcome == Threw && log == old(log) && pending == old(pending)
      ensures Ready() && !old(pending) ==> outcome == PollOutcome(f) && (frame.Some? <==> f.Arrived? && f.texture)
      ensures frame.Some? ==> f.Arrived? && frame.value == description == f.d
      ensures !outcome.Ended? ==> (pending <==> old(pending) || frame.Some?)
      ensures Ready() && !old(pending) ==>
                log == old(log) + [AcquireFrame(!f.TimedOut? && !f.Failed?)] +
                (if f.NoResource? || (f.Arrived? && !f.texture) then [ReleaseFrame(f.release)] else [])
    {
      hide Judge;
      frame := None;
      if !Ready() || pending {
        return Threw, None;
      }
      Call(AcquireFrame(!f.TimedOut? && !f.Failed?));
      match f
      case TimedOut => return Returned, None;
      case Failed => return Threw, None;
      case NoResource(release) =>
        Call(ReleaseFrame(release));
        return if release then Returned else Ended(ReleaseFailed), None;
      case Arrived(d, texture, release) =>
        if texture {
          description, pending := d, true;
          return Returned, Some(d);
        }
        Call(ReleaseFrame(release));
        return if release then Threw else Ended(ReleaseFailed), None;
    }

    /** Gives the frame back; a failure leaves everything as it was. */
    method ReleasePending(ok: bool) returns (outcome: Outcome)
      requires Lawful() && duplication && pending && Device() == Native(true, copyStarted && !copyCompleted)
      modifies `pending, `copyStarted, `copyCompleted, `log
      ensures Lawful()
      ensures outcome == if old(copyStarted && !copyCompleted) then Ended(CopyGuard) else if ok then Returned else Threw
      ensures outcome == Returned ==> !pending && !copyStarted && !copyCompleted && Device() == IDLE
      ensures log == if outcome == Ended(CopyGuard) then old(log) else old(log) + [ReleaseFrame(ok)]
      ensures outcome == Threw ==>
                pending && copyStarted == old(copyStarted) && copyCompleted == old(copyCompleted) &&
                  Device() == Native(true, false)
    {
      hide Judge;
      if copyStarted && !copyCompleted {
        return Ended(CopyGuard);
      }
      Call(ReleaseFrame(ok));
      if !ok {
        return Threw;
      }
      pending, copyStarted, copyCompleted := false, false, false;
      return Returned;
    }

    method DestroyUnusable()
      requires Lawful()
      modifies this
      ensures Valid() && unusable && !pending && !duplication && !device
      ensures log == old(log) + [DropAll]
    {
      hide Judge;
      unusable, pending, copyStarted, copyCompleted := true, false, false, false;
      query, duplication, context, device := false, false, false, false;
      Call(DropAll);
    }

    /** Waits for what has been queued, and gives the frame back once that is known to have finished. */
    method FinishDetach(wait: bool, release: bool) returns (outcome: Outcome)
      requires Lawful() && Ready() && pending && copyStarted && !copyCompleted && Device() == Native(true, true)
      modifies `pending, `copyStarted, `copyCompleted, `log
      ensures Lawful()
      ensures outcome == if wait && release then Returned else Threw
      ensures outcome == Returned ==> !pending && !copyStarted && !copyCompleted && Device() == IDLE
      ensures outcome == Threw ==> pending && copyStarted && copyCompleted == wait && Device() == Native(true, !wait)
      ensures outcome == Returned ==> log == old(log) + [AwaitQueue(true), ReleaseFrame(true)]
    {
      hide Judge;
      var nativeWorkStarted, completionProven := true, false;
      Call(AwaitQueue(wait));
      if !wait {
        return Threw;
      }
      completionProven := true;
      copyCompleted := true;
      if nativeWorkStarted && !completionProven {
        return Ended(CopyGuard);
      }
      outcome := ReleasePending(release);
    }

    /** The detach itself, up to its first failure. */
    method TryDetach(r: Request, f: DetachFate) returns (outcome: Outcome)
      requires Valid() && Ready() && pending
      modifies `pending, `copyStarted, `copyCompleted, `log
      ensures Lawful()
      ensures outcome == if Completes(r, description, f) && f.release then Returned else Threw
      ensures outcome == Returned ==> Valid() && !pending
      ensures outcome == Returned ==> log == old(log) + [ReadFrame, AwaitQueue(true), ReleaseFrame(true)]
      ensures outcome == Threw ==>
                && pending && copyStarted == Begins(r, description, f) && copyCompleted == Completes(r, description, f)
                && Device() == Native(true, copyStarted && !copyCompleted)
    {
      hide Judge;
      var q := Resolved(r, description);
      if q.format == description.format {
        if q.width != description.width || q.height != description.height || !f.texture {
          return Threw;
        }
        copyStarted := true;
        Call(ReadFrame);
        outcome := FinishDetach(f.wait, f.release);
        return;
      }
      if q.format == NV12 {
        if q.width % 2 != 0 || q.height % 2 != 0 || !f.prepare || !f.outputView {
          return Threw;
        }
        if !f.inputView {
          if !f.intermediate {
            return Threw;
          }
          copyStarted := true;
          Call(ReadFrame);
          if !f.intermediateView {
            return Threw;
          }
        } else {
          copyStarted := true;
          Call(ReadFrame);
        }
        if !f.blit {
          return Threw;
        }
        outcome := FinishDetach(f.wait, f.release);
        return;
      }
      return Threw;
    }

    /**
      Takes an owned copy of the pending frame. However it goes, the frame is no longer pending
      afterwards: it was given back after the GPU was known to have finished with it, or the
      source was destroyed.
     */
    method DetachOwned(r: Request, f: DetachFate) returns (outcome: Outcome)
      requires Valid()
      modifies this
      ensures Valid() && !outcome.Ended?
      ensures !old(Ready() && pending) ==>
                outcome == Threw && log == old(log) && pending == old(pending) && Ready() == old(Ready())
      ensures old(Ready() && pending) ==>
                && !pending
                && (outcome == Returned <==> Completes(r, old(description), f) && f.release)
                && (Ready() <==>
                     var d := old(description);
                     outcome == Returned || (f.releaseAgain && (f.proof || !Begins(r, d, f) || Completes(r, d, f))))
                && (unusable <==> !Ready())
                && (outcome == Returned ==> log == old(log) + [ReadFrame, AwaitQueue(true), ReleaseFrame(true)])
    {
      hide Judge;
      if !Ready() || !pending {
        return Threw;
      }
      outcome := TryDetach(r, f);
      if outcome == Returned {
        return;
      }
      if copyStarted && !copyCompleted {
        Call(AwaitQueue(f.proof));
        if f.proof {
          copyCompleted := true;
          Recover(f.releaseAgain);
        } else {
          DestroyUnusable();
        }
      } else {
        Recover(f.releaseAgain);
      }
    }

    method Recover(release: bool)
      requires Lawful() && Ready() && pending && Device() == Native(true, false) && (copyStarted ==> copyCompleted)
      modifies this
      ensures Valid() && !pending && Ready() == release && unusable == !release
    {
      hide Judge;
      var released := ReleasePending(release);
      if released != Returned {
        DestroyUnusable();
      }
    }

    method DiscardPending(release: bool) returns (outcome: Outcome)
      requires Valid()
      modifies this
      ensures Valid()
      ensures outcome == if !old(Ready()) || (old(pending) && !release) then Threw else Returned
      ensures Ready() == old(Ready()) && (pending <==> old(pending) && !release)
      ensures !old(pending) ==> log == old(log)
      ensures old(pending) ==> log == old(log) + [ReleaseFrame(release)]
    {
      hide Judge;
      if !Ready() {
        return Threw;
      }
      if !pending {
        return Returned;
      }
      if copyStarted && !copyCompleted {
        return Ended(CopyGuard);
      }
      outcome := ReleasePending(release);
    }

    method Stop(release: bool) returns (outcome: Outcome)
      requires Valid()
      modifies this
      ensures Lawful()
      ensures outcome == if old(pending) && !release then Ended(ReleaseFailed) else Returned
      ensures outcome == Returned ==> Valid() && unusable && !pending && !duplication && !device
      ensures !old(pending) ==> log == old(log) + [DropAll]
      ensures old(pending) && release ==> log == old(log) + [ReleaseFrame(true), DropAll]
    {
      hide Judge;
      if !unusable && duplication && pending {
        if copyStarted && !copyCompleted {
          return Ended(CopyGuard);
        }
        Call(ReleaseFrame(release));
        if !release {
          return Ended(ReleaseFailed);
        }
      }
      DestroyUnusable();
      return Returned;
    }
  }

  // ----- every sequence of calls

  datatype PublicCall =
    | CallStart(start: StartFate)
    | CallPoll(poll: PollFate)
    | CallDetach(request: Request, detach: DetachFate)
    | CallDiscard(discard: bool)
    | CallStop(stop: bool)

  method Make(source: DdaCaptureSource, call: PublicCall) returns (outcome: Outcome)
    requires source.Valid()
    modifies source
    ensures source.Lawful() && (outcome.Ended? || source.Valid())
    ensures outcome.Ended? ==> outcome.reason == ReleaseFailed && (call.CallPoll? || call.CallStop?)
  {
    match call
    case CallStart(f) => outcome := source.Start(f);
    case CallPoll(f) => var frame; outcome, frame := source.Poll(f);
    case CallDetach(r, f) => outcome := source.DetachOwned(r, f);
    case CallDiscard(f) => outcome := source.DiscardPending(f);
    case CallStop(f) => outcome := source.Stop(f);
  }

  /**
    Any sequence of public calls on a new source, with any native failures, until one ends the
    process: no native call ever breaks the protocol, and no guard on the state of a copy fires.
   */
  method MakeAll(calls: seq<PublicCall>) returns (outcomes: seq<Outcome>, source: DdaCaptureSource)
    ensures |outcomes| <= |calls|
    ensures forall i :: 0 <= i < |outcomes| ==> outcomes[i] != Ended(CopyGuard)
    ensures forall i :: 0 <= i < |outcomes| - 1 ==> !outcomes[i].Ended?
    ensures |outcomes| < |calls| ==> outcomes != [] && outcomes[|outcomes| - 1] == Ended(ReleaseFailed)
    ensures source.Lawful()
    ensures (forall o :: o in outcomes ==> !o.Ended?) ==> source.Valid()
  {
    hide Judge;
    source := new DdaCaptureSource();
    outcomes := [];
    while |outcomes| < |calls|
      invariant |outcomes| <= |calls|
      invariant source.Valid() && fresh(source)
      invariant forall i :: 0 <= i < |outcomes| ==> !outcomes[i].Ended?
    {
      var outcome := Make(source, calls[|outcomes|]);
      outcomes := outcomes + [outcome];
      if outcome.Ended? {
        assert outcomes[|outcomes| - 1] in outcomes;
        return;
      }
    }
  }
}
