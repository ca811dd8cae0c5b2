/** From the client's keyboard to the host's desktop: the viewer's messages, delivered to the host's reconciler. */
module InputPath {
  import opened Bytes
  import opened Input
  import Viewer
  import HostInput

  /** The reconciler after every message the viewer has sent was delivered, in order and with any repeats. */
  ghost function HostAfter(
      s: Viewer.State, r: HostInput.Reconciler, epoch: u32, deliveries: seq<nat>): HostInput.Reconciler
    requires HostInput.Reach(deliveries) == |s.wire|
  {
    HostInput.AfterAll(r, HostInput.Delivered(HostInput.Sent(epoch, s.wire), deliveries))
  }

  predicate AllDelivered(s: Viewer.State, r: HostInput.Reconciler, epoch: u32, deliveries: seq<nat>) {
    && HostInput.Awaits(r, epoch)
    && HostInput.NextOrRepeat(deliveries) && HostInput.Reach(deliveries) == |s.wire| > 0
  }

  /**
    In every state of every run of the viewer: a host that was given all its messages holds
    the fold of those with a number of their own, the first 2^64 - 1.
   */
  lemma HostFollowsWire(
      steps: seq<Viewer.Step>, r: HostInput.Reconciler, epoch: u32, deliveries: seq<nat>)
    requires AllDelivered(Viewer.Run(Viewer.START, steps), r, epoch, deliveries)
    ensures var s := Viewer.Run(Viewer.START, steps);
            HostAfter(s, r, epoch, deliveries).held ==
            Fold(RELEASED, Events(s.wire[..HostInput.Counted(|s.wire|)]))
  {
    hide Viewer.Run, Fold, Events, HostInput.AfterAll, HostInput.Delivered, HostInput.Awaits;
    var s := Viewer.Run(Viewer.START, steps);
    Viewer.RunKeeps(steps);
    HostInput.HostFollowsInOrder(r, epoch, s.wire, deliveries);
  }

  /**
    In every run of the viewer, over any interleaving and any overflow of its queue, and for
    sessions of every length: once everything is drained and delivered, the host holds what
    the UI holds if and only if the messages with a number of their own fold to what all of
    them fold to. Up to 2^64 - 1 messages these are all.
   */
  lemma HostHoldsWhatUiHolds(
      steps: seq<Viewer.Step>, r: HostInput.Reconciler, epoch: u32, deliveries: seq<nat>)
    requires AllDelivered(Viewer.Run(Viewer.START, steps), r, epoch, deliveries)
    requires var s := Viewer.Run(Viewer.START, steps); s.running && s.pending == [] && s.channel == []
    ensures var s := Viewer.Run(Viewer.START, steps);
            var host := HostAfter(s, r, epoch, deliveries).held;
            && (host == s.held <==>
                Fold(RELEASED, Events(s.wire[..HostInput.Counted(|s.wire|)])) == Fold(RELEASED, Events(s.wire)))
            && (|s.wire| < 0x1_0000_0000_0000_0000 ==> host == s.held)
  {
    hide Viewer.Run, Fold, Events, HostAfter;
    var s := Viewer.Run(Viewer.START, steps);
    var n := HostInput.Counted(|s.wire|);
    HostFollowsWire(steps, r, epoch, deliveries);
    Viewer.Converges(steps);
    if n == |s.wire| {
      assert s.wire[..n] == s.wire;
    }
  }

  /** From the keyboard to the host: once drained and delivered, the host holds the usages of the keys that are down. */
  lemma HostHoldsKeysDown(
      steps: seq<Viewer.Step>, passes: seq<Viewer.Pass>, r: HostInput.Reconciler, epoch: u32, deliveries: seq<nat>)
    requires Viewer.Sampled(passes) && Viewer.KeysIn(steps) == Viewer.PassEvents(passes)
    requires AllDelivered(Viewer.Run(Viewer.START, steps), r, epoch, deliveries)
    requires var s := Viewer.Run(Viewer.START, steps);
             s.running && s.pending == [] && s.channel == [] && |s.wire| < 0x1_0000_0000_0000_0000
    ensures HostAfter(Viewer.Run(Viewer.START, steps), r, epoch, deliveries).held.keys ==
            Viewer.Usages(Viewer.KeysDown(passes))
  {
    hide Viewer.Run, HostAfter, Viewer.Usages, Viewer.KeysIn, Viewer.PassEvents;
    HostHoldsWhatUiHolds(steps, r, epoch, deliveries);
    Viewer.UiHoldsKeysDown(steps, passes);
  }

  /** A clean stop releases the host, if its message still has a number of its own. */
  lemma StopReleasesHost(
      steps: seq<Viewer.Step>, more: seq<Viewer.Step>, r: HostInput.Reconciler, epoch: u32, deliveries: seq<nat>)
    requires Viewer.Run(Viewer.START, steps).running
    requires var s := Viewer.Run(Viewer.START, steps + [Viewer.Stop(true)] + more);
             AllDelivered(s, r, epoch, deliveries) && |s.wire| < 0x1_0000_0000_0000_0000
    ensures var s := Viewer.Run(Viewer.START, steps + [Viewer.Stop(true)] + more);
            HostAfter(s, r, epoch, deliveries).held == RELEASED
  {
    hide Viewer.Run, Fold, Events, HostAfter;
    var s := Viewer.Run(Viewer.START, steps + [Viewer.Stop(true)] + more);
    HostFollowsWire(steps + [Viewer.Stop(true)] + more, r, epoch, deliveries);
    Viewer.StopReleases(steps, more);
    assert s.wire[..|s.wire|] == s.wire;
  }

  // ----- the limit is sharp

  function Ticks(n: nat): seq<Viewer.Step> {
    Repeat(Viewer.Tick, n)
  }

  lemma {:induction false} TicksOnly(n: nat)
    ensures var s := Viewer.Run(Viewer.START, Ticks(n));
            && |s.wire| == n && s == Viewer.START.(sequence := s.sequence, wire := s.wire)
            && Fold(RELEASED, Events(s.wire)) == RELEASED
  {
    if n == 0 {
    } else {
      TicksOnly(n - 1);
      assert Ticks(n)[..n - 1] == Ticks(n - 1);
      var before := Viewer.Run(Viewer.START, Ticks(n - 1));
      Viewer.EventsAppend(before.wire, Viewer.Bump(before.sequence), Snapshot(RELEASED));
      FoldConcat(RELEASED, Events(before.wire), [Snapshot(RELEASED)]);
      FoldOne(RELEASED, Snapshot(RELEASED));
    }
  }

  /** Snapshots until the numbers are used up, and then one key. */
  function LateKey(): seq<Viewer.Step> {
    Ticks(MAX_SEQUENCE) + [Viewer.Discrete(Key(4, true)), Viewer.SendReliable, Viewer.Receive]
  }

  lemma LateKeyRun()
    ensures var s := Viewer.Run(Viewer.START, LateKey());
            && s.running && s.pending == [] && s.channel == [] && s.held == InputState({4}, {})
            && |s.wire| == MAX_SEQUENCE + 1
            && s.wire[..MAX_SEQUENCE] == Viewer.Run(Viewer.START, Ticks(MAX_SEQUENCE)).wire
  {
    hide Fold, Events, Ticks;
    var ticks := Ticks(MAX_SEQUENCE);
    var a, b, c := Viewer.Discrete(Key(4, true)), Viewer.SendReliable, Viewer.Receive;
    TicksOnly(MAX_SEQUENCE);
    var s0 := Viewer.Run(Viewer.START, ticks);
    RunNext(ticks, a);
    RunNext(ticks + [a], b);
    RunNext(ticks + [a] + [b], c);
    assert LateKey() == ticks + [a] + [b] + [c];
    assert RELEASED.keys + {4} == {4};
  }

  lemma RunNext(steps: seq<Viewer.Step>, step: Viewer.Step)
    ensures Viewer.Run(Viewer.START, steps + [step]) == Viewer.Next(Viewer.Run(Viewer.START, steps), step)
  {
    assert (steps + [step])[..|steps|] == steps;
  }

  /** One message more, and the host can miss a key that the UI holds. */
  lemma LateKeyLost(r: HostInput.Reconciler, epoch: u32, deliveries: seq<nat>)
    requires AllDelivered(Viewer.Run(Viewer.START, LateKey()), r, epoch, deliveries)
    ensures var s := Viewer.Run(Viewer.START, LateKey());
            && s.running && s.pending == [] && s.channel == [] && s.held == InputState({4}, {})
            && HostAfter(s, r, epoch, deliveries).held == RELEASED
  {
    hide Viewer.Run, Fold, Events, HostAfter, LateKey, Ticks;
    LateKeyRun();
    TicksOnly(MAX_SEQUENCE);
    HostFollowsWire(LateKey(), r, epoch, deliveries);
  }
}
