/** The bounded pool of surface slots, whose leases are tokens with a generation. */
module SurfacePool {
  import opened Bytes
  import opened Ordering

  const MAX_SLOTS := 128
  const MAX_TOTAL := 1024 * 1024 * 1024
  /** Generations run through 1 .. 2^64 - 1 and start over. */
  const CYCLE := 0xFFFF_FFFF_FFFF_FFFF

  datatype Token = Token(poolId: int, slot: int, generation: int)

  datatype Slot = Slot(generation: u64, occupied: bool, size: int)

  datatype Pool = Pool(
    poolId: int, perSurface: int, total: int, slots: seq<Slot>, reserved: int,
    highBytes: int, highSurfaces: int, acquisitions: int, releases: int, rejections: int)

  function Create(poolId: int, slots: int, perSurface: int, total: int): Option<Pool> {
    if 1 <= slots <= MAX_SLOTS && 1 <= perSurface <= total <= MAX_TOTAL
    then Some(Pool(poolId, perSurface, total, seq(slots, _ => Slot(0, false, 0)), 0, 0, 0, 0, 0, 0))
    else None
  }

  function FirstFree(slots: seq<Slot>): (i: nat)
    ensures i <= |slots| && (i < |slots| ==> !slots[i].occupied)
    ensures forall k :: 0 <= k < i ==> slots[k].occupied
  {
    if slots == [] || !slots[0].occupied then 0 else 1 + FirstFree(slots[1..])
  }

  function InUse(slots: seq<Slot>): (n: nat)
    ensures n <= |slots|
  {
    if slots == [] then 0 else (if slots[0].occupied then 1 else 0) + InUse(slots[1..])
  }

  function Occupied(slots: seq<Slot>): int {
    if slots == [] then 0 else (if slots[0].occupied then slots[0].size else 0) + Occupied(slots[1..])
  }

  function NextGeneration(g: u64): u64 {
    var next := (g + 1) % 0x1_0000_0000_0000_0000;
    if next == 0 then 1 else next
  }

  predicate Fits(p: Pool, size: int) {
    0 < size <= p.perSurface && p.reserved + size <= p.total
  }

  function Acquire(p: Pool, size: int): (Pool, Option<Token>) {
    var index := FirstFree(p.slots);
    if !Fits(p, size) || index == |p.slots| then (p.(rejections := p.rejections + 1), None)
    else
      var generation := NextGeneration(p.slots[index].generation);
      var slots := p.slots[index := Slot(generation, true, size)];
      (p.(slots := slots, reserved := p.reserved + size, acquisitions := p.acquisitions + 1,
          highBytes := Max(p.highBytes, p.reserved + size), highSurfaces := Max(p.highSurfaces, InUse(slots))),
       Some(Token(p.poolId, index, generation)))
  }

  /**
    An acquisition is refused exactly if the size is out of range, does not fit into what is
    left, or every slot is occupied. A refusal is counted and changes nothing else; otherwise
    the lowest free slot, and no other, is taken, in its next generation.
   */
  lemma AcquiresExactly(p: Pool, size: int)
    ensures var (p', token) := Acquire(p, size);
            && (token.None? <==>
                 || size <= 0 || size > p.perSurface || p.reserved + size > p.total
                 || forall s <- p.slots :: s.occupied)
            && (token.None? ==> p' == p.(rejections := p.rejections + 1))
            && (token.Some? ==>
                 var t := token.value;
                 && t.poolId == p.poolId && 0 <= t.slot < |p.slots| && !p.slots[t.slot].occupied
                 && (forall k :: 0 <= k < t.slot ==> p.slots[k].occupied)
                 && p'.slots == p.slots[t.slot := Slot(t.generation, true, size)]
                 && t.generation == (if p.slots[t.slot].generation == CYCLE then 1
                                     else p.slots[t.slot].generation + 1)
                 && p'.reserved == p.reserved + size && p'.acquisitions == p.acquisitions + 1
                 && p'.releases == p.releases && p'.rejections == p.rejections)
  {
    hide InUse;
    var index := FirstFree(p.slots);
    if index == |p.slots| {
      assert forall s <- p.slots :: s.occupied;
    } else {
      assert p.slots[index] in p.slots;
    }
  }

  /** The token names an occupied slot of this pool in its present generation. */
  predicate Accepts(p: Pool, t: Token) {
    t.poolId == p.poolId && 0 <= t.slot < |p.slots| &&
    p.slots[t.slot].occupied && p.slots[t.slot].generation == t.generation
  }

  function Release(p: Pool, t: Token): (Pool, bool) {
    if !Accepts(p, t) then (p, false)
    else
      var slot := p.slots[t.slot];
      (p.(reserved := p.reserved - slot.size, releases := p.releases + 1,
          slots := p.slots[t.slot := slot.(occupied := false, size := 0)]), true)
  }

  /** A release frees the slot its token names, or changes nothing. */
  lemma ReleasesExactly(p: Pool, t: Token)
    ensures var (p', accepted) := Release(p, t);
            && (accepted <==>
                 && t.poolId == p.poolId && 0 <= t.slot < |p.slots|
                 && p.slots[t.slot].occupied && p.slots[t.slot].generation == t.generation)
            && (!accepted ==> p' == p)
            && (accepted ==>
                 && p'.slots == p.slots[t.slot := Slot(t.generation, false, 0)]
                 && p'.reserved == p.reserved - p.slots[t.slot].size && p'.releases == p.releases + 1
                 && p' == p.(slots := p'.slots, reserved := p'.reserved, releases := p'.releases))
  {
  }

  // ----- what every operation keeps

  /** The checks the pool itself asserts, and the balance of acquisitions and releases. */
  predicate Inv(p: Pool) {
    && 0 <= p.reserved == Occupied(p.slots) <= p.total
    && (forall i :: 0 <= i < |p.slots| && p.slots[i].occupied ==> 0 < p.slots[i].size <= p.perSurface)
    && p.acquisitions - p.releases == InUse(p.slots)
  }

  lemma {:induction false} SetSlot(slots: seq<Slot>, i: nat, slot: Slot)
    requires i < |slots|
    ensures var old' := slots[i];
            && InUse(slots[i := slot]) ==
               InUse(slots) - (if old'.occupied then 1 else 0) + (if slot.occupied then 1 else 0)
            && Occupied(slots[i := slot]) ==
               Occupied(slots) - (if old'.occupied then old'.size else 0) + (if slot.occupied then slot.size else 0)
  {
    if i == 0 {
      assert slots[0 := slot][1..] == slots[1..];
    } else {
      SetSlot(slots[1..], i - 1, slot);
      assert slots[i := slot][1..] == slots[1..][i - 1 := slot];
    }
  }

  lemma {:induction false} OccupiedBound(slots: seq<Slot>, i: nat)
    requires i < |slots| && slots[i].occupied
    requires forall k :: 0 <= k < |slots| && slots[k].occupied ==> slots[k].size > 0
    ensures Occupied(slots) >= slots[i].size
  {
    OccupiedPositive(slots[1..]);
    if i == 0 {
    } else {
      OccupiedBound(slots[1..], i - 1);
    }
  }

  lemma {:induction false} OccupiedPositive(slots: seq<Slot>)
    requires forall k :: 0 <= k < |slots| && slots[k].occupied ==> slots[k].size > 0
    ensures Occupied(slots) >= 0
  {
    if slots == [] {
    } else {
      OccupiedPositive(slots[1..]);
    }
  }

  lemma AcquireKeeps(p: Pool, size: int)
    requires Inv(p)
    ensures Inv(Acquire(p, size).0)
  {
    hide Occupied, InUse, NextGeneration, FirstFree;
    var index := FirstFree(p.slots);
    if Fits(p, size) && index < |p.slots| {
      SetSlot(p.slots, index, Slot(NextGeneration(p.slots[index].generation), true, size));
    }
  }

  lemma ReleaseKeeps(p: Pool, t: Token)
    requires Inv(p)
    ensures Inv(Release(p, t).0)
  {
    hide Occupied, InUse;
    if Accepts(p, t) {
      SetSlot(p.slots, t.slot, p.slots[t.slot].(occupied := false, size := 0));
      OccupiedBound(p.slots, t.slot);
    }
  }

  // ----- whole runs

  datatype Op = Acquires(size: int) | Releases(token: Token)

  /** A token, and how often its slot had been acquired when it was issued. */
  datatype Issue = Issue(token: Token, count: nat)

  /**
    A pool and its history: how often each slot was acquired, every token issued, and the
    bytes reserved and surfaces in use after each operation.
   */
  datatype Trace = Trace(pool: Pool, counts: seq<nat>, issued: seq<Issue>, bytes: seq<int>, surfaces: seq<int>)

  function Recorded(t: Trace): Trace {
    t.(bytes := t.bytes + [t.pool.reserved], surfaces := t.surfaces + [InUse(t.pool.slots)])
  }

  function Step(t: Trace, op: Op): Trace
    requires |t.counts| == |t.pool.slots|
  {
    match op
    case Acquires(size) =>
      var (pool, token) := Acquire(t.pool, size);
      if token.None? then Recorded(t.(pool := pool))
      else
        var i: nat := FirstFree(t.pool.slots);
        var counts := t.counts[i := t.counts[i] + 1];
        Recorded(t.(pool := pool, counts := counts, issued := t.issued + [Issue(token.value, counts[i])]))
    case Releases(token) => Recorded(t.(pool := Release(t.pool, token).0))
  }

  /** The generation after `n` acquisitions. */
  function Generation(n: nat): u64 {
    if n == 0 then 0 else (n - 1) % CYCLE + 1
  }

  lemma GenerationStep(n: nat)
    ensures NextGeneration(Generation(n)) == Generation(n + 1)
    ensures 1 <= Generation(n + 1) <= CYCLE
  {
  }

  predicate Counted(t: Trace) {
    |t.counts| == |t.pool.slots| &&
    forall i :: 0 <= i < |t.counts| ==>
      t.pool.slots[i].generation == Generation(t.counts[i]) && (t.pool.slots[i].occupied ==> t.counts[i] > 0)
  }

  /** Each issue names a slot of the pool, at a count it has reached. */
  predicate Issued(t: Trace, k: nat)
    requires k < |t.issued|
  {
    var i := t.issued[k];
    i.token.poolId == t.pool.poolId && 0 <= i.token.slot < |t.counts| && 0 < i.count <= t.counts[i.token.slot] &&
    i.token.generation == Generation(i.count)
  }

  predicate AllIssued(t: Trace) {
    forall k :: 0 <= k < |t.issued| ==> Issued(t, k)
  }

  /** No two issues are for the same acquisition of the same slot. */
  predicate Separate(t: Trace) {
    forall j, k :: 0 <= j < k < |t.issued| ==>
      t.issued[j].token.slot != t.issued[k].token.slot || t.issued[j].count < t.issued[k].count
  }

  /** The high-water marks are the largest values seen. */
  predicate HighWater(t: Trace) {
    t.pool.reserved <= t.pool.highBytes == MaxOf(0, t.bytes) &&
    InUse(t.pool.slots) <= t.pool.highSurfaces == MaxOf(0, t.surfaces)
  }

  predicate Good(t: Trace) {
    Inv(t.pool) && Counted(t) && AllIssued(t) && Separate(t) && HighWater(t)
  }

  lemma MaxAppend(xs: seq<int>, x: int)
    ensures MaxOf(0, xs + [x]) == Max(MaxOf(0, xs), x)
  {
    assert (xs + [x])[..|xs|] == xs;
  }

  lemma StepInv(t: Trace, op: Op)
    requires Counted(t) && Inv(t.pool)
    ensures Inv(Step(t, op).pool)
  {
    hide Inv, Occupied, InUse, Generation, FirstFree, NextGeneration;
    match op
    case Acquires(size) => AcquireKeeps(t.pool, size);
    case Releases(token) => ReleaseKeeps(t.pool, token);
  }

  lemma StepCounted(t: Trace, op: Op)
    requires Counted(t)
    ensures Counted(Step(t, op))
  {
    hide InUse, Generation, FirstFree, NextGeneration;
    if op.Acquires? {
      var i: nat := FirstFree(t.pool.slots);
      if i < |t.counts| {
        GenerationStep(t.counts[i]);
      }
    }
  }

  lemma StepIssued(t: Trace, op: Op)
    requires Counted(t) && AllIssued(t)
    ensures AllIssued(Step(t, op))
  {
    hide InUse, Generation, FirstFree, NextGeneration;
    var t' := Step(t, op);
    if op.Acquires? {
      var i: nat := FirstFree(t.pool.slots);
      if i < |t.counts| {
        GenerationStep(t.counts[i]);
      }
    }
    forall k | 0 <= k < |t'.issued| ensures Issued(t', k) {
      if k < |t.issued| {
        assert Issued(t, k);
      }
    }
  }

  lemma StepSeparate(t: Trace, op: Op)
    requires Counted(t) && AllIssued(t) && Separate(t)
    ensures Separate(Step(t, op))
  {
    hide InUse, Generation, FirstFree, NextGeneration;
    var t' := Step(t, op);
    forall j, k | 0 <= j < k < |t'.issued|
      ensures t'.issued[j].token.slot != t'.issued[k].token.slot || t'.issued[j].count < t'.issued[k].count
    {
      assert Issued(t, j);
    }
  }

  lemma StepHighWater(t: Trace, op: Op)
    requires Counted(t) && Inv(t.pool) && HighWater(t)
    ensures HighWater(Step(t, op))
  {
    hide InUse, Occupied, Generation, FirstFree, NextGeneration, MaxOf;
    var p, p' := t.pool, Step(t, op).pool;
    MaxAppend(t.bytes, p'.reserved);
    MaxAppend(t.surfaces, InUse(p'.slots));
    if op.Releases? && Accepts(p, op.token) {
      SetSlot(p.slots, op.token.slot, p.slots[op.token.slot].(occupied := false, size := 0));
    }
  }

  lemma StepGood(t: Trace, op: Op)
    requires Good(t)
    ensures Good(Step(t, op))
  {
    hide Step, Inv, Counted, AllIssued, Separate, HighWater;
    assert Counted(t);
    StepInv(t, op);
    StepCounted(t, op);
    StepIssued(t, op);
    StepSeparate(t, op);
    StepHighWater(t, op);
  }

  function Run(t: Trace, ops: seq<Op>): (r: Trace)
    requires Good(t)
    ensures Good(r)
  {
    if ops == [] then t
    else
      var before := Run(t, ops[..|ops| - 1]);
      StepGood(before, ops[|ops| - 1]);
      Step(before, ops[|ops| - 1])
  }

  function Start(p: Pool): Trace {
    Trace(p, seq(|p.slots|, _ => 0), [], [], [])
  }

  lemma {:induction false} NothingInUse(slots: seq<Slot>)
    requires forall i :: 0 <= i < |slots| ==> slots[i] == Slot(0, false, 0)
    ensures InUse(slots) == 0 && Occupied(slots) == 0
  {
    if slots == [] {
    } else {
      NothingInUse(slots[1..]);
    }
  }

  lemma CreateGood(poolId: int, slots: int, perSurface: int, total: int)
    ensures var p := Create(poolId, slots, perSurface, total);
            p.Some? ==> Good(Start(p.value))
  {
    hide InUse, Occupied;
    var p := Create(poolId, slots, perSurface, total);
    if p.Some? {
      NothingInUse(p.value.slots);
    }
  }

  /**
    After every run of acquisitions and releases, with any sizes and any tokens: the pool's
    own assertions hold, acquisitions less releases are the surfaces in use, and both
    high-water marks are the exact maxima over the run.
   */
  lemma PoolAccount(poolId: int, slots: int, perSurface: int, total: int, ops: seq<Op>)
    requires Create(poolId, slots, perSurface, total).Some?
    ensures var start := Start(Create(poolId, slots, perSurface, total).value);
            && Good(start)
            && var t := Run(start, ops);
               && 0 <= t.pool.reserved == Occupied(t.pool.slots) <= t.pool.total
               && t.pool.acquisitions - t.pool.releases == InUse(t.pool.slots)
               && t.pool.highBytes == MaxOf(0, t.bytes) && t.pool.highSurfaces == MaxOf(0, t.surfaces)
  {
    CreateGood(poolId, slots, perSurface, total);
  }

  // ----- tokens

  lemma SameGenerationExactly(m: nat, n: nat)
    requires m >= n > 0
    ensures Generation(m) == Generation(n) <==> (m - n) % CYCLE == 0
  {
    var a, b := m - 1, n - 1;
    assert a == a / CYCLE * CYCLE + a % CYCLE && b == b / CYCLE * CYCLE + b % CYCLE;
    assert m - n == (a / CYCLE - b / CYCLE) * CYCLE + (a % CYCLE - b % CYCLE);
  }

  /**
    A token is accepted exactly while its slot is occupied and has been acquired a multiple
    of 2^64 - 1 times since the token was issued: that is, while it is the latest, and not
    again before the generations have come round.
   */
  lemma AcceptedExactly(t: Trace, k: nat)
    requires Good(t) && k < |t.issued|
    ensures Issued(t, k)
    ensures var i := t.issued[k];
            Accepts(t.pool, i.token) <==>
            t.pool.slots[i.token.slot].occupied && (t.counts[i.token.slot] - i.count) % CYCLE == 0
  {
    hide Generation, Inv, HighWater, Separate;
    assert Issued(t, k);
    var i := t.issued[k];
    SameGenerationExactly(t.counts[i.token.slot], i.count);
  }

  /** Issue `k` is the latest of its slot, and the slot has not been released since. */
  predicate Live(t: Trace, k: nat)
    requires k < |t.issued|
  {
    |t.counts| == |t.pool.slots| && Issued(t, k) &&
    t.pool.slots[t.issued[k].token.slot].occupied && t.counts[t.issued[k].token.slot] == t.issued[k].count
  }

  /** What one operation can do to a slot: nothing, take it when it is free, or release it. */
  predicate SlotChange(t: Trace, t': Trace, i: nat, op: Op)
    requires i < |t.counts| == |t'.counts| == |t.pool.slots| == |t'.pool.slots|
  {
    var s, s' := t.pool.slots[i], t'.pool.slots[i];
    if op.Releases? && op.token.slot == i && Accepts(t.pool, op.token)
    then !s'.occupied && t'.counts[i] == t.counts[i]
    else
      || (s' == s && t'.counts[i] == t.counts[i])
      || (!s.occupied && s'.occupied && t'.counts[i] == t.counts[i] + 1)
  }

  lemma SlotStep(t: Trace, i: nat, op: Op)
    requires i < |t.counts| == |t.pool.slots|
    ensures |Step(t, op).counts| == |Step(t, op).pool.slots| == |t.counts| && SlotChange(t, Step(t, op), i, op)
  {
    hide InUse, NextGeneration, FirstFree;
  }

  /** Issues are only ever added. */
  lemma IssueStep(t: Trace, k: nat, op: Op)
    requires |t.counts| == |t.pool.slots| && k < |t.issued|
    ensures k < |Step(t, op).issued| && Step(t, op).issued[k] == t.issued[k]
    ensures Step(t, op).pool.poolId == t.pool.poolId
  {
    hide InUse, NextGeneration, FirstFree;
  }

  /** A live token stays live until it is itself released. */
  lemma {:induction false} LiveUntilReleased(t: Trace, k: nat, op: Op)
    requires Good(t) && k < |t.issued| && Live(t, k)
    ensures Good(Step(t, op)) && k < |Step(t, op).issued|
    ensures op != Releases(t.issued[k].token) ==> Live(Step(t, op), k)
    ensures op == Releases(t.issued[k].token) ==> Release(t.pool, t.issued[k].token).1 && !Live(Step(t, op), k)
  {
    hide Step, Inv, HighWater, Generation, Separate, AllIssued;
    StepGood(t, op);
    AcceptedExactly(t, k);
    IssueStep(t, k, op);
    SlotStep(t, t.issued[k].token.slot, op);
  }

  /** What is true of a token's slot once the token has been released. */
  predicate Retired(t: Trace, k: nat)
    requires k < |t.issued|
  {
    |t.counts| == |t.pool.slots| && Issued(t, k) &&
    (t.counts[t.issued[k].token.slot] == t.issued[k].count ==> !t.pool.slots[t.issued[k].token.slot].occupied)
  }

  lemma RetiredStep(t: Trace, k: nat, op: Op)
    requires |t.counts| == |t.pool.slots| && k < |t.issued| && Retired(t, k)
    ensures k < |Step(t, op).issued| && Retired(Step(t, op), k)
    ensures Step(t, op).issued[k] == t.issued[k]
  {
    hide Step, Generation;
    IssueStep(t, k, op);
    SlotStep(t, t.issued[k].token.slot, op);
  }

  lemma {:induction false} RetiredForever(t: Trace, k: nat, ops: seq<Op>)
    requires Good(t) && k < |t.issued| && Retired(t, k)
    ensures k < |Run(t, ops).issued| && Retired(Run(t, ops), k) && Run(t, ops).issued[k] == t.issued[k]
  {
    hide Inv, AllIssued, Separate, HighWater, Retired, Step;
    if ops == [] {
    } else {
      RetiredForever(t, k, ops[..|ops| - 1]);
      RetiredStep(Run(t, ops[..|ops| - 1]), k, ops[|ops| - 1]);
    }
  }

  lemma RetiredRefused(t: Trace, k: nat)
    requires Good(t) && k < |t.issued| && Retired(t, k)
    ensures t.counts[t.issued[k].token.slot] < t.issued[k].count + CYCLE ==> !Accepts(t.pool, t.issued[k].token)
  {
    hide Good, Accepts, Generation;
    AcceptedExactly(t, k);
  }

  /** A live token once released. */
  lemma ReleaseRetires(t: Trace, k: nat)
    requires Good(t) && k < |t.issued| && Live(t, k)
    ensures var gone := Step(t, Releases(t.issued[k].token));
            && Good(gone) && k < |gone.issued| && gone.issued[k] == t.issued[k] && Retired(gone, k)
  {
    hide Inv, AllIssued, Separate, HighWater, Step, Generation;
    var op := Releases(t.issued[k].token);
    LiveUntilReleased(t, k, op);
    IssueStep(t, k, op);
    SlotStep(t, t.issued[k].token.slot, op);
  }

  lemma ReleasedLiveRefused(t: Trace, k: nat, ops: seq<Op>)
    requires Good(t) && k < |t.issued| && Live(t, k)
    ensures var gone := Step(t, Releases(t.issued[k].token));
            && Good(gone)
            && var later := Run(gone, ops);
               && 0 <= t.issued[k].token.slot < |later.counts|
               && (later.counts[t.issued[k].token.slot] < t.issued[k].count + CYCLE ==>
                     !Accepts(later.pool, t.issued[k].token))
  {
    hide Inv, AllIssued, Separate, HighWater, Step, Generation, Run, Accepts;
    var gone := Step(t, Releases(t.issued[k].token));
    ReleaseRetires(t, k);
    RetiredForever(gone, k, ops);
    RetiredRefused(Run(gone, ops), k);
  }

  // ----- outstanding tokens

  /** A granted acquisition makes a live issue of the token it returns. */
  lemma AcquiredIsLive(t: Trace, size: int)
    requires Good(t) && Acquire(t.pool, size).1.Some?
    ensures var t' := Step(t, Acquires(size));
            && Good(t') && |t'.issued| == |t.issued| + 1
            && t'.issued[|t.issued|].token == Acquire(t.pool, size).1.value && Live(t', |t.issued|)
  {
    hide Inv, HighWater, Separate, Generation, NextGeneration, FirstFree, InUse;
    StepGood(t, Acquires(size));
    assert Issued(Step(t, Acquires(size)), |t.issued|);
  }

  /**
    The issues outstanding after a run, from its operations and their results alone: each
    granted acquisition adds its issue, each release removes the issues of the token it names.
   */
  function Outstanding(start: Trace, ops: seq<Op>): (out: set<nat>)
    requires Good(start)
    ensures forall k <- out :: k < |Run(start, ops).issued|
  {
    if ops == [] then {}
    else
      var before, op := ops[..|ops| - 1], ops[|ops| - 1];
      var t, out := Run(start, before), Outstanding(start, before);
      IssuesOnlyAdded(t, op);
      match op
      case Acquires(size) => if Acquire(t.pool, size).1.Some? then out + {|t.issued|} else out
      case Releases(token) => set k | k in out && t.issued[k].token != token
  }

  lemma IssuesOnlyAdded(t: Trace, op: Op)
    requires Good(t)
    ensures |Step(t, op).issued| == |t.issued| + (if op.Acquires? && Acquire(t.pool, op.size).1.Some? then 1 else 0)
    ensures forall k :: 0 <= k < |t.issued| ==> Step(t, op).issued[k] == t.issued[k]
  {
    hide Inv, AllIssued, Separate, HighWater, InUse, NextGeneration, FirstFree;
  }

  /** An issue that is not live is not live later. */
  lemma DeadStaysDead(t: Trace, k: nat, op: Op)
    requires Good(t) && k < |t.issued| && !Live(t, k)
    ensures k < |Step(t, op).issued| && !Live(Step(t, op), k)
  {
    hide Step, Inv, HighWater, Separate, Generation, Live, Retired;
    RetiredIsDead(t, k);
    RetiredStep(t, k, op);
    StepGood(t, op);
    RetiredIsDead(Step(t, op), k);
  }

  lemma RetiredIsDead(t: Trace, k: nat)
    requires Good(t) && k < |t.issued|
    ensures Retired(t, k) <==> !Live(t, k)
  {
    hide Inv, HighWater, Separate, Generation;
    assert Issued(t, k);
  }

  /** Exactly the outstanding issues are live. */
  lemma {:induction false} OutstandingExactly(start: Trace, ops: seq<Op>, k: nat)
    requires Good(start) && start.issued == []
    ensures k in Outstanding(start, ops) <==> k < |Run(start, ops).issued| && Live(Run(start, ops), k)
  {
    hide Good, Step, Live, Acquire, Release;
    if ops == [] {
    } else {
      var before, op := ops[..|ops| - 1], ops[|ops| - 1];
      var t := Run(start, before);
      OutstandingExactly(start, before, k);
      IssuesOnlyAdded(t, op);
      if k < |t.issued| {
        OutstandingStep(t, k, op);
      } else if op.Acquires? && Acquire(t.pool, op.size).1.Some? {
        AcquiredIsLive(t, op.size);
      }
    }
  }

  lemma OutstandingStep(t: Trace, k: nat, op: Op)
    requires Good(t) && k < |t.issued|
    ensures k < |Step(t, op).issued|
    ensures Live(Step(t, op), k) <==> Live(t, k) && op != Releases(t.issued[k].token)
  {
    hide Good, Step, Live, Release;
    if Live(t, k) {
      LiveUntilReleased(t, k, op);
    } else {
      DeadStaysDead(t, k, op);
    }
  }

  /** In every run, outstanding tokens are for different slots, and each is accepted. */
  lemma LiveTokens(start: Trace, ops: seq<Op>, j: nat, k: nat)
    requires Good(start) && start.issued == []
    requires j < k && j in Outstanding(start, ops) && k in Outstanding(start, ops)
    ensures var t := Run(start, ops);
            && t.issued[j].token.slot != t.issued[k].token.slot
            && Accepts(t.pool, t.issued[j].token) && Accepts(t.pool, t.issued[k].token)
  {
    hide Inv, HighWater, Generation, Run, Outstanding;
    var t := Run(start, ops);
    OutstandingExactly(start, ops, j);
    OutstandingExactly(start, ops, k);
    AcceptedExactly(t, j);
    AcceptedExactly(t, k);
  }

  /** In every run from an empty pool, each occupied slot is that of an outstanding token. */
  lemma {:induction false} OccupiedIsOutstanding(start: Trace, ops: seq<Op>, slot: nat)
    requires Good(start) && start.issued == [] && slot < |Run(start, ops).pool.slots|
    requires forall i :: 0 <= i < |start.pool.slots| ==> !start.pool.slots[i].occupied
    ensures Run(start, ops).pool.slots[slot].occupied ==>
              exists k <- Outstanding(start, ops) :: Run(start, ops).issued[k].token.slot == slot
  {
    hide Inv, AllIssued, Separate, HighWater, Step, Acquire, Accepts;
    if ops == [] {
    } else {
      var before, op := ops[..|ops| - 1], ops[|ops| - 1];
      var t, t' := Run(start, before), Run(start, ops);
      SlotsFixed(t, op);
      SlotStep(t, slot, op);
      OccupiedIsOutstanding(start, before, slot);
      if t'.pool.slots[slot].occupied {
        if t.pool.slots[slot].occupied {
          var k :| k in Outstanding(start, before) && t.issued[k].token.slot == slot;
          OutstandingExactly(start, before, k);
          HolderStays(t, k, op);
          OutstandingExactly(start, ops, k);
          IssuesOnlyAdded(t, op);
          assert t'.issued[k].token.slot == slot;
        } else {
          TakenByIssue(t, slot, op);
          OutstandingExactly(start, ops, |t.issued|);
          assert t'.issued[|t.issued|].token.slot == slot;
        }
      }
    }
  }

  lemma SlotsFixed(t: Trace, op: Op)
    requires |t.counts| == |t.pool.slots|
    ensures |Step(t, op).pool.slots| == |t.pool.slots|
  {
    hide InUse, NextGeneration, FirstFree;
  }

  lemma HolderStays(t: Trace, k: nat, op: Op)
    requires Good(t) && k < |t.issued| && Live(t, k)
    requires |Step(t, op).pool.slots| == |t.pool.slots| && Step(t, op).pool.slots[t.issued[k].token.slot].occupied
    ensures k < |Step(t, op).issued| && Live(Step(t, op), k)
  {
    hide Inv, AllIssued, Separate, HighWater, Step, Generation;
    OutstandingStep(t, k, op);
    AcceptedExactly(t, k);
    SlotStep(t, t.issued[k].token.slot, op);
  }

  lemma TakenByIssue(t: Trace, slot: nat, op: Op)
    requires Good(t) && slot < |t.pool.slots| && !t.pool.slots[slot].occupied
    requires |Step(t, op).pool.slots| == |t.pool.slots| && Step(t, op).pool.slots[slot].occupied
    ensures var t' := Step(t, op);
            && |t'.issued| == |t.issued| + 1 && t'.issued[|t.issued|].token.slot == slot && Live(t', |t.issued|)
  {
    hide Inv, AllIssued, Separate, HighWater, InUse, NextGeneration, FirstFree, Generation;
    assert op.Acquires?;
    AcquiredIsLive(t, op.size);
  }

  /**
    In every run, an outstanding token is accepted when it is released, and then refused in
    every later state until its slot has been acquired 2^64 - 1 more times.
   */
  lemma ReleasedStaysRefused(start: Trace, ops: seq<Op>, k: nat, more: seq<Op>)
    requires Good(start) && start.issued == [] && k in Outstanding(start, ops)
    ensures var t := Run(start, ops);
            var token, gone := t.issued[k].token, Step(t, Releases(t.issued[k].token));
            && Release(t.pool, token).1 && Good(gone)
            && var later := Run(gone, more);
               && 0 <= token.slot < |later.counts|
               && (later.counts[token.slot] < t.issued[k].count + CYCLE ==> !Accepts(later.pool, token))
  {
    hide Good, Step, Run, Outstanding, Live, Accepts, Release;
    OutstandingExactly(start, ops, k);
    LiveUntilReleased(Run(start, ops), k, Releases(Run(start, ops).issued[k].token));
    ReleasedLiveRefused(Run(start, ops), k, more);
  }

  // ----- the limit is sharp

  /** `n` rounds in which the only slot of the pool is acquired and released again. */
  function Rounds(poolId: int, n: nat): seq<Op> {
    if n == 0 then []
    else Rounds(poolId, n - 1) + [Acquires(1)] + [Releases(Token(poolId, 0, Generation(n)))]
  }

  /** The pool of one slot, free after `n` acquisitions, with its first token still on record. */
  predicate AfterRounds(t: Trace, poolId: int, n: nat) {
    && t.pool.poolId == poolId && t.pool.perSurface == 1 && t.pool.total == 1 && t.pool.reserved == 0
    && t.pool.slots == [Slot(Generation(n), false, 0)] && t.counts == [n] && |t.issued| == n
    && (n > 0 ==> t.issued[0] == Issue(Token(poolId, 0, 1), 1))
  }

  function OneSlot(poolId: int): Trace {
    Start(Create(poolId, 1, 1, 1).value)
  }

  lemma OneSlotGood(poolId: int)
    ensures Good(OneSlot(poolId)) && AfterRounds(OneSlot(poolId), poolId, 0)
  {
    CreateGood(poolId, 1, 1, 1);
  }

  lemma RunLast(t: Trace, ops: seq<Op>, op: Op)
    requires Good(t)
    ensures Run(t, ops + [op]) == Step(Run(t, ops), op)
  {
    hide Good, Step;
    assert (ops + [op])[..|ops|] == ops;
  }

  /** The same pool while its slot is occupied for the `n`-th time. */
  predicate InRound(t: Trace, poolId: int, n: nat) {
    && t.pool.poolId == poolId && t.pool.perSurface == 1 && t.pool.total == 1 && t.pool.reserved == 1
    && t.pool.slots == [Slot(Generation(n), true, 1)] && t.counts == [n] && |t.issued| == n > 0
    && t.issued[0] == Issue(Token(poolId, 0, 1), 1)
  }

  lemma AcquireAgain(t: Trace, poolId: int, n: nat)
    requires AfterRounds(t, poolId, n)
    ensures InRound(Step(t, Acquires(1)), poolId, n + 1)
  {
    hide Generation, NextGeneration, InUse;
    GenerationStep(n);
    FirstGeneration();
  }

  lemma ReleaseAgain(t: Trace, poolId: int, n: nat)
    requires InRound(t, poolId, n)
    ensures AfterRounds(Step(t, Releases(Token(poolId, 0, Generation(n)))), poolId, n)
  {
    hide Generation, InUse;
  }

  lemma {:induction false} RoundsRun(poolId: int, n: nat)
    ensures Good(OneSlot(poolId)) && AfterRounds(Run(OneSlot(poolId), Rounds(poolId, n)), poolId, n)
  {
    hide Good, OneSlot, AfterRounds, InRound, Step, Generation;
    OneSlotGood(poolId);
    if n == 0 {
    } else {
      RoundsRun(poolId, n - 1);
      var start, ops, a := OneSlot(poolId), Rounds(poolId, n - 1), Acquires(1);
      AcquireAgain(Run(start, ops), poolId, n - 1);
      RunLast(start, ops, a);
      RunLast(start, ops + [a], Releases(Token(poolId, 0, Generation(n))));
      ReleaseAgain(Run(start, ops + [a]), poolId, n);
    }
  }

  lemma FirstGeneration()
    ensures Generation(1) == 1
  {
  }

  /**
    A token can be accepted after its release: with 2^64 - 1 acquisitions in between, and the
    slot occupied by someone else, the pool of one slot takes the first token ever issued.
   */
  lemma StaleAccepted(poolId: int)
    ensures Good(OneSlot(poolId))
    ensures var t := Run(OneSlot(poolId), Rounds(poolId, CYCLE) + [Acquires(1)]);
            && t.counts == [CYCLE + 1] && |t.issued| == CYCLE + 1
            && t.issued[0] == Issue(Token(poolId, 0, 1), 1) && Accepts(t.pool, t.issued[0].token)
  {
    hide Good, OneSlot, Generation, Rounds, Step;
    RoundsRun(poolId, CYCLE);
    RunLast(OneSlot(poolId), Rounds(poolId, CYCLE), Acquires(1));
    AcquireAgain(Run(OneSlot(poolId), Rounds(poolId, CYCLE)), poolId, CYCLE);
    assert Generation(CYCLE + 1) == 1 by { SameGenerationExactly(CYCLE + 1, 1); FirstGeneration(); }
  }

  /** The first round of these has released that token. */
  lemma FirstRoundReleases(poolId: int)
    ensures Good(OneSlot(poolId))
    ensures var t := Run(OneSlot(poolId), Rounds(poolId, 1));
            |t.issued| == 1 && t.issued[0].token == Token(poolId, 0, 1) && Retired(t, 0)
  {
    hide Good, OneSlot, Rounds, Run;
    RoundsRun(poolId, 1);
    FirstGeneration();
  }

  // ----- the object

  class SurfacePoolObject {
    const poolId: int
    const perSurface: int
    const total: int
    var slots: seq<Slot>
    var reserved: int
    var highWaterBytes: int
    var highWaterSurfaces: int
    var acquisitions: int
    var releases: int
    var rejections: int

    ghost function Model(): Pool
      reads this
    {
      Pool(poolId, perSurface, total, slots, reserved, highWaterBytes, highWaterSurfaces, acquisitions,
        releases, rejections)
    }

    ghost predicate Valid()
      reads this
    {
      Inv(Model())
    }

    constructor (poolId: int, slots: int, perSurface: int, total: int)
      requires Create(poolId, slots, perSurface, total).Some?
      ensures Valid() && Create(poolId, slots, perSurface, total) == Some(Model())
    {
      this.poolId, this.perSurface, this.total := poolId, perSurface, total;
      this.slots := seq(slots, _ => Slot(0, false, 0));
      reserved, highWaterBytes, highWaterSurfaces, acquisitions, releases, rejections := 0, 0, 0, 0, 0, 0;
      new;
      NothingInUse(this.slots);
    }

    method FindFree() returns (index: nat)
      ensures index == FirstFree(slots)
    {
      index := 0;
      while index < |slots| && slots[index].occupied
        invariant 0 <= index <= |slots|
        invariant FirstFree(slots) == index + FirstFree(slots[index..])
      {
        assert slots[index..][1..] == slots[index + 1..];
        index := index + 1;
      }
    }

    method AcquireSurface(size: int) returns (token: Option<Token>)
      requires Valid()
      modifies this
      ensures Valid() && (Model(), token) == Acquire(old(Model()), size)
    {
      hide InUse, Occupied, NextGeneration;
      AcquireKeeps(Model(), size);
      if size <= 0 || size > perSurface || reserved + size > total {
        rejections := rejections + 1;
        return None;
      }
      var index := FindFree();
      if index == |slots| {
        rejections := rejections + 1;
        return None;
      }
      var generation := NextGeneration(slots[index].generation);
      slots := slots[index := Slot(generation, true, size)];
      reserved := reserved + size;
      acquisitions := acquisitions + 1;
      highWaterBytes := Max(highWaterBytes, reserved);
      highWaterSurfaces := Max(highWaterSurfaces, InUse(slots));
      return Some(Token(poolId, index, generation));
    }

    method ReleaseSurface(token: Token) returns (accepted: bool)
      requires Valid()
      modifies this
      ensures Valid() && (Model(), accepted) == Release(old(Model()), token)
    {
      hide InUse, Occupied;
      ReleaseKeeps(Model(), token);
      if token.poolId != poolId || !(0 <= token.slot < |slots|) {
        return false;
      }
      var slot := slots[token.slot];
      if !slot.occupied || slot.generation != token.generation {
        return false;
      }
      reserved := reserved - slot.size;
      slots := slots[token.slot := slot.(occupied := false, size := 0)];
      releases := releases + 1;
      return true;
    }
  }

  /** A configuration out of range is refused. */
  method NewPool(poolId: int, slots: int, perSurface: int, total: int) returns (pool: SurfacePoolObject?)
    ensures pool != null <==> 1 <= slots <= MAX_SLOTS && 1 <= perSurface <= total <= MAX_TOTAL
    ensures pool != null ==>
              fresh(pool) && pool.Valid() && Create(poolId, slots, perSurface, total) == Some(pool.Model())
  {
    hide Inv;
    if !(1 <= slots <= MAX_SLOTS && 1 <= perSurface <= total <= MAX_TOTAL) {
      return null;
    }
    pool := new SurfacePoolObject(poolId, slots, perSurface, total);
  }
}
