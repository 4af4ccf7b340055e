/** Which requests the pools permit, and which states of a pool runs of single frames lead to. */
module FrameReach {
  import opened MemoryLayout
  import opened Options
  import opened FrameScan
  import opened PhysicalPools
  import opened FrameMap
  import opened PhysicalRuns

  // ---- Requests that are always permitted ----

  /** In a pool whose first or last frame is reserved, requests of every size and alignment are safe at any time. */
  lemma ReservedEdge(m: Memory, k: nat, reserved: set<nat>, pages: nat, align: nat)
    requires Inv(m, reserved) && k < 3 && align > 0 && m.pools[k].bits != []
    requires Offset(m.pools, k) in reserved || Offset(m.pools, k) + |m.pools[k].bits| - 1 in reserved
    ensures Safe(m.pools[k], pages, align)
  {
    hide Fits, Safe;
    var n := |m.pools[k].bits|;
    assert Flat(m.pools)[Offset(m.pools, k)] == m.pools[k].bits[0];
    assert Flat(m.pools)[Offset(m.pools, k) + n - 1] == m.pools[k].bits[n - 1];
    SafeWhen(m.pools[k], pages, align);
  }

  /** Frame 0 is reserved, so the DMA pool is always safe, and only the pools above it restrict a request. */
  lemma PermittedIff(m: Memory, area: nat, pages: nat, align: nat, reserved: set<nat>)
    requires Inv(m, reserved) && area < 3 && pages > 0 && align > 0
    ensures Permitted(m, Alloc(area, pages, align)) <==>
            forall k: nat | area <= k < DMA && Reached(m.pools[area..], k - area, pages, align) ::
              Safe(m.pools[k], pages, align)
  {
    hide Safe, Accounted, Flat, Reached;
    var ss := m.pools;
    ChainSafeIff(ss[area..], pages, align);
    assert Safe(ss[DMA], pages, align) by { DmaSafe(m, pages, align, reserved); }
    assert forall k | area <= k < 3 :: ss[k] == ss[area..][k - area];
    if !Permitted(m, Alloc(area, pages, align)) {
      var i: nat :| i < |ss[area..]| && Reached(ss[area..], i, pages, align) && !Safe(ss[area..][i], pages, align);
      assert Reached(ss[area..], area + i - area, pages, align);
    }
  }

  lemma DmaSafe(m: Memory, pages: nat, align: nat, reserved: set<nat>)
    requires Inv(m, reserved) && align > 0
    ensures Safe(m.pools[DMA], pages, align)
  {
    if m.pools[DMA].bits == [] {
      SafeWhen(m.pools[DMA], pages, align);
    } else {
      ReservedEdge(m, DMA, reserved, pages, align);
    }
  }

  // ---- States that single frames reach ----

  predicate SingleFrame(op: Op) {
    op.pages == 1 && (op.Alloc? ==> op.align == 1)
  }

  /** A run of single-frame allocations and releases leads from one state to the other. */
  ghost predicate Reaches(m: Memory, m': Memory) {
    Tiled(m.pools) && exists ops :: Leads(m, ops, m')
  }

  ghost predicate Leads(m: Memory, ops: seq<Op>, m': Memory)
    requires Tiled(m.pools)
  {
    (forall op | op in ops :: SingleFrame(op)) && AllPermitted(m, ops) && Run(m, ops) == m'
  }

  lemma ReachesSelf(m: Memory)
    requires Tiled(m.pools)
    ensures Reaches(m, m)
  {
    assert Leads(m, [], m);
  }

  lemma {:induction false} RunThenStep(m: Memory, ops: seq<Op>, op: Op)
    requires Tiled(m.pools) && AllPermitted(m, ops) && Tiled(Run(m, ops).pools) && Permitted(Run(m, ops), op)
    requires Tiled(Next(Run(m, ops), op).pools)
    ensures AllPermitted(m, ops + [op]) && Run(m, ops + [op]) == Next(Run(m, ops), op)
    decreases |ops|
  {
    hide Permitted, Next, Tiled;
    if ops == [] {
      assert ops + [op] == [op] && [op][1..] == [];
    } else {
      RunThenStep(Next(m, ops[0]), ops[1..], op);
      assert (ops + [op])[1..] == ops[1..] + [op];
    }
  }

  lemma ReachesNext(m: Memory, m1: Memory, op: Op)
    requires Reaches(m, m1) && SingleFrame(op) && Tiled(m1.pools) && Permitted(m1, op) && Tiled(Next(m1, op).pools)
    ensures Reaches(m, Next(m1, op))
  {
    hide Permitted, Next, Tiled, Run, AllPermitted;
    var ops :| Leads(m, ops, m1);
    RunThenStep(m, ops, op);
    assert Leads(m, ops + [op], Next(m1, op));
  }

  /** One frame taken from a pool that has a free one. */
  lemma TakeFrame(m: Memory, k: nat, reserved: set<nat>) returns (i: nat)
    requires Inv(m, reserved) && k < 3 && exists j :: 0 <= j < |m.pools[k].bits| && m.pools[k].bits[j] == 0
    ensures i < |m.pools[k].bits| && m.pools[k].bits[i] == 0
    ensures var op := Alloc(k, 1, 1);
      && Permitted(m, op) && Inv(Next(m, op), reserved)
      && Next(m, op).pools == m.pools[k := Taken(m.pools[k], i, 1)]
  {
    hide Scan, Accounted, Flat, HasRun;
    SingleFrameSafe(m, k);
    AllocFresh(m, Alloc(k, 1, 1), reserved);
    var j := AllocOutcome(m.pools, k, 1, 1);
    FindsFrameIff(m.pools[k]);
    i := Scan(m.pools[k], 1, 1).value;
    DividedPoolTakes(m.pools[k], 1, 1);
  }

  /** One frame that is handed out put back. */
  lemma ReturnFrame(m: Memory, k: nat, i: nat, reserved: set<nat>)
    requires Inv(m, reserved) && k < 3 && i < |m.pools[k].bits| && Offset(m.pools, k) + i in m.owned
    ensures var f := Offset(m.pools, k) + i;
      var op := Free(f * PAGE_SIZE, 1);
      && Permitted(m, op) && Inv(Next(m, op), reserved)
      && Next(m, op) == Memory(m.pools[k := m.pools[k].(bits := m.pools[k].bits[i := 0])], m.owned - {f})
  {
    hide Accounted, Flat;
    var f := Offset(m.pools, k) + i;
    var op := Free(f * PAGE_SIZE, 1);
    assert Frames(f * PAGE_SIZE, 1) == {f};
    FreeKeepsInv(m, op, reserved);
    RoutedTo(m.pools, f * PAGE_SIZE, k);
    Routed(m.pools, f * PAGE_SIZE);
    assert FreeFrames(m.pools, f * PAGE_SIZE, 0) == m.pools;
  }

  /** Frame `i` of pool `k` is handed out. */
  ghost predicate Held(m: Memory, k: nat, i: nat)
    requires |m.pools| == 3 && k < 3
  {
    Offset(m.pools, k) + i in m.owned
  }

  /** A pool as boot leaves it: the search stands at its start, and only reserved frames are in use. */
  ghost predicate Unused(m: Memory, k: nat)
    requires |m.pools| == 3 && k < 3
  {
    m.pools[k].prev == 0 && forall i: nat | i < |m.pools[k].bits| :: !Held(m, k, i)
  }

  /** No run changes how many frames a pool has. */
  lemma {:induction false} RunKeepsSizes(m: Memory, ops: seq<Op>, reserved: set<nat>)
    requires Inv(m, reserved) && AllPermitted(m, ops)
    ensures |Run(m, ops).pools| == 3
    ensures forall k | 0 <= k < 3 :: |Run(m, ops).pools[k].bits| == |m.pools[k].bits|
    decreases |ops|
  {
    hide Accounted, Flat, Permitted, AllocIn, FreeFrames, Safe;
    if ops != [] {
      StepKeepsSizes(m, ops[0], reserved);
      RunKeepsSizes(Next(m, ops[0]), ops[1..], reserved);
    }
  }

  lemma StepKeepsSizes(m: Memory, op: Op, reserved: set<nat>)
    requires Inv(m, reserved) && Permitted(m, op)
    ensures Inv(Next(m, op), reserved)
    ensures forall k | 0 <= k < 3 :: |Next(m, op).pools[k].bits| == |m.pools[k].bits|
  {
    hide Accounted, Flat, AllocIn, FreeFrames, Safe;
    match op {
      case Alloc(area, pages, align) =>
        AllocFresh(m, op, reserved);
        var k := AllocOutcome(m.pools, area, pages, align);
      case Free(addr, pages) =>
        FreeKeepsInv(m, op, reserved);
        FreeKeepsShape(m.pools, addr, pages);
    }
  }

  lemma {:induction false} FreeKeepsShape(ss: seq<Pool>, addr: nat, pages: nat)
    requires Tiled(ss)
    ensures SameShape(ss, FreeFrames(ss, addr, pages))
    decreases pages
  {
    hide Flat, SetStatus;
    if pages > 0 {
      FreeKeepsShape(ss, addr, pages - 1);
    }
  }

  /** What every run from there keeps: reserved frames in use, and the search behind a frame that is not reserved. */
  ghost predicate Descends(s0: Pool, s: Pool) {
    && FrameScan.Valid(s) && |s.bits| == |s0.bits|
    && (forall i | 0 <= i < |s.bits| :: s0.bits[i] != 0 ==> s.bits[i] != 0)
    && (s.prev > 0 ==> s0.bits[s.prev - 1] == 0)
  }

  lemma {:induction false} RunDescends(m: Memory, ops: seq<Op>, k: nat, s0: Pool, reserved: set<nat>)
    requires Inv(m, reserved) && k < 3 && AllPermitted(m, ops)
    requires Descends(s0, m.pools[k]) && PinnedBy(m, k, s0, reserved)
    ensures |Run(m, ops).pools| == 3 && Descends(s0, Run(m, ops).pools[k])
    decreases |ops|
  {
    hide Accounted, Flat, Permitted, AllocIn, FreeFrames, Safe, Descends, PinnedBy;
    if ops != [] {
      StepDescends(m, ops[0], k, s0, reserved);
      RunDescends(Next(m, ops[0]), ops[1..], k, s0, reserved);
    }
  }

  /** The frames in use in `s0` are the reserved ones of the pool. */
  ghost predicate PinnedBy(m: Memory, k: nat, s0: Pool, reserved: set<nat>)
    requires |m.pools| == 3 && k < 3
  {
    |s0.bits| == |m.pools[k].bits| &&
    forall i: nat | i < |s0.bits| :: s0.bits[i] != 0 <==> Offset(m.pools, k) + i in reserved
  }

  lemma StatusOf(m: Memory, k: nat, i: nat, reserved: set<nat>)
    requires Inv(m, reserved) && k < 3 && i < |m.pools[k].bits|
    ensures m.pools[k].bits[i] != 0 <==> Held(m, k, i) || Offset(m.pools, k) + i in reserved
    ensures !(Held(m, k, i) && Offset(m.pools, k) + i in reserved)
  {
    assert Flat(m.pools)[Offset(m.pools, k) + i] == m.pools[k].bits[i];
  }

  lemma StepDescends(m: Memory, op: Op, k: nat, s0: Pool, reserved: set<nat>)
    requires Inv(m, reserved) && k < 3 && Permitted(m, op)
    requires Descends(s0, m.pools[k]) && PinnedBy(m, k, s0, reserved)
    ensures Inv(Next(m, op), reserved) && Descends(s0, Next(m, op).pools[k]) && PinnedBy(Next(m, op), k, s0, reserved)
  {
    hide Accounted, Flat, Scan, FreeFrames, AllocIn, Safe;
    StepKeepsSizes(m, op, reserved);
    SameOffsets(m.pools, Next(m, op).pools, k);
    var s' := Next(m, op).pools[k];
    forall i: nat | i < |s'.bits| && s0.bits[i] != 0 ensures s'.bits[i] != 0 {
      StatusOf(Next(m, op), k, i, reserved);
    }
    match op {
      case Alloc(area, pages, align) =>
        AllocPrev(m, area, pages, align, k);
      case Free(addr, pages) =>
        FreeKeepsShape(m.pools, addr, pages);
    }
  }

  lemma AllocPrev(m: Memory, area: nat, pages: nat, align: nat, k: nat)
    requires Tiled(m.pools) && k < 3 && Permitted(m, Alloc(area, pages, align))
    ensures var (s, s') := (m.pools[k], AllocIn(m.pools, area, pages, align).1[k]);
      s'.prev == s.prev || s'.prev == 0 || (s'.prev <= |s.bits| && s.bits[s'.prev - 1] == 0)
  {
    hide Scan, AllocIn, Taken, Flat, Safe;
    var j := AllocOutcome(m.pools, area, pages, align);
    if j == k {
      ServingPoolSafe(m.pools, area, k, pages, align);
      TakenPrev(m.pools[k], pages, align);
    }
  }

  lemma TakenPrev(s: Pool, pages: nat, align: nat)
    requires FrameScan.Valid(s) && pages > 0 && align > 0 && Safe(s, pages, align) && Scan(s, pages, align).Some?
    ensures var s' := Taken(s, Scan(s, pages, align).value, pages);
      s'.prev == 0 || (s'.prev <= |s.bits| && s.bits[s'.prev - 1] == 0)
  {
    hide Scan, Safe;
    SafeWithin(s, pages, align);
    var n, i := |s.bits|, Scan(s, pages, align).value + pages - 1;
    assert s.bits[i] == 0;
    assert (i + 1) % n == if i + 1 == n then 0 else i + 1;
  }
}
