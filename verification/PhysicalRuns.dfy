/** Whole runs of frame allocation and release over the three pools. */
module PhysicalRuns {
  import opened MemoryLayout
  import opened Options
  import opened Arithmetic
  import opened FrameScan
  import opened PhysicalPools
  import opened FrameMap

  /** `alloc_himem`, `alloc` and `alloc_dma` start at different pools of the same chain. */
  ghost function AllocIn(ss: seq<Pool>, area: nat, pages: nat, align: nat): (r: (nat, seq<Pool>))
    requires |ss| == 3 && area < 3 && align > 0
    ensures |r.1| == 3
  {
    var tail := AllocChain(ss[area..], pages, align);
    (tail.0, ss[..area] + tail.1)
  }

  /** What an allocation comes to: the scan of the first pool from `area` on that has a run, or no change. */
  lemma {:induction false} ChainOutcome(ss: seq<Pool>, pages: nat, align: nat) returns (k: nat)
    requires align > 0
    ensures k <= |ss| && forall j | 0 <= j < k :: Scan(ss[j], pages, align).None?
    ensures k == |ss| ==> AllocChain(ss, pages, align) == (0, ss)
    ensures k < |ss| ==> Scan(ss[k], pages, align).Some? && var idx := Scan(ss[k], pages, align).value;
              AllocChain(ss, pages, align) == (ss[k].base + idx * PAGE_SIZE, ss[k := Taken(ss[k], idx, pages)])
  {
    hide Scan, Taken;
    if ss == [] {
      k := 0;
    } else if Scan(ss[0], pages, align).Some? {
      k := 0;
      var s := Taken(ss[0], Scan(ss[0], pages, align).value, pages);
      assert ss[0 := s] == [s] + ss[1..];
    } else {
      var i := ChainOutcome(ss[1..], pages, align);
      k := i + 1;
      assert forall j | 1 <= j < |ss| :: ss[1..][j - 1] == ss[j];
      if k < |ss| {
        var s := Taken(ss[k], Scan(ss[k], pages, align).value, pages);
        assert ss[k := s] == [ss[0]] + ss[1..][i := s];
      } else {
        assert ss == [ss[0]] + ss[1..];
      }
    }
  }

  /** Frames f..f+pages-1 were free and are now in use; no other status changed. */
  ghost predicate Grants(flat: seq<int>, flat': seq<int>, addr: nat, pages: nat) {
    && addr % PAGE_SIZE == 0
    && var f := addr / PAGE_SIZE;
       f + pages <= |flat| && (forall k | f <= k < f + pages :: flat[k] == 0) && flat' == Marked(flat, f, pages)
  }

  /** The pool that serves a call, 3 if none does, and what becomes of the pools. */
  lemma AllocOutcome(ss: seq<Pool>, area: nat, pages: nat, align: nat) returns (k: nat)
    requires |ss| == 3 && area < 3 && align > 0
    ensures area <= k <= 3 && forall j | area <= j < k :: Scan(ss[j], pages, align).None?
    ensures k == 3 ==> AllocIn(ss, area, pages, align) == (0, ss)
    ensures k < 3 ==> Scan(ss[k], pages, align).Some? && var idx := Scan(ss[k], pages, align).value;
              AllocIn(ss, area, pages, align) == (ss[k].base + idx * PAGE_SIZE, ss[k := Taken(ss[k], idx, pages)])
  {
    hide Scan, Taken, AllocChain;
    var i := ChainOutcome(ss[area..], pages, align);
    k := area + i;
    assert forall j | area <= j < 3 :: ss[j] == ss[area..][j - area];
    if k == 3 {
      assert ss[..area] + ss[area..] == ss;
    } else {
      var s := Taken(ss[k], Scan(ss[k], pages, align).value, pages);
      assert ss[..area] + ss[area..][i := s] == ss[k := s];
    }
  }

  /** The pool that serves a call is one that the call comes to. */
  lemma ServingPoolSafe(ss: seq<Pool>, area: nat, k: nat, pages: nat, align: nat)
    requires |ss| == 3 && area <= k < 3 && align > 0 && ChainSafe(ss[area..], pages, align)
    requires forall j | area <= j < k :: Scan(ss[j], pages, align).None?
    ensures Safe(ss[k], pages, align)
  {
    hide Safe, HasRun, Scan;
    ChainSafeIff(ss[area..], pages, align);
    forall j | 0 <= j < k - area ensures !HasRun(ss[area..][j], pages, align) {
      FindsRunIff(ss[area + j], pages, align);
    }
    assert Reached(ss[area..], k - area, pages, align) && ss[area..][k - area] == ss[k];
  }

  /** A call that succeeds grants a run of one pool; a call that fails changes nothing. */
  lemma AllocGrants(ss: seq<Pool>, area: nat, pages: nat, align: nat) returns (k: nat)
    requires Tiled(ss) && area < 3 && align > 0 && ChainSafe(ss[area..], pages, align)
    ensures area <= k <= 3 && Tiled(AllocIn(ss, area, pages, align).1)
    ensures k == 3 ==> AllocIn(ss, area, pages, align) == (0, ss)
    ensures k < 3 ==> var (addr, ss') := AllocIn(ss, area, pages, align);
              Grants(Flat(ss), Flat(ss'), addr, pages)
    ensures k < 3 ==> var f := AllocIn(ss, area, pages, align).0 / PAGE_SIZE;
              Offset(ss, k) <= f < Offset(ss, k) + |ss[k].bits| && f + pages <= Offset(ss, k) + |ss[k].bits|
    ensures forall j | area <= j < k :: Scan(ss[j], pages, align).None?
    ensures k < 3 ==> Scan(ss[k], pages, align).Some?
  {
    hide AllocIn, Scan, Taken, AllocChain, Safe, Grants;
    k := AllocOutcome(ss, area, pages, align);
    if k < 3 {
      ServingPoolSafe(ss, area, k, pages, align);
      SafeWithin(ss[k], pages, align);
      var idx := Scan(ss[k], pages, align).value;
      TakenFlat(ss, k, idx, pages);
      GrantedRun(ss, k, idx, pages);
    }
  }

  lemma GrantedRun(ss: seq<Pool>, k: nat, idx: nat, pages: nat)
    requires Tiled(ss) && k < 3 && idx < |ss[k].bits| && idx + pages <= |ss[k].bits|
    requires forall i | idx <= i < idx + pages :: ss[k].bits[i] == 0
    ensures Grants(Flat(ss), Marked(Flat(ss), Offset(ss, k) + idx, pages), ss[k].base + idx * PAGE_SIZE, pages)
    ensures (ss[k].base + idx * PAGE_SIZE) / PAGE_SIZE == Offset(ss, k) + idx
  {
    var f := Offset(ss, k) + idx;
    ModUnique(ss[k].base + idx * PAGE_SIZE, f, PAGE_SIZE, 0);
    forall i | f <= i < f + pages ensures Flat(ss)[i] == 0 {
      assert ss[k].bits[i - Offset(ss, k)] == 0;
    }
  }

  /** `mm::physical::free`: one status word after the other. */
  ghost function FreeFrames(ss: seq<Pool>, addr: nat, pages: nat): (r: seq<Pool>)
    requires Tiled(ss)
    ensures Tiled(r) && |Flat(r)| == |Flat(ss)|
    ensures forall f | 0 <= f < |Flat(ss)| ::
              Flat(r)[f] == if addr / PAGE_SIZE <= f < addr / PAGE_SIZE + pages then 0 else Flat(ss)[f]
  {
    if pages == 0 then ss
    else
      var r := FreeFrames(ss, addr, pages - 1);
      SetStatusFlat(r, addr + (pages - 1) * PAGE_SIZE, 0);
      SetStatus(r, addr + (pages - 1) * PAGE_SIZE, 0)
  }

  // ---- Runs ----

  datatype Op = Alloc(area: nat, pages: nat, align: nat) | Free(addr: nat, pages: nat)

  /** The pools and the frames that are handed out. */
  datatype Memory = Memory(pools: seq<Pool>, owned: set<nat>)

  ghost function {:induction false} FrameRange(first: nat, n: nat): (r: set<nat>)
    ensures |r| == n && forall f: nat :: f in r <==> first <= f < first + n
  {
    if n == 0 then {} else FrameRange(first, n - 1) + {first + n - 1}
  }

  ghost function Frames(addr: nat, pages: nat): set<nat> {
    FrameRange(addr / PAGE_SIZE, pages)
  }

  /** Exactly the allocated and the reserved frames are in use, frame 0 is reserved, and no frame is both. */
  ghost predicate Inv(m: Memory, reserved: set<nat>) {
    Tiled(m.pools) && Accounted(Flat(m.pools), m.owned, reserved)
  }

  ghost predicate Accounted(flat: seq<int>, owned: set<nat>, reserved: set<nat>) {
    && owned !! reserved && 0 in reserved
    && (forall f | f in owned + reserved :: f < |flat|)
    && forall f: nat | f < |flat| :: flat[f] != 0 <==> f in owned || f in reserved
  }

  lemma FreeAccounted(flat: seq<int>, flat': seq<int>, frames: set<nat>, owned: set<nat>, reserved: set<nat>)
    requires Accounted(flat, owned, reserved) && frames <= owned && |flat'| == |flat|
    requires forall f | 0 <= f < |flat| :: flat'[f] == if f in frames then 0 else flat[f]
    ensures Accounted(flat', owned - frames, reserved)
  {
    forall f | f in owned - frames + reserved ensures f < |flat'| {
      assert f in owned + reserved;
    }
  }

  lemma GrantAccounted(flat: seq<int>, flat': seq<int>, addr: nat, pages: nat, owned: set<nat>, reserved: set<nat>)
    requires Accounted(flat, owned, reserved) && Grants(flat, flat', addr, pages) && pages > 0
    ensures addr != 0 && Frames(addr, pages) !! owned + reserved
    ensures Accounted(flat', owned + Frames(addr, pages), reserved) && |flat'| == |flat|
  {
    assert flat[addr / PAGE_SIZE] == 0;
  }

  /** The source's callers free what they were given; an allocation must be safe in each pool it comes to. */
  ghost predicate Permitted(m: Memory, op: Op)
    requires |m.pools| == 3
  {
    match op
    case Alloc(area, pages, align) => area < 3 && pages > 0 && align > 0 && ChainSafe(m.pools[area..], pages, align)
    case Free(addr, pages) => Frames(addr, pages) <= m.owned
  }

  ghost function Result(m: Memory, op: Op): nat
    requires Tiled(m.pools) && Permitted(m, op)
  {
    if op.Alloc? then AllocIn(m.pools, op.area, op.pages, op.align).0 else 0
  }

  ghost function Next(m: Memory, op: Op): Memory
    requires Tiled(m.pools) && Permitted(m, op)
  {
    match op
    case Alloc(area, pages, align) =>
      var r := AllocIn(m.pools, area, pages, align);
      Memory(r.1, if r.0 == 0 then m.owned else m.owned + Frames(r.0, pages))
    case Free(addr, pages) => Memory(FreeFrames(m.pools, addr, pages), m.owned - Frames(addr, pages))
  }

  /** Nothing that is reserved or already handed out is ever handed out, so success is never address 0. */
  lemma AllocFresh(m: Memory, op: Op, reserved: set<nat>)
    requires Inv(m, reserved) && op.Alloc? && Permitted(m, op)
    ensures Inv(Next(m, op), reserved) && |Flat(Next(m, op).pools)| == |Flat(m.pools)|
    ensures Result(m, op) != 0 ==> Frames(Result(m, op), op.pages) !! m.owned + reserved
    ensures Result(m, op) == 0 ==> Next(m, op) == m
    ensures Result(m, op) != 0 <==> exists j :: op.area <= j < 3 && HasRun(m.pools[j], op.pages, op.align)
  {
    hide AllocIn, ChainSafe, Scan, Offset, Flat, Grants, Accounted, Frames, HasRun;
    forall j | op.area <= j < 3
      ensures Scan(m.pools[j], op.pages, op.align).Some? <==> HasRun(m.pools[j], op.pages, op.align)
    {
      FindsRunIff(m.pools[j], op.pages, op.align);
    }
    var k := AllocGrants(m.pools, op.area, op.pages, op.align);
    if k < 3 {
      GrantAccounted(Flat(m.pools), Flat(Next(m, op).pools), Result(m, op), op.pages, m.owned, reserved);
    }
  }

  /** A single frame is handed out exactly when one is free in the pools that are asked. */
  lemma FrameLeftIff(m: Memory, area: nat, reserved: set<nat>)
    requires Inv(m, reserved) && area < 3
    ensures Permitted(m, Alloc(area, 1, 1))
    ensures Result(m, Alloc(area, 1, 1)) != 0 <==>
            exists f :: 0 <= f < Offset(m.pools, area) + |m.pools[area].bits| && Flat(m.pools)[f] == 0
  {
    hide Scan, AllocIn, Accounted;
    SingleFrameSafe(m, area);
    var op := Alloc(area, 1, 1);
    var k := AllocGrants(m.pools, area, 1, 1);
    AllocFresh(m, op, reserved);
    if k < 3 {
      var f := Result(m, op) / PAGE_SIZE;
      assert Flat(m.pools)[f] == 0;
    } else {
      forall f | 0 <= f < Offset(m.pools, area) + |m.pools[area].bits| ensures Flat(m.pools)[f] != 0 {
        var j := PoolOf(m.pools, f);
        FindsFrameIff(m.pools[j]);
      }
    }
  }

  lemma SingleFrameSafe(m: Memory, area: nat)
    requires |m.pools| == 3 && area < 3
    ensures Permitted(m, Alloc(area, 1, 1))
  {
    ChainSafeIff(m.pools[area..], 1, 1);
  }

  /** The pool that a frame belongs to. */
  lemma PoolOf(ss: seq<Pool>, f: nat) returns (k: nat)
    requires Tiled(ss) && f < |Flat(ss)|
    ensures k < 3 && Offset(ss, k) <= f < Offset(ss, k) + |ss[k].bits| && Flat(ss)[f] == ss[k].bits[f - Offset(ss, k)]
  {
    k := if f < |ss[DMA].bits| then DMA else if f < |ss[DMA].bits| + |ss[DEFAULT].bits| then DEFAULT else HIMEM;
  }

  lemma FreeKeepsInv(m: Memory, op: Op, reserved: set<nat>)
    requires Inv(m, reserved) && op.Free? && Permitted(m, op)
    ensures Inv(Next(m, op), reserved) && |Flat(Next(m, op).pools)| == |Flat(m.pools)|
  {
    hide Accounted, Flat;
    FreeAccounted(Flat(m.pools), Flat(Next(m, op).pools), Frames(op.addr, op.pages), m.owned, reserved);
  }

  ghost predicate AllPermitted(m: Memory, ops: seq<Op>)
    requires Tiled(m.pools)
    decreases |ops|
  {
    ops != [] ==> Permitted(m, ops[0]) && Tiled(Next(m, ops[0]).pools) && AllPermitted(Next(m, ops[0]), ops[1..])
  }

  ghost function Run(m: Memory, ops: seq<Op>): Memory
    requires Tiled(m.pools) && AllPermitted(m, ops)
    decreases |ops|
  {
    if ops == [] then m else Run(Next(m, ops[0]), ops[1..])
  }

  /** After any run, exactly the handed-out and the reserved frames are in use. */
  lemma {:induction false} RunKeepsInv(m: Memory, ops: seq<Op>, reserved: set<nat>)
    requires Inv(m, reserved) && AllPermitted(m, ops)
    ensures Inv(Run(m, ops), reserved) && |Flat(Run(m, ops).pools)| == |Flat(m.pools)|
    decreases |ops|
  {
    if ops != [] {
      if ops[0].Alloc? { AllocFresh(m, ops[0], reserved); } else { FreeKeepsInv(m, ops[0], reserved); }
      RunKeepsInv(Next(m, ops[0]), ops[1..], reserved);
    }
  }

  ghost function FreeSet(flat: seq<int>): set<nat> {
    set f: nat | f < |flat| && flat[f] == 0
  }

  /** Free, allocated and reserved frames always add up to the whole memory. */
  lemma FramesConserved(m: Memory, reserved: set<nat>)
    requires Inv(m, reserved)
    ensures |FreeSet(Flat(m.pools))| + |m.owned| + |reserved| == |Flat(m.pools)|
  {
    var flat := Flat(m.pools);
    assert FreeSet(flat) + (m.owned + reserved) == FrameRange(0, |flat|);
    assert FreeSet(flat) !! m.owned + reserved;
  }

  /** Freeing a run returns each frame to the pool that issued it, and every status is as before the allocation. */
  lemma AllocThenFree(m: Memory, op: Op, reserved: set<nat>) returns (k: nat)
    requires Inv(m, reserved) && op.Alloc? && Permitted(m, op) && Result(m, op) != 0
    ensures op.area <= k < 3 && Scan(m.pools[k], op.pages, op.align).Some?
    ensures forall i: nat | i < op.pages :: FindPool(Next(m, op).pools, Result(m, op) + i * PAGE_SIZE) == Some(k)
    ensures Tiled(Next(m, op).pools) && Frames(Result(m, op), op.pages) <= Next(m, op).owned
    ensures Flat(FreeFrames(Next(m, op).pools, Result(m, op), op.pages)) == Flat(m.pools)
    ensures Next(m, op).owned - Frames(Result(m, op), op.pages) == m.owned
  {
    hide AllocIn, ChainSafe, Scan, Flat, Offset;
    k := IssuingPool(m, op);
    Restored(m.pools, op.area, op.pages, op.align);
    AllocFresh(m, op, reserved);
  }

  lemma Restored(ss: seq<Pool>, area: nat, pages: nat, align: nat)
    requires Tiled(ss) && area < 3 && align > 0 && ChainSafe(ss[area..], pages, align)
    requires AllocIn(ss, area, pages, align).0 != 0
    ensures var (addr, ss') := AllocIn(ss, area, pages, align);
      Tiled(ss') && Flat(FreeFrames(ss', addr, pages)) == Flat(ss)
  {
    hide AllocIn, ChainSafe, Scan, Tiled, Offset, FreeFrames, Flat;
    var k := AllocGrants(ss, area, pages, align);
  }

  lemma IssuingPool(m: Memory, op: Op) returns (k: nat)
    requires Tiled(m.pools) && op.Alloc? && Permitted(m, op) && Result(m, op) != 0
    ensures op.area <= k < 3 && Scan(m.pools[k], op.pages, op.align).Some?
    ensures forall i: nat | i < op.pages :: FindPool(Next(m, op).pools, Result(m, op) + i * PAGE_SIZE) == Some(k)
  {
    hide AllocIn, ChainSafe, Scan, Offset, Flat, FindPool;
    k := AllocGrants(m.pools, op.area, op.pages, op.align);
    var k' := AllocOutcome(m.pools, op.area, op.pages, op.align);
    var ss := Next(m, op).pools;
    assert forall j | 0 <= j < 3 :: |ss[j].bits| == |m.pools[j].bits|;
    forall i: nat | i < op.pages ensures FindPool(ss, Result(m, op) + i * PAGE_SIZE) == Some(k) {
      RoutedTo(ss, Result(m, op) + i * PAGE_SIZE, k) by {
        SameOffsets(m.pools, ss, k);
      }
    }
  }

  lemma SameOffsets(ss: seq<Pool>, ss': seq<Pool>, k: nat)
    requires |ss| == 3 && |ss'| == 3 && k < 3 && forall j | 0 <= j < 3 :: |ss'[j].bits| == |ss[j].bits|
    ensures Offset(ss', k) == Offset(ss, k)
  {}

  lemma RoutedTo(ss: seq<Pool>, addr: nat, k: nat)
    requires Tiled(ss) && k < 3 && Offset(ss, k) <= addr / PAGE_SIZE < Offset(ss, k) + |ss[k].bits|
    ensures FindPool(ss, addr) == Some(k)
  {
    Routed(ss, addr);
  }
}
