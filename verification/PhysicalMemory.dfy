/** The three pools of the kernel in place: allocation, release, reservation and the boot step. */
module PhysicalMemory {
  import opened MemoryLayout
  import opened Options
  import opened FrameScan
  import opened PhysicalPools
  import opened FrameMap
  import opened PhysicalRuns
  import opened Arithmetic

  /** `multiboot_mmap_entry`: 64-bit address and length. */
  datatype Region = Region(addr: nat, len: nat, kind: nat)

  /** 32-bit addresses. */
  function Wrap(x: nat): nat { x % 0x1_0000_0000 }

  // ---- Ranges that are reserved page by page ----

  /** The frame that step `i` of `reserve_range` marks. */
  function StepFrame(addr: nat, i: nat): nat { Wrap(addr + i * PAGE_SIZE) / PAGE_SIZE }

  ghost predicate Stepped(addr: nat, steps: nat, f: nat) {
    exists i: nat :: i < steps && StepFrame(addr, i) == f
  }

  ghost function ReserveSteps(ss: seq<Pool>, addr: nat, steps: nat): (r: seq<Pool>)
    requires Tiled(ss)
    ensures Tiled(r) && |Flat(r)| == |Flat(ss)| && SameShape(ss, r)
    ensures forall f: nat | f < |Flat(ss)| :: Flat(r)[f] == if Stepped(addr, steps, f) then 1 else Flat(ss)[f]
  {
    if steps == 0 then ss
    else
      var r := ReserveSteps(ss, addr, steps - 1);
      var a := Wrap(addr + (steps - 1) * PAGE_SIZE);
      SetStatusFlat(r, a, 1);
      LastStep(addr, steps);
      SetStatus(r, a, 1)
  }

  lemma NoneReserved(ss: seq<Pool>, addr: nat)
    requires Tiled(ss)
    ensures ReserveSteps(ss, addr, 0) == ss
  {}

  lemma OneMoreReserved(ss: seq<Pool>, addr: nat, k: nat)
    requires Tiled(ss)
    ensures ReserveSteps(ss, addr, k + 1) == SetStatus(ReserveSteps(ss, addr, k), Wrap(addr + k * PAGE_SIZE), 1)
  {}

  lemma NoneFreed(ss: seq<Pool>, addr: nat)
    requires Tiled(ss)
    ensures FreeFrames(ss, addr, 0) == ss
  {}

  lemma OneMoreFreed(ss: seq<Pool>, addr: nat, i: nat)
    requires Tiled(ss)
    ensures FreeFrames(ss, addr, i + 1) == SetStatus(FreeFrames(ss, addr, i), addr + i * PAGE_SIZE, 0)
  {}

  lemma LastStep(addr: nat, steps: nat)
    requires steps > 0
    ensures forall f: nat :: Stepped(addr, steps, f) <==> Stepped(addr, steps - 1, f) || StepFrame(addr, steps - 1) == f
  {
    forall f: nat | Stepped(addr, steps, f) ensures Stepped(addr, steps - 1, f) || StepFrame(addr, steps - 1) == f {
      var i: nat :| i < steps && StepFrame(addr, i) == f;
      assert i < steps - 1 || i == steps - 1;
    }
  }

  /** The frame holds a byte of the range. */
  ghost predicate Touches(addr: nat, size: nat, f: nat) {
    f * PAGE_SIZE < addr + size && addr < (f + 1) * PAGE_SIZE && size > 0
  }

  /** A range is reserved down to its last byte exactly when its offset into the first page leaves room for it. */
  lemma ReservesWholeRangeIff(addr: nat, size: nat)
    requires addr + size <= 0x1_0000_0000
    ensures (forall f: nat | Touches(addr, size, f) :: Stepped(addr, RequiredPages(size), f)) <==>
            (size == 0 || addr % PAGE_SIZE + size <= RequiredPages(size) * PAGE_SIZE)
  {
    forall i: nat | i < RequiredPages(size) ensures StepFrame(addr, i) == addr / PAGE_SIZE + i {
      assert addr + i * PAGE_SIZE < 0x1_0000_0000;
    }
    if size > 0 {
      var last := (addr + size - 1) / PAGE_SIZE;
      assert Touches(addr, size, last);
      if addr % PAGE_SIZE + size <= RequiredPages(size) * PAGE_SIZE {
        forall f: nat | Touches(addr, size, f) ensures Stepped(addr, RequiredPages(size), f) {
          assert StepFrame(addr, f - addr / PAGE_SIZE) == f;
        }
      }
    }
  }

  /** The 32-bit loop counter of `reserve_range` after `k` rounds. */
  function Counter(k: nat): nat { Wrap(k * PAGE_SIZE) }

  /** The loop ends for every size but those within a page of 2^32, which its counter skips over for ever. */
  lemma ReserveLoopEndsIff(size: nat)
    requires size < 0x1_0000_0000
    ensures (exists k: nat :: Counter(k) >= size) <==> size <= 0xFFFF_F000
  {
    assert Counter(0xF_FFFF) == 0xFFFF_F000;
    forall k: nat ensures Counter(k) <= 0xFFFF_F000 {
      assert k * PAGE_SIZE == PAGE_SIZE * (k / 0x10_0000 * 0x10_0000 + k % 0x10_0000);
    }
  }

  /** Regions are taken as reserved when the lowest bit of their type is clear. */
  predicate Unavailable(r: Region) { r.kind % 2 == 0 }

  ghost predicate InRegion(r: Region, f: nat) {
    Unavailable(r) && Stepped(Wrap(r.addr), RequiredPages(Wrap(r.len)), f)
  }

  ghost predicate InRegions(regions: seq<Region>, f: nat) {
    exists r :: r in regions && InRegion(r, f)
  }

  ghost function {:induction false} ReserveRegions(ss: seq<Pool>, regions: seq<Region>): (t: seq<Pool>)
    requires Tiled(ss)
    ensures Tiled(t) && |Flat(t)| == |Flat(ss)| && SameShape(ss, t)
    ensures forall f: nat | f < |Flat(ss)| :: Flat(t)[f] == if InRegions(regions, f) then 1 else Flat(ss)[f]
    decreases |regions|
  {
    if regions == [] then ss
    else
      var n := |regions| - 1;
      var t := ReserveRegions(ss, regions[..n]);
      LastRegion(regions);
      if Unavailable(regions[n]) then ReserveSteps(t, Wrap(regions[n].addr), RequiredPages(Wrap(regions[n].len))) else t
  }

  lemma LastRegion(regions: seq<Region>)
    requires regions != []
    ensures var n := |regions| - 1;
      forall f: nat :: InRegions(regions, f) <==> InRegions(regions[..n], f) || InRegion(regions[n], f)
  {
    var n := |regions| - 1;
    assert regions == regions[..n] + [regions[n]];
  }

  lemma NoRegion(ss: seq<Pool>)
    requires Tiled(ss)
    ensures ReserveRegions(ss, []) == ss
  {}

  lemma NextRegion(ss: seq<Pool>, regions: seq<Region>, k: nat)
    requires Tiled(ss) && k < |regions|
    ensures ReserveRegions(ss, regions[..k + 1]) ==
            if Unavailable(regions[k])
            then ReserveSteps(ReserveRegions(ss, regions[..k]),
                              Wrap(regions[k].addr), RequiredPages(Wrap(regions[k].len)))
            else ReserveRegions(ss, regions[..k])
  {
    assert regions[..k + 1][..k] == regions[..k];
  }

  /** A range from address 0 reserves every frame it touches and no other. */
  lemma FromZero(size: nat, f: nat)
    requires size <= 0x1_0000_0000
    ensures Stepped(0, RequiredPages(size), f) <==> f * PAGE_SIZE < size
  {
    forall i: nat | i < RequiredPages(size) ensures StepFrame(0, i) == i {
      assert i * PAGE_SIZE < 0x1_0000_0000;
    }
    if f * PAGE_SIZE < size {
      assert StepFrame(0, f) == f;
    }
  }

  // ---- Layout ----

  /** The pools as `init` first sets them up. */
  ghost function Layout(dynamicEnd: nat, himemEnd: nat): (r: seq<Pool>)
    requires dynamicEnd <= himemEnd
    ensures |r| == 3
  {
    var dmaSize := if DMA_MEMORY_LIMIT < dynamicEnd then DMA_MEMORY_LIMIT else dynamicEnd;
    var defaultSize := dynamicEnd - dmaSize;
    [Pool(dmaSize + defaultSize, seq((himemEnd - dynamicEnd) / PAGE_SIZE, _ => 0), 0),
     Pool(dmaSize, seq(defaultSize / PAGE_SIZE, _ => 0), 0),
     Pool(0, seq(dmaSize / PAGE_SIZE, _ => 0), 0)]
  }

  lemma LayoutIs(dynamicEnd: nat, himemEnd: nat)
    requires dynamicEnd <= himemEnd
    ensures var dmaSize := if 0x100_0000 < dynamicEnd then 0x100_0000 else dynamicEnd;
      Layout(dynamicEnd, himemEnd) ==
      [Pool(dynamicEnd, seq((himemEnd - dynamicEnd) / PAGE_SIZE, _ => 0), 0),
       Pool(dmaSize, seq((dynamicEnd - dmaSize) / PAGE_SIZE, _ => 0), 0),
       Pool(0, seq(dmaSize / PAGE_SIZE, _ => 0), 0)]
  {}

  /** Every address is routed to a pool that has a status word for it, or to none. */
  ghost predicate RoutesWell(ss: seq<Pool>)
    requires |ss| == 3
  {
    forall addr: nat | FindPool(ss, addr).Some? :: Holds(ss[FindPool(ss, addr).value], addr)
  }

  /**
    The pools tile memory, and all addresses are routed well, exactly when the kernel's share ends on a
    page boundary.
  */
  lemma LayoutTilesIff(dynamicEnd: nat, himemEnd: nat)
    requires dynamicEnd <= himemEnd
    ensures Tiled(Layout(dynamicEnd, himemEnd)) <==> dynamicEnd % PAGE_SIZE == 0
    ensures RoutesWell(Layout(dynamicEnd, himemEnd)) <==> dynamicEnd % PAGE_SIZE == 0
  {
    var ss := Layout(dynamicEnd, himemEnd);
    if dynamicEnd % PAGE_SIZE == 0 {
      forall addr: nat | FindPool(ss, addr).Some? ensures Holds(ss[FindPool(ss, addr).value], addr) {
        Routed(ss, addr);
      }
    } else {
      var stray := dynamicEnd - dynamicEnd % PAGE_SIZE;
      assert FindPool(ss, stray).Some? && !Holds(ss[FindPool(ss, stray).value], stray);
    }
  }

  // ---- Placement of the bitmaps ----

  predicate BitFour(pos: nat) { pos / 16 % 2 == 1 }

  lemma BitsBefore(pos: nat, stop: nat)
    requires stop == if pos % 32 < 16 then pos else pos - pos % 32 + 32
    ensures pos <= stop <= pos + 16 && !BitFour(stop) && forall x | pos <= x < stop :: BitFour(x)
  {
    forall x | pos <= x < stop ensures BitFour(x) {
      assert x / 32 == pos / 32;
    }
  }

  /** `linear_alloc` with `align` 16: it skips while one address bit is set, which is not an alignment to 16. */
  method LinearAlloc(size: nat, pos: nat) returns (obj: nat, pos': nat)
    ensures pos <= obj <= pos + 16 && pos' == obj + size
    ensures !BitFour(obj) && forall x | pos <= x < obj :: BitFour(x)
    ensures obj == if pos % 32 < 16 then pos else pos - pos % 32 + 32
  {
    obj := pos;
    ghost var stop := if pos % 32 < 16 then pos else pos - pos % 32 + 32;
    BitsBefore(pos, stop);
    while BitFour(obj)
      invariant pos <= obj <= stop && forall x | pos <= x < obj :: BitFour(x)
      decreases stop - obj
    {
      obj := obj + 1;
    }
    pos' := obj + size;
  }

  /** Where `init` puts the three bitmaps, and the end of the last. */
  datatype Placement = Placement(dma: nat, general: nat, himem: nat, end: nat)

  /** The bitmaps follow the kernel image and each other without overlap. */
  ghost predicate PlacedApart(p: Placement, kernelEnd: nat, ss: seq<Pool>)
    requires |ss| == 3
  {
    && kernelEnd <= p.dma && p.dma + 4 * |ss[DMA].bits| <= p.general
    && p.general + 4 * |ss[DEFAULT].bits| <= p.himem && p.himem + 4 * |ss[HIMEM].bits| == p.end
    && p.end <= kernelEnd + 48 + 4 * |Flat(ss)|
  }

  /** Byte `x` is one of the bitmap of `n` words at `at`. */
  predicate InBitmap(x: nat, at: nat, n: nat) { at <= x < at + 4 * n }

  /** No byte is part of two bitmaps, and each of their bytes lies behind the kernel and below the end. */
  lemma BitmapsDisjoint(p: Placement, kernelEnd: nat, ss: seq<Pool>, x: nat)
    requires |ss| == 3 && PlacedApart(p, kernelEnd, ss)
    ensures var (d, g, h) := (|ss[DMA].bits|, |ss[DEFAULT].bits|, |ss[HIMEM].bits|);
      && (InBitmap(x, p.dma, d) || InBitmap(x, p.general, g) || InBitmap(x, p.himem, h) ==> kernelEnd <= x < p.end)
      && !(InBitmap(x, p.dma, d) && InBitmap(x, p.general, g))
      && !(InBitmap(x, p.general, g) && InBitmap(x, p.himem, h))
      && !(InBitmap(x, p.dma, d) && InBitmap(x, p.himem, h))
  {
    hide Flat;
  }

  /** The status words at the end of `init`. */
  ghost function Booted(ss: seq<Pool>, regions: seq<Region>, end: nat): (t: seq<Pool>)
    requires Tiled(ss)
    ensures Tiled(t) && |Flat(t)| == |Flat(ss)| && SameShape(ss, t)
  {
    ReserveSteps(ReserveRegions(ss, regions), 0, RequiredPages(end))
  }

  ghost function ReservedAtBoot(frames: nat, regions: seq<Region>, end: nat): (r: set<nat>)
    ensures forall f: nat :: f in r <==> f < frames && (f * PAGE_SIZE < end || InRegions(regions, f))
  {
    set f: nat | f in FrameRange(0, frames) && (f * PAGE_SIZE < end || InRegions(regions, f))
  }

  /**
    After the boot step exactly the frames of the kernel image, of the bitmaps and of the reserved
    regions are in use, which is the state in which the runs of `PhysicalRuns` begin.
  */
  lemma BootAccounts(dynamicEnd: nat, himemEnd: nat, regions: seq<Region>, end: nat)
    requires dynamicEnd <= himemEnd && dynamicEnd % PAGE_SIZE == 0 && PAGE_SIZE <= himemEnd
    requires 0 < end <= 0x1_0000_0000
    ensures Tiled(Layout(dynamicEnd, himemEnd)) && |Flat(Layout(dynamicEnd, himemEnd))| == himemEnd / PAGE_SIZE
    ensures Inv(Memory(Booted(Layout(dynamicEnd, himemEnd), regions, end), {}),
                ReservedAtBoot(himemEnd / PAGE_SIZE, regions, end))
  {
    LayoutTilesIff(dynamicEnd, himemEnd);
    var ss := Layout(dynamicEnd, himemEnd);
    var n := himemEnd / PAGE_SIZE;
    LayoutFrames(dynamicEnd, himemEnd);
    var flat := Flat(Booted(ss, regions, end));
    forall f: nat | f < n ensures flat[f] != 0 <==> f * PAGE_SIZE < end || InRegions(regions, f) {
      FromZero(end, f);
      assert Flat(ss)[f] == 0;
    }
  }

  /** Frame `f` is one of those, modulo 2^20, that hold a byte of the pages counted from the region's first one. */
  predicate Covers(r: Region, f: nat) {
    var first, size := r.addr % 0x1_0000_0000 / 0x1000, r.len % 0x1_0000_0000;
    f < 0x10_0000 && (f + 0x10_0000 - first) % 0x10_0000 < (size + 0xFFF) / 0x1000
  }

  lemma StepFrameIs(addr: nat, i: nat)
    requires addr < 0x1_0000_0000
    ensures StepFrame(addr, i) == (addr / 0x1000 + i) % 0x10_0000
  {
    var q, f := (addr / 0x1000 + i) / 0x10_0000, (addr / 0x1000 + i) % 0x10_0000;
    ModUnique(addr + i * PAGE_SIZE, q, 0x1_0000_0000, f * 0x1000 + addr % 0x1000);
  }

  lemma SteppedIff(addr: nat, n: nat, f: nat)
    requires addr < 0x1_0000_0000 && n <= 0x10_0000
    ensures Stepped(addr, n, f) <==> f < 0x10_0000 && (f + 0x10_0000 - addr / 0x1000) % 0x10_0000 < n
  {
    hide StepFrame;
    var a := addr / 0x1000;
    if i: nat :| i < n && StepFrame(addr, i) == f {
      StepFrameIs(addr, i);
      Around(a, i, f);
    }
    if f < 0x10_0000 && (f + 0x10_0000 - a) % 0x10_0000 < n {
      var i := (f + 0x10_0000 - a) % 0x10_0000;
      StepFrameIs(addr, i);
      Around(a, i, (a + i) % 0x10_0000);
      assert StepFrame(addr, i) == f;
    }
  }

  /** What the steps over a region come to. */
  lemma CoversIff(r: Region, f: nat)
    ensures Stepped(Wrap(r.addr), RequiredPages(Wrap(r.len)), f) <==> Covers(r, f)
  {
    hide Stepped;
    SteppedIff(Wrap(r.addr), RequiredPages(Wrap(r.len)), f);
  }

  lemma Around(a: nat, i: nat, f: nat)
    requires a < 0x10_0000 && i < 0x10_0000 && f == (a + i) % 0x10_0000
    ensures f < 0x10_0000 && (f + 0x10_0000 - a) % 0x10_0000 == i
  {}

  /**
    The multiboot types: exactly the frames below the end of the bitmaps and those of regions of an
    even type are in use. Type 1 is available memory, type 2 is reserved.
  */
  ghost predicate BootExact(flat: seq<int>, regions: seq<Region>, end: nat) {
    forall f | 0 <= f < |flat| ::
      flat[f] != 0 <==> f * 0x1000 < end || exists r :: r in regions && r.kind % 2 == 0 && Covers(r, f)
  }

  lemma BootIsExact(dynamicEnd: nat, himemEnd: nat, regions: seq<Region>, end: nat)
    requires dynamicEnd <= himemEnd && dynamicEnd % PAGE_SIZE == 0 && end <= 0x1_0000_0000
    ensures Tiled(Layout(dynamicEnd, himemEnd))
    ensures |Flat(Booted(Layout(dynamicEnd, himemEnd), regions, end))| == himemEnd / 0x1000
    ensures BootExact(Flat(Booted(Layout(dynamicEnd, himemEnd), regions, end)), regions, end)
  {
    hide Covers, Stepped, Layout, Flat, Tiled, RoutesWell;
    LayoutTilesIff(dynamicEnd, himemEnd);
    LayoutFrames(dynamicEnd, himemEnd);
    forall f: nat ensures InRegions(regions, f) <==> exists r :: r in regions && r.kind % 2 == 0 && Covers(r, f) {
      forall r | r in regions ensures InRegion(r, f) <==> r.kind % 2 == 0 && Covers(r, f) { CoversIff(r, f); }
    }
    forall f: nat ensures Stepped(0, RequiredPages(end), f) <==> f * PAGE_SIZE < end { FromZero(end, f); }
  }

  /** From boot on, after any run, a frame of a region of an even type is in use, and no allocation answers it. */
  lemma ReservedForGood(dynamicEnd: nat, himemEnd: nat, regions: seq<Region>, end: nat, ops: seq<Op>, op: Op,
                        r: Region, f: nat)
    requires dynamicEnd <= himemEnd && dynamicEnd % PAGE_SIZE == 0 && PAGE_SIZE <= himemEnd
    requires 0 < end <= 0x1_0000_0000 && Tiled(Layout(dynamicEnd, himemEnd))
    requires AllPermitted(Memory(Booted(Layout(dynamicEnd, himemEnd), regions, end), {}), ops)
    requires Tiled(Run(Memory(Booted(Layout(dynamicEnd, himemEnd), regions, end), {}), ops).pools)
    requires op.Alloc? && Permitted(Run(Memory(Booted(Layout(dynamicEnd, himemEnd), regions, end), {}), ops), op)
    requires r in regions && r.kind % 2 == 0 && Covers(r, f) && f < himemEnd / 0x1000
    ensures var m := Run(Memory(Booted(Layout(dynamicEnd, himemEnd), regions, end), {}), ops);
      && f < |Flat(m.pools)| && Flat(m.pools)[f] != 0 && f !in m.owned
      && (Result(m, op) != 0 ==> f !in Frames(Result(m, op), op.pages))
  {
    hide Booted, Layout, AllPermitted, Run, Scan, Flat, Permitted, Result, Tiled, Covers, Stepped;
    var m0 := Memory(Booted(Layout(dynamicEnd, himemEnd), regions, end), {});
    var reserved := ReservedAtBoot(himemEnd / PAGE_SIZE, regions, end);
    CoversIff(r, f);
    assert InRegion(r, f) && f in reserved;
    BootAccounts(dynamicEnd, himemEnd, regions, end);
    RunKeepsInv(m0, ops, reserved);
    assert f in Run(m0, ops).owned + reserved;
    AfterBoot(dynamicEnd, himemEnd, regions, end, ops, op);
  }

  /**
    From boot on, after any run, an allocation that finds a run hands out no frame of the kernel
    image, of the bitmaps, of a reserved region or of another live allocation, and never answers 0.
  */
  lemma AfterBoot(dynamicEnd: nat, himemEnd: nat, regions: seq<Region>, end: nat, ops: seq<Op>, op: Op)
    requires dynamicEnd <= himemEnd && dynamicEnd % PAGE_SIZE == 0 && PAGE_SIZE <= himemEnd
    requires 0 < end <= 0x1_0000_0000 && Tiled(Layout(dynamicEnd, himemEnd))
    requires AllPermitted(Memory(Booted(Layout(dynamicEnd, himemEnd), regions, end), {}), ops)
    requires Tiled(Run(Memory(Booted(Layout(dynamicEnd, himemEnd), regions, end), {}), ops).pools)
    requires op.Alloc? && Permitted(Run(Memory(Booted(Layout(dynamicEnd, himemEnd), regions, end), {}), ops), op)
    ensures var m := Run(Memory(Booted(Layout(dynamicEnd, himemEnd), regions, end), {}), ops);
      var reserved := ReservedAtBoot(himemEnd / PAGE_SIZE, regions, end);
      && (Result(m, op) != 0 <==> exists j :: op.area <= j < 3 && HasRun(m.pools[j], op.pages, op.align))
      && (Result(m, op) != 0 ==> Frames(Result(m, op), op.pages) !! reserved + m.owned)
      && |FreeSet(Flat(m.pools))| + |m.owned| + |reserved| == himemEnd / PAGE_SIZE
  {
    hide Inv, Booted, Layout, AllPermitted, Run, Scan, Flat, Permitted, Result, Tiled;
    var m0 := Memory(Booted(Layout(dynamicEnd, himemEnd), regions, end), {});
    var reserved := ReservedAtBoot(himemEnd / PAGE_SIZE, regions, end);
    BootAccounts(dynamicEnd, himemEnd, regions, end);
    RunKeepsInv(m0, ops, reserved);
    AllocFresh(Run(m0, ops), op, reserved);
    FramesConserved(Run(m0, ops), reserved);
  }

  lemma LayoutFrames(dynamicEnd: nat, himemEnd: nat)
    requires dynamicEnd <= himemEnd && dynamicEnd % PAGE_SIZE == 0
    ensures |Flat(Layout(dynamicEnd, himemEnd))| == himemEnd / PAGE_SIZE
    ensures forall f | 0 <= f < himemEnd / PAGE_SIZE :: Flat(Layout(dynamicEnd, himemEnd))[f] == 0
  {}

  class PhysicalMemory {
    const dma: PhysicalPool
    const general: PhysicalPool
    const himem: PhysicalPool

    constructor ()
      ensures Wired()
    {
      var p := new PhysicalPool(null);
      var q := new PhysicalPool(p);
      var r := new PhysicalPool(q);
      dma, general, himem := p, q, r;
    }

    ghost predicate Wired() {
      && himem.WellFounded() && general.WellFounded() && dma.WellFounded()
      && himem.fallback == general && general.fallback == dma && dma.fallback == null
    }

    /** The pools and their status words as one value. */
    ghost function Mem(): (r: seq<Pool>)
      reads himem, general, dma, himem.bitmap, general.bitmap, dma.bitmap
      ensures |r| == 3
    {
      [himem.State(), general.State(), dma.State()]
    }

    ghost predicate Valid()
      reads himem, general, dma, himem.bitmap, general.bitmap, dma.bitmap
    {
      && Wired() && himem.Valid() && general.Valid() && dma.Valid()
      && himem.bitmap != general.bitmap && himem.bitmap != dma.bitmap && general.bitmap != dma.bitmap
      && Tiled(Mem())
    }

    lemma Chains()
      requires Wired()
      ensures dma.Chain() == [dma] && general.Chain() == [general, dma] && himem.Chain() == [himem, general, dma]
      ensures himem != general && general != dma && himem != dma
    {}

    lemma ChainStates()
      requires Wired()
      ensures States(himem.Chain()) == Mem() && States(general.Chain()) == Mem()[1..]
      ensures States(dma.Chain()) == Mem()[2..]
      ensures AllValid(dma.Chain()) <==> dma.Valid()
      ensures AllValid(general.Chain()) <==> general.Valid() && dma.Valid() && general.bitmap != dma.bitmap
      ensures AllValid(himem.Chain()) <==>
              (AllValid(general.Chain()) && himem.Valid()
               && himem.bitmap != general.bitmap && himem.bitmap != dma.bitmap)
    {
      hide PhysicalPool.Valid, PhysicalPool.State;
      Chains();
      assert [dma] + [] == [dma] && [general] + [dma] == [general, dma];
      assert [himem] + [general, dma] == [himem, general, dma];
      ValidCons(dma, []);
      StatesCons(dma, []);
      ValidCons(general, [dma]);
      StatesCons(general, [dma]);
      ValidCons(himem, [general, dma]);
      StatesCons(himem, [general, dma]);
    }

    method AllocHimem(pages: nat, align: nat) returns (addr: nat)
      requires Valid() && align > 0 && ChainSafe(Mem()[HIMEM..], pages, align)
      modifies himem`prevIdx, general`prevIdx, dma`prevIdx, himem.bitmap, general.bitmap, dma.bitmap
      ensures Valid() && (addr, Mem()) == AllocIn(old(Mem()), HIMEM, pages, align)
    {
      hide AllValid, Tiled, States, AllocChain, ChainSafe, PhysicalPool.Valid, PhysicalPool.State;
      Chains();
      ChainStates();
      assert Mem()[HIMEM..] == Mem() && Mem()[..HIMEM] == [];
      var k := AllocGrants(Mem(), HIMEM, pages, align);
      addr := himem.Alloc(pages, align);
      ChainStates();
      assert Mem() == old(Mem())[..HIMEM] + Mem();
    }

    method Alloc(pages: nat, align: nat) returns (addr: nat)
      requires Valid() && align > 0 && ChainSafe(Mem()[DEFAULT..], pages, align)
      modifies general`prevIdx, dma`prevIdx, general.bitmap, dma.bitmap
      ensures Valid() && (addr, Mem()) == AllocIn(old(Mem()), DEFAULT, pages, align)
    {
      hide AllValid, Tiled, States, AllocChain, ChainSafe, PhysicalPool.Valid, PhysicalPool.State;
      Chains();
      ChainStates();
      var k := AllocGrants(Mem(), DEFAULT, pages, align);
      addr := general.Alloc(pages, align);
      ChainStates();
      assert Mem() == old(Mem())[..DEFAULT] + Mem()[DEFAULT..];
    }

    method AllocDma(pages: nat, align: nat) returns (addr: nat)
      requires Valid() && align > 0 && ChainSafe(Mem()[DMA..], pages, align)
      modifies dma`prevIdx, dma.bitmap
      ensures Valid() && (addr, Mem()) == AllocIn(old(Mem()), DMA, pages, align)
    {
      hide AllValid, Tiled, States, AllocChain, ChainSafe, PhysicalPool.Valid, PhysicalPool.State;
      Chains();
      ChainStates();
      var k := AllocGrants(Mem(), DMA, pages, align);
      addr := dma.Alloc(pages, align);
      ChainStates();
      assert Mem() == old(Mem())[..DMA] + Mem()[DMA..];
    }
  
    lemma IsTiled()
      requires Valid()
      ensures Tiled(Mem())
    {}

    /** `find_pool` */
    function FindPool(addr: nat): PhysicalPool?
      reads himem, general, dma
    {
      if addr < dma.Limit() then dma
      else if addr < general.Limit() then general
      else if addr < himem.Limit() then himem
      else null
    }

    lemma PoolFound(addr: nat)
      requires Valid()
      ensures FindPool(addr) == null <==> FrameMap.FindPool(Mem(), addr).None?
      ensures FindPool(addr) != null ==> var k := FrameMap.FindPool(Mem(), addr).value;
                k < 3 && FindPool(addr) == [himem, general, dma][k] && Holds(FindPool(addr).State(), addr)
    {
      Routed(Mem(), addr);
    }

    method SetFree(addr: nat)
      requires Valid()
      modifies himem.bitmap, general.bitmap, dma.bitmap
      ensures Valid() && Mem() == SetStatus(old(Mem()), addr, 0)
    {
      hide Tiled, FindPool, FrameMap.FindPool, Holds;
      PoolFound(addr);
      SetStatusFlat(Mem(), addr, 0);
      var pool := FindPool(addr);
      if pool != null {
        pool.Free(addr);
      }
      assert Mem() == SetStatus(old(Mem()), addr, 0);
    }

    method Reserve(addr: nat)
      requires Valid()
      modifies himem.bitmap, general.bitmap, dma.bitmap
      ensures Valid() && Mem() == SetStatus(old(Mem()), addr, 1)
    {
      hide Tiled, FindPool, FrameMap.FindPool, Holds;
      PoolFound(addr);
      SetStatusFlat(Mem(), addr, 1);
      var pool := FindPool(addr);
      if pool != null {
        pool.Reserve(addr);
      }
      assert Mem() == SetStatus(old(Mem()), addr, 1);
    }

    method Free(addr: nat, pages: nat)
      requires Valid()
      modifies himem.bitmap, general.bitmap, dma.bitmap
      ensures Valid() && Mem() == FreeFrames(old(Mem()), addr, pages)
    {
      hide Valid, Mem, FreeFrames, Flat, Tiled, SetStatus;
      IsTiled();
      NoneFreed(Mem(), addr);
      for i := 0 to pages
        invariant Valid() && Mem() == FreeFrames(old(Mem()), addr, i)
      {
        OneMoreFreed(old(Mem()), addr, i);
        SetFree(addr + i * PAGE_SIZE);
      }
    }

    /** Other sizes keep the loop running for ever, see `ReserveLoopEndsIff`. */
    method ReserveRange(addr: nat, size: nat)
      requires Valid() && size <= 0xFFFF_F000
      modifies himem.bitmap, general.bitmap, dma.bitmap
      ensures Valid() && Mem() == ReserveSteps(old(Mem()), addr, RequiredPages(size))
    {
      hide Valid, Mem, ReserveSteps, Flat, Tiled, SetStatus, Stepped;
      IsTiled();
      NoneReserved(Mem(), addr);
      var i, k := 0, 0;
      while i < size
        invariant i == k * PAGE_SIZE && k <= RequiredPages(size) && (i < size ==> k < RequiredPages(size))
        invariant Valid() && Mem() == ReserveSteps(old(Mem()), addr, k)
        decreases size - i
      {
        OneMoreReserved(old(Mem()), addr, k);
        Reserve(Wrap(addr + i));
        i := i + PAGE_SIZE;
        k := k + 1;
      }
    }
  
    /** Sets up the three pools over fresh bitmaps. */
    method InitPools(dynamicEnd: nat, himemEnd: nat)
      requires Wired() && dynamicEnd <= himemEnd && dynamicEnd % PAGE_SIZE == 0
      modifies himem, general, dma
      ensures Valid() && fresh(himem.bitmap) && fresh(general.bitmap) && fresh(dma.bitmap)
      ensures Mem() == Layout(dynamicEnd, himemEnd)
    {
      hide Tiled, RoutesWell, FrameScan.Valid, PhysicalPool.Valid, Layout;
      Chains();
      LayoutTilesIff(dynamicEnd, himemEnd);
      LayoutIs(dynamicEnd, himemEnd);
      var dmaSize := if DMA_MEMORY_LIMIT < dynamicEnd then DMA_MEMORY_LIMIT else dynamicEnd;
      var defaultSize := dynamicEnd - dmaSize;
      var himemSize := himemEnd - dynamicEnd;
      var dmaMap, defaultMap := new int[dmaSize / PAGE_SIZE], new int[defaultSize / PAGE_SIZE];
      var himemMap := new int[himemSize / PAGE_SIZE];
      dma.Init(0, dmaSize / PAGE_SIZE, dmaMap);
      general.Init(dmaSize, defaultSize / PAGE_SIZE, defaultMap);
      himem.Init(dmaSize + defaultSize, himemSize / PAGE_SIZE, himemMap);
    }

    /** The bitmaps and the kernel image are reserved last, after the regions the boot loader reports. */
    method Init(kernelEnd: nat, dynamicEnd: nat, himemEnd: nat, regions: seq<Region>)
      returns (panic: bool, p: Placement)
      requires Wired() && dynamicEnd <= himemEnd && dynamicEnd % PAGE_SIZE == 0
      requires kernelEnd + 48 + 4 * (himemEnd / PAGE_SIZE) <= 0xFFFF_F000
      requires forall r | r in regions && Unavailable(r) :: Wrap(r.len) <= 0xFFFF_F000
      modifies himem, general, dma
      ensures panic <==> himemEnd == 0
      ensures !panic ==> Valid() && Tiled(Layout(dynamicEnd, himemEnd))
      ensures !panic ==> PlacedApart(p, kernelEnd, Layout(dynamicEnd, himemEnd))
      ensures !panic ==> Mem() == Booted(Layout(dynamicEnd, himemEnd), regions, p.end)
      ensures !panic ==> |Flat(Mem())| == himemEnd / 0x1000 && BootExact(Flat(Mem()), regions, p.end)
    {
      hide Valid, Mem, ReserveSteps, ReserveRegions, Tiled, Flat, RoutesWell, BootExact;
      if himemEnd == 0 {
        return true, Placement(0, 0, 0, 0);
      }
      LayoutFrames(dynamicEnd, himemEnd);
      LayoutTilesIff(dynamicEnd, himemEnd);
      p := PlaceBitmaps(kernelEnd, dynamicEnd, himemEnd);
      InitPools(dynamicEnd, himemEnd);
      ghost var ss := Mem();
      NoRegion(ss);
      assert regions[..0] == [];
      for k := 0 to |regions|
        invariant Valid() && fresh(himem.bitmap) && fresh(general.bitmap) && fresh(dma.bitmap)
        invariant Mem() == ReserveRegions(ss, regions[..k])
      {
        NextRegion(ss, regions, k);
        if Unavailable(regions[k]) {
          ReserveRange(Wrap(regions[k].addr), Wrap(regions[k].len));
        }
      }
      assert regions[..|regions|] == regions;
      ReserveRange(0, p.end);
      BootIsExact(dynamicEnd, himemEnd, regions, p.end);
      return false, p;
    }
  }

  method PlaceBitmaps(kernelEnd: nat, dynamicEnd: nat, himemEnd: nat) returns (p: Placement)
    requires dynamicEnd <= himemEnd && dynamicEnd % PAGE_SIZE == 0
    ensures PlacedApart(p, kernelEnd, Layout(dynamicEnd, himemEnd))
    ensures !BitFour(p.dma) && !BitFour(p.general) && !BitFour(p.himem)
  {
    var dmaSize := if DMA_MEMORY_LIMIT < dynamicEnd then DMA_MEMORY_LIMIT else dynamicEnd;
    var pos := kernelEnd;
    var d, g, h: nat;
    d, pos := LinearAlloc(dmaSize / PAGE_SIZE * 4, pos);
    g, pos := LinearAlloc((dynamicEnd - dmaSize) / PAGE_SIZE * 4, pos);
    h, pos := LinearAlloc((himemEnd - dynamicEnd) / PAGE_SIZE * 4, pos);
    p := Placement(d, g, h, pos);
  }
}
