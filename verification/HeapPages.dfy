/** The frame allocator as the page source of the kernel heap. */
module HeapPages {
  import opened MemoryLayout
  import opened FrameScan
  import opened FrameMap
  import opened FrameReach
  import opened FrameExact
  import opened PhysicalRuns
  import opened PhysicalMemory
  import SizeClasses
  import ChunkLists

  /** `mm::alloc_pages`: the kernel's view of the frames, or 0. */
  ghost function Answer(m: Memory, pages: nat): nat
    requires Tiled(m.pools) && Permitted(m, Alloc(DEFAULT, pages, 1))
  {
    var pa := Result(m, Alloc(DEFAULT, pages, 1));
    if pa == 0 then 0 else pa + KERNEL_VIRTUAL_BASE
  }

  /** The virtual page numbers of frames. */
  ghost function Shown(frames: set<nat>): set<nat> {
    set f | f in frames :: f + KERNEL_VIRTUAL_BASE / PAGE_SIZE
  }

  lemma InShown(frames: set<nat>, p: nat)
    ensures p in Shown(frames) <==>
            p >= KERNEL_VIRTUAL_BASE / PAGE_SIZE && p - KERNEL_VIRTUAL_BASE / PAGE_SIZE in frames
  {
    if p >= KERNEL_VIRTUAL_BASE / PAGE_SIZE && p - KERNEL_VIRTUAL_BASE / PAGE_SIZE in frames {
      assert p == (p - KERNEL_VIRTUAL_BASE / PAGE_SIZE) + KERNEL_VIRTUAL_BASE / PAGE_SIZE;
    }
  }

  ghost function Lent(m: Memory): set<nat> {
    Shown(m.owned)
  }

  /** Whenever it may be asked, the frame allocator keeps the contract that the heap relies on. */
  lemma SourceKeepsContract(m: Memory, pages: nat, reserved: set<nat>)
    requires Inv(m, reserved) && Permitted(m, Alloc(DEFAULT, pages, 1))
    ensures ChunkLists.PageAnswer(Lent(m), Answer(m, pages), pages)
    ensures Answer(m, pages) != 0 ==>
              Lent(Next(m, Alloc(DEFAULT, pages, 1))) == Lent(m) + SizeClasses.Pages(Answer(m, pages), pages)
  {
    hide Accounted, AllocIn, Flat, Tiled, Shown, SizeClasses.Pages, Frames;
    var op := Alloc(DEFAULT, pages, 1);
    AllocFresh(m, op, reserved);
    AllocAligned(m, op);
    var pa := Result(m, op);
    if pa != 0 {
      SameRun(pa, pages);
      ShownApart(m.owned, Frames(pa, pages));
    }
  }

  lemma AllocAligned(m: Memory, op: Op)
    requires Tiled(m.pools) && op.Alloc? && Permitted(m, op)
    ensures Result(m, op) % PAGE_SIZE == 0
  {
    hide AllocIn, Flat;
    var k := AllocGrants(m.pools, op.area, op.pages, op.align);
  }

  lemma SameRun(pa: nat, pages: nat)
    requires pa % PAGE_SIZE == 0
    ensures (pa + KERNEL_VIRTUAL_BASE) % PAGE_SIZE == 0
    ensures SizeClasses.Pages(pa + KERNEL_VIRTUAL_BASE, pages) == Shown(Frames(pa, pages))
  {
    hide Shown;
    forall p: nat ensures p in SizeClasses.Pages(pa + KERNEL_VIRTUAL_BASE, pages) <==> p in Shown(Frames(pa, pages)) {
      InShown(Frames(pa, pages), p);
    }
  }

  lemma ShownApart(a: set<nat>, b: set<nat>)
    ensures a !! b ==> Shown(a) !! Shown(b)
    ensures Shown(a + b) == Shown(a) + Shown(b)
  {
    hide Shown;
    forall p: nat
      ensures p in Shown(a + b) <==> p in Shown(a) + Shown(b)
      ensures a !! b ==> !(p in Shown(a) && p in Shown(b))
    {
      InShown(a, p);
      InShown(b, p);
      InShown(a + b, p);
    }
  }

  /** Giving back whole pages that are lent is permitted, and takes exactly those off the lent ones. */
  lemma ReleaseKeepsContract(m: Memory, va: nat, pages: nat, reserved: set<nat>)
    requires Inv(m, reserved) && va % PAGE_SIZE == 0 && va >= KERNEL_VIRTUAL_BASE
    requires SizeClasses.Pages(va, pages) <= Lent(m)
    ensures Permitted(m, Free(va - KERNEL_VIRTUAL_BASE, pages))
    ensures Inv(Next(m, Free(va - KERNEL_VIRTUAL_BASE, pages)), reserved)
    ensures Lent(Next(m, Free(va - KERNEL_VIRTUAL_BASE, pages))) == Lent(m) - SizeClasses.Pages(va, pages)
  {
    hide Accounted, Flat, Tiled, Shown, SizeClasses.Pages, Frames;
    var pa := va - KERNEL_VIRTUAL_BASE;
    SameRun(pa, pages);
    forall f: nat | f in Frames(pa, pages) ensures f in m.owned {
      var p := f + KERNEL_VIRTUAL_BASE / PAGE_SIZE;
      InShown(Frames(pa, pages), p);
      assert p in Lent(m);
      InShown(m.owned, p);
    }
    FreeKeepsInv(m, Free(pa, pages), reserved);
    ShownTaken(m.owned, Frames(pa, pages));
  }

  lemma ShownTaken(a: set<nat>, b: set<nat>)
    ensures Shown(a - b) == Shown(a) - Shown(b)
  {
    hide Shown;
    forall p: nat ensures p in Shown(a - b) <==> p in Shown(a) - Shown(b) {
      InShown(a, p);
      InShown(b, p);
      InShown(a - b, p);
    }
  }

  /** What the heap asks for is permitted when no wrapping run of that many frames is free in the default pool. */
  lemma HeapPermittedIff(m: Memory, pages: nat, reserved: set<nat>)
    requires Inv(m, reserved) && pages > 0
    ensures Permitted(m, Alloc(DEFAULT, pages, 1)) <==> Safe(m.pools[DEFAULT], pages, 1)
    ensures pages == 1 || m.pools[DEFAULT].bits == [] || Edged(m.pools[DEFAULT]) ==> Safe(m.pools[DEFAULT], pages, 1)
  {
    hide Accounted, Flat, Permitted, Safe, Fits;
    PermittedIff(m, DEFAULT, pages, 1, reserved);
    var s := m.pools[DEFAULT];
    if s.bits != [] { UnalignedFits(|s.bits|, pages); }
    if pages == 1 || s.bits == [] || Edged(s) {
      assert s.bits == [] ==> Fits(|s.bits|, pages, 1) by { NothingFits(pages); }
      SafeWhen(s, pages, 1);
    }
  }

  lemma NothingFits(pages: nat)
    ensures Fits(0, pages, 1)
  {}

  /** On a machine whose kernel memory ends within 16 MB, every request of the heap is permitted from boot on. */
  lemma SmallMachineServesHeap(dynamicEnd: nat, himemEnd: nat, regions: seq<Region>, end: nat, ops: seq<Op>,
                               k: SizeClasses.Kind)
    requires dynamicEnd <= himemEnd && dynamicEnd % PAGE_SIZE == 0 && PAGE_SIZE <= himemEnd
    requires dynamicEnd <= DMA_MEMORY_LIMIT && 0 < end <= 0x1_0000_0000 && Tiled(Layout(dynamicEnd, himemEnd))
    requires AllPermitted(Memory(Booted(Layout(dynamicEnd, himemEnd), regions, end), {}), ops)
    ensures var m := Run(Memory(Booted(Layout(dynamicEnd, himemEnd), regions, end), {}), ops);
      |m.pools| == 3 && Permitted(m, Alloc(DEFAULT, SizeClasses.PageCount(k), 1))
  {
    hide Accounted, Flat, Permitted, Tiled, AllPermitted, Run, Booted;
    var m0 := Memory(Booted(Layout(dynamicEnd, himemEnd), regions, end), {});
    var reserved := ReservedAtBoot(himemEnd / PAGE_SIZE, regions, end);
    BootAccounts(dynamicEnd, himemEnd, regions, end);
    RunKeepsInv(m0, ops, reserved);
    RunKeepsSizes(m0, ops, reserved);
    HeapPermittedIff(Run(m0, ops), SizeClasses.PageCount(k), reserved);
  }

  /** Boot leaves every pool unused: the search at its start, and only reserved frames in use. */
  lemma BootLeavesUnused(dynamicEnd: nat, himemEnd: nat, regions: seq<Region>, end: nat, k: nat)
    requires dynamicEnd <= himemEnd && dynamicEnd % PAGE_SIZE == 0 && Tiled(Layout(dynamicEnd, himemEnd)) && k < 3
    ensures Unused(Memory(Booted(Layout(dynamicEnd, himemEnd), regions, end), {}), k)
  {
    hide Booted;
  }

  /**
    From boot on, single frames lead to a state in which a request of the heap marks outside the
    default pool's bitmap exactly when the frames that boot reserved there leave an opening for it.
    Without reserved frames that is every request for more than one page, and some groups ask for more.
  */
  lemma HeapRequestsWithinIff(dynamicEnd: nat, himemEnd: nat, regions: seq<Region>, end: nat, pages: nat)
    requires dynamicEnd <= himemEnd && dynamicEnd % PAGE_SIZE == 0 && PAGE_SIZE <= himemEnd
    requires 0 < end <= 0x1_0000_0000 && Tiled(Layout(dynamicEnd, himemEnd))
    ensures var m := Memory(Booted(Layout(dynamicEnd, himemEnd), regions, end), {});
      var s0 := m.pools[DEFAULT];
      && (WithinWhateverReached(m, DEFAULT, pages, 1) <==> !CanWrap(s0, pages, 1))
      && (s0.bits != [] && (forall i | 0 <= i < |s0.bits| :: s0.bits[i] == 0) ==>
            (CanWrap(s0, pages, 1) <==> pages > 1))
    ensures exists k: SizeClasses.Kind :: SizeClasses.PageCount(k) > 1
  {
    hide Booted, Accounted, Flat, WithinWhateverReached, CanWrap, Unused;
    var m := Memory(Booted(Layout(dynamicEnd, himemEnd), regions, end), {});
    BootAccounts(dynamicEnd, himemEnd, regions, end);
    BootLeavesUnused(dynamicEnd, himemEnd, regions, end, DEFAULT);
    ReachableWithinIff(m, DEFAULT, pages, 1, ReservedAtBoot(himemEnd / PAGE_SIZE, regions, end));
    var s0 := m.pools[DEFAULT];
    if s0.bits != [] && forall i | 0 <= i < |s0.bits| :: s0.bits[i] == 0 {
      NoneReservedIff(s0, pages, 1);
      UnalignedFits(|s0.bits|, pages);
    }
    assert SizeClasses.PageCount(16) > 1;
  }
}
