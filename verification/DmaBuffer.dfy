/** The cylinder buffer of the floppy driver: whether what the allocator grants passes the driver's bounds test. */
module DmaBuffer {
  import opened MemoryLayout
  import opened Arithmetic
  import opened Options
  import opened FrameScan
  import opened PhysicalPools
  import opened FrameMap
  import opened PhysicalRuns
  import opened FrameReach
  import opened FrameExact
  import opened Floppy
  import opened PhysicalMemory
  import opened HeapPages

  /** `FLOPPY_DMALEN` */
  const DMA_LENGTH: nat := 0x4800

  /** The bounds test of `floppy_dma_init`: 24-bit address, 16-bit count, no carry out of the low 16 bits. */
  predicate DmaAcceptable(addr: nat) {
    !(addr / 0x1000000 != 0 || (DMA_LENGTH - 1) / 0x10000 != 0 || (addr % 0x10000 + (DMA_LENGTH - 1)) / 0x10000 != 0)
  }

  /** What the driver asks of `alloc_pages_dma` for its cylinder buffer; 16 frames are 64 KB. */
  function Asked(kind: DriveKind): Op {
    Alloc(DMA, RequiredPages(CylinderSize(kind)), 16)
  }

  /** The buffer holds the transfer, whose length does not depend on the drive, for a 1.44 MB drive only. */
  lemma HoldsTransferIff(kind: DriveKind)
    requires kind != Unsupported
    ensures Asked(kind).pages * PAGE_SIZE >= DMA_LENGTH <==> kind == HD144
    ensures CylinderSize(kind) == DMA_LENGTH <==> kind == HD144
    ensures Asked(kind).pages == if kind == HD12 then 4 else 5
  {}

  /** What the test asks of an address: 24 bits, and room for 0x4800 bytes in its 64 KB. */
  lemma AcceptableIs(addr: nat)
    ensures DmaAcceptable(addr) <==> addr < 0x1000000 && addr % 0x10000 + 0x4800 <= 0x10000
  {}

  /** A frame is accepted exactly below 16 MB and at most 11 frames into its 64 KB. */
  lemma AcceptableIff(idx: nat)
    ensures DmaAcceptable(idx * PAGE_SIZE) <==> idx < 4096 && idx % 16 <= 11
  {
    var q, r := idx / 16, idx % 16;
    ModUnique(idx * PAGE_SIZE, q, 0x10000, r * PAGE_SIZE);
    ModUnique(idx * PAGE_SIZE, idx / 4096, 0x1000000, idx % 4096 * PAGE_SIZE);
  }

  /** The driver's request may always be made, and is answered from the DMA pool. */
  lemma Answered(m: Memory, kind: DriveKind, reserved: set<nat>)
    requires Inv(m, reserved) && kind != Unsupported
    ensures Permitted(m, Asked(kind))
    ensures var s := m.pools[DMA];
      var scan := Scan(s, Asked(kind).pages, 16);
      Result(m, Asked(kind)) == if scan.Some? then scan.value * PAGE_SIZE else 0
  {
    hide Scan, AllocIn, AllocChain, Flat, Accounted, Safe;
    HoldsTransferIff(kind);
    PermittedIff(m, DMA, Asked(kind).pages, 16, reserved);
    var k := AllocOutcome(m.pools, DMA, Asked(kind).pages, 16);
  }

  /** A start is a multiple of 16, or, after wrapping, as far from one as the frame count is. */
  lemma StartWithin64K(s: Pool, pages: nat)
    requires FrameScan.Valid(s) && Scan(s, pages, 16).Some?
    ensures var idx := Scan(s, pages, 16).value;
      idx % 16 == 0 || (idx + |s.bits|) % 16 == 0
  {
    hide Scan;
    var x := ScanSound(s, pages, 16);
    Reduce(x, |s.bits|, s.prev);
  }

  /** Where the frame count leaves 0 or at least 5 modulo 16, both kinds of start are accepted. */
  lemma StartAccepted(s: Pool, pages: nat)
    requires FrameScan.Valid(s) && Scan(s, pages, 16).Some? && |s.bits| <= 4096
    requires |s.bits| % 16 == 0 || |s.bits| % 16 >= 5
    ensures DmaAcceptable(Scan(s, pages, 16).value * PAGE_SIZE)
  {
    hide Scan, DmaAcceptable;
    StartWithin64K(s, pages);
    AcceptableIff(Scan(s, pages, 16).value);
  }

  /** All buffers granted in a DMA pool of at most 16 MB with such a frame count pass the test at any time. */
  lemma AlwaysAcceptable(m: Memory, kind: DriveKind, reserved: set<nat>)
    requires Inv(m, reserved) && kind != Unsupported && |m.pools[DMA].bits| <= 4096
    requires |m.pools[DMA].bits| % 16 == 0 || |m.pools[DMA].bits| % 16 >= 5
    ensures Permitted(m, Asked(kind))
    ensures Result(m, Asked(kind)) != 0 ==> DmaAcceptable(Result(m, Asked(kind)))
  {
    hide Scan, Candidate, AllocIn, Flat, Accounted, DmaAcceptable;
    Answered(m, kind, reserved);
    if Scan(m.pools[DMA], Asked(kind).pages, 16).Some? {
      StartAccepted(m.pools[DMA], Asked(kind).pages);
    }
  }

  // ---- The exact condition ----

  /** Frames that boot left free in a row, at a place that the test refuses and that a wrapping search comes to. */
  ghost predicate Refusable(s0: Pool, pages: nat, idx: nat) {
    && idx % 16 > 11 && (idx + |s0.bits|) % 16 == 0 && idx + pages <= |s0.bits|
    && forall f | idx <= f < idx + pages :: s0.bits[f] == 0
  }

  ghost predicate AcceptableWhateverReached(m: Memory, kind: DriveKind, reserved: set<nat>)
    requires kind != Unsupported
  {
    forall m' | Reaches(m, m') && Inv(m', reserved) && Permitted(m', Asked(kind)) ::
      Result(m', Asked(kind)) != 0 ==> DmaAcceptable(Result(m', Asked(kind)))
  }

  /** A refused start lies in a row of frames that boot left free. */
  lemma RefusedRow(s0: Pool, s: Pool, pages: nat)
    requires Descends(s0, s) && Safe(s, pages, 16) && |s.bits| <= 4096 && Scan(s, pages, 16).Some?
    requires !DmaAcceptable(Scan(s, pages, 16).value * PAGE_SIZE)
    ensures Refusable(s0, pages, Scan(s, pages, 16).value)
  {
    hide Scan, Safe, DmaAcceptable;
    StartWithin64K(s, pages);
    AcceptableIff(Scan(s, pages, 16).value);
    SafeWithin(s, pages, 16);
  }

  lemma RefusedStart(m: Memory, m': Memory, kind: DriveKind, reserved: set<nat>)
    requires Inv(m, reserved) && Unused(m, DMA) && kind != Unsupported && |m.pools[DMA].bits| <= 4096
    requires Reaches(m, m') && Inv(m', reserved) && Permitted(m', Asked(kind))
    requires Result(m', Asked(kind)) != 0 && !DmaAcceptable(Result(m', Asked(kind)))
    ensures exists idx: nat :: Refusable(m.pools[DMA], Asked(kind).pages, idx)
  {
    hide Scan, AllocIn, Flat, Accounted, Run, AllPermitted, Safe, Descends, PinnedBy, Refusable, DmaAcceptable, Unused;
    Answered(m', kind, reserved);
    var ops :| Leads(m, ops, m');
    PinnedAtBoot(m, DMA, reserved);
    RunDescends(m, ops, DMA, m.pools[DMA], reserved);
    DescendsSize(m.pools[DMA], m'.pools[DMA]);
    DmaSafe(m', Asked(kind).pages, 16, reserved);
    RefusedRow(m.pools[DMA], m'.pools[DMA], Asked(kind).pages);
  }

  lemma DescendsSize(s0: Pool, s: Pool)
    requires Descends(s0, s)
    ensures |s.bits| == |s0.bits|
  {}

  /** With all frames but that row in use and the search right behind its first, the row is what the search comes to. */
  lemma RowTaken(s: Pool, pages: nat, idx: nat)
    requires s.prev == idx + 1 < |s.bits| && 1 < pages && idx % 16 > 11 && (idx + |s.bits|) % 16 == 0
    requires idx + pages <= |s.bits|
    requires forall f | 0 <= f < |s.bits| :: s.bits[f] == 0 <==> idx <= f < idx + pages
    ensures Scan(s, pages, 16) == Some(idx)
  {
    var n := |s.bits|;
    var x := idx + n;
    forall q: nat | x <= q < x + pages ensures Status(s.bits, q) == 0 { ModUnique(q, 1, n, q - n); }
    assert Candidate(s, x, 16) && FreeRun(s.bits, x, pages);
    forall y: nat | Candidate(s, y, 16) && y < x ensures !FreeRun(s.bits, y, pages) {
      NotTheRow(s, pages, idx, y);
    }
    FindsRunIff(s, pages, 16);
    var taken := ScanSound(s, pages, 16);
    assert taken == x;
    ModUnique(x, 1, n, idx);
  }

  lemma NotTheRow(s: Pool, pages: nat, idx: nat, y: nat)
    requires idx + 1 < |s.bits| && idx % 16 > 11 && idx + pages <= |s.bits| && idx < y < idx + |s.bits|
    requires forall f | 0 <= f < |s.bits| :: s.bits[f] == 0 <==> idx <= f < idx + pages
    requires pages > 0
    ensures !FreeRun(s.bits, y, pages)
  {
    var n := |s.bits|;
    if y < idx + pages {
      var q := idx + pages;
      ModUnique(q, if q < n then 0 else 1, n, if q < n then q else 0);
      assert Status(s.bits, q) != 0;
    } else {
      ModUnique(y, if y < n then 0 else 1, n, if y < n then y else y - n);
      assert Status(s.bits, y) != 0;
    }
  }

  /** Single frames lead to the state in which the driver is granted a buffer that its own test refuses. */
  lemma ReachRefused(m: Memory, kind: DriveKind, idx: nat, reserved: set<nat>) returns (m': Memory)
    requires Inv(m, reserved) && Unused(m, DMA) && kind != Unsupported && |m.pools[DMA].bits| <= 4096
    requires Refusable(m.pools[DMA], Asked(kind).pages, idx)
    ensures Reaches(m, m') && Inv(m', reserved) && Permitted(m', Asked(kind))
    ensures Result(m', Asked(kind)) != 0 && !DmaAcceptable(Result(m', Asked(kind)))
  {
    hide Scan, AllocIn, Flat, Accounted, Reaches, InRun, Unused, DmaAcceptable, Permitted, Result;
    var n, pages := |m.pools[DMA].bits|, Asked(kind).pages;
    HoldsTransferIff(kind);
    forall f: nat | f < n ensures InRun(f, idx, pages, n) <==> idx <= f < idx + pages {
      InRow(f, idx, pages, n);
    }
    m' := ReachRun(m, DMA, idx, idx, pages, reserved);
    ModUnique(idx + 1, 0, n, idx + 1);
    RowTaken(m'.pools[DMA], pages, idx);
    Answered(m', kind, reserved);
    AcceptableIff(idx);
  }

  lemma InRow(f: nat, idx: nat, pages: nat, n: nat)
    requires f < n && idx + pages <= n
    ensures InRun(f, idx, pages, n) <==> idx <= f < idx + pages
  {
    ModUnique(f, 0, n, f);
    forall q: nat | idx <= q < idx + pages ensures q % n == q { ModUnique(q, 0, n, q); }
  }

  /**
    From the pool that boot leaves, every buffer that may ever be granted passes the test exactly
    when boot left no row of frames free at a place that the test refuses and a wrapping search comes to.
  */
  lemma CylinderBufferIff(m: Memory, kind: DriveKind, reserved: set<nat>)
    requires Inv(m, reserved) && Unused(m, DMA) && kind != Unsupported && |m.pools[DMA].bits| <= 4096
    ensures AcceptableWhateverReached(m, kind, reserved) <==>
            !exists idx: nat :: Refusable(m.pools[DMA], Asked(kind).pages, idx)
    ensures |m.pools[DMA].bits| % 16 == 0 || |m.pools[DMA].bits| % 16 >= 5 ==>
              AcceptableWhateverReached(m, kind, reserved)
  {
    hide Accounted, Flat, Permitted, Result, Reaches, Unused, DmaAcceptable;
    if idx: nat :| Refusable(m.pools[DMA], Asked(kind).pages, idx) {
      var m' := ReachRefused(m, kind, idx, reserved);
      WrongCount(m.pools[DMA], idx);
    } else {
      forall m' | Reaches(m, m') && Inv(m', reserved) && Permitted(m', Asked(kind))
        ensures Result(m', Asked(kind)) != 0 ==> DmaAcceptable(Result(m', Asked(kind)))
      {
        if Result(m', Asked(kind)) != 0 && !DmaAcceptable(Result(m', Asked(kind))) {
          RefusedStart(m, m', kind, reserved);
        }
      }
    }
  }

  lemma WrongCount(s0: Pool, idx: nat)
    requires idx % 16 > 11 && (idx + |s0.bits|) % 16 == 0
    ensures 1 <= |s0.bits| % 16 <= 4
  {}

  // ---- From boot ----

  /** From boot on, after any run, what the DMA pool answers lies wholly in the first 16 MB. */
  lemma BelowLimit(dynamicEnd: nat, himemEnd: nat, regions: seq<Region>, end: nat, ops: seq<Op>, pages: nat, align: nat)
    requires dynamicEnd <= himemEnd && dynamicEnd % PAGE_SIZE == 0 && PAGE_SIZE <= himemEnd
    requires 0 < end <= 0x1_0000_0000 && Tiled(Layout(dynamicEnd, himemEnd)) && pages > 0 && align > 0
    requires AllPermitted(Memory(Booted(Layout(dynamicEnd, himemEnd), regions, end), {}), ops)
    ensures var m := Run(Memory(Booted(Layout(dynamicEnd, himemEnd), regions, end), {}), ops);
      && Tiled(m.pools) && Permitted(m, Alloc(DMA, pages, align))
      && (Result(m, Alloc(DMA, pages, align)) != 0 ==>
            Result(m, Alloc(DMA, pages, align)) + pages * 0x1000 <= 0x100_0000)
  {
    hide Accounted, Flat, Run, AllPermitted, Booted, Scan, AllocIn;
    var m0 := Memory(Booted(Layout(dynamicEnd, himemEnd), regions, end), {});
    var reserved := ReservedAtBoot(himemEnd / PAGE_SIZE, regions, end);
    BootAccounts(dynamicEnd, himemEnd, regions, end);
    RunKeepsInv(m0, ops, reserved);
    RunKeepsSizes(m0, ops, reserved);
    PermittedIff(Run(m0, ops), DMA, pages, align, reserved);
    var k := AllocGrants(Run(m0, ops).pools, DMA, pages, align);
  }

  /** From boot on, with 16 MB of kernel memory or more, every buffer the driver is granted passes the test. */
  lemma AcceptableFromBoot(dynamicEnd: nat, himemEnd: nat, regions: seq<Region>, end: nat, kind: DriveKind)
    requires dynamicEnd <= himemEnd && dynamicEnd % PAGE_SIZE == 0 && PAGE_SIZE <= himemEnd
    requires 0 < end <= 0x1_0000_0000 && Tiled(Layout(dynamicEnd, himemEnd)) && kind != Unsupported
    ensures var m := Memory(Booted(Layout(dynamicEnd, himemEnd), regions, end), {});
      var reserved := ReservedAtBoot(himemEnd / PAGE_SIZE, regions, end);
      && |m.pools[DMA].bits| == (if dynamicEnd < 0x100_0000 then dynamicEnd else 0x100_0000) / 0x1000
      && (AcceptableWhateverReached(m, kind, reserved) <==>
            !exists idx: nat :: Refusable(m.pools[DMA], Asked(kind).pages, idx))
      && (dynamicEnd >= 0x100_0000 ==> AcceptableWhateverReached(m, kind, reserved))
  {
    hide Booted, Accounted, Flat, AcceptableWhateverReached, Refusable, Unused;
    BootAccounts(dynamicEnd, himemEnd, regions, end);
    BootLeavesUnused(dynamicEnd, himemEnd, regions, end, DMA);
    CylinderBufferIff(Memory(Booted(Layout(dynamicEnd, himemEnd), regions, end), {}), kind,
                      ReservedAtBoot(himemEnd / PAGE_SIZE, regions, end));
  }
}
