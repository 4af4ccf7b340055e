/** The kernel heap on top of the frame allocator, from boot to the last release. */
module KernelAllocator {
  import opened MemoryLayout
  import opened FrameScan
  import opened PhysicalPools
  import opened FrameMap
  import opened PhysicalRuns
  import opened PhysicalMemory
  import opened SizeClasses
  import opened ChunkLists
  import opened ChunkChains
  import opened HeapPages
  import KernelHeap

  /** No pool that `alloc_pages` asks has a run of so many frames. */
  ghost predicate Exhausted(m: Memory, pages: nat)
    requires |m.pools| == 3
  {
    forall j | DEFAULT <= j < 3 :: !HasRun(m.pools[j], pages, 1)
  }

  /** Of the frames that are handed out, those not in `others` are exactly the pages lent to the heap. */
  ghost predicate Divided(m: Memory, others: set<nat>, lent: set<nat>) {
    Lent(m) == Shown(others) + lent && Shown(others) !! lent
  }

  /** What the answer to a request for a chunk's pages does to the division of the frames. */
  lemma Borrowed(m: Memory, pages: nat, reserved: set<nat>, others: set<nat>, lent: set<nat>)
    requires Inv(m, reserved) && Permitted(m, Alloc(DEFAULT, pages, 1)) && Divided(m, others, lent)
    ensures Inv(Next(m, Alloc(DEFAULT, pages, 1)), reserved)
    ensures PageAnswer(lent, Answer(m, pages), pages)
    ensures Answer(m, pages) == 0 <==> Exhausted(m, pages)
    ensures Answer(m, pages) == 0 ==> Next(m, Alloc(DEFAULT, pages, 1)) == m
    ensures Answer(m, pages) != 0 ==>
              Divided(Next(m, Alloc(DEFAULT, pages, 1)), others, lent + Pages(Answer(m, pages), pages))
  {
    hide Accounted, Flat, Tiled, AllocIn, Shown, Pages, Frames, HasRun;
    SourceKeepsContract(m, pages, reserved);
    AllocFresh(m, Alloc(DEFAULT, pages, 1), reserved);
  }

  /** What giving back a chunk's pages does to it. */
  lemma GivenBack(m: Memory, va: nat, pages: nat, reserved: set<nat>, others: set<nat>, lent: set<nat>)
    requires Inv(m, reserved) && Divided(m, others, lent) && va % PAGE_SIZE == 0
    requires Pages(va, pages) <= lent && pages > 0
    ensures va >= KERNEL_VIRTUAL_BASE && Permitted(m, PhysicalRuns.Free(va - KERNEL_VIRTUAL_BASE, pages))
    ensures Inv(Next(m, PhysicalRuns.Free(va - KERNEL_VIRTUAL_BASE, pages)), reserved)
    ensures Divided(Next(m, PhysicalRuns.Free(va - KERNEL_VIRTUAL_BASE, pages)), others, lent - Pages(va, pages))
  {
    hide Accounted, Flat, Tiled, Shown, Frames;
    assert va / PAGE_SIZE in Lent(m);
    InShown(m.owned, va / PAGE_SIZE);
    ReleaseKeepsContract(m, va, pages, reserved);
  }

  /** With nothing lent to the heap the frames handed out are those of the others. */
  lemma NothingLent(m: Memory, others: set<nat>)
    requires Divided(m, others, {})
    ensures m.owned == others
  {
    hide Shown;
    forall f: nat ensures f in m.owned <==> f in others {
      InShown(m.owned, f + KERNEL_VIRTUAL_BASE / PAGE_SIZE);
      InShown(others, f + KERNEL_VIRTUAL_BASE / PAGE_SIZE);
    }
  }

  class Allocator {
    const frames: PhysicalMemory
    const heap: KernelHeap.Heap
    /** Frames in use since boot, frames handed out, and those of them that the heap did not ask for. */
    ghost var reserved: set<nat>
    ghost var owned: set<nat>
    ghost var others: set<nat>

    ghost function State(): (m: Memory)
      reads this, frames.himem, frames.general, frames.dma
      reads frames.himem.bitmap, frames.general.bitmap, frames.dma.bitmap
      ensures |m.pools| == 3
    {
      Memory(frames.Mem(), owned)
    }

    ghost predicate Valid()
      reads this, frames.himem, frames.general, frames.dma
      reads frames.himem.bitmap, frames.general.bitmap, frames.dma.bitmap
      reads heap, heap.mem, heap.groups
    {
      && heap.Valid() && frames.Valid()
      && Inv(State(), reserved) && Divided(State(), others, heap.mem.lent)
    }

    /** An empty heap over frames of which the `others` are handed out already. */
    constructor (frames: PhysicalMemory, ghost others: set<nat>, ghost reserved: set<nat>)
      requires frames.Valid() && Inv(Memory(frames.Mem(), others), reserved)
      ensures Valid() && this.frames == frames && this.others == owned == others && this.reserved == reserved
      ensures fresh(heap) && fresh(heap.mem) && (forall k: Kind :: fresh(heap.groups[k]))
      ensures forall p :: !IsLive(heap.mem.chunks, p)
    {
      this.frames, this.others, this.owned, this.reserved := frames, others, others, reserved;
      heap := new KernelHeap.Heap();
    }

    /** `mm::alloc_pages` for a heap that holds the `lent` pages. */
    method AllocPages(pages: nat, ghost lent: set<nat>) returns (page: nat)
      requires frames.Valid() && Inv(State(), reserved) && Divided(State(), others, lent)
      requires Permitted(State(), PhysicalRuns.Alloc(DEFAULT, pages, 1))
      modifies this`owned, frames.general`prevIdx, frames.dma`prevIdx, frames.general.bitmap, frames.dma.bitmap
      ensures frames.Valid() && Inv(State(), reserved) && PageAnswer(lent, page, pages)
      ensures Divided(State(), others, if page == 0 then lent else lent + Pages(page, pages))
      ensures page == 0 <==> old(Exhausted(State(), pages))
      ensures page == 0 ==> State() == old(State())
    {
      hide Inv, Divided, ChainSafe, Exhausted, Pages, Flat;
      Borrowed(State(), pages, reserved, others, lent);
      var pa := frames.Alloc(pages, 1);
      owned := Next(old(State()), PhysicalRuns.Alloc(DEFAULT, pages, 1)).owned;
      page := if pa == 0 then 0 else pa + KERNEL_VIRTUAL_BASE;
    }

    /** `mm::heap::alloc`; only a group without a partly used chunk asks for pages. */
    method Alloc(size: nat) returns (p: nat)
      requires Valid()
      requires forall k: Kind | FitsFirst(k, size) && heap.groups[k].firstChunk == 0 ::
                 Permitted(State(), PhysicalRuns.Alloc(DEFAULT, PageCount(k), 1))
      modifies this`owned, frames.general`prevIdx, frames.dma`prevIdx, frames.general.bitmap, frames.dma.bitmap
      modifies heap.mem, heap.groups
      ensures Valid()
      ensures p == 0 <==> forall k: Kind | FitsFirst(k, size) ::
                            old(heap.groups[k].firstChunk) == 0 && old(Exhausted(State(), PageCount(k)))
      ensures p == 0 ==> State() == old(State()) && heap.mem.chunks == old(heap.mem.chunks)
      ensures p != 0 ==> !old(IsLive(heap.mem.chunks, p)) && IsLive(heap.mem.chunks, p)
      ensures p != 0 ==> FitsFirst(KindOf(heap.mem.chunks, p), size)
      ensures forall q | q != p :: IsLive(heap.mem.chunks, q) <==> old(IsLive(heap.mem.chunks, q))
    {
      hide Inv, Divided, Permitted, IsLive, Exhausted, Pages, PageCount, ObjSize, KernelHeap.ChunkGroup.Valid,
           PhysicalMemory.Valid, PhysicalMemory.Mem, KindsKept;
      var g := FindChunkGroup(size);
      if g == CLASS_COUNT { return 0; }
      FitsOnly(g, size);
      var page := 0;
      if heap.groups[g].firstChunk == 0 {
        page := AllocPages(PageCount(g), heap.mem.lent);
      }
      p := heap.Alloc(size, page);
    }

    /** `mm::free_pages` of pages among those lent to the heap. */
    method FreePages(va: nat, pages: nat, ghost lent: set<nat>)
      requires frames.Valid() && Inv(State(), reserved) && Divided(State(), others, lent)
      requires va % PAGE_SIZE == 0 && Pages(va, pages) <= lent && pages > 0
      modifies this`owned, frames.himem.bitmap, frames.general.bitmap, frames.dma.bitmap
      ensures frames.Valid() && Inv(State(), reserved) && Divided(State(), others, lent - Pages(va, pages))
    {
      hide Inv, Divided, Flat, FreeFrames, Pages;
      GivenBack(State(), va, pages, reserved, others, lent);
      frames.Free(va - KERNEL_VIRTUAL_BASE, pages);
      owned := owned - Frames(va - KERNEL_VIRTUAL_BASE, pages);
    }

    /** `mm::heap::free` of any object address of an owned chunk, with `mm::free_pages` behind the last block. */
    method Free(p: nat)
      requires Valid() && IsBlock(heap.mem.chunks, p)
      modifies this`owned, frames.himem.bitmap, frames.general.bitmap, frames.dma.bitmap
      modifies heap.mem, heap.groups
      ensures Valid() && !IsLive(heap.mem.chunks, p)
      ensures forall q | q != p :: IsLive(heap.mem.chunks, q) <==> old(IsLive(heap.mem.chunks, q))
      ensures !old(IsLive(heap.mem.chunks, p)) ==> State() == old(State()) && heap.mem.chunks == old(heap.mem.chunks)
    {
      hide Inv, Divided, IsLive, IsBlock, Pages, PageCount, Mask;
      BlockInChunk(heap.mem.chunks, p);
      var b := Mask(p);
      var k := heap.mem.chunks[b].kind;
      ChunkPages(b);
      heap.Free(p);
      if b !in heap.mem.chunks {
        FreePages(b, PageCount(k), old(heap.mem.lent));
      }
    }

    lemma ChunkPages(b: nat)
      requires Valid() && b in heap.mem.chunks
      ensures b % PAGE_SIZE == 0 && PageCount(heap.mem.chunks[b].kind) > 0
      ensures PagesOf(heap.mem.chunks, b) <= heap.mem.lent
    {
      hide Inv, Divided, PageCount, Pages, ChainOk;
      assert heap.groups[0].Valid();
      heap.mem.Facts(b);
      ClassBounds(heap.mem.chunks[b].kind);
    }

    /**
      Once every block has been freed, the frames in use are those from boot and those of the others,
      and the groups are as they were at first.
    */
    lemma AllFramesReturned()
      requires Valid() && forall p :: !IsLive(heap.mem.chunks, p)
      ensures owned == others && heap.mem.chunks == map[] && forall k: Kind :: heap.groups[k].firstChunk == 0
      ensures forall f: nat | f < |Flat(frames.Mem())| :: Flat(frames.Mem())[f] != 0 <==> f in others + reserved
    {
      hide Divided, Flat, IsLive;
      heap.AllFreedAllReturned();
      NothingLent(State(), others);
    }
  }
}
