/**
  The kernel heap: size-class groups of page chunks with intrusive free lists.

  Chunks are reached by address, as the source reaches them by masking a pointer and
  reinterpreting memory, so the contents of every chunk live in one address-indexed `Memory`.
  The page source is abstract: the answer it gives is a parameter, constrained by `PageAnswer`.
*/
module KernelHeap {
  import opened MemoryLayout
  import opened Sequences
  import opened SizeClasses
  import opened ChunkLists
  import opened ChunkChains

  /** `heap_chunk::heap_chunk`: threads all objects onto the free list, last to first. */
  method NewChunk(b: nat, k: Kind) returns (c: Chunk)
    ensures c.kind == k && c.next == 0 && ChunkOk(b, c, seq(Count(k), i => i))
    ensures forall j | 0 <= j < |c.objects| :: c.objects[j].status == Free
  {
    hide ObjAddr, ObjSize, Count;
    assert Count(k) >= 1 by { ClassBounds(k); }
    var objects := seq(Count(k), _ => HeapObject(Init, 0));
    var n := Count(k) - 1;
    objects := objects[n := HeapObject(Free, 0)];
    var next := ObjAddr(b, k, n);
    ghost var fl := [n];
    while n != 0
      invariant n < Count(k) == |objects|
      invariant |fl| == Count(k) - n && forall i | 0 <= i < |fl| :: fl[i] == n + i
      invariant Threads(b, k, objects, next, fl)
      invariant forall j | n <= j < Count(k) :: objects[j].status == Free
    {
      ThreadsFrame(b, k, objects, next, fl, n - 1, HeapObject(Free, next));
      objects := objects[n - 1 := HeapObject(Free, next)];
      n := n - 1;
      next := ObjAddr(b, k, n);
      assert ([n] + fl)[1..] == fl;
      fl := [n] + fl;
    }
    c := Chunk(k, 0, next, Count(k), objects);
    assert fl == seq(Count(k), i => i);
    forall j | 0 <= j < Count(k) ensures j in fl { assert fl[j] == j; }
  }

  class Memory {
    var chunks: Chunks
    ghost var fls: FreeLists
    /** Numbers of the pages the page source has lent to the heap. */
    var lent: set<nat>

    ghost predicate Shape()
      reads this
    {
      chunks.Keys == fls.Keys && ChunksOk(chunks, fls) && PagesOk(chunks, lent)
    }

    ghost predicate Valid()
      reads this
    {
      Shape() && NoneEmpty(chunks, fls)
    }

    constructor ()
      ensures Valid() && chunks == map[] && lent == {}
    {
      chunks, fls, lent := map[], map[], {};
    }

    lemma Facts(b: nat)
      requires Shape() && b in chunks
      ensures b > 0 && b % PAGE_SIZE == 0
      ensures chunks[b].firstFree == 0 <==> fls[b] == []
      ensures chunks[b].freeCount == |fls[b]| <= Count(chunks[b].kind)
    {
      ChunkFacts(b, chunks[b], fls[b]);
    }

    /** `heap_chunk::alloc` */
    method ChunkAlloc(b: nat) returns (p: nat)
      requires Shape() && b in chunks && fls[b] != []
      modifies this
      ensures Shape() && lent == old(lent)
      ensures p == old(DataAddr(b, chunks[b].kind, fls[b][0])) && Mask(p) == b
      ensures OnlyAt(b, old(chunks), old(fls), chunks, fls) && chunks[b].next == old(chunks[b].next)
      ensures fls[b] == old(fls[b][1..])
      ensures !old(IsLive(chunks, p)) && IsLive(chunks, p)
      ensures forall q | q != p :: IsLive(chunks, q) <==> old(IsLive(chunks, q))
      ensures forall q :: IsBlock(chunks, q) <==> old(IsBlock(chunks, q))
    {
      hide ChunksOk, PagesOk, IsBlock, IsLive, Mask, Count, ObjSize, Stride, IndexOf;
      PopStep(chunks, fls, lent, b);
      IndexOfInverts(b, chunks[b].kind, fls[b][0]);
      var c := chunks[b];
      var i := IndexOf(b, c.kind, c.firstFree);
      p := c.firstFree + OBJECT_HEADER;
      c := c.(firstFree := c.objects[i].word, objects := c.objects[i := HeapObject(Used, ObjSize(c.kind))]);
      c := c.(freeCount := c.freeCount - 1);
      chunks := chunks[b := c];
      fls := fls[b := fls[b][1..]];
    }

    /** `heap_chunk::free` */
    method ChunkFree(b: nat, p: nat)
      requires Shape() && IsLive(chunks, p) && b == Mask(p)
      modifies this
      ensures Shape() && lent == old(lent)
      ensures OnlyAt(b, old(chunks), old(fls), chunks, fls) && chunks[b].next == old(chunks[b].next)
      ensures fls[b] == old([IndexOf(b, chunks[b].kind, p - OBJECT_HEADER)] + fls[b])
      ensures !IsLive(chunks, p)
      ensures forall q | q != p :: IsLive(chunks, q) <==> old(IsLive(chunks, q))
      ensures forall q :: old(IsBlock(chunks, q)) <==> IsBlock(chunks, q)
    {
      hide ChunkOk, PagesOk, Mask, IndexOf, ObjAddr, Count, ObjSize, Stride;
      var c := chunks[b];
      var i := IndexOf(b, c.kind, p - OBJECT_HEADER);
      c := c.(objects := c.objects[i := HeapObject(Free, c.firstFree)], firstFree := p - OBJECT_HEADER);
      c := c.(freeCount := c.freeCount + 1);
      LiveNotFree(b, chunks[b], fls[b], i);
      PushOk(b, chunks[b], fls[b], i, c);
      WriteKeepsShape(chunks, fls, lent, b, c, [i] + fls[b]);
      chunks := chunks[b := c];
      fls := fls[b := [i] + fls[b]];
      LiveAfterWrite(old(chunks), chunks, p);
    }

    /** `heap_chunk::chain` */
    method SetNext(b: nat, next: nat)
      requires Shape() && b in chunks
      modifies this
      ensures Shape() && lent == old(lent) && fls == old(fls)
      ensures chunks == old(chunks[b := chunks[b].(next := next)])
      ensures forall q :: IsLive(chunks, q) <==> old(IsLive(chunks, q))
      ensures forall q :: IsBlock(chunks, q) <==> old(IsBlock(chunks, q))
    {
      hide Pages, PageCount, Mask, IndexOf, Count, ObjSize, DataAddr, Threads, PagesOk;
      assert fls == fls[b := fls[b]];
      WriteKeepsShape(chunks, fls, lent, b, chunks[b].(next := next), fls[b]);
      chunks := chunks[b := chunks[b].(next := next)];
    }

    /** `new (p) TChunk` on pages just obtained from `mm::alloc_pages`. */
    method PlaceChunk(page: nat, k: Kind)
      requires Shape() && page != 0 && PageAnswer(lent, page, PageCount(k))
      modifies this
      ensures Shape() && page !in old(chunks) && page in chunks
      ensures lent == old(lent) + Pages(page, PageCount(k))
      ensures chunks.Keys == old(chunks.Keys) + {page} && chunks[page].kind == k && chunks[page].next == 0
      ensures forall a | a in old(chunks) :: chunks[a] == old(chunks[a]) && fls[a] == old(fls[a])
      ensures |fls[page]| == Count(k)
      ensures forall q :: IsLive(chunks, q) <==> old(IsLive(chunks, q))
    {
      hide ChunksOk, ChunkOk, PagesOk, PageAnswer, IsLive, Count, Pages, PageCount;
      FreshPage(chunks, lent, page, k);
      var c := NewChunk(page, k);
      PlaceShape(chunks, fls, lent, page, c, seq(Count(k), i => i));
      FreshLive(chunks, page, c);
      chunks := chunks[page := c];
      fls := fls[page := seq(Count(k), i => i)];
      lent := lent + Pages(page, PageCount(k));
    }

    /** `mm::free_pages` on a chunk without live objects. */
    method FreePages(b: nat)
      requires Shape() && b in chunks && |fls[b]| == Count(chunks[b].kind)
      modifies this
      ensures Shape() && chunks == old(chunks) - {b} && fls == old(fls) - {b}
      ensures lent == old(lent - PagesOf(chunks, b))
      ensures forall q :: IsLive(chunks, q) <==> old(IsLive(chunks, q))
    {
      hide ChunksOk, ChunkOk, PagesOk, PagesOf, IsLive, Count;
      DropDead(chunks, fls, b);
      DropShape(chunks, fls, lent, b);
      lent := lent - PagesOf(chunks, b);
      chunks := chunks - {b};
      fls := fls - {b};
    }
  }

  class ChunkGroup {
    const kind: Kind
    const mem: Memory
    var firstChunk: nat
    ghost var chain: seq<nat>

    constructor (kind: Kind, mem: Memory)
      requires mem.Valid() && mem.chunks == map[]
      ensures this.kind == kind && this.mem == mem && firstChunk == 0 && Valid()
    {
      this.kind, this.mem, this.firstChunk, this.chain := kind, mem, 0, [];
    }

    ghost predicate Valid()
      reads this, mem
    {
      mem.Valid() && ChainOk(mem.chunks, mem.fls, kind, firstChunk, chain)
    }

    /** `heap_chunk_group::alloc`; `page` is what the page source would answer if asked. */
    method Alloc(page: nat) returns (p: nat)
      requires Valid() && PageAnswer(mem.lent, page, PageCount(kind))
      modifies this, mem
      ensures Valid() && OthersKept(kind, old(mem.chunks), old(mem.fls), mem.chunks, mem.fls)
      ensures KindsKept(old(mem.chunks), mem.chunks)
      ensures p == 0 <==> old(firstChunk) == 0 && page == 0
      ensures p == 0 ==> mem.chunks == old(mem.chunks) && mem.lent == old(mem.lent)
      ensures p != 0 ==> !old(IsLive(mem.chunks, p)) && IsLive(mem.chunks, p) && KindOf(mem.chunks, p) == kind
      ensures forall q | q != p :: IsLive(mem.chunks, q) <==> old(IsLive(mem.chunks, q))
      ensures mem.lent == if old(firstChunk) == 0 && page != 0 then old(mem.lent) + Pages(page, PageCount(kind))
                          else old(mem.lent)
    {
      hide ChunksOk, PagesOk, ChunkOk, ChainOk, NoneEmpty, OthersKept, KindsKept, IsBlock, ObjectAt, Mask, Count,
           Pages, PageCount;
      if firstChunk != 0 {
        var b := firstChunk;
        ChainHead(mem.chunks, mem.fls, kind, b, chain);
        p := mem.ChunkAlloc(b);
        mem.Facts(b);
        ChainAfterPop(old(mem.chunks), old(mem.fls), mem.chunks, mem.fls, kind, chain);
        if mem.chunks[b].firstFree == 0 {
          firstChunk := mem.chunks[b].next;
          chain := chain[1..];
        }
      } else {
        p := AllocFromNew(page);
      }
    }

    method AllocFromNew(page: nat) returns (p: nat)
      requires Valid() && PageAnswer(mem.lent, page, PageCount(kind)) && firstChunk == 0
      modifies this, mem
      ensures Valid() && OthersKept(kind, old(mem.chunks), old(mem.fls), mem.chunks, mem.fls)
      ensures KindsKept(old(mem.chunks), mem.chunks)
      ensures p == 0 <==> page == 0
      ensures p == 0 ==> mem.chunks == old(mem.chunks) && mem.lent == old(mem.lent)
      ensures p != 0 ==> !old(IsLive(mem.chunks, p)) && IsLive(mem.chunks, p) && KindOf(mem.chunks, p) == kind
      ensures forall q | q != p :: IsLive(mem.chunks, q) <==> old(IsLive(mem.chunks, q))
      ensures mem.lent == if page != 0 then old(mem.lent) + Pages(page, PageCount(kind)) else old(mem.lent)
    {
      hide ChunksOk, PagesOk, ChunkOk, ChainOk, NoneEmpty, OthersKept, KindsKept, PageAnswer, IsBlock, ObjectAt,
           Mask, Count,
           Pages, PageCount, Linked, Distinct, ObjSize, DataAddr, IsLive;
      if page == 0 { NothingChanged(kind, mem.chunks, mem.fls); return 0; }
      ChainHead(mem.chunks, mem.fls, kind, firstChunk, chain);
      assert Count(kind) >= 1 by { ClassBounds(kind); }
      mem.PlaceChunk(page, kind);
      p := mem.ChunkAlloc(page);
      BlockChunk(mem.chunks, p);
      mem.Facts(page);
      if mem.chunks[page].firstFree != 0 {
        mem.SetNext(page, firstChunk);
        firstChunk := page;
        chain := [page] + chain;
      }
      ChainAfterPush(old(mem.chunks), old(mem.fls), mem.chunks, mem.fls, kind, 0, [], page);
    }

    /** `heap_chunk_group::free` */
    method Free(p: nat)
      requires Valid() && IsLive(mem.chunks, p) && KindOf(mem.chunks, p) == kind
      modifies this, mem
      ensures Valid() && OthersKept(kind, old(mem.chunks), old(mem.fls), mem.chunks, mem.fls)
      ensures KindsKept(old(mem.chunks), mem.chunks)
      ensures !IsLive(mem.chunks, p)
      ensures forall q | q != p :: IsLive(mem.chunks, q) <==> old(IsLive(mem.chunks, q))
      ensures mem.lent == if old(|mem.fls[Mask(p)]|) + 1 == Count(kind)
                          then old(mem.lent - PagesOf(mem.chunks, Mask(p))) else old(mem.lent)
      ensures Mask(p) in mem.chunks <==> old(|mem.fls[Mask(p)]|) + 1 != Count(kind)
    {
      hide ChunksOk, PagesOk, ChunkOk, ChainOk, NoneEmpty, OthersKept, KindsKept, Mask, Count, Pages, PageCount,
           IndexOf, IsBlock,
           ObjectAt, IsLive, Linked, Distinct, Unlinked, ObjSize;
      var b := Mask(p);
      BlockChunk(mem.chunks, p);
      mem.Facts(b);
      ghost var chunks0, fls0, first0, chain0 := mem.chunks, mem.fls, firstChunk, chain;
      var wasFull := mem.chunks[b].firstFree == 0;
      ChainMember(chunks0, fls0, kind, first0, chain0, b);
      mem.ChunkFree(b, p);
      mem.Facts(b);
      if mem.chunks[b].freeCount == Count(kind) {
        if !wasFull {
          LinkedFrame(chunks0, mem.chunks, firstChunk, chain);
          ghost var i := Unlink(b);
          mem.FreePages(b);
          ChainAfterDrop(chunks0, fls0, mem.chunks, mem.fls, kind, first0, chain0, i);
        } else {
          mem.FreePages(b);
          ChainAfterGone(chunks0, fls0, mem.chunks, mem.fls, kind, first0, chain0, b);
        }
      } else if wasFull {
        mem.SetNext(b, firstChunk);
        firstChunk := b;
        chain := [b] + chain;
        ChainAfterPush(chunks0, fls0, mem.chunks, mem.fls, kind, first0, chain0, b);
      } else {
        ChainAfterTouch(chunks0, fls0, mem.chunks, mem.fls, kind, first0, chain0, b);
      }
    }

    /** The unlink loop of `free`; its failure branch is the PANIC "where has my half-full chunk gone". */
    method Unlink(b: nat) returns (ghost i: nat)
      requires mem.Shape() && Linked(mem.chunks, firstChunk, chain) && Distinct(chain) && b in chain
      modifies this, mem
      ensures mem.Shape() && mem.fls == old(mem.fls) && mem.lent == old(mem.lent)
      ensures i < |old(chain)| && old(chain)[i] == b && chain == Unlinked(old(chain), i)
      ensures b in old(mem.chunks) && (i > 0 ==> old(chain)[i - 1] in old(mem.chunks))
      ensures firstChunk == (if i > 0 then old(firstChunk) else old(mem.chunks[b].next))
      ensures mem.chunks == if i == 0 then old(mem.chunks) else
                              var pred := old(chain)[i - 1];
                              old(mem.chunks)[pred := old(mem.chunks)[pred].(next := old(mem.chunks[b].next))]
      ensures forall q :: IsLive(mem.chunks, q) <==> old(IsLive(mem.chunks, q))
      ensures forall q :: IsBlock(mem.chunks, q) <==> old(IsBlock(mem.chunks, q))
    {
      hide IsLive, IsBlock, ChunksOk, PagesOk, Distinct;
      LinkedDomain(mem.chunks, firstChunk, chain);
      if b == firstChunk {
        assert chain[0] == b;
        firstChunk := mem.chunks[b].next;
        i, chain := 0, Unlinked(chain, 0);
      } else {
        i := 0;
        var ch := firstChunk;
        while ch != 0 && mem.chunks[ch].next != b
          invariant i <= |chain| && Linked(mem.chunks, ch, chain[i..])
          invariant forall j | 0 <= j <= i && j < |chain| :: chain[j] != b
          decreases |chain| - i
        {
          assert chain[i..][1..] == chain[i + 1..];
          i := i + 1;
          ch := mem.chunks[ch].next;
        }
        if ch != 0 {
          assert chain[i..][1..] == chain[i + 1..];
          assert b == chain[i + 1] && ch == chain[i];
          mem.SetNext(ch, mem.chunks[b].next);
          i := i + 1;
          chain := Unlinked(chain, i);
        } else {
          assert false;
        }
      }
    }
  }
  class Heap {
    const mem: Memory
    const groups: seq<ChunkGroup>

    ghost predicate Valid()
      reads this, mem, groups
    {
      && |groups| == CLASS_COUNT
      && forall k: Kind :: groups[k].kind == k && groups[k].mem == mem && groups[k].Valid()
    }

    constructor ()
      ensures Valid() && fresh(mem) && (forall k: Kind :: fresh(groups[k]))
      ensures mem.lent == {} && forall p :: !IsLive(mem.chunks, p)
    {
      var m := new Memory();
      var gs: seq<ChunkGroup> := [];
      while |gs| < CLASS_COUNT
        invariant |gs| <= CLASS_COUNT && fresh(m) && m.Valid() && m.chunks == map[] && m.lent == {}
        invariant forall k | 0 <= k < |gs| :: fresh(gs[k]) && gs[k].kind == k && gs[k].mem == m && gs[k].Valid()
      {
        var g := new ChunkGroup(|gs|, m);
        gs := gs + [g];
      }
      mem, groups := m, gs;
    }

    /** `mm::heap::alloc`; `page` is what the page source would answer if asked. */
    method Alloc(size: nat, page: nat) returns (p: nat)
      requires Valid() && forall k: Kind | FitsFirst(k, size) :: PageAnswer(mem.lent, page, PageCount(k))
      modifies mem, groups
      ensures Valid() && KindsKept(old(mem.chunks), mem.chunks)
      ensures p == 0 <==> forall k: Kind | FitsFirst(k, size) :: old(groups[k].firstChunk) == 0 && page == 0
      ensures p == 0 ==> mem.chunks == old(mem.chunks) && mem.lent == old(mem.lent)
      ensures p != 0 ==> !old(IsLive(mem.chunks, p)) && IsLive(mem.chunks, p)
      ensures p != 0 ==> FitsFirst(KindOf(mem.chunks, p), size)
      ensures forall q | q != p :: IsLive(mem.chunks, q) <==> old(IsLive(mem.chunks, q))
      ensures forall k: Kind | FitsFirst(k, size) ::
                mem.lent == if old(groups[k].firstChunk) == 0 && page != 0
                            then old(mem.lent) + Pages(page, PageCount(k)) else old(mem.lent)
    {
      hide IsLive, ChainOk, PageAnswer, PageCount, ObjSize, KindsKept, Pages;
      var g := FindChunkGroup(size);
      assert groups[0].Valid();
      NothingChanged(0, mem.chunks, mem.fls);
      if g == CLASS_COUNT { return 0; }
      ghost var chunks0, fls0 := mem.chunks, mem.fls;
      FitsOnly(g, size);
      p := groups[g].Alloc(page);
      OtherGroupsValid(g, chunks0, fls0);
    }

    /** `mm::heap::free` of any object address of an owned chunk. */
    method Free(p: nat)
      requires Valid() && IsBlock(mem.chunks, p)
      modifies mem, groups
      ensures Valid() && KindsKept(old(mem.chunks), mem.chunks) && !IsLive(mem.chunks, p)
      ensures forall q | q != p :: IsLive(mem.chunks, q) <==> old(IsLive(mem.chunks, q))
      ensures !old(IsLive(mem.chunks, p)) ==>
                && mem.chunks == old(mem.chunks) && mem.lent == old(mem.lent)
                && forall k: Kind :: groups[k].firstChunk == old(groups[k].firstChunk)
      ensures mem.lent == if Mask(p) in mem.chunks then old(mem.lent) else old(mem.lent - PagesOf(mem.chunks, Mask(p)))
    {
      hide ChunksOk, PagesOk, ChainOk, IsBlock, Mask, IndexOf, FitsFirst, ObjSize, Count, KindsKept, OthersKept,
           NoneEmpty;
      HeaderIdentifiesGroup(p);
      BlockInChunk(mem.chunks, p);
      assert groups[0].Valid();
      NothingChanged(0, mem.chunks, mem.fls);
      var obj := ObjectAt(mem.chunks, p);
      if obj.status == Used {
        var g := FindChunkGroup(obj.word);
        if g < CLASS_COUNT {
          FitsFirstUnique(g, KindOf(mem.chunks, p), obj.word);
          ghost var chunks0, fls0 := mem.chunks, mem.fls;
          groups[g].Free(p);
          OtherGroupsValid(g, chunks0, fls0);
          return;
        }
      }
    }

    /** The header in front of a live block names the class of the chunk found by masking. */
    lemma HeaderIdentifiesGroup(p: nat)
      requires Valid() && IsBlock(mem.chunks, p)
      ensures IsLive(mem.chunks, p) ==> ObjectAt(mem.chunks, p).word == ObjSize(KindOf(mem.chunks, p))
      ensures IsLive(mem.chunks, p) ==> FitsFirst(KindOf(mem.chunks, p), ObjectAt(mem.chunks, p).word)
    {
      hide Count, ObjSize, PagesOk, FitsFirst, ChainOk, Distinct;
      assert groups[0].Valid();
      var b := Mask(p);
      var c := mem.chunks[b];
      LiveNotFree(b, c, mem.fls[b], IndexOf(b, c.kind, p - OBJECT_HEADER));
      ExactSizeFits(c.kind);
    }

    /** Two live blocks never overlap, headers included. */
    lemma LiveBlocksDisjoint(p: nat, q: nat)
      requires Valid() && IsLive(mem.chunks, p) && IsLive(mem.chunks, q) && p < q
      ensures p + ObjSize(KindOf(mem.chunks, p)) <= q - OBJECT_HEADER
    {
      hide ChunkOk, ChainOk, Pages, ObjSize, PageCount, Count, NoneEmpty;
      assert groups[0].Valid();
      var b, c := Mask(p), Mask(q);
      var k, l := mem.chunks[b].kind, mem.chunks[c].kind;
      var i, j := IndexOf(b, k, p - OBJECT_HEADER), IndexOf(c, l, q - OBJECT_HEADER);
      if b == c {
        if j < i { StrideMonotone(k, j, i); }
        if i < j { StrideMonotone(k, i, j); }
      } else {
        ChunkSize(b, mem.chunks[b], mem.fls[b]);
        ObjectInsideChunk(b, k, i);
        FirstPage(c, l);
        assert c / PAGE_SIZE in PagesOf(mem.chunks, c) && c / PAGE_SIZE !in PagesOf(mem.chunks, b);
        PageNotIn(b, PageCount(k), c);
      }
    }

    /** The heap owns exactly the pages of chunks in which some block is live. */
    lemma OwnsExactlyLivePages()
      requires Valid()
      ensures forall n :: n in mem.lent <==> exists p :: LiveOnPage(mem.chunks, p, n)
    {
      hide ChunkOk, ChainOk, Pages, ObjSize, PageCount, Count, IsBlock, ObjectAt, IndexOf, DataAddr;
      assert groups[0].Valid();
      forall n | n in mem.lent
        ensures exists p :: LiveOnPage(mem.chunks, p, n)
      {
        var b :| b in mem.chunks && n in PagesOf(mem.chunks, b);
        var p := LiveBlockOf(b);
        assert LiveOnPage(mem.chunks, p, n);
      }
      forall p | IsLive(mem.chunks, p)
        ensures Mask(p) in mem.chunks && PagesOf(mem.chunks, Mask(p)) <= mem.lent
      {
        BlockChunk(mem.chunks, p);
      }
    }

    lemma LiveBlockOf(b: nat) returns (p: nat)
      requires Valid() && b in mem.chunks
      ensures IsLive(mem.chunks, p) && Mask(p) == b
    {
      hide ChainOk, PagesOk, Threads, ObjSize, Count, IsBlock, ObjectAt, IndexOf, Mask;
      assert groups[0].Valid();
      var c := mem.chunks[b];
      var j := MissingOne(mem.fls[b], Count(c.kind));
      p := DataAddr(b, c.kind, j);
      BlockOf(mem.chunks, b, j);
    }

    /** Once every block has been freed, every page is back with the page source and no group holds a chunk. */
    lemma AllFreedAllReturned()
      requires Valid() && forall p :: !IsLive(mem.chunks, p)
      ensures mem.chunks == map[] && mem.lent == {} && forall k: Kind :: groups[k].firstChunk == 0
    {
      hide IsLive, IsBlock;
      assert groups[0].Valid();
      OwnsExactlyLivePages();
      if b :| b in mem.chunks { var p := LiveBlockOf(b); }
      forall k: Kind ensures groups[k].firstChunk == 0 {
        assert groups[k].Valid();
        ChainHead(mem.chunks, mem.fls, k, groups[k].firstChunk, groups[k].chain);
      }
    }

    /** A group's chain holds exactly its chunks that have both a free and a live object. */
    lemma ChainExact(k: Kind, b: nat)
      requires Valid()
      ensures Linked(mem.chunks, groups[k].firstChunk, groups[k].chain) && Distinct(groups[k].chain)
      ensures b in groups[k].chain <==>
                && b in mem.chunks && mem.chunks[b].kind == k
                && (exists i | 0 <= i < |mem.chunks[b].objects| :: mem.chunks[b].objects[i].status == Status.Free)
                && (exists i | 0 <= i < |mem.chunks[b].objects| :: mem.chunks[b].objects[i].status == Status.Used)
    {
      hide PagesOk, Threads, ObjSize, Count, Distinct;
      assert groups[k].Valid();
      if b in mem.chunks && mem.chunks[b].kind == k {
        var c, fl := mem.chunks[b], mem.fls[b];
        var j := MissingOne(fl, Count(k));
        LiveNotFree(b, c, fl, j);
        if fl != [] {
          ThreadsFree(b, k, c.objects, c.firstFree, fl);
          assert fl[0] in fl;
        } else {
          forall i | 0 <= i < |c.objects| ensures c.objects[i].status == Used { LiveNotFree(b, c, fl, i); }
        }
      }
    }

    lemma OtherGroupsValid(g: Kind, chunks: Chunks, fls: FreeLists)
      requires |groups| == CLASS_COUNT && forall k: Kind :: groups[k].kind == k && groups[k].mem == mem
      requires groups[g].Valid() && chunks.Keys == fls.Keys
      requires OthersKept(g, chunks, fls, mem.chunks, mem.fls)
      requires forall k: Kind | k != g :: ChainOk(chunks, fls, k, groups[k].firstChunk, groups[k].chain)
      ensures Valid()
    {
      forall k: Kind | k != g
        ensures groups[k].Valid()
      {
        ChainFrame(chunks, fls, mem.chunks, mem.fls, g, k, groups[k].firstChunk, groups[k].chain);
      }
    }
  }
}
