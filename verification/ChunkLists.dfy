/** Chunks of the kernel heap on values: free lists, pages and live blocks. */
module ChunkLists {
  import opened MemoryLayout
  import opened Sequences
  import opened SizeClasses

  datatype Status = Free | Used | Init

  /** `heap_object`; `word` is the union of the free-list link and the object size. */
  datatype HeapObject = HeapObject(status: Status, word: nat)

  /** `heap_chunk<obj_size, page_count>`; `kind` is the template instance placed at this address. */
  datatype Chunk = Chunk(kind: Kind, next: nat, firstFree: nat, freeCount: nat, objects: seq<HeapObject>)

  type Chunks = map<nat, Chunk>

  /** Free lists as lists of object indices, head first. */
  type FreeLists = map<nat, seq<nat>>

  /** Starting from the link `head`, the FREE objects visited are exactly those of `fl`, in order. */
  ghost predicate Threads(b: nat, k: Kind, objects: seq<HeapObject>, head: nat, fl: seq<nat>)
    decreases fl
  {
    if fl == [] then head == 0
    else
      && fl[0] < |objects| && head == ObjAddr(b, k, fl[0])
      && objects[fl[0]].status == Free && Threads(b, k, objects, objects[fl[0]].word, fl[1..])
  }

  /**
    The chunk at `b` threads exactly the free list `fl`: it is duplicate-free, `_free_count`
    long, covers exactly the FREE objects, and every other object is USED and records its size.
  */
  ghost predicate ChunkOk(b: nat, c: Chunk, fl: seq<nat>) {
    && |c.objects| == Count(c.kind)
    && Distinct(fl)
    && c.freeCount == |fl|
    && Threads(b, c.kind, c.objects, c.firstFree, fl)
    && (forall j | 0 <= j < |c.objects| && j !in fl :: c.objects[j] == HeapObject(Used, ObjSize(c.kind)))
  }

  ghost predicate ChunksOk(chunks: Chunks, fls: FreeLists) {
    && chunks.Keys == fls.Keys
    && (forall b | b in chunks :: 0 < b && b % PAGE_SIZE == 0 && ChunkOk(b, chunks[b], fls[b]))
  }

  /** Some object of every owned chunk is live. */
  ghost predicate NoneEmpty(chunks: Chunks, fls: FreeLists)
    requires chunks.Keys == fls.Keys
  {
    forall b | b in chunks :: |fls[b]| < Count(chunks[b].kind)
  }

  function PagesOf(chunks: Chunks, b: nat): set<nat>
    requires b in chunks
  {
    Pages(b, PageCount(chunks[b].kind))
  }

  /** The pages lent by the page source are exactly those of the owned chunks, which do not overlap. */
  ghost predicate PagesOk(chunks: Chunks, lent: set<nat>) {
    && (forall b | b in chunks :: PagesOf(chunks, b) <= lent)
    && (forall b, c | b in chunks && c in chunks && b != c :: PagesOf(chunks, b) !! PagesOf(chunks, c))
    && (forall p | p in lent :: exists b :: b in chunks && p in PagesOf(chunks, b))
  }

  /** `p` is the data address of some object of an owned chunk, found by masking. */
  ghost predicate IsBlock(chunks: Chunks, p: nat) {
    var b := Mask(p);
    b in chunks && b + CHUNK_HEADER + OBJECT_HEADER <= p
    && var k := chunks[b].kind;
    var i := IndexOf(b, k, p - OBJECT_HEADER);
    i < |chunks[b].objects| && p == DataAddr(b, k, i)
  }

  function ObjectAt(chunks: Chunks, p: nat): HeapObject
    requires IsBlock(chunks, p)
  {
    var b := Mask(p);
    chunks[b].objects[IndexOf(b, chunks[b].kind, p - OBJECT_HEADER)]
  }

  ghost predicate IsLive(chunks: Chunks, p: nat) {
    IsBlock(chunks, p) && ObjectAt(chunks, p).status == Used
  }

  /** Block `p` is live and page `n` belongs to its chunk. */
  ghost predicate LiveOnPage(chunks: Chunks, p: nat, n: nat) {
    IsLive(chunks, p) && n in PagesOf(chunks, Mask(p))
  }

  function KindOf(chunks: Chunks, p: nat): Kind
    requires IsBlock(chunks, p)
  {
    chunks[Mask(p)].kind
  }

  /**
    A group's chain: the linked list from `first` is acyclic and holds exactly the owned chunks
    of kind `k` that still have a free object. Owned chunks are never empty, so these are the
    chunks that are neither full nor empty.
  */
  ghost predicate ChainOk(chunks: Chunks, fls: FreeLists, k: Kind, first: nat, chain: seq<nat>)
    requires chunks.Keys == fls.Keys
  {
    && Linked(chunks, first, chain)
    && Distinct(chain)
    && (forall b :: b in chain <==> b in chunks && chunks[b].kind == k && fls[b] != [])
  }

  /** Following `_next` from `first` visits exactly the chunks of `chain`, in order. */
  ghost predicate Linked(chunks: Chunks, first: nat, chain: seq<nat>)
    decreases chain
  {
    if chain == [] then first == 0
    else first == chain[0] && first != 0 && first in chunks && Linked(chunks, chunks[first].next, chain[1..])
  }

  /** An operation of group `k` leaves the chunks of all other groups alone. */
  ghost predicate OthersKept(k: Kind, chunks: Chunks, fls: FreeLists, chunks': Chunks, fls': FreeLists)
    requires chunks.Keys == fls.Keys && chunks'.Keys == fls'.Keys
  {
    forall b :: ((b in chunks && chunks[b].kind != k) || (b in chunks' && chunks'[b].kind != k)) ==>
      b in chunks && b in chunks' && chunks[b] == chunks'[b] && fls[b] == fls'[b]
  }

  /** Two memories agree on the chunks other than `b`, and on the kind of `b`. */
  ghost predicate OnlyAt(b: nat, chunks: Chunks, fls: FreeLists, chunks': Chunks, fls': FreeLists)
    requires chunks.Keys == fls.Keys && chunks'.Keys == fls'.Keys
  {
    && b in chunks && chunks'.Keys == chunks.Keys && chunks'[b].kind == chunks[b].kind
    && forall a | a in chunks && a != b :: chunks'[a] == chunks[a] && fls'[a] == fls[a]
  }

  ghost predicate KindsKept(chunks: Chunks, chunks': Chunks) {
    forall b | b in chunks && b in chunks' :: chunks'[b].kind == chunks[b].kind
  }

  /** What `mm::alloc_pages(n)` may answer: 0, or the address of `n` whole pages not already lent. */
  ghost predicate PageAnswer(lent: set<nat>, page: nat, n: nat) {
    page != 0 ==> page % PAGE_SIZE == 0 && Pages(page, n) !! lent
  }

  // ----- lemmas about one chunk

  lemma BlockOf(chunks: Chunks, b: nat, i: nat)
    requires b in chunks && b % PAGE_SIZE == 0 && |chunks[b].objects| == Count(chunks[b].kind)
    requires i < |chunks[b].objects|
    ensures var p := DataAddr(b, chunks[b].kind, i);
            IsBlock(chunks, p) && Mask(p) == b && IndexOf(b, chunks[b].kind, p - OBJECT_HEADER) == i
            && ObjectAt(chunks, p) == chunks[b].objects[i]
  {
    MaskRecoversChunk(b, chunks[b].kind, i);
    IndexOfInverts(b, chunks[b].kind, i);
  }

  /** Rewriting the object of block `p` changes the liveness of `p` only. */
  lemma LiveAfterWrite(chunks: Chunks, chunks': Chunks, p: nat)
    requires IsBlock(chunks, p)
    requires var b := Mask(p);
             var i := IndexOf(b, chunks[b].kind, p - OBJECT_HEADER);
             && b in chunks' && chunks'.Keys == chunks.Keys && chunks'[b].kind == chunks[b].kind
             && |chunks'[b].objects| == |chunks[b].objects|
             && (forall j | 0 <= j < |chunks[b].objects| && j != i :: chunks'[b].objects[j] == chunks[b].objects[j])
    requires forall c | c in chunks && c != Mask(p) :: chunks'[c] == chunks[c]
    ensures forall q :: IsBlock(chunks, q) <==> IsBlock(chunks', q)
    ensures forall q | IsBlock(chunks, q) :: KindOf(chunks', q) == KindOf(chunks, q)
    ensures forall q | q != p :: IsLive(chunks, q) <==> IsLive(chunks', q)
  {}

  /** Objects off the free list may be rewritten without disturbing it. */
  lemma {:induction false} ThreadsFrame(b: nat, k: Kind, objects: seq<HeapObject>, head: nat, fl: seq<nat>, i: nat,
                                        o: HeapObject)
    requires Threads(b, k, objects, head, fl) && i < |objects| && i !in fl
    ensures Threads(b, k, objects[i := o], head, fl)
    decreases fl
  {
    if fl != [] {
      ThreadsFrame(b, k, objects, objects[fl[0]].word, fl[1..], i, o);
    }
  }

  /** Every listed object is FREE and inside the chunk. */
  lemma {:induction false} ThreadsFree(b: nat, k: Kind, objects: seq<HeapObject>, head: nat, fl: seq<nat>)
    requires Threads(b, k, objects, head, fl)
    ensures forall j | j in fl :: j < |objects| && objects[j].status == Free
    decreases fl
  {
    if fl != [] {
      ThreadsFree(b, k, objects, objects[fl[0]].word, fl[1..]);
      assert forall j | j in fl :: j == fl[0] || j in fl[1..];
    }
  }

  lemma PopOk(b: nat, c: Chunk, fl: seq<nat>, c': Chunk)
    requires ChunkOk(b, c, fl) && fl != []
    requires c' == c.(firstFree := c.objects[fl[0]].word, freeCount := c.freeCount - 1,
                      objects := c.objects[fl[0] := HeapObject(Used, ObjSize(c.kind))])
    ensures ChunkOk(b, c', fl[1..])
  {
    hide ObjAddr, Count, ObjSize;
    ThreadsFrame(b, c.kind, c.objects, c'.firstFree, fl[1..], fl[0], HeapObject(Used, ObjSize(c.kind)));
    assert forall j | j in fl :: j == fl[0] || j in fl[1..];
  }

  lemma PushOk(b: nat, c: Chunk, fl: seq<nat>, i: nat, c': Chunk)
    requires ChunkOk(b, c, fl) && i < |c.objects| && i !in fl
    requires c' == c.(firstFree := ObjAddr(b, c.kind, i), freeCount := c.freeCount + 1,
                      objects := c.objects[i := HeapObject(Free, c.firstFree)])
    ensures ChunkOk(b, c', [i] + fl)
  {
    hide ObjAddr, Count, ObjSize;
    ThreadsFrame(b, c.kind, c.objects, c.firstFree, fl, i, HeapObject(Free, c.firstFree));
    assert ([i] + fl)[1..] == fl;
  }

  /** `s` without its i-th element. */
  ghost function Unlinked(s: seq<nat>, i: nat): seq<nat>
    requires i < |s|
  {
    s[..i] + s[i + 1..]
  }

  lemma UnlinkedFacts(s: seq<nat>, i: nat)
    requires Distinct(s) && i < |s|
    ensures Distinct(Unlinked(s, i)) && |Unlinked(s, i)| == |s| - 1
    ensures forall b :: b in Unlinked(s, i) <==> b in s && b != s[i]
  {
    var s' := Unlinked(s, i);
    forall b | b in s && b != s[i] ensures b in s' {
      var j :| 0 <= j < |s| && s[j] == b;
      assert s'[if j < i then j else j - 1] == b;
    }
  }

  /** A duplicate-free list of numbers below `n` has at most `n` elements, and all of them when it has `n`. */
  lemma {:induction false} Pigeonhole(s: seq<nat>, n: nat)
    requires Distinct(s) && forall x | x in s :: x < n
    ensures |s| <= n
    ensures |s| == n ==> forall j | 0 <= j < n :: j in s
    decreases n
  {
    hide Distinct, Unlinked;
    if s != [] {
      assert s[0] in s;
      if n - 1 in s {
        var p :| 0 <= p < |s| && s[p] == n - 1;
        UnlinkedFacts(s, p);
        Pigeonhole(Unlinked(s, p), n - 1);
      } else {
        Pigeonhole(s, n - 1);
      }
    }
  }

  lemma {:induction false} MissingOne(s: seq<nat>, n: nat) returns (j: nat)
    requires Distinct(s) && |s| < n
    ensures j < n && j !in s
    decreases n
  {
    hide Distinct, Unlinked;
    j := n - 1;
    if n - 1 in s {
      var p :| 0 <= p < |s| && s[p] == n - 1;
      UnlinkedFacts(s, p);
      j := MissingOne(Unlinked(s, p), n - 1);
    }
  }

  lemma AllFree(b: nat, c: Chunk, fl: seq<nat>)
    requires ChunkOk(b, c, fl) && |fl| == Count(c.kind)
    ensures forall j | 0 <= j < |c.objects| :: c.objects[j].status == Free
  {
    hide ObjAddr, Count, ObjSize;
    ThreadsFree(b, c.kind, c.objects, c.firstFree, fl);
    Pigeonhole(fl, |c.objects|);
  }

  lemma LiveNotFree(b: nat, c: Chunk, fl: seq<nat>, i: nat)
    requires ChunkOk(b, c, fl) && i < |c.objects|
    ensures c.objects[i].status == Used <==> i !in fl
    ensures c.objects[i].status == Used ==> c.objects[i].word == ObjSize(c.kind)
  {
    hide ObjAddr, Count, ObjSize;
    ThreadsFree(b, c.kind, c.objects, c.firstFree, fl);
  }

  /** `full()` and `empty()` read off the free list. */
  lemma ChunkFacts(b: nat, c: Chunk, fl: seq<nat>)
    requires ChunkOk(b, c, fl)
    ensures c.firstFree == 0 <==> fl == []
    ensures c.freeCount == |fl| <= Count(c.kind)
  {
    ThreadsFree(b, c.kind, c.objects, c.firstFree, fl);
    Pigeonhole(fl, |c.objects|);
  }

  /** Replacing one chunk by a well-formed one of the same kind keeps the shape of memory. */
  lemma WriteKeepsShape(chunks: Chunks, fls: FreeLists, lent: set<nat>, b: nat, c: Chunk, fl: seq<nat>)
    requires ChunksOk(chunks, fls) && PagesOk(chunks, lent) && b in chunks
    requires c.kind == chunks[b].kind && ChunkOk(b, c, fl)
    ensures ChunksOk(chunks[b := c], fls[b := fl]) && PagesOk(chunks[b := c], lent)
  {
    hide ChunkOk, Pages, PageCount;
    assert forall a | a in chunks :: PagesOf(chunks[b := c], a) == PagesOf(chunks, a);
  }

  /** What `heap_chunk::alloc` makes of the chunk's contents. */
  ghost function Popped(c: Chunk, i: nat): Chunk
    requires i < |c.objects| && c.freeCount > 0
  {
    c.(firstFree := c.objects[i].word, freeCount := c.freeCount - 1,
       objects := c.objects[i := HeapObject(Used, ObjSize(c.kind))])
  }

  lemma PopStep(chunks: Chunks, fls: FreeLists, lent: set<nat>, b: nat)
    requires ChunksOk(chunks, fls) && PagesOk(chunks, lent) && b in chunks && fls[b] != []
    ensures var c, fl := chunks[b], fls[b];
            && fl[0] < |c.objects| && c.freeCount > 0 && c.firstFree == ObjAddr(b, c.kind, fl[0])
            && var p, chunks' := DataAddr(b, c.kind, fl[0]), chunks[b := Popped(c, fl[0])];
            && ChunksOk(chunks', fls[b := fl[1..]]) && PagesOk(chunks', lent)
            && IsBlock(chunks, p) && !IsLive(chunks, p) && IsLive(chunks', p) && Mask(p) == b
            && (forall q | q != p :: IsLive(chunks', q) <==> IsLive(chunks, q))
            && (forall q :: IsBlock(chunks', q) <==> IsBlock(chunks, q))
  {
    hide ObjAddr, DataAddr, Count, ObjSize, PagesOk, Mask, IndexOf, Distinct;
    var c, fl := chunks[b], fls[b];
    var c' := Popped(c, fl[0]);
    var chunks' := chunks[b := c'];
    PopOk(b, c, fl, c');
    WriteKeepsShape(chunks, fls, lent, b, c', fl[1..]);
    BlockOf(chunks, b, fl[0]);
    BlockOf(chunks', b, fl[0]);
    LiveAfterWrite(chunks, chunks', DataAddr(b, c.kind, fl[0]));
  }

  lemma FirstPage(b: nat, k: Kind)
    ensures b / PAGE_SIZE in Pages(b, PageCount(k))
  {
    ClassBounds(k);
  }

  lemma FreshPage(chunks: Chunks, lent: set<nat>, page: nat, k: Kind)
    requires PagesOk(chunks, lent) && page != 0 && PageAnswer(lent, page, PageCount(k))
    ensures page !in chunks && page % PAGE_SIZE == 0 && Pages(page, PageCount(k)) !! lent
  {
    FirstPage(page, k);
    if page in chunks { FirstPage(page, chunks[page].kind); }
  }

  lemma PlaceShape(chunks: Chunks, fls: FreeLists, lent: set<nat>, page: nat, c: Chunk, fl: seq<nat>)
    requires ChunksOk(chunks, fls) && PagesOk(chunks, lent) && page !in chunks
    requires page % PAGE_SIZE == 0 && page != 0 && ChunkOk(page, c, fl)
    requires Pages(page, PageCount(c.kind)) !! lent
    ensures ChunksOk(chunks[page := c], fls[page := fl])
    ensures PagesOk(chunks[page := c], lent + Pages(page, PageCount(c.kind)))
  {
    hide Pages, PageCount, ChunkOk;
    var chunks' := chunks[page := c];
    assert forall a | a in chunks :: PagesOf(chunks', a) == PagesOf(chunks, a);
    assert PagesOf(chunks', page) == Pages(page, PageCount(c.kind));
    forall p | p in lent
      ensures exists b :: b in chunks' && p in PagesOf(chunks', b)
    {
      var b :| b in chunks && p in PagesOf(chunks, b);
      assert b in chunks' && p in PagesOf(chunks', b);
    }
  }

  lemma FreshLive(chunks: Chunks, page: nat, c: Chunk)
    requires page !in chunks && forall j | 0 <= j < |c.objects| :: c.objects[j].status == Free
    ensures forall q :: IsLive(chunks[page := c], q) <==> IsLive(chunks, q)
  {
    hide Mask, IndexOf, DataAddr;
  }

  lemma DropDead(chunks: Chunks, fls: FreeLists, b: nat)
    requires ChunksOk(chunks, fls) && b in chunks && |fls[b]| == Count(chunks[b].kind)
    ensures forall q :: IsLive(chunks - {b}, q) <==> IsLive(chunks, q)
  {
    hide Mask, IndexOf, DataAddr, ChunkOk, Count;
    AllFree(b, chunks[b], fls[b]);
  }

  lemma DropShape(chunks: Chunks, fls: FreeLists, lent: set<nat>, b: nat)
    requires ChunksOk(chunks, fls) && PagesOk(chunks, lent) && b in chunks
    ensures ChunksOk(chunks - {b}, fls - {b})
    ensures PagesOk(chunks - {b}, lent - PagesOf(chunks, b))
  {
    hide Pages, PageCount, ChunkOk;
    var chunks' := chunks - {b};
    assert forall a | a in chunks' :: PagesOf(chunks', a) == PagesOf(chunks, a);
    forall p | p in lent - PagesOf(chunks, b)
      ensures exists c :: c in chunks' && p in PagesOf(chunks', c)
    {
      var c :| c in chunks && p in PagesOf(chunks, c);
      assert c in chunks' && p in PagesOf(chunks', c);
    }
  }

  lemma ChunkSize(b: nat, c: Chunk, fl: seq<nat>)
    requires ChunkOk(b, c, fl)
    ensures |c.objects| == Count(c.kind)
  {}

  lemma PageNotIn(b: nat, n: nat, a: nat)
    requires b % PAGE_SIZE == 0 && b < a && a / PAGE_SIZE !in Pages(b, n)
    ensures b + n * PAGE_SIZE <= a
  {}

  lemma FitsOnly(g: Kind, size: nat)
    requires FitsFirst(g, size)
    ensures forall k: Kind :: FitsFirst(k, size) <==> k == g
  {
    forall k: Kind | FitsFirst(k, size) ensures k == g { FitsFirstUnique(g, k, size); }
  }
}
