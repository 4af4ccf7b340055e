/**
  The seventeen size classes of the kernel heap and the byte layout of a chunk.

  A chunk is a header followed by `Count(k)` objects of `Stride(k)` bytes; an object is an
  8-byte header (status word, and a union of the free-list link and the size) followed by its
  data. The source budgets 8 bytes for the chunk header although its three fields take 12.
*/
module SizeClasses {
  import opened MemoryLayout
  import opened Arithmetic

  const CHUNK_HEADER: nat := 12
  const OVERHEAD_SIZE: nat := 8
  const OBJECT_HEADER: nat := 8

  datatype SizeClass = SizeClass(objSize: nat, pages: nat)

  const CLASSES: seq<SizeClass> := [
    SizeClass(8, 1), SizeClass(16, 1), SizeClass(32, 1), SizeClass(64, 1), SizeClass(128, 1),
    SizeClass(256, 1), SizeClass(512, 1), SizeClass(1024 - 16, 1), SizeClass(2048 - 16, 1),
    SizeClass(4096 - 20, 1), SizeClass(8192 - 20, 2), SizeClass(16384 - 20, 4),
    SizeClass(32768 - 20, 8), SizeClass(65536 - 20, 16), SizeClass(131072 - 20, 32),
    SizeClass(262144 - 20, 64), SizeClass(524288 - 20, 128)]

  const CLASS_COUNT: nat := 17

  type Kind = k: nat | k < CLASS_COUNT witness 0

  function ObjSize(k: Kind): nat { CLASSES[k].objSize }

  function PageCount(k: Kind): nat { CLASSES[k].pages }

  function Stride(k: Kind): nat { ObjSize(k) + OBJECT_HEADER }

  /** `object_count`: computed by the source from the 8-byte overhead. */
  function Count(k: Kind): nat { (PageCount(k) * PAGE_SIZE - OVERHEAD_SIZE) / Stride(k) }

  /** Address of the i-th object header of a chunk at address `b`. */
  function ObjAddr(b: nat, k: Kind, i: nat): nat { b + CHUNK_HEADER + i * Stride(k) }

  /** The pointer handed to callers for that object. */
  function DataAddr(b: nat, k: Kind, i: nat): nat { ObjAddr(b, k, i) + OBJECT_HEADER }

  /** `uintptr_t(ptr) & ~PAGE_MASK` */
  function Mask(p: nat): nat { p - p % PAGE_SIZE }

  /** Which object of the chunk at `b` has its header at `addr`. */
  function IndexOf(b: nat, k: Kind, addr: nat): nat
    requires addr >= b + CHUNK_HEADER
  {
    (addr - b - CHUNK_HEADER) / Stride(k)
  }

  /** The page numbers of the `n` pages from address `b` on. */
  function Pages(b: nat, n: nat): (s: set<nat>)
    ensures forall p :: p in s <==> b / PAGE_SIZE <= p < b / PAGE_SIZE + n
  {
    if n == 0 then {} else Pages(b, n - 1) + {b / PAGE_SIZE + n - 1}
  }

  lemma ClassBounds(k: Kind)
    ensures 8 <= ObjSize(k) && 1 <= PageCount(k)
    ensures 1 <= Count(k) && CHUNK_HEADER + Count(k) * Stride(k) <= PageCount(k) * PAGE_SIZE
    ensures PageCount(k) > 1 ==> Count(k) == 1
  {
    match k
    case 0 => case 1 => case 2 => case 3 => case 4 => case 5 => case 6 => case 7 => case 8 =>
    case 9 => case 10 => case 11 => case 12 => case 13 => case 14 => case 15 => case _ =>
  }

  /**
    The sizes double from class to class but for what they leave to headers (`ClassTable`), and a
    chunk of the last eight classes is filled to its last byte by one object (`ChunksFilled`).
  */
  lemma ClassTable(k: Kind)
    ensures k < 7 ==> ObjSize(k) == 8 * Pow2(k)
    ensures 7 <= k < 9 ==> ObjSize(k) == 8 * Pow2(k) - 16
    ensures 9 <= k ==> ObjSize(k) == 8 * Pow2(k) - 20
  {
    match k
    case 0 => case 1 => case 2 => case 3 => case 4 => case 5 => case 6 => case 7 => case 8 =>
    case 9 => case 10 => case 11 => case 12 => case 13 => case 14 => case 15 => case _ =>
  }

  lemma ChunksFilled(k: Kind)
    ensures k < 9 ==> PageCount(k) == 1
    ensures 9 <= k ==> 12 + 8 + ObjSize(k) == PageCount(k) * 4096 && PageCount(k) == Pow2(k - 9)
  {
    match k
    case 0 => case 1 => case 2 => case 3 => case 4 => case 5 => case 6 => case 7 => case 8 =>
    case 9 => case 10 => case 11 => case 12 => case 13 => case 14 => case 15 => case _ =>
  }

  /** How many objects a chunk of each class holds. */
  lemma ObjectCounts(k: Kind)
    ensures Count(k) == if k < 9 then [255, 170, 102, 56, 30, 15, 7, 4, 2][k] else 1
  {
    match k
    case 0 => case 1 => case 2 => case 3 => case 4 => case 5 => case 6 => case 7 => case 8 =>
    case 9 => case 10 => case 11 => case 12 => case 13 => case 14 => case 15 => case _ =>
  }

  lemma SizesIncrease(j: Kind, k: Kind)
    requires j < k
    ensures ObjSize(j) < ObjSize(k)
  {
    assert forall i | 0 <= i < 16 :: CLASSES[i].objSize < CLASSES[i + 1].objSize;
    if j + 1 < k { SizesIncrease(j, k - 1); }
  }

  lemma StrideMonotone(k: Kind, i: nat, j: nat)
    requires i < j
    ensures i * Stride(k) + Stride(k) <= j * Stride(k)
  {
    assert (j - i) * Stride(k) >= Stride(k);
    assert j * Stride(k) == i * Stride(k) + (j - i) * Stride(k);
  }

  lemma IndexOfInverts(b: nat, k: Kind, i: nat)
    ensures IndexOf(b, k, ObjAddr(b, k, i)) == i
  {
    ClassBounds(k);
    DivExact(i * Stride(k), i, Stride(k));
  }

  /** Every object, header and data, lies inside the chunk's own pages. */
  lemma ObjectInsideChunk(b: nat, k: Kind, i: nat)
    requires i < Count(k)
    ensures b + CHUNK_HEADER <= ObjAddr(b, k, i)
    ensures DataAddr(b, k, i) + ObjSize(k) <= b + PageCount(k) * PAGE_SIZE
  {
    ClassBounds(k);
    if i + 1 < Count(k) { StrideMonotone(k, i, Count(k) - 1); StrideMonotone(k, Count(k) - 1, Count(k)); }
    StrideMonotone(k, i, Count(k));
  }

  /** Masking any data pointer of a page-aligned chunk gives the chunk, also for the multi-page classes. */
  lemma MaskRecoversChunk(b: nat, k: Kind, i: nat)
    requires b % PAGE_SIZE == 0 && i < Count(k)
    ensures Mask(DataAddr(b, k, i)) == b
  {
    ClassBounds(k);
    ObjectInsideChunk(b, k, i);
    var off := DataAddr(b, k, i) - b;
    assert off < PAGE_SIZE by {
      if PageCount(k) > 1 {
        assert i == 0;
        assert 0 * Stride(k) == 0;
      }
    }
    assert (b + off) % PAGE_SIZE == off;
  }

  lemma ObjAddrInjective(b: nat, k: Kind, i: nat, j: nat)
    requires ObjAddr(b, k, i) == ObjAddr(b, k, j)
    ensures i == j
  {
    IndexOfInverts(b, k, i);
    IndexOfInverts(b, k, j);
  }

  /** `k` is the smallest class that can hold a request. */
  predicate FitsFirst(k: Kind, requestSize: nat) {
    requestSize <= ObjSize(k) && (k == 0 || ObjSize(k - 1) < requestSize)
  }

  lemma FitsFirstUnique(j: Kind, k: Kind, requestSize: nat)
    requires FitsFirst(j, requestSize) && FitsFirst(k, requestSize)
    ensures j == k
  {
    if j < k - 1 { SizesIncrease(j, k - 1); } else if k < j - 1 { SizesIncrease(k, j - 1); }
  }

  /** A block's recorded size selects exactly the class that issued it. */
  lemma ExactSizeFits(k: Kind)
    ensures FitsFirst(k, ObjSize(k))
  {
    if k > 0 { SizesIncrease(k - 1, k); }
  }

  /** `find_chunk_group`: the smallest class that holds the request, or 17 when it is larger than every class. */
  method FindChunkGroup(requestSize: nat) returns (g: nat)
    ensures g <= CLASS_COUNT
    ensures g < CLASS_COUNT ==> FitsFirst(g, requestSize)
    ensures g == CLASS_COUNT <==> forall k: Kind :: ObjSize(k) < requestSize
  {
    g := 0;
    while g < CLASS_COUNT
      invariant g <= CLASS_COUNT
      invariant forall j: Kind | j < g :: ObjSize(j) < requestSize
    {
      if ObjSize(g) >= requestSize { return; }
      g := g + 1;
    }
  }
}
