/** Three pools that tile physical memory, seen as one status word per frame. */
module FrameMap {
  import opened MemoryLayout
  import opened Options
  import opened FrameScan
  import opened PhysicalPools

  /** Pools in the order of fall-back: HiMem, Default, DMA. */
  const HIMEM: nat := 0
  const DEFAULT: nat := 1
  const DMA: nat := 2

  /** The number of the first frame of a pool. */
  ghost function Offset(ss: seq<Pool>, k: nat): nat
    requires |ss| == 3 && k < 3
  {
    if k == DMA then 0
    else if k == DEFAULT then |ss[DMA].bits|
    else |ss[DMA].bits| + |ss[DEFAULT].bits|
  }

  /** Each pool begins where the one below it ends, the first at address 0. */
  ghost predicate Tiled(ss: seq<Pool>) {
    && |ss| == 3
    && forall k | 0 <= k < 3 :: FrameScan.Valid(ss[k]) && ss[k].base == PAGE_SIZE * Offset(ss, k)
  }

  ghost function Flat(ss: seq<Pool>): (r: seq<int>)
    requires |ss| == 3
  {
    ss[DMA].bits + ss[DEFAULT].bits + ss[HIMEM].bits
  }

  ghost function Limit(s: Pool): nat { s.base + |s.bits| * PAGE_SIZE }

  /** `find_pool` */
  ghost function FindPool(ss: seq<Pool>, addr: nat): Option<nat>
    requires |ss| == 3
  {
    if addr < Limit(ss[DMA]) then Some(DMA)
    else if addr < Limit(ss[DEFAULT]) then Some(DEFAULT)
    else if addr < Limit(ss[HIMEM]) then Some(HIMEM)
    else None
  }

  /** Addresses below the end of memory are routed to the pool that holds them, all others to none. */
  lemma Routed(ss: seq<Pool>, addr: nat)
    requires Tiled(ss)
    ensures FindPool(ss, addr).Some? <==> addr / PAGE_SIZE < |Flat(ss)|
    ensures FindPool(ss, addr).Some? ==> var k := FindPool(ss, addr).value;
              k < 3 && Holds(ss[k], addr) && (addr - ss[k].base) / PAGE_SIZE + Offset(ss, k) == addr / PAGE_SIZE
  {
  }

  /** The pools have the same frames and search positions. */
  ghost predicate SameShape(ss: seq<Pool>, ss': seq<Pool>) {
    |ss| == |ss'| && forall k | 0 <= k < |ss| :: |ss'[k].bits| == |ss[k].bits| && ss'[k].prev == ss[k].prev
  }

  /** The status word of an address set, in the pool that `find_pool` names; unchanged without one. */
  ghost function SetStatus(ss: seq<Pool>, addr: nat, v: int): (r: seq<Pool>)
    requires Tiled(ss)
    ensures |r| == 3 && SameShape(ss, r)
  {
    Routed(ss, addr);
    match FindPool(ss, addr)
    case None => ss
    case Some(k) => ss[k := ss[k].(bits := ss[k].bits[(addr - ss[k].base) / PAGE_SIZE := v])]
  }

  lemma SetStatusFlat(ss: seq<Pool>, addr: nat, v: int)
    requires Tiled(ss)
    ensures Tiled(SetStatus(ss, addr, v))
    ensures |Flat(SetStatus(ss, addr, v))| == |Flat(ss)|
    ensures forall f | 0 <= f < |Flat(ss)| ::
              Flat(SetStatus(ss, addr, v))[f] == if f == addr / PAGE_SIZE then v else Flat(ss)[f]
  {
    Routed(ss, addr);
  }

  /** A run taken from pool `k` is a run of frames marked. */
  lemma TakenFlat(ss: seq<Pool>, k: nat, idx: nat, pages: nat)
    requires Tiled(ss) && k < 3 && idx < |ss[k].bits| && idx + pages <= |ss[k].bits|
    ensures Tiled(ss[k := Taken(ss[k], idx, pages)])
    ensures Flat(ss[k := Taken(ss[k], idx, pages)]) == Marked(Flat(ss), Offset(ss, k) + idx, pages)
  {
    var s := Taken(ss[k], idx, pages);
    var ss' := ss[k := s];
    assert s.base == ss[k].base && |s.bits| == |ss[k].bits| && s.prev < |s.bits|;
    assert |Flat(ss')| == |Flat(ss)|;
    forall f | 0 <= f < |Flat(ss)| ensures Flat(ss')[f] == Marked(Flat(ss), Offset(ss, k) + idx, pages)[f] {
    }
  }
}
