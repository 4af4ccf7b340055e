/** A physical pool with its status words in place, and the chain of pools it falls back to. */
module PhysicalPools {
  import opened MemoryLayout
  import opened Options
  import opened FrameScan

  ghost function Marked(bits: seq<int>, idx: nat, pages: nat): (r: seq<int>)
    ensures |r| == |bits|
  {
    seq(|bits|, k requires 0 <= k < |bits| => if idx <= k < idx + pages then 1 else bits[k])
  }

  /** A pool after the run at `idx` was handed out. */
  ghost function Taken(s: Pool, idx: nat, pages: nat): Pool
    requires |s.bits| > 0
  {
    Pool(s.base, Marked(s.bits, idx, pages), (idx + pages) % |s.bits|)
  }

  /** Allocation from a pool, or else from the next one it falls back to; 0 when all fail. */
  ghost function AllocChain(ss: seq<Pool>, pages: nat, align: nat): (r: (nat, seq<Pool>))
    requires align > 0
    ensures |r.1| == |ss|
  {
    if ss == [] then (0, [])
    else match Scan(ss[0], pages, align)
      case Some(idx) => (ss[0].base + idx * PAGE_SIZE, [Taken(ss[0], idx, pages)] + ss[1..])
      case None =>
        var rest := AllocChain(ss[1..], pages, align);
        (rest.0, [ss[0]] + rest.1)
  }

  lemma ChainTakes(s: Pool, tail: seq<Pool>, pages: nat, align: nat)
    requires align > 0 && Scan(s, pages, align).Some?
    ensures var idx := Scan(s, pages, align).value;
      AllocChain([s] + tail, pages, align) == (s.base + idx * PAGE_SIZE, [Taken(s, idx, pages)] + tail)
  {
    assert ([s] + tail)[1..] == tail;
  }

  lemma ChainPasses(s: Pool, tail: seq<Pool>, pages: nat, align: nat)
    requires align > 0 && Scan(s, pages, align).None?
    ensures var rest := AllocChain(tail, pages, align);
      AllocChain([s] + tail, pages, align) == (rest.0, [s] + rest.1)
  {
    assert ([s] + tail)[1..] == tail;
  }

  /** The pool has a status word for the address. */
  ghost predicate Holds(s: Pool, addr: nat) {
    s.base <= addr && (addr - s.base) / PAGE_SIZE < |s.bits|
  }

  /** The pool is safe, and so are those behind it if the request comes to them. */
  ghost predicate ChainSafe(ss: seq<Pool>, pages: nat, align: nat)
    requires align > 0
  {
    ss == [] || (Safe(ss[0], pages, align) && (HasRun(ss[0], pages, align) || ChainSafe(ss[1..], pages, align)))
  }

  /** The request comes to pool `k`: none of those before has a run. */
  ghost predicate Reached(ss: seq<Pool>, k: nat, pages: nat, align: nat)
    requires align > 0 && k <= |ss|
  {
    forall j | 0 <= j < k :: !HasRun(ss[j], pages, align)
  }

  lemma {:induction false} ChainSafeIff(ss: seq<Pool>, pages: nat, align: nat)
    requires align > 0
    ensures ChainSafe(ss, pages, align) <==>
            forall k: nat | k < |ss| && Reached(ss, k, pages, align) :: Safe(ss[k], pages, align)
  {
    hide Safe, HasRun;
    if ss != [] {
      ChainSafeIff(ss[1..], pages, align);
      assert Reached(ss, 0, pages, align);
      if !HasRun(ss[0], pages, align) {
        forall k: nat | k < |ss| - 1 ensures Reached(ss, k + 1, pages, align) == Reached(ss[1..], k, pages, align) {
          ReachedBehind(ss, k, pages, align);
        }
        if ChainSafe(ss, pages, align) {
          forall k: nat | k < |ss| && Reached(ss, k, pages, align) ensures Safe(ss[k], pages, align) {
            if k > 0 { assert Reached(ss[1..], k - 1, pages, align) && ss[k] == ss[1..][k - 1]; }
          }
        } else if forall k: nat | k < |ss| && Reached(ss, k, pages, align) :: Safe(ss[k], pages, align) {
          forall k: nat | k < |ss| - 1 && Reached(ss[1..], k, pages, align) ensures Safe(ss[1..][k], pages, align) {
            assert Reached(ss, k + 1, pages, align);
          }
        }
      }
    }
  }

  lemma ReachedBehind(ss: seq<Pool>, k: nat, pages: nat, align: nat)
    requires align > 0 && ss != [] && k < |ss| && !HasRun(ss[0], pages, align)
    ensures Reached(ss, k + 1, pages, align) == Reached(ss[1..], k, pages, align)
  {
    hide HasRun;
    forall j | 0 <= j < k ensures ss[1..][j] == ss[j + 1] {}
    if Reached(ss[1..], k, pages, align) {
      forall j | 0 <= j < k + 1 ensures !HasRun(ss[j], pages, align) {
        if j > 0 { assert ss[j] == ss[1..][j - 1]; }
      }
    } else {
      var j :| 0 <= j < k && HasRun(ss[1..][j], pages, align);
      assert HasRun(ss[j + 1], pages, align);
    }
  }

  lemma ChainSafeCons(s: Pool, tail: seq<Pool>, pages: nat, align: nat)
    requires align > 0 && ChainSafe([s] + tail, pages, align)
    ensures Safe(s, pages, align) && (Scan(s, pages, align).None? ==> ChainSafe(tail, pages, align))
  {
    hide Safe;
    assert ([s] + tail)[1..] == tail;
    FindsRunIff(s, pages, align);
  }

  ghost predicate AllValid(ps: seq<PhysicalPool>)
    reads ps, set p | p in ps :: p.bitmap
  {
    && (forall p | p in ps :: p.Valid())
    && forall i, j | 0 <= i < j < |ps| :: ps[i].bitmap != ps[j].bitmap
  }

  ghost function States(ps: seq<PhysicalPool>): (r: seq<Pool>)
    reads ps, set p | p in ps :: p.bitmap
    ensures |r| == |ps| && forall i | 0 <= i < |ps| :: r[i] == ps[i].State()
  {
    if ps == [] then [] else [ps[0].State()] + States(ps[1..])
  }

  lemma ValidCons(p: PhysicalPool, rest: seq<PhysicalPool>)
    ensures AllValid([p] + rest) <==> p.Valid() && AllValid(rest) && forall q | q in rest :: q.bitmap != p.bitmap
  {
    var ps := [p] + rest;
    assert forall i | 0 <= i < |rest| :: ps[i + 1] == rest[i];
    if AllValid(ps) {
      forall i, j | 0 <= i < j < |rest| ensures rest[i].bitmap != rest[j].bitmap {
        assert ps[i + 1].bitmap != ps[j + 1].bitmap;
      }
      forall q | q in rest ensures q.Valid() && q.bitmap != p.bitmap {
        var i :| 0 <= i < |rest| && rest[i] == q;
        assert ps[0].bitmap != ps[i + 1].bitmap;
      }
    }
  }

  lemma StatesCons(p: PhysicalPool, rest: seq<PhysicalPool>)
    ensures States([p] + rest) == [p.State()] + States(rest)
  {
    assert ([p] + rest)[1..] == rest;
  }

  class PhysicalPool {
    const fallback: PhysicalPool?
    /** The pools behind this one, in the order in which they are asked. */
    ghost const behind: seq<PhysicalPool>
    var base: nat
    var numFrames: nat
    var prevIdx: nat
    var bitmap: array<int>

    constructor (next: PhysicalPool?)
      requires next != null ==> next.WellFounded()
      ensures WellFounded() && fallback == next && Valid() && fresh(bitmap)
    {
      fallback := next;
      behind := if next == null then [] else [next] + next.behind;
      base, numFrames, prevIdx := 0, 0, 0;
      bitmap := new int[0];
    }

    /** The chain of fall-backs ends. */
    ghost predicate WellFounded()
      decreases |behind|
    {
      if fallback == null then behind == []
      else behind == [fallback] + fallback.behind && fallback.WellFounded()
    }

    ghost function Chain(): seq<PhysicalPool>
    {
      [this] + behind
    }

    lemma BehindShorter(p: PhysicalPool)
      requires WellFounded() && p in behind
      ensures |p.behind| < |behind|
      decreases |behind|
    {
      if p != fallback { fallback.BehindShorter(p); }
    }

    ghost predicate Valid()
      reads this, bitmap
    {
      bitmap.Length == numFrames && FrameScan.Valid(State())
    }

    ghost function State(): Pool
      reads this, bitmap
    {
      Pool(base, bitmap[..], prevIdx)
    }

    function AddressOf(idx: nat): nat
      reads this
    {
      base + idx * PAGE_SIZE
    }

    function IndexOf(addr: nat): nat
      requires base <= addr
      reads this
    {
      (addr - base) / PAGE_SIZE
    }

    function Limit(): nat
      reads this
    {
      base + numFrames * PAGE_SIZE
    }

    method Free(addr: nat)
      requires Valid() && Holds(State(), addr)
      modifies bitmap
      ensures Valid() && State() == old(State()).(bits := old(bitmap[..])[(addr - base) / PAGE_SIZE := 0])
    {
      bitmap[IndexOf(addr)] := 0;
    }

    method Reserve(addr: nat)
      requires Valid() && Holds(State(), addr)
      modifies bitmap
      ensures Valid() && State() == old(State()).(bits := old(bitmap[..])[(addr - base) / PAGE_SIZE := 1])
    {
      bitmap[IndexOf(addr)] := 1;
    }

    /** `index_of` inverts `address_of`. */
    lemma IndexOfAddress(idx: nat)
      ensures AddressOf(idx) >= base && IndexOf(AddressOf(idx)) == idx
    {}

    method Init(physicalBase: nat, frames: nat, map0: array<int>)
      requires map0.Length == frames
      modifies this, map0
      ensures bitmap == map0 && numFrames == frames && Valid()
      ensures State() == Pool(physicalBase, seq(frames, _ => 0), 0)
    {
      base, numFrames, prevIdx, bitmap := physicalBase, frames, 0, map0;
      for i := 0 to numFrames
        invariant base == physicalBase && numFrames == frames && prevIdx == 0 && bitmap == map0
        invariant forall k | 0 <= k < i :: bitmap[k] == 0
      {
        bitmap[i] := 0;
      }
      assert bitmap[..] == seq(frames, _ => 0);
    }

    /** The check of one run: it stops at the first frame in use. */
    method IsFree(start: nat, pages: nat) returns (ok: bool)
      requires Valid() && numFrames > 0
      ensures ok == FreeRun(bitmap[..], start, pages)
    {
      ok := true;
      for j := 0 to pages
        invariant ok && FreeRun(bitmap[..], start, j)
      {
        var idx := (start + j) % numFrames;
        if bitmap[idx] != 0 {
          assert Status(bitmap[..], start + j) != 0;
          return false;
        }
      }
    }

    method FirstAligned(align: nat) returns (i: nat)
      requires align > 0
      ensures i == FirstOffset(prevIdx, align)
    {
      FirstOffsetLeast(prevIdx, align);
      i := 0;
      while (i + prevIdx) % align != 0
        invariant i <= FirstOffset(prevIdx, align)
        decreases FirstOffset(prevIdx, align) - i
      {
        assert !Aligned(prevIdx + i, align);
        i := i + 1;
      }
      assert Aligned(prevIdx + i, align);
    }

    method Mark(idx: nat, pages: nat)
      requires idx + pages <= bitmap.Length
      modifies bitmap
      ensures bitmap[..] == Marked(old(bitmap[..]), idx, pages)
    {
      for j := 0 to pages
        invariant bitmap[..] == Marked(old(bitmap[..]), idx, j)
      {
        bitmap[idx + j] := 1;
      }
    }

    /** The scan of this pool alone; without a run nothing changes. */
    method AllocHere(pages: nat, align: nat) returns (found: bool, addr: nat)
      requires Valid() && align > 0 && Safe(State(), pages, align)
      modifies this`prevIdx, bitmap
      ensures Valid()
      ensures found == Scan(old(State()), pages, align).Some?
      ensures found ==> numFrames > 0 && var idx := Scan(old(State()), pages, align).value;
                State() == Taken(old(State()), idx, pages) && addr == AddressOf(idx)
      ensures !found ==> State() == old(State())
    {
      ghost var s := State();
      var i := FirstAligned(align);
      while i < numFrames
        invariant State() == s && Valid() && i >= 0
        invariant Scan(s, pages, align) == ScanFrom(s, i, pages, align)
        decreases numFrames - i
        modifies {}
      {
        var ok := IsFree(prevIdx + i, pages);
        if ok { break; }
        i := i + align;
      }
      if i < numFrames {
        var idx := (prevIdx + i) % numFrames;
        SafeWithin(s, pages, align);
        Mark(idx, pages);
        prevIdx := (idx + pages) % numFrames;
        return true, AddressOf(idx);
      }
      return false, 0;
    }

    method Alloc(pages: nat, align: nat) returns (addr: nat)
      requires WellFounded() && AllValid(Chain()) && align > 0 && ChainSafe(States(Chain()), pages, align)
      modifies (set p | p in Chain())`prevIdx, set p | p in Chain() :: p.bitmap
      ensures AllValid(Chain()) && (addr, States(Chain())) == AllocChain(old(States(Chain())), pages, align)
      decreases |behind|
    {
      hide Scan, FrameScan.Valid, Taken, Safe, AllocChain, AllValid, States, Valid, ChainSafe;
      ghost var s, tail := State(), States(behind);
      ValidCons(this, behind);
      StatesCons(this, behind);
      if this in behind { BehindShorter(this); }
      ChainSafeCons(s, tail, pages, align);
      var found: bool;
      found, addr := AllocHere(pages, align);
      assert States(behind) == tail && AllValid(behind);
      ValidCons(this, behind);
      StatesCons(this, behind);
      if found {
        ChainTakes(s, tail, pages, align);
      } else {
        ChainPasses(s, tail, pages, align);
        if fallback != null {
          assert fallback.Chain() == behind;
          addr := fallback.Alloc(pages, align);
          ValidCons(this, behind);
          StatesCons(this, behind);
        } else {
          addr := 0;
          NoPools(pages, align);
        }
      }
    }
  }

  lemma NoPools(pages: nat, align: nat)
    requires align > 0
    ensures AllocChain([], pages, align) == (0, [])
  {}
}
