/**
  The exact condition on the frames that boot reserves in a pool under which a request never marks
  outside the bitmap, whatever single frames are taken and released before.
*/
module FrameExact {
  import opened Options
  import opened FrameScan
  import opened PhysicalPools
  import opened FrameMap
  import opened PhysicalRuns
  import opened FrameReach
  import opened MemoryLayout

  /** Frame `f` is one of the `pages` that a run from index `x` comes to, modulo `n`. */
  ghost predicate InRun(f: nat, x: nat, pages: nat, n: nat)
    requires n > 0
  {
    exists q: nat :: x <= q < x + pages && q % n == f
  }

  lemma InFreeRun(bits: seq<int>, f: nat, x: nat, pages: nat)
    requires f < |bits| && FreeRun(bits, x, pages)
    ensures InRun(f, x, pages, |bits|) ==> bits[f] == 0
  {
    if InRun(f, x, pages, |bits|) {
      var q: nat :| x <= q < x + pages && q % |bits| == f;
      assert Status(bits, q) == 0;
    }
  }

  /** The run from `y` can be blocked while that from `x` is free: a frame of it is reserved, or not one of `x`'s. */
  ghost predicate Blockable(s0: Pool, y: nat, x: nat, pages: nat)
    requires |s0.bits| > 0
  {
    exists q: nat :: y <= q < y + pages && (Status(s0.bits, q) != 0 || !InRun(q % |s0.bits|, x, pages, |s0.bits|))
  }

  /**
    With the search at `p`, behind a frame that is not reserved, the aligned run from `x` wraps, is
    not reserved, and all aligned runs before it can be blocked.
  */
  ghost predicate Opening(s0: Pool, pages: nat, align: nat, p: nat, x: nat)
    requires align > 0
  {
    && p < |s0.bits| && (p > 0 ==> s0.bits[p - 1] == 0)
    && Candidate(Pool(s0.base, s0.bits, p), x, align)
    && x % |s0.bits| + pages > |s0.bits| && FreeRun(s0.bits, x, pages)
    && forall y: nat | Candidate(Pool(s0.base, s0.bits, p), y, align) && y < x :: Blockable(s0, y, x, pages)
  }

  /** The reserved frames of the pool, as boot leaves them, leave an opening for a request that wraps. */
  ghost predicate CanWrap(s0: Pool, pages: nat, align: nat)
    requires align > 0
  {
    exists p: nat, x: nat :: Opening(s0, pages, align, p, x)
  }

  /** In every state that single frames lead to, the run a request takes in pool `k` lies inside the bitmap. */
  ghost predicate WithinWhateverReached(m: Memory, k: nat, pages: nat, align: nat)
    requires align > 0
  {
    forall m' | Reaches(m, m') && k < |m'.pools| ::
      var s := m'.pools[k];
      Scan(s, pages, align).Some? ==> Within(s.bits, Scan(s, pages, align).value, pages)
  }

  // ---- Without an opening nothing wraps ----

  lemma PinnedAtBoot(m: Memory, k: nat, reserved: set<nat>)
    requires Inv(m, reserved) && k < 3 && Unused(m, k)
    ensures PinnedBy(m, k, m.pools[k], reserved) && Descends(m.pools[k], m.pools[k])
  {
    forall i: nat | i < |m.pools[k].bits|
      ensures m.pools[k].bits[i] != 0 <==> Offset(m.pools, k) + i in reserved
    {
      StatusOf(m, k, i, reserved);
    }
  }

  /** A state in which the request wraps shows an opening. */
  lemma OpeningSeen(s0: Pool, s: Pool, pages: nat, align: nat)
    requires align > 0 && Descends(s0, s) && Scan(s, pages, align).Some?
    requires !Within(s.bits, Scan(s, pages, align).value, pages)
    ensures CanWrap(s0, pages, align)
  {
    var n := |s.bits|;
    var x := ScanSound(s, pages, align);
    forall q: nat | x <= q < x + pages ensures Status(s0.bits, q) == 0 {
      assert Status(s.bits, q) == 0;
    }
    forall y: nat | Candidate(Pool(s0.base, s0.bits, s.prev), y, align) && y < x ensures Blockable(s0, y, x, pages) {
      assert Candidate(s, y, align);
      var q: nat :| y <= q < y + pages && Status(s.bits, q) != 0;
      InFreeRun(s.bits, q % n, x, pages);
    }
    assert Opening(s0, pages, align, s.prev, x);
  }

  /** Without an opening, no run of permitted requests of any size leads to a state in which the request wraps. */
  lemma NeverWraps(m: Memory, ops: seq<Op>, k: nat, pages: nat, align: nat, reserved: set<nat>)
    requires Inv(m, reserved) && k < 3 && Unused(m, k) && align > 0 && !CanWrap(m.pools[k], pages, align)
    requires AllPermitted(m, ops)
    ensures |Run(m, ops).pools| == 3
    ensures var s := Run(m, ops).pools[k];
      Scan(s, pages, align).Some? ==> Within(s.bits, Scan(s, pages, align).value, pages)
  {
    hide Accounted, Flat, Scan, Within, Opening, Descends, Run, AllPermitted, CanWrap;
    PinnedAtBoot(m, k, reserved);
    RunDescends(m, ops, k, m.pools[k], reserved);
    var s := Run(m, ops).pools[k];
    if Scan(s, pages, align).Some? && !Within(s.bits, Scan(s, pages, align).value, pages) {
      OpeningSeen(m.pools[k], s, pages, align);
    }
  }

  // ---- With one, single frames lead there ----

  ghost function FreeIndices(s: Pool): set<nat> {
    set i: nat | i < |s.bits| && s.bits[i] == 0
  }

  /** The shape that matters: pool `k` keeps its place and size. */
  ghost predicate SamePlace(m: Memory, m': Memory, k: nat) {
    && |m.pools| == 3 && |m'.pools| == 3 && k < 3
    && |m'.pools[k].bits| == |m.pools[k].bits| && Offset(m'.pools, k) == Offset(m.pools, k)
  }

  /** All frames that are left taken one after the other. */
  lemma {:induction false} FillPool(m0: Memory, m: Memory, k: nat, reserved: set<nat>) returns (m': Memory)
    requires Inv(m, reserved) && k < 3 && Reaches(m0, m)
    ensures Inv(m', reserved) && Reaches(m0, m') && SamePlace(m, m', k)
    ensures forall i | 0 <= i < |m'.pools[k].bits| :: m'.pools[k].bits[i] != 0
    decreases FreeIndices(m.pools[k])
  {
    hide Accounted, Flat, Permitted, Next, Reaches;
    if i :| 0 <= i < |m.pools[k].bits| && m.pools[k].bits[i] == 0 {
      var j := TakeFrame(m, k, reserved);
      var m1 := Next(m, Alloc(k, 1, 1));
      ReachesNext(m0, m, Alloc(k, 1, 1));
      SameOffsets(m.pools, m1.pools, k);
      assert j in FreeIndices(m.pools[k]) && j !in FreeIndices(m1.pools[k]);
      m' := FillPool(m0, m1, k, reserved);
    } else {
      m' := m;
    }
  }

  /** Frame `i` released. */
  lemma Release(m0: Memory, m: Memory, k: nat, i: nat, reserved: set<nat>) returns (m': Memory)
    requires Inv(m, reserved) && k < 3 && Reaches(m0, m) && i < |m.pools[k].bits| && Held(m, k, i)
    ensures Inv(m', reserved) && Reaches(m0, m') && SamePlace(m, m', k)
    ensures m'.pools[k] == m.pools[k].(bits := m.pools[k].bits[i := 0])
  {
    hide Accounted, Flat, Permitted, Next, Reaches;
    ReturnFrame(m, k, i, reserved);
    var op := Free((Offset(m.pools, k) + i) * PAGE_SIZE, 1);
    ReachesNext(m0, m, op);
    m' := Next(m, op);
    SameOffsets(m.pools, m'.pools, k);
  }

  /** A full pool, its search moved behind a frame that is not reserved. */
  lemma MoveSearch(m0: Memory, m: Memory, k: nat, i: nat, reserved: set<nat>) returns (m': Memory)
    requires Inv(m, reserved) && k < 3 && Reaches(m0, m) && i < |m.pools[k].bits| && Held(m, k, i)
    requires forall j | 0 <= j < |m.pools[k].bits| :: m.pools[k].bits[j] != 0
    ensures Inv(m', reserved) && Reaches(m0, m') && SamePlace(m, m', k)
    ensures m'.pools[k].prev == (i + 1) % |m.pools[k].bits|
    ensures forall j | 0 <= j < |m'.pools[k].bits| :: m'.pools[k].bits[j] != 0
  {
    hide Accounted, Flat, Permitted, Next, Reaches;
    var m1 := Release(m0, m, k, i, reserved);
    assert m1.pools[k].bits[i] == 0;
    var j := TakeFrame(m1, k, reserved);
    ReachesNext(m0, m1, Alloc(k, 1, 1));
    m' := Next(m1, Alloc(k, 1, 1));
    SameOffsets(m1.pools, m'.pools, k);
  }

  /** The frames of the run from `x` that lie before `j` released. */
  lemma {:induction false} ClearRun(m0: Memory, m: Memory, k: nat, x: nat, pages: nat, j: nat, reserved: set<nat>)
    returns (m': Memory)
    requires Inv(m, reserved) && k < 3 && Reaches(m0, m) && j <= |m.pools[k].bits|
    requires forall f | 0 <= f < |m.pools[k].bits| :: m.pools[k].bits[f] != 0
    requires forall f: nat | f < |m.pools[k].bits| && InRun(f, x, pages, |m.pools[k].bits|) ::
               Offset(m.pools, k) + f !in reserved
    ensures Inv(m', reserved) && Reaches(m0, m') && SamePlace(m, m', k) && m'.pools[k].prev == m.pools[k].prev
    ensures forall f: nat | f < |m.pools[k].bits| ::
              m'.pools[k].bits[f] == 0 <==> f < j && InRun(f, x, pages, |m.pools[k].bits|)
    decreases j
  {
    hide Accounted, Flat, Reaches, InRun;
    if j == 0 {
      m' := m;
    } else {
      var i := j - 1;
      var m1 := ClearRun(m0, m, k, x, pages, i, reserved);
      if InRun(i, x, pages, |m.pools[k].bits|) {
        StatusOf(m1, k, i, reserved);
        m' := Release(m0, m1, k, i, reserved);
      } else {
        m' := m1;
      }
    }
  }

  /** With exactly the frames outside the run from `x` in use, the search takes that run. */
  lemma RunTaken(s0: Pool, s: Pool, pages: nat, align: nat, x: nat)
    requires align > 0 && |s.bits| == |s0.bits| && Opening(s0, pages, align, s.prev, x)
    requires forall f: nat | f < |s.bits| :: s.bits[f] == 0 <==> InRun(f, x, pages, |s.bits|)
    ensures Scan(s, pages, align).Some? && !Within(s.bits, Scan(s, pages, align).value, pages)
  {
    var n := |s.bits|;
    assert Candidate(s, x, align);
    forall q: nat | x <= q < x + pages ensures Status(s.bits, q) == 0 {
      assert InRun(q % n, x, pages, n);
    }
    forall y: nat | Candidate(s, y, align) && y < x ensures !FreeRun(s.bits, y, pages) {
      assert Candidate(Pool(s0.base, s0.bits, s.prev), y, align) && Blockable(s0, y, x, pages);
      BlockedRun(s0, s, y, x, pages);
    }
    FindsRunIff(s, pages, align);
    var taken := ScanSound(s, pages, align);
    assert taken == x;
  }

  lemma BlockedRun(s0: Pool, s: Pool, y: nat, x: nat, pages: nat)
    requires |s.bits| == |s0.bits| > 0 && FreeRun(s0.bits, x, pages) && Blockable(s0, y, x, pages)
    requires forall f: nat | f < |s.bits| :: s.bits[f] == 0 <==> InRun(f, x, pages, |s.bits|)
    ensures !FreeRun(s.bits, y, pages)
  {
    var n := |s.bits|;
    var q: nat :| y <= q < y + pages && (Status(s0.bits, q) != 0 || !InRun(q % n, x, pages, n));
    InFreeRun(s0.bits, q % n, x, pages);
    assert Status(s.bits, q) != 0;
  }

  /** The frame that is taken last to bring the search to the opening. */
  lemma SearchFrame(s0: Pool, pages: nat, align: nat, p: nat, x: nat) returns (i: nat)
    requires align > 0 && Opening(s0, pages, align, p, x)
    ensures i < |s0.bits| && s0.bits[i] == 0 && (i + 1) % |s0.bits| == p && FreeRun(s0.bits, x, pages)
  {
    WrappedRunMeetsEnds(Pool(s0.base, s0.bits, p), x, pages);
    i := if p > 0 then p - 1 else |s0.bits| - 1;
  }

  /** The pool filled, the search moved behind frame `i`, and the run from `x` released. */
  lemma ReachRun(m: Memory, k: nat, i: nat, x: nat, pages: nat, reserved: set<nat>) returns (m': Memory)
    requires Inv(m, reserved) && k < 3 && Unused(m, k) && i < |m.pools[k].bits| && m.pools[k].bits[i] == 0
    requires forall f: nat | f < |m.pools[k].bits| && InRun(f, x, pages, |m.pools[k].bits|) :: m.pools[k].bits[f] == 0
    ensures Reaches(m, m') && Inv(m', reserved) && |m'.pools[k].bits| == |m.pools[k].bits|
    ensures m'.pools[k].prev == (i + 1) % |m.pools[k].bits|
    ensures forall f: nat | f < |m.pools[k].bits| ::
              m'.pools[k].bits[f] == 0 <==> InRun(f, x, pages, |m.pools[k].bits|)
  {
    hide Accounted, Flat, Reaches, InRun;
    PinnedAtBoot(m, k, reserved);
    ReachesSelf(m);
    var m1 := FillPool(m, m, k, reserved);
    StatusOf(m1, k, i, reserved);
    var m2 := MoveSearch(m, m1, k, i, reserved);
    m' := ClearRun(m, m2, k, x, pages, |m.pools[k].bits|, reserved);
  }

  /** Filling the pool, moving the search, and releasing the run leads to a state in which the request wraps. */
  lemma ReachOpening(m: Memory, k: nat, pages: nat, align: nat, p: nat, x: nat, reserved: set<nat>) returns (m': Memory)
    requires Inv(m, reserved) && k < 3 && Unused(m, k) && align > 0 && Opening(m.pools[k], pages, align, p, x)
    ensures Reaches(m, m') && |m'.pools| == 3
    ensures var s := m'.pools[k];
      Scan(s, pages, align).Some? && !Within(s.bits, Scan(s, pages, align).value, pages)
  {
    hide Accounted, Flat, Reaches, Scan, Blockable, Opening, InRun, Unused;
    var s0, n := m.pools[k], |m.pools[k].bits|;
    var i := SearchFrame(s0, pages, align, p, x);
    forall f: nat | f < n && InRun(f, x, pages, n) ensures s0.bits[f] == 0 {
      InFreeRun(s0.bits, f, x, pages);
    }
    m' := ReachRun(m, k, i, x, pages, reserved);
    RunTaken(s0, m'.pools[k], pages, align, x);
  }

  /**
    From the pool that boot leaves, no run of single frames leads to a state in which the request
    marks outside the bitmap, exactly when the reserved frames leave no opening for it.
  */
  lemma ReachableWithinIff(m: Memory, k: nat, pages: nat, align: nat, reserved: set<nat>)
    requires Inv(m, reserved) && k < 3 && Unused(m, k) && align > 0
    ensures WithinWhateverReached(m, k, pages, align) <==> !CanWrap(m.pools[k], pages, align)
  {
    hide Accounted, Flat, Scan, Within, Opening, Descends, Run, AllPermitted;
    if CanWrap(m.pools[k], pages, align) {
      var p: nat, x: nat :| Opening(m.pools[k], pages, align, p, x);
      var m' := ReachOpening(m, k, pages, align, p, x, reserved);
    } else {
      forall m' | Reaches(m, m') && k < |m'.pools| && Scan(m'.pools[k], pages, align).Some?
        ensures Within(m'.pools[k].bits, Scan(m'.pools[k], pages, align).value, pages)
      {
        var ops :| Leads(m, ops, m');
        NeverWraps(m, ops, k, pages, align, reserved);
      }
    }
  }

  // ---- What the condition comes to ----

  /** A reserved frame at either end of the pool leaves no opening. */
  lemma EdgeLeavesNone(s0: Pool, pages: nat, align: nat)
    requires align > 0 && Edged(s0)
    ensures !CanWrap(s0, pages, align)
  {
    forall p: nat, x: nat ensures !Opening(s0, pages, align, p, x) {
      if Opening(s0, pages, align, p, x) {
        WrappedRunMeetsEnds(Pool(s0.base, s0.bits, p), x, pages);
      }
    }
  }

  /** Without reserved frames there is an opening exactly for the requests that do not fit behind the largest start. */
  lemma NoneReservedIff(s0: Pool, pages: nat, align: nat)
    requires align > 0 && forall i | 0 <= i < |s0.bits| :: s0.bits[i] == 0
    ensures CanWrap(s0, pages, align) <==> !Fits(|s0.bits|, pages, align)
  {
    var n := |s0.bits|;
    if Fits(n, pages, align) {
      forall p: nat, x: nat ensures !Opening(s0, pages, align, p, x) {
        if Opening(s0, pages, align, p, x) {
          StartBound(Pool(s0.base, s0.bits, p), x, align);
        }
      }
    } else {
      var s := FailingState(s0.base, n, pages, align);
      OpeningSeen(s0, s, pages, align);
    }
  }
}
