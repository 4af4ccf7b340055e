/**
  The aligned next-fit scan of one physical pool, on values: which start it takes, when the marked
  run stays inside the bitmap, and what a failed scan says.
*/
module FrameScan {
  import opened Options
  import opened Arithmetic

  /** `_base`, the status words and `_prev_idx`; `_num_pageframes` is the number of status words. */
  datatype Pool = Pool(base: nat, bits: seq<int>, prev: nat)

  ghost predicate Valid(s: Pool) {
    s.prev < |s.bits| || (s.prev == 0 && |s.bits| == 0)
  }

  ghost predicate Aligned(x: nat, align: nat)
    requires align > 0
  {
    x % align == 0
  }

  /** The status word that the check reads for index `p`: it wraps round the end of the pool. */
  ghost function Status(bits: seq<int>, p: nat): int
    requires |bits| > 0
  {
    bits[p % |bits|]
  }

  /** The check of a run of `pages` frames from index `x`. */
  ghost predicate FreeRun(bits: seq<int>, x: nat, pages: nat)
    requires |bits| > 0
  {
    forall p: nat | x <= p < x + pages :: Status(bits, p) == 0
  }

  /** The first frames it marks: without wrapping. */
  ghost predicate Within(bits: seq<int>, idx: nat, pages: nat) {
    idx + pages <= |bits|
  }

  /** How far the first aligned index lies from `prev`. */
  ghost function FirstOffset(prev: nat, align: nat): nat
    requires align > 0
  {
    (align - prev % align) % align
  }

  lemma FirstOffsetLeast(prev: nat, align: nat)
    requires align > 0
    ensures FirstOffset(prev, align) < align && Aligned(prev + FirstOffset(prev, align), align)
    ensures forall p: nat | prev <= p < prev + FirstOffset(prev, align) :: !Aligned(p, align)
  {
    var r, q := prev % align, prev / align;
    if r == 0 {
      ModUnique(align, 1, align, 0);
    } else {
      ModUnique(align - r, 0, align, align - r);
      ModUnique(prev + (align - r), q + 1, align, 0) by { FullStep(prev, align); }
      forall p: nat | prev <= p < prev + (align - r) ensures !Aligned(p, align) {
        ModUnique(p, q, align, r + (p - prev));
      }
    }
  }

  lemma FullStep(prev: nat, align: nat)
    requires align > 0
    ensures prev + (align - prev % align) == (prev / align + 1) * align
  {}

  /** The start that the scan takes when it has reached offset `i` from `prev`. */
  ghost function ScanFrom(s: Pool, i: nat, pages: nat, align: nat): (r: Option<nat>)
    requires align > 0
    ensures r.Some? ==> r.value < |s.bits|
    decreases |s.bits| - i
  {
    if i >= |s.bits| then None
    else if FreeRun(s.bits, s.prev + i, pages) then Some((s.prev + i) % |s.bits|)
    else ScanFrom(s, i + align, pages, align)
  }

  ghost function Scan(s: Pool, pages: nat, align: nat): (r: Option<nat>)
    requires align > 0
    ensures r.Some? ==> r.value < |s.bits|
  {
    ScanFrom(s, FirstOffset(s.prev, align), pages, align)
  }

  /** `x` is an aligned index that the scan starting at `prev` may come to. */
  ghost predicate Candidate(s: Pool, x: nat, align: nat)
    requires align > 0
  {
    Aligned(x, align) && s.prev <= x < s.prev + |s.bits|
  }

  lemma {:induction false} ScanFromSound(s: Pool, i: nat, pages: nat, align: nat) returns (x: nat)
    requires align > 0 && Aligned(s.prev + i, align) && ScanFrom(s, i, pages, align).Some?
    ensures Candidate(s, x, align) && FreeRun(s.bits, x, pages)
    ensures forall y: nat | s.prev + i <= y < x && Aligned(y, align) :: !FreeRun(s.bits, y, pages)
    ensures ScanFrom(s, i, pages, align).value == x % |s.bits|
    decreases |s.bits| - i
  {
    if FreeRun(s.bits, s.prev + i, pages) {
      x := s.prev + i;
    } else {
      NextMultiple(s.prev + i, align);
      x := ScanFromSound(s, i + align, pages, align);
    }
  }

  lemma NextMultiple(x: nat, align: nat)
    requires align > 0 && Aligned(x, align)
    ensures Aligned(x + align, align)
    ensures forall y: nat | x < y < x + align :: !Aligned(y, align)
  {
    var q := x / align;
    ModUnique(x + align, q + 1, align, 0);
    forall y: nat | x < y < x + align ensures !Aligned(y, align) {
      ModUnique(y, q, align, y - x);
    }
  }

  /** The scan gives up only when no aligned index within one round starts a free run. */
  lemma {:induction false} ScanFromComplete(s: Pool, i: nat, pages: nat, align: nat)
    requires align > 0 && Aligned(s.prev + i, align) && ScanFrom(s, i, pages, align).None?
    ensures forall x: nat | s.prev + i <= x < s.prev + |s.bits| && Aligned(x, align) :: !FreeRun(s.bits, x, pages)
    decreases |s.bits| - i
  {
    if i < |s.bits| {
      NextMultiple(s.prev + i, align);
      ScanFromComplete(s, i + align, pages, align);
    }
  }

  lemma ScanSound(s: Pool, pages: nat, align: nat) returns (x: nat)
    requires align > 0 && Scan(s, pages, align).Some?
    ensures Candidate(s, x, align) && FreeRun(s.bits, x, pages)
    ensures forall y: nat | Candidate(s, y, align) && y < x :: !FreeRun(s.bits, y, pages)
    ensures Scan(s, pages, align).value == x % |s.bits|
  {
    FirstOffsetLeast(s.prev, align);
    x := ScanFromSound(s, FirstOffset(s.prev, align), pages, align);
  }

  lemma ScanComplete(s: Pool, x: nat, pages: nat, align: nat)
    requires align > 0 && Scan(s, pages, align).None? && Candidate(s, x, align)
    ensures !FreeRun(s.bits, x, pages)
  {
    FirstOffsetLeast(s.prev, align);
    ScanFromComplete(s, FirstOffset(s.prev, align), pages, align);
  }

  /** Some aligned index within one round starts a free run. */
  ghost predicate HasRun(s: Pool, pages: nat, align: nat)
    requires align > 0
  {
    exists x: nat :: Candidate(s, x, align) && FreeRun(s.bits, x, pages)
  }

  lemma FindsRunIff(s: Pool, pages: nat, align: nat)
    requires align > 0
    ensures Scan(s, pages, align).Some? <==> HasRun(s, pages, align)
  {
    if Scan(s, pages, align).Some? {
      var x := ScanSound(s, pages, align);
    } else {
      forall x: nat | Candidate(s, x, align) ensures !FreeRun(s.bits, x, pages) {
        ScanComplete(s, x, pages, align);
      }
    }
  }

  // ---- Where the run lies in the bitmap ----

  lemma Reduce(x: nat, n: nat, prev: nat)
    requires 0 < n && prev < n && prev <= x < prev + n
    ensures x % n == if x < n then x else x - n
  {
    if x < n { ModUnique(x, 0, n, x); } else { ModUnique(x, 1, n, x - n); }
  }

  /** A checked run that does not wrap is the run of frames itself. */
  lemma UnwrappedRun(s: Pool, x: nat, pages: nat)
    requires Valid(s) && s.prev <= x < s.prev + |s.bits| && FreeRun(s.bits, x, pages)
    requires x % |s.bits| + pages <= |s.bits|
    ensures forall k | x % |s.bits| <= k < x % |s.bits| + pages :: s.bits[k] == 0
  {
    var n := |s.bits|;
    Reduce(x, n, s.prev);
    forall k | x % n <= k < x % n + pages ensures s.bits[k] == 0 {
      var j := k - x % n;
      if x < n { ModUnique(x + j, 0, n, k); } else { ModUnique(x + j, 1, n, k); }
      assert Status(s.bits, x + j) == 0;
    }
  }

  /** The largest index that any state of a pool of `n` frames can choose as the start of a run. */
  ghost function MaxStart(n: nat, align: nat): int
    requires n > 0 && align > 0
  {
    var low, high := LastMultiple(n - 1, align), LastMultiple(2 * n - 2, align) - n;
    if low < high then high else low
  }

  ghost function LastMultiple(x: nat, align: nat): (m: nat)
    requires align > 0
    ensures m <= x
  {
    x - x % align
  }

  lemma LastMultipleIs(x: nat, align: nat, y: nat)
    requires align > 0
    ensures Aligned(LastMultiple(x, align), align)
    ensures Aligned(y, align) && y <= x ==> y <= LastMultiple(x, align)
  {
    var q := x / align;
    ModUnique(LastMultiple(x, align), q, align, 0);
    if Aligned(y, align) && x - x % align < y <= x {
      ModUnique(y, q, align, y - (x - x % align));
    }
  }

  /** The run fits behind the largest possible start, whatever is in use. */
  ghost predicate Fits(n: nat, pages: nat, align: nat)
    requires align > 0
  {
    n == 0 || MaxStart(n, align) + pages <= n
  }

  lemma StartBound(s: Pool, x: nat, align: nat)
    requires align > 0 && Valid(s) && Candidate(s, x, align)
    ensures x % |s.bits| <= MaxStart(|s.bits|, align)
  {
    var n := |s.bits|;
    Reduce(x, n, s.prev);
    if x < n { LastMultipleIs(n - 1, align, x); } else { LastMultipleIs(2 * n - 2, align, x); }
  }

  lemma FitsWithin(s: Pool, pages: nat, align: nat)
    requires align > 0 && Valid(s) && Fits(|s.bits|, pages, align) && Scan(s, pages, align).Some?
    ensures Within(s.bits, Scan(s, pages, align).value, pages)
    ensures forall k | Scan(s, pages, align).value <= k < Scan(s, pages, align).value + pages :: s.bits[k] == 0
  {
    var x := ScanSound(s, pages, align);
    StartBound(s, x, align);
    UnwrappedRun(s, x, pages);
  }

  /** The first or the last frame is in use, and one of them is in every run that wraps. */
  ghost predicate Edged(s: Pool) {
    |s.bits| > 0 && (s.bits[0] != 0 || s.bits[|s.bits| - 1] != 0)
  }

  /**
    What a caller can check of a pool before it asks for a run: before any free aligned run that
    wraps round the end, counted from the search position, there is another free one.
  */
  ghost predicate Safe(s: Pool, pages: nat, align: nat)
    requires align > 0
  {
    forall x: nat | Candidate(s, x, align) && x % |s.bits| + pages > |s.bits| && FreeRun(s.bits, x, pages) ::
      exists y: nat :: y < x && Candidate(s, y, align) && FreeRun(s.bits, y, pages)
  }

  /** A checked run that wraps has met both ends of the pool. */
  lemma WrappedRunMeetsEnds(s: Pool, x: nat, pages: nat)
    requires Valid(s) && s.prev <= x < s.prev + |s.bits| && FreeRun(s.bits, x, pages)
    requires x % |s.bits| + pages > |s.bits|
    ensures s.bits[0] == 0 && s.bits[|s.bits| - 1] == 0
  {
    var n, idx := |s.bits|, x % |s.bits|;
    Reduce(x, n, s.prev);
    ModUnique(x + (n - idx), if x < n then 1 else 2, n, 0);
    ModUnique(x + (n - 1 - idx), if x < n then 0 else 1, n, n - 1);
    assert Status(s.bits, x + (n - idx)) == 0 && Status(s.bits, x + (n - 1 - idx)) == 0;
  }

  /** A request that fits is safe in every state, and with a frame at either end in use every request is. */
  lemma SafeWhen(s: Pool, pages: nat, align: nat)
    requires align > 0 && Valid(s) && (Fits(|s.bits|, pages, align) || Edged(s))
    ensures Safe(s, pages, align)
  {
    forall x: nat | Candidate(s, x, align) && x % |s.bits| + pages > |s.bits| ensures !FreeRun(s.bits, x, pages) {
      StartBound(s, x, align);
      if FreeRun(s.bits, x, pages) { WrappedRunMeetsEnds(s, x, pages); }
    }
  }

  /** A pool is safe for a request exactly when the run the request takes in it lies inside the bitmap. */
  lemma SafeIff(s: Pool, pages: nat, align: nat)
    requires align > 0
    ensures Safe(s, pages, align) <==>
            (Scan(s, pages, align).Some? ==> Within(s.bits, Scan(s, pages, align).value, pages))
  {
    FindsRunIff(s, pages, align);
    if Scan(s, pages, align).Some? {
      var x := ScanSound(s, pages, align);
    }
  }

  /** In a safe pool the run that is marked is the run that was checked, inside the bitmap and wholly free. */
  lemma SafeWithin(s: Pool, pages: nat, align: nat)
    requires align > 0 && Valid(s) && Safe(s, pages, align) && Scan(s, pages, align).Some?
    ensures Within(s.bits, Scan(s, pages, align).value, pages)
    ensures forall k | Scan(s, pages, align).value <= k < Scan(s, pages, align).value + pages :: s.bits[k] == 0
  {
    var x := ScanSound(s, pages, align);
    UnwrappedRun(s, x, pages);
  }

  /** In an empty pool the scan takes its first candidate. */
  lemma EmptyPoolStart(base: nat, n: nat, prev: nat, pages: nat, align: nat)
    requires align > 0 && prev < n && Aligned(prev, align)
    ensures Scan(Pool(base, seq(n, _ => 0), prev), pages, align) == Some(prev)
  {
    FirstOffsetLeast(prev, align);
    ModUnique(prev, 0, n, prev);
  }

  /** Frames block..high-1 in use: from the last frame the scan comes to `high` only. */
  lemma CrowdedPoolStart(base: nat, n: nat, pages: nat, align: nat) returns (s: Pool)
    requires align > 0 && n > 0 && MaxStart(n, align) > LastMultiple(n - 1, align)
    requires 0 < pages && LastMultiple(n - 1, align) + pages <= n
    ensures s.base == base && |s.bits| == n && s.prev == n - 1 && s.bits[n - 1] == 0
    ensures (forall k | 0 <= k < n :: s.bits[k] == 0 || s.bits[k] == 1)
    ensures Scan(s, pages, align) == Some(MaxStart(n, align))
  {
    var low, x := LastMultiple(n - 1, align), LastMultiple(2 * n - 2, align);
    LastMultipleIs(n - 1, align, 0);
    LastMultipleIs(2 * n - 2, align, 0);
    NextMultiple(low, align);
    NextMultiple(x, align);
    var high, block := x - n, low + align - n;
    s := Pool(base, seq(n, k => if block <= k < high then 1 else 0), n - 1);
    DoubledStart(n, align);
    forall p: nat | x <= p < x + pages ensures Status(s.bits, p) == 0 {
      if p < 2 * n { ModUnique(p, 1, n, p - n); } else { ModUnique(p, 2, n, p - 2 * n); }
    }
    forall y: nat | Candidate(s, y, align) && y != x ensures Status(s.bits, y) == 1 {
      Reduce(y, n, n - 1);
      LastMultipleIs(2 * n - 2, align, y);
    }
    if Scan(s, pages, align).None? {
      ScanComplete(s, x, pages, align);
    } else {
      var y := ScanSound(s, pages, align);
      assert Status(s.bits, y) == 0;
      Reduce(x, n, n - 1);
    }
  }

  /** When wrapping gives the larger start, the bits before the block cover what the run wraps to. */
  lemma DoubledStart(n: nat, align: nat)
    requires align > 0 && n > 0 && MaxStart(n, align) > LastMultiple(n - 1, align)
    ensures n < LastMultiple(n - 1, align) + align < n + align
    ensures 0 < LastMultiple(n - 1, align) + align <= LastMultiple(2 * n - 2, align) ==
            2 * LastMultiple(n - 1, align) + align
  {
    var q, r := (n - 1) / align, (n - 1) % align;
    if 2 * r < align {
      ModUnique(2 * n - 2, 2 * q, align, 2 * r) by { Twice(n - 1, align, q, r); }
    } else {
      ModUnique(2 * n - 2, 2 * q + 1, align, 2 * r - align) by { Twice(n - 1, align, q, r); }
    }
  }

  lemma Twice(x: nat, align: nat, q: nat, r: nat)
    requires align > 0 && q == x / align && r == x % align
    ensures 2 * x == 2 * q * align + 2 * r && 2 * x == (2 * q + 1) * align + (2 * r - align)
  {}

  /**
    A pool whose request does not fit has a state, of frames in use before its position, that marks
    outside the bitmap.
  */
  lemma FailingState(base: nat, n: nat, pages: nat, align: nat) returns (s: Pool)
    requires align > 0 && n > 0 && !Fits(n, pages, align)
    ensures s.base == base && |s.bits| == n && s.prev < n
    ensures forall k | 0 <= k < n :: s.bits[k] == 0 || (k < s.prev && s.bits[k] == 1)
    ensures Scan(s, pages, align).Some? && !Within(s.bits, Scan(s, pages, align).value, pages)
  {
    var low := LastMultiple(n - 1, align);
    LastMultipleIs(n - 1, align, 0);
    MaxStartBound(n, align);
    if low + pages > n {
      EmptyPoolStart(base, n, low, pages, align);
      s := Pool(base, seq(n, _ => 0), low);
    } else {
      s := CrowdedPoolStart(base, n, pages, align);
    }
  }

  lemma MaxStartBound(n: nat, align: nat)
    requires n > 0 && align > 0
    ensures LastMultiple(n - 1, align) <= MaxStart(n, align) < n
  {}

  /** Without alignment only single frames fit. */
  lemma UnalignedFits(n: nat, pages: nat)
    requires n > 0
    ensures Fits(n, pages, 1) <==> pages <= 1
  {}

  /** The case the callers rely on: the alignment divides the pool and covers the run. */
  lemma DividedPoolFits(n: nat, pages: nat, align: nat)
    requires align > 0 && Aligned(n, align) && pages <= align
    ensures Fits(n, pages, align)
  {
    if n > 0 {
      var q := n / align;
      PrecedingMultiple(n, align);
      ModUnique(n - 1, q - 1, align, align - 1);
      Twice(n - 1, align, q - 1, align - 1);
      if align > 1 { ModUnique(2 * n - 2, 2 * q - 1, align, align - 2); }
    }
  }

  lemma PrecedingMultiple(n: nat, align: nat)
    requires align > 0 && n > 0 && Aligned(n, align)
    ensures n / align >= 1 && n - 1 == (n / align - 1) * align + (align - 1)
  {}

  /** In such a pool the run starts at an aligned index of the pool and was wholly free. */
  lemma DividedPoolTakes(s: Pool, pages: nat, align: nat)
    requires align > 0 && Valid(s) && Aligned(|s.bits|, align) && pages <= align && Scan(s, pages, align).Some?
    ensures var idx := Scan(s, pages, align).value;
      Aligned(idx, align) && idx + pages <= |s.bits| && forall k | idx <= k < idx + pages :: s.bits[k] == 0
  {
    DividedPoolFits(|s.bits|, pages, align);
    FitsWithin(s, pages, align);
    var x := ScanSound(s, pages, align);
    Reduce(x, |s.bits|, s.prev);
    if x >= |s.bits| { AlignedDifference(x, |s.bits|, align); }
  }

  lemma AlignedDifference(x: nat, n: nat, align: nat)
    requires align > 0 && n <= x && Aligned(x, align) && Aligned(n, align)
    ensures Aligned(x - n, align)
  {
    var q, k := x / align, n / align;
    assert x - n == (q - k) * align + 0;
    MulSign(q - k, align);
    ModUnique(x - n, q - k, align, 0);
  }

  /** It gives up only when every aligned run of the pool has a frame in use. */
  lemma DividedPoolGivesUp(s: Pool, idx: nat, pages: nat, align: nat)
    requires align > 0 && Valid(s) && Aligned(|s.bits|, align) && pages <= align && Scan(s, pages, align).None?
    requires 0 < pages && Aligned(idx, align) && idx + pages <= |s.bits|
    ensures exists k | idx <= k < idx + pages :: s.bits[k] != 0
  {
    var n := |s.bits|;
    var x := if idx < s.prev then idx + n else idx;
    if idx < s.prev { AlignedSum(idx, n, align); }
    ScanComplete(s, x, pages, align);
    var p: nat :| x <= p < x + pages && Status(s.bits, p) != 0;
    ModUnique(p, if idx < s.prev then 1 else 0, n, p - x + idx);
    assert s.bits[p - x + idx] != 0;
  }

  lemma AlignedSum(x: nat, n: nat, align: nat)
    requires align > 0 && Aligned(x, align) && Aligned(n, align)
    ensures Aligned(x + n, align)
  {
    var q, k := x / align, n / align;
    assert x + n == (q + k) * align + 0;
    ModUnique(x + n, q + k, align, 0);
  }

  /** A single frame is found exactly when one is free. */
  lemma FindsFrameIff(s: Pool)
    requires Valid(s)
    ensures Scan(s, 1, 1).Some? <==> exists k :: 0 <= k < |s.bits| && s.bits[k] == 0
  {
    if Scan(s, 1, 1).Some? {
      DividedPoolTakes(s, 1, 1);
      assert s.bits[Scan(s, 1, 1).value] == 0;
    } else {
      forall k: nat | k < |s.bits| ensures s.bits[k] != 0 {
        DividedPoolGivesUp(s, k, 1, 1);
      }
    }
  }
}
