/** Runs of demand faults: the handler of `Paging` fed by the frame allocator of `PhysicalRuns`. */
module DemandPaging {
  import opened MemoryLayout
  import opened Options
  import opened FrameMap
  import opened PhysicalRuns
  import opened PhysicalMemory
  import P = PageWalk
  import Paging

  datatype Fault = Fault(err: bv32, va: P.Address)

  /** The address space, the frame allocator, and the pages filled in so far with their frames. */
  datatype System = System(space: P.Space, memory: Memory, filled: map<nat, nat>)

  function Page(va: P.Address): nat { va / PAGE_SIZE }

  /** One frame from the highest pool, as `alloc_pages_himem()` asks for. */
  ghost function Answer(s: System): nat
    requires Tiled(s.memory.pools)
  {
    SingleFrameSafe(s.memory, HIMEM);
    Result(s.memory, Alloc(HIMEM, 1, 1))
  }

  ghost predicate Sound(s: System, reserved: set<nat>) {
    && Inv(s.memory, reserved) && |Flat(s.memory.pools)| <= 0x10_0000
    && P.WellFormed(s.space) && P.Unshared(s.space) && Paging.DirectoryUnmarked(s.space)
  }

  /** Every page filled in is mapped to its frame, and no two pages share a frame or use a reserved one. */
  ghost predicate Filled(s: System)
    requires P.Closed(s.space)
  {
    && (forall va: P.Address | Page(va) in s.filled ::
          P.Walk(s.space, va) == Some(s.filled[Page(va)] * PAGE_SIZE + va % PAGE_SIZE))
    && (forall p | p in s.filled :: s.filled[p] in s.memory.owned)
    && forall p, q | p in s.filled && q in s.filled && p != q :: s.filled[p] != s.filled[q]
  }

  /** The processor reports a page that is not present only when its walk fails. */
  ghost predicate Genuine(s: System, f: Fault)
    requires P.Closed(s.space)
  {
    f.err & 0x1 == 0 && f.err & 0x8 == 0 ==> P.Walk(s.space, f.va).None?
  }

  /** The fault makes the handler fill in a page, and the allocator has a frame for it. */
  ghost predicate Fillable(s: System, f: Fault)
    requires Tiled(s.memory.pools) && P.WellFormed(s.space)
  {
    Paging.DemandFault(s.space, f.err, f.va) ==> Answer(s) != 0
  }

  ghost function Step(s: System, f: Fault, reserved: set<nat>): System
    requires Sound(s, reserved)
  {
    if !Paging.DemandFault(s.space, f.err, f.va) then s
    else
      AnswerIsAddress(s, reserved);
      System(Paging.FaultedIn(s.space, f.va, Answer(s)), Next(s.memory, Alloc(HIMEM, 1, 1)),
             s.filled[Page(f.va) := Answer(s) / PAGE_SIZE])
  }

  lemma AnswerIsAddress(s: System, reserved: set<nat>)
    requires Sound(s, reserved)
    ensures Permitted(s.memory, Alloc(HIMEM, 1, 1)) && Answer(s) < 0x1_0000_0000 && Answer(s) % PAGE_SIZE == 0
    ensures Answer(s) / PAGE_SIZE < 0x10_0000
    ensures Answer(s) != 0 ==> Answer(s) / PAGE_SIZE < |Flat(s.memory.pools)|
  {
    SingleFrameSafe(s.memory, HIMEM);
    var k := AllocGrants(s.memory.pools, HIMEM, 1, 1);
  }

  lemma FrameTaken(m: Memory, reserved: set<nat>)
    requires Inv(m, reserved) && Permitted(m, Alloc(HIMEM, 1, 1)) && Result(m, Alloc(HIMEM, 1, 1)) != 0
    ensures var m' := Next(m, Alloc(HIMEM, 1, 1));
      var f := Result(m, Alloc(HIMEM, 1, 1)) / PAGE_SIZE;
      && Inv(m', reserved) && |Flat(m'.pools)| == |Flat(m.pools)|
      && f !in m.owned && f !in reserved && m'.owned == m.owned + {f}
  {
    hide Accounted, Flat, AllocIn, Tiled;
    var op := Alloc(HIMEM, 1, 1);
    AllocFresh(m, op, reserved);
    var addr := Result(m, op);
    assert Frames(addr, 1) == {addr / PAGE_SIZE};
    assert addr / PAGE_SIZE in Frames(addr, 1);
  }

  /** A fault that is filled in makes its page walk to the new frame and leaves every other translation alone. */
  lemma StepFills(s: System, f: Fault, reserved: set<nat>)
    requires Sound(s, reserved) && Paging.DemandFault(s.space, f.err, f.va) && Answer(s) != 0
    ensures var t := Step(s, f, reserved);
      && Sound(t, reserved)
      && (forall va: P.Address | Page(va) != Page(f.va) :: P.Walk(t.space, va) == P.Walk(s.space, va))
      && (forall va: P.Address | Page(va) == Page(f.va) :: P.Walk(t.space, va) == Some(Answer(s) + va % PAGE_SIZE))
      && t.memory.owned == s.memory.owned + {Answer(s) / PAGE_SIZE}
      && Answer(s) / PAGE_SIZE !in s.memory.owned && Answer(s) / PAGE_SIZE !in reserved
  {
    hide Accounted, Flat, AllocIn, P.Walk, P.WellFormed, P.Unshared, Paging.DirectoryUnmarked, Paging.FaultedIn,
         Paging.DemandFault;
    AnswerIsAddress(s, reserved);
    FrameTaken(s.memory, reserved);
    SpaceFills(s.space, f, Answer(s));
  }

  /** The part of a step that concerns the tables. */
  lemma SpaceFills(m: P.Space, f: Fault, frame: P.Address)
    requires P.WellFormed(m) && P.Unshared(m) && Paging.DirectoryUnmarked(m) && Paging.DemandFault(m, f.err, f.va)
    requires frame % PAGE_SIZE == 0
    ensures var m' := Paging.FaultedIn(m, f.va, frame);
      && P.WellFormed(m') && P.Unshared(m') && Paging.DirectoryUnmarked(m')
      && (forall va: P.Address | Page(va) != Page(f.va) :: P.Walk(m', va) == P.Walk(m, va))
      && (forall va: P.Address | Page(va) == Page(f.va) :: P.Walk(m', va) == Some(frame + va % PAGE_SIZE))
  {
    hide P.Walk;
    var i, j := P.DirIndex(f.va), P.TableIndex(f.va);
    MarkedBelowSlot(m, f);
    var flags := m.tables[P.Dir(m, i).addr][j].flags;
    var e := P.Entry(frame / PAGE_SIZE, (flags & !P.PENDING) | P.PRESENT);
    P.FilledFlags(flags);
    P.EntryRewritten(m, i, j, e);
    forall va: P.Address
      ensures Page(va) == Page(f.va) <==> P.DirIndex(va) == i && P.TableIndex(va) == j
    {
      SamePage(va, f.va);
    }
  }

  lemma PageNumber(va: P.Address)
    ensures Page(va) == P.DirIndex(va) * 1024 + P.TableIndex(va)
  {}

  lemma SamePage(va: P.Address, vb: P.Address)
    ensures Page(va) == Page(vb) <==> P.DirIndex(va) == P.DirIndex(vb) && P.TableIndex(va) == P.TableIndex(vb)
  {
    hide Page, P.DirIndex, P.TableIndex;
    PageNumber(va);
    PageNumber(vb);
  }

  lemma MarkedBelowSlot(m: P.Space, f: Fault)
    requires P.WellFormed(m) && Paging.DirectoryUnmarked(m) && Paging.DemandFault(m, f.err, f.va)
    ensures P.DirIndex(f.va) < P.SLOT
  {
    assert !P.Pending(P.Dir(m, P.TableIndex(f.va)));
  }

  /** One step of a run keeps what was filled in, and a page is filled in only once. */
  lemma StepKeepsFilled(s: System, f: Fault, reserved: set<nat>)
    requires Sound(s, reserved) && Filled(s) && Genuine(s, f) && Fillable(s, f)
    ensures Sound(Step(s, f, reserved), reserved) && Filled(Step(s, f, reserved))
    ensures Paging.DemandFault(s.space, f.err, f.va) ==> Page(f.va) !in s.filled
    ensures s.filled.Keys <= Step(s, f, reserved).filled.Keys && s.memory.owned <= Step(s, f, reserved).memory.owned
    ensures forall p | p in s.filled :: Step(s, f, reserved).filled[p] == s.filled[p]
    ensures forall va: P.Address | Page(va) !in Step(s, f, reserved).filled ::
              P.Walk(Step(s, f, reserved).space, va) == P.Walk(s.space, va)
    ensures forall p | p in Step(s, f, reserved).filled && p !in s.filled ::
              Step(s, f, reserved).filled[p] !in s.memory.owned + reserved
  {
    hide Accounted, Flat, Tiled, P.Walk, P.Unshared, Paging.DirectoryUnmarked, AllocIn, Result;
    if Paging.DemandFault(s.space, f.err, f.va) {
      StepFills(s, f, reserved);
      AnswerIsAddress(s, reserved);
    }
  }

  ghost predicate Admissible(s: System, fs: seq<Fault>, reserved: set<nat>)
    requires Sound(s, reserved)
    decreases |fs|
  {
    fs != [] ==>
      && Genuine(s, fs[0]) && Fillable(s, fs[0]) && Sound(Step(s, fs[0], reserved), reserved)
      && Admissible(Step(s, fs[0], reserved), fs[1..], reserved)
  }

  ghost function Run(s: System, fs: seq<Fault>, reserved: set<nat>): System
    requires Sound(s, reserved) && Admissible(s, fs, reserved)
    decreases |fs|
  {
    if fs == [] then s else Run(Step(s, fs[0], reserved), fs[1..], reserved)
  }

  /**
    After any run of faults the pages filled in have distinct frames that were neither owned nor
    reserved before, each walks to its frame, a page filled in stays so, and all other translations
    are those from before the run.
  */
  lemma {:induction false} RunFills(s: System, fs: seq<Fault>, reserved: set<nat>)
    requires Sound(s, reserved) && Filled(s) && Admissible(s, fs, reserved)
    ensures var t := Run(s, fs, reserved);
      && Sound(t, reserved) && Filled(t)
      && s.filled.Keys <= t.filled.Keys && s.memory.owned <= t.memory.owned
      && (forall p | p in s.filled :: t.filled[p] == s.filled[p])
      && (forall va: P.Address | Page(va) !in t.filled :: P.Walk(t.space, va) == P.Walk(s.space, va))
      && (forall p | p in t.filled && p !in s.filled :: t.filled[p] !in s.memory.owned + reserved)
    decreases |fs|
  {
    hide Inv, Flat, P.Walk, P.WellFormed, P.Unshared, Paging.DirectoryUnmarked, Answer, Sound, Filled, Step,
         Genuine, Fillable;
    if fs != [] {
      StepKeepsFilled(s, fs[0], reserved);
      RunFills(Step(s, fs[0], reserved), fs[1..], reserved);
    }
  }

  // ---- Each page once ----

  /** The handler fills in a page at fault number `i` of a run. */
  ghost predicate FillsAt(s: System, fs: seq<Fault>, i: nat, reserved: set<nat>)
    requires Sound(s, reserved) && Admissible(s, fs, reserved) && i < |fs|
    decreases i
  {
    if i == 0 then Paging.DemandFault(s.space, fs[0].err, fs[0].va)
    else FillsAt(Step(s, fs[0], reserved), fs[1..], i - 1, reserved)
  }

  lemma {:induction false} NotFilledAgain(s: System, fs: seq<Fault>, i: nat, p: nat, reserved: set<nat>)
    requires Sound(s, reserved) && Filled(s) && Admissible(s, fs, reserved) && i < |fs|
    requires p in s.filled && FillsAt(s, fs, i, reserved)
    ensures Page(fs[i].va) != p
    decreases i
  {
    hide Inv, Flat, P.Walk, P.WellFormed, P.Unshared, Paging.DirectoryUnmarked, Answer, Sound, Filled, Step,
         Genuine, Fillable;
    StepKeepsFilled(s, fs[0], reserved);
    if i > 0 { NotFilledAgain(Step(s, fs[0], reserved), fs[1..], i - 1, p, reserved); }
  }

  /** No run fills in a page twice. */
  lemma {:induction false} EachPageOnce(s: System, fs: seq<Fault>, i: nat, j: nat, reserved: set<nat>)
    requires Sound(s, reserved) && Filled(s) && Admissible(s, fs, reserved) && i < j < |fs|
    requires FillsAt(s, fs, i, reserved) && FillsAt(s, fs, j, reserved)
    ensures Page(fs[i].va) != Page(fs[j].va)
    decreases i
  {
    hide Inv, Flat, P.Walk, P.WellFormed, P.Unshared, Paging.DirectoryUnmarked, Answer, Sound, Filled,
         Genuine, Fillable;
    StepKeepsFilled(s, fs[0], reserved);
    var t := Step(s, fs[0], reserved);
    if i == 0 {
      NotFilledAgain(t, fs[1..], j - 1, Page(fs[0].va), reserved);
    } else {
      EachPageOnce(t, fs[1..], i - 1, j - 1, reserved);
    }
  }

  // ---- Enough frames ----

  /** The allocator has a frame for the handler exactly when some frame of memory is free. */
  lemma AnswersIff(s: System, reserved: set<nat>)
    requires Sound(s, reserved)
    ensures Answer(s) != 0 <==> FreeSet(Flat(s.memory.pools)) != {}
  {
    var ss := s.memory.pools;
    FrameLeftIff(s.memory, HIMEM, reserved);
    assert Offset(ss, HIMEM) + |ss[HIMEM].bits| == |Flat(ss)|;
    if f: nat :| f in FreeSet(Flat(ss)) { assert Flat(ss)[f] == 0; }
    if f: nat :| f < |Flat(ss)| && Flat(ss)[f] == 0 { assert f in FreeSet(Flat(ss)); }
  }

  /** The handler, which does not test the answer, maps a frame of its own exactly when some frame of memory is free. */
  lemma FrameIsFreshIff(s: System, f: Fault, reserved: set<nat>)
    requires Sound(s, reserved) && Paging.DemandFault(s.space, f.err, f.va)
    ensures var frame := Step(s, f, reserved).filled[Page(f.va)];
      frame !in s.memory.owned + reserved <==> FreeSet(Flat(s.memory.pools)) != {}
  {
    AnswerIsAddress(s, reserved);
    AnswersIff(s, reserved);
    if Answer(s) != 0 { FrameTaken(s.memory, reserved); }
  }

  /** The processor reports no page as missing that is mapped, fault after fault. */
  ghost predicate GenuineRun(s: System, fs: seq<Fault>, reserved: set<nat>)
    requires Sound(s, reserved)
    decreases |fs|
  {
    fs != [] ==> Genuine(s, fs[0]) && (Sound(Step(s, fs[0], reserved), reserved) ==>
      GenuineRun(Step(s, fs[0], reserved), fs[1..], reserved))
  }

  /** With as many free frames as faults, the allocator answers every one of them. */
  lemma {:induction false} EnoughFrames(s: System, fs: seq<Fault>, reserved: set<nat>)
    requires Sound(s, reserved) && Filled(s) && GenuineRun(s, fs, reserved)
    requires |fs| <= |FreeSet(Flat(s.memory.pools))|
    ensures Admissible(s, fs, reserved)
    decreases |fs|
  {
    if fs != [] {
      AnswersIff(s, reserved);
      StepKeepsFilled(s, fs[0], reserved);
      OneFrameLess(s, fs[0], reserved);
      EnoughFrames(Step(s, fs[0], reserved), fs[1..], reserved);
    }
  }

  lemma OneFrameLess(s: System, f: Fault, reserved: set<nat>)
    requires Sound(s, reserved) && Answer(s) != 0 && Sound(Step(s, f, reserved), reserved)
    ensures |FreeSet(Flat(Step(s, f, reserved).memory.pools))| + 1 >= |FreeSet(Flat(s.memory.pools))|
  {
    hide FreeSet, Accounted, Flat, Tiled, AllocIn;
    if Paging.DemandFault(s.space, f.err, f.va) {
      FrameLeftIff(s.memory, HIMEM, reserved);
      FrameTaken(s.memory, reserved);
      FramesConserved(s.memory, reserved);
      FramesConserved(Step(s, f, reserved).memory, reserved);
    }
  }

  /** Once the boot step and the boot mapping are done, the runs of faults can begin. */
  lemma SoundAtBoot(m: P.Space, n: nat, dynamicEnd: nat, himemEnd: nat, regions: seq<Region>, end: nat)
    requires P.WellFormed(m) && Paging.OnlyLinear(m, n) && Paging.DirectoryUnmarked(m)
    requires dynamicEnd <= himemEnd <= 0x1_0000_0000 && dynamicEnd % PAGE_SIZE == 0 && PAGE_SIZE <= himemEnd
    requires 0 < end <= 0x1_0000_0000 && Tiled(Layout(dynamicEnd, himemEnd))
    ensures var s := System(m, Memory(Booted(Layout(dynamicEnd, himemEnd), regions, end), {}), map[]);
      Sound(s, ReservedAtBoot(himemEnd / PAGE_SIZE, regions, end)) && Filled(s)
  {
    hide Accounted, Flat, Booted, Tiled, P.Unshared, P.WellFormed, Paging.OnlyLinear, Paging.DirectoryUnmarked;
    BootAccounts(dynamicEnd, himemEnd, regions, end);
    Paging.LinearUnshared(m, n);
  }
}
