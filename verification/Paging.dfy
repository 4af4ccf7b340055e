/** The kernel's directory and tables in place: boot mapping, page mapping, the inverse search and demand faults. */
module Paging {
  import opened MemoryLayout
  import opened Options
  import opened PageWalk

  function KernelVirtualToPhysical(va: Address): Address {
    (va - KERNEL_VIRTUAL_BASE) % 0x1_0000_0000
  }

  function KernelPhysicalToVirtual(pa: Address): Address {
    (pa + KERNEL_VIRTUAL_BASE) % 0x1_0000_0000
  }

  /** The boot loader maps the first 4 MB twice: at 0 and at the kernel's base. */
  ghost predicate BootLoaded(m: Space) {
    && Closed(m) && m.root < 1024
    && (forall i | 0 <= i < 1024 :: Dir(m, i) == if i == 0 || i == 768 then Entry(0, 0x083) else Entry(0, 0))
  }

  /** `n` slots from `base` on map consecutive large pages from physical address 0. */
  ghost predicate LinearSlots(m: Space, slot: nat, n: nat)
    requires Closed(m)
  {
    slot + n <= SLOT && forall i | slot <= i < slot + n :: LargeSlot(Dir(m, i), i - slot)
  }

  predicate LargeSlot(e: Entry, frame: nat) {
    Present(e) && Large(e) && e.addr / 1024 == frame
  }

  /** On the linear map the walk is plain arithmetic. */
  lemma LinearWalk(m: Space, n: nat, va: Address)
    requires WellFormed(m) && LinearSlots(m, 768, n)
    requires KERNEL_VIRTUAL_BASE <= va < KERNEL_VIRTUAL_BASE + n * LARGE_PAGE_SIZE
    ensures Walk(m, va) == Some(KernelVirtualToPhysical(va))
    ensures SoftWalk(m, va) == KernelVirtualToPhysical(va)
    ensures KernelPhysicalToVirtual(KernelVirtualToPhysical(va)) == va
  {
    SplitAddress(va);
    WalksAgree(m, va);
  }

  /** No slot maps anything but the linear map and the recursive window. */
  ghost predicate OnlyLinear(m: Space, n: nat)
    requires Closed(m)
  {
    LinearSlots(m, 768, n) && forall i | 0 <= i < SLOT && !(768 <= i < 768 + n) :: !Present(Dir(m, i))
  }

  /** In addresses: below the recursive window exactly the linear map is mapped, `n` slots from the base on. */
  lemma OnlyLinearWalks(m: Space, n: nat, va: Address)
    requires WellFormed(m) && OnlyLinear(m, n) && va < 0xFFC0_0000
    ensures Walk(m, va) == if 0xC000_0000 <= va < 0xC000_0000 + n * 0x40_0000 then Some(va - 0xC000_0000) else None
  {
    SplitAddress(va);
  }

  /** The state between `init` and `init_unmap_0`: slot 0 still maps the first 4 MB as well. */
  ghost predicate OnlyLinearAndZero(m: Space, n: nat)
    requires Closed(m)
  {
    && LinearSlots(m, 768, n) && LargeSlot(Dir(m, 0), 0)
    && forall i | 1 <= i < SLOT && !(768 <= i < 768 + n) :: !Present(Dir(m, i))
  }

  /** Once slot 0 is gone, the inverse search of a linearly mapped address gives its address above the base. */
  lemma InverseIsLinear(m: Space, n: nat, pa: Address, va: Address)
    requires WellFormed(m) && OnlyLinear(m, n) && pa < n * LARGE_PAGE_SIZE && LeastAlias(m, pa, va)
    ensures va == KernelPhysicalToVirtual(pa)
  {
    hide Walk, LeastAlias;
    var v := KernelPhysicalToVirtual(pa);
    LinearWalk(m, n, v);
    AliasExists(m, pa, va, v);
    MapsIffWalks(m, va, pa);
    SplitAddress(pa);
  }

  lemma AliasExists(m: Space, pa: Address, va: Address, v: Address)
    requires Closed(m) && LeastAlias(m, pa, va) && Walk(m, v) == Some(pa)
    ensures Walk(m, va) == Some(pa) && va <= v
  {}

  /** While slot 0 is still mapped, an address of the first 4 MB is found at its low alias. */
  lemma InverseIsLowAlias(m: Space, n: nat, pa: Address, va: Address)
    requires WellFormed(m) && OnlyLinearAndZero(m, n) && pa < LARGE_PAGE_SIZE && LeastAlias(m, pa, va)
    ensures va == pa
  {
    assert Walk(m, pa) == Some(pa);
    MapsIffWalks(m, va, pa);
  }

  /** No slot of the directory is marked for filling in. */
  ghost predicate DirectoryUnmarked(m: Space)
    requires Closed(m)
  {
    forall i | 0 <= i < 1024 :: !Pending(Dir(m, i))
  }

  /** While the linear map is all there is, no two slots share a table. */
  lemma LinearUnshared(m: Space, n: nat)
    requires WellFormed(m) && (OnlyLinear(m, n) || OnlyLinearAndZero(m, n))
    ensures Unshared(m)
  {
    forall i | 0 <= i < SLOT ensures !HasTable(Dir(m, i)) {
      if 768 <= i < 768 + n { assert LargeSlot(Dir(m, i), i - 768); }
    }
  }

  /** What `map_page` comes to. */
  datatype Mapping = Ignored | Stored | Fault | Astray(frame: nat)

  class AddressSpace {
    var tables: map<nat, seq<Entry>>
    const root: nat

    constructor (tables0: map<nat, seq<Entry>>, root0: nat)
      ensures Space() == PageWalk.Space(tables0, root0)
    {
      tables, root := tables0, root0;
    }

    function Space(): Space
      reads this
    {
      PageWalk.Space(tables, root)
    }

    method SetSlot(i: nat, e: Entry)
      requires Closed(Space()) && i < 1024
      modifies this
      ensures Space() == WithEntry(old(Space()), root, i, e)
    {
      tables := tables[root := tables[root][i := e]];
    }

    /** `PageDirectory::init`: slot 1023 becomes the recursive slot. */
    method InitDirectory(self: Address)
      requires BootLoaded(Space()) && self == KERNEL_VIRTUAL_BASE + root * PAGE_SIZE
      modifies this
      ensures WellFormed(Space()) && forall i | 0 <= i < SLOT :: Dir(Space(), i) == old(Dir(Space(), i))
      ensures Dir(Space(), 1023).addr == root && Dir(Space(), 1023).flags & 0x087 == 0x007
      ensures DirectoryUnmarked(Space())
    {
      var physical := SoftWalk(Space(), self);
      var e := Dir(Space(), SLOT);
      TableFlags(e.flags);
      SlotRewritten(Space(), SLOT, Entry(root, (e.flags | PRESENT | WRITABLE | USER) & !LARGE));
      SetSlot(SLOT, Entry(physical / PAGE_SIZE, (e.flags | PRESENT | WRITABLE | USER) & !LARGE));
    }

    /** `mm::paging::init` */
    method Init(self: Address, linearEnd: nat)
      requires BootLoaded(Space()) && self == KERNEL_VIRTUAL_BASE + root * PAGE_SIZE
      requires linearEnd <= (SLOT - 768) * LARGE_PAGE_SIZE
      modifies this
      ensures WellFormed(Space())
      ensures var n := (linearEnd + LARGE_PAGE_SIZE - 1) / LARGE_PAGE_SIZE;
        && LinearSlots(Space(), 768, n) && (n > 0 ==> OnlyLinearAndZero(Space(), n))
        && forall i | 768 <= i < 768 + n :: Dir(Space(), i) == Entry((i - 768) * 1024, 0x087)
      ensures linearEnd > 0 ==> Unshared(Space()) && DirectoryUnmarked(Space())
    {
      InitDirectory(self);
      var p, k := 0, 0;
      ghost var boot := Space();
      while p < linearEnd
        invariant p == k * LARGE_PAGE_SIZE && p < linearEnd + LARGE_PAGE_SIZE
        invariant 768 + k <= SLOT && WellFormed(Space()) && LinearSlots(Space(), 768, k)
        invariant forall i | 768 <= i < 768 + k :: Dir(Space(), i) == Entry((i - 768) * 1024, 0x087)
        invariant DirectoryUnmarked(Space())
        invariant forall i | 0 <= i < SLOT && !(768 <= i < 768 + k) :: Dir(Space(), i) == Dir(boot, i)
        decreases linearEnd - p
      {
        var virt: Address := KERNEL_VIRTUAL_BASE + p;
        var pde := Dir(Space(), virt / LARGE_PAGE_SIZE);
        var e := Entry(p / LARGE_PAGE_SIZE * 1024 + pde.addr % 1024, pde.flags | LARGE | WRITABLE | PRESENT | USER);
        LargeFlags(pde.flags);
        SlotRewritten(Space(), virt / LARGE_PAGE_SIZE, e);
        SetSlot(virt / LARGE_PAGE_SIZE, e);
        p := p + LARGE_PAGE_SIZE;
        k := k + 1;
      }
      if linearEnd > 0 { LinearUnshared(Space(), k); }
    }

    method InitUnmap0()
      requires WellFormed(Space())
      modifies this
      ensures WellFormed(Space()) && !Present(Dir(Space(), 0))
      ensures Dir(Space(), 0) == Unmapped(old(Dir(Space(), 0)))
      ensures forall i | 1 <= i < 1024 :: Dir(Space(), i) == old(Dir(Space(), i))
      ensures forall n | old(OnlyLinearAndZero(Space(), n)) :: OnlyLinear(Space(), n)
    {
      hide Unmapped, Present;
      var pde := Dir(Space(), 0);
      BitCleared(pde);
      SlotRewritten(Space(), 0, Unmapped(pde));
      SetSlot(0, Unmapped(pde));
    }

    /** A read through a pointer into the recursive window. */
    function Load(va: Address): Entry
      requires WellFormed(Space()) && Walk(Space(), va).Some? && Walk(Space(), va).value / PAGE_SIZE in tables
      reads this
    {
      var t := Target(Space(), va);
      tables[t.0][t.1]
    }

    /** A write through such a pointer. */
    method Store(va: Address, e: Entry)
      requires WellFormed(Space()) && Walk(Space(), va).Some? && Walk(Space(), va).value / PAGE_SIZE in tables
      modifies this
      ensures Space() == WithEntry(old(Space()), old(Target(Space(), va)).0, old(Target(Space(), va)).1, e)
    {
      var t := Target(Space(), va);
      tables := tables[t.0 := tables[t.0][t.1 := e]];
    }

    /** The search of one table. */
    method SearchTable(i: nat, addr: Address) returns (found: bool, j: nat)
      requires WellFormed(Space()) && i < 1024 && HasTable(Dir(Space(), i))
      ensures found ==> j < 1024 && Maps(Space(), i, j, addr) && forall k | 0 <= k < j :: !Maps(Space(), i, k, addr)
      ensures !found ==> forall k | 0 <= k < 1024 :: !Maps(Space(), i, k, addr)
    {
      j := 0;
      while j < 1024
        invariant j <= 1024 && forall k | 0 <= k < j :: !Maps(Space(), i, k, addr)
      {
        RecursiveSlot(Space(), i, j);
        var pte := Load(EntryAddress(i, j));
        if Present(pte) && pte.addr == addr / PAGE_SIZE { return true, j; }
        j := j + 1;
      }
      return false, 0;
    }

    /** `physical_to_virtual`: the least virtual address that is mapped to the physical one, or 0. */
    method PhysicalToVirtual(addr: Address) returns (va: Address)
      requires WellFormed(Space())
      ensures LeastAlias(Space(), addr, va)
    {
      ghost var m := Space();
      var i := 0;
      while i < 1024
        invariant i <= 1024 && forall v: Address | DirIndex(v) < i :: Walk(m, v) != Some(addr)
      {
        var pde := Dir(Space(), i);
        if Present(pde) {
          if Large(pde) {
            if pde.addr / 1024 == addr / LARGE_PAGE_SIZE {
              va := i * LARGE_PAGE_SIZE + addr % LARGE_PAGE_SIZE;
              FirstAlias(m, i, TableIndex(addr), addr, va);
              return;
            }
          } else {
            var found, j := SearchTable(i, addr);
            if found {
              va := i * LARGE_PAGE_SIZE + j * PAGE_SIZE + addr % PAGE_SIZE;
              FirstAlias(m, i, j, addr, va);
              return;
            }
          }
        }
        forall j | 0 <= j < 1024 ensures !Maps(m, i, j, addr) {
          assert !Present(pde) || Large(pde) || !Maps(Space(), i, j, addr);
        }
        NoAlias(m, i, addr);
        i := i + 1;
      }
      assert forall v: Address :: DirIndex(v) < 1024;
      return 0;
    }

    /**
      `mm::paging::map_page`. A slot without a table makes the write itself fault; under a large page
      it meets the frame of that page's first bits, which need not hold a table.
    */
    method MapPage(pa: Address, va: Address, flags: bv12) returns (r: Mapping)
      requires WellFormed(Space())
      modifies this
      ensures r.Ignored? <==> pa % PAGE_SIZE != 0 || va % PAGE_SIZE != 0
      ensures r.Fault? <==> !r.Ignored? && !Present(old(Dir(Space(), DirIndex(va))))
      ensures r.Astray? ==> Large(old(Dir(Space(), DirIndex(va)))) && r.frame == old(Dir(Space(), DirIndex(va))).addr
      ensures !r.Stored? ==> Space() == old(Space())
      ensures r.Stored? ==> old(Dir(Space(), DirIndex(va)).addr in Space().tables)
      ensures r.Stored? ==> var table := old(Dir(Space(), DirIndex(va))).addr;
                Space() == WithEntry(old(Space()), table, TableIndex(va), Entry(pa / PAGE_SIZE, flags | PRESENT))
      ensures !r.Ignored? && HasTable(old(Dir(Space(), DirIndex(va)))) ==> r.Stored?
    {
      if pa % PAGE_SIZE != 0 || va % PAGE_SIZE != 0 { return Ignored; }
      var p := EntryAddress(DirIndex(va), TableIndex(va));
      WindowWalk(Space(), DirIndex(va), TableIndex(va));
      var target := Walk(Space(), p);
      if target.None? { return Fault; }
      if target.value / PAGE_SIZE !in tables { return Astray(target.value / PAGE_SIZE); }
      Store(p, Entry(pa / PAGE_SIZE, flags | PRESENT));
      return Stored;
    }

    /** The page faulted in: `err` is the error code, `frame` what the frame allocator answers if it is asked. */
    method HandleFault(err: bv32, va: Address, frame: Address) returns (handled: bool)
      requires WellFormed(Space())
      modifies this
      ensures handled == DemandFault(old(Space()), err, va)
      ensures Space() == if handled then FaultedIn(old(Space()), va, frame) else old(Space())
    {
      var protection, reserved := err & 0x1 != 0, err & 0x8 != 0;
      if reserved || protection { return false; }
      var pde := Dir(Space(), DirIndex(va));
      if Present(pde) && !Large(pde) {
        RecursiveSlot(Space(), DirIndex(va), TableIndex(va));
        var p := EntryAddress(DirIndex(va), TableIndex(va));
        var pte := Load(p);
        if Pending(pte) {
          Store(p, Entry(frame / PAGE_SIZE, (pte.flags & !PENDING) | PRESENT));
          return true;
        }
      }
      return false;
    }
  }

  /** The handler fills in a page: no violation is reported and the table marks the page for filling in. */
  predicate DemandFault(m: Space, err: bv32, va: Address)
    requires WellFormed(m)
  {
    && err & 0x1 == 0 && err & 0x8 == 0
    && HasTable(Dir(m, DirIndex(va))) && Pending(m.tables[Dir(m, DirIndex(va)).addr][TableIndex(va)])
  }

  function FaultedIn(m: Space, va: Address, frame: Address): Space
    requires WellFormed(m) && HasTable(Dir(m, DirIndex(va)))
  {
    var f := Dir(m, DirIndex(va)).addr;
    WithEntry(m, f, TableIndex(va), Entry(frame / PAGE_SIZE, (m.tables[f][TableIndex(va)].flags & !PENDING) | PRESENT))
  }

  /**
    In the bits of the error code and of the entries: the fault is not a protection (0) or reserved-bit
    (3) violation, the directory entry is present (0) and not large (7), the table entry is marked (9).
    Its frame is filled in, bit 9 goes and bit 0 comes, and all other bits and entries stay.
  */
  lemma FaultBits(m: Space, err: bv32, va: Address, frame: Address)
    requires WellFormed(m)
    ensures var pde := m.tables[m.root][va / 0x40_0000];
      DemandFault(m, err, va) <==>
      err & 0x9 == 0 && pde.flags & 0x081 == 0x001 && pde.addr in m.tables
      && m.tables[pde.addr][va / 0x1000 % 1024].flags & 0x200 == 0x200
    ensures DemandFault(m, err, va) ==>
      var (t, j) := (m.tables[m.root][va / 0x40_0000].addr, va / 0x1000 % 1024);
      var (was, now) := (m.tables[t][j], FaultedIn(m, va, frame).tables[t][j]);
      && now.addr == frame / 0x1000 && now.flags & 0x201 == 0x001 && now.flags & 0xDFE == was.flags & 0xDFE
      && FaultedIn(m, va, frame) == m.(tables := m.tables[t := m.tables[t][j := now]])
  {
    ErrorBits(err);
    var pde := Dir(m, DirIndex(va));
    TableBits(pde.flags);
    if HasTable(pde) { EntryBits(m.tables[pde.addr][TableIndex(va)].flags); }
  }

  lemma ErrorBits(err: bv32)
    ensures err & 0x9 == 0 <==> err & 0x1 == 0 && err & 0x8 == 0
  {}

  lemma TableBits(f: bv12)
    ensures f & 0x081 == 0x001 <==> f & PRESENT != 0 && f & LARGE == 0
  {}

  lemma EntryBits(f: bv12)
    ensures f & 0x200 == 0x200 <==> f & PENDING != 0
    ensures var now := (f & !PENDING) | PRESENT; now & 0x201 == 0x001 && now & 0xDFE == f & 0xDFE
  {}

  /** A page that `map_page` has stored walks to its frame with its offset, and no other page is affected. */
  lemma MappedWalks(m: Space, pa: Address, va: Address, flags: bv12)
    requires WellFormed(m) && Unshared(m) && pa % 0x1000 == 0 && va < 0xFFC0_0000 && HasTable(Dir(m, DirIndex(va)))
    ensures var m' := WithEntry(m, Dir(m, DirIndex(va)).addr, TableIndex(va), Entry(pa / PAGE_SIZE, flags | PRESENT));
      && WellFormed(m')
      && (forall v: Address | v / 0x1000 == va / 0x1000 :: Walk(m', v) == Some(pa + v % 0x1000))
      && (forall v: Address | v / 0x1000 != va / 0x1000 :: Walk(m', v) == Walk(m, v))
  {
    hide Walk;
    var e := Entry(pa / PAGE_SIZE, flags | PRESENT);
    assert Present(e) by { StoredFlags(flags); }
    EntryRewritten(m, DirIndex(va), TableIndex(va), e);
    forall v: Address
      ensures v / 0x1000 == va / 0x1000 <==> DirIndex(v) == DirIndex(va) && TableIndex(v) == TableIndex(va)
    {
      SplitAddress(v);
      SplitAddress(va);
    }
  }

  lemma StoredFlags(f: bv12)
    ensures (f | PRESENT) & PRESENT != 0
  {}

  lemma FirstAlias(m: Space, i: nat, j: nat, addr: Address, va: Address)
    requires WellFormed(m) && i < 1024 && j < 1024 && Maps(m, i, j, addr) && va == Alias(i, j, addr)
    requires forall v: Address | DirIndex(v) < i :: Walk(m, v) != Some(addr)
    requires forall k | 0 <= k < j :: !Maps(m, i, k, addr)
    ensures LeastAlias(m, addr, va)
  {
    MapsIffWalks(m, va, addr);
    forall v: Address | v < va ensures Walk(m, v) != Some(addr) {
      MapsIffWalks(m, v, addr);
    }
  }

  lemma NoAlias(m: Space, i: nat, addr: Address)
    requires WellFormed(m) && i < 1024 && forall k | 0 <= k < 1024 :: !Maps(m, i, k, addr)
    ensures forall v: Address | DirIndex(v) == i :: Walk(m, v) != Some(addr)
  {
    forall v: Address | DirIndex(v) == i ensures Walk(m, v) != Some(addr) {
      MapsIffWalks(m, v, addr);
    }
  }
}
