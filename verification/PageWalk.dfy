/**
  Two-level 32-bit translation on values: the walk of the processor, the walk of the kernel through
  the recursive slot of the directory, and the inverse search.
*/
module PageWalk {
  import opened MemoryLayout
  import opened Options

  /** Bits 31..12 and bits 11..0 of a directory or table entry. */
  datatype Entry = Entry(addr: nat, flags: bv12)

  const PRESENT: bv12 := 0x001
  const WRITABLE: bv12 := 0x002
  const USER: bv12 := 0x004
  const LARGE: bv12 := 0x080
  /** `reserved_flag`: memory to be filled in on the first fault. */
  const PENDING: bv12 := 0x200

  const SLOT: nat := 1023
  /** Where the recursive slot shows the page tables. */
  const TABLES_BASE: nat := 0xFFC0_0000

  type Address = x: int | 0 <= x < 0x1_0000_0000 witness 0

  predicate Present(e: Entry) { e.flags & PRESENT != 0 }

  predicate Large(e: Entry) { e.flags & LARGE != 0 }

  predicate Pending(e: Entry) { e.flags & PENDING != 0 }

  /** The frames that hold a directory or a table, and the frame of the directory. */
  datatype Space = Space(tables: map<nat, seq<Entry>>, root: nat)

  function DirIndex(va: Address): (i: nat) ensures i < 1024 { va / LARGE_PAGE_SIZE }

  function TableIndex(va: Address): (j: nat) ensures j < 1024 { va / PAGE_SIZE % 1024 }

  function PageBase(i: nat, j: nat): (va: Address)
    requires i < 1024 && j < 1024
    ensures DirIndex(va) == i && TableIndex(va) == j && va % PAGE_SIZE == 0
  {
    i * LARGE_PAGE_SIZE + j * PAGE_SIZE
  }

  /** Tables have 1024 entries, and every table that the directory leads to is there. */
  ghost predicate Closed(m: Space) {
    && m.root in m.tables && (forall f | f in m.tables :: |m.tables[f]| == 1024)
    && (forall f, k | f in m.tables && 0 <= k < 1024 :: m.tables[f][k].addr < 0x10_0000)
    && (forall i | 0 <= i < 1024 :: HasTable(Dir(m, i)) ==> Dir(m, i).addr in m.tables)
  }

  /** Slot 1023 leads back to the directory. */
  ghost predicate WellFormed(m: Space) {
    Closed(m) && HasTable(Dir(m, SLOT)) && Dir(m, SLOT).addr == m.root
  }

  predicate HasTable(e: Entry) { Present(e) && !Large(e) }

  function Dir(m: Space, i: nat): Entry
    requires m.root in m.tables && i < |m.tables[m.root]|
  {
    m.tables[m.root][i]
  }

  /** Section 4.3 of the Intel SDM Vol. 3A: None is a page fault. */
  function Walk(m: Space, va: Address): (r: Option<nat>)
    requires Closed(m)
    ensures r.Some? ==> r.value < 0x1_0000_0000
  {
    var pde := Dir(m, DirIndex(va));
    if !Present(pde) then None
    else if Large(pde) then Some(pde.addr / 1024 * LARGE_PAGE_SIZE + va % LARGE_PAGE_SIZE)
    else
      var pte := m.tables[pde.addr][TableIndex(va)];
      if Present(pte) then Some(pte.addr * PAGE_SIZE + va % PAGE_SIZE) else None
  }

  /** The walk in the numbers of the manual: bit 0 is present, bit 7 of a directory entry a page of 4 MB. */
  lemma WalkIs(m: Space, va: Address)
    requires Closed(m)
    ensures var pde := Dir(m, va / 0x40_0000);
      Walk(m, va) ==
      if pde.flags & 0x001 == 0 then None
      else if pde.flags & 0x080 != 0 then Some(pde.addr / 0x400 * 0x40_0000 + va % 0x40_0000)
      else
        var pte := m.tables[pde.addr][va % 0x40_0000 / 0x1000];
        if pte.flags & 0x001 == 0 then None else Some(pte.addr * 0x1000 + va % 0x1000)
  {
    assert va % 0x40_0000 / 0x1000 == va / 0x1000 % 1024;
  }

  /** The address at which the recursive slot shows entry `j` of the table of slot `i`. */
  function EntryAddress(i: nat, j: nat): (va: Address)
    requires i < 1024 && j < 1024
    ensures DirIndex(va) == SLOT && TableIndex(va) == i && va % PAGE_SIZE == 4 * j
  {
    TABLES_BASE + i * PAGE_SIZE + 4 * j
  }

  /** The frame and index of the entry that a pointer into the recursive window reads or writes. */
  function Target(m: Space, va: Address): (r: (nat, nat))
    requires WellFormed(m) && Walk(m, va).Some? && Walk(m, va).value / PAGE_SIZE in m.tables
    ensures r.0 in m.tables && r.1 < 1024
  {
    (Walk(m, va).value / PAGE_SIZE, Walk(m, va).value % PAGE_SIZE / 4)
  }

  /** A pointer to entry `j` of the table of slot `i` meets exactly that entry. */
  lemma RecursiveSlot(m: Space, i: nat, j: nat)
    requires WellFormed(m) && i < 1024 && j < 1024 && HasTable(Dir(m, i))
    ensures var va := EntryAddress(i, j);
      Walk(m, va).Some? && Walk(m, va).value / PAGE_SIZE in m.tables && Target(m, va) == (Dir(m, i).addr, j)
  {
    var a := Dir(m, i).addr;
    assert Walk(m, EntryAddress(i, j)) == Some(a * PAGE_SIZE + 4 * j);
    assert (a * PAGE_SIZE + 4 * j) / PAGE_SIZE == a && (a * PAGE_SIZE + 4 * j) % PAGE_SIZE == 4 * j;
  }

  /** The window takes whatever a slot holds for the address of a table. */
  lemma WindowWalk(m: Space, i: nat, j: nat)
    requires WellFormed(m) && i < 1024 && j < 1024
    ensures var e := Dir(m, i);
      Walk(m, EntryAddress(i, j)) == if Present(e) then Some(e.addr * PAGE_SIZE + 4 * j) else None
    ensures var p := Dir(m, i).addr * PAGE_SIZE + 4 * j;
      p / PAGE_SIZE == Dir(m, i).addr && p % PAGE_SIZE == 4 * j
  {}

  /** `virtual_to_physical`: the same walk by pointers, with 0 for a page that is not mapped. */
  function SoftWalk(m: Space, va: Address): nat
    requires Closed(m) && (HasTable(Dir(m, DirIndex(va))) ==> WellFormed(m))
  {
    var pde := Dir(m, DirIndex(va));
    if Present(pde) then
      if Large(pde) then pde.addr / 1024 * LARGE_PAGE_SIZE + TableIndex(va) * PAGE_SIZE + va % PAGE_SIZE
      else
        RecursiveSlot(m, DirIndex(va), TableIndex(va));
        var t := Target(m, EntryAddress(DirIndex(va), TableIndex(va)));
        var pte := m.tables[t.0][t.1];
        if Present(pte) then pte.addr * PAGE_SIZE + va % PAGE_SIZE else 0
    else 0
  }

  /** The kernel's walk is the processor's walk, for every directory. */
  lemma WalksAgree(m: Space, va: Address)
    requires Closed(m) && (HasTable(Dir(m, DirIndex(va))) ==> WellFormed(m))
    ensures SoftWalk(m, va) == if Walk(m, va).Some? then Walk(m, va).value else 0
  {
    var pde := Dir(m, DirIndex(va));
    if HasTable(pde) { RecursiveSlot(m, DirIndex(va), TableIndex(va)); }
  }

  // ---- The inverse search ----

  /** The page that slot `i` and, for a table, entry `j` map, holds the physical address. */
  predicate Maps(m: Space, i: nat, j: nat, addr: Address)
    requires WellFormed(m) && i < 1024 && j < 1024
  {
    var pde := Dir(m, i);
    if !Present(pde) then false
    else if Large(pde) then pde.addr / 1024 == addr / LARGE_PAGE_SIZE && j == TableIndex(addr)
    else Present(m.tables[pde.addr][j]) && m.tables[pde.addr][j].addr == addr / PAGE_SIZE
  }

  function Alias(i: nat, j: nat, addr: Address): (va: Address)
    requires i < 1024 && j < 1024
    ensures DirIndex(va) == i && TableIndex(va) == j && va % PAGE_SIZE == addr % PAGE_SIZE
  {
    PageBase(i, j) + addr % PAGE_SIZE
  }

  /** A slot and entry map the address exactly when the walk of the corresponding virtual address gives it. */
  lemma MapsIffWalks(m: Space, va: Address, addr: Address)
    requires WellFormed(m)
    ensures Walk(m, va) == Some(addr) <==>
            (Maps(m, DirIndex(va), TableIndex(va), addr) && va == Alias(DirIndex(va), TableIndex(va), addr))
  {
    var pde := Dir(m, DirIndex(va));
    SplitAddress(va);
    SplitAddress(addr);
    if HasTable(pde) {
      SplitPage(m.tables[pde.addr][TableIndex(va)].addr, va % PAGE_SIZE, addr);
    } else if Present(pde) {
      SplitLarge(pde.addr / 1024, va % LARGE_PAGE_SIZE, addr);
    }
  }

  lemma SplitAddress(va: Address)
    ensures va == DirIndex(va) * LARGE_PAGE_SIZE + TableIndex(va) * PAGE_SIZE + va % PAGE_SIZE
    ensures va % LARGE_PAGE_SIZE == TableIndex(va) * PAGE_SIZE + va % PAGE_SIZE
  {}

  lemma SplitPage(frame: nat, offset: nat, addr: Address)
    requires offset < PAGE_SIZE
    ensures frame * PAGE_SIZE + offset == addr <==> (frame == addr / PAGE_SIZE && offset == addr % PAGE_SIZE)
  {}

  lemma SplitLarge(frame: nat, offset: nat, addr: Address)
    requires offset < LARGE_PAGE_SIZE
    ensures frame * LARGE_PAGE_SIZE + offset == addr <==>
            (frame == addr / LARGE_PAGE_SIZE && offset == addr % LARGE_PAGE_SIZE)
  {}

  /** The value that the inverse search promises: the least virtual address of a physical one, or 0. */
  ghost predicate LeastAlias(m: Space, addr: Address, va: Address)
    requires Closed(m)
  {
    if exists v: Address :: Walk(m, v) == Some(addr)
    then Walk(m, va) == Some(addr) && forall v: Address | v < va :: Walk(m, v) != Some(addr)
    else va == 0
  }

  // ---- One entry rewritten ----

  /** No two slots share a table. */
  ghost predicate Unshared(m: Space)
    requires Closed(m)
  {
    forall i, j | 0 <= i < j < 1024 && HasTable(Dir(m, i)) && HasTable(Dir(m, j)) :: Dir(m, i).addr != Dir(m, j).addr
  }

  function WithEntry(m: Space, f: nat, j: nat, e: Entry): Space
    requires f in m.tables && j < |m.tables[f]|
  {
    m.(tables := m.tables[f := m.tables[f][j := e]])
  }

  /** Rewriting an entry of the table of slot `i` changes the translation of that page and of nothing else. */
  lemma EntryRewritten(m: Space, i: nat, j: nat, e: Entry)
    requires WellFormed(m) && Unshared(m) && i < SLOT && j < 1024 && HasTable(Dir(m, i)) && e.addr < 0x10_0000
    ensures var m' := WithEntry(m, Dir(m, i).addr, j, e);
      && WellFormed(m') && Unshared(m')
      && (forall k | 0 <= k < 1024 :: Dir(m', k) == Dir(m, k))
      && (forall va: Address | !(DirIndex(va) == i && TableIndex(va) == j) :: Walk(m', va) == Walk(m, va))
      && forall va: Address | DirIndex(va) == i && TableIndex(va) == j ::
           Walk(m', va) == if Present(e) then Some(e.addr * PAGE_SIZE + va % PAGE_SIZE) else None
  {
    var m' := WithEntry(m, Dir(m, i).addr, j, e);
    assert Dir(m, i).addr != m.root;
    assert forall k | 0 <= k < 1024 :: Dir(m', k) == Dir(m, k);
  }

  /** Rewriting a slot keeps the directory closed as long as the new entry leads to a table that is there. */
  lemma SlotRewritten(m: Space, i: nat, e: Entry)
    requires Closed(m) && i < 1024 && e.addr < 0x10_0000 && (HasTable(e) ==> e.addr in m.tables)
    ensures var m' := WithEntry(m, m.root, i, e);
      && Closed(m') && m'.root == m.root && m'.tables.Keys == m.tables.Keys
      && forall k | 0 <= k < 1024 :: Dir(m', k) == if k == i then e else Dir(m, k)
  {
    var m' := WithEntry(m, m.root, i, e);
    assert forall k | 0 <= k < 1024 :: Dir(m', k) == if k == i then e else Dir(m, k);
    assert m'.tables.Keys == m.tables.Keys;
  }

  lemma TableFlags(f: bv12)
    ensures ((f | PRESENT | WRITABLE | USER) & !LARGE) & PRESENT != 0
    ensures ((f | PRESENT | WRITABLE | USER) & !LARGE) & LARGE == 0
    ensures ((f | PRESENT | WRITABLE | USER) & !LARGE) & 0x087 == 0x007
    ensures ((f | PRESENT | WRITABLE | USER) & !LARGE) & PENDING == f & PENDING
  {}

  lemma LargeFlags(f: bv12)
    ensures (f | LARGE | WRITABLE | PRESENT | USER) & PRESENT != 0
    ensures (f | LARGE | WRITABLE | PRESENT | USER) & LARGE != 0
    ensures f == 0x083 || f == 0 ==> f | LARGE | WRITABLE | PRESENT | USER == 0x087
    ensures (f | LARGE | WRITABLE | PRESENT | USER) & PENDING == f & PENDING
  {}

  function Unmapped(e: Entry): Entry { e.(flags := e.flags & !PRESENT) }

  lemma BitCleared(e: Entry)
    ensures Unmapped(e) == Entry(e.addr, e.flags & 0xFFE) && !Present(Unmapped(e)) && !HasTable(Unmapped(e))
  {}

  lemma FilledFlags(f: bv12)
    ensures ((f & !PENDING) | PRESENT) & PRESENT != 0 && ((f & !PENDING) | PRESENT) & PENDING == 0
  {}
}
