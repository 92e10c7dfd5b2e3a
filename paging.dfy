/**
 * The x86-64 four-level page-table manager (PML4 -> PDPT -> PD -> PT, 512
 * entries per table, indexed by bits 47:39, 38:30, 29:21 and 20:12 of the
 * virtual address, as section 4.5 of the Intel 64 and IA-32 Architectures
 * Software Developer's Manual, Volume 3A, lays out).
 *
 * Entries and addresses are 64-bit words, kept as naturals; the bit
 * operations the kernel applies to them come from module Bits. Physical
 * memory holding page tables is a map from a table's frame address to its 512
 * entries; a frame that is not in the map reads as zeros. The kernel reaches
 * tables through a direct map; that offset is the identity here. Missing
 * intermediate tables come from the frame allocator of module FrameAllocator,
 * and unmapping hands emptied tables back to it.
 *
 * The pure functions on `MemState` say what each operation does; the class
 * `Mmu` performs the same steps in place and is proved to agree with them.
 */
module Paging {
  import opened Basics
  import opened Bits
  import FA = FrameAllocator

  /** Entries per table. */
  const ENTRIES: nat := 512
  /** First PML4 entry of the kernel half of the address space. */
  const KERNEL_HALF: nat := 256

  /** `ADDRESS_EXCLUDE`: bits 12..63 of a word. */
  function AddressOf(e: nat): nat
  {
    e / PAGE_SIZE * PAGE_SIZE
  }

  /** `OFFSET_EXCLUDE`: bits 0..11 of a word. */
  function OffsetOf(v: nat): nat
  {
    v % PAGE_SIZE
  }

  /** `PAGETABLE_PRESENT` / `PAGE_PRESENT`, bit 0. */
  predicate IsPresent(e: nat)
  {
    e % 2 == 1
  }

  /** `PAGETABLE_PAGE_SIZE`, bit 7: a 1 GiB or 2 MiB page instead of a table. */
  predicate IsLarge(e: nat)
  {
    (e / 128) % 2 == 1
  }

  /** `UNSET_FLAG(e, PAGETABLE_PRESENT)` */
  function ClearPresent(e: nat): nat
  {
    e / 2 * 2
  }

  predicate Aligned(a: nat)
  {
    a % PAGE_SIZE == 0
  }

  function Pml4Index(v: nat): (i: nat)
    ensures i < ENTRIES
  {
    (v / 0x80_0000_0000) % ENTRIES
  }

  function PdptIndex(v: nat): (i: nat)
    ensures i < ENTRIES
  {
    (v / 0x4000_0000) % ENTRIES
  }

  function PdIndex(v: nat): (i: nat)
    ensures i < ENTRIES
  {
    (v / 0x20_0000) % ENTRIES
  }

  function PtIndex(v: nat): (i: nat)
    ensures i < ENTRIES
  {
    (v / PAGE_SIZE) % ENTRIES
  }

  // ---------------------------------------------------------------------
  // The bits of an entry
  // ---------------------------------------------------------------------

  /** An OR is present when either side is. */
  lemma OrPresent(a: nat, b: nat)
    ensures IsPresent(Or(a, b)) <==> IsPresent(a) || IsPresent(b)
  {
    OrStep(a, b);
  }

  /** An OR has the page-size bit when either side has it. */
  lemma OrLarge(a: nat, b: nat)
    ensures IsLarge(Or(a, b)) <==> IsLarge(a) || IsLarge(b)
  {
    OrShr(a, b, 7);
    Shr7(a);
    Shr7(b);
    Shr7(Or(a, b));
    OrStep(a / 128, b / 128);
  }

  /** The page number and the offset of `(a | b)` are those of `a` and `b` ORed. */
  lemma OrPageOffset(a: nat, b: nat)
    ensures Or(a, b) / PAGE_SIZE == Or(a / PAGE_SIZE, b / PAGE_SIZE)
    ensures Or(a, b) % PAGE_SIZE == Or(a % PAGE_SIZE, b % PAGE_SIZE)
  {
    OrShr(a, b, 12);
    OrLow(a, b, 12);
    Split12(a);
    Split12(b);
    Split12(Or(a, b));
  }

  /** ORing two addresses shifted left by 12 bits is shifting their OR. */
  lemma OrShifted12(x: nat, y: nat)
    ensures Or(x * PAGE_SIZE, y * PAGE_SIZE) == Or(x, y) * PAGE_SIZE
  {
    var o := Or(x * PAGE_SIZE, y * PAGE_SIZE);
    OrPageOffset(x * PAGE_SIZE, y * PAGE_SIZE);
    assert (x * PAGE_SIZE) / PAGE_SIZE == x && (x * PAGE_SIZE) % PAGE_SIZE == 0;
    assert (y * PAGE_SIZE) / PAGE_SIZE == y && (y * PAGE_SIZE) % PAGE_SIZE == 0;
    assert o / PAGE_SIZE == Or(x, y) && o % PAGE_SIZE == 0;
  }

  /** The address bits of an entry are an aligned address with no low bits. */
  lemma AddressIsAligned(e: nat)
    ensures AddressOf(AddressOf(e)) == AddressOf(e) && OffsetOf(AddressOf(e)) == 0
  {
    DivModUnique(AddressOf(e), PAGE_SIZE, e / PAGE_SIZE, 0);
  }

  /** An OR splits into the OR of the address bits and the OR of the low bits. */
  lemma OrParts(a: nat, b: nat)
    ensures AddressOf(Or(a, b)) == Or(AddressOf(a), AddressOf(b))
    ensures OffsetOf(Or(a, b)) == Or(OffsetOf(a), OffsetOf(b))
  {
    OrPageOffset(a, b);
    OrShifted12(a / PAGE_SIZE, b / PAGE_SIZE);
  }

  /** An aligned address ORed with a page offset is their sum. */
  lemma OrAddressOffset(a: nat, o: nat)
    requires Aligned(a) && o < PAGE_SIZE
    ensures Or(a, o) == a + o
  {
    var r := Or(a, o);
    OrPageOffset(a, o);
    assert o / PAGE_SIZE == 0 && o % PAGE_SIZE == o;
    assert r / PAGE_SIZE == a / PAGE_SIZE && r % PAGE_SIZE == o;
  }

  /** Clearing the present bit keeps the address and the page-size bit. */
  lemma ClearPresentKeeps(e: nat)
    ensures !IsPresent(ClearPresent(e))
    ensures AddressOf(ClearPresent(e)) == AddressOf(e)
    ensures IsLarge(ClearPresent(e)) == IsLarge(e)
  {
    DropLowBit(e, PAGE_SIZE / 2);
    DropLowBit(e, 64);
  }

  /** Flags for the entries written at each level (`k_paging_flags`). */
  datatype PagingFlags = PagingFlags(pml4Flags: nat, pdptFlags: nat, pdFlags: nat, ptFlags: nat)

  // ---------------------------------------------------------------------
  // Page-table memory
  // ---------------------------------------------------------------------

  type Table = seq<nat>

  type PhysMem = map<nat, Table>

  function ZeroTable(): (t: Table)
    ensures |t| == ENTRIES && forall j :: 0 <= j < ENTRIES ==> t[j] == 0
  {
    seq(ENTRIES, _ => 0)
  }

  /** The table stored in frame `a`; a frame never written reads as zeros. */
  function TableAt(mem: PhysMem, a: nat): (t: Table)
    ensures |t| == ENTRIES
  {
    if a in mem && |mem[a]| == ENTRIES then mem[a] else ZeroTable()
  }

  function Entry(mem: PhysMem, a: nat, i: nat): nat
    requires i < ENTRIES
  {
    TableAt(mem, a)[i]
  }

  /** Write entry `i` of the table in frame `a`. */
  function Store(mem: PhysMem, a: nat, i: nat, e: nat): (m: PhysMem)
    requires i < ENTRIES
    ensures TableAt(m, a) == TableAt(mem, a)[i := e]
    ensures forall b :: b != a ==> TableAt(m, b) == TableAt(mem, b)
    ensures forall b, j :: 0 <= j < ENTRIES ==> Entry(m, b, j) == if b == a && j == i then e else Entry(mem, b, j)
  {
    mem[a := TableAt(mem, a)[i := e]]
  }

  /** `memset` of the table in frame `a` to zero. */
  function Zero(mem: PhysMem, a: nat): (m: PhysMem)
    ensures TableAt(m, a) == ZeroTable()
    ensures forall b :: b != a ==> TableAt(m, b) == TableAt(mem, b)
    ensures forall b, j :: 0 <= j < ENTRIES ==> Entry(m, b, j) == if b == a then 0 else Entry(mem, b, j)
  {
    mem[a := ZeroTable()]
  }

  /** Page tables together with the frame allocator that supplies them. */
  datatype MemState = MemState(mem: PhysMem, frames: FA.Frames)

  // ---------------------------------------------------------------------
  // Mapping a page
  // ---------------------------------------------------------------------

  /**
   * One intermediate level of `pagingMapPageInSpace`: the entry `idx` of
   * `table` is followed to the next table. A non-present entry gets the
   * level's flags and a zeroed frame from `allocatePage` ORed into whatever it
   * held; with `override`, a present entry keeps its address bits and takes
   * the level's flags in place of its own low bits. Returns the new state and
   * the next table's address. The frame allocator only ever loses one free
   * frame here, and its total never changes.
   */
  function LinkTable(s: MemState, table: nat, idx: nat, levelFlags: nat, override: bool): (r: (MemState, nat))
    requires idx < ENTRIES
    ensures FA.Total(r.0.frames) == FA.Total(s.frames) && |r.0.frames.bits| == |s.frames.bits|
    ensures r.0.frames.initialized == s.frames.initialized
    ensures forall k :: !FA.IsFree(s.frames.bits, k) ==> !FA.IsFree(r.0.frames.bits, k)
    ensures FA.FreeCount(r.0.frames.bits) <= FA.FreeCount(s.frames.bits) <= FA.FreeCount(r.0.frames.bits) + 1
  {
    var e := Entry(s.mem, table, idx);
    if !IsPresent(e) then
      var (next, frames') := FA.Allocate(s.frames);
      (MemState(Store(Zero(s.mem, next), table, idx, Or(Or(e, levelFlags), next)), frames'), next)
    else if override then
      (MemState(Store(s.mem, table, idx, Or(AddressOf(e), levelFlags)), s.frames), AddressOf(e))
    else
      (s, AddressOf(e))
  }

  /**
   * A non-present entry: the next table is the frame `allocatePage` returned,
   * aligned and zeroed; the entry's address bits become its old ones ORed
   * with the level's and the new frame's, its low bits its old ones ORed with
   * the level's; no other entry outside the new table changes.
   */
  lemma LinkCreatesTable(s: MemState, table: nat, idx: nat, levelFlags: nat, override: bool)
    requires idx < ENTRIES
    requires !IsPresent(Entry(s.mem, table, idx))
    ensures var e := Entry(s.mem, table, idx);
      var (t, next) := LinkTable(s, table, idx, levelFlags, override);
      var e' := Entry(t.mem, table, idx);
      && (next, t.frames) == FA.Allocate(s.frames) && Aligned(next)
      && AddressOf(e') == Or(Or(AddressOf(e), AddressOf(levelFlags)), next)
      && OffsetOf(e') == Or(OffsetOf(e), OffsetOf(levelFlags))
  {
    var e := Entry(s.mem, table, idx);
    var next := FA.Allocate(s.frames).0;
    OrParts(Or(e, levelFlags), next);
    OrParts(e, levelFlags);
    assert AddressOf(next) == next && OffsetOf(next) == 0;
  }

  /** What a link leaves of the tables other than the linked entry. */
  lemma LinkKeepsOthers(s: MemState, table: nat, idx: nat, levelFlags: nat, override: bool)
    requires idx < ENTRIES
    ensures var (t, next) := LinkTable(s, table, idx, levelFlags, override);
      forall b, j :: 0 <= j < ENTRIES && (b != table || j != idx) ==>
        Entry(t.mem, b, j) == if !IsPresent(Entry(s.mem, table, idx)) && b == next then 0 else Entry(s.mem, b, j)
  {
  }

  /**
   * A present entry is followed to the table its address bits name. With
   * `override` it keeps those bits and takes exactly the level's flags in its
   * low 12 bits; without, nothing changes. The allocator is not called.
   */
  lemma LinkFollowsTable(s: MemState, table: nat, idx: nat, levelFlags: nat, override: bool)
    requires idx < ENTRIES
    requires IsPresent(Entry(s.mem, table, idx))
    ensures var e := Entry(s.mem, table, idx);
      var (t, next) := LinkTable(s, table, idx, levelFlags, override);
      var e' := Entry(t.mem, table, idx);
      && next == AddressOf(e) && t.frames == s.frames
      && (override ==>
            && AddressOf(e') == Or(AddressOf(e), AddressOf(levelFlags))
            && OffsetOf(e') == OffsetOf(levelFlags))
      && (!override ==> t == s)
  {
    var e := Entry(s.mem, table, idx);
    OrParts(AddressOf(e), levelFlags);
    AddressIsAligned(e);
  }

  /** The tables a mapping walks through, and the state after linking them. */
  datatype Walk = Walk(state: MemState, pdpt: nat, pd: nat, pt: nat)

  /**
   * The three intermediate levels of `pagingMapPageInSpace`; together they
   * take at most three free frames.
   */
  function BuildPath(s: MemState, virt: nat, root: nat, flags: PagingFlags, override: bool): (w: Walk)
    ensures FA.Total(w.state.frames) == FA.Total(s.frames) && |w.state.frames.bits| == |s.frames.bits|
    ensures w.state.frames.initialized == s.frames.initialized
    ensures forall k :: !FA.IsFree(s.frames.bits, k) ==> !FA.IsFree(w.state.frames.bits, k)
    ensures FA.FreeCount(w.state.frames.bits) <= FA.FreeCount(s.frames.bits) <= FA.FreeCount(w.state.frames.bits) + 3
  {
    var (s1, pdpt) := LinkTable(s, root, Pml4Index(virt), flags.pml4Flags, override);
    var (s2, pd) := LinkTable(s1, pdpt, PdptIndex(virt), flags.pdptFlags, override);
    var (s3, pt) := LinkTable(s2, pd, PdIndex(virt), flags.pdFlags, override);
    Walk(s3, pdpt, pd, pt)
  }

  /**
   * The leaf step of `pagingMapPageInSpace`: when the entry is not present or
   * `override` is set it is zeroed and becomes `ptFlags | phys`, so the page's
   * address bits are those of `phys` and `ptFlags` and nothing of the old
   * entry survives; otherwise nothing changes.
   */
  function SetLeaf(mem: PhysMem, pt: nat, idx: nat, ptFlags: nat, phys: nat, override: bool): (m: PhysMem)
    requires idx < ENTRIES
    ensures !IsPresent(Entry(mem, pt, idx)) || override ==>
      && AddressOf(Entry(m, pt, idx)) == Or(AddressOf(ptFlags), AddressOf(phys))
      && OffsetOf(Entry(m, pt, idx)) == Or(OffsetOf(ptFlags), OffsetOf(phys))
    ensures IsPresent(Entry(mem, pt, idx)) && !override ==> m == mem
    ensures forall b, j :: 0 <= j < ENTRIES && (b != pt || j != idx) ==> Entry(m, b, j) == Entry(mem, b, j)
  {
    if !IsPresent(Entry(mem, pt, idx)) || override then
      OrParts(ptFlags, phys);
      Store(mem, pt, idx, Or(Or(0, ptFlags), phys))
    else
      mem
  }

  /**
   * `pagingMapPageInSpace`. The frame allocator only loses free frames, at
   * most one per level that had to be created, and its total never changes.
   */
  function MapPageSpec(s: MemState, virt: nat, phys: nat, root: nat, flags: PagingFlags, override: bool): (t: MemState)
    ensures FA.Total(t.frames) == FA.Total(s.frames) && |t.frames.bits| == |s.frames.bits|
    ensures t.frames.initialized == s.frames.initialized
    ensures forall k :: !FA.IsFree(s.frames.bits, k) ==> !FA.IsFree(t.frames.bits, k)
    ensures FA.FreeCount(t.frames.bits) <= FA.FreeCount(s.frames.bits) <= FA.FreeCount(t.frames.bits) + 3
  {
    var w := BuildPath(s, virt, root, flags, override);
    MemState(SetLeaf(w.state.mem, w.pt, PtIndex(virt), flags.ptFlags, phys, override), w.state.frames)
  }

  /** Number of pages `pagingMapMemoryInTable` visits for `size` bytes. */
  function PageCount(size: nat): nat
  {
    (size + PAGE_SIZE - 1) / PAGE_SIZE
  }

  /**
   * `pagingMapMemoryInTable` after its first `n` pages: page k maps
   * `virt + k * PAGE_SIZE` to `phys + k * PAGE_SIZE` (64-bit wrap-around).
   * Mapping a range never frees a frame, takes at most three per page and
   * never changes the total.
   */
  function MapPages(s: MemState, virt: nat, phys: nat, root: nat, flags: PagingFlags, override: bool, n: nat): (t: MemState)
    ensures FA.Total(t.frames) == FA.Total(s.frames) && |t.frames.bits| == |s.frames.bits|
    ensures t.frames.initialized == s.frames.initialized
    ensures forall k :: !FA.IsFree(s.frames.bits, k) ==> !FA.IsFree(t.frames.bits, k)
    ensures FA.FreeCount(t.frames.bits) <= FA.FreeCount(s.frames.bits) <= FA.FreeCount(t.frames.bits) + 3 * n
  {
    if n == 0 then s
    else
      var offset := (n - 1) * PAGE_SIZE;
      MapPageSpec(MapPages(s, virt, phys, root, flags, override, n - 1), Wrap(virt + offset), Wrap(phys + offset), root, flags, override)
  }

  /** The page after the first `n` is mapped at offset `n * PAGE_SIZE`. */
  lemma MapPagesStep(s: MemState, virt: nat, phys: nat, root: nat, flags: PagingFlags, override: bool, n: nat)
    ensures MapPages(s, virt, phys, root, flags, override, n + 1)
      == MapPageSpec(MapPages(s, virt, phys, root, flags, override, n), Wrap(virt + n * PAGE_SIZE), Wrap(phys + n * PAGE_SIZE), root, flags, override)
  {
  }

  /** The same step, from a state `t` already known to be the first `n` pages mapped. */
  lemma MapPagesNext(s: MemState, t: MemState, virt: nat, phys: nat, root: nat, flags: PagingFlags, override: bool, n: nat, offset: nat)
    requires t == MapPages(s, virt, phys, root, flags, override, n) && offset == n * PAGE_SIZE
    ensures MapPages(s, virt, phys, root, flags, override, n + 1)
      == MapPageSpec(t, Wrap(virt + offset), Wrap(phys + offset), root, flags, override)
  {
    MapPagesStep(s, virt, phys, root, flags, override, n);
    PageOffset(virt, n, offset);
    PageOffset(phys, n, offset);
  }

  /** 1 GiB (`GiB_SIZE`). */
  const GIB: nat := 0x4000_0000
  /** Where the kernel image is mapped: the top 2 GiB of the address space. */
  const KERNEL_VIRT_BASE: nat := 0xffff_ffff_8000_0000
  const KERNEL_WINDOW: nat := 0x8000_0000

  /**
   * The three range mappings of `pagingInitialize` into the root `root`, all
   * with `override` set: the first 4 GiB identity-mapped, the same 4 GiB again
   * at the higher-half direct map `hhdm`, and 2 GiB from `kernelBase` at
   * KERNEL_VIRT_BASE. Like any mapping, booting never frees a frame and never
   * changes the total.
   */
  function BootMappings(s: MemState, root: nat, kernelBase: nat, hhdm: nat, flags: PagingFlags): (t: MemState)
    ensures FA.Total(t.frames) == FA.Total(s.frames) && |t.frames.bits| == |s.frames.bits|
    ensures t.frames.initialized == s.frames.initialized
    ensures forall k :: !FA.IsFree(s.frames.bits, k) ==> !FA.IsFree(t.frames.bits, k)
    ensures FA.FreeCount(t.frames.bits) <= FA.FreeCount(s.frames.bits)
  {
    var identity := MapPages(s, 0, 0, root, flags, true, PageCount(4 * GIB));
    var direct := MapPages(identity, hhdm, 0, root, flags, true, PageCount(4 * GIB));
    MapPages(direct, KERNEL_VIRT_BASE, kernelBase, root, flags, true, PageCount(KERNEL_WINDOW))
  }

  // ---------------------------------------------------------------------
  // Walking the tables
  // ---------------------------------------------------------------------

  function Pml4e(mem: PhysMem, root: nat, v: nat): nat
  {
    Entry(mem, root, Pml4Index(v))
  }

  function Pdpte(mem: PhysMem, root: nat, v: nat): nat
  {
    Entry(mem, AddressOf(Pml4e(mem, root, v)), PdptIndex(v))
  }

  function Pde(mem: PhysMem, root: nat, v: nat): nat
  {
    Entry(mem, AddressOf(Pdpte(mem, root, v)), PdIndex(v))
  }

  function Pte(mem: PhysMem, root: nat, v: nat): nat
  {
    Entry(mem, AddressOf(Pde(mem, root, v)), PtIndex(v))
  }

  /** `pagingVirtualToPhysical` on the tables rooted at `root`. */
  function Translate(mem: PhysMem, root: nat, v: nat): nat
  {
    if !IsPresent(Pml4e(mem, root, v)) then 0
    else if !IsPresent(Pdpte(mem, root, v)) then 0
    else if IsLarge(Pdpte(mem, root, v)) then AddressOf(Pdpte(mem, root, v))
    else if !IsPresent(Pde(mem, root, v)) then 0
    else if IsLarge(Pde(mem, root, v)) then AddressOf(Pde(mem, root, v))
    else if !IsPresent(Pte(mem, root, v)) then 0
    else AddressOf(Pte(mem, root, v)) + OffsetOf(v)
  }

  /** Two addresses in the same 4 KiB page have the same four table indices. */
  lemma SamePageIndices(v: nat, w: nat)
    requires v / PAGE_SIZE == w / PAGE_SIZE
    ensures Pml4Index(v) == Pml4Index(w) && PdptIndex(v) == PdptIndex(w)
    ensures PdIndex(v) == PdIndex(w) && PtIndex(v) == PtIndex(w)
  {
    Pow2Values();
    DivDiv(v, 12, 9);
    DivDiv(w, 12, 9);
    DivDiv(v, 12, 18);
    DivDiv(w, 12, 18);
    DivDiv(v, 12, 27);
    DivDiv(w, 12, 27);
  }

  /** Two addresses in the same 2 MiB page have the same upper three indices. */
  lemma SameLargePageIndices(v: nat, w: nat)
    requires v / 0x20_0000 == w / 0x20_0000
    ensures Pml4Index(v) == Pml4Index(w) && PdptIndex(v) == PdptIndex(w) && PdIndex(v) == PdIndex(w)
  {
    Pow2Values();
    DivDiv(v, 21, 9);
    DivDiv(w, 21, 9);
    DivDiv(v, 21, 18);
    DivDiv(w, 21, 18);
  }

  /** Adding a page offset to an aligned address changes no table index. */
  lemma IndicesIgnoreOffset(v: nat, o: nat)
    requires Aligned(v) && o < PAGE_SIZE
    ensures Pml4Index(v + o) == Pml4Index(v) && PdptIndex(v + o) == PdptIndex(v)
    ensures PdIndex(v + o) == PdIndex(v) && PtIndex(v + o) == PtIndex(v)
    ensures OffsetOf(v + o) == o
  {
    DivModUnique(v + o, PAGE_SIZE, v / PAGE_SIZE, o);
    SamePageIndices(v + o, v);
  }

  /**
   * Through a 4 KiB page, translation keeps the page offset: every byte of
   * the page lands at the same offset of the frame.
   */
  lemma TranslateKeepsOffset(mem: PhysMem, root: nat, v: nat, o: nat)
    requires Aligned(v) && o < PAGE_SIZE
    requires IsPresent(Pml4e(mem, root, v)) && IsPresent(Pdpte(mem, root, v)) && !IsLarge(Pdpte(mem, root, v))
    requires IsPresent(Pde(mem, root, v)) && !IsLarge(Pde(mem, root, v)) && IsPresent(Pte(mem, root, v))
    ensures Translate(mem, root, v + o) == Translate(mem, root, v) + o
  {
    IndicesIgnoreOffset(v, o);
  }

  /**
   * Through a 2 MiB page (a PD entry with the page-size bit) every address of
   * the page translates to the page's base: no offset is added.
   */
  lemma LargePageDropsOffset(mem: PhysMem, root: nat, v: nat, w: nat)
    requires v / 0x20_0000 == w / 0x20_0000
    requires IsPresent(Pml4e(mem, root, v)) && IsPresent(Pdpte(mem, root, v)) && !IsLarge(Pdpte(mem, root, v))
    requires IsPresent(Pde(mem, root, v)) && IsLarge(Pde(mem, root, v))
    ensures Translate(mem, root, w) == Translate(mem, root, v) == AddressOf(Pde(mem, root, v))
  {
    SameLargePageIndices(v, w);
  }

  /** 2 MiB and 1 GiB, the sizes of the PD and PDPT pages. */
  const LARGE_PAGE: nat := 0x20_0000
  const HUGE_PAGE: nat := 0x4000_0000

  /** Two addresses in the same 1 GiB page have the same PML4 and PDPT indices. */
  lemma SameHugePageIndices(v: nat, w: nat)
    requires v / HUGE_PAGE == w / HUGE_PAGE
    ensures Pml4Index(v) == Pml4Index(w) && PdptIndex(v) == PdptIndex(w)
  {
    Pow2Values();
    DivDiv(v, 30, 9);
    DivDiv(w, 30, 9);
  }

  /**
   * Through a 1 GiB page (a PDPT entry with the page-size bit) every address
   * of the page translates to the page's base: no offset is added.
   */
  lemma HugePageDropsOffset(mem: PhysMem, root: nat, v: nat, w: nat)
    requires v / HUGE_PAGE == w / HUGE_PAGE
    requires IsPresent(Pml4e(mem, root, v)) && IsPresent(Pdpte(mem, root, v)) && IsLarge(Pdpte(mem, root, v))
    ensures Translate(mem, root, w) == Translate(mem, root, v) == AddressOf(Pdpte(mem, root, v))
  {
    SameHugePageIndices(v, w);
  }

  /**
   * With the offset added, the addresses of one 1 GiB page land on distinct
   * bytes of the frame, at their offset inside the page.
   */
  lemma HugePageKeepsOffset(mem: PhysMem, root: nat, v: nat, w: nat)
    requires v / HUGE_PAGE == w / HUGE_PAGE
    requires IsPresent(Pml4e(mem, root, v)) && IsPresent(Pdpte(mem, root, v)) && IsLarge(Pdpte(mem, root, v))
    ensures TranslateWithOffset(mem, root, w) == AddressOf(Pdpte(mem, root, v)) + w % HUGE_PAGE
    ensures v != w ==> TranslateWithOffset(mem, root, v) != TranslateWithOffset(mem, root, w)
  {
    SameHugePageIndices(v, w);
    assert v == v / HUGE_PAGE * HUGE_PAGE + v % HUGE_PAGE;
    assert w == w / HUGE_PAGE * HUGE_PAGE + w % HUGE_PAGE;
  }

  /**
   * The translation with the offset inside a large page added, as on the
   * 4 KiB path.
   */
  function TranslateWithOffset(mem: PhysMem, root: nat, v: nat): nat
  {
    if !IsPresent(Pml4e(mem, root, v)) then 0
    else if !IsPresent(Pdpte(mem, root, v)) then 0
    else if IsLarge(Pdpte(mem, root, v)) then AddressOf(Pdpte(mem, root, v)) + v % HUGE_PAGE
    else if !IsPresent(Pde(mem, root, v)) then 0
    else if IsLarge(Pde(mem, root, v)) then AddressOf(Pde(mem, root, v)) + v % LARGE_PAGE
    else Translate(mem, root, v)
  }

  /**
   * With the offset added, the addresses of one 2 MiB page land on distinct
   * bytes of the frame, at their offset inside the page.
   */
  lemma LargePageKeepsOffset(mem: PhysMem, root: nat, v: nat, w: nat)
    requires v / LARGE_PAGE == w / LARGE_PAGE
    requires IsPresent(Pml4e(mem, root, v)) && IsPresent(Pdpte(mem, root, v)) && !IsLarge(Pdpte(mem, root, v))
    requires IsPresent(Pde(mem, root, v)) && IsLarge(Pde(mem, root, v))
    ensures TranslateWithOffset(mem, root, w) == AddressOf(Pde(mem, root, v)) + w % LARGE_PAGE
    ensures v != w ==> TranslateWithOffset(mem, root, v) != TranslateWithOffset(mem, root, w)
  {
    SameLargePageIndices(v, w);
    assert v == v / LARGE_PAGE * LARGE_PAGE + v % LARGE_PAGE;
    assert w == w / LARGE_PAGE * LARGE_PAGE + w % LARGE_PAGE;
  }

  /** Away from large pages the two translations agree. */
  lemma TranslateWithOffsetAgrees(mem: PhysMem, root: nat, v: nat)
    requires !IsLarge(Pdpte(mem, root, v)) && !IsLarge(Pde(mem, root, v))
    ensures TranslateWithOffset(mem, root, v) == Translate(mem, root, v)
  {
  }

  // ---------------------------------------------------------------------
  // Mapping round trip
  // ---------------------------------------------------------------------

  /** Flags of an intermediate level that make a walkable table entry. */
  predicate LinkFlags(f: nat)
  {
    IsPresent(f) && !IsLarge(f) && AddressOf(f) == 0
  }

  /** An entry a mapping can pass through: never written, or a present table. */
  predicate Linkable(e: nat)
  {
    e == 0 || (IsPresent(e) && !IsLarge(e))
  }

  /**
   * The walk for `v` meets only linkable entries, and unless `override` is
   * set the page itself is not mapped yet.
   */
  predicate ReadyToMap(mem: PhysMem, root: nat, v: nat, override: bool)
  {
    Linkable(Pml4e(mem, root, v))
    && (IsPresent(Pml4e(mem, root, v)) ==>
          Linkable(Pdpte(mem, root, v))
          && (IsPresent(Pdpte(mem, root, v)) ==>
                Linkable(Pde(mem, root, v))
                && (IsPresent(Pde(mem, root, v)) ==> override || !IsPresent(Pte(mem, root, v)))))
  }

  predicate Distinct4(a: nat, b: nat, c: nat, d: nat)
  {
    a != b && a != c && a != d && b != c && b != d && c != d
  }

  /** A linked entry is a present table entry pointing at the next table. */
  lemma LinkStepEntry(s: MemState, table: nat, idx: nat, lf: nat, override: bool)
    requires idx < ENTRIES && LinkFlags(lf)
    requires Linkable(Entry(s.mem, table, idx))
    ensures var (t, next) := LinkTable(s, table, idx, lf, override);
      && IsPresent(Entry(t.mem, table, idx)) && !IsLarge(Entry(t.mem, table, idx))
      && AddressOf(Entry(t.mem, table, idx)) == next
  {
    var e := Entry(s.mem, table, idx);
    var (t, next) := LinkTable(s, table, idx, lf, override);
    var e' := Entry(t.mem, table, idx);
    if !IsPresent(e) {
      LinkCreatesTable(s, table, idx, lf, override);
      assert e' == Or(lf, next);
      OrPresent(lf, next);
      OrLarge(lf, next);
    } else if override {
      LinkFollowsTable(s, table, idx, lf, override);
      assert e' == Or(AddressOf(e), lf);
      OrPresent(AddressOf(e), lf);
      OrLarge(AddressOf(e), lf);
    }
  }

  /**
   * One level of a mapping from a linkable entry: afterwards the entry is a
   * present table entry pointing at the next table, and the next table holds
   * what it held before, or zeros when it was just created.
   */
  lemma LinkStep(s: MemState, table: nat, idx: nat, lf: nat, override: bool)
    requires idx < ENTRIES && LinkFlags(lf)
    requires Linkable(Entry(s.mem, table, idx))
    requires LinkTable(s, table, idx, lf, override).1 != table
    ensures var (t, next) := LinkTable(s, table, idx, lf, override);
      && IsPresent(Entry(t.mem, table, idx)) && !IsLarge(Entry(t.mem, table, idx))
      && AddressOf(Entry(t.mem, table, idx)) == next
      && forall j :: 0 <= j < ENTRIES ==>
           Entry(t.mem, next, j) == if IsPresent(Entry(s.mem, table, idx)) then Entry(s.mem, next, j) else 0
  {
    LinkStepEntry(s, table, idx, lf, override);
    LinkKeepsOthers(s, table, idx, lf, override);
  }

  /**
   * Without `override`, mapping a page whose four entries are all present
   * changes nothing: no table is linked and the leaf keeps its frame.
   */
  lemma MapKeepsMapped(s: MemState, virt: nat, phys: nat, root: nat, flags: PagingFlags)
    requires IsPresent(Pml4e(s.mem, root, virt)) && IsPresent(Pdpte(s.mem, root, virt))
    requires IsPresent(Pde(s.mem, root, virt)) && IsPresent(Pte(s.mem, root, virt))
    ensures MapPageSpec(s, virt, phys, root, flags, false) == s
  {
    LinkFollowsTable(s, root, Pml4Index(virt), flags.pml4Flags, false);
    LinkFollowsTable(s, AddressOf(Pml4e(s.mem, root, virt)), PdptIndex(virt), flags.pdptFlags, false);
    LinkFollowsTable(s, AddressOf(Pdpte(s.mem, root, virt)), PdIndex(virt), flags.pdFlags, false);
  }

  /**
   * Mapping round trip: after mapping the aligned page `virt` to the aligned
   * frame `phys` with present flags and no page-size bit on the way, every
   * address of the page translates to the same offset in `phys`. The four
   * tables on the path are distinct frames.
   */
  lemma MapThenTranslate(s: MemState, virt: nat, phys: nat, root: nat, flags: PagingFlags, override: bool, o: nat)
    requires Aligned(virt) && Aligned(phys) && o < PAGE_SIZE
    requires LinkFlags(flags.pml4Flags) && LinkFlags(flags.pdptFlags) && LinkFlags(flags.pdFlags)
    requires IsPresent(flags.ptFlags) && AddressOf(flags.ptFlags) == 0
    requires ReadyToMap(s.mem, root, virt, override)
    requires var w := BuildPath(s, virt, root, flags, override); Distinct4(root, w.pdpt, w.pd, w.pt)
    ensures Translate(MapPageSpec(s, virt, phys, root, flags, override).mem, root, virt + o) == phys + o
  {
    var i1, i2, i3, i4 := Pml4Index(virt), PdptIndex(virt), PdIndex(virt), PtIndex(virt);
    var (s1, pdpt) := LinkTable(s, root, i1, flags.pml4Flags, override);
    var (s2, pd) := LinkTable(s1, pdpt, i2, flags.pdptFlags, override);
    var (s3, pt) := LinkTable(s2, pd, i3, flags.pdFlags, override);
    var m := SetLeaf(s3.mem, pt, i4, flags.ptFlags, phys, override);
    assert MapPageSpec(s, virt, phys, root, flags, override).mem == m;

    // PML4 level.
    LinkStep(s, root, i1, flags.pml4Flags, override);
    var e1 := Entry(s.mem, root, i1);
    // PDPT level: the entry is the old one or a zero of a fresh table.
    assert Entry(s1.mem, pdpt, i2) == if IsPresent(e1) then Pdpte(s.mem, root, virt) else 0;
    LinkStep(s1, pdpt, i2, flags.pdptFlags, override);
    var e2 := Entry(s1.mem, pdpt, i2);
    // PD level.
    assert Entry(s2.mem, pd, i3) == if IsPresent(e2) then Entry(s1.mem, pd, i3) else 0;
    assert IsPresent(e2) ==> IsPresent(e1) && Entry(s1.mem, pd, i3) == Pde(s.mem, root, virt);
    LinkStep(s2, pd, i3, flags.pdFlags, override);
    var e3 := Entry(s2.mem, pd, i3);
    // Leaf.
    assert Entry(s3.mem, pt, i4) == if IsPresent(e3) then Entry(s2.mem, pt, i4) else 0;
    assert IsPresent(e3) ==> IsPresent(e2) && IsPresent(e1) && Entry(s2.mem, pt, i4) == Pte(s.mem, root, virt);
    var leaf := Entry(m, pt, i4);
    assert AddressOf(leaf) == phys && IsPresent(leaf) by {
      assert leaf == Or(flags.ptFlags, phys);
      OrPresent(flags.ptFlags, phys);
    }

    // The upper entries survive the later levels.
    assert Entry(m, root, i1) == Entry(s1.mem, root, i1);
    assert Entry(m, pdpt, i2) == Entry(s2.mem, pdpt, i2);
    assert Entry(m, pd, i3) == Entry(s3.mem, pd, i3);
    IndicesIgnoreOffset(virt, o);
    assert Pml4e(m, root, virt + o) == Entry(s1.mem, root, i1);
    assert Pdpte(m, root, virt + o) == Entry(s2.mem, pdpt, i2);
    assert Pde(m, root, virt + o) == Entry(s3.mem, pd, i3);
    assert Pte(m, root, virt + o) == leaf;
  }

  // ---------------------------------------------------------------------
  // Tables the allocator holds
  // ---------------------------------------------------------------------

  /** A frame at a nonzero address that the allocator will not hand out. */
  predicate Held(fs: FA.Frames, a: nat)
  {
    a != 0 && !FA.IsFree(fs.bits, a / PAGE_SIZE)
  }

  /** `allocatePage` never returns a held frame, and a held frame stays held. */
  lemma AllocateMissesHeld(fs: FA.Frames, a: nat)
    requires Held(fs, a)
    ensures FA.Allocate(fs).0 != a && Held(FA.Allocate(fs).1, a)
  {
    FA.AllocateKeepsUsed(fs, a / PAGE_SIZE);
    if FA.Found(fs).Some? {
      var i := FA.Found(fs).value;
      assert FA.IsFree(fs.bits, i) && (PAGE_SIZE * i) / PAGE_SIZE == i;
    }
  }

  /**
   * From `s` to `t` every frame the allocator held stays held, and every
   * present entry of a table in a held frame keeps its value.
   */
  ghost predicate Keeps(s: MemState, t: MemState)
  {
    && (forall k :: !FA.IsFree(s.frames.bits, k) ==> !FA.IsFree(t.frames.bits, k))
    && (forall b, j {:trigger Entry(t.mem, b, j)} :: 0 <= j < ENTRIES && Held(s.frames, b) && IsPresent(Entry(s.mem, b, j)) ==>
          Entry(t.mem, b, j) == Entry(s.mem, b, j))
  }

  lemma KeepsTrans(a: MemState, b: MemState, c: MemState)
    requires Keeps(a, b) && Keeps(b, c)
    ensures Keeps(a, c)
  {
    forall t, j | 0 <= j < ENTRIES && Held(a.frames, t) && IsPresent(Entry(a.mem, t, j))
      ensures Entry(c.mem, t, j) == Entry(a.mem, t, j)
    {
      assert Held(b.frames, t) && Entry(b.mem, t, j) == Entry(a.mem, t, j);
    }
  }

  /**
   * Linking one level without `override` writes only a non-present entry and
   * the fresh table it allocates, so it keeps every present entry of every
   * held table.
   */
  lemma LinkKeeps(s: MemState, table: nat, idx: nat, levelFlags: nat)
    requires idx < ENTRIES
    ensures Keeps(s, LinkTable(s, table, idx, levelFlags, false).0)
  {
    var t := LinkTable(s, table, idx, levelFlags, false).0;
    if !IsPresent(Entry(s.mem, table, idx)) {
      forall b, j | 0 <= j < ENTRIES && Held(s.frames, b) && IsPresent(Entry(s.mem, b, j))
        ensures Entry(t.mem, b, j) == Entry(s.mem, b, j)
      {
        AllocateMissesHeld(s.frames, b);
      }
    }
  }

  /** The leaf step without `override` keeps every present entry. */
  lemma SetLeafKeeps(s: MemState, pt: nat, idx: nat, ptFlags: nat, phys: nat)
    requires idx < ENTRIES
    ensures Keeps(s, MemState(SetLeaf(s.mem, pt, idx, ptFlags, phys, false), s.frames))
  {
  }

  /**
   * Non-interference: mapping a page without `override` keeps every present
   * entry of every held table, whichever page it maps.
   */
  lemma MapKeeps(s: MemState, virt: nat, phys: nat, root: nat, flags: PagingFlags)
    ensures Keeps(s, MapPageSpec(s, virt, phys, root, flags, false))
  {
    var (s1, pdpt) := LinkTable(s, root, Pml4Index(virt), flags.pml4Flags, false);
    var (s2, pd) := LinkTable(s1, pdpt, PdptIndex(virt), flags.pdptFlags, false);
    var (s3, pt) := LinkTable(s2, pd, PdIndex(virt), flags.pdFlags, false);
    LinkKeeps(s, root, Pml4Index(virt), flags.pml4Flags);
    LinkKeeps(s1, pdpt, PdptIndex(virt), flags.pdptFlags);
    LinkKeeps(s2, pd, PdIndex(virt), flags.pdFlags);
    SetLeafKeeps(s3, pt, PtIndex(virt), flags.ptFlags, phys);
    KeepsTrans(s, s1, s2);
    KeepsTrans(s, s2, s3);
    KeepsTrans(s, s3, MapPageSpec(s, virt, phys, root, flags, false));
  }

  /**
   * `v` is mapped through 4 KiB tables held by the allocator: the root and
   * the three tables on its walk are held frames, its four entries are
   * present, and the PDPT and PD entries have no page-size bit.
   */
  ghost predicate Mapped(s: MemState, root: nat, v: nat)
  {
    && Held(s.frames, root)
    && IsPresent(Pml4e(s.mem, root, v)) && Held(s.frames, AddressOf(Pml4e(s.mem, root, v)))
    && IsPresent(Pdpte(s.mem, root, v)) && !IsLarge(Pdpte(s.mem, root, v)) && Held(s.frames, AddressOf(Pdpte(s.mem, root, v)))
    && IsPresent(Pde(s.mem, root, v)) && !IsLarge(Pde(s.mem, root, v)) && Held(s.frames, AddressOf(Pde(s.mem, root, v)))
    && IsPresent(Pte(s.mem, root, v))
  }

  /**
   * A page mapped through held tables stays mapped, to the same frame, across
   * any change that keeps present entries of held tables.
   */
  lemma KeepsMapped(s: MemState, t: MemState, root: nat, v: nat)
    requires Keeps(s, t) && Mapped(s, root, v)
    ensures Mapped(t, root, v) && Pte(t.mem, root, v) == Pte(s.mem, root, v)
    ensures Translate(t.mem, root, v) == Translate(s.mem, root, v) == AddressOf(Pte(s.mem, root, v)) + OffsetOf(v)
  {
    assert Pml4e(t.mem, root, v) == Pml4e(s.mem, root, v);
    assert Pdpte(t.mem, root, v) == Pdpte(s.mem, root, v);
    assert Pde(t.mem, root, v) == Pde(s.mem, root, v);
  }

  /**
   * Mapping any page without `override` leaves every page already mapped
   * through held tables mapped, with the same translation.
   */
  lemma MapKeepsOtherPages(s: MemState, virt: nat, phys: nat, root: nat, flags: PagingFlags, v: nat)
    requires Mapped(s, root, v)
    ensures Mapped(MapPageSpec(s, virt, phys, root, flags, false), root, v)
    ensures Translate(MapPageSpec(s, virt, phys, root, flags, false).mem, root, v) == Translate(s.mem, root, v)
  {
    MapKeeps(s, virt, phys, root, flags);
    KeepsMapped(s, MapPageSpec(s, virt, phys, root, flags, false), root, v);
  }

  /**
   * The tables the walk for `v` already reaches are held frames: the root,
   * and the table below each present PML4, PDPT and PD entry.
   */
  ghost predicate PathHeld(s: MemState, root: nat, v: nat)
  {
    Held(s.frames, root)
    && (IsPresent(Pml4e(s.mem, root, v)) ==>
          Held(s.frames, AddressOf(Pml4e(s.mem, root, v)))
          && (IsPresent(Pdpte(s.mem, root, v)) ==>
                Held(s.frames, AddressOf(Pdpte(s.mem, root, v)))
                && (IsPresent(Pde(s.mem, root, v)) ==> Held(s.frames, AddressOf(Pde(s.mem, root, v))))))
  }

  /**
   * The allocator can supply `n` fresh tables: it is initialised, counts at
   * least `n` free frames and holds frame 0, so none of them is address 0.
   */
  predicate CanSupply(fs: FA.Frames, n: nat)
  {
    fs.initialized && !FA.IsFree(fs.bits, 0) && FA.FreeCount(fs.bits) >= n
  }

  /**
   * One level linked from a held table through an entry that is 0 or a
   * present table held by the allocator: afterwards the entry is a present
   * table entry for a held frame. Entry `nextIdx` of that frame is what the
   * old table below held there, or 0 when the frame was just allocated; only
   * an allocation uses up one of the frames the allocator could supply.
   */
  lemma LinkHeld(s: MemState, table: nat, idx: nat, lf: nat, n: nat, nextIdx: nat)
    requires idx < ENTRIES && nextIdx < ENTRIES && LinkFlags(lf) && Held(s.frames, table)
    requires Linkable(Entry(s.mem, table, idx))
    requires IsPresent(Entry(s.mem, table, idx)) ==> Held(s.frames, AddressOf(Entry(s.mem, table, idx)))
    requires n >= 1 && CanSupply(s.frames, n)
    ensures var (t, next) := LinkTable(s, table, idx, lf, false);
      && Held(t.frames, next) && CanSupply(t.frames, n - 1)
      && IsPresent(Entry(t.mem, table, idx)) && !IsLarge(Entry(t.mem, table, idx))
      && AddressOf(Entry(t.mem, table, idx)) == next
      && (IsPresent(Entry(s.mem, table, idx)) ==> t == s)
      && Entry(t.mem, next, nextIdx) ==
           if IsPresent(Entry(s.mem, table, idx)) then Entry(s.mem, AddressOf(Entry(s.mem, table, idx)), nextIdx) else 0
  {
    var (t, next) := LinkTable(s, table, idx, lf, false);
    LinkKeeps(s, table, idx, lf);
    LinkStepEntry(s, table, idx, lf, false);
    if IsPresent(Entry(s.mem, table, idx)) {
      LinkFollowsTable(s, table, idx, lf, false);
    } else {
      FA.FoundWhenFree(s.frames);
      AllocateMissesHeld(s.frames, table);
      LinkKeepsOthers(s, table, idx, lf, false);
    }
  }

  /**
   * The three links of a mapping for a page that is ready for it, through
   * tables the allocator holds and with frames to spare: afterwards the PML4,
   * PDPT and PD entries of the walk are present table entries for the held
   * frames the walk returns, and the leaf is still not present.
   */
  lemma BuildPathHeld(s: MemState, virt: nat, root: nat, flags: PagingFlags)
    requires LinkFlags(flags.pml4Flags) && LinkFlags(flags.pdptFlags) && LinkFlags(flags.pdFlags)
    requires ReadyToMap(s.mem, root, virt, false) && PathHeld(s, root, virt) && CanSupply(s.frames, 3)
    ensures var w := BuildPath(s, virt, root, flags, false);
      var m := w.state.mem;
      && IsPresent(Entry(m, root, Pml4Index(virt))) && AddressOf(Entry(m, root, Pml4Index(virt))) == w.pdpt
      && IsPresent(Entry(m, w.pdpt, PdptIndex(virt))) && !IsLarge(Entry(m, w.pdpt, PdptIndex(virt)))
      && AddressOf(Entry(m, w.pdpt, PdptIndex(virt))) == w.pd
      && IsPresent(Entry(m, w.pd, PdIndex(virt))) && !IsLarge(Entry(m, w.pd, PdIndex(virt)))
      && AddressOf(Entry(m, w.pd, PdIndex(virt))) == w.pt
      && Held(w.state.frames, root) && Held(w.state.frames, w.pdpt) && Held(w.state.frames, w.pd) && Held(w.state.frames, w.pt)
      && !IsPresent(Entry(m, w.pt, PtIndex(virt)))
  {
    var i1, i2, i3, i4 := Pml4Index(virt), PdptIndex(virt), PdIndex(virt), PtIndex(virt);
    var p1, p2, p3 := IsPresent(Pml4e(s.mem, root, virt)), IsPresent(Pdpte(s.mem, root, virt)), IsPresent(Pde(s.mem, root, virt));
    var (s1, pdpt) := LinkTable(s, root, i1, flags.pml4Flags, false);
    var (s2, pd) := LinkTable(s1, pdpt, i2, flags.pdptFlags, false);
    var (s3, pt) := LinkTable(s2, pd, i3, flags.pdFlags, false);

    LinkHeld(s, root, i1, flags.pml4Flags, 3, i2);
    var e2 := Entry(s1.mem, pdpt, i2);
    assert e2 == if p1 then Pdpte(s.mem, root, virt) else 0;
    assert IsPresent(e2) ==> Held(s1.frames, AddressOf(e2));

    LinkHeld(s1, pdpt, i2, flags.pdptFlags, 2, i3);
    LinkKeepsEntry(s1, pdpt, i2, flags.pdptFlags, root, i1);
    var e3 := Entry(s2.mem, pd, i3);
    assert e3 == if p1 && p2 then Pde(s.mem, root, virt) else 0;
    assert IsPresent(e3) ==> Held(s2.frames, AddressOf(e3));

    LinkHeld(s2, pd, i3, flags.pdFlags, 1, i4);
    LinkKeepsEntry(s2, pd, i3, flags.pdFlags, root, i1);
    LinkKeepsEntry(s2, pd, i3, flags.pdFlags, pdpt, i2);
    assert Entry(s3.mem, pt, i4) == if p1 && p2 && p3 then Pte(s.mem, root, virt) else 0;
  }

  /** A link keeps a present entry of a held table, and the table held. */
  lemma LinkKeepsEntry(s: MemState, table: nat, idx: nat, lf: nat, b: nat, j: nat)
    requires idx < ENTRIES && j < ENTRIES && Held(s.frames, b) && IsPresent(Entry(s.mem, b, j))
    ensures var t := LinkTable(s, table, idx, lf, false).0;
      Entry(t.mem, b, j) == Entry(s.mem, b, j) && Held(t.frames, b)
  {
    LinkKeeps(s, table, idx, lf);
  }

  /** The three links of a mapping, without `override`, keep held tables' present entries. */
  lemma BuildPathKeeps(s: MemState, virt: nat, root: nat, flags: PagingFlags)
    ensures Keeps(s, BuildPath(s, virt, root, flags, false).state)
  {
    var (s1, pdpt) := LinkTable(s, root, Pml4Index(virt), flags.pml4Flags, false);
    var (s2, pd) := LinkTable(s1, pdpt, PdptIndex(virt), flags.pdptFlags, false);
    LinkKeeps(s, root, Pml4Index(virt), flags.pml4Flags);
    LinkKeeps(s1, pdpt, PdptIndex(virt), flags.pdptFlags);
    LinkKeeps(s2, pd, PdIndex(virt), flags.pdFlags);
    KeepsTrans(s, s1, s2);
    KeepsTrans(s, s2, BuildPath(s, virt, root, flags, false).state);
  }

  /**
   * Mapping a page that is ready for it, without `override`, through tables
   * the allocator holds and with frames to spare for missing tables: the page
   * ends up mapped through held tables to `phys`, and translates to `phys`
   * plus its offset.
   */
  lemma MapMakesMapped(s: MemState, virt: nat, phys: nat, root: nat, flags: PagingFlags)
    requires Aligned(phys)
    requires LinkFlags(flags.pml4Flags) && LinkFlags(flags.pdptFlags) && LinkFlags(flags.pdFlags)
    requires IsPresent(flags.ptFlags) && AddressOf(flags.ptFlags) == 0
    requires ReadyToMap(s.mem, root, virt, false) && PathHeld(s, root, virt) && CanSupply(s.frames, 3)
    ensures var t := MapPageSpec(s, virt, phys, root, flags, false);
      && Keeps(s, t) && Mapped(t, root, virt)
      && AddressOf(Pte(t.mem, root, virt)) == phys
      && Translate(t.mem, root, virt) == phys + OffsetOf(virt)
  {
    var w := BuildPath(s, virt, root, flags, false);
    BuildPathHeld(s, virt, root, flags);
    BuildPathKeeps(s, virt, root, flags);
    var i4 := PtIndex(virt);
    var t := MapPageSpec(s, virt, phys, root, flags, false);
    assert t == MemState(SetLeaf(w.state.mem, w.pt, i4, flags.ptFlags, phys, false), w.state.frames);
    var leaf := Entry(t.mem, w.pt, i4);
    assert AddressOf(leaf) == phys && IsPresent(leaf) by {
      assert leaf == Or(flags.ptFlags, phys);
      OrPresent(flags.ptFlags, phys);
    }
    SetLeafKeeps(w.state, w.pt, i4, flags.ptFlags, phys);
    KeepsTrans(s, w.state, t);
    assert Pml4e(t.mem, root, virt) == Entry(w.state.mem, root, Pml4Index(virt));
    assert Pdpte(t.mem, root, virt) == Entry(w.state.mem, w.pdpt, PdptIndex(virt));
    assert Pde(t.mem, root, virt) == Entry(w.state.mem, w.pd, PdIndex(virt));
  }

  /**
   * `allocatePage` for a page's frame, with frames to spare: the frame is
   * aligned and nonzero, the tables are untouched, held frames stay held and
   * one fewer frame is left to supply.
   */
  lemma AllocateForPage(s: MemState, root: nat, v: nat, n: nat)
    requires PathHeld(s, root, v) && n >= 1 && CanSupply(s.frames, n)
    ensures var (phys, f) := FA.Allocate(s.frames);
      && Keeps(s, MemState(s.mem, f)) && PathHeld(MemState(s.mem, f), root, v)
      && CanSupply(f, n - 1) && Aligned(phys) && phys != 0
  {
    AllocateKeeps(s);
    FA.FoundWhenFree(s.frames);
  }

  /** `allocatePage` only marks a free frame used, so it keeps held tables' entries. */
  lemma AllocateKeeps(s: MemState)
    ensures Keeps(s, MemState(s.mem, FA.Allocate(s.frames).1))
  {
    forall k | !FA.IsFree(s.frames.bits, k)
      ensures !FA.IsFree(FA.Allocate(s.frames).1.bits, k)
    {
      FA.AllocateKeepsUsed(s.frames, k);
    }
  }

  /** A frame allocated and then mapped at `virt`, without `override`, keeps held tables' entries. */
  lemma AllocateMapKeeps(s: MemState, virt: nat, root: nat, flags: PagingFlags, phys: nat, u: MemState, t: MemState)
    requires (phys, u.frames) == FA.Allocate(s.frames) && u.mem == s.mem
    requires t == MapPageSpec(u, virt, phys, root, flags, false)
    ensures Keeps(s, t)
  {
    AllocateKeeps(s);
    MapKeeps(u, virt, phys, root, flags);
    KeepsTrans(s, u, t);
  }

  /**
   * `pagingMapMemoryInTable` without `override` leaves every page already
   * mapped through held tables mapped, with the same translation, page after
   * page.
   */
  lemma {:induction false} MapPagesKeepsMapped(s: MemState, virt: nat, phys: nat, root: nat, flags: PagingFlags, n: nat, v: nat)
    requires Mapped(s, root, v)
    ensures Mapped(MapPages(s, virt, phys, root, flags, false, n), root, v)
    ensures Translate(MapPages(s, virt, phys, root, flags, false, n).mem, root, v) == Translate(s.mem, root, v)
    decreases n
  {
    if n == 0 {
      assert MapPages(s, virt, phys, root, flags, false, n) == s;
    } else {
      var m: nat := n - 1;
      MapPagesKeepsMapped(s, virt, phys, root, flags, m, v);
      MapNextKeepsMapped(s, virt, phys, root, flags, m, n, v);
    }
  }

  /** Page `m` of a range leaves a page mapped after the first `m` as it was. */
  lemma MapNextKeepsMapped(s: MemState, virt: nat, phys: nat, root: nat, flags: PagingFlags, m: nat, n: nat, v: nat)
    requires n == m + 1 && Mapped(MapPages(s, virt, phys, root, flags, false, m), root, v)
    ensures Mapped(MapPages(s, virt, phys, root, flags, false, n), root, v)
    ensures Translate(MapPages(s, virt, phys, root, flags, false, n).mem, root, v)
      == Translate(MapPages(s, virt, phys, root, flags, false, m).mem, root, v)
  {
    MapPagesStep(s, virt, phys, root, flags, false, m);
    MapKeepsOtherPages(MapPages(s, virt, phys, root, flags, false, m),
      Wrap(virt + m * PAGE_SIZE), Wrap(phys + m * PAGE_SIZE), root, flags, v);
  }

  /** A page-aligned frame `k` pages further on is still aligned once wrapped to 64 bits. */
  lemma AlignedWrap(phys: nat, k: nat)
    requires Aligned(phys)
    ensures Aligned(Wrap(phys + k * PAGE_SIZE))
  {
    var y := phys + k * PAGE_SIZE;
    var q := y / TWO_64;
    var a := phys / PAGE_SIZE + k;
    assert y == q * TWO_64 + Wrap(y);
    assert y == a * PAGE_SIZE;
    assert TWO_64 == 0x10_0000_0000_0000 * PAGE_SIZE;
    assert Wrap(y) == (a - q * 0x10_0000_0000_0000) * PAGE_SIZE;
  }

  /**
   * `pagingMapMemoryInTable` without `override`: page `k` of the range, when
   * it is ready to be mapped through held tables at its turn and the
   * allocator can supply three tables, ends the whole range mapped through
   * held tables to frame `phys + k * PAGE_SIZE`, and translates to that frame
   * plus its offset; later pages never remap it.
   */
  lemma {:induction false} MapPagesMapsPage(s: MemState, virt: nat, phys: nat, root: nat, flags: PagingFlags, n: nat, k: nat)
    requires k < n && Aligned(phys)
    requires LinkFlags(flags.pml4Flags) && LinkFlags(flags.pdptFlags) && LinkFlags(flags.pdFlags)
    requires IsPresent(flags.ptFlags) && AddressOf(flags.ptFlags) == 0
    requires var before := MapPages(s, virt, phys, root, flags, false, k);
      var v := Wrap(virt + k * PAGE_SIZE);
      ReadyToMap(before.mem, root, v, false) && PathHeld(before, root, v) && CanSupply(before.frames, 3)
    ensures var t := MapPages(s, virt, phys, root, flags, false, n);
      var v := Wrap(virt + k * PAGE_SIZE);
      && Mapped(t, root, v)
      && Translate(t.mem, root, v) == Wrap(phys + k * PAGE_SIZE) + OffsetOf(v)
    decreases n
  {
    if n == k + 1 {
      MapPagesMapsTurn(s, virt, phys, root, flags, k, n);
    } else {
      var m: nat := n - 1;
      MapPagesMapsPage(s, virt, phys, root, flags, m, k);
      MapNextKeepsMapped(s, virt, phys, root, flags, m, n, Wrap(virt + k * PAGE_SIZE));
    }
  }

  /** Page `k` of the range at its own turn. */
  lemma MapPagesMapsTurn(s: MemState, virt: nat, phys: nat, root: nat, flags: PagingFlags, k: nat, n: nat)
    requires n == k + 1 && Aligned(phys)
    requires LinkFlags(flags.pml4Flags) && LinkFlags(flags.pdptFlags) && LinkFlags(flags.pdFlags)
    requires IsPresent(flags.ptFlags) && AddressOf(flags.ptFlags) == 0
    requires var before := MapPages(s, virt, phys, root, flags, false, k);
      var v := Wrap(virt + k * PAGE_SIZE);
      ReadyToMap(before.mem, root, v, false) && PathHeld(before, root, v) && CanSupply(before.frames, 3)
    ensures var t := MapPages(s, virt, phys, root, flags, false, n);
      var v := Wrap(virt + k * PAGE_SIZE);
      && Mapped(t, root, v)
      && Translate(t.mem, root, v) == Wrap(phys + k * PAGE_SIZE) + OffsetOf(v)
  {
    var before := MapPages(s, virt, phys, root, flags, false, k);
    var v, f := Wrap(virt + k * PAGE_SIZE), Wrap(phys + k * PAGE_SIZE);
    MapPagesStep(s, virt, phys, root, flags, false, k);
    AlignedWrap(phys, k);
    MapMakesMapped(before, v, f, root, flags);
  }

  // ---------------------------------------------------------------------
  // Unmapping
  // ---------------------------------------------------------------------

  /**
   * The scan of `pagingIsPagetableEmpty` from entry `start` on: whether no
   * entry at or after `start` is present. A start past the table reports it
   * empty without looking.
   */
  function NoPresentFrom(t: Table, start: nat): (r: bool)
    ensures r <==> forall j :: start <= j < |t| ==> !IsPresent(t[j])
    decreases if start < |t| then |t| - start else 0
  {
    if start >= |t| then true
    else if IsPresent(t[start]) then false
    else NoPresentFrom(t, start + 1)
  }

  /** `pagingIsPagetableEmpty` with its scan started at entry 0. */
  function IsPagetableEmpty(t: Table): (r: bool)
    ensures r <==> forall j :: 0 <= j < |t| ==> !IsPresent(t[j])
  {
    NoPresentFrom(t, 0)
  }

  /**
   * The scan with the start index the kernel leaves uninitialised: a start
   * past the only present entry reports a table in use as empty.
   */
  lemma UninitialisedScanMissesEntry()
    ensures var t := ZeroTable()[0 := 1];
      NoPresentFrom(t, 1) && !IsPagetableEmpty(t)
  {
    var t := ZeroTable()[0 := 1];
    assert IsPresent(t[0]);
  }

  /** `freePage` of `a` when `cond` holds. */
  function FreeIf(fs: FA.Frames, cond: bool, a: nat): FA.Frames
  {
    if cond then FA.Free(fs, a) else fs
  }

  /**
   * `pagingUnmapPageInSpace`, with `scanStart` for the value the uninitialised
   * index of `pagingIsPagetableEmpty` starts from. When some level of the walk
   * is not present it returns 0 and changes nothing; otherwise it returns the
   * page's address, clears the leaf's present bit and reclaims, bottom up,
   * each table whose scan reports no present entry.
   */
  function UnmapSpec(s: MemState, virt: nat, root: nat, scanStart: nat): (r: (MemState, nat))
    ensures (!IsPresent(Pml4e(s.mem, root, virt)) || !IsPresent(Pdpte(s.mem, root, virt))
      || !IsPresent(Pde(s.mem, root, virt)) || !IsPresent(Pte(s.mem, root, virt))) ==> r == (s, 0)
    ensures (IsPresent(Pml4e(s.mem, root, virt)) && IsPresent(Pdpte(s.mem, root, virt))
      && IsPresent(Pde(s.mem, root, virt)) && IsPresent(Pte(s.mem, root, virt))) ==>
      r.1 == AddressOf(Pte(s.mem, root, virt))
    ensures FA.Total(r.0.frames) == FA.Total(s.frames) && |r.0.frames.bits| == |s.frames.bits|
  {
    var e1 := Pml4e(s.mem, root, virt);
    var e2 := Pdpte(s.mem, root, virt);
    var e3 := Pde(s.mem, root, virt);
    var e4 := Pte(s.mem, root, virt);
    if !(IsPresent(e1) && IsPresent(e2) && IsPresent(e3) && IsPresent(e4)) then (s, 0)
    else
      var pdpt, pd, pt := AddressOf(e1), AddressOf(e2), AddressOf(e3);
      var m1 := Store(s.mem, pt, PtIndex(virt), ClearPresent(e4));
      if !NoPresentFrom(TableAt(m1, pt), scanStart) then (MemState(m1, s.frames), AddressOf(e4))
      else
        var f1 := FA.Free(s.frames, pt);
        var m2 := Store(m1, pd, PdIndex(virt), ClearPresent(e3));
        if !NoPresentFrom(TableAt(m2, pd), scanStart) then (MemState(m2, f1), AddressOf(e4))
        else
          var f2 := FA.Free(f1, pd);
          var m3 := Store(m2, pdpt, PdptIndex(virt), ClearPresent(e2));
          if !NoPresentFrom(TableAt(m3, pdpt), scanStart) then (MemState(m3, f2), AddressOf(e4))
          else (MemState(Store(m3, root, Pml4Index(virt), ClearPresent(e1)), FA.Free(f2, pdpt)), AddressOf(e4))
  }

  /**
   * The cascade of `pagingUnmapPageInSpace` when the page is mapped through
   * four distinct tables: the leaf loses its present bit; going up, each of
   * the PD, PDPT and PML4 entries on the path loses its present bit, and the
   * table below it goes back to the allocator, exactly when every table below
   * was reclaimed and the scan of this one reports no present entry; nothing
   * else in the tables changes and the PML4 is never given back. Scanning
   * from entry 0, a table is reported empty only when no entry of it is
   * present, so a scan never reports a table empty above one it kept.
   */
  lemma UnmapReclaimsEmptyTables(s: MemState, virt: nat, root: nat, scanStart: nat)
    requires IsPresent(Pml4e(s.mem, root, virt)) && IsPresent(Pdpte(s.mem, root, virt))
    requires IsPresent(Pde(s.mem, root, virt)) && IsPresent(Pte(s.mem, root, virt))
    requires Distinct4(root, AddressOf(Pml4e(s.mem, root, virt)), AddressOf(Pdpte(s.mem, root, virt)), AddressOf(Pde(s.mem, root, virt)))
    ensures var t := UnmapSpec(s, virt, root, scanStart).0;
      var e1, e2, e3, e4 := Pml4e(s.mem, root, virt), Pdpte(s.mem, root, virt), Pde(s.mem, root, virt), Pte(s.mem, root, virt);
      var pdpt, pd, pt := AddressOf(e1), AddressOf(e2), AddressOf(e3);
      var ptEmpty := NoPresentFrom(TableAt(t.mem, pt), scanStart);
      var pdEmpty := NoPresentFrom(TableAt(t.mem, pd), scanStart);
      var pdptEmpty := NoPresentFrom(TableAt(t.mem, pdpt), scanStart);
      && Entry(t.mem, pt, PtIndex(virt)) == ClearPresent(e4)
      && Entry(t.mem, pd, PdIndex(virt)) == (if ptEmpty then ClearPresent(e3) else e3)
      && Entry(t.mem, pdpt, PdptIndex(virt)) == (if ptEmpty && pdEmpty then ClearPresent(e2) else e2)
      && Entry(t.mem, root, Pml4Index(virt)) == (if ptEmpty && pdEmpty && pdptEmpty then ClearPresent(e1) else e1)
      && (scanStart == 0 ==> (pdEmpty ==> ptEmpty) && (pdptEmpty ==> pdEmpty))
      && (forall b: nat, j :: (0 <= j < ENTRIES
            && (b, j) != (pt, PtIndex(virt)) && (b, j) != (pd, PdIndex(virt))
            && (b, j) != (pdpt, PdptIndex(virt)) && (b, j) != (root, Pml4Index(virt))) ==>
            Entry(t.mem, b, j) == Entry(s.mem, b, j))
      && t.frames == FreeIf(FreeIf(FreeIf(s.frames, ptEmpty, pt), ptEmpty && pdEmpty, pd), ptEmpty && pdEmpty && pdptEmpty, pdpt)
  {
    var i1, i2, i3, i4 := Pml4Index(virt), PdptIndex(virt), PdIndex(virt), PtIndex(virt);
    var e1, e2, e3, e4 := Pml4e(s.mem, root, virt), Pdpte(s.mem, root, virt), Pde(s.mem, root, virt), Pte(s.mem, root, virt);
    var pdpt, pd, pt := AddressOf(e1), AddressOf(e2), AddressOf(e3);
    var t := UnmapSpec(s, virt, root, scanStart).0;
    var m1 := Store(s.mem, pt, i4, ClearPresent(e4));
    var m2 := Store(m1, pd, i3, ClearPresent(e3));
    var m3 := Store(m2, pdpt, i2, ClearPresent(e2));
    ClearPresentKeeps(e3);
    ClearPresentKeeps(e2);
    if !NoPresentFrom(TableAt(m1, pt), scanStart) {
      assert t.mem == m1;
      assert TableAt(t.mem, pd)[i3] == e3;
      assert TableAt(t.mem, pdpt)[i2] == e2;
    } else if !NoPresentFrom(TableAt(m2, pd), scanStart) {
      assert t.mem == m2;
      assert TableAt(t.mem, pt) == TableAt(m1, pt);
      assert TableAt(t.mem, pdpt)[i2] == e2;
    } else if !NoPresentFrom(TableAt(m3, pdpt), scanStart) {
      assert t.mem == m3;
      assert TableAt(t.mem, pt) == TableAt(m1, pt);
      assert TableAt(t.mem, pd) == TableAt(m2, pd);
    } else {
      assert t.mem == Store(m3, root, i1, ClearPresent(e1));
      assert TableAt(t.mem, pt) == TableAt(m1, pt);
      assert TableAt(t.mem, pd) == TableAt(m2, pd);
      assert TableAt(t.mem, pdpt) == TableAt(m3, pdpt);
    }
  }

  /**
   * After unmapping a page reached through 4 KiB tables, its address no
   * longer translates.
   */
  lemma UnmapThenTranslate(s: MemState, virt: nat, root: nat, scanStart: nat)
    requires IsPresent(Pml4e(s.mem, root, virt)) && IsPresent(Pdpte(s.mem, root, virt))
    requires IsPresent(Pde(s.mem, root, virt)) && IsPresent(Pte(s.mem, root, virt))
    requires !IsLarge(Pdpte(s.mem, root, virt)) && !IsLarge(Pde(s.mem, root, virt))
    requires Distinct4(root, AddressOf(Pml4e(s.mem, root, virt)), AddressOf(Pdpte(s.mem, root, virt)), AddressOf(Pde(s.mem, root, virt)))
    ensures Translate(UnmapSpec(s, virt, root, scanStart).0.mem, root, virt) == 0
  {
    UnmapReclaimsEmptyTables(s, virt, root, scanStart);
    var e1, e2, e3, e4 := Pml4e(s.mem, root, virt), Pdpte(s.mem, root, virt), Pde(s.mem, root, virt), Pte(s.mem, root, virt);
    ClearPresentKeeps(e1);
    ClearPresentKeeps(e2);
    ClearPresentKeeps(e3);
    ClearPresentKeeps(e4);
  }

  /**
   * The scan as written, started past a live entry: a PT that still maps a
   * neighbouring page `w` is reported empty, its frame goes back to the
   * allocator and the PD entry above it is cleared, so `w` stops translating
   * although its own entry is still present in the reclaimed frame.
   */
  lemma UnmapFreesLiveTable(s: MemState, virt: nat, root: nat, scanStart: nat, w: nat)
    requires IsPresent(Pml4e(s.mem, root, virt)) && IsPresent(Pdpte(s.mem, root, virt))
    requires IsPresent(Pde(s.mem, root, virt)) && IsPresent(Pte(s.mem, root, virt))
    requires !IsLarge(Pdpte(s.mem, root, virt))
    requires Distinct4(root, AddressOf(Pml4e(s.mem, root, virt)), AddressOf(Pdpte(s.mem, root, virt)), AddressOf(Pde(s.mem, root, virt)))
    requires Pml4Index(w) == Pml4Index(virt) && PdptIndex(w) == PdptIndex(virt) && PdIndex(w) == PdIndex(virt)
    requires PtIndex(w) != PtIndex(virt) && PtIndex(w) < scanStart && IsPresent(Pte(s.mem, root, w))
    requires forall k :: scanStart <= k < ENTRIES && k != PtIndex(virt) ==>
      !IsPresent(Entry(s.mem, AddressOf(Pde(s.mem, root, virt)), k))
    ensures var t := UnmapSpec(s, virt, root, scanStart).0;
      var pt := AddressOf(Pde(s.mem, root, virt));
      && Entry(t.mem, pt, PtIndex(w)) == Pte(s.mem, root, w)
      && Entry(t.mem, AddressOf(Pdpte(s.mem, root, virt)), PdIndex(virt)) == ClearPresent(Pde(s.mem, root, virt))
      && (s.frames.initialized && pt / PAGE_SIZE < |s.frames.bits| ==> FA.IsFree(t.frames.bits, pt / PAGE_SIZE))
      && Translate(t.mem, root, w) == 0
  {
    var e1, e2, e3, e4 := Pml4e(s.mem, root, virt), Pdpte(s.mem, root, virt), Pde(s.mem, root, virt), Pte(s.mem, root, virt);
    var pdpt, pd, pt := AddressOf(e1), AddressOf(e2), AddressOf(e3);
    var t := UnmapSpec(s, virt, root, scanStart).0;
    var m1 := Store(s.mem, pt, PtIndex(virt), ClearPresent(e4));
    ClearPresentKeeps(e4);
    assert NoPresentFrom(TableAt(m1, pt), scanStart) by {
      forall k | scanStart <= k < ENTRIES
        ensures !IsPresent(TableAt(m1, pt)[k])
      {
        assert TableAt(m1, pt)[k] == if k == PtIndex(virt) then ClearPresent(e4) else Entry(s.mem, pt, k);
      }
    }
    UnmapReclaimsEmptyTables(s, virt, root, scanStart);
    assert TableAt(t.mem, pt) == TableAt(m1, pt);
    var f1 := FA.Free(s.frames, pt);
    var pdEmpty := NoPresentFrom(TableAt(t.mem, pd), scanStart);
    var pdptEmpty := NoPresentFrom(TableAt(t.mem, pdpt), scanStart);
    var f2 := FreeIf(f1, pdEmpty, pd);
    assert t.frames == FreeIf(f2, pdEmpty && pdptEmpty, pdpt);
    ClearPresentKeeps(e1);
    ClearPresentKeeps(e2);
    ClearPresentKeeps(e3);
  }

  /**
   * The scan from entry 0, as evidently intended: unmapping a page leaves a
   * PT that still maps a neighbouring page `w` in place, gives no frame back
   * and leaves `w`'s translation as it was.
   */
  lemma UnmapFullScanKeepsNeighbours(s: MemState, virt: nat, root: nat, w: nat)
    requires IsPresent(Pml4e(s.mem, root, virt)) && IsPresent(Pdpte(s.mem, root, virt))
    requires IsPresent(Pde(s.mem, root, virt)) && IsPresent(Pte(s.mem, root, virt))
    requires Distinct4(root, AddressOf(Pml4e(s.mem, root, virt)), AddressOf(Pdpte(s.mem, root, virt)), AddressOf(Pde(s.mem, root, virt)))
    requires Pml4Index(w) == Pml4Index(virt) && PdptIndex(w) == PdptIndex(virt) && PdIndex(w) == PdIndex(virt)
    requires PtIndex(w) != PtIndex(virt) && IsPresent(Pte(s.mem, root, w))
    ensures var t := UnmapSpec(s, virt, root, 0).0;
      && t.frames == s.frames
      && Translate(t.mem, root, w) == Translate(s.mem, root, w)
  {
    var e1, e2, e3 := Pml4e(s.mem, root, virt), Pdpte(s.mem, root, virt), Pde(s.mem, root, virt);
    var t := UnmapSpec(s, virt, root, 0).0;
    UnmapReclaimsEmptyTables(s, virt, root, 0);
    var pt := AddressOf(e3);
    assert Entry(t.mem, pt, PtIndex(w)) == Pte(s.mem, root, w);
    assert !NoPresentFrom(TableAt(t.mem, pt), 0);
  }

  // ---------------------------------------------------------------------
  // The stale address of an unmapped table entry
  // ---------------------------------------------------------------------

  /**
   * Unmapping leaves the address bits in an entry whose table it reclaimed.
   * When a later mapping finds that entry not present, it ORs the fresh
   * table's address into the stale one: an entry left pointing at frame
   * 0x5000, linked while the allocator's lowest free frame is 0x3000 (as in
   * FourthFrameHandedOut), ends up pointing at 0x7000, a frame the allocator
   * never handed out for this table.
   */
  lemma StaleEntryCorruptsLink(s: MemState)
    requires Entry(s.mem, 0, 0) == 0x5000
    requires FA.Allocate(s.frames).0 == 0x3000
    ensures var r := LinkTable(s, 0, 0, 0x3, false);
      && r.1 == 0x3000
      && AddressOf(Entry(r.0.mem, 0, 0)) == 0x7000
  {
    LinkCreatesTable(s, 0, 0, 0x3, false);
    OrShifted12(5, 3);
    assert Or(5, 3) == 7;
  }

  /** An allocator whose lowest free frame is frame 3 hands out 0x3000. */
  lemma FourthFrameHandedOut()
    ensures FA.Allocate(FA.Frames([false, false, false, true], PAGE_SIZE, 3 * PAGE_SIZE, 0, true)).0 == 0x3000
  {
    var bits := [false, false, false, true];
    assert FA.FirstFreeFrom(bits, 3) == Some(3);
    assert FA.FirstFreeFrom(bits, 0) == Some(3);
  }

  /**
   * The link as evidently intended: a non-present entry is cleared before the
   * level's flags and the fresh table's address are written, as the leaf
   * step already does. A present entry is linked exactly as before.
   */
  function LinkTableCleared(s: MemState, table: nat, idx: nat, levelFlags: nat, override: bool): (r: (MemState, nat))
    requires idx < ENTRIES
    ensures IsPresent(Entry(s.mem, table, idx)) ==> r == LinkTable(s, table, idx, levelFlags, override)
    ensures r.0.frames == LinkTable(s, table, idx, levelFlags, override).0.frames
  {
    var e := Entry(s.mem, table, idx);
    if !IsPresent(e) then
      var (next, frames') := FA.Allocate(s.frames);
      (MemState(Store(Zero(s.mem, next), table, idx, Or(levelFlags, next)), frames'), next)
    else
      LinkTable(s, table, idx, levelFlags, override)
  }

  /**
   * With the entry cleared first, a non-present entry, whatever stale bits it
   * holds, links to exactly the fresh table, with exactly the level's flags.
   */
  lemma ClearedLinkIgnoresStaleAddress(s: MemState, table: nat, idx: nat, levelFlags: nat, override: bool)
    requires idx < ENTRIES && LinkFlags(levelFlags)
    requires !IsPresent(Entry(s.mem, table, idx))
    ensures var r := LinkTableCleared(s, table, idx, levelFlags, override);
      var e' := Entry(r.0.mem, table, idx);
      && IsPresent(e') && !IsLarge(e')
      && AddressOf(e') == r.1 && OffsetOf(e') == OffsetOf(levelFlags)
  {
    var r := LinkTableCleared(s, table, idx, levelFlags, override);
    var e' := Entry(r.0.mem, table, idx);
    assert e' == Or(levelFlags, r.1);
    OrPresent(levelFlags, r.1);
    OrLarge(levelFlags, r.1);
    OrParts(levelFlags, r.1);
  }

  // ---------------------------------------------------------------------
  // The page-table manager object
  // ---------------------------------------------------------------------

  class Mmu {
    /** Page-table frames and their entries. */
    var mem: PhysMem
    /** The root of the current address space, as `cr3` holds it. */
    var cr3: nat
    /** The kernel's physical frame allocator (`memoryPhysicalAllocator`). */
    const frames: FA.BitmapAllocator

    ghost function State(): MemState
      reads this, frames, frames.bitmap
    {
      MemState(mem, frames.State())
    }

    ghost predicate Valid()
      reads this, frames
    {
      frames.Valid()
    }

    constructor (allocator: FA.BitmapAllocator, root: nat)
      ensures frames == allocator && mem == map[] && cr3 == root
    {
      frames := allocator;
      mem := map[];
      cr3 := root;
    }

    /** One intermediate level of `pagingMapPageInSpace`. */
    method LinkLevel(table: nat, idx: nat, levelFlags: nat, override: bool) returns (next: nat)
      requires Valid() && idx < ENTRIES
      modifies this, frames, frames.bitmap
      ensures Valid() && frames.bitmap == old(frames.bitmap) && cr3 == old(cr3)
      ensures (State(), next) == LinkTable(old(State()), table, idx, levelFlags, override)
    {
      var e := Entry(mem, table, idx);
      if !IsPresent(e) {
        e := Or(e, levelFlags);
        next := frames.AllocatePage();
        mem := Zero(mem, next);
        e := Or(e, next);
        mem := Store(mem, table, idx, e);
      } else {
        next := AddressOf(e);
        if override {
          e := AddressOf(e);
          e := Or(e, levelFlags);
          mem := Store(mem, table, idx, e);
        }
      }
    }

    /** `pagingSwitchSpace`: load a new root into `cr3`. */
    method SwitchSpace(phys: nat)
      modifies this
      ensures cr3 == phys && mem == old(mem)
    {
      cr3 := phys;
    }

    /**
     * `pagingInitialize`: take a frame for the new PML4 (it is not cleared),
     * map the boot ranges into it and switch to it.
     */
    method Initialize(kernelBase: nat, hhdm: nat, flags: PagingFlags)
      requires Valid()
      modifies this, frames, frames.bitmap
      ensures Valid() && frames.bitmap == old(frames.bitmap)
      ensures var (root, f) := FA.Allocate(old(State()).frames);
        cr3 == root && State() == BootMappings(MemState(old(mem), f), root, kernelBase, hhdm, flags)
    {
      var pml4Addr := frames.AllocatePage();
      MapMemoryInTable(0, 0, 4 * GIB, pml4Addr, flags, true);
      MapMemoryInTable(hhdm, 0, 4 * GIB, pml4Addr, flags, true);
      MapMemoryInTable(KERNEL_VIRT_BASE, kernelBase, KERNEL_WINDOW, pml4Addr, flags, true);
      SwitchSpace(pml4Addr);
    }

    /** `pagingMapPageInSpace` */
    method MapPageInSpace(virt: nat, phys: nat, pml4Addr: nat, flags: PagingFlags, override: bool)
      requires Valid()
      modifies this, frames, frames.bitmap
      ensures Valid() && frames.bitmap == old(frames.bitmap) && cr3 == old(cr3)
      ensures State() == MapPageSpec(old(State()), virt, phys, pml4Addr, flags, override)
    {
      var pdpt := LinkLevel(pml4Addr, Pml4Index(virt), flags.pml4Flags, override);
      var pd := LinkLevel(pdpt, PdptIndex(virt), flags.pdptFlags, override);
      var pt := LinkLevel(pd, PdIndex(virt), flags.pdFlags, override);
      var pte := Entry(mem, pt, PtIndex(virt));
      if !IsPresent(pte) || override {
        pte := 0;
        pte := Or(pte, flags.ptFlags);
        pte := Or(pte, phys);
        mem := Store(mem, pt, PtIndex(virt), pte);
      }
    }

    /** `pagingMapPage`: map in the current address space. */
    method MapPage(virt: nat, phys: nat, flags: PagingFlags, override: bool)
      requires Valid()
      modifies this, frames, frames.bitmap
      ensures Valid() && frames.bitmap == old(frames.bitmap) && cr3 == old(cr3)
      ensures State() == MapPageSpec(old(State()), virt, phys, cr3, flags, override)
    {
      MapPageInSpace(virt, phys, cr3, flags, override);
    }

    /**
     * `pagingMapMemoryInTable`: map the pages of `size` bytes one by one. A
     * size above 2^64 - PAGE_SIZE makes the kernel's 64-bit offset wrap and
     * the loop never ends; the model requires a smaller one.
     */
    method MapMemoryInTable(virt: nat, phys: nat, size: nat, pml4Addr: nat, flags: PagingFlags, override: bool)
      requires Valid() && size <= TWO_64 - PAGE_SIZE
      modifies this, frames, frames.bitmap
      ensures Valid() && frames.bitmap == old(frames.bitmap) && cr3 == old(cr3)
      ensures State() == MapPages(old(State()), virt, phys, pml4Addr, flags, override, PageCount(size))
    {
      var offset: nat := 0;
      ghost var pages: nat := 0;
      while offset < size
        invariant offset == pages * PAGE_SIZE && offset < size + PAGE_SIZE
        invariant Valid() && frames.bitmap == old(frames.bitmap) && cr3 == old(cr3)
        invariant State() == MapPages(old(State()), virt, phys, pml4Addr, flags, override, pages)
      {
        MapPagesNext(old(State()), State(), virt, phys, pml4Addr, flags, override, pages, offset);
        MapPageInSpace(Wrap(virt + offset), Wrap(phys + offset), pml4Addr, flags, override);
        offset := offset + PAGE_SIZE;
        pages := pages + 1;
      }
      FA.PageLoopCount(size, pages);
    }

    /** `pagingMapMemory`: map a range in the current address space. */
    method MapMemory(virt: nat, phys: nat, size: nat, flags: PagingFlags, override: bool)
      requires Valid() && size <= TWO_64 - PAGE_SIZE
      modifies this, frames, frames.bitmap
      ensures Valid() && frames.bitmap == old(frames.bitmap) && cr3 == old(cr3)
      ensures State() == MapPages(old(State()), virt, phys, cr3, flags, override, PageCount(size))
    {
      MapMemoryInTable(virt, phys, size, cr3, flags, override);
    }

    /**
     * `pagingIsPagetableEmpty` on the table in frame `table`. Its loop index
     * is never initialised; `scanStart` is the value it happens to hold.
     */
    method PagetableEmpty(table: nat, scanStart: nat) returns (empty: bool)
      ensures empty <==> forall j :: scanStart <= j < ENTRIES ==> !IsPresent(Entry(mem, table, j))
      ensures empty == NoPresentFrom(TableAt(mem, table), scanStart)
    {
      var i: nat := scanStart;
      while i < ENTRIES
        invariant scanStart <= i
        invariant forall j :: scanStart <= j < i && j < ENTRIES ==> !IsPresent(TableAt(mem, table)[j])
        decreases ENTRIES - i
      {
        if IsPresent(Entry(mem, table, i)) {
          return false;
        }
        i := i + 1;
      }
      return true;
    }

    /**
     * `pagingUnmapPageInSpace`; `scanStart` is where each of its emptiness
     * scans starts.
     */
    method UnmapPageInSpace(virt: nat, pml4Addr: nat, scanStart: nat) returns (mappedPage: nat)
      requires Valid()
      modifies this, frames, frames.bitmap
      ensures Valid() && frames.bitmap == old(frames.bitmap) && cr3 == old(cr3)
      ensures (State(), mappedPage) == UnmapSpec(old(State()), virt, pml4Addr, scanStart)
    {
      mappedPage := 0;
      var pml4e := Entry(mem, pml4Addr, Pml4Index(virt));
      if IsPresent(pml4e) {
        var pdpt := AddressOf(pml4e);
        var pdpte := Entry(mem, pdpt, PdptIndex(virt));
        if IsPresent(pdpte) {
          var pd := AddressOf(pdpte);
          var pde := Entry(mem, pd, PdIndex(virt));
          if IsPresent(pde) {
            var pt := AddressOf(pde);
            var pte := Entry(mem, pt, PtIndex(virt));
            if IsPresent(pte) {
              mappedPage := AddressOf(pte);
              pte := ClearPresent(pte);
              mem := Store(mem, pt, PtIndex(virt), pte);
              var ptEmpty := PagetableEmpty(pt, scanStart);
              if ptEmpty {
                frames.FreePage(AddressOf(pde));
                pde := ClearPresent(pde);
                mem := Store(mem, pd, PdIndex(virt), pde);
                var pdEmpty := PagetableEmpty(pd, scanStart);
                if pdEmpty {
                  frames.FreePage(AddressOf(pdpte));
                  pdpte := ClearPresent(pdpte);
                  mem := Store(mem, pdpt, PdptIndex(virt), pdpte);
                  var pdptEmpty := PagetableEmpty(pdpt, scanStart);
                  if pdptEmpty {
                    frames.FreePage(AddressOf(pml4e));
                    pml4e := ClearPresent(pml4e);
                    mem := Store(mem, pml4Addr, Pml4Index(virt), pml4e);
                  }
                }
              }
            }
          }
        }
      }
    }

    /** `pagingUnmapPage`: unmap in the current address space. */
    method UnmapPage(virt: nat, scanStart: nat) returns (mappedPage: nat)
      requires Valid()
      modifies this, frames, frames.bitmap
      ensures Valid() && frames.bitmap == old(frames.bitmap) && cr3 == old(cr3)
      ensures (State(), mappedPage) == UnmapSpec(old(State()), virt, cr3, scanStart)
    {
      mappedPage := UnmapPageInSpace(virt, cr3, scanStart);
    }

    /**
     * `pagingVirtualToPhysical`: translate through the current address space.
     * An address whose PML4 entry is not present gives 0; through 4 KiB
     * tables the page offset is kept.
     */
    function VirtualToPhysical(virt: nat): (phys: nat)
      reads this
      ensures !IsPresent(Pml4e(mem, cr3, virt)) ==> phys == 0
      ensures (IsPresent(Pml4e(mem, cr3, virt)) && IsPresent(Pdpte(mem, cr3, virt))
        && !IsLarge(Pdpte(mem, cr3, virt)) && IsPresent(Pde(mem, cr3, virt)) && !IsLarge(Pde(mem, cr3, virt))
        && IsPresent(Pte(mem, cr3, virt))) ==> OffsetOf(phys) == OffsetOf(virt)
    {
      Translate(mem, cr3, virt)
    }

    /**
     * `pagingCopyKernelMappings`: entries 256..511 of the PML4 at `dest`
     * become those of the current PML4; every other entry stays as it was.
     */
    method CopyKernelMappings(dest: nat)
      modifies this
      ensures cr3 == old(cr3)
      ensures forall j :: KERNEL_HALF <= j < ENTRIES ==> Entry(mem, dest, j) == Entry(old(mem), cr3, j)
      ensures forall b, j :: 0 <= j < ENTRIES && (b != dest || j < KERNEL_HALF) ==> Entry(mem, b, j) == Entry(old(mem), b, j)
    {
      var i := KERNEL_HALF;
      while i < ENTRIES
        invariant KERNEL_HALF <= i <= ENTRIES && cr3 == old(cr3)
        invariant forall b, j :: 0 <= j < ENTRIES ==>
          Entry(mem, b, j) == if b == dest && KERNEL_HALF <= j < i then Entry(old(mem), cr3, j) else Entry(old(mem), b, j)
      {
        mem := Store(mem, dest, i, Entry(mem, cr3, i));
        i := i + 1;
      }
    }
  }
}
