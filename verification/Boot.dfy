/**
 The boot mapping: create_identical_mapping and create_mmio_mapping of
 arch/arm64/core/mmu.c, with the protections of asm/pgtable_prot.h.
 */
module Boot {
  import opened Pgtable
  import opened PageTable
  import opened Mapping
  import opened PageAlloc
  import opened Mmu

  const PBASE: nat := 0xFE00_0000
  const DEVICE_SIZE: nat := 0x200_0000

  const PTE_TYPE_PAGE: nat := 0x3
  const PTE_RDONLY: nat := 0x80
  const PTE_SHARED: nat := 0x300
  const PTE_AF: nat := 0x400
  const PTE_WRITE: nat := 0x8_0000_0000_0000
  const PTE_PXN: nat := 0x20_0000_0000_0000
  const PTE_UXN: nat := 0x40_0000_0000_0000
  const PTE_DIRTY: nat := 0x80_0000_0000_0000
  const ATTR_NORMAL: nat := 0x10

  /** The macros or together disjoint bits, which is their sum. */
  const PROT_DEVICE_nGnRnE: nat := PTE_TYPE_PAGE + PTE_AF + PTE_SHARED + PTE_PXN + PTE_UXN + PTE_DIRTY + PTE_WRITE
  const PROT_NORMAL: nat := PROT_DEVICE_nGnRnE + ATTR_NORMAL
  const PAGE_KERNEL: nat := PROT_NORMAL
  const PAGE_KERNEL_ROX: nat := PROT_NORMAL - PTE_WRITE - PTE_PXN + PTE_RDONLY

  /** AP[2] clear: writable at EL1. */
  predicate Writable(attrs: int) {
    attrs / 0x80 % 2 == 0
  }

  /** PXN clear: executable at EL1. */
  predicate PrivExecutable(attrs: int) {
    attrs / 0x20_0000_0000_0000 % 2 == 0
  }

  /**
   Where the second call of create_identical_mapping stops: at the end of
   memory, unless the text already reaches it; then the range of that call is
   empty, and it maps a section beyond.
   */
  function MemoryEnd(etext: nat): nat
    requires etext <= TOTAL_MEMORY
  {
    if PageUp(etext) < TOTAL_MEMORY then TOTAL_MEMORY else TOTAL_MEMORY + PMD_SIZE
  }

  /** Text, the rest of memory up to end, the device window, nothing else. */
  function MapUpTo(textBoot: nat, etext: nat, end: nat, va: nat): Translation
    requires textBoot < etext <= TOTAL_MEMORY
  {
    if PageDown(textBoot) <= va < PageUp(etext) then Mapped(va, Attrs(PAGE_KERNEL_ROX))
    else if PageUp(etext) <= va < end then Mapped(va, Attrs(PAGE_KERNEL))
    else if PBASE <= va < PBASE + DEVICE_SIZE then Mapped(va, Attrs(PROT_DEVICE_nGnRnE))
    else Fault
  }

  /** The translation the kernel runs on. */
  function BootMap(textBoot: nat, etext: nat, va: nat): Translation
    requires textBoot < etext <= TOTAL_MEMORY
  {
    MapUpTo(textBoot, etext, MemoryEnd(etext), va)
  }

  /** It covers exactly installed memory and the devices if and only if the text leaves a page of memory free. */
  lemma BootMapIsExact(textBoot: nat, etext: nat)
    requires textBoot < etext <= TOTAL_MEMORY
    ensures PageUp(etext) < TOTAL_MEMORY
       <==> forall va: nat :: va < VA_LIMIT ==>
              BootMap(textBoot, etext, va) == MapUpTo(textBoot, etext, TOTAL_MEMORY, va)
  {
    AlignedIsFixed(TOTAL_MEMORY);
    assert PageUp(etext) <= TOTAL_MEMORY;
    if PageUp(etext) == TOTAL_MEMORY {
      assert BootMap(textBoot, etext, TOTAL_MEMORY) != MapUpTo(textBoot, etext, TOTAL_MEMORY, TOTAL_MEMORY);
    }
  }

  lemma ProtAttrs()
    ensures ValidProt(PAGE_KERNEL_ROX) && ValidProt(PAGE_KERNEL) && ValidProt(PROT_DEVICE_nGnRnE)
    ensures Attrs(PAGE_KERNEL_ROX) == PAGE_KERNEL_ROX - 3
    ensures Attrs(PAGE_KERNEL) == PAGE_KERNEL - 3
    ensures Attrs(PROT_DEVICE_nGnRnE) == PROT_DEVICE_nGnRnE - 3
  {
  }

  /** No address is both writable and executable for the kernel. */
  lemma WriteXorExecute(textBoot: nat, etext: nat, va: nat)
    requires textBoot < etext <= TOTAL_MEMORY
    ensures var t := BootMap(textBoot, etext, va);
            t.Mapped? ==> !(Writable(t.attrs) && PrivExecutable(t.attrs))
  {
    ProtAttrs();
  }

  // ---------- what the boot map permits, in descriptor bits ----------

  /** Bits 4..2, the index into MAIR_EL1: 0 is Device-nGnRnE, 4 is Normal memory. */
  function MemoryType(attrs: int): int {
    attrs / 4 % 8
  }

  /** AP[1], bit 6, is clear, so EL0 has no access; SH, bits 9..8, is inner shareable; AF, bit 10, is set. */
  predicate KernelAccess(attrs: int) {
    attrs / 0x40 % 2 == 0 && attrs / 0x100 % 4 == 3 && attrs / 0x400 % 2 == 1
  }

  /** UXN, bit 54, is clear: executable at EL0. */
  predicate UserExecutable(attrs: int) {
    attrs / 0x40_0000_0000_0000 % 2 == 0
  }

  /** An identity mapping that the kernel may execute, or write, or neither. */
  predicate Permits(t: Translation, va: nat, memoryType: int, write: bool, execute: bool) {
    && t.Mapped? && t.pa == va && MemoryType(t.attrs) == memoryType && KernelAccess(t.attrs)
    && (Writable(t.attrs) <==> write) && (PrivExecutable(t.attrs) <==> execute) && !UserExecutable(t.attrs)
  }

  /**
   The rights after paging_init: text is executable Normal memory and not
   writable, the rest of memory is writable Normal memory, the device window
   from 0xFE000000 to 4 GB is writable Device memory, both not executable, and
   everything else faults.
   */
  ghost predicate BootRights(t: Translation, textBoot: nat, etext: nat, va: nat)
    requires textBoot < etext <= TOTAL_MEMORY
  {
    if PageDown(textBoot) <= va < PageUp(etext) then Permits(t, va, 4, false, true)
    else if PageUp(etext) <= va < MemoryEnd(etext) then Permits(t, va, 4, true, false)
    else if 0xFE00_0000 <= va < 0x1_0000_0000 then Permits(t, va, 0, true, false)
    else t == Fault
  }

  lemma BootMapRights(textBoot: nat, etext: nat, va: nat)
    requires textBoot < etext <= TOTAL_MEMORY
    ensures BootRights(BootMap(textBoot, etext, va), textBoot, etext, va)
  {
    ProtAttrs();
    TextBits();
    MemoryBits();
    DeviceBits();
  }

  lemma TextBits()
    ensures var a := PAGE_KERNEL_ROX - 3;
            && MemoryType(a) == 4 && KernelAccess(a) && !Writable(a) && PrivExecutable(a) && !UserExecutable(a)
  {
  }

  lemma MemoryBits()
    ensures var a := PAGE_KERNEL - 3;
            && MemoryType(a) == 4 && KernelAccess(a) && Writable(a) && !PrivExecutable(a) && !UserExecutable(a)
  {
  }

  lemma DeviceBits()
    ensures var a := PROT_DEVICE_nGnRnE - 3;
            && MemoryType(a) == 0 && KernelAccess(a) && Writable(a) && !PrivExecutable(a) && !UserExecutable(a)
  {
  }

  lemma AlignedIsFixed(x: nat)
    requires x < VA_LIMIT && x % PAGE_SIZE == 0
    ensures PageDown(x) == x && PageUp(x) == x
  {
    OneBoundary(PageDown(x), x);
    OneBoundary(x, PageUp(x));
  }

  lemma OneBoundary(x: nat, y: nat)
    requires x % PAGE_SIZE == 0 && y % PAGE_SIZE == 0 && x <= y < x + PAGE_SIZE
    ensures x == y
  {
    var a, b := x / PAGE_SIZE, y / PAGE_SIZE;
    assert x == PAGE_SIZE * a && y == PAGE_SIZE * b;
  }

  /** The first call needs at most a level 1, a level 2 and two level 3 tables. */
  lemma TextNeeds(tab: Tables, lo: nat, hi: nat)
    requires lo < hi <= TOTAL_MEMORY
    ensures Need(2, tab, lo, hi, lo, 0) <= 4
  {
    NeedBound(tab, lo, hi, lo, 0);
  }

  /** Memory after the text shares every table with it. */
  lemma MemoryNeeds(v: View, v': View, lo: nat, mid: nat, hi: nat)
    requires lo < mid <= TOTAL_MEMORY && MemoryRest(mid, hi) && Grown(v.tab, v'.tab, lo, mid, lo, 0)
    ensures Need(2, v'.tab, mid, hi, mid, 0) == 0
  {
    forall k | Touched(k, mid, hi, mid, 0) ensures k in v'.tab {
      MemoryTouches(k, lo, mid, hi);
    }
    NothingNeeded(v'.tab, mid, hi, mid, 0);
  }

  /** With every table in place, none is needed. */
  lemma NothingNeeded(tab: Tables, lo: nat, hi: nat, phys: nat, flags: nat)
    requires lo < hi && forall k :: Touched(k, lo, hi, phys, flags) ==> k in tab
    ensures Need(2, tab, lo, hi, phys, flags) == 0
  {
    NothingNeededAt(3, tab, lo, hi, phys, flags);
    NothingNeededAt(2, tab, lo, hi, phys, flags);
    NothingNeededAt(1, tab, lo, hi, phys, flags);
  }

  lemma NothingNeededAt(level: nat, tab: Tables, lo: nat, hi: nat, phys: nat, flags: nat)
    requires lo < hi && forall k :: Touched(k, lo, hi, phys, flags) ==> k in tab
    ensures NeedAt(level, tab, lo, hi, phys, flags) == 0
  {
    CountNone(level, PosOf(level, lo), PosOf(level, hi - 1) + 1, tab, lo, hi, phys, flags);
  }

  /** The range of the second call, as it turns out: from mid to hi. */
  predicate MemoryRest(mid: nat, hi: nat) {
    hi == if mid < TOTAL_MEMORY then TOTAL_MEMORY else TOTAL_MEMORY + PMD_SIZE
  }

  lemma MemoryTouches(k: Key, lo: nat, mid: nat, hi: nat)
    requires lo < mid <= TOTAL_MEMORY && MemoryRest(mid, hi) && Touched(k, mid, hi, mid, 0)
    ensures Touched(k, lo, mid, lo, 0)
  {
    if k.level == 3 { PartialChunk(k.n, mid, hi, mid, 0); }
  }

  /** The device window needs one level 2 table. */
  lemma DeviceNeeds(tab: Tables)
    requires Key(1, 0) in tab
    ensures Need(2, tab, PBASE, PBASE + DEVICE_SIZE, PBASE, 0) <= 1
  {
    PteBound(tab, PBASE, PBASE + DEVICE_SIZE, PBASE, 0);
    assert NeedAt(1, tab, PBASE, PBASE + DEVICE_SIZE, PBASE, 0) == 0;
  }

  /** Nothing is in the way of the first call. */
  lemma ClearAtFirst(v: View, root: nat, lo: nat, hi: nat, phys: nat, flags: nat)
    requires v.tab == map[Key(0, 0) := root] && lo < hi
    ensures Clear(v, lo, hi, phys, flags)
    ensures forall level: nat, s: nat :: level > 0 ==> EntryFree(v.mem, v.tab, level, s)
  {
  }

  /** No 1 GB entry is a block, and no chunk of [lo, hi) is. */
  ghost predicate Unblocked(v: View, lo: nat, hi: nat)
    requires hi > 0
  {
    forall level: nat, s: nat :: level == 1 || (level == 2 && lo / PMD_SIZE <= s <= (hi - 1) / PMD_SIZE) ==>
      EntryFree(v.mem, v.tab, level, s)
  }

  /** Blocks made in [lo, hi) are not in the way of a range that shares no whole chunk with it. */
  lemma ClearAfter(v: View, v': View, lo: nat, hi: nat, lo': nat, hi': nat, phys: nat, flags: nat)
    requires NoNewBlocks(v, v', lo, hi) && lo' < hi' && (hi <= lo' || hi' <= lo)
    requires Unblocked(v, lo', hi')
    ensures Clear(v', lo', hi', phys, flags)
    ensures Unblocked(v', lo', hi')
  {
    forall level: nat, s: nat | level == 1 || (level == 2 && lo' / PMD_SIZE <= s <= (hi' - 1) / PMD_SIZE)
      ensures EntryFree(v'.mem, v'.tab, level, s)
    {
      assert EntryFree(v.mem, v.tab, level, s);
      if level == 2 { ChunkElsewhere(s, lo, hi, lo', hi'); }
    }
  }

  lemma ChunkElsewhere(s: nat, lo: nat, hi: nat, lo': nat, hi': nat)
    requires lo' < hi' && (hi <= lo' || hi' <= lo) && lo' / PMD_SIZE <= s <= (hi' - 1) / PMD_SIZE
    ensures !(lo <= s * PMD_SIZE && (s + 1) * PMD_SIZE <= hi)
  {
  }

  /** Tables built for [lo, hi) are not in the way of sections elsewhere. */
  lemma KeepsAfter(t0: Tables, t1: Tables, lo: nat, hi: nat, phys: nat, lo': nat, hi': nat, phys': nat, flags: nat)
    requires Grown(t0, t1, lo, hi, phys, flags) && lo < hi <= lo' < hi'
    requires KeepsTables(t0, lo', hi', phys', flags)
    ensures KeepsTables(t1, lo', hi', phys', flags)
  {
    forall s: nat | SectionChunk(s, lo', hi', phys', flags) ensures Key(3, s) !in t1 {
      ChunkBeyond(s, lo, hi, lo');
    }
  }

  lemma ChunkBeyond(s: nat, lo: nat, hi: nat, lo': nat)
    requires lo < hi <= lo' <= s * PMD_SIZE
    ensures s > (hi - 1) / PMD_SIZE
  {
  }

  /** Text and the rest of memory, without the devices. */
  function MemoryMap(textBoot: nat, etext: nat, va: nat): Translation
    requires textBoot < etext <= TOTAL_MEMORY
  {
    if MemoryEnd(etext) <= va then Fault else BootMap(textBoot, etext, va)
  }

  /** The text lies inside installed memory. */
  predicate ImageFits(textBoot: nat, etext: nat) {
    textBoot < etext <= TOTAL_MEMORY
  }

  lemma MemoryWalks(m0: Mem, m1: Mem, m2: Mem, root: nat, textBoot: nat, etext: nat)
    requires ImageFits(textBoot, etext)
    requires forall va :: 0 <= va < VA_LIMIT ==> Walk(m0, root, va) == Fault
    requires MappedTo(m1, root, PageDown(textBoot), PageUp(etext), PageDown(textBoot), PAGE_KERNEL_ROX)
    requires SameOutside(m0, m1, root, PageDown(textBoot), PageUp(etext))
    requires MappedTo(m2, root, PageUp(etext), MemoryEnd(etext), PageUp(etext), PAGE_KERNEL)
    requires SameOutside(m1, m2, root, PageUp(etext), MemoryEnd(etext))
    ensures forall va :: 0 <= va < VA_LIMIT ==> Walk(m2, root, va) == MemoryMap(textBoot, etext, va)
  {
  }

  lemma DeviceWalks(m2: Mem, m3: Mem, root: nat, textBoot: nat, etext: nat)
    requires ImageFits(textBoot, etext)
    requires forall va :: 0 <= va < VA_LIMIT ==> Walk(m2, root, va) == MemoryMap(textBoot, etext, va)
    requires MappedTo(m3, root, PBASE, PBASE + DEVICE_SIZE, PBASE, PROT_DEVICE_nGnRnE)
    requires SameOutside(m2, m3, root, PBASE, PBASE + DEVICE_SIZE)
    ensures forall va :: 0 <= va < VA_LIMIT ==> Walk(m3, root, va) == BootMap(textBoot, etext, va)
  {
  }

  /** What is known between two boot calls about the ranges still to come. */
  ghost predicate ReadyFor(v: View, lo: nat, hi: nat) {
    && Clear(v, lo, hi, lo, 0)
    && Unblocked(v, lo, hi)
    && KeepsTables(v.tab, lo, hi, lo, 0)
  }

  lemma ReadyAtFirst(v: View, root: nat, lo: nat, hi: nat)
    requires v.tab == map[Key(0, 0) := root] && lo < hi
    ensures ReadyFor(v, lo, hi)
  {
    ClearAtFirst(v, root, lo, hi, lo, 0);
  }

  lemma ReadyAfter(v: View, v': View, root: nat, lo: nat, hi: nat, prot: nat, lo': nat, hi': nat)
    requires Built(v, v', root, lo, hi, lo, prot, 0) && lo < hi <= lo' < hi' && ReadyFor(v, lo', hi')
    ensures ReadyFor(v', lo', hi')
  {
    ClearAfter(v, v', lo, hi, lo', hi', lo', 0);
    KeepsAfter(v.tab, v'.tab, lo, hi, lo, lo', hi', lo', 0);
  }

  /** The range [lo, hi) that a boot call with these arguments maps. */
  predicate MapsRange(start: nat, end: nat, lo: nat, hi: nat)
    requires start < VA_LIMIT && end < VA_LIMIT
  {
    && lo == PageDown(start)
    && if start < end then hi == PageUp(end)
       else start == end && 0 < start && start % PMD_SIZE == 0 && hi == start + PMD_SIZE
  }

  /** One boot call maps a range onto itself. */
  method MapOnto(space: AddressSpace, start: nat, end: nat, prot: nat, ghost lo: nat, ghost hi: nat)
    requires space.Valid() && start < end < VA_LIMIT && lo == PageDown(start) && hi == PageUp(end) && ValidProt(prot)
    requires ReadyFor(space.V(), lo, hi) && space.V().free >= Need(2, space.tab, lo, hi, lo, 0)
    modifies space, space.alloc.memMap
    ensures space.Valid() && Completed(2, old(space.V()), space.V(), space.root, lo, hi, lo, prot, 0)
  {
    var size := end - start;
    assert start + size == end;
    IdentityArgs(start, end, lo, hi, prot);
    space.CreatePgdMapping(start, start, size, prot, 0);
  }

  lemma IdentityArgs(start: nat, end: nat, lo: nat, hi: nat, prot: nat)
    requires start < end < VA_LIMIT && lo == PageDown(start) && hi == PageUp(end) && ValidProt(prot)
    ensures Args(lo, hi, lo, prot)
  {
    var b := hi / PAGE_SIZE;
    assert hi == PAGE_SIZE * b;
  }

  /** The same, but called with an empty range it maps a section. */
  method MapIdentity(space: AddressSpace, start: nat, end: nat, prot: nat, ghost lo: nat, ghost hi: nat)
    requires space.Valid() && start < VA_LIMIT && end < VA_LIMIT && MapsRange(start, end, lo, hi) && ValidProt(prot)
    requires ReadyFor(space.V(), lo, hi) && space.V().free >= Need(2, space.tab, lo, hi, lo, 0)
    modifies space, space.alloc.memMap
    ensures space.Valid() && Completed(2, old(space.V()), space.V(), space.root, lo, hi, lo, prot, 0)
    ensures Lost(space.V()) == Lost(old(space.V()))
  {
    ghost var v := space.V();
    if start == end {
      AlignedSection(start);
      space.CreateEmptyMapping(start, start, prot, 0, hi);
    } else {
      MapOnto(space, start, end, prot, lo, hi);
    }
    NoPageLost(v, space.V(), space.root, lo, hi, lo, prot, 0);
  }

  lemma AlignedSection(x: nat)
    requires x < VA_LIMIT && x % PMD_SIZE == 0
    ensures PageDown(x) == x
  {
    ModPage(512 * (x / PMD_SIZE), 0);
    AlignedIsFixed(x);
  }

  /** The first call of create_identical_mapping. */
  method MapText(space: AddressSpace, textBoot: nat, etext: nat, ghost lo: nat, ghost mid: nat)
    requires space.Valid() && ImageFits(textBoot, etext) && space.tab == map[Key(0, 0) := space.root]
    requires lo == PageDown(textBoot) && mid == PageUp(etext) && space.V().free >= 4
    modifies space, space.alloc.memMap
    ensures space.Valid() && Built(old(space.V()), space.V(), space.root, lo, mid, lo, PAGE_KERNEL_ROX, 0)
    ensures space.V().free >= old(space.V()).free - 4 && Lost(space.V()) == Lost(old(space.V()))
    ensures Key(1, 0) in space.tab
  {
    ProtAttrs();
    TextEnds(etext, mid);
    ReadyAtFirst(space.V(), space.root, lo, mid);
    TextNeeds(space.tab, lo, mid);
    MapIdentity(space, textBoot, etext, PAGE_KERNEL_ROX, lo, mid);
    assert Touched(Key(1, 0), lo, mid, lo, 0);
  }

  /** The second call of create_identical_mapping: the memory behind the text, in tables that are there. */
  method MapMemory(space: AddressSpace, mid: nat, ghost v0: View, ghost lo: nat, ghost hi: nat)
    requires space.Valid() && lo < mid <= TOTAL_MEMORY && MemoryRest(mid, hi) && mid % PAGE_SIZE == 0
    requires Built(v0, space.V(), space.root, lo, mid, lo, PAGE_KERNEL_ROX, 0)
    requires ReadyFor(v0, mid, hi) && ReadyFor(v0, PBASE, PBASE + DEVICE_SIZE)
    modifies space, space.alloc.memMap
    ensures space.Valid() && Built(old(space.V()), space.V(), space.root, mid, hi, mid, PAGE_KERNEL, 0)
    ensures space.V().free == old(space.V()).free && Lost(space.V()) == Lost(old(space.V()))
    ensures ReadyFor(space.V(), PBASE, PBASE + DEVICE_SIZE)
  {
    ProtAttrs();
    ghost var v1 := space.V();
    AlignedIsFixed(mid);
    AlignedIsFixed(TOTAL_MEMORY);
    ReadyAfter(v0, v1, space.root, lo, mid, PAGE_KERNEL_ROX, mid, hi);
    ReadyAfter(v0, v1, space.root, lo, mid, PAGE_KERNEL_ROX, PBASE, PBASE + DEVICE_SIZE);
    MemoryNeeds(v0, v1, lo, mid, hi);
    MapIdentity(space, mid, TOTAL_MEMORY, PAGE_KERNEL, mid, hi);
    ReadyAfter(v1, space.V(), space.root, mid, hi, PAGE_KERNEL, PBASE, PBASE + DEVICE_SIZE);
  }

  /** create_identical_mapping, on the tables paging_init has just cleared. */
  method CreateIdenticalMapping(space: AddressSpace, textBoot: nat, etext: nat)
    requires space.Valid() && ImageFits(textBoot, etext) && space.tab == map[Key(0, 0) := space.root]
    requires forall va :: 0 <= va < VA_LIMIT ==> Walk(space.mem, space.root, va) == Fault
    requires space.V().free >= 4
    modifies space, space.alloc.memMap
    ensures space.Valid() && space.V().free >= old(space.V().free) - 4
    ensures forall va :: 0 <= va < VA_LIMIT ==> Walk(space.mem, space.root, va) == MemoryMap(textBoot, etext, va)
    ensures ReadyFor(space.V(), PBASE, PBASE + DEVICE_SIZE) && Key(1, 0) in space.tab
    ensures MemFrame(old(space.mem), space.mem, space.pages)
    ensures Taken(old(space.V()), space.V()) && Lost(space.V()) == Lost(old(space.V()))
  {
    ghost var v0, lo, hi := space.V(), PageDown(textBoot), MemoryEnd(etext);
    var mid := PageUp(etext);
    TextEnds(etext, mid);
    MapText(space, textBoot, etext, lo, mid);
    ghost var v1 := space.V();
    ReadyAtFirst(v0, space.root, mid, hi);
    ReadyAtFirst(v0, space.root, PBASE, PBASE + DEVICE_SIZE);
    MapMemory(space, mid, v0, lo, hi);
    FrameCompose(v0.mem, v1.mem, space.mem, v1.pages, space.pages);
    TakenCompose(v0, v1, space.V());
    TableStays(v1, space.V(), space.root, Key(1, 0), mid, hi, mid, PAGE_KERNEL, 0);
    MemoryWalks(v0.mem, v1.mem, space.mem, space.root, textBoot, etext);
  }

  lemma TextEnds(etext: nat, mid: nat)
    requires etext <= TOTAL_MEMORY && mid == PageUp(etext)
    ensures mid <= TOTAL_MEMORY && PageDown(mid) == mid && PageUp(mid) == mid
    ensures PageDown(TOTAL_MEMORY) == TOTAL_MEMORY && PageUp(TOTAL_MEMORY) == TOTAL_MEMORY
  {
    AlignedIsFixed(mid);
    AlignedIsFixed(TOTAL_MEMORY);
  }

  /** create_mmio_mapping. */
  method CreateMmioMapping(space: AddressSpace, ghost textBoot: nat, ghost etext: nat)
    requires space.Valid() && ImageFits(textBoot, etext)
    requires forall va :: 0 <= va < VA_LIMIT ==> Walk(space.mem, space.root, va) == MemoryMap(textBoot, etext, va)
    requires ReadyFor(space.V(), PBASE, PBASE + DEVICE_SIZE) && Key(1, 0) in space.tab
    requires space.V().free >= 1
    modifies space, space.alloc.memMap
    ensures space.Valid() && space.V().free >= old(space.V().free) - 1
    ensures forall va :: 0 <= va < VA_LIMIT ==> Walk(space.mem, space.root, va) == BootMap(textBoot, etext, va)
    ensures MemFrame(old(space.mem), space.mem, space.pages)
    ensures Taken(old(space.V()), space.V()) && Lost(space.V()) == Lost(old(space.V()))
  {
    ProtAttrs();
    ghost var mem := space.mem;
    AlignedIsFixed(PBASE);
    AlignedIsFixed(PBASE + DEVICE_SIZE);
    DeviceNeeds(space.tab);
    MapIdentity(space, PBASE, PBASE + DEVICE_SIZE, PROT_DEVICE_nGnRnE, PBASE, PBASE + DEVICE_SIZE);
    DeviceWalks(mem, space.mem, space.root, textBoot, etext);
  }

  /**
   paging_init up to the system registers: for every end of text inside
   installed memory, five free pages are enough, and afterwards the hardware
   walk of every 48-bit address is exactly the boot map. Every page taken is
   still a table, so no table was replaced by a section; it was free before,
   and all other pages are in use or free as they were.
   */
  method PagingInit(alloc: PageAllocator, root: nat, mem: Mem, textBoot: nat, etext: nat) returns (space: AddressSpace)
    requires alloc.Valid() && root % PAGE_SIZE == 0 && root + PAGE_SIZE <= LOW_MEMORY
    requires ImageFits(textBoot, etext) && FreeCount(alloc.memMap[..]) >= 5
    modifies alloc.memMap
    ensures fresh(space) && space.Valid() && space.alloc == alloc && space.root == root
    ensures forall va :: 0 <= va < VA_LIMIT ==> Walk(space.mem, root, va) == BootMap(textBoot, etext, va)
    ensures forall va :: 0 <= va < VA_LIMIT ==> BootRights(Walk(space.mem, root, va), textBoot, etext, va)
    ensures FreeCount(alloc.memMap[..]) >= old(FreeCount(alloc.memMap[..])) - 5
    ensures |space.pages| == |space.tab| && MemFrame(mem, space.mem, space.pages)
    ensures forall p :: p in space.pages && p != root ==> !Marked(old(alloc.memMap[..]), p)
    ensures forall p :: Marked(alloc.memMap[..], p) <==>
                        Marked(old(alloc.memMap[..]), p) || (p in space.pages && p != root)
  {
    EmptyTree(mem, root);
    space := new AddressSpace(alloc, root, mem);
    RootFrame(mem, root);
    ghost var v0 := space.V();
    CreateIdenticalMapping(space, textBoot, etext);
    ghost var v1 := space.V();
    CreateMmioMapping(space, textBoot, etext);
    TakenCompose(v0, v1, space.V());
    FrameCompose(v0.mem, v1.mem, space.mem, v1.pages, space.pages);
    BootPages(v0, space.V(), root);
    RightsEverywhere(space.mem, root, textBoot, etext);
  }

  lemma RightsEverywhere(mem: Mem, root: nat, textBoot: nat, etext: nat)
    requires textBoot < etext <= TOTAL_MEMORY
    requires forall va :: 0 <= va < VA_LIMIT ==> Walk(mem, root, va) == BootMap(textBoot, etext, va)
    ensures forall va :: 0 <= va < VA_LIMIT ==> BootRights(Walk(mem, root, va), textBoot, etext, va)
  {
    forall va | 0 <= va < VA_LIMIT ensures BootRights(Walk(mem, root, va), textBoot, etext, va) {
      BootMapRights(textBoot, etext, va);
    }
  }

  /** Which pages are in use once the boot tables are built. */
  lemma BootPages(v0: View, v: View, root: nat)
    requires Taken(v0, v) && v0.pages == {root} && !Managed(root)
    ensures forall p :: p in v.pages && p != root ==> !Marked(v0.bitmap, p)
    ensures forall p :: Marked(v.bitmap, p) <==> Marked(v0.bitmap, p) || (p in v.pages && p != root)
  {
    forall p: nat
      ensures p in v.pages && p != root ==> !Marked(v0.bitmap, p)
      ensures Marked(v.bitmap, p) <==> Marked(v0.bitmap, p) || (p in v.pages && p != root)
    {
      assert Handed(v0, v, p);
    }
  }

  lemma RootFrame(mem: Mem, root: nat)
    requires root % PAGE_SIZE == 0
    ensures MemFrame(mem, ZeroPage(mem, root), {root})
  {
    forall a: int | a - a % PAGE_SIZE != root ensures Load(ZeroPage(mem, root), a) == Load(mem, a) {
      if root <= a < root + PAGE_SIZE { InPage(a, root); assert false; }
    }
  }

  /**
   The 2 MB at 2 MB, mapped page by page and then as a section: the level 3
   table is replaced, and its page is lost.
   */
  method SectionOverPages(space: AddressSpace, prot: nat)
    requires space.Valid() && space.tab == map[Key(0, 0) := space.root] && space.V().free >= 3 && ValidProt(prot)
    modifies space, space.alloc.memMap
    ensures space.Valid() && Lost(space.V()) == Lost(old(space.V())) + 1
    ensures MappedTo(space.mem, space.root, PMD_SIZE, 2 * PMD_SIZE, PMD_SIZE, prot)
  {
    ghost var v0, lo, hi := space.V(), PMD_SIZE, 2 * PMD_SIZE;
    AlignedIsFixed(lo);
    AlignedIsFixed(hi);
    ClearAtFirst(v0, space.root, lo, hi, lo, NO_BLOCK_MAPPINGS);
    NeedBound(v0.tab, lo, hi, lo, NO_BLOCK_MAPPINGS);
    space.CreatePgdMapping(PMD_SIZE, PMD_SIZE, PMD_SIZE, prot, NO_BLOCK_MAPPINGS);
    ghost var v1 := space.V();
    TableReplaced(v0, v1, space.root, lo, hi, prot);
    space.CreatePgdMapping(PMD_SIZE, PMD_SIZE, PMD_SIZE, prot, 0);
  }

  lemma TableReplaced(v0: View, v1: View, root: nat, lo: nat, hi: nat, prot: nat)
    requires v0.tab == map[Key(0, 0) := root] && lo == PMD_SIZE && hi == 2 * PMD_SIZE
    requires Built(v0, v1, root, lo, hi, lo, prot, NO_BLOCK_MAPPINGS)
    ensures Lost(v1) == Lost(v0) && Replaced(v1.tab, lo, hi, lo, 0) == {Key(3, 1)}
    ensures Clear(v1, lo, hi, lo, 0) && Need(2, v1.tab, lo, hi, lo, 0) == 0
  {
    assert Replaced(v0.tab, lo, hi, lo, NO_BLOCK_MAPPINGS) == {};
    assert Touched(Key(3, 1), lo, hi, lo, NO_BLOCK_MAPPINGS);
    assert Touched(Key(2, 0), lo, hi, lo, NO_BLOCK_MAPPINGS);
    assert Touched(Key(1, 0), lo, hi, lo, NO_BLOCK_MAPPINGS);
    forall k: Key ensures Replaces(k, lo, hi, lo, 0) <==> k == Key(3, 1) {}
    assert EntryFree(v0.mem, v0.tab, 1, 0);
    assert SectionChunk(1, lo, hi, lo, 0);
  }

  /**
   Building with sections and building with NO_BLOCK_MAPPINGS, on two spaces
   that translate alike, give the same translation of every address.
   */
  method BlocksRefinePages(a: AddressSpace, b: AddressSpace, phys: nat, virt: nat, size: nat, prot: nat)
    requires a != b && a.alloc.memMap != b.alloc.memMap && a.Valid() && b.Valid()
    requires virt + size <= VA_LIMIT && phys < VA_LIMIT
    requires Args(PageDown(virt), PageUp(virt + size), PageDown(phys), prot)
    requires Clear(a.V(), PageDown(virt), PageUp(virt + size), PageDown(phys), 0)
    requires Clear(b.V(), PageDown(virt), PageUp(virt + size), PageDown(phys), NO_BLOCK_MAPPINGS)
    requires a.V().free >= Need(2, a.tab, PageDown(virt), PageUp(virt + size), PageDown(phys), 0)
    requires b.V().free >= Need(2, b.tab, PageDown(virt), PageUp(virt + size), PageDown(phys), NO_BLOCK_MAPPINGS)
    requires forall va :: 0 <= va < VA_LIMIT ==> Walk(a.mem, a.root, va) == Walk(b.mem, b.root, va)
    modifies a, a.alloc.memMap, b, b.alloc.memMap
    ensures forall va :: 0 <= va < VA_LIMIT ==> Walk(a.mem, a.root, va) == Walk(b.mem, b.root, va)
  {
    ghost var ma, mb := a.mem, b.mem;
    a.CreatePgdMapping(phys, virt, size, prot, 0);
    b.CreatePgdMapping(phys, virt, size, prot, NO_BLOCK_MAPPINGS);
    SameFlatMap(ma, a.mem, a.root, mb, b.mem, b.root, PageDown(virt), PageUp(virt + size), PageDown(phys), prot);
  }

  lemma SameFlatMap(ma: Mem, ma': Mem, ra: nat, mb: Mem, mb': Mem, rb: nat, lo: nat, hi: nat, phys: nat, prot: nat)
    requires MappedTo(ma', ra, lo, hi, phys, prot) && SameOutside(ma, ma', ra, lo, hi)
    requires MappedTo(mb', rb, lo, hi, phys, prot) && SameOutside(mb, mb', rb, lo, hi)
    requires forall va :: 0 <= va < VA_LIMIT ==> Walk(ma, ra, va) == Walk(mb, rb, va)
    ensures forall va :: 0 <= va < VA_LIMIT ==> Walk(ma', ra, va) == Walk(mb', rb, va)
  {
  }
}
