/**
 The page-table builder of arch/arm64/core/mmu.c: nested do-while loops that
 write descriptors into memory and take table pages from the page allocator.
 Every method is proved against the Mapping relation.
 */
module Mmu {
  import opened Bits
  import opened Pgtable
  import opened PageTable
  import opened Mapping
  import opened PageAlloc

  class AddressSpace {
    const alloc: PageAllocator
    const root: nat
    var mem: Mem
    ghost var tab: Tables
    ghost var pages: set<nat>

    ghost function V(): View
      reads this, alloc.memMap
    {
      View(mem, tab, pages, alloc.memMap[..], FreeCount(alloc.memMap[..]))
    }

    /** The tables form a tree, and all of them but the root are pages held from the allocator. */
    ghost predicate Valid()
      reads this, alloc.memMap
    {
      && alloc.Valid()
      && root % PAGE_SIZE == 0 && root + PAGE_SIZE <= LOW_MEMORY
      && Tree(mem, tab, root)
      && root in pages
      && (forall k :: k in tab ==> tab[k] in pages)
      && Holding(V(), root)
    }

    /** The first step of paging_init: a zeroed root table, which translates nothing. */
    constructor (alloc: PageAllocator, root: nat, mem: Mem)
      requires alloc.Valid() && root % PAGE_SIZE == 0 && root + PAGE_SIZE <= LOW_MEMORY
      ensures Valid() && this.alloc == alloc && this.root == root
      ensures this.mem == ZeroPage(mem, root) && tab == map[Key(0, 0) := root] && pages == {root}
    {
      this.alloc := alloc;
      this.root := root;
      this.mem := ZeroPage(mem, root);
      tab := map[Key(0, 0) := root];
      pages := {root};
      EmptyTree(mem, root);
    }

    /**
     early_pgtable_alloc: a page nobody had, zeroed. Exhaustion is not tested
     for: then the page at address 0 is cleared and returned.
     */
    method EarlyPgtableAlloc() returns (phys: nat)
      requires Valid()
      modifies this`mem, alloc.memMap
      ensures alloc.Valid() && mem == ZeroPage(old(mem), phys)
      ensures old(V()).free == 0 ==> phys == 0 && V() == old(V()).(mem := mem)
      ensures old(V()).free > 0 ==> Managed(phys) && phys !in pages && !Marked(old(V()).bitmap, phys)
      ensures old(V()).free > 0 ==> V() == old(V()).(mem := mem, bitmap := V().bitmap, free := old(V()).free - 1)
      ensures old(V()).free > 0 ==>
                forall p :: Marked(V().bitmap, p) <==> Marked(old(V()).bitmap, p) || p == phys
    {
      ghost var m := alloc.memMap[..];
      ghost var i := FirstFree(m);
      FreeCountPositive(m);
      if i < NR_PAGES { TakeFirst(m, i, m[i := 1]); }
      phys := alloc.GetFreePage();
      mem := ZeroPage(mem, phys);
    }

    /** `p = alloc(); set_pxd(slot, p | TYPE_TABLE);` below an empty entry. */
    method AddTable(slot: nat, ghost level: nat, ghost s: nat)
      requires Valid() && level < 3 && Key(level, s / 512) in tab && slot == Slot(tab, level, s)
      requires Load(mem, slot) == 0 && V().free > 0
      modifies this, alloc.memMap
      ensures Valid() && TableEnsured(old(V()), V(), root, Key(level + 1, s))
      ensures PageAddr(Load(mem, slot)) == tab[Key(level + 1, s)]
    {
      ghost var v := V();
      var p := EarlyPgtableAlloc();
      mem := mem[slot := TableDesc(p)];
      tab := tab[Key(level + 1, s) := p];
      pages := pages + {p};
      TableAdded(v, V(), root, level, s, p);
      StillHolding(v, V(), root);
    }

    /** `if (pxd_none(*slot)) { ... }`, at level 0, 1 or 2. */
    method EnsureTable(slot: nat, ghost level: nat, ghost s: nat)
      requires Valid() && level < 3 && Key(level, s / 512) in tab && slot == Slot(tab, level, s)
      requires EntryFree(mem, tab, level, s) && (Key(level + 1, s) in tab || V().free > 0)
      modifies this, alloc.memMap
      ensures Valid() && TableEnsured(old(V()), V(), root, Key(level + 1, s))
      ensures PageAddr(Load(mem, slot)) == tab[Key(level + 1, s)]
    {
      EntryIsTable(mem, tab, root, level, s);
      if Load(mem, slot) == 0 {
        AddTable(slot, level, s);
      } else {
        TableThere(V(), root, Key(level + 1, s));
      }
    }

    /** set_pte of one page inside a level 3 table. */
    method SetPte(ptep: nat, phys: nat, prot: nat, ghost v0: View, ghost lo: nat, ghost addr: nat, ghost phys0: nat)
      requires Valid() && lo <= addr < VA_LIMIT && addr % PAGE_SIZE == 0
      requires phys == phys0 + (addr - lo) && phys % PAGE_SIZE == 0 && phys < VA_LIMIT && ValidProt(prot)
      requires addr / PAGE_SIZE / 512 == addr / PMD_SIZE && Key(3, addr / PMD_SIZE) in tab
      requires ptep == Slot(tab, 3, addr / PAGE_SIZE)
      requires PagesWritten(v0, V(), root, lo, addr, phys0, prot)
      modifies this`mem
      ensures Valid() && PagesWritten(v0, V(), root, lo, addr + PAGE_SIZE, phys0, prot)
    {
      ghost var v := V();
      mem := mem[ptep := PageDesc(phys, prot)];
      PageWritten(v0, v, V(), root, lo, addr, phys0, prot);
    }

    /** The do-while loop of alloc_init_pte. */
    method WritePages(ptep0: nat, addr0: nat, end: nat, phys0: nat, prot: nat)
      requires Valid() && Args(addr0, end, phys0, prot) && (end - 1) / PMD_SIZE == addr0 / PMD_SIZE
      requires Key(3, addr0 / PMD_SIZE) in tab && ptep0 == tab[Key(3, addr0 / PMD_SIZE)] + 8 * PteIndex(addr0)
      modifies this`mem
      ensures Valid() && PagesWritten(old(V()), V(), root, addr0, end, phys0, prot)
    {
      ghost var v0 := V();
      var addr, phys, ptep := addr0, phys0, ptep0;
      ghost var j := 0;
      NothingWritten(v0, root, addr0, phys0, prot);
      while true
        invariant addr == addr0 + PAGE_SIZE * j < end && phys == phys0 + PAGE_SIZE * j && ptep == ptep0 + 8 * j
        invariant Valid() && PagesWritten(v0, V(), root, addr0, addr, phys0, prot)
        decreases end - addr
      {
        NthPage(addr0, end, phys0, j, addr, phys);
        SetPte(ptep, phys, prot, v0, addr0, addr, phys0);
        phys := phys + PAGE_SIZE;
        ptep := ptep + 8;
        addr := addr + PAGE_SIZE;
        j := j + 1;
        if addr == end { break; }
      }
    }

    /** alloc_init_pte: maps a range inside one 2 MB chunk page by page. */
    method AllocInitPte(pmdp: nat, addr: nat, end: nat, phys: nat, prot: nat, flags: nat)
      requires Valid() && Args(addr, end, phys, prot) && (end - 1) / PMD_SIZE == addr / PMD_SIZE
      requires Key(2, addr / PMD_SIZE / 512) in tab && pmdp == Slot(tab, 2, addr / PMD_SIZE)
      requires EntryFree(mem, tab, 2, addr / PMD_SIZE)
      requires !SectionChunk(addr / PMD_SIZE, addr, end, phys, flags)
      requires Key(3, addr / PMD_SIZE) in tab || V().free > 0
      modifies this, alloc.memMap
      ensures Valid() && Built(old(V()), V(), root, addr, end, phys, prot, flags)
      ensures V().free == old(V()).free - (if Key(3, addr / PMD_SIZE) in old(tab) then 0 else 1)
    {
      ghost var v0 := V();
      ghost var k := Key(3, addr / PMD_SIZE);
      EnsureTable(pmdp, 2, addr / PMD_SIZE);
      ghost var v1 := V();
      WritePages(PageAddr(Load(mem, pmdp)) + 8 * PteIndex(addr), addr, end, phys, prot);
      PagesBuilt(v1, V(), root, addr, end, phys, prot, flags);
      TableThenBuilt(v0, v1, V(), root, k, addr, end, phys, prot, flags);
    }

    /** pmd_set_section: chunk s, from lo to hi, is mapped whole, and a table there is gone. */
    method PmdSetSection(pmdp: nat, phys: nat, prot: nat, ghost s: nat, ghost lo: nat, ghost hi: nat, ghost flags: nat)
      requires Valid() && Key(2, s / 512) in tab && pmdp == Slot(tab, 2, s) && flags % 2 == 0
      requires lo == s * PMD_SIZE && hi == (s + 1) * PMD_SIZE <= VA_LIMIT
      requires phys % PMD_SIZE == 0 && phys < VA_LIMIT && ValidProt(prot)
      modifies this`mem, this`tab
      ensures Valid() && Built(old(V()), V(), root, lo, hi, phys, prot, flags) && V().free == old(V()).free
    {
      ghost var v := V();
      mem := mem[pmdp := SectDesc(phys, prot)];
      tab := tab - {Key(3, s)};
      SectionBuilt(v, V(), root, s, lo, hi, phys, prot, flags);
    }

    /** The loop body of alloc_init_pmd: a section when everything is 2 MB aligned, pages otherwise. */
    method MapChunk(pmdp: nat, addr: nat, next: nat, phys: nat, prot: nat, flags: nat)
      requires Valid() && Args(addr, next, phys, prot) && (next - 1) / PMD_SIZE == addr / PMD_SIZE
      requires Key(2, addr / PMD_SIZE / 512) in tab && pmdp == Slot(tab, 2, addr / PMD_SIZE)
      requires Clear(V(), addr, next, phys, flags) && V().free >= Need(0, tab, addr, next, phys, flags)
      modifies this, alloc.memMap
      ensures Valid() && Completed(0, old(V()), V(), root, addr, next, phys, prot, flags)
    {
      ghost var s := addr / PMD_SIZE;
      ChunkChoice(addr, next, phys, flags);
      NeedOne(tab, addr, next, phys, flags);
      if SectionAligned(addr, next, phys) && BlocksAllowed(flags) {
        PmdSetSection(pmdp, phys, prot, s, addr, next, flags);
      } else {
        AllocInitPte(pmdp, addr, next, phys, prot, flags);
      }
    }

    /** One round of the loop of alloc_init_pmd. */
    method PmdRound(pmdp: nat, addr: nat, next: nat, phys: nat, prot: nat, flags: nat,
                    ghost v0: View, ghost lo: nat, ghost hi: nat, ghost phys0: nat)
      returns (phys': nat)
      requires Valid() && Args(lo, hi, phys0, prot) && (hi - 1) / PUD_SIZE == lo / PUD_SIZE
      requires Clear(v0, lo, hi, phys0, flags)
      requires Reached(0, v0, V(), root, lo, addr, hi, phys0, phys, prot, flags)
      requires addr < next <= hi && (next - 1) / PMD_SIZE == addr / PMD_SIZE && Cut(0, next, hi)
      requires Key(2, lo / PUD_SIZE) in tab && pmdp == tab[Key(2, lo / PUD_SIZE)] + 8 * PmdIndex(addr)
      modifies this, alloc.memMap
      ensures Valid() && Key(2, lo / PUD_SIZE) in tab
      ensures next < hi ==> pmdp + 8 == tab[Key(2, lo / PUD_SIZE)] + 8 * PmdIndex(next)
      ensures next < hi ==> Reached(0, v0, V(), root, lo, next, hi, phys0, phys', prot, flags)
      ensures next == hi ==> Completed(0, v0, V(), root, lo, hi, phys0, prot, flags)
    {
      ghost var v := V();
      NextPmd(lo, hi, addr, next);
      RoundStarts(0, v0, v, root, lo, addr, next, hi, phys0, phys, prot, flags);
      MapChunk(pmdp, addr, next, phys, prot, flags);
      phys' := phys + (next - addr);
      RoundEnds(0, v0, v, V(), root, lo, addr, next, hi, phys0, phys, phys', prot, flags);
      TableStays(v, V(), root, Key(2, lo / PUD_SIZE), addr, next, phys, prot, flags);
    }

    /** The do-while loop of alloc_init_pmd. */
    method MapChunks(pmdp0: nat, addr0: nat, end: nat, phys0: nat, prot: nat, flags: nat)
      requires Valid() && Args(addr0, end, phys0, prot) && (end - 1) / PUD_SIZE == addr0 / PUD_SIZE
      requires Key(2, addr0 / PUD_SIZE) in tab
      requires pmdp0 == tab[Key(2, addr0 / PUD_SIZE)] + 8 * PmdIndex(addr0)
      requires Clear(V(), addr0, end, phys0, flags) && V().free >= Need(0, tab, addr0, end, phys0, flags)
      modifies this, alloc.memMap
      ensures Valid() && Completed(0, old(V()), V(), root, addr0, end, phys0, prot, flags)
    {
      ghost var v0 := V();
      ghost var k := Key(2, addr0 / PUD_SIZE);
      var addr: nat, phys: nat, pmdp: nat := addr0, phys0, pmdp0;
      LoopStarts(0, v0, root, addr0, end, phys0, prot, flags);
      while true
        invariant k in tab && pmdp == tab[k] + 8 * PmdIndex(addr)
        invariant Valid() && Reached(0, v0, V(), root, addr0, addr, end, phys0, phys, prot, flags)
        decreases end - addr
      {
        var next := PmdAddrEnd(addr, end);
        phys := PmdRound(pmdp, addr, next, phys, prot, flags, v0, addr0, end, phys0);
        pmdp := pmdp + 8;
        addr := next;
        if addr == end { break; }
      }
    }

    /** alloc_init_pmd: maps a range inside one 1 GB entry. */
    method AllocInitPmd(pudp: nat, addr: nat, end: nat, phys: nat, prot: nat, flags: nat)
      requires Valid() && Args(addr, end, phys, prot) && (end - 1) / PUD_SIZE == addr / PUD_SIZE
      requires Key(1, addr / PUD_SIZE / 512) in tab && pudp == Slot(tab, 1, addr / PUD_SIZE)
      requires Clear(V(), addr, end, phys, flags) && V().free >= Need(1, tab, addr, end, phys, flags)
      modifies this, alloc.memMap
      ensures Valid() && Completed(1, old(V()), V(), root, addr, end, phys, prot, flags)
    {
      ghost var v0 := V();
      ghost var k := Key(2, addr / PUD_SIZE);
      NeedSome(0, tab, k, addr, end, phys, flags);
      EnsureTable(pudp, 1, addr / PUD_SIZE);
      ghost var v1 := V();
      TableReady(0, v0, v1, root, k, addr, end, phys, flags);
      MapChunks(PageAddr(Load(mem, pudp)) + 8 * PmdIndex(addr), addr, end, phys, prot, flags);
      TableThenBuilt(v0, v1, V(), root, k, addr, end, phys, prot, flags);
    }

    /** One round of the loop of alloc_init_pud. */
    method PudRound(pudp: nat, addr: nat, next: nat, phys: nat, prot: nat, flags: nat,
                    ghost v0: View, ghost lo: nat, ghost hi: nat, ghost phys0: nat)
      returns (phys': nat)
      requires Valid() && Args(lo, hi, phys0, prot) && (hi - 1) / PGDIR_SIZE == lo / PGDIR_SIZE
      requires Clear(v0, lo, hi, phys0, flags)
      requires Reached(1, v0, V(), root, lo, addr, hi, phys0, phys, prot, flags)
      requires addr < next <= hi && (next - 1) / PUD_SIZE == addr / PUD_SIZE && Cut(1, next, hi)
      requires Key(1, lo / PGDIR_SIZE) in tab && pudp == tab[Key(1, lo / PGDIR_SIZE)] + 8 * PudIndex(addr)
      modifies this, alloc.memMap
      ensures Valid() && Key(1, lo / PGDIR_SIZE) in tab
      ensures next < hi ==> pudp + 8 == tab[Key(1, lo / PGDIR_SIZE)] + 8 * PudIndex(next)
      ensures next < hi ==> Reached(1, v0, V(), root, lo, next, hi, phys0, phys', prot, flags)
      ensures next == hi ==> Completed(1, v0, V(), root, lo, hi, phys0, prot, flags)
    {
      ghost var v := V();
      NextPud(lo, hi, addr, next);
      RoundStarts(1, v0, v, root, lo, addr, next, hi, phys0, phys, prot, flags);
      AllocInitPmd(pudp, addr, next, phys, prot, flags);
      phys' := phys + (next - addr);
      RoundEnds(1, v0, v, V(), root, lo, addr, next, hi, phys0, phys, phys', prot, flags);
      TableStays(v, V(), root, Key(1, lo / PGDIR_SIZE), addr, next, phys, prot, flags);
    }

    /** The do-while loop of alloc_init_pud. */
    method MapPuds(pudp0: nat, addr0: nat, end: nat, phys0: nat, prot: nat, flags: nat)
      requires Valid() && Args(addr0, end, phys0, prot) && (end - 1) / PGDIR_SIZE == addr0 / PGDIR_SIZE
      requires Key(1, addr0 / PGDIR_SIZE) in tab
      requires pudp0 == tab[Key(1, addr0 / PGDIR_SIZE)] + 8 * PudIndex(addr0)
      requires Clear(V(), addr0, end, phys0, flags) && V().free >= Need(1, tab, addr0, end, phys0, flags)
      modifies this, alloc.memMap
      ensures Valid() && Completed(1, old(V()), V(), root, addr0, end, phys0, prot, flags)
    {
      ghost var v0 := V();
      ghost var k := Key(1, addr0 / PGDIR_SIZE);
      var addr: nat, phys: nat, pudp: nat := addr0, phys0, pudp0;
      LoopStarts(1, v0, root, addr0, end, phys0, prot, flags);
      while true
        invariant k in tab && pudp == tab[k] + 8 * PudIndex(addr)
        invariant Valid() && Reached(1, v0, V(), root, addr0, addr, end, phys0, phys, prot, flags)
        decreases end - addr
      {
        var next := PudAddrEnd(addr, end);
        phys := PudRound(pudp, addr, next, phys, prot, flags, v0, addr0, end, phys0);
        pudp := pudp + 8;
        addr := next;
        if addr == end { break; }
      }
    }

    /** alloc_init_pud: maps a range inside one 512 GB entry. */
    method AllocInitPud(pgdp: nat, addr: nat, end: nat, phys: nat, prot: nat, flags: nat)
      requires Valid() && Args(addr, end, phys, prot) && (end - 1) / PGDIR_SIZE == addr / PGDIR_SIZE
      requires addr / PGDIR_SIZE / 512 == 0 && pgdp == Slot(tab, 0, addr / PGDIR_SIZE)
      requires Clear(V(), addr, end, phys, flags) && V().free >= Need(2, tab, addr, end, phys, flags)
      modifies this, alloc.memMap
      ensures Valid() && Completed(2, old(V()), V(), root, addr, end, phys, prot, flags)
    {
      ghost var v0 := V();
      ghost var k := Key(1, addr / PGDIR_SIZE);
      assert SlotOk(mem, tab, 0, addr / PGDIR_SIZE);
      NeedSome(1, tab, k, addr, end, phys, flags);
      EnsureTable(pgdp, 0, addr / PGDIR_SIZE);
      ghost var v1 := V();
      TableReady(1, v0, v1, root, k, addr, end, phys, flags);
      MapPuds(PageAddr(Load(mem, pgdp)) + 8 * PudIndex(addr), addr, end, phys, prot, flags);
      TableThenBuilt(v0, v1, V(), root, k, addr, end, phys, prot, flags);
    }

    /** One round of the loop of __create_pgd_mapping. */
    method PgdRound(pgdp: nat, addr: nat, next: nat, phys: nat, prot: nat, flags: nat,
                    ghost v0: View, ghost lo: nat, ghost hi: nat, ghost phys0: nat)
      returns (phys': nat)
      requires Valid() && Args(lo, hi, phys0, prot) && Clear(v0, lo, hi, phys0, flags)
      requires Reached(2, v0, V(), root, lo, addr, hi, phys0, phys, prot, flags)
      requires addr < next <= hi && (next - 1) / PGDIR_SIZE == addr / PGDIR_SIZE && Cut(2, next, hi)
      requires pgdp == root + 8 * PgdIndex(addr)
      modifies this, alloc.memMap
      ensures Valid()
      ensures next < hi ==> pgdp + 8 == root + 8 * PgdIndex(next)
      ensures next < hi ==> Reached(2, v0, V(), root, lo, next, hi, phys0, phys', prot, flags)
      ensures next == hi ==> Completed(2, v0, V(), root, lo, hi, phys0, prot, flags)
    {
      ghost var v := V();
      NextPgd(hi, addr, next);
      RoundStarts(2, v0, v, root, lo, addr, next, hi, phys0, phys, prot, flags);
      AllocInitPud(pgdp, addr, next, phys, prot, flags);
      phys' := phys + (next - addr);
      RoundEnds(2, v0, v, V(), root, lo, addr, next, hi, phys0, phys, phys', prot, flags);
    }

    /** The do-while loop of __create_pgd_mapping. */
    method MapPgds(pgdp0: nat, addr0: nat, end: nat, phys0: nat, prot: nat, flags: nat)
      requires Valid() && Args(addr0, end, phys0, prot) && pgdp0 == root + 8 * PgdIndex(addr0)
      requires Clear(V(), addr0, end, phys0, flags) && V().free >= Need(2, tab, addr0, end, phys0, flags)
      modifies this, alloc.memMap
      ensures Valid() && Completed(2, old(V()), V(), root, addr0, end, phys0, prot, flags)
    {
      ghost var v0 := V();
      ghost var k := Key(0, 0);
      var addr: nat, phys: nat, pgdp: nat := addr0, phys0, pgdp0;
      LoopStarts(2, v0, root, addr0, end, phys0, prot, flags);
      while true
        invariant k in tab && pgdp == tab[k] + 8 * PgdIndex(addr)
        invariant Valid() && Reached(2, v0, V(), root, addr0, addr, end, phys0, phys, prot, flags)
        decreases end - addr
      {
        var next := PgdAddrEnd(addr, end);
        phys := PgdRound(pgdp, addr, next, phys, prot, flags, v0, addr0, end, phys0);
        pgdp := pgdp + 8;
        addr := next;
        if addr == end { break; }
      }
    }

    /**
     __create_pgd_mapping: rounds the range to pages and maps it. Afterwards
     every address of the rounded range translates to its offset from the
     rounded physical address, every other address translates as before, the
     tables are still a tree, and exactly Need pages were taken, all free before.
     */
    method CreatePgdMapping(phys: nat, virt: nat, size: nat, prot: nat, flags: nat)
      requires Valid() && virt + size <= VA_LIMIT && phys < VA_LIMIT
      requires Args(PageDown(virt), PageUp(virt + size), PageDown(phys), prot)
      requires Clear(V(), PageDown(virt), PageUp(virt + size), PageDown(phys), flags)
      requires V().free >= Need(2, tab, PageDown(virt), PageUp(virt + size), PageDown(phys), flags)
      modifies this, alloc.memMap
      ensures Valid() && Built(old(V()), V(), root, PageDown(virt), PageUp(virt + size), PageDown(phys), prot, flags)
      ensures V().free == old(V()).free - Need(2, old(tab), PageDown(virt), PageUp(virt + size), PageDown(phys), flags)
    {
      var pgdp := root + 8 * PgdIndex(virt);
      SameTopEntry(virt);
      MapPgds(pgdp, PageDown(virt), PageUp(virt + size), PageDown(phys), prot, flags);
    }

    /**
     __create_pgd_mapping of an empty range: the body of every do-while loop
     runs once, with next == addr, and at an aligned address it writes a
     section all the same. So the call maps 2 MB, up to hi, that nobody asked for.
     */
    method CreateEmptyMapping(phys: nat, virt: nat, prot: nat, flags: nat, ghost hi: nat)
      requires Valid() && 0 < virt && OneSection(virt, hi, phys, prot, flags)
      requires Clear(V(), virt, hi, phys, flags) && V().free >= Need(2, tab, virt, hi, phys, flags)
      modifies this, alloc.memMap
      ensures Valid() && Completed(2, old(V()), V(), root, virt, hi, phys, prot, flags)
    {
      ghost var v0 := V();
      ghost var k := Key(1, virt / PGDIR_SIZE);
      var pgdp := root + 8 * PgdIndex(virt);
      var next := PgdAddrEnd(virt, virt);
      SectionEntries(virt, hi, phys, prot, flags);
      assert SlotOk(mem, tab, 0, virt / PGDIR_SIZE);
      NeedSome(1, tab, k, virt, hi, phys, flags);
      EnsureTable(pgdp, 0, virt / PGDIR_SIZE);
      ghost var v1 := V();
      TableReady(1, v0, v1, root, k, virt, hi, phys, flags);
      EmptyPud(PageAddr(Load(mem, pgdp)) + 8 * PudIndex(virt), virt, PudAddrEnd(virt, next), phys, prot, flags, hi);
      TableThenBuilt(v0, v1, V(), root, k, virt, hi, phys, prot, flags);
    }

    /** alloc_init_pmd on an empty range. */
    method EmptyPud(pudp: nat, addr: nat, end: nat, phys: nat, prot: nat, flags: nat, ghost hi: nat)
      requires Valid() && 0 < addr == end && OneSection(addr, hi, phys, prot, flags)
      requires Key(1, addr / PGDIR_SIZE) in tab && pudp == tab[Key(1, addr / PGDIR_SIZE)] + 8 * PudIndex(addr)
      requires Clear(V(), addr, hi, phys, flags) && V().free >= Need(1, tab, addr, hi, phys, flags)
      modifies this, alloc.memMap
      ensures Valid() && Completed(1, old(V()), V(), root, addr, hi, phys, prot, flags)
    {
      ghost var v0 := V();
      ghost var k := Key(2, addr / PUD_SIZE);
      SectionEntries(addr, hi, phys, prot, flags);
      NeedSome(0, tab, k, addr, hi, phys, flags);
      EnsureTable(pudp, 1, addr / PUD_SIZE);
      ghost var v1 := V();
      TableReady(0, v0, v1, root, k, addr, hi, phys, flags);
      EmptyPmd(PageAddr(Load(mem, pudp)) + 8 * PmdIndex(addr), addr, PmdAddrEnd(addr, end), phys, prot, flags, hi);
      TableThenBuilt(v0, v1, V(), root, k, addr, hi, phys, prot, flags);
    }

    /** The one round of its loop: all three values are aligned, so it writes a section. */
    method EmptyPmd(pmdp: nat, addr: nat, next: nat, phys: nat, prot: nat, flags: nat, ghost hi: nat)
      requires Valid() && addr == next && OneSection(addr, hi, phys, prot, flags)
      requires Key(2, addr / PUD_SIZE) in tab && pmdp == tab[Key(2, addr / PUD_SIZE)] + 8 * PmdIndex(addr)
      modifies this, alloc.memMap
      ensures Valid() && Completed(0, old(V()), V(), root, addr, hi, phys, prot, flags)
    {
      SectionEntries(addr, hi, phys, prot, flags);
      NeedOne(tab, addr, hi, phys, flags);
      if SectionAligned(addr, next, phys) && BlocksAllowed(flags) {
        PmdSetSection(pmdp, phys, prot, addr / PMD_SIZE, addr, hi, flags);
      }
    }
  }

  /** The 2 MB from addr to hi, with everything aligned for a section. */
  predicate OneSection(addr: nat, hi: nat, phys: nat, prot: nat, flags: nat) {
    && addr % PMD_SIZE == 0 && hi == addr + PMD_SIZE && addr < VA_LIMIT && flags % 2 == 0
    && phys % PMD_SIZE == 0 && phys < VA_LIMIT && ValidProt(prot)
  }

  lemma SectionEntries(addr: nat, hi: nat, phys: nat, prot: nat, flags: nat)
    requires OneSection(addr, hi, phys, prot, flags)
    ensures addr == addr / PMD_SIZE * PMD_SIZE && hi == (addr / PMD_SIZE + 1) * PMD_SIZE <= VA_LIMIT
    ensures (hi - 1) / PMD_SIZE == addr / PMD_SIZE
    ensures (hi - 1) / PUD_SIZE == addr / PUD_SIZE
    ensures (hi - 1) / PGDIR_SIZE == addr / PGDIR_SIZE
    ensures addr / PMD_SIZE / 512 == addr / PUD_SIZE && addr / PUD_SIZE / 512 == addr / PGDIR_SIZE
    ensures addr / PGDIR_SIZE / 512 == 0
    ensures SectionChunk(addr / PMD_SIZE, addr, hi, phys, flags)
  {
    Nest(addr);
    Nest(hi - 1);
  }

  lemma SameTopEntry(virt: nat)
    requires virt < WORD
    ensures PageDown(virt) / PGDIR_SIZE == virt / PGDIR_SIZE
  {
    var a := virt / PAGE_SIZE;
    var q, b := a / 0x800_0000, a % 0x800_0000;
    assert PAGE_SIZE * a == PGDIR_SIZE * q + PAGE_SIZE * b;
    InsidePage(virt, PageDown(virt));
    DivTop(q, PAGE_SIZE * b);
    DivTop(q, PAGE_SIZE * b + virt % PAGE_SIZE);
  }

  lemma InsidePage(x: nat, r: nat)
    requires r % PAGE_SIZE == 0 && r <= x < r + PAGE_SIZE
    ensures r == PAGE_SIZE * (x / PAGE_SIZE) && x == r + x % PAGE_SIZE
  {
    var a, b := x / PAGE_SIZE, r / PAGE_SIZE;
    assert r == PAGE_SIZE * b && PAGE_SIZE * a <= x < PAGE_SIZE * a + PAGE_SIZE;
  }

  lemma DivTop(q: nat, r: nat)
    requires r < PGDIR_SIZE
    ensures (PGDIR_SIZE * q + r) / PGDIR_SIZE == q
  {
  }
}
