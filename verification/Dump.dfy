/**
 The page-table dump of kernel/dump_pgtable.c: a second reader of the tables,
 which reports intervals with the descriptor found for each. Its report is
 compared with where the hardware walk stops.
 */
module Dump {
  import opened Pgtable
  import opened PageTable
  import opened PageAlloc
  import opened Mapping

  /** One call of print_pgtable: levels count from 1 (PGD) to 4 (PTE). */
  datatype Report = Report(start: nat, end: nat, level: nat, val: nat)

  /** The intervals follow each other from lo to hi. */
  ghost predicate Tiling(out: seq<Report>, lo: nat, hi: nat) {
    if out == [] then lo == hi
    else out[0].start == lo && lo < out[0].end && Tiling(out[1..], out[0].end, hi)
  }

  /** The hardware walk of every address of the interval stops at this level and descriptor. */
  ghost predicate Faithful(mem: Mem, root: nat, r: Report) {
    r.level > 0 && forall va :: r.start <= va < r.end ==> WalkStop(mem, root, va) == Stop(r.level - 1, r.val)
  }

  ghost predicate Covers(mem: Mem, root: nat, out: seq<Report>, lo: nat, hi: nat) {
    Tiling(out, lo, hi) && forall i :: 0 <= i < |out| ==> Faithful(mem, root, out[i])
  }

  lemma {:induction false} TilingAppend(a: seq<Report>, b: seq<Report>, lo: nat, mid: nat, hi: nat)
    requires Tiling(a, lo, mid) && Tiling(b, mid, hi)
    ensures Tiling(a + b, lo, hi)
  {
    if a == [] {
      assert a + b == b;
    } else {
      TilingAppend(a[1..], b, a[0].end, mid, hi);
      assert (a + b)[1..] == a[1..] + b;
    }
  }

  lemma CoversAppend(mem: Mem, root: nat, a: seq<Report>, b: seq<Report>, lo: nat, mid: nat, hi: nat)
    requires Covers(mem, root, a, lo, mid) && Covers(mem, root, b, mid, hi)
    ensures Covers(mem, root, a + b, lo, hi)
  {
    TilingAppend(a, b, lo, mid, hi);
  }

  lemma CoversOne(mem: Mem, root: nat, r: Report)
    requires Faithful(mem, root, r) && r.start < r.end
    ensures Covers(mem, root, [r], r.start, r.end)
  {
    assert [r][1..] == [];
  }

  /** The reports are disjoint and in order: an address is reported exactly once. */
  lemma {:induction false} ReportedOnce(out: seq<Report>, lo: nat, hi: nat, va: nat) returns (i: nat)
    requires Tiling(out, lo, hi) && lo <= va < hi
    ensures i < |out| && out[i].start <= va < out[i].end
    ensures forall j :: 0 <= j < |out| && out[j].start <= va < out[j].end ==> j == i
    decreases |out|
  {
    if va < out[0].end {
      i := 0;
      LaterStarts(out[1..], out[0].end, hi);
      forall j | 0 < j < |out| ensures va < out[j].start { assert out[j] == out[1..][j - 1]; }
    } else {
      TilingNonEmpty(out[1..], out[0].end, hi);
      i := ReportedOnce(out[1..], out[0].end, hi, va);
      forall j | 0 <= j < |out| && out[j].start <= va < out[j].end ensures j == i + 1 {
        assert j > 0 && out[j] == out[1..][j - 1];
      }
      i := i + 1;
    }
  }

  lemma {:induction false} TilingNonEmpty(out: seq<Report>, lo: nat, hi: nat)
    requires Tiling(out, lo, hi)
    ensures lo <= hi
    decreases |out|
  {
    if out != [] { TilingNonEmpty(out[1..], out[0].end, hi); }
  }

  lemma {:induction false} LaterStarts(out: seq<Report>, lo: nat, hi: nat)
    requires Tiling(out, lo, hi)
    ensures forall j :: 0 <= j < |out| ==> lo <= out[j].start
    decreases |out|
  {
    if out != [] {
      LaterStarts(out[1..], out[0].end, hi);
      forall j | 0 <= j < |out| ensures lo <= out[j].start { if j > 0 { assert out[j] == out[1..][j - 1]; } }
    }
  }

  // ---------- where walks stop ----------

  lemma PageFaithful(mem: Mem, tab: Tables, root: nat, addr: nat)
    requires Tree(mem, tab, root) && addr % PAGE_SIZE == 0 && addr + PAGE_SIZE <= VA_LIMIT
    requires addr / PAGE_SIZE / 512 == addr / PMD_SIZE && Key(3, addr / PMD_SIZE) in tab
    ensures Faithful(mem, root, Report(addr, addr + PAGE_SIZE, 4, Entry(mem, tab, 3, addr / PAGE_SIZE)))
  {
    forall va | addr <= va < addr + PAGE_SIZE
      ensures WalkStop(mem, root, va) == Stop(3, Entry(mem, tab, 3, addr / PAGE_SIZE))
    {
      WalkInTree(mem, tab, root, va);
      PageOffset(va, addr);
      Nest(va);
    }
  }

  lemma ChunkFaithful(mem: Mem, tab: Tables, root: nat, addr: nat, next: nat)
    requires Tree(mem, tab, root) && addr < next <= VA_LIMIT && (next - 1) / PMD_SIZE == addr / PMD_SIZE
    requires Key(2, addr / PMD_SIZE / 512) in tab && Key(3, addr / PMD_SIZE) !in tab
    ensures Faithful(mem, root, Report(addr, next, 3, Entry(mem, tab, 2, addr / PMD_SIZE)))
  {
    forall va | addr <= va < next ensures WalkStop(mem, root, va) == Stop(2, Entry(mem, tab, 2, addr / PMD_SIZE)) {
      WalkInTree(mem, tab, root, va);
      PageInTable(va, addr, next);
      Nest(va);
    }
  }

  lemma GigaFaithful(mem: Mem, tab: Tables, root: nat, addr: nat, next: nat)
    requires Tree(mem, tab, root) && addr < next <= VA_LIMIT && (next - 1) / PUD_SIZE == addr / PUD_SIZE
    requires Key(1, addr / PUD_SIZE / 512) in tab && Key(2, addr / PUD_SIZE) !in tab
    ensures Faithful(mem, root, Report(addr, next, 2, Entry(mem, tab, 1, addr / PUD_SIZE)))
  {
    forall va | addr <= va < next ensures WalkStop(mem, root, va) == Stop(1, Entry(mem, tab, 1, addr / PUD_SIZE)) {
      WalkInTree(mem, tab, root, va);
      ParentPresent(mem, tab, root, va);
      SameGiga(va, addr, next);
      Nest(va);
    }
  }

  lemma SameGiga(va: nat, addr: nat, next: nat)
    requires addr <= va < next && (next - 1) / PUD_SIZE == addr / PUD_SIZE
    ensures va / PUD_SIZE == addr / PUD_SIZE
  {
  }

  lemma TopFaithful(mem: Mem, tab: Tables, root: nat, addr: nat, next: nat)
    requires Tree(mem, tab, root) && addr < next <= VA_LIMIT && (next - 1) / PGDIR_SIZE == addr / PGDIR_SIZE
    requires Key(1, addr / PGDIR_SIZE) !in tab && Key(0, addr / PGDIR_SIZE / 512) in tab
    ensures Faithful(mem, root, Report(addr, next, 1, Entry(mem, tab, 0, addr / PGDIR_SIZE)))
  {
    forall va | addr <= va < next ensures WalkStop(mem, root, va) == Stop(0, Entry(mem, tab, 0, addr / PGDIR_SIZE)) {
      WalkInTree(mem, tab, root, va);
      ParentPresent(mem, tab, root, va);
      SameTop(va, addr, next);
    }
  }

  lemma SameTop(va: nat, addr: nat, next: nat)
    requires addr <= va < next && (next - 1) / PGDIR_SIZE == addr / PGDIR_SIZE
    ensures va / PGDIR_SIZE == addr / PGDIR_SIZE
  {
  }

  // ---------- the walkers ----------

  method WalkPte(mem: Mem, ghost tab: Tables, ghost root: nat, pmdp: nat, start: nat, end: nat)
    returns (out: seq<Report>)
    requires Tree(mem, tab, root) && start < end <= VA_LIMIT && start % PAGE_SIZE == 0 && end % PAGE_SIZE == 0
    requires (end - 1) / PMD_SIZE == start / PMD_SIZE && Key(3, start / PMD_SIZE) in tab
    requires PageAddr(Load(mem, pmdp)) == tab[Key(3, start / PMD_SIZE)]
    ensures Covers(mem, root, out, start, end)
  {
    var ptep0 := PageAddr(Load(mem, pmdp)) + 8 * PteIndex(start);
    var ptep, addr := ptep0, start;
    ghost var j := 0;
    out := [];
    while true
      invariant addr == start + PAGE_SIZE * j < end && ptep == ptep0 + 8 * j
      invariant Covers(mem, root, out, start, addr)
      decreases end - addr
    {
      NthPage(start, end, start, j, addr, addr);
      var r := Report(addr, addr + PAGE_SIZE, 4, Load(mem, ptep));
      PageFaithful(mem, tab, root, addr);
      CoversOne(mem, root, r);
      CoversAppend(mem, root, out, [r], start, addr, addr + PAGE_SIZE);
      out := out + [r];
      ptep := ptep + 8;
      addr := addr + PAGE_SIZE;
      j := j + 1;
      if addr == end { break; }
    }
  }

  /** The loop body of walk_pmd. */
  method WalkPmdEntry(mem: Mem, ghost tab: Tables, ghost root: nat, pmdp: nat, addr: nat, next: nat)
    returns (part: seq<Report>)
    requires Tree(mem, tab, root) && addr < next <= VA_LIMIT && addr % PAGE_SIZE == 0 && next % PAGE_SIZE == 0
    requires (next - 1) / PMD_SIZE == addr / PMD_SIZE
    requires Key(2, addr / PMD_SIZE / 512) in tab && pmdp == Slot(tab, 2, addr / PMD_SIZE)
    ensures Covers(mem, root, part, addr, next)
  {
    var pmd := Load(mem, pmdp);
    EntryIsTable(mem, tab, root, 2, addr / PMD_SIZE);
    if pmd == 0 || pmd % 4 == 1 {
      part := [Report(addr, next, 3, pmd)];
      ChunkFaithful(mem, tab, root, addr, next);
      CoversOne(mem, root, part[0]);
    } else {
      assert SlotOk(mem, tab, 2, addr / PMD_SIZE);
      part := WalkPte(mem, tab, root, pmdp, addr, next);
    }
  }

  method WalkPmd(mem: Mem, ghost tab: Tables, ghost root: nat, pudp: nat, start: nat, end: nat)
    returns (out: seq<Report>)
    requires Tree(mem, tab, root) && start < end <= VA_LIMIT && start % PAGE_SIZE == 0 && end % PAGE_SIZE == 0
    requires (end - 1) / PUD_SIZE == start / PUD_SIZE && Key(2, start / PUD_SIZE) in tab
    requires PageAddr(Load(mem, pudp)) == tab[Key(2, start / PUD_SIZE)]
    ensures Covers(mem, root, out, start, end)
  {
    var addr := start;
    var pmdp := PageAddr(Load(mem, pudp)) + 8 * PmdIndex(start);
    out := [];
    while true
      invariant start <= addr < end && addr % PAGE_SIZE == 0
      invariant pmdp == tab[Key(2, start / PUD_SIZE)] + 8 * (addr / PMD_SIZE % 512)
      invariant Covers(mem, root, out, start, addr)
      decreases end - addr
    {
      var next := PmdAddrEnd(addr, end);
      NextPmd(start, end, addr, next);
      Coarse(next);
      var part := WalkPmdEntry(mem, tab, root, pmdp, addr, next);
      CoversAppend(mem, root, out, part, start, addr, next);
      out := out + part;
      pmdp := pmdp + 8;
      addr := next;
      if addr == end { break; }
    }
  }

  lemma OneGiga(start: nat, next: nat, end: nat)
    requires start < next <= end && (end - 1) / PUD_SIZE == start / PUD_SIZE && (next == end || next % PUD_SIZE == 0)
    ensures next == end
  {
  }

  /** The loop body of walk_pud. */
  method WalkPudEntry(mem: Mem, ghost tab: Tables, ghost root: nat, pudp: nat, addr: nat, next: nat)
    returns (part: seq<Report>)
    requires Tree(mem, tab, root) && addr < next <= VA_LIMIT && addr % PAGE_SIZE == 0 && next % PAGE_SIZE == 0
    requires (next - 1) / PUD_SIZE == addr / PUD_SIZE
    requires Key(1, addr / PUD_SIZE / 512) in tab && pudp == Slot(tab, 1, addr / PUD_SIZE)
    ensures Covers(mem, root, part, addr, next)
  {
    var pud := Load(mem, pudp);
    EntryIsTable(mem, tab, root, 1, addr / PUD_SIZE);
    if pud == 0 || pud % 4 == 1 {
      part := [Report(addr, next, 2, pud)];
      GigaFaithful(mem, tab, root, addr, next);
      CoversOne(mem, root, part[0]);
    } else {
      assert SlotOk(mem, tab, 1, addr / PUD_SIZE);
      part := WalkPmd(mem, tab, root, pudp, addr, next);
    }
  }

  method WalkPud(mem: Mem, ghost tab: Tables, ghost root: nat, pgdp: nat, start: nat, end: nat)
    returns (out: seq<Report>)
    requires Tree(mem, tab, root) && start < end <= VA_LIMIT && start % PAGE_SIZE == 0 && end % PAGE_SIZE == 0
    requires (end - 1) / PUD_SIZE == start / PUD_SIZE && Key(1, start / PGDIR_SIZE) in tab
    requires PageAddr(Load(mem, pgdp)) == tab[Key(1, start / PGDIR_SIZE)]
    ensures Covers(mem, root, out, start, end)
  {
    var addr := start;
    var pudp := PageAddr(Load(mem, pgdp)) + 8 * PudIndex(start);
    ghost var pudp0 := pudp;
    Nest(start);
    out := [];
    var again := true;
    while again
      invariant again ==> addr == start && out == [] && pudp == pudp0
      invariant !again ==> Covers(mem, root, out, start, end)
      decreases again
    {
      var next := PudAddrEnd(start, end);
      OneGiga(start, next, end);
      var part := WalkPudEntry(mem, tab, root, pudp, addr, next);
      assert out + part == part;
      out := out + part;
      pudp := pudp + 8;
      addr := next;
      again := addr != end;
    }
  }

  /** Where a 512 GB entry has a table, the dumped part of it lies inside one 1 GB entry. */
  ghost predicate Dumpable(tab: Tables, start: nat, end: nat) {
    forall lo: nat, hi: nat ::
      start <= lo < hi <= end && (hi - 1) / PGDIR_SIZE == lo / PGDIR_SIZE && Key(1, lo / PGDIR_SIZE) in tab ==>
        InOneGiga(lo, hi)
  }

  predicate InOneGiga(lo: nat, hi: nat) {
    hi > 0 && (hi - 1) / PUD_SIZE == lo / PUD_SIZE
  }

  /**
   walk_pgd: terminates, reports intervals that tile the range in order, and
   each carries the descriptor at which the hardware walk of all its
   addresses stops.
   */
  method WalkPgd(mem: Mem, ghost tab: Tables, pgd: nat, start: nat, size: nat) returns (out: seq<Report>)
    requires Tree(mem, tab, pgd) && size > 0 && start + size <= VA_LIMIT && start % PAGE_SIZE == 0
    requires (start + size) % PAGE_SIZE == 0
    requires Dumpable(tab, start, start + size)
    ensures Covers(mem, pgd, out, start, start + size)
  {
    var end := start + size;
    var addr := start;
    var pgdp := pgd + 8 * PgdIndex(start);
    out := [];
    while true
      invariant start <= addr < end && addr % PAGE_SIZE == 0
      invariant pgdp == pgd + 8 * (addr / PGDIR_SIZE % 512)
      invariant Covers(mem, pgd, out, start, addr)
      decreases end - addr
    {
      var entry := Load(mem, pgdp);
      var next := PgdAddrEnd(addr, end);
      NextPgd(end, addr, next);
      Coarse(next);
      EntryIsTable(mem, tab, pgd, 0, addr / PGDIR_SIZE);
      assert SlotOk(mem, tab, 0, addr / PGDIR_SIZE);
      var part;
      if entry == 0 {
        part := [Report(addr, next, 1, entry)];
        TopFaithful(mem, tab, pgd, addr, next);
        CoversOne(mem, pgd, part[0]);
      } else {
        assert InOneGiga(addr, next);
        part := WalkPud(mem, tab, pgd, pgdp, addr, next);
      }
      CoversAppend(mem, pgd, out, part, start, addr, next);
      out := out + part;
      pgdp := pgdp + 8;
      addr := next;
      if addr == end { break; }
    }
  }

  /** A range inside one 1 GB entry is dumpable. */
  lemma OneGigabyteDumpable(tab: Tables, start: nat, end: nat)
    requires start < end && (end - 1) / PUD_SIZE == start / PUD_SIZE
    ensures Dumpable(tab, start, end)
  {
  }

  /** dump_pgtable: the dump of installed memory ends, and tells where every walk of it stops. */
  method DumpPgtable(mem: Mem, ghost tab: Tables, pgd: nat) returns (out: seq<Report>)
    requires Tree(mem, tab, pgd)
    ensures Covers(mem, pgd, out, 0, TOTAL_MEMORY)
  {
    OneGigabyteDumpable(tab, 0, TOTAL_MEMORY);
    out := WalkPgd(mem, tab, pgd, 0, TOTAL_MEMORY);
  }

  // ---------- which dumps end ----------

  /**
   Where a dump is: at an entry of the root table, in a round of walk_pud over
   [lo, hi), or done. The reports of a round are left out, and a round is
   taken to end; so a dump that does not end here does not end at all.
   */
  datatype Position = AtPgd(addr: nat) | InPud(lo: nat, hi: nat, addr: nat) | Done

  ghost predicate Within(at: Position, end: nat) {
    match at
    case AtPgd(addr) => addr < end
    case InPud(lo, hi, _) => lo < hi <= end
    case Done => true
  }

  /** `addr = next, addr != end` of walk_pgd. */
  function NextPosition(next: nat, end: nat): Position {
    if next == end then Done else AtPgd(next)
  }

  /** One round of the innermost loop: walk_pud takes its step from the start of its range, not from addr. */
  function Round(mem: Mem, pgd: nat, end: nat, at: Position): (at': Position)
    requires end <= VA_LIMIT && Within(at, end)
    ensures Within(at', end)
  {
    match at
    case AtPgd(addr) =>
      var next := PgdAddrEnd(addr, end);
      if Load(mem, pgd + 8 * PgdIndex(addr)) == 0 then NextPosition(next, end) else InPud(addr, next, addr)
    case InPud(lo, hi, addr) =>
      var next := PudAddrEnd(lo, hi);
      if next == hi then NextPosition(hi, end) else InPud(lo, hi, next)
    case Done => Done
  }

  function After(mem: Mem, pgd: nat, end: nat, at: Position, rounds: nat): (at': Position)
    requires end <= VA_LIMIT && Within(at, end)
    ensures Within(at', end)
    decreases rounds
  {
    if rounds == 0 then at else After(mem, pgd, end, Round(mem, pgd, end, at), rounds - 1)
  }

  ghost predicate Ends(mem: Mem, pgd: nat, start: nat, end: nat)
    requires start < end <= VA_LIMIT
  {
    exists rounds: nat :: After(mem, pgd, end, AtPgd(start), rounds) == Done
  }

  /** Once walk_pud has made a step that is not the last, it makes the same step for ever. */
  lemma {:induction false} StuckInPud(mem: Mem, pgd: nat, end: nat, lo: nat, hi: nat, addr: nat, rounds: nat)
    requires lo < hi <= end <= VA_LIMIT && PudAddrEnd(lo, hi) != hi
    ensures After(mem, pgd, end, InPud(lo, hi, addr), rounds).InPud?
    decreases rounds
  {
    if rounds > 0 { StuckInPud(mem, pgd, end, lo, hi, PudAddrEnd(lo, hi), rounds - 1); }
  }

  /** What is left of a range behind its first 512 GB part. */
  lemma DumpableRest(tab: Tables, addr: nat, next: nat, end: nat)
    requires addr < next <= end && (next - 1) / PGDIR_SIZE == addr / PGDIR_SIZE
    requires next == end || next % PGDIR_SIZE == 0
    requires next == end || Dumpable(tab, next, end)
    requires Key(1, addr / PGDIR_SIZE) in tab ==> InOneGiga(addr, next)
    ensures Dumpable(tab, addr, end)
  {
    forall lo: nat, hi: nat |
      addr <= lo < hi <= end && (hi - 1) / PGDIR_SIZE == lo / PGDIR_SIZE && Key(1, lo / PGDIR_SIZE) in tab
      ensures InOneGiga(lo, hi)
    {
      if lo < next { FrontPart(addr, next, lo, hi, end); }
    }
  }

  lemma FrontPart(addr: nat, next: nat, lo: nat, hi: nat, end: nat)
    requires addr <= lo < next && lo < hi <= end && (hi - 1) / PGDIR_SIZE == lo / PGDIR_SIZE
    requires (next - 1) / PGDIR_SIZE == addr / PGDIR_SIZE && (next == end || next % PGDIR_SIZE == 0)
    ensures lo / PGDIR_SIZE == addr / PGDIR_SIZE && hi <= next
    ensures InOneGiga(addr, next) ==> InOneGiga(lo, hi)
  {
    SameTop(lo, addr, next);
    if next < hi { SameTop(next, lo, hi); assert false; }
    if InOneGiga(addr, next) {
      SameGiga(lo, addr, next);
      SameGiga(hi - 1, addr, next);
    }
  }

  /** A dump that ends has dealt with its first 512 GB part after one or two rounds. */
  lemma EndsAfterFirst(mem: Mem, tab: Tables, pgd: nat, addr: nat, next: nat, end: nat, rounds: nat) returns (left: nat)
    requires Tree(mem, tab, pgd) && addr < end <= VA_LIMIT && next == PgdAddrEnd(addr, end)
    requires After(mem, pgd, end, AtPgd(addr), rounds) == Done
    ensures left < rounds && After(mem, pgd, end, NextPosition(next, end), left) == Done
    ensures Key(1, addr / PGDIR_SIZE) in tab ==> PudAddrEnd(addr, next) == next
  {
    RootEntry(mem, tab, pgd, addr);
    if Key(1, addr / PGDIR_SIZE) !in tab {
      left := rounds - 1;
      OneRound(mem, pgd, end, addr, next, left);
    } else {
      InTwoRounds(mem, pgd, end, addr, next, rounds);
      left := rounds - 2;
      TwoRounds(mem, pgd, end, addr, next, left);
    }
  }

  lemma {:induction false} EndsOnlyIfDumpable(mem: Mem, tab: Tables, pgd: nat, addr: nat, end: nat, rounds: nat)
    requires Tree(mem, tab, pgd) && addr < end <= VA_LIMIT
    requires After(mem, pgd, end, AtPgd(addr), rounds) == Done
    ensures Dumpable(tab, addr, end)
    decreases rounds
  {
    var next := PgdAddrEnd(addr, end);
    var left := EndsAfterFirst(mem, tab, pgd, addr, next, end, rounds);
    if next < end { EndsOnlyIfDumpable(mem, tab, pgd, next, end, left); }
    DumpableRest(tab, addr, next, end);
  }

  /** A described part that ends takes one round of walk_pud. */
  lemma InTwoRounds(mem: Mem, pgd: nat, end: nat, addr: nat, next: nat, rounds: nat)
    requires addr < end <= VA_LIMIT && next == PgdAddrEnd(addr, end)
    requires Load(mem, pgd + 8 * PgdIndex(addr)) != 0 && After(mem, pgd, end, AtPgd(addr), rounds) == Done
    ensures rounds >= 2 && PudAddrEnd(addr, next) == next
  {
    var first := InPud(addr, next, addr);
    assert Round(mem, pgd, end, AtPgd(addr)) == first;
    if PudAddrEnd(addr, next) != next { StuckInPud(mem, pgd, end, addr, next, addr, rounds - 1); }
  }

  lemma OneRound(mem: Mem, pgd: nat, end: nat, addr: nat, next: nat, rounds: nat)
    requires addr < end <= VA_LIMIT && next == PgdAddrEnd(addr, end) && Load(mem, pgd + 8 * PgdIndex(addr)) == 0
    ensures After(mem, pgd, end, AtPgd(addr), rounds + 1) == After(mem, pgd, end, NextPosition(next, end), rounds)
  {
    assert Round(mem, pgd, end, AtPgd(addr)) == NextPosition(next, end);
  }

  /** An entry of the root is empty exactly when there is no table below it. */
  lemma RootEntry(mem: Mem, tab: Tables, pgd: nat, addr: nat)
    requires Tree(mem, tab, pgd) && addr < VA_LIMIT
    ensures Load(mem, pgd + 8 * PgdIndex(addr)) == 0 <==> Key(1, addr / PGDIR_SIZE) !in tab
  {
    Nest(addr);
    EntryIsTable(mem, tab, pgd, 0, addr / PGDIR_SIZE);
    assert SlotOk(mem, tab, 0, addr / PGDIR_SIZE);
  }

  lemma {:induction false} DumpableEnds(mem: Mem, tab: Tables, pgd: nat, addr: nat, end: nat) returns (rounds: nat)
    requires Tree(mem, tab, pgd) && addr < end <= VA_LIMIT && Dumpable(tab, addr, end)
    ensures After(mem, pgd, end, AtPgd(addr), rounds) == Done
    decreases end - addr
  {
    var next := PgdAddrEnd(addr, end);
    RootEntry(mem, tab, pgd, addr);
    rounds := 0;
    if next < end { rounds := DumpableEnds(mem, tab, pgd, next, end); }
    if Key(1, addr / PGDIR_SIZE) !in tab {
      OneRound(mem, pgd, end, addr, next, rounds);
      rounds := rounds + 1;
    } else {
      assert InOneGiga(addr, next);
      OneGiga(addr, PudAddrEnd(addr, next), next);
      TwoRounds(mem, pgd, end, addr, next, rounds);
      rounds := rounds + 2;
    }
  }

  lemma TwoRounds(mem: Mem, pgd: nat, end: nat, addr: nat, next: nat, rounds: nat)
    requires addr < end <= VA_LIMIT && next == PgdAddrEnd(addr, end) && PudAddrEnd(addr, next) == next
    requires Load(mem, pgd + 8 * PgdIndex(addr)) != 0
    ensures After(mem, pgd, end, AtPgd(addr), rounds + 2) == After(mem, pgd, end, NextPosition(next, end), rounds)
  {
    assert Round(mem, pgd, end, AtPgd(addr)) == InPud(addr, next, addr);
    assert Round(mem, pgd, end, InPud(addr, next, addr)) == NextPosition(next, end);
  }

  /** walk_pgd ends if and only if every described part of the range lies inside one 1 GB entry. */
  lemma DumpEndsIff(mem: Mem, tab: Tables, pgd: nat, start: nat, end: nat)
    requires Tree(mem, tab, pgd) && start < end <= VA_LIMIT
    ensures Ends(mem, pgd, start, end) <==> Dumpable(tab, start, end)
  {
    if Dumpable(tab, start, end) {
      var rounds := DumpableEnds(mem, tab, pgd, start, end);
    }
    if Ends(mem, pgd, start, end) {
      var rounds: nat :| After(mem, pgd, end, AtPgd(start), rounds) == Done;
      EndsOnlyIfDumpable(mem, tab, pgd, start, end, rounds);
    }
  }

  /** So the dump of the first 2 GB never ends once anything is mapped below 512 GB. */
  lemma DumpOfTwoGigabytesDiverges(mem: Mem, tab: Tables, pgd: nat)
    requires Tree(mem, tab, pgd) && Key(1, 0) in tab
    ensures !Ends(mem, pgd, 0, 2 * PUD_SIZE)
  {
    DumpEndsIff(mem, tab, pgd, 0, 2 * PUD_SIZE);
    assert !InOneGiga(0, 2 * PUD_SIZE);
  }

  function Kilo(units: nat): nat {
    if units == 0 then 1 else 1024 * Kilo(units - 1)
  }

  lemma KiloStep(delta: nat, unit: nat)
    requires delta % 1024 == 0
    ensures delta * Kilo(unit) == delta / 1024 * Kilo(unit + 1)
  {
    var q, k := delta / 1024, Kilo(unit);
    assert (1024 * q) * k == q * (1024 * k);
  }

  /** Whole units can be divided out only below the last unit. */
  lemma UnitLeft(delta: nat, unit: nat, kilobytes: nat)
    requires 0 < delta && delta % 1024 == 0 && unit <= 3
    requires delta * Kilo(unit) == kilobytes <= VA_LIMIT / 1024
    ensures unit < 3
  {
    assert Kilo(1) == 1024 && Kilo(2) == 0x10_0000 && Kilo(3) == 0x4000_0000;
    assert unit == 3 ==> delta * 0x4000_0000 == kilobytes;
  }

  /**
   The unit loop of print_pgtable: it divides out whole units, ends on every
   reported interval with a unit inside "KMGT", and the size it prints is exact.
   */
  method SizeUnit(bytes: nat) returns (delta: nat, unit: nat)
    requires bytes % PAGE_SIZE == 0 && 0 < bytes <= VA_LIMIT
    ensures delta * Kilo(unit) * 1024 == bytes && delta % 1024 != 0 && unit <= 3
  {
    ghost var kilobytes := Kilobytes(bytes);
    delta, unit := bytes / 1024, 0;
    while delta % 1024 == 0
      invariant 0 < delta && unit <= 3 && delta * Kilo(unit) == kilobytes
      decreases delta
    {
      UnitLeft(delta, unit, kilobytes);
      KiloStep(delta, unit);
      delta := delta / 1024;
      unit := unit + 1;
    }
  }

  lemma Kilobytes(bytes: nat) returns (kilobytes: nat)
    requires bytes % PAGE_SIZE == 0 && 0 < bytes <= VA_LIMIT
    ensures kilobytes == bytes / 1024 && kilobytes * 1024 == bytes && 0 < kilobytes <= VA_LIMIT / 1024
  {
    kilobytes := 4 * (bytes / PAGE_SIZE);
  }
}
