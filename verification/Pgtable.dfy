/**
 The address arithmetic of arch/arm64/include/asm/pgtable.h: index, chunking
 and descriptor macros, written with the same masks as the source. Each
 contract gives the arithmetic meaning that the builder and the walkers rely on.
 */
module Pgtable {
  import opened Bits

  const PAGE_SIZE: nat := 0x1000
  const PMD_SIZE: nat := 0x20_0000
  const PUD_SIZE: nat := 0x4000_0000
  const PGDIR_SIZE: nat := 0x80_0000_0000
  /** One past the largest 48-bit address, virtual or physical. */
  const VA_LIMIT: nat := 0x1_0000_0000_0000

  const NO_BLOCK_MAPPINGS: nat := 1
  const TYPE_TABLE: nat := 3
  const TYPE_SECT: nat := 1

  /** `x & PAGE_MASK` on an unsigned long. */
  function PageDown(x: nat): (r: nat)
    requires x < WORD
    ensures r <= x < r + PAGE_SIZE && r % PAGE_SIZE == 0
  {
    RoundDown12(x);
    And(x, WORD - PAGE_SIZE)
  }

  /** PAGE_BALIGN: up to the next page boundary. */
  function PageUp(x: nat): (r: nat)
    requires x < WORD - PAGE_SIZE
    ensures x <= r < x + PAGE_SIZE && r % PAGE_SIZE == 0
  {
    PageDown(x + PAGE_SIZE - 1)
  }

  function Index(x: nat): (r: nat)
    ensures r == x % 512
  {
    AndLow9(x);
    And(x, 511)
  }

  function PgdIndex(addr: nat): (r: nat) ensures r == addr / PGDIR_SIZE % 512 { Index(addr / PGDIR_SIZE) }
  function PudIndex(addr: nat): (r: nat) ensures r == addr / PUD_SIZE % 512 { Index(addr / PUD_SIZE) }
  function PmdIndex(addr: nat): (r: nat) ensures r == addr / PMD_SIZE % 512 { Index(addr / PMD_SIZE) }
  function PteIndex(addr: nat): (r: nat) ensures r == addr / PAGE_SIZE % 512 { Index(addr / PAGE_SIZE) }

  /** Unsigned decrement, which wraps at zero. */
  function Dec(x: nat): nat {
    if x == 0 then WORD - 1 else x - 1
  }

  /** `(__boundary - 1 < (end) - 1) ? __boundary : (end)`, with unsigned wrap-around. */
  function ClipEnd(boundary: nat, end: nat): nat
    requires boundary < WORD && end < WORD
  {
    if Dec(boundary) < Dec(end) then boundary else end
  }

  /** pgd_addr_end: the end of the part of [addr, end) inside the 512 GB entry of addr. */
  function PgdAddrEnd(addr: nat, end: nat): (next: nat)
    requires addr <= end <= VA_LIMIT && 0 < end
    ensures addr == end ==> next == end
    ensures addr < end ==> addr < next <= end && (next - 1) / PGDIR_SIZE == addr / PGDIR_SIZE
    ensures next == end || next % PGDIR_SIZE == 0
  {
    RoundDown39(addr + PGDIR_SIZE);
    PgdBoundary(addr, end, And(addr + PGDIR_SIZE, WORD - PGDIR_SIZE));
    ClipEnd(And(addr + PGDIR_SIZE, WORD - PGDIR_SIZE), end)
  }

  lemma PgdBoundary(addr: nat, end: nat, b: nat)
    requires addr <= end <= VA_LIMIT && 0 < end && b == (addr + PGDIR_SIZE) / PGDIR_SIZE * PGDIR_SIZE
    ensures addr < b < WORD && b % PGDIR_SIZE == 0 && (b - 1) / PGDIR_SIZE == addr / PGDIR_SIZE
    ensures addr < end <= b ==> (end - 1) / PGDIR_SIZE == addr / PGDIR_SIZE
  {
    var q := addr / PGDIR_SIZE;
    assert b == PGDIR_SIZE * (q + 1) && PGDIR_SIZE * q <= addr;
  }

  /** pud_addr_end: likewise for 1 GB entries. */
  function PudAddrEnd(addr: nat, end: nat): (next: nat)
    requires addr <= end <= VA_LIMIT && 0 < end
    ensures addr == end ==> next == end
    ensures addr < end ==> addr < next <= end && (next - 1) / PUD_SIZE == addr / PUD_SIZE
    ensures next == end || next % PUD_SIZE == 0
  {
    RoundDown30(addr + PUD_SIZE);
    PudBoundary(addr, end, And(addr + PUD_SIZE, WORD - PUD_SIZE));
    ClipEnd(And(addr + PUD_SIZE, WORD - PUD_SIZE), end)
  }

  lemma PudBoundary(addr: nat, end: nat, b: nat)
    requires addr <= end <= VA_LIMIT && 0 < end && b == (addr + PUD_SIZE) / PUD_SIZE * PUD_SIZE
    ensures addr < b < WORD && b % PUD_SIZE == 0 && (b - 1) / PUD_SIZE == addr / PUD_SIZE
    ensures addr < end <= b ==> (end - 1) / PUD_SIZE == addr / PUD_SIZE
  {
    var q := addr / PUD_SIZE;
    assert b == PUD_SIZE * (q + 1) && PUD_SIZE * q <= addr;
  }

  /** pmd_addr_end: likewise for 2 MB entries. */
  function PmdAddrEnd(addr: nat, end: nat): (next: nat)
    requires addr <= end <= VA_LIMIT && 0 < end
    ensures addr == end ==> next == end
    ensures addr < end ==> addr < next <= end && (next - 1) / PMD_SIZE == addr / PMD_SIZE
    ensures next == end || next % PMD_SIZE == 0
  {
    RoundDown21(addr + PMD_SIZE);
    PmdBoundary(addr, end, And(addr + PMD_SIZE, WORD - PMD_SIZE));
    ClipEnd(And(addr + PMD_SIZE, WORD - PMD_SIZE), end)
  }

  lemma PmdBoundary(addr: nat, end: nat, b: nat)
    requires addr <= end <= VA_LIMIT && 0 < end && b == (addr + PMD_SIZE) / PMD_SIZE * PMD_SIZE
    ensures addr < b < WORD && b % PMD_SIZE == 0 && (b - 1) / PMD_SIZE == addr / PMD_SIZE
    ensures addr < end <= b ==> (end - 1) / PMD_SIZE == addr / PMD_SIZE
  {
    var q := addr / PMD_SIZE;
    assert b == PMD_SIZE * (q + 1) && PMD_SIZE * q <= addr;
  }

  lemma AddrBits(d: nat)
    ensures And(d, VA_LIMIT - PAGE_SIZE) == d % VA_LIMIT - d % PAGE_SIZE
    ensures (d % VA_LIMIT - d % PAGE_SIZE) % PAGE_SIZE == 0 && 0 <= d % VA_LIMIT - d % PAGE_SIZE < VA_LIMIT
  {
    var hi, mid, lo := d / VA_LIMIT, d % VA_LIMIT / PAGE_SIZE, d % VA_LIMIT % PAGE_SIZE;
    assert d == hi * VA_LIMIT + mid * PAGE_SIZE + lo;
    AddrField(hi, mid, lo);
    SumFields(hi, mid, lo);
  }

  /** `d & PTE_ADDR_MASK`: bits 47..12 of a descriptor. */
  function PageAddr(d: nat): (r: nat)
    ensures r == d % VA_LIMIT - d % PAGE_SIZE
    ensures r % PAGE_SIZE == 0 && r < VA_LIMIT
  {
    AddrBits(d);
    And(d, VA_LIMIT - PAGE_SIZE)
  }

  /** A protection word the builder accepts: a valid page type and no address bits. */
  predicate ValidProt(prot: nat) {
    prot < WORD && prot % 4 == 3 && prot % VA_LIMIT < PAGE_SIZE
  }

  lemma TypeBits(d: nat)
    ensures d % 4 <= d % PAGE_SIZE <= d % VA_LIMIT <= d
  {
    Mod4(d / PAGE_SIZE * 1024, d % PAGE_SIZE);
    ModPage(d / VA_LIMIT * 0x10_0000_0000, d % VA_LIMIT);
  }

  lemma Mod4(k: nat, r: nat)
    ensures (4 * k + r) % 4 == r % 4
  {
  }

  lemma ModPage(k: nat, r: nat)
    ensures (PAGE_SIZE * k + r) % PAGE_SIZE == r % PAGE_SIZE
  {
  }

  lemma ModLimit(k: nat, r: nat)
    ensures (VA_LIMIT * k + r) % VA_LIMIT == r % VA_LIMIT
  {
  }

  /** The upper and lower attribute fields of a leaf descriptor, without the type bits. */
  function Attrs(d: nat): nat {
    TypeBits(d);
    d - PageAddr(d) - d % 4
  }

  /** The fields of a descriptor made of an address and attribute bits. */
  lemma DescFields(phys: nat, bits: nat)
    requires phys % PAGE_SIZE == 0 && phys < VA_LIMIT && bits % VA_LIMIT < PAGE_SIZE
    ensures Or(phys, bits) == phys + bits
    ensures PageAddr(phys + bits) == phys && (phys + bits) % 4 == bits % 4
    ensures Attrs(phys + bits) == Attrs(bits) == bits - bits % 4
  {
    OrIsSum(phys, bits);
    DescParts(phys, bits, phys + bits);
    DescParts(0, bits, bits);
    assert PageAddr(phys + bits) == phys && PageAddr(bits) == 0;
  }

  lemma OrIsSum(phys: nat, bits: nat)
    requires phys % PAGE_SIZE == 0 && phys < VA_LIMIT && bits % VA_LIMIT < PAGE_SIZE
    ensures Or(phys, bits) == phys + bits
  {
    var hi, mid, lo := bits / VA_LIMIT, phys / PAGE_SIZE, bits % VA_LIMIT;
    assert phys == mid * PAGE_SIZE && bits == hi * VA_LIMIT + lo;
    OrFields(hi, mid, lo);
  }

  lemma DescParts(phys: nat, bits: nat, d: nat)
    requires phys % PAGE_SIZE == 0 && phys < VA_LIMIT && bits % VA_LIMIT < PAGE_SIZE && d == phys + bits
    ensures d % VA_LIMIT - d % PAGE_SIZE == phys && d % 4 == bits % 4
  {
    var hi, mid, lo := bits / VA_LIMIT, phys / PAGE_SIZE, bits % VA_LIMIT;
    SumFields(hi, mid, lo);
    SumFields(hi, 0, lo);
  }

  lemma SumFields(hi: nat, mid: nat, lo: nat)
    requires mid < 0x10_0000_0000 && lo < PAGE_SIZE
    ensures (hi * VA_LIMIT + mid * PAGE_SIZE + lo) % VA_LIMIT == mid * PAGE_SIZE + lo
    ensures (hi * VA_LIMIT + mid * PAGE_SIZE + lo) % PAGE_SIZE == lo
    ensures (hi * VA_LIMIT + mid * PAGE_SIZE + lo) % 4 == lo % 4
  {
    ModLimit(hi, mid * PAGE_SIZE + lo);
    ModPage(hi * 0x10_0000_0000 + mid, lo);
    Mod4(hi * 0x4000_0000_0000 + mid * 1024, lo);
  }

  /** `__pmd(phys | PMD_TYPE_TABLE)`, and likewise for the pud and pgd levels. */
  function TableDesc(phys: nat): (d: nat)
    requires phys % PAGE_SIZE == 0 && phys < VA_LIMIT
    ensures d % 4 == 3 && PageAddr(d) == phys && d == phys + 3
  {
    DescFields(phys, TYPE_TABLE);
    Or(phys, TYPE_TABLE)
  }

  /** Shifting an aligned address down to its frame number and up again gives it back. */
  lemma ShiftedBack12(phys: nat)
    requires phys % PAGE_SIZE == 0
    ensures Shl(phys / PAGE_SIZE, 12) == phys
  {
    Shl9(phys / PAGE_SIZE);
  }

  lemma ShiftedBack21(phys: nat)
    requires phys % PMD_SIZE == 0
    ensures Shl(phys / PMD_SIZE, 21) == phys
  {
    Shl21(phys / PMD_SIZE);
  }

  /** pfn_pte(phys >> PAGE_SHIFT, prot). */
  function PageDesc(phys: nat, prot: nat): (d: nat)
    requires phys % PAGE_SIZE == 0 && phys < VA_LIMIT && ValidProt(prot)
    ensures d % 4 == 3 && PageAddr(d) == phys && Attrs(d) == Attrs(prot)
  {
    ShiftedBack12(phys);
    DescFields(phys, prot);
    Or(Shl(phys / PAGE_SIZE, 12), prot)
  }

  /** mk_sect_prot. */
  function MkSectProt(prot: nat): (r: nat)
    requires prot < WORD && prot % 4 == 3
    ensures r == prot - 2
  {
    ClearBit1(prot);
    And(prot, WORD - 3)
  }

  lemma SectProtFields(prot: nat)
    requires ValidProt(prot)
    ensures (prot - 2) % VA_LIMIT < PAGE_SIZE && (prot - 2) % 4 == 1
  {
    SumFields(prot / VA_LIMIT, 0, prot % VA_LIMIT);
    SumFields(prot / VA_LIMIT, 0, prot % VA_LIMIT - 2);
  }

  lemma OrOne(x: nat)
    requires x % 2 == 1
    ensures Or(TYPE_SECT, x) == x
  {
    OrStep(1, x);
    OrZero(x / 2);
  }

  /** PMD_TYPE_SECT | mk_sect_prot(prot). */
  function SectBits(prot: nat): (r: nat)
    requires ValidProt(prot)
    ensures r == prot - 2 && r % VA_LIMIT < PAGE_SIZE && r % 4 == 1
  {
    SectProtFields(prot);
    OrOne(prot - 2);
    Or(TYPE_SECT, MkSectProt(prot))
  }

  lemma SectionIsPage(phys: nat)
    requires phys % PMD_SIZE == 0
    ensures phys % PAGE_SIZE == 0
  {
    ModPage(512 * (phys / PMD_SIZE), 0);
  }

  lemma SectDescFields(phys: nat, prot: nat)
    requires phys % PMD_SIZE == 0 && phys < VA_LIMIT && ValidProt(prot)
    ensures var d := Or(phys, prot - 2); d % 4 == 1 && PageAddr(d) == phys && Attrs(d) == Attrs(prot)
  {
    SectProtFields(prot);
    SectionIsPage(phys);
    DescFields(phys, prot - 2);
    DescFields(0, prot);
    assert prot - 2 - 1 == prot - 3;
  }

  /** The descriptor written by pmd_set_section. */
  function SectDesc(phys: nat, prot: nat): (d: nat)
    requires phys % PMD_SIZE == 0 && phys < VA_LIMIT && ValidProt(prot)
    ensures d % 4 == 1 && PageAddr(d) == phys && Attrs(d) == Attrs(prot)
  {
    ShiftedBack21(phys);
    SectDescFields(phys, prot);
    Or(Shl(phys / PMD_SIZE, 21), SectBits(prot))
  }

  /** `((addr | next | phys) & ~SECTION_MASK) == 0`. */
  predicate SectionAligned(addr: nat, next: nat, phys: nat)
    ensures SectionAligned(addr, next, phys)
       <==> addr % PMD_SIZE == 0 && next % PMD_SIZE == 0 && phys % PMD_SIZE == 0
  {
    OrAligned21(addr, next);
    OrAligned21(Or(addr, next), phys);
    AndLow21(Or(Or(addr, next), phys));
    And(Or(Or(addr, next), phys), PMD_SIZE - 1) == 0
  }

  predicate BlocksAllowed(flags: nat)
    ensures BlocksAllowed(flags) <==> flags % 2 == 0
  {
    AndStep(flags, NO_BLOCK_MAPPINGS);
    And(flags, NO_BLOCK_MAPPINGS) == 0
  }
}
