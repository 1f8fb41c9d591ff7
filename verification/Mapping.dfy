/**
 What one mapping call promises, as a relation between two views of the page
 tables: the flat "virtual to physical, attributes" map it installs, what it
 leaves alone, and how many pages it takes.
 */
module Mapping {
  import opened Pgtable
  import opened PageTable
  import opened PageAlloc

  /**
   Memory, the table tree, the pages ever taken for tables, the bitmap of
   pages in use by anyone, and the number of free pages left.
   */
  datatype View = View(mem: Mem, tab: Tables, pages: set<nat>, bitmap: seq<nat>, free: nat)

  /** Every address of [lo, hi) translates linearly to phys with the attributes of prot. */
  ghost predicate MappedTo(mem: Mem, root: nat, lo: nat, hi: nat, phys: nat, prot: nat) {
    forall va :: lo <= va < hi ==> Walk(mem, root, va) == Mapped(phys + (va - lo), Attrs(prot))
  }

  ghost predicate SameOutside(mem: Mem, mem': Mem, root: nat, lo: nat, hi: nat) {
    forall va :: 0 <= va < VA_LIMIT && !(lo <= va < hi) ==> Walk(mem', root, va) == Walk(mem, root, va)
  }

  /** Chunk s is covered whole by [lo, hi) and phys is aligned with it, so it becomes a section. */
  predicate SectionChunk(s: nat, lo: nat, hi: nat, phys: nat, flags: nat) {
    flags % 2 == 0 && (phys - lo) % PMD_SIZE == 0 && lo <= s * PMD_SIZE && (s + 1) * PMD_SIZE <= hi
  }

  /** The number of size-aligned chunks that [lo, hi) meets. */
  function Span(size: nat, lo: nat, hi: nat): int
    requires size > 0 && hi > 0
  {
    (hi - 1) / size - lo / size + 1
  }

  /** A table that mapping [lo, hi) needs. */
  predicate Touched(k: Key, lo: nat, hi: nat, phys: nat, flags: nat) {
    && lo < hi
    && match k.level {
         case 1 => lo / PGDIR_SIZE <= k.n <= (hi - 1) / PGDIR_SIZE
         case 2 => lo / PUD_SIZE <= k.n <= (hi - 1) / PUD_SIZE
         case 3 => lo / PMD_SIZE <= k.n <= (hi - 1) / PMD_SIZE && !SectionChunk(k.n, lo, hi, phys, flags)
         case _ => false
       }
  }

  /** An entry that is not a block: empty, or leading to a table. */
  ghost predicate EntryFree(mem: Mem, tab: Tables, level: nat, s: nat) {
    level < 3 && Key(level, s / 512) in tab && Key(level + 1, s) !in tab ==> Entry(mem, tab, level, s) == 0
  }

  /** Blocks appear only at level 2 and inside [lo, hi). */
  ghost predicate NoNewBlocks(v: View, v': View, lo: nat, hi: nat) {
    forall level: nat, s: nat ::
      EntryFree(v.mem, v.tab, level, s) && !(level == 2 && lo <= s * PMD_SIZE && (s + 1) * PMD_SIZE <= hi) ==>
        EntryFree(v'.mem, v'.tab, level, s)
  }

  /** A section takes the place of a level 3 table at k. */
  predicate Replaces(k: Key, lo: nat, hi: nat, phys: nat, flags: nat) {
    k.level == 3 && SectionChunk(k.n, lo, hi, phys, flags)
  }

  /**
   Tables stay where they are except those that a section replaces, which are
   gone; the new ones are those [lo, hi) needs.
   */
  ghost predicate Grown(tab: Tables, tab': Tables, lo: nat, hi: nat, phys: nat, flags: nat) {
    && (forall k :: k in tab ==> (k in tab' && tab'[k] == tab[k]) || Replaces(k, lo, hi, phys, flags))
    && (forall k :: k in tab' ==> !Replaces(k, lo, hi, phys, flags))
    && (forall k :: k in tab' && k !in tab ==> Touched(k, lo, hi, phys, flags))
    && (forall k :: Touched(k, lo, hi, phys, flags) ==> k in tab')
  }

  /** Only words inside table pages change. */
  ghost predicate MemFrame(mem: Mem, mem': Mem, pages: set<nat>) {
    forall a: int :: a - a % PAGE_SIZE !in pages ==> Load(mem', a) == Load(mem, a)
  }

  /** No table is replaced by a section. */
  ghost predicate KeepsTables(tab: Tables, lo: nat, hi: nat, phys: nat, flags: nat) {
    forall s :: SectionChunk(s, lo, hi, phys, flags) ==> Key(3, s) !in tab
  }

  /** The tables that sections replace. */
  ghost function Replaced(tab: Tables, lo: nat, hi: nat, phys: nat, flags: nat): set<Key> {
    set k | k in tab && Replaces(k, lo, hi, phys, flags)
  }

  /** A page comes into use exactly when it is taken for a table; then it was free before. */
  ghost predicate Handed(v: View, v': View, p: nat) {
    if p in v'.pages && p !in v.pages then !Marked(v.bitmap, p) && Marked(v'.bitmap, p)
    else Marked(v'.bitmap, p) <==> Marked(v.bitmap, p)
  }

  /** Pages are taken for tables and none is given back or changes hands otherwise. */
  ghost predicate Taken(v: View, v': View) {
    && v.pages <= v'.pages
    && (forall p {:trigger Handed(v, v', p)} :: Handed(v, v', p))
    && v.free - v'.free == |v'.pages| - |v.pages| >= 0
  }

  /** The pages taken for tables that no table uses any more. */
  function Lost(v: View): int {
    |v.pages| - |v.tab|
  }

  /** Every page taken becomes a table, and exactly the pages of replaced tables are lost. */
  ghost predicate Accounted(v: View, v': View, lo: nat, hi: nat, phys: nat, flags: nat) {
    Taken(v, v') && Lost(v') == Lost(v) + |Replaced(v.tab, lo, hi, phys, flags)|
  }

  ghost predicate Built(v: View, v': View, root: nat, lo: nat, hi: nat, phys: nat, prot: nat, flags: nat) {
    && MappedTo(v'.mem, root, lo, hi, phys, prot)
    && SameOutside(v.mem, v'.mem, root, lo, hi)
    && NoNewBlocks(v, v', lo, hi)
    && Grown(v.tab, v'.tab, lo, hi, phys, flags)
    && MemFrame(v.mem, v'.mem, v'.pages)
    && Accounted(v, v', lo, hi, phys, flags)
  }

  // ---------- pages needed ----------

  /** The table at k is needed for [lo, hi) and not there. */
  predicate Lacks(tab: Tables, k: Key, lo: nat, hi: nat, phys: nat, flags: nat) {
    k !in tab && Touched(k, lo, hi, phys, flags)
  }

  /** How many tables of a level with positions a..b are lacking. */
  function Count(level: nat, a: nat, b: nat, tab: Tables, lo: nat, hi: nat, phys: nat, flags: nat): (c: nat)
    ensures a <= b ==> c <= b - a
    decreases b - a
  {
    if a >= b then 0
    else
      (if Lacks(tab, Key(level, a), lo, hi, phys, flags) then 1 else 0)
      + Count(level, a + 1, b, tab, lo, hi, phys, flags)
  }

  lemma {:induction false} CountSplit(level: nat, a: nat, m: nat, b: nat, tab: Tables, lo: nat, hi: nat, phys: nat,
                                      flags: nat)
    requires a <= m <= b
    ensures Count(level, a, b, tab, lo, hi, phys, flags) ==
            Count(level, a, m, tab, lo, hi, phys, flags) + Count(level, m, b, tab, lo, hi, phys, flags)
    decreases m - a
  {
    if a < m { CountSplit(level, a + 1, m, b, tab, lo, hi, phys, flags); }
  }

  lemma {:induction false} CountSame(level: nat, a: nat, b: nat, tab: Tables, lo: nat, hi: nat, phys: nat,
                                     tab': Tables, lo': nat, hi': nat, phys': nat, flags: nat)
    requires forall n :: a <= n < b ==>
               (Lacks(tab, Key(level, n), lo, hi, phys, flags) <==> Lacks(tab', Key(level, n), lo', hi', phys', flags))
    ensures Count(level, a, b, tab, lo, hi, phys, flags) == Count(level, a, b, tab', lo', hi', phys', flags)
    decreases b - a
  {
    if a < b { CountSame(level, a + 1, b, tab, lo, hi, phys, tab', lo', hi', phys', flags); }
  }

  lemma {:induction false} CountNone(level: nat, a: nat, b: nat, tab: Tables, lo: nat, hi: nat, phys: nat, flags: nat)
    requires forall n :: a <= n < b ==> !Lacks(tab, Key(level, n), lo, hi, phys, flags)
    ensures Count(level, a, b, tab, lo, hi, phys, flags) == 0
    decreases b - a
  {
    if a < b { CountNone(level, a + 1, b, tab, lo, hi, phys, flags); }
  }

  /** The position of the table of a level that covers address x. */
  function PosOf(level: nat, x: nat): nat {
    if level == 3 then x / PMD_SIZE else if level == 2 then x / PUD_SIZE else x / PGDIR_SIZE
  }

  function NeedAt(level: nat, tab: Tables, lo: nat, hi: nat, phys: nat, flags: nat): nat
    requires hi > 0
  {
    Count(level, PosOf(level, lo), PosOf(level, hi - 1) + 1, tab, lo, hi, phys, flags)
  }

  /**
   The number of tables lacking for [lo, hi): of level 3 at depth 0 (the loop
   of alloc_init_pmd), also of level 2 at depth 1 (alloc_init_pud), and also
   of level 1 at depth 2 (__create_pgd_mapping).
   */
  function Need(depth: nat, tab: Tables, lo: nat, hi: nat, phys: nat, flags: nat): nat
    requires hi > 0
  {
    NeedAt(3, tab, lo, hi, phys, flags)
    + (if depth >= 1 then NeedAt(2, tab, lo, hi, phys, flags) else 0)
    + (if depth >= 2 then NeedAt(1, tab, lo, hi, phys, flags) else 0)
  }

  /** Ranges that meet at an entry boundary of the depth need different tables at that depth. */
  lemma DepthApart(k: Key, depth: nat, lo: nat, mid: nat, hi: nat, phys: nat, phys': nat, flags: nat)
    requires lo < mid < hi && Cut(depth, mid, lo) && 3 - depth <= k.level
    ensures !(Touched(k, lo, mid, phys, flags) && Touched(k, mid, hi, phys', flags))
    ensures Touched(k, lo, mid, phys, flags) ==> k.n < PosOf(k.level, mid)
    ensures Touched(k, mid, hi, phys', flags) ==> k.n >= PosOf(k.level, mid)
  {
    CutCoarse(depth, mid, lo);
  }

  lemma CutPos(level: nat, depth: nat, lo: nat, mid: nat, hi: nat)
    requires lo < mid < hi && Cut(depth, mid, lo) && 1 <= level <= 3 && 3 - depth <= level
    ensures PosOf(level, mid - 1) + 1 == PosOf(level, mid)
    ensures PosOf(level, lo) <= PosOf(level, mid) <= PosOf(level, hi - 1)
  {
    CutCoarse(depth, mid, lo);
  }

  lemma LacksSplit(tab: Tables, k: Key, depth: nat, lo: nat, mid: nat, hi: nat, phys: nat, phys': nat, flags: nat)
    requires lo < mid < hi && Cut(depth, mid, lo) && phys' == phys + (mid - lo) && 3 - depth <= k.level
    ensures k.n < PosOf(k.level, mid) ==> (Lacks(tab, k, lo, hi, phys, flags) <==> Lacks(tab, k, lo, mid, phys, flags))
    ensures k.n >= PosOf(k.level, mid) ==>
              (Lacks(tab, k, lo, hi, phys, flags) <==> Lacks(tab, k, mid, hi, phys', flags))
  {
    CutCoarse(depth, mid, lo);
    TouchedSplit(k, lo, mid, hi, phys, phys', flags);
    DepthApart(k, depth, lo, mid, hi, phys, phys', flags);
  }

  lemma CountAtSplit(level: nat, depth: nat, a: nat, m: nat, b: nat, tab: Tables, lo: nat, mid: nat, hi: nat,
                     phys: nat, phys': nat, flags: nat)
    requires lo < mid < hi && Cut(depth, mid, lo) && phys' == phys + (mid - lo)
    requires 1 <= level <= 3 && 3 - depth <= level && a <= m == PosOf(level, mid) <= b
    ensures Count(level, a, b, tab, lo, hi, phys, flags) ==
            Count(level, a, m, tab, lo, mid, phys, flags) + Count(level, m, b, tab, mid, hi, phys', flags)
  {
    CountSplit(level, a, m, b, tab, lo, hi, phys, flags);
    forall n: nat
      ensures n < m ==>
                (Lacks(tab, Key(level, n), lo, hi, phys, flags) <==> Lacks(tab, Key(level, n), lo, mid, phys, flags))
      ensures n >= m ==>
                (Lacks(tab, Key(level, n), lo, hi, phys, flags) <==> Lacks(tab, Key(level, n), mid, hi, phys', flags))
    {
      LacksSplit(tab, Key(level, n), depth, lo, mid, hi, phys, phys', flags);
    }
    CountSame(level, a, m, tab, lo, hi, phys, tab, lo, mid, phys, flags);
    CountSame(level, m, b, tab, lo, hi, phys, tab, mid, hi, phys', flags);
  }

  lemma NeedAtSplit(level: nat, depth: nat, tab: Tables, lo: nat, mid: nat, hi: nat, phys: nat, phys': nat, flags: nat)
    requires lo < mid < hi && Cut(depth, mid, lo) && phys' == phys + (mid - lo)
    requires 1 <= level <= 3 && 3 - depth <= level
    ensures NeedAt(level, tab, lo, hi, phys, flags) ==
            NeedAt(level, tab, lo, mid, phys, flags) + NeedAt(level, tab, mid, hi, phys', flags)
  {
    var a, m, b := PosOf(level, lo), PosOf(level, mid), PosOf(level, hi - 1) + 1;
    CutPos(level, depth, lo, mid, hi);
    CountAtSplit(level, depth, a, m, b, tab, lo, mid, hi, phys, phys', flags);
  }

  /** Needs add up over adjacent ranges that meet at an entry boundary of the depth. */
  lemma NeedSplit(depth: nat, tab: Tables, lo: nat, mid: nat, hi: nat, phys: nat, phys': nat, flags: nat)
    requires lo < mid < hi && Cut(depth, mid, lo) && phys' == phys + (mid - lo)
    ensures Need(depth, tab, lo, hi, phys, flags) ==
              Need(depth, tab, lo, mid, phys, flags) + Need(depth, tab, mid, hi, phys', flags)
  {
    NeedAtSplit(3, depth, tab, lo, mid, hi, phys, phys', flags);
    if depth >= 1 { NeedAtSplit(2, depth, tab, lo, mid, hi, phys, phys', flags); }
    if depth >= 2 { NeedAtSplit(1, depth, tab, lo, mid, hi, phys, phys', flags); }
  }

  lemma NeedAtElsewhere(level: nat, depth: nat, t0: Tables, t1: Tables, lo: nat, mid: nat, hi: nat, phys: nat,
                        phys': nat, flags: nat)
    requires lo < mid < hi && Cut(depth, mid, lo) && phys' == phys + (mid - lo) && Grown(t0, t1, lo, mid, phys, flags)
    requires 1 <= level <= 3 && 3 - depth <= level
    ensures NeedAt(level, t1, mid, hi, phys', flags) == NeedAt(level, t0, mid, hi, phys', flags)
  {
    var a, b := PosOf(level, mid), PosOf(level, hi - 1) + 1;
    CutCoarse(depth, mid, lo);
    forall n: nat | a <= n < b
      ensures Lacks(t1, Key(level, n), mid, hi, phys', flags) <==> Lacks(t0, Key(level, n), mid, hi, phys', flags)
    {
      DepthApart(Key(level, n), depth, lo, mid, hi, phys, phys', flags);
      TouchedSplit(Key(level, n), lo, mid, hi, phys, phys', flags);
    }
    CountSame(level, a, b, t1, mid, hi, phys', t0, mid, hi, phys', flags);
  }

  /** Mapping [lo, mid) neither adds nor removes a table that [mid, hi) needs at the depth. */
  lemma NeedElsewhere(depth: nat, t0: Tables, t1: Tables, lo: nat, mid: nat, hi: nat, phys: nat, phys': nat, flags: nat)
    requires lo < mid < hi && Cut(depth, mid, lo) && phys' == phys + (mid - lo) && Grown(t0, t1, lo, mid, phys, flags)
    ensures Need(depth, t1, mid, hi, phys', flags) == Need(depth, t0, mid, hi, phys', flags)
  {
    NeedAtElsewhere(3, depth, t0, t1, lo, mid, hi, phys, phys', flags);
    if depth >= 1 { NeedAtElsewhere(2, depth, t0, t1, lo, mid, hi, phys, phys', flags); }
    if depth >= 2 { NeedAtElsewhere(1, depth, t0, t1, lo, mid, hi, phys, phys', flags); }
  }

  /** A table of another level changes no need. */
  lemma NeedAtOther(level: nat, t0: Tables, t1: Tables, k: Key, lo: nat, hi: nat, phys: nat, flags: nat)
    requires hi > 0 && k.level != level && t1.Keys == t0.Keys + {k}
    ensures NeedAt(level, t1, lo, hi, phys, flags) == NeedAt(level, t0, lo, hi, phys, flags)
  {
    CountSame(level, PosOf(level, lo), PosOf(level, hi - 1) + 1, t1, lo, hi, phys, t0, lo, hi, phys, flags);
  }

  /** One more depth adds the one table above a range inside one of its entries. */
  lemma NeedAbove(depth: nat, t0: Tables, t1: Tables, k: Key, lo: nat, hi: nat, phys: nat, flags: nat)
    requires lo < hi && depth < 2 && k == Key(2 - depth, PosOf(2 - depth, lo)) && PosOf(2 - depth, hi - 1) == k.n
    requires t1.Keys == t0.Keys + {k}
    ensures Need(depth + 1, t0, lo, hi, phys, flags) ==
              Need(depth, t1, lo, hi, phys, flags) + (if k in t0 then 0 else 1)
  {
    assert NeedAt(k.level, t0, lo, hi, phys, flags) == if k in t0 then 0 else 1;
    NeedAtOther(3, t0, t1, k, lo, hi, phys, flags);
    if depth == 1 { NeedAtOther(2, t0, t1, k, lo, hi, phys, flags); }
  }

  /** A lacking table above a range is counted. */
  lemma NeedSome(depth: nat, tab: Tables, k: Key, lo: nat, hi: nat, phys: nat, flags: nat)
    requires lo < hi && depth < 2 && k == Key(2 - depth, PosOf(2 - depth, lo)) && PosOf(2 - depth, hi - 1) == k.n
    ensures k in tab || Need(depth + 1, tab, lo, hi, phys, flags) > 0
  {
    NeedAbove(depth, tab, tab[k := 0], k, lo, hi, phys, flags);
  }

  /** A 2 MB chunk needs its level 3 table exactly when it does not become a section. */
  lemma NeedOne(tab: Tables, addr: nat, next: nat, phys: nat, flags: nat)
    requires addr < next && (next - 1) / PMD_SIZE == addr / PMD_SIZE
    ensures Need(0, tab, addr, next, phys, flags) ==
            if Key(3, addr / PMD_SIZE) in tab || SectionChunk(addr / PMD_SIZE, addr, next, phys, flags) then 0 else 1
  {
  }

  // ---------- a numeric bound ----------

  /** At most this many level 3 tables are needed for [lo, hi): two when phys and virt agree modulo 2 MB. */
  function PteTables(lo: nat, hi: nat, phys: nat, flags: nat): int
    requires lo < hi
  {
    if flags % 2 == 0 && (phys - lo) % PMD_SIZE == 0 then
      (if lo % PMD_SIZE != 0 then 1 else 0) + (if hi % PMD_SIZE != 0 then 1 else 0)
    else Span(PMD_SIZE, lo, hi)
  }

  /** When phys is aligned with it, a chunk that is not a section is the first or the last, cut short. */
  lemma PartialChunk(n: nat, lo: nat, hi: nat, phys: nat, flags: nat)
    requires lo < hi && lo / PMD_SIZE <= n <= (hi - 1) / PMD_SIZE && !SectionChunk(n, lo, hi, phys, flags)
    requires flags % 2 == 0 && (phys - lo) % PMD_SIZE == 0
    ensures (n == lo / PMD_SIZE && lo % PMD_SIZE != 0) || (n == (hi - 1) / PMD_SIZE && hi % PMD_SIZE != 0)
  {
  }

  lemma PteBound(tab: Tables, lo: nat, hi: nat, phys: nat, flags: nat)
    requires lo < hi && flags % 2 == 0 && (phys - lo) % PMD_SIZE == 0
    ensures NeedAt(3, tab, lo, hi, phys, flags) <= PteTables(lo, hi, phys, flags)
  {
    var a, b := lo / PMD_SIZE, (hi - 1) / PMD_SIZE;
    forall n: nat | a <= n <= b && Lacks(tab, Key(3, n), lo, hi, phys, flags)
      ensures (n == a && lo % PMD_SIZE != 0) || (n == b && hi % PMD_SIZE != 0)
    {
      PartialChunk(n, lo, hi, phys, flags);
    }
    CountEnds(a, b, tab, lo, hi, phys, flags, lo % PMD_SIZE != 0, hi % PMD_SIZE != 0);
  }

  /** When only the first and the last table may be lacking, at most two are. */
  lemma CountEnds(a: nat, b: nat, tab: Tables, lo: nat, hi: nat, phys: nat, flags: nat, first: bool, last: bool)
    requires a <= b && forall n: nat :: a <= n <= b && Lacks(tab, Key(3, n), lo, hi, phys, flags) ==>
               (n == a && first) || (n == b && last)
    ensures Count(3, a, b + 1, tab, lo, hi, phys, flags) <= (if first then 1 else 0) + (if last then 1 else 0)
  {
    if a < b {
      CountSplit(3, a, a + 1, b + 1, tab, lo, hi, phys, flags);
      CountSplit(3, a + 1, b, b + 1, tab, lo, hi, phys, flags);
      CountNone(3, a + 1, b, tab, lo, hi, phys, flags);
    }
  }

  /**
   One call needs at most a level 1 table for each 512 GB entry it meets, a
   level 2 table for each 1 GB entry, and PteTables level 3 tables.
   */
  lemma NeedBound(tab: Tables, lo: nat, hi: nat, phys: nat, flags: nat)
    requires lo < hi
    ensures Need(2, tab, lo, hi, phys, flags) <=
            Span(PGDIR_SIZE, lo, hi) + Span(PUD_SIZE, lo, hi) + PteTables(lo, hi, phys, flags)
  {
    if flags % 2 == 0 && (phys - lo) % PMD_SIZE == 0 { PteBound(tab, lo, hi, phys, flags); }
  }

  // ---------- composition of adjacent ranges ----------

  lemma ChunkSplit(s: nat, lo: nat, mid: nat, hi: nat, phys: nat, phys': nat, flags: nat)
    requires lo < mid < hi && mid % PMD_SIZE == 0 && phys' == phys + (mid - lo)
    ensures SectionChunk(s, lo, hi, phys, flags)
       <==> SectionChunk(s, lo, mid, phys, flags) || SectionChunk(s, mid, hi, phys', flags)
  {
    assert phys' - mid == phys - lo;
  }

  lemma TouchedSplit(k: Key, lo: nat, mid: nat, hi: nat, phys: nat, phys': nat, flags: nat)
    requires lo < mid < hi && mid % PMD_SIZE == 0 && phys' == phys + (mid - lo)
    ensures Touched(k, lo, mid, phys, flags) || Touched(k, mid, hi, phys', flags)
       <==> Touched(k, lo, hi, phys, flags)
    ensures k.level == 3 && Touched(k, lo, mid, phys, flags) ==> !SectionChunk(k.n, mid, hi, phys', flags)
    ensures k.level == 3 && Touched(k, mid, hi, phys', flags) ==> !SectionChunk(k.n, lo, mid, phys, flags)
  {
    assert phys' - mid == phys - lo;
  }

  lemma GrownCompose(t0: Tables, t1: Tables, t2: Tables, lo: nat, mid: nat, hi: nat, phys: nat, phys': nat, flags: nat)
    requires lo < mid < hi && mid % PMD_SIZE == 0 && phys' == phys + (mid - lo)
    requires Grown(t0, t1, lo, mid, phys, flags) && Grown(t1, t2, mid, hi, phys', flags)
    ensures Grown(t0, t2, lo, hi, phys, flags)
  {
    forall k | k in t0 ensures (k in t2 && t2[k] == t0[k]) || Replaces(k, lo, hi, phys, flags) {
      ChunkSplit(k.n, lo, mid, hi, phys, phys', flags);
    }
    forall k | k in t2
      ensures !Replaces(k, lo, hi, phys, flags)
      ensures k !in t0 ==> Touched(k, lo, hi, phys, flags)
    {
      ChunkSplit(k.n, lo, mid, hi, phys, phys', flags);
      TouchedSplit(k, lo, mid, hi, phys, phys', flags);
    }
    forall k | Touched(k, lo, hi, phys, flags) ensures k in t2 {
      TouchedSplit(k, lo, mid, hi, phys, phys', flags);
    }
  }

  /** The tables replaced in [lo, hi) are those replaced in its parts. */
  lemma ReplacedSplit(t0: Tables, t1: Tables, lo: nat, mid: nat, hi: nat, phys: nat, phys': nat, flags: nat)
    requires lo < mid < hi && mid % PMD_SIZE == 0 && phys' == phys + (mid - lo)
    requires Grown(t0, t1, lo, mid, phys, flags)
    ensures Replaced(t0, lo, hi, phys, flags) ==
              Replaced(t0, lo, mid, phys, flags) + Replaced(t1, mid, hi, phys', flags)
    ensures Replaced(t0, lo, mid, phys, flags) !! Replaced(t1, mid, hi, phys', flags)
  {
    forall k: Key
      ensures k in Replaced(t0, lo, hi, phys, flags)
         <==> k in Replaced(t0, lo, mid, phys, flags) || k in Replaced(t1, mid, hi, phys', flags)
    {
      ChunkSplit(k.n, lo, mid, hi, phys, phys', flags);
      TouchedSplit(k, lo, mid, hi, phys, phys', flags);
    }
  }

  /** All table pages but the root are in use. */
  ghost predicate Holding(v: View, root: nat) {
    forall p {:trigger Marked(v.bitmap, p)} :: p in v.pages && p != root ==> Marked(v.bitmap, p)
  }

  lemma StillHolding(v: View, v': View, root: nat)
    requires Taken(v, v') && Holding(v, root)
    ensures Holding(v', root)
  {
    forall p | p in v'.pages && p != root ensures Marked(v'.bitmap, p) { assert Handed(v, v', p); }
  }

  lemma TakenCompose(v0: View, v1: View, v2: View)
    requires Taken(v0, v1) && Taken(v1, v2)
    ensures Taken(v0, v2)
  {
    forall p: nat ensures Handed(v0, v2, p) { assert Handed(v0, v1, p) && Handed(v1, v2, p); }
  }

  lemma AccountedCompose(v0: View, v1: View, v2: View, lo: nat, mid: nat, hi: nat, phys: nat, phys': nat, flags: nat)
    requires lo < mid < hi && mid % PMD_SIZE == 0 && phys' == phys + (mid - lo)
    requires Grown(v0.tab, v1.tab, lo, mid, phys, flags)
    requires Accounted(v0, v1, lo, mid, phys, flags) && Accounted(v1, v2, mid, hi, phys', flags)
    ensures Accounted(v0, v2, lo, hi, phys, flags)
  {
    TakenCompose(v0, v1, v2);
    ReplacedSplit(v0.tab, v1.tab, lo, mid, hi, phys, phys', flags);
  }

  /** A call loses no page if and only if no section replaces a table. */
  lemma NoPageLost(v: View, v': View, root: nat, lo: nat, hi: nat, phys: nat, prot: nat, flags: nat)
    requires Built(v, v', root, lo, hi, phys, prot, flags)
    ensures Lost(v') == Lost(v) <==> KeepsTables(v.tab, lo, hi, phys, flags)
  {
    var gone := Replaced(v.tab, lo, hi, phys, flags);
    if KeepsTables(v.tab, lo, hi, phys, flags) {
      assert gone == {};
    } else {
      var s :| SectionChunk(s, lo, hi, phys, flags) && Key(3, s) in v.tab;
      assert Key(3, s) in gone;
    }
  }

  lemma NoNewBlocksCompose(v0: View, v1: View, v2: View, lo: nat, mid: nat, hi: nat)
    requires lo < mid < hi && NoNewBlocks(v0, v1, lo, mid) && NoNewBlocks(v1, v2, mid, hi)
    ensures NoNewBlocks(v0, v2, lo, hi)
  {
    forall level: nat, s: nat |
      EntryFree(v0.mem, v0.tab, level, s) && !(level == 2 && lo <= s * PMD_SIZE && (s + 1) * PMD_SIZE <= hi)
      ensures EntryFree(v2.mem, v2.tab, level, s)
    {
      assert EntryFree(v1.mem, v1.tab, level, s);
    }
  }

  lemma WalksCompose(m0: Mem, m1: Mem, m2: Mem, root: nat, lo: nat, mid: nat, hi: nat, phys: nat, phys': nat, prot: nat)
    requires lo < mid < hi <= VA_LIMIT && phys' == phys + (mid - lo)
    requires MappedTo(m1, root, lo, mid, phys, prot) && SameOutside(m0, m1, root, lo, mid)
    requires MappedTo(m2, root, mid, hi, phys', prot) && SameOutside(m1, m2, root, mid, hi)
    ensures MappedTo(m2, root, lo, hi, phys, prot) && SameOutside(m0, m2, root, lo, hi)
  {
  }

  /** Mapping [lo, mid) and then [mid, hi) maps [lo, hi). */
  lemma BuiltCompose(v0: View, v1: View, v2: View, root: nat, lo: nat, mid: nat, hi: nat, phys: nat, phys': nat,
                     prot: nat, flags: nat)
    requires lo < mid < hi <= VA_LIMIT && mid % PMD_SIZE == 0 && phys' == phys + (mid - lo)
    requires Built(v0, v1, root, lo, mid, phys, prot, flags)
    requires Built(v1, v2, root, mid, hi, phys', prot, flags)
    ensures Built(v0, v2, root, lo, hi, phys, prot, flags)
  {
    WalksCompose(v0.mem, v1.mem, v2.mem, root, lo, mid, hi, phys, phys', prot);
    NoNewBlocksCompose(v0, v1, v2, lo, mid, hi);
    GrownCompose(v0.tab, v1.tab, v2.tab, lo, mid, hi, phys, phys', flags);
    AccountedCompose(v0, v1, v2, lo, mid, hi, phys, phys', flags);
    FrameCompose(v0.mem, v1.mem, v2.mem, v1.pages, v2.pages);
  }

  lemma FrameCompose(m0: Mem, m1: Mem, m2: Mem, pages: set<nat>, pages': set<nat>)
    requires MemFrame(m0, m1, pages) && MemFrame(m1, m2, pages') && pages <= pages'
    ensures MemFrame(m0, m2, pages')
  {
  }

  // ---------- the three elementary writes ----------

  /** A store into an entry stays inside its table page. */
  lemma StoreFrame(mem: Mem, tab: Tables, root: nat, level: nat, s: nat, d: nat, pages: set<nat>)
    requires Tree(mem, tab, root) && Key(level, s / 512) in tab && tab[Key(level, s / 512)] in pages
    ensures MemFrame(mem, mem[Slot(tab, level, s) := d], pages)
  {
    assert KeyOk(mem, tab, Key(level, s / 512));
    SlotInPage(tab[Key(level, s / 512)], s % 512);
  }

  lemma SlotInPage(p: nat, i: nat)
    requires p % PAGE_SIZE == 0 && i < 512
    ensures (p + 8 * i) - (p + 8 * i) % PAGE_SIZE == p
  {
  }

  lemma SectionWalks(mem: Mem, tab: Tables, root: nat, s: nat, phys: nat, prot: nat)
    requires Tree(mem, tab, root) && Key(2, s / 512) in tab
    requires phys % PMD_SIZE == 0 && phys < VA_LIMIT && ValidProt(prot) && (s + 1) * PMD_SIZE <= VA_LIMIT
    ensures var mem' := mem[Slot(tab, 2, s) := SectDesc(phys, prot)];
            && Tree(mem', tab - {Key(3, s)}, root)
            && MappedTo(mem', root, s * PMD_SIZE, (s + 1) * PMD_SIZE, phys, prot)
            && SameOutside(mem, mem', root, s * PMD_SIZE, (s + 1) * PMD_SIZE)
  {
    var lo, hi, d := s * PMD_SIZE, (s + 1) * PMD_SIZE, SectDesc(phys, prot);
    var mem' := mem[Slot(tab, 2, s) := d];
    SectionStore(mem, tab, root, s, d);
    forall va | lo <= va < hi ensures Walk(mem', root, va) == Mapped(phys + (va - lo), Attrs(prot)) {
      InChunk(va, s);
      SectionDecode(phys, prot, va);
    }
    forall va | 0 <= va < VA_LIMIT && !(lo <= va < hi) ensures Walk(mem', root, va) == Walk(mem, root, va) {
      InChunk(va, s);
    }
  }

  lemma InChunk(va: nat, s: nat)
    ensures va / PMD_SIZE == s <==> s * PMD_SIZE <= va < (s + 1) * PMD_SIZE
    ensures va / PMD_SIZE == s ==> va % PMD_SIZE == va - s * PMD_SIZE
  {
  }

  lemma SectionDecode(phys: nat, prot: nat, va: nat)
    requires phys % PMD_SIZE == 0 && phys < VA_LIMIT && ValidProt(prot)
    ensures Decode(Stop(2, SectDesc(phys, prot)), va) == Mapped(phys + va % PMD_SIZE, Attrs(prot))
  {
  }

  /** A section at chunk s maps exactly that chunk. */
  lemma SectionBuilt(v: View, v': View, root: nat, s: nat, lo: nat, hi: nat, phys: nat, prot: nat, flags: nat)
    requires lo == s * PMD_SIZE && hi == (s + 1) * PMD_SIZE <= VA_LIMIT
    requires Tree(v.mem, v.tab, root) && Key(2, s / 512) in v.tab && v.tab[Key(2, s / 512)] in v.pages
    requires flags % 2 == 0 && phys % PMD_SIZE == 0 && phys < VA_LIMIT && ValidProt(prot)
    requires v' == v.(mem := v.mem[Slot(v.tab, 2, s) := SectDesc(phys, prot)], tab := v.tab - {Key(3, s)})
    ensures Tree(v'.mem, v'.tab, root)
    ensures Built(v, v', root, lo, hi, phys, prot, flags)
  {
    SectionWalks(v.mem, v.tab, root, s, phys, prot);
    StoreFrame(v.mem, v.tab, root, 2, s, SectDesc(phys, prot), v.pages);
    SectionBlocks(v, v', root, s, SectDesc(phys, prot));
    assert KeyOk(v.mem, v.tab, Key(2, s / 512));
    SectionAccounts(v, v', s, phys, flags);
  }

  lemma SectionAccounts(v: View, v': View, s: nat, phys: nat, flags: nat)
    requires flags % 2 == 0 && phys % PMD_SIZE == 0
    requires v' == v.(mem := v'.mem, tab := v.tab - {Key(3, s)})
    requires Key(2, s / 512) in v.tab && Key(1, s / 512 / 512) in v.tab
    ensures Grown(v.tab, v'.tab, s * PMD_SIZE, (s + 1) * PMD_SIZE, phys, flags)
    ensures Accounted(v, v', s * PMD_SIZE, (s + 1) * PMD_SIZE, phys, flags)
  {
    var lo, hi := s * PMD_SIZE, (s + 1) * PMD_SIZE;
    assert SectionChunk(s, lo, hi, phys, flags);
    forall k: Key ensures Replaces(k, lo, hi, phys, flags) <==> k == Key(3, s) {}
    forall k | Touched(k, lo, hi, phys, flags) ensures k in v'.tab {
      OneChunk(k, s, lo, hi, phys, flags);
    }
    DropOne(v.tab, Key(3, s));
    assert Replaced(v.tab, lo, hi, phys, flags) == if Key(3, s) in v.tab then {Key(3, s)} else {};
  }

  lemma DropOne(tab: Tables, k: Key)
    ensures |tab - {k}| == |tab| - (if k in tab then 1 else 0)
  {
    assert (tab - {k}).Keys == tab.Keys - {k};
    if k !in tab { assert tab.Keys - {k} == tab.Keys; }
    assert |tab - {k}| == |(tab - {k}).Keys| && |tab| == |tab.Keys|;
  }

  /** The tables needed by a range inside chunk s lie above that chunk. */
  lemma OneChunk(k: Key, s: nat, lo: nat, hi: nat, phys: nat, flags: nat)
    requires Touched(k, lo, hi, phys, flags) && s * PMD_SIZE <= lo && hi <= (s + 1) * PMD_SIZE
    ensures k in {Key(1, s / 512 / 512), Key(2, s / 512), Key(3, s)}
  {
    assert lo / PMD_SIZE == s && (hi - 1) / PMD_SIZE == s;
    assert lo / PUD_SIZE == s / 512 && (hi - 1) / PUD_SIZE == s / 512;
    assert lo / PGDIR_SIZE == s / 512 / 512 && (hi - 1) / PGDIR_SIZE == s / 512 / 512;
  }

  lemma SectionBlocks(v: View, v': View, root: nat, s: nat, d: nat)
    requires Tree(v.mem, v.tab, root) && Key(2, s / 512) in v.tab
    requires v' == v.(mem := v.mem[Slot(v.tab, 2, s) := d], tab := v.tab - {Key(3, s)})
    ensures NoNewBlocks(v, v', s * PMD_SIZE, (s + 1) * PMD_SIZE)
  {
    forall level: nat, s': nat | EntryFree(v.mem, v.tab, level, s') && !(level == 2 && s' == s)
      ensures EntryFree(v'.mem, v'.tab, level, s')
    {
      if level < 3 && Key(level, s' / 512) in v'.tab {
        EntryAfterSection(v.mem, v.tab, v'.tab, root, s, d, level, s');
      }
    }
  }

  /** The tables and the pages taken differ at most by the one at k. */
  ghost predicate OneTable(v: View, v': View, k: Key) {
    && k in v'.tab && Taken(v, v')
    && if k in v.tab then v'.tab == v.tab && v'.pages == v.pages
       else v'.tab == v.tab[k := v'.tab[k]] && v'.pages == v.pages + {v'.tab[k]} && v'.tab[k] !in v.pages
  }

  /** The table at k was there already, or was added below an empty entry. */
  ghost predicate TableEnsured(v: View, v': View, root: nat, k: Key) {
    && OneTable(v, v', k)
    && SameOutside(v.mem, v'.mem, root, 0, 0)
    && NoNewBlocks(v, v', 0, 0)
    && MemFrame(v.mem, v'.mem, v'.pages)
  }

  lemma TableThere(v: View, root: nat, k: Key)
    requires k in v.tab
    ensures TableEnsured(v, v, root, k)
  {
  }

  /** A new table below an empty entry changes no translation and makes no block. */
  lemma TableAdded(v: View, v': View, root: nat, level: nat, s: nat, p: nat)
    requires Tree(v.mem, v.tab, root) && level < 3 && Key(level, s / 512) in v.tab
    requires Entry(v.mem, v.tab, level, s) == 0 && (forall k :: k in v.tab ==> v.tab[k] in v.pages)
    requires p % PAGE_SIZE == 0 && p < VA_LIMIT && p !in v.pages && v.free > 0
    requires v' == View(ZeroPage(v.mem, p)[Slot(v.tab, level, s) := p + 3], v.tab[Key(level + 1, s) := p],
                        v.pages + {p}, v'.bitmap, v.free - 1)
    requires !Marked(v.bitmap, p) && forall q :: Marked(v'.bitmap, q) <==> Marked(v.bitmap, q) || q == p
    ensures Tree(v'.mem, v'.tab, root) && Key(level + 1, s) !in v.tab
    ensures TableEnsured(v, v', root, Key(level + 1, s))
  {
    TableStore(v.mem, v.tab, root, level, s, p);
    TableBlocks(v, v', root, level, s, p);
    TableFrame(v.mem, v.tab, root, level, s, p, v'.pages);
  }

  lemma TableBlocks(v: View, v': View, root: nat, level: nat, s: nat, p: nat)
    requires Tree(v.mem, v.tab, root) && level < 3 && Key(level, s / 512) in v.tab && Key(level + 1, s) !in v.tab
    requires p % PAGE_SIZE == 0 && p !in v.tab.Values
    requires v'.mem == ZeroPage(v.mem, p)[Slot(v.tab, level, s) := p + 3] && v'.tab == v.tab[Key(level + 1, s) := p]
    ensures NoNewBlocks(v, v', 0, 0)
  {
    forall level': nat, s': nat | EntryFree(v.mem, v.tab, level', s')
      ensures EntryFree(v'.mem, v'.tab, level', s')
    {
      if level' < 3 && Key(level', s' / 512) in v'.tab && Key(level' + 1, s') !in v'.tab {
        EntryAfterTable(v.mem, v.tab, root, level, s, p, level', s');
      }
    }
  }

  lemma TableFrame(mem: Mem, tab: Tables, root: nat, level: nat, s: nat, p: nat, pages: set<nat>)
    requires Tree(mem, tab, root) && Key(level, s / 512) in tab && tab[Key(level, s / 512)] in pages
    requires p % PAGE_SIZE == 0 && p in pages
    ensures MemFrame(mem, ZeroPage(mem, p)[Slot(tab, level, s) := p + 3], pages)
  {
    assert KeyOk(mem, tab, Key(level, s / 512));
    SlotInPage(tab[Key(level, s / 512)], s % 512);
    forall a: int | a - a % PAGE_SIZE !in pages
      ensures Load(ZeroPage(mem, p)[Slot(tab, level, s) := p + 3], a) == Load(mem, a)
    {
      if p <= a < p + PAGE_SIZE { InPage(a, p); assert false; }
    }
  }

  lemma InPage(a: int, p: nat)
    requires p % PAGE_SIZE == 0 && p <= a < p + PAGE_SIZE
    ensures a - a % PAGE_SIZE == p
  {
  }

  /** Some pages of one level 3 table have been written: [lo, hi) is mapped, the tree is as before. */
  ghost predicate PagesWritten(v: View, v': View, root: nat, lo: nat, hi: nat, phys: nat, prot: nat) {
    && v' == v.(mem := v'.mem)
    && MappedTo(v'.mem, root, lo, hi, phys, prot)
    && SameOutside(v.mem, v'.mem, root, lo, hi)
    && NoNewBlocks(v, v', 0, 0)
    && MemFrame(v.mem, v'.mem, v.pages)
  }

  lemma PageWritten(v0: View, v: View, v': View, root: nat, lo: nat, addr: nat, phys: nat, prot: nat)
    requires Tree(v.mem, v.tab, root) && lo <= addr < VA_LIMIT && addr % PAGE_SIZE == 0
    requires (phys + (addr - lo)) % PAGE_SIZE == 0 && phys + (addr - lo) < VA_LIMIT && ValidProt(prot)
    requires addr / PAGE_SIZE / 512 == addr / PMD_SIZE
    requires Key(3, addr / PMD_SIZE) in v.tab && v.tab[Key(3, addr / PMD_SIZE)] in v.pages
    requires PagesWritten(v0, v, root, lo, addr, phys, prot)
    requires v' == v.(mem := v.mem[Slot(v.tab, 3, addr / PAGE_SIZE) := PageDesc(phys + (addr - lo), prot)])
    ensures Tree(v'.mem, v'.tab, root)
    ensures PagesWritten(v0, v', root, lo, addr + PAGE_SIZE, phys, prot)
  {
    var s, d := addr / PAGE_SIZE, PageDesc(phys + (addr - lo), prot);
    PageWalks(v0.mem, v.mem, v.tab, root, lo, addr, phys, prot);
    PageBlocks(v0, v, v', root, s, d);
    StoreFrame(v.mem, v.tab, root, 3, s, d, v.pages);
  }

  lemma PageWalks(mem0: Mem, mem: Mem, tab: Tables, root: nat, lo: nat, addr: nat, phys: nat, prot: nat)
    requires Tree(mem, tab, root) && lo <= addr < VA_LIMIT && addr % PAGE_SIZE == 0
    requires (phys + (addr - lo)) % PAGE_SIZE == 0 && phys + (addr - lo) < VA_LIMIT && ValidProt(prot)
    requires Key(3, addr / PAGE_SIZE / 512) in tab
    requires MappedTo(mem, root, lo, addr, phys, prot) && SameOutside(mem0, mem, root, lo, addr)
    ensures var mem' := mem[Slot(tab, 3, addr / PAGE_SIZE) := PageDesc(phys + (addr - lo), prot)];
            && Tree(mem', tab, root)
            && MappedTo(mem', root, lo, addr + PAGE_SIZE, phys, prot)
            && SameOutside(mem0, mem', root, lo, addr + PAGE_SIZE)
  {
    var s, d := addr / PAGE_SIZE, PageDesc(phys + (addr - lo), prot);
    var mem' := mem[Slot(tab, 3, s) := d];
    PageStore(mem, tab, root, s, d);
    PageFits(addr);
    forall va | lo <= va < addr + PAGE_SIZE ensures Walk(mem', root, va) == Mapped(phys + (va - lo), Attrs(prot)) {
      PageOffset(va, addr);
      if va >= addr {
        PageDecode(phys + (addr - lo), prot, addr, va);
      } else {
        assert Walk(mem', root, va) == Walk(mem, root, va);
      }
    }
    forall va | 0 <= va < VA_LIMIT && !(lo <= va < addr + PAGE_SIZE)
      ensures Walk(mem', root, va) == Walk(mem0, root, va)
    {
      PageOffset(va, addr);
      assert Walk(mem, root, va) == Walk(mem0, root, va);
    }
  }

  lemma PageFits(addr: nat)
    requires addr < VA_LIMIT && addr % PAGE_SIZE == 0
    ensures addr + PAGE_SIZE <= VA_LIMIT
  {
  }

  lemma PageDecode(phys: nat, prot: nat, addr: nat, va: nat)
    requires phys % PAGE_SIZE == 0 && phys < VA_LIMIT && ValidProt(prot)
    requires addr % PAGE_SIZE == 0 && addr <= va < addr + PAGE_SIZE
    ensures Decode(Stop(3, PageDesc(phys, prot)), va) == Mapped(phys + (va - addr), Attrs(prot))
  {
    PageOffset(va, addr);
  }

  lemma PageOffset(va: nat, addr: nat)
    requires addr % PAGE_SIZE == 0
    ensures va / PAGE_SIZE == addr / PAGE_SIZE <==> addr <= va < addr + PAGE_SIZE
    ensures addr <= va < addr + PAGE_SIZE ==> va % PAGE_SIZE == va - addr
  {
  }

  lemma PageBlocks(v0: View, v: View, v': View, root: nat, s: nat, d: nat)
    requires Tree(v.mem, v.tab, root) && Key(3, s / 512) in v.tab
    requires NoNewBlocks(v0, v, 0, 0) && v' == v.(mem := v.mem[Slot(v.tab, 3, s) := d])
    ensures NoNewBlocks(v0, v', 0, 0)
  {
    forall level: nat, s': nat | EntryFree(v0.mem, v0.tab, level, s') ensures EntryFree(v'.mem, v'.tab, level, s') {
      assert EntryFree(v.mem, v.tab, level, s');
      if level < 3 && Key(level, s' / 512) in v.tab { EntryAfterStore(v.mem, v.tab, root, 3, s, d, level, s'); }
    }
  }

  // ---------- a table on demand, then the range below it ----------

  lemma TableThenBuilt(v0: View, v1: View, v2: View, root: nat, k: Key, lo: nat, hi: nat, phys: nat, prot: nat,
                       flags: nat)
    requires TableEnsured(v0, v1, root, k) && Touched(k, lo, hi, phys, flags) && lo < hi <= VA_LIMIT
    requires Built(v1, v2, root, lo, hi, phys, prot, flags)
    ensures Built(v0, v2, root, lo, hi, phys, prot, flags)
  {
    BlocksChain(v0, v1, v2, lo, hi);
    FrameCompose(v0.mem, v1.mem, v2.mem, v1.pages, v2.pages);
    OutsideChain(v0.mem, v1.mem, v2.mem, root, lo, hi);
    TableThenGrown(v0.tab, v1.tab, v2.tab, k, lo, hi, phys, flags);
    TableThenAccounted(v0, v1, v2, k, lo, hi, phys, flags);
  }

  lemma OutsideChain(m0: Mem, m1: Mem, m2: Mem, root: nat, lo: nat, hi: nat)
    requires SameOutside(m0, m1, root, 0, 0) && SameOutside(m1, m2, root, lo, hi)
    ensures SameOutside(m0, m2, root, lo, hi)
  {
  }

  lemma TableThenGrown(t0: Tables, t1: Tables, t2: Tables, k: Key, lo: nat, hi: nat, phys: nat, flags: nat)
    requires Touched(k, lo, hi, phys, flags) && k in t1 && Grown(t1, t2, lo, hi, phys, flags)
    requires t1 == t0 || (k !in t0 && t1 == t0[k := t1[k]])
    ensures Grown(t0, t2, lo, hi, phys, flags)
  {
  }

  lemma TableThenAccounted(v0: View, v1: View, v2: View, k: Key, lo: nat, hi: nat, phys: nat, flags: nat)
    requires OneTable(v0, v1, k) && Touched(k, lo, hi, phys, flags)
    requires Accounted(v1, v2, lo, hi, phys, flags)
    ensures Accounted(v0, v2, lo, hi, phys, flags)
  {
    TakenCompose(v0, v1, v2);
    assert Replaced(v1.tab, lo, hi, phys, flags) == Replaced(v0.tab, lo, hi, phys, flags);
    TableNotLost(v0, v1, k);
  }

  lemma TableNotLost(v: View, v': View, k: Key)
    requires OneTable(v, v', k)
    ensures Lost(v') == Lost(v)
  {
    if k !in v.tab {
      assert v'.tab.Keys == v.tab.Keys + {k};
      AddOne(v.tab, v'.tab, k);
    }
  }

  lemma AddOne(tab: Tables, tab': Tables, k: Key)
    requires k in tab' && tab'.Keys == tab.Keys + {k}
    ensures |tab'| == |tab| + (if k in tab then 0 else 1)
  {
    if k in tab {
      assert tab'.Keys == tab.Keys;
    } else {
      assert |tab.Keys + {k}| == |tab.Keys| + 1;
    }
    assert |tab'| == |tab'.Keys| && |tab| == |tab.Keys|;
  }

  lemma BlocksChain(v0: View, v1: View, v2: View, lo: nat, hi: nat)
    requires NoNewBlocks(v0, v1, 0, 0) && NoNewBlocks(v1, v2, lo, hi)
    ensures NoNewBlocks(v0, v2, lo, hi)
  {
    forall level: nat, s: nat |
      EntryFree(v0.mem, v0.tab, level, s) && !(level == 2 && lo <= s * PMD_SIZE && (s + 1) * PMD_SIZE <= hi)
      ensures EntryFree(v2.mem, v2.tab, level, s)
    {
      assert EntryFree(v1.mem, v1.tab, level, s);
    }
  }

  lemma PagesBuilt(v: View, v': View, root: nat, lo: nat, hi: nat, phys: nat, prot: nat, flags: nat)
    requires PagesWritten(v, v', root, lo, hi, phys, prot) && Tree(v.mem, v.tab, root)
    requires lo < hi && (hi - 1) / PMD_SIZE == lo / PMD_SIZE && Key(3, lo / PMD_SIZE) in v.tab
    requires !SectionChunk(lo / PMD_SIZE, lo, hi, phys, flags)
    ensures Built(v, v', root, lo, hi, phys, prot, flags)
  {
    BlocksChain(v, v, v', 0, 0);
    var s := lo / PMD_SIZE;
    assert KeyOk(v.mem, v.tab, Key(3, s));
    assert KeyOk(v.mem, v.tab, Key(2, s / 512));
    forall k | Touched(k, lo, hi, phys, flags) ensures k in v.tab { OneChunk(k, s, lo, hi, phys, flags); }
    assert Replaced(v.tab, lo, hi, phys, flags) == {};
  }

  // ---------- progress of a mapping loop ----------

  /** The part [lo, addr) of a range is done; nothing is done yet when addr == lo. */
  ghost predicate Progress(v0: View, v: View, root: nat, lo: nat, addr: nat, phys: nat, prot: nat, flags: nat) {
    if addr == lo then v == v0
    else lo < addr && addr % PMD_SIZE == 0 && Built(v0, v, root, lo, addr, phys, prot, flags)
  }

  lemma ProgressStep(v0: View, v: View, v': View, root: nat, lo: nat, addr: nat, next: nat, phys: nat, phys': nat,
                     prot: nat, flags: nat)
    requires lo <= addr < next <= VA_LIMIT && phys' == phys + (addr - lo)
    requires Progress(v0, v, root, lo, addr, phys, prot, flags)
    requires Built(v, v', root, addr, next, phys', prot, flags)
    ensures Built(v0, v', root, lo, next, phys, prot, flags)
  {
    if addr > lo { BuiltCompose(v0, v, v', root, lo, addr, next, phys, phys', prot, flags); }
  }

  /** No entry that mapping [lo, hi) would descend through is a block. */
  ghost predicate Clear(v: View, lo: nat, hi: nat, phys: nat, flags: nat) {
    && lo < hi
    && (forall s: nat :: lo / PUD_SIZE <= s <= (hi - 1) / PUD_SIZE ==> EntryFree(v.mem, v.tab, 1, s))
    && (forall s: nat :: lo / PMD_SIZE <= s <= (hi - 1) / PMD_SIZE && !SectionChunk(s, lo, hi, phys, flags) ==>
          EntryFree(v.mem, v.tab, 2, s))
  }

  /** What is left of a range stays clear while its front is mapped. */
  lemma ClearRest(v0: View, v: View, root: nat, lo: nat, addr: nat, hi: nat, phys: nat, phys': nat, prot: nat,
                  flags: nat)
    requires lo <= addr < hi && phys' == phys + (addr - lo) && Clear(v0, lo, hi, phys, flags)
    requires Progress(v0, v, root, lo, addr, phys, prot, flags)
    ensures Clear(v, addr, hi, phys', flags)
  {
    if addr > lo {
      forall s: nat | addr / PUD_SIZE <= s <= (hi - 1) / PUD_SIZE ensures EntryFree(v.mem, v.tab, 1, s) {
        assert EntryFree(v0.mem, v0.tab, 1, s);
      }
      forall s: nat | addr / PMD_SIZE <= s <= (hi - 1) / PMD_SIZE && !SectionChunk(s, addr, hi, phys', flags)
        ensures EntryFree(v.mem, v.tab, 2, s)
      {
        ChunkSplit(s, lo, addr, hi, phys, phys', flags);
        BeyondFront(s, addr);
        assert EntryFree(v0.mem, v0.tab, 2, s);
      }
    }
  }

  lemma BeyondFront(s: nat, addr: nat)
    requires addr / PMD_SIZE <= s
    ensures addr < (s + 1) * PMD_SIZE
  {
  }

  /** The front of a clear range, cut at a 2 MB boundary or at its end, is clear. */
  lemma ClearFront(v: View, lo: nat, next: nat, hi: nat, phys: nat, flags: nat)
    requires lo < next <= hi && (next == hi || next % PMD_SIZE == 0) && Clear(v, lo, hi, phys, flags)
    ensures Clear(v, lo, next, phys, flags)
  {
    if next < hi {
      forall s: nat | lo / PMD_SIZE <= s <= (next - 1) / PMD_SIZE && !SectionChunk(s, lo, next, phys, flags)
        ensures EntryFree(v.mem, v.tab, 2, s)
      {
        ChunkSplit(s, lo, next, hi, phys, phys + (next - lo), flags);
        TouchedSplit(Key(3, s), lo, next, hi, phys, phys + (next - lo), flags);
      }
    }
  }

  /** The alignment test of one chunk decides exactly whether it becomes a section. */
  lemma ChunkChoice(addr: nat, next: nat, phys: nat, flags: nat)
    requires addr < next && (next - 1) / PMD_SIZE == addr / PMD_SIZE
    ensures SectionAligned(addr, next, phys) && flags % 2 == 0
       <==> SectionChunk(addr / PMD_SIZE, addr, next, phys, flags)
    ensures SectionAligned(addr, next, phys) ==>
              addr == addr / PMD_SIZE * PMD_SIZE && next == (addr / PMD_SIZE + 1) * PMD_SIZE
  {
    var s := addr / PMD_SIZE;
    assert s * PMD_SIZE <= addr < next <= (s + 1) * PMD_SIZE;
    if addr == s * PMD_SIZE {
      assert (phys - addr) % PMD_SIZE == phys % PMD_SIZE by { SubMultiple(phys, s); }
    }
  }

  lemma SubMultiple(x: nat, s: nat)
    ensures (x - s * PMD_SIZE) % PMD_SIZE == x % PMD_SIZE
  {
  }

  /** Arguments of a mapping loop: a non-empty page range, inside both address spaces. */
  predicate Args(lo: nat, hi: nat, phys: nat, prot: nat) {
    && lo < hi <= VA_LIMIT && lo % PAGE_SIZE == 0 && hi % PAGE_SIZE == 0
    && phys % PAGE_SIZE == 0 && phys + (hi - lo) <= VA_LIMIT
    && ValidProt(prot)
  }

  lemma PageInTable(addr: nat, lo: nat, hi: nat)
    requires lo <= addr < hi <= VA_LIMIT && (hi - 1) / PMD_SIZE == lo / PMD_SIZE
    ensures addr / PMD_SIZE == lo / PMD_SIZE
    ensures addr / PAGE_SIZE / 512 == addr / PMD_SIZE
  {
    Nest(addr);
  }

  /** The j-th page of a range inside one 2 MB chunk, and its slot in the level 3 table. */
  lemma NthPage(lo: nat, hi: nat, phys0: nat, j: nat, addr: nat, phys: nat)
    requires addr == lo + PAGE_SIZE * j < hi <= VA_LIMIT && phys == phys0 + PAGE_SIZE * j
    requires (hi - 1) / PMD_SIZE == lo / PMD_SIZE
    requires lo % PAGE_SIZE == 0 && hi % PAGE_SIZE == 0 && phys0 % PAGE_SIZE == 0
    ensures addr % PAGE_SIZE == 0 && addr + PAGE_SIZE <= hi && phys % PAGE_SIZE == 0
    ensures addr / PAGE_SIZE / 512 == addr / PMD_SIZE == lo / PMD_SIZE
    ensures addr / PAGE_SIZE % 512 == lo / PAGE_SIZE % 512 + j
  {
    PageInTable(addr, lo, hi);
    PageInTable(lo, lo, hi);
    assert addr / PAGE_SIZE == lo / PAGE_SIZE + j;
  }

  lemma NothingWritten(v: View, root: nat, lo: nat, phys: nat, prot: nat)
    ensures PagesWritten(v, v, root, lo, lo, phys, prot)
  {
  }

  lemma Coarse(x: nat)
    ensures x % PGDIR_SIZE == 0 ==> x % PUD_SIZE == 0
    ensures x % PUD_SIZE == 0 ==> x % PMD_SIZE == 0
    ensures x % PMD_SIZE == 0 ==> x % PAGE_SIZE == 0
  {
    if x % PGDIR_SIZE == 0 { TimesPud(512 * (x / PGDIR_SIZE)); }
    if x % PUD_SIZE == 0 { TimesPmd(512 * (x / PUD_SIZE)); }
    if x % PMD_SIZE == 0 { ModPage(512 * (x / PMD_SIZE), 0); }
  }

  lemma TimesPud(k: nat)
    ensures PUD_SIZE * k % PUD_SIZE == 0
  {
  }

  lemma TimesPmd(k: nat)
    ensures PMD_SIZE * k % PMD_SIZE == 0
  {
  }

  lemma AlignedShift(x: nat, lo: nat, addr: nat, y: nat)
    requires x % PAGE_SIZE == 0 && lo % PAGE_SIZE == 0 && addr % PAGE_SIZE == 0 && y == x + (addr - lo)
    ensures y % PAGE_SIZE == 0
  {
  }

  lemma SubArgs(lo: nat, hi: nat, phys0: nat, prot: nat, addr: nat, next: nat, phys: nat)
    requires Args(lo, hi, phys0, prot) && lo <= addr < next <= hi && phys == phys0 + (addr - lo)
    requires addr == lo || addr % PMD_SIZE == 0
    requires next == hi || next % PMD_SIZE == 0
    ensures Args(addr, next, phys, prot)
  {
    Coarse(addr);
    Coarse(next);
    AlignedShift(phys0, lo, addr, phys);
  }

  /** A cut of [lo, hi) at x respects the entries of a depth. */
  predicate Cut(depth: nat, x: nat, edge: nat) {
    x == edge || x % (if depth == 0 then PMD_SIZE else if depth == 1 then PUD_SIZE else PGDIR_SIZE) == 0
  }

  lemma CutCoarse(depth: nat, x: nat, edge: nat)
    requires Cut(depth, x, edge)
    ensures x == edge || x % PMD_SIZE == 0
    ensures x == edge || depth == 0 || x % PUD_SIZE == 0
    ensures x == edge || depth <= 1 || x % PGDIR_SIZE == 0
  {
    Coarse(x);
  }

  /** The pages taken so far are exactly the tables that were missing for the done part. */
  ghost predicate Paid(depth: nat, v0: View, v: View, lo: nat, addr: nat, phys: nat, flags: nat)
    requires lo <= addr
  {
    v.free == v0.free - (if addr == lo then 0 else Need(depth, v0.tab, lo, addr, phys, flags))
  }

  /** A mapping loop over [lo, hi) has reached addr: the part before it is done, the rest is affordable. */
  ghost predicate Reached(depth: nat, v0: View, v: View, root: nat, lo: nat, addr: nat, hi: nat,
                          phys0: nat, phys: nat, prot: nat, flags: nat) {
    && lo <= addr < hi && Cut(depth, addr, lo) && phys == phys0 + (addr - lo)
    && Progress(v0, v, root, lo, addr, phys0, prot, flags)
    && Paid(depth, v0, v, lo, addr, phys0, flags)
    && v.free >= Need(depth, v.tab, addr, hi, phys, flags)
  }

  /** The loop has mapped all of [lo, hi) and paid for it. */
  ghost predicate Completed(depth: nat, v0: View, v: View, root: nat, lo: nat, hi: nat, phys: nat, prot: nat,
                            flags: nat)
    requires hi > 0
  {
    Built(v0, v, root, lo, hi, phys, prot, flags) && v.free == v0.free - Need(depth, v0.tab, lo, hi, phys, flags)
  }

  lemma LoopStarts(depth: nat, v: View, root: nat, lo: nat, hi: nat, phys: nat, prot: nat, flags: nat)
    requires lo < hi && v.free >= Need(depth, v.tab, lo, hi, phys, flags)
    ensures Reached(depth, v, v, root, lo, lo, hi, phys, phys, prot, flags)
  {
  }

  /** Before one round of a mapping loop: what it passes down is in order and affordable. */
  lemma RoundStarts(depth: nat, v0: View, v: View, root: nat, lo: nat, addr: nat, next: nat, hi: nat,
                    phys0: nat, phys: nat, prot: nat, flags: nat)
    requires Args(lo, hi, phys0, prot) && Clear(v0, lo, hi, phys0, flags)
    requires Reached(depth, v0, v, root, lo, addr, hi, phys0, phys, prot, flags)
    requires addr < next <= hi && Cut(depth, next, hi)
    ensures Args(addr, next, phys, prot) && Clear(v, addr, next, phys, flags)
    ensures v.free >= Need(depth, v.tab, addr, next, phys, flags)
  {
    CutCoarse(depth, addr, lo);
    CutCoarse(depth, next, hi);
    SubArgs(lo, hi, phys0, prot, addr, next, phys);
    ClearRest(v0, v, root, lo, addr, hi, phys0, phys, prot, flags);
    ClearFront(v, addr, next, hi, phys, flags);
    if next < hi { NeedSplit(depth, v.tab, addr, next, hi, phys, phys + (next - addr), flags); }
  }

  /** The pages of the round are accounted for. */
  lemma RoundPaid(depth: nat, v0: View, v: View, v': View, lo: nat, addr: nat, next: nat, phys0: nat, phys: nat,
                  flags: nat)
    requires lo <= addr < next && Cut(depth, addr, lo) && phys == phys0 + (addr - lo)
    requires lo < addr ==> Grown(v0.tab, v.tab, lo, addr, phys0, flags)
    requires lo == addr ==> v == v0
    requires Paid(depth, v0, v, lo, addr, phys0, flags)
    requires v'.free == v.free - Need(depth, v.tab, addr, next, phys, flags)
    ensures Paid(depth, v0, v', lo, next, phys0, flags)
  {
    if lo < addr {
      NeedSplit(depth, v0.tab, lo, addr, next, phys0, phys, flags);
      NeedElsewhere(depth, v0.tab, v.tab, lo, addr, next, phys0, phys, flags);
    }
  }

  /** With enough left for the rest. */
  lemma RoundLeaves(depth: nat, v: View, v': View, addr: nat, next: nat, hi: nat, phys: nat, phys': nat, flags: nat)
    requires addr < next < hi && Cut(depth, next, hi) && phys' == phys + (next - addr)
    requires Grown(v.tab, v'.tab, addr, next, phys, flags) && v.free >= Need(depth, v.tab, addr, hi, phys, flags)
    requires v'.free == v.free - Need(depth, v.tab, addr, next, phys, flags)
    ensures v'.free >= Need(depth, v'.tab, next, hi, phys', flags)
  {
    NeedSplit(depth, v.tab, addr, next, hi, phys, phys', flags);
    NeedElsewhere(depth, v.tab, v'.tab, addr, next, hi, phys, phys', flags);
  }

  /** After a round the loop has reached next, or mapped the whole range. */
  lemma RoundEnds(depth: nat, v0: View, v: View, v': View, root: nat, lo: nat, addr: nat, next: nat, hi: nat,
                  phys0: nat, phys: nat, phys': nat, prot: nat, flags: nat)
    requires Reached(depth, v0, v, root, lo, addr, hi, phys0, phys, prot, flags) && hi <= VA_LIMIT
    requires addr < next <= hi && Cut(depth, next, hi) && phys' == phys + (next - addr)
    requires Completed(depth, v, v', root, addr, next, phys, prot, flags)
    ensures next < hi ==> Reached(depth, v0, v', root, lo, next, hi, phys0, phys', prot, flags)
    ensures next == hi ==> Completed(depth, v0, v', root, lo, hi, phys0, prot, flags)
  {
    CutCoarse(depth, next, hi);
    ProgressStep(v0, v, v', root, lo, addr, next, phys0, phys, prot, flags);
    RoundPaid(depth, v0, v, v', lo, addr, next, phys0, phys, flags);
    if next < hi { RoundLeaves(depth, v, v', addr, next, hi, phys, phys', flags); }
  }

  /** With the table above a range in place, the range itself is clear and affordable. */
  lemma TableReady(depth: nat, v: View, v': View, root: nat, k: Key, lo: nat, hi: nat, phys: nat, flags: nat)
    requires TableEnsured(v, v', root, k) && Clear(v, lo, hi, phys, flags)
    requires lo < hi && depth < 2 && k == Key(2 - depth, PosOf(2 - depth, lo)) && PosOf(2 - depth, hi - 1) == k.n
    ensures Clear(v', lo, hi, phys, flags)
    ensures v.free - Need(depth + 1, v.tab, lo, hi, phys, flags) == v'.free - Need(depth, v'.tab, lo, hi, phys, flags)
  {
    assert v'.tab.Keys == v.tab.Keys + {k};
    NeedAbove(depth, v.tab, v'.tab, k, lo, hi, phys, flags);
  }

  /** A level 1 or 2 table stays in place while a range is mapped. */
  lemma TableStays(v: View, v': View, root: nat, k: Key, lo: nat, hi: nat, phys: nat, prot: nat, flags: nat)
    requires Built(v, v', root, lo, hi, phys, prot, flags) && k in v.tab && k.level <= 2
    ensures k in v'.tab && v'.tab[k] == v.tab[k]
  {
  }

  lemma SameEntry(x: nat, lo: nat, hi: nat, size: nat)
    requires lo <= x < hi && size in {PMD_SIZE, PUD_SIZE, PGDIR_SIZE} && (hi - 1) / size == lo / size
    ensures x / size == lo / size
  {
  }

  lemma NextEntry(addr: nat, next: nat, size: nat)
    requires addr < next && size in {PMD_SIZE, PUD_SIZE, PGDIR_SIZE} && (next - 1) / size == addr / size
    requires next % size == 0
    ensures next / size == addr / size + 1
  {
  }

  lemma NextIndex(s: nat, s': nat)
    requires s' == s + 1 && s' / 512 == s / 512
    ensures s' % 512 == s % 512 + 1
  {
  }

  /** `pmdp++` keeps up with addr inside the level 2 table. */
  lemma NextPmd(lo: nat, hi: nat, addr: nat, next: nat)
    requires lo <= addr < next <= hi <= VA_LIMIT && (hi - 1) / PUD_SIZE == lo / PUD_SIZE
    requires (next - 1) / PMD_SIZE == addr / PMD_SIZE && (next == hi || next % PMD_SIZE == 0)
    ensures addr / PMD_SIZE / 512 == lo / PUD_SIZE
    ensures next < hi ==> next / PMD_SIZE % 512 == addr / PMD_SIZE % 512 + 1
  {
    Nest(addr);
    SameEntry(addr, lo, hi, PUD_SIZE);
    if next < hi {
      Nest(next);
      SameEntry(next, lo, hi, PUD_SIZE);
      NextEntry(addr, next, PMD_SIZE);
      NextIndex(addr / PMD_SIZE, next / PMD_SIZE);
    }
  }

  /** `pudp++` keeps up with addr inside the level 1 table. */
  lemma NextPud(lo: nat, hi: nat, addr: nat, next: nat)
    requires lo <= addr < next <= hi <= VA_LIMIT && (hi - 1) / PGDIR_SIZE == lo / PGDIR_SIZE
    requires (next - 1) / PUD_SIZE == addr / PUD_SIZE && (next == hi || next % PUD_SIZE == 0)
    ensures addr / PUD_SIZE / 512 == lo / PGDIR_SIZE
    ensures next < hi ==> next / PUD_SIZE % 512 == addr / PUD_SIZE % 512 + 1
  {
    Nest(addr);
    SameEntry(addr, lo, hi, PGDIR_SIZE);
    if next < hi {
      Nest(next);
      SameEntry(next, lo, hi, PGDIR_SIZE);
      NextEntry(addr, next, PUD_SIZE);
      NextIndex(addr / PUD_SIZE, next / PUD_SIZE);
    }
  }

  /** `pgdp++` keeps up with addr inside the root table. */
  lemma NextPgd(hi: nat, addr: nat, next: nat)
    requires addr < next <= hi <= VA_LIMIT
    requires (next - 1) / PGDIR_SIZE == addr / PGDIR_SIZE && (next == hi || next % PGDIR_SIZE == 0)
    ensures addr / PGDIR_SIZE / 512 == 0
    ensures next < hi ==> next / PGDIR_SIZE % 512 == addr / PGDIR_SIZE % 512 + 1
  {
    Nest(addr);
  }
}
