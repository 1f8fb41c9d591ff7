/**
 The specification of translation: the hardware walk of a four-level table
 (VMSAv8-64, 4 KB granule, 48-bit addresses; sections D5.2 and D5.3 of the Arm
 Architecture Reference Manual, ARM DDI 0487) over a memory of 64-bit words,
 and the invariant that the tables form a tree.

 A table is named by its level and its position n, counted in entries of the
 level above, so the entry numbered s of a level lies in the table s / 512 of
 that level and the table below it has position s.
 */
module PageTable {
  import opened Pgtable

  /** Words of physical memory by byte address. */
  type Mem = map<int, nat>

  function Load(mem: Mem, a: int): nat {
    if a in mem then mem[a] else 0
  }

  // ---------- the hardware walk ----------

  /** The level and descriptor at which a walk ends. */
  datatype Stop = Stop(level: nat, desc: nat)

  datatype Translation = Fault | Mapped(pa: nat, attrs: int)

  function WalkStop(mem: Mem, root: nat, va: nat): Stop {
    var d0 := Load(mem, root + 8 * PgdIndex(va));
    if d0 % 4 != 3 then Stop(0, d0) else
    var d1 := Load(mem, PageAddr(d0) + 8 * PudIndex(va));
    if d1 % 4 != 3 then Stop(1, d1) else
    var d2 := Load(mem, PageAddr(d1) + 8 * PmdIndex(va));
    if d2 % 4 != 3 then Stop(2, d2) else
    Stop(3, Load(mem, PageAddr(d2) + 8 * PteIndex(va)))
  }

  /** The output address and attributes of a leaf; levels 1 and 2 have blocks, level 3 pages. */
  function Decode(st: Stop, va: nat): Translation {
    if st.level == 3 && st.desc % 4 == 3 then Mapped(PageAddr(st.desc) + va % PAGE_SIZE, Attrs(st.desc))
    else if st.level == 2 && st.desc % 4 == 1 then
      Mapped(PageAddr(st.desc) / PMD_SIZE * PMD_SIZE + va % PMD_SIZE, Attrs(st.desc))
    else if st.level == 1 && st.desc % 4 == 1 then
      Mapped(PageAddr(st.desc) / PUD_SIZE * PUD_SIZE + va % PUD_SIZE, Attrs(st.desc))
    else Fault
  }

  function Walk(mem: Mem, root: nat, va: nat): Translation {
    Decode(WalkStop(mem, root, va), va)
  }

  // ---------- the table tree ----------

  datatype Key = Key(level: nat, n: nat)

  type Tables = map<Key, nat>

  /** The address of entry s of a level. */
  function Slot(tab: Tables, level: nat, s: nat): nat
    requires Key(level, s / 512) in tab
  {
    tab[Key(level, s / 512)] + 8 * (s % 512)
  }

  function Entry(mem: Mem, tab: Tables, level: nat, s: nat): nat
    requires Key(level, s / 512) in tab
  {
    Load(mem, Slot(tab, level, s))
  }

  /** A table is an aligned page; below the root its parent entry points to it. */
  ghost predicate KeyOk(mem: Mem, tab: Tables, k: Key)
    requires k in tab
  {
    && k.level <= 3
    && tab[k] % PAGE_SIZE == 0 && tab[k] < VA_LIMIT
    && (k.level == 0 ==> k.n == 0)
    && (k.level > 0 ==>
          && Key(k.level - 1, k.n / 512) in tab
          && Entry(mem, tab, k.level - 1, k.n) == tab[k] + 3)
  }

  /** An entry with no table below it is empty, or a block at level 1 or 2. */
  ghost predicate SlotOk(mem: Mem, tab: Tables, level: nat, s: nat) {
    level < 3 && Key(level, s / 512) in tab && Key(level + 1, s) !in tab ==>
      Entry(mem, tab, level, s) == 0 || (level > 0 && Entry(mem, tab, level, s) % 4 == 1)
  }

  /** The page of the table at j has no other position. */
  ghost predicate Alone(tab: Tables, j: Key)
    requires j in tab
  {
    forall k {:trigger tab[k]} :: k in tab && tab[k] == tab[j] ==> k == j
  }

  ghost predicate Tree(mem: Mem, tab: Tables, root: nat) {
    && Key(0, 0) in tab && tab[Key(0, 0)] == root
    && (forall k {:trigger Alone(tab, k)} :: k in tab ==> Alone(tab, k))
    && (forall k {:trigger KeyOk(mem, tab, k)} :: k in tab ==> KeyOk(mem, tab, k))
    && (forall level, s :: SlotOk(mem, tab, level, s))
  }

  /** Every table except the root hangs from exactly one entry of one table. */
  lemma OneParent(mem: Mem, tab: Tables, root: nat, level: nat, s: nat, level': nat, s': nat)
    requires Tree(mem, tab, root)
    requires level < 3 && Key(level, s / 512) in tab && Entry(mem, tab, level, s) % 4 == 3
    requires level' < 3 && Key(level', s' / 512) in tab && Entry(mem, tab, level', s') % 4 == 3
    requires PageAddr(Entry(mem, tab, level, s)) == PageAddr(Entry(mem, tab, level', s'))
    ensures level == level' && s == s'
  {
    EntryIsTable(mem, tab, root, level, s);
    EntryIsTable(mem, tab, root, level', s');
    assert Alone(tab, Key(level + 1, s));
  }

  lemma TableAddr(p: nat)
    requires p % PAGE_SIZE == 0 && p < VA_LIMIT
    ensures PageAddr(p + 3) == p && (p + 3) % 4 == 3
  {
    DescFields(p, 3);
  }

  /** An entry of table type leads to the table recorded below it, and only then. */
  lemma EntryIsTable(mem: Mem, tab: Tables, root: nat, level: nat, s: nat)
    requires Tree(mem, tab, root) && level < 3 && Key(level, s / 512) in tab
    ensures Entry(mem, tab, level, s) % 4 == 3 <==> Key(level + 1, s) in tab
    ensures Key(level + 1, s) in tab ==> PageAddr(Entry(mem, tab, level, s)) == tab[Key(level + 1, s)]
  {
    assert SlotOk(mem, tab, level, s);
    if Key(level + 1, s) in tab {
      assert KeyOk(mem, tab, Key(level + 1, s));
      TableAddr(tab[Key(level + 1, s)]);
    }
  }

  // ---------- the walk in terms of the tree ----------

  /** The walk of va stops at the deepest table the tree has for va. */
  ghost function TreeStop(mem: Mem, tab: Tables, va: nat): Stop
    requires Key(0, 0) in tab && va < VA_LIMIT
  {
    if Key(3, va / PMD_SIZE) in tab then
      Nest(va); Stop(3, Entry(mem, tab, 3, va / PAGE_SIZE))
    else if Key(2, va / PUD_SIZE) in tab then
      Nest(va); Stop(2, Entry(mem, tab, 2, va / PMD_SIZE))
    else if Key(1, va / PGDIR_SIZE) in tab then
      Nest(va); Stop(1, Entry(mem, tab, 1, va / PUD_SIZE))
    else
      Nest(va); Stop(0, Entry(mem, tab, 0, va / PGDIR_SIZE))
  }

  lemma Nest(va: nat)
    requires va < VA_LIMIT
    ensures va / PAGE_SIZE / 512 == va / PMD_SIZE
    ensures va / PMD_SIZE / 512 == va / PUD_SIZE
    ensures va / PUD_SIZE / 512 == va / PGDIR_SIZE
    ensures va / PGDIR_SIZE / 512 == 0
  {
  }

  lemma ParentPresent(mem: Mem, tab: Tables, root: nat, va: nat)
    requires Tree(mem, tab, root) && va < VA_LIMIT
    ensures Key(3, va / PMD_SIZE) in tab ==> Key(2, va / PUD_SIZE) in tab
    ensures Key(2, va / PUD_SIZE) in tab ==> Key(1, va / PGDIR_SIZE) in tab
  {
    Nest(va);
    if Key(3, va / PMD_SIZE) in tab { assert KeyOk(mem, tab, Key(3, va / PMD_SIZE)); }
    if Key(2, va / PUD_SIZE) in tab { assert KeyOk(mem, tab, Key(2, va / PUD_SIZE)); }
  }

  lemma WalkInTree(mem: Mem, tab: Tables, root: nat, va: nat)
    requires Tree(mem, tab, root) && va < VA_LIMIT
    ensures WalkStop(mem, root, va) == TreeStop(mem, tab, va)
  {
    Nest(va);
    ParentPresent(mem, tab, root, va);
    EntryIsTable(mem, tab, root, 0, va / PGDIR_SIZE);
    if Key(1, va / PGDIR_SIZE) in tab {
      EntryIsTable(mem, tab, root, 1, va / PUD_SIZE);
      var p1 := tab[Key(1, va / PGDIR_SIZE)];
      if Key(2, va / PUD_SIZE) in tab {
        EntryIsTable(mem, tab, root, 2, va / PMD_SIZE);
        WalkBelow(mem, root, va, p1, tab[Key(2, va / PUD_SIZE)]);
      }
    }
  }

  /** A walk that has gone down to the level 2 table at p2. */
  lemma WalkBelow(mem: Mem, root: nat, va: nat, p1: nat, p2: nat)
    requires Load(mem, root + 8 * PgdIndex(va)) % 4 == 3 && PageAddr(Load(mem, root + 8 * PgdIndex(va))) == p1
    requires Load(mem, p1 + 8 * PudIndex(va)) % 4 == 3 && PageAddr(Load(mem, p1 + 8 * PudIndex(va))) == p2
    ensures var d := Load(mem, p2 + 8 * PmdIndex(va));
            WalkStop(mem, root, va) ==
              if d % 4 != 3 then Stop(2, d) else Stop(3, Load(mem, PageAddr(d) + 8 * PteIndex(va)))
  {
  }

  // ---------- stores into the tree ----------

  /** Aligned table pages place different entries at different addresses. */
  lemma SlotsApart(mem: Mem, tab: Tables, root: nat, level: nat, s: nat, level': nat, s': nat)
    requires Tree(mem, tab, root)
    requires Key(level, s / 512) in tab && Key(level', s' / 512) in tab
    requires Slot(tab, level, s) == Slot(tab, level', s')
    ensures level == level' && s == s'
  {
    var k, k' := Key(level, s / 512), Key(level', s' / 512);
    assert KeyOk(mem, tab, k) && KeyOk(mem, tab, k') && Alone(tab, k);
    SameWord(tab[k], s % 512, tab[k'], s' % 512);
  }

  lemma SameWord(p: nat, i: nat, q: nat, j: nat)
    requires p % PAGE_SIZE == 0 && q % PAGE_SIZE == 0 && i < 512 && j < 512
    requires p + 8 * i == q + 8 * j
    ensures p == q && i == j
  {
  }

  lemma EntryAfterStore(mem: Mem, tab: Tables, root: nat, level: nat, s: nat, v: nat, level': nat, s': nat)
    requires Tree(mem, tab, root)
    requires Key(level, s / 512) in tab && Key(level', s' / 512) in tab
    ensures Entry(mem[Slot(tab, level, s) := v], tab, level', s') ==
            if level == level' && s == s' then v else Entry(mem, tab, level', s')
  {
    if Slot(tab, level, s) == Slot(tab, level', s') {
      SlotsApart(mem, tab, root, level, s, level', s');
    }
  }

  /** Writing a level 3 entry changes the translation of its page only. */
  lemma PageStore(mem: Mem, tab: Tables, root: nat, s: nat, v: nat)
    requires Tree(mem, tab, root) && Key(3, s / 512) in tab
    ensures var mem' := mem[Slot(tab, 3, s) := v];
            && Tree(mem', tab, root)
            && forall va :: 0 <= va < VA_LIMIT ==>
                 Walk(mem', root, va) == if va / PAGE_SIZE == s then Decode(Stop(3, v), va) else Walk(mem, root, va)
  {
    var mem' := mem[Slot(tab, 3, s) := v];
    forall k | k in tab ensures KeyOk(mem', tab, k) {
      assert KeyOk(mem, tab, k);
      if k.level > 0 { EntryAfterStore(mem, tab, root, 3, s, v, k.level - 1, k.n); }
    }
    forall level: nat, s': nat ensures SlotOk(mem', tab, level, s') {
      assert SlotOk(mem, tab, level, s');
      if level < 3 && Key(level, s' / 512) in tab { EntryAfterStore(mem, tab, root, 3, s, v, level, s'); }
    }
    forall va | 0 <= va < VA_LIMIT
      ensures Walk(mem', root, va) == if va / PAGE_SIZE == s then Decode(Stop(3, v), va) else Walk(mem, root, va)
    {
      WalkAfterPage(mem, mem', tab, root, s, v, va);
    }
  }

  lemma WalkAfterPage(mem: Mem, mem': Mem, tab: Tables, root: nat, s: nat, v: nat, va: nat)
    requires Tree(mem, tab, root) && Tree(mem', tab, root) && va < VA_LIMIT
    requires Key(3, s / 512) in tab && mem' == mem[Slot(tab, 3, s) := v]
    ensures Walk(mem', root, va) == if va / PAGE_SIZE == s then Decode(Stop(3, v), va) else Walk(mem, root, va)
  {
    Nest(va);
    WalkInTree(mem, tab, root, va);
    WalkInTree(mem', tab, root, va);
    if Key(3, va / PMD_SIZE) in tab { EntryAfterStore(mem, tab, root, 3, s, v, 3, va / PAGE_SIZE); }
    else if Key(2, va / PUD_SIZE) in tab { EntryAfterStore(mem, tab, root, 3, s, v, 2, va / PMD_SIZE); }
    else if Key(1, va / PGDIR_SIZE) in tab { EntryAfterStore(mem, tab, root, 3, s, v, 1, va / PUD_SIZE); }
    else { EntryAfterStore(mem, tab, root, 3, s, v, 0, va / PGDIR_SIZE); }
  }

  lemma WalkAfterSection(mem: Mem, mem': Mem, tab: Tables, tab': Tables, root: nat, s: nat, v: nat, va: nat)
    requires Tree(mem, tab, root) && Tree(mem', tab', root) && tab' == tab - {Key(3, s)} && va < VA_LIMIT
    requires Key(2, s / 512) in tab && mem' == mem[Slot(tab, 2, s) := v]
    ensures Walk(mem', root, va) == if va / PMD_SIZE == s then Decode(Stop(2, v), va) else Walk(mem, root, va)
  {
    WalkInTree(mem, tab, root, va);
    WalkInTree(mem', tab', root, va);
    if va / PMD_SIZE == s {
      StopAtSection(mem, mem', tab, tab', root, s, v, va);
    } else {
      StopAfterSection(mem, mem', tab, tab', root, s, v, va);
    }
  }

  lemma StopAtSection(mem: Mem, mem': Mem, tab: Tables, tab': Tables, root: nat, s: nat, v: nat, va: nat)
    requires Tree(mem, tab, root) && Tree(mem', tab', root) && tab' == tab - {Key(3, s)}
    requires va < VA_LIMIT && va / PMD_SIZE == s
    requires Key(2, s / 512) in tab && mem' == mem[Slot(tab, 2, s) := v]
    ensures TreeStop(mem', tab', va) == Stop(2, v)
  {
    Nest(va);
    assert Key(3, s) !in tab' && Key(2, s / 512) in tab';
    EntryAfterSection(mem, tab, tab', root, s, v, 2, s);
  }

  lemma EntryAfterSection(mem: Mem, tab: Tables, tab': Tables, root: nat, s: nat, v: nat, level: nat, s': nat)
    requires Tree(mem, tab, root) && tab' == tab - {Key(3, s)}
    requires Key(2, s / 512) in tab && Key(level, s' / 512) in tab'
    ensures Key(level, s' / 512) in tab
    ensures Entry(mem[Slot(tab, 2, s) := v], tab', level, s') ==
            if level == 2 && s' == s then v else Entry(mem, tab, level, s')
  {
    EntryAfterStore(mem, tab, root, 2, s, v, level, s');
  }

  lemma StopAfterSection(mem: Mem, mem': Mem, tab: Tables, tab': Tables, root: nat, s: nat, v: nat, va: nat)
    requires Tree(mem, tab, root) && Tree(mem', tab', root) && tab' == tab - {Key(3, s)}
    requires va < VA_LIMIT && va / PMD_SIZE != s
    requires Key(2, s / 512) in tab && mem' == mem[Slot(tab, 2, s) := v]
    ensures TreeStop(mem', tab', va) == TreeStop(mem, tab, va)
  {
    Nest(va);
    assert Key(3, va / PMD_SIZE) in tab' <==> Key(3, va / PMD_SIZE) in tab;
    if Key(3, va / PMD_SIZE) in tab' { EntryAfterSection(mem, tab, tab', root, s, v, 3, va / PAGE_SIZE); }
    else if Key(2, va / PUD_SIZE) in tab' { EntryAfterSection(mem, tab, tab', root, s, v, 2, va / PMD_SIZE); }
    else if Key(1, va / PGDIR_SIZE) in tab' { EntryAfterSection(mem, tab, tab', root, s, v, 1, va / PUD_SIZE); }
    else { EntryAfterSection(mem, tab, tab', root, s, v, 0, va / PGDIR_SIZE); }
  }

  lemma SectionKeyOk(mem: Mem, mem': Mem, tab: Tables, tab': Tables, root: nat, s: nat, v: nat, k: Key)
    requires Tree(mem, tab, root) && tab' == tab - {Key(3, s)}
    requires Key(2, s / 512) in tab && mem' == mem[Slot(tab, 2, s) := v] && v % 4 == 1
    requires k in tab'
    ensures KeyOk(mem', tab', k)
  {
    assert KeyOk(mem, tab, k);
    if k.level > 0 {
      assert Key(k.level - 1, k.n / 512) in tab';
      EntryAfterSection(mem, tab, tab', root, s, v, k.level - 1, k.n);
    }
  }

  lemma SectionKeepsTree(mem: Mem, mem': Mem, tab: Tables, tab': Tables, root: nat, s: nat, v: nat)
    requires Tree(mem, tab, root) && tab' == tab - {Key(3, s)}
    requires Key(2, s / 512) in tab && mem' == mem[Slot(tab, 2, s) := v] && v % 4 == 1
    ensures Tree(mem', tab', root)
  {
    forall k | k in tab' ensures KeyOk(mem', tab', k) && Alone(tab', k) {
      SectionKeyOk(mem, mem', tab, tab', root, s, v, k);
      assert Alone(tab, k);
    }
    forall level: nat, s': nat ensures SlotOk(mem', tab', level, s') {
      assert SlotOk(mem, tab, level, s');
      if level < 3 && Key(level, s' / 512) in tab' { EntryAfterSection(mem, tab, tab', root, s, v, level, s'); }
    }
  }

  /** Writing a section changes the translation of its 2 MB only, and drops a table below it. */
  lemma SectionStore(mem: Mem, tab: Tables, root: nat, s: nat, v: nat)
    requires Tree(mem, tab, root) && Key(2, s / 512) in tab && v % 4 == 1
    ensures var mem' := mem[Slot(tab, 2, s) := v];
            && Tree(mem', tab - {Key(3, s)}, root)
            && forall va :: 0 <= va < VA_LIMIT ==>
                 Walk(mem', root, va) == if va / PMD_SIZE == s then Decode(Stop(2, v), va) else Walk(mem, root, va)
  {
    var mem' := mem[Slot(tab, 2, s) := v];
    SectionKeepsTree(mem, mem', tab, tab - {Key(3, s)}, root, s, v);
    forall va | 0 <= va < VA_LIMIT
      ensures Walk(mem', root, va) == if va / PMD_SIZE == s then Decode(Stop(2, v), va) else Walk(mem, root, va)
    {
      WalkAfterSection(mem, mem', tab, tab - {Key(3, s)}, root, s, v, va);
    }
  }

  /** memset(p, 0, PAGE_SIZE), seen as words. */
  function ZeroPage(mem: Mem, p: nat): (mem': Mem)
    ensures forall i :: 0 <= i < 512 ==> Load(mem', p + 8 * i) == 0
    ensures forall a :: !(p <= a < p + PAGE_SIZE) ==> Load(mem', a) == Load(mem, a)
  {
    map a | a in mem && !(p <= a < p + PAGE_SIZE) :: mem[a]
  }

  lemma TableKeyOk(mem: Mem, mem': Mem, tab: Tables, tab': Tables, root: nat, level: nat, s: nat, p: nat, k: Key)
    requires Tree(mem, tab, root) && level < 3 && Key(level, s / 512) in tab && Key(level + 1, s) !in tab
    requires p % PAGE_SIZE == 0 && p < VA_LIMIT && p !in tab.Values
    requires mem' == ZeroPage(mem, p)[Slot(tab, level, s) := p + 3] && tab' == tab[Key(level + 1, s) := p]
    requires k in tab'
    ensures KeyOk(mem', tab', k)
  {
    if k in tab { assert KeyOk(mem, tab, k); }
    if k.level > 0 {
      assert Key(k.level - 1, k.n / 512) in tab;
      EntryAfterTable(mem, tab, root, level, s, p, k.level - 1, k.n);
    }
  }

  lemma TableSlotOk(mem: Mem, mem': Mem, tab: Tables, tab': Tables, root: nat, level: nat, s: nat, p: nat,
                    level': nat, s': nat)
    requires Tree(mem, tab, root) && level < 3 && Key(level, s / 512) in tab && Key(level + 1, s) !in tab
    requires p % PAGE_SIZE == 0 && p < VA_LIMIT && p !in tab.Values
    requires mem' == ZeroPage(mem, p)[Slot(tab, level, s) := p + 3] && tab' == tab[Key(level + 1, s) := p]
    ensures SlotOk(mem', tab', level', s')
  {
    assert SlotOk(mem, tab, level', s');
    if level' < 3 && Key(level', s' / 512) in tab' { EntryAfterTable(mem, tab, root, level, s, p, level', s'); }
  }

  lemma TableKeepsTree(mem: Mem, tab: Tables, root: nat, level: nat, s: nat, p: nat)
    requires Tree(mem, tab, root) && level < 3 && Key(level, s / 512) in tab && Key(level + 1, s) !in tab
    requires p % PAGE_SIZE == 0 && p < VA_LIMIT && p !in tab.Values
    ensures Tree(ZeroPage(mem, p)[Slot(tab, level, s) := p + 3], tab[Key(level + 1, s) := p], root)
  {
    var mem' := ZeroPage(mem, p)[Slot(tab, level, s) := p + 3];
    var tab' := tab[Key(level + 1, s) := p];
    forall j | j in tab' ensures Alone(tab', j) {
      forall k | k in tab' && tab'[k] == tab'[j] ensures k == j {
        if j in tab { assert Alone(tab, j) && tab[j] in tab.Values; }
        if k in tab { assert tab[k] in tab.Values; }
      }
    }
    forall k | k in tab' ensures KeyOk(mem', tab', k) {
      TableKeyOk(mem, mem', tab, tab', root, level, s, p, k);
    }
    forall level': nat, s': nat ensures SlotOk(mem', tab', level', s') {
      TableSlotOk(mem, mem', tab, tab', root, level, s, p, level', s');
    }
  }

  /** Hanging a fresh zeroed page below an empty entry changes no translation. */
  lemma TableStore(mem: Mem, tab: Tables, root: nat, level: nat, s: nat, p: nat)
    requires Tree(mem, tab, root) && level < 3 && Key(level, s / 512) in tab
    requires Entry(mem, tab, level, s) == 0
    requires p % PAGE_SIZE == 0 && p < VA_LIMIT && p !in tab.Values
    ensures var mem' := ZeroPage(mem, p)[Slot(tab, level, s) := p + 3];
            && Key(level + 1, s) !in tab
            && Tree(mem', tab[Key(level + 1, s) := p], root)
            && forall va :: 0 <= va < VA_LIMIT ==> Walk(mem', root, va) == Walk(mem, root, va)
  {
    var mem' := ZeroPage(mem, p)[Slot(tab, level, s) := p + 3];
    EntryIsTable(mem, tab, root, level, s);
    TableKeepsTree(mem, tab, root, level, s, p);
    forall va | 0 <= va < VA_LIMIT ensures Walk(mem', root, va) == Walk(mem, root, va) {
      WalkAfterTable(mem, mem', tab, tab[Key(level + 1, s) := p], root, level, s, p, va);
    }
  }

  /** The entries of the new table are empty. */
  lemma EntryOfNewTable(mem: Mem, tab: Tables, root: nat, level: nat, s: nat, p: nat, s': nat)
    requires Tree(mem, tab, root) && level < 3 && Key(level, s / 512) in tab && Key(level + 1, s) !in tab
    requires p % PAGE_SIZE == 0 && p !in tab.Values && s' / 512 == s
    ensures Entry(ZeroPage(mem, p)[Slot(tab, level, s) := p + 3], tab[Key(level + 1, s) := p], level + 1, s') == 0
  {
    var k := Key(level, s / 512);
    assert KeyOk(mem, tab, k) && tab[k] in tab.Values;
    NotInNewPage(tab[k], s % 512, p);
  }

  lemma EntryAfterTable(mem: Mem, tab: Tables, root: nat, level: nat, s: nat, p: nat, level': nat, s': nat)
    requires Tree(mem, tab, root) && level < 3 && Key(level, s / 512) in tab && Key(level + 1, s) !in tab
    requires p % PAGE_SIZE == 0 && p !in tab.Values
    requires Key(level', s' / 512) in tab[Key(level + 1, s) := p]
    ensures Entry(ZeroPage(mem, p)[Slot(tab, level, s) := p + 3], tab[Key(level + 1, s) := p], level', s') ==
            if level == level' && s == s' then p + 3
            else if level' == level + 1 && s' / 512 == s then 0
            else Entry(mem, tab, level', s')
  {
    var k' := Key(level', s' / 512);
    if k' == Key(level + 1, s) {
      EntryOfNewTable(mem, tab, root, level, s, p, s');
    } else {
      EntryElsewhere(mem, tab, root, level, s, p, level', s');
    }
  }

  lemma EntryElsewhere(mem: Mem, tab: Tables, root: nat, level: nat, s: nat, p: nat, level': nat, s': nat)
    requires Tree(mem, tab, root) && Key(level, s / 512) in tab && Key(level', s' / 512) in tab
    requires p % PAGE_SIZE == 0 && p !in tab.Values
    ensures Load(ZeroPage(mem, p)[Slot(tab, level, s) := p + 3], Slot(tab, level', s')) ==
            if level == level' && s == s' then p + 3 else Entry(mem, tab, level', s')
  {
    var k' := Key(level', s' / 512);
    assert KeyOk(mem, tab, k') && tab[k'] in tab.Values;
    NotInNewPage(tab[k'], s' % 512, p);
    if Slot(tab, level, s) == Slot(tab, level', s') { SlotsApart(mem, tab, root, level, s, level', s'); }
  }

  lemma NotInNewPage(q: nat, i: nat, p: nat)
    requires q % PAGE_SIZE == 0 && p % PAGE_SIZE == 0 && p != q && i < 512
    ensures !(p <= q + 8 * i < p + PAGE_SIZE)
  {
  }

  lemma WalkAfterTable(mem: Mem, mem': Mem, tab: Tables, tab': Tables, root: nat, level: nat, s: nat, p: nat, va: nat)
    requires Tree(mem, tab, root) && Tree(mem', tab', root) && va < VA_LIMIT
    requires level < 3 && Key(level, s / 512) in tab && Key(level + 1, s) !in tab
    requires Entry(mem, tab, level, s) == 0 && p % PAGE_SIZE == 0 && p !in tab.Values
    requires mem' == ZeroPage(mem, p)[Slot(tab, level, s) := p + 3] && tab' == tab[Key(level + 1, s) := p]
    ensures Walk(mem', root, va) == Walk(mem, root, va)
  {
    WalkInTree(mem, tab, root, va);
    WalkInTree(mem', tab', root, va);
    StopAfterTable(mem, mem', tab, tab', root, level, s, p, va);
  }

  /** The walk stops where it did, or one level lower at another empty entry. */
  lemma StopAfterTable(mem: Mem, mem': Mem, tab: Tables, tab': Tables, root: nat, level: nat, s: nat, p: nat, va: nat)
    requires Tree(mem, tab, root) && Tree(mem', tab', root) && va < VA_LIMIT
    requires level < 3 && Key(level, s / 512) in tab && Key(level + 1, s) !in tab
    requires Entry(mem, tab, level, s) == 0 && p % PAGE_SIZE == 0 && p !in tab.Values
    requires mem' == ZeroPage(mem, p)[Slot(tab, level, s) := p + 3] && tab' == tab[Key(level + 1, s) := p]
    ensures || TreeStop(mem', tab', va) == TreeStop(mem, tab, va)
            || (TreeStop(mem', tab', va).desc == 0 && TreeStop(mem, tab, va).desc == 0)
  {
    Nest(va);
    ParentPresent(mem, tab, root, va);
    ParentPresent(mem', tab', root, va);
    if Key(3, va / PMD_SIZE) in tab' { EntryAfterTable(mem, tab, root, level, s, p, 3, va / PAGE_SIZE); }
    else if Key(2, va / PUD_SIZE) in tab' { EntryAfterTable(mem, tab, root, level, s, p, 2, va / PMD_SIZE); }
    else if Key(1, va / PGDIR_SIZE) in tab' { EntryAfterTable(mem, tab, root, level, s, p, 1, va / PUD_SIZE); }
    else { EntryAfterTable(mem, tab, root, level, s, p, 0, va / PGDIR_SIZE); }
  }

  /** A zeroed root page is a tree of one table, and every walk of it faults. */
  lemma EmptyTree(mem: Mem, root: nat)
    requires root % PAGE_SIZE == 0 && root < VA_LIMIT
    ensures Tree(ZeroPage(mem, root), map[Key(0, 0) := root], root)
    ensures forall va :: 0 <= va < VA_LIMIT ==> Walk(ZeroPage(mem, root), root, va) == Fault
  {
    var mem', tab := ZeroPage(mem, root), map[Key(0, 0) := root];
    forall level: nat, s: nat ensures SlotOk(mem', tab, level, s) {
      if level < 3 && Key(level, s / 512) in tab {
        assert Entry(mem', tab, level, s) == Load(mem', root + 8 * (s % 512));
      }
    }
    forall va | 0 <= va < VA_LIMIT ensures Walk(mem', root, va) == Fault {
      assert Load(mem', root + 8 * PgdIndex(va)) == 0;
    }
  }
}
