/**
 The physical page allocator of mm/page_alloc.c: a bitmap scanned from the
 lowest page. The class keeps the array and the scan loop of the source; the
 functions on its contents carry the properties over whole runs.
 */
module PageAlloc {
  import opened Pgtable

  const LOW_MEMORY: nat := 0x40_0000
  const TOTAL_MEMORY: nat := 0x2000_0000
  const NR_PAGES: nat := 0x2_0000

  function PageOf(i: nat): nat {
    LOW_MEMORY + i * PAGE_SIZE
  }

  function IndexOf(p: nat): nat
    requires p >= LOW_MEMORY
  {
    (p - LOW_MEMORY) / PAGE_SIZE
  }

  /** A page the allocator manages. */
  predicate Managed(p: nat) {
    LOW_MEMORY <= p < LOW_MEMORY + NR_PAGES * PAGE_SIZE && p % PAGE_SIZE == 0
  }

  lemma PageIndex(i: nat)
    requires i < NR_PAGES
    ensures Managed(PageOf(i)) && IndexOf(PageOf(i)) == i
  {
  }

  lemma IndexPage(p: nat)
    requires Managed(p)
    ensures IndexOf(p) < NR_PAGES && PageOf(IndexOf(p)) == p
  {
  }

  /** The lowest zero entry, or the length when there is none. */
  function FirstFree(m: seq<nat>): (r: nat)
    ensures r <= |m|
    ensures forall i :: 0 <= i < r ==> m[i] != 0
    ensures r < |m| ==> m[r] == 0
  {
    if m == [] then 0
    else if m[0] == 0 then 0
    else 1 + FirstFree(m[1..])
  }

  function FreeCount(m: seq<nat>): nat {
    if m == [] then 0 else (if m[0] == 0 then 1 else 0) + FreeCount(m[1..])
  }

  /** The page at p is in use. */
  ghost predicate Marked(m: seq<nat>, p: nat) {
    Managed(p) && IndexOf(p) < |m| && m[IndexOf(p)] != 0
  }

  /** Taking the lowest free page marks that page, which was not in use, and no other. */
  lemma TakeFirst(m: seq<nat>, i: nat, m': seq<nat>)
    requires |m| == NR_PAGES && i == FirstFree(m) < NR_PAGES && m' == m[i := 1]
    ensures Managed(PageOf(i)) && !Marked(m, PageOf(i)) && FreeCount(m') == FreeCount(m) - 1
    ensures forall p :: Marked(m', p) <==> Marked(m, p) || p == PageOf(i)
  {
    PageIndex(i);
    FreeCountUpdate(m, i, 1);
    forall p | Managed(p) ensures IndexOf(p) < NR_PAGES && PageOf(IndexOf(p)) == p { IndexPage(p); }
  }

  lemma {:induction false} FreeCountUpdate(m: seq<nat>, i: nat, v: nat)
    requires i < |m|
    ensures FreeCount(m[i := v]) ==
            FreeCount(m) - (if m[i] == 0 then 1 else 0) + (if v == 0 then 1 else 0)
  {
    if i == 0 {
      assert m[0 := v][1..] == m[1..];
    } else {
      assert m[i := v][1..] == m[1..][i - 1 := v];
      FreeCountUpdate(m[1..], i - 1, v);
    }
  }

  lemma {:induction false} FreeCountPositive(m: seq<nat>)
    ensures FreeCount(m) > 0 <==> FirstFree(m) < |m|
    ensures FreeCount(m) <= |m|
  {
    if m != [] { FreeCountPositive(m[1..]); }
  }

  /** The scan never goes further than the number of pages in use. */
  lemma {:induction false} LowestIsPacked(m: seq<nat>)
    ensures FirstFree(m) <= |m| - FreeCount(m)
  {
    if m != [] {
      LowestIsPacked(m[1..]);
      FreeCountPositive(m[1..]);
    }
  }

  /**
   A page handed out lies below TOTAL_MEMORY, where the boot mapping reaches,
   exactly when its index is below NR_PAGES less the pages under LOW_MEMORY;
   so it does whenever fewer pages than that are held. The last 1024 pages of
   the map lie above TOTAL_MEMORY.
   */
  lemma InsideInstalledMemory(m: seq<nat>)
    requires |m| == NR_PAGES
    ensures forall i: nat :: PageOf(i) + PAGE_SIZE <= TOTAL_MEMORY <==> i < NR_PAGES - 1024
    ensures NR_PAGES - FreeCount(m) < NR_PAGES - 1024 ==> PageOf(FirstFree(m)) + PAGE_SIZE <= TOTAL_MEMORY
  {
    LowestIsPacked(m);
  }

  class PageAllocator {
    const memMap: array<nat>

    ghost predicate Valid()
      reads memMap
    {
      memMap.Length == NR_PAGES
    }

    ghost predicate Used(p: nat)
      requires Valid()
      reads memMap
    {
      Marked(memMap[..], p)
    }

    constructor ()
      ensures Valid() && fresh(memMap)
      ensures forall i :: 0 <= i < NR_PAGES ==> memMap[i] == 0
    {
      memMap := new nat[NR_PAGES](i => 0);
    }

    method GetFreePage() returns (p: nat)
      requires Valid()
      modifies memMap
      ensures var i := FirstFree(old(memMap[..]));
              if i == NR_PAGES then p == 0 && memMap[..] == old(memMap[..])
              else p == PageOf(i) && memMap[..] == old(memMap[..])[i := 1]
    {
      ghost var m := memMap[..];
      var i := 0;
      while i < NR_PAGES
        invariant 0 <= i <= NR_PAGES
        invariant memMap[..] == m
        invariant forall j :: 0 <= j < i ==> m[j] != 0
      {
        if memMap[i] == 0 {
          assert FirstFree(m) == i;
          memMap[i] := 1;
          return LOW_MEMORY + i * PAGE_SIZE;
        }
        i := i + 1;
      }
      return 0;
    }

    method FreePage(p: nat)
      requires Valid()
      requires LOW_MEMORY <= p < LOW_MEMORY + NR_PAGES * PAGE_SIZE
      modifies memMap
      ensures memMap[..] == old(memMap[..])[IndexOf(p) := 0]
    {
      memMap[(p - LOW_MEMORY) / PAGE_SIZE] := 0;
    }
  }

  // ---------- runs of the allocator by its two clients ----------

  datatype Owner = PageTables | Tasks

  datatype Grant = Grant(owner: Owner, page: nat)

  /** The bitmap together with the pages handed out and not yet freed. */
  datatype Heap = Heap(map_: seq<nat>, held: seq<Grant>)

  /** A client asks for a page, or returns its k-th outstanding one. */
  datatype Request = Alloc(owner: Owner) | Release(k: nat)

  const BOOT_HEAP := Heap(seq(NR_PAGES, i => 0), [])

  function Serve(h: Heap, r: Request): Heap
    requires |h.map_| == NR_PAGES
    requires forall g :: g in h.held ==> Managed(g.page)
  {
    match r
    case Alloc(owner) =>
      var i := FirstFree(h.map_);
      if i == NR_PAGES then h
      else Heap(h.map_[i := 1], h.held + [Grant(owner, PageOf(i))])
    case Release(k) =>
      if k >= |h.held| then h
      else
        IndexPage(h.held[k].page);
        Heap(h.map_[IndexOf(h.held[k].page) := 0], h.held[..k] + h.held[k + 1..])
  }

  /** The page of grant a is not granted again. */
  ghost predicate Sole(held: seq<Grant>, a: nat)
    requires a < |held|
  {
    forall b :: 0 <= b < |held| && held[b].page == held[a].page ==> b == a
  }

  /** Outstanding pages are managed, pairwise different, and exactly the marked ones. */
  ghost predicate Ledger(h: Heap) {
    && |h.map_| == NR_PAGES
    && (forall g :: g in h.held ==> Managed(g.page))
    && (forall a {:trigger Sole(h.held, a)} :: 0 <= a < |h.held| ==> Sole(h.held, a))
    && (forall a :: 0 <= a < |h.held| ==> h.map_[IndexOf(h.held[a].page)] != 0)
    && (forall i {:trigger Holds(h, PageOf(i))} :: 0 <= i < NR_PAGES && h.map_[i] != 0 ==> Holds(h, PageOf(i)))
  }

  ghost predicate Holds(h: Heap, p: nat) {
    exists a :: 0 <= a < |h.held| && h.held[a].page == p
  }

  lemma AllocLedger(h: Heap, h': Heap, g: Grant, i: nat)
    requires Ledger(h) && i < NR_PAGES && h.map_[i] == 0 && g.page == PageOf(i) && IndexOf(g.page) == i
    requires Managed(g.page)
    requires h' == Heap(h.map_[i := 1], h.held + [g])
    ensures Ledger(h')
  {
    forall a | 0 <= a < |h'.held| ensures Sole(h'.held, a) {
      if a < |h.held| { assert Sole(h.held, a); }
    }
    forall j | 0 <= j < NR_PAGES && h'.map_[j] != 0 ensures Holds(h', PageOf(j)) {
      if j == i {
        assert h'.held[|h.held|].page == PageOf(j);
      } else {
        assert Holds(h, PageOf(j));
        var a :| 0 <= a < |h.held| && h.held[a].page == PageOf(j);
        assert h'.held[a].page == PageOf(j);
      }
    }
  }

  lemma AllocKeepsLedger(h: Heap, owner: Owner)
    requires Ledger(h) && FirstFree(h.map_) < NR_PAGES
    ensures Ledger(Serve(h, Alloc(owner)))
  {
    var i := FirstFree(h.map_);
    PageIndex(i);
    AllocLedger(h, Heap(h.map_[i := 1], h.held + [Grant(owner, PageOf(i))]), Grant(owner, PageOf(i)), i);
  }

  /** The grants left after the k-th is returned, by their old positions. */
  function Others(held: seq<Grant>, k: nat): (r: seq<Grant>)
    requires k < |held|
    ensures |r| == |held| - 1 && forall a :: 0 <= a < |r| ==> r[a] == held[if a < k then a else a + 1]
  {
    held[..k] + held[k + 1..]
  }

  lemma ReleasedPageLeaves(h: Heap, k: nat, a: nat)
    requires Ledger(h) && k < |h.held| && a < |h.held| && a != k
    ensures Managed(h.held[a].page) && IndexOf(h.held[k].page) < NR_PAGES && IndexOf(h.held[a].page) < NR_PAGES
    ensures IndexOf(h.held[a].page) != IndexOf(h.held[k].page) && h.map_[IndexOf(h.held[a].page)] != 0
  {
    assert h.held[a] in h.held && h.held[k] in h.held;
    IndexPage(h.held[k].page);
    IndexPage(h.held[a].page);
    assert Sole(h.held, k);
  }

  lemma ReleaseKeepsHolders(h: Heap, h': Heap, k: nat, j: nat)
    requires Ledger(h) && k < |h.held| && j < NR_PAGES && h.map_[j] != 0 && PageOf(j) != h.held[k].page
    requires h'.held == Others(h.held, k)
    ensures Holds(h', PageOf(j))
  {
    assert Holds(h, PageOf(j));
    var a :| 0 <= a < |h.held| && h.held[a].page == PageOf(j);
    var b := if a < k then a else a - 1;
    assert h'.held[b] == h.held[a];
  }

  lemma OthersSole(held: seq<Grant>, k: nat, a: nat)
    requires k < |held| && a < |held| - 1 && Sole(held, if a < k then a else a + 1)
    ensures Sole(Others(held, k), a)
  {
    var r := Others(held, k);
    forall b | 0 <= b < |r| && r[b].page == r[a].page ensures b == a {
      assert r[b] == held[if b < k then b else b + 1];
    }
  }

  lemma ReleaseLedger(h: Heap, h': Heap, k: nat, i: nat)
    requires Ledger(h) && k < |h.held| && i == IndexOf(h.held[k].page) < NR_PAGES && PageOf(i) == h.held[k].page
    requires h' == Heap(h.map_[i := 0], Others(h.held, k))
    ensures Ledger(h')
  {
    forall a | 0 <= a < |h'.held| ensures Managed(h'.held[a].page) && h'.map_[IndexOf(h'.held[a].page)] != 0 {
      ReleasedPageLeaves(h, k, if a < k then a else a + 1);
    }
    forall a | 0 <= a < |h'.held| ensures Sole(h'.held, a) {
      assert Sole(h.held, if a < k then a else a + 1);
      OthersSole(h.held, k, a);
    }
    forall j | 0 <= j < NR_PAGES && h'.map_[j] != 0 ensures Holds(h', PageOf(j)) {
      PageIndex(j);
      ReleaseKeepsHolders(h, h', k, j);
    }
  }

  lemma ReleaseKeepsLedger(h: Heap, k: nat)
    requires Ledger(h) && k < |h.held|
    ensures Ledger(Serve(h, Release(k)))
  {
    var p := h.held[k].page;
    assert h.held[k] in h.held;
    IndexPage(p);
    ReleaseLedger(h, Heap(h.map_[IndexOf(p) := 0], Others(h.held, k)), k, IndexOf(p));
  }

  ghost function Run(h: Heap, rs: seq<Request>): (h': Heap)
    requires Ledger(h)
    ensures Ledger(h')
    decreases |rs|
  {
    if rs == [] then h
    else
      ServeKeepsLedger(h, rs[0]);
      Run(Serve(h, rs[0]), rs[1..])
  }

  lemma ServeKeepsLedger(h: Heap, r: Request)
    requires Ledger(h)
    ensures Ledger(Serve(h, r))
  {
    match r {
      case Alloc(owner) => if FirstFree(h.map_) < NR_PAGES { AllocKeepsLedger(h, owner); }
      case Release(k) => if k < |h.held| { ReleaseKeepsLedger(h, k); }
    }
  }

  /**
   Over every run of requests from boot, whoever made them, any two
   outstanding pages are page aligned, inside the managed window and share no
   byte; and a request is refused only when every page is outstanding.
   */
  lemma OutstandingPagesDisjoint(rs: seq<Request>)
    ensures Ledger(BOOT_HEAP)
    ensures var h := Run(BOOT_HEAP, rs);
            && (forall a :: 0 <= a < |h.held| ==> Managed(h.held[a].page))
            && (forall a, b :: 0 <= a < b < |h.held| ==>
                  || h.held[a].page + PAGE_SIZE <= h.held[b].page
                  || h.held[b].page + PAGE_SIZE <= h.held[a].page)
            && (forall owner :: Serve(h, Alloc(owner)) == h ==>
                  forall i :: 0 <= i < NR_PAGES ==> Holds(h, PageOf(i)))
  {
    var h := Run(BOOT_HEAP, rs);
    forall a, b | 0 <= a < b < |h.held|
      ensures h.held[a].page + PAGE_SIZE <= h.held[b].page || h.held[b].page + PAGE_SIZE <= h.held[a].page
    {
      assert Sole(h.held, a);
      AlignedApart(h.held[a].page, h.held[b].page);
    }
    forall owner | Serve(h, Alloc(owner)) == h
      ensures forall i :: 0 <= i < NR_PAGES ==> Holds(h, PageOf(i))
    {
      assert FirstFree(h.map_) == NR_PAGES;
    }
  }

  lemma AlignedApart(p: nat, q: nat)
    requires p != q && p % PAGE_SIZE == 0 && q % PAGE_SIZE == 0
    ensures p + PAGE_SIZE <= q || q + PAGE_SIZE <= p
  {
  }
}
