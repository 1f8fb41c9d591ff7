/**
 do_fork and wake_up_process when they are interrupted half way and the
 interrupt lets another task fork or wake: the pid table between
 find_empty_task and the store into g_task (kernel/fork.c), the list between
 the read and the stores of list_add (include/yios/list.h), and the count
 between the two lines that split it. Nothing in the source prevents these
 interruptions; each theorem says exactly which of them do no harm.
 */
module ForkRace {
  import opened PageAlloc
  import opened Lists
  import opened TaskSystem

  // ---------- the pid table ----------

  /** A task on the ring of all tasks, with its pid field. */
  datatype Entry = Entry(task: nat, pid: nat)

  /** g_task, the ring of all tasks from init_task, and the slots that forks in progress have found. */
  datatype Table = Table(slots: seq<nat>, ring: seq<Entry>, found: map<nat, nat>)

  /** The two halves of a fork by task f: find_empty_task, and the stores for the child at p. */
  datatype Half = Find(f: nat) | Store(f: nat, p: nat)

  /** A task forks one child at a time, in a page that no task has. */
  predicate Can(t: Table, h: Half) {
    match h
    case Find(f) => f !in t.found
    case Store(f, p) =>
      f in t.found && t.found[f] < |t.slots| && p != 0 && forall i :: 0 <= i < |t.ring| ==> t.ring[i].task != p
  }

  function Do(t: Table, h: Half): Table
    requires Can(t, h)
  {
    match h
    case Find(f) =>
      var pid := FirstFree(t.slots);
      if pid == |t.slots| then t else t.(found := t.found[f := pid])
    case Store(f, p) =>
      var pid := t.found[f];
      Table(t.slots[pid := p], t.ring + [Entry(p, pid)], t.found - {f})
  }

  /** The table is filled from the front in ring order, every pid is its slot, and no task occurs twice. */
  ghost predicate Good(t: Table) {
    && |t.slots| == Sched.NR_TASK && |t.ring| <= Sched.NR_TASK
    && (forall i :: 0 <= i < Sched.NR_TASK ==> t.slots[i] == if i < |t.ring| then t.ring[i].task else 0)
    && (forall i :: 0 <= i < |t.ring| ==> t.ring[i].pid == i && t.ring[i].task != 0)
    && (forall i, j :: 0 <= i < j < |t.ring| ==> t.ring[i].task != t.ring[j].task)
  }

  /** More tasks on the ring than filled slots: some store has overwritten another. */
  ghost predicate Overwritten(t: Table) {
    |t.slots| == Sched.NR_TASK && Sched.NR_TASK - FreeCount(t.slots) < |t.ring|
  }

  lemma {:induction false} FilledPrefix(slots: seq<nat>, n: nat)
    requires n <= |slots| && forall i :: 0 <= i < |slots| ==> (slots[i] != 0 <==> i < n)
    ensures |slots| - FreeCount(slots) == n && FirstFree(slots) == n
  {
    if slots != [] { FilledPrefix(slots[1..], if n > 0 then n - 1 else 0); }
  }

  /** In a good table find_empty_task finds the end of the prefix, and there is a slot for every task. */
  lemma GoodIsFilled(t: Table)
    requires Good(t)
    ensures FirstFree(t.slots) == |t.ring| && !Overwritten(t)
  {
    FilledPrefix(t.slots, |t.ring|);
  }

  ghost predicate Trace(tr: seq<Table>, hs: seq<Half>) {
    |tr| == |hs| + 1 && forall i :: 0 <= i < |hs| ==> Can(tr[i], hs[i]) && tr[i + 1] == Do(tr[i], hs[i])
  }

  /** Where f last looked for a slot before n; -1 when it did not. */
  function LastFind(hs: seq<Half>, f: nat, n: nat): (k: int)
    requires n <= |hs|
    ensures -1 <= k < n
  {
    if n == 0 then -1 else if hs[n - 1] == Find(f) then n - 1 else LastFind(hs, f, n - 1)
  }

  /** No fork stores strictly between k and n. */
  ghost predicate Quiet(hs: seq<Half>, k: int, n: nat)
    requires -1 <= k && n <= |hs|
  {
    forall i :: k < i < n ==> hs[i].Find?
  }

  /** If the n-th half is a store, no other fork has stored since that fork looked for its slot. */
  ghost predicate Undisturbed(hs: seq<Half>, n: nat)
    requires n < |hs|
  {
    hs[n].Store? ==> Quiet(hs, LastFind(hs, hs[n].f, n), n)
  }

  /** This holds of all of the first n halves. */
  ghost predicate Serial(hs: seq<Half>, n: nat)
    requires n <= |hs|
  {
    forall k {:trigger Undisturbed(hs, k)} :: 0 <= k < n ==> Undisturbed(hs, k)
  }

  /** The slot that f has found is still the first free one exactly when nobody has stored since. */
  ghost predicate Tracks(t: Table, hs: seq<Half>, n: nat, f: nat)
    requires n <= |hs|
  {
    f in t.found ==>
      t.found[f] <= |t.ring| && (t.found[f] == |t.ring| <==> Quiet(hs, LastFind(hs, f, n), n)) && t.found[f] < |t.slots|
  }

  ghost predicate GoodSoFar(t: Table, hs: seq<Half>, n: nat)
    requires n <= |hs|
  {
    Good(t) && forall f {:trigger Tracks(t, hs, n, f)} :: Tracks(t, hs, n, f)
  }

  lemma FindKeeps(t: Table, hs: seq<Half>, n: nat)
    requires n < |hs| && GoodSoFar(t, hs, n) && hs[n].Find? && Can(t, hs[n])
    ensures GoodSoFar(Do(t, hs[n]), hs, n + 1)
  {
    GoodIsFilled(t);
    var t', n' := Do(t, hs[n]), n + 1;
    forall f: nat ensures Tracks(t', hs, n', f) {
      assert Tracks(t, hs, n, f);
      if hs[n] != Find(f) && f in t.found {
        assert Quiet(hs, LastFind(hs, f, n), n') <==> Quiet(hs, LastFind(hs, f, n), n);
      }
    }
  }

  lemma StoreKeeps(t: Table, hs: seq<Half>, n: nat)
    requires n < |hs| && GoodSoFar(t, hs, n) && hs[n].Store? && Can(t, hs[n]) && Undisturbed(hs, n)
    ensures GoodSoFar(Do(t, hs[n]), hs, n + 1)
  {
    assert Tracks(t, hs, n, hs[n].f);
    var t', n' := Do(t, hs[n]), n + 1;
    forall f: nat ensures Tracks(t', hs, n', f) {
      assert Tracks(t, hs, n, f);
      assert LastFind(hs, f, n') == LastFind(hs, f, n) < n && !hs[n].Find?;
    }
  }

  /** A disturbed store overwrites the slot of another task. */
  lemma StoreOverwrites(t: Table, hs: seq<Half>, n: nat)
    requires n < |hs| && GoodSoFar(t, hs, n) && Can(t, hs[n]) && !Undisturbed(hs, n)
    ensures Overwritten(Do(t, hs[n]))
  {
    var f, p := hs[n].f, hs[n].p;
    assert Tracks(t, hs, n, f);
    FilledPrefix(t.slots, |t.ring|);
    FreeCountUpdate(t.slots, t.found[f], p);
  }

  /** No later fork repairs it. */
  lemma StaysOverwritten(t: Table, h: Half)
    requires Overwritten(t) && Can(t, h)
    ensures Overwritten(Do(t, h))
  {
    if h.Store? { FreeCountUpdate(t.slots, t.found[h.f], h.p); }
  }

  lemma SerialStep(hs: seq<Half>, m: nat)
    requires m < |hs|
    ensures Serial(hs, m + 1) <==> Serial(hs, m) && Undisturbed(hs, m)
  {
    if Serial(hs, m) && Undisturbed(hs, m) {
      forall k | 0 <= k < m + 1 ensures Undisturbed(hs, k) {}
    }
    if Serial(hs, m + 1) {
      forall k | 0 <= k <= m ensures Undisturbed(hs, k) {}
    }
  }

  lemma {:induction false} RaceSoFar(tr: seq<Table>, hs: seq<Half>, n: nat)
    requires Trace(tr, hs) && Good(tr[0]) && tr[0].found == map[] && n <= |hs|
    ensures Serial(hs, n) ==> GoodSoFar(tr[n], hs, n)
    ensures !Serial(hs, n) ==> Overwritten(tr[n])
  {
    if n > 0 {
      var m := n - 1;
      RaceSoFar(tr, hs, m);
      SerialStep(hs, m);
      if !Serial(hs, m) {
        StaysOverwritten(tr[m], hs[m]);
      } else if !Undisturbed(hs, m) {
        StoreOverwrites(tr[m], hs, m);
      } else if hs[m].Find? {
        FindKeeps(tr[m], hs, m);
      } else {
        StoreKeeps(tr[m], hs, m);
      }
    }
  }

  /**
   However the halves of forks by any number of tasks interleave, the pid
   table ends as a filled prefix in ring order with unique pids if and only if
   no fork stores between the two halves of another that stores later.
   */
  lemma TableGoodIff(tr: seq<Table>, hs: seq<Half>)
    requires Trace(tr, hs) && Good(tr[0]) && tr[0].found == map[]
    ensures Good(tr[|hs|]) <==> Serial(hs, |hs|)
  {
    RaceSoFar(tr, hs, |hs|);
    if Good(tr[|hs|]) { GoodIsFilled(tr[|hs|]); }
  }

  /** Two forks that both look before either stores give two tasks the same pid, and one of them no slot. */
  lemma TwoForksOnePid(t: Table, p: nat, q: nat) returns (tr: seq<Table>, hs: seq<Half>)
    requires Good(t) && t.found == map[] && |t.ring| < Sched.NR_TASK && p != q && p != 0 && q != 0
    requires forall i :: 0 <= i < |t.ring| ==> t.ring[i].task != p && t.ring[i].task != q
    ensures hs == [Find(1), Find(2), Store(1, p), Store(2, q)] && Trace(tr, hs) && tr[0] == t
    ensures tr[4].ring == t.ring + [Entry(p, |t.ring|), Entry(q, |t.ring|)]
    ensures tr[4].slots == t.slots[|t.ring| := q] && !Good(tr[4])
  {
    GoodIsFilled(t);
    hs := [Find(1), Find(2), Store(1, p), Store(2, q)];
    var t1 := Do(t, Find(1));
    var t2 := Do(t1, Find(2));
    var t3 := Do(t2, Store(1, p));
    var t4 := Do(t3, Store(2, q));
    tr := [t, t1, t2, t3, t4];
    assert t4.ring[|t.ring| + 1].pid == |t.ring|;
  }

  ghost function Entries(ptrs: seq<nat>): (r: seq<Entry>)
    ensures |r| == |ptrs| && forall i :: 0 <= i < |ptrs| ==> r[i] == Entry(ptrs[i], i)
  {
    seq(|ptrs|, i requires 0 <= i < |ptrs| => Entry(ptrs[i], i))
  }

  /** The pid table of a valid kernel is good, so the theorem starts from every state of the task system. */
  lemma KernelTableGood(k: Kernel)
    requires k.Valid()
    ensures Good(Table(k.gTask[..], Entries(k.ring.ptrs), map[]))
  {
    var ptrs := k.ring.ptrs;
    forall i | 0 <= i < |ptrs| ensures ptrs[i] != 0 && Once(ptrs, i) {
      if i > 0 { assert k.alloc.Used(ptrs[i]); }
    }
    var t := Table(k.gTask[..], Entries(ptrs), map[]);
    forall i, j | 0 <= i < j < |t.ring| ensures t.ring[i].task != t.ring[j].task { assert Once(ptrs, i); }
  }

  // ---------- the list ----------

  datatype Heads = Heads(next: Links, prev: Links)

  /** The j-th store of __list_add(x, head, after). */
  function StoreLink(h: Heads, x: nat, head: nat, after: nat, j: nat): Heads {
    if j == 0 then h.(prev := h.prev[after := x])
    else if j == 1 then h.(next := h.next[x := after])
    else if j == 2 then h.(prev := h.prev[x := head])
    else h.(next := h.next[head := x])
  }

  /** Its stores from the a-th on, before the b-th. */
  function StoreLinks(h: Heads, x: nat, head: nat, after: nat, a: nat, b: nat): Heads
    decreases b - a
  {
    if a >= b then h else StoreLinks(StoreLink(h, x, head, after, a), x, head, after, a + 1, b)
  }

  /** list_add without interruption. */
  function Added(h: Heads, x: nat, head: nat): Heads
    requires head in h.next
  {
    StoreLinks(h, x, head, h.next[head], 0, 4)
  }

  /** list_add of x, in which list_add of y runs after the first j stores. */
  function Interrupted(h: Heads, x: nat, y: nat, head: nat, j: nat): Heads
    requires head in h.next && j <= 4
  {
    var after := h.next[head];
    var h1 := StoreLinks(h, x, head, after, 0, j);
    PartHasHead(h, x, head, after, j);
    StoreLinks(Added(h1, y, head), x, head, after, j, 4)
  }

  /** The head keeps its next pointer until the last store. */
  lemma PartHasHead(h: Heads, x: nat, head: nat, after: nat, j: nat)
    requires head in h.next && j <= 4
    ensures head in StoreLinks(h, x, head, after, 0, j).next
    ensures x != head && j < 4 ==> StoreLinks(h, x, head, after, 0, j).next[head] == h.next[head]
  {
    StoresDone(h, x, head, after);
    StoresOne(h, x, head, after);
  }

  lemma StoresDone(h: Heads, x: nat, head: nat, after: nat)
    ensures StoreLinks(h, x, head, after, 0, 0) == h
    ensures StoreLinks(h, x, head, after, 4, 4) == h
    ensures StoreLinks(h, x, head, after, 3, 4) == Heads(h.next[head := x], h.prev)
    ensures StoreLinks(h, x, head, after, 2, 4) == Heads(h.next[head := x], h.prev[x := head])
    ensures StoreLinks(h, x, head, after, 1, 4) == Heads(h.next[x := after][head := x], h.prev[x := head])
    ensures StoreLinks(h, x, head, after, 0, 4) ==
            Heads(h.next[x := after][head := x], h.prev[after := x][x := head])
  {
    var h0 := StoreLink(h, x, head, after, 0);
    var h1 := StoreLink(h0, x, head, after, 1);
    var h2 := StoreLink(h1, x, head, after, 2);
    assert StoreLinks(h, x, head, after, 3, 4) == StoreLinks(StoreLink(h, x, head, after, 3), x, head, after, 4, 4);
    assert StoreLinks(h2, x, head, after, 3, 4) == StoreLinks(StoreLink(h2, x, head, after, 3), x, head, after, 4, 4);
  }

  lemma StoresOne(h: Heads, x: nat, head: nat, after: nat)
    ensures StoreLinks(h, x, head, after, 0, 1) == Heads(h.next, h.prev[after := x])
    ensures StoreLinks(h, x, head, after, 0, 2) == Heads(h.next[x := after], h.prev[after := x])
    ensures StoreLinks(h, x, head, after, 0, 3) == Heads(h.next[x := after], h.prev[after := x][x := head])
  {
    var h0 := StoreLink(h, x, head, after, 0);
    var h1 := StoreLink(h0, x, head, after, 1);
    assert StoreLinks(h0, x, head, after, 1, 1) == h0;
    assert StoreLinks(h0, x, head, after, 1, 2) == StoreLinks(h1, x, head, after, 2, 2);
    assert StoreLinks(h1, x, head, after, 2, 3) == StoreLinks(StoreLink(h1, x, head, after, 2), x, head, after, 3, 3);
  }

  /** Interrupted anywhere before its last store, list_add of x writes the head last, as if y had not been there. */
  lemma InterruptedLinks(h: Heads, x: nat, y: nat, head: nat, j: nat)
    requires head in h.next && j < 4 && x != head && y != head && x != y
    ensures Interrupted(h, x, y, head, j).next == h.next[x := h.next[head]][y := h.next[head]][head := x]
  {
    var after := h.next[head];
    var h1 := StoreLinks(h, x, head, after, 0, j);
    PartHasHead(h, x, head, after, j);
    var h2 := Added(h1, y, head);
    PartNext(h, x, head, after, j);
    RestNext(h1, y, head, after, 0);
    RestNext(h2, x, head, after, j);
    SameLinks(h.next, x, y, head, after);
  }

  /** The next pointers after j stores. */
  lemma PartNext(h: Heads, x: nat, head: nat, after: nat, j: nat)
    requires j < 4
    ensures StoreLinks(h, x, head, after, 0, j).next == if j < 2 then h.next else h.next[x := after]
  {
    StoresDone(h, x, head, after);
    StoresOne(h, x, head, after);
  }

  /** What the other stores do to them. */
  lemma RestNext(h: Heads, x: nat, head: nat, after: nat, j: nat)
    requires j < 4
    ensures StoreLinks(h, x, head, after, j, 4).next ==
            if j < 2 then h.next[x := after][head := x] else h.next[head := x]
  {
    StoresDone(h, x, head, after);
  }

  lemma SameLinks(next: Links, x: nat, y: nat, head: nat, after: nat)
    requires x != head && y != head && x != y
    ensures next[y := after][head := y][x := after][head := x] == next[x := after][y := after][head := x]
    ensures next[x := after][y := after][head := y][head := x] == next[x := after][y := after][head := x]
  {
  }

  /** A walk that starts in a set closed under next stays in it. */
  lemma {:induction false} FollowStays(next: Links, all: set<nat>, a: nat, n: nat)
    requires a in all && forall b :: b in all ==> b in next && next[b] in all
    ensures Follow(next, a, n) in all
    decreases n
  {
    if n > 0 { FollowStays(next, all, next[a], n - 1); }
  }

  /** The walk of the result visits x and the old nodes, and never y. */
  lemma NodeLost(h: Heads, x: nat, y: nat, head: nat, nodes: seq<nat>, j: nat, n: nat)
    requires Ring(h.next, h.prev, head, nodes) && j < 4
    requires x != head && x !in nodes && y != head && y !in nodes && x != y
    ensures head in h.next && Follow(Interrupted(h, x, y, head, j).next, head, n) != y
  {
    RingHas(h.next, h.prev, head, nodes, head);
    InterruptedLinks(h, x, y, head, j);
    var all := (set a | a in nodes) + {head, x};
    var next' := h.next[x := h.next[head]][y := h.next[head]][head := x];
    forall b | b in all ensures b in next' && next'[b] in all { StepInside(h, x, y, head, nodes, b); }
    FollowStays(next', all, head, n);
  }

  lemma StepInside(h: Heads, x: nat, y: nat, head: nat, nodes: seq<nat>, b: nat)
    requires Ring(h.next, h.prev, head, nodes) && (b in nodes || b == head || b == x)
    requires x != head && y != head && y !in nodes && x != y && head in h.next
    ensures var next' := h.next[x := h.next[head]][y := h.next[head]][head := x];
            b in next' && (next'[b] in nodes || next'[b] == head || next'[b] == x)
  {
    assert LinkedAt(h.next, h.prev, head, nodes, 0);
    InRing(head, nodes, 1);
    if b in nodes && b != x {
      var i :| 0 <= i < |nodes| && nodes[i] == b;
      assert LinkedAt(h.next, h.prev, head, nodes, i + 1);
      InRing(head, nodes, i + 2);
    }
  }

  /** A well-formed ring with y on it. */
  ghost predicate Keeps(h: Heads, head: nat, y: nat) {
    exists nodes :: y in nodes && Ring(h.next, h.prev, head, nodes)
  }

  /**
   list_add of x that is interrupted after j of its stores by list_add of y
   on the same list keeps y if and only if it was complete already: between
   the read of head->next and the last store, the other node is lost.
   */
  lemma ListAddKeepsBothIff(h: Heads, x: nat, y: nat, head: nat, nodes: seq<nat>, j: nat)
    requires Ring(h.next, h.prev, head, nodes) && j <= 4
    requires x != head && x !in nodes && y != head && y !in nodes && x != y
    ensures head in h.next && (Keeps(Interrupted(h, x, y, head, j), head, y) <==> j == 4)
  {
    RingHas(h.next, h.prev, head, nodes, head);
    var r := Interrupted(h, x, y, head, j);
    if j == 4 {
      AddedTwice(h, x, y, head, nodes);
      assert y in [y] + ([x] + nodes);
    } else if Keeps(r, head, y) {
      var nodes' :| y in nodes' && Ring(r.next, r.prev, head, nodes');
      var i :| 0 <= i < |nodes'| && nodes'[i] == y;
      FollowRing(r.next, r.prev, head, nodes', 0, i + 1);
      NodeLost(h, x, y, head, nodes, j, i + 1);
    }
  }

  lemma AddedIsRing(h: Heads, x: nat, head: nat, nodes: seq<nat>)
    requires Ring(h.next, h.prev, head, nodes) && x != head && x !in nodes
    ensures head in h.next && Ring(Added(h, x, head).next, Added(h, x, head).prev, head, [x] + nodes)
  {
    assert LinkedAt(h.next, h.prev, head, nodes, 0);
    StoresDone(h, x, head, h.next[head]);
    InsertKeepsRing(h.next, h.prev, head, nodes, 0, x);
    assert nodes[..0] + [x] + nodes[0..] == [x] + nodes;
  }

  lemma AddedTwice(h: Heads, x: nat, y: nat, head: nat, nodes: seq<nat>)
    requires Ring(h.next, h.prev, head, nodes)
    requires x != head && x !in nodes && y != head && y !in nodes && x != y
    ensures head in h.next
    ensures var r := Interrupted(h, x, y, head, 4); Ring(r.next, r.prev, head, [y] + ([x] + nodes))
  {
    AddedIsRing(h, x, head, nodes);
    AddedIsRing(Added(h, x, head), y, head, [x] + nodes);
    StoresDone(Added(Added(h, x, head), y, head), x, head, h.next[head]);
  }

  // ---------- the count ----------

  /** What a tick leaves of a count. */
  function Ticked(c: nat): nat {
    if c == 0 then 0 else c - 1
  }

  /**
   A tick between the two lines of do_fork that split the count: the total
   falls by the credit that the tick took if and only if the count was even;
   an odd count gets it back.
   */
  lemma TickInsideSplit(c: nat)
    ensures (c + 1) / 2 + Ticked(c) / 2 == Ticked(c) <==> c % 2 == 0
    ensures c % 2 == 1 ==> (c + 1) / 2 + Ticked(c) / 2 == c
  {
  }
}
