/**
 Whole runs of the concrete task system: executing any enabled sequence of
 events keeps both rings, the pid table and the counters well formed, and ends
 in the state that the machine of module Sched reaches.
 */
module KernelRun {
  import opened Pgtable
  import opened PageTable
  import opened Mapping
  import opened PageAlloc
  import opened Mmu
  import opened Boot
  import opened Lists
  import opened Sched
  import opened Fairness
  import opened TaskSystem

  ghost predicate Ready(k: Kernel)
    reads k, k.ring, k.rq, k.rq.lists, k.gTask, k.alloc.memMap
  {
    k.Valid() && Inv(k.s)
  }

  /** The interrupt path: a tick, and preemption when it asks for it. */
  method TimerInterrupt(k: Kernel)
    requires Ready(k) && Enabled(k.s, Tick)
    modifies k, k.ring, k.rq, k.rq.lists
    ensures Ready(k) && k.s == Step(old(k.s), Tick)
  {
    ghost var s := k.s;
    StepInv(s, Tick);
    BeforePickCore(s, Tick);
    k.TickHandlePeriodic();
    assert Shows(k.ring.task, k.current, k.s.tasks[k.s.cur], k.s.cur);
    if k.ring.task[k.current].needResched {
      k.Schedule();
    }
  }

  method VoluntarySchedule(k: Kernel)
    requires Ready(k) && Enabled(k.s, Yield)
    modifies k, k.ring, k.rq, k.rq.lists
    ensures Ready(k) && k.s == Step(old(k.s), Yield)
  {
    StepInv(k.s, Yield);
    k.Schedule();
  }

  method BlockCurrent(k: Kernel, st: nat)
    requires Ready(k) && Enabled(k.s, Block(st))
    modifies k, k.ring, k.rq, k.rq.lists
    ensures Ready(k) && k.s == Step(old(k.s), Block(st))
  {
    StepInv(k.s, Block(st));
    k.StoreState(k.current, k.s.cur, st);
    k.Schedule();
  }

  method WakeTask(k: Kernel, p: nat)
    requires Ready(k) && Enabled(k.s, WakeUp(p))
    modifies k, k.ring, k.rq, k.rq.lists
    ensures Ready(k) && k.s == Step(old(k.s), WakeUp(p))
  {
    StepInv(k.s, WakeUp(p));
    k.WakeUpProcess(k.gTask[p], p);
  }

  /** do_fork: it does nothing when no page is free. */
  method ForkTask(k: Kernel)
    requires Ready(k)
    modifies k, k.ring, k.rq, k.rq.lists, k.gTask, k.alloc.memMap
    ensures Ready(k)
    ensures old(k.FreePages()) == 0 ==> k.s == old(k.s) && k.FreePages() == 0
    ensures old(k.FreePages()) > 0 ==> k.s == Step(old(k.s), DoFork) && k.FreePages() == old(k.FreePages()) - 1
  {
    StepInv(k.s, DoFork);
    ghost var m := k.alloc.memMap[..];
    FreeCountPositive(m);
    if FirstFree(m) < NR_PAGES { FreeCountUpdate(m, FirstFree(m), 1); }
    var pid := k.DoFork();
  }

  method PerformOther(k: Kernel, e: Event)
    requires Ready(k) && Enabled(k.s, e) && e != DoFork
    modifies k, k.ring, k.rq, k.rq.lists
    ensures Ready(k) && k.s == Step(old(k.s), e) && k.FreePages() == old(k.FreePages())
  {
    match e
    case Tick => TimerInterrupt(k);
    case Yield => VoluntarySchedule(k);
    case Block(st) => BlockCurrent(k, st);
    case WakeUp(p) => WakeTask(k, p);
  }

  /** The events of a run as the machine sees them: a fork for which no page is left does nothing. */
  function Served(es: seq<Event>, free: nat): seq<Event> {
    if es == [] then []
    else if es[0] != DoFork then [es[0]] + Served(es[1..], free)
    else if free == 0 then Served(es[1..], 0)
    else [DoFork] + Served(es[1..], free - 1)
  }

  /** With a page for every fork, those are all events. */
  lemma {:induction false} AllServed(es: seq<Event>, free: nat)
    requires Forks(es) <= free
    ensures Served(es, free) == es
  {
    if es != [] { AllServed(es[1..], if es[0] == DoFork then free - 1 else free); }
  }

  lemma ServedStep(es: seq<Event>, free: nat, e: Event, rest: seq<Event>)
    requires es != [] && es[0] == e && es[1..] == rest
    ensures Served(es, free) ==
              if e != DoFork then [e] + Served(rest, free)
              else if free == 0 then Served(rest, 0)
              else [DoFork] + Served(rest, free - 1)
  {
  }

  lemma RunStep(s: State, e: Event, rest: seq<Event>)
    requires Inv(s) && Sched.Valid(s, [e] + rest)
    ensures Enabled(s, e) && Inv(Step(s, e)) && Sched.Valid(Step(s, e), rest)
    ensures Sched.Run(s, [e] + rest) == Sched.Run(Step(s, e), rest)
  {
    assert ([e] + rest)[1..] == rest;
    StepInv(s, e);
  }

  /**
   Every run of the concrete kernel is a run of the machine, and keeps the
   structures well formed, also when it runs out of pages on the way.
   */
  method RunEvents(k: Kernel, es: seq<Event>)
    requires Ready(k) && Sched.Valid(k.s, Served(es, k.FreePages()))
    modifies k, k.ring, k.rq, k.rq.lists, k.gTask, k.alloc.memMap
    ensures Ready(k) && k.s == Sched.Run(old(k.s), Served(es, old(k.FreePages())))
    decreases |es|
  {
    if es != [] {
      PerformEvent(k, es[0], es, es[1..], Sched.Run(k.s, Served(es, k.FreePages())));
      RunEvents(k, es[1..]);
    }
  }

  /** The events still to come can be served from s, and lead to last. */
  ghost predicate Ahead(s: State, es: seq<Event>, free: nat, last: State)
    requires Inv(s)
  {
    Sched.Valid(s, Served(es, free)) && Sched.Run(s, Served(es, free)) == last
  }

  /** The state and the free pages after the next event. */
  lemma AheadStep(s: State, es: seq<Event>, free: nat, last: State, e: Event, rest: seq<Event>)
    returns (s': State, free': nat)
    requires Inv(s) && Ahead(s, es, free, last) && es != [] && es[0] == e && es[1..] == rest
    ensures Inv(s') && Ahead(s', rest, free', last)
    ensures e != DoFork ==> Enabled(s, e) && s' == Step(s, e) && free' == free
    ensures e == DoFork && free == 0 ==> s' == s && free' == 0
    ensures e == DoFork && free > 0 ==> s' == Step(s, e) && free' == free - 1
  {
    ServedStep(es, free, e, rest);
    free' := if e == DoFork && free > 0 then free - 1 else free;
    s' := s;
    if e != DoFork || free > 0 {
      RunStep(s, e, Served(rest, free'));
      s' := Step(s, e);
    }
  }

  /** One event of a run. */
  method PerformEvent(k: Kernel, e: Event, ghost es: seq<Event>, ghost rest: seq<Event>, ghost last: State)
    requires Ready(k) && es != [] && es[0] == e && es[1..] == rest && Ahead(k.s, es, k.FreePages(), last)
    modifies k, k.ring, k.rq, k.rq.lists, k.gTask, k.alloc.memMap
    ensures Ready(k) && Ahead(k.s, rest, k.FreePages(), last)
  {
    ghost var s', free' := AheadStep(k.s, es, k.FreePages(), last, e, rest);
    if e == DoFork {
      ForkTask(k);
    } else {
      PerformOther(k, e);
    }
    assert k.s == s' && k.FreePages() == free';
  }

  /**
   What a valid kernel shows after any run: the ring of all tasks is
   g_task[1..n] in order, pids equal their slots, nr_running is the length of
   the queue, and the queue is part of the ring without init_task.
   */
  method Inspect(k: Kernel, i: nat) returns (p: nat)
    requires Ready(k) && i < |k.s.tasks|
    ensures p == k.gTask[i] && p == k.ring.ptrs[i] && p in k.ring.task && k.ring.task[p].pid == i
    ensures k.rq.nrRunning == |k.rq.nodes| == |k.s.queue|
    ensures p + RUN_LIST in k.rq.nodes <==> i != 0 && k.ring.task[p].state == TASK_RUNNING
  {
    p := k.gTask[i];
    assert Shows(k.ring.task, p, k.s.tasks[i], i);
    ghost var nodes := k.rq.nodes;
    if i in k.s.queue {
      ghost var j :| 0 <= j < |k.s.queue| && k.s.queue[j] == i;
      assert nodes[j] == p + RUN_LIST;
    }
    if p + RUN_LIST in nodes {
      ghost var j :| 0 <= j < |nodes| && nodes[j] == p + RUN_LIST;
      assert k.ring.ptrs[k.s.queue[j]] == p && Once(k.ring.ptrs, i);
      assert k.s.queue[j] == i;
    }
  }

  // ---------- tasks and page tables from one allocator ----------

  /** Tasks and tables draw on the same allocator, and no task lives in a table page. */
  ghost predicate Beside(k: Kernel, space: AddressSpace)
    reads k, k.ring, k.rq, k.rq.lists, k.gTask, k.alloc.memMap, space, space.alloc.memMap
  {
    && k.alloc == space.alloc && k.Valid() && space.Valid()
    && forall i :: 0 <= i < |k.ring.ptrs| ==> k.ring.ptrs[i] !in space.pages
  }

  /** paging_init in a running kernel takes pages that no task has. */
  method PagingInitBeside(k: Kernel, root: nat, mem: Mem, textBoot: nat, etext: nat) returns (space: AddressSpace)
    requires k.Valid() && root % PAGE_SIZE == 0 && root + PAGE_SIZE <= LOW_MEMORY && k.ring.initTask != root
    requires ImageFits(textBoot, etext) && k.FreePages() >= 5
    modifies k.alloc.memMap
    ensures fresh(space) && Beside(k, space)
    ensures forall va :: 0 <= va < VA_LIMIT ==> Walk(space.mem, space.root, va) == BootMap(textBoot, etext, va)
    ensures forall va :: 0 <= va < VA_LIMIT ==> BootRights(Walk(space.mem, space.root, va), textBoot, etext, va)
  {
    label before:
    ghost var ptrs := k.ring.ptrs;
    assert forall i :: 0 < i < |ptrs| ==> k.alloc.Used(ptrs[i]);
    space := PagingInit(k.alloc, root, mem, textBoot, etext);
    assert forall i :: 0 < i < |ptrs| ==> Marked(k.alloc.memMap[..], ptrs[i]);
    StillValid@before(k);
    TablesElsewhere(old(k.alloc.memMap[..]), ptrs, space.pages, root);
  }

  lemma TablesElsewhere(bitmap: seq<nat>, ptrs: seq<nat>, pages: set<nat>, root: nat)
    requires ptrs != [] && !Managed(ptrs[0]) && ptrs[0] != root && !Managed(root)
    requires forall i :: 0 < i < |ptrs| ==> Marked(bitmap, ptrs[i])
    requires forall p :: p in pages && p != root ==> Managed(p) && !Marked(bitmap, p)
    ensures forall i :: 0 <= i < |ptrs| ==> ptrs[i] !in pages
  {
  }

  /** A machine without a page in use has all of them free. */
  lemma {:induction false} AllFree(m: seq<nat>)
    requires forall i :: 0 <= i < |m| ==> m[i] == 0
    ensures FreeCount(m) == |m|
  {
    if m != [] { AllFree(m[1..]); }
  }

  /**
   The boot of kernel_main: the page map, sched_init, any number of forks and
   paging_init. It ends with tasks and tables side by side, whatever the
   number of forks; mapping calls and forks after it keep them so.
   */
  method KernelMain(initTask: nat, rqHead: nat, root: nat, mem: Mem, textBoot: nat, etext: nat, forks: nat)
    returns (k: Kernel, space: AddressSpace)
    requires 0 < initTask < LOW_MEMORY && 0 < rqHead < LOW_MEMORY && initTask != root
    requires root % PAGE_SIZE == 0 && root + PAGE_SIZE <= LOW_MEMORY && ImageFits(textBoot, etext)
    requires forks + 5 <= NR_PAGES
    ensures Beside(k, space)
    ensures forall va :: 0 <= va < VA_LIMIT ==> Walk(space.mem, space.root, va) == BootMap(textBoot, etext, va)
    ensures forall va :: 0 <= va < VA_LIMIT ==> BootRights(Walk(space.mem, space.root, va), textBoot, etext, va)
  {
    var alloc := new PageAllocator();
    AllFree(alloc.memMap[..]);
    k := new Kernel(alloc, initTask, rqHead);
    BootInv();
    var n := 0;
    while n < forks
      invariant 0 <= n <= forks && Ready(k) && k.FreePages() >= NR_PAGES - n && k.ring.initTask == initTask
      invariant fresh(k) && fresh(k.ring) && fresh(k.rq) && fresh(k.rq.lists) && fresh(k.gTask) && fresh(k.alloc.memMap)
    {
      ForkTask(k);
      n := n + 1;
    }
    space := PagingInitBeside(k, root, mem, textBoot, etext);
  }

  /** A fork takes a page that was nobody's: tables stay as they are, and still hold no task. */
  method ForkBeside(k: Kernel, space: AddressSpace) returns (pid: int)
    requires Beside(k, space)
    modifies k`s, k.ring, k.rq, k.rq.lists, k.gTask, k.alloc.memMap
    ensures Beside(k, space)
  {
    ghost var m := k.alloc.memMap[..];
    ghost var i := FirstFree(m);
    ghost var v, ptrs := space.V(), k.ring.ptrs;
    if i < NR_PAGES { TakeFirst(m, i, m[i := 1]); }
    pid := k.DoFork();
    assert k.ring.ptrs == ptrs || (i < NR_PAGES && k.ring.ptrs == ptrs + [PageOf(i)]);
    HoldingMore(v, space.V(), space.root);
  }

  /** Table pages are still in use when more pages are. */
  lemma HoldingMore(v: View, v': View, root: nat)
    requires Holding(v, root) && v'.pages == v.pages && forall p :: Marked(v.bitmap, p) ==> Marked(v'.bitmap, p)
    ensures Holding(v', root)
  {
    forall p | p in v'.pages && p != root ensures Marked(v'.bitmap, p) { assert Marked(v.bitmap, p); }
  }

  /** A mapping call takes pages that were nobody's: tasks stay as they are, and still live in no table page. */
  method MapBeside(k: Kernel, space: AddressSpace, phys: nat, virt: nat, size: nat, prot: nat, flags: nat)
    requires Beside(k, space) && virt + size <= VA_LIMIT && phys < VA_LIMIT
    requires Args(PageDown(virt), PageUp(virt + size), PageDown(phys), prot)
    requires Clear(space.V(), PageDown(virt), PageUp(virt + size), PageDown(phys), flags)
    requires space.V().free >= Need(2, space.tab, PageDown(virt), PageUp(virt + size), PageDown(phys), flags)
    modifies space, space.alloc.memMap
    ensures Beside(k, space)
    ensures Built(old(space.V()), space.V(), space.root,
                  PageDown(virt), PageUp(virt + size), PageDown(phys), prot, flags)
  {
    label before:
    ghost var v, ptrs := space.V(), k.ring.ptrs;
    assert forall i :: 0 < i < |ptrs| ==> Marked(v.bitmap, ptrs[i]) by {
      assert forall i :: 0 < i < |ptrs| ==> k.alloc.Used(ptrs[i]);
    }
    space.CreatePgdMapping(phys, virt, size, prot, flags);
    StillMarked(v, space.V(), ptrs);
    StillValid@before(k);
  }

  /** Tasks keep their pages, and none of these becomes a table page. */
  lemma StillMarked(v: View, v': View, ptrs: seq<nat>)
    requires Taken(v, v') && ptrs != [] && !Managed(ptrs[0])
    requires forall i :: 0 < i < |ptrs| ==> Marked(v.bitmap, ptrs[i])
    ensures forall i :: 0 < i < |ptrs| ==> Marked(v'.bitmap, ptrs[i])
    ensures forall i :: 0 <= i < |ptrs| && ptrs[i] in v'.pages ==> ptrs[i] in v.pages
  {
    forall i | 0 <= i < |ptrs| ensures Handed(v, v', ptrs[i]) {}
  }
}
