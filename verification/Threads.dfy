/**
 The register machine of module Switching under the task system of module
 TaskSystem: its tasks are the tasks of the kernel, their stacks are disjoint
 because their pages come from the allocator, and do_fork and __schedule are
 steps of it.
 */
module Threads {
  import opened PageTable
  import opened PageAlloc
  import opened Context
  import opened Switching
  import S = Sched
  import opened Lists
  import opened TaskSystem

  /** The stack of a task: the boot stack for init_task, its own page for every other. */
  function StackOf(p: nat, initTask: nat, boot: Stack): Stack {
    if p == initTask then boot else PageStack(p)
  }

  ghost function TaskStacks(ptrs: seq<nat>, initTask: nat, boot: Stack): map<nat, Stack> {
    map p | p in ptrs :: StackOf(p, initTask, boot)
  }

  /** init_task lies in the kernel image, below the boot stack, which ends at LOW_MEMORY. */
  predicate BootStack(initTask: nat, boot: Stack) {
    initTask + TASK_STRUCT_SIZE <= boot.low <= boot.top <= LOW_MEMORY
  }

  /** All tasks but init_task live in pages of the allocator. */
  ghost predicate InPages(ptrs: seq<nat>, initTask: nat) {
    forall i :: 0 <= i < |ptrs| && ptrs[i] != initTask ==> Managed(ptrs[i])
  }

  lemma TaskApart(p: nat, t: nat, initTask: nat, boot: Stack)
    requires BootStack(initTask, boot) && Managed(p) && p != t && (t == initTask || Managed(t))
    ensures PageApart(p, t, StackOf(t, initTask, boot))
  {
    if t != initTask { AlignedApart(p, t); }
  }

  /** Tasks in different pages have different stacks and contexts. */
  lemma PagesGiveLayout(ptrs: seq<nat>, initTask: nat, boot: Stack)
    requires BootStack(initTask, boot) && InPages(ptrs, initTask)
    ensures Layout(TaskStacks(ptrs, initTask, boot))
  {
    var stacks := TaskStacks(ptrs, initTask, boot);
    forall t, u | t in stacks && u in stacks && t != u ensures Separate(t, stacks[t], u, stacks[u]) {
      if t == initTask {
        TaskApart(u, t, initTask, boot);
      } else {
        TaskApart(t, u, initTask, boot);
      }
    }
    forall t | t in stacks ensures OwnApart(t, stacks[t]) {}
  }

  /** The page of a new task is apart from every task there is. */
  lemma FreshPageApart(ptrs: seq<nat>, initTask: nat, boot: Stack, p: nat)
    requires BootStack(initTask, boot) && InPages(ptrs, initTask) && Managed(p) && p !in ptrs
    ensures var stacks := TaskStacks(ptrs, initTask, boot);
            forall t {:trigger PageApart(p, t, stacks[t])} :: t in stacks ==> PageApart(p, t, stacks[t])
  {
    var stacks := TaskStacks(ptrs, initTask, boot);
    forall t | t in stacks ensures PageApart(p, t, stacks[t]) { TaskApart(p, t, initTask, boot); }
  }

  lemma StacksGrow(ptrs: seq<nat>, initTask: nat, boot: Stack, p: nat)
    requires p !in ptrs && p != initTask
    ensures TaskStacks(ptrs + [p], initTask, boot) == TaskStacks(ptrs, initTask, boot)[p := PageStack(p)]
  {
  }

  /** The machine runs the kernel's current task, and every other task of the kernel is suspended in it. */
  ghost predicate Runs(sys: System, ptrs: seq<nat>, current: nat, initTask: nat, boot: Stack) {
    && Switching.Inv(sys) && sys.cur == current
    && sys.stacks == TaskStacks(ptrs, initTask, boot)
    && forall p :: p in sys.saved <==> p in ptrs && p != current
  }

  ghost predicate Coupled(k: Kernel, sys: System, boot: Stack)
    reads k, k.ring, k.rq, k.rq.lists, k.gTask, k.alloc.memMap
  {
    k.Valid() && BootStack(k.ring.initTask, boot) && Runs(sys, k.ring.ptrs, k.current, k.ring.initTask, boot)
  }

  /** The tasks of a valid kernel have disjoint stacks and contexts. */
  lemma KernelLayout(k: Kernel, boot: Stack)
    requires k.Valid() && BootStack(k.ring.initTask, boot)
    ensures InPages(k.ring.ptrs, k.ring.initTask)
    ensures Layout(TaskStacks(k.ring.ptrs, k.ring.initTask, boot))
  {
    var ptrs := k.ring.ptrs;
    forall i | 0 <= i < |ptrs| && ptrs[i] != k.ring.initTask ensures Managed(ptrs[i]) { assert k.alloc.Used(ptrs[i]); }
    PagesGiveLayout(ptrs, k.ring.initTask, boot);
  }

  /** At boot the machine runs init_task on the boot stack. */
  lemma BootThreads(k: Kernel, cpu: Cpu, mem: Mem, boot: Stack) returns (sys: System)
    requires k.Valid() && k.s == S.BOOT_STATE && BootStack(k.ring.initTask, boot)
    requires Shaped(cpu) && InStack(cpu.sp, boot)
    ensures Coupled(k, sys, boot) && sys.cpu == cpu && sys.mem == mem
  {
    var initTask := k.ring.initTask;
    sys := System(cpu, mem, initTask, map[initTask := boot], map[]);
    assert k.ring.ptrs == [initTask];
    assert TaskStacks([initTask], initTask, boot) == sys.stacks;
    BootSystem(cpu, mem, initTask, boot);
  }

  /** The state after copy_thread for the page at p. */
  ghost function Created(a: System, p: nat, fn: nat, arg: nat, entry: nat): System {
    var m := CopyThread(a.mem, p, fn, arg, entry);
    a.(mem := m, stacks := a.stacks[p := PageStack(p)], saved := a.saved[p := Snap(NewContext(p, fn, arg, entry), m)])
  }

  lemma CreateRuns(a: System, b: System, ptrs: seq<nat>, current: nat, initTask: nat, boot: Stack, p: nat,
                   fn: nat, arg: nat, entry: nat)
    requires Runs(a, ptrs, current, initTask, boot) && current in ptrs
    requires BootStack(initTask, boot) && InPages(ptrs, initTask) && Managed(p) && p !in ptrs
    requires b == Created(a, p, fn, arg, entry)
    ensures Creates(a, b, p, fn, arg, entry) && Runs(b, ptrs + [p], current, initTask, boot)
  {
    FreshPageApart(ptrs, initTask, boot, p);
    CreateKeeps(a, b, p, fn, arg, entry);
    StacksGrow(ptrs, initTask, boot, p);
  }

  /** do_fork: the page it takes is apart from all tasks, so creating the thread in it is a step of the machine. */
  method ForkThread(k: Kernel, fn: nat, arg: nat, entry: nat, ghost a: System, ghost boot: Stack)
    returns (pid: int, ghost p: nat, ghost b: System)
    requires Coupled(k, a, boot)
    modifies k`s, k.ring, k.rq, k.rq.lists, k.gTask, k.alloc.memMap
    ensures Coupled(k, b, boot)
    ensures if pid < 0 then b == a else Does(a, Create(p, fn, arg, entry), b) && k.ring.ptrs == old(k.ring.ptrs) + [p]
  {
    ghost var ptrs, initTask := k.ring.ptrs, k.ring.initTask;
    KernelLayout(k, boot);
    b := a;
    pid, p := ForkPage(k);
    if pid >= 0 {
      b := Created(a, p, fn, arg, entry);
      CreateRuns(a, b, ptrs, k.current, initTask, boot, p, fn, arg, entry);
    }
  }

  /** do_fork puts the new task in a page of the allocator that no task had. */
  method ForkPage(k: Kernel) returns (pid: int, ghost p: nat)
    requires k.Valid()
    modifies k`s, k.ring, k.rq, k.rq.lists, k.gTask, k.alloc.memMap
    ensures k.Valid()
    ensures pid < 0 ==> k.ring.ptrs == old(k.ring.ptrs)
    ensures pid >= 0 ==> k.ring.ptrs == old(k.ring.ptrs) + [p] && Managed(p) && p !in old(k.ring.ptrs)
  {
    ghost var ptrs := k.ring.ptrs;
    p := PageOf(FirstFree(k.alloc.memMap[..]));
    pid := k.DoFork();
    if pid >= 0 {
      assert k.ring.ptrs == ptrs + [p] && k.alloc.Used(p) && Once(k.ring.ptrs, |ptrs|);
    }
  }

  lemma SwitchRuns(a: System, b: System, ptrs: seq<nat>, current: nat, next: nat, initTask: nat, boot: Stack)
    requires Runs(a, ptrs, current, initTask, boot) && current in ptrs && Switches(a, b, next)
    ensures Runs(b, ptrs, next, initTask, boot)
  {
    SwitchKeeps(a, b, next);
  }

  /** What the running task does between calls of the scheduler, interrupts included, keeps the coupling. */
  lemma OwnStepRuns(a: System, act: Action, b: System, ptrs: seq<nat>, current: nat, initTask: nat, boot: Stack)
    requires Runs(a, ptrs, current, initTask, boot) && Does(a, act, b) && act in {Work, Trap, Return}
    ensures Runs(b, ptrs, current, initTask, boot)
  {
    StepKeeps(a, act, b);
  }

  /** The state after cpu_switch_to(cur, next). */
  ghost function Switched(a: System, next: nat): System
    requires Shaped(a.cpu)
  {
    var r := CpuSwitchTo(a.cpu, a.mem, a.cur, next);
    System(r.0, r.1, next, a.stacks, (a.saved - {next})[a.cur := Snap(Saved(a.cpu), r.1)])
  }

  /** __schedule: the task it picks is suspended in the machine, so the switch to it is a step. */
  method ScheduleThreads(k: Kernel, ghost a: System, ghost boot: Stack) returns (ghost b: System)
    requires Coupled(k, a, boot) && S.Schedulable(k.s)
    requires k.s.tasks[k.s.cur].state != S.TASK_RUNNING ==> k.s.cur in k.s.queue
    modifies k`s, k`current, k.ring`task, k.rq, k.rq.lists
    ensures Coupled(k, b, boot)
    ensures if k.current == old(k.current) then b == a else Does(a, SwitchTo(k.current), b)
  {
    ghost var ptrs, initTask, prev := k.ring.ptrs, k.ring.initTask, k.current;
    k.Schedule();
    b := a;
    if k.current != prev {
      assert k.current in ptrs && prev in ptrs;
      b := Switched(a, k.current);
      SwitchRuns(a, b, ptrs, prev, k.current, initTask, boot);
    }
  }
}
