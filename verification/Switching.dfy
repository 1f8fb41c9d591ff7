/**
 Tasks taking turns on one core: whatever the other tasks do between two
 switches, a suspended task finds its callee-saved registers, its stack
 pointer and its stack as it left them, so an interrupted task that was
 preempted returns from its interrupt exactly as it was.
 */
module Switching {
  import opened Pgtable
  import opened PageTable
  import opened Context

  /** The stack of a task: [low, top). For a forked task it is its page above the task structure. */
  datatype Stack = Stack(low: nat, top: nat)

  /** What a task left behind when it was switched out: its saved context words and the memory then. */
  datatype Snap = Snap(ws: seq<nat>, mem: Mem)

  datatype System = System(cpu: Cpu, mem: Mem, cur: nat, stacks: map<nat, Stack>, saved: map<nat, Snap>)

  const CONTEXT_SIZE: nat := 8 * CONTEXT_WORDS

  predicate Apart(lo: nat, hi: nat, lo': nat, hi': nat) {
    hi <= lo' || hi' <= lo
  }

  /** The bytes from lo to hi are neither in the context nor in the stack of t. */
  predicate Misses(lo: nat, hi: nat, t: nat, st: Stack) {
    Apart(lo, hi, ContextAt(t), ContextAt(t) + CONTEXT_SIZE) && Apart(lo, hi, st.low, st.top)
  }

  /** The context words and the stacks of different tasks do not overlap. */
  predicate Separate(t: nat, st: Stack, u: nat, su: Stack) {
    Misses(ContextAt(t), ContextAt(t) + CONTEXT_SIZE, u, su) && Misses(st.low, st.top, u, su)
  }

  ghost predicate Layout(stacks: map<nat, Stack>) {
    && (forall t, u {:trigger Separate(t, stacks[t], u, stacks[u])} ::
          t in stacks && u in stacks && t != u ==> Separate(t, stacks[t], u, stacks[u]))
    && (forall t {:trigger OwnApart(t, stacks[t])} :: t in stacks ==> OwnApart(t, stacks[t]))
  }

  /** The context of a task is not in its own stack. */
  predicate OwnApart(t: nat, st: Stack) {
    Apart(ContextAt(t), ContextAt(t) + CONTEXT_SIZE, st.low, st.top)
  }

  predicate InStack(sp: nat, st: Stack) {
    st.low <= sp <= st.top
  }

  /** The saved words of t are in its context, and its stack from the saved sp up is untouched. */
  ghost predicate Intact(mem: Mem, t: nat, st: Stack, snap: Snap) {
    && |snap.ws| == CONTEXT_WORDS && InStack(snap.ws[11], st)
    && HoldsWords(mem, ContextAt(t), snap.ws)
    && Agree(snap.mem, mem, snap.ws[11], st.top)
  }

  ghost predicate HoldsWords(mem: Mem, base: nat, ws: seq<nat>) {
    forall i :: 0 <= i < |ws| ==> Load(mem, base + 8 * i) == ws[i]
  }

  ghost predicate Suspended(s: System, t: nat) {
    t in s.saved && t in s.stacks && Intact(s.mem, t, s.stacks[t], s.saved[t])
  }

  ghost predicate Inv(s: System) {
    && Shaped(s.cpu) && Layout(s.stacks)
    && s.cur in s.stacks && s.cur !in s.saved && InStack(s.cpu.sp, s.stacks[s.cur])
    && forall t {:trigger Suspended(s, t)} :: t in s.saved ==> Suspended(s, t)
  }

  /** At boot init_task runs on the boot stack, and nobody is suspended. */
  lemma BootSystem(cpu: Cpu, mem: Mem, initTask: nat, boot: Stack)
    requires Shaped(cpu) && OwnApart(initTask, boot) && InStack(cpu.sp, boot)
    ensures Inv(System(cpu, mem, initTask, map[initTask := boot], map[]))
  {
  }

  // ---------- steps ----------

  datatype Action =
    | Work                // compiled code of the running task
    | Trap                // trap_entry
    | Return              // trap_exit and eret
    | SwitchTo(next: nat) // cpu_switch_to
    | Create(p: nat, fn: nat, arg: nat, entry: nat) // copy_thread for the task at p

  /**
   Compiled code, of the kernel or of a thread: it may change any register
   and any memory but the contexts of suspended tasks and the live part of
   their stacks, and keeps sp inside its own stack.
   */
  ghost predicate Works(a: System, b: System) {
    && Shaped(b.cpu) && b == a.(cpu := b.cpu, mem := b.mem)
    && a.cur in a.stacks && InStack(b.cpu.sp, a.stacks[a.cur])
    && forall t {:trigger Spared(a, b, t)} :: t in a.saved ==> Spared(a, b, t)
  }

  ghost predicate Spared(a: System, b: System, t: nat) {
    t in a.saved && t in a.stacks && |a.saved[t].ws| == CONTEXT_WORDS ==>
      && Agree(a.mem, b.mem, ContextAt(t), ContextAt(t) + CONTEXT_SIZE)
      && Agree(a.mem, b.mem, a.saved[t].ws[11], a.stacks[t].top)
  }

  /** trap_entry with room for its frame on the running stack. */
  ghost predicate Traps(a: System, b: System) {
    && Shaped(a.cpu) && a.cur in a.stacks && a.stacks[a.cur].low + FRAME <= a.cpu.sp
    && var r := TrapEntry(a.cpu, a.mem);
       b == a.(cpu := r.0, mem := r.1)
  }

  /** trap_exit of a frame on the running stack. */
  ghost predicate Returns(a: System, b: System) {
    && Shaped(a.cpu) && a.cur in a.stacks && a.cpu.sp + FRAME <= a.stacks[a.cur].top
    && b == a.(cpu := TrapExit(a.cpu, a.mem))
  }

  /** cpu_switch_to(cur, next) of a suspended task. */
  ghost predicate Switches(a: System, b: System, next: nat) {
    && Shaped(a.cpu) && next in a.saved && next != a.cur
    && var r := CpuSwitchTo(a.cpu, a.mem, a.cur, next);
       b == System(r.0, r.1, next, a.stacks, (a.saved - {next})[a.cur := Snap(Saved(a.cpu), r.1)])
  }

  /** copy_thread for a new task whose page is apart from everything in use. */
  ghost predicate Creates(a: System, b: System, p: nat, fn: nat, arg: nat, entry: nat) {
    && p !in a.stacks
    && (forall t {:trigger PageApart(p, t, a.stacks[t])} :: t in a.stacks ==> PageApart(p, t, a.stacks[t]))
    && var m := CopyThread(a.mem, p, fn, arg, entry);
       b == a.(mem := m, stacks := a.stacks[p := PageStack(p)],
               saved := a.saved[p := Snap(NewContext(p, fn, arg, entry), m)])
  }

  function PageStack(p: nat): Stack {
    Stack(p + TASK_STRUCT_SIZE, p + PAGE_SIZE)
  }

  /** The page at p holds neither the context nor the stack of t. */
  predicate PageApart(p: nat, t: nat, st: Stack) {
    Misses(p, p + PAGE_SIZE, t, st)
  }

  ghost predicate Does(a: System, act: Action, b: System) {
    match act
    case Work => Works(a, b)
    case Trap => Traps(a, b)
    case Return => Returns(a, b)
    case SwitchTo(next) => Switches(a, b, next)
    case Create(p, fn, arg, entry) => Creates(a, b, p, fn, arg, entry)
  }

  // ---------- what a step leaves alone ----------

  /** Memory from lo to hi is as before. */
  lemma StoreMisses(mem: Mem, base: nat, ws: seq<nat>, lo: nat, hi: nat)
    requires Apart(base, base + 8 * |ws|, lo, hi)
    ensures Agree(mem, StoreWords(mem, base, ws), lo, hi)
  {
    StoredWords(mem, base, ws);
  }

  /** trap_entry writes inside its frame. */
  lemma TrapMisses(c: Cpu, mem: Mem, lo: nat, hi: nat)
    requires Shaped(c) && c.sp >= FRAME && Apart(c.sp - FRAME, c.sp, lo, hi)
    ensures Agree(mem, TrapEntry(c, mem).1, lo, hi)
  {
    var m1 := FrameStores(c, mem);
    StoreMisses(mem, c.sp - FRAME, c.x[..30], lo, hi);
  }

  lemma CopyMisses(mem: Mem, p: nat, fn: nat, arg: nat, entry: nat, lo: nat, hi: nat)
    requires Apart(p, p + PAGE_SIZE, lo, hi)
    ensures Agree(mem, CopyThread(mem, p, fn, arg, entry), lo, hi)
  {
    var frame := seq(33, i => 0) + [PSR_MODE_EL1h];
    var m1 := StoreWords(mem, TaskPtRegs(p), frame);
    StoreMisses(mem, TaskPtRegs(p), frame, lo, hi);
    StoreMisses(m1, ContextAt(p), NewContext(p, fn, arg, entry), lo, hi);
    AgreeTrans(mem, m1, CopyThread(mem, p, fn, arg, entry), lo, hi);
  }

  /** A part of memory that a step of the running task does not write. */
  ghost predicate Untouched(a: System, act: Action, lo: nat, hi: nat) {
    match act
    case Work => false
    case Trap => a.cpu.sp >= FRAME && Apart(a.cpu.sp - FRAME, a.cpu.sp, lo, hi)
    case Return => true
    case SwitchTo(_) => Apart(ContextAt(a.cur), ContextAt(a.cur) + CONTEXT_SIZE, lo, hi)
    case Create(p, _, _, _) => Apart(p, p + PAGE_SIZE, lo, hi)
  }

  lemma UntouchedAgrees(a: System, act: Action, b: System, lo: nat, hi: nat)
    requires Shaped(a.cpu) && Does(a, act, b) && Untouched(a, act, lo, hi)
    ensures Agree(a.mem, b.mem, lo, hi)
  {
    match act
    case Trap => TrapMisses(a.cpu, a.mem, lo, hi);
    case Return =>
    case SwitchTo(next) => StoreMisses(a.mem, ContextAt(a.cur), Saved(a.cpu), lo, hi);
    case Create(p, fn, arg, entry) => CopyMisses(a.mem, p, fn, arg, entry, lo, hi);
  }

  /** No step but compiled code comes near the context or the stack of a task that is not running. */
  lemma OthersUntouched(a: System, act: Action, b: System, t: nat, lo: nat, hi: nat)
    requires Inv(a) && Does(a, act, b) && act != Work && t in a.stacks && t != a.cur
    requires (lo == ContextAt(t) && hi == lo + CONTEXT_SIZE) || (a.stacks[t].low <= lo && hi == a.stacks[t].top)
    ensures Untouched(a, act, lo, hi)
  {
    assert Separate(a.cur, a.stacks[a.cur], t, a.stacks[t]);
    if act.Create? { assert PageApart(act.p, t, a.stacks[t]); }
  }

  /** A suspended task's context and live stack survive every step of another task. */
  lemma SparedByAll(a: System, act: Action, b: System, t: nat)
    requires Inv(a) && Does(a, act, b) && t in a.saved
    ensures Spared(a, b, t)
  {
    assert Suspended(a, t);
    if act != Work {
      var st, sp := a.stacks[t], a.saved[t].ws[11];
      OthersUntouched(a, act, b, t, ContextAt(t), ContextAt(t) + CONTEXT_SIZE);
      UntouchedAgrees(a, act, b, ContextAt(t), ContextAt(t) + CONTEXT_SIZE);
      OthersUntouched(a, act, b, t, sp, st.top);
      UntouchedAgrees(a, act, b, sp, st.top);
    }
  }

  lemma IntactAfter(mem: Mem, mem': Mem, t: nat, st: Stack, snap: Snap)
    requires Intact(mem, t, st, snap)
    requires Agree(mem, mem', ContextAt(t), ContextAt(t) + CONTEXT_SIZE) && Agree(mem, mem', snap.ws[11], st.top)
    ensures Intact(mem', t, st, snap)
  {
    forall i | 0 <= i < CONTEXT_WORDS ensures Load(mem', ContextAt(t) + 8 * i) == snap.ws[i] {
      assert Load(mem, ContextAt(t) + 8 * i) == snap.ws[i];
    }
    AgreeTrans(snap.mem, mem, mem', snap.ws[11], st.top);
  }

  /** A task that is not switched in stays suspended with the same snapshot. */
  lemma StaysSuspended(a: System, act: Action, b: System, t: nat)
    requires Inv(a) && Does(a, act, b) && t in a.saved && b.cur != t
    ensures t in b.saved && b.saved[t] == a.saved[t] && Suspended(b, t)
  {
    assert Suspended(a, t);
    SparedByAll(a, act, b, t);
    if act.Create? { assert t != act.p; }
    IntactAfter(a.mem, b.mem, t, a.stacks[t], a.saved[t]);
  }

  // ---------- every step keeps the invariant ----------

  /** The task switched out is intact at that moment. */
  lemma OutgoingIntact(mem: Mem, t: nat, st: Stack, ws: seq<nat>)
    requires |ws| == CONTEXT_WORDS && InStack(ws[11], st)
    ensures var m := StoreWords(mem, ContextAt(t), ws); Intact(m, t, st, Snap(ws, m))
  {
    StoredWords(mem, ContextAt(t), ws);
  }

  /** The task switched in has its saved registers, and its stack as it left it. */
  lemma SwitchedIn(a: System, b: System, next: nat)
    requires Inv(a) && Switches(a, b, next)
    ensures Shaped(b.cpu) && next in a.stacks && InStack(b.cpu.sp, a.stacks[next])
    ensures Saved(b.cpu) == a.saved[next].ws && b.cpu.sp == a.saved[next].ws[11]
    ensures b.cpu.pc == a.saved[next].ws[12] && b.cpu.spEl0 == next
    ensures Agree(a.saved[next].mem, b.mem, b.cpu.sp, a.stacks[next].top)
  {
    var snap := a.saved[next];
    assert Suspended(a, next);
    assert Separate(a.cur, a.stacks[a.cur], next, a.stacks[next]);
    SwitchLoads(a.cpu, a.mem, a.cur, next, snap.ws);
    ContextRegisters(b.cpu);
    SparedByAll(a, SwitchTo(next), b, next);
    AgreeTrans(snap.mem, a.mem, b.mem, snap.ws[11], a.stacks[next].top);
  }

  lemma SwitchKeeps(a: System, b: System, next: nat)
    requires Inv(a) && Switches(a, b, next)
    ensures Inv(b)
  {
    SwitchedIn(a, b, next);
    ContextRegisters(a.cpu);
    OutgoingIntact(a.mem, a.cur, a.stacks[a.cur], Saved(a.cpu));
    forall t | t in b.saved ensures Suspended(b, t) {
      if t != a.cur { StaysSuspended(a, SwitchTo(next), b, t); }
    }
  }

  /** The context of a new thread and its empty stack. */
  lemma NewTaskIntact(mem: Mem, p: nat, fn: nat, arg: nat, entry: nat)
    ensures var m := CopyThread(mem, p, fn, arg, entry);
            Intact(m, p, PageStack(p), Snap(NewContext(p, fn, arg, entry), m))
  {
    var m1 := StoreWords(mem, TaskPtRegs(p), seq(33, i => 0) + [PSR_MODE_EL1h]);
    OutgoingIntact(m1, p, PageStack(p), NewContext(p, fn, arg, entry));
  }

  lemma LayoutGrows(stacks: map<nat, Stack>, p: nat)
    requires Layout(stacks) && p !in stacks
    requires forall t {:trigger PageApart(p, t, stacks[t])} :: t in stacks ==> PageApart(p, t, stacks[t])
    ensures Layout(stacks[p := PageStack(p)])
  {
    var stacks' := stacks[p := PageStack(p)];
    forall t, u | t in stacks' && u in stacks' && t != u ensures Separate(t, stacks'[t], u, stacks'[u]) {
      if t == p {
        assert PageApart(p, u, stacks[u]);
      } else if u == p {
        assert PageApart(p, t, stacks[t]);
      } else {
        assert Separate(t, stacks[t], u, stacks[u]);
      }
    }
    forall t | t in stacks' ensures OwnApart(t, stacks'[t]) { if t != p { assert OwnApart(t, stacks[t]); } }
  }

  lemma CreateKeeps(a: System, b: System, p: nat, fn: nat, arg: nat, entry: nat)
    requires Inv(a) && Creates(a, b, p, fn, arg, entry)
    ensures Inv(b)
  {
    LayoutGrows(a.stacks, p);
    NewTaskIntact(a.mem, p, fn, arg, entry);
    forall t | t in b.saved ensures Suspended(b, t) {
      if t != p { StaysSuspended(a, Create(p, fn, arg, entry), b, t); }
    }
  }

  lemma StepKeeps(a: System, act: Action, b: System)
    requires Inv(a) && Does(a, act, b)
    ensures Inv(b)
    ensures forall t :: t in a.stacks ==> t in b.stacks && b.stacks[t] == a.stacks[t]
  {
    match act
    case SwitchTo(next) => SwitchKeeps(a, b, next);
    case Create(p, fn, arg, entry) => CreateKeeps(a, b, p, fn, arg, entry);
    case _ =>
      forall t | t in b.saved ensures Suspended(b, t) { StaysSuspended(a, act, b, t); }
  }

  // ---------- runs ----------

  ghost predicate Trace(tr: seq<System>, acts: seq<Action>) {
    |tr| == |acts| + 1 && forall i :: 0 <= i < |acts| ==> Does(tr[i], acts[i], tr[i + 1])
  }

  lemma {:induction false} TraceInv(tr: seq<System>, acts: seq<Action>, n: nat)
    requires Trace(tr, acts) && Inv(tr[0]) && n < |tr|
    ensures Inv(tr[n])
    ensures forall t :: t in tr[0].stacks ==> t in tr[n].stacks && tr[n].stacks[t] == tr[0].stacks[t]
  {
    if n > 0 {
      TraceInv(tr, acts, n - 1);
      StepKeeps(tr[n - 1], acts[n - 1], tr[n]);
    }
  }

  /** A task that never runs is suspended all the time. */
  lemma {:induction false} StillWaiting(tr: seq<System>, acts: seq<Action>, t: nat, n: nat)
    requires Trace(tr, acts) && Inv(tr[0]) && t in tr[0].saved && n < |tr|
    requires forall i :: 0 <= i < |tr| ==> tr[i].cur != t
    ensures t in tr[n].saved && tr[n].saved[t] == tr[0].saved[t]
  {
    if n > 0 {
      StillWaiting(tr, acts, t, n - 1);
      TraceInv(tr, acts, n - 1);
      StaysSuspended(tr[n - 1], acts[n - 1], tr[n], t);
    }
  }

  /**
   cpu_switch_to is transparent to the task that calls it: switched out from
   state a, and switched in again after any run tr of other tasks, it
   has the same x19..x29, sp and lr, continues after its call, and finds its
   stack from sp up unchanged.
   */
  lemma SwitchIsTransparent(a: System, first: nat, tr: seq<System>, acts: seq<Action>, z: System)
    requires Inv(a) && Trace(tr, acts) && Switches(a, tr[0], first)
    requires (forall i :: 0 <= i < |tr| ==> tr[i].cur != a.cur) && Switches(tr[|acts|], z, a.cur)
    ensures Saved(z.cpu) == Saved(a.cpu) && z.cpu.sp == a.cpu.sp && z.cpu.pc == a.cpu.x[30] && z.cpu.spEl0 == a.cur
    ensures Inv(z) && Agree(a.mem, z.mem, a.cpu.sp, a.stacks[a.cur].top)
  {
    var t, last, top := a.cur, tr[|acts|], a.stacks[a.cur].top;
    SwitchKeeps(a, tr[0], first);
    StillWaiting(tr, acts, t, |acts|);
    TraceInv(tr, acts, |acts|);
    SwitchKeeps(last, z, t);
    SwitchedIn(last, z, t);
    ContextRegisters(a.cpu);
    assert OwnApart(t, a.stacks[t]);
    UntouchedAgrees(a, SwitchTo(first), tr[0], a.cpu.sp, top);
    AgreeTrans(a.mem, tr[0].mem, z.mem, a.cpu.sp, top);
  }

  // ---------- interrupted tasks ----------

  /**
   The interrupt frame of t at f is live: memory from f to the top of its
   stack is as in m, and t is below it, running or suspended.
   */
  ghost predicate FrameLive(m: Mem, s: System, t: nat, f: nat) {
    && t in s.stacks && InStack(f, s.stacks[t]) && Agree(m, s.mem, f, s.stacks[t].top)
    && if s.cur == t then s.cpu.sp <= f else Suspended(s, t) && s.saved[t].ws[11] <= f
  }

  /**
   What the calling convention gives for t's own code: it returns at most to
   the frame, and compiled code does not write above it.
   */
  ghost predicate BelowFrame(a: System, act: Action, b: System, t: nat, f: nat) {
    a.cur == t && b.cur == t && t in a.stacks ==>
      b.cpu.sp <= f && (act == Work ==> Agree(a.mem, b.mem, f, a.stacks[t].top))
  }

  /** Nothing that the task itself does below its frame, and nothing that others do, changes the frame. */
  lemma FrameUntouched(m: Mem, a: System, act: Action, b: System, t: nat, f: nat)
    requires Inv(a) && Does(a, act, b) && FrameLive(m, a, t, f) && BelowFrame(a, act, b, t, f)
    ensures Agree(a.mem, b.mem, f, a.stacks[t].top)
  {
    var top := a.stacks[t].top;
    if a.cur != t {
      SparedByAll(a, act, b, t);
    } else if act != Work {
      assert OwnApart(t, a.stacks[t]);
      if act.Create? { assert PageApart(act.p, t, a.stacks[t]); }
      UntouchedAgrees(a, act, b, f, top);
    }
  }

  lemma FrameStays(m: Mem, a: System, act: Action, b: System, t: nat, f: nat)
    requires Inv(a) && Does(a, act, b) && FrameLive(m, a, t, f) && BelowFrame(a, act, b, t, f)
    ensures FrameLive(m, b, t, f)
  {
    FrameUntouched(m, a, act, b, t, f);
    AgreeTrans(m, a.mem, b.mem, f, a.stacks[t].top);
    StepKeeps(a, act, b);
    if a.cur != t && b.cur != t {
      StaysSuspended(a, act, b, t);
    } else if a.cur != t {
      SwitchedIn(a, b, t);
    } else if b.cur != t {
      ContextRegisters(a.cpu);
      assert Suspended(b, t);
    }
  }

  lemma {:induction false} FrameStaysLive(m: Mem, tr: seq<System>, acts: seq<Action>, t: nat, f: nat, n: nat)
    requires Trace(tr, acts) && Inv(tr[0]) && n < |tr| && FrameLive(m, tr[0], t, f)
    requires forall i :: 0 <= i < |acts| ==> BelowFrame(tr[i], acts[i], tr[i + 1], t, f)
    ensures FrameLive(m, tr[n], t, f)
  {
    if n > 0 {
      FrameStaysLive(m, tr, acts, t, f, n - 1);
      TraceInv(tr, acts, n - 1);
      FrameStays(m, tr[n - 1], acts[n - 1], tr[n], t, f);
    }
  }

  /**
   The whole way through an interrupt of the task that runs in a: trap_entry,
   any run tr of this and other tasks, with any number of switches and of
   further interrupts, in which the task comes back to its frame, and
   trap_exit. It goes on with exactly its x0..x30, sp, elr and spsr.
   */
  lemma PreemptedTaskReturns(a: System, tr: seq<System>, acts: seq<Action>, z: System)
    requires Inv(a) && Trace(tr, acts) && Traps(a, tr[0]) && Returns(tr[|acts|], z)
    requires tr[|acts|].cur == a.cur && tr[|acts|].cpu.sp == a.cpu.sp - FRAME
    requires forall i :: 0 <= i < |acts| ==> BelowFrame(tr[i], acts[i], tr[i + 1], a.cur, a.cpu.sp - FRAME)
    ensures z.cpu.x == a.cpu.x && z.cpu.sp == a.cpu.sp && z.cpu.elr == a.cpu.elr && z.cpu.spsr == a.cpu.spsr
    ensures z.cpu.pc == a.cpu.elr && z.cur == a.cur && Inv(z)
  {
    var t, f, last := a.cur, a.cpu.sp - FRAME, tr[|acts|];
    StepKeeps(a, Trap, tr[0]);
    FrameStaysLive(tr[0].mem, tr, acts, t, f, |acts|);
    TraceInv(tr, acts, |acts|);
    StepKeeps(last, Return, z);
    TrapRoundTrip(a.cpu, a.mem, last.cpu, last.mem);
  }

  /**
   The first switch to a new kernel thread enters fn with arg, on its own
   frame top, below a frame of zeros with the processor state for EL1h.
   */
  lemma NewThreadEnters(a: System, p: nat, fn: nat, arg: nat, entry: nat, tr: seq<System>, acts: seq<Action>, z: System)
    requires Inv(a) && Trace(tr, acts) && Creates(a, tr[0], p, fn, arg, entry) && fn != 0
    requires (forall i :: 0 <= i < |tr| ==> tr[i].cur != p) && Switches(tr[|acts|], z, p)
    ensures z.cpu.pc == entry && z.cpu.sp == TaskPtRegs(p) && Shaped(z.cpu)
    ensures var r := RetFromFork(z.cpu); r.pc == fn && r.x[0] == arg && r.sp == p + PAGE_SIZE - FRAME
    ensures forall i :: 0 <= i < 33 ==> Load(z.mem, TaskPtRegs(p) + 8 * i) == 0
    ensures Load(z.mem, TaskPtRegs(p) + 264) == 5
  {
    CreateKeeps(a, tr[0], p, fn, arg, entry);
    StillWaiting(tr, acts, p, |acts|);
    TraceInv(tr, acts, |acts|);
    SwitchedIn(tr[|acts|], z, p);
    ContextRegisters(z.cpu);
    FrameOfNewThread(a.mem, p, fn, arg, entry);
    forall i | 0 <= i < 34 ensures Load(z.mem, TaskPtRegs(p) + 8 * i) == Load(tr[0].mem, TaskPtRegs(p) + 8 * i) {}
  }

  /** The frame of a new thread: zeros, and the processor state for EL1h in its last word. */
  lemma FrameOfNewThread(mem: Mem, p: nat, fn: nat, arg: nat, entry: nat)
    ensures var m := CopyThread(mem, p, fn, arg, entry);
            && (forall i :: 0 <= i < 33 ==> Load(m, TaskPtRegs(p) + 8 * i) == 0)
            && Load(m, TaskPtRegs(p) + 8 * 33) == 5
  {
    var frame := seq(33, i => 0) + [PSR_MODE_EL1h];
    var m1 := StoreWords(mem, TaskPtRegs(p), frame);
    StoredWords(mem, TaskPtRegs(p), frame);
    StoredWords(m1, ContextAt(p), NewContext(p, fn, arg, entry));
    forall i | 0 <= i < 34 ensures Load(CopyThread(mem, p, fn, arg, entry), TaskPtRegs(p) + 8 * i) == frame[i] {
      assert Load(m1, TaskPtRegs(p) + 8 * i) == frame[i];
    }
    assert forall i :: 0 <= i < 33 ==> frame[i] == 0;
    forall i | 0 <= i < 33 ensures Load(CopyThread(mem, p, fn, arg, entry), TaskPtRegs(p) + 8 * i) == 0 {
      assert frame[i] == 0;
    }
  }
}
