/**
 The preemption protocol at the grain at which interrupts strike in the
 scheduler: schedule, preempt_schedule_irq and __schedule of kernel/sched.c,
 el1_irq and ret_from_fork of arch/arm64/core/entry.S, over the machine of
 module Sched. do_fork and wake_up_process each take effect at one point;
 module ForkRace says what happens when they are interrupted half way.
 */
module Preempt {
  import opened Sched

  /** How a task came into the scheduler. */
  datatype Via = Call | Irq

  /** Where the processor is. */
  datatype Place =
    | Out             // task code
    | Before(via: Via) // preempt_disable done, interrupts not yet masked by __schedule
    | Core(via: Via)  // in __schedule with interrupts masked
    | After(via: Via) // switched back in, or not switched; preempt_enable still to come

  /** What a task that is not running is waiting for. */
  datatype Rest = NeverRun | Running | Suspended(via: Via)

  /**
   handler: inside el1_irq, above place. masked: interrupts are masked.
   bugs counts the BUG messages printed.
   */
  datatype Machine = Machine(s: State, preempt: seq<int>, rest: seq<Rest>, place: Place, handler: bool, masked: bool,
                             bugs: nat)

  const BOOT_MACHINE := Machine(BOOT_STATE, [0], [Running], Out, false, false, 0)

  datatype Action =
    | ForkTask         // do_fork by the running task
    | WakeTask(p: nat) // wake_up_process of a blocked task
    | MarkBlocked(st: nat)
    | CallSchedule     // schedule(): preempt_disable
    | TakeIrq          // trap_entry
    | TimerTick        // tick_handle_periodic, in a handler
    | LeaveIrq         // the test of el1_irq, then eret or el1_preempt
    | MaskIrqs         // schedule_debug and raw_local_irq_disable in __schedule
    | Switch           // dequeue, pick, switch_to, schedule_tail
    | Unwind           // back to schedule or preempt_schedule_irq: preempt_enable

  predicate Shaped(m: Machine) {
    m.s.cur < |m.s.tasks| && |m.preempt| == |m.s.tasks| && |m.rest| == |m.s.tasks|
  }

  predicate CanStep(m: Machine, a: Action)
    requires Shaped(m)
  {
    match a
    case ForkTask => m.place == Out && !m.handler
    case WakeTask(p) => !m.place.Core? && 0 < p < |m.s.tasks| && p != m.s.cur && m.s.tasks[p].state != TASK_RUNNING
    case MarkBlocked(st) => m.place == Out && !m.handler && m.s.cur != 0 && st != TASK_RUNNING
    case CallSchedule => m.place == Out && !m.handler
    case TakeIrq => !m.handler && !m.masked
    case TimerTick => m.handler
    case LeaveIrq => m.handler
    case MaskIrqs => m.place.Before? && !m.handler
    case Switch => m.place.Core? && Schedulable(m.s)
    case Unwind => m.place.After? && !m.handler
  }

  /** The task resumed by a switch continues where it stopped; a new one goes through ret_from_fork. */
  function Resume(r: Rest): Place {
    match r
    case Suspended(via) => After(via)
    case _ => Out
  }

  function Next(m: Machine, a: Action): Machine
    requires Shaped(m) && CanStep(m, a)
  {
    var cur := m.s.cur;
    match a
    case ForkTask =>
      if |m.s.tasks| >= NR_TASK then m
      else m.(s := Fork(m.s), preempt := m.preempt + [0], rest := m.rest + [NeverRun])
    case WakeTask(p) => m.(s := Wake(m.s, p))
    case MarkBlocked(st) => m.(s := SetState(m.s, cur, st))
    case CallSchedule => m.(preempt := m.preempt[cur := m.preempt[cur] + 1], place := Before(Call))
    case TakeIrq => m.(handler := true, masked := true)
    case TimerTick => m.(s := TickOnce(m.s))
    case LeaveIrq =>
      if m.preempt[cur] == 0 && m.s.tasks[cur].needResched then
        // preempt_schedule_irq: warn, preempt_disable, raw_local_irq_enable
        m.(preempt := m.preempt[cur := m.preempt[cur] + 1], place := Before(Irq), handler := false, masked := false,
           bugs := m.bugs + if m.preempt[cur] != 0 then 1 else 0)
      else m.(handler := false, masked := false)
    case MaskIrqs =>
      m.(place := Core(m.place.via), masked := true, bugs := m.bugs + if m.preempt[cur] != 1 then 1 else 0)
    case Switch =>
      var s := Schedule(m.s);
      if s.cur == cur then m.(s := s, place := After(m.place.via))
      else
        m.(s := s, rest := m.rest[cur := Suspended(m.place.via)][s.cur := Running],
           place := Resume(m.rest[s.cur]), masked := false)
    case Unwind =>
      // preempt_schedule_irq masks again, but the eret of el1_irq restores the unmasked context
      m.(preempt := m.preempt[cur := m.preempt[cur] - 1], place := Out,
         masked := if m.place.via == Call then m.masked else false)
  }

  // ---------- the protocol ----------

  /** Outside the scheduler the running task counts 0 and inside it 1; suspended tasks count 1, new ones 0. */
  ghost predicate Protocol(m: Machine) {
    && Shaped(m) && InvCore(m.s) && m.bugs == 0
    && m.rest[m.s.cur] == Running
    && m.preempt[m.s.cur] == (if m.place == Out then 0 else 1)
    && (m.place.Core? ==> m.masked && !m.handler)
    && (m.handler ==> m.masked)
    && (forall i :: 0 <= i < |m.rest| && i != m.s.cur ==> RestOk(m.rest[i], m.preempt[i]))
  }

  ghost predicate RestOk(r: Rest, preempt: int) {
    r != Running && preempt == if r == NeverRun then 0 else 1
  }

  lemma InvIsCore(s: State)
    requires Inv(s)
    ensures InvCore(s)
  {
    forall i | 0 < i < |s.tasks| ensures i in s.queue <==> s.tasks[i].state == TASK_RUNNING || i == s.cur {
      if i == s.cur { assert s.tasks[i].state == TASK_RUNNING; }
    }
  }

  lemma ForkCore(s: State)
    requires InvCore(s)
    ensures InvCore(Fork(s))
  {
    var r := Fork(s);
    if |s.tasks| < NR_TASK {
      var n := |s.tasks|;
      assert n !in s.queue && TaskOk(s.cur, s.tasks[s.cur]);
      NoRepeatPush(n, s.queue);
      forall i | 0 <= i < |r.tasks| ensures TaskOk(i, r.tasks[i]) { if i < n { assert TaskOk(i, s.tasks[i]); } }
      forall i | 0 < i < |r.tasks| ensures i in r.queue <==> r.tasks[i].state == TASK_RUNNING || i == r.cur {
        if i < n { assert i in r.queue <==> i in s.queue; }
      }
    }
  }

  lemma WakeCore(s: State, p: nat)
    requires InvCore(s) && 0 < p < |s.tasks| && p != s.cur && s.tasks[p].state != TASK_RUNNING
    ensures InvCore(Wake(s, p))
  {
    var r := Wake(s, p);
    NoRepeatPush(p, s.queue);
    forall i | 0 <= i < |r.tasks| ensures TaskOk(i, r.tasks[i]) { assert TaskOk(i, s.tasks[i]); }
  }

  lemma TickCore(s: State)
    requires InvCore(s)
    ensures InvCore(TickOnce(s))
  {
    assert TaskOk(s.cur, s.tasks[s.cur]);
  }

  lemma MarkCore(s: State, st: nat)
    requires InvCore(s) && s.cur != 0
    ensures InvCore(SetState(s, s.cur, st))
  {
    assert TaskOk(s.cur, s.tasks[s.cur]);
  }

  lemma SwitchKeeps(m: Machine)
    requires Protocol(m) && CanStep(m, Switch)
    ensures Protocol(Next(m, Switch))
  {
    ScheduleInv(m.s);
    InvIsCore(Schedule(m.s));
    var s := Schedule(m.s);
    SwapKeeps(m.rest, m.preempt, m.s.cur, s.cur, m.place.via);
  }

  lemma SwapKeeps(rest: seq<Rest>, preempt: seq<int>, cur: nat, next: nat, via: Via)
    requires |rest| == |preempt| && cur < |rest| && next < |rest| && preempt[cur] == 1
    requires forall i :: 0 <= i < |rest| && i != cur ==> RestOk(rest[i], preempt[i])
    ensures next != cur ==> preempt[next] == (if rest[next] == NeverRun then 0 else 1) && rest[next] != Running
    ensures var r := rest[cur := Suspended(via)][next := Running];
            forall i :: 0 <= i < |rest| && i != next ==> RestOk(r[i], preempt[i])
  {
    if next != cur { assert RestOk(rest[next], preempt[next]); }
  }

  lemma StepKeeps(m: Machine, a: Action)
    requires Protocol(m) && CanStep(m, a)
    ensures Protocol(Next(m, a))
  {
    match a
    case ForkTask => ForkCore(m.s);
    case WakeTask(p) => WakeCore(m.s, p);
    case MarkBlocked(st) => MarkCore(m.s, st);
    case TimerTick => TickCore(m.s);
    case Switch => SwitchKeeps(m);
    case CallSchedule =>
    case TakeIrq =>
    case LeaveIrq =>
    case MaskIrqs =>
    case Unwind =>
  }

  lemma BootProtocol()
    ensures Protocol(BOOT_MACHINE)
  {
    BootInv();
    InvIsCore(BOOT_STATE);
  }

  ghost predicate Runs(m: Machine, acts: seq<Action>)
    requires Protocol(m)
    decreases |acts|
  {
    acts == [] || (CanStep(m, acts[0]) && (StepKeeps(m, acts[0]); Runs(Next(m, acts[0]), acts[1..])))
  }

  ghost function Reach(m: Machine, acts: seq<Action>): (m': Machine)
    requires Protocol(m) && Runs(m, acts)
    ensures Protocol(m')
    decreases |acts|
  {
    if acts == [] then m else StepKeeps(m, acts[0]); Reach(Next(m, acts[0]), acts[1..])
  }

  /**
   In every reachable state the counts follow the protocol, no BUG message has
   been printed, and an interrupt taken inside the scheduler returns there
   without entering it again.
   */
  lemma PreemptProtocol(acts: seq<Action>)
    requires Protocol(BOOT_MACHINE) && Runs(BOOT_MACHINE, acts)
    ensures var m := Reach(BOOT_MACHINE, acts);
            && m.bugs == 0
            && m.preempt[m.s.cur] == (if m.place == Out then 0 else 1)
            && (forall i :: 0 <= i < |m.rest| && i != m.s.cur ==>
                  m.preempt[i] == if m.rest[i] == NeverRun then 0 else 1)
            && (m.handler && m.place != Out ==> Next(m, LeaveIrq) == m.(handler := false, masked := false))
  {
    var m := Reach(BOOT_MACHINE, acts);
    forall i | 0 <= i < |m.rest| && i != m.s.cur ensures m.preempt[i] == if m.rest[i] == NeverRun then 0 else 1 {
      assert RestOk(m.rest[i], m.preempt[i]);
    }
  }

  /** The scheduler is entered silently if and only if exactly one preempt_disable is in force. */
  lemma BugIsPrinted(m: Machine)
    requires Shaped(m) && CanStep(m, MaskIrqs)
    ensures Next(m, MaskIrqs).bugs == (if m.preempt[m.s.cur] == 1 then m.bugs else m.bugs + 1)
  {
  }

  // ---------- one whole interrupt ----------

  function Repeated(a: Action, n: nat): seq<Action> {
    seq(n, i => a)
  }

  /** The running task after n ticks of a handler. */
  function AfterTicks(t: Task, n: nat): Task {
    if n == 0 then t
    else if t.count <= n then t.(count := 0, needResched := true)
    else t.(count := t.count - n)
  }

  function WithTask(m: Machine, t: Task): Machine
    requires m.s.cur < |m.s.tasks|
  {
    m.(s := m.s.(tasks := m.s.tasks[m.s.cur := t]))
  }

  lemma OneTick(m: Machine, n: nat)
    requires Shaped(m) && CanStep(m, TimerTick) && n > 0 && m.s.tasks[m.s.cur].count >= 0
    ensures var t := m.s.tasks[m.s.cur];
            && Next(m, TimerTick) == WithTask(m, AfterTicks(t, 1))
            && AfterTicks(AfterTicks(t, 1), n - 1) == AfterTicks(t, n) && AfterTicks(t, 1).count >= 0
  {
  }

  lemma {:induction false} TicksKeep(m: Machine, n: nat)
    requires Protocol(m) && m.handler
    ensures Protocol(WithTask(m, AfterTicks(m.s.tasks[m.s.cur], n)))
    decreases n
  {
    if n == 0 {
      assert WithTask(m, m.s.tasks[m.s.cur]) == m;
    } else {
      assert TaskOk(m.s.cur, m.s.tasks[m.s.cur]);
      StepKeeps(m, TimerTick);
      OneTick(m, n);
      TicksKeep(Next(m, TimerTick), n - 1);
    }
  }

  /** A run that starts with n ticks of a handler. */
  lemma {:induction false} HandlerTicks(m: Machine, n: nat, m2: Machine, more: seq<Action>)
    requires Protocol(m) && m.handler && m2 == WithTask(m, AfterTicks(m.s.tasks[m.s.cur], n))
    requires Protocol(m2) && Runs(m2, more)
    ensures Runs(m, Repeated(TimerTick, n) + more) && Reach(m, Repeated(TimerTick, n) + more) == Reach(m2, more)
    decreases n
  {
    if n == 0 {
      assert Repeated(TimerTick, 0) + more == more && m2 == m;
    } else {
      assert TaskOk(m.s.cur, m.s.tasks[m.s.cur]);
      StepKeeps(m, TimerTick);
      OneTick(m, n);
      HandlerTicks(Next(m, TimerTick), n - 1, m2, more);
      RepeatedStep(TimerTick, n, more);
      RunsFirst(m, TimerTick, Repeated(TimerTick, n - 1) + more);
    }
  }

  lemma RepeatedStep(a: Action, n: nat, more: seq<Action>)
    requires n > 0
    ensures [a] + (Repeated(a, n - 1) + more) == Repeated(a, n) + more
  {
  }

  /** An interrupt of the running task in which n ticks fall. */
  function Interrupt(n: nat): seq<Action> {
    [TakeIrq] + (Repeated(TimerTick, n) + [LeaveIrq])
  }

  /**
   An interrupt taken outside the scheduler preempts the running task if and
   only if need_resched was set before, or its n > 0 ticks used up the count.
   Otherwise the task goes on, with n credits less and nothing else changed.
   */
  lemma InterruptPreemptsIff(m: Machine, n: nat)
    requires Protocol(m) && m.place == Out && !m.handler && !m.masked
    ensures Runs(m, Interrupt(n))
    ensures var t, r := m.s.tasks[m.s.cur], Reach(m, Interrupt(n));
            && (r.place == Before(Irq) <==> t.needResched || (n > 0 && t.count <= n))
            && (r.place != Before(Irq) ==> r == WithTask(m, t.(count := t.count - n)))
            && r.s.cur == m.s.cur && !r.handler && !r.masked
  {
    var m2 := InterruptRuns(m, n);
    LeaveDecides(m, m2, n);
  }

  /** The machine at the end of the handler, and the run that gets there and out. */
  lemma InterruptRuns(m: Machine, n: nat) returns (m2: Machine)
    requires Protocol(m) && m.place == Out && !m.handler && !m.masked
    ensures m2 == WithTask(m.(handler := true, masked := true), AfterTicks(m.s.tasks[m.s.cur], n)) && Protocol(m2)
    ensures Runs(m, Interrupt(n)) && Reach(m, Interrupt(n)) == Next(m2, LeaveIrq)
  {
    StepKeeps(m, TakeIrq);
    var m1 := Next(m, TakeIrq);
    m2 := WithTask(m1, AfterTicks(m1.s.tasks[m1.s.cur], n));
    TicksKeep(m1, n);
    LeaveRuns(m2);
    HandlerTicks(m1, n, m2, [LeaveIrq]);
    RunsFirst(m, TakeIrq, Repeated(TimerTick, n) + [LeaveIrq]);
  }

  lemma LeaveRuns(m: Machine)
    requires Protocol(m) && m.handler
    ensures Runs(m, [LeaveIrq]) && Reach(m, [LeaveIrq]) == Next(m, LeaveIrq)
  {
    StepKeeps(m, LeaveIrq);
    RunsFirst(m, LeaveIrq, []);
    assert [LeaveIrq] + [] == [LeaveIrq];
  }

  lemma LeaveDecides(m: Machine, m2: Machine, n: nat)
    requires Protocol(m) && m.place == Out && !m.handler && !m.masked
    requires m2 == WithTask(m.(handler := true, masked := true), AfterTicks(m.s.tasks[m.s.cur], n)) && Protocol(m2)
    ensures var t, r := m.s.tasks[m.s.cur], Next(m2, LeaveIrq);
            && (r.place == Before(Irq) <==> t.needResched || (n > 0 && t.count <= n))
            && (r.place != Before(Irq) ==> r == WithTask(m, t.(count := t.count - n)))
            && r.s.cur == m.s.cur && !r.handler && !r.masked
  {
  }

  // ---------- interrupts when schedule() returns ----------

  /**
   Inside a call of schedule() by c, from the switch to the return. When the
   caller was picked again (self), it is still running, with interrupts masked
   since schedule_tail runs only after a switch. Otherwise it is suspended in
   the call, or was switched back in and interrupts are masked only by a handler.
   */
  ghost predicate InCall(m: Machine, c: nat, self: bool) {
    && Protocol(m) && c < |m.rest|
    && (m.s.cur != c ==> !self && m.rest[c] == Suspended(Call))
    && (m.s.cur == c ==> m.place == After(Call))
    && (m.s.cur == c && self ==> m.masked && !m.handler)
    && (m.s.cur == c && !self && m.masked ==> m.handler)
  }

  lemma CallBegins(m: Machine)
    requires Protocol(m) && m.place == Core(Call) && Schedulable(m.s)
    ensures InCall(Next(m, Switch), m.s.cur, Schedule(m.s).cur == m.s.cur)
  {
    ScheduleInv(m.s);
    SwitchKeeps(m);
  }

  /** Every step but the return of c itself stays inside the call. */
  lemma CallGoesOn(m: Machine, a: Action, c: nat, self: bool)
    requires InCall(m, c, self) && CanStep(m, a) && !(a == Unwind && m.s.cur == c)
    ensures InCall(Next(m, a), c, self)
  {
    StepKeeps(m, a);
    if a == Switch { ScheduleInv(m.s); }
  }

  /** c does not return from schedule() during the run. */
  ghost predicate StaysInside(m: Machine, acts: seq<Action>, c: nat)
    requires Protocol(m) && Runs(m, acts)
    decreases |acts|
  {
    acts == [] ||
    (StepKeeps(m, acts[0]); !(acts[0] == Unwind && m.s.cur == c) && StaysInside(Next(m, acts[0]), acts[1..], c))
  }

  lemma {:induction false} CallRuns(m: Machine, acts: seq<Action>, c: nat, self: bool)
    requires InCall(m, c, self) && Runs(m, acts) && StaysInside(m, acts, c)
    ensures InCall(Reach(m, acts), c, self)
    decreases |acts|
  {
    if acts != [] {
      CallGoesOn(m, acts[0], c, self);
      CallRuns(Next(m, acts[0]), acts[1..], c, self);
    }
  }

  /**
   schedule() returns with interrupts masked if and only if it picked its own
   caller, whatever ran in between: m is in __schedule, acts is any run up to
   the return of the caller, with other tasks, ticks and interrupts.
   */
  lemma MaskedExactlyWithoutSwitch(m: Machine, acts: seq<Action>)
    requires Protocol(m) && m.place == Core(Call) && Schedulable(m.s)
    requires Protocol(Next(m, Switch)) && Runs(Next(m, Switch), acts) && StaysInside(Next(m, Switch), acts, m.s.cur)
    requires var r := Reach(Next(m, Switch), acts); r.s.cur == m.s.cur && CanStep(r, Unwind)
    ensures var r := Next(Reach(Next(m, Switch), acts), Unwind);
            r.place == Out && (r.masked <==> Schedule(m.s).cur == m.s.cur)
  {
    CallBegins(m);
    CallRuns(Next(m, Switch), acts, m.s.cur, Schedule(m.s).cur == m.s.cur);
  }

  /** A task that an interrupt preempted always goes on with interrupts unmasked, picked again or not. */
  lemma PreemptedReturnsUnmasked(m: Machine)
    requires Protocol(m) && m.place == After(Irq) && CanStep(m, Unwind)
    ensures var r := Next(m, Unwind);
            Protocol(r) && r.place == Out && !r.masked && r.preempt[r.s.cur] == 0 && r.s == m.s
  {
    StepKeeps(m, Unwind);
  }

  // ---------- both cases happen ----------

  /** After one fork, schedule() of init_task switches to the new task. */
  const FIRST_SWITCH: seq<Action> := [ForkTask, CallSchedule, MaskIrqs]

  /** The new task, alone on the queue, then calls schedule() and is picked itself. */
  const SELF_PICK: seq<Action> := [Switch, CallSchedule, MaskIrqs]

  lemma RunsFirst(m: Machine, a: Action, acts: seq<Action>)
    requires Protocol(m) && CanStep(m, a) && Protocol(Next(m, a)) && Runs(Next(m, a), acts)
    ensures Runs(m, [a] + acts) && Reach(m, [a] + acts) == Reach(Next(m, a), acts)
  {
    assert ([a] + acts)[1..] == acts;
  }

  /** Any task that is outside the scheduler can get into it. */
  lemma EnterScheduler(m: Machine)
    requires Protocol(m) && m.place == Out && !m.handler
    ensures Runs(m, [CallSchedule, MaskIrqs])
    ensures var r := Reach(m, [CallSchedule, MaskIrqs]); r.place == Core(Call) && r.s == m.s && r.rest == m.rest
  {
    StepKeeps(m, CallSchedule);
    var m1 := Next(m, CallSchedule);
    StepKeeps(m1, MaskIrqs);
    RunsFirst(m1, MaskIrqs, []);
    RunsFirst(m, CallSchedule, [MaskIrqs]);
    assert [MaskIrqs] + [] == [MaskIrqs] && [CallSchedule] + [MaskIrqs] == [CallSchedule, MaskIrqs];
  }

  lemma SwitchHappens()
    ensures Protocol(BOOT_MACHINE) && Runs(BOOT_MACHINE, FIRST_SWITCH)
    ensures var m := Reach(BOOT_MACHINE, FIRST_SWITCH);
            m.place == Core(Call) && m.s == Fork(BOOT_STATE) && m.rest == [Running, NeverRun]
  {
    BootProtocol();
    StepKeeps(BOOT_MACHINE, ForkTask);
    var m := Next(BOOT_MACHINE, ForkTask);
    EnterScheduler(m);
    RunsFirst(BOOT_MACHINE, ForkTask, [CallSchedule, MaskIrqs]);
    assert [ForkTask] + [CallSchedule, MaskIrqs] == FIRST_SWITCH;
  }

  /** Both kinds of pick are reachable from boot. */
  lemma BothPicksHappen()
    ensures Protocol(BOOT_MACHINE) && Runs(BOOT_MACHINE, FIRST_SWITCH)
    ensures var m := Reach(BOOT_MACHINE, FIRST_SWITCH);
            && m.place == Core(Call) && Schedulable(m.s) && Schedule(m.s).cur != m.s.cur
            && Runs(m, SELF_PICK)
            && var m' := Reach(m, SELF_PICK);
               m'.place == Core(Call) && Schedulable(m'.s) && Schedule(m'.s).cur == m'.s.cur
  {
    SwitchHappens();
    var m := Reach(BOOT_MACHINE, FIRST_SWITCH);
    assert m.s.queue == [1] && Ready(m.s) == [1];
    ScheduleInv(m.s);
    StepKeeps(m, Switch);
    var r := Next(m, Switch);
    assert r.s.queue == [1] && r.s.cur == 1 && r.place == Out && Ready(r.s) == [1];
    EnterScheduler(r);
    RunsFirst(m, Switch, [CallSchedule, MaskIrqs]);
    assert [Switch] + [CallSchedule, MaskIrqs] == SELF_PICK;
  }
}
