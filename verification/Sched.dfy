/**
 The scheduler and task system as a state machine: fork, tick, schedule,
 block and wake, with time-slice credits and the epoch reset
 (kernel/sched_simple.c, kernel/sched.c, kernel/fork.c). Tasks are numbered
 by pid; task 0 is init_task, which is never queued.
 */
module Sched {
  import opened Lists

  const DEF_COUNTER: nat := 25
  const NR_TASK: nat := 64
  const TASK_RUNNING: nat := 0
  const FORK_PRIORITY: nat := 2

  datatype Task = Task(state: nat, count: int, priority: int, needResched: bool)

  /** Tasks by pid, the run queue from its head, and the running task. */
  datatype State = State(tasks: seq<Task>, queue: seq<nat>, cur: nat)

  const INIT_TASK := Task(TASK_RUNNING, DEF_COUNTER, 1, false)

  const BOOT_STATE := State([INIT_TASK], [], 0)

  // ---------- pick_next_task_simple ----------

  /** All queued pids belong to tasks. */
  predicate Known(tasks: seq<Task>, queue: seq<nat>) {
    forall i :: 0 <= i < |queue| ==> queue[i] < |tasks|
  }

  /** Position k is the first with the largest count among the first n of the queue. */
  ghost predicate FirstAt(tasks: seq<Task>, queue: seq<nat>, n: nat, k: nat)
    requires Known(tasks, queue) && n <= |queue|
  {
    && k < n
    && (forall j :: 0 <= j < n ==> tasks[queue[j]].count <= tasks[queue[k]].count)
    && (forall j :: 0 <= j < k ==> tasks[queue[j]].count < tasks[queue[k]].count)
  }

  /** p is the first task in queue order with the largest count. */
  ghost predicate FirstBest(tasks: seq<Task>, queue: seq<nat>, p: nat)
    requires Known(tasks, queue)
  {
    exists k: nat {:trigger FirstAt(tasks, queue, |queue|, k)} :: FirstAt(tasks, queue, |queue|, k) && queue[k] == p
  }

  /** The scan of the first n of the queue: a later task wins only with a strictly larger count. */
  function BestOf(tasks: seq<Task>, queue: seq<nat>, n: nat): (p: nat)
    requires 0 < n <= |queue| && Known(tasks, queue)
    ensures p in queue && p < |tasks|
  {
    var last := queue[n - 1];
    if n == 1 then last
    else
      var b := BestOf(tasks, queue, n - 1);
      if tasks[last].count > tasks[b].count then last else b
  }

  function Best(tasks: seq<Task>, queue: seq<nat>): (p: nat)
    requires queue != [] && Known(tasks, queue)
    ensures p in queue && p < |tasks|
  {
    BestOf(tasks, queue, |queue|)
  }

  lemma {:induction false} BestOfIsFirst(tasks: seq<Task>, queue: seq<nat>, n: nat) returns (k: nat)
    requires 0 < n <= |queue| && Known(tasks, queue)
    ensures FirstAt(tasks, queue, n, k) && queue[k] == BestOf(tasks, queue, n)
  {
    if n == 1 {
      k := 0;
    } else {
      k := BestOfIsFirst(tasks, queue, n - 1);
      if tasks[queue[n - 1]].count > tasks[queue[k]].count { k := n - 1; }
    }
  }

  /** The scan finds the first task in queue order with the largest count. */
  lemma BestIsFirst(tasks: seq<Task>, queue: seq<nat>)
    requires queue != [] && Known(tasks, queue)
    ensures FirstBest(tasks, queue, Best(tasks, queue))
  {
    var k := BestOfIsFirst(tasks, queue, |queue|);
  }

  /** reset_score: every task on the ring, so all but init_task, gets a full slice. */
  function ResetScore(tasks: seq<Task>): (r: seq<Task>)
    ensures |r| == |tasks|
    ensures forall i :: 0 <= i < |tasks| ==>
              r[i] == if i == 0 then tasks[0] else tasks[i].(count := DEF_COUNTER + tasks[i].priority)
  {
    seq(|tasks|, i requires 0 <= i < |tasks| =>
      if i == 0 then tasks[0] else tasks[i].(count := DEF_COUNTER + tasks[i].priority))
  }

  /** A pick finds only exhausted tasks and starts a new epoch. */
  predicate Exhausted(tasks: seq<Task>, queue: seq<nat>)
    requires queue != [] && Known(tasks, queue)
  {
    tasks[Best(tasks, queue)].count == 0
  }

  function Replenish(tasks: seq<Task>, queue: seq<nat>): (r: seq<Task>)
    requires queue != [] && Known(tasks, queue)
    ensures |r| == |tasks|
  {
    if Exhausted(tasks, queue) then ResetScore(tasks) else tasks
  }

  // ---------- the invariant of every run ----------

  ghost predicate TaskOk(i: nat, t: Task) {
    && 0 <= t.count <= DEF_COUNTER + t.priority
    && t.priority == (if i == 0 then 1 else FORK_PRIORITY)
    && (i == 0 ==> t.state == TASK_RUNNING)
  }

  ghost predicate TasksOk(tasks: seq<Task>) {
    forall i {:trigger TaskOk(i, tasks[i])} :: 0 <= i < |tasks| ==> TaskOk(i, tasks[i])
  }

  /** The queue holds tasks other than init_task, none twice. */
  ghost predicate QueueOk(queue: seq<nat>, n: nat) {
    (forall i :: 0 <= i < |queue| ==> 0 < queue[i] < n) && NoRepeat(queue)
  }

  /** A task other than init_task is queued exactly when it is runnable. */
  ghost predicate Inv(s: State) {
    && 1 <= |s.tasks| <= NR_TASK && s.cur < |s.tasks|
    && TasksOk(s.tasks) && QueueOk(s.queue, |s.tasks|)
    && (forall i :: 0 <= i < |s.tasks| ==> !s.tasks[i].needResched)
    && (forall i :: 0 < i < |s.tasks| ==> (i in s.queue <==> s.tasks[i].state == TASK_RUNNING))
    && s.tasks[s.cur].state == TASK_RUNNING
  }

  lemma BootInv()
    ensures Inv(BOOT_STATE)
  {
  }

  // ---------- steps ----------

  function Remove(queue: seq<nat>, p: nat): (r: seq<nat>)
    ensures |r| <= |queue|
    ensures forall x :: x in r <==> x in queue && x != p
  {
    if queue == [] then []
    else if queue[0] == p then Remove(queue[1..], p)
    else [queue[0]] + Remove(queue[1..], p)
  }

  /** __schedule: drop a blocked task from the queue, pick, and clear need_resched of the old one. */
  function Schedule(s: State): State
    requires s.cur < |s.tasks| && Schedulable(s)
  {
    var queue := Ready(s);
    var tasks := Replenish(s.tasks, queue);
    var next := Best(tasks, queue);
    State(tasks[s.cur := tasks[s.cur].(needResched := false)], queue, next)
  }

  function Ready(s: State): seq<nat>
    requires s.cur < |s.tasks|
  {
    if s.tasks[s.cur].state != TASK_RUNNING then Remove(s.queue, s.cur) else s.queue
  }

  /** pick_next_task_simple has no answer for an empty queue. */
  predicate Schedulable(s: State)
    requires s.cur < |s.tasks|
  {
    Ready(s) != [] && Known(s.tasks, Ready(s))
  }

  /** task_tick_simple on the running task. */
  function TickOnce(s: State): State
    requires s.cur < |s.tasks|
  {
    var t := s.tasks[s.cur];
    s.(tasks := s.tasks[s.cur :=
      if t.count - 1 <= 0 then t.(count := 0, needResched := true) else t.(count := t.count - 1)])
  }

  /** do_fork with a page available: the child takes the larger half of the count, and heads the queue. */
  function Fork(s: State): State
    requires s.cur < |s.tasks|
  {
    if |s.tasks| >= NR_TASK then s
    else
      var c := s.tasks[s.cur].count;
      State(s.tasks[s.cur := s.tasks[s.cur].(count := c / 2)] + [Task(TASK_RUNNING, (c + 1) / 2, FORK_PRIORITY, false)],
            [|s.tasks|] + s.queue, s.cur)
  }

  function SetState(s: State, p: nat, st: nat): State
    requires p < |s.tasks|
  {
    s.(tasks := s.tasks[p := s.tasks[p].(state := st)])
  }

  /** wake_up_process of a task that is off the queue. */
  function Wake(s: State, p: nat): State
    requires p < |s.tasks|
  {
    SetState(s, p, TASK_RUNNING).(queue := [p] + s.queue)
  }

  datatype Event =
    | DoFork
    | Tick              // a timer interrupt, with the reschedule it asks for
    | Yield             // schedule() by a runnable task
    | Block(st: nat)    // a task sets its state and calls schedule()
    | WakeUp(p: nat)

  /** The state in which an event calls pick_next_task, if it does. */
  function BeforePick(s: State, e: Event): State
    requires s.cur < |s.tasks|
  {
    match e
    case Tick => TickOnce(s)
    case Block(st) => SetState(s, s.cur, st)
    case _ => s
  }

  /** The event reaches __schedule. */
  predicate Picks(s: State, e: Event)
    requires s.cur < |s.tasks|
  {
    match e
    case Tick => TickOnce(s).tasks[s.cur].needResched
    case Yield => true
    case Block(_) => true
    case _ => false
  }

  /** Only a task other than init_task blocks, only a blocked one is woken, and a pick needs a candidate. */
  predicate Enabled(s: State, e: Event)
    requires s.cur < |s.tasks|
  {
    && (e.Block? ==> e.st != TASK_RUNNING && s.cur != 0)
    && (e.WakeUp? ==> 0 < e.p < |s.tasks| && s.tasks[e.p].state != TASK_RUNNING)
    && (Picks(s, e) ==> Schedulable(BeforePick(s, e)))
  }

  function Step(s: State, e: Event): State
    requires s.cur < |s.tasks| && Enabled(s, e)
  {
    if Picks(s, e) then Schedule(BeforePick(s, e))
    else match e
      case DoFork => Fork(s)
      case Tick => TickOnce(s)
      case WakeUp(p) => Wake(s, p)
  }

  /** The event starts a new epoch. */
  predicate Resets(s: State, e: Event)
    requires s.cur < |s.tasks| && Enabled(s, e)
  {
    Picks(s, e) && Exhausted(BeforePick(s, e).tasks, Ready(BeforePick(s, e)))
  }

  // ---------- every step keeps the invariant ----------

  /** The invariant, except that the running task may be about to block or to be rescheduled. */
  ghost predicate InvCore(s: State) {
    && 1 <= |s.tasks| <= NR_TASK && s.cur < |s.tasks|
    && TasksOk(s.tasks) && QueueOk(s.queue, |s.tasks|)
    && (forall i :: 0 <= i < |s.tasks| && i != s.cur ==> !s.tasks[i].needResched)
    && (forall i :: 0 < i < |s.tasks| ==> (i in s.queue <==> s.tasks[i].state == TASK_RUNNING || i == s.cur))
  }

  /** What the code relies on at every instant, also in the middle of a step. */
  ghost predicate Base(s: State) {
    && 1 <= |s.tasks| <= NR_TASK && s.cur < |s.tasks|
    && TasksOk(s.tasks) && QueueOk(s.queue, |s.tasks|)
  }

  /** The rest of a queue without repetition has none either, and not its first element. */
  lemma NoRepeatRest(queue: seq<nat>)
    requires queue != [] && NoRepeat(queue)
    ensures NoRepeat(queue[1..]) && queue[0] !in queue[1..]
  {
    forall i | 0 <= i < |queue| - 1 ensures Once(queue[1..], i) && queue[1..][i] != queue[0] {
      assert Once(queue, i + 1);
    }
  }

  lemma NoRepeatPush(p: nat, queue: seq<nat>)
    requires NoRepeat(queue) && p !in queue
    ensures NoRepeat([p] + queue)
  {
    forall i | 0 <= i < |queue| + 1 ensures Once([p] + queue, i) {
      if i > 0 { assert Once(queue, i - 1); }
    }
  }

  lemma {:induction false} RemoveAt(queue: seq<nat>, k: nat)
    requires k < |queue| && NoRepeat(queue)
    ensures Remove(queue, queue[k]) == queue[..k] + queue[k + 1..]
  {
    NoRepeatRest(queue);
    if k == 0 {
      RemoveAbsent(queue[1..], queue[0]);
    } else {
      RemoveAt(queue[1..], k - 1);
      assert queue[..k] == [queue[0]] + queue[1..][..k - 1];
      assert queue[k] in queue[1..];
    }
  }

  lemma {:induction false} RemoveAbsent(queue: seq<nat>, p: nat)
    requires p !in queue
    ensures Remove(queue, p) == queue
  {
    if queue != [] { RemoveAbsent(queue[1..], p); }
  }

  lemma {:induction false} RemoveDistinct(queue: seq<nat>, p: nat)
    requires NoRepeat(queue)
    ensures NoRepeat(Remove(queue, p))
  {
    if queue != [] {
      NoRepeatRest(queue);
      RemoveDistinct(queue[1..], p);
      NoRepeatPush(queue[0], Remove(queue[1..], p));
    }
  }

  /** What is left to pick from: exactly the runnable tasks other than init_task. */
  lemma ReadyQueue(s: State)
    requires InvCore(s)
    ensures var q := Ready(s);
            && QueueOk(q, |s.tasks|)
            && (forall i :: 0 < i < |s.tasks| ==> (i in q <==> s.tasks[i].state == TASK_RUNNING))
  {
    RemoveDistinct(s.queue, s.cur);
    var q := Ready(s);
    forall i | 0 <= i < |q| ensures 0 < q[i] < |s.tasks| { assert q[i] in s.queue; }
  }

  lemma ScheduleInv(s: State)
    requires InvCore(s) && Schedulable(s)
    ensures Inv(Schedule(s))
    ensures Schedule(s).cur in Schedule(s).queue
  {
    ReadyQueue(s);
    ReplenishOk(s.tasks, Ready(s), s.cur);
  }

  /** Replenishing the slices and clearing need_resched of one task changes no state and keeps counts in range. */
  lemma ReplenishOk(tasks: seq<Task>, queue: seq<nat>, cur: nat)
    requires TasksOk(tasks) && cur < |tasks| && queue != [] && Known(tasks, queue)
    ensures var r := Replenish(tasks, queue)[cur := Replenish(tasks, queue)[cur].(needResched := false)];
            && TasksOk(r) && !r[cur].needResched
            && forall i :: 0 <= i < |r| ==>
                 r[i].state == tasks[i].state && (i != cur ==> r[i].needResched == tasks[i].needResched)
  {
    var r := Replenish(tasks, queue)[cur := Replenish(tasks, queue)[cur].(needResched := false)];
    forall i | 0 <= i < |r| ensures TaskOk(i, r[i]) { assert TaskOk(i, tasks[i]); }
  }

  lemma BeforePickCore(s: State, e: Event)
    requires Inv(s) && Enabled(s, e)
    ensures InvCore(BeforePick(s, e))
  {
    var r := BeforePick(s, e);
    forall i | 0 <= i < |r.tasks| ensures TaskOk(i, r.tasks[i]) { assert TaskOk(i, s.tasks[i]); }
  }

  lemma ForkInv(s: State)
    requires Inv(s)
    ensures Inv(Fork(s))
  {
    var r := Fork(s);
    if |s.tasks| < NR_TASK {
      var n := |s.tasks|;
      assert n !in s.queue;
      NoRepeatPush(n, s.queue);
      forall i | 0 <= i < |r.tasks| ensures TaskOk(i, r.tasks[i]) {
        assert TaskOk(s.cur, s.tasks[s.cur]);
        if i < n { assert TaskOk(i, s.tasks[i]); }
      }
      forall i | 0 < i < |r.tasks| ensures i in r.queue <==> r.tasks[i].state == TASK_RUNNING {
        if i < n { assert i in r.queue <==> i in s.queue; }
      }
    }
  }

  lemma WakeInv(s: State, p: nat)
    requires Inv(s) && 0 < p < |s.tasks| && s.tasks[p].state != TASK_RUNNING
    ensures Inv(Wake(s, p))
  {
    var r := Wake(s, p);
    NoRepeatPush(p, s.queue);
    forall i | 0 <= i < |r.tasks| ensures TaskOk(i, r.tasks[i]) { assert TaskOk(i, s.tasks[i]); }
  }

  lemma StepInv(s: State, e: Event)
    requires Inv(s) && Enabled(s, e)
    ensures Inv(Step(s, e))
  {
    BeforePickCore(s, e);
    if Picks(s, e) {
      ScheduleInv(BeforePick(s, e));
    } else if e == DoFork {
      ForkInv(s);
    } else if e.WakeUp? {
      WakeInv(s, e.p);
    }
  }

  // ---------- runs ----------

  /** Every event is enabled when its turn comes. */
  ghost predicate Valid(s: State, es: seq<Event>)
    requires Inv(s)
    decreases |es|
  {
    es == [] || (Enabled(s, es[0]) && (StepInv(s, es[0]); Valid(Step(s, es[0]), es[1..])))
  }

  ghost function Run(s: State, es: seq<Event>): (s': State)
    requires Inv(s) && Valid(s, es)
    ensures Inv(s')
    decreases |es|
  {
    if es == [] then s else StepInv(s, es[0]); Run(Step(s, es[0]), es[1..])
  }

  /** In every reachable state the queue holds each runnable task but init_task once, and counts stay in range. */
  lemma ReachableInv(es: seq<Event>)
    requires Inv(BOOT_STATE) && Valid(BOOT_STATE, es)
    ensures var s := Run(BOOT_STATE, es);
            && Inv(s) && 0 !in s.queue
            && (forall i :: 0 <= i < |s.tasks| ==> 0 <= s.tasks[i].count <= DEF_COUNTER + FORK_PRIORITY)
  {
    var s := Run(BOOT_STATE, es);
    forall i | 0 <= i < |s.tasks| ensures 0 <= s.tasks[i].count <= DEF_COUNTER + FORK_PRIORITY {
      assert TaskOk(i, s.tasks[i]);
    }
  }

  // ---------- what a pick returns ----------

  /**
   On a non-empty queue a pick ends after at most one reset, and returns the
   first task in queue order with the largest count, which is positive.
   */
  lemma PickIsPositive(s: State)
    requires InvCore(s) && Schedulable(s)
    ensures var tasks := Replenish(s.tasks, Ready(s));
            && FirstBest(tasks, Ready(s), Schedule(s).cur)
            && tasks[Schedule(s).cur].count > 0
            && !Exhausted(tasks, Ready(s))
            && (Exhausted(s.tasks, Ready(s)) <==> forall i :: 0 <= i < |Ready(s)| ==> s.tasks[Ready(s)[i]].count == 0)
  {
    var queue := Ready(s);
    var tasks := Replenish(s.tasks, queue);
    BestIsFirst(s.tasks, queue);
    BestIsFirst(tasks, queue);
    forall i | 0 <= i < |queue| ensures queue[i] in s.queue && TaskOk(queue[i], s.tasks[queue[i]]) {
      assert queue[i] in queue;
    }
    assert Best(s.tasks, queue) in queue && Best(tasks, queue) in queue;
  }
}
