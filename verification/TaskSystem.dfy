/**
 The concrete task system: task structures at page addresses, the pid table,
 the ring of all tasks and the run queue, updated in place as in
 kernel/fork.c, kernel/sched_simple.c and kernel/sched.c. Each operation is
 proved to do what the state machine of module Sched does.
 */
module TaskSystem {
  import opened PageAlloc
  import opened Lists
  import opened Sched

  /** The scalar fields of task_struct; module Preempt keeps preempt_count. */
  datatype TaskStruct = TaskStruct(state: nat, count: int, priority: int, pid: int, needResched: bool)

  type TaskMem = map<nat, TaskStruct>

  /** offsetof(struct task_struct, run_list). */
  const RUN_LIST: nat := 128

  ghost predicate Matches(t: TaskStruct, m: Task, pid: nat) {
    && t.state == m.state && t.count == m.count && t.priority == m.priority
    && t.needResched == m.needResched && t.pid == pid
  }

  /** The structure at p is the task m with this pid. */
  ghost predicate Shows(task: TaskMem, p: nat, m: Task, pid: nat) {
    p in task && Matches(task[p], m, pid)
  }

  /** The structure at ptrs[i] is task i of the model. */
  ghost predicate Represents(task: TaskMem, ptrs: seq<nat>, tasks: seq<Task>) {
    && |ptrs| == |tasks|
    && forall i {:trigger Shows(task, ptrs[i], tasks[i], i)} ::
         0 <= i < |ptrs| ==> Shows(task, ptrs[i], tasks[i], i)
  }

  ghost predicate InTable(ptrs: seq<nat>, queue: seq<nat>) {
    forall i :: 0 <= i < |queue| ==> queue[i] < |ptrs|
  }

  /** The list_head addresses of queued tasks, in queue order. */
  ghost function Nodes(ptrs: seq<nat>, queue: seq<nat>): (r: seq<nat>)
    requires InTable(ptrs, queue)
    ensures |r| == |queue| && forall i :: 0 <= i < |queue| ==> r[i] == ptrs[queue[i]] + RUN_LIST
  {
    seq(|queue|, i requires 0 <= i < |queue| => ptrs[queue[i]] + RUN_LIST)
  }

  lemma RepresentsUpdate(task: TaskMem, ptrs: seq<nat>, tasks: seq<Task>, i: nat, t: TaskStruct, m: Task)
    requires Represents(task, ptrs, tasks) && NoRepeat(ptrs) && i < |ptrs| && Matches(t, m, i)
    ensures Represents(task[ptrs[i] := t], ptrs, tasks[i := m])
  {
    forall j | 0 <= j < |ptrs| ensures Shows(task[ptrs[i] := t], ptrs[j], tasks[i := m][j], j) {
      assert Shows(task, ptrs[j], tasks[j], j) && Once(ptrs, i);
    }
  }

  lemma RepresentsAppend(task: TaskMem, ptrs: seq<nat>, tasks: seq<Task>, p: nat, t: TaskStruct, m: Task)
    requires Represents(task, ptrs, tasks) && p !in ptrs && Matches(t, m, |ptrs|)
    ensures Represents(task[p := t], ptrs + [p], tasks + [m])
  {
    forall j | 0 <= j <= |ptrs| ensures Shows(task[p := t], (ptrs + [p])[j], (tasks + [m])[j], j) {
      if j < |ptrs| { assert Shows(task, ptrs[j], tasks[j], j); }
    }
  }

  // ---------- the run queue ----------

  /** Every node of the queue is the run_list of a task in memory. */
  ghost predicate Embedded(task: TaskMem, nodes: seq<nat>) {
    forall i :: 0 <= i < |nodes| ==>
      nodes[i] >= RUN_LIST && nodes[i] - RUN_LIST in task && task[nodes[i] - RUN_LIST].count >= 0
  }

  /** The task found by a scan of the first i nodes: a later one wins only with a strictly larger count. */
  ghost function Leader(task: TaskMem, nodes: seq<nat>, i: nat): (p: nat)
    requires 0 < i <= |nodes| && Embedded(task, nodes)
    ensures p in task
  {
    var last := nodes[i - 1] - RUN_LIST;
    if i == 1 then last
    else
      var b := Leader(task, nodes, i - 1);
      if task[last].count > task[b].count then last else b
  }

  lemma {:induction false} LeaderPrefix(task: TaskMem, ptrs: seq<nat>, tasks: seq<Task>, queue: seq<nat>,
                                        nodes: seq<nat>, i: nat)
    requires Represents(task, ptrs, tasks) && InTable(ptrs, queue)
    requires nodes == Nodes(ptrs, queue) && Embedded(task, nodes) && 0 < i <= |queue|
    ensures Leader(task, nodes, i) == ptrs[BestOf(tasks, queue, i)]
    decreases i
  {
    var last := queue[i - 1];
    assert nodes[i - 1] == ptrs[last] + RUN_LIST;
    if i > 1 {
      LeaderPrefix(task, ptrs, tasks, queue, nodes, i - 1);
      SameCounts(task, ptrs, tasks, last, BestOf(tasks, queue, i - 1));
    }
  }

  lemma SameCounts(task: TaskMem, ptrs: seq<nat>, tasks: seq<Task>, i: nat, j: nat)
    requires Represents(task, ptrs, tasks) && i < |ptrs| && j < |ptrs|
    ensures ptrs[i] in task && ptrs[j] in task
    ensures task[ptrs[i]].count == tasks[i].count && task[ptrs[j]].count == tasks[j].count
  {
    assert Shows(task, ptrs[i], tasks[i], i) && Shows(task, ptrs[j], tasks[j], j);
  }

  lemma LeaderIsBest(task: TaskMem, ptrs: seq<nat>, tasks: seq<Task>, queue: seq<nat>)
    requires Represents(task, ptrs, tasks) && queue != [] && InTable(ptrs, queue)
    requires Embedded(task, Nodes(ptrs, queue))
    ensures Leader(task, Nodes(ptrs, queue), |queue|) == ptrs[Best(tasks, queue)]
  {
    var nodes := Nodes(ptrs, queue);
    LeaderPrefix(task, ptrs, tasks, queue, nodes, |queue|);
  }

  class RunQueue {
    const lists: ListHeads
    const head: nat
    var nrRunning: int
    ghost var nodes: seq<nat>

    ghost predicate Valid()
      reads this, lists
    {
      Ring(lists.next, lists.prev, head, nodes) && nrRunning == |nodes|
    }

    /** sched_init. */
    constructor (head: nat)
      ensures Valid() && nodes == [] && this.head == head && fresh(lists)
    {
      this.head := head;
      lists := new ListHeads();
      nrRunning := 0;
      nodes := [];
      new;
      lists.InitListHead(head);
    }

    /** enqueue_task_simple: list_add puts the node at the front. */
    method Enqueue(node: nat)
      requires Valid() && node != head && node !in nodes
      modifies this, lists
      ensures Valid() && nodes == [node] + old(nodes)
    {
      lists.ListAdd(node, head, nodes);
      nrRunning := nrRunning + 1;
      nodes := [node] + nodes;
    }

    /** dequeue_task_simple. */
    method Dequeue(node: nat, ghost k: nat)
      requires Valid() && k < |nodes| && nodes[k] == node
      modifies this, lists
      ensures Valid() && nodes == old(nodes)[..k] + old(nodes)[k + 1..]
    {
      nrRunning := nrRunning - 1;
      lists.ListDel(node, head, nodes, k);
      nodes := nodes[..k] + nodes[k + 1..];
    }

    /** One pass of list_for_each in pick_next_task_simple, from c = -1000. */
    method Scan(task: TaskMem) returns (c: int, next: nat)
      requires Valid() && Embedded(task, nodes)
      ensures nodes == [] ==> c == -1000 // and next is whatever the variable held
      ensures nodes != [] ==> next == Leader(task, nodes, |nodes|) && c == task[next].count
    {
      c, next := -1000, *;
      ghost var i := 0;
      assert LinkedAt(lists.next, lists.prev, head, nodes, 0);
      var tmp := lists.next[head];
      while tmp != head
        invariant 0 <= i <= |nodes| && tmp == At(head, nodes, i + 1)
        invariant i == 0 ==> c == -1000
        invariant i > 0 ==> next == Leader(task, nodes, i) && c == task[next].count
        decreases |nodes| - i
      {
        var p := tmp - RUN_LIST;
        var weight := task[p].count;
        if weight > c {
          c := weight;
          next := p;
        }
        assert LinkedAt(lists.next, lists.prev, head, nodes, i + 1);
        tmp := lists.next[tmp];
        i := i + 1;
      }
    }
  }

  // ---------- the kernel ----------

  /** The slice refill has reached the first i tasks of the ring. */
  ghost function ResetFirst(tasks: seq<Task>, i: nat): (r: seq<Task>)
    requires i < |tasks|
    ensures |r| == |tasks|
    ensures forall j :: 0 <= j < |tasks| ==>
              r[j] == if 0 < j <= i then tasks[j].(count := DEF_COUNTER + tasks[j].priority) else tasks[j]
  {
    seq(|tasks|, j requires 0 <= j < |tasks| =>
      if 0 < j <= i then tasks[j].(count := DEF_COUNTER + tasks[j].priority) else tasks[j])
  }

  class TaskRing {
    const initTask: nat
    var task: TaskMem
    var nextTask: Links
    var prevTask: Links
    ghost var ptrs: seq<nat>

    /** init_task heads the ring of all other tasks. */
    ghost predicate Valid()
      reads this
    {
      |ptrs| >= 1 && ptrs[0] == initTask && NoRepeat(ptrs) && Ring(nextTask, prevTask, initTask, ptrs[1..])
    }

    constructor (initTask: nat)
      ensures Valid() && this.initTask == initTask && ptrs == [initTask] && Represents(task, ptrs, BOOT_STATE.tasks)
    {
      this.initTask := initTask;
      task := map[initTask := TaskStruct(TASK_RUNNING, DEF_COUNTER, 1, 0, false)];
      nextTask, prevTask := map[initTask := initTask], map[initTask := initTask];
      ptrs := [initTask];
      assert [initTask][1..] == [];
    }

    /** SET_LINKS: the new task goes to the end of the ring. */
    method SetLinks(p: nat)
      requires Valid() && p !in ptrs
      modifies this`nextTask, this`prevTask, this`ptrs
      ensures Valid() && ptrs == old(ptrs) + [p]
    {
      ghost var ring := ptrs[1..];
      RingHas(nextTask, prevTask, initTask, ring, initTask);
      assert LinkedAt(nextTask, prevTask, initTask, ring, |ring|);
      InsertKeepsRing(nextTask, prevTask, initTask, ring, |ring|, p);
      InsertKeepsOnce(ptrs, |ptrs|, p);
      assert ptrs[..|ptrs|] + [p] + ptrs[|ptrs|..] == ptrs + [p];
      assert ring[..|ring|] + [p] + ring[|ring|..] == (ptrs + [p])[1..];
      nextTask := nextTask[p := initTask];
      prevTask := prevTask[p := prevTask[initTask]];
      nextTask := nextTask[prevTask[initTask] := p];
      prevTask := prevTask[initTask := p];
      assert prevTask == old(prevTask)[initTask := p][p := old(prevTask)[initTask]];
      ptrs := ptrs + [p];
    }

    /** reset_score: for_each_task visits every task but init_task. */
    method Refill(ghost tasks: seq<Task>)
      requires Valid() && Represents(task, ptrs, tasks)
      modifies this`task
      ensures Represents(task, ptrs, ResetScore(tasks))
    {
      ghost var ring := ptrs[1..];
      ghost var i := 0;
      RingHas(nextTask, prevTask, initTask, ring, initTask);
      assert LinkedAt(nextTask, prevTask, initTask, ring, 0);
      assert ResetFirst(tasks, 0) == tasks;
      var p := nextTask[initTask];
      while p != initTask
        invariant 0 <= i < |ptrs| && p == At(initTask, ring, i + 1)
        invariant Represents(task, ptrs, ResetFirst(tasks, i))
        decreases |ptrs| - i
      {
        assert p == ptrs[i + 1] && Shows(task, p, ResetFirst(tasks, i)[i + 1], i + 1);
        var t := task[p].(count := DEF_COUNTER + task[p].priority);
        RepresentsUpdate(task, ptrs, ResetFirst(tasks, i), i + 1, t, ResetFirst(tasks, i + 1)[i + 1]);
        assert ResetFirst(tasks, i)[i + 1 := ResetFirst(tasks, i + 1)[i + 1]] == ResetFirst(tasks, i + 1);
        task := task[p := t];
        assert LinkedAt(nextTask, prevTask, initTask, ring, i + 1);
        p := nextTask[p];
        i := i + 1;
      }
      assert ResetFirst(tasks, |ptrs| - 1) == ResetScore(tasks);
    }
  }

  lemma EmbeddedNodes(task: TaskMem, ptrs: seq<nat>, tasks: seq<Task>, queue: seq<nat>)
    requires Represents(task, ptrs, tasks) && InTable(ptrs, queue)
    requires NonNegative(tasks)
    ensures Embedded(task, Nodes(ptrs, queue))
  {
    var nodes := Nodes(ptrs, queue);
    forall i | 0 <= i < |nodes| ensures nodes[i] - RUN_LIST in task && task[nodes[i] - RUN_LIST].count >= 0 {
      assert Shows(task, ptrs[queue[i]], tasks[queue[i]], queue[i]);
    }
  }

  ghost predicate NonNegative(tasks: seq<Task>) {
    forall i :: 0 <= i < |tasks| ==> tasks[i].count >= 0
  }

  /** Counts are never negative, and after a reset every queued task has some. */
  lemma BaseCounts(s: State)
    requires Base(s)
    ensures NonNegative(s.tasks) && NonNegative(ResetScore(s.tasks))
    ensures s.queue != [] ==> ResetScore(s.tasks)[Best(ResetScore(s.tasks), s.queue)].count > 0
  {
    forall i | 0 <= i < |s.tasks| ensures s.tasks[i].count >= 0 && ResetScore(s.tasks)[i].count >= 0 {
      assert TaskOk(i, s.tasks[i]);
    }
    if s.queue != [] {
      var b := Best(ResetScore(s.tasks), s.queue);
      assert b in s.queue && TaskOk(b, s.tasks[b]);
    }
  }

  /** The model's pick from the queue as it stands. */
  ghost function Picked(s: State): State
    requires Base(s) && s.queue != []
  {
    var tasks := Replenish(s.tasks, s.queue);
    State(tasks[s.cur := tasks[s.cur].(needResched := false)], s.queue, Best(tasks, s.queue))
  }

  class Kernel {
    const alloc: PageAllocator
    const rq: RunQueue
    const ring: TaskRing
    const gTask: array<nat>
    var current: nat
    ghost var s: State

    /**
     The pid table is filled from the front, in the order of the ring; tasks
     but init_task are pages held from the allocator.
     */
    ghost predicate Table()
      reads this, ring, rq, gTask, alloc.memMap
    {
      && alloc.Valid() && gTask != alloc.memMap && gTask.Length == NR_TASK
      && 1 <= |ring.ptrs| <= NR_TASK
      && 0 < ring.initTask < LOW_MEMORY && 0 < rq.head < LOW_MEMORY
      && (forall i :: 0 <= i < NR_TASK ==> gTask[i] == if i < |ring.ptrs| then ring.ptrs[i] else 0)
      && (forall i :: 0 < i < |ring.ptrs| ==> alloc.Used(ring.ptrs[i]))
    }

    ghost predicate Valid()
      reads this, ring, rq, rq.lists, gTask, alloc.memMap
    {
      && Table() && rq.Valid() && ring.Valid()
      && Base(s) && Represents(ring.task, ring.ptrs, s.tasks)
      && current == ring.ptrs[s.cur]
      && rq.nodes == Nodes(ring.ptrs, s.queue)
    }

    ghost function FreePages(): nat
      reads alloc.memMap
    {
      FreeCount(alloc.memMap[..])
    }

    /** The image at boot, after sched_init: init_task alone, running and not queued. */
    constructor (alloc: PageAllocator, initTask: nat, rqHead: nat)
      requires alloc.Valid() && 0 < initTask < LOW_MEMORY && 0 < rqHead < LOW_MEMORY
      ensures Valid() && s == BOOT_STATE && this.alloc == alloc && fresh(gTask) && fresh(rq) && fresh(rq.lists)
      ensures fresh(ring) && ring.initTask == initTask && rq.head == rqHead
    {
      this.alloc := alloc;
      rq := new RunQueue(rqHead);
      ring := new TaskRing(initTask);
      gTask := new nat[NR_TASK](i => 0);
      current := initTask;
      s := BOOT_STATE;
      new;
      gTask[0] := initTask;
      assert Nodes(ring.ptrs, s.queue) == [];
    }

    /** task_tick_simple on the current task, as tick_handle_periodic calls it. */
    method TickHandlePeriodic()
      requires Valid()
      modifies this`s, ring`task
      ensures Valid() && s == TickOnce(old(s))
    {
      assert Shows(ring.task, current, s.tasks[s.cur], s.cur) && TaskOk(s.cur, s.tasks[s.cur]);
      var t := ring.task[current];
      t := t.(count := t.count - 1);
      if t.count <= 0 {
        t := t.(count := 0, needResched := true);
      }
      RepresentsUpdate(ring.task, ring.ptrs, s.tasks, s.cur, t, TickOnce(s).tasks[s.cur]);
      ring.task := ring.task[current := t];
      s := TickOnce(s);
    }

    /**
     pick_next_task_simple: on a non-empty queue it ends after at most one
     reset, and returns the best task of the model. On an empty one it changes
     nothing and returns an uninitialised pointer.
     */
    method PickNextTask() returns (next: nat)
      requires rq.Valid() && ring.Valid() && Represents(ring.task, ring.ptrs, s.tasks)
      requires Base(s) && rq.nodes == Nodes(ring.ptrs, s.queue)
      modifies ring`task
      ensures s.queue == [] ==> ring.task == old(ring.task)
      ensures s.queue != [] ==> Represents(ring.task, ring.ptrs, Replenish(s.tasks, s.queue))
      ensures s.queue != [] ==> next == ring.ptrs[Best(Replenish(s.tasks, s.queue), s.queue)]
    {
      ghost var tasks, queue := s.tasks, s.queue;
      BaseCounts(s);
      var c;
      c, next := Rescan(tasks, queue);
      while c == 0
        invariant Represents(ring.task, ring.ptrs, tasks)
        invariant queue == [] ==> c == -1000 && ring.task == old(ring.task)
        invariant queue != [] ==> next == ring.ptrs[Best(tasks, queue)] && c == tasks[Best(tasks, queue)].count
        invariant tasks == s.tasks ||
                  (c > 0 && tasks == ResetScore(s.tasks) && queue != [] && Exhausted(s.tasks, queue))
        decreases c == 0
      {
        ring.Refill(tasks);
        tasks := ResetScore(tasks);
        c, next := Rescan(tasks, queue);
      }
    }

    /** One scan of the queue, read against the model. */
    method Rescan(ghost tasks: seq<Task>, ghost queue: seq<nat>) returns (c: int, next: nat)
      requires rq.Valid() && Represents(ring.task, ring.ptrs, tasks)
      requires (forall i :: 0 <= i < |queue| ==> queue[i] < |ring.ptrs|) && rq.nodes == Nodes(ring.ptrs, queue)
      requires NonNegative(tasks)
      ensures queue == [] ==> c == -1000
      ensures queue != [] ==> next == ring.ptrs[Best(tasks, queue)] && c == tasks[Best(tasks, queue)].count
    {
      EmbeddedNodes(ring.task, ring.ptrs, tasks, queue);
      c, next := rq.Scan(ring.task);
      if queue != [] {
        LeaderIsBest(ring.task, ring.ptrs, tasks, queue);
        ghost var b := Best(tasks, queue);
        assert Shows(ring.task, ring.ptrs[b], tasks[b], b);
      }
    }

    /** dequeue_task of the current task, which has blocked. */
    method DequeueCurrent()
      requires Valid() && s.cur in s.queue
      modifies this`s, rq, rq.lists
      ensures Valid() && s == old(s).(queue := Remove(old(s.queue), s.cur))
    {
      ghost var k :| 0 <= k < |s.queue| && s.queue[k] == s.cur;
      ghost var queue := s.queue;
      RemoveAt(queue, k);
      rq.Dequeue(current + RUN_LIST, k);
      NodesRemove(ring.ptrs, queue, k);
      BaseRemove(s, k);
      s := s.(queue := Remove(queue, s.cur));
    }

    /** clear_task_resched(prev), then switch_to(prev, next) when they differ. */
    method SwitchTo(next: nat, ghost tasks: seq<Task>, ghost r: State)
      requires Table() && rq.Valid() && ring.Valid()
      requires s.cur < |ring.ptrs| && current == ring.ptrs[s.cur] && Represents(ring.task, ring.ptrs, tasks)
      requires Base(r) && r.queue == s.queue && r.tasks == tasks[s.cur := tasks[s.cur].(needResched := false)]
      requires next == ring.ptrs[r.cur] && rq.nodes == Nodes(ring.ptrs, r.queue)
      modifies this`s, this`current, ring`task
      ensures Valid() && s == r
    {
      assert Shows(ring.task, current, tasks[s.cur], s.cur);
      var t := ring.task[current].(needResched := false);
      RepresentsUpdate(ring.task, ring.ptrs, tasks, s.cur, t, tasks[s.cur].(needResched := false));
      ring.task := ring.task[current := t];
      if next != current {
        current := next;
      }
      s := r;
    }

    /** The second half of __schedule: pick and switch. */
    method SwitchToNext()
      requires Valid() && s.queue != []
      modifies this`s, this`current, ring`task
      ensures Valid() && s == Picked(old(s))
    {
      ghost var tasks, r := ReplenishBase(s);
      var next := PickNextTask();
      SwitchTo(next, tasks, r);
    }

    /**
     __schedule, up to the register switch: the new current task and every
     field are those of the model.
     */
    method Schedule()
      requires Valid() && Schedulable(s) && (s.tasks[s.cur].state != TASK_RUNNING ==> s.cur in s.queue)
      modifies this`s, this`current, ring`task, rq, rq.lists
      ensures Valid() && s == Sched.Schedule(old(s))
    {
      assert Shows(ring.task, current, s.tasks[s.cur], s.cur);
      if ring.task[current].state != TASK_RUNNING {
        DequeueCurrent();
      }
      SwitchToNext();
    }

    /** p->state = st, for a task other than init_task. */
    method StoreState(p: nat, ghost pid: nat, st: nat)
      requires Valid() && 0 < pid < |s.tasks| && p == ring.ptrs[pid]
      modifies this`s, ring`task
      ensures Valid() && s == SetState(old(s), pid, st)
    {
      assert Shows(ring.task, p, s.tasks[pid], pid) && TaskOk(pid, s.tasks[pid]);
      var t := ring.task[p].(state := st);
      RepresentsUpdate(ring.task, ring.ptrs, s.tasks, pid, t, s.tasks[pid].(state := st));
      ring.task := ring.task[p := t];
      s := SetState(s, pid, st);
    }

    /** enqueue_task of a task that is not queued. */
    method EnqueueTask(p: nat, ghost pid: nat)
      requires Valid() && 0 < pid < |s.tasks| && p == ring.ptrs[pid] && pid !in s.queue
      modifies this`s, rq, rq.lists
      ensures Valid() && s == old(s).(queue := [pid] + old(s.queue))
    {
      NewNode(ring.ptrs, s.queue, pid, rq.head);
      NodesPush(ring.ptrs, s.queue, pid);
      BasePush(s, pid);
      rq.Enqueue(p + RUN_LIST);
      s := s.(queue := [pid] + s.queue);
    }

    /** wake_up_process of a task that is not queued. */
    method WakeUpProcess(p: nat, ghost pid: nat)
      requires Valid() && 0 < pid < |s.tasks| && p == ring.ptrs[pid] && pid !in s.queue
      modifies this`s, ring`task, rq, rq.lists
      ensures Valid() && s == Wake(old(s), pid)
    {
      StoreState(p, pid, TASK_RUNNING);
      EnqueueTask(p, pid);
    }

    method FindEmptyTask() returns (pid: int)
      requires Valid()
      ensures pid == if |ring.ptrs| < NR_TASK then |ring.ptrs| else -1
    {
      forall j | 0 <= j < |ring.ptrs| ensures ring.ptrs[j] > 0 { if j > 0 { assert alloc.Used(ring.ptrs[j]); } }
      var i := 0;
      while i < NR_TASK
        invariant 0 <= i <= NR_TASK && i <= |ring.ptrs|
      {
        if gTask[i] == 0 { return i; }
        i := i + 1;
      }
      return -1;
    }

    /** The fields of the child and of the parent, and the pid slot, in do_fork. */
    method FillTask(p: nat, pid: nat)
      requires Valid() && alloc.Used(p) && p !in ring.ptrs && pid == |ring.ptrs| < NR_TASK
      modifies this`s, ring, gTask
      ensures Valid() && s == Forked(old(s)) && ring.ptrs == old(ring.ptrs) + [p]
    {
      assert Shows(ring.task, current, s.tasks[s.cur], s.cur);
      var count := ring.task[current].count;
      var parent := ring.task[current].(count := count / 2);
      var child := TaskStruct(TASK_RUNNING, (count + 1) / 2, FORK_PRIORITY, pid, false);
      ForkedRepresents(ring.task, ring.ptrs, s, current, p, parent, child);
      ForkedBase(s);
      ring.task := ring.task[current := parent][p := child];
      gTask[pid] := p;
      ring.SetLinks(p);
      s := Forked(s);
      NodesSame(old(ring.ptrs), p, s.queue);
    }

    /**
     do_fork: without a free page nothing changes; without a free pid nothing
     changes either, but the page stays taken; otherwise the child joins the
     table, the ring and the queue, and the count is split.
     */
    method DoFork() returns (pid: int)
      requires Valid()
      modifies this`s, ring, rq, rq.lists, gTask, alloc.memMap
      ensures Valid()
      ensures var i := FirstFree(old(alloc.memMap[..]));
              if i == NR_PAGES then
                && pid == -1 && s == old(s) && ring.ptrs == old(ring.ptrs)
                && alloc.memMap[..] == old(alloc.memMap[..])
              else
                && alloc.memMap[..] == old(alloc.memMap[..])[i := 1]
                && if old(|s.tasks|) == NR_TASK then pid == -1 && s == old(s) && ring.ptrs == old(ring.ptrs)
                   else pid == old(|s.tasks|) && s == Fork(old(s)) && ring.ptrs == old(ring.ptrs) + [PageOf(i)]
    {
      var p := alloc.GetFreePage();
      FreshPage();
      if p == 0 { return -1; }
      pid := FindEmptyTask();
      if pid < 0 { return -1; }
      FillTask(p, pid);
      assert pid !in s.queue;
      WakeUpProcess(p, pid);
      assert s.tasks == Forked(old(s)).tasks;
    }

    /** A page just taken is none of the tasks; those are still held. */
    twostate lemma FreshPage()
      requires old(Valid()) && unchanged(this) && unchanged(ring) && unchanged(rq) && unchanged(rq.lists)
      requires unchanged(gTask)
      requires var i := FirstFree(old(alloc.memMap[..]));
               alloc.memMap[..] == if i == NR_PAGES then old(alloc.memMap[..]) else old(alloc.memMap[..])[i := 1]
      ensures Valid()
      ensures var i := FirstFree(old(alloc.memMap[..])); i < NR_PAGES ==>
                alloc.Used(PageOf(i)) && PageOf(i) !in ring.ptrs
    {
      var i := FirstFree(old(alloc.memMap[..]));
      if i < NR_PAGES {
        PageIndex(i);
        forall j | 0 <= j < |ring.ptrs| ensures ring.ptrs[j] != PageOf(i) && (j > 0 ==> alloc.Used(ring.ptrs[j])) {
          if j > 0 { assert old(alloc.Used(ring.ptrs[j])); }
        }
      }
    }
  }

  /** What is done to the allocator alone leaves the kernel valid as long as its tasks keep their pages. */
  twostate lemma StillValid(k: Kernel)
    requires old(k.Valid()) && unchanged(k) && unchanged(k.ring) && unchanged(k.rq) && unchanged(k.rq.lists)
    requires unchanged(k.gTask)
    requires forall i :: 0 < i < |k.ring.ptrs| ==> Marked(k.alloc.memMap[..], k.ring.ptrs[i])
    ensures k.Valid()
  {
  }

  lemma NodesRemove(ptrs: seq<nat>, queue: seq<nat>, k: nat)
    requires k < |queue| && InTable(ptrs, queue)
    ensures var r := queue[..k] + queue[k + 1..];
            && (forall i :: 0 <= i < |r| ==> r[i] < |ptrs|)
            && Nodes(ptrs, r) == Nodes(ptrs, queue)[..k] + Nodes(ptrs, queue)[k + 1..]
  {
    var r := queue[..k] + queue[k + 1..];
    forall i | 0 <= i < |r| ensures r[i] == queue[if i < k then i else i + 1] {}
  }

  lemma NodesPush(ptrs: seq<nat>, queue: seq<nat>, pid: nat)
    requires pid < |ptrs| && InTable(ptrs, queue)
    ensures Nodes(ptrs, [pid] + queue) == [ptrs[pid] + RUN_LIST] + Nodes(ptrs, queue)
  {
  }

  lemma BasePush(s: State, pid: nat)
    requires Base(s) && 0 < pid < |s.tasks| && pid !in s.queue
    ensures Base(s.(queue := [pid] + s.queue))
  {
    NoRepeatPush(pid, s.queue);
  }

  lemma NewNode(ptrs: seq<nat>, queue: seq<nat>, pid: nat, head: nat)
    requires pid < |ptrs| && NoRepeat(ptrs) && InTable(ptrs, queue)
    requires pid !in queue && ptrs[pid] >= LOW_MEMORY && head < LOW_MEMORY
    ensures ptrs[pid] + RUN_LIST != head && ptrs[pid] + RUN_LIST !in Nodes(ptrs, queue)
  {
    var nodes := Nodes(ptrs, queue);
    assert Once(ptrs, pid);
    forall i | 0 <= i < |nodes| ensures nodes[i] != ptrs[pid] + RUN_LIST { assert queue[i] in queue; }
  }

  lemma BaseRemove(s: State, k: nat)
    requires Base(s) && k < |s.queue|
    ensures Base(s.(queue := Remove(s.queue, s.queue[k])))
  {
    RemoveDistinct(s.queue, s.queue[k]);
    var r := Remove(s.queue, s.queue[k]);
    forall i | 0 <= i < |r| ensures 0 < r[i] < |s.tasks| { assert r[i] in s.queue; }
  }

  lemma ReplenishBase(s: State) returns (tasks: seq<Task>, r: State)
    requires Base(s) && s.queue != []
    ensures tasks == Replenish(s.tasks, s.queue) && r == Picked(s)
    ensures Base(r) && r.queue == s.queue && r.cur == Best(tasks, s.queue)
    ensures r.tasks == tasks[s.cur := tasks[s.cur].(needResched := false)]
  {
    tasks, r := Replenish(s.tasks, s.queue), Picked(s);
    forall i | 0 <= i < |tasks| ensures TaskOk(i, tasks[i]) { assert TaskOk(i, s.tasks[i]); }
  }

  /** The child of a fork, and the model state before wake_up_process queues it. */
  ghost function Child(s: State): Task
    requires s.cur < |s.tasks|
  {
    Task(TASK_RUNNING, (s.tasks[s.cur].count + 1) / 2, FORK_PRIORITY, false)
  }

  ghost function Forked(s: State): State
    requires s.cur < |s.tasks|
  {
    s.(tasks := s.tasks[s.cur := s.tasks[s.cur].(count := s.tasks[s.cur].count / 2)] + [Child(s)])
  }

  lemma ForkedRepresents(task: TaskMem, ptrs: seq<nat>, s: State, current: nat, p: nat, parent: TaskStruct,
                         child: TaskStruct)
    requires Represents(task, ptrs, s.tasks) && NoRepeat(ptrs) && s.cur < |ptrs| && current == ptrs[s.cur] && p !in ptrs
    requires Matches(parent, s.tasks[s.cur].(count := s.tasks[s.cur].count / 2), s.cur)
    requires Matches(child, Child(s), |ptrs|)
    ensures Represents(task[current := parent][p := child], ptrs + [p], Forked(s).tasks)
  {
    var m := s.tasks[s.cur].(count := s.tasks[s.cur].count / 2);
    RepresentsUpdate(task, ptrs, s.tasks, s.cur, parent, m);
    RepresentsAppend(task[current := parent], ptrs, s.tasks[s.cur := m], p, child, Child(s));
  }

  lemma ForkedBase(s: State)
    requires Base(s) && |s.tasks| < NR_TASK
    ensures Base(Forked(s))
  {
    var r := Forked(s);
    assert TaskOk(s.cur, s.tasks[s.cur]);
    forall i | 0 <= i < |r.tasks| ensures TaskOk(i, r.tasks[i]) { if i < |s.tasks| { assert TaskOk(i, s.tasks[i]); } }
  }

  lemma NodesSame(ptrs: seq<nat>, p: nat, queue: seq<nat>)
    requires InTable(ptrs, queue)
    ensures Nodes(ptrs + [p], queue) == Nodes(ptrs, queue)
  {
  }
}
