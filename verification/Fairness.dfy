/**
 Properties of whole scheduler runs: credit conservation, freedom from
 starvation with a bound in ticks, and fairness of an epoch.
 */
module Fairness {
  import opened Sched

  // ---------- total credit ----------

  function Total(tasks: seq<Task>): int {
    if tasks == [] then 0 else tasks[0].count + Total(tasks[1..])
  }

  lemma {:induction false} TotalUpdate(tasks: seq<Task>, i: nat, t: Task)
    requires i < |tasks|
    ensures Total(tasks[i := t]) == Total(tasks) - tasks[i].count + t.count
  {
    if i == 0 {
      assert tasks[0 := t][1..] == tasks[1..];
    } else {
      assert tasks[i := t][1..] == tasks[1..][i - 1 := t];
      TotalUpdate(tasks[1..], i - 1, t);
    }
  }

  lemma {:induction false} TotalAppend(tasks: seq<Task>, t: Task)
    ensures Total(tasks + [t]) == Total(tasks) + t.count
  {
    if tasks == [] {
      assert [t][1..] == [];
    } else {
      assert (tasks + [t])[1..] == tasks[1..] + [t];
      TotalAppend(tasks[1..], t);
    }
  }

  lemma {:induction false} TotalBounds(tasks: seq<Task>, i: nat)
    requires i < |tasks|
    requires forall j :: 0 <= j < |tasks| ==> 0 <= tasks[j].count <= DEF_COUNTER + FORK_PRIORITY
    ensures tasks[i].count <= Total(tasks) <= tasks[i].count + (DEF_COUNTER + FORK_PRIORITY) * (|tasks| - 1)
  {
    if |tasks| == 1 {
      assert tasks[1..] == [];
    } else if i == 0 {
      TotalBounds(tasks[1..], 0);
    } else {
      TotalBounds(tasks[1..], i - 1);
    }
  }

  /** do_fork splits a count without loss, whether it is odd or even; of an odd one the child has one more. */
  lemma ForkConserves(s: State)
    requires s.cur < |s.tasks|
    ensures Total(Fork(s).tasks) == Total(s.tasks)
    ensures |s.tasks| < NR_TASK ==>
              var parent, child := Fork(s).tasks[s.cur].count, Fork(s).tasks[|s.tasks|].count;
              parent + child == s.tasks[s.cur].count && parent <= child <= parent + 1
  {
    var c := s.tasks[s.cur].count;
    var parent := s.tasks[s.cur].(count := c / 2);
    TotalUpdate(s.tasks, s.cur, parent);
    TotalAppend(s.tasks[s.cur := parent], Task(TASK_RUNNING, (c + 1) / 2, FORK_PRIORITY, false));
  }

  /** The tick takes a credit: it finds the running task's count positive. */
  predicate Spends(s: State, e: Event)
    requires s.cur < |s.tasks|
  {
    e == Tick && s.tasks[s.cur].count > 0
  }

  /** Only ticks, by one each, and resets change the total. */
  lemma StepCredit(s: State, e: Event)
    requires Inv(s) && Enabled(s, e)
    ensures !Resets(s, e) ==> Total(Step(s, e).tasks) == Total(s.tasks) - (if Spends(s, e) then 1 else 0)
  {
    var b := BeforePick(s, e);
    assert TaskOk(s.cur, s.tasks[s.cur]);
    TotalUpdate(s.tasks, s.cur, b.tasks[s.cur]);
    if Picks(s, e) {
      if !Resets(s, e) { TotalUpdate(b.tasks, s.cur, b.tasks[s.cur].(needResched := false)); }
    } else if e == DoFork {
      ForkConserves(s);
    } else if e.WakeUp? {
      TotalUpdate(s.tasks, e.p, s.tasks[e.p].(state := TASK_RUNNING));
    }
  }

  ghost function Spent(s: State, es: seq<Event>): nat
    requires Inv(s) && Valid(s, es)
    decreases |es|
  {
    if es == [] then 0
    else StepInv(s, es[0]); (if Spends(s, es[0]) then 1 else 0) + Spent(Step(s, es[0]), es[1..])
  }

  ghost predicate NoReset(s: State, es: seq<Event>)
    requires Inv(s) && Valid(s, es)
    decreases |es|
  {
    es == [] || (StepInv(s, es[0]); !Resets(s, es[0]) && NoReset(Step(s, es[0]), es[1..]))
  }

  /** Over a run without a reset, the credits lost are exactly the ticks that spent one. */
  lemma {:induction false} RunCredit(s: State, es: seq<Event>)
    requires Inv(s) && Valid(s, es) && NoReset(s, es)
    ensures Total(Run(s, es).tasks) == Total(s.tasks) - Spent(s, es)
    decreases |es|
  {
    if es != [] {
      StepInv(s, es[0]);
      StepCredit(s, es[0]);
      RunCredit(Step(s, es[0]), es[1..]);
    }
  }

  // ---------- a slice lasts ----------

  /** Ticks, and wake-ups of others, but no call of the scheduler and no fork. */
  predicate OnlyTicks(es: seq<Event>) {
    forall i :: 0 <= i < |es| ==> es[i] == Tick || es[i].WakeUp?
  }

  lemma TickStays(s: State, e: Event)
    requires Inv(s) && Enabled(s, e) && (e == Tick || e.WakeUp?)
    requires e == Tick ==> s.tasks[s.cur].count > 1
    ensures !Picks(s, e) && Step(s, e).cur == s.cur && |Step(s, e).tasks| == |s.tasks|
    ensures Step(s, e).tasks[s.cur].count == s.tasks[s.cur].count - (if e == Tick then 1 else 0)
  {
  }

  /**
   A running task with c credits goes on through every run of fewer than c
   ticks: it stays the current task, has lost exactly the ticks, and no epoch
   ends.
   */
  lemma {:induction false} SliceLasts(s: State, es: seq<Event>)
    requires Inv(s) && Valid(s, es) && OnlyTicks(es) && Ticks(es) < s.tasks[s.cur].count
    ensures var r := Run(s, es);
            r.cur == s.cur < |r.tasks| && r.tasks[r.cur].count == s.tasks[s.cur].count - Ticks(es) && NoReset(s, es)
    decreases |es|
  {
    if es != [] {
      StepInv(s, es[0]);
      TickStays(s, es[0]);
      SliceLasts(Step(s, es[0]), es[1..]);
    }
  }

  /** And the tick that uses up the last credit is the one that reaches the scheduler. */
  lemma SliceEnds(s: State, es: seq<Event>)
    requires Inv(s) && Valid(s, es) && OnlyTicks(es) && Ticks(es) < s.tasks[s.cur].count
    ensures var r := Run(s, es);
            && r.cur < |r.tasks|
            && (Picks(r, Tick) <==> Ticks(es) == s.tasks[s.cur].count - 1)
            && BeforePick(r, Tick).tasks[r.cur].count == s.tasks[s.cur].count - Ticks(es) - 1
  {
    SliceLasts(s, es);
    var r := Run(s, es);
    assert !r.tasks[r.cur].needResched;
  }

  /** A tick of a task without credit reaches the scheduler at once, and takes nothing. */
  lemma SpentTaskIsRescheduled(s: State)
    requires Inv(s) && s.tasks[s.cur].count == 0
    ensures Picks(s, Tick) && BeforePick(s, Tick).tasks[s.cur].count == 0
  {
  }

  /**
   A task that was just woken or forked is at the head of the queue, so among
   tasks with equal counts it is picked first.
   */
  lemma NewestFirst(s: State, e: Event, p: nat)
    requires Inv(s) && Enabled(s, e) && p == (if e.WakeUp? then e.p else |s.tasks|)
    requires e.WakeUp? || (e == DoFork && |s.tasks| < NR_TASK)
    requires var r := Step(s, e); p < |r.tasks| && r.tasks[p].count > 0
    requires var r := Step(s, e); forall q :: q in r.queue && q < |r.tasks| ==> r.tasks[q].count <= r.tasks[p].count
    ensures var r := Step(s, e); Enabled(r, Yield) && Step(r, Yield).cur == p
  {
    StepInv(s, e);
    var r := Step(s, e);
    assert r.tasks[r.cur].state == TASK_RUNNING && r.queue[0] == p;
    assert forall j :: 0 <= j < |r.queue| ==> r.queue[j] in r.queue;
    HeadWins(r.tasks, r.queue);
  }

  /** The head of the queue is picked when nobody has more credit. */
  lemma HeadWins(tasks: seq<Task>, queue: seq<nat>)
    requires queue != [] && Known(tasks, queue)
    requires forall j :: 0 <= j < |queue| ==> tasks[queue[j]].count <= tasks[queue[0]].count
    ensures Best(tasks, queue) == queue[0]
  {
    BestIsFirst(tasks, queue);
    var k: nat :| FirstAt(tasks, queue, |queue|, k) && queue[k] == Best(tasks, queue);
  }

  // ---------- starvation ----------

  function Ticks(es: seq<Event>): nat {
    if es == [] then 0 else (if es[0] == Tick then 1 else 0) + Ticks(es[1..])
  }

  function Forks(es: seq<Event>): nat {
    if es == [] then 0 else (if es[0] == DoFork then 1 else 0) + Forks(es[1..])
  }

  /** p never runs, at the start or after any event. */
  ghost predicate NeverRuns(s: State, es: seq<Event>, p: nat)
    requires Inv(s) && Valid(s, es)
    decreases |es|
  {
    s.cur != p && (es == [] || (StepInv(s, es[0]); NeverRuns(Step(s, es[0]), es[1..], p)))
  }

  /** The credits of the other tasks, and one more if the running task has none left. */
  function Potential(s: State, p: nat): int
    requires s.cur < |s.tasks| && p < |s.tasks|
  {
    Total(s.tasks) - s.tasks[p].count + (if s.tasks[s.cur].count == 0 then 1 else 0)
  }

  lemma PotentialPositive(s: State, p: nat)
    requires Inv(s) && p < |s.tasks| && s.cur != p
    ensures 1 <= Potential(s, p) <= (DEF_COUNTER + FORK_PRIORITY) * (|s.tasks| - 1) + 1
  {
    forall j | 0 <= j < |s.tasks| ensures 0 <= s.tasks[j].count <= DEF_COUNTER + FORK_PRIORITY {
      assert TaskOk(j, s.tasks[j]);
    }
    TotalBounds(s.tasks, p);
    TwoCounts(s.tasks, p, s.cur);
  }

  lemma {:induction false} TwoCounts(tasks: seq<Task>, i: nat, j: nat)
    requires i < |tasks| && j < |tasks| && i != j
    requires forall k :: 0 <= k < |tasks| ==> 0 <= tasks[k].count <= DEF_COUNTER + FORK_PRIORITY
    ensures tasks[i].count + tasks[j].count <= Total(tasks)
  {
    if i > 0 && j > 0 {
      TwoCounts(tasks[1..], i - 1, j - 1);
    } else {
      TotalBounds(tasks[1..], (if i == 0 then j else i) - 1);
    }
  }

  lemma WaitingPick(s: State, e: Event, p: nat)
    requires Inv(s) && Enabled(s, e) && Picks(s, e) && p in s.queue && s.cur != p
    ensures p < |s.tasks| && p < |Step(s, e).tasks| && p in Step(s, e).queue
    ensures !Resets(s, e) ==> Step(s, e).tasks[p].count == s.tasks[p].count
    ensures Resets(s, e) ==> s.tasks[p].count == 0 && Step(s, e).tasks[p].count == DEF_COUNTER + FORK_PRIORITY
  {
    var b := BeforePick(s, e);
    BeforePickCore(s, e);
    ReadyQueue(b);
    PickIsPositive(b);
    var i :| 0 <= i < |s.queue| && s.queue[i] == p;
    assert TaskOk(p, s.tasks[p]) && b.tasks[p] == s.tasks[p];
    assert p in Ready(b);
  }

  /** A waiting task keeps its place and its count unless a reset refills it. */
  lemma WaitingKeeps(s: State, e: Event, p: nat)
    requires Inv(s) && Enabled(s, e) && p in s.queue && s.cur != p
    ensures p < |s.tasks| && p < |Step(s, e).tasks| && p in Step(s, e).queue
    ensures !Resets(s, e) ==> Step(s, e).tasks[p].count == s.tasks[p].count
    ensures Resets(s, e) ==> s.tasks[p].count == 0 && Step(s, e).tasks[p].count == DEF_COUNTER + FORK_PRIORITY
  {
    if Picks(s, e) {
      WaitingPick(s, e, p);
    } else {
      var i :| 0 <= i < |s.queue| && s.queue[i] == p;
    }
  }

  /** After a pick the running task has credit. */
  lemma PickedHasCredit(s: State, e: Event)
    requires Inv(s) && Enabled(s, e) && Picks(s, e)
    ensures Step(s, e).cur < |Step(s, e).tasks| && Step(s, e).tasks[Step(s, e).cur].count > 0
  {
    BeforePickCore(s, e);
    PickIsPositive(BeforePick(s, e));
  }

  /** Without a reset, each tick lowers the potential by one and only a fork can raise it, by one. */
  lemma PotentialStep(s: State, e: Event, p: nat)
    requires Inv(s) && Enabled(s, e) && p in s.queue && s.cur != p && !Resets(s, e)
    ensures p < |s.tasks| && p < |Step(s, e).tasks| && Step(s, e).cur < |Step(s, e).tasks|
    ensures Potential(Step(s, e), p) <= Potential(s, p) - (if e == Tick then 1 else 0) + (if e == DoFork then 1 else 0)
  {
    StepInv(s, e);
    StepCredit(s, e);
    WaitingKeeps(s, e, p);
    assert TaskOk(s.cur, s.tasks[s.cur]);
    if Picks(s, e) { PickedHasCredit(s, e); }
  }

  /**
   Starvation freedom: a queued task with a positive count that never runs
   sees at most as many ticks as the other tasks have credits, one more if the
   running task has none, and one more for each fork.
   */
  lemma {:induction false} PositiveTaskRuns(s: State, es: seq<Event>, p: nat)
    requires Inv(s) && Valid(s, es) && p in s.queue && NeverRuns(s, es, p)
    requires p < |s.tasks| && s.tasks[p].count > 0
    ensures Ticks(es) < Potential(s, p) + Forks(es)
    decreases |es|
  {
    if es == [] {
      PotentialPositive(s, p);
    } else {
      StepInv(s, es[0]);
      WaitingKeeps(s, es[0], p);
      PotentialStep(s, es[0], p);
      PositiveTaskRuns(Step(s, es[0]), es[1..], p);
    }
  }

  /** A waiting task with credit runs within one epoch. */
  lemma PositiveTaskRunsInEpoch(s: State, es: seq<Event>, p: nat)
    requires Inv(s) && Valid(s, es) && p in s.queue && NeverRuns(s, es, p)
    requires p < |s.tasks| && s.tasks[p].count > 0
    ensures Ticks(es) < Forks(es) + (DEF_COUNTER + FORK_PRIORITY) * (NR_TASK - 1) + 1
  {
    PositiveTaskRuns(s, es, p);
    PotentialPositive(s, p);
    assert |s.tasks| <= NR_TASK;
  }

  /** A queued task with no count left waits at most for the rest of this epoch and the whole of the next. */
  lemma {:induction false} ExhaustedTaskRuns(s: State, es: seq<Event>, p: nat)
    requires Inv(s) && Valid(s, es) && p in s.queue && NeverRuns(s, es, p)
    requires p < |s.tasks| && s.tasks[p].count == 0
    ensures Ticks(es) < Potential(s, p) + Forks(es) + (DEF_COUNTER + FORK_PRIORITY) * (NR_TASK - 1) + 1
    decreases |es|
  {
    PotentialPositive(s, p);
    if es != [] {
      StepInv(s, es[0]);
      WaitingKeeps(s, es[0], p);
      if Resets(s, es[0]) {
        PositiveTaskRunsInEpoch(Step(s, es[0]), es[1..], p);
      } else {
        PotentialStep(s, es[0], p);
        ExhaustedTaskRuns(Step(s, es[0]), es[1..], p);
      }
    }
  }

  // ---------- fairness of an epoch ----------

  /** The tick takes a credit from p. */
  predicate SpendsOn(s: State, e: Event, p: nat)
    requires s.cur < |s.tasks|
  {
    Spends(s, e) && s.cur == p
  }

  ghost function SpentOn(s: State, es: seq<Event>, p: nat): nat
    requires Inv(s) && Valid(s, es)
    decreases |es|
  {
    if es == [] then 0
    else StepInv(s, es[0]); (if SpendsOn(s, es[0], p) then 1 else 0) + SpentOn(Step(s, es[0]), es[1..], p)
  }

  ghost predicate NeverForks(s: State, es: seq<Event>, p: nat)
    requires Inv(s) && Valid(s, es)
    decreases |es|
  {
    es == [] || (StepInv(s, es[0]); !(es[0] == DoFork && s.cur == p) && NeverForks(Step(s, es[0]), es[1..], p))
  }

  lemma PickSpendsOn(s: State, e: Event, p: nat)
    requires Inv(s) && Enabled(s, e) && 0 < p < |s.tasks| && Picks(s, e)
    ensures p < |Step(s, e).tasks|
    ensures !Resets(s, e) ==> Step(s, e).tasks[p].count == BeforePick(s, e).tasks[p].count
    ensures Resets(s, e) && p in Step(s, e).queue ==> BeforePick(s, e).tasks[p].count == 0
    ensures Resets(s, e) ==> Step(s, e).tasks[p].count == DEF_COUNTER + FORK_PRIORITY
  {
    var b := BeforePick(s, e);
    BeforePickCore(s, e);
    PickIsPositive(b);
    assert TaskOk(p, b.tasks[p]);
    if Resets(s, e) && p in Step(s, e).queue {
      var i :| 0 <= i < |Ready(b)| && Ready(b)[i] == p;
    }
  }

  lemma StepSpendsOn(s: State, e: Event, p: nat)
    requires Inv(s) && Enabled(s, e) && 0 < p < |s.tasks| && !(e == DoFork && s.cur == p)
    ensures p < |Step(s, e).tasks|
    ensures !Resets(s, e) ==> Step(s, e).tasks[p].count == s.tasks[p].count - (if SpendsOn(s, e, p) then 1 else 0)
    ensures Resets(s, e) && p in Step(s, e).queue ==> s.tasks[p].count == (if SpendsOn(s, e, p) then 1 else 0)
    ensures Resets(s, e) ==> Step(s, e).tasks[p].count == DEF_COUNTER + FORK_PRIORITY
  {
    assert TaskOk(p, s.tasks[p]) && TaskOk(s.cur, s.tasks[s.cur]);
    if Picks(s, e) { PickSpendsOn(s, e, p); }
  }

  /** Without a reset, a count falls by exactly the ticks that were spent on it. */
  lemma {:induction false} SpentOnRun(s: State, es: seq<Event>, p: nat)
    requires Inv(s) && Valid(s, es) && NoReset(s, es) && NeverForks(s, es, p) && 0 < p < |s.tasks|
    ensures p < |Run(s, es).tasks|
    ensures Run(s, es).tasks[p].count == s.tasks[p].count - SpentOn(s, es, p)
    decreases |es|
  {
    if es != [] {
      StepInv(s, es[0]);
      StepSpendsOn(s, es[0], p);
      SpentOnRun(Step(s, es[0]), es[1..], p);
    }
  }

  /**
   Epoch fairness: from one reset to the next, a task that is still queued at
   the second and did not fork is charged exactly DEF_COUNTER + priority ticks.
   */
  lemma EpochIsFair(s: State, e: Event, es: seq<Event>, e': Event, p: nat)
    requires Inv(s) && Enabled(s, e) && Resets(s, e) && 0 < p < |s.tasks|
    requires var s1 := Step(s, e); Inv(s1) && Valid(s1, es) && NoReset(s1, es) && NeverForks(s1, es, p)
    requires var s2 := Run(Step(s, e), es); Enabled(s2, e') && Resets(s2, e') && p in Step(s2, e').queue
    ensures var s1 := Step(s, e);
            var s2 := Run(s1, es);
            && p < |s2.tasks|
            && SpentOn(s1, es, p) + (if SpendsOn(s2, e', p) then 1 else 0) == DEF_COUNTER + s.tasks[p].priority == 27
  {
    var s1 := Step(s, e);
    StepSpendsOn(s, e, p);
    SpentOnRun(s1, es, p);
    var s2 := Run(s1, es);
    StepSpendsOn(s2, e', p);
    assert TaskOk(p, s.tasks[p]);
  }

  /** A reset happens only when every queued task has spent its slice. */
  lemma ResetOnlyWhenSpent(s: State, e: Event)
    requires Inv(s) && Enabled(s, e) && Resets(s, e)
    ensures forall i :: 0 <= i < |Step(s, e).queue| ==>
              var p := Step(s, e).queue[i]; p < |s.tasks| && BeforePick(s, e).tasks[p].count == 0
  {
    BeforePickCore(s, e);
    PickIsPositive(BeforePick(s, e));
  }
}
