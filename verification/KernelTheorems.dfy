/** What callers get from the kernel over whole runs: no wakeup is lost, sleeps are exact,
    and round robin passes a top-priority task over fewer times than there are tasks. */
module KernelTheorems {
  import opened Bytes
  import opened Kernel
  import opened KernelInvariants

  // ---------------------------------------------------------- no lost wakeup

  /** Task `i` is in the waiter list that belongs to `at`. */
  ghost predicate ListedAt(s: State, i: nat, at: Point) {
    match at
    case User => false
    case Locking(m) => m < |s.mutexes| && i in s.mutexes[m].waiters
    case Waiting(x) => x < |s.sems| && i in s.sems[x].waiters
  }

  /** What the waiters of `at` are waiting for is not available. */
  ghost predicate Unavailable(s: State, at: Point) {
    match at
    case User => false
    case Locking(m) => m < |s.mutexes| && s.mutexes[m].locked && Distinct(s.mutexes[m].waiters)
    case Waiting(x) => x < |s.sems| && s.sems[x].count <= 0 && Distinct(s.sems[x].waiters)
  }

  /** In every reachable state a task is BLOCKED and not sleeping exactly when it is in
      one waiter list, once, and that list's resource is unavailable. */
  lemma NoLostWakeup(s0: State, steps: seq<Step>, i: nat)
    requires Initial(s0) && CanRun(s0, steps) && i < |Run(s0, steps).tasks|
    ensures var s := Run(s0, steps); var t := s.tasks[i];
            && (t.state == Blocked && t.wakeTick == 0 <==> exists at :: ListedAt(s, i, at))
            && (forall at :: ListedAt(s, i, at) ==> at == t.point && Unavailable(s, at))
  {
    RunKeepsInv(s0, steps);
    var s := Run(s0, steps);
    assert TaskOk(s, i);
    if s.tasks[i].state == Blocked && s.tasks[i].wakeTick == 0 {
      assert ListedAt(s, i, s.tasks[i].point);
    }
    forall at | ListedAt(s, i, at)
      ensures at == s.tasks[i].point && Unavailable(s, at)
      ensures s.tasks[i].state == Blocked && s.tasks[i].wakeTick == 0
    {
      match at
      case Locking(m) => assert MutexOk(s, m) && Parked(s, i, at);
      case Waiting(x) => assert SemOk(s, x) && Parked(s, i, at);
    }
  }

  /** Releasing wakes every task blocked on what was released. */
  lemma ReleaseWakesAll(s: State, step: Step, i: nat)
    requires Inv(s) && Enabled(s, step) && i < |s.tasks| && s.tasks[i].state == Blocked && s.tasks[i].wakeTick == 0
    requires (step.Unlock? && s.tasks[i].point == Locking(step.m))
          || (step.Post? && s.tasks[i].point == Waiting(step.s))
    ensures Apply(s, step).tasks[i].state == Ready
  {
    assert TaskOk(s, i);
  }

  // -------------------------------------------------------------------- sleep

  function CountTicks(steps: seq<Step>): nat {
    if steps == [] then 0 else (if steps[0].Tick? then 1 else 0) + CountTicks(steps[1..])
  }

  ghost predicate Asleep(s: State, t: nat, wake: nat) {
    t < |s.tasks| && s.tasks[t].state == Blocked && s.tasks[t].wakeTick == wake && wake != 0
  }

  lemma StepKeepsAsleep(s: State, step: Step, t: nat, wake: nat)
    requires Inv(s) && Enabled(s, step) && Asleep(s, t, wake)
    requires step.Tick? ==> s.ticks + 1 < wake
    ensures Asleep(Apply(s, step), t, wake)
    ensures Apply(s, step).ticks == s.ticks + if step.Tick? then 1 else 0
  {
    assert TaskOk(s, t);
    match step
    case Tick(p) => TickShape(s, p);
    case Unlock(m) => assert MutexOk(s, m) && !Parked(s, t, Locking(m));
    case Post(x) => assert SemOk(s, x) && !Parked(s, t, Waiting(x));
    case _ =>
  }

  lemma {:induction false} RunKeepsAsleep(s: State, steps: seq<Step>, t: nat, wake: nat)
    requires Inv(s) && CanRun(s, steps) && Asleep(s, t, wake) && s.ticks + CountTicks(steps) < wake
    ensures Asleep(Run(s, steps), t, wake)
    ensures Run(s, steps).ticks == s.ticks + CountTicks(steps)
    decreases |steps|
  {
    if steps != [] {
      StepKeepsAsleep(s, steps[0], t, wake);
      StepKeepsInv(s, steps[0]);
      RunKeepsAsleep(Apply(s, steps[0]), steps[1..], t, wake);
    }
  }

  /** `task_sleep(ms)` keeps its caller BLOCKED, whatever else runs, until the tick with number `t`
      after the call, and that tick ends the sleep: `t` whole tick lengths fit into `ms` and not
      `t + 1`, or `t` is 1 when not even one fits. */
  lemma SleepIsExact(s: State, ms: int, rest: seq<Step>, p: int, t: nat)
    requires Inv(s) && Enabled(s, Sleep(ms)) && ms > 0
    requires CanRun(Apply(s, Sleep(ms)), rest)
    requires t == CountTicks(rest) + 1
    requires if ms >= s.tickMs then t * s.tickMs <= ms < (t + 1) * s.tickMs else t == 1
    requires Enabled(Run(Apply(s, Sleep(ms)), rest), Tick(p))
    ensures var i := s.current; var before := Run(Apply(s, Sleep(ms)), rest); var after := Apply(before, Tick(p));
            && i < |before.tasks| && i < |after.tasks| && before.tasks[i].state == Blocked
            && after.tasks[i].wakeTick == 0
            && (after.tasks[i].state == Ready || (after.tasks[i].state == Running && after.current == i))
  {
    var s1 := Apply(s, Sleep(ms));
    SleepTicksAre(ms, s.tickMs, t);
    StepKeepsInv(s, Sleep(ms));
    RunKeepsAsleep(s1, rest, s.current, s.ticks + SleepTicks(ms, s.tickMs));
    RunKeepsInv(s1, rest);
    TickShape(Run(s1, rest), p);
  }

  lemma SleepTicksAre(ms: nat, tickMs: nat, t: nat)
    requires ms > 0 && tickMs > 0
    requires if ms >= tickMs then t * tickMs <= ms < (t + 1) * tickMs else t == 1
    ensures SleepTicks(ms, tickMs) == t
  {
    if ms >= tickMs {
      QuotientIs(ms, tickMs, t);
    } else {
      QuotientIs(ms, tickMs, 0);
    }
  }

  /** A sleep of no time is no sleep. */
  lemma SleepOfNothing(s: State, ms: int)
    requires Enabled(s, Sleep(ms)) && ms <= 0
    ensures Apply(s, Sleep(ms)) == s
  {
  }

  // ----------------------------------------------------------- bounded bypass

  /** The step calls `pick_next_ready` and switches to the task it returns. */
  ghost predicate Picks(s: State, step: Step) {
    match step
    case Dispatch(p) => p >= 0
    case Tick(p) => SliceEnds(s)
    case _ => false
  }

  /** The task table that call sees. */
  function PickTable(s: State, step: Step): seq<Task> {
    if step.Tick? && HasRunning(s) then Released(s) else s.tasks
  }

  /** Whenever the run picks, task `t` is READY at the top priority, and yet is passed over. */
  ghost predicate PassedOver(s: State, steps: seq<Step>, t: nat)
    requires CanRun(s, steps)
    decreases |steps|
  {
    steps == [] ||
    (&& !steps[0].AddTask?
     && (Picks(s, steps[0]) ==> IsTop(PickTable(s, steps[0]), t) && steps[0].pick != t)
     && PassedOver(Apply(s, steps[0]), steps[1..], t))
  }

  ghost function CountPicks(s: State, steps: seq<Step>): nat
    requires CanRun(s, steps)
    decreases |steps|
  {
    if steps == [] then 0
    else (if Picks(s, steps[0]) then 1 else 0) + CountPicks(Apply(s, steps[0]), steps[1..])
  }

  lemma PickMovesCloser(s: State, step: Step, t: nat)
    requires Inv(s) && Enabled(s, step) && Picks(s, step) && IsTop(PickTable(s, step), t) && step.pick != t
    ensures var n := |s.tasks|; var s' := Apply(s, step);
            && |s'.tasks| == n
            && Distance(ScanStart(s'.current, n), t, n) < Distance(ScanStart(s.current, n), t, n)
  {
    assert IsReady(PickTable(s, step), t);
  }

  lemma OtherStepsKeepPlace(s: State, step: Step)
    requires Enabled(s, step) && !Picks(s, step) && !step.AddTask?
    ensures Apply(s, step).current == s.current && |Apply(s, step).tasks| == |s.tasks|
  {
  }

  /** Bounded bypass: a READY task of top priority is passed over fewer than `|tasks|` times. */
  lemma {:induction false} BoundedBypass(s: State, steps: seq<Step>, t: nat)
    requires Inv(s) && CanRun(s, steps) && t < |s.tasks| && PassedOver(s, steps, t)
    ensures CountPicks(s, steps) <= Distance(ScanStart(s.current, |s.tasks|), t, |s.tasks|) < |s.tasks|
    decreases |steps|
  {
    if steps != [] {
      StepKeepsInv(s, steps[0]);
      if Picks(s, steps[0]) {
        PickMovesCloser(s, steps[0], t);
      } else {
        OtherStepsKeepPlace(s, steps[0]);
      }
      BoundedBypass(Apply(s, steps[0]), steps[1..], t);
    }
  }

  // ------------------------------------------------------------ the whole run

  /** At most one RUNNING task, which is the current one; at most one pending forced
      switch per task; run time never exceeds the ticks that passed. */
  lemma RunAccounting(s0: State, steps: seq<Step>, i: nat, j: nat)
    requires Initial(s0) && CanRun(s0, steps)
    requires i < |Run(s0, steps).tasks| && j < |Run(s0, steps).tasks|
    ensures var s := Run(s0, steps);
            && (s.tasks[i].state == Running ==> i == s.current)
            && (s.tasks[i].state == Running && s.tasks[j].state == Running ==> i == j)
            && s.tasks[i].pending <= 1
            && SumRun(s.tasks) <= s.ticks
  {
    RunKeepsInv(s0, steps);
    assert TaskOk(Run(s0, steps), i);
  }

  // --------------------------------------------------------------- time slices

  /** A tick that finds a RUNNING task with nothing pending. */
  predicate SliceTick(s: State, step: Step) {
    step.Tick? && HasRunning(s) && s.tasks[s.current].pending == 0
  }

  ghost function CountSliceTicks(s: State, steps: seq<Step>): nat
    requires CanRun(s, steps)
    decreases |steps|
  {
    if steps == [] then 0
    else (if SliceTick(s, steps[0]) then 1 else 0) + CountSliceTicks(Apply(s, steps[0]), steps[1..])
  }

  /** No tick of the run forces a switch. */
  ghost predicate NoForcedSwitch(s: State, steps: seq<Step>)
    requires CanRun(s, steps)
    decreases |steps|
  {
    steps == [] ||
    (&& (steps[0].Tick? ==> Apply(s, steps[0]).switches == s.switches && Apply(s, steps[0]).current == s.current)
     && NoForcedSwitch(Apply(s, steps[0]), steps[1..]))
  }

  lemma SliceStep(s: State, step: Step)
    requires Inv(s) && Enabled(s, step) && s.sinceSwitch + 1 < s.slice
    ensures var s' := Apply(s, step);
            && s'.sinceSwitch == s.sinceSwitch + (if SliceTick(s, step) then 1 else 0) && s'.slice == s.slice
            && (step.Tick? ==> s'.switches == s.switches && s'.current == s.current)
  {
  }

  lemma IdleStep(s: State, step: Step)
    requires Inv(s) && Enabled(s, step) && !SliceTick(s, step)
    ensures var s' := Apply(s, step);
            && s'.sinceSwitch == s.sinceSwitch && s'.slice == s.slice
            && (step.Tick? ==> s'.switches == s.switches && s'.current == s.current)
  {
  }

  lemma {:induction false} SliceRuns(s: State, steps: seq<Step>)
    requires Inv(s) && CanRun(s, steps) && s.sinceSwitch + CountSliceTicks(s, steps) < s.slice
    ensures var s' := Run(s, steps);
            s'.sinceSwitch == s.sinceSwitch + CountSliceTicks(s, steps) && s'.slice == s.slice
    ensures NoForcedSwitch(s, steps)
    decreases |steps|
  {
    if steps != [] {
      StepKeepsInv(s, steps[0]);
      if SliceTick(s, steps[0]) {
        SliceStep(s, steps[0]);
      } else {
        IdleStep(s, steps[0]);
      }
      SliceRuns(Apply(s, steps[0]), steps[1..]);
    }
  }

  /** A time slice has exactly `slice` ticks: from a forced switch on, whatever the tasks do, no tick
      switches until `slice - 1` ticks have found a RUNNING task with nothing pending, and the next
      one that does switches, to the task `pick_next_ready` returns. */
  lemma SliceIsExact(s: State, steps: seq<Step>, p: int)
    requires Inv(s) && s.sinceSwitch == 0 && CanRun(s, steps) && CountSliceTicks(s, steps) == s.slice - 1
    requires Enabled(Run(s, steps), Tick(p)) && SliceTick(Run(s, steps), Tick(p))
    ensures NoForcedSwitch(s, steps)
    ensures var before := Run(s, steps); var after := Apply(before, Tick(p));
            && after.switches == before.switches + 1 && after.sinceSwitch == 0 && after.current == p
            && IsPick(Released(before), before.current, p)
            && before.current < |after.tasks| && after.tasks[before.current].pending == 1
  {
    SliceRuns(s, steps);
    RunKeepsInv(s, steps);
    SwitchAtTick(Run(s, steps), p);
  }

  lemma SwitchAtTick(s: State, p: int)
    requires Inv(s) && Enabled(s, Tick(p)) && SliceTick(s, Tick(p)) && s.sinceSwitch + 1 >= s.slice
    ensures var after := Apply(s, Tick(p));
            && after.switches == s.switches + 1 && after.sinceSwitch == 0 && after.current == p
            && IsPick(Released(s), s.current, p)
            && s.current < |after.tasks| && after.tasks[s.current].pending == 1
  {
    assert SliceEnds(s);
    assert IsReady(Released(s), s.current);
  }

  // ----------------------------------------------------------------- statistics

  ghost function CountTicksIn(s: State, steps: seq<Step>, i: nat, state: TaskState): nat
    requires CanRun(s, steps)
    decreases |steps|
  {
    if steps == [] then 0
    else
      (if steps[0].Tick? && i < |s.tasks| && s.tasks[i].state == state then 1 else 0)
      + CountTicksIn(Apply(s, steps[0]), steps[1..], i, state)
  }

  lemma StepCounts(s: State, step: Step, i: nat)
    requires Inv(s) && Enabled(s, step) && i < |s.tasks|
    ensures |Apply(s, step).tasks| >= |s.tasks|
    ensures var s' := Apply(s, step); var t, t' := s.tasks[i], s'.tasks[i];
            && t'.ticksRun == t.ticksRun + (if step.Tick? && t.state == Running then 1 else 0)
            && t'.ticksReady == t.ticksReady + (if step.Tick? && t.state == Ready then 1 else 0)
            && s'.ticks == s.ticks + (if step.Tick? then 1 else 0)
            && s'.switches == s.switches + (if Picks(s, step) then 1 else 0)
  {
    if step.Tick? {
      TickShape(s, step.pick);
      if SliceEnds(s) {
        assert IsReady(Released(s), s.current);
      }
    }
  }

  /** Over every run `ticks_run` and `ticks_ready` count the ticks that found the task RUNNING and
      READY, the tick count counts ticks, and the switch count counts the picks that were followed. */
  lemma {:induction false} StatisticsAreExact(s: State, steps: seq<Step>, i: nat)
    requires Inv(s) && CanRun(s, steps) && i < |s.tasks|
    ensures var s' := Run(s, steps);
            && i < |s'.tasks|
            && s'.tasks[i].ticksRun == s.tasks[i].ticksRun + CountTicksIn(s, steps, i, Running)
            && s'.tasks[i].ticksReady == s.tasks[i].ticksReady + CountTicksIn(s, steps, i, Ready)
            && s'.ticks == s.ticks + CountTicks(steps) && s'.switches == s.switches + CountPicks(s, steps)
    decreases |steps|
  {
    if steps != [] {
      StepKeepsInv(s, steps[0]);
      StepCounts(s, steps[0], i);
      StatisticsAreExact(Apply(s, steps[0]), steps[1..], i);
    }
  }

  // --------------------------------------------------- entering, leaving, yielding

  /** The priorities asked for, in order. */
  function Asked(steps: seq<Step>): seq<int> {
    if steps == [] then []
    else (if steps[0].AddTask? then [steps[0].priority] else []) + Asked(steps[1..])
  }

  function Bases(ts: seq<Task>): (r: seq<int>)
    ensures |r| == |ts|
  {
    seq(|ts|, i requires 0 <= i < |ts| => ts[i].base)
  }

  lemma StepBases(s: State, step: Step)
    requires Inv(s) && Enabled(s, step)
    ensures Bases(Apply(s, step).tasks) ==
            Bases(s.tasks) + if step.AddTask? && |s.tasks| < MAX_TASKS then [step.priority] else []
  {
    if step.Tick? {
      TickBases(s, step.pick);
    }
  }

  lemma TickBases(s: State, p: int)
    requires Inv(s) && Enabled(s, Tick(p))
    ensures Bases(AfterTick(s, p).tasks) == Bases(s.tasks)
  {
    TickShape(s, p);
  }

  function FirstOf(all: seq<int>, n: nat): seq<int> {
    if |all| <= n then all else all[..n]
  }

  /** In every run the task table holds the first 32 tasks asked for, in order, with the priorities
      they were asked for with. */
  lemma {:induction false} TableIsExact(s: State, steps: seq<Step>)
    requires Inv(s) && CanRun(s, steps)
    ensures Bases(Run(s, steps).tasks) == FirstOf(Bases(s.tasks) + Asked(steps), 32)
    decreases |steps|
  {
    if steps != [] {
      StepBases(s, steps[0]);
      StepKeepsInv(s, steps[0]);
      TableIsExact(Apply(s, steps[0]), steps[1..]);
    }
  }

  /** A new task of higher priority than every READY one runs next. */
  lemma NewcomerRuns(s: State, priority: int, p: int)
    requires !HasRunning(s) && |s.tasks| < 32 && s.current < |s.tasks|
    requires forall i :: IsReady(s.tasks, i) ==> s.tasks[i].priority < priority
    requires Enabled(Apply(s, AddTask(priority)), Dispatch(p))
    ensures p == |s.tasks|
  {
    var ts, n := Apply(s, AddTask(priority)).tasks, |s.tasks|;
    assert IsReady(ts, n);
    if p < n {
      assert IsReady(s.tasks, p);
    }
  }

  ghost predicate Gone(s: State, t: nat) {
    t < |s.tasks| && s.tasks[t].state == Terminated
  }

  lemma StepKeepsGone(s: State, step: Step, t: nat)
    requires Inv(s) && Enabled(s, step) && Gone(s, t)
    ensures Gone(Apply(s, step), t)
  {
    match step
    case Tick(p) => TickShape(s, p);
    case Unlock(m) => assert MutexOk(s, m) && !Parked(s, t, Locking(m));
    case Post(x) => assert SemOk(s, x) && !Parked(s, t, Waiting(x));
    case _ =>
  }

  lemma {:induction false} RunKeepsGone(s: State, steps: seq<Step>, t: nat)
    requires Inv(s) && CanRun(s, steps) && Gone(s, t)
    ensures Gone(Run(s, steps), t)
    decreases |steps|
  {
    if steps != [] {
      StepKeepsGone(s, steps[0], t);
      StepKeepsInv(s, steps[0]);
      RunKeepsGone(Apply(s, steps[0]), steps[1..], t);
    }
  }

  /** A task whose function has returned never runs again, whatever is locked, posted or due. */
  lemma ExitIsFinal(s: State, rest: seq<Step>)
    requires Inv(s) && Enabled(s, Exit) && CanRun(Apply(s, Exit), rest)
    ensures var s' := Run(Apply(s, Exit), rest); s.current < |s'.tasks| && s'.tasks[s.current].state == Terminated
  {
    StepKeepsInv(s, Exit);
    RunKeepsGone(Apply(s, Exit), rest, s.current);
  }

  /** A task that yields leaves the processor to a dispatch, and that takes it back exactly when every
      other READY task has a lower priority. */
  lemma YieldGivesWay(s: State, p: int)
    requires Enabled(s, Yield) && IsPick(Apply(s, Yield).tasks, s.current, p)
    ensures Enabled(Apply(s, Yield), Dispatch(p))
    ensures p == s.current <==>
            forall j :: IsReady(s.tasks, j) ==> s.tasks[j].priority < s.tasks[s.current].priority
  {
    var c, ts := s.current, Apply(s, Yield).tasks;
    assert IsReady(ts, c);
    assert forall j :: j != c ==> (IsReady(ts, j) <==> IsReady(s.tasks, j));
    if p == c {
      forall j | IsReady(s.tasks, j) ensures s.tasks[j].priority < s.tasks[c].priority {
        assert IsReady(ts, j) && IsTop(ts, c);
        TopIsShared(ts, c, j);
      }
    } else {
      assert IsReady(s.tasks, p) && IsTop(ts, p);
    }
  }

  lemma TopIsShared(ts: seq<Task>, i: int, j: int)
    requires IsTop(ts, i) && IsReady(ts, j)
    ensures ts[j].priority >= ts[i].priority ==> IsTop(ts, j)
  {
  }
}
