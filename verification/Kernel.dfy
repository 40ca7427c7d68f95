/** The kernel of `rtos/src/scheduler.c` and `rtos/src/sync.c` as a step machine.

    One `State` holds the task table, the scheduler's globals and every mutex and
    semaphore.  One `Step` is one atomic kernel action: a timer tick, a dispatch by
    `scheduler_run`, or one pass of a call made by the running task.  A blocking call
    is one pass per turn round its re-check loop: a task that finds the lock taken
    stays at `Locking(m)` and makes the same test again when it next runs. */
module Kernel {
  import opened Options

  const MAX_TASKS := 32

  datatype TaskState = Ready | Running | Blocked | Terminated

  /** Where a task resumes: in its own code, or at the loop test of a blocking call. */
  datatype Point = User | Locking(m: nat) | Waiting(s: nat)

  datatype Task = Task(
    state: TaskState,
    priority: int,      // effective priority; higher wins
    base: int,          // the priority the task was created with
    wakeTick: nat,      // 0 when not sleeping
    ticksRun: nat,
    ticksReady: nat,
    pending: nat,       // pending_preemptions
    point: Point)

  datatype Mutex = Mutex(locked: bool, owner: Option<nat>, saved: int, inherits: bool, waiters: seq<nat>)

  datatype Sem = Sem(count: int, waiters: seq<nat>)

  datatype State = State(
    tasks: seq<Task>,
    current: int,       // -1 before the first dispatch
    ticks: nat,
    sinceSwitch: nat,
    slice: nat,
    tickMs: nat,
    switches: nat,
    mutexes: seq<Mutex>,
    sems: seq<Sem>)

  /** `pick` is the index `pick_next_ready` returns; `Enabled` ties it to the state. */
  datatype Step =
    | Tick(pick: int)
    | Dispatch(pick: int)
    | Unwind
    | Lock(m: nat)
    | Unlock(m: nat)
    | Wait(s: nat)
    | Post(s: nat)
    | Yield
    | Sleep(ms: int)
    | Exit
    | AddTask(priority: int)

  // ------------------------------------------------------------------ picking

  predicate IsReady(ts: seq<Task>, i: int) {
    0 <= i < |ts| && ts[i].state == Ready
  }

  ghost predicate SomeReady(ts: seq<Task>) {
    exists i :: IsReady(ts, i)
  }

  /** No READY task beats task `i`. */
  ghost predicate IsTop(ts: seq<Task>, i: int) {
    && IsReady(ts, i)
    && forall j :: IsReady(ts, j) ==> ts[j].priority <= ts[i].priority
  }

  /** The index the round-robin scan starts from. */
  function ScanStart(current: int, n: nat): int {
    if current < 0 || current + 1 >= n then 0 else current + 1
  }

  /** How many places after `start` index `i` comes, going round. */
  function Distance(start: int, i: int, n: nat): int {
    if i >= start then i - start else i - start + n
  }

  /** What `pick_next_ready` must return: the top-priority READY task met first going
      round from the one after the current task, or -1 when nothing is READY. */
  ghost predicate IsPick(ts: seq<Task>, current: int, i: int) {
    if SomeReady(ts) then
      && IsTop(ts, i)
      && forall j :: IsTop(ts, j) ==>
           Distance(ScanStart(current, |ts|), i, |ts|) <= Distance(ScanStart(current, |ts|), j, |ts|)
    else
      i == -1
  }

  // ---------------------------------------------------------------- the steps

  predicate HasRunning(s: State) {
    0 <= s.current < |s.tasks| && s.tasks[s.current].state == Running
  }

  /** The current task is executing its own code or re-testing a blocking call's loop. */
  predicate Calling(s: State, at: Point) {
    && HasRunning(s)
    && s.tasks[s.current].pending == 0
    && (s.tasks[s.current].point == User || s.tasks[s.current].point == at)
  }

  function Booked(t: Task, now: nat): Task {
    if t.state == Running then t.(ticksRun := t.ticksRun + 1)
    else if t.state == Ready then t.(ticksReady := t.ticksReady + 1)
    else if t.state == Blocked && t.wakeTick != 0 && now >= t.wakeTick then
      t.(wakeTick := 0, state := Ready)
    else t
  }

  /** `update_tick_bookkeeping` at tick `now`. */
  function BookAll(ts: seq<Task>, now: nat): (r: seq<Task>)
    ensures |r| == |ts|
  {
    seq(|ts|, i requires 0 <= i < |ts| => Booked(ts[i], now))
  }

  function WakeAll(ts: seq<Task>, waiters: seq<nat>): (r: seq<Task>)
    ensures |r| == |ts|
  {
    seq(|ts|, i requires 0 <= i < |ts| => if i in waiters then ts[i].(state := Ready) else ts[i])
  }

  function WithWaiter(waiters: seq<nat>, t: nat): seq<nat> {
    if t in waiters || |waiters| >= MAX_TASKS then waiters else waiters + [t]
  }

  /** The tick handler reaches the end of a slice and forces a switch. */
  predicate SliceEnds(s: State) {
    && HasRunning(s)
    && s.tasks[s.current].pending == 0
    && s.sinceSwitch + 1 >= s.slice
  }

  /** The task table the handler picks from: booked, with the current task READY again. */
  function Released(s: State): (r: seq<Task>)
    requires HasRunning(s)
    ensures |r| == |s.tasks|
  {
    var ts := BookAll(s.tasks, s.ticks + 1);
    ts[s.current := ts[s.current].(state := Ready)]
  }

  function SetRunning(ts: seq<Task>, i: nat): seq<Task>
    requires i < |ts|
  {
    ts[i := ts[i].(state := Running)]
  }

  function SleepTicks(ms: int, tickMs: nat): nat {
    if tickMs == 0 || ms <= 0 || ms / tickMs <= 0 then 1 else ms / tickMs
  }

  ghost predicate Enabled(s: State, step: Step) {
    match step
    case Tick(p) =>
      SliceEnds(s) ==> IsPick(Released(s), s.current, p)
    case Dispatch(p) => !HasRunning(s) && IsPick(s.tasks, s.current, p)
    case Unwind => HasRunning(s) && s.tasks[s.current].pending > 0
    case Lock(m) =>
      && m < |s.mutexes| && Calling(s, Locking(m))
      && (s.mutexes[m].owner.Some? ==> s.mutexes[m].owner.value < |s.tasks|)
    case Unlock(m) => m < |s.mutexes| && Calling(s, User)
    case Wait(x) => x < |s.sems| && Calling(s, Waiting(x))
    case Post(x) => x < |s.sems| && Calling(s, User)
    case Yield => Calling(s, User)
    case Sleep(ms) => Calling(s, User)
    case Exit => Calling(s, User)
    case AddTask(p) => HasRunning(s) ==> Calling(s, User)
  }

  function AfterTick(s: State, pick: int): State
    requires Enabled(s, Tick(pick))
  {
    var s1 := s.(ticks := s.ticks + 1, tasks := BookAll(s.tasks, s.ticks + 1));
    if !HasRunning(s) || s.tasks[s.current].pending > 0 then s1
    else if !SliceEnds(s) then s1.(sinceSwitch := s.sinceSwitch + 1)
    else
      assert IsReady(Released(s), s.current);
      var ts := SetRunning(Released(s), pick);
      s1.(sinceSwitch := 0, current := pick, switches := s.switches + 1,
          tasks := ts[s.current := ts[s.current].(pending := ts[s.current].pending + 1)])
  }

  function AfterDispatch(s: State, pick: int): State
    requires Enabled(s, Dispatch(pick))
  {
    if pick < 0 then s
    else
      assert SomeReady(s.tasks);
      s.(current := pick, tasks := SetRunning(s.tasks, pick), switches := s.switches + 1)
  }

  /** The lock holder inherits a higher caller's priority. */
  function Boosted(ts: seq<Task>, mx: Mutex, t: nat): (r: seq<Task>)
    requires t < |ts| && (mx.owner.Some? ==> mx.owner.value < |ts|)
    ensures |r| == |ts|
  {
    if mx.inherits && mx.owner.Some? && ts[t].priority > ts[mx.owner.value].priority then
      ts[mx.owner.value := ts[mx.owner.value].(priority := ts[t].priority)]
    else ts
  }

  function AfterLock(s: State, m: nat): State
    requires Enabled(s, Lock(m))
  {
    var t: nat := s.current;
    var mx := s.mutexes[m];
    if mx.locked then
      var ts := Boosted(s.tasks, mx, t);
      s.(tasks := ts[t := ts[t].(state := Blocked, point := Locking(m))],
         mutexes := s.mutexes[m := mx.(waiters := WithWaiter(mx.waiters, t))])
    else
      s.(tasks := s.tasks[t := s.tasks[t].(point := User)],
         mutexes := s.mutexes[m := mx.(locked := true, owner := Some(t), saved := s.tasks[t].priority)])
  }

  function AfterUnlock(s: State, m: nat): State
    requires Enabled(s, Unlock(m))
  {
    var t: nat := s.current;
    var mx := s.mutexes[m];
    s.(tasks := WakeAll(s.tasks[t := s.tasks[t].(priority := mx.saved)], mx.waiters),
       mutexes := s.mutexes[m := mx.(locked := false, owner := None, waiters := [])])
  }

  function AfterWait(s: State, x: nat): State
    requires Enabled(s, Wait(x))
  {
    var t: nat := s.current;
    var sm := s.sems[x];
    if sm.count <= 0 then
      s.(tasks := s.tasks[t := s.tasks[t].(state := Blocked, point := Waiting(x))],
         sems := s.sems[x := sm.(waiters := WithWaiter(sm.waiters, t))])
    else
      s.(tasks := s.tasks[t := s.tasks[t].(point := User)],
         sems := s.sems[x := sm.(count := sm.count - 1)])
  }

  function AfterPost(s: State, x: nat): State
    requires Enabled(s, Post(x))
  {
    var sm := s.sems[x];
    s.(tasks := WakeAll(s.tasks, sm.waiters),
       sems := s.sems[x := Sem(sm.count + 1, [])])
  }

  function AfterSleep(s: State, ms: int): State
    requires Enabled(s, Sleep(ms))
  {
    if ms <= 0 then s
    else
      s.(tasks := s.tasks[s.current := s.tasks[s.current].(
           state := Blocked, wakeTick := s.ticks + SleepTicks(ms, s.tickMs))])
  }

  function AfterAddTask(s: State, priority: int): State {
    if |s.tasks| >= MAX_TASKS then s
    else s.(tasks := s.tasks + [Task(Ready, priority, priority, 0, 0, 0, 0, User)])
  }

  function Apply(s: State, step: Step): State
    requires Enabled(s, step)
  {
    match step
    case Tick(p) => AfterTick(s, p)
    case Dispatch(p) => AfterDispatch(s, p)
    case Unwind => s.(tasks := s.tasks[s.current := s.tasks[s.current].(pending := s.tasks[s.current].pending - 1)])
    case Lock(m) => AfterLock(s, m)
    case Unlock(m) => AfterUnlock(s, m)
    case Wait(x) => AfterWait(s, x)
    case Post(x) => AfterPost(s, x)
    case Yield => s.(tasks := s.tasks[s.current := s.tasks[s.current].(state := Ready)])
    case Sleep(ms) => AfterSleep(s, ms)
    case Exit => s.(tasks := s.tasks[s.current := s.tasks[s.current].(state := Terminated)])
    case AddTask(p) => AfterAddTask(s, p)
  }

  // --------------------------------------------------------------------- runs

  /** A fresh kernel: no tasks, unlocked mutexes, empty waiter lists. */
  ghost predicate Initial(s: State) {
    && s.tasks == [] && s.current == -1 && s.ticks == 0 && s.slice >= 1 && s.tickMs >= 1
    && (forall m :: 0 <= m < |s.mutexes| ==>
          !s.mutexes[m].locked && s.mutexes[m].owner == None && s.mutexes[m].waiters == [])
    && (forall x :: 0 <= x < |s.sems| ==> s.sems[x].waiters == [])
  }

  /** `steps` can be taken one after the other from `s`. */
  ghost predicate CanRun(s: State, steps: seq<Step>)
    decreases |steps|
  {
    steps == [] || (Enabled(s, steps[0]) && CanRun(Apply(s, steps[0]), steps[1..]))
  }

  function Run(s: State, steps: seq<Step>): State
    requires CanRun(s, steps)
    decreases |steps|
  {
    if steps == [] then s else Run(Apply(s, steps[0]), steps[1..])
  }
}
