/** What every run of the kernel keeps, whatever the tasks call and whenever the timer
    fires: one RUNNING task, no lost wakeup, bounded preemption frames, tick accounting. */
module KernelInvariants {
  import opened Options
  import opened Kernel

  // ------------------------------------------------------------ the invariant

  ghost predicate Distinct(ws: seq<nat>) {
    forall i, j :: 0 <= i < j < |ws| ==> ws[i] != ws[j]
  }

  /** A BLOCKED task sleeps, or sits in the waiter list of the call it is blocked in. */
  ghost predicate TaskOk(s: State, i: nat)
    requires i < |s.tasks|
  {
    var t := s.tasks[i];
    && t.pending <= 1
    && (t.state == Blocked ==> t.pending == 0)
    && (t.wakeTick != 0 ==> t.state == Blocked && t.point == User && t.wakeTick > s.ticks)
    && (t.point.Locking? ==> t.point.m < |s.mutexes|)
    && (t.point.Waiting? ==> t.point.s < |s.sems|)
    && (t.state == Blocked && t.wakeTick == 0 ==>
          || (t.point.Locking? && i in s.mutexes[t.point.m].waiters)
          || (t.point.Waiting? && i in s.sems[t.point.s].waiters))
  }

  ghost predicate Parked(s: State, w: nat, at: Point) {
    w < |s.tasks| && s.tasks[w].state == Blocked && s.tasks[w].wakeTick == 0 && s.tasks[w].point == at
  }

  /** Only tasks blocked in `mutex_lock(m)` are listed, once each, and only while it is locked. */
  ghost predicate MutexOk(s: State, m: nat)
    requires m < |s.mutexes|
  {
    var mx := s.mutexes[m];
    && Distinct(mx.waiters)
    && (forall w :: w in mx.waiters ==> Parked(s, w, Locking(m)))
    && (mx.waiters != [] ==> mx.locked)
    && (mx.owner.Some? ==> mx.owner.value < |s.tasks|)
  }

  ghost predicate SemOk(s: State, x: nat)
    requires x < |s.sems|
  {
    var sm := s.sems[x];
    && Distinct(sm.waiters)
    && (forall w :: w in sm.waiters ==> Parked(s, w, Waiting(x)))
    && (sm.waiters != [] ==> sm.count <= 0)
  }

  ghost predicate OneRunning(s: State) {
    forall i :: 0 <= i < |s.tasks| && s.tasks[i].state == Running ==> i == s.current
  }

  /** Ticks charged to tasks as run time. */
  function SumRun(ts: seq<Task>): nat {
    if ts == [] then 0 else SumRun(ts[..|ts| - 1]) + ts[|ts| - 1].ticksRun
  }

  ghost predicate Inv(s: State) {
    && |s.tasks| <= MAX_TASKS && -1 <= s.current < |s.tasks|
    && s.slice >= 1 && s.tickMs >= 1
    && OneRunning(s)
    && (forall i :: 0 <= i < |s.tasks| ==> TaskOk(s, i))
    && (forall m :: 0 <= m < |s.mutexes| ==> MutexOk(s, m))
    && (forall x :: 0 <= x < |s.sems| ==> SemOk(s, x))
    && SumRun(s.tasks) <= s.ticks
  }

  // ------------------------------------------------------------ small lemmas

  function Members(ws: seq<nat>): set<nat> {
    set w | w in ws
  }

  /** Distinct task indices below `n`, leaving one of them out, are fewer than `n`. */
  lemma DistinctBelow(ws: seq<nat>, n: nat, t: nat)
    requires Distinct(ws) && t < n && t !in ws
    requires forall w :: w in ws ==> w < n
    ensures |ws| < n
  {
    DistinctCard(ws);
    CardBelow(Members(ws) + {t}, n);
  }

  lemma {:induction false} CardBelow(a: set<nat>, n: nat)
    requires forall w :: w in a ==> w < n
    ensures |a| <= n
  {
    if n == 0 {
      assert a == {};
    } else {
      var b := a - {n - 1};
      CardBelow(b, n - 1);
      assert a <= b + {n - 1};
      assert |a| <= |b| + 1 by {
        if n - 1 in a { assert a == b + {n - 1}; } else { assert a == b; }
      }
    }
  }

  lemma {:induction false} DistinctCard(ws: seq<nat>)
    requires Distinct(ws)
    ensures |Members(ws)| == |ws|
  {
    if ws != [] {
      var n := |ws| - 1;
      var rest := ws[..n];
      DistinctCard(rest);
      assert ws == rest + [ws[n]];
      assert Members(ws) == Members(rest) + {ws[n]};
    }
  }

  lemma {:induction false} SumRunSame(a: seq<Task>, b: seq<Task>)
    requires |a| == |b| && forall i :: 0 <= i < |a| ==> a[i].ticksRun == b[i].ticksRun
    ensures SumRun(a) == SumRun(b)
  {
    if a != [] {
      SumRunSame(a[..|a| - 1], b[..|b| - 1]);
    }
  }

  /** Booking a tick charges at most one task, because at most one is RUNNING. */
  lemma {:induction false} SumRunBooked(ts: seq<Task>, now: nat, current: int)
    requires forall i :: 0 <= i < |ts| && ts[i].state == Running ==> i == current
    ensures SumRun(BookAll(ts, now)) <= SumRun(ts) + 1
    ensures current >= |ts| ==> SumRun(BookAll(ts, now)) == SumRun(ts)
  {
    if ts != [] {
      var n := |ts| - 1;
      SumRunBooked(ts[..n], now, current);
      assert BookAll(ts, now)[..n] == BookAll(ts[..n], now);
    }
  }

  // --------------------------------------------------- preservation, by step

  lemma TickKeepsInv(s: State, p: int)
    requires Inv(s) && Enabled(s, Tick(p))
    ensures Inv(AfterTick(s, p))
  {
    var s' := AfterTick(s, p);
    TickKeepsTasks(s, p);
    SumRunBooked(s.tasks, s.ticks + 1, s.current);
    forall m | 0 <= m < |s'.mutexes| ensures MutexOk(s', m) {
      assert MutexOk(s, m);
      TickKeepsParked(s, p, s.mutexes[m].waiters, Locking(m));
    }
    forall x | 0 <= x < |s'.sems| ensures SemOk(s', x) {
      assert SemOk(s, x);
      TickKeepsParked(s, p, s.sems[x].waiters, Waiting(x));
    }
  }

  lemma TickKeepsTasks(s: State, p: int)
    requires Inv(s) && Enabled(s, Tick(p))
    ensures var s' := AfterTick(s, p);
            && |s'.tasks| == |s.tasks| && -1 <= s'.current < |s'.tasks| && OneRunning(s')
            && SumRun(s'.tasks) == SumRun(BookAll(s.tasks, s.ticks + 1))
            && forall i :: 0 <= i < |s'.tasks| ==> TaskOk(s', i)
  {
    var s' := AfterTick(s, p);
    TickShape(s, p);
    SumRunSame(BookAll(s.tasks, s.ticks + 1), s'.tasks);
    forall i | 0 <= i < |s'.tasks| ensures TaskOk(s', i) {
      assert TaskOk(s, i);
    }
  }

  /** A tick moves task `i` only by booking it, or by the forced switch. */
  lemma TickShape(s: State, p: int)
    requires Inv(s) && Enabled(s, Tick(p))
    ensures var s' := AfterTick(s, p);
            && |s'.tasks| == |s.tasks| && -1 <= s'.current < |s.tasks|
            && s'.mutexes == s.mutexes && s'.sems == s.sems && s'.ticks == s.ticks + 1
            && OneRunning(s')
            && forall i :: 0 <= i < |s.tasks| ==>
                 var b := Booked(s.tasks[i], s.ticks + 1);
                 || s'.tasks[i] == b
                 || (SliceEnds(s) && b.state in {Ready, Running} && s'.tasks[i].state in {Ready, Running}
                     && s'.tasks[i] == b.(state := s'.tasks[i].state, pending := s'.tasks[i].pending)
                     && (s'.tasks[i].pending == b.pending || (i == s.current && s'.tasks[i].pending == b.pending + 1)))
  {
    if SliceEnds(s) {
      assert IsReady(Released(s), s.current);
    }
  }

  lemma TickKeepsParked(s: State, p: int, ws: seq<nat>, at: Point)
    requires Inv(s) && Enabled(s, Tick(p))
    requires forall w :: w in ws ==> Parked(s, w, at)
    ensures forall w :: w in ws ==> Parked(AfterTick(s, p), w, at)
  {
    TickShape(s, p);
    forall w | w in ws ensures Parked(AfterTick(s, p), w, at) {
      assert Parked(s, w, at);
    }
  }

  /** A step that only rewrites one task which is in no waiter list. */
  lemma OneTaskKeepsInv(s: State, s': State, k: nat)
    requires Inv(s) && k < |s.tasks| && s.tasks[k].state != Blocked
    requires s' == s.(tasks := s'.tasks, current := s'.current, switches := s'.switches)
    requires |s'.tasks| == |s.tasks| && s'.tasks == s.tasks[k := s'.tasks[k]]
    requires s'.tasks[k].ticksRun == s.tasks[k].ticksRun
    requires TaskOk(s', k) && -1 <= s'.current < |s.tasks| && OneRunning(s')
    ensures Inv(s')
  {
    SumRunSame(s.tasks, s'.tasks);
    forall i | 0 <= i < |s'.tasks| ensures TaskOk(s', i) {
      assert TaskOk(s, i);
    }
    forall m | 0 <= m < |s'.mutexes| ensures MutexOk(s', m) {
      assert MutexOk(s, m);
      forall w | w in s.mutexes[m].waiters ensures Parked(s', w, Locking(m)) {
        assert Parked(s, w, Locking(m));
      }
    }
    forall x | 0 <= x < |s'.sems| ensures SemOk(s', x) {
      assert SemOk(s, x);
      forall w | w in s.sems[x].waiters ensures Parked(s', w, Waiting(x)) {
        assert Parked(s, w, Waiting(x));
      }
    }
  }

  lemma DispatchKeepsInv(s: State, p: int)
    requires Inv(s) && Enabled(s, Dispatch(p))
    ensures Inv(AfterDispatch(s, p))
  {
    if p >= 0 {
      assert TaskOk(s, p);
      OneTaskKeepsInv(s, AfterDispatch(s, p), p);
    }
  }

  /** A listed waiter is never the running task. */
  lemma CurrentNotListed(s: State)
    requires Inv(s) && HasRunning(s)
    ensures forall m :: 0 <= m < |s.mutexes| ==> s.current !in s.mutexes[m].waiters
    ensures forall x :: 0 <= x < |s.sems| ==> s.current !in s.sems[x].waiters
  {
    forall m | 0 <= m < |s.mutexes| ensures s.current !in s.mutexes[m].waiters {
      assert MutexOk(s, m);
      assert !Parked(s, s.current, Locking(m));
    }
    forall x | 0 <= x < |s.sems| ensures s.current !in s.sems[x].waiters {
      assert SemOk(s, x);
      assert !Parked(s, s.current, Waiting(x));
    }
  }

  /** The silent drop in `add_waiter` is unreachable: there is always room for the caller. */
  lemma WaiterAlwaysFits(s: State)
    requires Inv(s) && HasRunning(s)
    ensures forall m :: 0 <= m < |s.mutexes| ==>
              WithWaiter(s.mutexes[m].waiters, s.current) == s.mutexes[m].waiters + [s.current]
    ensures forall x :: 0 <= x < |s.sems| ==>
              WithWaiter(s.sems[x].waiters, s.current) == s.sems[x].waiters + [s.current]
  {
    CurrentNotListed(s);
    forall m | 0 <= m < |s.mutexes| ensures |s.mutexes[m].waiters| < MAX_TASKS {
      assert MutexOk(s, m);
      forall w | w in s.mutexes[m].waiters ensures w < |s.tasks| { assert Parked(s, w, Locking(m)); }
      DistinctBelow(s.mutexes[m].waiters, |s.tasks|, s.current);
    }
    forall x | 0 <= x < |s.sems| ensures |s.sems[x].waiters| < MAX_TASKS {
      assert SemOk(s, x);
      forall w | w in s.sems[x].waiters ensures w < |s.tasks| { assert Parked(s, w, Waiting(x)); }
      DistinctBelow(s.sems[x].waiters, |s.tasks|, s.current);
    }
  }

  lemma LockKeepsMutex(s: State, m: nat, k: nat)
    requires Inv(s) && Enabled(s, Lock(m)) && k < |s.mutexes|
    ensures MutexOk(AfterLock(s, m), k)
  {
    var s' := AfterLock(s, m);
    CurrentNotListed(s);
    assert MutexOk(s, k);
    forall w | w in s'.mutexes[k].waiters ensures Parked(s', w, Locking(k)) {
      assert w in s.mutexes[k].waiters ==> Parked(s, w, Locking(k));
      assert TaskOk(s, s.current);
    }
  }

  lemma LockKeepsSem(s: State, m: nat, x: nat)
    requires Inv(s) && Enabled(s, Lock(m)) && x < |s.sems|
    ensures SemOk(AfterLock(s, m), x)
  {
    CurrentNotListed(s);
    assert SemOk(s, x);
    forall w | w in s.sems[x].waiters ensures Parked(AfterLock(s, m), w, Waiting(x)) {
      assert Parked(s, w, Waiting(x));
    }
  }

  lemma LockKeepsInv(s: State, m: nat)
    requires Inv(s) && Enabled(s, Lock(m))
    ensures Inv(AfterLock(s, m))
  {
    var s' := AfterLock(s, m);
    SumRunSame(s.tasks, s'.tasks);
    LockKeepsTasks(s, m);
    forall k | 0 <= k < |s'.mutexes| ensures MutexOk(s', k) {
      LockKeepsMutex(s, m, k);
    }
    forall x | 0 <= x < |s'.sems| ensures SemOk(s', x) {
      LockKeepsSem(s, m, x);
    }
  }

  lemma LockKeepsTasks(s: State, m: nat)
    requires Inv(s) && Enabled(s, Lock(m))
    ensures var s' := AfterLock(s, m);
            |s'.tasks| == |s.tasks| && OneRunning(s') && forall i :: 0 <= i < |s.tasks| ==> TaskOk(s', i)
  {
    var s' := AfterLock(s, m);
    WaiterAlwaysFits(s);
    forall i | 0 <= i < |s'.tasks| ensures TaskOk(s', i) {
      assert TaskOk(s, i);
      if i == s.current && s.mutexes[m].locked {
        assert s'.mutexes[m].waiters[|s.mutexes[m].waiters|] == i;
      }
    }
  }

  lemma WaitKeepsInv(s: State, x: nat)
    requires Inv(s) && Enabled(s, Wait(x))
    ensures Inv(AfterWait(s, x))
  {
    var s' := AfterWait(s, x);
    WaiterAlwaysFits(s);
    CurrentNotListed(s);
    SumRunSame(s.tasks, s'.tasks);
    forall i | 0 <= i < |s'.tasks| ensures TaskOk(s', i) {
      assert TaskOk(s, i);
      if i == s.current && s.sems[x].count <= 0 {
        assert s'.sems[x].waiters[|s.sems[x].waiters|] == i;
      }
    }
    forall m | 0 <= m < |s'.mutexes| ensures MutexOk(s', m) {
      assert MutexOk(s, m);
      forall w | w in s.mutexes[m].waiters ensures Parked(s', w, Locking(m)) {
        assert Parked(s, w, Locking(m));
      }
    }
    forall k | 0 <= k < |s'.sems| ensures SemOk(s', k) {
      assert SemOk(s, k);
      forall w | w in s'.sems[k].waiters ensures Parked(s', w, Waiting(k)) {
        assert w in s.sems[k].waiters ==> Parked(s, w, Waiting(k));
        assert TaskOk(s, s.current);
      }
    }
  }

  lemma UnlockKeepsInv(s: State, m: nat)
    requires Inv(s) && Enabled(s, Unlock(m))
    ensures Inv(AfterUnlock(s, m))
  {
    var s' := AfterUnlock(s, m);
    CurrentNotListed(s);
    SumRunSame(s.tasks, s'.tasks);
    assert MutexOk(s, m);
    forall i | 0 <= i < |s'.tasks| ensures TaskOk(s', i) {
      assert TaskOk(s, i);
      assert i in s.mutexes[m].waiters ==> Parked(s, i, Locking(m));
    }
    forall k | 0 <= k < |s'.mutexes| ensures MutexOk(s', k) {
      assert MutexOk(s, k);
      forall w | w in s'.mutexes[k].waiters ensures Parked(s', w, Locking(k)) {
        assert Parked(s, w, Locking(k));
        assert w in s.mutexes[m].waiters ==> Parked(s, w, Locking(m));
      }
    }
    forall x | 0 <= x < |s'.sems| ensures SemOk(s', x) {
      assert SemOk(s, x);
      forall w | w in s'.sems[x].waiters ensures Parked(s', w, Waiting(x)) {
        assert Parked(s, w, Waiting(x));
        assert w in s.mutexes[m].waiters ==> Parked(s, w, Locking(m));
      }
    }
  }

  lemma PostKeepsInv(s: State, x: nat)
    requires Inv(s) && Enabled(s, Post(x))
    ensures Inv(AfterPost(s, x))
  {
    var s' := AfterPost(s, x);
    CurrentNotListed(s);
    SumRunSame(s.tasks, s'.tasks);
    assert SemOk(s, x);
    forall i | 0 <= i < |s'.tasks| ensures TaskOk(s', i) {
      assert TaskOk(s, i);
      assert i in s.sems[x].waiters ==> Parked(s, i, Waiting(x));
    }
    forall m | 0 <= m < |s'.mutexes| ensures MutexOk(s', m) {
      assert MutexOk(s, m);
      forall w | w in s'.mutexes[m].waiters ensures Parked(s', w, Locking(m)) {
        assert Parked(s, w, Locking(m));
        assert w in s.sems[x].waiters ==> Parked(s, w, Waiting(x));
      }
    }
    forall k | 0 <= k < |s'.sems| ensures SemOk(s', k) {
      assert SemOk(s, k);
      forall w | w in s'.sems[k].waiters ensures Parked(s', w, Waiting(k)) {
        assert Parked(s, w, Waiting(k));
        assert w in s.sems[x].waiters ==> Parked(s, w, Waiting(x));
      }
    }
  }

  lemma AddTaskKeepsInv(s: State, p: int)
    requires Inv(s)
    ensures Inv(AfterAddTask(s, p))
  {
    var s' := AfterAddTask(s, p);
    if |s.tasks| < MAX_TASKS {
      assert s'.tasks[..|s.tasks|] == s.tasks;
      forall i | 0 <= i < |s'.tasks| ensures TaskOk(s', i) {
        assert i < |s.tasks| ==> TaskOk(s, i);
      }
      forall m | 0 <= m < |s'.mutexes| ensures MutexOk(s', m) {
        assert MutexOk(s, m);
        forall w | w in s.mutexes[m].waiters ensures Parked(s', w, Locking(m)) {
          assert Parked(s, w, Locking(m));
        }
      }
      forall x | 0 <= x < |s'.sems| ensures SemOk(s', x) {
        assert SemOk(s, x);
        forall w | w in s.sems[x].waiters ensures Parked(s', w, Waiting(x)) {
          assert Parked(s, w, Waiting(x));
        }
      }
    }
  }

  lemma StepKeepsInv(s: State, step: Step)
    requires Inv(s) && Enabled(s, step)
    ensures Inv(Apply(s, step))
  {
    match step
    case Tick(p) => TickKeepsInv(s, p);
    case Dispatch(p) => DispatchKeepsInv(s, p);
    case Lock(m) => LockKeepsInv(s, m);
    case Unlock(m) => UnlockKeepsInv(s, m);
    case Wait(x) => WaitKeepsInv(s, x);
    case Post(x) => PostKeepsInv(s, x);
    case AddTask(p) => AddTaskKeepsInv(s, p);
    case Unwind => assert TaskOk(s, s.current); OneTaskKeepsInv(s, Apply(s, step), s.current);
    case Yield => assert TaskOk(s, s.current); OneTaskKeepsInv(s, Apply(s, step), s.current);
    case Exit => assert TaskOk(s, s.current); OneTaskKeepsInv(s, Apply(s, step), s.current);
    case Sleep(ms) =>
      assert TaskOk(s, s.current);
      if ms > 0 {
        OneTaskKeepsInv(s, Apply(s, step), s.current);
      }
  }

  lemma InitialInv(s: State)
    requires Initial(s)
    ensures Inv(s)
  {
  }

  /** Every run from a fresh kernel keeps the invariant. */
  lemma {:induction false} RunKeepsInv(s: State, steps: seq<Step>)
    requires Inv(s) && CanRun(s, steps)
    ensures Inv(Run(s, steps))
    decreases |steps|
  {
    if steps != [] {
      StepKeepsInv(s, steps[0]);
      RunKeepsInv(Apply(s, steps[0]), steps[1..]);
    }
  }
}
