/** The kernel's code, loop for loop: the scheduler's globals and the synchronisation objects
    live in one object that the calls update in place.  Each method is proved to perform exactly
    the step the machine in `Kernel` describes. */
module Scheduler {
  import opened Options
  import opened Kernel

  /** `x % n` one turn past the end. */
  lemma WrapOnce(x: nat, n: nat)
    requires 0 < n && x < 2 * n
    ensures x % n == if x < n then x else x - n
  {
  }

  class Rtos {
    var tasks: seq<Task>
    var current: int
    var ticks: nat
    var sinceSwitch: nat
    var slice: nat
    var tickMs: nat
    var switches: nat
    var mutexes: seq<Mutex>
    var sems: seq<Sem>

    ghost function View(): State
      reads this
    {
      State(tasks, current, ticks, sinceSwitch, slice, tickMs, switches, mutexes, sems)
    }

    ghost predicate Valid()
      reads this
    {
      -1 <= current < |tasks| && tickMs >= 1
    }

    /** `scheduler_reset` followed by `scheduler_enable_preemption`, with `inherits` and `counts`
        the arguments of the `mutex_init` and `sem_init` calls. */
    constructor (tickMs: int, slice: int, inherits: seq<bool>, counts: seq<int>)
      ensures Valid() && Initial(View())
      ensures this.tickMs == (if tickMs > 0 then tickMs else 1) && this.slice == (if slice > 0 then slice else 1)
      ensures |mutexes| == |inherits| && forall i :: 0 <= i < |inherits| ==> mutexes[i].inherits == inherits[i]
      ensures |sems| == |counts| && forall i :: 0 <= i < |counts| ==> sems[i].count == counts[i]
    {
      this.tasks, current, ticks, sinceSwitch, switches := [], -1, 0, 0, 0;
      this.tickMs := if tickMs > 0 then tickMs else 1;
      this.slice := if slice > 0 then slice else 1;
      this.mutexes := seq(|inherits|, i requires 0 <= i < |inherits| => Mutex(false, None, 0, inherits[i], []));
      this.sems := seq(|counts|, i requires 0 <= i < |counts| => Sem(counts[i], []));
    }

    /** Highest priority first, round robin among equals. */
    method PickNextReady() returns (r: int)
      requires Valid()
      ensures IsPick(tasks, current, r)
    {
      var n := |tasks|;
      var best, have := 0, false;
      for i := 0 to n
        invariant have ==> exists j :: 0 <= j < i && IsReady(tasks, j) && tasks[j].priority == best
        invariant forall j :: 0 <= j < i && IsReady(tasks, j) ==> have && tasks[j].priority <= best
      {
        if tasks[i].state == Ready && (!have || tasks[i].priority > best) {
          best, have := tasks[i].priority, true;
          assert IsReady(tasks, i);
        }
      }
      if !have {
        return -1;
      }
      WrapOnce(if current < 0 then 0 else current + 1, n);
      var start := if current < 0 then 0 else (current + 1) % n;
      for i := 0 to n
        invariant forall j :: 0 <= j < n && Distance(start, j, n) < i ==>
            !(IsReady(tasks, j) && tasks[j].priority == best)
      {
        WrapOnce(start + i, n);
        var idx := (start + i) % n;
        if tasks[idx].state == Ready && tasks[idx].priority == best {
          assert IsTop(tasks, idx);
          assert forall j :: IsTop(tasks, j) ==> tasks[j].priority == best;
          return idx;
        }
        assert forall j :: 0 <= j < n && Distance(start, j, n) == i ==> j == idx;
      }
      // Some READY task has the best priority, and the scan has met every task.
      assert false;
      r := -1;
    }

    /** `update_tick_bookkeeping`. */
    method UpdateTickBookkeeping()
      modifies this`tasks
      ensures tasks == BookAll(old(tasks), ticks)
    {
      for i := 0 to |tasks|
        invariant |tasks| == |old(tasks)|
        invariant forall j :: 0 <= j < i ==> tasks[j] == Booked(old(tasks)[j], ticks)
        invariant forall j :: i <= j < |tasks| ==> tasks[j] == old(tasks)[j]
      {
        var t := tasks[i];
        if t.state == Running {
          tasks := tasks[i := t.(ticksRun := t.ticksRun + 1)];
        } else if t.state == Ready {
          tasks := tasks[i := t.(ticksReady := t.ticksReady + 1)];
        } else if t.state == Blocked && t.wakeTick != 0 && ticks >= t.wakeTick {
          tasks := tasks[i := t.(wakeTick := 0, state := Ready)];
        }
      }
    }

    /** `preempt_handler` up to the forced switch; what follows the switch is `Resume`. */
    method PreemptHandler() returns (pick: int)
      requires Valid()
      modifies this
      ensures Valid() && Enabled(old(View()), Tick(pick)) && View() == Apply(old(View()), Tick(pick))
    {
      ghost var s := View();
      pick := -1;
      ticks := ticks + 1;
      UpdateTickBookkeeping();
      if current < 0 || tasks[current].state != Running || tasks[current].pending > 0 {
        return;
      }
      var cur := current;
      sinceSwitch := sinceSwitch + 1;
      if sinceSwitch < slice {
        return;
      }
      sinceSwitch := 0;
      tasks := tasks[cur := tasks[cur].(state := Ready)];
      assert tasks == Released(s);
      pick := ForcedSwitch(cur);
    }

    /** The switch at the end of a slice, with `cur` READY again. */
    method ForcedSwitch(cur: nat) returns (pick: int)
      requires Valid() && current == cur && IsReady(tasks, cur)
      modifies this
      ensures Valid() && IsPick(old(tasks), cur, pick) && 0 <= pick < |old(tasks)| && current == pick
      ensures var ts := SetRunning(old(tasks), pick); tasks == ts[cur := ts[cur].(pending := ts[cur].pending + 1)]
      ensures switches == old(switches) + 1
      ensures ticks == old(ticks) && sinceSwitch == old(sinceSwitch) && slice == old(slice) && tickMs == old(tickMs)
      ensures mutexes == old(mutexes) && sems == old(sems)
    {
      pick := PickNextReady();
      if pick < 0 {
        // The source would put the current task back; it cannot happen, that task is READY.
        assert false;
      }
      current := pick;
      tasks := tasks[pick := tasks[pick].(state := Running)];
      tasks := tasks[cur := tasks[cur].(pending := tasks[cur].pending + 1)];
      switches := switches + 1;
    }

    /** A preempted task is switched back in and its handler returns. */
    method Resume()
      requires Valid() && Enabled(View(), Unwind)
      modifies this`tasks
      ensures View() == Apply(old(View()), Unwind)
    {
      tasks := tasks[current := tasks[current].(pending := tasks[current].pending - 1)];
    }

    /** One turn of the loop in `scheduler_run`. */
    method Dispatch() returns (pick: int)
      requires Valid() && !HasRunning(View())
      modifies this
      ensures Valid() && Enabled(old(View()), Step.Dispatch(pick)) && View() == Apply(old(View()), Step.Dispatch(pick))
    {
      pick := PickNextReady();
      if pick < 0 {
        return;
      }
      current := pick;
      tasks := tasks[pick := tasks[pick].(state := Running)];
      switches := switches + 1;
    }

    method AddTask(priority: int)
      requires Valid() && Enabled(View(), Step.AddTask(priority))
      modifies this`tasks
      ensures Valid() && View() == Apply(old(View()), Step.AddTask(priority))
    {
      if |tasks| >= MAX_TASKS {
        return;
      }
      tasks := tasks + [Task(Ready, priority, priority, 0, 0, 0, 0, User)];
    }

    method TaskSleep(ms: int)
      requires Valid() && Enabled(View(), Sleep(ms))
      modifies this`tasks
      ensures Valid() && View() == Apply(old(View()), Sleep(ms))
    {
      if current < 0 || ms <= 0 {
        return;
      }
      var wait := ms / tickMs;
      if wait <= 0 {
        wait := 1;
      }
      tasks := tasks[current := tasks[current].(wakeTick := ticks + wait, state := Blocked)];
    }

    /** `add_waiter` and `sem_add_waiter`. */
    static method AddWaiter(waiters: seq<nat>, t: nat) returns (r: seq<nat>)
      ensures r == WithWaiter(waiters, t)
    {
      for i := 0 to |waiters|
        invariant t !in waiters[..i]
      {
        if waiters[i] == t {
          return waiters;
        }
      }
      assert waiters[..|waiters|] == waiters;
      r := if |waiters| < MAX_TASKS then waiters + [t] else waiters;
    }

    /** Wakes everyone on a waiter list. */
    method WakeWaiters(waiters: seq<nat>)
      requires forall w :: w in waiters ==> w < |tasks|
      modifies this`tasks
      ensures tasks == WakeAll(old(tasks), waiters)
    {
      for i := 0 to |waiters|
        invariant |tasks| == |old(tasks)| && forall w :: w in waiters ==> w < |tasks|
        invariant forall j :: 0 <= j < |tasks| ==>
                    tasks[j] == if j in waiters[..i] then old(tasks)[j].(state := Ready) else old(tasks)[j]
      {
        assert waiters[..i + 1] == waiters[..i] + [waiters[i]] && waiters[i] in waiters;
        tasks := tasks[waiters[i] := tasks[waiters[i]].(state := Ready)];
      }
      assert waiters[..|waiters|] == waiters;
    }

    /** One test of the loop in `mutex_lock`: take the lock, or boost the owner and block. */
    method MutexLock(m: nat)
      requires Valid() && Enabled(View(), Lock(m))
      modifies this
      ensures Valid() && View() == Apply(old(View()), Lock(m))
    {
      var cur: nat, mx := current, mutexes[m];
      if mx.locked {
        if mx.inherits && mx.owner.Some? && tasks[cur].priority > tasks[mx.owner.value].priority {
          tasks := tasks[mx.owner.value := tasks[mx.owner.value].(priority := tasks[cur].priority)];
        }
        var ws := AddWaiter(mx.waiters, cur);
        mutexes := mutexes[m := mx.(waiters := ws)];
        tasks := tasks[cur := tasks[cur].(state := Blocked, point := Locking(m))];
      } else {
        mutexes := mutexes[m := mx.(locked := true, owner := Some(cur), saved := tasks[cur].priority)];
        tasks := tasks[cur := tasks[cur].(point := User)];
      }
    }

    method MutexUnlock(m: nat)
      requires Valid() && Enabled(View(), Unlock(m)) && forall w :: w in mutexes[m].waiters ==> w < |tasks|
      modifies this
      ensures Valid() && View() == Apply(old(View()), Unlock(m))
    {
      var mx := mutexes[m];
      tasks := tasks[current := tasks[current].(priority := mx.saved)];
      mutexes := mutexes[m := mx.(locked := false, owner := None)];
      WakeWaiters(mx.waiters);
      mutexes := mutexes[m := mutexes[m].(waiters := [])];
    }

    /** One test of the loop in `sem_wait`. */
    method SemWait(x: nat)
      requires Valid() && Enabled(View(), Wait(x))
      modifies this
      ensures Valid() && View() == Apply(old(View()), Wait(x))
    {
      var sm := sems[x];
      if sm.count <= 0 {
        var ws := AddWaiter(sm.waiters, current);
        sems := sems[x := sm.(waiters := ws)];
        tasks := tasks[current := tasks[current].(state := Blocked, point := Waiting(x))];
      } else {
        sems := sems[x := sm.(count := sm.count - 1)];
        tasks := tasks[current := tasks[current].(point := User)];
      }
    }

    method SemPost(x: nat)
      requires Valid() && Enabled(View(), Post(x)) && forall w :: w in sems[x].waiters ==> w < |tasks|
      modifies this
      ensures Valid() && View() == Apply(old(View()), Post(x))
    {
      var sm := sems[x];
      sems := sems[x := sm.(count := sm.count + 1)];
      WakeWaiters(sm.waiters);
      sems := sems[x := sems[x].(waiters := [])];
    }
  }
}
