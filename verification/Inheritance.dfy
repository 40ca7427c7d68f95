/** Priority inheritance (`mutex_lock`, `mutex_unlock` in `rtos/src/sync.c`) for tasks that
    never lock a second mutex while holding one and only unlock what they hold. */
module Inheritance {
  import opened Options
  import opened Kernel
  import opened KernelInvariants
  import opened KernelTheorems

  ghost predicate Owns(s: State, t: nat, m: nat) {
    m < |s.mutexes| && s.mutexes[m].locked && s.mutexes[m].owner == Some(t)
  }

  /** No nested locking, and a mutex is unlocked by its owner. */
  ghost predicate Disciplined(s: State, step: Step)
    requires Enabled(s, step)
  {
    match step
    case Lock(m) => s.tasks[s.current].point == User ==> forall k :: !Owns(s, s.current, k)
    case Unlock(m) => Owns(s, s.current, m)
    case _ => true
  }

  ghost predicate DisciplinedRun(s: State, steps: seq<Step>)
    requires CanRun(s, steps)
    decreases |steps|
  {
    steps == [] || (Disciplined(s, steps[0]) && DisciplinedRun(Apply(s, steps[0]), steps[1..]))
  }

  /** The owner's effective priority is exactly the maximum of its base priority and its waiters'. */
  ghost predicate HolderOk(s: State, m: nat)
    requires m < |s.mutexes|
  {
    var mx := s.mutexes[m];
    && (mx.locked <==> mx.owner.Some?)
    && (mx.locked ==>
          && mx.owner.value < |s.tasks|
          && var o := s.tasks[mx.owner.value];
          && mx.saved == o.base
          && (!mx.inherits ==> o.priority == o.base)
          && o.base <= o.priority
          && (mx.inherits ==> forall w :: w in mx.waiters && w < |s.tasks| ==> s.tasks[w].base <= o.priority)
          && (o.priority == o.base || exists w :: w in mx.waiters && w < |s.tasks| && s.tasks[w].base == o.priority))
  }

  ghost predicate PrioInv(s: State) {
    && (forall m :: 0 <= m < |s.mutexes| ==> HolderOk(s, m))
    && (forall t, m, k :: Owns(s, t, m) && Owns(s, t, k) ==> m == k)
    && (forall t, m :: 0 <= t < |s.tasks| && s.tasks[t].point.Locking? ==> !Owns(s, t, m))
    && (forall t :: 0 <= t < |s.tasks| && (forall m :: !Owns(s, t, m)) ==> s.tasks[t].priority == s.tasks[t].base)
  }

  /** No mutex and no priority changes, and no task is sent to a lock. */
  ghost predicate Quiet(s: State, s': State) {
    && s'.mutexes == s.mutexes && |s'.tasks| == |s.tasks|
    && forall i :: 0 <= i < |s.tasks| ==>
         && s'.tasks[i].priority == s.tasks[i].priority && s'.tasks[i].base == s.tasks[i].base
         && (s'.tasks[i].point.Locking? ==> s.tasks[i].point.Locking?)
  }

  lemma StepIsQuiet(s: State, step: Step)
    requires Inv(s) && Enabled(s, step) && !step.Lock? && !step.Unlock? && !step.AddTask?
    ensures Quiet(s, Apply(s, step))
  {
    if step.Tick? {
      TickShape(s, step.pick);
    }
  }

  lemma QuietStepKeepsPrio(s: State, s': State)
    requires PrioInv(s) && Quiet(s, s')
    ensures PrioInv(s')
  {
    assert forall t, m :: Owns(s', t, m) <==> Owns(s, t, m);
    forall m | 0 <= m < |s'.mutexes| ensures HolderOk(s', m) {
      assert HolderOk(s, m);
    }
  }

  lemma AddTaskKeepsPrio(s: State, p: int)
    requires Inv(s) && PrioInv(s)
    ensures PrioInv(AfterAddTask(s, p))
  {
    var s' := AfterAddTask(s, p);
    assert forall t, m :: Owns(s', t, m) <==> Owns(s, t, m);
    forall m | 0 <= m < |s'.mutexes| ensures HolderOk(s', m) {
      assert HolderOk(s, m) && MutexOk(s, m);
      forall w | w in s.mutexes[m].waiters ensures w < |s.tasks| { assert Parked(s, w, Locking(m)); }
    }
  }

  /** A task about to lock, or re-testing a lock, holds nothing and runs at its base priority. */
  lemma LockerHoldsNothing(s: State, m: nat)
    requires PrioInv(s) && Enabled(s, Lock(m)) && Disciplined(s, Lock(m))
    ensures forall k :: !Owns(s, s.current, k)
    ensures s.tasks[s.current].priority == s.tasks[s.current].base
  {
  }

  lemma AcquireKeepsPrio(s: State, m: nat)
    requires Inv(s) && PrioInv(s) && Enabled(s, Lock(m)) && Disciplined(s, Lock(m)) && !s.mutexes[m].locked
    ensures PrioInv(AfterLock(s, m))
  {
    var s' := AfterLock(s, m);
    LockerHoldsNothing(s, m);
    assert forall t, k :: Owns(s', t, k) <==> (Owns(s, t, k) || (t == s.current && k == m));
    forall k | 0 <= k < |s'.mutexes| ensures HolderOk(s', k) {
      assert HolderOk(s, k) && MutexOk(s, k);
    }
  }

  lemma BlockKeepsPrio(s: State, m: nat)
    requires Inv(s) && PrioInv(s) && Enabled(s, Lock(m)) && Disciplined(s, Lock(m)) && s.mutexes[m].locked
    ensures PrioInv(AfterLock(s, m))
  {
    var s' := AfterLock(s, m);
    LockerHoldsNothing(s, m);
    WaiterAlwaysFits(s);
    assert HolderOk(s, m);
    var o := s.mutexes[m].owner.value;
    assert Owns(s, o, m);
    assert o != s.current;
    assert forall t, k :: Owns(s', t, k) <==> Owns(s, t, k);
    forall k | 0 <= k < |s'.mutexes| ensures HolderOk(s', k) {
      assert HolderOk(s, k);
      if k == m {
        BlockKeepsHolder(s, m);
      } else if s.mutexes[k].locked {
        assert Owns(s, s.mutexes[k].owner.value, k);
      }
    }
  }

  lemma BlockKeepsHolder(s: State, m: nat)
    requires Inv(s) && PrioInv(s) && Enabled(s, Lock(m)) && Disciplined(s, Lock(m)) && s.mutexes[m].locked
    requires s.mutexes[m].owner.Some? && s.mutexes[m].owner.value != s.current
    ensures HolderOk(AfterLock(s, m), m)
  {
    var s' := AfterLock(s, m);
    LockerHoldsNothing(s, m);
    WaiterAlwaysFits(s);
    assert HolderOk(s, m);
    var before, after := s.mutexes[m].waiters, s'.mutexes[m].waiters;
    assert after == before + [s.current];
    assert s.current in after;
    assert forall w :: w in after <==> w in before || w == s.current;
    assert forall i :: 0 <= i < |s.tasks| ==> s'.tasks[i].base == s.tasks[i].base;
  }

  /** Unlocking takes `m` from its owner and changes nobody else's mutexes. */
  lemma UnlockOwns(s: State, m: nat)
    requires Enabled(s, Unlock(m)) && Owns(s, s.current, m)
    ensures forall t, k :: Owns(AfterUnlock(s, m), t, k) <==> (Owns(s, t, k) && k != m)
  {
  }

  lemma UnlockKeepsFree(s: State, m: nat, t: nat)
    requires Inv(s) && PrioInv(s) && Enabled(s, Unlock(m)) && Disciplined(s, Unlock(m)) && t < |s.tasks|
    requires forall k :: !Owns(AfterUnlock(s, m), t, k)
    ensures AfterUnlock(s, m).tasks[t].priority == AfterUnlock(s, m).tasks[t].base
  {
    UnlockOwns(s, m);
    assert HolderOk(s, m);
    if t != s.current {
      forall k ensures !Owns(s, t, k) {
        assert !Owns(AfterUnlock(s, m), t, k);
      }
    }
  }

  lemma UnlockKeepsHolder(s: State, m: nat, k: nat)
    requires Inv(s) && PrioInv(s) && Enabled(s, Unlock(m)) && Disciplined(s, Unlock(m)) && k < |s.mutexes|
    ensures HolderOk(AfterUnlock(s, m), k)
  {
    UnlockOwns(s, m);
    CurrentNotListed(s);
    assert HolderOk(s, k);
    if AfterUnlock(s, m).mutexes[k].locked {
      assert Owns(AfterUnlock(s, m), s.mutexes[k].owner.value, k);
    }
  }

  lemma UnlockKeepsPrio(s: State, m: nat)
    requires Inv(s) && PrioInv(s) && Enabled(s, Unlock(m)) && Disciplined(s, Unlock(m))
    ensures PrioInv(AfterUnlock(s, m))
    ensures AfterUnlock(s, m).tasks[s.current].priority == s.tasks[s.current].base
  {
    var s' := AfterUnlock(s, m);
    UnlockOwns(s, m);
    assert HolderOk(s, m);
    forall t | 0 <= t < |s'.tasks| && (forall k :: !Owns(s', t, k))
      ensures s'.tasks[t].priority == s'.tasks[t].base
    {
      UnlockKeepsFree(s, m, t);
    }
    forall k | 0 <= k < |s'.mutexes| ensures HolderOk(s', k) {
      UnlockKeepsHolder(s, m, k);
    }
  }

  lemma StepKeepsPrio(s: State, step: Step)
    requires Inv(s) && PrioInv(s) && Enabled(s, step) && Disciplined(s, step)
    ensures PrioInv(Apply(s, step))
  {
    match step
    case Lock(m) => if s.mutexes[m].locked { BlockKeepsPrio(s, m); } else { AcquireKeepsPrio(s, m); }
    case Unlock(m) => UnlockKeepsPrio(s, m);
    case AddTask(p) => AddTaskKeepsPrio(s, p);
    case _ => StepIsQuiet(s, step); QuietStepKeepsPrio(s, Apply(s, step));
  }

  lemma {:induction false} RunKeepsPrio(s: State, steps: seq<Step>)
    requires Inv(s) && PrioInv(s) && CanRun(s, steps) && DisciplinedRun(s, steps)
    ensures PrioInv(Run(s, steps)) && Inv(Run(s, steps))
    decreases |steps|
  {
    if steps != [] {
      StepKeepsPrio(s, steps[0]);
      StepKeepsInv(s, steps[0]);
      RunKeepsPrio(Apply(s, steps[0]), steps[1..]);
    }
  }

  /** In every disciplined run, while `h` waits on an inheriting mutex whose owner is READY,
      a pick goes to a task that runs at `h`'s priority or above, and that is a task of at
      least `h`'s own base priority or an owner some such task is waiting for. */
  lemma NoUnboundedInversion(s0: State, steps: seq<Step>, step: Step, m: nat, h: nat)
    requires Initial(s0) && CanRun(s0, steps) && DisciplinedRun(s0, steps)
    requires Enabled(Run(s0, steps), step) && Picks(Run(s0, steps), step)
    requires m < |Run(s0, steps).mutexes| && Run(s0, steps).mutexes[m].inherits
    requires h in Run(s0, steps).mutexes[m].waiters && h < |Run(s0, steps).tasks|
    requires exists o: nat :: Owns(Run(s0, steps), o, m) && IsReady(PickTable(Run(s0, steps), step), o)
    ensures var s := Run(s0, steps); var i := step.pick;
            && 0 <= i < |s.tasks| && s.tasks[i].priority >= s.tasks[h].priority == s.tasks[h].base
            && (|| s.tasks[i].base >= s.tasks[h].base
                || exists k: nat, w: nat :: Owns(s, i, k) && w in s.mutexes[k].waiters && w < |s.tasks| &&
                    s.tasks[w].base >= s.tasks[h].base)
  {
    var s := Run(s0, steps);
    RunKeepsPrio(s0, steps);
    PickedIsHighEnough(s, step, m, h);
  }

  lemma PickedIsHighEnough(s: State, step: Step, m: nat, h: nat)
    requires Inv(s) && PrioInv(s) && Enabled(s, step) && Picks(s, step)
    requires m < |s.mutexes| && s.mutexes[m].inherits && h in s.mutexes[m].waiters && h < |s.tasks|
    requires exists o: nat :: Owns(s, o, m) && IsReady(PickTable(s, step), o)
    ensures var i := step.pick;
            && 0 <= i < |s.tasks| && s.tasks[i].priority >= s.tasks[h].priority == s.tasks[h].base
            && (|| s.tasks[i].base >= s.tasks[h].base
                || exists k: nat, w: nat :: Owns(s, i, k) && w in s.mutexes[k].waiters && w < |s.tasks| &&
                    s.tasks[w].base >= s.tasks[h].base)
  {
    var ts, i := PickTable(s, step), step.pick;
    assert MutexOk(s, m) && Parked(s, h, Locking(m));
    assert HolderOk(s, m);
    var o: nat :| Owns(s, o, m) && IsReady(ts, o);
    assert forall j :: 0 <= j < |ts| ==> ts[j].priority == s.tasks[j].priority;
    assert SomeReady(ts) && IsTop(ts, i);
    if s.tasks[i].base < s.tasks[h].base {
      var k :| Owns(s, i, k);
      assert HolderOk(s, k);
    }
  }

  /** Unlocking gives the owner its base priority back, in every disciplined run. */
  lemma UnlockRestoresBase(s0: State, steps: seq<Step>, m: nat)
    requires Initial(s0) && CanRun(s0, steps) && DisciplinedRun(s0, steps)
    requires Enabled(Run(s0, steps), Unlock(m)) && Disciplined(Run(s0, steps), Unlock(m))
    ensures var s := Run(s0, steps); var s' := Apply(s, Unlock(m));
            && s.current < |s'.tasks| &&
                s'.tasks[s.current].priority == s.tasks[s.current].base == s'.tasks[s.current].base
  {
    RunKeepsPrio(s0, steps);
    UnlockKeepsPrio(Run(s0, steps), m);
  }
}
