/** What the saved priority of `rtos/src/sync.c` guarantees when a task takes a mutex while it
    holds others: exactly when unlocking restores the base priority, an order of unlocking that
    always does, and a run in which it does not. */
module NestedLocking {
  import opened Options
  import opened Kernel
  import opened KernelInvariants
  import opened Inheritance

  // ------------------------------------------------------- what a mutex saves

  /** A task unlocks only what it owns; nesting is allowed. */
  ghost predicate OwnerUnlocks(s: State, step: Step) {
    step.Unlock? ==> s.current >= 0 && Owns(s, s.current, step.m)
  }

  ghost predicate OwnerRun(s: State, steps: seq<Step>)
    requires CanRun(s, steps)
    decreases |steps|
  {
    steps == [] || (OwnerUnlocks(s, steps[0]) && OwnerRun(Apply(s, steps[0]), steps[1..]))
  }

  /** A held mutex stays with its owner and keeps the priority it saved, whatever others do. */
  lemma StepKeepsHold(s: State, step: Step, t: nat, m: nat)
    requires Inv(s) && Enabled(s, step) && OwnerUnlocks(s, step) && Owns(s, t, m) && step != Unlock(m)
    ensures var s' := Apply(s, step);
            && Owns(s', t, m) && s'.mutexes[m].saved == s.mutexes[m].saved
            && t < |s.tasks| && t < |s'.tasks| && s'.tasks[t].base == s.tasks[t].base
  {
    assert MutexOk(s, m);
    if step.Tick? {
      TickShape(s, step.pick);
    }
  }

  lemma {:induction false} RunKeepsHold(s: State, steps: seq<Step>, t: nat, m: nat)
    requires Inv(s) && CanRun(s, steps) && OwnerRun(s, steps) && Owns(s, t, m) && Unlock(m) !in steps
    ensures var s' := Run(s, steps);
            && Inv(s') && Owns(s', t, m) && s'.mutexes[m].saved == s.mutexes[m].saved
            && t < |s.tasks| && t < |s'.tasks| && s'.tasks[t].base == s.tasks[t].base
    decreases |steps|
  {
    if steps == [] {
      assert MutexOk(s, m);
    } else {
      StepKeepsInv(s, steps[0]);
      StepKeepsHold(s, steps[0], t, m);
      RunKeepsHold(Apply(s, steps[0]), steps[1..], t, m);
    }
  }

  /** Acquiring a free mutex saves the caller's effective priority. */
  lemma AcquireSaves(s: State, m: nat)
    requires Inv(s) && Enabled(s, Lock(m)) && !s.mutexes[m].locked
    ensures var s' := Apply(s, Lock(m)); var t := s.current;
            && Inv(s') && Owns(s', t, m) && s'.mutexes[m].saved == s.tasks[t].priority
            && s'.tasks[t].base == s.tasks[t].base
  {
    StepKeepsInv(s, Lock(m));
  }

  /** Unlocking gives the caller the priority the mutex saved. */
  lemma UnlockGives(s: State, m: nat)
    requires Inv(s) && Enabled(s, Unlock(m))
    ensures var s' := Apply(s, Unlock(m)); var t := s.current;
            && t < |s'.tasks| && s'.tasks[t].priority == s.mutexes[m].saved && s'.tasks[t].base == s.tasks[t].base
  {
  }

  /** The exact rule, nesting allowed: whatever runs while `m` is held, unlocking `m` gives its owner
      the priority it had when it acquired `m`, so its base priority exactly when it was at its base
      priority then. */
  lemma UnlockRestoresIff(s0: State, before: seq<Step>, m: nat, held: seq<Step>)
    requires Initial(s0) && CanRun(s0, before)
    requires var s := Run(s0, before); Enabled(s, Lock(m)) && !s.mutexes[m].locked
    requires var s1 := Apply(Run(s0, before), Lock(m));
             && CanRun(s1, held) && OwnerRun(s1, held) && Unlock(m) !in held
             && Enabled(Run(s1, held), Unlock(m)) && OwnerUnlocks(Run(s1, held), Unlock(m))
    ensures var s := Run(s0, before); var s' := Apply(Run(Apply(s, Lock(m)), held), Unlock(m)); var t := s.current;
            && t < |s'.tasks| && s'.tasks[t].base == s.tasks[t].base
            && s'.tasks[t].priority == s.tasks[t].priority
            && (s'.tasks[t].priority == s'.tasks[t].base <==> s.tasks[t].priority == s.tasks[t].base)
  {
    var s := Run(s0, before);
    RunKeepsInv(s0, before);
    AcquireSaves(s, m);
    RunKeepsHold(Apply(s, Lock(m)), held, s.current, m);
    UnlockGives(Run(Apply(s, Lock(m)), held), m);
  }

  // -------------------------------------------------- the outermost mutex last

  ghost predicate OwnsNothing(s: State, t: nat) {
    forall m :: !Owns(s, t, m)
  }

  /** Which mutex each task took first of those it holds. */
  type Outermost = map<nat, nat>

  ghost function NextOutermost(s: State, step: Step, outer: Outermost): Outermost
    requires Enabled(s, step)
  {
    if step.Lock? && !s.mutexes[step.m].locked && OwnsNothing(s, s.current) then outer[s.current as nat := step.m]
    else outer
  }

  /** A task unlocks what it owns, and the mutex it took first only after all the others. */
  ghost predicate OutermostLast(s: State, step: Step, outer: Outermost)
    requires Enabled(s, step)
  {
    step.Unlock? ==>
      && Owns(s, s.current, step.m)
      && (s.current in outer && outer[s.current as nat] == step.m ==>
            forall k :: Owns(s, s.current, k) ==> k == step.m)
  }

  ghost predicate OutermostLastRun(s: State, steps: seq<Step>, outer: Outermost)
    requires CanRun(s, steps)
    decreases |steps|
  {
    steps == [] ||
    (&& OutermostLast(s, steps[0], outer)
     && OutermostLastRun(Apply(s, steps[0]), steps[1..], NextOutermost(s, steps[0], outer)))
  }

  /** The outermost mutex saved the base priority, and a task that holds nothing is at its base. */
  ghost predicate NestOk(s: State, outer: Outermost, t: nat)
    requires t < |s.tasks|
  {
    if OwnsNothing(s, t) then s.tasks[t].priority == s.tasks[t].base
    else t in outer && Owns(s, t, outer[t]) && s.mutexes[outer[t]].saved == s.tasks[t].base
  }

  ghost predicate NestInv(s: State, outer: Outermost) {
    forall t :: 0 <= t < |s.tasks| ==> NestOk(s, outer, t)
  }

  /** Steps that touch no mutex. */
  lemma QuietKeepsNest(s: State, step: Step, outer: Outermost)
    requires Inv(s) && NestInv(s, outer) && Enabled(s, step) && !step.Lock? && !step.Unlock? && !step.AddTask?
    ensures NestInv(Apply(s, step), outer)
  {
    StepIsQuiet(s, step);
    var s' := Apply(s, step);
    forall t | 0 <= t < |s'.tasks|
      ensures NestOk(s', outer, t)
    {
      assert NestOk(s, outer, t);
      assert forall m :: Owns(s', t, m) <==> Owns(s, t, m);
    }
  }

  lemma NewcomerOwnsNothing(s: State, t: nat)
    requires Inv(s) && t >= |s.tasks|
    ensures OwnsNothing(s, t)
  {
    forall m | 0 <= m < |s.mutexes|
      ensures !Owns(s, t, m)
    {
      assert MutexOk(s, m);
    }
  }

  lemma AddTaskKeepsNest(s: State, p: int, outer: Outermost)
    requires Inv(s) && NestInv(s, outer) && Enabled(s, AddTask(p))
    ensures NestInv(Apply(s, AddTask(p)), outer)
  {
    var s' := Apply(s, AddTask(p));
    forall t | 0 <= t < |s'.tasks|
      ensures NestOk(s', outer, t)
    {
      assert forall m :: Owns(s', t, m) <==> Owns(s, t, m);
      if t < |s.tasks| {
        assert NestOk(s, outer, t);
      } else {
        NewcomerOwnsNothing(s, t);
      }
    }
  }

  lemma AcquireKeepsNest(s: State, m: nat, outer: Outermost)
    requires Inv(s) && NestInv(s, outer) && Enabled(s, Lock(m)) && !s.mutexes[m].locked
    ensures NestInv(Apply(s, Lock(m)), NextOutermost(s, Lock(m), outer))
  {
    var s', outer' := Apply(s, Lock(m)), NextOutermost(s, Lock(m), outer);
    assert Owns(s', s.current, m);
    assert forall t, k :: k != m ==> (Owns(s', t, k) <==> Owns(s, t, k));
    forall t | 0 <= t < |s'.tasks|
      ensures NestOk(s', outer', t)
    {
      assert NestOk(s, outer, t);
      assert t != s.current ==> !Owns(s', t, m) && !Owns(s, t, m);
    }
  }

  lemma BlockKeepsNest(s: State, m: nat, outer: Outermost)
    requires Inv(s) && NestInv(s, outer) && Enabled(s, Lock(m)) && s.mutexes[m].locked
    ensures NestInv(Apply(s, Lock(m)), outer)
  {
    var s' := Apply(s, Lock(m));
    assert forall t, k :: Owns(s', t, k) <==> Owns(s, t, k);
    forall t | 0 <= t < |s'.tasks|
      ensures NestOk(s', outer, t)
    {
      assert NestOk(s, outer, t);
      assert s.mutexes[m].owner == Some(t) ==> Owns(s, t, m);
    }
  }

  lemma UnlockKeepsNest(s: State, m: nat, outer: Outermost)
    requires Inv(s) && NestInv(s, outer) && Enabled(s, Unlock(m)) && OutermostLast(s, Unlock(m), outer)
    ensures NestInv(Apply(s, Unlock(m)), outer)
  {
    var s' := Apply(s, Unlock(m));
    assert forall t, k :: Owns(s', t, k) <==> Owns(s, t, k) && k != m;
    forall t | 0 <= t < |s'.tasks|
      ensures NestOk(s', outer, t)
    {
      assert NestOk(s, outer, t);
      if t == s.current {
        assert Owns(s, t, m) && Owns(s, t, outer[t]);
      } else {
        assert !Owns(s, t, m);
      }
    }
  }

  lemma StepKeepsNest(s: State, step: Step, outer: Outermost)
    requires Inv(s) && NestInv(s, outer) && Enabled(s, step) && OutermostLast(s, step, outer)
    ensures NestInv(Apply(s, step), NextOutermost(s, step, outer))
  {
    if step.Unlock? {
      UnlockKeepsNest(s, step.m, outer);
    } else if step.AddTask? {
      AddTaskKeepsNest(s, step.priority, outer);
    } else if !step.Lock? {
      QuietKeepsNest(s, step, outer);
    } else if s.mutexes[step.m].locked {
      BlockKeepsNest(s, step.m, outer);
    } else {
      AcquireKeepsNest(s, step.m, outer);
    }
  }

  lemma {:induction false} RunKeepsNest(s: State, steps: seq<Step>, outer: Outermost) returns (outer': Outermost)
    requires Inv(s) && NestInv(s, outer) && CanRun(s, steps) && OutermostLastRun(s, steps, outer)
    ensures NestInv(Run(s, steps), outer')
    decreases |steps|
  {
    outer' := outer;
    if steps != [] {
      StepKeepsInv(s, steps[0]);
      StepKeepsNest(s, steps[0], outer);
      outer' := RunKeepsNest(Apply(s, steps[0]), steps[1..], NextOutermost(s, steps[0], outer));
    }
  }

  /** With any nesting: if every task releases the mutex it took first after all the others (in
      particular if mutexes are released in reverse order), a task that holds none is at its base
      priority, in every reachable state. */
  lemma OutermostLastRestoresBase(s0: State, steps: seq<Step>, t: nat)
    requires Initial(s0) && CanRun(s0, steps) && OutermostLastRun(s0, steps, map[])
    ensures var s := Run(s0, steps);
            t < |s.tasks| && OwnsNothing(s, t) ==> s.tasks[t].priority == s.tasks[t].base
  {
    InitialInv(s0);
    var outer := RunKeepsNest(s0, steps, map[]);
    if t < |Run(s0, steps).tasks| {
      assert NestOk(Run(s0, steps), outer, t);
    }
  }

  // ------------------------------------------------- the inner mutex released last

  lemma RunCons(s: State, step: Step, rest: seq<Step>)
    requires Enabled(s, step) && OwnerUnlocks(s, step) && CanRun(Apply(s, step), rest) && OwnerRun(Apply(s, step), rest)
    ensures CanRun(s, [step] + rest) && OwnerRun(s, [step] + rest)
    ensures Run(s, [step] + rest) == Run(Apply(s, step), rest)
  {
    assert ([step] + rest)[1..] == rest;
  }

  /** A low task holds mutex 0 with a high task waiting for it, and so runs boosted; from there it
      takes mutex 1 and releases both in the order taken. */
  ghost predicate RunsBoosted(s: State, low: int, high: int) {
    && |s.tasks| == 2 && s.current == 0 && Calling(s, User) && s.tasks[0].point == User
    && s.tasks[0].base == low && s.tasks[0].priority == high
    && |s.mutexes| >= 2 && !s.mutexes[1].locked && s.mutexes[1].owner == None && s.mutexes[1].waiters == []
    && s.mutexes[0].saved == low && s.mutexes[0].locked && s.mutexes[0].owner == Some(0) && s.mutexes[0].waiters == [1]
    && forall m :: 2 <= m < |s.mutexes| ==> !s.mutexes[m].locked
  }

  /** Mutex 1 has saved the boosted priority; `first` says whether mutex 0 is still held. */
  ghost predicate SavedBoost(s: State, low: int, high: int, first: bool) {
    && |s.tasks| == 2 && s.current == 0 && Calling(s, User) && s.tasks[0].point == User && s.tasks[0].base == low
    && |s.mutexes| >= 2 && s.mutexes[1].saved == high && s.mutexes[1].locked && s.mutexes[1].owner == Some(0)
    && s.mutexes[1].waiters == []
    && (if first then s.mutexes[0].locked && s.mutexes[0].owner == Some(0) && s.mutexes[0].waiters == [1]
        else !s.mutexes[0].locked)
    && forall m :: 2 <= m < |s.mutexes| ==> !s.mutexes[m].locked
  }

  lemma TakesSecond(s: State, low: int, high: int)
    requires RunsBoosted(s, low, high)
    ensures Enabled(s, Lock(1)) && SavedBoost(Apply(s, Lock(1)), low, high, true)
  {
  }

  lemma ReleasesFirst(s: State, low: int, high: int)
    requires SavedBoost(s, low, high, true)
    ensures Enabled(s, Unlock(0)) && OwnerUnlocks(s, Unlock(0)) && SavedBoost(Apply(s, Unlock(0)), low, high, false)
  {
  }

  lemma ReleasesSecond(s: State, low: int, high: int)
    requires SavedBoost(s, low, high, false)
    ensures Enabled(s, Unlock(1)) && OwnerUnlocks(s, Unlock(1))
    ensures var s' := Apply(s, Unlock(1));
            |s'.tasks| == 2 && OwnsNothing(s', 0) && s'.tasks[0].base == low && s'.tasks[0].priority == high
  {
  }

  lemma ReleasesBoth(s: State, low: int, high: int)
    requires SavedBoost(s, low, high, true)
    ensures var steps := [Unlock(0), Unlock(1)];
            && CanRun(s, steps) && OwnerRun(s, steps)
            && var s' := Run(s, steps);
               |s'.tasks| == 2 && OwnsNothing(s', 0) && s'.tasks[0].base == low && s'.tasks[0].priority == high
  {
    ReleasesFirst(s, low, high);
    var s1 := Apply(s, Unlock(0));
    ReleasesSecond(s1, low, high);
    RunCons(s1, Unlock(1), []);
    RunCons(s, Unlock(0), [Unlock(1)]);
    assert [Unlock(0)] + [Unlock(1)] == [Unlock(0), Unlock(1)] && [Unlock(1)] + [] == [Unlock(1)];
  }

  lemma EndsBoosted(s: State, low: int, high: int)
    requires RunsBoosted(s, low, high)
    ensures var steps := [Lock(1), Unlock(0), Unlock(1)];
            && CanRun(s, steps) && OwnerRun(s, steps)
            && var s' := Run(s, steps);
               |s'.tasks| == 2 && OwnsNothing(s', 0) && s'.tasks[0].base == low && s'.tasks[0].priority == high
  {
    TakesSecond(s, low, high);
    ReleasesBoth(Apply(s, Lock(1)), low, high);
    RunCons(s, Lock(1), [Unlock(0), Unlock(1)]);
    assert [Lock(1)] + [Unlock(0), Unlock(1)] == [Lock(1), Unlock(0), Unlock(1)];
  }

  lemma {:induction false} RunAppend(s: State, a: seq<Step>, b: seq<Step>)
    requires CanRun(s, a) && OwnerRun(s, a) && CanRun(Run(s, a), b) && OwnerRun(Run(s, a), b)
    ensures CanRun(s, a + b) && OwnerRun(s, a + b) && Run(s, a + b) == Run(Run(s, a), b)
    decreases |a|
  {
    if a == [] {
      assert a + b == b;
    } else {
      RunAppend(Apply(s, a[0]), a[1..], b);
      RunCons(s, a[0], a[1..] + b);
      assert [a[0]] + (a[1..] + b) == a + b;
    }
  }

  /** One task, holding mutex 0. */
  ghost predicate HoldsOne(s: State, low: int) {
    && |s.tasks| == 1 && s.current == 0 && Calling(s, User)
    && s.tasks[0] == Task(Running, low, low, 0, s.tasks[0].ticksRun, s.tasks[0].ticksReady, 0, User)
    && |s.mutexes| >= 2 && s.mutexes[0] == Mutex(true, Some(0), low, true, [])
    && forall m :: 1 <= m < |s.mutexes| ==>
        !s.mutexes[m].locked && s.mutexes[m].owner == None && s.mutexes[m].waiters == []
  }

  lemma TakesFirst(s: State, low: int)
    requires Initial(s) && |s.mutexes| >= 2 && s.mutexes[0].inherits
    ensures var steps := [AddTask(low), Dispatch(0), Lock(0)];
            CanRun(s, steps) && OwnerRun(s, steps) && HoldsOne(Run(s, steps), low)
  {
    var s1 := Apply(s, AddTask(low));
    assert IsReady(s1.tasks, 0) && IsPick(s1.tasks, s1.current, 0);
    var s2 := Apply(s1, Dispatch(0));
    RunCons(s2, Lock(0), []);
    RunCons(s1, Dispatch(0), [Lock(0)]);
    RunCons(s, AddTask(low), [Dispatch(0), Lock(0)]);
    assert [Lock(0)] + [] == [Lock(0)] && [Dispatch(0)] + [Lock(0)] == [Dispatch(0), Lock(0)];
    assert [AddTask(low)] + [Dispatch(0), Lock(0)] == [AddTask(low), Dispatch(0), Lock(0)];
  }

  /** The high task runs while the low one holds mutex 0. */
  ghost predicate HighRuns(s: State, low: int, high: int) {
    && |s.tasks| == 2 && s.current == 1 && Calling(s, User) && s.tasks[1].priority == high && s.tasks[1].point == User
    && s.tasks[0] == Task(Ready, low, low, 0, s.tasks[0].ticksRun, s.tasks[0].ticksReady, 0, User)
    && |s.mutexes| >= 2 && s.mutexes[0] == Mutex(true, Some(0), low, true, [])
    && forall m :: 1 <= m < |s.mutexes| ==>
         !s.mutexes[m].locked && s.mutexes[m].owner == None && s.mutexes[m].waiters == []
  }

  lemma HighArrives(s: State, low: int, high: int)
    requires HoldsOne(s, low) && low < high
    ensures var steps := [AddTask(high), Yield, Dispatch(1)];
            CanRun(s, steps) && OwnerRun(s, steps) && HighRuns(Run(s, steps), low, high)
  {
    var s1 := Apply(s, AddTask(high));
    var s2 := Apply(s1, Yield);
    assert IsReady(s2.tasks, 1) && IsPick(s2.tasks, s2.current, 1);
    RunCons(s2, Dispatch(1), []);
    RunCons(s1, Yield, [Dispatch(1)]);
    RunCons(s, AddTask(high), [Yield, Dispatch(1)]);
    assert [Dispatch(1)] + [] == [Dispatch(1)] && [Yield] + [Dispatch(1)] == [Yield, Dispatch(1)];
    assert [AddTask(high)] + [Yield, Dispatch(1)] == [AddTask(high), Yield, Dispatch(1)];
  }

  lemma HighBlocks(s: State, low: int, high: int)
    requires HighRuns(s, low, high) && low < high
    ensures var steps := [Lock(0), Dispatch(0)];
            CanRun(s, steps) && OwnerRun(s, steps) && RunsBoosted(Run(s, steps), low, high)
  {
    var s1 := Apply(s, Lock(0));
    assert IsReady(s1.tasks, 0) && IsPick(s1.tasks, s1.current, 0);
    RunCons(s1, Dispatch(0), []);
    RunCons(s, Lock(0), [Dispatch(0)]);
    assert [Dispatch(0)] + [] == [Dispatch(0)] && [Lock(0)] + [Dispatch(0)] == [Lock(0), Dispatch(0)];
  }

  /** The failing case is reachable from every fresh kernel with two mutexes, for any two priorities:
      a task that was boosted when it took the inner mutex, and releases that one last, ends up
      holding nothing at the high task's priority. */
  lemma NestedLockingFails(s: State, low: int, high: int) returns (steps: seq<Step>)
    requires Initial(s) && |s.mutexes| >= 2 && s.mutexes[0].inherits && low < high
    ensures CanRun(s, steps) && OwnerRun(s, steps)
    ensures var s' := Run(s, steps);
            |s'.tasks| == 2 && OwnsNothing(s', 0) && s'.tasks[0].base == low && s'.tasks[0].priority == high
  {
    var a, b := [AddTask(low), Dispatch(0), Lock(0)], [AddTask(high), Yield, Dispatch(1)];
    var c, d := [Lock(0), Dispatch(0)], [Lock(1), Unlock(0), Unlock(1)];
    TakesFirst(s, low);
    var s1 := Run(s, a);
    HighArrives(s1, low, high);
    var s2 := Run(s1, b);
    HighBlocks(s2, low, high);
    EndsBoosted(Run(s2, c), low, high);
    RunAppend(s2, c, d);
    RunAppend(s1, b, c + d);
    RunAppend(s, a, b + (c + d));
    steps := a + (b + (c + d));
  }
}
