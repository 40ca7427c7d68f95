/** `queue_send` and `queue_receive` of `rtos/src/sync.c`: a ring guarded by one mutex and two
    counting semaphores, used by any number of tasks, on top of the kernel's steps.

    Each semaphore or mutex call and each access to the ring is one step, and the kernel may
    tick, preempt and dispatch between any two of them. */
module BoundedQueue {
  import opened Options
  import opened Kernel
  import opened KernelInvariants

  // The queue's own mutex and semaphores among the kernel's.
  const LOCK: nat := 0
  const EMPTY: nat := 0
  const FILLED: nat := 1

  /** The next thing a task does inside the queue code. */
  datatype Phase<T> =
    | Out
    | SendWait(item: T) | SendLock(item: T) | SendWrite(item: T) | SendAdvance(item: T) | SendUnlock | SendPost
    | RecvWait | RecvLock | RecvRead | RecvAdvance(got: T) | RecvUnlock(got: T) | RecvPost(got: T)

  /** `sent` and `got` log the items in the order `tail` and `head` moved past them. */
  datatype QState<T> = QState(
    k: State, buffer: seq<T>, head: nat, tail: nat, at: seq<Phase<T>>, sent: seq<T>, got: seq<T>)

  datatype QStep<T> = Kern(step: Step) | BeginSend(item: T) | BeginReceive | Advance

  // ---------------------------------------------------------------- the steps

  /** The kernel step is made by the machine, not by the running task's code. */
  predicate Involuntary(step: Step) {
    step.Tick? || step.Dispatch? || step.Unwind?
  }

  predicate LeavesQueueAlone(step: Step) {
    match step
    case Lock(m) => m != LOCK
    case Unlock(m) => m != LOCK
    case Wait(x) => x != EMPTY && x != FILLED
    case Post(x) => x != EMPTY && x != FILLED
    case _ => true
  }

  predicate CurrentAt<T>(q: QState<T>) {
    HasRunning(q.k) && q.k.current < |q.at|
  }

  function Pc<T>(q: QState<T>): Phase<T>
    requires CurrentAt(q)
  {
    q.at[q.k.current]
  }

  ghost predicate QEnabled<T>(q: QState<T>, step: QStep<T>) {
    match step
    case Kern(st) =>
      && Enabled(q.k, st) && LeavesQueueAlone(st)
      && (Involuntary(st) || (CurrentAt(q) && Pc(q).Out?) || (st.AddTask? && !HasRunning(q.k)))
    case BeginSend(item) => CurrentAt(q) && Pc(q).Out? && Calling(q.k, User)
    case BeginReceive => CurrentAt(q) && Pc(q).Out? && Calling(q.k, User)
    case Advance =>
      && CurrentAt(q)
      && match Pc(q)
         case Out => false
         case SendWait(_) => Enabled(q.k, Wait(EMPTY))
         case RecvWait => Enabled(q.k, Wait(FILLED))
         case SendLock(_) => Enabled(q.k, Lock(LOCK))
         case RecvLock => Enabled(q.k, Lock(LOCK))
         case SendUnlock => Enabled(q.k, Unlock(LOCK))
         case RecvUnlock(_) => Enabled(q.k, Unlock(LOCK))
         case SendPost => Enabled(q.k, Post(FILLED))
         case RecvPost(_) => Enabled(q.k, Post(EMPTY))
         case SendWrite(_) => Calling(q.k, User) && q.tail < |q.buffer|
         case SendAdvance(_) => Calling(q.k, User) && |q.buffer| > 0
         case RecvRead => Calling(q.k, User) && q.head < |q.buffer|
         case RecvAdvance(_) => Calling(q.k, User) && |q.buffer| > 0
  }

  function Goto<T>(q: QState<T>, p: Phase<T>): QState<T>
    requires CurrentAt(q)
  {
    q.(at := q.at[q.k.current := p])
  }

  /** One step of the task inside `queue_send` or `queue_receive`. */
  function AdvanceTask<T>(q: QState<T>): QState<T>
    requires QEnabled(q, Advance)
  {
    match Pc(q)
    case SendWait(x) =>
      (if q.k.sems[EMPTY].count > 0 then Goto(q, SendLock(x)) else q).(k := AfterWait(q.k, EMPTY))
    case SendLock(x) =>
      (if !q.k.mutexes[LOCK].locked then Goto(q, SendWrite(x)) else q).(k := AfterLock(q.k, LOCK))
    case SendWrite(x) => Goto(q, SendAdvance(x)).(buffer := q.buffer[q.tail := x])
    case SendAdvance(x) => Goto(q, SendUnlock).(tail := (q.tail + 1) % |q.buffer|, sent := q.sent + [x])
    case SendUnlock => Goto(q, SendPost).(k := AfterUnlock(q.k, LOCK))
    case SendPost => Goto(q, Out).(k := AfterPost(q.k, FILLED))
    case RecvWait =>
      (if q.k.sems[FILLED].count > 0 then Goto(q, RecvLock) else q).(k := AfterWait(q.k, FILLED))
    case RecvLock =>
      (if !q.k.mutexes[LOCK].locked then Goto(q, RecvRead) else q).(k := AfterLock(q.k, LOCK))
    case RecvRead => Goto(q, RecvAdvance(q.buffer[q.head]))
    case RecvAdvance(x) => Goto(q, RecvUnlock(x)).(head := (q.head + 1) % |q.buffer|, got := q.got + [x])
    case RecvUnlock(x) => Goto(q, RecvPost(x)).(k := AfterUnlock(q.k, LOCK))
    case RecvPost(x) => Goto(q, Out).(k := AfterPost(q.k, EMPTY))
  }

  function QApply<T>(q: QState<T>, step: QStep<T>): QState<T>
    requires QEnabled(q, step)
  {
    match step
    case Kern(st) =>
      var k' := Apply(q.k, st);
      q.(k := k', at := if |k'.tasks| > |q.k.tasks| then q.at + [Out] else q.at)
    case BeginSend(x) => Goto(q, SendWait(x))
    case BeginReceive => Goto(q, RecvWait)
    case Advance => AdvanceTask(q)
  }

  ghost predicate QCanRun<T>(q: QState<T>, steps: seq<QStep<T>>)
    decreases |steps|
  {
    steps == [] || (QEnabled(q, steps[0]) && QCanRun(QApply(q, steps[0]), steps[1..]))
  }

  function QRun<T>(q: QState<T>, steps: seq<QStep<T>>): QState<T>
    requires QCanRun(q, steps)
    decreases |steps|
  {
    if steps == [] then q else QRun(QApply(q, steps[0]), steps[1..])
  }

  /** After `queue_init` on a fresh kernel. */
  ghost predicate QInitial<T>(q: QState<T>) {
    && Initial(q.k) && |q.k.mutexes| > LOCK && |q.k.sems| > FILLED
    && q.k.sems[EMPTY].count == |q.buffer| && q.k.sems[FILLED].count == 0
    && q.head == 0 && q.tail == 0 && q.at == [] && q.sent == [] && q.got == []
  }

  // ------------------------------------------------------------ the invariant

  /** What a task in the queue code has taken and not yet given back: a claim on a free slot
      it has not filled, a filled slot it has not announced, and the same for receiving. */
  datatype Role = Idle | Filling | Announcing | Draining | Freeing

  function RoleOf<T>(p: Phase<T>): Role {
    if p.SendLock? || p.SendWrite? || p.SendAdvance? then Filling
    else if p.SendUnlock? || p.SendPost? then Announcing
    else if p.RecvLock? || p.RecvRead? || p.RecvAdvance? then Draining
    else if p.RecvUnlock? || p.RecvPost? then Freeing
    else Idle
  }

  function Count<T>(at: seq<Phase<T>>, r: Role): nat {
    if at == [] then 0
    else Count(at[..|at| - 1], r) + if RoleOf(at[|at| - 1]) == r then 1 else 0
  }

  /** Number of tasks past a `sem_wait` and before the matching `sem_post`. */
  function InFlight<T>(at: seq<Phase<T>>): nat {
    Count(at, Filling) + Count(at, Announcing) + Count(at, Draining) + Count(at, Freeing)
  }

  predicate HoldsLock<T>(p: Phase<T>) {
    p.SendWrite? || p.SendAdvance? || p.SendUnlock? || p.RecvRead? || p.RecvAdvance? || p.RecvUnlock?
  }

  function Slot(i: nat, cap: nat): nat {
    if cap == 0 then 0 else i % cap
  }

  /** The kernel call a task at `p` may be blocked in. */
  predicate PointFits<T>(p: Phase<T>, at: Point) {
    || at == User
    || (p.SendWait? && at == Waiting(EMPTY))
    || (p.RecvWait? && at == Waiting(FILLED))
    || ((p.SendLock? || p.RecvLock?) && at == Locking(LOCK))
  }

  ghost predicate PhaseOk<T>(q: QState<T>, i: nat)
    requires i < |q.at| && |q.at| == |q.k.tasks|
  {
    && (!q.at[i].Out? ==> q.k.tasks[i].wakeTick == 0 && PointFits(q.at[i], q.k.tasks[i].point))
    && (q.at[i].SendAdvance? ==> q.tail < |q.buffer| && q.buffer[q.tail] == q.at[i].item)
    && (q.at[i].RecvAdvance? ==> |q.got| < |q.sent| && q.at[i].got == q.sent[|q.got|])
  }

  /** The lock's owner is the one task between `mutex_lock` and `mutex_unlock`. */
  ghost predicate Exclusive<T>(q: QState<T>)
    requires |q.k.mutexes| > LOCK
  {
    var mx := q.k.mutexes[LOCK];
    && (mx.locked ==> mx.owner.Some? && mx.owner.value < |q.at|)
    && (forall i :: 0 <= i < |q.at| ==> (HoldsLock(q.at[i]) <==> mx.locked && mx.owner == Some(i)))
  }

  /** Every slot is empty, filled, or accounted for by a call in flight. */
  ghost predicate Tokens<T>(q: QState<T>)
    requires |q.k.sems| > FILLED
  {
    && q.k.sems[EMPTY].count >= 0 && q.k.sems[FILLED].count >= 0
    && |q.sent| - |q.got| == q.k.sems[FILLED].count + Count(q.at, Announcing) + Count(q.at, Draining)
    && |q.buffer| - (|q.sent| - |q.got|) == q.k.sems[EMPTY].count + Count(q.at, Filling) + Count(q.at, Freeing)
  }

  /** The ring holds the items sent and not yet received, oldest at `head`. */
  ghost predicate RingOk<T>(q: QState<T>) {
    && |q.got| <= |q.sent| && q.got == q.sent[..|q.got|]
    && |q.sent| - |q.got| <= |q.buffer|
    && q.head == Slot(|q.got|, |q.buffer|) && q.tail == Slot(|q.sent|, |q.buffer|)
    && forall i :: |q.got| <= i < |q.sent| ==>
         Slot(i, |q.buffer|) < |q.buffer| && q.buffer[Slot(i, |q.buffer|)] == q.sent[i]
  }

  ghost predicate Shape<T>(q: QState<T>) {
    |q.k.mutexes| > LOCK && |q.k.sems| > FILLED && |q.at| == |q.k.tasks|
  }

  ghost predicate PhasesOk<T>(q: QState<T>)
    requires Shape(q)
  {
    forall i :: 0 <= i < |q.at| ==> PhaseOk(q, i)
  }

  ghost predicate QInv<T>(q: QState<T>) {
    Inv(q.k) && Shape(q) && Exclusive(q) && Tokens(q) && RingOk(q) && PhasesOk(q)
  }

  // ------------------------------------------------------------ small lemmas

  lemma {:induction false} CountUpdate<T>(at: seq<Phase<T>>, t: nat, p: Phase<T>, r: Role)
    requires t < |at|
    ensures Count(at[t := p], r) + (if RoleOf(at[t]) == r then 1 else 0)
         == Count(at, r) + (if RoleOf(p) == r then 1 else 0)
  {
    var n := |at| - 1;
    if t < n {
      CountUpdate(at[..n], t, p, r);
      assert at[t := p][..n] == at[..n][t := p];
    } else {
      assert at[t := p][..n] == at[..n];
    }
  }

  lemma CountsAfterGoto<T>(at: seq<Phase<T>>, t: nat, p: Phase<T>)
    requires t < |at|
    ensures forall r :: Count(at[t := p], r) + (if RoleOf(at[t]) == r then 1 else 0)
                     == Count(at, r) + (if RoleOf(p) == r then 1 else 0)
    ensures Count(at[t := p], RoleOf(p)) >= 1 && Count(at, RoleOf(at[t])) >= 1
  {
    forall r ensures Count(at[t := p], r) + (if RoleOf(at[t]) == r then 1 else 0)
                  == Count(at, r) + (if RoleOf(p) == r then 1 else 0)
    {
      CountUpdate(at, t, p, r);
    }
    CountPositive(at, t);
    CountPositive(at[t := p], t);
  }

  lemma {:induction false} CountPositive<T>(at: seq<Phase<T>>, t: nat)
    requires t < |at|
    ensures Count(at, RoleOf(at[t])) >= 1
  {
    if t < |at| - 1 {
      CountPositive(at[..|at| - 1], t);
    }
  }

  lemma {:induction false} CountZero<T>(at: seq<Phase<T>>, r: Role)
    requires forall i :: 0 <= i < |at| ==> RoleOf(at[i]) != r
    ensures Count(at, r) == 0
  {
    if at != [] {
      CountZero(at[..|at| - 1], r);
    }
  }

  lemma CountAddOut<T>(at: seq<Phase<T>>, r: Role)
    requires r != Idle
    ensures Count(at + [Out], r) == Count(at, r)
  {
    assert (at + [Out])[..|at|] == at;
  }

  lemma SlotNext(i: nat, cap: nat)
    requires cap > 0
    ensures Slot(i + 1, cap) == (Slot(i, cap) + 1) % cap
  {
    var q, r := i / cap, i % cap;
    assert i == q * cap + r;
    if r + 1 < cap {
      ModUnique(i + 1, cap, q, r + 1);
      ModUnique(r + 1, cap, 0, r + 1);
    } else {
      assert i + 1 == (q + 1) * cap;
      ModUnique(i + 1, cap, q + 1, 0);
      ModUnique(r + 1, cap, 1, 0);
    }
  }

  lemma ModUnique(x: nat, cap: nat, q: nat, r: nat)
    requires cap > 0 && x == q * cap + r && r < cap
    ensures x % cap == r
  {
    var d := x / cap - q;
    assert x == (x / cap) * cap + x % cap;
    assert d * cap == r - x % cap;
    NoMultipleBetween(d, cap);
  }

  /** No nonzero multiple of `cap` lies strictly between `-cap` and `cap`. */
  lemma NoMultipleBetween(d: int, cap: nat)
    ensures d != 0 ==> d * cap >= cap || d * cap + cap <= 0
  {
    if d > 0 {
      assert (d - 1) * cap >= 0;
    } else if d < 0 {
      assert (-d - 1) * cap >= 0;
    }
  }

  /** Fewer than `cap` apart, different positions use different slots. */
  lemma SlotsDiffer(i: nat, j: nat, cap: nat)
    requires cap > 0 && i < j < i + cap
    ensures Slot(i, cap) != Slot(j, cap)
  {
    var d := j / cap - i / cap;
    assert i == (i / cap) * cap + i % cap && j == (j / cap) * cap + j % cap;
    assert d * cap == (j / cap) * cap - (i / cap) * cap;
    if i % cap == j % cap {
      NoMultipleBetween(d, cap);
    }
  }

  // ------------------------------------------------------------- preservation

  /** Kernel steps the queue code does not make leave its lock, its counts and every call in
      progress as they were. */
  ghost predicate KernelFrame(k: State, k': State) {
    && |k'.mutexes| == |k.mutexes| && |k'.sems| == |k.sems| && |k'.tasks| >= |k.tasks|
    && forall i :: 0 <= i < |k.tasks| && (k.tasks[i].wakeTick == 0) && i != k.current ==>
         k'.tasks[i].wakeTick == 0 && k'.tasks[i].point == k.tasks[i].point
  }

  lemma StepFrame(k: State, st: Step)
    requires Inv(k) && Enabled(k, st)
    ensures KernelFrame(k, Apply(k, st))
    ensures |Apply(k, st).tasks| <= |k.tasks| + 1
    ensures !st.AddTask? ==> |Apply(k, st).tasks| == |k.tasks|
    ensures Involuntary(st) ==> forall i :: 0 <= i < |k.tasks| && k.tasks[i].wakeTick == 0 ==>
              Apply(k, st).tasks[i].wakeTick == 0 && Apply(k, st).tasks[i].point == k.tasks[i].point
    ensures k.current >= 0 && (st.Lock? || st.Unlock? || st.Wait? || st.Post?) ==>
              Apply(k, st).tasks[k.current].wakeTick == k.tasks[k.current].wakeTick
  {
    if st.Tick? {
      TickShape(k, st.pick);
    }
  }

  lemma StepLeavesLock(k: State, st: Step)
    requires Inv(k) && Enabled(k, st) && LeavesQueueAlone(st)
    requires |k.mutexes| > LOCK && |k.sems| > FILLED
    ensures Apply(k, st).mutexes[LOCK] == k.mutexes[LOCK]
    ensures Apply(k, st).sems[EMPTY] == k.sems[EMPTY] && Apply(k, st).sems[FILLED] == k.sems[FILLED]
  {
    if st.Tick? {
      TickShape(k, st.pick);
    }
  }

  /** The queue's own state next to another kernel state, with a new task outside any call. */
  function WithKernel<T>(q: QState<T>, k': State): QState<T> {
    q.(k := k', at := if |k'.tasks| > |q.k.tasks| then q.at + [Out] else q.at)
  }

  /** Tasks inside a queue call were left alone. */
  ghost predicate CallsKept<T>(q: QState<T>, k': State)
    requires Shape(q) && |k'.tasks| >= |q.k.tasks|
  {
    forall i :: 0 <= i < |q.at| && !q.at[i].Out? ==>
      k'.tasks[i].wakeTick == q.k.tasks[i].wakeTick && k'.tasks[i].point == q.k.tasks[i].point
  }

  ghost predicate QueueObjectsKept<T>(q: QState<T>, k': State)
    requires Shape(q)
  {
    && |k'.mutexes| == |q.k.mutexes| && |k'.sems| == |q.k.sems| && k'.mutexes[LOCK] == q.k.mutexes[LOCK]
    && k'.sems[EMPTY] == q.k.sems[EMPTY] && k'.sems[FILLED] == q.k.sems[FILLED]
    && |q.k.tasks| <= |k'.tasks| <= |q.k.tasks| + 1
  }

  lemma KernelChangeKeeps<T>(q: QState<T>, k': State)
    requires QInv(q) && Inv(k') && QueueObjectsKept(q, k') && CallsKept(q, k')
    ensures QInv(WithKernel(q, k'))
  {
    var q' := WithKernel(q, k');
    forall r | r != Idle ensures Count(q'.at, r) == Count(q.at, r) {
      CountAddOut(q.at, r);
    }
    forall i | 0 <= i < |q'.at| ensures PhaseOk(q', i) {
      assert i < |q.at| ==> PhaseOk(q, i);
    }
  }

  lemma KernKeepsQInv<T>(q: QState<T>, st: Step)
    requires QInv(q) && QEnabled(q, Kern(st))
    ensures QInv(QApply(q, Kern(st)))
  {
    var k' := Apply(q.k, st);
    StepKeepsInv(q.k, st);
    StepFrame(q.k, st);
    StepLeavesLock(q.k, st);
    KernKeepsCalls(q, st);
    KernelChangeKeeps(q, k');
  }

  lemma KernKeepsCalls<T>(q: QState<T>, st: Step)
    requires QInv(q) && QEnabled(q, Kern(st)) && |Apply(q.k, st).tasks| >= |q.k.tasks|
    ensures CallsKept(q, Apply(q.k, st))
  {
    StepFrame(q.k, st);
    forall i | 0 <= i < |q.at| && !q.at[i].Out?
      ensures Apply(q.k, st).tasks[i].wakeTick == q.k.tasks[i].wakeTick &&
          Apply(q.k, st).tasks[i].point == q.k.tasks[i].point
    {
      assert PhaseOk(q, i);
    }
  }

  /** Roles that hold a token of `slots_filled`, and of `slots_empty`. */
  predicate OnFilled(r: Role) {
    r == Announcing || r == Draining
  }

  predicate OnEmpty(r: Role) {
    r == Filling || r == Freeing
  }

  /** Tokens follow the move of one task from one phase to the next. */
  lemma TokensMove<T>(q: QState<T>, q': QState<T>, t: nat)
    requires Shape(q) && Shape(q') && Tokens(q) && t < |q.at| == |q'.at| && q'.at == q.at[t := q'.at[t]]
    requires |q'.buffer| == |q.buffer| && q'.k.sems[EMPTY].count >= 0 && q'.k.sems[FILLED].count >= 0
    requires var a, b := RoleOf(q.at[t]), RoleOf(q'.at[t]);
             && (|q'.sent| - |q'.got|) - (|q.sent| - |q.got|)
                == q'.k.sems[FILLED].count - q.k.sems[FILLED].count
                   + (if OnFilled(b) then 1 else 0) - (if OnFilled(a) then 1 else 0)
             && (|q.sent| - |q.got|) - (|q'.sent| - |q'.got|)
                == q'.k.sems[EMPTY].count - q.k.sems[EMPTY].count
                   + (if OnEmpty(b) then 1 else 0) - (if OnEmpty(a) then 1 else 0)
    ensures Tokens(q')
  {
    CountsAfterGoto(q.at, t, q'.at[t]);
  }

  /** The other tasks' phases stay right when the ring they rely on is not touched. */
  lemma PhasesMove<T>(q: QState<T>, q': QState<T>)
    requires Shape(q) && Shape(q') && PhasesOk(q) && 0 <= q.k.current < |q.at| == |q'.at|
    requires q'.at == q.at[q.k.current := q'.at[q.k.current]] && KernelFrame(q.k, q'.k)
    requires q'.buffer == q.buffer && q'.tail == q.tail && q'.sent == q.sent && q'.got == q.got
    requires PhaseOk(q', q.k.current)
    ensures PhasesOk(q')
  {
    forall i | 0 <= i < |q'.at| ensures PhaseOk(q', i) {
      assert PhaseOk(q, i);
    }
  }

  lemma BeginKeepsQInv<T>(q: QState<T>, step: QStep<T>)
    requires QInv(q) && QEnabled(q, step) && (step.BeginSend? || step.BeginReceive?)
    ensures QInv(QApply(q, step))
  {
    var q' := QApply(q, step);
    TokensMove(q, q', q.k.current);
    assert TaskOk(q.k, q.k.current);
    PhasesMove(q, q');
  }

  /** The kernel call the current task makes at a semaphore or mutex phase. */
  function CallOf<T>(p: Phase<T>): Step {
    match p
    case SendWait(_) => Wait(EMPTY)
    case RecvWait => Wait(FILLED)
    case SendPost => Post(FILLED)
    case RecvPost(_) => Post(EMPTY)
    case SendLock(_) => Lock(LOCK)
    case RecvLock => Lock(LOCK)
    case _ => Unlock(LOCK)
  }

  predicate IsCall<T>(p: Phase<T>) {
    p.SendWait? || p.RecvWait? || p.SendPost? || p.RecvPost? || p.SendLock? || p.RecvLock? || p.SendUnlock? ||
        p.RecvUnlock?
  }

  lemma CallKeepsKernel<T>(q: QState<T>)
    requires Inv(q.k) && Shape(q) && QEnabled(q, Advance) && IsCall(Pc(q))
    ensures var q' := AdvanceTask(q);
            Inv(q'.k) && Shape(q') && KernelFrame(q.k, q'.k) &&
                q'.k.tasks[q.k.current].wakeTick == q.k.tasks[q.k.current].wakeTick
  {
    var st := CallOf(Pc(q));
    StepKeepsInv(q.k, st);
    StepFrame(q.k, st);
  }

  lemma CallKeepsPhases<T>(q: QState<T>)
    requires Shape(q) && PhasesOk(q) && QEnabled(q, Advance) && IsCall(Pc(q))
    requires var q' := AdvanceTask(q);
             Shape(q') && KernelFrame(q.k, q'.k) && q'.k.tasks[q.k.current].wakeTick == q.k.tasks[q.k.current].wakeTick
    ensures PhasesOk(AdvanceTask(q))
  {
    assert PhaseOk(q, q.k.current);
    PhasesMove(q, AdvanceTask(q));
  }

  lemma AdvanceShape<T>(q: QState<T>)
    requires Shape(q) && QEnabled(q, Advance)
    ensures Shape(AdvanceTask(q))
  {
  }

  /** A semaphore call moves one token between a count and the caller; a mutex call moves none. */
  lemma CallKeepsTokens<T>(q: QState<T>)
    requires Shape(q) && Tokens(q) && QEnabled(q, Advance) && IsCall(Pc(q))
    ensures Shape(AdvanceTask(q)) && Tokens(AdvanceTask(q))
  {
    if Pc(q).SendWait? || Pc(q).RecvWait? {
      WaitKeepsTokens(q);
    } else if Pc(q).SendPost? || Pc(q).RecvPost? {
      PostKeepsTokens(q);
    } else {
      LockCallKeepsTokens(q);
    }
  }

  lemma WaitKeepsTokens<T>(q: QState<T>)
    requires Shape(q) && Tokens(q) && QEnabled(q, Advance)
    requires Pc(q).SendWait? || Pc(q).RecvWait?
    ensures Shape(AdvanceTask(q)) && Tokens(AdvanceTask(q))
  {
    AdvanceShape(q);
    TokensMove(q, AdvanceTask(q), q.k.current);
  }

  lemma PostKeepsTokens<T>(q: QState<T>)
    requires Shape(q) && Tokens(q) && QEnabled(q, Advance)
    requires Pc(q).SendPost? || Pc(q).RecvPost?
    ensures Shape(AdvanceTask(q)) && Tokens(AdvanceTask(q))
  {
    AdvanceShape(q);
    TokensMove(q, AdvanceTask(q), q.k.current);
  }

  lemma LockCallKeepsTokens<T>(q: QState<T>)
    requires Shape(q) && Tokens(q) && QEnabled(q, Advance)
    requires Pc(q).SendLock? || Pc(q).RecvLock? || Pc(q).SendUnlock? || Pc(q).RecvUnlock?
    ensures Shape(AdvanceTask(q)) && Tokens(AdvanceTask(q))
  {
    if Pc(q).SendLock? || Pc(q).RecvLock? {
      LockKeepsTokens(q);
    } else {
      UnlockKeepsTokens(q);
    }
  }

  lemma LockKeepsTokens<T>(q: QState<T>)
    requires Shape(q) && Tokens(q) && QEnabled(q, Advance)
    requires Pc(q).SendLock? || Pc(q).RecvLock?
    ensures Shape(AdvanceTask(q)) && Tokens(AdvanceTask(q))
  {
    AdvanceShape(q);
    SameRoleKeepsTokens(q, AdvanceTask(q), q.k.current);
  }

  lemma UnlockKeepsTokens<T>(q: QState<T>)
    requires Shape(q) && Tokens(q) && QEnabled(q, Advance)
    requires Pc(q).SendUnlock? || Pc(q).RecvUnlock?
    ensures Shape(AdvanceTask(q)) && Tokens(AdvanceTask(q))
  {
    AdvanceShape(q);
    SameRoleKeepsTokens(q, AdvanceTask(q), q.k.current);
  }

  /** A task that stays in its role, with the counts and the ring as they were. */
  lemma SameRoleKeepsTokens<T>(q: QState<T>, q': QState<T>, t: nat)
    requires Shape(q) && Shape(q') && Tokens(q) && t < |q.at| == |q'.at| && q'.at == q.at[t := q'.at[t]]
    requires q'.buffer == q.buffer && q'.sent == q.sent && q'.got == q.got && q'.k.sems == q.k.sems
    requires RoleOf(q'.at[t]) == RoleOf(q.at[t])
    ensures Tokens(q')
  {
    CountsAfterGoto(q.at, t, q'.at[t]);
  }

  lemma CallKeepsExclusive<T>(q: QState<T>)
    requires Shape(q) && Exclusive(q) && QEnabled(q, Advance) && IsCall(Pc(q))
    ensures Shape(AdvanceTask(q)) && Exclusive(AdvanceTask(q))
  {
    AdvanceShape(q);
  }

  lemma CallKeepsQInv<T>(q: QState<T>)
    requires QInv(q) && QEnabled(q, Advance) && IsCall(Pc(q))
    ensures QInv(AdvanceTask(q))
  {
    CallKeepsKernel(q);
    CallKeepsPhases(q);
    CallKeepsTokens(q);
    CallKeepsExclusive(q);
  }

  /** The slot a sender writes holds no unread item. */
  lemma WriteTargetsFreeSlot<T>(q: QState<T>)
    requires QInv(q) && CurrentAt(q) && RoleOf(Pc(q)) == Filling
    ensures |q.sent| - |q.got| < |q.buffer| && q.tail < |q.buffer|
    ensures forall i :: |q.got| <= i < |q.sent| ==> Slot(i, |q.buffer|) != q.tail
  {
    CountPositive(q.at, q.k.current);
    forall i | |q.got| <= i < |q.sent| ensures Slot(i, |q.buffer|) != q.tail {
      SlotsDiffer(i, |q.sent|, |q.buffer|);
    }
  }

  /** The slot a receiver reads holds the oldest unread item. */
  lemma ReadTargetsOldest<T>(q: QState<T>)
    requires QInv(q) && CurrentAt(q) && RoleOf(Pc(q)) == Draining
    ensures |q.got| < |q.sent| && q.head < |q.buffer| && q.buffer[q.head] == q.sent[|q.got|]
  {
    CountPositive(q.at, q.k.current);
  }

  /** While one task holds the lock no other is inside the critical section. */
  lemma AloneInside<T>(q: QState<T>)
    requires QInv(q) && CurrentAt(q) && HoldsLock(Pc(q))
    ensures forall i :: 0 <= i < |q.at| && i != q.k.current ==> !HoldsLock(q.at[i])
  {
    assert q.k.mutexes[LOCK].owner == Some(q.k.current as nat);
  }

  lemma AccessKeepsQInv<T>(q: QState<T>)
    requires QInv(q) && QEnabled(q, Advance) && (Pc(q).SendWrite? || Pc(q).RecvRead?)
    ensures QInv(AdvanceTask(q))
  {
    var q' := AdvanceTask(q);
    AloneInside(q);
    TokensMove(q, q', q.k.current);
    assert PhaseOk(q, q.k.current);
    if Pc(q).SendWrite? {
      WriteTargetsFreeSlot(q);
    } else {
      ReadTargetsOldest(q);
    }
    InsideKeepsPhases(q, q');
  }

  lemma InsideKeepsPhases<T>(q: QState<T>, q': QState<T>)
    requires Shape(q) && Shape(q') && PhasesOk(q) && 0 <= q.k.current < |q.at| && q'.k == q.k
    requires q'.at == q.at[q.k.current := q'.at[q.k.current]]
    requires forall i :: 0 <= i < |q.at| && i != q.k.current ==> !HoldsLock(q.at[i])
    requires PhaseOk(q', q.k.current)
    ensures PhasesOk(q')
  {
    forall i | 0 <= i < |q'.at| ensures PhaseOk(q', i) {
      assert PhaseOk(q, i);
    }
  }

  lemma SentKeepsRing<T>(q: QState<T>, x: T)
    requires RingOk(q) && |q.sent| - |q.got| < |q.buffer| && q.buffer[q.tail] == x
    ensures RingOk(q.(tail := (q.tail + 1) % |q.buffer|, sent := q.sent + [x]))
  {
    SlotNext(|q.sent|, |q.buffer|);
  }

  lemma GotKeepsRing<T>(q: QState<T>, x: T)
    requires RingOk(q) && |q.got| < |q.sent| && x == q.sent[|q.got|]
    ensures |q.buffer| > 0 && RingOk(q.(head := (q.head + 1) % |q.buffer|, got := q.got + [x]))
  {
    SlotNext(|q.got|, |q.buffer|);
  }

  lemma IndexKeepsQInv<T>(q: QState<T>)
    requires QInv(q) && QEnabled(q, Advance) && (Pc(q).SendAdvance? || Pc(q).RecvAdvance?)
    ensures QInv(AdvanceTask(q))
  {
    if Pc(q).SendAdvance? {
      SendIndexKeepsQInv(q);
    } else {
      RecvIndexKeepsQInv(q);
    }
  }

  lemma SendIndexKeepsQInv<T>(q: QState<T>)
    requires QInv(q) && QEnabled(q, Advance) && Pc(q).SendAdvance?
    ensures QInv(AdvanceTask(q))
  {
    var q' := AdvanceTask(q);
    AloneInside(q);
    assert PhaseOk(q, q.k.current);
    WriteTargetsFreeSlot(q);
    SentKeepsRing(q, Pc(q).item);
    assert RingOk(q');
    TokensMove(q, q', q.k.current);
    InsideKeepsPhases(q, q');
    InsideKeepsExclusive(q, q');
  }

  lemma RecvIndexKeepsQInv<T>(q: QState<T>)
    requires QInv(q) && QEnabled(q, Advance) && Pc(q).RecvAdvance?
    ensures QInv(AdvanceTask(q))
  {
    var q' := AdvanceTask(q);
    AloneInside(q);
    assert PhaseOk(q, q.k.current);
    GotKeepsRing(q, Pc(q).got);
    assert RingOk(q');
    TokensMove(q, q', q.k.current);
    InsideKeepsPhases(q, q');
    InsideKeepsExclusive(q, q');
  }

  lemma InsideKeepsExclusive<T>(q: QState<T>, q': QState<T>)
    requires Shape(q) && Exclusive(q) && 0 <= q.k.current < |q.at| == |q'.at| && q'.k == q.k
    requires q'.at == q.at[q.k.current := q'.at[q.k.current]]
    requires HoldsLock(q'.at[q.k.current]) == HoldsLock(q.at[q.k.current])
    ensures Exclusive(q')
  {
  }

  lemma StepKeepsQInv<T>(q: QState<T>, step: QStep<T>)
    requires QInv(q) && QEnabled(q, step)
    ensures QInv(QApply(q, step))
  {
    match step
    case Kern(st) => KernKeepsQInv(q, st);
    case BeginSend(_) => BeginKeepsQInv(q, step);
    case BeginReceive => BeginKeepsQInv(q, step);
    case Advance =>
      if IsCall(Pc(q)) {
        CallKeepsQInv(q);
      } else if Pc(q).SendWrite? || Pc(q).RecvRead? {
        AccessKeepsQInv(q);
      } else {
        IndexKeepsQInv(q);
      }
  }

  lemma {:induction false} RunKeepsQInv<T>(q: QState<T>, steps: seq<QStep<T>>)
    requires QInv(q) && QCanRun(q, steps)
    ensures QInv(QRun(q, steps))
    decreases |steps|
  {
    if steps != [] {
      StepKeepsQInv(q, steps[0]);
      RunKeepsQInv(QApply(q, steps[0]), steps[1..]);
    }
  }

  // ------------------------------------------------------------- the theorems

  /** In every run of any number of senders and receivers: what came out is a prefix of what
      went in, the unread items sit in the ring in order, and slots are conserved. */
  lemma QueueIsFifo<T>(q0: QState<T>, steps: seq<QStep<T>>)
    requires QInitial(q0) && QCanRun(q0, steps)
    ensures var q := QRun(q0, steps);
            && q.got <= q.sent
            && |q.sent| - |q.got| <= |q.buffer|
            && (forall i :: |q.got| <= i < |q.sent| ==>
                  Slot(i, |q.buffer|) < |q.buffer| && q.buffer[Slot(i, |q.buffer|)] == q.sent[i])
            && |q.k.sems| > FILLED
            && q.k.sems[EMPTY].count + q.k.sems[FILLED].count + InFlight(q.at) == |q.buffer|
  {
    InitialInv(q0.k);
    RunKeepsQInv(q0, steps);
  }

  /** A task is stuck inside the queue code. */
  ghost predicate StuckAt<T>(q: QState<T>, i: nat) {
    i < |q.at| && |q.at| == |q.k.tasks| && !q.at[i].Out? && q.k.tasks[i].state == Blocked
  }

  /** If every task inside the queue code is BLOCKED then either all of them are receivers and
      the queue is empty, or all are senders and it is full: the queue itself cannot deadlock. */
  lemma StuckMeansFullOrEmpty<T>(q0: QState<T>, steps: seq<QStep<T>>, i: nat)
    requires QInitial(q0) && QCanRun(q0, steps)
    requires StuckAt(QRun(q0, steps), i)
    requires forall j :: 0 <= j < |QRun(q0, steps).at| && !QRun(q0, steps).at[j].Out? ==> StuckAt(QRun(q0, steps), j)
    ensures var q := QRun(q0, steps);
            && (q.at[i].RecvWait? || q.at[i].SendWait?)
            && (q.at[i].RecvWait? ==> q.sent == q.got)
            && (q.at[i].SendWait? ==> |q.sent| - |q.got| == |q.buffer|)
  {
    InitialInv(q0.k);
    RunKeepsQInv(q0, steps);
    StuckIsFullOrEmpty(QRun(q0, steps), i);
  }

  lemma StuckIsFullOrEmpty<T>(q: QState<T>, i: nat)
    requires QInv(q) && StuckAt(q, i)
    requires forall j :: 0 <= j < |q.at| && !q.at[j].Out? ==> StuckAt(q, j)
    ensures q.at[i].RecvWait? || q.at[i].SendWait?
    ensures q.at[i].RecvWait? ==> q.sent == q.got
    ensures q.at[i].SendWait? ==> |q.sent| - |q.got| == |q.buffer|
  {
    forall j | 0 <= j < |q.at| ensures RoleOf(q.at[j]) == Idle {
      if !q.at[j].Out? {
        StuckIsWaiting(q, j);
      }
    }
    CountZero(q.at, Filling);
    CountZero(q.at, Announcing);
    CountZero(q.at, Draining);
    CountZero(q.at, Freeing);
    StuckIsWaiting(q, i);
  }

  lemma StuckIsWaiting<T>(q: QState<T>, j: nat)
    requires QInv(q) && StuckAt(q, j)
    requires forall i :: 0 <= i < |q.at| && !q.at[i].Out? ==> StuckAt(q, i)
    ensures (q.at[j].RecvWait? && q.k.sems[FILLED].count == 0) || (q.at[j].SendWait? && q.k.sems[EMPTY].count == 0)
  {
    assert PhaseOk(q, j) && TaskOk(q.k, j);
    assert MutexOk(q.k, LOCK) && SemOk(q.k, EMPTY) && SemOk(q.k, FILLED);
    if q.k.mutexes[LOCK].locked {
      HolderNotStuck(q);
    }
  }

  /** The task inside the critical section is not BLOCKED. */
  lemma HolderNotStuck<T>(q: QState<T>)
    requires QInv(q) && q.k.mutexes[LOCK].locked
    ensures exists o: nat :: o < |q.at| && !q.at[o].Out? && !StuckAt(q, o)
  {
    var o := q.k.mutexes[LOCK].owner.value;
    assert HoldsLock(q.at[o]);
    assert PhaseOk(q, o) && TaskOk(q.k, o);
    assert !StuckAt(q, o);
  }
}
