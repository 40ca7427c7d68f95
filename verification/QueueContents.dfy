/** What callers of `queue_send` and `queue_receive` give and get: over every run the items offered
    are the items sent and those still with a sender, the items taken out of the ring are the items
    returned and those still with a receiver, and each call hands over its own item. */
module QueueContents {
  import opened Options
  import opened Kernel
  import opened KernelInvariants
  import opened BoundedQueue

  // ------------------------------------------------------------- what callers see

  /** The items passed to `queue_send`, in the order of the calls. */
  function Offered<T>(steps: seq<QStep<T>>): seq<T> {
    if steps == [] then [] else OfferedBy(steps[0]) + Offered(steps[1..])
  }

  function OfferedBy<T>(step: QStep<T>): seq<T> {
    match step
    case BeginSend(x) => [x]
    case _ => []
  }

  /** The items `queue_receive` has returned, in the order of the returns. */
  ghost function Returned<T>(q: QState<T>, steps: seq<QStep<T>>): seq<T>
    requires QCanRun(q, steps)
    decreases |steps|
  {
    if steps == [] then [] else ReturnedBy(q, steps[0]) + Returned(QApply(q, steps[0]), steps[1..])
  }

  ghost function ReturnedBy<T>(q: QState<T>, step: QStep<T>): seq<T>
    requires QEnabled(q, step)
  {
    if step.Advance? && Pc(q).RecvPost? then [Pc(q).got] else []
  }

  // ------------------------------------------------------- items held by calls

  /** How often `v` occurs. */
  function Occurs<T(==)>(s: seq<T>, v: T): nat {
    if s == [] then 0 else (if s[0] == v then 1 else 0) + Occurs(s[1..], v)
  }

  lemma {:induction false} OccursConcat<T>(a: seq<T>, b: seq<T>, v: T)
    ensures Occurs(a + b, v) == Occurs(a, v) + Occurs(b, v)
    decreases |a|
  {
    if a == [] {
      assert a + b == b;
    } else {
      OccursConcat(a[1..], b, v);
      assert (a + b)[1..] == a[1..] + b;
    }
  }

  lemma OccursOne<T>(x: T, v: T)
    ensures Occurs([x], v) == if x == v then 1 else 0
  {
    assert [x][1..] == [];
  }

  /** A sender carries `v` and has not yet put it behind `tail`. */
  predicate Carries<T(==)>(p: Phase<T>, v: T) {
    (p.SendWait? || p.SendLock? || p.SendWrite? || p.SendAdvance?) && p.item == v
  }

  /** A receiver has taken `v` and not yet returned it. */
  predicate Leaves<T(==)>(p: Phase<T>, v: T) {
    (p.RecvUnlock? || p.RecvPost?) && p.got == v
  }

  /** How many tasks are in a phase of the kind `f`. */
  function Tally<T>(f: Phase<T> -> bool, at: seq<Phase<T>>): nat {
    if at == [] then 0 else Tally(f, at[..|at| - 1]) + One(f(at[|at| - 1]))
  }

  function One(b: bool): nat {
    if b then 1 else 0
  }

  lemma {:induction false} TallyUpdate<T>(f: Phase<T> -> bool, at: seq<Phase<T>>, i: nat, p: Phase<T>)
    requires i < |at|
    ensures Tally(f, at[i := p]) + One(f(at[i])) == Tally(f, at) + One(f(p))
  {
    var n := |at| - 1;
    if i < n {
      TallyUpdate(f, at[..n], i, p);
      assert at[i := p][..n] == at[..n][i := p];
    } else {
      assert at[i := p][..n] == at[..n];
    }
  }

  lemma TallySnoc<T>(f: Phase<T> -> bool, at: seq<Phase<T>>, p: Phase<T>)
    ensures Tally(f, at + [p]) == Tally(f, at) + One(f(p))
  {
    assert (at + [p])[..|at|] == at;
  }

  /** The tasks that carry `v` towards the ring, and those that carry it away. */
  function Carrying<T(==)>(at: seq<Phase<T>>, v: T): nat {
    Tally((p: Phase<T>) => Carries(p, v), at)
  }

  function Holding<T(==)>(at: seq<Phase<T>>, v: T): nat {
    Tally((p: Phase<T>) => Leaves(p, v), at)
  }

  lemma MovePhase<T>(at: seq<Phase<T>>, i: nat, p: Phase<T>, v: T)
    requires i < |at|
    ensures Carrying(at[i := p], v) + One(Carries(at[i], v)) == Carrying(at, v) + One(Carries(p, v))
    ensures Holding(at[i := p], v) + One(Leaves(at[i], v)) == Holding(at, v) + One(Leaves(p, v))
  {
    TallyUpdate((p: Phase<T>) => Carries(p, v), at, i, p);
    TallyUpdate((p: Phase<T>) => Leaves(p, v), at, i, p);
  }

  lemma AddPhase<T>(at: seq<Phase<T>>, v: T)
    ensures Carrying(at + [Out], v) == Carrying(at, v) && Holding(at + [Out], v) == Holding(at, v)
  {
    TallySnoc((p: Phase<T>) => Carries(p, v), at, Out);
    TallySnoc((p: Phase<T>) => Leaves(p, v), at, Out);
  }

  // -------------------------------------------------------------- conservation

  /** What is offered goes to `sent` or stays with a sender; what goes to `got` is returned or stays
      with a receiver. */
  ghost predicate Conserved<T>(q: QState<T>, q': QState<T>, offered: nat, returned: nat, v: T) {
    && Occurs(q'.sent, v) + Carrying(q'.at, v) == Occurs(q.sent, v) + Carrying(q.at, v) + offered
    && Occurs(q'.got, v) + Holding(q.at, v) == Occurs(q.got, v) + Holding(q'.at, v) + returned
  }

  /** The running task goes to phase `p`, with `s` put behind `tail` and `g` taken before `head`. */
  lemma MoveConserves<T>(q: QState<T>, q': QState<T>, p: Phase<T>, s: seq<T>, g: seq<T>, o: nat, r: nat, v: T)
    requires CurrentAt(q) && q'.at == q.at[q.k.current := p] && q'.sent == q.sent + s && q'.got == q.got + g
    requires Occurs(s, v) + One(Carries(p, v)) == One(Carries(Pc(q), v)) + o
    requires Occurs(g, v) + One(Leaves(Pc(q), v)) == One(Leaves(p, v)) + r
    ensures Conserved(q, q', o, r, v)
  {
    MovePhase(q.at, q.k.current, p, v);
    OccursConcat(q.sent, s, v);
    OccursConcat(q.got, g, v);
  }

  lemma KernConserves<T>(q: QState<T>, st: Step, v: T)
    requires QEnabled(q, Kern(st))
    ensures Conserved(q, QApply(q, Kern(st)), 0, 0, v)
  {
    AddPhase(q.at, v);
  }

  lemma BeginConserves<T>(q: QState<T>, step: QStep<T>, v: T)
    requires QEnabled(q, step) && (step.BeginSend? || step.BeginReceive?)
    ensures Conserved(q, QApply(q, step), Occurs(OfferedBy(step), v), 0, v)
  {
    var q' := QApply(q, step);
    var p := q'.at[q.k.current];
    if step.BeginSend? {
      OccursOne(step.item, v);
    }
    assert q.sent + [] == q.sent && q.got + [] == q.got;
    MoveConserves(q, q', p, [], [], Occurs(OfferedBy(step), v), 0, v);
  }

  /** Steps of a call other than those that move `tail` or `head`. */
  lemma PlainAdvanceConserves<T>(q: QState<T>, v: T)
    requires QEnabled(q, Advance) && !Pc(q).SendAdvance? && !Pc(q).RecvAdvance?
    ensures Conserved(q, QApply(q, Advance), 0, Occurs(ReturnedBy(q, Advance), v), v)
  {
    var q' := QApply(q, Advance);
    var p := q'.at[q.k.current];
    if Pc(q).RecvPost? {
      OccursOne(Pc(q).got, v);
    }
    assert q'.at == q.at[q.k.current := p];
    assert q.sent + [] == q.sent && q.got + [] == q.got;
    MoveConserves(q, q', p, [], [], 0, Occurs(ReturnedBy(q, Advance), v), v);
  }

  lemma IndexConserves<T>(q: QState<T>, v: T)
    requires QEnabled(q, Advance) && (Pc(q).SendAdvance? || Pc(q).RecvAdvance?)
    ensures Conserved(q, QApply(q, Advance), 0, 0, v)
  {
    var q' := QApply(q, Advance);
    var p := q'.at[q.k.current];
    assert q.sent + [] == q.sent && q.got + [] == q.got;
    if Pc(q).SendAdvance? {
      OccursOne(Pc(q).item, v);
      MoveConserves(q, q', p, [Pc(q).item], [], 0, 0, v);
    } else {
      OccursOne(Pc(q).got, v);
      MoveConserves(q, q', p, [], [Pc(q).got], 0, 0, v);
    }
  }

  lemma StepConserves<T>(q: QState<T>, step: QStep<T>, v: T)
    requires QEnabled(q, step)
    ensures Conserved(q, QApply(q, step), Occurs(OfferedBy(step), v), Occurs(ReturnedBy(q, step), v), v)
  {
    match step
    case Kern(st) => KernConserves(q, st, v);
    case Advance =>
      if Pc(q).SendAdvance? || Pc(q).RecvAdvance? {
        IndexConserves(q, v);
      } else {
        PlainAdvanceConserves(q, v);
      }
    case _ => BeginConserves(q, step, v);
  }

  lemma {:induction false} RunConserves<T>(q: QState<T>, steps: seq<QStep<T>>, v: T)
    requires QCanRun(q, steps)
    ensures Conserved(q, QRun(q, steps), Occurs(Offered(steps), v), Occurs(Returned(q, steps), v), v)
    decreases |steps|
  {
    if steps != [] {
      var q1 := QApply(q, steps[0]);
      StepConserves(q, steps[0], v);
      RunConserves(q1, steps[1..], v);
      OccursConcat(OfferedBy(steps[0]), Offered(steps[1..]), v);
      OccursConcat(ReturnedBy(q, steps[0]), Returned(q1, steps[1..]), v);
    }
  }

  /** Over every run of any number of senders and receivers, no item is lost, made up or handed out
      twice: what was passed to `queue_send` is what moved `tail` and what senders still carry, and
      what moved `head` is what `queue_receive` returned and what receivers still carry. */
  lemma NothingLostOrMadeUp<T>(q0: QState<T>, steps: seq<QStep<T>>, v: T)
    requires QInitial(q0) && QCanRun(q0, steps)
    ensures var q := QRun(q0, steps);
            && Occurs(Offered(steps), v) == Occurs(q.sent, v) + Carrying(q.at, v)
            && Occurs(q.got, v) == Occurs(Returned(q0, steps), v) + Holding(q.at, v)
  {
    RunConserves(q0, steps, v);
  }

  // ------------------------------------------------------------- call by call

  /** Task `t` stays inside the queue code throughout the run. */
  ghost predicate StaysInside<T>(q: QState<T>, steps: seq<QStep<T>>, t: nat)
    requires QCanRun(q, steps)
    decreases |steps|
  {
    && t < |q.at| && !q.at[t].Out?
    && (steps == [] || StaysInside(QApply(q, steps[0]), steps[1..], t))
  }

  /** A task on its way out of `queue_receive` with `x`. */
  predicate OnItsWayOut<T(==)>(p: Phase<T>, x: T) {
    p == RecvUnlock(x) || p == RecvPost(x)
  }

  lemma {:induction false} KeepsItsItem<T>(q: QState<T>, steps: seq<QStep<T>>, t: nat, x: T)
    requires QCanRun(q, steps) && StaysInside(q, steps, t) && OnItsWayOut(q.at[t], x)
    ensures t < |QRun(q, steps).at| && OnItsWayOut(QRun(q, steps).at[t], x)
    decreases |steps|
  {
    if steps != [] {
      KeepsItsItem(QApply(q, steps[0]), steps[1..], t, x);
    }
  }

  /** Every `queue_receive` returns the item it read: the oldest unread one at the moment it moved
      `head`, whatever other tasks do until it returns. */
  lemma ReceiveReturnsOldest<T>(q0: QState<T>, before: seq<QStep<T>>, t: nat, inside: seq<QStep<T>>)
    requires QInitial(q0) && QCanRun(q0, before)
    requires var q := QRun(q0, before); QEnabled(q, Advance) && q.k.current == t && Pc(q).RecvAdvance?
    requires var q1 := QApply(QRun(q0, before), Advance); QCanRun(q1, inside) && StaysInside(q1, inside, t)
    requires var q2 := QRun(QApply(QRun(q0, before), Advance), inside); QEnabled(q2, Advance) && q2.k.current == t
    ensures var q := QRun(q0, before); var q2 := QRun(QApply(q, Advance), inside);
            && |q.got| < |q.sent| && QApply(q, Advance).got == q.got + [q.sent[|q.got|]]
            && ReturnedBy(q2, Advance) == if q2.at[t].RecvPost? then [q.sent[|q.got|]] else []
  {
    var q := QRun(q0, before);
    InitialInv(q0.k);
    RunKeepsQInv(q0, before);
    assert PhaseOk(q, t);
    KeepsItsItem(QApply(q, Advance), inside, t, q.sent[|q.got|]);
  }

  /** A task inside `queue_send(x)` before it moved `tail`. */
  predicate OnItsWayIn<T(==)>(p: Phase<T>, x: T) {
    p == SendWait(x) || p == SendLock(x) || p == SendWrite(x) || p == SendAdvance(x)
  }

  /** A task inside `queue_send` behind `tail`. */
  predicate HasSent<T>(p: Phase<T>) {
    p.SendUnlock? || p.SendPost?
  }

  lemma {:induction false} BringsItsItem<T>(q: QState<T>, steps: seq<QStep<T>>, t: nat, x: T)
    requires QCanRun(q, steps) && StaysInside(q, steps, t) && (OnItsWayIn(q.at[t], x) || HasSent(q.at[t]))
    ensures t < |QRun(q, steps).at| && (OnItsWayIn(QRun(q, steps).at[t], x) || HasSent(QRun(q, steps).at[t]))
    decreases |steps|
  {
    if steps != [] {
      BringsItsItem(QApply(q, steps[0]), steps[1..], t, x);
    }
  }

  /** Every `queue_send(x)` puts `x` itself behind the items sent before it moved `tail`. */
  lemma SendAppendsItsItem<T>(q: QState<T>, x: T, inside: seq<QStep<T>>, t: nat)
    requires QEnabled(q, BeginSend(x)) && q.k.current == t
    requires var q1 := QApply(q, BeginSend(x)); QCanRun(q1, inside) && StaysInside(q1, inside, t)
    requires var q2 := QRun(QApply(q, BeginSend(x)), inside);
             QEnabled(q2, Advance) && q2.k.current == t && q2.at[t].SendAdvance?
    ensures var q2 := QRun(QApply(q, BeginSend(x)), inside);
            QApply(q2, Advance).sent == q2.sent + [x]
  {
    BringsItsItem(QApply(q, BeginSend(x)), inside, t, x);
  }
}
