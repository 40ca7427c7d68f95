/** A sender with the retransmit window, a receiver that reports the lowest number it misses, a
    data channel that loses, repeats and reorders, and an ACKNACK channel that loses but does not
    reorder: the setting of the send and drain loop in `host/bench_qos.c`. */
module ReliableSystem {
  import opened Options
  import opened Bytes
  import opened ReliableWindow

  datatype Packet = Packet(number: nat, msg: Message)
  datatype Acknack = Acknack(first: nat, bitmap: u16)

  /** `net` is every packet ever put on the data channel; `held` what the receiver has. */
  datatype System = System(w: Window, h: History, net: set<Packet>, held: map<nat, Message>, acks: seq<Acknack>)

  datatype Step =
    | Send(msg: Message)
    | Deliver(p: Packet)
    | Report(bitmap: u16)
    | LoseAck(i: nat)
    | TakeAck
    | Retransmit

  /** The lowest number from `n` on that is missing below `end`. */
  function LowestMissing(held: map<nat, Message>, n: nat, end: nat): (r: nat)
    requires n <= end
    ensures n <= r <= end
    ensures forall k :: n <= k < r ==> k in held
    ensures r < end ==> r !in held
    decreases end - n
  {
    if n < end && n in held then LowestMissing(held, n + 1, end) else n
  }

  /** The driver sends while at most 31 messages are then outstanding; the rest is up to the channels. */
  predicate Enabled(s: System, t: Step) {
    && Sized(s.w)
    && match t
       case Send(msg) => |msg| <= MSG_MAX && End(s.h) + 1 < s.h.acked + WINDOW
       case Deliver(p) => p in s.net
       case Report(_) => s.h.base <= End(s.h)
       case LoseAck(i) => i < |s.acks|
       case TakeAck => s.acks != []
       case Retransmit => HistoryOk(s.h)
  }

  /** The number of the message that the cursor has just reached. */
  function NumberAt(h: History, w: Window): nat
    requires HistoryOk(h)
  {
    h.acked + Dist(w.lastAck, w.cursor) - 1
  }

  function Apply(s: System, t: Step): System
    requires Enabled(s, t)
  {
    match t
    case Send(msg) =>
      s.(w := Track(s.w, Seq(End(s.h)), msg), h := Sent(s.h, msg), net := s.net + {Packet(End(s.h), msg)})
    case Deliver(p) => s.(held := s.held[p.number := p.msg])
    case Report(bitmap) => s.(acks := s.acks + [Acknack(LowestMissing(s.held, s.h.base, End(s.h)), bitmap)])
    case LoseAck(i) => s.(acks := s.acks[..i] + s.acks[i + 1..])
    case TakeAck =>
      var a := s.acks[0];
      s.(w := OnAcknack(s.w, Seq(a.first), a.bitmap), h := Acked(s.h, a.first), acks := s.acks[1..])
    case Retransmit =>
      var (w', m) := NextRetransmit(s.w);
      if m.None? then s.(w := w')
      else s.(w := w', net := s.net + {Packet(NumberAt(s.h, w'), m.value)})
  }

  function Initial(base: nat): System
    requires base >= 1
  {
    System(Empty(Seq(base - 1)), History(base, [], base), {}, map[], [])
  }

  // --------------------------------------------------------------- invariant

  /** `p` is one of the messages sent. */
  predicate Honest(h: History, n: nat, msg: Message) {
    h.base <= n < End(h) && msg == h.log[n - h.base]
  }

  ghost predicate WindowOk(s: System) {
    Agrees(s.w, s.h) && End(s.h) < s.h.acked + WINDOW
  }

  /** An armed cursor is inside the outstanding messages. */
  ghost predicate CursorOk(s: System) {
    s.w.sendLost ==> exists n :: CursorAt(s.w, s.h, n)
  }

  ghost predicate DataOk(s: System) {
    && (forall p :: p in s.net ==> Honest(s.h, p.number, p.msg))
    && (forall n :: n in s.held ==> Honest(s.h, n, s.held[n]))
  }

  /** `first` acknowledges only what the receiver holds. */
  ghost predicate TrueAck(s: System, first: nat) {
    s.h.base <= first <= End(s.h) && forall n :: s.h.base <= n < first ==> n in s.held
  }

  ghost predicate AcksOk(s: System) {
    && TrueAck(s, s.h.acked)
    && (forall i :: 0 <= i < |s.acks| ==> TrueAck(s, s.acks[i].first) && s.h.acked <= s.acks[i].first)
    && (forall i, j :: 0 <= i <= j < |s.acks| ==> s.acks[i].first <= s.acks[j].first)
  }

  ghost predicate Inv(s: System) {
    WindowOk(s) && CursorOk(s) && DataOk(s) && AcksOk(s)
  }

  lemma InitialInv(base: nat)
    requires base >= 1
    ensures Inv(Initial(base))
  {
    EmptyAgrees(base);
  }

  lemma SendKeeps(s: System, msg: Message)
    requires Inv(s) && Enabled(s, Send(msg))
    ensures Inv(Apply(s, Send(msg)))
  {
    var s' := Apply(s, Send(msg));
    TrackKeeps(s.w, s.h, msg);
    TakesIffRoom(s.w, s.h, msg);
    if s'.w.sendLost {
      var n :| CursorAt(s.w, s.h, n);
      assert CursorAt(s'.w, s'.h, n);
    }
  }

  /** Before anything was sent there is nothing to find. */
  lemma {:induction false} SeekNothing(occupied: seq<bool>, cursor: u16, last: u16)
    requires |occupied| == WINDOW && forall k :: 0 <= k < WINDOW ==> !occupied[k]
    ensures Seek(occupied, cursor, last) == (last, false)
    decreases Dist(cursor, last)
  {
    if cursor != last {
      SeekNothing(occupied, Succ(cursor), last);
    }
  }

  lemma SlotOf(q: nat, k: nat)
    requires k < WINDOW
    ensures Slot(WINDOW * q + k) == k
  {
  }

  lemma AllFree(w: Window, h: History, k: nat)
    requires Agrees(w, h) && h.log == [] && k < WINDOW
    ensures !w.occupied[k]
  {
    var q := h.acked / WINDOW;
    var n := if WINDOW * q + k >= h.acked then WINDOW * q + k else WINDOW * (q + 1) + k;
    SlotOf(q, k);
    SlotOf(q + 1, k);
    assert End(h) <= n < h.acked + WINDOW;
  }

  lemma IdleRetransmit(s: System)
    requires Inv(s) && (s.h.log == [] || !s.w.sendLost)
    ensures Apply(s, Retransmit).net == s.net && Inv(Apply(s, Retransmit))
  {
    if s.w.sendLost {
      forall k: nat | k < WINDOW
        ensures !s.w.occupied[k]
      {
        AllFree(s.w, s.h, k);
      }
      SeekNothing(s.w.occupied, s.w.cursor, s.w.lastSent);
    }
  }

  /** A retransmission puts a message on the data channel under its own number. */
  lemma RetransmitIs(s: System) returns (n: nat)
    requires Inv(s) && s.h.log != [] && s.w.sendLost
    ensures CursorAt(s.w, s.h, n)
    ensures var s' := Apply(s, Retransmit);
            && s'.h == s.h && s'.held == s.held && s'.acks == s.acks && Agrees(s'.w, s.h)
            && (n < End(s.h) ==>
                  && s'.net == s.net + {Packet(n, s.h.log[n - s.h.base])}
                  && CursorAt(s'.w, s.h, n + 1) && s'.w.sendLost)
            && (n == End(s.h) ==> s'.net == s.net && !s'.w.sendLost)
  {
    n :| CursorAt(s.w, s.h, n);
    RetransmitStep(s.w, s.h, n);
    if n < End(s.h) {
      SeqDist(s.h.acked - 1, n);
    }
  }

  lemma RetransmitKeeps(s: System)
    requires Inv(s)
    ensures Inv(Apply(s, Retransmit))
  {
    if s.h.log == [] || !s.w.sendLost {
      IdleRetransmit(s);
    } else {
      var n := RetransmitIs(s);
    }
  }

  lemma TakeAckKeeps(s: System)
    requires Inv(s) && Enabled(s, TakeAck)
    ensures Inv(Apply(s, TakeAck))
  {
    var a, s' := s.acks[0], Apply(s, TakeAck);
    AckKeeps(s.w, s.h, a.first, a.bitmap);
    assert CursorAt(s'.w, s'.h, a.first);
  }

  lemma ReportKeeps(s: System, bitmap: u16)
    requires Inv(s)
    ensures Inv(Apply(s, Report(bitmap)))
  {
    var first := LowestMissing(s.held, s.h.base, End(s.h));
    assert TrueAck(s, first);
    assert forall i :: 0 <= i < |s.acks| ==> s.acks[i].first <= first by {
      forall i | 0 <= i < |s.acks|
        ensures s.acks[i].first <= first
      {
        assert TrueAck(s, s.acks[i].first);
      }
    }
    assert s.h.acked <= first;
    SameSender(s, Apply(s, Report(bitmap)));
  }

  lemma DeliverKeeps(s: System, p: Packet)
    requires Inv(s) && Enabled(s, Deliver(p))
    ensures Inv(Apply(s, Deliver(p)))
  {
    SameSender(s, Apply(s, Deliver(p)));
  }

  lemma LoseAckKeeps(s: System, i: nat)
    requires Inv(s) && Enabled(s, LoseAck(i))
    ensures Inv(Apply(s, LoseAck(i)))
  {
    SameSender(s, Apply(s, LoseAck(i)));
  }

  lemma SameSender(s: System, s': System)
    requires Inv(s) && s'.w == s.w && s'.h == s.h
    ensures WindowOk(s') && CursorOk(s')
  {
    if s.w.sendLost {
      var n :| CursorAt(s.w, s.h, n);
      assert CursorAt(s'.w, s'.h, n);
    }
  }

  lemma StepKeepsInv(s: System, t: Step)
    requires Inv(s) && Enabled(s, t)
    ensures Inv(Apply(s, t))
  {
    match t
    case Send(msg) => SendKeeps(s, msg);
    case Deliver(p) => DeliverKeeps(s, p);
    case Report(bitmap) => ReportKeeps(s, bitmap);
    case LoseAck(i) => LoseAckKeeps(s, i);
    case TakeAck => TakeAckKeeps(s);
    case Retransmit => RetransmitKeeps(s);
  }

  // -------------------------------------------------------------------- runs

  predicate CanRun(s: System, steps: seq<Step>)
    decreases |steps|
  {
    steps == [] || (Enabled(s, steps[0]) && CanRun(Apply(s, steps[0]), steps[1..]))
  }

  function Run(s: System, steps: seq<Step>): System
    requires CanRun(s, steps)
    decreases |steps|
  {
    if steps == [] then s else Run(Apply(s, steps[0]), steps[1..])
  }

  lemma {:induction false} RunKeepsInv(s: System, steps: seq<Step>)
    requires Inv(s) && CanRun(s, steps)
    ensures Inv(Run(s, steps)) && Run(s, steps).h.base == s.h.base
    decreases |steps|
  {
    if steps != [] {
      StepKeepsInv(s, steps[0]);
      RunKeepsInv(Apply(s, steps[0]), steps[1..]);
    }
  }

  /** In every run, whatever is lost, repeated or delayed: every message not yet known to have
      arrived is in slot `number mod 32` byte for byte, and every ACKNACK in flight is in window. */
  lemma UnackedAlwaysStored(base: nat, steps: seq<Step>, n: nat)
    requires base >= 1 && CanRun(Initial(base), steps)
    ensures var s := Run(Initial(base), steps);
            && Sized(s.w) && s.h.base == base
            && (s.h.acked <= n < End(s.h) ==> base <= n && StoredAt(s.w, s.h, n))
            && (forall i :: 0 <= i < |s.acks| ==> s.h.acked <= s.acks[i].first <= End(s.h))
  {
    InitialInv(base);
    RunKeepsInv(Initial(base), steps);
  }

  /** The drain loop's exit test, `last_acknown == start + count - 1` in 16 bits. */
  predicate Drained(s: System) {
    s.w.lastAck == Seq(s.h.base + |s.h.log| + M - 1)
  }

  /** In every run the exit test passes exactly when everything is acknowledged, and then the
      receiver holds every message byte for byte. */
  lemma DrainedMeansDelivered(base: nat, steps: seq<Step>)
    requires base >= 1 && CanRun(Initial(base), steps)
    ensures var s := Run(Initial(base), steps);
            && s.h.base == base && (Drained(s) <==> s.h.acked == End(s.h))
            && (Drained(s) ==> forall n :: s.h.base <= n < End(s.h) ==>
                n in s.held && s.held[n] == s.h.log[n - s.h.base])
  {
    InitialInv(base);
    RunKeepsInv(Initial(base), steps);
    AckedAllDelivered(Run(Initial(base), steps));
  }

  lemma AckedAllDelivered(s: System)
    requires Inv(s)
    ensures Drained(s) <==> s.h.acked == End(s.h)
    ensures s.h.acked == End(s.h) ==> forall n :: s.h.base <= n < End(s.h) ==>
        n in s.held && s.held[n] == s.h.log[n - s.h.base]
  {
    SeqDist(s.h.acked - 1, End(s.h) - 1);
    SeqPeriod(End(s.h) - 1);
    if s.h.acked == End(s.h) {
      forall n | s.h.base <= n < End(s.h)
        ensures n in s.held && s.held[n] == s.h.log[n - s.h.base]
      {
        assert TrueAck(s, s.h.acked);
        assert Honest(s.h, n, s.held[n]);
      }
    }
  }

  lemma SeqPeriod(n: nat)
    ensures Seq(n + M) == Seq(n)
  {
  }

  /** The test for `count` messages, whatever window: after an ACKNACK for a number in range it
      passes exactly when that number is the one after the last, for counts below 65536. */
  lemma ExitTestExact(w: Window, base: nat, count: nat, first: nat, bitmap: u16)
    requires Sized(w) && w.anySent && 1 <= base <= first <= base + count && count < M
    ensures OnAcknack(w, Seq(first), bitmap).lastAck == Seq(base + count + M - 1) <==> first == base + count
  {
    SeqSucc(first - 1);
    SeqPeriod(base + count - 1);
    SeqDist(first - 1, base + count - 1);
  }

  /** From 65536 messages on it also passes with 65536 of them not acknowledged. */
  lemma ExitTestAmbiguous(w: Window, base: nat, count: nat, bitmap: u16)
    requires Sized(w) && w.anySent && base >= 1 && count >= M
    ensures OnAcknack(w, Seq(base + count - M), bitmap).lastAck == Seq(base + count + M - 1)
  {
    SeqSucc(base + count - M - 1);
    SeqPeriod(base + count - M - 1);
    SeqPeriod(base + count - 1);
  }

  ghost predicate ExitTestIsExact(w: Window, base: nat, count: nat, bitmap: u16)
    requires Sized(w)
  {
    forall first: nat :: base <= first <= base + count ==>
      (OnAcknack(w, Seq(first), bitmap).lastAck == Seq(base + count + M - 1) <==> first == base + count)
  }

  /** The exit test identifies the final ACKNACK exactly for fewer than 65536 messages. */
  lemma ExitTestExactIff(w: Window, base: nat, count: nat, bitmap: u16)
    requires Sized(w) && w.anySent && base >= 1
    ensures ExitTestIsExact(w, base, count, bitmap) <==> count < M
  {
    if count < M {
      forall first: nat | base <= first <= base + count
        ensures OnAcknack(w, Seq(first), bitmap).lastAck == Seq(base + count + M - 1) <==> first == base + count
      {
        ExitTestExact(w, base, count, first, bitmap);
      }
    } else {
      ExitTestAmbiguous(w, base, count, bitmap);
      var first := base + count - M;
      assert base <= first <= base + count;
    }
  }

  // ---------------------------------------------------------------- progress

  /** Every message from number `n` on is retransmitted and delivered, then reported. */
  function Resend(h: History, n: nat): seq<Step>
    requires h.base <= n
    decreases End(h) - n
  {
    if n >= End(h) then [Report(0), TakeAck]
    else [Retransmit, Deliver(Packet(n, h.log[n - h.base]))] + Resend(h, n + 1)
  }

  /** A round of the drain loop in which nothing is lost: a report that asks for retransmission, the
      sweep it arms, and the report of what arrived. */
  function LosslessRound(s: System, bitmap: u16): seq<Step>
    requires s.h.base <= End(s.h)
  {
    [Report(bitmap), TakeAck] + Resend(s.h, LowestMissing(s.held, s.h.base, End(s.h)))
  }

  /** A report that gets through leaves a sweep armed over everything the receiver may miss. */
  lemma ReportArms(s: System, bitmap: u16)
    requires Inv(s) && s.acks == [] && bitmap != 0
    ensures var s1 := Apply(Apply(s, Report(bitmap)), TakeAck);
            && Inv(s1) && s1.h.log == s.h.log && s1.h.base == s.h.base && s1.held == s.held && s1.acks == []
            && s1.w.sendLost && s1.h.acked == LowestMissing(s.held, s.h.base, End(s.h))
            && CursorAt(s1.w, s1.h, s1.h.acked)
  {
    var s0 := Apply(s, Report(bitmap));
    ReportKeeps(s, bitmap);
    TakeAckKeeps(s0);
    AckKeeps(s0.w, s0.h, s0.acks[0].first, s0.acks[0].bitmap);
  }

  lemma TwoSteps(s: System, t: Step, u: Step, rest: seq<Step>)
    requires Enabled(s, t) && Enabled(Apply(s, t), u) && CanRun(Apply(Apply(s, t), u), rest)
    ensures CanRun(s, [t, u] + rest) && Run(s, [t, u] + rest) == Run(Apply(Apply(s, t), u), rest)
  {
    assert ([t, u] + rest)[1..] == [u] + rest && ([u] + rest)[1..] == rest;
    assert CanRun(Apply(s, t), [u] + rest);
  }

  /** The sweep from number `n` on, with everything below `n` at the receiver, ends drained. */
  lemma {:induction false} ResendDrains(s: System, n: nat)
    requires Inv(s) && s.h.log != [] && s.acks == [] && s.w.sendLost && CursorAt(s.w, s.h, n)
    requires forall k :: s.h.base <= k < n ==> k in s.held
    ensures CanRun(s, Resend(s.h, n)) && Drained(Run(s, Resend(s.h, n)))
    decreases End(s.h) - n
  {
    if n < End(s.h) {
      var p := Packet(n, s.h.log[n - s.h.base]);
      ResendOne(s, n, p);
      ResendDrains(Apply(Apply(s, Retransmit), Deliver(p)), n + 1);
      TwoSteps(s, Retransmit, Deliver(p), Resend(s.h, n + 1));
    } else {
      FinalReport(s);
    }
  }

  lemma ResendOne(s: System, n: nat, p: Packet)
    requires Inv(s) && s.h.log != [] && s.w.sendLost && CursorAt(s.w, s.h, n) && n < End(s.h)
    requires p == Packet(n, s.h.log[n - s.h.base])
    ensures var s1 := Apply(s, Retransmit);
            && Enabled(s1, Deliver(p))
            && var s2 := Apply(s1, Deliver(p));
               && Inv(s2) && s2.h == s.h && s2.acks == s.acks && s2.held == s.held[n := p.msg]
               && CursorAt(s2.w, s2.h, n + 1) && s2.w.sendLost
  {
    RetransmitAt(s, n);
    DeliverKeeps(Apply(s, Retransmit), p);
  }

  lemma RetransmitAt(s: System, n: nat)
    requires Inv(s) && s.h.log != [] && s.w.sendLost && CursorAt(s.w, s.h, n) && n < End(s.h)
    ensures var s' := Apply(s, Retransmit);
            && Inv(s') && s'.h == s.h && s'.held == s.held && s'.acks == s.acks
            && Packet(n, s.h.log[n - s.h.base]) in s'.net && CursorAt(s'.w, s.h, n + 1) && s'.w.sendLost
  {
    RetransmitKeeps(s);
    var k := RetransmitIs(s);
    SeqDist(if k < n then k - 1 else n - 1, if k < n then n - 1 else k - 1);
    assert k == n;
  }

  /** When the receiver has everything, its report satisfies the exit test. */
  lemma FinalReport(s: System)
    requires Inv(s) && s.acks == [] && forall k :: s.h.base <= k < End(s.h) ==> k in s.held
    ensures CanRun(s, [Report(0), TakeAck]) && Drained(Run(s, [Report(0), TakeAck]))
  {
    var s1 := Apply(s, Report(0));
    ReportKeeps(s, 0);
    var s2 := Apply(s1, TakeAck);
    TakeAckKeeps(s1);
    assert s2.h.acked == End(s2.h);
    AckedAllDelivered(s2);
    TwoSteps(s, Report(0), TakeAck, []);
    assert [Report(0), TakeAck] + [] == [Report(0), TakeAck];
  }

  /** One round without loss is enough: from every state a run can reach with messages sent and no
      ACKNACK in flight, it ends with the exit test satisfied. */
  lemma LosslessRoundDrains(s: System, bitmap: u16)
    requires Inv(s) && s.h.log != [] && s.acks == [] && bitmap != 0
    ensures CanRun(s, LosslessRound(s, bitmap)) && Drained(Run(s, LosslessRound(s, bitmap)))
  {
    ReportArms(s, bitmap);
    var s1 := Apply(Apply(s, Report(bitmap)), TakeAck);
    assert TrueAck(s1, s1.h.acked);
    ResendDrains(s1, s1.h.acked);
    SameResend(s1.h, s.h, s1.h.acked);
    TwoSteps(s, Report(bitmap), TakeAck, Resend(s.h, s1.h.acked));
  }

  lemma {:induction false} SameResend(h: History, h': History, n: nat)
    requires h.base == h'.base <= n && h.log == h'.log
    ensures Resend(h, n) == Resend(h', n)
    decreases End(h) - n
  {
    if n < End(h) {
      SameResend(h, h', n + 1);
    }
  }

  // ------------------------------------------------------- 16-bit numbers on the wire

  /** What a receiver whose lowest missing number is `low` takes a 16-bit number for: the nearest one. */
  function Resolved(low: nat, s: u16): int {
    if Dist(Seq(low), s) < M / 2 then low + Dist(Seq(low), s) else low - Dist(s, Seq(low))
  }

  lemma ResolvesNear(low: nat, n: nat)
    requires low <= n < low + M / 2 || n <= low <= n + M / 2
    ensures Resolved(low, Seq(n)) == n
  {
    if low <= n {
      SeqDist(low, n);
    } else {
      SeqDist(n, low);
      SeqDist(low, n + M);
      SeqPeriod(n);
    }
  }

  /** Every message that is outstanding when it arrives is told apart by its 16-bit number. */
  lemma OutstandingResolves(s: System, n: nat)
    requires Inv(s) && s.h.acked <= n < End(s.h)
    ensures Resolved(LowestMissing(s.held, s.h.base, End(s.h)), Seq(n)) == n
  {
    var low := LowestMissing(s.held, s.h.base, End(s.h));
    assert TrueAck(s, s.h.acked);
    assert s.h.acked <= low;
    ResolvesNear(low, n);
  }
}
