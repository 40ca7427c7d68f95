/** The 32-slot retransmit window of `xrce/src/reliable_stream.c` over 16-bit sequence numbers, and
    what it keeps when messages are given unbounded numbers. */
module ReliableWindow {
  import opened Options
  import opened Bytes

  const WINDOW: nat := 32
  const MSG_MAX: nat := 256
  const M: nat := 0x1_0000

  type Message = seq<byte>

  // ------------------------------------------------------- sequence numbers

  function Succ(s: u16): u16 {
    if s == M - 1 then 0 else s + 1
  }

  function Pred(s: u16): u16 {
    if s == 0 then M - 1 else s - 1
  }

  /** `(uint16_t)(to - from)` */
  function Dist(from: u16, to: u16): u16 {
    if to >= from then to - from else to + M - from
  }

  function Slot(n: nat): (k: nat)
    ensures k < WINDOW
  {
    n % WINDOW
  }

  /** The sequence number of message number `n`. */
  function Seq(n: nat): u16 {
    n % M
  }

  lemma SeqSucc(n: nat)
    ensures Succ(Seq(n)) == Seq(n + 1) && Pred(Seq(n + 1)) == Seq(n)
  {
  }

  lemma SeqSlot(n: nat)
    ensures Slot(Seq(n)) == Slot(n)
  {
    assert M == WINDOW * 2048;
    assert n == WINDOW * (2048 * (n / M)) + Seq(n);
  }

  lemma SeqDist(x: nat, y: nat)
    requires x <= y < x + M
    ensures Dist(Seq(x), Seq(y)) == y - x
  {
    assert x == M * (x / M) + Seq(x) && y == M * (y / M) + Seq(y);
  }

  lemma SlotsDiffer(x: nat, y: nat)
    requires x < y < x + WINDOW
    ensures Slot(x) != Slot(y)
  {
  }

  lemma SlotsRepeat(x: nat)
    ensures Slot(x) == Slot(x + WINDOW)
  {
  }

  // ------------------------------------------------------------- the window

  /** `xrce_reliable_out_t`; `msgs[k]` is the first `len[k]` bytes of `buf[k]`. */
  datatype Window = Window(
    msgs: seq<Message>, occupied: seq<bool>, lastAck: u16, lastSent: u16, anySent: bool,
    sendLost: bool, cursor: u16, count: u32)

  predicate Sized(w: Window) {
    |w.msgs| == WINDOW && |w.occupied| == WINDOW
  }

  /** `xrce_reliable_out_init`, and `last_acknown` as a caller sets it. */
  function Empty(lastAck: u16): Window {
    Window(seq(WINDOW, i => []), seq(WINDOW, i => false), lastAck, 0, false, false, 0, 0)
  }

  predicate Takes(w: Window, s: u16, msg: Message) {
    |msg| <= MSG_MAX && (w.anySent ==> Dist(w.lastAck, s) <= WINDOW)
  }

  /** `xrce_reliable_out_track`. */
  function Track(w: Window, s: u16, msg: Message): Window
    requires Sized(w)
  {
    if !Takes(w, s, msg) then w
    else w.(msgs := w.msgs[Slot(s) := msg], occupied := w.occupied[Slot(s) := true], lastSent := s, anySent := true)
  }

  /** The freeing loop: forward from `s` until it meets `target`. */
  function Free(occupied: seq<bool>, s: u16, target: u16): (r: seq<bool>)
    requires |occupied| == WINDOW
    ensures |r| == WINDOW
    decreases Dist(s, target)
  {
    if s == target then occupied else Free(occupied[Slot(s) := false], Succ(s), target)
  }

  /** `xrce_reliable_out_on_acknack`. */
  function OnAcknack(w: Window, first: u16, bitmap: u16): Window
    requires Sized(w)
  {
    var freed := if w.anySent then w.(occupied := Free(w.occupied, w.lastAck, first), lastAck := Pred(first)) else w;
    freed.(sendLost := bitmap != 0, cursor := freed.lastAck)
  }

  /** The sweep loop: the next occupied slot after `cursor`, up to `last`. */
  function Seek(occupied: seq<bool>, cursor: u16, last: u16): (r: (u16, bool))
    requires |occupied| == WINDOW
    ensures r.1 ==> Dist(r.0, last) < Dist(cursor, last)
    decreases Dist(cursor, last)
  {
    if cursor == last then (cursor, false)
    else if occupied[Slot(Succ(cursor))] then (Succ(cursor), true)
    else Seek(occupied, Succ(cursor), last)
  }

  /** `xrce_reliable_out_next_retransmit`. */
  function NextRetransmit(w: Window): (r: (Window, Option<Message>))
    requires Sized(w)
    ensures Sized(r.0) && r.0.lastSent == w.lastSent
    ensures r.1.Some? ==> Dist(r.0.cursor, w.lastSent) < Dist(w.cursor, w.lastSent)
  {
    if !w.sendLost then (w, None)
    else
      var (c, found) := Seek(w.occupied, w.cursor, w.lastSent);
      if found then (w.(cursor := c, count := (w.count + 1) % 0x1_0000_0000), Some(w.msgs[Slot(c)]))
      else (w.(cursor := c, sendLost := false), None)
  }

  /** Calling `xrce_reliable_out_next_retransmit` until it returns false. */
  function Sweep(w: Window): (r: (Window, seq<Message>))
    requires Sized(w)
    decreases Dist(w.cursor, w.lastSent)
  {
    var (w', m) := NextRetransmit(w);
    if m.None? then (w', []) else var (end, rest) := Sweep(w'); (end, [m.value] + rest)
  }

  // -------------------------------------------------- unbounded message numbers

  /** A sender's history: message number `base + i` is `log[i]`, and those below `acked` are known
      to have arrived.  Numbers start above 0 so that each has a predecessor. */
  datatype History = History(base: nat, log: seq<Message>, acked: nat)

  function End(h: History): nat {
    h.base + |h.log|
  }

  predicate HistoryOk(h: History) {
    1 <= h.base <= h.acked <= End(h)
  }

  predicate StoredAt(w: Window, h: History, n: nat)
    requires Sized(w) && h.base <= n < End(h)
  {
    w.occupied[Slot(n)] && w.msgs[Slot(n)] == h.log[n - h.base]
  }

  /** Every unacknowledged message is in its slot, byte for byte. */
  ghost predicate Retained(w: Window, h: History)
    requires Sized(w) && HistoryOk(h)
  {
    forall n :: h.acked <= n < End(h) ==> StoredAt(w, h, n)
  }

  /** The slots of the numbers that are not outstanding are free. */
  ghost predicate OthersFree(w: Window, h: History)
    requires Sized(w)
  {
    forall n: nat :: End(h) <= n < h.acked + WINDOW ==> !w.occupied[Slot(n)]
  }

  /** The 16-bit fields are those of the history. */
  predicate FieldsAgree(w: Window, h: History)
    requires HistoryOk(h)
  {
    && w.lastAck == Seq(h.acked - 1) && w.anySent == (h.log != [])
    && (w.anySent ==> w.lastSent == Seq(End(h) - 1))
  }

  ghost predicate Agrees(w: Window, h: History) {
    Sized(w) && HistoryOk(h) && End(h) <= h.acked + WINDOW && FieldsAgree(w, h) && Retained(w, h) && OthersFree(w, h)
  }

  lemma EmptyAgrees(base: nat)
    requires base >= 1
    ensures Agrees(Empty(Seq(base - 1)), History(base, [], base))
  {
  }

  // ----------------------------------------------------------------- track

  function Sent(h: History, msg: Message): History {
    h.(log := h.log + [msg])
  }

  /** Backpressure: the next message is taken exactly when it is short enough and fewer than 32
      are outstanding. */
  lemma TakesIffRoom(w: Window, h: History, msg: Message)
    requires Agrees(w, h)
    ensures Takes(w, Seq(End(h)), msg) <==> |msg| <= 256 && End(h) - h.acked < 32
  {
    SeqDist(h.acked - 1, End(h));
  }

  lemma {:induction false} TrackKeeps(w: Window, h: History, msg: Message)
    requires Agrees(w, h) && |msg| <= MSG_MAX && End(h) - h.acked < WINDOW
    ensures Agrees(Track(w, Seq(End(h)), msg), Sent(h, msg))
  {
    var e, h' := End(h), Sent(h, msg);
    var w' := Track(w, Seq(e), msg);
    TakesIffRoom(w, h, msg);
    SeqSlot(e);
    forall n | h'.acked <= n < End(h')
      ensures StoredAt(w', h', n)
    {
      if n < e {
        SlotsDiffer(n, e);
        assert StoredAt(w, h, n);
      }
    }
    forall n: nat | End(h') <= n < h'.acked + WINDOW
      ensures !w'.occupied[Slot(n)]
    {
      SlotsDiffer(e, n);
    }
  }

  // -------------------------------------------------------------- acknack

  /** Freeing from number `x` up to `y` clears exactly the slots of those numbers. */
  lemma {:induction false} FreeClears(occupied: seq<bool>, x: nat, y: nat, k: nat)
    requires |occupied| == WINDOW && x <= y < x + M && k < WINDOW
    ensures Free(occupied, Seq(x), Seq(y))[k] == (occupied[k] && forall n: nat :: x <= n < y ==> Slot(n) != k)
    decreases y - x
  {
    SeqDist(x, y);
    if x < y {
      SeqSucc(x);
      SeqSlot(x);
      FreeClears(occupied[Slot(x) := false], x + 1, y, k);
    }
  }

  function Acked(h: History, first: nat): History {
    h.(acked := first)
  }

  lemma AckFields(w: Window, h: History, first: nat, bitmap: u16)
    requires Agrees(w, h) && h.log != [] && h.acked <= first <= End(h)
    ensures FieldsAgree(OnAcknack(w, Seq(first), bitmap), Acked(h, first))
    ensures OnAcknack(w, Seq(first), bitmap).cursor == Seq(first - 1)
  {
    SeqSucc(first - 1);
  }

  /** An in-window ACKNACK frees everything it acknowledges and keeps the rest exactly when at most
      31 messages were outstanding or none is left; at 32 the slot freed first is the newest's. */
  lemma AckRetainsIff(w: Window, h: History, first: nat, bitmap: u16)
    requires Agrees(w, h) && h.log != [] && h.acked <= first <= End(h)
    ensures Retained(OnAcknack(w, Seq(first), bitmap), Acked(h, first)) <==>
        End(h) - h.acked < WINDOW || first == End(h)
  {
    var h', w' := Acked(h, first), OnAcknack(w, Seq(first), bitmap);
    var a := h.acked - 1;
    if End(h) - h.acked < WINDOW || first == End(h) {
      forall n | h'.acked <= n < End(h')
        ensures StoredAt(w', h', n)
      {
        FreeClears(w.occupied, a, first, Slot(n));
        assert StoredAt(w, h, n);
        forall x: nat | a <= x < first
          ensures Slot(x) != Slot(n)
        {
          SlotsDiffer(x, n);
        }
      }
    } else {
      var n := End(h) - 1;
      FreeClears(w.occupied, a, first, Slot(n));
      SlotsRepeat(a);
      assert !StoredAt(w', h', n);
    }
  }

  lemma AckFreesOthers(w: Window, h: History, first: nat, bitmap: u16)
    requires Agrees(w, h) && h.log != [] && h.acked <= first <= End(h)
    ensures OthersFree(OnAcknack(w, Seq(first), bitmap), Acked(h, first))
  {
    var w', a := OnAcknack(w, Seq(first), bitmap), h.acked - 1;
    forall n: nat | End(h) <= n < first + WINDOW
      ensures !w'.occupied[Slot(n)]
    {
      FreeClears(w.occupied, a, first, Slot(n));
      if n >= h.acked + WINDOW {
        SlotsRepeat(n - WINDOW);
      }
    }
  }

  /** With at most 31 outstanding, an ACKNACK keeps the window right and rewinds the cursor. */
  lemma AckKeeps(w: Window, h: History, first: nat, bitmap: u16)
    requires Agrees(w, h) && h.acked <= first <= End(h) && End(h) - h.acked < WINDOW
    ensures Agrees(OnAcknack(w, Seq(first), bitmap), Acked(h, first))
    ensures OnAcknack(w, Seq(first), bitmap).cursor == Seq(first - 1)
  {
    if h.log != [] {
      AckFields(w, h, first, bitmap);
      AckRetainsIff(w, h, first, bitmap);
      AckFreesOthers(w, h, first, bitmap);
    }
  }

  // ---------------------------------------------------------------- sweep

  /** The cursor stands before message number `n`. */
  predicate CursorAt(w: Window, h: History, n: nat) {
    h.acked <= n <= End(h) && n >= 1 && w.cursor == Seq(n - 1)
  }

  /** One call emits the message the cursor stands before, or ends the sweep. */
  lemma RetransmitStep(w: Window, h: History, n: nat)
    requires Agrees(w, h) && w.sendLost && h.log != [] && CursorAt(w, h, n)
    ensures var (w', m) := NextRetransmit(w);
            && Agrees(w', h)
            && (n < End(h) ==> m == Some(h.log[n - h.base]) && CursorAt(w', h, n + 1) && w'.sendLost)
            && (n == End(h) ==> m == None && w' == w.(sendLost := false))
  {
    SeqDist(n - 1, End(h) - 1);
    if n < End(h) {
      SeqSucc(n - 1);
      SeqSlot(n);
      assert StoredAt(w, h, n);
    }
    var w' := NextRetransmit(w).0;
    forall n | h.acked <= n < End(h)
      ensures StoredAt(w', h, n)
    {
      assert StoredAt(w, h, n);
    }
  }

  /** A sweep emits every message from the cursor on, once and in order, and then disarms. */
  lemma {:induction false} SweepEmits(w: Window, h: History, n: nat)
    requires Agrees(w, h) && w.sendLost && h.log != [] && CursorAt(w, h, n)
    ensures Sweep(w).1 == h.log[n - h.base..] && Agrees(Sweep(w).0, h) && !Sweep(w).0.sendLost
    decreases End(h) - n
  {
    RetransmitStep(w, h, n);
    if n < End(h) {
      SweepEmits(NextRetransmit(w).0, h, n + 1);
    }
  }

  /** The sweep an ACKNACK arms emits exactly the messages it leaves outstanding. */
  lemma SweepAfterAck(w: Window, h: History, first: nat, bitmap: u16)
    requires Agrees(w, h) && h.log != [] && h.acked <= first <= End(h) && End(h) - h.acked < WINDOW && bitmap != 0
    ensures Sweep(OnAcknack(w, Seq(first), bitmap)).1 == h.log[first - h.base..]
  {
    AckKeeps(w, h, first, bitmap);
    SweepEmits(OnAcknack(w, Seq(first), bitmap), Acked(h, first), first);
  }

  /** An ACKNACK with an empty bitmap arms nothing, and disarms what was armed. */
  lemma EmptyBitmapSweepsNothing(w: Window, first: u16)
    requires Sized(w)
    ensures !OnAcknack(w, first, 0).sendLost
    ensures Sweep(OnAcknack(w, first, 0)) == (OnAcknack(w, first, 0), [])
  {
  }

  /** `retransmit_count` counts the messages emitted, in 32 bits. */
  lemma {:induction false} SweepCounts(w: Window)
    requires Sized(w)
    ensures Sweep(w).0.count == (w.count + |Sweep(w).1|) % 0x1_0000_0000
    decreases Dist(w.cursor, w.lastSent)
  {
    var (w', m) := NextRetransmit(w);
    if m.Some? {
      SweepCounts(w');
      AddOne(w.count, |Sweep(w').1|);
    }
  }

  lemma AddOne(x: nat, n: nat)
    ensures ((x + 1) % 0x1_0000_0000 + n) % 0x1_0000_0000 == (x + (1 + n)) % 0x1_0000_0000
  {
  }

  /** The bound is needed: 32 outstanding messages are accepted, and the first partial ACKNACK
      makes the window forget the newest of them. */
  lemma FullWindowForgets(w: Window, h: History, first: nat, bitmap: u16)
    requires Agrees(w, h) && End(h) - h.acked == WINDOW && h.acked <= first < End(h)
    ensures !OnAcknack(w, Seq(first), bitmap).occupied[Slot(End(h) - 1)]
  {
    FreeClears(w.occupied, h.acked - 1, first, Slot(End(h) - 1));
    SlotsRepeat(h.acked - 1);
    assert Slot(h.acked - 1) == Slot(End(h) - 1);
  }

  /** The driver's send loop, which ignores whether a message was taken. */
  function TrackAll(w: Window, n: nat, msgs: seq<Message>): Window
    requires Sized(w)
    decreases |msgs|
  {
    if msgs == [] then w else TrackAll(Track(w, Seq(n), msgs[0]), n + 1, msgs[1..])
  }

  lemma {:induction false} TrackAllAgrees(w: Window, h: History, msgs: seq<Message>)
    requires Agrees(w, h) && End(h) - h.acked + |msgs| <= WINDOW
    requires forall i :: 0 <= i < |msgs| ==> |msgs[i]| <= MSG_MAX
    ensures Agrees(TrackAll(w, End(h), msgs), h.(log := h.log + msgs))
    decreases |msgs|
  {
    if msgs == [] {
      assert h.log + msgs == h.log;
    } else {
      TrackKeeps(w, h, msgs[0]);
      TrackAllAgrees(Track(w, Seq(End(h)), msgs[0]), Sent(h, msgs[0]), msgs[1..]);
      assert h.log + [msgs[0]] + msgs[1..] == h.log + msgs;
    }
  }

  /** A driver that sends 32 messages before it looks at ACKNACKs cannot retransmit the last of
      them once any but the final ACKNACK has come. */
  lemma ThirtyTwoInARow(base: nat, msgs: seq<Message>, first: nat, bitmap: u16)
    requires base >= 1 && |msgs| == WINDOW && forall i :: 0 <= i < |msgs| ==> |msgs[i]| <= MSG_MAX
    requires base <= first < base + WINDOW
    ensures var w := TrackAll(Empty(Seq(base - 1)), base, msgs);
            Sized(w) && w.occupied[Slot(base + 31)] && !OnAcknack(w, Seq(first), bitmap).occupied[Slot(base + 31)]
  {
    EmptyAgrees(base);
    TrackAllAgrees(Empty(Seq(base - 1)), History(base, [], base), msgs);
    assert [] + msgs == msgs;
    var w, h := TrackAll(Empty(Seq(base - 1)), base, msgs), History(base, msgs, base);
    assert StoredAt(w, h, base + 31);
    FullWindowForgets(w, h, first, bitmap);
  }
}
