/** `xrce/src/reliable_stream.c` with its slot arrays and cursor updated in place. */
module ReliableStream {
  import opened Options
  import opened Bytes
  import opened ReliableWindow

  /** `++` on a `uint16_t`. */
  lemma SuccIs(s: u16)
    ensures (s + 1) % M == Succ(s)
  {
  }

  /** `xrce_reliable_out_t`; `buf[k]` holds the first `len[k]` bytes of the source's slot `k`. */
  class ReliableOut {
    const buf: array<Message>
    const occupied: array<bool>
    var lastAcknown: u16
    var lastSent: u16
    var anySent: bool
    var sendLost: bool
    var retransmitCursor: u16
    var retransmitCount: u32

    ghost predicate Valid()
      reads this
    {
      buf.Length == WINDOW && occupied.Length == WINDOW
    }

    ghost function View(): (w: Window)
      requires Valid()
      reads this, buf, occupied
      ensures Sized(w)
    {
      Window(buf[..], occupied[..], lastAcknown, lastSent, anySent, sendLost, retransmitCursor, retransmitCount)
    }

    /** `xrce_reliable_out_init`. */
    constructor ()
      ensures Valid() && fresh(buf) && fresh(occupied) && View() == Empty(0)
    {
      buf := new Message[WINDOW](_ => []);
      occupied := new bool[WINDOW](_ => false);
      lastAcknown, lastSent, anySent, sendLost, retransmitCursor, retransmitCount := 0, 0, false, false, 0, 0;
      new;
      assert buf[..] == Empty(0).msgs && occupied[..] == Empty(0).occupied;
    }

    /** `xrce_reliable_out_track`. */
    method TrackMessage(s: u16, msg: Message) returns (ok: bool)
      requires Valid()
      modifies this, buf, occupied
      ensures Valid() && View() == Track(old(View()), s, msg) && ok == Takes(old(View()), s, msg)
    {
      if |msg| > MSG_MAX {
        return false;
      }
      if anySent {
        var outstanding := (s + M - lastAcknown) % M;
        if outstanding > WINDOW {
          return false;
        }
      }
      var slot := s % WINDOW;
      buf[slot] := msg;
      occupied[slot] := true;
      lastSent, anySent := s, true;
      ok := true;
    }

    /** `xrce_reliable_out_on_acknack`. */
    method HandleAcknack(firstUnacked: u16, bitmap: u16)
      requires Valid()
      modifies this, occupied
      ensures Valid() && View() == OnAcknack(old(View()), firstUnacked, bitmap)
    {
      if anySent {
        FreeUpTo(firstUnacked);
        lastAcknown := (firstUnacked + M - 1) % M;
      }
      sendLost, retransmitCursor := bitmap != 0, lastAcknown;
    }

    method FreeUpTo(firstUnacked: u16)
      requires Valid()
      modifies occupied
      ensures occupied[..] == Free(old(occupied[..]), lastAcknown, firstUnacked)
    {
      var s: u16 := lastAcknown;
      while s != firstUnacked
        invariant Free(occupied[..], s, firstUnacked) == Free(old(occupied[..]), lastAcknown, firstUnacked)
        decreases Dist(s, firstUnacked)
      {
        SuccIs(s);
        ghost var was := occupied[..];
        occupied[s % WINDOW] := false;
        assert occupied[..] == was[Slot(s) := false];
        s := (s + 1) % M;
      }
    }

    /** `xrce_reliable_out_next_retransmit`. */
    method TakeRetransmit() returns (m: Option<Message>)
      requires Valid()
      modifies this
      ensures Valid() && View() == NextRetransmit(old(View())).0 && m == NextRetransmit(old(View())).1
    {
      if !sendLost {
        return None;
      }
      var found := SeekOccupied();
      if found {
        retransmitCount := (retransmitCount + 1) % 0x1_0000_0000;
        return Some(buf[retransmitCursor % WINDOW]);
      }
      sendLost := false;
      return None;
    }

    /** The loop over the slots behind the cursor, up to the first that is occupied. */
    method SeekOccupied() returns (found: bool)
      requires Valid()
      modifies this`retransmitCursor
      ensures (retransmitCursor, found) == Seek(occupied[..], old(retransmitCursor), lastSent)
    {
      while retransmitCursor != lastSent
        invariant Seek(occupied[..], retransmitCursor, lastSent) == Seek(occupied[..], old(retransmitCursor), lastSent)
        decreases Dist(retransmitCursor, lastSent)
      {
        SuccIs(retransmitCursor);
        retransmitCursor := (retransmitCursor + 1) % M;
        if occupied[retransmitCursor % WINDOW] {
          return true;
        }
      }
      found := false;
    }

    /** The driver's inner loop: retransmit until there is nothing left this round. */
    method TakeAll() returns (msgs: seq<Message>)
      requires Valid()
      modifies this
      ensures Valid() && View() == Sweep(old(View())).0 && msgs == Sweep(old(View())).1
    {
      msgs := [];
      var m := TakeRetransmit();
      while m.Some?
        invariant Valid()
        invariant m.Some? ==> msgs + [m.value] + Sweep(View()).1 == Sweep(old(View())).1
        invariant m.Some? ==> Sweep(View()).0 == Sweep(old(View())).0
        invariant m.None? ==> msgs == Sweep(old(View())).1 && View() == Sweep(old(View())).0
        decreases m.Some?, Dist(retransmitCursor, lastSent)
      {
        msgs := msgs + [m.value];
        m := TakeRetransmit();
      }
    }
  }
}
