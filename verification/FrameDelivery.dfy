/** What a receiver gets out of an encoded frame: the payload that went in, from every reader
    state, after at most one lost frame, and nothing at all when the payload was damaged. */
module FrameDelivery {
  import opened Options
  import opened Bytes
  import opened Crc
  import opened Framing

  // ---------------------------------------------------------------- stuffing

  /** The escaped form of a special byte is neither FLAG nor ESC, and flips back. */
  lemma SpecialFlips(b: byte)
    requires Special(b)
    ensures !Special(FlipBit5(b)) && FlipBit5(FlipBit5(b)) == b
  {
  }

  lemma UnstuffSnoc(raw: seq<byte>, b: byte)
    ensures var u := Unstuff(raw);
            Unstuff(raw + [b]) == if u.pending then Plain(u.octets + [FlipBit5(b)], false)
                                  else if b == ESC then Plain(u.octets, true)
                                  else Plain(u.octets + [b], false)
  {
    assert (raw + [b])[..|raw|] == raw;
  }

  lemma UnstuffByte(raw: seq<byte>, b: byte)
    requires !Unstuff(raw).pending
    ensures Unstuff(raw + StuffByte(b)) == Plain(Unstuff(raw).octets + [b], false)
  {
    UnstuffSnoc(raw, b);
    if Special(b) {
      SpecialFlips(b);
      UnstuffSnoc(raw, ESC);
      UnstuffSnoc(raw + [ESC], FlipBit5(b));
      assert raw + [ESC] + [FlipBit5(b)] == raw + StuffByte(b);
    }
  }

  /** Unstuffing undoes stuffing, for every octet string. */
  lemma {:induction false} UnstuffStuff(d: seq<byte>)
    ensures Unstuff(Stuff(d)) == Plain(d, false)
  {
    if d != [] {
      var c, x := d[..|d| - 1], d[|d| - 1];
      UnstuffStuff(c);
      UnstuffByte(Stuff(c), x);
      PutBack(d, c, x);
    }
  }

  lemma PutBack(d: seq<byte>, c: seq<byte>, x: byte)
    requires d != [] && c == d[..|d| - 1] && x == d[|d| - 1]
    ensures c + [x] == d && Stuff(d) == Stuff(c) + StuffByte(x)
  {
  }

  /** A FLAG on the wire only ever opens a frame. */
  lemma {:induction false} StuffHasNoFlag(d: seq<byte>)
    ensures FLAG !in Stuff(d)
  {
    if d != [] {
      var n := |d| - 1;
      StuffHasNoFlag(d[..n]);
      if Special(d[n]) {
        SpecialFlips(d[n]);
      }
    }
  }

  // ------------------------------------------------------------------ running

  lemma ReadyIsReported(r: Reader, raw: seq<byte>)
    requires Valid(r) && raw != [] && LastEvent(r, raw).FrameReady?
    ensures var r', e := After(r, raw), LastEvent(r, raw);
            e.len <= |r'.buffer| && Reports(r', e, Frame(e.src, r'.buffer[..e.len]))
  {
    var n := |raw| - 1;
    AfterValid(r, raw[..n]);
    FeedValid(After(r, raw[..n]), raw[n]);
    Snoc(r, raw[..n], raw[n]);
    assert raw == raw[..n] + [raw[n]];
  }

  /** Nothing handed over by the last byte if it did not complete a frame. */
  lemma QuietLast(r: Reader, raw: seq<byte>)
    requires raw != [] && !LastEvent(r, raw).FrameReady?
    ensures Delivered(r, raw) == Delivered(r, raw[..|raw| - 1])
  {
    var n := |raw| - 1;
    Snoc(r, raw[..n], raw[n]);
    assert raw == raw[..n] + [raw[n]];
  }

  // ------------------------------------------------------- an unfinished frame

  lemma ClosedStays(d: seq<byte>, j: nat, local: byte, cap: nat)
    requires j <= |d| && Closed(d[..j], local, cap)
    ensures Closed(d, local, cap)
  {
  }

  lemma FrameIsClosed(d: seq<byte>, local: byte, cap: nat, f: Frame)
    ensures IsFrame(d, local, cap, f) ==> Closed(d, local, cap)
  {
  }

  /** Feeding one more byte of an open frame: still open unless the octets are closed. */
  lemma OpenNext(raw: seq<byte>, b: byte, k: nat, local: byte, cap: nat)
    requires OpenAt(raw, local, cap) == Some(k) && k <= |raw| && b != FLAG
    ensures OpenAt(raw + [b], local, cap) ==
        if Closed(Unstuff(raw[k..] + [b]).octets, local, cap) then None else Some(k)
  {
    assert (raw + [b])[..|raw|] == raw;
    assert (raw + [b])[k..] == raw[k..] + [b];
  }

  /** While its octets are not closed, a stuffed frame stays open since its FLAG. */
  lemma {:induction false} StaysOpen(d: seq<byte>, local: byte, cap: nat)
    requires !Closed(d, local, cap)
    ensures OpenAt([FLAG] + Stuff(d), local, cap) == Some(1)
  {
    var raw := [FLAG] + Stuff(d);
    if d == [] {
      assert raw == [FLAG] && raw[..0] == [];
    } else {
      var n := |d| - 1;
      if Closed(d[..n], local, cap) { ClosedStays(d, n, local, cap); }
      StaysOpen(d[..n], local, cap);
      StaysOpenByte(d, local, cap);
    }
  }

  /** The last raw byte of a stuffed frame and what comes before it. */
  lemma LastRawByte(d: seq<byte>) returns (past: seq<byte>, x: byte)
    requires d != []
    ensures [FLAG] + Stuff(d) == past + [x] && x != FLAG
    ensures past == [FLAG] + Stuff(d[..|d| - 1]) || past == [FLAG] + Stuff(d[..|d| - 1]) + [ESC]
  {
    var n := |d| - 1;
    past, x := [FLAG] + Stuff(d[..n]), d[n];
    if Special(d[n]) {
      SpecialFlips(d[n]);
      past, x := past + [ESC], FlipBit5(d[n]);
    }
  }

  lemma StaysOpenByte(d: seq<byte>, local: byte, cap: nat)
    requires d != [] && !Closed(d, local, cap) && !Closed(d[..|d| - 1], local, cap)
    requires OpenAt([FLAG] + Stuff(d[..|d| - 1]), local, cap) == Some(1)
    ensures OpenAt([FLAG] + Stuff(d), local, cap) == Some(1)
  {
    var past, x := LastRawByte(d);
    EscapeKeepsOpen(d[..|d| - 1], local, cap);
    LastKeepsOpen(d, past, x, local, cap);
  }

  lemma LastKeepsOpen(d: seq<byte>, past: seq<byte>, x: byte, local: byte, cap: nat)
    requires !Closed(d, local, cap) && |past| >= 1 && x != FLAG
    requires past + [x] == [FLAG] + Stuff(d) && OpenAt(past, local, cap) == Some(1)
    ensures OpenAt([FLAG] + Stuff(d), local, cap) == Some(1)
  {
    assert past[1..] + [x] == (past + [x])[1..] == Stuff(d);
    UnstuffStuff(d);
    OpenNext(past, x, 1, local, cap);
  }

  lemma EscapeKeepsOpen(d: seq<byte>, local: byte, cap: nat)
    requires !Closed(d, local, cap) && OpenAt([FLAG] + Stuff(d), local, cap) == Some(1)
    ensures OpenAt([FLAG] + Stuff(d) + [ESC], local, cap) == Some(1)
  {
    var past := [FLAG] + Stuff(d);
    assert past[1..] == Stuff(d);
    UnstuffStuff(d);
    assert (Stuff(d) + [ESC])[..|Stuff(d)|] == Stuff(d);
    OpenNext(past, ESC, 1, local, cap);
  }

  // --------------------------------------------------------- feeding a frame

  /** After a FLAG outside an escape, the reader is where the parser is after a lone FLAG. */
  lemma FlagResets(r: Reader)
    requires Valid(r) && !r.escape
    ensures Tracks(After(r, [FLAG]), [FLAG]) && Delivered(r, [FLAG]) == []
  {
    AfterOne(r, FLAG);
    assert OpenAt([FLAG], r.local, |r.buffer|) == Some(1) by { assert [FLAG][..0] == []; }
    assert [FLAG][1..] == [];
  }

  /** Fed a FLAG and then `body`, from any state outside an escape, the reader tracks the parser. */
  lemma TracksFromFlag(r: Reader, body: seq<byte>)
    requires Valid(r) && !r.escape
    ensures Tracks(After(r, [FLAG] + body), [FLAG] + body)
  {
    FlagResets(r);
    AfterConcat(r, [FLAG], body);
    AfterValid(r, [FLAG]);
    RunTracks(After(r, [FLAG]), [FLAG], body);
  }

  /** The event of the last byte agrees with the parser, from any state outside an escape. */
  lemma EventFromFlag(r: Reader, body: seq<byte>, f: Frame)
    requires Valid(r) && !r.escape && body != []
    ensures var raw := [FLAG] + body;
            EndsFrame(raw, r.local, |r.buffer|, f) <==> Reports(After(r, raw), LastEvent(r, raw), f)
  {
    var raw, n := [FLAG] + body, |body| - 1;
    assert raw[..|raw| - 1] == [FLAG] + body[..n];
    TracksFromFlag(r, body[..n]);
    AfterValid(r, [FLAG] + body[..n]);
    FeedTracks(After(r, [FLAG] + body[..n]), raw, f);
    assert raw == [FLAG] + body[..n] + [body[n]];
    Snoc(r, [FLAG] + body[..n], body[n]);
  }

  /** No frame is reported while the parser still has it open. */
  lemma OpenReportsNothing(r: Reader, body: seq<byte>)
    requires Valid(r) && !r.escape && body != []
    requires OpenAt([FLAG] + body, r.local, |r.buffer|) == Some(1)
    ensures !LastEvent(r, [FLAG] + body).FrameReady?
  {
    var raw, n := [FLAG] + body, |body|;
    var e, r' := LastEvent(r, raw), After(r, raw);
    if e.FrameReady? {
      ReadyIsReported(r, raw);
      AfterValid(r, raw);
      var f := Frame(e.src, r'.buffer[..e.len]);
      EventFromFlag(r, body, f);
      EndsMeansNone(raw, r.local, |r.buffer|, f);
    }
  }

  lemma EndsMeansNone(raw: seq<byte>, local: byte, cap: nat, f: Frame)
    ensures EndsFrame(raw, local, cap, f) ==> OpenAt(raw, local, cap) == None
  {
    if EndsFrame(raw, local, cap, f) {
      var n := |raw| - 1;
      var k := OpenAt(raw[..n], local, cap).value;
      FrameIsClosed(Unstuff(raw[k..]).octets, local, cap, f);
    }
  }

  lemma {:induction false} NothingWhileOpen(r: Reader, d: seq<byte>)
    requires Valid(r) && !r.escape && !Closed(d, r.local, |r.buffer|)
    ensures Delivered(r, [FLAG] + Stuff(d)) == []
  {
    if d == [] {
      FlagResets(r);
      assert [FLAG] + Stuff(d) == [FLAG];
    } else {
      var n := |d| - 1;
      if Closed(d[..n], r.local, |r.buffer|) { ClosedStays(d, n, r.local, |r.buffer|); }
      NothingWhileOpen(r, d[..n]);
      StaysOpen(d[..n], r.local, |r.buffer|);
      StaysOpen(d, r.local, |r.buffer|);
      NothingBeforeLast(r, d);
      OpenReportsNothing(r, Stuff(d));
      QuietLast(r, [FLAG] + Stuff(d));
    }
  }

  /** Up to the last byte of the last octet, nothing is reported. */
  lemma NothingBeforeLast(r: Reader, d: seq<byte>)
    requires Valid(r) && !r.escape && d != [] && !Closed(d[..|d| - 1], r.local, |r.buffer|)
    requires Delivered(r, [FLAG] + Stuff(d[..|d| - 1])) == []
    requires OpenAt([FLAG] + Stuff(d[..|d| - 1]), r.local, |r.buffer|) == Some(1)
    ensures var raw := [FLAG] + Stuff(d);
            Delivered(r, raw[..|raw| - 1]) == [] && OpenAt(raw[..|raw| - 1], r.local, |r.buffer|) == Some(1)
  {
    var past, x := LastRawByte(d);
    assert (past + [x])[..|past|] == past;
    NothingAfterEscape(r, d[..|d| - 1]);
  }

  lemma NothingAfterEscape(r: Reader, d: seq<byte>)
    requires Valid(r) && !r.escape && !Closed(d, r.local, |r.buffer|)
    requires Delivered(r, [FLAG] + Stuff(d)) == []
    requires OpenAt([FLAG] + Stuff(d), r.local, |r.buffer|) == Some(1)
    ensures var raw := [FLAG] + Stuff(d) + [ESC];
            Delivered(r, raw) == [] && OpenAt(raw, r.local, |r.buffer|) == Some(1)
  {
    EscapeKeepsOpen(d, r.local, |r.buffer|);
    assert [FLAG] + Stuff(d) + [ESC] == [FLAG] + (Stuff(d) + [ESC]);
    OpenReportsNothing(r, Stuff(d) + [ESC]);
    QuietLast(r, [FLAG] + Stuff(d) + [ESC]);
    assert ([FLAG] + Stuff(d) + [ESC])[..1 + |Stuff(d)|] == [FLAG] + Stuff(d);
  }

  /** A stuffed octet string that closes only at its end is reported as `f` just when it is `f`. */
  lemma FeedContent(r: Reader, d: seq<byte>, f: Frame)
    requires Valid(r) && !r.escape && d != []
    requires !Closed(d[..|d| - 1], r.local, |r.buffer|) && Closed(d, r.local, |r.buffer|)
    ensures var raw := [FLAG] + Stuff(d);
            && Delivered(r, raw[..|raw| - 1]) == []
            && (IsFrame(d, r.local, |r.buffer|, f) <==> Reports(After(r, raw), LastEvent(r, raw), f))
            && After(r, raw).phase == WaitFlag
  {
    var n, raw := |d| - 1, [FLAG] + Stuff(d);
    var m := |raw| - 1;
    NothingWhileOpen(r, d[..n]);
    StaysOpen(d[..n], r.local, |r.buffer|);
    NothingBeforeLast(r, d);
    UnstuffStuff(d);
    StuffHasNoFlag(d);
    assert raw[m] in Stuff(d);
    assert raw[1..] == Stuff(d);
    EventFromFlag(r, Stuff(d), f);
    TracksFromFlag(r, Stuff(d));
    AfterValid(r, raw);
  }

  // ------------------------------------------------------------- the theorems

  /** The fields of a frame's content. */
  lemma ContentFields(src: byte, local: byte, payload: seq<byte>, crc: u16)
    requires |payload| < 0x1_0000
    ensures var d := Content(src, local, payload, crc);
            && |d| == 6 + |payload| && d[0] == src && d[1] == local && LenOf(d) == |payload|
            && d[4..|d| - 2] == payload && Join16(d[|d| - 2], d[|d| - 1]) == crc
  {
    LengthField(|payload|);
    LengthField(crc);
  }

  lemma LengthField(n: nat)
    requires n < 0x1_0000
    ensures Join16(Low8(n), Low8(n / 256)) == n
  {
    Join16Split(n);
  }

  /** Content that says its own length is closed by its last octet and not before. */
  lemma LastCloses(d: seq<byte>, local: byte, cap: nat)
    requires |d| >= 6 && d[1] == local && LenOf(d) == |d| - 6 <= cap
    ensures !Closed(d[..|d| - 1], local, cap) && Closed(d, local, cap)
  {
    var e := d[..|d| - 1];
    assert LenOf(e) == LenOf(d);
  }

  lemma ContentCloses(src: byte, local: byte, payload: seq<byte>, crc: u16, cap: nat)
    requires |payload| <= cap && |payload| < 0x1_0000
    ensures var d := Content(src, local, payload, crc);
            && |d| == 6 + |payload| && LenOf(d) == |payload|
            && !Closed(d[..|d| - 1], local, cap) && Closed(d, local, cap)
            && d[4..|d| - 2] == payload && Join16(d[|d| - 2], d[|d| - 1]) == crc && d[0] == src && d[1] == local
  {
    ContentFields(src, local, payload, crc);
    LastCloses(Content(src, local, payload, crc), local, cap);
  }

  /** From every reader state outside an escape, an encoded frame addressed to the reader is
      delivered, once, and leaves the reader waiting for the next FLAG. */
  lemma FrameDelivered(r: Reader, src: byte, payload: seq<byte>)
    requires Valid(r) && !r.escape && |payload| <= |r.buffer| && |payload| < 0x1_0000
    ensures Delivered(r, Encode(src, r.local, payload)) == [Frame(src, payload)]
    ensures After(r, Encode(src, r.local, payload)).phase == WaitFlag
  {
    ContentCloses(src, r.local, payload, Crc16(payload), |r.buffer|);
    FeedContent(r, Content(src, r.local, payload, Crc16(payload)), Frame(src, payload));
    LastHandsOver(r, Encode(src, r.local, payload), Frame(src, payload));
  }

  lemma LastHandsOver(r: Reader, raw: seq<byte>, f: Frame)
    requires raw != [] && Delivered(r, raw[..|raw| - 1]) == [] && Reports(After(r, raw), LastEvent(r, raw), f)
    ensures Delivered(r, raw) == [f]
  {
    var n := |raw| - 1;
    Snoc(r, raw[..n], raw[n]);
    assert raw == raw[..n] + [raw[n]];
  }

  /** A frame whose payload was changed within 16 consecutive bits, under the original length and
      CRC, is never delivered, and does not disturb the next one. */
  lemma DamagedFrameRejected(r: Reader, src: byte, sent: seq<byte>, received: seq<byte>, start: nat)
    requires Valid(r) && !r.escape && |sent| == |received| <= |r.buffer| && |sent| < 0x1_0000 && sent != received
    requires forall i :: 0 <= i < 8 * |sent| && MessageBits(sent)[i] != MessageBits(received)[i] ==>
        start <= i < start + 16
    ensures var raw := [FLAG] + Stuff(Content(src, r.local, received, Crc16(sent)));
            Delivered(r, raw) == [] && After(r, raw).phase == WaitFlag
  {
    var d := Content(src, r.local, received, Crc16(sent));
    var raw := [FLAG] + Stuff(d);
    ContentCloses(src, r.local, received, Crc16(sent), |r.buffer|);
    BurstDetected(sent, received, start);
    FeedContent(r, d, Frame(src, received));
    assert forall f :: !IsFrame(d, r.local, |r.buffer|, f);
    if LastEvent(r, raw).FrameReady? {
      ReadyIsReported(r, raw);
      var e := LastEvent(r, raw);
      var f := Frame(e.src, After(r, raw).buffer[..e.len]);
      FeedContent(r, d, f);
    }
    QuietLast(r, raw);
  }

  /** Bytes other than FLAG do nothing to a waiting reader. */
  lemma {:induction false} NoiseIgnored(r: Reader, noise: seq<byte>)
    requires Valid(r) && r.phase == WaitFlag && FLAG !in noise
    ensures After(r, noise) == r && Delivered(r, noise) == []
    decreases |noise|
  {
    if noise != [] {
      assert noise[0] in noise;
      NoiseIgnored(r, noise[1..]);
    }
  }

  /** Stuffed octets never leave the reader inside an escape. */
  lemma {:induction false} StuffSettles(r: Reader, d: seq<byte>)
    requires Valid(r) && !r.escape
    ensures !After(r, Stuff(d)).escape
  {
    if d != [] {
      var n := |d| - 1;
      StuffSettles(r, d[..n]);
      AfterConcat(r, Stuff(d[..n]), StuffByte(d[n]));
      AfterValid(r, Stuff(d[..n]));
      StuffByteSettles(After(r, Stuff(d[..n])), d[n]);
    }
  }

  lemma StuffByteSettles(r: Reader, b: byte)
    requires Valid(r) && !r.escape
    ensures !After(r, StuffByte(b)).escape
  {
    if Special(b) {
      SpecialFlips(b);
      var x := FlipBit5(b);
      AfterConcat(r, [ESC], [x]);
      AfterOne(r, ESC);
      AfterOne(After(r, [ESC]), x);
      FeedValid(r, ESC);
      assert [ESC] + [x] == StuffByte(b);
    } else {
      AfterOne(r, b);
    }
  }

  /** Bounded resynchronisation: from every reader state at all, of two encoded frames sent in a
      row the second is delivered; the first too unless an escape was pending. */
  lemma ResyncWithinOneFrame(r: Reader, src1: byte, dst1: byte, first: seq<byte>, src: byte, payload: seq<byte>)
    requires Valid(r) && |payload| <= |r.buffer| && |payload| < 0x1_0000
    ensures var one := Encode(src1, dst1, first);
            Delivered(r, one + Encode(src, r.local, payload)) == Delivered(r, one) + [Frame(src, payload)]
  {
    var d := Content(src1, dst1, first, Crc16(first));
    var one := [FLAG] + Stuff(d);
    AfterConcat(r, [FLAG], Stuff(d));
    AfterOne(r, FLAG);
    AfterValid(r, [FLAG]);
    StuffSettles(After(r, [FLAG]), d);
    AfterValid(r, one);
    AfterConcat(r, one, Encode(src, r.local, payload));
    FrameDelivered(After(r, one), src, payload);
  }

  // -------------------------------------------------------------- byte by byte

  /** Source, destination, length, payload and CRC, both numbers low byte first. */
  predicate FrameOctets(d: seq<byte>, source: byte, destination: byte, payload: seq<byte>) {
    var n := |payload|;
    && |d| == n + 6 && d[0] == source && d[1] == destination
    && Number(d[2], d[3]) == n % 0x1_0000 && d[4..n + 4] == payload
    && Number(d[n + 4], d[n + 5]) == Crc16(payload)
  }

  function Number(low: int, high: int): int {
    low + 256 * high
  }

  lemma Numbers(n: nat, crc: u16)
    ensures Number(Low8(n), Low8(n / 256)) == n % 0x1_0000 && Number(Low8(crc), Low8(crc / 256)) == crc
  {
    Join16Split(n);
    Join16Split(crc);
  }

  lemma ContentOctets(source: byte, destination: byte, payload: seq<byte>, crc: u16)
    requires crc == Crc16(payload)
    ensures FrameOctets(Content(source, destination, payload, crc), source, destination, payload)
  {
    var d, n := Content(source, destination, payload, crc), |payload|;
    Numbers(n, crc);
    assert d[4..n + 4] == payload;
    assert d[n + 4] == Low8(crc) && d[n + 5] == Low8(crc / 256);
  }

  /** A FLAG in front and none behind it, and these octets once the stuffing is undone. */
  lemma FrameOnWire(local: byte, remote: byte, payload: seq<byte>)
    ensures var e := Encode(local, remote, payload);
            && e != [] && e[0] == 0x7E && 0x7E !in e[1..]
            && FrameOctets(Unstuff(e[1..]).octets, local, remote, payload)
  {
    var crc := Crc16(payload);
    var d := Content(local, remote, payload, crc);
    assert Encode(local, remote, payload)[1..] == Stuff(d);
    UnstuffStuff(d);
    StuffHasNoFlag(d);
    ContentOctets(local, remote, payload, crc);
  }

  /** The two reserved bytes travel as an escape and themselves with bit 5 the other way; all others
      travel as they are. */
  lemma StuffedBytes(b: byte)
    ensures StuffByte(b) == if b == 0x7E then [0x7D, 0x5E] else if b == 0x7D then [0x7D, 0x5D] else [b]
  {
  }
}
