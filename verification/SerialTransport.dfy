/** `xrce/src/serial_transport.c` statement by statement: the encoder advances through an output
    buffer, the reader updates its fields and the caller's payload buffer byte by byte. */
module SerialTransport {
  import opened Bytes
  import opened Crc
  import opened Framing

  lemma StuffSnoc(d: seq<byte>, b: byte)
    ensures Stuff(d + [b]) == Stuff(d) + StuffByte(b)
  {
    assert (d + [b])[..|d|] == d;
  }

  lemma {:induction false} StuffConcat(a: seq<byte>, b: seq<byte>)
    ensures Stuff(a + b) == Stuff(a) + Stuff(b)
    decreases |b|
  {
    if b == [] {
      assert a + b == a;
    } else {
      var c, x := b[..|b| - 1], b[|b| - 1];
      calc {
        Stuff(a + b);
        { assert a + b == a + c + [x]; }
        Stuff(a + c + [x]);
        { StuffSnoc(a + c, x); }
        Stuff(a + c) + StuffByte(x);
        { StuffConcat(a, c); }
        Stuff(a) + (Stuff(c) + StuffByte(x));
      }
    }
  }

  /** A frame is its FLAG, header, payload and CRC, each stuffed. */
  lemma EncodeParts(local: byte, remote: byte, payload: seq<byte>)
    ensures Encode(local, remote, payload)
         == [FLAG] + Stuff(HeaderOf(local, remote, payload)) + Stuff(payload) + Stuff(TrailerOf(Crc16(payload)))
  {
    var h, t := HeaderOf(local, remote, payload), TrailerOf(Crc16(payload));
    StuffConcat(h, payload);
    StuffConcat(h + payload, t);
  }

  function HeaderOf(local: byte, remote: byte, payload: seq<byte>): seq<byte> {
    [local, remote, Low8(|payload|), Low8(|payload| / 256)]
  }

  function TrailerOf(crc: u16): seq<byte> {
    [Low8(crc), Low8(crc / 256)]
  }

  /** `put_stuffed`: appends one octet in stuffed form, or refuses and changes nothing. */
  method PutStuffed(out: array<byte>, cap: nat, pos: nat, b: byte) returns (ok: bool, end: nat)
    requires pos <= cap <= out.Length
    modifies out
    ensures ok <==> pos + |StuffByte(b)| <= cap
    ensures ok ==> end == pos + |StuffByte(b)| && out[..end] == old(out[..pos]) + StuffByte(b)
    ensures !ok ==> end == pos && out[..] == old(out[..])
    ensures out[cap..] == old(out[cap..])
  {
    end := pos;
    if b == FLAG || b == ESC {
      if end + 2 > cap {
        return false, end;
      }
      out[end] := ESC;
      end := end + 1;
      out[end] := FlipBit5(b);
      end := end + 1;
    } else {
      if end + 1 > cap {
        return false, end;
      }
      out[end] := b;
      end := end + 1;
    }
    ok := true;
  }

  /** A run of `put_stuffed` calls, stopping at the first that does not fit. */
  method PutAll(out: array<byte>, cap: nat, pos: nat, more: seq<byte>) returns (ok: bool, end: nat)
    requires pos <= cap <= out.Length
    modifies out
    ensures ok <==> pos + |Stuff(more)| <= cap
    ensures ok ==> end == pos + |Stuff(more)| && out[..end] == old(out[..pos]) + Stuff(more)
    ensures out[cap..] == old(out[cap..])
  {
    end := pos;
    for i := 0 to |more|
      invariant end == pos + |Stuff(more[..i])| <= cap && out[..end] == old(out[..pos]) + Stuff(more[..i])
      invariant out[cap..] == old(out[cap..])
    {
      assert more[..i + 1] == more[..i] + [more[i]];
      StuffSnoc(more[..i], more[i]);
      ok, end := PutStuffed(out, cap, end, more[i]);
      if !ok {
        assert more == more[..i + 1] + more[i + 1..];
        StuffConcat(more[..i + 1], more[i + 1..]);
        return;
      }
    }
    assert more[..|more|] == more;
    ok := true;
  }

  /** One octet more, and what is still to come does not shorten the frame. */
  lemma PayloadStep(payload: seq<byte>, i: nat)
    requires i < |payload|
    ensures Stuff(payload[..i + 1]) == Stuff(payload[..i]) + StuffByte(payload[i])
    ensures Crc16(payload[..i + 1]) == Update(Crc16(payload[..i]), payload[i])
    ensures |Stuff(payload[..i + 1])| <= |Stuff(payload)|
  {
    assert payload[..i + 1] == payload[..i] + [payload[i]] && payload[..i + 1][..i] == payload[..i];
    StuffSnoc(payload[..i], payload[i]);
    assert payload == payload[..i + 1] + payload[i + 1..];
    StuffConcat(payload[..i + 1], payload[i + 1..]);
  }

  /** The payload loop: each octet goes into the CRC and onto the wire. */
  method PutPayload(out: array<byte>, cap: nat, pos: nat, payload: seq<byte>) returns (ok: bool, end: nat, crc: u16)
    requires pos <= cap <= out.Length
    modifies out
    ensures ok <==> pos + |Stuff(payload)| <= cap
    ensures ok ==> end == pos + |Stuff(payload)| && out[..end] == old(out[..pos]) + Stuff(payload)
    ensures ok ==> crc == Crc16(payload)
    ensures out[cap..] == old(out[cap..])
  {
    end, crc := pos, 0;
    for i := 0 to |payload|
      invariant end == pos + |Stuff(payload[..i])| <= cap && out[..end] == old(out[..pos]) + Stuff(payload[..i])
      invariant crc == Crc16(payload[..i]) && out[cap..] == old(out[cap..])
    {
      PayloadStep(payload, i);
      crc := Crc16Update(crc, payload[i]);
      ok, end := PutStuffed(out, cap, end, payload[i]);
      if !ok {
        return;
      }
    }
    assert payload[..|payload|] == payload;
    ok := true;
  }

  /** `xrce_serial_frame_encode`: the frame, if it fits the buffer as stuffed; otherwise 0. */
  method FrameEncode(out: array<byte>, cap: nat, local: byte, remote: byte, payload: seq<byte>) returns (n: nat)
    requires cap <= out.Length
    modifies out
    ensures n == if |Encode(local, remote, payload)| <= cap then |Encode(local, remote, payload)| else 0
    ensures n > 0 ==> out[..n] == Encode(local, remote, payload)
    ensures out[cap..] == old(out[cap..])
  {
    EncodeParts(local, remote, payload);
    if cap < 1 {
      return 0;
    }
    out[0] := FLAG;
    assert out[..1] == [FLAG];
    var ok, pos := PutAll(out, cap, 1, HeaderOf(local, remote, payload));
    if !ok {
      return 0;
    }
    var crc;
    ok, pos, crc := PutPayload(out, cap, pos, payload);
    if !ok {
      return 0;
    }
    ok, pos := PutAll(out, cap, pos, TrailerOf(crc));
    if !ok {
      return 0;
    }
    n := pos;
  }

  /** `xrce_serial_reader_t`. */
  class SerialReader {
    var phase: Phase
    var local: byte
    var src: byte
    var len: nat
    var pos: nat
    var crc: u16
    var rxCrc: nat
    var escape: bool
    const buffer: array<byte>

    ghost function View(): Reader
      reads this, buffer
    {
      Reader(phase, local, src, len, pos, crc, rxCrc, escape, buffer[..])
    }

    /** `xrce_serial_reader_init`. */
    constructor (local: byte, buffer: array<byte>)
      ensures this.buffer == buffer && View() == Initial(local, buffer[..])
    {
      this.local, this.buffer := local, buffer;
      phase, src, len, pos, crc, rxCrc, escape := WaitFlag, 0, 0, 0, 0, 0, false;
    }

    method ResetToWait()
      modifies this`phase, this`escape
      ensures phase == WaitFlag && !escape
    {
      phase, escape := WaitFlag, false;
    }

    /** `unstuff`: false while it has only consumed an ESC. */
    method TakeRaw(raw: byte) returns (done: bool, octet: byte)
      modifies this`escape
      ensures done == (old(escape) || raw != ESC) && escape == !done
      ensures done ==> octet == if old(escape) then FlipBit5(raw) else raw
    {
      octet := raw;
      if escape {
        escape := false;
        return true, FlipBit5(raw);
      }
      if raw == ESC {
        escape := true;
        return false, octet;
      }
      done := true;
    }

    /** `xrce_serial_reader_feed`. */
    method FeedByte(b: byte) returns (e: Event)
      requires Valid(View())
      modifies this, buffer
      ensures Valid(View()) && View() == Feed(old(View()), b).0 && e == Feed(old(View()), b).1
    {
      ghost var was := View();
      FeedValid(was, b);
      if !escape && b == FLAG {
        phase, escape := ReadSrc, false;
        return InProgress;
      }
      if phase == WaitFlag {
        return InProgress;
      }
      var done, d := TakeRaw(b);
      if !done {
        return InProgress;
      }
      e := TakeOctet(d);
    }

    /** The state switch. */
    method TakeOctet(d: byte) returns (e: Event)
      requires Valid(View()) && phase != WaitFlag
      modifies this, buffer
      ensures View() == Accept(old(View()), d).0 && e == Accept(old(View()), d).1
    {
      e := InProgress;
      match phase
      case ReadSrc =>
        src, phase := d, ReadDst;
      case ReadDst =>
        if d != local {
          ResetToWait();
          return FrameError;
        }
        phase := ReadLenLsb;
      case ReadLenLsb =>
        len, phase := d, ReadLenMsb;
      case ReadLenMsb =>
        len, pos, crc := len + 256 * d, 0, 0;
        if len > buffer.Length {
          ResetToWait();
          return FrameError;
        }
        phase := if len == 0 then ReadCrcLsb else ReadPayload;
      case ReadPayload =>
        buffer[pos] := d;
        pos := pos + 1;
        crc := Crc16Update(crc, d);
        if pos == len {
          phase := ReadCrcLsb;
        }
      case ReadCrcLsb =>
        rxCrc, phase := d, ReadCrcMsb;
      case ReadCrcMsb =>
        rxCrc := rxCrc + 256 * d;
        ResetToWait();
        if rxCrc != crc {
          return FrameError;
        }
        return FrameReady(src, len);
    }
  }
}
