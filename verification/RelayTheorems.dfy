/** What the gateway guarantees end to end: transparency for the board's own sender, two gateways
    back to back, and authenticity for every byte stream whatsoever. */
module RelayTheorems {
  import opened Bytes
  import opened Automata
  import opened Crc
  import opened Framing
  import opened FrameDelivery
  import opened Sha256Spec
  import opened SecureEnvelope
  import opened Relay

  // --------------------------------------------------------- the board's wraps

  /** The payloads as the sender wraps and frames them, `noises[i]` arriving before number `i`. */
  function SenderWire(mac: Mac, src: byte, noises: seq<seq<byte>>, payloads: seq<seq<byte>>): seq<byte>
    requires |payloads| == |noises|
  {
    Joined(seq(|payloads|, i requires 0 <= i < |payloads| => noises[i] + Encode(src, ADDR, SentAt(mac, payloads, i))))
  }

  function PlainFrame(payload: seq<byte>): seq<byte> {
    Encode(ADDR, ADDR, payload)
  }

  function SenderParts(src: byte, noises: seq<seq<byte>>, payloads: seq<seq<byte>>): (r: seq<Part>)
    requires |payloads| == |noises| && |payloads| <= WORD
    ensures |r| == |payloads|
  {
    seq(|payloads|, i requires 0 <= i < |payloads| => Part(noises[i], src, i, payloads[i]))
  }

  lemma SenderWireIs(mac: Mac, src: byte, noises: seq<seq<byte>>, payloads: seq<seq<byte>>)
    requires |payloads| == |noises| && |payloads| <= WORD && AllShort(payloads)
    ensures SenderWire(mac, src, noises, payloads) == Wire(mac, SenderParts(src, noises, payloads))
  {
    var n, parts := |payloads|, SenderParts(src, noises, payloads);
    var chunks := seq(n, i requires 0 <= i < n => noises[i] + Encode(src, ADDR, SentAt(mac, payloads, i)));
    forall i: nat | i < n
      ensures chunks[i] == Mapped(PartWire(mac), parts)[i]
    {
      SentIs(mac, payloads, i, i);
    }
    assert chunks == Mapped(PartWire(mac), parts);
  }

  /** For every list of at most 2^32 payloads of at most 316 bytes, wrapped and framed by the
      board, with any FLAG-free bytes between the frames: the agent gets their plain frames. */
  lemma SenderIsTransparent(mac: Mac, buffer: seq<byte>, src: byte, noises: seq<seq<byte>>, payloads: seq<seq<byte>>)
    requires |buffer| == MAX_PAYLOAD + OVERHEAD
    requires |payloads| == |noises| && |payloads| <= WORD && AllShort(payloads)
    requires forall i :: 0 <= i < |noises| ==> FLAG !in noises[i]
    ensures Uplink(mac, buffer, SenderWire(mac, src, noises, payloads)) == Joined(Mapped(PlainFrame, payloads))
  {
    var parts := SenderParts(src, noises, payloads);
    SenderWireIs(mac, src, noises, payloads);
    SenderPartsOk(src, noises, payloads);
    GatewayIsTransparent(mac, buffer, parts, []);
    assert Wire(mac, parts) + [] == Wire(mac, parts);
  }

  lemma SenderPartsOk(src: byte, noises: seq<seq<byte>>, payloads: seq<seq<byte>>)
    requires |payloads| == |noises| && |payloads| <= WORD && AllShort(payloads)
    requires forall i :: 0 <= i < |noises| ==> FLAG !in noises[i]
    ensures InOrder(FRESH, SenderParts(src, noises, payloads))
    ensures PlainFrames(SenderParts(src, noises, payloads)) == Joined(Mapped(PlainFrame, payloads))
  {
    var parts := SenderParts(src, noises, payloads);
    forall i | 0 <= i < |payloads|
      ensures PartPlain(parts[i]) == PlainFrame(payloads[i])
    {
    }
    MappedSame(PartPlain, parts, PlainFrame, payloads);
  }

  // ------------------------------------------------------ two gateways in a row

  /** The frames short enough to be wrapped. */
  function Short(frames: seq<Frame>): seq<Frame> {
    if frames == [] then []
    else (if |frames[0].payload| <= LIMIT then [frames[0]] else []) + Short(frames[1..])
  }

  function Reencoded(f: Frame): seq<byte> {
    Encode(ADDR, ADDR, f.payload)
  }

  /** The envelopes the downlink makes of short frames, from counter `c` on. */
  function Numbered(c: nat, frames: seq<Frame>): (r: seq<Part>)
    requires c + |frames| <= WORD
    ensures |r| == |frames|
  {
    seq(|frames|, i requires 0 <= i < |frames| => Part([], ADDR, c + i, frames[i].payload))
  }

  lemma NumberedStep(c: nat, f: Frame, rest: seq<Frame>)
    requires c + 1 + |rest| <= WORD
    ensures Numbered(c, [f] + rest)[0] == Part([], ADDR, c, f.payload)
    ensures Numbered(c, [f] + rest)[1..] == Numbered(c + 1, rest)
  {
  }

  /** `send_counter` after `c` wraps. */
  function Counter(c: nat): u32
    requires c <= WORD
  {
    if c == WORD then 0 else c
  }

  lemma NextCounterIs(c: nat, payload: seq<byte>)
    requires c < WORD && |payload| <= LIMIT
    ensures NextCounter(Counter(c), payload) == Counter(c + 1)
  {
  }

  lemma {:induction false} DownlinkIsWire(mac: Mac, c: nat, counter: u32, frames: seq<Frame>)
    requires c + |Short(frames)| <= WORD && counter == Counter(c)
    ensures Output(DownReact(), DownEmit(mac), counter, frames) == Wire(mac, Numbered(c, Short(frames)))
    decreases |frames|
  {
    if frames != [] {
      var f, rest := frames[0], frames[1..];
      var next := DownReact()(counter, f);
      if |f.payload| <= LIMIT {
        NextCounterIs(c, f.payload);
        DownlinkIsWire(mac, c + 1, next, rest);
        NumberedStep(c, f, Short(rest));
        JoinedStep(PartWire(mac), Numbered(c, Short(frames)));
        WrappedPart(mac, c, f);
      } else {
        DownlinkIsWire(mac, c, next, rest);
        assert Short(frames) == Short(rest);
      }
    }
  }

  lemma WrappedPart(mac: Mac, c: u32, f: Frame)
    requires |f.payload| <= LIMIT
    ensures DownEmit(mac)(c, f) == PartWire(mac)(Part([], ADDR, c, f.payload))
  {
    WrappedIs(mac, c, f.payload);
  }

  lemma {:induction false} ShortIsShort(frames: seq<Frame>)
    ensures forall i :: 0 <= i < |Short(frames)| ==> |Short(frames)[i].payload| <= LIMIT
    decreases |frames|
  {
    if frames != [] {
      ShortIsShort(frames[1..]);
    }
  }

  lemma DownlinkSends(mac: Mac, buffer: seq<byte>, raw: seq<byte>, short: seq<Frame>)
    requires short == Short(Delivered(Initial(ADDR, buffer), raw)) && |short| <= WORD
    ensures Downlink(mac, buffer, raw) == Wire(mac, Numbered(0, short))
  {
    RelayedFactors(DownReact(), DownEmit(mac), Initial(ADDR, buffer), 0, raw);
    DownlinkIsWire(mac, 0, 0, Delivered(Initial(ADDR, buffer), raw));
  }

  /** A downlink feeding an uplink under the same key carries every byte stream: out come exactly
      the frames found in it that are short enough to wrap, as long as the counter lasts. */
  lemma TunnelIsTransparent(mac: Mac, downBuffer: seq<byte>, upBuffer: seq<byte>, raw: seq<byte>, short: seq<Frame>)
    requires |upBuffer| == MAX_PAYLOAD + OVERHEAD
    requires short == Short(Delivered(Initial(ADDR, downBuffer), raw)) && |short| <= WORD
    ensures Uplink(mac, upBuffer, Downlink(mac, downBuffer, raw)) == Joined(Mapped(Reencoded, short))
  {
    var parts := Numbered(0, short);
    DownlinkSends(mac, downBuffer, raw, short);
    ShortIsShort(Delivered(Initial(ADDR, downBuffer), raw));
    NumberedInOrder(short);
    GatewayIsTransparent(mac, upBuffer, parts, []);
    assert Wire(mac, parts) + [] == Wire(mac, parts);
  }

  lemma NumberedInOrder(short: seq<Frame>)
    requires |short| <= WORD && forall i :: 0 <= i < |short| ==> |short[i].payload| <= LIMIT
    ensures InOrder(FRESH, Numbered(0, short)) && PlainFrames(Numbered(0, short)) == Joined(Mapped(Reencoded, short))
  {
    var parts := Numbered(0, short);
    forall i | 0 <= i < |short|
      ensures PartPlain(parts[i]) == Reencoded(short[i])
    {
    }
    MappedSame(PartPlain, parts, Reencoded, short);
  }

  // ------------------------------------------------------------- authenticity

  /** The envelopes among `frames` that the gateway lets through. */
  function Through(mac: Mac, r: Receiver, frames: seq<Frame>): seq<Frame>
    decreases |frames|
  {
    if frames == [] then []
    else
      (if Unwrap(mac, r, frames[0].payload).Accepted? then [frames[0]] else [])
      + Through(mac, AfterUnwrap(mac, r, frames[0].payload), frames[1..])
  }

  /** The plain frame inside an envelope. */
  function Opened(f: Frame): seq<byte> {
    if Sized(f.payload) then Encode(ADDR, ADDR, PlainOf(f.payload)) else []
  }

  /** Genuine envelopes in the order of their counters, all newer than `r`. */
  ghost predicate Authentic(mac: Mac, r: Receiver, frames: seq<Frame>) {
    && (forall i :: 0 <= i < |frames| ==> Genuine(mac, frames[i].payload) && IsNew(r, CounterOf(frames[i].payload)))
    && (forall i, j :: 0 <= i < j < |frames| ==> CounterOf(frames[i].payload) < CounterOf(frames[j].payload))
  }

  lemma {:induction false} ThroughIsAuthentic(mac: Mac, r: Receiver, frames: seq<Frame>)
    ensures Authentic(mac, r, Through(mac, r, frames))
    decreases |frames|
  {
    if frames != [] {
      ThroughIsAuthentic(mac, AfterUnwrap(mac, r, frames[0].payload), frames[1..]);
    }
  }

  lemma {:induction false} ThroughSubset(mac: Mac, r: Receiver, frames: seq<Frame>, f: Frame)
    requires f in Through(mac, r, frames)
    ensures f in frames
    decreases |frames|
  {
    if frames != [] && f in Through(mac, AfterUnwrap(mac, r, frames[0].payload), frames[1..]) {
      ThroughSubset(mac, AfterUnwrap(mac, r, frames[0].payload), frames[1..], f);
    }
  }

  lemma {:induction false} OutputIsOpened(mac: Mac, r: Receiver, frames: seq<Frame>)
    ensures Output(UpReact(mac), UpEmit(mac), r, frames) == Joined(Mapped(Opened, Through(mac, r, frames)))
    decreases |frames|
  {
    if frames != [] {
      var e, rest := frames[0].payload, frames[1..];
      var r' := AfterUnwrap(mac, r, e);
      ForwardedIs(mac, r, e);
      OutputIsOpened(mac, r', rest);
      if Unwrap(mac, r, e).Accepted? {
        JoinedStep(Opened, Through(mac, r, frames));
        assert Through(mac, r, frames)[1..] == Through(mac, r', rest);
      } else {
        assert Through(mac, r, frames) == Through(mac, r', rest);
      }
    }
  }

  /** Every frame the reader hands over ends somewhere in the raw bytes, by the parser's account. */
  lemma {:induction false} DeliveredIsParsed(local: byte, buffer: seq<byte>, raw: seq<byte>, f: Frame) returns (n: nat)
    requires f in Delivered(Initial(local, buffer), raw)
    ensures n <= |raw| && EndsFrame(raw[..n], local, |buffer|, f)
    decreases |raw|
  {
    var r, m := Initial(local, buffer), |raw| - 1;
    var past, b := raw[..m], raw[m];
    assert raw == past + [b];
    Snoc(r, past, b);
    if f in Delivered(r, past) {
      n := DeliveredIsParsed(local, buffer, past, f);
      assert past[..n] == raw[..n];
    } else {
      n := |raw|;
      assert raw[..n] == raw;
      ReaderRefinesParser(local, buffer, raw, f);
    }
  }

  /** For every byte stream at all, what the agent gets is the plain frames inside envelopes that
      were on the wire, each genuine, with strictly increasing counters (so none twice). */
  lemma UplinkIsAuthentic(mac: Mac, buffer: seq<byte>, raw: seq<byte>) returns (es: seq<Frame>)
    ensures Authentic(mac, FRESH, es) && Uplink(mac, buffer, raw) == Joined(Mapped(Opened, es))
    ensures forall e :: e in es ==> TagCovers(mac, e.payload) && Opened(e) == Encode(0, 0, e.payload[12..])
    ensures forall e :: e in es ==> exists n: nat :: n <= |raw| && EndsFrame(raw[..n], ADDR, |buffer|, e)
  {
    var r := Initial(ADDR, buffer);
    var frames := Delivered(r, raw);
    es := Through(mac, FRESH, frames);
    ThroughIsAuthentic(mac, FRESH, frames);
    RelayedFactors(UpReact(mac), UpEmit(mac), r, FRESH, raw);
    OutputIsOpened(mac, FRESH, frames);
    forall e | e in es
      ensures TagCovers(mac, e.payload) && Opened(e) == Encode(0, 0, e.payload[12..])
      ensures exists n: nat :: n <= |raw| && EndsFrame(raw[..n], ADDR, |buffer|, e)
    {
      GenuineIffCovered(mac, e.payload);
      ThroughSubset(mac, FRESH, frames, e);
      var n := DeliveredIsParsed(ADDR, buffer, raw, e);
    }
  }
}
