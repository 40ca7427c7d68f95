/** The gateway of `host/secure_gateway.c` as functions: a serial reader in front of a reaction to
    each frame, once to verify and strip envelopes (uplink), once to add them (downlink). */
module Relay {
  import opened Bytes
  import opened Automata
  import opened Crc
  import opened Framing
  import opened FrameDelivery
  import opened Sha256Spec
  import opened SecureEnvelope

  const ADDR: byte := 0
  const MAX_PAYLOAD: nat := 512

  /** `XRCE_SERIAL_MAX_ENCODED_LEN`. */
  function MaxEncoded(n: nat): nat {
    1 + 2 * (4 + n + 2)
  }

  /** What is written while a reader in state `r` is fed `raw`, each frame handled as it is found. */
  function Relayed<S>(react: (S, Frame) -> S, emit: (S, Frame) -> seq<byte>, r: Reader, s: S, raw: seq<byte>): seq<byte>
    decreases |raw|
  {
    if raw == [] then []
    else
      var now := Handed(r, raw[0]);
      Output(react, emit, s, now) + Relayed(react, emit, Next(r, raw[0]), Run(react, s, now), raw[1..])
  }

  lemma RelayedStep<S>(react: (S, Frame) -> S, emit: (S, Frame) -> seq<byte>, r: Reader, s: S, raw: seq<byte>,
      sent: seq<byte>)
    requires raw != []
    ensures var now := Handed(r, raw[0]);
            sent + Relayed(react, emit, r, s, raw) ==
            sent + Output(react, emit, s, now) + Relayed(react, emit, Next(r, raw[0]), Run(react, s, now), raw[1..])
  {
    var now := Handed(r, raw[0]);
    Regroup(sent, Output(react, emit, s, now), Relayed(react, emit, Next(r, raw[0]), Run(react, s, now), raw[1..]));
  }

  lemma Regroup(a: seq<byte>, b: seq<byte>, c: seq<byte>)
    ensures a + (b + c) == a + b + c
  {
  }

  /** Handling frames as they are found is handling the list of all frames found. */
  lemma {:induction false} RelayedFactors<S>(react: (S, Frame) -> S, emit: (S, Frame) -> seq<byte>, r: Reader, s: S,
      raw: seq<byte>)
    ensures Relayed(react, emit, r, s, raw) == Output(react, emit, s, Delivered(r, raw))
    decreases |raw|
  {
    if raw != [] {
      var now, later := Handed(r, raw[0]), Delivered(Next(r, raw[0]), raw[1..]);
      RelayedFactors(react, emit, Next(r, raw[0]), Run(react, s, now), raw[1..]);
      OutputConcat(react, emit, s, now, later);
    }
  }

  lemma {:induction false} StuffAtMostDoubles(d: seq<byte>)
    ensures |Stuff(d)| <= 2 * |d|
  {
    if d != [] {
      StuffAtMostDoubles(d[..|d| - 1]);
    }
  }

  lemma EncodeFits(src: byte, dst: byte, payload: seq<byte>, n: nat)
    requires |payload| <= n
    ensures |Encode(src, dst, payload)| <= MaxEncoded(n)
  {
    StuffAtMostDoubles(Content(src, dst, payload, Crc16(payload)));
  }

  // ------------------------------------------------------------------ uplink

  /** `process_secure_frame`: the plain frame, or nothing. */
  function Forwarded(mac: Mac, r: Receiver, e: seq<byte>): seq<byte> {
    match Unwrap(mac, r, e)
    case Accepted(plain) =>
      if |Encode(ADDR, ADDR, plain)| <= MaxEncoded(MAX_PAYLOAD) then Encode(ADDR, ADDR, plain) else []
    case _ => []
  }

  function UpReact(mac: Mac): (Receiver, Frame) -> Receiver {
    (r: Receiver, f: Frame) => AfterUnwrap(mac, r, f.payload)
  }

  function UpEmit(mac: Mac): (Receiver, Frame) -> seq<byte> {
    (r: Receiver, f: Frame) => Forwarded(mac, r, f.payload)
  }

  /** Everything the agent gets for `raw` from the board, the gateway just started. */
  function Uplink(mac: Mac, buffer: seq<byte>, raw: seq<byte>): seq<byte> {
    Relayed(UpReact(mac), UpEmit(mac), Initial(ADDR, buffer), FRESH, raw)
  }

  /** An accepted payload always fits the output buffer. */
  lemma ForwardedIs(mac: Mac, r: Receiver, e: seq<byte>)
    ensures Forwarded(mac, r, e) ==
            if Genuine(mac, e) && IsNew(r, CounterOf(e)) then Encode(ADDR, ADDR, PlainOf(e)) else []
  {
    if Sized(e) {
      EncodeFits(ADDR, ADDR, PlainOf(e), MAX_PAYLOAD);
    }
  }

  // ---------------------------------------------------------------- downlink

  /** `wrap_and_encode`: the enveloped frame, or nothing. */
  function Wrapped(mac: Mac, counter: u32, payload: seq<byte>): seq<byte> {
    if |payload| > LIMIT || |payload| > MAX_PAYLOAD then []
    else
      var frame := Encode(ADDR, ADDR, Envelope(mac, counter, payload));
      if |frame| <= MaxEncoded(MAX_PAYLOAD + OVERHEAD) then frame else []
  }

  function NextCounter(counter: u32, payload: seq<byte>): u32 {
    if |payload| > LIMIT || |payload| > MAX_PAYLOAD then counter else (counter + 1) % WORD
  }

  function DownReact(): (u32, Frame) -> u32 {
    (counter: u32, f: Frame) => NextCounter(counter, f.payload)
  }

  function DownEmit(mac: Mac): (u32, Frame) -> seq<byte> {
    (counter: u32, f: Frame) => Wrapped(mac, counter, f.payload)
  }

  /** Everything the board gets for `raw` from the agent, the gateway just started. */
  function Downlink(mac: Mac, buffer: seq<byte>, raw: seq<byte>): seq<byte> {
    Relayed(DownReact(), DownEmit(mac), Initial(ADDR, buffer), 0, raw)
  }

  lemma WrappedIs(mac: Mac, counter: u32, payload: seq<byte>)
    ensures Wrapped(mac, counter, payload) ==
            if |payload| <= LIMIT then Encode(ADDR, ADDR, Envelope(mac, counter, payload)) else []
  {
    if |payload| <= LIMIT {
      EncodeFits(ADDR, ADDR, Envelope(mac, counter, payload), MAX_PAYLOAD + OVERHEAD);
    }
  }

  // ------------------------------------------------------- an honest sender

  /** One frame on the link, and what precedes it on the wire. */
  datatype Part = Part(noise: seq<byte>, src: byte, counter: u32, payload: seq<byte>)

  predicate PartOk(p: Part) {
    FLAG !in p.noise && |p.payload| <= LIMIT
  }

  predicate InOrder(r: Receiver, parts: seq<Part>) {
    && (forall i :: 0 <= i < |parts| ==> PartOk(parts[i]) && IsNew(r, parts[i].counter))
    && (forall i, j :: 0 <= i < j < |parts| ==> parts[i].counter < parts[j].counter)
  }

  function FrameOf(mac: Mac, p: Part): Frame {
    Frame(p.src, Envelope(mac, p.counter, p.payload))
  }

  function PartWire(mac: Mac): Part -> seq<byte> {
    (p: Part) => p.noise + Encode(p.src, ADDR, Envelope(mac, p.counter, p.payload))
  }

  function PartPlain(p: Part): seq<byte> {
    Encode(ADDR, ADDR, p.payload)
  }

  function Wire(mac: Mac, parts: seq<Part>): seq<byte> {
    Joined(Mapped(PartWire(mac), parts))
  }

  function PlainFrames(parts: seq<Part>): seq<byte> {
    Joined(Mapped(PartPlain, parts))
  }

  function Frames(mac: Mac, parts: seq<Part>): seq<Frame> {
    if parts == [] then [] else [FrameOf(mac, parts[0])] + Frames(mac, parts[1..])
  }

  lemma PartDelivered(mac: Mac, r: Reader, p: Part)
    requires Valid(r) && r.phase == WaitFlag && r.local == ADDR && |r.buffer| == MAX_PAYLOAD + OVERHEAD && PartOk(p)
    ensures Delivered(r, PartWire(mac)(p)) == [FrameOf(mac, p)]
    ensures After(r, PartWire(mac)(p)).phase == WaitFlag
  {
    var e := Envelope(mac, p.counter, p.payload);
    NoiseIgnored(r, p.noise);
    FrameDelivered(r, p.src, e);
    AfterConcat(r, p.noise, Encode(p.src, ADDR, e));
  }

  lemma {:induction false} WireDelivered(mac: Mac, r: Reader, parts: seq<Part>)
    requires Valid(r) && r.phase == WaitFlag && r.local == ADDR && |r.buffer| == MAX_PAYLOAD + OVERHEAD
    requires forall i :: 0 <= i < |parts| ==> PartOk(parts[i])
    ensures Delivered(r, Wire(mac, parts)) == Frames(mac, parts) && After(r, Wire(mac, parts)).phase == WaitFlag
    decreases |parts|
  {
    if parts != [] {
      var first := PartWire(mac)(parts[0]);
      PartDelivered(mac, r, parts[0]);
      AfterValid(r, first);
      WireDelivered(mac, After(r, first), parts[1..]);
      JoinedStep(PartWire(mac), parts);
      AfterConcat(r, first, Wire(mac, parts[1..]));
    }
  }

  lemma PartForwarded(mac: Mac, r: Receiver, p: Part)
    requires PartOk(p) && IsNew(r, p.counter)
    ensures UpEmit(mac)(r, FrameOf(mac, p)) == Encode(ADDR, ADDR, p.payload)
    ensures UpReact(mac)(r, FrameOf(mac, p)) == Receiver(p.counter, true)
  {
    EnvelopeIsGenuine(mac, p.counter, p.payload);
    ForwardedIs(mac, r, Envelope(mac, p.counter, p.payload));
  }

  lemma {:induction false} FramesForwarded(mac: Mac, r: Receiver, parts: seq<Part>)
    requires InOrder(r, parts)
    ensures Output(UpReact(mac), UpEmit(mac), r, Frames(mac, parts)) == PlainFrames(parts)
    decreases |parts|
  {
    if parts != [] {
      PartForwarded(mac, r, parts[0]);
      FramesForwarded(mac, Receiver(parts[0].counter, true), parts[1..]);
      JoinedStep(PartPlain, parts);
      assert Frames(mac, parts)[1..] == Frames(mac, parts[1..]);
    }
  }

  /** Transparency: whatever is lost between sender and gateway and whatever FLAG-free bytes
      arrive in between, the agent gets exactly the plain frames of the payloads. */
  lemma GatewayIsTransparent(mac: Mac, buffer: seq<byte>, parts: seq<Part>, tail: seq<byte>)
    requires |buffer| == MAX_PAYLOAD + OVERHEAD && InOrder(FRESH, parts) && FLAG !in tail
    ensures Uplink(mac, buffer, Wire(mac, parts) + tail) == PlainFrames(parts)
  {
    var r, wire := Initial(ADDR, buffer), Wire(mac, parts);
    WireDelivered(mac, r, parts);
    AfterValid(r, wire);
    NoiseIgnored(After(r, wire), tail);
    AfterConcat(r, wire, tail);
    assert Delivered(r, wire + tail) == Frames(mac, parts);
    RelayedFactors(UpReact(mac), UpEmit(mac), r, FRESH, wire + tail);
    FramesForwarded(mac, FRESH, parts);
  }
}
