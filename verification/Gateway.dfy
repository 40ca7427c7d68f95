/** `host/secure_gateway.c` with its readers and contexts updated in place, one byte at a time. */
module Gateway {
  import opened Bytes
  import opened Automata
  import opened Framing
  import opened SerialTransport
  import opened SecureEnvelope
  import opened SecureTransport
  import opened Relay

  /** `process_secure_frame`. */
  method ProcessSecureFrame(ctx: Context, e: seq<byte>, out: array<byte>, ghost mac: Mac) returns (n: nat)
    requires IsHmac(mac, ctx.key) && out.Length == MaxEncoded(MAX_PAYLOAD)
    modifies ctx, out
    ensures n <= out.Length && out[..n] == Forwarded(mac, old(ctx.Receiving()), e)
    ensures ctx.Receiving() == AfterUnwrap(mac, old(ctx.Receiving()), e) && ctx.sendCounter == old(ctx.sendCounter)
  {
    var verdict := ctx.Unwrap(e, mac);
    if !verdict.Accepted? {
      return 0;
    }
    n := FrameEncode(out, out.Length, ADDR, ADDR, verdict.plain);
  }

  /** `wrap_and_encode`. */
  method WrapAndEncode(ctx: Context, plain: seq<byte>, out: array<byte>, ghost mac: Mac) returns (n: nat)
    requires IsHmac(mac, ctx.key) && out.Length == MaxEncoded(MAX_PAYLOAD + OVERHEAD)
    modifies ctx, out
    ensures n <= out.Length && out[..n] == Wrapped(mac, old(ctx.sendCounter), plain)
    ensures ctx.sendCounter == NextCounter(old(ctx.sendCounter), plain)
    ensures ctx.Receiving() == old(ctx.Receiving())
  {
    var wrapped := new byte[MAX_PAYLOAD + OVERHEAD];
    var m := ctx.Wrap(plain, wrapped, mac);
    if m == 0 {
      return 0;
    }
    n := FrameEncode(out, out.Length, ADDR, ADDR, wrapped[..m]);
  }

  /** One byte from the board: what is written to the agent. */
  method BoardByte(reader: SerialReader, ctx: Context, b: byte, ghost mac: Mac) returns (sent: seq<byte>)
    requires Valid(reader.View()) && IsHmac(mac, ctx.key)
    modifies reader, reader.buffer, ctx
    ensures Valid(reader.View()) && reader.View() == Next(old(reader.View()), b)
    ensures ctx.Receiving() == Run(UpReact(mac), old(ctx.Receiving()), Handed(old(reader.View()), b))
    ensures sent == Output(UpReact(mac), UpEmit(mac), old(ctx.Receiving()), Handed(old(reader.View()), b))
  {
    ghost var r, s := reader.View(), ctx.Receiving();
    FeedValid(r, b);
    var e := reader.FeedByte(b);
    sent := [];
    if e.FrameReady? {
      ghost var f := Frame(e.src, reader.buffer[..e.len]);
      RunOne(UpReact(mac), UpEmit(mac), s, f);
      var out := new byte[MaxEncoded(MAX_PAYLOAD)];
      var n := ProcessSecureFrame(ctx, reader.buffer[..e.len], out, mac);
      sent := out[..n];
    }
  }

  /** One byte from the agent: what is written to the board. */
  method AgentByte(reader: SerialReader, ctx: Context, b: byte, ghost mac: Mac) returns (sent: seq<byte>)
    requires Valid(reader.View()) && IsHmac(mac, ctx.key)
    modifies reader, reader.buffer, ctx
    ensures Valid(reader.View()) && reader.View() == Next(old(reader.View()), b)
    ensures ctx.sendCounter == Run(DownReact(), old(ctx.sendCounter), Handed(old(reader.View()), b))
    ensures sent == Output(DownReact(), DownEmit(mac), old(ctx.sendCounter), Handed(old(reader.View()), b))
  {
    ghost var r, c := reader.View(), ctx.sendCounter;
    FeedValid(r, b);
    var e := reader.FeedByte(b);
    sent := [];
    if e.FrameReady? {
      ghost var f := Frame(e.src, reader.buffer[..e.len]);
      RunOne(DownReact(), DownEmit(mac), c, f);
      var out := new byte[MaxEncoded(MAX_PAYLOAD + OVERHEAD)];
      ghost var next := DownReact()(c, f);
      assert next == NextCounter(c, f.payload);
      var n := WrapAndEncode(ctx, reader.buffer[..e.len], out, mac);
      sent := out[..n];
    }
  }

  /** The uplink half of the main loop, from start-up until the board closes the link. */
  method RunUplink(key: seq<byte>, raw: seq<byte>, ghost mac: Mac) returns (sent: seq<byte>)
    requires IsHmac(mac, key)
    ensures sent == Uplink(mac, UpBuffer(), raw)
  {
    var buffer := new byte[MAX_PAYLOAD + OVERHEAD](_ => 0);
    assert buffer[..] == UpBuffer();
    var reader := new SerialReader(ADDR, buffer);
    var ctx := new Context(key);
    sent := [];
    ghost var react, emit := UpReact(mac), UpEmit(mac);
    assert raw[0..] == raw;
    for i := 0 to |raw|
      invariant reader.buffer == buffer && Valid(reader.View()) && ctx.key == key
      invariant sent + Relayed(react, emit, reader.View(), ctx.Receiving(), raw[i..]) == Uplink(mac, UpBuffer(), raw)
    {
      RelayedStep(react, emit, reader.View(), ctx.Receiving(), raw[i..], sent);
      var more := BoardByte(reader, ctx, raw[i], mac);
      assert raw[i..][1..] == raw[i + 1..];
      sent := sent + more;
    }
  }

  /** The payload buffer as a static array starts out. */
  function UpBuffer(): (r: seq<byte>)
    ensures |r| == MAX_PAYLOAD + OVERHEAD
  {
    Zeros(MAX_PAYLOAD + OVERHEAD)
  }
}
