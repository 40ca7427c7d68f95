/** A CREATE message byte by byte: what the headers, the patched length, the packed ids and the
    aligned fields of `xrce/src/session.c` look like on the wire. */
module SessionWire {
  import opened Bytes
  import opened Cdr
  import opened CdrValues
  import opened Session

  /** 12 bits of id and 4 of kind, most significant first. */
  function IdBytes(o: ObjectId): seq<byte> {
    [o.id % 4096 / 16, 16 * (o.id % 16) + o.kind % 16]
  }

  function Le16(x: u16): seq<byte> {
    [x % 256, x / 256]
  }

  function Le32(x: nat): seq<byte> {
    [x % 256, x / 0x100 % 256, x / 0x1_0000 % 256, x / 0x100_0000 % 256]
  }

  /** Message header and submessage header. */
  function HeadBytes(c: Create, len: u16): seq<byte> {
    [c.session, c.stream] + Le16(c.seqNum) + c.key + [1, 1] + Le16(len)
  }

  /** Request id, object id, kind, and representation by XML string. */
  function ObjectBytes(c: Create): seq<byte> {
    [c.requestId / 256, c.requestId % 256] + IdBytes(c.oid) + [c.oid.kind, 2]
  }

  /** The domain number at the next even offset, or the parent's id. */
  function TailBytes(t: Tail, odd: bool): seq<byte> {
    match t
    case Domain(d) => (if odd then [0] else []) + Le16(d % 0x1_0000)
    case Parent(o) => IdBytes(o)
  }

  /** All of it, the XML's length at the next multiple of 4. */
  function CreateBytes(c: Create, len: u16): seq<byte> {
    HeadBytes(c, len) + ObjectBytes(c) + [0, 0] + Le32(|c.xml| + 1) + (c.xml + [0]) + TailBytes(c.tail,
        |c.xml| % 2 == 0)
  }

  lemma PackedBytes(o: ObjectId)
    ensures Packed(o) == IdBytes(o)
  {
    var q, r := o.id / 16, o.id % 16;
    ShiftedLow(o.id);
    LowTwelve(q, r);
    Sixteenths(q % 256, r);
  }

  lemma Sixteenths(q: nat, r: nat)
    requires r < 16
    ensures (16 * q + r) / 16 == q
  {
  }

  lemma LittleFour(x: nat)
    ensures Little(x, 4) == Le32(x)
  {
    LittleTwo(x);
    LittleTwo(x / 0x1_0000);
    var y := x / 256;
    assert Little(x, 4) == [Low8(x)] + Little(y, 3);
    assert Little(y, 3) == [Low8(y)] + Little(y / 256, 2);
    assert y / 256 == x / 0x1_0000;
  }

  /** One more primitive. */
  lemma Grown(lay: Layout, ps: seq<Prim>, was: seq<byte>, p: Prim, more: seq<byte>, qs: seq<Prim>, now: seq<byte>)
    requires IsCdr(lay) && Laying(lay, ps) == was && Laid(|was|, p) == more && qs == ps + [p] && now == was + more
    ensures Laying(lay, qs) == now
  {
    LayingSnoc(lay, ps, p);
    CdrLays(lay, |was|, p);
  }

  lemma OctetLaid(off: nat, x: byte)
    ensures Laid(off, Word(W1, x)) == [x]
  {
    assert Little(x, 1) == [Low8(x)] + Little(x / 256, 0);
  }

  lemma ShortLaid(off: nat, x: u16)
    ensures Laid(off, Word(W2, x)) == (if off % 2 == 1 then [0] else []) + Le16(x)
  {
    LittleTwo(x);
    assert Zeros(1) == [0] && Zeros(0) == [];
  }

  lemma LengthLaid(x: nat)
    ensures Laid(18, Word(W4, x)) == [0, 0] + Le32(x)
  {
    LittleFour(x);
    assert Zeros(2) == [0, 0];
  }

  lemma IdsLaid(lay: Layout, a: byte, b: byte)
    requires IsCdr(lay)
    ensures Laying(lay, [Word(W1, a), Word(W1, b)]) == [a, b]
  {
    OctetLaid(0, a);
    Grown(lay, [], [], Word(W1, a), [a], [Word(W1, a)], [a]);
    OctetLaid(1, b);
    Grown(lay, [Word(W1, a)], [a], Word(W1, b), [b], [Word(W1, a), Word(W1, b)], [a, b]);
  }

  lemma HeadLaid(lay: Layout, c: Create)
    requires IsCdr(lay) && |c.key| == 4
    ensures Laying(lay, Head(c)) == [c.session, c.stream] + Le16(c.seqNum) + c.key
  {
    var a, b, s, ids := Word(W1, c.session), Word(W1, c.stream), Word(W2, c.seqNum), [c.session, c.stream];
    IdsLaid(lay, c.session, c.stream);
    ShortLaid(2, c.seqNum);
    Grown(lay, [a, b], ids, s, Le16(c.seqNum), [a, b, s], ids + Le16(c.seqNum));
    Grown(lay, [a, b, s], ids + Le16(c.seqNum), Raw(c.key), c.key, Head(c), ids + Le16(c.seqNum) + c.key);
  }

  lemma FrontLaid(lay: Layout, c: Create, len: u16)
    requires IsCdr(lay) && |c.key| == 4
    ensures Laying(lay, Front(c) + [Word(W2, len)]) == HeadBytes(c, len)
  {
    var h, x, one := Head(c), [c.session, c.stream] + Le16(c.seqNum) + c.key, Word(W1, 1);
    HeadLaid(lay, c);
    OctetLaid(8, 1);
    Grown(lay, h, x, one, [1], h + [one], x + [1]);
    OctetLaid(9, 1);
    Grown(lay, h + [one], x + [1], one, [1], Front(c), x + [1, 1]);
    ShortLaid(10, len);
    Grown(lay, Front(c), x + [1, 1], Word(W2, len), Le16(len), Front(c) + [Word(W2, len)], HeadBytes(c, len));
  }

  /** The primitives of the body, up to the XML and behind it. */
  function ObjectPrims(c: Create): seq<Prim> {
    [Raw([c.requestId / 256, c.requestId % 256]), Raw(IdBytes(c.oid)), Word(W1, c.oid.kind), Word(W1, 2)]
  }

  function XmlPrims(c: Create): seq<Prim> {
    [Word(W4, |c.xml| + 1), Raw(c.xml + [0]), TailPrim(c.tail)]
  }

  function TailPrim(t: Tail): Prim {
    match t
    case Domain(d) => Word(W2, d % 0x1_0000)
    case Parent(o) => Raw(IdBytes(o))
  }

  lemma FlatXml(c: Create)
    ensures Flat(VBoth(VText(c.xml), TailValue(c.tail))) == XmlPrims(c)
  {
    if c.tail.Parent? {
      PackedBytes(c.tail.parent);
    }
  }

  lemma FlatFirst(x: Value, p: Prim, y: Value, rest: seq<Prim>)
    requires Flat(x) == [p] && Flat(y) == rest
    ensures Flat(VBoth(x, y)) == [p] + rest
  {
  }

  lemma Four<T>(a: T, b: T, c: T, d: T, rest: seq<T>)
    ensures [a] + ([b] + ([c] + ([d] + rest))) == [a, b, c, d] + rest
  {
  }

  lemma FlatBody(c: Create)
    ensures Flat(BodyValue(c)) == ObjectPrims(c) + XmlPrims(c)
  {
    PackedBytes(c.oid);
    FlatXml(c);
    var ps, rest := ObjectPrims(c), XmlPrims(c);
    var x := VBoth(VText(c.xml), TailValue(c.tail));
    var y := VBoth(VOctet(AS_XML_STRING), x);
    var z := VBoth(VOctet(c.oid.kind), y);
    FlatFirst(VOctet(AS_XML_STRING), ps[3], x, rest);
    FlatFirst(VOctet(c.oid.kind), ps[2], y, [ps[3]] + rest);
    FlatFirst(VBlob(Packed(c.oid)), ps[1], z, [ps[2]] + ([ps[3]] + rest));
    Four(ps[0], ps[1], ps[2], ps[3], rest);
  }

  lemma IdsOfObject(lay: Layout, c: Create, front: seq<Prim>, was: seq<byte>, req: seq<byte>, id: seq<byte>)
    requires IsCdr(lay) && Laying(lay, front) == was && req == [c.requestId / 256, c.requestId % 256] &&
        id == IdBytes(c.oid)
    ensures Laying(lay, front + ObjectPrims(c)[..2]) == was + (req + id)
  {
    var ps := ObjectPrims(c);
    Grown(lay, front, was, ps[0], req, front + [ps[0]], was + req);
    Grown(lay, front + [ps[0]], was + req, ps[1], id, front + ps[..2], was + (req + id));
  }

  lemma ObjectLaid(lay: Layout, c: Create, front: seq<Prim>, was: seq<byte>)
    requires IsCdr(lay) && Laying(lay, front) == was && |was| == 12
    ensures Laying(lay, front + ObjectPrims(c)) == was + ObjectBytes(c)
  {
    var ps, req, id, kind := ObjectPrims(c), [c.requestId / 256, c.requestId % 256], IdBytes(c.oid), c.oid.kind;
    IdsOfObject(lay, c, front, was, req, id);
    var mid := was + (req + id);
    OctetLaid(16, kind);
    Grown(lay, front + ps[..2], mid, ps[2], [kind], front + ps[..3], mid + [kind]);
    OctetLaid(17, 2);
    Grown(lay, front + ps[..3], mid + [kind], ps[3], [2], front + ps, mid + [kind, 2]);
    assert was + ((req + id) + [kind, 2]) == mid + [kind, 2];
  }

  lemma XmlLaid(lay: Layout, c: Create, front: seq<Prim>, was: seq<byte>, now: seq<byte>)
    requires IsCdr(lay) && Laying(lay, front) == was && |was| == 18
    requires now == was + [0, 0] + Le32(|c.xml| + 1) + (c.xml + [0])
    ensures Laying(lay, front + XmlPrims(c)) == now + TailBytes(c.tail, |c.xml| % 2 == 0)
  {
    var ps, n, tail := XmlPrims(c), |c.xml| + 1, TailBytes(c.tail, |c.xml| % 2 == 0);
    LengthLaid(n);
    Grown(lay, front, was, ps[0], [0, 0] + Le32(n), front + [ps[0]], was + [0, 0] + Le32(n));
    Grown(lay, front + [ps[0]], was + [0, 0] + Le32(n), ps[1], c.xml + [0], front + ps[..2], now);
    TailLaid(c.tail, |c.xml|);
    Grown(lay, front + ps[..2], now, ps[2], tail, front + ps, now + tail);
  }

  lemma TailLaid(t: Tail, n: nat)
    ensures Laid(25 + n, TailPrim(t)) == TailBytes(t, n % 2 == 0)
  {
    if t.Domain? {
      ShortLaid(25 + n, t.number % 0x1_0000);
    }
  }

  /** A CREATE, byte by byte. */
  lemma CreateOnWire(lay: Layout, c: Create, len: u16)
    requires IsCdr(lay) && |c.key| == 4
    ensures Encoded(lay, CreateValue(c, len)) == CreateBytes(c, len)
  {
    var front, was := Front(c) + [Word(W2, len)], HeadBytes(c, len);
    var now := was + ObjectBytes(c);
    FlatCreate(c, len);
    FlatBody(c);
    FrontLaid(lay, c, len);
    ObjectLaid(lay, c, front, was);
    XmlLaid(lay, c, front + ObjectPrims(c), now, now + [0, 0] + Le32(|c.xml| + 1) + (c.xml + [0]));
    assert front + (ObjectPrims(c) + XmlPrims(c)) == front + ObjectPrims(c) + XmlPrims(c);
  }
}
