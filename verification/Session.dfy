/** CREATE messages of `xrce/src/session.c`: the packed object id, the message and submessage
    headers, and a length that is written as zero and patched in afterwards. */
module Session {
  import opened Options
  import opened Bytes
  import opened Cdr
  import opened CdrValues
  import opened CdrStream

  const SUBMSG_CREATE: byte := 1
  const FLAG_LE: byte := 1
  const AS_XML_STRING: byte := 2

  // --------------------------------------------------------------- object id

  datatype ObjectId = ObjectId(id: u16, kind: byte)

  /** `write_object_id`: 12 bits of id above 4 bits of kind. */
  function Packed(o: ObjectId): (r: seq<byte>)
    ensures |r| == 2
  {
    [Low8(o.id / 16), Low8(o.id * 16) + o.kind % 16]
  }

  /** `read_object_id`. */
  function Unpacked(raw: seq<byte>): ObjectId
    requires |raw| == 2
  {
    var high: nat := raw[0];
    ObjectId(high * 16 + raw[1] / 16, raw[1] % 16)
  }

  /** Unpacking gives back the low 12 bits of the id and the low 4 of the kind: everything exactly
      when id and kind are within those. */
  lemma PackedRoundTrip(o: ObjectId)
    ensures Unpacked(Packed(o)) == ObjectId(o.id % 4096, o.kind % 16)
    ensures Unpacked(Packed(o)) == o <==> o.id < 4096 && o.kind < 16
  {
    Nibbles(o.id, o.kind % 16);
  }

  lemma Nibbles(id: u16, k: nat)
    requires k < 16
    ensures Low8(id * 16) + k < 256
    ensures Low8(id / 16) * 16 + (Low8(id * 16) + k) / 16 == id % 4096 && (Low8(id * 16) + k) % 16 == k
  {
    var q, r := id / 16, id % 16;
    ShiftedLow(id);
    NibbleSum(r, k);
    LowTwelve(q, r);
  }

  lemma ShiftedLow(id: nat)
    ensures (id * 16) % 256 == 16 * (id % 16)
  {
  }

  lemma NibbleSum(r: nat, k: nat)
    requires r < 16 && k < 16
    ensures (16 * r + k) / 16 == r && (16 * r + k) % 16 == k
  {
  }

  lemma LowTwelve(q: nat, r: nat)
    requires r < 16
    ensures (16 * q + r) % 4096 == 16 * (q % 256) + r
  {
    var h := q / 256;
    assert 16 * q + r == 4096 * h + (16 * (q % 256) + r);
  }

  // ---------------------------------------------------------------- messages

  datatype Tail = Domain(number: int) | Parent(parent: ObjectId)

  datatype Create = Create(
    session: byte, stream: byte, seqNum: u16, key: seq<byte>, requestId: u16, oid: ObjectId, xml: seq<byte>, tail: Tail)

  predicate CreateOk(c: Create) {
    && |c.key| == 4 && 0 !in c.xml
    && (c.tail.Domain? ==> -0x8000 <= c.tail.number < 0x8000)
  }

  /** The XML string is within the 32-bit length field. */
  predicate XmlFits(c: Create) {
    |c.xml| + 1 < Limit(W4)
  }

  /** `write_u16`: through the signed writer. */
  function U16(x: u16): Value {
    VShort(ToSigned(x, 0x1_0000))
  }

  /** `write_message_header`. */
  function HeaderValue(c: Create): Value {
    VBoth(VOctet(c.session), VBoth(VOctet(c.stream), VBoth(U16(c.seqNum), VBlob(c.key))))
  }

  /** The submessage header, with its length field. */
  function SubheaderValue(len: u16): Value {
    VBoth(VOctet(SUBMSG_CREATE), VBoth(VOctet(FLAG_LE), U16(len)))
  }

  function TailValue(t: Tail): Value {
    match t
    case Domain(d) => VShort(d)
    case Parent(o) => VBlob(Packed(o))
  }

  /** Request id (big endian), object id, kind, representation, XML, then domain or parent. */
  function BodyValue(c: Create): Value {
    VBoth(VBlob([Low8(c.requestId / 256), Low8(c.requestId)]), VBoth(VBlob(Packed(c.oid)),
      VBoth(VOctet(c.oid.kind), VBoth(VOctet(AS_XML_STRING), VBoth(VText(c.xml), TailValue(c.tail))))))
  }

  function CreateValue(c: Create, len: u16): Value {
    VBoth(HeaderValue(c), VBoth(SubheaderValue(len), BodyValue(c)))
  }

  function CreateType(participant: bool, cap: nat): Type {
    Both(HeadType(), Both(SubheadType(), BodyType(participant, cap)))
  }

  function HeadType(): Type {
    Both(Octet, Both(Octet, Both(Short, Blob(4))))
  }

  function SubheadType(): Type {
    Both(Octet, Both(Octet, Short))
  }

  function BodyType(participant: bool, cap: nat): Type {
    Both(Blob(2), Both(Blob(2), Both(Octet, Both(Octet, Both(Text(cap), if participant then Short else Blob(2))))))
  }

  // -------------------------------------------------------------- backpatching

  /** Two primitives of the same size everywhere. */
  ghost predicate SameSize(lay: Layout, p: Prim, q: Prim) {
    forall off: nat :: |lay(off, p)| == |lay(off, q)|
  }

  /** Exchanging one primitive for another of the same size changes just its own bytes. */
  lemma {:induction false} Patched(lay: Layout, pre: seq<Prim>, p: Prim, q: Prim, post: seq<Prim>)
    requires SameSize(lay, p, q)
    ensures var a := |Laying(lay, pre)|; var b := a + |lay(a, p)|; var was := Laying(lay, pre + [p] + post);
            b <= |was| && Laying(lay, pre + [q] + post) == was[..a] + lay(a, q) + was[b..]
    decreases |post|
  {
    if post == [] {
      assert pre + [p] + post == pre + [p] && pre + [q] + post == pre + [q];
      LayingSnoc(lay, pre, p);
      LayingSnoc(lay, pre, q);
    } else {
      var n := |post| - 1;
      Patched(lay, pre, p, q, post[..n]);
      assert pre + [p] + post == pre + [p] + post[..n] + [post[n]];
      assert pre + [q] + post == pre + [q] + post[..n] + [post[n]];
      var a := |Laying(lay, pre)|;
      PatchedSnoc(lay, pre + [p] + post[..n], pre + [q] + post[..n], post[n], a, lay(a, q), a + |lay(a, p)|);
    }
  }

  lemma PatchedSnoc(lay: Layout, xs: seq<Prim>, ys: seq<Prim>, z: Prim, a: nat, mid: seq<byte>, b: nat)
    requires a <= b <= |Laying(lay, xs)| && |mid| == b - a
    requires Laying(lay, ys) == Laying(lay, xs)[..a] + mid + Laying(lay, xs)[b..]
    ensures b <= |Laying(lay, xs + [z])|
    ensures Laying(lay, ys + [z]) == Laying(lay, xs + [z])[..a] + mid + Laying(lay, xs + [z])[b..]
  {
    LayingSnoc(lay, xs, z);
    LayingSnoc(lay, ys, z);
    PatchAppend(Laying(lay, xs), a, mid, b, lay(|Laying(lay, xs)|, z));
  }

  lemma PatchAppend(was: seq<byte>, a: nat, mid: seq<byte>, b: nat, tail: seq<byte>)
    requires a <= b <= |was|
    ensures was[..a] + mid + was[b..] + tail == (was + tail)[..a] + mid + (was + tail)[b..]
  {
    assert (was + tail)[b..] == was[b..] + tail;
  }

  lemma LengthWords(lay: Layout, x: u16, y: u16)
    requires IsCdr(lay)
    ensures SameSize(lay, Word(W2, x), Word(W2, y))
    ensures lay(10, Word(W2, x)) == [Low8(x), Low8(x / 256)]
  {
    forall off: nat
      ensures |lay(off, Word(W2, x))| == |lay(off, Word(W2, y))|
    {
      CdrLays(lay, off, Word(W2, x));
      CdrLays(lay, off, Word(W2, y));
    }
    CdrLays(lay, 10, Word(W2, x));
    LittleTwo(x);
  }

  lemma LittleTwo(x: nat)
    ensures Little(x, 2) == [Low8(x), Low8(x / 256)]
  {
    assert Little(x / 256, 1) == [Low8(x / 256)] + Little(x / 256 / 256, 0);
  }

  lemma U16Word(x: u16)
    ensures Flat(U16(x)) == [Word(W2, x)]
  {
    assert ToSigned(x, 0x1_0000) % 0x1_0000 == x;
  }

  /** The primitives of the message header, and those in front of the length field. */
  function Head(c: Create): seq<Prim> {
    [Word(W1, c.session), Word(W1, c.stream), Word(W2, c.seqNum), Raw(c.key)]
  }

  const SUBHEAD: seq<Prim> := [Word(W1, SUBMSG_CREATE), Word(W1, FLAG_LE)]

  function Front(c: Create): seq<Prim> {
    Head(c) + SUBHEAD
  }

  lemma FlatHead(c: Create)
    ensures Flat(HeaderValue(c)) == Head(c)
  {
    U16Word(c.seqNum);
    var x := VBoth(U16(c.seqNum), VBlob(c.key));
    assert Flat(x) == [Word(W2, c.seqNum), Raw(c.key)];
    assert Flat(VBoth(VOctet(c.stream), x)) == [Word(W1, c.stream), Word(W2, c.seqNum), Raw(c.key)];
  }

  lemma FlatSubhead(len: u16)
    ensures Flat(SubheaderValue(len)) == SUBHEAD + [Word(W2, len)]
  {
    U16Word(len);
    assert Flat(VBoth(VOctet(FLAG_LE), U16(len))) == [Word(W1, FLAG_LE), Word(W2, len)];
  }

  lemma OneMore(lay: Layout, ps: seq<Prim>, p: Prim, off: nat, qs: seq<Prim>)
    requires IsCdr(lay) && |Laying(lay, ps)| == off && qs == ps + [p]
    ensures |Laying(lay, qs)| == off + |Laid(off, p)|
  {
    LayingSnoc(lay, ps, p);
    CdrLays(lay, off, p);
  }

  lemma LaidOctet(off: nat, x: nat)
    ensures |Laid(off, Word(W1, x))| == 1
  {
  }

  lemma LaidShort(off: nat, x: nat)
    requires off % 2 == 0
    ensures |Laid(off, Word(W2, x))| == 2
  {
  }

  /** Session id and stream id. */
  lemma SizeOfIds(lay: Layout, a: nat, b: nat)
    requires IsCdr(lay)
    ensures |Laying(lay, [Word(W1, a), Word(W1, b)])| == 2
  {
    OneMore(lay, [], Word(W1, a), 0, [Word(W1, a)]);
    LaidOctet(0, a);
    OneMore(lay, [Word(W1, a)], Word(W1, b), 1, [Word(W1, a), Word(W1, b)]);
    LaidOctet(1, b);
  }

  lemma SizeWithSeq(lay: Layout, a: nat, b: nat, x: nat)
    requires IsCdr(lay)
    ensures |Laying(lay, [Word(W1, a), Word(W1, b), Word(W2, x)])| == 4
  {
    SizeOfIds(lay, a, b);
    OneMore(lay, [Word(W1, a), Word(W1, b)], Word(W2, x), 2, [Word(W1, a), Word(W1, b), Word(W2, x)]);
    LaidShort(2, x);
  }

  /** The message header takes 8 bytes, */
  lemma SizeOfHead(lay: Layout, c: Create)
    requires IsCdr(lay) && |c.key| == 4
    ensures |Laying(lay, Head(c))| == 8
  {
    SizeWithSeq(lay, c.session, c.stream, c.seqNum);
    OneMore(lay, [Word(W1, c.session), Word(W1, c.stream), Word(W2, c.seqNum)], Raw(c.key), 4, Head(c));
  }

  /** the length field is at offset 10, */
  lemma SizeOfFront(lay: Layout, c: Create)
    requires IsCdr(lay) && |c.key| == 4
    ensures |Laying(lay, Front(c))| == 10
  {
    SizeOfHead(lay, c);
    var h, a, b := Head(c), Word(W1, SUBMSG_CREATE), Word(W1, FLAG_LE);
    OneMore(lay, h, a, 8, h + [a]);
    LaidOctet(8, SUBMSG_CREATE);
    OneMore(lay, h + [a], b, 9, Front(c));
    LaidOctet(9, FLAG_LE);
  }

  /** and the payload starts at 12. */
  lemma SizeWithLength(lay: Layout, c: Create, len: u16)
    requires IsCdr(lay) && |c.key| == 4
    ensures |Laying(lay, Front(c) + [Word(W2, len)])| == 12
  {
    SizeOfFront(lay, c);
    OneMore(lay, Front(c), Word(W2, len), 10, Front(c) + [Word(W2, len)]);
    LaidShort(10, len);
  }

  lemma Regroup(h: seq<Prim>, a: seq<Prim>, l: seq<Prim>, body: seq<Prim>)
    ensures h + ((a + l) + body) == h + a + l + body && h + (a + l) == h + a + l
  {
  }

  lemma FlatCreate(c: Create, len: u16)
    ensures Flat(CreateValue(c, len)) == Front(c) + [Word(W2, len)] + Flat(BodyValue(c))
    ensures Flat(HeaderValue(c)) + Flat(SubheaderValue(len)) == Front(c) + [Word(W2, len)]
  {
    FlatHead(c);
    FlatSubhead(len);
    Regroup(Head(c), SUBHEAD, [Word(W2, len)], Flat(BodyValue(c)));
    assert Flat(VBoth(SubheaderValue(len), BodyValue(c))) == (SUBHEAD + [Word(W2, len)]) + Flat(BodyValue(c));
  }

  /** Writing with length 0 and patching bytes 10 and 11 is writing with the right length. */
  lemma BackpatchIs(lay: Layout, c: Create, len: u16)
    requires IsCdr(lay) && |c.key| == 4
    ensures var was := Encoded(lay, CreateValue(c, 0));
            |was| >= 12 && Encoded(lay, CreateValue(c, len)) == was[..10] + [Low8(len), Low8(len / 256)] + was[12..]
  {
    FlatCreate(c, 0);
    FlatCreate(c, len);
    SizeOfFront(lay, c);
    LengthWords(lay, 0, len);
    LengthWords(lay, len, 0);
    Patched(lay, Front(c), Word(W2, 0), Word(W2, len), Flat(BodyValue(c)));
  }

  // ----------------------------------------------------------------- building

  /** `++` on a `uint16_t`. */
  function Bump(x: u16): u16 {
    if x == 0xFFFF then 0 else x + 1
  }

  lemma BumpIs(x: u16)
    ensures Bump(x) == (x + 1) % 0x1_0000
  {
  }

  /** A counter after `n` messages. */
  function Bumped(x: u16, n: nat): u16 {
    if n == 0 then x else Bump(Bumped(x, n - 1))
  }

  /** The number of message `n` is the first number plus `n`, in 16 bits. */
  lemma {:induction false} NumberOfMessage(x: u16, n: nat)
    ensures Bumped(x, n) == (x + n) % 0x1_0000
  {
    if n > 0 {
      var m := x + (n - 1);
      NumberOfMessage(x, n - 1);
      BumpIs(Bumped(x, n - 1));
      NextIn16(m);
      assert m + 1 == x + n;
    }
  }

  lemma NextIn16(m: nat)
    ensures (m % 0x1_0000 + 1) % 0x1_0000 == (m + 1) % 0x1_0000
  {
  }

  /** `xrce_session_t`. */
  class XrceSession {
    const sessionId: byte
    const clientKey: seq<byte>
    var nextRequestId: u16
    var outSeqNum: u16

    /** `xrce_session_init`. */
    constructor (sessionId: byte, clientKey: seq<byte>)
      ensures this.sessionId == sessionId && this.clientKey == clientKey && nextRequestId == 9 && outSeqNum == 0
    {
      this.sessionId, this.clientKey := sessionId, clientKey;
      nextRequestId, outSeqNum := 9, 0;
    }

    /** The message that would be built now. */
    function Next(stream: byte, oid: ObjectId, xml: seq<byte>, tail: Tail): Create
      reads this
    {
      Create(sessionId, stream, outSeqNum, clientKey, nextRequestId, oid, xml, tail)
    }

    /** `build_create`: 0 if the message does not fit, else its length, with the message in `buf`. */
    method BuildCreate(stream: byte, oid: ObjectId, xml: seq<byte>, tail: Tail, buf: array<byte>, ghost lay: Layout)
        returns (n: nat)
      requires IsCdr(lay) && CreateOk(Next(stream, oid, xml, tail))
      modifies this, buf
      ensures var c := old(Next(stream, oid, xml, tail)); var total := |Encoded(lay, CreateValue(c, 0))|;
              && total >= 12 && n == (if XmlFits(c) && total <= buf.Length then total else 0)
              && (n > 0 ==> buf[..n] == Encoded(lay, CreateValue(c, (n - 12) % 0x1_0000)))
      ensures outSeqNum == (if 8 <= buf.Length then (old(outSeqNum) + 1) % 0x1_0000 else old(outSeqNum))
      ensures nextRequestId == (if 12 <= buf.Length then (old(nextRequestId) + 1) % 0x1_0000 else old(nextRequestId))
    {
      var c := Next(stream, oid, xml, tail);
      ghost var h, f, all := Head(c), Front(c) + [Word(W2, 0)], Flat(CreateValue(c, 0));
      WholeIsLonger(lay, c, all);
      n := 0;
      var w := new Writer(buf);
      var ok := WriteMessageHeader(w, c, lay, h);
      if !ok {
        return;
      }
      BumpIs(outSeqNum);
      outSeqNum := Bump(outSeqNum);
      var headerPos := w.pos;
      ok := SubmessageHeaderAt(w, c, lay, h, f);
      if !ok {
        return;
      }
      var payloadStart := w.pos;
      BumpIs(nextRequestId);
      nextRequestId := Bump(nextRequestId);
      ok := WriteBody(w, c, lay, f, all);
      if !ok {
        return;
      }
      n := w.pos;
      Patch(c, buf, headerPos, payloadStart, n, lay);
    }
  }

  /** `write_message_header`: 8 bytes. */
  method WriteMessageHeader(w: Writer, c: Create, ghost lay: Layout, ghost h: seq<Prim>) returns (ok: bool)
    requires IsCdr(lay) && CreateOk(c) && w.Holds(lay, []) && w.alignBase == 0 && h == Head(c)
    modifies w`pos, w.buf
    ensures w.Valid() && (ok <==> 8 <= w.buf.Length)
    ensures ok ==> w.Holds(lay, h) && w.pos == 8
  {
    FlatHead(c);
    SizeOfHead(lay, c);
    HeadParts(c);
    assert [] + h == h;
    ok := w.WriteValue(HeaderValue(c), lay, []);
  }

  /** `submessage_header_at`: 4 bytes, the length still 0. */
  method SubmessageHeaderAt(w: Writer, c: Create, ghost lay: Layout, ghost h: seq<Prim>, ghost f: seq<Prim>)
    returns (ok: bool)
    requires IsCdr(lay) && CreateOk(c) && w.Holds(lay, h) && w.alignBase == 0
    requires h == Head(c) && f == Front(c) + [Word(W2, 0)]
    modifies w`pos, w.buf
    ensures w.Valid() && (ok <==> 12 <= w.buf.Length)
    ensures ok ==> w.Holds(lay, f) && w.pos == 12
  {
    FlatSubhead(0);
    SizeWithLength(lay, c, 0);
    HeadParts(c);
    assert h + (SUBHEAD + [Word(W2, 0)]) == f;
    ok := w.WriteValue(SubheaderValue(0), lay, h);
  }

  /** The payload. */
  method WriteBody(w: Writer, c: Create, ghost lay: Layout, ghost f: seq<Prim>, ghost all: seq<Prim>) returns (ok: bool)
    requires IsCdr(lay) && w.Holds(lay, f) && w.alignBase == 0
    modifies w`pos, w.buf
    ensures w.Valid()
    ensures f == Front(c) + [Word(W2, 0)] && all == Flat(CreateValue(c, 0)) ==>
              && (ok <==> XmlFits(c) && |Laying(lay, all)| <= w.buf.Length)
              && (ok ==> w.Holds(lay, all))
  {
    FlatCreate(c, 0);
    BodyParts(c);
    ok := w.WriteValue(BodyValue(c), lay, f);
  }

  lemma WholeIsLonger(lay: Layout, c: Create, all: seq<Prim>)
    requires IsCdr(lay) && CreateOk(c) && all == Flat(CreateValue(c, 0))
    ensures |Laying(lay, all)| >= 12
  {
    FlatCreate(c, 0);
    SizeWithLength(lay, c, 0);
    LayingPrefix(lay, Front(c) + [Word(W2, 0)], Flat(BodyValue(c)));
  }

  /** The length goes in last: what is behind the submessage header, in 16 bits. */
  method Patch(c: Create, buf: array<byte>, headerPos: nat, payloadStart: nat, n: nat, ghost lay: Layout)
    requires IsCdr(lay) && CreateOk(c) && headerPos == 8 && payloadStart == 12 <= n <= buf.Length
    requires buf[..n] == Encoded(lay, CreateValue(c, 0))
    modifies buf
    ensures buf[..n] == Encoded(lay, CreateValue(c, (n - 12) % 0x1_0000))
  {
    var len := n - payloadStart;
    Backpatch(buf, headerPos, len, n);
    BackpatchIs(lay, c, len % 0x1_0000);
    PatchBytes(len);
  }

  lemma HeadParts(c: Create)
    ensures Countable(HeaderValue(c)) && TextsFit(HeaderValue(c))
    ensures Countable(SubheaderValue(0)) && TextsFit(SubheaderValue(0))
  {
    BothParts(U16(c.seqNum), VBlob(c.key));
    BothParts(VOctet(c.stream), VBoth(U16(c.seqNum), VBlob(c.key)));
    BothParts(VOctet(FLAG_LE), U16(0));
  }

  lemma BodyParts(c: Create)
    ensures Countable(BodyValue(c)) && (TextsFit(BodyValue(c)) <==> XmlFits(c))
  {
    var x := VBoth(VText(c.xml), TailValue(c.tail));
    var y := VBoth(VOctet(AS_XML_STRING), x);
    BothParts(VText(c.xml), TailValue(c.tail));
    BothParts(VOctet(AS_XML_STRING), x);
    BothParts(VOctet(c.oid.kind), y);
    BothParts(VBlob(Packed(c.oid)), VBoth(VOctet(c.oid.kind), y));
  }

  /** `backpatch_length`. */
  method Backpatch(buf: array<byte>, headerPos: nat, len: nat, ghost n: nat)
    requires headerPos + 4 <= n <= buf.Length
    modifies buf
    ensures buf[..n] == old(buf[..n])[..headerPos + 2] + [Low8(len), Low8(len / 256)] + old(buf[..n])[headerPos + 4..]
  {
    buf[headerPos + 2] := Low8(len);
    buf[headerPos + 3] := Low8(len / 256);
  }

  /** Only the low 16 bits of the length get in. */
  lemma PatchBytes(len: nat)
    ensures Low8(len % 0x1_0000) == Low8(len) && Low8(len % 0x1_0000 / 256) == Low8(len / 256)
  {
    var q := len / 0x1_0000;
    assert len == 0x1_0000 * q + len % 0x1_0000;
    assert len / 256 == 256 * q + len % 0x1_0000 / 256;
  }

  // ------------------------------------------------------------- reading back

  lemma HeadFits(c: Create, len: u16)
    requires CreateOk(c)
    ensures Fits(HeadType(), HeaderValue(c))
    ensures Fits(SubheadType(), SubheaderValue(len))
  {
    FitsBoth(Short, Blob(4), U16(c.seqNum), VBlob(c.key));
    FitsBoth(Octet, Both(Short, Blob(4)), VOctet(c.stream), VBoth(U16(c.seqNum), VBlob(c.key)));
    FitsBoth(Octet, Short, VOctet(FLAG_LE), U16(len));
  }

  lemma BodyFits(c: Create, cap: nat)
    requires CreateOk(c) && XmlFits(c) && |c.xml| + 1 <= cap
    ensures Fits(BodyType(c.tail.Domain?, cap), BodyValue(c))
  {
    var t := if c.tail.Domain? then Short else Blob(2);
    var x := VBoth(VText(c.xml), TailValue(c.tail));
    FitsBoth(Text(cap), t, VText(c.xml), TailValue(c.tail));
    FitsBoth(Octet, Both(Text(cap), t), VOctet(AS_XML_STRING), x);
    FitsBoth(Octet, Both(Octet, Both(Text(cap), t)), VOctet(c.oid.kind), VBoth(VOctet(AS_XML_STRING), x));
    FitsBoth(Blob(2), Both(Octet, Both(Octet, Both(Text(cap), t))), VBlob(Packed(c.oid)),
             VBoth(VOctet(c.oid.kind), VBoth(VOctet(AS_XML_STRING), x)));
  }

  lemma CreateFits(c: Create, len: u16, cap: nat)
    requires CreateOk(c) && XmlFits(c) && |c.xml| + 1 <= cap
    ensures Fits(CreateType(c.tail.Domain?, cap), CreateValue(c, len))
  {
    HeadFits(c, len);
    BodyFits(c, cap);
    FitsBoth(SubheadType(), BodyType(c.tail.Domain?, cap), SubheaderValue(len), BodyValue(c));
  }

  /** The fields of a received CREATE as they come off the wire. */
  datatype Fields =
    | Fields(session: byte, stream: byte, seqNum: int, key: seq<byte>, id: byte, flags: byte, len: int,
             request: seq<byte>, oid: seq<byte>, kind: byte, representation: byte, xml: seq<byte>, tail: Value)
    | Malformed

  function FieldsOf(v: Value): Fields {
    match v
    case VBoth(VBoth(VOctet(session), VBoth(VOctet(stream), VBoth(VShort(s), VBlob(key)))),
               VBoth(VBoth(VOctet(id), VBoth(VOctet(flags), VShort(len))), body)) =>
      (match body
       case VBoth(VBlob(req), VBoth(VBlob(raw), VBoth(VOctet(kind), VBoth(VOctet(rep), VBoth(VText(xml), tail))))) =>
         Fields(session, stream, s, key, id, flags, len, req, raw, kind, rep, xml, tail)
       case _ => Malformed)
    case _ => Malformed
  }

  lemma FieldsAre(c: Create, len: u16)
    ensures FieldsOf(CreateValue(c, len)) ==
            Fields(c.session, c.stream, ToSigned(c.seqNum, 0x1_0000), c.key, SUBMSG_CREATE, FLAG_LE, ToSigned(len,
                0x1_0000),
                   [Low8(c.requestId / 256), Low8(c.requestId)], Packed(c.oid), c.oid.kind, AS_XML_STRING, c.xml,
                       TailValue(c.tail))
  {
  }

  /** `(uint16_t)` of a signed field. */
  function FromShort(x: int): u16 {
    x % 0x1_0000
  }

  lemma ShortBack(x: u16)
    ensures FromShort(ToSigned(x, 0x1_0000)) == x
  {
  }

  predicate CarriesId(raw: seq<byte>, o: ObjectId) {
    |raw| == 2 && Unpacked(raw) == ObjectId(o.id % 4096, o.kind % 16)
  }

  predicate CarriesRequest(req: seq<byte>, id: u16) {
    |req| == 2 && Join16(req[1], req[0]) == id
  }

  predicate CarriesTail(v: Value, t: Tail) {
    match t
    case Domain(d) => v == VShort(d)
    case Parent(o) => v.VBlob? && CarriesId(v.data, o)
  }

  /** The fields say what `c` says, ids in their 12 and 4 bits, with length `len`. */
  predicate Carries(f: Fields, c: Create, len: u16) {
    && f.Fields? && f.session == c.session && f.stream == c.stream && FromShort(f.seqNum) == c.seqNum && f.key == c.key
    && f.id == SUBMSG_CREATE && f.flags == FLAG_LE && FromShort(f.len) == len
    && CarriesRequest(f.request, c.requestId) && CarriesId(f.oid, c.oid) && f.kind == c.oid.kind
    && f.representation == AS_XML_STRING && f.xml == c.xml && CarriesTail(f.tail, c.tail)
  }

  lemma RequestCarries(id: u16)
    ensures CarriesRequest([Low8(id / 256), Low8(id)], id)
  {
    Join16Split(id);
  }

  lemma IdCarries(o: ObjectId)
    ensures CarriesId(Packed(o), o)
  {
    PackedRoundTrip(o);
  }

  lemma FieldsBack(c: Create, len: u16)
    ensures Carries(FieldsOf(CreateValue(c, len)), c, len)
  {
    FieldsAre(c, len);
    ShortBack(c.seqNum);
    ShortBack(len);
    RequestCarries(c.requestId);
    IdCarries(c.oid);
    if c.tail.Parent? {
      IdCarries(c.tail.parent);
    }
  }

  /** A CREATE read field by field gives back every field, ends exactly at the returned length, and
      carries the number of bytes behind its submessage header, in 16 bits. */
  lemma CreateRoundTrip(lay: Layout, c: Create, cap: nat, src: Source, buf: seq<byte>, after: seq<byte>)
    requires IsCdr(lay) && CreateOk(c) && XmlFits(c) && |c.xml| + 1 <= cap
    requires var n := |Encoded(lay, CreateValue(c, 0))|;
             buf == Encoded(lay, CreateValue(c, (n - 12) % 0x1_0000)) + after && Over(src, buf, 0)
    ensures var n := |Encoded(lay, CreateValue(c, 0))|; var r := Reader(CreateType(c.tail.Domain?, cap), src)(0);
            r.Some? && r.value.next == n && Carries(FieldsOf(r.value.value), c, (n - 12) % 0x1_0000)
  {
    var n := |Encoded(lay, CreateValue(c, 0))|;
    var len := (n - 12) % 0x1_0000;
    var v := CreateValue(c, len);
    BackpatchIs(lay, c, len);
    CreateFits(c, len, cap);
    FieldsBack(c, len);
    assert buf[0..0 + |Encoded(lay, v)|] == Encoded(lay, v);
    RoundTrip(lay, CreateType(c.tail.Domain?, cap), v, src, buf, 0);
  }
}
