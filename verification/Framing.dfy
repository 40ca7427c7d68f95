/** The serial framing of `xrce/src/serial_transport.c`: byte stuffing, the frame layout, the
    reader as a byte-fed automaton, and a parser that looks at whole byte strings instead. */
module Framing {
  import opened Options
  import opened Bytes
  import opened Crc
  import opened Automata

  const FLAG: byte := 0x7E
  const ESC: byte := 0x7D

  // ---------------------------------------------------------------- encoding

  predicate Special(b: byte) {
    b == FLAG || b == ESC
  }

  function StuffByte(b: byte): seq<byte> {
    if Special(b) then [ESC, FlipBit5(b)] else [b]
  }

  function Stuff(d: seq<byte>): seq<byte> {
    if d == [] then [] else Stuff(d[..|d| - 1]) + StuffByte(d[|d| - 1])
  }

  /** Everything between the opening FLAG and the end of the frame, before stuffing. */
  function Content(local: byte, remote: byte, payload: seq<byte>, crc: u16): seq<byte> {
    [local, remote, Low8(|payload|), Low8(|payload| / 256)] + payload + [Low8(crc), Low8(crc / 256)]
  }

  function Encode(local: byte, remote: byte, payload: seq<byte>): seq<byte> {
    [FLAG] + Stuff(Content(local, remote, payload, Crc16(payload)))
  }

  // -------------------------------------------------------------- the reader

  datatype Phase = WaitFlag | ReadSrc | ReadDst | ReadLenLsb | ReadLenMsb | ReadPayload | ReadCrcLsb | ReadCrcMsb

  /** `buffer` is the caller's payload storage, `|buffer|` its capacity. */
  datatype Reader = Reader(
    phase: Phase, local: byte, src: byte, len: nat, pos: nat, crc: u16, rxCrc: nat, escape: bool, buffer: seq<byte>)

  datatype Event = InProgress | FrameReady(src: byte, len: nat) | FrameError

  /** What every reader keeps: the next store into the buffer is in bounds, and the halves of
      16-bit fields are in range. */
  predicate Valid(r: Reader) {
    && r.len < 0x1_0000 && r.rxCrc < 0x1_0000
    && (r.phase == ReadPayload ==> r.pos < r.len)
    && (r.phase.ReadPayload? || r.phase.ReadCrcLsb? || r.phase.ReadCrcMsb? ==> r.len <= |r.buffer|)
    && (r.phase == ReadLenMsb ==> r.len < 256)
    && (r.phase == ReadCrcMsb ==> r.rxCrc < 256)
    && (r.phase == WaitFlag ==> !r.escape)
  }

  function Initial(local: byte, buffer: seq<byte>): Reader {
    Reader(WaitFlag, local, 0, 0, 0, 0, 0, false, buffer)
  }

  /** The state switch: what one decoded octet does.  `x | (d << 8)` is a sum, the halves being in range. */
  function Accept(r: Reader, d: byte): (Reader, Event) {
    match r.phase
    case WaitFlag => (r, InProgress)
    case ReadSrc => (r.(src := d, phase := ReadDst), InProgress)
    case ReadDst =>
      if d != r.local then (r.(phase := WaitFlag, escape := false), FrameError)
      else (r.(phase := ReadLenLsb), InProgress)
    case ReadLenLsb => (r.(len := d, phase := ReadLenMsb), InProgress)
    case ReadLenMsb =>
      var r1 := r.(len := r.len + 256 * d, pos := 0, crc := 0);
      if r1.len > |r.buffer| then (r1.(phase := WaitFlag, escape := false), FrameError)
      else (r1.(phase := if r1.len == 0 then ReadCrcLsb else ReadPayload), InProgress)
    case ReadPayload =>
      var r1 := r.(buffer := Stored(r.buffer, r.pos, d), pos := r.pos + 1, crc := Update(r.crc, d));
      (if r1.pos == r.len then r1.(phase := ReadCrcLsb) else r1, InProgress)
    case ReadCrcLsb => (r.(rxCrc := d, phase := ReadCrcMsb), InProgress)
    case ReadCrcMsb =>
      var r1 := r.(rxCrc := r.rxCrc + 256 * d, phase := WaitFlag, escape := false);
      (r1, if r1.rxCrc != r.crc then FrameError else FrameReady(r.src, r.len))
  }

  /** `buf[i] = d`; `Valid` keeps `i` in bounds. */
  function Stored(buf: seq<byte>, i: nat, d: byte): (r: seq<byte>)
    ensures |r| == |buf|
  {
    if i < |buf| then buf[i := d] else buf
  }

  /** `xrce_serial_reader_feed`. */
  function Feed(r: Reader, b: byte): (Reader, Event) {
    if !r.escape && b == FLAG then (r.(phase := ReadSrc, escape := false), InProgress)
    else if r.phase == WaitFlag then (r, InProgress)
    else if r.escape then Accept(r.(escape := false), FlipBit5(b))
    else if b == ESC then (r.(escape := true), InProgress)
    else Accept(r, b)
  }

  lemma FeedValid(r: Reader, b: byte)
    requires Valid(r)
    ensures Valid(Feed(r, b).0)
    ensures Feed(r, b).0.local == r.local && |Feed(r, b).0.buffer| == |r.buffer|
    ensures Feed(r, b).1.FrameReady? ==> Feed(r, b).1.len <= |r.buffer|
  {
  }

  function Next(r: Reader, b: byte): Reader {
    Feed(r, b).0
  }

  function After(r: Reader, raw: seq<byte>): Reader {
    Run(Next, r, raw)
  }

  lemma {:induction false} AfterValid(r: Reader, raw: seq<byte>)
    requires Valid(r)
    ensures Valid(After(r, raw)) && After(r, raw).local == r.local && |After(r, raw).buffer| == |r.buffer|
    decreases |raw|
  {
    if raw != [] {
      FeedValid(r, raw[0]);
      AfterValid(Feed(r, raw[0]).0, raw[1..]);
    }
  }

  /** What the last byte of a nonempty string made the reader report. */
  function LastEvent(r: Reader, raw: seq<byte>): Event
    requires raw != []
  {
    Feed(After(r, raw[..|raw| - 1]), raw[|raw| - 1]).1
  }

  datatype Frame = Frame(src: byte, payload: seq<byte>)

  /** What one byte makes a reader hand to its caller. */
  function Handed(r: Reader, b: byte): seq<Frame> {
    var (r', e) := Feed(r, b);
    if e.FrameReady? && e.len <= |r'.buffer| then [Frame(e.src, r'.buffer[..e.len])] else []
  }

  /** The frames a reader hands to its caller while it is fed `raw`. */
  function Delivered(r: Reader, raw: seq<byte>): seq<Frame> {
    Output(Next, Handed, r, raw)
  }

  /** The caller is told of frame `f` and finds its payload in the buffer. */
  predicate Reports(r: Reader, e: Event, f: Frame) {
    && e.FrameReady? && e.src == f.src && e.len == |f.payload|
    && e.len <= |r.buffer| && r.buffer[..e.len] == f.payload
  }

  lemma AfterConcat(r: Reader, a: seq<byte>, b: seq<byte>)
    ensures After(r, a + b) == After(After(r, a), b)
    ensures Delivered(r, a + b) == Delivered(r, a) + Delivered(After(r, a), b)
  {
    RunConcat(Next, r, a, b);
    OutputConcat(Next, Handed, r, a, b);
  }

  lemma AfterOne(r: Reader, b: byte)
    ensures After(r, [b]) == Feed(r, b).0 && Delivered(r, [b]) == Handed(r, b)
  {
    RunOne(Next, Handed, r, b);
  }

  lemma Snoc(r: Reader, a: seq<byte>, b: byte)
    ensures After(r, a + [b]) == Feed(After(r, a), b).0 && LastEvent(r, a + [b]) == Feed(After(r, a), b).1
    ensures Delivered(r, a + [b]) == Delivered(r, a) + Handed(After(r, a), b)
  {
    AfterConcat(r, a, [b]);
    AfterOne(After(r, a), b);
    assert (a + [b])[..|a|] == a;
  }

  // ------------------------------------------- the parser the reader refines

  /** A raw byte string undone: the octets it stands for, and whether it ends inside an escape. */
  datatype Plain = Plain(octets: seq<byte>, pending: bool)

  function Unstuff(raw: seq<byte>): Plain {
    if raw == [] then Plain([], false)
    else
      var u, b := Unstuff(raw[..|raw| - 1]), raw[|raw| - 1];
      if u.pending then Plain(u.octets + [FlipBit5(b)], false)
      else if b == ESC then Plain(u.octets, true)
      else Plain(u.octets + [b], false)
  }

  function LenOf(d: seq<byte>): u16
    requires |d| >= 4
  {
    Join16(d[2], d[3])
  }

  /** Nothing more belongs to this frame: wrong address, too long, or complete. */
  predicate Closed(d: seq<byte>, local: byte, cap: nat) {
    || (|d| >= 2 && d[1] != local)
    || (|d| >= 4 && (LenOf(d) > cap || |d| >= 6 + LenOf(d)))
  }

  /** Where the raw bytes of the frame being received start: after the FLAG that opened it. */
  function OpenAt(raw: seq<byte>, local: byte, cap: nat): (k: Option<nat>)
    ensures k.Some? ==> k.value <= |raw|
  {
    if raw == [] then None
    else
      var n, b := |raw| - 1, raw[|raw| - 1];
      match OpenAt(raw[..n], local, cap)
      case None => if b == FLAG then Some(n + 1) else None
      case Some(k) =>
        if b == FLAG && !Unstuff(raw[k..n]).pending then Some(n + 1)
        else if Closed(Unstuff(raw[k..]).octets, local, cap) then None
        else Some(k)
  }

  /** `d` is source, our address, a length within capacity, that much payload, and its CRC. */
  ghost predicate IsFrame(d: seq<byte>, local: byte, cap: nat, f: Frame) {
    && |d| == 6 + |f.payload| && |f.payload| <= cap
    && d[0] == f.src && d[1] == local && LenOf(d) == |f.payload|
    && d[4..|d| - 2] == f.payload
    && Join16(d[|d| - 2], d[|d| - 1]) == Crc16(f.payload)
  }

  /** The raw bytes since the FLAG that opened the frame, up to the last byte of `raw`, are one frame. */
  ghost predicate EndsFrame(raw: seq<byte>, local: byte, cap: nat, f: Frame) {
    raw != [] &&
    var n := |raw| - 1;
    match OpenAt(raw[..n], local, cap)
    case None => false
    case Some(k) =>
      && (raw[n] == FLAG ==> Unstuff(raw[k..n]).pending)
      && IsFrame(Unstuff(raw[k..]).octets, local, cap, f)
  }

  // --------------------------------------------------------------- refinement

  /** The reader's fields after the octets `d` of a frame still open. */
  ghost predicate PhaseFor(r: Reader, d: seq<byte>) {
    && (|d| >= 1 ==> r.src == d[0])
    && (|d| == 0 ==> r.phase == ReadSrc)
    && (|d| == 1 ==> r.phase == ReadDst)
    && (|d| == 2 ==> r.phase == ReadLenLsb)
    && (|d| == 3 ==> r.phase == ReadLenMsb && r.len == d[2])
    && (|d| >= 4 ==> r.len == LenOf(d) <= |r.buffer| && PayloadFor(r, d))
  }

  ghost predicate PayloadFor(r: Reader, d: seq<byte>)
    requires |d| >= 4 && r.len <= |r.buffer|
  {
    var n := if |d| < 4 + r.len then |d| - 4 else r.len;
    && r.buffer[..n] == d[4..4 + n] && r.crc == Crc16(d[4..4 + n])
    && (|d| < 4 + r.len ==> r.phase == ReadPayload && r.pos == n)
    && (|d| == 4 + r.len ==> r.phase == ReadCrcLsb)
    && (|d| == 5 + r.len ==> r.phase == ReadCrcMsb && r.rxCrc == d[4 + r.len])
  }

  ghost predicate Tracks(r: Reader, raw: seq<byte>) {
    match OpenAt(raw, r.local, |r.buffer|)
    case None => r.phase == WaitFlag && !r.escape
    case Some(k) =>
      var u := Unstuff(raw[k..]);
      !Closed(u.octets, r.local, |r.buffer|) && r.escape == u.pending && PhaseFor(r, u.octets)
  }

  /** An octet of the payload. */
  lemma PayloadOctet(r: Reader, d: seq<byte>, x: byte, f: Frame)
    requires Valid(r) && r.phase == ReadPayload && |d| >= 4 && !Closed(d, r.local, |r.buffer|) && PhaseFor(r, d)
    ensures OctetOk(r, d, x, f)
  {
    var r', d', n := Accept(r, x).0, d + [x], r.pos;
    assert LenOf(d') == LenOf(d);
    assert d'[4..4 + n] == d[4..4 + n];
    assert r'.buffer[..n + 1] == r.buffer[..n] + [x];
    assert d'[4..4 + n + 1] == d[4..4 + n] + [x];
    assert d'[4..4 + n + 1][..n] == d[4..4 + n];
  }

  /** An octet of the header. */
  lemma HeaderOctet(r: Reader, d: seq<byte>, x: byte, f: Frame)
    requires Valid(r) && |d| < 4 && !Closed(d, r.local, |r.buffer|) && PhaseFor(r, d)
    ensures OctetOk(r, d, x, f)
  {
    var d' := d + [x];
    if |d| == 3 {
      assert LenOf(d') == r.len + 256 * x;
      assert d'[4..4] == [];
    }
  }

  /** An octet of the CRC. */
  lemma CrcOctet(r: Reader, d: seq<byte>, x: byte, f: Frame)
    requires Valid(r) && |d| >= 4 && r.phase != ReadPayload && !Closed(d, r.local, |r.buffer|) && PhaseFor(r, d)
    ensures OctetOk(r, d, x, f)
  {
    assert |d| >= 4 + r.len;
    if |d| == 4 + r.len {
      FirstCrcOctet(r, d, x, f);
    } else {
      LastCrcOctet(r, d, x, f);
    }
  }

  lemma FirstCrcOctet(r: Reader, d: seq<byte>, x: byte, f: Frame)
    requires Valid(r) && |d| == 4 + r.len && !Closed(d, r.local, |r.buffer|) && PhaseFor(r, d)
    ensures OctetOk(r, d, x, f)
  {
    var d', n := d + [x], r.len;
    assert LenOf(d') == LenOf(d);
    assert d'[4..4 + n] == d[4..4 + n] == r.buffer[..n];
  }

  lemma LastCrcOctet(r: Reader, d: seq<byte>, x: byte, f: Frame)
    requires Valid(r) && |d| == 5 + r.len && !Closed(d, r.local, |r.buffer|) && PhaseFor(r, d)
    ensures OctetOk(r, d, x, f)
  {
    var d', n := d + [x], r.len;
    assert LenOf(d') == LenOf(d);
    assert d'[4..4 + n] == d[4..4 + n] == r.buffer[..n];
    assert d'[4..|d'| - 2] == r.buffer[..n];
    assert Join16(d'[4 + n], d'[5 + n]) == r.rxCrc + 256 * x;
  }

  /** After octet `x` the reader is right for `d + [x]`, and has reported `f` just if that is `f`. */
  ghost predicate OctetOk(r: Reader, d: seq<byte>, x: byte, f: Frame) {
    var (r', e) := Accept(r, x); var d' := d + [x];
    && (Closed(d', r.local, |r.buffer|) <==> r'.phase == WaitFlag)
    && (r'.phase != WaitFlag ==> PhaseFor(r', d'))
    && (r'.phase == WaitFlag ==> !r'.escape)
    && (IsFrame(d', r.local, |r.buffer|, f) <==> Reports(r', e, f))
  }

  /** One raw byte: the automaton keeps up with the parser and reports exactly its frames. */
  lemma FeedTracks(r: Reader, raw: seq<byte>, f: Frame)
    requires raw != [] && Valid(r) && Tracks(r, raw[..|raw| - 1])
    ensures Tracks(Feed(r, raw[|raw| - 1]).0, raw)
    ensures var (r', e) := Feed(r, raw[|raw| - 1]);
            EndsFrame(raw, r.local, |r.buffer|, f) <==>
            Reports(r', e, f)
  {
    var n, b := |raw| - 1, raw[|raw| - 1];
    match OpenAt(raw[..n], r.local, |r.buffer|)
    case None => FlagTracks(r, raw);
    case Some(k) =>
      assert raw[..n][k..] == raw[k..n];
      if b == FLAG && !Unstuff(raw[k..n]).pending {
        FlagTracks(r, raw);
      } else {
        UnstuffNext(raw, k);
        InsideTracks(r, raw, k, f);
      }
  }

  /** A FLAG outside an escape, or any byte while waiting. */
  lemma FlagTracks(r: Reader, raw: seq<byte>)
    requires raw != [] && Valid(r) && Tracks(r, raw[..|raw| - 1])
    requires r.phase == WaitFlag || (raw[|raw| - 1] == FLAG && !r.escape)
    requires OpenAt(raw[..|raw| - 1], r.local, |r.buffer|) == None || (raw[|raw| - 1] == FLAG && !r.escape)
    ensures Tracks(Feed(r, raw[|raw| - 1]).0, raw) && Feed(r, raw[|raw| - 1]).1 == InProgress
  {
    var n := |raw| - 1;
    if OpenAt(raw[..n], r.local, |r.buffer|).Some? {
      var k := OpenAt(raw[..n], r.local, |r.buffer|).value;
      assert raw[..n][k..] == raw[k..n];
    }
    assert raw[n + 1..] == [];
  }

  lemma UnstuffNext(raw: seq<byte>, k: nat)
    requires k < |raw|
    ensures var n := |raw| - 1; var u := Unstuff(raw[k..n]);
            Unstuff(raw[k..]) == if u.pending then Plain(u.octets + [FlipBit5(raw[n])], false)
                                 else if raw[n] == ESC then Plain(u.octets, true)
                                 else Plain(u.octets + [raw[n]], false)
  {
    assert raw[k..][..|raw| - 1 - k] == raw[k..|raw| - 1];
  }

  /** A byte that does not restart the frame keeps it open until it is closed. */
  lemma OpenInside(raw: seq<byte>, k: nat, local: byte, cap: nat)
    requires raw != [] && OpenAt(raw[..|raw| - 1], local, cap) == Some(k) && k < |raw|
    requires raw[|raw| - 1] == FLAG ==> Unstuff(raw[k..|raw| - 1]).pending
    ensures OpenAt(raw, local, cap) == if Closed(Unstuff(raw[k..]).octets, local, cap) then None else Some(k)
  {
  }

  lemma EndsInside(raw: seq<byte>, k: nat, local: byte, cap: nat, f: Frame)
    requires raw != [] && OpenAt(raw[..|raw| - 1], local, cap) == Some(k) && k < |raw|
    requires raw[|raw| - 1] == FLAG ==> Unstuff(raw[k..|raw| - 1]).pending
    ensures EndsFrame(raw, local, cap, f) <==> IsFrame(Unstuff(raw[k..]).octets, local, cap, f)
  {
  }

  /** A byte inside an open frame. */
  lemma InsideTracks(r: Reader, raw: seq<byte>, k: nat, f: Frame)
    requires raw != [] && Valid(r) && k < |raw| && OpenAt(raw[..|raw| - 1], r.local, |r.buffer|) == Some(k)
    requires var n := |raw| - 1; var u := Unstuff(raw[k..n]);
             && !Closed(u.octets, r.local, |r.buffer|) && r.escape == u.pending && PhaseFor(r, u.octets)
             && (raw[n] == FLAG ==> u.pending)
             && Unstuff(raw[k..]) == if u.pending then Plain(u.octets + [FlipBit5(raw[n])], false)
                                     else if raw[n] == ESC then Plain(u.octets, true)
                                     else Plain(u.octets + [raw[n]], false)
    ensures Tracks(Feed(r, raw[|raw| - 1]).0, raw)
    ensures EndsFrame(raw, r.local, |r.buffer|, f) <==>
            Reports(Feed(r, raw[|raw| - 1]).0, Feed(r, raw[|raw| - 1]).1, f)
  {
    var n, b := |raw| - 1, raw[|raw| - 1];
    var u, next := Unstuff(raw[k..n]), Unstuff(raw[k..]);
    OpenInside(raw, k, r.local, |r.buffer|);
    EndsInside(raw, k, r.local, |r.buffer|, f);
    if !u.pending && b == ESC {
      SameOctetsNotFrame(u.octets, r.local, |r.buffer|, f);
      EscFed(r, b, u.octets);
      StillTracks(Feed(r, b).0, raw, k, next);
    } else {
      var x := if u.pending then FlipBit5(b) else b;
      OctetFed(r, b, x, u.octets, f);
      OctetStands(r, b, x, raw, k, u.octets, next, f);
    }
  }

  /** An ESC outside an escape. */
  lemma EscFed(r: Reader, b: byte, d: seq<byte>)
    requires Valid(r) && !r.escape && b == ESC && PhaseFor(r, d) && !Closed(d, r.local, |r.buffer|)
    ensures Feed(r, b) == (r.(escape := true), InProgress) && PhaseFor(Feed(r, b).0, d)
  {
  }

  /** A byte that decodes to octet `x`. */
  lemma OctetFed(r: Reader, b: byte, x: byte, d: seq<byte>, f: Frame)
    requires Valid(r) && PhaseFor(r, d) && !Closed(d, r.local, |r.buffer|)
    requires if r.escape then x == FlipBit5(b) else x == b && b != ESC && b != FLAG
    ensures var r0 := r.(escape := false);
            && Feed(r, b) == Accept(r0, x) && OctetOk(r0, d, x, f) && !Feed(r, b).0.escape
            && Feed(r, b).0.local == r.local && |Feed(r, b).0.buffer| == |r.buffer|
  {
    var r0 := r.(escape := false);
    assert PhaseFor(r0, d) && r.phase != WaitFlag;
    OctetTracks(r0, d, x, f);
    FeedValid(r, b);
  }

  /** The frame is still open and the reader's fields are right for it. */
  lemma StillTracks(r: Reader, raw: seq<byte>, k: nat, u: Plain)
    requires OpenAt(raw, r.local, |r.buffer|) == Some(k) && Unstuff(raw[k..]) == u
    requires !Closed(u.octets, r.local, |r.buffer|) && r.escape == u.pending && PhaseFor(r, u.octets)
    ensures Tracks(r, raw)
  {
  }

  lemma OctetStands(r: Reader, b: byte, x: byte, raw: seq<byte>, k: nat, d: seq<byte>, u: Plain, f: Frame)
    requires k <= |raw| && Unstuff(raw[k..]) == u == Plain(d + [x], false)
    requires OpenAt(raw, r.local, |r.buffer|) == if Closed(u.octets, r.local, |r.buffer|) then None else Some(k)
    requires Feed(r, b) == Accept(r.(escape := false), x) && OctetOk(r.(escape := false), d, x, f)
    requires !Feed(r, b).0.escape && Feed(r, b).0.local == r.local && |Feed(r, b).0.buffer| == |r.buffer|
    ensures Tracks(Feed(r, b).0, raw)
    ensures IsFrame(u.octets, r.local, |r.buffer|, f) <==> Reports(Feed(r, b).0, Feed(r, b).1, f)
  {
    var r' := Feed(r, b).0;
    if !Closed(u.octets, r.local, |r.buffer|) {
      StillTracks(r', raw, k, u);
    }
  }

  lemma SameOctetsNotFrame(d: seq<byte>, local: byte, cap: nat, f: Frame)
    requires !Closed(d, local, cap)
    ensures !IsFrame(d, local, cap, f)
  {
  }

  /** A decoded octet, in whatever phase. */
  lemma OctetTracks(r: Reader, d: seq<byte>, x: byte, f: Frame)
    requires Valid(r) && r.phase != WaitFlag && !r.escape && !Closed(d, r.local, |r.buffer|) && PhaseFor(r, d)
    ensures OctetOk(r, d, x, f) && !Accept(r, x).0.escape
  {
    if r.phase == ReadPayload {
      PayloadOctet(r, d, x, f);
    } else if |d| < 4 {
      HeaderOctet(r, d, x, f);
    } else {
      CrcOctet(r, d, x, f);
    }
  }

  lemma StepTracks(r: Reader, past: seq<byte>, b: byte)
    requires Valid(r) && Tracks(r, past)
    ensures Valid(Next(r, b)) && Tracks(Next(r, b), past + [b])
  {
    var raw := past + [b];
    assert raw[..|past|] == past && raw[|raw| - 1] == b;
    FeedTracks(r, raw, Frame(0, []));
    FeedValid(r, b);
  }

  lemma {:induction false} RunTracks(r: Reader, past: seq<byte>, raw: seq<byte>)
    requires Valid(r) && Tracks(r, past)
    ensures Tracks(After(r, raw), past + raw)
  {
    var inv := (r: Reader, past: seq<byte>) => Valid(r) && Tracks(r, past);
    forall r, past, b | inv(r, past)
      ensures inv(Next(r, b), past + [b])
    {
      StepTracks(r, past, b);
    }
    RunKeeps(Next, inv, r, past, raw);
  }

  lemma ReaderTracks(local: byte, buffer: seq<byte>, raw: seq<byte>)
    ensures var r := After(Initial(local, buffer), raw);
            Tracks(r, raw) && Valid(r) && r.local == local && |r.buffer| == |buffer|
  {
    RunTracks(Initial(local, buffer), [], raw);
    AfterValid(Initial(local, buffer), raw);
    assert [] + raw == raw;
  }

  /** For every byte string: the last byte makes the reader report frame `f`, with its payload in
      the buffer, exactly when the raw bytes since the opening FLAG unstuff to that frame. */
  lemma ReaderRefinesParser(local: byte, buffer: seq<byte>, raw: seq<byte>, f: Frame)
    requires raw != []
    ensures var r := Initial(local, buffer);
            EndsFrame(raw, local, |buffer|, f) <==> Reports(After(r, raw), LastEvent(r, raw), f)
  {
    var r, n := Initial(local, buffer), |raw| - 1;
    var past, b := raw[..n], raw[n];
    ReaderTracks(local, buffer, past);
    FeedTracks(After(r, past), raw, f);
    Snoc(r, past, b);
    assert raw == past + [b];
  }
}
