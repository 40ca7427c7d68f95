/** `xrce/src/msgs.c`: the nested message structs as typed CDR values, the encoders and decoders,
    and that they are inverse to each other. */
module Messages {
  import opened Options
  import opened Automata
  import opened Bytes
  import opened Cdr
  import opened CdrValues
  import opened CdrStream

  const HEADER: seq<byte> := [0, 1, 0, 0]

  // ------------------------------------------------------ encode and decode

  function EncodedMessage(lay: Layout, v: Value): seq<byte> {
    HEADER + Encoded(lay, v)
  }

  /** A decoder of `xrce/src/msgs.c`: header, then the members in order; trailing bytes are ignored. */
  function DecodedWith(t: Type, src: Source, buf: seq<byte>): Option<Value> {
    if |buf| < 4 || buf[0] != 0 || buf[1] != 1 then None
    else
      match Reader(t, src)(4)
      case None => None
      case Some(x) => Some(x.value)
  }

  /** What every encoder does: header, members in order, length. */
  method EncodeMessage(v: Value, buf: array<byte>, ghost lay: Layout) returns (ok: bool, len: nat)
    requires Countable(v) && IsCdr(lay)
    modifies buf
    ensures ok <==> TextsFit(v) && |EncodedMessage(lay, v)| <= buf.Length
    ensures ok ==> len == |EncodedMessage(lay, v)| && buf[..len] == EncodedMessage(lay, v)
  {
    len := 0;
    var w := new Writer(buf);
    ok := w.WriteHeader(lay);
    if !ok {
      return;
    }
    assert buf[..4] == HEADER;
    ok := EncodeBody(w, v, lay, HEADER, Encoded(lay, v));
    if ok {
      len := w.pos;
    }
  }

  /** The members behind a header. */
  method EncodeBody(w: Writer, v: Value, ghost lay: Layout, ghost header: seq<byte>, ghost body: seq<byte>)
      returns (ok: bool)
    requires w.Holds(lay, []) && IsCdr(lay) && Countable(v) && body == Encoded(lay, v)
    requires w.alignBase == |header| && w.buf[..w.alignBase] == header
    modifies w`pos, w.buf
    ensures w.Valid() && (ok <==> TextsFit(v) && |header| + |body| <= w.buf.Length)
    ensures ok ==> w.pos == |header| + |body| && w.buf[..w.pos] == header + body
  {
    assert [] + Flat(v) == Flat(v);
    ok := w.WriteValue(v, lay, []);
    if ok {
      Cut(w.buf[..], w.alignBase, w.pos);
    }
  }

  lemma Cut(s: seq<byte>, a: nat, b: nat)
    requires a <= b <= |s|
    ensures s[..b] == s[..a] + s[a..b]
  {
  }

  /** What every decoder does. */
  method DecodeMessage(t: Type, buf: seq<byte>, ghost src: Source) returns (r: Option<Value>)
    requires Over(src, buf, 4)
    ensures r == DecodedWith(t, src, buf)
  {
    var reader := new BufferReader(buf);
    var ok := reader.ReadHeader();
    if !ok {
      return None;
    }
    r := reader.ReadValue(t, src);
  }

  /** Decoding what was encoded, under any CDR_LE header and with anything behind it, gives the
      message back: the encapsulation header can be stripped and another one put in its place. */
  lemma DecodeAfterEncode(lay: Layout, t: Type, v: Value, header: seq<byte>, after: seq<byte>, src: Source,
      buf: seq<byte>)
    requires IsCdr(lay) && Fits(t, v) && |header| == 4 && header[0] == 0 && header[1] == 1
    requires buf == header + EncodedMessage(lay, v)[4..] + after && Over(src, buf, 4)
    ensures DecodedWith(t, src, buf) == Some(v)
  {
    var body := Encoded(lay, v);
    assert EncodedMessage(lay, v)[4..] == body;
    assert buf[4..4 + |body|] == body;
    RoundTrip(lay, t, v, src, buf, 4);
  }

  /** Whatever the bytes, what is decoded fits the struct. */
  lemma DecodedMessageFits(t: Type, buf: seq<byte>)
    ensures var d := DecodedWith(t, BufferSource(buf, 4), buf); d.Some? ==> Fits(t, d.value)
  {
    if |buf| >= 4 {
      BufferDecodedFits(t, buf, 4, 4);
    }
  }

  /** Whatever the bytes, what is decoded fits the struct, and encoding it decodes to it again. */
  lemma DecodingSettles(lay: Layout, t: Type, src: Source, buf: seq<byte>, src': Source, buf': seq<byte>)
    requires IsCdr(lay) && Sound(src, |buf|) && DecodedWith(t, src, buf).Some?
    requires buf' == EncodedMessage(lay, DecodedWith(t, src, buf).value) && Over(src', buf', 4)
    ensures Fits(t, DecodedWith(t, src, buf).value)
    ensures DecodedWith(t, src', buf') == DecodedWith(t, src, buf)
  {
    DecodedFits(t, src, |buf|, 4);
    assert buf' == HEADER + buf'[4..] + [];
    DecodeAfterEncode(lay, t, DecodedWith(t, src, buf).value, HEADER, [], src', buf');
  }

  // ------------------------------------------------------------ struct members

  /** A terminated C string in an array of `cap` characters. */
  predicate CString(s: seq<byte>, cap: nat) {
    0 !in s && |s| < cap
  }

  lemma FitsList(max: nat, e: Type, items: seq<Value>)
    requires |items| <= max < 0x1_0000 && forall i :: 0 <= i < |items| ==> Fits(e, items[i])
    ensures Fits(List(max, e), VList(items))
  {
  }

  lemma FitsText(cap: nat, s: seq<byte>)
    requires CString(s, cap) && cap < 0x1_0000
    ensures Fits(Text(cap), VText(s))
  {
  }

  function StringOf(v: Value): seq<byte> {
    match v
    case VText(s) => s
    case _ => []
  }

  // --------------------------------------------------------- DiagnosticArray

  const KV_MAX: nat := 8
  const DIAG_STATUS_MAX: nat := 16
  const DIAG_STR_MAX: nat := 64
  const FRAME_ID_MAX: nat := 64

  datatype KeyValue = KeyValue(key: seq<byte>, value: seq<byte>)
  datatype DiagnosticStatus = DiagnosticStatus(
    level: byte, name: seq<byte>, message: seq<byte>, hardwareId: seq<byte>, values: seq<KeyValue>)
  datatype Header = Header(sec: int, nanosec: nat, frameId: seq<byte>)
  datatype DiagnosticArray = DiagnosticArray(header: Header, status: seq<DiagnosticStatus>)

  const DIAG_TEXT: Type := Text(DIAG_STR_MAX)
  const KEY_VALUE_TYPE: Type := Both(DIAG_TEXT, DIAG_TEXT)
  const STATUS_TYPE: Type := Both(Octet, Both(DIAG_TEXT, Both(DIAG_TEXT, Both(DIAG_TEXT, List(KV_MAX,
      KEY_VALUE_TYPE)))))
  const HEADER_TYPE: Type := Both(Int, Both(UInt, Text(FRAME_ID_MAX)))
  const DIAGNOSTIC_ARRAY_TYPE: Type := Both(HEADER_TYPE, List(DIAG_STATUS_MAX, STATUS_TYPE))

  /** `write_key_value`. */
  function FromKeyValue(m: KeyValue): Value {
    VBoth(VText(m.key), VText(m.value))
  }

  /** `write_diagnostic_status`. */
  function FromStatus(m: DiagnosticStatus): Value {
    VBoth(VOctet(m.level), VBoth(VText(m.name), VBoth(VText(m.message), VBoth(VText(m.hardwareId),
      VList(Mapped(FromKeyValue, m.values))))))
  }

  function FromHeader(m: Header): Value {
    VBoth(VInt(m.sec), VBoth(VUInt(m.nanosec), VText(m.frameId)))
  }

  /** `diagnostic_msgs_DiagnosticArray_encode`. */
  function FromDiagnosticArray(m: DiagnosticArray): Value {
    VBoth(FromHeader(m.header), VList(Mapped(FromStatus, m.status)))
  }

  /** `read_key_value`; the other cases do not occur for values of the type. */
  function ToKeyValue(v: Value): KeyValue {
    match v
    case VBoth(k, x) => KeyValue(StringOf(k), StringOf(x))
    case _ => KeyValue([], [])
  }

  /** `read_diagnostic_status`. */
  function ToStatus(v: Value): DiagnosticStatus {
    match v
    case VBoth(VOctet(level), VBoth(name, VBoth(message, VBoth(hardware, VList(values))))) =>
      DiagnosticStatus(level, StringOf(name), StringOf(message), StringOf(hardware), Mapped(ToKeyValue, values))
    case _ => DiagnosticStatus(0, [], [], [], [])
  }

  function ToHeader(v: Value): Header {
    match v
    case VBoth(VInt(sec), VBoth(VUInt(nanosec), id)) => Header(sec, nanosec, StringOf(id))
    case _ => Header(0, 0, [])
  }

  /** `diagnostic_msgs_DiagnosticArray_decode`. */
  function ToDiagnosticArray(v: Value): DiagnosticArray {
    match v
    case VBoth(header, VList(status)) => DiagnosticArray(ToHeader(header), Mapped(ToStatus, status))
    case _ => DiagnosticArray(Header(0, 0, []), [])
  }

  // The limits of the structs, in numbers; the types above carry the constants.

  predicate KeyValueOk(m: KeyValue) {
    CString(m.key, 64) && CString(m.value, 64)
  }

  predicate StatusOk(m: DiagnosticStatus) {
    && CString(m.name, 64) && CString(m.message, 64) && CString(m.hardwareId, 64)
    && |m.values| <= 8 && forall i :: 0 <= i < |m.values| ==> KeyValueOk(m.values[i])
  }

  predicate HeaderOk(m: Header) {
    -0x8000_0000 <= m.sec < 0x8000_0000 && m.nanosec < 0x1_0000_0000 && CString(m.frameId, 64)
  }

  predicate DiagnosticArrayOk(m: DiagnosticArray) {
    HeaderOk(m.header) && |m.status| <= 16 && forall i :: 0 <= i < |m.status| ==> StatusOk(m.status[i])
  }

  lemma KeyValueBack(m: KeyValue)
    requires KeyValueOk(m)
    ensures Fits(KEY_VALUE_TYPE, FromKeyValue(m)) && ToKeyValue(FromKeyValue(m)) == m
  {
    FitsText(DIAG_STR_MAX, m.key);
    FitsText(DIAG_STR_MAX, m.value);
  }

  lemma ValuesBack(values: seq<KeyValue>)
    requires |values| <= KV_MAX && forall i :: 0 <= i < |values| ==> KeyValueOk(values[i])
    ensures Fits(List(KV_MAX, KEY_VALUE_TYPE), VList(Mapped(FromKeyValue, values)))
    ensures Mapped(ToKeyValue, Mapped(FromKeyValue, values)) == values
  {
    var items := Mapped(FromKeyValue, values);
    forall i | 0 <= i < |values|
      ensures Fits(KEY_VALUE_TYPE, items[i]) && ToKeyValue(items[i]) == values[i]
    {
      KeyValueBack(values[i]);
    }
    FitsList(KV_MAX, KEY_VALUE_TYPE, items);
  }

  lemma StatusBack(m: DiagnosticStatus)
    requires StatusOk(m)
    ensures Fits(STATUS_TYPE, FromStatus(m)) && ToStatus(FromStatus(m)) == m
  {
    var t0, v0 := List(KV_MAX, KEY_VALUE_TYPE), VList(Mapped(FromKeyValue, m.values));
    var t1, v1 := Both(DIAG_TEXT, t0), VBoth(VText(m.hardwareId), v0);
    var t2, v2 := Both(DIAG_TEXT, t1), VBoth(VText(m.message), v1);
    var t3, v3 := Both(DIAG_TEXT, t2), VBoth(VText(m.name), v2);
    ValuesBack(m.values);
    FitsText(DIAG_STR_MAX, m.hardwareId);
    FitsText(DIAG_STR_MAX, m.message);
    FitsText(DIAG_STR_MAX, m.name);
    FitsBoth(DIAG_TEXT, t0, VText(m.hardwareId), v0);
    FitsBoth(DIAG_TEXT, t1, VText(m.message), v1);
    FitsBoth(DIAG_TEXT, t2, VText(m.name), v2);
    FitsBoth(Octet, t3, VOctet(m.level), v3);
  }

  lemma HeaderBack(m: Header)
    requires HeaderOk(m)
    ensures Fits(HEADER_TYPE, FromHeader(m)) && ToHeader(FromHeader(m)) == m
  {
    FitsText(FRAME_ID_MAX, m.frameId);
    FitsBoth(UInt, Text(FRAME_ID_MAX), VUInt(m.nanosec), VText(m.frameId));
  }

  /** The struct and the value determine each other, and the value fits the members. */
  lemma DiagnosticArrayBack(m: DiagnosticArray)
    requires DiagnosticArrayOk(m)
    ensures Fits(DIAGNOSTIC_ARRAY_TYPE, FromDiagnosticArray(m)) && ToDiagnosticArray(FromDiagnosticArray(m)) == m
  {
    var items := Mapped(FromStatus, m.status);
    forall i | 0 <= i < |m.status|
      ensures Fits(STATUS_TYPE, items[i]) && ToStatus(items[i]) == m.status[i]
    {
      StatusBack(m.status[i]);
    }
    HeaderBack(m.header);
    FitsList(DIAG_STATUS_MAX, STATUS_TYPE, items);
    FitsBoth(HEADER_TYPE, List(DIAG_STATUS_MAX, STATUS_TYPE), FromHeader(m.header), VList(items));
    assert Mapped(ToStatus, items) == m.status;
  }

  /** What `xrce_cdr_write_string` puts out. */
  function Chars(s: seq<byte>): seq<Prim> {
    [Word(W4, |s| + 1), Raw(s + [0])]
  }

  function KeyValueWire(m: KeyValue): seq<Prim> {
    Chars(m.key) + Chars(m.value)
  }

  function StatusWire(m: DiagnosticStatus): seq<Prim> {
    [Word(W1, m.level)] + Chars(m.name) + Chars(m.message) + Chars(m.hardwareId)
    + [Word(W4, |m.values|)] + Joined(Mapped(KeyValueWire, m.values))
  }

  /** The order of members on the wire: stamp, frame id, count, and for each status its level, name,
      message, hardware id, count, and keys with their values. */
  function DiagnosticArrayWire(m: DiagnosticArray): seq<Prim> {
    HeaderWire(m.header) + [Word(W4, |m.status|)] + Joined(Mapped(StatusWire, m.status))
  }

  function HeaderWire(h: Header): seq<Prim> {
    [Word(W4, h.sec % 0x1_0000_0000), Word(W4, h.nanosec)] + Chars(h.frameId)
  }

  /** A loop over elements puts out the elements' primitives one after the other. */
  lemma {:induction false} LoopWire<T>(from: T -> Value, wire: T -> seq<Prim>, xs: seq<T>)
    requires forall i :: 0 <= i < |xs| ==> Flat(from(xs[i])) == wire(xs[i])
    ensures FlatAll(Mapped(from, xs)) == Joined(Mapped(wire, xs))
    decreases |xs|
  {
    if xs != [] {
      var init, last := xs[..|xs| - 1], xs[|xs| - 1];
      LoopWire(from, wire, init);
      assert Mapped(from, xs)[..|xs| - 1] == Mapped(from, init);
      assert Mapped(wire, xs) == Mapped(wire, init) + [wire(last)];
      JoinedSnoc(Mapped(wire, init), wire(last));
    }
  }

  lemma KeyValueOnWire(m: KeyValue)
    ensures Flat(FromKeyValue(m)) == KeyValueWire(m)
  {
  }

  lemma ValuesOnWire(values: seq<KeyValue>)
    ensures FlatAll(Mapped(FromKeyValue, values)) == Joined(Mapped(KeyValueWire, values))
  {
    forall i | 0 <= i < |values|
      ensures Flat(FromKeyValue(values[i])) == KeyValueWire(values[i])
    {
      KeyValueOnWire(values[i]);
    }
    LoopWire(FromKeyValue, KeyValueWire, values);
  }

  lemma StatusOnWire(m: DiagnosticStatus)
    ensures Flat(FromStatus(m)) == StatusWire(m)
  {
    ValuesOnWire(m.values);
    var list := VList(Mapped(FromKeyValue, m.values));
    var count, loop := [Word(W4, |m.values|)], Joined(Mapped(KeyValueWire, m.values));
    var hardware := VBoth(VText(m.hardwareId), list);
    var message := VBoth(VText(m.message), hardware);
    TextFirst(m.hardwareId, list, count + loop);
    TextFirst(m.message, hardware, Chars(m.hardwareId) + (count + loop));
    TextFirst(m.name, message, Chars(m.message) + (Chars(m.hardwareId) + (count + loop)));
    Regrouped([Word(W1, m.level)], Chars(m.name), Chars(m.message), Chars(m.hardwareId), count, loop);
  }

  lemma TextFirst(s: seq<byte>, y: Value, rest: seq<Prim>)
    requires Flat(y) == rest
    ensures Flat(VBoth(VText(s), y)) == Chars(s) + rest
  {
  }

  lemma Regrouped(a: seq<Prim>, b: seq<Prim>, c: seq<Prim>, d: seq<Prim>, e: seq<Prim>, f: seq<Prim>)
    ensures a + (b + (c + (d + (e + f)))) == a + b + c + d + e + f
  {
  }

  lemma DiagnosticArrayOnWire(m: DiagnosticArray)
    ensures Flat(FromDiagnosticArray(m)) == DiagnosticArrayWire(m)
  {
    forall i | 0 <= i < |m.status|
      ensures Flat(FromStatus(m.status[i])) == StatusWire(m.status[i])
    {
      StatusOnWire(m.status[i]);
    }
    LoopWire(FromStatus, StatusWire, m.status);
    HeaderOnWire(m.header);
    var list := VList(Mapped(FromStatus, m.status));
    assert Flat(list) == [Word(W4, |m.status|)] + Joined(Mapped(StatusWire, m.status));
    BothOnWire(FromHeader(m.header), list, HeaderWire(m.header), [Word(W4, |m.status|)], Joined(Mapped(StatusWire,
        m.status)));
  }

  lemma HeaderOnWire(h: Header)
    ensures Flat(FromHeader(h)) == HeaderWire(h)
  {
    assert Flat(VBoth(VUInt(h.nanosec), VText(h.frameId))) == [Word(W4, h.nanosec)] + Chars(h.frameId);
  }

  lemma BothOnWire(x: Value, y: Value, a: seq<Prim>, b: seq<Prim>, c: seq<Prim>)
    requires Flat(x) == a && Flat(y) == b + c
    ensures Flat(VBoth(x, y)) == a + b + c
  {
  }

  /** `encode` then `decode` gives back every DiagnosticArray within its limits. */
  lemma DiagnosticArrayRoundTrip(lay: Layout, m: DiagnosticArray, src: Source, buf: seq<byte>)
    requires IsCdr(lay) && DiagnosticArrayOk(m)
    requires buf == EncodedMessage(lay, FromDiagnosticArray(m)) && Over(src, buf, 4)
    ensures var r := DecodedWith(DIAGNOSTIC_ARRAY_TYPE, src, buf); r.Some? && ToDiagnosticArray(r.value) == m
  {
    DiagnosticArrayBack(m);
    Reread(lay, DIAGNOSTIC_ARRAY_TYPE, FromDiagnosticArray(m), src, buf);
  }

  /** `diagnostic_msgs_DiagnosticArray_encode`: succeeds exactly when the message fits the buffer. */
  method EncodeDiagnosticArray(m: DiagnosticArray, buf: array<byte>, ghost lay: Layout) returns (ok: bool, len: nat)
    requires DiagnosticArrayOk(m) && IsCdr(lay)
    modifies buf
    ensures ok <==> |EncodedMessage(lay, FromDiagnosticArray(m))| <= buf.Length
    ensures ok ==> len == |EncodedMessage(lay, FromDiagnosticArray(m))|
    ensures ok ==> buf[..len] == EncodedMessage(lay, FromDiagnosticArray(m))
  {
    DiagnosticArrayBack(m);
    FitsIsCountable(DIAGNOSTIC_ARRAY_TYPE, FromDiagnosticArray(m));
    ok, len := EncodeMessage(FromDiagnosticArray(m), buf, lay);
  }

  /** `diagnostic_msgs_DiagnosticArray_decode`. */
  method DecodeDiagnosticArray(buf: seq<byte>, ghost src: Source) returns (r: Option<DiagnosticArray>)
    requires Over(src, buf, 4)
    ensures var d := DecodedWith(DIAGNOSTIC_ARRAY_TYPE, src, buf);
            r == if d.None? then None else Some(ToDiagnosticArray(d.value))
  {
    var d := DecodeMessage(DIAGNOSTIC_ARRAY_TYPE, buf, src);
    r := if d.None? then None else Some(ToDiagnosticArray(d.value));
  }

  lemma Reread(lay: Layout, t: Type, v: Value, src: Source, buf: seq<byte>)
    requires IsCdr(lay) && Fits(t, v) && buf == EncodedMessage(lay, v) && Over(src, buf, 4)
    ensures DecodedWith(t, src, buf) == Some(v)
  {
    assert buf == HEADER + buf[4..] + [];
    DecodeAfterEncode(lay, t, v, HEADER, [], src, buf);
  }

  // ------------------------------------- GoalStatusArray, CancelGoal_Response

  const GOAL_STATUS_MAX: nat := 8
  const UUID_SIZE: nat := 16

  datatype GoalInfo = GoalInfo(goalId: seq<byte>, sec: int, nanosec: nat)
  datatype GoalStatus = GoalStatus(info: GoalInfo, status: int)
  datatype CancelGoalResponse = CancelGoalResponse(returnCode: int, goals: seq<GoalInfo>)

  const GOAL_INFO_TYPE: Type := Both(Blob(UUID_SIZE), Both(Int, UInt))
  const GOAL_STATUS_TYPE: Type := Both(GOAL_INFO_TYPE, Octet)
  const GOAL_STATUS_ARRAY_TYPE: Type := List(GOAL_STATUS_MAX, GOAL_STATUS_TYPE)
  const CANCEL_GOAL_RESPONSE_TYPE: Type := Both(Octet, List(GOAL_STATUS_MAX, GOAL_INFO_TYPE))

  /** An `int8_t` through `(uint8_t)` and back. */
  function Octet8(x: int): byte {
    x % 0x100
  }

  predicate Signed8(x: int) {
    -0x80 <= x < 0x80
  }

  /** `write_goal_info`. */
  function FromGoalInfo(m: GoalInfo): Value {
    VBoth(VBlob(m.goalId), VBoth(VInt(m.sec), VUInt(m.nanosec)))
  }

  /** `write_goal_status`. */
  function FromGoalStatus(m: GoalStatus): Value {
    VBoth(FromGoalInfo(m.info), VOctet(Octet8(m.status)))
  }

  function FromGoalStatusArray(m: seq<GoalStatus>): Value {
    VList(Mapped(FromGoalStatus, m))
  }

  function FromCancelGoalResponse(m: CancelGoalResponse): Value {
    VBoth(VOctet(Octet8(m.returnCode)), VList(Mapped(FromGoalInfo, m.goals)))
  }

  function ToGoalInfo(v: Value): GoalInfo {
    match v
    case VBoth(VBlob(id), VBoth(VInt(sec), VUInt(nanosec))) => GoalInfo(id, sec, nanosec)
    case _ => GoalInfo([], 0, 0)
  }

  function ToGoalStatus(v: Value): GoalStatus {
    match v
    case VBoth(info, VOctet(b)) => GoalStatus(ToGoalInfo(info), ToSigned(b, 0x100))
    case _ => GoalStatus(GoalInfo([], 0, 0), 0)
  }

  function ToGoalStatusArray(v: Value): seq<GoalStatus> {
    match v
    case VList(items) => Mapped(ToGoalStatus, items)
    case _ => []
  }

  function ToCancelGoalResponse(v: Value): CancelGoalResponse {
    match v
    case VBoth(VOctet(code), VList(goals)) => CancelGoalResponse(ToSigned(code, 0x100), Mapped(ToGoalInfo, goals))
    case _ => CancelGoalResponse(0, [])
  }

  predicate GoalInfoOk(m: GoalInfo) {
    |m.goalId| == 16 && -0x8000_0000 <= m.sec < 0x8000_0000 && m.nanosec < 0x1_0000_0000
  }

  predicate GoalStatusOk(m: GoalStatus) {
    GoalInfoOk(m.info) && Signed8(m.status)
  }

  lemma Octet8Back(x: int)
    requires Signed8(x)
    ensures ToSigned(Octet8(x), 0x100) == x
  {
  }

  lemma GoalInfoBack(m: GoalInfo)
    requires GoalInfoOk(m)
    ensures Fits(GOAL_INFO_TYPE, FromGoalInfo(m)) && ToGoalInfo(FromGoalInfo(m)) == m
  {
    FitsBoth(Int, UInt, VInt(m.sec), VUInt(m.nanosec));
  }

  lemma GoalStatusBack(m: GoalStatus)
    requires GoalStatusOk(m)
    ensures Fits(GOAL_STATUS_TYPE, FromGoalStatus(m)) && ToGoalStatus(FromGoalStatus(m)) == m
  {
    GoalInfoBack(m.info);
    Octet8Back(m.status);
    FitsBoth(GOAL_INFO_TYPE, Octet, FromGoalInfo(m.info), VOctet(Octet8(m.status)));
  }

  lemma GoalStatusArrayRoundTrip(lay: Layout, m: seq<GoalStatus>, src: Source, buf: seq<byte>)
    requires IsCdr(lay) && |m| <= 8 && forall i :: 0 <= i < |m| ==> GoalStatusOk(m[i])
    requires buf == EncodedMessage(lay, FromGoalStatusArray(m)) && Over(src, buf, 4)
    ensures var r := DecodedWith(GOAL_STATUS_ARRAY_TYPE, src, buf); r.Some? && ToGoalStatusArray(r.value) == m
  {
    var items := Mapped(FromGoalStatus, m);
    forall i | 0 <= i < |m|
      ensures Fits(GOAL_STATUS_TYPE, items[i]) && ToGoalStatus(items[i]) == m[i]
    {
      GoalStatusBack(m[i]);
    }
    FitsList(GOAL_STATUS_MAX, GOAL_STATUS_TYPE, items);
    Reread(lay, GOAL_STATUS_ARRAY_TYPE, VList(items), src, buf);
    assert Mapped(ToGoalStatus, items) == m;
  }

  lemma CancelGoalResponseRoundTrip(lay: Layout, m: CancelGoalResponse, src: Source, buf: seq<byte>)
    requires IsCdr(lay) && Signed8(m.returnCode) && |m.goals| <= 8
    requires forall i :: 0 <= i < |m.goals| ==> GoalInfoOk(m.goals[i])
    requires buf == EncodedMessage(lay, FromCancelGoalResponse(m)) && Over(src, buf, 4)
    ensures var r := DecodedWith(CANCEL_GOAL_RESPONSE_TYPE, src, buf); r.Some? && ToCancelGoalResponse(r.value) == m
  {
    var items := Mapped(FromGoalInfo, m.goals);
    forall i | 0 <= i < |m.goals|
      ensures Fits(GOAL_INFO_TYPE, items[i]) && ToGoalInfo(items[i]) == m.goals[i]
    {
      GoalInfoBack(m.goals[i]);
    }
    FitsList(GOAL_STATUS_MAX, GOAL_INFO_TYPE, items);
    FitsBoth(Octet, List(GOAL_STATUS_MAX, GOAL_INFO_TYPE), VOctet(Octet8(m.returnCode)), VList(items));
    Reread(lay, CANCEL_GOAL_RESPONSE_TYPE, FromCancelGoalResponse(m), src, buf);
    Octet8Back(m.returnCode);
    assert Mapped(ToGoalInfo, items) == m.goals;
  }

  // --------------------------------------------------------------------- Imu

  const QUATERNION: nat := 4
  const VECTOR: nat := 3
  const COVARIANCE: nat := 9

  /** `n` doubles in a row, at least one: a vector, a quaternion or a covariance. */
  function Doubles(n: nat): Type {
    if n <= 1 then Double else Both(Double, Doubles(n - 1))
  }

  function FromDoubles(xs: seq<nat>): Value {
    if |xs| == 0 then VDouble(0) else if |xs| == 1 then VDouble(xs[0]) else VBoth(VDouble(xs[0]), FromDoubles(xs[1..]))
  }

  function ToDoubles(v: Value): seq<nat> {
    match v
    case VDouble(x) => [x]
    case VBoth(VDouble(x), rest) => [x] + ToDoubles(rest)
    case _ => []
  }

  predicate DoublesOk(xs: seq<nat>, n: nat) {
    |xs| == n && forall i :: 0 <= i < |xs| ==> xs[i] < 0x1_0000_0000_0000_0000
  }

  lemma {:induction false} DoublesBack(xs: seq<nat>, n: nat)
    requires n > 0 && DoublesOk(xs, n)
    ensures Fits(Doubles(n), FromDoubles(xs)) && ToDoubles(FromDoubles(xs)) == xs
    decreases n
  {
    if n > 1 {
      DoublesBack(xs[1..], n - 1);
      FitsBoth(Double, Doubles(n - 1), VDouble(xs[0]), FromDoubles(xs[1..]));
    }
  }

  /** A vector reading and its covariance. */
  datatype Reading3 = Reading3(vector: seq<nat>, covariance: seq<nat>)
  datatype Imu = Imu(header: Header, orientation: Reading3, angularVelocity: Reading3, linearAcceleration: Reading3)

  function ReadingType(n: nat): Type {
    Both(Doubles(n), Doubles(COVARIANCE))
  }

  function FromReading(m: Reading3): Value {
    VBoth(FromDoubles(m.vector), FromDoubles(m.covariance))
  }

  function ToReading(v: Value): Reading3 {
    match v
    case VBoth(x, c) => Reading3(ToDoubles(x), ToDoubles(c))
    case _ => Reading3([], [])
  }

  predicate ReadingOk(m: Reading3, n: nat) {
    DoublesOk(m.vector, n) && DoublesOk(m.covariance, 9)
  }

  lemma ReadingBack(m: Reading3, n: nat)
    requires n > 0 && ReadingOk(m, n)
    ensures Fits(ReadingType(n), FromReading(m)) && ToReading(FromReading(m)) == m
  {
    DoublesBack(m.vector, n);
    DoublesBack(m.covariance, COVARIANCE);
    FitsBoth(Doubles(n), Doubles(COVARIANCE), FromDoubles(m.vector), FromDoubles(m.covariance));
  }

  function ImuType(q: Type, v: Type): Type {
    Both(HEADER_TYPE, Both(q, Both(v, v)))
  }

  function FromImu(m: Imu): Value {
    VBoth(FromHeader(m.header), VBoth(FromReading(m.orientation), VBoth(FromReading(m.angularVelocity),
        FromReading(m.linearAcceleration))))
  }

  function ToImu(v: Value): Imu {
    match v
    case VBoth(h, VBoth(o, VBoth(a, l))) => Imu(ToHeader(h), ToReading(o), ToReading(a), ToReading(l))
    case _ => Imu(Header(0, 0, []), Reading3([], []), Reading3([], []), Reading3([], []))
  }

  predicate ImuOk(m: Imu) {
    && HeaderOk(m.header) && ReadingOk(m.orientation, 4)
    && ReadingOk(m.angularVelocity, 3) && ReadingOk(m.linearAcceleration, 3)
  }

  lemma ImuRoundTrip(lay: Layout, m: Imu, src: Source, buf: seq<byte>)
    requires IsCdr(lay) && ImuOk(m)
    requires buf == EncodedMessage(lay, FromImu(m)) && Over(src, buf, 4)
    ensures var r := DecodedWith(ImuType(ReadingType(QUATERNION), ReadingType(VECTOR)), src, buf);
            r.Some? && ToImu(r.value) == m
  {
    var q, v := ReadingType(QUATERNION), ReadingType(VECTOR);
    HeaderBack(m.header);
    ReadingBack(m.orientation, QUATERNION);
    ReadingBack(m.angularVelocity, VECTOR);
    ReadingBack(m.linearAcceleration, VECTOR);
    ImuFits(m, q, v);
    Reread(lay, ImuType(q, v), FromImu(m), src, buf);
  }

  lemma ImuFits(m: Imu, q: Type, v: Type)
    requires Fits(HEADER_TYPE, FromHeader(m.header)) && Fits(q, FromReading(m.orientation))
    requires Fits(v, FromReading(m.angularVelocity)) && Fits(v, FromReading(m.linearAcceleration))
    ensures Fits(ImuType(q, v), FromImu(m))
  {
    var a, l := FromReading(m.angularVelocity), FromReading(m.linearAcceleration);
    FitsBoth(v, v, a, l);
    FitsBoth(q, Both(v, v), FromReading(m.orientation), VBoth(a, l));
    FitsBoth(HEADER_TYPE, Both(q, Both(v, v)), FromHeader(m.header), VBoth(FromReading(m.orientation), VBoth(a, l)));
  }

  // ------------------------------------------------------- order on the wire

  function GoalInfoWire(m: GoalInfo): seq<Prim> {
    [Raw(m.goalId), Word(W4, m.sec % 0x1_0000_0000), Word(W4, m.nanosec)]
  }

  function GoalStatusWire(m: GoalStatus): seq<Prim> {
    GoalInfoWire(m.info) + [Word(W1, m.status % 0x100)]
  }

  lemma GoalInfoOnWire(m: GoalInfo)
    ensures Flat(FromGoalInfo(m)) == GoalInfoWire(m)
  {
    assert Flat(VBoth(VInt(m.sec), VUInt(m.nanosec))) == [Word(W4, m.sec % 0x1_0000_0000), Word(W4, m.nanosec)];
  }

  lemma GoalStatusOnWire(m: GoalStatus)
    ensures Flat(FromGoalStatus(m)) == GoalStatusWire(m)
  {
    GoalInfoOnWire(m.info);
  }

  /** The count, then for each goal its id, stamp and status. */
  lemma GoalStatusArrayOnWire(m: seq<GoalStatus>)
    ensures Flat(FromGoalStatusArray(m)) == [Word(W4, |m|)] + Joined(Mapped(GoalStatusWire, m))
  {
    forall i | 0 <= i < |m|
      ensures Flat(FromGoalStatus(m[i])) == GoalStatusWire(m[i])
    {
      GoalStatusOnWire(m[i]);
    }
    LoopWire(FromGoalStatus, GoalStatusWire, m);
  }

  /** The return code, the count, then for each goal its id and stamp. */
  lemma CancelGoalResponseOnWire(m: CancelGoalResponse)
    ensures Flat(FromCancelGoalResponse(m)) ==
            [Word(W1, m.returnCode % 0x100)] + [Word(W4, |m.goals|)] + Joined(Mapped(GoalInfoWire, m.goals))
  {
    forall i | 0 <= i < |m.goals|
      ensures Flat(FromGoalInfo(m.goals[i])) == GoalInfoWire(m.goals[i])
    {
      GoalInfoOnWire(m.goals[i]);
    }
    LoopWire(FromGoalInfo, GoalInfoWire, m.goals);
    var list := VList(Mapped(FromGoalInfo, m.goals));
    BothOnWire(VOctet(Octet8(m.returnCode)), list, [Word(W1, m.returnCode % 0x100)], [Word(W4, |m.goals|)],
      Joined(Mapped(GoalInfoWire, m.goals)));
  }

  function DoubleWire(x: nat): Prim {
    Word(W8, x)
  }

  lemma {:induction false} DoublesOnWire(xs: seq<nat>)
    requires xs != []
    ensures Flat(FromDoubles(xs)) == Mapped(DoubleWire, xs)
    decreases |xs|
  {
    if |xs| == 1 {
      assert Mapped(DoubleWire, xs) == [Word(W8, xs[0])];
    } else {
      DoublesOnWire(xs[1..]);
      assert Mapped(DoubleWire, xs) == [Word(W8, xs[0])] + Mapped(DoubleWire, xs[1..]);
    }
  }

  function ReadingWire(m: Reading3): seq<Prim> {
    Mapped(DoubleWire, m.vector) + Mapped(DoubleWire, m.covariance)
  }

  lemma ReadingOnWire(m: Reading3)
    requires m.vector != [] && m.covariance != []
    ensures Flat(FromReading(m)) == ReadingWire(m)
  {
    DoublesOnWire(m.vector);
    DoublesOnWire(m.covariance);
  }

  /** Stamp and frame id, then orientation, angular velocity and linear acceleration, each followed by
      its covariance. */
  lemma ImuOnWire(m: Imu)
    requires ImuOk(m)
    ensures Flat(FromImu(m)) == HeaderWire(m.header) + ReadingWire(m.orientation) + ReadingWire(m.angularVelocity)
              + ReadingWire(m.linearAcceleration)
  {
    HeaderOnWire(m.header);
    ReadingOnWire(m.orientation);
    ReadingOnWire(m.angularVelocity);
    ReadingOnWire(m.linearAcceleration);
    var rates := VBoth(FromReading(m.angularVelocity), FromReading(m.linearAcceleration));
    BothOnWire(FromReading(m.orientation), rates, ReadingWire(m.orientation), ReadingWire(m.angularVelocity),
      ReadingWire(m.linearAcceleration));
    Leading(FromHeader(m.header), VBoth(FromReading(m.orientation), rates), HeaderWire(m.header),
      ReadingWire(m.orientation), ReadingWire(m.angularVelocity), ReadingWire(m.linearAcceleration));
  }

  lemma Leading(x: Value, y: Value, a: seq<Prim>, b: seq<Prim>, c: seq<Prim>, d: seq<Prim>)
    requires Flat(x) == a && Flat(y) == b + c + d
    ensures Flat(VBoth(x, y)) == a + b + c + d
  {
  }

  /** Every message starts with the representation identifier CDR_LE and two zero option bytes; its
      members are laid out behind them, aligned from there on. */
  lemma MessageBytes(lay: Layout, v: Value)
    ensures var e := EncodedMessage(lay, v); |e| >= 4 && e[..4] == [0, 1, 0, 0] && e[4..] == Laying(lay, Flat(v))
  {
  }
}
