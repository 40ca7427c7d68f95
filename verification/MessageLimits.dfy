/** What the decoders of `xrce/src/msgs.c` can put into a struct: whatever the bytes, every string and
    array is within its limit, and the struct says all there is to say about the decoded value. */
module MessageLimits {
  import opened Automata
  import opened Bytes
  import opened CdrValues
  import opened Messages

  // ------------------------------------------------------------ the parts of a value

  lemma TextParts(cap: nat, v: Value)
    requires Fits(Text(cap), v)
    ensures v == VText(StringOf(v)) && CString(StringOf(v), cap)
  {
  }

  lemma BothParts(a: Type, b: Type, v: Value)
    requires Fits(Both(a, b), v)
    ensures v.VBoth? && Fits(a, v.first) && Fits(b, v.second)
  {
  }

  lemma ListParts(max: nat, e: Type, v: Value)
    requires Fits(List(max, e), v)
    ensures v.VList? && |v.items| <= max && forall i :: 0 <= i < |v.items| ==> Fits(e, v.items[i])
  {
  }

  // ---------------------------------------------------------- DiagnosticArray

  lemma KeyValueWithin(v: Value)
    requires Fits(KEY_VALUE_TYPE, v)
    ensures KeyValueOk(ToKeyValue(v)) && FromKeyValue(ToKeyValue(v)) == v
  {
    BothParts(DIAG_TEXT, DIAG_TEXT, v);
    TextParts(DIAG_STR_MAX, v.first);
    TextParts(DIAG_STR_MAX, v.second);
  }

  lemma ValuesWithin(v: Value)
    requires Fits(List(KV_MAX, KEY_VALUE_TYPE), v)
    ensures v.VList?
    ensures var m := Mapped(ToKeyValue, v.items);
            |m| <= 8 && (forall i :: 0 <= i < |m| ==> KeyValueOk(m[i])) && Mapped(FromKeyValue, m) == v.items
  {
    ListParts(KV_MAX, KEY_VALUE_TYPE, v);
    forall i | 0 <= i < |v.items|
      ensures KeyValueOk(ToKeyValue(v.items[i])) && FromKeyValue(ToKeyValue(v.items[i])) == v.items[i]
    {
      KeyValueWithin(v.items[i]);
    }
  }

  lemma StatusWithin(v: Value)
    requires Fits(STATUS_TYPE, v)
    ensures StatusOk(ToStatus(v)) && FromStatus(ToStatus(v)) == v
  {
    var t0 := List(KV_MAX, KEY_VALUE_TYPE);
    var t1 := Both(DIAG_TEXT, t0);
    var t2 := Both(DIAG_TEXT, t1);
    BothParts(Octet, Both(DIAG_TEXT, t2), v);
    var name := v.second;
    BothParts(DIAG_TEXT, t2, name);
    var message := name.second;
    BothParts(DIAG_TEXT, t1, message);
    var hardware := message.second;
    BothParts(DIAG_TEXT, t0, hardware);
    TextParts(DIAG_STR_MAX, name.first);
    TextParts(DIAG_STR_MAX, message.first);
    TextParts(DIAG_STR_MAX, hardware.first);
    ValuesWithin(hardware.second);
  }

  lemma HeaderWithin(v: Value)
    requires Fits(HEADER_TYPE, v)
    ensures HeaderOk(ToHeader(v)) && FromHeader(ToHeader(v)) == v
  {
    BothParts(Int, Both(UInt, Text(FRAME_ID_MAX)), v);
    BothParts(UInt, Text(FRAME_ID_MAX), v.second);
    TextParts(FRAME_ID_MAX, v.second.second);
  }

  lemma DiagnosticArrayWithin(v: Value)
    requires Fits(DIAGNOSTIC_ARRAY_TYPE, v)
    ensures DiagnosticArrayOk(ToDiagnosticArray(v)) && FromDiagnosticArray(ToDiagnosticArray(v)) == v
  {
    var list := List(DIAG_STATUS_MAX, STATUS_TYPE);
    BothParts(HEADER_TYPE, list, v);
    HeaderWithin(v.first);
    ListParts(DIAG_STATUS_MAX, STATUS_TYPE, v.second);
    var items := v.second.items;
    forall i | 0 <= i < |items|
      ensures StatusOk(ToStatus(items[i])) && FromStatus(ToStatus(items[i])) == items[i]
    {
      StatusWithin(items[i]);
    }
    assert Mapped(FromStatus, Mapped(ToStatus, items)) == items;
  }

  /** Whatever the bytes, a decoded DiagnosticArray has at most 16 statuses with at most 8 values each and
      strings of at most 63 characters, and determines what was decoded. */
  lemma DecodedDiagnosticArray(buf: seq<byte>)
    ensures var d := DecodedWith(DIAGNOSTIC_ARRAY_TYPE, BufferSource(buf, 4), buf);
            d.Some? ==> DiagnosticArrayOk(ToDiagnosticArray(d.value))
                        && FromDiagnosticArray(ToDiagnosticArray(d.value)) == d.value
  {
    DecodedMessageFits(DIAGNOSTIC_ARRAY_TYPE, buf);
    var d := DecodedWith(DIAGNOSTIC_ARRAY_TYPE, BufferSource(buf, 4), buf);
    if d.Some? {
      DiagnosticArrayWithin(d.value);
    }
  }

  // ------------------------------------- GoalStatusArray, CancelGoal_Response

  lemma GoalInfoWithin(v: Value)
    requires Fits(GOAL_INFO_TYPE, v)
    ensures GoalInfoOk(ToGoalInfo(v)) && FromGoalInfo(ToGoalInfo(v)) == v
  {
    BothParts(Blob(UUID_SIZE), Both(Int, UInt), v);
    BothParts(Int, UInt, v.second);
  }

  lemma SignedOctet(b: byte)
    ensures Signed8(ToSigned(b, 0x100)) && Octet8(ToSigned(b, 0x100)) == b
  {
  }

  lemma GoalStatusWithin(v: Value)
    requires Fits(GOAL_STATUS_TYPE, v)
    ensures GoalStatusOk(ToGoalStatus(v)) && FromGoalStatus(ToGoalStatus(v)) == v
  {
    BothParts(GOAL_INFO_TYPE, Octet, v);
    GoalInfoWithin(v.first);
    SignedOctet(v.second.octet);
  }

  /** Whatever the bytes, a decoded GoalStatusArray has at most 8 entries and determines what was decoded. */
  lemma DecodedGoalStatusArray(buf: seq<byte>)
    ensures var d := DecodedWith(GOAL_STATUS_ARRAY_TYPE, BufferSource(buf, 4), buf);
            d.Some? ==> var m := ToGoalStatusArray(d.value);
                        && |m| <= 8 && (forall i :: 0 <= i < |m| ==> GoalStatusOk(m[i]))
                        && FromGoalStatusArray(m) == d.value
  {
    DecodedMessageFits(GOAL_STATUS_ARRAY_TYPE, buf);
    var d := DecodedWith(GOAL_STATUS_ARRAY_TYPE, BufferSource(buf, 4), buf);
    if d.Some? {
      GoalStatusArrayWithin(d.value);
    }
  }

  lemma GoalStatusArrayWithin(v: Value)
    requires Fits(GOAL_STATUS_ARRAY_TYPE, v)
    ensures var m := ToGoalStatusArray(v);
            && |m| <= 8 && (forall i :: 0 <= i < |m| ==> GoalStatusOk(m[i]))
            && FromGoalStatusArray(m) == v
  {
    ListParts(GOAL_STATUS_MAX, GOAL_STATUS_TYPE, v);
    forall i | 0 <= i < |v.items|
      ensures GoalStatusOk(ToGoalStatus(v.items[i])) && FromGoalStatus(ToGoalStatus(v.items[i])) == v.items[i]
    {
      GoalStatusWithin(v.items[i]);
    }
    assert Mapped(FromGoalStatus, Mapped(ToGoalStatus, v.items)) == v.items;
  }
}
