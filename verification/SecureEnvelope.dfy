/** The authenticated envelope of `xrce/src/secure_transport.c` as functions, and what counters
    and tags guarantee over whole runs.  `mac` stands for HMAC-SHA256 under one fixed key. */
module SecureEnvelope {
  import opened Bytes
  import opened Sha256Spec

  const COUNTER_LEN: nat := 4
  const TAG_LEN: nat := 8
  const OVERHEAD: nat := 12
  const SCRATCH: nat := 320
  const LIMIT: nat := SCRATCH - COUNTER_LEN

  type Mac = seq<byte> -> Digest

  // --------------------------------------------------------------- envelopes

  function Tag(mac: Mac, counter: u32, payload: seq<byte>): (r: seq<byte>)
    ensures |r| == TAG_LEN
  {
    mac(Big32(counter) + payload)[..TAG_LEN]
  }

  function Envelope(mac: Mac, counter: u32, payload: seq<byte>): (r: seq<byte>)
    ensures |r| == |payload| + OVERHEAD
  {
    Big32(counter) + Tag(mac, counter, payload) + payload
  }

  function CounterOf(e: seq<byte>): u32
    requires |e| >= OVERHEAD
  {
    Join32(e[0], e[1], e[2], e[3])
  }

  function PlainOf(e: seq<byte>): seq<byte>
    requires |e| >= OVERHEAD
  {
    e[OVERHEAD..]
  }

  predicate Sized(e: seq<byte>) {
    OVERHEAD <= |e| <= OVERHEAD + LIMIT
  }

  /** The envelope carries the tag of its own counter and payload. */
  predicate Genuine(mac: Mac, e: seq<byte>) {
    Sized(e) && e[COUNTER_LEN..OVERHEAD] == Tag(mac, CounterOf(e), PlainOf(e))
  }

  // ---------------------------------------------------------------- receiver

  /** The receiving half of `xrce_secure_ctx_t`. */
  datatype Receiver = Receiver(last: u32, received: bool)

  datatype Verdict = Accepted(plain: seq<byte>) | TooShort | BadTag | Replayed

  const FRESH: Receiver := Receiver(0, false)

  predicate IsNew(r: Receiver, counter: u32) {
    r.received ==> r.last < counter
  }

  function Unwrap(mac: Mac, r: Receiver, e: seq<byte>): Verdict {
    if !Sized(e) then TooShort
    else if e[COUNTER_LEN..OVERHEAD] != Tag(mac, CounterOf(e), PlainOf(e)) then BadTag
    else if !IsNew(r, CounterOf(e)) then Replayed
    else Accepted(PlainOf(e))
  }

  function AfterUnwrap(mac: Mac, r: Receiver, e: seq<byte>): Receiver {
    if Unwrap(mac, r, e).Accepted? then Receiver(CounterOf(e), true) else r
  }

  lemma Big32RoundTrip(n: u32)
    ensures var b := Big32(n); Join32(b[0], b[1], b[2], b[3]) == n
  {
    var x := n / 0x100;
    var y := x / 0x100;
    assert n / 0x1_0000 == y && n / 0x100_0000 == y / 0x100;
  }

  lemma Peel(x: nat, b: nat)
    requires b < 256
    ensures (256 * x + b) / 256 == x && (256 * x + b) % 256 == b
  {
  }

  lemma Join32Bytes(b0: nat, b1: nat, b2: nat, b3: nat)
    requires b0 < 256 && b1 < 256 && b2 < 256 && b3 < 256
    ensures Big32(Join32(b0, b1, b2, b3)) == [b0, b1, b2, b3]
  {
    var x := 256 * b0 + b1;
    var y := 256 * x + b2;
    var n := 256 * y + b3;
    Peel(b0, b1);
    Peel(x, b2);
    Peel(y, b3);
    assert Join32(b0, b1, b2, b3) == n;
    assert n / 0x1_0000 == (n / 256) / 256 && n / 0x100_0000 == ((n / 256) / 256) / 256;
  }

  lemma Join32RoundTrip(b: seq<byte>)
    requires |b| == 4
    ensures Big32(Join32(b[0], b[1], b[2], b[3])) == b
  {
    Join32Bytes(b[0], b[1], b[2], b[3]);
  }

  lemma EnvelopeParts(mac: Mac, counter: u32, payload: seq<byte>)
    ensures var e := Envelope(mac, counter, payload);
            CounterOf(e) == counter && PlainOf(e) == payload && e[COUNTER_LEN..OVERHEAD] == Tag(mac, counter, payload)
  {
    Big32RoundTrip(counter);
    var e := Envelope(mac, counter, payload);
    assert e[..4] == Big32(counter);
  }

  lemma EnvelopeIsGenuine(mac: Mac, counter: u32, payload: seq<byte>)
    requires |payload| <= LIMIT
    ensures var e := Envelope(mac, counter, payload);
            Genuine(mac, e) && CounterOf(e) == counter && PlainOf(e) == payload
  {
    EnvelopeParts(mac, counter, payload);
  }

  /** Unwrapping accepts exactly what wrapping a short enough payload under a newer counter
      produces, and hands out that payload. */
  lemma AcceptsExactlyFreshWraps(mac: Mac, r: Receiver, e: seq<byte>, payload: seq<byte>)
    ensures Unwrap(mac, r, e) == Accepted(payload) <==>
            |payload| <= LIMIT && exists c: u32 :: IsNew(r, c) && e == Envelope(mac, c, payload)
  {
    if Unwrap(mac, r, e) == Accepted(payload) {
      GenuineIsEnvelope(mac, e);
    }
    if c: u32 :| |payload| <= LIMIT && IsNew(r, c) && e == Envelope(mac, c, payload) {
      EnvelopeParts(mac, c, payload);
    }
  }

  lemma GenuineIsEnvelope(mac: Mac, e: seq<byte>)
    ensures Genuine(mac, e) ==> e == Envelope(mac, CounterOf(e), PlainOf(e))
  {
    if Genuine(mac, e) {
      Join32RoundTrip(e[..4]);
      assert e == e[..4] + e[4..12] + e[12..];
    }
  }

  // ------------------------------------------------------------- receiver runs

  function ReceiverAfter(mac: Mac, r: Receiver, es: seq<seq<byte>>): Receiver {
    if es == [] then r else AfterUnwrap(mac, ReceiverAfter(mac, r, es[..|es| - 1]), es[|es| - 1])
  }

  /** The verdict on envelope `i` of a run from the initial state. */
  function VerdictAt(mac: Mac, es: seq<seq<byte>>, i: nat): Verdict
    requires i < |es|
  {
    Unwrap(mac, ReceiverAfter(mac, FRESH, es[..i]), es[i])
  }

  predicate TakenAt(mac: Mac, es: seq<seq<byte>>, i: nat)
    requires i < |es|
  {
    VerdictAt(mac, es, i).Accepted?
  }

  lemma ReceiverStep(mac: Mac, es: seq<seq<byte>>, n: nat)
    requires n < |es|
    ensures ReceiverAfter(mac, FRESH, es[..n + 1]) ==
            if TakenAt(mac, es, n) then Receiver(CounterOf(es[n]), true) else ReceiverAfter(mac, FRESH, es[..n])
  {
    assert es[..n + 1][..n] == es[..n];
  }

  /** The state is above every counter accepted so far ... */
  lemma {:induction false} ReceiverIsAbove(mac: Mac, es: seq<seq<byte>>, n: nat, i: nat)
    requires i < n <= |es|
    ensures var r := ReceiverAfter(mac, FRESH, es[..n]);
            TakenAt(mac, es, i) ==> r.received && CounterOf(es[i]) <= r.last
    decreases n
  {
    ReceiverStep(mac, es, n - 1);
    if i < n - 1 {
      ReceiverIsAbove(mac, es, n - 1, i);
    }
  }

  /** ... and is one of them. */
  lemma {:induction false} ReceiverRemembers(mac: Mac, es: seq<seq<byte>>, n: nat) returns (i: nat)
    requires n <= |es|
    ensures var r := ReceiverAfter(mac, FRESH, es[..n]);
            r.received ==> i < n && TakenAt(mac, es, i) && CounterOf(es[i]) == r.last
    decreases n
  {
    i := 0;
    if n > 0 {
      ReceiverStep(mac, es, n - 1);
      if TakenAt(mac, es, n - 1) {
        i := n - 1;
      } else {
        i := ReceiverRemembers(mac, es, n - 1);
      }
    }
  }

  /** What the receiver accepts, without its state: a genuine envelope whose counter is above
      every counter accepted before. */
  lemma {:induction false} AcceptanceRule(mac: Mac, es: seq<seq<byte>>, n: nat)
    requires n < |es|
    ensures TakenAt(mac, es, n) <==>
            Genuine(mac, es[n]) && forall i: nat :: i < n && TakenAt(mac, es, i) ==> CounterOf(es[i]) < CounterOf(es[n])
  {
    var r := ReceiverAfter(mac, FRESH, es[..n]);
    forall i: nat | i < n && TakenAt(mac, es, i)
      ensures r.received && CounterOf(es[i]) <= r.last
    {
      ReceiverIsAbove(mac, es, n, i);
    }
    if r.received {
      var i := ReceiverRemembers(mac, es, n);
    }
  }

  /** Accepted counters strictly increase, so no envelope is accepted twice. */
  lemma {:induction false} NeverTwice(mac: Mac, es: seq<seq<byte>>, i: nat, j: nat)
    requires i < j < |es|
    ensures TakenAt(mac, es, i) && TakenAt(mac, es, j) ==> CounterOf(es[i]) < CounterOf(es[j]) && es[i] != es[j]
  {
    if TakenAt(mac, es, i) && TakenAt(mac, es, j) {
      AcceptanceRule(mac, es, j);
    }
  }

  /** Rejected envelopes leave no trace: dropping one changes no later verdict. */
  lemma {:induction false} RejectionLeavesNoTrace(mac: Mac, r: Receiver, es: seq<seq<byte>>, bad: seq<byte>,
      rest: seq<seq<byte>>)
    requires !Unwrap(mac, ReceiverAfter(mac, r, es), bad).Accepted?
    ensures ReceiverAfter(mac, r, es + [bad] + rest) == ReceiverAfter(mac, r, es + rest)
    decreases |rest|
  {
    if rest == [] {
      assert es + [bad] + rest == es + [bad] && es + rest == es && (es + [bad])[..|es|] == es;
    } else {
      var m := |rest| - 1;
      RejectionLeavesNoTrace(mac, r, es, bad, rest[..m]);
      assert (es + [bad] + rest)[..|es| + 1 + m] == es + [bad] + rest[..m];
      assert (es + rest)[..|es| + m] == es + rest[..m];
    }
  }

  // ------------------------------------------------------------------ sender

  /** The sender over a list of payloads: `send_counter` counts the wraps in 32 bits and an
      overlong payload is refused (the empty result) without using a counter up. */
  function SendCounter(payloads: seq<seq<byte>>): u32 {
    if payloads == [] then 0
    else
      var before := SendCounter(payloads[..|payloads| - 1]);
      if |payloads[|payloads| - 1]| <= LIMIT then (before + 1) % WORD else before
  }

  function SentAt(mac: Mac, payloads: seq<seq<byte>>, k: nat): seq<byte>
    requires k < |payloads|
  {
    if |payloads[k]| <= LIMIT then Envelope(mac, SendCounter(payloads[..k]), payloads[k]) else []
  }

  predicate AllShort(payloads: seq<seq<byte>>) {
    forall k :: 0 <= k < |payloads| ==> |payloads[k]| <= LIMIT
  }

  lemma NextMod(k: nat)
    ensures (k % WORD + 1) % WORD == (k + 1) % WORD
  {
  }

  lemma {:induction false} CounterCounts(payloads: seq<seq<byte>>, k: nat)
    requires k <= |payloads| && AllShort(payloads)
    ensures SendCounter(payloads[..k]) == k % WORD
  {
    if k > 0 {
      CounterCounts(payloads, k - 1);
      assert payloads[..k][..k - 1] == payloads[..k - 1];
      NextMod(k - 1);
    }
  }

  lemma SentIs(mac: Mac, payloads: seq<seq<byte>>, k: nat, counter: u32)
    requires k < |payloads| && AllShort(payloads) && counter == k % WORD
    ensures SentAt(mac, payloads, k) == Envelope(mac, counter, payloads[k])
  {
    CounterCounts(payloads, k);
  }

  predicate Increasing(ks: seq<nat>, n: nat) {
    && (forall i :: 0 <= i < |ks| ==> ks[i] < n)
    && (forall i, j :: 0 <= i < j < |ks| ==> ks[i] < ks[j])
  }

  /** The envelopes with the numbers `ks`, in the order they were sent. */
  function Picked(mac: Mac, payloads: seq<seq<byte>>, ks: seq<nat>): (r: seq<seq<byte>>)
    requires Increasing(ks, |payloads|)
    ensures |r| == |ks|
  {
    seq(|ks|, i requires 0 <= i < |ks| => SentAt(mac, payloads, ks[i]))
  }

  /** The 32-bit counters under the numbers `ks`. */
  predicate CountersIncrease(ks: seq<nat>) {
    forall i, j :: 0 <= i < j < |ks| ==> ks[i] % WORD < ks[j] % WORD
  }

  lemma PickedIs(mac: Mac, payloads: seq<seq<byte>>, ks: seq<nat>, i: nat, counter: u32)
    requires AllShort(payloads) && Increasing(ks, |payloads|) && i < |ks| && counter == ks[i] % WORD
    ensures var e := Picked(mac, payloads, ks)[i];
            Genuine(mac, e) && CounterOf(e) == counter && PlainOf(e) == payloads[ks[i]]
  {
    SentIs(mac, payloads, ks[i], counter);
    EnvelopeIsGenuine(mac, counter, payloads[ks[i]]);
  }

  ghost predicate AllAccepted(mac: Mac, payloads: seq<seq<byte>>, ks: seq<nat>)
    requires Increasing(ks, |payloads|)
  {
    forall i: nat :: i < |ks| ==> VerdictAt(mac, Picked(mac, payloads, ks), i) == Accepted(payloads[ks[i]])
  }

  lemma CountersAt(mac: Mac, payloads: seq<seq<byte>>, ks: seq<nat>, i: nat, j: nat)
    requires AllShort(payloads) && Increasing(ks, |payloads|) && i < |ks| && j < |ks|
    ensures var es := Picked(mac, payloads, ks);
            && Genuine(mac, es[i]) && Genuine(mac, es[j]) && PlainOf(es[j]) == payloads[ks[j]]
            && (CounterOf(es[i]) < CounterOf(es[j]) <==> ks[i] % WORD < ks[j] % WORD)
  {
    PickedIs(mac, payloads, ks, i, ks[i] % WORD);
    PickedIs(mac, payloads, ks, j, ks[j] % WORD);
  }

  lemma AcceptedIfNewest(mac: Mac, payloads: seq<seq<byte>>, ks: seq<nat>, j: nat)
    requires AllShort(payloads) && Increasing(ks, |payloads|) && j < |ks|
    requires forall i :: 0 <= i < j ==> ks[i] % WORD < ks[j] % WORD
    ensures VerdictAt(mac, Picked(mac, payloads, ks), j) == Accepted(payloads[ks[j]])
  {
    var es := Picked(mac, payloads, ks);
    CountersAt(mac, payloads, ks, j, j);
    forall i: nat | i < j
      ensures CounterOf(es[i]) < CounterOf(es[j])
    {
      CountersAt(mac, payloads, ks, i, j);
    }
    AcceptanceRule(mac, es, j);
  }

  /** Whatever a link loses of however long a stream: everything that arrives is accepted, with the
      original payloads, exactly when the 32-bit counters of what arrives strictly increase. */
  lemma AllAcceptedIff(mac: Mac, payloads: seq<seq<byte>>, ks: seq<nat>)
    requires AllShort(payloads) && Increasing(ks, |payloads|)
    ensures AllAccepted(mac, payloads, ks) <==> CountersIncrease(ks)
  {
    var es := Picked(mac, payloads, ks);
    if CountersIncrease(ks) {
      forall j: nat | j < |ks|
        ensures VerdictAt(mac, es, j) == Accepted(payloads[ks[j]])
      {
        AcceptedIfNewest(mac, payloads, ks, j);
      }
    }
    if AllAccepted(mac, payloads, ks) {
      forall i, j | 0 <= i < j < |ks|
        ensures ks[i] % WORD < ks[j] % WORD
      {
        assert TakenAt(mac, es, i) && TakenAt(mac, es, j);
        NeverTwice(mac, es, i, j);
        CountersAt(mac, payloads, ks, i, j);
      }
    }
  }

  /** In particular everything that arrives of one sender's first 2^32 wraps. */
  lemma EverySubsequenceAccepted(mac: Mac, payloads: seq<seq<byte>>, ks: seq<nat>, i: nat)
    requires AllShort(payloads) && |payloads| <= WORD && Increasing(ks, |payloads|) && i < |ks|
    ensures VerdictAt(mac, Picked(mac, payloads, ks), i) == Accepted(payloads[ks[i]])
  {
    forall i, j | 0 <= i < j < |ks|
      ensures ks[i] % WORD < ks[j] % WORD
    {
      SmallMod(ks[i]);
      SmallMod(ks[j]);
    }
    AllAcceptedIff(mac, payloads, ks);
  }

  lemma SmallMod(k: nat)
    requires k < WORD
    ensures k % WORD == k
  {
  }

  lemma OldCounterRefused(mac: Mac, r: Receiver, counter: u32, payload: seq<byte>)
    requires |payload| <= LIMIT && !IsNew(r, counter)
    ensures Unwrap(mac, r, Envelope(mac, counter, payload)) == Replayed
  {
    EnvelopeIsGenuine(mac, counter, payload);
  }

  /** The bound is exact: wrap number 2^32 reuses counter 0, which a receiver that has accepted
      anything refuses. */
  lemma {:induction false} WrapAroundRefused(mac: Mac, payloads: seq<seq<byte>>, k: nat, r: Receiver)
    requires AllShort(payloads) && k < |payloads| && k == WORD && r.received
    ensures Unwrap(mac, r, SentAt(mac, payloads, k)) == Replayed
  {
    SentIs(mac, payloads, k, 0);
    OldCounterRefused(mac, r, 0, payloads[k]);
  }

  // ------------------------------------------------------------ byte by byte

  lemma CounterIs(e: seq<byte>)
    requires |e| >= OVERHEAD
    ensures CounterOf(e) == Value32(e[0], e[1], e[2], e[3]) && Big32(CounterOf(e)) == e[..4]
  {
    Join32RoundTrip(e[..4]);
  }

  /** The tag covers counter and payload: over the bytes themselves, an envelope has the right tag
      when bytes 4 to 11 are the first 8 of the MAC of everything else. */
  ghost predicate TagCovers(mac: Mac, e: seq<byte>) {
    12 <= |e| <= 328 && e[4..12] == mac(e[..4] + e[12..])[..8]
  }

  lemma GenuineIffCovered(mac: Mac, e: seq<byte>)
    ensures Genuine(mac, e) <==> TagCovers(mac, e)
  {
    if Sized(e) {
      CounterIs(e);
    }
  }

  /** The acceptance rule on raw bytes: length, MAC over counter and payload, and a big-endian
      counter above the last one accepted. */
  lemma AcceptedIffCovered(mac: Mac, r: Receiver, e: seq<byte>)
    ensures Unwrap(mac, r, e).Accepted? <==>
            TagCovers(mac, e) && (r.received ==> r.last < Value32(e[0], e[1], e[2], e[3]))
    ensures Unwrap(mac, r, e).Accepted? ==>
            && Unwrap(mac, r, e).plain == e[12..]
            && AfterUnwrap(mac, r, e) == Receiver(Value32(e[0], e[1], e[2], e[3]), true)
  {
    GenuineIffCovered(mac, e);
    if |e| >= OVERHEAD {
      CounterIs(e);
    }
  }

  /** A payload altered under the counter and tag of an accepted envelope is accepted only if the
      two MACs agree on their first 8 bytes; otherwise the verdict is a bad tag. */
  lemma AlteredPayload(mac: Mac, r: Receiver, r': Receiver, e: seq<byte>, e': seq<byte>)
    requires Unwrap(mac, r, e).Accepted? && |e'| >= 12 && e'[..12] == e[..12]
    ensures Unwrap(mac, r', e').Accepted? ==> mac(e'[..4] + e'[12..])[..8] == mac(e[..4] + e[12..])[..8]
    ensures |e'| <= 328 && mac(e'[..4] + e'[12..])[..8] != mac(e[..4] + e[12..])[..8] ==> Unwrap(mac, r', e') == BadTag
  {
    AcceptedIffCovered(mac, r, e);
    AcceptedIffCovered(mac, r', e');
    GenuineIffCovered(mac, e');
    assert e'[4..12] == e'[..12][4..] == e[4..12];
  }

  /** Wrapping, byte by byte. */
  lemma EnvelopeBytes(mac: Mac, c: u32, payload: seq<byte>)
    ensures var e := Envelope(mac, c, payload);
            && |e| == 12 + |payload| && Value32(e[0], e[1], e[2], e[3]) == c
            && e[4..12] == mac(e[..4] + payload)[..8] && e[12..] == payload
  {
    EnvelopeParts(mac, c, payload);
    CounterIs(Envelope(mac, c, payload));
  }

  /** The other verdicts: the size is looked at first, then the tag, then the counter. */
  lemma RefusedFor(mac: Mac, r: Receiver, e: seq<byte>)
    ensures Unwrap(mac, r, e) == TooShort <==> |e| < 12 || |e| > 328
    ensures Unwrap(mac, r, e) == BadTag <==> 12 <= |e| <= 328 && !TagCovers(mac, e)
    ensures Unwrap(mac, r, e) == Replayed <==>
            TagCovers(mac, e) && r.received && Value32(e[0], e[1], e[2], e[3]) <= r.last
    ensures !Unwrap(mac, r, e).Accepted? ==> AfterUnwrap(mac, r, e) == r
  {
    GenuineIffCovered(mac, e);
    if |e| >= OVERHEAD {
      CounterIs(e);
    }
  }
}
