/** `xrce/src/secure_transport.c` with its context updated in place, proved to compute the
    envelopes and verdicts of `SecureEnvelope` under HMAC-SHA256. */
module SecureTransport {
  import opened Bytes
  import opened Sha256Spec
  import opened SecureEnvelope
  import Hmac

  /** `mac` is HMAC-SHA256 under `key`. */
  ghost predicate IsHmac(mac: Mac, key: seq<byte>) {
    forall text {:trigger Hmac.HmacSha256(key, text)} :: mac(text) == Hmac.HmacSha256(key, text)
  }

  /** HMAC-SHA256 under `key`, as a function of the text. */
  function Keyed(key: seq<byte>): Mac {
    (text: seq<byte>) => Hmac.HmacSha256(key, text)
  }

  lemma KeyedIsHmac(key: seq<byte>)
    ensures IsHmac(Keyed(key), key)
  {
  }

  /** The accumulated difference of two tags: zero exactly when they agree. */
  method TagsDiffer(received: seq<byte>, expected: seq<byte>) returns (differ: bool)
    requires |received| == |expected|
    ensures differ <==> received != expected
  {
    var diff := 0;
    for i := 0 to |received|
      invariant diff >= 0
      invariant diff == 0 <==> received[..i] == expected[..i]
    {
      assert received[..i + 1] == received[..i] + [received[i]] && expected[..i + 1] == expected[..i] + [expected[i]];
      XorZeroMeansEqual(received[i], expected[i]);
      OrZero(diff, Xor(received[i], expected[i]));
      diff := Or(diff, Xor(received[i], expected[i]));
    }
    assert received[..|received|] == received && expected[..|expected|] == expected;
    differ := diff != 0;
  }

  /** `memcpy(out + at, data, |data|)`. */
  method CopyTo(out: array<byte>, at: nat, data: seq<byte>)
    requires at + |data| <= out.Length
    modifies out
    ensures out[..] == old(out[..])[..at] + data + old(out[..])[at + |data|..]
  {
    ghost var was := out[..];
    for i := 0 to |data|
      invariant out[..] == was[..at] + data[..i] + was[at + i..]
    {
      out[at + i] := data[i];
    }
    assert data[..|data|] == data;
  }

  /** `xrce_secure_ctx_t`. */
  class Context {
    const key: seq<byte>
    var sendCounter: u32
    var lastRecvCounter: u32
    var haveReceived: bool

    function Receiving(): Receiver
      reads this
    {
      Receiver(lastRecvCounter, haveReceived)
    }

    /** `xrce_secure_init`. */
    constructor (key: seq<byte>)
      ensures this.key == key && sendCounter == 0 && Receiving() == FRESH
    {
      this.key := key;
      sendCounter, lastRecvCounter, haveReceived := 0, 0, false;
    }

    /** `compute_tag`, its caller's scratch buffer included; only the first 8 bytes are ever used. */
    method ComputeTag(counter: u32, payload: seq<byte>, ghost mac: Mac) returns (tag: seq<byte>)
      requires |payload| <= LIMIT && IsHmac(mac, key)
      ensures tag == Tag(mac, counter, payload) == mac(Big32(counter) + payload)[..8]
    {
      var scratch := new byte[SCRATCH];
      CopyTo(scratch, 0, Big32(counter));
      CopyTo(scratch, COUNTER_LEN, payload);
      var text := scratch[..COUNTER_LEN + |payload|];
      assert text == Big32(counter) + payload;
      var full := Hmac.Compute(key, text);
      tag := full[..TAG_LEN];
    }

    /** `xrce_secure_wrap`, with the capacity as the length of `out`. */
    method Wrap(payload: seq<byte>, out: array<byte>, ghost mac: Mac) returns (n: nat)
      requires IsHmac(mac, key)
      modifies this, out
      ensures n == if |payload| <= LIMIT && |payload| + OVERHEAD <= out.Length then |payload| + OVERHEAD else 0
      ensures n == 0 ==> unchanged(this) && unchanged(out)
      ensures n > 0 ==> out[..n] == Envelope(mac, old(sendCounter), payload) && out[n..] == old(out[n..])
      ensures n > 0 ==> sendCounter == (old(sendCounter) + 1) % WORD && Receiving() == old(Receiving())
    {
      if |payload| > LIMIT || out.Length < |payload| + OVERHEAD {
        return 0;
      }
      var counter := sendCounter;
      var tag := ComputeTag(counter, payload, mac);
      n := |payload| + OVERHEAD;
      WriteParts(out, Big32(counter), tag, payload);
      sendCounter := (sendCounter + 1) % WORD;
    }

    static method WriteParts(out: array<byte>, counter: seq<byte>, tag: seq<byte>, payload: seq<byte>)
      requires |counter| == COUNTER_LEN && |tag| == TAG_LEN && |payload| + OVERHEAD <= out.Length
      modifies out
      ensures out[..|payload| + OVERHEAD] == counter + tag + payload
      ensures out[|payload| + OVERHEAD..] == old(out[|payload| + OVERHEAD..])
    {
      CopyTo(out, 0, counter);
      CopyTo(out, COUNTER_LEN, tag);
      CopyTo(out, OVERHEAD, payload);
    }

    /** `xrce_secure_unwrap`. */
    method Unwrap(e: seq<byte>, ghost mac: Mac) returns (verdict: Verdict)
      requires IsHmac(mac, key)
      modifies this
      ensures verdict == SecureEnvelope.Unwrap(mac, old(Receiving()), e)
      ensures Receiving() == AfterUnwrap(mac, old(Receiving()), e) && sendCounter == old(sendCounter)
    {
      if |e| < OVERHEAD || |e| - OVERHEAD > SCRATCH - COUNTER_LEN {
        return TooShort;
      }
      var counter := CounterOf(e);
      var plain := e[OVERHEAD..];
      var expected := ComputeTag(counter, plain, mac);
      var differ := TagsDiffer(e[COUNTER_LEN..OVERHEAD], expected);
      if differ {
        return BadTag;
      }
      if haveReceived && counter <= lastRecvCounter {
        return Replayed;
      }
      lastRecvCounter, haveReceived := counter, true;
      return Accepted(plain);
    }
  }
}
