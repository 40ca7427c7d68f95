/** `xrce_sha256` and `xrce/src/hmac.c`: whole-message hashing and HMAC on top of the stream. */
module Hmac {
  import opened Automata
  import opened Bytes
  import opened Sha256Spec
  import opened Sha256Stream

  // ----------------------------------------------------------- whole messages

  /** Any number of updates of any sizes add up to one. */
  method UpdateAll(ctx: Context, parts: seq<seq<byte>>, ghost m: seq<byte>)
    requires ctx.Holds(m)
    modifies ctx, ctx.buf
    ensures ctx.Holds(m + Joined(parts))
    decreases |parts|
  {
    if parts != [] {
      ctx.Append(parts[0], m);
      JoinedFront(m, parts);
      UpdateAll(ctx, parts[1..], m + parts[0]);
    } else {
      assert m + [] == m;
    }
  }

  lemma JoinedFront(m: seq<byte>, parts: seq<seq<byte>>)
    requires parts != []
    ensures m + parts[0] + Joined(parts[1..]) == m + Joined(parts)
  {
  }

  /** `hash` is SHA-256. */
  ghost predicate IsSha256(hash: seq<byte> -> Digest) {
    forall m {:trigger Sha256(m)} :: hash(m) == Sha256(m)
  }

  /** However a message is cut up between init and final, only the concatenation counts. */
  method HashParts(parts: seq<seq<byte>>, ghost hash: seq<byte> -> Digest) returns (out: Digest)
    requires IsSha256(hash)
    ensures out == hash(Joined(parts))
  {
    TableSize();
    var ctx := new Context(SHA256);
    UpdateAll(ctx, parts, []);
    assert [] + Joined(parts) == Joined(parts);
    out := ctx.Final(Joined(parts));
    assert out == Sha256(Joined(parts));
  }

  lemma TableSize()
    ensures |SHA256.k| == 64
  {
  }

  lemma ConcatFew(a: seq<byte>, b: seq<byte>)
    ensures Joined([a]) == a && Joined([a, b]) == a + b
  {
    assert [a][1..] == [] && [a, b][1..] == [b] && [b][1..] == [];
  }

  /** `xrce_sha256`. */
  method Hash(data: seq<byte>, ghost hash: seq<byte> -> Digest) returns (out: Digest)
    requires IsSha256(hash)
    ensures out == hash(data)
  {
    ConcatFew(data, data);
    out := HashParts([data], hash);
  }

  // --------------------------------------------------------------------- HMAC

  /** The key as one block: section 2 of RFC 2104, steps (1) and (2). */
  function KeyBlock(hash: seq<byte> -> Digest, key: seq<byte>): (r: seq<byte>)
    ensures |r| == BLOCK
  {
    if |key| > BLOCK then hash(key) + Zeros(BLOCK - 32) else key + Zeros(BLOCK - |key|)
  }

  function XorWith(block: seq<byte>, b: byte): (r: seq<byte>)
    ensures |r| == |block|
  {
    seq(|block|, i requires 0 <= i < |block| => XorBytes(block[i], b))
  }

  /** `H(K XOR opad, H(K XOR ipad, text))`. */
  function HmacWith(hash: seq<byte> -> Digest, key: seq<byte>, text: seq<byte>): Digest {
    var block := KeyBlock(hash, key);
    hash(XorWith(block, 0x5c) + hash(XorWith(block, 0x36) + text))
  }

  function HmacSha256(key: seq<byte>, text: seq<byte>): Digest {
    HmacWith(Sha256, key, text)
  }

  method FillKeyBlock(key: seq<byte>, ghost hash: seq<byte> -> Digest) returns (block: array<byte>)
    requires IsSha256(hash)
    ensures fresh(block) && block[..] == KeyBlock(hash, key)
  {
    if |key| > BLOCK {
      var hashed := Hash(key, hash);
      block := CopyPadded(hashed);
    } else {
      block := CopyPadded(key);
    }
  }

  /** `memcpy` to the front of a block and `memset` of the rest. */
  method CopyPadded(from: seq<byte>) returns (block: array<byte>)
    requires |from| <= BLOCK
    ensures fresh(block) && block[..] == from + Zeros(BLOCK - |from|)
  {
    block := new byte[BLOCK](_ => 0);
    for i := 0 to |from|
      invariant block[..] == from[..i] + Zeros(BLOCK - i)
    {
      block[i] := from[i];
    }
  }

  method Pads(block: array<byte>) returns (ipad: array<byte>, opad: array<byte>)
    ensures fresh(ipad) && fresh(opad)
    ensures ipad[..] == XorWith(block[..], 0x36) && opad[..] == XorWith(block[..], 0x5c)
  {
    ipad := new byte[block.Length];
    opad := new byte[block.Length];
    for i := 0 to block.Length
      invariant forall j :: 0 <= j < i ==> ipad[j] == XorBytes(block[j], 0x36) && opad[j] == XorBytes(block[j], 0x5c)
    {
      ipad[i] := XorBytes(block[i], 0x36);
      opad[i] := XorBytes(block[i], 0x5c);
    }
  }

  method ComputeWith(key: seq<byte>, data: seq<byte>, ghost hash: seq<byte> -> Digest) returns (out: Digest)
    requires IsSha256(hash)
    ensures out == HmacWith(hash, key, data)
  {
    var block := FillKeyBlock(key, hash);
    var ipad, opad := Pads(block);
    ConcatFew(ipad[..], data);
    var inner := HashParts([ipad[..], data], hash);
    ConcatFew(opad[..], inner);
    out := HashParts([opad[..], inner], hash);
  }

  /** `xrce_hmac_sha256`. */
  method Compute(key: seq<byte>, data: seq<byte>) returns (out: Digest)
    ensures out == HmacSha256(key, data)
  {
    out := ComputeWith(key, data, Sha256);
  }

  // -------------------------------------------------------- the pads, byte by byte

  /** Byte `i` of a key of at most 64 bytes, filled up with zeros, under `pad`. */
  function PaddedKeyByte(key: seq<byte>, i: nat, pad: byte): byte {
    XorBytes(if i < |key| then key[i] else 0, pad)
  }

  function PaddedKey(key: seq<byte>, pad: byte): (r: seq<byte>)
    ensures |r| == 64
  {
    seq(64, i requires 0 <= i < 64 => PaddedKeyByte(key, i, pad))
  }

  lemma PadOfShortKey(key: seq<byte>, pad: byte)
    requires |key| <= 64
    ensures XorWith(key + Zeros(64 - |key|), pad) == PaddedKey(key, pad)
  {
  }

  /** Section 2 of RFC 2104 with its constants: the inner pad is 0x36, the outer 0x5c, keys of up to
      and including 64 bytes are used as they are, longer ones are hashed first. */
  lemma HmacByteByByte(hash: seq<byte> -> Digest, key: seq<byte>, text: seq<byte>)
    ensures |key| <= 64 ==> HmacWith(hash, key, text) == hash(PaddedKey(key, 0x5c) + hash(PaddedKey(key, 0x36) + text))
    ensures |key| > 64 ==>
              HmacWith(hash, key, text) == hash(PaddedKey(hash(key), 0x5c) + hash(PaddedKey(hash(key), 0x36) + text))
  {
    var k := if |key| <= 64 then key else hash(key);
    PadOfShortKey(k, 0x36);
    PadOfShortKey(k, 0x5c);
  }
}
