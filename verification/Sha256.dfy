/** `xrce/src/sha256.c`: the streaming context and its padding loop, proved to compute what
    FIPS 180-4 defines however the input is cut up. */
module Sha256Stream {
  import opened Bytes
  import opened Sha256Spec
  import opened Sha256Block

  const TWO64: nat := 0x1_0000_0000_0000_0000

  // ------------------------------------------------------------ about Absorb

  /** A message that ends on a block boundary can be absorbed first. */
  lemma {:induction false} AbsorbSplit<H>(f: (H, seq<byte>) -> H, h: H, q: seq<byte>, rest: seq<byte>)
    requires |q| % BLOCK == 0
    ensures Absorb(f, h, q + rest) == Absorb(f, Absorb(f, h, q), rest)
    decreases |q|
  {
    if q == [] {
      assert q + rest == rest;
    } else {
      AbsorbSplit(f, f(h, q[..BLOCK]), q[BLOCK..], rest);
      assert (q + rest)[..BLOCK] == q[..BLOCK];
      assert (q + rest)[BLOCK..] == q[BLOCK..] + rest;
    }
  }

  lemma {:induction false} AbsorbBlock<H>(f: (H, seq<byte>) -> H, h: H, q: seq<byte>, block: seq<byte>)
    requires |q| % BLOCK == 0 && |block| == BLOCK
    ensures Absorb(f, h, q + block) == f(Absorb(f, h, q), block) && |q + block| % BLOCK == 0
  {
    AbsorbSplit(f, h, q, block);
    assert block[..BLOCK] == block && block[BLOCK..] == [];
    assert |q + block| == |q| + BLOCK;
  }

  // ---------------------------------------------------------------- context

  /** `xrce_sha256_ctx_t`, with the constants the source has in a table. */
  class Context {
    const p: Parameters
    ghost const f: (Vars, seq<byte>) -> Vars
    var state: Vars
    var totalLen: nat
    const buf: array<byte>
    var bufLen: nat
    ghost var whole: seq<byte>  // the bytes that were hashed block by block

    /** The context has taken in exactly the bytes of `m`. */
    ghost predicate Holds(m: seq<byte>)
      reads this, buf
    {
      Blocked(m) && totalLen == |m| % TWO64
    }

    /** The whole blocks of `m` are in the hash value and the rest is in the buffer. */
    ghost predicate Blocked(m: seq<byte>)
      reads this, buf
    {
      && Table() && buf.Length == BLOCK && bufLen < BLOCK
      && m == whole + buf[..bufLen]
      && Absorbed()
    }

    ghost predicate Table() {
      |p.k| == 64 && Computes(f, p)
    }

    ghost predicate Absorbed()
      reads this
    {
      |whole| % BLOCK == 0 && state == Absorb(f, p.h0, whole)
    }

    /** `xrce_sha256_init`. */
    constructor (p: Parameters)
      requires |p.k| == 64
      ensures this.p == p && f == Compressor(p) && fresh(buf) && Holds([])
    {
      this.p := p;
      f := Compressor(p);
      state, totalLen, bufLen, whole := p.h0, 0, 0, [];
      buf := new byte[BLOCK];
    }

    /** `process_block`. */
    method ProcessBlock(block: seq<byte>)
      requires |block| == BLOCK && Table() && Absorbed()
      modifies this`state, this`whole
      ensures Absorbed() && whole == old(whole) + block
    {
      AbsorbBlock(f, p.h0, whole, block);
      whole := whole + block;
      state := CompressBlock(p, state, block);
    }

    /** `memcpy(ctx->buf + at, data, |data|)`. */
    method CopyIn(at: nat, data: seq<byte>)
      requires at + |data| <= buf.Length
      modifies buf
      ensures buf[..at + |data|] == old(buf[..at]) + data
    {
      for i := 0 to |data|
        invariant buf[..at + i] == old(buf[..at]) + data[..i]
      {
        buf[at + i] := data[i];
      }
      assert data[..|data|] == data;
    }

    /** Tops up a partial block; returns what of `data` is left over. */
    method TopUp(data: seq<byte>, ghost m: seq<byte>) returns (rest: seq<byte>)
      requires Blocked(m) && bufLen > 0
      modifies this`state, this`bufLen, this`whole, buf
      ensures |rest| <= |data| && rest == data[|data| - |rest|..]
      ensures Blocked(m + data[..|data| - |rest|]) && (bufLen == 0 || rest == [])
    {
      var need := BLOCK - bufLen;
      var take := if |data| < need then |data| else need;
      rest := data[take..];
      CopyIn(bufLen, data[..take]);
      bufLen := bufLen + take;
      assert whole + buf[..bufLen] == m + data[..take];
      if bufLen == BLOCK {
        assert buf[..] == buf[..BLOCK];
        ProcessBlock(buf[..]);
        bufLen := 0;
      }
    }

    /** `xrce_sha256_update`. */
    method Update(data: seq<byte>, ghost m: seq<byte>)
      requires Blocked(m)
      modifies this, buf
      ensures Blocked(m + data) && totalLen == (old(totalLen) + |data|) % TWO64
    {
      totalLen := (totalLen + |data|) % TWO64;
      var rest := data;
      ghost var done := m;
      if bufLen > 0 {
        rest := TopUp(data, m);
        done := m + data[..|data| - |rest|];
      }
      assert done + rest == m + data;
      UpdateBlocks(rest, done);
    }

    /** The whole blocks of `data` and the copy of what is left. */
    method UpdateBlocks(data: seq<byte>, ghost m: seq<byte>)
      requires Blocked(m) && (bufLen == 0 || data == [])
      modifies this`state, this`bufLen, this`whole, buf
      ensures Blocked(m + data)
    {
      var pos := 0;
      assert m + data[..0] == m;
      while |data| - pos >= BLOCK
        invariant pos <= |data| && Blocked(m + data[..pos]) && (bufLen == 0 || data == [])
      {
        var block := data[pos..pos + BLOCK];
        ProcessBlock(block);
        assert m + data[..pos] + block == m + data[..pos + BLOCK];
        pos := pos + BLOCK;
      }
      assert m + data[..pos] + data[pos..] == m + data;
      if |data| - pos > 0 {
        CopyIn(0, data[pos..]);
        bufLen := |data| - pos;
      }
    }

    /** Appending to what the context holds. */
    method Append(data: seq<byte>, ghost m: seq<byte>)
      requires Holds(m)
      modifies this, buf
      ensures Holds(m + data)
    {
      ModSum(|m|, |data|);
      Update(data, m);
    }

    /** `xrce_sha256_final`. */
    method Final(ghost m: seq<byte>) returns (out: Digest)
      requires Holds(m)
      modifies this, buf
      ensures out == HashWith(f, p.h0, m)
    {
      Pad(m);
      out := DigestBytes(state);
    }

    /** 0x80, zeros until 56 bytes are buffered, and the bit count taken before any of them. */
    method Pad(ghost m: seq<byte>)
      requires Holds(m)
      modifies this, buf
      ensures Absorbed() && whole == Padded(m)
    {
      var bitLen := totalLen * 8 % TWO64;
      LengthBytes(|m|);
      PadOne(0x80, m);
      ghost var done := PadLoop(m);
      Update(Big64(bitLen), done);
      ghost var all := done + Big64(bitLen);
      assert all == Padded(m);
      PaddedIsWhole(m);
      Exactly(whole, bufLen, |all|);
    }

    /** The zero-padding loop. */
    method PadLoop(ghost m: seq<byte>) returns (ghost done: seq<byte>)
      requires Blocked(m + [0x80])
      modifies this, buf
      ensures Blocked(done) && done == m + [0x80] + Zeros(PadZeros(|m|))
    {
      ghost var z, limit := 0, PadZeros(|m|);
      done := m + [0x80];
      StillShort(|m|, z, |whole|, bufLen);
      while bufLen != BLOCK - 8
        invariant Blocked(done) && done == m + [0x80] + Zeros(z)
        invariant z <= limit && (bufLen == BLOCK - 8 <==> z == limit)
        decreases limit - z
      {
        PadOne(0, done);
        done := done + [0];
        z := z + 1;
        StillShort(|m|, z, |whole|, bufLen);
      }
    }

    /** One byte of padding, which does not count as message. */
    method PadOne(b: byte, ghost m: seq<byte>)
      requires Blocked(m)
      modifies this, buf
      ensures Blocked(m + [b]) && totalLen == old(totalLen) % TWO64
    {
      Update([b], m);
      totalLen := (totalLen + TWO64 - 1) % TWO64;
    }
  }

  lemma ModSum(x: nat, y: nat)
    ensures (x % TWO64 + y) % TWO64 == (x + y) % TWO64
  {
  }

  lemma Exactly(whole: seq<byte>, tail: nat, n: nat)
    requires |whole| % BLOCK == 0 && n % BLOCK == 0 && tail < BLOCK && |whole| + tail == n
    ensures tail == 0
  {
  }

  /** The loop stops exactly after the zeros the standard asks for. */
  lemma StillShort(n: nat, z: nat, q: nat, tail: nat)
    requires z <= PadZeros(n) && n + 1 + z == q + tail && q % BLOCK == 0 && tail < BLOCK
    ensures tail == BLOCK - 8 <==> z == PadZeros(n)
  {
  }

  /** Multiplying in 64 bits loses nothing that the eight length bytes would show. */
  lemma LengthBytes(n: nat)
    ensures Big64((n % TWO64) * 8 % TWO64) == Big64(8 * n)
  {
    var low := (n % TWO64) * 8 % TWO64;
    var q := 8 * (n / TWO64) + (n % TWO64) * 8 / TWO64;
    assert 8 * n == TWO64 * q + low;
    forall k: nat | k < 8
      ensures Big64(low)[k] == Big64(8 * n)[k]
    {
      LengthByte(low, q, k);
    }
  }

  /** A multiple of 2^64 shows in none of the eight bytes. */
  lemma LengthByte(low: nat, q: nat, k: nat)
    requires k < 8
    ensures Big64(TWO64 * q + low)[k] == Big64(low)[k]
  {
    if k < 4 {
      HighByte(low, q, k);
    } else {
      LowByte(low, q, k);
    }
  }

  lemma HighByte(low: nat, q: nat, k: nat)
    requires k < 4
    ensures Big64(TWO64 * q + low)[k] == Big64(low)[k]
  {
    var n := TWO64 * q + low;
    match k
    case 0 =>
      assert n / 0x100_0000_0000_0000 == 256 * q + low / 0x100_0000_0000_0000;
      ModShift(low / 0x100_0000_0000_0000, q);
    case 1 =>
      assert n / 0x1_0000_0000_0000 == 256 * (0x100 * q) + low / 0x1_0000_0000_0000;
      ModShift(low / 0x1_0000_0000_0000, 0x100 * q);
    case 2 =>
      assert n / 0x100_0000_0000 == 256 * (0x1_0000 * q) + low / 0x100_0000_0000;
      ModShift(low / 0x100_0000_0000, 0x1_0000 * q);
    case _ =>
      assert n / 0x1_0000_0000 == 256 * (0x100_0000 * q) + low / 0x1_0000_0000;
      ModShift(low / 0x1_0000_0000, 0x100_0000 * q);
  }

  lemma LowByte(low: nat, q: nat, k: nat)
    requires 4 <= k < 8
    ensures Big64(TWO64 * q + low)[k] == Big64(low)[k]
  {
    var n := TWO64 * q + low;
    match k
    case 4 =>
      assert n / 0x100_0000 == 256 * (0x1_0000_0000 * q) + low / 0x100_0000;
      ModShift(low / 0x100_0000, 0x1_0000_0000 * q);
    case 5 =>
      assert n / 0x1_0000 == 256 * (0x100_0000_0000 * q) + low / 0x1_0000;
      ModShift(low / 0x1_0000, 0x100_0000_0000 * q);
    case 6 =>
      assert n / 0x100 == 256 * (0x1_0000_0000_0000 * q) + low / 0x100;
      ModShift(low / 0x100, 0x1_0000_0000_0000 * q);
    case _ =>
      ModShift(low, 0x100_0000_0000_0000 * q);
  }

  lemma ModShift(x: nat, y: nat)
    ensures (256 * y + x) % 256 == x % 256
  {
  }
}
