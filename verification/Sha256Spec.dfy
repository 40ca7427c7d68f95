/** SHA-256 as FIPS 180-4 defines it: padding (section 5.1.1), the message schedule and the
    compression function (section 6.2.2), folded over the blocks of the padded message. */
module Sha256Spec {
  import opened Bytes

  const WORD: nat := 0x1_0000_0000
  const BLOCK: nat := 64

  // section 4.2.2
  const K0: seq<u32> := [
    0x428a2f98, 0x71374491, 0xb5c0fbcf, 0xe9b5dba5, 0x3956c25b, 0x59f111f1, 0x923f82a4, 0xab1c5ed5]
  const K1: seq<u32> := [
    0xd807aa98, 0x12835b01, 0x243185be, 0x550c7dc3, 0x72be5d74, 0x80deb1fe, 0x9bdc06a7, 0xc19bf174]
  const K2: seq<u32> := [
    0xe49b69c1, 0xefbe4786, 0x0fc19dc6, 0x240ca1cc, 0x2de92c6f, 0x4a7484aa, 0x5cb0a9dc, 0x76f988da]
  const K3: seq<u32> := [
    0x983e5152, 0xa831c66d, 0xb00327c8, 0xbf597fc7, 0xc6e00bf3, 0xd5a79147, 0x06ca6351, 0x14292967]
  const K4: seq<u32> := [
    0x27b70a85, 0x2e1b2138, 0x4d2c6dfc, 0x53380d13, 0x650a7354, 0x766a0abb, 0x81c2c92e, 0x92722c85]
  const K5: seq<u32> := [
    0xa2bfe8a1, 0xa81a664b, 0xc24b8b70, 0xc76c51a3, 0xd192e819, 0xd6990624, 0xf40e3585, 0x106aa070]
  const K6: seq<u32> := [
    0x19a4c116, 0x1e376c08, 0x2748774c, 0x34b0bcb5, 0x391c0cb3, 0x4ed8aa4a, 0x5b9cca4f, 0x682e6ff3]
  const K7: seq<u32> := [
    0x748f82ee, 0x78a5636f, 0x84c87814, 0x8cc70208, 0x90befffa, 0xa4506ceb, 0xbef9a3f7, 0xc67178f2]
  const K: seq<u32> := K0 + K1 + K2 + K3 + K4 + K5 + K6 + K7

  /** The eight words of a hash value, or the eight working variables. */
  datatype Vars = Vars(a: u32, b: u32, c: u32, d: u32, e: u32, f: u32, g: u32, h: u32)

  // section 5.3.3
  const H0: Vars := Vars(0x6a09e667, 0xbb67ae85, 0x3c6ef372, 0xa54ff53a, 0x510e527f, 0x9b05688c, 0x1f83d9ab, 0x5be0cd19)

  function Add(x: nat, y: nat): u32 {
    (x + y) % WORD
  }

  /** Rotate right by the `n` with `low == 2^n` and `high == 2^(32-n)`: `x >> n | x << (32-n)`. */
  function Rotr(x: u32, low: nat, high: nat): nat
    requires low > 0
  {
    x / low + (x % low) * high
  }

  function Not(x: u32): u32 {
    WORD - 1 - x
  }

  function Xor3(x: nat, y: nat, z: nat): nat {
    Xor(Xor(x, y), z)
  }

  // section 4.1.2: rotations by 2, 13, 22; 6, 11, 25; 7, 18 and a shift by 3; 17, 19 and a shift by 10
  function Ch(x: u32, y: u32, z: u32): nat { Xor(And(x, y), And(Not(x), z)) }
  function Maj(x: u32, y: u32, z: u32): nat { Xor3(And(x, y), And(x, z), And(y, z)) }
  function BigSigma0(x: u32): nat {
    Xor3(Rotr(x, 0x4, 0x4000_0000), Rotr(x, 0x2000, 0x8_0000), Rotr(x, 0x40_0000, 0x400))
  }
  function BigSigma1(x: u32): nat {
    Xor3(Rotr(x, 0x40, 0x400_0000), Rotr(x, 0x800, 0x20_0000), Rotr(x, 0x200_0000, 0x80))
  }
  function SmallSigma0(x: u32): nat { Xor3(Rotr(x, 0x80, 0x200_0000), Rotr(x, 0x4_0000, 0x4000), x / 0x8) }
  function SmallSigma1(x: u32): nat { Xor3(Rotr(x, 0x2_0000, 0x8000), Rotr(x, 0x8_0000, 0x2000), x / 0x400) }

  /** The constants and bit functions that make the general construction SHA-256.  Nothing below
      depends on what they are, only on how they are combined. */
  datatype Parameters = Parameters(
    k: seq<u32>, h0: Vars,
    ch: (u32, u32, u32) -> nat, maj: (u32, u32, u32) -> nat,
    big0: u32 -> nat, big1: u32 -> nat, small0: u32 -> nat, small1: u32 -> nat)

  const SHA256: Parameters := Parameters(K, H0, Ch, Maj, BigSigma0, BigSigma1, SmallSigma0, SmallSigma1)

  // ------------------------------------------------------------- compression

  function Join32(b0: nat, b1: nat, b2: nat, b3: nat): u32
    requires b0 < 256 && b1 < 256 && b2 < 256 && b3 < 256
  {
    b0 * 0x100_0000 + b1 * 0x1_0000 + b2 * 0x100 + b3
  }

  /** Word `t` of a block, most significant byte first. */
  function WordAt(block: seq<byte>, t: nat): u32
    requires 4 * t + 4 <= |block|
  {
    Join32(block[4 * t], block[4 * t + 1], block[4 * t + 2], block[4 * t + 3])
  }

  /** The word the schedule continues with: from the 2nd, 7th, 15th and 16th before it. */
  function NextWord(p: Parameters, w: seq<u32>): u32
    requires |w| >= 16
  {
    var t := |w|;
    Add(p.small1(w[t - 2]) + w[t - 7], p.small0(w[t - 15]) + w[t - 16])
  }

  /** The first `t` words of the message schedule. */
  function Schedule(p: Parameters, block: seq<byte>, t: nat): (w: seq<u32>)
    requires |block| == BLOCK
    ensures |w| == t
    decreases t
  {
    if t == 0 then []
    else
      var w := Schedule(p, block, t - 1);
      w + [if t <= 16 then WordAt(block, t - 1) else NextWord(p, w)]
  }

  function Round(p: Parameters, v: Vars, k: u32, w: u32): Vars {
    var t1 := v.h + p.big1(v.e) + p.ch(v.e, v.f, v.g) + k + w;
    var t2 := p.big0(v.a) + p.maj(v.a, v.b, v.c);
    Vars(Add(t1, t2), v.a, v.b, v.c, Add(v.d, t1), v.e, v.f, v.g)
  }

  /** The working variables after `t` rounds. */
  function Rounds(p: Parameters, v: Vars, w: seq<u32>, t: nat): Vars
    requires t <= |w| == |p.k|
    decreases t
  {
    if t == 0 then v else Round(p, Rounds(p, v, w, t - 1), p.k[t - 1], w[t - 1])
  }

  function AddVars(x: Vars, y: Vars): Vars {
    Vars(Add(x.a, y.a), Add(x.b, y.b), Add(x.c, y.c), Add(x.d, y.d),
         Add(x.e, y.e), Add(x.f, y.f), Add(x.g, y.g), Add(x.h, y.h))
  }

  function Compress(p: Parameters, h: Vars, block: seq<byte>): Vars
    requires |block| == BLOCK
  {
    AddVars(h, Rounds(p, h, Schedule(p, block, |p.k|), |p.k|))
  }

  /** A compression function, given the parameters. */
  function Compressor(p: Parameters): (Vars, seq<byte>) -> Vars {
    (h: Vars, block: seq<byte>) => if |block| == BLOCK then Compress(p, h, block) else h
  }

  /** `f` is the compression function of `p`. */
  ghost predicate Computes(f: (Vars, seq<byte>) -> Vars, p: Parameters) {
    forall h, block {:trigger Compress(p, h, block)} :: |block| == BLOCK ==> f(h, block) == Compress(p, h, block)
  }

  // ---------------------------------------------------------------- the hash

  /** The hash value after the whole blocks of `m`, for any compression function. */
  function Absorb<H>(f: (H, seq<byte>) -> H, h: H, m: seq<byte>): H
    decreases |m|
  {
    if |m| < BLOCK then h else Absorb(f, f(h, m[..BLOCK]), m[BLOCK..])
  }

  /** The smallest number of zero bytes that brings message, 0x80 and length to whole blocks. */
  function PadZeros(n: nat): nat {
    (BLOCK + 55 - n % BLOCK) % BLOCK
  }

  /** `n` as 8 bytes, most significant first. */
  function Big64(n: nat): (r: seq<byte>)
    ensures |r| == 8
  {
    [Low8(n / 0x100_0000_0000_0000), Low8(n / 0x1_0000_0000_0000), Low8(n / 0x100_0000_0000), Low8(n / 0x1_0000_0000),
     Low8(n / 0x100_0000), Low8(n / 0x1_0000), Low8(n / 0x100), Low8(n)]
  }

  /** Section 5.1.1. */
  function Padded(m: seq<byte>): seq<byte> {
    m + [0x80] + Zeros(PadZeros(|m|)) + Big64(8 * |m|)
  }

  function Big32(n: u32): (r: seq<byte>)
    ensures |r| == 4
  {
    [n / 0x100_0000, Low8(n / 0x1_0000), Low8(n / 0x100), Low8(n)]
  }

  type Digest = s: seq<byte> | |s| == 32 witness Zeros(32)

  function DigestBytes(v: Vars): Digest {
    Big32(v.a) + Big32(v.b) + Big32(v.c) + Big32(v.d) + Big32(v.e) + Big32(v.f) + Big32(v.g) + Big32(v.h)
  }

  /** The hash of a whole message, for any compression function and initial value. */
  function HashWith(f: (Vars, seq<byte>) -> Vars, h0: Vars, m: seq<byte>): Digest {
    DigestBytes(Absorb(f, h0, Padded(m)))
  }

  function Sha256(m: seq<byte>): Digest {
    HashWith(Compressor(SHA256), H0, m)
  }

  lemma PadSum(q: nat, r: nat)
    requires r < BLOCK
    ensures PadZeros(BLOCK * q + r) == (if r < 56 then 55 - r else 119 - r)
  {
    assert (BLOCK * q + r) % BLOCK == r;
  }

  lemma WholeBlocks(q: nat)
    ensures (BLOCK * q) % BLOCK == 0
  {
  }

  /** The padding ends on a block boundary and is the shortest that does. */
  lemma PaddedIsWhole(m: seq<byte>)
    ensures |Padded(m)| % BLOCK == 0 && |m| + 9 <= |Padded(m)| < |m| + 9 + BLOCK
  {
    var q, r := |m| / BLOCK, |m| % BLOCK;
    PadSum(q, r);
    WholeBlocks(if r < 56 then q + 1 else q + 2);
    assert |Padded(m)| == BLOCK * (if r < 56 then q + 1 else q + 2);
  }
}
