/** What the steps of SHA-256 do to each other: the rounds run backwards, the schedule met from its
    own recurrence, and padding and digest read back from their bytes. */
module Sha256Structure {
  import opened Bytes
  import opened Sha256Spec

  // --------------------------------------------------------------- arithmetic

  function Sub(x: nat, y: nat): u32 {
    (x - y) % WORD
  }

  lemma Congruent(x: int, y: int, q: int)
    requires x == y + WORD * q
    ensures x % WORD == y % WORD
  {
  }

  /** Taking away what was added leaves a word. */
  lemma SubAdd(x: u32, y: nat)
    ensures Sub(Add(x, y), y) == x && Sub(Add(y, x), y) == x
  {
    var s := x + y;
    Congruent(x, s % WORD - y, s / WORD);
  }

  // ------------------------------------------------------- rounds run backwards

  /** The working variables before a round, from those after it. */
  function Unround(p: Parameters, v: Vars, k: u32, w: u32): Vars {
    var t2 := p.big0(v.b) + p.maj(v.b, v.c, v.d);
    var t1 := Sub(v.a, t2);
    Vars(v.b, v.c, v.d, Sub(v.e, t1), v.f, v.g, v.h, Sub(t1, p.big1(v.f) + p.ch(v.f, v.g, v.h) + k + w))
  }

  function Unrounds(p: Parameters, v: Vars, w: seq<u32>, t: nat): Vars
    requires t <= |w| == |p.k|
    decreases t
  {
    if t == 0 then v else Unrounds(p, Unround(p, v, p.k[t - 1], w[t - 1]), w, t - 1)
  }

  lemma TakeAway(x: nat, y: nat)
    ensures Sub(Add(x, y), y) == x % WORD
  {
    var s := x + y;
    Congruent(x, s % WORD - y, s / WORD);
  }

  lemma TakeReduced(d: u32, t: nat)
    ensures Sub(Add(d, t), t % WORD) == d
  {
    var s := d + t;
    Congruent(d, s % WORD - t % WORD, s / WORD - t / WORD);
  }

  lemma TakeRest(h: u32, r: nat)
    ensures Sub((h + r) % WORD, r) == h
  {
    Congruent(h, (h + r) % WORD - r, (h + r) / WORD);
  }

  lemma RoundUndone(p: Parameters, v: Vars, k: u32, w: u32)
    ensures Unround(p, Round(p, v, k, w), k, w) == v
  {
    var r := p.big1(v.e) + p.ch(v.e, v.f, v.g) + k + w;
    var t2 := p.big0(v.a) + p.maj(v.a, v.b, v.c);
    TakeAway(v.h + r, t2);
    TakeReduced(v.d, v.h + r);
    TakeRest(v.h, r);
  }

  lemma {:induction false} RoundsUndone(p: Parameters, v: Vars, w: seq<u32>, t: nat)
    requires t <= |w| == |p.k|
    ensures Unrounds(p, Rounds(p, v, w, t), w, t) == v
    decreases t
  {
    if t > 0 {
      RoundUndone(p, Rounds(p, v, w, t - 1), p.k[t - 1], w[t - 1]);
      RoundsUndone(p, v, w, t - 1);
    }
  }

  function SubVars(x: Vars, y: Vars): Vars {
    Vars(Sub(x.a, y.a), Sub(x.b, y.b), Sub(x.c, y.c), Sub(x.d, y.d),
         Sub(x.e, y.e), Sub(x.f, y.f), Sub(x.g, y.g), Sub(x.h, y.h))
  }

  lemma SubAddVars(x: Vars, y: Vars)
    ensures SubVars(AddVars(x, y), x) == y
  {
    SubAdd(y.a, x.a);
    SubAdd(y.b, x.b);
    SubAdd(y.c, x.c);
    SubAdd(y.d, x.d);
    SubAdd(y.e, x.e);
    SubAdd(y.f, x.f);
    SubAdd(y.g, x.g);
    SubAdd(y.h, x.h);
  }

  /** Without the hash value it was added to, the compression is the rounds on that value, and those
      run backwards lead to where they started. */
  lemma CompressionUndone(p: Parameters, h: Vars, block: seq<byte>)
    requires |block| == 64
    ensures var w := Schedule(p, block, |p.k|);
            Unrounds(p, SubVars(Compress(p, h, block), h), w, |w|) == h
  {
    var w := Schedule(p, block, |p.k|);
    SubAddVars(h, Rounds(p, h, w, |w|));
    RoundsUndone(p, h, w, |w|);
  }

  // ----------------------------------------------------------------- schedule

  /** The first 16 words are the block, most significant byte first; every later one is the sum of
      four earlier ones, two of them through the small sigmas. */
  lemma {:induction false} ScheduleIs(p: Parameters, block: seq<byte>, n: nat, t: nat)
    requires |block| == 64 && t < n
    ensures var w := Schedule(p, block, n);
            if t < 16 then w[t] == Value32(block[4 * t], block[4 * t + 1], block[4 * t + 2], block[4 * t + 3])
            else w[t] == (w[t - 16] + p.small0(w[t - 15]) + w[t - 7] + p.small1(w[t - 2])) % 0x1_0000_0000
    decreases n
  {
    if t < n - 1 {
      ScheduleIs(p, block, n - 1, t);
    }
  }

  // ------------------------------------------------------------------- padding

  /** A number from its bytes, most significant first. */
  function BigValue(s: seq<byte>): nat {
    if s == [] then 0 else 256 * BigValue(s[..|s| - 1]) + s[|s| - 1]
  }

  lemma BigValueSnoc(s: seq<byte>, b: byte)
    ensures BigValue(s + [b]) == 256 * BigValue(s) + b
  {
    assert (s + [b])[..|s|] == s;
  }

  lemma BigValue4(a: byte, b: byte, c: byte, d: byte)
    ensures BigValue([a, b, c, d]) == Value32(a, b, c, d)
  {
    BigValueSnoc([], a);
    BigValueSnoc([a], b);
    BigValueSnoc([a, b], c);
    BigValueSnoc([a, b, c], d);
    assert [a, b, c, d] == [a, b, c] + [d] && [a, b, c] == [a, b] + [c] && [a, b] == [a] + [b] && [a] == [] + [a];
  }

  /** The low `k` bytes of a number, most significant first. */
  function Digits(n: nat, k: nat): (r: seq<byte>)
    ensures |r| == k
    decreases k
  {
    if k == 0 then [] else Digits(n / 256, k - 1) + [n % 256]
  }

  function Pow256(k: nat): nat {
    if k == 0 then 1 else 256 * Pow256(k - 1)
  }

  lemma {:induction false} DigitsValue(n: nat, k: nat)
    requires n < Pow256(k)
    ensures BigValue(Digits(n, k)) == n
    decreases k
  {
    if k > 0 {
      DigitsValue(n / 256, k - 1);
      BigValueSnoc(Digits(n / 256, k - 1), n % 256);
    }
  }

  lemma DivDiv(n: nat, d: nat)
    requires d > 0
    ensures n / (256 * d) == n / d / 256
  {
    var a := n / d;
    var q, s, r := a / 256, a % 256, n % d;
    assert n == d * a + r;
    InBlock(d, q, s, r);
    QuotientIs(n, 256 * d, q);
  }

  lemma InBlock(d: nat, q: nat, s: nat, r: nat)
    requires r < d && s < 256
    ensures q * (256 * d) <= d * (256 * q + s) + r < (q + 1) * (256 * d)
  {
    AtLeast(s, 255, d);
    assert d * (256 * q + s) == q * (256 * d) + s * d;
    assert (q + 1) * (256 * d) == q * (256 * d) + 256 * d;
  }

  lemma Big64IsDigits(n: nat)
    ensures Big64(n) == Digits(n, 8)
  {
    DivDiv(n, 0x100);
    DivDiv(n, 0x1_0000);
    DivDiv(n, 0x100_0000);
    DivDiv(n, 0x1_0000_0000);
    DivDiv(n, 0x100_0000_0000);
    DivDiv(n, 0x1_0000_0000_0000);
    var a, b, c := n / 0x100, n / 0x1_0000, n / 0x100_0000;
    var d, e, f, g := n / 0x1_0000_0000, n / 0x100_0000_0000, n / 0x1_0000_0000_0000, n / 0x100_0000_0000_0000;
    Chained(n, a, b, c, d, e, f, g);
  }

  lemma Chained(n: nat, a: nat, b: nat, c: nat, d: nat, e: nat, f: nat, g: nat)
    requires a == n / 256 && b == a / 256 && c == b / 256 && d == c / 256 && e == d / 256 && f == e / 256 &&
        g == f / 256
    ensures Digits(n, 8) == [g % 256, f % 256, e % 256, d % 256, c % 256, b % 256, a % 256, n % 256]
  {
    assert Digits(d, 4) == [g % 256, f % 256, e % 256, d % 256];
  }

  lemma Big64Value(n: nat)
    requires n < 0x1_0000_0000_0000_0000
    ensures BigValue(Big64(n)) == n
  {
    Big64IsDigits(n);
    assert Pow256(4) == 0x1_0000_0000;
    assert Pow256(8) == 0x1_0000_0000_0000_0000;
    DigitsValue(n, 8);
  }

  lemma Big32Value(n: u32)
    ensures BigValue(Big32(n)) == n
  {
    BigValue4(n / 0x100_0000, Low8(n / 0x1_0000), Low8(n / 0x100), Low8(n));
    Split32(n);
  }

  lemma Split32(n: u32)
    ensures Value32(n / 0x100_0000, Low8(n / 0x1_0000), Low8(n / 0x100), Low8(n)) == n
  {
    var a := n / 0x100;
    var b := a / 0x100;
    assert n / 0x1_0000 == b && n / 0x100_0000 == b / 0x100;
  }

  /** The message, 0x80, zeros, and the length in bits as 8 bytes, most significant first. */
  ghost predicate IsPadded(s: seq<byte>, m: seq<byte>) {
    && |s| % 64 == 0 && |m| + 9 <= |s| < |m| + 73
    && s[..|m|] == m && s[|m|] == 0x80
    && (forall j :: |m| < j < |s| - 8 ==> s[j] == 0)
    && BigValue(s[|s| - 8..]) == 8 * |m|
  }

  lemma PaddingBytes(m: seq<byte>)
    requires |m| < 0x2000_0000_0000_0000
    ensures IsPadded(Padded(m), m)
  {
    PaddedIsWhole(m);
    Big64Value(8 * |m|);
    var s, n := Padded(m), |m|;
    assert s[|s| - 8..] == Big64(8 * n);
    assert s[..n] == m;
  }

  /** Different messages have different paddings. */
  lemma PaddingInjective(m: seq<byte>, m': seq<byte>)
    requires |m| < 0x2000_0000_0000_0000 && |m'| < 0x2000_0000_0000_0000
    ensures Padded(m) == Padded(m') ==> m == m'
  {
    PaddingBytes(m);
    PaddingBytes(m');
  }

  // -------------------------------------------------------------------- digest

  /** Word `i` of a hash value. */
  function WordOf(v: Vars, i: nat): u32
    requires i < 8
  {
    [v.a, v.b, v.c, v.d, v.e, v.f, v.g, v.h][i]
  }

  lemma Quarter<T>(a: seq<T>, b: seq<T>, c: seq<T>, d: seq<T>, e: seq<T>, f: seq<T>, g: seq<T>, h: seq<T>, i: nat)
    requires |a| == |b| == |c| == |d| == |e| == |f| == |g| == |h| == 4 && i < 8
    ensures (a + b + c + d + e + f + g + h)[4 * i..4 * i + 4] == [a, b, c, d, e, f, g, h][i]
  {
  }

  /** Bytes `4 * i` to `4 * i + 3` of the digest are word `i`, most significant byte first. */
  lemma DigestWords(v: Vars, i: nat)
    requires i < 8
    ensures BigValue(DigestBytes(v)[4 * i..4 * i + 4]) == WordOf(v, i)
  {
    Quarter(Big32(v.a), Big32(v.b), Big32(v.c), Big32(v.d), Big32(v.e), Big32(v.f), Big32(v.g), Big32(v.h), i);
    Big32Value(WordOf(v, i));
  }

  // ------------------------------------------------------------------- the hash

  /** `hs` starts with `h`, and each value follows from the one before by the next 64 bytes of `s`. */
  ghost predicate IsChain(f: (Vars, seq<byte>) -> Vars, h: Vars, s: seq<byte>, hs: seq<Vars>) {
    && hs != [] && hs[0] == h && |s| == 64 * (|hs| - 1)
    && forall i :: 0 <= i < |hs| - 1 ==> hs[i + 1] == f(hs[i], s[64 * i..64 * i + 64])
  }

  lemma {:induction false} AbsorbIsChain(f: (Vars, seq<byte>) -> Vars, h: Vars, s: seq<byte>, hs: seq<Vars>)
    requires IsChain(f, h, s, hs)
    ensures Absorb(f, h, s) == hs[|hs| - 1]
    decreases |hs|
  {
    if |hs| > 1 {
      var later, rest := s[BLOCK..], hs[1..];
      forall i | 0 <= i < |rest| - 1 ensures rest[i + 1] == f(rest[i], later[64 * i..64 * i + 64]) {
        assert later[64 * i..64 * i + 64] == s[64 * (i + 1)..64 * (i + 1) + 64];
        assert hs[(i + 1) + 1] == f(hs[i + 1], s[64 * (i + 1)..64 * (i + 1) + 64]);
      }
      AbsorbIsChain(f, hs[1], later, rest);
    }
  }

  /** The hash of a message: the chain of compressions from the initial value through the padded
      message, 64 bytes at a time, its last value written out. */
  lemma HashIsChain(m: seq<byte>, hs: seq<Vars>)
    ensures IsChain(Compressor(SHA256), H0, Padded(m), hs) ==> Sha256(m) == DigestBytes(hs[|hs| - 1])
  {
    if IsChain(Compressor(SHA256), H0, Padded(m), hs) {
      AbsorbIsChain(Compressor(SHA256), H0, Padded(m), hs);
    }
  }
}
