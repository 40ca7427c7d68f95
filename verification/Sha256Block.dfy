/** `process_block` of `xrce/src/sha256.c`: the compression function computed with the `w[64]`
    array and the eight local variables. */
module Sha256Block {
  import opened Bytes
  import opened Sha256Spec

  lemma ReduceRight(x: nat, y: nat)
    ensures (x + y % WORD) % WORD == (x + y) % WORD
  {
    var q, r := y / WORD, y % WORD;
    DropWords(x + r, q);
    assert x + y == x + r + WORD * q;
  }

  lemma DropWords(x: nat, q: nat)
    ensures (x + WORD * q) % WORD == x % WORD
  {
  }

  /** Sums may be reduced to 32 bits at any point. */
  lemma ReduceSum(x: nat, y: nat)
    ensures (x + y % WORD) % WORD == (x + y) % WORD && (x % WORD + y) % WORD == (x + y) % WORD
  {
    ReduceRight(x, y);
    ReduceRight(y, x);
  }

  // ---------------------------------------------------------------- rotation

  /** `k << m`, before truncation. */
  function Shl(k: nat, m: nat): nat {
    if m == 0 then k else 2 * Shl(k, m - 1)
  }

  lemma {:induction false} ShlIsTimes(k: nat, m: nat)
    ensures Shl(k, m) == k * Pow2(m)
  {
    if m > 0 {
      ShlIsTimes(k, m - 1);
    }
  }

  lemma {:induction false} OrNothing(b: nat)
    ensures Or(0, b) == b
  {
    if b != 0 {
      OrNothing(b / 2);
    }
  }

  /** OR of numbers without common bits is their sum. */
  lemma {:induction false} OrDisjoint(a: nat, k: nat, m: nat)
    requires a < Pow2(m)
    ensures Or(a, Shl(k, m)) == a + Shl(k, m)
    decreases m
  {
    if m == 0 {
      OrNothing(k);
    } else {
      OrDisjoint(a / 2, k, m - 1);
      var b := Shl(k, m - 1);
      assert (2 * b) / 2 == b && (2 * b) % 2 == 0;
    }
  }

  /** What the left shift keeps in 32 bits: the bits the right shift drops. */
  lemma ShiftedOut(x: nat, low: nat, high: nat, q: nat, r: nat)
    requires low * high == WORD && x == low * q + r && r < low
    ensures (x * high) % WORD == r * high
  {
    TimesHigh(low, q, r, high);
    Below(r, low, high);
    var t := r * high;
    assert (WORD * q + t) % WORD == t;
  }

  lemma TimesHigh(low: nat, q: nat, r: nat, high: nat)
    ensures (low * q + r) * high == (low * high) * q + r * high
  {
  }

  lemma Below(r: nat, low: nat, high: nat)
    requires r < low && high > 0
    ensures r * high < low * high
  {
  }

  /** `rotr`: a right shift and a truncated left shift put together with OR. */
  lemma RotrIsShiftOr(x: u32, low: nat, high: nat, m: nat)
    requires high == Pow2(m) && low * high == WORD && low > 0
    ensures Rotr(x, low, high) == Or(x / low, (x * high) % WORD)
  {
    var q, r := x / low, x % low;
    ShiftedOut(x, low, high, q, r);
    ShlIsTimes(r, m);
    QuotientFits(x, low, high, q, r);
    OrDisjoint(q, r, m);
  }

  lemma QuotientFits(x: nat, low: nat, high: nat, q: nat, r: nat)
    requires x == low * q + r && x < low * high
    ensures q < high
  {
  }

  // --------------------------------------------------------------- compression

  const LOADED: nat := 16

  /** The loop that loads the block. */
  method LoadBlock(p: Parameters, block: seq<byte>, w: array<u32>)
    requires |block| == BLOCK && w.Length == 64
    modifies w
    ensures w[..LOADED] == Schedule(p, block, LOADED)
  {
    for t := 0 to LOADED
      invariant w[..t] == Schedule(p, block, t)
    {
      ghost var before := w[..t];
      LoadOne(block, w, t);
      assert w[..t + 1] == before + [w[t]];
    }
  }

  method LoadOne(block: seq<byte>, w: array<u32>, t: nat)
    requires |block| == BLOCK && w.Length == 64 && t < LOADED
    modifies w
    ensures w[..t] == old(w[..t]) && w[t] == WordAt(block, t)
  {
    w[t] := Join32(block[t * 4], block[t * 4 + 1], block[t * 4 + 2], block[t * 4 + 3]);
  }

  /** A schedule continued up to `n` words. */
  function Extended(p: Parameters, w: seq<u32>, n: nat): (r: seq<u32>)
    requires LOADED <= |w|
    ensures |r| == if n < |w| then |w| else n
    decreases n
  {
    if n <= |w| then w
    else
      var before := Extended(p, w, n - 1);
      before + [NextWord(p, before)]
  }

  lemma {:induction false} ScheduleExtends(p: Parameters, block: seq<byte>, n: nat)
    requires |block| == BLOCK && n >= LOADED
    ensures Schedule(p, block, n) == Extended(p, Schedule(p, block, LOADED), n)
  {
    if n > LOADED {
      ScheduleExtends(p, block, n - 1);
    }
  }

  /** The loop that extends it to 64 words. */
  method ExtendSchedule(p: Parameters, w: array<u32>)
    requires w.Length == 64
    modifies w
    ensures w[..] == Extended(p, old(w[..LOADED]), w.Length)
  {
    ghost var first := w[..LOADED];
    for t := LOADED to w.Length
      invariant w[..t] == Extended(p, first, t)
    {
      ghost var before := w[..t];
      ExtendOne(p, w, t);
      assert w[..t + 1] == before + [w[t]];
    }
    assert w[..w.Length] == w[..];
  }

  method ExtendOne(p: Parameters, w: array<u32>, t: nat)
    requires 16 <= t < w.Length
    modifies w
    ensures w[..t] == old(w[..t]) && w[t] == NextWord(p, w[..t])
  {
    var s0 := p.small0(w[t - 15]);
    var s1 := p.small1(w[t - 2]);
    w[t] := (w[t - 16] + s0 + w[t - 7] + s1) % WORD;
  }

  /** One round: the eight assignments at the end of the loop body. */
  method RunRound(p: Parameters, v: Vars, k: u32, w: u32) returns (r: Vars)
    ensures r == Round(p, v, k, w)
  {
    var a, b, c, d, e, f, g, h := v.a, v.b, v.c, v.d, v.e, v.f, v.g, v.h;
    var sum1 := h + p.big1(e) + p.ch(e, f, g) + k + w;
    var sum2 := p.big0(a) + p.maj(a, b, c);
    ReduceSum(d, sum1);
    ReduceSum(sum1, sum2);
    ReduceSum(sum1 % WORD, sum2);
    var temp1, temp2 := sum1 % WORD, sum2 % WORD;
    h := g;
    g := f;
    f := e;
    e := (d + temp1) % WORD;
    d := c;
    c := b;
    b := a;
    a := (temp1 + temp2) % WORD;
    r := Vars(a, b, c, d, e, f, g, h);
  }

  method RunRounds(p: Parameters, start: Vars, w: seq<u32>) returns (v: Vars)
    requires |w| == |p.k|
    ensures v == Rounds(p, start, w, |w|)
  {
    v := start;
    for t := 0 to |w|
      invariant v == Rounds(p, start, w, t)
    {
      v := RunRound(p, v, p.k[t], w[t]);
    }
  }

  method CompressBlock(p: Parameters, state: Vars, block: seq<byte>) returns (r: Vars)
    requires |block| == BLOCK && |p.k| == 64
    ensures r == Compress(p, state, block)
  {
    var w := new u32[64];
    LoadBlock(p, block, w);
    ExtendSchedule(p, w);
    ScheduleExtends(p, block, w.Length);
    var v := RunRounds(p, state, w[..]);
    r := AddVars(state, v);
  }
}
