/** The bit functions of section 4.1.2 of FIPS 180-4, bit by bit: what `Ch`, `Maj` and the sigmas of
    `Sha256Spec` compute, independently of how they are written down. */
module BitFunctions {
  import opened Bytes
  import opened Sha256Spec
  import opened Sha256Block

  // ------------------------------------------------------------ XOR, AND, NOT

  lemma {:induction false} AndSplit(a: nat, b: nat)
    ensures And(a, b) % 2 == (if a % 2 == 1 && b % 2 == 1 then 1 else 0) && And(a, b) / 2 == And(a / 2, b / 2)
  {
    if a != 0 && b != 0 {
      Halves(And(a / 2, b / 2), if a % 2 == 1 && b % 2 == 1 then 1 else 0);
    }
  }

  lemma {:induction false} AndAt(a: nat, b: nat, k: nat)
    ensures BitAt(And(a, b), k) == (BitAt(a, k) && BitAt(b, k))
    decreases k
  {
    AndSplit(a, b);
    if k > 0 {
      AndAt(a / 2, b / 2, k - 1);
    }
  }

  lemma {:induction false} ComplementAt(x: nat, n: nat, k: nat)
    requires x < Pow2(n) && k < n
    ensures BitAt(Pow2(n) - 1 - x, k) == !BitAt(x, k)
    decreases n
  {
    var p := Pow2(n - 1);
    OddComplement(p, x);
    if k > 0 {
      ComplementAt(x / 2, n - 1, k - 1);
    }
  }

  lemma OddComplement(p: nat, x: nat)
    requires x < 2 * p
    ensures (2 * p - 1 - x) / 2 == p - 1 - x / 2 && ((2 * p - 1 - x) % 2 == 1 <==> x % 2 == 0)
  {
  }

  lemma WordIsPow()
    ensures Pow2(32) == WORD
  {
    assert Pow2(8) == 0x100;
    assert Pow2(16) == 0x1_0000;
    assert Pow2(24) == 0x100_0000;
  }

  lemma NotAt(x: u32, k: nat)
    requires k < 32
    ensures BitAt(Not(x), k) == !BitAt(x, k)
  {
    WordIsPow();
    ComplementAt(x, 32, k);
  }

  // ----------------------------------------------------------------- shifting

  /** Bits of a number written as low bits and a shifted rest. */
  lemma {:induction false} SumAt(a: nat, b: nat, m: nat, k: nat)
    requires a < Pow2(m)
    ensures BitAt(a + Shl(b, m), k) == if k < m then BitAt(a, k) else BitAt(b, k - m)
    decreases m
  {
    if m > 0 {
      var c := Shl(b, m - 1);
      assert (a + 2 * c) / 2 == a / 2 + c && (a + 2 * c) % 2 == a % 2;
      if k > 0 {
        SumAt(a / 2, b, m - 1, k - 1);
      }
    }
  }

  lemma Regrouped(x: nat, low: nat, n: nat, q: nat, r: nat)
    requires low == Pow2(n) && x == low * q + r
    ensures x == r + Shl(q, n)
  {
    ShlIsTimes(q, n);
  }

  /** Bits of a quotient by `2^n`. */
  lemma DivAt(x: nat, low: nat, n: nat, q: nat, r: nat, k: nat)
    requires low == Pow2(n) && x == low * q + r && r < low
    ensures BitAt(q, k) == BitAt(x, k + n)
  {
    Regrouped(x, low, n, q, r);
    SumAt(r, q, n, k + n);
  }

  /** Bits of a remainder by `2^n`. */
  lemma ModAt(x: nat, low: nat, n: nat, q: nat, r: nat, k: nat)
    requires low == Pow2(n) && x == low * q + r && r < low && k < n
    ensures BitAt(r, k) == BitAt(x, k)
  {
    Regrouped(x, low, n, q, r);
    SumAt(r, q, n, k);
  }

  /** A rotated word is the quotient with the remainder shifted above it. */
  lemma RotrParts(x: u32, low: nat, high: nat, m: nat) returns (q: nat, r: nat)
    requires high == Pow2(m) && low * high == WORD && low > 0
    ensures x == low * q + r && r < low && q < Pow2(m) && Rotr(x, low, high) == q + Shl(r, m)
  {
    q, r := x / low, x % low;
    QuotientFits(x, low, high, q, r);
    ShlIsTimes(r, m);
  }

  /** Rotating right by `n` moves bit `(k + n) mod 32` to place `k`. */
  lemma RotrAt(x: u32, n: nat, low: nat, high: nat, k: nat)
    requires 0 < n < 32 && low == Pow2(n) && high == Pow2(32 - n) && low * high == WORD && k < 32
    ensures BitAt(Rotr(x, low, high), k) == BitAt(x, (k + n) % 32)
  {
    var m := 32 - n;
    var q, r := RotrParts(x, low, high, m);
    SumAt(q, r, m, k);
    if k < m {
      DivAt(x, low, n, q, r, k);
    } else {
      ModAt(x, low, n, q, r, k - m);
    }
  }

  // -------------------------------------------------------- the six functions

  lemma Xor3At(x: nat, y: nat, z: nat, k: nat)
    ensures BitAt(Xor3(x, y, z), k) == ((BitAt(x, k) != BitAt(y, k)) != BitAt(z, k))
  {
    XorAt(x, y, k);
    XorAt(Xor(x, y), z, k);
  }

  /** `Ch` chooses: bit `k` comes from `y` where `x` has it set, and from `z` elsewhere. */
  lemma ChAt(x: u32, y: u32, z: u32, k: nat)
    requires k < 32
    ensures BitAt(Ch(x, y, z), k) == if BitAt(x, k) then BitAt(y, k) else BitAt(z, k)
  {
    AndAt(x, y, k);
    NotAt(x, k);
    AndAt(Not(x), z, k);
    XorAt(And(x, y), And(Not(x), z), k);
  }

  /** `Maj` takes the majority: bit `k` is set when at least two of the three are. */
  lemma MajAt(x: u32, y: u32, z: u32, k: nat)
    ensures BitAt(Maj(x, y, z), k) <==>
            (BitAt(x, k) && BitAt(y, k)) || (BitAt(x, k) && BitAt(z, k)) || (BitAt(y, k) && BitAt(z, k))
  {
    AndAt(x, y, k);
    AndAt(x, z, k);
    AndAt(y, z, k);
    Xor3At(And(x, y), And(x, z), And(y, z), k);
  }

  lemma PowersLow()
    ensures Pow2(2) == 0x4 && Pow2(3) == 0x8 && Pow2(6) == 0x40 && Pow2(7) == 0x80 && Pow2(10) == 0x400
    ensures Pow2(11) == 0x800 && Pow2(13) == 0x2000 && Pow2(14) == 0x4000 && Pow2(15) == 0x8000
  {
  }

  lemma {:induction false} PowSum(n: nat, m: nat)
    ensures Pow2(n + m) == Pow2(n) * Pow2(m)
    decreases n
  {
    if n > 0 {
      PowSum(n - 1, m);
    }
  }

  lemma PowersHigh()
    ensures Pow2(17) == 0x2_0000 && Pow2(18) == 0x4_0000 && Pow2(19) == 0x8_0000 && Pow2(21) == 0x20_0000
    ensures Pow2(22) == 0x40_0000 && Pow2(25) == 0x200_0000 && Pow2(26) == 0x400_0000 && Pow2(30) == 0x4000_0000
  {
    PowersLow();
    PowSum(15, 2);
    PowSum(15, 3);
    PowSum(13, 6);
    PowSum(15, 6);
    PowSum(15, 7);
    PowSum(15, 10);
    PowSum(15, 11);
    PowSum(15, 15);
  }

  /** The parity of three bits. */
  function Odd3(a: bool, b: bool, c: bool): bool {
    (a != b) != c
  }

  lemma BigSigma0At(x: u32, k: nat)
    requires k < 32
    ensures BitAt(BigSigma0(x), k) == Odd3(BitAt(x, (k + 2) % 32), BitAt(x, (k + 13) % 32), BitAt(x, (k + 22) % 32))
  {
    PowersLow();
    PowersHigh();
    RotrAt(x, 2, 0x4, 0x4000_0000, k);
    RotrAt(x, 13, 0x2000, 0x8_0000, k);
    RotrAt(x, 22, 0x40_0000, 0x400, k);
    Xor3At(Rotr(x, 0x4, 0x4000_0000), Rotr(x, 0x2000, 0x8_0000), Rotr(x, 0x40_0000, 0x400), k);
  }

  lemma BigSigma1At(x: u32, k: nat)
    requires k < 32
    ensures BitAt(BigSigma1(x), k) == Odd3(BitAt(x, (k + 6) % 32), BitAt(x, (k + 11) % 32), BitAt(x, (k + 25) % 32))
  {
    PowersLow();
    PowersHigh();
    RotrAt(x, 6, 0x40, 0x400_0000, k);
    RotrAt(x, 11, 0x800, 0x20_0000, k);
    RotrAt(x, 25, 0x200_0000, 0x80, k);
    Xor3At(Rotr(x, 0x40, 0x400_0000), Rotr(x, 0x800, 0x20_0000), Rotr(x, 0x200_0000, 0x80), k);
  }

  lemma SmallSigma0At(x: u32, k: nat)
    requires k < 32
    ensures BitAt(SmallSigma0(x), k) == Odd3(BitAt(x, (k + 7) % 32), BitAt(x, (k + 18) % 32), BitAt(x, k + 3))
  {
    PowersLow();
    PowersHigh();
    RotrAt(x, 7, 0x80, 0x200_0000, k);
    RotrAt(x, 18, 0x4_0000, 0x4000, k);
    DivAt(x, 0x8, 3, x / 0x8, x % 0x8, k);
    Xor3At(Rotr(x, 0x80, 0x200_0000), Rotr(x, 0x4_0000, 0x4000), x / 0x8, k);
  }

  lemma SmallSigma1At(x: u32, k: nat)
    requires k < 32
    ensures BitAt(SmallSigma1(x), k) == Odd3(BitAt(x, (k + 17) % 32), BitAt(x, (k + 19) % 32), BitAt(x, k + 10))
  {
    PowersLow();
    PowersHigh();
    RotrAt(x, 17, 0x2_0000, 0x8000, k);
    RotrAt(x, 19, 0x8_0000, 0x2000, k);
    DivAt(x, 0x400, 10, x / 0x400, x % 0x400, k);
    Xor3At(Rotr(x, 0x2_0000, 0x8000), Rotr(x, 0x8_0000, 0x2000), x / 0x400, k);
  }

  /** SHA-256 is the construction with these functions and tables in these places. */
  lemma ParametersInPlace(x: u32, y: u32, z: u32)
    ensures SHA256.ch(x, y, z) == Ch(x, y, z) && SHA256.maj(x, y, z) == Maj(x, y, z)
    ensures SHA256.big0(x) == BigSigma0(x) && SHA256.big1(x) == BigSigma1(x)
    ensures SHA256.small0(x) == SmallSigma0(x) && SHA256.small1(x) == SmallSigma1(x)
    ensures SHA256.k == K && SHA256.h0 == H0
  {
  }
}
