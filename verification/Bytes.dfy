/** Machine integers as bounded mathematical ones: octets, words, XOR and AND bit by bit. */
module Bytes {
  type byte = x: int | 0 <= x < 256
  type u16 = x: int | 0 <= x < 0x1_0000
  type u32 = x: int | 0 <= x < 0x1_0000_0000

  function Pow2(n: nat): (r: nat)
    ensures r > 0
  {
    if n == 0 then 1 else 2 * Pow2(n - 1)
  }

  lemma QuotientIs(x: nat, d: nat, q: nat)
    requires d > 0 && q * d <= x < (q + 1) * d
    ensures x / d == q
  {
    var e := x / d;
    assert x == d * e + x % d;
    if e < q {
      AtLeast(e + 1, q, d);
    } else if e > q {
      AtLeast(q + 1, e, d);
    }
  }

  lemma AtLeast(a: nat, b: nat, d: nat)
    requires a <= b
    ensures a * d <= b * d
  {
  }

  // --------------------------------------------------------------- XOR, AND

  function Xor(a: nat, b: nat): nat
    decreases a + b
  {
    if a == 0 && b == 0 then 0
    else 2 * Xor(a / 2, b / 2) + XorBit(a % 2, b % 2)
  }

  function XorBit(a: nat, b: nat): (r: nat)
    ensures r < 2
  {
    if a != b then 1 else 0
  }

  function And(a: nat, b: nat): nat
    decreases a + b
  {
    if a == 0 || b == 0 then 0
    else 2 * And(a / 2, b / 2) + (if a % 2 == 1 && b % 2 == 1 then 1 else 0)
  }

  function Or(a: nat, b: nat): nat
    decreases a + b
  {
    if a == 0 && b == 0 then 0
    else 2 * Or(a / 2, b / 2) + (if a % 2 == 1 || b % 2 == 1 then 1 else 0)
  }

  lemma {:induction false} OrZero(a: nat, b: nat)
    ensures Or(a, b) == 0 <==> a == 0 && b == 0
    decreases a + b
  {
    if a != 0 || b != 0 {
      OrZero(a / 2, b / 2);
    }
  }

  lemma {:induction false} XorZeroMeansEqual(a: nat, b: nat)
    ensures Xor(a, b) == 0 <==> a == b
    decreases a + b
  {
    if a != 0 || b != 0 {
      XorZeroMeansEqual(a / 2, b / 2);
    }
  }

  lemma PowTable()
    ensures Pow2(8) == 0x100 && Pow2(15) == 0x8000 && Pow2(16) == 0x1_0000
  {
    assert Pow2(4) == 16;
    assert Pow2(8) == 256;
    assert Pow2(12) == 4096;
  }

  /** Bit 0 and the other bits of an XOR. */
  lemma {:induction false} XorSplit(a: nat, b: nat)
    ensures Xor(a, b) % 2 == XorBit(a % 2, b % 2)
    ensures Xor(a, b) / 2 == Xor(a / 2, b / 2)
  {
    var y, e := Xor(a / 2, b / 2), XorBit(a % 2, b % 2);
    assert Xor(a, b) == 2 * y + e;
    Halves(y, e);
  }

  lemma Halves(y: nat, e: nat)
    requires e < 2
    ensures (2 * y + e) / 2 == y && (2 * y + e) % 2 == e
  {
  }

  /** Bit `k` of `x`. */
  function BitAt(x: nat, k: nat): bool
    decreases k
  {
    if k == 0 then x % 2 == 1 else BitAt(x / 2, k - 1)
  }

  lemma {:induction false} XorAt(a: nat, b: nat, k: nat)
    ensures BitAt(Xor(a, b), k) == (BitAt(a, k) != BitAt(b, k))
    decreases k
  {
    XorSplit(a, b);
    if k > 0 {
      XorAt(a / 2, b / 2, k - 1);
    }
  }

  lemma {:induction false} BitBeyond(x: nat, n: nat, k: nat)
    requires x < Pow2(n) && k >= n
    ensures !BitAt(x, k)
    decreases n
  {
    if n > 0 {
      BitBeyond(x / 2, n - 1, k - 1);
    } else {
      ZeroAt(k);
    }
  }

  lemma {:induction false} ZeroAt(k: nat)
    ensures !BitAt(0, k)
  {
    if k > 0 {
      ZeroAt(k - 1);
    }
  }

  lemma {:induction false} XorZero(a: nat)
    ensures Xor(a, 0) == a
  {
    if a != 0 {
      XorZero(a / 2);
    }
  }

  lemma {:induction false} XorComm(a: nat, b: nat)
    ensures Xor(a, b) == Xor(b, a)
    decreases a + b
  {
    if a != 0 || b != 0 {
      XorComm(a / 2, b / 2);
    }
  }

  lemma {:induction false} XorAssoc(a: nat, b: nat, c: nat)
    ensures Xor(Xor(a, b), c) == Xor(a, Xor(b, c))
    decreases a + b + c
  {
    if a != 0 || b != 0 || c != 0 {
      XorAssoc(a / 2, b / 2, c / 2);
      XorSplit(a, b);
      XorSplit(Xor(a, b), c);
      XorSplit(b, c);
      XorSplit(a, Xor(b, c));
      SameBits(Xor(Xor(a, b), c), Xor(a, Xor(b, c)));
    }
  }

  /** Numbers with the same bit 0 and the same other bits are equal. */
  lemma SameBits(a: nat, b: nat)
    requires a % 2 == b % 2 && a / 2 == b / 2
    ensures a == b
  {
  }

  lemma {:induction false} XorSelf(a: nat)
    ensures Xor(a, a) == 0
  {
    if a != 0 {
      XorSelf(a / 2);
    }
  }

  /** XOR with the same value twice changes nothing. */
  lemma XorTwice(a: nat, b: nat)
    ensures Xor(Xor(a, b), b) == a
  {
    XorAssoc(a, b, b);
    XorSelf(b);
    XorZero(a);
  }

  /** (a ^ b) ^ (c ^ d) == (a ^ c) ^ (b ^ d) */
  lemma XorSwap(a: nat, b: nat, c: nat, d: nat)
    ensures Xor(Xor(a, b), Xor(c, d)) == Xor(Xor(a, c), Xor(b, d))
  {
    calc {
      Xor(Xor(a, b), Xor(c, d));
      { XorAssoc(a, b, Xor(c, d)); }
      Xor(a, Xor(b, Xor(c, d)));
      { XorAssoc(b, c, d); XorComm(b, c); XorAssoc(c, b, d); }
      Xor(a, Xor(c, Xor(b, d)));
      { XorAssoc(a, c, Xor(b, d)); }
      Xor(Xor(a, c), Xor(b, d));
    }
  }

  lemma {:induction false} XorBound(a: nat, b: nat, n: nat)
    requires a < Pow2(n) && b < Pow2(n)
    ensures Xor(a, b) < Pow2(n)
    decreases n
  {
    if n > 0 {
      XorBound(a / 2, b / 2, n - 1);
      XorSplit(a, b);
    }
  }

  /** XOR with a number that has bit `n` on top keeps that bit. */
  lemma {:induction false} XorTop(a: nat, b: nat, n: nat)
    requires a < Pow2(n) && b < Pow2(n)
    ensures Xor(a, Pow2(n) + b) == Pow2(n) + Xor(a, b)
    decreases n
  {
    if n == 0 {
      assert Xor(0, 1) == 1;
    } else {
      var p := Pow2(n - 1);
      XorTop(a / 2, b / 2, n - 1);
      assert (2 * p + b) / 2 == p + b / 2 && (2 * p + b) % 2 == b % 2;
    }
  }

  function XorBytes(a: byte, b: byte): byte {
    PowTable();
    XorBound(a, b, 8);
    Xor(a, b)
  }

  function Xor16(a: u16, b: u16): u16 {
    PowTable();
    XorBound(a, b, 16);
    Xor(a, b)
  }

  /** `b ^ 0x20`: bit 5 the other way. */
  function FlipBit5(b: byte): byte {
    if b % 64 < 32 then b + 32 else b - 32
  }

  lemma FlipIsXor(b: byte)
    ensures FlipBit5(b) == Xor(b, 0x20)
  {
    XorBit5(b);
    Bit5(b);
  }

  lemma Bit5(b: nat)
    ensures b % 64 < 32 <==> (b / 32) % 2 == 0
  {
    var q, r := b / 32, b % 32;
    assert b == 64 * (q / 2) + (32 * (q % 2) + r);
  }

  lemma XorBit5(b: byte)
    ensures Xor(b, 0x20) == if (b / 32) % 2 == 0 then b + 32 else b - 32
  {
    var c := b / 2;
    var d := c / 2;
    var e := d / 2;
    var f := e / 2;
    var g := f / 2;
    XorEven(b, 16);
    XorEven(c, 8);
    XorEven(d, 4);
    XorEven(e, 2);
    XorEven(f, 1);
    XorOne(g);
    assert g == b / 32;
  }

  lemma {:induction false} XorEven(a: nat, k: nat)
    ensures Xor(a, 2 * k) == 2 * Xor(a / 2, k) + a % 2
  {
    Halves(k, 0);
    XorSplit(a, 2 * k);
    Halves(Xor(a / 2, k), a % 2);
    SameBits(Xor(a, 2 * k), 2 * Xor(a / 2, k) + a % 2);
  }

  lemma {:induction false} XorOne(g: nat)
    ensures Xor(g, 1) == if g % 2 == 0 then g + 1 else g - 1
  {
    XorSplit(g, 1);
    XorZero(g / 2);
    SameBits(Xor(g, 1), if g % 2 == 0 then g + 1 else g - 1);
  }

  // ------------------------------------------------------------ multi-byte

  function Zeros(n: nat): (r: seq<byte>)
    ensures |r| == n
  {
    seq(n, i => 0)
  }

  function Low8(n: nat): byte {
    n % 256
  }

  /** `lo | (hi << 8)` */
  function Join16(lo: byte, hi: byte): u16 {
    lo + 256 * hi
  }

  /** Four bytes, most significant first. */
  function Value32(a: int, b: int, c: int, d: int): int {
    ((a * 256 + b) * 256 + c) * 256 + d
  }

  lemma Join16Split(n: nat)
    ensures Join16(Low8(n), Low8(n / 256)) == n % 0x1_0000
  {
    var a := n / 256;
    var b := a / 256;
    assert n == 0x1_0000 * b + (256 * (a % 256) + n % 256);
  }
}
