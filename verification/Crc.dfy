/** CRC-16/ARC as `xrce/src/serial_transport.c` computes it, one bit at a time, and what it
    detects: it is linear over XOR, tells apart any two payloads that differ by a burst of at
    most 16 bits, and any two that differ in an odd number of bits. */
module Crc {
  import opened Bytes

  // ------------------------------------------------------------ the algorithm

  const POLY: u16 := 0xA001

  const BYTE_BITS: nat := 8

  /** One turn of the bit loop. */
  function Bit(c: u16): u16 {
    if c % 2 == 1 then Xor16(c / 2, POLY) else c / 2
  }

  function Bits(c: u16, n: nat): u16
    decreases n
  {
    if n == 0 then c else Bits(Bit(c), n - 1)
  }

  function Update(crc: u16, b: byte): u16 {
    Bits(Xor16(crc, b), BYTE_BITS)
  }

  function Crc16(data: seq<byte>): u16 {
    if data == [] then 0 else Update(Crc16(data[..|data| - 1]), data[|data| - 1])
  }

  lemma {:induction false} BitsSnoc(c: u16, n: nat)
    ensures Bits(c, n + 1) == Bit(Bits(c, n))
    decreases n
  {
    if n > 0 {
      BitsSnoc(Bit(c), n - 1);
    }
  }

  /** `crc16_update`. */
  method Crc16Update(crc: u16, b: byte) returns (r: u16)
    ensures r == Update(crc, b)
  {
    r := Xor16(crc, b);
    for i := 0 to BYTE_BITS
      invariant r == Bits(Xor16(crc, b), i)
    {
      BitsSnoc(Xor16(crc, b), i);
      if r % 2 == 1 {
        r := Xor16(r / 2, POLY);
      } else {
        r := r / 2;
      }
    }
  }

  /** `xrce_serial_crc16`. */
  method ComputeCrc16(data: array<byte>, len: nat) returns (crc: u16)
    requires len <= data.Length
    ensures crc == Crc16(data[..len])
  {
    crc := 0;
    for i := 0 to len
      invariant crc == Crc16(data[..i])
    {
      assert data[..i + 1][..i] == data[..i];
      crc := Crc16Update(crc, data[i]);
    }
  }

  // ---------------------------------------------------------- message as bits

  function BitOf(e: bool): nat {
    if e then 1 else 0
  }

  /** The low `n` bits of a number, least significant first: the order the loop uses them in. */
  function BitsOf(b: nat, n: nat): (r: seq<bool>)
    ensures |r| == n
  {
    seq(n, k requires 0 <= k < n => BitAt(b, k))
  }

  function ByteBits(b: byte): (r: seq<bool>)
    ensures |r| == 8
  {
    BitsOf(b, BYTE_BITS)
  }

  function MessageBits(data: seq<byte>): (r: seq<bool>)
    ensures |r| == 8 * |data|
  {
    if data == [] then [] else MessageBits(data[..|data| - 1]) + ByteBits(data[|data| - 1])
  }

  function BitStep(c: u16, e: bool): u16 {
    Bit(Xor16(c, BitOf(e)))
  }

  function BitRun(c: u16, bits: seq<bool>): u16
    decreases |bits|
  {
    if bits == [] then c else BitRun(BitStep(c, bits[0]), bits[1..])
  }

  lemma {:induction false} BitRunConcat(c: u16, a: seq<bool>, b: seq<bool>)
    ensures BitRun(c, a + b) == BitRun(BitRun(c, a), b)
    decreases |a|
  {
    if a == [] {
      assert a + b == b;
    } else {
      assert (a + b)[1..] == a[1..] + b;
      BitRunConcat(BitStep(c, a[0]), a[1..], b);
    }
  }

  lemma BitXor(a: u16, b: u16)
    ensures Bit(Xor16(a, b)) == Xor16(Bit(a), Bit(b))
  {
    XorSplit(a, b);
    var x, y := a / 2, b / 2;
    var s, t := if a % 2 == 1 then POLY else 0, if b % 2 == 1 then POLY else 0;
    XorSwap(x, s, y, t);
    XorZero(x);
    XorZero(y);
    XorZero(Xor(x, y));
    XorSelf(POLY);
    XorZero(POLY);
    XorComm(0, POLY);
  }

  /** A number is its lowest bit and the rest. */
  lemma {:induction false} SplitLow(b: nat)
    ensures b == Xor(BitOf(b % 2 == 1), 2 * (b / 2))
  {
    var e, h := BitOf(b % 2 == 1), b / 2;
    Halves(h, 0);
    XorComm(0, h);
    XorZero(h);
    XorSplit(e, 2 * h);
    SameBits(Xor(e, 2 * h), b);
  }

  /** Feeding the bits one by one does what XOR-ing the whole byte in first does. */
  lemma {:induction false} BitsAsSteps(c: u16, b: byte, n: nat)
    requires b < Pow2(n)
    ensures BitRun(c, BitsOf(b, n)) == Bits(Xor16(c, b), n)
    decreases n
  {
    if n == 0 {
      XorZero(c);
    } else {
      var e, rest: byte := BitOf(b % 2 == 1), b / 2;
      BitsAsSteps(BitStep(c, b % 2 == 1), rest, n - 1);
      calc {
        Bit(Xor16(c, b));
        { SplitLow(b); XorAssoc(c, e, 2 * rest); }
        Bit(Xor16(Xor16(c, e), 2 * rest));
        { BitXor(Xor16(c, e), 2 * rest); }
        Xor16(Bit(Xor16(c, e)), Bit(2 * rest));
        Xor16(BitStep(c, b % 2 == 1), rest);
      }
      assert BitsOf(b, n)[1..] == BitsOf(rest, n - 1);
    }
  }

  lemma {:induction false} CrcIsBitRun(data: seq<byte>)
    ensures Crc16(data) == BitRun(0, MessageBits(data))
  {
    if data != [] {
      var n := |data| - 1;
      CrcIsBitRun(data[..n]);
      BitRunConcat(0, MessageBits(data[..n]), ByteBits(data[n]));
      PowTable();
      BitsAsSteps(Crc16(data[..n]), data[n], BYTE_BITS);
    }
  }

  // ---------------------------------------------------------------- linearity

  function XorAll(p: seq<byte>, q: seq<byte>): (r: seq<byte>)
    requires |p| == |q|
    ensures |r| == |p|
  {
    seq(|p|, i requires 0 <= i < |p| => XorBytes(p[i], q[i]))
  }

  lemma {:induction false} BitsXor(a: u16, b: u16, n: nat)
    ensures Bits(Xor16(a, b), n) == Xor16(Bits(a, n), Bits(b, n))
    decreases n
  {
    if n > 0 {
      BitXor(a, b);
      BitsXor(Bit(a), Bit(b), n - 1);
    }
  }

  /** The CRC of the XOR of two equally long payloads is the XOR of their CRCs. */
  lemma {:induction false} CrcLinear(p: seq<byte>, q: seq<byte>)
    requires |p| == |q|
    ensures Crc16(XorAll(p, q)) == Xor16(Crc16(p), Crc16(q))
  {
    if p != [] {
      var n := |p| - 1;
      CrcLinear(p[..n], q[..n]);
      assert XorAll(p, q)[..n] == XorAll(p[..n], q[..n]);
      var c, d := Crc16(p[..n]), Crc16(q[..n]);
      XorSwap(c, d, p[n], q[n]);
      BitsXor(Xor16(c, p[n]), Xor16(d, q[n]), BYTE_BITS);
    }
  }

  function XorBits(a: seq<bool>, b: seq<bool>): (r: seq<bool>)
    requires |a| == |b|
    ensures |r| == |a|
  {
    seq(|a|, i requires 0 <= i < |a| => a[i] != b[i])
  }

  lemma {:induction false} BitRunLinear(c: u16, d: u16, a: seq<bool>, b: seq<bool>)
    requires |a| == |b|
    ensures BitRun(Xor16(c, d), XorBits(a, b)) == Xor16(BitRun(c, a), BitRun(d, b))
    decreases |a|
  {
    if a != [] {
      var x, y := BitOf(a[0]), BitOf(b[0]);
      XorSwap(c, d, x, y);
      assert BitOf(a[0] != b[0]) == Xor(x, y);
      BitXor(Xor16(c, x), Xor16(d, y));
      assert XorBits(a, b)[1..] == XorBits(a[1..], b[1..]);
      BitRunLinear(BitStep(c, a[0]), BitStep(d, b[0]), a[1..], b[1..]);
    }
  }

  /** The difference of two CRCs is what the register makes of the difference of the bits. */
  lemma CrcDifference(p: seq<byte>, q: seq<byte>)
    requires |p| == |q|
    ensures Xor16(Crc16(p), Crc16(q)) == BitRun(0, XorBits(MessageBits(p), MessageBits(q)))
  {
    CrcIsBitRun(p);
    CrcIsBitRun(q);
    BitRunLinear(0, 0, MessageBits(p), MessageBits(q));
  }

  // ------------------------------------------------------------- burst errors

  /** A shift that leaves less than bit 15 set cannot have tapped, so it only halved. */
  lemma SmallBit(v: u16)
    requires Bit(v) < 0x8000
    ensures v == 2 * Bit(v)
  {
    PowTable();
    XorTop(v / 2, 0x2001, 15);
  }

  lemma {:induction false} ZerosKeepZero(bits: seq<bool>)
    requires forall i :: 0 <= i < |bits| ==> !bits[i]
    ensures BitRun(0, bits) == 0
    decreases |bits|
  {
    if bits != [] {
      ZerosKeepZero(bits[1..]);
    }
  }

  /** If up to 15 more bits bring the register to zero, it held no more than that many bits. */
  lemma {:induction false} BackFromZero(c: u16, bits: seq<bool>)
    requires |bits| <= 15 && BitRun(c, bits) == 0
    ensures c < Pow2(|bits|)
    decreases |bits|
  {
    if bits != [] {
      var n, e := |bits|, BitOf(bits[0]);
      BackFromZero(BitStep(c, bits[0]), bits[1..]);
      Pow2Monotone(n - 1, 14);
      assert Pow2(15) == 0x8000 by { PowTable(); }
      var v := Xor16(c, e);
      SmallBit(v);
      XorTwice(c, e);
      assert e < 2 <= Pow2(n);
      XorBound(v, e, n);
    }
  }

  lemma {:induction false} Pow2Monotone(m: nat, n: nat)
    requires m <= n
    ensures Pow2(m) <= Pow2(n)
    decreases n
  {
    if m < n {
      Pow2Monotone(m, n - 1);
    }
  }

  lemma {:induction false} TrailingZeros(c: u16, bits: seq<bool>)
    requires forall i :: 0 <= i < |bits| ==> !bits[i]
    requires BitRun(c, bits) == 0
    ensures c == 0
    decreases |bits|
  {
    if bits != [] {
      TrailingZeros(BitStep(c, false), bits[1..]);
      XorZero(c);
      SmallBit(c);
    }
  }

  /** The first wrong bit loads the polynomial; 15 more bits cannot clear it. */
  lemma PolyNotCleared(rest: seq<bool>)
    requires forall i :: 15 <= i < |rest| ==> !rest[i]
    ensures BitRun(POLY, rest) != 0
  {
    var w := if |rest| < 15 then |rest| else 15;
    assert rest == rest[..w] + rest[w..];
    BitRunConcat(POLY, rest[..w], rest[w..]);
    if BitRun(POLY, rest) == 0 {
      TrailingZeros(BitRun(POLY, rest[..w]), rest[w..]);
      BackFromZero(POLY, rest[..w]);
      Pow2Monotone(w, 15);
      PowTable();
    }
  }

  lemma FirstBitLoadsPoly()
    ensures BitStep(0, true) == POLY
  {
    assert Xor(0, 1) == 1;
    XorComm(0, POLY);
    XorZero(POLY);
  }

  /** A nonempty error pattern confined to 16 consecutive bits never yields remainder zero. */
  lemma BurstRemainder(e: seq<bool>, f: nat)
    requires f < |e| && e[f]
    requires forall i :: 0 <= i < |e| && e[i] ==> f <= i < f + 16
    ensures BitRun(0, e) != 0
  {
    var rest := e[f + 1..];
    assert e == e[..f] + ([true] + rest);
    calc {
      BitRun(0, e);
      { BitRunConcat(0, e[..f], [true] + rest); }
      BitRun(BitRun(0, e[..f]), [true] + rest);
      { ZerosKeepZero(e[..f]); }
      BitRun(0, [true] + rest);
      { BitRunCons(0, true, rest); FirstBitLoadsPoly(); }
      BitRun(POLY, rest);
    }
    PolyNotCleared(rest);
  }

  lemma BitRunCons(c: u16, e: bool, rest: seq<bool>)
    ensures BitRun(c, [e] + rest) == BitRun(BitStep(c, e), rest)
  {
    assert ([e] + rest)[1..] == rest;
  }

  lemma {:induction false} FirstSet(e: seq<bool>, k: nat) returns (f: nat)
    requires k < |e| && e[k]
    ensures f <= k && e[f] && forall i :: 0 <= i < f ==> !e[i]
  {
    f := 0;
    while !e[f]
      invariant f <= k && forall i :: 0 <= i < f ==> !e[i]
      decreases k - f
    {
      f := f + 1;
    }
  }

  /** Payloads whose bit strings differ, but only within 16 consecutive bits, have different CRCs. */
  lemma BurstDetected(p: seq<byte>, q: seq<byte>, start: nat)
    requires |p| == |q| && p != q
    requires forall i :: 0 <= i < 8 * |p| && MessageBits(p)[i] != MessageBits(q)[i] ==> start <= i < start + 16
    ensures Crc16(p) != Crc16(q)
  {
    var e := XorBits(MessageBits(p), MessageBits(q));
    var k := BitsDiffer(p, q);
    var f := FirstSet(e, k);
    CrcDifference(p, q);
    BurstRemainder(e, f);
    XorSelf(Crc16(p));
  }

  /** Different payloads of one length differ in some bit. */
  lemma BitsDiffer(p: seq<byte>, q: seq<byte>) returns (k: nat)
    requires |p| == |q| && p != q
    ensures k < 8 * |p| && MessageBits(p)[k] != MessageBits(q)[k]
  {
    if MessageBits(p) == MessageBits(q) {
      BitsDetermine(p, q);
    }
    k :| k < 8 * |p| && MessageBits(p)[k] != MessageBits(q)[k];
  }

  lemma {:induction false} LastByteBits(p: seq<byte>)
    requires p != []
    ensures MessageBits(p)[..8 * (|p| - 1)] == MessageBits(p[..|p| - 1])
    ensures MessageBits(p)[8 * (|p| - 1)..] == ByteBits(p[|p| - 1])
  {
  }

  lemma {:induction false} BitsDetermine(p: seq<byte>, q: seq<byte>)
    requires |p| == |q| && MessageBits(p) == MessageBits(q)
    ensures p == q
  {
    if p != [] {
      var n := |p| - 1;
      LastByteBits(p);
      LastByteBits(q);
      BitsDetermine(p[..n], q[..n]);
      PowTable();
      ByteFromBits(p[n], q[n], 8);
      assert p == p[..n] + [p[n]] && q == q[..n] + [q[n]];
    }
  }

  lemma {:induction false} ByteFromBits(a: nat, b: nat, n: nat)
    requires a < Pow2(n) && b < Pow2(n) && BitsOf(a, n) == BitsOf(b, n)
    ensures a == b
    decreases n
  {
    if n > 0 {
      assert BitsOf(a, n)[0] == BitAt(a, 0) && BitsOf(b, n)[0] == BitAt(b, 0);
      assert BitsOf(a, n)[1..] == BitsOf(a / 2, n - 1) && BitsOf(b, n)[1..] == BitsOf(b / 2, n - 1);
      ByteFromBits(a / 2, b / 2, n - 1);
    }
  }

  // --------------------------------------------------------------- odd errors

  /** Whether an odd number of bits is set. */
  function Odd(a: nat): bool {
    if a == 0 then false else Odd(a / 2) != (a % 2 == 1)
  }

  function OddBits(bits: seq<bool>): bool
    decreases |bits|
  {
    if bits == [] then false else OddBits(bits[1..]) != bits[0]
  }

  lemma {:induction false} OddXor(a: nat, b: nat)
    ensures Odd(Xor(a, b)) == (Odd(a) != Odd(b))
    decreases a + b
  {
    if a != 0 || b != 0 {
      OddXor(a / 2, b / 2);
      XorSplit(a, b);
    }
  }

  lemma {:induction false} OddBit(c: u16)
    ensures Odd(Bit(c)) == Odd(c)
  {
    assert !Odd(5) && !Odd(80) && !Odd(1280) && !Odd(20480);
    assert Odd(POLY);
    OddXor(c / 2, POLY);
  }

  lemma {:induction false} OddRun(c: u16, bits: seq<bool>)
    ensures Odd(BitRun(c, bits)) == (Odd(c) != OddBits(bits))
    decreases |bits|
  {
    if bits != [] {
      OddXor(c, BitOf(bits[0]));
      OddBit(Xor16(c, BitOf(bits[0])));
      OddRun(BitStep(c, bits[0]), bits[1..]);
    }
  }

  /** Payloads that differ in an odd number of bits have different CRCs. */
  lemma OddErrorsDetected(p: seq<byte>, q: seq<byte>)
    requires |p| == |q| && OddBits(XorBits(MessageBits(p), MessageBits(q)))
    ensures Crc16(p) != Crc16(q)
  {
    CrcDifference(p, q);
    OddRun(0, XorBits(MessageBits(p), MessageBits(q)));
    XorSelf(Crc16(p));
  }

  /** Any damage confined to two adjacent bytes is a burst of at most 16 bits. */
  lemma AdjacentBytesDetected(p: seq<byte>, q: seq<byte>, k: nat)
    requires |p| == |q| && p != q
    requires forall i :: 0 <= i < |p| && p[i] != q[i] ==> i == k || i == k + 1
    ensures Crc16(p) != Crc16(q)
  {
    forall i | 0 <= i < 8 * |p| && MessageBits(p)[i] != MessageBits(q)[i] ensures 8 * k <= i < 8 * k + 16 {
      BitComesFromByte(p, i, i / 8, i % 8);
      BitComesFromByte(q, i, i / 8, i % 8);
    }
    BurstDetected(p, q, 8 * k);
  }

  /** Bit `i` of a message is bit `i % 8` of byte `i / 8`. */
  lemma {:induction false} BitComesFromByte(p: seq<byte>, i: nat, k: nat, r: nat)
    requires i == 8 * k + r && r < 8 && k < |p|
    ensures MessageBits(p)[i] == ByteBits(p[k])[r]
  {
    var n := |p| - 1;
    if k < n {
      BitComesFromByte(p[..n], i, k, r);
    }
  }
}
