/** What CRC-16/ARC is: a message followed by its CRC, both least significant bit first, is a
    multiple of the polynomial x^16 + x^15 + x^2 + 1 over GF(2). */
module CrcPolynomial {
  import opened Bytes
  import opened Crc

  /** Coefficient `j` of a polynomial given from its highest power down; 0 outside. */
  function At(q: seq<bool>, j: int): bool {
    0 <= j < |q| && q[j]
  }

  function Odd3(a: bool, b: bool, c: bool): bool {
    (a != b) != c
  }

  /** Coefficient `k` of `q` times x^16 + x^15 + x^2 + 1, from the highest power down. */
  function TimesPolynomial(q: seq<bool>, k: nat): bool {
    At(q, k) != Odd3(At(q, k - 1), At(q, k - 14), At(q, k - 16))
  }

  /** The bits the register shifts out, each combined with the message bit that met it. */
  function Quotient(bits: seq<bool>): (q: seq<bool>)
    ensures |q| == |bits|
  {
    if bits == [] then []
    else
      var n := |bits| - 1;
      Quotient(bits[..n]) + [(BitRun(0, bits[..n]) % 2 == 1) != bits[n]]
  }

  // ------------------------------------------------------------- the register

  /** The taps of 0xA001. */
  lemma PolyAt(i: nat)
    requires i < 16
    ensures BitAt(POLY, i) == (i == 0 || i == 13 || i == 15)
  {
    assert BitAt(0xA001, 0) && !BitAt(0x5000, 0) && !BitAt(0x2800, 0) && !BitAt(0x1400, 0);
    assert !BitAt(0xA00, 0) && !BitAt(0x500, 0) && !BitAt(0x280, 0) && !BitAt(0x140, 0);
    assert !BitAt(0xA0, 0) && !BitAt(0x50, 0) && !BitAt(0x28, 0) && !BitAt(0x14, 0);
    assert !BitAt(0xA, 0) && BitAt(0x5, 0) && !BitAt(0x2, 0) && BitAt(0x1, 0);
    if i < 8 {
      PolyLow(i);
    } else {
      PolyHigh(i);
    }
  }

  lemma PolyLow(i: nat)
    requires i < 8
    ensures BitAt(POLY, i) == (i == 0)
  {
    match i
    case 0 =>
    case 1 => assert BitAt(0x5000, 0) == BitAt(0xA001, 1);
    case 2 => assert BitAt(0xA001, 2) == BitAt(0x5000, 1) == BitAt(0x2800, 0);
    case 3 => assert BitAt(0xA001, 3) == BitAt(0x2800, 1) == BitAt(0x1400, 0);
    case 4 => assert BitAt(0xA001, 4) == BitAt(0x1400, 1) == BitAt(0xA00, 0);
    case 5 => assert BitAt(0xA001, 5) == BitAt(0xA00, 1) == BitAt(0x500, 0);
    case 6 => assert BitAt(0xA001, 6) == BitAt(0x500, 1) == BitAt(0x280, 0);
    case _ => assert BitAt(0xA001, 7) == BitAt(0x280, 1) == BitAt(0x140, 0);
  }

  lemma PolySkip(i: nat)
    requires i >= 8
    ensures BitAt(POLY, i) == BitAt(0xA0, i - 8)
  {
    assert BitAt(0xA001, i) == BitAt(0x5000, i - 1) == BitAt(0x2800, i - 2) == BitAt(0x1400, i - 3);
    assert BitAt(0x1400, i - 3) == BitAt(0xA00, i - 4) == BitAt(0x500, i - 5) == BitAt(0x280, i - 6);
    assert BitAt(0x280, i - 6) == BitAt(0x140, i - 7) == BitAt(0xA0, i - 8);
  }

  lemma PolyHigh(i: nat)
    requires 8 <= i < 16
    ensures BitAt(POLY, i) == (i == 13 || i == 15)
  {
    PolySkip(i);
    match i
    case 8 =>
    case 9 => assert BitAt(0xA0, 1) == BitAt(0x50, 0);
    case 10 => assert BitAt(0xA0, 2) == BitAt(0x28, 0);
    case 11 => assert BitAt(0xA0, 3) == BitAt(0x14, 0);
    case 12 => assert BitAt(0xA0, 4) == BitAt(0xA, 0);
    case 13 => assert BitAt(0xA0, 5) == BitAt(0x5, 0);
    case 14 => assert BitAt(0xA0, 6) == BitAt(0x2, 0);
    case _ => assert BitAt(0xA0, 7) == BitAt(0x1, 0);
  }

  /** One bit: the register moves down, and the taps take in the bit that fell out. */
  lemma BitStepAt(c: u16, e: bool, i: nat)
    requires i < 16
    ensures var f := (c % 2 == 1) != e;
            BitAt(BitStep(c, e), i) == (BitAt(c, i + 1) != (f && (i == 0 || i == 13 || i == 15)))
  {
    var x := Xor16(c, BitOf(e));
    XorSplit(c, BitOf(e));
    assert x % 2 == 1 <==> (c % 2 == 1) != e;
    XorZero(c / 2);
    assert x / 2 == c / 2;
    XorAt(x / 2, POLY, i);
    PolyAt(i);
  }

  /** What bits `i` of the register owe to the bits shifted out so far. */
  function Taps(q: seq<bool>, i: nat): bool {
    Odd3(At(q, |q| + i - 1), At(q, |q| + i - 14), At(q, |q| + i - 16))
  }

  lemma TapsStep(q: seq<bool>, f: bool, i: nat)
    requires i < 16
    ensures Taps(q + [f], i) == (Taps(q, i + 1) != (f && (i == 0 || i == 13 || i == 15)))
  {
    var n := |q|;
    AtSnoc(q, f, n + i);
    AtSnoc(q, f, n + i - 13);
    AtSnoc(q, f, n + i - 15);
  }

  lemma AtSnoc(q: seq<bool>, f: bool, j: int)
    ensures At(q + [f], j) == (At(q, j) != (f && j == |q|))
  {
  }

  /** The register holds what the last bits shifted out left in the taps. */
  lemma {:induction false} RegisterAt(bits: seq<bool>, i: nat)
    requires i <= 16
    ensures BitAt(BitRun(0, bits), i) == Taps(Quotient(bits), i)
    decreases |bits|
  {
    if i == 16 {
      PowTable();
      BitBeyond(BitRun(0, bits), 16, 16);
    } else if bits == [] {
      ZeroAt(i);
    } else {
      var before, e := bits[..|bits| - 1], bits[|bits| - 1];
      var c := BitRun(0, before);
      RegisterAt(before, i + 1);
      RunSnoc(before, e);
      assert before + [e] == bits;
      BitStepAt(c, e, i);
      TapsStep(Quotient(before), (c % 2 == 1) != e, i);
    }
  }

  lemma RunSnoc(bits: seq<bool>, e: bool)
    ensures BitRun(0, bits + [e]) == BitStep(BitRun(0, bits), e)
  {
    BitRunConcat(0, bits, [e]);
    assert [e][1..] == [];
  }

  // --------------------------------------------------------------- the theorem

  lemma {:induction false} QuotientPrefix(bits: seq<bool>, n: nat)
    requires n <= |bits|
    ensures Quotient(bits)[..n] == Quotient(bits[..n])
    decreases |bits|
  {
    if n == |bits| {
      assert bits[..n] == bits;
    } else {
      var m := |bits| - 1;
      QuotientPrefix(bits[..m], n);
      assert bits[..m][..n] == bits[..n];
    }
  }

  /** Every message bit is its coefficient of the product. */
  lemma MessageBitAt(bits: seq<bool>, k: nat)
    requires k < |bits|
    ensures bits[k] == TimesPolynomial(Quotient(bits), k)
  {
    var q, p := Quotient(bits), Quotient(bits[..k]);
    QuotientPrefix(bits, k);
    QuotientPrefix(bits, k + 1);
    assert bits[..k + 1][..k] == bits[..k];
    RegisterAt(bits[..k], 0);
    assert q[k] == q[..k + 1][k];
    SameBelow(q, p, k);
  }

  lemma SameBelow(q: seq<bool>, p: seq<bool>, k: nat)
    requires k <= |q| && p == q[..k]
    ensures Taps(p, 0) == Odd3(At(q, k - 1), At(q, k - 14), At(q, k - 16))
  {
  }

  /** Every bit of the CRC is its coefficient of the product. */
  lemma CrcBitAt(bits: seq<bool>, i: nat)
    requires i < 16
    ensures BitAt(BitRun(0, bits), i) == TimesPolynomial(Quotient(bits), |bits| + i)
  {
    RegisterAt(bits, i);
    BeyondEnd(Quotient(bits), i);
  }

  lemma BeyondEnd(q: seq<bool>, i: nat)
    ensures TimesPolynomial(q, |q| + i) == Taps(q, i)
  {
  }

  /** The coefficients, from the highest power down, of `q` times x^16 + x^15 + x^2 + 1. */
  ghost predicate IsMultiple(product: seq<bool>, q: seq<bool>) {
    |product| == |q| + 16 && forall k :: 0 <= k < |product| ==> product[k] == TimesPolynomial(q, k)
  }

  lemma Joined(bits: seq<bool>, tail: seq<bool>, q: seq<bool>)
    requires |q| == |bits| && |tail| == 16
    requires forall k :: 0 <= k < |bits| ==> bits[k] == TimesPolynomial(q, k)
    requires forall i :: 0 <= i < 16 ==> tail[i] == TimesPolynomial(q, |bits| + i)
    ensures IsMultiple(bits + tail, q)
  {
    forall k | 0 <= k < |bits| + 16 ensures (bits + tail)[k] == TimesPolynomial(q, k) {
      if k >= |bits| {
        assert (bits + tail)[k] == tail[k - |bits|];
      }
    }
  }

  /** Any bits followed by the 16 bits they leave in the register are such a multiple. */
  lemma RunIsMultiple(bits: seq<bool>)
    ensures IsMultiple(bits + BitsOf(BitRun(0, bits), 16), Quotient(bits))
  {
    var q, c := Quotient(bits), BitRun(0, bits);
    forall k | 0 <= k < |bits| ensures bits[k] == TimesPolynomial(q, k) {
      MessageBitAt(bits, k);
    }
    forall i | 0 <= i < 16 ensures BitsOf(c, 16)[i] == TimesPolynomial(q, |bits| + i) {
      CrcBitAt(bits, i);
    }
    Joined(bits, BitsOf(c, 16), q);
  }

  /** The bits of a message followed by the 16 bits of its CRC are the coefficients of a multiple of
      x^16 + x^15 + x^2 + 1. */
  lemma MessageAndCrcAreMultiple(data: seq<byte>)
    ensures IsMultiple(MessageBits(data) + BitsOf(Crc16(data), 16), Quotient(MessageBits(data)))
  {
    CrcIsBitRun(data);
    RunIsMultiple(MessageBits(data));
  }
}
