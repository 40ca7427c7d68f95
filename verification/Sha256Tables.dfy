/** Where the constants of SHA-256 come from (FIPS 180-4, sections 4.2.2 and 5.3.3): the fractional
    parts of the cube roots of the first 64 primes and of the square roots of the first 8. */
module Sha256Tables {
  import opened Bytes
  import opened Sha256Spec

  // ------------------------------------------------------------------ primes

  function Times(a: nat, b: nat): nat {
    a * b
  }

  ghost predicate Prime(n: nat) {
    n >= 2 && !exists a: nat, b: nat :: a >= 2 && b >= 2 && Times(a, b) == n
  }

  /** `b` is the next prime after `a`. */
  ghost predicate NextPrime(a: nat, b: nat) {
    a < b && Prime(b) && forall n :: a < n < b ==> !Prime(n)
  }

  const P0: seq<nat> := [2, 3, 5, 7, 11, 13, 17, 19]
  const P1: seq<nat> := [23, 29, 31, 37, 41, 43, 47, 53]
  const P2: seq<nat> := [59, 61, 67, 71, 73, 79, 83, 89]
  const P3: seq<nat> := [97, 101, 103, 107, 109, 113, 127, 131]
  const P4: seq<nat> := [137, 139, 149, 151, 157, 163, 167, 173]
  const P5: seq<nat> := [179, 181, 191, 193, 197, 199, 211, 223]
  const P6: seq<nat> := [227, 229, 233, 239, 241, 251, 257, 263]
  const P7: seq<nat> := [269, 271, 277, 281, 283, 293, 307, 311]
  const PRIMES: seq<nat> := P0 + P1 + P2 + P3 + P4 + P5 + P6 + P7

  predicate Spared(n: nat, d: nat)
    requires d > 0
  {
    n == d || n % d != 0
  }

  /** No division by a prime below 18 comes out even. */
  predicate Sieved(n: nat) {
    n >= 2 && Spared(n, 2) && Spared(n, 3) && Spared(n, 5) && Spared(n, 7)
    && Spared(n, 11) && Spared(n, 13) && Spared(n, 17)
  }

  predicate NoneFrom(a: nat, n: nat)
    decreases n
  {
    n == 0 || (!Sieved(a) && NoneFrom(a + 1, n - 1))
  }

  predicate Follows(a: nat, b: nat) {
    a < b && Sieved(b) && NoneFrom(a + 1, b - a - 1)
  }

  lemma Hit(p: nat, m: nat)
    requires p >= 1
    ensures (p * m) % p == 0
  {
    var n := p * m;
    QuotientIs(n, p, m);
    assert n == p * (n / p) + n % p;
  }

  lemma SmallFactor(n: nat, a: nat, b: nat)
    requires 2 <= a < 18 && b >= 2 && n == a * b
    ensures !Sieved(n)
  {
    var p, c := PrimeOf(a);
    assert n == p * (c * b);
    assert c * b >= 2;
    Hit(p, c * b);
  }

  lemma PrimeOf(a: nat) returns (p: nat, c: nat)
    requires 2 <= a < 18
    ensures p in {2, 3, 5, 7, 11, 13, 17} && c >= 1 && a == p * c
  {
    p := if a % 2 == 0 then 2 else if a % 3 == 0 then 3 else if a % 5 == 0 then 5 else a;
    c := a / p;
  }

  lemma Multiple(n: nat, d: nat)
    requires d >= 2 && n >= 2 && !Spared(n, d)
    ensures !Prime(n)
  {
    var k := n / d;
    assert n == d * k;
    assert k != 0 && k != 1;
    assert Times(d, k) == n;
  }

  /** Below 18 squared the sieve tells exactly the primes. */
  lemma SieveIsExact(n: nat)
    requires n < 324
    ensures Sieved(n) <==> Prime(n)
  {
    if Sieved(n) && !Prime(n) {
      var a, b :| a >= 2 && b >= 2 && Times(a, b) == n;
      SmallOf(n, a, b);
    } else if n >= 2 && !Sieved(n) {
      var d :| d in {2, 3, 5, 7, 11, 13, 17} && !Spared(n, d);
      Multiple(n, d);
    }
  }

  lemma SmallOf(n: nat, a: nat, b: nat)
    requires n < 324 && a >= 2 && b >= 2 && n == a * b
    ensures !Sieved(n)
  {
    if a < 18 {
      SmallFactor(n, a, b);
    } else if b < 18 {
      SmallFactor(n, b, a);
    } else {
      Larger(a, b);
    }
  }

  lemma Larger(a: nat, b: nat)
    requires a >= 18 && b >= 18
    ensures a * b >= 324
  {
    assert a * b >= 18 * b;
  }

  lemma {:induction false} NoneIsNone(a: nat, n: nat, k: nat)
    requires NoneFrom(a, n) && a <= k < a + n
    ensures !Sieved(k)
    decreases n
  {
    if a < k {
      NoneIsNone(a + 1, n - 1, k);
    }
  }

  lemma FollowsIsNext(a: nat, b: nat)
    requires Follows(a, b) && b < 324
    ensures NextPrime(a, b)
  {
    SieveIsExact(b);
    forall n | a < n < b ensures !Prime(n) {
      NoneIsNone(a + 1, b - a - 1, n);
      SieveIsExact(n);
    }
  }

  lemma Sieve0()
    ensures Follows(1, 2) && Follows(2, 3) && Follows(3, 5) && Follows(5, 7)
  {
  }

  lemma Sieve1()
    ensures Follows(7, 11) && Follows(11, 13) && Follows(13, 17) && Follows(17, 19)
  {
  }

  lemma Sieve2()
    ensures Follows(19, 23) && Follows(23, 29) && Follows(29, 31) && Follows(31, 37)
  {
  }

  lemma Sieve3()
    ensures Follows(37, 41) && Follows(41, 43) && Follows(43, 47) && Follows(47, 53)
  {
  }

  lemma Sieve4()
    ensures Follows(53, 59) && Follows(59, 61) && Follows(61, 67) && Follows(67, 71)
  {
  }

  lemma Sieve5()
    ensures Follows(71, 73) && Follows(73, 79) && Follows(79, 83) && Follows(83, 89)
  {
  }

  lemma Sieve6()
    ensures Follows(89, 97) && Follows(97, 101) && Follows(101, 103) && Follows(103, 107)
  {
  }

  lemma Sieve7()
    ensures Follows(107, 109) && Follows(109, 113) && Follows(113, 127) && Follows(127, 131)
  {
  }

  lemma Sieve8()
    ensures Follows(131, 137) && Follows(137, 139) && Follows(139, 149) && Follows(149, 151)
  {
  }

  lemma Sieve9()
    ensures Follows(151, 157) && Follows(157, 163) && Follows(163, 167) && Follows(167, 173)
  {
  }

  lemma Sieve10()
    ensures Follows(173, 179) && Follows(179, 181) && Follows(181, 191) && Follows(191, 193)
  {
  }

  lemma Sieve11()
    ensures Follows(193, 197) && Follows(197, 199) && Follows(199, 211) && Follows(211, 223)
  {
  }

  lemma Sieve12()
    ensures Follows(223, 227) && Follows(227, 229) && Follows(229, 233) && Follows(233, 239)
  {
  }

  lemma Sieve13()
    ensures Follows(239, 241) && Follows(241, 251) && Follows(251, 257) && Follows(257, 263)
  {
  }

  lemma Sieve14()
    ensures Follows(263, 269) && Follows(269, 271) && Follows(271, 277) && Follows(277, 281)
  {
  }

  lemma Sieve15()
    ensures Follows(281, 283) && Follows(283, 293) && Follows(293, 307) && Follows(307, 311)
  {
  }

  lemma PrimesOf0(j: nat)
    requires j < 8
    ensures Follows(if j == 0 then 1 else P0[j - 1], P0[j]) && P0[j] < 324
  {
    Sieve0();
    Sieve1();
  }

  lemma PrimesOf1(j: nat)
    requires j < 8
    ensures Follows(if j == 0 then 19 else P1[j - 1], P1[j]) && P1[j] < 324
  {
    Sieve2();
    Sieve3();
  }

  lemma PrimesOf2(j: nat)
    requires j < 8
    ensures Follows(if j == 0 then 53 else P2[j - 1], P2[j]) && P2[j] < 324
  {
    Sieve4();
    Sieve5();
  }

  lemma PrimesOf3(j: nat)
    requires j < 8
    ensures Follows(if j == 0 then 89 else P3[j - 1], P3[j]) && P3[j] < 324
  {
    Sieve6();
    Sieve7();
  }

  lemma PrimesOf4(j: nat)
    requires j < 8
    ensures Follows(if j == 0 then 131 else P4[j - 1], P4[j]) && P4[j] < 324
  {
    Sieve8();
    Sieve9();
  }

  lemma PrimesOf5(j: nat)
    requires j < 8
    ensures Follows(if j == 0 then 173 else P5[j - 1], P5[j]) && P5[j] < 324
  {
    Sieve10();
    Sieve11();
  }

  lemma PrimesOf6(j: nat)
    requires j < 8
    ensures Follows(if j == 0 then 223 else P6[j - 1], P6[j]) && P6[j] < 324
  {
    Sieve12();
    Sieve13();
  }

  lemma PrimesOf7(j: nat)
    requires j < 8
    ensures Follows(if j == 0 then 263 else P7[j - 1], P7[j]) && P7[j] < 324
  {
    Sieve14();
    Sieve15();
  }

  /** The prime before entry `i` of the table, or 1. */
  function Before(i: nat): nat
    requires i < |PRIMES| == 64
  {
    if i == 0 then 1 else PRIMES[i - 1]
  }

  function Row(r: nat): (row: seq<nat>)
    requires r < 8
    ensures |row| == 8
  {
    [P0, P1, P2, P3, P4, P5, P6, P7][r]
  }

  lemma RowFollows(r: nat, j: nat)
    requires r < 8 && j < 8
    ensures Follows(if j > 0 then Row(r)[j - 1] else if r > 0 then Row(r - 1)[7] else 1, Row(r)[j])
    ensures Row(r)[j] < 324
  {
    match r
    case 0 => PrimesOf0(j);
    case 1 => PrimesOf1(j);
    case 2 => PrimesOf2(j);
    case 3 => PrimesOf3(j);
    case 4 => PrimesOf4(j);
    case 5 => PrimesOf5(j);
    case 6 => PrimesOf6(j);
    case _ => PrimesOf7(j);
  }

  lemma TableFollows(r: nat, j: nat)
    requires r < 8 && j < 8
    ensures |PRIMES| == 64 && Follows(Before(8 * r + j), PRIMES[8 * r + j]) && PRIMES[8 * r + j] < 324
  {
    RowFollows(r, j);
    PrimeAt(r, j);
    if j > 0 {
      PrimeAt(r, j - 1);
    } else if r > 0 {
      PrimeAt(r - 1, 7);
    }
  }

  /** The table lists the primes from 2 on, leaving none out. */
  lemma PrimesInOrder(i: nat)
    requires i < 64
    ensures |PRIMES| == 64 && NextPrime(Before(i), PRIMES[i])
  {
    TableFollows(i / 8, i % 8);
    FollowsIsNext(Before(i), PRIMES[i]);
  }

  lemma RowsInOrder<T>(a: seq<T>, b: seq<T>, c: seq<T>, d: seq<T>, e: seq<T>, f: seq<T>, g: seq<T>, h: seq<T>,
                       r: nat, j: nat)
    requires |a| == |b| == |c| == |d| == |e| == |f| == |g| == |h| == 8 && r < 8 && j < 8
    ensures (a + b + c + d + e + f + g + h)[8 * r + j] == [a, b, c, d, e, f, g, h][r][j]
  {
  }

  lemma PrimeAt(r: nat, j: nat)
    requires r < 8 && j < 8
    ensures |PRIMES| == 64 && PRIMES[8 * r + j] == Row(r)[j]
  {
    RowsInOrder(P0, P1, P2, P3, P4, P5, P6, P7, r, j);
  }

  // ------------------------------------------------------------------- roots

  /** `c` and the 32-bit fraction `k` are the cube root of `p`, cut off. */
  predicate CubeRoot(p: nat, c: nat, k: nat) {
    var r := c * 0x1_0000_0000 + k;
    r * r * r <= p * 0x1_0000_0000_0000_0000_0000_0000 < (r + 1) * (r + 1) * (r + 1)
  }

  /** `c` and the 32-bit fraction `k` are the square root of `p`, cut off. */
  predicate SquareRoot(p: nat, c: nat, k: nat) {
    var r := c * 0x1_0000_0000 + k;
    r * r <= p * 0x1_0000_0000_0000_0000 < (r + 1) * (r + 1)
  }

  ghost predicate CubeFraction(p: nat, k: nat) {
    exists c: nat :: CubeRoot(p, c, k)
  }

  lemma RootsOf0(j: nat)
    requires j < 8
    ensures CubeFraction(P0[j], K0[j])
  {
    assert CubeRoot(2, 1, K0[0]) && CubeRoot(3, 1, K0[1]) && CubeRoot(5, 1, K0[2]) && CubeRoot(7, 1, K0[3]);
    assert CubeRoot(11, 2, K0[4]) && CubeRoot(13, 2, K0[5]) && CubeRoot(17, 2, K0[6]) && CubeRoot(19, 2, K0[7]);
  }

  lemma RootsOf1(j: nat)
    requires j < 8
    ensures CubeFraction(P1[j], K1[j])
  {
    assert CubeRoot(23, 2, K1[0]) && CubeRoot(29, 3, K1[1]) && CubeRoot(31, 3, K1[2]) && CubeRoot(37, 3, K1[3]);
    assert CubeRoot(41, 3, K1[4]) && CubeRoot(43, 3, K1[5]) && CubeRoot(47, 3, K1[6]) && CubeRoot(53, 3, K1[7]);
  }

  lemma RootsOf2(j: nat)
    requires j < 8
    ensures CubeFraction(P2[j], K2[j])
  {
    assert CubeRoot(59, 3, K2[0]) && CubeRoot(61, 3, K2[1]) && CubeRoot(67, 4, K2[2]) && CubeRoot(71, 4, K2[3]);
    assert CubeRoot(73, 4, K2[4]) && CubeRoot(79, 4, K2[5]) && CubeRoot(83, 4, K2[6]) && CubeRoot(89, 4, K2[7]);
  }

  lemma RootsOf3(j: nat)
    requires j < 8
    ensures CubeFraction(P3[j], K3[j])
  {
    assert CubeRoot(97, 4, K3[0]) && CubeRoot(101, 4, K3[1]) && CubeRoot(103, 4, K3[2]) && CubeRoot(107, 4, K3[3]);
    assert CubeRoot(109, 4, K3[4]) && CubeRoot(113, 4, K3[5]) && CubeRoot(127, 5, K3[6]) && CubeRoot(131, 5, K3[7]);
  }

  lemma RootsOf4(j: nat)
    requires j < 8
    ensures CubeFraction(P4[j], K4[j])
  {
    assert CubeRoot(137, 5, K4[0]) && CubeRoot(139, 5, K4[1]) && CubeRoot(149, 5, K4[2]) && CubeRoot(151, 5, K4[3]);
    assert CubeRoot(157, 5, K4[4]) && CubeRoot(163, 5, K4[5]) && CubeRoot(167, 5, K4[6]) && CubeRoot(173, 5, K4[7]);
  }

  lemma RootsOf5(j: nat)
    requires j < 8
    ensures CubeFraction(P5[j], K5[j])
  {
    assert CubeRoot(179, 5, K5[0]) && CubeRoot(181, 5, K5[1]) && CubeRoot(191, 5, K5[2]) && CubeRoot(193, 5, K5[3]);
    assert CubeRoot(197, 5, K5[4]) && CubeRoot(199, 5, K5[5]) && CubeRoot(211, 5, K5[6]) && CubeRoot(223, 6, K5[7]);
  }

  lemma RootsOf6(j: nat)
    requires j < 8
    ensures CubeFraction(P6[j], K6[j])
  {
    assert CubeRoot(227, 6, K6[0]) && CubeRoot(229, 6, K6[1]) && CubeRoot(233, 6, K6[2]) && CubeRoot(239, 6, K6[3]);
    assert CubeRoot(241, 6, K6[4]) && CubeRoot(251, 6, K6[5]) && CubeRoot(257, 6, K6[6]) && CubeRoot(263, 6, K6[7]);
  }

  lemma RootsOf7(j: nat)
    requires j < 8
    ensures CubeFraction(P7[j], K7[j])
  {
    assert CubeRoot(269, 6, K7[0]) && CubeRoot(271, 6, K7[1]) && CubeRoot(277, 6, K7[2]) && CubeRoot(281, 6, K7[3]);
    assert CubeRoot(283, 6, K7[4]) && CubeRoot(293, 6, K7[5]) && CubeRoot(307, 6, K7[6]) && CubeRoot(311, 6, K7[7]);
  }

  /** Entry `i` of the table is the fraction of the cube root of the `i`-th prime. */
  lemma ConstantsAreCubeRoots(i: nat)
    requires i < 64
    ensures |K| == |PRIMES| == 64 && CubeFraction(PRIMES[i], K[i])
  {
    var r, j := i / 8, i % 8;
    PrimeAt(r, j);
    ConstantAt(r, j);
    match r
    case 0 => RootsOf0(j);
    case 1 => RootsOf1(j);
    case 2 => RootsOf2(j);
    case 3 => RootsOf3(j);
    case 4 => RootsOf4(j);
    case 5 => RootsOf5(j);
    case 6 => RootsOf6(j);
    case _ => RootsOf7(j);
  }

  lemma ConstantAt(r: nat, j: nat)
    requires r < 8 && j < 8
    ensures |K| == 64 && K[8 * r + j] == [K0, K1, K2, K3, K4, K5, K6, K7][r][j]
  {
    RowsInOrder(K0, K1, K2, K3, K4, K5, K6, K7, r, j);
  }

  /** The initial hash value is made of the fractions of the square roots of the first 8 primes. */
  lemma InitialValueIsSquareRoots()
    ensures SquareRoot(2, 1, H0.a) && SquareRoot(3, 1, H0.b) && SquareRoot(5, 2, H0.c) && SquareRoot(7, 2, H0.d)
    ensures SquareRoot(11, 3, H0.e) && SquareRoot(13, 3, H0.f) && SquareRoot(17, 4, H0.g) && SquareRoot(19, 4, H0.h)
  {
  }
}
