/**
  Where the constants of SHA-256 come from, sections 4.2.2 and 5.3.3 of FIPS 180-4: the first 32 bits of the
  fractional parts of the cube roots of the first 64 primes, and of the square roots of the first eight.
*/
module Sha256Constants {
  import opened Arithmetic
  import opened StarkPrime
  import Sha256
  import Sha256Padding

  // ------------------------------------------------------------------------
  // The first 64 primes
  // ------------------------------------------------------------------------

  /** `p` is prime, with exactly `t` primes below it. */
  ghost predicate IsNthPrime(t: nat, p: nat)
    decreases t, 0
  {
    IsPrime(p) && if t == 0 then forall n: nat :: n < p ==> !IsPrime(n) else ComesAfter(t - 1, p)
  }

  /** No prime lies between prime `t` and `p`. */
  ghost predicate ComesAfter(t: nat, p: nat)
    decreases t, 1
  {
    exists q: nat :: IsNthPrime(t, q) && q < p && forall n: nat :: q < n < p ==> !IsPrime(n)
  }

  predicate NoSmallDivisor(n: nat) {
    && n >= 2 && (n % 2 != 0 || n == 2) && (n % 3 != 0 || n == 3) && (n % 5 != 0 || n == 5) && (n % 7 != 0 || n == 7)
    && (n % 11 != 0 || n == 11) && (n % 13 != 0 || n == 13) && (n % 17 != 0 || n == 17)
  }

  lemma HasDivisor(n: nat, d: nat)
    requires 1 < d < n && n % d == 0
    ensures !IsPrime(n)
  {
    assert n == d * (n / d);
  }

  lemma Divides(d: nat, e: nat)
    requires d > 0
    ensures (d * e) % d == 0 && (d * e) / d == e
  {
    QuotientIs(d * e, d, e, 0);
  }

  lemma LargeFactors(d: nat, e: nat)
    requires d >= 19 && e >= 19
    ensures d * e >= 361
  {
  }

  /** Below 19 * 19, seven divisors tell the primes. */
  lemma SmallPrimes(n: nat)
    requires n < 361
    ensures IsPrime(n) <==> NoSmallDivisor(n)
  {
    if n >= 2 && !NoSmallDivisor(n) {
      var d := if n % 2 == 0 && n != 2 then 2 else if n % 3 == 0 && n != 3 then 3 else if n % 5 == 0 && n != 5 then 5
               else if n % 7 == 0 && n != 7 then 7 else if n % 11 == 0 && n != 11 then 11
               else if n % 13 == 0 && n != 13 then 13 else 17;
      HasDivisor(n, d);
    }
    if NoSmallDivisor(n) {
      forall d: nat, e: nat | d * e == n && d > 1 ensures e <= 1 {
        if e > 1 { NoFactors(d, e); }
      }
    }
  }

  lemma NoFactors(d: nat, e: nat)
    requires d > 1 && e > 1 && d * e < 361
    ensures !NoSmallDivisor(d * e)
  {
    if d >= 19 && e >= 19 { LargeFactors(d, e); }
    if d < 19 { SmallFactor(d, e); } else { SmallFactor(e, d); }
  }

  lemma MultipleOf(r: nat, d: nat, e: nat)
    requires r > 0 && d > 0 && e > 1 && d % r == 0
    ensures (d * e) % r == 0 && d * e > r
  {
    var m := d / r;
    assert d == m * r && m > 0;
    assert d * e == (m * e) * r;
    QuotientIs(d * e, r, m * e, 0);
    Grows(d, e);
    AtLeast(m, r);
  }

  lemma Grows(d: nat, e: nat)
    requires d > 0 && e > 1
    ensures d * e > d
  {
  }

  lemma AtLeast(m: nat, r: nat)
    requires m > 0
    ensures m * r >= r
  {
  }

  lemma SmallFactor(d: nat, e: nat)
    requires 1 < d < 19 && e > 1
    ensures !NoSmallDivisor(d * e)
  {
    hide NoSmallDivisor;
    var r := if d % 2 == 0 then 2 else if d % 3 == 0 then 3 else d;
    MultipleOf(r, d, e);
    NotSmall(d * e, r);
  }

  lemma NotSmall(n: nat, r: nat)
    requires r in {2, 3, 5, 7, 11, 13, 17} && n > r && n % r == 0
    ensures !NoSmallDivisor(n)
  {
  }

  /** `q` is the next number after `p` without a small divisor. */
  predicate Follows(p: nat, q: nat)
    decreases q - p
  {
    p < q && if p + 1 == q then NoSmallDivisor(q) else !NoSmallDivisor(p + 1) && Follows(p + 1, q)
  }

  lemma {:induction false} FollowsIs(p: nat, q: nat, n: nat)
    requires Follows(p, q)
    ensures p < q && NoSmallDivisor(q) && (p < n < q ==> !NoSmallDivisor(n))
    decreases q - p
  {
    hide NoSmallDivisor;
    if p + 1 < q { FollowsIs(p + 1, q, n); }
  }

  lemma NextPrime(t: nat, p: nat, q: nat)
    requires IsNthPrime(t, p) && Follows(p, q) && q < 361
    ensures IsNthPrime(t + 1, q)
  {
    hide NoSmallDivisor, IsPrime, Follows;
    FollowsIs(p, q, p);
    SmallPrimes(q);
    forall n: nat | p < n < q ensures !IsPrime(n) {
      FollowsIs(p, q, n);
      SmallPrimes(n);
    }
    assert ComesAfter(t, q);
  }

  lemma FirstPrime()
    ensures IsNthPrime(0, 2)
  {
    SmallPrimes(2);
  }

  lemma Primes0(t: nat)
    requires t == 0
    ensures IsNthPrime(t, 2)
    ensures IsNthPrime(t + 1, 3) && IsNthPrime(t + 2, 5) && IsNthPrime(t + 3, 7) && IsNthPrime(t + 4, 11)
    ensures IsNthPrime(t + 5, 13) && IsNthPrime(t + 6, 17) && IsNthPrime(t + 7, 19) && IsNthPrime(t + 8, 23)
  {
    hide IsNthPrime, Follows;
    FirstPrime();
    Gaps0();
    NextPrime(t, 2, 3);
    NextPrime(t + 1, 3, 5);
    NextPrime(t + 2, 5, 7);
    NextPrime(t + 3, 7, 11);
    NextPrime(t + 4, 11, 13);
    NextPrime(t + 5, 13, 17);
    NextPrime(t + 6, 17, 19);
    NextPrime(t + 7, 19, 23);
  }

  lemma Gaps0()
    ensures Follows(2, 3) && Follows(3, 5) && Follows(5, 7) && Follows(7, 11)
    ensures Follows(11, 13) && Follows(13, 17) && Follows(17, 19) && Follows(19, 23)
  {
  }

  lemma Primes1(t: nat)
    requires t == 8
    ensures IsNthPrime(t + 1, 29) && IsNthPrime(t + 2, 31) && IsNthPrime(t + 3, 37) && IsNthPrime(t + 4, 41)
    ensures IsNthPrime(t + 5, 43) && IsNthPrime(t + 6, 47) && IsNthPrime(t + 7, 53) && IsNthPrime(t + 8, 59)
  {
    hide IsNthPrime, Follows;
    Primes0(t - 8);
    Gaps1();
    NextPrime(t, 23, 29);
    NextPrime(t + 1, 29, 31);
    NextPrime(t + 2, 31, 37);
    NextPrime(t + 3, 37, 41);
    NextPrime(t + 4, 41, 43);
    NextPrime(t + 5, 43, 47);
    NextPrime(t + 6, 47, 53);
    NextPrime(t + 7, 53, 59);
  }

  lemma Gaps1()
    ensures Follows(23, 29) && Follows(29, 31) && Follows(31, 37) && Follows(37, 41)
    ensures Follows(41, 43) && Follows(43, 47) && Follows(47, 53) && Follows(53, 59)
  {
  }

  lemma Primes2(t: nat)
    requires t == 16
    ensures IsNthPrime(t + 1, 61) && IsNthPrime(t + 2, 67) && IsNthPrime(t + 3, 71) && IsNthPrime(t + 4, 73)
    ensures IsNthPrime(t + 5, 79) && IsNthPrime(t + 6, 83) && IsNthPrime(t + 7, 89) && IsNthPrime(t + 8, 97)
  {
    hide IsNthPrime, Follows;
    Primes1(t - 8);
    Gaps2();
    NextPrime(t, 59, 61);
    NextPrime(t + 1, 61, 67);
    NextPrime(t + 2, 67, 71);
    NextPrime(t + 3, 71, 73);
    NextPrime(t + 4, 73, 79);
    NextPrime(t + 5, 79, 83);
    NextPrime(t + 6, 83, 89);
    NextPrime(t + 7, 89, 97);
  }

  lemma Gaps2()
    ensures Follows(59, 61) && Follows(61, 67) && Follows(67, 71) && Follows(71, 73)
    ensures Follows(73, 79) && Follows(79, 83) && Follows(83, 89) && Follows(89, 97)
  {
  }

  lemma Primes3(t: nat)
    requires t == 24
    ensures IsNthPrime(t + 1, 101) && IsNthPrime(t + 2, 103) && IsNthPrime(t + 3, 107) && IsNthPrime(t + 4, 109)
    ensures IsNthPrime(t + 5, 113) && IsNthPrime(t + 6, 127) && IsNthPrime(t + 7, 131) && IsNthPrime(t + 8, 137)
  {
    hide IsNthPrime, Follows;
    Primes2(t - 8);
    Gaps3();
    NextPrime(t, 97, 101);
    NextPrime(t + 1, 101, 103);
    NextPrime(t + 2, 103, 107);
    NextPrime(t + 3, 107, 109);
    NextPrime(t + 4, 109, 113);
    NextPrime(t + 5, 113, 127);
    NextPrime(t + 6, 127, 131);
    NextPrime(t + 7, 131, 137);
  }

  lemma Gaps3()
    ensures Follows(97, 101) && Follows(101, 103) && Follows(103, 107) && Follows(107, 109)
    ensures Follows(109, 113) && Follows(113, 127) && Follows(127, 131) && Follows(131, 137)
  {
  }

  lemma Primes4(t: nat)
    requires t == 32
    ensures IsNthPrime(t + 1, 139) && IsNthPrime(t + 2, 149) && IsNthPrime(t + 3, 151) && IsNthPrime(t + 4, 157)
    ensures IsNthPrime(t + 5, 163) && IsNthPrime(t + 6, 167) && IsNthPrime(t + 7, 173) && IsNthPrime(t + 8, 179)
  {
    hide IsNthPrime, Follows;
    Primes3(t - 8);
    Gaps4();
    NextPrime(t, 137, 139);
    NextPrime(t + 1, 139, 149);
    NextPrime(t + 2, 149, 151);
    NextPrime(t + 3, 151, 157);
    NextPrime(t + 4, 157, 163);
    NextPrime(t + 5, 163, 167);
    NextPrime(t + 6, 167, 173);
    NextPrime(t + 7, 173, 179);
  }

  lemma Gaps4()
    ensures Follows(137, 139) && Follows(139, 149) && Follows(149, 151) && Follows(151, 157)
    ensures Follows(157, 163) && Follows(163, 167) && Follows(167, 173) && Follows(173, 179)
  {
  }

  lemma Primes5(t: nat)
    requires t == 40
    ensures IsNthPrime(t + 1, 181) && IsNthPrime(t + 2, 191) && IsNthPrime(t + 3, 193) && IsNthPrime(t + 4, 197)
    ensures IsNthPrime(t + 5, 199) && IsNthPrime(t + 6, 211) && IsNthPrime(t + 7, 223) && IsNthPrime(t + 8, 227)
  {
    hide IsNthPrime, Follows;
    Primes4(t - 8);
    Gaps5();
    NextPrime(t, 179, 181);
    NextPrime(t + 1, 181, 191);
    NextPrime(t + 2, 191, 193);
    NextPrime(t + 3, 193, 197);
    NextPrime(t + 4, 197, 199);
    NextPrime(t + 5, 199, 211);
    NextPrime(t + 6, 211, 223);
    NextPrime(t + 7, 223, 227);
  }

  lemma Gaps5()
    ensures Follows(179, 181) && Follows(181, 191) && Follows(191, 193) && Follows(193, 197)
    ensures Follows(197, 199) && Follows(199, 211) && Follows(211, 223) && Follows(223, 227)
  {
  }

  lemma Primes6(t: nat)
    requires t == 48
    ensures IsNthPrime(t + 1, 229) && IsNthPrime(t + 2, 233) && IsNthPrime(t + 3, 239) && IsNthPrime(t + 4, 241)
    ensures IsNthPrime(t + 5, 251) && IsNthPrime(t + 6, 257) && IsNthPrime(t + 7, 263) && IsNthPrime(t + 8, 269)
  {
    hide IsNthPrime, Follows;
    Primes5(t - 8);
    Gaps6();
    NextPrime(t, 227, 229);
    NextPrime(t + 1, 229, 233);
    NextPrime(t + 2, 233, 239);
    NextPrime(t + 3, 239, 241);
    NextPrime(t + 4, 241, 251);
    NextPrime(t + 5, 251, 257);
    NextPrime(t + 6, 257, 263);
    NextPrime(t + 7, 263, 269);
  }

  lemma Gaps6()
    ensures Follows(227, 229) && Follows(229, 233) && Follows(233, 239) && Follows(239, 241)
    ensures Follows(241, 251) && Follows(251, 257) && Follows(257, 263) && Follows(263, 269)
  {
  }

  lemma Primes7(t: nat)
    requires t == 56
    ensures IsNthPrime(t + 1, 271) && IsNthPrime(t + 2, 277) && IsNthPrime(t + 3, 281) && IsNthPrime(t + 4, 283)
    ensures IsNthPrime(t + 5, 293) && IsNthPrime(t + 6, 307) && IsNthPrime(t + 7, 311)
  {
    hide IsNthPrime, Follows;
    Primes6(t - 8);
    Gaps7();
    NextPrime(t, 269, 271);
    NextPrime(t + 1, 271, 277);
    NextPrime(t + 2, 277, 281);
    NextPrime(t + 3, 281, 283);
    NextPrime(t + 4, 283, 293);
    NextPrime(t + 5, 293, 307);
    NextPrime(t + 6, 307, 311);
  }

  lemma Gaps7()
    ensures Follows(269, 271) && Follows(271, 277) && Follows(277, 281) && Follows(281, 283)
    ensures Follows(283, 293) && Follows(293, 307) && Follows(307, 311)
  {
  }

  // ------------------------------------------------------------------------
  // Cube and square roots
  // ------------------------------------------------------------------------

  function Cube(x: nat): nat {
    ProductIsNat(x, x);
    ProductIsNat(x * x, x);
    x * x * x
  }

  function Square(x: nat): nat {
    ProductIsNat(x, x);
    x * x
  }

  /** `k` is the first 32 bits behind the point of the cube root of `p`, whose integer part is `a`. */
  predicate CubeRootBits(p: nat, a: nat, k: nat) {
    k < 0x1_0000_0000
    && Cube(a * 0x1_0000_0000 + k) <= p * 0x1_0000_0000_0000_0000_0000_0000 < Cube(a * 0x1_0000_0000 + k + 1)
  }

  /** The same for the square root. */
  predicate SquareRootBits(p: nat, a: nat, k: nat) {
    k < 0x1_0000_0000
    && Square(a * 0x1_0000_0000 + k) <= p * 0x1_0000_0000_0000_0000 < Square(a * 0x1_0000_0000 + k + 1)
  }

  lemma CubeRoots0()
    ensures CubeRootBits(2, 1, 0x428a2f98)
    ensures CubeRootBits(3, 1, 0x71374491)
    ensures CubeRootBits(5, 1, 0xb5c0fbcf)
    ensures CubeRootBits(7, 1, 0xe9b5dba5)
    ensures CubeRootBits(11, 2, 0x3956c25b)
    ensures CubeRootBits(13, 2, 0x59f111f1)
    ensures CubeRootBits(17, 2, 0x923f82a4)
    ensures CubeRootBits(19, 2, 0xab1c5ed5)
  {
  }

  lemma CubeRoots1()
    ensures CubeRootBits(23, 2, 0xd807aa98)
    ensures CubeRootBits(29, 3, 0x12835b01)
    ensures CubeRootBits(31, 3, 0x243185be)
    ensures CubeRootBits(37, 3, 0x550c7dc3)
    ensures CubeRootBits(41, 3, 0x72be5d74)
    ensures CubeRootBits(43, 3, 0x80deb1fe)
    ensures CubeRootBits(47, 3, 0x9bdc06a7)
    ensures CubeRootBits(53, 3, 0xc19bf174)
  {
  }

  lemma CubeRoots2()
    ensures CubeRootBits(59, 3, 0xe49b69c1)
    ensures CubeRootBits(61, 3, 0xefbe4786)
    ensures CubeRootBits(67, 4, 0x0fc19dc6)
    ensures CubeRootBits(71, 4, 0x240ca1cc)
    ensures CubeRootBits(73, 4, 0x2de92c6f)
    ensures CubeRootBits(79, 4, 0x4a7484aa)
    ensures CubeRootBits(83, 4, 0x5cb0a9dc)
    ensures CubeRootBits(89, 4, 0x76f988da)
  {
  }

  lemma CubeRoots3()
    ensures CubeRootBits(97, 4, 0x983e5152)
    ensures CubeRootBits(101, 4, 0xa831c66d)
    ensures CubeRootBits(103, 4, 0xb00327c8)
    ensures CubeRootBits(107, 4, 0xbf597fc7)
    ensures CubeRootBits(109, 4, 0xc6e00bf3)
    ensures CubeRootBits(113, 4, 0xd5a79147)
    ensures CubeRootBits(127, 5, 0x06ca6351)
    ensures CubeRootBits(131, 5, 0x14292967)
  {
  }

  lemma CubeRoots4()
    ensures CubeRootBits(137, 5, 0x27b70a85)
    ensures CubeRootBits(139, 5, 0x2e1b2138)
    ensures CubeRootBits(149, 5, 0x4d2c6dfc)
    ensures CubeRootBits(151, 5, 0x53380d13)
    ensures CubeRootBits(157, 5, 0x650a7354)
    ensures CubeRootBits(163, 5, 0x766a0abb)
    ensures CubeRootBits(167, 5, 0x81c2c92e)
    ensures CubeRootBits(173, 5, 0x92722c85)
  {
  }

  lemma CubeRoots5()
    ensures CubeRootBits(179, 5, 0xa2bfe8a1)
    ensures CubeRootBits(181, 5, 0xa81a664b)
    ensures CubeRootBits(191, 5, 0xc24b8b70)
    ensures CubeRootBits(193, 5, 0xc76c51a3)
    ensures CubeRootBits(197, 5, 0xd192e819)
    ensures CubeRootBits(199, 5, 0xd6990624)
    ensures CubeRootBits(211, 5, 0xf40e3585)
    ensures CubeRootBits(223, 6, 0x106aa070)
  {
  }

  lemma CubeRoots6()
    ensures CubeRootBits(227, 6, 0x19a4c116)
    ensures CubeRootBits(229, 6, 0x1e376c08)
    ensures CubeRootBits(233, 6, 0x2748774c)
    ensures CubeRootBits(239, 6, 0x34b0bcb5)
    ensures CubeRootBits(241, 6, 0x391c0cb3)
    ensures CubeRootBits(251, 6, 0x4ed8aa4a)
    ensures CubeRootBits(257, 6, 0x5b9cca4f)
    ensures CubeRootBits(263, 6, 0x682e6ff3)
  {
  }

  lemma CubeRoots7()
    ensures CubeRootBits(269, 6, 0x748f82ee)
    ensures CubeRootBits(271, 6, 0x78a5636f)
    ensures CubeRootBits(277, 6, 0x84c87814)
    ensures CubeRootBits(281, 6, 0x8cc70208)
    ensures CubeRootBits(283, 6, 0x90befffa)
    ensures CubeRootBits(293, 6, 0xa4506ceb)
    ensures CubeRootBits(307, 6, 0xbef9a3f7)
    ensures CubeRootBits(311, 6, 0xc67178f2)
  {
  }

  lemma SquareRoots()
    ensures SquareRootBits(2, 1, 0x6A09E667)
    ensures SquareRootBits(3, 1, 0xBB67AE85)
    ensures SquareRootBits(5, 2, 0x3C6EF372)
    ensures SquareRootBits(7, 2, 0xA54FF53A)
    ensures SquareRootBits(11, 3, 0x510E527F)
    ensures SquareRootBits(13, 3, 0x9B05688C)
    ensures SquareRootBits(17, 4, 0x1F83D9AB)
    ensures SquareRootBits(19, 4, 0x5BE0CD19)
  {
  }

  lemma Constants0()
    ensures var k := Sha256.K();
      && k[0] == 0x428a2f98 && k[1] == 0x71374491 && k[2] == 0xb5c0fbcf && k[3] == 0xe9b5dba5
      && k[4] == 0x3956c25b && k[5] == 0x59f111f1 && k[6] == 0x923f82a4 && k[7] == 0xab1c5ed5
  {
  }

  lemma Constants1()
    ensures var k := Sha256.K();
      && k[8] == 0xd807aa98 && k[9] == 0x12835b01 && k[10] == 0x243185be && k[11] == 0x550c7dc3
      && k[12] == 0x72be5d74 && k[13] == 0x80deb1fe && k[14] == 0x9bdc06a7 && k[15] == 0xc19bf174
  {
  }

  lemma Constants2()
    ensures var k := Sha256.K();
      && k[16] == 0xe49b69c1 && k[17] == 0xefbe4786 && k[18] == 0x0fc19dc6 && k[19] == 0x240ca1cc
      && k[20] == 0x2de92c6f && k[21] == 0x4a7484aa && k[22] == 0x5cb0a9dc && k[23] == 0x76f988da
  {
  }

  lemma Constants3()
    ensures var k := Sha256.K();
      && k[24] == 0x983e5152 && k[25] == 0xa831c66d && k[26] == 0xb00327c8 && k[27] == 0xbf597fc7
      && k[28] == 0xc6e00bf3 && k[29] == 0xd5a79147 && k[30] == 0x06ca6351 && k[31] == 0x14292967
  {
  }

  lemma Constants4()
    ensures var k := Sha256.K();
      && k[32] == 0x27b70a85 && k[33] == 0x2e1b2138 && k[34] == 0x4d2c6dfc && k[35] == 0x53380d13
      && k[36] == 0x650a7354 && k[37] == 0x766a0abb && k[38] == 0x81c2c92e && k[39] == 0x92722c85
  {
  }

  lemma Constants5()
    ensures var k := Sha256.K();
      && k[40] == 0xa2bfe8a1 && k[41] == 0xa81a664b && k[42] == 0xc24b8b70 && k[43] == 0xc76c51a3
      && k[44] == 0xd192e819 && k[45] == 0xd6990624 && k[46] == 0xf40e3585 && k[47] == 0x106aa070
  {
  }

  lemma Constants6()
    ensures var k := Sha256.K();
      && k[48] == 0x19a4c116 && k[49] == 0x1e376c08 && k[50] == 0x2748774c && k[51] == 0x34b0bcb5
      && k[52] == 0x391c0cb3 && k[53] == 0x4ed8aa4a && k[54] == 0x5b9cca4f && k[55] == 0x682e6ff3
  {
  }

  lemma Constants7()
    ensures var k := Sha256.K();
      && k[56] == 0x748f82ee && k[57] == 0x78a5636f && k[58] == 0x84c87814 && k[59] == 0x8cc70208
      && k[60] == 0x90befffa && k[61] == 0xa4506ceb && k[62] == 0xbef9a3f7 && k[63] == 0xc67178f2
  {
  }

  lemma Row0(t: nat) returns (p: nat, a: nat)
    requires 0 <= t < 8
    ensures IsNthPrime(t, p) && CubeRootBits(p, a, Sha256.K()[t])
  {
    hide IsNthPrime, CubeRootBits, Sha256.K;
    Primes0(0);
    CubeRoots0();
    Constants0();
    p := [2, 3, 5, 7, 11, 13, 17, 19][t];
    a := if p < 11 then 1 else 2;
  }

  lemma Row1(t: nat) returns (p: nat, a: nat)
    requires 8 <= t < 16
    ensures IsNthPrime(t, p) && CubeRootBits(p, a, Sha256.K()[t])
  {
    hide IsNthPrime, CubeRootBits, Sha256.K;
    Primes0(0);
    Primes1(8);
    CubeRoots1();
    Constants1();
    p := [23, 29, 31, 37, 41, 43, 47, 53][t - 8];
    a := if p < 29 then 2 else 3;
  }

  lemma Row2(t: nat) returns (p: nat, a: nat)
    requires 16 <= t < 24
    ensures IsNthPrime(t, p) && CubeRootBits(p, a, Sha256.K()[t])
  {
    hide IsNthPrime, CubeRootBits, Sha256.K;
    Primes1(8);
    Primes2(16);
    CubeRoots2();
    Constants2();
    p := [59, 61, 67, 71, 73, 79, 83, 89][t - 16];
    a := if p < 67 then 3 else 4;
  }

  lemma Row3(t: nat) returns (p: nat, a: nat)
    requires 24 <= t < 32
    ensures IsNthPrime(t, p) && CubeRootBits(p, a, Sha256.K()[t])
  {
    hide IsNthPrime, CubeRootBits, Sha256.K;
    Primes2(16);
    Primes3(24);
    CubeRoots3();
    Constants3();
    p := [97, 101, 103, 107, 109, 113, 127, 131][t - 24];
    a := if p < 127 then 4 else 5;
  }

  lemma Row4(t: nat) returns (p: nat, a: nat)
    requires 32 <= t < 40
    ensures IsNthPrime(t, p) && CubeRootBits(p, a, Sha256.K()[t])
  {
    hide IsNthPrime, CubeRootBits, Sha256.K;
    Primes3(24);
    Primes4(32);
    CubeRoots4();
    Constants4();
    p := [137, 139, 149, 151, 157, 163, 167, 173][t - 32];
    a := 5;
  }

  lemma Row5(t: nat) returns (p: nat, a: nat)
    requires 40 <= t < 48
    ensures IsNthPrime(t, p) && CubeRootBits(p, a, Sha256.K()[t])
  {
    hide IsNthPrime, CubeRootBits, Sha256.K;
    Primes4(32);
    Primes5(40);
    CubeRoots5();
    Constants5();
    p := [179, 181, 191, 193, 197, 199, 211, 223][t - 40];
    a := if p < 223 then 5 else 6;
  }

  lemma Row6(t: nat) returns (p: nat, a: nat)
    requires 48 <= t < 56
    ensures IsNthPrime(t, p) && CubeRootBits(p, a, Sha256.K()[t])
  {
    hide IsNthPrime, CubeRootBits, Sha256.K;
    Primes5(40);
    Primes6(48);
    CubeRoots6();
    Constants6();
    p := [227, 229, 233, 239, 241, 251, 257, 263][t - 48];
    a := 6;
  }

  lemma Row7(t: nat) returns (p: nat, a: nat)
    requires 56 <= t < 64
    ensures IsNthPrime(t, p) && CubeRootBits(p, a, Sha256.K()[t])
  {
    hide IsNthPrime, CubeRootBits, Sha256.K;
    Primes6(48);
    Primes7(56);
    CubeRoots7();
    Constants7();
    p := [269, 271, 277, 281, 283, 293, 307, 311][t - 56];
    a := 6;
  }

  /** Each round constant is 32 bits of the cube root of its prime. */
  lemma RoundConstantIs(t: nat) returns (p: nat, a: nat)
    requires t < 64
    ensures IsNthPrime(t, p) && CubeRootBits(p, a, Sha256.K()[t])
  {
    hide IsNthPrime, CubeRootBits, Sha256.K;
    if t < 8 {
      p, a := Row0(t);
    } else if t < 16 {
      p, a := Row1(t);
    } else if t < 24 {
      p, a := Row2(t);
    } else if t < 32 {
      p, a := Row3(t);
    } else if t < 40 {
      p, a := Row4(t);
    } else if t < 48 {
      p, a := Row5(t);
    } else if t < 56 {
      p, a := Row6(t);
    } else {
      p, a := Row7(t);
    }
  }

  /** Each word of the initial state is 32 bits of the square root of its prime. */
  lemma InitialWordIs(t: nat) returns (p: nat, a: nat)
    requires t < 8
    ensures IsNthPrime(t, p) && SquareRootBits(p, a, Sha256Padding.StateWords(Sha256Padding.IV)[t])
  {
    hide IsNthPrime, SquareRootBits;
    Primes0(0);
    SquareRoots();
    p, a := [2, 3, 5, 7, 11, 13, 17, 19][t], [1, 1, 2, 2, 3, 3, 4, 4][t];
  }

  /** There is only one prime with `t` primes below it. */
  lemma {:induction false} NthPrimeIsUnique(t: nat, p: nat, q: nat)
    requires IsNthPrime(t, p) && IsNthPrime(t, q)
    ensures p == q
  {
    hide IsPrime;
    if t > 0 {
      var a: nat :| IsNthPrime(t - 1, a) && a < p && forall n: nat :: a < n < p ==> !IsPrime(n);
      var b: nat :| IsNthPrime(t - 1, b) && b < q && forall n: nat :: b < n < q ==> !IsPrime(n);
      NthPrimeIsUnique(t - 1, a, b);
    }
  }
}
