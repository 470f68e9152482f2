/**
  The sizes and generators that the FRI verifier works with: the number of layers, and the roots of unity
  of the STARK field.
*/
module FriDomain {
  import opened Arithmetic
  import opened StarkPrime
  import opened Field
  import opened FriParser
  import opened FriFolding
  import opened FriCompleteness

  const TWO_ADICITY: nat := 192
  const MULTIPLICATIVE_GENERATOR: nat := 3

  /**
    The number of layers for a domain whose size is a power of two. The division is the field's: a size
    below the folding factor has a quotient beyond every bound, and the count ends there.
  */
  function NumFriLayers(domainSize: nat, maxRemainderSize: nat): nat {
    if domainSize < maxRemainderSize + 1 then 0
    else if domainSize < FOLDING_FACTOR then 1
    else 1 + NumFriLayers(domainSize / FOLDING_FACTOR, maxRemainderSize)
  }

  lemma PowerDivides(k: nat)
    ensures k >= 3 ==> Pow2(k) == FOLDING_FACTOR * Pow2(k - 3)
    ensures k < 3 ==> 0 < Pow2(k) <= 4
    ensures Pow2(k) % FOLDING_FACTOR == 0 <==> k >= 3
  {
    hide Pow2, Pow;
    SmallPowers();
    if k >= 3 {
      EightTimes(k);
      QuotientIs(Pow2(k), FOLDING_FACTOR, Pow2(k - 3), 0);
    } else {
      QuotientIs(Pow2(k), FOLDING_FACTOR, 0, Pow2(k));
    }
  }

  lemma SmallPowers()
    ensures Pow2(0) == 1 && Pow2(1) == 2 && Pow2(2) == 4
  {
  }

  lemma EightTimes(k: nat)
    requires k >= 3
    ensures Pow2(k) == FOLDING_FACTOR * Pow2(k - 3)
  {
    assert Pow2(k) == 2 * Pow2(k - 1) == 4 * Pow2(k - 2) == 8 * Pow2(k - 3);
  }

  /** All sizes that `n` foldings divide are divisible by the folding factor. */
  predicate Divisible(size: nat, n: nat) {
    n == 0 || (size % FOLDING_FACTOR == 0 && Divisible(size / FOLDING_FACTOR, n - 1))
  }

  /** A size divides `n` times exactly if the n-th power of the folding factor divides it. */
  lemma {:induction false} DivisibleIs(size: nat, n: nat)
    ensures Pow(8, n) > 0 && (Divisible(size, n) <==> size % Pow(8, n) == 0)
  {
    if n > 0 {
      DivisibleIs(size / 8, n - 1);
      EightDivides(size, Pow(8, n - 1));
    }
  }

  lemma EightDivides(size: nat, d: nat)
    requires d > 0
    ensures size % (8 * d) == 0 <==> size % 8 == 0 && size / 8 % d == 0
  {
    var q := size / 8;
    if size % 8 == 0 && q % d == 0 {
      var k := q / d;
      assert q == k * d && size == 8 * q;
      assert 8 * (k * d) == k * (8 * d);
      QuotientIs(size, 8 * d, k, 0);
    }
    if size % (8 * d) == 0 {
      var k := size / (8 * d);
      assert size == k * (8 * d);
      assert k * (8 * d) == (k * d) * 8;
      QuotientIs(size, 8, k * d, 0);
      QuotientIs(q, d, k, 0);
    }
  }

  lemma {:induction false} LayersReachRemainder(k: nat, maxRemainderSize: nat)
    requires maxRemainderSize >= 4
    ensures var n := NumFriLayers(Pow2(k), maxRemainderSize);
      && LastModulus(Pow2(k), n) <= maxRemainderSize
      && Divisible(Pow2(k), n) && Moduli(Pow2(k) / FOLDING_FACTOR, n)
      && forall l :: 0 <= l < n ==> LastModulus(Pow2(k), l) > maxRemainderSize
  {
    PowerDivides(k);
    if Pow2(k) > maxRemainderSize {
      var m, n := Pow2(k - 3), NumFriLayers(Pow2(k), maxRemainderSize);
      LayersReachRemainder(k - 3, maxRemainderSize);
      PowerDivides(k - 3);
      forall l | 0 <= l < n ensures LastModulus(Pow2(k), l) > maxRemainderSize {
        if l > 0 { assert LastModulus(Pow2(k), l) == LastModulus(m, l - 1); }
      }
    }
  }

  /** Every layer count divides its domain exactly if and only if remainders of size four are allowed. */
  lemma LayersDivideExactly(maxRemainderSize: nat)
    ensures (forall k {:trigger Pow2(k)} :: Divisible(Pow2(k), NumFriLayers(Pow2(k), maxRemainderSize)))
            <==> maxRemainderSize >= 4
  {
    if maxRemainderSize >= 4 {
      forall k: nat ensures Divisible(Pow2(k), NumFriLayers(Pow2(k), maxRemainderSize)) {
        LayersReachRemainder(k, maxRemainderSize);
      }
    } else {
      PowerDivides(2);
      assert Pow2(2) == 2 * Pow2(1) == 4;
      assert NumFriLayers(Pow2(2), maxRemainderSize) == 1;
      assert !Divisible(Pow2(2), 1);
    }
  }

  // ------------------------------------------------------------------------
  // Roots of unity
  // ------------------------------------------------------------------------

  function GetRootOfUnity(n: nat): int
    requires 0 < n <= TWO_ADICITY
  {
    Pow(TWO_ADIC_ROOT_OF_UNITY, Pow2(TWO_ADICITY - n)) % P
  }

  /** The root of unity for `n` has order 2^n: its power to half of that is -1. */
  lemma RootOfUnityOrder(n: nat)
    requires 0 < n <= TWO_ADICITY
    ensures Zero(Pow(GetRootOfUnity(n), Pow2(n - 1)) + 1, P)
  {
    hide Pow, Pow2;
    var w := TWO_ADIC_ROOT_OF_UNITY;
    RootReachesMinusOne(w);
    HalfOrder(w, n, P);
  }

  lemma HalfOrder(w: int, n: nat, p: nat)
    requires 0 < n <= TWO_ADICITY && p > 0 && Residue(w, Pow2(191), p, p - 1)
    ensures Zero(Pow(Pow(w, Pow2(TWO_ADICITY - n)) % p, Pow2(n - 1)) + 1, p)
  {
    hide Pow, Zero, Pow2;
    var e, h := Pow2(TWO_ADICITY - n), Pow2(n - 1);
    PowAdd(2, TWO_ADICITY - n, n - 1);
    assert Pow2(191) == e * h;
    PowMul(w, e, h);
    RemainderTwice(Pow(w, e), p);
    PowMod(Pow(w, e) % p, Pow(w, e), h, p);
    MinusOne(p);
    SameResidue(Pow(Pow(w, e) % p, h), -1, p);
  }

  lemma RemainderTwice(x: int, p: nat)
    requires p > 0
    ensures (x % p) % p == x % p
  {
    QuotientIs(x % p, p, 0, x % p);
  }

  lemma MinusOne(p: nat)
    requires p > 0
    ensures -1 % p == p - 1
  {
    QuotientIs(-1, p, -1, p - 1);
  }

  /** The distinct powers of a root of unity: a FRI domain has as many points as its size says. */
  lemma DomainIsDistinct(n: nat, i: nat, j: nat)
    requires 0 < n <= TWO_ADICITY && i < j < Pow2(n)
    ensures !Zero(Pow(GetRootOfUnity(n), i) - Pow(GetRootOfUnity(n), j), P)
  {
    hide Pow, Pow2, GetRootOfUnity;
    var w := GetRootOfUnity(n);
    RootOfUnityOrder(n);
    PowersAreDistinct(w, n - 1, i, j, P);
  }

  lemma PowersAreDistinct(w: int, a: nat, i: nat, j: nat, p: nat)
    requires p > 2 && Zero(Pow(w, Pow2(a)) + 1, p) && i < j < Pow2(a + 1)
    ensures !Zero(Pow(w, i) - Pow(w, j), p)
  {
    SameResidue(Pow(w, Pow2(a)), -1, p);
    PowersDiffer(w, a, p, i, j);
    SameResidue(Pow(w, i), Pow(w, j), p);
  }

  /** In the field and over the domains of the verifier, every foldable polynomial makes a valid prover. */
  lemma StarkProverIsValid(polynomial: seq<int>, n: nat, alphas: seq<int>)
    requires 3 <= n <= TWO_ADICITY
    requires Prover(polynomial, GetRootOfUnity(n), MULTIPLICATIVE_GENERATOR, alphas).Foldable()
    ensures Prover(polynomial, GetRootOfUnity(n), MULTIPLICATIVE_GENERATOR, alphas)
              .Valid(Pow(GetRootOfUnity(n), Pow2(n) / FOLDING_FACTOR), P)
  {
    hide Pow, Pow2, GetRootOfUnity;
    var w := GetRootOfUnity(n);
    StarkModulusIsPrime();
    RootOfUnityOrder(n);
    QuotientIs(3, P, 0, 3);
    EighthOfOrder(w, n, P);
  }

  lemma EighthOfOrder(w: int, n: nat, p: nat)
    requires n >= 3 && IsPrime(p) && Zero(Pow(w, Pow2(n - 1)) + 1, p)
    ensures EighthRoot(Pow(w, Pow2(n) / FOLDING_FACTOR), p) && !Zero(w, p)
  {
    var m := Pow2(n - 3);
    PowerDivides(n);
    assert Pow2(n - 1) == 2 * Pow2(n - 2) == m * 4;
    PowMul(w, m, 4);
    if Zero(w, p) {
      ZeroMultiple(w, Pow(w, Pow2(n - 1) - 1), p);
      ZeroSum(Pow(w, Pow2(n - 1)) + 1, Pow(w, Pow2(n - 1)), p);
      OneIsNotZero(p);
    }
  }
}
