/**
  Arithmetic modulo a prime. Field elements are integers; two of them are the same element when their
  difference vanishes. Everything holds for any prime modulus, and StarkPrime proves that the modulus of
  the STARK field is one.
*/
module Field {
  import opened Arithmetic
  import opened StarkPrime

  /** `x` is the zero of the field. */
  ghost predicate Zero(x: int, p: nat)
    requires p > 0
  {
    x % p == 0
  }

  lemma ZeroIs(x: int, k: int, p: nat)
    requires p > 0 && x == k * p
    ensures Zero(x, p)
  {
    QuotientIs(x, p, k, 0);
  }

  lemma ZeroSum(x: int, y: int, p: nat)
    requires p > 0 && Zero(x, p) && Zero(y, p)
    ensures Zero(x + y, p) && Zero(x - y, p)
  {
    var j, k := x / p, y / p;
    assert x == j * p && y == k * p;
    assert (j + k) * p == x + y && (j - k) * p == x - y;
    ZeroIs(x + y, j + k, p);
    ZeroIs(x - y, j - k, p);
  }

  lemma ZeroMultiple(x: int, k: int, p: nat)
    requires p > 0 && Zero(x, p)
    ensures Zero(k * x, p) && Zero(x * k, p)
  {
    var j := x / p;
    assert x == j * p;
    assert k * x == k * (j * p) == (k * j) * p;
    ZeroIs(k * x, k * j, p);
  }

  lemma ZeroRemainder(x: int, p: nat)
    requires p > 0
    ensures Zero(x - x % p, p)
  {
    ZeroIs(x - x % p, x / p, p);
  }

  /** Two canonical elements whose difference vanishes are equal. */
  lemma Canonical(x: int, y: int, p: nat)
    requires 0 <= x < p && Zero(x - y, p)
    ensures x == y % p
    ensures 0 <= y < p ==> x == y
  {
    var k := (x - y) / p;
    assert x - y == k * p;
    assert y == (-k) * p + x;
    QuotientIs(y, p, -k, x);
    if 0 <= y < p { QuotientIs(y, p, 0, y); }
  }

  lemma SameResidue(x: int, y: int, p: nat)
    requires p > 0
    ensures Zero(x - y, p) <==> x % p == y % p
  {
    if Zero(x - y, p) {
      var k := (x - y) / p;
      assert x == y + k * p;
      ModShift(y, k, p);
    } else {
      var j, k := x / p, y / p;
      if x % p == y % p {
        assert x - y == (j - k) * p;
        ZeroIs(x - y, j - k, p);
      }
    }
  }

  lemma SmallProduct(q: int, a: nat)
    requires q <= 1
    ensures q * a <= a
  {
  }

  /** Every nonzero element has an inverse. */
  lemma {:induction false} InverseExists(a: nat, p: nat) returns (u: int)
    requires IsPrime(p) && 0 < a < p
    ensures Zero(a * u - 1, p)
    decreases a
  {
    if a == 1 {
      u := 1;
      ZeroIs(0, 0, p);
    } else {
      var q, r := p / a, p % a;
      assert p == q * a + r;
      if q <= 1 { SmallProduct(q, a); }
      if r == 0 { assert false; }
      var v := InverseExists(r, p);
      u := -q * v;
      Euclid(a, q, r, v, p);
      ZeroIs(v * p, v, p);
      ZeroSum(r * v - 1, v * p, p);
    }
  }

  lemma Euclid(a: int, q: int, r: int, v: int, p: int)
    requires p == q * a + r
    ensures a * (-q * v) - 1 == (r * v - 1) - v * p
  {
    assert a * (-q * v) == -(q * a) * v == -(p - r) * v == r * v - v * p;
  }

  ghost function Inverse(x: int, p: nat): (u: int)
    requires IsPrime(p) && !Zero(x, p)
    ensures Zero(x * u - 1, p)
  {
    InverseWitness(x, p);
    var u :| Zero(x * u - 1, p);
    u
  }

  ghost function Divide(a: int, b: int, p: nat): int
    requires IsPrime(p) && !Zero(b, p)
  {
    a * Inverse(b, p)
  }

  lemma InverseWitness(x: int, p: nat)
    requires IsPrime(p) && !Zero(x, p)
    ensures exists u :: Zero(x * u - 1, p)
  {
    var a := x % p;
    var u := InverseExists(a, p);
    ZeroRemainder(x, p);
    ZeroMultiple(x - a, u, p);
    ZeroSum((x - a) * u, a * u - 1, p);
    assert (x - a) * u + (a * u - 1) == x * u - 1;
  }

  lemma CancelInverse(x: int, y: int, u: int)
    ensures u * (x * y) - y * (x * u - 1) == y
  {
    assert u * (x * y) == y * (x * u);
  }

  /** There are no zero divisors. */
  lemma ZeroProduct(x: int, y: int, p: nat)
    requires IsPrime(p) && Zero(x * y, p)
    ensures Zero(x, p) || Zero(y, p)
  {
    if !Zero(x, p) {
      var u := Inverse(x, p);
      ZeroMultiple(x * y, u, p);
      ZeroMultiple(x * u - 1, y, p);
      CancelInverse(x, y, u);
      ZeroSum(u * (x * y), y * (x * u - 1), p);
    }
  }

  lemma OneIsNotZero(p: nat)
    requires p > 1
    ensures !Zero(1, p)
  {
    QuotientIs(1, p, 0, 1);
  }
}
