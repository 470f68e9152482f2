/** Integer facts that Dafny's solver needs spelled out: products, quotients and remainders. */
module Arithmetic {

  lemma ProductAtLeast(a: int, k: int)
    requires a >= 1 && k >= 0
    ensures a * k >= k
  {
  }

  lemma Ordered(m: nat, a: nat, b: nat)
    requires a <= b
    ensures m * a <= m * b
  {
  }

  lemma ProductIsNat(a: nat, b: nat)
    ensures a * b >= 0
  {
  }

  /** Quotient and remainder are determined by `n == q * k + r` with `0 <= r < k`. */
  lemma QuotientIs(n: int, k: int, q: int, r: int)
    requires 0 <= r < k && n == q * k + r
    ensures n / k == q && n % k == r
  {
    var p, s := n / k, n % k;
    assert n == p * k + s;
    assert (p - q) * k == r - s && (q - p) * k == s - r;
    if p > q {
      ProductAtLeast(p - q, k);
    } else if p < q {
      ProductAtLeast(q - p, k);
    }
  }

  lemma HalveFirst(n: nat, k: nat)
    requires k > 0
    ensures n / 2 / k == n / (2 * k)
  {
    var q, r := n / (2 * k), n % (2 * k);
    assert n == q * (2 * k) + r == 2 * (q * k) + r;
    QuotientIs(n / 2, k, q, r / 2);
  }

  lemma NextBit(n: nat, k: nat)
    requires k > 0
    ensures n % (2 * k) == n % k + (if n / k % 2 != 0 then k else 0)
  {
    var q, r := n / k, n % k;
    var h, b := q / 2, q % 2;
    assert n == q * k + r;
    assert q * k == (2 * h + b) * k == h * (2 * k) + b * k;
    assert b * k == if b != 0 then k else 0;
    QuotientIs(n, 2 * k, h, b * k + r);
  }

  // ------------------------------------------------------------------------
  // Remainders
  // ------------------------------------------------------------------------

  lemma ModShift(a: int, k: int, m: int)
    requires m > 0
    ensures (a + k * m) % m == a % m
  {
    QuotientIs(a + k * m, m, a / m + k, a % m);
  }

  lemma ModAdd(a: int, b: int, m: int)
    requires m > 0
    ensures (a + b) % m == (a % m + b % m) % m
  {
    var p, r, q, s := a / m, a % m, b / m, b % m;
    assert a == p * m + r && b == q * m + s;
    assert a + b == (r + s) + (p + q) * m;
    ModShift(r + s, p + q, m);
  }

  lemma ExpandProduct(p: int, r: int, q: int, s: int, m: int)
    ensures (p * m + r) * (q * m + s) == r * s + (p * q * m + p * s + r * q) * m
  {
  }

  lemma ModMul(a: int, b: int, m: int)
    requires m > 0
    ensures (a * b) % m == ((a % m) * (b % m)) % m
  {
    var p, r, q, s := a / m, a % m, b / m, b % m;
    assert a == p * m + r && b == q * m + s;
    ExpandProduct(p, r, q, s, m);
    ModShift(r * s, p * q * m + p * s + r * q, m);
  }

  function Pow(b: int, n: nat): int {
    if n == 0 then 1 else b * Pow(b, n - 1)
  }

  function Pow2(n: nat): (r: nat)
    ensures r == Pow(2, n) && r > 0
  {
    if n == 0 then 1 else 2 * Pow2(n - 1)
  }

  lemma {:induction false} PowAdd(b: int, m: nat, n: nat)
    ensures Pow(b, m + n) == Pow(b, m) * Pow(b, n)
  {
    if m > 0 {
      PowAdd(b, m - 1, n);
      assert b * (Pow(b, m - 1) * Pow(b, n)) == (b * Pow(b, m - 1)) * Pow(b, n);
    }
  }

  lemma {:induction false} PowMul(b: int, m: nat, n: nat)
    ensures Pow(b, m * n) == Pow(Pow(b, m), n)
  {
    if n > 0 {
      assert m * n == m + m * (n - 1);
      PowAdd(b, m, m * (n - 1));
      PowMul(b, m, n - 1);
    } else {
      assert m * n == 0;
    }
  }

  lemma {:induction false} PowMod(a: int, b: int, n: nat, m: int)
    requires m > 0 && a % m == b % m
    ensures Pow(a, n) % m == Pow(b, n) % m
  {
    if n > 0 {
      PowMod(a, b, n - 1, m);
      ModMul(a, Pow(a, n - 1), m);
      ModMul(b, Pow(b, n - 1), m);
    }
  }
}
