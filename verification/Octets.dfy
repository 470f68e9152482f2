/** Powers of 256, and products and quotients in order. */
module Octets {
  import opened Arithmetic

  /** 256^k */
  function Bytes(k: nat): (r: nat)
    ensures r > 0
  {
    Pow2(8 * k)
  }

  lemma BytesPositive(k: nat)
    ensures Bytes(k) > 0
  {
  }

  lemma Powers()
    ensures Bytes(0) == 1 && Bytes(1) == 0x100 && Bytes(2) == 0x1_0000 && Bytes(3) == 0x100_0000
    ensures Bytes(4) == 0x1_0000_0000
  {
    PowAdd(2, 8, 8);
    PowAdd(2, 16, 8);
    PowAdd(2, 16, 16);
    assert Pow2(8) == 256 by { Eight(); }
  }

  lemma Eight()
    ensures Pow2(8) == 256
  {
    assert Pow2(4) == 2 * Pow2(3) == 4 * Pow2(2) == 8 * Pow2(1) == 16 * Pow2(0);
    assert Pow2(8) == 2 * Pow2(7) == 4 * Pow2(6) == 8 * Pow2(5) == 16 * Pow2(4);
  }

  lemma BytesAdd(j: nat, k: nat)
    ensures Bytes(j + k) == Bytes(j) * Bytes(k)
  {
    PowAdd(2, 8 * j, 8 * k);
  }

  lemma {:induction false} BytesGrow(j: nat, k: nat)
    requires j < k
    ensures 256 * Bytes(j) <= Bytes(k)
  {
    hide Pow2;
    Powers();
    BytesAdd(1, k - 1);
    if j < k - 1 { BytesGrow(j, k - 1); }
  }

  lemma LessTimes(a: nat, b: nat, u: nat)
    requires a <= b
    ensures a * u <= b * u && (a + 1) * u == a * u + u
  {
  }

  lemma QuotientMonotone(t: nat, u: nat, m: nat)
    requires t <= u && m > 0
    ensures t / m <= u / m
  {
    var p, q := t / m, u / m;
    assert t == p * m + t % m && u == q * m + u % m;
    LessTimes(q, q, m);
    if q < p { LessTimes(q + 1, p, m); }
  }

  lemma QuotientTwice(t: nat, m: nat, k: nat)
    requires m > 0 && k > 0
    ensures (t / m) / k == t / (m * k)
  {
    var q, r := t / m, t % m;
    var p, s := q / k, q % k;
    assert t == q * m + r && q == p * k + s;
    assert (p * k + s) * m == p * (m * k) + s * m;
    LessTimes(s + 1, k, m);
    LessTimes(s, s, m);
    QuotientIs(t, m * k, p, s * m + r);
  }
}
