/** Bitwise operations on natural numbers, bit by bit, and how they act on numbers that are put side by side. */
module Bits {
  import opened Arithmetic

  function BitAnd(a: nat, b: nat): (r: nat)
    ensures a < 2 && b < 2 ==> r < 2
  {
    if a == 1 then b else 0
  }

  function BitXor(a: nat, b: nat): (r: nat)
    ensures r < 2
  {
    if a == b then 0 else 1
  }

  function And(x: nat, y: nat): nat {
    if x == 0 || y == 0 then 0 else BitAnd(x % 2, y % 2) + 2 * And(x / 2, y / 2)
  }

  function Xor(x: nat, y: nat): nat {
    if x == 0 then y else if y == 0 then x else BitXor(x % 2, y % 2) + 2 * Xor(x / 2, y / 2)
  }

  lemma Halved(a: nat, x: nat)
    requires a < 2
    ensures (a + 2 * x) % 2 == a && (a + 2 * x) / 2 == x
  {
  }

  lemma Zeros(x: nat)
    ensures And(x, 0) == And(0, x) == 0 && Xor(x, 0) == Xor(0, x) == x
  {
  }

  /** The operations on numbers given as a last bit and the rest. */
  lemma OnBits(a: nat, x: nat, b: nat, y: nat)
    requires a < 2 && b < 2
    ensures And(a + 2 * x, b + 2 * y) == BitAnd(a, b) + 2 * And(x, y)
    ensures Xor(a + 2 * x, b + 2 * y) == BitXor(a, b) + 2 * Xor(x, y)
  {
    var u, v := a + 2 * x, b + 2 * y;
    Halved(a, x);
    Halved(b, y);
    if u == 0 || v == 0 {
      hide And, Xor;
      Zeros(x);
      Zeros(y);
      Zeros(u);
      Zeros(v);
    } else {
      assert And(u, v) == BitAnd(u % 2, v % 2) + 2 * And(u / 2, v / 2);
      assert Xor(u, v) == BitXor(u % 2, v % 2) + 2 * Xor(u / 2, v / 2);
    }
  }

  lemma Split(x: nat) returns (a: nat, h: nat)
    ensures a < 2 && x == a + 2 * h
  {
    a, h := x % 2, x / 2;
  }

  lemma {:induction false} Bounded(x: nat, y: nat, k: nat)
    requires x < Pow2(k) && y < Pow2(k)
    ensures And(x, y) < Pow2(k) && Xor(x, y) < Pow2(k)
  {
    if k > 0 {
      hide And, Xor;
      var a, u := Split(x);
      var b, v := Split(y);
      OnBits(a, u, b, v);
      Bounded(u, v, k - 1);
    } else {
      Zeros(0);
    }
  }

  lemma DoubledProduct(h: nat, x: nat)
    ensures (2 * h) * x == 2 * (h * x)
  {
  }

  /** Numbers with `k` low bits beside each other: the operations do not mix them. */
  lemma {:induction false} Joined(x: nat, b: nat, y: nat, d: nat, k: nat)
    requires x < Pow2(k) && y < Pow2(k)
    ensures And(x + Pow2(k) * b, y + Pow2(k) * d) == And(x, y) + Pow2(k) * And(b, d)
    ensures Xor(x + Pow2(k) * b, y + Pow2(k) * d) == Xor(x, y) + Pow2(k) * Xor(b, d)
  {
    hide And, Xor;
    if k > 0 {
      var h := Pow2(k - 1);
      var e, u := Split(x);
      var f, v := Split(y);
      Joined(u, b, v, d, k - 1);
      JoinedStep(e, u, h * b, f, v, h * d, h * And(b, d), h * Xor(b, d));
      DoubledProduct(h, b);
      DoubledProduct(h, d);
      DoubledProduct(h, And(b, d));
      DoubledProduct(h, Xor(b, d));
    } else {
      Zeros(0);
      assert Pow2(0) * b == b && Pow2(0) * d == d;
    }
  }

  /** One more low bit on either side; `b`, `d` and the results `p` and `q` are shifted up once more. */
  lemma JoinedStep(e: nat, u: nat, b: nat, f: nat, v: nat, d: nat, p: nat, q: nat)
    requires e < 2 && f < 2 && And(u + b, v + d) == And(u, v) + p && Xor(u + b, v + d) == Xor(u, v) + q
    ensures And((e + 2 * u) + 2 * b, (f + 2 * v) + 2 * d) == And(e + 2 * u, f + 2 * v) + 2 * p
    ensures Xor((e + 2 * u) + 2 * b, (f + 2 * v) + 2 * d) == Xor(e + 2 * u, f + 2 * v) + 2 * q
  {
    hide And, Xor, BitAnd, BitXor;
    OnBits(e, u + b, f, v + d);
    OnBits(e, u, f, v);
  }

  lemma {:induction false} AndOnes(x: nat, k: nat)
    requires x < Pow2(k)
    ensures And(x, Pow2(k) - 1) == x
  {
    hide And, Xor;
    if k > 0 {
      var a, h := Split(x);
      OnBits(a, h, 1, Pow2(k - 1) - 1);
      AndOnes(h, k - 1);
    } else {
      Zeros(0);
    }
  }

  /** The mask of the bits from `k` up to `k + n` clears the bits below `k`. */
  lemma Masked(x: nat, k: nat, n: nat)
    requires x < Pow2(k) * Pow2(n)
    ensures And(x, Pow2(k) * (Pow2(n) - 1)) == x - x % Pow2(k)
  {
    hide And, Xor, Pow2;
    var m, h := Pow2(k), Pow2(n);
    var q, r := x / m, x % m;
    assert x == r + m * q;
    if q >= h { Ordered(m, h, q); }
    Joined(r, q, 0, h - 1, k);
    AndOnes(q, n);
    Zeros(r);
  }

  /** The mask of the lowest `k` bits leaves the remainder. */
  lemma LowBits(x: nat, k: nat)
    ensures And(x, Pow2(k) - 1) == x % Pow2(k)
  {
    hide And, Xor, Pow2;
    var m := Pow2(k);
    var q, r := x / m, x % m;
    assert x == r + m * q;
    Joined(r, q, m - 1, 0, k);
    assert m * 0 == 0;
    AndOnes(r, k);
    Zeros(q);
  }

  /** Bits above `k` that only one operand has do not matter. */
  lemma HighBits(a: nat, b: nat, c: nat, k: nat)
    requires a < Pow2(k) && c < Pow2(k)
    ensures And(a + Pow2(k) * b, c) == And(a, c)
  {
    hide And, Xor, Pow2;
    Joined(a, b, c, 0, k);
    Zeros(b);
    assert Pow2(k) * 0 == 0;
  }

  // ------------------------------------------------------------------------
  // Choice and majority
  // ------------------------------------------------------------------------

  function Not(x: nat, k: nat): nat
    requires x < Pow2(k)
  {
    Pow2(k) - 1 - x
  }

  function Choice(x: nat, y: nat, z: nat, k: nat): nat
    requires x < Pow2(k)
  {
    Xor(And(x, y), And(Not(x, k), z))
  }

  function Majority(x: nat, y: nat, z: nat): nat {
    Xor(Xor(And(x, y), And(x, z)), And(y, z))
  }

  /** In a choice no bit comes from both sides, so the sum is the exclusive or. */
  lemma {:induction false} ChoiceIsSum(x: nat, y: nat, z: nat, k: nat)
    requires x < Pow2(k) && y < Pow2(k) && z < Pow2(k)
    ensures Choice(x, y, z, k) == And(x, y) + And(Not(x, k), z)
  {
    hide And, Xor;
    if k > 0 {
      var a, u := Split(x);
      var b, v := Split(y);
      var c, w := Split(z);
      ChoiceIsSum(u, v, w, k - 1);
      assert Not(x, k) == (1 - a) + 2 * Not(u, k - 1);
      ChoiceStep(a, u, Not(u, k - 1), b, v, c, w);
    } else {
      Zeros(0);
    }
  }

  lemma ChoiceStep(a: nat, u: nat, n: nat, b: nat, v: nat, c: nat, w: nat)
    requires a < 2 && b < 2 && c < 2 && Xor(And(u, v), And(n, w)) == And(u, v) + And(n, w)
    ensures var x, m, y, z := a + 2 * u, 1 - a + 2 * n, b + 2 * v, c + 2 * w;
      Xor(And(x, y), And(m, z)) == And(x, y) + And(m, z)
  {
    hide And, Xor;
    OnBits(a, u, b, v);
    OnBits(1 - a, n, c, w);
    OnBits(BitAnd(a, b), And(u, v), BitAnd(1 - a, c), And(n, w));
  }

  /** A sum of three bits is their parity, and their majority carried. */
  lemma {:induction false} ParityAndMajority(x: nat, y: nat, z: nat)
    ensures x + y + z == Xor(Xor(x, y), z) + 2 * Majority(x, y, z)
    decreases x + y + z
  {
    hide And, Xor, Majority;
    if x + y + z > 0 {
      var a, u := Split(x);
      var b, v := Split(y);
      var c, w := Split(z);
      ParityAndMajority(u, v, w);
      MajorityOnBits(a, u, b, v, c, w);
      OnBits(a, u, b, v);
      OnBits(BitXor(a, b), Xor(u, v), c, w);
    } else {
      NoMajority();
    }
  }

  lemma NoMajority()
    ensures Xor(Xor(0, 0), 0) == Majority(0, 0, 0) == 0
  {
  }

  lemma MajorityOnBits(a: nat, u: nat, b: nat, v: nat, c: nat, w: nat)
    requires a < 2 && b < 2 && c < 2
    ensures Majority(a + 2 * u, b + 2 * v, c + 2 * w)
            == BitXor(BitXor(BitAnd(a, b), BitAnd(a, c)), BitAnd(b, c)) + 2 * Majority(u, v, w)
  {
    hide And, Xor;
    OnBits(a, u, b, v);
    OnBits(a, u, c, w);
    OnBits(b, v, c, w);
    OnBits(BitAnd(a, b), And(u, v), BitAnd(a, c), And(u, w));
    OnBits(BitXor(BitAnd(a, b), BitAnd(a, c)), Xor(And(u, v), And(u, w)), BitAnd(b, c), And(v, w));
  }
}
