/**
  What the auxiliary constraints say about whole columns: a sorted column rises by 0 or 1 from entry to
  entry, equal addresses carry equal values, and the running product telescopes.
*/
module SortedColumns {
  import opened StarkPrime
  import opened Field

  /** Every entry equals the one before it, or is one larger. */
  ghost predicate Continuous(A: seq<int>, p: nat)
    requires p > 0
  {
    forall j {:trigger A[j]} :: 0 <= j < |A| - 1 ==> Zero((A[j + 1] - A[j]) * (A[j + 1] - A[j] - 1), p)
  }

  /** Where the address does not rise by one, the value stays. */
  ghost predicate ValuesStay(A: seq<int>, V: seq<int>, p: nat)
    requires p > 0
  {
    |A| == |V| &&
    forall j {:trigger A[j]} :: 0 <= j < |A| - 1 ==> Zero((V[j + 1] - V[j]) * (A[j + 1] - A[j] - 1), p)
  }

  /** The running product `Q` gains a factor of `U` and loses one of `S` at every entry. */
  ghost predicate RunningProduct(S: seq<int>, U: seq<int>, Q: seq<int>, p: nat)
    requires p > 0
  {
    |S| == |U| == |Q| &&
    forall j {:trigger Q[j]} :: 0 <= j < |Q| - 1 ==> Zero(S[j + 1] * Q[j + 1] - U[j + 1] * Q[j], p)
  }

  /** One entry to the next: the address rises by `s`, and by 0 only with the same value. */
  lemma OneStep(A: seq<int>, V: seq<int>, j: nat, p: nat) returns (s: nat)
    requires IsPrime(p) && Continuous(A, p) && ValuesStay(A, V, p) && j + 1 < |A|
    ensures s <= 1 && Zero(A[j + 1] - A[j] - s, p)
    ensures s == 0 ==> Zero(V[j + 1] - V[j], p)
  {
    var d, e := A[j + 1] - A[j], V[j + 1] - V[j];
    assert Zero(d * (d - 1), p) && Zero(e * (d - 1), p);
    ZeroProduct(d, d - 1, p);
    if Zero(d, p) {
      s := 0;
      ZeroProduct(e, d - 1, p);
      if Zero(d - 1, p) {
        ZeroSum(d, d - 1, p);
        OneIsNotZero(p);
      }
    } else {
      s := 1;
    }
  }

  /** From entry `i` to entry `j` the address rises by at most `j - i`, and by 0 only with the same value. */
  lemma {:induction false} Rise(A: seq<int>, V: seq<int>, i: nat, j: nat, p: nat) returns (s: nat)
    requires IsPrime(p) && Continuous(A, p) && ValuesStay(A, V, p) && i <= j < |A|
    ensures s <= j - i && Zero(A[j] - A[i] - s, p)
    ensures s == 0 ==> Zero(V[j] - V[i], p)
    decreases j
  {
    hide Zero, Continuous;
    ZeroIs(0, 0, p);
    s := 0;
    if i < j {
      var r := Rise(A, V, i, j - 1, p);
      var last := OneStep(A, V, j - 1, p);
      s := r + last;
      var x, y := A[j - 1] - A[i] - r, A[j] - A[j - 1] - last;
      ZeroSum(x, y, p);
      assert x + y == A[j] - A[i] - s;
      if s == 0 { ZeroSum(V[j - 1] - V[i], V[j] - V[j - 1], p); }
    }
  }

  /** In a column shorter than the field, equal addresses carry equal values. */
  lemma SingleValued(A: seq<int>, V: seq<int>, i: nat, j: nat, p: nat)
    requires IsPrime(p) && |A| <= p && Continuous(A, p) && ValuesStay(A, V, p)
    requires i <= j < |A| && Zero(A[j] - A[i], p)
    ensures Zero(V[j] - V[i], p)
  {
    var s := Rise(A, V, i, j, p);
    ZeroSum(A[j] - A[i], A[j] - A[i] - s, p);
    Canonical(s, 0, p);
  }

  /** A sorted column of canonical entries stays between its first and its last entry. */
  lemma BetweenEnds(A: seq<int>, j: nat, p: nat)
    requires IsPrime(p) && 0 < |A| <= p && Continuous(A, p) && j < |A|
    requires 0 <= A[0] <= A[|A| - 1] < p && 0 <= A[j] < p
    ensures A[0] <= A[j] <= A[|A| - 1]
  {
    hide Zero, IsPrime;
    var n := |A| - 1;
    NoValues(A, p);
    var s := Rise(A, A, 0, j, p);
    var t := Rise(A, A, j, n, p);
    ZeroSum(A[j] - A[0] - s, A[n] - A[j] - t, p);
    var gap := A[n] - A[0];
    ZeroMultiple(gap - (s + t), -1, p);
    Canonical(s + t, gap, p);
    assert s + t == gap;
    Canonical(A[j], A[0] + s, p);
  }

  /** A column may stand in for its own values. */
  lemma NoValues(A: seq<int>, p: nat)
    requires p > 0 && Continuous(A, p)
    ensures ValuesStay(A, A, p)
  {
    forall j {:trigger A[j]} | 0 <= j < |A| - 1 ensures Zero((A[j + 1] - A[j]) * (A[j + 1] - A[j] - 1), p) {
    }
  }

  function Product(s: seq<int>): int {
    if s == [] then 1 else s[0] * Product(s[1..])
  }

  lemma {:induction false} ProductAppend(s: seq<int>, x: int)
    ensures Product(s + [x]) == Product(s) * x
  {
    if s == [] {
      assert (s + [x])[1..] == [];
    } else {
      assert (s + [x])[1..] == s[1..] + [x];
      ProductAppend(s[1..], x);
      assert s[0] * (Product(s[1..]) * x) == (s[0] * Product(s[1..])) * x;
    }
  }

  /** The last product times all sorted factors is the first product times all unsorted factors. */
  lemma {:induction false} Telescopes(S: seq<int>, U: seq<int>, Q: seq<int>, n: nat, p: nat)
    requires p > 0 && RunningProduct(S, U, Q, p) && n < |Q|
    ensures Zero(Q[n] * Product(S[1..n + 1]) - Q[0] * Product(U[1..n + 1]), p)
    decreases n
  {
    hide Zero;
    if n == 0 {
      assert S[1..1] == [] && U[1..1] == [];
      ZeroIs(0, 0, p);
    } else {
      Telescopes(S, U, Q, n - 1, p);
      var s, u := Product(S[1..n]), Product(U[1..n]);
      assert S[1..n + 1] == S[1..n] + [S[n]] && U[1..n + 1] == U[1..n] + [U[n]];
      ProductAppend(S[1..n], S[n]);
      ProductAppend(U[1..n], U[n]);
      assert Zero(S[(n - 1) + 1] * Q[(n - 1) + 1] - U[(n - 1) + 1] * Q[n - 1], p);
      var x, y := S[n] * Q[n] - U[n] * Q[n - 1], Q[n - 1] * s - Q[0] * u;
      ZeroMultiple(x, s, p);
      ZeroMultiple(y, U[n], p);
      ZeroSum(s * x, U[n] * y, p);
      TelescopeStep(S[n], U[n], Q[n], Q[n - 1], Q[0], s, u);
    }
  }

  lemma TelescopeStep(a: int, b: int, q: int, r: int, first: int, s: int, u: int)
    ensures s * (a * q - b * r) + b * (r * s - first * u) == q * (s * a) - first * (u * b)
  {
  }

  lemma {:induction false} ProductConcat(s: seq<int>, t: seq<int>)
    ensures Product(s + t) == Product(s) * Product(t)
  {
    if s == [] {
      assert s + t == t;
    } else {
      assert (s + t)[1..] == s[1..] + t;
      ProductConcat(s[1..], t);
      assert s[0] * (Product(s[1..]) * Product(t)) == (s[0] * Product(s[1..])) * Product(t);
    }
  }

  /** The first element of a permutation, taken out of the other sequence. */
  lemma TakeOut<T>(s: seq<T>, t: seq<T>) returns (k: nat)
    requires s != [] && multiset(s) == multiset(t)
    ensures k < |t| && t[k] == s[0] && t == t[..k] + ([s[0]] + t[k + 1..])
    ensures multiset(s[1..]) == multiset(t[..k] + t[k + 1..])
  {
    var x := s[0];
    assert x in multiset(s);
    assert x in multiset(t);
    k :| 0 <= k < |t| && t[k] == x;
    var a, b := t[..k], t[k + 1..];
    assert t == a + ([x] + b);
    assert s == [x] + s[1..];
    assert multiset(s) == multiset{x} + multiset(s[1..]);
    assert multiset(t) == multiset(a) + (multiset{x} + multiset(b));
    Cancel(multiset{x}, multiset(s[1..]), multiset(a) + multiset(b));
    assert multiset(a + b) == multiset(a) + multiset(b);
  }

  lemma EmptyPermutation<T>(t: seq<T>)
    requires multiset(t) == multiset{}
    ensures t == []
  {
    assert |multiset(t)| == |t|;
  }

  lemma Cancel<T>(x: multiset<T>, a: multiset<T>, b: multiset<T>)
    requires x + a == x + b
    ensures a == b
  {
    assert a == (x + a) - x && b == (x + b) - x;
  }

  /** The product does not depend on the order. */
  lemma {:induction false} PermutedProducts(s: seq<int>, t: seq<int>)
    requires multiset(s) == multiset(t)
    ensures Product(s) == Product(t)
    decreases |s|
  {
    if s == [] {
      EmptyPermutation(t);
    } else {
      var k := TakeOut(s, t);
      var x, a, b := s[0], t[..k], t[k + 1..];
      PermutedProducts(s[1..], a + b);
      ProductConcat(a, [x] + b);
      ProductConcat(a, b);
      assert ([x] + b)[1..] == b;
      Regroup(Product(a), x, Product(b));
    }
  }

  lemma Regroup(a: int, x: int, b: int)
    ensures a * (x * b) == x * (a * b)
  {
  }

  /** A running product that starts with the first factors ends with the quotient of all factors. */
  lemma ProductEnds(S: seq<int>, U: seq<int>, Q: seq<int>, p: nat)
    requires IsPrime(p) && RunningProduct(S, U, Q, p) && Q != [] && Zero(S[0] * Q[0] - U[0], p)
    ensures Zero(Q[|Q| - 1] * Product(S) - Product(U), p)
  {
    hide Zero, Product;
    assert |S| == |U| == |Q| > 0;
    FirstFactor(S);
    FirstFactor(U);
    var n := |Q| - 1;
    Telescopes(S, U, Q, n, p);
    assert S[1..n + 1] == S[1..] && U[1..n + 1] == U[1..];
    var s, u := Product(S[1..]), Product(U[1..]);
    ZeroMultiple(Q[n] * s - Q[0] * u, S[0], p);
    ZeroMultiple(S[0] * Q[0] - U[0], u, p);
    ZeroSum(S[0] * (Q[n] * s - Q[0] * u), u * (S[0] * Q[0] - U[0]), p);
    EndingStep(S[0], U[0], s, u, Q[n], Q[0]);
  }

  lemma FirstFactor(s: seq<int>)
    requires |s| > 0
    ensures Product(s) == s[0] * Product(s[1..])
  {
  }

  lemma EndingStep(a: int, b: int, s: int, u: int, q: int, r: int)
    ensures a * (q * s - r * u) + u * (a * r - b) == q * (a * s) - b * u
  {
    assert a * (q * s - r * u) == q * (a * s) - (a * r) * u;
    assert u * (a * r - b) == (a * r) * u - b * u;
  }

  /** If `q` is the quotient of `u` by `s`, then it is that of `m` by `f` exactly if the cross products agree. */
  lemma CrossMultiplied(q: int, s: int, u: int, f: int, m: int, p: nat)
    requires IsPrime(p) && Zero(q * s - u, p) && !Zero(s, p)
    ensures Zero(q * f - m, p) <==> Zero(u * f - s * m, p)
  {
    hide Zero;
    ZeroMultiple(q * s - u, f, p);
    assert f * (q * s - u) + (u * f - s * m) == s * (q * f - m) by { CrossStep(q, s, u, f, m); }
    if Zero(q * f - m, p) {
      ZeroMultiple(q * f - m, s, p);
      ZeroSum(s * (q * f - m), f * (q * s - u), p);
    }
    if Zero(u * f - s * m, p) {
      ZeroSum(f * (q * s - u), u * f - s * m, p);
      ZeroProduct(s, q * f - m, p);
    }
  }

  lemma CrossStep(q: int, s: int, u: int, f: int, m: int)
    ensures f * (q * s - u) + (u * f - s * m) == s * (q * f - m)
  {
    assert f * (q * s - u) == s * (q * f) - u * f;
  }

  /** Dividing the quotient of `m` by `f` by another factor. */
  lemma Divided(res: int, x: int, f: int, m: int, p: nat)
    requires IsPrime(p) && !Zero(x, p) && Zero(res * f - m, p)
    ensures Zero(Divide(res, x, p) * (f * x) - m, p)
  {
    hide Zero;
    var u := Inverse(x, p);
    ZeroMultiple(x * u - 1, res * f, p);
    ZeroSum((x * u - 1) * (res * f), res * f - m, p);
    DividedStep(res, x, u, f, m);
  }

  lemma DividedStep(res: int, x: int, u: int, f: int, m: int)
    ensures (x * u - 1) * (res * f) + (res * f - m) == (res * u) * (f * x) - m
  {
    assert (x * u) * (res * f) == (res * u) * (f * x);
  }

  lemma {:induction false} FactorVanishes(s: seq<int>, i: nat, p: nat)
    requires p > 0 && i < |s| && Zero(s[i], p)
    ensures Zero(Product(s), p)
  {
    if i == 0 {
      ZeroMultiple(s[0], Product(s[1..]), p);
    } else {
      FactorVanishes(s[1..], i - 1, p);
      ZeroMultiple(Product(s[1..]), s[0], p);
    }
  }
}
