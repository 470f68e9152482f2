/**
  Polynomials over a prime field, as coefficient sequences with the constant term first, and the fact that
  interpolation rests on: a polynomial with as many roots as coefficients vanishes everywhere.
*/
module Polynomials {
  import opened StarkPrime
  import opened Field

  /** Horner's rule. */
  function Eval(c: seq<int>, x: int): int {
    if c == [] then 0 else c[0] + x * Eval(c[1..], x)
  }

  function Add(c: seq<int>, d: seq<int>): (r: seq<int>)
    requires |c| == |d|
    ensures |r| == |c|
  {
    seq(|c|, i requires 0 <= i < |c| => c[i] + d[i])
  }

  function Scale(c: seq<int>, k: int): (r: seq<int>)
    ensures |r| == |c|
  {
    seq(|c|, i requires 0 <= i < |c| => k * c[i])
  }

  lemma {:induction false} EvalAdd(c: seq<int>, d: seq<int>, x: int)
    requires |c| == |d|
    ensures Eval(Add(c, d), x) == Eval(c, x) + Eval(d, x)
  {
    if c != [] {
      assert Add(c, d)[1..] == Add(c[1..], d[1..]);
      EvalAdd(c[1..], d[1..], x);
      assert x * (Eval(c[1..], x) + Eval(d[1..], x)) == x * Eval(c[1..], x) + x * Eval(d[1..], x);
    }
  }

  lemma {:induction false} EvalScale(c: seq<int>, k: int, x: int)
    ensures Eval(Scale(c, k), x) == k * Eval(c, x)
  {
    if c != [] {
      assert Scale(c, k)[1..] == Scale(c[1..], k);
      EvalScale(c[1..], k, x);
      assert k * (c[0] + x * Eval(c[1..], x)) == k * c[0] + x * (k * Eval(c[1..], x));
    }
  }

  lemma {:induction false} EvalPadded(c: seq<int>, n: nat, x: int)
    ensures Eval(c + seq(n, _ => 0), x) == Eval(c, x)
  {
    var z := seq(n, _ => 0);
    if c != [] {
      assert (c + z)[1..] == c[1..] + z;
      EvalPadded(c[1..], n, x);
    } else if n > 0 {
      assert (c + z)[1..] == [] + seq(n - 1, _ => 0);
      EvalPadded([], n - 1, x);
    }
  }

  /** `(a * x + b) * c(x)`. */
  function TimesLinear(c: seq<int>, a: int, b: int): (r: seq<int>)
    ensures |r| == |c| + 1
  {
    Add(Scale(c, b) + [0], [0] + Scale(c, a))
  }

  lemma EvalTimesLinear(c: seq<int>, a: int, b: int, x: int)
    ensures Eval(TimesLinear(c, a, b), x) == (a * x + b) * Eval(c, x)
  {
    var low, high := Scale(c, b) + [0], [0] + Scale(c, a);
    EvalAdd(low, high, x);
    assert low == Scale(c, b) + seq(1, _ => 0);
    EvalPadded(Scale(c, b), 1, x);
    EvalScale(c, b, x);
    assert high[1..] == Scale(c, a);
    EvalScale(c, a, x);
    LinearTimes(a, x, b, Eval(c, x));
  }

  lemma LinearTimes(a: int, x: int, b: int, y: int)
    ensures (a * x + b) * y == x * (a * y) + b * y
  {
    assert (a * x) * y == x * (a * y);
  }

  /** The quotient of `c(x) - c(a)` by `x - a`. */
  function Quotient(c: seq<int>, a: int): (q: seq<int>)
    requires c != []
    ensures |q| == |c| - 1
  {
    if |c| == 1 then [] else [Eval(c[1..], a)] + Quotient(c[1..], a)
  }

  lemma {:induction false} QuotientDivides(c: seq<int>, a: int, x: int)
    requires c != []
    ensures Eval(c, x) - Eval(c, a) == (x - a) * Eval(Quotient(c, a), x)
  {
    if |c| > 1 {
      var t := c[1..];
      QuotientDivides(t, a, x);
      assert Quotient(c, a)[1..] == Quotient(t, a);
      var q, y := Eval(Quotient(t, a), x), Eval(t, a);
      assert Eval(t, x) == y + (x - a) * q;
      DivideStep(x, a, y, q);
    } else {
      assert c[1..] == [];
    }
  }

  lemma DivideStep(x: int, a: int, y: int, q: int)
    ensures x * (y + (x - a) * q) - a * y == (x - a) * (y + x * q)
  {
  }

  ghost predicate Distinct(xs: seq<int>, p: nat)
    requires p > 0
  {
    forall i, j :: 0 <= i < j < |xs| ==> !Zero(xs[i] - xs[j], p)
  }

  lemma EvalNothing(x: int)
    ensures Eval([], x) == 0
  {
  }

  /** A root other than `a` stays a root when the root `a` is divided out. */
  lemma RootOfQuotient(c: seq<int>, a: int, y: int, p: nat)
    requires IsPrime(p) && c != [] && Zero(Eval(c, a), p) && Zero(Eval(c, y), p) && !Zero(a - y, p)
    ensures Zero(Eval(Quotient(c, a), y), p)
  {
    hide Zero, Eval, Quotient;
    QuotientDivides(c, a, y);
    ZeroSum(Eval(c, y), Eval(c, a), p);
    ZeroProduct(y - a, Eval(Quotient(c, a), y), p);
    if Zero(y - a, p) { ZeroMultiple(y - a, -1, p); }
  }

  lemma QuotientVanishes(c: seq<int>, a: int, x: int, p: nat)
    requires p > 0 && c != [] && Zero(Eval(c, a), p) && Zero(Eval(Quotient(c, a), x), p)
    ensures Zero(Eval(c, x), p)
  {
    hide Zero, Eval, Quotient;
    QuotientDivides(c, a, x);
    ZeroMultiple(Eval(Quotient(c, a), x), x - a, p);
    ZeroSum((x - a) * Eval(Quotient(c, a), x), Eval(c, a), p);
  }

  /** A polynomial with as many distinct roots as it has coefficients vanishes everywhere. */
  lemma {:induction false} TooManyRoots(c: seq<int>, roots: seq<int>, x: int, p: nat)
    requires IsPrime(p) && |c| <= |roots| && Distinct(roots, p)
    requires forall i :: 0 <= i < |roots| ==> Zero(Eval(c, roots[i]), p)
    ensures Zero(Eval(c, x), p)
    decreases |c|
  {
    hide Zero, Eval;
    if c == [] {
      EvalNothing(x);
      ZeroIs(0, 0, p);
    } else {
      var a, q, rest := roots[0], Quotient(c, roots[0]), roots[1..];
      forall i | 0 <= i < |rest| ensures Zero(Eval(q, rest[i]), p) {
        RootOfQuotient(c, a, roots[i + 1], p);
      }
      TooManyRoots(q, rest, x, p);
      QuotientVanishes(c, a, x, p);
    }
  }

  /** Two polynomials with at most `n` coefficients that agree on `n` distinct points agree everywhere. */
  lemma AgreeEverywhere(c: seq<int>, d: seq<int>, points: seq<int>, x: int, p: nat)
    requires IsPrime(p) && |c| == |d| <= |points| && Distinct(points, p)
    requires forall i :: 0 <= i < |points| ==> Zero(Eval(c, points[i]) - Eval(d, points[i]), p)
    ensures Zero(Eval(c, x) - Eval(d, x), p)
  {
    hide Zero, Eval, IsPrime, Distinct;
    var e := Add(c, Scale(d, -1));
    forall y ensures Eval(e, y) == Eval(c, y) - Eval(d, y) {
      EvalAdd(c, Scale(d, -1), y);
      EvalScale(d, -1, y);
    }
    TooManyRoots(e, points, x, p);
  }

  /** Congruent arguments have congruent values. */
  lemma {:induction false} EvalCongruent(c: seq<int>, x: int, y: int, p: nat)
    requires p > 0 && Zero(x - y, p)
    ensures Zero(Eval(c, x) - Eval(c, y), p)
  {
    ZeroIs(0, 0, p);
    if c != [] {
      var t := c[1..];
      EvalCongruent(t, x, y, p);
      ZeroMultiple(x - y, Eval(t, x), p);
      ZeroMultiple(Eval(t, x) - Eval(t, y), y, p);
      ZeroSum(Eval(t, x) * (x - y), y * (Eval(t, x) - Eval(t, y)), p);
      SplitDifference(x, y, Eval(t, x), Eval(t, y));
    }
  }

  lemma SplitDifference(x: int, y: int, s: int, t: int)
    ensures s * (x - y) + y * (s - t) == x * s - y * t
  {
  }
}
