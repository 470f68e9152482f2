/**
  One folding step of FRI. The values of a polynomial on a coset of the eighth roots of unity, interpolated
  and evaluated at alpha, are a value of the folded polynomial, which has an eighth of the coefficients.
*/
module FriFolding {
  import opened Arithmetic
  import opened StarkPrime
  import opened Field
  import opened Polynomials
  import opened Lagrange
  import opened FriParser

  /** Every block of eight coefficients is evaluated at alpha. */
  function FoldPolynomial(c: seq<int>, alpha: int): (r: seq<int>)
    requires |c| % FOLDING_FACTOR == 0
    ensures |r| == |c| / FOLDING_FACTOR
  {
    if c == [] then [] else [Eval(c[..FOLDING_FACTOR], alpha)] + FoldPolynomial(c[FOLDING_FACTOR..], alpha)
  }

  /** The polynomial with eight coefficients that `c` is wherever the eighth power of the argument is `s`. */
  function Combine(c: seq<int>, s: int): (r: seq<int>)
    requires |c| % FOLDING_FACTOR == 0
    ensures |r| == FOLDING_FACTOR
  {
    if c == [] then seq(FOLDING_FACTOR, _ => 0)
    else Add(c[..FOLDING_FACTOR], Scale(Combine(c[FOLDING_FACTOR..], s), s))
  }

  lemma EvalZeros(n: nat, x: int)
    ensures Eval(seq(n, _ => 0), x) == 0
  {
    assert [] + seq(n, _ => 0) == seq(n, _ => 0);
    EvalPadded([], n, x);
  }

  lemma EvalCombine(c: seq<int>, s: int, x: int)
    requires |c| % FOLDING_FACTOR == 0 && c != []
    ensures Eval(Combine(c, s), x) == Eval(c[..FOLDING_FACTOR], x) + s * Eval(Combine(c[FOLDING_FACTOR..], s), x)
  {
    var rest := Combine(c[FOLDING_FACTOR..], s);
    EvalAdd(c[..FOLDING_FACTOR], Scale(rest, s), x);
    EvalScale(rest, s, x);
  }

  lemma EvalFold(c: seq<int>, alpha: int, s: int)
    requires |c| % FOLDING_FACTOR == 0 && c != []
    ensures Eval(FoldPolynomial(c, alpha), s)
            == Eval(c[..FOLDING_FACTOR], alpha) + s * Eval(FoldPolynomial(c[FOLDING_FACTOR..], alpha), s)
  {
    assert FoldPolynomial(c, alpha)[1..] == FoldPolynomial(c[FOLDING_FACTOR..], alpha);
  }

  lemma {:induction false} FoldIsCombine(c: seq<int>, s: int, alpha: int)
    requires |c| % FOLDING_FACTOR == 0
    ensures Eval(FoldPolynomial(c, alpha), s) == Eval(Combine(c, s), alpha)
  {
    if c == [] {
      EvalZeros(FOLDING_FACTOR, alpha);
    } else {
      hide Eval, FoldPolynomial, Combine;
      EvalCombine(c, s, alpha);
      EvalFold(c, alpha, s);
      FoldIsCombine(c[FOLDING_FACTOR..], s, alpha);
    }
  }

  lemma {:induction false} EvalAppend(c: seq<int>, d: seq<int>, x: int)
    ensures Eval(c + d, x) == Eval(c, x) + Pow(x, |c|) * Eval(d, x)
  {
    if c == [] {
      assert c + d == d;
    } else {
      assert (c + d)[1..] == c[1..] + d;
      EvalAppend(c[1..], d, x);
      assert x * (Pow(x, |c| - 1) * Eval(d, x)) == Pow(x, |c|) * Eval(d, x);
    }
  }

  lemma {:induction false} CombineAgrees(c: seq<int>, s: int, x: int, p: nat)
    requires p > 0 && |c| % FOLDING_FACTOR == 0 && Zero(Pow(x, FOLDING_FACTOR) - s, p)
    ensures Zero(Eval(c, x) - Eval(Combine(c, s), x), p)
  {
    hide Zero, Pow;
    if c == [] {
      EvalZeros(FOLDING_FACTOR, x);
      ZeroIs(0, 0, p);
    } else {
      var first, rest := c[..FOLDING_FACTOR], c[FOLDING_FACTOR..];
      CombineAgrees(rest, s, x, p);
      EvalCombine(c, s, x);
      assert c == first + rest;
      EvalAppend(first, rest, x);
      var e, f, t := Eval(rest, x), Eval(Combine(rest, s), x), Pow(x, FOLDING_FACTOR);
      ZeroMultiple(e - f, s, p);
      ZeroMultiple(t - s, e, p);
      ZeroSum(e * (t - s), s * (e - f), p);
      SplitDifference(t, s, e, f);
    }
  }

  // ------------------------------------------------------------------------
  // Cosets of the eighth roots of unity
  // ------------------------------------------------------------------------

  /** `r` generates the eighth roots of unity. */
  ghost predicate EighthRoot(r: int, p: nat)
    requires p > 0
  {
    Zero(Pow(r, 4) + 1, p)
  }

  function Coset(r: int, x: int): (s: seq<int>)
    ensures |s| == FOLDING_FACTOR
  {
    seq(FOLDING_FACTOR, i requires 0 <= i < FOLDING_FACTOR => Pow(r, i) * x)
  }

  function CosetValues(c: seq<int>, r: int, x: int, p: nat): (s: seq<int>)
    requires p > 0
    ensures |s| == FOLDING_FACTOR
  {
    seq(FOLDING_FACTOR, i requires 0 <= i < FOLDING_FACTOR => Eval(c, Coset(r, x)[i]) % p)
  }

  lemma RootsDiffer(r: int, i: nat, j: nat, p: nat)
    requires p > 2 && EighthRoot(r, p) && i < j < 8
    ensures !Zero(Pow(r, i) - Pow(r, j), p)
  {
    hide Pow, Zero;
    assert Pow2(2) == 2 * Pow2(1) == 4 && Pow2(3) == 2 * Pow2(2);
    SameResidue(Pow(r, 4), -1, p);
    PowersDiffer(r, 2, p, i, j);
    SameResidue(Pow(r, i), Pow(r, j), p);
  }

  lemma Difference(a: int, b: int, x: int)
    ensures a * x - b * x == (a - b) * x
  {
  }

  lemma CosetDistinct(r: int, x: int, p: nat)
    requires IsPrime(p) && p > 2 && EighthRoot(r, p) && !Zero(x, p)
    ensures Distinct(Coset(r, x), p)
  {
    hide Zero, Pow, EighthRoot;
    forall i, j | 0 <= i < j < FOLDING_FACTOR ensures !Zero(Coset(r, x)[i] - Coset(r, x)[j], p) {
      RootsDiffer(r, i, j, p);
      Difference(Pow(r, i), Pow(r, j), x);
      if Zero((Pow(r, i) - Pow(r, j)) * x, p) { ZeroProduct(Pow(r, i) - Pow(r, j), x, p); }
    }
  }

  lemma {:induction false} PowProduct(a: int, b: int, n: nat)
    ensures Pow(a * b, n) == Pow(a, n) * Pow(b, n)
  {
    if n > 0 {
      PowProduct(a, b, n - 1);
      Interchange(a, b, Pow(a, n - 1), Pow(b, n - 1));
    }
  }

  lemma Interchange(a: int, b: int, x: int, y: int)
    ensures (a * b) * (x * y) == (a * x) * (b * y)
  {
    assert (a * b) * (x * y) == a * (b * (x * y)) == a * (x * (b * y));
  }

  lemma {:induction false} PowerOfOne(y: int, i: nat, p: nat)
    requires p > 0 && Zero(y - 1, p)
    ensures Zero(Pow(y, i) - 1, p)
  {
    ZeroIs(0, 0, p);
    if i > 0 {
      PowerOfOne(y, i - 1, p);
      var z := Pow(y, i - 1);
      ZeroMultiple(z - 1, y, p);
      ZeroSum(y * (z - 1), y - 1, p);
      assert y * z - 1 == y * (z - 1) + (y - 1);
    }
  }

  lemma RootPower(r: int, i: nat, p: nat)
    requires p > 0 && EighthRoot(r, p)
    ensures Zero(Pow(Pow(r, 8), i) - 1, p)
  {
    hide Zero, Pow;
    PowAdd(r, 4, 4);
    var h := Pow(r, 4);
    ZeroMultiple(h + 1, h - 1, p);
    SquareMinusOne(h);
    PowerOfOne(Pow(r, 8), i, p);
  }

  lemma SquareMinusOne(h: int)
    ensures (h - 1) * (h + 1) == h * h - 1
  {
  }

  /** All elements of a coset have the same eighth power. */
  lemma CosetPower(r: int, x: int, i: nat, p: nat)
    requires p > 0 && EighthRoot(r, p)
    ensures Zero(Pow(Pow(r, i) * x, 8) - Pow(x, 8), p)
  {
    hide Zero, Pow, EighthRoot;
    PowProduct(Pow(r, i), x, 8);
    PowMul(r, i, 8);
    PowMul(r, 8, i);
    RootPower(r, i, p);
    var z, s := Pow(Pow(r, 8), i), Pow(x, 8);
    ZeroMultiple(z - 1, s, p);
    Difference(z, 1, s);
  }

  /** Interpolating the values on a coset gives, at alpha, the folded polynomial at the eighth power. */
  lemma FoldingStep(c: seq<int>, r: int, x: int, alpha: int, p: nat)
    requires IsPrime(p) && p > 2 && EighthRoot(r, p) && !Zero(x, p) && |c| % FOLDING_FACTOR == 0
    ensures Distinct(Coset(r, x), p)
    ensures Zero(LagrangeEval(CosetValues(c, r, x, p), Coset(r, x), alpha, p)
                 - Eval(FoldPolynomial(c, alpha), Pow(x, FOLDING_FACTOR)), p)
  {
    hide Zero, Pow, LagrangeEval, Eval, FoldPolynomial, Combine, Distinct;
    CosetDistinct(r, x, p);
    var s, nodes, values := Pow(x, FOLDING_FACTOR), Coset(r, x), CosetValues(c, r, x, p);
    var combined := Combine(c, s);
    forall i | 0 <= i < |nodes| ensures Zero(values[i] - Eval(combined, nodes[i]), p) {
      CosetPower(r, x, i, p);
      CombineAgrees(c, s, nodes[i], p);
      ZeroRemainder(Eval(c, nodes[i]), p);
      ZeroSum(Eval(c, nodes[i]) - Eval(combined, nodes[i]), Eval(c, nodes[i]) - values[i], p);
    }
    LagrangeIsPolynomial(combined, values, nodes, alpha, p);
    FoldIsCombine(c, s, alpha);
  }

  // ------------------------------------------------------------------------
  // The next layer's domain has the same offset
  // ------------------------------------------------------------------------

  /** The polynomial `c(u * x)`. */
  function Stretch(c: seq<int>, u: int): (r: seq<int>)
    ensures |r| == |c|
  {
    if c == [] then [] else [c[0]] + Scale(Stretch(c[1..], u), u)
  }

  lemma {:induction false} EvalStretch(c: seq<int>, u: int, x: int)
    ensures Eval(Stretch(c, u), x) == Eval(c, u * x)
  {
    if c != [] {
      assert Stretch(c, u)[1..] == Scale(Stretch(c[1..], u), u);
      EvalScale(Stretch(c[1..], u), u, x);
      EvalStretch(c[1..], u, x);
      assert x * (u * Eval(c[1..], u * x)) == (u * x) * Eval(c[1..], u * x);
    }
  }

  /** The polynomial of the next layer, whose domain is offset by `g` again. */
  function NextPolynomial(c: seq<int>, alpha: int, g: int): (r: seq<int>)
    requires |c| % FOLDING_FACTOR == 0
    ensures |r| == |c| / FOLDING_FACTOR
  {
    Stretch(FoldPolynomial(c, alpha), Pow(g, FOLDING_FACTOR - 1))
  }

  /** The point of position `v` in the domain generated by `w` with offset `g`. */
  function Point(g: int, w: int, v: nat): int {
    Pow(w, v) * g
  }

  lemma NextPoint(c: seq<int>, alpha: int, g: int, w: int, v: nat)
    requires |c| % FOLDING_FACTOR == 0
    ensures Eval(FoldPolynomial(c, alpha), Pow(Point(g, w, v), FOLDING_FACTOR))
            == Eval(NextPolynomial(c, alpha, g), Point(g, Pow(w, FOLDING_FACTOR), v))
  {
    hide FoldPolynomial, Eval, Stretch;
    var u := Pow(g, FOLDING_FACTOR - 1);
    EvalStretch(FoldPolynomial(c, alpha), u, Point(g, Pow(w, FOLDING_FACTOR), v));
    PowProduct(Pow(w, v), g, FOLDING_FACTOR);
    PowMul(w, v, FOLDING_FACTOR);
    PowMul(w, FOLDING_FACTOR, v);
    var z := Pow(Pow(w, FOLDING_FACTOR), v);
    assert u * (z * g) == z * (g * u);
  }
}
