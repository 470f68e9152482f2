/** Lagrange evaluation over a prime field: the recursions of polynomials.cairo. */
module Lagrange {
  import opened StarkPrime
  import opened Field
  import opened Polynomials

  /** Node `j` differs from node `m`, so that its difference may be divided by. */
  lemma Apart(xs: seq<int>, j: nat, m: nat, p: nat)
    requires p > 0 && Distinct(xs, p) && j < |xs| && m < |xs| && j != m
    ensures !Zero(xs[j] - xs[m], p)
  {
    if m < j && Zero(xs[j] - xs[m], p) { ZeroMultiple(xs[j] - xs[m], -1, p); }
  }

  ghost function LagrangeBasisEval(xs: seq<int>, x: int, j: nat, m: nat, p: nat): int
    requires IsPrime(p) && Distinct(xs, p) && j < |xs| && m < |xs|
    decreases |xs| - m
  {
    if j == m then
      if m + 1 == |xs| then 1 else LagrangeBasisEval(xs, x, j, m + 1, p)
    else
      Apart(xs, j, m, p);
      var factor := Divide(x - xs[m], xs[j] - xs[m], p);
      if m + 1 == |xs| then factor else factor * LagrangeBasisEval(xs, x, j, m + 1, p)
  }

  ghost function LagrangeSumEval(ys: seq<int>, xs: seq<int>, x: int, j: nat, p: nat): int
    requires IsPrime(p) && Distinct(xs, p) && |ys| == |xs| && j < |xs|
    decreases |xs| - j
  {
    var term := ys[j] * LagrangeBasisEval(xs, x, j, 0, p);
    if j + 1 == |xs| then term else term + LagrangeSumEval(ys, xs, x, j + 1, p)
  }

  ghost function LagrangeEval(ys: seq<int>, xs: seq<int>, x: int, p: nat): int
    requires IsPrime(p) && Distinct(xs, p) && |ys| == |xs| > 0
  {
    LagrangeSumEval(ys, xs, x, 0, p)
  }

  // ------------------------------------------------------------------------
  // At the nodes
  // ------------------------------------------------------------------------

  /** A factor of the basis polynomial of node `j`, at node `k`. */
  lemma FactorAtNode(xs: seq<int>, k: nat, j: nat, m: nat, p: nat)
    requires IsPrime(p) && Distinct(xs, p) && j < |xs| && m < |xs| && k < |xs| && j != m
    ensures !Zero(xs[j] - xs[m], p)
    ensures var factor := Divide(xs[k] - xs[m], xs[j] - xs[m], p);
      (j == k ==> Zero(factor - 1, p)) && (m == k ==> factor == 0)
  {
    Apart(xs, j, m, p);
  }

  lemma ProductOfOnes(a: int, b: int, p: nat)
    requires p > 0 && Zero(a - 1, p) && Zero(b - 1, p)
    ensures Zero(a * b - 1, p)
  {
    ZeroMultiple(b - 1, a, p);
    ZeroSum(a * (b - 1), a - 1, p);
    assert a * b - 1 == a * (b - 1) + (a - 1);
  }

  /** At a node the basis polynomial is 1 if the node is its own, and 0 if the product covers the node. */
  lemma {:induction false} BasisAtNode(xs: seq<int>, k: nat, j: nat, m: nat, p: nat)
    requires IsPrime(p) && Distinct(xs, p) && j < |xs| && m < |xs| && k < |xs|
    ensures j == k ==> Zero(LagrangeBasisEval(xs, xs[k], j, m, p) - 1, p)
    ensures j != k && m <= k ==> Zero(LagrangeBasisEval(xs, xs[k], j, m, p), p)
    decreases |xs| - m
  {
    hide Zero, Divide, Distinct;
    ZeroIs(0, 0, p);
    if m + 1 < |xs| { BasisAtNode(xs, k, j, m + 1, p); }
    if j != m {
      FactorAtNode(xs, k, j, m, p);
      var factor := Divide(xs[k] - xs[m], xs[j] - xs[m], p);
      if m + 1 < |xs| {
        var rest := LagrangeBasisEval(xs, xs[k], j, m + 1, p);
        if j == k {
          ProductOfOnes(factor, rest, p);
        } else if m < k {
          ZeroMultiple(rest, factor, p);
        } else {
          assert 0 * rest == 0;
        }
      }
    }
  }

  lemma {:induction false} SumAtNode(ys: seq<int>, xs: seq<int>, k: nat, j: nat, p: nat)
    requires IsPrime(p) && Distinct(xs, p) && |ys| == |xs| && j < |xs| && k < |xs|
    ensures Zero(LagrangeSumEval(ys, xs, xs[k], j, p) - (if j <= k then ys[k] else 0), p)
    decreases |xs| - j
  {
    hide Zero, LagrangeBasisEval;
    ZeroIs(0, 0, p);
    var basis := LagrangeBasisEval(xs, xs[k], j, 0, p);
    BasisAtNode(xs, k, j, 0, p);
    ZeroMultiple(basis - (if j == k then 1 else 0), ys[j], p);
    assert ys[j] * (basis - (if j == k then 1 else 0)) == ys[j] * basis - (if j == k then ys[k] else 0);
    if j + 1 < |xs| {
      SumAtNode(ys, xs, k, j + 1, p);
      ZeroSum(ys[j] * basis - (if j == k then ys[k] else 0),
              LagrangeSumEval(ys, xs, xs[k], j + 1, p) - (if j + 1 <= k then ys[k] else 0), p);
    }
  }

  /** At each of its nodes, the interpolation takes the node's value. */
  lemma LagrangeAtNode(ys: seq<int>, xs: seq<int>, k: nat, p: nat)
    requires IsPrime(p) && Distinct(xs, p) && |ys| == |xs| && k < |xs|
    ensures Zero(LagrangeEval(ys, xs, xs[k], p) - ys[k], p)
  {
    SumAtNode(ys, xs, k, 0, p);
  }

  // ------------------------------------------------------------------------
  // Everywhere
  // ------------------------------------------------------------------------

  /** The basis recursion is a polynomial in `x` with at most one coefficient per node. */
  lemma {:induction false} BasisIsPolynomial(xs: seq<int>, j: nat, m: nat, p: nat) returns (c: seq<int>)
    requires IsPrime(p) && Distinct(xs, p) && j < |xs| && m < |xs|
    ensures |c| == |xs| - m + (if j < m then 1 else 0)
    ensures forall x :: LagrangeBasisEval(xs, x, j, m, p) == Eval(c, x)
    decreases |xs| - m
  {
    if m + 1 == |xs| {
      c := [1];
      forall x ensures Eval(c, x) == 1 { assert c[1..] == []; assert x * 0 == 0; }
    } else {
      c := BasisIsPolynomial(xs, j, m + 1, p);
    }
    if j != m {
      Apart(xs, j, m, p);
      var rest, u := c, Inverse(xs[j] - xs[m], p);
      c := TimesLinear(rest, u, -xs[m] * u);
      forall x ensures LagrangeBasisEval(xs, x, j, m, p) == Eval(c, x) {
        EvalTimesLinear(rest, u, -xs[m] * u, x);
        assert u * x + -xs[m] * u == (x - xs[m]) * u;
        assert (u * x + -xs[m] * u) * Eval(rest, x) == ((x - xs[m]) * u) * Eval(rest, x);
      }
    }
  }

  lemma {:induction false} SumIsPolynomial(ys: seq<int>, xs: seq<int>, j: nat, p: nat) returns (c: seq<int>)
    requires IsPrime(p) && Distinct(xs, p) && |ys| == |xs| && j < |xs|
    ensures |c| == |xs| && forall x :: LagrangeSumEval(ys, xs, x, j, p) == Eval(c, x)
    decreases |xs| - j
  {
    var basis := BasisIsPolynomial(xs, j, 0, p);
    var term := Scale(basis, ys[j]);
    forall x ensures Eval(term, x) == ys[j] * LagrangeBasisEval(xs, x, j, 0, p) { EvalScale(basis, ys[j], x); }
    c := term;
    if j + 1 < |xs| {
      var rest := SumIsPolynomial(ys, xs, j + 1, p);
      c := Add(term, rest);
      forall x ensures LagrangeSumEval(ys, xs, x, j, p) == Eval(c, x) { EvalAdd(term, rest, x); }
    }
  }

  /** If the values come from a polynomial with no more coefficients than nodes, interpolation is that polynomial. */
  lemma LagrangeIsPolynomial(f: seq<int>, ys: seq<int>, xs: seq<int>, x: int, p: nat)
    requires IsPrime(p) && Distinct(xs, p) && |xs| > 0 && |f| <= |xs| == |ys|
    requires forall i :: 0 <= i < |xs| ==> Zero(ys[i] - Eval(f, xs[i]), p)
    ensures Zero(LagrangeEval(ys, xs, x, p) - Eval(f, x), p)
  {
    hide Zero, LagrangeSumEval, Eval, Distinct;
    var c := SumIsPolynomial(ys, xs, 0, p);
    var d := f + seq(|xs| - |f|, _ => 0);
    forall y ensures Eval(d, y) == Eval(f, y) { EvalPadded(f, |xs| - |f|, y); }
    forall i | 0 <= i < |xs| ensures Zero(Eval(c, xs[i]) - Eval(d, xs[i]), p) {
      LagrangeAtNode(ys, xs, i, p);
      ZeroSum(Eval(c, xs[i]) - ys[i], ys[i] - Eval(d, xs[i]), p);
    }
    AgreeEverywhere(c, d, xs, x, p);
  }
}
