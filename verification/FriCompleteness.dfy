/**
  Completeness of the FRI queries: for the proofs of a prover who follows the protocol, from a polynomial
  of low enough degree, every query passes every layer and ends among the remainders.
*/
module FriCompleteness {
  import opened Arithmetic
  import opened StarkPrime
  import opened Field
  import opened Polynomials
  import opened Lagrange
  import opened FriParser
  import opened FriQueries
  import opened FriFolding

  /** A polynomial, the generator and the offset of its domain, and the random challenges of the layers. */
  datatype Prover = Prover(polynomial: seq<int>, omega: int, offset: int, alphas: seq<int>)
  {
    /** The generator of layer `l`'s domain. */
    function Omega(l: nat): int {
      if l == 0 then omega else Pow(Omega(l - 1), FOLDING_FACTOR)
    }

    /** The polynomial of layer `l`. */
    function Layer(l: nat): seq<int>
      requires l <= |alphas|
    {
      if l == 0 then polynomial else
      var c := Layer(l - 1);
      if |c| % FOLDING_FACTOR == 0 then NextPolynomial(c, alphas[l - 1], offset) else c
    }

    /** The evaluation of layer `l` at position `v`. */
    function Evaluation(l: nat, v: nat, p: nat): int
      requires l <= |alphas| && p > 0
    {
      Eval(Layer(l), Point(offset, Omega(l), v)) % p
    }

    predicate Foldable() {
      forall l :: 0 <= l < |alphas| ==> |Layer(l)| % FOLDING_FACTOR == 0
    }

    ghost predicate Valid(root: int, p: nat) {
      IsPrime(p) && p > 2 && EighthRoot(root, p) && !Zero(offset, p) && !Zero(omega, p) && Foldable()
    }

    lemma {:induction false} OmegaIsNotZero(l: nat, p: nat)
      requires IsPrime(p) && !Zero(omega, p)
      ensures !Zero(Omega(l), p)
    {
      if l > 0 {
        OmegaIsNotZero(l - 1, p);
        PowerIsNotZero(Omega(l - 1), FOLDING_FACTOR, p);
      }
    }

    lemma PointIsNotZero(l: nat, v: nat, p: nat)
      requires IsPrime(p) && !Zero(omega, p) && !Zero(offset, p)
      ensures !Zero(Point(offset, Omega(l), v), p)
    {
      OmegaIsNotZero(l, p);
      PowerIsNotZero(Omega(l), v, p);
      if Zero(Pow(Omega(l), v) * offset, p) { ZeroProduct(Pow(Omega(l), v), offset, p); }
    }
  }

  lemma {:induction false} PowerIsNotZero(w: int, n: nat, p: nat)
    requires IsPrime(p) && !Zero(w, p)
    ensures !Zero(Pow(w, n), p)
  {
    if n == 0 {
      OneIsNotZero(p);
    } else {
      PowerIsNotZero(w, n - 1, p);
      if Zero(w * Pow(w, n - 1), p) { ZeroProduct(w, Pow(w, n - 1), p); }
    }
  }

  /** The interpolation of values on the coset of position `v`, at the layer's alpha, as a field element. */
  ghost function Interpolated(pr: Prover, root: int, l: nat, v: nat, values: seq<int>, p: nat): int
    requires pr.Valid(root, p) && l < |pr.alphas| && |values| == FOLDING_FACTOR
  {
    var x := Point(pr.offset, pr.Omega(l), v);
    pr.PointIsNotZero(l, v, p);
    CosetDistinct(root, x, p);
    LagrangeEval(values, Coset(root, x), pr.alphas[l], p) % p
  }

  /** The verifier interpolates, and the proofs hold the prover's values and open. */
  ghost predicate Honest(c: Setting, source: Source, pr: Prover, root: int, p: nat)
    requires pr.Valid(root, p) && c.layers == |pr.alphas|
  {
    && (forall l: nat, v: nat, values: seq<int> :: l < c.layers && |values| == FOLDING_FACTOR ==>
          c.fold(l, v, values) == Interpolated(pr, root, l, v, values, p))
    && (forall l: nat, v: nat :: l < c.layers ==>
          source.values(l, v) == CosetValues(pr.Layer(l), root, Point(pr.offset, pr.Omega(l), v), p))
    && (forall l: nat, v: nat :: l < c.layers ==> c.opens(l, v, source.Proof(l, v)))
  }

  /** The entries claim the prover's evaluations in layer `l`, at positions below `size`. */
  ghost predicate Claims(pr: Prover, l: nat, entries: seq<Entry>, size: nat, p: nat)
    requires p > 0 && l <= |pr.alphas|
  {
    forall e :: e in entries ==> e.position < size && e.evaluation == pr.Evaluation(l, e.position, p)
  }

  lemma Split(position: nat, m: nat, k: nat)
    requires m > 0 && position < k * m
    ensures 0 <= position / m < k && position == m * (position / m) + position % m
  {
    if position / m >= k { Ordered(m, k, position / m); }
  }

  lemma PointProduct(g: int, w: int, m: nat, q: nat, v: nat)
    ensures Pow(Pow(w, m), q) * (Pow(w, v) * g) == Pow(w, m * q + v) * g
  {
    hide Pow;
    PowAdd(w, m * q, v);
    PowMul(w, m, q);
    assert Pow(w, m * q) * (Pow(w, v) * g) == (Pow(w, m * q) * Pow(w, v)) * g;
  }

  /** The point of a position lies on the coset of the folded position. */
  lemma PointOnCoset(g: int, w: int, position: nat, m: nat, root: int)
    requires m > 0 && position < FOLDING_FACTOR * m && Pow(w, m) == root
    ensures 0 <= position / m < FOLDING_FACTOR
    ensures Coset(root, Point(g, w, position % m))[position / m] == Point(g, w, position)
  {
    hide Pow;
    Split(position, m, FOLDING_FACTOR);
    PointProduct(g, w, m, position / m, position % m);
  }

  /** A layer's entries are among their proofs' values. */
  lemma LayerContains(c: Setting, source: Source, pr: Prover, root: int, l: nat, incoming: seq<Entry>, m: nat, p: nat)
    requires pr.Valid(root, p) && c.layers == |pr.alphas| && Honest(c, source, pr, root, p) && l < c.layers && m > 0
    requires Claims(pr, l, incoming, FOLDING_FACTOR * m, p) && Pow(pr.Omega(l), m) == root
    ensures forall e :: e in FoldEntries(incoming, m) ==>
      e.position < m && EntryHolds(c, l, e, source.Proof(l, e.position))
  {
    hide Pow, Eval, FoldEntries;
    forall e | e in FoldEntries(incoming, m)
      ensures e.position < m && EntryHolds(c, l, e, source.Proof(l, e.position))
    {
      var origin := FoldedFrom(incoming, m, e);
      PointOnCoset(pr.offset, pr.Omega(l), origin.position, m, root);
      assert source.values(l, e.position)[origin.position / m] == e.evaluation;
    }
  }

  /** What a layer claims about the next one are the next layer's evaluations. */
  lemma LayerAdvances(c: Setting, source: Source, pr: Prover, root: int, l: nat, v: nat, p: nat)
    requires pr.Valid(root, p) && c.layers == |pr.alphas| && Honest(c, source, pr, root, p) && l < c.layers
    ensures c.fold(l, v, source.values(l, v)) == pr.Evaluation(l + 1, v, p)
  {
    hide Pow, Eval, LagrangeEval, NextPolynomial, FoldPolynomial, Zero;
    var x, f, alpha := Point(pr.offset, pr.Omega(l), v), pr.Layer(l), pr.alphas[l];
    assert |f| % FOLDING_FACTOR == 0;
    pr.PointIsNotZero(l, v, p);
    FoldingStep(f, root, x, alpha, p);
    NextPoint(f, alpha, pr.offset, pr.Omega(l), v);
    SameResidue(LagrangeEval(CosetValues(f, root, x, p), Coset(root, x), alpha, p),
                Eval(FoldPolynomial(f, alpha), Pow(x, FOLDING_FACTOR)), p);
  }

  lemma ClaimsAdvance(c: Setting, source: Source, pr: Prover, root: int, l: nat, s: seq<Entry>, m: nat, p: nat)
    requires pr.Valid(root, p) && c.layers == |pr.alphas| && Honest(c, source, pr, root, p) && l < c.layers
    requires forall e :: e in s ==> e.position < m
    ensures Claims(pr, l + 1, AdvanceBy(c, source, l, s), m, p)
  {
    hide Honest;
    var r := AdvanceBy(c, source, l, s);
    forall e | e in r ensures e.position < m && e.evaluation == pr.Evaluation(l + 1, e.position, p) {
      var i :| 0 <= i < |s| && e == r[i];
      assert s[i] in s;
      LayerAdvances(c, source, pr, root, l, s[i].position, p);
    }
  }

  /** The remainders hold the last layer's evaluations. */
  ghost predicate Remainders(c: Setting, pr: Prover, size: nat, p: nat)
    requires p > 0
  {
    forall v: nat :: v < size ==> pr.Evaluation(|pr.alphas|, v, p) in c.remainders
  }

  lemma {:induction false} HonestFrom(c: Setting, source: Source, pr: Prover, root: int, l: nat, incoming: seq<Entry>,
                                      size: nat, p: nat)
    requires pr.Valid(root, p) && c.layers == |pr.alphas| && Honest(c, source, pr, root, p) && l <= c.layers
    requires Moduli(size / FOLDING_FACTOR, c.layers - l) && Claims(pr, l, incoming, size, p)
    requires l < c.layers ==> size % FOLDING_FACTOR == 0 && Pow(pr.Omega(l), size / FOLDING_FACTOR) == root
    requires Remainders(c, pr, LastModulus(size, c.layers - l), p)
    ensures ByPosition(c, source, l, incoming, size / FOLDING_FACTOR)
    decreases c.layers - l
  {
    hide Honest, FoldEntries, AdvanceBy, EntryHolds, Claims, Pow;
    if l == c.layers {
      assert forall e :: e in incoming ==> e.evaluation in c.remainders by { LastClaims(c, pr, incoming, size, p); }
    } else {
      var m := size / FOLDING_FACTOR;
      LayerContains(c, source, pr, root, l, incoming, m, p);
      ClaimsAdvance(c, source, pr, root, l, FoldEntries(incoming, m), m, p);
      if l + 1 < c.layers {
        assert m == FOLDING_FACTOR * (m / FOLDING_FACTOR);
        PowMul(pr.Omega(l), FOLDING_FACTOR, m / FOLDING_FACTOR);
      }
      HonestFrom(c, source, pr, root, l + 1, AdvanceBy(c, source, l, FoldEntries(incoming, m)), m, p);
    }
  }

  lemma LastClaims(c: Setting, pr: Prover, incoming: seq<Entry>, size: nat, p: nat)
    requires p > 0 && Claims(pr, |pr.alphas|, incoming, size, p) && Remainders(c, pr, size, p)
    ensures forall e :: e in incoming ==> e.evaluation in c.remainders
  {
  }

  /**
    All queries of an honest prover pass, in the verifier that follows them one by one with the proofs
    stored in the parser's order.
  */
  lemma HonestQueriesPass(c: Setting, source: Source, pr: Prover, domainSize: nat, positions: seq<nat>,
                          queryEvaluations: seq<int>, p: nat)
    requires c.Complete() && c.layers > 0 && |positions| == |queryEvaluations|
    requires domainSize % FOLDING_FACTOR == 0 && Moduli(domainSize / FOLDING_FACTOR, c.layers)
    requires var root := Pow(pr.omega, domainSize / FOLDING_FACTOR);
      pr.Valid(root, p) && c.layers == |pr.alphas| && Honest(c, source, pr, root, p)
    requires forall i :: 0 <= i < |positions| ==>
      positions[i] < domainSize && queryEvaluations[i] == pr.Evaluation(0, positions[i], p)
    requires Remainders(c, pr, LastModulus(domainSize, c.layers), p)
    requires ProofsFrom(c, source, 0, positions, domainSize / FOLDING_FACTOR)
    ensures BreadthFirst(c, 0, Queries(positions, queryEvaluations), domainSize / FOLDING_FACTOR)
  {
    hide Honest, ByPosition, BreadthFirst, Remainders;
    var queries, m := Queries(positions, queryEvaluations), domainSize / FOLDING_FACTOR;
    HonestFrom(c, source, pr, Pow(pr.omega, m), 0, queries, domainSize, p);
    ProofsAreOwn(c, source, 0, queries, m);
  }
}
