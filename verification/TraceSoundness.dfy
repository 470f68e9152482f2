/**
  A whole trace: if the constraints hold on every pair of rows, and the accesses of its active rows are among
  the sorted ones, then the trace is an execution of the Cairo machine over one read-only memory. The sorted
  columns also hold the public memory, in place of as many accesses to address 0; the running product over
  both ends with the value that the verifier computes from the public memory.
*/
module TraceSoundness {
  import opened Wrappers
  import opened Arithmetic
  import opened StarkPrime
  import opened Field
  import opened AirConstraints
  import opened AuxConstraints
  import opened SortedColumns
  import opened CairoMachine
  import opened CpuAir

  datatype Trace = Trace(main: seq<seq<int>>, aux: seq<seq<int>>)

  predicate Shaped(t: Trace) {
    0 < |t.main| == |t.aux| && Rows(t.main, TRACE_WIDTH) && Rows(t.aux, AUX_WIDTH)
  }

  function MainAt(t: Trace, i: nat): Frame
    requires Shaped(t) && i + 1 < |t.main|
  {
    Frame(t.main[i], t.main[i + 1])
  }

  function AuxAt(t: Trace, i: nat): Frame
    requires Shaped(t) && i + 1 < |t.main|
  {
    Frame(t.aux[i], t.aux[i + 1])
  }

  ghost predicate MemoryHolds(t: Trace, z: int, alpha: int, p: nat)
    requires p > 0 && Shaped(t)
  {
    forall i: nat :: i + 1 < |t.main| ==> AllZero(MemoryConstraints(MainAt(t, i), AuxAt(t, i), z, alpha), p)
  }

  ghost predicate RangeChecksHold(t: Trace, z: int, p: nat)
    requires p > 0 && Shaped(t)
  {
    forall i: nat :: i + 1 < |t.main| ==> AllZero(RangeCheckConstraints(MainAt(t, i), AuxAt(t, i), z), p)
  }

  function Addresses(t: Trace): seq<int>
    requires Shaped(t)
  {
    Flat(t.main, MEM_A, 4)
  }

  function Values(t: Trace): (v: seq<int>)
    requires Shaped(t)
    ensures |v| == |Addresses(t)|
  {
    Flat(t.main, MEM_V, 4)
  }

  function SortedAddresses(t: Trace): (a: seq<int>)
    requires Shaped(t)
    ensures |a| == |Addresses(t)|
  {
    Flat(t.aux, A_M_PRIME, 4)
  }

  function SortedValues(t: Trace): (v: seq<int>)
    requires Shaped(t)
    ensures |v| == |Addresses(t)|
  {
    Flat(t.aux, V_M_PRIME, 4)
  }

  function Factors(z: int, alpha: int, A: seq<int>, V: seq<int>): (s: seq<int>)
    requires |A| == |V|
    ensures |s| == |A|
  {
    seq(|A|, j requires 0 <= j < |A| => z - (A[j] + alpha * V[j]))
  }

  function Shifted(z: int, A: seq<int>): (s: seq<int>)
    ensures |s| == |A|
  {
    seq(|A|, j requires 0 <= j < |A| => z - A[j])
  }

  // ------------------------------------------------------------------------
  // From row pairs to columns
  // ------------------------------------------------------------------------

  /** What constraints `k` of rows `i` and `i + 1` say about entries `4 * i + k` and the next one. */
  lemma MemoryEntry(t: Trace, z: int, alpha: int, p: nat, j: nat)
    requires p > 0 && Shaped(t) && MemoryHolds(t, z, alpha, p) && j + 1 < |Addresses(t)|
    ensures var A, V := SortedAddresses(t), SortedValues(t);
      && Zero((A[j + 1] - A[j]) * (A[j + 1] - A[j] - 1), p)
      && Zero((V[j + 1] - V[j]) * (A[j + 1] - A[j] - 1), p)
  {
    hide Flat, GetVirtual, Zero;
    var i, k := j / 4, j % 4;
    assert j == 4 * i + k && i + 1 < |t.main|;
    var c := MemoryConstraints(MainAt(t, i), AuxAt(t, i), z, alpha);
    assert AllZero(c, p);
    assert Zero(c[k], p) && Zero(c[4 + k], p);
    VirtualIsFlat(t.aux, i, k, A_M_PRIME, 4);
    VirtualIsFlat(t.aux, i, k + 1, A_M_PRIME, 4);
    VirtualIsFlat(t.aux, i, k, V_M_PRIME, 4);
    VirtualIsFlat(t.aux, i, k + 1, V_M_PRIME, 4);
  }

  /** The constraint on the running product, in terms of what it reads. */
  lemma ProductConstraint(main: Frame, aux: Frame, z: int, alpha: int, k: nat)
    requires MainFrame(main) && AuxFrame(aux) && k < 4
    ensures MemoryConstraints(main, aux, z, alpha)[8 + k]
            == (z - (GetVirtual(aux, k + 1, A_M_PRIME, 4) + alpha * GetVirtual(aux, k + 1, V_M_PRIME, 4)))
               * GetVirtual(aux, k + 1, P_M, 4)
               - (z - (GetVirtual(main, k + 1, MEM_A, 4) + alpha * GetVirtual(main, k + 1, MEM_V, 4)))
               * GetVirtual(aux, k, P_M, 4)
  {
    hide GetVirtual;
  }

  lemma ProductEntry(t: Trace, z: int, alpha: int, p: nat, j: nat)
    requires p > 0 && Shaped(t) && MemoryHolds(t, z, alpha, p) && j + 1 < |Addresses(t)|
    ensures var S, U, Q := Factors(z, alpha, SortedAddresses(t), SortedValues(t)),
                           Factors(z, alpha, Addresses(t), Values(t)), Flat(t.aux, P_M, 4);
      Zero(S[j + 1] * Q[j + 1] - U[j + 1] * Q[j], p)
  {
    hide Flat, GetVirtual, Zero, MemoryConstraints;
    var i, k := j / 4, j % 4;
    assert j == 4 * i + k && i + 1 < |t.main|;
    var c := MemoryConstraints(MainAt(t, i), AuxAt(t, i), z, alpha);
    assert AllZero(c, p);
    assert Zero(c[8 + k], p);
    ProductConstraint(MainAt(t, i), AuxAt(t, i), z, alpha, k);
    VirtualIsFlat(t.aux, i, k + 1, A_M_PRIME, 4);
    VirtualIsFlat(t.aux, i, k + 1, V_M_PRIME, 4);
    VirtualIsFlat(t.aux, i, k, P_M, 4);
    VirtualIsFlat(t.aux, i, k + 1, P_M, 4);
    VirtualIsFlat(t.main, i, k + 1, MEM_A, 4);
    VirtualIsFlat(t.main, i, k + 1, MEM_V, 4);
  }

  /** The memory constraints on every row pair, as statements about the flattened columns. */
  lemma MemoryColumns(t: Trace, z: int, alpha: int, p: nat)
    requires p > 0 && Shaped(t) && MemoryHolds(t, z, alpha, p)
    ensures Continuous(SortedAddresses(t), p) && ValuesStay(SortedAddresses(t), SortedValues(t), p)
  {
    hide Flat, MemoryHolds, Zero, SortedAddresses, SortedValues, Addresses;
    forall j: nat | j + 1 < |Addresses(t)|
      ensures var A, V := SortedAddresses(t), SortedValues(t);
        && Zero((A[j + 1] - A[j]) * (A[j + 1] - A[j] - 1), p)
        && Zero((V[j + 1] - V[j]) * (A[j + 1] - A[j] - 1), p)
    {
      MemoryEntry(t, z, alpha, p, j);
    }
  }

  lemma ProductColumn(t: Trace, z: int, alpha: int, p: nat)
    requires p > 0 && Shaped(t) && MemoryHolds(t, z, alpha, p)
    ensures RunningProduct(Factors(z, alpha, SortedAddresses(t), SortedValues(t)),
                           Factors(z, alpha, Addresses(t), Values(t)), Flat(t.aux, P_M, 4), p)
  {
    hide Flat, MemoryHolds, Factors, Zero, SortedAddresses, SortedValues, Values;
    forall j: nat | j + 1 < |Addresses(t)|
      ensures var S, U, Q := Factors(z, alpha, SortedAddresses(t), SortedValues(t)),
                             Factors(z, alpha, Addresses(t), Values(t)), Flat(t.aux, P_M, 4);
        Zero(S[j + 1] * Q[j + 1] - U[j + 1] * Q[j], p)
    {
      ProductEntry(t, z, alpha, p, j);
    }
  }

  lemma RangeCheckEntry(t: Trace, z: int, p: nat, j: nat)
    requires p > 0 && Shaped(t) && RangeChecksHold(t, z, p) && j + 1 < |Flat(t.aux, A_RC_PRIME, 3)|
    ensures var A, Q, B := Flat(t.aux, A_RC_PRIME, 3), Flat(t.aux, P_RC, 3), Flat(t.main, OFF_X, 3);
      && Zero((A[j + 1] - A[j]) * (A[j + 1] - A[j] - 1), p)
      && Zero(Shifted(z, A)[j + 1] * Q[j + 1] - Shifted(z, B)[j + 1] * Q[j], p)
  {
    hide Flat, GetVirtual, Zero;
    var i, k := j / 3, j % 3;
    assert j == 3 * i + k && i + 1 < |t.main|;
    var c := RangeCheckConstraints(MainAt(t, i), AuxAt(t, i), z);
    assert AllZero(c, p);
    assert Zero(c[k], p) && Zero(c[3 + k], p);
    VirtualIsFlat(t.aux, i, k, A_RC_PRIME, 3);
    VirtualIsFlat(t.aux, i, k + 1, A_RC_PRIME, 3);
    VirtualIsFlat(t.aux, i, k, P_RC, 3);
    VirtualIsFlat(t.aux, i, k + 1, P_RC, 3);
    VirtualIsFlat(t.main, i, k + 1, OFF_X, 3);
  }

  lemma RangeCheckColumns(t: Trace, z: int, p: nat)
    requires p > 0 && Shaped(t) && RangeChecksHold(t, z, p)
    ensures Continuous(Flat(t.aux, A_RC_PRIME, 3), p)
    ensures RunningProduct(Shifted(z, Flat(t.aux, A_RC_PRIME, 3)), Shifted(z, Flat(t.main, OFF_X, 3)),
                           Flat(t.aux, P_RC, 3), p)
  {
    hide Flat, RangeChecksHold, Shifted, Zero;
    forall j: nat | j + 1 < |Flat(t.aux, A_RC_PRIME, 3)|
      ensures var A, Q, B := Flat(t.aux, A_RC_PRIME, 3), Flat(t.aux, P_RC, 3), Flat(t.main, OFF_X, 3);
        && Zero((A[j + 1] - A[j]) * (A[j + 1] - A[j] - 1), p)
        && Zero(Shifted(z, A)[j + 1] * Q[j + 1] - Shifted(z, B)[j + 1] * Q[j], p)
    {
      RangeCheckEntry(t, z, p, j);
    }
  }

  /**
    The running product over the whole trace: its last value times all sorted factors is its first value
    times all unsorted factors.
  */
  lemma MemoryProductTelescopes(t: Trace, z: int, alpha: int, p: nat)
    requires p > 0 && Shaped(t) && MemoryHolds(t, z, alpha, p)
    ensures var n, Q := |Addresses(t)| - 1, Flat(t.aux, P_M, 4);
      Zero(Q[n] * Product(Factors(z, alpha, SortedAddresses(t), SortedValues(t))[1..])
           - Q[0] * Product(Factors(z, alpha, Addresses(t), Values(t))[1..]), p)
  {
    hide Flat, MemoryHolds, Zero, Factors;
    var S, U := Factors(z, alpha, SortedAddresses(t), SortedValues(t)), Factors(z, alpha, Addresses(t), Values(t));
    var n := |Addresses(t)| - 1;
    ProductColumn(t, z, alpha, p);
    Telescopes(S, U, Flat(t.aux, P_M, 4), n, p);
    assert S[1..n + 1] == S[1..] && U[1..n + 1] == U[1..];
  }

  // ------------------------------------------------------------------------
  // The public memory
  // ------------------------------------------------------------------------

  /** The sorted columns hold the accesses, with the public memory in place of as many accesses of 0 at 0. */
  predicate WithPublic(t: Trace, pub: seq<(int, int)>)
    requires Shaped(t)
  {
    multiset(Pairs(Addresses(t), Values(t)) + pub)
    == multiset(Pairs(SortedAddresses(t), SortedValues(t)) + Dummies(|pub|))
  }

  function Dummies(n: nat): (s: seq<(int, int)>)
    ensures |s| == n
  {
    seq(n, _ => (0, 0))
  }

  /** All factors of the accesses and the public memory, and of the sorted columns and the dummies. */
  lemma PublicProducts(t: Trace, pub: seq<(int, int)>, z: int, alpha: int)
    requires Shaped(t) && WithPublic(t, pub)
    ensures Product(Factors(z, alpha, Addresses(t), Values(t))) * Product(FactorsOf(pub, z, alpha))
            == Product(Factors(z, alpha, SortedAddresses(t), SortedValues(t))) * Pow(z, |pub|)
  {
    hide Product, Factors, FactorsOf, Dummies, Pow, Flat;
    var s, r := Pairs(Addresses(t), Values(t)), Pairs(SortedAddresses(t), SortedValues(t));
    PermutedMap(s + pub, r + Dummies(|pub|), z, alpha);
    PermutedProducts(FactorsOf(s + pub, z, alpha), FactorsOf(r + Dummies(|pub|), z, alpha));
    FactorsOfConcat(s, pub, z, alpha);
    FactorsOfConcat(r, Dummies(|pub|), z, alpha);
    ProductConcat(FactorsOf(s, z, alpha), FactorsOf(pub, z, alpha));
    ProductConcat(FactorsOf(r, z, alpha), FactorsOf(Dummies(|pub|), z, alpha));
    MappedFactors(z, alpha, Addresses(t), Values(t));
    MappedFactors(z, alpha, SortedAddresses(t), SortedValues(t));
    DummyProduct(|pub|, z, alpha);
  }

  lemma {:induction false} DummyProduct(n: nat, z: int, alpha: int)
    ensures Product(FactorsOf(Dummies(n), z, alpha)) == Pow(z, n)
  {
    if n > 0 {
      DummyProduct(n - 1, z, alpha);
      assert FactorsOf(Dummies(n), z, alpha)[1..] == FactorsOf(Dummies(n - 1), z, alpha);
      assert FactorsOf(Dummies(n), z, alpha)[0] == z - (0 + alpha * 0) == z;
    }
  }

  /**
    What the last running product says about the public memory: it is z^n over the product of the n public
    factors if and only if all factors together multiply to the same on both sides.
  */
  lemma MemoryProductExactly(t: Trace, pub: seq<(int, int)>, z: int, alpha: int, p: nat)
    requires IsPrime(p) && Shaped(t) && MemoryHolds(t, z, alpha, p)
    requires var S := Factors(z, alpha, SortedAddresses(t), SortedValues(t));
      var U := Factors(z, alpha, Addresses(t), Values(t));
      Zero(S[0] * Flat(t.aux, P_M, 4)[0] - U[0], p) && !Zero(Product(S), p)
    ensures var last := Flat(t.aux, P_M, 4)[|Addresses(t)| - 1];
      Zero(last * Product(FactorsOf(pub, z, alpha)) - Pow(z, |pub|), p)
      <==> Zero(Product(Factors(z, alpha, Addresses(t), Values(t))) * Product(FactorsOf(pub, z, alpha))
                - Product(Factors(z, alpha, SortedAddresses(t), SortedValues(t))) * Pow(z, |pub|), p)
  {
    hide Flat, MemoryHolds, Zero, Product, Pow, FactorsOf;
    ProductColumn(t, z, alpha, p);
    ProductEnds(Factors(z, alpha, SortedAddresses(t), SortedValues(t)),
                Factors(z, alpha, Addresses(t), Values(t)), Flat(t.aux, P_M, 4), p);
    CrossMultiplied(Flat(t.aux, P_M, 4)[|Addresses(t)| - 1],
                    Product(Factors(z, alpha, SortedAddresses(t), SortedValues(t))),
                    Product(Factors(z, alpha, Addresses(t), Values(t))), Product(FactorsOf(pub, z, alpha)),
                    Pow(z, |pub|), p);
  }

  /** With the public memory among the sorted columns, the last running product is what the verifier asks for. */
  lemma MemoryProductCloses(t: Trace, pub: seq<(int, int)>, z: int, alpha: int, p: nat)
    requires IsPrime(p) && Shaped(t) && MemoryHolds(t, z, alpha, p) && WithPublic(t, pub)
    requires var S := Factors(z, alpha, SortedAddresses(t), SortedValues(t));
      var U := Factors(z, alpha, Addresses(t), Values(t));
      Zero(S[0] * Flat(t.aux, P_M, 4)[0] - U[0], p) && !Zero(Product(S), p)
    ensures Zero(Flat(t.aux, P_M, 4)[|Addresses(t)| - 1] * Product(FactorsOf(pub, z, alpha)) - Pow(z, |pub|), p)
  {
    hide Flat, MemoryHolds, WithPublic, Zero, Product, Pow, Factors, FactorsOf;
    MemoryProductExactly(t, pub, z, alpha, p);
    PublicProducts(t, pub, z, alpha);
    NoDifference(p);
  }

  lemma NoDifference(p: nat)
    requires p > 0
    ensures Zero(0, p)
  {
    ZeroIs(0, 0, p);
  }

  /** `reduce_pub_mem`: fails exactly if a factor vanishes, and otherwise divides z^n by all of them. */
  ghost method ReducePubMem(pub: seq<(int, int)>, z: int, alpha: int, p: nat) returns (r: Option<int>)
    requires IsPrime(p)
    ensures r.None? <==> Zero(Product(FactorsOf(pub, z, alpha)), p)
    ensures r.Some? ==> Zero(r.value * Product(FactorsOf(pub, z, alpha)) - Pow(z, |pub|), p)
  {
    hide Zero, Pow, Inverse;
    NoFactors(z, alpha, p);
    if |pub| == 0 { return Some(1); }
    var res := Pow(z, |pub|);
    var i := 0;
    ghost var done := [];
    while i < |pub|
      invariant 0 <= i <= |pub| && done == FactorsOf(pub[..i], z, alpha) && !Zero(Product(done), p)
      invariant Zero(res * Product(done) - Pow(z, |pub|), p)
    {
      var expr := z - (pub[i].0 + alpha * pub[i].1);
      NextFactor(pub, i, z, alpha);
      if Zero(expr, p) {
        FactorVanishes(FactorsOf(pub, z, alpha), i, p);
        return None;
      }
      if Zero(Product(done) * expr, p) { ZeroProduct(Product(done), expr, p); }
      Divided(res, expr, Product(done), Pow(z, |pub|), p);
      res := Divide(res, expr, p);
      done := done + [expr];
      i := i + 1;
    }
    assert pub[..i] == pub;
    r := Some(res);
  }

  lemma NoFactors(z: int, alpha: int, p: nat)
    requires IsPrime(p)
    ensures FactorsOf([], z, alpha) == [] && Product([]) == 1 == Pow(z, 0) && !Zero(1, p) && Zero(0, p)
  {
    OneIsNotZero(p);
    ZeroIs(0, 0, p);
  }

  lemma NextFactor(pub: seq<(int, int)>, i: nat, z: int, alpha: int)
    requires i < |pub|
    ensures var expr := z - (pub[i].0 + alpha * pub[i].1);
      && FactorsOf(pub[..i + 1], z, alpha) == FactorsOf(pub[..i], z, alpha) + [expr]
      && FactorsOf(pub, z, alpha)[i] == expr
      && Product(FactorsOf(pub[..i + 1], z, alpha)) == Product(FactorsOf(pub[..i], z, alpha)) * expr
  {
    ProductAppend(FactorsOf(pub[..i], z, alpha), z - (pub[i].0 + alpha * pub[i].1));
  }

  function FactorsOf(s: seq<(int, int)>, z: int, alpha: int): (r: seq<int>)
    ensures |r| == |s|
  {
    seq(|s|, j requires 0 <= j < |s| => z - (s[j].0 + alpha * s[j].1))
  }

  lemma MappedFactors(z: int, alpha: int, A: seq<int>, V: seq<int>)
    requires |A| == |V|
    ensures Factors(z, alpha, A, V) == FactorsOf(Pairs(A, V), z, alpha)
  {
  }

  /** The factors of permuted accesses are permuted. */
  lemma {:induction false} PermutedMap(s: seq<(int, int)>, t: seq<(int, int)>, z: int, alpha: int)
    requires multiset(s) == multiset(t)
    ensures multiset(FactorsOf(s, z, alpha)) == multiset(FactorsOf(t, z, alpha))
    decreases |s|
  {
    if s == [] {
      EmptyPermutation(t);
    } else {
      hide FactorsOf;
      var k := TakeOut(s, t);
      var first, a, b := [s[0]], t[..k], t[k + 1..];
      PermutedMap(s[1..], a + b, z, alpha);
      FactorsOfConcat(first, s[1..], z, alpha);
      FactorsOfConcat(a, first + b, z, alpha);
      FactorsOfConcat(first, b, z, alpha);
      FactorsOfConcat(a, b, z, alpha);
      assert s == first + s[1..];
    }
  }

  lemma FactorsOfConcat(s: seq<(int, int)>, t: seq<(int, int)>, z: int, alpha: int)
    ensures FactorsOf(s + t, z, alpha) == FactorsOf(s, z, alpha) + FactorsOf(t, z, alpha)
  {
  }

  /** Equal addresses carry equal values anywhere in the sorted columns of a trace shorter than the field. */
  lemma SortedMemoryIsSingleValued(t: Trace, z: int, alpha: int, i: nat, j: nat, p: nat)
    requires IsPrime(p) && Shaped(t) && MemoryHolds(t, z, alpha, p) && |Addresses(t)| <= p
    requires i < |Addresses(t)| && j < |Addresses(t)| && Zero(SortedAddresses(t)[i] - SortedAddresses(t)[j], p)
    ensures Zero(SortedValues(t)[i] - SortedValues(t)[j], p)
  {
    hide Flat, MemoryHolds, Zero;
    MemoryColumns(t, z, alpha, p);
    var A, V := SortedAddresses(t), SortedValues(t);
    ZeroMultiple(A[i] - A[j], -1, p);
    if j <= i {
      SingleValued(A, V, j, i, p);
    } else {
      SingleValued(A, V, i, j, p);
      ZeroMultiple(V[j] - V[i], -1, p);
    }
  }

  // ------------------------------------------------------------------------
  // The trace is an execution
  // ------------------------------------------------------------------------

  function Pairs(A: seq<int>, V: seq<int>): (s: seq<(int, int)>)
    requires |A| == |V|
    ensures |s| == |A|
  {
    seq(|A|, j requires 0 <= j < |A| => (A[j], V[j]))
  }

  predicate AllInField(s: seq<int>, p: nat) {
    forall j :: 0 <= j < |s| ==> 0 <= s[j] < p
  }

  /** Access `k` of row `i` is among the sorted ones. */
  predicate AccessSorted(t: Trace, i: nat, k: nat)
    requires Shaped(t) && i < |t.main| && k < 4
  {
    (t.main[i][MEM_A + k], t.main[i][MEM_V + k]) in Pairs(SortedAddresses(t), SortedValues(t))
  }

  /** Offset `k` of row `i` is among the sorted ones. */
  predicate OffsetSorted(t: Trace, i: nat, k: nat)
    requires Shaped(t) && i < |t.main| && k < 3
  {
    t.main[i][OFF_X + k] in Flat(t.aux, A_RC_PRIME, 3)
  }

  /** All accesses and offsets of row `i` are among the sorted ones. */
  predicate RowSorted(t: Trace, i: nat)
    requires Shaped(t) && i < |t.main|
  {
    (forall k :: 0 <= k < 4 ==> AccessSorted(t, i, k)) && (forall k :: 0 <= k < 3 ==> OffsetSorted(t, i, k))
  }

  /** The selector does not switch row `i` off. */
  ghost predicate Active(t: Trace, i: nat, p: nat)
    requires p > 0 && Shaped(t) && i < |t.main|
  {
    !Zero(t.main[i][SELECTOR], p)
  }

  predicate Canonicals(t: Trace, p: nat)
    requires Shaped(t)
  {
    && (forall i :: 0 <= i < |t.main| ==> InField(t.main[i], p))
    && AllInField(SortedAddresses(t), p) && AllInField(SortedValues(t), p) && AllInField(Flat(t.aux, A_RC_PRIME, 3), p)
  }

  /** The sorted offsets start and end inside 16 bits. */
  predicate OffsetBounds(t: Trace)
    requires Shaped(t)
  {
    var s := Flat(t.aux, A_RC_PRIME, 3);
    0 <= s[0] <= s[|s| - 1] < 0x1_0000
  }

  /** Sorted entries with the same address hold the same value. */
  lemma SortedPairs(t: Trace, z: int, alpha: int, a: int, v: int, w: int, p: nat)
    requires IsPrime(p) && Shaped(t) && MemoryHolds(t, z, alpha, p) && |Addresses(t)| <= p && Canonicals(t, p)
    requires var r := Pairs(SortedAddresses(t), SortedValues(t));
      (a, v) in r && (a, w) in r
    ensures v == w
  {
    hide Flat, MemoryHolds, Zero, SortedAddresses, SortedValues;
    var r := Pairs(SortedAddresses(t), SortedValues(t));
    var k :| 0 <= k < |r| && r[k] == (a, v);
    var l :| 0 <= l < |r| && r[l] == (a, w);
    NoDifference(p);
    SortedMemoryIsSingleValued(t, z, alpha, k, l, p);
    Canonical(v, w, p);
  }

  /** Two sorted accesses of the trace to the same address see the same value. */
  lemma TraceMemoryIsSingleValued(t: Trace, z: int, alpha: int, i: nat, k: nat, j: nat, l: nat, p: nat)
    requires IsPrime(p) && Shaped(t) && MemoryHolds(t, z, alpha, p) && |Addresses(t)| <= p && Canonicals(t, p)
    requires i < |t.main| && j < |t.main| && k < 4 && l < 4 && AccessSorted(t, i, k) && AccessSorted(t, j, l)
    requires t.main[i][MEM_A + k] == t.main[j][MEM_A + l]
    ensures t.main[i][MEM_V + k] == t.main[j][MEM_V + l]
  {
    hide Flat, MemoryHolds, Canonicals, SortedAddresses, SortedValues;
    SortedPairs(t, z, alpha, t.main[i][MEM_A + k], t.main[i][MEM_V + k], t.main[j][MEM_V + l], p);
  }

  /** A sorted offset of a row lies in 16 bits. */
  lemma OffsetInRange(t: Trace, z: int, i: nat, k: nat, p: nat)
    requires IsPrime(p) && Shaped(t) && RangeChecksHold(t, z, p) && |Addresses(t)| <= p
    requires Canonicals(t, p) && OffsetBounds(t) && i < |t.main| && k < 3 && OffsetSorted(t, i, k)
    ensures 0 <= t.main[i][OFF_X + k] < 0x1_0000
  {
    hide Flat, RangeChecksHold, Zero, Continuous;
    var r := Flat(t.aux, A_RC_PRIME, 3);
    RangeCheckColumns(t, z, p);
    var l :| 0 <= l < |r| && r[l] == t.main[i][OFF_X + k];
    BetweenEnds(r, l, p);
  }

  /** The offsets of a row whose offsets are sorted lie in 16 bits. */
  lemma TraceOffsetsInRange(t: Trace, z: int, i: nat, p: nat)
    requires IsPrime(p) && Shaped(t) && RangeChecksHold(t, z, p) && |Addresses(t)| <= p
    requires Canonicals(t, p) && OffsetBounds(t) && i < |t.main|
    requires forall k :: 0 <= k < 3 ==> OffsetSorted(t, i, k)
    ensures OffsetsInRange(t.main[i])
  {
    hide Flat, RangeChecksHold, Canonicals, OffsetBounds, OffsetSorted;
    OffsetInRange(t, z, i, 0, p);
    OffsetInRange(t, z, i, 1, p);
    OffsetInRange(t, z, i, 2, p);
  }

  /** The memory that the entries spell out. */
  ghost function MemoryOf(A: seq<int>, V: seq<int>): Memory
    requires |A| == |V|
  {
    a => if exists j :: 0 <= j < |A| && A[j] == a then var j :| 0 <= j < |A| && A[j] == a; V[j] else 0
  }

  /** The memory of the sorted columns: all accesses of active rows, and the public memory. */
  ghost function TraceMemory(t: Trace): Memory
    requires Shaped(t)
  {
    MemoryOf(SortedAddresses(t), SortedValues(t))
  }

  lemma MemoryHas(A: seq<int>, V: seq<int>, a: int)
    requires |A| == |V| && exists j :: 0 <= j < |A| && A[j] == a
    ensures (a, MemoryOf(A, V)(a)) in Pairs(A, V)
  {
    var j :| 0 <= j < |A| && A[j] == a && MemoryOf(A, V)(a) == V[j];
    assert Pairs(A, V)[j] == (a, V[j]);
  }

  /** The memory of the trace holds every sorted entry. */
  lemma SortedIsMemory(t: Trace, z: int, alpha: int, a: int, v: int, p: nat)
    requires IsPrime(p) && Shaped(t) && MemoryHolds(t, z, alpha, p) && |Addresses(t)| <= p && Canonicals(t, p)
    requires (a, v) in Pairs(SortedAddresses(t), SortedValues(t))
    ensures TraceMemory(t)(a) == v
  {
    hide Flat, MemoryHolds, Canonicals, SortedAddresses, SortedValues, MemoryOf;
    var r := Pairs(SortedAddresses(t), SortedValues(t));
    var k :| 0 <= k < |r| && r[k] == (a, v);
    MemoryHas(SortedAddresses(t), SortedValues(t), a);
    SortedPairs(t, z, alpha, a, v, TraceMemory(t)(a), p);
  }

  lemma RowAccess(t: Trace, z: int, alpha: int, i: nat, k: nat, p: nat)
    requires IsPrime(p) && Shaped(t) && MemoryHolds(t, z, alpha, p) && |Addresses(t)| <= p && Canonicals(t, p)
    requires i < |t.main| && k < 4 && AccessSorted(t, i, k)
    ensures TraceMemory(t)(t.main[i][MEM_A + k]) == t.main[i][MEM_V + k]
  {
    hide Flat, MemoryHolds, Canonicals, TraceMemory, SortedAddresses, SortedValues, Pairs;
    SortedIsMemory(t, z, alpha, t.main[i][MEM_A + k], t.main[i][MEM_V + k], p);
  }

  lemma TraceMemoryAgrees(t: Trace, z: int, alpha: int, i: nat, p: nat)
    requires IsPrime(p) && Shaped(t) && MemoryHolds(t, z, alpha, p) && |Addresses(t)| <= p && Canonicals(t, p)
    requires i < |t.main| && forall k :: 0 <= k < 4 ==> AccessSorted(t, i, k)
    ensures MemoryAgrees(t.main[i], TraceMemory(t))
  {
    hide Flat, MemoryHolds, Canonicals, TraceMemory, AccessSorted;
    RowAccess(t, z, alpha, i, 0, p);
    RowAccess(t, z, alpha, i, 1, p);
    RowAccess(t, z, alpha, i, 2, p);
    RowAccess(t, z, alpha, i, 3, p);
  }

  // ------------------------------------------------------------------------
  // What a permutation with the public memory gives
  // ------------------------------------------------------------------------

  /** Except for 0 at address 0, the sorted columns hold every access and the public memory. */
  lemma PublicSorted(t: Trace, pub: seq<(int, int)>, entry: (int, int))
    requires Shaped(t) && WithPublic(t, pub) && entry in Pairs(Addresses(t), Values(t)) + pub && entry != (0, 0)
    ensures entry in Pairs(SortedAddresses(t), SortedValues(t))
  {
    hide Flat, Addresses, Values, SortedAddresses, SortedValues;
    var s, r := Pairs(Addresses(t), Values(t)) + pub, Pairs(SortedAddresses(t), SortedValues(t));
    assert entry in multiset(s);
    assert entry in multiset(r + Dummies(|pub|));
  }

  lemma AccessIsSorted(t: Trace, pub: seq<(int, int)>, i: nat, k: nat)
    requires Shaped(t) && WithPublic(t, pub) && i + 1 < |t.main| && k < 4
    requires (t.main[i][MEM_A + k], t.main[i][MEM_V + k]) != (0, 0)
    ensures AccessSorted(t, i, k)
  {
    hide Flat, WithPublic;
    FlatAt(t.main, MEM_A, 4, i, k);
    FlatAt(t.main, MEM_V, 4, i, k);
    var s := Pairs(Addresses(t), Values(t));
    assert s[4 * i + k] == (t.main[i][MEM_A + k], t.main[i][MEM_V + k]);
    PublicSorted(t, pub, s[4 * i + k]);
  }

  /** The memory of the trace holds the public memory, and with it the program. */
  lemma PublicIsMemory(t: Trace, pub: seq<(int, int)>, z: int, alpha: int, j: nat, p: nat)
    requires IsPrime(p) && Shaped(t) && MemoryHolds(t, z, alpha, p) && |Addresses(t)| <= p && Canonicals(t, p)
    requires WithPublic(t, pub) && j < |pub| && pub[j] != (0, 0)
    ensures TraceMemory(t)(pub[j].0) == pub[j].1
  {
    hide Flat, MemoryHolds, Canonicals, WithPublic, TraceMemory, Addresses, SortedAddresses, SortedValues, Values;
    PublicSorted(t, pub, pub[j]);
    SortedIsMemory(t, z, alpha, pub[j].0, pub[j].1, p);
  }

  // ------------------------------------------------------------------------
  // Runs
  // ------------------------------------------------------------------------

  /** The constraints on the main columns, each scaled by the row's selector. */
  ghost predicate MainHolds(t: Trace, p: nat)
    requires p > 0 && Shaped(t)
  {
    forall i: nat :: i + 1 < |t.main| ==> AllZero(EvaluateTransition(MainAt(t, i)), p)
  }

  /**
    A trace on which all constraints hold is an execution: over the one memory that the sorted columns spell
    out, the registers of each active and sorted row lead to the next row's, wherever the machine's step is defined.
  */
  lemma TraceIsExecution(t: Trace, z: int, alpha: int, zRange: int, i: nat, p: nat)
    requires IsPrime(p) && p > WORD_LIMIT && Shaped(t) && |Addresses(t)| <= p && Canonicals(t, p)
    requires MainHolds(t, p) && MemoryHolds(t, z, alpha, p) && RangeChecksHold(t, zRange, p)
    requires OffsetBounds(t) && i + 1 < |t.main| && Active(t, i, p) && RowSorted(t, i)
    ensures Step(TraceMemory(t), RegistersOf(t.main[i]), p) in {Undefined, Next(RegistersOf(t.main[i + 1]))}
  {
    hide Flat, MemoryHolds, RangeChecksHold, OffsetBounds, AccessSorted, OffsetSorted, Zero, EvaluateTransition, Step,
         AllZero;
    if Step(TraceMemory(t), RegistersOf(t.main[i]), p) != Undefined {
      TraceMemoryAgrees(t, z, alpha, i, p);
      TraceOffsetsInRange(t, zRange, i, p);
      CpuSoundness(MainAt(t, i), TraceMemory(t), p);
    }
  }

  /** The registers after `n` steps, as long as they are defined and succeed. */
  function StepsFrom(m: Memory, r: Registers, n: nat, p: nat): Outcome
    requires p > 0
  {
    if n == 0 then Next(r)
    else match StepsFrom(m, r, n - 1, p)
      case Next(s) => Step(m, s, p)
      case other => other
  }

  /** The run reaches every row up to the first that is switched off or not sorted, unless a step is undefined. */
  lemma {:induction false} TraceIsRun(t: Trace, z: int, alpha: int, zRange: int, n: nat, p: nat)
    requires IsPrime(p) && p > WORD_LIMIT && Shaped(t) && |Addresses(t)| <= p && Canonicals(t, p)
    requires MainHolds(t, p) && MemoryHolds(t, z, alpha, p) && RangeChecksHold(t, zRange, p)
    requires OffsetBounds(t) && n < |t.main| && forall i :: 0 <= i < n ==> Active(t, i, p) && RowSorted(t, i)
    ensures StepsFrom(TraceMemory(t), RegistersOf(t.main[0]), n, p) in {Undefined, Next(RegistersOf(t.main[n]))}
  {
    hide Flat, MemoryHolds, RangeChecksHold, OffsetBounds, RowSorted, MainHolds, Canonicals, Step;
    if n > 0 {
      TraceIsRun(t, z, alpha, zRange, n - 1, p);
      TraceIsExecution(t, z, alpha, zRange, n - 1, p);
    }
  }

  /** The same in the STARK field, whose modulus is a prime above every instruction word. */
  lemma StarkTraceIsRun(t: Trace, z: int, alpha: int, zRange: int, n: nat)
    requires Shaped(t) && |Addresses(t)| <= P && Canonicals(t, P)
    requires MainHolds(t, P) && MemoryHolds(t, z, alpha, P) && RangeChecksHold(t, zRange, P)
    requires OffsetBounds(t) && n < |t.main| && forall i :: 0 <= i < n ==> Active(t, i, P) && RowSorted(t, i)
    ensures StepsFrom(TraceMemory(t), RegistersOf(t.main[0]), n, P) in {Undefined, Next(RegistersOf(t.main[n]))}
  {
    hide Flat, MemoryHolds, RangeChecksHold, OffsetBounds, RowSorted, MainHolds, Canonicals, Step;
    StarkModulusIsPrime();
    TraceIsRun(t, z, alpha, zRange, n, P);
  }
}
