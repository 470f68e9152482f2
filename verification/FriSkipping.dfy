/**
  What the verifier's early exit skips. A query whose folded position has been seen before is not followed
  further, and its own evaluation is not looked at. The full check follows every query to the end. With the
  parser's proofs, acceptance implies the full check exactly if no two positions meet in the last layer.
*/
module FriSkipping {
  import opened Arithmetic
  import opened FriParser
  import opened FriQueries

  /** The query's own evaluation is in its position's proof in every layer, and its last one is a remainder. */
  predicate Passes(c: Setting, source: Source, l: nat, e: Entry, m: nat)
    requires l <= c.layers && Moduli(m, c.layers - l)
    decreases c.layers - l
  {
    if l == c.layers then e.evaluation in c.remainders
    else
      var folded := Entry(e.position % m, e.evaluation);
      && EntryHolds(c, l, folded, source.Proof(l, folded.position))
      && Passes(c, source, l + 1, Claimed(c, source, l, folded.position), m / FOLDING_FACTOR)
  }

  /** What a proof claims about the next layer. */
  function Claimed(c: Setting, source: Source, l: nat, v: nat): Entry {
    Entry(v, c.fold(l, v, source.values(l, v)))
  }

  ghost predicate AllPass(c: Setting, source: Source, l: nat, incoming: seq<Entry>, m: nat)
    requires l <= c.layers && Moduli(m, c.layers - l)
  {
    forall i :: 0 <= i < |incoming| ==> Passes(c, source, l, incoming[i], m)
  }

  predicate DistinctModulo(positions: seq<nat>, m: nat)
    requires m > 0
  {
    forall i, j :: 0 <= i < j < |positions| ==> positions[i] % m != positions[j] % m
  }

  const TEN: seq<int> := [10, 0, 0, 0, 0, 0, 0, 0]

  /** One layer of modulus 8 with a single proof, whose values hold 10 and not 99. */
  function OneLayer(): Setting {
    Setting(1, [[FriQueryProof([], TEN)]], [10], (l, v, p) => true, (l, v, values) => 10)
  }

  function OneSource(): Source {
    Source((l: nat, v: nat) => [], (l: nat, v: nat) => TEN)
  }

  /** Two queries fold to one position, and the evaluation 99 of the second one is never looked at. */
  lemma EvaluationSkipped()
    ensures var c := OneLayer();
      && Moduli(8, 1) && Parsed(c, OneSource(), [0, 8], 8, 1)
      && BreadthFirst(c, 0, [Entry(0, 10), Entry(8, 99)], 8)
      && !DepthFirst(c, 0, [], 8, Entry(8, 99)) && !Passes(c, OneSource(), 0, Entry(8, 99), 8)
  {
    hide FoldEntries, Folded;
    var c, first, both := OneLayer(), [Entry(0, 10)], [Entry(0, 10), Entry(8, 99)];
    OnlyFirstFolds();
    PositionsFold(both, 8);
    assert Positions(both) == [0, 8] && Positions(first) == [0];
    assert Moduli(8, 1) && Moduli(1, 0);
    assert TEN[0] == 10 && Holds(c, 0, first);
    assert Advance(c, 0, first) == first;
    assert BreadthFirst(c, 1, first, 1);
  }

  lemma OnlyFirstFolds()
    ensures FoldEntries([], 8) == [] && FoldEntries([Entry(0, 10), Entry(8, 99)], 8) == [Entry(0, 10)]
  {
    OneMoreEntry([], 8, Entry(0, 10));
    OneMoreEntry([Entry(0, 10)], 8, Entry(8, 99));
    assert [] + [Entry(0, 10)] == [Entry(0, 10)];
    assert [Entry(0, 10)] + [Entry(8, 99)] == [Entry(0, 10), Entry(8, 99)];
    assert Positions([Entry(0, 10)])[0] == 0;
  }

  // ------------------------------------------------------------------------
  // Residues
  // ------------------------------------------------------------------------

  lemma ResidueOfResidue(x: nat, m: nat, d: nat)
    requires m > 0 && d > 0 && m % d == 0
    ensures (x % m) % d == x % d
  {
    var k := m / d;
    assert m == k * d && x == (x / m) * m + x % m;
    assert (x / m) * m == ((x / m) * k) * d;
    ModShift(x % m, (x / m) * k, d);
  }

  /** The last modulus divides the first one. */
  lemma {:induction false} LastDivides(m: nat, n: nat)
    requires n > 0 && Moduli(m, n)
    ensures LastModulus(m, n - 1) > 0 && m % LastModulus(m, n - 1) == 0
    decreases n
  {
    if n == 1 {
      QuotientIs(m, m, 1, 0);
    } else {
      LastDivides(m / FOLDING_FACTOR, n - 1);
      var d := LastModulus(m, n - 1);
      assert m == FOLDING_FACTOR * (m / FOLDING_FACTOR) && m / FOLDING_FACTOR == (m / FOLDING_FACTOR / d) * d;
      QuotientIs(m, d, FOLDING_FACTOR * (m / FOLDING_FACTOR / d), 0);
    }
  }

  /** All entries folded, none of them dropped. */
  function FoldAll(s: seq<Entry>, m: nat): (r: seq<Entry>)
    requires m > 0
    ensures |r| == |s|
  {
    seq(|s|, i requires 0 <= i < |s| => Entry(s[i].position % m, s[i].evaluation))
  }

  lemma {:induction false} NothingDropped(s: seq<Entry>, m: nat)
    requires m > 0 && DistinctModulo(Positions(s), m)
    ensures FoldEntries(s, m) == FoldAll(s, m)
  {
    if s != [] {
      var n := |s| - 1;
      var front := s[..n];
      assert Positions(front) == Positions(s)[..n];
      NothingDropped(front, m);
      forall i | 0 <= i < n ensures Positions(FoldAll(front, m))[i] != s[n].position % m {
        assert Positions(s)[i] % m != Positions(s)[n] % m;
      }
      assert FoldAll(s, m) == FoldAll(front, m) + [Entry(s[n].position % m, s[n].evaluation)];
    }
  }

  /** Distinct modulo the last modulus means distinct modulo the first, and so for the folded positions. */
  lemma DistinctInLayers(s: seq<Entry>, m: nat, n: nat)
    requires n > 0 && Moduli(m, n)
    ensures LastModulus(m, n - 1) > 0
    ensures DistinctModulo(Positions(FoldAll(s, m)), LastModulus(m, n - 1))
            <==> DistinctModulo(Positions(s), LastModulus(m, n - 1))
    ensures DistinctModulo(Positions(s), LastModulus(m, n - 1)) ==> DistinctModulo(Positions(s), m)
  {
    LastDivides(m, n);
    var d := LastModulus(m, n - 1);
    forall i | 0 <= i < |s| ensures Positions(FoldAll(s, m))[i] % d == Positions(s)[i] % d {
      ResidueOfResidue(s[i].position, m, d);
    }
  }

  // ------------------------------------------------------------------------
  // The full check and acceptance
  // ------------------------------------------------------------------------

  /** What passes the full check is accepted. */
  lemma {:induction false} FullCheckAccepted(c: Setting, source: Source, l: nat, incoming: seq<Entry>, m: nat)
    requires l <= c.layers && Moduli(m, c.layers - l) && AllPass(c, source, l, incoming, m)
    ensures ByPosition(c, source, l, incoming, m)
    decreases c.layers - l
  {
    hide EntryHolds, FoldEntries;
    if l == c.layers {
      forall e | e in incoming ensures e.evaluation in c.remainders {
        var i :| 0 <= i < |incoming| && incoming[i] == e;
      }
    } else {
      var s := FoldEntries(incoming, m);
      forall e | e in s
        ensures EntryHolds(c, l, e, source.Proof(l, e.position))
        ensures Passes(c, source, l + 1, Claimed(c, source, l, e.position), m / FOLDING_FACTOR)
      {
        var origin := FoldedFrom(incoming, m, e);
        var i :| 0 <= i < |incoming| && incoming[i] == origin;
      }
      var next := AdvanceBy(c, source, l, s);
      forall i | 0 <= i < |next| ensures Passes(c, source, l + 1, next[i], m / FOLDING_FACTOR) {
        assert s[i] in s && next[i] == Claimed(c, source, l, s[i].position);
      }
      FullCheckAccepted(c, source, l + 1, next, m / FOLDING_FACTOR);
    }
  }

  /** What is accepted passes the full check, if no two positions meet in the last layer. */
  lemma {:induction false} AcceptedPasses(c: Setting, source: Source, l: nat, incoming: seq<Entry>, m: nat)
    requires l < c.layers && Moduli(m, c.layers - l) && LastModulus(m, c.layers - l - 1) > 0
    requires DistinctModulo(Positions(incoming), LastModulus(m, c.layers - l - 1))
    requires ByPosition(c, source, l, incoming, m)
    ensures AllPass(c, source, l, incoming, m)
    decreases c.layers - l
  {
    hide EntryHolds, FoldEntries, DistinctModulo, Positions;
    DistinctInLayers(incoming, m, c.layers - l);
    NothingDropped(incoming, m);
    var s := FoldAll(incoming, m);
    var next := AdvanceBy(c, source, l, s);
    if l + 1 < c.layers {
      AcceptedPasses(c, source, l + 1, next, m / FOLDING_FACTOR);
    }
    forall i | 0 <= i < |incoming| ensures Passes(c, source, l, incoming[i], m) {
      assert s[i] in s && next[i] in next && next[i] == Claimed(c, source, l, s[i].position);
    }
  }

  // ------------------------------------------------------------------------
  // Colliding positions: a run that is accepted although a query fails
  // ------------------------------------------------------------------------

  /** Each query claims its own number. */
  function Numbered(positions: seq<nat>): (s: seq<Entry>)
    ensures Positions(s) == positions && DistinctClaims(s)
  {
    Queries(positions, seq(|positions|, i => i))
  }

  /** Each position claims itself. */
  function Own(s: seq<Entry>): (r: seq<Entry>)
    ensures Positions(r) == Positions(s)
  {
    seq(|s|, i requires 0 <= i < |s| => Entry(s[i].position, s[i].position))
  }

  /** The entries that come into the layer `k` layers further on. */
  function Stage(incoming: seq<Entry>, m: nat, n: nat, k: nat): (r: seq<Entry>)
    requires k <= n && Moduli(m, n)
    decreases k
  {
    if k == 0 then incoming else Stage(Own(FoldEntries(incoming, m)), m / FOLDING_FACTOR, n - 1, k - 1)
  }

  /** The values of a proof that holds the evaluation at position `v`, filled up with a value nobody claims. */
  function Found(s: seq<Entry>, v: nat): (values: seq<int>)
    ensures |values| == FOLDING_FACTOR
  {
    if s == [] then [-1, -1, -1, -1, -1, -1, -1, -1]
    else if s[0].position == v then [s[0].evaluation, -1, -1, -1, -1, -1, -1, -1]
    else Found(s[1..], v)
  }

  lemma {:induction false} FoundIs(s: seq<Entry>, i: nat)
    requires i < |s| && NoDuplicates(Positions(s))
    ensures s[i].evaluation in Found(s, s[i].position)
  {
    if i > 0 {
      assert Positions(s)[0] != Positions(s)[i];
      assert Positions(s[1..]) == Positions(s)[1..];
      FoundIs(s[1..], i - 1);
    } else {
      assert Found(s, s[0].position)[0] == s[0].evaluation;
    }
  }

  lemma {:induction false} FoundOne(s: seq<Entry>, v: nat, a: nat, b: nat)
    requires a in Found(s, v) && b in Found(s, v)
    ensures a == b
  {
    if s != [] && s[0].position != v { FoundOne(s[1..], v, a, b); }
  }

  /** What the proof at position `v`, `k` layers further on, holds: what the first query there claims. */
  function FirstValues(incoming: seq<Entry>, m: nat, n: nat, k: nat, v: nat): (values: seq<int>)
    requires k < n && Moduli(m, n)
    ensures |values| == FOLDING_FACTOR
  {
    LastModulusPositive(m, n, k);
    Found(FoldEntries(Stage(incoming, m, n, k), LastModulus(m, k)), v)
  }

  ghost predicate HoldsFirst(source: Source, l: nat, incoming: seq<Entry>, m: nat, n: nat)
    requires Moduli(m, n)
  {
    forall k, v :: 0 <= k < n ==> source.values(l + k, v) == FirstValues(incoming, m, n, k, v)
  }

  lemma {:induction false} LastModulusPositive(m: nat, n: nat, k: nat)
    requires k < n && Moduli(m, n)
    ensures LastModulus(m, k) > 0
  {
    if k > 0 { LastModulusPositive(m / FOLDING_FACTOR, n - 1, k - 1); }
  }

  lemma HoldsFirstNext(source: Source, l: nat, incoming: seq<Entry>, m: nat, n: nat)
    requires n > 0 && Moduli(m, n) && HoldsFirst(source, l, incoming, m, n)
    ensures forall v :: source.values(l, v) == Found(FoldEntries(incoming, m), v)
    ensures HoldsFirst(source, l + 1, Own(FoldEntries(incoming, m)), m / FOLDING_FACTOR, n - 1)
  {
    hide FoldEntries, Found;
    forall v ensures source.values(l, v) == Found(FoldEntries(incoming, m), v) {
      assert source.values(l + 0, v) == FirstValues(incoming, m, n, 0, v);
    }
    var next, d, rest := Own(FoldEntries(incoming, m)), m / FOLDING_FACTOR, n - 1;
    forall k, v | 0 <= k < rest ensures source.values(l + 1 + k, v) == FirstValues(next, d, rest, k, v) {
      assert source.values(l + (k + 1), v) == FirstValues(incoming, m, n, k + 1, v);
    }
  }

  function Evaluations(s: seq<Entry>): (r: seq<int>)
    ensures |r| == |s|
  {
    seq(|s|, i requires 0 <= i < |s| => s[i].evaluation)
  }

  /** Every proof opens, and what it claims about the next layer is its position. */
  ghost predicate ClaimsItself(c: Setting) {
    && (forall l: nat, v: nat, proof: FriQueryProof :: c.opens(l, v, proof))
    && (forall l: nat, v: nat, values: seq<int> :: c.fold(l, v, values) == v)
  }

  lemma {:induction false} WitnessAccepted(c: Setting, source: Source, l: nat, incoming: seq<Entry>, m: nat)
    requires ClaimsItself(c) && l <= c.layers && Moduli(m, c.layers - l)
    requires HoldsFirst(source, l, incoming, m, c.layers - l)
    requires c.remainders == Evaluations(Stage(incoming, m, c.layers - l, c.layers - l))
    ensures ByPosition(c, source, l, incoming, m)
    decreases c.layers - l
  {
    hide FoldEntries, Found, HoldsFirst;
    if l == c.layers {
      forall e | e in incoming ensures e.evaluation in c.remainders {
        var i :| 0 <= i < |incoming| && incoming[i] == e;
        assert c.remainders[i] == e.evaluation;
      }
    } else {
      var s := FoldEntries(incoming, m);
      HoldsFirstNext(source, l, incoming, m, c.layers - l);
      PositionsFold(incoming, m);
      FoldedIs(Positions(incoming), m);
      forall e | e in s ensures EntryHolds(c, l, e, source.Proof(l, e.position)) {
        var i :| 0 <= i < |s| && s[i] == e;
        FoundIs(s, i);
      }
      assert AdvanceBy(c, source, l, s) == Own(s);
      WitnessAccepted(c, source, l + 1, Own(s), m / FOLDING_FACTOR);
    }
  }

  ghost predicate DistinctClaims(s: seq<Entry>) {
    && (forall i :: 0 <= i < |s| ==> s[i].evaluation >= 0)
    && (forall i, j :: 0 <= i < j < |s| ==> s[i].evaluation != s[j].evaluation)
  }

  /** Entries that claim different values and pass one layer come from different positions of it. */
  lemma DistinctHere(source: Source, l: nat, incoming: seq<Entry>, m: nat)
    requires m > 0 && DistinctClaims(incoming)
    requires forall v :: source.values(l, v) == Found(FoldEntries(incoming, m), v)
    requires forall i :: 0 <= i < |incoming| ==> incoming[i].evaluation in source.values(l, incoming[i].position % m)
    ensures DistinctModulo(Positions(incoming), m)
  {
    hide FoldEntries, Found;
    forall i, j | 0 <= i < j < |incoming| ensures incoming[i].position % m != incoming[j].position % m {
      var v := incoming[j].position % m;
      if incoming[i].position % m == v {
        FoundOne(FoldEntries(incoming, m), v, incoming[i].evaluation, incoming[j].evaluation);
      }
    }
  }

  lemma {:induction false} WitnessDistinct(c: Setting, source: Source, l: nat, incoming: seq<Entry>, m: nat)
    requires ClaimsItself(c) && l < c.layers && Moduli(m, c.layers - l)
    requires HoldsFirst(source, l, incoming, m, c.layers - l)
    requires DistinctClaims(incoming) && AllPass(c, source, l, incoming, m)
    ensures LastModulus(m, c.layers - l - 1) > 0
    ensures DistinctModulo(Positions(incoming), LastModulus(m, c.layers - l - 1))
    decreases c.layers - l
  {
    hide FoldEntries, Found, HoldsFirst, DistinctModulo, Positions;
    HoldsFirstNext(source, l, incoming, m, c.layers - l);
    DistinctHere(source, l, incoming, m);
    NothingDropped(incoming, m);
    if l + 1 < c.layers {
      var s := FoldAll(incoming, m);
      var next := Own(s);
      OwnDistinct(incoming, m);
      forall i | 0 <= i < |next| ensures Passes(c, source, l + 1, next[i], m / FOLDING_FACTOR) {
        assert Passes(c, source, l, incoming[i], m) && next[i] == Claimed(c, source, l, s[i].position);
      }
      WitnessDistinct(c, source, l + 1, next, m / FOLDING_FACTOR);
      DistinctInLayers(incoming, m, c.layers - l);
    }
  }

  lemma OwnDistinct(incoming: seq<Entry>, m: nat)
    requires m > 0 && DistinctModulo(Positions(incoming), m)
    ensures DistinctClaims(Own(FoldAll(incoming, m)))
            && Positions(Own(FoldAll(incoming, m))) == Positions(FoldAll(incoming, m))
  {
    var r := Own(FoldAll(incoming, m));
    forall i, j | 0 <= i < j < |r| ensures r[i].evaluation != r[j].evaluation {
      assert Positions(incoming)[i] % m != Positions(incoming)[j] % m;
    }
  }

  // ------------------------------------------------------------------------
  // When acceptance implies the full check
  // ------------------------------------------------------------------------

  /** The setting has `n` layers, and the proofs that the parser writes for the positions. */
  ghost predicate Parsed(c: Setting, source: Source, positions: seq<nat>, m: nat, n: nat)
    requires Moduli(m, n)
  {
    && c.Complete() && c.layers == n && ProofsFrom(c, source, 0, positions, m)
    && forall l: nat, v: nat :: |source.values(l, v)| == FOLDING_FACTOR
  }

  /** Whatever is accepted at these positions passes the full check. */
  ghost predicate NothingLost(positions: seq<nat>, m: nat, n: nat)
    requires Moduli(m, n)
  {
    forall c: Setting, source: Source, evaluations: seq<int> ::
      && Parsed(c, source, positions, m, n) && |evaluations| == |positions|
      && BreadthFirst(c, 0, Queries(positions, evaluations), m)
      ==> AllPass(c, source, 0, Queries(positions, evaluations), m)
  }

  /** Each proof holds what the first query at its position claims. */
  function FirstSource(positions: seq<nat>, m: nat, n: nat): Source
    requires Moduli(m, n)
  {
    var incoming := Numbered(positions);
    Source((l: nat, v: nat) => [],
           (l: nat, v: nat) => if l < n then FirstValues(incoming, m, n, l, v) else Found([], v))
  }

  function FirstSetting(positions: seq<nat>, m: nat, n: nat): Setting
    requires Moduli(m, n)
  {
    var source := FirstSource(positions, m, n);
    var chain := FoldChain(positions, m, n);
    Setting(n, seq(n, k requires 0 <= k < n => ProofsAt(source, k, chain[k])),
            Evaluations(Stage(Numbered(positions), m, n, n)), (l, v, proof) => true, (l, v, values) => v)
  }

  lemma FirstIsParsed(positions: seq<nat>, m: nat, n: nat)
    requires Moduli(m, n)
    ensures var c, source := FirstSetting(positions, m, n), FirstSource(positions, m, n);
      && Parsed(c, source, positions, m, n) && ClaimsItself(c) && HoldsFirst(source, 0, Numbered(positions), m, n)
      && c.remainders == Evaluations(Stage(Numbered(positions), m, n, n))
  {
    hide FirstValues, Found, Stage, FoldChain, Numbered;
    var source := FirstSource(positions, m, n);
    forall l: nat, v: nat ensures |source.values(l, v)| == FOLDING_FACTOR {
      assert l < n || source.values(l, v) == Found([], v);
    }
  }

  lemma FirstIsAccepted(positions: seq<nat>, m: nat, n: nat)
    requires Moduli(m, n)
    ensures BreadthFirst(FirstSetting(positions, m, n), 0, Numbered(positions), m)
  {
    hide FirstSetting, FirstSource, FoldEntries, Found, Stage, ByPosition, BreadthFirst, HoldsFirst, ClaimsItself,
         FoldChain, Evaluations, Moduli;
    FirstIsParsed(positions, m, n);
    var c, source := FirstSetting(positions, m, n), FirstSource(positions, m, n);
    WitnessAccepted(c, source, 0, Numbered(positions), m);
    ProofsAreOwn(c, source, 0, Numbered(positions), m);
  }

  lemma DistinctLosesNothing(positions: seq<nat>, m: nat, n: nat)
    requires n > 0 && Moduli(m, n) && LastModulus(m, n - 1) > 0 && DistinctModulo(positions, LastModulus(m, n - 1))
    ensures NothingLost(positions, m, n)
  {
    hide DistinctModulo, Positions, BreadthFirst, ByPosition, AllPass, Queries, FoldChain;
    forall c: Setting, source: Source, evaluations: seq<int> |
      && Parsed(c, source, positions, m, n) && |evaluations| == |positions|
      && BreadthFirst(c, 0, Queries(positions, evaluations), m)
      ensures AllPass(c, source, 0, Queries(positions, evaluations), m)
    {
      ProofsAreOwn(c, source, 0, Queries(positions, evaluations), m);
      AcceptedPasses(c, source, 0, Queries(positions, evaluations), m);
    }
  }

  lemma MeetingPositionsLose(positions: seq<nat>, m: nat, n: nat)
    requires n > 0 && Moduli(m, n) && LastModulus(m, n - 1) > 0 && NothingLost(positions, m, n)
    ensures DistinctModulo(positions, LastModulus(m, n - 1))
  {
    hide DistinctModulo, Positions, BreadthFirst, AllPass, HoldsFirst, ClaimsItself, FirstSource, FirstSetting,
         FoldChain;
    FirstIsParsed(positions, m, n);
    FirstIsAccepted(positions, m, n);
    var c, source := FirstSetting(positions, m, n), FirstSource(positions, m, n);
    var numbers := seq(|positions|, i => i);
    assert Numbered(positions) == Queries(positions, numbers);
    assert AllPass(c, source, 0, Queries(positions, numbers), m);
    WitnessDistinct(c, source, 0, Numbered(positions), m);
  }

  /**
    With the parser's proofs, everything that is accepted at the given positions passes the full check, for
    all evaluations and settings, if and only if no two positions meet in the last layer.
  */
  lemma SkippingLosesNothing(positions: seq<nat>, m: nat, n: nat)
    requires n > 0 && Moduli(m, n)
    ensures LastModulus(m, n - 1) > 0
    ensures NothingLost(positions, m, n) <==> DistinctModulo(positions, LastModulus(m, n - 1))
  {
    LastModulusPositive(m, n, n - 1);
    if DistinctModulo(positions, LastModulus(m, n - 1)) { DistinctLosesNothing(positions, m, n); }
    if NothingLost(positions, m, n) { MeetingPositionsLose(positions, m, n); }
  }

  /** The early exit refuses nothing that passes the full check. */
  lemma FullCheckIsEnough(c: Setting, source: Source, positions: seq<nat>, evaluations: seq<int>, m: nat)
    requires Moduli(m, c.layers) && Parsed(c, source, positions, m, c.layers) && |evaluations| == |positions|
    requires AllPass(c, source, 0, Queries(positions, evaluations), m)
    ensures BreadthFirst(c, 0, Queries(positions, evaluations), m)
  {
    FullCheckAccepted(c, source, 0, Queries(positions, evaluations), m);
    ProofsAreOwn(c, source, 0, Queries(positions, evaluations), m);
  }
}
