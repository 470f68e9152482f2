/**
  What an accepted run of the FRI queries means, proof by proof: every proof that the parser's order assigns to
  a folded position opens, it holds what is claimed there, and what the last layer claims is a remainder. In
  the first layer the first query at a position makes the claim, in the others the folding of the layer before.
*/
module FriAcceptance {
  import opened FriParser
  import opened FriQueries

  /** Position `j` is the first whose residue is `v`. */
  predicate IsFirst(positions: seq<nat>, m: nat, v: nat, j: nat) {
    m > 0 && j < |positions| && positions[j] % m == v && forall k :: 0 <= k < j ==> positions[k] % m != v
  }

  lemma FirstIsUnique(positions: seq<nat>, m: nat, v: nat, j: nat, k: nat)
    requires IsFirst(positions, m, v, j) && IsFirst(positions, m, v, k)
    ensures j == k
  {
  }

  /** Each entry of a layer has the evaluation of the first incoming entry at its position. */
  lemma {:induction false} FirstCounts(s: seq<Entry>, m: nat, i: nat) returns (j: nat)
    requires m > 0 && i < |FoldEntries(s, m)|
    ensures IsFirst(Positions(s), m, FoldEntries(s, m)[i].position, j)
    ensures FoldEntries(s, m)[i].evaluation == s[j].evaluation
  {
    var n := |s| - 1;
    var front := s[..n];
    assert Positions(s)[..n] == Positions(front);
    if i < |FoldEntries(front, m)| {
      j := FirstCounts(front, m, i);
    } else {
      j := n;
      PositionsFold(front, m);
      FoldedIs(Positions(front), m);
      forall k | 0 <= k < n ensures Positions(s)[k] % m != s[n].position % m {
        assert Positions(front)[k] % m in Folded(Positions(front), m);
      }
    }
  }

  /** The values hold what is claimed by the first position whose residue is `v`. */
  ghost predicate HoldsClaim(positions: seq<nat>, claims: seq<int>, m: nat, v: nat, values: seq<int>)
    requires |positions| == |claims|
  {
    forall j: nat :: IsFirst(positions, m, v, j) ==> claims[j] in values
  }

  /** What the proofs of layer `l` claim about the next layer, position by position. */
  function Foldings(c: Setting, l: nat, positions: seq<nat>): (claims: seq<int>)
    requires c.Complete() && l < c.layers
    ensures |claims| == |positions|
  {
    seq(|positions|, j requires 0 <= j < |positions| =>
      if j < |c.proofs[l]| then c.fold(l, positions[j], c.proofs[l][j].values) else 0)
  }

  /**
    The proof for position `i` of the layer `k` layers after `l`: it is there, it opens, it holds the claim
    that is made first at its position, and if the layer is the last one, its folding is a remainder.
  */
  ghost predicate ProofHolds(c: Setting, l: nat, positions: seq<nat>, evaluations: seq<int>, m: nat, k: nat, i: nat)
    requires c.Complete() && l + k < c.layers && Moduli(m, c.layers - l) && |positions| == |evaluations|
    requires i < |FoldChain(positions, m, c.layers - l)[k]|
  {
    var chain, proofs := FoldChain(positions, m, c.layers - l), c.proofs[l + k];
    var before := if k == 0 then positions else chain[k - 1];
    var claims := if k == 0 then evaluations else Foldings(c, l + k - 1, before);
    && i < |proofs| && c.opens(l + k, chain[k][i], proofs[i])
    && HoldsClaim(before, claims, LastModulus(m, k), chain[k][i], proofs[i].values)
    && (l + k + 1 == c.layers ==> c.fold(l + k, chain[k][i], proofs[i].values) in c.remainders)
  }

  ghost predicate AllProofsHold(c: Setting, l: nat, positions: seq<nat>, evaluations: seq<int>, m: nat)
    requires c.Complete() && l <= c.layers && Moduli(m, c.layers - l) && |positions| == |evaluations|
  {
    forall k, i :: 0 <= k < c.layers - l && 0 <= i < |FoldChain(positions, m, c.layers - l)[k]| ==>
      ProofHolds(c, l, positions, evaluations, m, k, i)
  }

  function Evaluations(s: seq<Entry>): (r: seq<int>)
    ensures |r| == |s|
  {
    seq(|s|, i requires 0 <= i < |s| => s[i].evaluation)
  }

  lemma FirstClaims(positions: seq<nat>, claims: seq<int>, m: nat, v: nat, j: nat)
    requires |positions| == |claims| && IsFirst(positions, m, v, j)
    ensures forall values :: HoldsClaim(positions, claims, m, v, values) <==> claims[j] in values
  {
    forall k: nat | IsFirst(positions, m, v, k) ensures k == j { FirstIsUnique(positions, m, v, j, k); }
  }

  /** The proofs of the first layer hold exactly if its entries do. */
  lemma FirstLayer(c: Setting, l: nat, incoming: seq<Entry>, m: nat)
    requires c.Complete() && l < c.layers && Moduli(m, c.layers - l)
    ensures var s, next := FoldEntries(incoming, m), Advance(c, l, FoldEntries(incoming, m));
      var claims := l + 1 == c.layers ==> forall i :: 0 <= i < |s| ==> next[i].evaluation in c.remainders;
      && |FoldChain(Positions(incoming), m, c.layers - l)[0]| == |s|
      && (Holds(c, l, s) && claims
          <==> forall i :: 0 <= i < |s| ==> ProofHolds(c, l, Positions(incoming), Evaluations(incoming), m, 0, i))
  {
    hide FoldEntries, Folded;
    var s, next := FoldEntries(incoming, m), Advance(c, l, FoldEntries(incoming, m));
    PositionsFold(incoming, m);
    var chain := FoldChain(Positions(incoming), m, c.layers - l);
    assert chain[0] == Positions(s);
    forall i | 0 <= i < |s|
      ensures ProofHolds(c, l, Positions(incoming), Evaluations(incoming), m, 0, i)
              <==> i < |c.proofs[l]| && EntryHolds(c, l, s[i], c.proofs[l][i])
                   && (l + 1 == c.layers ==> next[i].evaluation in c.remainders)
    {
      var j := FirstCounts(incoming, m, i);
      FirstClaims(Positions(incoming), Evaluations(incoming), m, chain[0][i], j);
    }
    if s != [] {
      var last := |s| - 1;
      assert ProofHolds(c, l, Positions(incoming), Evaluations(incoming), m, 0, last) ==> last < |c.proofs[l]|;
    }
  }

  lemma ChainTail(c: Setting, l: nat, incoming: seq<Entry>, m: nat)
    requires c.Complete() && l < c.layers && Moduli(m, c.layers - l)
    ensures var next := Advance(c, l, FoldEntries(incoming, m));
      FoldChain(Positions(incoming), m, c.layers - l)[1..]
      == FoldChain(Positions(next), m / FOLDING_FACTOR, c.layers - l - 1)
  {
    hide FoldEntries, Folded;
    PositionsFold(incoming, m);
  }

  lemma LastClaims(c: Setting, s: seq<Entry>, m: nat)
    requires c.Complete()
    ensures Moduli(m, 0)
    ensures BreadthFirst(c, c.layers, s, m) <==> forall i :: 0 <= i < |s| ==> s[i].evaluation in c.remainders
  {
    forall i | 0 <= i < |s| ensures s[i] in s {}
    forall e | e in s ensures exists i :: 0 <= i < |s| && s[i] == e {}
  }

  /** The proof `k + 1` layers after `l` is the proof `k` layers after the next one. */
  lemma LaterProof(c: Setting, l: nat, incoming: seq<Entry>, m: nat, k: nat, i: nat)
    requires c.Complete() && l + 1 + k < c.layers && Moduli(m, c.layers - l)
    requires i < |FoldChain(Positions(incoming), m, c.layers - l)[k + 1]|
    ensures var next := Advance(c, l, FoldEntries(incoming, m));
      && i < |FoldChain(Positions(next), m / FOLDING_FACTOR, c.layers - l - 1)[k]|
      && (ProofHolds(c, l, Positions(incoming), Evaluations(incoming), m, k + 1, i)
          <==> ProofHolds(c, l + 1, Positions(next), Evaluations(next), m / FOLDING_FACTOR, k, i))
  {
    hide FoldEntries, Folded, HoldsClaim;
    PositionsFold(incoming, m);
    var next := Advance(c, l, FoldEntries(incoming, m));
    assert Evaluations(next) == Foldings(c, l, Positions(next));
  }

  /** The layers from `l` on accept exactly if all their proofs hold. */
  lemma {:induction false} LayersAccept(c: Setting, l: nat, incoming: seq<Entry>, m: nat)
    requires c.Complete() && l < c.layers && Moduli(m, c.layers - l)
    ensures BreadthFirst(c, l, incoming, m)
            <==> AllProofsHold(c, l, Positions(incoming), Evaluations(incoming), m)
    decreases c.layers - l
  {
    hide FoldEntries, Folded, Holds, ProofHolds, Advance, FoldChain;
    var s, next := FoldEntries(incoming, m), Advance(c, l, FoldEntries(incoming, m));
    var positions, evaluations, n := Positions(incoming), Evaluations(incoming), c.layers - l;
    FirstLayer(c, l, incoming, m);
    LastClaims(c, next, m / FOLDING_FACTOR);
    if n > 1 { LayersAccept(c, l + 1, next, m / FOLDING_FACTOR); }
    var chain, d, rest := FoldChain(positions, m, n), m / FOLDING_FACTOR, n - 1;
    var tail := FoldChain(Positions(next), d, rest);
    ChainTail(c, l, incoming, m);
    assert forall k :: 0 <= k < rest ==> chain[1..][k] == tail[k];
    if AllProofsHold(c, l, positions, evaluations, m) && n > 1 {
      var later := l + 1;
      forall k, i | 0 <= k < rest && 0 <= i < |tail[k]|
        ensures ProofHolds(c, later, Positions(next), Evaluations(next), d, k, i)
      {
        assert ProofHolds(c, l, positions, evaluations, m, k + 1, i);
        LaterProof(c, l, incoming, m, k, i);
      }
    }
    if BreadthFirst(c, l, incoming, m) {
      forall k, i | 0 <= k < n && 0 <= i < |chain[k]| ensures ProofHolds(c, l, positions, evaluations, m, k, i) {
        if k > 0 {
          assert tail[k - 1] == chain[k];
          assert ProofHolds(c, l + 1, Positions(next), Evaluations(next), d, k - 1, i);
          LaterProof(c, l, incoming, m, k - 1, i);
        }
      }
    }
  }

  // ------------------------------------------------------------------------
  // The verifier
  // ------------------------------------------------------------------------

  lemma QueriesAre(positions: seq<nat>, evaluations: seq<int>)
    requires |positions| == |evaluations|
    ensures Evaluations(Queries(positions, evaluations)) == evaluations
  {
  }

  lemma NoQueries(c: Setting, l: nat, m: nat)
    requires c.Complete() && l <= c.layers && Moduli(m, c.layers - l)
    ensures BreadthFirst(c, l, [], m) && Memo(c, l, [], m) == seq(c.layers - l, _ => [])
    decreases c.layers - l
  {
    if l < c.layers {
      assert Advance(c, l, []) == [];
      NoQueries(c, l + 1, m / FOLDING_FACTOR);
    }
  }

  /** All queries, one by one with the memo: accepted exactly if all proofs hold. */
  method VerifyAllQueries(setting: Setting, positions: seq<nat>, queryEvaluations: seq<int>, modulus: nat)
      returns (ok: bool)
    requires setting.Complete() && setting.layers > 0 && Moduli(modulus, setting.layers)
    requires |positions| == |queryEvaluations|
    ensures ok <==> AllProofsHold(setting, 0, positions, queryEvaluations, modulus)
  {
    hide BreadthFirst, AllProofsHold, Memo;
    var verifier := new FriVerifier(setting);
    NoQueries(setting, 0, modulus);
    ghost var queries := Queries(positions, queryEvaluations);
    assert [] + queries == queries;
    QueriesAre(positions, queryEvaluations);
    LayersAccept(setting, 0, queries, modulus);
    ok := verifier.VerifyQueries(positions, queryEvaluations, modulus, []);
  }

  /** In an accepted run, each position of each layer has a proof that opens: one that does not is refused. */
  lemma ProofsOpen(c: Setting, positions: seq<nat>, evaluations: seq<int>, m: nat, l: nat, i: nat)
    requires c.Complete() && l < c.layers && Moduli(m, c.layers) && |positions| == |evaluations|
    requires i < |FoldChain(positions, m, c.layers)[l]|
    requires BreadthFirst(c, 0, Queries(positions, evaluations), m)
    ensures i < |c.proofs[l]| && c.opens(l, FoldChain(positions, m, c.layers)[l][i], c.proofs[l][i])
  {
    hide BreadthFirst;
    QueriesAre(positions, evaluations);
    LayersAccept(c, 0, Queries(positions, evaluations), m);
    assert ProofHolds(c, 0, positions, evaluations, m, l, i);
  }
}
