/**
  The parser's side of the FRI queries: it folds all queried positions layer by layer, and writes the
  proofs of each layer in the order of the folded positions.
*/
module FriParser {
  const FOLDING_FACTOR: nat := 8

  datatype FriQueryProof = FriQueryProof(path: seq<int>, values: seq<int>)

  /** The moduli of `n` layers, the first of them `m`, divide one another by the folding factor. */
  predicate Moduli(m: nat, n: nat) {
    n == 0 || (m > 0 && (n > 1 ==> m % FOLDING_FACTOR == 0) && Moduli(m / FOLDING_FACTOR, n - 1))
  }

  /** The modulus after `n` foldings. */
  function LastModulus(size: nat, n: nat): nat {
    if n == 0 then size else LastModulus(size / FOLDING_FACTOR, n - 1)
  }

  // ------------------------------------------------------------------------
  // The parser: positions folded layer by layer
  // ------------------------------------------------------------------------

  function WithPosition(s: seq<nat>, v: nat): seq<nat> {
    if v in s then s else s + [v]
  }

  /** The residues modulo `m`, each once, in order of first appearance. */
  function Folded(positions: seq<nat>, m: nat): seq<nat>
    requires m > 0
  {
    if positions == [] then [] else
    var n := |positions| - 1;
    WithPosition(Folded(positions[..n], m), positions[n] % m)
  }

  predicate NoDuplicates(s: seq<nat>) {
    forall i, j :: 0 <= i < j < |s| ==> s[i] != s[j]
  }

  lemma {:induction false} FoldedIs(positions: seq<nat>, m: nat)
    requires m > 0
    ensures NoDuplicates(Folded(positions, m))
    ensures forall v :: v in Folded(positions, m) <==> exists i :: 0 <= i < |positions| && positions[i] % m == v
  {
    if positions != [] {
      var n := |positions| - 1;
      var rest := positions[..n];
      FoldedIs(rest, m);
      forall v ensures v in Folded(positions, m) <==> exists i :: 0 <= i < |positions| && positions[i] % m == v {
        if v in Folded(rest, m) {
          var i :| 0 <= i < |rest| && rest[i] % m == v;
          assert positions[i] % m == v;
        }
        if i :| 0 <= i < |positions| && positions[i] % m == v {
          assert i < n ==> rest[i] % m == v;
        }
      }
    }
  }

  method FoldPositions(positions: seq<nat>, sourceDomainSize: nat, foldingFactor: nat) returns (result: seq<nat>)
    requires foldingFactor > 0 && sourceDomainSize >= foldingFactor
    ensures result == Folded(positions, sourceDomainSize / foldingFactor)
  {
    var targetDomainSize := sourceDomainSize / foldingFactor;
    result := [];
    for i := 0 to |positions|
      invariant result == Folded(positions[..i], targetDomainSize)
    {
      assert positions[..i + 1][..i] == positions[..i];
      var position := positions[i] % targetDomainSize;
      if position !in result {
        result := result + [position];
      }
    }
    assert positions[..|positions|] == positions;
  }

  /** The positions of `n` layers, the first with modulus `m`. */
  function FoldChain(positions: seq<nat>, m: nat, n: nat): (chain: seq<seq<nat>>)
    requires Moduli(m, n)
    ensures |chain| == n
    decreases n
  {
    if n == 0 then [] else
    var folded := Folded(positions, m);
    [folded] + FoldChain(folded, m / FOLDING_FACTOR, n - 1)
  }

  lemma {:induction false} FoldChainPrefix(positions: seq<nat>, more: seq<nat>, m: nat, n: nat, l: nat)
    requires Moduli(m, n) && l < n
    ensures FoldChain(positions, m, n)[l] <= FoldChain(positions + more, m, n)[l]
    decreases n
  {
    FoldedPrefix(positions, more, m);
    var s, t := Folded(positions, m), Folded(positions + more, m);
    if l > 0 {
      assert t == s + t[|s|..];
      FoldChainPrefix(s, t[|s|..], m / FOLDING_FACTOR, n - 1, l - 1);
    }
  }

  lemma {:induction false} FoldedPrefix(positions: seq<nat>, more: seq<nat>, m: nat)
    requires m > 0
    ensures Folded(positions, m) <= Folded(positions + more, m)
  {
    if more == [] {
      assert positions + more == positions;
    } else {
      var n := |more| - 1;
      assert (positions + more)[..|positions| + n] == positions + more[..n];
      FoldedPrefix(positions, more[..n], m);
    }
  }

  /** What a proof in a layer holds for a position: its authentication path and the values of its coset. */
  datatype Source = Source(path: (nat, nat) -> seq<int>, values: (nat, nat) -> seq<int>)
  {
    function Proof(l: nat, v: nat): FriQueryProof {
      FriQueryProof(path(l, v), values(l, v))
    }
  }

  /** The batch opening and the query values of a layer list their entries in the order of the positions. */
  ghost predicate Listed(source: Source, l: nat, positions: seq<nat>, paths: seq<seq<int>>, queryValues: seq<int>) {
    && |paths| == |positions| && |queryValues| == FOLDING_FACTOR * |positions|
    && forall i {:trigger paths[i]} :: 0 <= i < |positions| ==>
         && paths[i] == source.path(l, positions[i])
         && queryValues[i * FOLDING_FACTOR..(i + 1) * FOLDING_FACTOR] == source.values(l, positions[i])
  }

  /** The proofs of a layer, position by position. */
  function ProofsAt(source: Source, l: nat, positions: seq<nat>): (proofs: seq<FriQueryProof>)
    ensures |proofs| == |positions|
  {
    seq(|positions|, i requires 0 <= i < |positions| => source.Proof(l, positions[i]))
  }

  /**
    The layers that the writer is given: per layer the query values, and a batch proof that is opened at
    indices. Each batch proof opens in order at the positions of its layer.
  */
  method WriteFriProofs(indexes: seq<nat>, ldeDomainSize: nat, intoPaths: (nat, seq<nat>) -> seq<seq<int>>,
                        queriesValues: seq<seq<int>>, ghost source: Source)
      returns (proofs: seq<seq<FriQueryProof>>)
    requires Moduli(ldeDomainSize / FOLDING_FACTOR, |queriesValues|)
    requires forall l :: 0 <= l < |queriesValues| ==>
      var chain := FoldChain(indexes, ldeDomainSize / FOLDING_FACTOR, |queriesValues|);
      Listed(source, l, chain[l], intoPaths(l, chain[l]), queriesValues[l])
    ensures |proofs| == |queriesValues|
    ensures forall l :: 0 <= l < |proofs| ==>
      var chain := FoldChain(indexes, ldeDomainSize / FOLDING_FACTOR, |queriesValues|);
      proofs[l] == ProofsAt(source, l, chain[l])
  {
    ghost var m, n := ldeDomainSize / FOLDING_FACTOR, |queriesValues|;
    ghost var chain := FoldChain(indexes, m, n);
    var indices, sourceDomainSize: nat := indexes, ldeDomainSize;
    proofs := [];
    for l := 0 to |queriesValues|
      invariant |proofs| == l
      invariant Moduli(sourceDomainSize / FOLDING_FACTOR, n - l)
      invariant chain[l..] == FoldChain(indices, sourceDomainSize / FOLDING_FACTOR, n - l)
      invariant forall k :: 0 <= k < l ==> proofs[k] == ProofsAt(source, k, chain[k])
    {
      indices := FoldPositions(indices, sourceDomainSize, FOLDING_FACTOR);
      assert chain[l..][0] == chain[l] == indices;
      assert chain[l..][1..] == chain[l + 1..];
      sourceDomainSize := sourceDomainSize / FOLDING_FACTOR;
      var paths := intoPaths(l, indices);
      var target := [];
      for index := 0 to |paths|
        invariant target == ProofsAt(source, l, chain[l])[..index]
      {
        var values := queriesValues[l][index * FOLDING_FACTOR..(index + 1) * FOLDING_FACTOR];
        target := target + [FriQueryProof(paths[index], values)];
      }
      assert target == ProofsAt(source, l, chain[l]);
      proofs := proofs + [target];
    }
  }
}
