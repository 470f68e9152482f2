/**
  The Utreexo accumulator of the Cairo program: 27 root values, 0 where there is no tree.
  Each operation fills a fresh array of roots and then rebinds the roots to it.
*/
module Utreexo {
  import opened HashTrees

  const ROOTS_LEN := 27

  /** Some slot at `h` or above is empty, so that a carry starting at `h` stops inside the array. */
  predicate HasRoom(roots: seq<int>, h: nat)
    decreases |roots| - h
  {
    h < |roots| && (roots[h] == 0 || HasRoom(roots, h + 1))
  }

  /** The roots after `n` is carried into slot `h`. */
  function AddFrom(H: Hash, roots: seq<int>, n: int, h: nat): (r: seq<int>)
    requires HasRoom(roots, h)
    ensures |r| == |roots|
    ensures r[..h] == roots[..h]
    decreases |roots| - h
  {
    if roots[h] == 0 then
      roots[h := n]
    else
      HasRoomAbove(roots, h, 0);
      AddFrom(H, roots[h := 0], H(roots[h], n), h + 1)
  }

  lemma {:induction false} HasRoomAbove(roots: seq<int>, h: nat, v: int)
    requires h < |roots| && HasRoom(roots, h + 1)
    ensures HasRoom(roots[h := v], h + 1)
  {
    HasRoomSuffix(roots, roots[h := v], h + 1);
  }

  lemma {:induction false} HasRoomSuffix(a: seq<int>, b: seq<int>, h: nat)
    requires |a| == |b| && h <= |a| && a[h..] == b[h..] && HasRoom(a, h)
    ensures HasRoom(b, h)
    decreases |a| - h
  {
    assert a[h] == a[h..][0] == b[h..][0] == b[h];
    if a[h] != 0 {
      assert a[h + 1..] == a[h..][1..] && b[h + 1..] == b[h..][1..];
      HasRoomSuffix(a, b, h + 1);
    }
  }

  /** The roots after the tree under slot `|proof|` is taken apart along `proof`, from level `h` upwards. */
  function DeleteFrom(H: Hash, roots: seq<int>, proof: seq<int>, n: int, h: nat): (r: seq<int>)
    requires h <= |proof| < |roots|
    ensures |r| == |roots|
    ensures r[..h] == roots[..h]
    decreases |proof| - h
  {
    if h == |proof| then roots[h := n]
    else if n != 0 then DeleteFrom(H, roots, proof, H(proof[h], n), h + 1)
    else if roots[h] == 0 then DeleteFrom(H, roots[h := proof[h]], proof, 0, h + 1)
    else DeleteFrom(H, roots[h := 0], proof, H(proof[h], roots[h]), h + 1)
  }

  /** The root that `proof` leads to from `node` at position `index`. */
  function ProofRoot(H: Hash, proof: seq<int>, index: nat, node: int): int
    decreases |proof|
  {
    if proof == [] then node
    else if index % 2 == 0 then ProofRoot(H, proof[1..], index / 2, H(node, proof[0]))
    else ProofRoot(H, proof[1..], index / 2, H(proof[0], node))
  }

  predicate Included(H: Hash, roots: seq<int>, leaf: int, index: nat, proof: seq<int>)
    requires |proof| < |roots|
  {
    roots[|proof|] == ProofRoot(H, proof, index, leaf)
  }

  class Accumulator {
    const hash: Hash
    var roots: array<int>

    ghost predicate Valid()
      reads this
    {
      roots.Length == ROOTS_LEN
    }

    constructor (hash: Hash)
      ensures this.hash == hash
      ensures Valid() && fresh(roots)
      ensures roots[..] == seq(ROOTS_LEN, i => 0)
    {
      this.hash := hash;
      roots := new int[ROOTS_LEN](i => 0);
    }

    method Add(leaf: int)
      requires Valid() && HasRoom(roots[..], 0)
      modifies this
      ensures Valid() && fresh(roots)
      ensures roots[..] == AddFrom(hash, old(roots[..]), leaf, 0)
    {
      var rootsOut := new int[ROOTS_LEN];
      assert rootsOut[..0] + roots[0..] == roots[..];
      AddLoop(roots, rootsOut, leaf, 0);
      roots := rootsOut;
    }

    method AddLoop(rootsIn: array<int>, rootsOut: array<int>, n: int, h: nat)
      requires rootsIn != rootsOut && rootsIn.Length == rootsOut.Length == ROOTS_LEN
      requires h <= ROOTS_LEN && HasRoom(rootsOut[..h] + rootsIn[h..], h)
      modifies rootsOut
      ensures rootsOut[..] == AddFrom(hash, old(rootsOut[..h]) + rootsIn[h..], n, h)
      decreases ROOTS_LEN - h
    {
      ghost var merged := rootsOut[..h] + rootsIn[h..];
      var r := rootsIn[h];
      assert merged[h] == r;
      if r == 0 {
        rootsOut[h] := n;
        CopyRoots(rootsIn, rootsOut, h + 1);
        assert rootsOut[..] == merged[h := n];
      } else {
        rootsOut[h] := 0;
        assert rootsOut[..h + 1] + rootsIn[h + 1..] == merged[h := 0];
        HasRoomAbove(merged, h, 0);
        AddLoop(rootsIn, rootsOut, hash(r, n), h + 1);
      }
    }

    /** Accepts only a leaf that the proof shows to be under the root of slot `|proof|`. */
    method Delete(leaf: int, leafIndex: nat, proof: seq<int>) returns (accepted: bool)
      requires Valid() && |proof| < ROOTS_LEN
      modifies this
      ensures Valid() && accepted == Included(hash, old(roots[..]), leaf, leafIndex, proof)
      ensures accepted ==> fresh(roots) && roots[..] == DeleteFrom(hash, old(roots[..]), proof, 0, 0)
      ensures !accepted ==> roots == old(roots) && roots[..] == old(roots[..])
    {
      accepted := ProveInclusion(leaf, leafIndex, proof);
      if !accepted { return; }
      var rootsOut := new int[ROOTS_LEN];
      assert rootsOut[..0] + roots[0..] == roots[..];
      DeleteLoop(roots, rootsOut, proof, 0, 0);
      roots := rootsOut;
    }

    method DeleteLoop(rootsIn: array<int>, rootsOut: array<int>, proof: seq<int>, n: int, h: nat)
      requires rootsIn != rootsOut && rootsIn.Length == rootsOut.Length == ROOTS_LEN
      requires h <= |proof| < ROOTS_LEN
      modifies rootsOut
      ensures rootsOut[..] == DeleteFrom(hash, old(rootsOut[..h]) + rootsIn[h..], proof, n, h)
      decreases |proof| - h
    {
      ghost var merged := rootsOut[..h] + rootsIn[h..];
      assert merged[h] == rootsIn[h];
      if h == |proof| {
        rootsOut[h] := n;
        CopyRoots(rootsIn, rootsOut, h + 1);
        assert rootsOut[..] == merged[h := n];
        return;
      }
      var p := proof[h];
      if n != 0 {
        rootsOut[h] := rootsIn[h];
        assert rootsOut[..h + 1] + rootsIn[h + 1..] == merged;
        DeleteLoop(rootsIn, rootsOut, proof, hash(p, n), h + 1);
      } else if rootsIn[h] == 0 {
        rootsOut[h] := p;
        assert rootsOut[..h + 1] + rootsIn[h + 1..] == merged[h := p];
        DeleteLoop(rootsIn, rootsOut, proof, n, h + 1);
      } else {
        rootsOut[h] := 0;
        assert rootsOut[..h + 1] + rootsIn[h + 1..] == merged[h := 0];
        DeleteLoop(rootsIn, rootsOut, proof, hash(p, rootsIn[h]), h + 1);
      }
    }

    method ProveInclusion(leaf: int, leafIndex: nat, proof: seq<int>) returns (included: bool)
      requires Valid() && |proof| < ROOTS_LEN
      ensures included == Included(hash, roots[..], leaf, leafIndex, proof)
    {
      var proofRoot := ProveInclusionLoop(proof, leafIndex, leaf);
      included := roots[|proof|] == proofRoot;
    }

    /** The lowest bit of the position says on which side of its sibling the node is. */
    method ProveInclusionLoop(proof: seq<int>, index: nat, prevNode: int) returns (root: int)
      ensures root == ProofRoot(hash, proof, index, prevNode)
      decreases |proof|
    {
      if proof == [] { return prevNode; }
      var lowestBit := index % 2;
      var nextIndex := (index - lowestBit) / 2;
      var nextNode := if lowestBit == 0 then hash(prevNode, proof[0]) else hash(proof[0], prevNode);
      root := ProveInclusionLoop(proof[1..], nextIndex, nextNode);
    }

    /** `memcpy(roots_out + h, roots_in + h, UTREEXO_ROOTS_LEN - h)` */
    method CopyRoots(rootsIn: array<int>, rootsOut: array<int>, h: nat)
      requires rootsIn != rootsOut && rootsIn.Length == rootsOut.Length && h <= rootsIn.Length
      modifies rootsOut
      ensures rootsOut[..h] == old(rootsOut[..h]) && rootsOut[h..] == rootsIn[h..]
    {
      forall i | h <= i < rootsIn.Length {
        rootsOut[i] := rootsIn[i];
      }
    }
  }
}
