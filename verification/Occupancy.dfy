/**
  The number of leaves that the occupied slots of the Cairo accumulator stand for. Whatever the roots are,
  an addition adds one to it, and a deletion along a proof takes one away.
*/
module Occupancy {
  import opened Arithmetic
  import opened HashTrees
  import opened Forests
  import opened Lockstep
  import opened Utreexo

  /** Slot `h` of the roots stands for 2^h leaves. */
  function Stored(roots: seq<int>): nat {
    if roots == [] then 0 else (if roots[0] == 0 then 0 else 1) + 2 * Stored(roots[1..])
  }

  lemma StoredFrom(roots: seq<int>, h: nat)
    requires h < |roots|
    ensures Stored(roots[h..]) == (if roots[h] == 0 then 0 else 1) + 2 * Stored(roots[h + 1..])
  {
    assert roots[h..][1..] == roots[h + 1..];
  }

  /** The slots above a slot that is overwritten. */
  lemma SlotsAbove(roots: seq<int>, h: nat, v: int)
    requires h < |roots|
    ensures roots[h := v][h + 1..] == roots[h + 1..]
  {
  }

  lemma {:induction false} AddStores(H: Hash, roots: seq<int>, n: int, h: nat)
    requires NeverZero(H) && n != 0 && HasRoom(roots, h)
    ensures Stored(AddFrom(H, roots, n, h)[h..]) == Stored(roots[h..]) + 1
    decreases |roots| - h
  {
    var after := AddFrom(H, roots, n, h);
    StoredFrom(roots, h);
    StoredFrom(after, h);
    if roots[h] == 0 {
      SlotsAbove(roots, h, n);
    } else {
      HashNotZero(H, roots[h], n);
      HasRoomAbove(roots, h, 0);
      SlotsAbove(roots, h, 0);
      AddStores(H, roots[h := 0], H(roots[h], n), h + 1);
      assert after[h] == after[..h + 1][h] == 0;
    }
  }

  lemma {:induction false} DeleteStores(H: Hash, roots: seq<int>, proof: seq<int>, n: int, h: nat)
    requires NeverZero(H) && h <= |proof| < |roots| && roots[|proof|] != 0
    requires forall i :: 0 <= i < |proof| ==> proof[i] != 0
    ensures Stored(DeleteFrom(H, roots, proof, n, h)[h..]) + (if n == 0 then 1 else 0) == Stored(roots[h..])
    decreases |proof| - h
  {
    var after := DeleteFrom(H, roots, proof, n, h);
    StoredFrom(roots, h);
    StoredFrom(after, h);
    if h == |proof| {
      SlotsAbove(roots, h, n);
    } else if n != 0 {
      HashNotZero(H, proof[h], n);
      DeleteStores(H, roots, proof, H(proof[h], n), h + 1);
      assert after[h] == after[..h + 1][h];
    } else if roots[h] == 0 {
      SlotsAbove(roots, h, proof[h]);
      DeleteStores(H, roots[h := proof[h]], proof, 0, h + 1);
      assert after[h] == after[..h + 1][h];
    } else {
      SlotsAbove(roots, h, 0);
      HashNotZero(H, proof[h], roots[h]);
      DeleteStores(H, roots[h := 0], proof, H(proof[h], roots[h]), h + 1);
      assert after[h] == after[..h + 1][h];
    }
  }

  lemma {:induction false} StoredBound(roots: seq<int>)
    ensures Stored(roots) < Pow2(|roots|)
  {
    if roots != [] { StoredBound(roots[1..]); }
  }

  /** A carry stops inside the slots exactly while they are not all occupied. */
  lemma {:induction false} RoomIs(roots: seq<int>, h: nat)
    requires h <= |roots|
    ensures HasRoom(roots, h) <==> Stored(roots[h..]) + 1 < Pow2(|roots| - h)
    decreases |roots| - h
  {
    if h < |roots| {
      StoredFrom(roots, h);
      RoomIs(roots, h + 1);
      StoredBound(roots[h + 1..]);
    }
  }

  /** The roots of a forest stand for its leaves. */
  lemma StoredIsPopulation(H: Hash, F: Forest)
    requires NeverZero(H) && Forests.Valid(F)
    ensures Stored(Roots(H, F)) == Population(F)
  {
    PopulationDigits(F, 0);
    StoredDigits(H, F);
  }

  lemma {:induction false} StoredDigits(H: Hash, F: Forest)
    requires NeverZero(H) && Members(F, 0) == 0
    ensures Stored(Roots(H, F)) == Digits(F)
  {
    if F != [] {
      SlotRootZero(H, F, 0);
      assert Roots(H, F)[1..] == Roots(H, F[1..]);
      StoredDigits(H, F[1..]);
    }
  }

  /** The proof of a stored leaf has no zeros, and leads from a leaf that is not zero either. */
  lemma ProofNotZero(H: Hash, F: Forest, leaf: int)
    requires NeverZero(H) && Forests.Valid(F) && Members(F, leaf) > 0
    ensures leaf != 0 && forall i :: 0 <= i < |ProofOf(H, F, leaf)| ==> ProofOf(H, F, leaf)[i] != 0
  {
    PathInForest(F, leaf, Is(0));
    SlotWithin(F, SlotOf(F, leaf), Is(0));
    var sibs := Siblings(PathIn(F, leaf));
    forall i | 0 <= i < |sibs| ensures RootValue(H, sibs[i]) != 0 {
      WeightWithin(sibs, i, Is(0));
      RootValueNotZero(H, sibs[i]);
    }
  }

  lemma {:induction false} WeightWithin(ts: seq<Tree>, i: nat, f: int -> nat)
    requires i < |ts|
    ensures Weight(ts[i], f) <= WeightAll(ts, f)
  {
    if i > 0 { WeightWithin(ts[1..], i - 1, f); }
  }
}
