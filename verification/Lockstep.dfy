/**
  The forest of the bridge node and the roots of the Cairo accumulator stay in lock-step, and the
  accumulator accepts exactly the proofs that the bridge node hands out.
*/
module Lockstep {
  import opened Wrappers
  import opened Arithmetic
  import opened HashTrees
  import opened Forests
  import opened Utreexo

  // ------------------------------------------------------------------------
  // Roots follow the forest
  // ------------------------------------------------------------------------

  lemma RootsUpdate(H: Hash, F: Forest, h: nat, s: Slot)
    requires h < |F|
    ensures Roots(H, F[h := s]) == Roots(H, F)[h := SlotRoot(H, s)]
  {
  }

  /** A tree sitting in a slot of a forest without the leaf 0 has a nonzero root. */
  lemma SlotRootZero(H: Hash, F: Forest, h: nat)
    requires NeverZero(H) && Members(F, 0) == 0 && h < |F|
    ensures Roots(H, F)[h] == 0 <==> F[h].None?
  {
    SlotWithin(F, h, Is(0));
    if F[h].Some? { RootValueNotZero(H, F[h].value); }
  }

  lemma {:induction false} RoomMatches(H: Hash, F: Forest, h: nat)
    requires NeverZero(H) && Members(F, 0) == 0
    ensures HasEmptySlot(F, h) <==> HasRoom(Roots(H, F), h)
    decreases |F| - h
  {
    if h < |F| {
      SlotRootZero(H, F, h);
      RoomMatches(H, F, h + 1);
    }
  }

  lemma {:induction false} CarryRoots(H: Hash, F: Forest, t: Tree, h: nat)
    requires NeverZero(H) && Members(F, 0) == 0 && HasEmptySlot(F, h)
    ensures HasRoom(Roots(H, F), h)
    ensures Roots(H, Carry(F, t, h)) == AddFrom(H, Roots(H, F), RootValue(H, t), h)
    decreases |F| - h
  {
    RoomMatches(H, F, h);
    SlotRootZero(H, F, h);
    if F[h].None? {
      RootsUpdate(H, F, h, Some(t));
    } else {
      var G := F[h := None];
      EmptySlotAbove(F, G, h + 1);
      UpdateWeight(F, h, None, Is(0));
      RootsUpdate(H, F, h, None);
      CarryRoots(H, G, Branch(F[h].value, t), h + 1);
    }
  }

  lemma {:induction false} DismantleRoots(H: Hash, F: Forest, sibs: seq<Tree>, n: Slot, h: nat)
    requires NeverZero(H) && Members(F, 0) == 0
    requires h <= |sibs| < |F| && WeightAll(sibs[h..], Is(0)) == 0 && SlotWeight(n, Is(0)) == 0
    ensures Roots(H, Dismantle(F, sibs, n, h)) == DeleteFrom(H, Roots(H, F), RootValues(H, sibs), SlotRoot(H, n), h)
    decreases |sibs| - h
  {
    if n.Some? { RootValueNotZero(H, n.value); }
    if h == |sibs| {
      RootsUpdate(H, F, h, n);
    } else {
      assert sibs[h..][1..] == sibs[h + 1..];
      SlotRootZero(H, F, h);
      if n.Some? {
        DismantleRoots(H, F, sibs, Some(Branch(sibs[h], n.value)), h + 1);
      } else if F[h].None? {
        UpdateWeight(F, h, Some(sibs[h]), Is(0));
        RootsUpdate(H, F, h, Some(sibs[h]));
        DismantleRoots(H, F[h := Some(sibs[h])], sibs, None, h + 1);
      } else {
        SlotWithin(F, h, Is(0));
        UpdateWeight(F, h, None, Is(0));
        RootsUpdate(H, F, h, None);
        DismantleRoots(H, F[h := None], sibs, Some(Branch(sibs[h], F[h].value)), h + 1);
      }
    }
  }

  // ------------------------------------------------------------------------
  // Adding and deleting a leaf
  // ------------------------------------------------------------------------

  /** When a leaf is added, the Cairo roots follow the forest. */
  lemma AddRoots(H: Hash, F: Forest, leaf: int)
    requires NeverZero(H) && Valid(F) && HasEmptySlot(F, 0) && leaf != 0
    ensures HasRoom(Roots(H, F), 0)
    ensures Roots(H, Add(F, leaf)) == AddFrom(H, Roots(H, F), leaf, 0)
  {
    CarryRoots(H, F, Leaf(leaf), 0);
  }

  /** The proof the bridge node hands out for `leaf`: sibling root values from the leaf upwards. */
  function ProofOf(H: Hash, F: Forest, leaf: int): seq<int>
    requires Members(F, leaf) > 0
  {
    RootValues(H, Siblings(PathIn(F, leaf)))
  }

  function IndexOf(F: Forest, leaf: int): nat
    requires Members(F, leaf) > 0
  {
    PathIndex(PathIn(F, leaf))
  }

  /** When a leaf is deleted with its proof, the Cairo roots follow the forest. */
  lemma DeleteRoots(H: Hash, F: Forest, leaf: int)
    requires NeverZero(H) && Valid(F) && Members(F, leaf) > 0
    ensures |PathIn(F, leaf)| < |F|
    ensures Roots(H, Delete(F, leaf)) == DeleteFrom(H, Roots(H, F), ProofOf(H, F, leaf), 0, 0)
  {
    PathInForest(F, leaf, Is(0));
    var sibs := Siblings(PathIn(F, leaf));
    assert sibs[0..] == sibs;
    SlotWithin(F, SlotOf(F, leaf), Is(0));
    DismantleRoots(H, F, sibs, None, 0);
  }

  // ------------------------------------------------------------------------
  // Inclusion proofs
  // ------------------------------------------------------------------------

  lemma {:induction false} PathProves(H: Hash, t: Tree, path: seq<Step>)
    ensures ProofRoot(H, RootValues(H, Siblings(path)), PathIndex(path), RootValue(H, t)) == RootValue(H, Plug(t, path))
    decreases |path|
  {
    if path != [] {
      PathProves(H, Join(t, path[0]), path[1..]);
      assert RootValues(H, Siblings(path))[1..] == RootValues(H, Siblings(path[1..]));
    }
  }

  /** What the bridge node hands out for a member, the accumulator accepts. */
  lemma ProofAccepted(H: Hash, F: Forest, leaf: int)
    requires Perfects(F) && Members(F, leaf) > 0
    ensures |ProofOf(H, F, leaf)| < |F|
    ensures Included(H, Roots(H, F), leaf, IndexOf(F, leaf), ProofOf(H, F, leaf))
  {
    PathInForest(F, leaf, One());
    PathProves(H, Leaf(leaf), PathIn(F, leaf));
  }

  lemma {:induction false} ProofRootAppend(H: Hash, proof: seq<int>, p: int, index: nat, node: int)
    ensures ProofRoot(H, proof + [p], index, node)
         == if index / Pow2(|proof|) % 2 == 0 then H(ProofRoot(H, proof, index, node), p)
            else H(p, ProofRoot(H, proof, index, node))
    decreases |proof|
  {
    if proof == [] {
      assert (proof + [p])[1..] == [];
    } else {
      assert (proof + [p])[1..] == proof[1..] + [p];
      ProofRootAppend(H, proof[1..], p, index / 2, if index % 2 == 0 then H(node, proof[0]) else H(proof[0], node));
      HalveFirst(index, Pow2(|proof| - 1));
    }
  }

  /** Under a collision-free hash, a proof that leads to the root of a perfect tree is a path of that tree. */
  lemma {:induction false} ProofIsPath(H: Hash, t: Tree, proof: seq<int>, index: nat, leaf: int)
      returns (path: seq<Step>)
    requires Injective(H) && Perfect(t, |proof|)
    requires ProofRoot(H, proof, index, leaf) == RootValue(H, t)
    ensures |path| == |proof| && Plug(Leaf(leaf), path) == t
    ensures RootValues(H, Siblings(path)) == proof
    ensures PathIndex(path) == index % Pow2(|proof|)
    decreases |proof|
  {
    if proof == [] {
      path := [];
    } else {
      var k := |proof| - 1;
      var front, p := proof[..k], proof[k];
      assert proof == front + [p];
      ProofRootAppend(H, front, p, index, leaf);
      var onRight := index / Pow2(k) % 2 != 0;
      var s := if onRight then Step(true, t.left) else Step(false, t.right);
      var lower := ProofIsPath(H, if onRight then t.right else t.left, front, index, leaf);
      path := lower + [s];
      PlugAppend(Leaf(leaf), lower, s);
      PathIndexAppend(lower, s);
      NextBit(index, Pow2(k));
      assert Siblings(path) == Siblings(lower) + [s.sibling];
      assert RootValues(H, Siblings(path)) == RootValues(H, Siblings(lower)) + [RootValue(H, s.sibling)];
    }
  }

  /**
    The accumulator accepts a leaf, a position and a proof if and only if the leaf is in the forest,
    the proof is the one the bridge node hands out, and the position is that leaf's position
    (the code never looks at the position's bits above the proof).
  */
  lemma AcceptedExactly(H: Hash, F: Forest, leaf: int, index: nat, proof: seq<int>)
    requires NeverZero(H) && Injective(H) && Valid(F) && leaf != 0 && |proof| < |F|
    ensures Included(H, Roots(H, F), leaf, index, proof) <==>
      && Members(F, leaf) > 0
      && proof == ProofOf(H, F, leaf)
      && index % Pow2(|proof|) == IndexOf(F, leaf)
  {
    var h := |proof|;
    if Members(F, leaf) > 0 && proof == ProofOf(H, F, leaf) && index % Pow2(h) == IndexOf(F, leaf) {
      ProofAccepted(H, F, leaf);
      IndexModulo(H, proof, index, leaf);
    }
    if Included(H, Roots(H, F), leaf, index, proof) {
      ProofRootNotZero(H, proof, index, leaf);
      SlotRootZero(H, F, h);
      assert SlotPerfect(F[h], h);
      var t := F[h].value;
      var path := ProofIsPath(H, t, proof, index, leaf);
      PlugWeight(Leaf(leaf), path, Is(leaf));
      SlotWithin(F, h, Is(leaf));
      OnlySlot(F, leaf, h);
      PathUnique(leaf, path);
    }
  }

  lemma HashNotZero(H: Hash, x: int, y: int)
    requires NeverZero(H)
    ensures H(x, y) != 0
  {
  }

  lemma {:induction false} ProofRootNotZero(H: Hash, proof: seq<int>, index: nat, node: int)
    requires NeverZero(H) && node != 0
    ensures ProofRoot(H, proof, index, node) != 0
    decreases |proof|
  {
    if proof != [] {
      var p: int := proof[0];
      HashNotZero(H, node, p);
      HashNotZero(H, p, node);
      ProofRootNotZero(H, proof[1..], index / 2, if index % 2 == 0 then H(node, p) else H(p, node));
    }
  }

  lemma {:induction false} IndexModulo(H: Hash, proof: seq<int>, index: nat, node: int)
    ensures ProofRoot(H, proof, index % Pow2(|proof|), node) == ProofRoot(H, proof, index, node)
    decreases |proof|
  {
    if proof != [] {
      var k := Pow2(|proof| - 1);
      var q, r := index / (2 * k), index % (2 * k);
      assert index == q * (2 * k) + r == 2 * (q * k) + r;
      assert index / 2 == q * k + r / 2;
      QuotientIs(index / 2, k, q, r / 2);
      IndexModulo(H, proof[1..], index / 2, if index % 2 == 0 then H(node, proof[0]) else H(proof[0], node));
    }
  }

  lemma {:induction false} OnlySlot(F: Forest, leaf: int, h: nat)
    requires h < |F| && SlotWeight(F[h], Is(leaf)) > 0 && Members(F, leaf) == 1
    ensures SlotOf(F, leaf) == h
  {
    if h > 0 {
      SlotWithin(F[1..], h - 1, Is(leaf));
      OnlySlot(F[1..], leaf, h - 1);
    }
  }

  /** Whatever proof the accumulator accepts, its new roots are those of the forest without the leaf. */
  lemma AcceptedDelete(H: Hash, F: Forest, leaf: int, index: nat, proof: seq<int>)
    requires NeverZero(H) && Injective(H) && Valid(F) && leaf != 0 && |proof| < |F|
    requires Included(H, Roots(H, F), leaf, index, proof)
    ensures Members(F, leaf) == 1 && |PathIn(F, leaf)| < |F|
    ensures DeleteFrom(H, Roots(H, F), proof, 0, 0) == Roots(H, Delete(F, leaf))
  {
    AcceptedExactly(H, F, leaf, index, proof);
    DeleteRoots(H, F, leaf);
  }

  // ------------------------------------------------------------------------
  // The occupied slots are the binary digits of the number of leaves
  // ------------------------------------------------------------------------

  function Digits(F: Forest): nat {
    if F == [] then 0 else (if F[0].Some? then 1 else 0) + 2 * Digits(F[1..])
  }

  lemma {:induction false} PopulationDigits(F: Forest, k: nat)
    requires forall h :: 0 <= h < |F| ==> SlotPerfect(F[h], k + h)
    ensures Population(F) == Pow2(k) * Digits(F)
  {
    if F != [] {
      assert SlotPerfect(F[0], k + 0);
      if F[0].Some? { PerfectSize(F[0].value, k); }
      forall h | 0 <= h < |F[1..]| ensures SlotPerfect(F[1..][h], k + 1 + h) {
        assert SlotPerfect(F[h + 1], k + (h + 1));
      }
      PopulationDigits(F[1..], k + 1);
      DigitsStep(Pow2(k), if F[0].Some? then 1 else 0, Digits(F[1..]));
    }
  }

  lemma DigitsStep(p: nat, first: nat, rest: nat)
    requires first <= 1
    ensures (if first == 1 then p else 0) + (2 * p) * rest == p * (first + 2 * rest)
  {
    if first == 1 { assert p * (1 + 2 * rest) == p + p * (2 * rest); }
  }

  lemma PowerStep(h: nat)
    requires h > 0
    ensures Pow2(h) == 2 * Pow2(h - 1)
  {
  }

  lemma HigherDigit(first: nat, rest: nat, k: nat)
    requires first <= 1 && k > 0
    ensures (first + 2 * rest) / (2 * k) == rest / k
  {
    HalveFirst(first + 2 * rest, k);
  }

  lemma FirstDigit(F: Forest)
    requires F != []
    ensures Digits(F) == (if F[0].Some? then 1 else 0) + 2 * Digits(F[1..])
  {
  }

  lemma {:induction false} DigitAt(F: Forest, h: nat)
    requires h < |F|
    ensures F[h].Some? <==> Digits(F) / Pow2(h) % 2 == 1
  {
    hide Pow2, Digits;
    FirstDigit(F);
    if h > 0 {
      DigitAt(F[1..], h - 1);
      PowerStep(h);
      HigherDigit(if F[0].Some? then 1 else 0, Digits(F[1..]), Pow2(h - 1));
    } else {
      PowerZero();
      LastBit(if F[0].Some? then 1 else 0, Digits(F[1..]));
    }
  }

  lemma LastBit(first: nat, rest: nat)
    requires first <= 1
    ensures (first + 2 * rest) / 1 % 2 == first
  {
  }

  lemma {:induction false} DigitsBound(F: Forest)
    ensures Digits(F) < Pow2(|F|)
  {
    if F != [] { DigitsBound(F[1..]); }
  }

  /** Slot `h` is occupied exactly when bit `h` of the number of leaves is 1. */
  lemma OccupiedSlots(F: Forest, h: nat)
    requires Valid(F) && h < |F|
    ensures F[h].Some? <==> Population(F) / Pow2(h) % 2 == 1
    ensures Population(F) < Pow2(|F|)
  {
    PopulationDigits(F, 0);
    DigitAt(F, h);
    DigitsBound(F);
  }

  lemma {:induction false} RoomDigits(F: Forest, h: nat)
    requires h <= |F|
    ensures HasEmptySlot(F, h) <==> Digits(F[h..]) + 1 < Pow2(|F| - h)
    decreases |F| - h
  {
    if h < |F| {
      assert F[h..][1..] == F[h + 1..];
      RoomDigits(F, h + 1);
      DigitsBound(F[h + 1..]);
    }
  }

  lemma PowerZero()
    ensures Pow2(0) == 1
  {
  }

  /** 27 slots make room for 2^27 - 1 leaves. */
  lemma SlotsInNumbers()
    ensures Pow2(ROOTS_LEN) == 0x800_0000
  {
    PowAdd(2, 16, 11);
    PowAdd(2, 8, 8);
    assert Pow2(8) == 2 * Pow2(7) == 4 * Pow2(6) == 8 * Pow2(5) == 16 * Pow2(4) == 32 * Pow2(3) == 256;
    assert Pow2(11) == 2 * Pow2(10) == 4 * Pow2(9) == 8 * Pow2(8);
  }

  /** The carry of an addition stops inside the 27 slots exactly while fewer than 2^27 - 1 leaves are stored. */
  lemma RoomExactly(F: Forest)
    requires Valid(F)
    ensures HasEmptySlot(F, 0) <==> Population(F) + 1 < 0x800_0000
    ensures Pow2(ROOTS_LEN) == 0x800_0000
  {
    hide HasEmptySlot, Pow2, ForestWeight, Digits;
    PopulationDigits(F, 0);
    assert Pow2(0) == 1 by { PowerZero(); }
    assert F[0..] == F;
    RoomDigits(F, 0);
    SlotsInNumbers();
  }
}
