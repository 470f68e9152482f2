/**
  A Utreexo forest as a value: slot `h` is empty or holds a perfect tree of height `h`.
  The bridge node's heap is proved to refine these transitions, and the roots of the Cairo accumulator
  are proved to follow them, which keeps the two in lock-step.
*/
module Forests {
  import opened Wrappers
  import opened HashTrees
  import Utreexo

  type Slot = Option<Tree>
  type Forest = seq<Slot>

  function SlotWeight(s: Slot, f: int -> nat): nat {
    if s.None? then 0 else Weight(s.value, f)
  }

  /** The sum of `f` over the leaves of the forest, with repetition. */
  function ForestWeight(F: Forest, f: int -> nat): nat {
    if F == [] then 0 else SlotWeight(F[0], f) + ForestWeight(F[1..], f)
  }

  /** How often `v` is a leaf of the forest. */
  function Members(F: Forest, v: int): nat {
    ForestWeight(F, Is(v))
  }

  /** The number of leaves of the forest. */
  function Population(F: Forest): nat {
    ForestWeight(F, One())
  }

  predicate SlotPerfect(s: Slot, h: nat) {
    s.Some? ==> Perfect(s.value, h)
  }

  predicate Perfects(F: Forest) {
    forall h :: 0 <= h < |F| ==> SlotPerfect(F[h], h)
  }

  ghost predicate Valid(F: Forest) {
    |F| == Utreexo.ROOTS_LEN && Perfects(F) && Members(F, 0) == 0 && forall v :: Members(F, v) <= 1
  }

  function Empty(): (F: Forest) {
    seq(Utreexo.ROOTS_LEN, i => None)
  }

  function SlotRoot(H: Hash, s: Slot): int {
    if s.None? then 0 else RootValue(H, s.value)
  }

  /** The root values of the forest, slot by slot, 0 for an empty slot. */
  function Roots(H: Hash, F: Forest): (r: seq<int>)
    ensures |r| == |F|
  {
    seq(|F|, i requires 0 <= i < |F| => SlotRoot(H, F[i]))
  }

  /** Some slot at `h` or above is empty. */
  predicate HasEmptySlot(F: Forest, h: nat)
    decreases |F| - h
  {
    h < |F| && (F[h].None? || HasEmptySlot(F, h + 1))
  }

  // ------------------------------------------------------------------------
  // Transitions
  // ------------------------------------------------------------------------

  /** Carry the tree `t` into slot `h`. */
  function Carry(F: Forest, t: Tree, h: nat): (r: Forest)
    requires HasEmptySlot(F, h)
    ensures |r| == |F|
    decreases |F| - h
  {
    if F[h].None? then
      F[h := Some(t)]
    else
      EmptySlotAbove(F, F[h := None], h + 1);
      Carry(F[h := None], Branch(F[h].value, t), h + 1)
  }

  lemma {:induction false} EmptySlotAbove(F: Forest, G: Forest, h: nat)
    requires |F| == |G| && HasEmptySlot(F, h)
    requires forall i :: h <= i < |F| ==> F[i] == G[i]
    ensures HasEmptySlot(G, h)
    decreases |F| - h
  {
    if F[h].Some? { EmptySlotAbove(F, G, h + 1); }
  }

  /** Hand the siblings of a removed path back to the forest, from level `h` up to slot `|sibs|`. */
  function Dismantle(F: Forest, sibs: seq<Tree>, n: Slot, h: nat): (r: Forest)
    requires h <= |sibs| < |F|
    ensures |r| == |F|
    decreases |sibs| - h
  {
    if h == |sibs| then F[h := n]
    else if n.Some? then Dismantle(F, sibs, Some(Branch(sibs[h], n.value)), h + 1)
    else if F[h].None? then Dismantle(F[h := Some(sibs[h])], sibs, None, h + 1)
    else Dismantle(F[h := None], sibs, Some(Branch(sibs[h], F[h].value)), h + 1)
  }

  function Add(F: Forest, leaf: int): Forest
    requires HasEmptySlot(F, 0)
  {
    Carry(F, Leaf(leaf), 0)
  }

  /** The slot of the tree that holds `leaf`. */
  function SlotOf(F: Forest, leaf: int): (h: nat)
    requires Members(F, leaf) > 0
    ensures h < |F| && F[h].Some? && Count(F[h].value, leaf) > 0
  {
    if SlotWeight(F[0], Is(leaf)) > 0 then 0 else 1 + SlotOf(F[1..], leaf)
  }

  function PathIn(F: Forest, leaf: int): seq<Step>
    requires Members(F, leaf) > 0
  {
    PathTo(F[SlotOf(F, leaf)].value, leaf)
  }

  function Delete(F: Forest, leaf: int): Forest
    requires Members(F, leaf) > 0 && |PathIn(F, leaf)| < |F|
  {
    Dismantle(F, Siblings(PathIn(F, leaf)), None, 0)
  }

  // ------------------------------------------------------------------------
  // Weights: what each transition does to the leaves
  // ------------------------------------------------------------------------

  lemma {:induction false} UpdateWeight(F: Forest, h: nat, s: Slot, f: int -> nat)
    requires h < |F|
    ensures ForestWeight(F[h := s], f) == ForestWeight(F, f) - SlotWeight(F[h], f) + SlotWeight(s, f)
  {
    var G := F[h := s];
    if h == 0 {
      assert G[1..] == F[1..];
    } else {
      assert G[1..] == F[1..][h - 1 := s];
      UpdateWeight(F[1..], h - 1, s, f);
    }
  }

  lemma {:induction false} SlotWithin(F: Forest, h: nat, f: int -> nat)
    requires h < |F|
    ensures SlotWeight(F[h], f) <= ForestWeight(F, f)
  {
    UpdateWeight(F, h, None, f);
  }

  lemma {:induction false} NoWeight(F: Forest, f: int -> nat)
    requires forall i :: 0 <= i < |F| ==> F[i].None?
    ensures ForestWeight(F, f) == 0
  {
    if F != [] { NoWeight(F[1..], f); }
  }

  lemma {:induction false} CarryPerfects(F: Forest, t: Tree, h: nat)
    requires HasEmptySlot(F, h) && Perfects(F) && Perfect(t, h)
    ensures Perfects(Carry(F, t, h))
    decreases |F| - h
  {
    if F[h].Some? {
      EmptySlotAbove(F, F[h := None], h + 1);
      CarryPerfects(F[h := None], Branch(F[h].value, t), h + 1);
    }
  }

  lemma {:induction false} CarryWeight(F: Forest, t: Tree, h: nat, f: int -> nat)
    requires HasEmptySlot(F, h)
    ensures ForestWeight(Carry(F, t, h), f) == ForestWeight(F, f) + Weight(t, f)
    decreases |F| - h
  {
    if F[h].None? {
      UpdateWeight(F, h, Some(t), f);
    } else {
      EmptySlotAbove(F, F[h := None], h + 1);
      UpdateWeight(F, h, None, f);
      CarryWeight(F[h := None], Branch(F[h].value, t), h + 1, f);
    }
  }

  lemma {:induction false} DismantlePerfects(F: Forest, sibs: seq<Tree>, n: Slot, h: nat)
    requires h <= |sibs| < |F| && Perfects(F) && SlotPerfect(n, h) && Staircase(sibs[h..], h)
    ensures Perfects(Dismantle(F, sibs, n, h))
    decreases |sibs| - h
  {
    if h == |sibs| {
    } else {
      assert sibs[h..][1..] == sibs[h + 1..];
      if n.Some? { DismantlePerfects(F, sibs, Some(Branch(sibs[h], n.value)), h + 1); }
      else if F[h].None? { DismantlePerfects(F[h := Some(sibs[h])], sibs, None, h + 1); }
      else { DismantlePerfects(F[h := None], sibs, Some(Branch(sibs[h], F[h].value)), h + 1); }
    }
  }

  /** The tree that is being taken apart plays no role until its slot is overwritten. */
  lemma {:induction false} DismantleIgnoresTop(F: Forest, sibs: seq<Tree>, n: Slot, h: nat, s: Slot)
    requires h <= |sibs| < |F|
    ensures Dismantle(F[|sibs| := s], sibs, n, h) == Dismantle(F, sibs, n, h)
    decreases |sibs| - h
  {
    var top := |sibs|;
    if h == top {
    } else if n.Some? {
      DismantleIgnoresTop(F, sibs, Some(Branch(sibs[h], n.value)), h + 1, s);
    } else if F[h].None? {
      assert F[top := s][h := Some(sibs[h])] == F[h := Some(sibs[h])][top := s];
      DismantleIgnoresTop(F[h := Some(sibs[h])], sibs, None, h + 1, s);
    } else {
      assert F[top := s][h := None] == F[h := None][top := s];
      DismantleIgnoresTop(F[h := None], sibs, Some(Branch(sibs[h], F[h].value)), h + 1, s);
    }
  }

  lemma {:induction false} DismantleWeight(F: Forest, sibs: seq<Tree>, n: Slot, h: nat, f: int -> nat)
    requires h <= |sibs| < |F|
    ensures ForestWeight(Dismantle(F, sibs, n, h), f)
         == ForestWeight(F, f) - SlotWeight(F[|sibs|], f) + WeightAll(sibs[h..], f) + SlotWeight(n, f)
    decreases |sibs| - h
  {
    if h == |sibs| {
      UpdateWeight(F, h, n, f);
    } else {
      assert sibs[h..][1..] == sibs[h + 1..];
      if n.Some? {
        DismantleWeight(F, sibs, Some(Branch(sibs[h], n.value)), h + 1, f);
      } else if F[h].None? {
        UpdateWeight(F, h, Some(sibs[h]), f);
        DismantleWeight(F[h := Some(sibs[h])], sibs, None, h + 1, f);
      } else {
        UpdateWeight(F, h, None, f);
        DismantleWeight(F[h := None], sibs, Some(Branch(sibs[h], F[h].value)), h + 1, f);
      }
    }
  }

  // ------------------------------------------------------------------------
  // Adding and deleting a leaf
  // ------------------------------------------------------------------------

  lemma EmptyForest()
    ensures Valid(Empty()) && Population(Empty()) == 0
    ensures forall v :: Members(Empty(), v) == 0
  {
    NoWeight(Empty(), One());
    forall v ensures Members(Empty(), v) == 0 { NoWeight(Empty(), Is(v)); }
  }

  /** Adding keeps the forest valid and adds exactly the one leaf. */
  lemma AddKeeps(F: Forest, leaf: int)
    requires Valid(F) && HasEmptySlot(F, 0) && leaf != 0 && Members(F, leaf) == 0
    ensures Valid(Add(F, leaf))
    ensures forall v :: Members(Add(F, leaf), v) == if v == leaf then 1 else Members(F, v)
    ensures Population(Add(F, leaf)) == Population(F) + 1
  {
    CarryPerfects(F, Leaf(leaf), 0);
    CarryWeight(F, Leaf(leaf), 0, One());
    forall v ensures Members(Add(F, leaf), v) == if v == leaf then 1 else Members(F, v) {
      CarryWeight(F, Leaf(leaf), 0, Is(v));
    }
  }

  /** The tree of a member is its leaf and the siblings on its path. */
  lemma PathInForest(F: Forest, leaf: int, f: int -> nat)
    requires Perfects(F) && Members(F, leaf) > 0
    ensures |PathIn(F, leaf)| == SlotOf(F, leaf) < |F|
    ensures Plug(Leaf(leaf), PathIn(F, leaf)) == F[SlotOf(F, leaf)].value
    ensures Staircase(Siblings(PathIn(F, leaf)), 0)
    ensures SlotWeight(F[SlotOf(F, leaf)], f) == f(leaf) + WeightAll(Siblings(PathIn(F, leaf)), f)
  {
    var h, path := SlotOf(F, leaf), PathIn(F, leaf);
    assert SlotPerfect(F[h], h);
    PathRebuilds(F[h].value, h, leaf);
    PlugHeights(Leaf(leaf), path, 0);
    PlugWeight(Leaf(leaf), path, f);
  }

  lemma DeleteWeight(F: Forest, leaf: int, f: int -> nat)
    requires Valid(F) && Members(F, leaf) > 0
    ensures |PathIn(F, leaf)| < |F|
    ensures ForestWeight(Delete(F, leaf), f) == ForestWeight(F, f) - f(leaf)
  {
    PathInForest(F, leaf, f);
    var sibs := Siblings(PathIn(F, leaf));
    assert sibs[0..] == sibs;
    DismantleWeight(F, sibs, None, 0, f);
  }

  /** Deleting keeps the forest valid and removes exactly the one leaf. */
  lemma DeleteKeeps(F: Forest, leaf: int)
    requires Valid(F) && Members(F, leaf) > 0
    ensures |PathIn(F, leaf)| < |F|
    ensures Valid(Delete(F, leaf))
    ensures forall v :: Members(Delete(F, leaf), v) == if v == leaf then 0 else Members(F, v)
    ensures Population(Delete(F, leaf)) == Population(F) - 1
  {
    DeleteWeight(F, leaf, One());
    forall v ensures Members(Delete(F, leaf), v) == if v == leaf then 0 else Members(F, v) {
      DeleteWeight(F, leaf, Is(v));
    }
    var sibs := Siblings(PathIn(F, leaf));
    PathInForest(F, leaf, One());
    assert sibs[0..] == sibs;
    DismantlePerfects(F, sibs, None, 0);
  }
}
