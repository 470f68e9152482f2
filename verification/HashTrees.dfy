/**
  Binary hash trees over an opaque pair hash, with the paths that a Utreexo inclusion proof describes.
  A path lists the siblings from the leaf up to the root.
*/
module HashTrees {
  import opened Arithmetic

  /** The pair hash (`hash2`, `pedersen_hash`). Its inner working is never looked at. */
  type Hash = (int, int) -> int

  /** 0 marks an empty root slot, so no hash may be 0. */
  ghost predicate NeverZero(H: Hash) {
    forall x, y :: H(x, y) != 0
  }

  ghost predicate Injective(H: Hash) {
    forall a, b, c, d :: H(a, b) == H(c, d) ==> a == c && b == d
  }

  lemma InjectiveAt(H: Hash, a: int, b: int, c: int, d: int)
    requires Injective(H) && H(a, b) == H(c, d)
    ensures a == c && b == d
  {
  }

  datatype Tree = Leaf(value: int) | Branch(left: Tree, right: Tree)

  function RootValue(H: Hash, t: Tree): int {
    match t
    case Leaf(v) => v
    case Branch(l, r) => H(RootValue(H, l), RootValue(H, r))
  }

  /** `t` is a perfect tree of height `h`. */
  predicate Perfect(t: Tree, h: nat) {
    match t
    case Leaf(_) => h == 0
    case Branch(l, r) => h > 0 && Perfect(l, h - 1) && Perfect(r, h - 1)
  }

  /** The sum of `f` over the leaves of `t`, with repetition. */
  function Weight(t: Tree, f: int -> nat): nat {
    match t
    case Leaf(w) => f(w)
    case Branch(l, r) => Weight(l, f) + Weight(r, f)
  }

  function WeightAll(ts: seq<Tree>, f: int -> nat): nat {
    if ts == [] then 0 else Weight(ts[0], f) + WeightAll(ts[1..], f)
  }

  function Is(v: int): int -> nat {
    w => if w == v then 1 else 0
  }

  function One(): int -> nat {
    w => 1
  }

  /** How often `v` is a leaf of `t`. */
  function Count(t: Tree, v: int): nat {
    Weight(t, Is(v))
  }

  /** The number of leaves of `t`. */
  function Size(t: Tree): nat {
    Weight(t, One())
  }

  /** The trees of `ts` are perfect, of heights `k`, `k + 1`, and so on. */
  predicate Staircase(ts: seq<Tree>, k: nat) {
    ts == [] || (Perfect(ts[0], k) && Staircase(ts[1..], k + 1))
  }

  lemma {:induction false} RootValueNotZero(H: Hash, t: Tree)
    requires NeverZero(H) && Count(t, 0) == 0
    ensures RootValue(H, t) != 0
  {
  }

  lemma {:induction false} PerfectSize(t: Tree, h: nat)
    requires Perfect(t, h)
    ensures Size(t) == Pow2(h)
  {
    if t.Branch? {
      PerfectSize(t.left, h - 1);
      PerfectSize(t.right, h - 1);
    }
  }

  // ------------------------------------------------------------------------
  // Paths
  // ------------------------------------------------------------------------

  /** One level of a path: whether the node being proved is the right child, and its sibling. */
  datatype Step = Step(onRight: bool, sibling: Tree)

  function Join(t: Tree, s: Step): Tree {
    if s.onRight then Branch(s.sibling, t) else Branch(t, s.sibling)
  }

  /** The tree that has `t` at the bottom of `path`. */
  function Plug(t: Tree, path: seq<Step>): Tree
    decreases |path|
  {
    if path == [] then t else Plug(Join(t, path[0]), path[1..])
  }

  /** The path from `leaf` up to the root of `t`. */
  function PathTo(t: Tree, leaf: int): seq<Step>
    requires Count(t, leaf) > 0
  {
    match t
    case Leaf(_) => []
    case Branch(l, r) =>
      if Count(l, leaf) > 0 then PathTo(l, leaf) + [Step(false, r)] else PathTo(r, leaf) + [Step(true, l)]
  }

  function Siblings(path: seq<Step>): (ts: seq<Tree>)
    ensures |ts| == |path|
  {
    seq(|path|, i requires 0 <= i < |path| => path[i].sibling)
  }

  function RootValues(H: Hash, ts: seq<Tree>): (vs: seq<int>)
    ensures |vs| == |ts|
  {
    seq(|ts|, i requires 0 <= i < |ts| => RootValue(H, ts[i]))
  }

  /** The leaf index spelled by a path, least significant bit at the leaf. */
  function PathIndex(path: seq<Step>): nat {
    if path == [] then 0 else (if path[0].onRight then 1 else 0) + 2 * PathIndex(path[1..])
  }

  lemma {:induction false} SiblingsAppend(path: seq<Step>, s: Step)
    ensures Siblings(path + [s]) == Siblings(path) + [s.sibling]
  {
  }

  lemma {:induction false} PlugAppend(t: Tree, path: seq<Step>, s: Step)
    ensures Plug(t, path + [s]) == Join(Plug(t, path), s)
    decreases |path|
  {
    if path == [] {
    } else {
      assert (path + [s])[1..] == path[1..] + [s];
      PlugAppend(Join(t, path[0]), path[1..], s);
    }
  }

  lemma {:induction false} PathIndexAppend(path: seq<Step>, s: Step)
    ensures PathIndex(path) < Pow2(|path|)
    ensures PathIndex(path + [s]) == PathIndex(path) + (if s.onRight then Pow2(|path|) else 0)
  {
    if path == [] {
      assert (path + [s])[1..] == [];
    } else {
      assert (path + [s])[1..] == path[1..] + [s];
      PathIndexAppend(path[1..], s);
    }
  }

  /** Following the path of a leaf rebuilds the tree, and a perfect tree has a path as long as its height. */
  lemma {:induction false} PathRebuilds(t: Tree, h: nat, leaf: int)
    requires Count(t, leaf) > 0 && Perfect(t, h)
    ensures Plug(Leaf(leaf), PathTo(t, leaf)) == t
    ensures |PathTo(t, leaf)| == h
  {
    match t
    case Leaf(_) =>
    case Branch(l, r) =>
      if Count(l, leaf) > 0 {
        PathRebuilds(l, h - 1, leaf);
        PlugAppend(Leaf(leaf), PathTo(l, leaf), Step(false, r));
      } else {
        PathRebuilds(r, h - 1, leaf);
        PlugAppend(Leaf(leaf), PathTo(r, leaf), Step(true, l));
      }
  }

  /** What a path cuts a tree into: the bottom tree and one perfect sibling per level. */
  lemma {:induction false} PlugHeights(t: Tree, path: seq<Step>, k: nat)
    requires Perfect(Plug(t, path), k + |path|)
    ensures Perfect(t, k) && Staircase(Siblings(path), k)
    decreases |path|
  {
    if path != [] {
      PlugHeights(Join(t, path[0]), path[1..], k + 1);
      assert Siblings(path)[1..] == Siblings(path[1..]);
    }
  }

  lemma {:induction false} PlugWeight(t: Tree, path: seq<Step>, f: int -> nat)
    ensures Weight(Plug(t, path), f) == Weight(t, f) + WeightAll(Siblings(path), f)
    decreases |path|
  {
    if path != [] {
      PlugWeight(Join(t, path[0]), path[1..], f);
      assert Siblings(path)[1..] == Siblings(path[1..]);
    }
  }

  /** A leaf that does not repeat has only one path. */
  lemma {:induction false} PathUnique(leaf: int, path: seq<Step>)
    requires Count(Plug(Leaf(leaf), path), leaf) <= 1
    ensures Count(Plug(Leaf(leaf), path), leaf) == 1
    ensures PathTo(Plug(Leaf(leaf), path), leaf) == path
    decreases |path|
  {
    if path == [] {
    } else {
      var front, s := path[..|path| - 1], path[|path| - 1];
      assert path == front + [s];
      PlugAppend(Leaf(leaf), front, s);
      PathUnique(leaf, front);
    }
  }

  // ------------------------------------------------------------------------
  // The assumptions about the pair hash can be met
  // ------------------------------------------------------------------------

  function Natural(x: int): nat {
    if x >= 0 then 2 * x else -2 * x - 1
  }

  /** An injective pairing: a power of two times an odd number. */
  function Pairing(x: int, y: int): nat {
    ProductIsNat(Pow2(Natural(x)), 2 * Natural(y) + 1);
    Pow2(Natural(x)) * (2 * Natural(y) + 1)
  }

  lemma {:induction false} PowersAndOdds(i: nat, j: nat, x: nat, y: nat)
    requires Pow2(i) * (2 * x + 1) == Pow2(j) * (2 * y + 1)
    ensures i == j && x == y
  {
    hide Pow2;
    OddTimesPower(i, x);
    OddTimesPower(j, y);
    if i > 0 && j > 0 {
      PowersAndOdds(i - 1, j - 1, x, y);
    } else if i > 0 {
      Parity(Pow2(i - 1) * (2 * x + 1), y);
    } else if j > 0 {
      Parity(Pow2(j - 1) * (2 * y + 1), x);
    }
  }

  lemma OddTimesPower(i: nat, x: nat)
    ensures Pow2(i) * (2 * x + 1) == if i == 0 then 2 * x + 1 else 2 * (Pow2(i - 1) * (2 * x + 1))
  {
    if i > 0 { assert Pow2(i) == 2 * Pow2(i - 1); }
  }

  lemma Parity(a: int, b: int)
    ensures 2 * a != 2 * b + 1
  {
  }

  /** Some pair hash is injective and never zero. */
  lemma SoundHashExists() returns (H: Hash)
    ensures NeverZero(H) && Injective(H)
  {
    H := (x, y) => Pairing(x, y);
    forall x, y ensures Pairing(x, y) != 0 { NotZero(Pow2(Natural(x)), 2 * Natural(y) + 1); }
    forall a, b, c, d | Pairing(a, b) == Pairing(c, d) ensures a == c && b == d {
      PowersAndOdds(Natural(a), Natural(c), Natural(b), Natural(d));
    }
  }

  lemma NotZero(a: nat, b: nat)
    requires a > 0 && b > 0
    ensures a * b != 0
  {
  }
}
