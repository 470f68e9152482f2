/**
  The Merkle root of a block's transaction ids. A level of odd length has its last hash duplicated; a level
  of even length with two equal hashes at its end is refused. Therefore equal roots have equal leaves.
*/
module MerkleTree {
  import opened Wrappers
  import opened HashTrees

  function Doubled(level: seq<int>): (r: seq<int>)
    requires level != []
    ensures |r| % 2 == 0 && |r| >= 2
  {
    if |level| % 2 == 1 then level + [level[|level| - 1]] else level
  }

  function Pairs(H: Hash, level: seq<int>): (next: seq<int>)
    requires |level| % 2 == 0
    ensures |next| == |level| / 2
  {
    seq(|level| / 2, i requires 0 <= i < |level| / 2 => H(level[2 * i], level[2 * i + 1]))
  }

  /** Whether the two hashes at the end of a level are an even level's equal ones. */
  predicate EqualTail(level: seq<int>) {
    |level| >= 2 && |level| % 2 == 0 && level[|level| - 1] == level[|level| - 2]
  }

  function Root(H: Hash, leaves: seq<int>): Option<int>
    requires leaves != []
    decreases |leaves|
  {
    if |leaves| == 1 then Some(leaves[0])
    else if EqualTail(leaves) then None
    else Root(H, Pairs(H, Doubled(leaves)))
  }

  /** Compute the root, duplicating the last leaf at the end of the buffer where a level is odd. */
  method ComputeMerkleRoot(H: Hash, leaves: array<int>, leavesLen: nat) returns (root: Option<int>)
    requires 0 < leavesLen < leaves.Length
    modifies leaves
    ensures root == Root(H, old(leaves[..leavesLen]))
    ensures forall i :: 0 <= i < leaves.Length && i != leavesLen ==> leaves[i] == old(leaves[i])
    decreases leavesLen
  {
    hide Pairs;
    ghost var level := leaves[..leavesLen];
    if leavesLen == 1 { return Some(leaves[0]); }
    var isOdd := leavesLen % 2;
    if isOdd == 1 {
      leaves[leavesLen] := leaves[leavesLen - 1];
    } else if leaves[leavesLen - 1] == leaves[leavesLen - 2] {
      return None;
    }
    assert leaves[..leavesLen + isOdd] == Doubled(level);
    var nextLen := (leavesLen + isOdd) / 2;
    var next := new int[nextLen + 1];
    HashPairs(H, leaves, next, nextLen);
    assert next[..nextLen] == Pairs(H, Doubled(level));
    root := ComputeMerkleRoot(H, next, nextLen);
  }

  /** One generation: each hash is that of two neighbours of the generation before. */
  method HashPairs(H: Hash, prev: array<int>, next: array<int>, count: nat)
    requires prev != next && 2 * count <= prev.Length && count < next.Length
    modifies next
    ensures next[..count] == Pairs(H, prev[..2 * count])
  {
    var i := 0;
    while i < count
      invariant 0 <= i <= count
      invariant forall k :: 0 <= k < i ==> next[k] == H(prev[2 * k], prev[2 * k + 1])
    {
      next[i] := H(prev[2 * i], prev[2 * i + 1]);
      i := i + 1;
    }
  }

  // ------------------------------------------------------------------------
  // Equal roots have equal leaves
  // ------------------------------------------------------------------------

  /** `x` is the hash of a full tree of height `d` over hashes that are no pair hashes themselves. */
  ghost predicate Height(H: Hash, x: int, d: nat)
    decreases d
  {
    if d == 0 then forall a, b :: H(a, b) != x
    else exists a, b :: H(a, b) == x && Height(H, a, d - 1) && Height(H, b, d - 1)
  }

  ghost predicate AllHeight(H: Hash, level: seq<int>, d: nat) {
    forall i :: 0 <= i < |level| ==> Height(H, level[i], d)
  }

  lemma {:induction false} HeightIsUnique(H: Hash, x: int, d: nat, e: nat)
    requires Injective(H) && Height(H, x, d) && Height(H, x, e)
    ensures d == e
    decreases d
  {
    if d > 0 && e > 0 {
      var a, b :| H(a, b) == x && Height(H, a, d - 1) && Height(H, b, d - 1);
      HeightIsUnique(H, a, d - 1, e - 1);
    }
  }

  lemma NextHeight(H: Hash, level: seq<int>, d: nat)
    requires level != [] && AllHeight(H, level, d)
    ensures AllHeight(H, Pairs(H, Doubled(level)), d + 1)
  {
    var r := Doubled(level);
    forall i | 0 <= i < |r| / 2 ensures Height(H, Pairs(H, r)[i], d + 1) {
      assert H(r[2 * i], r[2 * i + 1]) == Pairs(H, r)[i];
    }
  }

  /** The root of a longer list is higher than its leaves. */
  lemma {:induction false} RootHeight(H: Hash, level: seq<int>, d: nat) returns (e: nat)
    requires level != [] && AllHeight(H, level, d) && Root(H, level).Some?
    ensures e >= d && (|level| > 1 ==> e > d) && Height(H, Root(H, level).value, e)
    decreases |level|
  {
    hide Pairs, Height;
    if |level| == 1 {
      e := d;
    } else {
      NextHeight(H, level, d);
      e := RootHeight(H, Pairs(H, Doubled(level)), d + 1);
    }
  }

  lemma PairsInjective(H: Hash, s: seq<int>, t: seq<int>)
    requires Injective(H) && |s| % 2 == 0 && |t| % 2 == 0 && Pairs(H, s) == Pairs(H, t)
    ensures s == t
  {
    assert |Pairs(H, s)| == |Pairs(H, t)|;
    forall i | 0 <= i < |s| ensures s[i] == t[i] {
      var k := i / 2;
      PairAt(H, s, k);
      PairAt(H, t, k);
      InjectiveAt(H, s[2 * k], s[2 * k + 1], t[2 * k], t[2 * k + 1]);
      assert i == 2 * k || i == 2 * k + 1;
    }
  }

  lemma PairAt(H: Hash, s: seq<int>, k: nat)
    requires |s| % 2 == 0 && k < |s| / 2
    ensures Pairs(H, s)[k] == H(s[2 * k], s[2 * k + 1])
  {
  }

  /** The duplication can be undone: only one of two lists that it makes equal is accepted. */
  lemma DoubledInjective(s: seq<int>, t: seq<int>)
    requires s != [] && t != [] && Doubled(s) == Doubled(t) && !EqualTail(s) && !EqualTail(t)
    ensures s == t
  {
    var r := Doubled(s);
    assert r[..|s|] == s && r[..|t|] == t;
  }

  lemma {:induction false} RootInjective(H: Hash, s: seq<int>, t: seq<int>, d: nat)
    requires Injective(H) && s != [] && t != [] && AllHeight(H, s, d) && AllHeight(H, t, d)
    requires Root(H, s).Some? && Root(H, s) == Root(H, t)
    ensures s == t
    decreases |s|
  {
    hide Height, Root, Injective;
    if |s| == 1 || |t| == 1 {
      SingleLeaf(H, s, t, d);
    } else {
      RootStep(H, s);
      RootStep(H, t);
      NextHeight(H, s, d);
      NextHeight(H, t, d);
      RootInjective(H, Pairs(H, Doubled(s)), Pairs(H, Doubled(t)), d + 1);
      PairsInjective(H, Doubled(s), Doubled(t));
      DoubledInjective(s, t);
    }
  }

  lemma RootStep(H: Hash, s: seq<int>)
    requires |s| > 1 && Root(H, s).Some?
    ensures !EqualTail(s) && Root(H, s) == Root(H, Pairs(H, Doubled(s)))
  {
  }

  /** A root that is a leaf has no other leaves. */
  lemma SingleLeaf(H: Hash, s: seq<int>, t: seq<int>, d: nat)
    requires Injective(H) && s != [] && t != [] && AllHeight(H, s, d) && AllHeight(H, t, d)
    requires Root(H, s).Some? && Root(H, s) == Root(H, t) && (|s| == 1 || |t| == 1)
    ensures s == t
  {
    hide Height, Injective, Pairs;
    var e := RootHeight(H, s, d);
    var f := RootHeight(H, t, d);
    var r := Root(H, s).value;
    assert Height(H, r, d);
    HeightIsUnique(H, r, d, e);
    HeightIsUnique(H, r, d, f);
  }

  /** With an injective pair hash that never yields a leaf, equal roots are roots of the same leaves. */
  lemma EqualRootsEqualLeaves(H: Hash, s: seq<int>, t: seq<int>)
    requires Injective(H) && s != [] && t != []
    requires forall a, b :: H(a, b) !in s && H(a, b) !in t
    requires Root(H, s).Some? && Root(H, s) == Root(H, t)
    ensures s == t
  {
    assert AllHeight(H, s, 0) && AllHeight(H, t, 0);
    RootInjective(H, s, t, 0);
  }

  // ------------------------------------------------------------------------
  // What the check refuses, and what it accepts
  // ------------------------------------------------------------------------

  /** The root without the check of the tail. */
  function UncheckedRoot(H: Hash, leaves: seq<int>): int
    requires leaves != []
    decreases |leaves|
  {
    if |leaves| == 1 then leaves[0] else UncheckedRoot(H, Pairs(H, Doubled(leaves)))
  }

  /** Without the check, every odd list has the root of a longer list. */
  lemma UncheckedRootsCollide(H: Hash, s: seq<int>)
    requires |s| % 2 == 1 && |s| > 1
    ensures var t := s + [s[|s| - 1]];
      UncheckedRoot(H, s) == UncheckedRoot(H, t) && Root(H, t) == None
  {
  }

  lemma {:induction false} CheckedRoot(H: Hash, s: seq<int>)
    requires s != [] && Root(H, s).Some?
    ensures Root(H, s).value == UncheckedRoot(H, s)
    decreases |s|
  {
    if |s| > 1 { CheckedRoot(H, Pairs(H, Doubled(s))); }
  }

  ghost predicate AllDifferent(s: seq<int>) {
    forall i, j :: 0 <= i < j < |s| ==> s[i] != s[j]
  }

  lemma PairsDiffer(H: Hash, s: seq<int>)
    requires Injective(H) && s != [] && AllDifferent(s)
    ensures AllDifferent(Pairs(H, Doubled(s)))
  {
    var r := Doubled(s);
    forall i, j | 0 <= i < j < |r| / 2 ensures Pairs(H, r)[i] != Pairs(H, r)[j] {
      assert 2 * i < 2 * j < |s| && r[2 * i] == s[2 * i] && r[2 * j] == s[2 * j];
    }
  }

  /** Lists of different leaves are never refused. */
  lemma {:induction false} DifferentLeavesAccepted(H: Hash, s: seq<int>)
    requires Injective(H) && s != [] && AllDifferent(s)
    ensures Root(H, s).Some?
    decreases |s|
  {
    if |s| > 1 {
      PairsDiffer(H, s);
      DifferentLeavesAccepted(H, Pairs(H, Doubled(s)));
    }
  }
}
