/**
  The Utreexo bridge node: a heap of tree nodes, a list of 27 roots and a dictionary of leaf nodes,
  all updated in place. `Add` and `Delete` are proved to be the transitions of `Forests`.
*/
module BridgeNode {
  import opened Wrappers
  import opened HashTrees
  import opened Forests
  import opened Shapes
  import opened Lockstep
  import Utreexo

  /** The leaf dictionary as a set of pairs. */
  ghost function Entries(m: map<int, Node>): set<(Node, int)> {
    set v | v in m :: (m[v], v)
  }

  class BridgeNode {
    const hash: Hash
    var rootNodes: seq<Node?>
    var leafNodes: map<int, Node>
    ghost var shapes: seq<Piece>
    ghost var nodes: set<Node>  // all nodes of the forest

    ghost predicate Valid()
      reads this, nodes
    {
      && |rootNodes| == |shapes| == Utreexo.ROOTS_LEN
      && nodes == AllNodes(shapes)
      && Holds(rootNodes, shapes, hash)
      && Forests.Valid(Forest())
      && AllTips(shapes) == Entries(leafNodes)
      && |leafNodes| == Population(Forest())
    }

    /** The forest that the heap holds. */
    ghost function Forest(): Forest
      reads this
    {
      EraseAll(shapes)
    }

    /** The root values that the node reports, 0 for an empty slot. */
    function RootValues(): seq<int>
      reads this
    {
      seq(|rootNodes|, i requires 0 <= i < |rootNodes| reads this =>
        if rootNodes[i] == null then 0 else rootNodes[i].val)
    }

    /** The reported root values are those of the forest, and the dictionary is as large as the forest. */
    lemma Reports()
      requires Valid()
      ensures RootValues() == Roots(hash, Forest())
      ensures Forests.Valid(Forest()) && |leafNodes.Keys| == Population(Forest())
    {
      forall i | 0 <= i < |rootNodes| ensures RootValues()[i] == SlotRoot(hash, Forest()[i]) {
        assert rootNodes[i] == RootOf(shapes[i]);
        if shapes[i].Some? { BuiltValue(shapes[i].value, hash); }
      }
      assert |leafNodes| == |leafNodes.Keys|;
    }

    constructor (hash: Hash)
      ensures this.hash == hash && Valid() && leafNodes == map[] && nodes == {}
      ensures Forest() == Empty()
    {
      this.hash := hash;
      rootNodes := seq(Utreexo.ROOTS_LEN, i => null);
      leafNodes := map[];
      shapes := seq(Utreexo.ROOTS_LEN, i => None);
      nodes := {};
      new;
      assert EraseAll(shapes) == Empty();
      EmptyForest();
    }

    /** Returns false, and changes nothing, when the leaf exists already. */
    method Add(leaf: int) returns (added: bool)
      requires Valid() && leaf != 0
      requires leaf !in leafNodes ==> HasEmptySlot(Forest(), 0)
      modifies this, nodes
      ensures Valid() && fresh(nodes - old(nodes))
      ensures added <==> leaf !in old(leafNodes)
      ensures !added ==> unchanged(this)
      ensures added ==> HasEmptySlot(old(Forest()), 0) && Forest() == Forests.Add(old(Forest()), leaf)
      ensures leafNodes.Keys == old(leafNodes.Keys) + {leaf}
    {
      hide Valid;
      if leaf in leafNodes { return false; }
      AddNew(leaf);
      added := true;
    }

    method AddNew(leaf: int)
      requires Valid() && leaf != 0 && leaf !in leafNodes && HasEmptySlot(Forest(), 0)
      modifies this, nodes
      ensures Valid() && fresh(nodes - old(nodes))
      ensures HasEmptySlot(old(Forest()), 0) && Forest() == Forests.Add(old(Forest()), leaf)
      ensures leafNodes.Keys == old(leafNodes.Keys) + {leaf}
    {
      hide AllNodes, AllTips, Holds, EraseAll, Entries, Population, HasEmptySlot, Forests.Valid, Carry, ForestWeight,
        Members, Forests.Add, Erase, Tips, Nodes, Built, Apart, Links, Separate, AllBuilt, Linked, AllLinks, Rooted;
      KnownLeaf(leafNodes, shapes, leaf);
      AddKeeps(Forest(), leaf);
      var n := LeafNode(hash, leaf, rootNodes, shapes);
      NewLeaf(Forest(), n, leaf);
      EntriesAdd(leafNodes, leaf, n);
      leafNodes := leafNodes[leaf := n];
      ghost var created;
      shapes, created := CarryUp(n, shapes, Tip(n, leaf));
      nodes := nodes + {n} + created;
    }

    /** The loop of `utreexo_add`: `n`, the root of `s`, is carried up to the first empty slot. */
    method CarryUp(leafNode: Node, ghost slots: seq<Piece>, ghost s: Shape)
      returns (ghost settled: seq<Piece>, ghost created: set<Node>)
      requires |rootNodes| == |slots| == Utreexo.ROOTS_LEN && Holds(rootNodes, slots + [Some(s)], hash)
      requires leafNode == s.node && leafNode.parent == null && HasEmptySlot(EraseAll(slots), 0)
      modifies this`rootNodes, AllNodes(slots + [Some(s)])`parent
      ensures |rootNodes| == |settled| == |slots| && Holds(rootNodes, settled, hash)
      ensures EraseAll(settled) == Carry(EraseAll(slots), Erase(s), 0)
      ensures AllTips(settled) == AllTips(slots + [Some(s)])
      ensures fresh(created) && AllNodes(settled) == AllNodes(slots + [Some(s)]) + created
    {
      hide AllNodes, AllTips, Separate, AllBuilt, Linked;
      ghost var carried := |slots|;
      ghost var P := slots + [Some(s)];
      ghost var all := AllNodes(P);
      created := {};
      assert P[..carried] == slots;
      var n := leafNode;
      var h := 0;
      var r := rootNodes[h];
      while r != null
        invariant 0 <= h < carried == |rootNodes| && |P| == carried + 1
        invariant Holds(rootNodes, P, hash)
        invariant r == rootNodes[h] && P[carried].Some? && n == P[carried].value.node && n.parent == null
        invariant HasEmptySlot(EraseAll(P[..carried]), h)
        invariant Carry(EraseAll(P[..carried]), Erase(P[carried].value), h) == Carry(EraseAll(slots), Erase(s), 0)
        invariant AllTips(P) == AllTips(slots + [Some(s)])
        invariant fresh(created) && AllNodes(P) == all + created
        decreases carried - h
      {
        RootsIn(P);
        n := ParentNode(hash, r, n, rootNodes, P, h, carried, carried);
        rootNodes := rootNodes[h := null];
        ForkedForest(P, h, n);
        P := Forked(P, h, carried, carried, n);
        created := created + {n};
        h := h + 1;
        r := rootNodes[h];
      }
      SettleHolds(rootNodes, P, hash, h);
      rootNodes := rootNodes[h := n];
      settled := P[..carried][h := P[carried]];
    }

    /** The path of siblings from `node` to its root, and the position of `node` under that root. */
    method InclusionProof(node: Node, ghost s: Shape, ghost v: int, ghost k: nat)
      returns (path: seq<Node>, leafIndex: nat)
      requires Apart(s) && Built(s, hash) && s.node.parent == null
      requires forall l <- Links(s) :: l.0.parent == l.1
      requires Count(Erase(s), v) > 0 && k < |Spine(s, v)| && node == Spine(s, v)[k].node
      ensures |path| == |SiblingPieces(s, v)| - k
      ensures forall i :: 0 <= i < |path| ==> path[i] == SiblingPieces(s, v)[k + i].value.node
      ensures leafIndex == PathIndex(PathTo(Erase(s), v)[k..])
      decreases |Spine(s, v)| - k
    {
      ghost var steps := PathTo(Erase(s), v);
      SpineEnds(s, v);
      if k < |steps| {
        SpineStep(s, v, hash, k);
        ghost var link := (Spine(s, v)[k].node, Spine(s, v)[k + 1].node);
        assert link in Links(s) && link.0.parent == link.1;
        ghost var sib: Node := SiblingPieces(s, v)[k].value.node;
        assert link.1.left == sib || link.1.right == sib;
      }
      if node.parent == null {
        return [], 0;
      }
      assert k < |steps| && steps[k..][1..] == steps[k + 1..];
      var parent := node.parent;
      path, leafIndex := InclusionProof(parent, s, v, k + 1);
      if node == parent.left {
        var sibling: Node := parent.right;
        path := [sibling] + path;
        leafIndex := leafIndex * 2;
      } else {
        var sibling: Node := parent.left;
        path := [sibling] + path;
        leafIndex := leafIndex * 2 + 1;
      }
    }

    /**
      Returns the inclusion proof and the leaf index on the way out of the forest, and None, changing
      nothing, when there is no such leaf.
    */
    method Delete(leaf: int) returns (result: Option<(seq<int>, nat)>)
      requires Valid()
      modifies this, nodes
      ensures Valid() && fresh(nodes - old(nodes))
      ensures result.Some? <==> leaf in old(leafNodes)
      ensures result.None? ==> unchanged(this)
      ensures result.Some? ==>
        && Members(old(Forest()), leaf) > 0
        && |PathIn(old(Forest()), leaf)| < |old(Forest())|
        && result.value == (ProofOf(hash, old(Forest()), leaf), IndexOf(old(Forest()), leaf))
        && Forest() == Forests.Delete(old(Forest()), leaf)
      ensures leafNodes.Keys == old(leafNodes.Keys) - {leaf}
    {
      hide Valid;
      if leaf !in leafNodes { return None; }
      var proof, leafIndex := DeleteKnown(leaf);
      result := Some((proof, leafIndex));
    }

    method DeleteKnown(leaf: int) returns (proof: seq<int>, leafIndex: nat)
      requires Valid() && leaf in leafNodes
      modifies this, nodes
      ensures Valid() && fresh(nodes - old(nodes))
      ensures Members(old(Forest()), leaf) > 0 && |PathIn(old(Forest()), leaf)| < |old(Forest())|
      ensures proof == ProofOf(hash, old(Forest()), leaf) && leafIndex == IndexOf(old(Forest()), leaf)
      ensures Forest() == Forests.Delete(old(Forest()), leaf)
      ensures leafNodes.Keys == old(leafNodes.Keys) - {leaf}
    {
      hide AllNodes, AllTips, Holds, EraseAll, Entries, SlotOf, Population;
      KnownLeaf(leafNodes, shapes, leaf);
      DeleteKeeps(Forest(), leaf);
      var leafNode := leafNodes[leaf];
      EntryHas(leafNodes, leaf);
      leafNodes := leafNodes - {leaf};
      assert leafNodes.Keys == old(leafNodes.Keys) - {leaf};
      ghost var settled, created;
      proof, leafIndex, settled, created := TakeApart(leafNode, leaf);
      TipsMembers(settled, leaf);
      EntriesRemove(old(leafNodes), leaf, AllTips(settled), leafNode);
      shapes, nodes := settled, AllNodes(settled);
      assert nodes - old(nodes) <= created;
    }

    /** Reads off the proof of a leaf and takes its tree apart. */
    method TakeApart(leafNode: Node, ghost leaf: int)
      returns (values: seq<int>, leafIndex: nat, ghost settled: seq<Piece>, ghost created: set<Node>)
      requires |rootNodes| == |shapes| == Utreexo.ROOTS_LEN && Holds(rootNodes, shapes, hash)
      requires Forests.Valid(Forest()) && Members(Forest(), leaf) > 0
      requires (leafNode, leaf) in AllTips(shapes)
      modifies this`rootNodes, AllNodes(shapes)`parent
      ensures |PathIn(Forest(), leaf)| < |Forest()|
      ensures values == ProofOf(hash, Forest(), leaf) && leafIndex == IndexOf(Forest(), leaf)
      ensures |rootNodes| == |settled| == |shapes| && Holds(rootNodes, settled, hash)
      ensures EraseAll(settled) == Forests.Delete(Forest(), leaf)
      ensures AllTips(shapes) == AllTips(settled) + {(leafNode, leaf)}
      ensures fresh(created) && AllNodes(settled) <= AllNodes(shapes) + created
    {
      hide AllNodes, AllTips, Holds, EraseAll, Apart, Built, Forests.Valid, Siblings, RootValues, PathIn,
           SiblingPieces, Spine;
      MemberOnce(Forest(), leaf);
      OpenedDelete(shapes, leaf);
      ghost var k := SlotOf(Forest(), leaf);
      ghost var s := shapes[k].value;
      ghost var slots, sibs := shapes[k := None], SiblingPieces(s, leaf);
      OpenedHolds(rootNodes, shapes, hash, k, leaf);
      SlotHeld(rootNodes, shapes, hash, k);
      OnlyTip(shapes, leaf, leafNode, Spine(s, leaf)[0].node);
      assert Opened(shapes, k, leaf) == slots + [None] + sibs;
      ghost var P := slots + [None] + sibs;
      assert allocated(AllNodes(P));
      var proof;
      proof, leafIndex := InclusionProof(leafNode, s, leaf, 0);
      settled, created := HandBack(proof, slots, sibs);
      values := seq(|proof|, i requires 0 <= i < |proof| => proof[i].val);
      ProofValues(s, leaf, hash, proof, values);
    }

    /** One turn of the loop of `utreexo_delete`: the sibling `p` at level `h` goes back to the forest. */
    method HandBackOne(p: Node, carry: Node?, h: nat, ghost top: nat, ghost P: seq<Piece>, ghost sibs: seq<Piece>)
      returns (n: Node?, ghost Q: seq<Piece>, ghost created: set<Node>)
      requires h < top == |sibs| < |rootNodes| && |P| == |rootNodes| + 1 + top && P[top].None?
      requires Holds(rootNodes[top := null], P, hash)
      requires (forall p <- sibs :: p.Some?) && P[|rootNodes| + 1 + h] == sibs[h] && p == sibs[h].value.node
      requires carry == RootOf(P[|rootNodes|])
      modifies this`rootNodes, AllNodes(P)`parent
      ensures |rootNodes| == old(|rootNodes|) && |Q| == |P| && Q[top].None?
      ensures Holds(rootNodes[top := null], Q, hash)
      ensures n == RootOf(Q[|rootNodes|])
      ensures forall i :: |rootNodes| < i < |P| ==> Q[i] == if i == |rootNodes| + 1 + h then None else P[i]
      ensures var c, ts := |rootNodes|, EraseTrees(sibs);
        Dismantle(EraseAll(Q[..c]), ts, ErasePiece(Q[c]), h + 1) == Dismantle(EraseAll(P[..c]), ts, ErasePiece(P[c]), h)
      ensures AllTips(Q) == AllTips(P)
      ensures fresh(created) && AllNodes(Q) == AllNodes(P) + created
    {
      hide AllNodes, AllTips, Separate, AllBuilt, Linked, EraseTrees, Dismantle, Erase, Nodes, Tips, Built, Apart,
        Links, AllLinks;
      ghost var c, a := |rootNodes|, |rootNodes| + 1 + h;
      RootsIn(P);
      if carry != null {
        n := ParentNode(hash, p, carry, rootNodes[top := null], P, a, c, c);
        Q, created := Forked(P, a, c, c, n), {n};
      } else if rootNodes[h] == null {
        Detach(hash, p, rootNodes[top := null], P, a);
        MovedHolds(rootNodes[top := null], P, hash, a, h);
        MovedKeeps(P, a, h);
        rootNodes := rootNodes[h := p];
        n, Q, created := carry, Moved(P, a, h), {};
      } else {
        assert rootNodes[top := null][h] == RootOf(P[h]);
        n := ParentNode(hash, p, rootNodes[h], rootNodes[top := null], P, a, h, c);
        Q, created := Forked(P, a, h, c, n), {n};
        rootNodes := rootNodes[h := null];
      }
      HandBackForest(P, sibs, c, h, if n == null then p else n);
    }

    /** The loop of `utreexo_delete`: the siblings go back to the forest, from the leaf upwards. */
    method HandBack(proof: seq<Node>, ghost slots: seq<Piece>, ghost sibs: seq<Piece>)
      returns (ghost settled: seq<Piece>, ghost created: set<Node>)
      requires |proof| == |sibs| < |rootNodes| == |slots| == Utreexo.ROOTS_LEN && slots[|proof|].None?
      requires Holds(rootNodes[|proof| := null], slots + [None] + sibs, hash)
      requires forall i :: 0 <= i < |proof| ==> sibs[i].Some? && proof[i] == sibs[i].value.node
      modifies this`rootNodes, AllNodes(slots + [None] + sibs)`parent
      ensures |rootNodes| == |settled| == |slots| && Holds(rootNodes, settled, hash)
      ensures EraseAll(settled) == Dismantle(EraseAll(slots), EraseTrees(sibs), None, 0)
      ensures AllTips(settled) == AllTips(slots + [None] + sibs)
      ensures fresh(created) && AllNodes(settled) == AllNodes(slots + [None] + sibs) + created
    {
      hide AllNodes, AllTips, Holds, EraseTrees;
      ghost var c, top := |slots|, |proof|;
      ghost var P := slots + [None] + sibs;
      ghost var all := AllNodes(P);
      assert P[..c] == slots;
      created := {};
      var n: Node? := null;
      var h := 0;
      while h < |proof|
        invariant 0 <= h <= top < c == |rootNodes| && |P| == c + 1 + top
        invariant Holds(rootNodes[top := null], P, hash)
        invariant n == RootOf(P[c]) && P[top].None?
        invariant forall i :: c < i <= c + h ==> P[i].None?
        invariant forall i :: c + h < i <= c + top ==> P[i] == sibs[i - c - 1]
        invariant Dismantle(EraseAll(P[..c]), EraseTrees(sibs), ErasePiece(P[c]), h)
               == Dismantle(EraseAll(slots), EraseTrees(sibs), None, 0)
        invariant AllTips(P) == AllTips(slots + [None] + sibs)
        invariant fresh(created) && AllNodes(P) == all + created
      {
        ghost var made;
        n, P, made := HandBackOne(proof[h], n, h, top, P, sibs);
        created := created + made;
        h := h + 1;
      }
      if n != null {
        RootsIn(P);
        Detach(hash, n, rootNodes[top := null], P, c);
      }
      FinishHolds(rootNodes[top := null], P, hash, c, top);
      assert rootNodes[top := null][top := n] == rootNodes[h := n];
      rootNodes := rootNodes[h := n];
      settled := P[..c][top := P[c]];
    }
  }

  /** The dictionary knows exactly the leaves of the forest. */
  lemma KnownLeaf(m: map<int, Node>, P: seq<Piece>, v: int)
    requires AllTips(P) == Entries(m)
    ensures v in m <==> Members(EraseAll(P), v) > 0
  {
    TipsMembers(P, v);
    if v in m { assert (m[v], v) in AllTips(P); }
  }

  /** A new leaf node is a tree of one leaf, which is carried up from slot 0. */
  lemma NewLeaf(F: Forest, n: Node, leaf: int)
    requires HasEmptySlot(F, 0)
    ensures Tip(n, leaf).node == n && Carry(F, Erase(Tip(n, leaf)), 0) == Forests.Add(F, leaf)
  {
  }

  lemma MemberOnce(F: Forest, v: int)
    requires Forests.Valid(F)
    ensures Members(F, v) <= 1
  {
  }

  lemma EntryHas(m: map<int, Node>, v: int)
    requires v in m
    ensures (m[v], v) in Entries(m)
  {
  }

  lemma EntriesRemove(m: map<int, Node>, v: int, T: set<(Node, int)>, n: Node)
    requires v in m && m[v] == n && Entries(m) == T + {(n, v)}
    requires forall n :: (n, v) !in T
    ensures Entries(m - {v}) == T
  {
    var m' := m - {v};
    forall n, w | (n, w) in T ensures (n, w) in Entries(m') {
      assert (n, w) in Entries(m);
      assert w in m';
    }
    forall n, w | (n, w) in Entries(m') ensures (n, w) in T {
      assert (n, w) in Entries(m);
    }
  }

  lemma EntriesAdd(m: map<int, Node>, v: int, n: Node)
    requires v !in m
    ensures Entries(m[v := n]) == Entries(m) + {(n, v)}
    ensures |m[v := n]| == |m| + 1 && m[v := n].Keys == m.Keys + {v}
  {
    var m' := m[v := n];
    forall e | e in Entries(m) + {(n, v)} ensures e in Entries(m') {
      assert e.1 in m';
    }
  }
}
