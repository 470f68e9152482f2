/**
  The heap of the bridge node: `Node` objects with parent and child pointers, and the shapes that say
  which nodes make up which tree. `Pieces` are trees in pairwise disjoint parts of the heap.
*/
module Shapes {
  import opened Wrappers
  import opened HashTrees
  import opened Forests

  class Node {
    const val: int
    const left: Node?
    const right: Node?
    var parent: Node?

    constructor (key: int, left: Node?, right: Node?)
      ensures val == key && this.left == left && this.right == right && parent == null
    {
      val := key;
      this.left := left;
      this.right := right;
      parent := null;
    }
  }

  datatype Shape = Tip(node: Node, leaf: int) | Fork(node: Node, left: Shape, right: Shape)

  ghost function Nodes(s: Shape): set<Node> {
    match s
    case Tip(n, _) => {n}
    case Fork(n, l, r) => {n} + Nodes(l) + Nodes(r)
  }

  ghost function Erase(s: Shape): Tree {
    match s
    case Tip(_, v) => Leaf(v)
    case Fork(_, l, r) => Branch(Erase(l), Erase(r))
  }

  /** The leaf nodes with their values. */
  ghost function Tips(s: Shape): set<(Node, int)> {
    match s
    case Tip(n, v) => {(n, v)}
    case Fork(_, l, r) => Tips(l) + Tips(r)
  }

  /** No node is used twice. */
  ghost predicate Apart(s: Shape) {
    match s
    case Tip(_, _) => true
    case Fork(n, l, r) => n !in Nodes(l) && n !in Nodes(r) && Nodes(l) !! Nodes(r) && Apart(l) && Apart(r)
  }

  /** Values and child pointers, which never change, are those of a hash tree. */
  ghost predicate Built(s: Shape, H: Hash) {
    match s
    case Tip(n, v) => n.val == v && n.left == null && n.right == null
    case Fork(n, l, r) =>
      && n.left == l.node && n.right == r.node && n.val == H(l.node.val, r.node.val)
      && Built(l, H) && Built(r, H)
  }

  /** The child-parent pairs of a shape. */
  ghost function Links(s: Shape): set<(Node, Node)> {
    match s
    case Tip(_, _) => {}
    case Fork(n, l, r) => {(l.node, n), (r.node, n)} + Links(l) + Links(r)
  }

  lemma RootIn(s: Shape)
    ensures s.node in Nodes(s)
  {
  }

  lemma {:induction false} BuiltValue(s: Shape, H: Hash)
    requires Built(s, H)
    ensures s.node.val == RootValue(H, Erase(s))
  {
    if s.Fork? {
      BuiltValue(s.left, H);
      BuiltValue(s.right, H);
    }
  }

  /** The children of a shape are its nodes other than the root. */
  lemma {:induction false} LinksInside(s: Shape)
    requires Apart(s)
    ensures forall l <- Links(s) :: l.0 in Nodes(s) && l.0 != s.node
  {
    if s.Fork? {
      RootIn(s.left);
      RootIn(s.right);
      LinksInside(s.left);
      LinksInside(s.right);
    }
  }

  // ------------------------------------------------------------------------
  // Pieces
  // ------------------------------------------------------------------------

  type Piece = Option<Shape>

  ghost function PieceNodes(p: Piece): set<Node> {
    if p.None? then {} else Nodes(p.value)
  }

  ghost function PieceTips(p: Piece): set<(Node, int)> {
    if p.None? then {} else Tips(p.value)
  }

  ghost function ErasePiece(p: Piece): Slot {
    if p.None? then None else Some(Erase(p.value))
  }

  ghost function EraseAll(P: seq<Piece>): (F: Forest)
    ensures |F| == |P|
  {
    seq(|P|, i requires 0 <= i < |P| => ErasePiece(P[i]))
  }

  ghost function AllNodes(P: seq<Piece>): set<Node> {
    set i, n | 0 <= i < |P| && n in PieceNodes(P[i]) :: n
  }

  ghost function AllTips(P: seq<Piece>): set<(Node, int)> {
    set i, t | 0 <= i < |P| && t in PieceTips(P[i]) :: t
  }

  ghost predicate Separate(P: seq<Piece>) {
    && (forall i :: 0 <= i < |P| && P[i].Some? ==> Apart(P[i].value))
    && (forall i, j :: 0 <= i < j < |P| ==> PieceNodes(P[i]) !! PieceNodes(P[j]))
  }

  ghost function PieceLinks(p: Piece): set<(Node, Node)> {
    if p.None? then {} else Links(p.value)
  }

  ghost function AllLinks(P: seq<Piece>): set<(Node, Node)> {
    set i, l | 0 <= i < |P| && l in PieceLinks(P[i]) :: l
  }

  ghost predicate AllBuilt(P: seq<Piece>, H: Hash) {
    forall i :: 0 <= i < |P| && P[i].Some? ==> Built(P[i].value, H)
  }

  lemma AllNodesHas(P: seq<Piece>)
    ensures forall i :: 0 <= i < |P| ==> PieceNodes(P[i]) <= AllNodes(P)
  {
  }

  lemma RootsIn(P: seq<Piece>)
    ensures forall i :: 0 <= i < |P| && P[i].Some? ==> P[i].value.node in AllNodes(P)
  {
    forall i | 0 <= i < |P| && P[i].Some? ensures P[i].value.node in AllNodes(P) {
      RootIn(P[i].value);
      assert P[i].value.node in PieceNodes(P[i]);
    }
  }

  ghost function RootOf(p: Piece): Node? {
    if p.None? then null else p.value.node
  }

  /** Every parent pointer below a root is set as the shapes say. */
  ghost predicate Linked(P: seq<Piece>)
    reads AllNodes(P)`parent
  {
    forall l <- AllLinks(P) :: l.0 in AllNodes(P) && l.0.parent == l.1
  }

  /** The first pieces hang on the given root pointers, and these roots have no parent. */
  ghost predicate Rooted(roots: seq<Node?>, P: seq<Piece>)
    reads AllNodes(P)`parent
  {
    && |roots| <= |P|
    && (forall i :: 0 <= i < |roots| ==> roots[i] == RootOf(P[i]))
    && (forall i :: 0 <= i < |roots| && roots[i] != null ==> roots[i] in AllNodes(P) && roots[i].parent == null)
  }

  lemma Inside(P: seq<Piece>)
    requires Separate(P)
    ensures forall l <- AllLinks(P) :: l.0 in AllNodes(P)
    ensures forall i :: 0 <= i < |P| && P[i].Some? ==> P[i].value.node in AllNodes(P)
  {
    RootsIn(P);
    forall l <- AllLinks(P) ensures l.0 in AllNodes(P) {
      var i :| 0 <= i < |P| && l in PieceLinks(P[i]);
      LinksInside(P[i].value);
      assert l.0 in PieceNodes(P[i]);
    }
  }

  /** Parents are looked up in the heap; everything else about the pieces is fixed. */
  ghost predicate Holds(roots: seq<Node?>, P: seq<Piece>, H: Hash)
    reads AllNodes(P)`parent
  {
    Separate(P) && AllBuilt(P, H) && Linked(P) && Rooted(roots, P)
  }

  // ------------------------------------------------------------------------
  // Moving and joining pieces
  // ------------------------------------------------------------------------

  /** Piece `a` moved to the empty place `c`. */
  ghost function Moved(P: seq<Piece>, a: nat, c: nat): seq<Piece>
    requires a < |P| && c < |P|
  {
    P[a := None][c := P[a]]
  }

  lemma MovedKeeps(P: seq<Piece>, a: nat, c: nat)
    requires a < |P| && c < |P| && a != c && P[c].None?
    ensures Separate(P) ==> Separate(Moved(P, a, c))
    ensures AllNodes(Moved(P, a, c)) == AllNodes(P)
    ensures AllTips(Moved(P, a, c)) == AllTips(P)
    ensures AllLinks(Moved(P, a, c)) == AllLinks(P)
  {
    var Q := Moved(P, a, c);
    forall n | n in AllNodes(P) ensures n in AllNodes(Q) {
      var i :| 0 <= i < |P| && n in PieceNodes(P[i]);
      assert n in PieceNodes(Q[if i == a then c else i]);
    }
    forall t | t in AllTips(P) ensures t in AllTips(Q) {
      var i :| 0 <= i < |P| && t in PieceTips(P[i]);
      assert t in PieceTips(Q[if i == a then c else i]);
    }
    forall l | l in AllLinks(P) ensures l in AllLinks(Q) {
      var i :| 0 <= i < |P| && l in PieceLinks(P[i]);
      assert l in PieceLinks(Q[if i == a then c else i]);
    }
  }

  /** A parentless tree moved into an empty slot. */
  lemma MovedHolds(roots: seq<Node?>, P: seq<Piece>, H: Hash, a: nat, c: nat)
    requires Holds(roots, P, H) && c < |roots| <= a < |P| && P[c].None?
    requires P[a].Some? && P[a].value.node.parent == null
    ensures Holds(roots[c := P[a].value.node], Moved(P, a, c), H)
  {
    MovedKeeps(P, a, c);
  }

  /** Pieces `a` and `b` joined under `node` and put in place `c`. */
  ghost function Forked(P: seq<Piece>, a: nat, b: nat, c: nat, node: Node): seq<Piece>
    requires a < |P| && b < |P| && c < |P| && P[a].Some? && P[b].Some?
  {
    P[a := None][b := None][c := Some(Fork(node, P[a].value, P[b].value))]
  }

  ghost predicate Joinable(P: seq<Piece>, a: nat, b: nat, c: nat) {
    && a < |P| && b < |P| && c < |P| && a != b && a != c
    && P[a].Some? && P[b].Some? && (b == c || P[c].None?)
  }

  lemma ForkedSeparate(P: seq<Piece>, a: nat, b: nat, c: nat, node: Node)
    requires Joinable(P, a, b, c) && Separate(P) && node !in AllNodes(P)
    ensures Separate(Forked(P, a, b, c, node))
  {
    var Q := Forked(P, a, b, c, node);
    AllNodesHas(P);
    var A, B := PieceNodes(P[a]), PieceNodes(P[b]);
    assert A !! B && node !in A && node !in B;
    assert PieceNodes(Q[c]) == {node} + A + B;
    forall i | 0 <= i < |P| && i != c ensures PieceNodes(Q[i]) !! PieceNodes(Q[c]) {
      if i != a && i != b {
        assert PieceNodes(P[i]) !! A && PieceNodes(P[i]) !! B && node !in PieceNodes(P[i]);
      }
    }
  }

  lemma ForkedKeeps(P: seq<Piece>, a: nat, b: nat, c: nat, node: Node)
    requires Joinable(P, a, b, c)
    ensures AllNodes(Forked(P, a, b, c, node)) == AllNodes(P) + {node}
    ensures AllTips(Forked(P, a, b, c, node)) == AllTips(P)
  {
    var Q := Forked(P, a, b, c, node);
    assert PieceNodes(Q[c]) == {node} + PieceNodes(P[a]) + PieceNodes(P[b]);
    assert PieceTips(Q[c]) == PieceTips(P[a]) + PieceTips(P[b]);
    forall n | n in AllNodes(P) + {node} ensures n in AllNodes(Q) {
      if n != node {
        var i :| 0 <= i < |P| && n in PieceNodes(P[i]);
        assert n in PieceNodes(Q[if i == a || i == b then c else i]);
      }
    }
    forall t | t in AllTips(P) ensures t in AllTips(Q) {
      var i :| 0 <= i < |P| && t in PieceTips(P[i]);
      assert t in PieceTips(Q[if i == a || i == b then c else i]);
    }
  }

  lemma ForkedLinks(P: seq<Piece>, a: nat, b: nat, c: nat, node: Node)
    requires Joinable(P, a, b, c)
    ensures forall l <- AllLinks(Forked(P, a, b, c, node)) ::
      l in AllLinks(P) || l == (P[a].value.node, node) || l == (P[b].value.node, node)
  {
    var Q := Forked(P, a, b, c, node);
    forall l <- AllLinks(Q)
      ensures l in AllLinks(P) || l == (P[a].value.node, node) || l == (P[b].value.node, node)
    {
      var i :| 0 <= i < |Q| && l in PieceLinks(Q[i]);
      assert i == c ==> l in PieceLinks(P[a]) || l in PieceLinks(P[b])
                        || l == (P[a].value.node, node) || l == (P[b].value.node, node);
      assert i != c ==> l in PieceLinks(P[i]);
    }
  }

  /** What a carry from slot `h` does to the forest that the pieces stand for. */
  lemma ForkedForest(P: seq<Piece>, h: nat, node: Node)
    requires |P| > 0 && h < |P| - 1 && P[h].Some? && P[|P| - 1].Some?
    requires HasEmptySlot(EraseAll(P[..|P| - 1]), h)
    ensures var k, Q := |P| - 1, Forked(P, h, |P| - 1, |P| - 1, node);
      && |Q| == |P| && Q[k] == Some(Fork(node, P[h].value, P[k].value))
      && HasEmptySlot(EraseAll(Q[..k]), h + 1)
      && Carry(EraseAll(Q[..k]), Erase(Q[k].value), h + 1) == Carry(EraseAll(P[..k]), Erase(P[k].value), h)
  {
    var k, Q := |P| - 1, Forked(P, h, |P| - 1, |P| - 1, node);
    var F := EraseAll(P[..k]);
    assert EraseAll(Q[..k]) == F[h := None];
    EmptySlotAbove(F, F[h := None], h + 1);
  }

  ghost function Cleared(roots: seq<Node?>, a: nat): seq<Node?> {
    if a < |roots| then roots[a := null] else roots
  }

  /**
    `parent_node`: a new node above two roots. The pieces `a` and `b` of the heap become one piece `c`,
    and every other piece and root pointer stays as it was.
  */
  method ParentNode(hash: Hash, root1: Node, root2: Node,
                    ghost roots: seq<Node?>, ghost P: seq<Piece>, ghost a: nat, ghost b: nat, ghost c: nat)
    returns (root: Node)
    requires Holds(roots, P, hash) && Joinable(P, a, b, c) && |roots| <= c
    requires P[a].value.node == root1 && P[b].value.node == root2
    modifies root1`parent, root2`parent
    ensures fresh(root) && root.parent == null
    ensures Holds(Cleared(Cleared(roots, a), b), Forked(P, a, b, c, root), hash)
    ensures AllNodes(Forked(P, a, b, c, root)) == AllNodes(P) + {root}
    ensures AllTips(Forked(P, a, b, c, root)) == AllTips(P)
  {
    ghost var all := AllNodes(P);
    assert allocated(all);
    root := new Node(hash(root1.val, root2.val), root1, root2);
    assert root !in all;
    root1.parent := root;
    root2.parent := root;
    RootsApart(P, a);
    RootsApart(P, b);
    forall l <- AllLinks(P) ensures l.0 in AllNodes(P) && l.0.parent == l.1 {
      assert old(Linked(P)) && l.0 != root1 && l.0 != root2;
    }
    ForkedHolds(roots, P, hash, a, b, c, root);
    ForkedKeeps(P, a, b, c, root);
  }

  /** What is left to check once the two parent pointers are set. */
  lemma ForkedHolds(roots: seq<Node?>, P: seq<Piece>, H: Hash, a: nat, b: nat, c: nat, node: Node)
    requires Joinable(P, a, b, c) && |roots| <= c && node !in AllNodes(P)
    requires Separate(P) && AllBuilt(P, H) && Linked(P)
    requires forall i :: 0 <= i < |roots| ==> roots[i] == RootOf(P[i])
    requires forall i :: 0 <= i < |roots| && i != a && i != b && roots[i] != null ==> roots[i].parent == null
    requires var l, r := P[a].value.node, P[b].value.node;
      node.val == H(l.val, r.val) && node.left == l && node.right == r && l.parent == node && r.parent == node
    ensures Holds(Cleared(Cleared(roots, a), b), Forked(P, a, b, c, node), H)
  {
    hide AllNodes, AllLinks, Separate;
    ForkedSeparate(P, a, b, c, node);
    ForkedLinks(P, a, b, c, node);
    ForkedKeeps(P, a, b, c, node);
    Inside(P);
  }

  /** The root of a piece is neither a child nor the root of another piece. */
  lemma RootsApart(P: seq<Piece>, a: nat)
    requires Separate(P) && a < |P| && P[a].Some?
    ensures forall i :: 0 <= i < |P| && i != a ==> RootOf(P[i]) != P[a].value.node
    ensures forall l <- AllLinks(P) :: l.0 != P[a].value.node && l.0 in AllNodes(P)
  {
    var r := P[a].value.node;
    RootIn(P[a].value);
    forall i | 0 <= i < |P| && i != a ensures r !in PieceNodes(P[i]) {
      assert i < a ==> PieceNodes(P[i]) !! PieceNodes(P[a]);
      assert a < i ==> PieceNodes(P[a]) !! PieceNodes(P[i]);
    }
    forall i | 0 <= i < |P| && i != a ensures RootOf(P[i]) != r {
      if P[i].Some? { RootIn(P[i].value); }
    }
    forall l <- AllLinks(P) ensures l.0 != r && l.0 in AllNodes(P) {
      var i :| 0 <= i < |P| && l in PieceLinks(P[i]);
      LinksInside(P[i].value);
      assert l.0 in PieceNodes(P[i]);
    }
  }

  // ------------------------------------------------------------------------
  // Growing and shrinking a list of pieces
  // ------------------------------------------------------------------------

  lemma AppendKeeps(P: seq<Piece>, p: Piece)
    requires Separate(P) && (p.Some? ==> Apart(p.value)) && PieceNodes(p) !! AllNodes(P)
    ensures Separate(P + [p])
    ensures AllNodes(P + [p]) == AllNodes(P) + PieceNodes(p)
    ensures AllTips(P + [p]) == AllTips(P) + PieceTips(p)
    ensures AllLinks(P + [p]) == AllLinks(P) + PieceLinks(p)
  {
    var Q := P + [p];
    AllNodesHas(P);
    forall n | n in AllNodes(P) ensures n in AllNodes(Q) {
      var i :| 0 <= i < |P| && n in PieceNodes(P[i]);
      assert n in PieceNodes(Q[i]);
    }
    forall t | t in AllTips(P) ensures t in AllTips(Q) {
      var i :| 0 <= i < |P| && t in PieceTips(P[i]);
      assert t in PieceTips(Q[i]);
    }
    forall l | l in AllLinks(P) ensures l in AllLinks(Q) {
      var i :| 0 <= i < |P| && l in PieceLinks(P[i]);
      assert l in PieceLinks(Q[i]);
    }
    assert Q[|P|] == p;
  }

  /** A new leaf node joins the pieces. */
  lemma AppendTip(roots: seq<Node?>, P: seq<Piece>, H: Hash, n: Node, v: int)
    requires Holds(roots, P, H) && n !in AllNodes(P)
    requires n.val == v && n.left == null && n.right == null
    ensures Holds(roots, P + [Some(Tip(n, v))], H)
    ensures AllNodes(P + [Some(Tip(n, v))]) == AllNodes(P) + {n}
    ensures AllTips(P + [Some(Tip(n, v))]) == AllTips(P) + {(n, v)}
  {
    AppendKeeps(P, Some(Tip(n, v)));
  }

  /** `Node(leaf)`: a fresh leaf node, carried as a piece of its own. */
  method LeafNode(hash: Hash, leaf: int, ghost roots: seq<Node?>, ghost P: seq<Piece>) returns (n: Node)
    requires Holds(roots, P, hash)
    ensures fresh(n) && n.val == leaf && n.parent == null
    ensures Holds(roots, P + [Some(Tip(n, leaf))], hash)
    ensures AllNodes(P + [Some(Tip(n, leaf))]) == AllNodes(P) + {n}
    ensures AllTips(P + [Some(Tip(n, leaf))]) == AllTips(P) + {(n, leaf)}
  {
    ghost var all := AllNodes(P);
    assert allocated(all);
    n := new Node(leaf, null, null);
    assert n !in all;
    AppendTip(roots, P, hash, n, leaf);
  }

  lemma DropLastKeeps(P: seq<Piece>, Q: seq<Piece>)
    requires P == Q + [None] && Separate(P)
    ensures Separate(Q) && AllNodes(Q) == AllNodes(P) && AllTips(Q) == AllTips(P) && AllLinks(Q) == AllLinks(P)
  {
    forall i | 0 <= i < |Q| ensures Q[i] == P[i] {
    }
    assert P[|Q|].None?;
    AppendKeeps(Q, None);
  }

  /** The carried tree, last of the pieces, comes to rest in the empty slot `h`. */
  lemma SettleHolds(roots: seq<Node?>, P: seq<Piece>, H: Hash, h: nat)
    requires Holds(roots, P, H) && |P| == |roots| + 1 && h < |roots| && P[h].None?
    requires P[|roots|].Some? && P[|roots|].value.node.parent == null
    ensures var Q := P[..|roots|][h := P[|roots|]];
      && Holds(roots[h := P[|roots|].value.node], Q, H)
      && AllNodes(Q) == AllNodes(P) && AllTips(Q) == AllTips(P)
      && EraseAll(Q) == EraseAll(P[..|roots|])[h := Some(Erase(P[|roots|].value))]
  {
    var Q := P[..|roots|][h := P[|roots|]];
    MovedHolds(roots, P, H, |roots|, h);
    MovedKeeps(P, |roots|, h);
    assert Moved(P, |roots|, h) == Q + [None];
    DropLastKeeps(Q + [None], Q);
  }

  // ------------------------------------------------------------------------
  // Leaf nodes
  // ------------------------------------------------------------------------

  lemma {:induction false} TipsCount(s: Shape, v: int)
    ensures (exists n :: (n, v) in Tips(s)) <==> Count(Erase(s), v) > 0
  {
    match s
    case Tip(n, w) => assert (n, w) in Tips(s);
    case Fork(_, l, r) =>
      TipsCount(l, v);
      TipsCount(r, v);
      forall n | (n, v) in Tips(l) ensures (n, v) in Tips(s) {}
      forall n | (n, v) in Tips(r) ensures (n, v) in Tips(s) {}
  }

  /** A value is a member of the forest exactly when some leaf node holds it. */
  lemma TipsMembers(P: seq<Piece>, v: int)
    ensures (exists n :: (n, v) in AllTips(P)) <==> Members(EraseAll(P), v) > 0
  {
    var F := EraseAll(P);
    if n :| (n, v) in AllTips(P) {
      var i :| 0 <= i < |P| && (n, v) in PieceTips(P[i]);
      TipsCount(P[i].value, v);
      SlotWithin(F, i, Is(v));
    }
    if Members(F, v) > 0 {
      var i := SlotOf(F, v);
      TipsCount(P[i].value, v);
      var n :| (n, v) in Tips(P[i].value);
      assert (n, v) in PieceTips(P[i]);
    }
  }

  // ------------------------------------------------------------------------
  // The path of a leaf through the heap
  // ------------------------------------------------------------------------

  /** The subshapes from the leaf `v` up to `s` itself. */
  ghost function Spine(s: Shape, v: int): (r: seq<Shape>)
    requires Count(Erase(s), v) > 0
    ensures |r| == |PathTo(Erase(s), v)| + 1
  {
    match s
    case Tip(_, _) => [s]
    case Fork(_, l, r) => (if Count(Erase(l), v) > 0 then Spine(l, v) else Spine(r, v)) + [s]
  }

  /** The siblings along that path, as pieces. */
  ghost function SiblingPieces(s: Shape, v: int): (r: seq<Piece>)
    requires Count(Erase(s), v) > 0
    ensures |r| == |PathTo(Erase(s), v)| && forall p <- r :: p.Some?
  {
    match s
    case Tip(_, _) => []
    case Fork(_, l, r) =>
      if Count(Erase(l), v) > 0 then SiblingPieces(l, v) + [Some(r)] else SiblingPieces(r, v) + [Some(l)]
  }

  lemma {:induction false} SpineEnds(s: Shape, v: int)
    requires Count(Erase(s), v) > 0
    ensures Spine(s, v)[0].Tip? && Spine(s, v)[0].leaf == v && Spine(s, v)[|Spine(s, v)| - 1] == s
  {
    if s.Fork? { SpineEnds(if Count(Erase(s.left), v) > 0 then s.left else s.right, v); }
  }

  /** One level of the path: the next subshape has this one and its sibling as children. */
  lemma {:induction false} SpineStep(s: Shape, v: int, H: Hash, k: nat)
    requires Count(Erase(s), v) > 0 && k < |SiblingPieces(s, v)|
    requires Apart(s) && Built(s, H)
    ensures var lower, upper, sib := Spine(s, v)[k], Spine(s, v)[k + 1], SiblingPieces(s, v)[k].value;
      && (lower.node, upper.node) in Links(s) && sib.node != lower.node
      && PathTo(Erase(s), v)[k].sibling == Erase(sib)
      && if PathTo(Erase(s), v)[k].onRight then upper.node.left == sib.node && upper.node.right == lower.node
         else upper.node.left == lower.node && upper.node.right == sib.node
  {
    var below := if Count(Erase(s.left), v) > 0 then s.left else s.right;
    if k == |SiblingPieces(s, v)| - 1 {
      SpineEnds(below, v);
      RootIn(s.left);
      RootIn(s.right);
    } else {
      SpineStep(below, v, H, k);
      assert Spine(s, v)[k] == Spine(below, v)[k] && Spine(s, v)[k + 1] == Spine(below, v)[k + 1];
    }
  }

  lemma {:induction false} SiblingsBuilt(s: Shape, v: int, H: Hash)
    requires Count(Erase(s), v) > 0 && Built(s, H)
    ensures AllBuilt(SiblingPieces(s, v), H)
  {
    if s.Fork? { SiblingsBuilt(if Count(Erase(s.left), v) > 0 then s.left else s.right, v, H); }
  }

  lemma {:induction false} SiblingsKeep(s: Shape, v: int)
    requires Count(Erase(s), v) > 0 && Apart(s)
    ensures var P := SiblingPieces(s, v);
      && Separate(P)
      && AllNodes(P) <= Nodes(s) && AllLinks(P) <= Links(s)
      && Tips(s) == AllTips(P) + {(Spine(s, v)[0].node, v)}
  {
    SpineEnds(s, v);
    if s.Tip? {
      assert AllTips([]) == {};
    } else {
      hide AllNodes, AllTips, AllLinks, Separate;
      var left := Count(Erase(s.left), v) > 0;
      var below, sib := if left then s.left else s.right, if left then s.right else s.left;
      SiblingsKeep(below, v);
      AppendKeeps(SiblingPieces(below, v), Some(sib));
      assert Spine(s, v)[0] == Spine(below, v)[0];
    }
  }

  // ------------------------------------------------------------------------
  // Taking a tree apart
  // ------------------------------------------------------------------------

  lemma ConcatKeeps(P: seq<Piece>, Q: seq<Piece>)
    requires Separate(P) && Separate(Q) && AllNodes(P) !! AllNodes(Q)
    ensures Separate(P + Q)
    ensures AllNodes(P + Q) == AllNodes(P) + AllNodes(Q)
    ensures AllTips(P + Q) == AllTips(P) + AllTips(Q)
    ensures AllLinks(P + Q) == AllLinks(P) + AllLinks(Q)
    decreases |Q|
  {
    if Q == [] {
      assert P + Q == P;
    } else {
      var k := |Q| - 1;
      var front := Q[..k];
      assert Q == front + [Q[k]];
      assert P + Q == (P + front) + [Q[k]];
      InitKeeps(front, Q[k]);
      ConcatKeeps(P, front);
      AppendKeeps(P + front, Q[k]);
    }
  }

  lemma InitKeeps(P: seq<Piece>, p: Piece)
    requires Separate(P + [p])
    ensures Separate(P) && (p.Some? ==> Apart(p.value)) && PieceNodes(p) !! AllNodes(P)
    ensures AllNodes(P + [p]) == AllNodes(P) + PieceNodes(p)
    ensures AllTips(P + [p]) == AllTips(P) + PieceTips(p)
    ensures AllLinks(P + [p]) == AllLinks(P) + PieceLinks(p)
  {
    var Q := P + [p];
    assert Q[|P|] == p;
    forall i | 0 <= i < |P| ensures P[i] == Q[i] && PieceNodes(P[i]) !! PieceNodes(p) {
    }
    AppendKeeps(P, p);
  }

  /** Emptying a slot takes its tree apart from all the others. */
  lemma ClearApart(P: seq<Piece>, k: nat)
    requires Separate(P) && k < |P|
    ensures forall i :: 0 <= i < |P| && i != k ==> PieceNodes(P[i]) !! PieceNodes(P[k])
    ensures Separate(P[k := None]) && AllNodes(P[k := None]) !! PieceNodes(P[k])
  {
    hide PieceTips, PieceLinks;
    var Q := P[k := None];
    forall i | 0 <= i < |P| && i != k ensures Q[i] == P[i] && PieceNodes(P[i]) !! PieceNodes(P[k]) {
      assert i < k ==> PieceNodes(P[i]) !! PieceNodes(P[k]);
      assert k < i ==> PieceNodes(P[k]) !! PieceNodes(P[i]);
    }
  }

  /** An emptied slot takes its tree's nodes, leaves and links out of the pieces. */
  lemma ClearKeeps(P: seq<Piece>, k: nat)
    requires Separate(P) && k < |P|
    ensures Separate(P[k := None]) && AllNodes(P[k := None]) !! PieceNodes(P[k])
    ensures AllNodes(P) == AllNodes(P[k := None]) + PieceNodes(P[k])
    ensures AllTips(P) == AllTips(P[k := None]) + PieceTips(P[k])
    ensures AllLinks(P) == AllLinks(P[k := None]) + PieceLinks(P[k])
  {
    ClearApart(P, k);
    ClearSets(P, k);
  }

  lemma ClearSets(P: seq<Piece>, k: nat)
    requires k < |P|
    ensures AllNodes(P) == AllNodes(P[k := None]) + PieceNodes(P[k])
    ensures AllTips(P) == AllTips(P[k := None]) + PieceTips(P[k])
    ensures AllLinks(P) == AllLinks(P[k := None]) + PieceLinks(P[k])
  {
    var Q := P[k := None];
    forall n | n in AllNodes(P) ensures n in AllNodes(Q) + PieceNodes(P[k]) {
      var i :| 0 <= i < |P| && n in PieceNodes(P[i]);
      assert i != k ==> n in PieceNodes(Q[i]);
    }
    forall t | t in AllTips(P) ensures t in AllTips(Q) + PieceTips(P[k]) {
      var i :| 0 <= i < |P| && t in PieceTips(P[i]);
      assert i != k ==> t in PieceTips(Q[i]);
    }
    forall l | l in AllLinks(P) ensures l in AllLinks(Q) + PieceLinks(P[k]) {
      var i :| 0 <= i < |P| && l in PieceLinks(P[i]);
      assert i != k ==> l in PieceLinks(Q[i]);
    }
  }

  /** The slots without the tree of slot `k`, an empty place for the carried tree, and the siblings of `v`. */
  ghost function Opened(P: seq<Piece>, k: nat, v: int): seq<Piece>
    requires k < |P| && P[k].Some? && Count(Erase(P[k].value), v) > 0
  {
    (P[k := None] + [None]) + SiblingPieces(P[k].value, v)
  }

  lemma OpenedKeeps(P: seq<Piece>, k: nat, v: int)
    requires Separate(P) && k < |P| && P[k].Some? && Count(Erase(P[k].value), v) > 0
    ensures Separate(Opened(P, k, v))
    ensures AllNodes(Opened(P, k, v)) <= AllNodes(P) && AllLinks(Opened(P, k, v)) <= AllLinks(P)
    ensures AllTips(P) == AllTips(Opened(P, k, v)) + {(Spine(P[k].value, v)[0].node, v)}
  {
    var s := P[k].value;
    assert Apart(s);
    hide AllNodes, AllTips, AllLinks, Separate;
    ClearKeeps(P, k);
    AppendKeeps(P[k := None], None);
    SiblingsKeep(s, v);
    ConcatKeeps(P[k := None] + [None], SiblingPieces(s, v));
  }

  lemma OpenedHolds(roots: seq<Node?>, P: seq<Piece>, H: Hash, k: nat, v: int)
    requires Holds(roots, P, H) && k < |roots| == |P| && P[k].Some? && Count(Erase(P[k].value), v) > 0
    ensures Holds(roots[k := null], Opened(P, k, v), H)
    ensures AllNodes(Opened(P, k, v)) <= AllNodes(P)
    ensures AllTips(P) == AllTips(Opened(P, k, v)) + {(Spine(P[k].value, v)[0].node, v)}
  {
    hide AllNodes, AllTips, AllLinks, Separate, SiblingPieces, Spine;
    OpenedKeeps(P, k, v);
    SiblingsBuilt(P[k].value, v, H);
    Inside(Opened(P, k, v));
  }

  /** Trailing empty pieces do not matter. */
  lemma DropNones(roots: seq<Node?>, P: seq<Piece>, H: Hash, k: nat)
    requires Holds(roots, P, H) && |roots| <= k <= |P|
    requires forall i :: k <= i < |P| ==> P[i].None?
    ensures Holds(roots, P[..k], H)
    ensures AllNodes(P[..k]) == AllNodes(P) && AllTips(P[..k]) == AllTips(P)
    decreases |P|
  {
    if k == |P| {
      assert P[..k] == P;
    } else {
      var j := |P| - 1;
      assert P == P[..j] + [None];
      DropLastKeeps(P, P[..j]);
      assert P[..j][..k] == P[..k];
      DropNones(roots, P[..j], H, k);
    }
  }

  /** `p.parent = None` for the root of a piece. */
  method Detach(hash: Hash, p: Node, ghost roots: seq<Node?>, ghost P: seq<Piece>, ghost a: nat)
    requires Holds(roots, P, hash) && a < |P| && P[a].Some? && P[a].value.node == p
    modifies p`parent
    ensures p.parent == null && Holds(roots, P, hash)
  {
    p.parent := null;
    RootsApart(P, a);
  }

  ghost function EraseTrees(sibs: seq<Piece>): (ts: seq<Tree>)
    requires forall p <- sibs :: p.Some?
    ensures |ts| == |sibs|
  {
    seq(|sibs|, i requires 0 <= i < |sibs| => Erase(sibs[i].value))
  }

  lemma {:induction false} SiblingTrees(s: Shape, v: int)
    requires Count(Erase(s), v) > 0
    ensures EraseTrees(SiblingPieces(s, v)) == Siblings(PathTo(Erase(s), v))
  {
    if s.Fork? {
      var below := if Count(Erase(s.left), v) > 0 then s.left else s.right;
      var sib := if Count(Erase(s.left), v) > 0 then s.right else s.left;
      SiblingTrees(below, v);
      SiblingsAppend(PathTo(Erase(below), v), Step(Count(Erase(s.left), v) == 0, Erase(sib)));
      assert EraseTrees(SiblingPieces(s, v)) == EraseTrees(SiblingPieces(below, v)) + [Erase(sib)];
    }
  }

  /** What each branch of the deletion loop does to the forest that the slots stand for. */
  lemma HandBackForest(P: seq<Piece>, sibs: seq<Piece>, c: nat, h: nat, node: Node)
    requires h < |sibs| < c && |P| == c + 1 + |sibs|
    requires (forall p <- sibs :: p.Some?) && P[c + 1 + h] == sibs[h]
    ensures var a, F, ts := c + 1 + h, EraseAll(P[..c]), EraseTrees(sibs);
      var done := Dismantle(F, ts, ErasePiece(P[c]), h);
      && (P[c].Some? ==> var Q := Forked(P, a, c, c, node);
            Dismantle(EraseAll(Q[..c]), ts, ErasePiece(Q[c]), h + 1) == done)
      && (P[c].None? && P[h].None? ==> var Q := Moved(P, a, h);
            Dismantle(EraseAll(Q[..c]), ts, ErasePiece(Q[c]), h + 1) == done)
      && (P[c].None? && P[h].Some? ==> var Q := Forked(P, a, h, c, node);
            Dismantle(EraseAll(Q[..c]), ts, ErasePiece(Q[c]), h + 1) == done)
  {
    var a, F := c + 1 + h, EraseAll(P[..c]);
    assert F[h] == ErasePiece(P[h]);
    if P[c].Some? {
      assert EraseAll(Forked(P, a, c, c, node)[..c]) == F;
    } else if P[h].None? {
      assert EraseAll(Moved(P, a, h)[..c]) == F[h := Some(Erase(P[a].value))];
    } else {
      assert EraseAll(Forked(P, a, h, c, node)[..c]) == F[h := None];
    }
  }

  /** A tree in a slot is held by the heap, pointer by pointer. */
  lemma SlotHeld(roots: seq<Node?>, P: seq<Piece>, H: Hash, k: nat)
    requires Holds(roots, P, H) && k < |roots| && P[k].Some?
    ensures Apart(P[k].value) && Built(P[k].value, H) && P[k].value.node.parent == null
    ensures forall l <- Links(P[k].value) :: l.0.parent == l.1
  {
    var s := P[k].value;
    assert RootOf(P[k]) == s.node && roots[k] == s.node;
    forall l <- Links(s) ensures l.0.parent == l.1 {
      assert l in PieceLinks(P[k]);
      assert l in AllLinks(P);
    }
  }

  lemma ProofValues(s: Shape, v: int, H: Hash, proof: seq<Node>, values: seq<int>)
    requires Count(Erase(s), v) > 0 && Apart(s) && Built(s, H) && |proof| == |SiblingPieces(s, v)|
    requires forall i :: 0 <= i < |proof| ==> proof[i] == SiblingPieces(s, v)[i].value.node
    requires |values| == |proof| && forall i :: 0 <= i < |proof| ==> values[i] == proof[i].val
    ensures values == RootValues(H, Siblings(PathTo(Erase(s), v)))
  {
    SiblingTrees(s, v);
    SiblingsBuilt(s, v, H);
    var sibs := SiblingPieces(s, v);
    forall i | 0 <= i < |proof| ensures proof[i].val == RootValue(H, EraseTrees(sibs)[i]) {
      BuiltValue(sibs[i].value, H);
    }
  }

  /** Taking the opened slots through the deletion loop deletes the leaf. */
  lemma OpenedDelete(P: seq<Piece>, leaf: int)
    requires Forests.Valid(EraseAll(P)) && Members(EraseAll(P), leaf) > 0
    ensures |PathIn(EraseAll(P), leaf)| < |P|
    ensures var k := SlotOf(EraseAll(P), leaf);
      && P[k].Some? && Count(Erase(P[k].value), leaf) > 0
      && |SiblingPieces(P[k].value, leaf)| == k
      && PathIn(EraseAll(P), leaf) == PathTo(Erase(P[k].value), leaf)
      && Dismantle(EraseAll(P[k := None]), EraseTrees(SiblingPieces(P[k].value, leaf)), None, 0)
      == Forests.Delete(EraseAll(P), leaf)
  {
    var F := EraseAll(P);
    var k := SlotOf(F, leaf);
    PathInForest(F, leaf, One());
    SiblingTrees(P[k].value, leaf);
    assert EraseAll(P[k := None]) == F[k := None];
    DismantleIgnoresTop(F, Siblings(PathIn(F, leaf)), None, 0, None);
  }

  /** The end of the deletion loop: the carried tree, if any, becomes the root of slot `top`. */
  lemma FinishHolds(roots: seq<Node?>, P: seq<Piece>, H: Hash, c: nat, top: nat)
    requires Holds(roots, P, H) && top < c == |roots| < |P| && P[top].None?
    requires forall i :: c < i < |P| ==> P[i].None?
    requires P[c].Some? ==> P[c].value.node.parent == null
    ensures var Q := P[..c][top := P[c]];
      && Holds(roots[top := RootOf(P[c])], Q, H)
      && AllNodes(Q) == AllNodes(P) && AllTips(Q) == AllTips(P)
      && EraseAll(Q) == EraseAll(P[..c])[top := ErasePiece(P[c])]
  {
    var Q := P[..c][top := P[c]];
    if P[c].Some? {
      MovedHolds(roots, P, H, c, top);
      MovedKeeps(P, c, top);
      DropNones(roots[top := RootOf(P[c])], Moved(P, c, top), H, c);
      assert Moved(P, c, top)[..c] == Q;
    } else {
      DropNones(roots, P, H, c);
      assert P[..c] == Q && roots[top := null] == roots;
    }
  }

  /** A value that is a leaf once sits in only one leaf node. */
  lemma OnlyTip(P: seq<Piece>, v: int, m: Node, n: Node)
    requires Members(EraseAll(P), v) <= 1 && (m, v) in AllTips(P) && (n, v) in AllTips(P)
    ensures m == n
  {
    var i :| 0 <= i < |P| && (m, v) in PieceTips(P[i]);
    var j :| 0 <= j < |P| && (n, v) in PieceTips(P[j]);
    TipsCount(P[i].value, v);
    TipsCount(P[j].value, v);
    var F := EraseAll(P);
    if i != j {
      UpdateWeight(F, i, None, Is(v));
      SlotWithin(F[i := None], j, Is(v));
    } else {
      SlotWithin(F, i, Is(v));
      OnlyTipIn(P[i].value, v, m, n);
    }
  }

  lemma {:induction false} OnlyTipIn(s: Shape, v: int, m: Node, n: Node)
    requires Count(Erase(s), v) <= 1 && (m, v) in Tips(s) && (n, v) in Tips(s)
    ensures m == n
  {
    if s.Fork? {
      TipsCount(s.left, v);
      TipsCount(s.right, v);
      if (m, v) in Tips(s.left) {
        OnlyTipIn(s.left, v, m, n);
      } else {
        OnlyTipIn(s.right, v, m, n);
      }
    }
  }
}
