/**
  The UTXO set of the Cairo program: every insertion and extraction goes to the bridge node and to the
  Cairo accumulator, which run different algorithms on different state. The program never learns that the
  bridge node refuses a leaf that it knows already, and adds the leaf to its own roots again. The two stay in
  step exactly as long as no leaf is inserted while it is stored.
*/
module UtxoSet {
  import opened Arithmetic
  import opened Wrappers
  import opened HashTrees
  import opened Forests
  import opened Lockstep
  import opened Shapes
  import opened BridgeNode
  import opened Utreexo
  import opened Occupancy

  datatype Operation = Insert(leaf: int) | Extract(leaf: int)

  /** The leaves that the bridge node knows, and how many more the Cairo roots stand for. */
  datatype Stock = Stock(leaves: set<int>, repeated: nat)
  {
    function Total(): nat { |leaves| + repeated }
  }

  function After(s: Stock, op: Operation): Stock {
    match op
    case Insert(leaf) => Stock(s.leaves + {leaf}, if leaf in s.leaves then s.repeated + 1 else s.repeated)
    case Extract(leaf) => Stock(s.leaves - {leaf}, s.repeated)
  }

  /** After an extraction that is not accepted: a leaf that the bridge node knew is gone from it alone. */
  function Rejected(s: Stock, leaf: int): Stock {
    if leaf in s.leaves then Stock(s.leaves - {leaf}, s.repeated + 1) else s
  }

  /** The Cairo roots stand for all known leaves, and are the bridge node's roots if they stand for no more. */
  predicate Tied(known: nat, bridgeRoots: seq<int>, roots: seq<int>) {
    known <= Stored(roots) && (known == Stored(roots) ==> roots == bridgeRoots)
  }

  class UtxoSet {
    const bridge: BridgeNode
    const accumulator: Accumulator

    ghost predicate Valid()
      reads this, bridge, bridge.nodes, accumulator, accumulator.roots
    {
      && bridge.Valid() && accumulator.Valid()
      && bridge.hash == accumulator.hash && NeverZero(bridge.hash)
      && Tied(|Leaves()|, bridge.RootValues(), accumulator.roots[..])
    }

    /** The roots of both sides are equal, slot by slot. */
    ghost predicate InStep()
      reads this, bridge, bridge.nodes, accumulator, accumulator.roots
    {
      accumulator.roots[..] == bridge.RootValues()
    }

    ghost function Leaves(): set<int>
      reads bridge
    {
      bridge.leafNodes.Keys
    }

    ghost function Contents(): Stock
      requires Valid()
      reads this, bridge, bridge.nodes, accumulator, accumulator.roots
    {
      Stock(Leaves(), Stored(accumulator.roots[..]) - |Leaves()|)
    }

    /** The bridge node's proof of the leaf leads to a root of the accumulator. */
    ghost predicate Accepts(leaf: int)
      reads this, bridge, bridge.nodes, accumulator, accumulator.roots
    {
      var F := bridge.Forest();
      && Members(F, leaf) > 0 && |ProofOf(bridge.hash, F, leaf)| < |accumulator.roots[..]|
      && Included(bridge.hash, accumulator.roots[..], leaf, IndexOf(F, leaf), ProofOf(bridge.hash, F, leaf))
    }

    constructor (hash: Hash)
      requires NeverZero(hash)
      ensures Valid() && InStep() && Leaves() == {} && fresh(bridge) && fresh(accumulator) && fresh(accumulator.roots)
      ensures bridge.nodes == {} && bridge.hash == hash && accumulator.roots[..] == seq(ROOTS_LEN, i => 0)
    {
      bridge := new BridgeNode(hash);
      accumulator := new Accumulator(hash);
      new;
      bridge.Reports();
      Counts();
    }

    /** The reported roots stand for the known leaves, so that equal roots stand for equally many. */
    lemma Counts()
      requires bridge.Valid() && NeverZero(bridge.hash)
      ensures Stored(bridge.RootValues()) == |Leaves()|
    {
      bridge.Reports();
      StoredIsPopulation(bridge.hash, bridge.Forest());
    }

    /** The two are in step exactly if no leaf has been repeated. */
    lemma InStepExactly()
      requires Valid()
      ensures InStep() <==> Contents().repeated == 0
    {
      Counts();
    }

    /** `utxo_set_insert`: the answer of the bridge node is not looked at. */
    method Insert(leaf: int)
      requires Valid() && leaf != 0
      requires Contents().Total() + 1 < 0x800_0000
      modifies bridge, accumulator, bridge.nodes
      ensures Valid() && fresh(accumulator.roots) && fresh(bridge.nodes - old(bridge.nodes))
      ensures Contents() == After(old(Contents()), Operation.Insert(leaf))
      ensures HasRoom(old(accumulator.roots[..]), 0)
      ensures accumulator.roots[..] == AddFrom(bridge.hash, old(accumulator.roots[..]), leaf, 0)
      ensures old(InStep()) ==> (InStep() <==> leaf !in old(Leaves()))
      ensures leaf in old(Leaves()) ==> bridge.Forest() == old(bridge.Forest())
    {
      hide Pow2, BridgeNode.Valid, EraseAll, Population, Forests.Valid, NeverZero, HasEmptySlot, HasRoom,
        Roots, ProofOf, IndexOf, PathIn, DeleteFrom, AddFrom, Forests.Add, Forests.Delete, Stored,
        BridgeNode.RootValues;
      ghost var F, roots := bridge.Forest(), accumulator.roots[..];
      Counts();
      bridge.Reports();
      RoomExactly(F);
      RoomIs(roots, 0);
      AddStores(bridge.hash, roots, leaf, 0);
      assert roots[0..] == roots;
      var added := bridge.Add(leaf);
      bridge.Reports();
      Counts();
      if added { AddRoots(bridge.hash, F, leaf); }
      accumulator.Add(leaf);
      assert accumulator.roots[..][0..] == accumulator.roots[..];
    }

    /** `fetch_inclusion_proof`: the bridge node deletes the leaf, and hands out its proof. */
    method FetchInclusionProof(leaf: int) returns (fetched: Option<(seq<int>, nat)>)
      requires Valid()
      modifies bridge, bridge.nodes
      ensures bridge.Valid() && fresh(bridge.nodes - old(bridge.nodes))
      ensures fetched.Some? <==> leaf in old(Leaves())
      ensures Leaves() == old(Leaves()) - {leaf}
      ensures fetched.None? ==> bridge.RootValues() == old(bridge.RootValues())
      ensures fetched.Some? ==>
        var (proof, leafIndex) := fetched.value;
        && Members(old(bridge.Forest()), leaf) > 0
        && fetched.value == (ProofOf(bridge.hash, old(bridge.Forest()), leaf), IndexOf(old(bridge.Forest()), leaf))
        && |proof| < |old(bridge.RootValues())| == ROOTS_LEN
        && Included(bridge.hash, old(bridge.RootValues()), leaf, leafIndex, proof)
        && bridge.RootValues() == DeleteFrom(bridge.hash, old(bridge.RootValues()), proof, 0, 0)
        && leaf != 0 && forall i :: 0 <= i < |proof| ==> proof[i] != 0
    {
      hide Pow2, BridgeNode.Valid, EraseAll, Population, Forests.Valid, NeverZero, Roots, ProofOf, IndexOf, PathIn,
        DeleteFrom, Forests.Delete, Included, Members, ForestWeight, BridgeNode.RootValues, BridgeNode.Forest, Stored;
      ghost var F := bridge.Forest();
      bridge.Reports();
      fetched := bridge.Delete(leaf);
      bridge.Reports();
      if fetched.Some? {
        OwnProof(bridge.hash, F, leaf);
        ProofNotZero(bridge.hash, F, leaf);
      }
    }

    /**
      `utxo_set_extract`: false when the bridge node does not know the leaf, or its proof is rejected. The
      program stops then, and the leaf of a rejected proof is gone from the bridge node alone.
    */
    method Extract(leaf: int) returns (ok: bool)
      requires Valid()
      modifies bridge, accumulator, bridge.nodes
      ensures Valid() && (accumulator.roots == old(accumulator.roots) || fresh(accumulator.roots))
      ensures fresh(bridge.nodes - old(bridge.nodes))
      ensures ok <==> leaf in old(Leaves()) && old(Accepts(leaf))
      ensures Contents() == (if ok then After(old(Contents()), Operation.Extract(leaf))
                             else Rejected(old(Contents()), leaf))
      ensures old(InStep()) && leaf in old(Leaves()) ==> ok
      ensures InStep() <==> old(InStep())
    {
      hide Valid, BridgeNode.Valid, InStep, Accepts, Stored;
      InStepExactly();
      if InStep() && leaf in Leaves() { InStepAccepts(leaf); }
      ok := ExtractKnown(leaf);
      InStepExactly();
    }

    method ExtractKnown(leaf: int) returns (ok: bool)
      requires Valid()
      modifies bridge, accumulator, bridge.nodes
      ensures Valid() && (accumulator.roots == old(accumulator.roots) || fresh(accumulator.roots))
      ensures fresh(bridge.nodes - old(bridge.nodes))
      ensures ok <==> leaf in old(Leaves()) && old(Accepts(leaf))
      ensures Contents() == (if ok then After(old(Contents()), Operation.Extract(leaf))
                             else Rejected(old(Contents()), leaf))
    {
      hide BridgeNode.Valid, NeverZero, DeleteFrom, Included, BridgeNode.RootValues, Stored, ProofOf, IndexOf, Members,
        BridgeNode.Forest, Tied, Roots, Population, ForestWeight;
      Counts();
      ghost var known, bridgeRoots, roots := |Leaves()|, bridge.RootValues(), accumulator.roots[..];
      var fetched := FetchInclusionProof(leaf);
      if fetched.None? { return false; }
      var (proof, leafIndex) := fetched.value;
      OneLess(bridge.hash, known, bridgeRoots, roots, leaf, leafIndex, proof);
      assert |Leaves()| == known - 1;
      ok := accumulator.Delete(leaf, leafIndex, proof);
    }

    /** While the two are in step, every proof is accepted. */
    lemma InStepAccepts(leaf: int)
      requires Valid() && InStep() && leaf in Leaves()
      ensures Accepts(leaf)
    {
      hide ProofOf, IndexOf, Included, Members;
      bridge.Reports();
      KnownLeaf(bridge.leafNodes, bridge.shapes, leaf);
      OwnProof(bridge.hash, bridge.Forest(), leaf);
    }

    /** One operation of the program, which stops at an extraction that is not accepted. */
    method Apply(op: Operation) returns (ok: bool)
      requires Valid()
      requires op.Insert? ==> op.leaf != 0 && Contents().Total() + 1 < 0x800_0000
      modifies bridge, accumulator, bridge.nodes
      ensures Valid() && (accumulator.roots == old(accumulator.roots) || fresh(accumulator.roots))
      ensures fresh(bridge.nodes - old(bridge.nodes))
      ensures ok ==> Contents() == After(old(Contents()), op) && (op.Extract? ==> op.leaf in old(Contents()).leaves)
      ensures !ok ==> op.Extract? && (op.leaf !in old(Contents()).leaves || old(Contents()).repeated > 0)
      ensures !ok ==> (Contents().repeated == 0 <==> old(Contents()).repeated == 0)
    {
      hide Valid, BridgeNode.Valid, Pow2, After, Rejected, InStep, Accepts, AddFrom, HasRoom, Stored;
      InStepExactly();
      match op {
        case Insert(leaf) =>
          Insert(leaf);
          ok := true;
        case Extract(leaf) =>
          ok := Extract(leaf);
      }
      InStepExactly();
    }

    /**
      A run of the program: it goes through all operations, or stops at an extraction. However far it comes,
      the two sides are in step exactly if no leaf counts as repeated.
    */
    method Run(ops: seq<Operation>) returns (done: nat)
      requires Valid() && forall op <- ops :: op.Insert? ==> op.leaf != 0
      requires RoomThroughout(Contents(), ops)
      modifies bridge, accumulator, bridge.nodes
      ensures Valid() && done <= |ops|
      ensures done == |ops| ==> Contents() == Replay(old(Contents()), ops)
      ensures InStep() <==> Replay(old(Contents()), ops[..done]).repeated == 0
      ensures old(InStep()) ==> (InStep() <==> !Repeats(old(Contents()), ops[..done]))
      ensures AllKnown(old(Contents()), ops[..done])
      ensures done < |ops| ==>
        var s := Replay(old(Contents()), ops[..done]);
        ops[done].Extract? && (ops[done].leaf !in s.leaves || s.repeated > 0)
    {
      hide Valid, BridgeNode.Valid, Pow2, After, Replay, InStep, Contents, AllKnown, Repeats;
      done := 0;
      InStepExactly();
      ReplayNothing(Contents());
      NothingKnown(Contents());
      while done < |ops|
        invariant 0 <= done <= |ops| && Valid()
        invariant Contents() == Replay(old(Contents()), ops[..done]) && AllKnown(old(Contents()), ops[..done])
        invariant fresh(bridge.nodes - old(bridge.nodes))
      {
        ReplayStep(old(Contents()), ops, done);
        var ok := Apply(ops[done]);
        if !ok {
          InStepExactly();
          RepeatsExactly(old(Contents()), ops[..done]);
          return;
        }
        KnownStep(old(Contents()), ops, done);
        done := done + 1;
      }
      InStepExactly();
      RepeatsExactly(old(Contents()), ops[..done]);
      assert ops[..|ops|] == ops;
    }
  }

  /** Each insertion finds fewer than 2^27 - 1 leaves, which is when its carry stops inside the slots. */
  ghost predicate RoomThroughout(s: Stock, ops: seq<Operation>) {
    forall i :: 0 <= i < |ops| && ops[i].Insert? ==> Replay(s, ops[..i]).Total() + 1 < 0x800_0000
  }

  /** Every leaf that is extracted is stored at that time. */
  ghost predicate AllKnown(s: Stock, ops: seq<Operation>) {
    forall i :: 0 <= i < |ops| && ops[i].Extract? ==> ops[i].leaf in Replay(s, ops[..i]).leaves
  }

  /** What a sequence of operations leaves, on plain sets. */
  function Replay(s: Stock, ops: seq<Operation>): Stock {
    if ops == [] then s else After(Replay(s, ops[..|ops| - 1]), ops[|ops| - 1])
  }

  lemma ReplayNothing(s: Stock)
    ensures Replay(s, []) == s
  {
  }

  lemma ReplayStep(s: Stock, ops: seq<Operation>, i: nat)
    requires i < |ops|
    ensures Replay(s, ops[..i + 1]) == After(Replay(s, ops[..i]), ops[i])
    ensures forall k :: 0 <= k <= i ==> ops[..i + 1][..k] == ops[..i][..k] == ops[..k]
  {
    assert ops[..i + 1][..i] == ops[..i];
  }

  lemma NothingKnown(s: Stock)
    ensures AllKnown(s, [])
  {
  }

  lemma KnownStep(s: Stock, ops: seq<Operation>, i: nat)
    requires i < |ops| && AllKnown(s, ops[..i])
    requires ops[i].Extract? ==> ops[i].leaf in Replay(s, ops[..i]).leaves
    ensures AllKnown(s, ops[..i + 1])
  {
    ReplayStep(s, ops, i);
    forall k | 0 <= k <= i && ops[k].Extract? ensures ops[k].leaf in Replay(s, ops[..i + 1][..k]).leaves {
      if k < i { assert ops[..i][k].leaf in Replay(s, ops[..i][..k]).leaves; }
    }
  }

  /** Some leaf is inserted while it is stored. */
  ghost predicate Repeats(s: Stock, ops: seq<Operation>) {
    exists i :: 0 <= i < |ops| && ops[i].Insert? && ops[i].leaf in Replay(s, ops[..i]).leaves
  }

  /** A run repeats a leaf if and only if more leaves count as repeated after it. */
  lemma {:induction false} RepeatsExactly(s: Stock, ops: seq<Operation>)
    ensures Replay(s, ops).repeated >= s.repeated
    ensures Repeats(s, ops) <==> Replay(s, ops).repeated > s.repeated
    decreases |ops|
  {
    if ops != [] {
      var n := |ops| - 1;
      var front := ops[..n];
      RepeatsExactly(s, front);
      assert forall i :: 0 <= i <= n ==> front[..i] == ops[..i];
      if ops[n].Insert? && ops[n].leaf in Replay(s, front).leaves { assert Repeats(s, ops); }
      if Repeats(s, front) {
        var i :| 0 <= i < n && front[i].Insert? && front[i].leaf in Replay(s, front[..i]).leaves;
        assert ops[i].Insert? && ops[i].leaf in Replay(s, ops[..i]).leaves;
      }
      if Repeats(s, ops) {
        var i :| 0 <= i < |ops| && ops[i].Insert? && ops[i].leaf in Replay(s, ops[..i]).leaves;
        if i < n { assert front[i].Insert? && front[i].leaf in Replay(s, front[..i]).leaves; }
      }
    }
  }

  /** The roots after one insertion of a leaf, and after two. */
  lemma TwiceAdded(H: Hash, leaf: int)
    requires NeverZero(H) && leaf != 0
    ensures var empty := seq(ROOTS_LEN, i => 0);
      var once := empty[0 := leaf];
      && HasRoom(empty, 0) && AddFrom(H, empty, leaf, 0) == once
      && HasRoom(once, 0) && AddFrom(H, once, leaf, 0)[0] == 0
  {
    var empty := seq(ROOTS_LEN, i => 0);
    var once := empty[0 := leaf];
    assert once[1] == 0 && HasRoom(once, 1);
    HasRoomAbove(once, 0, 0);
    var twice := AddFrom(H, once[0 := 0], H(leaf, leaf), 1);
    assert twice[0] == twice[..1][0];
  }

  /** With a single leaf stored, its proof is empty. */
  lemma OnlyLeaf(H: Hash, F: Forest, leaf: int)
    requires NeverZero(H) && Forests.Valid(F) && Members(F, leaf) > 0 && leaf != 0
    requires forall h :: 0 < h < |F| ==> Roots(H, F)[h] == 0
    ensures ProofOf(H, F, leaf) == []
  {
    ProofAccepted(H, F, leaf);
    ProofRootNotZero(H, ProofOf(H, F, leaf), IndexOf(F, leaf), leaf);
  }

  /** A coin that exists twice: the sides fall out of step, and the bridge node's proof of it is rejected. */
  method InsertedTwice(hash: Hash, leaf: int) returns (twice: UtxoSet, ok: bool)
    requires NeverZero(hash) && leaf != 0
    ensures fresh(twice) && twice.Valid() && !twice.InStep() && !ok
  {
    hide Pow2, BridgeNode.Valid, AddFrom, HasRoom, ProofOf, IndexOf, Roots, Members, Stored, BridgeNode.RootValues;
    TwiceAdded(hash, leaf);
    twice := new UtxoSet(hash);
    twice.InStepExactly();
    twice.Insert(leaf);
    twice.bridge.Reports();
    assert twice.InStep();
    twice.Insert(leaf);
    ghost var F := twice.bridge.Forest();
    if twice.Accepts(leaf) { OnlyLeaf(hash, F, leaf); }
    ok := twice.Extract(leaf);
  }

  /** An accepted proof takes one leaf off the roots. */
  lemma AcceptedStores(H: Hash, roots: seq<int>, leaf: int, index: nat, proof: seq<int>)
    requires NeverZero(H) && |proof| < |roots| && leaf != 0 && forall i :: 0 <= i < |proof| ==> proof[i] != 0
    requires Included(H, roots, leaf, index, proof)
    ensures Stored(DeleteFrom(H, roots, proof, 0, 0)) + 1 == Stored(roots)
  {
    ProofRootNotZero(H, proof, index, leaf);
    DeleteStores(H, roots, proof, 0, 0);
    assert roots[0..] == roots && DeleteFrom(H, roots, proof, 0, 0)[0..] == DeleteFrom(H, roots, proof, 0, 0);
  }

  /** What an extraction does to both sides, whether or not the accumulator accepts the bridge node's proof. */
  lemma OneLess(H: Hash, known: nat, bridgeRoots: seq<int>, roots: seq<int>, leaf: int, index: nat, proof: seq<int>)
    requires NeverZero(H) && |proof| < |roots| == |bridgeRoots| && leaf != 0
    requires forall i :: 0 <= i < |proof| ==> proof[i] != 0
    requires Stored(bridgeRoots) == known && Tied(known, bridgeRoots, roots)
    requires Included(H, bridgeRoots, leaf, index, proof)
    ensures var accepted := Included(H, roots, leaf, index, proof);
      var left := if accepted then DeleteFrom(H, roots, proof, 0, 0) else roots;
      var bridgeLeft := DeleteFrom(H, bridgeRoots, proof, 0, 0);
      && known > 0 && Tied(known - 1, bridgeLeft, left)
      && Stored(roots) == (if accepted then Stored(left) + 1 else Stored(left))
  {
    hide Included, DeleteFrom, Stored;
    AcceptedStores(H, bridgeRoots, leaf, index, proof);
    if Included(H, roots, leaf, index, proof) { AcceptedStores(H, roots, leaf, index, proof); }
  }

  /** The proof of a stored leaf is accepted, and leads to the roots of the forest without the leaf. */
  lemma OwnProof(H: Hash, F: Forest, leaf: int)
    requires NeverZero(H) && Forests.Valid(F) && Members(F, leaf) > 0
    ensures |PathIn(F, leaf)| < |F| == ROOTS_LEN && |ProofOf(H, F, leaf)| < |F|
    ensures Included(H, Roots(H, F), leaf, IndexOf(F, leaf), ProofOf(H, F, leaf))
    ensures DeleteFrom(H, Roots(H, F), ProofOf(H, F, leaf), 0, 0) == Roots(H, Forests.Delete(F, leaf))
  {
    ProofAccepted(H, F, leaf);
    DeleteRoots(H, F, leaf);
  }
}
