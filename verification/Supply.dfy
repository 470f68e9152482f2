/**
  Conservation of money. Behind the roots of every accepted run stands a forest of unspent leaves. Every
  transaction removes the leaves of its inputs and adds those of its outputs; amounts cannot be forged,
  fees pay for the coinbase, and the value of all unspent outputs stays within the sum of block rewards.
*/
module Supply {
  import opened Wrappers
  import opened HashTrees
  import opened Forests
  import opened Lockstep
  import opened Utreexo
  import opened BlockRewards
  import opened HashChains
  import opened Ledger

  /** A forest that may hold equal leaves, but no zero. */
  ghost predicate Proper(F: Forest) {
    |F| == ROOTS_LEN && Perfects(F) && Members(F, 0) == 0
  }

  /** The roots are those of the forest. */
  ghost predicate Behind(H: Hashes, F: Forest, roots: seq<int>) {
    Proper(F) && roots == Forests.Roots(H.pair, F)
  }

  function ListWeight(leaves: seq<int>, f: int -> nat): nat {
    if leaves == [] then 0 else ListWeight(leaves[..|leaves| - 1], f) + f(leaves[|leaves| - 1])
  }

  /** `G` has the leaves of `F`, less the spent ones and more the created ones, each as often as it occurs. */
  ghost predicate Moved(F: Forest, G: Forest, created: seq<int>, spent: seq<int>) {
    forall f: int -> nat :: ForestWeight(G, f) + ListWeight(spent, f) == ForestWeight(F, f) + ListWeight(created, f)
  }

  lemma {:induction false} ListWeightAppend(s: seq<int>, t: seq<int>, f: int -> nat)
    ensures ListWeight(s + t, f) == ListWeight(s, f) + ListWeight(t, f)
  {
    if t == [] {
      assert s + t == s;
    } else {
      assert (s + t)[..|s + t| - 1] == s + t[..|t| - 1];
      ListWeightAppend(s, t[..|t| - 1], f);
    }
  }

  lemma MovedTwice(F: Forest, G: Forest, K: Forest, created: seq<int>, spent: seq<int>, created': seq<int>,
                   spent': seq<int>)
    requires Moved(F, G, created, spent) && Moved(G, K, created', spent')
    ensures Moved(F, K, created + created', spent + spent')
  {
    forall f: int -> nat
      ensures ForestWeight(K, f) + ListWeight(spent + spent', f)
              == ForestWeight(F, f) + ListWeight(created + created', f)
    {
      ListWeightAppend(created, created', f);
      ListWeightAppend(spent, spent', f);
    }
  }

  // ------------------------------------------------------------------------
  // One leaf in, one leaf out
  // ------------------------------------------------------------------------

  lemma ProperCarry(F: Forest, leaf: int)
    requires Proper(F) && HasEmptySlot(F, 0) && leaf != 0
    ensures Proper(Add(F, leaf)) && Moved(F, Add(F, leaf), [leaf], [])
  {
    CarryPerfects(F, Leaf(leaf), 0);
    forall f: int -> nat ensures ForestWeight(Add(F, leaf), f) == ForestWeight(F, f) + ListWeight([leaf], f) {
      CarryWeight(F, Leaf(leaf), 0, f);
      assert ListWeight([leaf], f) == ListWeight([], f) + f(leaf);
    }
    CarryWeight(F, Leaf(leaf), 0, Is(0));
  }

  lemma InsertMoves(H: Hashes, F: Forest, roots: Ledger.Roots, coin: Coin) returns (G: Forest)
    requires H.Sound() && Behind(H, F, roots) && Inserted(H, roots, coin).Some?
    ensures Behind(H, G, Inserted(H, roots, coin).value) && Moved(F, G, [H.Leaf(coin)], [])
  {
    hide Perfects, ForestWeight, Moved;
    var leaf := H.Leaf(coin);
    H.LeafNotZero(coin);
    RoomMatches(H.pair, F, 0);
    G := Add(F, leaf);
    ProperCarry(F, leaf);
    CarryRoots(H.pair, F, Leaf(leaf), 0);
  }

  lemma RemovalWeight(F: Forest, leaf: int, path: seq<Step>, f: int -> nat)
    requires |path| < |F| && F[|path|] == Some(Plug(Leaf(leaf), path))
    ensures ForestWeight(Dismantle(F, Siblings(path), None, 0), f) + f(leaf) == ForestWeight(F, f)
    ensures WeightAll(Siblings(path), f) <= ForestWeight(F, f)
  {
    var sibs := Siblings(path);
    assert sibs[0..] == sibs;
    PlugWeight(Leaf(leaf), path, f);
    DismantleWeight(F, sibs, None, 0, f);
    SlotWithin(F, |path|, f);
  }

  /** Whatever proof is accepted, one occurrence of the leaf leaves the forest. */
  lemma ExtractMoves(H: Hashes, F: Forest, roots: Ledger.Roots, input: TxInput) returns (G: Forest)
    requires H.Sound() && Behind(H, F, roots) && Extracted(H, roots, input).Some?
    ensures Behind(H, G, Extracted(H, roots, input).value) && Moved(F, G, [], [H.Leaf(input.Claim())])
  {
    hide ForestWeight, Moved, Perfect, RootValue, DeleteFrom, Dismantle, ProofRoot;
    var leaf, h := H.Leaf(input.Claim()), |input.proof|;
    H.LeafNotZero(input.Claim());
    ProofRootNotZero(H.pair, input.proof, input.leafIndex, leaf);
    SlotRootZero(H.pair, F, h);
    assert SlotPerfect(F[h], h);
    var path := ProofIsPath(H.pair, F[h].value, input.proof, input.leafIndex, leaf);
    var sibs := Siblings(path);
    G := Dismantle(F, sibs, None, 0);
    PlugHeights(Leaf(leaf), path, 0);
    assert sibs[0..] == sibs;
    DismantlePerfects(F, sibs, None, 0);
    RemovalWeight(F, leaf, path, Is(0));
    DismantleRoots(H.pair, F, sibs, None, 0);
    RemovalMoves(F, leaf, path);
  }

  lemma RemovalMoves(F: Forest, leaf: int, path: seq<Step>)
    requires |path| < |F| && F[|path|] == Some(Plug(Leaf(leaf), path))
    ensures Moved(F, Dismantle(F, Siblings(path), None, 0), [], [leaf])
  {
    var G := Dismantle(F, Siblings(path), None, 0);
    forall f: int -> nat ensures ForestWeight(G, f) + ListWeight([leaf], f) == ForestWeight(F, f) {
      RemovalWeight(F, leaf, path, f);
      assert ListWeight([leaf], f) == ListWeight([], f) + f(leaf);
    }
  }

  // ------------------------------------------------------------------------
  // Inputs, outputs, transactions
  // ------------------------------------------------------------------------

  function InputLeaves(H: Hashes, inputs: seq<TxInput>): (s: seq<int>)
    ensures |s| == |inputs|
  {
    seq(|inputs|, i requires 0 <= i < |inputs| =>
      H.Leaf(Coin(inputs[i].txid, inputs[i].vout, inputs[i].amount, inputs[i].scriptPubKey)))
  }

  function OutputLeaves(H: Hashes, t: Transaction, n: nat): (s: seq<int>)
    requires n <= |t.outputs|
    ensures |s| == n
  {
    seq(n, i requires 0 <= i < n => H.Leaf(Coin(t.txid, i, t.outputs[i].amount, t.outputs[i].scriptPubKey)))
  }

  lemma NothingMoved(F: Forest)
    ensures Moved(F, F, [], [])
  {
  }

  lemma {:induction false} InputsMove(H: Hashes, F: Forest, roots: Ledger.Roots, inputs: seq<TxInput>)
      returns (G: Forest)
    requires H.Sound() && Behind(H, F, roots) && Spent(H, roots, inputs).Some?
    ensures Behind(H, G, Spent(H, roots, inputs).value) && Moved(F, G, [], InputLeaves(H, inputs))
    decreases |inputs|
  {
    hide Behind, Moved, Extracted;
    if inputs == [] {
      G := F;
      NothingMoved(F);
      assert InputLeaves(H, inputs) == [];
    } else {
      var front, last := inputs[..|inputs| - 1], inputs[|inputs| - 1];
      var K := InputsMove(H, F, roots, front);
      G := ExtractMoves(H, K, Spent(H, roots, front).value, last);
      MovedTwice(F, K, G, [], InputLeaves(H, front), [], [H.Leaf(last.Claim())]);
      assert InputLeaves(H, front) + [H.Leaf(last.Claim())] == InputLeaves(H, inputs);
      var none: seq<int> := [];
      assert none + none == none;
    }
  }

  lemma {:induction false} OutputsMove(H: Hashes, F: Forest, roots: Ledger.Roots, t: Transaction, n: nat)
      returns (G: Forest)
    requires H.Sound() && Behind(H, F, roots) && n <= |t.outputs| && Created(H, roots, t, n).Some?
    ensures Behind(H, G, Created(H, roots, t, n).value) && Moved(F, G, OutputLeaves(H, t, n), [])
    decreases n
  {
    hide Behind, Moved, Inserted;
    if n == 0 {
      G := F;
      NothingMoved(F);
      assert OutputLeaves(H, t, n) == [];
    } else {
      var K := OutputsMove(H, F, roots, t, n - 1);
      G := InsertMoves(H, K, Created(H, roots, t, n - 1).value, CoinAt(t, n - 1));
      MovedTwice(F, K, G, OutputLeaves(H, t, n - 1), [], [H.Leaf(CoinAt(t, n - 1))], []);
      assert OutputLeaves(H, t, n - 1) + [H.Leaf(CoinAt(t, n - 1))] == OutputLeaves(H, t, n);
      var none: seq<int> := [];
      assert none + none == none;
    }
  }

  /** A transaction moves exactly its coins: whatever the hints, the spent leaves were unspent ones. */
  lemma TransactionMoves(H: Hashes, F: Forest, roots: Ledger.Roots, t: Transaction) returns (G: Forest)
    requires H.Sound() && Behind(H, F, roots) && Applied(H, roots, t).Some?
    ensures Behind(H, G, Applied(H, roots, t).value)
    ensures Moved(F, G, OutputLeaves(H, t, |t.outputs|), InputLeaves(H, t.inputs))
  {
    hide Behind, Moved, Spent, Created;
    var K := InputsMove(H, F, roots, t.inputs);
    G := OutputsMove(H, K, Spent(H, roots, t.inputs).value, t, |t.outputs|);
    MovedTwice(F, K, G, [], InputLeaves(H, t.inputs), OutputLeaves(H, t, |t.outputs|), []);
    assert [] + OutputLeaves(H, t, |t.outputs|) == OutputLeaves(H, t, |t.outputs|);
    assert InputLeaves(H, t.inputs) + [] == InputLeaves(H, t.inputs);
  }

  // ------------------------------------------------------------------------
  // What is created can be spent
  // ------------------------------------------------------------------------

  /** An input that names this output, with the forest's proof of its leaf, is accepted. */
  ghost predicate Spendable(H: Hashes, G: Forest, roots: Ledger.Roots, txid: seq<int>, vout: nat, output: TxOutput) {
    var leaf := H.Leaf(Coin(txid, vout, output.amount, output.scriptPubKey));
    && Members(G, leaf) > 0
    && Extracted(H, roots, TxInput(txid, vout, output.amount, output.scriptPubKey, IndexOf(G, leaf),
                                   ProofOf(H.pair, G, leaf))).Some?
  }

  lemma {:induction false} ListHas(leaves: seq<int>, i: nat)
    requires i < |leaves|
    ensures ListWeight(leaves, Is(leaves[i])) > 0
  {
    if i < |leaves| - 1 { ListHas(leaves[..|leaves| - 1], i); }
  }

  lemma {:induction false} CreatedHashable(H: Hashes, roots: Ledger.Roots, t: Transaction, n: nat, i: nat)
    requires i < n <= |t.outputs| && Created(H, roots, t, n).Some?
    ensures Returns(|t.txid|) && Returns(|t.outputs[i].scriptPubKey|)
  {
    if i < n - 1 { CreatedHashable(H, roots, t, n - 1, i); }
  }

  lemma StoredIsSpendable(H: Hashes, G: Forest, roots: Ledger.Roots, txid: seq<int>, vout: nat, output: TxOutput)
    requires Behind(H, G, roots) && Returns(|txid|) && Returns(|output.scriptPubKey|)
    requires Members(G, H.Leaf(Coin(txid, vout, output.amount, output.scriptPubKey))) > 0
    ensures Spendable(H, G, roots, txid, vout, output)
  {
    ProofAccepted(H.pair, G, H.Leaf(Coin(txid, vout, output.amount, output.scriptPubKey)));
  }

  /** Every output that is created can be spent by its transaction's id and its place among the outputs. */
  lemma OutputsSpendable(H: Hashes, F: Forest, roots: Ledger.Roots, t: Transaction) returns (G: Forest)
    requires H.Sound() && Behind(H, F, roots) && Created(H, roots, t, |t.outputs|).Some?
    ensures Behind(H, G, Created(H, roots, t, |t.outputs|).value) && Moved(F, G, OutputLeaves(H, t, |t.outputs|), [])
    ensures forall i :: 0 <= i < |t.outputs| ==>
      Spendable(H, G, Created(H, roots, t, |t.outputs|).value, t.txid, i, t.outputs[i])
  {
    hide Behind, Created, ForestWeight, Spendable, Returns;
    var n := |t.outputs|;
    G := OutputsMove(H, F, roots, t, n);
    var leaves := OutputLeaves(H, t, n);
    forall i | 0 <= i < n ensures Spendable(H, G, Created(H, roots, t, n).value, t.txid, i, t.outputs[i]) {
      CreatedHashable(H, roots, t, n, i);
      ListHas(leaves, i);
      assert Members(G, leaves[i]) > 0;
      StoredIsSpendable(H, G, Created(H, roots, t, n).value, t.txid, i, t.outputs[i]);
    }
  }

  /** After an accepted transaction, each of its outputs can be spent by an input that names it. */
  lemma TransactionCreates(H: Hashes, F: Forest, roots: Ledger.Roots, t: Transaction) returns (G: Forest)
    requires H.Sound() && Behind(H, F, roots) && Applied(H, roots, t).Some?
    ensures Behind(H, G, Applied(H, roots, t).value)
    ensures Moved(F, G, OutputLeaves(H, t, |t.outputs|), InputLeaves(H, t.inputs))
    ensures forall i :: 0 <= i < |t.outputs| ==>
      Spendable(H, G, Applied(H, roots, t).value, t.txid, i, t.outputs[i])
  {
    hide Behind, Moved, Spent, Created, Spendable;
    var K := InputsMove(H, F, roots, t.inputs);
    G := OutputsSpendable(H, K, Spent(H, roots, t.inputs).value, t);
    MovedTwice(F, K, G, [], InputLeaves(H, t.inputs), OutputLeaves(H, t, |t.outputs|), []);
    assert [] + OutputLeaves(H, t, |t.outputs|) == OutputLeaves(H, t, |t.outputs|);
    assert InputLeaves(H, t.inputs) + [] == InputLeaves(H, t.inputs);
  }

  lemma {:induction false} SpentHashable(H: Hashes, roots: Ledger.Roots, inputs: seq<TxInput>, i: nat)
    requires i < |inputs| && Spent(H, roots, inputs).Some?
    ensures Returns(|inputs[i].scriptPubKey|)
  {
    var n := |inputs| - 1;
    if i < n { SpentHashable(H, roots, inputs[..n], i); }
  }

  /** Scripts of a single felt are neither spent nor created: their hash chain does not return. */
  lemma ShortScriptRefused(H: Hashes, roots: Ledger.Roots, t: Transaction, i: nat)
    requires (i < |t.outputs| && |t.outputs[i].scriptPubKey| < 2) || (i < |t.inputs| && |t.inputs[i].scriptPubKey| < 2)
    ensures Applied(H, roots, t).None?
  {
    hide Spent, Created, Returns;
    if Applied(H, roots, t).Some? {
      if i < |t.outputs| && |t.outputs[i].scriptPubKey| < 2 {
        CreatedHashable(H, Spent(H, roots, t.inputs).value, t, |t.outputs|, i);
        ReturnsExactly(|t.outputs[i].scriptPubKey|);
      } else {
        SpentHashable(H, roots, t.inputs, i);
        ReturnsExactly(|t.inputs[i].scriptPubKey|);
      }
    }
  }

  // ------------------------------------------------------------------------
  // Value
  // ------------------------------------------------------------------------

  /** The amount of the coin that a leaf stands for. */
  ghost function AmountOf(H: Hashes): int -> nat {
    leaf => if exists c :: H.Leaf(c) == leaf then (var c :| H.Leaf(c) == leaf; c.amount) else 0
  }

  lemma AmountOfLeaf(H: Hashes, c: Coin)
    requires H.Sound()
    ensures AmountOf(H)(H.Leaf(c)) == c.amount
  {
    var d :| H.Leaf(d) == H.Leaf(c) && AmountOf(H)(H.Leaf(c)) == d.amount;
    H.LeafDetermines(c, d);
  }

  /** The value of all unspent outputs. */
  ghost function Value(H: Hashes, F: Forest): nat {
    ForestWeight(F, AmountOf(H))
  }

  lemma {:induction false} InputLeavesValue(H: Hashes, inputs: seq<TxInput>)
    requires H.Sound()
    ensures ListWeight(InputLeaves(H, inputs), AmountOf(H)) == InputTotal(inputs)
  {
    if inputs != [] {
      var n := |inputs| - 1;
      InputLeavesValue(H, inputs[..n]);
      assert InputLeaves(H, inputs)[..n] == InputLeaves(H, inputs[..n]);
      AmountOfLeaf(H, inputs[n].Claim());
    }
  }

  lemma {:induction false} OutputLeavesValue(H: Hashes, t: Transaction, n: nat)
    requires H.Sound() && n <= |t.outputs|
    ensures ListWeight(OutputLeaves(H, t, n), AmountOf(H)) == OutputTotal(t.outputs[..n])
  {
    if n > 0 {
      OutputLeavesValue(H, t, n - 1);
      assert OutputLeaves(H, t, n)[..n - 1] == OutputLeaves(H, t, n - 1);
      assert t.outputs[..n][..n - 1] == t.outputs[..n - 1];
      AmountOfLeaf(H, CoinAt(t, n - 1));
    } else {
      assert OutputLeaves(H, t, 0) == [];
    }
  }

  lemma {:induction false} OutputTotalBound(outputs: seq<TxOutput>)
    requires forall o <- outputs :: o.amount < UINT64_LIMIT
    ensures OutputTotal(outputs) <= |outputs| * UINT64_LIMIT
  {
    if outputs != [] { OutputTotalBound(outputs[..|outputs| - 1]); }
  }

  /** What a move does to the value: the move is exact for the amounts, too. */
  lemma ValueMoves(H: Hashes, F: Forest, G: Forest, created: seq<int>, spent: seq<int>)
    requires Moved(F, G, created, spent)
    ensures Value(H, G) + ListWeight(spent, AmountOf(H)) == Value(H, F) + ListWeight(created, AmountOf(H))
  {
  }

  lemma OutputsValue(H: Hashes, t: Transaction)
    requires H.Sound()
    ensures ListWeight(OutputLeaves(H, t, |t.outputs|), AmountOf(H)) == OutputTotal(t.outputs)
  {
    OutputLeavesValue(H, t, |t.outputs|);
    assert t.outputs[..|t.outputs|] == t.outputs;
  }

  /** Inputs can only spend what was unspent before. */
  lemma InputsAffordable(H: Hashes, F: Forest, roots: Ledger.Roots, inputs: seq<TxInput>)
    requires H.Sound() && Behind(H, F, roots) && Spent(H, roots, inputs).Some?
    ensures InputTotal(inputs) <= Value(H, F)
  {
    hide Behind, Moved, Spent, Value, InputLeaves;
    var K := InputsMove(H, F, roots, inputs);
    ValueMoves(H, F, K, [], InputLeaves(H, inputs));
    NoLeaves(AmountOf(H));
    InputLeavesValue(H, inputs);
  }

  lemma NoLeaves(f: int -> nat)
    ensures ListWeight([], f) == 0
  {
  }

  /** An accepted transaction makes no money: what its outputs lack to its inputs is its fee. */
  lemma TransactionConserves(H: Hashes, F: Forest, roots: Ledger.Roots, t: Transaction) returns (G: Forest)
    requires H.Sound() && Behind(H, F, roots) && t.Valid() && Value(H, F) < RANGE_LIMIT
    requires Applied(H, roots, t).Some?
    ensures Behind(H, G, Applied(H, roots, t).value)
    ensures Moved(F, G, OutputLeaves(H, t, |t.outputs|), InputLeaves(H, t.inputs))
    ensures Value(H, G) + Fee(t) == Value(H, F) && Fee(t) == InputTotal(t.inputs) - OutputTotal(t.outputs)
  {
    hide Behind, Moved, Spent, Created, Value, AssertLe, InputLeaves, OutputLeaves, ListWeight, InputTotal, OutputTotal;
    G := TransactionMoves(H, F, roots, t);
    ValueMoves(H, F, G, OutputLeaves(H, t, |t.outputs|), InputLeaves(H, t.inputs));
    InputLeavesValue(H, t.inputs);
    OutputsValue(H, t);
    InputsAffordable(H, F, roots, t.inputs);
    OutputsInRange(t);
    AssertLeIs(OutputTotal(t.outputs), InputTotal(t.inputs));
  }

  lemma OutputsInRange(t: Transaction)
    requires t.Valid()
    ensures OutputTotal(t.outputs) < RANGE_LIMIT
  {
    OutputTotalBound(t.outputs);
    if t.outputs == [] { } else { Larger(|t.outputs|, UINT64_LIMIT, UINT64_LIMIT); }
  }

  lemma Larger(a: nat, b: nat, k: nat)
    requires a < b && k > 0
    ensures a * k < b * k
  {
  }

  /** What the inputs of the transactions bring more than their outputs take. */
  function Surplus(ts: seq<Transaction>): int {
    if ts == [] then 0 else
    var n := |ts| - 1;
    Surplus(ts[..n]) + InputTotal(ts[n].inputs) - OutputTotal(ts[n].outputs)
  }

  /** The forest behind the roots after a list of transactions, and the fees that have left it. */
  lemma {:induction false} TransactionsConserve(H: Hashes, F: Forest, roots: Ledger.Roots, ts: seq<Transaction>)
      returns (G: Forest)
    requires H.Sound() && Behind(H, F, roots) && (forall t <- ts :: t.Valid()) && Value(H, F) < RANGE_LIMIT
    requires AllApplied(H, roots, ts).Some?
    ensures Behind(H, G, AllApplied(H, roots, ts).value)
    ensures Value(H, G) + TotalFees(ts) == Value(H, F) && TotalFees(ts) == Surplus(ts)
    decreases |ts|
  {
    hide Behind, Applied, Value, Fee;
    if ts == [] {
      G := F;
    } else {
      var front, last := ts[..|ts| - 1], ts[|ts| - 1];
      var K := TransactionsConserve(H, F, roots, front);
      G := TransactionConserves(H, K, AllApplied(H, roots, front).value, last);
    }
  }

  /** The one input of a coinbase, whose id is zero. */
  predicate CoinbaseForm(t: Transaction) {
    && |t.inputs| == 1 && t.inputs[0].vout == 0xFFFF_FFFF
    && |t.inputs[0].txid| == 8 && forall i :: 0 <= i < 8 ==> t.inputs[0].txid[i] == 0
  }

  /** All transactions but the coinbase apply, and the coinbase has its form and makes outputs that fit. */
  predicate Prepared(H: Hashes, roots: Ledger.Roots, block: Block) {
    var rest := AllApplied(H, roots, block[1..]);
    CoinbaseForm(block[0]) && rest.Some? && Created(H, rest.value, block[0], |block[0].outputs|).Some?
  }

  lemma CoinbaseFormIs(t: Transaction)
    ensures CoinbaseForm(t) <==> CoinbaseInput(t)
  {
    var zeros: seq<int> := seq(8, _ => 0);
    if CoinbaseForm(t) { assert t.inputs[0].txid == zeros; }
  }

  /**
    A block is accepted exactly if its coinbase takes at most the reward and what the other transactions'
    inputs bring more than their outputs take.
  */
  lemma BlockAcceptedExactly(H: Hashes, F: Forest, roots: Ledger.Roots, height: nat, block: Block)
    requires H.Sound() && Behind(H, F, roots) && (forall t <- block :: t.Valid())
    requires Value(H, F) + BlockReward(height) < RANGE_LIMIT
    ensures BlockApplied(H, roots, height, block).Some?
            <==> Prepared(H, roots, block)
                 && OutputTotal(block[0].outputs) <= BlockReward(height) + Surplus(block[1..])
  {
    hide Behind, Created, AllApplied, Value, AssertLe, BlockReward, TotalFees, OutputTotal, CoinbaseForm, CoinbaseInput;
    CoinbaseFormIs(block[0]);
    var rest := block[1..];
    if AllApplied(H, roots, rest).Some? {
      var K := TransactionsConserve(H, F, roots, rest);
      OutputsInRange(block[0]);
      AssertLeIs(OutputTotal(block[0].outputs), BlockReward(height) + TotalFees(rest));
    }
  }

  /** A block changes the value of all unspent outputs by its coinbase's outputs less the other transactions' fees. */
  lemma BlockConserves(H: Hashes, F: Forest, roots: Ledger.Roots, height: nat, block: Block) returns (G: Forest)
    requires H.Sound() && Behind(H, F, roots) && (forall t <- block :: t.Valid())
    requires Value(H, F) + BlockReward(height) < RANGE_LIMIT && BlockApplied(H, roots, height, block).Some?
    ensures Behind(H, G, BlockApplied(H, roots, height, block).value)
    ensures Value(H, G) + Surplus(block[1..]) == Value(H, F) + OutputTotal(block[0].outputs)
    ensures Value(H, G) <= Value(H, F) + BlockReward(height)
  {
    hide Behind, Moved, Created, AllApplied, Value, AssertLe, BlockReward, TotalFees, OutputLeaves, ListWeight,
         OutputTotal;
    var coinbase, rest := block[0], block[1..];
    var K := TransactionsConserve(H, F, roots, rest);
    G := OutputsMove(H, K, AllApplied(H, roots, rest).value, coinbase, |coinbase.outputs|);
    ValueMoves(H, K, G, OutputLeaves(H, coinbase, |coinbase.outputs|), []);
    NoLeaves(AmountOf(H));
    OutputsValue(H, coinbase);
    OutputsInRange(coinbase);
    AssertLeIs(OutputTotal(coinbase.outputs), BlockReward(height) + TotalFees(rest));
  }

  /** The program's block, over the forest behind its roots. */
  method ApplyBlock(validator: Validator, block: Block, ghost F: Forest) returns (ok: bool, ghost G: Forest)
    requires validator.Valid() && validator.hashes.Sound() && Behind(validator.hashes, F, validator.State())
    requires (forall t <- block :: t.Valid())
    requires Value(validator.hashes, F) + BlockReward(validator.height + 1) < RANGE_LIMIT
    modifies validator`height, validator.utreexo
    ensures ok <==>
      && Prepared(validator.hashes, old(validator.State()), block)
      && OutputTotal(block[0].outputs) <= BlockReward(old(validator.height) + 1) + Surplus(block[1..])
    ensures ok ==>
      && validator.Valid() && Behind(validator.hashes, G, validator.State())
      && Value(validator.hashes, G) + Surplus(block[1..]) == Value(validator.hashes, F) + OutputTotal(block[0].outputs)
  {
    hide Behind, BlockApplied, Value, BlockReward, Prepared, OutputTotal, Surplus;
    ghost var roots, height := validator.State(), validator.height + 1;
    BlockAcceptedExactly(validator.hashes, F, roots, height, block);
    ok := validator.ApplyBlock(block);
    G := F;
    if ok { G := BlockConserves(validator.hashes, F, roots, height, block); }
  }

  ghost predicate AllValid(blocks: seq<Block>) {
    forall i :: 0 <= i < |blocks| ==> BlockValid(blocks[i])
  }

  ghost predicate BlockValid(block: Block) {
    forall t <- block :: t.Valid()
  }

  lemma {:induction false} ChainConserves(H: Hashes, blocks: seq<Block>, F: Forest, roots: Ledger.Roots)
      returns (G: Forest)
    requires H.Sound() && Behind(H, F, roots) && Value(H, F) == 0
    requires AllValid(blocks)
    requires ChainApplied(H, roots, blocks).Some?
    ensures Behind(H, G, ChainApplied(H, roots, blocks).value)
    ensures Value(H, G) <= RewardSum(|blocks|)
    decreases |blocks|
  {
    hide Behind, BlockApplied, Value, BlockReward;
    SupplyLimit(|blocks|);
    if blocks == [] {
      G := F;
    } else {
      var n := |blocks| - 1;
      var K := ChainConserves(H, blocks[..n], F, roots);
      G := BlockConserves(H, K, ChainApplied(H, roots, blocks[..n]).value, n, blocks[n]);
    }
  }

  lemma EmptyBehind(H: Hashes) returns (F: Forest)
    ensures Behind(H, F, seq(ROOTS_LEN, _ => 0)) && Value(H, F) == 0
  {
    F := Empty();
    NoWeight(F, AmountOf(H));
    NoWeight(F, Is(0));
    assert Forests.Roots(H.pair, F) == seq(ROOTS_LEN, _ => 0);
  }

  /**
    From the empty UTXO set, after any accepted run of blocks and whatever the hints were, the unspent
    outputs behind the roots are worth at most the block rewards so far, and never more than
    2,099,999,997,690,000 satoshi.
  */
  lemma SupplyIsLimited(H: Hashes, blocks: seq<Block>) returns (G: Forest)
    requires H.Sound() && AllValid(blocks)
    requires ChainApplied(H, seq(ROOTS_LEN, _ => 0), blocks).Some?
    ensures Behind(H, G, ChainApplied(H, seq(ROOTS_LEN, _ => 0), blocks).value)
    ensures Value(H, G) <= RewardSum(|blocks|)
    ensures Value(H, G) <= MAX_SUPPLY
  {
    hide Behind, Value, BlockReward, ChainApplied;
    var F := EmptyBehind(H);
    G := ChainConserves(H, blocks, F, seq(ROOTS_LEN, _ => 0));
    SupplyLimit(|blocks|);
  }
}
