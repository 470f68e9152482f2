/**
  Applying blocks to the UTXO set, with the root-only accumulator as its only state. Inputs name an unspent
  output and come with hints: its amount, its script and an inclusion proof. Whatever the hints are, what
  is accepted moves coins without making any, except for the block reward.
*/
module Ledger {
  import opened Wrappers
  import opened HashTrees
  import opened Forests
  import opened Lockstep
  import opened Utreexo
  import opened BlockRewards
  import opened HashChains
  import StarkPrime

  const UINT64_LIMIT: nat := 0x1_0000_0000_0000_0000
  // the bound of a range-check cell
  const RANGE_LIMIT: nat := UINT64_LIMIT * UINT64_LIMIT
  const COINBASE_VOUT: nat := 0xFFFF_FFFF

  datatype Coin = Coin(txid: seq<int>, vout: nat, amount: nat, scriptPubKey: seq<int>)
  {
    /** The hash chains over the coin's felts return: scripts of four bytes or fewer are a single felt. */
    predicate Hashable() { Returns(|txid|) && Returns(|scriptPubKey|) }
  }

  datatype TxInput = TxInput(txid: seq<int>, vout: nat, amount: nat, scriptPubKey: seq<int>, leafIndex: nat,
                             proof: seq<int>)
  {
    function Claim(): Coin { Coin(txid, vout, amount, scriptPubKey) }
  }

  datatype TxOutput = TxOutput(amount: nat, scriptPubKey: seq<int>)

  datatype Transaction = Transaction(txid: seq<int>, inputs: seq<TxInput>, outputs: seq<TxOutput>)
  {
    /** The limits of what the transaction reader returns. */
    predicate Valid() {
      |outputs| < UINT64_LIMIT && forall o <- outputs :: o.amount < UINT64_LIMIT
    }
  }

  type Block = b: seq<Transaction> | b != [] witness [Transaction([], [], [])]

  /** The pair hash, opaque, and what the program builds from it. */
  datatype Hashes = Hashes(pair: Hash)
  {
    ghost predicate Sound() {
      NeverZero(pair) && Injective(pair)
    }

    /** `hash_output`: the leaf that stands for a coin. */
    function Leaf(c: Coin): int {
      pair(Chain(pair, c.txid), pair(c.vout, pair(c.amount, Chain(pair, c.scriptPubKey))))
    }

    lemma LeafNotZero(c: Coin)
      requires Sound()
      ensures Leaf(c) != 0
    {
      HashNotZero(pair, Chain(pair, c.txid), pair(c.vout, pair(c.amount, Chain(pair, c.scriptPubKey))));
    }

    /** A leaf determines its coin's transaction, index and amount, and its script up to the script's length. */
    lemma LeafDetermines(c: Coin, d: Coin)
      requires Sound() && Leaf(c) == Leaf(d)
      ensures c.vout == d.vout && c.amount == d.amount
      ensures |c.txid| == |d.txid| ==> c.txid == d.txid
      ensures |c.scriptPubKey| == |d.scriptPubKey| ==> c.scriptPubKey == d.scriptPubKey
    {
      hide Chain;
      var s, t := pair(c.amount, Chain(pair, c.scriptPubKey)), pair(d.amount, Chain(pair, d.scriptPubKey));
      InjectiveAt(pair, Chain(pair, c.txid), pair(c.vout, s), Chain(pair, d.txid), pair(d.vout, t));
      InjectiveAt(pair, c.vout, s, d.vout, t);
      InjectiveAt(pair, c.amount, Chain(pair, c.scriptPubKey), d.amount, Chain(pair, d.scriptPubKey));
      if |c.txid| == |d.txid| { ChainInjective(pair, c.txid, d.txid); }
      if |c.scriptPubKey| == |d.scriptPubKey| { ChainInjective(pair, c.scriptPubKey, d.scriptPubKey); }
    }
  }

  function Felt(x: int): nat {
    x % StarkPrime.P
  }

  /** `assert_le`: the difference of the two felts passes the range check. */
  predicate AssertLe(a: nat, b: nat) {
    Felt(b - a) < RANGE_LIMIT
  }

  lemma AssertLeIs(a: nat, b: nat)
    requires a < RANGE_LIMIT && b < RANGE_LIMIT
    ensures AssertLe(a, b) <==> a <= b
    ensures a <= b ==> Felt(b - a) == b - a
  {
  }

  // ------------------------------------------------------------------------
  // What the validation computes, as functions of the roots
  // ------------------------------------------------------------------------

  type Roots = r: seq<int> | |r| == ROOTS_LEN witness seq(ROOTS_LEN, _ => 0)

  function Extracted(H: Hashes, roots: Roots, input: TxInput): Option<Roots> {
    if input.Claim().Hashable() && |input.proof| < ROOTS_LEN
       && Included(H.pair, roots, H.Leaf(input.Claim()), input.leafIndex, input.proof) then
      Some(DeleteFrom(H.pair, roots, input.proof, 0, 0))
    else None
  }

  function Inserted(H: Hashes, roots: Roots, coin: Coin): Option<Roots> {
    if coin.Hashable() && HasRoom(roots, 0) then Some(AddFrom(H.pair, roots, H.Leaf(coin), 0)) else None
  }

  /** The roots after all inputs are spent. */
  function Spent(H: Hashes, roots: Roots, inputs: seq<TxInput>): Option<Roots> {
    if inputs == [] then Some(roots) else
    var n := |inputs| - 1;
    match Spent(H, roots, inputs[..n])
    case None => None
    case Some(r) => Extracted(H, r, inputs[n])
  }

  /** The coin that output `i` of a transaction makes. */
  function CoinAt(t: Transaction, i: nat): Coin
    requires i < |t.outputs|
  {
    Coin(t.txid, i, t.outputs[i].amount, t.outputs[i].scriptPubKey)
  }

  /** The roots after the first `n` outputs are created. */
  function Created(H: Hashes, roots: Roots, t: Transaction, n: nat): Option<Roots>
    requires n <= |t.outputs|
  {
    if n == 0 then Some(roots) else
    match Created(H, roots, t, n - 1)
    case None => None
    case Some(r) => Inserted(H, r, CoinAt(t, n - 1))
  }

  function InputTotal(inputs: seq<TxInput>): nat {
    if inputs == [] then 0 else InputTotal(inputs[..|inputs| - 1]) + inputs[|inputs| - 1].amount
  }

  function OutputTotal(outputs: seq<TxOutput>): nat {
    if outputs == [] then 0 else OutputTotal(outputs[..|outputs| - 1]) + outputs[|outputs| - 1].amount
  }

  function Fee(t: Transaction): nat {
    Felt(InputTotal(t.inputs) - OutputTotal(t.outputs))
  }

  /** Inputs are spent first, then outputs are created, and the outputs may not exceed the inputs. */
  function Applied(H: Hashes, roots: Roots, t: Transaction): Option<Roots> {
    match Spent(H, roots, t.inputs)
    case None => None
    case Some(r) =>
      if AssertLe(OutputTotal(t.outputs), InputTotal(t.inputs)) then Created(H, r, t, |t.outputs|) else None
  }

  function AllApplied(H: Hashes, roots: Roots, ts: seq<Transaction>): Option<Roots> {
    if ts == [] then Some(roots) else
    match AllApplied(H, roots, ts[..|ts| - 1])
    case None => None
    case Some(r) => Applied(H, r, ts[|ts| - 1])
  }

  function TotalFees(ts: seq<Transaction>): nat {
    if ts == [] then 0 else TotalFees(ts[..|ts| - 1]) + Fee(ts[|ts| - 1])
  }

  predicate CoinbaseInput(t: Transaction) {
    |t.inputs| == 1 && t.inputs[0].vout == COINBASE_VOUT && t.inputs[0].txid == seq(8, _ => 0)
  }

  /** All other transactions come first; the coinbase's outputs are bounded by the reward and the fees. */
  function BlockApplied(H: Hashes, roots: Roots, height: nat, block: Block): Option<Roots> {
    match AllApplied(H, roots, block[1..])
    case None => None
    case Some(r) =>
      if CoinbaseInput(block[0])
         && AssertLe(OutputTotal(block[0].outputs), BlockReward(height) + TotalFees(block[1..])) then
        Created(H, r, block[0], |block[0].outputs|)
      else None
  }

  /** Blocks from height 0 on, starting with the given roots. */
  function ChainApplied(H: Hashes, roots: Roots, blocks: seq<Block>): Option<Roots> {
    if blocks == [] then Some(roots) else
    var n := |blocks| - 1;
    match ChainApplied(H, roots, blocks[..n])
    case None => None
    case Some(r) => BlockApplied(H, r, n, blocks[n])
  }

  // ------------------------------------------------------------------------
  // The loops of the program
  // ------------------------------------------------------------------------

  class Validator {
    const hashes: Hashes
    const utreexo: Accumulator
    // the height of the last block, -1 before the first one
    var height: int

    ghost predicate Valid()
      reads this, utreexo
    {
      utreexo.Valid() && utreexo.hash == hashes.pair && height >= -1
    }

    ghost function State(): Roots
      reads this, utreexo, utreexo.roots
      requires Valid()
    {
      utreexo.roots[..]
    }

    constructor (hashes: Hashes)
      ensures Valid() && this.hashes == hashes && height == -1 && State() == seq(ROOTS_LEN, _ => 0)
      ensures fresh(utreexo) && fresh(utreexo.roots)
    {
      this.hashes := hashes;
      utreexo := new Accumulator(hashes.pair);
      height := -1;
    }

    /** `utxo_set_extract`: the amount is the hinted one, and the leaf with that amount must be included. */
    method Extract(input: TxInput) returns (ok: bool, amount: nat)
      requires Valid()
      modifies utreexo
      ensures Valid() && (utreexo.roots == old(utreexo.roots) || fresh(utreexo.roots))
      ensures ok <==> Extracted(hashes, old(State()), input).Some?
      ensures ok ==> State() == Extracted(hashes, old(State()), input).value && amount == input.amount
    {
      amount := input.amount;
      if !input.Claim().Hashable() { return false, amount; }
      if |input.proof| >= ROOTS_LEN { return false, amount; }
      ok := utreexo.Delete(hashes.Leaf(input.Claim()), input.leafIndex, input.proof);
    }

    /** `utxo_set_insert` */
    method Insert(coin: Coin) returns (ok: bool)
      requires Valid()
      modifies utreexo
      ensures Valid() && (utreexo.roots == old(utreexo.roots) || fresh(utreexo.roots))
      ensures ok <==> Inserted(hashes, old(State()), coin).Some?
      ensures ok ==> State() == Inserted(hashes, old(State()), coin).value
    {
      ok := coin.Hashable() && HasRoom(utreexo.roots[..], 0);
      if ok { utreexo.Add(hashes.Leaf(coin)); }
    }

    method ApplyInputs(inputs: seq<TxInput>) returns (ok: bool, total: nat)
      requires Valid()
      modifies utreexo
      ensures Valid() && (utreexo.roots == old(utreexo.roots) || fresh(utreexo.roots))
      ensures ok <==> Spent(hashes, old(State()), inputs).Some?
      ensures ok ==> State() == Spent(hashes, old(State()), inputs).value && total == InputTotal(inputs)
    {
      hide Extracted;
      ok, total := true, 0;
      var i := 0;
      while i < |inputs|
        invariant 0 <= i <= |inputs| && Valid() && ok && total == InputTotal(inputs[..i])
        invariant utreexo.roots == old(utreexo.roots) || fresh(utreexo.roots)
        invariant Spent(hashes, old(State()), inputs[..i]) == Some(State())
      {
        assert inputs[..i + 1][..i] == inputs[..i];
        var amount;
        ok, amount := Extract(inputs[i]);
        if !ok {
          SpentPrefix(hashes, old(State()), inputs, i + 1);
          return;
        }
        total := total + amount;
        i := i + 1;
      }
      assert inputs[..|inputs|] == inputs;
    }

    method ApplyOutputs(t: Transaction) returns (ok: bool, total: nat)
      requires Valid()
      modifies utreexo
      ensures Valid() && (utreexo.roots == old(utreexo.roots) || fresh(utreexo.roots))
      ensures ok <==> Created(hashes, old(State()), t, |t.outputs|).Some?
      ensures ok ==> State() == Created(hashes, old(State()), t, |t.outputs|).value && total == OutputTotal(t.outputs)
    {
      hide Inserted;
      ok, total := true, 0;
      var i := 0;
      while i != |t.outputs|
        invariant 0 <= i <= |t.outputs| && Valid() && ok && total == OutputTotal(t.outputs[..i])
        invariant utreexo.roots == old(utreexo.roots) || fresh(utreexo.roots)
        invariant Created(hashes, old(State()), t, i) == Some(State())
      {
        assert t.outputs[..i + 1][..i] == t.outputs[..i];
        ok := Insert(CoinAt(t, i));
        if !ok {
          CreatedPrefix(hashes, old(State()), t, i + 1, |t.outputs|);
          return;
        }
        total := total + t.outputs[i].amount;
        i := i + 1;
      }
      assert t.outputs[..|t.outputs|] == t.outputs;
    }

    method ApplyTransaction(t: Transaction) returns (ok: bool, fee: nat)
      requires Valid()
      modifies utreexo
      ensures Valid() && (utreexo.roots == old(utreexo.roots) || fresh(utreexo.roots))
      ensures ok <==> Applied(hashes, old(State()), t).Some?
      ensures ok ==> State() == Applied(hashes, old(State()), t).value && fee == Fee(t)
    {
      hide Spent, Created;
      var totalInput, totalOutput;
      fee := 0;
      ok, totalInput := ApplyInputs(t.inputs);
      if !ok { return; }
      ok, totalOutput := ApplyOutputs(t);
      if !ok { return; }
      ok := AssertLe(totalOutput, totalInput);
      fee := Felt(totalInput as int - totalOutput as int);
    }

    method ApplyTransactions(ts: seq<Transaction>) returns (ok: bool, totalFees: nat)
      requires Valid()
      modifies utreexo
      ensures Valid() && (utreexo.roots == old(utreexo.roots) || fresh(utreexo.roots))
      ensures ok <==> AllApplied(hashes, old(State()), ts).Some?
      ensures ok ==> State() == AllApplied(hashes, old(State()), ts).value && totalFees == TotalFees(ts)
    {
      hide Applied, Fee;
      ok, totalFees := true, 0;
      var i := 0;
      while i < |ts|
        invariant 0 <= i <= |ts| && Valid() && ok && totalFees == TotalFees(ts[..i])
        invariant utreexo.roots == old(utreexo.roots) || fresh(utreexo.roots)
        invariant AllApplied(hashes, old(State()), ts[..i]) == Some(State())
      {
        assert ts[..i + 1][..i] == ts[..i];
        var fee;
        ok, fee := ApplyTransaction(ts[i]);
        if !ok {
          AllAppliedPrefix(hashes, old(State()), ts, i + 1);
          return;
        }
        totalFees := totalFees + fee;
        i := i + 1;
      }
      assert ts[..|ts|] == ts;
    }

    /** Validate a block and apply it, the coinbase last. */
    method ApplyBlock(block: Block) returns (ok: bool)
      requires Valid()
      modifies this`height, utreexo
      ensures Valid() && (utreexo.roots == old(utreexo.roots) || fresh(utreexo.roots))
      ensures ok <==> BlockApplied(hashes, old(State()), old(height) + 1, block).Some?
      ensures ok ==> State() == BlockApplied(hashes, old(State()), old(height) + 1, block).value
      ensures height == if ok then old(height) + 1 else old(height)
    {
      hide AllApplied, Created, AssertLe, BlockReward;
      var totalFees, totalOutput;
      ok, totalFees := ApplyTransactions(block[1..]);
      if !ok { return; }
      if !CoinbaseInput(block[0]) { return false; }
      ok, totalOutput := ApplyOutputs(block[0]);
      if !ok { return; }
      ok := AssertLe(totalOutput, BlockReward(height + 1) + totalFees);
      if ok { height := height + 1; }
    }
  }

  lemma {:induction false} SpentPrefix(H: Hashes, roots: Roots, inputs: seq<TxInput>, n: nat)
    requires n <= |inputs| && Spent(H, roots, inputs[..n]).None?
    ensures Spent(H, roots, inputs).None?
    decreases |inputs|
  {
    hide Extracted;
    if n == |inputs| {
      assert inputs[..n] == inputs;
    } else {
      var front := inputs[..|inputs| - 1];
      assert front[..n] == inputs[..n];
      SpentPrefix(H, roots, front, n);
    }
  }

  lemma {:induction false} CreatedPrefix(H: Hashes, roots: Roots, t: Transaction, n: nat, m: nat)
    requires n <= m <= |t.outputs| && Created(H, roots, t, n).None?
    ensures Created(H, roots, t, m).None?
  {
    hide Inserted;
    if n < m { CreatedPrefix(H, roots, t, n, m - 1); }
  }

  lemma {:induction false} AllAppliedPrefix(H: Hashes, roots: Roots, ts: seq<Transaction>, n: nat)
    requires n <= |ts| && AllApplied(H, roots, ts[..n]).None?
    ensures AllApplied(H, roots, ts).None?
    decreases |ts|
  {
    hide Applied;
    if n == |ts| {
      assert ts[..n] == ts;
    } else {
      var front := ts[..|ts| - 1];
      assert front[..n] == ts[..n];
      AllAppliedPrefix(H, roots, front, n);
    }
  }
}
