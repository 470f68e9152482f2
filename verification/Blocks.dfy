/**
  Blocks: a header that extends the chain, transactions with the header's Merkle root, and their effect on the
  unspent outputs. Along every run the chain of headers and the ledger advance together.
*/
module Blocks {
  import opened Wrappers
  import opened HashTrees
  import opened Forests
  import opened Utreexo
  import opened BlockRewards
  import opened Arithmetic
  import StarkPrime
  import MerkleTree
  import MedianTime
  import TargetBits
  import HeaderChain
  import Ledger
  import Supply

  const WORD: nat := 0x1_0000_0000

  datatype State = State(chain: HeaderChain.ChainState, utreexoRoots: Ledger.Roots)
  {
    predicate Shaped() { |chain.prevTimestamps| == MedianTime.TIMESTAMP_COUNT && chain.height >= -1 }
  }

  datatype Block = Block(header: HeaderChain.Header, merkleRoot: int, transactions: Ledger.Block)

  /** `sha` hashes pairs of transaction ids, `ledger` leaves of the UTXO set. */
  datatype Rules = Rules(sha: Hash, ledger: Ledger.Hashes)

  function Initial(): State {
    State(HeaderChain.INITIAL_STATE, seq(ROOTS_LEN, _ => 0))
  }

  /** The number that the words of a hash stand for. */
  function HashValue(words: seq<int>): int {
    if words == [] then 0 else words[0] + WORD * HashValue(words[1..])
  }

  function Txids(transactions: Ledger.Block): (ids: seq<int>)
    ensures |ids| == |transactions| > 0
  {
    seq(|transactions|, i requires 0 <= i < |transactions| => HashValue(transactions[i].txid))
  }

  /** `validate_and_apply_block` */
  function Accepted(R: Rules, s: State, block: Block): (r: Option<State>)
    requires s.Shaped()
    ensures r.Some? ==> r.value.Shaped() && r.value.chain.height == s.chain.height + 1
  {
    match HeaderChain.Applied(s.chain, block.header)
    case None => None
    case Some(chain) =>
      if MerkleTree.Root(R.sha, Txids(block.transactions)) != Some(block.merkleRoot) then None else
      match Ledger.BlockApplied(R.ledger, s.utreexoRoots, s.chain.height + 1, block.transactions)
      case None => None
      case Some(roots) => Some(State(chain, roots))
  }

  function Run(R: Rules, blocks: seq<Block>): (r: Option<State>)
    ensures r.Some? ==> r.value.Shaped() && r.value.chain.height == |blocks| - 1
  {
    if blocks == [] then Some(Initial()) else
    match Run(R, blocks[..|blocks| - 1])
    case None => None
    case Some(s) => Accepted(R, s, blocks[|blocks| - 1])
  }

  class BlockValidator {
    const rules: Rules
    const ledger: Ledger.Validator
    var chainState: HeaderChain.ChainState

    ghost predicate Valid()
      reads this, ledger, ledger.utreexo
    {
      && ledger.Valid() && ledger.hashes == rules.ledger && ledger.height == chainState.height
      && |chainState.prevTimestamps| == MedianTime.TIMESTAMP_COUNT
    }

    ghost function Current(): (s: State)
      reads this, ledger, ledger.utreexo, ledger.utreexo.roots
      requires Valid()
      ensures s.Shaped()
    {
      State(chainState, ledger.State())
    }

    constructor (rules: Rules)
      ensures Valid() && this.rules == rules && Current() == Initial()
      ensures fresh(ledger) && fresh(ledger.utreexo) && fresh(ledger.utreexo.roots)
    {
      this.rules := rules;
      ledger := new Ledger.Validator(rules.ledger);
      chainState := HeaderChain.INITIAL_STATE;
    }

    /** `validate_merkle_root`, on a copy of the transaction ids. */
    method ValidateMerkleRoot(block: Block) returns (ok: bool)
      ensures ok <==> MerkleTree.Root(rules.sha, Txids(block.transactions)) == Some(block.merkleRoot)
    {
      hide MerkleTree.Root, HashValue;
      var count := |block.transactions|;
      var txids := new int[count + 1];
      for i := 0 to count
        invariant txids[..i] == Txids(block.transactions)[..i]
      {
        txids[i] := HashValue(block.transactions[i].txid);
      }
      assert txids[..count] == Txids(block.transactions);
      var root := MerkleTree.ComputeMerkleRoot(rules.sha, txids, count);
      ok := root == Some(block.merkleRoot);
    }

    method ValidateAndApplyBlock(block: Block) returns (ok: bool)
      requires Valid()
      modifies this, ledger`height, ledger.utreexo
      ensures ok <==> Accepted(rules, old(Current()), block).Some?
      ensures ok ==> Valid() && Current() == Accepted(rules, old(Current()), block).value
    {
      hide MerkleTree.Root, HeaderChain.Applied, Ledger.BlockApplied, Txids;
      AppliedShape(chainState, block.header);
      var next := HeaderChain.Applied(chainState, block.header);
      if next.None? { return false; }
      ok := ValidateMerkleRoot(block);
      if !ok { return; }
      ok := ledger.ApplyBlock(block.transactions);
      if ok { chainState := next.value; }
    }
  }

  lemma AppliedShape(s: HeaderChain.ChainState, h: HeaderChain.Header)
    requires |s.prevTimestamps| == MedianTime.TIMESTAMP_COUNT
    ensures var next := HeaderChain.Applied(s, h);
      next.Some? ==> next.value.height == s.height + 1 && |next.value.prevTimestamps| == MedianTime.TIMESTAMP_COUNT
  {
  }

  // ------------------------------------------------------------------------
  // Runs of blocks
  // ------------------------------------------------------------------------

  function Headers(blocks: seq<Block>): (r: seq<HeaderChain.Header>)
    ensures |r| == |blocks|
  {
    seq(|blocks|, i requires 0 <= i < |blocks| => blocks[i].header)
  }

  function Transactions(blocks: seq<Block>): (r: seq<Ledger.Block>)
    ensures |r| == |blocks|
  {
    seq(|blocks|, i requires 0 <= i < |blocks| => blocks[i].transactions)
  }

  /** A run is a run of the chain of headers and one of the ledger, over blocks with matching Merkle roots. */
  lemma {:induction false} RunExactly(R: Rules, blocks: seq<Block>)
    ensures
      var chain := HeaderChain.Chain(HeaderChain.INITIAL_STATE, Headers(blocks));
      var roots := Ledger.ChainApplied(R.ledger, seq(ROOTS_LEN, _ => 0), Transactions(blocks));
      && (Run(R, blocks).Some? <==> chain.Some? && roots.Some? && AllRootsMatch(R, blocks))
      && (Run(R, blocks).Some? ==> Run(R, blocks).value == State(chain.value, roots.value))
    decreases |blocks|
  {
    hide HeaderChain.Applied, Ledger.BlockApplied, MerkleTree.Root, Txids, RootMatches;
    if blocks != [] {
      var n := |blocks| - 1;
      var front := blocks[..n];
      RunExactly(R, front);
      assert Headers(blocks)[..n] == Headers(front) && Transactions(blocks)[..n] == Transactions(front);
      MatchesAppend(R, blocks);
      LastMatches(R, blocks[n]);
    }
  }

  predicate RootMatches(R: Rules, block: Block) {
    MerkleTree.Root(R.sha, Txids(block.transactions)) == Some(block.merkleRoot)
  }

  lemma LastMatches(R: Rules, block: Block)
    ensures RootMatches(R, block) <==> MerkleTree.Root(R.sha, Txids(block.transactions)) == Some(block.merkleRoot)
  {
  }

  predicate AllRootsMatch(R: Rules, blocks: seq<Block>) {
    forall i :: 0 <= i < |blocks| ==> RootMatches(R, blocks[i])
  }

  lemma MatchesAppend(R: Rules, blocks: seq<Block>)
    requires blocks != []
    ensures var n := |blocks| - 1;
      AllRootsMatch(R, blocks) <==> AllRootsMatch(R, blocks[..n]) && RootMatches(R, blocks[n])
  {
    var n := |blocks| - 1;
    if AllRootsMatch(R, blocks) {
      forall i | 0 <= i < n ensures RootMatches(R, blocks[..n][i]) { assert RootMatches(R, blocks[i]); }
    }
    if AllRootsMatch(R, blocks[..n]) && RootMatches(R, blocks[n]) {
      forall i | 0 <= i < |blocks| ensures RootMatches(R, blocks[i]) {
        if i < n { assert blocks[..n][i] == blocks[i]; }
      }
    }
  }

  /**
    After any accepted run, whatever the hints were: the chain state is sound, its height counts the blocks,
    and the unspent outputs behind the roots are worth at most the rewards up to that height.
  */
  lemma RunKeeps(R: Rules, blocks: seq<Block>, s: State) returns (G: Forest)
    requires R.ledger.Sound() && Supply.AllValid(Transactions(blocks)) && Run(R, blocks) == Some(s)
    ensures ChainIsSound(s.chain, Headers(blocks)) && SupplyIsBounded(R, s, G)
  {
    hide HeaderChain.Chain, Ledger.ChainApplied, Supply.Behind, Supply.Value, ChainIsSound, Run, RewardSum;
    RunExactly(R, blocks);
    ChainFromStart(Headers(blocks));
    RunHeight(R, blocks);
    G := Supply.SupplyIsLimited(R.ledger, Transactions(blocks));
  }

  /** The state is sound, its height counts the headers, and its work is theirs, as a felt. */
  ghost predicate ChainIsSound(s: HeaderChain.ChainState, headers: seq<HeaderChain.Header>) {
    && HeaderChain.Sound(s) && s.height == |headers| - 1
    && (forall i :: 0 <= i < |headers| ==> TargetBits.Decoded(headers[i].bits) > 0)
    && s.totalWork % StarkPrime.P == HeaderChain.TotalWork(headers) % StarkPrime.P
  }

  /** The unspent outputs are worth at most the rewards up to the height of the state. */
  ghost predicate SupplyIsBounded(R: Rules, s: State, G: Forest) {
    && Supply.Behind(R.ledger, G, s.utreexoRoots) && s.chain.height >= -1
    && Supply.Value(R.ledger, G) <= RewardSum(s.chain.height + 1) && Supply.Value(R.ledger, G) <= MAX_SUPPLY
  }

  lemma ChainFromStart(headers: seq<HeaderChain.Header>)
    requires HeaderChain.Chain(HeaderChain.INITIAL_STATE, headers).Some?
    ensures ChainIsSound(HeaderChain.Chain(HeaderChain.INITIAL_STATE, headers).value, headers)
  {
    hide HeaderChain.Sound, HeaderChain.Chain, HeaderChain.TotalWork, TargetBits.Decoded;
    HeaderChain.InitialStateIsSound();
    HeaderChain.ChainKeeps(HeaderChain.INITIAL_STATE, headers);
  }

  lemma RunHeight(R: Rules, blocks: seq<Block>)
    ensures Run(R, blocks).Some? ==> Run(R, blocks).value.chain.height == |blocks| - 1
  {
  }

  // ------------------------------------------------------------------------
  // The Merkle root determines the transactions
  // ------------------------------------------------------------------------

  predicate IsId(txid: seq<int>) {
    |txid| == 8 && forall i :: 0 <= i < 8 ==> 0 <= txid[i] < WORD
  }

  lemma {:induction false} HashValueInjective(s: seq<int>, t: seq<int>)
    requires |s| == |t| && HashValue(s) == HashValue(t)
    requires forall i :: 0 <= i < |s| ==> 0 <= s[i] < WORD && 0 <= t[i] < WORD
    ensures s == t
  {
    if s != [] {
      QuotientIs(HashValue(s), WORD, HashValue(s[1..]), s[0]);
      QuotientIs(HashValue(t), WORD, HashValue(t[1..]), t[0]);
      HashValueInjective(s[1..], t[1..]);
      assert s == [s[0]] + s[1..] && t == [t[0]] + t[1..];
    }
  }

  predicate AllIds(transactions: Ledger.Block) {
    forall i :: 0 <= i < |transactions| ==> IsId(transactions[i].txid)
  }

  /** Accepted blocks with one Merkle root have the same transaction ids, and equally many of them. */
  lemma RootDeterminesTransactions(R: Rules, b: Block, c: Block)
    requires Injective(R.sha) && RootMatches(R, b) && RootMatches(R, c) && b.merkleRoot == c.merkleRoot
    requires AllIds(b.transactions) && AllIds(c.transactions)
    requires forall x, y :: R.sha(x, y) !in Txids(b.transactions) && R.sha(x, y) !in Txids(c.transactions)
    ensures |b.transactions| == |c.transactions|
    ensures forall i :: 0 <= i < |b.transactions| ==> b.transactions[i].txid == c.transactions[i].txid
  {
    hide MerkleTree.Root, HashValue;
    MerkleTree.EqualRootsEqualLeaves(R.sha, Txids(b.transactions), Txids(c.transactions));
    forall i | 0 <= i < |b.transactions| ensures b.transactions[i].txid == c.transactions[i].txid {
      assert Txids(b.transactions)[i] == Txids(c.transactions)[i];
      assert IsId(b.transactions[i].txid) && IsId(c.transactions[i].txid);
      HashValueInjective(b.transactions[i].txid, c.transactions[i].txid);
    }
  }
}
