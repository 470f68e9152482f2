/**
  The query phase of the FRI verifier. Queries are followed through the layers one by one, and a memo of
  the positions already verified in each layer cuts repeated work short. The proofs come from the parser,
  which folds all positions layer by layer. The two orders meet here: the memo is the parser's fold, the
  index into a layer's proofs selects the proof of the position at hand, and following queries depth first
  accepts exactly what checking whole layers breadth first would accept.
*/
module FriQueries {
  import opened FriParser

  /** A position of a layer's domain and the evaluation that is claimed there. */
  datatype Entry = Entry(position: nat, evaluation: int)

  /**
    `opens(l, v, proof)` is the Merkle check of layer `l` at position `v`, with the leaf hash of the values.
    `fold(l, v, values)` is the interpolation of the values on the coset of `v`, evaluated at the layer's alpha.
  */
  datatype Setting = Setting(
    layers: nat,
    proofs: seq<seq<FriQueryProof>>,
    remainders: seq<int>,
    opens: (nat, nat, FriQueryProof) -> bool,
    fold: (nat, nat, seq<int>) -> int)
  {
    predicate Complete() { |proofs| == layers }
  }

  /** Entry `e` joins the entries of its layer, unless its position is there already. */
  function WithEntry(s: seq<Entry>, e: Entry): seq<Entry> {
    if e.position in Positions(s) then s else s + [e]
  }

  function Positions(s: seq<Entry>): (v: seq<nat>)
    ensures |v| == |s|
  {
    seq(|s|, i requires 0 <= i < |s| => s[i].position)
  }

  /** The entries of a layer: of those that fold to the same position, only the first counts. */
  function FoldEntries(s: seq<Entry>, m: nat): seq<Entry>
    requires m > 0
  {
    if s == [] then [] else
    var n := |s| - 1;
    WithEntry(FoldEntries(s[..n], m), Entry(s[n].position % m, s[n].evaluation))
  }

  lemma {:induction false} FoldedFrom(s: seq<Entry>, m: nat, e: Entry) returns (origin: Entry)
    requires m > 0 && e in FoldEntries(s, m)
    ensures origin in s && e == Entry(origin.position % m, origin.evaluation)
  {
    var n := |s| - 1;
    if e == Entry(s[n].position % m, s[n].evaluation) {
      origin := s[n];
    } else {
      origin := FoldedFrom(s[..n], m, e);
    }
  }

  lemma {:induction false} PositionsFold(s: seq<Entry>, m: nat)
    requires m > 0
    ensures Positions(FoldEntries(s, m)) == Folded(Positions(s), m)
  {
    if s != [] {
      var n := |s| - 1;
      PositionsFold(s[..n], m);
      assert Positions(s)[..n] == Positions(s[..n]);
    }
  }

  // ------------------------------------------------------------------------
  // Layer by layer
  // ------------------------------------------------------------------------

  /** Each entry of a layer opens with the proof of its own index, which holds its evaluation. */
  predicate Holds(c: Setting, l: nat, s: seq<Entry>)
    requires c.Complete() && l < c.layers
  {
    && |s| <= |c.proofs[l]|
    && forall i :: 0 <= i < |s| ==> EntryHolds(c, l, s[i], c.proofs[l][i])
  }

  predicate EntryHolds(c: Setting, l: nat, e: Entry, proof: FriQueryProof) {
    c.opens(l, e.position, proof) && e.evaluation in proof.values
  }

  /** What a layer claims about the next one. */
  function Advance(c: Setting, l: nat, s: seq<Entry>): (r: seq<Entry>)
    requires c.Complete() && l < c.layers
    ensures Positions(r) == Positions(s)
  {
    seq(|s|, i requires 0 <= i < |s| =>
      Entry(s[i].position,
            if i < |c.proofs[l]| then c.fold(l, s[i].position, c.proofs[l][i].values) else 0))
  }

  /** All layers from `l` on hold, and all last evaluations are among the remainders. */
  predicate BreadthFirst(c: Setting, l: nat, incoming: seq<Entry>, m: nat)
    requires c.Complete() && l <= c.layers && Moduli(m, c.layers - l)
    decreases c.layers - l
  {
    if l == c.layers then forall e :: e in incoming ==> e.evaluation in c.remainders
    else
      var s := FoldEntries(incoming, m);
      Holds(c, l, s) && BreadthFirst(c, l + 1, Advance(c, l, s), m / FOLDING_FACTOR)
  }

  // ------------------------------------------------------------------------
  // Query by query
  // ------------------------------------------------------------------------

  /** One more query passes from layer `l` on, after the queries `incoming` have. */
  predicate DepthFirst(c: Setting, l: nat, incoming: seq<Entry>, m: nat, e: Entry)
    requires c.Complete() && l <= c.layers && Moduli(m, c.layers - l)
    decreases c.layers - l
  {
    if l == c.layers then e.evaluation in c.remainders
    else
      var s, folded := FoldEntries(incoming, m), Entry(e.position % m, e.evaluation);
      folded.position in Positions(s) ||
      (&& |s| < |c.proofs[l]| && EntryHolds(c, l, folded, c.proofs[l][|s|])
       && DepthFirst(c, l + 1, Advance(c, l, s), m / FOLDING_FACTOR, Folded1(c, l, s, folded)))
  }

  /** The query's claim about the next layer, if its position is new in this one. */
  function Folded1(c: Setting, l: nat, s: seq<Entry>, folded: Entry): Entry
    requires c.Complete() && l < c.layers && |s| < |c.proofs[l]|
  {
    Entry(folded.position, c.fold(l, folded.position, c.proofs[l][|s|].values))
  }

  /**
    Following one more query accepts what checking the layers with the query added does. Both look at a
    position once, with the evaluation of the first query that reaches it; FriSkipping says what that skips.
  */
  lemma {:induction false} OneMoreQuery(c: Setting, l: nat, incoming: seq<Entry>, m: nat, e: Entry)
    requires c.Complete() && l <= c.layers && Moduli(m, c.layers - l)
    ensures BreadthFirst(c, l, incoming + [e], m)
            <==> BreadthFirst(c, l, incoming, m) && DepthFirst(c, l, incoming, m, e)
    decreases c.layers - l
  {
    hide FoldEntries, Advance, Positions, EntryHolds, Holds, Folded1;
    if l < c.layers {
      var s, folded := FoldEntries(incoming, m), Entry(e.position % m, e.evaluation);
      OneMoreEntry(incoming, m, e);
      if folded.position !in Positions(s) {
        OneMoreHolds(c, l, s, folded);
        OneMoreAdvance(c, l, s, folded);
        if |s| < |c.proofs[l]| {
          OneMoreQuery(c, l + 1, Advance(c, l, s), m / FOLDING_FACTOR, Folded1(c, l, s, folded));
        }
      }
    }
  }

  /** The memo after the queries `incoming`, from layer `l` on. */
  function Memo(c: Setting, l: nat, incoming: seq<Entry>, m: nat): (memo: seq<seq<nat>>)
    requires c.Complete() && l <= c.layers && Moduli(m, c.layers - l)
    ensures |memo| == c.layers - l
    decreases c.layers - l
  {
    if l == c.layers then [] else
    var s := FoldEntries(incoming, m);
    [Positions(s)] + Memo(c, l + 1, Advance(c, l, s), m / FOLDING_FACTOR)
  }

  /** The memo is the parser's fold of all positions so far. */
  lemma {:induction false} MemoIsFoldChain(c: Setting, l: nat, incoming: seq<Entry>, m: nat)
    requires c.Complete() && l <= c.layers && Moduli(m, c.layers - l)
    ensures Memo(c, l, incoming, m) == FoldChain(Positions(incoming), m, c.layers - l)
    decreases c.layers - l
  {
    if l < c.layers {
      var s := FoldEntries(incoming, m);
      PositionsFold(incoming, m);
      MemoIsFoldChain(c, l + 1, Advance(c, l, s), m / FOLDING_FACTOR);
    }
  }

  lemma LastLayer(c: Setting, incoming: seq<Entry>, m: nat, e: Entry)
    requires c.Complete()
    ensures Moduli(m, 0) && Memo(c, c.layers, incoming, m) == []
    ensures DepthFirst(c, c.layers, incoming, m, e) <==> e.evaluation in c.remainders
  {
  }

  /** One more entry comes in. */
  lemma OneMoreEntry(incoming: seq<Entry>, m: nat, e: Entry)
    requires m > 0
    ensures FoldEntries(incoming + [e], m) == WithEntry(FoldEntries(incoming, m), Entry(e.position % m, e.evaluation))
  {
    var all := incoming + [e];
    assert all[..|incoming|] == incoming && all[|incoming|] == e;
  }

  /** One more entry of a layer. */
  lemma OneMoreAdvance(c: Setting, l: nat, s: seq<Entry>, e: Entry)
    requires c.Complete() && l < c.layers
    ensures Positions(s + [e]) == Positions(s) + [e.position]
    ensures |s| < |c.proofs[l]| ==> Advance(c, l, s + [e]) == Advance(c, l, s) + [Folded1(c, l, s, e)]
  {
  }

  lemma OneMoreHolds(c: Setting, l: nat, s: seq<Entry>, e: Entry)
    requires c.Complete() && l < c.layers
    ensures Holds(c, l, s + [e]) <==> Holds(c, l, s) && |s| < |c.proofs[l]| && EntryHolds(c, l, e, c.proofs[l][|s|])
  {
    var t := s + [e];
    if Holds(c, l, t) {
      assert EntryHolds(c, l, t[|s|], c.proofs[l][|s|]);
      forall i | 0 <= i < |s| ensures EntryHolds(c, l, s[i], c.proofs[l][i]) { assert t[i] == s[i]; }
    }
  }

  /** Layer `l` of the memo, and its rest. */
  lemma MemoStarts(c: Setting, l: nat, incoming: seq<Entry>, m: nat)
    requires c.Complete() && l < c.layers && Moduli(m, c.layers - l)
    ensures m > 0 && Moduli(m / FOLDING_FACTOR, c.layers - l - 1)
    ensures var s := FoldEntries(incoming, m);
      Memo(c, l, incoming, m) == [Positions(s)] + Memo(c, l + 1, Advance(c, l, s), m / FOLDING_FACTOR)
  {
  }

  /** A query whose position has been seen passes, and leaves the memo as it is. */
  lemma SeenPosition(c: Setting, l: nat, incoming: seq<Entry>, m: nat, e: Entry)
    requires c.Complete() && l < c.layers && Moduli(m, c.layers - l)
    requires e.position % m in Positions(FoldEntries(incoming, m))
    ensures DepthFirst(c, l, incoming, m, e) && Memo(c, l, incoming + [e], m) == Memo(c, l, incoming, m)
  {
    hide FoldEntries, Advance, Positions;
    OneMoreEntry(incoming, m, e);
  }

  /** A query with a new position: it joins the layer, and goes on to the next one. */
  lemma NewPosition(c: Setting, l: nat, incoming: seq<Entry>, m: nat, e: Entry)
    requires c.Complete() && l < c.layers && Moduli(m, c.layers - l)
    requires e.position % m !in Positions(FoldEntries(incoming, m))
    ensures var s, folded := FoldEntries(incoming, m), Entry(e.position % m, e.evaluation);
      if |s| < |c.proofs[l]| && EntryHolds(c, l, folded, c.proofs[l][|s|]) then
        var next, claim := Advance(c, l, s), Folded1(c, l, s, folded);
        && (DepthFirst(c, l, incoming, m, e) <==> DepthFirst(c, l + 1, next, m / FOLDING_FACTOR, claim))
        && Memo(c, l, incoming + [e], m)
           == [Positions(s) + [folded.position]] + Memo(c, l + 1, next + [claim], m / FOLDING_FACTOR)
      else !DepthFirst(c, l, incoming, m, e)
  {
    hide FoldEntries, Advance, Positions, EntryHolds, Folded1;
    var s, folded := FoldEntries(incoming, m), Entry(e.position % m, e.evaluation);
    OneMoreEntry(incoming, m, e);
    OneMoreAdvance(c, l, s, folded);
  }

  /** Rows of lengths count the positions of each layer. */
  function Lengths(memo: seq<seq<nat>>): (r: seq<nat>)
    ensures |r| == |memo|
  {
    seq(|memo|, l requires 0 <= l < |memo| => |memo[l]|)
  }

  lemma RowAt(before: seq<seq<nat>>, first: seq<nat>, memo: seq<seq<nat>>)
    requires |before| == |first| && memo != []
    ensures var l := |before|;
      && (before + memo)[l] == memo[0] && (first + Lengths(memo))[l] == |memo[0]|
      && (first + Lengths(memo))[l..] == Lengths(memo)
  {
  }

  lemma LengthsJoin(before: seq<seq<nat>>, memo: seq<seq<nat>>)
    ensures Lengths(before) + Lengths(memo) == Lengths(before + memo)
  {
  }

  /** Layer `|before|` gains a position: the lists of the layers after it start one later. */
  lemma LayerGrows(before: seq<seq<nat>>, first: seq<nat>, memo: seq<seq<nat>>, own: seq<nat>)
    requires |before| == |first| && memo != [] && |own| == |memo[0]| + 1
    ensures (before + memo)[|before| := own] == (before + [own]) + memo[1..]
    ensures first + Lengths(memo) == (first + [|memo[0]|]) + Lengths(memo[1..])
    ensures Lengths(before) + [|memo[0]| + 1] == Lengths(before + [own])
  {
    assert Lengths(memo) == [|memo[0]|] + Lengths(memo[1..]);
  }

  /** The first index of an element among the first `n`, or -1. */
  method IndexOf(elements: seq<nat>, n: nat, element: nat) returns (index: int)
    requires n <= |elements|
    ensures index == -1 ==> element !in elements[..n]
    ensures index != -1 ==> 0 <= index < n && elements[index] == element && element !in elements[..index]
  {
    for i := 0 to n
      invariant element !in elements[..i]
    {
      if elements[i] == element { return i; }
    }
    return -1;
  }

  class FriVerifier {
    const setting: Setting
    var verifiedPositions: seq<seq<nat>>
    // the row of lengths of the query at hand, and the row that it leaves for the next query
    var lengths: seq<nat>
    var nextLengths: seq<nat>

    ghost predicate Valid()
      reads this
    {
      setting.Complete() && |verifiedPositions| == setting.layers && lengths == Lengths(verifiedPositions)
    }

    constructor (setting: Setting)
      requires setting.Complete()
      ensures Valid() && this.setting == setting
      ensures verifiedPositions == seq(setting.layers, _ => [])
    {
      this.setting := setting;
      verifiedPositions := seq(setting.layers, _ => []);
      lengths := seq(setting.layers, _ => 0);
      nextLengths := [];
    }

    /** Append a position to layer `l`, and its new length to the next row. */
    method RecordPosition(l: nat, v: nat, ghost before: seq<seq<nat>>, ghost first: seq<nat>, ghost memo: seq<seq<nat>>)
      requires |before| == |first| == l && memo != [] && verifiedPositions == before + memo
      requires lengths == first + Lengths(memo) && nextLengths == Lengths(before)
      modifies this
      ensures lengths == old(lengths) == (first + [|memo[0]|]) + Lengths(memo[1..])
      ensures verifiedPositions == (before + [memo[0] + [v]]) + memo[1..]
      ensures nextLengths == Lengths(before + [memo[0] + [v]])
    {
      RowAt(before, first, memo);
      LayerGrows(before, first, memo, memo[0] + [v]);
      verifiedPositions := verifiedPositions[l := verifiedPositions[l] + [v]];
      nextLengths := nextLengths + [lengths[l] + 1];
    }

    /**
      Verify one query from layer `l` on. The verified positions of these layers grow as if all layers
      were folded anew, and the next row of lengths is filled up to its end.
    */
    method VerifyLayers(l: nat, position: nat, evaluation: int, modulus: nat,
                        ghost incoming: seq<Entry>, ghost before: seq<seq<nat>>, ghost first: seq<nat>)
        returns (ok: bool)
      requires setting.Complete() && l <= setting.layers && Moduli(modulus, setting.layers - l)
      requires |before| == |first| == l
      requires verifiedPositions == before + Memo(setting, l, incoming, modulus)
      requires lengths == first + Lengths(Memo(setting, l, incoming, modulus)) && nextLengths == Lengths(before)
      modifies this
      ensures lengths == old(lengths)
      ensures ok <==> DepthFirst(setting, l, incoming, modulus, Entry(position, evaluation))
      ensures ok ==> verifiedPositions == before + Memo(setting, l, incoming + [Entry(position, evaluation)], modulus)
      ensures ok ==> nextLengths == Lengths(verifiedPositions)
      decreases setting.layers - l
    {
      hide FoldEntries, Advance, Memo, Positions, Lengths, DepthFirst, Moduli;
      if l == setting.layers {
        LastLayer(setting, incoming, modulus, Entry(position, evaluation));
        LastLayer(setting, incoming + [Entry(position, evaluation)], modulus, Entry(position, evaluation));
        assert verifiedPositions == before;
        ok := evaluation in setting.remainders;
        return;
      }
      ghost var e, memo := Entry(position, evaluation), Memo(setting, l, incoming, modulus);
      MemoStarts(setting, l, incoming, modulus);
      RowAt(before, first, memo);
      var foldedPosition := position % modulus;
      var index := IndexOf(verifiedPositions[l], lengths[l], foldedPosition);
      if index != -1 {
        SeenPosition(setting, l, incoming, modulus, e);
        LengthsJoin(before, memo);
        nextLengths := nextLengths + lengths[l..];
        ok := true;
      } else {
        NewPosition(setting, l, incoming, modulus, e);
        var index: nat := lengths[l];
        RecordPosition(l, foldedPosition, before, first, memo);
        ok := index < |setting.proofs[l]|
          && setting.opens(l, foldedPosition, setting.proofs[l][index])
          && evaluation in setting.proofs[l][index].values;
        if ok {
          var previousEval := setting.fold(l, foldedPosition, setting.proofs[l][index].values);
          ghost var s := FoldEntries(incoming, modulus);
          ok := VerifyLayers(l + 1, foldedPosition, previousEval, modulus / FOLDING_FACTOR, Advance(setting, l, s),
                             before + [memo[0] + [foldedPosition]], first + [index]);
        }
      }
    }

    /**
      Verify the remaining queries, after `done` have been. The verifier accepts exactly when checking all
      queries layer by layer does, and its memo ends up as the parser's fold of all positions.
    */
    method VerifyQueries(positions: seq<nat>, queryEvaluations: seq<int>, modulus: nat, ghost done: seq<Entry>)
        returns (ok: bool)
      requires Valid() && Moduli(modulus, setting.layers) && |positions| == |queryEvaluations|
      requires verifiedPositions == Memo(setting, 0, done, modulus) && BreadthFirst(setting, 0, done, modulus)
      modifies this
      ensures ok <==> BreadthFirst(setting, 0, done + Queries(positions, queryEvaluations), modulus)
      ensures ok ==> Valid() && verifiedPositions == FoldChain(Positions(done) + positions, modulus, setting.layers)
      decreases |positions|
    {
      ghost var all := done + Queries(positions, queryEvaluations);
      if positions == [] {
        assert all == done && Positions(done) + positions == Positions(done);
        MemoIsFoldChain(setting, 0, done, modulus);
        return true;
      }
      hide BreadthFirst, DepthFirst, Memo, Lengths, Holds, FoldChain, Moduli;
      ghost var e, rest := Entry(positions[0], queryEvaluations[0]), Queries(positions[1..], queryEvaluations[1..]);
      OneMoreQuery(setting, 0, done, modulus, e);
      assert done + [e] + rest == all;
      assert Positions(done + [e]) + positions[1..] == Positions(done) + positions;
      nextLengths := [];
      assert Lengths([]) == [];
      ok := VerifyLayers(0, positions[0], queryEvaluations[0], modulus, done, [], []);
      if ok {
        lengths := nextLengths;
        ok := VerifyQueries(positions[1..], queryEvaluations[1..], modulus, done + [e]);
      } else {
        AcceptsPrefix(setting, done + [e], rest, modulus);
      }
    }
  }

  function Queries(positions: seq<nat>, queryEvaluations: seq<int>): (s: seq<Entry>)
    requires |positions| == |queryEvaluations|
    ensures Positions(s) == positions
  {
    seq(|positions|, i requires 0 <= i < |positions| => Entry(positions[i], queryEvaluations[i]))
  }

  /** What passes with more queries passes with fewer. */
  lemma {:induction false} AcceptsPrefix(c: Setting, some: seq<Entry>, rest: seq<Entry>, m: nat)
    requires c.Complete() && Moduli(m, c.layers)
    ensures BreadthFirst(c, 0, some + rest, m) ==> BreadthFirst(c, 0, some, m)
    decreases |rest|
  {
    if rest == [] {
      assert some + rest == some;
    } else {
      var n := |rest| - 1;
      assert some + rest == (some + rest[..n]) + [rest[n]];
      OneMoreQuery(c, 0, some + rest[..n], m, rest[n]);
      AcceptsPrefix(c, some, rest[..n], m);
    }
  }

  // ------------------------------------------------------------------------
  // The proofs are the parser's
  // ------------------------------------------------------------------------

  /** Checking layers with each position's own proof, wherever that proof may be stored. */
  predicate ByPosition(c: Setting, source: Source, l: nat, incoming: seq<Entry>, m: nat)
    requires l <= c.layers && Moduli(m, c.layers - l)
    decreases c.layers - l
  {
    if l == c.layers then forall e :: e in incoming ==> e.evaluation in c.remainders
    else
      var s := FoldEntries(incoming, m);
      && (forall e :: e in s ==> EntryHolds(c, l, e, source.Proof(l, e.position)))
      && ByPosition(c, source, l + 1, AdvanceBy(c, source, l, s), m / FOLDING_FACTOR)
  }

  function AdvanceBy(c: Setting, source: Source, l: nat, s: seq<Entry>): (r: seq<Entry>)
    ensures Positions(r) == Positions(s)
  {
    seq(|s|, i requires 0 <= i < |s| =>
      Entry(s[i].position, c.fold(l, s[i].position, source.values(l, s[i].position))))
  }

  lemma LayerIsOwn(c: Setting, source: Source, l: nat, s: seq<Entry>)
    requires c.Complete() && l < c.layers && c.proofs[l] == ProofsAt(source, l, Positions(s))
    ensures Advance(c, l, s) == AdvanceBy(c, source, l, s)
    ensures Holds(c, l, s) <==> forall e :: e in s ==> EntryHolds(c, l, e, source.Proof(l, e.position))
  {
    assert forall i :: 0 <= i < |s| ==> c.proofs[l][i] == source.Proof(l, s[i].position);
    assert forall i :: 0 <= i < |s| ==> s[i] in s;
  }

  /** The proofs of the layers from `l` on are those of the positions that come into layer `l`. */
  predicate ProofsFrom(c: Setting, source: Source, l: nat, positions: seq<nat>, m: nat)
    requires c.Complete() && l <= c.layers && Moduli(m, c.layers - l)
  {
    forall k :: l <= k < c.layers ==>
      c.proofs[k] == ProofsAt(source, k, FoldChain(positions, m, c.layers - l)[k - l])
  }

  lemma ProofsNext(c: Setting, source: Source, l: nat, positions: seq<nat>, m: nat)
    requires c.Complete() && l < c.layers && Moduli(m, c.layers - l) && ProofsFrom(c, source, l, positions, m)
    ensures c.proofs[l] == ProofsAt(source, l, Folded(positions, m))
    ensures ProofsFrom(c, source, l + 1, Folded(positions, m), m / FOLDING_FACTOR)
  {
    hide Folded, ProofsAt;
  }

  /** With the proofs that the parser writes, the index of a position selects the position's own proof. */
  lemma {:induction false} ProofsAreOwn(c: Setting, source: Source, l: nat, incoming: seq<Entry>, m: nat)
    requires c.Complete() && l <= c.layers && Moduli(m, c.layers - l)
    requires ProofsFrom(c, source, l, Positions(incoming), m)
    ensures BreadthFirst(c, l, incoming, m) <==> ByPosition(c, source, l, incoming, m)
    decreases c.layers - l
  {
    hide FoldEntries, Folded, Holds, Advance, AdvanceBy, Positions, ProofsFrom, EntryHolds;
    if l < c.layers {
      var s := FoldEntries(incoming, m);
      PositionsFold(incoming, m);
      ProofsNext(c, source, l, Positions(incoming), m);
      LayerIsOwn(c, source, l, s);
      ProofsAreOwn(c, source, l + 1, Advance(c, l, s), m / FOLDING_FACTOR);
    }
  }
}
