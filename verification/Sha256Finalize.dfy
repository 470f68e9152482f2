/**
  Checking the tape of SHA-256 instances in groups of seven, with dummy instances that fill up the last
  group. The outputs on the tape are claims: they are accepted exactly if each is its instance's own.
*/
module Sha256Finalize {
  import opened Arithmetic
  import opened StarkPrime
  import opened Sha256
  import opened PackedLanes
  import opened Sha256Compression
  import Sha256Padding

  // an instance takes 32 cells: 16 words of message, the input state and the output state; a group takes 224
  const MAX_VALUE: nat := 0xFFFF_FFFF
  // the bound of a range-check cell
  const RANGE_BOUND: nat := 0x1_0000_0000_0000_0000_0000_0000_0000_0000

  /** The cells are the message words and the states of a compression. */
  predicate InstanceHolds(cells: seq<nat>)
    requires |cells| == 32
  {
    AllWords(cells) && cells == Sha256Padding.Instance(cells[..16], Sha256Padding.StateOf(cells[16..24]))
  }

  function Cells(tape: seq<nat>, k: nat): (cells: seq<nat>)
    requires 32 * k + 32 <= |tape|
    ensures |cells| == 32
  {
    tape[32 * k..32 * k + 32]
  }

  predicate AllHold(tape: seq<nat>, n: nat)
    requires 32 * n <= |tape|
  {
    forall k :: 0 <= k < n ==> InstanceHolds(Cells(tape, k))
  }

  // ------------------------------------------------------------------------
  // Seven cells at once
  // ------------------------------------------------------------------------

  /** Cell `m` of each instance of a group. */
  function Row(group: seq<nat>, m: nat): (row: seq<nat>)
    requires |group| == 224 && m < 32
    ensures |row| == LANES
  {
    seq(LANES, j requires 0 <= j < LANES => group[32 * j + m])
  }

  /** A cell and its distance to the largest word pass the range check. */
  predicate WordChecked(x: nat) {
    x < RANGE_BOUND && Felt(MAX_VALUE - x) < RANGE_BOUND
  }

  lemma WordCheckedIs(x: nat)
    requires x < P
    ensures WordChecked(x) <==> x < WORD
  {
    if x < WORD {
      QuotientIs(MAX_VALUE - x, P, 0, MAX_VALUE - x);
    } else {
      QuotientIs(MAX_VALUE - x, P, -1, MAX_VALUE - x + P);
    }
  }

  lemma PackSeven(x0: nat, x1: nat, x2: nat, x3: nat, x4: nat, x5: nat, x6: nat)
    ensures Pack([x0, x1, x2, x3, x4, x5, x6])
            == x0 + LANE * (x1 + LANE * (x2 + LANE * (x3 + LANE * (x4 + LANE * (x5 + LANE * x6)))))
  {
    hide Pack;
    var v := [x0, x1, x2, x3, x4, x5, x6];
    PackFirst(x5, [x6]);
    PackFirst(x4, [x5, x6]);
    PackFirst(x3, [x4, x5, x6]);
    PackFirst(x2, [x3, x4, x5, x6]);
    PackFirst(x1, [x2, x3, x4, x5, x6]);
    PackFirst(x0, [x1, x2, x3, x4, x5, x6]);
    PackFirst(x6, []);
    PackNothing();
    assert [x6] == [x6] + [] && [x5, x6] == [x5] + [x6] && [x4, x5, x6] == [x4] + [x5, x6];
    assert [x3, x4, x5, x6] == [x3] + [x4, x5, x6] && [x2, x3, x4, x5, x6] == [x2] + [x3, x4, x5, x6];
    assert [x1, x2, x3, x4, x5, x6] == [x1] + [x2, x3, x4, x5, x6] && v == [x0] + [x1, x2, x3, x4, x5, x6];
  }

  lemma PackFirst(x: int, rest: seq<int>)
    ensures Pack([x] + rest) == x + LANE * Pack(rest)
  {
    assert ([x] + rest)[1..] == rest;
  }

  lemma PackNothing()
    ensures Pack([]) == 0
  {
  }

  function PackedFelt(x0: nat, x1: nat, x2: nat, x3: nat, x4: nat, x5: nat, x6: nat): nat {
    Felt(x0 + LANE * (x1 + LANE * (x2 + LANE * (x3 + LANE * (x4 + LANE * (x5 + LANE * x6))))))
  }

  /** The sum of seven words does not overflow the field. */
  lemma PackedFeltIs(x0: nat, x1: nat, x2: nat, x3: nat, x4: nat, x5: nat, x6: nat)
    requires AllWords([x0, x1, x2, x3, x4, x5, x6])
    ensures PackedFelt(x0, x1, x2, x3, x4, x5, x6) == Pack([x0, x1, x2, x3, x4, x5, x6])
  {
    hide Pack;
    var row := [x0, x1, x2, x3, x4, x5, x6];
    PackSeven(x0, x1, x2, x3, x4, x5, x6);
    PackInRange(row);
    QuotientIs(Pack(row), P, 0, Pack(row));
  }

  /** Check the cells of a row, and pack them. */
  method PackRow(group: seq<nat>, m: nat) returns (ok: bool, packed: nat)
    requires |group| == 224 && m < 32 && forall i :: 0 <= i < |group| ==> group[i] < P
    ensures ok <==> AllWords(Row(group, m))
    ensures ok ==> packed == Pack(Row(group, m))
  {
    hide Pack, WordChecked, PackedFelt;
    var x0, x1, x2, x3 := group[m], group[32 + m], group[64 + m], group[96 + m];
    var x4, x5, x6 := group[128 + m], group[160 + m], group[192 + m];
    ghost var row := Row(group, m);
    assert row == [x0, x1, x2, x3, x4, x5, x6];
    forall j | 0 <= j < LANES ensures WordChecked(row[j]) <==> row[j] < WORD { WordCheckedIs(row[j]); }
    ok := WordChecked(x0) && WordChecked(x1) && WordChecked(x2) && WordChecked(x3) && WordChecked(x4)
      && WordChecked(x5) && WordChecked(x6);
    assert row[0] == x0 && row[1] == x1 && row[2] == x2 && row[3] == x3 && row[4] == x4 && row[5] == x5 && row[6] == x6;
    if !ok { return false, 0; }
    PackedFeltIs(x0, x1, x2, x3, x4, x5, x6);
    packed := PackedFelt(x0, x1, x2, x3, x4, x5, x6);
  }

  // ------------------------------------------------------------------------
  // One group
  // ------------------------------------------------------------------------

  /** The first `n` rows are words. */
  predicate WordRows(group: seq<nat>, n: nat)
    requires |group| == 224 && n <= 32
  {
    forall m :: 0 <= m < n ==> AllWords(Row(group, m))
  }

  lemma CellIs(group: seq<nat>, j: nat, m: nat)
    requires |group| == 224 && j < LANES && m < 32
    ensures Cells(group, j)[m] == Row(group, m)[j]
  {
  }

  lemma InputWords(group: seq<nat>, j: nat)
    requires |group| == 224 && WordRows(group, 24) && j < LANES
    ensures AllWords(Cells(group, j)[..24])
  {
    forall m | 0 <= m < 24 ensures Cells(group, j)[m] < WORD {
      CellIs(group, j, m);
      assert AllWords(Row(group, m));
    }
  }

  /** The message block of an instance, and its input state. */
  function InputsOf(group: seq<nat>, j: nat): (inputs: seq<Word>)
    requires |group| == 224 && WordRows(group, 24) && j < LANES
    ensures |inputs| == 24
  {
    InputWords(group, j);
    Cells(group, j)[..24]
  }

  function BlockOf(group: seq<nat>, j: nat): (block: seq<Word>)
    requires |group| == 224 && WordRows(group, 24) && j < LANES
    ensures |block| == 16
  {
    InputsOf(group, j)[..16]
  }

  function StartOf(group: seq<nat>, j: nat): State
    requires |group| == 224 && WordRows(group, 24) && j < LANES
  {
    Sha256Padding.StateOf(InputsOf(group, j)[16..])
  }

  function Blocks(group: seq<nat>): (messages: seq<seq<Word>>)
    requires |group| == 224 && WordRows(group, 24)
    ensures SevenMessages(messages)
  {
    seq(LANES, j requires 0 <= j < LANES => BlockOf(group, j))
  }

  function Starts(group: seq<nat>): (states: seq<State>)
    requires |group| == 224 && WordRows(group, 24)
    ensures |states| == LANES
  {
    seq(LANES, j requires 0 <= j < LANES => StartOf(group, j))
  }

  lemma MessageRow(group: seq<nat>, t: nat)
    requires |group| == 224 && WordRows(group, 24) && t < 16
    ensures Row(group, t) == Column(Blocks(group), t)
  {
    forall j | 0 <= j < LANES ensures Row(group, t)[j] == Column(Blocks(group), t)[j] {
      CellIs(group, j, t);
      assert BlockOf(group, j)[t] == Cells(group, j)[t];
    }
  }

  lemma RegisterIsWord(s: State, r: nat)
    requires r < 8
    ensures Register(s, r) == Sha256Padding.StateWords(s)[r]
  {
  }

  lemma StartRegister(w: seq<Word>, r: nat)
    requires |w| == 8 && r < 8
    ensures Register(Sha256Padding.StateOf(w), r) == w[r]
  {
  }

  lemma StateRow(group: seq<nat>, r: nat)
    requires |group| == 224 && WordRows(group, 24) && r < 8
    ensures Row(group, 16 + r) == Lane(Starts(group), r)
  {
    hide Register, AllWords, WordRows, Cells;
    forall j | 0 <= j < LANES ensures Row(group, 16 + r)[j] == Lane(Starts(group), r)[j] {
      CellIs(group, j, 16 + r);
      StartRegister(InputsOf(group, j)[16..], r);
    }
  }

  /** Register `r` of the output of instance `j` is as computed. */
  predicate OutputIs(group: seq<nat>, r: nat, j: nat)
    requires |group| == 224 && WordRows(group, 24) && r < 8 && j < LANES
  {
    Row(group, 24 + r)[j] == Register(Compress(StartOf(group, j), BlockOf(group, j)), r)
  }

  /** An instance holds exactly if its cells are words and its outputs are those of the compression. */
  lemma HoldsExactly(group: seq<nat>, j: nat)
    requires |group| == 224 && WordRows(group, 32) && j < LANES
    ensures WordRows(group, 24)
    ensures InstanceHolds(Cells(group, j))
            <==> forall r :: 0 <= r < 8 ==> OutputIs(group, r, j)
  {
    hide Compress, Register;
    var cells := Cells(group, j);
    forall m | 0 <= m < 32 ensures cells[m] < WORD {
      CellIs(group, j, m);
      assert AllWords(Row(group, m));
    }
    var block, start := BlockOf(group, j), StartOf(group, j);
    var out := Sha256Padding.StateWords(Compress(start, block));
    assert cells == cells[..16] + cells[16..24] + cells[24..];
    assert cells[16..24] == Sha256Padding.StateWords(start) by { StartWords(cells[16..24]); }
    assert InstanceHolds(cells) <==> cells[24..] == out;
    forall r | 0 <= r < 8 ensures OutputIs(group, r, j) <==> cells[24..][r] == out[r] {
      CellIs(group, j, 24 + r);
      RegisterIsWord(Compress(start, block), r);
    }
    if forall r :: 0 <= r < 8 ==> OutputIs(group, r, j) {
      forall r | 0 <= r < 8 ensures cells[24..][r] == out[r] { assert OutputIs(group, r, j); }
    }
  }

  lemma StartWords(w: seq<Word>)
    requires |w| == 8
    ensures Sha256Padding.StateWords(Sha256Padding.StateOf(w)) == w
  {
  }

  lemma HeldWords(group: seq<nat>)
    requires |group| == 224 && AllHold(group, LANES)
    ensures WordRows(group, 32)
  {
    hide Compress;
    forall m, j | 0 <= m < 32 && 0 <= j < LANES ensures Row(group, m)[j] < WORD {
      CellIs(group, j, m);
      assert InstanceHolds(Cells(group, j));
    }
  }

  /** The packed outputs of a group are as computed. */
  predicate OutputMatches(group: seq<nat>, r: nat)
    requires |group| == 224 && WordRows(group, 24) && r < 8
  {
    Pack(Row(group, 24 + r)) == Pack(Lane(AllCompressed(Starts(group), Blocks(group)), r))
  }

  lemma OutputMatchesIs(group: seq<nat>, r: nat)
    requires |group| == 224 && WordRows(group, 32) && r < 8
    ensures WordRows(group, 24)
    ensures OutputMatches(group, r) <==> forall j :: 0 <= j < LANES ==> OutputIs(group, r, j)
  {
    hide Pack, Compress, Register, Lane, BlockOf, StartOf, Row;
    assert AllWords(Row(group, 24 + r));
    forall j | 0 <= j < LANES
      ensures OutputIs(group, r, j)
              <==> Row(group, 24 + r)[j] == Register(Compress(Starts(group)[j], Blocks(group)[j]), r)
    {
    }
    if forall j :: 0 <= j < LANES ==> OutputIs(group, r, j) {
      forall j | 0 <= j < LANES
        ensures Row(group, 24 + r)[j] == Register(Compress(Starts(group)[j], Blocks(group)[j]), r)
      {
        assert OutputIs(group, r, j);
      }
    }
    OutputAccepted(Starts(group), Blocks(group), r, Row(group, 24 + r));
  }

  /** A group holds exactly if all its packed outputs are as computed. */
  lemma GroupExactly(group: seq<nat>)
    requires |group| == 224 && WordRows(group, 32)
    ensures WordRows(group, 24)
    ensures AllHold(group, LANES) <==> forall r :: 0 <= r < 8 ==> OutputMatches(group, r)
  {
    hide OutputMatches, OutputIs, InstanceHolds, Cells, Row, AllWords, Compress, K, Scheduled, Register, Pack, Lane;
    forall r | 0 <= r < 8 ensures OutputMatches(group, r) <==> forall j :: 0 <= j < LANES ==> OutputIs(group, r, j) {
      OutputMatchesIs(group, r);
    }
    forall j | 0 <= j < LANES
      ensures InstanceHolds(Cells(group, j)) <==> forall r :: 0 <= r < 8 ==> OutputIs(group, r, j)
    {
      HoldsExactly(group, j);
    }
    if AllHold(group, LANES) {
      forall r, j | 0 <= r < 8 && 0 <= j < LANES ensures OutputIs(group, r, j) {
        assert InstanceHolds(Cells(group, j));
      }
    }
    if forall r :: 0 <= r < 8 ==> OutputMatches(group, r) {
      forall j, r | 0 <= r < 8 && 0 <= j < LANES ensures OutputIs(group, r, j) {
        assert OutputMatches(group, r);
      }
    }
  }

  /** One turn of `_finalize_sha256_inner`: false if a cell is no word, or an output not as computed. */
  method FinalizeGroup(group: seq<nat>, roundConstants: seq<nat>) returns (ok: bool)
    requires |group| == 224 && forall i :: 0 <= i < |group| ==> group[i] < P
    requires AreRoundConstants(roundConstants)
    ensures ok <==> AllHold(group, LANES)
  {
    hide Pack, AllHold, Row, Column, Lane, BlockOf, StartOf, Blocks, Starts, AllCompressed, K, AllWords, OutputMatches,
      AreRoundConstants, Compress, Scheduled, Register, InstanceHolds, Cells, WordChecked;
    var message := new nat[64];
    var inputState := [];
    var packed;
    if AllHold(group, LANES) { HeldWords(group); }
    for m := 0 to 16
      invariant WordRows(group, m)
      invariant forall t :: 0 <= t < m ==> message[t] == Pack(Row(group, t))
    {
      ok, packed := PackRow(group, m);
      if !ok { return; }
      message[m] := packed;
    }
    for m := 0 to 8
      invariant WordRows(group, 16 + m) && |inputState| == m
      invariant forall t :: 0 <= t < 16 ==> message[t] == Pack(Row(group, t))
      invariant forall r :: 0 <= r < m ==> inputState[r] == Pack(Row(group, 16 + r))
    {
      ok, packed := PackRow(group, 16 + m);
      if !ok { return; }
      inputState := inputState + [packed];
    }
    forall t | 0 <= t < 16 ensures message[t] == Pack(Column(Blocks(group), t)) { MessageRow(group, t); }
    forall r | 0 <= r < 8 ensures inputState[r] == Pack(Lane(Starts(group), r)) { StateRow(group, r); }
    ComputeMessageSchedule(message, Blocks(group));
    var outputs := Sha2Compress(inputState, message[..], roundConstants, Starts(group), Blocks(group));
    for m := 0 to 8
      invariant WordRows(group, 24 + m)
      invariant forall r :: 0 <= r < m ==> OutputMatches(group, r)
    {
      ok, packed := PackRow(group, 24 + m);
      if !ok { return; }
      MatchIs(group, m, packed, outputs[m]);
      if packed != outputs[m] {
        if AllHold(group, LANES) { GroupExactly(group); }
        return false;
      }
    }
    ok := true;
    GroupExactly(group);
  }

  lemma MatchIs(group: seq<nat>, r: nat, packed: nat, output: nat)
    requires |group| == 224 && WordRows(group, 24) && r < 8
    requires packed == Pack(Row(group, 24 + r))
    requires output == Pack(Lane(AllCompressed(Starts(group), Blocks(group)), r))
    ensures OutputMatches(group, r) <==> packed == output
  {
  }

  // ------------------------------------------------------------------------
  // All groups
  // ------------------------------------------------------------------------

  lemma SameCells(tape: seq<nat>, part: seq<nat>, skip: nat, k: nat)
    requires 32 * skip + |part| <= |tape| && 32 * k + 32 <= |part|
    requires part == tape[32 * skip..32 * skip + |part|]
    ensures Cells(part, k) == Cells(tape, skip + k)
  {
    var a, b := 32 * skip, 32 * k;
    assert 32 * (skip + k) == a + b;
    forall i | 0 <= i < 32 ensures Cells(part, k)[i] == Cells(tape, skip + k)[i] {
      assert part[b + i] == tape[a + (b + i)];
    }
  }

  /** The first instances of a tape, and the others. */
  lemma SplitTape(tape: seq<nat>, m: nat, n: nat)
    requires 32 * (m + n) == |tape|
    ensures AllHold(tape, m + n) <==> AllHold(tape[..32 * m], m) && AllHold(tape[32 * m..], n)
  {
    hide InstanceHolds, Cells;
    var first, others := tape[..32 * m], tape[32 * m..];
    forall k | 0 <= k < m ensures Cells(first, k) == Cells(tape, k) { SameCells(tape, first, 0, k); }
    forall k | 0 <= k < n ensures Cells(others, k) == Cells(tape, m + k) { SameCells(tape, others, m, k); }
    if AllHold(first, m) && AllHold(others, n) {
      forall k | 0 <= k < m + n ensures InstanceHolds(Cells(tape, k)) {
        if k < m {
          assert InstanceHolds(Cells(first, k));
        } else {
          assert InstanceHolds(Cells(others, k - m)) && Cells(others, k - m) == Cells(tape, m + (k - m));
        }
      }
    }
  }

  method FinalizeInner(tape: seq<nat>, n: nat, roundConstants: seq<nat>) returns (ok: bool)
    requires |tape| == 224 * n && forall i :: 0 <= i < |tape| ==> tape[i] < P
    requires AreRoundConstants(roundConstants)
    ensures ok <==> AllHold(tape, 7 * n)
    decreases n
  {
    hide AllHold, AreRoundConstants, InstanceHolds, Cells;
    if n == 0 {
      NoneHold(tape);
      return true;
    }
    assert LANES + 7 * (n - 1) == 7 * n;
    SplitTape(tape, LANES, 7 * (n - 1));
    ok := FinalizeGroup(tape[..224], roundConstants);
    if !ok { return; }
    ok := FinalizeInner(tape[224..], n - 1, roundConstants);
  }

  lemma NoneHold(tape: seq<nat>)
    ensures AllHold(tape, 0)
  {
  }

  /** Copies of one instance. */
  function Repeated(cells: seq<nat>, n: nat): (tape: seq<nat>)
    requires |cells| == 32
    ensures |tape| == 32 * n
  {
    if n == 0 then [] else cells + Repeated(cells, n - 1)
  }

  lemma {:induction false} RepeatedHold(cells: seq<nat>, n: nat)
    requires |cells| == 32 && InstanceHolds(cells)
    ensures AllHold(Repeated(cells, n), n)
  {
    hide InstanceHolds;
    if n > 0 {
      var tape := Repeated(cells, n);
      RepeatedHold(cells, n - 1);
      assert tape[..32] == cells && tape[32..] == Repeated(cells, n - 1);
      assert Cells(cells, 0) == cells;
      SplitTape(tape, 1, n - 1);
    }
  }

  /** The dummy instance: a block of zeros, compressed from the initial state. */
  function Dummy(): (cells: seq<Word>)
    ensures |cells| == 32
  {
    Sha256Padding.Instance(seq(16, _ => 0), Sha256Padding.IV)
  }

  lemma DummyHolds()
    ensures InstanceHolds(Dummy())
  {
    InstanceIs(seq(16, _ => 0), Sha256Padding.IV);
  }

  lemma InstanceIs(block: seq<Word>, s: State)
    requires |block| == 16
    ensures InstanceHolds(Sha256Padding.Instance(block, s))
  {
    hide Compress;
    var cells := Sha256Padding.Instance(block, s);
    assert cells[..16] == block && cells[16..24] == Sha256Padding.StateWords(s);
  }

  /** `get_round_constants`: each constant in all lanes. */
  function RoundConstants(): (constants: seq<nat>)
    ensures AreRoundConstants(constants)
  {
    var k := K();
    seq(64, t requires 0 <= t < 64 => InAllLanes(k[t]))
  }

  /** `finalize_sha256`: accepts a tape of instances exactly if each of them holds. */
  method FinalizeSha256(tape: seq<nat>, n: nat) returns (ok: bool)
    requires |tape| == 32 * n && forall i :: 0 <= i < |tape| ==> tape[i] < P
    ensures ok <==> AllHold(tape, n)
  {
    hide AllHold, RoundConstants, AreRoundConstants, InstanceHolds, Cells, Dummy, Repeated, Sha256Padding.Instance;
    var roundConstants := RoundConstants();
    if n == 0 {
      NoneHold(tape);
      return true;
    }
    var padding: seq<nat> := Repeated(Dummy(), 6);
    var written := tape + padding;
    var q := (n + 6) / 7;
    ghost var dummies := 7 * q - n;
    DummyHolds();
    RepeatedHold(Dummy(), 6);
    var used := written[..32 * (7 * q)];
    SplitTape(padding, dummies, 6 - dummies);
    SplitTape(used, n, dummies);
    assert used[..32 * n] == tape && used[32 * n..] == padding[..32 * dummies];
    RepeatedSmall(Dummy(), 6);
    ok := FinalizeInner(used, q, roundConstants);
  }

  lemma {:induction false} RepeatedSmall(cells: seq<Word>, n: nat)
    requires |cells| == 32
    ensures forall i :: 0 <= i < |Repeated(cells, n)| ==> Repeated(cells, n)[i] < P
  {
    if n > 0 { RepeatedSmall(cells, n - 1); }
  }

  // ------------------------------------------------------------------------
  // Accepted claims are the digest
  // ------------------------------------------------------------------------

  /** The inputs of the instances: the blocks of `words`, and for each state the cells of the output before it. */
  predicate Chained(tape: seq<nat>, words: seq<Word>, n: nat, state: seq<nat>)
    requires |tape| == 32 * n && |words| == 16 * n
    decreases n
  {
    n > 0 ==>
      && tape[..16] == words[..16] && tape[16..24] == state
      && Chained(tape[32..], words[16..], n - 1, tape[24..32])
  }

  /** Whatever outputs a tape claims, if it is accepted and its inputs are chained, it is the trace. */
  lemma {:induction false} AcceptedIsTrace(tape: seq<nat>, words: seq<Word>, n: nat, s: State)
    requires |tape| == 32 * n && |words| == 16 * n
    requires Chained(tape, words, n, Sha256Padding.StateWords(s)) && AllHold(tape, n)
    ensures tape == Sha256Padding.Trace(words, n, s)
    decreases n
  {
    hide Compress;
    if n > 0 {
      var cells := Cells(tape, 0);
      assert InstanceHolds(cells) && cells == tape[..32];
      var block, next := words[..16], Compress(s, words[..16]);
      assert cells[..16] == block && cells[16..24] == Sha256Padding.StateWords(s);
      assert tape[24..32] == cells[24..] == Sha256Padding.StateWords(next);
      SplitTape(tape, 1, n - 1);
      AcceptedIsTrace(tape[32..], words[16..], n - 1, next);
    }
  }

  /** The trace is accepted. */
  lemma {:induction false} TraceIsAccepted(words: seq<Word>, n: nat, s: State)
    requires |words| == 16 * n
    ensures var tape := Sha256Padding.Trace(words, n, s);
      Chained(tape, words, n, Sha256Padding.StateWords(s)) && AllHold(tape, n)
    decreases n
  {
    hide Compress, InstanceHolds;
    if n > 0 {
      var block, next := words[..16], Compress(s, words[..16]);
      var tape, cells := Sha256Padding.Trace(words, n, s), Sha256Padding.Instance(block, s);
      TraceIsAccepted(words[16..], n - 1, next);
      InstanceIs(block, s);
      assert tape[..32] == cells && tape[32..] == Sha256Padding.Trace(words[16..], n - 1, next);
      assert Cells(cells, 0) == cells;
      SplitTape(tape, 1, n - 1);
    }
  }

  /** An accepted tape ends with the digest. */
  lemma AcceptedDigest(tape: seq<nat>, words: seq<Word>, n: nat)
    requires |tape| == 32 * n && |words| == 16 * n && n > 0
    requires Chained(tape, words, n, Sha256Padding.StateWords(Sha256Padding.IV)) && AllHold(tape, n)
    ensures tape[|tape| - 8..] == Sha256Padding.StateWords(Sha256Padding.Digest(words, n, Sha256Padding.IV))
  {
    AcceptedIsTrace(tape, words, n, Sha256Padding.IV);
    Sha256Padding.DigestIsLast(words, n, Sha256Padding.IV);
  }
}
