/**
  The loops of the packed SHA-256: the message schedule extended in place, and the 64 rounds. Lane by lane
  they compute the scalar schedule and compression.
*/
module Sha256Compression {
  import opened Arithmetic
  import opened StarkPrime
  import opened Bits
  import opened Sha256
  import opened PackedLanes
  import opened Sha256Packed

  // ------------------------------------------------------------------------
  // Sums of words
  // ------------------------------------------------------------------------

  function SumPacks(vs: seq<seq<nat>>): int {
    if vs == [] then 0 else Pack(vs[0]) + SumPacks(vs[1..])
  }

  predicate SevenLanes(vs: seq<seq<nat>>) {
    forall i :: 0 <= i < |vs| ==> |vs[i]| == LANES
  }

  predicate AllWords(v: seq<nat>) {
    forall j :: 0 <= j < |v| ==> v[j] < WORD
  }

  predicate SevenWords(vs: seq<seq<nat>>) {
    forall i :: 0 <= i < |vs| ==> AllWords(vs[i])
  }

  function LaneSum(vs: seq<seq<nat>>, j: nat): nat
    requires SevenLanes(vs) && j < LANES
  {
    if vs == [] then 0 else vs[0][j] + LaneSum(vs[1..], j)
  }

  function LaneSums(vs: seq<seq<nat>>): (r: seq<nat>)
    requires SevenLanes(vs)
    ensures |r| == LANES
  {
    seq(LANES, j requires 0 <= j < LANES => LaneSum(vs, j))
  }

  lemma {:induction false} LaneSumBound(vs: seq<seq<nat>>, j: nat)
    requires SevenLanes(vs) && SevenWords(vs) && j < LANES
    ensures LaneSum(vs, j) <= |vs| * (WORD - 1)
  {
    if vs != [] { LaneSumBound(vs[1..], j); }
  }

  lemma {:induction false} PacksAdd(vs: seq<seq<nat>>)
    requires SevenLanes(vs)
    ensures SumPacks(vs) == Pack(LaneSums(vs))
  {
    hide Pack;
    if vs == [] {
      PackSame(0);
      assert LaneSums(vs) == Same(0, LANES);
    } else {
      PacksAdd(vs[1..]);
      assert LaneSums(vs) == Combined(1, vs[0], 1, LaneSums(vs[1..]));
      PackCombined(1, vs[0], 1, LaneSums(vs[1..]));
    }
  }

  lemma SumsInLanes(vs: seq<seq<nat>>)
    requires SevenLanes(vs) && SevenWords(vs) && |vs| <= 8
    ensures InLanes(LaneSums(vs))
  {
    forall j | 0 <= j < LANES ensures LaneSums(vs)[j] < LANE { LaneSumBound(vs, j); }
  }

  lemma FeltSmall(x: int)
    requires 0 <= x < P
    ensures Felt(x) == x
  {
  }

  /** Up to eight words add up inside their lane, so that the mask leaves their sums modulo 2^32. */
  lemma SumMasked(vs: seq<seq<nat>>)
    requires SevenLanes(vs) && SevenWords(vs) && |vs| <= 8
    ensures 0 <= SumPacks(vs) < BITWISE_LIMIT && Felt(SumPacks(vs)) == SumPacks(vs)
    ensures MASK_32_ONES < BITWISE_LIMIT
    ensures AndBuiltin(Felt(SumPacks(vs)), MASK_32_ONES) == Pack(Lows(LaneSums(vs)))
  {
    hide Pack, And, InLanes, LaneSums, Lows, Felt, SevenWords, SumPacks;
    PacksAdd(vs);
    SumsInLanes(vs);
    PackInRange(LaneSums(vs));
    FullyMasked(LaneSums(vs));
    FeltSmall(SumPacks(vs));
  }

  /** Eight is the most: nine words can carry into the next lane. */
  lemma NineWordsCarry()
    ensures var vs: seq<seq<nat>> := seq(9, _ => Same(WORD - 1, LANES));
      SevenLanes(vs) && SevenWords(vs) && LaneSum(vs, 0) >= LANE
  {
    var v: seq<nat> := Same(WORD - 1, LANES);
    NinefoldSum(v, 9);
    assert seq(9, _ => v) == seq(9, _ => Same(WORD - 1, LANES));
  }

  lemma {:induction false} NinefoldSum(v: seq<nat>, n: nat)
    requires |v| == LANES
    ensures SevenLanes(seq(n, _ => v)) && LaneSum(seq(n, _ => v), 0) == n * v[0]
  {
    if n > 0 {
      assert seq(n, _ => v)[1..] == seq(n - 1, _ => v);
      NinefoldSum(v, n - 1);
    }
  }

  // ------------------------------------------------------------------------
  // The message schedule
  // ------------------------------------------------------------------------

  /** Word `t` of all seven message schedules. */
  function Column(messages: seq<seq<Word>>, t: nat): (v: seq<Word>)
    requires forall j :: 0 <= j < |messages| ==> |messages[j]| == 16
    ensures |v| == |messages|
  {
    seq(|messages|, j requires 0 <= j < |messages| => Scheduled(messages[j], t))
  }

  predicate SevenMessages(messages: seq<seq<Word>>) {
    |messages| == LANES && forall j :: 0 <= j < LANES ==> |messages[j]| == 16
  }

  ghost function ScheduleSummands(messages: seq<seq<Word>>, t: nat): (vs: seq<seq<nat>>)
    requires SevenMessages(messages) && t >= 16
    ensures SevenLanes(vs) && |vs| == 4
  {
    [Column(messages, t - 16), RotateShiftLanes(Column(messages, t - 15), 7, 18, 3),
     Column(messages, t - 7), RotateShiftLanes(Column(messages, t - 2), 17, 19, 10)]
  }

  lemma FirstSummand(v: seq<nat>, rest: seq<seq<nat>>)
    ensures SumPacks([]) == 0 && SumPacks([v] + rest) == Pack(v) + SumPacks(rest)
    ensures |v| == LANES && SevenLanes(rest) ==>
              && SevenLanes([v] + rest)
              && forall j :: 0 <= j < LANES ==> LaneSum([v] + rest, j) == v[j] + LaneSum(rest, j)
  {
    assert ([v] + rest)[1..] == rest;
  }

  lemma FourSummands(v: seq<nat>, w: seq<nat>, x: seq<nat>, y: seq<nat>)
    requires |v| == |w| == |x| == |y| == LANES
    ensures SevenLanes([v, w, x, y]) && SumPacks([v, w, x, y]) == Pack(v) + Pack(w) + Pack(x) + Pack(y)
    ensures forall j :: 0 <= j < LANES ==> LaneSum([v, w, x, y], j) == v[j] + w[j] + x[j] + y[j]
  {
    hide Pack, SumPacks, LaneSum;
    FirstSummand(y, []);
    FirstSummand(x, [y]);
    FirstSummand(w, [x, y]);
    FirstSummand(v, [w, x, y]);
    assert [y] + [] == [y] && [x] + [y] == [x, y] && [w] + [x, y] == [w, x, y] && [v] + [w, x, y] == [v, w, x, y];
    forall j | 0 <= j < LANES ensures LaneSum([], j) == 0 { NoSummand(j); }
  }

  lemma NoSummand(j: nat)
    requires j < LANES
    ensures LaneSum([], j) == 0
  {
  }

  lemma SummandsOfWord(messages: seq<seq<Word>>, t: nat)
    requires SevenMessages(messages) && t >= 16
    ensures SevenWords(ScheduleSummands(messages, t))
  {
    hide RotateShiftLanes, Column, AllWords;
    RotationLanesAreWords(Column(messages, t - 15), 7, 18, 3);
    RotationLanesAreWords(Column(messages, t - 2), 17, 19, 10);
    WordLanes(Column(messages, t - 16));
    WordLanes(Column(messages, t - 7));
  }

  /** The summands of word `t` are words, and modulo 2^32 they add up to it. */
  lemma NextWord(messages: seq<seq<Word>>, t: nat)
    requires SevenMessages(messages) && t >= 16
    ensures SevenWords(ScheduleSummands(messages, t))
    ensures Lows(LaneSums(ScheduleSummands(messages, t))) == Column(messages, t)
  {
    hide RotateShift, LaneSum, SevenWords;
    var vs := ScheduleSummands(messages, t);
    SummandsOfWord(messages, t);
    FourSummands(vs[0], vs[1], vs[2], vs[3]);
    forall j | 0 <= j < LANES ensures Lows(LaneSums(vs))[j] == Column(messages, t)[j] {
    }
  }

  /** Extend the message of 16 packed words to the 64 words of the schedule, in place. */
  method ComputeMessageSchedule(message: array<nat>, ghost messages: seq<seq<Word>>)
    requires message.Length == 64 && SevenMessages(messages)
    requires forall t :: 0 <= t < 16 ==> message[t] == Pack(Column(messages, t))
    modifies message
    ensures forall t :: 0 <= t < 64 ==> message[t] == Pack(Column(messages, t))
  {
    hide Pack, Column, ScheduleSummands, And, RotateShiftLanes, Lows, LaneSums, SumPacks;
    var n := 64 - 16;
    while n != 0
      invariant 0 <= n <= 48
      invariant forall t :: 0 <= t < 64 - n ==> message[t] == Pack(Column(messages, t))
    {
      var t := 64 - n;
      var s0 := RotateShiftPacked(message[t - 15], 7, 18, 3, Column(messages, t - 15));
      var s1 := RotateShiftPacked(message[t - 2], 17, 19, 10, Column(messages, t - 2));
      WordSum(messages, t);
      message[t] := AndBuiltin(Felt(message[t - 16] + s0 + message[t - 7] + s1), MASK_32_ONES);
      n := n - 1;
    }
  }

  lemma WordSum(messages: seq<seq<Word>>, t: nat)
    requires SevenMessages(messages) && t >= 16
    ensures var sum := Pack(Column(messages, t - 16)) + Pack(RotateShiftLanes(Column(messages, t - 15), 7, 18, 3))
                       + Pack(Column(messages, t - 7)) + Pack(RotateShiftLanes(Column(messages, t - 2), 17, 19, 10));
      && Felt(sum) < BITWISE_LIMIT && MASK_32_ONES < BITWISE_LIMIT
      && AndBuiltin(Felt(sum), MASK_32_ONES) == Pack(Column(messages, t))
  {
    hide Pack, Column, And, RotateShiftLanes, Lows, LaneSums, SumPacks, Felt;
    var vs := ScheduleSummands(messages, t);
    NextWord(messages, t);
    SumMasked(vs);
    FourSummands(vs[0], vs[1], vs[2], vs[3]);
  }

  // ------------------------------------------------------------------------
  // The rounds
  // ------------------------------------------------------------------------

  function Register(s: State, r: nat): Word
    requires r < 8
  {
    if r == 0 then s.a else if r == 1 then s.b else if r == 2 then s.c else if r == 3 then s.d
    else if r == 4 then s.e else if r == 5 then s.f else if r == 6 then s.g else s.h
  }

  /** One register of all seven states. */
  function Lane(states: seq<State>, r: nat): (v: seq<Word>)
    requires r < 8
    ensures |v| == |states|
  {
    seq(|states|, j requires 0 <= j < |states| => Register(states[j], r))
  }

  function AllRounds(states: seq<State>, messages: seq<seq<Word>>, n: nat): (s: seq<State>)
    requires |states| == LANES && SevenMessages(messages) && n <= 64
    ensures |s| == LANES
  {
    seq(LANES, j requires 0 <= j < LANES => Rounds(states[j], messages[j], n))
  }

  function AllCompressed(states: seq<State>, messages: seq<seq<Word>>): (s: seq<State>)
    requires |states| == LANES && SevenMessages(messages)
    ensures |s| == LANES
  {
    seq(LANES, j requires 0 <= j < LANES => Compress(states[j], messages[j]))
  }

  function NextStates(states: seq<State>, k: Word, w: seq<Word>): (s: seq<State>)
    requires |states| == |w|
    ensures |s| == |states|
  {
    seq(|states|, j requires 0 <= j < |states| => Round(states[j], k, w[j]))
  }

  ghost function RoundSummands(states: seq<State>, k: Word, w: seq<Word>): (vs: seq<seq<nat>>)
    requires |states| == |w| == LANES
    ensures |vs| == 5
  {
    var e := Lane(states, 4);
    [Lane(states, 7), RotateXorLanes(e, 6, 11, 25), ChLanes(e, Lane(states, 5), Lane(states, 6)), Same(k, LANES), w]
  }

  lemma RotationLanesAreWords(v: seq<Word>, i: nat, j: nat, k: nat)
    requires i < 32 && j < 32 && k < 32
    ensures AllWords(RotateXorLanes(v, i, j, k)) && AllWords(RotateShiftLanes(v, i, j, k))
  {
    hide RotateXor, RotateShift;
    forall l | 0 <= l < |v| ensures RotateXor(v[l], i, j, k) < WORD && RotateShift(v[l], i, j, k) < WORD {
      RotationsAreWords(v[l], i, j, k);
    }
  }

  lemma ChoiceLanesAreWords(v: seq<Word>, w: seq<Word>, z: seq<Word>)
    requires |v| == |w| == |z|
    ensures AllWords(ChLanes(v, w, z)) && AllWords(MajLanes(v, w, z))
  {
    hide Ch, Majority;
    forall l | 0 <= l < |v| ensures Ch(v[l], w[l], z[l]) < WORD && Majority(v[l], w[l], z[l]) < WORD {
      ChLane(v[l], w[l], z[l]);
      MajLane(v[l], w[l], z[l]);
    }
  }

  lemma FiveSummands(v: seq<nat>, w: seq<nat>, x: seq<nat>, y: seq<nat>, z: seq<nat>, rest: seq<seq<nat>>)
    requires |v| == |w| == |x| == |y| == |z| == LANES && SevenLanes(rest)
    ensures SevenLanes([v, w, x, y, z] + rest)
    ensures SumPacks([v, w, x, y, z] + rest) == Pack(v) + Pack(w) + Pack(x) + Pack(y) + Pack(z) + SumPacks(rest)
    ensures forall j :: 0 <= j < LANES ==>
      LaneSum([v, w, x, y, z] + rest, j) == v[j] + w[j] + x[j] + y[j] + z[j] + LaneSum(rest, j)
  {
    hide Pack, SumPacks, LaneSum;
    FirstSummand(z, rest);
    FirstSummand(y, [z] + rest);
    FirstSummand(x, [y] + ([z] + rest));
    FirstSummand(w, [x] + ([y] + ([z] + rest)));
    FirstSummand(v, [w] + ([x] + ([y] + ([z] + rest))));
    assert [v] + ([w] + ([x] + ([y] + ([z] + rest)))) == [v, w, x, y, z] + rest;
  }

  lemma TwoSummands(v: seq<nat>, w: seq<nat>)
    requires |v| == |w| == LANES
    ensures SevenLanes([v, w]) && SumPacks([v, w]) == Pack(v) + Pack(w)
    ensures forall j :: 0 <= j < LANES ==> LaneSum([v, w], j) == v[j] + w[j]
  {
    hide Pack, SumPacks, LaneSum;
    FirstSummand(w, []);
    FirstSummand(v, [w]);
    assert [w] + [] == [w] && [v] + [w] == [v, w];
    forall j | 0 <= j < LANES ensures LaneSum([], j) == 0 { NoSummand(j); }
  }

  ghost function SummandsA(states: seq<State>, k: Word, w: seq<Word>): (vs: seq<seq<nat>>)
    requires |states| == |w| == LANES
    ensures |vs| == 7
  {
    RoundSummands(states, k, w)
    + [RotateXorLanes(Lane(states, 0), 2, 13, 22), MajLanes(Lane(states, 0), Lane(states, 1), Lane(states, 2))]
  }

  ghost function SummandsE(states: seq<State>, k: Word, w: seq<Word>): (vs: seq<seq<nat>>)
    requires |states| == |w| == LANES
    ensures |vs| == 6
  {
    RoundSummands(states, k, w) + [Lane(states, 3)]
  }

  lemma SummandsAreWords(states: seq<State>, k: Word, w: seq<Word>)
    requires |states| == |w| == LANES
    ensures SevenWords(SummandsA(states, k, w)) && SevenWords(SummandsE(states, k, w))
  {
    hide RotateXorLanes, ChLanes, MajLanes, Lane, AllWords;
    RotationLanesAreWords(Lane(states, 4), 6, 11, 25);
    RotationLanesAreWords(Lane(states, 0), 2, 13, 22);
    ChoiceLanesAreWords(Lane(states, 4), Lane(states, 5), Lane(states, 6));
    ChoiceLanesAreWords(Lane(states, 0), Lane(states, 1), Lane(states, 2));
    WordLanes(w);
    WordLanes(Same(k, LANES));
    WordLanes(Lane(states, 3));
    WordLanes(Lane(states, 7));
  }

  lemma WordLanes(v: seq<Word>)
    ensures AllWords(v)
  {
  }

  /** The sums of a round, packed and lane by lane. */
  lemma RoundSums(states: seq<State>, k: Word, w: seq<Word>)
    requires |states| == |w| == LANES
    ensures SevenLanes(SummandsA(states, k, w)) && SevenLanes(SummandsE(states, k, w))
    ensures var e, a := Lane(states, 4), Lane(states, 0);
      var temp1 := Pack(Lane(states, 7)) + Pack(RotateXorLanes(e, 6, 11, 25))
                   + Pack(ChLanes(e, Lane(states, 5), Lane(states, 6))) + SHIFTS * k + Pack(w);
      var temp2 := Pack(RotateXorLanes(a, 2, 13, 22)) + Pack(MajLanes(a, Lane(states, 1), Lane(states, 2)));
      && SumPacks(SummandsA(states, k, w)) == temp1 + temp2
      && SumPacks(SummandsE(states, k, w)) == temp1 + Pack(Lane(states, 3))
    ensures forall j :: 0 <= j < LANES ==>
      var e, a := Lane(states, 4), Lane(states, 0);
      var temp1 := Lane(states, 7)[j] + RotateXorLanes(e, 6, 11, 25)[j]
                   + ChLanes(e, Lane(states, 5), Lane(states, 6))[j] + k + w[j];
      && LaneSum(SummandsA(states, k, w), j)
         == temp1 + RotateXorLanes(a, 2, 13, 22)[j] + MajLanes(a, Lane(states, 1), Lane(states, 2))[j]
      && LaneSum(SummandsE(states, k, w), j) == temp1 + Lane(states, 3)[j]
  {
    hide RotateXorLanes, ChLanes, MajLanes, Lane, Pack, SumPacks, LaneSum;
    var vs, d := RoundSummands(states, k, w), Lane(states, 3);
    var s0 := RotateXorLanes(Lane(states, 0), 2, 13, 22);
    var maj := MajLanes(Lane(states, 0), Lane(states, 1), Lane(states, 2));
    TwoSummands(s0, maj);
    OneSummand(d);
    FiveSummands(vs[0], vs[1], vs[2], vs[3], vs[4], [s0, maj]);
    FiveSummands(vs[0], vs[1], vs[2], vs[3], vs[4], [d]);
    PackSame(k);
  }

  lemma OneSummand(v: seq<nat>)
    requires |v| == LANES
    ensures SevenLanes([v]) && SumPacks([v]) == Pack(v)
    ensures forall j :: 0 <= j < LANES ==> LaneSum([v], j) == v[j]
  {
    FirstSummand(v, []);
    assert [v] + [] == [v];
  }

  /** The masked sums are the new registers of all lanes. */
  lemma NewRegisters(states: seq<State>, k: Word, w: seq<Word>)
    requires |states| == |w| == LANES
    ensures SevenLanes(SummandsA(states, k, w)) && SevenLanes(SummandsE(states, k, w))
    ensures Lows(LaneSums(SummandsA(states, k, w))) == Lane(NextStates(states, k, w), 0)
    ensures Lows(LaneSums(SummandsE(states, k, w))) == Lane(NextStates(states, k, w), 4)
  {
    hide RotateXor, Ch, Majority, LaneSum, SummandsA, SummandsE, Pack, SumPacks;
    RoundSums(states, k, w);
    forall j | 0 <= j < LANES
      ensures Lows(LaneSums(SummandsA(states, k, w)))[j] == Lane(NextStates(states, k, w), 0)[j]
      ensures Lows(LaneSums(SummandsE(states, k, w)))[j] == Lane(NextStates(states, k, w), 4)[j]
    {
    }
  }

  ghost function Temp1Packed(states: seq<State>, k: Word, w: seq<Word>): int
    requires |states| == |w| == LANES
  {
    var e := Lane(states, 4);
    Pack(Lane(states, 7)) + Pack(RotateXorLanes(e, 6, 11, 25)) + Pack(ChLanes(e, Lane(states, 5), Lane(states, 6)))
    + SHIFTS * k + Pack(w)
  }

  ghost function Temp2Packed(states: seq<State>): int
    requires |states| == LANES
  {
    var a := Lane(states, 0);
    Pack(RotateXorLanes(a, 2, 13, 22)) + Pack(MajLanes(a, Lane(states, 1), Lane(states, 2)))
  }

  /** The felts of a round stay in range, and the masked ones are the new registers. */
  lemma RoundFelts(states: seq<State>, k: Word, w: seq<Word>)
    requires |states| == |w| == LANES
    ensures var temp1, temp2, d := Temp1Packed(states, k, w), Temp2Packed(states), Pack(Lane(states, 3));
      && Felt(temp1) == temp1 && Felt(temp2) == temp2 && MASK_32_ONES < BITWISE_LIMIT
      && Felt(temp1 + temp2) < BITWISE_LIMIT && Felt(d + temp1) < BITWISE_LIMIT
      && And(Felt(temp1 + temp2), MASK_32_ONES) == Pack(Lane(NextStates(states, k, w), 0))
      && And(Felt(d + temp1), MASK_32_ONES) == Pack(Lane(NextStates(states, k, w), 4))
  {
    hide RotateXorLanes, ChLanes, MajLanes, Lane, Pack, SumPacks, LaneSums, And, SummandsA, SummandsE, Lows,
         SevenWords, NextStates, Felt;
    var e, a, d := Lane(states, 4), Lane(states, 0), Lane(states, 3);
    SummandsAreWords(states, k, w);
    RoundSums(states, k, w);
    NewRegisters(states, k, w);
    SumMasked(SummandsA(states, k, w));
    SumMasked(SummandsE(states, k, w));
    var temp1, temp2 := Temp1Packed(states, k, w), Temp2Packed(states);
    WordLanes(d);
    WordLanes(w);
    WordLanes(Lane(states, 7));
    RotationLanesAreWords(e, 6, 11, 25);
    RotationLanesAreWords(a, 2, 13, 22);
    ChoiceLanesAreWords(e, Lane(states, 5), Lane(states, 6));
    ChoiceLanesAreWords(a, Lane(states, 1), Lane(states, 2));
    PackedWords(d);
    PackedWords(w);
    PackedWords(Lane(states, 7));
    PackedWords(RotateXorLanes(e, 6, 11, 25));
    PackedWords(RotateXorLanes(a, 2, 13, 22));
    PackedWords(ChLanes(e, Lane(states, 5), Lane(states, 6)));
    PackedWords(MajLanes(a, Lane(states, 1), Lane(states, 2)));
    FeltSmall(temp1);
    FeltSmall(temp2);
  }

  lemma PackedWords(v: seq<nat>)
    requires |v| == LANES && AllWords(v)
    ensures 0 <= Pack(v) < BITWISE_LIMIT
  {
    PackInRange(v);
  }

  /** One round on packed registers: the new values of the two registers that are not just moved. */
  method RoundPacked(a: nat, b: nat, c: nat, d: nat, e: nat, f: nat, g: nat, h: nat, k: nat, w: nat,
                     ghost states: seq<State>, ghost constant: Word, ghost words: seq<Word>)
      returns (newA: nat, newE: nat)
    requires |states| == |words| == LANES
    requires a == Pack(Lane(states, 0)) && b == Pack(Lane(states, 1))
    requires c == Pack(Lane(states, 2)) && d == Pack(Lane(states, 3))
    requires e == Pack(Lane(states, 4)) && f == Pack(Lane(states, 5))
    requires g == Pack(Lane(states, 6)) && h == Pack(Lane(states, 7))
    requires k == SHIFTS * constant && w == Pack(words)
    ensures newA == Pack(Lane(NextStates(states, constant, words), 0))
    ensures newE == Pack(Lane(NextStates(states, constant, words), 4))
  {
    hide Pack, Lane, NextStates, RotateXorLanes, ChLanes, MajLanes, And, Felt;
    var s0 := RotateXorPacked(a, 2, 13, 22, Lane(states, 0));
    var s1 := RotateXorPacked(e, 6, 11, 25, Lane(states, 4));
    var ch := Choose(e, f, g, Lane(states, 4), Lane(states, 5), Lane(states, 6));
    var maj := MajorityPacked(a, b, c, Lane(states, 0), Lane(states, 1), Lane(states, 2));
    RoundFelts(states, constant, words);
    var temp1 := Felt(h + s1 + ch + k + w);
    var temp2 := Felt(s0 + maj);
    newA := AndBuiltin(Felt(temp1 + temp2), MASK_32_ONES);
    newE := AndBuiltin(Felt(d + temp1), MASK_32_ONES);
  }

  lemma MovedRegisters(states: seq<State>, k: Word, w: seq<Word>)
    requires |states| == |w| == LANES
    ensures var next := NextStates(states, k, w);
      && Lane(next, 1) == Lane(states, 0) && Lane(next, 2) == Lane(states, 1) && Lane(next, 3) == Lane(states, 2)
      && Lane(next, 5) == Lane(states, 4) && Lane(next, 6) == Lane(states, 5) && Lane(next, 7) == Lane(states, 6)
  {
    hide RotateXor, Ch, Majority;
    var next := NextStates(states, k, w);
    forall j | 0 <= j < LANES
      ensures next[j].b == states[j].a && next[j].c == states[j].b && next[j].d == states[j].c
      ensures next[j].f == states[j].e && next[j].g == states[j].f && next[j].h == states[j].g
    {
      var n := Round(states[j], k, w[j]);
    }
  }

  lemma RoundsAdvance(states: seq<State>, messages: seq<seq<Word>>, n: nat)
    requires |states| == LANES && SevenMessages(messages) && n < 64
    ensures AllRounds(states, messages, n + 1)
            == NextStates(AllRounds(states, messages, n), K()[n], Column(messages, n))
    ensures AllRounds(states, messages, 0) == states
  {
    hide K, Round, Scheduled;
    forall j | 0 <= j < LANES
      ensures AllRounds(states, messages, n + 1)[j]
              == NextStates(AllRounds(states, messages, n), K()[n], Column(messages, n))[j]
    {
    }
  }

  /** The masked sum of two packed registers. */
  method AddPacked(x: nat, y: nat, ghost v: seq<Word>, ghost w: seq<Word>, ghost z: seq<Word>) returns (r: nat)
    requires |v| == |w| == |z| == LANES && x == Pack(v) && y == Pack(w)
    requires forall j :: 0 <= j < LANES ==> z[j] == (v[j] + w[j]) % WORD
    ensures r == Pack(z)
  {
    hide Pack, And, SumPacks, LaneSum, Felt;
    TwoSummands(v, w);
    WordLanes(v);
    WordLanes(w);
    SumMasked([v, w]);
    assert Lows(LaneSums([v, w])) == z;
    r := AndBuiltin(Felt(x + y), MASK_32_ONES);
  }

  predicate PackedState(s: seq<nat>, states: seq<State>) {
    |s| == 8 && forall r :: 0 <= r < 8 ==> s[r] == Pack(Lane(states, r))
  }

  lemma CompressedLane(states: seq<State>, messages: seq<seq<Word>>, r: nat)
    requires |states| == LANES && SevenMessages(messages) && r < 8
    ensures forall j :: 0 <= j < LANES ==>
      Lane(AllCompressed(states, messages), r)[j]
      == (Lane(states, r)[j] + Lane(AllRounds(states, messages, 64), r)[j]) % WORD
  {
    hide Rounds;
  }

  function InAllLanes(k: Word): nat {
    SHIFTS * k
  }

  /** Each constant in all lanes. */
  predicate AreRoundConstants(constants: seq<nat>) {
    |constants| == 64 && forall t :: 0 <= t < 64 ==> constants[t] == InAllLanes(K()[t])
  }

  /** Compress one block of all seven instances. */
  method Sha2Compress(state: seq<nat>, message: seq<nat>, roundConstants: seq<nat>,
                      ghost states: seq<State>, ghost messages: seq<seq<Word>>) returns (res: seq<nat>)
    requires |states| == LANES && SevenMessages(messages) && PackedState(state, states)
    requires |message| == 64 && forall t :: 0 <= t < 64 ==> message[t] == Pack(Column(messages, t))
    requires AreRoundConstants(roundConstants)
    ensures PackedState(res, AllCompressed(states, messages))
  {
    hide Pack, Lane, Column, K, AllRounds, AllCompressed, NextStates;
    var a, b, c, d := state[0], state[1], state[2], state[3];
    var e, f, g, h := state[4], state[5], state[6], state[7];
    var n := 64;
    ghost var rounds := AllRounds(states, messages, 0);
    RoundsAdvance(states, messages, 0);
    while n != 0
      invariant 0 <= n <= 64 && |rounds| == LANES && rounds == AllRounds(states, messages, 64 - n)
      invariant PackedState([a, b, c, d, e, f, g, h], rounds)
    {
      ghost var t, constant, words := 64 - n, K()[64 - n], Column(messages, 64 - n);
      assert PackedRegisters(a, b, c, d, e, f, g, h, rounds) by { UnpackState(a, b, c, d, e, f, g, h, rounds); }
      var newA, newE := RoundPacked(a, b, c, d, e, f, g, h, roundConstants[64 - n], message[64 - n], rounds, constant,
                                    words);
      RoundsAdvance(states, messages, 64 - n);
      MovedRegisters(rounds, constant, words);
      rounds := NextStates(rounds, constant, words);
      a, b, c, d, e, f, g, h := newA, a, b, c, newE, e, f, g;
      n := n - 1;
      PackState(a, b, c, d, e, f, g, h, rounds);
    }
    UnpackState(a, b, c, d, e, f, g, h, rounds);
    var last := [a, b, c, d, e, f, g, h];
    res := [];
    for r := 0 to 8
      invariant |res| == r
      invariant forall i :: 0 <= i < r ==> res[i] == Pack(Lane(AllCompressed(states, messages), i))
    {
      CompressedLane(states, messages, r);
      var sum := AddPacked(state[r], last[r], Lane(states, r), Lane(rounds, r),
                           Lane(AllCompressed(states, messages), r));
      res := res + [sum];
    }
  }

  predicate PackedRegisters(a: nat, b: nat, c: nat, d: nat, e: nat, f: nat, g: nat, h: nat, states: seq<State>) {
    && a == Pack(Lane(states, 0)) && b == Pack(Lane(states, 1))
    && c == Pack(Lane(states, 2)) && d == Pack(Lane(states, 3))
    && e == Pack(Lane(states, 4)) && f == Pack(Lane(states, 5))
    && g == Pack(Lane(states, 6)) && h == Pack(Lane(states, 7))
  }

  lemma UnpackState(a: nat, b: nat, c: nat, d: nat, e: nat, f: nat, g: nat, h: nat, states: seq<State>)
    requires PackedState([a, b, c, d, e, f, g, h], states)
    ensures PackedRegisters(a, b, c, d, e, f, g, h, states)
  {
    hide Pack, Lane;
    var s := [a, b, c, d, e, f, g, h];
    assert s[0] == a && s[1] == b && s[2] == c && s[3] == d && s[4] == e && s[5] == f && s[6] == g && s[7] == h;
  }

  lemma PackState(a: nat, b: nat, c: nat, d: nat, e: nat, f: nat, g: nat, h: nat, states: seq<State>)
    requires PackedRegisters(a, b, c, d, e, f, g, h, states)
    ensures PackedState([a, b, c, d, e, f, g, h], states)
  {
    hide Pack, Lane;
  }

  // ------------------------------------------------------------------------
  // The packed result determines every lane
  // ------------------------------------------------------------------------

  lemma {:induction false} PackInjective(v: seq<nat>, w: seq<nat>)
    requires |v| == |w| && InLanes(v) && InLanes(w) && Pack(v) == Pack(w)
    ensures v == w
  {
    if v != [] {
      QuotientIs(Pack(v), LANE, Pack(v[1..]), v[0]);
      QuotientIs(Pack(w), LANE, Pack(w[1..]), w[0]);
      PackInjective(v[1..], w[1..]);
      assert v == [v[0]] + v[1..] && w == [w[0]] + w[1..];
    }
  }

  /** Seven claimed words pack to the result in a register if and only if each is its instance's own. */
  lemma OutputAccepted(states: seq<State>, messages: seq<seq<Word>>, r: nat, claimed: seq<Word>)
    requires |states| == |claimed| == LANES && SevenMessages(messages) && r < 8
    ensures Pack(claimed) == Pack(Lane(AllCompressed(states, messages), r))
            <==> forall j :: 0 <= j < LANES ==> claimed[j] == Register(Compress(states[j], messages[j]), r)
  {
    hide Pack, Compress;
    var result := Lane(AllCompressed(states, messages), r);
    if Pack(claimed) == Pack(result) { PackInjective(claimed, result); }
    assert (forall j :: 0 <= j < LANES ==> claimed[j] == Register(Compress(states[j], messages[j]), r))
           ==> claimed == result;
  }
}
