/**
  The chain of block headers: work, difficulty, and the state that every accepted header leads to.
*/
module HeaderChain {
  import opened Wrappers
  import opened Arithmetic
  import opened Octets
  import opened TargetBits
  import opened MedianTime
  import opened StarkPrime

  const EXPECTED_EPOCH_TIMESPAN: nat := 60 * 60 * 24 * 14
  const BLOCKS_PER_EPOCH: nat := 2016
  // 2^256
  const UINT256: nat := 0x1_0000_0000_0000_0000_0000_0000_0000_0000_0000_0000_0000_0000_0000_0000_0000_0000
  // 2^224: a hash whose most significant uint32 is zero lies below it
  const HASH_LIMIT: nat := 0x1_0000_0000_0000_0000_0000_0000_0000_0000_0000_0000_0000_0000_0000_0000

  // ------------------------------------------------------------------------
  // Work
  // ------------------------------------------------------------------------

  /** `compute_work_from_target`, with its operations on 256 bits and its result as a felt. */
  function ComputeWork(target: nat): Option<nat> {
    var negated := (UINT256 - target) % UINT256;
    var complement := (negated - 1) % UINT256;
    if target == 0 then None else Some((complement / target + 1) % UINT256 % P)
  }

  /** The number of 256-bit hashes, the largest excepted, for each that meets the target. */
  function WorkOf(target: nat): nat
    requires target > 0
  {
    (UINT256 - 1) / target
  }

  lemma QuotientStep(a: nat, t: nat)
    requires t > 0 && a >= t
    ensures (a - t) / t + 1 == a / t
  {
    var q := (a - t) / t;
    assert a == (q + 1) * t + (a - t) % t;
    QuotientIs(a, t, q + 1, (a - t) % t);
  }

  lemma QuotientBelow(a: nat, t: nat)
    requires t > 0
    ensures a / t <= a
  {
    LessTimes(1, t, a / t);
  }

  lemma WorkIs(target: nat)
    requires 0 < target < UINT256
    ensures WorkOf(target) < UINT256 && ComputeWork(target) == Some(WorkOf(target) % P)
  {
    QuotientBelow(UINT256 - 1, target);
    QuotientIs(WorkOf(target), UINT256, 0, WorkOf(target));
    QuotientIs(UINT256 - target, UINT256, 0, UINT256 - target);
    QuotientIs(UINT256 - target - 1, UINT256, 0, UINT256 - target - 1);
    QuotientStep(UINT256 - 1, target);
  }

  lemma QuotientTimes(a: nat, t: nat, k: nat)
    requires t > 0
    ensures a / t >= k <==> a >= k * t
  {
    var q := a / t;
    assert a == q * t + a % t;
    if q >= k { LessTimes(k, q, t); } else { LessTimes(q + 1, k, t); LessTimes(q, q, t); }
  }

  /** The felt is the work, unless the target is below 32 and the work does not fit into a felt. */
  lemma WorkFits(target: nat)
    requires 0 < target < UINT256
    ensures ComputeWork(target) == Some(WorkOf(target)) <==> target >= 32
  {
    hide ComputeWork;
    WorkIs(target);
    var w := WorkOf(target);
    QuotientTimes(UINT256 - 1, target, P);
    QuotientTimes(UINT256 - 1, target, UINT256);
    if target >= 32 {
      LessTimes(32, target, P);
      QuotientIs(w, P, 0, w);
    } else {
      LessTimes(target, 31, P);
    }
    QuotientIs(w, UINT256, 0, w);
  }

  /** The work is the quotient of 2^256 by the target plus one exactly if the remainder makes up for the quotient. */
  lemma WorkOfNextTarget(target: nat)
    requires 0 < target < UINT256
    ensures WorkOf(target) == UINT256 / (target + 1) <==> WorkOf(target) <= (UINT256 - 1) % target + 1
  {
    hide WorkOf;
    QuotientByNext(UINT256 - 1, target);
    WorkIsQuotient(target);
  }

  lemma WorkIsQuotient(target: nat)
    requires target > 0
    ensures WorkOf(target) == (UINT256 - 1) / target
  {
  }

  lemma QuotientByNext(a: nat, t: nat)
    requires t > 0
    ensures a / t == (a + 1) / (t + 1) <==> a / t <= a % t + 1
  {
    var q, r := a / t, a % t;
    assert a == q * t + r;
    assert q * (t + 1) == q * t + q;
    var n, d := a + 1, t + 1;
    assert n == q * d + (r + 1 - q);
    QuotientTimes(n, d, q);
    if q <= r + 1 { QuotientIs(n, d, q, r + 1 - q); }
  }

  /** They differ for the target 32, where the division by the target gives more. */
  lemma WorkDiffersAt32()
    ensures WorkOf(32) > UINT256 / 33
  {
  }

  // ------------------------------------------------------------------------
  // Difficulty
  // ------------------------------------------------------------------------

  datatype Header = Header(prevHash: int, time: nat, bits: nat, hash: nat)

  /** The height is -1 before the first block. */
  datatype ChainState = ChainState(height: int, totalWork: nat, bestHash: int, currentTarget: nat,
                                   epochStartTime: nat, prevTimestamps: seq<int>)

  function Clamped(timespan: int): nat {
    if EXPECTED_EPOCH_TIMESPAN * 4 <= timespan then EXPECTED_EPOCH_TIMESPAN * 4
    else if timespan <= EXPECTED_EPOCH_TIMESPAN / 4 then EXPECTED_EPOCH_TIMESPAN / 4
    else timespan
  }

  /** The timespan is a felt, so an epoch that ends before it starts seems to take very long. */
  function Timespan(time: nat, start: nat): nat {
    Clamped((time - start) % P)
  }

  /** The felt's timespan is the clamped difference if and only if the epoch does not end before it starts. */
  lemma TimespanIs(time: nat, start: nat)
    requires time < 0x1_0000_0000 && start < 0x1_0000_0000
    ensures Timespan(time, start) == Clamped(time - start) <==> time >= start
  {
    if time >= start {
      QuotientIs(time - start, P, 0, time - start);
    } else {
      QuotientIs(time - start, P, -1, time - start + P);
    }
  }

  /** The target before rounding, computed modulo 2^256. */
  function Scaled(target: nat, timespan: nat): nat {
    (target * timespan) % UINT256 / EXPECTED_EPOCH_TIMESPAN
  }

  predicate EpochEnds(height: int) {
    height % BLOCKS_PER_EPOCH == BLOCKS_PER_EPOCH - 1
  }

  /** `adjust_difficulty`: the next compact target and the start of the epoch. */
  function AdjustDifficulty(height: int, time: nat, s: ChainState): Option<(nat, nat)> {
    if !EpochEnds(height) then Some((s.currentTarget, s.epochStartTime)) else
    match BitsToTarget(s.currentTarget)
    case None => None
    case Some(target) =>
      var next := Scaled(target, Timespan(time, s.epochStartTime));
      Some((if next <= MAX_TARGET then Encode(next) else MAX_BITS, time))
  }

  /** The product does not overflow, and the scaled target is between a quarter and four times the old one. */
  lemma ScaledIs(target: nat, timespan: nat)
    requires target <= MAX_TARGET && EXPECTED_EPOCH_TIMESPAN / 4 <= timespan <= EXPECTED_EPOCH_TIMESPAN * 4
    ensures target * timespan < UINT256
    ensures Scaled(target, timespan) == target * timespan / EXPECTED_EPOCH_TIMESPAN
    ensures target / 4 <= Scaled(target, timespan) <= 4 * target
  {
    var product := target * timespan;
    Between(target, EXPECTED_EPOCH_TIMESPAN / 4, timespan, EXPECTED_EPOCH_TIMESPAN * 4);
    QuotientIs(product, UINT256, 0, product);
    Quarter(target, product);
  }

  lemma Between(t: nat, low: nat, x: nat, high: nat)
    requires low <= x <= high
    ensures t * low <= t * x <= t * high
  {
  }

  lemma Quarter(t: nat, product: nat)
    requires t * (EXPECTED_EPOCH_TIMESPAN / 4) <= product <= t * (EXPECTED_EPOCH_TIMESPAN * 4)
    ensures t / 4 <= product / EXPECTED_EPOCH_TIMESPAN <= 4 * t
  {
  }

  // ------------------------------------------------------------------------
  // One header
  // ------------------------------------------------------------------------

  /** `validate_and_apply_block_header` */
  function Applied(s: ChainState, h: Header): Option<ChainState>
    requires |s.prevTimestamps| == TIMESTAMP_COUNT
  {
    match BitsToTarget(h.bits)
    case None => None
    case Some(target) =>
      if s.bestHash == h.prevHash && h.hash < HASH_LIMIT && h.hash <= target
         && s.currentTarget == h.bits && Median(s.prevTimestamps) <= h.time then
        match (AdjustDifficulty(s.height + 1, h.time, s), ComputeWork(target))
        case (Some((bits, start)), Some(work)) =>
          Some(ChainState(s.height + 1, (s.totalWork + work) % P, h.hash, bits, start,
                          NextTimestamps(s.prevTimestamps, h.time)))
        case _ => None
      else None
  }

  /** What every reachable state has. */
  ghost predicate Sound(s: ChainState) {
    && |s.prevTimestamps| == TIMESTAMP_COUNT && s.height >= -1
    && Normal(s.currentTarget) && s.currentTarget <= MAX_BITS && Decoded(s.currentTarget) <= MAX_TARGET
  }

  lemma TargetIs(bits: nat)
    ensures bits <= MAX_BITS ==> BitsToTarget(bits) == Some(Decoded(bits))
    ensures bits > MAX_BITS ==> BitsToTarget(bits) == None
  {
    if bits <= MAX_BITS { FieldsOf(bits); }
  }

  /** What the retarget after a block of the given time does. */
  ghost predicate Retargeted(s: ChainState, time: nat, bits: nat, start: nat) {
    var before, timespan := Decoded(s.currentTarget), Timespan(time, s.epochStartTime);
    var scaled := before * timespan / EXPECTED_EPOCH_TIMESPAN;
    && EXPECTED_EPOCH_TIMESPAN / 4 <= timespan <= EXPECTED_EPOCH_TIMESPAN * 4
    && before * timespan < UINT256 && before / 4 <= scaled <= 4 * before && start == time
    && if scaled > MAX_TARGET then bits == MAX_BITS
       else Decoded(bits) <= scaled && (scaled - Decoded(bits)) * 0x8000 <= scaled
  }

  lemma EncodedIsSound(t: nat)
    requires t <= MAX_TARGET
    ensures var bits := Encode(t);
      && Normal(bits) && bits <= MAX_BITS && Decoded(bits) <= t && (t - Decoded(bits)) * 0x8000 <= t
  {
    hide Decoded, Encode, Normal;
    EncodeInRange(t);
    if t > 0 {
      EncodeDecode(t);
    } else {
      EncodeZero();
      DecodeZero();
    }
  }

  lemma EncodeZero()
    ensures Encode(0) == 0 && Normal(0)
  {
  }

  lemma MaxIsSound()
    ensures Normal(MAX_BITS) && Decoded(MAX_BITS) <= MAX_TARGET
  {
    hide Decoded, Encode, Normal;
    EncodedIsSound(MAX_TARGET);
    EncodeMax();
  }

  /** The next compact target is sound, and changes only at the end of an epoch. */
  lemma AdjustKeeps(height: int, time: nat, s: ChainState)
    requires Sound(s)
    ensures AdjustDifficulty(height, time, s).Some?
    ensures var (bits, start) := AdjustDifficulty(height, time, s).value;
      && Normal(bits) && bits <= MAX_BITS && Decoded(bits) <= MAX_TARGET
      && if EpochEnds(height) then Retargeted(s, time, bits, start)
         else bits == s.currentTarget && start == s.epochStartTime
  {
    hide Decoded, Encode, Normal, Scaled, Timespan;
    TargetIs(s.currentTarget);
    var target, timespan := Decoded(s.currentTarget), Timespan(time, s.epochStartTime);
    TimespanBounds(time, s.epochStartTime);
    ScaledIs(target, timespan);
    MaxIsSound();
    if Scaled(target, timespan) <= MAX_TARGET { EncodedIsSound(Scaled(target, timespan)); }
  }

  lemma TimespanBounds(time: nat, start: nat)
    ensures EXPECTED_EPOCH_TIMESPAN / 4 <= Timespan(time, start) <= EXPECTED_EPOCH_TIMESPAN * 4
  {
  }

  /** One accepted header: the state stays sound, and the target changes only at the end of an epoch. */
  lemma HeaderKeeps(s: ChainState, h: Header)
    requires Sound(s) && Applied(s, h).Some?
    ensures var t := Applied(s, h).value;
      && Sound(t) && t.height == s.height + 1 && t.bestHash == h.hash
      && h.prevHash == s.bestHash && h.bits == s.currentTarget && h.hash <= Decoded(h.bits)
      && Decoded(h.bits) > 0 && t.totalWork == (s.totalWork + WorkOf(Decoded(h.bits))) % P
      && (if EpochEnds(t.height) then Retargeted(s, h.time, t.currentTarget, t.epochStartTime)
          else t.currentTarget == s.currentTarget && t.epochStartTime == s.epochStartTime)
      && Median(s.prevTimestamps) <= h.time && Median(s.prevTimestamps) <= Median(t.prevTimestamps)
  {
    hide Decoded, Encode, Normal, ComputeWork, Median, WorkOf, AdjustDifficulty, EpochEnds, Retargeted;
    TargetIs(h.bits);
    var target := Decoded(h.bits);
    NoWork();
    assert target > 0;
    WorkIs(target);
    AddRemainder(s.totalWork, WorkOf(target), P);
    MedianNeverDecreases(s.prevTimestamps, h.time);
    AdjustKeeps(s.height + 1, h.time, s);
  }

  lemma AddRemainder(s: nat, x: nat, m: nat)
    requires m > 0
    ensures (s + x % m) % m == (s + x) % m
  {
    ModAdd(s, x % m, m);
    ModAdd(s, x, m);
    QuotientIs(x % m, m, 0, x % m);
  }

  lemma NoWork()
    ensures ComputeWork(0) == None
  {
  }

  // ------------------------------------------------------------------------
  // Every run of headers
  // ------------------------------------------------------------------------

  function Chain(s: ChainState, headers: seq<Header>): (r: Option<ChainState>)
    requires |s.prevTimestamps| == TIMESTAMP_COUNT
    ensures r.Some? ==> |r.value.prevTimestamps| == TIMESTAMP_COUNT
  {
    if headers == [] then Some(s) else
    match Chain(s, headers[..|headers| - 1])
    case None => None
    case Some(t) => Applied(t, headers[|headers| - 1])
  }

  /** The work of the headers, each by the target that its own compact form spells out. */
  function TotalWork(headers: seq<Header>): nat
    requires forall i :: 0 <= i < |headers| ==> Decoded(headers[i].bits) > 0
  {
    if headers == [] then 0
    else TotalWork(headers[..|headers| - 1]) + WorkOf(Decoded(headers[|headers| - 1].bits))
  }

  lemma AddModulo(s: nat, x: nat, y: nat, m: nat)
    requires m > 0
    ensures ((s + x) % m + y % m) % m == (s + (x + y)) % m
  {
    ModAdd(s + x, y, m);
  }

  /** After every accepted run the state is sound, and the total work is the sum of the blocks' work, as a felt. */
  lemma {:induction false} ChainKeeps(s: ChainState, headers: seq<Header>)
    requires Sound(s) && Chain(s, headers).Some?
    ensures var t := Chain(s, headers).value;
      && Sound(t) && t.height == s.height + |headers|
      && (forall i :: 0 <= i < |headers| ==> Decoded(headers[i].bits) > 0)
      && t.totalWork % P == (s.totalWork + TotalWork(headers)) % P
      && Median(s.prevTimestamps) <= Median(t.prevTimestamps)
    decreases |headers|
  {
    hide Decoded, Applied, Normal, Median, WorkOf;
    if headers != [] {
      var n := |headers| - 1;
      ChainKeeps(s, headers[..n]);
      var t := Chain(s, headers[..n]).value;
      HeaderKeeps(t, headers[n]);
      var work := WorkOf(Decoded(headers[n].bits));
      forall i | 0 <= i < |headers| ensures Decoded(headers[i].bits) > 0 {
        if i < n { assert headers[..n][i] == headers[i]; }
      }
      WorkStep(s.totalWork, t.totalWork, TotalWork(headers[..n]), work, P);
    }
  }

  lemma WorkStep(s: nat, t: nat, x: nat, y: nat, m: nat)
    requires m > 0 && t % m == (s + x) % m
    ensures (t + y) % m % m == (s + (x + y)) % m
  {
    ModAdd(t, y, m);
    AddModulo(s, x, y, m);
    ModAdd((s + x) % m, y, m);
    QuotientIs(t % m, m, 0, t % m);
    QuotientIs((t + y) % m, m, 0, (t + y) % m);
  }

  /** Within an epoch neither the target nor the start of the epoch changes. */
  lemma {:induction false} EpochIsConstant(s: ChainState, headers: seq<Header>)
    requires Sound(s) && Chain(s, headers).Some?
    requires forall k :: s.height < k <= s.height + |headers| ==> !EpochEnds(k)
    ensures var t := Chain(s, headers).value;
      t.currentTarget == s.currentTarget && t.epochStartTime == s.epochStartTime
    ensures forall i :: 0 <= i < |headers| ==> headers[i].bits == s.currentTarget
    decreases |headers|
  {
    hide Decoded, Applied, Normal, Median, WorkOf, EpochEnds, Retargeted;
    if headers != [] {
      var n := |headers| - 1;
      EpochIsConstant(s, headers[..n]);
      ChainKeeps(s, headers[..n]);
      HeaderKeeps(Chain(s, headers[..n]).value, headers[n]);
      forall i | 0 <= i < |headers| ensures headers[i].bits == s.currentTarget {
        if i < n { assert headers[..n][i] == headers[i]; }
      }
    }
  }

  /** The state before the first block. */
  const INITIAL_STATE: ChainState := ChainState(-1, 0, 0, 0x1d00_FFFF, 1231006505, seq(11, _ => 0))

  lemma InitialStateIsSound()
    ensures Sound(INITIAL_STATE)
  {
    hide Normal, Decoded;
    MaxIsSound();
  }

  /** From the initial state, the stored work is the sum of the blocks' work exactly while that fits into a felt. */
  lemma TotalWorkIsExact(headers: seq<Header>)
    requires Chain(INITIAL_STATE, headers).Some?
    ensures forall i :: 0 <= i < |headers| ==> Decoded(headers[i].bits) > 0
    ensures Chain(INITIAL_STATE, headers).value.totalWork == TotalWork(headers) <==> TotalWork(headers) < P
  {
    hide Decoded, Chain, Sound, TotalWork;
    InitialStateIsSound();
    ChainKeeps(INITIAL_STATE, headers);
    WorkIsFelt(headers);
    Residue(Chain(INITIAL_STATE, headers).value.totalWork, TotalWork(headers), P);
  }

  lemma WorkIsFelt(headers: seq<Header>)
    requires Chain(INITIAL_STATE, headers).Some?
    ensures Chain(INITIAL_STATE, headers).value.totalWork < P
  {
    hide Decoded, Median, AdjustDifficulty, ComputeWork, BitsToTarget;
  }

  lemma Residue(x: nat, y: nat, m: nat)
    requires x < m && x % m == (0 + y) % m
    ensures x == y <==> y < m
  {
    QuotientIs(x, m, 0, x);
    if y < m { QuotientIs(y, m, 0, y); }
  }

  // ------------------------------------------------------------------------
  // What is accepted, and what it does, in numbers
  // ------------------------------------------------------------------------

  /** A header is accepted exactly if it extends the chain, meets the target it must have, and is not too early. */
  lemma AcceptedExactly(s: ChainState, h: Header)
    requires Sound(s)
    ensures Applied(s, h).Some? <==>
      && h.prevHash == s.bestHash && h.bits == s.currentTarget
      && h.hash <= Decoded(h.bits) && Decoded(h.bits) > 0 && Median(s.prevTimestamps) <= h.time
  {
    hide Decoded, Encode, Normal, ComputeWork, Median, AdjustDifficulty, EpochEnds, Retargeted;
    TargetIs(h.bits);
    AdjustKeeps(s.height + 1, h.time, s);
    NoWork();
    SomeWork(Decoded(h.bits));
  }

  lemma SomeWork(target: nat)
    ensures ComputeWork(target).Some? <==> target > 0
  {
  }

  /** The target that a timespan of `d` seconds scales `target` to, before rounding. */
  function RetargetedBy(target: nat, d: int): nat {
    if d < 302_400 then target * 302_400 / 1_209_600
    else if d > 4_838_400 then 4 * target
    else target * d / 1_209_600
  }

  /** The compact target stands for `scaled`, cut off at the largest target and rounded by less than 2^-15. */
  predicate StandsFor(bits: nat, scaled: nat) {
    if scaled > MAX_TARGET then bits == MAX_BITS
    else bits == Encode(scaled) && Decoded(bits) <= scaled && (scaled - Decoded(bits)) * 0x8000 <= scaled
  }

  /**
    The last block of every 2016 scales the target by the time since the epoch's start over two weeks, within a
    factor of four; no other block changes the target.
  */
  lemma RetargetExactly(s: ChainState, h: Header)
    requires Sound(s) && Applied(s, h).Some? && s.epochStartTime <= h.time < 0x1_0000_0000
    ensures var t := Applied(s, h).value;
      if t.height % 2016 == 2015 then
        t.epochStartTime == h.time
        && StandsFor(t.currentTarget, RetargetedBy(Decoded(s.currentTarget), h.time - s.epochStartTime))
      else t.epochStartTime == s.epochStartTime && t.currentTarget == s.currentTarget
  {
    hide Decoded, Encode, Normal, ComputeWork, Median, Scaled, Timespan;
    TargetIs(s.currentTarget);
    var target, d := Decoded(s.currentTarget), h.time - s.epochStartTime;
    TimespanInNumbers(h.time, s.epochStartTime);
    TimespanBounds(h.time, s.epochStartTime);
    ScaledIs(target, Timespan(h.time, s.epochStartTime));
    EightWeeks(target);
    var scaled := Scaled(target, Timespan(h.time, s.epochStartTime));
    assert scaled == RetargetedBy(target, d);
    if scaled <= MAX_TARGET { EncodedIsSound(scaled); }
  }

  lemma TimespanInNumbers(time: nat, start: nat)
    requires start <= time < 0x1_0000_0000
    ensures var d := time - start;
      Timespan(time, start) == if d < 302_400 then 302_400 else if d > 4_838_400 then 4_838_400 else d
  {
    QuotientIs(time - start, P, 0, time - start);
  }

  lemma EightWeeks(target: nat)
    ensures target * 4_838_400 / 1_209_600 == 4 * target
  {
    QuotientIs(target * 4_838_400, 1_209_600, 4 * target, 0);
  }

  /**
    A whole epoch: all its blocks have the target that it starts with, and the next target follows from the times
    of the last blocks of this epoch and of the one before.
  */
  lemma WholeEpoch(s: ChainState, headers: seq<Header>)
    requires Sound(s) && s.height % 2016 == 2015 && |headers| == 2016 && Chain(s, headers).Some?
    requires s.epochStartTime <= headers[2015].time < 0x1_0000_0000
    ensures var t, d := Chain(s, headers).value, headers[2015].time - s.epochStartTime;
      && (forall i :: 0 <= i < 2016 ==> headers[i].bits == s.currentTarget)
      && t.epochStartTime == headers[2015].time && t.height % 2016 == 2015
      && StandsFor(t.currentTarget, RetargetedBy(Decoded(s.currentTarget), d))
  {
    hide Applied, Normal, Chain, Decoded, StandsFor, RetargetedBy, EpochEnds, Retargeted, TotalWork;
    var first := headers[..2015];
    InsideEpoch(s.height);
    LastAccepted(s, headers);
    EpochIsConstant(s, first);
    ChainKeeps(s, first);
    var t := Chain(s, first).value;
    HeaderKeeps(t, headers[2015]);
    RetargetExactly(t, headers[2015]);
    forall i | 0 <= i < 2016 ensures headers[i].bits == s.currentTarget {
      if i < 2015 { assert first[i] == headers[i]; }
    }
  }

  lemma InsideEpoch(height: int)
    requires height % 2016 == 2015
    ensures forall k :: height < k <= height + 2015 ==> !EpochEnds(k)
  {
    forall k | height < k <= height + 2015 ensures !EpochEnds(k) {
      QuotientIs(k, 2016, height / 2016 + 1, k - height - 1);
    }
  }

  /** The window holds the times of the last eleven blocks, the newest first. */
  lemma {:induction false} WindowHolds(s: ChainState, headers: seq<Header>)
    requires |s.prevTimestamps| == 11 && Chain(s, headers).Some?
    ensures var window, n := Chain(s, headers).value.prevTimestamps, |headers|;
      && |window| == 11
      && forall i :: 0 <= i < 11 ==> window[i] == if i < n then headers[n - 1 - i].time else s.prevTimestamps[i - n]
    decreases |headers|
  {
    hide Median, AdjustDifficulty, ComputeWork, BitsToTarget;
    if headers != [] {
      WindowHolds(s, headers[..|headers| - 1]);
    }
  }

  lemma {:induction false} ChainPrefix(s: ChainState, headers: seq<Header>, n: nat)
    requires |s.prevTimestamps| == 11 && Chain(s, headers).Some? && n <= |headers|
    ensures Chain(s, headers[..n]).Some?
    decreases |headers|
  {
    hide Applied;
    if n == |headers| {
      assert headers[..n] == headers;
    } else {
      var front := headers[..|headers| - 1];
      ChainPrefix(s, front, n);
      assert front[..n] == headers[..n];
    }
  }

  /** The times of the eleven headers before header `k`, the newest first. */
  function TimesBefore(headers: seq<Header>, k: nat): (times: seq<int>)
    requires 11 <= k <= |headers|
    ensures |times| == 11
  {
    seq(11, i requires 0 <= i < 11 => headers[k - 1 - i].time)
  }

  lemma WindowIsTimes(s: ChainState, headers: seq<Header>, k: nat)
    requires |s.prevTimestamps| == 11 && 11 <= k <= |headers| && Chain(s, headers[..k]).Some?
    ensures Chain(s, headers[..k]).value.prevTimestamps == TimesBefore(headers, k)
  {
    hide Chain;
    WindowHolds(s, headers[..k]);
  }

  /** From the twelfth block on, no block is earlier than the median of the eleven before it. */
  lemma TimesFollowMedian(s: ChainState, headers: seq<Header>, k: nat)
    requires |s.prevTimestamps| == 11 && Chain(s, headers).Some? && 11 <= k < |headers|
    ensures Median(TimesBefore(headers, k)) <= headers[k].time
  {
    hide Median, Chain, TimesBefore, Applied;
    ChainPrefix(s, headers, k + 1);
    LastAccepted(s, headers[..k + 1]);
    assert headers[..k + 1][..k] == headers[..k];
    WindowIsTimes(s, headers, k);
  }

  lemma LastAccepted(s: ChainState, headers: seq<Header>)
    requires |s.prevTimestamps| == TIMESTAMP_COUNT && headers != [] && Chain(s, headers).Some?
    ensures var n := |headers| - 1;
      && Chain(s, headers[..n]).Some? && Median(Chain(s, headers[..n]).value.prevTimestamps) <= headers[n].time
      && Chain(s, headers) == Applied(Chain(s, headers[..n]).value, headers[n])
  {
    hide Median, AdjustDifficulty, ComputeWork, BitsToTarget;
  }

  // ------------------------------------------------------------------------
  // An epoch that ends before it starts
  // ------------------------------------------------------------------------

  /** An accepted header that ends an epoch before it started scales the target by four. */
  lemma NegativeTimespanQuadruples(s: ChainState, h: Header)
    requires Sound(s) && Applied(s, h).Some? && EpochEnds(s.height + 1)
    requires h.time < s.epochStartTime < 0x1_0000_0000
    ensures var t, scaled := Applied(s, h).value, 4 * Decoded(s.currentTarget);
      if scaled > MAX_TARGET then t.currentTarget == MAX_BITS
      else Decoded(t.currentTarget) <= scaled && (scaled - Decoded(t.currentTarget)) * 0x8000 <= scaled
  {
    hide Decoded, Encode, Normal, Applied, Median, WorkOf;
    HeaderKeeps(s, h);
    AppliedHeight(s, h);
    QuotientIs(h.time - s.epochStartTime, P, -1, h.time - s.epochStartTime + P);
    FourTimes(Decoded(s.currentTarget));
  }

  lemma AppliedHeight(s: ChainState, h: Header)
    requires |s.prevTimestamps| == TIMESTAMP_COUNT && Applied(s, h).Some?
    ensures Applied(s, h).value.height == s.height + 1
  {
  }

  lemma FourTimes(target: nat)
    ensures target * (EXPECTED_EPOCH_TIMESPAN * 4) / EXPECTED_EPOCH_TIMESPAN == 4 * target
  {
    QuotientIs(target * (EXPECTED_EPOCH_TIMESPAN * 4), EXPECTED_EPOCH_TIMESPAN, 4 * target, 0);
  }

  /** The end of the first epoch, with a target of 2^15. */
  const EARLY_STATE: ChainState := ChainState(2014, 0, 0, 0x0300_8000, 1, seq(11, _ => 0))
  const EARLY_HEADER: Header := Header(0, 0, 0x0300_8000, 0)

  /** Such a header is accepted, one second before its epoch's start, and its target is four times the one before. */
  lemma EarlyHeaderAccepted()
    ensures Sound(EARLY_STATE) && EARLY_HEADER.time < EARLY_STATE.epochStartTime && EpochEnds(EARLY_STATE.height + 1)
    ensures Applied(EARLY_STATE, EARLY_HEADER).Some?
    ensures Decoded(Applied(EARLY_STATE, EARLY_HEADER).value.currentTarget) == 4 * Decoded(EARLY_STATE.currentTarget)
  {
    hide Decoded, Normal, Median, ComputeWork, AdjustDifficulty, Applied;
    SmallCompact(0x8000);
    SmallCompact(0x2_0000);
    var s, h := EARLY_STATE, EARLY_HEADER;
    TargetIs(s.currentTarget);
    MedianOfZeros();
    WorkIs(0x8000);
    EarlyRetarget();
    EarlyApplied();
  }

  /** Compact values with an exponent of three are their significand. */
  lemma SmallCompact(significand: nat)
    requires 0x8000 <= significand < 0x80_0000
    ensures var bits := 3 * EXPONENT_UNIT + significand;
      Normal(bits) && bits <= MAX_BITS && Decoded(bits) == significand && Encode(significand) == bits
  {
    hide Bytes, ByteLength;
    Octets.Powers();
    Joins(3, significand);
    DecodeEncode(3 * EXPONENT_UNIT + significand);
  }

  lemma MedianOfZeros()
    ensures Median(seq(11, _ => 0)) == 0
  {
    var zeros := seq(11, _ => 0);
    MedianCounts(zeros, 0);
    TallyUniform(zeros, MedianTime.Below(0), false);
    TallyUniform(zeros, MedianTime.Above(0), false);
  }

  lemma EarlyRetarget()
    ensures AdjustDifficulty(2015, 0, EARLY_STATE) == Some((0x0302_0000, 0))
  {
    hide Decoded, Normal, Encode;
    SmallCompact(0x8000);
    SmallCompact(0x2_0000);
    TargetIs(0x0300_8000);
    QuotientIs(-1, P, -1, P - 1);
    ScaledIs(0x8000, EXPECTED_EPOCH_TIMESPAN * 4);
    FourTimes(0x8000);
  }

  lemma EarlyApplied()
    requires AdjustDifficulty(2015, 0, EARLY_STATE) == Some((0x0302_0000, 0)) && ComputeWork(0x8000).Some?
    requires BitsToTarget(0x0300_8000) == Some(0x8000) && Median(seq(11, _ => 0)) == 0
    ensures Applied(EARLY_STATE, EARLY_HEADER).Some?
    ensures Applied(EARLY_STATE, EARLY_HEADER).value.currentTarget == 0x0302_0000
  {
    hide AdjustDifficulty, ComputeWork, BitsToTarget, Median;
  }
}
