/**
  Seven 32-bit words in one field element, 35 bits apart. Bitwise operations act on each lane alone, and so
  do sums of words as long as no lane exceeds its 35 bits.
*/
module PackedLanes {
  import opened Arithmetic
  import opened StarkPrime
  import opened Field
  import opened Bits
  import opened Sha256

  const LANE: nat := 0x8_0000_0000
  const LANES: nat := 7
  // 1 + 2^35 + ... + 2^(35 * 6)
  const SHIFTS: nat := 0x40000000080000000100000000200000000400000000800000001
  const ALL_ONES: nat := 0x7FFFFFFFFFFFFFFFFFFFFFFFFFFFFFFFFFFFFFFFFFFFFFFFFFFFFFFFFFFFFFF
  // the bitwise builtin takes operands of 251 bits
  const BITWISE_LIMIT: nat := ALL_ONES + 1

  function Pack(v: seq<int>): int {
    if v == [] then 0 else v[0] + LANE * Pack(v[1..])
  }

  predicate InLanes(v: seq<int>) {
    forall i :: 0 <= i < |v| ==> 0 <= v[i] < LANE
  }

  function Same(x: int, n: nat): (v: seq<int>)
    ensures |v| == n
  {
    seq(n, _ => x)
  }

  function Combined(c: int, v: seq<int>, d: int, w: seq<int>): (r: seq<int>)
    requires |v| == |w|
    ensures |r| == |v|
  {
    seq(|v|, i requires 0 <= i < |v| => c * v[i] + d * w[i])
  }

  lemma {:induction false} PackCombined(c: int, v: seq<int>, d: int, w: seq<int>)
    requires |v| == |w|
    ensures Pack(Combined(c, v, d, w)) == c * Pack(v) + d * Pack(w)
  {
    if v != [] {
      assert Combined(c, v, d, w)[1..] == Combined(c, v[1..], d, w[1..]);
      PackCombined(c, v[1..], d, w[1..]);
      Distribute(c, v[0], Pack(v[1..]), d, w[0], Pack(w[1..]));
    }
  }

  lemma Distribute(c: int, a: int, x: int, d: int, b: int, y: int)
    ensures c * (a + LANE * x) + d * (b + LANE * y) == (c * a + d * b) + LANE * (c * x + d * y)
  {
  }

  lemma LaneSize()
    ensures Pow2(32) == WORD && Pow2(35) == LANE
  {
    WordSize();
    assert Pow2(35) == 2 * Pow2(34) == 4 * Pow2(33) == 8 * Pow2(32);
  }

  lemma {:induction false} PackFits(v: seq<int>)
    requires InLanes(v)
    ensures 0 <= Pack(v) < Pow2(35 * |v|)
  {
    if v != [] {
      PackFits(v[1..]);
      LaneSize();
      PowAdd(2, 35, 35 * (|v| - 1));
      assert Pow2(35 * |v|) == LANE * Pow2(35 * (|v| - 1));
    }
  }

  lemma Sizes()
    ensures Pow2(245) == 0x20000000000000000000000000000000000000000000000000000000000000
    ensures Pow2(245) < BITWISE_LIMIT && Pow2(245) < P
  {
    LaneSize();
    TwoPowers(35, 35, LANE, LANE);
    TwoPowers(70, 70, 0x400000000000000000, 0x400000000000000000);
    TwoPowers(140, 70, 0x100000000000000000000000000000000000, 0x400000000000000000);
    TwoPowers(210, 35, 0x40000000000000000000000000000000000000000000000000000, LANE);
  }

  /** A packed value of seven lanes is in range of the builtin and of the field. */
  lemma PackInRange(v: seq<int>)
    requires |v| == LANES && InLanes(v)
    ensures 0 <= Pack(v) < BITWISE_LIMIT && Pack(v) < P
  {
    PackFits(v);
    Sizes();
  }

  // ------------------------------------------------------------------------
  // Bitwise operations act lane by lane
  // ------------------------------------------------------------------------

  function AndLanes(v: seq<nat>, w: seq<nat>): (r: seq<nat>)
    requires |v| == |w|
    ensures |r| == |v|
  {
    seq(|v|, i requires 0 <= i < |v| => And(v[i], w[i]))
  }

  function XorLanes(v: seq<nat>, w: seq<nat>): (r: seq<nat>)
    requires |v| == |w|
    ensures |r| == |v|
  {
    seq(|v|, i requires 0 <= i < |v| => Xor(v[i], w[i]))
  }

  lemma {:induction false} PackBitwise(v: seq<nat>, w: seq<nat>)
    requires |v| == |w| && InLanes(v) && InLanes(w)
    ensures Pack(v) >= 0 && Pack(w) >= 0
    ensures And(Pack(v), Pack(w)) == Pack(AndLanes(v, w))
    ensures Xor(Pack(v), Pack(w)) == Pack(XorLanes(v, w))
  {
    hide And, Xor;
    if v == [] {
      Zeros(0);
    } else {
      PackFits(v[1..]);
      PackFits(w[1..]);
      PackBitwise(v[1..], w[1..]);
      LaneSize();
      Joined(v[0], Pack(v[1..]), w[0], Pack(w[1..]), 35);
      assert AndLanes(v, w)[1..] == AndLanes(v[1..], w[1..]);
      assert XorLanes(v, w)[1..] == XorLanes(v[1..], w[1..]);
    }
  }

  lemma BitwiseInLanes(v: seq<nat>, w: seq<nat>)
    requires |v| == |w| && InLanes(v) && InLanes(w)
    ensures InLanes(AndLanes(v, w)) && InLanes(XorLanes(v, w))
  {
    hide And, Xor;
    LaneSize();
    forall i | 0 <= i < |v| ensures 0 <= And(v[i], w[i]) < LANE && 0 <= Xor(v[i], w[i]) < LANE {
      Bounded(v[i], w[i], 35);
    }
  }

  /** The shifts put one number into every lane. */
  lemma PackSame(x: int)
    ensures Pack(Same(x, LANES)) == SHIFTS * x
  {
    SameStep(x, 0);
    SameStep(x, 1);
    SameStep(x, 2);
    SameStep(x, 3);
    SameStep(x, 4);
    SameStep(x, 5);
    SameStep(x, 6);
  }

  lemma SameStep(x: int, n: nat)
    ensures Pack(Same(x, 0)) == 0 && Pack(Same(x, n + 1)) == x + LANE * Pack(Same(x, n))
  {
    assert Same(x, n + 1)[1..] == Same(x, n);
  }

  // ------------------------------------------------------------------------
  // Masks
  // ------------------------------------------------------------------------

  /** The mask of the bits from `k` to 31 in every lane. */
  function ShiftMask(k: nat): int {
    SHIFTS * (WORD - Pow2(k))
  }

  const MASK_32_ONES: nat := SHIFTS * (WORD - 1)

  /** What the shift mask leaves of each lane is a multiple of 2^k. */
  function High(v: seq<nat>, k: nat): (r: seq<nat>)
    ensures |r| == |v|
  {
    seq(|v|, i requires 0 <= i < |v| => Shr(v[i], k))
  }

  lemma WordSplits(k: nat)
    requires k <= 32
    ensures Pow2(k) * Pow2(32 - k) == WORD && Pow2(k) <= WORD
  {
    WordSize();
    PowAdd(2, k, 32 - k);
    Ordered(Pow2(k), 1, Pow2(32 - k));
  }

  lemma MaskedLane(x: Word, k: nat)
    requires k <= 32
    ensures Pow2(k) <= WORD && And(x, WORD - Pow2(k)) == Pow2(k) * (x / Pow2(k))
  {
    hide And, Pow2;
    WordSplits(k);
    assert Pow2(k) * (Pow2(32 - k) - 1) == WORD - Pow2(k);
    Masked(x, k, 32 - k);
  }

  lemma ShiftMasked(v: seq<Word>, k: nat)
    requires |v| == LANES && k <= 32
    ensures 0 <= ShiftMask(k) < BITWISE_LIMIT && 0 <= Pack(v) < BITWISE_LIMIT
    ensures And(Pack(v), ShiftMask(k)) == Pow2(k) * Pack(High(v, k))
  {
    hide And, Pow2, Pack;
    WordSplits(k);
    var m: nat := WORD - Pow2(k);
    var mask: seq<nat> := Same(m, LANES);
    PackSame(m);
    PackInRange(v);
    PackInRange(mask);
    PackBitwise(v, mask);
    forall i | 0 <= i < LANES ensures AndLanes(v, mask)[i] == Combined(Pow2(k), High(v, k), 0, High(v, k))[i] {
      MaskedLane(v[i], k);
    }
    assert AndLanes(v, mask) == Combined(Pow2(k), High(v, k), 0, High(v, k));
    PackCombined(Pow2(k), High(v, k), 0, High(v, k));
  }

  function Lows(v: seq<nat>): (r: seq<Word>)
    ensures |r| == |v|
  {
    seq(|v|, i requires 0 <= i < |v| => v[i] % WORD)
  }

  /** The full mask cuts every lane down to its word. */
  lemma FullyMasked(v: seq<nat>)
    requires |v| == LANES && InLanes(v)
    ensures 0 <= Pack(v) < BITWISE_LIMIT && MASK_32_ONES < BITWISE_LIMIT
    ensures And(Pack(v), MASK_32_ONES) == Pack(Lows(v))
  {
    hide And, Pack;
    var mask: seq<nat> := Same(WORD - 1, LANES);
    PackSame(WORD - 1);
    PackInRange(v);
    PackInRange(mask);
    PackBitwise(v, mask);
    WordSize();
    forall i | 0 <= i < LANES ensures AndLanes(v, mask)[i] == Lows(v)[i] {
      LowBits(v[i], 32);
    }
    assert AndLanes(v, mask) == Lows(v);
  }

  // ------------------------------------------------------------------------
  // Division by powers of two
  // ------------------------------------------------------------------------

  /** 1 / 2^k in the field. */
  function InvPow2(k: nat): int {
    P - (P - 1) / Pow2(k)
  }

  function Scaled(u: int, a: int): int {
    u * a
  }

  /** `u` and `m` are inverse to each other. */
  ghost predicate Inverses(u: int, m: int, p: nat)
    requires p > 0
  {
    Zero(Scaled(u, m) - 1, p)
  }

  lemma InvTimesPow2(k: nat)
    requires k <= 64
    ensures Inverses(InvPow2(k), Pow2(k), P)
  {
    hide Pow2, Inverses;
    var m, h := Pow2(k), Pow2(64 - k);
    WordSize();
    TwoPowers(32, 32, WORD, WORD);
    PowAdd(2, k, 64 - k);
    var c := (P - 1) / 0x1_0000_0000_0000_0000;
    assert P - 1 == c * 0x1_0000_0000_0000_0000;
    InvStep(m, h, c, P);
  }

  lemma InvStep(m: nat, h: nat, c: int, p: nat)
    requires m > 0 && p > 0 && p - 1 == c * (m * h)
    ensures Inverses(p - (p - 1) / m, m, p)
  {
    hide Zero;
    assert p - 1 == (c * h) * m by { Regrouped(c, m, h); }
    QuotientIs(p - 1, m, c * h, 0);
    Complement(p, c * h, m);
    ZeroIs((p - c * h) * m - 1, m - 1, p);
  }

  lemma Regrouped(c: int, m: int, h: int)
    ensures c * (m * h) == (c * h) * m
  {
  }

  lemma Complement(p: int, q: int, m: int)
    requires p - 1 == q * m
    ensures (p - q) * m - 1 == (m - 1) * p
  {
  }

  /** The canonical element that equals `x`. */
  function Felt(x: int): nat {
    x % P
  }

  lemma FeltIs(x: int, y: int, p: nat)
    requires p > 0 && Zero(x - y, p) && 0 <= y < p
    ensures x % p == y
  {
    SameResidue(x, y, p);
    QuotientIs(y, p, 0, y);
  }
}
