/**
  SHA-256 on seven packed instances at once. The message schedule is extended in place, and the 64 rounds
  run on packed registers; lane by lane, both are the scalar functions of module Sha256.
*/
module Sha256Packed {
  import opened Arithmetic
  import opened StarkPrime
  import opened Field
  import opened Bits
  import opened Sha256
  import opened PackedLanes

  /** The bitwise builtin: it takes operands of 251 bits only. */
  function AndBuiltin(x: nat, y: nat): nat
    requires x < BITWISE_LIMIT && y < BITWISE_LIMIT
  {
    And(x, y)
  }

  function XorBuiltin(x: nat, y: nat): nat
    requires x < BITWISE_LIMIT && y < BITWISE_LIMIT
  {
    Xor(x, y)
  }

  // ------------------------------------------------------------------------
  // Rotations
  // ------------------------------------------------------------------------

  /** The low bits go up with the factor `c`, and the high bits down with the factor `u`. */
  function Spread(c: int, u: int, w: int, high: int): int {
    c * w + (u - c) * high
  }

  /** Rotate all lanes right: the high bits move down by a division in the field, the low bits up. */
  function Rotated(w: nat, k: nat): nat
    requires w < BITWISE_LIMIT && k <= 32 && 0 <= ShiftMask(k) < BITWISE_LIMIT
  {
    Felt(Spread(Pow2(32 - k), InvPow2(k), w, AndBuiltin(w, ShiftMask(k))))
  }

  function Shifted(w: nat, k: nat): nat
    requires w < BITWISE_LIMIT && 0 <= ShiftMask(k) < BITWISE_LIMIT
  {
    Felt(Scaled(InvPow2(k), AndBuiltin(w, ShiftMask(k))))
  }

  function RotLanes(v: seq<Word>, k: nat): (r: seq<nat>)
    requires k < 32
    ensures |r| == |v|
  {
    seq(|v|, i requires 0 <= i < |v| => RotR(v[i], k))
  }

  /** The two parts of a rotation do not overlap. */
  lemma RotationIsSum(x: Word, k: nat)
    requires k < 32
    ensures RotR(x, k) == Pow2(32 - k) * x + (1 - WORD) * (x / Pow2(k)) < WORD
  {
    hide Pow2;
    var m, c := Pow2(k), Pow2(32 - k);
    WordSplits(k);
    DivMod(x, m);
    RotationParts(x, m, c, x / m, x % m);
  }

  lemma DivMod(x: nat, m: nat)
    requires m > 0
    ensures x == m * (x / m) + x % m && 0 <= x % m < m && x / m >= 0
  {
  }

  lemma RotationParts(x: nat, m: nat, c: nat, q: nat, r: nat)
    requires m > 0 && c > 0 && m * c == WORD && x == m * q + r && r < m && x < WORD
    ensures q + (x * c) % WORD == c * x + (1 - WORD) * q < WORD
  {
    assert x * c == (m * q + r) * c == q * (m * c) + r * c;
    Ordered(c, r, m - 1);
    assert c * (m - 1) == m * c - c;
    if q >= c { Ordered(m, c, q); }
    QuotientIs(x * c, WORD, q, r * c);
  }

  /** In the field, the high bits moved up by `m` and down by its inverse `u` are back in their place. */
  lemma ScaledBack(u: int, m: int, q: int, p: nat)
    requires p > 0 && Inverses(u, m, p) && 0 <= q < p
    ensures Scaled(u, m * q) % p == q
  {
    hide Zero;
    ZeroMultiple(u * m - 1, q, p);
    assert q * (u * m - 1) == u * (m * q) - q;
    FeltIs(u * (m * q), q, p);
  }

  lemma SpreadIs(c: int, u: int, m: int, x: int, q: int, sum: int, p: nat)
    requires p > 0 && Inverses(u, m, p) && sum == c * x + (1 - c * m) * q && 0 <= sum < p
    ensures Spread(c, u, x, m * q) % p == sum
  {
    hide Zero;
    ZeroMultiple(u * m - 1, q, p);
    assert q * (u * m - 1) == u * (m * q) - q;
    assert (u - c) * (m * q) == u * (m * q) - (c * m) * q;
    assert (1 - c * m) * q == q - (c * m) * q;
    FeltIs(c * x + (u - c) * (m * q), sum, p);
  }

  lemma RotLanesSum(v: seq<Word>, k: nat)
    requires |v| == LANES && k < 32
    ensures InLanes(RotLanes(v, k))
    ensures Pack(RotLanes(v, k)) == Pow2(32 - k) * Pack(v) + (1 - WORD) * Pack(High(v, k))
  {
    hide Pack, Pow2, RotR, Shr;
    var c, q := Pow2(32 - k), High(v, k);
    forall i | 0 <= i < LANES ensures RotLanes(v, k)[i] == Combined(c, v, 1 - WORD, q)[i] < LANE {
      RotatedLane(v[i], k);
    }
    assert RotLanes(v, k) == Combined(c, v, 1 - WORD, q);
    PackCombined(c, v, 1 - WORD, q);
  }

  lemma RotatedLane(x: Word, k: nat)
    requires k < 32
    ensures RotR(x, k) == Pow2(32 - k) * x + (1 - WORD) * Shr(x, k) < WORD
  {
    RotationIsSum(x, k);
  }

  /** The rotation of all lanes, modulo any number that is large enough. */
  lemma LanesRotate(v: seq<Word>, k: nat, u: int, p: nat)
    requires |v| == LANES && k < 32 && BITWISE_LIMIT <= p && Inverses(u, Pow2(k), p)
    ensures 0 <= Pack(v) < BITWISE_LIMIT && 0 <= ShiftMask(k) < BITWISE_LIMIT
    ensures InLanes(RotLanes(v, k))
    ensures Spread(Pow2(32 - k), u, Pack(v), And(Pack(v), ShiftMask(k))) % p == Pack(RotLanes(v, k))
  {
    hide Pack, Pow2, And, RotLanes, High, ShiftMask, Inverses, InLanes, Spread;
    ShiftMasked(v, k);
    WordSplits(k);
    RotLanesSum(v, k);
    PackInRange(RotLanes(v, k));
    SpreadIs(Pow2(32 - k), u, Pow2(k), Pack(v), Pack(High(v, k)), Pack(RotLanes(v, k)), p);
  }

  lemma RotatedIs(v: seq<Word>, k: nat)
    requires |v| == LANES && k < 32
    ensures 0 <= Pack(v) < BITWISE_LIMIT && 0 <= ShiftMask(k) < BITWISE_LIMIT
    ensures InLanes(RotLanes(v, k)) && Rotated(Pack(v), k) == Pack(RotLanes(v, k))
  {
    hide Pack, Pow2, And, InvPow2, RotLanes, ShiftMask, Inverses, InLanes, Spread;
    InvTimesPow2(k);
    LanesRotate(v, k, InvPow2(k), P);
  }

  /** The shift of all lanes, modulo any number that is large enough. */
  lemma LanesShift(v: seq<Word>, k: nat, u: int, p: nat)
    requires |v| == LANES && k < 32 && BITWISE_LIMIT <= p && Inverses(u, Pow2(k), p)
    ensures 0 <= Pack(v) < BITWISE_LIMIT && 0 <= ShiftMask(k) < BITWISE_LIMIT
    ensures InLanes(High(v, k)) && Scaled(u, And(Pack(v), ShiftMask(k))) % p == Pack(High(v, k))
  {
    hide Pack, Pow2, And, ShiftMask, Inverses, Scaled;
    ShiftMasked(v, k);
    forall i | 0 <= i < LANES ensures High(v, k)[i] < LANE { QuotientSmall(v[i], Pow2(k)); }
    PackInRange(High(v, k));
    ScaledBack(u, Pow2(k), Pack(High(v, k)), p);
  }

  lemma ShiftedIs(v: seq<Word>, k: nat)
    requires |v| == LANES && k < 32
    ensures 0 <= Pack(v) < BITWISE_LIMIT && 0 <= ShiftMask(k) < BITWISE_LIMIT
    ensures InLanes(High(v, k)) && Shifted(Pack(v), k) == Pack(High(v, k))
  {
    hide Pack, Pow2, And, InvPow2, High, ShiftMask, Inverses, InLanes, Scaled;
    InvTimesPow2(k);
    LanesShift(v, k, InvPow2(k), P);
  }

  lemma QuotientSmall(x: nat, m: nat)
    requires m > 0
    ensures x / m <= x
  {
    ProductAtLeast(m, x / m);
  }

  // ------------------------------------------------------------------------
  // Lanes of the scalar functions
  // ------------------------------------------------------------------------

  lemma XorPacked(v: seq<nat>, w: seq<nat>)
    requires |v| == |w| == LANES && InLanes(v) && InLanes(w)
    ensures 0 <= Pack(v) < BITWISE_LIMIT && 0 <= Pack(w) < BITWISE_LIMIT
    ensures XorBuiltin(Pack(v), Pack(w)) == Pack(XorLanes(v, w)) && InLanes(XorLanes(v, w))
  {
    hide Pack, Xor, And;
    PackInRange(v);
    PackInRange(w);
    PackBitwise(v, w);
    BitwiseInLanes(v, w);
  }

  lemma AndPacked(v: seq<nat>, w: seq<nat>)
    requires |v| == |w| == LANES && InLanes(v) && InLanes(w)
    ensures 0 <= Pack(v) < BITWISE_LIMIT && 0 <= Pack(w) < BITWISE_LIMIT
    ensures AndBuiltin(Pack(v), Pack(w)) == Pack(AndLanes(v, w)) && InLanes(AndLanes(v, w))
  {
    hide Pack, Xor, And;
    PackInRange(v);
    PackInRange(w);
    PackBitwise(v, w);
    BitwiseInLanes(v, w);
  }

  function RotateXorLanes(v: seq<Word>, i: nat, j: nat, k: nat): (r: seq<nat>)
    requires i < 32 && j < 32 && k < 32
    ensures |r| == |v|
  {
    seq(|v|, l requires 0 <= l < |v| => RotateXor(v[l], i, j, k))
  }

  function RotateShiftLanes(v: seq<Word>, i: nat, j: nat, k: nat): (r: seq<nat>)
    requires i < 32 && j < 32
    ensures |r| == |v|
  {
    seq(|v|, l requires 0 <= l < |v| => RotateShift(v[l], i, j, k))
  }

  method RotateXorPacked(x: nat, i: nat, j: nat, k: nat, ghost v: seq<Word>) returns (s: nat)
    requires |v| == LANES && x == Pack(v) && i < 32 && j < 32 && k < 32
    ensures s == Pack(RotateXorLanes(v, i, j, k))
  {
    hide Pack, Xor, And, RotR, InLanes, Pow2;
    RotatedIs(v, i);
    RotatedIs(v, j);
    RotatedIs(v, k);
    XorPacked(RotLanes(v, i), RotLanes(v, j));
    ghost var both := XorLanes(RotLanes(v, i), RotLanes(v, j));
    XorPacked(both, RotLanes(v, k));
    assert RotateXorLanes(v, i, j, k) == XorLanes(both, RotLanes(v, k));
    s := XorBuiltin(XorBuiltin(Rotated(x, i), Rotated(x, j)), Rotated(x, k));
  }

  method RotateShiftPacked(x: nat, i: nat, j: nat, k: nat, ghost v: seq<Word>) returns (s: nat)
    requires |v| == LANES && x == Pack(v) && i < 32 && j < 32 && k < 32
    ensures s == Pack(RotateShiftLanes(v, i, j, k))
  {
    hide Pack, Xor, And, RotR, InLanes, Pow2;
    RotatedIs(v, i);
    RotatedIs(v, j);
    ShiftedIs(v, k);
    XorPacked(RotLanes(v, i), RotLanes(v, j));
    ghost var both := XorLanes(RotLanes(v, i), RotLanes(v, j));
    XorPacked(both, High(v, k));
    assert RotateShiftLanes(v, i, j, k) == XorLanes(both, High(v, k));
    s := XorBuiltin(XorBuiltin(Rotated(x, i), Rotated(x, j)), Shifted(x, k));
  }

  lemma RotationsAreWords(x: Word, i: nat, j: nat, k: nat)
    requires i < 32 && j < 32 && k < 32
    ensures RotateXor(x, i, j, k) < WORD && RotateShift(x, i, j, k) < WORD
  {
    hide Xor, Pow2, RotR, Shr;
    WordSize();
    RotatedLane(x, i);
    RotatedLane(x, j);
    RotatedLane(x, k);
    ShiftedWord(x, k);
    Bounded(RotR(x, i), RotR(x, j), 32);
    Bounded(Xor(RotR(x, i), RotR(x, j)), RotR(x, k), 32);
    Bounded(Xor(RotR(x, i), RotR(x, j)), Shr(x, k), 32);
  }

  lemma ShiftedWord(x: Word, k: nat)
    ensures Shr(x, k) < WORD
  {
    QuotientSmall(x, Pow2(k));
  }

  // ------------------------------------------------------------------------
  // Choice and majority
  // ------------------------------------------------------------------------

  function ChLanes(v: seq<Word>, w: seq<Word>, z: seq<Word>): (r: seq<nat>)
    requires |v| == |w| == |z|
    ensures |r| == |v|
  {
    seq(|v|, i requires 0 <= i < |v| => Ch(v[i], w[i], z[i]))
  }

  function MajLanes(v: seq<Word>, w: seq<Word>, z: seq<Word>): (r: seq<nat>)
    requires |v| == |w| == |z|
    ensures |r| == |v|
  {
    seq(|v|, i requires 0 <= i < |v| => Majority(v[i], w[i], z[i]))
  }

  function NotLanes(v: seq<Word>): (r: seq<nat>)
    ensures |r| == |v|
  {
    seq(|v|, i requires 0 <= i < |v| => LANE - 1 - v[i])
  }

  /** The 251-bit complement of a packed value, as seen by the words of another one. */
  lemma ComplementPacked(v: seq<Word>, w: seq<Word>)
    requires |v| == |w| == LANES
    ensures 0 <= ALL_ONES - Pack(v) < BITWISE_LIMIT && 0 <= Pack(w) < BITWISE_LIMIT
    ensures InLanes(NotLanes(v)) && AndBuiltin(ALL_ONES - Pack(v), Pack(w)) == Pack(AndLanes(NotLanes(v), w))
  {
    hide Pack, And, Xor, Pow2;
    var n, ones := NotLanes(v), Same(LANE - 1, LANES);
    PackInRange(v);
    assert n == Combined(1, ones, -1, v);
    PackCombined(1, ones, -1, v);
    PackSame(LANE - 1);
    TopSize();
    PackFits(n);
    PackFits(w);
    assert ALL_ONES - Pack(v) == Pack(n) + Pow2(245) * 63;
    HighBits(Pack(n), 63, Pack(w), 245);
    AndPacked(n, w);
  }

  lemma TopSize()
    ensures Pow2(245) == SHIFTS * (LANE - 1) + 1 && ALL_ONES == Pow2(245) * 64 - 1
  {
    Sizes();
  }

  lemma ChLane(x: Word, y: Word, z: Word)
    ensures Ch(x, y, z) == And(x, y) + And(LANE - 1 - x, z) < WORD
  {
    hide And, Xor, Pow2;
    WordSize();
    ChoiceIsSum(x, y, z, 32);
    HighBits(WORD - 1 - x, 7, z, 32);
    Bounded(x, y, 32);
    Bounded(WORD - 1 - x, z, 32);
    Bounded(And(x, y), And(WORD - 1 - x, z), 32);
  }

  method Choose(e: nat, f: nat, g: nat, ghost v: seq<Word>, ghost w: seq<Word>, ghost z: seq<Word>) returns (ch: nat)
    requires |v| == |w| == |z| == LANES && e == Pack(v) && f == Pack(w) && g == Pack(z)
    ensures ch == Pack(ChLanes(v, w, z))
  {
    hide Pack, And, Xor, Pow2, Ch;
    AndPacked(v, w);
    ComplementPacked(v, z);
    ghost var left, right := AndLanes(v, w), AndLanes(NotLanes(v), z);
    forall i | 0 <= i < LANES ensures ChLanes(v, w, z)[i] == Combined(1, left, 1, right)[i] < LANE {
      ChLane(v[i], w[i], z[i]);
    }
    assert ChLanes(v, w, z) == Combined(1, left, 1, right);
    PackCombined(1, left, 1, right);
    PackInRange(ChLanes(v, w, z));
    ch := AndBuiltin(e, f) + AndBuiltin(ALL_ONES - e, g);
  }

  lemma MajLane(x: Word, y: Word, z: Word)
    ensures x + y + z - Xor(Xor(x, y), z) == 2 * Majority(x, y, z) && Majority(x, y, z) < WORD
  {
    hide And, Xor, Pow2;
    ParityAndMajority(x, y, z);
    WordSize();
    Bounded(x, y, 32);
    Bounded(x, z, 32);
    Bounded(y, z, 32);
    Bounded(And(x, y), And(x, z), 32);
    Bounded(Xor(And(x, y), And(x, z)), And(y, z), 32);
  }

  method MajorityPacked(a: nat, b: nat, c: nat, ghost v: seq<Word>, ghost w: seq<Word>, ghost z: seq<Word>)
      returns (maj: nat)
    requires |v| == |w| == |z| == LANES && a == Pack(v) && b == Pack(w) && c == Pack(z)
    ensures maj == Pack(MajLanes(v, w, z))
  {
    hide Pack, And, Xor, Pow2, Majority, InvPow2, Inverses, Scaled;
    XorPacked(v, w);
    XorPacked(XorLanes(v, w), z);
    MajoritySum(v, w, z);
    TwoIs();
    InvTimesPow2(1);
    PackInRange(MajLanes(v, w, z));
    ScaledBack(InvPow2(1), 2, Pack(MajLanes(v, w, z)), P);
    var parity := XorBuiltin(XorBuiltin(a, b), c);
    maj := Felt(Scaled(InvPow2(1), a + b + c - parity));
  }

  lemma TwoIs()
    ensures Pow2(1) == 2
  {
  }

  lemma MajoritySum(v: seq<Word>, w: seq<Word>, z: seq<Word>)
    requires |v| == |w| == |z| == LANES
    ensures InLanes(MajLanes(v, w, z))
    ensures Pack(v) + Pack(w) + Pack(z) - Pack(XorLanes(XorLanes(v, w), z)) == 2 * Pack(MajLanes(v, w, z))
  {
    hide Pack, Xor, Majority;
    var sum, parity, m := Combined(1, Combined(1, v, 1, w), 1, z), XorLanes(XorLanes(v, w), z), MajLanes(v, w, z);
    forall i | 0 <= i < LANES ensures Combined(1, sum, -1, parity)[i] == Combined(2, m, 0, m)[i] && m[i] < LANE {
      MajLane(v[i], w[i], z[i]);
    }
    assert Combined(1, sum, -1, parity) == Combined(2, m, 0, m);
    PackCombined(1, v, 1, w);
    PackCombined(1, Combined(1, v, 1, w), 1, z);
    PackCombined(1, sum, -1, parity);
    PackCombined(2, m, 0, m);
  }
}
