/**
  The CPU constraints encode the Cairo machine: rows on which they vanish are steps of the machine, and
  every step of the machine has a row on which they vanish.
*/
module CpuAir {
  import opened Arithmetic
  import opened StarkPrime
  import opened Field
  import opened AirConstraints
  import opened CairoMachine

  function RegistersOf(row: seq<int>): Registers
    requires |row| >= TRACE_WIDTH
  {
    Registers(row[MEM_A], row[MEM_P], row[MEM_P + 1])
  }

  /** The instruction that the flag and offset columns spell. */
  function InstructionOf(c: seq<int>): (i: Instruction)
    requires |c| >= TRACE_WIDTH && forall k :: 0 <= k < 15 ==> c[k] in {0, 1}
  {
    Instruction(
      Bias(c[OFF_X]), Bias(c[OFF_X + 1]), Bias(c[OFF_X + 2]),
      c[0], c[1],
      c[2] + 2 * c[3] + 4 * c[4],
      c[5] + 2 * c[6],
      c[7] + 2 * c[8] + 4 * c[9],
      c[10] + 2 * c[11],
      c[12] + 2 * c[13] + 4 * c[14])
  }

  function WordOf(c: seq<int>): int
    requires |c| >= TRACE_WIDTH
  {
    c[OFF_X] + 0x1_0000 * c[OFF_X + 1] + 0x1_0000_0000 * c[OFF_X + 2] + 0x1_0000_0000_0000 * FlagWord(c)
  }

  predicate OffsetsInRange(c: seq<int>)
    requires |c| >= TRACE_WIDTH
  {
    forall k :: OFF_X <= k < OFF_X + 3 ==> 0 <= c[k] < 0x1_0000
  }

  // ------------------------------------------------------------------------
  // Decoding
  // ------------------------------------------------------------------------

  lemma FlagGroups(f: nat, a: nat, b: nat, s: nat, l: nat, u: nat, w: nat, o: nat)
    requires a < 2 && b < 2 && s < 8 && l < 4 && u < 8 && w < 4 && o < 8
    requires f == a + 2 * b + 4 * s + 32 * l + 128 * u + 1024 * w + 4096 * o
    ensures f % 2 == a && f / 2 % 2 == b && f / 4 % 8 == s && f / 32 % 4 == l
    ensures f / 128 % 8 == u && f / 1024 % 4 == w && f / 4096 % 8 == o
  {
    var r7 := o;
    var r6 := w + 4 * r7;
    var r5 := u + 8 * r6;
    var r4 := l + 4 * r5;
    var r3 := s + 8 * r4;
    var r2 := b + 2 * r3;
    QuotientIs(f, 2, r2, a);
    QuotientIs(r2, 2, r3, b);
    QuotientIs(f, 4, r3, a + 2 * b);
    QuotientIs(r3, 8, r4, s);
    QuotientIs(f, 32, r4, a + 2 * b + 4 * s);
    QuotientIs(r4, 4, r5, l);
    QuotientIs(f, 128, r5, a + 2 * b + 4 * s + 32 * l);
    QuotientIs(r5, 8, r6, u);
    QuotientIs(f, 1024, r6, a + 2 * b + 4 * s + 32 * l + 128 * u);
    QuotientIs(r6, 4, r7, w);
    QuotientIs(f, 4096, r7, a + 2 * b + 4 * s + 32 * l + 128 * u + 1024 * w);
    QuotientIs(r7, 8, 0, o);
  }

  lemma WordFields(word: nat, x: nat, y: nat, z: nat, f: nat)
    requires x < 0x1_0000 && y < 0x1_0000 && z < 0x1_0000
    requires word == x + 0x1_0000 * y + 0x1_0000_0000 * z + 0x1_0000_0000_0000 * f
    ensures word % 0x1_0000 == x && word / 0x1_0000 % 0x1_0000 == y
    ensures word / 0x1_0000_0000 % 0x1_0000 == z && word / 0x1_0000_0000_0000 == f
  {
    var zf := z + 0x1_0000 * f;
    var yzf := y + 0x1_0000 * zf;
    QuotientIs(word, 0x1_0000, yzf, x);
    QuotientIs(yzf, 0x1_0000, zf, y);
    QuotientIs(word, 0x1_0000_0000, zf, x + 0x1_0000 * y);
    QuotientIs(zf, 0x1_0000, f, z);
    QuotientIs(word, 0x1_0000_0000_0000, f, x + 0x1_0000 * y + 0x1_0000_0000 * z);
  }

  lemma DecodeWord(c: seq<int>)
    requires |c| >= TRACE_WIDTH && OffsetsInRange(c) && forall k :: 0 <= k < 15 ==> c[k] in {0, 1}
    ensures 0 <= WordOf(c) < WORD_LIMIT
    ensures Decode(WordOf(c)) == InstructionOf(c)
  {
    var i := InstructionOf(c);
    assert 0 <= FlagWord(c) < 0x8000;
    WordFields(WordOf(c), c[OFF_X], c[OFF_X + 1], c[OFF_X + 2], FlagWord(c));
    FlagGroups(FlagWord(c), i.dstReg, i.op0Reg, i.op1Src, i.resLogic, i.pcUpdate, i.apUpdate, i.opcode);
  }

  // ------------------------------------------------------------------------
  // Vanishing differences
  // ------------------------------------------------------------------------

  /** A canonical column that a constraint equates with `y` is `y` reduced, and conversely. */
  lemma Determined(x: int, y: int, p: nat)
    requires p > 0 && 0 <= x < p
    ensures Zero(y - x, p) <==> x == y % p
  {
    if x == y % p { ZeroRemainder(y, p); }
    if Zero(y - x, p) {
      ZeroMultiple(y - x, -1, p);
      Canonical(x, y, p);
    }
  }

  lemma Bit(x: int, p: nat)
    requires IsPrime(p) && 0 <= x < p && Zero(x * (x - 1), p)
    ensures x in {0, 1}
  {
    ZeroProduct(x, x - 1, p);
    if Zero(x, p) { Canonical(x, 0, p); }
    if Zero(x - 1, p) { Canonical(x, 1, p); }
  }

  lemma ZeroOrNot(x: int, y: int, p: nat)
    requires IsPrime(p) && !Zero(y, p)
    ensures Zero(x * y, p) <==> Zero(x, p)
  {
    if Zero(x * y, p) { ZeroProduct(x, y, p); }
    if Zero(x, p) { ZeroMultiple(x, y, p); }
  }

  // ------------------------------------------------------------------------
  // What each group of constraints says
  // ------------------------------------------------------------------------

  /** Canonical columns, bits for flags, offsets in range. */
  predicate Typed(c: seq<int>, p: nat) {
    && |c| >= TRACE_WIDTH && OffsetsInRange(c)
    && (forall k :: 0 <= k < TRACE_WIDTH ==> 0 <= c[k] < p)
    && (forall k :: 0 <= k < 15 ==> c[k] in {0, 1})
  }

  predicate NextTyped(n: seq<int>, p: nat) {
    |n| >= TRACE_WIDTH && 0 <= n[MEM_A] < p && 0 <= n[MEM_P] < p && 0 <= n[MEM_P + 1] < p
  }

  ghost predicate AllZero(t: seq<int>, p: nat)
    requires p > 0
  {
    forall k :: 0 <= k < |t| ==> Zero(t[k], p)
  }

  function DstBase(c: seq<int>): int
    requires |c| >= TRACE_WIDTH
  {
    if c[0] == 0 then c[MEM_P] else c[MEM_P + 1]
  }

  function Op0Base(c: seq<int>): int
    requires |c| >= TRACE_WIDTH
  {
    if c[1] == 0 then c[MEM_P] else c[MEM_P + 1]
  }

  function Op1Base(c: seq<int>): int
    requires |c| >= TRACE_WIDTH
  {
    var source := c[2] + 2 * c[3] + 4 * c[4];
    if source == 0 then c[MEM_V + 2]
    else if source == 1 then c[MEM_A]
    else if source == 2 then c[MEM_P + 1]
    else c[MEM_P]
  }

  /** The flags select the base registers. */
  lemma OperandValues(f: Frame, p: nat)
    requires MainFrame(f) && Typed(f.current, p) && Op1Defined(InstructionOf(f.current))
    ensures var c, i := f.current, InstructionOf(f.current);
      && OperandConstraints(f) == [DstBase(c) + i.offDst - c[MEM_A + 1],
                                   Op0Base(c) + i.offOp0 - c[MEM_A + 2],
                                   Op1Base(c) + i.offOp1 - c[MEM_A + 3]]
      && c[2] + 1 == InstructionSize(i)
  {
    var c := f.current;
    var fp, ap, pc, op0 := c[MEM_P + 1], c[MEM_P], c[MEM_A], c[MEM_V + 2];
    Choose(c[0], fp, ap);
    Choose(c[1], fp, ap);
    assert c[2] in {0, 1} && c[3] in {0, 1} && c[4] in {0, 1};
    ChooseOne(c[2], c[4], c[3], pc, ap, fp, op0);
  }

  lemma Choose(b: int, x: int, y: int)
    requires b in {0, 1}
    ensures b * x + (1 - b) * y == if b == 0 then y else x
  {
  }

  lemma ChooseOne(a: int, b: int, c: int, x: int, y: int, z: int, w: int)
    requires a in {0, 1} && b in {0, 1} && c in {0, 1} && a + b + c <= 1
    ensures a * x + b * y + c * z + (1 - a - b - c) * w
         == if a == 1 then x else if b == 1 then y else if c == 1 then z else w
  {
  }

  lemma OperandsMean(f: Frame, p: nat)
    requires p > 0 && MainFrame(f) && Typed(f.current, p) && Op1Defined(InstructionOf(f.current))
    ensures var c, i := f.current, InstructionOf(f.current);
      AllZero(OperandConstraints(f), p) <==>
        && c[MEM_A + 1] == (DstBase(c) + i.offDst) % p
        && c[MEM_A + 2] == (Op0Base(c) + i.offOp0) % p
        && c[MEM_A + 3] == (Op1Base(c) + i.offOp1) % p
  {
    hide Zero, AllZero, DstBase, Op0Base, Op1Base, OperandConstraints;
    var c, i, t := f.current, InstructionOf(f.current), OperandConstraints(f);
    OperandValues(f, p);
    Determined(c[MEM_A + 1], DstBase(c) + i.offDst, p);
    Determined(c[MEM_A + 2], Op0Base(c) + i.offOp0, p);
    Determined(c[MEM_A + 3], Op1Base(c) + i.offOp1, p);
    ThreeZeros(t, p);
  }

  lemma ThreeZeros(t: seq<int>, p: nat)
    requires p > 0 && |t| == 3
    ensures AllZero(t, p) <==> Zero(t[0], p) && Zero(t[1], p) && Zero(t[2], p)
  {
  }

  /** The value of `res` in terms of the operand columns. */
  function ResOf(i: Instruction, op0: int, op1: int, p: nat): int
    requires p > 0
  {
    if i.resLogic == 0 then op1 else if i.resLogic == 1 then (op0 + op1) % p else op0 * op1 % p
  }

  lemma ResMeans(f: Frame, p: nat)
    requires p > 0 && MainFrame(f) && Typed(f.current, p) && ResDefined(InstructionOf(f.current))
    ensures var c, i, t := f.current, InstructionOf(f.current), OpcodeConstraints(f);
      Zero(t[0], p) && Zero(t[1], p) <==>
        && c[DERIVED + 2] == c[MEM_V + 2] * c[MEM_V + 3] % p
        && (i.pcUpdate != 4 ==> c[RES] == ResOf(i, c[MEM_V + 2], c[MEM_V + 3], p))
  {
    var c, i, t := f.current, InstructionOf(f.current), OpcodeConstraints(f);
    var op0, op1, mul, res := c[MEM_V + 2], c[MEM_V + 3], c[DERIVED + 2], c[RES];
    assert t[0] == -(op0 * op1 - mul);
    Determined(mul, op0 * op1, p);
    if Zero(t[0], p) { ZeroMultiple(t[0], -1, p); }
    if Zero(op0 * op1 - mul, p) { ZeroMultiple(op0 * op1 - mul, -1, p); }
    if i.pcUpdate == 4 {
      assert t[1] == 0;
      ZeroIs(0, 0, p);
    } else {
      var e := if i.resLogic == 0 then op1 else if i.resLogic == 1 then op0 + op1 else mul;
      assert t[1] == e - res;
      Determined(res, e, p);
      QuotientIs(mul, p, 0, mul);
      QuotientIs(op1, p, 0, op1);
    }
  }

  /** The assertions of `call` and `assert_eq`. */
  lemma AssertionValues(f: Frame, p: nat)
    requires MainFrame(f) && Typed(f.current, p) && Defined(InstructionOf(f.current))
    ensures var c, i, t := f.current, InstructionOf(f.current), OpcodeConstraints(f);
      && t[2] == (if i.opcode == 1 then c[MEM_V + 1] - c[MEM_P + 1] else 0)
      && t[3] == (if i.opcode == 1 then c[MEM_V + 2] - (c[MEM_A] + InstructionSize(i)) else 0)
      && t[4] == (if i.opcode == 4 then c[MEM_V + 1] - c[RES] else 0)
  {
    var c, i := f.current, InstructionOf(f.current);
    OperandValues(f, p);
    assert c[12] in {0, 1} && c[13] in {0, 1} && c[14] in {0, 1};
    assert c[12] == if i.opcode == 1 then 1 else 0;
    assert c[14] == if i.opcode == 4 then 1 else 0;
  }

  lemma AssertionsMean(f: Frame, p: nat)
    requires p > 0 && MainFrame(f) && Typed(f.current, p) && Defined(InstructionOf(f.current))
    ensures var c, i, t := f.current, InstructionOf(f.current), OpcodeConstraints(f);
      Zero(t[2], p) && Zero(t[3], p) && Zero(t[4], p) <==>
        && (i.opcode == 1 ==> c[MEM_V + 1] % p == c[MEM_P + 1] % p
                              && c[MEM_V + 2] % p == (c[MEM_A] + InstructionSize(i)) % p)
        && (i.opcode == 4 ==> c[MEM_V + 1] % p == c[RES] % p)
  {
    var c, i := f.current, InstructionOf(f.current);
    ZeroIs(0, 0, p);
    hide Zero, OpcodeConstraints;
    AssertionValues(f, p);
    SameResidue(c[MEM_V + 1], c[MEM_P + 1], p);
    SameResidue(c[MEM_V + 2], c[MEM_A] + InstructionSize(i), p);
    SameResidue(c[MEM_V + 1], c[RES], p);
  }

  // ------------------------------------------------------------------------
  // The next registers
  // ------------------------------------------------------------------------

  function ApOf(c: seq<int>, i: Instruction): int
    requires |c| >= TRACE_WIDTH
  {
    if i.opcode == 1 then c[MEM_P] + 2
    else if i.apUpdate == 0 then c[MEM_P]
    else if i.apUpdate == 1 then c[MEM_P] + c[RES]
    else c[MEM_P] + 1
  }

  function FpOf(c: seq<int>, i: Instruction): int
    requires |c| >= TRACE_WIDTH
  {
    if i.opcode == 1 then c[MEM_P] + 2 else if i.opcode == 2 then c[MEM_V + 1] else c[MEM_P + 1]
  }

  /** The next pc of every instruction but a conditional jump. */
  function PcOf(c: seq<int>, i: Instruction): int
    requires |c| >= TRACE_WIDTH
  {
    if i.pcUpdate == 0 then c[MEM_A] + InstructionSize(i)
    else if i.pcUpdate == 1 then c[RES]
    else c[MEM_A] + c[RES]
  }

  lemma ApFpValues(f: Frame, p: nat)
    requires MainFrame(f) && Typed(f.current, p) && Defined(InstructionOf(f.current))
    ensures var c, i, t := f.current, InstructionOf(f.current), RegisterConstraints(f);
      t[0] == ApOf(c, i) - f.next[MEM_P] && t[1] == FpOf(c, i) - f.next[MEM_P + 1]
  {
    var c, i := f.current, InstructionOf(f.current);
    assert c[10] in {0, 1} && c[11] in {0, 1} && c[12] in {0, 1} && c[13] in {0, 1} && c[14] in {0, 1};
    assert c[12] == 1 <==> i.opcode == 1;
    assert c[13] == 1 <==> i.opcode == 2;
    ChooseOne(c[13], c[12], 0, c[MEM_V + 1], c[MEM_P] + 2, 0, c[MEM_P + 1]);
    assert c[10] * c[RES] == if c[10] == 1 then c[RES] else 0;
  }

  lemma PcValues(f: Frame, p: nat)
    requires MainFrame(f) && Typed(f.current, p) && Defined(InstructionOf(f.current))
    ensures var c, i, t := f.current, InstructionOf(f.current), RegisterConstraints(f);
      var t0, t1, past := c[DERIVED], c[DERIVED + 1], f.next[MEM_A] - (c[MEM_A] + InstructionSize(i));
      var taken := f.next[MEM_A] - (c[MEM_A] + c[MEM_V + 3]);
      if i.pcUpdate == 4 then
        t[2] == (t1 - 1) * past && t[3] == t0 * taken && t[4] == c[MEM_V + 1] - t0 && t[5] == t0 * c[RES] - t1
      else
        t[2] == t1 * past && t[3] == t0 * taken + f.next[MEM_A] - PcOf(c, i) && t[4] == -t0 && t[5] == t0 * c[RES] - t1
  {
    var c, i := f.current, InstructionOf(f.current);
    var next, taken := f.next[MEM_A], f.next[MEM_A] - (c[MEM_A] + c[MEM_V + 3]);
    OperandValues(f, p);
    assert c[7] in {0, 1} && c[8] in {0, 1} && c[9] in {0, 1};
    ChooseOne(c[7], c[8], c[9], c[RES], c[MEM_A] + c[RES], 0, c[MEM_A] + InstructionSize(i));
    assert c[9] * c[MEM_V + 1] == if c[9] == 1 then c[MEM_V + 1] else 0;
    assert (1 - c[9]) * next == if c[9] == 1 then 0 else next;
  }

  lemma PcSound(f: Frame, p: nat)
    requires IsPrime(p) && MainFrame(f) && Typed(f.current, p) && NextTyped(f.next, p)
    requires Defined(InstructionOf(f.current)) && AllZero(RegisterConstraints(f)[2..], p)
    ensures var c, i := f.current, InstructionOf(f.current);
      f.next[MEM_A] == (if i.pcUpdate != 4 then PcOf(c, i)
                        else if c[MEM_V + 1] == 0 then c[MEM_A] + InstructionSize(i)
                        else c[MEM_A] + c[MEM_V + 3]) % p
  {
    hide PcOf, IsPrime, InstructionSize, Zero;
    var c, i, t := f.current, InstructionOf(f.current), RegisterConstraints(f);
    forall k | 2 <= k < 6 ensures Zero(t[k], p) { assert t[2..][k - 2] == t[k]; }
    var t0, t1 := c[DERIVED], c[DERIVED + 1];
    var next, past, jump := f.next[MEM_A], c[MEM_A] + InstructionSize(i), c[MEM_A] + c[MEM_V + 3];
    PcValues(f, p);
    hide RegisterConstraints, Zero, InstructionOf, PcOf;
    if i.pcUpdate != 4 {
      ZeroMultiple(t[4], -1, p);
      Canonical(t0, 0, p);
      ZeroMultiple(t[3], -1, p);
      Canonical(next, PcOf(c, i), p);
    } else {
      ZeroMultiple(t[4], -1, p);
      Canonical(t0, c[MEM_V + 1], p);
      if c[MEM_V + 1] == 0 {
        ZeroMultiple(t[5], -1, p);
        Canonical(t1, 0, p);
        ZeroMultiple(t[2], -1, p);
        Canonical(next, past, p);
      } else {
        if Zero(t0, p) { Canonical(t0, 0, p); }
        ZeroProduct(t0, next - jump, p);
        Canonical(next, jump, p);
      }
    }
  }

  // ------------------------------------------------------------------------
  // Soundness
  // ------------------------------------------------------------------------

  /** The memory columns hold the memory's values at the address columns. */
  predicate MemoryAgrees(c: seq<int>, m: Memory)
    requires |c| >= TRACE_WIDTH
  {
    && c[MEM_V] == m(c[MEM_A]) && c[MEM_V + 1] == m(c[MEM_A + 1])
    && c[MEM_V + 2] == m(c[MEM_A + 2]) && c[MEM_V + 3] == m(c[MEM_A + 3])
  }

  predicate InField(c: seq<int>, p: nat) {
    |c| >= TRACE_WIDTH && forall k :: 0 <= k < TRACE_WIDTH ==> 0 <= c[k] < p
  }

  /** With a nonzero selector, the selected constraints vanish exactly when the raw ones do. */
  lemma SelectorDrops(f: Frame, p: nat)
    requires IsPrime(p) && MainFrame(f) && !Zero(f.current[SELECTOR], p)
    ensures AllZero(EvaluateTransition(f), p) <==>
      && AllZero(InstrConstraints(f), p) && AllZero(OperandConstraints(f), p)
      && AllZero(RegisterConstraints(f), p) && AllZero(OpcodeConstraints(f), p)
  {
    var a, b, r, o := InstrConstraints(f), OperandConstraints(f), RegisterConstraints(f), OpcodeConstraints(f);
    var t, raw, s := EvaluateTransition(f), a + b + r + o, f.current[SELECTOR];
    assert forall k :: 0 <= k < 31 ==> t[k] == if k < 16 then raw[k] else raw[k] * s;
    hide EvaluateTransition, InstrConstraints, OperandConstraints, RegisterConstraints, OpcodeConstraints, Zero;
    forall k | 0 <= k < 31 ensures Zero(t[k], p) <==> Zero(raw[k], p) {
      ZeroOrNot(raw[k], s, p);
    }
    assert AllZero(t, p) <==> AllZero(raw, p);
    AllZeroConcat(a + b + r, o, p);
    AllZeroConcat(a + b, r, p);
    AllZeroConcat(a, b, p);
  }

  lemma AllZeroConcat(a: seq<int>, b: seq<int>, p: nat)
    requires p > 0
    ensures AllZero(a + b, p) <==> AllZero(a, p) && AllZero(b, p)
  {
    hide Zero;
    forall k | 0 <= k < |a| ensures (a + b)[k] == a[k] {}
    forall k | 0 <= k < |b| ensures (a + b)[|a| + k] == b[k] {}
    if AllZero(a + b, p) {
      forall k | 0 <= k < |b| ensures Zero(b[k], p) { assert (a + b)[|a| + k] == b[k]; }
      forall k | 0 <= k < |a| ensures Zero(a[k], p) { assert (a + b)[k] == a[k]; }
    }
  }

  lemma FlagsSound(f: Frame, p: nat)
    requires IsPrime(p) && p > WORD_LIMIT && MainFrame(f) && InField(f.current, p) && OffsetsInRange(f.current)
    requires AllZero(InstrConstraints(f), p)
    ensures Typed(f.current, p) && f.current[MEM_V] == WordOf(f.current)
    ensures 0 <= f.current[MEM_V] < WORD_LIMIT && Decode(f.current[MEM_V]) == InstructionOf(f.current)
  {
    var c, t := f.current, InstrConstraints(f);
    forall k | 0 <= k < 15 ensures c[k] in {0, 1} {
      assert t[k] == c[k] * (c[k] - 1) && Zero(t[k], p);
      Bit(c[k], p);
    }
    assert t[16] == WordOf(c) - c[MEM_V] && Zero(t[16], p);
    DecodeWord(c);
    Determined(c[MEM_V], WordOf(c), p);
    QuotientIs(WordOf(c), p, 0, WordOf(c));
  }

  /**
    Soundness: where the 31 constraints vanish and the memory agrees, the next row's registers are those
    of the machine's step, whenever that step is defined.
  */
  lemma CpuSoundness(f: Frame, m: Memory, p: nat)
    requires IsPrime(p) && p > WORD_LIMIT && MainFrame(f)
    requires InField(f.current, p) && OffsetsInRange(f.current) && NextTyped(f.next, p)
    requires !Zero(f.current[SELECTOR], p) && MemoryAgrees(f.current, m)
    requires AllZero(EvaluateTransition(f), p)
    requires Step(m, RegistersOf(f.current), p) != Undefined
    ensures Step(m, RegistersOf(f.current), p) == Next(RegistersOf(f.next))
  {
    hide EvaluateTransition, InstrConstraints, OperandConstraints, RegisterConstraints, OpcodeConstraints;
    hide Zero, InstructionOf, Execute, Decode, AllZero, WordOf;
    var c := f.current;
    SelectorDrops(f, p);
    FlagsSound(f, p);
    var i := InstructionOf(c);
    StepIsExecute(c, m, p);
    OperandsMean(f, p);
    StepOperands(c, m, p);
    AllZeroMeans(f, p);
    ResMeans(f, p);
    AssertionsMean(f, p);
    PcSound(f, p);
    ApFpSound(f, p);
    ColumnsAreStep(c, f.next, i, m, p);
  }

  lemma StepIsExecute(c: seq<int>, m: Memory, p: nat)
    requires p > 0 && Typed(c, p) && MemoryAgrees(c, m)
    requires 0 <= c[MEM_V] < WORD_LIMIT && Decode(c[MEM_V]) == InstructionOf(c)
    ensures Step(m, RegistersOf(c), p) == Execute(InstructionOf(c), m, RegistersOf(c), p)
    ensures Step(m, RegistersOf(c), p) != Undefined ==> Defined(InstructionOf(c))
  {
  }

  /** Columns that satisfy the meaning of the constraints spell out one step. */
  lemma ColumnsAreStep(c: seq<int>, n: seq<int>, i: Instruction, m: Memory, p: nat)
    requires p > 0 && InField(c, p) && NextTyped(n, p) && Defined(i)
    requires var r := RegistersOf(c);
      c[MEM_V + 1] == Dst(i, m, r, p) && c[MEM_V + 2] == Op0(i, m, r, p) && c[MEM_V + 3] == Op1(i, m, r, p)
    requires i.pcUpdate != 4 ==> c[RES] == ResOf(i, c[MEM_V + 2], c[MEM_V + 3], p)
    requires i.opcode == 1 ==> c[MEM_V + 1] % p == c[MEM_P + 1] % p
                               && c[MEM_V + 2] % p == (c[MEM_A] + InstructionSize(i)) % p
    requires i.opcode == 4 ==> c[MEM_V + 1] % p == c[RES] % p
    requires n[MEM_A] == (if i.pcUpdate != 4 then PcOf(c, i)
                          else if c[MEM_V + 1] == 0 then c[MEM_A] + InstructionSize(i)
                          else c[MEM_A] + c[MEM_V + 3]) % p
    requires n[MEM_P] == ApOf(c, i) % p && n[MEM_P + 1] == FpOf(c, i) % p
    ensures Execute(i, m, RegistersOf(c), p) == Next(RegistersOf(n))
  {
    QuotientIs(c[MEM_V + 1], p, 0, c[MEM_V + 1]);
  }

  lemma AllZeroMeans(f: Frame, p: nat)
    requires p > 0 && MainFrame(f) && AllZero(RegisterConstraints(f), p) && AllZero(OpcodeConstraints(f), p)
    ensures AllZero(RegisterConstraints(f)[2..], p)
    ensures var t := OpcodeConstraints(f);
      Zero(t[0], p) && Zero(t[1], p) && Zero(t[2], p) && Zero(t[3], p) && Zero(t[4], p)
  {
    hide Zero, OpcodeConstraints, RegisterConstraints;
  }

  lemma ApFpSound(f: Frame, p: nat)
    requires p > 0 && MainFrame(f) && Typed(f.current, p) && NextTyped(f.next, p)
    requires Defined(InstructionOf(f.current)) && AllZero(RegisterConstraints(f), p)
    ensures f.next[MEM_P] == ApOf(f.current, InstructionOf(f.current)) % p
    ensures f.next[MEM_P + 1] == FpOf(f.current, InstructionOf(f.current)) % p
  {
    var c, i, t := f.current, InstructionOf(f.current), RegisterConstraints(f);
    ApFpValues(f, p);
    hide RegisterConstraints, InstructionOf, Zero;
    assert Zero(t[0], p) && Zero(t[1], p);
    Determined(f.next[MEM_P], ApOf(c, i), p);
    Determined(f.next[MEM_P + 1], FpOf(c, i), p);
  }

  /** The value columns are the machine's operands. */
  lemma StepOperands(c: seq<int>, m: Memory, p: nat)
    requires p > 0 && Typed(c, p) && MemoryAgrees(c, m) && Op1Defined(InstructionOf(c))
    requires var i := InstructionOf(c);
      && c[MEM_A + 1] == (DstBase(c) + i.offDst) % p
      && c[MEM_A + 2] == (Op0Base(c) + i.offOp0) % p
      && c[MEM_A + 3] == (Op1Base(c) + i.offOp1) % p
    ensures var i, r := InstructionOf(c), RegistersOf(c);
      && c[MEM_V + 1] == Dst(i, m, r, p) && c[MEM_V + 2] == Op0(i, m, r, p) && c[MEM_V + 3] == Op1(i, m, r, p)
  {
    assert c[MEM_V + 1] == m(c[MEM_A + 1]);
    assert c[MEM_V + 2] == m(c[MEM_A + 2]);
    assert c[MEM_V + 3] == m(c[MEM_A + 3]);
  }
}
