/** Completeness of the CPU constraints: every step of the Cairo machine has a row on which they all vanish. */
module CpuCompleteness {
  import opened Arithmetic
  import opened StarkPrime
  import opened Field
  import opened AirConstraints
  import opened CairoMachine
  import opened CpuAir

  /** The lowest `k` bits of `n`. */
  function Bits(n: nat, k: nat): (b: seq<int>)
    ensures |b| == k && forall j :: 0 <= j < k ==> b[j] in {0, 1}
  {
    if k == 0 then [] else [n % 2] + Bits(n / 2, k - 1)
  }

  function FromBits(b: seq<int>): int {
    if b == [] then 0 else b[0] + 2 * FromBits(b[1..])
  }

  lemma {:induction false} BitsRecompose(n: nat, k: nat)
    requires n < Pow2(k)
    ensures FromBits(Bits(n, k)) == n
  {
    if k > 0 { BitsRecompose(n / 2, k - 1); }
  }

  lemma FlagWordIs(c: seq<int>)
    requires |c| >= TRACE_WIDTH
    ensures FlagWord(c) == FromBits(c[..15])
  {
    var b := c[..15];
    assert FromBits(b[15..]) == 0;
    Unfold(b, 14); Unfold(b, 13); Unfold(b, 12); Unfold(b, 11); Unfold(b, 10);
    Unfold(b, 9); Unfold(b, 8); Unfold(b, 7); Unfold(b, 6); Unfold(b, 5);
    Unfold(b, 4); Unfold(b, 3); Unfold(b, 2); Unfold(b, 1); Unfold(b, 0);
    assert b[0..] == b;
  }

  lemma Unfold(b: seq<int>, k: nat)
    requires k < |b|
    ensures FromBits(b[k..]) == b[k] + 2 * FromBits(b[k + 1..])
  {
    assert b[k..][1..] == b[k + 1..];
  }

  /** The value of `res`: the inverse of `dst` where a conditional jump is taken, so that t1 becomes 1. */
  ghost function HonestRes(i: Instruction, m: Memory, r: Registers, p: nat): (res: int)
    requires IsPrime(p) && Defined(i)
  {
    if i.pcUpdate != 4 then ResOf(i, Op0(i, m, r, p), Op1(i, m, r, p), p)
    else if Zero(Dst(i, m, r, p), p) then 0
    else Inverse(Dst(i, m, r, p), p) % p
  }

  /** The trace row of one step: flags and offsets of the instruction, operands, and derived values. */
  ghost function HonestRow(m: Memory, r: Registers, p: nat): (c: seq<int>)
    requires IsPrime(p) && 0 <= m(r.pc) < WORD_LIMIT && Defined(Decode(m(r.pc)))
    ensures |c| == TRACE_WIDTH
  {
    var word := m(r.pc);
    var i := Decode(word);
    var dst, op0, op1 := Dst(i, m, r, p), Op0(i, m, r, p), Op1(i, m, r, p);
    var taken := i.pcUpdate == 4 && !Zero(dst, p);
    var op1Base := if i.op1Src == 0 then op0 else if i.op1Src == 1 then r.pc else if i.op1Src == 2 then r.fp else r.ap;
    Bits(word / 0x1_0000_0000_0000, 15)
    + [0, HonestRes(i, m, r, p), r.ap, r.fp,
       r.pc,
       ((if i.dstReg == 0 then r.ap else r.fp) + i.offDst) % p,
       ((if i.op0Reg == 0 then r.ap else r.fp) + i.offOp0) % p,
       (op1Base + i.offOp1) % p,
       word, dst, op0, op1,
       i.offDst + 0x8000, i.offOp0 + 0x8000, i.offOp1 + 0x8000,
       if i.pcUpdate == 4 then dst else 0, if taken then 1 else 0, op0 * op1 % p,
       1]
  }

  ghost predicate MemoryInField(m: Memory, p: nat) {
    forall a :: 0 <= m(a) < p
  }

  predicate RegistersInField(r: Registers, p: nat) {
    0 <= r.pc < p && 0 <= r.ap < p && 0 <= r.fp < p
  }

  lemma HonestMemory(m: Memory, r: Registers, p: nat)
    requires IsPrime(p) && 0 <= m(r.pc) < WORD_LIMIT && Defined(Decode(m(r.pc)))
    ensures var c, word := HonestRow(m, r, p), m(r.pc);
      && c[..15] == Bits(word / 0x1_0000_0000_0000, 15) && RegistersOf(c) == r && c[MEM_V] == word
      && MemoryAgrees(c, m) && c[SELECTOR] == 1
  {
    hide Decode, Bits, Inverse, Zero, IsPrime;
    SourcesOf(Decode(m(r.pc)));
  }

  lemma HonestOffsets(m: Memory, r: Registers, p: nat)
    requires IsPrime(p) && 0 <= m(r.pc) < WORD_LIMIT && Defined(Decode(m(r.pc)))
    ensures var c, i := HonestRow(m, r, p), Decode(m(r.pc));
      c[OFF_X] == i.offDst + 0x8000 && c[OFF_X + 1] == i.offOp0 + 0x8000 && c[OFF_X + 2] == i.offOp1 + 0x8000
  {
    hide Decode, Bits, Inverse, Zero, IsPrime, Dst, Op0, Op1, HonestRes;
  }

  lemma DecodedOffsets(word: nat)
    requires word < WORD_LIMIT
    ensures var i := Decode(word);
      && i.offDst + 0x8000 == word % 0x1_0000 && i.offOp0 + 0x8000 == word / 0x1_0000 % 0x1_0000
      && i.offOp1 + 0x8000 == word / 0x1_0000_0000 % 0x1_0000
  {
  }

  lemma HonestColumns(m: Memory, r: Registers, p: nat)
    requires IsPrime(p) && 0 <= m(r.pc) < WORD_LIMIT && Defined(Decode(m(r.pc)))
    ensures var c, word := HonestRow(m, r, p), m(r.pc);
      && c[..15] == Bits(word / 0x1_0000_0000_0000, 15) && RegistersOf(c) == r && c[MEM_V] == word
      && c[OFF_X] == word % 0x1_0000 && c[OFF_X + 1] == word / 0x1_0000 % 0x1_0000
      && c[OFF_X + 2] == word / 0x1_0000_0000 % 0x1_0000
      && MemoryAgrees(c, m) && c[SELECTOR] == 1
  {
    hide HonestRow, Decode, Bits, Defined;
    HonestMemory(m, r, p);
    HonestOffsets(m, r, p);
    DecodedOffsets(m(r.pc));
  }

  lemma SourcesOf(i: Instruction)
    requires Defined(i)
    ensures i.op1Src in {0, 1, 2, 4}
  {
  }

  lemma HonestInField(m: Memory, r: Registers, p: nat)
    requires IsPrime(p) && p > WORD_LIMIT && MemoryInField(m, p) && RegistersInField(r, p)
    requires 0 <= m(r.pc) < WORD_LIMIT && Defined(Decode(m(r.pc)))
    ensures InField(HonestRow(m, r, p), p)
    ensures forall k :: 0 <= k < 15 ==> HonestRow(m, r, p)[k] in {0, 1}
  {
    var c, bits := HonestRow(m, r, p), Bits(m(r.pc) / 0x1_0000_0000_0000, 15);
    hide Bits, Decode, Defined, Inverse, Zero;
    forall k | 0 <= k < 15 ensures c[k] in {0, 1} && 0 <= c[k] < p {
      assert c[k] == bits[k];
    }
    forall k | 15 <= k < TRACE_WIDTH ensures 0 <= c[k] < p {
    }
  }

  /** The honest row is typed, and its flags and offsets spell the instruction. */
  lemma HonestRowTyped(m: Memory, r: Registers, p: nat)
    requires IsPrime(p) && p > WORD_LIMIT && MemoryInField(m, p) && RegistersInField(r, p)
    requires 0 <= m(r.pc) < WORD_LIMIT && Defined(Decode(m(r.pc)))
    ensures var c := HonestRow(m, r, p);
      Typed(c, p) && WordOf(c) == m(r.pc) && InstructionOf(c) == Decode(m(r.pc))
  {
    hide HonestRow, Bits, FromBits, Decode, InstructionOf, FlagWord, MemoryInField, Pow2, Defined;
    var c, word := HonestRow(m, r, p), m(r.pc);
    HonestColumns(m, r, p);
    HonestInField(m, r, p);
    FifteenBits();
    BitsRecompose(word / 0x1_0000_0000_0000, 15);
    FlagWordIs(c);
    SplitWord(word);
    DecodeWord(c);
  }

  lemma FifteenBits()
    ensures Pow2(15) == 0x8000
  {
    assert Pow2(5) == 32;
    assert Pow2(10) == 32 * Pow2(5);
    assert Pow2(15) == 32 * Pow2(10);
  }

  lemma SplitWord(word: nat)
    ensures word == word % 0x1_0000 + 0x1_0000 * (word / 0x1_0000 % 0x1_0000)
      + 0x1_0000_0000 * (word / 0x1_0000_0000 % 0x1_0000) + 0x1_0000_0000_0000 * (word / 0x1_0000_0000_0000)
  {
    var a, b := word % 0x1_0000, word / 0x1_0000;
    var c, d := b % 0x1_0000, b / 0x1_0000;
    var e, f := d % 0x1_0000, d / 0x1_0000;
    QuotientIs(word, 0x1_0000_0000, d, a + 0x1_0000 * c);
    QuotientIs(word, 0x1_0000_0000_0000, f, a + 0x1_0000 * c + 0x1_0000_0000 * e);
  }

  lemma InstrComplete(f: Frame, p: nat)
    requires p > 0 && MainFrame(f) && f.current[15] == 0 && f.current[MEM_V] == WordOf(f.current)
    requires forall k :: 0 <= k < 15 ==> f.current[k] in {0, 1}
    ensures AllZero(InstrConstraints(f), p)
  {
    var c, t := f.current, InstrConstraints(f);
    assert forall k :: 0 <= k < 15 ==> t[k] == c[k] * (c[k] - 1);
    assert t[15] == 0 && t[16] == 0;
    ZeroIs(0, 0, p);
    hide Zero, InstrConstraints, Typed, WordOf, FlagWord;
    forall k | 0 <= k < 17 ensures t[k] == 0 {
      if k < 15 { BitVanishes(c[k]); }
    }
  }

  lemma BitVanishes(b: int)
    requires b in {0, 1}
    ensures b * (b - 1) == 0
  {
  }

  lemma ApFpComplete(f: Frame, p: nat)
    requires p > 0 && MainFrame(f) && Typed(f.current, p) && NextTyped(f.next, p) && Defined(InstructionOf(f.current))
    requires f.next[MEM_P] == ApOf(f.current, InstructionOf(f.current)) % p
    requires f.next[MEM_P + 1] == FpOf(f.current, InstructionOf(f.current)) % p
    ensures Zero(RegisterConstraints(f)[0], p) && Zero(RegisterConstraints(f)[1], p)
  {
    var c, i := f.current, InstructionOf(f.current);
    ApFpValues(f, p);
    hide RegisterConstraints, InstructionOf, Zero;
    Determined(f.next[MEM_P], ApOf(c, i), p);
    Determined(f.next[MEM_P + 1], FpOf(c, i), p);
  }

  /** No conditional jump: t0 and t1 are 0. */
  lemma PcComplete(f: Frame, p: nat)
    requires p > 0 && MainFrame(f) && Typed(f.current, p) && NextTyped(f.next, p)
    requires Defined(InstructionOf(f.current)) && InstructionOf(f.current).pcUpdate != 4
    requires f.current[DERIVED] == 0 && f.current[DERIVED + 1] == 0
    requires f.next[MEM_A] == PcOf(f.current, InstructionOf(f.current)) % p
    ensures AllZero(RegisterConstraints(f)[2..], p)
  {
    var c, i, t := f.current, InstructionOf(f.current), RegisterConstraints(f);
    PcValues(f, p);
    ZeroIs(0, 0, p);
    hide RegisterConstraints, InstructionOf, Zero;
    Determined(f.next[MEM_A], PcOf(c, i), p);
    ZeroMultiple(PcOf(c, i) - f.next[MEM_A], -1, p);
    assert t[2] == 0 && t[3] == -1 * (PcOf(c, i) - f.next[MEM_A]) && t[4] == 0 && t[5] == 0;
  }

  /** A conditional jump: with dst = 0 all derived values are 0, otherwise res inverts dst. */
  lemma JnzComplete(f: Frame, p: nat)
    requires p > 0 && MainFrame(f) && Typed(f.current, p) && NextTyped(f.next, p)
    requires Defined(InstructionOf(f.current)) && InstructionOf(f.current).pcUpdate == 4
    requires var c, i := f.current, InstructionOf(f.current);
      && c[DERIVED] == c[MEM_V + 1]
      && if c[MEM_V + 1] == 0 then
           c[RES] == 0 && c[DERIVED + 1] == 0 && f.next[MEM_A] == (c[MEM_A] + InstructionSize(i)) % p
         else
           && Zero(c[MEM_V + 1] * c[RES] - 1, p) && c[DERIVED + 1] == 1
           && f.next[MEM_A] == (c[MEM_A] + c[MEM_V + 3]) % p
    ensures AllZero(RegisterConstraints(f)[2..], p)
  {
    var c, i, t := f.current, InstructionOf(f.current), RegisterConstraints(f);
    PcValues(f, p);
    ZeroIs(0, 0, p);
    hide RegisterConstraints, InstructionOf, Zero;
    var next, past, jump := f.next[MEM_A], c[MEM_A] + InstructionSize(i), c[MEM_A] + c[MEM_V + 3];
    if c[MEM_V + 1] == 0 {
      Determined(next, past, p);
      assert t[2] == past - next && t[3] == 0 && t[4] == 0 && t[5] == 0;
    } else {
      Determined(next, jump, p);
      ZeroMultiple(jump - next, -c[MEM_V + 1], p);
      Opposites(c[MEM_V + 1], jump, next);
      assert t[2] == 0 && t[4] == 0;
    }
  }

  lemma Opposites(a: int, x: int, y: int)
    ensures -a * (x - y) == a * (y - x)
  {
  }

  /** The inverse that the honest row puts into res. */
  lemma HonestInverse(dst: int, p: nat)
    requires IsPrime(p) && 0 < dst < p
    ensures !Zero(dst, p) && Zero(dst * (Inverse(dst, p) % p) - 1, p)
  {
    if Zero(dst, p) { Canonical(dst, 0, p); }
    var u := Inverse(dst, p);
    ZeroRemainder(u, p);
    ZeroMultiple(u - u % p, dst, p);
    ZeroSum(dst * u - 1, dst * (u - u % p), p);
    SplitProduct(dst, u, u % p);
  }

  lemma SplitProduct(a: int, x: int, y: int)
    ensures a * x - 1 - a * (x - y) == a * y - 1
  {
  }

  lemma HonestDerived(m: Memory, r: Registers, p: nat)
    requires IsPrime(p) && MemoryInField(m, p)
    requires 0 <= m(r.pc) < WORD_LIMIT && Defined(Decode(m(r.pc)))
    ensures var c, i := HonestRow(m, r, p), Decode(m(r.pc));
      && c[15] == 0
      && c[MEM_V + 1] == Dst(i, m, r, p) && c[MEM_V + 2] == Op0(i, m, r, p) && c[MEM_V + 3] == Op1(i, m, r, p)
      && c[MEM_A + 1] == ((if i.dstReg == 0 then r.ap else r.fp) + i.offDst) % p
      && c[MEM_A + 2] == ((if i.op0Reg == 0 then r.ap else r.fp) + i.offOp0) % p
      && c[MEM_A + 3] == ((if i.op1Src == 0 then c[MEM_V + 2] else if i.op1Src == 1 then r.pc
                           else if i.op1Src == 2 then r.fp else r.ap) + i.offOp1) % p
      && c[DERIVED + 2] == c[MEM_V + 2] * c[MEM_V + 3] % p
      && (i.pcUpdate != 4 ==>
            c[RES] == ResOf(i, c[MEM_V + 2], c[MEM_V + 3], p) && c[DERIVED] == 0 && c[DERIVED + 1] == 0)
      && (i.pcUpdate == 4 ==>
            && c[DERIVED] == c[MEM_V + 1]
            && if c[MEM_V + 1] == 0 then c[RES] == 0 && c[DERIVED + 1] == 0
               else Zero(c[MEM_V + 1] * c[RES] - 1, p) && c[DERIVED + 1] == 1)
  {
    hide Decode, Bits, Inverse, Zero, Defined;
    var dst := Dst(Decode(m(r.pc)), m, r, p);
    ZeroIs(0, 0, p);
    if dst != 0 { HonestInverse(dst, p); }
  }

  /** The registers after a step, in terms of the columns. */
  lemma StepGivesColumns(c: seq<int>, n: seq<int>, i: Instruction, m: Memory, p: nat)
    requires p > 0 && InField(c, p) && |n| >= TRACE_WIDTH && Defined(i)
    requires var r := RegistersOf(c);
      c[MEM_V + 1] == Dst(i, m, r, p) && c[MEM_V + 2] == Op0(i, m, r, p) && c[MEM_V + 3] == Op1(i, m, r, p)
    requires i.pcUpdate != 4 ==> c[RES] == ResOf(i, c[MEM_V + 2], c[MEM_V + 3], p)
    requires Execute(i, m, RegistersOf(c), p) == Next(RegistersOf(n))
    ensures i.opcode == 1 ==> c[MEM_V + 1] % p == c[MEM_P + 1] % p
                              && c[MEM_V + 2] % p == (c[MEM_A] + InstructionSize(i)) % p
    ensures i.opcode == 4 ==> c[MEM_V + 1] % p == c[RES] % p
    ensures n[MEM_A] == (if i.pcUpdate != 4 then PcOf(c, i)
                         else if c[MEM_V + 1] == 0 then c[MEM_A] + InstructionSize(i)
                         else c[MEM_A] + c[MEM_V + 3]) % p
    ensures n[MEM_P] == ApOf(c, i) % p && n[MEM_P + 1] == FpOf(c, i) % p
  {
    QuotientIs(c[MEM_V + 1], p, 0, c[MEM_V + 1]);
  }

  /** The base registers, read off the flags or off the instruction. */
  lemma BasesMatch(c: seq<int>)
    requires |c| >= TRACE_WIDTH && (forall k :: 0 <= k < 15 ==> c[k] in {0, 1}) && Op1Defined(InstructionOf(c))
    ensures var i, r := InstructionOf(c), RegistersOf(c);
      && DstBase(c) == (if i.dstReg == 0 then r.ap else r.fp) && Op0Base(c) == (if i.op0Reg == 0 then r.ap else r.fp)
      && Op1Base(c) == (if i.op1Src == 0 then c[MEM_V + 2] else if i.op1Src == 1 then r.pc
                        else if i.op1Src == 2 then r.fp else r.ap)
  {
  }

  /** Completeness: on the honest row of a step and any next row with the step's result, all 31 constraints vanish. */
  lemma CpuCompleteness(m: Memory, r: Registers, next: seq<int>, p: nat)
    requires IsPrime(p) && p > WORD_LIMIT && MemoryInField(m, p) && RegistersInField(r, p)
    requires |next| >= TRACE_WIDTH && Step(m, r, p) == Next(RegistersOf(next))
    ensures 0 <= m(r.pc) < WORD_LIMIT && Defined(Decode(m(r.pc)))
    ensures var c := HonestRow(m, r, p);
      && RegistersOf(c) == r && MemoryAgrees(c, m) && InField(c, p) && OffsetsInRange(c) && c[SELECTOR] == 1
      && AllZero(EvaluateTransition(Frame(c, next)), p)
  {
    hide HonestRow, Decode, InstructionOf, Zero, EvaluateTransition, WordOf, Step, Execute, Dst, Op0, Op1, PcOf, ApOf,
         FpOf;
    hide InstrConstraints, OperandConstraints, RegisterConstraints, OpcodeConstraints, AllZero, MemoryInField;
    hide DstBase, Op0Base, Op1Base, ResOf, Bits, FlagWord;
    StepIsDefined(m, r, next, p);
    var i, c := Decode(m(r.pc)), HonestRow(m, r, p);
    var f := Frame(c, next);
    HonestColumns(m, r, p);
    HonestRowTyped(m, r, p);
    HonestDerived(m, r, p);
    OneIsNotZero(p);
    InstrComplete(f, p);
    BasesMatch(c);
    StepGivesColumns(c, next, i, m, p);
    OperandsMean(f, p);
    ResMeans(f, p);
    AssertionsMean(f, p);
    ApFpComplete(f, p);
    if i.pcUpdate == 4 { JnzComplete(f, p); } else { PcComplete(f, p); }
    SelectorDrops(f, p);
    GatherZeros(f, p);
  }

  lemma GatherZeros(f: Frame, p: nat)
    requires p > 0 && MainFrame(f)
    requires var t := RegisterConstraints(f); Zero(t[0], p) && Zero(t[1], p) && AllZero(t[2..], p)
    requires var t := OpcodeConstraints(f);
      Zero(t[0], p) && Zero(t[1], p) && Zero(t[2], p) && Zero(t[3], p) && Zero(t[4], p)
    ensures AllZero(RegisterConstraints(f), p) && AllZero(OpcodeConstraints(f), p)
  {
    hide Zero, OpcodeConstraints, RegisterConstraints;
    var t := RegisterConstraints(f);
    assert t == [t[0], t[1]] + t[2..];
    AllZeroConcat([t[0], t[1]], t[2..], p);
  }

  lemma StepIsDefined(m: Memory, r: Registers, next: seq<int>, p: nat)
    requires p > 0 && |next| >= TRACE_WIDTH && Step(m, r, p) == Next(RegistersOf(next))
    ensures 0 <= m(r.pc) < WORD_LIMIT && Defined(Decode(m(r.pc))) && NextTyped(next, p)
    ensures Execute(Decode(m(r.pc)), m, r, p) == Next(RegistersOf(next))
  {
  }
}
