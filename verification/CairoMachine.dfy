/**
  The state transition of the Cairo machine (section 4.5 of the Cairo whitepaper, ePrint 2021/1063),
  over a field of `p` elements and a read-only memory.
*/
module CairoMachine {
  import opened Arithmetic

  type Memory = int -> int

  datatype Registers = Registers(pc: int, ap: int, fp: int)

  datatype Instruction = Instruction(
    offDst: int, offOp0: int, offOp1: int,
    dstReg: nat, op0Reg: nat, op1Src: nat, resLogic: nat, pcUpdate: nat, apUpdate: nat, opcode: nat)

  /** The step is undefined, or one of its assertions fails, or it leads to the next registers. */
  datatype Outcome = Undefined | Failed | Next(regs: Registers)

  const WORD_LIMIT: nat := 0x8000_0000_0000_0000

  function Decode(word: nat): Instruction {
    var flags := word / 0x1_0000_0000_0000;
    Instruction(
      word % 0x1_0000 - 0x8000,
      word / 0x1_0000 % 0x1_0000 - 0x8000,
      word / 0x1_0000_0000 % 0x1_0000 - 0x8000,
      flags % 2,
      flags / 2 % 2,
      flags / 4 % 8,
      flags / 32 % 4,
      flags / 128 % 8,
      flags / 1024 % 4,
      flags / 4096 % 8)
  }

  function InstructionSize(i: Instruction): int {
    if i.op1Src == 1 then 2 else 1
  }

  function Dst(i: Instruction, m: Memory, r: Registers, p: nat): int
    requires p > 0
  {
    m(((if i.dstReg == 0 then r.ap else r.fp) + i.offDst) % p)
  }

  function Op0(i: Instruction, m: Memory, r: Registers, p: nat): int
    requires p > 0
  {
    m(((if i.op0Reg == 0 then r.ap else r.fp) + i.offOp0) % p)
  }

  predicate Op1Defined(i: Instruction) {
    i.op1Src in {0, 1, 2, 4}
  }

  function Op1(i: Instruction, m: Memory, r: Registers, p: nat): int
    requires p > 0 && Op1Defined(i)
  {
    var base := if i.op1Src == 0 then Op0(i, m, r, p)
                else if i.op1Src == 1 then r.pc
                else if i.op1Src == 2 then r.fp
                else r.ap;
    m((base + i.offOp1) % p)
  }

  /** A conditional jump leaves `res` unused, and then nothing else may ask for it. */
  predicate ResDefined(i: Instruction) {
    if i.pcUpdate == 4 then i.resLogic == 0 && i.opcode == 0 && i.apUpdate != 1
    else i.pcUpdate in {0, 1, 2} && i.resLogic in {0, 1, 2}
  }

  function Res(i: Instruction, m: Memory, r: Registers, p: nat): int
    requires p > 0 && Op1Defined(i) && ResDefined(i) && i.pcUpdate != 4
  {
    var op0, op1 := Op0(i, m, r, p), Op1(i, m, r, p);
    if i.resLogic == 0 then op1
    else if i.resLogic == 1 then (op0 + op1) % p
    else op0 * op1 % p
  }

  predicate OpcodeDefined(i: Instruction) {
    i.opcode in {0, 1, 2, 4} && (if i.opcode == 1 then i.apUpdate == 0 else i.apUpdate in {0, 1, 2})
  }

  predicate Defined(i: Instruction) {
    Op1Defined(i) && ResDefined(i) && OpcodeDefined(i)
  }

  function NextPc(i: Instruction, m: Memory, r: Registers, p: nat): int
    requires p > 0 && Defined(i)
  {
    if i.pcUpdate == 0 then (r.pc + InstructionSize(i)) % p
    else if i.pcUpdate == 1 then Res(i, m, r, p) % p
    else if i.pcUpdate == 2 then (r.pc + Res(i, m, r, p)) % p
    else if Dst(i, m, r, p) % p == 0 then (r.pc + InstructionSize(i)) % p
    else (r.pc + Op1(i, m, r, p)) % p
  }

  function NextAp(i: Instruction, m: Memory, r: Registers, p: nat): int
    requires p > 0 && Defined(i)
  {
    if i.opcode == 1 then (r.ap + 2) % p
    else if i.apUpdate == 0 then r.ap % p
    else if i.apUpdate == 1 then (r.ap + Res(i, m, r, p)) % p
    else (r.ap + 1) % p
  }

  function NextFp(i: Instruction, m: Memory, r: Registers, p: nat): int
    requires p > 0 && Defined(i)
  {
    if i.opcode == 1 then (r.ap + 2) % p
    else if i.opcode == 2 then Dst(i, m, r, p) % p
    else r.fp % p
  }

  predicate AssertionsHold(i: Instruction, m: Memory, r: Registers, p: nat)
    requires p > 0 && Defined(i)
  {
    && (i.opcode == 1 ==>
          Op0(i, m, r, p) % p == (r.pc + InstructionSize(i)) % p && Dst(i, m, r, p) % p == r.fp % p)
    && (i.opcode == 4 ==> Res(i, m, r, p) % p == Dst(i, m, r, p) % p)
  }

  function Execute(i: Instruction, m: Memory, r: Registers, p: nat): Outcome
    requires p > 0
  {
    if !Defined(i) then Undefined
    else if !AssertionsHold(i, m, r, p) then Failed
    else Next(Registers(NextPc(i, m, r, p), NextAp(i, m, r, p), NextFp(i, m, r, p)))
  }

  /** One step: fetch, decode and execute. Words of 2^63 and above are no instructions. */
  function Step(m: Memory, r: Registers, p: nat): Outcome
    requires p > 0
  {
    var word := m(r.pc);
    if 0 <= word < WORD_LIMIT then Execute(Decode(word), m, r, p) else Undefined
  }

  // ------------------------------------------------------------------------
  // Which steps are undefined
  // ------------------------------------------------------------------------

  /** Flag `k` of an instruction word, above its three offsets. */
  function Flag(word: nat, k: nat): nat {
    word / 0x1_0000_0000_0000 / Pow2(k) % 2
  }

  /**
    At most one flag is set for the second operand, the result, the next pc, the next ap and the opcode. A
    conditional jump comes with no other result or opcode and does not add the result to ap, and a call comes
    without another change of ap.
  */
  predicate FlagsAgree(word: nat) {
    && Flag(word, 2) + Flag(word, 3) + Flag(word, 4) <= 1
    && Flag(word, 5) + Flag(word, 6) <= 1
    && Flag(word, 7) + Flag(word, 8) + Flag(word, 9) <= 1
    && Flag(word, 10) + Flag(word, 11) <= 1
    && Flag(word, 12) + Flag(word, 13) + Flag(word, 14) <= 1
    && (Flag(word, 9) == 1 ==>
          Flag(word, 5) + Flag(word, 6) + Flag(word, 10) + Flag(word, 12) + Flag(word, 13) + Flag(word, 14) == 0)
    && (Flag(word, 12) == 1 ==> Flag(word, 10) + Flag(word, 11) == 0)
  }

  lemma ThreeBits(g: nat)
    ensures g % 8 == g % 2 + 2 * (g / 2 % 2) + 4 * (g / 4 % 2) && g % 4 == g % 2 + 2 * (g / 2 % 2)
  {
    var h := g / 2;
    var q := h / 2;
    var low := g % 2 + 2 * (h % 2);
    assert g == 2 * h + g % 2 && h == 2 * q + h % 2 && q == 2 * (q / 2) + q % 2;
    QuotientIs(g, 4, q, low);
    QuotientIs(g, 8, q / 2, low + 4 * (q % 2));
  }

  /** The bits of a group that starts at bit `k`. */
  lemma GroupBits(f: nat, k: nat)
    ensures var g := f / Pow2(k);
      && g % 2 == f / Pow2(k) % 2 && g / 2 % 2 == f / Pow2(k + 1) % 2 && g / 4 % 2 == f / Pow2(k + 2) % 2
      && g % 8 == f / Pow2(k) % 2 + 2 * (f / Pow2(k + 1) % 2) + 4 * (f / Pow2(k + 2) % 2)
      && g % 4 == f / Pow2(k) % 2 + 2 * (f / Pow2(k + 1) % 2)
  {
    var g := f / Pow2(k);
    ThreeBits(g);
    QuotientTwice(f, Pow2(k), 2);
    QuotientTwice(f, Pow2(k), 4);
    assert Pow2(k + 1) == Pow2(k) * 2 && Pow2(k + 2) == Pow2(k) * 4;
  }

  lemma QuotientTwice(n: nat, k: nat, j: nat)
    requires k > 0 && j > 0
    ensures k * j > 0 && n / k / j == n / (k * j)
  {
    var q, r := n / k, n % k;
    var h, b := q / j, q % j;
    assert n == q * k + r && q == h * j + b;
    assert q * k == h * (k * j) + b * k;
    assert b * k + r < k * j by { Below(b, j, k, r); }
    QuotientIs(n, k * j, h, b * k + r);
  }

  lemma Below(b: nat, j: nat, k: nat, r: nat)
    requires b < j && r < k
    ensures b * k + r < k * j && 0 < k * j
  {
    assert b * k + k == (b + 1) * k;
    assert (b + 1) * k <= j * k;
  }

  lemma SmallPowers()
    ensures Pow2(2) == 4 && Pow2(5) == 32 && Pow2(7) == 128 && Pow2(10) == 1024 && Pow2(12) == 4096
  {
    assert Pow2(2) == 2 * Pow2(1) == 4 * Pow2(0);
    assert Pow2(5) == 2 * Pow2(4) == 4 * Pow2(3) == 8 * Pow2(2);
    assert Pow2(7) == 2 * Pow2(6) == 4 * Pow2(5);
    assert Pow2(10) == 2 * Pow2(9) == 4 * Pow2(8) == 8 * Pow2(7);
    assert Pow2(12) == 2 * Pow2(11) == 4 * Pow2(10);
  }

  /** A step is undefined exactly if its word is no instruction, or its flags do not agree. */
  lemma UndefinedExactly(m: Memory, r: Registers, p: nat)
    requires p > 0
    ensures Step(m, r, p) == Undefined <==> !(0 <= m(r.pc) < 0x8000_0000_0000_0000 && FlagsAgree(m(r.pc)))
  {
    hide AssertionsHold, NextPc, NextAp, NextFp, Pow2;
    if 0 <= m(r.pc) < 0x8000_0000_0000_0000 { DefinedExactly(m(r.pc)); }
  }

  lemma DefinedExactly(word: nat)
    ensures Defined(Decode(word)) <==> FlagsAgree(word)
  {
    hide Pow2;
    var flags := word / 0x1_0000_0000_0000;
    SmallPowers();
    GroupBits(flags, 2);
    GroupBits(flags, 5);
    GroupBits(flags, 7);
    GroupBits(flags, 10);
    GroupBits(flags, 12);
  }
}
