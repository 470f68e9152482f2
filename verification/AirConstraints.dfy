/**
  The transition constraints of the Cairo CPU, as polynomials over the columns of two trace rows.
  A constraint holds when its value vanishes in the field.
*/
module AirConstraints {

  // Main trace layout
  const RES := 16
  const MEM_P := 17      // ap, fp
  const MEM_A := 19      // pc, dst_addr, op0_addr, op1_addr
  const MEM_V := 23      // inst, dst, op0, op1
  const OFF_X := 27      // off_dst, off_op0, off_op1
  const DERIVED := 30    // t0, t1, mul
  const SELECTOR := 33
  const TRACE_WIDTH := 34

  datatype Frame = Frame(current: seq<int>, next: seq<int>)

  predicate MainFrame(f: Frame) {
    |f.current| >= TRACE_WIDTH && |f.next| >= TRACE_WIDTH
  }

  function Bias(offset: int): int {
    offset - 0x8000
  }

  /** The flag bits as one number. */
  function FlagWord(c: seq<int>): int
    requires |c| >= TRACE_WIDTH
  {
    c[0] + 0x2 * c[1] + 0x4 * c[2] + 0x8 * c[3] + 0x10 * c[4] + 0x20 * c[5] + 0x40 * c[6] + 0x80 * c[7]
    + 0x100 * c[8] + 0x200 * c[9] + 0x400 * c[10] + 0x800 * c[11] + 0x1000 * c[12] + 0x2000 * c[13] + 0x4000 * c[14]
  }

  function InstrConstraints(f: Frame): (t: seq<int>)
    requires MainFrame(f)
    ensures |t| == 17
  {
    var c := f.current;
    seq(15, i requires 0 <= i < 15 => c[i] * (c[i] - 1))
    + [c[15],
       (Bias(c[OFF_X]) + 0x8000) + 0x1_0000 * (Bias(c[OFF_X + 1]) + 0x8000)
       + 0x1_0000_0000 * (Bias(c[OFF_X + 2]) + 0x8000) + 0x1_0000_0000_0000 * FlagWord(c) - c[MEM_V]]
  }

  function OperandConstraints(f: Frame): (t: seq<int>)
    requires MainFrame(f)
    ensures |t| == 3
  {
    var c := f.current;
    var ap, fp, pc, op0 := c[MEM_P], c[MEM_P + 1], c[MEM_A], c[MEM_V + 2];
    [c[0] * fp + (1 - c[0]) * ap + Bias(c[OFF_X]) - c[MEM_A + 1],
     c[1] * fp + (1 - c[1]) * ap + Bias(c[OFF_X + 1]) - c[MEM_A + 2],
     c[2] * pc + c[4] * ap + c[3] * fp + (1 - c[2] - c[4] - c[3]) * op0 + Bias(c[OFF_X + 2]) - c[MEM_A + 3]]
  }

  function RegisterConstraints(f: Frame): (t: seq<int>)
    requires MainFrame(f)
    ensures |t| == 6
  {
    var c, n := f.current, f.next;
    var ap, fp, pc, res, dst, op1 := c[MEM_P], c[MEM_P + 1], c[MEM_A], c[RES], c[MEM_V + 1], c[MEM_V + 3];
    var nextAp, nextFp, nextPc := n[MEM_P], n[MEM_P + 1], n[MEM_A];
    var instSize := c[2] + 1;
    var t0, t1 := c[DERIVED], c[DERIVED + 1];
    [ap + c[10] * res + c[11] + c[12] * 2 - nextAp,
     c[13] * dst + c[12] * (ap + 2) + (1 - c[13] - c[12]) * fp - nextFp,
     (t1 - c[9]) * (nextPc - (pc + instSize)),
     t0 * (nextPc - (pc + op1)) + (1 - c[9]) * nextPc
       - ((1 - c[7] - c[8] - c[9]) * (pc + instSize) + c[7] * res + c[8] * (pc + res)),
     c[9] * dst - t0,
     t0 * res - t1]
  }

  function OpcodeConstraints(f: Frame): (t: seq<int>)
    requires MainFrame(f)
    ensures |t| == 5
  {
    var c := f.current;
    var mul, op0, op1, res, dst := c[DERIVED + 2], c[MEM_V + 2], c[MEM_V + 3], c[RES], c[MEM_V + 1];
    var fp, pc := c[MEM_P + 1], c[MEM_A];
    var instSize := c[2] + 1;
    [mul - op0 * op1,
     c[5] * (op0 + op1) + c[6] * mul + (1 - c[5] - c[6] - c[9]) * op1 - (1 - c[9]) * res,
     c[12] * (dst - fp),
     c[12] * (op0 - (pc + instSize)),
     c[14] * (dst - res)]
  }

  /** `evaluate_transition`: the selector column multiplies all but the first 16 constraints. */
  function EvaluateTransition(f: Frame): (t: seq<int>)
    requires MainFrame(f)
    ensures |t| == 31
  {
    var raw := InstrConstraints(f) + OperandConstraints(f) + RegisterConstraints(f) + OpcodeConstraints(f);
    seq(31, i requires 0 <= i < 31 => if i < 16 then raw[i] else raw[i] * f.current[SELECTOR])
  }
}
