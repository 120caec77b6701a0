/** The BPF instruction set as far as the expression backend uses it, after RFC 9669. */
module Bpf {
  import opened Words

  type RegNo = x: nat | x <= 10
  type Regs = s: seq<Word> | |s| == 11 witness seq(11, _ => 0)

  datatype AluOp = BADD | BSUB | BMUL | BDIV | BMOD | BOR | BAND | BXOR | BLSH | BRSH | BARSH
  datatype JmpOp = JEQ | JNE | JGT | JGE | JLT | JLE | JSGT | JSGE | JSLT | JSLE

  /** `imm` is the signed 32-bit immediate, `off` the signed 16-bit offset. */
  datatype Insn =
    | MovImm(dst: RegNo, imm: int)
    | MovReg(dst: RegNo, src: RegNo)
    | AluImm(op: AluOp, dst: RegNo, imm: int)
    | AluReg(op: AluOp, dst: RegNo, src: RegNo, off: int)
    | LdImm64(dst: RegNo, lo: int)      // first slot of a 64-bit immediate load
    | Imm64High(hi: int)                // its second slot
    | Ldx(sz: Size, dst: RegNo, src: RegNo, off: int)
    | LdxSx(sz: Size, dst: RegNo, src: RegNo, off: int)
    | Stx(sz: Size, dst: RegNo, src: RegNo, off: int)
    | Ja(off: int)
    | JmpReg(jop: JmpOp, dst: RegNo, src: RegNo, off: int)
    | JmpImm(jop: JmpOp, dst: RegNo, imm: int, off: int)
    | ToBe(bits: nat)
    | Exit
  {
    predicate Jumps() { Ja? || JmpReg? || JmpImm? }
  }

  /** Section 4.1: 64-bit arithmetic. A zero divisor gives 0 (division) or leaves the dividend
      (modulo); shift counts are taken modulo 64; `sign` selects signed division and modulo. */
  function Arith(op: AluOp, sign: bool, x: Word, y: Word): Word {
    match op
    case BADD => Wrap(x + y)
    case BSUB => Wrap(x - y)
    case BMUL => Wrap(x * y)
    case BOR => BitwiseWord(BitOr, x, y)
    case BAND => BitwiseWord(BitAnd, x, y)
    case BXOR => BitwiseWord(BitXor, x, y)
    case BLSH => ShiftLeft(x, y % 64)
    case BRSH => ShiftRight(x, y % 64)
    case BARSH => ShiftArith(x, y % 64)
    case BDIV => if y == 0 then 0 else if sign then Wrap(TruncDiv(Signed(x), Signed(y))) else Wrap(x / y)
    case BMOD => if y == 0 then x else if sign then Wrap(TruncMod(Signed(x), Signed(y))) else Wrap(x % y)
  }

  /** Section 4.3: jump conditions. */
  predicate Taken(op: JmpOp, x: Word, y: Word) {
    match op
    case JEQ => x == y
    case JNE => x != y
    case JGT => x > y
    case JGE => x >= y
    case JLT => x < y
    case JLE => x <= y
    case JSGT => Signed(x) > Signed(y)
    case JSGE => Signed(x) >= Signed(y)
    case JSLT => Signed(x) < Signed(y)
    case JSLE => Signed(x) <= Signed(y)
  }

  datatype Result = Returned(r0: Word, mem: Memory) | Fault

  datatype Next = Go(pc: nat, regs: Regs, mem: Memory) | Halt(out: Result)

  predicate OnlyForward(c: seq<Insn>) { forall i :: 0 <= i < |c| && c[i].Jumps() ==> c[i].off >= 0 }

  function Step(c: seq<Insn>, pc: nat, regs: Regs, m: Memory): (r: Next)
    requires OnlyForward(c)
    ensures r.Go? ==> pc < |c| && pc < r.pc
  {
    if pc >= |c| then Halt(Fault)
    else
      match c[pc]
      case MovImm(d, imm) => Go(pc + 1, regs[d := Wrap(imm)], m)
      case MovReg(d, s) => Go(pc + 1, regs[d := regs[s]], m)
      case AluImm(op, d, imm) => Go(pc + 1, regs[d := Arith(op, false, regs[d], Wrap(imm))], m)
      case AluReg(op, d, s, off) => Go(pc + 1, regs[d := Arith(op, off == 1, regs[d], regs[s])], m)
      case LdImm64(d, lo) =>
        if pc + 1 < |c| && c[pc + 1].Imm64High? then Go(pc + 2, regs[d := Wrap(lo + TWO32 * c[pc + 1].hi)], m)
        else Halt(Fault)
      case Imm64High(_) => Halt(Fault)
      case Ldx(sz, d, s, off) =>
        var x := Load(m, Wrap(regs[s] + off), sz);
        if x.None? then Halt(Fault) else Go(pc + 1, regs[d := x.value], m)
      case LdxSx(sz, d, s, off) =>
        var x := Load(m, Wrap(regs[s] + off), sz);
        if x.None? then Halt(Fault) else Go(pc + 1, regs[d := Extend(x.value, sz)], m)
      case Stx(sz, d, s, off) =>
        var m' := Store(m, Wrap(regs[d] + off), regs[s], sz);
        if m'.None? then Halt(Fault) else Go(pc + 1, regs, m'.value)
      case Ja(off) => Go(pc + 1 + off, regs, m)
      case JmpReg(op, d, s, off) => Go(if Taken(op, regs[d], regs[s]) then pc + 1 + off else pc + 1, regs, m)
      case JmpImm(op, d, imm, off) => Go(if Taken(op, regs[d], Wrap(imm)) then pc + 1 + off else pc + 1, regs, m)
      case ToBe(_) => Halt(Fault)  // byte swaps are not part of this model
      case Exit => Halt(Returned(regs[0], m))
  }

  function Run(c: seq<Insn>, pc: nat, regs: Regs, m: Memory): Result
    requires OnlyForward(c)
    decreases |c| - pc
  {
    match Step(c, pc, regs, m)
    case Halt(out) => out
    case Go(pc', regs', m') => Run(c, pc', regs', m')
  }
}
