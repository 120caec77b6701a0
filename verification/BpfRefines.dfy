/** The BPF program computes what the interpreter computes. */
module BpfRefines {
  import opened Options
  import opened Words
  import opened Arith
  import opened Vm
  import opened BpfBackend
  import B = Bpf

  // ----- single BPF instructions -----

  ghost predicate BAt(c: seq<B.Insn>, n: nat, s: seq<B.Insn>) { n + |s| <= |c| && c[n..n + |s|] == s }

  lemma BAtOne(c: seq<B.Insn>, n: nat, s: seq<B.Insn>, k: nat)
    requires BAt(c, n, s) && k < |s|
    ensures n + k < |c| && c[n + k] == s[k]
  {
    assert c[n..n + |s|][k] == c[n + k];
  }

  lemma DoMov(c: seq<B.Insn>, pc: nat, r: B.Regs, m: Memory)
    requires B.OnlyForward(c) && pc < |c| && (c[pc].MovImm? || c[pc].MovReg? || c[pc].AluImm? || c[pc].AluReg?)
    ensures B.Run(c, pc, r, m) == B.Run(c, pc + 1,
              match c[pc]
              case MovImm(d, imm) => r[d := Wrap(imm)]
              case MovReg(d, s) => r[d := r[s]]
              case AluImm(op, d, imm) => r[d := B.Arith(op, false, r[d], Wrap(imm))]
              case AluReg(op, d, s, off) => r[d := B.Arith(op, off == 1, r[d], r[s])], m)
  {
    hide B.Arith;
  }

  lemma DoLdx(c: seq<B.Insn>, pc: nat, r: B.Regs, m: Memory, x: Word)
    requires B.OnlyForward(c) && pc < |c| && (c[pc].Ldx? || c[pc].LdxSx?)
    requires Load(m, Wrap(r[c[pc].src] + c[pc].off), c[pc].sz) == Some(x)
    ensures B.Run(c, pc, r, m) ==
            B.Run(c, pc + 1, r[c[pc].dst := if c[pc].Ldx? then x else Extend(x, c[pc].sz)], m)
  {
    hide Load;
  }

  lemma DoStx(c: seq<B.Insn>, pc: nat, r: B.Regs, m: Memory, m': Memory)
    requires B.OnlyForward(c) && pc < |c| && c[pc].Stx?
    requires Store(m, Wrap(r[c[pc].dst] + c[pc].off), r[c[pc].src], c[pc].sz) == Some(m')
    ensures B.Run(c, pc, r, m) == B.Run(c, pc + 1, r, m')
  {
    hide Store;
  }

  lemma DoBranch(c: seq<B.Insn>, pc: nat, r: B.Regs, m: Memory)
    requires B.OnlyForward(c) && pc < |c| && c[pc].Jumps()
    ensures B.Run(c, pc, r, m) ==
            B.Run(c, if (match c[pc]
                         case Ja(_) => true
                         case JmpReg(j, d, s, _) => B.Taken(j, r[d], r[s])
                         case JmpImm(j, d, imm, _) => B.Taken(j, r[d], Wrap(imm)))
                     then pc + 1 + c[pc].off else pc + 1, r, m)
  {
    hide B.Taken;
  }

  // ----- pieces the translator emits -----

  lemma Off16Small(x: int)
    requires -0x8000 <= x < 0x8000
    ensures Off16(x) == x
  {}

  /** A load, in either the sign-extending or the shifting form, reads what LI reads. */
  lemma RunLoad(c: seq<B.Insn>, pc: nat, cfg: Config, t: Ty, src: B.RegNo, off: int, r: B.Regs, m: Memory, x: Word)
    requires B.OnlyForward(c) && BAt(c, pc, LoadCode(cfg, t, src, off))
    requires LoadTyped(m, Wrap(r[src] + Off16(off)), t) == Some(x)
    ensures B.Run(c, pc, r, m) == B.Run(c, pc + |LoadCode(cfg, t, src, off)|, r[ACC := x], m)
  {
    hide B.Run; hide Load; hide B.Arith;
    var s := LoadCode(cfg, t, src, off);
    var sz := t.Size();
    var y := Load(m, Wrap(r[src] + Off16(off)), sz).value;
    BAtOne(c, pc, s, 0);
    DoLdx(c, pc, r, m, y);
    if t.SignExtends() && !cfg.cpuV4 {
      BAtOne(c, pc, s, 1);
      BAtOne(c, pc, s, 2);
      var k := TopShift(sz);
      var r1 := r[ACC := y];
      DoMov(c, pc + 1, r1, m);
      var r2 := r1[ACC := ShiftLeft(y, k)];
      ShiftsAgree(y, k);
      DoMov(c, pc + 2, r2, m);
      ShiftsAgree(ShiftLeft(y, k), k);
      ShiftUpDownExtends(y, sz);
      assert r2[ACC := x] == r[ACC := x];
    }
  }

  lemma ShiftsAgree(y: Word, k: Word)
    requires k < 64
    ensures Wrap(k) == k && B.Arith(B.BLSH, false, y, k) == ShiftLeft(y, k)
    ensures B.Arith(B.BARSH, false, y, k) == ShiftArith(y, k)
  {}

  lemma RunImm(c: seq<B.Insn>, pc: nat, v: Word, r: B.Regs, m: Memory)
    requires B.OnlyForward(c) && BAt(c, pc, ImmCode(v))
    ensures B.Run(c, pc, r, m) == B.Run(c, pc + |ImmCode(v)|, r[ACC := v], m)
  {
    BAtOne(c, pc, ImmCode(v), 0);
    if -TWO31 <= Signed(v) < TWO31 {
      hide B.Run;
      DoMov(c, pc, r, m);
      assert Wrap(Signed(v)) == v;
    } else {
      BAtOne(c, pc, ImmCode(v), 1);
      DivMod(v, TWO32);
    }
  }

  lemma RunFieldAddress(c: seq<B.Insn>, pc: nat, cfg: Config, v: Word, r: B.Regs, m: Memory)
    requires B.OnlyForward(c) && r[EVENT] == cfg.data && cfg.Valid() && cfg.IsField(v)
    requires BAt(c, pc, [B.MovReg(ACC, EVENT), B.AluImm(B.BADD, ACC, v - cfg.data)])
    ensures B.Run(c, pc, r, m) == B.Run(c, pc + 2, r[ACC := v], m)
  {
    hide B.Run;
    var s := [B.MovReg(ACC, EVENT), B.AluImm(B.BADD, ACC, v - cfg.data)];
    BAtOne(c, pc, s, 0);
    BAtOne(c, pc, s, 1);
    DoMov(c, pc, r, m);
    var r1 := r[ACC := cfg.data];
    DoMov(c, pc + 1, r1, m);
    assert r1[ACC := v] == r[ACC := v];
  }

  /** Comparison with a branch yields the truth value. */
  lemma RunCmp(c: seq<B.Insn>, pc: nat, j: B.JmpOp, lhs: B.RegNo, r: B.Regs, m: Memory)
    requires B.OnlyForward(c) && BAt(c, pc, CmpCode(j, lhs))
    ensures B.Run(c, pc, r, m) == B.Run(c, pc + 4, r[ACC := Truth(B.Taken(j, r[lhs], r[ACC]))], m)
  {
    hide B.Run; hide B.Taken;
    forall k | 0 <= k < 4 ensures c[pc + k] == CmpCode(j, lhs)[k] { BAtOne(c, pc, CmpCode(j, lhs), k); }
    DoBranch(c, pc, r, m);
    if B.Taken(j, r[lhs], r[ACC]) {
      DoMov(c, pc + 3, r, m);
    } else {
      DoMov(c, pc + 1, r, m);
      DoBranch(c, pc + 2, r[ACC := 0], m);
    }
  }

  lemma RunAlu(c: seq<B.Insn>, pc: nat, op: B.AluOp, lhs: B.RegNo, off: int, r: B.Regs, m: Memory)
    requires B.OnlyForward(c) && lhs != ACC && BAt(c, pc, AluCode(op, lhs, off))
    ensures var v := B.Arith(op, off == 1, r[lhs], r[ACC]);
            B.Run(c, pc, r, m) == B.Run(c, pc + 2, r[lhs := v][ACC := v], m)
  {
    hide B.Run; hide B.Arith;
    BAtOne(c, pc, AluCode(op, lhs, off), 0);
    BAtOne(c, pc, AluCode(op, lhs, off), 1);
    DoMov(c, pc, r, m);
    DoMov(c, pc + 1, r[lhs := B.Arith(op, off == 1, r[lhs], r[ACC])], m);
  }

  /** What the translated operator leaves in the accumulator. */
  function BpfValue(op: Op, x: Word, y: Word): Word {
    match op
    case OR => B.Arith(B.BOR, false, x, y)
    case XOR => B.Arith(B.BXOR, false, x, y)
    case AND => B.Arith(B.BAND, false, x, y)
    case SHL => B.Arith(B.BLSH, false, x, y)
    case SHR => B.Arith(B.BRSH, false, x, y)
    case SAR => B.Arith(B.BARSH, false, x, y)
    case ADD => B.Arith(B.BADD, false, x, y)
    case SUB => B.Arith(B.BSUB, false, x, y)
    case MUL => B.Arith(B.BMUL, false, x, y)
    case DIVu => B.Arith(B.BDIV, false, x, y)
    case MODu => B.Arith(B.BMOD, false, x, y)
    case DIV => B.Arith(B.BDIV, true, x, y)
    case MOD => B.Arith(B.BMOD, true, x, y)
    case EQ => Truth(B.Taken(B.JEQ, x, y))
    case NE => Truth(B.Taken(B.JNE, x, y))
    case LT => Truth(B.Taken(B.JSLT, x, y))
    case GT => Truth(B.Taken(B.JSGT, x, y))
    case LE => Truth(B.Taken(B.JSLE, x, y))
    case GE => Truth(B.Taken(B.JSGE, x, y))
    case LTu => Truth(B.Taken(B.JLT, x, y))
    case GTu => Truth(B.Taken(B.JGT, x, y))
    case LEu => Truth(B.Taken(B.JLE, x, y))
    case GEu => Truth(B.Taken(B.JGE, x, y))
  }

  /** Wherever C defines the operator, the BPF instructions agree with it. */
  lemma OperatorsAgree(op: Op, x: Word, y: Word)
    requires Alu(op, x, y).Some?
    ensures BpfValue(op, x, y) == Alu(op, x, y).value
  {
    hide BitwiseWord; hide ShiftLeft; hide ShiftRight; hide ShiftArith; hide TruncDiv; hide TruncMod; hide Wrap;
  }

  /** The registers after a binary operator: result in the accumulator, only the popped slot touched. */
  lemma RunBin(c: seq<B.Insn>, pc: nat, cfg: Config, op: Op, lhs: B.RegNo, r: B.Regs, m: Memory) returns (r': B.Regs)
    requires B.OnlyForward(c) && lhs > 1 && BinCode(cfg, op, lhs).Emitted? && BAt(c, pc, BinCode(cfg, op, lhs).insns)
    ensures B.Run(c, pc, r, m) == B.Run(c, pc + |BinCode(cfg, op, lhs).insns|, r', m)
    ensures r'[ACC] == BpfValue(op, r[lhs], r[ACC]) && forall k :: 1 <= k <= 10 && k != lhs ==> r'[k] == r[k]
  {
    hide B.Run; hide B.Arith; hide B.Taken; hide CmpCode; hide AluCode;
    var v := BpfValue(op, r[lhs], r[ACC]);
    match op
    case EQ => RunCmp(c, pc, B.JEQ, lhs, r, m); CmpLength(B.JEQ, lhs); r' := r[ACC := v];
    case NE => RunCmp(c, pc, B.JNE, lhs, r, m); CmpLength(B.JNE, lhs); r' := r[ACC := v];
    case LT => RunCmp(c, pc, B.JSLT, lhs, r, m); CmpLength(B.JSLT, lhs); r' := r[ACC := v];
    case GT => RunCmp(c, pc, B.JSGT, lhs, r, m); CmpLength(B.JSGT, lhs); r' := r[ACC := v];
    case LE => RunCmp(c, pc, B.JSLE, lhs, r, m); CmpLength(B.JSLE, lhs); r' := r[ACC := v];
    case GE => RunCmp(c, pc, B.JSGE, lhs, r, m); CmpLength(B.JSGE, lhs); r' := r[ACC := v];
    case LTu => RunCmp(c, pc, B.JLT, lhs, r, m); CmpLength(B.JLT, lhs); r' := r[ACC := v];
    case GTu => RunCmp(c, pc, B.JGT, lhs, r, m); CmpLength(B.JGT, lhs); r' := r[ACC := v];
    case LEu => RunCmp(c, pc, B.JLE, lhs, r, m); CmpLength(B.JLE, lhs); r' := r[ACC := v];
    case GEu => RunCmp(c, pc, B.JGE, lhs, r, m); CmpLength(B.JGE, lhs); r' := r[ACC := v];
    case _ =>
      var (o, off) := AluOf(op);
      RunAlu(c, pc, o, lhs, off, r, m);
      AluLength(o, lhs, off);
      r' := r[lhs := v][ACC := v];
  }

  lemma CmpLength(j: B.JmpOp, lhs: B.RegNo)
    ensures |CmpCode(j, lhs)| == 4
  {}

  lemma AluLength(op: B.AluOp, lhs: B.RegNo, off: int)
    ensures |AluCode(op, lhs, off)| == 2
  {}

  function AluOf(op: Op): (B.AluOp, int) {
    match op
    case OR => (B.BOR, 0)
    case XOR => (B.BXOR, 0)
    case AND => (B.BAND, 0)
    case SHL => (B.BLSH, 0)
    case SHR => (B.BRSH, 0)
    case SAR => (B.BARSH, 0)
    case SUB => (B.BSUB, 0)
    case MUL => (B.BMUL, 0)
    case DIVu => (B.BDIV, 0)
    case MODu => (B.BMOD, 0)
    case DIV => (B.BDIV, 1)
    case MOD => (B.BMOD, 1)
    case _ => (B.BADD, 0)
  }
}
