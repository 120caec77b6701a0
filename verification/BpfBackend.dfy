/** Retargeting a compiled program to BPF: one register per stack slot. */
module BpfBackend {
  import opened Options
  import opened Words
  import opened Vm
  import B = Bpf

  /** The target kernel, the slot registers and where the program's buffers sit. */
  datatype Config = Config(cpuV4: bool, slotFirst: B.RegNo, data: Word, datalen: nat, str: Word, strsize: nat) {
    /** r2 .. r9, or r6 .. r9. */
    predicate Valid() {
      && (slotFirst == 2 || slotFirst == 6)
      && data + datalen <= TWO64 && datalen < TWO31
    }
    function Slots(): nat
      requires Valid()
    { 10 - slotFirst }
    predicate IsField(v: Word) { data != 0 && data <= v < data + datalen }
    predicate IsString(v: Word) { str != 0 && str <= v < str + strsize }
    function Slot(n: nat): B.RegNo
      requires Valid() && n < Slots()
    { slotFirst + n }
  }

  datatype Error = NotAField | Overflow | TooDeep | Underflow | NeedsCpuV4 | NoStrings | NoCalls | Unresolved

  datatype Emit = Emitted(insns: seq<B.Insn>) | Fail(err: Error)

  const ACC: B.RegNo := 0
  const EVENT: B.RegNo := 1

  /** Conversion of an int to the signed 16-bit offset field. */
  function Off16(x: int): int { (x + 0x8000) % TWO16 - 0x8000 }

  /** emit_load. */
  function LoadCode(cfg: Config, t: Ty, src: B.RegNo, off: int): seq<B.Insn> {
    var sz := t.Size();
    if !t.SignExtends() then [B.Ldx(sz, ACC, src, Off16(off))]
    else if cfg.cpuV4 then [B.LdxSx(sz, ACC, src, Off16(off))]
    else [B.Ldx(sz, ACC, src, Off16(off)), B.AluImm(B.BLSH, ACC, TopShift(sz)), B.AluImm(B.BARSH, ACC, TopShift(sz))]
  }

  /** emit_imm64: one instruction when the value is a sign-extended 32-bit one. */
  function ImmCode(v: Word): seq<B.Insn> {
    if -TWO31 <= Signed(v) < TWO31 then [B.MovImm(ACC, Signed(v))]
    else [B.LdImm64(ACC, v % TWO32), B.Imm64High(v / TWO32)]
  }

  /** emit_cmp. */
  function CmpCode(j: B.JmpOp, lhs: B.RegNo): seq<B.Insn> {
    [B.JmpReg(j, lhs, ACC, 2), B.MovImm(ACC, 0), B.Ja(1), B.MovImm(ACC, 1)]
  }

  function AluCode(op: B.AluOp, lhs: B.RegNo, off: int): seq<B.Insn> {
    [B.AluReg(op, lhs, ACC, off), B.MovReg(ACC, lhs)]
  }

  function BinCode(cfg: Config, op: Op, lhs: B.RegNo): Emit {
    match op
    case OR => Emitted(AluCode(B.BOR, lhs, 0))
    case XOR => Emitted(AluCode(B.BXOR, lhs, 0))
    case AND => Emitted(AluCode(B.BAND, lhs, 0))
    case SHL => Emitted(AluCode(B.BLSH, lhs, 0))
    case SHR => Emitted(AluCode(B.BRSH, lhs, 0))
    case SAR => Emitted(AluCode(B.BARSH, lhs, 0))
    case ADD => Emitted(AluCode(B.BADD, lhs, 0))
    case SUB => Emitted(AluCode(B.BSUB, lhs, 0))
    case MUL => Emitted(AluCode(B.BMUL, lhs, 0))
    case DIVu => Emitted(AluCode(B.BDIV, lhs, 0))
    case MODu => Emitted(AluCode(B.BMOD, lhs, 0))
    case DIV => if cfg.cpuV4 then Emitted(AluCode(B.BDIV, lhs, 1)) else Fail(NeedsCpuV4)
    case MOD => if cfg.cpuV4 then Emitted(AluCode(B.BMOD, lhs, 1)) else Fail(NeedsCpuV4)
    case EQ => Emitted(CmpCode(B.JEQ, lhs))
    case NE => Emitted(CmpCode(B.JNE, lhs))
    case LT => Emitted(CmpCode(B.JSLT, lhs))
    case GT => Emitted(CmpCode(B.JSGT, lhs))
    case LE => Emitted(CmpCode(B.JSLE, lhs))
    case GE => Emitted(CmpCode(B.JSGE, lhs))
    case LTu => Emitted(CmpCode(B.JLT, lhs))
    case GTu => Emitted(CmpCode(B.JGT, lhs))
    case LEu => Emitted(CmpCode(B.JLE, lhs))
    case GEu => Emitted(CmpCode(B.JGE, lhs))
  }

  /** A field address that the next instruction dereferences: the pair becomes one load. */
  predicate Folds(cfg: Config, p: seq<Instr>, i: nat) {
    i + 1 < |p| && p[i].IMM? && p[i + 1].LI? && cfg.IsField(p[i].v)
  }

  /** The load that such an address absorbs. */
  predicate Folded(cfg: Config, p: seq<Instr>, i: nat) { 0 < i && Folds(cfg, p, i - 1) }

  /** What the translation loop emits for instruction `i`, with jump offsets still zero. */
  function Gen(cfg: Config, p: seq<Instr>, i: nat): (r: Emit)
    requires cfg.Valid() && i < |p|
    ensures r.Emitted? ==> |r.insns| <= 4
  {
    var d := Depth(p, i);
    match p[i]
    case IMM(v) =>
      if Folds(cfg, p, i) then Emitted(LoadCode(cfg, p[i + 1].ty, EVENT, v - cfg.data))
      else if cfg.IsField(v) then Emitted([B.MovReg(ACC, EVENT), B.AluImm(B.BADD, ACC, v - cfg.data)])
      else if cfg.IsString(v) then Fail(NoStrings)
      else Emitted(ImmCode(v))
    case LI(t) => if Folded(cfg, p, i) then Emitted([]) else Emitted(LoadCode(cfg, t, ACC, 0))
    case PSH => if 0 <= d < cfg.Slots() then Emitted([B.MovReg(cfg.Slot(d), ACC)]) else Fail(TooDeep)
    case BZ(_) => Emitted([B.JmpImm(B.JEQ, ACC, 0, 0)])
    case BNZ(_) => Emitted([B.JmpImm(B.JNE, ACC, 0, 0)])
    case JMP(_) => Emitted([B.Ja(0)])
    case EXIT => Emitted([B.Exit])
    case Bin(op) =>
      if d <= 0 then Fail(Underflow)
      else if d - 1 >= cfg.Slots() then Fail(TooDeep)
      else BinCode(cfg, op, cfg.Slot(d - 1))
    case SI(t) =>
      if d <= 0 then Fail(Underflow)
      else if d - 1 >= cfg.Slots() then Fail(TooDeep)
      else Emitted([B.Stx(t.Size(), cfg.Slot(d - 1), ACC, 0)])
    case Call(fn) => if fn == 2 then Emitted([B.ToBe(32)]) else if fn == 3 then Emitted([B.ToBe(16)]) else Fail(NoCalls)
    case ADJ(_) => Fail(NoCalls)
    case Str(_) => Fail(NoStrings)
  }

  /** No instruction of the first `k` fails. */
  predicate Emits(cfg: Config, p: seq<Instr>, k: nat)
    requires cfg.Valid() && k <= |p|
  { forall i :: 0 <= i < k ==> Gen(cfg, p, i).Emitted? }

  /** pc_map: the index of the BPF code of instruction `i`. */
  function Pos(cfg: Config, p: seq<Instr>, i: nat): nat
    requires cfg.Valid() && i <= |p| && Emits(cfg, p, i)
  {
    if i == 0 then 0 else Pos(cfg, p, i - 1) + |Gen(cfg, p, i - 1).insns|
  }

  /** Where a jump to instruction `t` lands: a load that was folded into the address before it is
      mapped to that combined load. */
  function Landing(cfg: Config, p: seq<Instr>, t: nat): nat
    requires cfg.Valid() && t <= |p| && Emits(cfg, p, |p|)
  { if Folded(cfg, p, t) then Pos(cfg, p, t - 1) else Pos(cfg, p, t) }

  /** The code of instruction `i` with its jump, if it is one, resolved. */
  function Patched(cfg: Config, p: seq<Instr>, i: nat): (r: seq<B.Insn>)
    requires cfg.Valid() && i < |p| && Emits(cfg, p, |p|)
    requires p[i].IsJump() ==> p[i].Target() <= |p|
    ensures |r| == |Gen(cfg, p, i).insns|
  {
    var g := Gen(cfg, p, i).insns;
    if !p[i].IsJump() then g
    else
      var off := Off16(Landing(cfg, p, p[i].Target()) - Pos(cfg, p, i) - 1);
      if p[i].JMP? then [B.Ja(off)] else [B.JmpImm(if p[i].BZ? then B.JEQ else B.JNE, ACC, 0, off)]
  }

  predicate Resolves(p: seq<Instr>) { forall i :: 0 <= i < |p| && p[i].IsJump() ==> p[i].Target() <= |p| }

  function Assembled(cfg: Config, p: seq<Instr>, k: nat): (c: seq<B.Insn>)
    requires cfg.Valid() && k <= |p| && Emits(cfg, p, |p|) && Resolves(p)
    ensures |c| == Pos(cfg, p, k)
  {
    if k == 0 then [] else Assembled(cfg, p, k - 1) + Patched(cfg, p, k - 1)
  }

  /** At least two instructions: shorter programs are padded with exits. */
  function Padded(c: seq<B.Insn>): seq<B.Insn> {
    if |c| == 0 then [B.Exit, B.Exit] else if |c| == 1 then c + [B.Exit] else c
  }

  /** The first failing instruction decides the message. */
  function FirstError(cfg: Config, p: seq<Instr>, i: nat): Option<Error>
    requires cfg.Valid() && i <= |p|
    decreases |p| - i
  {
    if i == |p| then None
    else match Gen(cfg, p, i) case Fail(e) => Some(e) case Emitted(_) => FirstError(cfg, p, i + 1)
  }

  /** expr_to_bpf on the addresses of the globals it references. */
  function Translate(cfg: Config, globals: seq<Word>, p: seq<Instr>): Emit
    requires cfg.Valid()
  {
    if exists g :: g in globals && !cfg.IsField(g) then Fail(NotAField)
    else
      var e := FirstError(cfg, p, 0);
      if e.Some? then Fail(e.value)
      else if !Resolves(p) then Fail(Unresolved)
      else
        NoErrorEmits(cfg, p, 0);
        Emitted(Padded(Assembled(cfg, p, |p|)))
  }

  lemma {:induction false} NoErrorEmits(cfg: Config, p: seq<Instr>, i: nat)
    requires cfg.Valid() && i <= |p| && FirstError(cfg, p, i).None?
    ensures forall k :: i <= k < |p| ==> Gen(cfg, p, k).Emitted?
    decreases |p| - i
  {
    if i < |p| { NoErrorEmits(cfg, p, i + 1); }
  }
}
