/** The translation loop as it runs: fixed buffers, a depth counter, recorded jumps patched at the end. */
module BpfEmitter {
  import opened Options
  import opened Words
  import opened Vm
  import opened CompileShape
  import opened BpfBackend
  import opened BpfSim
  import B = Bpf

  const INSN_PER_OP: nat := 8

  /** Code of the first `k` instructions; jumps before instruction `j` are resolved. */
  function Mixed(cfg: Config, p: seq<Instr>, k: nat, j: nat): (c: seq<B.Insn>)
    requires cfg.Valid() && k <= |p| && j <= |p| && Emits(cfg, p, |p|) && Resolves(p)
    ensures |c| == Pos(cfg, p, k)
  {
    if k == 0 then []
    else Mixed(cfg, p, k - 1, j) + (if k - 1 < j then Patched(cfg, p, k - 1) else Gen(cfg, p, k - 1).insns)
  }

  lemma {:induction false} MixedIsAssembled(cfg: Config, p: seq<Instr>, k: nat)
    requires cfg.Valid() && k <= |p| && Emits(cfg, p, |p|) && Resolves(p)
    ensures Mixed(cfg, p, k, |p|) == Assembled(cfg, p, k)
  {
    hide Gen; hide Patched; hide Pos;
    if k > 0 { MixedIsAssembled(cfg, p, k - 1); }
  }

  /** Resolving a non-jump changes nothing. */
  lemma {:induction false} MixedSkip(cfg: Config, p: seq<Instr>, k: nat, j: nat)
    requires cfg.Valid() && k <= |p| && j < |p| && Emits(cfg, p, |p|) && Resolves(p) && !p[j].IsJump()
    ensures Mixed(cfg, p, k, j + 1) == Mixed(cfg, p, k, j)
  {
    hide Gen; hide Pos; hide Landing;
    if k > 0 { MixedSkip(cfg, p, k - 1, j); }
  }

  lemma {:induction false} MixedBefore(cfg: Config, p: seq<Instr>, k: nat, j: nat)
    requires cfg.Valid() && k <= j < |p| && Emits(cfg, p, |p|) && Resolves(p)
    ensures Mixed(cfg, p, k, j + 1) == Mixed(cfg, p, k, j)
  {
    hide Gen; hide Pos; hide Landing; hide Patched;
    if k > 0 { MixedBefore(cfg, p, k - 1, j); }
  }

  lemma UpdateLeft<T>(a: seq<T>, b: seq<T>, i: nat, x: T)
    requires i < |a|
    ensures (a + b)[i := x] == a[i := x] + b
  {}

  lemma UpdateLast<T>(a: seq<T>, g: seq<T>, h: seq<T>)
    requires |g| == |h| == 1
    ensures (a + g)[|a| := h[0]] == a + h && (a + g)[|a|] == g[0]
  {}

  lemma MixedUnfold(cfg: Config, p: seq<Instr>, k: nat, j: nat)
    requires cfg.Valid() && 0 < k <= |p| && j <= |p| && Emits(cfg, p, |p|) && Resolves(p)
    ensures Mixed(cfg, p, k, j) ==
            Mixed(cfg, p, k - 1, j) + (if k - 1 < j then Patched(cfg, p, k - 1) else Gen(cfg, p, k - 1).insns)
  {
    hide Gen; hide Pos; hide Patched;
  }

  /** Resolving a jump changes the one instruction at its position. */
  lemma {:induction false} MixedPatch(cfg: Config, p: seq<Instr>, k: nat, j: nat)
    requires cfg.Valid() && j < k <= |p| && Emits(cfg, p, |p|) && Resolves(p) && p[j].IsJump()
    ensures Pos(cfg, p, j) < Pos(cfg, p, k) && |Gen(cfg, p, j).insns| == |Patched(cfg, p, j)| == 1
    ensures Mixed(cfg, p, k, j)[Pos(cfg, p, j)] == Gen(cfg, p, j).insns[0]
    ensures Mixed(cfg, p, k, j + 1) == Mixed(cfg, p, k, j)[Pos(cfg, p, j) := Patched(cfg, p, j)[0]]
  {
    hide Gen; hide Pos; hide Landing; hide Patched; hide Mixed;
    JumpPiece(cfg, p, j);
    PosStep(cfg, p, k - 1);
    MixedUnfold(cfg, p, k, j);
    MixedUnfold(cfg, p, k, j + 1);
    if k - 1 == j {
      MixedBefore(cfg, p, j, j);
      UpdateLast(Mixed(cfg, p, j, j), Gen(cfg, p, j).insns, Patched(cfg, p, j));
    } else {
      MixedPatch(cfg, p, k - 1, j);
      UpdateLeft(Mixed(cfg, p, k - 1, j), Gen(cfg, p, k - 1).insns, Pos(cfg, p, j), Patched(cfg, p, j)[0]);
    }
  }

  lemma JumpPiece(cfg: Config, p: seq<Instr>, j: nat)
    requires cfg.Valid() && j < |p| && Emits(cfg, p, |p|) && Resolves(p) && p[j].IsJump()
    ensures |Gen(cfg, p, j).insns| == |Patched(cfg, p, j)| == 1
  {}

  // ----- the buffers -----

  class BpfEmit {
    const insn: array<B.Insn>
    const pcMap: array<int>
    var nrInsn: nat
    var fixups: seq<(nat, nat)>   // emitted jumps and the instruction each one targets
    var depth: int
    var failed: Option<Error>

    /** Buffers for a program of `n` instructions that takes `words` words. */
    constructor (n: nat, words: nat)
      ensures fresh(insn) && fresh(pcMap) && Valid()
      ensures insn.Length == words * INSN_PER_OP + 8 && pcMap.Length == n + 1
      ensures nrInsn == 0 && fixups == [] && depth == 0 && failed == None
    {
      insn := new B.Insn[words * INSN_PER_OP + 8](_ => B.Exit);
      pcMap := new int[n + 1](_ => -1);
      nrInsn, fixups, depth, failed := 0, [], 0, None;
    }

    ghost predicate Valid()
      reads this
    { nrInsn <= insn.Length }

    ghost function Text(): seq<B.Insn>
      requires Valid()
      reads this, insn
    { insn[..nrInsn] }

    /** One instruction; an earlier failure or a full buffer suppresses it. */
    method Emit(x: B.Insn)
      requires Valid()
      modifies this`nrInsn, this`failed, insn
      ensures Valid()
      ensures old(failed).Some? ==> failed == old(failed) && Text() == old(Text())
      ensures old(failed).None? && old(nrInsn) < insn.Length ==> failed == None && Text() == old(Text()) + [x]
      ensures old(failed).None? && old(nrInsn) == insn.Length ==> failed == Some(Overflow)
    {
      if failed.Some? { return; }
      if nrInsn >= insn.Length {
        failed := Some(Overflow);
        return;
      }
      insn[nrInsn] := x;
      nrInsn := nrInsn + 1;
    }

    method EmitLoad(cfg: Config, t: Ty, src: B.RegNo, off: int)
      requires Valid() && failed.None? && nrInsn + 3 <= insn.Length
      modifies this`nrInsn, this`failed, insn
      ensures Valid() && failed.None? && Text() == old(Text()) + LoadCode(cfg, t, src, off)
    {
      var sz := t.Size();
      if !t.SignExtends() {
        Emit(B.Ldx(sz, ACC, src, Off16(off)));
        return;
      }
      if cfg.cpuV4 {
        Emit(B.LdxSx(sz, ACC, src, Off16(off)));
        return;
      }
      Emit(B.Ldx(sz, ACC, src, Off16(off)));
      Emit(B.AluImm(B.BLSH, ACC, TopShift(sz)));
      Emit(B.AluImm(B.BARSH, ACC, TopShift(sz)));
    }

    method EmitImm64(v: Word)
      requires Valid() && failed.None? && nrInsn + 2 <= insn.Length
      modifies this`nrInsn, this`failed, insn
      ensures Valid() && failed.None? && Text() == old(Text()) + ImmCode(v)
    {
      if -TWO31 <= Signed(v) < TWO31 {
        Emit(B.MovImm(ACC, Signed(v)));
        return;
      }
      Emit(B.LdImm64(ACC, v % TWO32));
      Emit(B.Imm64High(v / TWO32));
    }

    method EmitCmp(j: B.JmpOp, lhs: B.RegNo)
      requires Valid() && failed.None? && nrInsn + 4 <= insn.Length
      modifies this`nrInsn, this`failed, insn
      ensures Valid() && failed.None? && Text() == old(Text()) + CmpCode(j, lhs)
    {
      Emit(B.JmpReg(j, lhs, ACC, 2));
      Emit(B.MovImm(ACC, 0));
      Emit(B.Ja(1));
      Emit(B.MovImm(ACC, 1));
    }

    method EmitAlu(op: B.AluOp, lhs: B.RegNo, off: int)
      requires Valid() && failed.None? && nrInsn + 2 <= insn.Length
      modifies this`nrInsn, this`failed, insn
      ensures Valid() && failed.None? && Text() == old(Text()) + AluCode(op, lhs, off)
    {
      Emit(B.AluReg(op, lhs, ACC, off));
      Emit(B.MovReg(ACC, lhs));
    }

    method EmitBin(cfg: Config, op: Op, lhs: B.RegNo)
      requires Valid() && failed.None? && nrInsn + 4 <= insn.Length
      modifies this`nrInsn, this`failed, insn
      ensures Valid()
      ensures match BinCode(cfg, op, lhs)
              case Fail(e) => failed == Some(e)
              case Emitted(c) => failed.None? && Text() == old(Text()) + c
    {
      match op {
        case OR => EmitAlu(B.BOR, lhs, 0);
        case XOR => EmitAlu(B.BXOR, lhs, 0);
        case AND => EmitAlu(B.BAND, lhs, 0);
        case SHL => EmitAlu(B.BLSH, lhs, 0);
        case SHR => EmitAlu(B.BRSH, lhs, 0);
        case SAR => EmitAlu(B.BARSH, lhs, 0);
        case ADD => EmitAlu(B.BADD, lhs, 0);
        case SUB => EmitAlu(B.BSUB, lhs, 0);
        case MUL => EmitAlu(B.BMUL, lhs, 0);
        case DIVu => EmitAlu(B.BDIV, lhs, 0);
        case MODu => EmitAlu(B.BMOD, lhs, 0);
        case DIV => if cfg.cpuV4 { EmitAlu(B.BDIV, lhs, 1); } else { failed := Some(NeedsCpuV4); }
        case MOD => if cfg.cpuV4 { EmitAlu(B.BMOD, lhs, 1); } else { failed := Some(NeedsCpuV4); }
        case EQ => EmitCmp(B.JEQ, lhs);
        case NE => EmitCmp(B.JNE, lhs);
        case LT => EmitCmp(B.JSLT, lhs);
        case GT => EmitCmp(B.JSGT, lhs);
        case LE => EmitCmp(B.JSLE, lhs);
        case GE => EmitCmp(B.JSGE, lhs);
        case LTu => EmitCmp(B.JLT, lhs);
        case GTu => EmitCmp(B.JGT, lhs);
        case LEu => EmitCmp(B.JLE, lhs);
        case GEu => EmitCmp(B.JGE, lhs);
      }
    }

    /** A jump with offset zero, recorded for patching. */
    method EmitJump(x: B.Insn, target: nat)
      requires Valid() && failed.None? && nrInsn < insn.Length
      modifies this`nrInsn, this`failed, this`fixups, insn
      ensures Valid() && failed.None? && Text() == old(Text()) + [x] && fixups == old(fixups) + [(old(nrInsn), target)]
    {
      var at := nrInsn;
      Emit(x);
      fixups := fixups + [(at, target)];
    }

    method RoundImm(cfg: Config, p: seq<Instr>, pc: nat)
      requires Valid() && cfg.Valid() && failed.None? && nrInsn + 4 <= insn.Length && pc < |p| && p[pc].IMM?
      modifies this`nrInsn, this`failed, insn
      ensures Valid()
      ensures match Gen(cfg, p, pc)
              case Fail(e) => failed == Some(e)
              case Emitted(c) => failed.None? && Text() == old(Text()) + c
    {
      hide LoadCode; hide ImmCode;
      var v := p[pc].v;
      if Folds(cfg, p, pc) {
        EmitLoad(cfg, p[pc + 1].ty, EVENT, v - cfg.data);
      } else if cfg.IsField(v) {
        Emit(B.MovReg(ACC, EVENT));
        Emit(B.AluImm(B.BADD, ACC, v - cfg.data));
      } else if cfg.IsString(v) {
        failed := Some(NoStrings);
      } else {
        EmitImm64(v);
      }
    }

    /** Instructions that push or pop. */
    method RoundStack(cfg: Config, p: seq<Instr>, pc: nat)
      requires Valid() && cfg.Valid() && failed.None? && nrInsn + 4 <= insn.Length
      requires pc < |p| && depth == Depth(p, pc) && (p[pc].PSH? || p[pc].Bin? || p[pc].SI?)
      modifies this`nrInsn, this`failed, this`depth, insn
      ensures Valid() && (failed.None? ==> depth == Depth(p, pc + 1))
      ensures match Gen(cfg, p, pc)
              case Fail(e) => failed == Some(e)
              case Emitted(c) => failed.None? && Text() == old(Text()) + c
    {
      hide BinCode; hide Depth;
      DepthStep(p, pc);
      match p[pc] {
        case PSH =>
          if depth < 0 || depth >= cfg.Slots() {
            failed := Some(TooDeep);
          } else {
            Emit(B.MovReg(cfg.Slot(depth), ACC));
            depth := depth + 1;
          }
        case Bin(op) =>
          if depth <= 0 {
            failed := Some(Underflow);
          } else {
            depth := depth - 1;
            if depth >= cfg.Slots() { failed := Some(TooDeep); } else { EmitBin(cfg, op, cfg.Slot(depth)); }
          }
        case SI(t) =>
          if depth <= 0 {
            failed := Some(Underflow);
          } else {
            depth := depth - 1;
            if depth >= cfg.Slots() {
              failed := Some(TooDeep);
            } else {
              Emit(B.Stx(t.Size(), cfg.Slot(depth), ACC, 0));
            }
          }
      }
    }

    /** Everything that is not a jump. */
    method RoundPlain(cfg: Config, p: seq<Instr>, pc: nat)
      requires Valid() && cfg.Valid() && failed.None? && nrInsn + 4 <= insn.Length
      requires pc < |p| && depth == Depth(p, pc) && !Folded(cfg, p, pc) && !p[pc].IsJump()
      modifies this`nrInsn, this`failed, this`depth, insn
      ensures Valid() && (failed.None? ==> depth == Depth(p, pc + 1))
      ensures match Gen(cfg, p, pc)
              case Fail(e) => failed == Some(e)
              case Emitted(c) => failed.None? && Text() == old(Text()) + c
    {
      hide BinCode; hide LoadCode; hide ImmCode; hide Depth;
      DepthStep(p, pc);
      match p[pc] {
        case IMM(v) => RoundImm(cfg, p, pc);
        case LI(t) => EmitLoad(cfg, t, ACC, 0);
        case PSH => RoundStack(cfg, p, pc);
        case Bin(_) => RoundStack(cfg, p, pc);
        case SI(_) => RoundStack(cfg, p, pc);
        case EXIT => Emit(B.Exit);
        case Call(fn) =>
          if fn == 2 { Emit(B.ToBe(32)); } else if fn == 3 { Emit(B.ToBe(16)); } else { failed := Some(NoCalls); }
        case ADJ(_) => failed := Some(NoCalls);
        case Str(_) => failed := Some(NoStrings);
      }
    }
  }

  /** Unpatched code. */
  function Raw(cfg: Config, p: seq<Instr>, k: nat): (c: seq<B.Insn>)
    requires cfg.Valid() && k <= |p| && Emits(cfg, p, k)
    ensures |c| == Pos(cfg, p, k)
  { if k == 0 then [] else Raw(cfg, p, k - 1) + Gen(cfg, p, k - 1).insns }

  lemma {:induction false} RawIsMixed(cfg: Config, p: seq<Instr>, k: nat)
    requires cfg.Valid() && k <= |p| && Emits(cfg, p, |p|) && Resolves(p)
    ensures Raw(cfg, p, k) == Mixed(cfg, p, k, 0)
  {
    hide Gen; hide Pos; hide Patched;
    if k > 0 { RawIsMixed(cfg, p, k - 1); }
  }

  /** pc_map: position of instruction `i`, with a folded load at the position of its address. */
  function Start(cfg: Config, p: seq<Instr>, i: nat): nat
    requires cfg.Valid() && i <= |p| && Emits(cfg, p, i)
  { if Folded(cfg, p, i) then Pos(cfg, p, i - 1) else Pos(cfg, p, i) }

  /** The recorded jumps among the first `k` instructions. */
  function Fixups(cfg: Config, p: seq<Instr>, k: nat): (fs: seq<(nat, nat)>)
    requires cfg.Valid() && k <= |p| && Emits(cfg, p, k)
    ensures |fs| <= k
  {
    if k == 0 then []
    else Fixups(cfg, p, k - 1) + (if p[k - 1].IsJump() then [(Pos(cfg, p, k - 1), p[k - 1].Target())] else [])
  }

  ghost predicate Mapped(pcs: seq<int>, cfg: Config, p: seq<Instr>, k: nat)
    requires cfg.Valid() && k <= |p| < |pcs| && Emits(cfg, p, k)
  { forall i :: 0 <= i < k ==> pcs[i] == Start(cfg, p, i) }

  /** What the buffers hold after the first `k` instructions: their code, where each of them
      starts, and the recorded jumps. */
  ghost predicate Holds(e: BpfEmit, cfg: Config, p: seq<Instr>, k: nat)
    requires cfg.Valid() && k <= |p|
    reads e, e.insn, e.pcMap
  {
    && e.Valid() && e.failed.None? && e.depth == Depth(p, k) && Emits(cfg, p, k) && !Folded(cfg, p, k)
    && |p| < e.pcMap.Length && 4 * |p| + 4 <= e.insn.Length
    && e.Text() == Raw(cfg, p, k) && e.fixups == Fixups(cfg, p, k) && Mapped(e.pcMap[..], cfg, p, k)
  }

  lemma PosAtMost(cfg: Config, p: seq<Instr>, i: nat)
    requires cfg.Valid() && i <= |p| && Emits(cfg, p, i)
    ensures Pos(cfg, p, i) <= 4 * i
    decreases i
  {
    if i > 0 { PosAtMost(cfg, p, i - 1); }
  }

  lemma MapNext(pcs: seq<int>, cfg: Config, p: seq<Instr>, k: nat)
    requires cfg.Valid() && k < |p| < |pcs| && Emits(cfg, p, k) && !Folded(cfg, p, k)
    requires Mapped(pcs, cfg, p, k) && Gen(cfg, p, k).Emitted?
    ensures Mapped(pcs[k := Pos(cfg, p, k)], cfg, p, k + 1)
  {
    hide Gen; hide Pos; hide Folds;
  }

  lemma FoldNext(pcs: seq<int>, cfg: Config, p: seq<Instr>, k: nat)
    requires cfg.Valid() && k + 1 < |p| < |pcs| && Emits(cfg, p, k + 1) && Folds(cfg, p, k)
    requires Mapped(pcs, cfg, p, k + 1)
    ensures Gen(cfg, p, k + 1) == Emitted([]) && Pos(cfg, p, k + 2) == Pos(cfg, p, k + 1)
    ensures Raw(cfg, p, k + 2) == Raw(cfg, p, k + 1) && Fixups(cfg, p, k + 2) == Fixups(cfg, p, k + 1)
    ensures Emits(cfg, p, k + 2) && Mapped(pcs[k + 1 := Pos(cfg, p, k)], cfg, p, k + 2) && !Folded(cfg, p, k + 2)
  {
    FoldedGen(cfg, p, k);
    hide Gen;
  }

  lemma FoldedGen(cfg: Config, p: seq<Instr>, k: nat)
    requires cfg.Valid() && k + 1 < |p| && Folds(cfg, p, k)
    ensures Gen(cfg, p, k + 1) == Emitted([]) && !Folded(cfg, p, k + 2) && !p[k + 1].IsJump()
  {}

  /** One turn of the translation loop; a folded pair takes two instructions at once. */
  method Turn(e: BpfEmit, cfg: Config, p: seq<Instr>, pc: nat) returns (next: nat)
    requires cfg.Valid() && pc < |p| && Holds(e, cfg, p, pc)
    modifies e, e.insn, e.pcMap
    ensures pc < next <= |p|
    ensures match Gen(cfg, p, pc) case Fail(err) => e.failed == Some(err) case Emitted(_) => Holds(e, cfg, p, next)
  {
    hide Depth; hide Start; hide Folds; hide Gen; hide Mapped;
    PosAtMost(cfg, p, pc);
    DepthStep(p, pc);
    ghost var pcs := e.pcMap[..];
    var start := e.nrInsn;
    e.pcMap[pc] := start;
    next := pc + 1;
    if p[pc].IsJump() {
      JumpGen(cfg, p, pc);
      NoFoldHere(cfg, p, pc);
      match p[pc] {
        case BZ(t) => e.EmitJump(B.JmpImm(B.JEQ, ACC, 0, 0), t);
        case BNZ(t) => e.EmitJump(B.JmpImm(B.JNE, ACC, 0, 0), t);
        case JMP(t) => e.EmitJump(B.Ja(0), t);
      }
      MapNext(pcs, cfg, p, pc);
      assert e.pcMap[..] == pcs[pc := start];
    } else {
      e.RoundPlain(cfg, p, pc);
      if e.failed.Some? { return; }
      MapNext(pcs, cfg, p, pc);
      assert e.pcMap[..] == pcs[pc := start];
      if Folds(cfg, p, pc) {
        FoldsInside(cfg, p, pc);
        FoldNext(e.pcMap[..], cfg, p, pc);
        DepthStep(p, pc + 1);
        e.pcMap[pc + 1] := start;
        next := pc + 2;
        assert e.pcMap[..] == pcs[pc := start][pc + 1 := start];
      } else {
        FoldedAfter(cfg, p, pc);
      }
    }
  }

  lemma FoldsInside(cfg: Config, p: seq<Instr>, pc: nat)
    requires Folds(cfg, p, pc)
    ensures pc + 1 < |p| && p[pc + 1].LI?
  {}

  lemma JumpGen(cfg: Config, p: seq<Instr>, pc: nat)
    requires cfg.Valid() && pc < |p| && p[pc].IsJump()
    ensures Gen(cfg, p, pc) ==
            Emitted([match p[pc]
                     case JMP(_) => B.Ja(0)
                     case BZ(_) => B.JmpImm(B.JEQ, ACC, 0, 0)
                     case _ => B.JmpImm(B.JNE, ACC, 0, 0)])
  {}

  // ----- resolving the recorded jumps -----

  lemma {:induction false} FixupsGrow(cfg: Config, p: seq<Instr>, j: nat, k: nat)
    requires cfg.Valid() && j <= k <= |p| && Emits(cfg, p, k)
    ensures Fixups(cfg, p, j) <= Fixups(cfg, p, k)
    decreases k - j
  {
    hide Gen; hide Pos;
    if j < k { FixupsGrow(cfg, p, j, k - 1); }
  }

  /** The next recorded jump after the first `i`: none of the instructions skipped is a jump. */
  lemma {:induction false} NextFixup(cfg: Config, p: seq<Instr>, i: nat, j: nat) returns (j': nat)
    requires cfg.Valid() && j <= |p| && Emits(cfg, p, |p|)
    requires i < |Fixups(cfg, p, |p|)| && Fixups(cfg, p, j) == Fixups(cfg, p, |p|)[..i]
    ensures j <= j' < |p| && p[j'].IsJump() && Fixups(cfg, p, |p|)[i] == (Pos(cfg, p, j'), p[j'].Target())
    ensures Fixups(cfg, p, j' + 1) == Fixups(cfg, p, |p|)[..i + 1]
    ensures forall x :: j <= x < j' ==> !p[x].IsJump()
    ensures Resolves(p) ==> Mixed(cfg, p, |p|, j') == Mixed(cfg, p, |p|, j)
    decreases |p| - j
  {
    hide Gen; hide Pos; hide Mixed; hide Resolves;
    var fs := Fixups(cfg, p, |p|);
    if j == |p| { assert false; }
    FixupsGrow(cfg, p, j + 1, |p|);
    if p[j].IsJump() {
      j' := j;
      assert Fixups(cfg, p, j + 1) == fs[..i + 1] && Fixups(cfg, p, j + 1)[i] == fs[i];
    } else {
      if Resolves(p) { MixedSkip(cfg, p, |p|, j); }
      j' := NextFixup(cfg, p, i, j + 1);
    }
  }

  lemma {:induction false} NoMoreFixups(cfg: Config, p: seq<Instr>, j: nat)
    requires cfg.Valid() && j <= |p| && Emits(cfg, p, |p|) && Fixups(cfg, p, j) == Fixups(cfg, p, |p|)
    ensures forall x :: j <= x < |p| ==> !p[x].IsJump()
    ensures Resolves(p) ==> Mixed(cfg, p, |p|, j) == Mixed(cfg, p, |p|, |p|)
    decreases |p| - j
  {
    hide Gen; hide Pos; hide Mixed; hide Resolves;
    if j < |p| {
      FixupsGrow(cfg, p, j + 1, |p|);
      NoMoreFixups(cfg, p, j + 1);
      if Resolves(p) { MixedSkip(cfg, p, |p|, j); }
    }
  }

  /** The instruction a resolved jump becomes. */
  lemma PatchedJump(cfg: Config, p: seq<Instr>, j: nat)
    requires cfg.Valid() && j < |p| && Emits(cfg, p, |p|) && Resolves(p) && p[j].IsJump()
    ensures var off := Off16(Start(cfg, p, p[j].Target()) - Pos(cfg, p, j) - 1);
            Patched(cfg, p, j) == match Gen(cfg, p, j).insns[0]
                                  case Ja(_) => [B.Ja(off)]
                                  case JmpImm(o, d, imm, _) => [B.JmpImm(o, d, imm, off)]
                                  case x => [x]
  {
    hide Pos; hide Folded;
    JumpGen(cfg, p, j);
  }

  method Resolve(e: BpfEmit, cfg: Config, p: seq<Instr>)
    requires cfg.Valid() && Holds(e, cfg, p, |p|) && e.pcMap[|p|] == e.nrInsn
    modifies e`failed, e.insn
    ensures e.Valid()
    ensures if Resolves(p) then e.failed.None? && e.Text() == Assembled(cfg, p, |p|) else e.failed == Some(Unresolved)
  {
    hide Gen; hide Pos; hide Mixed; hide Depth; hide Folds; hide Off16; hide Patched; hide Assembled; hide Raw;
    hide Start;
    ghost var j := 0;
    if Resolves(p) { RawIsMixed(cfg, p, |p|); }
    var i := 0;
    assert Fixups(cfg, p, |p|)[..0] == [];
    while i < |e.fixups|
      invariant 0 <= i <= |e.fixups| && j <= |p| && e.Valid() && e.failed.None? && e.nrInsn == Pos(cfg, p, |p|)
      invariant e.fixups == Fixups(cfg, p, |p|) && Fixups(cfg, p, j) == e.fixups[..i]
      invariant forall x :: 0 <= x < j && p[x].IsJump() ==> p[x].Target() <= |p|
      invariant Resolves(p) ==> e.Text() == Mixed(cfg, p, |p|, j)
    {
      j := NextFixup(cfg, p, i, j);
      var (at, to) := e.fixups[i];
      if to <= |p| { MapAt(e.pcMap[..], cfg, p, to); }
      if to > |p| || e.pcMap[to] < 0 {
        e.failed := Some(Unresolved);
        return;
      }
      JumpInside(cfg, p, j);
      var off := Off16(e.pcMap[to] - at - 1);
      ghost var text := e.Text();
      match e.insn[at] {
        case Ja(_) => e.insn[at] := B.Ja(off);
        case JmpImm(o, d, imm, _) => e.insn[at] := B.JmpImm(o, d, imm, off);
        case _ =>
      }
      if Resolves(p) {
        MixedPatch(cfg, p, |p|, j);
        PatchedJump(cfg, p, j);
        JumpGen(cfg, p, j);
        assert text[at] == Gen(cfg, p, j).insns[0];
        assert e.Text() == text[at := Patched(cfg, p, j)[0]];
      }
      j := j + 1;
      i := i + 1;
    }
    assert e.fixups[..i] == e.fixups;
    NoMoreFixups(cfg, p, j);
    MixedIsAssembled(cfg, p, |p|);
  }

  lemma MapAt(pcs: seq<int>, cfg: Config, p: seq<Instr>, t: nat)
    requires cfg.Valid() && t <= |p| < |pcs| && Emits(cfg, p, |p|) && !Folded(cfg, p, |p|)
    requires Mapped(pcs, cfg, p, |p|) && pcs[|p|] == Pos(cfg, p, |p|)
    ensures pcs[t] == Start(cfg, p, t)
  {}

  lemma JumpInside(cfg: Config, p: seq<Instr>, j: nat)
    requires cfg.Valid() && j < |p| && Emits(cfg, p, |p|) && p[j].IsJump()
    ensures Pos(cfg, p, j) < Pos(cfg, p, |p|)
  {
    JumpGen(cfg, p, j);
    PosStep(cfg, p, j);
    PosMono(cfg, p, j + 1, |p|);
  }

  // ----- the whole translation -----

  lemma FirstErrorAt(cfg: Config, p: seq<Instr>, i: nat, k: nat)
    requires cfg.Valid() && i <= k <= |p| && Emits(cfg, p, k)
    ensures FirstError(cfg, p, i) == FirstError(cfg, p, k)
    decreases k - i
  {
    hide Gen;
    if i < k { FirstErrorAt(cfg, p, i + 1, k); }
  }

  /** `expr_to_bpf`: the buffer of eight instructions per word and eight more is never too small. */
  method ExprToBpf(cfg: Config, globals: seq<Word>, p: seq<Instr>) returns (r: Emit)
    requires cfg.Valid()
    ensures r == Translate(cfg, globals, p)
  {
    hide Gen; hide Pos; hide Depth; hide Folds; hide Assembled; hide Raw; hide Mapped; hide Resolves;
    for i := 0 to |globals|
      invariant forall x :: 0 <= x < i ==> cfg.IsField(globals[x])
    {
      if !cfg.IsField(globals[i]) {
        assert globals[i] in globals;
        return Fail(NotAField);
      }
    }
    var e := new BpfEmit(|p|, WordsOf(p) + 1);
    EnoughRoom(p, |p|);
    var pc := 0;
    Initially(e.pcMap[..], cfg, p);
    while pc < |p|
      invariant 0 <= pc <= |p| && fresh(e) && fresh(e.insn) && fresh(e.pcMap) && Holds(e, cfg, p, pc)
      decreases |p| - pc
    {
      FirstErrorAt(cfg, p, 0, pc);
      pc := Turn(e, cfg, p, pc);
      if e.failed.Some? { return Fail(e.failed.value); }
    }
    FirstErrorAt(cfg, p, 0, |p|);
    MapEnd(e.pcMap[..], cfg, p, e.nrInsn);
    ghost var pcs := e.pcMap[..];
    e.pcMap[|p|] := e.nrInsn;
    assert e.pcMap[..] == pcs[|p| := e.nrInsn];
    Resolve(e, cfg, p);
    if e.failed.Some? { return Fail(e.failed.value); }
    while e.nrInsn < 2
      invariant e.Valid() && e.failed.None? && e.insn.Length >= 2 && fresh(e) && fresh(e.insn)
      invariant Padded(e.Text()) == Padded(Assembled(cfg, p, |p|))
      decreases 2 - e.nrInsn
    {
      e.Emit(B.Exit);
    }
    r := Emitted(e.insn[..e.nrInsn]);
  }

  lemma {:induction false} EnoughRoom(p: seq<Instr>, k: nat)
    requires k <= |p|
    ensures k <= WordsUpTo(p, k)
  {
    if k > 0 { EnoughRoom(p, k - 1); }
  }

  lemma Initially(pcs: seq<int>, cfg: Config, p: seq<Instr>)
    requires cfg.Valid() && |p| < |pcs|
    ensures Emits(cfg, p, 0) && Mapped(pcs, cfg, p, 0) && Raw(cfg, p, 0) == [] && Depth(p, 0) == 0
  {}

  lemma MapEnd(pcs: seq<int>, cfg: Config, p: seq<Instr>, x: int)
    requires cfg.Valid() && |p| < |pcs| && Emits(cfg, p, |p|) && Mapped(pcs, cfg, p, |p|)
    ensures Mapped(pcs[|p| := x], cfg, p, |p|)
  {}
}
