/** Whole programs: the translated code simulates the interpreter. */
module BpfSim {
  import opened Words
  import opened Vm
  import opened CompileRuns
  import opened Programs
  import opened BpfBackend
  import opened BpfRefines
  import B = Bpf

  // ----- jumps to folded loads -----

  function WithTarget(i: Instr, t: nat): (r: Instr)
    requires i.IsJump()
    ensures r.IsJump() && r.Target() == t
  { match i case JMP(_) => JMP(t) case BZ(_) => BZ(t) case BNZ(_) => BNZ(t) }

  /** The address a folded load really reads: the offset of the field goes through a signed 16-bit field. */
  function Reached(cfg: Config, v: Word): Word { Wrap(cfg.data + Off16(v - cfg.data)) }

  /** The program the BPF code really runs: every jump to a load that was folded into the field
      address before it goes to that address instead, and every such address is the one reached. */
  function Retarget(cfg: Config, p: seq<Instr>): (q: seq<Instr>)
    ensures |q| == |p|
    ensures forall i :: 0 <= i < |p| && !p[i].IsJump() ==> q[i] == if Folds(cfg, p, i) then IMM(Reached(cfg, p[i].v))
                                                                   else p[i]
    ensures forall i :: 0 <= i < |p| && p[i].IsJump() ==>
              q[i] == WithTarget(p[i], if Folded(cfg, p, p[i].Target()) then p[i].Target() - 1 else p[i].Target())
  {
    seq(|p|, i requires 0 <= i < |p| =>
      if p[i].IsJump() && Folded(cfg, p, p[i].Target()) then WithTarget(p[i], p[i].Target() - 1)
      else if Folds(cfg, p, i) then IMM(Reached(cfg, p[i].v))
      else p[i])
  }

  /** No jump lands on a folded load: neither arm of a conditional that is dereferenced, nor a
      short-circuit operand, ends in a bare field address. */
  predicate NoJumpToFolded(cfg: Config, p: seq<Instr>) {
    forall i :: 0 <= i < |p| && p[i].IsJump() ==> !Folded(cfg, p, p[i].Target())
  }

  /** Every field that is loaded directly is in the first 32768 bytes of the event. */
  predicate NearFields(cfg: Config, p: seq<Instr>) {
    forall i :: 0 <= i < |p| && Folds(cfg, p, i) ==> p[i].v - cfg.data < 0x8000
  }

  lemma NearReached(cfg: Config, v: Word)
    requires cfg.Valid() && cfg.IsField(v)
    ensures Reached(cfg, v) == v <==> v - cfg.data < 0x8000
  {
    var off := v - cfg.data;
    Off16Facts(off);
    if off >= 0x8000 {
      assert -TWO31 < Off16(off) < off;
      assert cfg.data + Off16(off) == v - (off - Off16(off)) && 0 < off - Off16(off) < TWO32;
    }
  }

  lemma Off16Facts(off: int)
    requires 0 <= off < TWO31
    ensures -0x8000 <= Off16(off) < 0x8000
    ensures Off16(off) == off <==> off < 0x8000
  {}

  /** The BPF code follows the program itself exactly when no jump lands on a folded load and no folded
      load is of a far field. */
  lemma RetargetIdentity(cfg: Config, p: seq<Instr>)
    requires cfg.Valid()
    ensures Retarget(cfg, p) == p <==> NoJumpToFolded(cfg, p) && NearFields(cfg, p)
  {
    hide Reached;
    var q := Retarget(cfg, p);
    forall i | 0 <= i < |p| && Folds(cfg, p, i) ensures Reached(cfg, p[i].v) == p[i].v <==> p[i].v - cfg.data < 0x8000 {
      NearReached(cfg, p[i].v);
    }
    if NoJumpToFolded(cfg, p) && NearFields(cfg, p) {
      forall i | 0 <= i < |p| ensures q[i] == p[i] {}
      assert q == p;
    } else if !NoJumpToFolded(cfg, p) {
      var i :| 0 <= i < |p| && p[i].IsJump() && Folded(cfg, p, p[i].Target());
      assert q[i].Target() == p[i].Target() - 1;
    } else {
      var i :| 0 <= i < |p| && Folds(cfg, p, i) && p[i].v - cfg.data >= 0x8000;
      assert q[i] != p[i];
    }
  }

  lemma {:induction false} RetargetDepth(cfg: Config, p: seq<Instr>, i: nat)
    requires i <= |p|
    ensures Depth(Retarget(cfg, p), i) == Depth(p, i)
  {
    hide Retarget;
    if i > 0 {
      RetargetDepth(cfg, p, i - 1);
      RetargetSort(cfg, p, i - 1);
    }
  }

  /** A retargeted jump still goes forward, to a place of the same depth that is not folded. */
  lemma RetargetJump(cfg: Config, p: seq<Instr>, i: nat)
    requires Consistent(p) && i < |p| && p[i].IsJump()
    ensures var t := Retarget(cfg, p)[i].Target();
            i < t < |p| && Depth(p, t) == Depth(p, i) && !Folded(cfg, p, t)
            && (t == p[i].Target() || (Folded(cfg, p, p[i].Target()) && t + 1 == p[i].Target()))
  {
    hide Depth; hide Folded; hide Consistent;
    var t := p[i].Target();
    JumpFacts(p, i);
    if Folded(cfg, p, t) {
      FoldedFacts(cfg, p, t);
      DepthStep(p, t - 1);
    }
  }

  lemma JumpFacts(p: seq<Instr>, i: nat)
    requires Consistent(p) && i < |p| && p[i].IsJump()
    ensures i < p[i].Target() < |p| && Depth(p, p[i].Target()) == Depth(p, i)
  {}

  lemma FoldedFacts(cfg: Config, p: seq<Instr>, t: nat)
    requires Folded(cfg, p, t)
    ensures 1 <= t < |p| && p[t - 1].Effect() == 0 && !p[t - 1].IsJump() && !Folded(cfg, p, t - 1)
  {}

  lemma DepthStep(p: seq<Instr>, i: nat)
    requires i < |p|
    ensures Depth(p, i + 1) == Depth(p, i) + p[i].Effect()
  {}

  lemma RetargetConsistent(cfg: Config, p: seq<Instr>)
    requires Consistent(p)
    ensures Consistent(Retarget(cfg, p))
  {
    var q := Retarget(cfg, p);
    hide Depth; hide Folded; hide Retarget; hide Folds; hide Reached;
    forall i | 0 <= i <= |p| ensures Depth(q, i) == Depth(p, i) { RetargetDepth(cfg, p, i); }
    forall i | 0 <= i < |p|
      ensures q[i].IsJump() ==> i < q[i].Target() < |q| && Depth(q, q[i].Target()) == Depth(q, i)
      ensures q[i].Pops() ==> 0 < Depth(q, i)
      ensures q[i].EXIT? == p[i].EXIT?
    {
      RetargetSort(cfg, p, i);
      if q[i].IsJump() { RetargetJump(cfg, p, i); }
    }
  }

  lemma RetargetSort(cfg: Config, p: seq<Instr>, i: nat)
    requires i < |p|
    ensures var x := Retarget(cfg, p)[i];
            x.IsJump() == p[i].IsJump() && x.Pops() == p[i].Pops() &&
            x.EXIT? == p[i].EXIT? && x.Effect() == p[i].Effect()
  {
    hide Reached;
  }

  // ----- layout of the BPF code -----

  /** Small enough for the signed 16-bit distances of jumps, and no builtin calls. */
  predicate Encodable(p: seq<Instr>) {
    && |p| < BUFFER_WORDS
    && forall i :: 0 <= i < |p| ==> !p[i].Call?
  }

  lemma {:induction false} PosBound(cfg: Config, p: seq<Instr>, i: nat)
    requires cfg.Valid() && i <= |p| && Emits(cfg, p, |p|)
    ensures Pos(cfg, p, i) <= 4 * i
  {
    if i > 0 { PosBound(cfg, p, i - 1); }
  }

  lemma {:induction false} PosMono(cfg: Config, p: seq<Instr>, i: nat, j: nat)
    requires cfg.Valid() && i <= j <= |p| && Emits(cfg, p, |p|)
    ensures Pos(cfg, p, i) <= Pos(cfg, p, j)
    decreases j - i
  {
    hide Gen;
    if i < j { PosMono(cfg, p, i, j - 1); }
  }

  lemma {:induction false} AssembledAt(cfg: Config, p: seq<Instr>, i: nat, k: nat)
    requires cfg.Valid() && i < k <= |p| && Emits(cfg, p, |p|) && Resolves(p)
    ensures BAt(Assembled(cfg, p, k), Pos(cfg, p, i), Patched(cfg, p, i))
    decreases k
  {
    hide Gen; hide Patched; hide Landing;
    var front, last := Assembled(cfg, p, k - 1), Patched(cfg, p, k - 1);
    if i == k - 1 {
      assert (front + last)[|front|..|front| + |last|] == last;
    } else {
      AssembledAt(cfg, p, i, k - 1);
      var n, s := Pos(cfg, p, i), Patched(cfg, p, i);
      assert (front + last)[n..n + |s|] == front[n..n + |s|];
    }
  }

  function Output(cfg: Config, p: seq<Instr>): seq<B.Insn>
    requires cfg.Valid() && Emits(cfg, p, |p|) && Resolves(p)
  { Padded(Assembled(cfg, p, |p|)) }

  lemma OutputAt(cfg: Config, p: seq<Instr>, i: nat)
    requires cfg.Valid() && i < |p| && Emits(cfg, p, |p|) && Resolves(p)
    ensures BAt(Output(cfg, p), Pos(cfg, p, i), Patched(cfg, p, i))
  {
    hide Gen; hide Patched; hide Landing; hide Assembled; hide Pos;
    AssembledAt(cfg, p, i, |p|);
    var a, n, s := Assembled(cfg, p, |p|), Pos(cfg, p, i), Patched(cfg, p, i);
    assert Output(cfg, p)[..|a|] == a;
    assert Output(cfg, p)[n..n + |s|] == a[n..n + |s|];
  }

  /** The distance a resolved jump covers, which is never negative and fits its field. */
  lemma JumpDistance(cfg: Config, p: seq<Instr>, i: nat)
    requires cfg.Valid() && Consistent(p) && Emits(cfg, p, |p|) && Encodable(p)
    requires i < |p| && p[i].IsJump()
    ensures var t := Retarget(cfg, p)[i].Target();
            i < t < |p| && Landing(cfg, p, p[i].Target()) == Pos(cfg, p, t) && Pos(cfg, p, i) + 1 <= Pos(cfg, p, t)
            && Off16(Pos(cfg, p, t) - Pos(cfg, p, i) - 1) == Pos(cfg, p, t) - Pos(cfg, p, i) - 1
  {
    hide Consistent; hide Gen; hide Depth; hide Folded; hide Off16; hide Retarget;
    RetargetJump(cfg, p, i);
    var t := Retarget(cfg, p)[i].Target();
    JumpLength(cfg, p, i);
    PosMono(cfg, p, i + 1, t);
    PosBound(cfg, p, t);
    Off16Small(Pos(cfg, p, t) - Pos(cfg, p, i) - 1);
  }

  lemma JumpLength(cfg: Config, p: seq<Instr>, i: nat)
    requires cfg.Valid() && Emits(cfg, p, |p|) && i < |p| && p[i].IsJump()
    ensures Pos(cfg, p, i + 1) == Pos(cfg, p, i) + 1
  {}

  lemma GenForward(cfg: Config, p: seq<Instr>, i: nat)
    requires cfg.Valid() && i < |p| && Gen(cfg, p, i).Emitted?
    ensures B.OnlyForward(Gen(cfg, p, i).insns)
  {}

  lemma PatchedForward(cfg: Config, p: seq<Instr>, i: nat)
    requires cfg.Valid() && Consistent(p) && Emits(cfg, p, |p|) && Encodable(p) && Resolves(p) && i < |p|
    ensures B.OnlyForward(Patched(cfg, p, i))
  {
    hide Gen; hide Pos; hide Landing; hide Consistent; hide Retarget;
    GenForward(cfg, p, i);
    if p[i].IsJump() { JumpDistance(cfg, p, i); }
  }

  lemma {:induction false} AssembledForward(cfg: Config, p: seq<Instr>, k: nat)
    requires cfg.Valid() && Consistent(p) && Emits(cfg, p, |p|) && Encodable(p) && Resolves(p) && k <= |p|
    ensures B.OnlyForward(Assembled(cfg, p, k))
  {
    hide Gen; hide Patched; hide Pos; hide Consistent; hide Emits;
    if k > 0 {
      AssembledForward(cfg, p, k - 1);
      PatchedForward(cfg, p, k - 1);
    }
  }

  lemma OutputForward(cfg: Config, p: seq<Instr>)
    requires cfg.Valid() && Consistent(p) && Emits(cfg, p, |p|) && Encodable(p) && Resolves(p)
    ensures B.OnlyForward(Output(cfg, p))
  {
    hide Gen; hide Patched; hide Pos; hide Consistent; hide Emits; hide Assembled;
    AssembledForward(cfg, p, |p|);
  }

  // ----- simulation -----

  /** A translated program and what the lemmas above need of it. */
  ghost predicate Ready(cfg: Config, p: seq<Instr>) {
    cfg.Valid() && Consistent(p) && Emits(cfg, p, |p|) && Encodable(p)
  }

  lemma ReadyFacts(cfg: Config, p: seq<Instr>)
    requires Ready(cfg, p)
    ensures Resolves(p) && B.OnlyForward(Output(cfg, p)) && Consistent(Retarget(cfg, p)) && Forward(Retarget(cfg, p))
  {
    hide Depth; hide Gen; hide Retarget; hide Output; hide Pos;
    OutputForward(cfg, p);
    RetargetConsistent(cfg, p);
  }

  /** The accumulator is in r0, the event pointer in r1, stack slot `k` in the k-th slot register. */
  ghost predicate Rel(cfg: Config, p: seq<Instr>, s: State, r: B.Regs)
    requires cfg.Valid()
  {
    && s.pc < |p| && !Folded(cfg, p, s.pc)
    && r[ACC] == s.a && r[EVENT] == cfg.data
    && |s.stack| == Depth(p, s.pc) && |s.stack| <= cfg.Slots()
    && forall k {:trigger s.stack[k]} :: 0 <= k < |s.stack| ==> r[cfg.Slot(k)] == s.stack[k]
  }

  lemma PosStep(cfg: Config, p: seq<Instr>, i: nat)
    requires cfg.Valid() && i < |p| && Emits(cfg, p, |p|)
    ensures Pos(cfg, p, i + 1) == Pos(cfg, p, i) + |Gen(cfg, p, i).insns|
  {
    hide Gen;
  }

  lemma NotLast(p: seq<Instr>, i: nat)
    requires Consistent(p) && i < |p| && !p[i].EXIT?
    ensures i + 1 < |p|
  {}

  /** Code of a non-jump sits where its position says. */
  lemma PlainAt(cfg: Config, p: seq<Instr>, i: nat)
    requires Ready(cfg, p) && i < |p| && !p[i].IsJump()
    ensures Resolves(p) && Gen(cfg, p, i).Emitted? && BAt(Output(cfg, p), Pos(cfg, p, i), Gen(cfg, p, i).insns)
    ensures Pos(cfg, p, i + 1) == Pos(cfg, p, i) + |Gen(cfg, p, i).insns|
  {
    hide Gen; hide Output; hide Pos; hide Encodable; hide Landing;
    ReadyFacts(cfg, p);
    OutputAt(cfg, p, i);
    PosStep(cfg, p, i);
  }

  /** What a non-jump instruction that lets control through leads to. */
  ghost predicate Through(cfg: Config, p: seq<Instr>, s: State, r: B.Regs, s': State, r': B.Regs)
    requires Ready(cfg, p) && s.pc < |p|
  {
    ReadyFacts(cfg, p);
    && Rel(cfg, p, s', r') && s.pc < s'.pc
    && Exec(Retarget(cfg, p), s) == Exec(Retarget(cfg, p), s')
    && B.Run(Output(cfg, p), Pos(cfg, p, s.pc), r, s.mem) == B.Run(Output(cfg, p), Pos(cfg, p, s'.pc), r', s'.mem)
  }

  lemma FoldedAfter(cfg: Config, p: seq<Instr>, i: nat)
    requires i < |p| && !Folds(cfg, p, i)
    ensures !Folded(cfg, p, i + 1)
  {}

  /** A field address and its load, done as one load off the event pointer. */
  lemma SimFold(cfg: Config, p: seq<Instr>, s: State, r: B.Regs) returns (s': State, r': B.Regs)
    requires Ready(cfg, p) && Rel(cfg, p, s, r) && Folds(cfg, p, s.pc)
    requires Forward(Retarget(cfg, p)) && Exec(Retarget(cfg, p), s).Exited?
    ensures Through(cfg, p, s, r, s', r')
  {
    hide Consistent; hide Depth; hide Retarget; hide Exec; hide B.Run; hide Output; hide Pos; hide Patched;
    hide Resolves; hide Encodable; hide B.OnlyForward; hide LoadTyped; hide LoadCode; hide Off16;
    ReadyFacts(cfg, p);
    var q, pc, v, t := Retarget(cfg, p), s.pc, p[s.pc].v, p[s.pc + 1].ty;
    var a := Reached(cfg, v);
    assert q[pc] == IMM(a) && q[pc + 1] == p[pc + 1] by { RetargetFold(cfg, p, pc); RetargetPlain(cfg, p, pc + 1); }
    DoImm(q, pc, a, s.a, s.stack, s.mem);
    DoLoad(q, pc + 1, t, a, s.stack, s.mem);
    var x := LoadTyped(s.mem, a, t).value;
    s', r' := State(pc + 2, x, s.stack, s.mem), r[ACC := x];
    PlainAt(cfg, p, pc);
    PlainAt(cfg, p, pc + 1);
    RunLoad(Output(cfg, p), Pos(cfg, p, pc), cfg, t, EVENT, v - cfg.data, r, s.mem, x);
    NotLast(p, pc + 1);
    DepthStep(p, pc);
    DepthStep(p, pc + 1);
  }

  lemma RetargetPlain(cfg: Config, p: seq<Instr>, i: nat)
    requires i < |p| && !p[i].IsJump() && (p[i].IMM? ==> !Folds(cfg, p, i))
    ensures Retarget(cfg, p)[i] == p[i]
  {}

  lemma RetargetFold(cfg: Config, p: seq<Instr>, i: nat)
    requires Folds(cfg, p, i)
    ensures Retarget(cfg, p)[i] == IMM(Reached(cfg, p[i].v)) && !Folds(cfg, p, i + 1)
  {}

  lemma SimImm(cfg: Config, p: seq<Instr>, s: State, r: B.Regs) returns (s': State, r': B.Regs)
    requires Ready(cfg, p) && Rel(cfg, p, s, r) && !Folds(cfg, p, s.pc) && p[s.pc].IMM?
    requires Forward(Retarget(cfg, p))
    ensures Through(cfg, p, s, r, s', r')
  {
    hide Consistent; hide Depth; hide Folds; hide Folded; hide Retarget; hide Exec; hide B.Run; hide Output;
    hide Pos; hide Patched; hide Resolves; hide Encodable; hide B.OnlyForward; hide ImmCode;
    ReadyFacts(cfg, p);
    var q, pc, v := Retarget(cfg, p), s.pc, p[s.pc].v;
    RetargetPlain(cfg, p, pc);
    DoImm(q, pc, v, s.a, s.stack, s.mem);
    s', r' := State(pc + 1, v, s.stack, s.mem), r[ACC := v];
    PlainAt(cfg, p, pc);
    if cfg.IsField(v) {
      RunFieldAddress(Output(cfg, p), Pos(cfg, p, pc), cfg, v, r, s.mem);
    } else {
      RunImm(Output(cfg, p), Pos(cfg, p, pc), v, r, s.mem);
    }
    NotLast(p, pc);
    DepthStep(p, pc);
    FoldedAfter(cfg, p, pc);
  }

  lemma NoFoldHere(cfg: Config, p: seq<Instr>, i: nat)
    requires i < |p| && !p[i].IMM?
    ensures !Folds(cfg, p, i) && !Folded(cfg, p, i + 1)
  {}

  lemma SimLoad(cfg: Config, p: seq<Instr>, s: State, r: B.Regs) returns (s': State, r': B.Regs)
    requires Ready(cfg, p) && Rel(cfg, p, s, r) && p[s.pc].LI?
    requires Forward(Retarget(cfg, p)) && Exec(Retarget(cfg, p), s).Exited?
    ensures Through(cfg, p, s, r, s', r')
  {
    hide Consistent; hide Depth; hide Folds; hide Folded; hide Retarget; hide Exec; hide B.Run; hide Output;
    hide Pos; hide Patched; hide Resolves; hide Encodable; hide B.OnlyForward; hide LoadTyped; hide LoadCode;
    ReadyFacts(cfg, p);
    var q, pc, t := Retarget(cfg, p), s.pc, p[s.pc].ty;
    RetargetPlain(cfg, p, pc);
    DoLoad(q, pc, t, s.a, s.stack, s.mem);
    var x := LoadTyped(s.mem, s.a, t).value;
    s', r' := State(pc + 1, x, s.stack, s.mem), r[ACC := x];
    PlainAt(cfg, p, pc);
    Off16Small(0);
    RunLoad(Output(cfg, p), Pos(cfg, p, pc), cfg, t, ACC, 0, r, s.mem, x);
    NotLast(p, pc);
    DepthStep(p, pc);
    NoFoldHere(cfg, p, pc);
  }

  lemma SimPush(cfg: Config, p: seq<Instr>, s: State, r: B.Regs) returns (s': State, r': B.Regs)
    requires Ready(cfg, p) && Rel(cfg, p, s, r) && p[s.pc].PSH?
    requires Forward(Retarget(cfg, p))
    ensures Through(cfg, p, s, r, s', r')
  {
    hide Consistent; hide Depth; hide Folds; hide Folded; hide Retarget; hide Exec; hide B.Run; hide Output;
    hide Pos; hide Patched; hide Resolves; hide Encodable; hide B.OnlyForward;
    ReadyFacts(cfg, p);
    var q, pc := Retarget(cfg, p), s.pc;
    RetargetPlain(cfg, p, pc);
    DoPush(q, pc, s.a, s.stack, s.mem);
    PlainAt(cfg, p, pc);
    var d := Depth(p, pc);
    s', r' := State(pc + 1, s.a, s.stack + [s.a], s.mem), r[cfg.Slot(d) := s.a];
    BAtOne(Output(cfg, p), Pos(cfg, p, pc), Gen(cfg, p, pc).insns, 0);
    DoMov(Output(cfg, p), Pos(cfg, p, pc), r, s.mem);
    NotLast(p, pc);
    DepthStep(p, pc);
    NoFoldHere(cfg, p, pc);
  }

  lemma SimBin(cfg: Config, p: seq<Instr>, s: State, r: B.Regs) returns (s': State, r': B.Regs)
    requires Ready(cfg, p) && Rel(cfg, p, s, r) && p[s.pc].Bin?
    requires Forward(Retarget(cfg, p)) && Exec(Retarget(cfg, p), s).Exited?
    ensures Through(cfg, p, s, r, s', r')
  {
    hide Consistent; hide Depth; hide Folds; hide Folded; hide Retarget; hide Exec; hide B.Run; hide Output;
    hide Pos; hide Patched; hide Resolves; hide Encodable; hide B.OnlyForward; hide Alu; hide BinCode; hide BpfValue;
    ReadyFacts(cfg, p);
    var q, pc, op := Retarget(cfg, p), s.pc, p[s.pc].op;
    RetargetPlain(cfg, p, pc);
    PlainAt(cfg, p, pc);
    var d := Depth(p, pc);
    var below, x := s.stack[..d - 1], s.stack[d - 1];
    assert s.stack == below + [x];
    DoBin(q, pc, op, x, s.a, below, s.mem);
    r' := RunBin(Output(cfg, p), Pos(cfg, p, pc), cfg, op, cfg.Slot(d - 1), r, s.mem);
    s' := State(pc + 1, Alu(op, x, s.a).value, below, s.mem);
    OperatorsAgree(op, x, s.a);
    NotLast(p, pc);
    DepthStep(p, pc);
    NoFoldHere(cfg, p, pc);
  }

  lemma SimStore(cfg: Config, p: seq<Instr>, s: State, r: B.Regs) returns (s': State, r': B.Regs)
    requires Ready(cfg, p) && Rel(cfg, p, s, r) && p[s.pc].SI?
    requires Forward(Retarget(cfg, p)) && Exec(Retarget(cfg, p), s).Exited?
    ensures Through(cfg, p, s, r, s', r')
  {
    hide Consistent; hide Depth; hide Folds; hide Folded; hide Retarget; hide Exec; hide B.Run; hide Output;
    hide Pos; hide Patched; hide Resolves; hide Encodable; hide B.OnlyForward; hide Store;
    ReadyFacts(cfg, p);
    var q, pc, t := Retarget(cfg, p), s.pc, p[s.pc].ty;
    RetargetPlain(cfg, p, pc);
    PlainAt(cfg, p, pc);
    var d := Depth(p, pc);
    var below, x := s.stack[..d - 1], s.stack[d - 1];
    assert s.stack == below + [x];
    DoStore(q, pc, t, x, s.a, below, s.mem);
    var m := Store(s.mem, x, s.a, t.Size()).value;
    s', r' := State(pc + 1, s.a, below, m), r;
    BAtOne(Output(cfg, p), Pos(cfg, p, pc), Gen(cfg, p, pc).insns, 0);
    DoStx(Output(cfg, p), Pos(cfg, p, pc), r, s.mem, m);
    NotLast(p, pc);
    DepthStep(p, pc);
    NoFoldHere(cfg, p, pc);
  }

  lemma JumpAt(cfg: Config, p: seq<Instr>, i: nat)
    requires Ready(cfg, p) && i < |p| && p[i].IsJump()
    ensures Resolves(p)
    ensures var t, n := Retarget(cfg, p)[i].Target(), Pos(cfg, p, i);
            i < t < |p| && Pos(cfg, p, i + 1) == n + 1 && n < |Output(cfg, p)| && Output(cfg, p)[n] ==
            var off := Pos(cfg, p, t) - n - 1;
            match p[i]
            case JMP(_) => B.Ja(off)
            case BZ(_) => B.JmpImm(B.JEQ, ACC, 0, off)
            case BNZ(_) => B.JmpImm(B.JNE, ACC, 0, off)
            case _ => B.Exit
  {
    hide Gen; hide Output; hide Pos; hide Retarget; hide Depth; hide Landing; hide Off16;
    ReadyFacts(cfg, p);
    JumpDistance(cfg, p, i);
    JumpLength(cfg, p, i);
    OutputAt(cfg, p, i);
    BAtOne(Output(cfg, p), Pos(cfg, p, i), Patched(cfg, p, i), 0);
  }

  lemma SimJump(cfg: Config, p: seq<Instr>, s: State, r: B.Regs) returns (s': State, r': B.Regs)
    requires Ready(cfg, p) && Rel(cfg, p, s, r) && p[s.pc].IsJump()
    requires Forward(Retarget(cfg, p))
    ensures Through(cfg, p, s, r, s', r')
  {
    hide Consistent; hide Gen; hide Depth; hide Folds; hide Folded; hide Retarget; hide Exec; hide B.Run;
    hide Output; hide Pos; hide Patched; hide Resolves; hide Encodable; hide B.OnlyForward;
    ReadyFacts(cfg, p);
    var q, pc := Retarget(cfg, p), s.pc;
    RetargetKind(cfg, p, pc);
    JumpAt(cfg, p, pc);
    RetargetJump(cfg, p, pc);
    DoJump(q, pc, s.a, s.stack, s.mem);
    DoBranch(Output(cfg, p), Pos(cfg, p, pc), r, s.mem);
    var go := p[pc].JMP? || (p[pc].BZ? && s.a == 0) || (p[pc].BNZ? && s.a != 0);
    s', r' := s.(pc := if go then q[pc].Target() else pc + 1), r;
    NotLast(p, pc);
    DepthStep(p, pc);
    NoFoldHere(cfg, p, pc);
  }

  lemma RetargetKind(cfg: Config, p: seq<Instr>, i: nat)
    requires i < |p| && p[i].IsJump()
    ensures var q := Retarget(cfg, p);
            |q| == |p| && (q[i].JMP? == p[i].JMP?) && (q[i].BZ? == p[i].BZ?) && (q[i].BNZ? == p[i].BNZ?)
  {}

  lemma SimExit(cfg: Config, p: seq<Instr>, s: State, r: B.Regs)
    requires Ready(cfg, p) && Rel(cfg, p, s, r) && p[s.pc].EXIT?
    requires Forward(Retarget(cfg, p)) && Resolves(p) && B.OnlyForward(Output(cfg, p))
    ensures Exec(Retarget(cfg, p), s) == Exited(s.a, s.mem)
    ensures B.Run(Output(cfg, p), Pos(cfg, p, s.pc), r, s.mem) == B.Returned(s.a, s.mem)
  {
    hide Consistent; hide Depth; hide Folds; hide Folded; hide Retarget; hide Output; hide Pos;
    RetargetPlain(cfg, p, s.pc);
    PlainAt(cfg, p, s.pc);
    BAtOne(Output(cfg, p), Pos(cfg, p, s.pc), Gen(cfg, p, s.pc).insns, 0);
  }

  lemma Supported(cfg: Config, p: seq<Instr>, i: nat)
    requires Ready(cfg, p) && i < |p|
    ensures p[i].IMM? || p[i].LI? || p[i].SI? || p[i].PSH? || p[i].Bin? || p[i].IsJump() || p[i].EXIT?
  {
    hide Depth; hide Consistent;
    assert Gen(cfg, p, i).Emitted? && !p[i].Call?;
  }

  /** From related states, whenever the interpreter reaches EXIT the BPF code returns the same value
      and leaves the same memory. */
  lemma {:induction false} Simulates(cfg: Config, p: seq<Instr>, s: State, r: B.Regs)
    requires Ready(cfg, p) && Rel(cfg, p, s, r)
    requires Forward(Retarget(cfg, p)) && Resolves(p) && B.OnlyForward(Output(cfg, p))
    ensures var out := Exec(Retarget(cfg, p), s);
            out.Exited? ==> B.Run(Output(cfg, p), Pos(cfg, p, s.pc), r, s.mem) == B.Returned(out.a, out.mem)
    decreases |p| - s.pc
  {
    hide Consistent; hide Gen; hide Depth; hide Folds; hide Folded; hide Retarget; hide Exec; hide B.Run;
    hide Output; hide Pos; hide Patched; hide Resolves; hide Encodable; hide B.OnlyForward; hide Rel;
    if Exec(Retarget(cfg, p), s).Exited? {
      InProgram(cfg, p, s, r);
      Supported(cfg, p, s.pc);
      var i := p[s.pc];
      if i.EXIT? {
        SimExit(cfg, p, s, r);
      } else {
        var s', r' := SimOne(cfg, p, s, r);
        InProgram(cfg, p, s', r');
        Simulates(cfg, p, s', r');
      }
    }
  }

  lemma InProgram(cfg: Config, p: seq<Instr>, s: State, r: B.Regs)
    requires cfg.Valid() && Rel(cfg, p, s, r)
    ensures s.pc < |p|
  {}

  lemma SimOne(cfg: Config, p: seq<Instr>, s: State, r: B.Regs) returns (s': State, r': B.Regs)
    requires Ready(cfg, p) && Rel(cfg, p, s, r) && !p[s.pc].EXIT?
    requires Forward(Retarget(cfg, p)) && Exec(Retarget(cfg, p), s).Exited?
    ensures Through(cfg, p, s, r, s', r')
  {
    hide Consistent; hide Gen; hide Depth; hide Folds; hide Folded; hide Retarget; hide Exec; hide B.Run;
    hide Output; hide Pos; hide Patched; hide Resolves; hide Encodable; hide B.OnlyForward; hide Through;
    Supported(cfg, p, s.pc);
    var i := p[s.pc];
    if Folds(cfg, p, s.pc) {
      s', r' := SimFold(cfg, p, s, r);
    } else if i.IMM? {
      s', r' := SimImm(cfg, p, s, r);
    } else if i.LI? {
      s', r' := SimLoad(cfg, p, s, r);
    } else if i.SI? {
      s', r' := SimStore(cfg, p, s, r);
    } else if i.PSH? {
      s', r' := SimPush(cfg, p, s, r);
    } else if i.Bin? {
      s', r' := SimBin(cfg, p, s, r);
    } else {
      s', r' := SimJump(cfg, p, s, r);
    }
  }
}
