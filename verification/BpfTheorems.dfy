/** The BPF backend on compiled expressions, end to end. */
module BpfTheorems {
  import opened Options
  import opened Words
  import opened Vm
  import opened Syntax
  import opened Compile
  import opened CompileRuns
  import opened CompileShape
  import opened Programs
  import opened Parse
  import opened Frontend
  import opened AnyTokens
  import opened BpfBackend
  import opened BpfRefines
  import opened BpfSim
  import B = Bpf

  lemma {:induction false} InstrsAtMostWords(c: seq<Instr>, i: nat)
    requires i <= |c|
    ensures i <= WordsUpTo(c, i)
  {
    if i > 0 { InstrsAtMostWords(c, i - 1); }
  }

  lemma {:induction false} StartsWithImm(es: seq<Expr>)
    requires AllGood(es) && es != []
    ensures |ListCode(es)| >= 1 && ListCode(es)[0].IMM?
  {
    hide Code; hide TypeOf;
    if |es| > 1 { StartsWithImm(es[..|es| - 1]); }
  }

  lemma TranslateFacts(cfg: Config, globals: seq<Word>, p: seq<Instr>)
    requires cfg.Valid() && Translate(cfg, globals, p).Emitted?
    ensures Emits(cfg, p, |p|) && Resolves(p) && Translate(cfg, globals, p) == Emitted(Output(cfg, p))
  {
    hide Gen; hide Assembled;
    NoErrorEmits(cfg, p, 0);
  }

  /** For every consistent program without calls that the backend accepts, from any event bytes and any
      initial registers: whenever the interpreter finishes on the program with its jumps to folded
      loads moved to the folded address and with the addresses its folded loads reach, the BPF code
      returns the same value and leaves the same bytes. Holds for both load sequences and both slot
      ranges, and events of any size. */
  lemma BpfRuns(cfg: Config, globals: seq<Word>, p: seq<Instr>, r: B.Regs, m: Memory)
    requires cfg.Valid() && r[EVENT] == cfg.data
    requires Consistent(p) && Encodable(p) && p[0].IMM? && Translate(cfg, globals, p).Emitted?
    ensures Forward(Retarget(cfg, p)) && B.OnlyForward(Translate(cfg, globals, p).insns)
    ensures var out := Exec(Retarget(cfg, p), State(0, 0, [], m));
            out.Exited? ==> B.Run(Translate(cfg, globals, p).insns, 0, r, m) == B.Returned(out.a, out.mem)
  {
    hide Exec; hide B.Run; hide Translate; hide Output; hide Retarget; hide Resolves; hide Encodable;
    hide Emits; hide B.OnlyForward; hide Forward; hide Rel;
    TranslateFacts(cfg, globals, p);
    assert Ready(cfg, p);
    ReadyFacts(cfg, p);
    var s, q := State(0, r[ACC], [], m), Retarget(cfg, p);
    AtStart(cfg, p, s, r);
    Simulates(cfg, p, s, r);
    RetargetStart(cfg, p);
    DoImm(q, 0, q[0].v, r[ACC], [], m);
    DoImm(q, 0, q[0].v, 0, [], m);
  }

  lemma RetargetStart(cfg: Config, p: seq<Instr>)
    requires p != [] && p[0].IMM?
    ensures Retarget(cfg, p)[0].IMM?
  {}

  /** Compiled lists of trees are such programs. */
  lemma ReadyProgram(es: seq<Expr>)
    requires AllGood(es) && es != [] && WordsOf(Program(es)) < BUFFER_WORDS
    ensures Consistent(Program(es)) && Encodable(Program(es)) && Program(es)[0].IMM?
  {
    hide ListCode; hide Depth;
    ProgramShape(es);
    InstrsAtMostWords(Program(es), |Program(es)|);
    StartsWithImm(es);
  }

  /** And so is whatever the compiler accepts. */
  lemma ReadyTokens(toks: seq<Tok>)
    requires ParseList(toks, START).Done? && WordsOf(ParseList(toks, START).s.code + [EXIT]) < BUFFER_WORDS
    ensures var p := ParseList(toks, START).s.code + [EXIT]; Consistent(p) && Encodable(p) && p[0].IMM?
  {
    hide ParseList; hide Depth; hide Consistent; hide WordsUpTo;
    AnyConsistent(toks);
    var p := ParseList(toks, START).s.code + [EXIT];
    InstrsAtMostWords(p, |p|);
    AnyStart(toks);
  }

  /** So the BPF code of any tokens the compiler and the backend accept follows the interpreter. */
  lemma BpfRunsTokens(cfg: Config, globals: seq<Word>, toks: seq<Tok>, r: B.Regs, m: Memory)
    requires cfg.Valid() && r[EVENT] == cfg.data
    requires ParseList(toks, START).Done? && WordsOf(ParseList(toks, START).s.code + [EXIT]) < BUFFER_WORDS
    requires Translate(cfg, globals, ParseList(toks, START).s.code + [EXIT]).Emitted?
    ensures var p := ParseList(toks, START).s.code + [EXIT];
            && Forward(Retarget(cfg, p)) && B.OnlyForward(Translate(cfg, globals, p).insns)
            && var out := Exec(Retarget(cfg, p), State(0, 0, [], m));
               out.Exited? ==> B.Run(Translate(cfg, globals, p).insns, 0, r, m) == B.Returned(out.a, out.mem)
  {
    hide ParseList; hide Exec; hide B.Run; hide Translate; hide Retarget; hide Consistent; hide Encodable; hide WordsOf;
    hide B.OnlyForward; hide Forward;
    ReadyTokens(toks);
    BpfRuns(cfg, globals, ParseList(toks, START).s.code + [EXIT], r, m);
  }

  lemma AtStart(cfg: Config, p: seq<Instr>, s: State, r: B.Regs)
    requires cfg.Valid() && p != [] && Emits(cfg, p, |p|)
    requires s.pc == 0 && s.stack == [] && r[ACC] == s.a && r[EVENT] == cfg.data
    ensures Rel(cfg, p, s, r) && Pos(cfg, p, 0) == 0
  {}

  /** End to end: if no jump lands on a folded load and no folded load is of a far field, the BPF code
      computes the meaning of the expressions, whenever that is defined: divisors that do not trap,
      shift counts below 64, accesses inside the event. */
  lemma BpfRefinesMeaning(cfg: Config, globals: seq<Word>, es: seq<Expr>, r: B.Regs, m: Memory)
    requires cfg.Valid() && r[EVENT] == cfg.data
    requires AllGood(es) && es != [] && WordsOf(Program(es)) < BUFFER_WORDS
    requires Translate(cfg, globals, Program(es)).Emitted? && NoJumpToFolded(cfg, Program(es))
    requires NearFields(cfg, Program(es))
    ensures B.OnlyForward(Translate(cfg, globals, Program(es)).insns)
    ensures var v := EvalList(es, m);
            v.Some? ==> B.Run(Translate(cfg, globals, Program(es)).insns, 0, r, m) == B.Returned(v.value.v, v.value.mem)
  {
    hide Program; hide Exec; hide B.Run; hide Translate; hide EvalList; hide Retarget; hide NoJumpToFolded;
    hide NearFields;
    ReadyProgram(es);
    BpfRuns(cfg, globals, Program(es), r, m);
    RetargetIdentity(cfg, Program(es));
    ProgramRuns(es, m);
  }

  // ----- what is translated, and what is refused -----

  /** The addresses of the event. */
  predicate InEvent(cfg: Config, v: Word) { cfg.data != 0 && cfg.data <= v < cfg.data + cfg.datalen }

  /** What the target has no instruction or no register for, and why: signed division needs a new kernel; a
      push needs a register; strings and calls, but for the two that swap bytes, are not supported. */
  function Obstacle(cfg: Config, p: seq<Instr>, i: nat): Option<Error>
    requires i < |p|
  {
    match p[i]
    case IMM(v) =>
      if cfg.str != 0 && cfg.str <= v < cfg.str + cfg.strsize && !InEvent(cfg, v) then Some(NoStrings) else None
    case PSH => if Depth(p, i) >= (if cfg.slotFirst == 2 then 8 else 4) then Some(TooDeep) else None
    case Bin(op) => if (op == DIV || op == MOD) && !cfg.cpuV4 then Some(NeedsCpuV4) else None
    case Str(_) => Some(NoStrings)
    case Call(fn) => if fn == 2 || fn == 3 then None else Some(NoCalls)
    case ADJ(_) => Some(NoCalls)
    case _ => None
  }

  /** The first obstacle from `i` on. */
  function FirstObstacle(cfg: Config, p: seq<Instr>, i: nat): Option<Error>
    requires i <= |p|
    decreases |p| - i
  {
    if i == |p| then None else if Obstacle(cfg, p, i).Some? then Obstacle(cfg, p, i) else FirstObstacle(cfg, p, i + 1)
  }

  lemma {:induction false} NoObstacle(cfg: Config, p: seq<Instr>, i: nat)
    requires i <= |p|
    ensures FirstObstacle(cfg, p, i).None? <==> forall k :: i <= k < |p| ==> Obstacle(cfg, p, k).None?
    decreases |p| - i
  {
    if i < |p| { NoObstacle(cfg, p, i + 1); }
  }

  /** Every consistent program is translated exactly when all globals it refers to are fields of the event and
      none of its instructions is an obstacle; otherwise a global, and failing that the first obstacle, decides
      the error. In particular no jump is ever unresolved and no stack underflow is ever found. */
  lemma TranslatedExactly(cfg: Config, globals: seq<Word>, p: seq<Instr>)
    requires cfg.Valid() && Consistent(p)
    ensures Translate(cfg, globals, p).Emitted? <==>
            && (forall g :: g in globals ==> InEvent(cfg, g))
            && forall i :: 0 <= i < |p| ==> Obstacle(cfg, p, i).None?
    ensures Translate(cfg, globals, p).Fail? ==>
              Some(Translate(cfg, globals, p).err) ==
              if exists g :: g in globals && !InEvent(cfg, g) then Some(NotAField) else FirstObstacle(cfg, p, 0)
    ensures Translate(cfg, globals, p).Emitted? ==> |Translate(cfg, globals, p).insns| >= 2
  {
    hide Depth; hide Gen; hide Assembled; hide Obstacle;
    FirstIsObstacle(cfg, p, 0);
    NoObstacle(cfg, p, 0);
    assert forall g :: cfg.IsField(g) <==> InEvent(cfg, g);
    assert Resolves(p);
  }

  /** Scanning from `i`, when nothing before it is in the way. */
  lemma {:induction false} FirstIsObstacle(cfg: Config, p: seq<Instr>, i: nat)
    requires cfg.Valid() && i <= |p| && Consistent(p) && forall k :: 0 <= k < i ==> Obstacle(cfg, p, k).None?
    ensures FirstError(cfg, p, i) == FirstObstacle(cfg, p, i)
    decreases |p| - i
  {
    hide Depth; hide Gen; hide Obstacle;
    if i < |p| {
      GenObstacle(cfg, p, i);
      if Obstacle(cfg, p, i).None? { FirstIsObstacle(cfg, p, i + 1); }
    }
  }

  lemma GenObstacle(cfg: Config, p: seq<Instr>, i: nat)
    requires cfg.Valid() && i < |p| && Consistent(p) && forall k :: 0 <= k < i ==> Obstacle(cfg, p, k).None?
    ensures match Gen(cfg, p, i)
            case Emitted(_) => Obstacle(cfg, p, i).None?
            case Fail(e) => Obstacle(cfg, p, i) == Some(e)
  {
    hide Depth; hide LoadCode; hide ImmCode; hide CmpCode; hide AluCode;
    ClearDepth(cfg, p, i);
  }

  /** Up to an obstacle the depth stays within the slots. */
  lemma {:induction false} ClearDepth(cfg: Config, p: seq<Instr>, i: nat)
    requires cfg.Valid() && i <= |p| && Consistent(p) && forall k :: 0 <= k < i ==> Obstacle(cfg, p, k).None?
    ensures 0 <= Depth(p, i) <= cfg.Slots()
  {
    if i > 0 {
      ClearDepth(cfg, p, i - 1);
      assert Obstacle(cfg, p, i - 1).None?;
    }
  }

  /** For compiled lists of trees these are: a global outside the event, an expression too deep for the slot
      registers, signed division on an old kernel, a string. */
  lemma RefusalReasons(cfg: Config, globals: seq<Word>, es: seq<Expr>)
    requires cfg.Valid() && AllGood(es)
    ensures match Translate(cfg, globals, Program(es))
            case Emitted(_) => true
            case Fail(e) => e == NotAField || e == TooDeep || e == NeedsCpuV4 || e == NoStrings
  {
    hide ListCode; hide Depth; hide Gen; hide Assembled; hide Translate;
    ProgramShape(es);
    TranslatedExactly(cfg, globals, Program(es));
    ObstacleKinds(cfg, Program(es), 0);
  }

  lemma {:induction false} ObstacleKinds(cfg: Config, p: seq<Instr>, i: nat)
    requires i <= |p| && forall k :: 0 <= k < |p| - 1 ==> !p[k].Call? && !p[k].ADJ?
    requires p != [] && p[|p| - 1].EXIT?
    ensures match FirstObstacle(cfg, p, i)
            case None => true
            case Some(e) => e == TooDeep || e == NeedsCpuV4 || e == NoStrings
    decreases |p| - i
  {
    hide Depth;
    if i < |p| { ObstacleKinds(cfg, p, i + 1); }
  }

  // ----- the family that fails -----

  /** `*(c ? &x : &y)`. */
  function PickField(c: Word, x: Word, y: Word, t: Ty): Expr {
    Deref(Cond(Var(c, t, false), AddrOf(Var(x, t, false)), AddrOf(Var(y, t, false))))
  }

  /** Its program. The jump over the else arm lands on the load that ends it. */
  function PickCode(c: Word, x: Word, y: Word, t: Ty): seq<Instr> {
    [IMM(c), LI(t), BZ(5), IMM(x), JMP(6), IMM(y), LI(t), EXIT]
  }

  lemma AddrOfVar(a: Word, t: Ty, n: nat)
    ensures Good(AddrOf(Var(a, t, false))) && Code(AddrOf(Var(a, t, false)), None, n) == [IMM(a)]
  {
    var v := Var(a, t, false);
    assert Good(v) && IsLvalue(v) && Address(v, None, n) == [IMM(a)];
  }

  lemma PickProgram(c: Word, x: Word, y: Word, t: Ty)
    requires t.ptr == 0
    ensures AllGood([PickField(c, x, y, t)]) && Program([PickField(c, x, y, t)]) == PickCode(c, x, y, t)
  {
    var e := PickField(c, x, y, t);
    var vc, ax, ay := Var(c, t, false), AddrOf(Var(x, t, false)), AddrOf(Var(y, t, false));
    assert TypeOf(vc) == Some(t) && TypeOf(Var(x, t, false)) == Some(t) && TypeOf(Var(y, t, false)) == Some(t);
    assert Good(vc) && Good(ax) && Good(ay) && Type(ay) == PointerTo(t);
    assert Good(e.e) && Type(e.e) == PointerTo(t) && Good(e) && Type(e) == t;
    AddrOfVar(x, t, 3);
    AddrOfVar(y, t, 5);
    assert Code(vc, None, 0) == [IMM(c), LI(t)] && Code(ax, None, 3) == [IMM(x)] && Code(ay, None, 5) == [IMM(y)];
    PickCondCode(c, x, y, t);
    PickDerefCode(c, x, y, t);
    assert [e][..0] == [];
    assert ListCode([e]) == [] + Code(e, None, 0);
  }

  lemma PickCondCode(c: Word, x: Word, y: Word, t: Ty)
    requires t.ptr == 0 && Good(PickField(c, x, y, t).e)
    requires Code(Var(c, t, false), None, 0) == [IMM(c), LI(t)]
    requires Good(AddrOf(Var(x, t, false))) && Code(AddrOf(Var(x, t, false)), None, 3) == [IMM(x)]
    requires Good(AddrOf(Var(y, t, false))) && Code(AddrOf(Var(y, t, false)), None, 5) == [IMM(y)]
    ensures Code(PickField(c, x, y, t).e, None, 0) == [IMM(c), LI(t), BZ(5), IMM(x), JMP(6), IMM(y)]
  {
    hide Code; hide TypeOf; hide Eval;
    var e := PickField(c, x, y, t).e;
    UnfoldCond(e.c, e.a, e.b, None, 0, map[]);
  }

  lemma PickDerefCode(c: Word, x: Word, y: Word, t: Ty)
    requires t.ptr == 0 && Good(PickField(c, x, y, t)) && Type(PickField(c, x, y, t)) == t
    requires Good(PickField(c, x, y, t).e)
    requires Code(PickField(c, x, y, t).e, None, 0) == [IMM(c), LI(t), BZ(5), IMM(x), JMP(6), IMM(y)]
    ensures Code(PickField(c, x, y, t), None, 0) == [IMM(c), LI(t), BZ(5), IMM(x), JMP(6), IMM(y), LI(t)]
  {
    hide Code; hide TypeOf; hide Eval;
    UnfoldDeref(PickField(c, x, y, t).e, None, 0, map[]);
  }

  /** With a non-zero condition the expression is the field `x` and its BPF code returns the field `y`, for
      every choice of fields near the start of the event and every event. */
  lemma FoldedJumpReadsOtherField(cfg: Config, c: Word, x: Word, y: Word, t: Ty, r: B.Regs, m: Memory, vc: Word,
                                  vx: Word, vy: Word)
    requires cfg.Valid() && r[EVENT] == cfg.data && t.ptr == 0
    requires cfg.IsField(c) && cfg.IsField(x) && cfg.IsField(y) && c - cfg.data < 0x8000 && y - cfg.data < 0x8000
    requires LoadTyped(m, c, t) == Some(vc) && vc != 0
    requires LoadTyped(m, x, t) == Some(vx) && LoadTyped(m, y, t) == Some(vy) && vx != vy
    ensures var es := [PickField(c, x, y, t)];
            && AllGood(es) && EvalList(es, m) == Some(Eff(vx, m))
            && var code := Translate(cfg, [c, x, y], Program(es));
               && code.Emitted? && B.OnlyForward(code.insns)
               && B.Run(code.insns, 0, r, m) == B.Returned(vy, m) != B.Returned(vx, m)
  {
    var es, p := [PickField(c, x, y, t)], PickCode(c, x, y, t);
    PickProgram(c, x, y, t);
    PickEmitted(cfg, c, x, y, t);
    PickRetarget(cfg, c, x, y, t);
    hide Exec; hide B.Run; hide EvalList; hide Translate; hide Program; hide Retarget; hide LoadTyped; hide PickField;
    hide PickCode;
    PickRun(p, 6, c, x, y, t, m, vc, vx);
    PickRun(Retarget(cfg, p), 5, c, x, y, t, m, vc, vy);
    ProgramRuns(es, m);
    ReadyProgram(es);
    BpfRuns(cfg, [c, x, y], p, r, m);
  }

  lemma PickRetarget(cfg: Config, c: Word, x: Word, y: Word, t: Ty)
    requires cfg.Valid() && cfg.IsField(c) && cfg.IsField(x) && cfg.IsField(y) && c - cfg.data < 0x8000
    requires y - cfg.data < 0x8000
    ensures var p := PickCode(c, x, y, t);
            p == p[4 := JMP(6)] && Retarget(cfg, p) == p[4 := JMP(5)] && WordsOf(p) < BUFFER_WORDS
  {
    var p := PickCode(c, x, y, t);
    assert Folded(cfg, p, 6) && !Folded(cfg, p, 5) && Folds(cfg, p, 0) && Folds(cfg, p, 5) && !Folds(cfg, p, 3);
    NearReached(cfg, c);
    NearReached(cfg, y);
    WordsAtMost(p, |p|);
    assert Retarget(cfg, p) == p[4 := JMP(5)];
  }

  lemma {:induction false} WordsAtMost(c: seq<Instr>, i: nat)
    requires i <= |c|
    ensures WordsUpTo(c, i) <= 2 * i
  {
    if i > 0 { WordsAtMost(c, i - 1); }
  }

  lemma PickEmitted(cfg: Config, c: Word, x: Word, y: Word, t: Ty)
    requires cfg.Valid() && cfg.IsField(c) && cfg.IsField(x) && cfg.IsField(y)
    ensures Translate(cfg, [c, x, y], PickCode(c, x, y, t)).Emitted?
  {
    hide Depth; hide Assembled; hide LoadCode;
    var p := PickCode(c, x, y, t);
    forall i | 0 <= i < |p| ensures Gen(cfg, p, i).Emitted? {
      assert p[i].IMM? ==> cfg.IsField(p[i].v);
    }
    EmitsNoError(cfg, p, 0);
  }

  lemma {:induction false} EmitsNoError(cfg: Config, p: seq<Instr>, i: nat)
    requires cfg.Valid() && i <= |p| && forall k :: i <= k < |p| ==> Gen(cfg, p, k).Emitted?
    ensures FirstError(cfg, p, i).None?
    decreases |p| - i
  {
    hide Gen;
    if i < |p| { EmitsNoError(cfg, p, i + 1); }
  }

  lemma PickRun(p: seq<Instr>, j: nat, c: Word, x: Word, y: Word, t: Ty, m: Memory, vc: Word, v: Word)
    requires p == PickCode(c, x, y, t)[4 := JMP(j)] && (j == 5 || j == 6)
    requires LoadTyped(m, c, t) == Some(vc) && vc != 0 && LoadTyped(m, if j == 6 then x else y, t) == Some(v)
    ensures Forward(p) && Exec(p, State(0, 0, [], m)) == Exited(v, m)
  {
    hide Exec; hide LoadTyped;
    assert Forward(p);
    DoImm(p, 0, c, 0, [], m);
    DoLoad(p, 1, t, c, [], m);
    DoJump(p, 2, vc, [], m);
    DoImm(p, 3, x, vc, [], m);
    DoJump(p, 4, x, [], m);
    DoImm(p, 5, y, x, [], m);
    DoLoad(p, 6, t, if j == 6 then x else y, [], m);
    DoExit(p, 7, v, m);
  }

  lemma DoExit(p: seq<Instr>, n: nat, a: Word, m: Memory)
    requires Forward(p) && n < |p| && p[n].EXIT?
    ensures Exec(p, State(n, a, [], m)) == Exited(a, m)
  {}

  // ----- far fields -----

  /** The program of a field on its own. */
  lemma FieldProgram(x: Word, t: Ty)
    ensures AllGood([Var(x, t, false)]) && Program([Var(x, t, false)]) == [IMM(x), LI(AccessTy(t)), EXIT]
  {
    var e := Var(x, t, false);
    assert Good(e) && Code(e, None, 0) == [IMM(x), LI(AccessTy(t))];
    assert [e][..0] == [];
    assert ListCode([e]) == [] + Code(e, None, 0);
  }

  /** Its translation: one load, with the offset cut to 16 bits. */
  lemma FieldCode(cfg: Config, x: Word, t: Ty)
    requires cfg.Valid() && cfg.IsField(x)
    ensures AllGood([Var(x, t, false)])
    ensures var ld := LoadCode(cfg, AccessTy(t), EVENT, x - cfg.data);
            Translate(cfg, [x], Program([Var(x, t, false)])) == Emitted(ld + [B.Exit]) && B.OnlyForward(ld + [B.Exit])
  {
    FieldProgram(x, t);
    var p, ld := [IMM(x), LI(AccessTy(t)), EXIT], LoadCode(cfg, AccessTy(t), EVENT, x - cfg.data);
    assert Gen(cfg, p, 0) == Emitted(ld) && Gen(cfg, p, 1) == Emitted([]) && Gen(cfg, p, 2) == Emitted([B.Exit]);
    EmitsNoError(cfg, p, 0);
    FieldAssembled(cfg, p, ld);
  }

  lemma FieldAssembled(cfg: Config, p: seq<Instr>, ld: seq<B.Insn>)
    requires cfg.Valid() && |p| == 3 && Emits(cfg, p, |p|) && Resolves(p) && forall i :: 0 <= i < 3 ==> !p[i].IsJump()
    requires Gen(cfg, p, 0) == Emitted(ld) && Gen(cfg, p, 1) == Emitted([]) && Gen(cfg, p, 2) == Emitted([B.Exit])
    ensures Assembled(cfg, p, |p|) == ld + [B.Exit]
  {
    hide Gen;
    assert Assembled(cfg, p, 1) == [] + ld;
    assert Assembled(cfg, p, 2) == [] + ld + [];
    assert Assembled(cfg, p, 3) == [] + ld + [] + [B.Exit];
  }

  /** What the BPF code of a field returns: what is at the address it reaches, which for a field at an offset
      from 32768 to 98303 is 65536 bytes too low. */
  lemma FarFieldReads(cfg: Config, x: Word, t: Ty, r: B.Regs, m: Memory)
    requires cfg.Valid() && cfg.IsField(x) && r[EVENT] == cfg.data
    ensures AllGood([Var(x, t, false)])
    ensures var code := Translate(cfg, [x], Program([Var(x, t, false)]));
            && code.Emitted? && B.OnlyForward(code.insns)
            && B.Run(code.insns, 0, r, m) ==
               match LoadTyped(m, Reached(cfg, x), AccessTy(t)) case None => B.Fault case Some(v) => B.Returned(v, m)
    ensures 0x8000 <= x - cfg.data < 0x1_8000 ==> Reached(cfg, x) == Wrap(x - 0x1_0000)
  {
    hide B.Run; hide Translate; hide Program; hide Load;
    FieldCode(cfg, x, t);
    var ty := AccessTy(t);
    var ld := LoadCode(cfg, ty, EVENT, x - cfg.data);
    var c, v := ld + [B.Exit], LoadTyped(m, Reached(cfg, x), ty);
    if v.Some? {
      assert c[0..|ld|] == ld;
      RunLoad(c, 0, cfg, ty, EVENT, x - cfg.data, r, m, v.value);
      ReturnsAt(c, |ld|, r[ACC := v.value], m);
    } else {
      FaultsAt(c, r, m);
    }
  }

  lemma ReturnsAt(c: seq<B.Insn>, pc: nat, r: B.Regs, m: Memory)
    requires B.OnlyForward(c) && pc < |c| && c[pc].Exit?
    ensures B.Run(c, pc, r, m) == B.Returned(r[0], m)
  {}

  lemma FaultsAt(c: seq<B.Insn>, r: B.Regs, m: Memory)
    requires B.OnlyForward(c) && c != [] && (c[0].Ldx? || c[0].LdxSx?)
    requires Load(m, Wrap(r[c[0].src] + c[0].off), c[0].sz).None?
    ensures B.Run(c, 0, r, m) == B.Fault
  {}

  /** On every event that holds the field, its BPF code returns the field. */
  ghost predicate ReadsField(cfg: Config, x: Word, t: Ty)
    requires cfg.Valid() && cfg.IsField(x) && AllGood([Var(x, t, false)])
    requires Translate(cfg, [x], Program([Var(x, t, false)])).Emitted?
    requires B.OnlyForward(Translate(cfg, [x], Program([Var(x, t, false)])).insns)
  {
    forall r: B.Regs, m: Memory, v: Word :: r[EVENT] == cfg.data && LoadTyped(m, x, AccessTy(t)) == Some(v) ==>
      B.Run(Translate(cfg, [x], Program([Var(x, t, false)])).insns, 0, r, m) == B.Returned(v, m)
  }

  /** It does exactly when the field is in the first 32768 bytes. */
  lemma FarFields(cfg: Config, x: Word, t: Ty)
    requires cfg.Valid() && cfg.IsField(x)
    ensures AllGood([Var(x, t, false)])
    ensures var code := Translate(cfg, [x], Program([Var(x, t, false)])); code.Emitted? && B.OnlyForward(code.insns)
    ensures ReadsField(cfg, x, t) <==> x - cfg.data < 0x8000
  {
    hide B.Run; hide Translate; hide Program; hide LoadTyped; hide Reached; hide LoadCode;
    FieldCode(cfg, x, t);
    NearReached(cfg, x);
    var insns := Translate(cfg, [x], Program([Var(x, t, false)])).insns;
    if x - cfg.data < 0x8000 {
      forall r: B.Regs, m: Memory, v: Word | r[EVENT] == cfg.data && LoadTyped(m, x, AccessTy(t)) == Some(v)
        ensures B.Run(insns, 0, r, m) == B.Returned(v, m)
      {
        FarFieldReads(cfg, x, t, r, m);
      }
    } else {
      var r: B.Regs := seq(11, _ => cfg.data);
      var m, v := OnlyField(cfg, x, t);
      FarFieldReads(cfg, x, t, r, m);
      assert B.Run(insns, 0, r, m) == B.Fault;
    }
  }

  /** An event of which only the field is mapped. */
  lemma OnlyField(cfg: Config, x: Word, t: Ty) returns (m: Memory, v: Word)
    requires cfg.Valid() && cfg.IsField(x) && x - cfg.data >= 0x8000
    ensures LoadTyped(m, x, AccessTy(t)) == Some(v) && LoadTyped(m, Reached(cfg, x), AccessTy(t)) == None
  {
    hide LoadBytes; hide Reached; hide Block;
    m := Block(x, 8);
    var ty := AccessTy(t);
    LoadsBlock(x, 0, ty.Size().Bytes());
    OutsideBlock(cfg, x, 8);
    NoneOutside(m, Reached(cfg, x), ty.Size().Bytes());
    v := LoadTyped(m, x, ty).value;
  }

  /** Mapped bytes from `x` on. */
  function Block(x: Word, n: nat): Memory { if n == 0 then map[] else Block(x, n - 1)[Wrap(x + n - 1) := 0] }

  lemma {:induction false} InBlock(x: Word, n: nat, j: nat)
    requires j < n
    ensures Wrap(x + j) in Block(x, n)
  {
    if j < n - 1 { InBlock(x, n - 1, j); }
  }

  lemma {:induction false} LoadsBlock(x: Word, j: nat, n: nat)
    requires j + n <= 8
    ensures LoadBytes(Block(x, 8), Wrap(x + j), n).Some?
    decreases n
  {
    hide Block;
    if n > 0 {
      InBlock(x, 8, j);
      assert Wrap(Wrap(x + j) + 1) == Wrap(x + (j + 1));
      LoadsBlock(x, j + 1, n - 1);
    }
  }

  lemma NoneOutside(m: Memory, a: Word, n: nat)
    requires a !in m && n > 0
    ensures LoadBytes(m, a, n) == None
  {}

  lemma {:induction false} OutsideBlock(cfg: Config, x: Word, n: nat)
    requires cfg.Valid() && cfg.IsField(x) && x - cfg.data >= 0x8000 && n <= 8
    ensures Reached(cfg, x) !in Block(x, n)
  {
    if n > 0 {
      OutsideBlock(cfg, x, n - 1);
      var off := x - cfg.data;
      FarApart(off);
      NotWrapped(x, n - 1, off - Off16(off));
    }
  }

  lemma NotWrapped(x: Word, k: nat, d: int)
    requires k < 8 && 8 < d < TWO32
    ensures Wrap(x + k) != Wrap(x - d)
  {}

  lemma FarApart(off: int)
    requires 0x8000 <= off < TWO31
    ensures 8 < off - Off16(off) < TWO32
  {}
}
