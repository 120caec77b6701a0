/** Compiler correctness: running the code of a tree has exactly the tree's meaning. */
module CompileRuns {
  import opened Options
  import opened Words
  import opened Vm
  import opened Syntax
  import opened Compile

  /** `c` is the part of the program that starts at `n`. */
  ghost predicate At(p: seq<Instr>, n: nat, c: seq<Instr>) {
    n + |c| <= |p| && p[n..n + |c|] == c
  }

  lemma AtSplit(p: seq<Instr>, n: nat, c: seq<Instr>, d: seq<Instr>)
    requires At(p, n, c + d)
    ensures At(p, n, c) && At(p, n + |c|, d)
  {
    assert p[n..n + |c|] == (c + d)[..|c|];
    assert p[n + |c|..n + |c| + |d|] == (c + d)[|c|..];
  }

  lemma AtOne(p: seq<Instr>, n: nat, c: seq<Instr>, k: nat)
    requires At(p, n, c) && k < |c|
    ensures n + k < |p| && p[n + k] == c[k]
  {
    assert p[n..n + |c|][k] == p[n + k];
  }

  /** Continue at `pc` with the value and memory a meaning yields. */
  ghost function Then(r: Meaning, p: seq<Instr>, pc: nat, stack: seq<Word>): Outcome
    requires Forward(p)
  {
    if r.None? then Trapped else Exec(p, State(pc, r.value.v, stack, r.value.mem))
  }

  // ----- single instructions -----

  lemma DoImm(p: seq<Instr>, n: nat, v: Word, a: Word, stack: seq<Word>, m: Memory)
    requires Forward(p) && n < |p| && p[n] == IMM(v)
    ensures Exec(p, State(n, a, stack, m)) == Exec(p, State(n + 1, v, stack, m))
  {}

  lemma DoPush(p: seq<Instr>, n: nat, a: Word, stack: seq<Word>, m: Memory)
    requires Forward(p) && n < |p| && p[n] == PSH
    ensures Exec(p, State(n, a, stack, m)) == Exec(p, State(n + 1, a, stack + [a], m))
  {}

  lemma DoLoad(p: seq<Instr>, n: nat, t: Ty, a: Word, stack: seq<Word>, m: Memory)
    requires Forward(p) && n < |p| && p[n] == LI(t)
    ensures Exec(p, State(n, a, stack, m)) == Then(LoadEff(m, a, t), p, n + 1, stack)
  {
    hide LoadTyped;
  }

  lemma DoStore(p: seq<Instr>, n: nat, t: Ty, q: Word, a: Word, stack: seq<Word>, m: Memory)
    requires Forward(p) && n < |p| && p[n] == SI(t)
    ensures Exec(p, State(n, a, stack + [q], m)) == Then(StoreEff(m, q, a, t), p, n + 1, stack)
  {
    hide Store;
    assert Pop(stack + [q]) == stack && Top(stack + [q]) == q;
  }

  lemma DoBin(p: seq<Instr>, n: nat, op: Op, x: Word, a: Word, stack: seq<Word>, m: Memory)
    requires Forward(p) && n < |p| && p[n] == Bin(op)
    ensures Exec(p, State(n, a, stack + [x], m)) == Then(AluEff(op, x, a, m), p, n + 1, stack)
  {
    hide Alu;
    assert Pop(stack + [x]) == stack && Top(stack + [x]) == x;
  }

  lemma DoStr(p: seq<Instr>, n: nat, op: StrOp, x: Word, a: Word, stack: seq<Word>, m: Memory)
    requires Forward(p) && n < |p| && p[n] == Str(op)
    ensures Exec(p, State(n, a, stack + [x], m)) ==
            Then(var r := StrAlu(op, m, x, a); if r.None? then None else Some(Eff(r.value, m)), p, n + 1, stack)
  {
    hide StrAlu;
    assert Pop(stack + [x]) == stack && Top(stack + [x]) == x;
  }

  lemma DoJump(p: seq<Instr>, n: nat, a: Word, stack: seq<Word>, m: Memory)
    requires Forward(p) && n < |p| && p[n].IsJump()
    ensures Exec(p, State(n, a, stack, m)) ==
            Exec(p, State(if p[n].JMP? || (p[n].BZ? && a == 0) || (p[n].BNZ? && a != 0) then p[n].Target() else n + 1,
                          a, stack, m))
  {}

  // ----- groups of instructions -----

  /** PSH; IMM k; op. */
  lemma DoConst(p: seq<Instr>, n: nat, k: Word, op: Op, a: Word, stack: seq<Word>, m: Memory)
    requires Forward(p) && At(p, n, [PSH, IMM(k), Bin(op)])
    ensures Exec(p, State(n, a, stack, m)) == Then(AluEff(op, a, k, m), p, n + 3, stack)
  {
    hide Exec; hide AluEff;
    forall i | 0 <= i < 3 ensures p[n + i] == [PSH, IMM(k), Bin(op)][i] { AtOne(p, n, [PSH, IMM(k), Bin(op)], i); }
    DoPush(p, n, a, stack, m);
    DoImm(p, n + 1, k, a, stack + [a], m);
    DoBin(p, n + 2, op, a, k, stack, m);
  }

  lemma DoScale(p: seq<Instr>, n: nat, t: Ty, y: Word, stack: seq<Word>, m: Memory)
    requires Forward(p) && At(p, n, ScaleCode(t))
    ensures Exec(p, State(n, y, stack, m)) == Exec(p, State(n + |ScaleCode(t)|, Scale(t, y), stack, m))
  {
    hide Exec;
    if Scaled(t) { DoConst(p, n, ElemBytes(t), MUL, y, stack, m); }
  }

  lemma DoScaled(p: seq<Instr>, n: nat, t: Ty, op: Op, x: Word, y: Word, stack: seq<Word>, m: Memory)
    requires Forward(p) && At(p, n, ScaleCode(t) + [Bin(op)])
    ensures Exec(p, State(n, y, stack + [x], m)) ==
            Then(AluEff(op, x, Scale(t, y), m), p, n + |ScaleCode(t)| + 1, stack)
  {
    hide Exec; hide AluEff; hide Scale;
    AtSplit(p, n, ScaleCode(t), [Bin(op)]);
    AtOne(p, n + |ScaleCode(t)|, [Bin(op)], 0);
    DoScale(p, n, t, y, stack + [x], m);
    DoBin(p, n + |ScaleCode(t)|, op, x, Scale(t, y), stack, m);
  }

  lemma AluSub(x: Word, y: Word)
    ensures Alu(SUB, x, y) == Some(Wrap(x - y))
  {}

  lemma DoOp(p: seq<Instr>, n: nat, op: BinOp, t: Ty, u: Ty, x: Word, y: Word, stack: seq<Word>, m: Memory)
    requires Forward(p) && BinaryTy(op, t, u).Some? && At(p, n, OpCode(op, t, u))
    ensures Exec(p, State(n, y, stack + [x], m)) ==
            Then(BinaryEff(op, t, u, x, y, m), p, n + |OpCode(op, t, u)|, stack)
  {
    hide Exec; hide Alu; hide StrAlu;
    var c := OpCode(op, t, u);
    if OnStrings(op, t, u) {
      AtOne(p, n, c, 0);
      DoStr(p, n, StrOpFor(op), x, y, stack, m);
    } else if op.Add? {
      DoScaled(p, n, t, ADD, x, y, stack, m);
    } else if op.Sub? {
      if Scaled(t) && t == u {
        AtOne(p, n, c, 0);
        DoBin(p, n, SUB, x, y, stack, m);
        assert c == [Bin(SUB)] + [PSH, IMM(ElemBytes(t)), Bin(DIV)];
        AtSplit(p, n, [Bin(SUB)], [PSH, IMM(ElemBytes(t)), Bin(DIV)]);
        DoConst(p, n + 1, ElemBytes(t), DIV, Wrap(x - y), stack, m);
        AluSub(x, y);
      } else {
        DoScaled(p, n, t, SUB, x, y, stack, m);
      }
    } else {
      AtOne(p, n, c, 0);
      DoBin(p, n, OpFor(op, t, u), x, y, stack, m);
    }
  }

  /** The address is in the register: load, step, store. */
  lemma DoBump(p: seq<Instr>, n: nat, dec: bool, x: Expr, q: Word, stack: seq<Word>, m: Memory)
    requires Forward(p) && Good(x) && IsLvalue(x) && At(p, n, BumpCode(dec, x))
    ensures Exec(p, State(n, q, stack, m)) == Then(BumpAt(dec, x, q, m), p, n + 6, stack)
  {
    hide Exec; hide Alu; hide LoadTyped; hide Store; hide TypeOf; hide LoadTy;
    var c := BumpCode(dec, x);
    forall i | 0 <= i < 6 ensures p[n + i] == c[i] { AtOne(p, n, c, i); }
    DoPush(p, n, q, stack, m);
    DoLoad(p, n + 1, LoadTy(x), q, stack + [q], m);
    var v := LoadTyped(m, q, LoadTy(x));
    if v.Some? {
      var op := if dec then SUB else ADD;
      assert c[2..5] == [PSH, IMM(IncBytes(Type(x))), Bin(op)];
      assert p[n + 2..n + 5] == c[2..5];
      DoConst(p, n + 2, IncBytes(Type(x)), op, v.value, stack + [q], m);
      var w := Alu(op, v.value, IncBytes(Type(x)));
      if w.Some? { DoStore(p, n + 5, AccessTy(Type(x)), q, w.value, stack, m); }
    }
  }

  // ----- trees -----

  /** Running the code of a tree from any register, stack and memory continues after it with the
      tree's value in the register, the same stack and exactly the tree's side effects. */
  lemma {:induction false} RunsCode(p: seq<Instr>, e: Expr, over: Option<Ty>, n: nat, a: Word, stack: seq<Word>,
                                    m: Memory)
    requires Forward(p) && Good(e) && At(p, n, Code(e, over, n))
    ensures Exec(p, State(n, a, stack, m)) == Then(Eval(e, over, m), p, n + |Code(e, over, n)|, stack)
    decreases e, 2
  {
    match e
    case Cast(t, x) => RunsRetyped(p, e, over, n, a, stack, m);
    case Plus(x) => RunsRetyped(p, e, over, n, a, stack, m);
    case Deref(x) => RunsUnary(p, e, over, n, a, stack, m);
    case Not(x) => RunsUnary(p, e, over, n, a, stack, m);
    case BitNot(x) => RunsUnary(p, e, over, n, a, stack, m);
    case Neg(x) => if x.Num? { RunsLeaf(p, e, over, n, a, stack, m); } else { RunsNeg(p, e, over, n, a, stack, m); }
    case AddrOf(x) => RunsRetyped(p, e, over, n, a, stack, m);
    case Index(x, i) => RunsLoad(p, e, over, n, a, stack, m);
    case PreInc(dec, x) => RunsBump(p, e, over, n, a, stack, m);
    case PostInc(dec, x) => RunsBump(p, e, over, n, a, stack, m);
    case Assign(l, r) => RunsAssign(p, e, over, n, a, stack, m);
    case Cond(c, x, y) => RunsCond(p, e, over, n, a, stack, m);
    case Lor(x, y) => RunsShort(p, e, over, n, a, stack, m);
    case Lan(x, y) => RunsShort(p, e, over, n, a, stack, m);
    case Binary(op, x, y) => RunsBinary(p, e, over, n, a, stack, m);
    case _ => RunsLeaf(p, e, over, n, a, stack, m);
  }

  lemma RunsLeaf(p: seq<Instr>, e: Expr, over: Option<Ty>, n: nat, a: Word, stack: seq<Word>, m: Memory)
    requires Forward(p) && Good(e) && At(p, n, Code(e, over, n))
    requires e.Num? || e.StrLit? || e.SizeOf? || e.Var? || (e.Neg? && e.e.Num?)
    ensures Exec(p, State(n, a, stack, m)) == Then(Eval(e, over, m), p, n + |Code(e, over, n)|, stack)
  {
    hide Exec; hide LoadTyped;
    var c := Code(e, over, n);
    AtOne(p, n, c, 0);
    DoImm(p, n, c[0].v, a, stack, m);
    if e.Var? && !e.isArray {
      AtOne(p, n, c, 1);
      DoLoad(p, n + 1, Over(over, e.ty), e.addr, stack, m);
    }
  }

  lemma {:induction false} RunsRetyped(p: seq<Instr>, e: Expr, over: Option<Ty>, n: nat, a: Word, stack: seq<Word>,
                                       m: Memory)
    requires Forward(p) && Good(e) && At(p, n, Code(e, over, n)) && (e.Cast? || e.Plus? || e.AddrOf?)
    ensures Exec(p, State(n, a, stack, m)) == Then(Eval(e, over, m), p, n + |Code(e, over, n)|, stack)
    decreases e, 1
  {
    hide Exec; hide Code; hide Eval; hide TypeOf; hide Address; hide EvalAddr; hide IsLvalue; hide At; hide Then;
    UnfoldRetyped(e, over, n, m);
    match e
    case Cast(t, x) => RunsCode(p, x, Some(Over(over, t)), n, a, stack, m);
    case Plus(x) => RunsCode(p, x, over, n, a, stack, m);
    case AddrOf(x) => RunsAddress(p, x, over, n, a, stack, m);
  }

  lemma {:induction false} RunsAddress(p: seq<Instr>, e: Expr, over: Option<Ty>, n: nat, a: Word, stack: seq<Word>,
                                       m: Memory)
    requires Forward(p) && Good(e) && IsLvalue(e) && At(p, n, Address(e, over, n))
    ensures Exec(p, State(n, a, stack, m)) == Then(EvalAddr(e, over, m), p, n + |Address(e, over, n)|, stack)
    decreases e, 0
  {
    hide Exec; hide Code; hide Eval; hide TypeOf; hide Address; hide EvalAddr; hide IsLvalue;
    UnfoldAddress(e, over, n, m);
    if e.Var? {
      AtOne(p, n, [IMM(e.addr)], 0);
      DoImm(p, n, e.addr, a, stack, m);
    } else if e.Deref? {
      RunsCode(p, e.e, over, n, a, stack, m);
    } else if e.Index? {
      RunsIndex(p, e, n, a, stack, m);
    } else {
      RunsAddress(p, e.e, over, n, a, stack, m);
    }
  }

  lemma {:induction false} RunsIndex(p: seq<Instr>, e: Expr, n: nat, a: Word, stack: seq<Word>, m: Memory)
    requires Forward(p) && Good(e) && e.Index? && At(p, n, Address(e, None, n))
    ensures Exec(p, State(n, a, stack, m)) == Then(EvalAddr(e, None, m), p, n + |Address(e, None, n)|, stack)
    decreases e, 0, 0
  {
    hide Exec; hide Code; hide Eval; hide TypeOf; hide Address; hide EvalAddr; hide IsLvalue; hide LoadTy;
    hide AluEff; hide LoadEff; hide StoreEff; hide PairCode; hide ShortCode; hide CondCode; hide Scale;
    hide ScaleCode;
    UnfoldIndex(e, None, n, m);
    var t := Type(e.a);
    var cx := Code(e.a, None, n);
    var ci := Code(e.i, None, n + |cx| + 1);
    var co := ScaleCode(t) + [Bin(ADD)];
    PairAt(p, n, cx, ci, co);
    RunsCode(p, e.a, None, n, a, stack, m);
    var r := Eval(e.a, None, m);
    if r.Some? {
      DoPush(p, n + |cx|, r.value.v, stack, r.value.mem);
      RunsCode(p, e.i, None, n + |cx| + 1, r.value.v, stack + [r.value.v], r.value.mem);
      var q := Eval(e.i, None, r.value.mem);
      if q.Some? {
        DoScaled(p, n + |cx| + 1 + |ci|, t, ADD, r.value.v, q.value.v, stack, q.value.mem);
      }
    }
  }

  lemma PairAt(p: seq<Instr>, n: nat, ca: seq<Instr>, cb: seq<Instr>, co: seq<Instr>)
    requires At(p, n, PairCode(ca, cb, co))
    ensures At(p, n, ca) && n + |ca| < |p| && p[n + |ca|] == PSH
    ensures At(p, n + |ca| + 1, cb) && At(p, n + |ca| + 1 + |cb|, co)
  {
    AtSplit(p, n, ca, [PSH] + (cb + co));
    AtSplit(p, n + |ca|, [PSH], cb + co);
    AtOne(p, n + |ca|, [PSH], 0);
    AtSplit(p, n + |ca| + 1, cb, co);
  }

  lemma ShortAt(p: seq<Instr>, n: nat, lor: bool, ca: seq<Instr>, cb: seq<Instr>)
    requires At(p, n, ShortCode(lor, n, ca, cb))
    ensures At(p, n, ca) && At(p, n + |ca| + 1, cb) && n + |ca| < |p|
    ensures p[n + |ca|] == var end := n + |ca| + |cb| + 1; if lor then BNZ(end) else BZ(end)
  {
    var j := [ShortCode(lor, n, ca, cb)[|ca|]];
    AtSplit(p, n, ca, j + cb);
    AtSplit(p, n + |ca|, j, cb);
    AtOne(p, n + |ca|, j, 0);
  }

  lemma CondAt(p: seq<Instr>, n: nat, cc: seq<Instr>, ca: seq<Instr>, cb: seq<Instr>)
    requires At(p, n, CondCode(n, cc, ca, cb))
    ensures At(p, n, cc) && At(p, n + |cc| + 1, ca) && At(p, n + |cc| + |ca| + 2, cb)
    ensures n + |cc| + |ca| + 1 < |p| && p[n + |cc|] == BZ(n + |cc| + |ca| + 2)
    ensures p[n + |cc| + 1 + |ca|] == JMP(n + |cc| + |ca| + |cb| + 2)
  {
    var bz, jmp := BZ(n + |cc| + |ca| + 2), JMP(n + |cc| + |ca| + |cb| + 2);
    hide At;
    AtSplit(p, n, cc, [bz] + (ca + ([jmp] + cb)));
    AtSplit(p, n + |cc|, [bz], ca + ([jmp] + cb));
    AtSplit(p, n + |cc| + 1, ca, [jmp] + cb);
    AtSplit(p, n + |cc| + 1 + |ca|, [jmp], cb);
    AtOne(p, n + |cc|, [bz], 0);
    AtOne(p, n + |cc| + 1 + |ca|, [jmp], 0);
  }

  lemma {:induction false} RunsUnary(p: seq<Instr>, e: Expr, over: Option<Ty>, n: nat, a: Word, stack: seq<Word>,
                                     m: Memory)
    requires Forward(p) && Good(e) && At(p, n, Code(e, over, n)) && (e.Deref? || e.Not? || e.BitNot?)
    ensures Exec(p, State(n, a, stack, m)) == Then(Eval(e, over, m), p, n + |Code(e, over, n)|, stack)
    decreases e, 1
  {
    hide Exec; hide Code; hide Eval; hide TypeOf; hide Address; hide EvalAddr; hide IsLvalue; hide LoadTy;
    hide AluEff; hide LoadEff; hide StoreEff; hide PairCode; hide ShortCode; hide CondCode;
    var x := e.e;
    match e {
      case Deref(_) => UnfoldDeref(x, over, n, m);
      case Not(_) => UnfoldNot(x, over, n, m);
      case BitNot(_) => UnfoldBitNot(x, over, n, m);
    }
    var cx := Code(x, None, n);
    var rest := if e.Deref? then [LI(Over(over, Type(e)))]
                else if e.Not? then [PSH, IMM(0), Bin(EQ)] else [PSH, IMM(TWO64 - 1), Bin(XOR)];
    AtSplit(p, n, cx, rest);
    RunsCode(p, x, None, n, a, stack, m);
    var r := Eval(x, None, m);
    if r.Some? {
      match e {
        case Deref(_) =>
          AtOne(p, n + |cx|, rest, 0);
          DoLoad(p, n + |cx|, Over(over, Type(e)), r.value.v, stack, r.value.mem);
        case Not(_) => DoConst(p, n + |cx|, 0, EQ, r.value.v, stack, r.value.mem);
        case BitNot(_) => DoConst(p, n + |cx|, TWO64 - 1, XOR, r.value.v, stack, r.value.mem);
      }
    }
  }

  lemma PairCodeIs(ca: seq<Instr>, cb: seq<Instr>, co: seq<Instr>)
    ensures PairCode(ca, cb, co) == ca + [PSH] + cb + co
  {}

  lemma {:induction false} RunsNeg(p: seq<Instr>, e: Expr, over: Option<Ty>, n: nat, a: Word, stack: seq<Word>,
                                   m: Memory)
    requires Forward(p) && Good(e) && At(p, n, Code(e, over, n)) && e.Neg? && !e.e.Num?
    ensures Exec(p, State(n, a, stack, m)) == Then(Eval(e, over, m), p, n + |Code(e, over, n)|, stack)
    decreases e, 1
  {
    hide Exec; hide Code; hide Eval; hide TypeOf; hide Address; hide EvalAddr; hide IsLvalue; hide LoadTy;
    hide AluEff; hide LoadEff; hide StoreEff; hide PairCode; hide ShortCode; hide CondCode;
    var x := e.e;
    UnfoldNeg(x, over, n, m);
    var cx := Code(x, None, n + 2);
    PairCodeIs([IMM(TWO64 - 1)], cx, [Bin(MUL)]);
    assert [IMM(TWO64 - 1)] + [PSH] == [IMM(TWO64 - 1), PSH];
    PairAt(p, n, [IMM(TWO64 - 1)], cx, [Bin(MUL)]);
    AtOne(p, n, [IMM(TWO64 - 1)], 0);
    AtOne(p, n + 2 + |cx|, [Bin(MUL)], 0);
    DoImm(p, n, TWO64 - 1, a, stack, m);
    DoPush(p, n + 1, TWO64 - 1, stack, m);
    RunsCode(p, x, None, n + 2, TWO64 - 1, stack + [TWO64 - 1], m);
    var r := Eval(x, None, m);
    if r.Some? { DoBin(p, n + 2 + |cx|, MUL, TWO64 - 1, r.value.v, stack, r.value.mem); }
  }

  lemma {:induction false} RunsLoad(p: seq<Instr>, e: Expr, over: Option<Ty>, n: nat, a: Word, stack: seq<Word>,
                                    m: Memory)
    requires Forward(p) && Good(e) && e.Index? && At(p, n, Code(e, over, n))
    ensures Exec(p, State(n, a, stack, m)) == Then(Eval(e, over, m), p, n + |Code(e, over, n)|, stack)
    decreases e, 1
  {
    hide Exec; hide Code; hide Eval; hide TypeOf; hide Address; hide EvalAddr; hide IsLvalue; hide LoadTy;
    hide AluEff; hide LoadEff; hide StoreEff; hide PairCode; hide ShortCode; hide CondCode;
    UnfoldIndex(e, over, n, m);
    var c := Address(e, None, n);
    var t := Over(over, Type(e));
    AtSplit(p, n, c, [LI(t)]);
    AtOne(p, n + |c|, [LI(t)], 0);
    RunsIndex(p, e, n, a, stack, m);
    var r := EvalAddr(e, None, m);
    if r.Some? { DoLoad(p, n + |c|, t, r.value.v, stack, r.value.mem); }
  }

  lemma {:induction false} RunsBump(p: seq<Instr>, e: Expr, over: Option<Ty>, n: nat, a: Word, stack: seq<Word>,
                                    m: Memory)
    requires Forward(p) && Good(e) && (e.PreInc? || e.PostInc?) && At(p, n, Code(e, over, n))
    ensures Exec(p, State(n, a, stack, m)) == Then(Eval(e, over, m), p, n + |Code(e, over, n)|, stack)
    decreases e, 1
  {
    hide Exec; hide Code; hide Eval; hide TypeOf; hide Address; hide EvalAddr; hide IsLvalue; hide LoadTy;
    hide AluEff; hide LoadEff; hide StoreEff; hide PairCode; hide ShortCode; hide CondCode; hide BumpAt;
    hide BumpCode;
    var x, dec := e.e, e.dec;
    if e.PreInc? { UnfoldPreInc(dec, x, over, n, m); } else { UnfoldPostInc(dec, x, over, n, m); }
    var c := Address(x, None, n);
    var k := IncBytes(Type(x));
    var back := if e.PreInc? then [] else [PSH, IMM(k), Bin(if dec then ADD else SUB)];
    BumpCodeLength(dec, x);
    assert Code(e, over, n) == c + (BumpCode(dec, x) + back);
    AtSplit(p, n, c, BumpCode(dec, x) + back);
    AtSplit(p, n + |c|, BumpCode(dec, x), back);
    RunsAddress(p, x, None, n, a, stack, m);
    var r := EvalAddr(x, None, m);
    if r.Some? {
      DoBump(p, n + |c|, dec, x, r.value.v, stack, r.value.mem);
      var w := BumpAt(dec, x, r.value.v, r.value.mem);
      if w.Some? && e.PostInc? {
        DoConst(p, n + |c| + 6, k, if dec then ADD else SUB, w.value.v, stack, w.value.mem);
      }
    }
  }

  lemma BumpCodeLength(dec: bool, x: Expr)
    requires Good(x) && IsLvalue(x)
    ensures |BumpCode(dec, x)| == 6
  {}

  lemma {:induction false} RunsAssign(p: seq<Instr>, e: Expr, over: Option<Ty>, n: nat, a: Word, stack: seq<Word>,
                                      m: Memory)
    requires Forward(p) && Good(e) && e.Assign? && At(p, n, Code(e, over, n))
    ensures Exec(p, State(n, a, stack, m)) == Then(Eval(e, over, m), p, n + |Code(e, over, n)|, stack)
    decreases e, 1
  {
    hide Exec; hide Code; hide Eval; hide TypeOf; hide Address; hide EvalAddr; hide IsLvalue; hide LoadTy;
    hide AluEff; hide LoadEff; hide StoreEff; hide PairCode; hide ShortCode; hide CondCode;
    UnfoldAssign(e.l, e.r, over, n, m);
    var cl := Address(e.l, None, n);
    var cr := Code(e.r, None, n + |cl| + 1);
    var si := [SI(AccessTy(Type(e.l)))];
    PairAt(p, n, cl, cr, si);
    RunsAddress(p, e.l, None, n, a, stack, m);
    var q := EvalAddr(e.l, None, m);
    if q.Some? {
      DoPush(p, n + |cl|, q.value.v, stack, q.value.mem);
      RunsCode(p, e.r, None, n + |cl| + 1, q.value.v, stack + [q.value.v], q.value.mem);
      var v := Eval(e.r, None, q.value.mem);
      if v.Some? {
        AtOne(p, n + |cl| + 1 + |cr|, si, 0);
        DoStore(p, n + |cl| + 1 + |cr|, AccessTy(Type(e.l)), q.value.v, v.value.v, stack, v.value.mem);
      }
    }
  }

  lemma {:induction false} RunsBinary(p: seq<Instr>, e: Expr, over: Option<Ty>, n: nat, a: Word, stack: seq<Word>,
                                      m: Memory)
    requires Forward(p) && Good(e) && e.Binary? && At(p, n, Code(e, over, n))
    ensures Exec(p, State(n, a, stack, m)) == Then(Eval(e, over, m), p, n + |Code(e, over, n)|, stack)
    decreases e, 1
  {
    hide Exec; hide Code; hide Eval; hide TypeOf; hide Address; hide EvalAddr; hide IsLvalue; hide LoadTy;
    hide AluEff; hide LoadEff; hide StoreEff; hide PairCode; hide ShortCode; hide CondCode; hide BinaryEff;
    hide OpCode; hide BinaryTy;
    UnfoldBinary(e.op, e.a, e.b, over, n, m);
    var ca := Code(e.a, None, n);
    var cb := Code(e.b, None, n + |ca| + 1);
    PairAt(p, n, ca, cb, OpCode(e.op, Type(e.a), Type(e.b)));
    RunsCode(p, e.a, None, n, a, stack, m);
    var r := Eval(e.a, None, m);
    if r.Some? {
      DoPush(p, n + |ca|, r.value.v, stack, r.value.mem);
      RunsCode(p, e.b, None, n + |ca| + 1, r.value.v, stack + [r.value.v], r.value.mem);
      var q := Eval(e.b, None, r.value.mem);
      if q.Some? {
        DoOp(p, n + |ca| + 1 + |cb|, e.op, Type(e.a), Type(e.b), r.value.v, q.value.v, stack, q.value.mem);
      }
    }
  }

  lemma {:induction false} RunsShort(p: seq<Instr>, e: Expr, over: Option<Ty>, n: nat, a: Word, stack: seq<Word>,
                                     m: Memory)
    requires Forward(p) && Good(e) && (e.Lor? || e.Lan?) && At(p, n, Code(e, over, n))
    ensures Exec(p, State(n, a, stack, m)) == Then(Eval(e, over, m), p, n + |Code(e, over, n)|, stack)
    decreases e, 1
  {
    hide Exec; hide Code; hide Eval; hide TypeOf; hide Address; hide EvalAddr; hide IsLvalue; hide LoadTy;
    hide AluEff; hide LoadEff; hide StoreEff; hide PairCode; hide ShortCode; hide CondCode;
    if e.Lor? { UnfoldLor(e.a, e.b, over, n, m); } else { UnfoldLan(e.a, e.b, over, n, m); }
    var ca := Code(e.a, None, n);
    var cb := Code(e.b, over, n + |ca| + 1);
    ShortAt(p, n, e.Lor?, ca, cb);
    RunsCode(p, e.a, None, n, a, stack, m);
    var r := Eval(e.a, None, m);
    if r.Some? {
      DoJump(p, n + |ca|, r.value.v, stack, r.value.mem);
      RunsCode(p, e.b, over, n + |ca| + 1, r.value.v, stack, r.value.mem);
    }
  }

  lemma {:induction false} RunsCond(p: seq<Instr>, e: Expr, over: Option<Ty>, n: nat, a: Word, stack: seq<Word>,
                                    m: Memory)
    requires Forward(p) && Good(e) && e.Cond? && At(p, n, Code(e, over, n))
    ensures Exec(p, State(n, a, stack, m)) == Then(Eval(e, over, m), p, n + |Code(e, over, n)|, stack)
    decreases e, 1
  {
    hide Exec; hide Code; hide Eval; hide TypeOf; hide Address; hide EvalAddr; hide IsLvalue; hide LoadTy;
    hide AluEff; hide LoadEff; hide StoreEff; hide PairCode; hide ShortCode; hide CondCode;
    UnfoldCond(e.c, e.a, e.b, over, n, m);
    var cc := Code(e.c, None, n);
    var ca := Code(e.a, None, n + |cc| + 1);
    var els := n + |cc| + |ca| + 2;
    var cb := Code(e.b, over, els);
    CondAt(p, n, cc, ca, cb);
    RunsCode(p, e.c, None, n, a, stack, m);
    var r := Eval(e.c, None, m);
    if r.Some? {
      DoJump(p, n + |cc|, r.value.v, stack, r.value.mem);
      if r.value.v == 0 {
        RunsCode(p, e.b, over, els, r.value.v, stack, r.value.mem);
      } else {
        RunsCode(p, e.a, None, n + |cc| + 1, r.value.v, stack, r.value.mem);
        var q := Eval(e.a, None, r.value.mem);
        if q.Some? {
          DoJump(p, n + |cc| + 1 + |ca|, q.value.v, stack, q.value.mem);
        }
      }
    }
  }
}
