/** Trees with a meaning: what the compiler makes of them is their code, or it garbles them. */
module GoodTrees {
  import opened Options
  import opened Words
  import opened Vm
  import opened Syntax
  import opened Compile
  import opened Parse
  import opened Trees
  import opened Endings
  import opened Tails
  import opened Verdict
  import E = Encoding

  // ----- re-typing the last load -----

  lemma RetypedCat(c: seq<Instr>, d: seq<Instr>, t: Ty)
    requires d != []
    ensures E.Retyped(c + d, t) == c + E.Retyped(d, t)
  {
    assert (c + d)[|c + d| - 1] == d[|d| - 1];
    assert E.Front(c + d) == c + E.Front(d);
  }

  /** Re-typing the last instruction of the emitted code is compiling with that load type. */
  lemma {:induction false} RetypeCode(e: Expr, over: Option<Ty>, t: Ty, n: nat)
    requires Good(e)
    ensures Code(e, Some(t), n) == E.Retyped(Code(e, over, n), t)
    decreases e, 1
  {
    hide E.Retyped; hide Address; hide IsLvalue;
    match e
    case Cast(u, x) => RetypeCode(x, Some(Over(over, u)), t, n);
    case Plus(x) => RetypeCode(x, over, t, n);
    case AddrOf(x) => RetypeAddress(x, over, t, n);
    case Cond(c, a, b) => RetypeBranch(e, over, t, n);
    case Lor(a, b) => RetypeBranch(e, over, t, n);
    case Lan(a, b) => RetypeBranch(e, over, t, n);
    case Binary(op, a, b) => RetypeBinary(e, over, t, n);
    case _ => RetypeRest(e, over, t, n);
  }

  lemma RetypeRest(e: Expr, over: Option<Ty>, t: Ty, n: nat)
    requires Good(e)
    requires !e.Cast? && !e.Plus? && !e.AddrOf? && !e.Cond? && !e.Lor? && !e.Lan? && !e.Binary?
    ensures Code(e, Some(t), n) == E.Retyped(Code(e, over, n), t)
  {
    hide Address; hide IsLvalue; hide LoadTy;
  }

  lemma {:induction false} RetypeAddress(e: Expr, over: Option<Ty>, t: Ty, n: nat)
    requires Good(e) && IsLvalue(e)
    ensures Address(e, Some(t), n) == E.Retyped(Address(e, over, n), t)
    decreases e, 0
  {
    hide Code; hide TypeOf; hide Address; hide IsLvalue;
    hide Eval; hide EvalAddr; hide OpCode; hide PairCode; hide ShortCode; hide CondCode;
    hide BumpCode; hide BinaryTy;
    UnfoldAddress(e, over, n, map[]);
    UnfoldAddress(e, Some(t), n, map[]);
    if e.Deref? {
      RetypeCode(e.e, over, t, n);
    } else if e.Cast? || e.Plus? {
      RetypeAddress(e.e, over, t, n);
    } else if e.Index? {
      IndexEndsInAdd(e, n);
    }
  }

  lemma IndexEndsInAdd(e: Expr, n: nat)
    requires Good(e) && e.Index?
    ensures IsLvalue(e) && var c := Address(e, None, n); c[|c| - 1] == Bin(ADD)
  {
    UnfoldIndex(e, None, n, map[]);
  }

  lemma OpEnds(op: BinOp, t: Ty, u: Ty)
    requires BinaryTy(op, t, u).Some?
    ensures OpCode(op, t, u) != [] && !E.EndsInLoad(OpCode(op, t, u))
  {}

  lemma RetypeBinary(e: Expr, over: Option<Ty>, t: Ty, n: nat)
    requires Good(e) && e.Binary?
    ensures Code(e, Some(t), n) == E.Retyped(Code(e, over, n), t)
  {
    hide Code; hide TypeOf; hide Eval; hide OpCode; hide BinaryTy; hide BinaryEff;
    UnfoldBinary(e.op, e.a, e.b, over, n, map[]);
    UnfoldBinary(e.op, e.a, e.b, Some(t), n, map[]);
    OpEnds(e.op, Type(e.a), Type(e.b));
    var c := Code(e, over, n);
    var co := OpCode(e.op, Type(e.a), Type(e.b));
    assert c[|c| - 1] == co[|co| - 1];
  }

  lemma {:induction false} RetypeBranch(e: Expr, over: Option<Ty>, t: Ty, n: nat)
    requires Good(e) && (e.Cond? || e.Lor? || e.Lan?)
    ensures Code(e, Some(t), n) == E.Retyped(Code(e, over, n), t)
    decreases e, 0
  {
    hide Code; hide TypeOf; hide Eval; hide E.Retyped;
    match e
    case Cond(c, a, b) =>
      UnfoldCond(c, a, b, over, n, map[]);
      UnfoldCond(c, a, b, Some(t), n, map[]);
      var cc := Code(c, None, n);
      var ca := Code(a, None, n + |cc| + 1);
      var els := n + |cc| + |ca| + 2;
      RetypeCode(b, over, t, els);
      var cb := Code(b, over, els);
      var pre := cc + [BZ(els)] + ca + [JMP(els + |cb|)];
      assert CondCode(n, cc, ca, cb) == pre + cb;
      assert CondCode(n, cc, ca, E.Retyped(cb, t)) == pre + E.Retyped(cb, t);
      RetypedCat(pre, cb, t);
    case Lor(a, b) =>
      UnfoldLor(a, b, over, n, map[]);
      UnfoldLor(a, b, Some(t), n, map[]);
      RetypeShort(true, b, Code(a, None, n), over, t, n);
    case Lan(a, b) =>
      UnfoldLan(a, b, over, n, map[]);
      UnfoldLan(a, b, Some(t), n, map[]);
      RetypeShort(false, b, Code(a, None, n), over, t, n);
  }

  lemma {:induction false} RetypeShort(lor: bool, b: Expr, ca: seq<Instr>, over: Option<Ty>, t: Ty, n: nat)
    requires Good(b)
    ensures ShortCode(lor, n, ca, Code(b, Some(t), n + |ca| + 1)) ==
            E.Retyped(ShortCode(lor, n, ca, Code(b, over, n + |ca| + 1)), t)
    decreases b, 2
  {
    hide Code; hide TypeOf; hide E.Retyped;
    RetypeCode(b, over, t, n + |ca| + 1);
    var cb := Code(b, over, n + |ca| + 1);
    var end := n + |ca| + |cb| + 1;
    var pre := ca + [if lor then BNZ(end) else BZ(end)];
    assert ShortCode(lor, n, ca, cb) == pre + cb;
    assert ShortCode(lor, n, ca, E.Retyped(cb, t)) == pre + E.Retyped(cb, t);
    RetypedCat(pre, cb, t);
  }

  // ----- well-formed trees are accepted -----

  lemma {:induction false} LvalueHasLoad(e: Expr)
    requires IsLvalue(e)
    ensures HasLoad(e)
  {
    match e
    case Cast(_, x) => LvalueHasLoad(x);
    case Plus(x) => LvalueHasLoad(x);
    case _ =>
  }

  lemma LvaluePasses(x: Expr)
    requires IsLvalue(x)
    ensures HasLoad(x) && PassesForLoad(x)
  {
    hide Emit;
    LvalueHasLoad(x);
  }

  lemma {:induction false} GoodAccepted(e: Expr)
    requires Good(e)
    ensures TyOf(e) == Some(Type(e)) && Tested(e)
  {
    hide Emit; hide PassesForLoad; hide HasLoad; hide Ends; hide IsLvalue; hide BinaryTy;
    match e
    case Cast(_, x) => GoodAccepted(x);
    case Deref(x) => GoodAccepted(x);
    case AddrOf(x) => GoodAccepted(x); LvaluePasses(x);
    case Not(x) => GoodAccepted(x);
    case BitNot(x) => GoodAccepted(x);
    case Plus(x) => GoodAccepted(x);
    case Neg(x) => GoodAccepted(x);
    case PreInc(_, x) => GoodAccepted(x); LvaluePasses(x);
    case PostInc(_, x) => GoodAccepted(x); LvaluePasses(x);
    case Assign(l, r) => GoodAccepted(l); LvaluePasses(l); GoodAccepted(r);
    case Cond(c, a, b) => GoodAccepted(c); GoodAccepted(a); GoodAccepted(b);
    case Lor(a, b) => GoodAccepted(a); GoodAccepted(b);
    case Lan(a, b) => GoodAccepted(a); GoodAccepted(b);
    case Binary(_, a, b) => GoodAccepted(a); GoodAccepted(b);
    case Index(a, i) => GoodAccepted(a); GoodAccepted(i);
    case _ =>
  }

  // ----- and compile to their code -----

  /** Wherever it stands, a well-formed tree compiles to its code and type, unless a cast in it overwrites
      an opcode. */
  lemma EmitGood(e: Expr, n: nat)
    requires Good(e)
    ensures Emit(e, n) == if Clean(e) then Made(Code(e, None, n), Type(e)) else Failed(Garbled)
  {
    hide Emit; hide Clean; hide Code; hide TypeOf; hide TyOf; hide Tested;
    GoodAccepted(e);
    EmitJudged(e, n);
    if Clean(e) { EmitCode(e, n); }
  }

  ghost predicate IsCode(e: Expr, n: nat)
    requires Good(e)
  { Emit(e, n).Made? ==> Emit(e, n).code == Code(e, None, n) && Emit(e, n).ty == Type(e) }

  lemma {:induction false} EmitCode(e: Expr, n: nat)
    requires Good(e)
    ensures IsCode(e, n)
    decreases e, 1
  {
    hide Code; hide TypeOf; hide Emit;
    match e
    case Cast(_, _) => CastCode(e, n);
    case Deref(_) => UnaryCode(e, n);
    case AddrOf(_) => AddrOfCode(e, n);
    case Not(_) => UnaryCode(e, n);
    case BitNot(_) => UnaryCode(e, n);
    case Plus(_) => UnaryCode(e, n);
    case Neg(x) => if x.Num? { LeafCode(e, n); } else { NegCode(e, n); }
    case PreInc(_, _) => IncCode(e, n);
    case PostInc(_, _) => IncCode(e, n);
    case Assign(_, _) => AssignCode(e, n);
    case Cond(_, _, _) => CondCodeIs(e, n);
    case Lor(_, _) => ShortCodeIs(e, n);
    case Lan(_, _) => ShortCodeIs(e, n);
    case Binary(_, _, _) => BinaryCode(e, n);
    case Index(_, _) => IndexCode(e, n);
    case _ => LeafCode(e, n);
  }

  lemma LeafCode(e: Expr, n: nat)
    requires Good(e) && (e.Num? || e.StrLit? || e.SizeOf? || e.Var? || (e.Neg? && e.e.Num?))
    ensures IsCode(e, n)
  {}

  lemma {:induction false} CastCode(e: Expr, n: nat)
    requires Good(e) && e.Cast?
    ensures IsCode(e, n)
    decreases e, 0
  {
    hide Code; hide TypeOf; hide E.Spoilt; hide E.Retyped;
    CastParts(e, n);
    EmitCode(e.e, n);
  }

  lemma CastParts(e: Expr, n: nat)
    requires Good(e) && e.Cast?
    ensures Good(e.e) && Type(e) == e.t && Code(e, None, n) == E.Retyped(Code(e.e, None, n), AccessTy(e.t))
  {
    RetypeCode(e.e, None, AccessTy(e.t), n);
  }

  lemma {:induction false} UnaryCode(e: Expr, n: nat)
    requires Good(e) && (e.Deref? || e.Not? || e.BitNot? || e.Plus?)
    ensures IsCode(e, n)
    decreases e, 0
  {
    hide Code; hide TypeOf; hide Eval;
    UnaryType(e);
    match e {
      case Deref(x) => UnfoldDeref(x, None, n, map[]);
      case Not(x) => UnfoldNot(x, None, n, map[]);
      case BitNot(x) => UnfoldBitNot(x, None, n, map[]);
      case Plus(x) => UnfoldRetyped(e, None, n, map[]);
    }
    EmitCode(e.e, n);
  }

  lemma UnaryType(e: Expr)
    requires Good(e) && (e.Deref? || e.Not? || e.BitNot? || e.Plus? || e.Neg?)
    ensures Good(e.e) && Type(e) == if e.Deref? then Type(e.e).(ptr := Type(e.e).ptr - 1) else INT_TY
    ensures e.Deref? ==> Type(e.e).ptr > 0
  {}

  lemma {:induction false} AddrOfCode(e: Expr, n: nat)
    requires Good(e) && e.AddrOf?
    ensures IsCode(e, n)
    decreases e, 0
  {
    hide Code; hide TypeOf; hide Address; hide IsLvalue; hide Emit; hide Undoable;
    EmitAddrOf(e.e, n);
    AddrOfParts(e, n);
    EmitCode(e.e, n);
  }

  lemma AddrOfParts(e: Expr, n: nat)
    requires Good(e) && e.AddrOf?
    ensures Good(e.e) && Type(e) == PointerTo(Type(e.e)) && E.EndsInLoad(Code(e.e, None, n))
    ensures Code(e, None, n) == E.Front(Code(e.e, None, n))
  {
    LvalueEndsInLoad(e.e, None, n);
  }

  lemma {:induction false} NegCode(e: Expr, n: nat)
    requires Good(e) && e.Neg? && !e.e.Num?
    ensures IsCode(e, n)
    decreases e, 0
  {
    hide Code; hide TypeOf; hide Emit; hide Eval;
    EmitNeg(e.e, n);
    UnaryType(e);
    UnfoldNeg(e.e, None, n, map[]);
    EmitCode(e.e, n + 2);
    var c := Code(e.e, None, n + 2);
    assert [IMM(TWO64 - 1), PSH] + c + [Bin(MUL)] == PairCode([IMM(TWO64 - 1)], c, [Bin(MUL)]);
  }

  lemma {:induction false} IncCode(e: Expr, n: nat)
    requires Good(e) && (e.PreInc? || e.PostInc?)
    ensures IsCode(e, n)
    decreases e, 0
  {
    hide Code; hide TypeOf; hide Address; hide IsLvalue; hide LoadTy; hide Eval; hide Undoable; hide BumpTail;
    hide BumpCode;
    var x := e.e;
    IncType(e);
    if e.PreInc? { UnfoldPreInc(e.dec, x, None, n, map[]); } else { UnfoldPostInc(e.dec, x, None, n, map[]); }
    EmitCode(x, n);
    LvalueEndsInLoad(x, None, n);
    BumpParts(x, n, e.dec);
    var b := Address(x, None, n) + BumpCode(e.dec, x);
    assert b + [] == b;
    if e.PostInc? { EmitPostInc(e.dec, x, n); }
  }

  lemma IncType(e: Expr)
    requires Good(e) && (e.PreInc? || e.PostInc?)
    ensures Good(e.e) && Type(e) == Type(e.e)
  {}

  lemma BumpParts(x: Expr, n: nat, dec: bool)
    requires Good(x) && IsLvalue(x) && Code(x, None, n) == Address(x, None, n) + [LI(LoadTy(x))]
    ensures E.EndsInLoad(Code(x, None, n))
    ensures BumpTail(Code(x, None, n), Type(x), dec) == Address(x, None, n) + BumpCode(dec, x)
  {
    hide Code; hide TypeOf; hide Address; hide IsLvalue; hide LoadTy;
    var c, a := Code(x, None, n), Address(x, None, n);
    assert E.Front(c) == a && c[|c| - 1] == LI(LoadTy(x));
  }

  lemma {:induction false} AssignCode(e: Expr, n: nat)
    requires Good(e) && e.Assign?
    ensures IsCode(e, n)
    decreases e, 0
  {
    hide Code; hide TypeOf; hide Address; hide IsLvalue; hide LoadTy; hide Eval; hide EvalAddr; hide Undoable;
    hide PairCode; hide Emit;
    EmitAssign(e.l, e.r, n);
    AssignType(e);
    UnfoldAssign(e.l, e.r, None, n, map[]);
    LvalueEndsInLoad(e.l, None, n);
    EmitCode(e.l, n);
    var c := Code(e.l, None, n);
    assert E.Front(c) == Address(e.l, None, n);
    EmitCode(e.r, n + |c|);
  }

  lemma AssignType(e: Expr)
    requires Good(e) && e.Assign?
    ensures Good(e.l) && Type(e) == Type(e.l)
  {}

  lemma {:induction false} CondCodeIs(e: Expr, n: nat)
    requires Good(e) && e.Cond?
    ensures IsCode(e, n)
    decreases e, 0
  {
    hide Code; hide TypeOf; hide Eval; hide CondCode; hide Emit;
    EmitCond(e.c, e.a, e.b, n);
    BranchType(e);
    UnfoldCond(e.c, e.a, e.b, None, n, map[]);
    EmitCode(e.c, n);
    var cc := Code(e.c, None, n);
    EmitCode(e.a, n + |cc| + 1);
    EmitCode(e.b, n + |cc| + |Code(e.a, None, n + |cc| + 1)| + 2);
  }

  lemma BranchType(e: Expr)
    requires Good(e) && (e.Cond? || e.Lor? || e.Lan?)
    ensures Good(e.b) && Type(e) == if e.Cond? then Type(e.b) else INT_TY
  {}

  lemma {:induction false} ShortCodeIs(e: Expr, n: nat)
    requires Good(e) && (e.Lor? || e.Lan?)
    ensures IsCode(e, n)
    decreases e, 0
  {
    hide Code; hide TypeOf; hide Eval; hide ShortCode; hide Emit;
    EmitShort(e, e.a, e.b, n);
    BranchType(e);
    if e.Lor? { UnfoldLor(e.a, e.b, None, n, map[]); } else { UnfoldLan(e.a, e.b, None, n, map[]); }
    EmitCode(e.a, n);
    EmitCode(e.b, n + |Code(e.a, None, n)| + 1);
  }

  lemma {:induction false} BinaryCode(e: Expr, n: nat)
    requires Good(e) && e.Binary?
    ensures IsCode(e, n)
    decreases e, 0
  {
    hide Code; hide TypeOf; hide Eval; hide PairCode; hide Emit; hide OpCode; hide BinaryTy; hide BinaryEff;
    EmitBinary(e.op, e.a, e.b, n);
    BinaryType(e);
    UnfoldBinary(e.op, e.a, e.b, None, n, map[]);
    EmitCode(e.a, n);
    EmitCode(e.b, n + |Code(e.a, None, n)| + 1);
  }

  lemma BinaryType(e: Expr)
    requires Good(e) && e.Binary?
    ensures Good(e.a) && Good(e.b) && BinaryTy(e.op, Type(e.a), Type(e.b)) == Some(Type(e))
  {}

  lemma {:induction false} IndexCode(e: Expr, n: nat)
    requires Good(e) && e.Index?
    ensures IsCode(e, n)
    decreases e, 0
  {
    hide Code; hide TypeOf; hide Eval; hide EvalAddr; hide PairCode; hide Emit; hide ScaleCode; hide Address;
    hide IsLvalue;
    EmitIndex(e.a, e.i, n);
    IndexType(e);
    UnfoldIndex(e, None, n, map[]);
    EmitCode(e.a, n);
    EmitCode(e.i, n + |Code(e.a, None, n)| + 1);
  }

  lemma IndexType(e: Expr)
    requires Good(e) && e.Index?
    ensures Good(e.a) && Type(e.a).ptr > 0 && Type(e) == Type(e.a).(ptr := Type(e.a).ptr - 1)
  {}
}
