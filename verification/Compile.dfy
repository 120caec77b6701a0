/** The code of a tree, and what running it does. */
module Compile {
  import opened Options
  import opened Words
  import opened Vm
  import opened Syntax

  /** What follows the second operand of a binary operator. */
  function OpCode(op: BinOp, t: Ty, u: Ty): seq<Instr> {
    if OnStrings(op, t, u) then [Str(StrOpFor(op))]
    else if op.Match? then []
    else if op.Add? then ScaleCode(t) + [Bin(ADD)]
    else if op.Sub? then
      if Scaled(t) && t == u then [Bin(SUB), PSH, IMM(ElemBytes(t)), Bin(DIV)]
      else ScaleCode(t) + [Bin(SUB)]
    else [Bin(OpFor(op, t, u))]
  }

  function ScaleCode(t: Ty): seq<Instr> {
    if Scaled(t) then [PSH, IMM(ElemBytes(t)), Bin(MUL)] else []
  }

  /** What follows the address of the operand of `++` or `--`. */
  function BumpCode(dec: bool, x: Expr): seq<Instr>
    requires Good(x) && IsLvalue(x)
  {
    [PSH, LI(LoadTy(x)), PSH, IMM(IncBytes(Type(x))), Bin(if dec then SUB else ADD), SI(AccessTy(Type(x)))]
  }

  /** Both operands, the first saved on the stack, then what combines them. */
  function PairCode(ca: seq<Instr>, cb: seq<Instr>, co: seq<Instr>): (c: seq<Instr>)
    ensures |c| == |ca| + 1 + |cb| + |co|
  { ca + ([PSH] + (cb + co)) }

  /** `||` and `&&`: leave with the first value when it decides. */
  function ShortCode(lor: bool, n: nat, ca: seq<Instr>, cb: seq<Instr>): (c: seq<Instr>)
    ensures |c| == |ca| + 1 + |cb|
  {
    var end := n + |ca| + |cb| + 1;
    ca + ([if lor then BNZ(end) else BZ(end)] + cb)
  }

  function CondCode(n: nat, cc: seq<Instr>, ca: seq<Instr>, cb: seq<Instr>): (c: seq<Instr>)
    ensures |c| == |cc| + 2 + |ca| + |cb|
  {
    var els := n + |cc| + |ca| + 2;
    cc + ([BZ(els)] + (ca + ([JMP(els + |cb|)] + cb)))
  }

  /** Code of `e` when it starts at index `n`; `over` re-types the load that ends it. */
  function Code(e: Expr, over: Option<Ty>, n: nat): (c: seq<Instr>)
    requires Good(e)
    ensures |c| >= 1 && c[0].IMM?
    decreases e, 1
  {
    match e
    case Num(v) => [IMM(v)]
    case StrLit(a) => [IMM(a)]
    case SizeOf(t) => [IMM(SizeOfTy(t))]
    case Var(a, ty, isArray) =>
      if isArray then [IMM(a)] else [IMM(a), LI(Over(over, ty))]
    case Cast(t, x) => Code(x, Some(Over(over, t)), n)
    case Deref(x) => Code(x, None, n) + [LI(Over(over, Type(e)))]
    case AddrOf(x) => Address(x, over, n)
    case Not(x) => Code(x, None, n) + [PSH, IMM(0), Bin(EQ)]
    case BitNot(x) => Code(x, None, n) + [PSH, IMM(TWO64 - 1), Bin(XOR)]
    case Plus(x) => Code(x, over, n)
    case Neg(x) =>
      if x.Num? then [IMM(Wrap(-(x.v as int)))] else [IMM(TWO64 - 1), PSH] + Code(x, None, n + 2) + [Bin(MUL)]
    case PreInc(dec, x) => Address(x, None, n) + BumpCode(dec, x)
    case PostInc(dec, x) =>
      Address(x, None, n) + BumpCode(dec, x) + [PSH, IMM(IncBytes(Type(x))), Bin(if dec then ADD else SUB)]
    case Assign(l, r) =>
      var p := Address(l, None, n);
      PairCode(p, Code(r, None, n + |p| + 1), [SI(AccessTy(Type(l)))])
    case Cond(c, a, b) =>
      var cc := Code(c, None, n);
      var ca := Code(a, None, n + |cc| + 1);
      CondCode(n, cc, ca, Code(b, over, n + |cc| + |ca| + 2))
    case Lor(a, b) =>
      var ca := Code(a, None, n);
      ShortCode(true, n, ca, Code(b, over, n + |ca| + 1))
    case Lan(a, b) =>
      var ca := Code(a, None, n);
      ShortCode(false, n, ca, Code(b, over, n + |ca| + 1))
    case Binary(op, a, b) =>
      var ca := Code(a, None, n);
      PairCode(ca, Code(b, None, n + |ca| + 1), OpCode(op, Type(a), Type(b)))
    case Index(a, i) => Address(e, None, n) + [LI(Over(over, Type(e)))]
  }

  /** Code that leaves the address of an lvalue in the register. */
  function Address(e: Expr, over: Option<Ty>, n: nat): (c: seq<Instr>)
    requires Good(e) && IsLvalue(e)
    ensures |c| >= 1 && c[0].IMM?
    decreases e, 0
  {
    match e
    case Var(a, _, _) => [IMM(a)]
    case Deref(x) => Code(x, over, n)
    case Cast(_, x) => Address(x, over, n)
    case Plus(x) => Address(x, over, n)
    case Index(a, i) =>
      var ca := Code(a, None, n);
      PairCode(ca, Code(i, None, n + |ca| + 1), ScaleCode(Type(a)) + [Bin(ADD)])
  }

  /** The code of an lvalue is its address code and one load. */
  lemma {:induction false} LvalueEndsInLoad(e: Expr, over: Option<Ty>, n: nat)
    requires Good(e) && IsLvalue(e)
    ensures Code(e, over, n) == Address(e, None, n) + [LI(if over.Some? then over.value else LoadTy(e))]
  {
    match e
    case Cast(t, x) => LvalueEndsInLoad(x, Some(Over(over, t)), n);
    case Plus(x) => LvalueEndsInLoad(x, over, n);
    case Var(_, _, _) =>
    case Deref(_) =>
    case Index(_, _) =>
  }

  // ----- one-level equations -----

  lemma UnfoldRetyped(e: Expr, over: Option<Ty>, n: nat, m: Memory)
    requires Good(e) && (e.Cast? || e.Plus? || e.AddrOf?)
    ensures e.Cast? ==>
              Good(e.e) && Code(e, over, n) == Code(e.e, Some(Over(over, e.t)), n) &&
              Eval(e, over, m) == Eval(e.e, Some(Over(over, e.t)), m)
    ensures e.Plus? ==> Good(e.e) && Code(e, over, n) == Code(e.e, over, n) && Eval(e, over, m) == Eval(e.e, over, m)
    ensures e.AddrOf? ==>
              Good(e.e) && IsLvalue(e.e) && Code(e, over, n) == Address(e.e, over, n) &&
              Eval(e, over, m) == EvalAddr(e.e, over, m)
  {
    hide PairCode; hide ShortCode; hide CondCode; hide OpCode; hide BinaryEff; hide AluEff; hide LoadEff;
    hide StoreEff; hide Scale;
  }

  lemma UnfoldDeref(x: Expr, over: Option<Ty>, n: nat, m: Memory)
    requires Good(Deref(x))
    ensures Good(x) && Code(Deref(x), over, n) == Code(x, None, n) + [LI(Over(over, Type(Deref(x))))]
    ensures Eval(Deref(x), over, m) ==
            var r := Eval(x, None, m);
            if r.None? then None else LoadEff(r.value.mem, r.value.v, Over(over, Type(Deref(x))))
  {
    hide PairCode; hide ShortCode; hide CondCode; hide OpCode; hide BinaryEff; hide AluEff; hide LoadEff;
    hide StoreEff; hide Scale;
  }

  lemma UnfoldNot(x: Expr, over: Option<Ty>, n: nat, m: Memory)
    requires Good(Not(x))
    ensures Good(x) && Code(Not(x), over, n) == Code(x, None, n) + [PSH, IMM(0), Bin(EQ)]
    ensures Eval(Not(x), over, m) ==
            var r := Eval(x, None, m); if r.None? then None else AluEff(EQ, r.value.v, 0, r.value.mem)
  {
    hide PairCode; hide ShortCode; hide CondCode; hide OpCode; hide BinaryEff; hide AluEff; hide LoadEff;
    hide StoreEff; hide Scale;
  }

  lemma UnfoldBitNot(x: Expr, over: Option<Ty>, n: nat, m: Memory)
    requires Good(BitNot(x))
    ensures Good(x) && Code(BitNot(x), over, n) == Code(x, None, n) + [PSH, IMM(TWO64 - 1), Bin(XOR)]
    ensures Eval(BitNot(x), over, m) ==
            var r := Eval(x, None, m); if r.None? then None else AluEff(XOR, r.value.v, TWO64 - 1, r.value.mem)
  {
    hide PairCode; hide ShortCode; hide CondCode; hide OpCode; hide BinaryEff; hide AluEff; hide LoadEff;
    hide StoreEff; hide Scale;
  }

  lemma UnfoldNeg(x: Expr, over: Option<Ty>, n: nat, m: Memory)
    requires Good(Neg(x)) && !x.Num?
    ensures Good(x) && Code(Neg(x), over, n) == [IMM(TWO64 - 1), PSH] + Code(x, None, n + 2) + [Bin(MUL)]
    ensures Eval(Neg(x), over, m) ==
            var r := Eval(x, None, m); if r.None? then None else AluEff(MUL, TWO64 - 1, r.value.v, r.value.mem)
  {
    hide PairCode; hide ShortCode; hide CondCode; hide OpCode; hide BinaryEff; hide AluEff; hide LoadEff;
    hide StoreEff; hide Scale;
  }

  lemma UnfoldIndex(e: Expr, over: Option<Ty>, n: nat, m: Memory)
    requires e.Index? && Good(e)
    ensures Good(e.a) && Good(e.i) && IsLvalue(e) && Code(e, over, n) == Address(e, None, n) + [LI(Over(over, Type(e)))]
    ensures Eval(e, over, m) ==
            var r := EvalAddr(e, None, m);
            if r.None? then None else LoadEff(r.value.mem, r.value.v, Over(over, Type(e)))
    ensures Address(e, None, n) ==
            var ca := Code(e.a, None, n);
            PairCode(ca, Code(e.i, None, n + |ca| + 1), ScaleCode(Type(e.a)) + [Bin(ADD)])
    ensures EvalAddr(e, None, m) ==
            var r := Eval(e.a, None, m);
            if r.None? then None
            else var q := Eval(e.i, None, r.value.mem);
                 if q.None? then None else AluEff(ADD, r.value.v, Scale(Type(e.a), q.value.v), q.value.mem)
  {
    hide PairCode; hide ShortCode; hide CondCode; hide OpCode; hide BinaryEff; hide AluEff; hide LoadEff;
    hide StoreEff; hide Scale;
  }

  lemma UnfoldPreInc(dec: bool, x: Expr, over: Option<Ty>, n: nat, m: Memory)
    requires Good(PreInc(dec, x))
    ensures Good(x) && IsLvalue(x) && Code(PreInc(dec, x), over, n) == Address(x, None, n) + BumpCode(dec, x)
    ensures Eval(PreInc(dec, x), over, m) == Bump(dec, x, m)
  {
    hide PairCode; hide ShortCode; hide CondCode; hide OpCode; hide BinaryEff; hide AluEff; hide LoadEff;
    hide StoreEff; hide Scale;
  }

  lemma UnfoldPostInc(dec: bool, x: Expr, over: Option<Ty>, n: nat, m: Memory)
    requires Good(PostInc(dec, x))
    ensures Good(x) && IsLvalue(x)
    ensures Code(PostInc(dec, x), over, n) ==
            Address(x, None, n) + BumpCode(dec, x) + [PSH, IMM(IncBytes(Type(x))), Bin(if dec then ADD else SUB)]
    ensures Eval(PostInc(dec, x), over, m) ==
            var r := Bump(dec, x, m);
            if r.None? then None else AluEff(if dec then ADD else SUB, r.value.v, IncBytes(Type(x)), r.value.mem)
  {
    hide PairCode; hide ShortCode; hide CondCode; hide OpCode; hide BinaryEff; hide AluEff; hide LoadEff;
    hide StoreEff; hide Scale;
  }

  lemma UnfoldAssign(l: Expr, r: Expr, over: Option<Ty>, n: nat, m: Memory)
    requires Good(Assign(l, r))
    ensures Good(l) && IsLvalue(l) && Good(r)
    ensures Code(Assign(l, r), over, n) ==
            var p := Address(l, None, n); PairCode(p, Code(r, None, n + |p| + 1), [SI(AccessTy(Type(l)))])
    ensures Eval(Assign(l, r), over, m) ==
            var p := EvalAddr(l, None, m);
            if p.None? then None
            else var q := Eval(r, None, p.value.mem);
                 if q.None? then None else StoreEff(q.value.mem, p.value.v, q.value.v, AccessTy(Type(l)))
  {
    hide PairCode; hide ShortCode; hide CondCode; hide OpCode; hide BinaryEff; hide AluEff; hide LoadEff;
    hide StoreEff; hide Scale;
  }

  lemma UnfoldCond(c: Expr, a: Expr, b: Expr, over: Option<Ty>, n: nat, m: Memory)
    requires Good(Cond(c, a, b))
    ensures Good(c) && Good(a) && Good(b)
    ensures Code(Cond(c, a, b), over, n) ==
            var cc := Code(c, None, n);
            var ca := Code(a, None, n + |cc| + 1);
            CondCode(n, cc, ca, Code(b, over, n + |cc| + |ca| + 2))
    ensures Eval(Cond(c, a, b), over, m) ==
            var r := Eval(c, None, m);
            if r.None? then None
            else if r.value.v != 0 then Eval(a, None, r.value.mem) else Eval(b, over, r.value.mem)
  {
    hide PairCode; hide ShortCode; hide CondCode; hide OpCode; hide BinaryEff; hide AluEff; hide LoadEff;
    hide StoreEff; hide Scale;
  }

  lemma UnfoldLor(a: Expr, b: Expr, over: Option<Ty>, n: nat, m: Memory)
    requires Good(Lor(a, b))
    ensures Good(a) && Good(b)
    ensures Code(Lor(a, b), over, n) ==
            var ca := Code(a, None, n);
            ShortCode(true, n, ca, Code(b, over, n + |ca| + 1))
    ensures Eval(Lor(a, b), over, m) ==
            var r := Eval(a, None, m); if r.None? || r.value.v != 0 then r else Eval(b, over, r.value.mem)
  {
    hide PairCode; hide ShortCode; hide CondCode; hide OpCode; hide BinaryEff; hide AluEff; hide LoadEff;
    hide StoreEff; hide Scale;
  }

  lemma UnfoldLan(a: Expr, b: Expr, over: Option<Ty>, n: nat, m: Memory)
    requires Good(Lan(a, b))
    ensures Good(a) && Good(b)
    ensures Code(Lan(a, b), over, n) ==
            var ca := Code(a, None, n);
            ShortCode(false, n, ca, Code(b, over, n + |ca| + 1))
    ensures Eval(Lan(a, b), over, m) ==
            var r := Eval(a, None, m); if r.None? || r.value.v == 0 then r else Eval(b, over, r.value.mem)
  {
    hide PairCode; hide ShortCode; hide CondCode; hide OpCode; hide BinaryEff; hide AluEff; hide LoadEff;
    hide StoreEff; hide Scale;
  }

  lemma UnfoldBinary(op: BinOp, a: Expr, b: Expr, over: Option<Ty>, n: nat, m: Memory)
    requires Good(Binary(op, a, b))
    ensures Good(a) && Good(b) && BinaryTy(op, Type(a), Type(b)).Some?
    ensures Code(Binary(op, a, b), over, n) ==
            var ca := Code(a, None, n);
            PairCode(ca, Code(b, None, n + |ca| + 1), OpCode(op, Type(a), Type(b)))
    ensures Eval(Binary(op, a, b), over, m) ==
            var r := Eval(a, None, m);
            if r.None? then None
            else var q := Eval(b, None, r.value.mem);
                 if q.None? then None else BinaryEff(op, Type(a), Type(b), r.value.v, q.value.v, q.value.mem)
  {
    hide PairCode; hide ShortCode; hide CondCode; hide OpCode; hide BinaryEff; hide AluEff; hide LoadEff;
    hide StoreEff; hide Scale;
  }

  lemma UnfoldAddress(e: Expr, over: Option<Ty>, n: nat, m: Memory)
    requires Good(e) && IsLvalue(e)
    ensures e.Deref? || e.Cast? || e.Plus? || e.Index? || e.Var?
    ensures e.Deref? ==>
              Good(e.e) && Address(e, over, n) == Code(e.e, over, n) && EvalAddr(e, over, m) == Eval(e.e, over, m)
    ensures e.Cast? || e.Plus? ==> Good(e.e) && IsLvalue(e.e) && Address(e, over, n) == Address(e.e, over, n)
    ensures e.Cast? || e.Plus? ==> EvalAddr(e, over, m) == EvalAddr(e.e, over, m)
    ensures e.Index? ==> Address(e, over, n) == Address(e, None, n) && EvalAddr(e, over, m) == EvalAddr(e, None, m)
    ensures e.Var? ==> Address(e, over, n) == [IMM(e.addr)] && EvalAddr(e, over, m) == Some(Eff(e.addr, m))
  {
    hide PairCode; hide AluEff; hide Scale; hide Code; hide Eval;
  }
}
