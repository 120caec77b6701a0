/** Every load and store the compiler makes has an operand the machine knows. */
module Operands {
  import opened Options
  import opened Words
  import opened Vm
  import opened Syntax
  import opened Compile
  import opened Parse
  import opened Frontend
  import opened Trees
  import opened AnyTokens
  import E = Encoding

  /** The operands of LI and SI that the machine has a case for: four widths, signed and unsigned, and a pointer. */
  predicate Known(t: Ty) { E.TypeCode(t) in {0, 1, 2, 3, 8, 9, 10, 11, 16} }

  predicate Plain(i: Instr) { (i.LI? || i.SI?) ==> Known(i.ty) }

  predicate Handled(c: seq<Instr>) { forall i :: 0 <= i < |c| ==> Plain(c[i]) }

  lemma AccessKnown(t: Ty)
    ensures Known(AccessTy(t)) && Plain(LI(AccessTy(t))) && Plain(SI(AccessTy(t)))
  {}

  lemma HandledCat(a: seq<Instr>, b: seq<Instr>)
    requires Handled(a) && Handled(b)
    ensures Handled(a + b)
  {
    forall i | 0 <= i < |a + b| ensures Plain((a + b)[i]) {
      if i < |a| { assert (a + b)[i] == a[i]; } else { assert (a + b)[i] == b[i - |a|]; }
    }
  }

  lemma HandledPair(a: seq<Instr>, b: seq<Instr>, c: seq<Instr>)
    requires Handled(a) && Handled(b) && Handled(c)
    ensures Handled(PairCode(a, b, c))
  {
    HandledCat(b, c);
    HandledCat([PSH], b + c);
    HandledCat(a, [PSH] + (b + c));
  }

  lemma HandledShort(lor: bool, n: nat, a: seq<Instr>, b: seq<Instr>)
    requires Handled(a) && Handled(b)
    ensures Handled(ShortCode(lor, n, a, b))
  {
    var end := n + |a| + |b| + 1;
    var jump := [if lor then BNZ(end) else BZ(end)];
    HandledCat(jump, b);
    HandledCat(a, jump + b);
  }

  lemma HandledCond(n: nat, c: seq<Instr>, a: seq<Instr>, b: seq<Instr>)
    requires Handled(c) && Handled(a) && Handled(b)
    ensures Handled(CondCode(n, c, a, b))
  {
    var els := n + |c| + |a| + 2;
    HandledCat([JMP(els + |b|)], b);
    HandledCat(a, [JMP(els + |b|)] + b);
    HandledCat([BZ(els)], a + ([JMP(els + |b|)] + b));
    HandledCat(c, [BZ(els)] + (a + ([JMP(els + |b|)] + b)));
  }

  lemma HandledBump(c: seq<Instr>, ty: Ty, dec: bool)
    requires Handled(c) && E.EndsInLoad(c)
    ensures Handled(BumpTail(c, ty, dec))
  {
    AccessKnown(ty);
    hide AccessTy; hide Known;
    var tail := [PSH, c[|c| - 1], PSH, IMM(IncBytes(ty)), Bin(if dec then SUB else ADD), SI(AccessTy(ty))];
    assert Plain(c[|c| - 1]) && Handled(tail);
    HandledCat(E.Front(c), tail);
  }

  lemma HandledOp(op: BinOp, t: Ty, u: Ty)
    ensures Handled(OpCode(op, t, u)) && Handled(ScaleCode(t)) && Handled(ScaleCode(t) + [Bin(ADD)])
  {
    hide OpFor;
  }

  ghost predicate Fine(r: Made) { r.Made? ==> Handled(r.code) }

  lemma FineOne(r: Made, c: seq<Instr>)
    requires Fine(r) && Handled(c)
    ensures Fine(Then(r, c))
  {
    if r.Made? { HandledCat(r.code, c); }
  }

  lemma FineCast(r: Made, t: Ty)
    requires Fine(r) && (r.Made? ==> r.code != [])
    ensures Fine(Recast(r, t))
  {
    hide E.Spoilt; hide AccessTy; hide Known;
    AccessKnown(t);
    if r.Made? && E.EndsInLoad(r.code) { HandledCat(E.Front(r.code), [LI(AccessTy(t))]); }
  }

  lemma FineLoad(r: Made)
    requires Fine(r)
    ensures Fine(Loaded(r))
  {
    hide AccessTy; hide Known;
    if r.Made? && r.ty.ptr > 0 {
      var t := r.ty.(ptr := r.ty.ptr - 1);
      AccessKnown(t);
      HandledCat(r.code, [LI(AccessTy(t))]);
    }
  }

  lemma FineBump(r: Made, n: nat, dec: bool, c: seq<Instr>)
    requires Fine(r) && Handled(c)
    ensures Fine(Bumped(r, n, dec, c))
  {
    hide BumpTail; hide Lands;
    if r.Made? && Undoable(r.code, n) {
      HandledBump(r.code, r.ty, dec);
      HandledCat(BumpTail(r.code, r.ty, dec), c);
    }
  }

  lemma FineIndex(p: Made, q: Made)
    requires p.Made? && Fine(p) && Fine(q)
    ensures Fine(Indexed(p, q))
  {
    hide AccessTy; hide Known; hide PairCode; hide ScaleCode;
    if q.Made? && p.ty.ptr > 0 {
      var t := p.ty.(ptr := p.ty.ptr - 1);
      HandledOp(Add, p.ty, p.ty);
      AccessKnown(t);
      HandledPair(p.code, q.code, ScaleCode(p.ty) + [Bin(ADD)]);
      HandledCat(PairCode(p.code, q.code, ScaleCode(p.ty) + [Bin(ADD)]), [LI(AccessTy(t))]);
    }
  }

  lemma {:induction false} EmitFine(e: Expr, n: nat)
    ensures Fine(Emit(e, n))
    decreases e
  {
    hide AccessTy; hide Known; hide Handled; hide PairCode; hide ShortCode; hide CondCode; hide OpCode; hide Undoable;
    hide Recast; hide Loaded; hide Then; hide Bumped; hide Indexed;
    match e
    case Cast(t, x) => EmitFine(x, n); FineCast(Emit(x, n), t);
    case Deref(x) => EmitFine(x, n); FineLoad(Emit(x, n));
    case AddrOf(x) => EmitFine(x, n); FineFront(Emit(x, n), n);
    case Not(x) => EmitFine(x, n); Small(); FineOne(Emit(x, n), [PSH, IMM(0), Bin(EQ)]);
    case BitNot(x) => EmitFine(x, n); Small(); FineOne(Emit(x, n), [PSH, IMM(TWO64 - 1), Bin(XOR)]);
    case Plus(x) => EmitFine(x, n); Small(); FineOne(Emit(x, n), []);
    case Neg(x) =>
      Small();
      EmitFine(x, n + 2);
      FineNeg(x, n);
    case PreInc(dec, x) => EmitFine(x, n); Small(); FineBump(Emit(x, n), n, dec, []);
    case PostInc(dec, x) => EmitFine(x, n); FinePost(dec, x, n);
    case Assign(l, v) => FineAssign(l, v, n);
    case Cond(c, a, b) => FineCond(c, a, b, n);
    case Lor(a, b) => FineShort(e, a, b, n);
    case Lan(a, b) => FineShort(e, a, b, n);
    case Binary(op, a, b) => FineBinary(op, a, b, n);
    case Index(a, i) =>
      EmitFine(a, n);
      EmitIndex(a, i, n);
      var p := Emit(a, n);
      if p.Made? { EmitFine(i, n + |p.code| + 1); FineIndex(p, Emit(i, n + |p.code| + 1)); }
    case _ => FineLeaf(e, n);
  }

  lemma Small()
    ensures Handled([]) && Handled([PSH, IMM(0), Bin(EQ)]) && Handled([PSH, IMM(TWO64 - 1), Bin(XOR)])
    ensures Handled([IMM(TWO64 - 1)]) && Handled([Bin(MUL)])
  {}

  lemma FineLeaf(e: Expr, n: nat)
    requires e.Num? || e.StrLit? || e.SizeOf? || e.Var?
    ensures Fine(Emit(e, n))
  {
    if e.Var? { AccessKnown(e.ty); }
    hide AccessTy; hide Known;
  }

  lemma FineFront(r: Made, n: nat)
    requires Fine(r)
    ensures r.Made? && Undoable(r.code, n) ==> Handled(E.Front(r.code))
  {}

  lemma FineNeg(x: Expr, n: nat)
    requires Fine(Emit(x, n + 2))
    ensures Fine(Emit(Neg(x), n))
  {
    hide Emit; hide PairCode;
    if x.Num? {
      assert Emit(Neg(x), n) == Made([IMM(Wrap(-(x.v as int)))], INT_TY) by { NegNum(x, n); }
    } else {
      EmitNeg(x, n);
      if Emit(x, n + 2).Made? { HandledPair([IMM(TWO64 - 1)], Emit(x, n + 2).code, [Bin(MUL)]); }
    }
  }

  lemma NegNum(x: Expr, n: nat)
    requires x.Num?
    ensures Emit(Neg(x), n) == Made([IMM(Wrap(-(x.v as int)))], INT_TY)
  {}

  lemma FinePost(dec: bool, x: Expr, n: nat)
    requires Fine(Emit(x, n))
    ensures Fine(Emit(PostInc(dec, x), n))
  {
    hide Emit; hide Bumped;
    EmitPostInc(dec, x, n);
    var r := Emit(x, n);
    if r.Made? { FineBump(r, n, dec, [PSH, IMM(IncBytes(r.ty)), Bin(if dec then ADD else SUB)]); }
  }

  lemma {:induction false} FineAssign(l: Expr, v: Expr, n: nat)
    ensures Fine(Emit(Assign(l, v), n))
    decreases Assign(l, v), 0
  {
    hide Emit; hide PairCode; hide Lands; hide AccessTy; hide Known;
    EmitAssign(l, v, n);
    EmitFine(l, n);
    var p := Emit(l, n);
    if p.Made? && Undoable(p.code, n) {
      var q := Emit(v, n + |p.code|);
      EmitFine(v, n + |p.code|);
      AccessKnown(p.ty);
      if q.Made? { HandledPair(E.Front(p.code), q.code, [SI(AccessTy(p.ty))]); }
    }
  }

  lemma {:induction false} FineCond(c: Expr, a: Expr, b: Expr, n: nat)
    ensures Fine(Emit(Cond(c, a, b), n))
    decreases Cond(c, a, b), 0
  {
    hide Emit; hide CondCode; hide Handled;
    EmitCond(c, a, b, n);
    EmitFine(c, n);
    var p := Emit(c, n);
    if p.Made? {
      EmitFine(a, n + |p.code| + 1);
      var q := Emit(a, n + |p.code| + 1);
      if q.Made? {
        EmitFine(b, n + |p.code| + |q.code| + 2);
        var r := Emit(b, n + |p.code| + |q.code| + 2);
        if r.Made? { HandledCond(n, p.code, q.code, r.code); }
      }
    }
  }

  lemma {:induction false} FineShort(e: Expr, a: Expr, b: Expr, n: nat)
    requires e == Lor(a, b) || e == Lan(a, b)
    ensures Fine(Emit(e, n))
    decreases e, 0
  {
    hide Emit; hide ShortCode; hide Handled;
    EmitShort(e, a, b, n);
    EmitFine(a, n);
    var p := Emit(a, n);
    if p.Made? {
      EmitFine(b, n + |p.code| + 1);
      var q := Emit(b, n + |p.code| + 1);
      if q.Made? { HandledShort(e.Lor?, n, p.code, q.code); }
    }
  }

  lemma {:induction false} FineBinary(op: BinOp, a: Expr, b: Expr, n: nat)
    ensures Fine(Emit(Binary(op, a, b), n))
    decreases Binary(op, a, b), 0
  {
    hide Emit; hide PairCode; hide Handled; hide OpCode; hide BinaryTy;
    EmitBinary(op, a, b, n);
    EmitFine(a, n);
    var p := Emit(a, n);
    if p.Made? {
      EmitFine(b, n + |p.code| + 1);
      var q := Emit(b, n + |p.code| + 1);
      if q.Made? {
        HandledOp(op, p.ty, q.ty);
        HandledPair(p.code, q.code, OpCode(op, p.ty, q.ty));
      }
    }
  }

  lemma {:induction false} ListHandled(es: seq<Expr>)
    requires EmitList(es).Made?
    ensures Handled(EmitList(es).code)
  {
    hide Emit; hide Handled;
    Small();
    if es != [] {
      var f, e := EmitList(es[..|es| - 1]), es[|es| - 1];
      ListHandled(es[..|es| - 1]);
      EmitFine(e, |f.code|);
      HandledCat(f.code, Emit(e, |f.code|).code);
    }
  }

  /** Whatever the tokens, the machine never meets a load or store of a type it has no case for. */
  lemma AnyHandled(toks: seq<Tok>)
    requires ParseList(toks, START).Done?
    ensures Handled(ParseList(toks, START).s.code)
  {
    hide ParseList; hide TreeList; hide EmitList; hide Handled;
    AnyEmits(toks);
    ListHandled(TreeList(toks, 0).value);
  }
}
