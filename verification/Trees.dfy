/** What the compiler makes of a tree, any tree: the parser's steps without the tokens. */
module Trees {
  import opened Options
  import opened Words
  import opened Vm
  import opened Syntax
  import opened Compile
  import opened Parse
  import E = Encoding

  datatype Made = Made(code: seq<Instr>, ty: Ty) | Failed(why: Why)

  /** Some jump of code that starts at index `n` goes to its end. */
  predicate Lands(c: seq<Instr>, n: nat) { exists i :: 0 <= i < |c| && c[i].IsJump() && c[i].Target() == n + |c| }

  predicate Undoable(c: seq<Instr>, n: nat) { E.EndsInLoad(c) && !Lands(c, n) }

  /** The code of a tree that starts at index `n`, and its type. */
  function Emit(e: Expr, n: nat): (r: Made)
    ensures r.Made? ==> |r.code| >= 1 && r.code[0].IMM?
  {
    match e
    case Num(v) => Made([IMM(v)], INT_TY)
    case StrLit(a) => Made([IMM(a)], CHAR_PTR)
    case SizeOf(t) => Made([IMM(SizeOfTy(t))], INT_TY)
    case Var(a, ty, isArray) =>
      if isArray then Made([IMM(a)], ty.(ptr := 1)) else Made([IMM(a), LI(AccessTy(ty))], ty)
    case Cast(t, x) => Recast(Emit(x, n), t)
    case Deref(x) => Loaded(Emit(x, n))
    case AddrOf(x) =>
      var r := Emit(x, n);
      if r.Failed? then r
      else if !Undoable(r.code, n) then Failed(NoLoad(r.code))
      else Made(E.Front(r.code), PointerTo(r.ty))
    case Not(x) => Then(Emit(x, n), [PSH, IMM(0), Bin(EQ)])
    case BitNot(x) => Then(Emit(x, n), [PSH, IMM(TWO64 - 1), Bin(XOR)])
    case Plus(x) => Then(Emit(x, n), [])
    case Neg(x) =>
      if x.Num? then Made([IMM(Wrap(-(x.v as int)))], INT_TY)
      else
        var r := Emit(x, n + 2);
        if r.Failed? then r else Made(PairCode([IMM(TWO64 - 1)], r.code, [Bin(MUL)]), INT_TY)
    case PreInc(dec, x) => Bumped(Emit(x, n), n, dec, [])
    case PostInc(dec, x) =>
      var r := Emit(x, n);
      if r.Failed? then r else Bumped(r, n, dec, [PSH, IMM(IncBytes(r.ty)), Bin(if dec then ADD else SUB)])
    case Assign(l, v) =>
      var p := Emit(l, n);
      if p.Failed? then p
      else if !Undoable(p.code, n) then Failed(NoLoad(p.code))
      else
        var q := Emit(v, n + |p.code|);
        if q.Failed? then q else Made(PairCode(E.Front(p.code), q.code, [SI(AccessTy(p.ty))]), p.ty)
    case Cond(c, a, b) =>
      var p := Emit(c, n);
      if p.Failed? then p
      else
        var q := Emit(a, n + |p.code| + 1);
        if q.Failed? then q
        else
          var r := Emit(b, n + |p.code| + |q.code| + 2);
          if r.Failed? then r else Made(CondCode(n, p.code, q.code, r.code), r.ty)
    case Lor(a, b) =>
      var p := Emit(a, n);
      if p.Failed? then p else Shortcut(true, n, p.code, Emit(b, n + |p.code| + 1))
    case Lan(a, b) =>
      var p := Emit(a, n);
      if p.Failed? then p else Shortcut(false, n, p.code, Emit(b, n + |p.code| + 1))
    case Binary(op, a, b) =>
      var p := Emit(a, n);
      if p.Failed? then p
      else if op.Match? && !IsCharPtr(p.ty) then Failed(SyntaxError)
      else Operated(op, p, Emit(b, n + |p.code| + 1))
    case Index(a, i) =>
      var p := Emit(a, n);
      if p.Failed? then p else Indexed(p, Emit(i, n + |p.code| + 1))
  }

  function Recast(r: Made, t: Ty): Made
    requires r.Made? ==> r.code != []
  {
    if r.Failed? then r
    else if E.Spoilt(r.code, AccessTy(t)) then Failed(Garbled)
    else Made(E.Retyped(r.code, AccessTy(t)), t)
  }

  function Loaded(r: Made): Made {
    if r.Failed? then r
    else if r.ty.ptr == 0 then Failed(SyntaxError)
    else var t := r.ty.(ptr := r.ty.ptr - 1); Made(r.code + [LI(AccessTy(t))], t)
  }

  function Then(r: Made, c: seq<Instr>): Made { if r.Failed? then r else Made(r.code + c, INT_TY) }

  function Bumped(r: Made, n: nat, dec: bool, c: seq<Instr>): Made {
    if r.Failed? then r
    else if !Undoable(r.code, n) then Failed(NoLoad(r.code))
    else Made(BumpTail(r.code, r.ty, dec) + c, r.ty)
  }

  function Shortcut(lor: bool, n: nat, c: seq<Instr>, q: Made): Made {
    if q.Failed? then q else Made(ShortCode(lor, n, c, q.code), INT_TY)
  }

  function Operated(op: BinOp, p: Made, q: Made): Made
    requires p.Made?
  {
    if q.Failed? then q
    else
      var t := BinaryTy(op, p.ty, q.ty);
      if t.None? then Failed(SyntaxError) else Made(PairCode(p.code, q.code, OpCode(op, p.ty, q.ty)), t.value)
  }

  function Indexed(p: Made, q: Made): Made
    requires p.Made?
  {
    if q.Failed? then q
    else if p.ty.ptr == 0 then Failed(SyntaxError)
    else
      var t := p.ty.(ptr := p.ty.ptr - 1);
      Made(PairCode(p.code, q.code, ScaleCode(p.ty) + [Bin(ADD)]) + [LI(AccessTy(t))], t)
  }

  // ----- one-level equations -----

  lemma EmitBinary(op: BinOp, a: Expr, b: Expr, n: nat)
    ensures Emit(Binary(op, a, b), n) ==
            var p := Emit(a, n);
            if p.Failed? then p
            else if op.Match? && !IsCharPtr(p.ty) then Failed(SyntaxError)
            else Operated(op, p, Emit(b, n + |p.code| + 1))
  {
    hide Operated;
  }

  lemma EmitIndex(a: Expr, i: Expr, n: nat)
    ensures Emit(Index(a, i), n) ==
            var p := Emit(a, n); if p.Failed? then p else Indexed(p, Emit(i, n + |p.code| + 1))
  {
    hide Indexed;
  }

  lemma EmitCond(c: Expr, a: Expr, b: Expr, n: nat)
    ensures Emit(Cond(c, a, b), n) ==
            var p := Emit(c, n);
            if p.Failed? then p
            else
              var q := Emit(a, n + |p.code| + 1);
              if q.Failed? then q
              else
                var r := Emit(b, n + |p.code| + |q.code| + 2);
                if r.Failed? then r else Made(CondCode(n, p.code, q.code, r.code), r.ty)
  {
    hide CondCode;
  }

  lemma EmitShort(e: Expr, a: Expr, b: Expr, n: nat)
    requires e == Lor(a, b) || e == Lan(a, b)
    ensures Emit(e, n) ==
            var p := Emit(a, n); if p.Failed? then p else Shortcut(e.Lor?, n, p.code, Emit(b, n + |p.code| + 1))
  {
    hide Shortcut;
  }

  lemma EmitAssign(l: Expr, v: Expr, n: nat)
    ensures Emit(Assign(l, v), n) ==
            var p := Emit(l, n);
            if p.Failed? then p
            else if !Undoable(p.code, n) then Failed(NoLoad(p.code))
            else
              var q := Emit(v, n + |p.code|);
              if q.Failed? then q else Made(PairCode(E.Front(p.code), q.code, [SI(AccessTy(p.ty))]), p.ty)
  {
    hide PairCode;
  }

  lemma EmitNeg(x: Expr, n: nat)
    requires !x.Num?
    ensures Emit(Neg(x), n) ==
            var r := Emit(x, n + 2);
            if r.Failed? then r else Made(PairCode([IMM(TWO64 - 1)], r.code, [Bin(MUL)]), INT_TY)
  {
    hide PairCode;
  }

  lemma EmitAddrOf(x: Expr, n: nat)
    ensures Emit(AddrOf(x), n) ==
            var r := Emit(x, n);
            if r.Failed? then r
            else if !Undoable(r.code, n) then Failed(NoLoad(r.code))
            else Made(E.Front(r.code), PointerTo(r.ty))
  {}

  lemma EmitPostInc(dec: bool, x: Expr, n: nat)
    ensures Emit(PostInc(dec, x), n) ==
            var r := Emit(x, n);
            if r.Failed? then r else Bumped(r, n, dec, [PSH, IMM(IncBytes(r.ty)), Bin(if dec then ADD else SUB)])
  {
    hide Bumped;
  }
}
