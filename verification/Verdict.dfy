/** Which trees the compiler gets right, which it refuses and which it garbles, read off the tree. */
module Verdict {
  import opened Options
  import opened Words
  import opened Vm
  import opened Syntax
  import opened Compile
  import opened Parse
  import opened Trees
  import opened Endings
  import opened Tails
  import E = Encoding

  // ----- the code of a tree does not depend on where it stands, but for its jump targets -----

  /** An instruction without its jump target. */
  function Kind(i: Instr): Instr {
    match i
    case JMP(_) => JMP(0)
    case BZ(_) => BZ(0)
    case BNZ(_) => BNZ(0)
    case _ => i
  }

  ghost predicate Alike(c: seq<Instr>, d: seq<Instr>) {
    |c| == |d| && forall i :: 0 <= i < |c| ==> Kind(c[i]) == Kind(d[i])
  }

  lemma SameKind(i: Instr, j: Instr)
    requires Kind(i) == Kind(j)
    ensures i.Words() == j.Words() && E.Opcode(i) == E.Opcode(j) && E.OperandEight(i) == E.OperandEight(j)
    ensures i.LI? ==> i == j
    ensures i.LI? == j.LI?
  {}

  lemma AlikeCat(a: seq<Instr>, b: seq<Instr>, a': seq<Instr>, b': seq<Instr>)
    requires Alike(a, a') && Alike(b, b')
    ensures Alike(a + b, a' + b')
  {
    forall i | 0 <= i < |a + b| ensures Kind((a + b)[i]) == Kind((a' + b')[i]) {
      if i < |a| { assert Kind(a[i]) == Kind(a'[i]); } else { assert Kind(b[i - |a|]) == Kind(b'[i - |a|]); }
    }
  }

  lemma AlikeSelf(c: seq<Instr>)
    ensures Alike(c, c)
  {}

  lemma AlikeThen(a: seq<Instr>, a': seq<Instr>, b: seq<Instr>)
    requires Alike(a, a')
    ensures Alike(a + b, a' + b)
  {
    AlikeSelf(b);
    AlikeCat(a, b, a', b);
  }

  /** Codes that are alike pass the same tests. */
  lemma AlikeEnds(c: seq<Instr>, d: seq<Instr>, t: Ty)
    requires Alike(c, d)
    ensures E.EndsInLoad(c) == E.EndsInLoad(d) && E.LooksLikeLoad(c) == E.LooksLikeLoad(d)
    ensures E.Spoilt(c, t) == E.Spoilt(d, t) && NoLoad(c) == NoLoad(d)
  {
    if c != [] {
      SameKind(c[|c| - 1], d[|c| - 1]);
      if |c| > 1 { SameKind(c[|c| - 2], d[|c| - 2]); }
    }
  }

  lemma AlikeParts(c: seq<Instr>, d: seq<Instr>, t: Ty)
    requires Alike(c, d) && c != []
    ensures Alike(E.Front(c), E.Front(d)) && Alike(E.Retyped(c, t), E.Retyped(d, t))
  {
    AlikeEnds(c, d, t);
    var f, g := E.Front(c), E.Front(d);
    forall i | 0 <= i < |f| ensures Kind(f[i]) == Kind(g[i]) { assert f[i] == c[i] && g[i] == d[i]; }
    AlikeThen(f, g, [LI(t)]);
  }

  lemma AlikeBump(c: seq<Instr>, d: seq<Instr>, ty: Ty, dec: bool)
    requires Alike(c, d) && E.EndsInLoad(c) && E.EndsInLoad(d)
    ensures Alike(BumpTail(c, ty, dec), BumpTail(d, ty, dec))
  {
    AlikeParts(c, d, ty);
    SameKind(c[|c| - 1], d[|c| - 1]);
    AlikeThen(E.Front(c), E.Front(d), BumpTail(c, ty, dec)[|c| - 1..]);
  }

  lemma AlikePair(a: seq<Instr>, b: seq<Instr>, a': seq<Instr>, b': seq<Instr>, co: seq<Instr>)
    requires Alike(a, a') && Alike(b, b')
    ensures Alike(PairCode(a, b, co), PairCode(a', b', co))
  {
    AlikeThen(b, b', co);
    AlikeSelf([PSH]);
    AlikeCat([PSH], b + co, [PSH], b' + co);
    AlikeCat(a, [PSH] + (b + co), a', [PSH] + (b' + co));
  }

  lemma AlikeShort(lor: bool, n: nat, a: seq<Instr>, b: seq<Instr>, m: nat, a': seq<Instr>, b': seq<Instr>)
    requires Alike(a, a') && Alike(b, b')
    ensures Alike(ShortCode(lor, n, a, b), ShortCode(lor, m, a', b'))
  {
    var i, j := n + |a| + |b| + 1, m + |a'| + |b'| + 1;
    var p, q := [if lor then BNZ(i) else BZ(i)], [if lor then BNZ(j) else BZ(j)];
    AlikeCat(p, b, q, b');
    AlikeCat(a, p + b, a', q + b');
  }

  lemma AlikeCond(n: nat, c: seq<Instr>, a: seq<Instr>, b: seq<Instr>, m: nat, c': seq<Instr>, a': seq<Instr>,
                  b': seq<Instr>)
    requires Alike(c, c') && Alike(a, a') && Alike(b, b')
    ensures Alike(CondCode(n, c, a, b), CondCode(m, c', a', b'))
  {
    var i, j := n + |c| + |a| + 2, m + |c'| + |a'| + 2;
    var p, q, r, s := [BZ(i)], [JMP(i + |b|)], [BZ(j)], [JMP(j + |b'|)];
    AlikeCat(q, b, s, b');
    AlikeCat(a, q + b, a', s + b');
    AlikeCat(p, a + (q + b), r, a' + (s + b'));
    AlikeCat(c, p + (a + (q + b)), c', r + (a' + (s + b')));
  }

  ghost predicate Same(r: Made, q: Made) {
    match r
    case Failed(w) => q == Failed(w)
    case Made(c, t) => q.Made? && q.ty == t && Alike(c, q.code)
  }

  lemma SameUndo(x: Expr, n: nat, m: nat)
    requires Emit(x, n).Made? && Same(Emit(x, n), Emit(x, m))
    ensures var r, q := Emit(x, n), Emit(x, m);
            Undoable(r.code, n) == Undoable(q.code, m) && NoLoad(r.code) == NoLoad(q.code)
    ensures Undoable(Emit(x, n).code, n) <==> Ends(x, 0) == Ending(true, false)
  {
    hide Emit; hide Ends; hide Lands; hide E.EndsInLoad;
    var r, q := Emit(x, n), Emit(x, m);
    EndsAre(x, n, 0);
    EndsAre(x, m, 0);
    assert Undone(r.code, 0) == r.code && Undone(q.code, 0) == q.code;
    AlikeEnds(r.code, q.code, INT_TY);
  }

  lemma {:induction false} EmitMoved(e: Expr, n: nat, m: nat)
    ensures Same(Emit(e, n), Emit(e, m))
    decreases e, 1
  {
    hide Alike;
    match e
    case Cast(t, x) => EmitMoved(x, n, m); RecastSame(Emit(x, n), Emit(x, m), t);
    case Deref(x) => EmitMoved(x, n, m); LoadedSame(Emit(x, n), Emit(x, m));
    case AddrOf(x) => AddrOfMoved(x, n, m);
    case Not(x) => EmitMoved(x, n, m); ThenSame(Emit(x, n), Emit(x, m), [PSH, IMM(0), Bin(EQ)]);
    case BitNot(x) => EmitMoved(x, n, m); ThenSame(Emit(x, n), Emit(x, m), [PSH, IMM(TWO64 - 1), Bin(XOR)]);
    case Plus(x) => EmitMoved(x, n, m); ThenSame(Emit(x, n), Emit(x, m), []);
    case Neg(x) => if x.Num? { LeafMoved(e, n, m); } else { NegMoved(x, n, m); }
    case PreInc(dec, x) => EmitMoved(x, n, m); BumpedSame(x, n, m, dec, []);
    case PostInc(dec, x) =>
      EmitPostInc(dec, x, n); EmitPostInc(dec, x, m);
      EmitMoved(x, n, m);
      if Emit(x, n).Made? {
        BumpedSame(x, n, m, dec, [PSH, IMM(IncBytes(Emit(x, n).ty)), Bin(if dec then ADD else SUB)]);
      }
    case Assign(l, v) => AssignMoved(l, v, n, m);
    case Cond(c, a, b) => CondMoved(c, a, b, n, m);
    case Lor(a, b) => ShortMoved(e, a, b, n, m);
    case Lan(a, b) => ShortMoved(e, a, b, n, m);
    case Binary(op, a, b) => BinaryMoved(op, a, b, n, m);
    case Index(a, i) => IndexMoved(a, i, n, m);
    case _ => LeafMoved(e, n, m);
  }

  lemma LeafMoved(e: Expr, n: nat, m: nat)
    requires e.Num? || e.StrLit? || e.SizeOf? || e.Var? || (e.Neg? && e.e.Num?)
    ensures Same(Emit(e, n), Emit(e, m))
  {
    AlikeSelf(Emit(e, n).code);
  }

  lemma RecastSame(r: Made, q: Made, t: Ty)
    requires Same(r, q) && (r.Made? ==> r.code != [])
    ensures Same(Recast(r, t), Recast(q, t))
  {
    hide E.Spoilt; hide E.Retyped;
    if r.Made? {
      AlikeEnds(r.code, q.code, AccessTy(t));
      AlikeParts(r.code, q.code, AccessTy(t));
    }
  }

  lemma LoadedSame(r: Made, q: Made)
    requires Same(r, q)
    ensures Same(Loaded(r), Loaded(q))
  {
    if Loaded(r).Made? { AlikeThen(r.code, q.code, [LI(AccessTy(Loaded(r).ty))]); }
  }

  lemma ThenSame(r: Made, q: Made, c: seq<Instr>)
    requires Same(r, q)
    ensures Same(Then(r, c), Then(q, c))
  {
    if r.Made? { AlikeThen(r.code, q.code, c); }
  }

  lemma BumpedSame(x: Expr, n: nat, m: nat, dec: bool, c: seq<Instr>)
    requires Same(Emit(x, n), Emit(x, m))
    ensures Same(Bumped(Emit(x, n), n, dec, c), Bumped(Emit(x, m), m, dec, c))
  {
    hide Emit; hide Lands; hide NoLoad; hide BumpTail;
    var r, q := Emit(x, n), Emit(x, m);
    if r.Made? {
      SameUndo(x, n, m);
      if Undoable(r.code, n) {
        AlikeBump(r.code, q.code, r.ty, dec);
        AlikeThen(BumpTail(r.code, r.ty, dec), BumpTail(q.code, q.ty, dec), c);
      }
    }
  }

  lemma {:induction false} AddrOfMoved(x: Expr, n: nat, m: nat)
    ensures Same(Emit(AddrOf(x), n), Emit(AddrOf(x), m))
    decreases x, 2
  {
    hide Emit; hide Undoable; hide NoLoad;
    EmitAddrOf(x, n); EmitAddrOf(x, m);
    EmitMoved(x, n, m);
    if Emit(x, n).Made? {
      SameUndo(x, n, m);
      AlikeParts(Emit(x, n).code, Emit(x, m).code, INT_TY);
    }
  }

  lemma {:induction false} NegMoved(x: Expr, n: nat, m: nat)
    requires !x.Num?
    ensures Same(Emit(Neg(x), n), Emit(Neg(x), m))
    decreases x, 2
  {
    hide Emit; hide PairCode;
    EmitNeg(x, n); EmitNeg(x, m);
    EmitMoved(x, n + 2, m + 2);
    if Emit(x, n + 2).Made? {
      AlikeSelf([IMM(TWO64 - 1)]);
      AlikePair([IMM(TWO64 - 1)], Emit(x, n + 2).code, [IMM(TWO64 - 1)], Emit(x, m + 2).code, [Bin(MUL)]);
    }
  }

  lemma {:induction false} AssignMoved(l: Expr, v: Expr, n: nat, m: nat)
    ensures Same(Emit(Assign(l, v), n), Emit(Assign(l, v), m))
    decreases Assign(l, v), 0
  {
    hide Emit; hide PairCode; hide Undoable; hide NoLoad;
    EmitAssign(l, v, n); EmitAssign(l, v, m);
    EmitMoved(l, n, m);
    var p, p' := Emit(l, n), Emit(l, m);
    if p.Made? {
      SameUndo(l, n, m);
      AlikeParts(p.code, p'.code, INT_TY);
      EmitMoved(v, n + |p.code|, m + |p'.code|);
      var q, q' := Emit(v, n + |p.code|), Emit(v, m + |p'.code|);
      if q.Made? { AlikePair(E.Front(p.code), q.code, E.Front(p'.code), q'.code, [SI(AccessTy(p.ty))]); }
    }
  }

  lemma {:induction false} CondMoved(c: Expr, a: Expr, b: Expr, n: nat, m: nat)
    ensures Same(Emit(Cond(c, a, b), n), Emit(Cond(c, a, b), m))
    decreases Cond(c, a, b), 0
  {
    hide Emit; hide CondCode;
    EmitCond(c, a, b, n); EmitCond(c, a, b, m);
    EmitMoved(c, n, m);
    var p, p' := Emit(c, n), Emit(c, m);
    if p.Made? {
      EmitMoved(a, n + |p.code| + 1, m + |p'.code| + 1);
      var q, q' := Emit(a, n + |p.code| + 1), Emit(a, m + |p'.code| + 1);
      if q.Made? {
        var i, j := n + |p.code| + |q.code| + 2, m + |p'.code| + |q'.code| + 2;
        EmitMoved(b, i, j);
        if Emit(b, i).Made? { AlikeCond(n, p.code, q.code, Emit(b, i).code, m, p'.code, q'.code, Emit(b, j).code); }
      }
    }
  }

  lemma {:induction false} ShortMoved(e: Expr, a: Expr, b: Expr, n: nat, m: nat)
    requires e == Lor(a, b) || e == Lan(a, b)
    ensures Same(Emit(e, n), Emit(e, m))
    decreases e, 0
  {
    hide Emit; hide ShortCode;
    EmitShort(e, a, b, n); EmitShort(e, a, b, m);
    EmitMoved(a, n, m);
    var p, p' := Emit(a, n), Emit(a, m);
    if p.Made? {
      EmitMoved(b, n + |p.code| + 1, m + |p'.code| + 1);
      var q, q' := Emit(b, n + |p.code| + 1), Emit(b, m + |p'.code| + 1);
      if q.Made? { AlikeShort(e.Lor?, n, p.code, q.code, m, p'.code, q'.code); }
    }
  }

  lemma {:induction false} BinaryMoved(op: BinOp, a: Expr, b: Expr, n: nat, m: nat)
    ensures Same(Emit(Binary(op, a, b), n), Emit(Binary(op, a, b), m))
    decreases Binary(op, a, b), 0
  {
    hide Emit; hide PairCode; hide OpCode; hide BinaryTy;
    EmitBinary(op, a, b, n); EmitBinary(op, a, b, m);
    EmitMoved(a, n, m);
    var p, p' := Emit(a, n), Emit(a, m);
    if p.Made? {
      EmitMoved(b, n + |p.code| + 1, m + |p'.code| + 1);
      var q, q' := Emit(b, n + |p.code| + 1), Emit(b, m + |p'.code| + 1);
      if q.Made? { AlikePair(p.code, q.code, p'.code, q'.code, OpCode(op, p.ty, q.ty)); }
    }
  }

  lemma {:induction false} IndexMoved(a: Expr, i: Expr, n: nat, m: nat)
    ensures Same(Emit(Index(a, i), n), Emit(Index(a, i), m))
    decreases Index(a, i), 0
  {
    hide Emit; hide PairCode; hide ScaleCode;
    EmitIndex(a, i, n); EmitIndex(a, i, m);
    EmitMoved(a, n, m);
    var p, p' := Emit(a, n), Emit(a, m);
    if p.Made? {
      EmitMoved(i, n + |p.code| + 1, m + |p'.code| + 1);
      var q, q' := Emit(i, n + |p.code| + 1), Emit(i, m + |p'.code| + 1);
      if q.Made? && p.ty.ptr > 0 {
        var co := ScaleCode(p.ty) + [Bin(ADD)];
        AlikePair(p.code, q.code, p'.code, q'.code, co);
        AlikeThen(PairCode(p.code, q.code, co), PairCode(p'.code, q'.code, co), [LI(AccessTy(Indexed(p, q).ty))]);
      }
    }
  }

  // ----- the verdict -----

  /** The cast of `x` to `t` overwrites the last instruction of `x`, which is not a load. */
  predicate Overwrites(t: Ty, x: Expr) {
    Tail(x, 0).Some? && E.Opcode(Tail(x, 0).value) != E.TypeCode(AccessTy(t))
  }

  /** The tree ends in a load that no `||`, `&&` or `?:` jumps behind. */
  predicate HasLoad(x: Expr) { Ends(x, 0) == Ending(true, false) }

  /** No cast in the tree overwrites an opcode, and every load taken back is there and is no jump's target. */
  predicate Clean(e: Expr) {
    match e
    case Num(_) => true
    case StrLit(_) => true
    case SizeOf(_) => true
    case Var(_, _, _) => true
    case Cast(t, x) => Clean(x) && !Overwrites(t, x)
    case Deref(x) => Clean(x)
    case AddrOf(x) => Clean(x) && HasLoad(x)
    case Not(x) => Clean(x)
    case BitNot(x) => Clean(x)
    case Plus(x) => Clean(x)
    case Neg(x) => Clean(x)
    case PreInc(_, x) => Clean(x) && HasLoad(x)
    case PostInc(_, x) => Clean(x) && HasLoad(x)
    case Assign(l, r) => Clean(l) && HasLoad(l) && Clean(r)
    case Cond(c, a, b) => Clean(c) && Clean(a) && Clean(b)
    case Lor(a, b) => Clean(a) && Clean(b)
    case Lan(a, b) => Clean(a) && Clean(b)
    case Binary(_, a, b) => Clean(a) && Clean(b)
    case Index(a, i) => Clean(a) && Clean(i)
  }

  /** The compiler's test for a load passes: there is one, or it looks as if there were. */
  predicate PassesForLoad(x: Expr) { Ends(x, 0).load || Tail(x, 0).Some? }

  /** Every test for a load passes. */
  predicate Tested(e: Expr) {
    match e
    case Num(_) => true
    case StrLit(_) => true
    case SizeOf(_) => true
    case Var(_, _, _) => true
    case Cast(_, x) => Tested(x)
    case Deref(x) => Tested(x)
    case AddrOf(x) => Tested(x) && PassesForLoad(x)
    case Not(x) => Tested(x)
    case BitNot(x) => Tested(x)
    case Plus(x) => Tested(x)
    case Neg(x) => Tested(x)
    case PreInc(_, x) => Tested(x) && PassesForLoad(x)
    case PostInc(_, x) => Tested(x) && PassesForLoad(x)
    case Assign(l, r) => Tested(l) && PassesForLoad(l) && Tested(r)
    case Cond(c, a, b) => Tested(c) && Tested(a) && Tested(b)
    case Lor(a, b) => Tested(a) && Tested(b)
    case Lan(a, b) => Tested(a) && Tested(b)
    case Binary(_, a, b) => Tested(a) && Tested(b)
    case Index(a, i) => Tested(a) && Tested(i)
  }

  /** The compiler reports no error. */
  predicate Accepted(e: Expr) { TyOf(e).Some? && Tested(e) }

  /** What the tree says the compiler does. */
  ghost predicate Judged(e: Expr, r: Made) {
    if !Accepted(e) then r.Failed?
    else if Clean(e) then r.Made? && r.ty == TyOf(e).value
    else r == Failed(Garbled)
  }

  lemma UndoJudged(x: Expr, n: nat)
    requires Emit(x, n).Made?
    ensures Undoable(Emit(x, n).code, n) <==> HasLoad(x)
    ensures !HasLoad(x) ==> NoLoad(Emit(x, n).code) == if PassesForLoad(x) then Garbled else SyntaxError
    ensures HasLoad(x) ==> PassesForLoad(x)
  {
    hide Emit; hide Ends; hide Lands;
    EndsAre(x, n, 0);
    TailsAre(x, n, 0);
    assert Undone(Emit(x, n).code, 0) == Emit(x, n).code;
  }

  /** Every tree, wherever it is compiled: refused, garbled or compiled as the tree says. */
  lemma {:induction false} EmitJudged(e: Expr, n: nat)
    ensures Judged(e, Emit(e, n))
    decreases e, 1
  {
    match e
    case Cast(t, x) => CastVerdict(t, x, n);
    case Deref(x) => EmitJudged(x, n);
    case AddrOf(x) => UndoVerdict(e, x, n);
    case Not(x) => EmitJudged(x, n);
    case BitNot(x) => EmitJudged(x, n);
    case Plus(x) => EmitJudged(x, n);
    case Neg(x) => if !x.Num? { EmitJudged(x, n + 2); }
    case PreInc(dec, x) => UndoVerdict(e, x, n);
    case PostInc(dec, x) => UndoVerdict(e, x, n);
    case Assign(l, v) => AssignVerdict(l, v, n);
    case Cond(c, a, b) => CondVerdict(c, a, b, n);
    case Lor(a, b) => ShortVerdict(e, a, b, n);
    case Lan(a, b) => ShortVerdict(e, a, b, n);
    case Binary(op, a, b) => BinaryVerdict(op, a, b, n);
    case Index(a, i) => IndexVerdict(a, i, n);
    case _ =>
  }

  lemma {:induction false} CastVerdict(t: Ty, x: Expr, n: nat)
    ensures Judged(Cast(t, x), Emit(Cast(t, x), n))
    decreases x, 2
  {
    hide E.Spoilt; hide E.Retyped;
    EmitJudged(x, n);
    if Emit(x, n).Made? { CastJudged(t, x, n); }
  }

  lemma CastJudged(t: Ty, x: Expr, n: nat)
    requires Emit(x, n).Made?
    ensures E.Spoilt(Emit(x, n).code, AccessTy(t)) <==> Overwrites(t, x)
  {
    hide Emit; hide E.Opcode; hide E.TypeCode; hide E.OperandEight;
    TailsAre(x, n, 0);
    assert Undone(Emit(x, n).code, 0) == Emit(x, n).code;
  }

  lemma {:induction false} UndoVerdict(e: Expr, x: Expr, n: nat)
    requires e == AddrOf(x) || ((e.PreInc? || e.PostInc?) && e.e == x)
    ensures Judged(e, Emit(e, n))
    decreases x, 2
  {
    hide Undoable; hide NoLoad; hide HasLoad; hide PassesForLoad; hide BumpTail;
    EmitJudged(x, n);
    if e.PostInc? { EmitPostInc(e.dec, x, n); }
    if Emit(x, n).Made? { UndoJudged(x, n); }
  }

  lemma {:induction false} AssignVerdict(l: Expr, v: Expr, n: nat)
    ensures Judged(Assign(l, v), Emit(Assign(l, v), n))
    decreases Assign(l, v), 0
  {
    hide Emit; hide Undoable; hide NoLoad; hide HasLoad; hide PassesForLoad; hide PairCode;
    EmitAssign(l, v, n);
    EmitJudged(l, n);
    var p := Emit(l, n);
    if p.Made? {
      UndoJudged(l, n);
      EmitJudged(v, n + |p.code|);
    }
  }

  lemma {:induction false} CondVerdict(c: Expr, a: Expr, b: Expr, n: nat)
    ensures Judged(Cond(c, a, b), Emit(Cond(c, a, b), n))
    decreases Cond(c, a, b), 0
  {
    hide Emit; hide CondCode;
    EmitCond(c, a, b, n);
    EmitJudged(c, n);
    var p := Emit(c, n);
    if p.Made? {
      EmitJudged(a, n + |p.code| + 1);
      var q := Emit(a, n + |p.code| + 1);
      if q.Made? { EmitJudged(b, n + |p.code| + |q.code| + 2); }
    }
  }

  lemma {:induction false} ShortVerdict(e: Expr, a: Expr, b: Expr, n: nat)
    requires e == Lor(a, b) || e == Lan(a, b)
    ensures Judged(e, Emit(e, n))
    decreases e, 0
  {
    hide Emit; hide ShortCode;
    EmitShort(e, a, b, n);
    EmitJudged(a, n);
    if Emit(a, n).Made? { EmitJudged(b, n + |Emit(a, n).code| + 1); }
  }

  lemma {:induction false} BinaryVerdict(op: BinOp, a: Expr, b: Expr, n: nat)
    ensures Judged(Binary(op, a, b), Emit(Binary(op, a, b), n))
    decreases Binary(op, a, b), 0
  {
    hide Emit; hide PairCode; hide OpCode; hide BinaryTy; hide IsCharPtr; hide Tested; hide Clean; hide TyOf;
    EmitBinary(op, a, b, n);
    EmitJudged(a, n);
    if Emit(a, n).Made? && TyOf(b).Some? { MatchTypes(op, Emit(a, n).ty, TyOf(b).value); }
    if Emit(a, n).Made? { EmitJudged(b, n + |Emit(a, n).code| + 1); }
    BinaryParts(op, a, b);
  }

  lemma BinaryParts(op: BinOp, a: Expr, b: Expr)
    ensures var e := Binary(op, a, b);
            && (Tested(e) <==> Tested(a) && Tested(b)) && (Clean(e) <==> Clean(a) && Clean(b))
            && TyOf(e) == if TyOf(a).None? || TyOf(b).None? then None else BinaryTy(op, TyOf(a).value, TyOf(b).value)
  {}

  lemma MatchTypes(op: BinOp, t: Ty, u: Ty)
    ensures op.Match? && !IsCharPtr(t) ==> BinaryTy(op, t, u).None?
  {}

  lemma {:induction false} IndexVerdict(a: Expr, i: Expr, n: nat)
    ensures Judged(Index(a, i), Emit(Index(a, i), n))
    decreases Index(a, i), 0
  {
    hide Emit; hide PairCode; hide ScaleCode;
    EmitIndex(a, i, n);
    EmitJudged(a, n);
    if Emit(a, n).Made? { EmitJudged(i, n + |Emit(a, n).code| + 1); }
  }
}
