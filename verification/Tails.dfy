/** The last instruction of the code of a tree and the operand before it, read off the tree: what the
    compiler's test on the last two words sees. */
module Tails {
  import opened Options
  import opened Words
  import opened Vm
  import opened Syntax
  import opened Compile
  import opened Parse
  import opened Trees
  import opened Endings
  import E = Encoding

  /** The type the compiler gives a tree; it does not ask for an lvalue. */
  function TyOf(e: Expr): Option<Ty> {
    match e
    case Num(_) => Some(INT_TY)
    case StrLit(_) => Some(CHAR_PTR)
    case SizeOf(_) => Some(INT_TY)
    case Var(_, ty, isArray) => Some(if isArray then ty.(ptr := 1) else ty)
    case Cast(t, x) => if TyOf(x).None? then None else Some(t)
    case Deref(x) => Pointed(TyOf(x))
    case AddrOf(x) => var t := TyOf(x); if t.None? then None else Some(PointerTo(t.value))
    case Not(x) => if TyOf(x).None? then None else Some(INT_TY)
    case BitNot(x) => if TyOf(x).None? then None else Some(INT_TY)
    case Plus(x) => if TyOf(x).None? then None else Some(INT_TY)
    case Neg(x) => if TyOf(x).None? then None else Some(INT_TY)
    case PreInc(_, x) => TyOf(x)
    case PostInc(_, x) => TyOf(x)
    case Assign(l, r) => if TyOf(r).None? then None else TyOf(l)
    case Cond(c, a, b) => if TyOf(c).None? || TyOf(a).None? then None else TyOf(b)
    case Lor(a, b) => if TyOf(a).None? || TyOf(b).None? then None else Some(INT_TY)
    case Lan(a, b) => if TyOf(a).None? || TyOf(b).None? then None else Some(INT_TY)
    case Binary(op, a, b) =>
      var t, u := TyOf(a), TyOf(b); if t.None? || u.None? then None else BinaryTy(op, t.value, u.value)
    case Index(a, i) => if TyOf(i).None? then None else Pointed(TyOf(a))
  }

  function Pointed(t: Option<Ty>): Option<Ty> {
    if t.None? || t.value.ptr == 0 then None else Some(t.value.(ptr := t.value.ptr - 1))
  }

  function TypeAt(e: Expr): Ty { if TyOf(e).Some? then TyOf(e).value else INT_TY }

  /** A load or store at this type has the opcode of a load as operand. */
  predicate IsUchar(t: Ty) { AccessTy(t) == Ty(CHAR, true, 0) }

  /** The operand of the last instruction, after the last `k` loads have been taken back, is the opcode of a
      load, 8. */
  predicate LastEight(e: Expr, k: nat) {
    match e
    case Num(v) => v == 8
    case StrLit(a) => a == 8
    case SizeOf(t) => SizeOfTy(t) == 8
    case Var(a, ty, isArray) => if k == 0 && !isArray then IsUchar(ty) else a == 8
    case Cast(t, x) => if k == 0 && Ends(x, 0).load then IsUchar(t) else LastEight(x, k)
    case Plus(x) => LastEight(x, k)
    case AddrOf(x) => LastEight(x, k + 1)
    case Deref(x) => if k == 0 then IsUchar(TypeAt(e)) else LastEight(x, k - 1)
    case Neg(x) => x.Num? && Wrap(-(x.v as int)) == 8
    case PreInc(_, x) => IsUchar(TypeAt(x))
    case Assign(l, _) => IsUchar(TypeAt(l))
    case Cond(_, _, b) => LastEight(b, 0)
    case Lor(_, b) => LastEight(b, 0)
    case Lan(_, b) => LastEight(b, 0)
    case Index(_, _) => k == 0 && IsUchar(TypeAt(e))
    case _ => false
  }

  /** The operator of one word that ends the code behind such an operand: it passes for the type of a load. */
  function Tail(e: Expr, k: nat): Option<Instr> {
    match e
    case Cast(_, x) => Tail(x, k)
    case Plus(x) => Tail(x, k)
    case AddrOf(x) => Tail(x, k + 1)
    case Deref(x) => if k == 0 then None else Tail(x, k - 1)
    case Neg(x) => if !x.Num? && LastEight(x, 0) then Some(Bin(MUL)) else None
    case PostInc(dec, x) => if IncBytes(TypeAt(x)) == 8 then Some(Bin(if dec then ADD else SUB)) else None
    case Binary(op, a, b) => OpTail(OpCode(op, TypeAt(a), TypeAt(b)), LastEight(b, 0))
    case Index(a, i) => if k == 1 then OpTail(ScaleCode(TypeAt(a)) + [Bin(ADD)], LastEight(i, 0)) else None
    case Cond(_, _, b) => Tail(b, 0)
    case Lor(_, b) => Tail(b, 0)
    case Lan(_, b) => Tail(b, 0)
    case _ => None
  }

  /** The same for an operator, whose right operand ends in `eight`. */
  function OpTail(co: seq<Instr>, eight: bool): Option<Instr> {
    if co != [] && (if |co| == 1 then eight else E.OperandEight(co[|co| - 2])) then Some(co[|co| - 1]) else None
  }

  // ----- types -----

  /** Code is made at the type of the tree. */
  lemma {:induction false} EmitTy(e: Expr, n: nat)
    requires Emit(e, n).Made?
    ensures TyOf(e) == Some(Emit(e, n).ty)
    decreases e, 1
  {
    hide Undoable; hide NoLoad; hide BumpTail; hide E.Spoilt; hide E.Retyped; hide BinaryTy; hide IsCharPtr;
    match e
    case Cast(_, x) => EmitTy(x, n);
    case Deref(x) => EmitTy(x, n);
    case AddrOf(x) => EmitTy(x, n);
    case Not(x) => EmitTy(x, n);
    case BitNot(x) => EmitTy(x, n);
    case Plus(x) => EmitTy(x, n);
    case Neg(x) => if x.Num? { EmitTy(x, n); } else { EmitTy(x, n + 2); }
    case PreInc(_, x) => EmitTy(x, n);
    case PostInc(dec, x) => EmitPostInc(dec, x, n); EmitTy(x, n);
    case Assign(l, v) => AssignTy(l, v, n);
    case Cond(c, a, b) => CondTy(c, a, b, n);
    case Lor(a, b) => ShortTy(e, a, b, n);
    case Lan(a, b) => ShortTy(e, a, b, n);
    case Binary(op, a, b) => BinaryTyped(op, a, b, n);
    case Index(a, i) => IndexTy(a, i, n);
    case _ =>
  }

  lemma {:induction false} AssignTy(l: Expr, v: Expr, n: nat)
    requires Emit(Assign(l, v), n).Made?
    ensures TyOf(Assign(l, v)) == Some(Emit(Assign(l, v), n).ty)
    decreases Assign(l, v), 0
  {
    hide Emit; hide PairCode; hide Undoable;
    EmitAssign(l, v, n);
    EmitTy(l, n);
    EmitTy(v, n + |Emit(l, n).code|);
  }

  lemma {:induction false} BinaryTyped(op: BinOp, a: Expr, b: Expr, n: nat)
    requires Emit(Binary(op, a, b), n).Made?
    ensures TyOf(Binary(op, a, b)) == Some(Emit(Binary(op, a, b), n).ty)
    decreases Binary(op, a, b), 0
  {
    hide Emit; hide PairCode; hide BinaryTy; hide OpCode; hide TyOf; hide IsCharPtr;
    EmitBinary(op, a, b, n);
    EmitTy(a, n);
    EmitTy(b, n + |Emit(a, n).code| + 1);
    BinaryTyOf(op, a, b);
  }

  lemma BinaryTyOf(op: BinOp, a: Expr, b: Expr)
    requires TyOf(a).Some? && TyOf(b).Some?
    ensures TyOf(Binary(op, a, b)) == BinaryTy(op, TyOf(a).value, TyOf(b).value)
  {
    hide BinaryTy;
  }

  lemma {:induction false} IndexTy(a: Expr, i: Expr, n: nat)
    requires Emit(Index(a, i), n).Made?
    ensures TyOf(Index(a, i)) == Some(Emit(Index(a, i), n).ty)
    decreases Index(a, i), 0
  {
    hide Emit; hide PairCode; hide ScaleCode;
    EmitIndex(a, i, n);
    EmitTy(a, n);
    EmitTy(i, n + |Emit(a, n).code| + 1);
  }

  lemma {:induction false} CondTy(c: Expr, a: Expr, b: Expr, n: nat)
    requires Emit(Cond(c, a, b), n).Made?
    ensures TyOf(Cond(c, a, b)) == Some(Emit(Cond(c, a, b), n).ty)
    decreases Cond(c, a, b), 0
  {
    hide Emit; hide CondCode;
    EmitCond(c, a, b, n);
    EmitTy(c, n);
    EmitTy(a, n + |Emit(c, n).code| + 1);
    EmitTy(b, n + |Emit(c, n).code| + |Emit(a, n + |Emit(c, n).code| + 1).code| + 2);
  }

  lemma {:induction false} ShortTy(e: Expr, a: Expr, b: Expr, n: nat)
    requires (e == Lor(a, b) || e == Lan(a, b)) && Emit(e, n).Made?
    ensures TyOf(e) == Some(Emit(e, n).ty)
    decreases e, 0
  {
    hide Emit; hide ShortCode;
    EmitShort(e, a, b, n);
    EmitTy(a, n);
    EmitTy(b, n + |Emit(a, n).code| + 1);
  }

  // ----- the end of the code -----

  ghost predicate TailLike(c: seq<Instr>, eight: bool, m: Option<Instr>) {
    && c != [] && E.OperandEight(c[|c| - 1]) == eight && E.LooksLikeLoad(c) == m.Some?
    && (m.Some? ==> c[|c| - 1] == m.value)
  }

  /** An instruction of two words behind code. */
  lemma TwoWords(a: seq<Instr>, i: Instr)
    requires i.Words() == 2
    ensures TailLike(a + [i], E.OperandEight(i), None)
  {}

  /** An operator behind code that ends like that. */
  lemma OneWord(a: seq<Instr>, co: seq<Instr>, eight: bool, m: Option<Instr>)
    requires TailLike(a, eight, m) && co != [] && co[|co| - 1].Words() == 1
    ensures TailLike(a + co, false, OpTail(co, eight))
  {
    var c := a + co;
    assert c[|c| - 1] == co[|co| - 1];
    assert c[|c| - 2] == if |co| == 1 then a[|a| - 1] else co[|co| - 2];
  }

  lemma OnePair(ca: seq<Instr>, cb: seq<Instr>, co: seq<Instr>, eight: bool, m: Option<Instr>)
    requires TailLike(cb, eight, m) && co != [] && co[|co| - 1].Words() == 1
    ensures TailLike(PairCode(ca, cb, co), false, OpTail(co, eight))
  {
    OneWord(cb, co, eight, m);
    TailBehind(ca + [PSH], cb + co, false, OpTail(co, eight));
    assert PairCode(ca, cb, co) == ca + [PSH] + (cb + co);
  }

  /** Code that starts with a constant ends the same behind anything. */
  lemma TailBehind(a: seq<Instr>, b: seq<Instr>, eight: bool, m: Option<Instr>)
    requires TailLike(b, eight, m) && (|b| == 1 ==> b[0].Words() == 2)
    ensures TailLike(a + b, eight, m)
  {
    var c := a + b;
    assert c[|c| - 1] == b[|b| - 1];
    if |b| > 1 { assert c[|c| - 2] == b[|b| - 2]; }
  }

  lemma OpLast(op: BinOp, t: Ty, u: Ty)
    requires BinaryTy(op, t, u).Some?
    ensures var co := OpCode(op, t, u); co != [] && co[|co| - 1].Words() == 1
  {}

  /** After taking back `k` loads that can be taken back, the code ends as the tree says. */
  lemma {:induction false} TailsAre(e: Expr, n: nat, k: nat)
    requires Emit(e, n).Made? && CanUndo(e, k)
    ensures k < |Emit(e, n).code| && TailLike(Undone(Emit(e, n).code, k), LastEight(e, k), Tail(e, k))
    decreases e, 1
  {
    hide Emit; hide CanUndo; hide TailLike;
    match e
    case Cast(t, x) => UndoSame(e, x, k); CastTail(t, x, n, k);
    case Plus(x) => UndoSame(e, x, k); PlusTail(x, n, k);
    case AddrOf(x) => AddrOfTail(x, n, k);
    case Deref(x) => DerefTail(x, n, k);
    case Var(_, _, _) => VarTail(e, n, k);
    case Index(a, i) => IndexTail(a, i, n, k);
    case Cond(c, a, b) => UndoNone(e, k); CondTail(c, a, b, n);
    case Lor(a, b) => UndoNone(e, k); ShortTail(e, a, b, n);
    case Lan(a, b) => UndoNone(e, k); ShortTail(e, a, b, n);
    case Neg(x) => UndoNone(e, k); NegTail(x, n);
    case PreInc(dec, x) => UndoNone(e, k); BumpTails(e, x, n);
    case PostInc(dec, x) => UndoNone(e, k); BumpTails(e, x, n);
    case Assign(l, v) => UndoNone(e, k); AssignTail(l, v, n);
    case Binary(op, a, b) => UndoNone(e, k); BinaryTail(op, a, b, n);
    case _ => UndoNone(e, k); PlainTail(e, n);
  }

  lemma {:induction false} CastTail(t: Ty, x: Expr, n: nat, k: nat)
    requires Emit(Cast(t, x), n).Made? && CanUndo(x, k)
    ensures var e := Cast(t, x);
            k < |Emit(e, n).code| && TailLike(Undone(Emit(e, n).code, k), LastEight(e, k), Tail(x, k))
    decreases x, 2
  {
    hide Ends; hide E.Spoilt; hide Tail;
    TailsAre(x, n, k);
    EndsAre(x, n, 0);
    var a, c := Emit(x, n).code, Emit(Cast(t, x), n).code;
    assert Undone(c, 0) == c && Undone(a, 0) == a;
    if k > 0 { assert Undone(c, k) == Undone(a, k); }
    else if E.EndsInLoad(a) { TwoWords(E.Front(a), LI(AccessTy(t))); LoadHasNoTail(a); }
  }

  lemma LoadHasNoTail(a: seq<Instr>)
    requires E.EndsInLoad(a)
    ensures !E.LooksLikeLoad(a)
  {}

  lemma {:induction false} PlusTail(x: Expr, n: nat, k: nat)
    requires Emit(Plus(x), n).Made? && CanUndo(x, k)
    ensures k < |Emit(Plus(x), n).code| && TailLike(Undone(Emit(Plus(x), n).code, k), LastEight(x, k), Tail(x, k))
    decreases x, 2
  {
    hide Tail; hide LastEight;
    TailsAre(x, n, k);
    assert Emit(Plus(x), n).code == Emit(x, n).code;
  }

  lemma {:induction false} AddrOfTail(x: Expr, n: nat, k: nat)
    requires Emit(AddrOf(x), n).Made? && CanUndo(AddrOf(x), k)
    ensures var c := Emit(AddrOf(x), n).code;
            k < |c| && TailLike(Undone(c, k), LastEight(x, k + 1), Tail(x, k + 1))
    decreases x, 2
  {
    hide Ends; hide Emit; hide Lands; hide Tail; hide LastEight;
    EmitAddrOf(x, n);
    var a := Emit(x, n).code;
    EndsAre(x, n, 0);
    assert Undone(a, 0) == a;
    assert Ends(x, 0) == Ending(true, false);
    UndoMore(x, k);
    TailsAre(x, n, k + 1);
    assert Undone(E.Front(a), k) == Undone(a, k + 1);
  }

  lemma {:induction false} DerefTail(x: Expr, n: nat, k: nat)
    requires Emit(Deref(x), n).Made? && CanUndo(Deref(x), k)
    ensures var c := Emit(Deref(x), n).code;
            k < |c| && TailLike(Undone(c, k), LastEight(Deref(x), k), Tail(Deref(x), k))
    decreases x, 2
  {
    hide Emit; hide TyOf; hide TailLike; hide CanUndo;
    EmitDeref(x, n);
    var a, c := Emit(x, n).code, Emit(Deref(x), n).code;
    if k == 0 {
      EmitTy(Deref(x), n);
      hide Tail;
      TwoWords(a, c[|c| - 1]);
      assert c == a + [c[|c| - 1]] && Undone(c, 0) == c;
      DerefNone(x);
    } else {
      UndoLess(x, k);
      TailsAre(x, n, k - 1);
      assert Undone(c, k) == Undone(a, k - 1);
    }
  }

  lemma EmitDeref(x: Expr, n: nat)
    requires Emit(Deref(x), n).Made?
    ensures Emit(x, n).Made? && Emit(Deref(x), n).code == Emit(x, n).code + [LI(AccessTy(Emit(Deref(x), n).ty))]
  {}

  lemma DerefNone(x: Expr)
    ensures Tail(Deref(x), 0) == None
  {}

  lemma VarTail(e: Expr, n: nat, k: nat)
    requires e.Var? && Emit(e, n).Made? && CanUndo(e, k)
    ensures var c := Emit(e, n).code; k < |c| && TailLike(Undone(c, k), LastEight(e, k), Tail(e, k))
  {
    if k > 0 { UndoAt(e, k, 0); }
    if k > 1 { UndoAt(e, k, 1); }
  }

  lemma {:induction false} IndexTail(a: Expr, i: Expr, n: nat, k: nat)
    requires Emit(Index(a, i), n).Made? && CanUndo(Index(a, i), k)
    ensures var e := Index(a, i);
            k < |Emit(e, n).code| && TailLike(Undone(Emit(e, n).code, k), LastEight(e, k), Tail(e, k))
    decreases Index(a, i), 0
  {
    hide Emit; hide PairCode; hide ScaleCode; hide TailLike; hide OpTail; hide TyOf;
    EmitIndex(a, i, n);
    if k > 1 { UndoAt(Index(a, i), k, 1); }
    var p := Emit(a, n);
    var q := Emit(i, n + |p.code| + 1);
    EmitTy(a, n);
    EmitTy(Index(a, i), n);
    var co := ScaleCode(p.ty) + [Bin(ADD)];
    var pc, c := PairCode(p.code, q.code, co), Emit(Index(a, i), n).code;
    assert c == pc + [c[|c| - 1]] && Undone(c, 0) == c && Undone(c, 1) == pc;
    TwoWords(pc, c[|c| - 1]);
    TailsAre(i, n + |p.code| + 1, 0);
    assert Undone(q.code, 0) == q.code;
    OnePair(p.code, q.code, co, LastEight(i, 0), Tail(i, 0));
  }

  lemma {:induction false} CondTail(c: Expr, a: Expr, b: Expr, n: nat)
    requires Emit(Cond(c, a, b), n).Made?
    ensures var k := Emit(Cond(c, a, b), n).code; 0 < |k| && TailLike(Undone(k, 0), LastEight(b, 0), Tail(b, 0))
    decreases b, 2
  {
    hide Emit; hide Tail; hide LastEight; hide TailLike;
    EmitCond(c, a, b, n);
    var p := Emit(c, n);
    var q := Emit(a, n + |p.code| + 1);
    var r := Emit(b, n + |p.code| + |q.code| + 2);
    TailsAre(b, n + |p.code| + |q.code| + 2, 0);
    var k, at := Emit(Cond(c, a, b), n).code, |p.code| + 2 + |q.code|;
    assert Undone(k, 0) == k && Undone(r.code, 0) == r.code && k == k[..at] + r.code;
    TailBehind(k[..at], r.code, LastEight(b, 0), Tail(b, 0));
  }

  lemma {:induction false} ShortTail(e: Expr, a: Expr, b: Expr, n: nat)
    requires (e == Lor(a, b) || e == Lan(a, b)) && Emit(e, n).Made?
    ensures var k := Emit(e, n).code; 0 < |k| && TailLike(Undone(k, 0), LastEight(b, 0), Tail(b, 0))
    decreases b, 2
  {
    hide Emit; hide Tail; hide LastEight; hide TailLike;
    EmitShort(e, a, b, n);
    var p := Emit(a, n);
    var q := Emit(b, n + |p.code| + 1);
    TailsAre(b, n + |p.code| + 1, 0);
    var k, at := Emit(e, n).code, |p.code| + 1;
    assert Undone(k, 0) == k && Undone(q.code, 0) == q.code && k == k[..at] + q.code;
    TailBehind(k[..at], q.code, LastEight(b, 0), Tail(b, 0));
  }

  lemma {:induction false} NegTail(x: Expr, n: nat)
    requires Emit(Neg(x), n).Made?
    ensures TailLike(Undone(Emit(Neg(x), n).code, 0), LastEight(Neg(x), 0), Tail(Neg(x), 0))
    decreases x, 2
  {
    var c := Emit(Neg(x), n).code;
    assert Undone(c, 0) == c;
    if !x.Num? {
      hide Emit; hide PairCode; hide TailLike;
      EmitNeg(x, n);
      var q := Emit(x, n + 2).code;
      TailsAre(x, n + 2, 0);
      assert Undone(q, 0) == q;
      OnePair([IMM(TWO64 - 1)], q, [Bin(MUL)], LastEight(x, 0), Tail(x, 0));
    }
  }

  lemma BumpTails(e: Expr, x: Expr, n: nat)
    requires (e.PreInc? || e.PostInc?) && e.e == x && Emit(e, n).Made?
    ensures TailLike(Undone(Emit(e, n).code, 0), LastEight(e, 0), Tail(e, 0))
  {
    hide Emit; hide TyOf; hide Undoable; hide IncBytes; hide TailLike; hide BumpTail;
    EmitBumped(e, x, n);
    var r := Emit(x, n);
    EmitTy(x, n);
    var c := Emit(e, n).code;
    assert Undone(c, 0) == c;
    BumpEnd(r.code, r.ty, e.dec);
    if e.PostInc? {
      var co := [PSH, IMM(IncBytes(r.ty)), Bin(if e.dec then ADD else SUB)];
      OneWord(BumpTail(r.code, r.ty, e.dec), co, IsUchar(r.ty), None);
      assert E.OperandEight(co[1]) <==> IncBytes(r.ty) == 8;
    }
  }

  lemma BumpEnd(c: seq<Instr>, ty: Ty, dec: bool)
    requires E.EndsInLoad(c)
    ensures TailLike(BumpTail(c, ty, dec), IsUchar(ty), None)
  {
    var b := BumpTail(c, ty, dec);
    TwoWords(b[..|b| - 1], SI(AccessTy(ty)));
    assert b == b[..|b| - 1] + [SI(AccessTy(ty))];
  }

  lemma EmitBumped(e: Expr, x: Expr, n: nat)
    requires (e.PreInc? || e.PostInc?) && e.e == x && Emit(e, n).Made?
    ensures var r := Emit(x, n);
            && r.Made? && E.EndsInLoad(r.code)
            && Emit(e, n).code == BumpTail(r.code, r.ty, e.dec) +
               if e.PreInc? then [] else [PSH, IMM(IncBytes(r.ty)), Bin(if e.dec then ADD else SUB)]
  {
    if e.PostInc? { EmitPostInc(e.dec, x, n); }
  }

  lemma AssignTail(l: Expr, v: Expr, n: nat)
    requires Emit(Assign(l, v), n).Made?
    ensures TailLike(Undone(Emit(Assign(l, v), n).code, 0), LastEight(Assign(l, v), 0), Tail(Assign(l, v), 0))
  {
    hide Emit; hide TyOf; hide Undoable;
    EmitAssign(l, v, n);
    EmitTy(l, n);
    var c := Emit(Assign(l, v), n).code;
    assert Undone(c, 0) == c && c == c[..|c| - 1] + [c[|c| - 1]] && c[|c| - 1] == SI(AccessTy(Emit(l, n).ty));
    TwoWords(c[..|c| - 1], c[|c| - 1]);
  }

  lemma {:induction false} BinaryTail(op: BinOp, a: Expr, b: Expr, n: nat)
    requires Emit(Binary(op, a, b), n).Made?
    ensures TailLike(Undone(Emit(Binary(op, a, b), n).code, 0), false, Tail(Binary(op, a, b), 0))
    decreases b, 2
  {
    hide Emit; hide PairCode; hide OpCode; hide BinaryTy; hide TyOf; hide TailLike; hide OpTail;
    EmitBinary(op, a, b, n);
    var p := Emit(a, n);
    var q := Emit(b, n + |p.code| + 1);
    EmitTy(a, n);
    EmitTy(b, n + |p.code| + 1);
    OpLast(op, p.ty, q.ty);
    TailsAre(b, n + |p.code| + 1, 0);
    var c := Emit(Binary(op, a, b), n).code;
    assert Undone(q.code, 0) == q.code && Undone(c, 0) == c;
    OnePair(p.code, q.code, OpCode(op, p.ty, q.ty), LastEight(b, 0), Tail(b, 0));
  }

  /** Constants, and `!` and `~`, which end in a constant and an operator. */
  lemma PlainTail(e: Expr, n: nat)
    requires Emit(e, n).Made? && (e.Num? || e.StrLit? || e.SizeOf? || e.Not? || e.BitNot?)
    ensures TailLike(Undone(Emit(e, n).code, 0), LastEight(e, 0), Tail(e, 0))
  {
    var c := Emit(e, n).code;
    assert Undone(c, 0) == c;
  }
}
