/** How the code of a tree ends, read off the tree: in a load or not, and with a jump going behind it
    or not. */
module Endings {
  import opened Words
  import opened Vm
  import opened Syntax
  import opened Compile
  import opened Parse
  import opened Trees
  import opened TreeShape
  import E = Encoding

  datatype Ending = Ending(load: bool, jump: bool)

  /** The end of the code of `e` after its last `k` loads have been taken back. */
  function Ends(e: Expr, k: nat): Ending {
    match e
    case Cast(_, x) => Ends(x, k)
    case Plus(x) => Ends(x, k)
    case AddrOf(x) => Ends(x, k + 1)
    case Deref(x) => if k == 0 then Ending(true, false) else Ends(x, k - 1)
    case Var(_, _, isArray) => Ending(k == 0 && !isArray, false)
    case Index(_, _) => Ending(k == 0, false)
    case Cond(_, _, b) => Ending(Ends(b, 0).load, true)
    case Lor(_, b) => Ending(Ends(b, 0).load, true)
    case Lan(_, b) => Ending(Ends(b, 0).load, true)
    case _ => Ending(false, false)
  }

  function Undone(c: seq<Instr>, k: nat): seq<Instr>
    requires k <= |c|
  { c[..|c| - k] }

  /** The last `k` loads can be taken back, one after the other. */
  ghost predicate CanUndo(e: Expr, k: nat) { forall j: nat :: j < k ==> Ends(e, j) == Ending(true, false) }

  lemma UndoAt(e: Expr, k: nat, j: nat)
    requires CanUndo(e, k) && j < k
    ensures Ends(e, j) == Ending(true, false)
  {}

  lemma UndoSame(e: Expr, x: Expr, k: nat)
    requires CanUndo(e, k) && (e == Plus(x) || (e.Cast? && e.e == x))
    ensures CanUndo(x, k)
  {
    forall j: nat | j < k ensures Ends(x, j) == Ending(true, false) { UndoAt(e, k, j); }
  }

  lemma UndoMore(x: Expr, k: nat)
    requires CanUndo(AddrOf(x), k) && Ends(x, 0) == Ending(true, false)
    ensures CanUndo(x, k + 1)
  {
    forall j: nat | j < k + 1 ensures Ends(x, j) == Ending(true, false) { if j > 0 { UndoAt(AddrOf(x), k, j - 1); } }
  }

  lemma UndoLess(x: Expr, k: nat)
    requires CanUndo(Deref(x), k) && k > 0
    ensures CanUndo(x, k - 1)
  {
    forall j: nat | j < k - 1 ensures Ends(x, j) == Ending(true, false) { UndoAt(Deref(x), k, j + 1); }
  }

  lemma UndoNone(e: Expr, k: nat)
    requires CanUndo(e, k) && Ends(e, 0) != Ending(true, false)
    ensures k == 0
  {}

  /** Code `c` at index `n` ends like that. */
  ghost predicate EndsLike(c: seq<Instr>, n: nat, x: Ending) {
    E.EndsInLoad(c) == x.load && Lands(c, n) == x.jump
  }

  // ----- where jumps go -----

  lemma WithinCat(a: seq<Instr>, b: seq<Instr>, n: nat)
    requires Within(a, n) && Within(b, n + |a|)
    ensures Within(a + b, n)
  {
    var c := a + b;
    forall i | 0 <= i < |c| && c[i].IsJump() ensures n + i < c[i].Target() <= n + |c| {
      if i >= |a| { assert c[i] == b[i - |a|]; } else { assert c[i] == a[i]; }
    }
  }

  ghost predicate NoJumps(c: seq<Instr>) { forall i :: 0 <= i < |c| ==> !c[i].IsJump() }

  /** Behind code, something without jumps that does not end in a load. */
  lemma PlainEnd(a: seq<Instr>, b: seq<Instr>, n: nat)
    requires Within(a, n) && NoJumps(b) && b != []
    ensures !Lands(a + b, n) && E.EndsInLoad(a + b) == b[|b| - 1].LI?
  {
    var c := a + b;
    forall i | 0 <= i < |c| && c[i].IsJump() ensures c[i].Target() != n + |c| {
      if i < |a| { assert c[i] == a[i]; }
    }
    assert c[|c| - 1] == b[|b| - 1];
  }

  lemma PlainPair(ca: seq<Instr>, cb: seq<Instr>, co: seq<Instr>, n: nat)
    requires Within(ca, n) && Within(cb, n + |ca| + 1) && NoJumps(co) && co != []
    ensures !Lands(PairCode(ca, cb, co), n) && E.EndsInLoad(PairCode(ca, cb, co)) == co[|co| - 1].LI?
    ensures Within(PairCode(ca, cb, co), n)
  {
    WithinCat(ca, [PSH], n);
    WithinCat(ca + [PSH], cb, n);
    PlainEnd(ca + [PSH] + cb, co, n);
    WithinCat(ca + [PSH] + cb, co, n);
    assert PairCode(ca, cb, co) == ca + [PSH] + cb + co;
  }

  lemma FrontWithin(c: seq<Instr>, n: nat)
    requires Within(c, n) && Undoable(c, n)
    ensures Within(E.Front(c), n)
  {
    var f := E.Front(c);
    forall i | 0 <= i < |f| && f[i].IsJump() ensures n + i < f[i].Target() <= n + |f| { assert f[i] == c[i]; }
  }

  lemma OpPlain(op: BinOp, t: Ty, u: Ty)
    requires BinaryTy(op, t, u).Some?
    ensures var co := OpCode(op, t, u); co != [] && NoJumps(co) && !co[|co| - 1].LI?
  {}

  lemma ScalePlain(t: Ty)
    ensures NoJumps(ScaleCode(t) + [Bin(ADD)])
  {}

  // ----- trees -----

  /** After taking back `k` loads that can be taken back, the code ends as the tree says. */
  lemma {:induction false} EndsAre(e: Expr, n: nat, k: nat)
    requires Emit(e, n).Made? && CanUndo(e, k)
    ensures var c := Emit(e, n).code; k < |c| && EndsLike(Undone(c, k), n, Ends(e, k))
    decreases e, 1
  {
    hide Emit; hide CanUndo; hide EndsLike;
    match e
    case Cast(t, x) => UndoSame(e, x, k); CastEnds(t, x, n, k);
    case Plus(x) => UndoSame(e, x, k); PlusEnds(x, n, k);
    case AddrOf(x) => AddrOfEnds(x, n, k);
    case Deref(x) => DerefEnds(x, n, k);
    case Var(_, _, _) => VarEnds(e, n, k);
    case Index(a, i) => IndexEnds(a, i, n, k);
    case Cond(c, a, b) => UndoNone(e, k); CondEnds(c, a, b, n);
    case Lor(a, b) => UndoNone(e, k); ShortEnds(e, a, b, n);
    case Lan(a, b) => UndoNone(e, k); ShortEnds(e, a, b, n);
    case _ => UndoNone(e, k); PlainEnds(e, n);
  }

  lemma {:induction false} CastEnds(t: Ty, x: Expr, n: nat, k: nat)
    requires Emit(Cast(t, x), n).Made? && CanUndo(x, k)
    ensures var c := Emit(Cast(t, x), n).code; k < |c| && EndsLike(Undone(c, k), n, Ends(x, k))
    decreases x, 2
  {
    hide Ends; hide E.Spoilt;
    EndsAre(x, n, k);
    var a, c := Emit(x, n).code, Emit(Cast(t, x), n).code;
    if k > 0 {
      assert Undone(c, k) == Undone(a, k);
    } else {
      assert Undone(c, 0) == c && Undone(a, 0) == a;
      RetypedLands(a, AccessTy(t), n);
    }
  }

  lemma RetypedLands(a: seq<Instr>, t: Ty, n: nat)
    requires a != []
    ensures var c := E.Retyped(a, t); Lands(c, n) == Lands(a, n) && E.EndsInLoad(c) == E.EndsInLoad(a)
  {
    var c := E.Retyped(a, t);
    assert forall i :: 0 <= i < |a| ==> c[i] == a[i] || (c[i].LI? && a[i].LI?);
    if i :| 0 <= i < |a| && a[i].IsJump() && a[i].Target() == n + |a| { assert c[i] == a[i]; }
    if i :| 0 <= i < |c| && c[i].IsJump() && c[i].Target() == n + |c| { assert c[i] == a[i]; }
  }

  lemma {:induction false} PlusEnds(x: Expr, n: nat, k: nat)
    requires Emit(Plus(x), n).Made? && CanUndo(x, k)
    ensures var c := Emit(Plus(x), n).code; k < |c| && EndsLike(Undone(c, k), n, Ends(x, k))
    decreases x, 2
  {
    hide Ends;
    EndsAre(x, n, k);
    ThenNone(Emit(x, n));
  }

  lemma {:induction false} AddrOfEnds(x: Expr, n: nat, k: nat)
    requires Emit(AddrOf(x), n).Made? && CanUndo(AddrOf(x), k)
    ensures var c := Emit(AddrOf(x), n).code; k < |c| && EndsLike(Undone(c, k), n, Ends(x, k + 1))
    decreases x, 2
  {
    hide Ends; hide Emit; hide Lands;
    EmitAddrOf(x, n);
    var a := Emit(x, n).code;
    EndsAre(x, n, 0);
    assert Undone(a, 0) == a;
    assert Ends(x, 0) == Ending(true, false);
    UndoMore(x, k);
    EndsAre(x, n, k + 1);
    assert Undone(E.Front(a), k) == Undone(a, k + 1);
  }

  lemma {:induction false} DerefEnds(x: Expr, n: nat, k: nat)
    requires Emit(Deref(x), n).Made? && CanUndo(Deref(x), k)
    ensures var c := Emit(Deref(x), n).code; k < |c| && EndsLike(Undone(c, k), n, Ends(Deref(x), k))
    decreases x, 2
  {
    var a, c := Emit(x, n).code, Emit(Deref(x), n).code;
    if k == 0 {
      EmitWithin(x, n);
      PlainEnd(a, [c[|c| - 1]], n);
      assert c == a + [c[|c| - 1]] && Undone(c, 0) == c;
    } else {
      UndoLess(x, k);
      EndsAre(x, n, k - 1);
      assert Undone(c, k) == Undone(a, k - 1);
    }
  }

  lemma VarEnds(e: Expr, n: nat, k: nat)
    requires e.Var? && Emit(e, n).Made? && CanUndo(e, k)
    ensures var c := Emit(e, n).code; k < |c| && EndsLike(Undone(c, k), n, Ends(e, k))
  {
    if k > 0 { UndoAt(e, k, 0); }
    if k > 1 { UndoAt(e, k, 1); }
    var c := Emit(e, n).code;
    assert NoJumps(Undone(c, k));
  }

  lemma {:induction false} IndexEnds(a: Expr, i: Expr, n: nat, k: nat)
    requires Emit(Index(a, i), n).Made? && CanUndo(Index(a, i), k)
    ensures var c := Emit(Index(a, i), n).code; k < |c| && EndsLike(Undone(c, k), n, Ends(Index(a, i), k))
  {
    hide Emit; hide PairCode; hide ScaleCode;
    EmitIndex(a, i, n);
    if k > 1 { UndoAt(Index(a, i), k, 1); }
    var p := Emit(a, n);
    var q := Emit(i, n + |p.code| + 1);
    EmitWithin(a, n);
    EmitWithin(i, n + |p.code| + 1);
    var co := ScaleCode(p.ty) + [Bin(ADD)];
    ScalePlain(p.ty);
    PlainPair(p.code, q.code, co, n);
    var pc, c := PairCode(p.code, q.code, co), Emit(Index(a, i), n).code;
    var li := [c[|c| - 1]];
    PlainEnd(pc, li, n);
    assert c == pc + li && Undone(c, 0) == c && Undone(c, 1) == pc;
  }

  lemma {:induction false} CondEnds(c: Expr, a: Expr, b: Expr, n: nat)
    requires Emit(Cond(c, a, b), n).Made?
    ensures var k := Emit(Cond(c, a, b), n).code; 0 < |k| && EndsLike(Undone(k, 0), n, Ending(Ends(b, 0).load, true))
    decreases b, 2
  {
    hide Emit; hide Ends;
    EmitCond(c, a, b, n);
    var p := Emit(c, n);
    var q := Emit(a, n + |p.code| + 1);
    var r := Emit(b, n + |p.code| + |q.code| + 2);
    EndsAre(b, n + |p.code| + |q.code| + 2, 0);
    var k, at := Emit(Cond(c, a, b), n).code, |p.code| + 1 + |q.code|;
    assert Undone(k, 0) == k && Undone(r.code, 0) == r.code;
    assert k[at] == JMP(n + |k|) && k[|k| - 1] == r.code[|r.code| - 1];
  }

  lemma {:induction false} ShortEnds(e: Expr, a: Expr, b: Expr, n: nat)
    requires (e == Lor(a, b) || e == Lan(a, b)) && Emit(e, n).Made?
    ensures var k := Emit(e, n).code; 0 < |k| && EndsLike(Undone(k, 0), n, Ending(Ends(b, 0).load, true))
    decreases b, 2
  {
    hide Emit; hide Ends;
    EmitShort(e, a, b, n);
    var p := Emit(a, n);
    var q := Emit(b, n + |p.code| + 1);
    EndsAre(b, n + |p.code| + 1, 0);
    var k := Emit(e, n).code;
    assert Undone(k, 0) == k && Undone(q.code, 0) == q.code;
    assert k[|p.code|].IsJump() && k[|p.code|].Target() == n + |k| && k[|k| - 1] == q.code[|q.code| - 1];
  }

  /** Everything else ends in something other than a load that no jump goes behind. */
  lemma {:induction false} PlainEnds(e: Expr, n: nat)
    requires Emit(e, n).Made?
    requires !e.Cast? && !e.Plus? && !e.AddrOf? && !e.Deref? && !e.Var? && !e.Index? && !e.Cond? && !e.Lor? && !e.Lan?
    ensures var c := Emit(e, n).code; 0 < |c| && EndsLike(Undone(c, 0), n, Ending(false, false))
  {
    var c := Emit(e, n).code;
    assert Undone(c, 0) == c;
    match e
    case Not(x) => EmitWithin(x, n); PlainEnd(Emit(x, n).code, [PSH, IMM(0), Bin(EQ)], n);
    case BitNot(x) => EmitWithin(x, n); PlainEnd(Emit(x, n).code, [PSH, IMM(TWO64 - 1), Bin(XOR)], n);
    case Neg(x) => if !x.Num? { EmitWithin(x, n + 2); PlainPair([IMM(TWO64 - 1)], Emit(x, n + 2).code, [Bin(MUL)], n); }
    case PreInc(dec, x) => BumpEnds(Emit(x, n), x, n, dec, []);
    case PostInc(dec, x) =>
      EmitPostInc(dec, x, n);
      BumpEnds(Emit(x, n), x, n, dec, [PSH, IMM(IncBytes(Emit(x, n).ty)), Bin(if dec then ADD else SUB)]);
    case Assign(l, v) => AssignEnds(l, v, n);
    case Binary(op, a, b) => BinaryEnds(op, a, b, n);
    case _ =>
  }

  lemma BumpEnds(r: Made, x: Expr, n: nat, dec: bool, co: seq<Instr>)
    requires r == Emit(x, n) && Bumped(r, n, dec, co).Made? && NoJumps(co) && (co != [] ==> !co[|co| - 1].LI?)
    ensures EndsLike(Bumped(r, n, dec, co).code, n, Ending(false, false))
  {
    hide Emit; hide Lands;
    EmitWithin(x, n);
    FrontWithin(r.code, n);
    var f := E.Front(r.code);
    var mid := BumpTail(r.code, r.ty, dec)[|f|..];
    assert BumpTail(r.code, r.ty, dec) + co == f + (mid + co);
    PlainEnd(f, mid + co, n);
  }

  lemma AssignEnds(l: Expr, v: Expr, n: nat)
    requires Emit(Assign(l, v), n).Made?
    ensures EndsLike(Emit(Assign(l, v), n).code, n, Ending(false, false))
  {
    hide Emit; hide PairCode; hide Lands;
    EmitAssign(l, v, n);
    var p := Emit(l, n);
    EmitWithin(l, n);
    FrontWithin(p.code, n);
    EmitWithin(v, n + |p.code|);
    PlainPair(E.Front(p.code), Emit(v, n + |p.code|).code, [SI(AccessTy(p.ty))], n);
  }

  lemma BinaryEnds(op: BinOp, a: Expr, b: Expr, n: nat)
    requires Emit(Binary(op, a, b), n).Made?
    ensures EndsLike(Emit(Binary(op, a, b), n).code, n, Ending(false, false))
  {
    hide Emit; hide PairCode; hide Lands; hide OpCode; hide BinaryTy;
    EmitBinary(op, a, b, n);
    var p := Emit(a, n);
    var q := Emit(b, n + |p.code| + 1);
    EmitWithin(a, n);
    EmitWithin(b, n + |p.code| + 1);
    OpPlain(op, p.ty, q.ty);
    PlainPair(p.code, q.code, OpCode(op, p.ty, q.ty), n);
  }
}
