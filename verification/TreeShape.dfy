/** The shape of whatever the compiler makes of a tree: balanced code with forward jumps to places of
    equal depth, for every tree it does not refuse. */
module TreeShape {
  import opened Words
  import opened Vm
  import opened Syntax
  import opened Compile
  import opened CompileShape
  import opened Parse
  import opened Trees
  import E = Encoding

  // ----- pieces -----

  /** The same code up to the types of its loads. */
  ghost predicate SameButLoads(c: seq<Instr>, k: seq<Instr>) {
    |c| == |k| && forall i :: 0 <= i < |c| ==> c[i] == k[i] || (c[i].LI? && k[i].LI?)
  }

  lemma {:induction false} SameDepths(c: seq<Instr>, k: seq<Instr>, i: nat)
    requires SameButLoads(c, k) && i <= |c|
    ensures Depth(c, i) == Depth(k, i) && WordsUpTo(c, i) == WordsUpTo(k, i)
  {
    if i > 0 { SameDepths(c, k, i - 1); }
  }

  lemma SegSame(c: seq<Instr>, k: seq<Instr>, n: nat, d: int, w: int)
    requires SameButLoads(c, k) && Seg(c, n, d, d, w)
    ensures Seg(k, n, d, d, w) && WordsOf(k) == WordsOf(c)
  {
    SameDepths(c, k, |c|);
    forall i | 0 <= i <= |k| ensures Paid(k, i, d, w) { assert Paid(c, i, d, w); SameDepths(c, k, i); }
    forall i | 0 <= i < |k| ensures Fits(k, n, i, d) {
      assert Fits(c, n, i, d);
      SameDepths(c, k, i);
      if c[i].IsJump() { SameDepths(c, k, c[i].Target() - n); }
    }
  }

  /** Code without its last load, when no jump goes behind that. */
  lemma SegFront(c: seq<Instr>, n: nat, d: int, w: int)
    requires Seg(c, n, d, d, w) && Undoable(c, n) && c[0].IMM?
    ensures |c| >= 2 && Seg(E.Front(c), n, d, d, w) && WordsOf(E.Front(c)) >= 2
  {
    var k, f := |c| - 1, E.Front(c);
    var li := [c[k]];
    assert c == f + li && f[0].IMM?;
    CatLeft(f, li, k);
    forall i | 0 <= i <= k ensures Paid(f, i, d, w) { assert Paid(c, i, d, w); CatLeft(f, li, i); }
    forall i | 0 <= i < k ensures Fits(f, n, i, d) {
      assert Fits(c, n, i, d);
      CatLeft(f, li, i);
      if c[i].IsJump() { CatLeft(f, li, c[i].Target() - n); }
    }
    StartWords(f);
    assert Depth(c, k + 1) == Depth(c, k);
  }

  lemma StartWords(c: seq<Instr>)
    requires c != [] && c[0].IMM?
    ensures WordsOf(c) >= 2
  {
    assert WordsUpTo(c, 1) == 2;
    WordsAtLeast(c, 1);
  }

  lemma {:induction false} WordsAtLeast(c: seq<Instr>, i: nat)
    requires i <= |c|
    ensures WordsUpTo(c, i) <= WordsOf(c)
    decreases |c| - i
  {
    if i < |c| { WordsAtLeast(c, i + 1); }
  }

  /** What follows the address of the operand of `++` or `--`. */
  lemma SegKept(t: Ty, k: Word, op: Op, u: Ty, n: nat, d: int, w: int)
    requires 0 <= d && 3 * d + 2 <= w
    ensures Seg([PSH, LI(t), PSH, IMM(k), Bin(op), SI(u)], n, d, d, w)
    ensures WordsOf([PSH, LI(t), PSH, IMM(k), Bin(op), SI(u)]) == 9
  {
    hide Seg; hide WordsUpTo; hide WordsOf;
    var li, mid, si := [LI(t)], [PSH, IMM(k), Bin(op)], [SI(u)];
    SegOne(PSH, n, d, w);
    SegOne(li[0], n + 1, d + 1, w + 1);
    SegConst(k, op, n + 2, d + 1, w + 3);
    SegOne(si[0], n + 5, d + 1, w + 7);
    SegCat(mid, si, n + 2, d + 1, d + 1, d, w + 3);
    SegCat(li, mid + si, n + 1, d + 1, d + 1, d, w + 1);
    SegCat([PSH], li + (mid + si), n, d, d + 1, d, w);
    assert [PSH] + (li + (mid + si)) == [PSH, LI(t), PSH, IMM(k), Bin(op), SI(u)];
  }

  lemma SegBumped(c: seq<Instr>, ty: Ty, dec: bool, n: nat, d: int, w: int)
    requires Seg(c, n, d, d, w) && Undoable(c, n) && c[0].IMM? && 0 <= d && 3 * d <= w
    ensures Seg(BumpTail(c, ty, dec), n, d, d, w) && WordsOf(BumpTail(c, ty, dec)) >= 2
  {
    SegFront(c, n, d, w);
    hide Seg; hide WordsOf;
    var f, li := E.Front(c), c[|c| - 1];
    var op := if dec then SUB else ADD;
    SegKept(li.ty, IncBytes(ty), op, AccessTy(ty), n + |f|, d, w + WordsOf(f));
    SegCat(f, [PSH, li, PSH, IMM(IncBytes(ty)), Bin(op), SI(AccessTy(ty))], n, d, d, d, w);
  }

  // ----- trees -----

  ghost predicate Shaped(r: Made, n: nat, d: int, w: int) {
    r.Made? ==> Seg(r.code, n, d, d, w) && WordsOf(r.code) >= 2
  }

  lemma {:induction false} EmitSeg(e: Expr, n: nat, d: int, w: int)
    requires 0 <= d && 3 * d <= w
    ensures Shaped(Emit(e, n), n, d, w)
    decreases e, 2
  {
    match e
    case Cast(t, x) => RecastSeg(t, x, n, d, w);
    case AddrOf(x) => AddrOfSeg(x, n, d, w);
    case Deref(x) => EmitSeg(x, n, d, w); LoadedSeg(Emit(x, n), n, d, w);
    case Not(x) => EmitSeg(x, n, d, w); ThenSeg(Emit(x, n), 0, EQ, n, d, w);
    case BitNot(x) => EmitSeg(x, n, d, w); ThenSeg(Emit(x, n), TWO64 - 1, XOR, n, d, w);
    case Plus(x) => EmitSeg(x, n, d, w); ThenNone(Emit(x, n));
    case Neg(x) => if x.Num? { LeafSeg(e, n, d, w); } else { NegSeg(x, n, d, w); }
    case PreInc(dec, x) => EmitSeg(x, n, d, w); BumpedSeg(Emit(x, n), n, dec, d, w);
    case PostInc(dec, x) => PostIncSeg(dec, x, n, d, w);
    case Assign(l, v) => AssignSeg(l, v, n, d, w);
    case Cond(c, x, y) => CondSeg(c, x, y, n, d, w);
    case Lor(x, y) => ShortSeg(e, x, y, n, d, w);
    case Lan(x, y) => ShortSeg(e, x, y, n, d, w);
    case Binary(op, x, y) => BinarySeg(op, x, y, n, d, w);
    case Index(x, i) => IndexSeg(x, i, n, d, w);
    case _ => LeafSeg(e, n, d, w);
  }

  lemma LeafSeg(e: Expr, n: nat, d: int, w: int)
    requires 0 <= d && 3 * d <= w
    requires e.Num? || e.StrLit? || e.SizeOf? || e.Var? || (e.Neg? && e.e.Num?)
    ensures Shaped(Emit(e, n), n, d, w)
  {
    hide Seg; hide WordsOf;
    var c := Emit(e, n).code;
    SegOne(c[0], n, d, w);
    if e.Var? && !e.isArray {
      SegOne(c[1], n + 1, d, w + 2);
      SegCat([c[0]], [c[1]], n, d, d, d, w);
      assert c == [c[0]] + [c[1]];
    } else {
      assert c == [c[0]];
    }
  }

  lemma {:induction false} RecastSeg(t: Ty, x: Expr, n: nat, d: int, w: int)
    requires 0 <= d && 3 * d <= w
    ensures Shaped(Emit(Cast(t, x), n), n, d, w)
    decreases x, 3
  {
    hide Seg; hide WordsOf; hide E.Spoilt;
    EmitSeg(x, n, d, w);
    var r := Emit(x, n);
    if r.Made? { SegSame(r.code, E.Retyped(r.code, AccessTy(t)), n, d, w); }
  }

  lemma {:induction false} AddrOfSeg(x: Expr, n: nat, d: int, w: int)
    requires 0 <= d && 3 * d <= w
    ensures Shaped(Emit(AddrOf(x), n), n, d, w)
    decreases x, 3
  {
    hide Seg; hide WordsOf; hide Undoable;
    EmitSeg(x, n, d, w);
    var r := Emit(x, n);
    if r.Made? && Undoable(r.code, n) { SegFront(r.code, n, d, w); }
  }

  lemma LoadedSeg(r: Made, n: nat, d: int, w: int)
    requires Shaped(r, n, d, w) && 0 <= d && 3 * d <= w
    ensures Shaped(Loaded(r), n, d, w)
  {
    hide Seg; hide WordsOf;
    if Loaded(r).Made? {
      var li := LI(AccessTy(Loaded(r).ty));
      SegOne(li, n + |r.code|, d, w + WordsOf(r.code));
      SegCat(r.code, [li], n, d, d, d, w);
    }
  }

  lemma ThenNone(r: Made)
    ensures r.Made? ==> Then(r, []).code == r.code
  {}

  lemma ThenSeg(r: Made, k: Word, op: Op, n: nat, d: int, w: int)
    requires Shaped(r, n, d, w) && 0 <= d && 3 * d <= w
    ensures Shaped(Then(r, [PSH, IMM(k), Bin(op)]), n, d, w)
  {
    hide Seg; hide WordsOf;
    if r.Made? {
      SegConst(k, op, n + |r.code|, d, w + WordsOf(r.code));
      SegCat(r.code, [PSH, IMM(k), Bin(op)], n, d, d, d, w);
    }
  }

  lemma {:induction false} NegSeg(x: Expr, n: nat, d: int, w: int)
    requires 0 <= d && 3 * d <= w && !x.Num?
    ensures Shaped(Emit(Neg(x), n), n, d, w)
    decreases x, 3
  {
    hide Seg; hide WordsOf; hide PairCode; hide Emit;
    EmitNeg(x, n);
    EmitSeg(x, n + 2, d + 1, w + 3);
    var r := Emit(x, n + 2);
    if r.Made? {
      SegOne(IMM(TWO64 - 1), n, d, w);
      SegOne(Bin(MUL), n + 2 + |r.code|, d + 1, w + 3 + WordsOf(r.code));
      SegPair([IMM(TWO64 - 1)], r.code, [Bin(MUL)], n, d, w);
    }
  }

  lemma BumpedSeg(r: Made, n: nat, dec: bool, d: int, w: int)
    requires Shaped(r, n, d, w) && (r.Made? ==> |r.code| >= 1 && r.code[0].IMM?) && 0 <= d && 3 * d <= w
    ensures Shaped(Bumped(r, n, dec, []), n, d, w)
  {
    hide Seg; hide WordsOf; hide Lands; hide BumpTail;
    if r.Made? && Undoable(r.code, n) {
      SegBumped(r.code, r.ty, dec, n, d, w);
      assert BumpTail(r.code, r.ty, dec) + [] == BumpTail(r.code, r.ty, dec);
    }
  }

  lemma BumpedThenSeg(r: Made, n: nat, dec: bool, d: int, w: int)
    requires Shaped(r, n, d, w) && (r.Made? ==> |r.code| >= 1 && r.code[0].IMM?) && 0 <= d && 3 * d <= w && r.Made?
    ensures Shaped(Bumped(r, n, dec, [PSH, IMM(IncBytes(r.ty)), Bin(if dec then ADD else SUB)]), n, d, w)
  {
    hide Seg; hide WordsOf; hide Lands; hide BumpTail;
    if Undoable(r.code, n) {
      SegBumped(r.code, r.ty, dec, n, d, w);
      var b, k, op := BumpTail(r.code, r.ty, dec), IncBytes(r.ty), if dec then ADD else SUB;
      SegConst(k, op, n + |b|, d, w + WordsOf(b));
      SegCat(b, [PSH, IMM(k), Bin(op)], n, d, d, d, w);
    }
  }

  lemma {:induction false} PostIncSeg(dec: bool, x: Expr, n: nat, d: int, w: int)
    requires 0 <= d && 3 * d <= w
    ensures Shaped(Emit(PostInc(dec, x), n), n, d, w)
    decreases x, 3
  {
    hide Seg; hide WordsOf; hide Emit; hide Bumped;
    EmitPostInc(dec, x, n);
    EmitSeg(x, n, d, w);
    if Emit(x, n).Made? { BumpedThenSeg(Emit(x, n), n, dec, d, w); }
  }

  lemma {:induction false} AssignSeg(l: Expr, v: Expr, n: nat, d: int, w: int)
    requires 0 <= d && 3 * d <= w
    ensures Shaped(Emit(Assign(l, v), n), n, d, w)
    decreases Assign(l, v), 1
  {
    hide Seg; hide WordsOf; hide PairCode; hide Undoable; hide Emit;
    EmitAssign(l, v, n);
    EmitSeg(l, n, d, w);
    var p := Emit(l, n);
    if p.Made? && Undoable(p.code, n) {
      SegFront(p.code, n, d, w);
      var f := E.Front(p.code);
      EmitSeg(v, n + |p.code|, d + 1, w + WordsOf(f) + 1);
      var q := Emit(v, n + |p.code|);
      if q.Made? {
        var si := SI(AccessTy(p.ty));
        SegOne(si, n + |p.code| + |q.code|, d + 1, w + WordsOf(f) + 1 + WordsOf(q.code));
        SegPair(f, q.code, [si], n, d, w);
      }
    }
  }

  lemma {:induction false} CondSeg(c: Expr, x: Expr, y: Expr, n: nat, d: int, w: int)
    requires 0 <= d && 3 * d <= w
    ensures Shaped(Emit(Cond(c, x, y), n), n, d, w)
    decreases Cond(c, x, y), 1
  {
    hide Seg; hide WordsOf; hide CondCode; hide Emit;
    EmitCond(c, x, y, n);
    EmitSeg(c, n, d, w);
    var p := Emit(c, n);
    if p.Made? {
      EmitSeg(x, n + |p.code| + 1, d, w + WordsOf(p.code) + 2);
      var q := Emit(x, n + |p.code| + 1);
      if q.Made? {
        EmitSeg(y, n + |p.code| + |q.code| + 2, d, w + WordsOf(p.code) + WordsOf(q.code) + 4);
        var r := Emit(y, n + |p.code| + |q.code| + 2);
        if r.Made? { CondPiece(p.code, q.code, r.code, n, d, w); }
      }
    }
  }

  lemma {:induction false} ShortSeg(e: Expr, x: Expr, y: Expr, n: nat, d: int, w: int)
    requires 0 <= d && 3 * d <= w && (e == Lor(x, y) || e == Lan(x, y))
    ensures Shaped(Emit(e, n), n, d, w)
    decreases e, 1
  {
    hide Seg; hide WordsOf; hide ShortCode; hide Emit;
    EmitShort(e, x, y, n);
    EmitSeg(x, n, d, w);
    var p := Emit(x, n);
    if p.Made? {
      EmitSeg(y, n + |p.code| + 1, d, w + WordsOf(p.code) + 2);
      var q := Emit(y, n + |p.code| + 1);
      if q.Made? { ShortPiece(e.Lor?, p.code, q.code, n, d, w); }
    }
  }

  lemma {:induction false} BinarySeg(op: BinOp, x: Expr, y: Expr, n: nat, d: int, w: int)
    requires 0 <= d && 3 * d <= w
    ensures Shaped(Emit(Binary(op, x, y), n), n, d, w)
    decreases Binary(op, x, y), 1
  {
    hide Seg; hide WordsOf; hide PairCode; hide OpCode; hide BinaryTy; hide Emit;
    EmitBinary(op, x, y, n);
    EmitSeg(x, n, d, w);
    var p := Emit(x, n);
    if p.Made? {
      EmitSeg(y, n + |p.code| + 1, d + 1, w + WordsOf(p.code) + 1);
      var q := Emit(y, n + |p.code| + 1);
      if q.Made? && BinaryTy(op, p.ty, q.ty).Some? {
        SegOp(op, p.ty, q.ty, n + |p.code| + 1 + |q.code|, d, w + WordsOf(p.code) + 1 + WordsOf(q.code));
        SegPair(p.code, q.code, OpCode(op, p.ty, q.ty), n, d, w);
      }
    }
  }

  lemma {:induction false} IndexSeg(x: Expr, i: Expr, n: nat, d: int, w: int)
    requires 0 <= d && 3 * d <= w
    ensures Shaped(Emit(Index(x, i), n), n, d, w)
    decreases Index(x, i), 1
  {
    hide Seg; hide WordsOf; hide PairCode; hide ScaleCode; hide Emit;
    EmitIndex(x, i, n);
    EmitSeg(x, n, d, w);
    var p := Emit(x, n);
    if p.Made? {
      EmitSeg(i, n + |p.code| + 1, d + 1, w + WordsOf(p.code) + 1);
      var q := Emit(i, n + |p.code| + 1);
      if q.Made? {
        SegScaled(p.ty, ADD, n + |p.code| + 1 + |q.code|, d, w + WordsOf(p.code) + 1 + WordsOf(q.code));
        SegPair(p.code, q.code, ScaleCode(p.ty) + [Bin(ADD)], n, d, w);
        LoadedIndexSeg(p, q, n, d, w);
      }
    }
  }

  lemma LoadedIndexSeg(p: Made, q: Made, n: nat, d: int, w: int)
    requires p.Made? && q.Made? && 0 <= d && 3 * d <= w
    requires var c := PairCode(p.code, q.code, ScaleCode(p.ty) + [Bin(ADD)]); Seg(c, n, d, d, w) && WordsOf(c) >= 2
    ensures Shaped(Indexed(p, q), n, d, w)
  {
    hide Seg; hide WordsOf; hide PairCode; hide ScaleCode;
    if p.ty.ptr > 0 {
      var c, li := PairCode(p.code, q.code, ScaleCode(p.ty) + [Bin(ADD)]), LI(AccessTy(Indexed(p, q).ty));
      SegOne(li, n + |c|, d, w + WordsOf(c));
      SegCat(c, [li], n, d, d, d, w);
    }
  }

  /** Jumps stay inside the code or go to its end. */
  ghost predicate Within(c: seq<Instr>, n: nat) {
    forall i :: 0 <= i < |c| && c[i].IsJump() ==> n + i < c[i].Target() <= n + |c|
  }

  lemma EmitWithin(e: Expr, n: nat)
    requires Emit(e, n).Made?
    ensures Within(Emit(e, n).code, n)
  {
    hide Emit; hide Depth; hide Paid;
    EmitSeg(e, n, 0, 0);
    var c := Emit(e, n).code;
    forall i | 0 <= i < |c| && c[i].IsJump() ensures n + i < c[i].Target() <= n + |c| { assert Fits(c, n, i, 0); }
  }
}
