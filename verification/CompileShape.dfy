/** The shape of emitted code: forward jumps between places of equal depth, and a stack that
    a full instruction buffer cannot overflow. */
module CompileShape {
  import opened Options
  import opened Words
  import opened Vm
  import opened Syntax
  import opened Compile
  import opened CompileRuns

  /** Length in the instruction buffer of the first `i` instructions. */
  function WordsUpTo(c: seq<Instr>, i: nat): nat
    requires i <= |c|
  {
    if i == 0 then 0 else WordsUpTo(c, i - 1) + c[i - 1].Words()
  }

  function WordsOf(c: seq<Instr>): nat { WordsUpTo(c, |c|) }

  lemma {:induction false} CatLeft(c: seq<Instr>, d: seq<Instr>, i: nat)
    requires i <= |c|
    ensures Depth(c + d, i) == Depth(c, i) && WordsUpTo(c + d, i) == WordsUpTo(c, i)
  {
    if i > 0 { CatLeft(c, d, i - 1); }
  }

  lemma {:induction false} CatRight(c: seq<Instr>, d: seq<Instr>, j: nat)
    requires j <= |d|
    ensures Depth(c + d, |c| + j) == Depth(c, |c|) + Depth(d, j)
    ensures WordsUpTo(c + d, |c| + j) == WordsOf(c) + WordsUpTo(d, j)
  {
    if j == 0 { CatLeft(c, d, |c|); } else { CatRight(c, d, j - 1); }
  }

  /** Where a position's depth stands: not negative, and paid for by three words per slot. */
  ghost predicate Paid(c: seq<Instr>, i: nat, d: int, w: int)
    requires i <= |c|
  {
    0 <= d + Depth(c, i) && 3 * (d + Depth(c, i)) <= w + WordsUpTo(c, i)
  }

  /** Instruction `i` of code at index `n` entered at depth `d`: a jump goes forward, at most to the
      end, to a place of equal depth; a pop finds something to pop. */
  ghost predicate Fits(c: seq<Instr>, n: nat, i: nat, d: int)
    requires i < |c|
  {
    && (c[i].IsJump() ==> var t := c[i].Target() - n; i < t <= |c| && Depth(c, t) == Depth(c, i))
    && (c[i].Pops() ==> 0 < d + Depth(c, i))
    && !c[i].EXIT? && !c[i].Call? && !c[i].ADJ?
  }

  /** Code starting at index `n` with stack depth `d` and `w` words before it, that leaves the
      depth `d'`. */
  ghost predicate Seg(c: seq<Instr>, n: nat, d: int, d': int, w: int) {
    && d + Depth(c, |c|) == d'
    && (forall i :: 0 <= i < |c| ==> Fits(c, n, i, d))
    && (forall i :: 0 <= i <= |c| ==> Paid(c, i, d, w))
  }

  lemma CatPaid(c: seq<Instr>, e: seq<Instr>, i: nat, d: int, d1: int, w: int)
    requires i <= |c + e| && d + Depth(c, |c|) == d1
    requires i <= |c| ==> Paid(c, i, d, w)
    requires i > |c| ==> Paid(e, i - |c|, d1, w + WordsOf(c))
    ensures Paid(c + e, i, d, w)
  {
    if i <= |c| { CatLeft(c, e, i); } else { CatRight(c, e, i - |c|); }
  }

  lemma CatFits(c: seq<Instr>, e: seq<Instr>, n: nat, i: nat, d: int, d1: int)
    requires i < |c + e| && d + Depth(c, |c|) == d1
    requires i < |c| ==> Fits(c, n, i, d)
    requires i >= |c| ==> Fits(e, n + |c|, i - |c|, d1)
    ensures Fits(c + e, n, i, d)
  {
    if i < |c| {
      CatLeft(c, e, i);
      if c[i].IsJump() { CatLeft(c, e, c[i].Target() - n); }
    } else {
      CatRight(c, e, i - |c|);
      if e[i - |c|].IsJump() { CatRight(c, e, e[i - |c|].Target() - n - |c|); }
    }
  }

  lemma SegCat(c: seq<Instr>, e: seq<Instr>, n: nat, d: int, d1: int, d2: int, w: int)
    requires Seg(c, n, d, d1, w) && Seg(e, n + |c|, d1, d2, w + WordsOf(c))
    ensures Seg(c + e, n, d, d2, w) && WordsOf(c + e) == WordsOf(c) + WordsOf(e)
  {
    hide Paid; hide Fits; hide Depth;
    CatRight(c, e, |e|);
    forall i | 0 <= i <= |c + e| ensures Paid(c + e, i, d, w) { CatPaid(c, e, i, d, d1, w); }
    forall i | 0 <= i < |c + e| ensures Fits(c + e, n, i, d) { CatFits(c, e, n, i, d, d1); }
  }

  /** A single instruction other than a jump. */
  lemma SegOne(x: Instr, n: nat, d: int, w: int)
    requires !x.IsJump() && !x.EXIT? && !x.Call? && !x.ADJ?
    requires 0 <= d && 0 <= d + x.Effect() && 3 * d <= w && (x.PSH? ==> 3 * d + 2 <= w)
    ensures Seg([x], n, d, d + x.Effect(), w) && WordsOf([x]) == x.Words()
  {
    var c := [x];
    assert Depth(c, 0) == 0 && Depth(c, 1) == x.Effect() && WordsUpTo(c, 1) == x.Words();
    forall i | 0 <= i <= |c| ensures Paid(c, i, d, w) { assert i == 0 || i == 1; }
  }

  /** A jump into, or just past, a balanced piece of code, at a place of depth zero. */
  lemma SegSkip(j: Instr, c: seq<Instr>, n: nat, d: int, w: int)
    requires j.IsJump() && n < j.Target() <= n + 1 + |c| && Depth(c, j.Target() - n - 1) == 0
    requires 0 <= d && 3 * d <= w && Seg(c, n + 1, d, d, w + 2)
    ensures Seg([j] + c, n, d, d, w) && WordsOf([j] + c) == 2 + WordsOf(c)
  {
    hide Paid; hide Fits; hide Depth;
    CatRight([j], c, |c|);
    CatRight([j], c, j.Target() - n - 1);
    OneJump(j);
    forall i | 0 <= i <= |[j] + c| ensures Paid([j] + c, i, d, w) {
      if i <= 1 { FirstPaid(j, c, i, d, w); } else { CatPaid([j], c, i, d, d, w); }
    }
    forall i | 0 <= i < |[j] + c| ensures Fits([j] + c, n, i, d) {
      if i == 0 { FirstFits(j, c, n, d); } else { CatFits([j], c, n, i, d, d); }
    }
  }

  lemma OneJump(j: Instr)
    requires j.IsJump()
    ensures Depth([j], |[j]|) == 0 && WordsOf([j]) == 2
  {
    assert Depth([j], 0) == 0 && WordsUpTo([j], 0) == 0;
  }

  lemma FirstPaid(j: Instr, c: seq<Instr>, i: nat, d: int, w: int)
    requires j.IsJump() && i <= 1 && 0 <= d && 3 * d <= w
    ensures Paid([j] + c, i, d, w)
  {
    CatLeft([j], c, i);
    OneJump(j);
  }

  lemma FirstFits(j: Instr, c: seq<Instr>, n: nat, d: int)
    requires j.IsJump() && n < j.Target() <= n + 1 + |c| && Depth([j] + c, j.Target() - n) == 0
    ensures Fits([j] + c, n, 0, d)
  {}

  lemma SegPair(ca: seq<Instr>, cb: seq<Instr>, co: seq<Instr>, n: nat, d: int, w: int)
    requires 0 <= d && 3 * d <= w && WordsOf(ca) >= 2
    requires Seg(ca, n, d, d, w)
    requires Seg(cb, n + |ca| + 1, d + 1, d + 1, w + WordsOf(ca) + 1)
    requires Seg(co, n + |ca| + 1 + |cb|, d + 1, d, w + WordsOf(ca) + 1 + WordsOf(cb))
    ensures Seg(PairCode(ca, cb, co), n, d, d, w)
    ensures WordsOf(PairCode(ca, cb, co)) == WordsOf(ca) + 1 + WordsOf(cb) + WordsOf(co)
  {
    hide Seg; hide WordsUpTo; hide WordsOf;
    SegOne(PSH, n + |ca|, d, w + WordsOf(ca));
    SegCat(cb, co, n + |ca| + 1, d + 1, d + 1, d, w + WordsOf(ca) + 1);
    SegCat([PSH], cb + co, n + |ca|, d, d + 1, d, w + WordsOf(ca));
    SegCat(ca, [PSH] + (cb + co), n, d, d, d, w);
  }

  /** PSH; IMM k; op. */
  lemma SegConst(k: Word, op: Op, n: nat, d: int, w: int)
    requires 0 <= d && 3 * d + 2 <= w
    ensures Seg([PSH, IMM(k), Bin(op)], n, d, d, w) && WordsOf([PSH, IMM(k), Bin(op)]) == 4
  {
    hide Seg; hide WordsUpTo; hide WordsOf;
    SegOne(PSH, n, d, w);
    SegOne(IMM(k), n + 1, d + 1, w + 1);
    SegOne(Bin(op), n + 2, d + 1, w + 3);
    SegCat([IMM(k)], [Bin(op)], n + 1, d + 1, d + 1, d, w + 1);
    SegCat([PSH], [IMM(k)] + [Bin(op)], n, d, d + 1, d, w);
    assert [PSH] + ([IMM(k)] + [Bin(op)]) == [PSH, IMM(k), Bin(op)];
  }

  lemma SegScaled(t: Ty, op: Op, n: nat, d: int, w: int)
    requires 0 <= d && 3 * (d + 1) + 2 <= w
    ensures Seg(ScaleCode(t) + [Bin(op)], n, d + 1, d, w)
  {
    hide Seg; hide WordsUpTo; hide WordsOf;
    if Scaled(t) {
      SegConst(ElemBytes(t), MUL, n, d + 1, w);
      SegOne(Bin(op), n + 3, d + 1, w + 4);
      SegCat(ScaleCode(t), [Bin(op)], n, d + 1, d + 1, d, w);
    } else {
      SegOne(Bin(op), n, d + 1, w);
      assert ScaleCode(t) + [Bin(op)] == [Bin(op)];
    }
  }

  lemma SegOp(op: BinOp, t: Ty, u: Ty, n: nat, d: int, w: int)
    requires 0 <= d && 3 * (d + 1) + 2 <= w && BinaryTy(op, t, u).Some?
    ensures Seg(OpCode(op, t, u), n, d + 1, d, w)
  {
    hide Seg; hide WordsUpTo; hide WordsOf;
    if OnStrings(op, t, u) {
      SegOne(Str(StrOpFor(op)), n, d + 1, w);
    } else if op.Add? {
      SegScaled(t, ADD, n, d, w);
    } else if op.Sub? {
      if Scaled(t) && t == u {
        SegOne(Bin(SUB), n, d + 1, w);
        SegConst(ElemBytes(t), DIV, n + 1, d, w + 1);
        SegCat([Bin(SUB)], [PSH, IMM(ElemBytes(t)), Bin(DIV)], n, d + 1, d, d, w);
        assert [Bin(SUB)] + [PSH, IMM(ElemBytes(t)), Bin(DIV)] == OpCode(op, t, u);
      } else {
        SegScaled(t, SUB, n, d, w);
      }
    } else {
      SegOne(Bin(OpFor(op, t, u)), n, d + 1, w);
    }
  }

  lemma SegBump(dec: bool, x: Expr, n: nat, d: int, w: int)
    requires Good(x) && IsLvalue(x) && 0 <= d && 3 * d + 2 <= w
    ensures Seg(BumpCode(dec, x), n, d, d, w) && WordsOf(BumpCode(dec, x)) == 9
  {
    hide Seg; hide WordsUpTo; hide WordsOf; hide TypeOf; hide LoadTy;
    var li, mid, si := [LI(LoadTy(x))], [PSH, IMM(IncBytes(Type(x))), Bin(if dec then SUB
                                                                          else ADD)], [SI(AccessTy(Type(x)))];
    SegOne(PSH, n, d, w);
    SegOne(li[0], n + 1, d + 1, w + 1);
    SegConst(IncBytes(Type(x)), if dec then SUB else ADD, n + 2, d + 1, w + 3);
    SegOne(si[0], n + 5, d + 1, w + 7);
    SegCat(mid, si, n + 2, d + 1, d + 1, d, w + 3);
    SegCat(li, mid + si, n + 1, d + 1, d + 1, d, w + 1);
    SegCat([PSH], li + (mid + si), n, d, d + 1, d, w);
    assert [PSH] + (li + (mid + si)) == BumpCode(dec, x);
  }

  // ----- trees -----

  /** The code of every tree is such a segment, at any depth its words pay for. */
  lemma {:induction false} CodeSeg(e: Expr, over: Option<Ty>, n: nat, d: int, w: int)
    requires Good(e) && 0 <= d && 3 * d <= w
    ensures Seg(Code(e, over, n), n, d, d, w) && WordsOf(Code(e, over, n)) >= 2
    decreases e, 2
  {
    match e
    case Cast(t, x) => RetypedSeg(e, over, n, d, w);
    case Plus(x) => RetypedSeg(e, over, n, d, w);
    case AddrOf(x) => RetypedSeg(e, over, n, d, w);
    case Deref(x) => UnarySeg(e, over, n, d, w);
    case Not(x) => UnarySeg(e, over, n, d, w);
    case BitNot(x) => UnarySeg(e, over, n, d, w);
    case Neg(x) => if x.Num? { LeafSeg(e, over, n, d, w); } else { NegSeg(e, over, n, d, w); }
    case PreInc(dec, x) => IncSeg(e, over, n, d, w);
    case PostInc(dec, x) => IncSeg(e, over, n, d, w);
    case Index(x, i) => IndexLoadSeg(e, over, n, d, w);
    case Assign(l, r) => AssignSeg(e, over, n, d, w);
    case Cond(c, x, y) => CondSeg(e, over, n, d, w);
    case Lor(x, y) => ShortSeg(e, over, n, d, w);
    case Lan(x, y) => ShortSeg(e, over, n, d, w);
    case Binary(op, x, y) => BinarySeg(e, over, n, d, w);
    case _ => LeafSeg(e, over, n, d, w);
  }

  lemma {:induction false} RetypedSeg(e: Expr, over: Option<Ty>, n: nat, d: int, w: int)
    requires Good(e) && 0 <= d && 3 * d <= w && (e.Cast? || e.Plus? || e.AddrOf?)
    ensures Seg(Code(e, over, n), n, d, d, w) && WordsOf(Code(e, over, n)) >= 2
    decreases e, 1
  {
    hide Seg; hide WordsOf;
    match e
    case Cast(t, x) => CodeSeg(x, Some(Over(over, t)), n, d, w);
    case Plus(x) => CodeSeg(x, over, n, d, w);
    case AddrOf(x) => AddressSeg(x, over, n, d, w);
  }

  lemma {:induction false} AddressSeg(e: Expr, over: Option<Ty>, n: nat, d: int, w: int)
    requires Good(e) && IsLvalue(e) && 0 <= d && 3 * d <= w
    ensures Seg(Address(e, over, n), n, d, d, w) && WordsOf(Address(e, over, n)) >= 2
    decreases e, 0
  {
    hide Seg; hide WordsOf; hide Code; hide TypeOf; hide Address; hide IsLvalue;
    UnfoldAddress(e, over, n, map[]);
    if e.Var? {
      SegOne(IMM(e.addr), n, d, w);
    } else if e.Deref? {
      CodeSeg(e.e, over, n, d, w);
    } else if e.Index? {
      IndexSeg(e, n, d, w);
    } else {
      AddressSeg(e.e, over, n, d, w);
    }
  }

  lemma LeafSeg(e: Expr, over: Option<Ty>, n: nat, d: int, w: int)
    requires Good(e) && 0 <= d && 3 * d <= w
    requires e.Num? || e.StrLit? || e.SizeOf? || e.Var? || (e.Neg? && e.e.Num?)
    ensures Seg(Code(e, over, n), n, d, d, w) && WordsOf(Code(e, over, n)) >= 2
  {
    hide Seg; hide WordsOf;
    var c := Code(e, over, n);
    SegOne(c[0], n, d, w);
    if e.Var? && !e.isArray {
      SegOne(c[1], n + 1, d, w + 2);
      SegCat([c[0]], [c[1]], n, d, d, d, w);
      assert c == [c[0]] + [c[1]];
    } else {
      assert c == [c[0]];
    }
  }

  lemma {:induction false} IndexSeg(e: Expr, n: nat, d: int, w: int)
    requires Good(e) && e.Index? && 0 <= d && 3 * d <= w
    ensures Seg(Address(e, None, n), n, d, d, w) && WordsOf(Address(e, None, n)) >= 2
    decreases e, 0, 0
  {
    hide Seg; hide WordsUpTo; hide WordsOf; hide Code; hide Address; hide TypeOf; hide IsLvalue; hide LoadTy;
    hide Eval; hide EvalAddr; hide PairCode; hide ShortCode; hide CondCode; hide OpCode; hide BumpCode; hide Depth;
    hide BinaryTy;
    UnfoldIndex(e, None, n, map[]);
    var ca := Code(e.a, None, n);
    var cb := Code(e.i, None, n + |ca| + 1);
    CodeSeg(e.a, None, n, d, w);
    CodeSeg(e.i, None, n + |ca| + 1, d + 1, w + WordsOf(ca) + 1);
    SegScaled(Type(e.a), ADD, n + |ca| + 1 + |cb|, d, w + WordsOf(ca) + 1 + WordsOf(cb));
    SegPair(ca, cb, ScaleCode(Type(e.a)) + [Bin(ADD)], n, d, w);
  }

  lemma {:induction false} IndexLoadSeg(e: Expr, over: Option<Ty>, n: nat, d: int, w: int)
    requires Good(e) && e.Index? && 0 <= d && 3 * d <= w
    ensures Seg(Code(e, over, n), n, d, d, w) && WordsOf(Code(e, over, n)) >= 2
    decreases e, 1
  {
    hide Seg; hide WordsUpTo; hide WordsOf; hide Code; hide Address; hide TypeOf; hide IsLvalue; hide LoadTy;
    hide Eval; hide EvalAddr; hide PairCode; hide ShortCode; hide CondCode; hide OpCode; hide BumpCode; hide Depth;
    hide BinaryTy;
    UnfoldIndex(e, over, n, map[]);
    IndexSeg(e, n, d, w);
    var c := Address(e, None, n);
    SegOne(LI(Over(over, Type(e))), n + |c|, d, w + WordsOf(c));
    SegCat(c, [LI(Over(over, Type(e)))], n, d, d, d, w);
  }

  lemma {:induction false} UnarySeg(e: Expr, over: Option<Ty>, n: nat, d: int, w: int)
    requires Good(e) && 0 <= d && 3 * d <= w && (e.Deref? || e.Not? || e.BitNot?)
    ensures Seg(Code(e, over, n), n, d, d, w) && WordsOf(Code(e, over, n)) >= 2
    decreases e, 1
  {
    hide Seg; hide WordsUpTo; hide WordsOf; hide Code; hide Address; hide TypeOf; hide IsLvalue; hide LoadTy;
    hide Eval; hide EvalAddr; hide PairCode; hide ShortCode; hide CondCode; hide OpCode; hide BumpCode; hide Depth;
    hide BinaryTy;
    var x := e.e;
    match e {
      case Deref(_) => UnfoldDeref(x, over, n, map[]);
      case Not(_) => UnfoldNot(x, over, n, map[]);
      case BitNot(_) => UnfoldBitNot(x, over, n, map[]);
    }
    var c := Code(x, None, n);
    CodeSeg(x, None, n, d, w);
    if e.Deref? {
      SegOne(LI(Over(over, Type(e))), n + |c|, d, w + WordsOf(c));
      SegCat(c, [LI(Over(over, Type(e)))], n, d, d, d, w);
    } else {
      var k, op := if e.Not? then 0 else TWO64 - 1, if e.Not? then EQ else XOR;
      SegConst(k, op, n + |c|, d, w + WordsOf(c));
      SegCat(c, [PSH, IMM(k), Bin(op)], n, d, d, d, w);
    }
  }

  lemma {:induction false} NegSeg(e: Expr, over: Option<Ty>, n: nat, d: int, w: int)
    requires Good(e) && 0 <= d && 3 * d <= w && e.Neg? && !e.e.Num?
    ensures Seg(Code(e, over, n), n, d, d, w) && WordsOf(Code(e, over, n)) >= 2
    decreases e, 1
  {
    hide Seg; hide WordsUpTo; hide WordsOf; hide Code; hide Address; hide TypeOf; hide IsLvalue; hide LoadTy;
    hide Eval; hide EvalAddr; hide PairCode; hide ShortCode; hide CondCode; hide OpCode; hide BumpCode; hide Depth;
    hide BinaryTy;
    UnfoldNeg(e.e, over, n, map[]);
    var im, c := [IMM(TWO64 - 1)], Code(e.e, None, n + 2);
    SegOne(im[0], n, d, w);
    CodeSeg(e.e, None, n + 2, d + 1, w + 3);
    SegOne(Bin(MUL), n + 2 + |c|, d + 1, w + 3 + WordsOf(c));
    SegPair(im, c, [Bin(MUL)], n, d, w);
    PairCodeIs(im, c, [Bin(MUL)]);
    assert im + [PSH] == [IMM(TWO64 - 1), PSH];
  }

  lemma {:induction false} IncSeg(e: Expr, over: Option<Ty>, n: nat, d: int, w: int)
    requires Good(e) && 0 <= d && 3 * d <= w && (e.PreInc? || e.PostInc?)
    ensures Seg(Code(e, over, n), n, d, d, w) && WordsOf(Code(e, over, n)) >= 2
    decreases e, 1
  {
    hide Seg; hide WordsUpTo; hide WordsOf; hide Code; hide Address; hide TypeOf; hide IsLvalue; hide LoadTy;
    hide Eval; hide EvalAddr; hide PairCode; hide ShortCode; hide CondCode; hide OpCode; hide BumpCode; hide Depth;
    hide BinaryTy;
    var x := e.e;
    if e.PreInc? { UnfoldPreInc(e.dec, x, over, n, map[]); } else { UnfoldPostInc(e.dec, x, over, n, map[]); }
    var c, b := Address(x, None, n), BumpCode(e.dec, x);
    AddressSeg(x, None, n, d, w);
    SegBump(e.dec, x, n + |c|, d, w + WordsOf(c));
    SegCat(c, b, n, d, d, d, w);
    if e.PostInc? {
      var k, op := IncBytes(Type(x)), if e.dec then ADD else SUB;
      SegConst(k, op, n + |c + b|, d, w + WordsOf(c + b));
      SegCat(c + b, [PSH, IMM(k), Bin(op)], n, d, d, d, w);
    }
  }

  lemma {:induction false} AssignSeg(e: Expr, over: Option<Ty>, n: nat, d: int, w: int)
    requires Good(e) && 0 <= d && 3 * d <= w && e.Assign?
    ensures Seg(Code(e, over, n), n, d, d, w) && WordsOf(Code(e, over, n)) >= 2
    decreases e, 1
  {
    hide Seg; hide WordsUpTo; hide WordsOf; hide Code; hide Address; hide TypeOf; hide IsLvalue; hide LoadTy;
    hide Eval; hide EvalAddr; hide PairCode; hide ShortCode; hide CondCode; hide OpCode; hide BumpCode; hide Depth;
    hide BinaryTy;
    UnfoldAssign(e.l, e.r, over, n, map[]);
    var ca := Address(e.l, None, n);
    var cb := Code(e.r, None, n + |ca| + 1);
    var si := SI(AccessTy(Type(e.l)));
    AddressSeg(e.l, None, n, d, w);
    CodeSeg(e.r, None, n + |ca| + 1, d + 1, w + WordsOf(ca) + 1);
    SegOne(si, n + |ca| + 1 + |cb|, d + 1, w + WordsOf(ca) + 1 + WordsOf(cb));
    SegPair(ca, cb, [si], n, d, w);
  }

  lemma {:induction false} BinarySeg(e: Expr, over: Option<Ty>, n: nat, d: int, w: int)
    requires Good(e) && 0 <= d && 3 * d <= w && e.Binary?
    ensures Seg(Code(e, over, n), n, d, d, w) && WordsOf(Code(e, over, n)) >= 2
    decreases e, 1
  {
    hide Seg; hide WordsUpTo; hide WordsOf; hide Code; hide Address; hide TypeOf; hide IsLvalue; hide LoadTy;
    hide Eval; hide EvalAddr; hide PairCode; hide ShortCode; hide CondCode; hide OpCode; hide BumpCode; hide Depth;
    hide BinaryTy;
    UnfoldBinary(e.op, e.a, e.b, over, n, map[]);
    var ca := Code(e.a, None, n);
    var cb := Code(e.b, None, n + |ca| + 1);
    CodeSeg(e.a, None, n, d, w);
    CodeSeg(e.b, None, n + |ca| + 1, d + 1, w + WordsOf(ca) + 1);
    SegOp(e.op, Type(e.a), Type(e.b), n + |ca| + 1 + |cb|, d, w + WordsOf(ca) + 1 + WordsOf(cb));
    SegPair(ca, cb, OpCode(e.op, Type(e.a), Type(e.b)), n, d, w);
  }

  lemma Balanced(c: seq<Instr>, n: nat, d: int, w: int)
    requires Seg(c, n, d, d, w)
    ensures Depth(c, |c|) == 0
  {}

  lemma ShortPiece(lor: bool, ca: seq<Instr>, cb: seq<Instr>, n: nat, d: int, w: int)
    requires 0 <= d && 3 * d <= w
    requires Seg(ca, n, d, d, w) && Seg(cb, n + |ca| + 1, d, d, w + WordsOf(ca) + 2)
    ensures Seg(ShortCode(lor, n, ca, cb), n, d, d, w)
    ensures WordsOf(ShortCode(lor, n, ca, cb)) == WordsOf(ca) + 2 + WordsOf(cb)
  {
    hide Seg; hide WordsOf; hide Depth;
    var end := n + |ca| + |cb| + 1;
    var j := if lor then BNZ(end) else BZ(end);
    Balanced(cb, n + |ca| + 1, d, w + WordsOf(ca) + 2);
    SegSkip(j, cb, n + |ca|, d, w + WordsOf(ca));
    SegCat(ca, [j] + cb, n, d, d, d, w);
  }

  lemma {:induction false} ShortSeg(e: Expr, over: Option<Ty>, n: nat, d: int, w: int)
    requires Good(e) && 0 <= d && 3 * d <= w && (e.Lor? || e.Lan?)
    ensures Seg(Code(e, over, n), n, d, d, w) && WordsOf(Code(e, over, n)) >= 2
    decreases e, 1
  {
    hide Seg; hide WordsUpTo; hide WordsOf; hide Code; hide Address; hide TypeOf; hide IsLvalue; hide LoadTy;
    hide Eval; hide EvalAddr; hide PairCode; hide ShortCode; hide CondCode; hide OpCode; hide BumpCode; hide Depth;
    hide BinaryTy;
    if e.Lor? { UnfoldLor(e.a, e.b, over, n, map[]); } else { UnfoldLan(e.a, e.b, over, n, map[]); }
    var ca := Code(e.a, None, n);
    CodeSeg(e.a, None, n, d, w);
    CodeSeg(e.b, over, n + |ca| + 1, d, w + WordsOf(ca) + 2);
    ShortPiece(e.Lor?, ca, Code(e.b, over, n + |ca| + 1), n, d, w);
  }

  lemma CondPiece(cc: seq<Instr>, ca: seq<Instr>, cb: seq<Instr>, n: nat, d: int, w: int)
    requires 0 <= d && 3 * d <= w
    requires Seg(cc, n, d, d, w) && Seg(ca, n + |cc| + 1, d, d, w + WordsOf(cc) + 2)
    requires Seg(cb, n + |cc| + |ca| + 2, d, d, w + WordsOf(cc) + WordsOf(ca) + 4)
    ensures Seg(CondCode(n, cc, ca, cb), n, d, d, w)
    ensures WordsOf(CondCode(n, cc, ca, cb)) == WordsOf(cc) + WordsOf(ca) + WordsOf(cb) + 4
  {
    hide Seg; hide WordsOf; hide Depth;
    var els := n + |cc| + |ca| + 2;
    var jmp := [JMP(els + |cb|)];
    var wa := w + WordsOf(cc) + 2;
    Balanced(cb, els, d, wa + WordsOf(ca) + 2);
    SegSkip(jmp[0], cb, els - 1, d, wa + WordsOf(ca));
    SegCat(ca, jmp + cb, n + |cc| + 1, d, d, d, wa);
    Balanced(ca, n + |cc| + 1, d, wa);
    OneJump(jmp[0]);
    CatLeft(jmp, cb, 1);
    CatRight(ca, jmp + cb, 1);
    SegSkip(BZ(els), ca + (jmp + cb), n + |cc|, d, w + WordsOf(cc));
    SegCat(cc, [BZ(els)] + (ca + (jmp + cb)), n, d, d, d, w);
  }

  lemma {:induction false} CondSeg(e: Expr, over: Option<Ty>, n: nat, d: int, w: int)
    requires Good(e) && 0 <= d && 3 * d <= w && e.Cond?
    ensures Seg(Code(e, over, n), n, d, d, w) && WordsOf(Code(e, over, n)) >= 2
    decreases e, 1
  {
    hide Seg; hide WordsUpTo; hide WordsOf; hide Code; hide Address; hide TypeOf; hide IsLvalue; hide LoadTy;
    hide Eval; hide EvalAddr; hide PairCode; hide ShortCode; hide CondCode; hide OpCode; hide BumpCode; hide Depth;
    hide BinaryTy;
    UnfoldCond(e.c, e.a, e.b, over, n, map[]);
    var cc := Code(e.c, None, n);
    var ca := Code(e.a, None, n + |cc| + 1);
    CodeSeg(e.c, None, n, d, w);
    CodeSeg(e.a, None, n + |cc| + 1, d, w + WordsOf(cc) + 2);
    CodeSeg(e.b, over, n + |cc| + |ca| + 2, d, w + WordsOf(cc) + WordsOf(ca) + 4);
    CondPiece(cc, ca, Code(e.b, over, n + |cc| + |ca| + 2), n, d, w);
  }
}
