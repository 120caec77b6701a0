/** Tokens to trees without any code, and the proof that the one-pass compiler does with any tokens what
    it does with their tree. */
module TreeParse {
  import opened Words
  import opened Vm
  import opened Syntax
  import opened Compile
  import opened Parse
  import opened Trees
  import opened TreeShape
  import opened Endings
  import E = Encoding

  /** A tree and the position behind it. */
  datatype Got = Got(e: Expr, pos: nat) | Bad

  function TreeClimb(toks: seq<Tok>, i: nat, lev: nat): (r: Got)
    requires i <= |toks| && ASSIGN <= lev
    ensures r.Got? ==> i < r.pos <= |toks|
    decreases |toks| - i, 2
  {
    var r := TreePrefix(toks, i);
    if r.Bad? then Bad else TreeOperators(toks, r.e, r.pos, lev)
  }

  function TreePrefix(toks: seq<Tok>, i: nat): (r: Got)
    requires i <= |toks|
    ensures r.Got? ==> i < r.pos <= |toks|
    decreases |toks| - i, 1
  {
    match Peek(toks, i)
    case TNum(v) => Got(Num(v), i + 1)
    case TStr(a) => Got(StrLit(a), SkipStrings(toks, i + 1))
    case TSizeof =>
      if !Peek(toks, i + 1).TLParen? || !Peek(toks, i + 2).TType? then Bad
      else var (t, j) := TypeName(toks, i + 2); if !Peek(toks, j).TRParen? then Bad else Got(SizeOf(t), j + 1)
    case TVar(a, ty, isArray) => if Peek(toks, i + 1).TLParen? then Bad else Got(Var(a, ty, isArray), i + 1)
    case TLParen =>
      if Peek(toks, i + 1).TType? then
        var (t, j) := TypeName(toks, i + 1);
        if !Peek(toks, j).TRParen? then Bad
        else var r := TreeClimb(toks, j + 1, INC); if r.Bad? then Bad else Got(Cast(t, r.e), r.pos)
      else
        var r := TreeClimb(toks, i + 1, ASSIGN);
        if r.Bad? || !Peek(toks, r.pos).TRParen? then Bad else Got(r.e, r.pos + 1)
    case TBin(Mul) => var r := TreeClimb(toks, i + 1, INC); if r.Bad? then Bad else Got(Deref(r.e), r.pos)
    case TBin(And) => var r := TreeClimb(toks, i + 1, INC); if r.Bad? then Bad else Got(AddrOf(r.e), r.pos)
    case TBang => var r := TreeClimb(toks, i + 1, INC); if r.Bad? then Bad else Got(Not(r.e), r.pos)
    case TBin(Match) => var r := TreeClimb(toks, i + 1, INC); if r.Bad? then Bad else Got(BitNot(r.e), r.pos)
    case TBin(Add) => var r := TreeClimb(toks, i + 1, INC); if r.Bad? then Bad else Got(Plus(r.e), r.pos)
    case TBin(Sub) =>
      if Peek(toks, i + 1).TNum? then Got(Neg(Num(toks[i + 1].v)), i + 2)
      else var r := TreeClimb(toks, i + 1, INC); if r.Bad? then Bad else Got(Negated(r.e), r.pos)
    case TInc => var r := TreeClimb(toks, i + 1, INC); if r.Bad? then Bad else Got(PreInc(false, r.e), r.pos)
    case TDec => var r := TreeClimb(toks, i + 1, INC); if r.Bad? then Bad else Got(PreInc(true, r.e), r.pos)
    case _ => Bad
  }

  /** `-(5)` is a product and `-5` a constant. */
  function Negated(e: Expr): Expr { Neg(if e.Num? then Plus(e) else e) }

  function TreeOperators(toks: seq<Tok>, e: Expr, i: nat, lev: nat): (r: Got)
    requires i <= |toks| && ASSIGN <= lev
    ensures r.Got? ==> i <= r.pos <= |toks|
    decreases |toks| - i, 0
  {
    if Level(Peek(toks, i)) < lev then Got(e, i)
    else var r := TreeOperator(toks, e, i); if r.Bad? then Bad else TreeOperators(toks, r.e, r.pos, lev)
  }

  function TreeOperator(toks: seq<Tok>, e: Expr, i: nat): (r: Got)
    requires i < |toks|
    ensures r.Got? ==> i < r.pos <= |toks|
    decreases |toks| - i, 0, 0
  {
    match toks[i]
    case TAssign => var r := TreeClimb(toks, i + 1, ASSIGN); if r.Bad? then Bad else Got(Assign(e, r.e), r.pos)
    case TCond =>
      var r := TreeClimb(toks, i + 1, ASSIGN);
      if r.Bad? || !Peek(toks, r.pos).TColon? then Bad
      else var q := TreeClimb(toks, r.pos + 1, COND); if q.Bad? then Bad else Got(Cond(e, r.e, q.e), q.pos)
    case TLor => var r := TreeClimb(toks, i + 1, LAN); if r.Bad? then Bad else Got(Lor(e, r.e), r.pos)
    case TLan => var r := TreeClimb(toks, i + 1, 140); if r.Bad? then Bad else Got(Lan(e, r.e), r.pos)
    case TBin(op) =>
      var r := TreeClimb(toks, i + 1, RightOf(op)); if r.Bad? then Bad else Got(Binary(op, e, r.e), r.pos)
    case TBrak =>
      var r := TreeClimb(toks, i + 1, ASSIGN);
      if r.Bad? || !Peek(toks, r.pos).TRBrack? then Bad else Got(Index(e, r.e), r.pos + 1)
    case TInc => Got(PostInc(false, e), i + 1)
    case TDec => Got(PostInc(true, e), i + 1)
    case _ => Bad
  }

  // ----- code in place -----

  /** Code made for a tree, behind the code before it. */
  function Put(code: seq<Instr>, j: nat, m: Made): Parsed {
    match m
    case Failed(w) => Fault(w)
    case Made(c, ty) => Done(PS(j, code + c, ty))
  }

  /** The compiler does with the tokens what it does with their tree. */
  ghost predicate Agrees(p: Parsed, code: seq<Instr>, g: Got) {
    match g
    case Bad => p.Fault?
    case Got(e, j) => p == Put(code, j, Emit(e, |code|))
  }

  lemma RangeOne(code: seq<Instr>, x: Instr)
    requires E.InRange(code) && (x.IsJump() ==> x.Target() <= |code| + 1)
    ensures E.InRange(code + [x])
  {}

  lemma RangeCat(code: seq<Instr>, c: seq<Instr>)
    requires E.InRange(code) && Within(c, |code|)
    ensures E.InRange(code + c)
  {
    var p := code + c;
    forall i | 0 <= i < |p| && p[i].IsJump() ensures p[i].Target() <= |p| {
      if i < |code| { assert p[i] == code[i]; } else { assert p[i] == c[i - |code|]; }
    }
  }

  lemma RangeMade(code: seq<Instr>, e: Expr)
    requires E.InRange(code) && Emit(e, |code|).Made?
    ensures E.InRange(code + Emit(e, |code|).code)
  {
    hide Emit;
    EmitWithin(e, |code|);
    RangeCat(code, Emit(e, |code|).code);
  }

  /** The tests on the whole buffer are tests on the code of the expression. */
  lemma Whole(code: seq<Instr>, c: seq<Instr>, t: Ty)
    requires E.InRange(code) && |c| >= 1 && c[0].IMM?
    ensures E.EndsInLoad(code + c) == E.EndsInLoad(c) && E.LooksLikeLoad(code + c) == E.LooksLikeLoad(c)
    ensures E.Undoable(code + c) == Undoable(c, |code|) && NoLoad(code + c) == NoLoad(c)
    ensures E.Spoilt(code + c, t) == E.Spoilt(c, t) && E.Retyped(code + c, t) == code + E.Retyped(c, t)
    ensures E.Front(code + c) == code + E.Front(c)
  {
    var p := code + c;
    assert p[|p| - 1] == c[|c| - 1];
    if |c| >= 2 { assert p[|p| - 2] == c[|c| - 2]; }
    WholeLands(code, c);
  }

  lemma WholeLands(code: seq<Instr>, c: seq<Instr>)
    requires E.InRange(code) && c != []
    ensures E.Landed(code + c) == Lands(c, |code|)
  {
    var p := code + c;
    if i :| 0 <= i < |p| && p[i].IsJump() && p[i].Target() == |p| {
      assert i >= |code|;
      assert c[i - |code|] == p[i];
    }
    if i :| 0 <= i < |c| && c[i].IsJump() && c[i].Target() == |code| + |c| { assert p[|code| + i] == c[i]; }
  }

  lemma WholeBump(code: seq<Instr>, c: seq<Instr>, ty: Ty, dec: bool, co: seq<Instr>)
    requires E.EndsInLoad(c) && E.EndsInLoad(code + c) && E.Front(code + c) == code + E.Front(c)
    ensures BumpTail(code + c, ty, dec) == code + BumpTail(c, ty, dec)
    ensures BumpTail(code + c, ty, dec) + co == code + (BumpTail(c, ty, dec) + co)
  {
    assert (code + c)[|code + c| - 1] == c[|c| - 1];
  }

  lemma PairAppend(code: seq<Instr>, ca: seq<Instr>, cb: seq<Instr>, co: seq<Instr>)
    ensures code + ca + [PSH] + cb + co == code + PairCode(ca, cb, co)
    ensures |code + ca + [PSH]| == |code| + |ca| + 1
  {}

  lemma ShortAppend(lor: bool, code: seq<Instr>, ca: seq<Instr>, cb: seq<Instr>)
    ensures var r := code + ca + [if lor then BNZ(0) else BZ(0)] + cb;
            r[|code + ca| := if lor then BNZ(|r|) else BZ(|r|)] == code + ShortCode(lor, |code|, ca, cb)
    ensures |code + ca + [if lor then BNZ(0) else BZ(0)]| == |code| + |ca| + 1
  {}

  lemma CondThen(code: seq<Instr>, cc: seq<Instr>, ca: seq<Instr>)
    ensures |code + cc + [BZ(0)]| == |code| + |cc| + 1
    ensures var r := code + cc + [BZ(0)] + ca;
            r[|code + cc| := BZ(|r| + 1)] == code + cc + [BZ(|code| + |cc| + |ca| + 2)] + ca
    ensures |code + cc + [BZ(0)] + ca| == |code| + |cc| + 1 + |ca|
  {}

  lemma CondElse(code: seq<Instr>, cc: seq<Instr>, ca: seq<Instr>, cb: seq<Instr>)
    ensures var els := |code| + |cc| + |ca| + 2;
            var thn := code + cc + [BZ(els)] + ca;
            var r := thn + [JMP(0)] + cb;
            r[|thn| := JMP(|r|)] == code + CondCode(|code|, cc, ca, cb)
  {
    var els := |code| + |cc| + |ca| + 2;
    assert CondCode(|code|, cc, ca, cb) == cc + [BZ(els)] + ca + [JMP(els + |cb|)] + cb;
  }

  lemma Assoc(a: seq<Instr>, b: seq<Instr>, c: seq<Instr>)
    ensures a + b + c == a + (b + c)
  {}

  // ----- any tokens -----

  /** `expr(lev)` on any tokens. */
  lemma {:induction false} ClimbEmits(toks: seq<Tok>, s: PS, lev: nat)
    requires s.pos <= |toks| && ASSIGN <= lev && E.InRange(s.code)
    ensures Agrees(Climb(toks, s, lev), s.code, TreeClimb(toks, s.pos, lev))
    decreases |toks| - s.pos, 4
  {
    hide Prefix; hide Operators; hide TreePrefix; hide TreeOperators; hide Emit; hide E.InRange;
    PrefixEmits(toks, s);
    var g := TreePrefix(toks, s.pos);
    if g.Got? {
      var m := Emit(g.e, |s.code|);
      if m.Made? {
        OperatorsEmit(toks, s.code, g.e, PS(g.pos, s.code + m.code, m.ty), lev);
      } else {
        LeftFails(toks, g.e, g.pos, lev, |s.code|);
      }
    }
  }

  /** A left operand that cannot be compiled decides. */
  lemma {:induction false} LeftFails(toks: seq<Tok>, e: Expr, i: nat, lev: nat, n: nat)
    requires i <= |toks| && ASSIGN <= lev && Emit(e, n).Failed?
    ensures var g := TreeOperators(toks, e, i, lev); g.Got? ==> Emit(g.e, n) == Emit(e, n)
    decreases |toks| - i
  {
    hide TreeOperator; hide Emit;
    if Level(Peek(toks, i)) >= lev {
      LeftFailsOne(toks, e, i, n);
      var g := TreeOperator(toks, e, i);
      if g.Got? { LeftFails(toks, g.e, g.pos, lev, n); }
    }
  }

  lemma LeftFailsOne(toks: seq<Tok>, e: Expr, i: nat, n: nat)
    requires i < |toks| && Emit(e, n).Failed?
    ensures var g := TreeOperator(toks, e, i); g.Got? ==> Emit(g.e, n) == Emit(e, n)
  {
    hide TreeClimb;
  }

  lemma {:induction false} OperatorsEmit(toks: seq<Tok>, base: seq<Instr>, e: Expr, s: PS, lev: nat)
    requires s.pos <= |toks| && ASSIGN <= lev && E.InRange(base) && Emit(e, |base|).Made?
    requires s.code == base + Emit(e, |base|).code && s.ty == Emit(e, |base|).ty
    ensures Agrees(Operators(toks, s, lev, |base|), base, TreeOperators(toks, e, s.pos, lev))
    decreases |toks| - s.pos, 2
  {
    hide Operator; hide TreeOperator; hide Emit; hide E.InRange;
    if Level(Peek(toks, s.pos)) >= lev {
      OperatorEmits(toks, base, e, s);
      var g := TreeOperator(toks, e, s.pos);
      if g.Got? {
        var m := Emit(g.e, |base|);
        if m.Made? {
          OperatorsEmit(toks, base, g.e, PS(g.pos, base + m.code, m.ty), lev);
        } else {
          LeftFails(toks, g.e, g.pos, lev, |base|);
        }
      }
    }
  }

  lemma {:induction false} PrefixEmits(toks: seq<Tok>, s: PS)
    requires s.pos <= |toks| && E.InRange(s.code)
    ensures Agrees(Prefix(toks, s), s.code, TreePrefix(toks, s.pos))
    decreases |toks| - s.pos, 3
  {
    hide Emit; hide Climb; hide TreeClimb; hide Prefix; hide TreePrefix;
    match Peek(toks, s.pos)
    case TLParen => ParenEmits(toks, s);
    case TBin(op) => if op.And? || op.Mul? { PointerEmits(toks, s, op); } else { SignEmits(toks, s, op); }
    case TBang => BangEmits(toks, s);
    case TInc => IncEmits(toks, s);
    case TDec => IncEmits(toks, s);
    case _ => LeafEmits(toks, s);
  }

  lemma LeafEmits(toks: seq<Tok>, s: PS)
    requires s.pos <= |toks|
    requires var t := Peek(toks, s.pos); !t.TLParen? && !t.TBin? && !t.TBang? && !t.TInc? && !t.TDec?
    ensures Agrees(Prefix(toks, s), s.code, TreePrefix(toks, s.pos))
  {
    hide Climb; hide TreeClimb; hide TypeName;
  }

  lemma {:induction false} ParenEmits(toks: seq<Tok>, s: PS)
    requires s.pos < |toks| && toks[s.pos].TLParen? && E.InRange(s.code)
    ensures Agrees(Prefix(toks, s), s.code, TreePrefix(toks, s.pos))
    decreases |toks| - s.pos, 2
  {
    hide Climb; hide TreeClimb; hide TypeName; hide E.InRange; hide E.Spoilt; hide E.Retyped;
    if Peek(toks, s.pos + 1).TType? {
      var (t, j) := TypeName(toks, s.pos + 1);
      if Peek(toks, j).TRParen? {
        ClimbEmits(toks, s.(pos := j + 1), INC);
        var r := TreeClimb(toks, j + 1, INC);
        if r.Got? && Emit(r.e, |s.code|).Made? { Whole(s.code, Emit(r.e, |s.code|).code, AccessTy(t)); }
      }
    } else {
      ClimbEmits(toks, s.(pos := s.pos + 1), ASSIGN);
    }
  }

  lemma {:induction false} PointerEmits(toks: seq<Tok>, s: PS, op: BinOp)
    requires s.pos < |toks| && toks[s.pos] == TBin(op) && (op.Mul? || op.And?) && E.InRange(s.code)
    ensures Agrees(Prefix(toks, s), s.code, TreePrefix(toks, s.pos))
    decreases |toks| - s.pos, 2
  {
    hide Climb; hide TreeClimb; hide TypeName; hide E.InRange; hide E.Undoable; hide Lands;
    ClimbEmits(toks, s.(pos := s.pos + 1), INC);
    var r := TreeClimb(toks, s.pos + 1, INC);
    if r.Got? && Emit(r.e, |s.code|).Made? {
      var m := Emit(r.e, |s.code|);
      if op.And? {
        Whole(s.code, m.code, INT_TY);
      } else if m.ty.ptr > 0 {
        Assoc(s.code, m.code, [LI(AccessTy(m.ty.(ptr := m.ty.ptr - 1)))]);
      }
    }
  }

  lemma {:induction false} BangEmits(toks: seq<Tok>, s: PS)
    requires s.pos < |toks| && toks[s.pos].TBang? && E.InRange(s.code)
    ensures Agrees(Prefix(toks, s), s.code, TreePrefix(toks, s.pos))
    decreases |toks| - s.pos, 2
  {
    hide Climb; hide TreeClimb; hide TypeName; hide E.InRange;
    ClimbEmits(toks, s.(pos := s.pos + 1), INC);
    var r := TreeClimb(toks, s.pos + 1, INC);
    if r.Got? && Emit(r.e, |s.code|).Made? { Assoc(s.code, Emit(r.e, |s.code|).code, [PSH, IMM(0), Bin(EQ)]); }
  }

  lemma {:induction false} SignEmits(toks: seq<Tok>, s: PS, op: BinOp)
    requires s.pos < |toks| && toks[s.pos] == TBin(op) && !op.Mul? && !op.And? && E.InRange(s.code)
    ensures Agrees(Prefix(toks, s), s.code, TreePrefix(toks, s.pos))
    decreases |toks| - s.pos, 2
  {
    hide Climb; hide TreeClimb; hide TypeName; hide E.InRange;
    if op.Sub? {
      MinusEmits(toks, s);
    } else if op.Match? || op.Add? {
      ClimbEmits(toks, s.(pos := s.pos + 1), INC);
      var r := TreeClimb(toks, s.pos + 1, INC);
      if r.Got? && Emit(r.e, |s.code|).Made? {
        var m := Emit(r.e, |s.code|);
        ThenNone(m);
        Assoc(s.code, m.code, [PSH, IMM(TWO64 - 1), Bin(XOR)]);
      }
    }
  }

  lemma {:induction false} MinusEmits(toks: seq<Tok>, s: PS)
    requires s.pos < |toks| && toks[s.pos] == TBin(Sub) && E.InRange(s.code)
    ensures Agrees(Prefix(toks, s), s.code, TreePrefix(toks, s.pos))
    decreases |toks| - s.pos, 1
  {
    hide Climb; hide TreeClimb; hide TypeName; hide E.InRange; hide Emit; hide PairCode;
    if Peek(toks, s.pos + 1).TNum? {
      NegNumber(toks[s.pos + 1].v, |s.code|);
    } else {
      var n := PS(s.pos + 1, s.code + [IMM(TWO64 - 1), PSH], s.ty);
      assert n.code == s.code + [IMM(TWO64 - 1)] + [PSH];
      RangeOne(s.code, IMM(TWO64 - 1));
      RangeOne(s.code + [IMM(TWO64 - 1)], PSH);
      ClimbEmits(toks, n, INC);
      var r := TreeClimb(toks, s.pos + 1, INC);
      if r.Got? {
        NegatedIs(r.e, |s.code|);
        var m := Emit(r.e, |s.code| + 2);
        if m.Made? { PairAppend(s.code, [IMM(TWO64 - 1)], m.code, [Bin(MUL)]); }
      }
    }
  }

  lemma NegNumber(v: Word, n: nat)
    ensures Emit(Neg(Num(v)), n) == Made([IMM(Wrap(-(v as int)))], INT_TY)
  {}

  lemma NegatedIs(x: Expr, n: nat)
    ensures Emit(Negated(x), n) ==
            var r := Emit(x, n + 2);
            if r.Failed? then r else Made(PairCode([IMM(TWO64 - 1)], r.code, [Bin(MUL)]), INT_TY)
  {
    hide PairCode;
    if x.Num? {
      EmitNeg(Plus(x), n);
      ThenNone(Emit(x, n + 2));
    } else {
      EmitNeg(x, n);
    }
  }

  lemma {:induction false} IncEmits(toks: seq<Tok>, s: PS)
    requires s.pos < |toks| && (toks[s.pos].TInc? || toks[s.pos].TDec?) && E.InRange(s.code)
    ensures Agrees(Prefix(toks, s), s.code, TreePrefix(toks, s.pos))
    decreases |toks| - s.pos, 2
  {
    hide Climb; hide TreeClimb; hide TypeName; hide E.InRange; hide E.Landed; hide Lands; hide BumpTail;
    ClimbEmits(toks, s.(pos := s.pos + 1), INC);
    var r := TreeClimb(toks, s.pos + 1, INC);
    if r.Got? && Emit(r.e, |s.code|).Made? {
      var m := Emit(r.e, |s.code|);
      Whole(s.code, m.code, INT_TY);
      if Undoable(m.code, |s.code|) {
        WholeBump(s.code, m.code, m.ty, toks[s.pos].TDec?, []);
        assert BumpTail(m.code, m.ty, toks[s.pos].TDec?) + [] == BumpTail(m.code, m.ty, toks[s.pos].TDec?);
      }
    }
  }

  // ----- operators -----

  lemma {:induction false} OperatorEmits(toks: seq<Tok>, base: seq<Instr>, e: Expr, s: PS)
    requires s.pos < |toks| && E.InRange(base) && Emit(e, |base|).Made?
    requires s.code == base + Emit(e, |base|).code && s.ty == Emit(e, |base|).ty
    ensures Agrees(Operator(toks, s, |base|), base, TreeOperator(toks, e, s.pos))
    decreases |toks| - s.pos, 1
  {
    hide Emit; hide Climb; hide TreeClimb; hide E.InRange; hide OpCode; hide BumpTail; hide ScaleCode;
    RangeMade(base, e);
    match toks[s.pos]
    case TAssign => AssignEmits(toks, base, e, s);
    case TCond => CondEmits(toks, base, e, s);
    case TLor => ShortEmits(toks, base, e, s);
    case TLan => ShortEmits(toks, base, e, s);
    case TBin(op) => BinaryEmits(toks, base, e, s, op);
    case TBrak => IndexEmits(toks, base, e, s);
    case TInc => PostIncEmits(toks, base, e, s);
    case TDec => PostIncEmits(toks, base, e, s);
    case _ =>
  }

  lemma {:induction false} AssignEmits(toks: seq<Tok>, base: seq<Instr>, e: Expr, s: PS)
    requires s.pos < |toks| && toks[s.pos].TAssign? && E.InRange(base) && Emit(e, |base|).Made?
    requires s.code == base + Emit(e, |base|).code && s.ty == Emit(e, |base|).ty
    ensures Agrees(Operator(toks, s, |base|), base, TreeOperator(toks, e, s.pos))
    decreases |toks| - s.pos, 0
  {
    hide Emit; hide Climb; hide TreeClimb; hide E.InRange; hide OpCode; hide BumpTail; hide ScaleCode; hide PairCode;
    hide E.Undoable; hide Lands;
    var n, p := |base|, Emit(e, |base|);
    Whole(base, p.code, INT_TY);
    var r := TreeClimb(toks, s.pos + 1, ASSIGN);
    if r.Got? { EmitAssign(e, r.e, n); }
    if Undoable(p.code, n) {
      var f := E.Front(p.code);
      EmitWithin(e, n);
      FrontWithin(p.code, n);
      RangeCat(base, f);
      RangeOne(base + f, PSH);
      ClimbEmits(toks, PS(s.pos + 1, base + f + [PSH], s.ty), ASSIGN);
      if r.Got? {
        var q := Emit(r.e, n + |p.code|);
        if q.Made? { PairAppend(base, f, q.code, [SI(AccessTy(p.ty))]); }
      }
    }
  }

  lemma {:induction false} ShortEmits(toks: seq<Tok>, base: seq<Instr>, e: Expr, s: PS)
    requires s.pos < |toks| && (toks[s.pos].TLor? || toks[s.pos].TLan?) && E.InRange(s.code) && Emit(e, |base|).Made?
    requires s.code == base + Emit(e, |base|).code && s.ty == Emit(e, |base|).ty
    ensures Agrees(Operator(toks, s, |base|), base, TreeOperator(toks, e, s.pos))
    decreases |toks| - s.pos, 0
  {
    hide Emit; hide Climb; hide TreeClimb; hide E.InRange; hide OpCode; hide BumpTail; hide ScaleCode; hide ShortCode;
    var lor, p := toks[s.pos].TLor?, Emit(e, |base|);
    var j := if lor then BNZ(0) else BZ(0);
    RangeOne(s.code, j);
    ClimbEmits(toks, PS(s.pos + 1, s.code + [j], s.ty), if lor then LAN else 140);
    var r := TreeClimb(toks, s.pos + 1, if lor then LAN else 140);
    if r.Got? {
      EmitShort(if lor then Lor(e, r.e) else Lan(e, r.e), e, r.e, |base|);
      var q := Emit(r.e, |base| + |p.code| + 1);
      if q.Made? { ShortAppend(lor, base, p.code, q.code); }
    }
  }

  lemma {:induction false} BinaryEmits(toks: seq<Tok>, base: seq<Instr>, e: Expr, s: PS, op: BinOp)
    requires s.pos < |toks| && toks[s.pos] == TBin(op) && E.InRange(s.code) && Emit(e, |base|).Made?
    requires s.code == base + Emit(e, |base|).code && s.ty == Emit(e, |base|).ty
    ensures Agrees(Operator(toks, s, |base|), base, TreeOperator(toks, e, s.pos))
    decreases |toks| - s.pos, 0
  {
    hide Emit; hide Climb; hide TreeClimb; hide E.InRange; hide OpCode; hide BumpTail; hide ScaleCode; hide PairCode;
    hide BinaryTy;
    var p := Emit(e, |base|);
    RangeOne(s.code, PSH);
    ClimbEmits(toks, PS(s.pos + 1, s.code + [PSH], s.ty), RightOf(op));
    var r := TreeClimb(toks, s.pos + 1, RightOf(op));
    if r.Got? {
      EmitBinary(op, e, r.e, |base|);
      var q := Emit(r.e, |base| + |p.code| + 1);
      if q.Made? { PairAppend(base, p.code, q.code, OpCode(op, p.ty, q.ty)); }
    }
  }

  lemma {:induction false} IndexEmits(toks: seq<Tok>, base: seq<Instr>, e: Expr, s: PS)
    requires s.pos < |toks| && toks[s.pos].TBrak? && E.InRange(s.code) && Emit(e, |base|).Made?
    requires s.code == base + Emit(e, |base|).code && s.ty == Emit(e, |base|).ty
    ensures Agrees(Operator(toks, s, |base|), base, TreeOperator(toks, e, s.pos))
    decreases |toks| - s.pos, 0
  {
    hide Emit; hide Climb; hide TreeClimb; hide E.InRange; hide OpCode; hide BumpTail; hide ScaleCode; hide PairCode;
    var p := Emit(e, |base|);
    RangeOne(s.code, PSH);
    ClimbEmits(toks, PS(s.pos + 1, s.code + [PSH], s.ty), ASSIGN);
    var r := TreeClimb(toks, s.pos + 1, ASSIGN);
    if r.Got? {
      EmitIndex(e, r.e, |base|);
      var q := Emit(r.e, |base| + |p.code| + 1);
      if q.Made? && p.ty.ptr > 0 { IndexAppend(base, p, q); }
    }
  }

  lemma IndexAppend(base: seq<Instr>, p: Made, q: Made)
    requires p.Made? && q.Made? && p.ty.ptr > 0
    ensures base + p.code + [PSH] + q.code + ScaleCode(p.ty) + [Bin(ADD), LI(AccessTy(Indexed(p, q).ty))] ==
            base + Indexed(p, q).code
  {
    hide ScaleCode;
    var sc, li := ScaleCode(p.ty), LI(AccessTy(Indexed(p, q).ty));
    PairAppend(base, p.code, q.code, sc + [Bin(ADD)]);
    assert [Bin(ADD), li] == [Bin(ADD)] + [li];
  }

  lemma OperatorCond(toks: seq<Tok>, s: PS, b: nat)
    requires s.pos < |toks| && toks[s.pos].TCond? && Started(s.code, b)
    ensures Operator(toks, s, b) ==
            var r := Climb(toks, PS(s.pos + 1, s.code + [BZ(0)], s.ty), ASSIGN);
            if r.Fault? then r
            else if !Peek(toks, r.s.pos).TColon? then Fault(SyntaxError)
            else
              var thn := r.s.code[|s.code| := BZ(|r.s.code| + 1)];
              var q := Climb(toks, PS(r.s.pos + 1, thn + [JMP(0)], r.s.ty), COND);
              if q.Fault? then q else Done(q.s.(code := q.s.code[|thn| := JMP(|q.s.code|)]))
  {
    hide Climb; hide OpCode; hide BumpTail; hide ScaleCode;
  }

  lemma {:induction false} CondEmits(toks: seq<Tok>, base: seq<Instr>, e: Expr, s: PS)
    requires s.pos < |toks| && toks[s.pos].TCond? && E.InRange(s.code) && Emit(e, |base|).Made?
    requires s.code == base + Emit(e, |base|).code && s.ty == Emit(e, |base|).ty
    ensures Agrees(Operator(toks, s, |base|), base, TreeOperator(toks, e, s.pos))
    decreases |toks| - s.pos, 0
  {
    hide Emit; hide Climb; hide TreeClimb; hide E.InRange; hide CondCode; hide Operator;
    var n, p := |base|, Emit(e, |base|);
    OperatorCond(toks, s, n);
    var s1 := PS(s.pos + 1, s.code + [BZ(0)], s.ty);
    RangeOne(s.code, BZ(0));
    ClimbEmits(toks, s1, ASSIGN);
    var r := TreeClimb(toks, s.pos + 1, ASSIGN);
    if r.Got? && Peek(toks, r.pos).TColon? {
      var q := Emit(r.e, n + |p.code| + 1);
      if q.Made? {
        CondThen(base, p.code, q.code);
        CondRange(base, e, r.e);
        var s2 := PS(r.pos + 1, base + p.code + [BZ(n + |p.code| + |q.code| + 2)] + q.code + [JMP(0)], q.ty);
        ClimbEmits(toks, s2, COND);
        var g := TreeClimb(toks, r.pos + 1, COND);
        if g.Got? {
          EmitCond(e, r.e, g.e, n);
          var m := Emit(g.e, n + |p.code| + |q.code| + 2);
          if m.Made? { CondElse(base, p.code, q.code, m.code); }
        }
      } else {
        CondFails(toks, r, e, n);
      }
    }
  }

  lemma CondFails(toks: seq<Tok>, r: Got, e: Expr, n: nat)
    requires r.Got? && r.pos < |toks| && Emit(e, n).Made? && Emit(r.e, n + |Emit(e, n).code| + 1).Failed?
    ensures var g := TreeClimb(toks, r.pos + 1, COND);
            g.Got? ==> Emit(Cond(e, r.e, g.e), n) == Emit(r.e, n + |Emit(e, n).code| + 1)
  {
    hide Emit; hide TreeClimb;
    var g := TreeClimb(toks, r.pos + 1, COND);
    if g.Got? { EmitCond(e, r.e, g.e, n); }
  }

  /** The buffer between the arms of `?:`, the first jump already patched. */
  lemma CondRange(base: seq<Instr>, e: Expr, a: Expr)
    requires Emit(e, |base|).Made? && E.InRange(base + Emit(e, |base|).code)
    requires Emit(a, |base| + |Emit(e, |base|).code| + 1).Made?
    ensures var cc := Emit(e, |base|).code;
            var ca := Emit(a, |base| + |cc| + 1).code;
            E.InRange(base + cc + [BZ(|base| + |cc| + |ca| + 2)] + ca + [JMP(0)])
  {
    hide Emit;
    var cc := Emit(e, |base|).code;
    var ca := Emit(a, |base| + |cc| + 1).code;
    EmitWithin(a, |base| + |cc| + 1);
    var p := base + cc + [BZ(|base| + |cc| + |ca| + 2)] + ca + [JMP(0)];
    forall i | 0 <= i < |p| && p[i].IsJump() ensures p[i].Target() <= |p| {
      if i < |base + cc| {
        assert p[i] == (base + cc)[i];
      } else if |base + cc| < i < |p| - 1 {
        assert p[i] == ca[i - |base + cc| - 1];
      }
    }
  }

  lemma {:induction false} PostIncEmits(toks: seq<Tok>, base: seq<Instr>, e: Expr, s: PS)
    requires s.pos < |toks| && (toks[s.pos].TInc? || toks[s.pos].TDec?) && E.InRange(base) && Emit(e, |base|).Made?
    requires s.code == base + Emit(e, |base|).code && s.ty == Emit(e, |base|).ty
    ensures Agrees(Operator(toks, s, |base|), base, TreeOperator(toks, e, s.pos))
  {
    hide Emit; hide Climb; hide TreeClimb; hide E.InRange; hide OpCode; hide BumpTail; hide ScaleCode;
    hide E.Landed; hide Lands;
    var p, dec := Emit(e, |base|), toks[s.pos].TDec?;
    Whole(base, p.code, INT_TY);
    EmitPostInc(dec, e, |base|);
    if Undoable(p.code, |base|) {
      WholeBump(base, p.code, p.ty, dec, [PSH, IMM(IncBytes(p.ty)), Bin(if dec then ADD else SUB)]);
    }
  }
}
