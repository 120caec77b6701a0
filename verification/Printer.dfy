/** Printing trees, any trees, with the parentheses that precedence requires and no others, and the proof that
    reading tokens as trees inverts it. The precedence is that of C, listed here for itself: nothing in it is taken
    from the levels the parser climbs through. */
module Printer {
  import opened Words
  import opened Syntax
  import opened Parse
  import opened TreeParse

  // ----- precedence: from the loosest to the tightest -----

  const ANY: nat := 0
  const COND_RANK: nat := 1
  const LOR_RANK: nat := 2
  const LAN_RANK: nat := 3
  const PREFIX: nat := 12
  const POSTFIX: nat := 13

  function OpRank(op: BinOp): nat {
    match op
    case Or => 4
    case Xor => 5
    case And => 6
    case Eq => 7 case Ne => 7
    case Lt => 8 case Gt => 8 case Le => 8 case Ge => 8 case Match => 8
    case Shl => 9 case Shr => 9
    case Add => 10 case Sub => 10
    case Mul => 11 case Div => 11 case Mod => 11
  }

  function Rank(e: Expr): nat {
    match e
    case Assign(_, _) => ANY
    case Cond(_, _, _) => COND_RANK
    case Lor(_, _) => LOR_RANK
    case Lan(_, _) => LAN_RANK
    case Binary(op, _, _) => OpRank(op)
    case Num(_) => POSTFIX
    case StrLit(_) => POSTFIX
    case SizeOf(_) => POSTFIX
    case Var(_, _, _) => POSTFIX
    case PostInc(_, _) => POSTFIX
    case Index(_, _) => POSTFIX
    case _ => PREFIX
  }

  function WidthKw(w: Width): Keyword {
    match w case CHAR => KChar case SHORT => KShort case INT => KInt case LONG => KLong
  }

  function StarToks(k: nat): seq<Tok> { seq(k, _ => TBin(Mul)) }

  function TypeToks(t: Ty): seq<Tok> {
    (if t.unsigned then [TType(KUnsigned)] else []) + [TType(WidthKw(t.width))] + StarToks(t.ptr)
  }

  /** The printed tree starts with a number. */
  predicate Leads(x: Expr) {
    match x case Num(_) => true case PostInc(_, y) => Leads(y) case Index(y, _) => Leads(y) case _ => false
  }

  /** A minus sign in front of a number belongs to the number, so a number with something behind it is put
      in parentheses. */
  function NegRank(x: Expr): nat { if Leads(x) && !x.Num? then POSTFIX + 1 else PREFIX }

  /** A tree in a place for rank `k` and above. */
  function Print(e: Expr, k: nat): (ts: seq<Tok>)
    ensures |ts| >= 1
    decreases e, 1
  {
    if Rank(e) < k then [TLParen] + Body(e) + [TRParen] else Body(e)
  }

  function Body(e: Expr): (ts: seq<Tok>)
    ensures |ts| >= 1
    decreases e, 0
  {
    match e
    case Num(v) => [TNum(v)]
    case StrLit(a) => [TStr(a)]
    case SizeOf(t) => [TSizeof, TLParen] + TypeToks(t) + [TRParen]
    case Var(a, ty, isArray) => [TVar(a, ty, isArray)]
    case Cast(t, x) => [TLParen] + TypeToks(t) + [TRParen] + Print(x, PREFIX)
    case Deref(x) => [TBin(Mul)] + Print(x, PREFIX)
    case AddrOf(x) => [TBin(And)] + Print(x, PREFIX)
    case Not(x) => [TBang] + Print(x, PREFIX)
    case BitNot(x) => [TBin(Match)] + Print(x, PREFIX)
    case Plus(x) => [TBin(Add)] + Print(x, PREFIX)
    case Neg(x) => [TBin(Sub)] + Print(x, NegRank(x))
    case PreInc(dec, x) => [if dec then TDec else TInc] + Print(x, PREFIX)
    case PostInc(dec, x) => Print(x, POSTFIX) + [if dec then TDec else TInc]
    case Assign(l, r) => Print(l, COND_RANK) + ([TAssign] + Print(r, ANY))
    case Cond(c, a, b) => Print(c, LOR_RANK) + ([TCond] + (Print(a, ANY) + ([TColon] + Print(b, COND_RANK))))
    case Lor(a, b) => Print(a, LOR_RANK) + ([TLor] + Print(b, LOR_RANK + 1))
    case Lan(a, b) => Print(a, LAN_RANK) + ([TLan] + Print(b, LAN_RANK + 1))
    case Binary(op, a, b) => Print(a, OpRank(op)) + ([TBin(op)] + Print(b, OpRank(op) + 1))
    case Index(a, i) => Print(a, POSTFIX) + ([TBrak] + (Print(i, ANY) + [TRBrack]))
  }

  // ----- tokens in place -----

  ghost predicate Here(toks: seq<Tok>, i: nat, ts: seq<Tok>) { i + |ts| <= |toks| && toks[i..i + |ts|] == ts }

  lemma HereSplit(toks: seq<Tok>, i: nat, ts: seq<Tok>, us: seq<Tok>)
    requires Here(toks, i, ts + us)
    ensures Here(toks, i, ts) && Here(toks, i + |ts|, us)
  {
    assert toks[i..i + |ts|] == (ts + us)[..|ts|];
    assert toks[i + |ts|..i + |ts| + |us|] == (ts + us)[|ts|..];
  }

  lemma HereAt(toks: seq<Tok>, i: nat, ts: seq<Tok>, k: nat)
    requires Here(toks, i, ts) && k < |ts|
    ensures i + k < |toks| && toks[i + k] == ts[k] && Peek(toks, i + k) == ts[k]
  {
    assert toks[i..i + |ts|][k] == toks[i + k];
  }

  /** A tree printed with its operator first and the rest after it. */
  lemma HereCons(toks: seq<Tok>, i: nat, t: Tok, ts: seq<Tok>)
    requires Here(toks, i, [t] + ts)
    ensures i < |toks| && toks[i] == t && Peek(toks, i) == t && Here(toks, i + 1, ts)
  {
    HereSplit(toks, i, [t], ts);
    HereAt(toks, i, [t], 0);
  }

  /** Tokens that may follow a tree: not a string (adjacent strings join) and not `(` (a call). */
  predicate Follow(t: Tok) { !t.TStr? && !t.TLParen? }

  // ----- type names -----

  lemma {:induction false} StarsOf(toks: seq<Tok>, i: nat, k: nat)
    requires Here(toks, i, StarToks(k)) && Peek(toks, i + k) != TBin(Mul)
    ensures Stars(toks, i) == k
    decreases k
  {
    if k > 0 {
      assert StarToks(k) == [TBin(Mul)] + StarToks(k - 1);
      HereCons(toks, i, TBin(Mul), StarToks(k - 1));
      StarsOf(toks, i + 1, k - 1);
    }
  }

  lemma TypeNameOf(toks: seq<Tok>, i: nat, t: Ty)
    requires Here(toks, i, TypeToks(t) + [TRParen])
    ensures i < |toks| && toks[i].TType? && TypeName(toks, i) == (t, i + |TypeToks(t)|)
    ensures Peek(toks, i + |TypeToks(t)|) == TRParen
  {
    var kw, st := TType(WidthKw(t.width)), StarToks(t.ptr);
    HereSplit(toks, i, TypeToks(t), [TRParen]);
    HereAt(toks, i + |TypeToks(t)|, [TRParen], 0);
    if t.unsigned {
      assert TypeToks(t) == [TType(KUnsigned)] + ([kw] + st);
      HereCons(toks, i, TType(KUnsigned), [kw] + st);
      HereCons(toks, i + 1, kw, st);
      StarsOf(toks, i + 2, t.ptr);
    } else {
      assert TypeToks(t) == [kw] + st;
      HereCons(toks, i, kw, st);
      StarsOf(toks, i + 1, t.ptr);
      if t.ptr > 0 { HereAt(toks, i + 1, st, 0); }
    }
  }

  lemma {:induction false} StarsAre(toks: seq<Tok>, i: nat)
    requires i <= |toks|
    ensures var j := i + Stars(toks, i);
            j <= |toks| && Peek(toks, j) != TBin(Mul) && forall k :: i <= k < j ==> toks[k] == TBin(Mul)
    decreases |toks| - i
  {
    if i < |toks| && toks[i] == TBin(Mul) { StarsAre(toks, i + 1); }
  }

  /** Any type name, also one that is never printed. The last keyword gives the width; `unsigned` alone is an `int`,
      but behind another keyword it is a `char`. It is unsigned if any keyword says so, and takes every star. */
  lemma TypeNameIs(toks: seq<Tok>, i: nat)
    requires i < |toks| && toks[i].TType?
    ensures var (t, j) := TypeName(toks, i);
            var two := Peek(toks, i + 1).TType?;
            var last := if two then toks[i + 1].kw else toks[i].kw;
            && (last.KUnsigned? ==> t.width == if two then CHAR else INT)
            && (!last.KUnsigned? ==> WidthKw(t.width) == last)
            && (t.unsigned <==> toks[i].kw.KUnsigned? || last.KUnsigned?)
            && j == i + t.ptr + (if two then 2 else 1) <= |toks| && Peek(toks, j) != TBin(Mul)
            && forall k :: j - t.ptr <= k < j ==> toks[k] == TBin(Mul)
  {
    hide Stars;
    StarsAre(toks, if Peek(toks, i + 1).TType? then i + 2 else i + 1);
  }

  // ----- ranks and levels -----

  /** The lowest level of the tokens of a rank. */
  function LevelOf(k: nat): nat {
    if k == ANY then ASSIGN else if k == COND_RANK then COND else if k == LOR_RANK then LOR
    else if k == LAN_RANK then LAN else if k == 4 then 140 else if k == 5 then 141 else if k == 6 then 142
    else if k == 7 then 143 else if k == 8 then 145 else if k == 9 then 150 else if k == 10 then 152
    else if k == 11 then 154 else if k == PREFIX then INC else 1000
  }

  /** Levels are in the order of ranks. */
  lemma LevelsOrdered(j: nat, k: nat)
    ensures j <= k ==> ASSIGN <= LevelOf(j) <= LevelOf(k)
    ensures j < k && j < POSTFIX ==> LevelOf(j) < LevelOf(k)
  {}

  /** An operator stands at or above the level of its rank, below that of the next, at which its right operand is
      read. */
  lemma OperatorLevel(op: BinOp)
    ensures LevelOf(OpRank(op)) <= OpLevel(op) < LevelOf(OpRank(op) + 1) == RightOf(op)
  {}

  // ----- the last operand -----

  /** The rank its last operand is printed for. */
  function LastRank(e: Expr): nat {
    match e
    case Lor(_, _) => LOR_RANK + 1
    case Lan(_, _) => LAN_RANK + 1
    case Binary(op, _, _) => OpRank(op) + 1
    case _ => Rank(e)
  }

  /** An operator below this level ends the tree; one at or above it would be taken into its last operand. */
  function Reach(e: Expr): nat { LevelOf(LastRank(e)) }

  lemma ReachAtLeast(e: Expr)
    ensures ASSIGN <= LevelOf(Rank(e)) <= Reach(e)
  {
    LevelsOrdered(Rank(e), LastRank(e));
  }

  lemma ClassBelow(op: BinOp, e: Expr)
    requires Rank(e) >= OpRank(op)
    ensures OpLevel(op) < Reach(e)
  {
    OperatorLevel(op);
    LevelsOrdered(OpRank(op) + 1, LastRank(e));
  }

  lemma LogicalBelow(a: Expr, left: nat)
    requires left == LOR_RANK || left == LAN_RANK
    ensures Rank(a) >= left ==> LevelOf(left) < Reach(a)
  {}

  lemma PostfixReach(e: Expr)
    ensures Rank(e) >= POSTFIX ==> Reach(e) == 1000
  {}

  /** The operator after a printed tree does not belong to its last operand. */
  ghost predicate Ended(toks: seq<Tok>, i: nat, e: Expr, k: nat) {
    Follow(Peek(toks, i)) && (Rank(e) >= k ==> Level(Peek(toks, i)) < Reach(e))
  }

  // ----- reading inverts printing -----

  /** Wherever a tree stands printed for rank `k`, reading at a level of at most that rank finds the
      tree and goes on with the operators behind it. */
  lemma {:induction false} Inverts(toks: seq<Tok>, i: nat, e: Expr, k: nat, lev: nat)
    requires ASSIGN <= lev <= LevelOf(k) && lev <= INC
    requires Here(toks, i, Print(e, k)) && Ended(toks, i + |Print(e, k)|, e, k)
    ensures TreeClimb(toks, i, lev) == TreeOperators(toks, e, i + |Print(e, k)|, lev)
    decreases e, 4
  {
    hide TreeClimb; hide TreePrefix; hide TreeOperators; hide Body;
    if Rank(e) < k {
      var ts := Body(e);
      assert Print(e, k) == [TLParen] + (ts + [TRParen]);
      HereCons(toks, i, TLParen, ts + [TRParen]);
      HereSplit(toks, i + 1, ts, [TRParen]);
      HereAt(toks, i + 1 + |ts|, [TRParen], 0);
      InvertsParen(toks, i, e, ts, lev);
    } else {
      LevelsOrdered(k, Rank(e));
      InvertsBody(toks, i, e, lev);
    }
  }

  lemma FirstToken(e: Expr, k: nat)
    ensures !Print(e, k)[0].TType? && !Body(e)[0].TType?
  {
    match e
    case PostInc(_, x) => FirstToken(x, POSTFIX);
    case Assign(l, _) => FirstToken(l, COND_RANK);
    case Cond(c, _, _) => FirstToken(c, LOR_RANK);
    case Lor(a, _) => FirstToken(a, LOR_RANK);
    case Lan(a, _) => FirstToken(a, LAN_RANK);
    case Binary(op, a, _) => FirstToken(a, OpRank(op));
    case Index(a, _) => FirstToken(a, POSTFIX);
    case _ =>
  }

  lemma FirstNumber(x: Expr)
    requires Rank(x) >= PREFIX && !Leads(x)
    ensures !Body(x)[0].TNum?
  {
    hide Body; hide Print;
    if x.PostInc? || x.Index? {
      var y := if x.PostInc? then x.e else x.a;
      FirstInside(x, y);
      if Rank(y) >= POSTFIX { FirstNumber(y); }
    } else {
      FirstOwn(x);
    }
  }

  lemma FirstInside(x: Expr, y: Expr)
    requires (x.PostInc? && y == x.e) || (x.Index? && y == x.a)
    ensures Body(x)[0] == if Rank(y) < POSTFIX then TLParen else Body(y)[0]
  {}

  lemma FirstOwn(x: Expr)
    requires Rank(x) >= PREFIX && !x.Num? && !x.PostInc? && !x.Index?
    ensures !Body(x)[0].TNum?
  {
    hide Print;
  }

  /** A minus sign in front of a printed tree does not meet a number. */
  lemma FirstNotNumber(x: Expr)
    requires !x.Num?
    ensures !Print(x, NegRank(x))[0].TNum?
  {
    hide Body;
    if Rank(x) >= PREFIX && !Leads(x) { FirstNumber(x); }
  }

  lemma {:induction false} InvertsParen(toks: seq<Tok>, i: nat, e: Expr, ts: seq<Tok>, lev: nat)
    requires i < |toks| && ASSIGN <= lev <= INC && ts == Body(e)
    requires toks[i] == TLParen && Here(toks, i + 1, ts) && Peek(toks, i + 1 + |ts|) == TRParen
    ensures TreeClimb(toks, i, lev) == TreeOperators(toks, e, i + |ts| + 2, lev)
    decreases e, 3
  {
    hide TreeOperators; hide TreeOperator; hide Body; hide Print; hide TreeClimb;
    HereAt(toks, i + 1, ts, 0);
    FirstToken(e, 0);
    ReachAtLeast(e);
    InvertsBody(toks, i + 1, e, ASSIGN);
    Stops(toks, e, i + 1 + |ts|, ASSIGN);
    PrefixThen(toks, i, lev);
  }

  lemma Stops(toks: seq<Tok>, e: Expr, i: nat, lev: nat)
    requires i <= |toks| && ASSIGN <= lev && Level(Peek(toks, i)) < lev
    ensures TreeOperators(toks, e, i, lev) == Got(e, i)
  {}

  lemma PrefixThen(toks: seq<Tok>, i: nat, lev: nat)
    requires i <= |toks| && ASSIGN <= lev
    ensures TreeClimb(toks, i, lev) ==
            var r := TreePrefix(toks, i); if r.Bad? then Bad else TreeOperators(toks, r.e, r.pos, lev)
  {
    hide TreePrefix; hide TreeOperators;
  }

  lemma OperatorThen(toks: seq<Tok>, e: Expr, i: nat, lev: nat)
    requires i < |toks| && ASSIGN <= lev && Level(toks[i]) >= lev
    ensures TreeOperators(toks, e, i, lev) ==
            var r := TreeOperator(toks, e, i); if r.Bad? then Bad else TreeOperators(toks, r.e, r.pos, lev)
  {
    hide TreeOperator;
  }

  /** An operand read at the level it was printed for, or below, up to a token below that level. */
  lemma {:induction false} Operand(toks: seq<Tok>, i: nat, e: Expr, k: nat, lev: nat)
    requires ASSIGN <= lev <= LevelOf(k) && lev <= INC && Here(toks, i, Print(e, k))
    requires var t := Peek(toks, i + |Print(e, k)|); Follow(t) && Level(t) < lev
    ensures TreeClimb(toks, i, lev) == Got(e, i + |Print(e, k)|)
    decreases e, 5
  {
    hide TreeClimb; hide TreeOperators; hide Print; hide Reach; hide Rank; hide LevelOf;
    ReachAtLeast(e);
    if Rank(e) >= k { LevelsOrdered(k, Rank(e)); }
    Inverts(toks, i, e, k, lev);
    Stops(toks, e, i + |Print(e, k)|, lev);
  }

  // ----- one case per kind of tree -----

  /** The token of a prefix operator. */
  function Sign(e: Expr): Tok
    requires e.Deref? || e.AddrOf? || e.Not? || e.BitNot? || e.Plus? || e.Neg? || e.PreInc?
  {
    match e
    case Deref(_) => TBin(Mul)
    case AddrOf(_) => TBin(And)
    case Not(_) => TBang
    case BitNot(_) => TBin(Match)
    case Plus(_) => TBin(Add)
    case Neg(_) => TBin(Sub)
    case PreInc(dec, _) => if dec then TDec else TInc
  }

  lemma {:induction false} InvertsUnary(toks: seq<Tok>, i: nat, e: Expr, lev: nat, k: nat)
    requires (e.Deref? || e.AddrOf? || e.Not? || e.BitNot? || e.Plus? || e.PreInc? || (e.Neg? && !e.e.Num?))
    requires k == (if e.Neg? then NegRank(e.e) else PREFIX) && ASSIGN <= lev <= INC
    requires Here(toks, i, [Sign(e)] + Print(e.e, k))
    requires var t := Peek(toks, i + 1 + |Print(e.e, k)|); Follow(t) && Level(t) < INC
    ensures TreeClimb(toks, i, lev) == TreeOperators(toks, e, i + 1 + |Print(e.e, k)|, lev)
    decreases e, 1
  {
    hide TreeClimb; hide TreeOperators; hide Print; hide Here; hide TypeName;
    HereCons(toks, i, Sign(e), Print(e.e, k));
    if e.Neg? {
      HereAt(toks, i + 1, Print(e.e, k), 0);
      FirstNotNumber(e.e);
    }
    Operand(toks, i + 1, e.e, k, INC);
    PrefixThen(toks, i, lev);
  }

  lemma {:induction false} InvertsCast(toks: seq<Tok>, i: nat, e: Expr, lev: nat)
    requires e.Cast? && ASSIGN <= lev <= INC
    requires Here(toks, i, [TLParen] + TypeToks(e.t) + [TRParen] + Print(e.e, PREFIX))
    requires var t := Peek(toks, i + 2 + |TypeToks(e.t)| + |Print(e.e, PREFIX)|); Follow(t) && Level(t) < INC
    ensures TreeClimb(toks, i, lev) == TreeOperators(toks, e, i + 2 + |TypeToks(e.t)| + |Print(e.e, PREFIX)|, lev)
    decreases e, 1
  {
    hide Here; hide TreeClimb; hide TreeOperators; hide Print; hide TypeToks; hide TypeName;
    var x, tt := e.e, TypeToks(e.t);
    assert [TLParen] + tt + [TRParen] + Print(x, PREFIX) == [TLParen] + ((tt + [TRParen]) + Print(x, PREFIX));
    HereCons(toks, i, TLParen, (tt + [TRParen]) + Print(x, PREFIX));
    HereSplit(toks, i + 1, tt + [TRParen], Print(x, PREFIX));
    TypeNameOf(toks, i + 1, e.t);
    Operand(toks, i + 2 + |tt|, x, PREFIX, INC);
    PrefixThen(toks, i, lev);
  }

  lemma InvertsLeaf(toks: seq<Tok>, i: nat, e: Expr, lev: nat)
    requires ASSIGN <= lev <= INC
    requires e.Num? || e.StrLit? || e.SizeOf? || e.Var? || (e.Neg? && e.e.Num?)
    requires Here(toks, i, Body(e)) && Follow(Peek(toks, i + |Body(e)|))
    ensures TreeClimb(toks, i, lev) == TreeOperators(toks, e, i + |Body(e)|, lev)
  {
    hide TreeClimb; hide TreeOperators; hide TypeName; hide TypeToks;
    HereAt(toks, i, Body(e), 0);
    if e.SizeOf? {
      assert Body(e) == [TSizeof] + ([TLParen] + (TypeToks(e.t) + [TRParen]));
      HereCons(toks, i, TSizeof, [TLParen] + (TypeToks(e.t) + [TRParen]));
      HereCons(toks, i + 1, TLParen, TypeToks(e.t) + [TRParen]);
      TypeNameOf(toks, i + 2, e.t);
    } else if e.Neg? {
      assert Print(e.e, PREFIX) == [TNum(e.e.v)];
      assert Body(e) == [TBin(Sub)] + [TNum(e.e.v)];
      HereAt(toks, i, Body(e), 1);
    }
    PrefixThen(toks, i, lev);
  }

  /** The token of an operator between two operands, and the ranks these are printed for. */
  function Infix(e: Expr): (Expr, Tok, Expr)
    requires e.Assign? || e.Lor? || e.Lan? || e.Binary?
  {
    match e
    case Assign(l, r) => (l, TAssign, r)
    case Lor(a, b) => (a, TLor, b)
    case Lan(a, b) => (a, TLan, b)
    case Binary(op, a, b) => (a, TBin(op), b)
  }

  function Sides(e: Expr): (nat, nat)
    requires e.Assign? || e.Lor? || e.Lan? || e.Binary?
  {
    match e
    case Assign(_, _) => (COND_RANK, ANY)
    case Lor(_, _) => (LOR_RANK, LOR_RANK + 1)
    case Lan(_, _) => (LAN_RANK, LAN_RANK + 1)
    case Binary(op, _, _) => (OpRank(op), OpRank(op) + 1)
  }

  lemma InfixBelow(e: Expr)
    requires e.Assign? || e.Lor? || e.Lan? || e.Binary?
    ensures var (a, tok, _) := Infix(e);
            && Follow(tok) && LevelOf(Rank(e)) <= Level(tok)
            && (Rank(a) >= Sides(e).0 ==> Level(tok) < Reach(a))
    ensures ASSIGN <= LevelOf(Rank(e)) <= LevelOf(Sides(e).0) && ASSIGN <= LevelOf(Sides(e).1) <= INC
    ensures Reach(e) == LevelOf(Sides(e).1)
  {
    hide Reach;
    assert Reach(e) == LevelOf(Sides(e).1) by { InfixReach(e); }
    match e
    case Assign(l, _) => ReachAtLeast(l); LevelsOrdered(COND_RANK, Rank(l));
    case Lor(a, _) => LogicalBelow(a, LOR_RANK);
    case Lan(a, _) => LogicalBelow(a, LAN_RANK);
    case Binary(op, a, _) => OperatorLevel(op); if Rank(a) >= OpRank(op) { ClassBelow(op, a); }
  }

  lemma InfixReach(e: Expr)
    requires e.Assign? || e.Lor? || e.Lan? || e.Binary?
    ensures Reach(e) == LevelOf(Sides(e).1)
  {}

  /** One round of the loop at an operator between two operands. */
  lemma InfixStep(toks: seq<Tok>, i: nat, e: Expr)
    requires e.Assign? || e.Lor? || e.Lan? || e.Binary?
    requires i < |toks| && toks[i] == Infix(e).1
    requires var r := TreeClimb(toks, i + 1, LevelOf(Sides(e).1)); r.Got? && r.e == Infix(e).2
    ensures TreeOperator(toks, Infix(e).0, i) == Got(e, TreeClimb(toks, i + 1, LevelOf(Sides(e).1)).pos)
  {
    hide TreeClimb;
    if e.Binary? { OperatorLevel(e.op); }
  }

  lemma {:induction false} InvertsInfix(toks: seq<Tok>, i: nat, e: Expr, lev: nat)
    requires (e.Assign? || e.Lor? || e.Lan? || e.Binary?) && ASSIGN <= lev <= LevelOf(Rank(e)) && lev <= INC
    requires var (a, tok, b) := Infix(e); Here(toks, i, Print(a, Sides(e).0) + ([tok] + Print(b, Sides(e).1)))
    requires var (a, _, b) := Infix(e);
             var t := Peek(toks, i + |Print(a, Sides(e).0)| + 1 + |Print(b, Sides(e).1)|);
             Follow(t) && Level(t) < LevelOf(Sides(e).1)
    ensures var (a, _, b) := Infix(e);
            var k := |Print(a, Sides(e).0)| + 1 + |Print(b, Sides(e).1)|;
            TreeClimb(toks, i, lev) == TreeOperators(toks, e, i + k, lev)
    decreases e, 1
  {
    hide Here; hide TreeClimb; hide TreePrefix; hide TreeOperators; hide Print; hide Reach; hide Rank;
    var (a, tok, b) := Infix(e);
    var (la, lb) := Sides(e);
    var ta, tb := Print(a, la), Print(b, lb);
    InfixBelow(e);
    HereSplit(toks, i, ta, [tok] + tb);
    HereCons(toks, i + |ta|, tok, tb);
    Inverts(toks, i, a, la, lev);
    Operand(toks, i + |ta| + 1, b, lb, LevelOf(lb));
    InfixStep(toks, i + |ta|, e);
    OperatorThen(toks, a, i + |ta|, lev);
  }

  lemma {:induction false} InvertsCond(toks: seq<Tok>, i: nat, e: Expr, lev: nat)
    requires e.Cond? && ASSIGN <= lev <= COND
    requires Here(toks, i, Print(e.c, LOR_RANK) + ([TCond] + (Print(e.a, ANY) + ([TColon] + Print(e.b, COND_RANK)))))
    requires var t := Peek(toks, i + |Print(e.c, LOR_RANK)| + 2 + |Print(e.a, ANY)| + |Print(e.b, COND_RANK)|);
             Follow(t) && Level(t) < COND
    ensures TreeClimb(toks, i, lev) ==
            TreeOperators(toks, e, i + |Print(e.c, LOR_RANK)| + 2 + |Print(e.a, ANY)| + |Print(e.b, COND_RANK)|, lev)
    decreases e, 1
  {
    hide Here; hide TreeClimb; hide TreePrefix; hide TreeOperators; hide Print; hide Reach; hide Rank;
    var tc, ta, tb := Print(e.c, LOR_RANK), Print(e.a, ANY), Print(e.b, COND_RANK);
    HereSplit(toks, i, tc, [TCond] + (ta + ([TColon] + tb)));
    HereCons(toks, i + |tc|, TCond, ta + ([TColon] + tb));
    HereSplit(toks, i + |tc| + 1, ta, [TColon] + tb);
    HereCons(toks, i + |tc| + 1 + |ta|, TColon, tb);
    LogicalBelow(e.c, LOR_RANK);
    Inverts(toks, i, e.c, LOR_RANK, lev);
    Operand(toks, i + |tc| + 1, e.a, ANY, ASSIGN);
    Operand(toks, i + |tc| + 2 + |ta|, e.b, COND_RANK, COND);
    OperatorThen(toks, e.c, i + |tc|, lev);
  }

  lemma {:induction false} InvertsIndex(toks: seq<Tok>, i: nat, e: Expr, lev: nat)
    requires e.Index? && ASSIGN <= lev <= INC
    requires Here(toks, i, Print(e.a, POSTFIX) + ([TBrak] + (Print(e.i, ANY) + [TRBrack])))
    ensures TreeClimb(toks, i, lev) == TreeOperators(toks, e, i + |Print(e.a, POSTFIX)| + 2 + |Print(e.i, ANY)|, lev)
    decreases e, 1
  {
    hide Here; hide TreeClimb; hide TreePrefix; hide TreeOperators; hide Print; hide Reach; hide Rank;
    var ta, ti := Print(e.a, POSTFIX), Print(e.i, ANY);
    HereSplit(toks, i, ta, [TBrak] + (ti + [TRBrack]));
    HereCons(toks, i + |ta|, TBrak, ti + [TRBrack]);
    HereSplit(toks, i + |ta| + 1, ti, [TRBrack]);
    HereAt(toks, i + |ta| + 1 + |ti|, [TRBrack], 0);
    PostfixReach(e.a);
    Inverts(toks, i, e.a, POSTFIX, lev);
    Operand(toks, i + |ta| + 1, e.i, ANY, ASSIGN);
    OperatorThen(toks, e.a, i + |ta|, lev);
  }

  lemma {:induction false} InvertsPostInc(toks: seq<Tok>, i: nat, e: Expr, lev: nat)
    requires e.PostInc? && ASSIGN <= lev <= INC
    requires Here(toks, i, Print(e.e, POSTFIX) + [if e.dec then TDec else TInc])
    ensures TreeClimb(toks, i, lev) == TreeOperators(toks, e, i + |Print(e.e, POSTFIX)| + 1, lev)
    decreases e, 1
  {
    hide Here; hide TreeClimb; hide TreePrefix; hide TreeOperators; hide Print; hide Reach; hide Rank;
    var tx, tok := Print(e.e, POSTFIX), if e.dec then TDec else TInc;
    HereSplit(toks, i, tx, [tok]);
    HereAt(toks, i + |tx|, [tok], 0);
    PostfixReach(e.e);
    Inverts(toks, i, e.e, POSTFIX, lev);
    OperatorThen(toks, e.e, i + |tx|, lev);
  }

  /** The cases together: a tree without parentheses around it. */
  lemma {:induction false} InvertsBody(toks: seq<Tok>, i: nat, e: Expr, lev: nat)
    requires ASSIGN <= lev <= LevelOf(Rank(e)) && lev <= INC
    requires Here(toks, i, Body(e)) && Follow(Peek(toks, i + |Body(e)|)) && Level(Peek(toks, i + |Body(e)|)) < Reach(e)
    ensures TreeClimb(toks, i, lev) == TreeOperators(toks, e, i + |Body(e)|, lev)
    decreases e, 2
  {
    hide Here; hide TreeClimb; hide TreeOperators; hide TypeToks; hide Print;
    match e
    case Cast(_, _) => InvertsCast(toks, i, e, lev);
    case Neg(x) => if x.Num? { InvertsLeaf(toks, i, e, lev); } else { InvertsUnary(toks, i, e, lev, NegRank(x)); }
    case PostInc(_, _) => InvertsPostInc(toks, i, e, lev);
    case Cond(_, _, _) => InvertsCond(toks, i, e, lev);
    case Index(_, _) => InvertsIndex(toks, i, e, lev);
    case Assign(_, _) => InfixBelow(e); InvertsInfix(toks, i, e, lev);
    case Lor(_, _) => InfixBelow(e); InvertsInfix(toks, i, e, lev);
    case Lan(_, _) => InfixBelow(e); InvertsInfix(toks, i, e, lev);
    case Binary(_, _, _) => InfixBelow(e); InvertsInfix(toks, i, e, lev);
    case Num(_) => InvertsLeaf(toks, i, e, lev);
    case StrLit(_) => InvertsLeaf(toks, i, e, lev);
    case SizeOf(_) => InvertsLeaf(toks, i, e, lev);
    case Var(_, _, _) => InvertsLeaf(toks, i, e, lev);
    case _ => InvertsUnary(toks, i, e, lev, PREFIX);
  }
}
