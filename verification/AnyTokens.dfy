/** The whole compiler on any tokens: what it accepts is a consistent program, what it garbles can be read
    off the trees, and it inverts printing. */
module AnyTokens {
  import opened Options
  import opened Words
  import opened Vm
  import opened Syntax
  import opened Compile
  import opened CompileShape
  import opened Programs
  import opened Parse
  import opened Frontend
  import opened Trees
  import opened TreeShape
  import opened Endings
  import opened Tails
  import opened Verdict
  import opened GoodTrees
  import opened TreeParse
  import opened Printer
  import E = Encoding

  const START: PS := PS(0, [], INT_TY)

  // ----- lists of trees -----

  /** The trees of comma-separated expressions. */
  function TreeList(toks: seq<Tok>, i: nat): Option<seq<Expr>>
    requires i <= |toks|
    decreases |toks| - i
  {
    var r := TreeClimb(toks, i, ASSIGN);
    if r.Bad? then None
    else if Peek(toks, r.pos).TComma? then
      var q := TreeList(toks, r.pos + 1); if q.None? then None else Some([r.e] + q.value)
    else Some([r.e])
  }

  /** The code of one after the other. */
  function EmitList(es: seq<Expr>): Made {
    if es == [] then Made([], INT_TY)
    else
      var f := EmitList(es[..|es| - 1]);
      if f.Failed? then f else After(f.code, Emit(es[|es| - 1], |f.code|))
  }

  function After(code: seq<Instr>, m: Made): Made { if m.Failed? then m else Made(code + m.code, m.ty) }

  lemma EmitMore(es: seq<Expr>, e: Expr)
    ensures EmitList(es + [e]) == var f := EmitList(es); if f.Failed? then f else After(f.code, Emit(e, |f.code|))
  {
    hide Emit;
    assert (es + [e])[..|es + [e]| - 1] == es;
  }

  lemma {:induction false} FailedFirst(es: seq<Expr>, fs: seq<Expr>)
    requires EmitList(es).Failed?
    ensures EmitList(es + fs) == EmitList(es)
  {
    hide EmitList;
    if fs == [] {
      assert es + fs == es;
    } else {
      var k := |fs| - 1;
      assert es + fs == (es + fs[..k]) + [fs[k]];
      FailedFirst(es, fs[..k]);
      EmitMore(es + fs[..k], fs[k]);
    }
  }

  // ----- any tokens -----

  /** What the list comes to. */
  ghost predicate ListAgrees(p: Parsed, m: Made) {
    match m
    case Failed(w) => p == Fault(w)
    case Made(c, ty) => p.Done? && p.s.code == c && p.s.ty == ty
  }

  lemma {:induction false} ListEmits(toks: seq<Tok>, s: PS, front: seq<Expr>)
    requires s.pos <= |toks| && E.InRange(s.code) && EmitList(front).Made? && EmitList(front).code == s.code
    ensures match TreeList(toks, s.pos)
            case None => ParseList(toks, s).Fault?
            case Some(es) => ListAgrees(ParseList(toks, s), EmitList(front + es))
    decreases |toks| - s.pos
  {
    hide Climb; hide TreeClimb; hide Emit; hide EmitList; hide E.InRange;
    ClimbEmits(toks, s, ASSIGN);
    var r := TreeClimb(toks, s.pos, ASSIGN);
    if r.Got? {
      var m := Emit(r.e, |s.code|);
      EmitMore(front, r.e);
      if m.Made? {
        RangeMade(s.code, r.e);
        var q := PS(r.pos, s.code + m.code, m.ty);
        if Peek(toks, r.pos).TComma? { ListEmits(toks, q.(pos := r.pos + 1), front + [r.e]); }
      } else {
        FailedFirst(front + [r.e], if TreeList(toks, s.pos).Some? then TreeList(toks, s.pos).value[1..] else []);
      }
      if TreeList(toks, s.pos).Some? {
        var es := TreeList(toks, s.pos).value;
        assert front + es == front + [r.e] + es[1..];
      }
    }
  }

  /** On any tokens: refused if they have no trees, and otherwise what becomes of the trees. */
  lemma AnyEmits(toks: seq<Tok>)
    ensures match TreeList(toks, 0)
            case None => ParseList(toks, START).Fault?
            case Some(es) => ListAgrees(ParseList(toks, START), EmitList(es))
  {
    hide ParseList; hide TreeList;
    ListEmits(toks, START, []);
    if TreeList(toks, 0).Some? { assert [] + TreeList(toks, 0).value == TreeList(toks, 0).value; }
  }

  lemma EmptySeg()
    ensures Seg([], 0, 0, 0, 0)
  {
    assert Paid([], 0, 0, 0);
  }

  lemma {:induction false} EmitListSeg(es: seq<Expr>)
    requires EmitList(es).Made?
    ensures Seg(EmitList(es).code, 0, 0, 0, 0)
  {
    hide Seg; hide Emit; hide WordsOf; hide Paid;
    if es == [] {
      EmptySeg();
    } else {
      var f, e := EmitList(es[..|es| - 1]), es[|es| - 1];
      EmitListSeg(es[..|es| - 1]);
      EmitSeg(e, |f.code|, 0, WordsOf(f.code));
      SegCat(f.code, Emit(e, |f.code|).code, 0, 0, 0, 0, 0);
    }
  }

  /** Whatever the tokens, what the compiler accepts is a consistent program: its jumps go forward to places
      of equal depth, nothing pops an empty stack, and one slot of depth costs three words. */
  lemma AnyConsistent(toks: seq<Tok>)
    requires ParseList(toks, START).Done?
    ensures var p := ParseList(toks, START).s.code + [EXIT];
            && Consistent(p) && (forall i :: 0 <= i <= |p| ==> 3 * Depth(p, i) <= WordsUpTo(p, i))
            && forall i :: 0 <= i < |p| - 1 ==> !p[i].EXIT? && !p[i].Call? && !p[i].ADJ?
  {
    hide ParseList; hide TreeList; hide EmitList; hide Seg; hide Consistent; hide Depth; hide WordsUpTo;
    AnyEmits(toks);
    EmitListSeg(TreeList(toks, 0).value);
    Closed(ParseList(toks, START).s.code);
  }

  lemma {:induction false} EmitListStart(es: seq<Expr>)
    requires es != [] && EmitList(es).Made?
    ensures |EmitList(es).code| >= 1 && EmitList(es).code[0].IMM?
  {
    hide Emit;
    if |es| > 1 { EmitListStart(es[..|es| - 1]); }
  }

  /** It starts by loading the register. */
  lemma AnyStart(toks: seq<Tok>)
    requires ParseList(toks, START).Done?
    ensures |ParseList(toks, START).s.code| >= 1 && ParseList(toks, START).s.code[0].IMM?
  {
    hide ParseList; hide EmitList;
    AnyEmits(toks);
    EmitListStart(TreeList(toks, 0).value);
  }

  /** So the stack cannot overflow if the program fits the buffer. */
  lemma AnyWithinStack(toks: seq<Tok>)
    requires ParseList(toks, START).Done? && WordsOf(ParseList(toks, START).s.code + [EXIT]) < BUFFER_WORDS
    ensures WithinStack(ParseList(toks, START).s.code + [EXIT], 341)
  {
    hide ParseList; hide Consistent; hide Depth; hide WordsUpTo; hide WordsOf;
    AnyConsistent(toks);
    BufferBounds(ParseList(toks, START).s.code + [EXIT]);
  }

  // ----- the verdict on any tokens -----

  ghost predicate AllAccepted(es: seq<Expr>) { forall e :: e in es ==> Accepted(e) }
  ghost predicate AllClean(es: seq<Expr>) { forall e :: e in es ==> Clean(e) }

  lemma {:induction false} ListJudged(es: seq<Expr>)
    ensures if !AllAccepted(es) then EmitList(es).Failed?
            else if AllClean(es) then EmitList(es).Made?
            else EmitList(es) == Failed(Garbled)
  {
    hide Emit; hide Accepted; hide Clean;
    if es != [] {
      var fs, e := es[..|es| - 1], es[|es| - 1];
      assert es == fs + [e];
      ListJudged(fs);
      var f := EmitList(fs);
      if f.Made? { JudgedAt(e, |f.code|); }
    }
  }

  lemma JudgedAt(e: Expr, n: nat)
    ensures if !Accepted(e) then Emit(e, n).Failed? else if Clean(e) then Emit(e, n).Made?
                                                         else Emit(e, n) == Failed(Garbled)
  {
    hide Emit; hide Accepted; hide Clean;
    EmitJudged(e, n);
  }

  /** Any tokens: without trees, or with one the compiler reports an error for, they are not compiled;
      otherwise they are compiled exactly when every tree is clean, and garbled when one is not. */
  lemma AnyJudged(toks: seq<Tok>)
    ensures match TreeList(toks, 0)
            case None => ParseList(toks, START).Fault?
            case Some(es) =>
              if !AllAccepted(es) then ParseList(toks, START).Fault?
              else if AllClean(es) then ParseList(toks, START).Done?
              else ParseList(toks, START) == Fault(Garbled)
  {
    hide ParseList; hide TreeList; hide EmitList; hide AllAccepted; hide AllClean;
    AnyEmits(toks);
    if TreeList(toks, 0).Some? { ListJudged(TreeList(toks, 0).value); }
  }

  /** `a && b = 3`: the assignment takes back the load of `b`, behind which `&&` jumps. */
  lemma AndAssignGarbles(a: Word, t: Ty, b: Word, u: Ty)
    ensures var toks := [TVar(a, t, false), TLan, TVar(b, u, false), TAssign, TNum(3)];
            && TreeList(toks, 0) == Some([Assign(Lan(Var(a, t, false), Var(b, u, false)), Num(3))])
            && ParseList(toks, START) == Fault(Garbled)
  {
    var toks := [TVar(a, t, false), TLan, TVar(b, u, false), TAssign, TNum(3)];
    AndAssignTree(toks, a, t, b, u);
    var e := Assign(Lan(Var(a, t, false), Var(b, u, false)), Num(3));
    hide ParseList; hide TreeList; hide Accepted; hide Clean;
    AndAssignJudged(e.l.a, e.l.b);
    assert e in [e];
    AnyJudged(toks);
  }

  lemma AndAssignJudged(x: Expr, y: Expr)
    requires x.Var? && !x.isArray && y.Var? && !y.isArray
    ensures Accepted(Assign(Lan(x, y), Num(3))) && !Clean(Assign(Lan(x, y), Num(3)))
  {
    hide Emit;
    var l := Lan(x, y);
    assert Ends(y, 0) == Ending(true, false);
    assert Ends(l, 0) == Ending(true, true);
    assert TyOf(x).Some? && TyOf(y).Some? && TyOf(l).Some? && TyOf(Num(3)).Some?;
    assert Tested(x) && Tested(y) && Tested(l) && Tested(Num(3));
  }

  lemma AndAssignTree(toks: seq<Tok>, a: Word, t: Ty, b: Word, u: Ty)
    requires toks == [TVar(a, t, false), TLan, TVar(b, u, false), TAssign, TNum(3)]
    ensures TreeList(toks, 0) == Some([Assign(Lan(Var(a, t, false), Var(b, u, false)), Num(3))])
  {
    hide TreeClimb; hide TreeOperators; hide TreePrefix; hide TreeOperator;
    var x, y := Var(a, t, false), Var(b, u, false);
    PrefixVar(toks, 0);
    PrefixVar(toks, 2);
    PrefixNum(toks, 4);
    PrefixThen(toks, 2, 140);
    Stops(toks, y, 3, 140);
    PrefixThen(toks, 4, ASSIGN);
    Stops(toks, Num(3), 5, ASSIGN);
    PrefixThen(toks, 0, ASSIGN);
    OperatorThen(toks, x, 1, ASSIGN);
    LanStep(toks, x, 1);
    OperatorThen(toks, Lan(x, y), 3, ASSIGN);
    AssignStep(toks, Lan(x, y), 3);
    Stops(toks, Assign(Lan(x, y), Num(3)), 5, ASSIGN);
  }

  lemma PrefixVar(toks: seq<Tok>, i: nat)
    requires i < |toks| && toks[i].TVar? && !Peek(toks, i + 1).TLParen?
    ensures TreePrefix(toks, i) == Got(Var(toks[i].addr, toks[i].ty, toks[i].isArray), i + 1)
  {
    hide TreeClimb;
  }

  lemma PrefixNum(toks: seq<Tok>, i: nat)
    requires i < |toks| && toks[i].TNum?
    ensures TreePrefix(toks, i) == Got(Num(toks[i].v), i + 1)
  {
    hide TreeClimb;
  }

  /** Adjacent string literals are one, at the address of the first. */
  lemma AdjacentStrings(a: Word, more: seq<Tok>, rest: seq<Tok>)
    requires (forall t :: t in more ==> t.TStr?) && (rest != [] ==> !rest[0].TStr?)
    ensures TreePrefix([TStr(a)] + more + rest, 0) == Got(StrLit(a), 1 + |more|)
  {
    hide TreeClimb; hide SkipStrings;
    SkipsAll([TStr(a)] + more + rest, 1, 1 + |more|);
  }

  lemma {:induction false} SkipsAll(toks: seq<Tok>, i: nat, j: nat)
    requires i <= j <= |toks| && (forall k :: i <= k < j ==> toks[k].TStr?) && !Peek(toks, j).TStr?
    ensures SkipStrings(toks, i) == j
    decreases j - i
  {
    if i < j { SkipsAll(toks, i + 1, j); }
  }

  lemma LanStep(toks: seq<Tok>, e: Expr, i: nat)
    requires i < |toks| && toks[i].TLan?
    ensures TreeOperator(toks, e, i) ==
            var r := TreeClimb(toks, i + 1, 140); if r.Bad? then Bad else Got(Lan(e, r.e), r.pos)
  {
    hide TreeClimb;
  }

  lemma AssignStep(toks: seq<Tok>, e: Expr, i: nat)
    requires i < |toks| && toks[i].TAssign?
    ensures TreeOperator(toks, e, i) ==
            var r := TreeClimb(toks, i + 1, ASSIGN); if r.Bad? then Bad else Got(Assign(e, r.e), r.pos)
  {
    hide TreeClimb;
  }

  // ----- printed lists -----

  function PrintList(es: seq<Expr>): seq<Tok>
    requires es != []
  {
    if |es| == 1 then Print(es[0], ANY) else Print(es[0], ANY) + ([TComma] + PrintList(es[1..]))
  }

  /** A printed list of any trees is read as those trees. */
  lemma {:induction false} ListInverts(toks: seq<Tok>, i: nat, es: seq<Expr>)
    requires es != [] && Here(toks, i, PrintList(es)) && i + |PrintList(es)| == |toks|
    ensures TreeList(toks, i) == Some(es)
    decreases |es|
  {
    hide TreeClimb; hide Print; hide Here;
    var ts := Print(es[0], ANY);
    if |es| == 1 {
      Inside(toks, i, ts);
      Operand(toks, i, es[0], ANY, ASSIGN);
      assert es == [es[0]];
    } else {
      var rest := PrintList(es[1..]);
      HereSplit(toks, i, ts, [TComma] + rest);
      HereCons(toks, i + |ts|, TComma, rest);
      Operand(toks, i, es[0], ANY, ASSIGN);
      ListInverts(toks, i + |ts| + 1, es[1..]);
      assert es == [es[0]] + es[1..];
    }
  }

  lemma Inside(toks: seq<Tok>, i: nat, ts: seq<Tok>)
    requires Here(toks, i, ts)
    ensures i + |ts| <= |toks|
  {}

  lemma {:induction false} EmitListGood(es: seq<Expr>)
    requires AllGood(es) && AllClean(es)
    ensures EmitList(es).Made? && EmitList(es).code == ListCode(es)
  {
    hide Emit; hide Code; hide TypeOf; hide Clean;
    if es != [] {
      var fs, e := es[..|es| - 1], es[|es| - 1];
      assert es == fs + [e];
      EmitListGood(fs);
      EmitGood(e, |ListCode(fs)|);
    }
  }

  lemma GoodAreAccepted(es: seq<Expr>)
    requires AllGood(es)
    ensures AllAccepted(es)
  {
    hide TypeOf; hide TyOf; hide Tested;
    forall e | e in es ensures Accepted(e) { GoodAccepted(e); }
  }

  /** Compiling the printed form of a list of well-formed trees yields exactly the program of those
      trees if no cast in them overwrites an opcode, and a garbled buffer otherwise. */
  lemma CompilePrinted(es: seq<Expr>)
    requires es != [] && AllGood(es)
    ensures var r := ParseList(PrintList(es), START);
            if AllClean(es) then r.Done? && r.s.code + [EXIT] == Program(es) else r == Fault(Garbled)
  {
    hide ParseList; hide TreeList; hide PrintList; hide EmitList; hide AllAccepted; hide AllClean; hide ListCode;
    var toks := PrintList(es);
    assert toks[0..|toks|] == toks;
    ListInverts(toks, 0, es);
    GoodAreAccepted(es);
    AnyJudged(toks);
    AnyEmits(toks);
    if AllClean(es) { EmitListGood(es); }
  }

  /** `(long)(flags & mask)` with `mask` an unsigned char: the cast takes the `&` for a load and
      overwrites it. */
  lemma MaskedCastGarbles(flags: Word, mask: Word)
    ensures var e := Cast(Ty(LONG, false, 0), E.Masked(flags, mask));
            Good(e) && ParseList(PrintList([e]), START) == Fault(Garbled)
  {
    hide Code; hide PrintList; hide ParseList; hide E.Masked; hide Emit;
    var x := E.Masked(flags, mask);
    var e := Cast(Ty(LONG, false, 0), x);
    E.MaskedCode(flags, mask);
    assert Good(e);
    MaskedUnclean(flags, mask);
    assert e in [e];
    CompilePrinted([e]);
  }

  lemma MaskedUnclean(flags: Word, mask: Word)
    ensures !Clean(Cast(Ty(LONG, false, 0), E.Masked(flags, mask)))
  {
    var x := E.Masked(flags, mask);
    assert LastEight(x.b, 0) && OpCode(And, TypeAt(x.a), TypeAt(x.b)) == [Bin(AND)];
    assert Tail(x, 0) == Some(Bin(AND));
  }
}
