/** Whole programs: comma-separated expressions followed by EXIT. */
module Programs {
  import opened Options
  import opened Words
  import opened Vm
  import opened Syntax
  import opened Compile
  import opened CompileRuns
  import opened CompileShape

  predicate AllGood(es: seq<Expr>) { forall i :: 0 <= i < |es| ==> Good(es[i]) }

  /** The code of each expression after that of the ones before it. */
  function ListCode(es: seq<Expr>): seq<Instr>
    requires AllGood(es)
  {
    if es == [] then []
    else
      var front := ListCode(es[..|es| - 1]);
      front + Code(es[|es| - 1], None, |front|)
  }

  function Program(es: seq<Expr>): seq<Instr>
    requires AllGood(es)
  { ListCode(es) + [EXIT] }

  /** The value of the last expression after all side effects; the register starts at zero. */
  ghost function EvalList(es: seq<Expr>, m: Memory): Meaning
    requires AllGood(es)
  {
    if es == [] then Some(Eff(0, m))
    else
      var r := EvalList(es[..|es| - 1], m);
      if r.None? then None else Eval(es[|es| - 1], None, r.value.mem)
  }

  lemma {:induction false} RunsList(p: seq<Instr>, es: seq<Expr>, m: Memory)
    requires Forward(p) && AllGood(es) && At(p, 0, ListCode(es))
    ensures Exec(p, State(0, 0, [], m)) == Then(EvalList(es, m), p, |ListCode(es)|, [])
  {
    hide Exec; hide Code; hide Eval; hide TypeOf;
    if es != [] {
      var fs, e := es[..|es| - 1], es[|es| - 1];
      var front := ListCode(fs);
      AtSplit(p, 0, front, Code(e, None, |front|));
      RunsList(p, fs, m);
      var r := EvalList(fs, m);
      if r.Some? { RunsCode(p, e, None, |front|, r.value.v, [], r.value.mem); }
    }
  }

  lemma {:induction false} ListSeg(es: seq<Expr>)
    requires AllGood(es)
    ensures Seg(ListCode(es), 0, 0, 0, 0)
  {
    if es == [] {
      assert Paid(ListCode(es), 0, 0, 0);
    } else {
      hide Seg; hide Code; hide TypeOf; hide WordsOf;
      var fs, e := es[..|es| - 1], es[|es| - 1];
      var front := ListCode(fs);
      ListSeg(fs);
      CodeSeg(e, None, |front|, 0, WordsOf(front));
      SegCat(front, Code(e, None, |front|), 0, 0, 0, 0, 0);
    }
  }

  /** Code of that shape, closed by EXIT: forward jumps between equal depths, no pop of an empty stack;
      one slot of depth costs three words. */
  lemma Closed(c: seq<Instr>)
    requires Seg(c, 0, 0, 0, 0)
    ensures Consistent(c + [EXIT])
    ensures forall i :: 0 <= i <= |c + [EXIT]| ==> 3 * Depth(c + [EXIT], i) <= WordsUpTo(c + [EXIT], i)
    ensures forall i :: 0 <= i < |c| ==> !c[i].EXIT? && !c[i].Call? && !c[i].ADJ?
  {
    var p := c + [EXIT];
    hide Depth; hide WordsUpTo;
    forall i | 0 <= i <= |p| ensures 3 * Depth(p, i) <= WordsUpTo(p, i) {
      if i <= |c| { CatLeft(c, [EXIT], i); assert Paid(c, i, 0, 0); } else { ExitPaid(c); assert Paid(c, |c|, 0, 0); }
    }
    forall i | 0 <= i < |p|
      ensures p[i].IsJump() ==> i < p[i].Target() < |p| && Depth(p, p[i].Target()) == Depth(p, i)
      ensures p[i].Pops() ==> 0 < Depth(p, i)
      ensures i < |c| ==> !c[i].EXIT? && !c[i].Call? && !c[i].ADJ?
    {
      if i < |c| {
        assert Fits(c, 0, i, 0);
        CatLeft(c, [EXIT], i);
        if c[i].IsJump() { CatLeft(c, [EXIT], c[i].Target()); }
      }
    }
  }

  /** The program of every list of well-formed trees has that shape. */
  lemma ProgramShape(es: seq<Expr>)
    requires AllGood(es)
    ensures Consistent(Program(es))
    ensures forall i :: 0 <= i <= |Program(es)| ==> 3 * Depth(Program(es), i) <= WordsUpTo(Program(es), i)
    ensures forall i :: 0 <= i < |Program(es)| - 1 ==>
              !Program(es)[i].EXIT? && !Program(es)[i].Call? && !Program(es)[i].ADJ?
  {
    hide Code; hide TypeOf; hide ListCode; hide Depth; hide WordsUpTo; hide Seg; hide Consistent;
    ListSeg(es);
    Closed(ListCode(es));
  }

  lemma ExitPaid(c: seq<Instr>)
    ensures Depth(c + [EXIT], |c| + 1) == Depth(c, |c|)
    ensures WordsUpTo(c + [EXIT], |c| + 1) == WordsUpTo(c, |c|) + 1
  {
    CatLeft(c, [EXIT], |c|);
  }

  /** `nr_insn` in `expr_compile_flags`: the buffer holds 1024 words, of which word 0 is unused. */
  const BUFFER_WORDS: nat := 1024

  lemma {:induction false} WordsMono(c: seq<Instr>, i: nat)
    requires i <= |c|
    ensures WordsUpTo(c, i) <= WordsOf(c)
    decreases |c| - i
  {
    if i < |c| { WordsMono(c, i + 1); }
  }

  lemma BufferBounds(p: seq<Instr>)
    requires WordsOf(p) < BUFFER_WORDS && forall i :: 0 <= i <= |p| ==> 3 * Depth(p, i) <= WordsUpTo(p, i)
    ensures WithinStack(p, 341) && WithinStack(p, STACK_SLOTS)
  {
    hide Depth;
    forall i | 0 <= i <= |p| ensures Depth(p, i) <= 341 { WordsMono(p, i); }
  }

  /** A program that fits the instruction buffer cannot overflow the interpreter's stack:
      it never needs more than 341 of the 512 slots. */
  lemma BufferBoundsStack(es: seq<Expr>)
    requires AllGood(es) && WordsOf(Program(es)) < BUFFER_WORDS
    ensures WithinStack(Program(es), 341) && WithinStack(Program(es), STACK_SLOTS)
  {
    hide ListCode; hide Depth; hide Consistent;
    ProgramShape(es);
    BufferBounds(Program(es));
  }

  /** Running a compiled program from any memory yields the value of its last expression and
      the side effects of all of them, in order; it traps exactly when the trees do. */
  lemma ProgramRuns(es: seq<Expr>, m: Memory)
    requires AllGood(es)
    ensures Consistent(Program(es))
    ensures Exec(Program(es), State(0, 0, [], m)) ==
            var r := EvalList(es, m); if r.None? then Trapped else Exited(r.value.v, r.value.mem)
  {
    hide Code; hide TypeOf; hide ListCode; hide EvalList; hide Eval;
    ProgramShape(es);
    var p := Program(es);
    assert p[0..|ListCode(es)|] == ListCode(es);
    RunsList(p, es, m);
  }
}
