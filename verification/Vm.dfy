/** The expression virtual machine: a register `a`, a stack and forward jumps. */
module Vm {
  import opened Options
  import opened Words
  import Wildcard

  /** Two-operand instructions: `a = *sp++ <op> a`. */
  datatype Op = OR | XOR | AND | EQ | NE | LT | GT | LE | GE | LTu | GTu | LEu | GEu
              | SHL | SHR | SAR | ADD | SUB | MUL | DIV | DIVu | MOD | MODu

  /** String instructions: `a = f((char *)*sp++, (char *)a)`. */
  datatype StrOp = MATCH | STREQ | STRNE

  /** Jump targets are instruction indices; Encoding gives the word addresses. */
  datatype Instr =
    | IMM(v: Word) | JMP(t: nat) | BZ(t: nat) | BNZ(t: nat)
    | LI(ty: Ty) | SI(ty: Ty) | PSH | Bin(op: Op) | Str(sop: StrOp)
    | Call(fn: nat) | ADJ(n: nat) | EXIT
  {
    predicate IsJump() { JMP? || BZ? || BNZ? }
    predicate Pops() { Bin? || SI? || Str? }
    function Target(): nat
      requires IsJump()
    { t }
    /** Change of the stack depth. */
    function Effect(): int {
      if PSH? then 1 else if Pops() then -1 else if ADJ? then -(n as int) else 0
    }
    /** Length in the instruction buffer: an opcode, and an operand up to opcode SI. */
    function Words(): nat {
      if PSH? || Bin? || Str? || Call? || EXIT? then 1 else 2
    }
  }

  /** `x <op> y` on 64-bit longs; `None` where C traps or leaves it undefined. */
  function Alu(op: Op, x: Word, y: Word): Option<Word> {
    match op
    case OR => Some(BitwiseWord(BitOr, x, y))
    case XOR => Some(BitwiseWord(BitXor, x, y))
    case AND => Some(BitwiseWord(BitAnd, x, y))
    case EQ => Some(Truth(x == y))
    case NE => Some(Truth(x != y))
    case LT => Some(Truth(Signed(x) < Signed(y)))
    case GT => Some(Truth(Signed(x) > Signed(y)))
    case LE => Some(Truth(Signed(x) <= Signed(y)))
    case GE => Some(Truth(Signed(x) >= Signed(y)))
    case LTu => Some(Truth(x < y))
    case GTu => Some(Truth(x > y))
    case LEu => Some(Truth(x <= y))
    case GEu => Some(Truth(x >= y))
    case SHL => if y < 64 then Some(ShiftLeft(x, y)) else None
    case SHR => if y < 64 then Some(ShiftRight(x, y)) else None
    case SAR => if y < 64 then Some(ShiftArith(x, y)) else None
    case ADD => Some(Wrap(x + y))
    case SUB => Some(Wrap(x - y))
    case MUL => Some(Wrap(x * y))
    case DIV => if y == 0 || Overflows(x, y) then None else Some(Wrap(TruncDiv(Signed(x), Signed(y))))
    case DIVu => if y == 0 then None else Some(Wrap(x / y))
    case MOD => if y == 0 || Overflows(x, y) then None else Some(Wrap(TruncMod(Signed(x), Signed(y))))
    case MODu => if y == 0 then None else Some(Wrap(x % y))
  }

  /** LONG_MIN / -1, which traps. */
  predicate Overflows(x: Word, y: Word) { Signed(x) == -TWO63 && Signed(y) == -1 }

  // ----- C strings in memory -----

  /** The characters at `p` up to a zero byte; `None` when that runs into unmapped memory. */
  function CString(m: Memory, p: Word, left: nat): Option<seq<int>>
    decreases left
  {
    if p !in m || left == 0 then None
    else if m[p] == 0 then Some([])
    else
      var rest := CString(m, Wrap(p + 1), left - 1);
      if rest.None? then None
      else Some([if m[p] >= 128 then m[p] - TWO8 else m[p]] + rest.value)
  }

  /** A mapped string has no more characters than memory has bytes. */
  function StringAt(m: Memory, p: Word): Option<seq<int>> { CString(m, p, |m|) }

  ghost function StrAlu(op: StrOp, m: Memory, p: Word, q: Word): Option<Word> {
    if op.MATCH? && (p == 0 || q == 0) then Some(0)
    else
      var s, t := StringAt(m, p), StringAt(m, q);
      if s.None? || t.None? then None
      else Some(Truth(match op
                      case MATCH => Wildcard.Matches(s.value, t.value)
                      case STREQ => s == t
                      case STRNE => s != t))
  }

  // ----- running -----

  /** How a run ends: EXIT, a trap (bad memory access, division, stack underflow, running off
      the end), or a call into a library routine, which is outside this model. */
  datatype Outcome = Exited(a: Word, mem: Memory) | Trapped | External

  datatype State = State(pc: nat, a: Word, stack: seq<Word>, mem: Memory)

  function Top(stack: seq<Word>): Word
    requires stack != []
  { stack[|stack| - 1] }

  function Pop(stack: seq<Word>): seq<Word>
    requires stack != []
  { stack[..|stack| - 1] }

  predicate Forward(p: seq<Instr>) {
    forall i :: 0 <= i < |p| && p[i].IsJump() ==> i < p[i].Target()
  }

  /** One instruction, or the end of the run. */
  datatype StepResult = Next(s: State) | Stop(out: Outcome)

  ghost function Step(p: seq<Instr>, s: State): (r: StepResult)
    requires Forward(p)
    ensures r.Next? ==> s.pc < |p| && s.pc < r.s.pc
  {
    if s.pc >= |p| then Stop(Trapped)
    else
      var i := p[s.pc];
      var next := s.(pc := s.pc + 1);
      match i
      case IMM(v) => Next(next.(a := v))
      case JMP(t) => Next(s.(pc := t))
      case BZ(t) => Next(if s.a == 0 then s.(pc := t) else next)
      case BNZ(t) => Next(if s.a != 0 then s.(pc := t) else next)
      case LI(ty) =>
        var x := LoadTyped(s.mem, s.a, ty);
        if x.None? then Stop(Trapped) else Next(next.(a := x.value))
      case SI(ty) =>
        if s.stack == [] then Stop(Trapped)
        else
          var m := Store(s.mem, Top(s.stack), s.a, ty.Size());
          if m.None? then Stop(Trapped) else Next(next.(stack := Pop(s.stack), mem := m.value))
      case PSH => Next(next.(stack := s.stack + [s.a]))
      case Bin(op) =>
        if s.stack == [] then Stop(Trapped)
        else
          var x := Alu(op, Top(s.stack), s.a);
          if x.None? then Stop(Trapped) else Next(next.(stack := Pop(s.stack), a := x.value))
      case Str(op) =>
        if s.stack == [] then Stop(Trapped)
        else
          var x := StrAlu(op, s.mem, Top(s.stack), s.a);
          if x.None? then Stop(Trapped) else Next(next.(stack := Pop(s.stack), a := x.value))
      case Call(_) => Stop(External)
      case ADJ(_) => Stop(External)
      case EXIT => Stop(Exited(s.a, s.mem))
  }

  /** The whole run. Every jump goes forward, so it ends. */
  ghost function Exec(p: seq<Instr>, s: State): Outcome
    requires Forward(p)
    decreases |p| - s.pc
  {
    match Step(p, s)
    case Stop(out) => out
    case Next(s') => Exec(p, s')
  }

  // ----- static stack depth -----

  /** The depth a scan that ignores jumps computes before instruction `i`. */
  function Depth(p: seq<Instr>, i: nat): int
    requires i <= |p|
  {
    if i == 0 then 0 else Depth(p, i - 1) + p[i - 1].Effect()
  }

  /** Jumps go forward, inside the program, between places of equal depth, nothing pops an
      empty stack, and control cannot run off the end. */
  ghost predicate Consistent(p: seq<Instr>) {
    && Forward(p)
    && (forall i :: 0 <= i < |p| && p[i].IsJump() ==> p[i].Target() < |p| && Depth(p, p[i].Target()) == Depth(p, i))
    && (forall i :: 0 <= i < |p| && p[i].Pops() ==> 0 < Depth(p, i))
    && p != [] && p[|p| - 1].EXIT?
  }

  ghost predicate WithinStack(p: seq<Instr>, limit: nat) {
    forall i :: 0 <= i <= |p| ==> Depth(p, i) <= limit
  }

  /** In a consistent program the linear depth is the run-time depth, after every step. */
  lemma StepKeepsDepth(p: seq<Instr>, s: State)
    requires Consistent(p) && s.pc < |p| && |s.stack| == Depth(p, s.pc)
    requires Step(p, s).Next?
    ensures var s' := Step(p, s).s; s'.pc < |p| && |s'.stack| == Depth(p, s'.pc)
  {
    hide Alu; hide StrAlu; hide LoadTyped; hide Store;
    var s' := Step(p, s).s;
    assert Depth(p, s.pc + 1) == Depth(p, s.pc) + p[s.pc].Effect();
    assert s'.pc == s.pc + 1 || (p[s.pc].IsJump() && s'.pc == p[s.pc].Target());
    assert |s'.stack| == |s.stack| + p[s.pc].Effect();
  }

  function Reversed(s: seq<Word>): (r: seq<Word>)
    ensures |r| == |s|
    ensures forall k :: 0 <= k < |s| ==> r[k] == s[|s| - 1 - k]
  {
    seq(|s|, k requires 0 <= k < |s| => s[|s| - 1 - k])
  }

  const STACK_SLOTS: nat := 512

  /** The interpreter's registers and its 512-slot stack, which grows down. */
  class Machine {
    var pc: nat
    var a: Word
    var mem: Memory
    var sp: nat
    const stack: array<Word>

    ghost predicate Valid()
      reads this
    { stack.Length == STACK_SLOTS && sp <= STACK_SLOTS }

    /** The pushed values, oldest first. */
    ghost function Pushed(): seq<Word>
      requires Valid()
      reads this, stack
    { Reversed(stack[sp..]) }

    ghost function View(): State
      requires Valid()
      reads this, stack
    { State(pc, a, Pushed(), mem) }

    constructor (m: Memory)
      ensures Valid() && fresh(stack) && View() == State(0, 0, [], m)
    {
      pc, a, mem, sp := 0, 0, m, STACK_SLOTS;
      stack := new Word[STACK_SLOTS](_ => 0);
    }

    method Push()
      requires Valid() && 0 < sp
      modifies this`sp, stack
      ensures Valid() && Pushed() == old(Pushed()) + [a]
    {
      sp := sp - 1;
      stack[sp] := a;
    }

    method PopSlot() returns (x: Word)
      requires Valid() && sp < STACK_SLOTS
      modifies this`sp
      ensures Valid() && old(Pushed()) != [] && x == Top(old(Pushed())) && Pushed() == Pop(old(Pushed()))
    {
      x := stack[sp];
      sp := sp + 1;
    }

    /** One round of the interpreter loop: fetch, advance, execute. */
    method Round(p: seq<Instr>) returns (r: Option<Outcome>)
      requires Valid() && Forward(p) && pc < |p|
      requires p[pc].PSH? ==> 0 < sp
      requires p[pc].Pops() ==> sp < STACK_SLOTS
      modifies this, stack
      ensures Valid()
      ensures match Step(p, old(View())) case Stop(out) => r == Some(out) case Next(s) => r == None && View() == s
    {
      hide Alu; hide StrAlu; hide LoadTyped; hide Store; hide Reversed;
      var i := p[pc];
      pc := pc + 1;
      match i {
        case IMM(v) => a := v;
        case JMP(t) => pc := t;
        case BZ(t) => if a == 0 { pc := t; }
        case BNZ(t) => if a != 0 { pc := t; }
        case LI(ty) =>
          var x := LoadTyped(mem, a, ty);
          if x.None? { return Some(Trapped); }
          a := x.value;
        case SI(ty) =>
          var q := PopSlot();
          var m := Store(mem, q, a, ty.Size());
          if m.None? { return Some(Trapped); }
          mem := m.value;
        case PSH => Push();
        case Bin(op) =>
          var q := PopSlot();
          var x := Alu(op, q, a);
          if x.None? { return Some(Trapped); }
          a := x.value;
        case Str(op) =>
          var q := PopSlot();
          var x := RunStr(op, mem, q, a);
          if x.None? { return Some(Trapped); }
          a := x.value;
        case Call(_) => return Some(External);
        case ADJ(_) => return Some(External);
        case EXIT => return Some(Exited(a, mem));
      }
      r := None;
    }
  }

  /** `expr_run`: the whole interpreter loop. */
  method ExprRun(p: seq<Instr>, mem0: Memory) returns (out: Outcome)
    requires Consistent(p) && WithinStack(p, STACK_SLOTS)
    ensures out == Exec(p, State(0, 0, [], mem0))
  {
    var vm := new Machine(mem0);
    while true
      invariant vm.Valid() && fresh(vm) && fresh(vm.stack)
      invariant vm.pc < |p| && STACK_SLOTS - vm.sp == Depth(p, vm.pc)
      invariant Exec(p, vm.View()) == Exec(p, State(0, 0, [], mem0))
      decreases |p| - vm.pc
    {
      ghost var before := vm.View();
      assert Depth(p, vm.pc + 1) == Depth(p, vm.pc) + p[vm.pc].Effect();
      assert |before.stack| == Depth(p, vm.pc);
      var r := vm.Round(p);
      if r.Some? { return r.value; }
      StepKeepsDepth(p, before);
      assert |vm.Pushed()| == STACK_SLOTS - vm.sp;
    }
  }

  method RunStr(op: StrOp, m: Memory, p: Word, q: Word) returns (r: Option<Word>)
    ensures r == StrAlu(op, m, p, q)
  {
    if op.MATCH? && (p == 0 || q == 0) { return Some(0); }
    var s, t := StringAt(m, p), StringAt(m, q);
    if s.None? || t.None? { return None; }
    match op {
      case MATCH =>
        var b := Wildcard.WildcardMatch(s.value, t.value);
        return Some(Truth(b));
      case STREQ => return Some(Truth(s == t));
      case STRNE => return Some(Truth(s != t));
    }
  }
}
