/** The instruction buffer: words, jump addresses, relocation and the "last instruction" peek. */
module Encoding {
  import opened Options
  import opened Words
  import opened Vm
  import opened Syntax
  import opened Compile
  import opened CompileShape

  const OP_JMP: int := 2
  const OP_JSR: int := 3
  const OP_BZ: int := 4
  const OP_BNZ: int := 5
  const OP_LI: int := 8
  const OP_SI: int := 9

  function BinCode(op: Op): int {
    match op
    case LTu => 12 case GTu => 13 case LEu => 14 case GEu => 15 case OR => 16 case XOR => 17 case AND => 18
    case EQ => 19 case NE => 20 case LT => 21 case GT => 22 case LE => 23 case GE => 24 case SHL => 25
    case SHR => 26 case SAR => 27 case ADD => 28 case SUB => 29 case MUL => 30 case DIV => 31 case MOD => 32
    case DIVu => 33 case MODu => 34
  }

  /** The opcode word. A builtin call is its own opcode, above SI. */
  function Opcode(i: Instr): int {
    match i
    case IMM(_) => 1
    case JMP(_) => OP_JMP
    case BZ(_) => OP_BZ
    case BNZ(_) => OP_BNZ
    case ADJ(_) => 7
    case LI(_) => OP_LI
    case SI(_) => OP_SI
    case PSH => 11
    case Bin(op) => BinCode(op)
    case Str(MATCH) => 41
    case Str(STREQ) => 42
    case Str(STRNE) => 43
    case Call(fn) => if fn < 6 then 35 + fn else 38 + fn
    case EXIT => 47
  }

  /** The name the debug output prints for an opcode. */
  function Printed(k: int): string {
    match k
    case 0 => "LEA" case 1 => "IMM" case 2 => "JMP" case 3 => "JSR" case 4 => "BZ" case 5 => "BNZ" case 6 => "ENT"
    case 7 => "ADJ" case 8 => "LI" case 9 => "SI" case 10 => "LEV" case 11 => "PSH" case 12 => "LTu"
    case 13 => "GTu" case 14 => "LEu" case 15 => "GEu" case 16 => "OR" case 17 => "XOR" case 18 => "AND"
    case 19 => "EQ" case 20 => "NE" case 21 => "LT" case 22 => "GT" case 23 => "LE" case 24 => "GE" case 25 => "SHL"
    case 26 => "SHR" case 27 => "SAR" case 28 => "ADD" case 29 => "SUB" case 30 => "MUL" case 31 => "DIV"
    case 32 => "MOD" case 33 => "DIVu" case 34 => "MODu" case 35 => "PRTF" case 36 => "KSYM" case 37 => "NTHL"
    case 38 => "NTHS" case 39 => "SCMP" case 40 => "COMM" case 41 => "MACH" case 42 => "SSEQ" case 43 => "SSNE"
    case 44 => "SCAL" case 45 => "VMXT" case 46 => "SYST" case _ => "EXIT"
  }

  function OpName(op: Op): string {
    match op
    case OR => "OR" case XOR => "XOR" case AND => "AND" case EQ => "EQ" case NE => "NE" case LT => "LT"
    case GT => "GT" case LE => "LE" case GE => "GE" case LTu => "LTu" case GTu => "GTu" case LEu => "LEu"
    case GEu => "GEu" case SHL => "SHL" case SHR => "SHR" case SAR => "SAR" case ADD => "ADD" case SUB => "SUB"
    case MUL => "MUL" case DIV => "DIV" case DIVu => "DIVu" case MOD => "MOD" case MODu => "MODu"
  }

  function Name(i: Instr): string
    requires !i.Call?
  {
    match i
    case IMM(_) => "IMM" case JMP(_) => "JMP" case BZ(_) => "BZ" case BNZ(_) => "BNZ" case ADJ(_) => "ADJ"
    case LI(_) => "LI" case SI(_) => "SI" case PSH => "PSH" case Bin(op) => OpName(op)
    case Str(MATCH) => "MACH" case Str(STREQ) => "SSEQ" case Str(STRNE) => "SSNE" case EXIT => "EXIT"
  }

  /** The two tables agree: every opcode is printed under its own name, and the builtins are the other nine from PRTF
      to SYST. */
  lemma OpcodeNamed(i: Instr)
    ensures i.Call? && i.fn < 9 ==>
              Printed(Opcode(i)) in {"PRTF", "KSYM", "NTHL", "NTHS", "SCMP", "COMM", "SCAL", "VMXT", "SYST"}
    ensures !i.Call? ==> Printed(Opcode(i)) == Name(i)
  {}

  function TypeCode(t: Ty): int {
    (match t.width case CHAR => 0 case SHORT => 1 case INT => 2 case LONG => 3)
    + (if t.unsigned then 8 else 0) + 16 * t.ptr
  }

  /** Index in the buffer of instruction `i`; word 0 is unused. */
  function WordIndex(p: seq<Instr>, i: nat): nat
    requires i <= |p|
  { 1 + WordsUpTo(p, i) }

  /** Address of a word of a buffer of longs. */
  function Address(base: int, k: nat): int { base + 8 * k }

  function Operand(p: seq<Instr>, i: Instr, base: int): int
    requires i.IsJump() ==> i.Target() <= |p|
  {
    match i
    case IMM(v) => v
    case LI(t) => TypeCode(t)
    case SI(t) => TypeCode(t)
    case ADJ(n) => n
    case JMP(t) => Address(base, WordIndex(p, t))
    case BZ(t) => Address(base, WordIndex(p, t))
    case BNZ(t) => Address(base, WordIndex(p, t))
    case _ => 0
  }

  predicate InRange(p: seq<Instr>) { forall i :: 0 <= i < |p| && p[i].IsJump() ==> p[i].Target() <= |p| }

  function EncodeOne(p: seq<Instr>, i: Instr, base: int): (w: seq<int>)
    requires i.IsJump() ==> i.Target() <= |p|
    ensures |w| == i.Words()
  { if i.Words() == 1 then [Opcode(i)] else [Opcode(i), Operand(p, i, base)] }

  /** The buffer up to instruction `k`, when it sits at address `base`. */
  function EncodeUpTo(p: seq<Instr>, k: nat, base: int): (w: seq<int>)
    requires k <= |p| && InRange(p)
    ensures |w| == WordIndex(p, k)
  {
    if k == 0 then [0] else EncodeUpTo(p, k - 1, base) + EncodeOne(p, p[k - 1], base)
  }

  function Encode(p: seq<Instr>, base: int): seq<int>
    requires InRange(p)
  { EncodeUpTo(p, |p|, base) }

  lemma {:induction false} EncodeGrows(p: seq<Instr>, k: nat, l: nat, base: int)
    requires k <= l <= |p| && InRange(p)
    ensures EncodeUpTo(p, k, base) <= EncodeUpTo(p, l, base)
    decreases l - k
  {
    if k < l { EncodeGrows(p, k, l - 1, base); }
  }

  /** Where instruction `k` sits in the buffer, and what stands there. */
  lemma WordsAt(p: seq<Instr>, k: nat, base: int)
    requires k < |p| && InRange(p)
    ensures var i, w := WordIndex(p, k), Encode(p, base);
            && WordIndex(p, k + 1) == i + p[k].Words() <= |w| && w[i] == Opcode(p[k])
            && (p[k].Words() == 2 ==> w[i + 1] == Operand(p, p[k], base))
  {
    hide Opcode; hide Operand;
    EncodeGrows(p, k + 1, |p|, base);
    var e := EncodeUpTo(p, k, base) + EncodeOne(p, p[k], base);
    assert e[WordIndex(p, k)] == EncodeOne(p, p[k], base)[0];
  }

  /** What moving the buffer changes: the operands of jumps, and nothing else. */
  lemma MovedWords(p: seq<Instr>, i: Instr, base: int, to: int)
    requires i.IsJump() ==> i.Target() <= |p|
    ensures Operand(p, i, to) == if i.IsJump() then Operand(p, i, base) - (base - to) else Operand(p, i, base)
  {}

  /** What the scan reads off an opcode. */
  lemma OpcodeReads(i: Instr)
    ensures Opcode(i) <= OP_SI <==> i.Words() == 2
    ensures Opcode(i) == OP_JMP || Opcode(i) == OP_JSR || Opcode(i) == OP_BZ || Opcode(i) == OP_BNZ <==> i.IsJump()
  {}

  /** The relocation loop after `realloc` moved the buffer from `le` to `at`: every jump, and
      only jumps, now points into the new buffer, for every instruction sequence. */
  method Relocate(insn: array<int>, le: int, at: int, ghost p: seq<Instr>)
    requires InRange(p) && insn[..] == Encode(p, le)
    modifies insn
    ensures insn[..] == Encode(p, at)
  {
    hide Opcode; hide Operand; hide EncodeUpTo; hide InRange;
    var i := 1;
    ghost var k, from, to := 0, Encode(p, le), Encode(p, at);
    FirstWord(p, le, at);
    while i < insn.Length
      invariant k <= |p| && i == WordIndex(p, k) <= insn.Length == |from| == |to|
      invariant forall j :: 0 <= j < i ==> insn[j] == to[j]
      invariant forall j :: i <= j < insn.Length ==> insn[j] == from[j]
    {
      Inside(p, k);
      WordsAt(p, k, le);
      WordsAt(p, k, at);
      MovedWords(p, p[k], le, at);
      OpcodeReads(p[k]);
      if insn[i] == OP_JMP || insn[i] == OP_JSR || insn[i] == OP_BZ || insn[i] == OP_BNZ {
        insn[i + 1] := insn[i + 1] - (le - at);
      }
      if insn[i] <= OP_SI { i := i + 1; }
      i := i + 1;
      k := k + 1;
    }
  }

  lemma Inside(p: seq<Instr>, k: nat)
    requires k <= |p| && InRange(p) && WordIndex(p, k) < WordIndex(p, |p|)
    ensures k < |p| && (p[k].IsJump() ==> p[k].Target() <= |p|)
  {}

  lemma FirstWord(p: seq<Instr>, le: int, at: int)
    requires InRange(p)
    ensures |Encode(p, le)| == |Encode(p, at)| == WordIndex(p, |p|) >= 1 && Encode(p, le)[0] == Encode(p, at)[0]
  {
    EncodeGrows(p, 0, |p|, le);
    EncodeGrows(p, 0, |p|, at);
  }

  // ----- the peek -----

  /** `*(e-1) == LI`: the test the parser makes on the last two words. */
  predicate RawPeek(words: seq<int>)
    requires |words| >= 2
  { words[|words| - 2] == OP_LI }

  /** An operand word equal to LI: a constant 8, or a load or store of `unsigned char`. */
  predicate OperandEight(i: Instr) {
    match i
    case IMM(v) => v == 8
    case LI(t) => t == Ty(CHAR, true, 0)
    case SI(t) => t == Ty(CHAR, true, 0)
    case ADJ(n) => n == 8
    case _ => false
  }

  predicate EndsInLoad(p: seq<Instr>) { p != [] && p[|p| - 1].LI? }

  /** Ends in a one-word instruction behind such an operand. */
  predicate LooksLikeLoad(p: seq<Instr>) {
    |p| >= 2 && p[|p| - 1].Words() == 1 && OperandEight(p[|p| - 2])
  }

  /** Some jump goes to the end. */
  predicate Landed(p: seq<Instr>) { exists i :: 0 <= i < |p| && p[i].IsJump() && p[i].Target() == |p| }

  /** The load at the end can be taken back: no jump goes behind it. */
  predicate Undoable(p: seq<Instr>) { EndsInLoad(p) && !Landed(p) }

  /** No operand of a jump is LI: they are addresses in the buffer. */
  predicate Addresses(p: seq<Instr>, base: int)
    requires InRange(p)
  { forall i :: 0 <= i < |p| && p[i].IsJump() ==> Operand(p, p[i], base) != OP_LI }

  /** The raw test says "load" exactly for a load and for what looks like one. */
  lemma RawPeekExact(p: seq<Instr>, base: int)
    requires InRange(p) && p != [] && Addresses(p, base)
    ensures |Encode(p, base)| >= 2
    ensures RawPeek(Encode(p, base)) <==> EndsInLoad(p) || LooksLikeLoad(p)
  {
    hide Opcode; hide Operand; hide EncodeUpTo; hide OperandEight;
    var n := |p|;
    WordsAt(p, n - 1, base);
    OpcodeReads(p[n - 1]);
    LastLoad(p[n - 1]);
    if n >= 2 {
      WordsAt(p, n - 2, base);
      OperandIsEight(p, p[n - 2], base);
      OpcodeReads(p[n - 2]);
      LastLoad(p[n - 2]);
    } else {
      FirstWord(p, base, base);
      FirstIsZero(p, base);
    }
  }

  lemma FirstIsZero(p: seq<Instr>, base: int)
    requires InRange(p) && |Encode(p, base)| >= 1
    ensures Encode(p, base)[0] == 0
  {
    EncodeGrows(p, 0, |p|, base);
  }

  lemma LastLoad(i: Instr)
    ensures Opcode(i) == OP_LI <==> i.LI?
  {}

  lemma OperandIsEight(p: seq<Instr>, i: Instr, base: int)
    requires i.IsJump() ==> i.Target() <= |p| && Operand(p, i, base) != OP_LI
    ensures i.Words() == 2 ==> (Operand(p, i, base) == OP_LI <==> OperandEight(i))
    ensures i.Words() == 1 ==> !OperandEight(i)
  {}

  // ----- re-typing the last load -----

  function Front(p: seq<Instr>): seq<Instr>
    requires p != []
  { p[..|p| - 1] }

  /** What a cast means to do to the code of its operand. */
  function Retyped(c: seq<Instr>, t: Ty): (r: seq<Instr>)
    requires c != []
    ensures |r| == |c|
  { if EndsInLoad(c) then Front(c) + [LI(t)] else c }

  /** What it does to the words. */
  function CastWords(words: seq<int>, t: Ty): seq<int>
    requires |words| >= 2
  { if RawPeek(words) then words[|words| - 1 := TypeCode(t)] else words }

  /** It overwrites an opcode with another word. */
  predicate Spoilt(p: seq<Instr>, t: Ty) { LooksLikeLoad(p) && Opcode(p[|p| - 1]) != TypeCode(t) }

  /** A cast does to the words what it means to do exactly when it does not overwrite an opcode. */
  lemma CastExact(p: seq<Instr>, t: Ty, base: int)
    requires InRange(p) && p != [] && Addresses(p, base)
    ensures |Encode(p, base)| >= 2 && InRange(Retyped(p, t))
    ensures CastWords(Encode(p, base), t) == Encode(Retyped(p, t), base) <==> !Spoilt(p, t)
  {
    hide Opcode; hide Operand; hide OperandEight; hide TypeCode; hide LooksLikeLoad; hide RawPeek; hide Addresses;
    hide InRange; hide SameSizes;
    RawPeekExact(p, base);
    RetypedSizes(p, t);
    NotBoth(p);
    if EndsInLoad(p) {
      LoadRewritten(p, t, base);
    } else if LooksLikeLoad(p) {
      OneWord(p);
      WordsAt(p, |p| - 1, base);
      var w, k := Encode(p, base), |Encode(p, base)| - 1;
      assert w[k := TypeCode(t)][k] == TypeCode(t);
    }
  }

  lemma LoadRewritten(p: seq<Instr>, t: Ty, base: int)
    requires InRange(p) && EndsInLoad(p) && InRange(Retyped(p, t))
    ensures |Encode(p, base)| >= 2
    ensures Encode(p, base)[|Encode(p, base)| - 1 := TypeCode(t)] == Encode(Retyped(p, t), base)
  {
    hide InRange; hide Opcode;
    var q, k := Retyped(p, t), |p| - 1;
    RetypedSizes(p, t);
    SamePrefix(p, q, k, base);
    var u, v := EncodeOne(p, p[k], base), EncodeOne(q, q[k], base);
    LastLoad(p[k]);
    LastLoad(q[k]);
    assert u[1 := TypeCode(t)] == v;
  }

  predicate SameSizes(p: seq<Instr>, q: seq<Instr>) {
    |p| == |q| && forall j :: 0 <= j < |p| ==> p[j].Words() == q[j].Words()
  }

  lemma {:induction false} SameIndex(p: seq<Instr>, q: seq<Instr>, i: nat)
    requires SameSizes(p, q) && i <= |p|
    ensures WordIndex(p, i) == WordIndex(q, i)
  {
    if i > 0 { SameIndex(p, q, i - 1); }
  }

  lemma SameOperand(p: seq<Instr>, q: seq<Instr>, i: Instr, base: int)
    requires SameSizes(p, q) && (i.IsJump() ==> i.Target() <= |p|)
    ensures EncodeOne(p, i, base) == EncodeOne(q, i, base)
  {
    if i.IsJump() { SameIndex(p, q, i.Target()); }
  }

  lemma {:induction false} SamePrefix(p: seq<Instr>, q: seq<Instr>, k: nat, base: int)
    requires SameSizes(p, q) && k <= |p| && p[..k] == q[..k] && InRange(p) && InRange(q)
    ensures EncodeUpTo(p, k, base) == EncodeUpTo(q, k, base)
  {
    if k > 0 {
      assert p[k - 1] == p[..k][k - 1] == q[k - 1];
      assert p[..k - 1] == p[..k][..k - 1] && q[..k - 1] == q[..k][..k - 1];
      SamePrefix(p, q, k - 1, base);
      SameOperand(p, q, p[k - 1], base);
    }
  }

  lemma RetypedSizes(p: seq<Instr>, t: Ty)
    requires p != [] && InRange(p)
    ensures SameSizes(p, Retyped(p, t)) && InRange(Retyped(p, t))
    ensures var q := Retyped(p, t); EndsInLoad(p) ==> p[..|p| - 1] == q[..|p| - 1] && q[|p| - 1] == LI(t)
  {}

  lemma NotBoth(p: seq<Instr>)
    ensures !(EndsInLoad(p) && LooksLikeLoad(p))
  {}

  lemma OneWord(p: seq<Instr>)
    requires LooksLikeLoad(p)
    ensures p[|p| - 1].Words() == 1
  {}

  // ----- taking back the last load -----

  /** What `=` does to the words: the opcode of the load becomes PSH, its operand is dropped. */
  function AssignWords(words: seq<int>): seq<int>
    requires |words| >= 2
  { words[..|words| - 2] + [11] }

  /** What `++` and `--` do first: PSH goes in front of the load. */
  function KeepWords(words: seq<int>): seq<int>
    requires |words| >= 2
  { words[..|words| - 2] + [11] + words[|words| - 2..] }

  /** What `&` does: the load is dropped. */
  function AddressWords(words: seq<int>): seq<int>
    requires |words| >= 2
  { words[..|words| - 2] }

  /** Taking the load back does to the words what it means to do to the instructions exactly when no
      jump goes behind the load: the operands of such jumps stay what they were. */
  lemma UndoExact(p: seq<Instr>, base: int)
    requires InRange(p) && EndsInLoad(p)
    ensures |Encode(p, base)| >= 2 && InRange(Front(p) + [PSH]) && InRange(Front(p) + [PSH, p[|p| - 1]])
    ensures AssignWords(Encode(p, base)) == Encode(Front(p) + [PSH], base) <==> !Landed(p)
    ensures KeepWords(Encode(p, base)) == Encode(Front(p) + [PSH, p[|p| - 1]], base) <==> !Landed(p)
    ensures InRange(Front(p)) <==> !Landed(p)
    ensures !Landed(p) ==> AddressWords(Encode(p, base)) == Encode(Front(p), base)
  {
    hide Landed; hide InRange;
    FrontRange(p);
    var k, li := |p| - 1, p[|p| - 1];
    var f, q, r := Front(p), Front(p) + [PSH], Front(p) + [PSH, li];
    assert f[..k] == f && q[..k] == f && r[..k] == f && q[k] == PSH && r[k] == PSH && r[k + 1] == li;
    assert Opcode(PSH) == 11;
    if Landed(p) {
      var i := Lander(p);
      LandedWord(p, q, i, base);
      LandedWord(p, r, i, base);
    } else {
      KeptPrefix(p, f, k, k, base);
      KeptPrefix(p, q, k, k, base);
      KeptPrefix(p, r, k, k, base);
      assert EncodeOne(r, li, base) == EncodeOne(p, li, base);
      assert EncodeUpTo(r, k + 1, base) == EncodeUpTo(p, k, base) + [11];
    }
  }

  lemma FrontRange(p: seq<Instr>)
    requires InRange(p) && EndsInLoad(p)
    ensures InRange(Front(p) + [PSH]) && InRange(Front(p) + [PSH, p[|p| - 1]])
    ensures InRange(Front(p)) <==> !Landed(p)
    ensures !Landed(p) ==> forall i :: 0 <= i < |p| - 1 && p[i].IsJump() ==> p[i].Target() <= |p| - 1
  {
    var f := Front(p);
    assert forall i :: 0 <= i < |f| ==> f[i] == p[i];
  }

  lemma Lander(p: seq<Instr>) returns (i: nat)
    requires Landed(p) && EndsInLoad(p)
    ensures i < |p| - 1 && p[i].IsJump() && p[i].Target() == |p|
  {
    i :| 0 <= i < |p| && p[i].IsJump() && p[i].Target() == |p|;
  }

  lemma {:induction false} PrefixIndex(p: seq<Instr>, q: seq<Instr>, k: nat, t: nat)
    requires t <= k <= |p| && k <= |q| && p[..k] == q[..k]
    ensures WordIndex(p, t) == WordIndex(q, t)
  {
    if t > 0 {
      assert p[t - 1] == p[..k][t - 1] == q[t - 1];
      PrefixIndex(p, q, k, t - 1);
    }
  }

  lemma {:induction false} KeptPrefix(p: seq<Instr>, q: seq<Instr>, k: nat, j: nat, base: int)
    requires j <= k <= |p| && k <= |q| && p[..k] == q[..k] && InRange(p) && InRange(q)
    requires forall i :: 0 <= i < k && p[i].IsJump() ==> p[i].Target() <= k
    ensures EncodeUpTo(p, j, base) == EncodeUpTo(q, j, base)
  {
    if j > 0 {
      var x := p[j - 1];
      assert x == p[..k][j - 1] == q[j - 1];
      KeptPrefix(p, q, k, j - 1, base);
      if x.IsJump() { PrefixIndex(p, q, k, x.Target()); }
      assert EncodeOne(p, x, base) == EncodeOne(q, x, base);
    }
  }

  /** The operand of a jump behind the last load, before and after the load is taken back. */
  lemma LandedWord(p: seq<Instr>, q: seq<Instr>, i: nat, base: int)
    requires InRange(p) && InRange(q) && EndsInLoad(p) && |p| <= |q| && Front(p) == q[..|p| - 1]
    requires q[|p| - 1].Words() == 1 && i < |p| - 1 && p[i].IsJump() && p[i].Target() == |p|
    ensures var at := WordIndex(p, i) + 1;
            at < |Encode(p, base)| - 2 && at < |Encode(q, base)| && Encode(p, base)[at] != Encode(q, base)[at]
  {
    hide InRange; hide Opcode; hide EncodeUpTo;
    var k := |p| - 1;
    assert p[..k] == q[..k];
    assert q[i] == q[..k][i] == p[i];
    WordsAt(p, i, base);
    WordsAt(q, i, base);
    PrefixIndex(p, q, k, i);
    PrefixIndex(p, q, k, k);
    IndexGrows(p, i + 1, k);
    OpcodeReads(p[i]);
  }

  lemma {:induction false} IndexGrows(p: seq<Instr>, i: nat, k: nat)
    requires i <= k <= |p|
    ensures WordIndex(p, i) <= WordIndex(p, k)
  {
    if i < k { IndexGrows(p, i, k - 1); }
  }

  /** What comes after `&`: with instruction `i` appended the words are those of the instructions exactly when no
      jump goes behind the load taken back, or `i` takes its place word for word. */
  lemma RepairExact(p: seq<Instr>, i: Instr, base: int)
    requires InRange(p) && EndsInLoad(p) && !i.IsJump()
    ensures |Encode(p, base)| >= 2 && InRange(Front(p) + [i])
    ensures AddressWords(Encode(p, base)) + EncodeOne(p, i, base) == Encode(Front(p) + [i], base) <==>
            !Landed(p) || i.Words() == 2
  {
    hide Landed; hide InRange; hide Opcode;
    ReplacedRange(p, i);
    FrontRange(p);
    var k, q := |p| - 1, Front(p) + [i];
    assert q[..k] == p[..k] && q[k] == i && Encode(p, base)[..|Encode(p, base)| - 2] == EncodeUpTo(p, k, base);
    assert EncodeOne(q, i, base) == EncodeOne(p, i, base);
    if i.Words() == 2 {
      assert SameSizes(p, q);
      SamePrefix(p, q, k, base);
    } else if Landed(p) {
      var j := Lander(p);
      LandedWord(p, q, j, base);
    } else {
      KeptPrefix(p, q, k, k, base);
    }
  }

  lemma ReplacedRange(p: seq<Instr>, i: Instr)
    requires InRange(p) && EndsInLoad(p) && !i.IsJump()
    ensures InRange(Front(p) + [i])
  {}

  /** So in `*&(a && b)`, which the model calls garbled at the `&`, the buffer ends as that of `a && b`. */
  lemma AddressRepaired(a: Word, t: Ty, b: Word, u: Ty, base: int)
    ensures InRange(AndCode(a, t, b, u)) && Landed(AndCode(a, t, b, u))
    ensures var p := AndCode(a, t, b, u); AddressWords(Encode(p, base)) + [OP_LI, TypeCode(u)] == Encode(p, base)
  {
    var p := AndCode(a, t, b, u);
    assert p[2].IsJump() && p[2].Target() == |p|;
    hide Landed; hide EncodeUpTo; hide TypeCode;
    RepairExact(p, LI(u), base);
    assert Front(p) + [LI(u)] == p;
  }

  /** `a && b` before the `=` of `a && b = 3`. */
  function AndCode(a: Word, t: Ty, b: Word, u: Ty): seq<Instr> { [IMM(a), LI(t), BZ(5), IMM(b), LI(u)] }

  /** The words of `a && b = 3`: the branch of `&&` goes to word 11, which holds the 3, and 3 is the
      opcode of JSR. */
  lemma AndAssignJumps(a: Word, t: Ty, b: Word, u: Ty, base: int)
    ensures InRange(AndCode(a, t, b, u)) && |Encode(AndCode(a, t, b, u), base)| == 11
    ensures var w := AssignWords(Encode(AndCode(a, t, b, u), base)) + [1, 3, OP_SI, TypeCode(u)];
            && w[5] == OP_BZ && w[6] == Address(base, 11)
            && w[10] == Opcode(IMM(3)) && w[11] == 3 == OP_JSR
  {
    var p := AndCode(a, t, b, u);
    assert WordsUpTo(p, 1) == 2;
    assert WordsUpTo(p, 2) == 4;
    assert WordsUpTo(p, 3) == 6;
    assert WordsUpTo(p, 4) == 8;
    assert WordIndex(p, 5) == 11;
    WordsAt(p, 2, base);
  }

  /** `flags & mask` with `mask` an unsigned char. */
  function Masked(flags: Word, mask: Word): Expr {
    Binary(And, Var(flags, Ty(LONG, false, 0), false), Var(mask, Ty(CHAR, true, 0), false))
  }

  lemma VarCode(a: Word, t: Ty, n: nat)
    requires t.ptr == 0
    ensures Good(Var(a, t, false)) && Type(Var(a, t, false)) == t && Code(Var(a, t, false), None, n) == [IMM(a), LI(t)]
  {}

  lemma MaskedGood(flags: Word, mask: Word)
    ensures Good(Masked(flags, mask))
  {}

  lemma MaskedCode(flags: Word, mask: Word)
    ensures Good(Masked(flags, mask))
    ensures Code(Masked(flags, mask), None, 0) ==
            [IMM(flags), LI(Ty(LONG, false, 0)), PSH, IMM(mask), LI(Ty(CHAR, true, 0)), Bin(AND)]
  {
    hide Code; hide TypeOf; hide Eval; hide BinaryEff;
    var e := Masked(flags, mask);
    MaskedGood(flags, mask);
    UnfoldBinary(And, e.a, e.b, None, 0, map[]);
    VarCode(flags, Ty(LONG, false, 0), 0);
    VarCode(mask, Ty(CHAR, true, 0), 3);
  }
}
