/** The parser as it runs: token position, emitted code and current type updated in place. */
module Frontend {
  import opened Options
  import opened Words
  import opened Vm
  import opened Syntax
  import opened Compile
  import opened Parse
  import E = Encoding

  class Compiler {
    const toks: seq<Tok>
    var pos: nat
    var code: seq<Instr>
    var ty: Ty

    constructor (toks: seq<Tok>)
      ensures this.toks == toks && View() == PS(0, [], INT_TY)
    {
      this.toks := toks;
      pos, code, ty := 0, [], INT_TY;
    }

    ghost function View(): PS
      reads this
    { PS(pos, code, ty) }

    /** `expr(lev)`; `None` when all is well. */
    method Expr(lev: nat) returns (fault: Option<Why>)
      requires pos <= |toks| && ASSIGN <= lev
      modifies this
      ensures match Climb(toks, old(View()), lev)
              case Fault(w) => fault == Some(w)
              case Done(r) => fault == None && View() == r
      decreases |toks| - pos, 2
    {
      hide Prefix; hide Operator; hide OpCode;
      ghost var s0 := View();
      fault := Unary();
      if fault.Some? { return; }
      while Level(Peek(toks, pos)) >= lev
        invariant s0.pos < pos <= |toks| && Started(code, |s0.code|)
        invariant Climb(toks, s0, lev) == Operators(toks, View(), lev, |s0.code|)
        decreases |toks| - pos
      {
        ghost var s := View();
        fault := BinaryRound(|s0.code|);
        if fault.Some? { return; }
      }
      fault := None;
    }

    /** The operand an expression starts with. */
    method Unary() returns (fault: Option<Why>)
      requires pos <= |toks|
      modifies this
      ensures match Prefix(toks, old(View()))
              case Fault(w) => fault == Some(w)
              case Done(r) => fault == None && View() == r
      decreases |toks| - pos, 1
    {
      hide Climb; hide TypeName;
      var tk := Peek(toks, pos);
      match tk {
        case TNum(v) =>
          code, pos, ty := code + [IMM(v)], pos + 1, INT_TY;
          return None;
        case TStr(a) =>
          code, pos, ty := code + [IMM(a)], SkipStrings(toks, pos + 1), CHAR_PTR;
          return None;
        case TSizeof =>
          if !Peek(toks, pos + 1).TLParen? || !Peek(toks, pos + 2).TType? { return Some(SyntaxError); }
          var (t, i) := TypeName(toks, pos + 2);
          if !Peek(toks, i).TRParen? { return Some(SyntaxError); }
          code, pos, ty := code + [IMM(SizeOfTy(t))], i + 1, INT_TY;
          return None;
        case TVar(a, t, isArray) =>
          if Peek(toks, pos + 1).TLParen? { return Some(SyntaxError); }
          code, pos := code + [IMM(a)], pos + 1;
          if isArray {
            ty := t.(ptr := 1);
          } else {
            ty := t;
            code := code + [LI(AccessTy(ty))];
          }
          return None;
        case TLParen =>
          if Peek(toks, pos + 1).TType? {
            fault := CastOperand();
          } else {
            pos := pos + 1;
            fault := Expr(ASSIGN);
            if fault.Some? { return; }
            if !Peek(toks, pos).TRParen? { return Some(SyntaxError); }
            pos := pos + 1;
          }
          return;
        case _ =>
          fault := UnaryOperator();
      }
    }

    method CastOperand() returns (fault: Option<Why>)
      requires pos + 1 < |toks| && toks[pos].TLParen? && toks[pos + 1].TType?
      modifies this
      ensures match Prefix(toks, old(View()))
              case Fault(w) => fault == Some(w)
              case Done(r) => fault == None && View() == r
      decreases |toks| - pos, 0
    {
      hide Climb; hide TypeName;
      var (t, i) := TypeName(toks, pos + 1);
      if !Peek(toks, i).TRParen? { return Some(SyntaxError); }
      pos := i + 1;
      fault := Expr(INC);
      if fault.Some? { return; }
      ty := t;
      if E.EndsInLoad(code) {
        code := code[|code| - 1 := LI(AccessTy(ty))];
      } else if E.Spoilt(code, AccessTy(ty)) {
        return Some(Garbled);
      }
    }

    method UnaryOperator() returns (fault: Option<Why>)
      requires pos <= |toks|
      requires var tk := Peek(toks, pos); !tk.TNum? && !tk.TStr? && !tk.TSizeof? && !tk.TVar? && !tk.TLParen?
      modifies this
      ensures match Prefix(toks, old(View()))
              case Fault(w) => fault == Some(w)
              case Done(r) => fault == None && View() == r
      decreases |toks| - pos, 0
    {
      hide Climb; hide TypeName;
      var tk := Peek(toks, pos);
      match tk {
        case TBin(op) =>
          if !(op.Mul? || op.And? || op.Match? || op.Add? || op.Sub?) { return Some(SyntaxError); }
          fault := SignOperator(op);
        case TBang =>
          pos := pos + 1;
          fault := Expr(INC);
          if fault.Some? { return; }
          code, ty := code + [PSH, IMM(0), Bin(EQ)], INT_TY;
        case TInc =>
          pos := pos + 1;
          fault := Expr(INC);
          if fault.Some? { return; }
          if !E.Undoable(code) { return Some(NoLoad(code)); }
          code := BumpTail(code, ty, false);
        case TDec =>
          pos := pos + 1;
          fault := Expr(INC);
          if fault.Some? { return; }
          if !E.Undoable(code) { return Some(NoLoad(code)); }
          code := BumpTail(code, ty, true);
        case _ => return Some(SyntaxError);
      }
    }

    /** `*`, `&`, `~`, `+` and `-` in front of an operand. */
    method SignOperator(op: BinOp) returns (fault: Option<Why>)
      requires pos < |toks| && toks[pos] == TBin(op) && (op.Mul? || op.And? || op.Match? || op.Add? || op.Sub?)
      modifies this
      ensures match Prefix(toks, old(View()))
              case Fault(w) => fault == Some(w)
              case Done(r) => fault == None && View() == r
      decreases |toks| - pos, 0, 0
    {
      hide Climb; hide TypeName;
      pos := pos + 1;
      match op {
        case Mul =>
          fault := Expr(INC);
          if fault.Some? { return; }
          if ty.ptr == 0 { return Some(SyntaxError); }
          ty := ty.(ptr := ty.ptr - 1);
          code := code + [LI(AccessTy(ty))];
        case And =>
          fault := Expr(INC);
          if fault.Some? { return; }
          if !E.Undoable(code) { return Some(NoLoad(code)); }
          code, ty := E.Front(code), PointerTo(ty);
        case Match =>
          fault := Expr(INC);
          if fault.Some? { return; }
          code, ty := code + [PSH, IMM(TWO64 - 1), Bin(XOR)], INT_TY;
        case Add =>
          fault := Expr(INC);
          if fault.Some? { return; }
          ty := INT_TY;
        case Sub =>
          if Peek(toks, pos).TNum? {
            code, pos, ty := code + [IMM(Wrap(-(toks[pos].v as int)))], pos + 1, INT_TY;
            return None;
          }
          code := code + [IMM(TWO64 - 1), PSH];
          fault := Expr(INC);
          if fault.Some? { return; }
          code, ty := code + [Bin(MUL)], INT_TY;
      }
    }

    /** One operator of the loop and its right operand. */
    method BinaryRound(ghost b: nat) returns (fault: Option<Why>)
      requires pos < |toks| && Started(code, b)
      modifies this
      ensures match Operator(toks, old(View()), b)
              case Fault(w) => fault == Some(w)
              case Done(r) => fault == None && View() == r
      decreases |toks| - pos, 1
    {
      hide Climb; hide OpCode; hide BumpTail; hide ScaleCode;
      var tk, t, at := toks[pos], ty, |code|;
      pos := pos + 1;
      match tk {
        case TAssign =>
          if !E.Undoable(code) { return Some(NoLoad(code)); }
          code := E.Front(code) + [PSH];
          fault := Expr(ASSIGN);
          if fault.Some? { return; }
          ty := t;
          code := code + [SI(AccessTy(ty))];
        case TCond => fault := CondRound(b);
        case TLor =>
          code := code + [BNZ(0)];
          fault := Expr(LAN);
          if fault.Some? { return; }
          code, ty := code[at := BNZ(|code|)], INT_TY;
        case TLan =>
          code := code + [BZ(0)];
          fault := Expr(140);
          if fault.Some? { return; }
          code, ty := code[at := BZ(|code|)], INT_TY;
        case TBin(op) =>
          if op.Match? && !IsCharPtr(t) { return Some(SyntaxError); }
          code := code + [PSH];
          fault := Expr(RightOf(op));
          if fault.Some? { return; }
          var r := BinaryTy(op, t, ty);
          if r.None? { return Some(SyntaxError); }
          code, ty := code + OpCode(op, t, ty), r.value;
        case TBrak =>
          code := code + [PSH];
          fault := Expr(ASSIGN);
          if fault.Some? { return; }
          if !Peek(toks, pos).TRBrack? || t.ptr == 0 { return Some(SyntaxError); }
          pos, ty := pos + 1, t.(ptr := t.ptr - 1);
          code := code + ScaleCode(t) + [Bin(ADD), LI(AccessTy(ty))];
        case TInc =>
          if !E.Undoable(code) { return Some(NoLoad(code)); }
          code := BumpTail(code, ty, false) + [PSH, IMM(IncBytes(ty)), Bin(SUB)];
          fault := None;
        case TDec =>
          if !E.Undoable(code) { return Some(NoLoad(code)); }
          code := BumpTail(code, ty, true) + [PSH, IMM(IncBytes(ty)), Bin(ADD)];
          fault := None;
        case _ => return Some(SyntaxError);
      }
    }

    /** `? :`, after the `?`: emit the branch, patch it, emit the jump over the else part, patch that. */
    method CondRound(ghost b: nat) returns (fault: Option<Why>)
      requires 0 < pos <= |toks| && toks[pos - 1].TCond? && Started(code, b)
      modifies this
      ensures match Operator(toks, old(View()).(pos := old(pos) - 1), b)
              case Fault(w) => fault == Some(w)
              case Done(r) => fault == None && View() == r
      decreases |toks| - pos, 3
    {
      hide Climb; hide OpCode; hide BumpTail; hide ScaleCode;
      var bz := |code|;
      code := code + [BZ(0)];
      fault := Expr(ASSIGN);
      if fault.Some? { return; }
      if !Peek(toks, pos).TColon? { return Some(SyntaxError); }
      pos := pos + 1;
      code := code[bz := BZ(|code| + 1)];
      var jmp := |code|;
      code := code + [JMP(0)];
      fault := Expr(COND);
      if fault.Some? { return; }
      code := code[jmp := JMP(|code|)];
    }
  }

  // ----- the expression list -----

  /** Expressions separated by commas; whatever follows the last one is not looked at. */
  function ParseList(toks: seq<Tok>, s: PS): (r: Parsed)
    requires s.pos <= |toks|
    decreases |toks| - s.pos
  {
    var r := Climb(toks, s, ASSIGN);
    if r.Fault? then r
    else if Peek(toks, r.s.pos).TComma? then ParseList(toks, r.s.(pos := r.s.pos + 1))
    else r
  }

  /** `expr_compile`: the parsed list and EXIT. */
  method ExprCompile(toks: seq<Tok>) returns (code: seq<Instr>, fault: Option<Why>)
    ensures match ParseList(toks, PS(0, [], INT_TY))
            case Fault(w) => fault == Some(w)
            case Done(s) => fault == None && code == s.code + [EXIT]
  {
    hide Climb;
    var c := new Compiler(toks);
    ghost var all := ParseList(toks, c.View());
    var more := true;
    while more
      invariant c.toks == toks && fresh(c) && c.pos <= |toks|
      invariant more ==> all == ParseList(toks, c.View())
      invariant !more ==> all == Done(c.View())
      decreases if more then |toks| - c.pos + 1 else 0
    {
      fault := c.Expr(ASSIGN);
      if fault.Some? { return [], fault; }
      more := Peek(toks, c.pos).TComma?;
      if more { c.pos := c.pos + 1; }
    }
    code, fault := c.code + [EXIT], None;
  }
}
