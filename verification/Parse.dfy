/** The one-pass parser: precedence climbing over tokens that emits stack code as it goes. */
module Parse {
  import opened Words
  import opened Vm
  import opened Syntax
  import opened Compile
  import E = Encoding

  datatype Keyword = KChar | KShort | KInt | KLong | KUnsigned

  /** Tokens after name lookup. Calls of builtins are not part of this model. */
  datatype Tok =
    | TNum(v: Word) | TStr(a: Word) | TVar(addr: Word, ty: Ty, isArray: bool) | TType(kw: Keyword) | TSizeof
    | TLParen | TRParen | TRBrack | TColon | TComma | TBang
    | TAssign | TCond | TLor | TLan | TBin(op: BinOp) | TInc | TDec | TBrak
    | TEof

  // ----- precedence levels: the order of the token enumeration -----

  const ASSIGN: nat := 136
  const COND: nat := 137
  const LOR: nat := 138
  const LAN: nat := 139
  const INC: nat := 157

  function OpLevel(op: BinOp): nat {
    match op
    case Or => 140 case Xor => 141 case And => 142 case Eq => 143 case Ne => 144
    case Lt => 145 case Gt => 146 case Le => 147 case Ge => 148 case Match => 149
    case Shl => 150 case Shr => 151 case Add => 152 case Sub => 153
    case Mul => 154 case Div => 155 case Mod => 156
  }

  function Level(t: Tok): nat {
    match t
    case TAssign => ASSIGN
    case TCond => COND
    case TLor => LOR
    case TLan => LAN
    case TBin(op) => OpLevel(op)
    case TInc => INC
    case TDec => 158
    case TBrak => 159
    case _ => 0
  }

  /** The level the right operand of an operator is parsed at. */
  function RightOf(op: BinOp): nat {
    match op
    case Or => 141 case Xor => 142 case And => 143
    case Eq => 145 case Ne => 145
    case Lt => 150 case Gt => 150 case Le => 150 case Ge => 150 case Match => 150
    case Shl => 152 case Shr => 152 case Add => 154 case Sub => 154
    case Mul => 157 case Div => 157 case Mod => 157
  }

  // ----- parser state -----

  /** Position in the tokens, code emitted so far, type of the expression just parsed. */
  datatype PS = PS(pos: nat, code: seq<Instr>, ty: Ty)

  function Peek(toks: seq<Tok>, i: nat): Tok { if i < |toks| then toks[i] else TEof }

  /** Why compilation does not end in code: an error the compiler reports, or a step after which the
      buffer does not hold the instructions of what was read. Such a step overwrites a word that the test
      on the last two words took for the end of a load, or takes back a load that a jump goes behind. */
  datatype Why = SyntaxError | Garbled

  datatype Parsed = Done(s: PS) | Fault(why: Why)

  /** What an operator that takes back a load does when it cannot. */
  function NoLoad(code: seq<Instr>): Why {
    if E.EndsInLoad(code) || E.LooksLikeLoad(code) then Garbled else SyntaxError
  }

  /** Re-typing the last load for a cast. */
  function CastTo(r: PS, t: Ty): Parsed
    requires r.code != []
  {
    if E.Spoilt(r.code, AccessTy(t)) then Fault(Garbled) else Done(PS(r.pos, E.Retyped(r.code, AccessTy(t)), t))
  }

  /** Code for an expression that starts at `b` is there, and does not start with a load. */
  predicate Started(code: seq<Instr>, b: nat) { b < |code| && !code[b].LI? }

  function KwTy(k: Keyword): Ty {
    match k
    case KChar => Ty(CHAR, false, 0)
    case KShort => Ty(SHORT, false, 0)
    case KInt => Ty(INT, false, 0)
    case KLong => Ty(LONG, false, 0)
    case KUnsigned => Ty(CHAR, true, 0)
  }

  function Stars(toks: seq<Tok>, i: nat): nat
    decreases |toks| - i
  {
    if i < |toks| && toks[i] == TBin(Mul) then 1 + Stars(toks, i + 1) else 0
  }

  lemma {:induction false} StarsInRange(toks: seq<Tok>, i: nat)
    requires i <= |toks|
    ensures i + Stars(toks, i) <= |toks|
    decreases |toks| - i
  {
    if i < |toks| && toks[i] == TBin(Mul) { StarsInRange(toks, i + 1); }
  }

  /** A type name: one or two keywords and stars. Yields the type and the position after it. */
  function TypeName(toks: seq<Tok>, i: nat): (r: (Ty, nat))
    requires i < |toks| && toks[i].TType?
    ensures i < r.1 <= |toks|
  {
    var t := if toks[i].kw.KUnsigned? then Ty(INT, true, 0) else KwTy(toks[i].kw);
    var two := Peek(toks, i + 1).TType?;
    var u := if two then var k := KwTy(toks[i + 1].kw); Ty(k.width, t.unsigned || k.unsigned, 0) else t;
    var j := if two then i + 2 else i + 1;
    StarsInRange(toks, j);
    (u.(ptr := Stars(toks, j)), j + Stars(toks, j))
  }

  /** Adjacent string literals are one. */
  function SkipStrings(toks: seq<Tok>, i: nat): (j: nat)
    requires i <= |toks|
    ensures i <= j <= |toks|
    decreases |toks| - i
  {
    if i < |toks| && toks[i].TStr? then SkipStrings(toks, i + 1) else i
  }

  /** An lvalue's load replaced by "keep the address, then load": the code of `++` and `--`. */
  function BumpTail(code: seq<Instr>, ty: Ty, dec: bool): seq<Instr>
    requires E.EndsInLoad(code)
  {
    E.Front(code) + [PSH, code[|code| - 1], PSH, IMM(IncBytes(ty)), Bin(if dec then SUB else ADD), SI(AccessTy(ty))]
  }

  // ----- precedence climbing -----

  /** `expr(lev)`: an operand, then every operator of level `lev` or higher. */
  function Climb(toks: seq<Tok>, s: PS, lev: nat): (r: Parsed)
    requires s.pos <= |toks| && ASSIGN <= lev
    ensures r.Done? ==> s.pos < r.s.pos <= |toks| && s.code <= r.s.code && Started(r.s.code, |s.code|)
    decreases |toks| - s.pos, 2
  {
    var r := Prefix(toks, s);
    if r.Fault? then r else Operators(toks, r.s, lev, |s.code|)
  }

  function Prefix(toks: seq<Tok>, s: PS): (r: Parsed)
    requires s.pos <= |toks|
    ensures r.Done? ==> s.pos < r.s.pos <= |toks| && s.code <= r.s.code && Started(r.s.code, |s.code|)
    decreases |toks| - s.pos, 1
  {
    var n := s.(pos := s.pos + 1);
    match Peek(toks, s.pos)
    case TNum(v) => Done(PS(n.pos, s.code + [IMM(v)], INT_TY))
    case TStr(a) => Done(PS(SkipStrings(toks, n.pos), s.code + [IMM(a)], CHAR_PTR))
    case TSizeof =>
      if !Peek(toks, n.pos).TLParen? || !Peek(toks, n.pos + 1).TType? then Fault(SyntaxError)
      else
        var (t, i) := TypeName(toks, n.pos + 1);
        if !Peek(toks, i).TRParen? then Fault(SyntaxError) else Done(PS(i + 1, s.code + [IMM(SizeOfTy(t))], INT_TY))
    case TVar(a, ty, isArray) =>
      if Peek(toks, n.pos).TLParen? then Fault(SyntaxError)
      else if isArray then Done(PS(n.pos, s.code + [IMM(a)], ty.(ptr := 1)))
      else Done(PS(n.pos, s.code + [IMM(a), LI(AccessTy(ty))], ty))
    case TLParen =>
      if Peek(toks, n.pos).TType? then
        var (t, i) := TypeName(toks, n.pos);
        if !Peek(toks, i).TRParen? then Fault(SyntaxError)
        else
          var r := Climb(toks, s.(pos := i + 1), INC);
          if r.Fault? then r else CastTo(r.s, t)
      else
        var r := Climb(toks, n, ASSIGN);
        if r.Fault? then r else if !Peek(toks, r.s.pos).TRParen? then Fault(SyntaxError)
                                else Done(r.s.(pos := r.s.pos + 1))
    case TBin(Mul) =>
      var r := Climb(toks, n, INC);
      if r.Fault? then r else if r.s.ty.ptr == 0 then Fault(SyntaxError)
      else
        var t := r.s.ty.(ptr := r.s.ty.ptr - 1);
        Done(r.s.(code := r.s.code + [LI(AccessTy(t))], ty := t))
    case TBin(And) =>
      var r := Climb(toks, n, INC);
      if r.Fault? then r else if !E.Undoable(r.s.code) then Fault(NoLoad(r.s.code))
      else Done(r.s.(code := E.Front(r.s.code), ty := PointerTo(r.s.ty)))
    case TBang =>
      var r := Climb(toks, n, INC);
      if r.Fault? then r else Done(r.s.(code := r.s.code + [PSH, IMM(0), Bin(EQ)], ty := INT_TY))
    case TBin(Match) =>
      var r := Climb(toks, n, INC);
      if r.Fault? then r else Done(r.s.(code := r.s.code + [PSH, IMM(TWO64 - 1), Bin(XOR)], ty := INT_TY))
    case TBin(Add) =>
      var r := Climb(toks, n, INC);
      if r.Fault? then r else Done(r.s.(ty := INT_TY))
    case TBin(Sub) =>
      if Peek(toks, n.pos).TNum? then
        Done(PS(n.pos + 1, s.code + [IMM(Wrap(-(toks[n.pos].v as int)))], INT_TY))
      else
        var r := Climb(toks, n.(code := s.code + [IMM(TWO64 - 1), PSH]), INC);
        if r.Fault? then r else Done(r.s.(code := r.s.code + [Bin(MUL)], ty := INT_TY))
    case TInc =>
      var r := Climb(toks, n, INC);
      if r.Fault? then r else if !E.Undoable(r.s.code) then Fault(NoLoad(r.s.code))
      else Done(r.s.(code := BumpTail(r.s.code, r.s.ty, false)))
    case TDec =>
      var r := Climb(toks, n, INC);
      if r.Fault? then r else if !E.Undoable(r.s.code) then Fault(NoLoad(r.s.code))
      else Done(r.s.(code := BumpTail(r.s.code, r.s.ty, true)))
    case _ => Fault(SyntaxError)
  }

  /** The loop of `expr(lev)`, entered with the left operand parsed; its code starts at `b`. */
  function Operators(toks: seq<Tok>, s: PS, lev: nat, ghost b: nat): (r: Parsed)
    requires s.pos <= |toks| && ASSIGN <= lev && Started(s.code, b)
    ensures r.Done? ==> s.pos <= r.s.pos <= |toks| && Started(r.s.code, b) && r.s.code[..b + 1] == s.code[..b + 1]
    decreases |toks| - s.pos, 0
  {
    if Level(Peek(toks, s.pos)) < lev then Done(s)
    else
      var r := Operator(toks, s, b);
      if r.Fault? then r else Operators(toks, r.s, lev, b)
  }

  /** One round of the loop: one operator and its right operand. */
  function Operator(toks: seq<Tok>, s: PS, ghost b: nat): (r: Parsed)
    requires s.pos < |toks| && Started(s.code, b)
    ensures r.Done? ==> s.pos < r.s.pos <= |toks| && Started(r.s.code, b) && r.s.code[..b + 1] == s.code[..b + 1]
    decreases |toks| - s.pos, 0, 0
  {
    var n := s.(pos := s.pos + 1);
    match toks[s.pos]
    case TAssign =>
      if !E.Undoable(s.code) then Fault(NoLoad(s.code))
      else
        var r := Climb(toks, n.(code := E.Front(s.code) + [PSH]), ASSIGN);
        if r.Fault? then r else Done(r.s.(code := r.s.code + [SI(AccessTy(s.ty))], ty := s.ty))
    case TCond =>
      var r := Climb(toks, n.(code := s.code + [BZ(0)]), ASSIGN);
      if r.Fault? then r else if !Peek(toks, r.s.pos).TColon? then Fault(SyntaxError)
      else
        var thn := r.s.code[|s.code| := BZ(|r.s.code| + 1)];
        var q := Climb(toks, PS(r.s.pos + 1, thn + [JMP(0)], r.s.ty), COND);
        if q.Fault? then q else Done(q.s.(code := q.s.code[|thn| := JMP(|q.s.code|)]))
    case TLor =>
      var r := Climb(toks, n.(code := s.code + [BNZ(0)]), LAN);
      if r.Fault? then r
      else Done(r.s.(code := r.s.code[|s.code| := BNZ(|r.s.code|)], ty := INT_TY))
    case TLan =>
      var r := Climb(toks, n.(code := s.code + [BZ(0)]), 140);
      if r.Fault? then r
      else Done(r.s.(code := r.s.code[|s.code| := BZ(|r.s.code|)], ty := INT_TY))
    case TBin(op) =>
      if op.Match? && !IsCharPtr(s.ty) then Fault(SyntaxError)
      else
        var r := Climb(toks, n.(code := s.code + [PSH]), RightOf(op));
        if r.Fault? then r
        else
          var t := BinaryTy(op, s.ty, r.s.ty);
          if t.None? then Fault(SyntaxError)
          else Done(r.s.(code := r.s.code + OpCode(op, s.ty, r.s.ty), ty := t.value))
    case TBrak =>
      var r := Climb(toks, n.(code := s.code + [PSH]), ASSIGN);
      if r.Fault? then r else if !Peek(toks, r.s.pos).TRBrack? || s.ty.ptr == 0 then Fault(SyntaxError)
      else
        var t := s.ty.(ptr := s.ty.ptr - 1);
        Done(PS(r.s.pos + 1, r.s.code + ScaleCode(s.ty) + [Bin(ADD), LI(AccessTy(t))], t))
    case TInc =>
      if !E.Undoable(s.code) then Fault(NoLoad(s.code))
      else Done(n.(code := BumpTail(s.code, s.ty, false) + [PSH, IMM(IncBytes(s.ty)), Bin(SUB)]))
    case TDec =>
      if !E.Undoable(s.code) then Fault(NoLoad(s.code))
      else Done(n.(code := BumpTail(s.code, s.ty, true) + [PSH, IMM(IncBytes(s.ty)), Bin(ADD)]))
    case _ => Fault(SyntaxError)
  }
}
