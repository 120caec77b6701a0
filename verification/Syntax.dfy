/** Expression trees, their types and their meaning, independent of any code. */
module Syntax {
  import opened Options
  import opened Words
  import opened Vm

  /** Binary operators that evaluate both sides. */
  datatype BinOp = Or | Xor | And | Eq | Ne | Lt | Gt | Le | Ge | Match | Shl | Shr | Add | Sub | Mul | Div | Mod

  datatype Expr =
    | Num(v: Word)
    | StrLit(addr: Word)
    | SizeOf(t: Ty)
    | Var(addr: Word, ty: Ty, isArray: bool)
    | Cast(t: Ty, e: Expr)
    | Deref(e: Expr)
    | AddrOf(e: Expr)
    | Not(e: Expr)
    | BitNot(e: Expr)
    | Plus(e: Expr)
    | Neg(e: Expr)
    | PreInc(dec: bool, e: Expr)
    | PostInc(dec: bool, e: Expr)
    | Assign(l: Expr, r: Expr)
    | Cond(c: Expr, a: Expr, b: Expr)
    | Lor(a: Expr, b: Expr)
    | Lan(a: Expr, b: Expr)
    | Binary(op: BinOp, a: Expr, b: Expr)
    | Index(a: Expr, i: Expr)

  // ----- types -----

  const INT_TY: Ty := Ty(INT, false, 0)
  const CHAR_PTR: Ty := Ty(CHAR, false, 1)

  predicate IsCharPtr(t: Ty) { t.ptr == 1 && t.width.CHAR? }

  /** `t > PTR` on type codes: a pointer other than plain `char *`, so arithmetic is scaled. */
  predicate Scaled(t: Ty) { t.ptr > 0 && t != CHAR_PTR }

  /** Some operand is unsigned or a pointer: the unsigned form of an operator is used. */
  predicate UseUnsigned(t: Ty, u: Ty) { t.ptr > 0 || u.ptr > 0 || t.unsigned || u.unsigned }

  function WidthBytes(w: Width): nat { match w case CHAR => 1 case SHORT => 2 case INT => 4 case LONG => 8 }

  /** typeop(Sizeof). */
  function SizeOfTy(t: Ty): Word { if t.ptr > 0 then 8 else WidthBytes(t.width) }

  /** typeop(Assign): the operand of LI and SI. */
  function AccessTy(t: Ty): Ty { if t.ptr > 0 then CHAR_PTR else t }

  /** The type of the final load: the outermost cast wins over the declared type. */
  function Over(over: Option<Ty>, t: Ty): Ty { if over.Some? then over.value else AccessTy(t) }

  /** typeop(Add), typeop(Sub), typeop(Brak): the size of what a pointer points to. */
  function ElemBytes(t: Ty): Word { if t.ptr >= 2 then 8 else WidthBytes(t.width) }

  /** typeop(Inc), typeop(Dec). */
  function IncBytes(t: Ty): Word { if t.ptr > 0 then ElemBytes(t) else 1 }

  function PointerTo(t: Ty): Ty { t.(ptr := t.ptr + 1) }

  /** The VM instruction for an operator on operands of types `t` and `u`, when it is a plain one. */
  function OpFor(op: BinOp, t: Ty, u: Ty): Op
    requires !op.Match? && !(op.Eq? && IsCharPtr(t) && IsCharPtr(u)) && !(op.Ne? && IsCharPtr(t) && IsCharPtr(u))
  {
    var uns := UseUnsigned(t, u);
    match op
    case Or => OR
    case Xor => XOR
    case And => AND
    case Eq => EQ
    case Ne => NE
    case Lt => if uns then LTu else LT
    case Gt => if uns then GTu else GT
    case Le => if uns then LEu else LE
    case Ge => if uns then GEu else GE
    case Shl => SHL
    case Shr => if uns then SHR else SAR
    case Add => ADD
    case Sub => SUB
    case Mul => MUL
    case Div => if uns then DIVu else DIV
    case Mod => if uns then MODu else MOD
  }

  predicate Comparison(op: BinOp) { op.Eq? || op.Ne? || op.Match? }

  /** `==`, `!=` and `~` on two `char *` compare the strings they point to. */
  predicate OnStrings(op: BinOp, t: Ty, u: Ty) { Comparison(op) && IsCharPtr(t) && IsCharPtr(u) }

  function StrOpFor(op: BinOp): StrOp
    requires Comparison(op)
  { if op.Eq? then STREQ else if op.Ne? then STRNE else MATCH }

  /** Trees that denote a location: their code ends in a load that is reached on every path. */
  predicate IsLvalue(e: Expr) {
    match e
    case Var(_, _, isArray) => !isArray
    case Deref(_) => true
    case Index(_, _) => true
    case Cast(_, x) => IsLvalue(x)
    case Plus(x) => IsLvalue(x)
    case _ => false
  }

  /** The type of a tree; `None` when the compiler rejects it or an operand that must be an
      lvalue is not one. */
  function TypeOf(e: Expr): Option<Ty> {
    match e
    case Num(_) => Some(INT_TY)
    case StrLit(_) => Some(CHAR_PTR)
    case SizeOf(_) => Some(INT_TY)
    case Var(_, ty, isArray) => Some(if isArray then ty.(ptr := 1) else ty)
    case Cast(t, x) => if TypeOf(x).None? then None else Some(t)
    case Deref(x) =>
      var t := TypeOf(x);
      if t.None? || t.value.ptr == 0 then None else Some(t.value.(ptr := t.value.ptr - 1))
    case AddrOf(x) =>
      var t := TypeOf(x);
      if t.None? || !IsLvalue(x) then None else Some(PointerTo(t.value))
    case Not(x) => if TypeOf(x).None? then None else Some(INT_TY)
    case BitNot(x) => if TypeOf(x).None? then None else Some(INT_TY)
    case Plus(x) => if TypeOf(x).None? then None else Some(INT_TY)
    case Neg(x) => if TypeOf(x).None? then None else Some(INT_TY)
    case PreInc(_, x) => if IsLvalue(x) then TypeOf(x) else None
    case PostInc(_, x) => if IsLvalue(x) then TypeOf(x) else None
    case Assign(l, r) => if IsLvalue(l) && TypeOf(r).Some? then TypeOf(l) else None
    case Cond(c, a, b) => if TypeOf(c).Some? && TypeOf(a).Some? then TypeOf(b) else None
    case Lor(a, b) => if TypeOf(a).Some? && TypeOf(b).Some? then Some(INT_TY) else None
    case Lan(a, b) => if TypeOf(a).Some? && TypeOf(b).Some? then Some(INT_TY) else None
    case Binary(op, a, b) =>
      var t, u := TypeOf(a), TypeOf(b);
      if t.None? || u.None? then None else BinaryTy(op, t.value, u.value)
    case Index(a, i) =>
      var t := TypeOf(a);
      if t.None? || TypeOf(i).None? || t.value.ptr == 0 then None else Some(t.value.(ptr := t.value.ptr - 1))
  }

  function BinaryTy(op: BinOp, t: Ty, u: Ty): Option<Ty> {
    if op.Match? && !(IsCharPtr(t) && IsCharPtr(u)) then None
    else if op.Add? then Some(t)
    else if op.Sub? then Some(if Scaled(t) && t == u then INT_TY else t)
    else Some(INT_TY)
  }

  /** A tree that has a type, and so a meaning. */
  predicate Good(e: Expr) { TypeOf(e).Some? }

  function Type(e: Expr): Ty
    requires Good(e)
  { TypeOf(e).value }

  /** The type a tree's final load is made at. */
  function LoadTy(e: Expr): Ty
    requires Good(e) && IsLvalue(e)
  {
    match e
    case Var(_, ty, _) => AccessTy(ty)
    case Deref(_) => AccessTy(Type(e))
    case Index(_, _) => AccessTy(Type(e))
    case Cast(t, _) => AccessTy(t)
    case Plus(x) => LoadTy(x)
  }

  // ----- meaning -----

  /** A value and the memory after the side effects; `None` for a trap. */
  datatype Eff = Eff(v: Word, mem: Memory)
  type Meaning = Option<Eff>

  ghost function LoadEff(m: Memory, a: Word, t: Ty): Meaning {
    var x := LoadTyped(m, a, t);
    if x.None? then None else Some(Eff(x.value, m))
  }

  /** Stores `v` and yields it untruncated, as SI leaves the register alone. */
  ghost function StoreEff(m: Memory, a: Word, v: Word, t: Ty): Meaning {
    var m' := Store(m, a, v, t.Size());
    if m'.None? then None else Some(Eff(v, m'.value))
  }

  ghost function AluEff(op: Op, x: Word, y: Word, m: Memory): Meaning {
    var r := Alu(op, x, y);
    if r.None? then None else Some(Eff(r.value, m))
  }

  function Scale(t: Ty, y: Word): Word {
    if Scaled(t) then Wrap(y * ElemBytes(t)) else y
  }

  /** A binary operator applied to evaluated operands. */
  ghost function BinaryEff(op: BinOp, t: Ty, u: Ty, x: Word, y: Word, m: Memory): Meaning {
    if OnStrings(op, t, u) then
      var r := StrAlu(StrOpFor(op), m, x, y);
      if r.None? then None else Some(Eff(r.value, m))
    else if op.Match? then None
    else if op.Add? then AluEff(ADD, x, Scale(t, y), m)
    else if op.Sub? then
      if Scaled(t) && t == u then AluEff(DIV, Wrap(x - y), ElemBytes(t), m)
      else AluEff(SUB, x, Scale(t, y), m)
    else AluEff(OpFor(op, t, u), x, y, m)
  }

  /** The value of `e` in memory `m`. A cast only changes the type of the load that ends the
      operand, so the type of that load is passed down; `None` leaves it as declared. */
  ghost function Eval(e: Expr, over: Option<Ty>, m: Memory): Meaning
    requires Good(e)
    decreases e, 1
  {
    match e
    case Num(v) => Some(Eff(v, m))
    case StrLit(a) => Some(Eff(a, m))
    case SizeOf(t) => Some(Eff(SizeOfTy(t), m))
    case Var(a, ty, isArray) =>
      if isArray then Some(Eff(a, m)) else LoadEff(m, a, Over(over, ty))
    case Cast(t, x) => Eval(x, Some(Over(over, t)), m)
    case Deref(x) =>
      var r := Eval(x, None, m);
      if r.None? then None
      else LoadEff(r.value.mem, r.value.v, Over(over, Type(e)))
    case AddrOf(x) => EvalAddr(x, over, m)
    case Not(x) =>
      var r := Eval(x, None, m);
      if r.None? then None else AluEff(EQ, r.value.v, 0, r.value.mem)
    case BitNot(x) =>
      var r := Eval(x, None, m);
      if r.None? then None else AluEff(XOR, r.value.v, TWO64 - 1, r.value.mem)
    case Plus(x) => Eval(x, over, m)
    case Neg(x) =>
      if x.Num? then Some(Eff(Wrap(-(x.v as int)), m))
      else
        var r := Eval(x, None, m);
        if r.None? then None else AluEff(MUL, TWO64 - 1, r.value.v, r.value.mem)
    case PreInc(dec, x) => Bump(dec, x, m)
    case PostInc(dec, x) =>
      var r := Bump(dec, x, m);
      if r.None? then None else AluEff(if dec then ADD else SUB, r.value.v, IncBytes(Type(x)), r.value.mem)
    case Assign(l, r) =>
      var p := EvalAddr(l, None, m);
      if p.None? then None
      else
        var q := Eval(r, None, p.value.mem);
        if q.None? then None else StoreEff(q.value.mem, p.value.v, q.value.v, AccessTy(Type(l)))
    case Cond(c, a, b) =>
      var r := Eval(c, None, m);
      if r.None? then None
      else if r.value.v != 0 then Eval(a, None, r.value.mem) else Eval(b, over, r.value.mem)
    case Lor(a, b) =>
      var r := Eval(a, None, m);
      if r.None? || r.value.v != 0 then r else Eval(b, over, r.value.mem)
    case Lan(a, b) =>
      var r := Eval(a, None, m);
      if r.None? || r.value.v == 0 then r else Eval(b, over, r.value.mem)
    case Binary(op, a, b) =>
      var r := Eval(a, None, m);
      if r.None? then None
      else
        var q := Eval(b, None, r.value.mem);
        if q.None? then None else BinaryEff(op, Type(a), Type(b), r.value.v, q.value.v, q.value.mem)
    case Index(a, i) =>
      var p := EvalAddr(e, None, m);
      if p.None? then None
      else LoadEff(p.value.mem, p.value.v, Over(over, Type(e)))
  }

  /** The address an lvalue denotes; `over` re-types the load that ends its computation. */
  ghost function EvalAddr(e: Expr, over: Option<Ty>, m: Memory): Meaning
    requires Good(e) && IsLvalue(e)
    decreases e, 0
  {
    match e
    case Var(a, _, _) => Some(Eff(a, m))
    case Deref(x) => Eval(x, over, m)
    case Cast(_, x) => EvalAddr(x, over, m)
    case Plus(x) => EvalAddr(x, over, m)
    case Index(a, i) =>
      var r := Eval(a, None, m);
      if r.None? then None
      else
        var q := Eval(i, None, r.value.mem);
        if q.None? then None else AluEff(ADD, r.value.v, Scale(Type(a), q.value.v), q.value.mem)
  }

  ghost function Bump(dec: bool, x: Expr, m: Memory): Meaning
    requires Good(x) && IsLvalue(x)
    decreases x, 1
  {
    var p := EvalAddr(x, None, m);
    if p.None? then None else BumpAt(dec, x, p.value.v, p.value.mem)
  }

  /** `++` or `--` at an address: load, step by one element, store; the stepped value is not truncated. */
  ghost function BumpAt(dec: bool, x: Expr, q: Word, m: Memory): Meaning
    requires Good(x) && IsLvalue(x)
  {
    var v := LoadTyped(m, q, LoadTy(x));
    if v.None? then None
    else
      var w := Alu(if dec then SUB else ADD, v.value, IncBytes(Type(x)));
      if w.None? then None else StoreEff(m, q, w.value, AccessTy(Type(x)))
  }
}
