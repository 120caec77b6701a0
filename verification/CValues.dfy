/** What the operators of the language compute, in integers: no machine operator is mentioned. */
module CValues {
  import opened Arith
  import opened Options
  import opened Words
  import opened Vm
  import opened Syntax
  import Wildcard

  // ----- words as integers and as bits -----

  lemma SignedRange(x: Word)
    ensures -TWO63 <= Signed(x) < TWO63 && Wrap(Signed(x)) == x && (Signed(x) >= 0 <==> x < TWO63)
  {}

  lemma SignedWrap(a: int)
    requires -TWO63 <= a < TWO63
    ensures Signed(Wrap(a)) == a
  {}

  function Bit(x: nat, k: nat): nat { x / Pow2(k) % 2 }

  lemma HalfBit(x: nat, k: nat)
    ensures Bit(x, k + 1) == Bit(x / 2, k) && Bit(x, 0) == x % 2
  {
    var p := Pow2(k);
    DivMod(x / 2, p);
    ModUnique(x, 2 * p, x / 2 / p, 2 * (x / 2 % p) + x % 2) by {
      assert 2 * p * (x / 2 / p) == 2 * (p * (x / 2 / p));
    }
  }

  /** Bit by bit. */
  lemma {:induction false} BitwiseBit(op: BitOp, x: nat, y: nat, n: nat, k: nat)
    requires k < n
    ensures Bit(Bitwise(op, x, y, n), k) == if op.Of(Bit(x, k) == 1, Bit(y, k) == 1) then 1 else 0
    decreases k
  {
    hide Bit;
    var r := Bitwise(op, x, y, n);
    var h := Bitwise(op, x / 2, y / 2, n - 1);
    var b := Truth(op.Of(x % 2 == 1, y % 2 == 1));
    assert r == 2 * h + b && r / 2 == h && r % 2 == b;
    if k == 0 {
      HalfBit(r, 0);
      HalfBit(x, 0);
      HalfBit(y, 0);
    } else {
      HalfBit(r, k - 1);
      HalfBit(x, k - 1);
      HalfBit(y, k - 1);
      BitwiseBit(op, x / 2, y / 2, n - 1, k - 1);
    }
  }

  // ----- binary operators -----

  /** Both operands are signed numbers. */
  predicate BothSigned(t: Ty, u: Ty) { t.ptr == 0 && u.ptr == 0 && !t.unsigned && !u.unsigned }

  /** `char *`, of either sign. */
  predicate CharPointer(t: Ty) { t.ptr == 1 && t.width == CHAR }

  /** The bytes of what a pointer points to. */
  function PointedBytes(t: Ty): nat {
    if t.ptr >= 2 then 8 else match t.width case CHAR => 1 case SHORT => 2 case INT => 4 case LONG => 8
  }

  function OneIf(b: bool): Word { if b then 1 else 0 }

  /** The operation has value `v` and no side effect. */
  ghost predicate Yields(r: Meaning, v: int, m: Memory) { r.Some? && r.value.v == v && r.value.mem == m }

  /** The operators that are neither scaled nor on strings. */
  lemma ByAlu(op: BinOp, t: Ty, u: Ty, x: Word, y: Word, m: Memory)
    requires !op.Match? && !op.Add? && !op.Sub? && (op.Eq? || op.Ne? ==> !CharPointer(t) || !CharPointer(u))
    ensures BinaryEff(op, t, u, x, y, m) == AluEff(OpFor(op, t, u), x, y, m)
    ensures UseUnsigned(t, u) == !BothSigned(t, u)
  {
    hide AluEff; hide OpFor;
  }

  lemma Effect(op: Op, x: Word, y: Word, m: Memory)
    ensures AluEff(op, x, y, m) == match Alu(op, x, y) case None => None case Some(v) => Some(Eff(v, m))
  {
    hide Alu;
  }

  lemma OrderAlu(x: Word, y: Word)
    ensures Alu(LT, x, y) == Some(OneIf(Signed(x) < Signed(y))) && Alu(LTu, x, y) == Some(OneIf(x < y))
    ensures Alu(GT, x, y) == Some(OneIf(Signed(x) > Signed(y))) && Alu(GTu, x, y) == Some(OneIf(x > y))
    ensures Alu(LE, x, y) == Some(OneIf(Signed(x) <= Signed(y))) && Alu(LEu, x, y) == Some(OneIf(x <= y))
    ensures Alu(GE, x, y) == Some(OneIf(Signed(x) >= Signed(y))) && Alu(GEu, x, y) == Some(OneIf(x >= y))
  {
    hide Signed;
  }

  /** `<`, `>`, `<=` and `>=` compare numbers of either sign, or words when an operand is unsigned or a pointer. */
  lemma OrderMeans(t: Ty, u: Ty, x: Word, y: Word, m: Memory)
    ensures var (a, b) := if BothSigned(t, u) then (Signed(x), Signed(y)) else (x, y);
            && Yields(BinaryEff(Lt, t, u, x, y, m), OneIf(a < b), m)
            && Yields(BinaryEff(Gt, t, u, x, y, m), OneIf(b < a), m)
            && Yields(BinaryEff(Le, t, u, x, y, m), OneIf(a <= b), m)
            && Yields(BinaryEff(Ge, t, u, x, y, m), OneIf(b <= a), m)
  {
    hide BinaryEff; hide UseUnsigned; hide BothSigned; hide Alu; hide AluEff; hide Signed;
    OrderAlu(x, y);
    forall op | op in {LT, LTu, GT, GTu, LE, LEu, GE, GEu}
      ensures AluEff(op, x, y, m) == match Alu(op, x, y) case None => None case Some(v) => Some(Eff(v, m))
    { Effect(op, x, y, m); }
    ByAlu(Lt, t, u, x, y, m);
    ByAlu(Gt, t, u, x, y, m);
    ByAlu(Le, t, u, x, y, m);
    ByAlu(Ge, t, u, x, y, m);
  }

  /** `==` and `!=` compare words, but for two `char *`, where they compare the strings. */
  lemma EqualMeans(t: Ty, u: Ty, x: Word, y: Word, m: Memory)
    ensures var eq, ne := BinaryEff(Eq, t, u, x, y, m), BinaryEff(Ne, t, u, x, y, m);
            if !CharPointer(t) || !CharPointer(u)
            then Yields(eq, OneIf(x == y), m) && Yields(ne, OneIf(x != y), m)
            else
              var a, b := StringAt(m, x), StringAt(m, y);
              if a.None? || b.None? then eq == None == ne
              else Yields(eq, OneIf(a.value == b.value), m) && Yields(ne, OneIf(a.value != b.value), m)
  {
    hide StringAt;
  }

  /** `~` asks whether the left string is in the language of the right one; NULL matches nothing. */
  lemma MatchMeans(t: Ty, u: Ty, x: Word, y: Word, m: Memory)
    ensures var r := BinaryEff(Match, t, u, x, y, m);
            if !CharPointer(t) || !CharPointer(u) then r == None
            else if x == 0 || y == 0 then Yields(r, 0, m)
            else
              var a, b := StringAt(m, x), StringAt(m, y);
              if a.None? || b.None? then r == None
              else Yields(r, OneIf(Wildcard.Matches(a.value, b.value)), m)
  {
    hide StringAt; hide Wildcard.Matches;
  }

  /** `&`, `|` and `^` work bit by bit. */
  lemma BitsMean(t: Ty, u: Ty, x: Word, y: Word, m: Memory, k: nat)
    requires k < 64
    ensures var a, o, e := BinaryEff(And, t, u, x, y, m), BinaryEff(Or, t, u, x, y, m), BinaryEff(Xor, t, u, x, y, m);
            && a.Some? && a.value.mem == m && (Bit(a.value.v, k) == 1 <==> Bit(x, k) == 1 && Bit(y, k) == 1)
            && o.Some? && o.value.mem == m && (Bit(o.value.v, k) == 1 <==> Bit(x, k) == 1 || Bit(y, k) == 1)
            && e.Some? && e.value.mem == m && (Bit(e.value.v, k) == 1 <==> Bit(x, k) != Bit(y, k))
  {
    hide BinaryEff; hide Bitwise; hide Bit;
    ByAlu(And, t, u, x, y, m);
    ByAlu(Or, t, u, x, y, m);
    ByAlu(Xor, t, u, x, y, m);
    BitwiseBit(BitAnd, x, y, 64, k);
    BitwiseBit(BitOr, x, y, 64, k);
    BitwiseBit(BitXor, x, y, 64, k);
    BitRange(x, k);
    BitRange(y, k);
  }

  lemma BitRange(x: nat, k: nat)
    ensures Bit(x, k) == 0 || Bit(x, k) == 1
  {}

  /** Shifts, defined for counts below 64: multiplication by a power of two, and division rounding down. */
  lemma ShiftsMean(t: Ty, u: Ty, x: Word, y: Word, m: Memory)
    ensures var l, r := BinaryEff(Shl, t, u, x, y, m), BinaryEff(Shr, t, u, x, y, m);
            if y >= 64 then l == None == r
            else
              && Yields(l, x * Pow2(y) % TWO64, m) && r.Some? && r.value.mem == m
              && if BothSigned(t, u) then Signed(r.value.v) == Signed(x) / Pow2(y) else r.value.v == x / Pow2(y)
  {
    hide BinaryEff; hide UseUnsigned; hide BothSigned; hide Pow2; hide Signed; hide Wrap; hide Alu; hide AluEff;
    ShiftAlu(x, y);
    Effect(SHL, x, y, m);
    Effect(SHR, x, y, m);
    Effect(SAR, x, y, m);
    ByAlu(Shl, t, u, x, y, m);
    ByAlu(Shr, t, u, x, y, m);
    ShiftRange(x, y);
    SignedWrap(Signed(x) / Pow2(y));
    WrapIs(x * Pow2(y));
  }

  lemma ShiftAlu(x: Word, y: Word)
    ensures Alu(SHL, x, y) == if y < 64 then Some(Wrap(x * Pow2(y))) else None
    ensures Alu(SHR, x, y) == if y < 64 then Some(x / Pow2(y)) else None
    ensures Alu(SAR, x, y) == if y < 64 then Some(Wrap(Signed(x) / Pow2(y))) else None
  {
    hide Wrap; hide Pow2; hide Signed;
  }

  lemma WrapIs(a: int)
    ensures Wrap(a) == a % TWO64
  {}

  lemma ShiftRange(x: Word, y: Word)
    ensures -TWO63 <= Signed(x) / Pow2(y) < TWO63
  {
    hide Pow2;
    SignedRange(x);
    if Signed(x) >= 0 { DivAtMost(Signed(x), Pow2(y)); } else { DivAbove(Signed(x), Pow2(y)); }
  }

  lemma DivAbove(a: int, p: int)
    requires a < 0 && p >= 1
    ensures a <= a / p < 0
  {
    DivMod(a, p);
    Below(a, p, a / p, a % p);
  }

  lemma Below(a: int, p: int, q: int, r: int)
    requires a < 0 && p >= 1 && 0 <= r < p && a == p * q + r
    ensures a <= q < 0
  {
    if q >= 0 { MulMono(p, 0, q); } else { MulMono(-(q + 1), 1, p); Negate(q + 1, p); }
  }

  lemma TimesMeans(t: Ty, u: Ty, x: Word, y: Word, m: Memory)
    ensures Yields(BinaryEff(Mul, t, u, x, y, m), x * y % TWO64, m)
  {
    hide BinaryEff; hide Alu; hide AluEff;
    ByAlu(Mul, t, u, x, y, m);
    Effect(MUL, x, y, m);
    MulAlu(x, y);
  }

  lemma MulAlu(x: Word, y: Word)
    ensures Alu(MUL, x, y) == Some(x * y % TWO64)
  {}

  // ----- division -----

  function Abs(b: int): (n: int)
    ensures n >= 0
  { if b < 0 then -b else b }

  /** `q` is `a` divided by `b`, rounded towards zero. */
  predicate Truncated(a: int, b: int, q: int) {
    var r := a - q * b;
    -Abs(b) < r < Abs(b) && (a >= 0 ==> r >= 0) && (a <= 0 ==> r <= 0)
  }

  lemma TruncDivIs(a: int, b: int)
    requires b != 0
    ensures Truncated(a, b, TruncDiv(a, b))
  {
    var n := Abs(a);
    DivModAny(n, b);
    if a < 0 { Negate(n / b, b); }
    Rounded(a, b, TruncDiv(a, b), TruncDiv(a, b) * b, n % b);
  }

  lemma Rounded(a: int, b: int, q: int, p: int, r: int)
    requires p == q * b && 0 <= r < Abs(b) && a == if a < 0 then p - r else p + r
    ensures Truncated(a, b, q)
  {}

  lemma DivModAny(n: int, b: int)
    requires b != 0
    ensures n == n / b * b + n % b && 0 <= n % b < Abs(b)
  {}

  lemma Negate(q: int, b: int)
    ensures (-q) * b == -(q * b)
  {}

  /** A quotient is no further from zero than the dividend, and half as far when the divisor is not 1 or -1. */
  lemma QuotientFits(a: int, b: int, q: int)
    requires -TWO63 <= a < TWO63 && b != 0 && Truncated(a, b, q) && !(a == -TWO63 && b == -1)
    ensures -TWO63 <= q < TWO63
    ensures -TWO63 <= a - q * b < TWO63
  {
    hide Abs; hide Truncated;
    var p := q * b;
    Remainder(a, b, q, p);
    Product(q, b);
    Closer(a, b, p);
    Smaller(a, b, q, p);
  }

  lemma Remainder(a: int, b: int, q: int, p: int)
    requires p == q * b && Truncated(a, b, q)
    ensures -Abs(b) < a - p < Abs(b) && (a >= 0 ==> a - p >= 0) && (a <= 0 ==> a - p <= 0)
    ensures (b == 1 ==> p == q) && (b == -1 ==> p == -q) && (p == 0 ==> Abs(p) == 0)
  {}

  lemma Smaller(a: int, b: int, q: int, p: int)
    requires -TWO63 <= a < TWO63 && b != 0 && !(a == -TWO63 && b == -1)
    requires Abs(p) >= Abs(q) && (Abs(b) >= 2 ==> Abs(p) >= 2 * Abs(q)) && Abs(p) <= Abs(a) && Abs(a - p) <= Abs(a)
    requires (b == 1 ==> p == q) && (b == -1 ==> p == -q) && (a >= 0 ==> a - p >= 0) && (a <= 0 ==> a - p <= 0)
    ensures -TWO63 <= q < TWO63 && -TWO63 <= a - p < TWO63
  {}

  lemma Closer(a: int, b: int, p: int)
    requires b != 0 && -Abs(b) < a - p < Abs(b) && (a >= 0 ==> a - p >= 0) && (a <= 0 ==> a - p <= 0)
    requires Abs(p) == 0 || Abs(p) >= Abs(b)
    ensures Abs(p) <= Abs(a) && Abs(a - p) <= Abs(a)
  {}

  lemma Product(q: int, b: int)
    requires b != 0
    ensures Abs(q * b) >= Abs(q) && (Abs(b) >= 2 ==> Abs(q * b) >= 2 * Abs(q))
    ensures q * b == 0 || Abs(q * b) >= Abs(b)
  {
    MulMono(Abs(q), 1, Abs(b));
    if Abs(b) >= 2 { MulMono(Abs(q), 2, Abs(b)); }
    if q != 0 { MulMono(Abs(b), 1, Abs(q)); }
    AbsProduct(q, b);
  }

  lemma AbsProduct(q: int, b: int)
    ensures Abs(q * b) == Abs(q) * Abs(b)
  {
    Negate(q, b);
    Negate(b, q);
    Negate(q, -b);
    if q >= 0 && b >= 0 { MulMono(q, 0, b); }
    if q >= 0 && b < 0 { MulMono(q, 0, -b); }
    if q < 0 && b >= 0 { MulMono(-q, 0, b); }
    if q < 0 && b < 0 { MulMono(-q, 0, -b); }
  }

  lemma DivAlu(x: Word, y: Word)
    requires y != 0
    ensures Alu(DIVu, x, y) == Some(x / y) && Alu(MODu, x, y) == Some(x % y)
    ensures var a, b := Signed(x), Signed(y);
            if a == -TWO63 && b == -1 then Alu(DIV, x, y) == None == Alu(MOD, x, y)
            else
              && b != 0 && Alu(DIV, x, y) == Some(Wrap(TruncDiv(a, b)))
              && Alu(MOD, x, y) == Some(Wrap(a - TruncDiv(a, b) * b))
  {
    hide TruncDiv;
    DivAtMost(x, y);
    WrapSame(x / y);
    WrapSame(x % y);
    hide Wrap; hide Signed;
    SignedRange(y);
  }

  lemma WrapSame(x: int)
    requires 0 <= x < TWO64
    ensures Wrap(x) == x
  {}

  lemma NoDivisor(x: Word)
    ensures Alu(DIV, x, 0) == None == Alu(DIVu, x, 0) && Alu(MOD, x, 0) == None == Alu(MODu, x, 0)
  {}

  /** `/` rounds towards zero and `%` is what is left; nothing is defined for a divisor 0, nor for the one
      quotient that is no signed word. */
  lemma DivisionMeans(t: Ty, u: Ty, x: Word, y: Word, m: Memory)
    ensures var d, r := BinaryEff(Div, t, u, x, y, m), BinaryEff(Mod, t, u, x, y, m);
            var a, b := Signed(x), Signed(y);
            if y == 0 || (BothSigned(t, u) && a == -TWO63 && b == -1) then d == None == r
            else
              && d.Some? && r.Some? && d.value.mem == m == r.value.mem
              && if BothSigned(t, u)
                 then Truncated(a, b, Signed(d.value.v)) && Signed(r.value.v) == a - Signed(d.value.v) * b
                 else d.value.v == x / y && r.value.v == x % y
  {
    hide BinaryEff; hide Alu; hide AluEff; hide UseUnsigned; hide BothSigned; hide Signed; hide TruncDiv;
    hide Truncated;
    ByAlu(Div, t, u, x, y, m);
    ByAlu(Mod, t, u, x, y, m);
    Effect(DIV, x, y, m);
    Effect(MOD, x, y, m);
    Effect(DIVu, x, y, m);
    Effect(MODu, x, y, m);
    if y == 0 {
      NoDivisor(x);
    } else {
      DivAlu(x, y);
      var a, b := Signed(x), Signed(y);
      SignedRange(x);
      SignedRange(y);
      if !(a == -TWO63 && b == -1) {
        TruncDivIs(a, b);
        QuotientFits(a, b, TruncDiv(a, b));
        SignedWrap(TruncDiv(a, b));
        SignedWrap(a - TruncDiv(a, b) * b);
      }
    }
  }

  // ----- addition, pointers -----

  /** `+`: a pointer moves by whole elements of what it points to. */
  lemma PlusMeans(t: Ty, u: Ty, x: Word, y: Word, m: Memory)
    ensures Yields(BinaryEff(Add, t, u, x, y, m), (x + if t.ptr > 0 then y * PointedBytes(t) else y) % TWO64, m)
  {
    var k := if t.ptr > 0 then PointedBytes(t) else 1;
    AddScaled(x, y, k);
    ScaleIs(t, y);
    hide Scale; hide Alu; hide AluEff;
    Effect(ADD, x, Scale(t, y), m);
    AddAlu(x, Scale(t, y));
  }

  lemma AddAlu(x: Word, y: Word)
    ensures Alu(ADD, x, y) == Some((x + y) % TWO64) && Alu(SUB, x, y) == Some((x - y) % TWO64)
  {}

  lemma ScaleIs(t: Ty, y: Word)
    ensures Scale(t, y) == (if t.ptr > 0 then y * PointedBytes(t) else y) % TWO64
  {}

  lemma AddScaled(x: Word, y: Word, k: nat)
    ensures (x + y * k % TWO64) % TWO64 == (x + y * k) % TWO64 && (x - y * k % TWO64) % TWO64 == (x - y * k) % TWO64
  {
    var n := y * k;
    DivMod(n, TWO64);
    DivMod(x + n % TWO64, TWO64);
    ModUnique(x + n, TWO64, n / TWO64 + (x + n % TWO64) / TWO64, (x + n % TWO64) % TWO64);
    DivMod(x - n % TWO64, TWO64);
    ModUnique(x - n, TWO64, (x - n % TWO64) / TWO64 - n / TWO64, (x - n % TWO64) % TWO64);
  }

  /** `-`: two pointers of the same type are as many elements apart, rounded towards zero; a pointer and a number
      as in addition. */
  lemma MinusMeans(t: Ty, u: Ty, x: Word, y: Word, m: Memory)
    ensures var r := BinaryEff(Sub, t, u, x, y, m);
            && r.Some? && r.value.mem == m
            && if t.ptr > 0 && t == u
               then Truncated(Signed((x - y) % TWO64), PointedBytes(t), Signed(r.value.v))
               else r.value.v == (x - if t.ptr > 0 then y * PointedBytes(t) else y) % TWO64
  {
    if t.ptr > 0 && t == u {
      hide AluEff;
      PointerGap(t, x, y, m);
    } else {
      AddScaled(x, y, if t.ptr > 0 then PointedBytes(t) else 1);
      ScaleIs(t, y);
      hide Scale; hide Alu; hide AluEff;
      Effect(SUB, x, Scale(t, y), m);
      AddAlu(x, Scale(t, y));
    }
  }

  lemma PointerGap(t: Ty, x: Word, y: Word, m: Memory)
    requires t.ptr > 0
    ensures var d := Wrap(x - y);
            && (Scaled(t) ==> var r := AluEff(DIV, d, ElemBytes(t), m);
                              r.Some? && r.value.mem == m && Truncated(Signed(d), PointedBytes(t), Signed(r.value.v)))
            && (!Scaled(t) ==> var r := AluEff(SUB, x, Scale(t, y), m);
                               r.Some? && r.value.mem == m && Truncated(Signed(d), PointedBytes(t), Signed(r.value.v)))
  {
    var d, k: nat := Wrap(x - y), PointedBytes(t);
    assert ElemBytes(t) == k && 1 <= k <= 8 && Signed(k) == k;
    hide Alu; hide AluEff;
    if Scaled(t) {
      Effect(DIV, d, k, m);
      DivAlu(d, k);
      hide Signed; hide Wrap; hide TruncDiv;
      SignedRange(d);
      TruncDivIs(Signed(d), k);
      QuotientFits(Signed(d), k, TruncDiv(Signed(d), k));
      SignedWrap(TruncDiv(Signed(d), k));
    } else {
      assert Scale(t, y) == y && k == 1;
      Effect(SUB, x, y, m);
      AddAlu(x, y);
    }
  }

  /** Only the difference of two pointers to the same type other than `char` is a plain number; a sum and another
      difference have the type of the left operand, and everything else is an `int`. */
  lemma TypesAre(op: BinOp, t: Ty, u: Ty)
    ensures var number := Ty(INT, false, 0);
            var r := BinaryTy(op, t, u);
            && (op.Add? ==> r == Some(t))
            && (op.Sub? ==> r == Some(if t == u && t.ptr > 0 && t != Ty(CHAR, false, 1) then number else t))
            && (op.Match? ==> r == if CharPointer(t) && CharPointer(u) then Some(number) else None)
            && (!op.Add? && !op.Sub? && !op.Match? ==> r == Some(number))
  {}

  // ----- memory -----

  /** Byte `i` of a word. */
  function ByteOf(v: nat, i: nat): nat { v / Pow2(8 * i) % 256 }

  /** The bytes a value of a type takes. */
  function TypeBytes(t: Ty): nat {
    if t.ptr > 0 then 8 else match t.width case CHAR => 1 case SHORT => 2 case INT => 4 case LONG => 8
  }

  /** The address `i` bytes on. */
  function At(a: Word, i: nat): Word { (a + i) % TWO64 }

  /** How far `b` is behind `a`. */
  function Behind(b: Word, a: Word): nat { (b - a) % TWO64 }

  predicate Mapped(m: Memory, a: Word, n: nat) { forall i: nat :: i < n ==> At(a, i) in m }

  /** The bytes at `a` are the lowest `n` of `v`, lowest first. */
  predicate BytesAre(m: Memory, a: Word, n: nat, v: nat) {
    forall i: nat :: i < n ==> At(a, i) in m && m[At(a, i)] == ByteOf(v, i)
  }

  /** `v` is the number of type `t` at `a`, within the range of the type. */
  ghost predicate Holds(m: Memory, a: Word, t: Ty, v: Word) {
    var n := TypeBytes(t);
    && BytesAre(m, a, n, v)
    && if t.ptr == 0 && !t.unsigned then -Pow2(8 * n - 1) <= Signed(v) < Pow2(8 * n - 1) else v < Pow2(8 * n)
  }

  lemma NextByte(v: nat, i: nat)
    ensures ByteOf(v, i + 1) == ByteOf(v / 256, i) && ByteOf(v, 0) == v % 256
  {
    hide Pow2;
    Pow2Values();
    Pow2Add(8, 8 * i);
    assert Pow2(0) == 1 by { PowZero(); }
    DivTwice(v, Pow2(8 * i));
  }

  lemma PowZero()
    ensures Pow2(0) == 1
  {}

  lemma DivTwice(v: nat, p: nat)
    requires p > 0
    ensures v / (256 * p) == v / 256 / p
  {
    var w := v / 256;
    DivMod(w, p);
    var q, r := w / p, w % p;
    assert 256 * p * q == 256 * (p * q);
    ModUnique(v, 256 * p, q, 256 * r + v % 256);
  }

  lemma NextAt(a: Word, i: nat)
    ensures At(Wrap(a + 1), i) == At(a, i + 1) && At(a, 0) == a
  {}

  lemma MappedNext(m: Memory, a: Word, n: nat)
    requires n > 0
    ensures Mapped(m, a, n) <==> a in m && Mapped(m, Wrap(a + 1), n - 1)
  {
    hide At;
    var next := Wrap(a + 1);
    NextAt(a, 0);
    if Mapped(m, a, n) {
      forall i: nat | i < n - 1 ensures At(next, i) in m { NextAt(a, i); }
      assert At(a, 0) in m;
    }
    if a in m && Mapped(m, next, n - 1) {
      forall i: nat | i < n ensures At(a, i) in m { if i > 0 { NextAt(a, i - 1); } }
    }
  }

  lemma BytesNext(m: Memory, a: Word, n: nat, v: nat)
    requires n > 0 && a in m && m[a] == v % 256 && BytesAre(m, Wrap(a + 1), n - 1, v / 256)
    ensures BytesAre(m, a, n, v)
  {
    hide At; hide ByteOf;
    NextAt(a, 0);
    forall i: nat | i < n ensures At(a, i) in m && m[At(a, i)] == ByteOf(v, i) {
      if i == 0 { NextByte(v, 0); } else { NextAt(a, i - 1); NextByte(v, i - 1); }
    }
  }

  lemma {:induction false} LoadIs(m: Memory, a: Word, n: nat)
    ensures LoadBytes(m, a, n).Some? <==> Mapped(m, a, n)
    ensures LoadBytes(m, a, n).Some? ==> BytesAre(m, a, n, LoadBytes(m, a, n).value)
    decreases n
  {
    hide BytesAre; hide Mapped; hide LoadBytes; hide Wrap; hide Pow2;
    LoadStep(m, a, n);
    if n == 0 {
      NoBytes(m, a);
    } else {
      MappedNext(m, a, n);
      LoadIs(m, Wrap(a + 1), n - 1);
      if LoadBytes(m, a, n).Some? { BytesNext(m, a, n, LoadBytes(m, a, n).value); }
    }
  }

  /** One level of a load. */
  lemma LoadStep(m: Memory, a: Word, n: nat)
    ensures n == 0 ==> LoadBytes(m, a, n) == Some(0)
    ensures n > 0 ==> (LoadBytes(m, a, n).Some? <==> a in m && LoadBytes(m, Wrap(a + 1), n - 1).Some?)
    ensures n > 0 && LoadBytes(m, a, n).Some? ==>
              var v := LoadBytes(m, a, n).value;
              v % 256 == m[a] && LoadBytes(m, Wrap(a + 1), n - 1) == Some(v / 256) && v >= 0
  {
    hide Wrap; hide Pow2;
  }

  lemma NoBytes(m: Memory, a: Word)
    ensures Mapped(m, a, 0) && BytesAre(m, a, 0, 0)
  {}

  /** A variable is read at its type, and traps only outside the memory. */
  lemma ReadMeans(m: Memory, a: Word, t: Ty)
    ensures LoadTyped(m, a, AccessTy(t)).Some? <==> Mapped(m, a, TypeBytes(t))
    ensures LoadTyped(m, a, AccessTy(t)).Some? ==> Holds(m, a, t, LoadTyped(m, a, AccessTy(t)).value)
  {
    hide LoadBytes; hide BytesAre; hide Mapped; hide Wrap;
    var sz, n := AccessTy(t).Size(), TypeBytes(t);
    assert sz.Bytes() == n;
    LoadIs(m, a, n);
    HalfRange(n);
    if LoadTyped(m, a, AccessTy(t)).Some? {
      var x := LoadBytes(m, a, n).value;
      if AccessTy(t).SignExtends() {
        ExtendRange(x, sz);
        ExtendBytes(m, a, x, sz);
      }
    }
  }

  lemma HalfRange(n: nat)
    requires n == 1 || n == 2 || n == 4 || n == 8
    ensures Pow2(8 * n) == (match n case 1 => TWO8 case 2 => TWO16 case 4 => TWO32 case _ => TWO64)
    ensures 2 * Pow2(8 * n - 1) == Pow2(8 * n)
  {
    Pow2Values();
  }

  lemma ExtendRange(x: Word, sz: Size)
    requires x < sz.Limit()
    ensures -(sz.Limit() / 2) <= Signed(Extend(x, sz)) < sz.Limit() / 2
  {}

  /** Sign extension adds ones above the bytes read. */
  lemma ExtendBytes(m: Memory, a: Word, x: Word, sz: Size)
    requires x < sz.Limit() && BytesAre(m, a, sz.Bytes(), x)
    ensures BytesAre(m, a, sz.Bytes(), Extend(x, sz))
  {
    hide ByteOf; hide At;
    LimitIs(sz);
    if x >= sz.Limit() / 2 {
      forall i: nat | i < sz.Bytes() ensures ByteOf(Extend(x, sz), i) == ByteOf(x, i) {
        AboveByte(x, sz.Bytes(), i, TWO64 / sz.Limit() - 1);
      }
    }
  }

  lemma AboveByte(x: nat, n: nat, i: nat, k: nat)
    requires i < n
    ensures ByteOf(x + Pow2(8 * n) * k, i) == ByteOf(x, i)
  {
    hide Pow2;
    var p, q := Pow2(8 * i), Pow2(8 * (n - i - 1));
    Pow2Values();
    Pow2Add(8, 8 * (n - i - 1));
    Pow2Add(8 * i, 8 * (n - i));
    AboveParts(x, p, q, k);
  }

  lemma AboveParts(x: nat, p: nat, q: nat, k: nat)
    requires p > 0
    ensures (x + p * (256 * q) * k) / p % 256 == x / p % 256
  {
    var c := 256 * (q * k);
    Regroup(p, q, k);
    DivMod(x, p);
    assert p * (x / p + c) == p * (x / p) + p * c;
    ModUnique(x + p * c, p, x / p + c, x % p);
    DivMod(x / p, 256);
    ModUnique(x / p + c, 256, x / p / 256 + q * k, x / p % 256);
  }

  lemma Regroup(p: int, q: int, k: int)
    ensures p * (256 * q) * k == p * (256 * (q * k))
  {
    assert 256 * q * k == 256 * (q * k);
  }

  // ----- storing -----

  /** `m'` is `m` with the lowest `n` bytes of `v` at `a`. */
  predicate Stored(m: Memory, m': Memory, a: Word, n: nat, v: nat) {
    && m'.Keys == m.Keys && BytesAre(m', a, n, v)
    && forall b :: b in m && Behind(b, a) >= n ==> m'[b] == m[b]
  }

  /** A store writes the bytes of the value and nothing else, and traps only outside the memory. */
  lemma {:induction false} StoreIs(m: Memory, a: Word, v: nat, n: nat)
    requires n <= 8
    ensures StoreBytes(m, a, v, n).Some? <==> Mapped(m, a, n)
    ensures StoreBytes(m, a, v, n).Some? ==> Stored(m, StoreBytes(m, a, v, n).value, a, n, v)
    decreases n
  {
    hide Stored; hide Mapped; hide Wrap;
    if n == 0 {
      NoBytes(m, a);
      NothingStored(m, a, v);
    } else {
      MappedNext(m, a, n);
      if a in m {
        var m1 := m[a := v % 256];
        StoreIs(m1, Wrap(a + 1), v / 256, n - 1);
        SameMapped(m, m1, Wrap(a + 1), n - 1);
        if StoreBytes(m, a, v, n).Some? { StoredNext(m, StoreBytes(m, a, v, n).value, a, n, v); }
      }
    }
  }

  lemma NothingStored(m: Memory, a: Word, v: nat)
    ensures Stored(m, m, a, 0, v)
  {}

  lemma SameMapped(m: Memory, m': Memory, a: Word, n: nat)
    requires m.Keys == m'.Keys
    ensures Mapped(m, a, n) <==> Mapped(m', a, n)
  {
    assert forall b :: b in m <==> b in m.Keys;
    assert forall b :: b in m' <==> b in m'.Keys;
  }

  lemma StoredNext(m: Memory, m': Memory, a: Word, n: nat, v: nat)
    requires 0 < n <= 8 && a in m && Stored(m[a := v % 256], m', Wrap(a + 1), n - 1, v / 256)
    ensures Stored(m, m', a, n, v)
  {
    hide At; hide ByteOf;
    var m1 := m[a := v % 256];
    assert m1.Keys == m.Keys;
    NextBehind(a, a);
    assert a in m1 && m'[a] == v % 256;
    BytesNext(m', a, n, v);
    forall b | b in m && Behind(b, a) >= n ensures m'[b] == m[b] {
      NextBehind(b, a);
      assert b in m1;
    }
  }

  lemma NextBehind(b: Word, a: Word)
    ensures if b == a then Behind(b, a) == 0 && Behind(b, Wrap(a + 1)) == TWO64 - 1
            else Behind(b, a) > 0 && Behind(b, Wrap(a + 1)) == Behind(b, a) - 1
  {}

  /** An assignment stores the low bytes of the value at the type of the location. */
  lemma WriteMeans(m: Memory, a: Word, v: Word, t: Ty)
    ensures var n, s := TypeBytes(t), Store(m, a, v, AccessTy(t).Size());
            (s.Some? <==> Mapped(m, a, n)) && (s.Some? ==> Stored(m, s.value, a, n, v))
  {
    hide StoreBytes; hide Stored; hide Mapped;
    assert AccessTy(t).Size().Bytes() == TypeBytes(t);
    StoreIs(m, a, v, TypeBytes(t));
  }

  // ----- strings -----

  /** A byte as a signed character. */
  function CharOf(b: Byte): int { if b >= 128 then b - 256 else b }

  /** The characters `s` and a zero byte behind them stand at `p`. */
  predicate TextAt(m: Memory, p: Word, s: seq<int>) {
    && (forall i: nat :: i < |s| ==> At(p, i) in m && m[At(p, i)] != 0 && s[i] == CharOf(m[At(p, i)]))
    && At(p, |s|) in m && m[At(p, |s|)] == 0
  }

  lemma TextNext(m: Memory, p: Word, s: seq<int>)
    ensures TextAt(m, p, s) <==>
            && p in m
            && if m[p] == 0 then s == [] else s != [] && s[0] == CharOf(m[p]) && TextAt(m, Wrap(p + 1), s[1..])
  {
    hide At;
    NextAt(p, 0);
    var next := Wrap(p + 1);
    if TextAt(m, p, s) && s != [] {
      assert At(p, 0) == p;
      forall i: nat | i < |s| - 1
        ensures At(next, i) in m && m[At(next, i)] != 0 && s[1..][i] == CharOf(m[At(next, i)])
      { NextAt(p, i); }
      NextAt(p, |s| - 1);
    }
    if p in m && m[p] != 0 && s != [] && s[0] == CharOf(m[p]) && TextAt(m, next, s[1..]) {
      forall i: nat | i < |s| ensures At(p, i) in m && m[At(p, i)] != 0 && s[i] == CharOf(m[At(p, i)]) {
        if i > 0 { NextAt(p, i - 1); assert s[i] == s[1..][i - 1]; }
      }
      NextAt(p, |s| - 1);
    }
  }

  lemma {:induction false} CStringIs(m: Memory, p: Word, left: nat, s: seq<int>)
    ensures CString(m, p, left) == Some(s) <==> TextAt(m, p, s) && |s| < left
    decreases left
  {
    hide TextAt; hide Wrap;
    TextNext(m, p, s);
    if left > 0 && p in m && m[p] != 0 {
      var rest := CString(m, Wrap(p + 1), left - 1);
      if s != [] {
        CStringIs(m, Wrap(p + 1), left - 1, s[1..]);
        assert rest.Some? && rest.value == s[1..] ==> [CharOf(m[p])] + rest.value == [CharOf(m[p])] + s[1..];
        assert s == [s[0]] + s[1..];
        assert CString(m, p, left) == Some(s) ==> rest.Some? && rest.value == s[1..];
      }
    }
  }

  /** The addresses of a text are all different, so it is shorter than the memory is large. */
  lemma TextFits(m: Memory, p: Word, s: seq<int>)
    requires TextAt(m, p, s)
    ensures |s| < |m|
  {
    assert At(p, |s| % TWO64) == At(p, |s|);
    var all := Addresses(p, |s| + 1);
    forall a | a in all ensures a in m.Keys { InText(m, p, s, a); }
    Subset(all, m.Keys);
    assert |m| == |m.Keys|;
  }

  function Addresses(p: Word, n: nat): (r: set<Word>)
    requires n <= TWO64
    ensures |r| == n && forall a: Word :: a in r <==> Behind(a, p) < n
  {
    if n == 0 then {}
    else
      assert Behind(At(p, n - 1), p) == n - 1;
      assert forall a: Word :: Behind(a, p) == n - 1 <==> a == At(p, n - 1);
      Addresses(p, n - 1) + {At(p, n - 1)}
  }

  lemma InText(m: Memory, p: Word, s: seq<int>, a: Word)
    requires TextAt(m, p, s) && Behind(a, p) <= |s|
    ensures a in m
  {
    hide At; hide Behind;
    BackAt(a, p);
  }

  lemma BackAt(a: Word, p: Word)
    ensures At(p, Behind(a, p)) == a
  {}

  lemma {:induction false} Subset(a: set<Word>, b: set<Word>)
    requires a <= b
    ensures |a| <= |b|
  {
    assert b == a + (b - a);
    assert |b| == |a| + |b - a|;
  }

  /** A string is the characters up to the first zero byte; there is none exactly if the memory ends before. */
  lemma StringMeans(m: Memory, p: Word, s: seq<int>)
    ensures StringAt(m, p) == Some(s) <==> TextAt(m, p, s)
  {
    hide TextAt; hide CString;
    CStringIs(m, p, |m|, s);
    if TextAt(m, p, s) { TextFits(m, p, s); }
  }

  // ----- one operand -----

  lemma {:induction false} Complement(x: nat, n: nat)
    requires x < Pow2(n)
    ensures Bitwise(BitXor, x, Pow2(n) - 1, n) == Pow2(n) - 1 - x
    decreases n
  {
    if n > 0 {
      assert (Pow2(n) - 1) / 2 == Pow2(n - 1) - 1 && (Pow2(n) - 1) % 2 == 1;
      Complement(x / 2, n - 1);
    }
  }

  lemma ComplementWord(x: Word)
    ensures BitwiseWord(BitXor, x, TWO64 - 1) == TWO64 - 1 - x
  {
    hide Bitwise; hide Pow2;
    Pow2Values();
    Complement(x, 64);
  }

  lemma ComplementAlu(x: Word)
    ensures Alu(XOR, x, TWO64 - 1) == Some(TWO64 - 1 - x)
  {
    hide BitwiseWord; hide Signed; hide TruncDiv; hide TruncMod;
    ComplementWord(x);
  }

  lemma NegateAlu(x: Word)
    ensures Alu(MUL, TWO64 - 1, x) == Some(Wrap(-(x as int)))
  {
    hide BitwiseWord; hide Signed; hide TruncDiv; hide TruncMod;
    var n := -(x as int);
    DivMod(n, TWO64);
    ModUnique((TWO64 - 1) * x, TWO64, x + n / TWO64, n % TWO64);
  }

  lemma ZeroAlu(x: Word)
    ensures Alu(EQ, x, 0) == Some(OneIf(x == 0))
  {
    hide BitwiseWord; hide Signed; hide TruncDiv; hide TruncMod;
  }

  /** The value of a unary operator: `v` after its operand, or a trap in the operand. */
  ghost predicate After(r: Meaning, whole: Meaning, v: Word -> int) {
    if r.None? then whole == None else Yields(whole, v(r.value.v), r.value.mem)
  }

  /** `!`. */
  lemma NotMeans(x: Expr, over: Option<Ty>, m: Memory)
    requires Good(x)
    ensures Good(Not(x)) && After(Eval(x, None, m), Eval(Not(x), over, m), v => OneIf(v == 0))
  {
    hide BinaryEff; hide AluEff; hide LoadEff; hide StoreEff; hide Scale; hide Bump; hide Alu;
    var r := Eval(x, None, m);
    if r.Some? {
      ZeroAlu(r.value.v);
      Effect(EQ, r.value.v, 0, r.value.mem);
    }
  }

  /** `~`. */
  lemma BitNotMeans(x: Expr, over: Option<Ty>, m: Memory)
    requires Good(x)
    ensures Good(BitNot(x)) && After(Eval(x, None, m), Eval(BitNot(x), over, m), v => TWO64 - 1 - v)
  {
    hide BinaryEff; hide AluEff; hide LoadEff; hide StoreEff; hide Scale; hide Bump; hide Alu;
    var r := Eval(x, None, m);
    if r.Some? {
      ComplementAlu(r.value.v);
      Effect(XOR, r.value.v, TWO64 - 1, r.value.mem);
    }
  }

  /** One level of the meaning of unary `-`. */
  lemma NegStep(x: Expr, over: Option<Ty>, m: Memory)
    requires Good(x)
    ensures Good(Neg(x)) && (x.Num? ==> Eval(Neg(x), over, m) == Some(Eff(Wrap(-(x.v as int)), m)))
    ensures var r := Eval(x, None, m);
            !x.Num? ==> Eval(Neg(x), over, m) ==
                        if r.None? then None else AluEff(MUL, TWO64 - 1, r.value.v, r.value.mem)
  {
    hide BinaryEff; hide AluEff; hide LoadEff; hide StoreEff; hide Scale; hide Bump; hide Alu; hide Wrap;
  }

  /** Unary `-`. */
  lemma NegMeans(x: Expr, over: Option<Ty>, m: Memory)
    requires Good(x)
    ensures Good(Neg(x)) && After(Eval(x, None, m), Eval(Neg(x), over, m), v => (-v) % TWO64)
  {
    NegStep(x, over, m);
    assert x.Num? ==> Eval(x, None, m) == Some(Eff(x.v, m));
    hide Alu; hide AluEff; hide Eval; hide TypeOf;
    var r := Eval(x, None, m);
    if r.Some? {
      NegateAlu(r.value.v);
      Effect(MUL, TWO64 - 1, r.value.v, r.value.mem);
    }
  }

  // ----- choices -----

  ghost predicate True(r: Meaning) { r.Some? && r.value.v != 0 }
  ghost predicate False(r: Meaning) { r.Some? && r.value.v == 0 }

  /** One level of the meaning of `||` and `&&`. */
  lemma BothGood(a: Expr, b: Expr)
    requires Good(a) && Good(b)
    ensures Good(Lor(a, b)) && Good(Lan(a, b))
  {}

  lemma OrStep(a: Expr, b: Expr, m: Memory)
    requires Good(a) && Good(b) && Good(Lor(a, b))
    ensures var p, r := Eval(a, None, m), Eval(Lor(a, b), None, m);
            if p.None? || p.value.v != 0 then r == p else r == Eval(b, None, p.value.mem)
  {
    hide BinaryEff; hide AluEff; hide LoadEff; hide StoreEff; hide Scale; hide Bump; hide EvalAddr; hide TypeOf;
  }

  lemma AndStep(a: Expr, b: Expr, m: Memory)
    requires Good(a) && Good(b) && Good(Lan(a, b))
    ensures var p, r := Eval(a, None, m), Eval(Lan(a, b), None, m);
            if p.None? || p.value.v == 0 then r == p else r == Eval(b, None, p.value.mem)
  {
    hide BinaryEff; hide AluEff; hide LoadEff; hide StoreEff; hide Scale; hide Bump; hide EvalAddr; hide TypeOf;
  }

  /** `||` is true if its left side is, without its right side, or if its right side is after the left was false; it is
      false if both are. */
  lemma OrMeans(a: Expr, b: Expr, m: Memory)
    requires Good(a) && Good(b)
    ensures Good(Lor(a, b))
    ensures var p, r := Eval(a, None, m), Eval(Lor(a, b), None, m);
            && (p == None ==> r == None) && (True(p) ==> True(r) && r.value.mem == p.value.mem)
            && (False(p) ==> var q := Eval(b, None, p.value.mem);
                             (q == None <==> r == None) && (True(q) <==> True(r)) && (False(q) <==> False(r)) &&
                             (r.Some? ==> q.Some? && r.value.mem == q.value.mem))
  {
    BothGood(a, b);
    OrStep(a, b, m);
    hide Eval; hide TypeOf;
  }

  /** `&&` is false if its left side is, without its right side, or if its right side is after the left was true; it is
      true if both are. */
  lemma AndMeans(a: Expr, b: Expr, m: Memory)
    requires Good(a) && Good(b)
    ensures Good(Lan(a, b))
    ensures var p, r := Eval(a, None, m), Eval(Lan(a, b), None, m);
            && (p == None ==> r == None) && (False(p) ==> False(r) && r.value.mem == p.value.mem)
            && (True(p) ==> var q := Eval(b, None, p.value.mem);
                            (q == None <==> r == None) && (True(q) <==> True(r)) && (False(q) <==> False(r)) &&
                            (r.Some? ==> q.Some? && r.value.mem == q.value.mem))
  {
    BothGood(a, b);
    AndStep(a, b, m);
    hide Eval; hide TypeOf;
  }

  /** `c ? a : b` is `a` after a true condition and `b` after a false one, and the other is not evaluated; turning the
      condition round is the same as swapping the two. */
  lemma CondMeans(c: Expr, a: Expr, b: Expr, m: Memory)
    requires Good(c) && Good(a) && Good(b)
    ensures Good(Cond(c, a, b)) && Good(Cond(Not(c), b, a))
    ensures var p, r := Eval(c, None, m), Eval(Cond(c, a, b), None, m);
            && (p == None ==> r == None) && (True(p) ==> r == Eval(a, None, p.value.mem))
            && (False(p) ==> r == Eval(b, None, p.value.mem))
    ensures Eval(Cond(Not(c), b, a), None, m) == Eval(Cond(c, a, b), None, m)
  {
    NotMeans(c, None, m);
    hide BinaryEff; hide AluEff; hide LoadEff; hide StoreEff; hide Scale; hide Bump; hide Alu;
  }

  /** `sizeof`. */
  lemma SizeMeans(t: Ty, over: Option<Ty>, m: Memory)
    ensures Yields(Eval(SizeOf(t), over, m), TypeBytes(t), m)
  {}

  /** A name stands for the number at its address, a cast of a name for the number of that type there, and an array
      for its address. */
  lemma NameMeans(a: Word, t: Ty, u: Ty, m: Memory)
    ensures var r := Eval(Var(a, t, false), None, m);
            if Mapped(m, a, TypeBytes(t)) then r.Some? && r.value.mem == m && Holds(m, a, t, r.value.v) else r == None
    ensures var r := Eval(Cast(u, Var(a, t, false)), None, m);
            if Mapped(m, a, TypeBytes(u)) then r.Some? && r.value.mem == m && Holds(m, a, u, r.value.v) else r == None
    ensures Yields(Eval(Var(a, t, true), None, m), a, m)
  {
    hide Mapped; hide Holds; hide LoadTyped;
    ReadMeans(m, a, t);
    ReadMeans(m, a, u);
  }

  /** How far `++` and `--` go. */
  function StepBytes(t: Ty): nat { if t.ptr == 0 then 1 else PointedBytes(t) }

  lemma StepIs(t: Ty)
    ensures IncBytes(t) == StepBytes(t)
  {}

  /** What `++` or `--` stores: one element on, or back. */
  function Stepped(dec: bool, t: Ty, v: Word): Word {
    (if dec then v - StepBytes(t) else v + StepBytes(t)) % TWO64
  }

  lemma StepAlu(dec: bool, t: Ty, v: Word)
    ensures Alu(if dec then SUB else ADD, v, IncBytes(t)) == Some(Stepped(dec, t, v))
    ensures Alu(if dec then ADD else SUB, Stepped(dec, t, v), IncBytes(t)) == Some(v)
  {
    hide Alu; hide StepBytes; hide IncBytes;
    var k := IncBytes(t);
    StepIs(t);
    AddAlu(v, k);
    AddAlu(Stepped(dec, t, v), k);
    ForthAndBack(v, k);
  }

  /** `++` or `--` of the lvalue `x` in `m` goes through: it is at `q`, holds `v`, and `w` is stored in `m'`. */
  ghost predicate Bumps(dec: bool, x: Expr, m: Memory, v: Word, w: Word, m': Memory)
    requires Good(x) && IsLvalue(x)
  {
    var p := EvalAddr(x, None, m);
    && p.Some?
    && LoadTyped(p.value.mem, p.value.v, LoadTy(x)) == Some(v)
    && w == Stepped(dec, Type(x), v)
    && Store(p.value.mem, p.value.v, w, AccessTy(Type(x)).Size()) == Some(m')
  }

  lemma BumpIs(dec: bool, x: Expr, m: Memory, v: Word, w: Word, m': Memory)
    requires Good(x) && IsLvalue(x)
    ensures Bumps(dec, x, m, v, w, m') ==> Bump(dec, x, m) == Some(Eff(w, m'))
  {
    hide Alu; hide Store; hide LoadTyped; hide TypeOf; hide IsLvalue; hide Stepped; hide EvalAddr; hide IncBytes;
    StepAlu(dec, Type(x), v);
  }

  lemma BumpFrom(dec: bool, x: Expr, m: Memory) returns (v: Word)
    requires Good(x) && IsLvalue(x) && Bump(dec, x, m).Some?
    ensures var r := Bump(dec, x, m).value; Bumps(dec, x, m, v, r.v, r.mem)
  {
    hide Alu; hide Store; hide LoadTyped; hide TypeOf; hide IsLvalue; hide Stepped; hide EvalAddr; hide IncBytes;
    var p := EvalAddr(x, None, m).value;
    v := LoadTyped(p.mem, p.v, LoadTy(x)).value;
    StepAlu(dec, Type(x), v);
  }

  /** `++x` and `--x` load, step by one element and store, and yield what was stored. */
  lemma PreIncMeans(dec: bool, x: Expr, over: Option<Ty>, m: Memory, w: Word, m': Memory)
    requires Good(x) && IsLvalue(x)
    ensures Eval(PreInc(dec, x), over, m) == Some(Eff(w, m')) <==> exists v :: Bumps(dec, x, m, v, w, m')
  {
    hide Bumps; hide Bump;
    if Bump(dec, x, m).Some? { var v := BumpFrom(dec, x, m); }
    forall v | Bumps(dec, x, m, v, w, m') ensures Bump(dec, x, m) == Some(Eff(w, m')) { BumpIs(dec, x, m, v, w, m'); }
  }

  /** `x++` and `x--` do the same and yield what was there. */
  lemma PostIncMeans(dec: bool, x: Expr, over: Option<Ty>, m: Memory, v: Word, m': Memory)
    requires Good(x) && IsLvalue(x)
    ensures Eval(PostInc(dec, x), over, m) == Some(Eff(v, m')) <==> exists w :: Bumps(dec, x, m, v, w, m')
  {
    hide Bumps; hide Bump; hide Alu; hide AluEff; hide IncBytes; hide StepBytes; hide Stepped;
    var r := Bump(dec, x, m);
    if r.Some? {
      var u := BumpFrom(dec, x, m);
      BumpsStep(dec, x, m, u, r.value.v, r.value.mem);
      StepAlu(dec, Type(x), u);
      Effect(if dec then ADD else SUB, r.value.v, IncBytes(Type(x)), r.value.mem);
      assert Eval(PostInc(dec, x), over, m) == Some(Eff(u, r.value.mem));
      forall w | Bumps(dec, x, m, v, w, m') ensures u == v && m' == r.value.mem {
        BumpIs(dec, x, m, v, w, m');
        SameStart(dec, x, m, u, r.value.v, r.value.mem, v, w, m');
      }
    } else {
      forall w ensures !Bumps(dec, x, m, v, w, m') { BumpIs(dec, x, m, v, w, m'); }
    }
  }

  lemma BumpsStep(dec: bool, x: Expr, m: Memory, v: Word, w: Word, m': Memory)
    requires Good(x) && IsLvalue(x) && Bumps(dec, x, m, v, w, m')
    ensures w == Stepped(dec, Type(x), v)
  {}

  lemma SameStart(dec: bool, x: Expr, m: Memory, v: Word, w: Word, m1: Memory, v': Word, w': Word, m2: Memory)
    requires Good(x) && IsLvalue(x) && Bumps(dec, x, m, v, w, m1) && Bumps(dec, x, m, v', w', m2)
    ensures v == v'
  {
    hide Store; hide LoadTyped; hide TypeOf; hide IsLvalue; hide Stepped; hide EvalAddr;
  }

  lemma ForthAndBack(v: Word, k: Word)
    ensures ((v + k) % TWO64 - k) % TWO64 == v && ((v - k) % TWO64 + k) % TWO64 == v
  {}

  /** One level of the address of `a[i]`. */
  lemma IndexStep(a: Expr, i: Expr, m: Memory)
    requires Good(Index(a, i))
    ensures Good(a) && Good(i) && Type(a).ptr > 0
    ensures var p := Eval(a, None, m);
            var r := EvalAddr(Index(a, i), None, m);
            if p.None? then r == None
            else
              var q := Eval(i, None, p.value.mem);
              r == if q.None? then None else AluEff(ADD, p.value.v, Scale(Type(a), q.value.v), q.value.mem)
  {
    hide BinaryEff; hide AluEff; hide LoadEff; hide StoreEff; hide Scale; hide Bump; hide Alu;
  }

  /** The address `y` elements behind `x`. */
  function Moved(t: Ty, x: Word, y: Word): int { (x + y * PointedBytes(t)) % TWO64 }

  lemma MovedBy(t: Ty, x: Word, y: Word, m: Memory)
    requires t.ptr > 0
    ensures Yields(AluEff(ADD, x, Scale(t, y), m), Moved(t, x, y), m)
  {
    hide Alu; hide AluEff; hide Scale; hide PointedBytes;
    ScaleIs(t, y);
    AddScaled(x, y, PointedBytes(t));
    Effect(ADD, x, Scale(t, y), m);
    AddAlu(x, Scale(t, y));
  }

  /** `a[i]` is at the address of `a` moved by `i` elements. */
  lemma IndexMeans(a: Expr, i: Expr, m: Memory)
    requires Good(Index(a, i))
    ensures Good(a) && Good(i) && Type(a).ptr > 0
    ensures var p := Eval(a, None, m);
            var r := EvalAddr(Index(a, i), None, m);
            if p.None? then r == None
            else
              var q := Eval(i, None, p.value.mem);
              if q.None? then r == None
              else Yields(r, Moved(Type(a), p.value.v, q.value.v), q.value.mem)
  {
    hide Alu; hide AluEff; hide Scale; hide Moved; hide Yields; hide Eval; hide EvalAddr; hide TypeOf;
    IndexStep(a, i, m);
    var p := Eval(a, None, m);
    if p.Some? {
      var q := Eval(i, None, p.value.mem);
      if q.Some? { MovedBy(Type(a), p.value.v, q.value.v, q.value.mem); }
    }
  }
}
