/** 64-bit machine words, byte memory and typed loads and stores, shared by the
    expression interpreter and the BPF machine. Words are kept as the integers
    0 .. 2^64 - 1, so wrap-around is always written out. */
module Words {
  import opened Arith
  import opened Options

  const TWO8: int := 0x100
  const TWO16: int := 0x1_0000
  const TWO31: int := 0x8000_0000
  const TWO32: int := 0x1_0000_0000
  const TWO63: int := 0x8000_0000_0000_0000
  const TWO64: int := 0x1_0000_0000_0000_0000

  type Word = x: int | 0 <= x < TWO64
  type Byte = x: int | 0 <= x < TWO8
  type Memory = map<Word, Byte>

  /** Two's complement: the word that stands for any integer. */
  function Wrap(x: int): Word { x % TWO64 }

  /** Two's complement: the integer a word stands for. */
  function Signed(x: Word): int { if x >= TWO63 then x - TWO64 else x }

  function Truth(b: bool): Word { if b then 1 else 0 }

  /** C division: the quotient is truncated toward zero. */
  function TruncDiv(x: int, y: int): int
    requires y != 0
  {
    if x >= 0 then x / y else -((-x) / y)
  }

  function TruncMod(x: int, y: int): int
    requires y != 0
  {
    x - TruncDiv(x, y) * y
  }

  datatype BitOp = BitOr | BitXor | BitAnd {
    function Of(p: bool, q: bool): bool {
      match this case BitOr => p || q case BitXor => p != q case BitAnd => p && q
    }
  }

  /** Bitwise combination of the low `k` bits. */
  function Bitwise(op: BitOp, x: int, y: int, k: nat): (r: int)
    ensures 0 <= r < Pow2(k)
    decreases k
  {
    if k == 0 then 0
    else 2 * Bitwise(op, x / 2, y / 2, k - 1) + Truth(op.Of(x % 2 == 1, y % 2 == 1))
  }

  function BitwiseWord(op: BitOp, x: Word, y: Word): (r: Word)
  {
    Pow2Values();
    Bitwise(op, x, y, 64)
  }

  function ShiftLeft(x: Word, k: Word): Word { Wrap(x * Pow2(k)) }

  function ShiftRight(x: Word, k: Word): (r: Word)
  {
    DivAtMost(x, Pow2(k));
    x / Pow2(k)
  }

  /** Shift right keeping the sign: the floor of a division by a power of two. */
  function ShiftArith(x: Word, k: Word): Word { Wrap(Signed(x) / Pow2(k)) }

  // ----- memory -----

  /** Access sizes: 1, 2, 4 and 8 bytes. */
  datatype Size = B | H | W | DW {
    function Bytes(): nat {
      match this case B => 1 case H => 2 case W => 4 case DW => 8
    }
    /** One past the largest unsigned value of this size. */
    function Limit(): nat {
      match this case B => TWO8 case H => TWO16 case W => TWO32 case DW => TWO64
    }
  }

  /** Little-endian load of `n` bytes; `None` when one of them is not mapped. */
  function LoadBytes(m: Memory, a: Word, n: nat): (r: Option<int>)
    ensures r.Some? ==> 0 <= r.value < Pow2(8 * n)
    decreases n
  {
    if n == 0 then Some(0)
    else if a !in m then None
    else
      var hi := LoadBytes(m, Wrap(a + 1), n - 1);
      Pow2Add(8, 8 * (n - 1));
      if hi.None? then None else Some(m[a] + TWO8 * hi.value)
  }

  /** Little-endian store of the low `n` bytes of `v`. */
  function StoreBytes(m: Memory, a: Word, v: int, n: nat): (r: Option<Memory>)
    ensures r.Some? ==> r.value.Keys == m.Keys
    decreases n
  {
    if n == 0 then Some(m)
    else if a !in m then None
    else StoreBytes(m[a := v % TWO8], Wrap(a + 1), v / TWO8, n - 1)
  }

  /** A store starting `d` bytes above an address leaves that address alone. */
  lemma {:induction false} StoreFrame(m: Memory, b: Word, d: nat, v: int, n: nat)
    requires 0 < d && d + n <= TWO16
    requires StoreBytes(m, Wrap(b + d), v, n).Some?
    ensures b in m ==> StoreBytes(m, Wrap(b + d), v, n).value[b] == m[b]
    decreases n
  {
    if n > 0 {
      var a := Wrap(b + d);
      assert a != b;
      assert (a + 1) % TWO64 == (b + (d + 1)) % TWO64;
      StoreFrame(m[a := v % TWO8], b, d + 1, v / TWO8, n - 1);
    }
  }

  /** Reading back a store yields the stored value truncated to the access. */
  lemma {:induction false} LoadAfterStore(m: Memory, a: Word, v: int, n: nat)
    requires n < TWO8 && StoreBytes(m, a, v, n).Some?
    ensures LoadBytes(StoreBytes(m, a, v, n).value, a, n) == Some(v % Pow2(8 * n))
    decreases n
  {
    if n > 0 {
      var m1 := m[a := v % TWO8];
      LoadAfterStore(m1, Wrap(a + 1), v / TWO8, n - 1);
      StoreFrame(m1, a, 1, v / TWO8, n - 1);
      Pow2Add(8, 8 * (n - 1));
      Pow2Values();
      ModSplit(v, TWO8, Pow2(8 * (n - 1)));
    }
  }

  // ----- C integer types -----

  datatype Width = CHAR | SHORT | INT | LONG

  /** A C type: a base integer and a number of pointer levels. */
  datatype Ty = Ty(width: Width, unsigned: bool, ptr: nat) {
    function Size(): Size {
      if ptr > 0 then DW else match width case CHAR => B case SHORT => H case INT => W case LONG => DW
    }
    predicate SignExtends() { ptr == 0 && !unsigned && !width.LONG? }
  }

  /** Zero-extended load of one access. */
  function Load(m: Memory, a: Word, sz: Size): (r: Option<Word>)
    ensures r.Some? ==> r.value < sz.Limit()
  {
    LimitIs(sz);
    LoadBytes(m, a, sz.Bytes())
  }

  lemma LimitIs(sz: Size)
    ensures Pow2(8 * sz.Bytes()) == sz.Limit()
  {
    Pow2Values();
  }

  function Store(m: Memory, a: Word, v: Word, sz: Size): Option<Memory> {
    StoreBytes(m, a, v, sz.Bytes())
  }

  /** Sign extension of a value of the given size. */
  function Extend(x: Word, sz: Size): Word
    requires x < sz.Limit()
  {
    if x >= sz.Limit() / 2 then x + TWO64 - sz.Limit() else x
  }

  /** `*(type *)a`. */
  function LoadTyped(m: Memory, a: Word, t: Ty): Option<Word> {
    match Load(m, a, t.Size())
    case None => None
    case Some(x) => Some(if t.SignExtends() then Extend(x, t.Size()) else x)
  }

  /** How far the sign bit of an access is from bit 63. */
  function TopShift(sz: Size): Word {
    match sz case B => 56 case H => 48 case W => 32 case DW => 0
  }

  /** Shifting the sign bit up to bit 63 and arithmetically back down sign-extends. */
  lemma ShiftUpDownExtends(x: Word, sz: Size)
    requires x < sz.Limit()
    ensures ShiftArith(ShiftLeft(x, TopShift(sz)), TopShift(sz)) == Extend(x, sz)
  {
    Pow2Values();
    match sz
    case B => ShiftUpDown(x, 0x80, 56);
    case H => ShiftUpDown(x, 0x8000, 48);
    case W => ShiftUpDown(x, TWO31, 32);
    case DW => ShiftUpDown(x, TWO63, 0);
  }

  lemma ScaledRange(x: int, h: int, p: int)
    requires h > 0 && p > 0 && p * h == TWO63 && 0 <= x < 2 * h
    ensures 0 <= x * p < TWO64 && (x >= h <==> x * p >= TWO63)
  {
    MulMono(p, 0, x);
    MulMono(p, x, 2 * h - 1);
    if x >= h { MulMono(p, h, x); } else { MulMono(p, x, h - 1); }
  }

  lemma ScaledDiv(x: int, h: int, p: int)
    requires h > 0 && p > 0 && p * h == TWO63
    ensures (x * p) / p == x && (x * p - TWO64) / p == x - 2 * h
  {
    ModUnique(x * p, p, x, 0);
    assert p * (x - 2 * h) == x * p - TWO64;
    ModUnique(x * p - TWO64, p, x - 2 * h, 0);
  }

  lemma ShiftUpDown(x: Word, h: int, k: Word)
    requires h > 0 && Pow2(k) * h == TWO63 && x < 2 * h
    ensures ShiftArith(ShiftLeft(x, k), k) == if x >= h then x + TWO64 - 2 * h else x
  {
    ScaledRange(x, h, Pow2(k));
    ScaledDiv(x, h, Pow2(k));
    assert h <= TWO63 by { MulAtLeast(h, Pow2(k)); }
    assert ShiftLeft(x, k) == x * Pow2(k);
  }
}
