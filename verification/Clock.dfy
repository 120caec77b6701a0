/** Scaling between clocks with a multiplier and a shift, in 64-bit arithmetic. */
module Clock {
  import opened Arith

  const U32: int := 0x1_0000_0000
  const U64: int := 0x1_0000_0000_0000_0000

  /** A clock page: `ns = zero + tsc * mult / 2^shift`. */
  datatype Conv = Conv(zero: int, mult: int, shift: nat)

  predicate Fits(c: Conv) { 0 <= c.zero < U64 && 0 < c.mult < U32 && c.shift <= 32 }

  /** `perfclock_to_tsc`, every operation modulo 2^64. */
  function ToTsc(c: Conv, ns: int): int
    requires Fits(c) && 0 <= ns < U64
  {
    var t := (ns - c.zero) % U64;
    var quot, rem := t / c.mult, t % c.mult;
    (quot * Pow2(c.shift) % U64 + rem * Pow2(c.shift) % U64 / c.mult) % U64
  }

  /** `tsc_to_perfclock`. */
  function ToPerf(c: Conv, tsc: int): int
    requires Fits(c) && 0 <= tsc < U64
  { (tsc * c.mult / Pow2(c.shift) % U64 + c.zero) % U64 }

  /** Scaled exactly and rounded down. */
  function Scaled(c: Conv, t: int): int
    requires Fits(c)
  { t * Pow2(c.shift) / c.mult }

  lemma Pow2Bound(k: nat)
    requires k <= 32
    ensures 1 <= Pow2(k) <= U32
  {
    Pow2Values();
    Pow2Mono(k, 32);
  }

  lemma MulBound(a: int, b: int, n: int)
    requires 0 <= a < n && 0 <= b <= U32 && n <= U32
    ensures 0 <= a * b < U64
  {
    MulMono(a, 0, b);
    MulMono(a, b, U32);
    assert a * U32 <= (U32 - 1) * U32;
  }

  /** Dividing first and scaling the quotient and the remainder loses nothing. */
  lemma SplitScale(t: int, p: int, m: int)
    requires t >= 0 && p > 0 && m > 0
    ensures t * p / m == (t / m) * p + (t % m) * p / m
  {
    var q, r := t / m, t % m;
    DivMod(t, m);
    DivMod(r * p, m);
    var k, s := r * p / m, r * p % m;
    assert t * p == m * (q * p + k) + s by {
      assert t * p == (m * q + r) * p;
      Distribute(m, q, r, p);
      assert m * (q * p + k) == m * (q * p) + m * k;
    }
    ModUnique(t * p, m, q * p + k, s);
  }

  lemma Distribute(m: int, q: int, r: int, p: int)
    ensures (m * q + r) * p == m * (q * p) + r * p
  {}

  lemma Wrapped(t: int, p: int, m: int)
    requires t >= 0 && 1 <= p <= U32 && 0 < m < U32
    ensures t % m * p < U64
    ensures ((t / m) * p % U64 + (t % m) * p % U64 / m) % U64 == t * p / m % U64
  {
    SplitScale(t, p, m);
    DivMod(t, m);
    MulBound(t % m, p, m);
    var a, r := (t / m) * p, (t % m) * p;
    assert r % U64 == r;
    SumMod(a, r / m);
  }

  /** The remainder times 2^shift never overflows, and the result is the exact quotient modulo 2^64. */
  lemma ToTscExact(c: Conv, ns: int)
    requires Fits(c) && 0 <= ns < U64
    ensures var t := (ns - c.zero) % U64;
            t % c.mult * Pow2(c.shift) < U64 && ToTsc(c, ns) == Scaled(c, t) % U64
  {
    Pow2Bound(c.shift);
    Wrapped((ns - c.zero) % U64, Pow2(c.shift), c.mult);
  }

  lemma SumMod(a: int, b: int)
    ensures (a % U64 + b) % U64 == (a + b) % U64
  {
    DivMod(a, U64);
    DivMod(a % U64 + b, U64);
    ModUnique(a + b, U64, a / U64 + (a % U64 + b) / U64, (a % U64 + b) % U64);
  }

  /** Exactly the quotient when that fits in 64 bits, and only then. */
  lemma ToTscFits(c: Conv, ns: int)
    requires Fits(c) && 0 <= ns < U64
    ensures ToTsc(c, ns) == Scaled(c, (ns - c.zero) % U64) <==> Scaled(c, (ns - c.zero) % U64) < U64
  {
    ToTscExact(c, ns);
    ScaledNonneg(c, (ns - c.zero) % U64);
  }

  lemma ScaledNonneg(c: Conv, t: int)
    requires Fits(c) && t >= 0
    ensures Scaled(c, t) >= 0
  {
    MulMono(t, 0, Pow2(c.shift));
    DivAtMost(t * Pow2(c.shift), c.mult);
  }

  /** Later times do not become earlier, as long as the later one fits. */
  lemma OrderKept(c: Conv, ns: int, later: int)
    requires Fits(c) && c.zero <= ns <= later < U64 && Scaled(c, later - c.zero) < U64
    ensures ToTsc(c, ns) <= ToTsc(c, later)
  {
    hide ToTsc; hide Scaled;
    ScaledMono(c, ns - c.zero, later - c.zero);
    ToTscFits(c, ns);
    ToTscFits(c, later);
  }

  lemma ScaledMono(c: Conv, t: int, u: int)
    requires Fits(c) && 0 <= t <= u
    ensures Scaled(c, t) <= Scaled(c, u)
  {
    MulMono(Pow2(c.shift), t, u);
    DivMono(t * Pow2(c.shift), u * Pow2(c.shift), c.mult);
  }

  function CeilDiv(a: int, b: int): int
    requires b > 0
  { (a + b - 1) / b }

  /** Scaling and scaling back loses at most the rounded-up (mult - 1) / 2^shift. */
  lemma BackAndForth(c: Conv, t: int)
    requires Fits(c) && t >= 0
    ensures t - CeilDiv(c.mult - 1, Pow2(c.shift)) <= Scaled(c, t) * c.mult / Pow2(c.shift) <= t
  {
    hide Pow2; hide CeilDiv;
    var p, m := Pow2(c.shift), c.mult;
    var e := CeilDiv(m - 1, p);
    Nearly(t * p, m);
    CeilCovers(m - 1, p);
    MulSub(p, t, e);
    Floor(Scaled(c, t) * m, p, t - e);
    Ceil(Scaled(c, t) * m, p, t);
  }

  /** Dividing and multiplying again loses less than the divisor. */
  lemma Nearly(v: int, m: int)
    requires m > 0
    ensures v - (m - 1) <= v / m * m <= v
  {
    DivMod(v, m);
  }

  lemma CeilCovers(a: int, b: int)
    requires b > 0
    ensures a <= b * CeilDiv(a, b)
  {
    DivMod(a + b - 1, b);
  }

  lemma Floor(v: int, p: int, k: int)
    requires p > 0 && p * k <= v
    ensures k <= v / p
  {
    DivMod(v, p);
    if v / p < k { MulMono(p, v / p + 1, k); }
  }

  lemma Ceil(v: int, p: int, k: int)
    requires p > 0 && v <= p * k
    ensures v / p <= k
  {
    DivMod(v, p);
    if v / p > k { MulMono(p, k + 1, v / p); }
  }

  /** The same for the 64-bit functions, as long as the scaled value fits. */
  lemma RoundTrip(c: Conv, ns: int)
    requires Fits(c) && c.zero <= ns < U64 && Scaled(c, ns - c.zero) < U64
    ensures 0 <= ToTsc(c, ns) < U64
    ensures ns - CeilDiv(c.mult - 1, Pow2(c.shift)) <= ToPerf(c, ToTsc(c, ns)) <= ns
  {
    hide ToTsc; hide Scaled; hide CeilDiv; hide ToPerf; hide Pow2;
    var t := ns - c.zero;
    ToTscFits(c, ns);
    ScaledNonneg(c, t);
    BackAndForth(c, t);
    ToPerfIs(c, Scaled(c, t), ns);
  }

  lemma ToPerfIs(c: Conv, x: int, ns: int)
    requires Fits(c) && 0 <= x < U64 && x * c.mult / Pow2(c.shift) <= ns - c.zero && ns < U64
    ensures ToPerf(c, x) == x * c.mult / Pow2(c.shift) + c.zero
  {
    hide Pow2;
    Unwrapped(x, c.mult, Pow2(c.shift), c.zero, ns);
  }

  lemma Unwrapped(x: int, m: int, p: int, zero: int, ns: int)
    requires x >= 0 && m >= 0 && p > 0 && zero >= 0 && x * m / p <= ns - zero && ns < U64
    ensures (x * m / p % U64 + zero) % U64 == x * m / p + zero
  {
    MulMono(x, 0, m);
    DivAtMost(x * m, p);
  }

  // ----- event clocks -----

  datatype Mode = NoConversion | TscConversion | AddOffset

  /** `perfclock_to_evclock`, leaving out the guest clock. */
  function ToEvent(mode: Mode, c: Conv, offset: int, ns: int): int
    requires Fits(c) && 0 <= ns < U64
  {
    match mode
    case NoConversion => ns
    case TscConversion => (ToTsc(c, ns) + offset) % U64
    case AddOffset => (ns + offset) % U64
  }

  /** `evclock_to_perfclock`. */
  function FromEvent(mode: Mode, c: Conv, offset: int, ev: int): int
    requires Fits(c) && 0 <= ev < U64
  {
    match mode
    case NoConversion => ev
    case TscConversion => ToPerf(c, (ev - offset) % U64)
    case AddOffset => (ev - offset) % U64
  }

  lemma OffsetCancels(x: int, offset: int)
    requires 0 <= x < U64
    ensures ((x + offset) % U64 - offset) % U64 == x
  {
    DivMod(x + offset, U64);
    ModUnique((x + offset) % U64 - offset, U64, -((x + offset) / U64), x);
  }

  /** A clock offset moves every converted time forward by as much, and without conversion there is none. */
  lemma OffsetMoves(mode: Mode, c: Conv, offset: int, d: int, ns: int)
    requires Fits(c) && 0 <= ns < U64
    ensures var t := ToEvent(mode, c, offset, ns);
            ToEvent(mode, c, offset + d, ns) == if mode.NoConversion? then ns else (t + d) % U64
    ensures ToEvent(mode, c, 0, ns) == if mode.TscConversion? then ToTsc(c, ns) else ns
  {
    hide ToTsc;
    TscRange(c, ns);
    var x := if mode.TscConversion? then ToTsc(c, ns) else ns;
    DivMod(x + offset, U64);
    DivMod((x + offset) % U64 + d, U64);
    var q, r := (x + offset) / U64, ((x + offset) % U64 + d) / U64;
    ModUnique(x + offset + d, U64, q + r, ((x + offset) % U64 + d) % U64);
    ModUnique(x, U64, 0, x);
  }

  lemma TscRange(c: Conv, ns: int)
    requires Fits(c) && 0 <= ns < U64
    ensures 0 <= ToTsc(c, ns) < U64
  {}

  /** Converting to the event clock and back is exact without scaling, and otherwise loses no more than
      the scaling does, whatever the offset. */
  lemma EventRoundTrip(mode: Mode, c: Conv, offset: int, ns: int)
    requires Fits(c) && c.zero <= ns < U64 && Scaled(c, ns - c.zero) < U64
    ensures 0 <= ToEvent(mode, c, offset, ns) < U64
    ensures var back := FromEvent(mode, c, offset, ToEvent(mode, c, offset, ns));
            if mode.TscConversion? then ns - CeilDiv(c.mult - 1, Pow2(c.shift)) <= back <= ns else back == ns
  {
    RoundTrip(c, ns);
    hide ToPerf; hide Scaled; hide CeilDiv; hide ToTsc;
    match mode
    case NoConversion =>
    case TscConversion => OffsetCancels(ToTsc(c, ns), offset);
    case AddOffset => OffsetCancels(ns, offset);
  }

  // ----- choosing multiplier and shift -----

  /** The multiplier for a shift, rounded to the nearest. */
  function MultFor(from: int, to: int, sft: nat): int
    requires from > 0
  { (to * Pow2(sft) + from / 2) / from }

  /** The number of bits of a value. */
  function Bits(v: nat): nat { if v == 0 then 0 else 1 + Bits(v / 2) }

  lemma {:induction false} BitsBound(v: nat)
    ensures v < Pow2(Bits(v))
  {
    if v > 0 { BitsBound(v / 2); }
  }

  lemma {:induction false} BitsAtMost(v: nat, k: nat)
    requires v < Pow2(k)
    ensures Bits(v) <= k
  {
    if v > 0 { BitsAtMost(v / 2, k - 1); }
  }

  lemma MultMono(from: int, to: int, a: nat, b: nat)
    requires from > 0 && to >= 0 && a <= b
    ensures MultFor(from, to, a) <= MultFor(from, to, b)
  {
    Pow2Mono(a, b);
    MulMono(to, Pow2(a), Pow2(b));
    DivMono(to * Pow2(a) + from / 2, to * Pow2(b) + from / 2, from);
  }

  /** The sum that is divided fits in 64 bits. */
  lemma MultRange(from: int, to: int, sft: nat)
    requires 0 < from < U32 && 0 <= to < U32 && sft <= 32
    ensures 0 <= to * Pow2(sft) + from / 2 < U64 && 0 <= MultFor(from, to, sft)
  {
    Pow2Bound(sft);
    MulMono(to, 0, Pow2(sft));
    MulMono(to, Pow2(sft), U32);
    assert to * U32 <= (U32 - 1) * U32;
    DivAtMost(to * Pow2(sft) + from / 2, from);
  }

  /** The multiplier is the nearest to `to * 2^sft / from`. */
  lemma NearestMult(from: int, to: int, sft: nat)
    requires from > 0 && to >= 0
    ensures var m := MultFor(from, to, sft);
            -from <= 2 * (m * from - to * Pow2(sft)) <= from
  {
    var v := to * Pow2(sft) + from / 2;
    DivMod(v, from);
    assert MultFor(from, to, sft) * from == v - v % from;
  }

  /** A multiplier below 2^acc times any count of cycles the range covers stays below 2^64. */
  lemma SafeProduct(from: int, maxsec: int, mult: int, cycles: int)
    requires 0 < from < U32 && 0 <= maxsec < U32 && 0 <= cycles <= maxsec * from
    requires Bits(maxsec * from / U32) <= 32 && 0 <= mult < Pow2(32 - Bits(maxsec * from / U32))
    ensures cycles * mult < U64
  {
    var n := maxsec * from;
    MulBound(maxsec, from, U32);
    var bits := Bits(n / U32);
    BitsBound(n / U32);
    Under(n, Pow2(bits));
    Pow2Add(bits, 32 - bits);
    Pow2Values();
    ProductBound(cycles, Pow2(bits), Pow2(32 - bits), mult);
  }

  lemma Under(n: int, top: int)
    requires n / U32 < top
    ensures n < U32 * top
  {
    DivMod(n, U32);
    MulMono(U32, n / U32 + 1, top);
  }

  lemma ProductBound(cycles: int, top: int, rest: int, mult: int)
    requires 0 <= cycles < U32 * top && top * rest == U32 && 0 <= mult < rest
    ensures cycles * mult < U64
  {
    MulMono(cycles, mult, rest);
    Below(cycles, U32 * top, rest);
    Shuffle(U32, top, rest);
  }

  lemma Shuffle(a: int, b: int, c: int)
    ensures a * b * c == a * (b * c)
  {}

  lemma Below(a: int, b: int, r: int)
    requires a < b && r > 0
    ensures a * r < b * r
  {}

  /** When even the shift 1 does not fit, the shift is 0 but the multiplier is still the one for the
      shift 1: unless it wraps at 2^32, it is the one nearest to twice the ratio. */
  lemma NoFitDoubles(from: int, to: int, mult: int)
    requires 0 < from < U32 && 0 <= to < U32 && mult == MultFor(from, to, 1) % U32
    ensures MultFor(from, to, 1) < U32 ==> -from <= 2 * (mult * from - 2 * to) <= from
  {
    assert Pow2(1) == 2;
    NearestMult(from, to, 1);
    if MultFor(from, to, 1) < U32 {
      MultRange(from, to, 1);
      assert mult == MultFor(from, to, 1);
    }
  }

  /** It happens: twice the rate over the longest range gets 4 instead of 2, with the shift 0. */
  lemma NoFitExample()
    ensures var from, to, maxsec := 0x4000_0000, 0x8000_0000, 0xFFFF_FFFF;
            var acc := 32 - Bits(maxsec * from / U32);
            acc == 2 && MultFor(from, to, 1) == 4 == Pow2(acc) && MultFor(from, to, 0) == 2
  {
    Pow2Values();
    assert Pow2(0) == 1 && Pow2(1) == 2 && Pow2(2) == 4;
    assert 0xFFFF_FFFF * 0x4000_0000 / U32 == 0x3FFF_FFFF;
    BitsOnes(30);
    assert Pow2(30) == 0x4000_0000;
  }

  lemma {:induction false} BitsOnes(k: nat)
    ensures Bits(Pow2(k) - 1) == k
  {
    if k > 0 {
      BitsOnes(k - 1);
      assert (Pow2(k) - 1) / 2 == Pow2(k - 1) - 1;
    }
  }

  /** The multiplier and shift are as near to the ratio as that shift allows. */
  predicate Nearest(from: int, to: int, mult: int, shift: nat) { -from <= 2 * (mult * from - to * Pow2(shift)) <= from }

  /** The multiplier of the shift 1 with the shift 0 is the nearest only for a ratio that rounds to 1. */
  lemma NoFitNearest(from: int, to: int, mult: int)
    requires 0 < from < U32 && 0 <= to < U32 && MultFor(from, to, 1) >= 1 && mult == MultFor(from, to, 1) % U32
    ensures Nearest(from, to, mult, 0) <==> MultFor(from, to, 1) == 1 && 2 * to >= from
  {
    var m := MultFor(from, to, 1);
    assert Pow2(1) == 2 && Pow2(0) == 1 && m == (2 * to + from / 2) / from;
    hide MultFor; hide Pow2;
    DivMod(2 * to + from / 2, from);
    MulFrom(from, m);
    if m >= U32 {
      WrapsForOne(from, to, m);
      assert mult * from == mult;
    } else {
      assert mult == m;
      if m >= 2 { TooMuch(from, to, m); }
    }
  }

  lemma WrapsForOne(from: int, to: int, m: int)
    requires 0 < from < U32 && 0 <= to < U32 && m >= U32 && from * m <= 2 * to + from / 2
    ensures from == 1 && m <= 2 * to
  {
    if from >= 2 { MulMono(m, 2, from); MulMono(from, U32, m); }
  }

  lemma TooMuch(from: int, to: int, m: int)
    requires 0 < from && m >= 2 && from * m <= 2 * to + from / 2 < from * m + from
    ensures 2 * (from * m - to) > from
  {
    MulMono(from, 2, m);
  }

  lemma MulFrom(from: int, m: int)
    ensures m * from == from * m
  {}

  /** `clocks_calc_mult_shift`: the accuracy loop and the search for the largest shift. */
  method CalcMultShift(from: int, to: int, maxsec: int) returns (mult: int, shift: nat, found: bool)
    requires 0 < from < U32 && 0 <= to < U32 && 0 <= maxsec < U32
    ensures var acc := 32 - Bits(maxsec * from / U32);
            && 0 <= acc <= 32
            && (found <==> MultFor(from, to, 1) < Pow2(acc))
            && (found ==>
                  && 1 <= shift <= 32 && mult == MultFor(from, to, shift) < Pow2(acc)
                  && forall s: nat :: shift < s <= 32 ==> MultFor(from, to, s) >= Pow2(acc))
            && (!found ==> shift == 0 && mult == MultFor(from, to, 1) % U32)
    ensures Nearest(from, to, mult, shift) <==> found || (MultFor(from, to, 1) == 1 && 2 * to >= from)
  {
    hide MultFor; hide Pow2;
    var acc := Accuracy(from, maxsec);
    shift := 32;
    found := false;
    mult := 0;
    while shift > 0 && !found
      invariant 0 <= shift <= 32 && (found ==> shift >= 1)
      invariant found ==> mult == MultFor(from, to, shift) < Pow2(acc)
      invariant forall s: nat :: shift < s <= 32 ==> MultFor(from, to, s) >= Pow2(acc)
      invariant !found && shift < 32 ==> mult == MultFor(from, to, shift + 1)
      decreases shift, !found
    {
      mult := MultFor(from, to, shift);
      if mult < Pow2(acc) { found := true; } else { shift := shift - 1; }
    }
    if found {
      MultMono(from, to, 1, shift);
      MultRange(from, to, shift);
      Pow2Bound(acc);
    }
    mult := mult % U32;
    if found { NearestMult(from, to, shift); } else { NoFitNearest(from, to, mult); }
  }

  /** The bits left for the multiplier so that the range fits. */
  method Accuracy(from: int, maxsec: int) returns (acc: nat)
    requires 0 < from < U32 && 0 <= maxsec < U32
    ensures acc == 32 - Bits(maxsec * from / U32)
  {
    MulBound(maxsec, from, U32);
    var tmp := maxsec * from / U32;
    ghost var start := tmp;
    Pow2Values();
    BitsAtMost(tmp, 32);
    acc := 32;
    while tmp > 0
      invariant 0 <= tmp && acc == 32 - Bits(start) + Bits(tmp)
    {
      tmp := tmp / 2;
      acc := acc - 1;
    }
  }
}
