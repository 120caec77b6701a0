/** Size classes and over-aligned blocks. */
module RpSizes {
  import opened Arith

  const GRANULARITY: int := 16
  const CLASSES: int := 117
  const PAGE_HEADER: int := 128
  const MAX_ALIGNMENT: int := 0x4_0000

  /** `global_size_class`: block sizes in multiples of the granularity. The first 65 entries are 1, 1,
      2, 3, ..., 64. */
  function Units(c: int): int
    requires 0 <= c < CLASSES
  {
    if c == 0 then 1 else if c <= 64 then c else
    match c
    case 65 => 80 case 66 => 96 case 67 => 112 case 68 => 128
    case 69 => 160 case 70 => 192 case 71 => 224 case 72 => 256
    case 73 => 320 case 74 => 384 case 75 => 448 case 76 => 512
    case 77 => 640 case 78 => 768 case 79 => 896 case 80 => 1024
    case 81 => 1280 case 82 => 1536 case 83 => 1792 case 84 => 2048
    case 85 => 2560 case 86 => 3072 case 87 => 3584 case 88 => 4096
    case 89 => 5120 case 90 => 6144 case 91 => 7168 case 92 => 8192
    case 93 => 10240 case 94 => 12288 case 95 => 14336 case 96 => 16384
    case 97 => 20480 case 98 => 24576 case 99 => 28672 case 100 => 32768
    case 101 => 40960 case 102 => 49152 case 103 => 57344 case 104 => 65536
    case 105 => 81920 case 106 => 98304 case 107 => 114688 case 108 => 131072
    case 109 => 163840 case 110 => 196608 case 111 => 229376 case 112 => 262144
    case 113 => 327680 case 114 => 393216 case 115 => 458752 case 116 => 524288
    case _ => 0
  }

  function BlockSize(c: int): int
    requires 0 <= c < CLASSES
  { Units(c) * GRANULARITY }

  /** The position of the highest set bit. */
  function Msb(n: int): (k: nat)
    requires n >= 1
    ensures Pow2(k) <= n < Pow2(k + 1)
  { if n == 1 then 0 else 1 + Msb(n / 2) }

  /** From the 65th entry on, four classes for each power of two. */
  lemma {:induction false} TableRow(c: int)
    requires 65 <= c < CLASSES
    ensures Units(c) == (5 + (c - 41) % 4) * Pow2((c - 41) / 4 - 2)
  {
    if c < 69 {
      assert Pow2(4) == 16;
    } else {
      TableDoubles(c);
      hide Units;
      TableRow(c - 4);
      var k := (c - 41) / 4 - 2;
      assert Pow2(k) == 2 * Pow2(k - 1) && (c - 4 - 41) / 4 - 2 == k - 1 && (c - 4 - 41) % 4 == (c - 41) % 4;
      Double(5 + (c - 41) % 4, Pow2(k - 1));
    }
  }

  lemma Double(a: int, b: int)
    ensures 2 * (a * b) == a * (2 * b)
  {}

  lemma TableDoubles(c: int)
    requires 69 <= c < CLASSES
    ensures Units(c) == 2 * Units(c - 4)
  {}

  const U64: int := 0x1_0000_0000_0000_0000

  /** `get_size_class` for a 64-bit size; the additions wrap. */
  function SizeClass(size: int): int
    requires 0 <= size < U64
  {
    var minblock := (size + (GRANULARITY - 1)) % U64 / GRANULARITY;
    if size <= GRANULARITY * 64 then (if minblock != 0 then minblock else 1)
    else Subclass((minblock - 1) % U64)
  }

  function Subclass(n: int): int
    requires n >= 0
  {
    if n < 4 then 0
    else
      var msb := Msb(n);
      4 * msb + (if msb >= 2 then n / Pow2(msb - 2) else 0) % 4 + 41
  }

  /** The two bits below the highest. */
  lemma TopBits(n: int)
    requires n >= 64
    ensures Msb(n) >= 6 && 4 <= n / Pow2(Msb(n) - 2) <= 7
    ensures var q := n / Pow2(Msb(n) - 2);
            q * Pow2(Msb(n) - 2) <= n < (q + 1) * Pow2(Msb(n) - 2) && (q - 4) == q % 4
  {
    hide Msb; hide Pow2;
    TopRange(n);
    Quotient(n, Pow2(Msb(n) - 2), 4);
    FourToSeven(n / Pow2(Msb(n) - 2));
  }

  lemma TopRange(n: int)
    requires n >= 64
    ensures Msb(n) >= 6 && 4 * Pow2(Msb(n) - 2) <= n < 8 * Pow2(Msb(n) - 2)
  {
    hide Msb;
    var k := Msb(n);
    assert Pow2(k) <= n < Pow2(k + 1);
    assert Pow2(6) == 64;
    if k < 6 { Pow2Mono(k + 1, 6); }
    assert Pow2(k) == 4 * Pow2(k - 2) && Pow2(k + 1) == 8 * Pow2(k - 2);
  }

  lemma FourToSeven(q: int)
    requires 4 <= q < 8
    ensures q - 4 == q % 4
  {}

  lemma Quotient(n: int, d: int, a: int)
    requires d > 0 && a >= 0 && a * d <= n < 2 * a * d
    ensures a <= n / d < 2 * a && n / d * d <= n < (n / d + 1) * d
  {
    var q, r := n / d, n % d;
    assert n == q * d + r;
    if q < a { MulLe(q + 1, a, d); }
    if q >= 2 * a { MulLe(2 * a, q, d); }
  }

  lemma MulLe(a: int, b: int, d: int)
    requires a <= b && d > 0
    ensures a * d <= b * d
  {}

  lemma TableMono(c: int, d: int)
    requires 0 <= c <= d < CLASSES
    ensures Units(c) <= Units(d)
    decreases d - c
  {
    hide Units;
    if c < d { TableStep(d - 1); TableMono(c, d - 1); }
  }

  lemma TableStep(c: int)
    requires 0 <= c < CLASSES - 1
    ensures Units(c) <= Units(c + 1)
  {}

  /** The row of class `c`, given its two parts, and the class before it. */
  lemma RowIs(c: int, k: nat, q: int)
    requires 65 <= c < CLASSES && 4 <= q <= 7 && c == 4 * k + q + 37
    ensures k >= 2 && Units(c) == (q + 1) * Pow2(k - 2) && Units(c - 1) == q * Pow2(k - 2)
  {
    hide Units; hide Pow2;
    assert (c - 41) / 4 == k && (c - 41) % 4 == q - 4;
    TableRow(c);
    if q > 4 {
      assert (c - 1 - 41) / 4 == k && (c - 1 - 41) % 4 == q - 5;
      TableRow(c - 1);
    } else {
      BeforeRow(c);
    }
  }

  lemma MsbBelow19(n: int)
    requires n >= 1
    ensures Msb(n) <= 18 <==> n < 524288
  {
    assert Pow2(19) == 524288 by { Pow2Add(3, 16); Pow2Values(); assert Pow2(3) == 8; }
    var k := Msb(n);
    if k >= 19 { Pow2Mono(19, k); } else { Pow2Mono(k + 1, 19); }
  }

  /** Above 1024 bytes the class is the first whose blocks hold `n + 1` units, if there is one. */
  lemma SubclassFits(n: int)
    requires n >= 64
    ensures Subclass(n) >= 65
    ensures Subclass(n) < CLASSES <==> n < 524288
    ensures Subclass(n) < CLASSES ==> Units(Subclass(n) - 1) <= n < Units(Subclass(n))
  {
    hide Units; hide Pow2; hide Msb;
    TopBits(n);
    MsbBelow19(n);
    var c := Subclass(n);
    if c < CLASSES { RowIs(c, Msb(n), n / Pow2(Msb(n) - 2)); }
  }

  lemma BeforeRow(c: int)
    requires 65 <= c < CLASSES && (c - 41) % 4 == 0
    ensures Units(c - 1) == 4 * Pow2((c - 41) / 4 - 2)
  {
    hide Units;
    var k := (c - 41) / 4;
    if c == 65 {
      UnitsSmall(64);
      assert Pow2(4) == 16;
    } else {
      TableRow(c - 1);
      assert (c - 1 - 41) / 4 == k - 1 && (c - 1 - 41) % 4 == 3;
      assert Pow2(k - 2) == 2 * Pow2(k - 3);
    }
  }

  lemma UnitsSmall(c: int)
    requires 1 <= c <= 64
    ensures Units(c) == c
  {}

  /** The class is in the table exactly for sizes up to 8 MiB, and then its blocks are the smallest
      that fit. */
  lemma SmallestFit(size: int)
    requires 0 <= size < U64
    ensures SizeClass(size) >= 1
    ensures SizeClass(size) < CLASSES <==> size <= 0x80_0000
    ensures SizeClass(size) < CLASSES ==> size <= BlockSize(SizeClass(size))
    ensures forall d :: SizeClass(size) < CLASSES && 0 <= d < CLASSES && size <= BlockSize(d) ==>
              BlockSize(SizeClass(size)) <= BlockSize(d)
  {
    hide Units; hide Msb;
    if size <= 1024 {
      FirstClasses(size);
    } else {
      Classes(size);
    }
    var c := SizeClass(size);
    if c < CLASSES {
      forall d | 0 <= d < CLASSES && size <= BlockSize(d) ensures BlockSize(c) <= BlockSize(d) {
        if d >= c { TableMono(c, d); } else { TableMono(d, c - 1); }
      }
    }
  }

  lemma FirstClasses(size: int)
    requires 0 <= size <= 1024
    ensures var c := SizeClass(size);
            1 <= c <= 64 && Units(c) == c && size <= 16 * c && (c > 1 ==> 16 * Units(c - 1) < size) &&
            (c == 1 ==> Units(0) == 1)
  {}

  lemma Classes(size: int)
    requires 1024 < size < U64
    ensures var c := SizeClass(size);
            && c >= 65 && (c < CLASSES <==> size <= 0x80_0000)
            && (c < CLASSES ==> 16 * Units(c - 1) < size <= 16 * Units(c))
  {
    hide Units; hide Subclass;
    var n := ((size + 15) % U64 / 16 - 1) % U64;
    Minblock(size);
    SubclassFits(n);
  }

  lemma Minblock(size: int)
    requires 1024 < size < U64
    ensures var n := ((size + 15) % U64 / 16 - 1) % U64;
            && SizeClass(size) == Subclass(n)
            && n >= 64 && (n < 524288 <==> size <= 0x80_0000) && (n < 524288 ==> 16 * n < size <= 16 * n + 16)
  {
    hide Subclass;
    if size + 15 < U64 { assert (size + 15) % U64 == size + 15; } else { assert (size + 15) % U64 == size + 15 - U64; }
  }

  // ----- pages and over-aligned blocks -----

  /** The page size of a class: small, medium or large. */
  function PageSize(c: int): (n: int)
    ensures n == 0x1_0000 || n == 0x40_0000 || n == 0x400_0000
  { if c < 73 then 0x1_0000 else if c < 97 then 0x40_0000 else 0x400_0000 }

  function BlockCount(c: int): int
    requires 0 <= c < CLASSES
  { if BlockSize(c) > 0 then (PageSize(c) - PAGE_HEADER) / BlockSize(c) else 0 }

  /** `page_block`. */
  function BlockStart(page: int, c: int, i: int): int
    requires 0 <= c < CLASSES
  { page + PAGE_HEADER + BlockSize(c) * i }

  /** `page_block_realign`: back to the start of the block; offsets are 32 bits wide. */
  function Realign(page: int, c: int, ptr: int): int
    requires 0 <= c < CLASSES && BlockSize(c) > 0
  { ptr - (ptr - (page + PAGE_HEADER)) % 0x1_0000_0000 % BlockSize(c) }

  /** `x & m` and `x & ~m`. */
  function And(x: nat, m: nat): (r: nat)
    ensures r <= x && r <= m
  { if x == 0 || m == 0 then 0 else 2 * And(x / 2, m / 2) + (if x % 2 == 1 && m % 2 == 1 then 1 else 0) }

  function AndNot(x: nat, m: nat): (r: nat)
    ensures r + And(x, m) == x
  { if x == 0 then 0 else 2 * AndNot(x / 2, m / 2) + (if x % 2 == 1 && m % 2 == 0 then 1 else 0) }

  /** The pointer `heap_allocate_block_aligned` returns for a block. */
  function AlignUp(block: nat, alignment: nat): nat
    requires alignment > 0
  { if And(block, alignment - 1) != 0 then AndNot(block, alignment - 1) + alignment else block }

  /** Masking with one less than a power of two is taking the remainder. */
  lemma {:induction false} MaskIsRemainder(x: nat, k: nat)
    ensures And(x, Pow2(k) - 1) == x % Pow2(k)
  {
    hide And; hide Pow2;
    PowStep(k);
    if k == 0 {
      NoMask(x);
    } else {
      MaskIsRemainder(x / 2, k - 1);
      AndOdd(x, Pow2(k - 1) - 1);
      HalfRemainder(x, Pow2(k - 1));
    }
  }

  lemma PowStep(k: nat)
    ensures Pow2(k) == if k == 0 then 1 else 2 * Pow2(k - 1)
  {}

  lemma NoMask(x: nat)
    ensures And(x, 0) == x % 1
  {}

  lemma AndOdd(x: nat, m: nat)
    ensures And(x, 2 * m + 1) == 2 * And(x / 2, m) + x % 2
  {
    assert (2 * m + 1) / 2 == m && (2 * m + 1) % 2 == 1;
  }

  lemma HalfRemainder(x: nat, h: nat)
    requires h > 0
    ensures x % (2 * h) == 2 * (x / 2 % h) + x % 2
  {
    var y := x / 2;
    DivMod(y, h);
    Reassociate(h, y / h);
    ModUnique(x, 2 * h, y / h, 2 * (y % h) + x % 2);
  }

  lemma Reassociate(h: int, q: int)
    ensures 2 * h * q == 2 * (h * q)
  {}

  lemma ClassSizes(c: int)
    requires 0 <= c < CLASSES
    ensures 16 <= BlockSize(c) <= 0x80_0000 && BlockSize(c) % 16 == 0
  {
    hide Units;
    TableMono(0, c);
    TableMono(c, 116);
    LastUnits();
  }

  lemma LastUnits()
    ensures Units(0) == 1 && Units(116) == 524288
  {}

  /** Every block of a page lies between the header and the end of the page, on a 16-byte boundary, and
      masking any address in it gives the page. */
  lemma BlockInPage(page: int, c: int, i: int, ptr: int)
    requires 0 <= c < CLASSES && 0 <= i < BlockCount(c) && page % PageSize(c) == 0
    requires BlockStart(page, c, i) <= ptr < BlockStart(page, c, i) + BlockSize(c)
    ensures page + PAGE_HEADER <= BlockStart(page, c, i) && BlockStart(page, c, i) + BlockSize(c) <= page + PageSize(c)
    ensures BlockStart(page, c, i) % 16 == 0
    ensures ptr - ptr % PageSize(c) == page
  {
    hide Units; hide BlockSize;
    ClassSizes(c);
    var bs, n, ps := BlockSize(c), BlockCount(c), PageSize(c);
    DivMod(ps - PAGE_HEADER, bs);
    MulMono(bs, i + 1, n);
    MulMono(bs, 0, i);
    assert bs * (i + 1) == bs * i + bs;
    Multiple16(page, bs, i, ps);
    DivMod(page, ps);
    ModUnique(ptr, ps, page / ps, ptr - page);
  }

  lemma Multiple16(page: int, bs: int, i: int, ps: int)
    requires bs % 16 == 0 && (ps == 0x1_0000 || ps == 0x40_0000 || ps == 0x400_0000) && page % ps == 0
    ensures (page + PAGE_HEADER + bs * i) % 16 == 0
  {
    DivMod(page, ps);
    var m, q, k := ps / 16, page / ps, bs / 16;
    Regroup(m, q);
    Regroup(k, i);
    ModUnique(page + PAGE_HEADER + bs * i, 16, m * q + 8 + k * i, 0);
  }

  lemma Regroup(a: int, b: int)
    ensures 16 * a * b == 16 * (a * b)
  {}

  /** An over-aligned allocation: the pointer is aligned, at least `size` bytes follow it inside the
      block, and freeing finds the start of the block again. */
  lemma AlignedInBlock(page: int, i: int, alignment: int, size: int)
    requires 16 < alignment < MAX_ALIGNMENT && IsPow2(alignment) && 0 <= size && size + alignment <= 0x80_0000
    requires 0 <= page
    requires var c := SizeClass(size + alignment);
             c < CLASSES ==> 0 <= i < BlockCount(c) && page % PageSize(c) == 0
    ensures var c := SizeClass(size + alignment);
            && 1 <= c < CLASSES && BlockSize(c) > 0
            && var block := BlockStart(page, c, i);
               0 <= block && var ptr := AlignUp(block, alignment);
               && ptr % alignment == 0 && block <= ptr && ptr + size <= block + BlockSize(c)
               && Realign(page, c, ptr) == block && ptr - ptr % PageSize(c) == page
  {
    hide Units; hide BlockSize; hide SizeClass; hide BlockCount; hide And; hide AndNot; hide AlignUp;
    SmallestFit(size + alignment);
    var c := SizeClass(size + alignment);
    ClassSizes(c);
    var bs := BlockSize(c);
    var block := BlockStart(page, c, i);
    MulMono(bs, 0, i);
    var ptr := AlignUp(block, alignment);
    AlignUpMoves(block, alignment);
    var k: nat :| alignment == Pow2(k);
    AlignUpMeets(block, k);
    BlockInPage(page, c, i, ptr);
    var off := ptr - (page + PAGE_HEADER);
    assert off == bs * i + (ptr - block);
    assert off % 0x1_0000_0000 == off;
    ModUnique(off, bs, i, ptr - block);
  }

  /** Whatever the alignment, the pointer moves up by less than it. */
  lemma AlignUpMoves(block: nat, alignment: nat)
    requires alignment > 0
    ensures block <= AlignUp(block, alignment) < block + alignment
  {}

  /** A power of two is met. */
  lemma AlignUpMeets(block: nat, k: nat)
    ensures AlignUp(block, Pow2(k)) % Pow2(k) == 0
  {
    hide And; hide AndNot; hide Pow2;
    MaskIsRemainder(block, k);
    NextMultiple(block, Pow2(k));
  }

  lemma NextMultiple(x: int, a: int)
    requires a > 0
    ensures (x - x % a) % a == 0 && (x - x % a + a) % a == 0
  {
    DivMod(x, a);
    var q := x / a;
    assert a * (q + 1) == a * q + a;
    ModUnique(a * q, a, q, 0);
    ModUnique(a * (q + 1), a, q + 1, 0);
  }

  ghost predicate IsPow2(a: nat) { exists k: nat :: a == Pow2(k) }

  /** Only powers of two divide a power of two. */
  lemma {:induction false} DividesPow2(a: nat, q: nat, k: nat)
    requires a * q == Pow2(k)
    ensures IsPow2(a)
    decreases k, a
  {
    if a == 1 {
      assert a == Pow2(0);
    } else if a % 2 == 0 {
      HalfPow2(a, q, k);
      DividesPow2(a / 2, q, k - 1);
      var j: nat :| a / 2 == Pow2(j);
      assert a == Pow2(j + 1);
    } else {
      OddPow2(a, q, k);
      DividesPow2(a, q / 2, k - 1);
    }
  }

  lemma HalfPow2(a: nat, q: nat, k: nat)
    requires a * q == Pow2(k) && a % 2 == 0
    ensures k > 0 && a / 2 * q == Pow2(k - 1)
  {
    assert a * q == 2 * (a / 2 * q);
  }

  lemma OddPow2(a: nat, q: nat, k: nat)
    requires a * q == Pow2(k) && a % 2 == 1 && a > 1
    ensures k > 0 && a * (q / 2) == Pow2(k - 1)
  {
    if k == 0 {
      assert q >= 1;
      MulMono(a, 1, q);
    }
    var h := a / 2;
    assert a * q == 2 * (h * q) + q;
    assert q % 2 == 0;
    assert a * q == 2 * (a * (q / 2));
  }

  /** Whole pages below the mask do not matter. */
  lemma {:induction false} AndHigh(q: nat, y: nat, m: nat, k: nat)
    requires m < Pow2(k)
    ensures And(Pow2(k) * q + y, m) == And(y, m)
    decreases k
  {
    hide And; hide Pow2;
    PowStep(k);
    if k == 0 || m == 0 {
      MaskZero(Pow2(k) * q + y);
      MaskZero(y);
    } else {
      AndHigh(q, y / 2, m / 2, k - 1);
      HalfHigh(q, y, Pow2(k - 1));
      AndStep(Pow2(k) * q + y, m);
      AndStep(y, m);
    }
  }

  lemma HalfHigh(q: nat, y: nat, h: nat)
    ensures (2 * h * q + y) / 2 == h * q + y / 2 && (2 * h * q + y) % 2 == y % 2
  {
    Reassociate(h, q);
  }

  lemma AndStep(x: nat, m: nat)
    ensures And(x, m) == 2 * And(x / 2, m / 2) + if x % 2 == 1 && m % 2 == 1 then 1 else 0
  {}

  lemma MaskZero(x: nat)
    ensures And(x, 0) == 0
  {}

  lemma AlignHigh(q: nat, y: nat, alignment: nat, k: nat)
    requires 0 < alignment <= Pow2(k)
    ensures AlignUp(Pow2(k) * q + y, alignment) == Pow2(k) * q + AlignUp(y, alignment)
  {
    hide And; hide AndNot; hide Pow2;
    MulMono(Pow2(k), 0, q);
    AndHigh(q, y, alignment - 1, k);
  }

  /** The pointer for block `i` of the `q`th page of class `c` is aligned. */
  predicate Meets(q: nat, c: int, i: nat, alignment: nat)
    requires 0 <= c < CLASSES && alignment > 0
  {
    BlockStart(PageSize(c) * q, c, i) >= 0 && AlignUp(BlockStart(PageSize(c) * q, c, i), alignment) % alignment == 0
  }

  /** Whatever is asked for and whichever block is given: the pointer is aligned in two pages in a row exactly
      when the alignment is a power of two, and then it is in every page. */
  lemma AlignedExactly(alignment: nat, size: nat, q: nat, i: nat)
    requires 16 < alignment < MAX_ALIGNMENT && size + alignment <= 0x80_0000
    requires var c := SizeClass(size + alignment); c < CLASSES ==> i < BlockCount(c)
    ensures var c := SizeClass(size + alignment);
            && 1 <= c < CLASSES && (Meets(q, c, i, alignment) && Meets(q + 1, c, i, alignment) <==> IsPow2(alignment))
  {
    hide And; hide AndNot; hide AlignUp; hide Units; hide BlockSize; hide SizeClass; hide BlockCount; hide Pow2;
    hide IsPow2;
    SmallestFit(size + alignment);
    var c := SizeClass(size + alignment);
    ClassSizes(c);
    var y: nat := PAGE_HEADER + BlockSize(c) * i;
    MulMono(BlockSize(c), 0, i);
    FitsPage(c, i);
    var k := PageBits(c);
    PageIsPow(c);
    AlignHigh(q, y, alignment, k);
    AlignHigh(q + 1, y, alignment, k);
    var v := AlignUp(y, alignment);
    assert BlockStart(PageSize(c) * q, c, i) == Pow2(k) * q + y;
    assert BlockStart(PageSize(c) * (q + 1), c, i) == Pow2(k) * (q + 1) + y;
    if IsPow2(alignment) {
      var j := PowerOf(alignment);
      AlignUpMeets(Pow2(k) * q + y, j);
      AlignUpMeets(Pow2(k) * (q + 1) + y, j);
    } else if Meets(q, c, i, alignment) && Meets(q + 1, c, i, alignment) {
      BothDivide(Pow2(k), q, v, alignment);
      DivMod(Pow2(k), alignment);
      DividesPow2(alignment, Pow2(k) / alignment, k);
    }
  }

  lemma PowerOf(n: nat) returns (j: nat)
    requires IsPow2(n)
    ensures n == Pow2(j)
  {
    j :| n == Pow2(j);
  }

  lemma BothDivide(ps: nat, q: nat, v: nat, a: nat)
    requires a > 0 && (ps * q + v) % a == 0 && (ps * (q + 1) + v) % a == 0
    ensures ps % a == 0
  {
    var x, y := ps * q + v, ps * (q + 1) + v;
    assert y - x == ps;
    DivMod(x, a);
    DivMod(y, a);
    MulSub(a, y / a, x / a);
    ModUnique(ps, a, y / a - x / a, 0);
  }

  lemma FitsPage(c: int, i: nat)
    requires 0 <= c < CLASSES && i < BlockCount(c)
    ensures BlockSize(c) <= PageSize(c)
  {
    hide Units; hide BlockSize;
    ClassSizes(c);
    DivMod(PageSize(c) - PAGE_HEADER, BlockSize(c));
    MulMono(BlockSize(c), 1, BlockCount(c));
  }

  function PageBits(c: int): nat { if c < 73 then 16 else if c < 97 then 22 else 26 }

  lemma PageIsPow(c: int)
    ensures PageSize(c) == Pow2(PageBits(c))
  {
    Pow2Values();
    Pow2Add(16, 6);
    Pow2Add(16, 10);
  }

  /** The first block of a page at 0x20000, to be aligned to 48: it is left where it is, which is not a
      multiple of 48. */
  lemma Misaligned48()
    ensures AlignUp(0x2_0080, 48) == 0x2_0080 && 0x2_0080 % 48 != 0
  {
    assert And(0x20, 0) == 0;
    assert And(0x40, 0) == 0 && And(0x80, 0) == 0;
    assert And(0x1_004, 1) == 2 * And(0x802, 0) + 0;
    assert And(0x2_008, 2) == 2 * And(0x1_004, 1);
    assert And(0x4_010, 5) == 2 * And(0x2_008, 2);
    assert And(0x8_020, 11) == 2 * And(0x4_010, 5);
    assert And(0x1_0040, 23) == 2 * And(0x8_020, 11);
    assert And(0x2_0080, 47) == 2 * And(0x1_0040, 23);
  }

  /** The sum of size and alignment wraps at 64 bits: for sizes the table covers after wrapping, the
      block holds the request if and only if the sum did not wrap. */
  lemma WrapExactly(page: int, i: int, alignment: int, size: int)
    requires 16 < alignment < MAX_ALIGNMENT && 0 <= size < U64 && 0 <= page && 0 <= i
    requires SizeClass((size + alignment) % U64) < CLASSES
    ensures var c := SizeClass((size + alignment) % U64);
            && 0 <= c && 0 <= BlockStart(page, c, i)
            && (AlignUp(BlockStart(page, c, i), alignment) + size <= BlockStart(page, c, i) + BlockSize(c) <==>
                  size + alignment < U64)
  {
    hide Units; hide BlockSize; hide SizeClass; hide And; hide AndNot; hide AlignUp;
    var sum := (size + alignment) % U64;
    SmallestFit(sum);
    var c := SizeClass(sum);
    ClassSizes(c);
    MulMono(BlockSize(c), 0, i);
    AlignUpMoves(BlockStart(page, c, i), alignment);
    if size + alignment < U64 { assert sum == size + alignment; } else { assert sum == size + alignment - U64; }
  }

  /** It happens: the largest size, aligned to 32, gets a block of 32 bytes. */
  lemma WrapExample(page: int, i: int)
    requires 0 <= page && 0 <= i
    ensures var c := SizeClass((U64 - 1 + 32) % U64);
            && 0 <= c < CLASSES && BlockSize(c) == 32 && 0 <= BlockStart(page, c, i)
            && AlignUp(BlockStart(page, c, i), 32) + (U64 - 1) > BlockStart(page, c, i) + BlockSize(c)
  {
    hide And; hide AndNot; hide AlignUp;
    assert (U64 - 1 + 32) % U64 == 31 && SizeClass(31) == 2 && Units(2) == 2;
    WrapExactly(page, i, 32, U64 - 1);
  }

  /** Every page holds at least seven blocks, and block indices and counts fit in 32 bits. */
  lemma ManyBlocks(c: int)
    requires 0 <= c < CLASSES
    ensures 7 <= BlockCount(c) < 0x1_0000_0000
  {
    hide Units;
    ClassSizes(c);
    Limits();
    if c < 73 { TableMono(c, 72); } else if c < 97 { TableMono(c, 96); }
    var bs, room := BlockSize(c), PageSize(c) - PAGE_HEADER;
    DivMod(room, bs);
    DivAtMost(room, bs);
    if room / bs < 7 { MulMono(bs, room / bs, 6); }
  }

  lemma Limits()
    ensures Units(72) == 256 && Units(96) == 16384
  {}

  /** `get_size_class_tiny` picks blocks of the same size. */
  lemma TinyAgrees(size: int)
    requires 0 <= size <= 1024
    ensures 0 <= (size + 15) / 16 <= 64 && BlockSize((size + 15) / 16) == BlockSize(SizeClass(size))
  {}

  // ----- the packed head of a shared list -----

  /** `page_block_to_thread_free_list` and back. */
  function Pack(index: int, count: int): int { count * 0x1_0000_0000 + index }

  lemma PackRoundTrip(index: int, count: int)
    requires 0 <= index < 0x1_0000_0000 && 0 <= count < 0x1_0000_0000
    ensures 0 <= Pack(index, count) < U64
    ensures Pack(index, count) % 0x1_0000_0000 == index && Pack(index, count) / 0x1_0000_0000 == count
    ensures count > 0 ==> Pack(index, count) != 0
  {
    ModUnique(Pack(index, count), 0x1_0000_0000, count, index);
  }
}
