/** Integer multiplication, division and powers of two: the few facts the other
    modules need about non-linear arithmetic. */
module Arith {

  lemma MulAtLeast(n: int, d: int)
    requires n > 0 && d >= 1
    ensures n * d >= n
  {}

  lemma MulMono(p: int, a: int, b: int)
    requires p >= 0 && a <= b
    ensures p * a <= p * b
  {}

  lemma MulSub(n: int, a: int, b: int)
    ensures n * (a - b) == n * a - n * b
  {}

  lemma DivMod(v: int, n: int)
    requires n > 0
    ensures v == n * (v / n) + v % n && 0 <= v % n < n
  {}

  lemma Unique(n: int, k: int, r: int, k': int, r': int)
    requires n > 0 && n * k + r == n * k' + r' && 0 <= r < n && 0 <= r' < n
    ensures k == k' && r == r'
  {
    MulSub(n, k, k');
    MulSub(n, k', k);
    if k > k' { MulAtLeast(n, k - k'); }
    if k < k' { MulAtLeast(n, k' - k); }
  }

  /** Euclidean division is the only one with a remainder in range. */
  lemma ModUnique(v: int, n: int, k: int, r: int)
    requires n > 0 && v == n * k + r && 0 <= r < n
    ensures v % n == r && v / n == k
  {
    DivMod(v, n);
    Unique(n, k, r, v / n, v % n);
  }

  lemma DivAtMost(x: int, p: int)
    requires x >= 0 && p > 0
    ensures 0 <= x / p <= x
  {
    DivMod(x, p);
    var q := x / p;
    if q < 0 { MulAtLeast(p, -q); }
    if q > 0 { MulAtLeast(q, p); }
  }

  lemma DivMono(x: int, y: int, p: int)
    requires p > 0 && x <= y
    ensures x / p <= y / p
  {
    DivMod(x, p);
    DivMod(y, p);
    if x / p > y / p {
      MulMono(p, y / p + 1, x / p);
    }
  }

  /** Splitting a remainder modulo a product. */
  lemma ModSplit(v: int, p: int, q: int)
    requires p > 0 && q > 0
    ensures p * q > 0 && v % (p * q) == v % p + p * ((v / p) % q)
  {
    MulAtLeast(p, q);
    var h := v / p;
    DivMod(v, p);
    DivMod(h, q);
    var r := v % p + p * (h % q);
    assert p * h == (p * q) * (h / q) + p * (h % q) by {
      assert p * (q * (h / q)) == (p * q) * (h / q);
      assert p * (q * (h / q) + h % q) == p * (q * (h / q)) + p * (h % q);
    }
    MulMono(p, 0, h % q);
    MulMono(p, h % q, q - 1);
    ModUnique(v, p * q, h / q, r);
  }

  function Pow2(k: nat): (p: int)
    ensures p > 0
  {
    if k == 0 then 1 else 2 * Pow2(k - 1)
  }

  lemma {:induction false} Pow2Add(j: nat, k: nat)
    ensures Pow2(j + k) == Pow2(j) * Pow2(k)
  {
    if j > 0 { Pow2Add(j - 1, k); }
  }

  lemma {:induction false} Pow2Mono(j: nat, k: nat)
    requires j <= k
    ensures Pow2(j) <= Pow2(k)
  {
    if j < k { Pow2Mono(j, k - 1); }
  }

  lemma Pow2Values()
    ensures Pow2(8) == 0x100 && Pow2(16) == 0x1_0000 && Pow2(32) == 0x1_0000_0000
    ensures Pow2(48) == 0x1_0000_0000_0000 && Pow2(56) == 0x100_0000_0000_0000
    ensures Pow2(64) == 0x1_0000_0000_0000_0000
  {
    assert Pow2(8) == 0x100;
    Pow2Add(8, 8);
    Pow2Add(16, 16);
    Pow2Add(16, 32);
    Pow2Add(8, 48);
    Pow2Add(32, 32);
  }
}
