/** Integer division, monotone products and powers of two. */
module Arithmetic {

  /** Quotient and remainder are the only such pair. */
  lemma EuclidUnique(x: int, m: int, q: int, r: int)
    requires m > 0 && x == m * q + r && 0 <= r < m
    ensures x / m == q && x % m == r
  {
    var d := x / m - q;
    assert m * d == r - x % m;
    assert d >= 1 ==> m * d >= m;
    assert d <= -1 ==> m * d <= -m;
  }

  lemma ProductMonotone(m: nat, x: int, y: int)
    requires x <= y
    ensures m * x <= m * y
  {
    assert m * (y - x) >= 0;
  }

  /** A remainder by twice `m`, one binary digit at a time. */
  lemma RemainderDoubles(x: int, m: nat)
    requires m > 0
    ensures x % (2 * m) == 2 * ((x / 2) % m) + x % 2
  {
    var q, r := (x / 2) / m, (x / 2) % m;
    assert x == 2 * (m * q + r) + x % 2 == (2 * m) * q + (2 * r + x % 2);
    EuclidUnique(x, 2 * m, q, 2 * r + x % 2);
  }

  lemma ClearedDoubles(x: int, m: nat)
    requires m > 0
    ensures x - x % (2 * m) == 2 * (x / 2 - (x / 2) % m)
  {
    RemainderDoubles(x, m);
  }

  function Pow2(n: nat): (r: nat)
    ensures r > 0
  {
    if n == 0 then 1 else 2 * Pow2(n - 1)
  }

  lemma Pow2Splits(m: nat, n: nat)
    ensures Pow2(m + n) == Pow2(m) * Pow2(n)
  {
    if m > 0 { Pow2Splits(m - 1, n); }
  }

  lemma PowersGrow(k: nat, w: nat)
    requires k <= w
    ensures Pow2(k) <= Pow2(w)
  {
    if k < w { PowersGrow(k, w - 1); }
  }

  lemma PowersOfTwo()
    ensures Pow2(8) == 0x100 && Pow2(16) == 0x1_0000 && Pow2(24) == 0x100_0000 && Pow2(32) == 0x1_0000_0000
  {
    assert Pow2(4) == 16;
    Pow2Splits(4, 4);
    Pow2Splits(8, 8);
    Pow2Splits(8, 16);
    Pow2Splits(16, 16);
  }
}
