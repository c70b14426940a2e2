/** The number operators of JavaScript that the address code uses (ECMA-262, sections 6.1.6 and 7.1). */
module JsNumbers {
  import opened Arithmetic

  function ToUint32(x: int): (r: int)
    ensures 0 <= r < 0x1_0000_0000
  {
    x % 0x1_0000_0000
  }

  function ToInt32(x: int): (r: int)
    ensures -0x8000_0000 <= r < 0x8000_0000
  {
    var u := ToUint32(x);
    if u < 0x8000_0000 then u else u - 0x1_0000_0000
  }

  /** `x << n`: a 32-bit operand, and a shift count taken modulo 32. */
  function ShiftLeft(x: int, n: nat): int {
    ToInt32(ToInt32(x) * Pow2(n % 32))
  }

  /** `x >>> 0`. */
  function ZeroFillShift(x: int): int {
    ToUint32(x)
  }

  /** Bitwise and of integers in two's complement of unlimited width. */
  function And(x: int, y: int): int
    decreases if x < 0 then -x else x
  {
    if x == 0 || y == 0 then 0
    else if x == -1 then y
    else if y == -1 then x
    else 2 * And(x / 2, y / 2) + (x % 2) * (y % 2)
  }

  /** `x & y` on numbers: both operands become 32-bit integers first. */
  function And32(x: int, y: int): int {
    And(ToInt32(x), ToInt32(y))
  }

  lemma AndEven(x: int, m: int)
    ensures And(x, 2 * m) == 2 * And(x / 2, m)
  {
  }

  lemma AndOdd(x: int, m: int)
    ensures And(x, 2 * m + 1) == 2 * And(x / 2, m) + x % 2
  {
    if x == 0 || x == -1 || m == -1 {
      assert x == 0 ==> x / 2 == 0;
      assert x == -1 ==> x / 2 == -1;
      AndMinusOne(x);
      AndMinusOne(x / 2);
    } else {
      assert (2 * m + 1) / 2 == m && (2 * m + 1) % 2 == 1;
      assert And(x, 2 * m + 1) == 2 * And(x / 2, m) + (x % 2) * 1;
    }
  }

  lemma AndMinusOne(x: int)
    ensures And(x, -1) == x && And(-1, x) == x && And(0, x) == 0
  {
  }

  /** Masking with `w` ones. */
  lemma {:induction false} AndOnes(x: int, w: nat)
    ensures And(x, Pow2(w) - 1) == x % Pow2(w)
    decreases w
  {
    if w > 0 {
      var q: int := Pow2(w - 1);
      assert Pow2(w) == 2 * q && Pow2(w) - 1 == 2 * (q - 1) + 1;
      hide And, Pow2;
      AndOnes(x / 2, w - 1);
      AndOdd(x, q - 1);
      RemainderDoubles(x, q);
    }
  }

  /** Masking with ones from digit `k` up to digit `w` keeps exactly those digits. */
  lemma {:induction false} AndMask(x: int, w: nat, k: nat)
    requires k <= w
    ensures And(x, Pow2(w) - Pow2(k)) == x % Pow2(w) - x % Pow2(k)
    decreases k
  {
    if k == 0 {
      AndOnes(x, w);
    } else {
      var q: int, p: int := Pow2(w - 1), Pow2(k - 1);
      assert Pow2(w) == 2 * q && Pow2(k) == 2 * p && Pow2(w) - Pow2(k) == 2 * (q - p);
      hide And, Pow2;
      AndMask(x / 2, w - 1, k - 1);
      AndEven(x, q - p);
      RemainderDoubles(x, q);
      RemainderDoubles(x, p);
    }
  }

  /** Masking with a negated power of two clears exactly the low digits. */
  lemma {:induction false} AndNegatedPower(x: int, k: nat)
    ensures And(x, 0 - Pow2(k)) == x - x % Pow2(k)
    decreases k
  {
    hide And;
    if k == 0 {
      AndMinusOne(x);
    } else {
      AndNegatedPower(x / 2, k - 1);
      AndEven(x, 0 - Pow2(k - 1));
      ClearedDoubles(x, Pow2(k - 1));
    }
  }
}
