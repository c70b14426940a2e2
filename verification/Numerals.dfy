/** Positional notation, most significant digit first. */
module Numerals {
  import opened Arithmetic
  import opened JsStrings
  import opened Wrappers

  function Weight(base: nat, n: nat): nat {
    if n == 0 then 1 else base * Weight(base, n - 1)
  }

  function Positional(ds: seq<nat>, base: nat): nat {
    if ds == [] then 0 else ds[0] * Weight(base, |ds| - 1) + Positional(ds[1..], base)
  }

  ghost predicate Below(ds: seq<nat>, base: nat) {
    forall i :: 0 <= i < |ds| ==> ds[i] < base
  }

  lemma DigitBound(d: nat, base: nat, w: nat, r: nat)
    requires d < base && r < w
    ensures d * w + r < base * w
  {
    ProductMonotone(w, d + 1, base);
    assert (d + 1) * w == d * w + w;
  }

  lemma {:induction false} PositionalBound(ds: seq<nat>, base: nat)
    requires Below(ds, base)
    ensures Positional(ds, base) < Weight(base, |ds|)
  {
    if ds != [] {
      PositionalBound(ds[1..], base);
      DigitBound(ds[0], base, Weight(base, |ds| - 1), Positional(ds[1..], base));
    }
  }

  /** The first digit and the rest are a quotient and a remainder. */
  lemma PositionalHead(ds: seq<nat>, base: nat)
    requires ds != [] && Below(ds, base)
    ensures var w := Weight(base, |ds| - 1);
            w > 0 && Positional(ds, base) / w == ds[0] && Positional(ds, base) % w == Positional(ds[1..], base)
  {
    PositionalBound(ds[1..], base);
    EuclidUnique(Positional(ds, base), Weight(base, |ds| - 1), ds[0], Positional(ds[1..], base));
  }

  lemma {:induction false} PositionalInjective(a: seq<nat>, b: seq<nat>, base: nat)
    requires |a| == |b| && Below(a, base) && Below(b, base) && Positional(a, base) == Positional(b, base)
    ensures a == b
  {
    hide Positional, Weight;
    if a != [] {
      PositionalHead(a, base);
      PositionalHead(b, base);
      PositionalInjective(a[1..], b[1..], base);
    }
  }

  lemma {:induction false} WeightSplits(base: nat, m: nat, n: nat)
    ensures Weight(base, m + n) == Weight(base, m) * Weight(base, n)
  {
    if m > 0 {
      WeightSplits(base, m - 1, n);
      Associates(base, Weight(base, m - 1), Weight(base, n));
    }
  }

  lemma Associates(a: int, b: int, c: int)
    ensures a * (b * c) == (a * b) * c
  {
  }

  lemma SplitAlgebra(d: int, a: int, b: int, p: int)
    ensures d * (a * b) + p * b == (d * a + p) * b
  {
  }

  /** The value in terms of the values of the leading digits and of the others. */
  lemma {:induction false} PositionalSplits(ds: seq<nat>, m: nat, base: nat)
    requires m <= |ds|
    ensures Positional(ds, base) == Positional(ds[..m], base) * Weight(base, |ds| - m) + Positional(ds[m..], base)
    decreases m
  {
    if m > 0 {
      var front := ds[..m][1..];
      PositionalSplits(ds[1..], m - 1, base);
      assert ds[1..][..m - 1] == front && ds[1..][m - 1..] == ds[m..];
      WeightSplits(base, m - 1, |ds| - m);
      SplitAlgebra(ds[0], Weight(base, m - 1), Weight(base, |ds| - m), Positional(front, base));
    } else {
      assert ds[m..] == ds && ds[..m] == [];
    }
  }

  /** The leading digits are the quotient by the weight of the others. */
  lemma LeadingDigits(ds: seq<nat>, m: nat, base: nat)
    requires m <= |ds| && Below(ds, base)
    ensures Weight(base, |ds| - m) > 0 && Positional(ds, base) / Weight(base, |ds| - m) == Positional(ds[..m], base)
  {
    hide Positional, Weight;
    PositionalSplits(ds, m, base);
    PositionalBound(ds[m..], base);
    EuclidUnique(Positional(ds, base), Weight(base, |ds| - m), Positional(ds[..m], base), Positional(ds[m..], base));
  }

  /** A text is a numeral for `n`. */
  ghost predicate Spells(part: string, n: nat, radix: nat) {
    part != "" && AllDigits(part, radix) && Digits(part, radix) == n
  }

  lemma SpelledParses(part: string, n: nat, radix: nat)
    requires Spells(part, n, radix) && radix <= 16
    ensures ParseInt(part, radix) == Some(n)
  {
    ParseIntDigits(part, radix);
  }

  lemma SpelledLower(part: string, n: nat, radix: nat)
    requires Spells(part, n, radix)
    ensures Spells(Lower(part), n, radix)
  {
    LowerKeepsDigits(part, radix);
  }

  lemma SpelledPlain(part: string, n: nat, radix: nat, c: char)
    requires Spells(part, n, radix) && DigitValue(c) >= radix
    ensures c !in part
  {
  }

  function HexDigit(d: nat): (c: char)
    requires d < 16
    ensures DigitValue(c) == d
  {
    if d < 10 then '0' + d as char else 'a' + (d - 10) as char
  }

  /** The shortest numeral. */
  function Numeral(n: nat, radix: nat): string
    requires 2 <= radix <= 16
    decreases n
  {
    if n < radix then [HexDigit(n)] else Numeral(n / radix, radix) + [HexDigit(n % radix)]
  }

  lemma DigitsAppend(s: string, c: char, radix: nat)
    requires AllDigits(s, radix) && DigitValue(c) < radix
    ensures AllDigits(s + [c], radix) && Digits(s + [c], radix) == Digits(s, radix) * radix + DigitValue(c)
  {
    assert (s + [c])[..|s|] == s;
  }

  lemma Quotient(n: nat, radix: nat)
    requires 2 <= radix <= n
    ensures n / radix < n && (n / radix) * radix + n % radix == n
  {
  }

  lemma {:induction false} NumeralSpells(n: nat, radix: nat)
    requires 2 <= radix <= 16
    ensures Spells(Numeral(n, radix), n, radix)
    decreases n
  {
    assert AllDigits("", radix) && Digits("", radix) == 0;
    hide Digits, AllDigits, HexDigit;
    if n < radix {
      DigitsAppend("", HexDigit(n), radix);
      assert "" + [HexDigit(n)] == [HexDigit(n)];
    } else {
      var q, r := n / radix, n % radix;
      Quotient(n, radix);
      NumeralSpells(q, radix);
      DigitsAppend(Numeral(q, radix), HexDigit(r), radix);
    }
  }
}
