/** The string operations of JavaScript that the address code uses (ECMA-262, sections 19.2.5, 22.1.3.23 and
    22.1.3.28). */
module JsStrings {
  import opened Wrappers

  /** Where `sep` first occurs in `s`, or the length of `s` when it does not. */
  function IndexOf(s: string, sep: string): (i: nat)
    requires sep != ""
    ensures i <= |s| && (i < |s| ==> i + |sep| <= |s|)
  {
    if |s| < |sep| then |s| else if sep <= s then 0 else 1 + IndexOf(s[1..], sep)
  }

  function Split(s: string, sep: string): (r: seq<string>)
    requires sep != ""
    ensures r != []
    decreases |s|
  {
    var i := IndexOf(s, sep);
    if i == |s| then [s] else [s[..i]] + Split(s[i + |sep|..], sep)
  }

  function Join(parts: seq<string>, sep: char): string {
    if parts == [] then "" else if |parts| == 1 then parts[0] else parts[0] + [sep] + Join(parts[1..], sep)
  }

  function NonEmpty(parts: seq<string>): seq<string> {
    if parts == [] then [] else (if parts[0] == "" then [] else [parts[0]]) + NonEmpty(parts[1..])
  }

  function LowerChar(c: char): char {
    if 'A' <= c <= 'Z' then c + 32 as char else c
  }

  function Lower(s: string): (r: string)
    ensures |r| == |s| && forall i :: 0 <= i < |s| ==> r[i] == LowerChar(s[i])
  {
    seq(|s|, i requires 0 <= i < |s| => LowerChar(s[i]))
  }

  function LowerAll(parts: seq<string>): (r: seq<string>)
    ensures |r| == |parts| && forall i :: 0 <= i < |parts| ==> r[i] == Lower(parts[i])
  {
    seq(|parts|, i requires 0 <= i < |parts| => Lower(parts[i]))
  }

  // ----- parseInt -----

  function DigitValue(c: char): int {
    if '0' <= c <= '9' then c as int - '0' as int
    else if 'a' <= c <= 'z' then c as int - 'a' as int + 10
    else if 'A' <= c <= 'Z' then c as int - 'A' as int + 10
    else 36
  }

  predicate AllDigits(s: string, radix: nat) {
    forall c :: c in s ==> DigitValue(c) < radix
  }

  function Digits(s: string, radix: nat): nat
    requires AllDigits(s, radix)
  {
    if s == "" then 0 else Digits(s[..|s| - 1], radix) * radix + DigitValue(s[|s| - 1])
  }

  function DigitRun(s: string, radix: nat): (n: nat)
    ensures n <= |s| && AllDigits(s[..n], radix)
  {
    if s == "" || DigitValue(s[0]) >= radix then 0
    else
      var n := DigitRun(s[1..], radix);
      assert s[..1 + n] == [s[0]] + s[1..][..n];
      1 + n
  }

  /** White space and line ends, by code unit. */
  predicate IsSpace(code: int) {
    0x09 <= code <= 0x0D || code == 0x20 || code == 0xA0 || code == 0x1680 || 0x2000 <= code <= 0x200A
    || code == 0x2028 || code == 0x2029 || code == 0x202F || code == 0x205F || code == 0x3000 || code == 0xFEFF
  }

  predicate IsSpaceChar(c: char) {
    IsSpace(c as int)
  }

  function TrimStart(s: string): string {
    if s != "" && IsSpaceChar(s[0]) then TrimStart(s[1..]) else s
  }

  /** `Number.parseInt(s, radix)`: blanks, a sign, a hexadecimal prefix, then the longest run of digits. */
  function ParseInt(s: string, radix: nat): Option<int> {
    var t := TrimStart(s);
    var signed := t != "" && (t[0] == '-' || t[0] == '+');
    var u := if signed then t[1..] else t;
    var v := if radix == 16 && |u| >= 2 && u[0] == '0' && LowerChar(u[1]) == 'x' then u[2..] else u;
    var n := DigitRun(v, radix);
    if n == 0 then None else Some(if signed && t[0] == '-' then 0 - Digits(v[..n], radix) else Digits(v[..n], radix))
  }

  // ----- What these operations do to well-formed text -----

  lemma {:induction false} IndexOfChar(a: string, c: char, rest: string)
    requires c !in a
    ensures IndexOf(a + [c] + rest, [c]) == |a|
  {
    var s := a + [c] + rest;
    if a == "" {
      assert s[0] == c;
    } else {
      assert s[1..] == a[1..] + [c] + rest;
      assert s[0] == a[0] && a[0] in a;
      IndexOfChar(a[1..], c, rest);
    }
  }

  lemma {:induction false} IndexOfAbsent(a: string, sep: string)
    requires sep != "" && forall i :: 0 <= i < |a| ==> !(sep <= a[i..])
    ensures IndexOf(a, sep) == |a|
  {
    if |a| >= |sep| {
      assert a[0..] == a;
      forall i | 0 <= i < |a[1..]|
        ensures !(sep <= a[1..][i..])
      {
        assert a[1..][i..] == a[i + 1..];
      }
      IndexOfAbsent(a[1..], sep);
    }
  }

  /** Splitting undoes joining when no part holds the separator. */
  lemma {:induction false} SplitUndoesJoin(parts: seq<string>, sep: char)
    requires parts != [] && forall p :: p in parts ==> sep !in p
    ensures Split(Join(parts, sep), [sep]) == parts
  {
    var s, p := Join(parts, sep), parts[0];
    assert p in parts;
    if |parts| == 1 {
      assert forall i :: 0 <= i < |s| ==> s[i..][0] == s[i];
      IndexOfAbsent(s, [sep]);
    } else {
      IndexOfChar(p, sep, Join(parts[1..], sep));
      assert s[..|p|] == p && s[|p| + 1..] == Join(parts[1..], sep);
      SplitUndoesJoin(parts[1..], sep);
    }
  }

  /** No two colons meet in `s`, and none stands at its ends. */
  predicate Tidy(s: string) {
    && (forall i :: 0 <= i < |s| - 1 ==> s[i] != ':' || s[i + 1] != ':')
    && (s != "" ==> s[0] != ':' && s[|s| - 1] != ':')
  }

  lemma {:induction false} JoinIsTidy(parts: seq<string>)
    requires forall p :: p in parts ==> p != "" && ':' !in p
    ensures Tidy(Join(parts, ':')) && (parts != [] ==> Join(parts, ':') != "")
  {
    if parts != [] {
      var p := parts[0];
      assert p in parts && p[0] in p && p[|p| - 1] in p;
      if |parts| > 1 {
        var t := Join(parts[1..], ':');
        assert forall q :: q in parts[1..] ==> q in parts;
        JoinIsTidy(parts[1..]);
        var s := Join(parts, ':');
        assert s == p + [':'] + t;
        forall i | 0 <= i < |s| - 1
          ensures s[i] != ':' || s[i + 1] != ':'
        {
          if i < |p| { assert s[i] in p; } else if i > |p| { assert s[i] == t[i - |p| - 1] && s[i + 1] == t[i - |p|]; }
        }
      } else {
        assert forall i :: 0 <= i < |p| ==> p[i] in p;
      }
    }
  }

  lemma GapAtStart(s: string)
    ensures "::" <= s <==> |s| >= 2 && s[0] == ':' && s[1] == ':'
  {
    if "::" <= s {
      assert s[..2] == "::";
      assert s[0] == s[..2][0] && s[1] == s[..2][1];
    }
  }

  lemma {:induction false} IndexOfGap(h: string, t: string)
    requires forall i :: 0 <= i < |h| - 1 ==> h[i] != ':' || h[i + 1] != ':'
    requires h != "" ==> h[|h| - 1] != ':'
    ensures IndexOf(h + "::" + t, "::") == |h|
  {
    var s := h + "::" + t;
    if h == "" {
      assert s[0] == ':' && s[1] == ':';
    } else {
      assert s[1..] == h[1..] + "::" + t;
      assert s[0] == h[0] && (|h| > 1 ==> s[1] == h[1]);
      GapAtStart(s);
      IndexOfGap(h[1..], t);
    }
  }

  lemma TidyHasNoGap(s: string)
    requires Tidy(s)
    ensures Split(s, "::") == [s]
  {
    forall i | 0 <= i < |s|
      ensures !("::" <= s[i..])
    {
      GapAtStart(s[i..]);
    }
    IndexOfAbsent(s, "::");
  }

  lemma SplitAtGap(h: string, t: string)
    requires Tidy(h) && Tidy(t)
    ensures Split(h + "::" + t, "::") == [h, t]
  {
    var s := h + "::" + t;
    IndexOfGap(h, t);
    assert s[..|h|] == h && s[|h| + 2..] == t;
    TidyHasNoGap(t);
  }

  lemma {:induction false} NonEmptyKeeps(parts: seq<string>)
    requires "" !in parts
    ensures NonEmpty(parts) == parts
  {
    if parts != [] {
      assert parts[0] in parts;
      NonEmptyKeeps(parts[1..]);
    }
  }

  lemma {:induction false} LowerJoins(parts: seq<string>, sep: char)
    requires LowerChar(sep) == sep
    ensures Lower(Join(parts, sep)) == Join(LowerAll(parts), sep)
  {
    if |parts| == 1 {
      assert Join(LowerAll(parts), sep) == Lower(parts[0]);
    } else if parts != [] {
      LowerJoins(parts[1..], sep);
      assert LowerAll(parts)[1..] == LowerAll(parts[1..]);
      assert Lower(parts[0] + [sep] + Join(parts[1..], sep)) == Lower(parts[0]) + [sep] + Lower(Join(parts[1..], sep));
    }
  }

  lemma {:induction false} LowerKeepsDigits(s: string, radix: nat)
    requires AllDigits(s, radix)
    ensures AllDigits(Lower(s), radix) && Digits(Lower(s), radix) == Digits(s, radix)
  {
    forall c | c in Lower(s)
      ensures DigitValue(c) < radix
    {
      var i :| 0 <= i < |s| && Lower(s)[i] == c;
      assert s[i] in s;
    }
    if s != "" {
      LowerKeepsDigits(s[..|s| - 1], radix);
      assert Lower(s)[..|s| - 1] == Lower(s[..|s| - 1]);
    }
  }

  lemma {:induction false} DigitRunWhole(s: string, radix: nat)
    requires AllDigits(s, radix)
    ensures DigitRun(s, radix) == |s|
  {
    if s != "" {
      assert s[0] in s;
      DigitRunWhole(s[1..], radix);
    }
  }

  lemma DigitIsPlain(c: char)
    requires DigitValue(c) < 16
    ensures !IsSpaceChar(c) && c != '-' && c != '+' && LowerChar(c) != 'x'
  {
  }

  /** On digits alone, `parseInt` is positional notation. */
  lemma ParseIntDigits(s: string, radix: nat)
    requires s != "" && radix <= 16 && AllDigits(s, radix)
    ensures ParseInt(s, radix) == Some(Digits(s, radix))
  {
    assert s[0] in s;
    assert |s| > 1 ==> s[1] in s;
    DigitIsPlain(s[0]);
    assert TrimStart(s) == s;
    DigitRunWhole(s, radix);
    assert s[..|s|] == s;
  }
}
