/** String literals of section 7 of RFC 8259 as the scanner reads them, over 16-bit code units
    (a JavaScript string is a sequence of those). */
module JsonText {
  type Unit = n: nat | n < 0x10000
  type Text = seq<Unit>

  const QUOTE: Unit := '"' as int
  const BACKSLASH: Unit := '\\' as int
  const SMALL_U: Unit := 'u' as int

  /** `part` occurs in `t` at position `i`. */
  ghost predicate At(t: Text, i: nat, part: Text) {
    i + |part| <= |t| && t[i..i + |part|] == part
  }

  lemma AtSplit(t: Text, i: nat, a: Text, b: Text)
    requires At(t, i, a + b)
    ensures At(t, i, a) && At(t, i + |a|, b)
  {
    assert t[i..i + |a|] == (a + b)[..|a|] == a;
    assert t[i + |a|..i + |a| + |b|] == (a + b)[|a|..] == b;
  }

  lemma AtIndex(t: Text, i: nat, part: Text, k: nat)
    requires At(t, i, part) && k < |part|
    ensures t[i + k] == part[k]
  {
    assert t[i..i + |part|][k] == part[k];
  }

  // ----- Hexadecimal digits -----

  predicate IsHexDigit(c: Unit) {
    0x30 <= c <= 0x39 || 0x41 <= c <= 0x46 || 0x61 <= c <= 0x66
  }

  function HexValue(c: Unit): (v: nat)
    requires IsHexDigit(c)
    ensures v < 16
  {
    if c <= 0x39 then c - 0x30 else if c <= 0x46 then c - 0x41 + 10 else c - 0x61 + 10
  }

  function HexUnit(a: Unit, b: Unit, c: Unit, d: Unit): Unit
    requires IsHexDigit(a) && IsHexDigit(b) && IsHexDigit(c) && IsHexDigit(d)
  {
    ((HexValue(a) * 16 + HexValue(b)) * 16 + HexValue(c)) * 16 + HexValue(d)
  }

  // ----- The scanner's parseString -----

  datatype StringScan = Scanned(value: Text, end: nat) | Unterminated

  predicate FourHexDigitsAt(t: Text, i: nat) {
    i + 4 <= |t| && IsHexDigit(t[i]) && IsHexDigit(t[i + 1]) && IsHexDigit(t[i + 2]) && IsHexDigit(t[i + 3])
  }

  /** What a backslash followed by `next` contributes; an unknown escape stands for itself. */
  function Unescape(next: Unit): Unit {
    if next == 0x62 then 0x08
    else if next == 0x66 then 0x0C
    else if next == 0x6E then 0x0A
    else if next == 0x72 then 0x0D
    else if next == 0x74 then 0x09
    else next
  }

  /** What stands at position `i` inside a literal: its closing quote, one code unit spelled with
      `width` units, or a backslash that nothing follows. */
  datatype Token = Close | Spelling(c: Unit, width: nat) | Dangling

  function NextToken(t: Text, i: nat): (r: Token)
    requires i < |t|
    ensures r.Spelling? ==> 0 < r.width && i + r.width <= |t|
  {
    if t[i] == QUOTE then Close
    else if t[i] != BACKSLASH then Spelling(t[i], 1)
    else if i + 1 == |t| then Dangling
    else if t[i + 1] == SMALL_U && FourHexDigitsAt(t, i + 2) then
      Spelling(HexUnit(t[i + 2], t[i + 3], t[i + 4], t[i + 5]), 6)
    else Spelling(Unescape(t[i + 1]), 2)
  }

  function ScanString(t: Text, i: nat, read: Text): (r: StringScan)
    requires i <= |t|
    ensures r.Scanned? ==> i < r.end <= |t|
    decreases |t| - i
  {
    if i == |t| then Unterminated
    else
      match NextToken(t, i)
      case Close => Scanned(read, i + 1)
      case Spelling(c, width) => ScanString(t, i + width, read + [c])
      case Dangling => Unterminated
  }

  method ParseString(text: Text, startIndex: nat) returns (r: StringScan)
    requires startIndex < |text|
    ensures r == ScanString(text, startIndex + 1, [])
  {
    var index := startIndex + 1;
    var result: Text := [];
    while index < |text|
      invariant startIndex < index <= |text|
      invariant ScanString(text, index, result) == ScanString(text, startIndex + 1, [])
    {
      var ch := text[index];
      if ch == QUOTE {
        return Scanned(result, index + 1);
      }
      if ch == BACKSLASH {
        if index + 1 >= |text| { break; }
        var next := text[index + 1];
        if next == SMALL_U && FourHexDigitsAt(text, index + 2) {
          result := result + [HexUnit(text[index + 2], text[index + 3], text[index + 4], text[index + 5])];
          index := index + 6;
          continue;
        }
        result := result + [Unescape(next)];
        index := index + 2;
        continue;
      }
      result := result + [ch];
      index := index + 1;
    }
    return Unterminated;
  }

  // ----- Legal spellings of a string -----

  /** The two-character escapes of section 7 of RFC 8259. */
  datatype Escape = Quotation | ReverseSolidus | Solidus | Backspace | FormFeed | LineFeed | CarriageReturn | Tab {
    function Letter(): Unit {
      match this
      case Quotation => 0x22 case ReverseSolidus => 0x5C case Solidus => 0x2F case Backspace => 0x62
      case FormFeed => 0x66 case LineFeed => 0x6E case CarriageReturn => 0x72 case Tab => 0x74
    }

    function Meaning(): Unit {
      match this
      case Quotation => 0x22 case ReverseSolidus => 0x5C case Solidus => 0x2F case Backspace => 0x08
      case FormFeed => 0x0C case LineFeed => 0x0A case CarriageReturn => 0x0D case Tab => 0x09
    }
  }

  type Nibble = n: nat | n < 16

  const UPPER_HEX := "0123456789ABCDEF"
  const LOWER_HEX := "0123456789abcdef"

  /** One hexadecimal digit, written in either case. */
  datatype HexDigit = HexDigit(value: Nibble, upper: bool) {
    function Spelled(): Unit {
      (if upper then UPPER_HEX[value] else LOWER_HEX[value]) as int
    }
  }

  lemma HexDigitReads(h: HexDigit)
    ensures IsHexDigit(h.Spelled()) && HexValue(h.Spelled()) == h.value
  {
  }

  /** One spelled code unit. Raw control units, which the standard forbids, are read all the same,
      so they are admitted here. */
  datatype Piece = Raw(c: Unit) | Short(escape: Escape) | Hex(h3: HexDigit, h2: HexDigit, h1: HexDigit, h0: HexDigit) {
    predicate Legal() {
      match this
      case Raw(c) => c != QUOTE && c != BACKSLASH
      case _ => true
    }

    function Spelled(): Text {
      match this
      case Raw(c) => [c]
      case Short(e) => [BACKSLASH, e.Letter()]
      case Hex(h3, h2, h1, h0) => [BACKSLASH, SMALL_U, h3.Spelled(), h2.Spelled(), h1.Spelled(), h0.Spelled()]
    }

    function Meaning(): Unit {
      match this
      case Raw(c) => c
      case Short(e) => e.Meaning()
      case Hex(h3, h2, h1, h0) => h3.value * 0x1000 + h2.value * 0x100 + h1.value * 0x10 + h0.value
    }
  }

  predicate Legal(q: seq<Piece>) {
    forall i :: 0 <= i < |q| ==> q[i].Legal()
  }

  function Spell(q: seq<Piece>): Text {
    if q == [] then [] else q[0].Spelled() + Spell(q[1..])
  }

  function Quoted(q: seq<Piece>): Text {
    [QUOTE] + Spell(q) + [QUOTE]
  }

  function Decode(q: seq<Piece>): Text {
    if q == [] then [] else [q[0].Meaning()] + Decode(q[1..])
  }

  lemma SpelledOut(t: Text, i: nat, w: Text)
    requires At(t, i, w)
    ensures i + |w| <= |t| && forall k :: 0 <= k < |w| ==> t[i + k] == w[k]
  {
    forall k | 0 <= k < |w|
      ensures t[i + k] == w[k]
    {
      AtIndex(t, i, w, k);
    }
  }

  lemma HexIsNext(t: Text, i: nat, p: Piece)
    requires p.Hex? && At(t, i, p.Spelled())
    ensures NextToken(t, i) == Spelling(p.Meaning(), |p.Spelled()|)
  {
    SpelledOut(t, i, p.Spelled());
    HexDigitReads(p.h3);
    HexDigitReads(p.h2);
    HexDigitReads(p.h1);
    HexDigitReads(p.h0);
    hide At, HexDigit.Spelled, HexValue, IsHexDigit;
    assert t[i] == BACKSLASH && t[i + 1] == p.Spelled()[1];
    assert t[i + 2] == p.Spelled()[2] && t[i + 3] == p.Spelled()[3];
    assert t[i + 4] == p.Spelled()[4] && t[i + 5] == p.Spelled()[5];
  }

  lemma PieceIsNext(t: Text, i: nat, p: Piece)
    requires p.Legal() && At(t, i, p.Spelled())
    ensures NextToken(t, i) == Spelling(p.Meaning(), |p.Spelled()|)
  {
    if p.Hex? {
      HexIsNext(t, i, p);
    } else {
      SpelledOut(t, i, p.Spelled());
      hide At;
    }
  }

  lemma HexDigitExactly(c: Unit)
    ensures IsHexDigit(c) <==> exists h: HexDigit :: h.Spelled() == c
  {
    if IsHexDigit(c) {
      var h := HexDigit(HexValue(c), c <= 0x46);
      assert h.Spelled() == c;
    }
    forall h: HexDigit
      ensures IsHexDigit(h.Spelled())
    {
      HexDigitReads(h);
    }
  }

  /** What the standard forbids after a backslash is read all the same: a unit that is no escape stands for itself, and
      so does a `u` that four hexadecimal digits do not follow. Only a backslash at the very end is an error. */
  lemma OddEscapes(t: Text, i: nat)
    requires i < |t| && t[i] == '\\' as int
    ensures i + 1 == |t| ==> NextToken(t, i) == Dangling
    ensures i + 1 < |t| && t[i + 1] !in {'b' as int, 'f' as int, 'n' as int, 'r' as int, 't' as int, 'u' as int} ==>
              NextToken(t, i) == Spelling(t[i + 1], 2)
    ensures i + 1 < |t| && t[i + 1] == 'u' as int
            && (|t| < i + 6 || exists k :: i + 2 <= k < i + 6 && forall h: HexDigit :: h.Spelled() != t[k]) ==>
              NextToken(t, i) == Spelling('u' as int, 2)
  {
    forall k | i + 2 <= k < i + 6 && k < |t|
      ensures IsHexDigit(t[k]) <==> exists h: HexDigit :: h.Spelled() == t[k]
    {
      HexDigitExactly(t[k]);
    }
  }

  lemma ScanPiece(t: Text, i: nat, read: Text, p: Piece)
    requires p.Legal() && At(t, i, p.Spelled())
    ensures ScanString(t, i, read) == ScanString(t, i + |p.Spelled()|, read + [p.Meaning()])
  {
    PieceIsNext(t, i, p);
    hide NextToken, Piece.Meaning;
  }

  lemma ScanQuote(t: Text, i: nat, read: Text)
    requires At(t, i, [QUOTE])
    ensures ScanString(t, i, read) == Scanned(read, i + 1)
  {
    AtIndex(t, i, [QUOTE], 0);
  }

  /** Scanning the inside of a legal literal yields what it denotes and stops just past its quote. */
  lemma {:induction false} ScanStringDecodes(t: Text, i: nat, read: Text, q: seq<Piece>)
    requires Legal(q) && At(t, i, Spell(q)) && At(t, i + |Spell(q)|, [QUOTE])
    ensures ScanString(t, i, read) == Scanned(read + Decode(q), i + |Spell(q)| + 1)
    decreases |q|
  {
    hide At, ScanString, NextToken, Piece.Spelled, Piece.Meaning, Piece.Legal;
    if q == [] {
      ScanQuote(t, i, read);
      assert read + [] == read;
    } else {
      var w, m := q[0].Spelled(), q[0].Meaning();
      AtSplit(t, i, w, Spell(q[1..]));
      ScanPiece(t, i, read, q[0]);
      ScanStringDecodes(t, i + |w|, read + [m], q[1..]);
      assert (read + [m]) + Decode(q[1..]) == read + ([m] + Decode(q[1..]));
    }
  }

  /** parseString undoes every quoting of every string, wherever it stands in a text. */
  lemma QuotedStringScans(t: Text, i: nat, q: seq<Piece>)
    requires Legal(q) && At(t, i, Quoted(q))
    ensures ScanString(t, i + 1, []) == Scanned(Decode(q), i + |Quoted(q)|)
  {
    AtSplit(t, i, [QUOTE] + Spell(q), [QUOTE]);
    AtSplit(t, i, [QUOTE], Spell(q));
    ScanStringDecodes(t, i + 1, [], q);
    assert [] + Decode(q) == Decode(q);
  }
}
