/** The text a queue message's idempotency key is hashed from, and why distinct attempts get distinct texts. */
module TaskQueueContract {
  import opened Wrappers
  import opened JsonText
  import opened TaskStateMachine
  import opened TaskProtocol
  import D = JsonDocuments
  import JsStrings
  import Numerals
  import R = TaskRepository
  import TableRebuild

  const COLON: Unit := 0x3A
  const COMMA: Unit := 0x2C
  const OPEN: Unit := 0x5B
  const CLOSE: Unit := 0x5D

  // ----- JSON.stringify on a list of strings -----

  predicate HighSurrogate(c: Unit) { 0xD800 <= c < 0xDC00 }

  predicate LowSurrogate(c: Unit) { 0xDC00 <= c < 0xE000 }

  function UnicodeEscape(c: Unit): (p: Piece)
    ensures p.Legal() && p.Meaning() == c
  {
    var q := c / 16;
    var r := q / 16;
    assert r < 0x100 && q == r / 16 * 256 + r % 16 * 16 + q % 16;
    Hex(HexDigit(r / 16, false), HexDigit(r % 16, false), HexDigit(q % 16, false), HexDigit(c % 16, false))
  }

  /** How one code unit is written; `paired` tells whether it belongs to a surrogate pair. */
  function StringifyUnit(c: Unit, paired: bool): (p: Piece)
    ensures p.Legal() && p.Meaning() == c
    ensures p.Short? <==> c in {0x22, 0x5C, 0x08, 0x0C, 0x0A, 0x0D, 0x09}
    ensures p.Raw? <==> c >= 0x20 && c !in {0x22, 0x5C} && (0xD800 <= c < 0xE000 ==> paired)
    ensures p.Hex? ==> !p.h3.upper && !p.h2.upper && !p.h1.upper && !p.h0.upper
  {
    if c == QUOTE then Short(Quotation)
    else if c == BACKSLASH then Short(ReverseSolidus)
    else if c == 0x08 then Short(Backspace)
    else if c == 0x0C then Short(FormFeed)
    else if c == 0x0A then Short(LineFeed)
    else if c == 0x0D then Short(CarriageReturn)
    else if c == 0x09 then Short(Tab)
    else if c < 0x20 || ((HighSurrogate(c) || LowSurrogate(c)) && !paired) then UnicodeEscape(c)
    else Raw(c)
  }

  function Stringify(s: Text): (q: seq<Piece>)
    ensures Legal(q) && Decode(q) == s
    decreases |s|
  {
    if s == [] then []
    else if |s| > 1 && HighSurrogate(s[0]) && LowSurrogate(s[1]) then
      assert [s[0]] + ([s[1]] + s[2..]) == s;
      var rest := Stringify(s[2..]);
      var q := [StringifyUnit(s[0], true), StringifyUnit(s[1], true)] + rest;
      assert q[1..][1..] == rest && q[1..] != [];
      q
    else
      var q := [StringifyUnit(s[0], false)] + Stringify(s[1..]);
      assert q[1..] == Stringify(s[1..]) && [s[0]] + s[1..] == s;
      q
  }

  /** The unit at `i` is half of a surrogate pair. */
  predicate InPair(s: Text, i: nat)
    requires i < |s|
  {
    || (0xD800 <= s[i] <= 0xDBFF && i + 1 < |s| && 0xDC00 <= s[i + 1] <= 0xDFFF)
    || (0xDC00 <= s[i] <= 0xDFFF && 0 < i && 0xD800 <= s[i - 1] <= 0xDBFF)
  }

  /** Unit by unit; in particular pairs of surrogates stay raw and lone ones are escaped. */
  lemma {:induction false} StringifyExactly(s: Text, i: nat)
    requires i < |s|
    ensures |Stringify(s)| == |s| && Stringify(s)[i] == StringifyUnit(s[i], InPair(s, i))
    decreases |s|
  {
    hide StringifyUnit, Decode, Legal;
    if |s| > 1 && HighSurrogate(s[0]) && LowSurrogate(s[1]) {
      if |s| > 2 { StringifyExactly(s[2..], if i < 2 then 0 else i - 2); }
    } else {
      if |s| > 1 { StringifyExactly(s[1..], if i < 1 then 0 else i - 1); }
      if i == 0 { assert StringifyUnit(s[0], false) == StringifyUnit(s[0], InPair(s, 0)); }
    }
  }

  function StringifyRest(xs: seq<Text>): Text
    requires xs != []
    decreases |xs|, 1
  {
    Quoted(Stringify(xs[0])) + AfterFirst(xs)
  }

  function AfterFirst(xs: seq<Text>): Text
    requires xs != []
    decreases |xs|, 0
  {
    if |xs| == 1 then [CLOSE] else [COMMA] + StringifyRest(xs[1..])
  }

  function StringifyList(xs: seq<Text>): Text
    requires xs != []
  {
    [OPEN] + StringifyRest(xs)
  }

  /** The strings as the items of a JSON array without blanks. */
  function ArrayItems(xs: seq<Text>): D.Items {
    if xs == [] then D.NoItems else D.Item([], D.Str(Stringify(xs[0])), [], ArrayItems(xs[1..]))
  }

  /** The source is a JSON array of the strings, so a JSON reader gets them back. */
  lemma StringifiedIsJson(xs: seq<Text>)
    requires xs != []
    ensures StringifyList(xs) == D.Print(D.Arr([], ArrayItems(xs))) && D.WellFormed(D.Arr([], ArrayItems(xs)))
  {
    RestIsJson(xs);
  }

  lemma {:induction false} RestIsJson(xs: seq<Text>)
    requires xs != []
    ensures StringifyRest(xs) == D.PrintItems(ArrayItems(xs)) + [']' as int] && D.WellFormedItems(ArrayItems(xs))
  {
    hide Quoted, Stringify;
    if |xs| > 1 {
      RestIsJson(xs[1..]);
    }
  }

  /** What follows a quoted string in a text is determined by the text, and so is the string. */
  lemma QuotedPrefixUnique(a: Text, x: Text, b: Text, y: Text)
    requires Quoted(Stringify(a)) + x == Quoted(Stringify(b)) + y
    ensures a == b && x == y
  {
    hide Quoted, ScanString, Stringify;
    var t := Quoted(Stringify(a)) + x;
    assert t[0..|Quoted(Stringify(a))|] == Quoted(Stringify(a));
    assert t[0..|Quoted(Stringify(b))|] == Quoted(Stringify(b));
    QuotedStringScans(t, 0, Stringify(a));
    QuotedStringScans(t, 0, Stringify(b));
    assert x == t[|Quoted(Stringify(a))|..] == y;
  }

  lemma {:induction false} StringifyRestInjective(xs: seq<Text>, ys: seq<Text>)
    requires xs != [] && ys != [] && StringifyRest(xs) == StringifyRest(ys)
    ensures xs == ys
    decreases |xs|
  {
    hide Quoted, Stringify;
    QuotedPrefixUnique(xs[0], AfterFirst(xs), ys[0], AfterFirst(ys));
    AfterFirstDecides(xs, ys);
    if |xs| > 1 {
      StringifyRestInjective(xs[1..], ys[1..]);
    }
    assert xs == [xs[0]] + xs[1..] && ys == [ys[0]] + ys[1..];
  }

  /** What follows the first string tells whether there are more. */
  lemma AfterFirstDecides(xs: seq<Text>, ys: seq<Text>)
    requires xs != [] && ys != [] && AfterFirst(xs) == AfterFirst(ys)
    ensures |xs| == 1 <==> |ys| == 1
    ensures |xs| > 1 ==> StringifyRest(xs[1..]) == StringifyRest(ys[1..])
  {
    hide StringifyRest;
    assert AfterFirst(xs)[0] == AfterFirst(ys)[0] && AfterFirst(xs)[1..] == AfterFirst(ys)[1..];
  }

  // ----- The key source -----

  /** `String.prototype.trim`. */
  function TrimLeft(s: Text): Text {
    if s != [] && JsStrings.IsSpace(s[0]) then TrimLeft(s[1..]) else s
  }

  function TrimRight(s: Text): Text {
    if s != [] && JsStrings.IsSpace(s[|s| - 1]) then TrimRight(s[..|s| - 1]) else s
  }

  function Ascii(s: string): (t: Text)
    requires forall i :: 0 <= i < |s| ==> s[i] < 128 as char
    ensures |t| == |s| && forall i :: 0 <= i < |s| ==> t[i] == s[i] as int
  {
    seq(|s|, i requires 0 <= i < |s| => s[i] as int)
  }

  const INITIAL: Text := Ascii("initial")

  function NormalizeAttempt(attempt: Option<Text>): Text {
    if attempt.None? then INITIAL
    else
      var normalized := TrimRight(TrimLeft(attempt.value));
      if normalized == [] then INITIAL else normalized
  }

  /** The white space and line terminators of sections 12.2 and 12.3 of ECMA-262. */
  const BLANKS: set<int> := {
    0x09, 0x0A, 0x0B, 0x0C, 0x0D, 0x20, 0xA0, 0x1680, 0x2000, 0x2001, 0x2002, 0x2003, 0x2004, 0x2005, 0x2006, 0x2007,
    0x2008, 0x2009, 0x200A, 0x2028, 0x2029, 0x202F, 0x205F, 0x3000, 0xFEFF }

  predicate Blank(c: Unit) {
    c in BLANKS
  }

  lemma SpacesAreBlanks()
    ensures forall c: Unit :: JsStrings.IsSpace(c) <==> Blank(c)
  {
  }

  lemma {:induction false} LeftSpan(s: Text) returns (i: nat)
    ensures i <= |s| && TrimLeft(s) == s[i..]
    ensures (forall k :: 0 <= k < i ==> JsStrings.IsSpace(s[k])) && (i < |s| ==> !JsStrings.IsSpace(s[i]))
  {
    hide JsStrings.IsSpace;
    i := 0;
    if s != [] && JsStrings.IsSpace(s[0]) {
      i := LeftSpan(s[1..]);
      assert s[1..][i..] == s[i + 1..];
      i := i + 1;
    }
  }

  lemma {:induction false} RightSpan(s: Text) returns (j: nat)
    ensures j <= |s| && TrimRight(s) == s[..j]
    ensures (forall k :: j <= k < |s| ==> JsStrings.IsSpace(s[k])) && (0 < j ==> !JsStrings.IsSpace(s[j - 1]))
    decreases |s|
  {
    hide JsStrings.IsSpace;
    j := |s|;
    if s != [] && JsStrings.IsSpace(s[j - 1]) {
      var rest := s[..j - 1];
      j := RightSpan(rest);
      assert rest[..j] == s[..j];
    }
  }

  /** The attempt without the blanks on either side, and "initial" if nothing else is there. */
  lemma NormalizedExactly(attempt: Text) returns (i: nat, j: nat)
    ensures i <= j <= |attempt|
    ensures forall k :: 0 <= k < i || j <= k < |attempt| ==> Blank(attempt[k])
    ensures i < j ==> !Blank(attempt[i]) && !Blank(attempt[j - 1])
    ensures NormalizeAttempt(Some(attempt)) == if i == j then Ascii("initial") else attempt[i..j]
    ensures NormalizeAttempt(None) == Ascii("initial")
  {
    SpacesAreBlanks();
    hide JsStrings.IsSpace, Blank, TrimLeft, TrimRight;
    i := LeftSpan(attempt);
    j := RightSpan(attempt[i..]);
    j := i + j;
  }

  function IdempotencySource(topic: Text, kind: Text, taskId: Text, attempt: Option<Text>): Text {
    StringifyList([topic, kind, taskId, NormalizeAttempt(attempt)])
  }

  /** The source text determines all four fields. */
  lemma SourceInjective(topic: Text, kind: Text, taskId: Text, attempt: Option<Text>,
                        topic': Text, kind': Text, taskId': Text, attempt': Option<Text>)
    requires IdempotencySource(topic, kind, taskId, attempt) == IdempotencySource(topic', kind', taskId', attempt')
    ensures topic == topic' && kind == kind' && taskId == taskId'
    ensures NormalizeAttempt(attempt) == NormalizeAttempt(attempt')
  {
    var xs := [topic, kind, taskId, NormalizeAttempt(attempt)];
    var ys := [topic', kind', taskId', NormalizeAttempt(attempt')];
    assert StringifyList(xs)[1..] == StringifyRest(xs) && StringifyList(ys)[1..] == StringifyRest(ys);
    StringifyRestInjective(xs, ys);
    assert xs[0] == ys[0] && xs[1] == ys[1] && xs[2] == ys[2] && xs[3] == ys[3];
  }

  // ----- Queue-attempt tokens: status, colon, stamp -----

  function Name(s: Status): string {
    match s
    case Queued => "queued"
    case Downloading => "downloading"
    case Downloaded => "downloaded"
    case Uploading => "uploading"
    case Completed => "completed"
    case Failed => "failed"
    case Cancelled => "cancelled"
  }

  /** The names are those the table `tasks` admits. */
  lemma NamesAreStored(name: string)
    ensures name in TableRebuild.CANONICAL <==> exists s: Status :: Name(s) == name
  {
    assert Name(Queued) == "queued" && Name(Downloading) == "downloading" && Name(Downloaded) == "downloaded";
    assert Name(Uploading) == "uploading" && Name(Completed) == "completed" && Name(Failed) == "failed";
    assert Name(Cancelled) == "cancelled";
  }

  /** A stamp in decimal. */
  function Decimal(n: nat): (t: Text)
    ensures t != [] && forall i :: 0 <= i < |t| ==> 0x30 <= t[i] <= 0x39
  {
    DecimalDigits(n);
    Ascii(Numerals.Numeral(n, 10))
  }

  lemma DecimalDigits(n: nat)
    ensures var s := Numerals.Numeral(n, 10);
            s != "" && forall i :: 0 <= i < |s| ==> '0' <= s[i] <= '9'
  {
    var s := Numerals.Numeral(n, 10);
    Numerals.NumeralSpells(n, 10);
    forall i | 0 <= i < |s|
      ensures '0' <= s[i] <= '9'
    {
      assert s[i] in s && JsStrings.DigitValue(s[i]) < 10;
    }
  }

  lemma DecimalInjective(n: nat, n': nat)
    requires Decimal(n) == Decimal(n')
    ensures n == n'
  {
    var x, y := Numerals.Numeral(n, 10), Numerals.Numeral(n', 10);
    DecimalDigits(n);
    DecimalDigits(n');
    Numerals.NumeralSpells(n, 10);
    Numerals.NumeralSpells(n', 10);
    assert |x| == |y| && forall i :: 0 <= i < |x| ==> Ascii(x)[i] == Ascii(y)[i] && x[i] == y[i];
    assert x == y;
  }

  function Token(status: Status, stamp: nat): (t: Text)
    ensures 2 <= |t|
  {
    Ascii(Name(status)) + [COLON] + Decimal(stamp)
  }

  lemma NamesDiffer(a: Status, b: Status)
    requires Ascii(Name(a)) == Ascii(Name(b))
    ensures a == b
  {
    var x, y := Ascii(Name(a)), Ascii(Name(b));
    assert |x| == |y| && x[0] == y[0] && x[1] == y[1];
  }

  /** A token contains one colon, after the status name. */
  lemma TokenInjective(s: Status, n: nat, s': Status, n': nat)
    requires Token(s, n) == Token(s', n')
    ensures s == s' && n == n'
  {
    ColonPlace(s, n);
    ColonPlace(s', n');
    TokenParts(s, n);
    TokenParts(s', n');
    hide Token, Ascii, Decimal;
    assert |Name(s)| == |Name(s')|;
    NamesDiffer(s, s');
    DecimalInjective(n, n');
  }

  lemma TokenParts(s: Status, n: nat)
    ensures var t, k := Token(s, n), |Name(s)|;
            k < |t| && t[..k] == Ascii(Name(s)) && t[k + 1..] == Decimal(n)
  {
  }

  lemma ColonPlace(s: Status, n: nat)
    ensures var t, k := Token(s, n), |Name(s)|;
            k < |t| && t[k] == COLON && forall i :: 0 <= i < |t| && i != k ==> t[i] != COLON
  {
    assert forall i :: 0 <= i < |Name(s)| ==> 'a' <= Name(s)[i];
  }

  lemma VisibleIsNoSpace(c: Unit)
    requires 0x21 <= c < 0x80
    ensures !JsStrings.IsSpace(c)
  {
  }

  lemma NothingToTrim(t: Text)
    requires t != [] && 0x21 <= t[0] < 0x80 && 0x21 <= t[|t| - 1] < 0x80
    ensures NormalizeAttempt(Some(t)) == t
  {
    hide JsStrings.IsSpace, INITIAL;
    VisibleIsNoSpace(t[0]);
    VisibleIsNoSpace(t[|t| - 1]);
  }

  lemma NameIsVisible(s: Status)
    ensures Name(s) != "" && 0x21 <= Name(s)[0] as int < 0x80
  {
  }

  /** Trimming leaves a token as it is. */
  lemma TokenNormal(s: Status, n: nat)
    ensures NormalizeAttempt(Some(Token(s, n))) == Token(s, n)
  {
    hide Decimal, Name, NormalizeAttempt;
    NameIsVisible(s);
    TokenParts(s, n);
    var t, k := Token(s, n), |Name(s)|;
    assert t[0] == t[..k][0] == Name(s)[0] as int;
    assert t[|t| - 1] == t[k + 1..][|t| - k - 2];
    NothingToTrim(t);
  }

  /** Over every run of non-overlapping calls on a task, no two changes hand out the same attempt, and no two of
      their attempts lead to the same idempotency source, for any topic and queue type. */
  lemma AttemptSourcesDistinct(row: Row, ops: seq<R.Op>, i: nat, j: nat,
                               topic: Text, kind: Text, topic': Text, kind': Text, taskId: Text)
    requires i < j < |R.Attempts(row, ops)|
    ensures var a, b := R.Attempts(row, ops)[i], R.Attempts(row, ops)[j];
            && 0 <= a.stamp < b.stamp
            && IdempotencySource(topic, kind, taskId, Some(Token(a.status, a.stamp)))
            != IdempotencySource(topic', kind', taskId, Some(Token(b.status, b.stamp)))
  {
    R.StampsIncrease(row, ops);
    var a, b := R.Attempts(row, ops)[i], R.Attempts(row, ops)[j];
    var u, v := Token(a.status, a.stamp), Token(b.status, b.stamp);
    if IdempotencySource(topic, kind, taskId, Some(u)) == IdempotencySource(topic', kind', taskId, Some(v)) {
      SourceInjective(topic, kind, taskId, Some(u), topic', kind', taskId, Some(v));
      TokenNormal(a.status, a.stamp);
      TokenNormal(b.status, b.stamp);
      TokenInjective(a.status, a.stamp, b.status, b.stamp);
      assert false;
    }
  }
}
