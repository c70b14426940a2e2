/** JSON documents as trees that keep their layout, what a scan of them must report, and the proof
    that the scanner reports exactly that. */
module JsonDocuments {
  import opened Wrappers
  import opened JsonText
  import opened JsonScanner

  /** A value with its layout. A primitive keeps its lexeme; `gap` is the whitespace after an opening
      bracket. */
  datatype Json =
    | Primitive(lexeme: Text)
    | Str(literal: seq<Piece>)
    | Arr(gap: Text, items: Items)
    | Obj(gap: Text, members: Members)

  datatype Items =
    | NoItems
    | Item(before: Text, value: Json, after: Text, others: Items)

  datatype Members =
    | NoMembers
    | Entry(before: Text, key: seq<Piece>, beforeColon: Text, afterColon: Text, value: Json, after: Text,
            others: Members)

  // ----- Printing -----

  function Print(v: Json): Text
    decreases v, 0
  {
    match v
    case Primitive(lexeme) => lexeme
    case Str(literal) => Quoted(literal)
    case Arr(gap, items) => ['[' as int] + (gap + (PrintItems(items) + [']' as int]))
    case Obj(gap, members) => ['{' as int] + (gap + (PrintMembers(members) + ['}' as int]))
  }

  function PrintItems(s: Items): Text
    decreases s, 0
  {
    match s
    case NoItems => []
    case Item(before, value, after, others) => before + (Print(value) + (after + PrintMoreItems(others)))
  }

  function PrintMoreItems(s: Items): Text
    decreases s, 1
  {
    if s.NoItems? then [] else [',' as int] + PrintItems(s)
  }

  function PrintMembers(m: Members): Text
    decreases m, 0
  {
    match m
    case NoMembers => []
    case Entry(before, key, beforeColon, afterColon, value, after, others) =>
      before + (Quoted(key) + (beforeColon + ([':' as int] + (afterColon
        + (Print(value) + (after + PrintMoreMembers(others)))))))
  }

  function PrintMoreMembers(m: Members): Text
    decreases m, 1
  {
    if m.NoMembers? then [] else [',' as int] + PrintMembers(m)
  }

  /** Insignificant whitespace: space, tab, line feed and carriage return (section 2 of RFC 8259). */
  predicate Blank(w: Text) {
    forall i :: 0 <= i < |w| ==> w[i] in {0x20, 0x09, 0x0A, 0x0D}
  }

  /** The layout is legal: gaps are whitespace, literals are legal, and a primitive holds no whitespace, comma or
      closing bracket and does not begin like another value (true of every RFC 8259 number and name). */
  predicate WellFormed(v: Json) {
    match v
    case Primitive(lexeme) =>
      && lexeme != [] && lexeme[0] !in {'"' as int, '{' as int, '[' as int}
      && forall i :: 0 <= i < |lexeme| ==>
           lexeme[i] !in {0x20, 0x09, 0x0A, 0x0D} && lexeme[i] !in {',' as int, '}' as int, ']' as int}
    case Str(literal) => Legal(literal)
    case Arr(gap, items) => Blank(gap) && WellFormedItems(items)
    case Obj(gap, members) => Blank(gap) && WellFormedMembers(members)
  }

  predicate WellFormedItems(s: Items) {
    match s
    case NoItems => true
    case Item(before, value, after, others) =>
      Blank(before) && WellFormed(value) && Blank(after) && WellFormedItems(others)
  }

  predicate WellFormedMembers(m: Members) {
    match m
    case NoMembers => true
    case Entry(before, key, beforeColon, afterColon, value, after, others) =>
      && Blank(before) && Legal(key) && Blank(beforeColon) && Blank(afterColon)
      && WellFormed(value) && Blank(after) && WellFormedMembers(others)
  }

  // ----- What must be reported -----

  /** The repeated keys of a value and of everything inside it, in document order. */
  function Reports(v: Json, path: seq<Segment>): seq<Report>
    requires WellFormed(v)
  {
    match v
    case Primitive(_) => []
    case Str(_) => []
    case Arr(_, items) => ItemReports(items, path, 0)
    case Obj(_, members) => MemberReports(members, path, {})
  }

  function ItemReports(s: Items, path: seq<Segment>, n: nat): seq<Report>
    requires WellFormedItems(s)
  {
    match s
    case NoItems => []
    case Item(_, value, _, others) => Reports(value, path + [Element(n)]) + ItemReports(others, path, n + 1)
  }

  function MemberReports(m: Members, path: seq<Segment>, seen: set<Text>): seq<Report>
    requires WellFormedMembers(m)
  {
    match m
    case NoMembers => []
    case Entry(_, key, _, _, value, _, others) =>
      var k := Decode(key);
      (if k in seen then [Report(path, k)] else [])
      + (Reports(value, path + [Member(k)]) + MemberReports(others, path, seen + {k}))
  }

  // ----- The scanner on whitespace and single tokens -----

  lemma {:induction false} SkipsRun(t: Text, i: nat, w: Text, skip: Unit -> bool)
    requires At(t, i, w)
    requires forall k :: 0 <= k < |w| ==> skip(w[k])
    ensures SkipWhile(t, i, skip) == SkipWhile(t, i + |w|, skip)
    decreases |w|
  {
    if w != [] {
      AtIndex(t, i, w, 0);
      assert w == [w[0]] + w[1..];
      AtSplit(t, i, [w[0]], w[1..]);
      SkipsRun(t, i + 1, w[1..], skip);
    }
  }

  /** Two configurations from which the run has the same outcome. */
  ghost predicate Leads(t: Text, c: Config, c': Config) {
    c.index <= |t| && Sane(c.stack) && c'.index <= |t| && Sane(c'.stack) && Run(t, c) == Run(t, c')
  }

  lemma LeadsOn(t: Text, c: Config, c': Config, c'': Config)
    requires Leads(t, c, c') && Leads(t, c', c'')
    ensures Leads(t, c, c'')
  {
  }

  lemma SanePushed(base: seq<Frame>, f: Frame)
    requires Sane(base) && f.Sane()
    ensures Sane(base + [f]) && Sane(ValueComplete(base))
  {
    if base != [] {
      SaneTop(base);
    }
  }

  lemma TopOfPushed(base: seq<Frame>, f: Frame)
    ensures Top(base + [f]) == f && Below(base + [f]) == base
    ensures forall g :: WithTop(base + [f], g) == base + [g]
    ensures PathOf(base + [f]) == PathOf(base) + Segments(f)
  {
  }

  /** Only the segment of a frame enters a location. */
  lemma SamePath(base: seq<Frame>, f: Frame, g: Frame)
    requires f.pathSegment == g.pathSegment
    ensures PathOf(base + [f]) == PathOf(base + [g])
  {
    TopOfPushed(base, f);
    TopOfPushed(base, g);
  }

  /** Leading whitespace does not change the outcome of a run. */
  lemma BlankRun(t: Text, i: nat, w: Text, base: seq<Frame>, f: Frame, d: seq<Report>)
    requires At(t, i, w) && Blank(w) && Sane(base) && f.Sane()
    ensures Leads(t, Config(i, base + [f], d), Config(i + |w|, base + [f], d))
  {
    SanePushed(base, f);
    SkipsRun(t, i, w, IsWhitespace);
    assert Step(t, Config(i, base + [f], d)) == Step(t, Config(i + |w|, base + [f], d));
  }

  /** At a character that is not whitespace the run is that of its token move. */
  lemma TokenRun(t: Text, i: nat, stack: seq<Frame>, d: seq<Report>)
    requires i < |t| && !IsWhitespace(t[i]) && Sane(stack)
    ensures TokenMove(t, i, stack, d).Next? ==> Leads(t, Config(i, stack, d), TokenMove(t, i, stack, d).config)
    ensures TokenMove(t, i, stack, d).Reject? ==> Run(t, Config(i, stack, d)) == Thrown
  {
    StepProgress(t, Config(i, stack, d));
    assert Step(t, Config(i, stack, d)) == TokenMove(t, i, stack, d);
  }

  // ----- Single tokens, on a stack base + [f] -----

  function Closer(k: Kind): Unit {
    if k == ObjectKind then CLOSE_BRACE else CLOSE_BRACKET
  }

  function Opener(k: Kind): Unit {
    if k == ObjectKind then OPEN_BRACE else OPEN_BRACKET
  }

  function First(k: Kind): FrameState {
    if k == ObjectKind then ExpectKeyOrEnd else ExpectValueOrEnd
  }

  lemma CloseRun(t: Text, i: nat, base: seq<Frame>, f: Frame, d: seq<Report>)
    requires Sane(base) && f.Sane() && (f.state == First(f.kind) || f.state == ExpectCommaOrEnd)
    requires At(t, i, [Closer(f.kind)])
    ensures Leads(t, Config(i, base + [f], d), Config(i + 1, ValueComplete(base), d))
  {
    hide Leads;
    AtIndex(t, i, [Closer(f.kind)], 0);
    SanePushed(base, f);
    TopOfPushed(base, f);
    TokenRun(t, i, base + [f], d);
  }

  lemma CommaRun(t: Text, i: nat, base: seq<Frame>, f: Frame, d: seq<Report>)
    requires Sane(base) && f.Sane() && f.state == ExpectCommaOrEnd && At(t, i, [COMMA])
    ensures Leads(t, Config(i, base + [f], d), Config(i + 1, base + [f.(state := First(f.kind))], d))
  {
    hide Leads;
    AtIndex(t, i, [COMMA], 0);
    SanePushed(base, f);
    TopOfPushed(base, f);
    TokenRun(t, i, base + [f], d);
  }

  lemma ColonRun(t: Text, i: nat, base: seq<Frame>, f: Frame, d: seq<Report>)
    requires Sane(base) && f.Sane() && f.kind == ObjectKind && f.state == ExpectColon && At(t, i, [COLON])
    ensures Leads(t, Config(i, base + [f], d), Config(i + 1, base + [f.(state := ExpectValue)], d))
  {
    hide Leads;
    AtIndex(t, i, [COLON], 0);
    SanePushed(base, f);
    TopOfPushed(base, f);
    TokenRun(t, i, base + [f], d);
  }

  /** The frame that has read the key `k`. */
  function ReadKey(f: Frame, k: Text): Frame {
    f.(keys := f.keys + {k}, pendingKey := Some(k), state := ExpectColon)
  }

  function KeyReport(f: Frame, path: seq<Segment>, k: Text): seq<Report> {
    if k in f.keys then [Report(path, k)] else []
  }

  lemma KeyMoveAt(t: Text, i: nat, base: seq<Frame>, f: Frame, d: seq<Report>, key: seq<Piece>)
    requires Legal(key) && At(t, i, Quoted(key))
    ensures i < |t| && t[i] == QUOTE
    ensures KeyMove(t, i, base + [f], d)
         == Next(Config(i + |Quoted(key)|, base + [ReadKey(f, Decode(key))],
                        d + KeyReport(f, PathOf(base + [f]), Decode(key))))
  {
    AtIndex(t, i, Quoted(key), 0);
    QuotedStringScans(t, i, key);
    TopOfPushed(base, f);
    assert d + [] == d;
  }

  lemma KeyRun(t: Text, i: nat, base: seq<Frame>, f: Frame, d: seq<Report>, key: seq<Piece>)
    requires Sane(base) && f.Sane() && f.kind == ObjectKind && f.state == ExpectKeyOrEnd
    requires Legal(key) && At(t, i, Quoted(key))
    ensures Leads(t, Config(i, base + [f], d),
                  Config(i + |Quoted(key)|, base + [ReadKey(f, Decode(key))],
                         d + KeyReport(f, PathOf(base + [f]), Decode(key))))
  {
    hide Leads, Decode, Quoted, KeyMove, PathOf;
    KeyMoveAt(t, i, base, f, d, key);
    SanePushed(base, f);
    TopOfPushed(base, f);
    TokenRun(t, i, base + [f], d);
  }

  /** Opening a bracket where a value is awaited pushes a frame that remembers its slot. */
  lemma OpenRun(t: Text, i: nat, k: Kind, base: seq<Frame>, f: Frame, d: seq<Report>)
    requires Sane(base) && f.AwaitsValue() && At(t, i, [Opener(k)])
    ensures Leads(t, Config(i, base + [f], d),
                  Config(i + 1, (base + [f.TookValue()]) + [NewFrame(k, Some(f.Slot()))], d))
  {
    hide Leads;
    AtIndex(t, i, [Opener(k)], 0);
    SanePushed(base, f);
    TopOfPushed(base, f);
    TokenRun(t, i, base + [f], d);
  }

  /** The frame under an opened bracket: it already counts the value as taken. */
  lemma UnderOpened(base: seq<Frame>, f: Frame, k: Kind)
    requires Sane(base) && f.AwaitsValue()
    ensures Sane(base + [f.TookValue()]) && ValueComplete(base + [f.TookValue()]) == base + [f.TookValue()]
    ensures PathOf((base + [f.TookValue()]) + [NewFrame(k, Some(f.Slot()))]) == PathOf(base + [f]) + [f.Slot()]
  {
    SanePushed(base, f.TookValue());
    TopOfPushed(base, f.TookValue());
    TopOfPushed(base + [f.TookValue()], NewFrame(k, Some(f.Slot())));
    SamePath(base, f, f.TookValue());
  }

  /** A value ends where the text ends or a delimiter stands. */
  predicate EndsAt(t: Text, j: nat) {
    j == |t| || (j < |t| && IsDelimiter(t[j]))
  }

  /** After a value come blanks and then a comma or a closing bracket: the value ends there. */
  lemma EndsBefore(t: Text, j: nat, after: Text, more: Text, c: Unit)
    requires At(t, j, after) && Blank(after) && At(t, j + |after|, more) && At(t, j + |after| + |more|, [c])
    requires IsDelimiter(c) && (more == [] || more[0] == COMMA)
    ensures EndsAt(t, j)
  {
    AtIndex(t, j + |after| + |more|, [c], 0);
    if after != [] {
      AtIndex(t, j, after, 0);
    } else if more != [] {
      AtIndex(t, j, more, 0);
    }
  }

  predicate Leaf(v: Json) {
    v.Primitive? || v.Str?
  }

  /** A string or a primitive is taken in one move. */
  lemma LeafMove(t: Text, i: nat, v: Json, stack: seq<Frame>, d: seq<Report>)
    requires stack != [] && Top(stack).AwaitsValue()
    requires Leaf(v) && WellFormed(v) && At(t, i, Print(v)) && EndsAt(t, i + |Print(v)|)
    ensures i < |t| && !IsDelimiter(t[i])
    ensures ValueMove(t, i, stack, d) == Next(Config(i + |Print(v)|, WithTop(stack, Top(stack).TookValue()), d))
  {
    AtIndex(t, i, Print(v), 0);
    match v
    case Primitive(lexeme) =>
      SkipsRun(t, i, lexeme, InPrimitive);
    case Str(literal) =>
      QuotedStringScans(t, i, literal);
  }

  lemma LeafRun(t: Text, i: nat, v: Json, base: seq<Frame>, f: Frame, d: seq<Report>)
    requires Sane(base) && f.AwaitsValue()
    requires Leaf(v) && WellFormed(v) && At(t, i, Print(v)) && EndsAt(t, i + |Print(v)|)
    ensures Leads(t, Config(i, base + [f], d), Config(i + |Print(v)|, base + [f.TookValue()], d))
  {
    hide Leads, ValueMove, Print, WellFormed;
    SanePushed(base, f);
    TopOfPushed(base, f);
    LeafMove(t, i, v, base + [f], d);
    TokenRun(t, i, base + [f], d);
  }

  // ----- The simulation -----

  /** From any surrounding stack and any reports so far, scanning a printed value takes it as the awaited
      value and appends exactly its reports. */
  lemma {:induction false} ValueRun(t: Text, i: nat, v: Json, base: seq<Frame>, f: Frame, d: seq<Report>,
                                    path: seq<Segment>)
    requires WellFormed(v) && Sane(base) && f.AwaitsValue() && path == PathOf(base + [f])
    requires At(t, i, Print(v)) && EndsAt(t, i + |Print(v)|)
    ensures Leads(t, Config(i, base + [f], d),
                  Config(i + |Print(v)|, base + [f.TookValue()], d + Reports(v, path + [f.Slot()])))
    decreases v, 1
  {
    hide Leads, At, PathOf, Sane, Blank, EndsAt;
    match v
    case Primitive(_) =>
      LeafRun(t, i, v, base, f, d);
      assert d + [] == d;
    case Str(_) =>
      LeafRun(t, i, v, base, f, d);
      assert d + [] == d;
    case Arr(gap, items) =>
      var under, g := OpenedRun(t, i, ArrayKind, gap, PrintItems(items), base, f, d);
      ItemsRun(t, i + 1 + |gap|, items, under, g, d, path + [f.Slot()]);
      LeadsOn(t, Config(i, base + [f], d), Config(i + 1 + |gap|, under + [g], d),
              Config(i + |Print(v)|, under, d + ItemReports(items, path + [f.Slot()], 0)));
    case Obj(gap, members) =>
      var under, g := OpenedRun(t, i, ObjectKind, gap, PrintMembers(members), base, f, d);
      MembersRun(t, i + 1 + |gap|, members, under, g, d, path + [f.Slot()]);
      LeadsOn(t, Config(i, base + [f], d), Config(i + 1 + |gap|, under + [g], d),
              Config(i + |Print(v)|, under, d + MemberReports(members, path + [f.Slot()], {})));
  }

  /** Opening a bracket and skipping the gap after it. */
  lemma OpenedRun(t: Text, i: nat, k: Kind, gap: Text, body: Text, base: seq<Frame>, f: Frame, d: seq<Report>)
    returns (under: seq<Frame>, g: Frame)
    requires Sane(base) && f.AwaitsValue() && Blank(gap)
    requires At(t, i, [Opener(k)] + (gap + (body + [Closer(k)])))
    ensures under == base + [f.TookValue()] && Sane(under) && ValueComplete(under) == under
    ensures g == NewFrame(k, Some(f.Slot())) && PathOf(under + [g]) == PathOf(base + [f]) + [f.Slot()]
    ensures At(t, i + 1 + |gap|, body) && At(t, i + 1 + |gap| + |body|, [Closer(k)])
    ensures Leads(t, Config(i, base + [f], d), Config(i + 1 + |gap|, under + [g], d))
  {
    hide Leads, At, PathOf, Sane, Blank;
    under, g := base + [f.TookValue()], NewFrame(k, Some(f.Slot()));
    AtSplit(t, i, [Opener(k)], gap + (body + [Closer(k)]));
    AtSplit(t, i + 1, gap, body + [Closer(k)]);
    AtSplit(t, i + 1 + |gap|, body, [Closer(k)]);
    UnderOpened(base, f, k);
    OpenRun(t, i, k, base, f, d);
    BlankRun(t, i + 1, gap, under, g, d);
    LeadsOn(t, Config(i, base + [f], d), Config(i + 1, under + [g], d), Config(i + 1 + |gap|, under + [g], d));
  }

  lemma AppendAssoc(a: seq<Report>, b: seq<Report>, c: seq<Report>)
    ensures (a + b) + c == a + (b + c)
  {
  }

  lemma {:induction false} ItemsRun(t: Text, i: nat, s: Items, base: seq<Frame>, f: Frame, d: seq<Report>,
                                    path: seq<Segment>)
    requires WellFormedItems(s) && Sane(base) && path == PathOf(base + [f])
    requires f.kind == ArrayKind && f.state == ExpectValueOrEnd
    requires At(t, i, PrintItems(s)) && At(t, i + |PrintItems(s)|, [CLOSE_BRACKET])
    ensures Leads(t, Config(i, base + [f], d),
                  Config(i + |PrintItems(s)| + 1, ValueComplete(base), d + ItemReports(s, path, f.index)))
    decreases s, 1
  {
    hide Leads, At, PathOf, Sane, Blank, EndsAt, Print, Reports, WellFormed;
    match s
    case NoItems =>
      CloseRun(t, i, base, f, d);
      assert d + [] == d;
    case Item(before, value, after, others) =>
      var more := PrintMoreItems(others);
      AtSplit(t, i, before, Print(value) + (after + more));
      var j := i + |before|;
      AtSplit(t, j, Print(value), after + more);
      var k := j + |Print(value)|;
      AtSplit(t, k, after, more);
      EndsBefore(t, k, after, more, CLOSE_BRACKET);
      var g, e := f.TookValue(), d + Reports(value, path + [Element(f.index)]);
      BlankRun(t, i, before, base, f, d);
      ValueRun(t, j, value, base, f, d, path);
      LeadsOn(t, Config(i, base + [f], d), Config(j, base + [f], d), Config(k, base + [g], e));
      BlankRun(t, k, after, base, g, e);
      LeadsOn(t, Config(i, base + [f], d), Config(k, base + [g], e), Config(k + |after|, base + [g], e));
      SamePath(base, f, g);
      MoreItemsRun(t, k + |after|, others, base, g, e, path);
      AppendAssoc(d, Reports(value, path + [Element(f.index)]), ItemReports(others, path, f.index + 1));
      LeadsOn(t, Config(i, base + [f], d), Config(k + |after|, base + [g], e),
              Config(i + |PrintItems(s)| + 1, ValueComplete(base), d + ItemReports(s, path, f.index)));
  }

  lemma {:induction false} MoreItemsRun(t: Text, i: nat, s: Items, base: seq<Frame>, f: Frame, d: seq<Report>,
                                        path: seq<Segment>)
    requires WellFormedItems(s) && Sane(base) && path == PathOf(base + [f])
    requires f.kind == ArrayKind && f.state == ExpectCommaOrEnd
    requires At(t, i, PrintMoreItems(s)) && At(t, i + |PrintMoreItems(s)|, [CLOSE_BRACKET])
    ensures Leads(t, Config(i, base + [f], d),
                  Config(i + |PrintMoreItems(s)| + 1, ValueComplete(base), d + ItemReports(s, path, f.index)))
    decreases s, 2
  {
    hide Leads, At, PathOf, Sane;
    if s.NoItems? {
      CloseRun(t, i, base, f, d);
      assert d + [] == d;
    } else {
      var g := f.(state := ExpectValueOrEnd);
      AtSplit(t, i, [COMMA], PrintItems(s));
      CommaRun(t, i, base, f, d);
      SamePath(base, f, g);
      ItemsRun(t, i + 1, s, base, g, d, path);
      LeadsOn(t, Config(i, base + [f], d), Config(i + 1, base + [g], d),
              Config(i + |PrintMoreItems(s)| + 1, ValueComplete(base), d + ItemReports(s, path, f.index)));
    }
  }

  /** A printed member after its colon. */
  function AfterColon(m: Members): Text
    requires m.Entry?
  {
    m.afterColon + (Print(m.value) + (m.after + PrintMoreMembers(m.others)))
  }

  lemma KeyLayout(t: Text, i: nat, m: Members) returns (key: nat, colon: nat)
    requires m.Entry? && At(t, i, PrintMembers(m))
    ensures At(t, i, m.before) && key == i + |m.before| && At(t, key, Quoted(m.key))
    ensures At(t, key + |Quoted(m.key)|, m.beforeColon) && colon == key + |Quoted(m.key)| + |m.beforeColon|
    ensures At(t, colon, [COLON]) && At(t, colon + 1, AfterColon(m))
    ensures |PrintMembers(m)| == colon - i + 1 + |AfterColon(m)|
  {
    var d := AfterColon(m);
    var c := m.beforeColon + ([COLON] + d);
    assert PrintMembers(m) == m.before + (Quoted(m.key) + c);
    hide At, Quoted, AfterColon, PrintMembers;
    AtSplit(t, i, m.before, Quoted(m.key) + c);
    key := i + |m.before|;
    AtSplit(t, key, Quoted(m.key), c);
    AtSplit(t, key + |Quoted(m.key)|, m.beforeColon, [COLON] + d);
    colon := key + |Quoted(m.key)| + |m.beforeColon|;
    AtSplit(t, colon, [COLON], d);
  }

  lemma ValueLayout(t: Text, i: nat, m: Members) returns (value: nat, after: nat, next: nat)
    requires m.Entry? && At(t, i, AfterColon(m))
    ensures At(t, i, m.afterColon) && value == i + |m.afterColon|
    ensures At(t, value, Print(m.value)) && after == value + |Print(m.value)|
    ensures At(t, after, m.after) && next == after + |m.after| && At(t, next, PrintMoreMembers(m.others))
    ensures i + |AfterColon(m)| == next + |PrintMoreMembers(m.others)|
  {
    hide At, Print, PrintMoreMembers;
    var e := m.after + PrintMoreMembers(m.others);
    AtSplit(t, i, m.afterColon, Print(m.value) + e);
    value := i + |m.afterColon|;
    AtSplit(t, value, Print(m.value), e);
    after := value + |Print(m.value)|;
    AtSplit(t, after, m.after, PrintMoreMembers(m.others));
    next := after + |m.after|;
  }

  /** Where the parts of a printed member stand. */
  lemma EntryLayout(t: Text, i: nat, m: Members) returns (key: nat, colon: nat, value: nat, after: nat, next: nat)
    requires m.Entry? && At(t, i, PrintMembers(m))
    ensures At(t, i, m.before) && key == i + |m.before| && At(t, key, Quoted(m.key))
    ensures At(t, key + |Quoted(m.key)|, m.beforeColon) && colon == key + |Quoted(m.key)| + |m.beforeColon|
    ensures At(t, colon, [COLON]) && At(t, colon + 1, m.afterColon) && value == colon + 1 + |m.afterColon|
    ensures At(t, value, Print(m.value)) && after == value + |Print(m.value)|
    ensures At(t, after, m.after) && next == after + |m.after| && At(t, next, PrintMoreMembers(m.others))
    ensures i + |PrintMembers(m)| == next + |PrintMoreMembers(m.others)|
  {
    hide At, Quoted, Print, PrintMembers, PrintMoreMembers, AfterColon;
    key, colon := KeyLayout(t, i, m);
    value, after, next := ValueLayout(t, colon + 1, m);
  }

  /** The frame that awaits the value of the member `k`. */
  function Awaiting(f: Frame, k: Text): Frame {
    ReadKey(f, k).(state := ExpectValue)
  }

  /** A member up to its value. */
  lemma EntryHeadRun(t: Text, i: nat, m: Members, base: seq<Frame>, f: Frame, d: seq<Report>, path: seq<Segment>)
    returns (value: nat, after: nat, next: nat)
    requires m.Entry? && WellFormedMembers(m) && Sane(base) && At(t, i, PrintMembers(m))
    requires f.kind == ObjectKind && f.state == ExpectKeyOrEnd && path == PathOf(base + [f])
    ensures At(t, value, Print(m.value)) && after == value + |Print(m.value)|
    ensures At(t, after, m.after) && next == after + |m.after| && At(t, next, PrintMoreMembers(m.others))
    ensures i + |PrintMembers(m)| == next + |PrintMoreMembers(m.others)|
    ensures Leads(t, Config(i, base + [f], d),
                  Config(value, base + [Awaiting(f, Decode(m.key))], d + KeyReport(f, path, Decode(m.key))))
  {
    hide Leads, At, PathOf, Sane, Blank, Decode, Quoted, PrintMembers, KeyReport;
    var key, colon;
    key, colon, value, after, next := EntryLayout(t, i, m);
    var k := Decode(m.key);
    var e := d + KeyReport(f, path, k);
    var start := Config(i, base + [f], d);
    var read := Config(key + |Quoted(m.key)|, base + [ReadKey(f, k)], e);
    var await := Config(colon + 1, base + [Awaiting(f, k)], e);
    BlankRun(t, i, m.before, base, f, d);
    KeyRun(t, key, base, f, d, m.key);
    LeadsOn(t, start, Config(key, base + [f], d), read);
    BlankRun(t, key + |Quoted(m.key)|, m.beforeColon, base, ReadKey(f, k), e);
    LeadsOn(t, start, read, Config(colon, base + [ReadKey(f, k)], e));
    ColonRun(t, colon, base, ReadKey(f, k), e);
    LeadsOn(t, start, Config(colon, base + [ReadKey(f, k)], e), await);
    BlankRun(t, colon + 1, m.afterColon, base, Awaiting(f, k), e);
    LeadsOn(t, start, await, Config(value, base + [Awaiting(f, k)], e));
  }

  lemma {:induction false} MembersRun(t: Text, i: nat, m: Members, base: seq<Frame>, f: Frame, d: seq<Report>,
                                      path: seq<Segment>)
    requires WellFormedMembers(m) && Sane(base) && path == PathOf(base + [f])
    requires f.kind == ObjectKind && f.state == ExpectKeyOrEnd
    requires At(t, i, PrintMembers(m)) && At(t, i + |PrintMembers(m)|, [CLOSE_BRACE])
    ensures Leads(t, Config(i, base + [f], d),
                  Config(i + |PrintMembers(m)| + 1, ValueComplete(base), d + MemberReports(m, path, f.keys)))
    decreases m, 1
  {
    hide Leads, At, PathOf, Sane, Blank, EndsAt;
    match m
    case NoMembers =>
      CloseRun(t, i, base, f, d);
      assert d + [] == d;
    case Entry(_, key, _, _, value, after, others) =>
      var k := Decode(key);
      var e, g := d + KeyReport(f, path, k), Awaiting(f, k);
      var v, a, n := EntryHeadRun(t, i, m, base, f, d, path);
      EndsBefore(t, a, after, PrintMoreMembers(others), CLOSE_BRACE);
      SamePath(base, f, g);
      EntryTailRun(t, v, m, base, g, e, path);
      AppendAssoc(d, KeyReport(f, path, k), Reports(value, path + [Member(k)]) + MemberReports(others, path, g.keys));
      LeadsOn(t, Config(i, base + [f], d), Config(v, base + [g], e),
              Config(i + |PrintMembers(m)| + 1, ValueComplete(base), d + MemberReports(m, path, f.keys)));
  }

  /** From the value of the first member on. */
  lemma {:induction false} EntryTailRun(t: Text, i: nat, m: Members, base: seq<Frame>, f: Frame, d: seq<Report>,
                                        path: seq<Segment>)
    requires m.Entry? && WellFormedMembers(m) && Sane(base) && path == PathOf(base + [f])
    requires f.kind == ObjectKind && f.state == ExpectValue && f.pendingKey == Some(Decode(m.key))
    requires At(t, i, Print(m.value)) && EndsAt(t, i + |Print(m.value)|)
    requires At(t, i + |Print(m.value)|, m.after)
    requires At(t, i + |Print(m.value)| + |m.after|, PrintMoreMembers(m.others))
    requires At(t, i + |Print(m.value)| + |m.after| + |PrintMoreMembers(m.others)|, [CLOSE_BRACE])
    ensures Leads(t, Config(i, base + [f], d),
                  Config(i + |Print(m.value)| + |m.after| + |PrintMoreMembers(m.others)| + 1, ValueComplete(base),
                         d + (Reports(m.value, path + [Member(Decode(m.key))])
                              + MemberReports(m.others, path, f.keys))))
    decreases m, 0
  {
    hide Leads, At, PathOf, Sane, Blank, EndsAt;
    var start, l := Config(i, base + [f], d), i + |Print(m.value)|;
    var inner := Reports(m.value, path + [Member(Decode(m.key))]);
    var g, e := f.TookValue(), d + inner;
    ValueRun(t, i, m.value, base, f, d, path);
    BlankRun(t, l, m.after, base, g, e);
    LeadsOn(t, start, Config(l, base + [g], e), Config(l + |m.after|, base + [g], e));
    SamePath(base, f, g);
    MoreMembersRun(t, l + |m.after|, m.others, base, g, e, path);
    AppendAssoc(d, inner, MemberReports(m.others, path, f.keys));
    LeadsOn(t, start, Config(l + |m.after|, base + [g], e),
            Config(l + |m.after| + |PrintMoreMembers(m.others)| + 1, ValueComplete(base),
                   d + (inner + MemberReports(m.others, path, f.keys))));
  }

  lemma {:induction false} MoreMembersRun(t: Text, i: nat, m: Members, base: seq<Frame>, f: Frame, d: seq<Report>,
                                          path: seq<Segment>)
    requires WellFormedMembers(m) && Sane(base) && path == PathOf(base + [f])
    requires f.kind == ObjectKind && f.state == ExpectCommaOrEnd
    requires At(t, i, PrintMoreMembers(m)) && At(t, i + |PrintMoreMembers(m)|, [CLOSE_BRACE])
    ensures Leads(t, Config(i, base + [f], d),
                  Config(i + |PrintMoreMembers(m)| + 1, ValueComplete(base), d + MemberReports(m, path, f.keys)))
    decreases m, 2
  {
    hide Leads, At, PathOf, Sane;
    if m.NoMembers? {
      CloseRun(t, i, base, f, d);
      assert d + [] == d;
    } else {
      var g := f.(state := ExpectKeyOrEnd);
      AtSplit(t, i, [COMMA], PrintMembers(m));
      CommaRun(t, i, base, f, d);
      SamePath(base, f, g);
      MembersRun(t, i + 1, m, base, g, d, path);
      LeadsOn(t, Config(i, base + [f], d), Config(i + 1, base + [g], d),
              Config(i + |PrintMoreMembers(m)| + 1, ValueComplete(base), d + MemberReports(m, path, f.keys)));
    }
  }

  // ----- Whole documents -----

  lemma EmptyBlankRun(t: Text, i: nat, w: Text, d: seq<Report>)
    requires At(t, i, w) && Blank(w)
    ensures Leads(t, Config(i, [], d), Config(i + |w|, [], d))
  {
    SkipsRun(t, i, w, IsWhitespace);
    assert Step(t, Config(i, [], d)) == Step(t, Config(i + |w|, [], d));
  }

  lemma StartRun(t: Text, i: nat, k: Kind)
    requires At(t, i, [Opener(k)])
    ensures Leads(t, Config(i, [], []), Config(i + 1, [] + [NewFrame(k, None)], []))
  {
    AtIndex(t, i, [Opener(k)], 0);
    TokenRun(t, i, [], []);
    assert [] + [NewFrame(k, None)] == [NewFrame(k, None)];
  }

  /** From the first bracket of a document to just past its last. */
  lemma RootRun(t: Text, i: nat, v: Json)
    requires WellFormed(v) && !Leaf(v) && At(t, i, Print(v))
    ensures Leads(t, Config(i, [], []), Config(i + |Print(v)|, [], Reports(v, [])))
  {
    hide Leads, At, Blank;
    var k := if v.Arr? then ArrayKind else ObjectKind;
    var f := NewFrame(k, None);
    TopOfPushed([], f);
    match v
    case Arr(gap, items) =>
      RootOpened(t, i, k, gap, PrintItems(items));
      ItemsRun(t, i + 1 + |gap|, items, [], f, [], []);
      assert [] + ItemReports(items, [], 0) == ItemReports(items, [], 0);
      LeadsOn(t, Config(i, [], []), Config(i + 1 + |gap|, [] + [f], []), Config(i + |Print(v)|, [], Reports(v, [])));
    case Obj(gap, members) =>
      RootOpened(t, i, k, gap, PrintMembers(members));
      MembersRun(t, i + 1 + |gap|, members, [], f, [], []);
      assert [] + MemberReports(members, [], {}) == MemberReports(members, [], {});
      LeadsOn(t, Config(i, [], []), Config(i + 1 + |gap|, [] + [f], []), Config(i + |Print(v)|, [], Reports(v, [])));
  }

  lemma RootOpened(t: Text, i: nat, k: Kind, gap: Text, body: Text)
    requires Blank(gap) && At(t, i, [Opener(k)] + (gap + (body + [Closer(k)])))
    ensures At(t, i + 1 + |gap|, body) && At(t, i + 1 + |gap| + |body|, [Closer(k)])
    ensures Leads(t, Config(i, [], []), Config(i + 1 + |gap|, [] + [NewFrame(k, None)], []))
  {
    hide Leads, At, Blank;
    AtSplit(t, i, [Opener(k)], gap + (body + [Closer(k)]));
    AtSplit(t, i + 1, gap, body + [Closer(k)]);
    AtSplit(t, i + 1 + |gap|, body, [Closer(k)]);
    StartRun(t, i, k);
    BlankRun(t, i + 1, gap, [], NewFrame(k, None), []);
    LeadsOn(t, Config(i, [], []), Config(i + 1, [] + [NewFrame(k, None)], []),
            Config(i + 1 + |gap|, [] + [NewFrame(k, None)], []));
  }

  /** Scanning a laid-out document reports exactly its repeated keys, in document order, when its root is an
      object or an array, and throws when it is any other value. */
  lemma ScanDocument(lead: Text, v: Json, trail: Text)
    requires Blank(lead) && WellFormed(v) && Blank(trail)
    ensures Scan(lead + (Print(v) + trail)) == if Leaf(v) then Thrown else Reported(Reports(v, []))
  {
    var t := lead + (Print(v) + trail);
    AtWhole(t);
    hide Run, Leads, At, Blank, Print, WellFormed;
    AtSplit(t, 0, lead, Print(v) + trail);
    AtSplit(t, |lead|, Print(v), trail);
    var start, root, end, last := Config(0, [], []), Config(|lead|, [], []),
      Config(|lead| + |Print(v)|, [], Reports(v, [])), Config(|t|, [], Reports(v, []));
    EmptyBlankRun(t, 0, lead, []);
    SameOutcome(t, start, root);
    if Leaf(v) {
      LeafRejected(t, |lead|, v);
    } else {
      RootRun(t, |lead|, v);
      EmptyBlankRun(t, |lead| + |Print(v)|, trail, Reports(v, []));
      LeadsOn(t, root, end, last);
      SameOutcome(t, root, last);
      RunAtEnd(t, Reports(v, []));
    }
  }

  lemma AtWhole(t: Text)
    ensures At(t, 0, t)
  {
    assert t[0..|t|] == t;
  }

  lemma SameOutcome(t: Text, c: Config, c': Config)
    requires Leads(t, c, c')
    ensures c.index <= |t| && c'.index <= |t| && Sane(c.stack) && Sane(c'.stack) && Run(t, c) == Run(t, c')
  {
  }

  lemma LeafRejected(t: Text, i: nat, v: Json)
    requires WellFormed(v) && Leaf(v) && At(t, i, Print(v))
    ensures i <= |t| && Run(t, Config(i, [], [])) == Thrown
  {
    AtIndex(t, i, Print(v), 0);
    TokenRun(t, i, [], []);
  }

  lemma RunAtEnd(t: Text, d: seq<Report>)
    ensures Run(t, Config(|t|, [], d)) == Reported(d)
  {
  }

  // ----- What the reports amount to -----

  function Keys(m: Members): seq<Text>
    requires WellFormedMembers(m)
  {
    if m.NoMembers? then [] else [Decode(m.key)] + Keys(m.others)
  }

  function KeySet(m: Members): set<Text>
    requires WellFormedMembers(m)
  {
    set k | k in Keys(m)
  }

  /** The sum over all objects of (members minus distinct decoded keys). */
  function DuplicateCount(v: Json): int
    requires WellFormed(v)
  {
    match v
    case Primitive(_) => 0
    case Str(_) => 0
    case Arr(_, items) => ItemDuplicates(items)
    case Obj(_, members) => |Keys(members)| - |KeySet(members)| + NestedDuplicates(members)
  }

  function ItemDuplicates(s: Items): int
    requires WellFormedItems(s)
  {
    if s.NoItems? then 0 else DuplicateCount(s.value) + ItemDuplicates(s.others)
  }

  function NestedDuplicates(m: Members): int
    requires WellFormedMembers(m)
  {
    if m.NoMembers? then 0 else DuplicateCount(m.value) + NestedDuplicates(m.others)
  }

  predicate Distinct(s: seq<Text>) {
    forall i, j :: 0 <= i < j < |s| ==> s[i] != s[j]
  }

  /** Every object's names are unique, as section 4 of RFC 8259 asks. */
  predicate UniqueNames(v: Json)
    requires WellFormed(v)
  {
    match v
    case Primitive(_) => true
    case Str(_) => true
    case Arr(_, items) => UniqueInItems(items)
    case Obj(_, members) => Distinct(Keys(members)) && UniqueInMembers(members)
  }

  predicate UniqueInItems(s: Items)
    requires WellFormedItems(s)
  {
    s.NoItems? || (UniqueNames(s.value) && UniqueInItems(s.others))
  }

  predicate UniqueInMembers(m: Members)
    requires WellFormedMembers(m)
  {
    m.NoMembers? || (UniqueNames(m.value) && UniqueInMembers(m.others))
  }

  /** The scanner reports as many duplicates as the sum counts. */
  lemma {:induction false} ReportsCounted(v: Json, path: seq<Segment>)
    requires WellFormed(v)
    ensures |Reports(v, path)| == DuplicateCount(v)
  {
    match v
    case Primitive(_) =>
    case Str(_) =>
    case Arr(_, items) => ItemReportsCounted(items, path, 0);
    case Obj(_, members) =>
      MemberReportsCounted(members, path, {});
      assert KeySet(members) - {} == KeySet(members);
  }

  lemma {:induction false} ItemReportsCounted(s: Items, path: seq<Segment>, n: nat)
    requires WellFormedItems(s)
    ensures |ItemReports(s, path, n)| == ItemDuplicates(s)
  {
    if s.Item? {
      ReportsCounted(s.value, path + [Element(n)]);
      ItemReportsCounted(s.others, path, n + 1);
    }
  }

  lemma {:induction false} MemberReportsCounted(m: Members, path: seq<Segment>, seen: set<Text>)
    requires WellFormedMembers(m)
    ensures |MemberReports(m, path, seen)| == |Keys(m)| - |KeySet(m) - seen| + NestedDuplicates(m)
  {
    if m.NoMembers? {
      assert KeySet(m) - seen == {};
    } else {
      var k := Decode(m.key);
      ReportsCounted(m.value, path + [Member(k)]);
      MemberReportsCounted(m.others, path, seen + {k});
      assert KeySet(m) == {k} + KeySet(m.others);
      var rest := KeySet(m.others) - (seen + {k});
      if k in seen {
        assert KeySet(m) - seen == rest;
      } else {
        assert KeySet(m) - seen == {k} + rest && k !in rest;
      }
    }
  }

  /** Nothing is reported exactly when every object's names are unique. */
  lemma {:induction false} CleanExactlyWhenUnique(v: Json, path: seq<Segment>)
    requires WellFormed(v)
    ensures Reports(v, path) == [] <==> UniqueNames(v)
  {
    match v
    case Primitive(_) =>
    case Str(_) =>
    case Arr(_, items) => ItemsClean(items, path, 0);
    case Obj(_, members) => MembersClean(members, path, {});
  }

  lemma {:induction false} ItemsClean(s: Items, path: seq<Segment>, n: nat)
    requires WellFormedItems(s)
    ensures ItemReports(s, path, n) == [] <==> UniqueInItems(s)
  {
    if s.Item? {
      CleanExactlyWhenUnique(s.value, path + [Element(n)]);
      ItemsClean(s.others, path, n + 1);
    }
  }

  lemma {:induction false} MembersClean(m: Members, path: seq<Segment>, seen: set<Text>)
    requires WellFormedMembers(m)
    ensures MemberReports(m, path, seen) == []
       <==> Distinct(Keys(m)) && (forall k :: k in Keys(m) ==> k !in seen) && UniqueInMembers(m)
  {
    if m.Entry? {
      var k := Decode(m.key);
      CleanExactlyWhenUnique(m.value, path + [Member(k)]);
      MembersClean(m.others, path, seen + {k});
      DistinctCons(k, Keys(m.others));
      assert forall x :: x in Keys(m) <==> x == k || x in Keys(m.others);
    }
  }

  lemma DistinctCons(k: Text, s: seq<Text>)
    ensures Distinct([k] + s) <==> k !in s && Distinct(s)
  {
    var c := [k] + s;
    if Distinct(c) {
      forall i | 0 <= i < |s| ensures s[i] != k { assert c[0] != c[i + 1]; }
      forall i, j | 0 <= i < j < |s| ensures s[i] != s[j] { assert c[i + 1] != c[j + 1]; }
    }
  }

  /** What the program promises on a manifest: it finds as many duplicates as the sum counts, and none exactly
      when every name is unique. */
  lemma ScanDecidesUniqueness(lead: Text, v: Json, trail: Text)
    requires Blank(lead) && WellFormed(v) && !Leaf(v) && Blank(trail)
    ensures var r := Scan(lead + (Print(v) + trail));
            r.Reported? && |r.duplicates| == DuplicateCount(v) && (r.duplicates == [] <==> UniqueNames(v))
  {
    ScanDocument(lead, v, trail);
    ReportsCounted(v, []);
    CleanExactlyWhenUnique(v, []);
  }
}
