/** The pushdown machine of check-json-duplicates.js: a stack of frames driven over a text. */
module JsonScanner {
  import opened Wrappers
  import opened JsonText

  const OPEN_BRACE: Unit := '{' as int
  const CLOSE_BRACE: Unit := '}' as int
  const OPEN_BRACKET: Unit := '[' as int
  const CLOSE_BRACKET: Unit := ']' as int
  const COLON: Unit := ':' as int
  const COMMA: Unit := ',' as int

  predicate IsWhitespace(c: Unit) {
    c == 0x20 || c == 0x0A || c == 0x0D || c == 0x09
  }

  predicate IsDelimiter(c: Unit) {
    c == COMMA || c == CLOSE_BRACE || c == CLOSE_BRACKET || IsWhitespace(c)
  }

  predicate InPrimitive(c: Unit) {
    !IsDelimiter(c)
  }

  function SkipWhile(t: Text, i: nat, skip: Unit -> bool): (r: nat)
    requires i <= |t|
    ensures i <= r <= |t|
    ensures forall k :: i <= k < r ==> skip(t[k])
    ensures r < |t| ==> !skip(t[r])
    decreases |t| - i
  {
    if i < |t| && skip(t[i]) then SkipWhile(t, i + 1, skip) else i
  }

  function SkipSpace(t: Text, i: nat): nat
    requires i <= |t|
  {
    SkipWhile(t, i, IsWhitespace)
  }

  function SkipPrimitive(t: Text, i: nat): nat
    requires i <= |t|
  {
    SkipWhile(t, i, InPrimitive)
  }

  datatype Kind = ObjectKind | ArrayKind
  datatype FrameState = ExpectKeyOrEnd | ExpectColon | ExpectValue | ExpectCommaOrEnd | ExpectValueOrEnd

  /** One step of a location: the member or the element of the enclosing value. */
  datatype Segment = Member(key: Text) | Element(position: nat)

  datatype Frame = Frame(kind: Kind, keys: set<Text>, state: FrameState, pendingKey: Option<Text>,
                         pathSegment: Option<Segment>, index: nat) {
    predicate Sane() {
      match kind
      case ObjectKind =>
        state != ExpectValueOrEnd && (state == ExpectColon || state == ExpectValue ==> pendingKey.Some?)
      case ArrayKind => state == ExpectValueOrEnd || state == ExpectCommaOrEnd
    }

    predicate AwaitsValue() {
      Sane() && (state == ExpectValue || state == ExpectValueOrEnd)
    }

    /** The location below this frame of the value it awaits. */
    function Slot(): Segment
      requires AwaitsValue()
    {
      if kind == ObjectKind then Member(pendingKey.value) else Element(index)
    }

    /** The frame once it has taken the value it awaits. */
    function TookValue(): Frame {
      if kind == ObjectKind then this.(pendingKey := None, state := ExpectCommaOrEnd)
      else this.(state := ExpectCommaOrEnd, index := index + 1)
    }
  }

  /** A duplicate key, with the location of the object that repeats it. */
  datatype Report = Report(path: seq<Segment>, key: Text)

  datatype Config = Config(index: nat, stack: seq<Frame>, duplicates: seq<Report>)
  datatype Move = Next(config: Config) | Halt | Reject
  datatype Outcome = Reported(duplicates: seq<Report>) | Thrown

  predicate Sane(stack: seq<Frame>) {
    forall i :: 0 <= i < |stack| ==> stack[i].Sane()
  }

  function NewFrame(kind: Kind, pathSegment: Option<Segment>): Frame {
    Frame(kind, {}, if kind == ObjectKind then ExpectKeyOrEnd else ExpectValueOrEnd, None, pathSegment, 0)
  }

  function Top(stack: seq<Frame>): Frame
    requires stack != []
  {
    stack[|stack| - 1]
  }

  function Below(stack: seq<Frame>): seq<Frame>
    requires stack != []
  {
    stack[..|stack| - 1]
  }

  function WithTop(stack: seq<Frame>, f: Frame): seq<Frame>
    requires stack != []
  {
    Below(stack) + [f]
  }

  /** The stack after its top frame has taken a value; an emptied stack stays empty. */
  function ValueComplete(stack: seq<Frame>): seq<Frame> {
    if stack == [] then [] else WithTop(stack, Top(stack).(state := ExpectCommaOrEnd))
  }

  function Segments(f: Frame): seq<Segment> {
    match f.pathSegment case None => [] case Some(s) => [s]
  }

  function PathOf(stack: seq<Frame>): seq<Segment> {
    if stack == [] then [] else PathOf(Below(stack)) + Segments(Top(stack))
  }

  // ----- One turn of the main loop, as a function -----

  function StartMove(ch: Unit, i: nat, d: seq<Report>): Move {
    if ch == OPEN_BRACE then Next(Config(i + 1, [NewFrame(ObjectKind, None)], d))
    else if ch == OPEN_BRACKET then Next(Config(i + 1, [NewFrame(ArrayKind, None)], d))
    else Reject
  }

  function KeyMove(t: Text, i: nat, stack: seq<Frame>, d: seq<Report>): Move
    requires i < |t| && stack != []
  {
    match ScanString(t, i + 1, [])
    case Unterminated => Reject
    case Scanned(key, end) =>
      var f := Top(stack);
      Next(Config(end, WithTop(stack, f.(keys := f.keys + {key}, pendingKey := Some(key), state := ExpectColon)),
                  if key in f.keys then d + [Report(PathOf(stack), key)] else d))
  }

  function ValueMove(t: Text, i: nat, stack: seq<Frame>, d: seq<Report>): Move
    requires i < |t| && stack != [] && Top(stack).AwaitsValue()
  {
    var rest := WithTop(stack, Top(stack).TookValue());
    var slot := Some(Top(stack).Slot());
    if t[i] == OPEN_BRACE then Next(Config(i + 1, rest + [NewFrame(ObjectKind, slot)], d))
    else if t[i] == OPEN_BRACKET then Next(Config(i + 1, rest + [NewFrame(ArrayKind, slot)], d))
    else if t[i] == QUOTE then
      match ScanString(t, i + 1, [])
      case Unterminated => Reject
      case Scanned(_, end) => Next(Config(end, rest, d))
    else Next(Config(SkipPrimitive(t, i), rest, d))
  }

  function PopMove(i: nat, stack: seq<Frame>, d: seq<Report>): Move
    requires stack != []
  {
    Next(Config(i + 1, ValueComplete(Below(stack)), d))
  }

  function ObjectMove(t: Text, i: nat, stack: seq<Frame>, d: seq<Report>): Move
    requires i < |t| && stack != [] && Top(stack).Sane() && Top(stack).kind == ObjectKind
  {
    var f := Top(stack);
    if f.state == ExpectKeyOrEnd then
      if t[i] == CLOSE_BRACE then PopMove(i, stack, d)
      else if t[i] == QUOTE then KeyMove(t, i, stack, d)
      else Reject
    else if f.state == ExpectColon then
      if t[i] == COLON then Next(Config(i + 1, WithTop(stack, f.(state := ExpectValue)), d)) else Reject
    else if f.state == ExpectValue then ValueMove(t, i, stack, d)
    else if t[i] == COMMA then Next(Config(i + 1, WithTop(stack, f.(state := ExpectKeyOrEnd)), d))
    else if t[i] == CLOSE_BRACE then PopMove(i, stack, d)
    else Reject
  }

  function ArrayMove(t: Text, i: nat, stack: seq<Frame>, d: seq<Report>): Move
    requires i < |t| && stack != [] && Top(stack).Sane() && Top(stack).kind == ArrayKind
  {
    var f := Top(stack);
    if t[i] == CLOSE_BRACKET then PopMove(i, stack, d)
    else if f.state == ExpectValueOrEnd then ValueMove(t, i, stack, d)
    else if t[i] == COMMA then Next(Config(i + 1, WithTop(stack, f.(state := ExpectValueOrEnd)), d))
    else Reject
  }

  /** The move at a character that is not whitespace. */
  function TokenMove(t: Text, i: nat, stack: seq<Frame>, d: seq<Report>): Move
    requires i < |t| && Sane(stack)
  {
    if stack == [] then StartMove(t[i], i, d)
    else if Top(stack).kind == ObjectKind then ObjectMove(t, i, stack, d)
    else ArrayMove(t, i, stack, d)
  }

  function Step(t: Text, c: Config): Move
    requires c.index <= |t| && Sane(c.stack)
  {
    var i := SkipSpace(t, c.index);
    if i == |t| then Halt else TokenMove(t, i, c.stack, c.duplicates)
  }

  // ----- The whole run -----

  function Pending(stack: seq<Frame>): nat {
    if stack != [] && Top(stack).AwaitsValue() then 1 else 0
  }

  lemma SaneTop(stack: seq<Frame>)
    requires stack != [] && Sane(stack)
    ensures Top(stack).Sane() && Sane(Below(stack))
    ensures forall f: Frame :: f.Sane() ==> Sane(WithTop(stack, f))
    ensures Sane(ValueComplete(Below(stack)))
  {
    assert forall i :: 0 <= i < |stack| - 1 ==> Below(stack)[i] == stack[i];
  }

  /** Every turn keeps the frames sane and either consumes text or fills an awaited value, so that
      the scanner halts on every text although a primitive may consume nothing. */
  lemma StepProgress(t: Text, c: Config)
    requires c.index <= |t| && Sane(c.stack)
    ensures Step(t, c).Next? ==>
              var n := Step(t, c).config;
              && n.index <= |t| && Sane(n.stack)
              && (c.index < n.index || (c.index == n.index && Pending(n.stack) < Pending(c.stack)))
  {
    if c.stack != [] {
      SaneTop(c.stack);
      assert Top(WithTop(c.stack, Top(c.stack).TookValue())) == Top(c.stack).TookValue();
    }
  }

  function Run(t: Text, c: Config): Outcome
    requires c.index <= |t| && Sane(c.stack)
    decreases |t| - c.index, Pending(c.stack)
  {
    StepProgress(t, c);
    match Step(t, c)
    case Next(n) => Run(t, n)
    case Halt => Reported(c.duplicates)
    case Reject => Thrown
  }

  function Scan(t: Text): Outcome {
    Run(t, Config(0, [], []))
  }

  // ----- The program itself -----

  method SkipWhitespace(text: Text, from: nat) returns (index: nat)
    requires from <= |text|
    ensures index == SkipSpace(text, from)
    ensures from <= index <= |text| && forall k :: from <= k < index ==> text[k] in {0x20, 0x09, 0x0A, 0x0D}
    ensures index < |text| ==> text[index] !in {0x20, 0x09, 0x0A, 0x0D}
  {
    index := from;
    while index < |text|
      invariant from <= index <= |text|
      invariant SkipSpace(text, index) == SkipSpace(text, from)
      invariant forall k :: from <= k < index ==> text[k] in {0x20, 0x09, 0x0A, 0x0D}
    {
      if IsWhitespace(text[index]) { index := index + 1; } else { break; }
    }
  }

  class Scanner {
    const text: Text
    var index: nat
    var stack: seq<Frame>
    var duplicates: seq<Report>

    function State(): Config
      reads this
    {
      Config(index, stack, duplicates)
    }

    constructor (text: Text)
      ensures this.text == text && State() == Config(0, [], [])
    {
      this.text := text;
      index, stack, duplicates := 0, [], [];
    }

    method CurrentPath() returns (segments: seq<Segment>)
      ensures segments == PathOf(stack)
    {
      segments := [];
      for i := 0 to |stack|
        invariant segments == PathOf(stack[..i])
      {
        assert Below(stack[..i + 1]) == stack[..i];
        segments := segments + Segments(stack[i]);
      }
      assert stack[..|stack|] == stack;
    }

    method PushFrame(kind: Kind, pathSegment: Option<Segment>)
      modifies this`stack
      ensures stack == old(stack) + [NewFrame(kind, pathSegment)]
    {
      stack := stack + [NewFrame(kind, pathSegment)];
    }

    method PopFrame()
      requires stack != []
      modifies this`stack
      ensures stack == Below(old(stack))
    {
      stack := stack[..|stack| - 1];
    }

    method SetTop(f: Frame)
      requires stack != []
      modifies this`stack
      ensures stack == WithTop(old(stack), f)
    {
      stack := stack[|stack| - 1 := f];
    }

    method MarkValueComplete()
      modifies this`stack
      ensures stack == ValueComplete(old(stack))
    {
      if stack == [] { return; }
      SetTop(Top(stack).(state := ExpectCommaOrEnd));
    }

    /** The branches of an awaited value: open a frame, read a string, or run over a primitive. */
    method TakeValue() returns (ok: bool)
      requires index < |text| && stack != [] && Top(stack).AwaitsValue()
      modifies this
      ensures ValueMove(text, old(index), old(stack), old(duplicates)) == if ok then Next(State()) else Reject
    {
      var ch := text[index];
      var slot := Some(Top(stack).Slot());
      if ch == QUOTE {
        var parsed := ParseString(text, index);
        if parsed.Unterminated? { return false; }
        SetTop(Top(stack).TookValue());
        index := parsed.end;
        return true;
      }
      SetTop(Top(stack).TookValue());
      if ch == OPEN_BRACE {
        PushFrame(ObjectKind, slot);
        index := index + 1;
      } else if ch == OPEN_BRACKET {
        PushFrame(ArrayKind, slot);
        index := index + 1;
      } else {
        ghost var from := index;
        while index < |text|
          invariant from <= index <= |text|
          invariant SkipPrimitive(text, index) == SkipPrimitive(text, from)
          invariant stack == WithTop(old(stack), Top(old(stack)).TookValue()) && duplicates == old(duplicates)
        {
          if IsDelimiter(text[index]) { break; }
          index := index + 1;
        }
      }
      return true;
    }

    method Close()
      requires index < |text| && stack != []
      modifies this
      ensures PopMove(old(index), old(stack), old(duplicates)) == Next(State())
    {
      PopFrame();
      index := index + 1;
      MarkValueComplete();
    }

    method ReadKey() returns (ok: bool)
      requires index < |text| && stack != []
      modifies this
      ensures KeyMove(text, old(index), old(stack), old(duplicates)) == if ok then Next(State()) else Reject
    {
      var parsed := ParseString(text, index);
      if parsed.Unterminated? { return false; }
      var top := Top(stack);
      var key := parsed.value;
      if key in top.keys {
        var path := CurrentPath();
        duplicates := duplicates + [Report(path, key)];
      }
      SetTop(top.(keys := top.keys + {key}, pendingKey := Some(key), state := ExpectColon));
      index := parsed.end;
      return true;
    }

    method ObjectTurn() returns (ok: bool)
      requires index < |text| && stack != [] && Top(stack).Sane() && Top(stack).kind == ObjectKind
      modifies this
      ensures ObjectMove(text, old(index), old(stack), old(duplicates)) == if ok then Next(State()) else Reject
    {
      var ch := text[index];
      var top := Top(stack);
      if top.state == ExpectKeyOrEnd {
        if ch == CLOSE_BRACE { Close(); return true; }
        if ch == QUOTE { ok := ReadKey(); return; }
        return false;
      }
      if top.state == ExpectColon {
        if ch != COLON { return false; }
        SetTop(top.(state := ExpectValue));
        index := index + 1;
        return true;
      }
      if top.state == ExpectValue { ok := TakeValue(); return; }
      if ch == COMMA {
        SetTop(top.(state := ExpectKeyOrEnd));
        index := index + 1;
        return true;
      }
      if ch == CLOSE_BRACE { Close(); return true; }
      return false;
    }

    method ArrayTurn() returns (ok: bool)
      requires index < |text| && stack != [] && Top(stack).Sane() && Top(stack).kind == ArrayKind
      modifies this
      ensures ArrayMove(text, old(index), old(stack), old(duplicates)) == if ok then Next(State()) else Reject
    {
      var ch := text[index];
      var top := Top(stack);
      if top.state == ExpectValueOrEnd {
        if ch == CLOSE_BRACKET { Close(); return true; }
        ok := TakeValue();
        return;
      }
      if ch == COMMA {
        SetTop(top.(state := ExpectValueOrEnd));
        index := index + 1;
        return true;
      }
      if ch == CLOSE_BRACKET { Close(); return true; }
      return false;
    }

    method StartTurn() returns (ok: bool)
      requires index < |text| && stack == []
      modifies this
      ensures StartMove(text[old(index)], old(index), old(duplicates)) == if ok then Next(State()) else Reject
    {
      var ch := text[index];
      if ch == OPEN_BRACE {
        PushFrame(ObjectKind, None);
      } else if ch == OPEN_BRACKET {
        PushFrame(ArrayKind, None);
      } else {
        return false;
      }
      index := index + 1;
      return true;
    }

    /** The main loop: its answer on every text is the run of the machine from an empty stack. */
    method DetectDuplicateKeys() returns (r: Outcome)
      requires State() == Config(0, [], [])
      modifies this
      ensures r == Scan(text)
    {
      while index < |text|
        invariant index <= |text| && Sane(stack)
        invariant Run(text, State()) == Scan(text)
        decreases |text| - index, Pending(stack)
      {
        ghost var before := State();
        StepProgress(text, before);
        index := SkipWhitespace(text, index);
        if index == |text| { break; }
        var ok;
        if stack == [] {
          ok := StartTurn();
        } else if Top(stack).kind == ObjectKind {
          ok := ObjectTurn();
        } else {
          ok := ArrayTurn();
        }
        if !ok { return Thrown; }
        assert Step(text, before) == Next(State());
      }
      return Reported(duplicates);
    }
  }
}
