/** JSON values: the events a value sends, the writer that prints them as tokens, and the document
    that builds a value from events (thirdparty/rapidjson/document.h:1768-1805, 2333-2374,
    thirdparty/rapidjson/writer.h:170-240, 437-463). */
module JsonDocument {
  import opened Core
  import opened JsonGrammar

  datatype Value =
    | NullValue | BoolValue(b: bool) | NumberValue(number: string) | StringValue(s: string)
    | ObjectValue(members: seq<Member>) | ArrayValue(elements: seq<Value>)

  datatype Member = Member(name: string, value: Value)

  // ----- Events out -----

  function Accept(v: Value): (r: seq<Event>)
    ensures r != []
    decreases v, 0
  {
    match v
    case NullValue => [Null]
    case BoolValue(b) => [Bool(b)]
    case NumberValue(number) => [Number(number)]
    case StringValue(s) => [String(s)]
    case ObjectValue(members) => [StartObject] + AcceptMembers(members) + [EndObject(|members|)]
    case ArrayValue(elements) => [StartArray] + AcceptElements(elements) + [EndArray(|elements|)]
  }

  function AcceptMembers(members: seq<Member>): seq<Event>
    decreases members, 0
  {
    if members == [] then [] else
      [Key(members[0].name)] + Accept(members[0].value) + AcceptMembers(members[1..])
  }

  function AcceptElements(elements: seq<Value>): seq<Event>
    decreases elements, 0
  {
    if elements == [] then [] else Accept(elements[0]) + AcceptElements(elements[1..])
  }

  // ----- The writer -----

  datatype Level = Level(inArray: bool, valueCount: nat)

  datatype WriterState = WriterState(levels: seq<Level>, output: seq<Token>, hasRoot: bool)

  function Top(w: WriterState): Level
    requires w.levels != []
  {
    w.levels[|w.levels| - 1]
  }

  /** What goes before the next value: nothing before the first one, a comma in an array, and in an
      object a colon before every second value. */
  function Separator(w: WriterState): seq<Token> {
    if w.levels == [] || Top(w).valueCount == 0 then []
    else if Top(w).inArray || Top(w).valueCount % 2 == 0 then [Comma]
    else [Colon]
  }

  /** The assertions of the writer: one root, and names are strings. */
  predicate MayWrite(w: WriterState, isString: bool) {
    if w.levels == [] then !w.hasRoot
    else Top(w).inArray || Top(w).valueCount % 2 != 0 || isString
  }

  function Counted(w: WriterState): WriterState {
    if w.levels == [] then w.(hasRoot := true)
    else w.(levels := w.levels[|w.levels| - 1 := Top(w).(valueCount := Top(w).valueCount + 1)])
  }

  function Prefixed(w: WriterState): WriterState {
    Counted(w).(output := w.output + Separator(w))
  }

  /** None where an assertion fails. */
  function Write(w: WriterState, e: Event): Option<WriterState> {
    match e
    case EndObject(_) =>
      if w.levels == [] || Top(w).inArray then None
      else Some(w.(levels := w.levels[..|w.levels| - 1], output := w.output + [RightCurlyBracket]))
    case EndArray(_) =>
      if w.levels == [] || !Top(w).inArray then None
      else Some(w.(levels := w.levels[..|w.levels| - 1], output := w.output + [RightBracket]))
    case _ =>
      if !MayWrite(w, e.String? || e.Key?) then None else
        var p := Prefixed(w);
        Some(p.(levels := p.levels + Opened(e), output := p.output + [TokenOf(e)]))
  }

  function Opened(e: Event): seq<Level> {
    if e.StartObject? then [Level(false, 0)] else if e.StartArray? then [Level(true, 0)] else []
  }

  /** The token of an event; closing events have tokens of their own. */
  function TokenOf(e: Event): Token {
    match e
    case Null => NullToken(Read(()))
    case Bool(b) => if b then TrueToken(Read(())) else FalseToken(Read(()))
    case Number(number) => NumberToken(Read(number))
    case String(s) => StringToken(Read(s))
    case Key(s) => StringToken(Read(s))
    case StartObject => LeftCurlyBracket
    case StartArray => LeftBracket
    case EndObject(_) => RightCurlyBracket
    case EndArray(_) => RightBracket
  }

  function WriteAll(w: WriterState, events: seq<Event>): Option<WriterState>
    decreases |events|
  {
    if events == [] then Some(w) else
      match Write(w, events[0])
      case None => None
      case Some(next) => WriteAll(next, events[1..])
  }

  class Writer {
    var levels: seq<Level>
    var output: seq<Token>
    var hasRoot: bool

    constructor ()
      ensures Now() == WriterState([], [], false)
    {
      levels, output, hasRoot := [], [], false;
    }

    ghost function Now(): WriterState
      reads this
    {
      WriterState(levels, output, hasRoot)
    }

    method Prefix(isString: bool)
      requires MayWrite(Now(), isString)
      modifies this
      ensures Now() == Prefixed(old(Now()))
    {
      if levels != [] {
        var level := levels[|levels| - 1];
        if level.valueCount > 0 {
          if level.inArray {
            output := output + [Comma];
          } else {
            output := output + [if level.valueCount % 2 == 0 then Comma else Colon];
          }
        }
        levels := levels[|levels| - 1 := level.(valueCount := level.valueCount + 1)];
      } else {
        hasRoot := true;
      }
    }

    method Handle(e: Event)
      requires Write(Now(), e).Some?
      modifies this
      ensures Some(Now()) == Write(old(Now()), e)
    {
      if e.EndObject? || e.EndArray? {
        levels := levels[..|levels| - 1];
      } else {
        Prefix(e.String? || e.Key?);
        assert levels + [] == levels;
        if e.StartObject? || e.StartArray? {
          levels := levels + [Level(e.StartArray?, 0)];
        }
      }
      output := output + [TokenOf(e)];
    }

    predicate IsComplete()
      reads this
    {
      hasRoot && levels == []
    }
  }

  // ----- The text of a value -----

  /** The tokens of a value, by its structure. */
  function Print(v: Value): (r: seq<Token>)
    ensures |r| > 0
    decreases v, 0
  {
    match v
    case NullValue => [NullToken(Read(()))]
    case BoolValue(b) => [if b then TrueToken(Read(())) else FalseToken(Read(()))]
    case NumberValue(number) => [NumberToken(Read(number))]
    case StringValue(s) => [StringToken(Read(s))]
    case ObjectValue(members) => [LeftCurlyBracket] + PrintMembers(members, true) + [RightCurlyBracket]
    case ArrayValue(elements) => [LeftBracket] + PrintElements(elements, true) + [RightBracket]
  }

  function PrintMembers(members: seq<Member>, first: bool): seq<Token>
    decreases members, 0
  {
    if members == [] then [] else
      MemberText(members[0], first) + PrintMembers(members[1..], false)
  }

  function MemberText(m: Member, first: bool): seq<Token>
    decreases m, 0
  {
    (if first then [] else [Comma]) + ([StringToken(Read(m.name)), Colon] + Print(m.value))
  }

  function PrintElements(elements: seq<Value>, first: bool): seq<Token>
    decreases elements, 0
  {
    if elements == [] then [] else
      ElementText(elements[0], first) + PrintElements(elements[1..], false)
  }

  function ElementText(v: Value, first: bool): seq<Token>
    decreases v, 1
  {
    (if first then [] else [Comma]) + Print(v)
  }

  // ----- Writing a value -----

  /** The writer after a value with this text. */
  function Wrote(w: WriterState, text: seq<Token>): WriterState {
    Counted(w).(output := w.output + Separator(w) + text)
  }

  lemma {:induction false} WriteAppend(w: WriterState, a: seq<Event>, b: seq<Event>)
    ensures WriteAll(w, a + b) == match WriteAll(w, a) { case None => None case Some(m) => WriteAll(m, b) }
    decreases |a|
  {
    if a == [] {
      assert a + b == b;
    } else {
      assert (a + b)[1..] == a[1..] + b;
      match Write(w, a[0]) {
        case None =>
        case Some(next) => WriteAppend(next, a[1..], b);
      }
    }
  }

  lemma WriteOne(w: WriterState, e: Event)
    ensures WriteAll(w, [e]) == Write(w, e)
  {
    assert [e][1..] == [];
  }

  /** The events of a value, sent to the writer where a value may stand, append its text. */
  lemma {:induction false} ValueWrites(w: WriterState, v: Value)
    requires MayWrite(w, v.StringValue?)
    ensures WriteAll(w, Accept(v)) == Some(Wrote(w, Print(v)))
    decreases v, 1
  {
    hide AcceptMembers, AcceptElements, PrintMembers, PrintElements, WriteAll;
    match v {
      case ObjectValue(members) =>
        MembersWrite(Opening(w, StartObject), members, 0);
        ContainerWrites(w, AcceptMembers(members), PrintMembers(members, true), StartObject, EndObject(|members|), 2 * |members|);
      case ArrayValue(elements) =>
        ElementsWrite(Opening(w, StartArray), elements, 0);
        ContainerWrites(w, AcceptElements(elements), PrintElements(elements, true), StartArray, EndArray(|elements|), |elements|);
      case _ =>
        ScalarWrites(w, Accept(v)[0]);
    }
  }

  lemma ScalarWrites(w: WriterState, e: Event)
    requires MayWrite(w, e.String? || e.Key?) && !e.EndObject? && !e.EndArray? && Opened(e) == []
    ensures WriteAll(w, [e]) == Write(w, e) == Some(Wrote(w, [TokenOf(e)]))
  {
    WriteOne(w, e);
    assert Counted(w).levels + [] == Counted(w).levels;
  }

  /** The writer inside a container it has just opened. */
  function Opening(w: WriterState, start: Event): WriterState {
    var p := Prefixed(w);
    p.(levels := p.levels + [Level(start == StartArray, 0)], output := p.output + [TokenOf(start)])
  }

  lemma ContainerWrites(w: WriterState, inside: seq<Event>, text: seq<Token>, start: Event, end: Event, count: nat)
    requires start in {StartObject, StartArray} && MayWrite(w, false)
    requires if start == StartObject then end.EndObject? else end.EndArray?
    requires WriteAll(Opening(w, start), inside) == Some(AtCount(Opening(w, start), count, text))
    ensures WriteAll(w, [start] + inside + [end]) == Some(Wrote(w, [TokenOf(start)] + text + [TokenOf(end)]))
  {
    hide Counted, Separator;
    var open := Opening(w, start);
    var done := AtCount(open, count, text);
    WriteAppend(w, [start] + inside, [end]);
    WriteAppend(w, [start], inside);
    WriteOne(w, start);
    WriteOne(done, end);
    assert done.levels[..|done.levels| - 1] == Counted(w).levels;
    Grouped(w.output, Separator(w), [TokenOf(start)], text, [TokenOf(end)]);
  }

  lemma Grouped<T>(a: seq<T>, b: seq<T>, c: seq<T>, d: seq<T>, e: seq<T>)
    ensures ((((a + b) + c) + d) + e) == (a + b) + ((c + d) + e)
  {
  }

  ghost predicate InLevel(w: WriterState, inArray: bool, count: nat) {
    w.levels != [] && Top(w) == Level(inArray, count)
  }

  function AtCount(w: WriterState, count: nat, text: seq<Token>): WriterState
    requires w.levels != []
  {
    w.(levels := w.levels[|w.levels| - 1 := Top(w).(valueCount := count)], output := w.output + text)
  }

  lemma AtCountTwice(w: WriterState, c: nat, text: seq<Token>, c': nat, text': seq<Token>)
    requires w.levels != []
    ensures AtCount(AtCount(w, c, text), c', text') == AtCount(w, c', text + text')
    ensures c == Top(w).valueCount ==> AtCount(w, c, []) == w
  {
    assert AtCount(w, c, text).output + text' == w.output + (text + text');
    assert w.output + [] == w.output;
  }

  /** A value in a container. */
  lemma WroteInside(w: WriterState, inArray: bool, n: nat, text: seq<Token>)
    requires InLevel(w, inArray, n)
    ensures Wrote(w, text) == AtCount(w, n + 1, Separator(w) + text)
    ensures InLevel(AtCount(w, n + 1, Separator(w) + text), inArray, n + 1)
  {
    assert w.output + Separator(w) + text == w.output + (Separator(w) + text);
  }

  lemma {:induction false} MembersWrite(w: WriterState, members: seq<Member>, n: nat)
    requires InLevel(w, false, 2 * n)
    ensures WriteAll(w, AcceptMembers(members)) == Some(AtCount(w, 2 * (n + |members|), PrintMembers(members, n == 0)))
    decreases members, 1
  {
    hide WriteAll, Separator;
    AtCountTwice(w, 2 * n, [], 2 * n, []);
    if members == [] {
      WriteNone(w);
    } else {
      MemberWrites(w, members[0], n);
      var text := MemberText(members[0], n == 0);
      var valued := AtCount(w, 2 * (n + 1), text);
      var events := [Key(members[0].name)] + Accept(members[0].value);
      WriteAppend(w, events, AcceptMembers(members[1..]));
      assert events + AcceptMembers(members[1..]) == AcceptMembers(members);
      MembersWrite(valued, members[1..], n + 1);
      AtCountTwice(w, 2 * (n + 1), text, 2 * (n + |members|), PrintMembers(members[1..], false));
    }
  }

  lemma WriteNone(w: WriterState)
    ensures WriteAll(w, []) == Some(w)
  {
  }

  /** A name goes after a comma, its value after a colon. */
  lemma {:induction false} MemberWrites(w: WriterState, m: Member, n: nat)
    requires InLevel(w, false, 2 * n)
    ensures WriteAll(w, [Key(m.name)] + Accept(m.value)) == Some(AtCount(w, 2 * (n + 1), MemberText(m, n == 0)))
    decreases m, 0
  {
    hide WriteAll, Print, Accept;
    ScalarWrites(w, Key(m.name));
    WroteInside(w, false, 2 * n, [StringToken(Read(m.name))]);
    var named := AtCount(w, 2 * n + 1, Separator(w) + [StringToken(Read(m.name))]);
    WriteAppend(w, [Key(m.name)], Accept(m.value));
    ValueWrites(named, m.value);
    WroteInside(named, false, 2 * n + 1, Print(m.value));
    AtCountTwice(w, 2 * n + 1, Separator(w) + [StringToken(Read(m.name))], 2 * n + 2, Separator(named) + Print(m.value));
    assert Separator(named) == [Colon] && Separator(w) == if n == 0 then [] else [Comma];
    assert (Separator(w) + [StringToken(Read(m.name))]) + ([Colon] + Print(m.value)) ==
           Separator(w) + ([StringToken(Read(m.name)), Colon] + Print(m.value));
  }

  lemma {:induction false} ElementsWrite(w: WriterState, elements: seq<Value>, n: nat)
    requires InLevel(w, true, n)
    ensures WriteAll(w, AcceptElements(elements)) == Some(AtCount(w, n + |elements|, PrintElements(elements, n == 0)))
    decreases elements, 1
  {
    hide WriteAll, Print, Accept;
    AtCountTwice(w, n, [], n, []);
    if elements == [] {
      WriteNone(w);
    } else {
      WriteAppend(w, Accept(elements[0]), AcceptElements(elements[1..]));
      ValueWrites(w, elements[0]);
      WroteInside(w, true, n, Print(elements[0]));
      var text := Separator(w) + Print(elements[0]);
      ElementsWrite(AtCount(w, n + 1, text), elements[1..], n + 1);
      AtCountTwice(w, n + 1, text, n + |elements|, PrintElements(elements[1..], false));
      assert text == ElementText(elements[0], n == 0);
    }
  }

  /** Sends a value to the writer, event by event. */
  method AcceptBy(v: Value, writer: Writer)
    requires WriteAll(writer.Now(), Accept(v)).Some?
    modifies writer
    ensures Some(writer.Now()) == WriteAll(old(writer.Now()), Accept(v))
    decreases v
  {
    hide Write, AcceptMembers, AcceptElements;
    match v {
      case ObjectValue(members) =>
        AcceptObject(members, writer);
      case ArrayValue(elements) =>
        AcceptArray(elements, writer);
      case _ =>
        WriteOne(writer.Now(), Accept(v)[0]);
        writer.Handle(Accept(v)[0]);
    }
  }

  method SendFirst(e: Event, ghost rest: seq<Event>, writer: Writer)
    requires WriteAll(writer.Now(), [e] + rest).Some?
    modifies writer
    ensures WriteAll(writer.Now(), rest) == WriteAll(old(writer.Now()), [e] + rest)
  {
    hide Write;
    WriteAppend(writer.Now(), [e], rest);
    WriteOne(writer.Now(), e);
    writer.Handle(e);
  }

  method AcceptObject(members: seq<Member>, writer: Writer)
    requires WriteAll(writer.Now(), Accept(ObjectValue(members))).Some?
    modifies writer
    ensures Some(writer.Now()) == WriteAll(old(writer.Now()), Accept(ObjectValue(members)))
    decreases members
  {
    hide Write, WriteAll;
    ghost var goal := WriteAll(writer.Now(), Accept(ObjectValue(members)));
    ghost var end := [EndObject(|members|)];
    assert Accept(ObjectValue(members)) == [StartObject] + (AcceptMembers(members) + end);
    SendFirst(StartObject, AcceptMembers(members) + end, writer);
    assert members[0..] == members;
    for i := 0 to |members|
      invariant WriteAll(writer.Now(), AcceptMembers(members[i..]) + end) == goal
    {
      ghost var rest := AcceptMembers(members[i..][1..]) + end;
      assert members[i..][1..] == members[i + 1..];
      assert AcceptMembers(members[i..]) + end == [Key(members[i].name)] + (Accept(members[i].value) + rest);
      SendFirst(Key(members[i].name), Accept(members[i].value) + rest, writer);
      WriteAppend(writer.Now(), Accept(members[i].value), rest);
      AcceptBy(members[i].value, writer);
    }
    assert AcceptMembers(members[|members|..]) + end == end + [];
    SendFirst(EndObject(|members|), [], writer);
    WriteNone(writer.Now());
  }

  method AcceptArray(elements: seq<Value>, writer: Writer)
    requires WriteAll(writer.Now(), Accept(ArrayValue(elements))).Some?
    modifies writer
    ensures Some(writer.Now()) == WriteAll(old(writer.Now()), Accept(ArrayValue(elements)))
    decreases elements
  {
    hide Write, WriteAll;
    ghost var goal := WriteAll(writer.Now(), Accept(ArrayValue(elements)));
    ghost var end := [EndArray(|elements|)];
    assert Accept(ArrayValue(elements)) == [StartArray] + (AcceptElements(elements) + end);
    SendFirst(StartArray, AcceptElements(elements) + end, writer);
    assert elements[0..] == elements;
    for i := 0 to |elements|
      invariant WriteAll(writer.Now(), AcceptElements(elements[i..]) + end) == goal
    {
      ghost var rest := AcceptElements(elements[i..][1..]) + end;
      assert elements[i..][1..] == elements[i + 1..];
      assert AcceptElements(elements[i..]) + end == Accept(elements[i]) + rest;
      WriteAppend(writer.Now(), Accept(elements[i]), rest);
      AcceptBy(elements[i], writer);
    }
    assert AcceptElements(elements[|elements|..]) + end == end + [];
    SendFirst(EndArray(|elements|), [], writer);
    WriteNone(writer.Now());
  }

  // ----- Events in -----

  /** Names and values of members alternate on the stack. */
  function Pairs(values: seq<Value>): Option<seq<Member>> {
    if values == [] then Some([])
    else if |values| == 1 || !values[0].StringValue? then None
    else
      match Pairs(values[2..])
      case None => None
      case Some(rest) => Some([Member(values[0].s, values[1])] + rest)
  }

  /** The document's stack after one more event; None where the events do not fit together. */
  function Put(stack: seq<Value>, e: Event): Option<seq<Value>> {
    match e
    case Null => Some(stack + [NullValue])
    case Bool(b) => Some(stack + [BoolValue(b)])
    case Number(number) => Some(stack + [NumberValue(number)])
    case String(s) => Some(stack + [StringValue(s)])
    case Key(s) => Some(stack + [StringValue(s)])
    case StartObject => Some(stack + [ObjectValue([])])
    case StartArray => Some(stack + [ArrayValue([])])
    case EndObject(n) =>
      if |stack| < 2 * n + 1 then None else
        var k := |stack| - 2 * n;
        (match Pairs(stack[k..])
         case None => None
         case Some(members) => Some(stack[..k - 1] + [ObjectValue(members)]))
    case EndArray(n) =>
      if |stack| < n + 1 then None else
        var k := |stack| - n;
        Some(stack[..k - 1] + [ArrayValue(stack[k..])])
  }

  function PutAll(stack: seq<Value>, events: seq<Event>): Option<seq<Value>> {
    if events == [] then Some(stack) else
      match PutAll(stack, events[..|events| - 1])
      case None => None
      case Some(now) => Put(now, events[|events| - 1])
  }

  class Document {
    var stack: seq<Value>

    constructor ()
      ensures stack == []
    {
      stack := [];
    }

    method Handle(e: Event)
      requires Put(stack, e).Some?
      modifies this
      ensures Some(stack) == Put(old(stack), e)
    {
      match e {
        case Null => stack := stack + [NullValue];
        case Bool(b) => stack := stack + [BoolValue(b)];
        case Number(number) => stack := stack + [NumberValue(number)];
        case String(s) => stack := stack + [StringValue(s)];
        case Key(s) => stack := stack + [StringValue(s)];
        case StartObject => stack := stack + [ObjectValue([])];
        case StartArray => stack := stack + [ArrayValue([])];
        case EndObject(n) =>
          var k := |stack| - 2 * n;
          var members := Pairs(stack[k..]).value;
          assert stack[..k][..k - 1] == stack[..k - 1];
          stack := stack[..k];
          stack := stack[..|stack| - 1] + [ObjectValue(members)];
        case EndArray(n) =>
          var k := |stack| - n;
          var elements := stack[k..];
          assert stack[..k][..k - 1] == stack[..k - 1];
          stack := stack[..k];
          stack := stack[..|stack| - 1] + [ArrayValue(elements)];
      }
    }

    method HandleAll(events: seq<Event>)
      requires PutAll(stack, events).Some?
      modifies this
      ensures Some(stack) == PutAll(old(stack), events)
    {
      hide Put;
      for i := 0 to |events|
        invariant PutAll(old(stack), events[..i]) == Some(stack)
      {
        PutPrefix(old(stack), events, i + 1);
        assert events[..i + 1][..i] == events[..i];
        Handle(events[i]);
      }
      assert events[..|events|] == events;
    }
  }

  lemma {:induction false} PutPrefix(stack: seq<Value>, events: seq<Event>, n: nat)
    requires n <= |events| && PutAll(stack, events).Some?
    ensures PutAll(stack, events[..n]).Some?
    decreases |events|
  {
    hide Put;
    if n < |events| {
      PutPrefix(stack, events[..|events| - 1], n);
      assert events[..|events| - 1][..n] == events[..n];
    } else {
      assert events[..n] == events;
    }
  }

  lemma {:induction false} PutAppend(stack: seq<Value>, a: seq<Event>, b: seq<Event>)
    ensures PutAll(stack, a + b) == match PutAll(stack, a) { case None => None case Some(m) => PutAll(m, b) }
    decreases |b|
  {
    hide Put;
    if b == [] {
      assert a + b == a;
    } else {
      assert (a + b)[..|a + b| - 1] == a + b[..|b| - 1];
      PutAppend(stack, a, b[..|b| - 1]);
    }
  }

  lemma PutOne(stack: seq<Value>, e: Event)
    ensures PutAll(stack, [e]) == Put(stack, e)
  {
    assert [e][..0] == [];
  }

  function Flat(members: seq<Member>): (r: seq<Value>)
    ensures |r| == 2 * |members|
  {
    if members == [] then [] else [StringValue(members[0].name), members[0].value] + Flat(members[1..])
  }

  lemma {:induction false} PairsOfFlat(members: seq<Member>)
    ensures Pairs(Flat(members)) == Some(members)
  {
    if members != [] {
      PairsOfFlat(members[1..]);
      assert Flat(members)[2..] == Flat(members[1..]);
      assert members == [Member(members[0].name, members[0].value)] + members[1..];
    }
  }

  /** The events of a value push exactly that value. */
  lemma {:induction false} ValueBuilds(stack: seq<Value>, v: Value)
    ensures PutAll(stack, Accept(v)) == Some(stack + [v])
    decreases v, 1
  {
    hide PutAll, AcceptMembers, AcceptElements;
    match v {
      case ObjectValue(members) =>
        var start := stack + [ObjectValue([])];
        PutAppend(stack, [StartObject] + AcceptMembers(members), [EndObject(|members|)]);
        PutAppend(stack, [StartObject], AcceptMembers(members));
        PutOne(stack, StartObject);
        MembersBuild(start, members);
        PutOne(start + Flat(members), EndObject(|members|));
        ObjectCloses(stack, members);
      case ArrayValue(elements) =>
        var start := stack + [ArrayValue([])];
        PutAppend(stack, [StartArray] + AcceptElements(elements), [EndArray(|elements|)]);
        PutAppend(stack, [StartArray], AcceptElements(elements));
        PutOne(stack, StartArray);
        ElementsBuild(start, elements);
        PutOne(start + elements, EndArray(|elements|));
        ArrayCloses(stack, elements);
      case _ =>
        PutOne(stack, Accept(v)[0]);
    }
  }

  lemma ObjectCloses(stack: seq<Value>, members: seq<Member>)
    ensures Put(stack + [ObjectValue([])] + Flat(members), EndObject(|members|)) == Some(stack + [ObjectValue(members)])
  {
    PairsOfFlat(members);
    hide Flat, Pairs;
    Split(stack, ObjectValue([]), Flat(members));
  }

  lemma Split<T>(a: seq<T>, x: T, b: seq<T>)
    ensures var all := a + [x] + b; all[|a| + 1..] == b && all[..|a|] == a && |all| - |b| == |a| + 1
  {
  }

  lemma ArrayCloses(stack: seq<Value>, elements: seq<Value>)
    ensures Put(stack + [ArrayValue([])] + elements, EndArray(|elements|)) == Some(stack + [ArrayValue(elements)])
  {
    Split(stack, ArrayValue([]), elements);
  }

  lemma {:induction false} MembersBuild(stack: seq<Value>, members: seq<Member>)
    ensures PutAll(stack, AcceptMembers(members)) == Some(stack + Flat(members))
    decreases members, 0
  {
    if members == [] {
      assert stack + [] == stack;
    } else {
      var m, later := members[0], AcceptMembers(members[1..]);
      hide PutAll;
      PutAppend(stack, [Key(m.name)] + Accept(m.value), later);
      PutAppend(stack, [Key(m.name)], Accept(m.value));
      PutOne(stack, Key(m.name));
      var named := stack + [StringValue(m.name)];
      ValueBuilds(named, m.value);
      MembersBuild(named + [m.value], members[1..]);
      assert named + [m.value] + Flat(members[1..]) == stack + Flat(members);
    }
  }

  lemma HeadThenTail<T>(stack: seq<T>, elements: seq<T>)
    requires elements != []
    ensures stack + [elements[0]] + elements[1..] == stack + elements
  {
  }

  lemma {:induction false} ElementsBuild(stack: seq<Value>, elements: seq<Value>)
    ensures PutAll(stack, AcceptElements(elements)) == Some(stack + elements)
    decreases elements, 0
  {
    if elements == [] {
      assert stack + [] == stack;
    } else {
      hide PutAll, Accept;
      var later := AcceptElements(elements[1..]);
      assert AcceptElements(elements) == Accept(elements[0]) + later;
      hide AcceptElements;
      PutAppend(stack, Accept(elements[0]), later);
      ValueBuilds(stack, elements[0]);
      ElementsBuild(stack + [elements[0]], elements[1..]);
      HeadThenTail(stack, elements);
    }
  }
}
