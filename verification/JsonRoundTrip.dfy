/** Writing a value and reading it back (thirdparty/rapidjson/document.h:1768-1805, 2333-2374,
    thirdparty/rapidjson/writer.h:437-463, thirdparty/rapidjson/reader.h:588-702), and the texts the
    parsers read: those of the writer, and with a comma behind the last member or element. */
module JsonRoundTrip {
  import opened Core
  import G = JsonGrammar
  import opened JsonGrammar
  import opened JsonParsers
  import opened D = JsonDocument
  import JsonReader

  // ----- Texts -----

  /** The text of a value: where a trailing comma stands is all it adds. */
  datatype Text =
    | ScalarText(scalar: D.Value)
    | ObjectText(members: seq<NamedText>, trailing: bool)
    | ArrayText(elements: seq<Text>, trailing: bool)

  datatype NamedText = NamedText(name: string, text: Text)

  /** Only scalars are left to the writer, and a trailing comma is allowed and has something before it. */
  predicate Fits(t: Text, commas: bool)
    decreases t
  {
    match t
    case ScalarText(v) => !v.ObjectValue? && !v.ArrayValue?
    case ObjectText(members, trailing) =>
      && (trailing ==> commas && members != [])
      && forall k :: 0 <= k < |members| ==> Fits(members[k].text, commas)
    case ArrayText(elements, trailing) =>
      && (trailing ==> commas && elements != [])
      && forall k :: 0 <= k < |elements| ==> Fits(elements[k], commas)
  }

  predicate MembersFit(members: seq<NamedText>, commas: bool) {
    forall k :: 0 <= k < |members| ==> Fits(members[k].text, commas)
  }

  predicate ElementsFit(elements: seq<Text>, commas: bool) {
    forall k :: 0 <= k < |elements| ==> Fits(elements[k], commas)
  }

  function ValueOf(t: Text): D.Value
    decreases t
  {
    match t
    case ScalarText(v) => v
    case ObjectText(members, _) => ObjectValue(MembersOf(members))
    case ArrayText(elements, _) => ArrayValue(ElementsOf(elements))
  }

  function MembersOf(members: seq<NamedText>): (r: seq<Member>)
    ensures |r| == |members|
    decreases members
  {
    if members == [] then [] else
      [Member(members[0].name, ValueOf(members[0].text))] + MembersOf(members[1..])
  }

  function ElementsOf(elements: seq<Text>): (r: seq<D.Value>)
    ensures |r| == |elements|
    decreases elements
  {
    if elements == [] then [] else [ValueOf(elements[0])] + ElementsOf(elements[1..])
  }

  function Render(t: Text): (r: seq<Token>)
    ensures |r| > 0
    decreases t, 0
  {
    match t
    case ScalarText(v) => Print(v)
    case ObjectText(members, trailing) => [LeftCurlyBracket] + (RenderMembers(members, true) + End(trailing, RightCurlyBracket))
    case ArrayText(elements, trailing) => [LeftBracket] + (RenderElements(elements, true) + End(trailing, RightBracket))
  }

  function End(trailing: bool, bracket: Token): seq<Token> { if trailing then [Comma, bracket] else [bracket] }

  function RenderMembers(members: seq<NamedText>, first: bool): seq<Token>
    decreases members, 0
  {
    if members == [] then [] else
      (if first then [] else [Comma])
      + ([StringToken(Read(members[0].name)), Colon] + (Render(members[0].text) + RenderMembers(members[1..], false)))
  }

  function RenderElements(elements: seq<Text>, first: bool): seq<Token>
    decreases elements, 0
  {
    if elements == [] then [] else
      (if first then [] else [Comma]) + (Render(elements[0]) + RenderElements(elements[1..], false))
  }

  /** The text the writer gives a value: no trailing comma anywhere. */
  function Plain(v: D.Value): Text
    decreases v, 0
  {
    match v
    case ObjectValue(members) => ObjectText(PlainMembers(members), false)
    case ArrayValue(elements) => ArrayText(PlainElements(elements), false)
    case _ => ScalarText(v)
  }

  function PlainMembers(members: seq<Member>): (r: seq<NamedText>)
    ensures |r| == |members|
    decreases members, 0
  {
    if members == [] then [] else [NamedText(members[0].name, Plain(members[0].value))] + PlainMembers(members[1..])
  }

  function PlainElements(elements: seq<D.Value>): (r: seq<Text>)
    ensures |r| == |elements|
    decreases elements, 0
  {
    if elements == [] then [] else [Plain(elements[0])] + PlainElements(elements[1..])
  }

  lemma {:induction false} PlainIsPrinted(v: D.Value, commas: bool)
    ensures Render(Plain(v)) == Print(v) && ValueOf(Plain(v)) == v && Fits(Plain(v), commas)
    decreases v, 1
  {
    match v {
      case ObjectValue(members) =>
        PlainMembersArePrinted(members, true, commas);
        Regroup([LeftCurlyBracket], PrintMembers(members, true), [RightCurlyBracket]);
      case ArrayValue(elements) =>
        PlainElementsArePrinted(elements, true, commas);
        Regroup([LeftBracket], PrintElements(elements, true), [RightBracket]);
      case _ =>
    }
  }

  lemma {:induction false} PlainMembersArePrinted(members: seq<Member>, first: bool, commas: bool)
    ensures RenderMembers(PlainMembers(members), first) == PrintMembers(members, first)
    ensures MembersOf(PlainMembers(members)) == members && MembersFit(PlainMembers(members), commas)
    decreases members, 1
  {
    hide Print, Render, Fits, Plain, ValueOf;
    if members != [] {
      PlainIsPrinted(members[0].value, commas);
      PlainMembersArePrinted(members[1..], false, commas);
      var ps := PlainMembers(members);
      FirstMemberOf(ps);
      OneMoreFits(ps, commas);
      var comma := if first then [] else [Comma];
      var name := [StringToken(Read(members[0].name)), Colon];
      var text, rest := Print(members[0].value), PrintMembers(members[1..], false);
      RegroupFour(comma, name, text, rest);
      assert MembersOf(ps) == [members[0]] + members[1..];
    }
  }

  lemma RegroupFour<T>(a: seq<T>, b: seq<T>, c: seq<T>, d: seq<T>)
    ensures a + (b + (c + d)) == (a + (b + c)) + d
  {
  }

  lemma OneMoreFits(members: seq<NamedText>, commas: bool)
    requires members != [] && Fits(members[0].text, commas) && MembersFit(members[1..], commas)
    ensures MembersFit(members, commas)
  {
    hide Fits;
    assert forall k :: 1 <= k < |members| ==> members[k] == members[1..][k - 1];
  }

  lemma {:induction false} PlainElementsArePrinted(elements: seq<D.Value>, first: bool, commas: bool)
    ensures RenderElements(PlainElements(elements), first) == PrintElements(elements, first)
    ensures ElementsOf(PlainElements(elements)) == elements && ElementsFit(PlainElements(elements), commas)
    decreases elements, 1
  {
    hide Print, Render, Fits, Plain, ValueOf;
    if elements != [] {
      PlainIsPrinted(elements[0], commas);
      PlainElementsArePrinted(elements[1..], false, commas);
      var ps := PlainElements(elements);
      assert ps[0] == Plain(elements[0]) && ps[1..] == PlainElements(elements[1..]);
      assert ElementsFit(ps, commas) by { assert forall k :: 1 <= k < |ps| ==> ps[k] == ps[1..][k - 1]; }
      var comma := if first then [] else [Comma];
      var text, rest := Print(elements[0]), PrintElements(elements[1..], false);
      assert comma + (text + rest) == (comma + text) + rest;
    }
  }

  /** Without trailing commas a value has one text only. */
  lemma {:induction false} FittingIsPlain(t: Text)
    requires Fits(t, false)
    ensures t == Plain(ValueOf(t))
    decreases t, 1
  {
    match t {
      case ScalarText(v) =>
      case ObjectText(members, trailing) => MembersArePlain(members);
      case ArrayText(elements, trailing) => ElementsArePlain(elements);
    }
  }

  lemma {:induction false} MembersArePlain(members: seq<NamedText>)
    requires MembersFit(members, false)
    ensures members == PlainMembers(MembersOf(members))
    decreases members, 0
  {
    hide Fits, Plain, ValueOf;
    if members != [] {
      FittingIsPlain(members[0].text);
      RestFits(members, false);
      MembersArePlain(members[1..]);
      FirstMemberOf(members);
      hide MembersOf, MembersFit;
      assert members == [members[0]] + members[1..];
    }
  }

  lemma RestFits(members: seq<NamedText>, commas: bool)
    requires members != [] && MembersFit(members, commas)
    ensures Fits(members[0].text, commas) && MembersFit(members[1..], commas)
  {
    hide Fits;
  }

  lemma FirstMemberOf(members: seq<NamedText>)
    requires members != []
    ensures MembersOf(members)[0] == Member(members[0].name, ValueOf(members[0].text))
    ensures MembersOf(members)[1..] == MembersOf(members[1..])
  {
    hide ValueOf;
  }

  lemma {:induction false} ElementsArePlain(elements: seq<Text>)
    requires ElementsFit(elements, false)
    ensures elements == PlainElements(ElementsOf(elements))
    decreases elements, 0
  {
    if elements != [] {
      FittingIsPlain(elements[0]);
      assert ElementsFit(elements[1..], false);
      ElementsArePlain(elements[1..]);
      assert ElementsOf(elements)[0] == ValueOf(elements[0]) && ElementsOf(elements)[1..] == ElementsOf(elements[1..]);
      assert elements == [elements[0]] + elements[1..];
    }
  }

  // ----- Parsing the text of a value -----

  ghost predicate NeverStops(x: Parse) {
    forall events :: x.goesOn(events)
  }

  /** The text starts at the cursor. */
  ghost predicate At(x: Parse, p: Progress, text: seq<Token>) {
    && p.error.None? && p.position + |text| <= |x.tokens|
    && forall k :: 0 <= k < |text| ==> x.tokens[p.position + k] == text[k]
  }

  /** Past the text, with the events sent. */
  function After(p: Progress, text: seq<Token>, events: seq<Event>): Progress {
    Progress(p.position + |text|, p.events + events, p.error)
  }

  lemma AtParts(x: Parse, p: Progress, a: seq<Token>, b: seq<Token>, events: seq<Event>)
    requires At(x, p, a + b)
    ensures At(x, p, a) && At(x, After(p, a, events), b)
  {
    assert forall k :: 0 <= k < |a| ==> (a + b)[k] == a[k];
    forall k | 0 <= k < |b| ensures x.tokens[p.position + |a| + k] == b[k] {
      assert (a + b)[|a| + k] == b[k];
    }
  }

  lemma NoError(x: Parse, p: Progress, text: seq<Token>)
    requires At(x, p, text)
    ensures p.error.None?
  {
  }

  lemma TokenAt(x: Parse, p: Progress, text: seq<Token>, k: nat)
    requires At(x, p, text) && k < |text|
    ensures p.position + k < |x.tokens| && x.tokens[p.position + k] == text[k]
  {
  }

  lemma Regroup<T>(a: seq<T>, b: seq<T>, c: seq<T>)
    ensures a + b + c == a + (b + c)
  {
  }

  /** The text of at least one member, split after the name, after the value, and after a comma. */
  lemma MembersSplit(members: seq<NamedText>, end: seq<Token>)
    requires members != []
    ensures var m, rest := members[0], RenderMembers(members[1..], false) + end;
            RenderMembers(members, true) + end == [StringToken(Read(m.name)), Colon] + (Render(m.text) + rest)
    ensures RenderMembers(members, false) + end == [Comma] + (RenderMembers(members, true) + end)
  {
    var m, others := members[0], RenderMembers(members[1..], false);
    var name := [StringToken(Read(m.name)), Colon];
    var text := name + (Render(m.text) + others);
    assert RenderMembers(members, true) == [] + text && RenderMembers(members, false) == [Comma] + text;
    hide Render, RenderMembers;
    assert [] + text == text;
    Regroup(name, Render(m.text) + others, end);
    Regroup(Render(m.text), others, end);
    Regroup([Comma], text, end);
  }

  lemma MemberEventsSplit(members: seq<NamedText>, end: seq<Event>)
    requires members != []
    ensures AcceptMembers(MembersOf(members)) + end ==
            [Key(members[0].name)] + (Accept(ValueOf(members[0].text)) + (AcceptMembers(MembersOf(members[1..])) + end))
  {
    hide Accept, ValueOf;
    var ms := MembersOf(members);
    FirstMemberOf(members);
    var m, others := ms[0], AcceptMembers(ms[1..]);
    Regroup([Key(m.name)] + Accept(m.value), others, end);
    Regroup([Key(m.name)], Accept(m.value), others + end);
  }

  lemma ElementsSplit(elements: seq<Text>, end: seq<Token>)
    requires elements != []
    ensures RenderElements(elements, true) + end == Render(elements[0]) + (RenderElements(elements[1..], false) + end)
    ensures RenderElements(elements, false) + end == [Comma] + (RenderElements(elements, true) + end)
  {
    var text := Render(elements[0]) + RenderElements(elements[1..], false);
    assert RenderElements(elements, true) == [] + text && RenderElements(elements, false) == [Comma] + text;
    assert [] + text == text;
    Regroup(Render(elements[0]), RenderElements(elements[1..], false), end);
    Regroup([Comma], text, end);
  }

  lemma ElementEventsSplit(elements: seq<Text>, end: seq<Event>)
    requires elements != []
    ensures AcceptElements(ElementsOf(elements)) + end ==
            Accept(ValueOf(elements[0])) + (AcceptElements(ElementsOf(elements[1..])) + end)
  {
    var vs := ElementsOf(elements);
    assert vs[0] == ValueOf(elements[0]) && vs[1..] == ElementsOf(elements[1..]);
    Regroup(Accept(vs[0]), AcceptElements(vs[1..]), end);
  }

  lemma AfterTwice(p: Progress, a: seq<Token>, e: seq<Event>, b: seq<Token>, f: seq<Event>)
    ensures After(After(p, a, e), b, f) == After(p, a + b, e + f)
  {
    assert p.events + e + f == p.events + (e + f);
  }

  lemma RenderStarts(t: Text)
    requires Fits(t, true)
    ensures StartsValue(Render(t)[0])
  {
  }

  lemma {:induction false} FitsMore(t: Text, commas: bool)
    requires Fits(t, commas)
    ensures Fits(t, true)
    decreases t
  {
    match t {
      case ScalarText(v) =>
      case ObjectText(members, trailing) => forall k | 0 <= k < |members| ensures Fits(members[k].text, true) { FitsMore(members[k].text, commas); }
      case ArrayText(elements, trailing) => forall k | 0 <= k < |elements| ensures Fits(elements[k], true) { FitsMore(elements[k], commas); }
    }
  }

  /** One token that stands for an event. */
  lemma TokenSends(x: Parse, p: Progress, e: Event)
    requires NeverStops(x) && p.error.None?
    ensures Send(x, Take(p), e) == After(p, [TokenOf(e)], [e])
    ensures Send(x, p, e) == After(p, [], [e]) && SendThenTake(x, p, e) == After(p, [TokenOf(e)], [e])
  {
  }

  /** Where a text stands that fits the flag, the parser reads it and sends the events of its value. */
  lemma {:induction false} TextParses(x: Parse, p: Progress, t: Text)
    requires NeverStops(x) && Fits(t, x.trailingCommas) && At(x, p, Render(t))
    ensures G.Value(x, p) == After(p, Render(t), Accept(ValueOf(t)))
    decreases t, 1
  {
    TokenAt(x, p, Render(t), 0);
    hide G.Object, G.Array, RenderMembers, RenderElements, AcceptMembers, AcceptElements, MembersOf, ElementsOf;
    match t {
      case ObjectText(members, trailing) => ObjectParses(x, p, members, trailing);
      case ArrayText(elements, trailing) => ArrayParses(x, p, elements, trailing);
      case ScalarText(v) => TokenSends(x, p, Accept(v)[0]);
    }
  }

  lemma {:induction false} ObjectParses(x: Parse, p: Progress, members: seq<NamedText>, trailing: bool)
    requires NeverStops(x) && MembersFit(members, x.trailingCommas) && (trailing ==> x.trailingCommas && members != [])
    requires At(x, p, [LeftCurlyBracket] + (RenderMembers(members, true) + End(trailing, RightCurlyBracket)))
    ensures Next(x, p, LeftCurlyBracket)
    ensures G.Object(x, p) ==
            After(p, [LeftCurlyBracket] + (RenderMembers(members, true) + End(trailing, RightCurlyBracket)),
                  [StartObject] + AcceptMembers(MembersOf(members)) + [EndObject(|members|)])
    decreases members, 2
  {
    hide G.Members;
    var text := RenderMembers(members, true) + End(trailing, RightCurlyBracket);
    AtParts(x, p, [LeftCurlyBracket], text, [StartObject]);
    TokenSends(x, p, StartObject);
    var q := After(p, [LeftCurlyBracket], [StartObject]);
    TokenAt(x, p, [LeftCurlyBracket], 0);
    TokenAt(x, q, text, 0);
    if members == [] {
      TokenSends(x, q, EndObject(0));
      AfterTwice(p, [LeftCurlyBracket], [StartObject], [RightCurlyBracket], [EndObject(0)]);
      assert text == [RightCurlyBracket];
      assert [StartObject] + AcceptMembers(MembersOf(members)) + [EndObject(0)] == [StartObject] + [EndObject(0)];
    } else {
      MembersSplit(members, End(trailing, RightCurlyBracket));
      MembersParse(x, q, members, trailing, 0);
      AfterTwice(p, [LeftCurlyBracket], [StartObject], text, AcceptMembers(MembersOf(members)) + [EndObject(|members|)]);
      Regroup([StartObject], AcceptMembers(MembersOf(members)), [EndObject(|members|)]);
    }
  }

  lemma {:induction false} MembersParse(x: Parse, p: Progress, members: seq<NamedText>, trailing: bool, n: nat)
    requires NeverStops(x) && MembersFit(members, x.trailingCommas) && (trailing ==> x.trailingCommas)
    requires members != [] && At(x, p, RenderMembers(members, true) + End(trailing, RightCurlyBracket))
    ensures G.Members(x, p, n) == After(p, RenderMembers(members, true) + End(trailing, RightCurlyBracket),
                                        AcceptMembers(MembersOf(members)) + [EndObject(n + |members|)])
    decreases members, 1
  {
    hide *;
    var bracket := End(trailing, RightCurlyBracket);
    var rest := RenderMembers(members[1..], false) + bracket;
    RestFits(members, x.trailingCommas);
    MembersSplit(members, bracket);
    RestStarts(members[1..], trailing);
    OneMember(x, p, members[0], rest, n);
    RestParses(x, AfterOne(p, members[0]), members[1..], trailing, n + 1);
    MembersTogether(p, members, bracket, [EndObject(n + |members|)]);
  }

  /** Past a member. */
  function AfterOne(p: Progress, m: NamedText): Progress {
    After(After(p, [StringToken(Read(m.name)), Colon], [Key(m.name)]), Render(m.text), Accept(ValueOf(m.text)))
  }

  lemma RestStarts(members: seq<NamedText>, trailing: bool)
    ensures var rest := RenderMembers(members, false) + End(trailing, RightCurlyBracket);
            rest != [] && rest[0] in {Comma, RightCurlyBracket}
  {
    hide Render;
  }

  lemma {:induction false} OneMember(x: Parse, p: Progress, m: NamedText, rest: seq<Token>, n: nat)
    requires NeverStops(x) && Fits(m.text, x.trailingCommas) && rest != [] && rest[0] in {Comma, RightCurlyBracket}
    requires At(x, p, [StringToken(Read(m.name)), Colon] + (Render(m.text) + rest))
    ensures At(x, AfterOne(p, m), rest) && G.Members(x, p, n) == AfterMember(x, AfterOne(p, m), n + 1)
    decreases m
  {
    FitsMore(m.text, x.trailingCommas);
    RenderStarts(m.text);
    hide Render, Accept, G.AfterMember, G.Value, G.Members, ValueOf, Fits, At, StartsValue, NeverStops;
    var name, value := [StringToken(Read(m.name)), Colon], Render(m.text);
    NoError(x, p, name + (value + rest));
    AtParts(x, p, name, value + rest, [Key(m.name)]);
    var start := After(p, name, [Key(m.name)]);
    AtParts(x, start, value, rest, Accept(ValueOf(m.text)));
    TextParses(x, start, m.text);
    NamedValue(x, p, m.name, value, n, AfterOne(p, m), rest);
  }

  /** The name, the value and the rest of the text, one behind the other. */
  lemma MembersTogether(p: Progress, members: seq<NamedText>, bracket: seq<Token>, end: seq<Event>)
    requires members != []
    ensures var m, others := members[0], members[1..];
            After(AfterOne(p, m), RenderMembers(others, false) + bracket, AcceptMembers(MembersOf(others)) + end) ==
            After(p, RenderMembers(members, true) + bracket, AcceptMembers(MembersOf(members)) + end)
  {
    hide Render, Accept, RenderMembers, AcceptMembers, MembersOf, ValueOf;
    var m, others := members[0], members[1..];
    MembersSplit(members, bracket);
    MemberEventsSplit(members, end);
    var name, value, rest := [StringToken(Read(m.name)), Colon], Render(m.text), RenderMembers(others, false) + bracket;
    var events, later := Accept(ValueOf(m.text)), AcceptMembers(MembersOf(others)) + end;
    AfterTwice(After(p, name, [Key(m.name)]), value, events, rest, later);
    AfterTwice(p, name, [Key(m.name)], value + rest, events + later);
  }

  /** A name, a colon and a value. */
  lemma NamedValue(x: Parse, p: Progress, name: string, value: seq<Token>, n: nat, done: Progress, rest: seq<Token>)
    requires NeverStops(x) && p.error.None? && done.error.None? && value != [] && StartsValue(value[0])
    requires At(x, p, [StringToken(Read(name)), Colon])
    requires var start := After(p, [StringToken(Read(name)), Colon], [Key(name)]);
             At(x, start, value) && G.Value(x, start) == done
    requires rest != [] && rest[0] != BadComment && At(x, done, rest)
    ensures G.Members(x, p, n) == AfterMember(x, done, n + 1)
  {
    hide G.AfterMember, G.Value;
    var start := After(p, [StringToken(Read(name)), Colon], [Key(name)]);
    TokenAt(x, p, [StringToken(Read(name)), Colon], 0);
    TokenAt(x, p, [StringToken(Read(name)), Colon], 1);
    TokenAt(x, start, value, 0);
    TokenAt(x, done, rest, 0);
    assert Take(MemberKey(x, p)) == start;
  }

  lemma {:induction false} RestParses(x: Parse, p: Progress, members: seq<NamedText>, trailing: bool, n: nat)
    requires NeverStops(x) && MembersFit(members, x.trailingCommas) && (trailing ==> x.trailingCommas)
    requires At(x, p, RenderMembers(members, false) + End(trailing, RightCurlyBracket))
    ensures AfterMember(x, p, n) == After(p, RenderMembers(members, false) + End(trailing, RightCurlyBracket),
                                          AcceptMembers(MembersOf(members)) + [EndObject(n + |members|)])
    decreases members, 2
  {
    hide G.Members, Render, Accept, Fits;
    var bracket, end := End(trailing, RightCurlyBracket), EndObject(n + |members|);
    if members == [] {
      assert RenderMembers(members, false) + bracket == bracket && AcceptMembers(MembersOf(members)) + [end] == [end];
      ObjectEnds(x, p, trailing, n);
    } else {
      var later := RenderMembers(members, true) + bracket;
      MembersSplit(members, bracket);
      AtParts(x, p, [Comma], later, []);
      var q := After(p, [Comma], []);
      assert q == Take(p) by { assert p.events + [] == p.events; }
      TokenAt(x, p, [Comma], 0);
      TokenAt(x, q, later, 0);
      hide RenderMembers, AcceptMembers, MembersOf;
      MembersParse(x, q, members, trailing, n);
      AfterTwice(p, [Comma], [], later, AcceptMembers(MembersOf(members)) + [end]);
      assert [] + (AcceptMembers(MembersOf(members)) + [end]) == AcceptMembers(MembersOf(members)) + [end];
    }
  }

  lemma ObjectEnds(x: Parse, p: Progress, trailing: bool, n: nat)
    requires NeverStops(x) && (trailing ==> x.trailingCommas) && At(x, p, End(trailing, RightCurlyBracket))
    ensures AfterMember(x, p, n) == After(p, End(trailing, RightCurlyBracket), [EndObject(n)])
  {
    hide G.Members;
    TokenAt(x, p, End(trailing, RightCurlyBracket), 0);
    TokenSends(x, p, EndObject(n));
    if trailing {
      TokenAt(x, p, End(trailing, RightCurlyBracket), 1);
      TokenSends(x, Take(p), EndObject(n));
    }
  }

  lemma {:induction false} ArrayParses(x: Parse, p: Progress, elements: seq<Text>, trailing: bool)
    requires NeverStops(x) && ElementsFit(elements, x.trailingCommas) && (trailing ==> x.trailingCommas && elements != [])
    requires At(x, p, [LeftBracket] + (RenderElements(elements, true) + End(trailing, RightBracket)))
    ensures Next(x, p, LeftBracket)
    ensures G.Array(x, p) ==
            After(p, [LeftBracket] + (RenderElements(elements, true) + End(trailing, RightBracket)),
                  [StartArray] + AcceptElements(ElementsOf(elements)) + [EndArray(|elements|)])
    decreases elements, 3
  {
    hide G.Elements, Render, Accept, Fits;
    var text := RenderElements(elements, true) + End(trailing, RightBracket);
    AtParts(x, p, [LeftBracket], text, [StartArray]);
    TokenSends(x, p, StartArray);
    var q := After(p, [LeftBracket], [StartArray]);
    TokenAt(x, p, [LeftBracket], 0);
    TokenAt(x, q, text, 0);
    if elements == [] {
      TokenSends(x, q, EndArray(0));
      AfterTwice(p, [LeftBracket], [StartArray], [RightBracket], [EndArray(0)]);
      assert text == [RightBracket];
      assert [StartArray] + AcceptElements(ElementsOf(elements)) + [EndArray(0)] == [StartArray] + [EndArray(0)];
    } else {
      FitsMore(elements[0], x.trailingCommas);
      RenderStarts(elements[0]);
      ElementsSplit(elements, End(trailing, RightBracket));
      assert text[0] == Render(elements[0])[0];
      hide RenderElements, AcceptElements, ElementsOf, End, At;
      ElementsParse(x, q, elements, trailing, 0);
      AfterTwice(p, [LeftBracket], [StartArray], text, AcceptElements(ElementsOf(elements)) + [EndArray(|elements|)]);
      Regroup([StartArray], AcceptElements(ElementsOf(elements)), [EndArray(|elements|)]);
    }
  }

  lemma {:induction false} ElementsParse(x: Parse, p: Progress, elements: seq<Text>, trailing: bool, n: nat)
    requires NeverStops(x) && ElementsFit(elements, x.trailingCommas) && (trailing ==> x.trailingCommas)
    requires elements != [] && At(x, p, RenderElements(elements, true) + End(trailing, RightBracket))
    ensures G.Elements(x, p, n) == After(p, RenderElements(elements, true) + End(trailing, RightBracket),
                                         AcceptElements(ElementsOf(elements)) + [EndArray(n + |elements|)])
    decreases elements, 1
  {
    hide G.AfterElement, G.Value, Render, Accept, RenderElements, AcceptElements, ElementsOf, ValueOf, Fits, End;
    var bracket := End(trailing, RightBracket);
    var t, others, end := elements[0], elements[1..], EndArray(n + |elements|);
    var rest, events := RenderElements(others, false) + bracket, Accept(ValueOf(t));
    ElementsSplit(elements, bracket);
    ElementEventsSplit(elements, [end]);
    AtParts(x, p, Render(t), rest, events);
    TextParses(x, p, t);
    var done := After(p, Render(t), events);
    RestElementsParse(x, done, others, trailing, n + 1);
    TokenAt(x, done, rest, 0);
    AfterTwice(p, Render(t), events, rest, AcceptElements(ElementsOf(others)) + [end]);
  }

  lemma {:induction false} RestElementsParse(x: Parse, p: Progress, elements: seq<Text>, trailing: bool, n: nat)
    requires NeverStops(x) && ElementsFit(elements, x.trailingCommas) && (trailing ==> x.trailingCommas)
    requires At(x, p, RenderElements(elements, false) + End(trailing, RightBracket))
    ensures AfterElement(x, p, n) == After(p, RenderElements(elements, false) + End(trailing, RightBracket),
                                           AcceptElements(ElementsOf(elements)) + [EndArray(n + |elements|)])
    ensures (RenderElements(elements, false) + End(trailing, RightBracket))[0] in {Comma, RightBracket}
    decreases elements, 2
  {
    hide G.Elements, Accept;
    var bracket, end := End(trailing, RightBracket), EndArray(n + |elements|);
    if elements == [] {
      assert RenderElements(elements, false) + bracket == bracket && AcceptElements(ElementsOf(elements)) + [end] == [end];
      ArrayEnds(x, p, trailing, n);
    } else {
      FitsMore(elements[0], x.trailingCommas);
      RenderStarts(elements[0]);
      var later := RenderElements(elements, true) + bracket;
      ElementsSplit(elements, bracket);
      AtParts(x, p, [Comma], later, []);
      var q := After(p, [Comma], []);
      assert q == Take(p) by { assert p.events + [] == p.events; }
      TokenAt(x, p, [Comma], 0);
      TokenAt(x, q, later, 0);
      assert later[0] == Render(elements[0])[0];
      hide Render, RenderElements, AcceptElements, ElementsOf, Fits;
      ElementsParse(x, q, elements, trailing, n);
      AfterTwice(p, [Comma], [], later, AcceptElements(ElementsOf(elements)) + [end]);
      assert [] + (AcceptElements(ElementsOf(elements)) + [end]) == AcceptElements(ElementsOf(elements)) + [end];
    }
  }

  lemma ArrayEnds(x: Parse, p: Progress, trailing: bool, n: nat)
    requires NeverStops(x) && (trailing ==> x.trailingCommas) && At(x, p, End(trailing, RightBracket))
    ensures AfterElement(x, p, n) == After(p, End(trailing, RightBracket), [EndArray(n)])
  {
    hide G.Elements;
    TokenAt(x, p, End(trailing, RightBracket), 0);
    TokenSends(x, p, EndArray(n));
    if trailing {
      TokenAt(x, p, End(trailing, RightBracket), 1);
      TokenSends(x, Take(p), EndArray(n));
    }
  }

  // ----- The round trip -----

  /** The tokens are this text; only a parse that stops when done ignores what follows. */
  ghost predicate IsText(x: Parse, t: Text) {
    && Fits(t, x.trailingCommas)
    && |Render(t)| <= |x.tokens|
    && x.tokens[..|Render(t)|] == Render(t)
    && (x.stopWhenDone || |x.tokens| == |Render(t)|)
  }

  /** A text is accepted, by both parsers, with the events of its value. */
  lemma TextIsAccepted(x: Parse, t: Text)
    requires NeverStops(x) && IsText(x, t)
    ensures RecursiveParse(x) == IterativeParse(x) == Result(Accept(ValueOf(t)), None, 0)
  {
    var start := Progress(0, [], None);
    FitsMore(t, x.trailingCommas);
    RenderStarts(t);
    assert forall k :: 0 <= k < |Render(t)| ==> x.tokens[..|Render(t)|][k] == x.tokens[k];
    TextParses(x, start, t);
    ParsersAgreeIff(x);
    hide Render, Accept, G.Value, Fits;
    assert [] + Accept(ValueOf(t)) == Accept(ValueOf(t));
  }

  /** Writes a value, reads the text with either parser, and builds a value again: the same one. */
  method WriteThenRead(v: D.Value, iterative: bool, trailingCommas: bool, stopWhenDone: bool)
    returns (text: seq<Token>, complete: bool, back: D.Value)
    ensures text == Print(v) && complete && back == v
  {
    hide Print, Accept, Put, Write, Render, Fits, ValueOf, Plain;
    var writer := new Writer();
    ValueWrites(writer.Now(), v);
    AcceptBy(v, writer);
    text, complete := writer.output, writer.IsComplete();
    assert [] + [] + Print(v) == Print(v);
    var x := Parse(text, trailingCommas, stopWhenDone, _ => true);
    var events, error, _ := JsonReader.ParseDocument(x, iterative);
    PlainIsPrinted(v, trailingCommas);
    assert x.tokens[..|Print(v)|] == Print(v);
    TextIsAccepted(x, Plain(v));
    assert events == Accept(v);
    var document := new Document();
    ValueBuilds([], v);
    document.HandleAll(events);
    back := document.stack[0];
  }
}
