/** What the parsers accept is exactly the texts of values (thirdparty/rapidjson/reader.h:485-702,
    1482-1854; the grammar of section 2 of RFC 4627), with a comma behind the last member or element
    where the flag allows it. */
module JsonAcceptance {
  import opened Core
  import G = JsonGrammar
  import opened JsonGrammar
  import opened JsonParsers
  import opened D = JsonDocument
  import opened JsonRoundTrip

  lemma AtJoin(x: Parse, p: Progress, a: seq<Token>, b: seq<Token>, events: seq<Event>)
    requires At(x, p, a) && At(x, After(p, a, events), b)
    ensures At(x, p, a + b)
  {
    forall k | 0 <= k < |a + b| ensures x.tokens[p.position + k] == (a + b)[k] {
      if k >= |a| { assert x.tokens[p.position + |a| + (k - |a|)] == b[k - |a|]; }
    }
  }

  /** What is parsed as a value is a text, and sends the events of its value. */
  lemma {:induction false} ParsedIsText(x: Parse, p: Progress) returns (t: Text)
    requires NeverStops(x) && p.error.None? && G.Value(x, p).error.None?
    ensures Fits(t, x.trailingCommas) && At(x, p, Render(t))
    ensures G.Value(x, p) == After(p, Render(t), Accept(ValueOf(t)))
    decreases |x.tokens| - p.position, 3
  {
    hide RenderMembers, RenderElements, AcceptMembers, AcceptElements, G.Object, G.Array;
    if Next(x, p, LeftCurlyBracket) {
      var members, trailing := ObjectIsText(x, p);
      t := ObjectText(members, trailing);
    } else if Next(x, p, LeftBracket) {
      var elements, trailing := ArrayIsText(x, p);
      t := ArrayText(elements, trailing);
    } else {
      t := ScalarIsText(x, p);
    }
    TextParses(x, p, t);
  }

  lemma ScalarIsText(x: Parse, p: Progress) returns (t: Text)
    requires p.error.None? && Scalar(x, p).error.None?
    ensures Fits(t, x.trailingCommas) && At(x, p, Render(t))
  {
    var token := x.tokens[p.position];
    match token
    case StringToken(text) => t := ScalarText(StringValue(text.value));
    case FalseToken(f) => t := ScalarText(BoolValue(false)); assert f.value == ();
    case TrueToken(b) => t := ScalarText(BoolValue(true)); assert b.value == ();
    case NullToken(n) => t := ScalarText(NullValue); assert n.value == ();
    case NumberToken(number) => t := ScalarText(NumberValue(number.value));
    case _ => assert false;
  }

  lemma {:induction false} ObjectIsText(x: Parse, p: Progress) returns (members: seq<NamedText>, trailing: bool)
    requires NeverStops(x) && p.error.None? && Next(x, p, LeftCurlyBracket) && G.Object(x, p).error.None?
    ensures MembersFit(members, x.trailingCommas) && (trailing ==> x.trailingCommas && members != [])
    ensures At(x, p, [LeftCurlyBracket] + (RenderMembers(members, true) + End(trailing, RightCurlyBracket)))
    decreases |x.tokens| - p.position, 2
  {
    hide G.Members;
    TokenSends(x, p, StartObject);
    var q := After(p, [LeftCurlyBracket], [StartObject]);
    if Next(x, q, RightCurlyBracket) {
      members, trailing := [], false;
      assert RenderMembers([], true) + End(false, RightCurlyBracket) == [RightCurlyBracket];
      AtJoin(x, p, [LeftCurlyBracket], [RightCurlyBracket], [StartObject]);
    } else {
      members, trailing := MembersAreText(x, q, 0);
      AtJoin(x, p, [LeftCurlyBracket], RenderMembers(members, true) + End(trailing, RightCurlyBracket), [StartObject]);
    }
  }

  lemma {:induction false} MembersAreText(x: Parse, p: Progress, count: nat) returns (members: seq<NamedText>, trailing: bool)
    requires NeverStops(x) && p.error.None? && G.Members(x, p, count).error.None?
    ensures members != [] && MembersFit(members, x.trailingCommas) && (trailing ==> x.trailingCommas)
    ensures At(x, p, RenderMembers(members, true) + End(trailing, RightCurlyBracket))
    decreases |x.tokens| - p.position, 1
  {
    hide G.Value, G.AfterMember, Render, Accept, RenderMembers, Fits, ValueOf, End;
    var name := x.tokens[p.position].text.value;
    var head := [StringToken(Read(name)), Colon];
    var start := After(p, head, [Key(name)]);
    assert Take(MemberKey(x, p)) == start;
    assert At(x, p, head);
    var t := ParsedIsText(x, start);
    var events := Accept(ValueOf(t));
    var done := After(start, Render(t), events);
    var others;
    others, trailing := MoreMembersAreText(x, done, count + 1);
    var rest := RenderMembers(others, false) + End(trailing, RightCurlyBracket);
    AtJoin(x, start, Render(t), rest, events);
    AtJoin(x, p, head, Render(t) + rest, [Key(name)]);
    members := [NamedText(name, t)] + others;
    assert members[0] == NamedText(name, t) && members[1..] == others;
    MembersSplit(members, End(trailing, RightCurlyBracket));
  }

  lemma MoreMembers(x: Parse, p: Progress, members: seq<NamedText>, end: seq<Token>)
    requires p.error.None? && Next(x, p, Comma) && members != [] && At(x, Take(p), RenderMembers(members, true) + end)
    ensures At(x, p, RenderMembers(members, false) + end)
  {
    hide RenderMembers;
    assert Take(p) == After(p, [Comma], []) by { assert p.events + [] == p.events; }
    AtJoin(x, p, [Comma], RenderMembers(members, true) + end, []);
    MembersSplit(members, end);
  }

  lemma NoMembersLeft(x: Parse, p: Progress, count: nat)
    requires NeverStops(x) && p.error.None? && AfterMember(x, p, count).error.None?
    requires Next(x, p, Comma) ==> x.trailingCommas && Next(x, Take(p), RightCurlyBracket)
    ensures At(x, p, RenderMembers([], false) + End(Next(x, p, Comma), RightCurlyBracket))
  {
    hide G.Members;
    var end := End(Next(x, p, Comma), RightCurlyBracket);
    assert RenderMembers([], false) + end == end;
  }

  lemma {:induction false} MoreMembersAreText(x: Parse, p: Progress, count: nat) returns (members: seq<NamedText>, trailing: bool)
    requires NeverStops(x) && p.error.None? && AfterMember(x, p, count).error.None?
    ensures MembersFit(members, x.trailingCommas) && (trailing ==> x.trailingCommas)
    ensures At(x, p, RenderMembers(members, false) + End(trailing, RightCurlyBracket))
    decreases |x.tokens| - p.position, 0
  {
    hide G.Members, RenderMembers, End, At;
    if Next(x, p, Comma) && !(x.trailingCommas && Next(x, Take(p), RightCurlyBracket)) {
      members, trailing := MembersAreText(x, Take(p), count);
      MoreMembers(x, p, members, End(trailing, RightCurlyBracket));
    } else {
      members, trailing := [], Next(x, p, Comma);
      NoMembersLeft(x, p, count);
    }
  }

  lemma {:induction false} ArrayIsText(x: Parse, p: Progress) returns (elements: seq<Text>, trailing: bool)
    requires NeverStops(x) && p.error.None? && Next(x, p, LeftBracket) && G.Array(x, p).error.None?
    ensures ElementsFit(elements, x.trailingCommas) && (trailing ==> x.trailingCommas && elements != [])
    ensures At(x, p, [LeftBracket] + (RenderElements(elements, true) + End(trailing, RightBracket)))
    decreases |x.tokens| - p.position, 2
  {
    hide G.Elements;
    TokenSends(x, p, StartArray);
    var q := After(p, [LeftBracket], [StartArray]);
    if Next(x, q, RightBracket) {
      elements, trailing := [], false;
      assert RenderElements([], true) + End(false, RightBracket) == [RightBracket];
      AtJoin(x, p, [LeftBracket], [RightBracket], [StartArray]);
    } else {
      elements, trailing := ElementsAreText(x, q, 0);
      AtJoin(x, p, [LeftBracket], RenderElements(elements, true) + End(trailing, RightBracket), [StartArray]);
    }
  }

  lemma {:induction false} ElementsAreText(x: Parse, p: Progress, count: nat) returns (elements: seq<Text>, trailing: bool)
    requires NeverStops(x) && p.error.None? && G.Elements(x, p, count).error.None?
    ensures elements != [] && ElementsFit(elements, x.trailingCommas) && (trailing ==> x.trailingCommas)
    ensures At(x, p, RenderElements(elements, true) + End(trailing, RightBracket))
    decreases |x.tokens| - p.position, 4
  {
    hide G.Value, G.AfterElement, Render, Accept, RenderElements, Fits, ValueOf, End;
    var t := ParsedIsText(x, p);
    var events := Accept(ValueOf(t));
    var done := After(p, Render(t), events);
    var others;
    others, trailing := MoreElementsAreText(x, done, count + 1);
    AtJoin(x, p, Render(t), RenderElements(others, false) + End(trailing, RightBracket), events);
    elements := [t] + others;
    assert elements[0] == t && elements[1..] == others;
    ElementsSplit(elements, End(trailing, RightBracket));
  }

  lemma MoreElements(x: Parse, p: Progress, elements: seq<Text>, end: seq<Token>)
    requires p.error.None? && Next(x, p, Comma) && elements != [] && At(x, Take(p), RenderElements(elements, true) + end)
    ensures At(x, p, RenderElements(elements, false) + end)
  {
    hide RenderElements;
    assert Take(p) == After(p, [Comma], []) by { assert p.events + [] == p.events; }
    AtJoin(x, p, [Comma], RenderElements(elements, true) + end, []);
    ElementsSplit(elements, end);
  }

  lemma NoElementsLeft(x: Parse, p: Progress, count: nat)
    requires NeverStops(x) && p.error.None? && AfterElement(x, p, count).error.None?
    requires Next(x, p, Comma) ==> x.trailingCommas && Next(x, Take(p), RightBracket)
    ensures At(x, p, RenderElements([], false) + End(Next(x, p, Comma), RightBracket))
  {
    hide G.Elements;
    var end := End(Next(x, p, Comma), RightBracket);
    assert RenderElements([], false) + end == end;
  }

  lemma {:induction false} MoreElementsAreText(x: Parse, p: Progress, count: nat) returns (elements: seq<Text>, trailing: bool)
    requires NeverStops(x) && p.error.None? && AfterElement(x, p, count).error.None?
    ensures ElementsFit(elements, x.trailingCommas) && (trailing ==> x.trailingCommas)
    ensures At(x, p, RenderElements(elements, false) + End(trailing, RightBracket))
    decreases |x.tokens| - p.position, 0
  {
    hide G.Elements, RenderElements, End, At;
    if Next(x, p, Comma) && !(x.trailingCommas && Next(x, Take(p), RightBracket)) {
      elements, trailing := ElementsAreText(x, Take(p), count);
      MoreElements(x, p, elements, End(trailing, RightBracket));
    } else {
      elements, trailing := [], Next(x, p, Comma);
      NoElementsLeft(x, p, count);
    }
  }

  /** What is accepted is a text. */
  lemma AcceptedIsText(x: Parse) returns (t: Text)
    requires NeverStops(x) && RecursiveParse(x).error.None?
    ensures IsText(x, t)
  {
    var start := Progress(0, [], None);
    t := ParsedIsText(x, start);
    hide Render, Fits, G.Value;
    assert x.tokens[..|Render(t)|] == Render(t);
  }

  /** Each parser accepts exactly the texts that the flag allows, and a text is that of one value only. */
  lemma AcceptedIffText(x: Parse)
    requires NeverStops(x)
    ensures RecursiveParse(x).error.None? <==> exists t :: IsText(x, t)
    ensures IterativeParse(x).error.None? <==> exists t :: IsText(x, t)
    ensures forall t, u :: IsText(x, t) && IsText(x, u) ==> ValueOf(t) == ValueOf(u)
  {
    ParsersAgreeIff(x);
    hide IsText;
    if RecursiveParse(x).error.None? {
      var t := AcceptedIsText(x);
    }
    forall t | IsText(x, t) ensures RecursiveParse(x) == IterativeParse(x) == Result(Accept(ValueOf(t)), None, 0) {
      TextIsAccepted(x, t);
    }
    forall t, u | IsText(x, t) && IsText(x, u) ensures ValueOf(t) == ValueOf(u) { EventsDetermine(ValueOf(t), ValueOf(u)); }
  }

  /** Without trailing commas the texts are what the writer prints. */
  lemma StrictTextIsPrinted(x: Parse, t: Text)
    requires !x.trailingCommas && IsText(x, t)
    ensures Render(t) == Print(ValueOf(t))
  {
    FittingIsPlain(t);
    PlainIsPrinted(ValueOf(t), false);
  }

  /** Different values send different events. */
  lemma EventsDetermine(v: D.Value, w: D.Value)
    ensures Accept(v) == Accept(w) ==> v == w
  {
    ValueBuilds([], v);
    ValueBuilds([], w);
    assert ([] + [v])[0] == v && ([] + [w])[0] == w;
  }
}
