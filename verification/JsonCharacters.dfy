/** Which documents are accepted, byte by byte, and that a printed one is read back
    (thirdparty/rapidjson/reader.h:485-516, thirdparty/rapidjson/writer.h:172-237). */
module JsonCharacters {
  import opened Core
  import opened Encodings
  import opened JsonGrammar
  import opened JsonLexing
  import opened D = JsonDocument
  import opened JsonRoundTrip
  import opened JsonAcceptance
  import S = JsonStrings
  import L = JsonLiterals
  import N = JsonNumbers

  // ----- The tokens of a text -----

  /** Nothing malformed, and only marks behind numbers. */
  predicate Tidy(tokens: seq<Token>) { AllRead(tokens) && NumbersApart(tokens) }

  lemma TidyTogether(a: seq<Token>, b: seq<Token>)
    requires Tidy(a) && Tidy(b) && (a != [] && a[|a| - 1].NumberToken? && b != [] ==> IsMark(b[0]))
    ensures Tidy(a + b)
  {
    hide IsMalformed, IsMark;
    var all := a + b;
    forall k | 0 <= k < |all| - 1 && all[k].NumberToken? ensures IsMark(all[k + 1]) {
      if k + 1 == |a| {
        assert all[k + 1] == b[0];
      } else if k + 1 > |a| {
        assert all[k] == b[k - |a|] && all[k + 1] == b[k - |a| + 1];
      }
    }
  }

  lemma MarksAreTidy(a: Token, b: Token)
    ensures !IsMalformed(a) ==> Tidy([a])
    ensures !IsMalformed(a) && !a.NumberToken? && !IsMalformed(b) ==> Tidy([a, b])
  {
  }

  lemma {:induction false} RenderIsTidy(t: Text)
    requires Fits(t, true)
    ensures Tidy(Render(t))
    decreases t, 1
  {
    hide Tidy, RenderMembers, RenderElements;
    match t {
      case ScalarText(v) => MarksAreTidy(Print(v)[0], Comma);
      case ObjectText(members, trailing) =>
        MembersAreTidy(members, true);
        Enclosed(LeftCurlyBracket, RenderMembers(members, true), trailing, RightCurlyBracket);
      case ArrayText(elements, trailing) =>
        ElementsAreTidy(elements, true);
        Enclosed(LeftBracket, RenderElements(elements, true), trailing, RightBracket);
    }
  }

  lemma Enclosed(open: Token, inner: seq<Token>, trailing: bool, close: Token)
    requires Tidy(inner) && open in {LeftCurlyBracket, LeftBracket} && close in {RightCurlyBracket, RightBracket}
    ensures Tidy([open] + (inner + End(trailing, close)))
  {
    MarksAreTidy(open, open);
    MarksAreTidy(close, close);
    MarksAreTidy(Comma, close);
    assert End(trailing, close)[0] in {Comma, close};
    hide Tidy;
    TidyTogether(inner, End(trailing, close));
    TidyTogether([open], inner + End(trailing, close));
  }

  lemma {:induction false} MembersAreTidy(members: seq<NamedText>, first: bool)
    requires MembersFit(members, true)
    ensures Tidy(RenderMembers(members, first))
    ensures members != [] && !first ==> RenderMembers(members, first)[0] == Comma
    decreases members, 0
  {
    hide Tidy, Render, Fits;
    if members == [] {
      NothingIsTidy();
    } else {
      var text, rest := Render(members[0].text), RenderMembers(members[1..], false);
      RenderIsTidy(members[0].text);
      MembersAreTidy(members[1..], false);
      CommaIsMark();
      TidyTogether(text, rest);
      var name := [StringToken(Read(members[0].name)), Colon];
      MarksAreTidy(name[0], Colon);
      TidyTogether(name, text + rest);
      MarksAreTidy(Comma, Comma);
      if !first { TidyTogether([Comma], name + (text + rest)); }
      assert [] + (name + (text + rest)) == name + (text + rest);
    }
  }

  lemma {:induction false} ElementsAreTidy(elements: seq<Text>, first: bool)
    requires ElementsFit(elements, true)
    ensures Tidy(RenderElements(elements, first))
    ensures elements != [] && !first ==> RenderElements(elements, first)[0] == Comma
    decreases elements, 0
  {
    hide Tidy, Render, Fits;
    if elements == [] {
      NothingIsTidy();
    } else {
      var text, rest := Render(elements[0]), RenderElements(elements[1..], false);
      RenderIsTidy(elements[0]);
      ElementsAreTidy(elements[1..], false);
      CommaIsMark();
      TidyTogether(text, rest);
      MarksAreTidy(Comma, Comma);
      if !first { TidyTogether([Comma], text + rest); }
      assert [] + (text + rest) == text + rest;
    }
  }

  lemma NothingIsTidy()
    ensures Tidy([])
  {
  }

  lemma CommaIsMark()
    ensures IsMark(Comma)
  {
  }

  // ----- Acceptance -----

  /** What the parsers are given for a document, with a handler that never stops. */
  function Document(s: seq<Byte>, o: Options, commas: bool): Parse {
    Parse(Lex(s, 0, o), commas, false, events => true)
  }

  /** The document is this text, written with white space between tokens. */
  ghost predicate Writes(s: seq<Byte>, t: Text, o: Options, commas: bool) {
    Fits(t, commas) && IsWritten(s, 0, Render(t), o)
  }

  lemma WritesIffText(s: seq<Byte>, t: Text, o: Options, commas: bool)
    ensures Writes(s, t, o, commas) <==> IsText(Document(s, o, commas), t)
  {
    hide Lex, IsWritten, Render, Fits, Tidy;
    var tokens := Lex(s, 0, o);
    if Fits(t, commas) {
      FitsMore(t, commas);
      RenderIsTidy(t);
      TidyIsExact(s, Render(t), o);
    }
    assert |tokens| == |Render(t)| ==> tokens[..|Render(t)|] == tokens;
  }

  lemma TidyIsExact(s: seq<Byte>, tokens: seq<Token>, o: Options)
    requires Tidy(tokens)
    ensures Lex(s, 0, o) == tokens <==> IsWritten(s, 0, tokens, o)
  {
    LexIsExact(s, tokens, o);
  }

  /** Each parser accepts precisely the documents that write a text of a value, with white space where
      it may stand, and delivers the events of that value; no document writes two values. */
  lemma DocumentIsExact(s: seq<Byte>, o: Options, commas: bool)
    ensures var x := Document(s, o, commas);
            && (RecursiveParse(x).error.None? <==> exists t :: Writes(s, t, o, commas))
            && (IterativeParse(x).error.None? <==> exists t :: Writes(s, t, o, commas))
            && (forall t :: Writes(s, t, o, commas) ==>
                  RecursiveParse(x) == IterativeParse(x) == Result(Accept(ValueOf(t)), None, 0))
            && (forall t, u :: Writes(s, t, o, commas) && Writes(s, u, o, commas) ==> ValueOf(t) == ValueOf(u))
  {
    hide Writes, IsText, RecursiveParse, IterativeParse;
    var x := Document(s, o, commas);
    assert NeverStops(x);
    AcceptedIffText(x);
    forall t ensures Writes(s, t, o, commas) <==> IsText(x, t) { WritesIffText(s, t, o, commas); }
    forall t | Writes(s, t, o, commas) ensures RecursiveParse(x) == IterativeParse(x) == Result(Accept(ValueOf(t)), None, 0) {
      TextIsAccepted(x, t);
    }
  }

  // ----- Printing -----

  predicate AreBytes(v: string) { forall k :: 0 <= k < |v| ==> v[k] < 256 as char }

  function BytesOf(v: string): (r: seq<Byte>)
    requires AreBytes(v)
    ensures Chars(r) == v
  {
    var r := seq(|v|, k requires 0 <= k < |v| => v[k] as int as Byte);
    assert Chars(r) == v;
    r
  }

  /** A string of bytes, which are UTF-8 if that will be checked; a number of the grammar. */
  ghost predicate CanWrite(t: Token, o: Options) {
    match t
    case StringToken(v) => v.Read? && AreBytes(v.value) && (o.validate ==> IsUtf8(BytesOf(v.value)))
    case NumberToken(v) => v.Read? && AreBytes(v.value) && IsNumberText(BytesOf(v.value), v.value, o.tooBig)
    case _ => !IsMalformed(t)
  }

  ghost predicate CanWriteAll(tokens: seq<Token>, o: Options) { forall k :: 0 <= k < |tokens| ==> CanWrite(tokens[k], o) }

  /** The bytes the writer puts for a token. */
  function WriteToken(t: Token): seq<Byte> {
    match t
    case LeftBracket => [91]
    case RightBracket => [93]
    case LeftCurlyBracket => [123]
    case RightCurlyBracket => [125]
    case Comma => [44]
    case Colon => [58]
    case StringToken(v) => if v.Read? && AreBytes(v.value) then S.Literal(BytesOf(v.value)) else []
    case NumberToken(v) => if v.Read? && AreBytes(v.value) then BytesOf(v.value) else []
    case TrueToken(_) => TRUE_WORD
    case FalseToken(_) => FALSE_WORD
    case NullToken(_) => NULL_WORD
    case BadComment => []
  }

  function WriteTokens(tokens: seq<Token>): seq<Byte> {
    if tokens == [] then [] else WriteToken(tokens[0]) + WriteTokens(tokens[1..])
  }

  /** A written literal is one of the grammar, and stands for the bytes. */
  lemma LiteralIsText(bytes: seq<Byte>, validate: bool)
    requires validate ==> IsUtf8(bytes)
    ensures IsStringText(S.Literal(bytes), Chars(bytes), validate)
  {
    hide S.ParseFrom, IsUtf8, L.AreChars, L.Paired, L.Meaning, S.WriteBody;
    var s := S.Literal(bytes);
    S.LiteralRoundTrip(bytes, [], validate);
    assert s + [] == s;
    var cs := L.ParsedIsLiteral(s, 1, validate, []);
    L.CharsAreRead(s, 1, cs, validate, []);
    assert [] + L.Meaning(cs) == L.Meaning(cs);
    var body := L.SpellAll(cs) + [S.QUOTE];
    S.StandsSlice(s, 1, body);
    assert s == s[..1] + s[1..1 + |body|];
    assert s[..1] == [S.QUOTE];
  }

  lemma WrittenIsSpelling(t: Token, o: Options)
    requires CanWrite(t, o)
    ensures IsSpelling(t, WriteToken(t), o)
  {
    hide IsStringText, IsNumberText, S.Literal, IsUtf8;
    if t.StringToken? { LiteralIsText(BytesOf(t.text.value), o.validate); }
  }

  lemma {:induction false} TokensAreWritten(s: seq<Byte>, pos: nat, tokens: seq<Token>, o: Options)
    requires CanWriteAll(tokens, o) && S.Stands(s, pos, WriteTokens(tokens))
    requires PeekByte(s, pos + |WriteTokens(tokens)|) == 0
    ensures IsWritten(s, pos, tokens, o)
    decreases |tokens|
  {
    hide CanWrite, WriteToken, IsSpelling, AllWhite;
    NoBlank(s, pos);
    if tokens != [] {
      var text, rest := WriteToken(tokens[0]), tokens[1..];
      S.StandsParts(s, pos, text, WriteTokens(rest));
      WrittenIsSpelling(tokens[0], o);
      TokensAreWritten(s, pos + |text|, rest, o);
      assert IsWrittenHere(s, pos, tokens, o);
    }
  }

  lemma NoBlank(s: seq<Byte>, pos: nat)
    requires pos <= |s|
    ensures AllWhite([]) && S.Stands(s, pos, [])
  {
    assert s[pos..pos] == [];
  }

  /** A printed document lexes back to its tokens, and both parsers accept it with the events of the
      value. */
  lemma PrintedIsRead(v: D.Value, o: Options, commas: bool)
    requires CanWriteAll(Print(v), o)
    ensures var s := WriteTokens(Print(v));
            && Lex(s, 0, o) == Print(v)
            && var x := Document(s, o, commas);
               RecursiveParse(x) == IterativeParse(x) == Result(Accept(v), None, 0)
  {
    hide CanWriteAll, Print, Accept, Lex, IsWritten, WriteTokens, Render, Fits, Tidy, Plain, ValueOf, IsText,
         RecursiveParse, IterativeParse, Writes;
    var s := WriteTokens(Print(v));
    assert s[0..0 + |s|] == s;
    TokensAreWritten(s, 0, Print(v), o);
    PlainIsPrinted(v, commas);
    FitsMore(Plain(v), commas);
    RenderIsTidy(Plain(v));
    TidyIsExact(s, Print(v), o);
    PlainIsWritten(s, v, o, commas);
    DocumentIsExact(s, o, commas);
  }

  lemma PlainIsWritten(s: seq<Byte>, v: D.Value, o: Options, commas: bool)
    requires IsWritten(s, 0, Print(v), o)
    ensures Writes(s, Plain(v), o, commas) && ValueOf(Plain(v)) == v
  {
    hide IsWritten, Render, Fits, Plain, ValueOf, Print;
    PlainIsPrinted(v, commas);
  }
}
