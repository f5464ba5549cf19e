/** From the bytes of a document to the tokens the parsers work on, and back
    (thirdparty/rapidjson/reader.h:258-270, 704-742, 1388-1404, 1454-1480, without the flag for comments).
    A parser reads a token when it meets its first byte, so the tokens end at one that is malformed. */
module JsonLexing {
  import opened Core
  import opened Encodings
  import opened JsonGrammar
  import opened JsonStrings
  import opened JsonLiterals
  import opened JsonNumbers

  /** Whether encodings are validated, and which numbers are too big. */
  datatype Options = Options(validate: bool, tooBig: seq<Byte> -> bool)

  const TRUE_WORD: seq<Byte> := [116, 114, 117, 101]
  const FALSE_WORD: seq<Byte> := [102, 97, 108, 115, 101]
  const NULL_WORD: seq<Byte> := [110, 117, 108, 108]

  predicate IsWhite(c: Byte) { c == 32 || c == 10 || c == 13 || c == 9 }

  predicate AllWhite(s: seq<Byte>) { forall k :: 0 <= k < |s| ==> IsWhite(s[k]) }

  function Chars(bytes: seq<Byte>): (r: string)
    ensures |r| == |bytes| && forall k :: 0 <= k < |r| ==> r[k] == bytes[k] as char
  {
    seq(|bytes|, k requires 0 <= k < |bytes| => bytes[k] as char)
  }

  // ----- Reading -----

  function WhiteEnd(s: seq<Byte>, pos: nat): (end: nat)
    ensures pos <= end && (end > pos ==> end <= |s|)
    decreases |s| - pos
  {
    if IsWhite(PeekByte(s, pos)) then WhiteEnd(s, pos + 1) else pos
  }

  method SkipWhitespace(s: seq<Byte>, pos: nat) returns (end: nat)
    ensures end == WhiteEnd(s, pos)
  {
    end := pos;
    while IsWhite(PeekByte(s, end))
      invariant pos <= end && WhiteEnd(s, end) == WhiteEnd(s, pos)
      decreases |s| - end
    {
      end := end + 1;
    }
  }

  /** The tokens of one byte. */
  function Mark(c: Byte): Option<Token> {
    if c == 91 then Some(LeftBracket)
    else if c == 93 then Some(RightBracket)
    else if c == 123 then Some(LeftCurlyBracket)
    else if c == 125 then Some(RightCurlyBracket)
    else if c == 44 then Some(Comma)
    else if c == 58 then Some(Colon)
    else None
  }

  predicate IsWord(s: seq<Byte>, pos: nat, word: seq<Byte>) {
    pos + |word| <= |s| && s[pos..pos + |word|] == word
  }

  /** A token and what follows; nothing follows a malformed one. */
  datatype Lexed = Lexed(token: Token, next: nat)

  function LexString(s: seq<Byte>, pos: nat, o: Options): Lexed {
    match ParseFrom(s, pos + 1, o.validate, [])
    case Found(text, next) => Lexed(StringToken(Read(Chars(text))), next)
    case Failed(e) => Lexed(StringToken(Malformed(e)), |s|)
  }

  function LexNumber(s: seq<Byte>, pos: nat, o: Options): Lexed {
    match ScanNumber(s, pos, o.tooBig)
    case Found(text, next) => Lexed(NumberToken(Read(Chars(text))), next)
    case Failed(e) => Lexed(NumberToken(Malformed(e)), |s|)
  }

  function ReadIf(ok: bool): Scanned<()> { if ok then Read(()) else Malformed(ValueInvalid) }

  function LexToken(s: seq<Byte>, pos: nat, o: Options): Lexed {
    var c := PeekByte(s, pos);
    if Mark(c).Some? then Lexed(Mark(c).value, pos + 1)
    else if c == QUOTE then LexString(s, pos, o)
    else if c == TRUE_WORD[0] then Lexed(TrueToken(ReadIf(IsWord(s, pos, TRUE_WORD))), pos + 4)
    else if c == FALSE_WORD[0] then Lexed(FalseToken(ReadIf(IsWord(s, pos, FALSE_WORD))), pos + 5)
    else if c == NULL_WORD[0] then Lexed(NullToken(ReadIf(IsWord(s, pos, NULL_WORD))), pos + 4)
    else LexNumber(s, pos, o)
  }

  predicate IsMalformed(t: Token) {
    match t
    case StringToken(text) => text.Malformed?
    case FalseToken(f) => f.Malformed?
    case TrueToken(b) => b.Malformed?
    case NullToken(n) => n.Malformed?
    case NumberToken(number) => number.Malformed?
    case _ => t.BadComment?
  }

  lemma {:induction false} LiteralIsBehind(s: seq<Byte>, pos: nat, validate: bool, out: seq<Byte>)
    ensures var r := ParseFrom(s, pos, validate, out);
            r.Found? ==> r.next > pos
    decreases if pos <= |s| then |s| - pos + 1 else 0
  {
    hide Round;
    if PeekByte(s, pos) != QUOTE && pos < |s| {
      var r := Round(s, pos, validate);
      if r.Found? { LiteralIsBehind(s, r.next, validate, out + r.text); }
    }
  }

  lemma TokenIsBehind(s: seq<Byte>, pos: nat, o: Options)
    ensures var l := LexToken(s, pos, o);
            !IsMalformed(l.token) ==> l.next > pos
  {
    LiteralIsBehind(s, pos + 1, o.validate, []);
    hide ParseFrom, ScanNumber;
  }

  /** The tokens from `pos` on, up to the end of the text, which may be a NUL byte. */
  function Lex(s: seq<Byte>, pos: nat, o: Options): seq<Token>
    decreases if pos <= |s| then |s| - pos else 0
  {
    var start := WhiteEnd(s, pos);
    if PeekByte(s, start) == 0 then [] else
      var l := LexToken(s, start, o);
      TokenIsBehind(s, start, o);
      if IsMalformed(l.token) then [l.token] else [l.token] + Lex(s, l.next, o)
  }

  // ----- How tokens are written -----

  ghost predicate IsStringText(text: seq<Byte>, v: string, validate: bool) {
    exists cs ::
      AreChars(cs, validate) && Paired(cs) && text == [QUOTE] + (SpellAll(cs) + [QUOTE]) && v == Chars(Meaning(cs))
  }

  ghost predicate IsNumberText(text: seq<Byte>, v: string, tooBig: seq<Byte> -> bool) {
    v == Chars(text) && exists n :: IsNumber(n) && IsInRange(n, tooBig) && text == SpellNumber(n)
  }

  /** The text is one way of writing the token. */
  ghost predicate IsSpelling(t: Token, text: seq<Byte>, o: Options) {
    match t
    case LeftBracket => text == [91]
    case RightBracket => text == [93]
    case LeftCurlyBracket => text == [123]
    case RightCurlyBracket => text == [125]
    case Comma => text == [44]
    case Colon => text == [58]
    case StringToken(v) => v.Read? && IsStringText(text, v.value, o.validate)
    case NumberToken(v) => v.Read? && IsNumberText(text, v.value, o.tooBig)
    case TrueToken(b) => b.Read? && text == TRUE_WORD
    case FalseToken(f) => f.Read? && text == FALSE_WORD
    case NullToken(n) => n.Read? && text == NULL_WORD
    case BadComment => false
  }

  /** From `pos` on the tokens are written, with white space before, between and behind them. */
  ghost predicate IsWritten(s: seq<Byte>, pos: nat, tokens: seq<Token>, o: Options)
    decreases |tokens|
  {
    exists blank ::
      AllWhite(blank) && Stands(s, pos, blank)
      && if tokens == [] then PeekByte(s, pos + |blank|) == 0 else IsWrittenHere(s, pos + |blank|, tokens, o)
  }

  ghost predicate IsWrittenHere(s: seq<Byte>, pos: nat, tokens: seq<Token>, o: Options)
    requires tokens != []
    decreases |tokens|, 0
  {
    exists text ::
      IsSpelling(tokens[0], text, o) && Stands(s, pos, text) && IsWritten(s, pos + |text|, tokens[1..], o)
  }

  // ----- What is lexed is written -----

  lemma {:induction false} WhiteIs(s: seq<Byte>, pos: nat)
    requires pos <= |s|
    ensures var end := WhiteEnd(s, pos);
            pos <= end <= |s| && AllWhite(s[pos..end]) && !IsWhite(PeekByte(s, end))
    decreases |s| - pos
  {
    if IsWhite(PeekByte(s, pos)) {
      WhiteIs(s, pos + 1);
      assert s[pos..WhiteEnd(s, pos)] == [s[pos]] + s[pos + 1..WhiteEnd(s, pos)];
    }
  }

  lemma StringIsSpelling(s: seq<Byte>, pos: nat, o: Options) returns (text: seq<Byte>)
    requires PeekByte(s, pos) == QUOTE && !IsMalformed(LexString(s, pos, o).token)
    ensures IsSpelling(LexString(s, pos, o).token, text, o)
    ensures Stands(s, pos, text) && LexString(s, pos, o).next == pos + |text|
  {
    var cs := ParsedIsLiteral(s, pos + 1, o.validate, []);
    CharsAreRead(s, pos + 1, cs, o.validate, []);
    assert [] + Meaning(cs) == Meaning(cs);
    hide ParseFrom, AreChars, Paired, Meaning;
    text := [QUOTE] + (SpellAll(cs) + [QUOTE]);
    assert s[pos..pos + 1] == [QUOTE];
    StandsBoth(s, pos, [QUOTE], SpellAll(cs) + [QUOTE]);
    assert IsStringText(text, Chars(Meaning(cs)), o.validate);
  }

  lemma NumberIsSpelling(s: seq<Byte>, pos: nat, o: Options)
    requires pos <= |s| && ScanNumber(s, pos, o.tooBig).Found?
    ensures var r := ScanNumber(s, pos, o.tooBig); IsSpelling(NumberToken(Read(Chars(r.text))), r.text, o)
  {
    hide ScanNumber, IsNumber, IsInRange, SpellNumber;
    var n := ScannedIsNumber(s, pos, o.tooBig);
    NumeralIsSpelling(n, o);
  }

  lemma NumeralIsSpelling(n: Numeral, o: Options)
    requires IsNumber(n) && IsInRange(n, o.tooBig)
    ensures IsSpelling(NumberToken(Read(Chars(SpellNumber(n)))), SpellNumber(n), o)
  {
    hide IsNumber, IsInRange, SpellNumber;
    assert IsNumberText(SpellNumber(n), Chars(SpellNumber(n)), o.tooBig);
  }

  lemma TokenIsSpelling(s: seq<Byte>, pos: nat, o: Options) returns (text: seq<Byte>)
    requires pos < |s| && !IsMalformed(LexToken(s, pos, o).token)
    ensures var l := LexToken(s, pos, o);
            IsSpelling(l.token, text, o) && Stands(s, pos, text) && l.next == pos + |text| && pos < l.next <= |s|
  {
    hide ParseFrom, ScanNumber, LexString, IsStringText, IsNumberText;
    TokenIsBehind(s, pos, o);
    if s[pos] == QUOTE {
      text := StringIsSpelling(s, pos, o);
    } else {
      text := s[pos..LexToken(s, pos, o).next];
      if Mark(s[pos]).None? && s[pos] !in {TRUE_WORD[0], FALSE_WORD[0], NULL_WORD[0]} { NumberIsSpelling(s, pos, o); }
    }
  }

  predicate AllRead(tokens: seq<Token>) { forall k :: 0 <= k < |tokens| ==> !IsMalformed(tokens[k]) }

  lemma {:induction false} LexedIsWritten(s: seq<Byte>, pos: nat, o: Options)
    requires pos <= |s| && AllRead(Lex(s, pos, o))
    ensures IsWritten(s, pos, Lex(s, pos, o), o)
    decreases |s| - pos
  {
    hide LexToken, IsSpelling, IsMalformed, IsWritten, Stands, Lex, AllWhite, AllRead;
    WhiteIs(s, pos);
    var start := WhiteEnd(s, pos);
    LexStep(s, pos, o);
    if PeekByte(s, start) == 0 {
      NothingWritten(s, pos, start, o);
    } else {
      var l := LexToken(s, start, o);
      var text := TokenIsSpelling(s, start, o);
      LexedIsWritten(s, l.next, o);
      OneMoreWritten(s, pos, start, l.token, text, Lex(s, l.next, o), o);
    }
  }

  lemma LexStep(s: seq<Byte>, pos: nat, o: Options)
    requires AllRead(Lex(s, pos, o))
    ensures var start := WhiteEnd(s, pos);
            if PeekByte(s, start) == 0 then Lex(s, pos, o) == [] else
              var l := LexToken(s, start, o);
              !IsMalformed(l.token) && Lex(s, pos, o) == [l.token] + Lex(s, l.next, o) && AllRead(Lex(s, l.next, o))
  {
    hide LexToken, IsMalformed;
    var start := WhiteEnd(s, pos);
    if PeekByte(s, start) != 0 {
      assert !IsMalformed(Lex(s, pos, o)[0]);
      var rest := Lex(s, LexToken(s, start, o).next, o);
      assert forall k :: 0 <= k < |rest| ==> rest[k] == Lex(s, pos, o)[k + 1];
    }
  }

  lemma NothingWritten(s: seq<Byte>, pos: nat, start: nat, o: Options)
    requires pos <= start <= |s| && AllWhite(s[pos..start]) && PeekByte(s, start) == 0
    ensures IsWritten(s, pos, [], o)
  {
    hide AllWhite;
    assert Stands(s, pos, s[pos..start]);
  }

  lemma OneMoreWritten(s: seq<Byte>, pos: nat, start: nat, t: Token, text: seq<Byte>, rest: seq<Token>, o: Options)
    requires pos <= start <= |s| && AllWhite(s[pos..start])
    requires IsSpelling(t, text, o) && Stands(s, start, text) && IsWritten(s, start + |text|, rest, o)
    ensures IsWritten(s, pos, [t] + rest, o)
  {
    hide AllWhite, IsSpelling, IsWrittenHere;
    WrittenHere(s, start, t, text, rest, o);
    var blank := s[pos..start];
    assert Stands(s, pos, blank) && pos + |blank| == start;
  }

  lemma WrittenHere(s: seq<Byte>, start: nat, t: Token, text: seq<Byte>, rest: seq<Token>, o: Options)
    requires IsSpelling(t, text, o) && Stands(s, start, text) && IsWritten(s, start + |text|, rest, o)
    ensures IsWrittenHere(s, start, [t] + rest, o)
  {
    hide IsWritten, IsSpelling, Stands;
    assert ([t] + rest)[1..] == rest;
  }

  // ----- What is written is lexed -----

  lemma {:induction false} WhiteSpelled(s: seq<Byte>, pos: nat, blank: seq<Byte>)
    requires Stands(s, pos, blank) && AllWhite(blank) && !IsWhite(PeekByte(s, pos + |blank|))
    ensures WhiteEnd(s, pos) == pos + |blank|
    decreases |blank|
  {
    if blank != [] {
      ByteAt(s, pos, blank, 0);
      assert blank == [blank[0]] + blank[1..];
      StandsParts(s, pos, [blank[0]], blank[1..]);
      WhiteSpelled(s, pos + 1, blank[1..]);
    }
  }

  lemma StringSpelled(s: seq<Byte>, pos: nat, v: string, text: seq<Byte>, o: Options)
    requires IsStringText(text, v, o.validate) && Stands(s, pos, text)
    ensures PeekByte(s, pos) == QUOTE && LexString(s, pos, o) == Lexed(StringToken(Read(v)), pos + |text|)
  {
    hide AreChars, Paired, Meaning, ParseFrom;
    var cs :| AreChars(cs, o.validate) && Paired(cs) && text == [QUOTE] + (SpellAll(cs) + [QUOTE]) && v == Chars(Meaning(cs));
    ByteAt(s, pos, text, 0);
    StandsParts(s, pos, [QUOTE], SpellAll(cs) + [QUOTE]);
    CharsAreRead(s, pos + 1, cs, o.validate, []);
    assert [] + Meaning(cs) == Meaning(cs);
  }

  /** A number starts with a digit or the minus. */
  lemma NumberStarts(n: Numeral)
    requires IsNumber(n)
    ensures IsDigitByte(SpellNumber(n)[0]) || SpellNumber(n)[0] == MINUS
  {
    assert n.whole[0] == ZERO || IsDigitByte(n.whole[0]);
  }

  lemma NumberIsLexed(s: seq<Byte>, pos: nat, v: string, text: seq<Byte>, o: Options)
    requires IsNumberText(text, v, o.tooBig) && Stands(s, pos, text) && EndsNumber(PeekByte(s, pos + |text|))
    ensures LexToken(s, pos, o) == Lexed(NumberToken(Read(v)), pos + |text|)
    ensures var c := PeekByte(s, pos); c != 0 && !IsWhite(c)
  {
    hide ScanNumber, SpellNumber, IsNumber, IsInRange, LexString, Stands;
    var n :| IsNumber(n) && IsInRange(n, o.tooBig) && text == SpellNumber(n);
    NumberSpelled(s, pos, n, o.tooBig);
    NumberStarts(n);
  }

  lemma SpellingIsToken(s: seq<Byte>, pos: nat, t: Token, text: seq<Byte>, o: Options)
    requires IsSpelling(t, text, o) && Stands(s, pos, text)
    requires t.NumberToken? ==> EndsNumber(PeekByte(s, pos + |text|))
    ensures LexToken(s, pos, o) == Lexed(t, pos + |text|) && !IsMalformed(t)
    ensures var c := PeekByte(s, pos); c != 0 && !IsWhite(c)
  {
    hide ScanNumber, LexString, IsStringText, IsNumberText, EndsNumber;
    match t {
      case StringToken(v) => StringSpelled(s, pos, v.value, text, o);
      case NumberToken(v) => NumberIsLexed(s, pos, v.value, text, o);
      case TrueToken(b) => WordIsToken(s, pos, text, b);
      case FalseToken(b) => WordIsToken(s, pos, text, b);
      case NullToken(b) => WordIsToken(s, pos, text, b);
      case BadComment =>
      case _ => ByteAt(s, pos, text, 0);
    }
  }

  lemma WordIsToken(s: seq<Byte>, pos: nat, word: seq<Byte>, b: Scanned<()>)
    requires Stands(s, pos, word) && word in {TRUE_WORD, FALSE_WORD, NULL_WORD} && b.Read?
    ensures IsWord(s, pos, word) && b == Read(()) && PeekByte(s, pos) == word[0]
  {
    ByteAt(s, pos, word, 0);
    StandsSlice(s, pos, word);
    assert b.value == ();
  }

  predicate IsMark(t: Token) { t in {LeftBracket, RightBracket, LeftCurlyBracket, RightCurlyBracket, Comma, Colon} }

  /** Behind a number only a mark can follow. */
  predicate NumbersApart(tokens: seq<Token>) {
    forall k :: 0 <= k < |tokens| - 1 && tokens[k].NumberToken? ==> IsMark(tokens[k + 1])
  }

  /** What can be written behind a number ends it. */
  lemma WrittenEndsNumber(s: seq<Byte>, pos: nat, tokens: seq<Token>, o: Options)
    requires IsWritten(s, pos, tokens, o) && (tokens != [] ==> IsMark(tokens[0]))
    ensures EndsNumber(PeekByte(s, pos))
  {
    hide IsSpelling, IsWritten, IsMark, EndsNumber, Stands;
    var blank := BlankBefore(s, pos, tokens, o);
    if blank != [] {
      ByteAt(s, pos, blank, 0);
      WhiteEndsNumber(blank[0]);
    } else if tokens == [] {
      NulEndsNumber();
    } else {
      var text :| IsSpelling(tokens[0], text, o) && Stands(s, pos, text) && IsWritten(s, pos + |text|, tokens[1..], o);
      MarkEndsNumber(tokens[0], text, o);
      ByteAt(s, pos, text, 0);
    }
  }

  lemma MarkEndsNumber(t: Token, text: seq<Byte>, o: Options)
    requires IsMark(t) && IsSpelling(t, text, o)
    ensures text != [] && EndsNumber(text[0])
  {
  }

  lemma WhiteEndsNumber(c: Byte)
    requires IsWhite(c)
    ensures EndsNumber(c)
  {
  }

  lemma NulEndsNumber()
    ensures EndsNumber(0)
  {
  }

  lemma BlankBefore(s: seq<Byte>, pos: nat, tokens: seq<Token>, o: Options) returns (blank: seq<Byte>)
    requires IsWritten(s, pos, tokens, o)
    ensures AllWhite(blank) && Stands(s, pos, blank)
    ensures if tokens == [] then PeekByte(s, pos + |blank|) == 0 else IsWrittenHere(s, pos + |blank|, tokens, o)
  {
    hide IsWrittenHere;
    blank :|
      AllWhite(blank) && Stands(s, pos, blank)
      && if tokens == [] then PeekByte(s, pos + |blank|) == 0 else IsWrittenHere(s, pos + |blank|, tokens, o);
  }

  lemma {:induction false} WrittenIsLexed(s: seq<Byte>, pos: nat, tokens: seq<Token>, o: Options)
    requires IsWritten(s, pos, tokens, o) && NumbersApart(tokens)
    ensures Lex(s, pos, o) == tokens
    decreases |tokens|
  {
    hide LexToken, IsSpelling, IsWritten, IsMalformed, EndsNumber, IsMark, AllWhite, Stands;
    var blank := BlankBefore(s, pos, tokens, o);
    var start := pos + |blank|;
    if tokens == [] {
      WhiteSpelled(s, pos, blank);
    } else {
      var t, rest := tokens[0], tokens[1..];
      var text :| IsSpelling(t, text, o) && Stands(s, start, text) && IsWritten(s, start + |text|, rest, o);
      assert forall k :: 0 <= k < |rest| ==> rest[k] == tokens[k + 1];
      if t.NumberToken? { WrittenEndsNumber(s, start + |text|, rest, o); }
      SpellingIsToken(s, start, t, text, o);
      WhiteSpelled(s, pos, blank);
      WrittenIsLexed(s, start + |text|, rest, o);
      assert tokens == [t] + rest;
    }
  }

  /** Tokens in which only marks follow numbers are lexed exactly from the texts that write them. */
  lemma LexIsExact(s: seq<Byte>, tokens: seq<Token>, o: Options)
    requires AllRead(tokens) && NumbersApart(tokens)
    ensures Lex(s, 0, o) == tokens <==> IsWritten(s, 0, tokens, o)
  {
    hide Lex, IsWritten;
    if Lex(s, 0, o) == tokens { LexedIsWritten(s, 0, o); }
    if IsWritten(s, 0, tokens, o) { WrittenIsLexed(s, 0, tokens, o); }
  }
}
