/** What an error of a JSON parser says about the document (thirdparty/rapidjson/reader.h:588-702,
    thirdparty/rapidjson/error/error.h:64-90): which token was missing where it is reported, and for a handler that
    refuses an event, which token sent it. */
module JsonErrors {
  import opened Core
  import opened JsonGrammar

  /** The brackets that are open behind these tokens, the innermost last. */
  function Unclosed(tokens: seq<Token>): seq<Token> {
    if tokens == [] then [] else
      var before, t := Unclosed(tokens[..|tokens| - 1]), tokens[|tokens| - 1];
      if t == LeftBracket || t == LeftCurlyBracket then before + [t]
      else if (t == RightBracket || t == RightCurlyBracket) && before != [] then before[..|before| - 1]
      else before
  }

  /** The innermost open bracket before the token at `pos` is this one. */
  predicate Inside(tokens: seq<Token>, pos: nat, bracket: Token)
    requires pos <= |tokens|
  {
    var open := Unclosed(tokens[..pos]);
    open != [] && open[|open| - 1] == bracket
  }

  predicate IsAt(tokens: seq<Token>, pos: nat, t: Token) { pos < |tokens| && tokens[pos] == t }

  /** The token before the one at `pos`. */
  predicate IsBefore(tokens: seq<Token>, pos: nat, t: Token) { 0 < pos <= |tokens| && tokens[pos - 1] == t }

  /** A value may start here: at the start, in an array, or behind a colon. */
  predicate ExpectsValue(tokens: seq<Token>, pos: nat)
    requires pos <= |tokens|
  {
    || pos == 0
    || IsBefore(tokens, pos, LeftBracket)
    || (IsBefore(tokens, pos, Comma) && Inside(tokens, pos, LeftBracket))
    || (IsBefore(tokens, pos, Colon) && Inside(tokens, pos, LeftCurlyBracket))
  }

  predicate ExpectsName(tokens: seq<Token>, pos: nat)
    requires pos <= |tokens|
  {
    IsBefore(tokens, pos, LeftCurlyBracket) || (IsBefore(tokens, pos, Comma) && Inside(tokens, pos, LeftCurlyBracket))
  }

  /** A value has just ended. */
  predicate EndsValue(tokens: seq<Token>, pos: nat) {
    0 < pos <= |tokens| && (IsScalar(tokens[pos - 1]) || tokens[pos - 1] in {RightBracket, RightCurlyBracket})
  }

  /** A scalar that cannot be read, with this error. */
  predicate CannotBeRead(t: Token, e: ErrorCode) {
    match t
    case StringToken(text) => text == Malformed(e)
    case FalseToken(f) => f == Malformed(e)
    case TrueToken(b) => b == Malformed(e)
    case NullToken(n) => n == Malformed(e)
    case NumberToken(number) => number == Malformed(e)
    case _ => false
  }

  /** The token that sent the event: a number is reported where it starts, so is a bracket behind a
      trailing comma, and everything else behind its end. */
  predicate Sent(tokens: seq<Token>, pos: nat, e: Event) {
    match e
    case Number(n) => IsAt(tokens, pos, NumberToken(Read(n)))
    case String(s) => IsBefore(tokens, pos, StringToken(Read(s)))
    case Key(s) => IsBefore(tokens, pos, StringToken(Read(s)))
    case Bool(b) => 0 < pos <= |tokens| && if b then tokens[pos - 1].TrueToken? else tokens[pos - 1].FalseToken?
    case Null => 0 < pos <= |tokens| && tokens[pos - 1].NullToken?
    case StartObject => IsBefore(tokens, pos, LeftCurlyBracket)
    case StartArray => IsBefore(tokens, pos, LeftBracket)
    case EndObject(_) => Closes(tokens, pos, RightCurlyBracket)
    case EndArray(_) => Closes(tokens, pos, RightBracket)
  }

  predicate Closes(tokens: seq<Token>, pos: nat, bracket: Token) {
    IsBefore(tokens, pos, bracket) || (IsBefore(tokens, pos, Comma) && IsAt(tokens, pos, bracket))
  }

  /** What is missing at `pos`. */
  predicate IsMissing(tokens: seq<Token>, pos: nat, e: ErrorCode)
    requires pos <= |tokens|
  {
    match e
    case DocumentEmpty => tokens == []
    case DocumentRootNotSingular => EndsValue(tokens, pos) && Unclosed(tokens[..pos]) == [] && pos < |tokens|
    case ValueInvalid =>
      ExpectsValue(tokens, pos) && (pos < |tokens| ==> tokens[pos] in {RightBracket, RightCurlyBracket, Comma, Colon, BadComment})
    case ObjectMissName => ExpectsName(tokens, pos) && (pos < |tokens| ==> !tokens[pos].StringToken?)
    case ObjectMissColon =>
      && 0 < pos && tokens[pos - 1].StringToken? && Inside(tokens, pos, LeftCurlyBracket) && !IsAt(tokens, pos, Colon)
    case ObjectMissCommaOrCurlyBracket =>
      && EndsValue(tokens, pos) && Inside(tokens, pos, LeftCurlyBracket)
      && !IsAt(tokens, pos, Comma) && !IsAt(tokens, pos, RightCurlyBracket)
    case ArrayMissCommaOrSquareBracket =>
      && EndsValue(tokens, pos) && Inside(tokens, pos, LeftBracket)
      && !IsAt(tokens, pos, Comma) && !IsAt(tokens, pos, RightBracket)
    case UnspecificSyntaxError => IsAt(tokens, pos, BadComment)
    case _ => false
  }

  predicate Refused(x: Parse, events: seq<Event>, pos: nat) {
    events != [] && !x.goesOn(events) && Sent(x.tokens, pos, events[|events| - 1])
  }

  /** Something is missing, a scalar cannot be read, or the handler has refused the last event. */
  predicate Explains(x: Parse, q: Progress) {
    q.error.Some? ==>
      && q.position <= |x.tokens|
      && var e := q.error.value;
         || IsMissing(x.tokens, q.position, e)
         || (q.position < |x.tokens| && CannotBeRead(x.tokens[q.position], e))
         || (e == Termination && Refused(x, q.events, q.position))
  }

  // ----- One token -----

  lemma TakenOne(tokens: seq<Token>, pos: nat)
    requires pos < |tokens|
    ensures var before, t := Unclosed(tokens[..pos]), tokens[pos];
            Unclosed(tokens[..pos + 1]) ==
            if t == LeftBracket || t == LeftCurlyBracket then before + [t]
            else if (t == RightBracket || t == RightCurlyBracket) && before != [] then before[..|before| - 1]
            else before
  {
    assert tokens[..pos + 1][..pos] == tokens[..pos];
  }

  lemma SkipExplains(x: Parse, p: Progress)
    requires p.error.None? || Explains(x, p)
    ensures Explains(x, Skip(x, p))
    ensures Skip(x, p).error.None? ==> Skip(x, p) == p
  {
  }

  lemma ScalarExplains(x: Parse, p: Progress)
    requires p.error.None? && p.position <= |x.tokens| && ExpectsValue(x.tokens, p.position)
    requires !Next(x, p, LeftBracket) && !Next(x, p, LeftCurlyBracket)
    ensures Explains(x, Scalar(x, p))
    ensures Scalar(x, p).error.None? ==>
              && p.position < |x.tokens| && Scalar(x, p).position == p.position + 1 && IsScalar(x.tokens[p.position])
  {
    hide Unclosed, ExpectsValue;
    if !AtEnd(x, p) && ScalarEvent(x.tokens[p.position]).Read? { ScalarSends(x.tokens, p.position); }
  }

  /** Each scalar sends its own event. */
  lemma ScalarSends(tokens: seq<Token>, pos: nat)
    requires pos < |tokens| && ScalarEvent(tokens[pos]).Read?
    ensures var e := ScalarEvent(tokens[pos]).value;
            Sent(tokens, if e.Number? then pos else pos + 1, e)
  {
    var t := tokens[pos];
    match t {
      case StringToken(text) => assert t == StringToken(Read(text.value));
      case NumberToken(number) => assert t == NumberToken(Read(number.value));
      case _ =>
    }
  }

  lemma KeyExplains(x: Parse, p: Progress)
    requires p.error.None? && NextIsString(x, p)
    ensures Explains(x, MemberKey(x, p))
    ensures MemberKey(x, p).error.None? ==> MemberKey(x, p).position == p.position + 1
  {
  }

  // ----- The recursive parser -----

  /** The parser got from `p` to `q`: it fails with reason, or has closed what it opened. */
  predicate Parsed(x: Parse, open: seq<Token>, q: Progress) {
    && Explains(x, q)
    && (q.error.None? ==> q.position <= |x.tokens| && Unclosed(x.tokens[..q.position]) == open && EndsValue(x.tokens, q.position))
  }

  lemma {:induction false} ValueExplains(x: Parse, p: Progress)
    requires p.error.None? && p.position <= |x.tokens| && ExpectsValue(x.tokens, p.position)
    ensures Parsed(x, Unclosed(x.tokens[..p.position]), Value(x, p))
    decreases |x.tokens| - p.position, 3
  {
    if Next(x, p, LeftCurlyBracket) {
      ObjectExplains(x, p);
    } else if Next(x, p, LeftBracket) {
      ArrayExplains(x, p);
    } else {
      ScalarExplains(x, p);
      hide Scalar, Explains, Unclosed;
      if Scalar(x, p).error.None? { TakenOne(x.tokens, p.position); }
    }
  }

  /** An event sent for the token just taken. */
  lemma SendExplains(x: Parse, p: Progress, e: Event)
    requires p.error.None? && Sent(x.tokens, p.position, e) && p.position <= |x.tokens|
    ensures Explains(x, Send(x, p, e))
    ensures Send(x, p, e).position == p.position
  {
    hide Sent, IsMissing;
  }

  lemma OpenExplains(x: Parse, p: Progress, e: Event)
    requires p.error.None? && p.position < |x.tokens|
    requires (e == StartObject && Next(x, p, LeftCurlyBracket)) || (e == StartArray && Next(x, p, LeftBracket))
    ensures var q := Skip(x, Send(x, Take(p), e));
            && Explains(x, q) && q.position == p.position + 1
            && Unclosed(x.tokens[..q.position]) == Unclosed(x.tokens[..p.position]) + [x.tokens[p.position]]
  {
    TakenOne(x.tokens, p.position);
    SendExplains(x, Take(p), e);
    SkipExplains(x, Send(x, Take(p), e));
    hide Unclosed, Explains;
  }

  /** A closing bracket. */
  lemma CloseExplains(x: Parse, p: Progress, e: Event, open: seq<Token>, bracket: Token)
    requires p.error.None? && p.position < |x.tokens|
    requires (e.EndObject? && Next(x, p, RightCurlyBracket)) || (e.EndArray? && Next(x, p, RightBracket))
    requires Unclosed(x.tokens[..p.position]) == open + [bracket]
    ensures Parsed(x, open, Send(x, Take(p), e))
    ensures IsBefore(x.tokens, p.position, Comma) ==> Parsed(x, open, SendThenTake(x, p, e))
  {
    TakenOne(x.tokens, p.position);
    assert (open + [bracket])[..|open|] == open;
    SendExplains(x, Take(p), e);
    if IsBefore(x.tokens, p.position, Comma) { SendExplains(x, p, e); }
    hide Unclosed, Explains;
  }

  lemma {:induction false} ObjectExplains(x: Parse, p: Progress)
    requires p.error.None? && p.position <= |x.tokens| && Next(x, p, LeftCurlyBracket)
    ensures Parsed(x, Unclosed(x.tokens[..p.position]), Object(x, p))
    decreases |x.tokens| - p.position, 2
  {
    hide Unclosed, Explains, Members, Skip, Send, Sent;
    OpenExplains(x, p, StartObject);
    var open := Unclosed(x.tokens[..p.position]);
    var q := Skip(x, Send(x, Take(p), StartObject));
    if q.error.None? {
      if Next(x, q, RightCurlyBracket) {
        CloseExplains(x, q, EndObject(0), open, LeftCurlyBracket);
      } else {
        MembersExplain(x, q, 0, open);
      }
    }
  }

  lemma {:induction false} MembersExplain(x: Parse, p: Progress, count: nat, open: seq<Token>)
    requires p.error.None? && p.position <= |x.tokens| && ExpectsName(x.tokens, p.position)
    requires Unclosed(x.tokens[..p.position]) == open + [LeftCurlyBracket]
    ensures Parsed(x, open, Members(x, p, count))
    decreases |x.tokens| - p.position, 1
  {
    if NextIsString(x, p) {
      KeyExplains(x, p);
      SkipExplains(x, MemberKey(x, p));
      hide Unclosed, Explains, Named, MemberKey, Skip;
      var key := Skip(x, MemberKey(x, p));
      if key.error.None? {
        TakenOne(x.tokens, p.position);
        NamedExplains(x, key, count, open);
      }
    }
  }

  lemma {:induction false} NamedExplains(x: Parse, p: Progress, count: nat, open: seq<Token>)
    requires p.error.None? && 0 < p.position <= |x.tokens| && x.tokens[p.position - 1].StringToken?
    requires Unclosed(x.tokens[..p.position]) == open + [LeftCurlyBracket]
    ensures Parsed(x, open, Named(x, p, count))
    decreases |x.tokens| - p.position, 1
  {
    if Next(x, p, Colon) {
      TakenOne(x.tokens, p.position);
      SkipExplains(x, Take(p));
      hide Unclosed, Explains, AfterMember, Value, Skip;
      var start := Skip(x, Take(p));
      if start.error.None? {
        ValueExplains(x, start);
        var value := Skip(x, Value(x, start));
        SkipExplains(x, Value(x, start));
        if value.error.None? { AfterMemberExplains(x, value, count + 1, open); }
      }
    }
  }

  lemma {:induction false} AfterMemberExplains(x: Parse, p: Progress, count: nat, open: seq<Token>)
    requires p.error.None? && p.position <= |x.tokens| && EndsValue(x.tokens, p.position)
    requires Unclosed(x.tokens[..p.position]) == open + [LeftCurlyBracket]
    ensures Parsed(x, open, AfterMember(x, p, count))
    decreases |x.tokens| - p.position, 0
  {
    if Next(x, p, Comma) {
      TakenOne(x.tokens, p.position);
      SkipExplains(x, Take(p));
      hide Unclosed, Explains, Members, Skip, SendThenTake;
      var q := Skip(x, Take(p));
      if q.error.None? {
        if x.trailingCommas && Next(x, q, RightCurlyBracket) {
          CloseExplains(x, q, EndObject(count), open, LeftCurlyBracket);
        } else {
          MembersExplain(x, q, count, open);
        }
      }
    } else if Next(x, p, RightCurlyBracket) {
      CloseExplains(x, p, EndObject(count), open, LeftCurlyBracket);
    }
  }

  lemma {:induction false} ArrayExplains(x: Parse, p: Progress)
    requires p.error.None? && p.position <= |x.tokens| && Next(x, p, LeftBracket)
    ensures Parsed(x, Unclosed(x.tokens[..p.position]), Array(x, p))
    decreases |x.tokens| - p.position, 2
  {
    hide Unclosed, Explains, Elements, Skip, Send, Sent;
    OpenExplains(x, p, StartArray);
    var open := Unclosed(x.tokens[..p.position]);
    var q := Skip(x, Send(x, Take(p), StartArray));
    if q.error.None? {
      if Next(x, q, RightBracket) {
        CloseExplains(x, q, EndArray(0), open, LeftBracket);
      } else {
        ElementsExplain(x, q, 0, open);
      }
    }
  }

  lemma {:induction false} ElementsExplain(x: Parse, p: Progress, count: nat, open: seq<Token>)
    requires p.error.None? && p.position <= |x.tokens| && ExpectsValue(x.tokens, p.position)
    requires Unclosed(x.tokens[..p.position]) == open + [LeftBracket]
    ensures Parsed(x, open, Elements(x, p, count))
    decreases |x.tokens| - p.position, 4
  {
    ValueExplains(x, p);
    SkipExplains(x, Value(x, p));
    hide Unclosed, Explains, AfterElement, Value, Skip;
    var value := Skip(x, Value(x, p));
    if value.error.None? { AfterElementExplains(x, value, count + 1, open); }
  }

  lemma {:induction false} AfterElementExplains(x: Parse, p: Progress, count: nat, open: seq<Token>)
    requires p.error.None? && p.position <= |x.tokens| && EndsValue(x.tokens, p.position)
    requires Unclosed(x.tokens[..p.position]) == open + [LeftBracket]
    ensures Parsed(x, open, AfterElement(x, p, count))
    decreases |x.tokens| - p.position, 0
  {
    if Next(x, p, Comma) {
      TakenOne(x.tokens, p.position);
      SkipExplains(x, Take(p));
      hide Unclosed, Explains, Elements, Skip, SendThenTake;
      var q := Skip(x, Take(p));
      if q.error.None? {
        if x.trailingCommas && Next(x, q, RightBracket) {
          CloseExplains(x, q, EndArray(count), open, LeftBracket);
        } else {
          ElementsExplain(x, q, count, open);
        }
      }
    } else if Next(x, p, RightBracket) {
      CloseExplains(x, p, EndArray(count), open, LeftBracket);
    }
  }

  /** Every error of the recursive parser has its reason where it is reported. */
  lemma ErrorsAreExplained(x: Parse)
    ensures var r := RecursiveParse(x);
            r.error.Some? ==> Explains(x, Progress(r.offset, r.events, r.error))
  {
    var first := Progress(0, [], None);
    SkipExplains(x, first);
    var start := Skip(x, first);
    if start.error.None? && !AtEnd(x, start) {
      ValueExplains(x, start);
      SkipExplains(x, Value(x, start));
    }
    hide Value, Skip;
  }
}
