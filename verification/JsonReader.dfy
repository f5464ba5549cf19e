/** The JSON reader: a stream cursor, an error field, the events sent so far, and the explicit stack
    of the iterative parser (thirdparty/rapidjson/reader.h:466-516, 588-702, 1389-1404, 1626-1854). */
module JsonReader {
  import opened Core
  import G = JsonGrammar
  import opened JsonGrammar

  class Reader {
    const x: Parse
    var position: nat
    var events: seq<Event>
    var error: Option<ErrorCode>
    var stack: seq<Frame>

    constructor (x: Parse)
      ensures this.x == x && Here() == Progress(0, [], None) && stack == []
    {
      this.x := x;
      position, events, error, stack := 0, [], None, [];
    }

    ghost function Here(): Progress
      reads this`position, this`events, this`error
    {
      Progress(position, events, error)
    }

    method Peeks(t: Token) returns (next: bool)
      ensures next <==> Next(x, Here(), t)
    {
      next := position < |x.tokens| && x.tokens[position] == t;
    }

    method Consume(t: Token) returns (taken: bool)
      modifies this`position
      ensures taken <==> Next(x, old(Here()), t)
      ensures Here() == if taken then Take(old(Here())) else old(Here())
    {
      taken := position < |x.tokens| && x.tokens[position] == t;
      if taken {
        position := position + 1;
      }
    }

    method SkipWhitespaceAndComments()
      requires error.None?
      modifies this`error
      ensures Here() == Skip(x, old(Here()))
    {
      if position < |x.tokens| && x.tokens[position] == BadComment {
        error := Some(UnspecificSyntaxError);
      }
    }

    /** Calls the handler; a handler that stops sets the error. */
    method Handle(e: Event)
      requires error.None?
      modifies this`events, this`error
      ensures Here() == Send(x, old(Here()), e)
    {
      events := events + [e];
      if !x.goesOn(events) {
        error := Some(Termination);
      }
    }

    /** Takes the token unless the handler stops. */
    method HandleThenTake(e: Event)
      requires error.None?
      modifies this`position, this`events, this`error
      ensures Here() == SendThenTake(x, old(Here()), e)
    {
      Handle(e);
      if error.None? {
        position := position + 1;
      }
    }

    method HandleScanned(scanned: Scanned<Event>)
      requires error.None?
      modifies this`position, this`events, this`error
      ensures Here() == SendScanned(x, old(Here()), scanned)
    {
      match scanned {
        case Malformed(e) => error := Some(e);
        case Read(event) =>
          if event.Number? {
            HandleThenTake(event);
          } else {
            position := position + 1;
            Handle(event);
          }
      }
    }

    method ParseScalar()
      requires error.None?
      modifies this`position, this`events, this`error
      ensures Here() == Scalar(x, old(Here()))
    {
      if position >= |x.tokens| {
        error := Some(ValueInvalid);
      } else {
        HandleScanned(ScalarEvent(x.tokens[position]));
      }
    }

    // ----- Recursive parsing -----

    method ParseValue()
      requires error.None?
      modifies this`position, this`events, this`error
      ensures Here() == Value(x, old(Here()))
      decreases |x.tokens| - position, 3
    {
      var isObject := Peeks(LeftCurlyBracket);
      var isArray := Peeks(LeftBracket);
      if isObject {
        ParseObject();
      } else if isArray {
        ParseArray();
      } else {
        ParseScalar();
      }
    }

    method ParseObject()
      requires error.None? && Next(x, Here(), LeftCurlyBracket)
      modifies this`position, this`events, this`error
      ensures Here() == Object(x, old(Here()))
      decreases |x.tokens| - position, 2
    {
      hide Members, Value;
      position := position + 1;
      Handle(StartObject);
      if error.Some? { return; }
      SkipWhitespaceAndComments();
      if error.Some? { return; }
      var empty := Consume(RightCurlyBracket);
      if empty {
        Handle(EndObject(0));
        return;
      }
      ParseMembers();
    }

    /** The loop over the members. */
    method ParseMembers()
      requires error.None?
      modifies this`position, this`events, this`error
      ensures Here() == Members(x, old(Here()), 0)
      decreases |x.tokens| - position, 1
    {
      var memberCount := 0;
      ghost var start := position;
      while true
        invariant error.None? && position >= start
        invariant Members(x, Here(), memberCount) == Members(x, old(Here()), 0)
        decreases |x.tokens| - position
      {
        ParseMember();
        if error.Some? { return; }
        memberCount := memberCount + 1;
        var done := EndMember(memberCount);
        if done { return; }
      }
    }

    /** A name, a colon and a value. */
    method ParseMember()
      requires error.None?
      modifies this`position, this`events, this`error
      ensures error.None? ==> position > old(position)
      ensures forall count: nat :: Members(x, old(Here()), count) ==
                if error.Some? then Here() else AfterMember(x, Here(), count + 1)
      decreases |x.tokens| - position, 0
    {
      hide AfterMember, Value, SendScanned;
      if !(position < |x.tokens| && x.tokens[position].StringToken?) {
        error := Some(ObjectMissName);
        return;
      }
      HandleScanned(KeyEvent(x.tokens[position]));
      assert Here() == MemberKey(x, old(Here()));
      if error.Some? { return; }
      assert position == old(position) + 1 by { KeyAdvances(x, old(Here())); }
      SkipWhitespaceAndComments();
      if error.Some? { return; }
      var colon := Consume(Colon);
      if !colon {
        error := Some(ObjectMissColon);
        return;
      }
      SkipWhitespaceAndComments();
      if error.Some? { return; }
      ParseValue();
      if error.Some? { return; }
      SkipWhitespaceAndComments();
    }

    /** A comma or the closing bracket. */
    method EndMember(memberCount: nat) returns (done: bool)
      requires error.None?
      modifies this`position, this`events, this`error
      ensures done ==> Here() == AfterMember(x, old(Here()), memberCount)
      ensures !done ==> error.None? && position > old(position)
      ensures !done ==> AfterMember(x, old(Here()), memberCount) == Members(x, Here(), memberCount)
    {
      hide Members;
      done := true;
      var comma := Consume(Comma);
      if comma {
        SkipWhitespaceAndComments();
        if error.Some? { return; }
        if x.trailingCommas {
          var last := Peeks(RightCurlyBracket);
          if last {
            HandleThenTake(EndObject(memberCount));
            return;
          }
        }
        done := false;
        return;
      }
      var last := Consume(RightCurlyBracket);
      if last {
        Handle(EndObject(memberCount));
      } else {
        error := Some(ObjectMissCommaOrCurlyBracket);
      }
    }

    method ParseArray()
      requires error.None? && Next(x, Here(), LeftBracket)
      modifies this`position, this`events, this`error
      ensures Here() == Array(x, old(Here()))
      decreases |x.tokens| - position, 2
    {
      hide Elements, Value;
      position := position + 1;
      Handle(StartArray);
      if error.Some? { return; }
      SkipWhitespaceAndComments();
      if error.Some? { return; }
      var empty := Consume(RightBracket);
      if empty {
        Handle(EndArray(0));
        return;
      }
      ParseElements();
    }

    /** The loop over the elements. */
    method ParseElements()
      requires error.None?
      modifies this`position, this`events, this`error
      ensures Here() == Elements(x, old(Here()), 0)
      decreases |x.tokens| - position, 4
    {
      var elementCount := 0;
      ghost var start := position;
      while true
        invariant error.None? && position >= start
        invariant Elements(x, Here(), elementCount) == Elements(x, old(Here()), 0)
        decreases |x.tokens| - position
      {
        ParseValue();
        if error.Some? { return; }
        elementCount := elementCount + 1;
        SkipWhitespaceAndComments();
        if error.Some? { return; }
        var done := EndElement(elementCount);
        if done { return; }
      }
    }

    method EndElement(elementCount: nat) returns (done: bool)
      requires error.None?
      modifies this`position, this`events, this`error
      ensures done ==> Here() == AfterElement(x, old(Here()), elementCount)
      ensures !done ==> error.None? && position > old(position)
      ensures !done ==> AfterElement(x, old(Here()), elementCount) == Elements(x, Here(), elementCount)
    {
      hide Elements;
      done := true;
      var comma := Consume(Comma);
      if comma {
        SkipWhitespaceAndComments();
        if error.Some? { return; }
      } else {
        var last := Consume(RightBracket);
        if last {
          Handle(EndArray(elementCount));
        } else {
          error := Some(ArrayMissCommaOrSquareBracket);
        }
        return;
      }
      if x.trailingCommas {
        var last := Peeks(RightBracket);
        if last {
          HandleThenTake(EndArray(elementCount));
          return;
        }
      }
      done := false;
    }

    method ParseRecursively()
      requires Here() == Progress(0, [], None)
      modifies this`position, this`events, this`error
      ensures ResultOf(Here()) == RecursiveParse(x)
    {
      hide Value;
      SkipWhitespaceAndComments();
      if error.Some? { return; }
      if position >= |x.tokens| {
        error := Some(DocumentEmpty);
        return;
      }
      ParseValue();
      if error.Some? || x.stopWhenDone { return; }
      SkipWhitespaceAndComments();
      if error.Some? { return; }
      if position < |x.tokens| {
        error := Some(DocumentRootNotSingular);
      }
    }

    // ----- Iterative parsing -----

    ghost function MachineIn(state: State): Machine
      reads this`position, this`events, this`error, this`stack
    {
      Machine(state, stack, Here())
    }

    /** One transition to the predicted state; on the end of a value, to the state on the stack. */
    method Transit(src: State, token: Token, dst: State) returns (d: State)
      requires error.None? && Consistent(MachineIn(src))
      requires Next(x, Here(), token) && dst == Predict(src, token)
      modifies this`position, this`events, this`error, this`stack
      ensures MachineIn(d) == G.Transit(x, old(MachineIn(src)))
    {
      assert dst in {MemberDelimiter, ElementDelimiter, ObjectFinish, ArrayFinish} ==> stack != [];
      if dst == Error {
        d := Error;
      } else if dst == ObjectInitial {
        d := Open(src, dst, StartObject);
      } else if dst == ArrayInitial {
        d := Open(src, dst, StartArray);
      } else if dst == MemberKeyState {
        d := ConsumeKey(src, token);
      } else if dst == KeyValueDelimiter {
        position := position + 1;
        d := dst;
      } else if dst == MemberValue || dst == Element {
        d := ConsumeScalar(src, dst);
      } else if dst == MemberDelimiter || dst == ElementDelimiter {
        CountOne();
        d := dst;
      } else if dst == ObjectFinish {
        d := CloseUnlessMissing(src, MemberDelimiter, ObjectMissName, MemberValue, (n: nat) => EndObject(n));
      } else if dst == ArrayFinish {
        d := CloseUnlessMissing(src, ElementDelimiter, ValueInvalid, Element, (n: nat) => EndArray(n));
      } else {
        d := ConsumeScalar(src, Finish);
      }
    }

    /** Pushes the state to return to and a count of 0. */
    method Open(src: State, dst: State, start: Event) returns (d: State)
      requires error.None?
      modifies this`position, this`events, this`error, this`stack
      ensures MachineIn(d) == G.Open(x, old(MachineIn(src)), dst, start)
    {
      PushFrame(src);
      HandleThenTake(start);
      d := if error.Some? then Error else dst;
    }

    method ConsumeKey(ghost src: State, token: Token) returns (d: State)
      requires error.None? && Next(x, Here(), token)
      modifies this`position, this`events, this`error
      ensures MachineIn(d) == G.Consume(x, old(MachineIn(src)), MemberKeyState, MemberKey(x, old(Here())))
    {
      HandleScanned(KeyEvent(token));
      d := if error.Some? then Error else MemberKeyState;
    }

    method ConsumeScalar(ghost src: State, dst: State) returns (d: State)
      requires error.None?
      modifies this`position, this`events, this`error
      ensures MachineIn(d) == G.Consume(x, old(MachineIn(src)), dst, Scalar(x, old(Here())))
    {
      ParseScalar();
      d := if error.Some? then Error else dst;
    }

    /** Takes a comma and counts the member or element before it. */
    method CountOne()
      requires error.None? && stack != []
      modifies this`position, this`stack
      ensures Here() == Take(old(Here()))
      ensures stack == old(WithCount(stack, stack[|stack| - 1].count + 1))
    {
      position := position + 1;
      stack := WithCount(stack, stack[|stack| - 1].count + 1);
    }

    method PushFrame(src: State)
      modifies this`stack
      ensures stack == old(stack) + [Frame(AfterValue(src), 0)]
    {
      var n := StateToReturnTo(src);
      stack := stack + [Frame(n, 0)];
    }

    method StateToReturnTo(src: State) returns (n: State)
      ensures n == AfterValue(src)
    {
      n := src;
      if src == ArrayInitial || src == ElementDelimiter {
        n := Element;
      } else if src == KeyValueDelimiter {
        n := MemberValue;
      }
    }

    method CloseUnlessMissing(src: State, delimiter: State, missing: ErrorCode, last: State, event: nat -> Event)
      returns (d: State)
      requires error.None? && stack != []
      modifies this`position, this`events, this`error, this`stack
      ensures MachineIn(d) == G.CloseUnlessMissing(x, old(MachineIn(src)), delimiter, missing, last, event)
    {
      if !x.trailingCommas && src == delimiter {
        error := Some(missing);
        return Error;
      }
      d := Close(src, src == last, event);
    }

    /** Pops the count and the state to return to. */
    method Close(src: State, lastCounts: bool, event: nat -> Event) returns (d: State)
      requires error.None? && stack != []
      modifies this`position, this`events, this`error, this`stack
      ensures MachineIn(d) == G.Close(x, old(MachineIn(src)), lastCounts, event)
    {
      var c := stack[|stack| - 1].count;
      if lastCounts {
        c := c + 1;
      }
      var n := stack[|stack| - 1].returnTo;
      stack := stack[..|stack| - 1];
      if n == Start {
        n := Finish;
      }
      HandleThenTake(event(c));
      d := if error.Some? then Error else n;
    }

    method HandleError(src: State)
      modifies this`error
      ensures ResultOf(Here()) == Stuck(old(Here()), src)
    {
      if error.None? {
        error := Some(StuckError(src));
      }
    }

    method ParseIteratively()
      requires Here() == Progress(0, [], None) && stack == []
      modifies this
      ensures ResultOf(Here()) == IterativeParse(x)
    {
      hide G.Transit, Consistent;
      var state := Start;
      StartIsConsistent(x);
      SkipWhitespaceAndComments();
      if error.Some? { return; }
      while position < |x.tokens|
        invariant error.None? && Consistent(MachineIn(state)) && !Next(x, Here(), BadComment)
        invariant Run(x, MachineIn(state)) == IterativeParse(x)
      {
        ghost var m := MachineIn(state);
        TransitKeeps(x, m);
        var t := x.tokens[position];
        var n := Predict(state, t);
        var d := Transit(state, t, n);
        if d == Error {
          HandleError(state);
          return;
        }
        state := d;
        assert Continue(x, MachineIn(state)) == IterativeParse(x);
        if x.stopWhenDone && state == Finish { return; }
        assert Run(x, MachineIn(state)) == IterativeParse(x);
        SkipWhitespaceAndComments();
        if error.Some? { return; }
      }
      if state != Finish {
        HandleError(state);
      }
    }
  }

  lemma KeyAdvances(x: Parse, p: Progress)
    requires p.error.None? && !AtEnd(x, p)
    ensures MemberKey(x, p).error.None? ==> MemberKey(x, p).position == p.position + 1
  {
  }

  lemma StartIsConsistent(x: Parse)
    ensures Consistent(Machine(Start, [], Progress(0, [], None)))
  {
  }

  /** Parses with the algorithm the flag asks for. */
  method ParseDocument(x: Parse, iterative: bool)
    returns (events: seq<Event>, error: Option<ErrorCode>, offset: nat)
    ensures Result(events, error, offset) == if iterative then IterativeParse(x) else RecursiveParse(x)
  {
    var reader := new Reader(x);
    if iterative {
      reader.ParseIteratively();
    } else {
      reader.ParseRecursively();
    }
    events, error, offset := reader.events, reader.error, if reader.error.Some? then reader.position else 0;
  }
}
