/** The iterative parser accepts what the recursive parser accepts, and tells the handler the same
    (thirdparty/rapidjson/reader.h:588-702, 1482-1854). */
module JsonParsers {
  import opened Core
  import opened JsonGrammar

  /** The state once the value is complete that starts in state `src`. */
  function Done(src: State): State { ReturnState(AfterValue(src)) }

  predicate StartsValue(t: Token) {
    IsScalar(t) || t == LeftBracket || t == LeftCurlyBracket
  }

  predicate ExpectsValue(state: State) {
    state in {Start, KeyValueDelimiter, ArrayInitial, ElementDelimiter}
  }

  /** The handler has gone on after all events. */
  predicate Heeded(x: Parse, events: seq<Event>) { events == [] || x.goesOn(events) }

  predicate IsBracket(e: Event) { e.StartObject? || e.EndObject? || e.StartArray? || e.EndArray? }

  /** The handler refused an opening or closing bracket, other than one behind a trailing comma. */
  predicate RefusesBracket(x: Parse, r: Result) {
    && r.error == Some(Termination) && !Heeded(x, r.events) && IsBracket(r.events[|r.events| - 1])
    && 0 < r.offset <= |x.tokens| && x.tokens[r.offset - 1] != Comma
  }

  /** The iterative parser reports such a bracket before it takes it, the recursive one after. */
  function Earlier(x: Parse, r: Result): Result {
    if RefusesBracket(x, r) then r.(offset := r.offset - 1) else r
  }

  /** A machine in a consistent state, with the white space before the next token skipped. */
  predicate Ready(x: Parse, m: Machine) {
    Consistent(m) && m.p.error.None? && !Next(x, m.p, BadComment) && Heeded(x, m.p.events)
  }

  /** The run ends with the error of `q`, or goes on where `q` stopped. */
  ghost predicate RunsTo(x: Parse, m: Machine, q: Progress, state: State, stack: seq<Frame>)
    requires Consistent(m) && m.p.error.None?
  {
    && Advances(x, m.p, q)
    && if q.error.Some? then Run(x, m) == Earlier(x, ResultOf(q))
       else Heeded(x, q.events) && Consistent(Machine(state, stack, q)) && Run(x, m) == Continue(x, Machine(state, stack, q))
  }

  /** One object or array is finished: the frame on top of the stack is gone. */
  ghost predicate RunsToClosed(x: Parse, m: Machine, q: Progress)
    requires Consistent(m) && m.p.error.None? && m.stack != []
  {
    RunsTo(x, m, q, ReturnState(m.stack[|m.stack| - 1].returnTo), m.stack[..|m.stack| - 1])
  }

  // ----- Single steps -----

  /** A step that succeeds goes on; one that fails ends the run. */
  lemma StepRuns(x: Parse, m: Machine)
    requires Ready(x, m) && !AtEnd(x, m.p)
    ensures var n := Transit(x, m);
            if n.state == Error then Run(x, m) == Stuck(n.p, m.state)
            else
              && Consistent(n) && n.p.error.None? && n.p.position == m.p.position + 1 && Heeded(x, n.p.events)
              && Run(x, m) == Continue(x, n)
  {
    TransitHeeded(x, m);
    hide Transit, Consistent, StuckError, Continue;
    TransitKeeps(x, m);
  }

  lemma TransitHeeded(x: Parse, m: Machine)
    requires Ready(x, m) && !AtEnd(x, m.p)
    ensures var n := Transit(x, m);
            n.state != Error ==> Heeded(x, n.p.events)
  {
    hide Predict;
  }

  /** What follows a successful step: the run fails at a malformed comment, else it is ready. */
  lemma SkipRuns(x: Parse, m: Machine)
    requires Consistent(m) && m.p.error.None? && m.state != Finish && Heeded(x, m.p.events)
    ensures var q := Skip(x, m.p);
            if q.error.Some? then Continue(x, m) == Earlier(x, ResultOf(q))
            else q == m.p && Ready(x, m) && Continue(x, m) == Run(x, m)
  {
    hide Transit, Consistent;
  }

  /** An error that is not the handler's is reported at the same place by both. */
  lemma FailsAtOnce(x: Parse, p: Progress, e: ErrorCode)
    requires Heeded(x, p.events)
    ensures Earlier(x, ResultOf(Fail(p, e))) == ResultOf(Fail(p, e))
  {
  }

  lemma ScalarFailsAtOnce(x: Parse, p: Progress)
    requires Heeded(x, p.events)
    ensures var q := Scalar(x, p);
            && (q.error.Some? ==> Earlier(x, ResultOf(q)) == ResultOf(q)) && (q.error.None? ==> Heeded(x, q.events))
    ensures !AtEnd(x, p) ==>
              var q := MemberKey(x, p);
              q.error.Some? ==> Earlier(x, ResultOf(q)) == ResultOf(q)
  {
  }

  lemma EndRuns(x: Parse, m: Machine)
    requires Ready(x, m) && AtEnd(x, m.p) && m.state != Finish
    ensures Run(x, m) == ResultOf(Fail(m.p, StuckError(m.state))) == Earlier(x, ResultOf(Fail(m.p, StuckError(m.state))))
  {
  }

  lemma ScalarRuns(x: Parse, m: Machine)
    requires Ready(x, m) && ExpectsValue(m.state)
    requires !Next(x, m.p, LeftBracket) && !Next(x, m.p, LeftCurlyBracket)
    requires m.state == Start ==> !AtEnd(x, m.p) && IsScalar(x.tokens[m.p.position])
    requires m.state in {ArrayInitial, ElementDelimiter} ==> !Next(x, m.p, RightBracket)
    ensures RunsTo(x, m, Value(x, m.p), Done(m.state), m.stack)
  {
    assert Value(x, m.p) == Scalar(x, m.p);
    hide Run, Continue, Heeded, RefusesBracket, Earlier, ScalarEvent;
    ScalarFailsAtOnce(x, m.p);
    if AtEnd(x, m.p) {
      EndRuns(x, m);
    } else {
      StepRuns(x, m);
    }
  }

  // ----- Values -----

  lemma {:induction false} ValueRuns(x: Parse, m: Machine)
    requires Ready(x, m) && ExpectsValue(m.state)
    requires m.state == Start ==> !AtEnd(x, m.p) && StartsValue(x.tokens[m.p.position])
    requires m.state in {ArrayInitial, ElementDelimiter} ==> !Next(x, m.p, RightBracket)
    ensures RunsTo(x, m, Value(x, m.p), Done(m.state), m.stack)
    decreases |x.tokens| - m.p.position, 3
  {
    hide Run, Continue;
    if Next(x, m.p, LeftCurlyBracket) {
      ObjectRuns(x, m);
    } else if Next(x, m.p, LeftBracket) {
      ArrayRuns(x, m);
    } else {
      ScalarRuns(x, m);
    }
  }

  /** The iterative parser sends the event before it takes the bracket, the recursive one after. */
  lemma SentEarly(x: Parse, p: Progress, e: Event)
    requires p.error.None?
    ensures var late, early := Send(x, Take(p), e), Send(x, p, e);
            && late.error == early.error && late.events == early.events
            && (early.error.None? ==> late == Take(early))
            && early.position == p.position
  {
  }

  /** An opening bracket pushes a frame. */
  lemma Opens(x: Parse, m: Machine)
    requires Ready(x, m) && ExpectsValue(m.state) && (Next(x, m.p, LeftCurlyBracket) || Next(x, m.p, LeftBracket))
    ensures var isObject := Next(x, m.p, LeftCurlyBracket);
            var q := Send(x, m.p, if isObject then StartObject else StartArray);
            Transit(x, m) == Machine(
              if q.error.Some? then Error else if isObject then ObjectInitial else ArrayInitial,
              m.stack + [Frame(AfterValue(m.state), 0)],
              if q.error.Some? then q else Take(q))
  {
  }

  /** A closing bracket right after the opening one pops the frame. */
  lemma ClosesEmpty(x: Parse, m: Machine)
    requires Ready(x, m) && m.stack != [] && m.stack[|m.stack| - 1].count == 0
    requires (m.state == ObjectInitial && Next(x, m.p, RightCurlyBracket)) || (m.state == ArrayInitial && Next(x, m.p, RightBracket))
    ensures var q := Send(x, m.p, if m.state == ObjectInitial then EndObject(0) else EndArray(0));
            Transit(x, m) == Machine(
              if q.error.Some? then Error else ReturnState(m.stack[|m.stack| - 1].returnTo),
              m.stack[..|m.stack| - 1],
              if q.error.Some? then q else Take(q))
  {
  }

  lemma {:induction false} ObjectRuns(x: Parse, m: Machine)
    requires Ready(x, m) && ExpectsValue(m.state) && Next(x, m.p, LeftCurlyBracket)
    ensures RunsTo(x, m, Object(x, m.p), Done(m.state), m.stack)
    decreases |x.tokens| - m.p.position, 2
  {
    assert NeedsFrame(m.state) ==> m.stack != [];
    hide Run, Continue, Members, Transit, Consistent, Send;
    StepRuns(x, m);
    Opens(x, m);
    SentEarly(x, m.p, StartObject);
    var n := Transit(x, m);
    if n.state != Error {
      SkipRuns(x, n);
      if Skip(x, n.p).error.None? { ObjectBodyRuns(x, n); }
    }
  }

  lemma {:induction false} ObjectBodyRuns(x: Parse, m: Machine)
    requires Ready(x, m) && m.state == ObjectInitial && m.stack != [] && m.stack[|m.stack| - 1].count == 0
    ensures RunsToClosed(x, m, if Next(x, m.p, RightCurlyBracket) then Send(x, Take(m.p), EndObject(0)) else Members(x, m.p, 0))
    decreases |x.tokens| - m.p.position, 2
  {
    if Next(x, m.p, RightCurlyBracket) {
      assert NeedsFrame(m.state) ==> m.stack != [];
      hide Run, Continue, Members, Transit, Consistent;
      StepRuns(x, m);
      ClosesEmpty(x, m);
    } else {
      hide Run, Continue, Members, Transit, Consistent;
      MembersRun(x, m, 0);
    }
  }

  lemma {:induction false} MembersRun(x: Parse, m: Machine, count: nat)
    requires Ready(x, m) && m.state in {ObjectInitial, MemberDelimiter} && m.stack[|m.stack| - 1].count == count
    requires Next(x, m.p, RightCurlyBracket) ==> m.state == MemberDelimiter && !x.trailingCommas
    ensures RunsToClosed(x, m, Members(x, m.p, count))
    decreases |x.tokens| - m.p.position, 1
  {
    hide Run, Continue, Heeded, RefusesBracket, Earlier, KeyEvent;
    if AtEnd(x, m.p) {
      EndRuns(x, m);
    } else {
      ScalarFailsAtOnce(x, m.p);
      FailsAtOnce(x, m.p, ObjectMissName);
      StepRuns(x, m);
      var key := Transit(x, m);
      if key.state != Error {
        SkipRuns(x, key);
        if Skip(x, key.p).error.None? { ColonRuns(x, key, count); }
      }
    }
  }

  lemma {:induction false} ColonRuns(x: Parse, m: Machine, count: nat)
    requires Ready(x, m) && m.state == MemberKeyState && m.stack[|m.stack| - 1].count == count
    ensures RunsToClosed(x, m, Named(x, m.p, count))
    decreases |x.tokens| - m.p.position, 1
  {
    hide Run, Continue, Value, AfterMember, Heeded, RefusesBracket, Earlier;
    if AtEnd(x, m.p) {
      EndRuns(x, m);
    } else {
      FailsAtOnce(x, m.p, ObjectMissColon);
      StepRuns(x, m);
      var start := Transit(x, m);
      if start.state != Error {
        SkipRuns(x, start);
        if Skip(x, start.p).error.None? {
          ValueRuns(x, start);
          var value := Machine(MemberValue, start.stack, Value(x, start.p));
          if value.p.error.None? {
            SkipRuns(x, value);
            if Skip(x, value.p).error.None? { AfterMemberRuns(x, value, count + 1); }
          }
        }
      }
    }
  }

  /** Where it is allowed, a comma may be followed by the closing bracket. */
  lemma TrailingCommaRuns(x: Parse, m: Machine, count: nat)
    requires Ready(x, m) && m.stack != [] && m.stack[|m.stack| - 1].count == count && x.trailingCommas
    requires (m.state == MemberDelimiter && Next(x, m.p, RightCurlyBracket)) || (m.state == ElementDelimiter && Next(x, m.p, RightBracket))
    requires m.p.position > 0 && x.tokens[m.p.position - 1] == Comma
    ensures RunsToClosed(x, m, SendThenTake(x, m.p, if m.state == MemberDelimiter then EndObject(count) else EndArray(count)))
  {
    hide Run, Continue;
    StepRuns(x, m);
  }

  /** Behind a member or an element, its closing bracket. */
  lemma ClosingRuns(x: Parse, m: Machine, count: nat)
    requires Ready(x, m) && m.stack != [] && m.stack[|m.stack| - 1].count + 1 == count
    requires (m.state == MemberValue && Next(x, m.p, RightCurlyBracket)) || (m.state == Element && Next(x, m.p, RightBracket))
    ensures RunsToClosed(x, m, Send(x, Take(m.p), if m.state == MemberValue then EndObject(count) else EndArray(count)))
  {
    hide Run, Continue;
    StepRuns(x, m);
  }

  lemma {:induction false} AfterMemberRuns(x: Parse, m: Machine, count: nat)
    requires Ready(x, m) && m.state == MemberValue && m.stack[|m.stack| - 1].count + 1 == count
    ensures RunsToClosed(x, m, AfterMember(x, m.p, count))
    decreases |x.tokens| - m.p.position, 0
  {
    hide Run, Continue, Members, Skip, Heeded, RefusesBracket, Earlier;
    if AtEnd(x, m.p) {
      EndRuns(x, m);
    } else if Next(x, m.p, RightCurlyBracket) {
      ClosingRuns(x, m, count);
    } else {
      StepRuns(x, m);
      if Next(x, m.p, Comma) {
        var n := Transit(x, m);
        SkipRuns(x, n);
        if Skip(x, n.p).error.None? {
          if x.trailingCommas && Next(x, n.p, RightCurlyBracket) {
            TrailingCommaRuns(x, n, count);
          } else {
            MembersRun(x, n, count);
          }
        }
      } else {
        FailsAtOnce(x, m.p, StuckError(m.state));
      }
    }
  }

  lemma {:induction false} ArrayRuns(x: Parse, m: Machine)
    requires Ready(x, m) && ExpectsValue(m.state) && Next(x, m.p, LeftBracket)
    ensures RunsTo(x, m, Array(x, m.p), Done(m.state), m.stack)
    decreases |x.tokens| - m.p.position, 2
  {
    assert NeedsFrame(m.state) ==> m.stack != [];
    hide Run, Continue, Elements, Transit, Consistent, Send;
    StepRuns(x, m);
    Opens(x, m);
    SentEarly(x, m.p, StartArray);
    var n := Transit(x, m);
    if n.state != Error {
      SkipRuns(x, n);
      if Skip(x, n.p).error.None? { ArrayBodyRuns(x, n); }
    }
  }

  lemma {:induction false} ArrayBodyRuns(x: Parse, m: Machine)
    requires Ready(x, m) && m.state == ArrayInitial && m.stack != [] && m.stack[|m.stack| - 1].count == 0
    ensures RunsToClosed(x, m, if Next(x, m.p, RightBracket) then Send(x, Take(m.p), EndArray(0)) else Elements(x, m.p, 0))
    decreases |x.tokens| - m.p.position, 6
  {
    if Next(x, m.p, RightBracket) {
      assert NeedsFrame(m.state) ==> m.stack != [];
      hide Run, Continue, Elements, Transit, Consistent;
      StepRuns(x, m);
      ClosesEmpty(x, m);
    } else {
      hide Run, Continue, Elements, Transit, Consistent;
      ElementsRun(x, m, 0);
    }
  }

  lemma {:induction false} ElementsRun(x: Parse, m: Machine, count: nat)
    requires Ready(x, m) && m.state in {ArrayInitial, ElementDelimiter} && m.stack[|m.stack| - 1].count == count
    requires Next(x, m.p, RightBracket) ==> m.state == ElementDelimiter && !x.trailingCommas
    ensures RunsToClosed(x, m, Elements(x, m.p, count))
    decreases |x.tokens| - m.p.position, 5
  {
    hide Run, Continue;
    if Next(x, m.p, RightBracket) {
      StepRuns(x, m);
    } else {
      ElementRuns(x, m, count);
    }
  }

  lemma {:induction false} ElementRuns(x: Parse, m: Machine, count: nat)
    requires Ready(x, m) && m.state in {ArrayInitial, ElementDelimiter} && m.stack[|m.stack| - 1].count == count
    requires !Next(x, m.p, RightBracket)
    ensures RunsToClosed(x, m, Elements(x, m.p, count))
    decreases |x.tokens| - m.p.position, 4
  {
    hide Run, Continue, Value, AfterElement;
    ValueRuns(x, m);
    var value := Machine(Element, m.stack, Value(x, m.p));
    if value.p.error.None? {
      SkipRuns(x, value);
      if Skip(x, value.p).error.None? { AfterElementRuns(x, value, count + 1); }
    }
  }

  lemma {:induction false} AfterElementRuns(x: Parse, m: Machine, count: nat)
    requires Ready(x, m) && m.state == Element && m.stack[|m.stack| - 1].count + 1 == count
    ensures RunsToClosed(x, m, AfterElement(x, m.p, count))
    decreases |x.tokens| - m.p.position, 0
  {
    hide Run, Continue, Elements, Skip, Heeded, RefusesBracket, Earlier;
    if AtEnd(x, m.p) {
      EndRuns(x, m);
    } else if Next(x, m.p, RightBracket) {
      ClosingRuns(x, m, count);
    } else {
      StepRuns(x, m);
      if Next(x, m.p, Comma) {
        var n := Transit(x, m);
        SkipRuns(x, n);
        if Skip(x, n.p).error.None? {
          if x.trailingCommas && Next(x, n.p, RightBracket) {
            TrailingCommaRuns(x, n, count);
          } else {
            ElementsRun(x, n, count);
          }
        }
      } else {
        FailsAtOnce(x, m.p, StuckError(m.state));
      }
    }
  }

  // ----- The two parsers -----

  /** The input starts, after white space, with a token that starts no value. */
  predicate StartsBadly(x: Parse) {
    |x.tokens| > 0 && x.tokens[0] != BadComment && !StartsValue(x.tokens[0])
  }

  /** Whatever the flags and the handler, both parsers deliver the same events, with the same member
      and element counts, and the same error at the same place, exactly unless the input starts with
      a token that starts no value, or the handler refuses a bracket. In the first case both deliver
      no event but different errors; in the second the iterative parser reports the bracket before
      it, the recursive one behind it. */
  lemma ParsersAgreeIff(x: Parse)
    ensures IterativeParse(x) == RecursiveParse(x) <==> !StartsBadly(x) && !RefusesBracket(x, RecursiveParse(x))
    ensures StartsBadly(x) ==>
              && IterativeParse(x) == Result([], Some(DocumentEmpty), 0)
              && RecursiveParse(x) == Result([], Some(ValueInvalid), 0)
    ensures !StartsBadly(x) ==> IterativeParse(x) == Earlier(x, RecursiveParse(x))
  {
    var start := Progress(0, [], None);
    var m := Machine(Start, [], start);
    if |x.tokens| == 0 {
    } else if x.tokens[0] == BadComment {
    } else if !StartsValue(x.tokens[0]) {
      StepRuns(x, m);
    } else {
      ValueRuns(x, m);
      hide Value;
      var root := Value(x, start);
      if root.error.None? { FinishRuns(x, Machine(Finish, [], root)); }
    }
  }

  /** A handler that refuses the opening bracket is reported behind it by one parser only. */
  lemma OffsetsDiffer()
    ensures var x := Parse([LeftBracket, RightBracket], false, false, events => false);
            && RecursiveParse(x) == Result([StartArray], Some(Termination), 1)
            && IterativeParse(x) == Result([StartArray], Some(Termination), 0)
  {
    var x := Parse([LeftBracket, RightBracket], false, false, events => false);
    assert Skip(x, Progress(0, [], None)) == Progress(0, [], None);
    assert [] + [StartArray] == [StartArray];
    ParsersAgreeIff(x);
  }

  /** After the root value. */
  lemma FinishRuns(x: Parse, m: Machine)
    requires Consistent(m) && m.p.error.None? && m.state == Finish && m.p.position <= |x.tokens| && Heeded(x, m.p.events)
    ensures var r :=
              if x.stopWhenDone then ResultOf(m.p) else
                var end := Skip(x, m.p);
                if end.error.Some? || AtEnd(x, end) then ResultOf(end) else ResultOf(Fail(end, DocumentRootNotSingular));
            Continue(x, m) == r == Earlier(x, r)
  {
  }
}
