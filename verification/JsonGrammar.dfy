/** The two JSON parsers over tokens, as functions: the recursive one, and one step of the
    iterative one (thirdparty/rapidjson/reader.h:588-702, 1389-1404, 1408-1791). White space and
    comments are skipped between tokens; a malformed comment is a token of its own. */
module JsonGrammar {
  import opened Core

  datatype ErrorCode =
    | DocumentEmpty | DocumentRootNotSingular | ValueInvalid
    | ObjectMissName | ObjectMissColon | ObjectMissCommaOrCurlyBracket | ArrayMissCommaOrSquareBracket
    | StringEscapeInvalid | StringMissQuotationMark | StringInvalidEncoding
    | StringUnicodeEscapeInvalidHex | StringUnicodeSurrogateInvalid
    | NumberTooBig | NumberMissFraction | NumberMissExponent
    | Termination | UnspecificSyntaxError

  /** The contents of a scalar as far as it can be read. */
  datatype Scanned<+T> = Read(value: T) | Malformed(error: ErrorCode)

  datatype Token =
    | LeftBracket | RightBracket | LeftCurlyBracket | RightCurlyBracket | Comma | Colon
    | StringToken(text: Scanned<string>)
    | FalseToken(f: Scanned<()>) | TrueToken(t: Scanned<()>) | NullToken(n: Scanned<()>)
    | NumberToken(number: Scanned<string>)
    | BadComment

  datatype Event =
    | Null | Bool(b: bool) | Number(number: string) | String(s: string) | Key(key: string)
    | StartObject | EndObject(memberCount: nat)
    | StartArray | EndArray(elementCount: nat)

  /** The parse flags, the input, and the handler: whether it goes on after the events so far. */
  datatype Parse = Parse(tokens: seq<Token>, trailingCommas: bool, stopWhenDone: bool, goesOn: seq<Event> -> bool)

  /** The stream cursor, the events sent, and the error field. */
  datatype Progress = Progress(position: nat, events: seq<Event>, error: Option<ErrorCode>)

  predicate AtEnd(x: Parse, p: Progress) { p.position >= |x.tokens| }

  predicate Next(x: Parse, p: Progress, t: Token) {
    p.position < |x.tokens| && x.tokens[p.position] == t
  }

  predicate NextIsString(x: Parse, p: Progress) {
    p.position < |x.tokens| && x.tokens[p.position].StringToken?
  }

  function Fail(p: Progress, e: ErrorCode): Progress { p.(error := Some(e)) }

  function Take(p: Progress): Progress { p.(position := p.position + 1) }

  function Send(x: Parse, p: Progress, e: Event): Progress {
    var events := p.events + [e];
    if x.goesOn(events) then p.(events := events) else Progress(p.position, events, Some(Termination))
  }

  function SendThenTake(x: Parse, p: Progress, e: Event): Progress {
    var q := Send(x, p, e);
    if q.error.Some? then q else Take(q)
  }

  /** Skipping white space and comments fails on a malformed comment. */
  function Skip(x: Parse, p: Progress): Progress {
    if p.error.None? && Next(x, p, BadComment) then Fail(p, UnspecificSyntaxError) else p
  }

  /** A number that the handler refuses is reported where it starts, other scalars where they end. */
  function SendScanned(x: Parse, p: Progress, scanned: Scanned<Event>): Progress {
    match scanned
    case Malformed(e) => Fail(p, e)
    case Read(event) => if event.Number? then SendThenTake(x, p, event) else Send(x, Take(p), event)
  }

  function AsEvent<T>(scanned: Scanned<T>, event: T -> Event): Scanned<Event> {
    match scanned
    case Malformed(e) => Malformed(e)
    case Read(value) => Read(event(value))
  }

  /** What a scalar token stands for; a token that starts no value fails as a number would. */
  function ScalarEvent(t: Token): Scanned<Event> {
    match t
    case StringToken(text) => AsEvent(text, s => String(s))
    case FalseToken(f) => AsEvent(f, _ => Bool(false))
    case TrueToken(b) => AsEvent(b, _ => Bool(true))
    case NullToken(n) => AsEvent(n, _ => Null)
    case NumberToken(number) => AsEvent(number, s => Number(s))
    case _ => Malformed(ValueInvalid)
  }

  function KeyEvent(t: Token): Scanned<Event> {
    match t
    case StringToken(text) => AsEvent(text, s => Key(s))
    case _ => Malformed(ValueInvalid)
  }

  function Scalar(x: Parse, p: Progress): Progress {
    if AtEnd(x, p) then Fail(p, ValueInvalid) else SendScanned(x, p, ScalarEvent(x.tokens[p.position]))
  }

  function MemberKey(x: Parse, p: Progress): Progress
    requires !AtEnd(x, p)
  {
    SendScanned(x, p, KeyEvent(x.tokens[p.position]))
  }

  /** Progress from a state without error: it may fail, otherwise it has consumed something. */
  predicate Advances(x: Parse, p: Progress, q: Progress) {
    q.error.None? ==> p.position < q.position <= |x.tokens|
  }

  // ----- The recursive parser -----

  function Value(x: Parse, p: Progress): (q: Progress)
    requires p.error.None?
    ensures Advances(x, p, q)
    decreases |x.tokens| - p.position, 3
  {
    if Next(x, p, LeftCurlyBracket) then Object(x, p)
    else if Next(x, p, LeftBracket) then Array(x, p)
    else Scalar(x, p)
  }

  function Object(x: Parse, p: Progress): (q: Progress)
    requires p.error.None? && Next(x, p, LeftCurlyBracket)
    ensures Advances(x, p, q)
    decreases |x.tokens| - p.position, 2
  {
    var q := Skip(x, Send(x, Take(p), StartObject));
    if q.error.Some? then q
    else if Next(x, q, RightCurlyBracket) then Send(x, Take(q), EndObject(0))
    else Members(x, q, 0)
  }

  /** A member, from its name on, after `count` members. */
  function Members(x: Parse, p: Progress, count: nat): (q: Progress)
    requires p.error.None?
    ensures Advances(x, p, q)
    decreases |x.tokens| - p.position, 1
  {
    if !NextIsString(x, p) then Fail(p, ObjectMissName) else
      var key := Skip(x, MemberKey(x, p));
      if key.error.Some? then key else Named(x, key, count)
  }

  /** A member, from the colon on. */
  function Named(x: Parse, p: Progress, count: nat): (q: Progress)
    requires p.error.None?
    ensures Advances(x, p, q)
    decreases |x.tokens| - p.position, 1
  {
    if !Next(x, p, Colon) then Fail(p, ObjectMissColon) else
      var start := Skip(x, Take(p));
      if start.error.Some? then start else
        var value := Skip(x, Value(x, start));
        if value.error.Some? then value else AfterMember(x, value, count + 1)
  }

  function AfterMember(x: Parse, p: Progress, count: nat): (q: Progress)
    requires p.error.None?
    ensures Advances(x, p, q)
    decreases |x.tokens| - p.position, 0
  {
    if Next(x, p, Comma) then
      var q := Skip(x, Take(p));
      if q.error.Some? then q
      else if x.trailingCommas && Next(x, q, RightCurlyBracket) then SendThenTake(x, q, EndObject(count))
      else Members(x, q, count)
    else if Next(x, p, RightCurlyBracket) then Send(x, Take(p), EndObject(count))
    else Fail(p, ObjectMissCommaOrCurlyBracket)
  }

  function Array(x: Parse, p: Progress): (q: Progress)
    requires p.error.None? && Next(x, p, LeftBracket)
    ensures Advances(x, p, q)
    decreases |x.tokens| - p.position, 2
  {
    var q := Skip(x, Send(x, Take(p), StartArray));
    if q.error.Some? then q
    else if Next(x, q, RightBracket) then Send(x, Take(q), EndArray(0))
    else Elements(x, q, 0)
  }

  function Elements(x: Parse, p: Progress, count: nat): (q: Progress)
    requires p.error.None?
    ensures Advances(x, p, q)
    decreases |x.tokens| - p.position, 4
  {
    var value := Skip(x, Value(x, p));
    if value.error.Some? then value else AfterElement(x, value, count + 1)
  }

  function AfterElement(x: Parse, p: Progress, count: nat): (q: Progress)
    requires p.error.None?
    ensures Advances(x, p, q)
    decreases |x.tokens| - p.position, 0
  {
    if Next(x, p, Comma) then
      var q := Skip(x, Take(p));
      if q.error.Some? then q
      else if x.trailingCommas && Next(x, q, RightBracket) then SendThenTake(x, q, EndArray(count))
      else Elements(x, q, count)
    else if Next(x, p, RightBracket) then Send(x, Take(p), EndArray(count))
    else Fail(p, ArrayMissCommaOrSquareBracket)
  }

  /** The events delivered and the error, if any, with the number of tokens before it. */
  datatype Result = Result(events: seq<Event>, error: Option<ErrorCode>, offset: nat)

  function ResultOf(p: Progress): Result { Result(p.events, p.error, if p.error.Some? then p.position else 0) }

  function RecursiveParse(x: Parse): Result {
    var start := Skip(x, Progress(0, [], None));
    if start.error.Some? then ResultOf(start)
    else if AtEnd(x, start) then ResultOf(Fail(start, DocumentEmpty))
    else
      var root := Value(x, start);
      if root.error.Some? || x.stopWhenDone then ResultOf(root) else
        var end := Skip(x, root);
        if end.error.Some? || AtEnd(x, end) then ResultOf(end) else ResultOf(Fail(end, DocumentRootNotSingular))
  }

  // ----- The iterative parser -----

  datatype State =
    | Start | Finish | Error
    | ObjectInitial | MemberKeyState | KeyValueDelimiter | MemberValue | MemberDelimiter | ObjectFinish
    | ArrayInitial | Element | ElementDelimiter | ArrayFinish
    | ValueState

  /** The state to return to and the number of members or elements before the last one. */
  datatype Frame = Frame(returnTo: State, count: nat)

  predicate IsScalar(t: Token) {
    t.StringToken? || t.FalseToken? || t.TrueToken? || t.NullToken? || t.NumberToken?
  }

  /** The transition table. */
  function Predict(state: State, t: Token): State {
    match state
    case Start =>
      if t == LeftBracket then ArrayInitial
      else if t == LeftCurlyBracket then ObjectInitial
      else if IsScalar(t) then ValueState else Error
    case ObjectInitial | MemberDelimiter =>
      if t == RightCurlyBracket then ObjectFinish
      else if t.StringToken? then MemberKeyState else Error
    case MemberKeyState =>
      if t == Colon then KeyValueDelimiter else Error
    case KeyValueDelimiter =>
      if t == LeftBracket then ArrayInitial
      else if t == LeftCurlyBracket then ObjectInitial
      else if IsScalar(t) then MemberValue else Error
    case MemberValue =>
      if t == RightCurlyBracket then ObjectFinish
      else if t == Comma then MemberDelimiter else Error
    case ArrayInitial | ElementDelimiter =>
      if t == LeftBracket then ArrayInitial
      else if t == RightBracket then ArrayFinish
      else if t == LeftCurlyBracket then ObjectInitial
      else if IsScalar(t) then Element else Error
    case Element =>
      if t == RightBracket then ArrayFinish
      else if t == Comma then ElementDelimiter else Error
    case Finish | Error | ObjectFinish | ArrayFinish | ValueState => Error
  }

  /** The error of the state where the parser got stuck. */
  function StuckError(state: State): ErrorCode {
    match state
    case Start => DocumentEmpty
    case Finish => DocumentRootNotSingular
    case ObjectInitial | MemberDelimiter => ObjectMissName
    case MemberKeyState => ObjectMissColon
    case MemberValue => ObjectMissCommaOrCurlyBracket
    case KeyValueDelimiter | ArrayInitial | ElementDelimiter => ValueInvalid
    case _ => ArrayMissCommaOrSquareBracket
  }

  /** Where the parser is once a value that started in this state is complete. */
  function AfterValue(src: State): State {
    match src
    case ArrayInitial | ElementDelimiter => Element
    case KeyValueDelimiter => MemberValue
    case _ => src
  }

  function ReturnState(n: State): State { if n == Start then Finish else n }

  datatype Machine = Machine(state: State, stack: seq<Frame>, p: Progress)

  function WithCount(stack: seq<Frame>, count: nat): seq<Frame>
    requires stack != []
  {
    stack[|stack| - 1 := stack[|stack| - 1].(count := count)]
  }

  /** The state names the frame that is needed: inside an object or an array there is one. */
  predicate NeedsFrame(state: State) {
    state !in {Start, Finish, Error, ValueState}
  }

  /** Closes the innermost object or array. */
  function Close(x: Parse, m: Machine, lastCounts: bool, event: nat -> Event): Machine
    requires m.stack != []
  {
    var frame := m.stack[|m.stack| - 1];
    var q := Send(x, m.p, event(if lastCounts then frame.count + 1 else frame.count));
    if q.error.Some? then Machine(Error, m.stack[..|m.stack| - 1], q)
    else Machine(ReturnState(frame.returnTo), m.stack[..|m.stack| - 1], Take(q))
  }

  /** Behind a comma a closing bracket is an error, unless trailing commas are allowed. */
  function CloseUnlessMissing(
    x: Parse, m: Machine, delimiter: State, missing: ErrorCode, last: State, event: nat -> Event): Machine
    requires m.stack != []
  {
    if !x.trailingCommas && m.state == delimiter then Machine(Error, m.stack, Fail(m.p, missing))
    else Close(x, m, m.state == last, event)
  }

  function Open(x: Parse, m: Machine, dst: State, event: Event): Machine {
    var stack := m.stack + [Frame(AfterValue(m.state), 0)];
    var q := Send(x, m.p, event);
    if q.error.Some? then Machine(Error, stack, q) else Machine(dst, stack, Take(q))
  }

  function Consume(x: Parse, m: Machine, dst: State, q: Progress): Machine {
    if q.error.Some? then Machine(Error, m.stack, q) else Machine(dst, m.stack, q)
  }

  /** One transition on the next token. */
  function Transit(x: Parse, m: Machine): Machine
    requires !AtEnd(x, m.p) && m.p.error.None?
    requires NeedsFrame(m.state) ==> m.stack != []
  {
    var dst := Predict(m.state, x.tokens[m.p.position]);
    match dst
    case Error => m.(state := Error)
    case ObjectInitial => Open(x, m, dst, StartObject)
    case ArrayInitial => Open(x, m, dst, StartArray)
    case MemberKeyState => Consume(x, m, dst, MemberKey(x, m.p))
    case KeyValueDelimiter => m.(state := dst, p := Take(m.p))
    case MemberValue | Element => Consume(x, m, dst, Scalar(x, m.p))
    case MemberDelimiter | ElementDelimiter =>
      Machine(dst, WithCount(m.stack, m.stack[|m.stack| - 1].count + 1), Take(m.p))
    case ObjectFinish => CloseUnlessMissing(x, m, MemberDelimiter, ObjectMissName, MemberValue, (n: nat) => EndObject(n))
    case ArrayFinish => CloseUnlessMissing(x, m, ElementDelimiter, ValueInvalid, Element, (n: nat) => EndArray(n))
    case _ => Consume(x, m, Finish, Scalar(x, m.p))
  }

  function Stuck(p: Progress, state: State): Result {
    if p.error.Some? then ResultOf(p) else ResultOf(Fail(p, StuckError(state)))
  }

  /** The frames of a machine fit its state. */
  predicate Consistent(m: Machine) {
    && (m.stack != [] <==> NeedsFrame(m.state))
    && (m.stack != [] ==> m.stack[0].returnTo == Start)
    && (forall k :: 0 < k < |m.stack| ==> m.stack[k].returnTo in {Element, MemberValue})
  }

  lemma CloseKeeps(x: Parse, m: Machine, lastCounts: bool, event: nat -> Event)
    requires m.stack != [] && Consistent(m) && m.p.error.None?
    ensures var n := Close(x, m, lastCounts, event);
            n.state != Error ==> Consistent(n) && n.p.error.None? && n.p.position == m.p.position + 1
  {
  }

  lemma OpenKeeps(x: Parse, m: Machine, dst: State, event: Event)
    requires Consistent(m) && m.p.error.None? && dst in {ObjectInitial, ArrayInitial}
    requires m.state in {Start, KeyValueDelimiter, ArrayInitial, ElementDelimiter}
    ensures var n := Open(x, m, dst, event);
            n.state != Error ==> Consistent(n) && n.p.error.None? && n.p.position == m.p.position + 1
  {
  }

  lemma TransitKeeps(x: Parse, m: Machine)
    requires !AtEnd(x, m.p) && m.p.error.None? && Consistent(m)
    ensures var n := Transit(x, m);
            n.state != Error ==> Consistent(n) && n.p.error.None? && n.p.position == m.p.position + 1
  {
    hide Close, Open;
    var dst := Predict(m.state, x.tokens[m.p.position]);
    if dst == ObjectInitial {
      OpenKeeps(x, m, dst, StartObject);
    } else if dst == ArrayInitial {
      OpenKeeps(x, m, dst, StartArray);
    } else if dst == ObjectFinish {
      CloseKeeps(x, m, m.state == MemberValue, (n: nat) => EndObject(n));
    } else if dst == ArrayFinish {
      CloseKeeps(x, m, m.state == Element, (n: nat) => EndArray(n));
    }
  }

  /** The iterative parser from a state on. */
  function Run(x: Parse, m: Machine): Result
    requires Consistent(m) && m.p.error.None?
    decreases |x.tokens| - m.p.position, 0
  {
    if AtEnd(x, m.p) then
      if m.state == Finish then ResultOf(m.p) else Stuck(m.p, m.state)
    else if Next(x, m.p, BadComment) then ResultOf(Fail(m.p, UnspecificSyntaxError))
    else
      TransitKeeps(x, m);
      var n := Transit(x, m);
      if n.state == Error then Stuck(n.p, m.state) else Continue(x, n)
  }

  function Continue(x: Parse, m: Machine): Result
    requires Consistent(m) && m.p.error.None?
    decreases |x.tokens| - m.p.position, 1
  {
    if x.stopWhenDone && m.state == Finish then ResultOf(m.p) else Run(x, m)
  }

  function IterativeParse(x: Parse): Result {
    Run(x, Machine(Start, [], Progress(0, [], None)))
  }
}
