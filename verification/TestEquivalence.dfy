/** One test run of the instrumented program, and what the partition array says after it.

    The program under test is a deterministic transition system: given the values its location
    has been handed so far it either calls the partition function again, or ends. A panic makes
    the partition function abort the process (repair/Synthesis.cpp:874-878). */
module TestEquivalence {
  import opened Core
  import opened Partition

  datatype Action<+A> = Call(args: A) | Exit(status: TestStatus)

  /** `next` is the program; `aborted` is the verdict of the test when the process aborts;
      `limit` is the number of calls after which the harness times the test out. */
  datatype Program<!A> = Program(next: seq<int> -> Action<A>, aborted: seq<int> -> TestStatus, limit: nat)

  /** The meaning of the candidates at one location: evaluating `id` on the arguments of a call. */
  type Semantics<!A> = (PatchID, A) -> Outcome

  /** The observable run of one candidate on one test: what each call yielded, and the verdict. */
  datatype TestRun = TestRun(outcomes: seq<Outcome>, status: TestStatus)

  function RunFrom<A>(p: Program<A>, sem: Semantics<A>, id: PatchID, history: seq<int>): TestRun
    decreases p.limit - |history|
  {
    if |history| >= p.limit then TestRun([], TIMEOUT) else
      match p.next(history)
      case Exit(status) => TestRun([], status)
      case Call(args) =>
        var o := sem(id, args);
        if o.panic then TestRun([o], p.aborted(history)) else
          var rest := RunFrom(p, sem, id, history + [o.value]);
          TestRun([o] + rest.outcomes, rest.status)
  }

  function RunOf<A>(p: Program<A>, sem: Semantics<A>, id: PatchID): TestRun {
    RunFrom(p, sem, id, [])
  }

  /** The arguments of the calls that candidate `id` makes from `history` on. */
  function CallsFrom<A>(p: Program<A>, sem: Semantics<A>, id: PatchID, history: seq<int>): seq<A>
    decreases p.limit - |history|
  {
    if |history| >= p.limit then [] else
      match p.next(history)
      case Exit(_) => []
      case Call(args) =>
        var o := sem(id, args);
        [args] + if o.panic then [] else CallsFrom(p, sem, id, history + [o.value])
  }

  /** Two runs that no test can tell apart: the same calls yield the same values, or panic together. */
  predicate SameRun(r: TestRun, s: TestRun) {
    && r.status == s.status
    && |r.outcomes| == |s.outcomes|
    && forall k :: 0 <= k < |r.outcomes| ==> Agree(r.outcomes[k], s.outcomes[k])
  }

  /** Candidates `own` and `other` agree on the arguments of every listed call. */
  predicate AgreeOnCalls<A>(sem: Semantics<A>, own: PatchID, other: PatchID, calls: seq<A>) {
    forall k :: 0 <= k < |calls| ==> Agree(sem(own, calls[k]), sem(other, calls[k]))
  }

  /** Test-equivalence is sound and complete: surviving every call of the executed candidate
      is the same as having an indistinguishable run of one's own. */
  lemma {:induction false} TestEquivalenceIsExact<A>(
    p: Program<A>, sem: Semantics<A>, own: PatchID, other: PatchID, history: seq<int>)
    ensures AgreeOnCalls(sem, own, other, CallsFrom(p, sem, own, history)) <==>
            SameRun(RunFrom(p, sem, own, history), RunFrom(p, sem, other, history))
    ensures AgreeOnCalls(sem, own, other, CallsFrom(p, sem, own, history)) ==>
            CallsFrom(p, sem, other, history) == CallsFrom(p, sem, own, history)
    decreases p.limit - |history|
  {
    if |history| >= p.limit || p.next(history).Exit? {
    } else {
      var args := p.next(history).args;
      var o, o' := sem(own, args), sem(other, args);
      var calls := CallsFrom(p, sem, own, history);
      var r, r' := RunFrom(p, sem, own, history), RunFrom(p, sem, other, history);
      assert calls[0] == args && r.outcomes[0] == o && r'.outcomes[0] == o';
      if Agree(o, o') && !o.panic {
        var later := history + [o.value];
        TestEquivalenceIsExact(p, sem, own, other, later);
        assert calls[1..] == CallsFrom(p, sem, own, later);
        assert r.outcomes[1..] == RunFrom(p, sem, own, later).outcomes;
        assert r'.outcomes[1..] == RunFrom(p, sem, other, later).outcomes;
        assert AgreeOnCalls(sem, own, other, calls) <==> AgreeOnCalls(sem, own, other, calls[1..]) by {
          if AgreeOnCalls(sem, own, other, calls[1..]) {
            forall k | 0 <= k < |calls| ensures Agree(sem(own, calls[k]), sem(other, calls[k])) {
              if k > 0 { assert calls[k] == calls[1..][k - 1]; }
            }
          }
          if AgreeOnCalls(sem, own, other, calls) {
            forall k | 0 <= k < |calls[1..]| ensures Agree(sem(own, calls[1..][k]), sem(other, calls[1..][k])) {
              assert calls[1..][k] == calls[k + 1];
            }
          }
        }
        assert SameRun(r, r') <==> SameRun(RunFrom(p, sem, own, later), RunFrom(p, sem, other, later));
      }
    }
  }

  /** The evaluation of candidates on the arguments of one call. */
  function On<A>(sem: Semantics<A>, args: A): Evaluation {
    id => sem(id, args)
  }

  /** The candidates of `order` that a run of `own` leaves in the array, given how many calls it made. */
  function Surviving<A>(order: seq<PatchID>, sem: Semantics<A>, own: PatchID, calls: seq<A>): (r: seq<PatchID>)
    ensures |r| <= |order|
    ensures forall id :: id in r <==> id in order && AgreeOnCalls(sem, own, id, calls)
  {
    if calls == [] then order else
      var earlier := Surviving(order, sem, own, calls[..|calls| - 1]);
      var args := calls[|calls| - 1];
      assert calls == calls[..|calls| - 1] + [args];
      Agreeing(earlier, On(sem, args), own)
  }

  /** What the tool credits after running `own`: exactly the candidates whose own run is
      indistinguishable, provided the location was reached at all. */
  ghost function Credited<A>(ids: set<PatchID>, p: Program<A>, sem: Semantics<A>, own: PatchID): set<PatchID> {
    if RunOf(p, sem, own).outcomes == [] then {}
    else set id | id in ids && SameRun(RunOf(p, sem, own), RunOf(p, sem, id))
  }

  lemma {:induction false} CallsMatchOutcomes<A>(p: Program<A>, sem: Semantics<A>, own: PatchID, history: seq<int>)
    ensures |CallsFrom(p, sem, own, history)| == |RunFrom(p, sem, own, history).outcomes|
    decreases p.limit - |history|
  {
    if |history| < p.limit && p.next(history).Call? {
      var o := sem(own, p.next(history).args);
      if !o.panic { CallsMatchOutcomes(p, sem, own, history + [o.value]); }
    }
  }

  lemma SurvivorsAreCredited<A>(order: seq<PatchID>, p: Program<A>, sem: Semantics<A>, own: PatchID)
    requires RunOf(p, sem, own).outcomes != []
    ensures SetOf(Surviving(order, sem, own, CallsFrom(p, sem, own, []))) == Credited(SetOf(order), p, sem, own)
  {
    forall id { TestEquivalenceIsExact(p, sem, own, id, []); }
  }

  /** The executed candidate is credited once its location has run. */
  lemma ExecutedIsCredited<A>(ids: set<PatchID>, p: Program<A>, sem: Semantics<A>, own: PatchID)
    requires own in ids
    ensures own in Credited(ids, p, sem, own) <==> RunOf(p, sem, own).outcomes != []
  {
  }

  /** Crediting a verdict is sound: every credited candidate would have earned it itself. */
  lemma CreditIsSound<A>(ids: set<PatchID>, p: Program<A>, sem: Semantics<A>, own: PatchID, other: PatchID)
    requires other in Credited(ids, p, sem, own)
    ensures RunOf(p, sem, other).status == RunOf(p, sem, own).status
    ensures CallsFrom(p, sem, other, []) == CallsFrom(p, sem, own, [])
  {
    TestEquivalenceIsExact(p, sem, own, other, []);
  }

  // ----- Tests that are killed -----

  /** Where a test is killed: in its call number `call`, counted from 0, after `step` steps of the
      partition function; or, if it makes no such call, after its last one. */
  datatype KillPoint = KillPoint(call: nat, step: nat)

  /** The test is killed before it ends. */
  predicate IsKilled<A>(p: Program<A>, sem: Semantics<A>, own: PatchID, kill: Option<KillPoint>) {
    kill.Some? && kill.value.call <= |CallsFrom(p, sem, own, [])|
  }

  /** The kill cuts a call short. */
  predicate TearsCall<A>(calls: seq<A>, kill: Option<KillPoint>) {
    kill.Some? && kill.value.call < |calls|
  }

  predicate KilledIn(kill: Option<KillPoint>, call: nat) { kill.Some? && kill.value.call == call }

  function ObservedStatus<A>(p: Program<A>, sem: Semantics<A>, own: PatchID, kill: Option<KillPoint>): TestStatus {
    if IsKilled(p, sem, own, kill) then TIMEOUT else RunOf(p, sem, own).status
  }

  /** What is read back after a test that was laid out as `order`. */
  ghost function Learnt<A>(
    order: seq<PatchID>, p: Program<A>, sem: Semantics<A>, own: PatchID, kill: Option<KillPoint>): set<PatchID>
  {
    var calls := CallsFrom(p, sem, own, []);
    if TearsCall(calls, kill) then LearntTorn(order, sem, own, calls, kill.value)
    else Credited(SetOf(order), p, sem, own)
  }

  /** Nothing, if the first call was torn. Otherwise the candidates that agree on the torn call too,
      and those among the earlier survivors that it had not overwritten. */
  ghost function LearntTorn<A>(
    order: seq<PatchID>, sem: Semantics<A>, own: PatchID, calls: seq<A>, kill: KillPoint): set<PatchID>
    requires kill.call < |calls|
  {
    var entries := Surviving(order, sem, own, calls[..kill.call]);
    if kill.call == 0 && kill.step < 2 * |entries| + 2 then {}
    else TornReadBack(entries, On(sem, calls[kill.call]), own, kill.step)
  }

  lemma OneMoreCall<A>(order: seq<PatchID>, sem: Semantics<A>, own: PatchID, calls: seq<A>, j: nat)
    requires j < |calls|
    ensures Surviving(order, sem, own, calls[..j + 1]) ==
            Agreeing(Surviving(order, sem, own, calls[..j]), On(sem, calls[j]), own)
  {
    assert calls[..j + 1][..j] == calls[..j];
  }

  /** Over whole runs: a test killed in its call `j` leaves nothing if it was the first one and had not
      returned, and else a set between the survivors of `j + 1` calls and those of `j` calls. */
  lemma TornRunIsBetween<A>(order: seq<PatchID>, sem: Semantics<A>, own: PatchID, calls: seq<A>, kill: KillPoint)
    requires kill.call < |calls|
    ensures var learnt, j := LearntTorn(order, sem, own, calls, kill), kill.call;
            && learnt <= SetOf(Surviving(order, sem, own, calls[..j]))
            && (learnt == {} || SetOf(Surviving(order, sem, own, calls[..j + 1])) <= learnt)
            && (j > 0 ==> SetOf(Surviving(order, sem, own, calls[..j + 1])) <= learnt)
  {
    OneMoreCall(order, sem, own, calls, kill.call);
  }

  /** A candidate is left exactly if it agreed on all earlier calls and agrees on the torn one too, or
      had not been overwritten; none is if the first call was torn. */
  lemma TornRunLeaves<A>(
    order: seq<PatchID>, sem: Semantics<A>, own: PatchID, calls: seq<A>, kill: KillPoint, id: PatchID)
    requires kill.call < |calls|
    ensures var j, entries := kill.call, Surviving(order, sem, own, calls[..kill.call]);
            var returned := kill.step >= 2 * |entries| + 2;
            var written := WrittenAfter(entries, On(sem, calls[j]), own, kill.step);
            id in LearntTorn(order, sem, own, calls, kill) <==>
            && id in order && AgreeOnCalls(sem, own, id, calls[..j]) && (j > 0 || returned)
            && (Agree(sem(own, calls[j]), sem(id, calls[j])) || (!returned && id in entries[written..]))
  {
  }

  /** A test killed in a later call, before that returns, leaves the survivors of that call exactly if
      all entries the call had not overwritten agree on it. */
  lemma TornRunIsExactIff<A>(order: seq<PatchID>, sem: Semantics<A>, own: PatchID, calls: seq<A>, kill: KillPoint)
    requires 0 < kill.call < |calls|
    requires kill.step < 2 * |Surviving(order, sem, own, calls[..kill.call])| + 2
    ensures var entries, eval := Surviving(order, sem, own, calls[..kill.call]), On(sem, calls[kill.call]);
            LearntTorn(order, sem, own, calls, kill) == SetOf(Surviving(order, sem, own, calls[..kill.call + 1])) <==>
            forall k :: WrittenAfter(entries, eval, own, kill.step) <= k < |entries| ==> Agree(eval(own), eval(entries[k]))
  {
    OneMoreCall(order, sem, own, calls, kill.call);
    TornIsExactIff(Surviving(order, sem, own, calls[..kill.call]), On(sem, calls[kill.call]), own, kill.step);
  }

  const EXECUTED := PatchID(1, 0, 0, 0, 0)
  const PARTING := PatchID(2, 0, 0, 0, 0)

  /** Calls twice, with arguments 0 and 1; passes only if the second call yields 1. */
  function TwoCalls(): Program<int> {
    Program((h: seq<int>) =>
              if |h| < 2 then Call(|h|) else if h[1] == 1 then Exit(PASS) else Exit(FAIL),
            h => FAIL, 3)
  }

  /** All candidates yield 0, except that PARTING yields 1 on argument 1. */
  function PartOnOne(id: PatchID, k: int): Outcome {
    Outcome(false, if id == PARTING && k == 1 then 1 else 0)
  }

  lemma TwoCallsRuns()
    ensures CallsFrom(TwoCalls(), PartOnOne, EXECUTED, []) == [0, 1]
    ensures RunOf(TwoCalls(), PartOnOne, PARTING).status == PASS
  {
    var p := TwoCalls();
    assert p.next([]) == Call(0) && p.next([0]) == Call(1);
    assert [] + [0] == [0] && [0] + [0] == [0, 0] && [0] + [1] == [0, 1];
    assert CallsFrom(p, PartOnOne, EXECUTED, [0, 0]) == [];
    assert CallsFrom(p, PartOnOne, EXECUTED, [0]) == [1];
    assert RunFrom(p, PartOnOne, PARTING, [0, 1]).status == PASS;
    assert RunFrom(p, PartOnOne, PARTING, [0]).status == PASS;
  }

  lemma BothSurviveFirstCall()
    ensures Surviving([EXECUTED, PARTING], PartOnOne, EXECUTED, [0]) == [EXECUTED, PARTING]
  {
    var order := [EXECUTED, PARTING];
    assert [0][..0] == [] && order[..1] == [EXECUTED] && [EXECUTED][..0] == [];
    assert Surviving(order, PartOnOne, EXECUTED, []) == order;
    assert Agreeing([EXECUTED], On(PartOnOne, 0), EXECUTED) == [EXECUTED];
    assert Agreeing(order, On(PartOnOne, 0), EXECUTED) == [EXECUTED] + [PARTING];
  }

  lemma InSetOf(s: seq<PatchID>, id: PatchID)
    ensures id in SetOf(s) <==> id in s
  {
  }

  lemma StillListed(n: nat)
    requires n < 6
    ensures PARTING in TornReadBack([EXECUTED, PARTING], On(PartOnOne, 1), EXECUTED, n)
  {
    var order, eval := [EXECUTED, PARTING], On(PartOnOne, 1);
    assert order[..1] == [EXECUTED] && order[..0] == [] && [EXECUTED][..0] == [];
    assert Agreeing([EXECUTED], eval, EXECUTED) == [EXECUTED] && Agreeing(order, eval, EXECUTED) == [EXECUTED];
    hide Agreeing, On, PartOnOne, SetOf;
    var w := WrittenAfter(order, eval, EXECUTED, n);
    assert w <= 1;
    assert order[w..][1 - w] == PARTING;
    assert PARTING in SetOf(order[w..]) by { InSetOf(order[w..], PARTING); }
  }

  /** A test killed at any step inside its second call is credited, as a timeout, to a candidate that
      passes: the array still lists it, though it parts in that call. */
  lemma TornRunMayDiscreditPassing(n: nat)
    requires n < 6
    ensures var kill := Some(KillPoint(1, n));
            && ObservedStatus(TwoCalls(), PartOnOne, EXECUTED, kill) == TIMEOUT
            && PARTING in Learnt([EXECUTED, PARTING], TwoCalls(), PartOnOne, EXECUTED, kill)
            && RunOf(TwoCalls(), PartOnOne, PARTING).status == PASS
  {
    hide TornReadBack, Surviving, Agreeing, RunOf, CallsFrom, TwoCalls, PartOnOne;
    TwoCallsRuns();
    BothSurviveFirstCall();
    StillListed(n);
    assert [0, 1][..1] == [0];
  }

  // ----- Running a test -----

  /** The array after the calls `made` by candidate `own`, started on contents `mem0`. */
  ghost predicate ArrayAfter<A>(
    mem: seq<PatchID>, mem0: seq<PatchID>, sem: Semantics<A>, own: PatchID, made: seq<A>)
  {
    && |mem| == |mem0|
    && |Entries(mem0)| < |mem0|
    && if made == [] then mem == mem0
       else Lists(mem, Surviving(Entries(mem0), sem, own, made), OUTPUT_TERMINATOR)
  }

  lemma EntriesAfter<A>(mem: seq<PatchID>, mem0: seq<PatchID>, sem: Semantics<A>, own: PatchID, made: seq<A>)
    requires ArrayAfter(mem, mem0, sem, own, made)
    ensures Entries(mem) == Surviving(Entries(mem0), sem, own, made) && |Entries(mem)| < |mem|
  {
    if made != [] {
      ListsEntries(mem, Surviving(Entries(mem0), sem, own, made), OUTPUT_TERMINATOR);
    }
  }

  lemma AfterOneMore<A>(
    mem: seq<PatchID>, mem': seq<PatchID>, mem0: seq<PatchID>, sem: Semantics<A>, own: PatchID, made: seq<A>, args: A)
    requires ArrayAfter(mem, mem0, sem, own, made) && |mem'| == |mem|
    requires var kept := Agreeing(Entries(mem), On(sem, args), own);
             |kept| < |mem'| && mem'[..|kept|] == kept && mem'[|kept|] == OUTPUT_TERMINATOR && Entries(mem') == kept
    ensures ArrayAfter(mem', mem0, sem, own, made + [args])
  {
    EntriesAfter(mem, mem0, sem, own, made);
    var made' := made + [args];
    assert made'[..|made|] == made;
    var kept := Agreeing(Entries(mem), On(sem, args), own);
    assert kept == Surviving(Entries(mem0), sem, own, made');
    EntriesArePrefix(mem');
    forall k | 0 <= k < |kept| ensures kept[k].base != 0 { assert mem'[k] == mem'[..|kept|][k]; }
  }

  /** The array that a test with these calls leaves behind. */
  ghost predicate ArrayLeft<A>(
    mem: seq<PatchID>, mem0: seq<PatchID>, sem: Semantics<A>, own: PatchID, calls: seq<A>, kill: Option<KillPoint>)
  {
    if TearsCall(calls, kill)
    then exists before :: TornFrom(mem, before, mem0, sem, own, calls, kill.value)
    else ArrayAfter(mem, mem0, sem, own, calls)
  }

  /** The torn call started on the array `before`. */
  ghost predicate TornFrom<A>(
    mem: seq<PatchID>, before: seq<PatchID>, mem0: seq<PatchID>, sem: Semantics<A>, own: PatchID, calls: seq<A>, kill: KillPoint)
    requires kill.call < |calls|
  {
    && ArrayAfter(before, mem0, sem, own, calls[..kill.call])
    && mem == Partition.Run(On(sem, calls[kill.call]), Enter(before, own), kill.step).mem
  }

  method MakeCall<A>(
    runtime: Runtime, sem: Semantics<A>, own: PatchID, valueTEQ: bool, args: A, ghost mem0: seq<PatchID>, ghost made: seq<A>)
    returns (o: Outcome)
    requires valueTEQ ==> ArrayAfter(runtime.partition[..], mem0, sem, own, made)
    modifies if valueTEQ then {runtime.partition} else {}
    ensures o == sem(own, args)
    ensures valueTEQ ==> ArrayAfter(runtime.partition[..], mem0, sem, own, made + [args])
  {
    o := sem(own, args);
    if valueTEQ {
      ghost var mem := runtime.partition[..];
      EntriesAfter(mem, mem0, sem, own, made);
      o := runtime.PartitionFunction(On(sem, args), own);
      AfterOneMore(mem, runtime.partition[..], mem0, sem, own, made, args);
    }
  }

  method TearCall<A>(
    runtime: Runtime, sem: Semantics<A>, own: PatchID, args: A, kill: KillPoint, ghost mem0: seq<PatchID>, ghost calls: seq<A>)
    requires kill.call < |calls| && calls[kill.call] == args
    requires ArrayAfter(runtime.partition[..], mem0, sem, own, calls[..kill.call])
    modifies runtime.partition
    ensures ArrayLeft(runtime.partition[..], mem0, sem, own, calls, Some(kill))
  {
    ghost var mem := runtime.partition[..];
    EntriesAfter(mem, mem0, sem, own, calls[..kill.call]);
    runtime.PartitionFunctionUntil(On(sem, args), own, kill.step);
    assert TornFrom(runtime.partition[..], mem, mem0, sem, own, calls, kill);
  }

  /** The calls `made` so far have led to this history, or to a panic after it. */
  ghost predicate Underway<A>(
    p: Program<A>, sem: Semantics<A>, own: PatchID, history: seq<int>, panicked: bool, made: seq<A>)
  {
    && (panicked ==> |history| < p.limit)
    && CallsFrom(p, sem, own, []) == made + (if panicked then [] else CallsFrom(p, sem, own, history))
    && RunOf(p, sem, own).status == if panicked then p.aborted(history) else RunFrom(p, sem, own, history).status
  }

  predicate CallsNext<A>(p: Program<A>, history: seq<int>, panicked: bool) {
    |history| < p.limit && !panicked && p.next(history).Call?
  }

  lemma UnderwayStep<A>(p: Program<A>, sem: Semantics<A>, own: PatchID, history: seq<int>, made: seq<A>)
    requires Underway(p, sem, own, history, false, made) && CallsNext(p, history, false)
    ensures var calls, args := CallsFrom(p, sem, own, []), p.next(history).args;
            var o := sem(own, args);
            && |made| < |calls| && calls[..|made|] == made && calls[|made|] == args
            && Underway(p, sem, own, if o.panic then history else history + [o.value], o.panic, made + [args])
  {
    var args := p.next(history).args;
    var o := sem(own, args);
    var rest := if o.panic then [] else CallsFrom(p, sem, own, history + [o.value]);
    assert made + ([args] + rest) == (made + [args]) + rest;
  }

  lemma UnderwayEnd<A>(p: Program<A>, sem: Semantics<A>, own: PatchID, history: seq<int>, panicked: bool, made: seq<A>)
    requires Underway(p, sem, own, history, panicked, made) && !CallsNext(p, history, panicked)
    ensures made == CallsFrom(p, sem, own, [])
    ensures RunOf(p, sem, own).status ==
            if panicked then p.aborted(history) else if |history| >= p.limit then TIMEOUT else p.next(history).status
  {
  }

  /** Runs one test with candidate `own`; the environment may kill it. With `valueTEQ` off the array is
      not mapped and the partition function only evaluates the executed candidate. */
  method ExecuteTest<A>(
    runtime: Runtime, p: Program<A>, sem: Semantics<A>, own: PatchID, valueTEQ: bool, kill: Option<KillPoint>)
    returns (status: TestStatus)
    requires valueTEQ ==> |Entries(runtime.partition[..])| < runtime.partition.Length
    modifies if valueTEQ then {runtime.partition} else {}
    ensures status == ObservedStatus(p, sem, own, kill)
    ensures valueTEQ ==>
              ArrayLeft(runtime.partition[..], old(runtime.partition[..]), sem, own, CallsFrom(p, sem, own, []), kill)
  {
    ghost var mem0 := runtime.partition[..];
    ghost var calls := CallsFrom(p, sem, own, []);
    var history: seq<int>, panicked, count := [], false, 0;
    ghost var made: seq<A> := [];
    assert valueTEQ ==> ArrayAfter(mem0, mem0, sem, own, []);
    assert Underway(p, sem, own, history, panicked, made);
    hide ArrayAfter, TornFrom, Underway, RunOf, CallsFrom, Entries;
    while CallsNext(p, history, panicked) && !KilledIn(kill, count)
      invariant count == |made| && (kill.Some? ==> count <= kill.value.call)
      invariant Underway(p, sem, own, history, panicked, made)
      invariant valueTEQ ==> ArrayAfter(runtime.partition[..], mem0, sem, own, made)
      decreases p.limit - |history|, !panicked
    {
      var args := p.next(history).args;
      var o := MakeCall(runtime, sem, own, valueTEQ, args, mem0, made);
      UnderwayStep(p, sem, own, history, made);
      made, count := made + [args], count + 1;
      panicked := o.panic;
      if !panicked {
        history := history + [o.value];
      }
    }
    if CallsNext(p, history, panicked) {
      UnderwayStep(p, sem, own, history, made);
      if valueTEQ {
        TearCall(runtime, sem, own, p.next(history).args, kill.value, mem0, calls);
      }
      return TIMEOUT;
    }
    UnderwayEnd(p, sem, own, history, panicked, made);
    if KilledIn(kill, count) { return TIMEOUT; }
    if panicked { return p.aborted(history); }
    if |history| >= p.limit { return TIMEOUT; }
    return p.next(history).status;
  }

  /** Set the array up, run the test, read the array back. */
  lemma ReadBackIsLearnt<A>(
    mem: seq<PatchID>, mem0: seq<PatchID>, order: seq<PatchID>, p: Program<A>, sem: Semantics<A>, own: PatchID,
    kill: Option<KillPoint>)
    requires Lists(mem0, order, INPUT_TERMINATOR)
    requires ArrayLeft(mem, mem0, sem, own, CallsFrom(p, sem, own, []), kill)
    ensures Terminated(mem)
    ensures ReadBack(mem) == Learnt(order, p, sem, own, kill)
  {
    var calls := CallsFrom(p, sem, own, []);
    if TearsCall(calls, kill) {
      var before :| TornFrom(mem, before, mem0, sem, own, calls, kill.value);
      TornIsLearnt(mem, before, mem0, order, sem, own, calls, kill.value);
    } else {
      ReadBackIsCredited(mem, mem0, order, p, sem, own);
    }
  }

  lemma TornIsLearnt<A>(
    mem: seq<PatchID>, before: seq<PatchID>, mem0: seq<PatchID>, order: seq<PatchID>, sem: Semantics<A>, own: PatchID,
    calls: seq<A>, kill: KillPoint)
    requires Lists(mem0, order, INPUT_TERMINATOR) && kill.call < |calls|
    requires TornFrom(mem, before, mem0, sem, own, calls, kill)
    ensures Terminated(mem)
    ensures ReadBack(mem) == LearntTorn(order, sem, own, calls, kill)
  {
    var entries, eval := Surviving(order, sem, own, calls[..kill.call]), On(sem, calls[kill.call]);
    ListsEntries(mem0, order, INPUT_TERMINATOR);
    if kill.call == 0 {
      assert calls[..0] == [] && before == mem0 && entries == order;
      TornCall(mem0, order, INPUT_TERMINATOR, eval, own, kill.step);
      CallProgress(mem0, order, INPUT_TERMINATOR, eval, own, kill.step);
      CallStaysInBounds(mem0, order, INPUT_TERMINATOR, eval, own, kill.step);
    } else {
      TornCall(before, entries, OUTPUT_TERMINATOR, eval, own, kill.step);
      TornCallReadsBack(before, entries, eval, own, kill.step);
    }
  }

  /** After a run that was not torn the tool learns exactly the credited candidates. */
  lemma ReadBackIsCredited<A>(
    mem: seq<PatchID>, mem0: seq<PatchID>, order: seq<PatchID>, p: Program<A>, sem: Semantics<A>, own: PatchID)
    requires Lists(mem0, order, INPUT_TERMINATOR)
    requires ArrayAfter(mem, mem0, sem, own, CallsFrom(p, sem, own, []))
    ensures Terminated(mem)
    ensures ReadBack(mem) == Credited(SetOf(order), p, sem, own)
  {
    ListsEntries(mem0, order, INPUT_TERMINATOR);
    CallsMatchOutcomes(p, sem, own, []);
    var calls := CallsFrom(p, sem, own, []);
    if calls == [] {
      ReadBackOf(mem0, order, INPUT_TERMINATOR);
    } else {
      ReadBackOf(mem, Surviving(order, sem, own, calls), OUTPUT_TERMINATOR);
      SurvivorsAreCredited(order, p, sem, own);
    }
  }

  /** Lays out the candidates, runs the test, reads the array back. */
  method ExecutePartitioned<A>(
    runtime: Runtime, ids: set<PatchID>, p: Program<A>, sem: Semantics<A>, own: PatchID, kill: Option<KillPoint>)
    returns (status: TestStatus, partition: set<PatchID>, ghost order: seq<PatchID>)
    requires |ids| < MAX_PARTITION_SIZE == runtime.partition.Length
    requires forall id :: id in ids ==> id.base != 0
    modifies runtime.partition
    ensures status == ObservedStatus(p, sem, own, kill)
    ensures SetOf(order) == ids && partition == Learnt(order, p, sem, own, kill)
  {
    order := runtime.SetPartition(ids);
    ghost var mem0 := runtime.partition[..];
    forall k | 0 <= k < |order| ensures order[k].base != 0 {
      assert order[k] in SetOf(order);
    }
    ListsEntries(mem0, order, INPUT_TERMINATOR);
    status := ExecuteTest(runtime, p, sem, own, true, kill);
    ReadBackIsLearnt(runtime.partition[..], mem0, order, p, sem, own, kill);
    partition := runtime.GetPartition();
  }
}
