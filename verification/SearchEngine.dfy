/** The caching search over candidate patches (repair/SearchEngine.cpp:49-214). */
module SearchEngine {
  import opened Core
  import opened Partition
  import opened TestEquivalence

  datatype TestPrioritization = FIXED_ORDER | MAX_FAILING

  /** What the candidates mean and how the tests drive the program, for every location. */
  datatype Subject<!A> = Subject(program: (AppID, string) -> Program<A>, semantics: AppID -> Semantics<A>)

  function RunOn<A>(s: Subject<A>, app: AppID, id: PatchID, test: string): TestRun {
    RunOf(s.program(app, test), s.semantics(app), id)
  }

  function Verdict<A>(s: Subject<A>, p: Patch, test: string): TestStatus {
    RunOn(s, p.app.id, p.id, test).status
  }

  type Profile = map<Location, seq<nat>>

  /** Looking a location up in the profile; an unknown one has no tests. */
  function TestsAt(related: Profile, loc: Location): seq<nat> {
    if loc in related then related[loc] else []
  }

  ghost predicate ValidIndexes(related: Profile, count: nat) {
    forall loc, k :: loc in related && k in related[loc] ==> k < count
  }

  /** The reference notion, with no caching and no order: the patch passes all tests related to
      its location. */
  ghost predicate Plausible<A>(s: Subject<A>, tests: seq<string>, related: Profile, p: Patch)
    requires ValidIndexes(related, |tests|)
  {
    forall k :: k in TestsAt(related, p.app.location) ==> Verdict(s, p, tests[k]) == PASS
  }

  /** The naive search: the first plausible candidate at or after `from`. */
  ghost function FirstPlausible<A>(
    s: Subject<A>, tests: seq<string>, related: Profile, space: seq<Patch>, from: nat): (r: nat)
    requires ValidIndexes(related, |tests|)
    ensures from <= r && (from <= |space| ==> r <= |space|)
    ensures r < |space| ==> Plausible(s, tests, related, space[r])
    ensures forall i :: from <= i < r && i < |space| ==> !Plausible(s, tests, related, space[i])
    decreases |space| - from
  {
    if from >= |space| || Plausible(s, tests, related, space[from]) then from
    else FirstPlausible(s, tests, related, space, from + 1)
  }

  /** Candidate `id` of application `a` is in the space. */
  ghost predicate HasCandidate(space: seq<Patch>, a: AppID, id: PatchID) {
    exists i :: 0 <= i < |space| && space[i].id == id && space[i].app.id == a
  }

  /** The candidates of each application (repair/Repair.cpp:66-77). */
  ghost predicate IsPartitionable(space: seq<Patch>, partitionable: map<AppID, set<PatchID>>) {
    && (forall i {:trigger space[i].app.id} :: 0 <= i < |space| ==>
          space[i].app.id in partitionable && space[i].id in partitionable[space[i].app.id])
    && (forall a, id {:trigger HasCandidate(space, a, id)} ::
          a in partitionable && id in partitionable[a] ==> HasCandidate(space, a, id))
  }

  /** What search space generation guarantees: distinct identifiers, none of them reserved, and
      one application per application identifier. */
  ghost predicate WellNumbered(space: seq<Patch>) {
    && (forall i, j {:trigger space[i].app.id, space[j].app.id} ::
          0 <= i < j < |space| && space[i].app.id == space[j].app.id ==> space[i].app == space[j].app)
    && (forall i {:trigger space[i].id.base} :: 0 <= i < |space| ==> space[i].id.base != 0)
    && (forall i, j {:trigger space[i].id, space[j].id} :: 0 <= i < j < |space| ==> space[i].id != space[j].id)
  }

  method GetPartitionable(space: seq<Patch>) returns (result: map<AppID, set<PatchID>>)
    ensures IsPartitionable(space, result)
  {
    result := map[];
    for n := 0 to |space|
      invariant IsPartitionable(space[..n], result)
    {
      var el := space[n];
      if el.app.id !in result {
        result := result[el.app.id := {}];
      }
      ghost var before := result;
      result := result[el.app.id := result[el.app.id] + {el.id}];
      ghost var done := space[..n + 1];
      forall a, id | a in result && id in result[a]
        ensures HasCandidate(done, a, id)
      {
        if a == el.app.id && id == el.id {
          assert done[n].id == id;
        } else {
          assert HasCandidate(space[..n], a, id);
          var i :| 0 <= i < n && space[..n][i].id == id && space[..n][i].app.id == a;
          assert done[i] == space[..n][i];
        }
      }
      forall i | 0 <= i < n + 1 ensures space[i].app.id in result && space[i].id in result[space[i].app.id] {
        if i < n { assert space[..n][i] == space[i]; }
      }
    }
    assert space[..|space|] == space;
  }

  /** One test execution, as recorded for reasoning: whether and where it was to be killed, and the order
      in which the candidates were laid out for it. */
  datatype Execution = Execution(app: AppID, id: PatchID, test: string, kill: Option<KillPoint>, order: seq<PatchID>)

  /** No candidate is executed twice on one test. */
  ghost predicate NoneRepeated(log: seq<Execution>) {
    forall i, j :: 0 <= i < j < |log| && log[i].test == log[j].test ==> log[i].id != log[j].id
  }

  class SearchEngine<A> {
    const tests: seq<string>
    const subject: Subject<A>
    const runtime: Runtime
    const partitionable: map<AppID, set<PatchID>>
    const valueTEQ: bool
    const testPrioritization: TestPrioritization

    // What the environment does to the executions, by their number: where each one is killed, if at all.
    const kills: nat -> Option<KillPoint>

    var related: Profile
    var failing: set<PatchID>
    var passing: map<string, set<PatchID>>
    var explorationCounter: nat
    var executionCounter: nat
    var timeoutCounter: nat
    var nonTimeoutCounter: nat

    // The search space and profile the engine was built for, and all test executions so far.
    ghost const space: seq<Patch>
    ghost const profile: Profile
    ghost var log: seq<Execution>

    ghost predicate Valid()
      reads this
    {
      && ValidConfiguration()
      && SameTests()
      && (valueTEQ ==> CachesSound(passing, failing, log) && EachClassOnce(log, passing, failing))
      && (forall k :: 0 <= k < |tests| ==> tests[k] in passing)
      && executionCounter == |log| == timeoutCounter + nonTimeoutCounter
      && (forall i :: 0 <= i < |log| ==> log[i].kill == kills(i))
    }

    /** No test is killed. */
    ghost predicate Undisturbed() { forall n :: kills(n) == None }

    ghost predicate ValidConfiguration() {
      && runtime.partition.Length == MAX_PARTITION_SIZE
      && ValidIndexes(profile, |tests|)
      && WellNumbered(space)
      && IsPartitionable(space, partitionable)
      && (valueTEQ ==> forall a :: a in partitionable ==> |partitionable[a]| < MAX_PARTITION_SIZE)
    }

    /** Prioritization neither drops nor adds a test of a location. */
    ghost predicate SameTests()
      reads this
    {
      forall loc, k {:trigger k in TestsAt(related, loc)} ::
        k in TestsAt(related, loc) <==> k in TestsAt(profile, loc)
    }

    ghost predicate IsPlausible(p: Patch)
      requires ValidConfiguration()
    {
      Plausible(subject, tests, profile, p)
    }

    /** The execution was killed before the test ended. */
    ghost predicate Killed(e: Execution) {
      IsKilled(subject.program(e.app, e.test), subject.semantics(e.app), e.id, e.kill)
    }

    /** Everything an execution gives a verdict to. */
    ghost function CreditOf(e: Execution): set<PatchID> {
      {e.id} +
      if valueTEQ then Learnt(e.order, subject.program(e.app, e.test), subject.semantics(e.app), e.id, e.kill) else {}
    }

    /** From execution `start` on, one that was killed gave its verdict to this candidate. */
    ghost predicate Discredited(log: seq<Execution>, start: nat, id: PatchID) {
      exists i :: start <= i < |log| && Killed(log[i]) && id in CreditOf(log[i])
    }

    /** Cached passes are the verdicts the candidates would earn themselves; a candidate marked as
        failing fails a related test, or was discredited by a test that was killed. */
    ghost predicate CachesSound(passing: map<string, set<PatchID>>, failing: set<PatchID>, log: seq<Execution>)
      requires ValidConfiguration()
    {
      && (forall i, t {:trigger space[i].id in passing[t]} ::
            0 <= i < |space| && t in passing && space[i].id in passing[t] ==> Verdict(subject, space[i], t) == PASS)
      && (forall i {:trigger space[i].id in failing} ::
            0 <= i < |space| && space[i].id in failing ==> !IsPlausible(space[i]) || Discredited(log, 0, space[i].id))
    }

    /** No execution repeats a verdict an earlier one already gave, on the same test. */
    ghost predicate EachClassOnce(log: seq<Execution>, passing: map<string, set<PatchID>>, failing: set<PatchID>) {
      && (forall i, j :: 0 <= i < j < |log| && log[i].test == log[j].test ==> log[j].id !in CreditOf(log[i]))
      && (forall i :: 0 <= i < |log| ==>
            && log[i].test in passing && CreditOf(log[i]) <= passing[log[i].test] + failing
            && (Killed(log[i]) ==> CreditOf(log[i]) <= failing))
    }

    /** The execution was laid out with the candidates of its application. */
    ghost predicate IsLaidOut(e: Execution) {
      valueTEQ ==> e.app in partitionable && SetOf(e.order) == partitionable[e.app]
    }

    constructor (tests: seq<string>, subject: Subject<A>, runtime: Runtime,
                 partitionable: map<AppID, set<PatchID>>, related: Profile,
                 valueTEQ: bool, testPrioritization: TestPrioritization, kills: nat -> Option<KillPoint>,
                 ghost space: seq<Patch>)
      requires runtime.partition.Length == MAX_PARTITION_SIZE
      requires ValidIndexes(related, |tests|)
      requires WellNumbered(space) && IsPartitionable(space, partitionable)
      requires valueTEQ ==> forall a :: a in partitionable ==> |partitionable[a]| < MAX_PARTITION_SIZE
      ensures Valid()
      ensures this.tests == tests && this.subject == subject && this.runtime == runtime
      ensures this.profile == related && this.space == space && this.valueTEQ == valueTEQ
      ensures this.kills == kills
      ensures failing == {} && log == [] && explorationCounter == 0
    {
      this.tests := tests;
      this.subject := subject;
      this.runtime := runtime;
      this.partitionable := partitionable;
      this.valueTEQ := valueTEQ;
      this.testPrioritization := testPrioritization;
      this.kills := kills;
      this.related := related;
      this.profile := related;
      this.space := space;
      failing := {};
      passing := map k | 0 <= k < |tests| :: tests[k] := {};
      explorationCounter, executionCounter, timeoutCounter, nonTimeoutCounter := 0, 0, 0, 0;
      log := [];
    }

    /** Moves the test at position `index` of a location's list to the front. */
    method PrioritizeTest(loc: Location, index: nat)
      requires Valid()
      requires index < |TestsAt(related, loc)|
      modifies this`related
      ensures Valid()
      ensures var order := old(TestsAt(related, loc));
              && related == old(related)[loc := [order[index]] + order[..index] + order[index + 1..]]
              && multiset(TestsAt(related, loc)) == multiset(order)
    {
      var order := TestsAt(related, loc);
      MoveToFront(order, index);
      related := related[loc := [order[index]] + order[..index] + order[index + 1..]];
      forall l, k ensures k in TestsAt(related, l) <==> k in TestsAt(profile, l) {
        if l != loc { assert TestsAt(related, l) == old(TestsAt(related, l)); }
        assert k in old(TestsAt(related, l)) <==> k in TestsAt(profile, l);
      }
    }

    /** Runs one candidate on one test; with value-based test-equivalence, also reads back every
        candidate the verdict applies to. */
    method Execute(elem: Patch, test: string) returns (status: TestStatus, partition: set<PatchID>, ghost e: Execution)
      requires ValidConfiguration() && elem in space
      requires executionCounter == |log| == timeoutCounter + nonTimeoutCounter
      modifies this`executionCounter, this`timeoutCounter, this`nonTimeoutCounter, this`log, runtime.partition
      ensures e.app == elem.app.id && e.id == elem.id && e.test == test && e.kill == kills(|old(log)|) && IsLaidOut(e)
      ensures status == if Killed(e) then TIMEOUT else Verdict(subject, elem, test)
      ensures log == old(log) + [e]
      ensures valueTEQ ==> {elem.id} + partition == CreditOf(e)
      ensures executionCounter == |log| == timeoutCounter + nonTimeoutCounter
      ensures timeoutCounter == old(timeoutCounter) + if status == TIMEOUT then 1 else 0
    {
      var program, semantics := subject.program(elem.app.id, test), subject.semantics(elem.app.id);
      var kill := kills(executionCounter);
      ghost var order := [];
      partition := {};
      if valueTEQ {
        ReservedIsUnused(elem.app.id);
        status, partition, order :=
          ExecutePartitioned(runtime, partitionable[elem.app.id], program, semantics, elem.id, kill);
      } else {
        status := ExecuteTest(runtime, program, semantics, elem.id, false, kill);
      }
      executionCounter := executionCounter + 1;
      if status != TIMEOUT {
        nonTimeoutCounter := nonTimeoutCounter + 1;
      } else {
        timeoutCounter := timeoutCounter + 1;
      }
      e := Execution(elem.app.id, elem.id, test, kill, order);
      log := log + [e];
    }

    /** Runs one candidate on one test and credits the verdict. */
    method ExecuteAndCredit(elem: Patch, test: string) returns (passed: bool, ghost e: Execution)
      requires Valid() && elem in space && test in passing
      requires valueTEQ ==> elem.id !in failing && elem.id !in passing[test]
      requires exists k :: 0 <= k < |tests| && tests[k] == test && k in TestsAt(profile, elem.app.location)
      modifies this`failing, this`passing, this`executionCounter, this`timeoutCounter, this`nonTimeoutCounter, this`log
      modifies runtime.partition
      ensures Valid()
      ensures e.app == elem.app.id && e.id == elem.id && e.test == test && e.kill == kills(|old(log)|) && IsLaidOut(e)
      ensures passed <==> !Killed(e) && Verdict(subject, elem, test) == PASS
      ensures passing.Keys == old(passing.Keys)
      ensures valueTEQ ==>
                && elem.id in (if passed then passing[test] else failing)
                && (passed ==> failing == old(failing))
                && (forall t :: t in passing ==> old(passing[t]) <= passing[t])
      ensures !valueTEQ ==> failing == old(failing) && passing == old(passing)
      ensures log == old(log) + [e]
    {
      hide CachesSound, EachClassOnce, Learnt, IsPartitionable, WellNumbered;
      var status, partition;
      status, partition, e := Execute(elem, test);
      passed := status == PASS;
      if valueTEQ {
        ghost var i :| 0 <= i < |space| && space[i] == elem;
        if passed {
          PassKeepsCaches(e, i, passing, failing, old(log));
          passing := passing[test := passing[test] + ({elem.id} + partition)];
        } else {
          FailKeepsCaches(e, i, passing, failing, old(log));
          failing := failing + ({elem.id} + partition);
        }
        CreditKeepsClasses(e, old(log), old(passing), old(failing), passed);
      }
    }

    lemma StaysDiscredited(before: seq<Execution>, log: seq<Execution>, start: nat, id: PatchID)
      requires before <= log && Discredited(before, start, id)
      ensures Discredited(log, start, id)
    {
      var i :| start <= i < |before| && Killed(before[i]) && id in CreditOf(before[i]);
      assert log[i] == before[i];
    }

    lemma DiscreditedSooner(log: seq<Execution>, start: nat, id: PatchID)
      ensures Discredited(log, start, id) ==> Discredited(log, 0, id)
    {
    }

    lemma PassKeepsCaches(
      e: Execution, i: nat, passing: map<string, set<PatchID>>, failing: set<PatchID>, log: seq<Execution>)
      requires ValidConfiguration() && CachesSound(passing, failing, log) && IsLaidOut(e)
      requires i < |space| && space[i].id == e.id && space[i].app.id == e.app && e.test in passing
      requires !Killed(e) && Verdict(subject, space[i], e.test) == PASS
      ensures CachesSound(passing[e.test := passing[e.test] + CreditOf(e)], failing, log + [e])
    {
      CreditedVerdicts(e, i);
      forall j | 0 <= j < |space| && space[j].id in failing && Discredited(log, 0, space[j].id)
        ensures Discredited(log + [e], 0, space[j].id)
      {
        StaysDiscredited(log, log + [e], 0, space[j].id);
      }
    }

    lemma FailKeepsCaches(
      e: Execution, i: nat, passing: map<string, set<PatchID>>, failing: set<PatchID>, log: seq<Execution>)
      requires ValidConfiguration() && CachesSound(passing, failing, log) && IsLaidOut(e)
      requires i < |space| && space[i].id == e.id && space[i].app.id == e.app
      requires Killed(e) || Verdict(subject, space[i], e.test) != PASS
      requires exists k :: 0 <= k < |tests| && tests[k] == e.test && k in TestsAt(profile, space[i].app.location)
      ensures CachesSound(passing, failing + CreditOf(e), log + [e])
    {
      if !Killed(e) { CreditedVerdicts(e, i); }
      forall j | 0 <= j < |space| && space[j].id in failing + CreditOf(e)
        ensures !IsPlausible(space[j]) || Discredited(log + [e], 0, space[j].id)
      {
        if space[j].id in CreditOf(e) {
          if Killed(e) {
            assert (log + [e])[|log|] == e;
          } else {
            assert space[j].app.location == space[i].app.location by {
              if i < j { assert space[i].app == space[j].app; }
              if j < i { assert space[j].app == space[i].app; }
            }
          }
        } else if Discredited(log, 0, space[j].id) {
          StaysDiscredited(log, log + [e], 0, space[j].id);
        }
      }
    }

    lemma CreditKeepsClasses(
      e: Execution, log: seq<Execution>, passing: map<string, set<PatchID>>, failing: set<PatchID>, passed: bool)
      requires EachClassOnce(log, passing, failing) && (passed ==> !Killed(e))
      requires e.test in passing && e.id !in passing[e.test] && e.id !in failing
      ensures if passed
              then EachClassOnce(log + [e], passing[e.test := passing[e.test] + CreditOf(e)], failing)
              else EachClassOnce(log + [e], passing, failing + CreditOf(e))
    {
    }

    lemma ReservedIsUnused(a: AppID)
      requires ValidConfiguration() && a in partitionable
      ensures forall id :: id in partitionable[a] ==> id.base != 0
    {
      forall id | id in partitionable[a] ensures id.base != 0 {
        assert HasCandidate(space, a, id);
      }
    }

    /** All members of a credited class have the verdict of the executed candidate. */
    lemma CreditedVerdicts(e: Execution, i: nat)
      requires ValidConfiguration() && IsLaidOut(e) && !Killed(e)
      requires i < |space| && space[i].id == e.id && space[i].app.id == e.app
      ensures forall j :: 0 <= j < |space| && space[j].id in CreditOf(e) ==>
                && space[j].app.id == e.app
                && Verdict(subject, space[j], e.test) == Verdict(subject, space[i], e.test)
    {
      forall j | 0 <= j < |space| && space[j].id in CreditOf(e)
        ensures space[j].app.id == e.app && Verdict(subject, space[j], e.test) == Verdict(subject, space[i], e.test)
      {
        if space[j].id == e.id {
          assert i == j;
        } else {
          assert HasCandidate(space, e.app, space[j].id);
          var k :| 0 <= k < |space| && space[k].id == space[j].id && space[k].app.id == e.app;
          assert k == j;
          CreditIsSound(partitionable[e.app], subject.program(e.app, e.test), subject.semantics(e.app), e.id, space[j].id);
        }
      }
    }

    /** The executions from `start` on are of this candidate. */
    ghost predicate OnlyOf(id: PatchID, start: nat, log: seq<Execution>) {
      forall i :: start <= i < |log| ==> log[i].id == id
    }

    /** The executions from `start` on are of this candidate, and none was killed. */
    ghost predicate RanToTheEnd(id: PatchID, start: nat, log: seq<Execution>) {
      OnlyOf(id, start, log) && forall i :: start <= i < |log| ==> !Killed(log[i])
    }

    /** One candidate on one related test: a cached verdict is trusted, otherwise the test runs. */
    method PassesTest(elem: Patch, k: nat, ghost start: nat) returns (passed: bool)
      requires Valid() && elem in space && k in TestsAt(profile, elem.app.location)
      requires valueTEQ ==> elem.id !in failing
      requires start <= |log| && RanToTheEnd(elem.id, start, log)
      modifies this`failing, this`passing, this`executionCounter, this`timeoutCounter, this`nonTimeoutCounter, this`log
      modifies runtime.partition
      ensures Valid() && old(log) <= log
      ensures k < |tests| && (passed ==> Verdict(subject, elem, tests[k]) == PASS && RanToTheEnd(elem.id, start, log))
      ensures passed && valueTEQ ==> elem.id !in failing
      ensures !passed ==> OnlyOf(elem.id, start, log)
      ensures !passed ==> Verdict(subject, elem, tests[k]) != PASS || Discredited(log, start, elem.id)
    {
      var test := tests[k];
      if valueTEQ && elem.id in passing[test] {
        ghost var i :| 0 <= i < |space| && space[i] == elem;
        assert Verdict(subject, space[i], test) == PASS;
        return true;
      }
      ghost var e;
      passed, e := ExecuteAndCredit(elem, test);
      assert log[|log| - 1] == e;
    }

    /** Runs one candidate on the given tests, in order, until one fails; says which. */
    method RunUntilFailure(elem: Patch, testOrder: seq<nat>) returns (failed: nat)
      requires Valid() && elem in space
      requires valueTEQ ==> elem.id !in failing
      requires forall k :: 0 <= k < |testOrder| ==> testOrder[k] in TestsAt(profile, elem.app.location)
      modifies this`failing, this`passing, this`executionCounter, this`timeoutCounter, this`nonTimeoutCounter, this`log
      modifies runtime.partition
      ensures Valid() && old(log) <= log && OnlyOf(elem.id, |old(log)|, log)
      ensures failed <= |testOrder|
      ensures forall k :: 0 <= k < |testOrder| ==> testOrder[k] < |tests|
      ensures forall k :: 0 <= k < failed ==> Verdict(subject, elem, tests[testOrder[k]]) == PASS
      ensures failed < |testOrder| ==>
                Verdict(subject, elem, tests[testOrder[failed]]) != PASS || Discredited(log, |old(log)|, elem.id)
      ensures failed == |testOrder| ==> RanToTheEnd(elem.id, |old(log)|, log) && (valueTEQ ==> elem.id !in failing)
    {
      failed := 0;
      while failed < |testOrder|
        invariant Valid() && old(log) <= log
        invariant valueTEQ ==> elem.id !in failing
        invariant RanToTheEnd(elem.id, |old(log)|, log)
        invariant failed <= |testOrder|
        invariant forall k :: 0 <= k < failed ==>
                    testOrder[k] < |tests| && Verdict(subject, elem, tests[testOrder[k]]) == PASS
      {
        var passed := PassesTest(elem, testOrder[failed], |old(log)|);
        if !passed {
          break;
        }
        failed := failed + 1;
      }
    }

    /** Test `failed` of the location was the first that did not pass, and has been moved to the front. */
    ghost predicate FailedFirst(
      elem: Patch, before: Profile, after: Profile, failed: nat, start: nat, log: seq<Execution>)
    {
      var order := TestsAt(before, elem.app.location);
      && failed < |order|
      && (forall k :: 0 <= k <= failed ==> order[k] < |tests|)
      && (forall k :: 0 <= k < failed ==> Verdict(subject, elem, tests[order[k]]) == PASS)
      && (Verdict(subject, elem, tests[order[failed]]) != PASS || Discredited(log, start, elem.id))
      && after == before[elem.app.location := [order[failed]] + order[..failed] + order[failed + 1..]]
    }

    /** Runs one candidate on the tests of its location, in their current order. */
    method TryPatch(elem: Patch) returns (passAll: bool)
      requires Valid() && elem in space
      requires valueTEQ ==> elem.id !in failing
      modifies this, runtime.partition
      ensures Valid() && explorationCounter == old(explorationCounter)
      ensures old(log) <= log && OnlyOf(elem.id, |old(log)|, log)
      ensures passAll ==>
                && Plausible(subject, tests, profile, elem)
                && RanToTheEnd(elem.id, |old(log)|, log) && (valueTEQ ==> elem.id !in failing)
      ensures !passAll ==> !Plausible(subject, tests, profile, elem) || Discredited(log, |old(log)|, elem.id)
      ensures passAll || testPrioritization != MAX_FAILING ==> related == old(related)
      ensures !passAll && testPrioritization == MAX_FAILING ==>
                exists failed: nat :: FailedFirst(elem, old(related), related, failed, |old(log)|, log)
    {
      var testOrder := TestsAt(related, elem.app.location);
      OrderCovers(elem.app.location);
      var failed := RunUntilFailure(elem, testOrder);
      passAll := failed == |testOrder|;
      VerdictOfOrder(elem, testOrder, failed);
      if !passAll && testPrioritization == MAX_FAILING {
        PrioritizeTest(elem.app.location, failed);
        assert FailedFirst(elem, old(related), related, failed, |old(log)|, log);
      }
    }

    lemma OrderCovers(loc: Location)
      requires Valid()
      ensures forall k :: k in TestsAt(related, loc) <==> k in TestsAt(profile, loc)
    {
    }

    lemma VerdictOfOrder(elem: Patch, order: seq<nat>, failed: nat)
      requires ValidConfiguration()
      requires forall k :: k in order <==> k in TestsAt(profile, elem.app.location)
      requires failed <= |order|
      requires forall k :: 0 <= k < failed ==> order[k] < |tests| && Verdict(subject, elem, tests[order[k]]) == PASS
      ensures failed == |order| ==> Plausible(subject, tests, profile, elem)
      ensures failed < |order| && order[failed] < |tests| && Verdict(subject, elem, tests[order[failed]]) != PASS ==>
                !Plausible(subject, tests, profile, elem)
    {
      if failed < |order| {
        assert order[failed] in TestsAt(profile, elem.app.location);
      } else {
        forall k | k in TestsAt(profile, elem.app.location) ensures Verdict(subject, elem, tests[k]) == PASS {
          assert k in order;
        }
      }
    }

    /** Where executions that were killed count against a candidate: with caching, all so far. */
    ghost function Since(start: nat): nat { if valueTEQ then 0 else start }

    /** One round of the search: candidates known to fail are skipped. */
    method Explore(elem: Patch, ghost i: nat) returns (found: bool)
      requires Valid() && i < |space| && elem == space[i]
      modifies this, runtime.partition
      ensures Valid() && explorationCounter == old(explorationCounter) + 1
      ensures old(log) <= log && OnlyOf(elem.id, |old(log)|, log)
      ensures found ==>
                && Plausible(subject, tests, profile, elem)
                && RanToTheEnd(elem.id, |old(log)|, log) && (valueTEQ ==> elem.id !in failing)
      ensures !found ==> !Plausible(subject, tests, profile, elem) || Discredited(log, Since(|old(log)|), elem.id)
    {
      explorationCounter := explorationCounter + 1;
      found := false;
      if !(valueTEQ && elem.id in failing) {
        found := TryPatch(elem);
      }
    }

    /** What is found is plausible, whatever tests were killed, and was not discredited; a plausible
        candidate that was passed over was. */
    ghost predicate Searched(from: nat, index: nat, start: nat, log: seq<Execution>)
      requires ValidConfiguration()
    {
      && (index < |space| ==> IsPlausible(space[index]) && !Discredited(log, start, space[index].id))
      && PassedOver(from, index, start, log)
    }

    ghost predicate PassedOver(from: nat, index: nat, start: nat, log: seq<Execution>)
      requires ValidConfiguration()
    {
      forall i :: from <= i < index && i < |space| ==> !IsPlausible(space[i]) || Discredited(log, start, space[i].id)
    }

    /** The executions from `start` on are of candidates that have been explored. */
    ghost predicate ExploredOnly(from: nat, index: nat, start: nat, log: seq<Execution>) {
      forall k :: start <= k < |log| ==> IsAmong(log[k].id, from, index)
    }

    ghost predicate IsAmong(id: PatchID, from: nat, index: nat) {
      exists i :: from <= i < index && i < |space| && space[i].id == id
    }

    lemma ExploredOneMore(from: nat, index: nat, start: nat, before: seq<Execution>, log: seq<Execution>)
      requires from <= index < |space| && ExploredOnly(from, index, start, before)
      requires before <= log && OnlyOf(space[index].id, |before|, log)
      ensures ExploredOnly(from, index + 1, start, log)
    {
      forall k | start <= k < |log| ensures IsAmong(log[k].id, from, index + 1) {
        if k < |before| {
          assert IsAmong(before[k].id, from, index);
        } else {
          assert space[index].id == log[k].id;
        }
      }
    }

    lemma KeepsPassedOver(from: nat, index: nat, start: nat, before: seq<Execution>, log: seq<Execution>)
      requires ValidConfiguration() && PassedOver(from, index, start, before) && before <= log
      ensures PassedOver(from, index, start, log)
    {
      forall i | from <= i < index && i < |space| && Discredited(before, start, space[i].id)
        ensures Discredited(log, start, space[i].id)
      {
        StaysDiscredited(before, log, start, space[i].id);
      }
    }

    lemma NothingPassedOver(from: nat, start: nat, log: seq<Execution>)
      requires ValidConfiguration()
      ensures PassedOver(from, from, start, log) && (start == |log| ==> ExploredOnly(from, from, start, log))
    {
    }

    lemma PassedOverOneMore(from: nat, index: nat, start: nat, log: seq<Execution>)
      requires ValidConfiguration() && PassedOver(from, index, start, log)
      requires index < |space| && (!IsPlausible(space[index]) || Discredited(log, start, space[index].id))
      ensures PassedOver(from, index + 1, start, log)
    {
    }

    lemma FoundIsSearched(from: nat, index: nat, start: nat, log: seq<Execution>)
      requires ValidConfiguration() && PassedOver(from, index, start, log)
      requires index < |space| ==> IsPlausible(space[index]) && !Discredited(log, start, space[index].id)
      ensures Searched(from, index, start, log)
    {
    }

    lemma FoundIsNotDiscredited(from: nat, index: nat, start: nat, before: seq<Execution>)
      requires Valid() && index < |space| && before <= log && RanToTheEnd(space[index].id, |before|, log)
      requires valueTEQ ==> space[index].id !in failing
      requires !valueTEQ ==> ExploredOnly(from, index, start, before)
      ensures !Discredited(log, start, space[index].id)
    {
      var id := space[index].id;
      forall k | start <= k < |log| && Killed(log[k]) ensures id !in CreditOf(log[k]) {
        if k < |before| {
          assert log[k] == before[k];
        }
      }
    }

    lemma NoneDiscredited(start: nat)
      requires Valid() && Undisturbed()
      ensures forall id :: !Discredited(log, start, id)
    {
    }

    lemma SearchedIsFirst(from: nat, index: nat, start: nat, log: seq<Execution>)
      requires ValidConfiguration() && Searched(from, index, start, log)
      requires from <= index && (if from <= |space| then index <= |space| else index == from)
      ensures var first := FirstPlausible(subject, tests, profile, space, from);
              && first <= index
              && (index == first <==> first < |space| ==> !Discredited(log, start, space[first].id))
    {
    }

    /** One round: the candidate is found, or passed over as well. */
    method ExploreOrPass(ghost from: nat, elem: Patch, ghost index: nat, ghost start: nat) returns (found: bool)
      requires Valid() && from <= index < |space| && elem == space[index] && start == Since(start) <= |log|
      requires PassedOver(from, index, start, log) && (!valueTEQ ==> ExploredOnly(from, index, start, log))
      modifies this, runtime.partition
      ensures Valid() && old(log) <= log && explorationCounter == old(explorationCounter) + 1
      ensures if found
              then IsPlausible(space[index]) && !Discredited(log, start, space[index].id) && PassedOver(from, index, start, log)
              else PassedOver(from, index + 1, start, log) && (!valueTEQ ==> ExploredOnly(from, index + 1, start, log))
    {
      assert ValidConfiguration();
      hide Valid, Discredited, Plausible, WellNumbered, RanToTheEnd, PassedOver, ExploredOnly;
      ghost var before := log;
      found := Explore(elem, index);
      KeepsPassedOver(from, index, start, before, log);
      if found {
        FoundIsNotDiscredited(from, index, start, before);
      } else {
        PassedOverOneMore(from, index, start, log);
        if !valueTEQ { ExploredOneMore(from, index, start, before, log); }
      }
    }

    /** The first plausible candidate at or after `from` that no killed test discredits, whatever the
        caches and the test order have become. So it is what the naive search would return exactly if no
        killed test discredits that. */
    method FindNext(searchSpace: seq<Patch>, from: nat) returns (index: nat)
      requires Valid() && searchSpace == space
      modifies this, runtime.partition
      ensures Valid()
      ensures Searched(from, index, Since(|old(log)|), log)
      ensures var first := FirstPlausible(subject, tests, profile, space, from);
              && first <= index
              && (index == first <==> first < |space| ==> !Discredited(log, Since(|old(log)|), space[first].id))
              && (Undisturbed() ==> index == first)
      ensures old(log) <= log
      ensures valueTEQ ==> NoneRepeated(log)
      ensures from <= index && (if from <= |space| then index <= |space| else index == from)
      ensures explorationCounter == old(explorationCounter) + index - from + if index < |space| then 1 else 0
    {
      assert ValidConfiguration();
      hide Valid, Discredited, Plausible, WellNumbered, RanToTheEnd, PassedOver, Searched, ExploredOnly, Undisturbed;
      ghost var start := Since(|old(log)|);
      index := from;
      NothingPassedOver(from, start, log);
      while index < |searchSpace|
        invariant Valid() && old(log) <= log
        invariant from <= index && (if from <= |space| then index <= |space| else index == from)
        invariant PassedOver(from, index, start, log)
        invariant !valueTEQ ==> ExploredOnly(from, index, start, log)
        invariant explorationCounter == old(explorationCounter) + index - from
      {
        var found := ExploreOrPass(from, searchSpace[index], index, start);
        if found {
          break;
        }
        index := index + 1;
      }
      FoundIsSearched(from, index, start, log);
      SearchedIsFirst(from, index, start, log);
      if Undisturbed() { NoneDiscredited(start); }
    }
  }

  /** Moving an element to the front is a permutation. */
  lemma MoveToFront<T>(order: seq<T>, index: nat)
    requires index < |order|
    ensures var moved := [order[index]] + order[..index] + order[index + 1..];
            && multiset(moved) == multiset(order)
            && (forall x :: x in moved <==> x in order)
  {
    var moved := [order[index]] + order[..index] + order[index + 1..];
    assert order == order[..index] + [order[index]] + order[index + 1..];
    assert multiset(moved) == multiset(order);
    forall x ensures x in moved <==> x in order {
      assert x in moved <==> x in multiset(moved);
      assert x in order <==> x in multiset(order);
    }
  }
}
