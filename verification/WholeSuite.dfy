/** What the related tests of the profile say about the whole test suite (repair/Profiler.cpp:149-220,
    repair/SearchEngine.cpp:125-127): a test that does not cover a location decides nothing about it. */
module WholeSuite {
  import opened Core
  import opened Profiler
  import opened TestEquivalence
  import opened SearchEngine
  import opened Repair

  /** The trace of a test that does not reach the location: the program ends as it always did. */
  ghost predicate Unreached<A>(program: Program<A>, t: Trace) {
    && program.limit > 0 && program.next([]).Exit?
    && (program.next([]).status == PASS <==> t.isPassing)
  }

  /** Every test was traced once, and the traces of the tests tell which of them reach the location of
      the patch. */
  ghost predicate AreTraced<A>(problem: Problem<A>, traces: seq<Trace>, p: Patch) {
    && DistinctTests(traces)
    && (forall i :: 0 <= i < |traces| ==> traces[i].testIndex < |problem.tests|)
    && (forall k :: 0 <= k < |problem.tests| ==> TracesTest(traces, k))
    && (forall i :: 0 <= i < |traces| && p.app.location !in Covered(traces[i]) ==>
          Unreached(problem.subject.program(p.app.id, problem.tests[traces[i].testIndex]), traces[i]))
  }

  ghost predicate TracesTest(traces: seq<Trace>, k: nat) {
    exists i :: 0 <= i < |traces| && traces[i].testIndex == k
  }

  ghost predicate PassesSuite<A>(problem: Problem<A>, p: Patch) {
    forall k :: 0 <= k < |problem.tests| ==> Verdict(problem.subject, p, problem.tests[k]) == PASS
  }

  lemma UnreachedVerdict<A>(problem: Problem<A>, traces: seq<Trace>, p: Patch, i: nat)
    requires AreTraced(problem, traces, p) && i < |traces| && p.app.location !in Covered(traces[i])
    ensures Verdict(problem.subject, p, problem.tests[traces[i].testIndex]) == PASS <==> traces[i].isPassing
  {
  }

  /** For a location of the profile, a patch that passes its related tests passes the whole suite exactly
      if all failing tests share the location; and one that passes the suite passes its related tests. */
  lemma PassesSuiteIff<A>(problem: Problem<A>, traces: seq<Trace>, p: Patch)
    requires ValidIndexes(problem.profile, |problem.tests|) && problem.profile == Kept(traces)
    requires AreTraced(problem, traces, p) && p.app.location in Kept(traces)
    ensures PassesSuite(problem, p) <==> IsPlausible(problem, p) && IsShared(traces, p.app.location)
  {
    hide Kept, Covered, Verdict;
    var loc := p.app.location;
    if PassesSuite(problem, p) {
      KeptHasFailing(traces, loc);
      forall i | 0 <= i < |traces| && !traces[i].isPassing ensures loc in Covered(traces[i]) {
        if loc !in Covered(traces[i]) { UnreachedVerdict(problem, traces, p, i); }
      }
    }
    if IsPlausible(problem, p) && IsShared(traces, loc) {
      ProfileIsExact(traces, loc, loc);
      forall k | 0 <= k < |problem.tests| ensures Verdict(problem.subject, p, problem.tests[k]) == PASS {
        assert TracesTest(traces, k);
        var i :| 0 <= i < |traces| && traces[i].testIndex == k;
        TestsListed(traces, loc, k);
        if loc in Covered(traces[i]) {
          assert k in TestsAt(problem.profile, loc);
        } else {
          UnreachedVerdict(problem, traces, p, i);
        }
      }
    }
  }

  lemma KeptHasFailing(traces: seq<Trace>, loc: Location)
    requires loc in Kept(traces)
    ensures HasFailing(traces)
  {
    if !HasFailing(traces) { NothingYet(traces); }
  }
}
