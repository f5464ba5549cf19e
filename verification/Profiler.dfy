/** Which tests decide about a location: the merged traces of all tests
    (repair/Profiler.cpp:39-47, 149-229). */
module Profiler {
  import opened Core
  import opened Expressions

  // ----- Locations as text -----

  function LocToString(loc: Location): string {
    Decimal(loc.fileId) + " " + (Decimal(loc.beginLine) + " " + (Decimal(loc.beginColumn) + " " +
    (Decimal(loc.endLine) + " " + Decimal(loc.endColumn))))
  }

  lemma FirstField(m: nat, rest: string, n: nat, rest': string)
    requires Decimal(m) + " " + rest == Decimal(n) + " " + rest'
    ensures m == n && rest == rest'
  {
    var s, t := Decimal(m) + " " + rest, Decimal(n) + " " + rest';
    var a, b := Decimal(m), Decimal(n);
    DecimalRoundTrip(m);
    DecimalRoundTrip(n);
    hide Decimal, DecimalValue;
    assert s[|a|] == ' ' && t[|b|] == ' ';
    assert forall k :: 0 <= k < |a| ==> IsDigit(s[k]) && s[k] == a[k];
    assert forall k :: 0 <= k < |b| ==> IsDigit(t[k]) && t[k] == b[k];
    assert |a| == |b|;
    assert a == s[..|a|] && b == t[..|b|];
    assert rest == s[|a| + 1..] && rest' == t[|b| + 1..];
  }

  /** Different locations have different texts. */
  lemma LocToStringIsInjective(l: Location, m: Location)
    ensures LocToString(l) == LocToString(m) <==> l == m
  {
    if LocToString(l) == LocToString(m) {
      var l4, m4 := Decimal(l.endLine) + " " + Decimal(l.endColumn), Decimal(m.endLine) + " " + Decimal(m.endColumn);
      var l3, m3 := Decimal(l.beginColumn) + " " + l4, Decimal(m.beginColumn) + " " + m4;
      var l2, m2 := Decimal(l.beginLine) + " " + l3, Decimal(m.beginLine) + " " + m3;
      FirstField(l.fileId, l2, m.fileId, m2);
      FirstField(l.beginLine, l3, m.beginLine, m3);
      FirstField(l.beginColumn, l4, m.beginColumn, m4);
      FirstField(l.endLine, Decimal(l.endColumn), m.endLine, Decimal(m.endColumn));
      DecimalIsInjective(l.endColumn, m.endColumn);
    }
  }

  function Texts(locs: set<Location>): set<string> {
    set l | l in locs :: LocToString(l)
  }

  lemma TextIn(l: Location, locs: set<Location>)
    ensures LocToString(l) in Texts(locs) <==> l in locs
  {
    if LocToString(l) in Texts(locs) {
      var m :| m in locs && LocToString(m) == LocToString(l);
      LocToStringIsInjective(l, m);
    }
  }

  // ----- What merging computes -----

  /** The trace of one test. */
  datatype Trace = Trace(testIndex: nat, isPassing: bool, locations: seq<Location>)

  type Related = map<Location, seq<nat>>

  function Covered(t: Trace): set<Location> {
    set l | l in t.locations
  }

  /** One line of a trace: passing tests go to the end of the list, failing tests to the front. */
  function RecordLine(related: Related, loc: Location, testIndex: nat, isPassing: bool): Related {
    var current := if loc in related then related[loc] else [];
    related[loc := if testIndex in current then current
                   else if isPassing then current + [testIndex] else [testIndex] + current]
  }

  function RecordLines(related: Related, t: Trace, n: nat): Related
    requires n <= |t.locations|
  {
    if n == 0 then related else
      RecordLine(RecordLines(related, t, n - 1), t.locations[n - 1], t.testIndex, t.isPassing)
  }

  /** The locations of interest after the traces: the first failing test seeds them, later ones
      cut them down, and an empty set is seeded again. */
  function Interesting(traces: seq<Trace>): set<Location> {
    if traces == [] then {} else
      var before, last := Interesting(traces[..|traces| - 1]), traces[|traces| - 1];
      if last.isPassing then before
      else if before == {} then Covered(last)
      else before * Covered(last)
  }

  function RelatedAfter(traces: seq<Trace>): Related {
    if traces == [] then map[] else
      var init, last := traces[..|traces| - 1], traces[|traces| - 1];
      var recorded := RecordLines(RelatedAfter(init), last, |last.locations|);
      if last.isPassing || Interesting(init) == {} then recorded
      else map loc | loc in recorded && loc in Covered(last) :: recorded[loc]
  }

  /** What the profiler keeps in the end. */
  function Kept(traces: seq<Trace>): Related {
    map loc | loc in RelatedAfter(traces) && loc in Interesting(traces) :: RelatedAfter(traces)[loc]
  }

  // ----- The profiler -----

  class Profiler {
    var relatedTestIndexes: Related
    var interestingLocations: set<string>
    ghost var traces: seq<Trace>

    ghost predicate Valid()
      reads this
    {
      && relatedTestIndexes == RelatedAfter(traces)
      && interestingLocations == Texts(Interesting(traces))
    }

    constructor ()
      ensures Valid() && traces == []
    {
      relatedTestIndexes, interestingLocations, traces := map[], {}, [];
    }

    method MergeTrace(t: Trace)
      requires Valid()
      modifies this
      ensures Valid() && traces == old(traces) + [t]
    {
      ghost var after := traces + [t];
      assert after[..|traces|] == traces;
      var covered := RecordTrace(t);
      if !t.isPassing {
        if interestingLocations == {} {
          assert Interesting(traces) == {} by { NoTexts(Interesting(traces)); }
          interestingLocations := covered;
        } else {
          TextsIntersect(Interesting(traces), Covered(t));
          interestingLocations := Intersect(interestingLocations, covered);
          relatedTestIndexes := Erase(relatedTestIndexes, covered, Covered(t));
        }
      }
      traces := after;
    }

    method RecordTrace(t: Trace) returns (covered: set<string>)
      modifies this`relatedTestIndexes
      ensures relatedTestIndexes == RecordLines(old(relatedTestIndexes), t, |t.locations|)
      ensures covered == Texts(Covered(t))
    {
      covered := {};
      ghost var seen: set<Location> := {};
      for n := 0 to |t.locations|
        invariant relatedTestIndexes == RecordLines(old(relatedTestIndexes), t, n)
        invariant seen == set l | l in t.locations[..n]
        invariant covered == Texts(seen)
      {
        var loc := t.locations[n];
        if loc !in relatedTestIndexes {
          relatedTestIndexes := relatedTestIndexes[loc := []];
        }
        var current := relatedTestIndexes[loc];
        if t.testIndex !in current {
          if t.isPassing {
            relatedTestIndexes := relatedTestIndexes[loc := current + [t.testIndex]];
          } else {
            relatedTestIndexes := relatedTestIndexes[loc := [t.testIndex] + current];
          }
        }
        covered := covered + {LocToString(loc)};
        assert t.locations[..n + 1] == t.locations[..n] + [loc];
        TextsExtend(seen, loc);
        seen := seen + {loc};
      }
      assert t.locations[..|t.locations|] == t.locations;
    }

    /** Drops the locations that are not of interest; what is left is the profile. */
    method GetProfile() returns (profile: set<string>)
      requires Valid()
      modifies this`relatedTestIndexes
      ensures relatedTestIndexes == Kept(traces)
      ensures profile == Texts(Interesting(traces))
    {
      relatedTestIndexes := Erase(relatedTestIndexes, interestingLocations, Interesting(traces));
      profile := interestingLocations;
    }
  }

  lemma NoTexts(locs: set<Location>)
    ensures Texts(locs) == {} <==> locs == {}
  {
    if locs != {} {
      var l :| l in locs;
      assert LocToString(l) in Texts(locs);
    }
  }

  lemma TextsExtend(locs: set<Location>, l: Location)
    ensures Texts(locs + {l}) == Texts(locs) + {LocToString(l)}
  {
  }

  lemma TextsIntersect(a: set<Location>, b: set<Location>)
    ensures Texts(a * b) == Texts(a) * Texts(b)
  {
    forall s | s in Texts(a) && s in Texts(b) ensures s in Texts(a * b) {
      var l :| l in a && LocToString(l) == s;
      TextIn(l, b);
    }
  }

  method Intersect(a: set<string>, b: set<string>) returns (r: set<string>)
    ensures r == a * b
  {
    r := {};
    var todo := a;
    while todo != {}
      invariant todo <= a && r == (a - todo) * b
    {
      var s :| s in todo;
      if s in b {
        r := r + {s};
      }
      todo := todo - {s};
    }
  }

  /** Erases, entry by entry, the locations whose text is not listed. */
  method Erase(related: Related, texts: set<string>, ghost locs: set<Location>) returns (r: Related)
    requires texts == Texts(locs)
    ensures r == map loc | loc in related && loc in locs :: related[loc]
  {
    r := related;
    var todo := related.Keys;
    while todo != {}
      invariant todo <= related.Keys
      invariant r == map loc | loc in related && (loc in todo || loc in locs) :: related[loc]
    {
      var loc :| loc in todo;
      TextIn(loc, locs);
      if LocToString(loc) !in texts {
        r := r - {loc};
      }
      todo := todo - {loc};
    }
  }

  // ----- What it means -----

  /** Every test is traced once. */
  predicate DistinctTests(traces: seq<Trace>) {
    forall i, j :: 0 <= i < j < |traces| ==> traces[i].testIndex != traces[j].testIndex
  }

  /** The location is covered by all failing tests. */
  predicate InAllFailing(traces: seq<Trace>, loc: Location) {
    forall i :: 0 <= i < |traces| && !traces[i].isPassing ==> loc in Covered(traces[i])
  }

  predicate HasFailing(traces: seq<Trace>) {
    exists i :: 0 <= i < |traces| && !traces[i].isPassing
  }

  /** The locations all failing tests share, if there is a failing test. */
  ghost predicate IsShared(traces: seq<Trace>, loc: Location) {
    HasFailing(traces) && InAllFailing(traces, loc)
  }

  /** The failing tests, the latest first. */
  function FailingLatestFirst(traces: seq<Trace>): seq<nat> {
    if traces == [] then [] else
      var rest, last := FailingLatestFirst(traces[..|traces| - 1]), traces[|traces| - 1];
      if last.isPassing then rest else [last.testIndex] + rest
  }

  /** The passing tests that cover the location, in order. */
  function PassingCovering(traces: seq<Trace>, loc: Location): seq<nat> {
    if traces == [] then [] else
      var rest, last := PassingCovering(traces[..|traces| - 1], loc), traces[|traces| - 1];
      if last.isPassing && loc in Covered(last) then rest + [last.testIndex] else rest
  }

  lemma {:induction false} TestsListed(traces: seq<Trace>, loc: Location, t: nat)
    ensures t in FailingLatestFirst(traces) <==> exists i :: 0 <= i < |traces| && !traces[i].isPassing && traces[i].testIndex == t
    ensures t in PassingCovering(traces, loc) <==>
            exists i :: 0 <= i < |traces| && traces[i].isPassing && loc in Covered(traces[i]) && traces[i].testIndex == t
  {
    hide Covered;
    if traces != [] {
      var init := traces[..|traces| - 1];
      TestsListed(init, loc, t);
      assert forall i :: 0 <= i < |init| ==> traces[i] == init[i];
    }
  }

  lemma LastLine(t: Trace, n: nat, loc: Location)
    requires 0 < n <= |t.locations|
    ensures loc in t.locations[..n] <==> loc in t.locations[..n - 1] || loc == t.locations[n - 1]
  {
    assert t.locations[..n] == t.locations[..n - 1] + [t.locations[n - 1]];
  }

  /** A line leaves other locations alone, and lists the test once. */
  lemma {:induction false} LinesAt(related: Related, t: Trace, n: nat, loc: Location)
    requires n <= |t.locations|
    requires loc in related ==> t.testIndex !in related[loc]
    ensures var r := RecordLines(related, t, n);
            var before := if loc in related then related[loc] else [];
            if loc in t.locations[..n]
            then loc in r && r[loc] == if t.isPassing then before + [t.testIndex] else [t.testIndex] + before
            else (loc in r <==> loc in related) && (loc in r ==> r[loc] == before)
  {
    if n > 0 {
      LinesAt(related, t, n - 1, loc);
      LastLine(t, n, loc);
      assert RecordLines(related, t, n) ==
             RecordLine(RecordLines(related, t, n - 1), t.locations[n - 1], t.testIndex, t.isPassing);
      hide RecordLines;
    }
  }

  lemma CoveredLines(t: Trace, loc: Location)
    ensures loc in t.locations[..|t.locations|] <==> loc in Covered(t)
  {
    assert t.locations[..|t.locations|] == t.locations;
  }

  /** The failing tests that cover the location, the latest first. */
  function FailingCovering(traces: seq<Trace>, loc: Location): seq<nat> {
    if traces == [] then [] else
      var rest, last := FailingCovering(traces[..|traces| - 1], loc), traces[|traces| - 1];
      if !last.isPassing && loc in Covered(last) then [last.testIndex] + rest else rest
  }

  /** The tests that cover the location: failing ones, the latest first, then passing ones in order. */
  function Covering(traces: seq<Trace>, loc: Location): seq<nat> {
    FailingCovering(traces, loc) + PassingCovering(traces, loc)
  }

  /** How many traces the profiler has forgotten at the location: those up to the last failing test
      that does not cover it, unless there was nothing of interest to erase. */
  function Forgotten(traces: seq<Trace>, loc: Location): (n: nat)
    ensures n <= |traces|
  {
    if traces == [] then 0 else
      var init, last := traces[..|traces| - 1], traces[|traces| - 1];
      if !last.isPassing && loc !in Covered(last) && Interesting(init) != {} then |traces| else Forgotten(init, loc)
  }

  lemma {:induction false} CoveringListed(traces: seq<Trace>, loc: Location, t: nat)
    ensures t in Covering(traces, loc) <==> exists i :: 0 <= i < |traces| && loc in Covered(traces[i]) && traces[i].testIndex == t
  {
    hide Covered;
    if traces != [] {
      var init := traces[..|traces| - 1];
      CoveringListed(init, loc, t);
      assert forall i :: 0 <= i < |init| ==> traces[i] == init[i];
    }
  }

  lemma CoveringStep(init: seq<Trace>, last: Trace, loc: Location)
    ensures var before := Covering(init, loc);
            Covering(init + [last], loc) ==
            if loc !in Covered(last) then before
            else if last.isPassing then before + [last.testIndex] else [last.testIndex] + before
  {
    hide Covered;
    assert (init + [last])[..|init|] == init;
    assert ([last.testIndex] + FailingCovering(init, loc)) + PassingCovering(init, loc) ==
           [last.testIndex] + (FailingCovering(init, loc) + PassingCovering(init, loc));
  }

  /** At every location the list holds the tests that cover it among those not forgotten. */
  lemma {:induction false} ListSince(traces: seq<Trace>, loc: Location)
    requires DistinctTests(traces)
    ensures var list := Covering(traces[Forgotten(traces, loc)..], loc);
            && (loc in RelatedAfter(traces) <==> list != [])
            && (list != [] ==> RelatedAfter(traces)[loc] == list)
  {
    hide Covering;
    if traces == [] {
      NoneCovering(loc);
    } else {
      var init, last := traces[..|traces| - 1], traces[|traces| - 1];
      var since := init[Forgotten(init, loc)..];
      ListSince(init, loc);
      NotYetListed(traces, loc);
      LinesAt(RelatedAfter(init), last, |last.locations|, loc);
      CoveredLines(last, loc);
      CoveringStep(since, last, loc);
      NoneCovering(loc);
      assert traces[Forgotten(init, loc)..] == since + [last];
      assert traces[|traces|..] == [];
    }
  }

  lemma NoneCovering(loc: Location)
    ensures Covering([], loc) == []
  {
  }

  lemma NotYetListed(traces: seq<Trace>, loc: Location)
    requires DistinctTests(traces) && traces != []
    ensures var init := traces[..|traces| - 1];
            traces[|traces| - 1].testIndex !in Covering(init[Forgotten(init, loc)..], loc)
  {
    hide Covering, Covered;
    var init := traces[..|traces| - 1];
    var n := Forgotten(init, loc);
    CoveringListed(init[n..], loc, traces[|traces| - 1].testIndex);
    assert forall i :: 0 <= i < |init| - n ==> init[n..][i] == traces[n + i];
  }

  /** At a location all failing tests share, nothing is ever erased: the list holds the failing
      tests, the latest first, and then the covering passing tests in order. */
  lemma ListAt(traces: seq<Trace>, loc: Location)
    requires DistinctTests(traces) && InAllFailing(traces, loc)
    ensures var list := FailingLatestFirst(traces) + PassingCovering(traces, loc);
            && (loc in RelatedAfter(traces) <==> list != [])
            && (list != [] ==> RelatedAfter(traces)[loc] == list)
  {
    ListSince(traces, loc);
    NothingForgotten(traces, loc);
    assert traces[0..] == traces;
  }

  lemma {:induction false} NothingForgotten(traces: seq<Trace>, loc: Location)
    requires InAllFailing(traces, loc)
    ensures Forgotten(traces, loc) == 0 && FailingCovering(traces, loc) == FailingLatestFirst(traces)
  {
    hide Covered;
    if traces != [] {
      var init, last := traces[..|traces| - 1], traces[|traces| - 1];
      assert forall i :: 0 <= i < |init| ==> traces[i] == init[i];
      NothingForgotten(init, loc);
    }
  }

  lemma {:induction false} InterestingIfShared(traces: seq<Trace>, loc: Location)
    requires InAllFailing(traces, loc)
    ensures Interesting(traces) == set l | l in Interesting(traces) && InAllFailing(traces, l)
    ensures HasFailing(traces) ==> loc in Interesting(traces)
  {
    hide Covered;
    if traces != [] {
      var init, last := traces[..|traces| - 1], traces[|traces| - 1];
      InterestingIfShared(init, loc);
      assert HasFailing(traces) <==> HasFailing(init) || !last.isPassing by {
        if HasFailing(traces) {
          var i :| 0 <= i < |traces| && !traces[i].isPassing;
          if i < |init| { assert !init[i].isPassing; }
        }
        if HasFailing(init) {
          var i :| 0 <= i < |init| && !init[i].isPassing;
          assert !traces[i].isPassing;
        }
      }
      assert forall l :: InAllFailing(traces, l) <==> InAllFailing(init, l) && (!last.isPassing ==> l in Covered(last)) by {
        assert forall i :: 0 <= i < |init| ==> traces[i] == init[i];
      }
      if !last.isPassing && !HasFailing(init) {
        NothingYet(init);
      }
    }
  }

  lemma {:induction false} NothingYet(traces: seq<Trace>)
    requires !HasFailing(traces)
    ensures Interesting(traces) == {} && forall l :: InAllFailing(traces, l)
  {
    if traces != [] {
      assert forall i :: 0 <= i < |traces| - 1 ==> traces[..|traces| - 1][i] == traces[i];
      NothingYet(traces[..|traces| - 1]);
    }
  }

  predicate NoDuplicates(s: seq<nat>) {
    forall i, j :: 0 <= i < j < |s| ==> s[i] != s[j]
  }

  /** If the failing tests share a location, the profile has exactly the shared ones, and each
      lists every failing test, the latest first, and then the passing tests that cover it, in
      order, all of them once. */
  lemma ProfileIsExact(traces: seq<Trace>, shared: Location, loc: Location)
    requires DistinctTests(traces) && IsShared(traces, shared)
    ensures loc in Kept(traces) <==> IsShared(traces, loc)
    ensures loc in Kept(traces) ==>
              && Kept(traces)[loc] == FailingLatestFirst(traces) + PassingCovering(traces, loc)
              && NoDuplicates(Kept(traces)[loc])
  {
    InterestingIfShared(traces, shared);
    assert loc in Interesting(traces) ==> InAllFailing(traces, loc);
    if InAllFailing(traces, loc) {
      InterestingIfShared(traces, loc);
      ListAt(traces, loc);
      SomeFailing(traces, loc);
      NothingForgotten(traces, loc);
      CoveringOnce(traces, loc);
    }
  }

  lemma SomeFailing(traces: seq<Trace>, loc: Location)
    requires HasFailing(traces)
    ensures FailingLatestFirst(traces) + PassingCovering(traces, loc) != []
  {
    var i :| 0 <= i < |traces| && !traces[i].isPassing;
    TestsListed(traces, loc, traces[i].testIndex);
  }

  // ----- Seeding again -----

  /** A location of interest has a list, whatever was erased. */
  lemma {:induction false} InterestingIsRelated(traces: seq<Trace>)
    ensures Interesting(traces) <= RelatedAfter(traces).Keys
  {
    if traces != [] {
      var init, last := traces[..|traces| - 1], traces[|traces| - 1];
      InterestingIsRelated(init);
      forall loc | loc in Interesting(traces) ensures loc in RelatedAfter(traces) {
        LinesKeep(RelatedAfter(init), last, |last.locations|, loc);
        CoveredLines(last, loc);
      }
    }
  }

  lemma {:induction false} LinesKeep(related: Related, t: Trace, n: nat, loc: Location)
    requires n <= |t.locations|
    ensures loc in RecordLines(related, t, n) <==> loc in related || loc in t.locations[..n]
  {
    if n > 0 {
      LinesKeep(related, t, n - 1, loc);
      assert t.locations[..n] == t.locations[..n - 1] + [t.locations[n - 1]];
    }
  }

  lemma SharedStep(traces: seq<Trace>, loc: Location)
    requires traces != []
    ensures var init, last := traces[..|traces| - 1], traces[|traces| - 1];
            && (HasFailing(traces) <==> HasFailing(init) || !last.isPassing)
            && (InAllFailing(traces, loc) <==> InAllFailing(init, loc) && (!last.isPassing ==> loc in Covered(last)))
  {
    hide Covered;
    var init := traces[..|traces| - 1];
    assert forall i :: 0 <= i < |init| ==> traces[i] == init[i];
    if HasFailing(init) {
      var i :| 0 <= i < |init| && !init[i].isPassing;
      assert !traces[i].isPassing;
    }
  }

  /** Some location is covered by all failing tests. */
  ghost predicate Share(traces: seq<Trace>) {
    exists loc :: InAllFailing(traces, loc)
  }

  /** The failing tests shared a location until the last one came. */
  ghost predicate Breaks(traces: seq<Trace>) {
    traces != [] && !Share(traces) && Share(traces[..|traces| - 1])
  }

  /** The traces fall into stretches, each of which ends when its failing tests share no location
      any more. There the next failing test finds no location of interest. */
  ghost predicate IsCut(traces: seq<Trace>)
    decreases |traces|
  {
    traces == [] || exists s :: 0 <= s < |traces| && IsCut(traces[..s]) && Breaks(traces[s..])
  }

  lemma PartShares(traces: seq<Trace>, s: nat, n: nat, loc: Location)
    requires s <= n <= |traces| && InAllFailing(traces, loc)
    ensures InAllFailing(traces[s..n], loc)
  {
    hide Covered;
    assert forall i :: 0 <= i < n - s ==> traces[s..n][i] == traces[s + i];
  }

  lemma InitShares(traces: seq<Trace>)
    requires Share(traces) && traces != []
    ensures Share(traces[..|traces| - 1])
  {
    var loc :| InAllFailing(traces, loc);
    PartShares(traces, 0, |traces| - 1, loc);
    assert traces[0..|traces| - 1] == traces[..|traces| - 1];
  }

  lemma NoneShare()
    ensures Share([])
  {
    assert InAllFailing([], Line(0));
  }

  /** After a cut, the locations of interest are those the failing tests since then share. */
  lemma {:induction false} SinceCut(traces: seq<Trace>, since: seq<Trace>)
    requires Interesting(traces) == {} && (since == [] || Share(since[..|since| - 1]))
    ensures forall loc :: loc in Interesting(traces + since) <==> IsShared(since, loc)
    decreases |since|
  {
    hide Covered;
    if since == [] {
      assert traces + since == traces;
    } else {
      var init, last := since[..|since| - 1], since[|since| - 1];
      assert (traces + since)[..|traces + since| - 1] == traces + init;
      if init != [] { InitShares(init); }
      SinceCut(traces, init);
      var shared :| InAllFailing(init, shared);
      assert HasFailing(init) ==> shared in Interesting(traces + init);
      if !HasFailing(init) { NothingYet(init); }
      forall loc ensures loc in Interesting(traces + since) <==> IsShared(since, loc) { SharedStep(since, loc); }
    }
  }

  /** At a cut no location is of interest, and none is shared. */
  lemma {:induction false} CutEmpties(traces: seq<Trace>)
    requires IsCut(traces)
    ensures Interesting(traces) == {} && (traces != [] ==> !Share(traces))
    decreases |traces|
  {
    if traces != [] {
      var s :| 0 <= s < |traces| && IsCut(traces[..s]) && Breaks(traces[s..]);
      CutEmpties(traces[..s]);
      SinceCut(traces[..s], traces[s..]);
      assert traces[..s] + traces[s..] == traces;
      if Share(traces) {
        var loc :| InAllFailing(traces, loc);
        assert traces[s..|traces|] == traces[s..];
        PartShares(traces, s, |traces|, loc);
      }
    }
  }

  /** The latest cut: since then the failing tests share a location. */
  lemma {:induction false} LastCut(traces: seq<Trace>) returns (s: nat)
    ensures s <= |traces| && IsCut(traces[..s]) && Share(traces[s..])
    decreases |traces|
  {
    hide Share;
    NoneShare();
    assert traces[|traces|..] == [] && traces[..|traces|] == traces;
    if traces == [] {
      s := 0;
    } else {
      var init := traces[..|traces| - 1];
      s := LastCut(init);
      assert init[..s] == traces[..s] && traces[s..][..|traces[s..]| - 1] == init[s..];
      if !Share(traces[s..]) {
        assert Breaks(traces[s..]);
        s := |traces|;
      }
    }
  }

  /** The failing tests after the cut at `s` share `loc`. */
  ghost predicate SeedsAgain(traces: seq<Trace>, s: nat, loc: Location) {
    0 < s < |traces| && IsCut(traces[..s]) && IsShared(traces[s..], loc)
  }

  /** The profile has exactly the locations shared by all failing tests unless it is seeded again:
      at some cut no location is of interest, and the failing tests after it share one. */
  lemma KeptIsSharedIff(traces: seq<Trace>)
    ensures (forall loc :: loc in Kept(traces) <==> IsShared(traces, loc)) <==>
            !exists s: nat, loc :: SeedsAgain(traces, s, loc)
  {
    InterestingIsRelated(traces);
    assert Kept(traces).Keys == Interesting(traces);
    hide Interesting, RelatedAfter, IsShared, SeedsAgain;
    if s: nat, loc :| SeedsAgain(traces, s, loc) {
      SeededIsKept(traces, s, loc);
      assert loc in Kept(traces);
    } else {
      var s := LastCut(traces);
      NotSeededAgain(traces, s);
    }
  }

  lemma SeededIsKept(traces: seq<Trace>, s: nat, loc: Location)
    requires SeedsAgain(traces, s, loc)
    ensures loc in Interesting(traces) && !IsShared(traces, loc)
  {
    var since := traces[s..];
    CutEmpties(traces[..s]);
    assert Share(since);
    InitShares(since);
    SinceCut(traces[..s], since);
    assert traces[..s] + since == traces;
    NoneSharedAfter(traces, s, loc);
  }

  lemma NoneSharedAfter(traces: seq<Trace>, s: nat, loc: Location)
    requires s <= |traces| && !Share(traces[..s])
    ensures !IsShared(traces, loc)
  {
    assert traces[0..s] == traces[..s];
    if InAllFailing(traces, loc) { PartShares(traces, 0, s, loc); }
  }

  /** No test has failed since some cut. */
  ghost predicate NoneFailedSince(traces: seq<Trace>) {
    exists s :: 0 <= s <= |traces| && IsCut(traces[..s]) && !HasFailing(traces[s..])
  }

  /** Then, and only then, nothing is of interest. */
  lemma NothingOfInterestIff(traces: seq<Trace>)
    ensures Interesting(traces) == {} <==> NoneFailedSince(traces)
  {
    hide Interesting, Covered;
    if s :| 0 <= s <= |traces| && IsCut(traces[..s]) && !HasFailing(traces[s..]) {
      InterestingSince(traces, s);
    }
    var s := LastCut(traces);
    InterestingSince(traces, s);
    var loc :| InAllFailing(traces[s..], loc);
    assert HasFailing(traces[s..]) ==> IsShared(traces[s..], loc);
  }

  lemma InterestingSince(traces: seq<Trace>, s: nat)
    requires s <= |traces| && IsCut(traces[..s]) && (Share(traces[s..]) || !HasFailing(traces[s..]))
    ensures forall loc :: loc in Interesting(traces) <==> IsShared(traces[s..], loc)
  {
    var since := traces[s..];
    CutEmpties(traces[..s]);
    if !HasFailing(since) {
      NothingYet(since);
      assert InAllFailing(since, Line(1));
    }
    if since != [] { InitShares(since); }
    SinceCut(traces[..s], since);
    assert traces[..s] + since == traces;
  }

  /** Seeded again or not, a kept location lists the tests that cover it among those not forgotten,
      each once. */
  lemma KeptListIsExact(traces: seq<Trace>, loc: Location)
    requires DistinctTests(traces) && loc in Kept(traces)
    ensures Kept(traces)[loc] == Covering(traces[Forgotten(traces, loc)..], loc) && NoDuplicates(Kept(traces)[loc])
  {
    ListSince(traces, loc);
    hide Interesting, Covered;
    CoveringOnce(traces[Forgotten(traces, loc)..], loc);
  }

  lemma {:induction false} CoveringOnce(traces: seq<Trace>, loc: Location)
    requires DistinctTests(traces)
    ensures NoDuplicates(Covering(traces, loc))
  {
    hide Covering, Covered;
    if traces == [] {
      NoneCovering(loc);
    } else {
      var init, last := traces[..|traces| - 1], traces[|traces| - 1];
      CoveringOnce(init, loc);
      CoveringListed(init, loc, last.testIndex);
      CoveringStep(init, last, loc);
      assert init + [last] == traces;
    }
  }

  /** What is forgotten: everything before the first trace behind the last one that erases. */
  lemma {:induction false} ForgottenIsLast(traces: seq<Trace>, loc: Location)
    ensures var n := Forgotten(traces, loc);
            && (n > 0 ==> Erases(traces, n - 1, loc))
            && forall k :: n <= k < |traces| ==> !Erases(traces, k, loc)
  {
    hide Covered, NoneFailedSince;
    if traces != [] {
      var init := traces[..|traces| - 1];
      ForgottenIsLast(init, loc);
      NothingOfInterestIff(init);
      assert forall k :: 0 <= k < |init| ==> init[k] == traces[k] && init[..k] == traces[..k];
      assert forall k :: 0 <= k < |init| ==> (Erases(init, k, loc) <==> Erases(traces, k, loc));
    }
  }

  /** A failing test that does not cover the location erases it, unless no test has failed since
      some cut. */
  ghost predicate Erases(traces: seq<Trace>, k: nat, loc: Location)
    requires k < |traces|
  {
    !traces[k].isPassing && loc !in Covered(traces[k]) && !NoneFailedSince(traces[..k])
  }

  lemma NotSeededAgain(traces: seq<Trace>, s: nat)
    requires s <= |traces| && IsCut(traces[..s]) && Share(traces[s..]) && forall loc :: !SeedsAgain(traces, s, loc)
    ensures forall loc :: loc in Interesting(traces) <==> IsShared(traces, loc)
  {
    var since := traces[s..];
    CutEmpties(traces[..s]);
    if since != [] { InitShares(since); }
    SinceCut(traces[..s], since);
    assert traces[..s] + since == traces;
    if s == 0 {
      assert since == traces;
    } else {
      var shared :| InAllFailing(since, shared);
      assert !SeedsAgain(traces, s, shared);
      forall loc ensures !IsShared(traces, loc) { NoneSharedAfter(traces, s, loc); }
    }
  }

  function Line(n: nat): Location { Location(0, n, 0, n, 0) }

  /** Three failing tests on three different lines: the last line is kept, though none is shared. */
  lemma SeededAgain()
    ensures var traces := [Trace(0, false, [Line(1)]), Trace(1, false, [Line(2)]), Trace(2, false, [Line(3)])];
            Line(3) in Kept(traces) && !IsShared(traces, Line(3))
  {
    var traces := [Trace(0, false, [Line(1)]), Trace(1, false, [Line(2)]), Trace(2, false, [Line(3)])];
    assert traces[..2] == [traces[0], traces[1]] && traces[..2][..1] == [traces[0]] && traces[..2][..1][..0] == [];
    assert Interesting([traces[0]]) == {Line(1)};
    assert Interesting([traces[0], traces[1]]) == {};
    assert Line(3) in traces[2].locations;
    assert Line(3) in Interesting(traces);
    InterestingIsRelated(traces);
    assert Line(3) !in Covered(traces[0]);
  }
}
