/** The search loop of the repair tool, from a generated search space to the plausible patches
    (repair/Repair.cpp:244-346). */
module Repair {
  import opened Core
  import opened Partition
  import opened TestEquivalence
  import opened SearchEngine
  import opened Prioritization

  datatype RepairStatus = SUCCESS | FAILURE

  type Int32 = x: int | -0x8000_0000 <= x < 0x8000_0000

  /** `outputTop` 0 means no limit. */
  datatype Config = Config(
    valueTEQ: bool, testPrioritization: TestPrioritization, generateAll: bool, validatePatches: bool, outputTop: Int32)

  /** The test suite and what it does to the candidates. */
  datatype Problem<!A> = Problem(tests: seq<string>, subject: Subject<A>, profile: Profile)

  ghost predicate IsPlausible<A>(problem: Problem<A>, p: Patch)
    requires ValidIndexes(problem.profile, |problem.tests|)
  {
    Plausible(problem.subject, problem.tests, problem.profile, p)
  }

  const ULONG_MODULUS: nat := 0x1_0000_0000_0000_0000

  /** The comparison of a size with the signed option converts a negative limit to a huge one. */
  predicate FoundEnough(count: nat, outputTop: Int32) {
    outputTop != 0 && count >= if outputTop < 0 then ULONG_MODULUS + outputTop else outputTop
  }

  // ----- Which patches are collected -----

  /** Which patches are wanted. */
  type Judge = Patch -> bool

  ghost function PlausibleTo<A>(problem: Problem<A>): Judge
    requires ValidIndexes(problem.profile, |problem.tests|)
  {
    p => IsPlausible(problem, p)
  }

  /** Those that were not lost. */
  ghost function Except(good: Judge, lost: set<PatchID>): Judge { p => good(p) && p.id !in lost }

  /** The positions of good patches, increasing; those left out come later. */
  ghost predicate AreFirst(good: Judge, space: seq<Patch>, picked: seq<nat>) {
    && (forall k :: 0 <= k < |picked| ==> picked[k] < |space| && good(space[picked[k]]))
    && (forall k, l :: 0 <= k < l < |picked| ==> picked[k] < picked[l])
    && (forall j, k :: 0 <= j < |space| && good(space[j]) && j !in picked && 0 <= k < |picked| ==> picked[k] < j)
  }

  ghost predicate IsComplete(good: Judge, space: seq<Patch>, picked: seq<nat>) {
    forall j :: 0 <= j < |space| && good(space[j]) ==> j in picked
  }

  /** How many patches a limit other than 0 admits; a negative one becomes a very large size. */
  function Limit(outputTop: Int32): nat {
    if outputTop < 0 then 0x1_0000_0000_0000_0000 + outputTop else outputTop
  }

  /** The list has the length the mode asks for: one, all, or as many as the limit. */
  ghost predicate IsEnough(good: Judge, space: seq<Patch>, generateAll: bool, outputTop: Int32, picked: seq<nat>) {
    if generateAll then
      && (outputTop != 0 ==> |picked| <= Limit(outputTop))
      && (IsComplete(good, space, picked) || (outputTop != 0 && |picked| == Limit(outputTop)))
    else |picked| <= 1 && (picked == [] ==> IsComplete(good, space, picked))
  }

  /** What the loop collects: the first good patch, or the good ones up to the limit, in order. */
  ghost predicate Collected(good: Judge, space: seq<Patch>, generateAll: bool, outputTop: Int32, list: seq<Patch>) {
    exists picked ::
      AreFirst(good, space, picked) && Follows(list, space, picked) && IsEnough(good, space, generateAll, outputTop, picked)
  }

  ghost predicate CountsLocations(plausible: seq<Patch>, fixLocations: set<AppID>, moreThanOneFound: set<AppID>) {
    && (forall a :: a in fixLocations <==> FixesAt(plausible, a) > 0)
    && (forall a :: a in moreThanOneFound <==> FixesAt(plausible, a) > 1)
  }

  ghost function FixesAt(plausible: seq<Patch>, a: AppID): nat {
    if plausible == [] then 0 else
      FixesAt(plausible[..|plausible| - 1], a) + if plausible[|plausible| - 1].app.id == a then 1 else 0
  }

  method Record(patch: Patch, plausible: seq<Patch>, fixLocations: set<AppID>, moreThanOneFound: set<AppID>)
    returns (plausible': seq<Patch>, fixLocations': set<AppID>, moreThanOneFound': set<AppID>)
    requires CountsLocations(plausible, fixLocations, moreThanOneFound)
    ensures plausible' == plausible + [patch]
    ensures CountsLocations(plausible', fixLocations', moreThanOneFound')
  {
    moreThanOneFound' := moreThanOneFound;
    if patch.app.id in fixLocations {
      moreThanOneFound' := moreThanOneFound + {patch.app.id};
    }
    fixLocations' := fixLocations + {patch.app.id};
    plausible' := plausible + [patch];
    assert plausible'[..|plausible|] == plausible;
  }

  /** What was recorded so far are plausible patches, at increasing positions; plausible patches that
      were passed over were discredited by tests that were killed. */
  ghost predicate Recorded<A>(engine: SearchEngine<A>, plausible: seq<Patch>, picked: seq<nat>, last: nat)
    requires engine.ValidConfiguration()
    reads engine
  {
    && Follows(plausible, engine.space, picked)
    && (forall k :: 0 <= k < |picked| ==> picked[k] < last && engine.IsPlausible(engine.space[picked[k]]))
    && (forall k, l :: 0 <= k < l < |picked| ==> picked[k] < picked[l])
    && PassedOver(engine, engine.log, picked, last)
  }

  ghost predicate PassedOver<A>(engine: SearchEngine<A>, log: seq<Execution>, picked: seq<nat>, last: nat)
    requires engine.ValidConfiguration()
  {
    forall i :: 0 <= i < last && i < |engine.space| && engine.IsPlausible(engine.space[i]) && i !in picked ==>
      engine.Discredited(log, 0, engine.space[i].id)
  }

  /** One search step of the collection: finds the next patch to record, if there is one. */
  method NextPlausible<A>(
    engine: SearchEngine<A>, searchSpace: seq<Patch>, ghost plausible: seq<Patch>, ghost picked: seq<nat>, from: nat)
    returns (last: nat)
    requires engine.Valid() && engine.space == searchSpace
    requires from <= |searchSpace| && Recorded(engine, plausible, picked, from)
    modifies engine, engine.runtime.partition
    ensures engine.Valid()
    ensures from <= last <= |searchSpace|
    ensures Recorded(engine, plausible, picked, last)
    ensures last < |searchSpace| ==> Recorded(engine, plausible + [searchSpace[last]], picked + [last], last + 1)
  {
    ghost var before := engine.log;
    assert engine.ValidConfiguration();
    last := engine.FindNext(searchSpace, from);
    RecordedStep(engine, picked, from, last, before);
  }

  lemma RecordedStep<A>(engine: SearchEngine<A>, picked: seq<nat>, from: nat, last: nat, before: seq<Execution>)
    requires engine.ValidConfiguration() && before <= engine.log
    requires PassedOver(engine, before, picked, from)
    requires engine.Searched(from, last, engine.Since(|before|), engine.log)
    ensures PassedOver(engine, engine.log, picked, last)
    ensures PassedOver(engine, engine.log, picked + [last], last + 1)
  {
    forall i | 0 <= i < last && i < |engine.space| && engine.IsPlausible(engine.space[i]) && i !in picked
      ensures engine.Discredited(engine.log, 0, engine.space[i].id)
    {
      var id := engine.space[i].id;
      if i < from {
        engine.StaysDiscredited(before, engine.log, 0, id);
      } else {
        engine.DiscreditedSooner(engine.log, engine.Since(|before|), id);
      }
    }
  }

  /** The plausible patches that were passed over. */
  ghost function Lost<A>(engine: SearchEngine<A>, picked: seq<nat>, last: nat): set<PatchID>
    requires engine.ValidConfiguration()
  {
    set i | 0 <= i < last && i < |engine.space| && engine.IsPlausible(engine.space[i]) && i !in picked :: engine.space[i].id
  }

  /** What was recorded is what a naive search collects that knows which patches are lost. */
  lemma RecordedIsCollected<A>(
    engine: SearchEngine<A>, problem: Problem<A>, cfg: Config, plausible: seq<Patch>, picked: seq<nat>, last: nat)
    returns (lost: set<PatchID>)
    requires engine.ValidConfiguration() && problem == Problem(engine.tests, engine.subject, engine.profile)
    requires Recorded(engine, plausible, picked, last)
    requires last >= |engine.space| || if cfg.generateAll then FoundEnough(|plausible|, cfg.outputTop) else plausible != []
    requires if cfg.generateAll then plausible != [] ==> !FoundEnough(|plausible| - 1, cfg.outputTop) else |plausible| <= 1
    ensures Collected(Except(PlausibleTo(problem), lost), engine.space, cfg.generateAll, cfg.outputTop, plausible)
    ensures forall id :: id in lost ==> engine.Discredited(engine.log, 0, id)
  {
    lost := Lost(engine, picked, last);
    var good := Except(PlausibleTo(problem), lost);
    LostIsPassedOver(engine, problem, picked, last);
    assert AreFirst(good, engine.space, picked);
    assert IsEnough(good, engine.space, cfg.generateAll, cfg.outputTop, picked);
  }

  lemma LostIsPassedOver<A>(engine: SearchEngine<A>, problem: Problem<A>, picked: seq<nat>, last: nat)
    requires engine.ValidConfiguration() && problem == Problem(engine.tests, engine.subject, engine.profile)
    ensures var good := Except(PlausibleTo(problem), Lost(engine, picked, last));
            forall j :: 0 <= j < |engine.space| ==>
              (good(engine.space[j]) <==> engine.IsPlausible(engine.space[j]) && (j in picked || j >= last))
  {
    var lost := Lost(engine, picked, last);
    forall j | 0 <= j < |engine.space|
      ensures engine.space[j].id in lost <==> engine.IsPlausible(engine.space[j]) && j !in picked && j < last
    {
      if engine.space[j].id in lost {
        var i :| 0 <= i < last && i < |engine.space| && engine.IsPlausible(engine.space[i]) && i !in picked
                 && engine.space[i].id == engine.space[j].id;
        assert i == j;
      }
    }
  }

  /** Collects plausible patches from a sorted search space. Whatever tests are killed, those are
      collected that a naive search finds which passes over the lost ones; and only patches are lost
      that such a test discredited. */
  method CollectPlausible<A>(engine: SearchEngine<A>, ghost problem: Problem<A>, searchSpace: seq<Patch>, cfg: Config)
    returns (plausible: seq<Patch>, fixLocations: set<AppID>, moreThanOneFound: set<AppID>, ghost lost: set<PatchID>)
    requires engine.Valid() && engine.space == searchSpace
    requires problem == Problem(engine.tests, engine.subject, engine.profile)
    modifies engine, engine.runtime.partition
    ensures engine.Valid()
    ensures Collected(Except(PlausibleTo(problem), lost), searchSpace, cfg.generateAll, cfg.outputTop, plausible)
    ensures forall id :: id in lost ==> engine.Discredited(engine.log, 0, id)
    ensures engine.Undisturbed() ==> lost == {}
    ensures CountsLocations(plausible, fixLocations, moreThanOneFound)
  {
    assert CountsLocations([], {}, {});
    hide FoundEnough, Recorded, CountsLocations, Collected, Follows;
    var last := 0;
    plausible, fixLocations, moreThanOneFound := [], {}, {};
    ghost var picked: seq<nat> := [];
    NothingRecorded(engine);
    while last < |searchSpace|
      invariant engine.Valid()
      invariant last <= |searchSpace|
      invariant Recorded(engine, plausible, picked, last)
      invariant !cfg.generateAll ==> plausible == []
      invariant plausible != [] ==> !FoundEnough(|plausible| - 1, cfg.outputTop)
      invariant CountsLocations(plausible, fixLocations, moreThanOneFound)
    {
      last := NextPlausible(engine, searchSpace, plausible, picked, last);
      if last == |searchSpace| {
        break;
      }
      if FoundEnough(|plausible|, cfg.outputTop) {
        if plausible == [] { NoneIsEnough(cfg.outputTop); }
        break;
      }
      // In single-patch mode the result of validation is not used.
      plausible, fixLocations, moreThanOneFound := Record(searchSpace[last], plausible, fixLocations, moreThanOneFound);
      picked := picked + [last];
      last := last + 1;
      if !cfg.generateAll {
        break;
      }
    }
    lost := RecordedIsCollected(engine, problem, cfg, plausible, picked, last);
    if engine.Undisturbed() { engine.NoneDiscredited(0); }
  }

  lemma NothingRecorded<A>(engine: SearchEngine<A>)
    requires engine.ValidConfiguration()
    ensures Recorded(engine, [], [], 0)
  {
  }

  /** A limit is never reached with nothing found. */
  lemma NoneIsEnough(outputTop: Int32)
    ensures !FoundEnough(0, outputTop)
  {
  }

  // ----- The whole run -----

  /** The candidates of one application. */
  ghost function CandidatesAt(space: seq<Patch>, a: AppID): set<PatchID> {
    set i | 0 <= i < |space| && space[i].app.id == a :: space[i].id
  }

  lemma PartitionableIsCandidates(space: seq<Patch>, partitionable: map<AppID, set<PatchID>>, a: AppID)
    requires IsPartitionable(space, partitionable) && a in partitionable
    ensures partitionable[a] == CandidatesAt(space, a)
  {
    forall id ensures id in partitionable[a] <==> id in CandidatesAt(space, a) {
      if id in partitionable[a] {
        assert HasCandidate(space, a, id);
        var i :| 0 <= i < |space| && space[i].id == id && space[i].app.id == a;
      }
    }
  }

  /** Sorting a well numbered space keeps it well numbered, with the same patches. */
  lemma SortedIsWellNumbered(sorted: seq<Patch>, space: seq<Patch>, cost: Cost)
    requires IsStableSort(sorted, space, cost) && WellNumbered(space)
    ensures WellNumbered(sorted)
    ensures forall p :: p in sorted <==> p in space
    ensures forall a :: CandidatesAt(sorted, a) == CandidatesAt(space, a)
  {
    var order :| IsOrder(space, cost, order) && Follows(sorted, space, order);
    forall p ensures p in sorted <==> p in space {
      if p in space {
        var i :| 0 <= i < |space| && space[i] == p;
        assert i in order;
        var a :| 0 <= a < |order| && order[a] == i;
        assert sorted[a] == p;
      }
    }
    forall a, b | 0 <= a < b < |sorted|
      ensures sorted[a].id != sorted[b].id
      ensures sorted[a].app.id == sorted[b].app.id ==> sorted[a].app == sorted[b].app
    {
      var i, j := order[a], order[b];
      assert Before(space, cost, i, j);
      assert space[i].id == sorted[a].id && space[j].id == sorted[b].id;
      assert space[i].app.id == sorted[a].app.id && space[j].app.id == sorted[b].app.id;
    }
    forall a ensures CandidatesAt(sorted, a) == CandidatesAt(space, a) {
      forall id ensures id in CandidatesAt(sorted, a) <==> id in CandidatesAt(space, a) {
        assert (exists p :: p in sorted && p.app.id == a && p.id == id) <==>
               (exists p :: p in space && p.app.id == a && p.id == id);
        CandidatesByMember(sorted, a, id);
        CandidatesByMember(space, a, id);
      }
    }
  }

  lemma CandidatesByMember(space: seq<Patch>, a: AppID, id: PatchID)
    ensures id in CandidatesAt(space, a) <==> exists p :: p in space && p.app.id == a && p.id == id
  {
    if id in CandidatesAt(space, a) {
      var i :| 0 <= i < |space| && space[i].app.id == a && space[i].id == id;
      assert space[i] in space;
    }
  }

  /** The patches that survive the validation of an all-patches run. */
  function Validated(valid: Patch -> bool, plausible: seq<Patch>): (r: seq<Patch>)
    ensures forall p :: p in r <==> p in plausible && valid(p)
    ensures |r| <= |plausible|
  {
    if plausible == [] then [] else
      (if valid(plausible[0]) then [plausible[0]] else []) + Validated(valid, plausible[1..])
  }

  /** `out` is what stands at these increasing positions, which are those of the valid patches. */
  ghost predicate IsSelected(valid: Patch -> bool, list: seq<Patch>, kept: seq<nat>, out: seq<Patch>) {
    && Follows(out, list, kept)
    && (forall k, l :: 0 <= k < l < |kept| ==> kept[k] < kept[l])
    && (forall j :: 0 <= j < |list| ==> (j in kept <==> valid(list[j])))
  }

  /** Validation keeps the order, and drops what is not valid and nothing else. */
  lemma {:induction false} ValidatedKeepsOrder(valid: Patch -> bool, plausible: seq<Patch>) returns (kept: seq<nat>)
    ensures IsSelected(valid, plausible, kept, Validated(valid, plausible))
  {
    kept := [];
    if plausible != [] {
      var first, rest := plausible[0], plausible[1..];
      var later := ValidatedKeepsOrder(valid, rest);
      kept := (if valid(first) then [0] else []) + Shifted(later);
      SelectedStep(valid, first, rest, later, Validated(valid, rest));
      assert plausible == [first] + rest;
    }
  }

  lemma SelectedStep(valid: Patch -> bool, first: Patch, rest: seq<Patch>, later: seq<nat>, out: seq<Patch>)
    requires IsSelected(valid, rest, later, out)
    ensures IsSelected(valid, [first] + rest, (if valid(first) then [0] else []) + Shifted(later),
                       (if valid(first) then [first] else []) + out)
  {
    hide IsSelected;
    RestSelected(valid, first, rest, later, out);
    if valid(first) {
      FirstSelected(valid, first, rest, Shifted(later), out);
    } else {
      FirstDropped(valid, first, rest, Shifted(later), out);
      assert [] + Shifted(later) == Shifted(later) && [] + out == out;
    }
  }

  /** What the later positions select, with the first patch left open. */
  ghost predicate IsSelectedBehind(valid: Patch -> bool, list: seq<Patch>, kept: seq<nat>, out: seq<Patch>) {
    && Follows(out, list, kept)
    && (forall k, l :: 0 <= k < l < |kept| ==> kept[k] < kept[l])
    && (forall k :: 0 <= k < |kept| ==> kept[k] > 0)
    && (forall j :: 0 < j < |list| ==> (j in kept <==> valid(list[j])))
  }

  lemma RestSelected(valid: Patch -> bool, first: Patch, rest: seq<Patch>, later: seq<nat>, out: seq<Patch>)
    requires IsSelected(valid, rest, later, out)
    ensures IsSelectedBehind(valid, [first] + rest, Shifted(later), out)
  {
    var list := [first] + rest;
    forall j | 0 < j < |list| ensures j in Shifted(later) <==> valid(list[j]) {
      ShiftedHas(later, j);
      assert list[j] == rest[j - 1];
    }
  }

  lemma FirstSelected(valid: Patch -> bool, first: Patch, rest: seq<Patch>, kept: seq<nat>, out: seq<Patch>)
    requires IsSelectedBehind(valid, [first] + rest, kept, out) && valid(first)
    ensures IsSelected(valid, [first] + rest, [0] + kept, [first] + out)
  {
    var list, ks, ps := [first] + rest, [0] + kept, [first] + out;
    forall a | 0 <= a < |ks| ensures ks[a] < |list| && ps[a] == list[ks[a]] {
      if a > 0 { assert ks[a] == kept[a - 1] && ps[a] == out[a - 1]; }
    }
    forall k, l | 0 <= k < l < |ks| ensures ks[k] < ks[l] {
      assert ks[l] == kept[l - 1] && (k > 0 ==> ks[k] == kept[k - 1]);
    }
    forall j | 0 <= j < |list| ensures j in ks <==> valid(list[j]) {
      assert j in ks <==> j == 0 || j in kept;
    }
    assert Follows(ps, list, ks);
  }

  lemma FirstDropped(valid: Patch -> bool, first: Patch, rest: seq<Patch>, kept: seq<nat>, out: seq<Patch>)
    requires IsSelectedBehind(valid, [first] + rest, kept, out) && !valid(first)
    ensures IsSelected(valid, [first] + rest, kept, out)
  {
  }

  function Shifted(s: seq<nat>): (r: seq<nat>)
    ensures |r| == |s| && forall k :: 0 <= k < |s| ==> r[k] == s[k] + 1
  {
    seq(|s|, k requires 0 <= k < |s| => s[k] + 1)
  }

  lemma ShiftedHas(s: seq<nat>, j: nat)
    ensures j in Shifted(s) <==> j > 0 && j - 1 in s
  {
    if j > 0 && j - 1 in s {
      var k :| 0 <= k < |s| && s[k] == j - 1;
      assert Shifted(s)[k] == j;
    }
  }

  /** What the tool promises to deliver for a generated search space. `sorted` is that space in
      stable cost order. Validation filters only an all-patches run. */
  ghost predicate Delivered(good: Judge, sorted: seq<Patch>, cfg: Config, valid: Patch -> bool, patches: seq<Patch>) {
    exists list ::
      && Collected(good, sorted, cfg.generateAll, cfg.outputTop, list)
      && patches == if cfg.validatePatches && cfg.generateAll then Validated(valid, list) else list
  }

  /** Sorts the space, searches it, and validates. The engine is returned for what it knows about the
      tests that were killed. */
  method RepairProgram<A>(
    problem: Problem<A>, space: seq<Patch>, runtime: Runtime, cfg: Config, valid: Patch -> bool,
    kills: nat -> Option<KillPoint>)
    returns (status: RepairStatus, patches: seq<Patch>, ghost sorted: seq<Patch>,
             ghost engine: SearchEngine<A>, ghost lost: set<PatchID>)
    requires ValidIndexes(problem.profile, |problem.tests|)
    requires runtime.partition.Length == MAX_PARTITION_SIZE
    requires WellNumbered(space)
    requires cfg.valueTEQ ==> forall a :: |CandidatesAt(space, a)| < MAX_PARTITION_SIZE
    modifies runtime.partition
    ensures IsStableSort(sorted, space, SyntacticDiff)
    ensures Searches(engine, problem, sorted, cfg, kills) && LosesOnly(engine, lost)
    ensures Delivered(Except(PlausibleTo(problem), lost), sorted, cfg, valid, patches)
    ensures (forall n :: kills(n) == None) ==> lost == {}
    ensures status == if patches != [] then SUCCESS else FAILURE
  {
    var costs := ComputeCosts(space);
    var searchSpace := Prioritize(space, costs);
    SortBySameCosts(searchSpace, space, ByTable(costs), SyntacticDiff);
    SortedIsWellNumbered(searchSpace, space, SyntacticDiff);
    var partitionable := GetPartitionable(searchSpace);
    forall a | a in partitionable ensures partitionable[a] == CandidatesAt(space, a) {
      PartitionableIsCandidates(searchSpace, partitionable, a);
    }
    var search := new SearchEngine<A>(problem.tests, problem.subject, runtime, partitionable, problem.profile,
                                      cfg.valueTEQ, cfg.testPrioritization, kills, searchSpace);
    var plausible, fixLocations, moreThanOneFound;
    plausible, fixLocations, moreThanOneFound, lost := CollectPlausible(search, problem, searchSpace, cfg);
    sorted, engine := searchSpace, search;
    patches := plausible;
    if cfg.validatePatches && cfg.generateAll && |plausible| > 0 {
      patches := Validated(valid, plausible);
    }
    status := if |patches| > 0 then SUCCESS else FAILURE;
  }

  /** The engine searches this space with these tests, of which those are killed that `kills` says. */
  ghost predicate Searches<A>(
    engine: SearchEngine<A>, problem: Problem<A>, space: seq<Patch>, cfg: Config, kills: nat -> Option<KillPoint>)
    reads engine
  {
    && engine.Valid() && engine.space == space && engine.valueTEQ == cfg.valueTEQ && engine.kills == kills
    && problem == Problem(engine.tests, engine.subject, engine.profile)
  }

  /** Only patches are lost that a killed test discredited. */
  ghost predicate LosesOnly<A>(engine: SearchEngine<A>, lost: set<PatchID>)
    reads engine
  {
    forall id :: id in lost ==> engine.Discredited(engine.log, 0, id)
  }

  // ----- The patches delivered, in the generated space -----

  /** `picked` lists good patches in stable cost order, each once. */
  ghost predicate IsRanking(good: Judge, space: seq<Patch>, picked: seq<nat>) {
    && (forall k :: 0 <= k < |picked| ==> picked[k] < |space| && good(space[picked[k]]))
    && (forall k, l :: 0 <= k < l < |picked| ==> Before(space, SyntacticDiff, picked[k], picked[l]))
  }

  /** No good patch left out is better than a picked one. */
  ghost predicate IsCheapest(good: Judge, space: seq<Patch>, picked: seq<nat>)
    requires IsRanking(good, space, picked)
  {
    forall j, k :: 0 <= j < |space| && good(space[j]) && j !in picked && 0 <= k < |picked| ==>
      Before(space, SyntacticDiff, picked[k], j)
  }

  /** `list` is what the mode asks for: good patches in stable cost order, none of those left out
      better. */
  ghost predicate IsRanked(good: Judge, space: seq<Patch>, generateAll: bool, outputTop: Int32, list: seq<Patch>) {
    exists picked ::
      && IsRanking(good, space, picked) && IsCheapest(good, space, picked)
      && Follows(list, space, picked)
      && IsEnough(good, space, generateAll, outputTop, picked)
  }

  /** Only the verdict on the patches of the space matters. */
  lemma RankedAlike(good: Judge, good': Judge, space: seq<Patch>, generateAll: bool, outputTop: Int32, list: seq<Patch>)
    requires forall p :: p in space ==> good(p) == good'(p)
    requires IsRanked(good, space, generateAll, outputTop, list)
    ensures IsRanked(good', space, generateAll, outputTop, list)
  {
    assert forall j :: 0 <= j < |space| ==> good(space[j]) == good'(space[j]);
    var picked :|
      && IsRanking(good, space, picked) && IsCheapest(good, space, picked)
      && Follows(list, space, picked)
      && IsEnough(good, space, generateAll, outputTop, picked);
    hide Limit, Before;
    assert IsRanking(good', space, picked);
  }

  ghost function Pick(order: seq<nat>, positions: seq<nat>): seq<nat>
    requires forall k :: 0 <= k < |positions| ==> positions[k] < |order|
  {
    seq(|positions|, k requires 0 <= k < |positions| => order[positions[k]])
  }

  /** The place of a position of the space in the sorted one. */
  lemma PlaceInOrder(space: seq<Patch>, sorted: seq<Patch>, order: seq<nat>, j: nat) returns (a: nat)
    requires IsOrder(space, SyntacticDiff, order) && Follows(sorted, space, order) && j < |space|
    ensures a < |order| && order[a] == j && sorted[a] == space[j]
  {
    assert j in order;
    a :| 0 <= a < |order| && order[a] == j;
  }

  lemma NotPicked(space: seq<Patch>, sorted: seq<Patch>, order: seq<nat>, positions: seq<nat>, j: nat) returns (a: nat)
    requires IsOrder(space, SyntacticDiff, order) && Follows(sorted, space, order) && j < |space|
    requires (forall k :: 0 <= k < |positions| ==> positions[k] < |order|) && j !in Pick(order, positions)
    ensures a < |order| && order[a] == j && sorted[a] == space[j] && a !in positions
  {
    a := PlaceInOrder(space, sorted, order, j);
    forall k | 0 <= k < |positions| ensures positions[k] != a {
      assert Pick(order, positions)[k] == order[positions[k]];
    }
  }

  /** Stopping early leaves out only patches that come later in the stable order. */
  lemma FirstAreCheapest(good: Judge, space: seq<Patch>, sorted: seq<Patch>, order: seq<nat>, positions: seq<nat>)
    requires IsOrder(space, SyntacticDiff, order) && Follows(sorted, space, order) && AreFirst(good, sorted, positions)
    ensures IsRanking(good, space, Pick(order, positions)) && IsCheapest(good, space, Pick(order, positions))
    ensures IsComplete(good, sorted, positions) ==> IsComplete(good, space, Pick(order, positions))
  {
    hide SyntacticDiff, Before;
    var picked := Pick(order, positions);
    forall k | 0 <= k < |picked| ensures picked[k] < |space| && good(space[picked[k]]) {
      assert sorted[positions[k]] == space[picked[k]];
    }
    forall j | 0 <= j < |space| && good(space[j]) && j !in picked
      ensures !IsComplete(good, sorted, positions)
      ensures forall k :: 0 <= k < |picked| ==> Before(space, SyntacticDiff, picked[k], j)
    {
      var a := NotPicked(space, sorted, order, positions, j);
    }
  }

  /** What the loop collects from the sorted space is, in the generated one, the good patches in
      stable cost order: the first one, or all of them, or as many as the limit. */
  lemma CollectedIsRanked(
    good: Judge, space: seq<Patch>, sorted: seq<Patch>, generateAll: bool, outputTop: Int32, list: seq<Patch>)
    requires IsStableSort(sorted, space, SyntacticDiff)
    requires Collected(good, sorted, generateAll, outputTop, list)
    ensures IsRanked(good, space, generateAll, outputTop, list)
  {
    hide Limit, SyntacticDiff, IsRanking, IsComplete, IsCheapest, AreFirst;
    var order :| IsOrder(space, SyntacticDiff, order) && Follows(sorted, space, order);
    var positions :|
      AreFirst(good, sorted, positions) && Follows(list, sorted, positions)
      && IsEnough(good, sorted, generateAll, outputTop, positions);
    FirstAreCheapest(good, space, sorted, order, positions);
    var picked := Pick(order, positions);
    assert Follows(list, space, picked);
    assert IsEnough(good, space, generateAll, outputTop, picked);
  }

  /** What is delivered: such a list, which validation filters in an all-patches run. */
  lemma DeliveredIsRanked(
    good: Judge, space: seq<Patch>, sorted: seq<Patch>, cfg: Config, valid: Patch -> bool, patches: seq<Patch>)
    returns (list: seq<Patch>)
    requires IsStableSort(sorted, space, SyntacticDiff) && Delivered(good, sorted, cfg, valid, patches)
    ensures IsRanked(good, space, cfg.generateAll, cfg.outputTop, list)
    ensures patches == if cfg.validatePatches && cfg.generateAll then Validated(valid, list) else list
  {
    hide Collected, IsRanked, IsStableSort, Validated;
    list :| && Collected(good, sorted, cfg.generateAll, cfg.outputTop, list)
            && patches == if cfg.validatePatches && cfg.generateAll then Validated(valid, list) else list;
    CollectedIsRanked(good, space, sorted, cfg.generateAll, cfg.outputTop, list);
  }

  /** Only good patches of the space are delivered. */
  lemma DeliveredAreGood(
    good: Judge, space: seq<Patch>, sorted: seq<Patch>, cfg: Config, valid: Patch -> bool, patches: seq<Patch>)
    requires IsStableSort(sorted, space, SyntacticDiff) && Delivered(good, sorted, cfg, valid, patches)
    ensures forall p :: p in patches ==> p in space && good(p)
  {
    hide IsStableSort, Delivered, IsCheapest, IsEnough, SyntacticDiff;
    var list := DeliveredIsRanked(good, space, sorted, cfg, valid, patches);
    var picked :|
      && IsRanking(good, space, picked) && IsCheapest(good, space, picked)
      && Follows(list, space, picked)
      && IsEnough(good, space, cfg.generateAll, cfg.outputTop, picked);
    forall p | p in patches ensures p in space && good(p) {
      assert p in list;
      var k :| 0 <= k < |list| && list[k] == p;
      assert list[k] == space[picked[k]];
    }
  }

  /** Patch `i` is good and comes before every other good patch. */
  ghost predicate IsBest(good: Judge, space: seq<Patch>, i: nat) {
    && i < |space| && good(space[i])
    && forall j :: 0 <= j < |space| && good(space[j]) && j != i ==> Before(space, SyntacticDiff, i, j)
  }

  /** Single-patch mode returns a good patch of least cost, the earliest generated among equals, and
      fails only when no patch is good. */
  lemma SinglePatchIsOptimal(
    good: Judge, space: seq<Patch>, sorted: seq<Patch>, cfg: Config, valid: Patch -> bool, patches: seq<Patch>)
    requires IsStableSort(sorted, space, SyntacticDiff) && !cfg.generateAll
    requires Delivered(good, sorted, cfg, valid, patches)
    ensures patches == [] <==> forall i :: 0 <= i < |space| ==> !good(space[i])
    ensures patches != [] ==> |patches| == 1 && exists i: nat :: IsBest(good, space, i) && space[i] == patches[0]
  {
    hide Delivered, IsStableSort;
    var list := DeliveredIsRanked(good, space, sorted, cfg, valid, patches);
    BestOfRanked(good, space, cfg.outputTop, patches);
  }

  lemma BestOfRanked(good: Judge, space: seq<Patch>, outputTop: Int32, list: seq<Patch>)
    requires IsRanked(good, space, false, outputTop, list)
    ensures list == [] <==> forall i :: 0 <= i < |space| ==> !good(space[i])
    ensures list != [] ==> |list| == 1 && exists i: nat :: IsBest(good, space, i) && space[i] == list[0]
  {
    hide SyntacticDiff, Limit;
    var picked :|
      && IsRanking(good, space, picked) && IsCheapest(good, space, picked)
      && Follows(list, space, picked)
      && IsEnough(good, space, false, outputTop, picked);
    if picked != [] {
      assert good(space[picked[0]]);
      assert IsBest(good, space, picked[0]) && space[picked[0]] == list[0];
    }
  }

  /** The good patches of the space, by their positions. */
  ghost function GoodOnes(good: Judge, space: seq<Patch>): set<nat> {
    set j | 0 <= j < |space| && good(space[j])
  }

  /** All-patches mode, validation off: the good patches in stable cost order, all of them unless the
      limit was reached, and then the cheapest ones, as many as the limit. */
  lemma AllPatchesAreExact(
    good: Judge, space: seq<Patch>, sorted: seq<Patch>, cfg: Config, valid: Patch -> bool, patches: seq<Patch>)
    requires IsStableSort(sorted, space, SyntacticDiff)
    requires cfg.generateAll && !cfg.validatePatches
    requires Delivered(good, sorted, cfg, valid, patches)
    ensures IsRanked(good, space, true, cfg.outputTop, patches)
    ensures var count, limit := |GoodOnes(good, space)|, cfg.outputTop;
            |patches| == if limit > 0 then if count < limit then count else limit
                         else if limit < 0 && 0x1_0000_0000_0000_0000 + limit < count then 0x1_0000_0000_0000_0000 + limit
                         else count
  {
    hide Delivered, IsStableSort, IsRanked;
    var list := DeliveredIsRanked(good, space, sorted, cfg, valid, patches);
    RankedCount(good, space, cfg.outputTop, patches);
  }

  /** What is delivered is all good patches exactly if there are no more than the limit. */
  lemma RankedCount(good: Judge, space: seq<Patch>, outputTop: Int32, list: seq<Patch>)
    requires IsRanked(good, space, true, outputTop, list)
    ensures var count := |GoodOnes(good, space)|;
            |list| == if outputTop != 0 && Limit(outputTop) < count then Limit(outputTop) else count
  {
    hide SyntacticDiff, IsComplete, Limit;
    var picked :|
      && IsRanking(good, space, picked) && IsCheapest(good, space, picked)
      && Follows(list, space, picked)
      && IsEnough(good, space, true, outputTop, picked);
    RankingCounts(good, space, picked);
  }

  lemma RankingCounts(good: Judge, space: seq<Patch>, picked: seq<nat>)
    requires IsRanking(good, space, picked)
    ensures |picked| <= |GoodOnes(good, space)|
    ensures IsComplete(good, space, picked) ==> |picked| == |GoodOnes(good, space)|
  {
    var ones := Elements(picked);
    hide SyntacticDiff;
    forall k, l | 0 <= k < l < |picked| ensures picked[k] != picked[l] {
      assert Before(space, SyntacticDiff, picked[k], picked[l]);
    }
    DistinctCount(picked);
    SubsetCount(ones, GoodOnes(good, space));
    if IsComplete(good, space, picked) { assert ones == GoodOnes(good, space); }
  }

  ghost function Elements(s: seq<nat>): set<nat> { set k | k in s }

  lemma {:induction false} DistinctCount(s: seq<nat>)
    requires forall k, l :: 0 <= k < l < |s| ==> s[k] != s[l]
    ensures |Elements(s)| == |s|
  {
    if s == [] {
      assert Elements(s) == {};
    } else {
      var init, last := s[..|s| - 1], s[|s| - 1];
      DistinctCount(init);
      assert Elements(s) == Elements(init) + {last};
      assert last !in init;
    }
  }

  lemma SubsetCount<T>(a: set<T>, b: set<T>)
    requires a <= b
    ensures |a| <= |b|
  {
    assert b == a + (b - a);
  }
}
