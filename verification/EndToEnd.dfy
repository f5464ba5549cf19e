/** The whole tool: the patches it delivers are judged by running the program with the emitted
    partition functions, and what they are judged on is what the patched program does
    (repair/Repair.cpp:244-346, repair/Synthesis.cpp:790-880). */
module EndToEnd {
  import opened Core
  import opened Semantics
  import opened SearchSpace
  import opened ArgumentLayout
  import opened LayoutAgreement
  import opened Generation
  import opened Evaluation
  import opened Partition
  import TestEquivalence
  import SearchEngine
  import Prioritization
  import Repair

  /** The generated runtime of a program: the applications with their components as the
      transformation tool listed them, the switches emitted for them, the arrays each call
      passes, and whatever earlier evaluations left in the registers. */
  datatype Runtime = Runtime(
    sas: seq<SchemaApplication>, components: seq<seq<Component>>, bounds: Bounds, switches: seq<Switches>,
    arrays: (nat, Env) -> Arrays, left: (nat, PatchID, Env) -> Registers)

  /** The calls bind every array by its position in the argument list. */
  ghost predicate CallsBind(r: Runtime, k: nat, env: Env)
    requires k < |r.components|
  {
    r.arrays(k, env).prims == env.prims && Binds(MachineOf(r.arrays(k, env), 0, 0), r.components[k], env)
  }

  ghost predicate ReadBack(r: Runtime, k: nat)
    requires k < |r.sas| && k < |r.components|
  {
    && WellFormed(r.sas[k]) && ReadFrom(r.sas[k], r.components[k])
    && DistinctReprs(r.components[k]) && CallableNames(r.components[k])
  }

  ghost predicate Generated(r: Runtime) {
    && |r.components| == |r.sas| == |r.switches|
    && DistinctApps(r.sas) && AllEmitted(r.switches, r.sas)
    && (forall k :: 0 <= k < |r.sas| ==> ReadBack(r, k))
    && (forall k: nat, env :: k < |r.sas| ==> CallsBind(r, k, env))
  }

  function IndexOf(sas: seq<SchemaApplication>, a: AppID): (k: Option<nat>)
    ensures k.Some? ==> k.value < |sas| && sas[k.value].id == a
  {
    if sas == [] then None
    else if sas[|sas| - 1].id == a then Some(|sas| - 1)
    else IndexOf(sas[..|sas| - 1], a)
  }

  lemma {:induction false} IndexFound(sas: seq<SchemaApplication>, k: nat)
    requires DistinctApps(sas) && k < |sas|
    ensures IndexOf(sas, sas[k].id) == Some(k)
  {
    if k < |sas| - 1 {
      IndexFound(sas[..|sas| - 1], k);
    }
  }

  /** What the partition function computes. */
  function StagedOutcome(r: Runtime, a: AppID, id: PatchID, env: Env): Outcome
    requires |r.sas| <= |r.switches|
  {
    match IndexOf(r.sas, a)
    case None => Outcome(true, 0)
    case Some(k) => Evaluate(r.switches[k], id, r.arrays(k, env), r.left(k, id, env)).0
  }

  /** What the program does once the patch is applied to its text. */
  function PatchedOutcome(r: Runtime, id: PatchID, env: Env): Outcome {
    match DecodeId(r.sas, r.bounds, id)
    case None => Outcome(true, 0)
    case Some(p) =>
      match Eval(p.modified, env)
      case None => Outcome(true, 0)
      case Some(v) => Outcome(false, v)
  }

  function StagedSemantics(r: Runtime, a: AppID): TestEquivalence.Semantics<Env>
    requires |r.sas| <= |r.switches|
  {
    (id, env) => StagedOutcome(r, a, id, env)
  }

  function PatchedSemantics(r: Runtime): TestEquivalence.Semantics<Env> {
    (id, env) => PatchedOutcome(r, id, env)
  }

  /** The expression chosen for the Boolean hole crashes; the patch itself may not need it. */
  ghost predicate CrashesEagerly(p: Patch, env: Env) {
    p.id.bool2 != 0 && Bool2Value(p.app, p.id, env).None?
  }

  lemma {:induction false} FoundUpTo(sas: seq<SchemaApplication>, bounds: Bounds, n: nat, p: Patch) returns (k: nat)
    requires n <= |sas| && DecodeUpTo(sas, bounds, n, p.id) == Some(p)
    ensures k < n && Decode(sas[k], FirstBase(sas, k), bounds, p.id) == Some(p) && p.app == sas[k]
  {
    hide Mods, Decode;
    if p.id.base >= FirstBase(sas, n - 1) {
      k := n - 1;
      DecodedBase(sas[k], FirstBase(sas, k), bounds, p);
    } else {
      k := FoundUpTo(sas, bounds, n - 1, p);
    }
  }

  /** One evaluation by the partition function, against the patched program. */
  lemma OutcomesRelate(r: Runtime, p: Patch, env: Env)
    requires Generated(r) && p in Space(r.sas, r.bounds)
    ensures var s, c := StagedOutcome(r, p.app.id, p.id, env), PatchedOutcome(r, p.id, env);
            && (!s.panic ==> c == s)
            && (s.panic <==> c.panic || CrashesEagerly(p, env))
  {
    hide Space, DecodeUpTo, Decode, IsEmitted, Evaluate, Bool2Value, LayoutOf, WellFormed, AllEmitted;
    SpaceDecodes(r.sas, r.bounds, p);
    var k := FoundUpTo(r.sas, r.bounds, |r.sas|, p);
    IndexFound(r.sas, k);
    assert ReadBack(r, k) && CallsBind(r, k, env);
    LayoutsAgree(MachineOf(r.arrays(k, env), 0, 0), r.sas[k], r.components[k], env);
    assert IsEmitted(r.switches[k], r.sas[k], FirstBase(r.sas, k), LayoutOf(r.sas[k])) by { Emitted(r, k); }
    StagedIsConcrete(r.sas[k], FirstBase(r.sas, k), r.bounds, r.switches[k], LayoutOf(r.sas[k]), p,
                     env, r.arrays(k, env), r.left(k, p.id, env));
  }

  lemma Emitted(r: Runtime, k: nat)
    requires Generated(r) && k < |r.sas|
    ensures IsEmitted(r.switches[k], r.sas[k], FirstBase(r.sas, k), LayoutOf(r.sas[k]))
  {
    hide IsEmitted, LayoutOf;
  }

  // ----- Runs -----

  /** Where the staged semantics does not panic it is the patched one. */
  lemma {:induction false} RunsRelate(
    r: Runtime, p: Patch, prog: TestEquivalence.Program<Env>, history: seq<int>)
    requires Generated(r) && p in Space(r.sas, r.bounds)
    requires forall h :: prog.aborted(h) != PASS
    ensures var s := TestEquivalence.RunFrom(prog, StagedSemantics(r, p.app.id), p.id, history);
            s.status == PASS ==> TestEquivalence.RunFrom(prog, PatchedSemantics(r), p.id, history) == s
    decreases prog.limit - |history|
  {
    assert |r.sas| <= |r.switches|;
    hide Generated, Space, StagedOutcome, PatchedOutcome, CrashesEagerly;
    if |history| < prog.limit && prog.next(history).Call? {
      var env := prog.next(history).args;
      OutcomesRelate(r, p, env);
      var o := StagedOutcome(r, p.app.id, p.id, env);
      if !o.panic {
        RunsRelate(r, p, prog, history + [o.value]);
      }
    }
  }

  /** If the chosen Boolean expression crashes on no call of the patched program, both runs are
      indistinguishable. */
  lemma {:induction false} SameRunWithoutEagerCrash(
    r: Runtime, p: Patch, prog: TestEquivalence.Program<Env>, history: seq<int>)
    requires Generated(r) && p in Space(r.sas, r.bounds)
    requires forall env :: env in TestEquivalence.CallsFrom(prog, PatchedSemantics(r), p.id, history) ==> !CrashesEagerly(p, env)
    ensures TestEquivalence.SameRun(
              TestEquivalence.RunFrom(prog, StagedSemantics(r, p.app.id), p.id, history),
              TestEquivalence.RunFrom(prog, PatchedSemantics(r), p.id, history))
    decreases prog.limit - |history|
  {
    hide Generated, Space, StagedOutcome, PatchedOutcome, CrashesEagerly;
    if |history| < prog.limit && prog.next(history).Call? {
      var env := prog.next(history).args;
      OutcomesRelate(r, p, env);
      var o := PatchedOutcome(r, p.id, env);
      var calls := TestEquivalence.CallsFrom(prog, PatchedSemantics(r), p.id, history);
      assert calls[0] == env;
      if !o.panic {
        var later := history + [o.value];
        assert calls[1..] == TestEquivalence.CallsFrom(prog, PatchedSemantics(r), p.id, later);
        SameRunWithoutEagerCrash(r, p, prog, later);
      }
    }
  }

  /** The chosen Boolean expression crashes on no call of the patched program. */
  ghost predicate CrashesOnNone(p: Patch, calls: seq<Env>) {
    forall k :: 0 <= k < |calls| ==> !CrashesEagerly(p, calls[k])
  }

  /** A run passes under the generated runtime exactly if it passes in the patched program and the
      chosen Boolean expression crashes on none of its calls. */
  lemma {:induction false} StagedPassesIff(
    r: Runtime, p: Patch, prog: TestEquivalence.Program<Env>, history: seq<int>)
    requires Generated(r) && p in Space(r.sas, r.bounds)
    requires forall h :: prog.aborted(h) != PASS
    ensures TestEquivalence.RunFrom(prog, StagedSemantics(r, p.app.id), p.id, history).status == PASS <==>
            && TestEquivalence.RunFrom(prog, PatchedSemantics(r), p.id, history).status == PASS
            && CrashesOnNone(p, TestEquivalence.CallsFrom(prog, PatchedSemantics(r), p.id, history))
    decreases prog.limit - |history|
  {
    assert |r.sas| <= |r.switches|;
    hide Generated, Space, StagedOutcome, PatchedOutcome, CrashesEagerly;
    if |history| < prog.limit && prog.next(history).Call? {
      var env := prog.next(history).args;
      OutcomesRelate(r, p, env);
      var o := PatchedOutcome(r, p.id, env);
      var calls := TestEquivalence.CallsFrom(prog, PatchedSemantics(r), p.id, history);
      assert calls[0] == env;
      if !o.panic {
        var later := history + [o.value];
        StagedPassesIff(r, p, prog, later);
        OneMoreCrash(p, calls);
        assert calls[1..] == TestEquivalence.CallsFrom(prog, PatchedSemantics(r), p.id, later);
      }
    }
  }

  lemma OneMoreCrash(p: Patch, calls: seq<Env>)
    requires calls != []
    ensures CrashesOnNone(p, calls) <==> !CrashesEagerly(p, calls[0]) && CrashesOnNone(p, calls[1..])
  {
    hide CrashesEagerly;
    if CrashesOnNone(p, calls[1..]) {
      assert forall k :: 1 <= k < |calls| ==> calls[k] == calls[1..][k - 1];
    }
  }

  // ----- The delivered patches -----

  /** A test suite run against the emitted runtime, and against the patched program. */
  function StagedProblem(r: Runtime, tests: seq<string>, program: (AppID, string) -> TestEquivalence.Program<Env>,
                         profile: SearchEngine.Profile): Repair.Problem<Env>
    requires |r.sas| <= |r.switches|
  {
    Repair.Problem(tests, SearchEngine.Subject(program, a => StagedSemantics(r, a)), profile)
  }

  function PatchedProblem(r: Runtime, tests: seq<string>, program: (AppID, string) -> TestEquivalence.Program<Env>,
                          profile: SearchEngine.Profile): Repair.Problem<Env>
  {
    Repair.Problem(tests, SearchEngine.Subject(program, a => PatchedSemantics(r)), profile)
  }

  /** An aborted run never passes. */
  ghost predicate AbortsFail(tests: seq<string>, program: (AppID, string) -> TestEquivalence.Program<Env>) {
    forall a, k: nat, h :: k < |tests| ==> program(a, tests[k]).aborted(h) != PASS
  }

  /** On none of the tests that decide about `p` does its chosen Boolean expression crash. */
  ghost predicate NeverCrashesEagerly(
    r: Runtime, tests: seq<string>, program: (AppID, string) -> TestEquivalence.Program<Env>,
    profile: SearchEngine.Profile, p: Patch)
    requires SearchEngine.ValidIndexes(profile, |tests|)
  {
    forall k :: k in SearchEngine.TestsAt(profile, p.app.location) ==>
      CrashesOnNone(p, TestEquivalence.CallsFrom(program(p.app.id, tests[k]), PatchedSemantics(r), p.id, []))
  }

  /** Soundness: a patch that passes its tests under the emitted runtime passes them when it is
      applied to the program. */
  lemma PlausibleIsReal(
    r: Runtime, tests: seq<string>, program: (AppID, string) -> TestEquivalence.Program<Env>,
    profile: SearchEngine.Profile, p: Patch)
    requires Generated(r) && p in Space(r.sas, r.bounds)
    requires SearchEngine.ValidIndexes(profile, |tests|) && AbortsFail(tests, program)
    requires Repair.IsPlausible(StagedProblem(r, tests, program, profile), p)
    ensures Repair.IsPlausible(PatchedProblem(r, tests, program, profile), p)
  {
    hide Space, StagedOutcome, PatchedOutcome;
    forall k | k in SearchEngine.TestsAt(profile, p.app.location)
      ensures SearchEngine.Verdict(PatchedProblem(r, tests, program, profile).subject, p, tests[k]) == PASS
    {
      assert SearchEngine.Verdict(StagedProblem(r, tests, program, profile).subject, p, tests[k]) == PASS;
      RunsRelate(r, p, program(p.app.id, tests[k]), []);
    }
  }

  /** A patch is plausible under the generated runtime exactly if it passes its tests when it is applied
      to the program, and its chosen Boolean expression never crashes on them. */
  lemma PlausibleIff(
    r: Runtime, tests: seq<string>, program: (AppID, string) -> TestEquivalence.Program<Env>,
    profile: SearchEngine.Profile, p: Patch)
    requires Generated(r) && p in Space(r.sas, r.bounds)
    requires SearchEngine.ValidIndexes(profile, |tests|) && AbortsFail(tests, program)
    ensures Repair.IsPlausible(StagedProblem(r, tests, program, profile), p) <==>
            && Repair.IsPlausible(PatchedProblem(r, tests, program, profile), p)
            && NeverCrashesEagerly(r, tests, program, profile, p)
  {
    hide Space, StagedOutcome, PatchedOutcome, CrashesEagerly, CrashesOnNone;
    forall k | k in SearchEngine.TestsAt(profile, p.app.location)
      ensures SearchEngine.Verdict(StagedProblem(r, tests, program, profile).subject, p, tests[k]) == PASS <==>
              && SearchEngine.Verdict(PatchedProblem(r, tests, program, profile).subject, p, tests[k]) == PASS
              && CrashesOnNone(p, TestEquivalence.CallsFrom(program(p.app.id, tests[k]), PatchedSemantics(r), p.id, []))
    {
      StagedPassesIff(r, p, program(p.app.id, tests[k]), []);
    }
  }

  /** The patches the tool can find: those that repair the program and never crash eagerly. */
  ghost function Usable(
    r: Runtime, tests: seq<string>, program: (AppID, string) -> TestEquivalence.Program<Env>,
    profile: SearchEngine.Profile): Repair.Judge
    requires SearchEngine.ValidIndexes(profile, |tests|)
  {
    p => Repair.IsPlausible(PatchedProblem(r, tests, program, profile), p) && NeverCrashesEagerly(r, tests, program, profile, p)
  }

  /** What is delivered is, in the order of cost and among equals of generation, the usable patches of
      the search space that were not lost: the first one, or all of them, or as many as the limit;
      validation filters the list of an all-patches run. */
  ghost predicate DeliversUsable(
    r: Runtime, tests: seq<string>, program: (AppID, string) -> TestEquivalence.Program<Env>,
    profile: SearchEngine.Profile, lost: set<PatchID>, cfg: Repair.Config, valid: Patch -> bool, patches: seq<Patch>)
    requires SearchEngine.ValidIndexes(profile, |tests|)
  {
    exists list ::
      && Repair.IsRanked(Repair.Except(Usable(r, tests, program, profile), lost), Space(r.sas, r.bounds), cfg.generateAll, cfg.outputTop, list)
      && patches == if cfg.validatePatches && cfg.generateAll then Repair.Validated(valid, list) else list
  }

  /** No usable patch is missed or beaten unless it was lost, and nothing else is delivered. */
  lemma DeliveredAreUsable(
    r: Runtime, tests: seq<string>, program: (AppID, string) -> TestEquivalence.Program<Env>,
    profile: SearchEngine.Profile, lost: set<PatchID>, sorted: seq<Patch>, cfg: Repair.Config, valid: Patch -> bool,
    patches: seq<Patch>)
    requires Generated(r) && SearchEngine.ValidIndexes(profile, |tests|) && AbortsFail(tests, program)
    requires Prioritization.IsStableSort(sorted, Space(r.sas, r.bounds), Prioritization.SyntacticDiff)
    requires |r.sas| <= |r.switches|
    requires Repair.Delivered(
               Repair.Except(Repair.PlausibleTo(StagedProblem(r, tests, program, profile)), lost), sorted, cfg, valid, patches)
    ensures DeliversUsable(r, tests, program, profile, lost, cfg, valid, patches)
  {
    hide Repair.IsPlausible, Space, NeverCrashesEagerly, Repair.Delivered, Prioritization.IsStableSort, Generated,
         Repair.IsRanked, Repair.Validated;
    var space := Space(r.sas, r.bounds);
    var good := Repair.Except(Repair.PlausibleTo(StagedProblem(r, tests, program, profile)), lost);
    var good' := Repair.Except(Usable(r, tests, program, profile), lost);
    var list := Repair.DeliveredIsRanked(good, space, sorted, cfg, valid, patches);
    forall p | p in space ensures good(p) == good'(p) {
      PlausibleIff(r, tests, program, profile, p);
    }
    Repair.RankedAlike(good, good', space, cfg.generateAll, cfg.outputTop, list);
  }

  /** Generates the runtime and searches. Whatever is delivered repairs the program, also if tests are
      killed, and exactly the usable patches are delivered that the mode asks for and that no killed
      test discredited. */
  method GenerateAndRepair(
    sas: seq<SchemaApplication>, components: seq<seq<Component>>, bounds: Bounds,
    arrays: (nat, Env) -> Arrays, left: (nat, PatchID, Env) -> Registers,
    tests: seq<string>, program: (AppID, string) -> TestEquivalence.Program<Env>, profile: SearchEngine.Profile,
    shared: Partition.Runtime, cfg: Repair.Config, valid: Patch -> bool, kills: nat -> Option<TestEquivalence.KillPoint>)
    returns (status: Repair.RepairStatus, patches: seq<Patch>, ghost r: Runtime,
             ghost engine: SearchEngine.SearchEngine<Env>, ghost lost: set<PatchID>)
    requires |components| == |sas| && DistinctApps(sas)
    requires forall k :: 0 <= k < |sas| ==>
               && WellFormed(sas[k]) && ReadFrom(sas[k], components[k])
               && DistinctReprs(components[k]) && CallableNames(components[k])
    requires forall k: nat, env :: k < |sas| ==>
               arrays(k, env).prims == env.prims && Binds(MachineOf(arrays(k, env), 0, 0), components[k], env)
    requires SearchEngine.ValidIndexes(profile, |tests|) && AbortsFail(tests, program)
    requires shared.partition.Length == MAX_PARTITION_SIZE
    requires cfg.valueTEQ ==> forall a :: |Repair.CandidatesAt(Space(sas, bounds), a)| < MAX_PARTITION_SIZE
    modifies shared.partition
    ensures Generated(r) && r.sas == sas && r.bounds == bounds
    ensures status == if patches != [] then Repair.SUCCESS else Repair.FAILURE
    ensures forall p :: p in patches ==>
              p in Space(sas, bounds) && Repair.IsPlausible(PatchedProblem(r, tests, program, profile), p)
    ensures DeliversUsable(r, tests, program, profile, lost, cfg, valid, patches)
    ensures engine.Valid() && engine.kills == kills && engine.subject == StagedProblem(r, tests, program, profile).subject
    ensures Repair.LosesOnly(engine, lost) && ((forall n :: kills(n) == None) ==> lost == {})
  {
    hide Repair.IsPlausible, Space, Usable, Prioritization.IsStableSort, Repair.Delivered, DeliversUsable, AbortsFail;
    var space, switches := GenerateSearchSpace(sas, bounds);
    var runtime := Runtime(sas, components, bounds, switches, arrays, left);
    r := runtime;
    BuiltIsGenerated(r);
    SpaceIsWellNumbered(sas, bounds);
    var problem := StagedProblem(runtime, tests, program, profile);
    ghost var sorted;
    status, patches, sorted, engine, lost := Repair.RepairProgram(problem, space, shared, cfg, valid, kills);
    DeliveredAreUsable(r, tests, program, profile, lost, sorted, cfg, valid, patches);
    Repair.DeliveredAreGood(Repair.Except(Repair.PlausibleTo(problem), lost), space, sorted, cfg, valid, patches);
    forall p | p in patches ensures Repair.IsPlausible(PatchedProblem(r, tests, program, profile), p) {
      PlausibleIsReal(r, tests, program, profile, p);
    }
  }

  lemma BuiltIsGenerated(r: Runtime)
    requires |r.components| == |r.sas| == |r.switches|
    requires DistinctApps(r.sas) && AllEmitted(r.switches, r.sas)
    requires forall k :: 0 <= k < |r.sas| ==>
               && WellFormed(r.sas[k]) && ReadFrom(r.sas[k], r.components[k])
               && DistinctReprs(r.components[k]) && CallableNames(r.components[k])
    requires forall k: nat, env :: k < |r.sas| ==>
               r.arrays(k, env).prims == env.prims && Binds(MachineOf(r.arrays(k, env), 0, 0), r.components[k], env)
    ensures Generated(r)
  {
    hide WellFormed, ReadFrom, DistinctReprs, CallableNames, Binds, AllEmitted;
  }
}
