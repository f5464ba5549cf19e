/** A repair the tool cannot find. The condition `1` of a program is loosened by a comparison that reads
    `p->x`. The patched program never reads it; the partition function does, before it is needed, and
    panics where `p` is NULL (repair/Synthesis.cpp:726-738, 851-876). */
module MissedRepair {
  import opened Core
  import opened Expressions
  import opened Synthesis
  import opened Edits
  import opened Semantics
  import opened Staging
  import opened Dispatch
  import opened SearchSpace
  import opened ArgumentLayout
  import opened LayoutAgreement
  import opened Generation
  import opened Completeness
  import opened Evaluation
  import opened EndToEnd
  import Partition
  import TestEquivalence
  import SearchEngine
  import Repair

  // ----- The program -----

  const POINTED := Component(true, false, "int", "p->x", false, "p")

  const PLACE := Location(0, 1, 1, 1, 2)

  /** The condition `1`, with `p->x` in scope. */
  function Condition(): SchemaApplication {
    SchemaApplication(0, EXPRESSION, PLACE, CONDITION, TRUE_NODE, ToExpressions([POINTED]), [])
  }

  function Primitive(): Primitives { Primitives(_ => 0, (op, a, b) => 0, v => 0, (op, v) => v) }

  /** `p` is NULL. */
  function NullPointer(): Env { Env(_ => 0, _ => true, _ => 1, Primitive()) }

  /** Evaluates the condition once; passes if it holds. */
  function IfHolds(): TestEquivalence.Program<Env> {
    TestEquivalence.Program(
      (h: seq<int>) => if h == [] then TestEquivalence.Call(NullPointer())
                       else TestEquivalence.Exit(if h[0] != 0 then PASS else FAIL),
      h => FAIL, 2)
  }

  /** The arrays of a call: one value and one flag. */
  function OneValue(env: Env): Arrays {
    var value := if env.baseIsNull("p->x") then 0 else env.values("p->x");
    Arrays(text => if text == SlotText(ArgNameByNonPtrType("int"), 0) then value
                   else if text == SlotText(NULLDEREF_ARG_NAME, 0) then Truth(env.baseIsNull("p->x"))
                   else 0,
           env.prims)
  }

  lemma OneOfEach()
    ensures ToExpressions([POINTED]) == [ToExpression(POINTED)]
    ensures TypesIn([POINTED]) == ["int"] && ValuesIn([POINTED], "int") == [POINTED]
    ensures PointersIn([POINTED]) == [] && CompleteIn([POINTED]) == []
    ensures DereferencesIn([POINTED]) == ["p->x"] && BasesIn([POINTED]) == map["p->x" := "p"]
  {
    assert [POINTED][..0] == [];
    assert TypesIn([]) == [] && ValuesIn([], "int") == [] && DereferencesIn([]) == [];
  }

  lemma OneSorted(x: string)
    ensures SortNames([x]) == [x]
  {
    assert [x][1..] == [] && SortNames([]) == [];
    assert InsertName(x, []) == [x];
  }

  lemma OneCallable()
    ensures DistinctReprs([POINTED]) && CallableNames([POINTED]) && ReadFrom(Condition(), [POINTED])
  {
    OneOfEach();
    assert SortNames([]) == [];
    assert Underscored("int")[0] == 'i';
    assert NoBracket("int");
  }

  lemma OneBinds(env: Env)
    ensures Binds(MachineOf(OneValue(env), 0, 0), [POINTED], env)
  {
    OneOfEach();
    OneSorted("int");
    OneSorted("p->x");
    var es := ToExpressions([POINTED]);
    SameLists([POINTED]);
    assert es[0].kind == DEREFERENCE && es[0].ty == INTEGER;
    assert ParameterList(es) == [ArgNameByNonPtrType("int"), NULLDEREF_ARG_NAME];
    var args := ArgumentList([POINTED]);
    var bases := BasesIn([POINTED]);
    assert ValueArrays([POINTED], ["int"], bases) == [Values("int", ElementsOf([POINTED], bases))];
    assert PointerArrays([], SortNames([]), bases) == [];
    assert FlagsOf(["p->x"], bases) == [("p->x", "p")];
    assert args == [Values("int", ElementsOf([POINTED], bases)), NullFlags([("p->x", "p")])];
    assert Contents(args[0], env) == [if env.baseIsNull("p->x") then 0 else env.values("p->x")];
    assert Contents(args[1], env) == [Truth(env.baseIsNull("p->x"))];
    assert ArgNameByNonPtrType("int")[2] == 'i' && NULLDEREF_ARG_NAME[2] == 'n';
    var m := MachineOf(OneValue(env), 0, 0);
    assert SlotText(NULLDEREF_ARG_NAME, 0)[2] != SlotText(ArgNameByNonPtrType("int"), 0)[2];
    assert BindsArray(m, ArgNameByNonPtrType("int"), Contents(args[0], env));
    assert BindsArray(m, NULLDEREF_ARG_NAME, Contents(args[1], env));
  }

  // ----- Its runtime -----

  lemma ConditionIsWellFormed()
    ensures WellFormed(Condition())
  {
    OneOfEach();
    assert IsComponent(ToExpression(POINTED));
  }

  /** The switches that generation emits. */
  lemma Emitting(sa: SchemaApplication, firstBase: nat) returns (switches: Switches)
    requires WellFormed(sa)
    ensures IsEmitted(switches, sa, firstBase, LayoutOf(sa))
  {
    hide Emit, LayoutOf, WellFormed, Compilable;
    var layout := LayoutOf(sa);
    BasesAreWellFormed(sa);
    BoolsAreCompilable(sa);
    forall k | 0 <= k < |Bools(sa)| ensures Emit(Bools(sa)[k], layout).Some? {
      EmissionSucceeds(Bools(sa)[k], layout, sa.components, sa.completePointeeTypes);
    }
    forall k | 0 <= k < |Mods(sa)| ensures Emit(Mods(sa)[k].expr, layout).Some? {
      EmissionSucceeds(Mods(sa)[k].expr, layout, sa.components, sa.completePointeeTypes);
    }
    switches := Switches(
      seq(|Bools(sa)|, k requires 0 <= k < |Bools(sa)| => Emit(Bools(sa)[k], layout).value), firstBase,
      seq(|Mods(sa)|, k requires 0 <= k < |Mods(sa)| => Emit(Mods(sa)[k].expr, layout).value));
  }

  function RuntimeWith(switches: Switches): Runtime {
    Runtime([Condition()], [[POINTED]], Bounds(0, 0), [switches], (k, env) => OneValue(env), (k, id, env) => Registers(0, 0))
  }

  lemma ConditionRuntime() returns (r: Runtime)
    ensures Generated(r) && r.sas == [Condition()] && r.bounds == Bounds(0, 0)
  {
    hide IsEmitted, WellFormed, LayoutOf, CallsBind, EndToEnd.ReadBack;
    ConditionIsWellFormed();
    var switches := Emitting(Condition(), 1);
    r := RuntimeWith(switches);
    OneIsRead(r);
    OneIsBound(r);
    assert FirstBase(r.sas, 0) == 1;
  }

  lemma OneIsRead(r: Runtime)
    requires r.sas == [Condition()] && r.components == [[POINTED]]
    ensures EndToEnd.ReadBack(r, 0)
  {
    hide WellFormed, DistinctReprs, CallableNames, ReadFrom;
    ConditionIsWellFormed();
    OneCallable();
  }

  lemma OneIsBound(r: Runtime)
    requires r.components == [[POINTED]] && forall k, env :: r.arrays(k, env) == OneValue(env)
    ensures forall env :: CallsBind(r, 0, env)
  {
    hide Binds;
    forall env ensures CallsBind(r, 0, env) { OneBinds(env); }
  }

  // ----- Its repair -----

  /** `p->x == p->x`, in the hole of `1 || ...`. */
  function Crashing(): Expression { ApplyBoolOperator(EQ, ToExpression(POINTED), ToExpression(POINTED)) }

  lemma CrashingIsBool2()
    ensures IsBool2(Crashing(), Condition().components)
  {
    OneOfEach();
    var b := Crashing();
    assert b.args[0] == b.args[1] == ToExpression(POINTED);
  }

  /** `1 || ...`. */
  function Loosening(): Modification {
    Modification(ApplyBoolOperator(OR, TRUE_NODE, BOOL2_NODE), PatchMetadata(LOOSENING, ExpressionDepth(BOOL2_NODE)))
  }

  lemma FindLoosening() returns (j: nat)
    ensures j < |Mods(Condition())| && Mods(Condition())[j] == Loosening()
    ensures IsBase(Condition(), Loosening().expr) && HasNodeOfKind(Loosening().expr, BOOL2)
  {
    ConditionIsWellFormed();
    hide Mods, WellFormed, IsBase;
    var x := Loosening();
    assert IsModification(Condition(), x) by { assert Extends(TRUE_NODE, x); }
    ModificationsAreExact(Condition(), x);
    j :| 0 <= j < |Mods(Condition())| && Mods(Condition())[j] == x;
    BasesAreWellFormed(Condition());
    assert x.expr.args[1] == BOOL2_NODE && HasNodeOfKind(x.expr.args[1], BOOL2);
  }

  lemma FindCrashing() returns (i: nat)
    ensures i < |Bools(Condition())| && Bools(Condition())[i] == Crashing()
  {
    ConditionIsWellFormed();
    CrashingIsBool2();
    hide Bools, WellFormed, IsBool2;
    BoolsAreExact(Condition(), Crashing());
    i :| 0 <= i < |Bools(Condition())| && Bools(Condition())[i] == Crashing();
  }

  lemma HoleDecodes(sa: SchemaApplication, m: Expression, base: nat, i: nat)
    requires HasNodeOfKind(m, BOOL2) && i < |Bools(sa)|
    ensures DecodeBase(sa, m, PatchID(base, 0, i + 1, 0, 0), 0).Some?
  {
    hide Bools, HasNodeOfKind;
  }

  /** The patch `1 || p->x == p->x`. */
  lemma Loosened() returns (p: Patch)
    ensures p in Space([Condition()], Bounds(0, 0)) && p.app == Condition()
    ensures CrashesEagerly(p, NullPointer()) && Eval(p.modified, NullPointer()) == Some(1)
  {
    ConditionIsWellFormed();
    CrashingCrashes(Filling(None, 0));
    hide Mods, Bools, WellFormed, Condition, Space, DecodeBase, IsBase, HasNodeOfKind, EvalWith, Loosening, Crashing;
    var sa, m := Condition(), Loosening().expr;
    var j := FindLoosening();
    var i := FindCrashing();
    var id := PatchID(1 + j, 0, i + 1, 0, 0);
    HoleDecodes(sa, m, 1 + j, i);
    p := Patch(id, sa, DecodeBase(sa, m, id, 0).value, Loosening().meta);
    LoosenedIsOffered(sa, p, j);
    ModifiedMeansFilled(sa, m, id, 0, NullPointer());
    LooseningHolds(Filling(None, 0));
  }

  lemma LoosenedIsOffered(sa: SchemaApplication, p: Patch, j: nat)
    requires j < |Mods(sa)| && p.id.base == 1 + j && p.app == sa && p.meta == Mods(sa)[j].meta
    requires DecodeBase(sa, Mods(sa)[j].expr, p.id, 0) == Some(p.modified)
    ensures p in Space([sa], Bounds(0, 0))
  {
    hide Mods, DecodeBase;
    var sas, bounds := [sa], Bounds(0, 0);
    assert FirstBase(sas, 0) == 1 && SpaceUpTo(sas, bounds, 0) == [];
    assert Decode(sa, 1, bounds, p.id) == Some(p);
    PatchesDecode(sa, 1, bounds, p);
  }

  lemma CrashingCrashes(h: Filling)
    ensures EvalWith(Crashing(), NullPointer(), h) == None
  {
    var b := Crashing();
    assert b.args[0] == ToExpression(POINTED) && EvalWith(b.args[0], NullPointer(), h) == None;
  }

  lemma LooseningHolds(h: Filling)
    ensures EvalWith(Loosening().expr, NullPointer(), h) == Some(1)
  {
    var m := Loosening().expr;
    ConstantsMeanThemselves(NullPointer());
    assert m.args[0] == TRUE_NODE && EvalWith(m.args[0], NullPointer(), h) == Some(1);
  }

  const TESTS: seq<string> := ["condition holds"]

  function OneTest(): SearchEngine.Profile { map[PLACE := [0]] }

  function OneProgram(): (AppID, string) -> TestEquivalence.Program<Env> { (a, test) => IfHolds() }

  lemma OneTestIsValid()
    ensures SearchEngine.ValidIndexes(OneTest(), |TESTS|) && AbortsFail(TESTS, OneProgram())
    ensures SearchEngine.TestsAt(OneTest(), PLACE) == [0]
  {
  }

  /** There are a runtime, a program whose aborted runs fail, and a patch that repairs the program yet is
      not plausible under the generated runtime. */
  lemma RepairIsMissed() returns (r: Runtime, p: Patch)
    ensures Generated(r) && p in Space(r.sas, r.bounds)
    ensures SearchEngine.ValidIndexes(OneTest(), |TESTS|) && AbortsFail(TESTS, OneProgram())
    ensures Repair.IsPlausible(PatchedProblem(r, TESTS, OneProgram(), OneTest()), p)
    ensures !Repair.IsPlausible(StagedProblem(r, TESTS, OneProgram(), OneTest()), p)
  {
    OneTestIsValid();
    r := ConditionRuntime();
    p := Loosened();
    assert p.app.location == PLACE && |r.sas| <= |r.switches|;
    SpaceDecodes(r.sas, r.bounds, p);
    PatchedPasses(r, p);
    hide Generated, Space, DecodeId, Eval, CrashesEagerly, StagedOutcome, PatchedOutcome, AbortsFail, Condition,
         TestEquivalence.RunOf, TestEquivalence.RunFrom, TestEquivalence.CallsFrom, IfHolds, CrashesOnNone;
    assert 0 in SearchEngine.TestsAt(OneTest(), p.app.location);
    assert !NeverCrashesEagerly(r, TESTS, OneProgram(), OneTest(), p);
    PlausibleIff(r, TESTS, OneProgram(), OneTest(), p);
  }

  lemma PatchedPasses(r: Runtime, p: Patch)
    requires DecodeId(r.sas, r.bounds, p.id) == Some(p)
    requires Eval(p.modified, NullPointer()) == Some(1) && CrashesEagerly(p, NullPointer())
    ensures TestEquivalence.RunOf(IfHolds(), PatchedSemantics(r), p.id).status == PASS
    ensures !CrashesOnNone(p, TestEquivalence.CallsFrom(IfHolds(), PatchedSemantics(r), p.id, []))
  {
    hide DecodeId, Eval, CrashesEagerly;
    var prog, sem := IfHolds(), PatchedSemantics(r);
    assert prog.next([]) == TestEquivalence.Call(NullPointer());
    assert sem(p.id, NullPointer()) == Partition.Outcome(false, 1);
    assert [] + [1] == [1] && prog.next([1]) == TestEquivalence.Exit(PASS);
    assert TestEquivalence.RunFrom(prog, sem, p.id, [1]).status == PASS;
    assert TestEquivalence.CallsFrom(prog, sem, p.id, [1]) == [];
    var calls := TestEquivalence.CallsFrom(prog, sem, p.id, []);
    assert calls == [NullPointer()];
    assert calls[0] == NullPointer();
  }
}
