/** The generated search space as a whole (repair/Synthesis.cpp:709-788, 806-849): which patches it
    holds, how they are numbered, and what the emitted switches compute for each of them. */
module SearchSpace {
  import opened Core
  import opened Expressions
  import opened Typing
  import opened Synthesis
  import opened Edits
  import opened Staging
  import opened Dispatch

  datatype Bounds = Bounds(maxConditionParameter: nat, maxExpressionParameter: nat)

  function ParamBound(sa: SchemaApplication, bounds: Bounds): nat {
    if sa.context == CONDITION then bounds.maxConditionParameter else bounds.maxExpressionParameter
  }

  /** The switches emitted for one application: `bool2` cases are numbered from 1, base cases from
      `firstBase`. */
  datatype Switches = Switches(bool2Cases: seq<Code>, firstBase: nat, baseCases: seq<Code>)

  // ----- The applications the generator is run on -----

  /** The expression has been type corrected, has no holes, and names only components. */
  predicate WellFormed(sa: SchemaApplication) {
    && AreComponents(sa.components)
    && (sa.schema == EXPRESSION ==>
          && Typed(sa.original) && Holes(sa.original) == 0
          && Compilable(sa.original, sa.components, sa.completePointeeTypes))
  }

  /** A base modification is compilable and has at most one hole; those of the expression schema
      keep the type of the original. */
  ghost predicate IsBase(sa: SchemaApplication, m: Expression) {
    && Compilable(m, sa.components, sa.completePointeeTypes)
    && Holes(m) <= 1
    && (sa.schema == EXPRESSION ==> Typed(m) && m.ty == sa.original.ty)
  }

  lemma BasesAreWellFormed(sa: SchemaApplication)
    requires WellFormed(sa)
    ensures Bool2Expressions(sa.components).Some?
    ensures BaseModifications(sa.schema, sa.original, sa.components).Some?
    ensures forall j :: 0 <= j < |Mods(sa)| ==> IsBase(sa, Mods(sa)[j].expr)
  {
    Bool2IsExact(sa.components, TRUE_NODE);
    if sa.schema == EXPRESSION { ExpressionBases(sa); } else { OtherBases(sa); }
    hide IsBase, WellFormed, Bool2Expressions, BaseModifications;
  }

  lemma OtherBases(sa: SchemaApplication)
    requires sa.schema != EXPRESSION
    ensures BaseModifications(sa.schema, sa.original, sa.components).Some?
    ensures forall j :: 0 <= j < |Mods(sa)| ==> IsBase(sa, Mods(sa)[j].expr)
  {
    hide BaseSubstitutions, Typed;
  }

  lemma ExpressionBases(sa: SchemaApplication)
    requires WellFormed(sa) && sa.schema == EXPRESSION
    ensures BaseModifications(sa.schema, sa.original, sa.components).Some?
    ensures forall j :: 0 <= j < |Mods(sa)| ==> IsBase(sa, Mods(sa)[j].expr)
  {
    hide IsBase, Typed, Compilable, BaseSubstitutions, Holes, ApplyBoolOperator;
    SubstitutionsAreBases(sa);
    if sa.original.ty == BOOLEAN {
      ExtendedIsBase(sa, OR);
      ExtendedIsBase(sa, AND);
    }
  }

  lemma SubstitutionsAreBases(sa: SchemaApplication)
    requires WellFormed(sa) && sa.schema == EXPRESSION
    ensures BaseSubstitutions(sa.original, sa.components).Some?
    ensures var mods := BaseSubstitutions(sa.original, sa.components).value;
            forall j :: 0 <= j < |mods| ==> IsBase(sa, mods[j].expr)
  {
    EnumerationIsExact(sa.original, sa.components, Modification(TRUE_NODE, PatchMetadata(SUBSTITUTION, 0)));
    var mods := BaseSubstitutions(sa.original, sa.components).value;
    forall j | 0 <= j < |mods| ensures IsBase(sa, mods[j].expr) {
      EnumerationIsExact(sa.original, sa.components, mods[j]);
      EditIsTyped(sa.original, mods[j], sa.components);
      EditHasOneHole(sa.original, mods[j], sa.components);
      EditIsCompilable(sa.original, mods[j], sa.components, sa.completePointeeTypes);
    }
  }

  /** The modifications of one application. */
  function Mods(sa: SchemaApplication): seq<Modification> {
    match BaseModifications(sa.schema, sa.original, sa.components)
    case Some(mods) => mods
    case None => []
  }

  function Bools(sa: SchemaApplication): seq<Expression> {
    match Bool2Expressions(sa.components)
    case Some(bools) => bools
    case None => []
  }

  lemma ExtendedIsBase(sa: SchemaApplication, op: Operator)
    requires WellFormed(sa) && sa.schema == EXPRESSION && sa.original.ty == BOOLEAN && op in {OR, AND}
    ensures IsBase(sa, ApplyBoolOperator(op, sa.original, BOOL2_NODE))
  {
    var e := ApplyBoolOperator(op, sa.original, BOOL2_NODE);
    assert e.args[0] == sa.original && e.args[1] == BOOL2_NODE;
    assert e.args[1..] == [BOOL2_NODE] && [BOOL2_NODE][1..] == [];
    assert CountIn(e.args, ABSTRACT_KINDS) == Holes(sa.original) + (Holes(BOOL2_NODE) + CountIn([], ABSTRACT_KINDS));
    assert Compilable(BOOL2_NODE, sa.components, sa.completePointeeTypes) && Typed(BOOL2_NODE);
  }

  // ----- Patches and their numbers -----

  function ToPatches(candidates: seq<Candidate>, sa: SchemaApplication, meta: PatchMetadata): (r: seq<Patch>)
    ensures |r| == |candidates|
    ensures forall k :: 0 <= k < |r| ==> r[k] == Patch(candidates[k].id, sa, candidates[k].expr, meta)
  {
    seq(|candidates|, k requires 0 <= k < |candidates| => Patch(candidates[k].id, sa, candidates[k].expr, meta))
  }

  function Start(base: nat, m: Expression): Candidate {
    Candidate(PatchID(base, 0, 0, 0, 0), m)
  }

  /** The patches of the first `n` modifications; modification `j` has base `firstBase + j`. */
  function PatchesUpTo(sa: SchemaApplication, mods: seq<Modification>, firstBase: nat, paramBound: nat, n: nat): seq<Patch>
    requires n <= |mods|
  {
    if n == 0 then [] else
      PatchesUpTo(sa, mods, firstBase, paramBound, n - 1) + PatchesOfBase(sa, mods[n - 1], firstBase + (n - 1), paramBound)
  }

  function PatchesOfBase(sa: SchemaApplication, m: Modification, base: nat, paramBound: nat): seq<Patch> {
    ToPatches(Instances(Start(base, m.expr), Bools(sa), paramBound), sa, m.meta)
  }

  function PatchesOf(sa: SchemaApplication, firstBase: nat, bounds: Bounds): seq<Patch> {
    PatchesUpTo(sa, Mods(sa), firstBase, ParamBound(sa, bounds), |Mods(sa)|)
  }

  method CandidateDispatch(sa: SchemaApplication, baseId: nat, layout: Layout, bounds: Bounds)
    returns (nextBaseId: nat, patches: seq<Patch>, switches: Switches)
    requires WellFormed(sa)
    ensures nextBaseId == baseId + |Mods(sa)|
    ensures patches == PatchesOf(sa, baseId, bounds)
    ensures IsEmitted(switches, sa, baseId, layout)
  {
    BasesAreWellFormed(sa);
    BoolsAreCompilable(sa);
    var bool2Cases := EmitCases(sa, Bools(sa), layout);
    var baseCases := EmitCases(sa, seq(|Mods(sa)|, j requires 0 <= j < |Mods(sa)| => Mods(sa)[j].expr), layout);
    nextBaseId, patches := FillBases(sa, Mods(sa), baseId, ParamBound(sa, bounds));
    switches := Switches(bool2Cases, baseId, baseCases);
  }

  /** Emits one case per expression. */
  method EmitCases(sa: SchemaApplication, exprs: seq<Expression>, layout: Layout) returns (cases: seq<Code>)
    requires forall k :: 0 <= k < |exprs| ==> Compilable(exprs[k], sa.components, sa.completePointeeTypes)
    ensures |cases| == |exprs|
    ensures forall k :: 0 <= k < |exprs| ==> Emit(exprs[k], layout) == Some(cases[k])
  {
    cases := [];
    for i := 0 to |exprs|
      invariant |cases| == i
      invariant forall k :: 0 <= k < i ==> Emit(exprs[k], layout) == Some(cases[k])
    {
      var code := EmitCase(sa, exprs[i], layout);
      cases := cases + [code];
    }
  }

  method EmitCase(sa: SchemaApplication, e: Expression, layout: Layout) returns (code: Code)
    requires Compilable(e, sa.components, sa.completePointeeTypes)
    ensures Emit(e, layout) == Some(code)
  {
    EmissionSucceeds(e, layout, sa.components, sa.completePointeeTypes);
    code := Emit(e, layout).value;
  }

  method FillBases(sa: SchemaApplication, mods: seq<Modification>, firstBase: nat, paramBound: nat)
    returns (nextBaseId: nat, patches: seq<Patch>)
    requires WellFormed(sa) && forall j :: 0 <= j < |mods| ==> IsBase(sa, mods[j].expr)
    ensures nextBaseId == firstBase + |mods|
    ensures patches == PatchesUpTo(sa, mods, firstBase, paramBound, |mods|)
  {
    nextBaseId, patches := firstBase, [];
    for j := 0 to |mods|
      invariant nextBaseId == firstBase + j
      invariant patches == PatchesUpTo(sa, mods, firstBase, paramBound, j)
    {
      patches := FillBase(sa, mods, firstBase, j, paramBound, patches);
      nextBaseId := nextBaseId + 1;
    }
  }

  method FillBase(
    sa: SchemaApplication, mods: seq<Modification>, firstBase: nat, j: nat, paramBound: nat, before: seq<Patch>)
    returns (patches: seq<Patch>)
    requires WellFormed(sa) && j < |mods| && IsBase(sa, mods[j].expr)
    requires before == PatchesUpTo(sa, mods, firstBase, paramBound, j)
    ensures patches == PatchesUpTo(sa, mods, firstBase, paramBound, j + 1)
  {
    var start := Start(firstBase + j, mods[j].expr);
    BaseIsFillable(sa, mods[j].expr, start);
    var instances := FillHoles(start, Bools(sa), paramBound);
    patches := before + ToPatches(instances, sa, mods[j].meta);
  }

  lemma BoolsAreCompilable(sa: SchemaApplication)
    requires WellFormed(sa)
    ensures forall k :: 0 <= k < |Bools(sa)| ==> Compilable(Bools(sa)[k], sa.components, sa.completePointeeTypes)
  {
    forall k | 0 <= k < |Bools(sa)| ensures Compilable(Bools(sa)[k], sa.components, sa.completePointeeTypes) {
      BoolIsWellFormed(sa, k);
    }
  }

  lemma BoolIsWellFormed(sa: SchemaApplication, i: nat)
    requires WellFormed(sa) && i < |Bools(sa)|
    ensures IsBool2(Bools(sa)[i], sa.components)
    ensures Compilable(Bools(sa)[i], sa.components, sa.completePointeeTypes)
    ensures Holes(Bools(sa)[i]) <= 1 && !HasNodeOfKind(Bools(sa)[i], BOOL2)
  {
    var b := Bools(sa)[i];
    Bool2IsExact(sa.components, b);
    Bool2IsWellFormed(b, sa.components, sa.completePointeeTypes);
    hide IsBool2, Compilable, Holes, Typed, Bool2Expressions, WellFormed;
    NoBool2Inside(b);
  }

  lemma NoBool2Inside(b: Expression)
    requires |b.args| == 2 && b.kind == OPERATOR && b.args[0].kind != BOOL2 && b.args[0].args == []
    requires b.args[1].kind != BOOL2 && b.args[1].args == []
    ensures !HasNodeOfKind(b, BOOL2)
  {
  }

  lemma {:induction false} EmissionSucceeds(e: Expression, layout: Layout, components: seq<Expression>, pointees: seq<string>)
    requires Compilable(e, components, pointees)
    ensures Emit(e, layout).Some?
  {
    if e.args != [] {
      EmissionSucceeds(e.args[0], layout, components, pointees);
      var renamed := SubstituteWithRuntimeRepr(e, layout.renaming);
      assert renamed.args[0] == SubstituteWithRuntimeRepr(e.args[0], layout.renaming);
      if |e.args| == 2 {
        EmissionSucceeds(e.args[1], layout, components, pointees);
        assert renamed.args[1] == SubstituteWithRuntimeRepr(e.args[1], layout.renaming);
      }
    }
  }

  /** The code of every case is what the modification compiles to. */
  ghost predicate IsEmitted(switches: Switches, sa: SchemaApplication, firstBase: nat, layout: Layout) {
    && switches.firstBase == firstBase
    && |switches.bool2Cases| == |Bools(sa)| && |switches.baseCases| == |Mods(sa)|
    && (forall k :: 0 <= k < |Bools(sa)| ==> Emit(Bools(sa)[k], layout) == Some(switches.bool2Cases[k]))
    && (forall k :: 0 <= k < |Mods(sa)| ==> Emit(Mods(sa)[k].expr, layout) == Some(switches.baseCases[k]))
  }

  /** Filling the Boolean hole of a base modification leaves no Boolean hole. */
  lemma BaseIsFillable(sa: SchemaApplication, m: Expression, c: Candidate)
    requires WellFormed(sa) && IsBase(sa, m) && c.expr == m
    ensures Bool2Fillable(c, Bools(sa))
  {
    if HasNodeOfKind(m, BOOL2) {
      forall i | 0 < i <= |Bools(sa)| ensures !HasNodeOfKind(WithBool2(c, Bools(sa), i).expr, BOOL2) {
        FilledBool2(sa, m, i);
      }
    }
  }

  /** A base modification with its Boolean hole filled: no hole left but perhaps a parameter. */
  lemma FilledBool2(sa: SchemaApplication, m: Expression, i: nat)
    requires WellFormed(sa) && IsBase(sa, m) && HasNodeOfKind(m, BOOL2) && 0 < i <= |Bools(sa)|
    ensures var filled := Fill(m, BOOL2, Bools(sa)[i - 1]);
            && SubstituteFirst(m, BOOL2, Bools(sa)[i - 1]) == Some(filled)
            && !HasNodeOfKind(m, PARAMETER) && !HasNodeOfKind(filled, BOOL2)
            && AbstractLeaves(filled)
            && Holes(filled) == Holes(Bools(sa)[i - 1]) == Count(filled, {PARAMETER})
  {
    var b := Bools(sa)[i - 1];
    BoolIsWellFormed(sa, i - 1);
    CompilableHasAbstractLeaves(m, sa.components, sa.completePointeeTypes);
    CompilableHasAbstractLeaves(b, sa.components, sa.completePointeeTypes);
    FillKeepsAbstractLeaves(m, BOOL2, b);
    CompilableHoles(m, sa.components, sa.completePointeeTypes);
    CompilableHoles(b, sa.components, sa.completePointeeTypes);
    HasNodeIsCounted(b, BOOL2);
    FilledOnce(m, b);
  }

  /** Filling the only hole, a Boolean one, with an expression that has none of that kind. */
  lemma FilledOnce(m: Expression, b: Expression)
    requires AbstractLeaves(m) && HasNodeOfKind(m, BOOL2) && !HasNodeOfKind(b, BOOL2)
    requires Holes(m) == Count(m, {BOOL2}) + Count(m, {PARAMETER}) <= 1
    ensures SubstituteFirst(m, BOOL2, b) == Some(Fill(m, BOOL2, b))
    ensures !HasNodeOfKind(m, PARAMETER) && !HasNodeOfKind(Fill(m, BOOL2, b), BOOL2)
    ensures Holes(Fill(m, BOOL2, b)) == Holes(b) && Count(Fill(m, BOOL2, b), {PARAMETER}) == Count(b, {PARAMETER})
  {
    SubstituteFinds(m, BOOL2, b);
    HasNodeIsCounted(m, BOOL2);
    HasNodeIsCounted(m, PARAMETER);
    HasNodeIsCounted(b, BOOL2);
    FillCounts(m, BOOL2, b, {BOOL2});
    FillCounts(m, BOOL2, b, {PARAMETER});
    FillCounts(m, BOOL2, b, ABSTRACT_KINDS);
    HasNodeIsCounted(Fill(m, BOOL2, b), BOOL2);
  }

  // ----- Identifiers decode to patches -----

  /** Fills the parameter hole of `e`, if it has one, with the number in the identifier. */
  function DecodeParameter(e: Expression, param: nat, paramBound: nat): Option<Expression> {
    if HasNodeOfKind(e, PARAMETER) then
      if param <= paramBound then Some(Fill(e, PARAMETER, MakeIntegerConst(param))) else None
    else if param == 0 then Some(e) else None
  }

  function DecodeBase(sa: SchemaApplication, m: Expression, id: PatchID, paramBound: nat): Option<Expression> {
    if id.int2 != 0 || id.cond3 != 0 then None
    else if HasNodeOfKind(m, BOOL2) then
      if 0 < id.bool2 <= |Bools(sa)| then DecodeParameter(Fill(m, BOOL2, Bools(sa)[id.bool2 - 1]), id.param, paramBound)
      else None
    else if id.bool2 == 0 then DecodeParameter(m, id.param, paramBound)
    else None
  }

  /** The patch an identifier stands for, read off its parts. */
  function Decode(sa: SchemaApplication, firstBase: nat, bounds: Bounds, id: PatchID): Option<Patch> {
    if id.base < firstBase || id.base >= firstBase + |Mods(sa)| then None else
      var m := Mods(sa)[id.base - firstBase];
      match DecodeBase(sa, m.expr, id, ParamBound(sa, bounds))
      case None => None
      case Some(modified) => Some(Patch(id, sa, modified, m.meta))
  }

  predicate DistinctIds(ids: seq<PatchID>) {
    forall a, b :: 0 <= a < b < |ids| ==> ids[a] != ids[b]
  }

  function Ids(candidates: seq<Candidate>): seq<PatchID> {
    seq(|candidates|, k requires 0 <= k < |candidates| => candidates[k].id)
  }

  function PatchIds(patches: seq<Patch>): seq<PatchID> {
    seq(|patches|, k requires 0 <= k < |patches| => patches[k].id)
  }

  lemma ParameterDecodes(c: Candidate, paramBound: nat, x: Candidate)
    requires c.id.param == 0
    ensures x in WithParameter(c, paramBound) <==>
            x.id == c.id.(param := x.id.param) && DecodeParameter(c.expr, x.id.param, paramBound) == Some(x.expr)
    ensures DistinctIds(Ids(WithParameter(c, paramBound)))
  {
    if HasNodeOfKind(c.expr, PARAMETER) {
      var all := ParameterInstances(c, paramBound + 1);
      if x.id == c.id.(param := x.id.param) && DecodeParameter(c.expr, x.id.param, paramBound) == Some(x.expr) {
        assert all[x.id.param] == x;
      }
    }
  }

  lemma {:induction false} Bool2Decodes(c: Candidate, bools: seq<Expression>, n: nat, paramBound: nat, x: Candidate)
    requires c.id.param == 0 && n <= |bools|
    ensures x in Bool2Instances(c, bools, n, paramBound) <==> 0 < x.id.bool2 <= n && DecodesAs(c, bools, paramBound, x)
  {
    if n > 0 {
      Bool2Decodes(c, bools, n - 1, paramBound, x);
      ParameterDecodes(WithBool2(c, bools, n), paramBound, x);
      BranchDecodes(c, bools, n, paramBound, x);
    }
  }

  ghost predicate DecodesAs(c: Candidate, bools: seq<Expression>, paramBound: nat, x: Candidate)
    requires 0 < x.id.bool2 <= |bools|
  {
    && x.id == c.id.(bool2 := x.id.bool2, param := x.id.param)
    && DecodeParameter(Fill(c.expr, BOOL2, bools[x.id.bool2 - 1]), x.id.param, paramBound) == Some(x.expr)
  }

  lemma BranchDecodes(c: Candidate, bools: seq<Expression>, n: nat, paramBound: nat, x: Candidate)
    requires c.id.param == 0 && 0 < n <= |bools|
    ensures var w := WithBool2(c, bools, n);
            (x.id == w.id.(param := x.id.param) && DecodeParameter(w.expr, x.id.param, paramBound) == Some(x.expr)) <==>
            (x.id.bool2 == n && DecodesAs(c, bools, paramBound, x))
  {
  }

  lemma {:induction false} Bool2Distinct(c: Candidate, bools: seq<Expression>, n: nat, paramBound: nat)
    requires c.id.param == 0 && n <= |bools|
    ensures DistinctIds(Ids(Bool2Instances(c, bools, n, paramBound)))
  {
    if n > 0 {
      Bool2Distinct(c, bools, n - 1, paramBound);
      var first, rest := WithParameter(WithBool2(c, bools, n), paramBound), Bool2Instances(c, bools, n - 1, paramBound);
      ParameterDecodes(WithBool2(c, bools, n), paramBound, c);
      forall x, y | x in first && y in rest ensures x.id != y.id {
        ParameterDecodes(WithBool2(c, bools, n), paramBound, x);
        Bool2Decodes(c, bools, n - 1, paramBound, y);
      }
      DistinctAppend(first, rest);
    }
  }

  lemma DistinctAppend(first: seq<Candidate>, rest: seq<Candidate>)
    requires DistinctIds(Ids(first)) && DistinctIds(Ids(rest))
    requires forall x, y :: x in first && y in rest ==> x.id != y.id
    ensures DistinctIds(Ids(first + rest))
  {
    var all := Ids(first + rest);
    forall a, b | 0 <= a < b < |all| ensures all[a] != all[b] {
      if b < |first| {
        assert all[a] == Ids(first)[a] && all[b] == Ids(first)[b];
      } else if a >= |first| {
        assert all[a] == Ids(rest)[a - |first|] && all[b] == Ids(rest)[b - |first|];
      } else {
        assert first[a] in first && rest[b - |first|] in rest;
      }
    }
  }

  /** The instances of one base modification: exactly what its identifiers decode to, each once. */
  lemma InstancesDecode(sa: SchemaApplication, base: nat, m: Expression, paramBound: nat, x: Candidate)
    ensures x in Instances(Start(base, m), Bools(sa), paramBound) <==>
            x.id.base == base && DecodeBase(sa, m, x.id, paramBound) == Some(x.expr)
    ensures DistinctIds(Ids(Instances(Start(base, m), Bools(sa), paramBound)))
  {
    var c := Start(base, m);
    Bool2Decodes(c, Bools(sa), |Bools(sa)|, paramBound, x);
    Bool2Distinct(c, Bools(sa), |Bools(sa)|, paramBound);
    ParameterDecodes(c, paramBound, x);
  }
}
