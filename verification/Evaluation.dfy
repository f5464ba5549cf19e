/** Staged evaluation of a candidate by the emitted switches, against the patched program it
    stands for (repair/Synthesis.cpp:705-788, 841-847). */
module Evaluation {
  import opened Core
  import opened Expressions
  import opened Typing
  import opened Synthesis
  import opened Edits
  import opened Semantics
  import opened Staging
  import opened Dispatch
  import opened SearchSpace
  import opened Partition

  // ----- Filling a hole and evaluating -----

  lemma {:induction false} FillKeepsCompilable(
    e: Expression, kind: NodeKind, s: Expression, components: seq<Expression>, pointees: seq<string>)
    requires Compilable(e, components, pointees) && Compilable(s, components, pointees) && IsAbstractNode(kind)
    ensures Compilable(Fill(e, kind, s), components, pointees)
  {
    if e.kind != kind && SubstituteInArgs(e.args, kind, s).Some? {
      var k := FilledArgument(e.args, kind, s);
      FillKeepsCompilable(e.args[k], kind, s, components, pointees);
      ReplacedArgumentCompiles(e, k, Fill(e.args[k], kind, s), components, pointees);
    }
  }

  lemma ReplacedArgumentCompiles(e: Expression, k: nat, x: Expression, components: seq<Expression>, pointees: seq<string>)
    requires k < |e.args| && Compilable(e, components, pointees) && Compilable(x, components, pointees)
    requires Holes(e.args[k]) >= 1
    ensures Compilable(e.(args := e.args[k := x]), components, pointees)
  {
  }

  /** Without holes the fillings do not matter. */
  lemma {:induction false} NoHoles(e: Expression, env: Env, h: Filling, h': Filling)
    requires Holes(e) == 0
    ensures EvalWith(e, env, h) == EvalWith(e, env, h')
  {
    if 1 <= |e.args| <= 2 {
      CountAfterUpdate(e.args, 0, e.args[0], ABSTRACT_KINDS);
      NoHoles(e.args[0], env, h, h');
      if |e.args| == 2 {
        CountAfterUpdate(e.args, 1, e.args[1], ABSTRACT_KINDS);
        NoHoles(e.args[1], env, h, h');
      }
    }
  }

  /** `h'` fills the hole of this kind with the value `s` has under `h`. */
  ghost predicate Plugs(kind: NodeKind, s: Expression, env: Env, h: Filling, h': Filling) {
    || (kind == BOOL2 && h' == Filling(EvalWith(s, env, h), h.param))
    || (kind == PARAMETER && EvalWith(s, env, h) == Some(h'.param) && h'.bool2 == h.bool2)
  }

  lemma SameOperands(e: Expression, e': Expression, env: Env, h: Filling, h': Filling)
    requires 1 <= |e.args| == |e'.args| <= 2 && e.op == e'.op
    requires forall k :: 0 <= k < |e.args| ==> EvalWith(e'.args[k], env, h) == EvalWith(e.args[k], env, h')
    requires IsPointerArithmetic(e.op) ==> e'.args[0].rawType == e.args[0].rawType
    ensures EvalWith(e', env, h) == EvalWith(e, env, h')
  {
    hide EvalUnary, ApplyBinary, PointerOffset;
    assert EvalWith(e'.args[0], env, h) == EvalWith(e.args[0], env, h');
    if |e.args| == 2 { assert EvalWith(e'.args[1], env, h) == EvalWith(e.args[1], env, h'); }
  }

  /** Substituting for the only hole, then evaluating, is evaluating with the hole filled. */
  lemma {:induction false} FillIsFilling(
    e: Expression, kind: NodeKind, s: Expression, env: Env, h: Filling, h': Filling,
    components: seq<Expression>, pointees: seq<string>)
    requires Compilable(e, components, pointees) && Holes(e) <= 1
    requires SubstituteFirst(e, kind, s).Some? && Plugs(kind, s, env, h, h')
    ensures EvalWith(Fill(e, kind, s), env, h) == EvalWith(e, env, h')
  {
    if e.kind != kind {
      var k := FilledArgument(e.args, kind, s);
      CountAfterUpdate(e.args, k, e.args[k], ABSTRACT_KINDS);
      FillIsFilling(e.args[k], kind, s, env, h, h', components, pointees);
      var filled := Fill(e, kind, s);
      forall i | 0 <= i < |e.args| ensures EvalWith(filled.args[i], env, h) == EvalWith(e.args[i], env, h') {
        if i != k { NoHoles(e.args[i], env, h, h'); }
      }
      SameOperands(e, filled, env, h, h');
    }
  }

  /** The concrete number in place of the parameter. */
  lemma ParameterIsFilling(
    e: Expression, param: nat, paramBound: nat, env: Env, h: Filling, components: seq<Expression>, pointees: seq<string>)
    requires Compilable(e, components, pointees) && Holes(e) <= 1 && Count(e, {BOOL2}) == 0
    requires DecodeParameter(e, param, paramBound).Some?
    ensures EvalWith(DecodeParameter(e, param, paramBound).value, env, h) == EvalWith(e, env, Filling(h.bool2, param))
  {
    if HasNodeOfKind(e, PARAMETER) {
      var c := MakeIntegerConst(param);
      SubstituteFinds(e, PARAMETER, c);
      NumberValue(param, env, h);
      FillIsFilling(e, PARAMETER, c, env, h, Filling(h.bool2, param), components, pointees);
    } else {
      HasNodeIsCounted(e, PARAMETER);
      CompilableHoles(e, components, pointees);
      NoHoles(e, env, h, Filling(h.bool2, param));
    }
  }

  lemma NumberValue(n: nat, env: Env, h: Filling)
    ensures EvalWith(MakeIntegerConst(n), env, h) == Some(n)
  {
    DecimalRoundTrip(n);
  }

  // ----- The concrete side -----

  /** The expression for the Boolean hole that an identifier chooses, if it chooses one. */
  function ChosenBool2(sa: SchemaApplication, id: PatchID): Option<Expression> {
    if 0 < id.bool2 <= |Bools(sa)| then Some(Bools(sa)[id.bool2 - 1]) else None
  }

  /** What the chosen expression evaluates to, its parameter being the one of the identifier. */
  function Bool2Value(sa: SchemaApplication, id: PatchID, env: Env): Option<int> {
    match ChosenBool2(sa, id)
    case None => None
    case Some(b) => EvalWith(b, env, Filling(None, id.param))
  }

  /** A concrete patch means what its base modification means with the holes filled. */
  lemma ModifiedMeansFilled(sa: SchemaApplication, m: Expression, id: PatchID, paramBound: nat, env: Env)
    requires WellFormed(sa) && IsBase(sa, m) && DecodeBase(sa, m, id, paramBound).Some?
    ensures Eval(DecodeBase(sa, m, id, paramBound).value, env) ==
            EvalWith(m, env, Filling(Bool2Value(sa, id, env), id.param))
    ensures ChosenBool2(sa, id).Some? <==> id.bool2 != 0
  {
    hide Compilable, Count, HasNodeOfKind, Fill, EvalWith, IsBool2, DecodeParameter, Bools;
    var h := Filling(None, id.param);
    if HasNodeOfKind(m, BOOL2) {
      var b := Bools(sa)[id.bool2 - 1];
      var filled := Fill(m, BOOL2, b);
      FilledBool2(sa, m, id.bool2);
      BoolIsWellFormed(sa, id.bool2 - 1);
      FillKeepsCompilable(m, BOOL2, b, sa.components, sa.completePointeeTypes);
      HasNodeIsCounted(filled, BOOL2);
      ParameterIsFilling(filled, id.param, paramBound, env, Filling(None, 0), sa.components, sa.completePointeeTypes);
      FillIsFilling(m, BOOL2, b, env, h, Filling(EvalWith(b, env, h), id.param), sa.components, sa.completePointeeTypes);
    } else {
      HasNodeIsCounted(m, BOOL2);
      ParameterIsFilling(m, id.param, paramBound, env, Filling(None, 0), sa.components, sa.completePointeeTypes);
    }
  }

  // ----- The emitted switches -----

  /** `bool2_value` and `base_value` keep what an earlier candidate left there. */
  datatype Registers = Registers(bool2: int, base: int)

  /** The arrays the partition function was called with. */
  datatype Arrays = Arrays(slots: string -> int, prims: Primitives)

  function MachineOf(arrays: Arrays, bool2: int, param: int): Machine {
    Machine(arrays.slots, bool2, param, arrays.prims)
  }

  /** `bool2_value` has type `bool`. */
  function RunBool2(switches: Switches, id: PatchID, arrays: Arrays, left: Registers): Executed {
    if 0 < id.bool2 <= |switches.bool2Cases| then
      var r := Exec(switches.bool2Cases[id.bool2 - 1], MachineOf(arrays, left.bool2, id.param));
      Executed(r.panic, Truth(r.value != 0))
    else Executed(false, left.bool2)
  }

  function RunBase(switches: Switches, id: PatchID, arrays: Arrays, bool2: int, left: Registers): Executed {
    if switches.firstBase <= id.base < switches.firstBase + |switches.baseCases| then
      Exec(switches.baseCases[id.base - switches.firstBase], MachineOf(arrays, bool2, id.param))
    else Executed(false, left.base)
  }

  /** One evaluation: first the Boolean hole, whether or not it will be needed, then the base. */
  function Evaluate(switches: Switches, id: PatchID, arrays: Arrays, left: Registers): (Outcome, Registers) {
    var b := RunBool2(switches, id, arrays, left);
    var v := RunBase(switches, id, arrays, b.value, left);
    (Outcome(b.panic || v.panic, v.value), Registers(b.value, v.value))
  }

  ghost predicate Holds(arrays: Arrays, env: Env, layout: Layout, sa: SchemaApplication) {
    Represents(MachineOf(arrays, 0, 0), env, layout, sa.components, sa.completePointeeTypes)
  }

  lemma EmittedMatches(
    e: Expression, code: Code, env: Env, arrays: Arrays, bool2: int, param: int, layout: Layout, sa: SchemaApplication)
    requires Compilable(e, sa.components, sa.completePointeeTypes) && Emit(e, layout) == Some(code)
    requires Holds(arrays, env, layout, sa)
    ensures Matches(Exec(code, MachineOf(arrays, bool2, param)), EvalWith(e, env, Filling(Some(bool2), param)))
  {
    var m := MachineOf(arrays, bool2, param);
    assert Represents(m, env, layout, sa.components, sa.completePointeeTypes) by {
      forall k | 0 <= k < |sa.components| ensures SlotHolds(m, env, layout, sa.components[k]) {
        assert SlotHolds(MachineOf(arrays, 0, 0), env, layout, sa.components[k]);
      }
      forall t | t in sa.completePointeeTypes ensures SizeHolds(m, env, layout.sizeByType, t) {
        assert SizeHolds(MachineOf(arrays, 0, 0), env, layout.sizeByType, t);
      }
    }
    EmittedCodeIsFaithful(e, env, m, layout, sa.components, sa.completePointeeTypes);
  }

  /** A comparison yields 0 or 1, so storing it in a `bool` loses nothing. */
  lemma ComparisonIsTruth(b: Expression, components: seq<Expression>, env: Env, h: Filling)
    requires AreComponents(components) && IsBool2(b, components)
    ensures EvalWith(b, env, h).Some? ==> EvalWith(b, env, h).value in {0, 1}
  {
  }

  /** The first switch computes the chosen expression, or leaves the register alone. */
  lemma Bool2SwitchIsFaithful(
    sa: SchemaApplication, switches: Switches, layout: Layout, id: PatchID, env: Env, arrays: Arrays, left: Registers)
    requires WellFormed(sa) && IsEmitted(switches, sa, switches.firstBase, layout) && Holds(arrays, env, layout, sa)
    ensures var r := RunBool2(switches, id, arrays, left);
            if ChosenBool2(sa, id).Some? then Matches(r, Bool2Value(sa, id, env)) else r == Executed(false, left.bool2)
  {
    if ChosenBool2(sa, id).Some? {
      var i := id.bool2 - 1;
      var b := Bools(sa)[i];
      BoolIsWellFormed(sa, i);
      EmittedMatches(b, switches.bool2Cases[i], env, arrays, left.bool2, id.param, layout, sa);
      NoBool2(b, id.param, env, Some(left.bool2), None, sa);
      ComparisonIsTruth(b, sa.components, env, Filling(None, id.param));
    }
  }

  lemma NoBool2(b: Expression, param: int, env: Env, x: Option<int>, y: Option<int>, sa: SchemaApplication)
    requires AreComponents(sa.components) && IsBool2(b, sa.components)
    ensures EvalWith(b, env, Filling(x, param)) == EvalWith(b, env, Filling(y, param))
  {
    Bool2IsWellFormed(b, sa.components, sa.completePointeeTypes);
    SameOperands(b, b, env, Filling(x, param), Filling(y, param));
  }

  /** Staged evaluation, against the concrete patch: the candidate panics exactly when the patch
      would crash or the expression chosen for its Boolean hole, which is evaluated eagerly,
      does; otherwise it yields the value of the patch. What earlier candidates left in the
      registers does not matter. */
  lemma StagedIsConcrete(
    sa: SchemaApplication, firstBase: nat, bounds: Bounds, switches: Switches, layout: Layout, p: Patch,
    env: Env, arrays: Arrays, left: Registers)
    requires WellFormed(sa) && IsEmitted(switches, sa, firstBase, layout) && Holds(arrays, env, layout, sa)
    requires Decode(sa, firstBase, bounds, p.id) == Some(p)
    ensures var o := Evaluate(switches, p.id, arrays, left).0;
            && (o.panic <==> Eval(p.modified, env).None? || (p.id.bool2 != 0 && Bool2Value(sa, p.id, env).None?))
            && (!o.panic ==> Eval(p.modified, env) == Some(o.value))
  {
    hide Mods, Bools, DecodeBase, Exec, EvalWith, Emit, RunBool2;
    var j := p.id.base - firstBase;
    var m := Mods(sa)[j].expr;
    BasesAreWellFormed(sa);
    ModifiedMeansFilled(sa, m, p.id, ParamBound(sa, bounds), env);
    Bool2SwitchIsFaithful(sa, switches, layout, p.id, env, arrays, left);
    var b := RunBool2(switches, p.id, arrays, left);
    EmittedMatches(m, switches.baseCases[j], env, arrays, b.value, p.id.param, layout, sa);
    if p.id.bool2 == 0 {
      UnusedRegister(sa, m, p.id, ParamBound(sa, bounds), env, b.value);
    }
  }

  lemma UnusedRegister(sa: SchemaApplication, m: Expression, id: PatchID, paramBound: nat, env: Env, bool2: int)
    requires WellFormed(sa) && IsBase(sa, m) && DecodeBase(sa, m, id, paramBound).Some? && id.bool2 == 0
    ensures EvalWith(m, env, Filling(Some(bool2), id.param)) == EvalWith(m, env, Filling(None, id.param))
  {
    HasNodeIsCounted(m, BOOL2);
    ParameterIsFilling(m, id.param, paramBound, env, Filling(Some(bool2), 0), sa.components, sa.completePointeeTypes);
    ParameterIsFilling(m, id.param, paramBound, env, Filling(None, 0), sa.components, sa.completePointeeTypes);
    DecodedHasNoHoles(m, id.param, paramBound, sa);
    NoHoles(DecodeParameter(m, id.param, paramBound).value, env, Filling(Some(bool2), 0), Filling(None, 0));
  }

  /** No hole is left once the parameter is filled. */
  lemma DecodedHasNoHoles(e: Expression, param: nat, paramBound: nat, sa: SchemaApplication)
    requires Compilable(e, sa.components, sa.completePointeeTypes) && Holes(e) <= 1 && Count(e, {BOOL2}) == 0
    requires DecodeParameter(e, param, paramBound).Some?
    ensures Holes(DecodeParameter(e, param, paramBound).value) == 0
  {
    CompilableHoles(e, sa.components, sa.completePointeeTypes);
    HasNodeIsCounted(e, PARAMETER);
    if HasNodeOfKind(e, PARAMETER) {
      var c := MakeIntegerConst(param);
      SubstituteFinds(e, PARAMETER, c);
      CompilableHasAbstractLeaves(e, sa.components, sa.completePointeeTypes);
      FillCounts(e, PARAMETER, c, ABSTRACT_KINDS);
    }
  }

  // ----- Every patch is concrete and typed -----

  lemma {:induction false} FillKeepsTyped(
    e: Expression, kind: NodeKind, s: Expression, components: seq<Expression>, pointees: seq<string>)
    requires Compilable(e, components, pointees) && Typed(e) && Typed(s)
    requires (kind == BOOL2 && s.ty == BOOLEAN) || (kind == PARAMETER && s.ty == INTEGER)
    ensures Typed(Fill(e, kind, s)) && Fill(e, kind, s).ty == e.ty
  {
    if e.kind != kind && SubstituteInArgs(e.args, kind, s).Some? {
      var k := FilledArgument(e.args, kind, s);
      FillKeepsTyped(e.args[k], kind, s, components, pointees);
      ReplacedArgumentTyped(e, k, Fill(e.args[k], kind, s));
    }
  }

  lemma ReplacedArgumentTyped(e: Expression, k: nat, x: Expression)
    requires k < |e.args| && Typed(e) && Typed(x) && x.ty == e.args[k].ty
    requires !(IsPointerArithmetic(e.op) && k == 0)
    ensures Typed(e.(args := e.args[k := x]))
  {
  }

  lemma ParameterFilled(e: Expression, param: nat, paramBound: nat, sa: SchemaApplication)
    requires Compilable(e, sa.components, sa.completePointeeTypes) && Holes(e) <= 1 && Count(e, {BOOL2}) == 0
    requires DecodeParameter(e, param, paramBound).Some?
    ensures var r := DecodeParameter(e, param, paramBound).value;
            && Holes(r) == 0 && Compilable(r, sa.components, sa.completePointeeTypes)
            && (Typed(e) ==> Typed(r) && r.ty == e.ty)
  {
    DecodedHasNoHoles(e, param, paramBound, sa);
    if HasNodeOfKind(e, PARAMETER) {
      FillKeepsCompilable(e, PARAMETER, MakeIntegerConst(param), sa.components, sa.completePointeeTypes);
      if Typed(e) {
        FillKeepsTyped(e, PARAMETER, MakeIntegerConst(param), sa.components, sa.completePointeeTypes);
      }
    }
  }

  /** No abstract node is left in a patch; one of the expression schema is typed like the original. */
  lemma PatchIsConcrete(sa: SchemaApplication, firstBase: nat, bounds: Bounds, p: Patch)
    requires WellFormed(sa) && Decode(sa, firstBase, bounds, p.id) == Some(p)
    ensures Holes(p.modified) == 0
    ensures Compilable(p.modified, sa.components, sa.completePointeeTypes)
    ensures sa.schema == EXPRESSION ==> Typed(p.modified) && p.modified.ty == sa.original.ty
  {
    BasesAreWellFormed(sa);
    ConcreteBase(sa, Mods(sa)[p.id.base - firstBase].expr, p.id, ParamBound(sa, bounds));
  }

  lemma ConcreteBase(sa: SchemaApplication, m: Expression, id: PatchID, paramBound: nat)
    requires WellFormed(sa) && IsBase(sa, m) && DecodeBase(sa, m, id, paramBound).Some?
    ensures var r := DecodeBase(sa, m, id, paramBound).value;
            && Holes(r) == 0 && Compilable(r, sa.components, sa.completePointeeTypes)
            && (sa.schema == EXPRESSION ==> Typed(r) && r.ty == sa.original.ty)
  {
    hide Compilable, Count, Typed, HasNodeOfKind, Fill, IsBool2, DecodeParameter, Bools;
    HasNodeIsCounted(m, BOOL2);
    if HasNodeOfKind(m, BOOL2) {
      var b := Bools(sa)[id.bool2 - 1];
      FilledBool2(sa, m, id.bool2);
      BoolIsWellFormed(sa, id.bool2 - 1);
      Bool2IsWellFormed(b, sa.components, sa.completePointeeTypes);
      FillKeepsCompilable(m, BOOL2, b, sa.components, sa.completePointeeTypes);
      if Typed(m) { FillKeepsTyped(m, BOOL2, b, sa.components, sa.completePointeeTypes); }
      HasNodeIsCounted(Fill(m, BOOL2, b), BOOL2);
      ParameterFilled(Fill(m, BOOL2, b), id.param, paramBound, sa);
    } else {
      ParameterFilled(m, id.param, paramBound, sa);
    }
  }
}
