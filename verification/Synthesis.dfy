/** Enumeration of the edits of an expression (repair/Synthesis.cpp:82-413).
    None stands for an exception that ends the tool. */
module Synthesis {
  import opened Core
  import opened Expressions
  import opened Typing

  const ATOMIC_EDIT: nat := 1

  datatype Modification = Modification(expr: Expression, meta: PatchMetadata)

  function MutateNumericOperator(op: Operator): Option<seq<Operator>> {
    match op
    case EQ => Some([NEQ, LT, LE, GT, GE])
    case NEQ => Some([EQ, LT, LE, GT, GE])
    case LT => Some([EQ, NEQ, LE, GT, GE])
    case LE => Some([EQ, NEQ, LT, GT, GE])
    case GT => Some([EQ, NEQ, LT, LE, GE])
    case GE => Some([EQ, NEQ, LT, LE, GT])
    case OR => Some([AND])
    case AND => Some([OR])
    case ADD => Some([SUB, MUL])
    case SUB => Some([ADD, MUL])
    case MUL => Some([ADD, SUB])
    case DIV => Some([ADD, SUB, MUL])
    case MOD => Some([ADD, SUB, MUL])
    case NEG => Some([])
    case NOT => Some([])
    case BV_AND => Some([BV_OR, BV_XOR])
    case BV_OR => Some([BV_AND, BV_XOR])
    case BV_XOR => Some([BV_AND, BV_OR])
    case BV_SHL => Some([BV_SHR])
    case BV_SHR => Some([BV_SHL])
    case BV_NOT => Some([])
    case IMPLICIT_BV_CAST | IMPLICIT_INT_CAST | EXPLICIT_BV_CAST | EXPLICIT_INT_CAST
       | EXPLICIT_UNSIGNED_CAST | EXPLICIT_PTR_CAST => Some([])
    case PTR_ADD | PTR_SUB | NONE => None
  }

  function MutatePointerOperator(op: Operator): Option<seq<Operator>> {
    match op
    case NONE => None
    case EQ => Some([NEQ])
    case NEQ => Some([EQ])
    case PTR_ADD => Some([PTR_SUB])
    case PTR_SUB => Some([PTR_ADD])
    case _ => Some([])
  }

  function OperatorWeight(op: Operator): nat {
    if IsCast(op) then 0 else 1
  }

  function ExpressionDepth(e: Expression): nat {
    match e.kind
    case VARIABLE | CONSTANT | PARAMETER | DEREFERENCE => 1
    case BOOL2 | INT2 | COND3 => 2
    case OPERATOR => MaxDepth(e.args) + OperatorWeight(e.op)
  }

  function MaxDepth(args: seq<Expression>): nat {
    if args == [] then 0 else
      var rest := MaxDepth(args[..|args| - 1]);
      var depth := ExpressionDepth(args[|args| - 1]);
      if rest < depth then depth else rest
  }

  // ----- What a depth is -----

  /** A path from the root to a leaf, by the places of the operands taken. */
  predicate IsPath(e: Expression, path: seq<nat>)
    decreases |path|
  {
    if e.kind != OPERATOR || e.args == [] then path == []
    else path != [] && path[0] < |e.args| && IsPath(e.args[path[0]], path[1..])
  }

  /** A leaf counts 1 and a hole for a whole expression 2; a cast counts nothing and any other operator 1. */
  function NodeWeight(e: Expression): nat {
    if e.kind in {BOOL2, INT2, COND3} then 2
    else if e.kind == OPERATOR && e.op in {IMPLICIT_BV_CAST, IMPLICIT_INT_CAST, EXPLICIT_BV_CAST, EXPLICIT_INT_CAST,
                                           EXPLICIT_UNSIGNED_CAST, EXPLICIT_PTR_CAST} then 0
    else 1
  }

  function PathWeight(e: Expression, path: seq<nat>): nat
    requires IsPath(e, path)
    decreases |path|
  {
    NodeWeight(e) + if path == [] then 0 else PathWeight(e.args[path[0]], path[1..])
  }

  /** No operand is deeper than the maximum, and some operand is as deep. */
  lemma {:induction false} MaxDepthIs(args: seq<Expression>)
    ensures forall k :: 0 <= k < |args| ==> ExpressionDepth(args[k]) <= MaxDepth(args)
    ensures args != [] ==> exists k :: 0 <= k < |args| && ExpressionDepth(args[k]) == MaxDepth(args)
    ensures args == [] ==> MaxDepth(args) == 0
  {
    if args != [] {
      var init := args[..|args| - 1];
      MaxDepthIs(init);
      forall k | 0 <= k < |args| ensures ExpressionDepth(args[k]) <= MaxDepth(args) {
        if k < |init| { assert args[k] == init[k]; }
      }
      if init != [] {
        var k :| 0 <= k < |init| && ExpressionDepth(init[k]) == MaxDepth(init);
        assert args[k] == init[k];
      }
      assert ExpressionDepth(args[|args| - 1]) <= MaxDepth(args);
    }
  }

  /** The depth of an expression is the weight of its heaviest path. */
  lemma {:induction false} DepthIsHeaviestPath(e: Expression) returns (heaviest: seq<nat>)
    ensures IsPath(e, heaviest) && PathWeight(e, heaviest) == ExpressionDepth(e)
    ensures forall path :: IsPath(e, path) ==> PathWeight(e, path) <= ExpressionDepth(e)
  {
    heaviest := [];
    if e.kind == OPERATOR {
      MaxDepthIs(e.args);
      if e.args != [] {
        var k :| 0 <= k < |e.args| && ExpressionDepth(e.args[k]) == MaxDepth(e.args);
        var rest := DepthIsHeaviestPath(e.args[k]);
        heaviest := [k] + rest;
        assert heaviest[1..] == rest;
      }
    }
    forall path | IsPath(e, path) ensures PathWeight(e, path) <= ExpressionDepth(e) {
      if path != [] { var other := DepthIsHeaviestPath(e.args[path[0]]); }
    }
  }

  /** Operators whose arguments have the type of the result. */
  predicate IsSimplifiable(e: Expression) {
    IsHomogeneous(e.op) || e.op == NEG
  }

  function SubstitutionDistance(from: Expression, to: Expression): nat {
    var sum := ExpressionDepth(from) + ExpressionDepth(to);
    if sum == 0 then 0 else sum - 1
  }

  // ----- Expressions for the Boolean hole -----

  function ComparisonsWith(left: Expression, right: Expression): seq<Expression> {
    [ApplyBoolOperator(EQ, left, right), ApplyBoolOperator(NEQ, left, right),
     ApplyBoolOperator(LT, left, right), ApplyBoolOperator(LE, left, right),
     ApplyBoolOperator(GT, left, right), ApplyBoolOperator(GE, left, right)]
  }

  function PointerComparisons(left: Expression, components: seq<Expression>): seq<Expression> {
    if components == [] then [] else
      var right := components[0];
      (if right.ty == PTR && left.rawType == right.rawType
       then [ApplyBoolOperator(EQ, left, right), ApplyBoolOperator(NEQ, left, right)] else [])
      + PointerComparisons(left, components[1..])
  }

  function IntegerComparisons(left: Expression, components: seq<Expression>): seq<Expression> {
    if components == [] then [] else
      var right := components[0];
      (if right.ty == INTEGER then ComparisonsWith(left, right) else [])
      + IntegerComparisons(left, components[1..])
  }

  function Bool2For(left: Expression, components: seq<Expression>): Option<seq<Expression>> {
    match left.ty
    case PTR => Some([MakeNULLCheck(left), MakeNonNULLCheck(left)] + PointerComparisons(left, components))
    case INTEGER => Some(ComparisonsWith(left, PARAMETER_NODE) + IntegerComparisons(left, components))
    case _ => None
  }

  function Bool2From(lefts: seq<Expression>, components: seq<Expression>): Option<seq<Expression>> {
    if lefts == [] then Some([]) else
      match (Bool2For(lefts[0], components), Bool2From(lefts[1..], components))
      case (Some(first), Some(rest)) => Some(first + rest)
      case _ => None
  }

  function Bool2Expressions(components: seq<Expression>): Option<seq<Expression>> {
    Bool2From(components, components)
  }

  // ----- Base modifications -----

  function FromComponents(components: seq<Expression>, ty: Type, rawType: Option<string>, meta: PatchMetadata): (r: seq<Modification>)
    ensures forall m :: m in r ==> m.expr in components && m.expr.ty == ty
  {
    if components == [] then [] else
      var c := components[0];
      (if c.ty == ty && (rawType.Some? ==> c.rawType == rawType.value) then [Modification(c, meta)] else [])
      + FromComponents(components[1..], ty, rawType, meta)
  }

  function LeafModifications(e: Expression, components: seq<Expression>): seq<Modification> {
    if e.kind == CONSTANT then
      if e.ty == INTEGER then
        FromComponents(components, INTEGER, None, PatchMetadata(GENERALIZATION, ATOMIC_EDIT))
        + [Modification(PARAMETER_NODE, PatchMetadata(SUBSTITUTION, ATOMIC_EDIT))]
      else []
    else if e.kind == VARIABLE || e.kind == DEREFERENCE then
      if e.ty == INTEGER then
        FromComponents(components, INTEGER, None, PatchMetadata(SUBSTITUTION, ATOMIC_EDIT))
        + [Modification(PARAMETER_NODE, PatchMetadata(CONCRETIZATION, ATOMIC_EDIT))]
      else if e.ty == PTR then
        FromComponents(components, PTR, Some(e.rawType), PatchMetadata(SUBSTITUTION, ATOMIC_EDIT))
        + [Modification(NULL_NODE, PatchMetadata(CONCRETIZATION, ATOMIC_EDIT))]
      else []
    else []
  }

  function WithOperator(e: Expression, op: Operator): Expression {
    e.(op := op, repr := OperatorToString(op))
  }

  function OperatorModifications(e: Expression, ops: seq<Operator>): (r: seq<Modification>)
    ensures forall m :: m in r ==> exists op :: op in ops && m.expr == WithOperator(e, op)
  {
    if ops == [] then [] else
      [Modification(WithOperator(e, ops[0]), PatchMetadata(REPLACE_OPERATOR, ATOMIC_EDIT))]
      + OperatorModifications(e, ops[1..])
  }

  function MutateOperator(e: Expression): Option<seq<Operator>>
    requires e.args != []
  {
    if e.args[0].ty == PTR then MutatePointerOperator(e.op) else MutateNumericOperator(e.op)
  }

  /** `e` with argument `k` replaced by each modification. */
  function InArgument(e: Expression, k: nat, mods: seq<Modification>): (r: seq<Modification>)
    requires k < |e.args|
    ensures |r| == |mods|
    ensures forall i :: 0 <= i < |mods| ==> r[i] == Modification(e.(args := e.args[k := mods[i].expr]), mods[i].meta)
  {
    if mods == [] then [] else
      [Modification(e.(args := e.args[k := mods[0].expr]), mods[0].meta)] + InArgument(e, k, mods[1..])
  }

  function UnsignedCast(e: Expression, k: nat): seq<Modification>
    requires k < |e.args|
  {
    if e.args[k].ty == INTEGER then
      [Modification(e.(args := e.args[k := WrapWithExplicitUnsignedCast(e.args[k])]), PatchMetadata(UNSIGNED_CAST, ATOMIC_EDIT))]
    else []
  }

  function HoleModification(e: Expression): seq<Modification> {
    if e.ty == BOOLEAN
    then [Modification(BOOL2_NODE, PatchMetadata(SUBSTITUTION, SubstitutionDistance(e, BOOL2_NODE)))]
    else []
  }

  function BaseSubstitutions(e: Expression, components: seq<Expression>): Option<seq<Modification>>
    decreases e, 1
  {
    if e.args == [] then Some(HoleModification(e) + LeafModifications(e, components)) else
      match MutateOperator(e)
      case None => None
      case Some(ops) =>
        var top := HoleModification(e) + OperatorModifications(e, ops);
        if |e.args| == 1 then
          match BaseSubstitutions(e.args[0], components)
          case None => None
          case Some(argMods) =>
            Some(top + InArgument(e, 0, argMods)
                 + if IsSimplifiable(e) then [Modification(e.args[0], PatchMetadata(SIMPLIFICATION, ATOMIC_EDIT))] else [])
        else if |e.args| == 2 then
          match (LeftModifications(e, components), BaseSubstitutions(e.args[1], components))
          case (Some(leftMods), Some(rightMods)) =>
            Some(BinaryModifications(e, top, leftMods, rightMods))
          case _ => None
        else Some(top)
  }

  /** The base of pointer arithmetic is left alone. */
  function LeftModifications(e: Expression, components: seq<Expression>): Option<seq<Modification>>
    requires |e.args| == 2
    decreases e, 0
  {
    if IsPointerArithmetic(e.op) then Some([]) else BaseSubstitutions(e.args[0], components)
  }

  function BinaryModifications(
    e: Expression, top: seq<Modification>, leftMods: seq<Modification>, rightMods: seq<Modification>): seq<Modification>
    requires |e.args| == 2
  {
    top + InArgument(e, 0, leftMods) + InArgument(e, 1, rightMods)
    + UnsignedCast(e, 0) + UnsignedCast(e, 1) + BinarySimplifications(e)
  }

  function BinarySimplifications(e: Expression): seq<Modification>
    requires |e.args| == 2
  {
    if IsSimplifiable(e) then
      [Modification(e.args[0], PatchMetadata(SIMPLIFICATION, ExpressionDepth(e.args[1]))),
       Modification(e.args[1], PatchMetadata(SIMPLIFICATION, ExpressionDepth(e.args[0])))]
    else []
  }

  function BaseModifications(schema: TransformationSchema, e: Expression, components: seq<Expression>): Option<seq<Modification>> {
    var hole := Modification(BOOL2_NODE, PatchMetadata(SUBSTITUTION, ExpressionDepth(BOOL2_NODE)));
    match schema
    case EXPRESSION =>
      (match BaseSubstitutions(e, components)
       case None => None
       case Some(mods) =>
         Some(mods +
              if e.ty == BOOLEAN then
                [Modification(ApplyBoolOperator(OR, e, BOOL2_NODE), PatchMetadata(LOOSENING, ExpressionDepth(BOOL2_NODE))),
                 Modification(ApplyBoolOperator(AND, e, BOOL2_NODE), PatchMetadata(TIGHTENING, ExpressionDepth(BOOL2_NODE)))]
              else []))
    case IF_GUARD =>
      Some((if e.repr == TRUE_NODE.repr then [Modification(FALSE_NODE, PatchMetadata(SUBSTITUTION, ATOMIC_EDIT))] else [])
           + (if e.repr == FALSE_NODE.repr then [Modification(TRUE_NODE, PatchMetadata(SUBSTITUTION, ATOMIC_EDIT))] else [])
           + [hole])
    case LOOSENING_SCHEMA | TIGHTENING_SCHEMA => Some([hole])
    case INITIALIZATION => Some([])
  }

  // ----- The search space, defined independently of the enumeration order -----

  /** A component as the reader delivers it. */
  predicate IsComponent(c: Expression) {
    c.args == [] && c.op == NONE && c.kind in {VARIABLE, DEREFERENCE} && c.ty in {PTR, INTEGER}
  }

  predicate AreComponents(components: seq<Expression>) {
    forall k :: 0 <= k < |components| ==> IsComponent(components[k])
  }

  /** Two operators of one family: swapping them is an edit. Division and remainder can be
      replaced but never introduced. */
  predicate Interchangeable(pointers: bool, op: Operator, op': Operator) {
    && op != op'
    && if pointers then (op in {EQ, NEQ} && op' in {EQ, NEQ}) || (op in {PTR_ADD, PTR_SUB} && op' in {PTR_ADD, PTR_SUB})
       else
         || (op in {EQ, NEQ, LT, LE, GT, GE} && op' in {EQ, NEQ, LT, LE, GT, GE})
         || (op in {OR, AND} && op' in {OR, AND})
         || (op in {ADD, SUB, MUL, DIV, MOD} && op' in {ADD, SUB, MUL})
         || (op in {BV_AND, BV_OR, BV_XOR} && op' in {BV_AND, BV_OR, BV_XOR})
         || (op in {BV_SHL, BV_SHR} && op' in {BV_SHL, BV_SHR})
  }

  /** A constant, or a variable or dereference, is replaced by something of its type, with the rule
      that names the change. */
  predicate ReplacesLeaf(e: Expression, x: Modification, components: seq<Expression>) {
    && e.args == [] && x.meta.distance == 1
    && var m, rule := x.expr, x.meta.rule;
       || (e.kind == CONSTANT && e.ty == INTEGER &&
           (|| (m == PARAMETER_NODE && rule == SUBSTITUTION)
            || (m in components && m.ty == INTEGER && rule == GENERALIZATION)))
       || (e.kind in {VARIABLE, DEREFERENCE} && e.ty == INTEGER &&
           (|| (m == PARAMETER_NODE && rule == CONCRETIZATION)
            || (m in components && m.ty == INTEGER && rule == SUBSTITUTION)))
       || (e.kind in {VARIABLE, DEREFERENCE} && e.ty == PTR &&
           (|| (m == NULL_NODE && rule == CONCRETIZATION)
            || (m in components && m.ty == PTR && m.rawType == e.rawType && rule == SUBSTITUTION)))
  }

  /** A Boolean expression gives way to the hole, at the price of both depths. */
  predicate MakesHole(e: Expression, x: Modification) {
    && e.ty == BOOLEAN && x.expr == BOOL2_NODE
    && x.meta == PatchMetadata(SUBSTITUTION, ExpressionDepth(e) + ExpressionDepth(BOOL2_NODE) - 1)
  }

  predicate ChangesOperator(e: Expression, x: Modification) {
    && e.args != [] && Interchangeable(e.args[0].ty == PTR, e.op, x.expr.op) && x.expr == WithOperator(e, x.expr.op)
    && x.meta == PatchMetadata(REPLACE_OPERATOR, 1)
  }

  function UnsignedNode(e: Expression): Expression {
    Expression(OPERATOR, INTEGER, EXPLICIT_UNSIGNED_CAST, "unsigned", "(unsigned)", [e])
  }

  predicate AddsCast(e: Expression, x: Modification, k: nat)
    requires k < |e.args|
  {
    && e.args[k].ty == INTEGER
    && x.expr == e.(args := e.args[k := UnsignedNode(e.args[k])])
    && x.meta == PatchMetadata(UNSIGNED_CAST, 1)
  }

  /** An operand takes the place of the expression, at the price of the depth of the other one. */
  predicate Simplifies(e: Expression, x: Modification) {
    && e.op in {OR, AND, ADD, SUB, MUL, DIV, MOD, NEG, BV_AND, BV_OR, BV_XOR, BV_SHL, BV_SHR} && x.meta.rule == SIMPLIFICATION
    && (|| (|e.args| == 1 && x.expr == e.args[0] && x.meta.distance == 1)
        || (|e.args| == 2 && x.expr == e.args[0] && x.meta.distance == ExpressionDepth(e.args[1]))
        || (|e.args| == 2 && x.expr == e.args[1] && x.meta.distance == ExpressionDepth(e.args[0])))
  }

  /** `x` is one edit of the root of `e`. */
  predicate EditsRoot(e: Expression, x: Modification, components: seq<Expression>) {
    || MakesHole(e, x)
    || ReplacesLeaf(e, x, components)
    || ChangesOperator(e, x)
    || (|e.args| == 2 && (AddsCast(e, x, 0) || AddsCast(e, x, 1)))
    || Simplifies(e, x)
  }

  /** `x` is `e` with exactly one edit at one place, named and priced where it is made. The base of
      pointer arithmetic is never edited. */
  ghost predicate IsEdit(e: Expression, x: Modification, components: seq<Expression>)
    decreases e
  {
    || EditsRoot(e, x, components)
    || exists k :: 0 <= k < |e.args| && IsArgumentEdit(e, x, components, k)
  }

  ghost predicate IsArgumentEdit(e: Expression, x: Modification, components: seq<Expression>, k: nat)
    requires k < |e.args|
    decreases e, 0
  {
    && !(e.op in {PTR_ADD, PTR_SUB} && k == 0)
    && k < |x.expr.args| && x.expr == e.(args := e.args[k := x.expr.args[k]])
    && IsEdit(e.args[k], Modification(x.expr.args[k], x.meta), components)
  }

  // ----- The enumeration is exactly the edits -----

  lemma ComparisonFamily(op: Operator, op': Operator)
    requires IsComparison(op)
    ensures op' in MutateNumericOperator(op).value <==> Interchangeable(false, op, op')
  {
    if IsComparison(op') {
      MutatedComparison(op, op');
    } else {
      assert forall k :: 0 <= k < |MutateNumericOperator(op).value| ==> IsComparison(MutateNumericOperator(op).value[k]);
    }
  }

  lemma MutatedComparison(op: Operator, op': Operator)
    requires IsComparison(op) && IsComparison(op')
    ensures op' in MutateNumericOperator(op).value <==> op' != op
  {
  }

  lemma OtherNumericFamilies(op: Operator, op': Operator)
    requires op != NONE && !IsPointerArithmetic(op) && !IsComparison(op)
    ensures op' in MutateNumericOperator(op).value <==> Interchangeable(false, op, op')
  {
  }

  lemma NumericFamily(op: Operator, op': Operator)
    requires op != NONE && !IsPointerArithmetic(op)
    ensures MutateNumericOperator(op).Some?
    ensures op' in MutateNumericOperator(op).value <==> Interchangeable(false, op, op')
  {
    if IsComparison(op) {
      ComparisonFamily(op, op');
    } else {
      OtherNumericFamilies(op, op');
    }
  }

  lemma PointerFamily(op: Operator, op': Operator)
    requires op != NONE
    ensures MutatePointerOperator(op).Some?
    ensures op' in MutatePointerOperator(op).value <==> Interchangeable(true, op, op')
  {
  }

  lemma OperatorsAreInterchangeable(e: Expression, op: Operator)
    requires Typed(e) && e.args != []
    ensures MutateOperator(e).Some?
    ensures op in MutateOperator(e).value <==> Interchangeable(e.args[0].ty == PTR, e.op, op)
  {
    if e.args[0].ty == PTR {
      PointerFamily(e.op, op);
    } else {
      NumericFamily(e.op, op);
    }
  }

  lemma {:induction false} ComponentsListed(
    components: seq<Expression>, ty: Type, rawType: Option<string>, meta: PatchMetadata, x: Modification)
    ensures x in FromComponents(components, ty, rawType, meta) <==>
            && x.expr in components && x.expr.ty == ty && (rawType.Some? ==> x.expr.rawType == rawType.value)
            && x.meta == meta
  {
    if components != [] {
      ComponentsListed(components[1..], ty, rawType, meta, x);
      assert components == [components[0]] + components[1..];
    }
  }

  lemma LeafListed(e: Expression, components: seq<Expression>, x: Modification)
    requires Typed(e) && e.args == []
    ensures x in LeafModifications(e, components) <==> ReplacesLeaf(e, x, components)
  {
    var rawType := if e.ty == PTR then Some(e.rawType) else None;
    var rule := if e.kind == CONSTANT then GENERALIZATION else SUBSTITUTION;
    ComponentsListed(components, e.ty, rawType, PatchMetadata(rule, ATOMIC_EDIT), x);
  }

  lemma {:induction false} OperatorListed(e: Expression, ops: seq<Operator>, x: Modification)
    ensures x in OperatorModifications(e, ops) <==>
            && x.expr.op in ops && x.expr == WithOperator(e, x.expr.op)
            && x.meta == PatchMetadata(REPLACE_OPERATOR, ATOMIC_EDIT)
  {
    if ops != [] {
      OperatorListed(e, ops[1..], x);
      assert ops == [ops[0]] + ops[1..];
    }
  }

  lemma InArgumentListed(e: Expression, k: nat, mods: seq<Modification>, x: Modification)
    requires k < |e.args|
    ensures x in InArgument(e, k, mods) <==>
            && k < |x.expr.args| && x.expr == e.(args := e.args[k := x.expr.args[k]])
            && Modification(x.expr.args[k], x.meta) in mods
  {
    var r := InArgument(e, k, mods);
    if x in r {
      var i :| 0 <= i < |r| && r[i] == x;
      assert mods[i] == Modification(x.expr.args[k], x.meta);
    }
    if k < |x.expr.args| && x.expr == e.(args := e.args[k := x.expr.args[k]]) && Modification(x.expr.args[k], x.meta) in mods {
      var i :| 0 <= i < |mods| && mods[i] == Modification(x.expr.args[k], x.meta);
      assert r[i] == x;
    }
  }

  /** For every typed expression the enumeration succeeds and lists exactly its edits. */
  lemma {:induction false} EnumerationIsExact(e: Expression, components: seq<Expression>, x: Modification)
    requires Typed(e)
    ensures BaseSubstitutions(e, components).Some?
    ensures x in BaseSubstitutions(e, components).value <==> IsEdit(e, x, components)
    decreases e, 1
  {
    if e.args == [] {
      LeafListed(e, components, x);
    } else if |e.args| == 1 {
      UnaryEnumeration(e, components, x);
    } else {
      BinaryEnumeration(e, components, x);
    }
  }

  lemma HoleListed(e: Expression, x: Modification)
    ensures x in HoleModification(e) <==> MakesHole(e, x)
  {
  }

  lemma NewOperatorListed(e: Expression, x: Modification)
    requires Typed(e) && e.args != []
    ensures MutateOperator(e).Some?
    ensures x in OperatorModifications(e, MutateOperator(e).value) <==> ChangesOperator(e, x)
  {
    hide Interchangeable, OperatorModifications, MutateOperator, WithOperator, Typed;
    OperatorsAreInterchangeable(e, x.expr.op);
    OperatorListed(e, MutateOperator(e).value, x);
  }

  lemma CastListed(e: Expression, k: nat, x: Modification)
    requires k < |e.args|
    ensures x in UnsignedCast(e, k) <==> AddsCast(e, x, k)
  {
    assert WrapWithExplicitUnsignedCast(e.args[k]) == UnsignedNode(e.args[k]);
  }

  /** The part of the enumeration every operator node shares. */
  lemma TopListed(e: Expression, x: Modification)
    requires Typed(e) && e.args != []
    ensures MutateOperator(e).Some?
    ensures x in HoleModification(e) + OperatorModifications(e, MutateOperator(e).value) <==>
            MakesHole(e, x) || ChangesOperator(e, x)
  {
    hide HoleModification, OperatorModifications, MutateOperator, MakesHole, ChangesOperator, Typed;
    HoleListed(e, x);
    NewOperatorListed(e, x);
  }

  lemma {:induction false} UnaryEnumeration(e: Expression, components: seq<Expression>, x: Modification)
    requires Typed(e) && |e.args| == 1
    ensures BaseSubstitutions(e, components).Some?
    ensures x in BaseSubstitutions(e, components).value <==> IsEdit(e, x, components)
    decreases e, 0
  {
    TopListed(e, x);
    EnumerationIsExact(e.args[0], components, ArgumentOf(x, 0));
    InArgumentListed(e, 0, BaseSubstitutions(e.args[0], components).value, x);
    hide MakesHole, ChangesOperator, AddsCast, HoleModification, OperatorModifications;
    EditUnfolds(e, x, components);
  }

  /** The modification of argument `k`, if there is one. */
  function ArgumentOf(x: Modification, k: nat): Modification {
    if k < |x.expr.args| then Modification(x.expr.args[k], x.meta) else x
  }

  /** An edit of an operator node is an edit of its root or of one argument. */
  lemma EditUnfolds(e: Expression, x: Modification, components: seq<Expression>)
    requires 1 <= |e.args| <= 2
    ensures IsEdit(e, x, components) <==>
            || MakesHole(e, x) || ChangesOperator(e, x)
            || (|e.args| == 2 && (AddsCast(e, x, 0) || AddsCast(e, x, 1)))
            || Simplifies(e, x)
            || IsArgumentEdit(e, x, components, 0)
            || (|e.args| == 2 && IsArgumentEdit(e, x, components, 1))
  {
    assert (exists k :: 0 <= k < |e.args| && IsArgumentEdit(e, x, components, k)) <==>
           IsArgumentEdit(e, x, components, 0) || (|e.args| == 2 && IsArgumentEdit(e, x, components, 1));
  }

  lemma {:induction false} BinaryEnumeration(e: Expression, components: seq<Expression>, x: Modification)
    requires Typed(e) && |e.args| == 2
    ensures BaseSubstitutions(e, components).Some?
    ensures x in BaseSubstitutions(e, components).value <==> IsEdit(e, x, components)
    decreases e, 0
  {
    hide IsEdit, IsArgumentEdit, InArgument, MakesHole, ChangesOperator, HoleModification, OperatorModifications,
         UnsignedCast, AddsCast;
    TopListed(e, x);
    CastListed(e, 0, x);
    CastListed(e, 1, x);
    LeftListed(e, components, x);
    RightListed(e, components, x);
    EditUnfolds(e, x, components);
  }

  lemma {:induction false} LeftListed(e: Expression, components: seq<Expression>, x: Modification)
    requires Typed(e) && |e.args| == 2
    ensures LeftModifications(e, components).Some?
    ensures x in InArgument(e, 0, LeftModifications(e, components).value) <==> IsArgumentEdit(e, x, components, 0)
    decreases e.args[0], 2
  {
    if !IsPointerArithmetic(e.op) {
      EnumerationIsExact(e.args[0], components, ArgumentOf(x, 0));
      InArgumentListed(e, 0, BaseSubstitutions(e.args[0], components).value, x);
    }
  }

  lemma {:induction false} RightListed(e: Expression, components: seq<Expression>, x: Modification)
    requires Typed(e) && |e.args| == 2
    ensures BaseSubstitutions(e.args[1], components).Some?
    ensures x in InArgument(e, 1, BaseSubstitutions(e.args[1], components).value) <==> IsArgumentEdit(e, x, components, 1)
    decreases e.args[1], 2
  {
    EnumerationIsExact(e.args[1], components, ArgumentOf(x, 1));
    InArgumentListed(e, 1, BaseSubstitutions(e.args[1], components).value, x);
  }
}
