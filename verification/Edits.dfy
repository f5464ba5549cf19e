/** What every edit of an expression keeps (repair/Synthesis.cpp:275-413): its type and typing
    discipline, at most one hole, and names the runtime can resolve. */
module Edits {
  import opened Core
  import opened Expressions
  import opened Typing
  import opened Synthesis

  // ----- Typing -----

  lemma RootEditIsTyped(e: Expression, x: Modification, components: seq<Expression>)
    requires Typed(e) && AreComponents(components) && EditsRoot(e, x, components)
    ensures Typed(x.expr) && x.expr.ty == e.ty
  {
    hide ChangesOperator, AddsCast, ExpressionDepth, Interchangeable;
    if ChangesOperator(e, x) {
      NewOperatorIsTyped(e, x);
    } else if |e.args| == 2 && (AddsCast(e, x, 0) || AddsCast(e, x, 1)) {
      NewCastIsTyped(e, x);
    } else if Simplifies(e, x) {
      OperandIsTyped(e, x);
    } else {
      NewLeafIsTyped(e, x, components);
    }
  }

  lemma OperandIsTyped(e: Expression, x: Modification)
    requires Typed(e) && Simplifies(e, x)
    ensures Typed(x.expr) && x.expr.ty == e.ty
  {
    hide ExpressionDepth;
  }

  lemma NewLeafIsTyped(e: Expression, x: Modification, components: seq<Expression>)
    requires AreComponents(components) && (MakesHole(e, x) || ReplacesLeaf(e, x, components))
    ensures Typed(x.expr) && x.expr.ty == e.ty
  {
    if x.expr in components {
      var k :| 0 <= k < |components| && components[k] == x.expr;
      assert IsComponent(x.expr);
    }
  }

  /** The new operator has operands and results of the same types as the old one. */
  lemma SameFamily(e: Expression, x: Modification)
    requires Typed(e) && ChangesOperator(e, x)
    ensures |e.args| == 2 && x.expr == WithOperator(e, x.expr.op)
    ensures SameTypes(e.args[0].ty == PTR, e.op, x.expr.op)
  {
    NotUnary(e, x);
    FamilyTypes(e.args[0].ty == PTR, e.op, x.expr.op);
  }

  predicate SameTypes(pointers: bool, op: Operator, op': Operator) {
    && IsPointerArithmetic(op) == IsPointerArithmetic(op') && IsComparison(op) == IsComparison(op')
    && IsHomogeneous(op) == IsHomogeneous(op') && OperatorOutputType(op) == OperatorOutputType(op')
    && (IsComparison(op) && pointers ==> op' in {EQ, NEQ})
  }

  lemma FamilyTypes(pointers: bool, op: Operator, op': Operator)
    requires Interchangeable(pointers, op, op')
    ensures SameTypes(pointers, op, op')
  {
  }

  lemma NotUnary(e: Expression, x: Modification)
    requires Typed(e) && ChangesOperator(e, x)
    ensures |e.args| == 2
  {
    hide WithOperator, ExpressionDepth;
  }

  lemma NewOperatorIsTyped(e: Expression, x: Modification)
    requires Typed(e) && ChangesOperator(e, x)
    ensures Typed(x.expr) && x.expr.ty == e.ty
  {
    SameFamily(e, x);
    assert e.args[1].ty != ANY;
  }

  lemma NewCastIsTyped(e: Expression, x: Modification)
    requires Typed(e) && |e.args| == 2 && (AddsCast(e, x, 0) || AddsCast(e, x, 1))
    ensures Typed(x.expr) && x.expr.ty == e.ty
  {
    hide AddsCast, Typed;
    if AddsCast(e, x, 0) { CastOperandIsTyped(e, x, 0); } else { CastOperandIsTyped(e, x, 1); }
  }

  lemma CastOperandIsTyped(e: Expression, x: Modification, k: nat)
    requires Typed(e) && k < |e.args| == 2 && AddsCast(e, x, k)
    ensures Typed(x.expr) && x.expr.ty == e.ty
  {
    hide OperatorToString;
    assert UnsignedNode(e.args[k]).args[0] == e.args[k];
  }

  /** Every edit of a typed expression is typed and has the type of the original. */
  lemma {:induction false} EditIsTyped(e: Expression, x: Modification, components: seq<Expression>)
    requires Typed(e) && AreComponents(components) && IsEdit(e, x, components)
    ensures Typed(x.expr) && x.expr.ty == e.ty
  {
    if EditsRoot(e, x, components) {
      RootEditIsTyped(e, x, components);
    } else {
      var k :| 0 <= k < |e.args| && IsArgumentEdit(e, x, components, k);
      EditIsTyped(e.args[k], ArgumentOf(x, k), components);
    }
  }

  // ----- Holes -----

  const ABSTRACT_KINDS := {PARAMETER, INT2, BOOL2, COND3}

  /** The number of nodes of the given kinds. */
  function Count(e: Expression, kinds: set<NodeKind>): nat {
    (if e.kind in kinds then 1 else 0) + CountIn(e.args, kinds)
  }

  function CountIn(args: seq<Expression>, kinds: set<NodeKind>): nat {
    if args == [] then 0 else Count(args[0], kinds) + CountIn(args[1..], kinds)
  }

  /** The number of abstract nodes. */
  function Holes(e: Expression): nat {
    Count(e, ABSTRACT_KINDS)
  }

  lemma {:induction false} CountAfterUpdate(args: seq<Expression>, k: nat, x: Expression, kinds: set<NodeKind>)
    requires k < |args|
    ensures CountIn(args[k := x], kinds) == CountIn(args, kinds) - Count(args[k], kinds) + Count(x, kinds)
    ensures Count(args[k], kinds) <= CountIn(args, kinds)
  {
    if k == 0 {
      assert args[0 := x][1..] == args[1..];
    } else {
      CountAfterUpdate(args[1..], k - 1, x, kinds);
      assert args[k := x][1..] == args[1..][k - 1 := x];
    }
  }

  /** Editing a concrete expression leaves at most one hole. */
  lemma {:induction false} EditHasOneHole(e: Expression, x: Modification, components: seq<Expression>)
    requires AreComponents(components) && Holes(e) == 0 && IsEdit(e, x, components)
    ensures Holes(x.expr) <= 1
  {
    var m := x.expr;
    if EditsRoot(e, x, components) {
      RootEditHasOneHole(e, x, components);
    } else {
      var k :| 0 <= k < |e.args| && IsArgumentEdit(e, x, components, k);
      CountAfterUpdate(e.args, k, m.args[k], ABSTRACT_KINDS);
      EditHasOneHole(e.args[k], ArgumentOf(x, k), components);
    }
  }

  lemma RootEditHasOneHole(e: Expression, x: Modification, components: seq<Expression>)
    requires AreComponents(components) && Holes(e) == 0 && EditsRoot(e, x, components)
    ensures Holes(x.expr) <= 1
  {
    var m := x.expr;
    if |e.args| == 2 && AddsCast(e, x, 0) {
      CastKeepsHoles(e, 0);
    } else if |e.args| == 2 && AddsCast(e, x, 1) {
      CastKeepsHoles(e, 1);
    } else if m in e.args {
      var k :| 0 <= k < |e.args| && e.args[k] == m;
      CountAfterUpdate(e.args, k, m, ABSTRACT_KINDS);
    }
  }

  lemma CastKeepsHoles(e: Expression, k: nat)
    requires k < |e.args|
    ensures CountIn(e.args[k := UnsignedNode(e.args[k])], ABSTRACT_KINDS) == CountIn(e.args, ABSTRACT_KINDS)
  {
    var cast := UnsignedNode(e.args[k]);
    CountAfterUpdate(e.args, k, cast, ABSTRACT_KINDS);
    assert cast.args == [e.args[k]] && cast.args[1..] == [];
    assert CountIn(cast.args, ABSTRACT_KINDS) == Holes(e.args[k]) + CountIn([], ABSTRACT_KINDS);
  }

  // ----- Names -----

  /** Some component has the name and the kind of this leaf. */
  predicate Names(components: seq<Expression>, e: Expression) {
    exists k :: 0 <= k < |components| && components[k].repr == e.repr && components[k].kind == e.kind
  }

  /** The generated runtime can evaluate this expression: operators are spelled and used as in C,
      variables and dereferences are components, and pointer arithmetic is on known types, with
      no hole in its base. */
  predicate Compilable(e: Expression, components: seq<Expression>, pointees: seq<string>) {
    if e.args == [] then
      && e.op == NONE && e.kind in {VARIABLE, DEREFERENCE, CONSTANT, PARAMETER, BOOL2}
      && (e.kind in {VARIABLE, DEREFERENCE} ==> Names(components, e))
      && (e.kind == BOOL2 ==> e == BOOL2_NODE) && (e.kind == PARAMETER ==> e == PARAMETER_NODE)
    else
      && e.kind == OPERATOR && e.repr == OperatorToString(e.op)
      && (forall k :: 0 <= k < |e.args| ==> Compilable(e.args[k], components, pointees))
      && (if |e.args| == 1 then IsUnary(e.op) || IsCast(e.op)
          else |e.args| == 2 && (IsComparison(e.op) || IsHomogeneous(e.op) || IsPointerArithmetic(e.op)))
      && (IsPointerArithmetic(e.op) ==> e.args[0].rawType in pointees && Holes(e.args[0]) == 0)
  }

  lemma LeafEditIsCompilable(e: Expression, x: Modification, components: seq<Expression>, pointees: seq<string>)
    requires AreComponents(components) && ReplacesLeaf(e, x, components)
    ensures Compilable(x.expr, components, pointees)
  {
    var m := x.expr;
    if m in components {
      var k :| 0 <= k < |components| && components[k] == m;
      assert Names(components, m);
    }
  }

  lemma CastOfCompilable(e: Expression, components: seq<Expression>, pointees: seq<string>)
    requires Compilable(e, components, pointees)
    ensures Compilable(UnsignedNode(e), components, pointees) && Holes(UnsignedNode(e)) == Holes(e)
  {
    var cast := UnsignedNode(e);
    assert cast.args[0] == e && cast.args[1..] == [];
    assert CountIn(cast.args, ABSTRACT_KINDS) == Holes(e) + CountIn([], ABSTRACT_KINDS);
  }

  lemma CastIsCompilable(e: Expression, x: Modification, k: nat, components: seq<Expression>, pointees: seq<string>)
    requires Typed(e) && Compilable(e, components, pointees) && k < |e.args| == 2 && AddsCast(e, x, k)
    ensures Compilable(x.expr, components, pointees)
  {
    var m := x.expr;
    var cast := UnsignedNode(e.args[k]);
    CastOfCompilable(e.args[k], components, pointees);
    hide Typed;
    assert forall i :: 0 <= i < 2 ==> m.args[i] == if i == k then cast else e.args[i];
  }

  lemma OperatorChangeIsCompilable(e: Expression, x: Modification, components: seq<Expression>, pointees: seq<string>)
    requires Typed(e) && Compilable(e, components, pointees) && ChangesOperator(e, x)
    ensures Compilable(x.expr, components, pointees)
  {
    SameFamily(e, x);
    hide Interchangeable, OperatorToString, OperatorOutputType, IsPointerArithmetic, IsComparison, IsHomogeneous, Typed;
  }

  lemma RootEditIsCompilable(e: Expression, x: Modification, components: seq<Expression>, pointees: seq<string>)
    requires Typed(e) && AreComponents(components) && Compilable(e, components, pointees) && EditsRoot(e, x, components)
    ensures Compilable(x.expr, components, pointees)
  {
    var m := x.expr;
    assert Compilable(BOOL2_NODE, components, pointees);
    if m in e.args {
      var k :| 0 <= k < |e.args| && e.args[k] == m;
      assert Compilable(e.args[k], components, pointees);
    }
    hide Compilable, Typed, ReplacesLeaf, ChangesOperator, AddsCast, IsSimplifiable;
    if ReplacesLeaf(e, x, components) {
      LeafEditIsCompilable(e, x, components, pointees);
    } else if ChangesOperator(e, x) {
      OperatorChangeIsCompilable(e, x, components, pointees);
    } else if |e.args| == 2 && AddsCast(e, x, 0) {
      CastIsCompilable(e, x, 0, components, pointees);
    } else if |e.args| == 2 && AddsCast(e, x, 1) {
      CastIsCompilable(e, x, 1, components, pointees);
    }
  }

  /** Every edit of an expression the runtime can evaluate can be evaluated too. */
  lemma {:induction false} EditIsCompilable(
    e: Expression, x: Modification, components: seq<Expression>, pointees: seq<string>)
    requires Typed(e) && AreComponents(components) && Compilable(e, components, pointees) && IsEdit(e, x, components)
    ensures Compilable(x.expr, components, pointees)
  {
    assert IsEdit(e, x, components) ==
           (EditsRoot(e, x, components) || exists k :: 0 <= k < |e.args| && IsArgumentEdit(e, x, components, k));
    hide Typed, Compilable, EditsRoot, IsEdit;
    if EditsRoot(e, x, components) {
      RootEditIsCompilable(e, x, components, pointees);
    } else {
      var k :| 0 <= k < |e.args| && IsArgumentEdit(e, x, components, k);
      ArgumentIsCompilable(e, k, components, pointees);
      EditIsCompilable(e.args[k], ArgumentOf(x, k), components, pointees);
      ArgumentEditIsCompilable(e, x, k, components, pointees);
    }
  }

  lemma ArgumentIsCompilable(e: Expression, k: nat, components: seq<Expression>, pointees: seq<string>)
    requires Typed(e) && Compilable(e, components, pointees)
    requires k < |e.args| && !(IsPointerArithmetic(e.op) && k == 0)
    ensures Typed(e.args[k]) && Compilable(e.args[k], components, pointees)
  {
  }

  lemma ArgumentEditIsCompilable(
    e: Expression, x: Modification, k: nat, components: seq<Expression>, pointees: seq<string>)
    requires Compilable(e, components, pointees) && k < |e.args| && IsArgumentEdit(e, x, components, k)
    requires Compilable(x.expr.args[k], components, pointees)
    ensures Compilable(x.expr, components, pointees)
  {
    var m := x.expr;
    assert m.args == e.args[k := m.args[k]] && m.op == e.op && m.kind == e.kind && m.repr == e.repr;
    assert IsPointerArithmetic(e.op) ==> k != 0;
    hide OperatorToString, IsHomogeneous, IsComparison, IsUnary, IsCast, Names, IsEdit, IsArgumentEdit;
    assert forall i :: 0 <= i < |m.args| ==> m.args[i] == if i == k then m.args[k] else e.args[i];
  }

  // ----- Expressions for the Boolean hole -----

  /** A comparison of a component with NULL, the parameter or a component of the same sort. */
  predicate IsBool2(b: Expression, components: seq<Expression>) {
    && |b.args| == 2 && b == Expression(OPERATOR, BOOLEAN, b.op, "int", OperatorToString(b.op), b.args)
    && b.args[0] in components
    && var left, right := b.args[0], b.args[1];
       || (left.ty == PTR && b.op in {EQ, NEQ} &&
           (right == NULL_NODE || (right in components && right.ty == PTR && right.rawType == left.rawType)))
       || (left.ty == INTEGER && IsComparison(b.op) &&
           (right == PARAMETER_NODE || (right in components && right.ty == INTEGER)))
  }

  lemma {:induction false} PointerComparisonsListed(left: Expression, components: seq<Expression>, b: Expression)
    ensures b in PointerComparisons(left, components) <==>
            && |b.args| == 2 && b == ApplyBoolOperator(b.op, left, b.args[1]) && b.op in {EQ, NEQ}
            && b.args[1] in components && b.args[1].ty == PTR && b.args[1].rawType == left.rawType
  {
    if components != [] {
      PointerComparisonsListed(left, components[1..], b);
      assert components == [components[0]] + components[1..];
    }
  }

  lemma ComparisonsWithListed(left: Expression, right: Expression, b: Expression)
    ensures b in ComparisonsWith(left, right) <==> IsComparison(b.op) && b == ApplyBoolOperator(b.op, left, right)
  {
  }

  lemma {:induction false} IntegerComparisonsListed(left: Expression, components: seq<Expression>, b: Expression)
    ensures b in IntegerComparisons(left, components) <==>
            && |b.args| == 2 && b == ApplyBoolOperator(b.op, left, b.args[1]) && IsComparison(b.op)
            && b.args[1] in components && b.args[1].ty == INTEGER
  {
    if components != [] {
      IntegerComparisonsListed(left, components[1..], b);
      ComparisonsWithListed(left, components[0], b);
      assert components == [components[0]] + components[1..];
    }
  }

  lemma Bool2ForListed(left: Expression, components: seq<Expression>, b: Expression)
    requires IsComponent(left)
    ensures Bool2For(left, components).Some?
    ensures b in Bool2For(left, components).value <==> IsBool2For(b, left, components)
  {
    if left.ty == PTR {
      PointerComparisonsListed(left, components, b);
    } else {
      IntegerComparisonsListed(left, components, b);
      ComparisonsWithListed(left, PARAMETER_NODE, b);
    }
  }

  predicate IsBool2For(b: Expression, left: Expression, components: seq<Expression>) {
    && |b.args| == 2 && b == ApplyBoolOperator(b.op, left, b.args[1])
    && var right := b.args[1];
       || (left.ty == PTR && b.op in {EQ, NEQ} &&
           (right == NULL_NODE || (right in components && right.ty == PTR && right.rawType == left.rawType)))
       || (left.ty == INTEGER && IsComparison(b.op) &&
           (right == PARAMETER_NODE || (right in components && right.ty == INTEGER)))
  }

  lemma {:induction false} Bool2FromListed(lefts: seq<Expression>, components: seq<Expression>, b: Expression)
    requires AreComponents(lefts)
    ensures Bool2From(lefts, components).Some?
    ensures b in Bool2From(lefts, components).value <==>
            |b.args| == 2 && b.args[0] in lefts && IsBool2For(b, b.args[0], components)
  {
    if lefts != [] {
      assert IsComponent(lefts[0]);
      assert AreComponents(lefts[1..]) by {
        forall k | 0 <= k < |lefts[1..]| ensures IsComponent(lefts[1..][k]) { assert IsComponent(lefts[k + 1]); }
      }
      Bool2FromListed(lefts[1..], components, b);
      Bool2ForListed(lefts[0], components, b);
      assert lefts == [lefts[0]] + lefts[1..];
    }
  }

  /** The hole can be filled with exactly the comparisons over the components. */
  lemma Bool2IsExact(components: seq<Expression>, b: Expression)
    requires AreComponents(components)
    ensures Bool2Expressions(components).Some?
    ensures b in Bool2Expressions(components).value <==> IsBool2(b, components)
  {
    Bool2FromListed(components, components, b);
  }

  lemma Bool2IsWellFormed(b: Expression, components: seq<Expression>, pointees: seq<string>)
    requires AreComponents(components) && IsBool2(b, components)
    ensures Typed(b) && b.ty == BOOLEAN && Compilable(b, components, pointees)
    ensures Holes(b) == if b.args[1] == PARAMETER_NODE then 1 else 0
    ensures b.kind == OPERATOR && b.args[0].kind in {VARIABLE, DEREFERENCE} && b.args[0].args == []
    ensures b.args[1].kind in {VARIABLE, DEREFERENCE, CONSTANT, PARAMETER} && b.args[1].args == []
    ensures b.args[1].kind == PARAMETER ==> b.args[1] == PARAMETER_NODE
  {
    var left, right := b.args[0], b.args[1];
    var k :| 0 <= k < |components| && components[k] == left;
    assert IsComponent(left) && Names(components, left);
    if right in components {
      var l :| 0 <= l < |components| && components[l] == right;
      assert IsComponent(right) && Names(components, right);
    }
    assert b.args == [left, right] && b.args[1..] == [right] && [right][1..] == [];
    assert Compilable(left, components, pointees) && Compilable(right, components, pointees);
    assert CountIn(b.args, ABSTRACT_KINDS) == Holes(left) + (Holes(right) + CountIn([], ABSTRACT_KINDS));
    assert Typed(left) && Typed(right);
    hide IsComponent, AreComponents, Names;
  }
}
