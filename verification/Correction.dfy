/** What type correction does to the meaning of an expression (repair/Typing.cpp:166-249): nothing,
    unless it inserts the inverted comparison with zero somewhere. */
module Correction {
  import opened Core
  import opened Expressions
  import opened Typing
  import opened Semantics

  /** Between pointers and integers of the same width, casts keep the value. */
  ghost predicate CastsKeepValues(prims: Primitives) {
    forall op, v :: prims.cast(op, v) == v
  }

  /** No node, in the context it stands in, is compared with zero. */
  predicate NoZeroComparison(e: Expression, context: Type) {
    && !(context == BOOLEAN && GetsZeroComparison(e))
    && (|e.args| == 1 ==>
          OperatorFirstArgType(e.op).Some? && NoZeroComparison(e.args[0], OperatorFirstArgType(e.op).value))
    && (|e.args| == 2 ==>
          if IsPointerArithmetic(e.op) then NoZeroComparison(e.args[1], INTEGER)
          else
            && OperandContext(e).Some?
            && NoZeroComparison(e.args[0], OperandContext(e).value)
            && NoZeroComparison(e.args[1], OperandContext(e).value))
  }

  /** `r` means what `v`, of the given type, means in the context: the same value, or for a pointer
      used as a condition the same truth value; and one crashes when the other does. */
  predicate Means(r: Option<int>, v: Option<int>, ty: Type, context: Type) {
    if context == BOOLEAN && ty == PTR
    then r == if v == None then None else Some(Truth(v.value != 0))
    else r == v
  }

  lemma CastMeans(ty: Type, op: Operator, rawType: string, e: Expression, env: Env)
    requires CastsKeepValues(env.prims) && IsCast(op)
    ensures Eval(Wrap(ty, op, rawType, e), env) == Eval(e, env)
  {
    assert Wrap(ty, op, rawType, e).args[0] == e;
  }

  lemma ConditionMeans(e: Expression, env: Env)
    requires !GetsZeroComparison(e) && (e.kind == CONSTANT ==> e.args == [])
    ensures Means(Eval(CorrectTopNode(e, BOOLEAN), env), Eval(e, env), e.ty, BOOLEAN)
  {
    ConstantsMeanThemselves(env);
    if e.ty == PTR && Eval(e, env).Some? { BinaryValue(NEQ, e, NULL_NODE, env); }
    if e.ty == PTR { assert MakeNonNULLCheck(e).args[0] == e; }
  }

  lemma TopNodeMeans(e: Expression, context: Type, env: Env)
    requires CastsKeepValues(env.prims) && !(context == BOOLEAN && GetsZeroComparison(e))
    requires e.kind == CONSTANT ==> e.args == []
    ensures Means(Eval(CorrectTopNode(e, context), env), Eval(e, env), e.ty, context)
  {
    hide Eval, GetsZeroComparison, CastsKeepValues, Wrap;
    match context {
      case BOOLEAN => ConditionMeans(e, env);
      case INTEGER =>
        CastMeans(INTEGER, EXPLICIT_INT_CAST, EXPLICIT_INT_CAST_TYPE, e, env);
        CastMeans(INTEGER, IMPLICIT_INT_CAST, e.rawType, e, env);
      case BITVECTOR =>
        CastMeans(BITVECTOR, EXPLICIT_BV_CAST, EXPLICIT_BV_CAST_TYPE, e, env);
        CastMeans(BITVECTOR, IMPLICIT_BV_CAST, e.rawType, e, env);
      case PTR => CastMeans(PTR, EXPLICIT_PTR_CAST, EXPLICIT_PTR_CAST_TYPE, e, env);
      case ANY =>
    }
  }

  /** An operator applied to operands that mean the same. */
  lemma UnaryMeans(op: Operator, r: Option<int>, v: Option<int>, ty: Type, env: Env)
    requires IsUnary(op) && Means(r, v, ty, OperatorFirstArgType(op).value)
    ensures EvalUnary(op, r, env) == EvalUnary(op, v, env)
  {
  }

  lemma BinaryMeans(
    op: Operator, pointee: string, pointee': string, r: Option<int>, s: Option<int>, v: Option<int>, w: Option<int>,
    ty: Type, ty': Type, context: Type, env: Env)
    requires IsComparison(op) || IsHomogeneous(op)
    requires Means(r, v, ty, context) && Means(s, w, ty', context)
    requires context == BOOLEAN ==> op in {OR, AND} || (ty != PTR && ty' != PTR)
    ensures EvalBinary(op, pointee, r, s, env) == EvalBinary(op, pointee', v, w, env)
  {
  }

  lemma OperandContextFits(e: Expression)
    requires FromReader(e) && |e.args| == 2 && !IsPointerArithmetic(e.op) && OperandContext(e) == Some(BOOLEAN)
    ensures e.op in {OR, AND} || (e.args[0].ty != PTR && e.args[1].ty != PTR)
  {
  }

  /** The corrected expression means what the original means, wherever it is evaluated. */
  lemma {:induction false} CorrectionKeepsMeaning(e: Expression, context: Type, env: Env)
    requires FromReader(e) && CorrectTypes(e, context).Some?
    requires CastsKeepValues(env.prims) && NoZeroComparison(e, context)
    ensures Means(Eval(CorrectTypes(e, context).value, env), Eval(e, env), e.ty, context)
    decreases e, 1
  {
    if e.kind != OPERATOR {
      TopNodeMeans(e, context, env);
    } else if |e.args| == 1 {
      CorrectedUnary(e, context, env);
    } else if IsPointerArithmetic(e.op) {
      CorrectedOffset(e, context, env);
    } else {
      CorrectedBinary(e, context, env);
    }
  }

  lemma {:induction false} CorrectedUnary(e: Expression, context: Type, env: Env)
    requires FromReader(e) && CorrectTypes(e, context).Some? && e.kind == OPERATOR
    requires CastsKeepValues(env.prims) && NoZeroComparison(e, context)
    requires |e.args| == 1
    ensures Means(Eval(CorrectTypes(e, context).value, env), Eval(e, env), e.ty, context)
    decreases e, 0
  {
    hide GetsZeroComparison, CastsKeepValues, Means, CorrectTopNode;
    var argContext := OperatorFirstArgType(e.op).value;
    CorrectionKeepsMeaning(e.args[0], argContext, env);
    var arg := CorrectTypes(e.args[0], argContext).value;
    UnaryMeans(e.op, Eval(arg, env), Eval(e.args[0], env), e.args[0].ty, env);
    ReplacedOperands(e, [arg], context, env);
  }

  lemma {:induction false} CorrectedOffset(e: Expression, context: Type, env: Env)
    requires FromReader(e) && CorrectTypes(e, context).Some? && e.kind == OPERATOR
    requires CastsKeepValues(env.prims) && NoZeroComparison(e, context)
    requires |e.args| == 2 && IsPointerArithmetic(e.op)
    ensures Means(Eval(CorrectTypes(e, context).value, env), Eval(e, env), e.ty, context)
    decreases e, 0
  {
    hide GetsZeroComparison, CastsKeepValues, Means, CorrectTopNode;
    CorrectionKeepsMeaning(e.args[1], INTEGER, env);
    var arg := CorrectTypes(e.args[1], INTEGER).value;
    SameValue(Eval(arg, env), Eval(e.args[1], env), e.args[1].ty);
    ReplacedOperands(e, [e.args[0], arg], context, env);
  }

  lemma {:induction false} CorrectedBinary(e: Expression, context: Type, env: Env)
    requires FromReader(e) && CorrectTypes(e, context).Some? && e.kind == OPERATOR
    requires CastsKeepValues(env.prims) && NoZeroComparison(e, context)
    requires |e.args| == 2 && !IsPointerArithmetic(e.op)
    ensures Means(Eval(CorrectTypes(e, context).value, env), Eval(e, env), e.ty, context)
    decreases e, 0
  {
    hide GetsZeroComparison, CastsKeepValues, Means, CorrectTopNode;
    var argContext := OperandContext(e).value;
    CorrectionKeepsMeaning(e.args[0], argContext, env);
    CorrectionKeepsMeaning(e.args[1], argContext, env);
    var left, right := CorrectTypes(e.args[0], argContext).value, CorrectTypes(e.args[1], argContext).value;
    if argContext == BOOLEAN { OperandContextFits(e); }
    BinaryMeans(e.op, left.rawType, e.args[0].rawType, Eval(left, env), Eval(right, env), Eval(e.args[0], env), Eval(e.args[1], env),
                e.args[0].ty, e.args[1].ty, argContext, env);
    ReplacedOperands(e, [left, right], context, env);
  }

  lemma SameValue(r: Option<int>, v: Option<int>, ty: Type)
    requires Means(r, v, ty, INTEGER)
    ensures r == v
  {
  }

  /** Operands that leave the value of the operator alone, and then the node itself. */
  lemma ReplacedOperands(e: Expression, args: seq<Expression>, context: Type, env: Env)
    requires e.kind == OPERATOR && e.args != [] && |args| == |e.args|
    requires CastsKeepValues(env.prims) && !(context == BOOLEAN && GetsZeroComparison(e))
    requires Eval(e.(args := args), env) == Eval(e, env)
    ensures Means(Eval(CorrectTopNode(e.(args := args), context), env), Eval(e, env), e.ty, context)
  {
    TopNodeMeans(e.(args := args), context, env);
  }

  // ----- What a corrected expression means, whatever was inserted -----

  /** The value of `e` as the correction reads it in a context: an integer used as a condition counts as
      true when it is zero. */
  function ReadIn(v: Option<int>, e: Expression, context: Type): Option<int> {
    if v.None? || context != BOOLEAN then v
    else if GetsZeroComparison(e) then Some(Truth(v.value == 0))
    else if e.ty == PTR then Some(Truth(v.value != 0))
    else v
  }

  /** The meaning of the original expression under that reading, at every node. */
  function MeaningIn(e: Expression, context: Type, env: Env): Option<int> {
    var v :=
      if |e.args| == 1 && OperatorFirstArgType(e.op).Some? then
        EvalUnary(e.op, MeaningIn(e.args[0], OperatorFirstArgType(e.op).value, env), env)
      else if |e.args| == 2 && IsPointerArithmetic(e.op) then
        EvalBinary(e.op, e.args[0].rawType, Eval(e.args[0], env), MeaningIn(e.args[1], INTEGER, env), env)
      else if |e.args| == 2 && OperandContext(e).Some? then
        EvalBinary(e.op, e.args[0].rawType, MeaningIn(e.args[0], OperandContext(e).value, env),
                   MeaningIn(e.args[1], OperandContext(e).value, env), env)
      else Eval(e, env);
    ReadIn(v, e, context)
  }

  lemma TopNodeReads(e: Expression, context: Type, env: Env)
    requires CastsKeepValues(env.prims) && (e.kind == CONSTANT ==> e.args == [])
    ensures Eval(CorrectTopNode(e, context), env) == ReadIn(Eval(e, env), e, context)
  {
    if context == BOOLEAN && GetsZeroComparison(e) {
      ConstantsMeanThemselves(env);
      assert CorrectTopNode(e, context) == MakeNonZeroCheck(e);
      assert MakeNonZeroCheck(e).args[0] == e && MakeNonZeroCheck(e).args[1] == MakeIntegerConst(0);
      hide EvalWith, ConstantValue;
      ZeroCheckValue(e, env);
    } else {
      TopNodeMeans(e, context, env);
    }
  }

  lemma ZeroCheckValue(e: Expression, env: Env)
    ensures Eval(MakeNonZeroCheck(e), env) ==
            if Eval(e, env).None? then None else Some(Truth(Eval(e, env).value == 0))
  {
    ConstantsMeanThemselves(env);
    var r := MakeNonZeroCheck(e);
    assert r.args[0] == e && r.args[1] == MakeIntegerConst(0);
    if Eval(e, env).Some? { BinaryValue(EQ, e, MakeIntegerConst(0), env); }
  }

  /** A corrected expression has exactly that meaning, and crashes exactly where that reading does. */
  lemma {:induction false} CorrectionMeans(e: Expression, context: Type, env: Env)
    requires FromReader(e) && CorrectTypes(e, context).Some? && CastsKeepValues(env.prims)
    ensures Eval(CorrectTypes(e, context).value, env) == MeaningIn(e, context, env)
  {
    hide GetsZeroComparison, CastsKeepValues, CorrectTopNode, ReadIn, EvalUnary, EvalBinary;
    if e.kind != OPERATOR {
      TopNodeReads(e, context, env);
    } else if |e.args| == 1 {
      var argContext := OperatorFirstArgType(e.op).value;
      CorrectionMeans(e.args[0], argContext, env);
      ReadOperands(e, [CorrectTypes(e.args[0], argContext).value], context, env);
    } else if IsPointerArithmetic(e.op) {
      CorrectionMeans(e.args[1], INTEGER, env);
      ReadOperands(e, [e.args[0], CorrectTypes(e.args[1], INTEGER).value], context, env);
    } else {
      var argContext := OperandContext(e).value;
      CorrectionMeans(e.args[0], argContext, env);
      CorrectionMeans(e.args[1], argContext, env);
      ReadOperands(e, [CorrectTypes(e.args[0], argContext).value, CorrectTypes(e.args[1], argContext).value], context, env);
      OtherPointee(e.op, CorrectTypes(e.args[0], argContext).value.rawType, e.args[0].rawType,
                   MeaningIn(e.args[0], argContext, env), MeaningIn(e.args[1], argContext, env), env);
    }
  }

  lemma ReadOperands(e: Expression, args: seq<Expression>, context: Type, env: Env)
    requires e.kind == OPERATOR && 1 <= |args| == |e.args| <= 2 && CastsKeepValues(env.prims)
    ensures Eval(CorrectTopNode(e.(args := args), context), env) ==
            ReadIn(if |args| == 1 then EvalUnary(e.op, Eval(args[0], env), env)
                   else EvalBinary(e.op, args[0].rawType, Eval(args[0], env), Eval(args[1], env), env), e, context)
  {
    TopNodeReads(e.(args := args), context, env);
  }

  /** The pointee type counts in pointer arithmetic only. */
  lemma OtherPointee(op: Operator, pointee: string, pointee': string, v: Option<int>, w: Option<int>, env: Env)
    requires !IsPointerArithmetic(op)
    ensures EvalBinary(op, pointee, v, w, env) == EvalBinary(op, pointee', v, w, env)
  {
  }
}
