/** Type correction of expressions read from the transformation tool (repair/Typing.cpp). */
module Typing {
  import opened Core
  import opened Expressions

  function OperatorOutputType(op: Operator): Option<Type> {
    match op
    case NONE => None
    case EQ | NEQ | LT | LE | GT | GE | OR | AND | NOT => Some(BOOLEAN)
    case ADD | SUB | MUL | DIV | MOD | NEG => Some(INTEGER)
    case BV_AND | BV_OR | BV_XOR | BV_SHL | BV_SHR | BV_NOT => Some(BITVECTOR)
    case PTR_ADD | PTR_SUB => Some(PTR)
    // The two implicit casts are listed the other way round than they are built.
    case IMPLICIT_BV_CAST => Some(INTEGER)
    case IMPLICIT_INT_CAST => Some(BITVECTOR)
    case EXPLICIT_BV_CAST => Some(BITVECTOR)
    case EXPLICIT_INT_CAST | EXPLICIT_UNSIGNED_CAST => Some(INTEGER)
    case EXPLICIT_PTR_CAST => Some(PTR)
  }

  function OperatorFirstArgType(op: Operator): Option<Type> {
    match op
    case NONE => None
    case EQ | NEQ => Some(ANY)
    case LT | LE | GT | GE => Some(INTEGER)
    case OR | AND | NOT => Some(BOOLEAN)
    case ADD | SUB | MUL | DIV | MOD | NEG => Some(INTEGER)
    case BV_AND | BV_OR | BV_XOR | BV_SHL | BV_SHR | BV_NOT => Some(BITVECTOR)
    case PTR_ADD | PTR_SUB => Some(PTR)
    case IMPLICIT_BV_CAST | IMPLICIT_INT_CAST | EXPLICIT_BV_CAST | EXPLICIT_INT_CAST
       | EXPLICIT_UNSIGNED_CAST | EXPLICIT_PTR_CAST => Some(ANY)
  }

  /** Two bitvectors have no common subtype: the code throws. */
  function CommonSubtype(a: Type, b: Type): Option<Type> {
    if a == ANY then Some(b)
    else if b == ANY then Some(a)
    else if a == PTR || b == PTR then Some(PTR)
    else if a == BOOLEAN || b == BOOLEAN then Some(BOOLEAN)
    else if a == INTEGER || b == INTEGER then Some(INTEGER)
    else None
  }

  function CorrectTopNode(e: Expression, context: Type): Expression {
    match context
    case ANY => e
    case INTEGER =>
      if e.ty == INTEGER then e
      else if e.ty == PTR then WrapWithExplicitIntCast(e)
      else WrapWithImplicitIntCast(e)
    case BITVECTOR =>
      if e.ty == BITVECTOR then e
      else if e.ty == PTR then WrapWithExplicitBVCast(e)
      else WrapWithImplicitBVCast(e)
    case BOOLEAN =>
      if e.ty == BOOLEAN then e
      else if e.ty == PTR then MakeNonNULLCheck(e)
      else if e.ty == INTEGER && e.kind == CONSTANT then
        if e.repr == "0" then FALSE_NODE
        else if e.repr == "1" then TRUE_NODE
        else MakeNonZeroCheck(e)
      else MakeNonZeroCheck(e)
    case PTR =>
      if e.ty == PTR then e else WrapWithExplicitPtrCast(e)
  }

  /** The context a comparison or homogeneous operator gives its operands, if it has one. */
  function OperandContext(e: Expression): Option<Type>
    requires |e.args| == 2
  {
    match OperatorFirstArgType(e.op)
    case None => None
    case Some(first) => if first == ANY then CommonSubtype(e.args[0].ty, e.args[1].ty) else Some(first)
  }

  /** None where the code throws or a debug assertion fails. */
  function CorrectTypes(e: Expression, context: Type): Option<Expression> {
    if e.kind in {VARIABLE, CONSTANT, PARAMETER, DEREFERENCE} then
      Some(CorrectTopNode(e, context))
    else if e.kind != OPERATOR then None
    else if |e.args| == 1 then
      match OperatorFirstArgType(e.op)
      case None => None
      case Some(argContext) =>
        match CorrectTypes(e.args[0], argContext)
        case None => None
        case Some(arg) => Some(CorrectTopNode(e.(args := [arg]), context))
    else if |e.args| == 2 then
      if e.op == PTR_ADD || e.op == PTR_SUB then
        if e.args[0].ty != PTR then None else
          match CorrectTypes(e.args[1], INTEGER)
          case None => None
          case Some(arg) => Some(CorrectTopNode(e.(args := [e.args[0], arg]), context))
      else
        match OperandContext(e)
        case None => None
        case Some(argContext) =>
          match (CorrectTypes(e.args[0], argContext), CorrectTypes(e.args[1], argContext))
          case (Some(left), Some(right)) => Some(CorrectTopNode(e.(args := [left, right]), context))
          case _ => None
    else None
  }

  // ----- What correction achieves -----

  predicate IsComparison(op: Operator) { op in {EQ, NEQ, LT, LE, GT, GE} }

  predicate IsPointerArithmetic(op: Operator) { op in {PTR_ADD, PTR_SUB} }

  predicate IsCast(op: Operator) {
    op in {IMPLICIT_BV_CAST, IMPLICIT_INT_CAST, EXPLICIT_BV_CAST, EXPLICIT_INT_CAST, EXPLICIT_PTR_CAST,
           EXPLICIT_UNSIGNED_CAST}
  }

  /** Binary operators whose operands have the type of the result. */
  predicate IsHomogeneous(op: Operator) {
    op in {OR, AND, ADD, SUB, MUL, DIV, MOD, BV_AND, BV_OR, BV_XOR, BV_SHL, BV_SHR}
  }

  predicate IsUnary(op: Operator) { op in {NEG, NOT, BV_NOT} }

  /** An expression as the reader builds it (repair/Util.cpp:400-436): no casts yet, node types
      taken from the operator, leaves typed as pointers or integers. */
  predicate FromReader(e: Expression) {
    if e.args == [] then
      e.op == NONE && e.kind in {VARIABLE, CONSTANT, DEREFERENCE, OPERATOR} && e.ty in {PTR, INTEGER}
    else
      && e.kind == OPERATOR
      && (forall k :: 0 <= k < |e.args| ==> FromReader(e.args[k]))
      && OperatorOutputType(e.op) == Some(e.ty)
      && (if |e.args| == 1 then IsUnary(e.op)
          else |e.args| == 2 && (IsComparison(e.op) || IsHomogeneous(e.op) || IsPointerArithmetic(e.op)))
  }

  /** The typing discipline of corrected expressions. The pointer operand of pointer arithmetic
      is not inspected: correction does not descend into it. */
  predicate Typed(e: Expression) {
    && e.ty != ANY
    && if e.args == [] then
         e.op == NONE && e.kind != OPERATOR
       else if |e.args| == 1 then
         && e.kind == OPERATOR && Typed(e.args[0])
         && (if IsUnary(e.op) then Some(e.ty) == OperatorOutputType(e.op) && e.args[0].ty == e.ty
             else IsCast(e.op) && CastType(e.op) == e.ty)
       else
         && |e.args| == 2 && e.kind == OPERATOR && Typed(e.args[1])
         && if IsPointerArithmetic(e.op) then
              e.ty == PTR && e.args[0].ty == PTR && e.args[1].ty == INTEGER
            else
              && Typed(e.args[0])
              && if IsComparison(e.op) then
                   && e.ty == BOOLEAN
                   && (e.args[0].ty == PTR <==> e.args[1].ty == PTR)
                   && (e.args[0].ty == PTR ==> e.op in {EQ, NEQ})
                 else
                   && IsHomogeneous(e.op) && Some(e.ty) == OperatorOutputType(e.op)
                   && e.args[0].ty == e.ty == e.args[1].ty
  }

  /** The type a cast produces, as the casts are built. */
  function CastType(op: Operator): Type
    requires IsCast(op)
  {
    match op
    case IMPLICIT_INT_CAST | EXPLICIT_INT_CAST | EXPLICIT_UNSIGNED_CAST => INTEGER
    case IMPLICIT_BV_CAST | EXPLICIT_BV_CAST => BITVECTOR
    case _ => PTR
  }

  lemma CastIsTyped(ty: Type, op: Operator, rawType: string, e: Expression)
    requires Typed(e) && IsCast(op) && CastType(op) == ty
    ensures Typed(Wrap(ty, op, rawType, e))
  {
    assert Wrap(ty, op, rawType, e).args[0] == e;
  }

  lemma CheckIsTyped(op: Operator, e: Expression, c: Expression)
    requires Typed(e) && Typed(c) && op in {EQ, NEQ} && (e.ty == PTR <==> c.ty == PTR)
    ensures Typed(ApplyBoolOperator(op, e, c))
  {
    var r := ApplyBoolOperator(op, e, c);
    assert r.args[0] == e && r.args[1] == c;
  }

  lemma TopNodeIsTyped(e: Expression, context: Type)
    requires Typed(e)
    ensures Typed(CorrectTopNode(e, context))
    ensures CorrectTopNode(e, context).ty == if context == ANY then e.ty else context
  {
    if context == BOOLEAN {
      TruthIsTyped(e);
    } else if context != ANY {
      CastedIsTyped(e, context);
    }
  }

  lemma CastedIsTyped(e: Expression, context: Type)
    requires Typed(e) && context in {INTEGER, BITVECTOR, PTR}
    ensures Typed(CorrectTopNode(e, context)) && CorrectTopNode(e, context).ty == context
  {
    hide Typed;
    match context
    case INTEGER =>
      CastIsTyped(INTEGER, if e.ty == PTR then EXPLICIT_INT_CAST else IMPLICIT_INT_CAST,
                  if e.ty == PTR then EXPLICIT_INT_CAST_TYPE else e.rawType, e);
    case BITVECTOR =>
      CastIsTyped(BITVECTOR, if e.ty == PTR then EXPLICIT_BV_CAST else IMPLICIT_BV_CAST,
                  if e.ty == PTR then EXPLICIT_BV_CAST_TYPE else e.rawType, e);
    case PTR => CastIsTyped(PTR, EXPLICIT_PTR_CAST, EXPLICIT_PTR_CAST_TYPE, e);
  }

  lemma TruthIsTyped(e: Expression)
    requires Typed(e)
    ensures Typed(CorrectTopNode(e, BOOLEAN)) && CorrectTopNode(e, BOOLEAN).ty == BOOLEAN
  {
    assert Typed(NULL_NODE) && Typed(MakeIntegerConst(0)) && Typed(TRUE_NODE) && Typed(FALSE_NODE);
    hide Typed;
    if e.ty == PTR {
      CheckIsTyped(NEQ, e, NULL_NODE);
    } else {
      CheckIsTyped(EQ, e, MakeIntegerConst(0));
    }
  }

  /** When correction succeeds, whatever the context asks for. */
  predicate Correctable(e: Expression) {
    if e.args == [] then e.kind != OPERATOR
    else if |e.args| == 1 then Correctable(e.args[0])
    else
      && |e.args| == 2 && Correctable(e.args[1])
      && if IsPointerArithmetic(e.op) then e.args[0].ty == PTR
         else
           && Correctable(e.args[0])
           && (e.op in {EQ, NEQ} ==> !(e.args[0].ty == BITVECTOR && e.args[1].ty == BITVECTOR))
  }

  lemma OperandsMakeTyped(e: Expression, left: Expression, right: Expression)
    requires FromReader(e) && |e.args| == 2 && !IsPointerArithmetic(e.op)
    requires OperandContext(e).Some? && Typed(left) && Typed(right)
    requires left.ty == right.ty == OperandContext(e).value
    ensures Typed(e.(args := [left, right]))
  {
    ReaderTypes(e);
    hide FromReader;
    var r := e.(args := [left, right]);
    assert r.args[0] == left && r.args[1] == right;
  }

  lemma ReaderTypes(e: Expression)
    requires FromReader(e) && |e.args| == 2 && !IsPointerArithmetic(e.op)
    ensures e.kind == OPERATOR && (IsComparison(e.op) || IsHomogeneous(e.op)) && OperatorOutputType(e.op) == Some(e.ty)
    ensures e.args[0].ty != ANY && e.args[1].ty != ANY
  {
  }

  lemma OperandMakesTyped(e: Expression, arg: Expression)
    requires FromReader(e) && |e.args| == 1 && Typed(arg) && Some(arg.ty) == OperatorFirstArgType(e.op)
    ensures Typed(e.(args := [arg]))
  {
  }

  lemma OffsetMakesTyped(e: Expression, arg: Expression)
    requires FromReader(e) && |e.args| == 2 && IsPointerArithmetic(e.op)
    requires e.args[0].ty == PTR && Typed(arg) && arg.ty == INTEGER
    ensures Typed(e.(args := [e.args[0], arg]))
  {
  }

  // ----- Which types operands get -----

  /** The order of the types: pointers are below everything, Booleans below integers, and integers
      below bitvectors, so that a program with both compiles; anything is below ANY. */
  predicate IsSubtype(a: Type, b: Type) {
    || a == b || b == ANY || a == PTR
    || (a == BOOLEAN && b == INTEGER) || (a == BOOLEAN && b == BITVECTOR)
    || (a == INTEGER && b == BITVECTOR)
  }

  /** The common subtype is the greatest type below both; only for two bitvectors there is none. */
  lemma CommonSubtypeIsGreatest(a: Type, b: Type)
    ensures CommonSubtype(a, b).None? <==> a == BITVECTOR && b == BITVECTOR
    ensures CommonSubtype(a, b).Some? ==>
              var t := CommonSubtype(a, b).value;
              && IsSubtype(t, a) && IsSubtype(t, b)
              && forall u :: IsSubtype(u, a) && IsSubtype(u, b) ==> IsSubtype(u, t)
  {
  }

  /** In any other context the corrected expression is, corrected once more at its root. */
  lemma ContextIsOutermost(e: Expression, context: Type)
    ensures CorrectTypes(e, context) ==
            if CorrectTypes(e, ANY).None? then None else Some(CorrectTopNode(CorrectTypes(e, ANY).value, context))
  {
  }

  /** The types of the operands after correction: those of the operator, except that an equality
      compares pointers exactly if one operand was a pointer, and else Booleans exactly if one was a
      Boolean. */
  lemma OperandsAreOfType(e: Expression)
    requires FromReader(e) && e.args != [] && CorrectTypes(e, ANY).Some?
    ensures var r := CorrectTypes(e, ANY).value;
            && r.kind == OPERATOR && r.op == e.op && |r.args| == |e.args|
            && (e.op in {LT, LE, GT, GE, ADD, SUB, MUL, DIV, MOD, NEG} ==> forall k :: 0 <= k < |r.args| ==> r.args[k].ty == INTEGER)
            && (e.op in {OR, AND, NOT} ==> forall k :: 0 <= k < |r.args| ==> r.args[k].ty == BOOLEAN)
            && (e.op in {BV_AND, BV_OR, BV_XOR, BV_SHL, BV_SHR, BV_NOT} ==>
                  forall k :: 0 <= k < |r.args| ==> r.args[k].ty == BITVECTOR)
            && (e.op in {PTR_ADD, PTR_SUB} ==> r.args[0] == e.args[0] && r.args[0].ty == PTR && r.args[1].ty == INTEGER)
            && (e.op in {EQ, NEQ} ==>
                  var left, right := e.args[0].ty, e.args[1].ty;
                  && r.args[0].ty == r.args[1].ty
                  && (r.args[0].ty == PTR <==> left == PTR || right == PTR)
                  && (r.args[0].ty == BOOLEAN <==> left != PTR && right != PTR && (left == BOOLEAN || right == BOOLEAN))
                  && (r.args[0].ty == INTEGER || r.args[0].ty == PTR || r.args[0].ty == BOOLEAN))
  {
    var r := CorrectTypes(e, ANY).value;
    hide Typed, CorrectTypes, CorrectTopNode, FromReader;
    hide CommonSubtype, OperatorOutputType, OperatorFirstArgType;
    if IsPointerArithmetic(e.op) {
      OffsetOperands(e);
    } else {
      var t := ContextOfOperands(e);
      if e.op in {EQ, NEQ} { EqualityOperands(e); } else { FirstArgTypes(e.op); }
    }
  }

  lemma FirstArgTypes(op: Operator)
    requires OperatorFirstArgType(op).Some?
    ensures op in {LT, LE, GT, GE, ADD, SUB, MUL, DIV, MOD, NEG} ==> OperatorFirstArgType(op).value == INTEGER
    ensures op in {OR, AND, NOT} ==> OperatorFirstArgType(op).value == BOOLEAN
    ensures op in {BV_AND, BV_OR, BV_XOR, BV_SHL, BV_SHR, BV_NOT} ==> OperatorFirstArgType(op).value == BITVECTOR
  {
  }

  lemma EqualityOperands(e: Expression)
    requires FromReader(e) && e.op in {EQ, NEQ} && CorrectTypes(e, ANY).Some?
    ensures |e.args| == 2
    ensures var r := CorrectTypes(e, ANY).value;
            var left, right := e.args[0].ty, e.args[1].ty;
            && |r.args| == 2 && r.args[0].ty == r.args[1].ty
            && (r.args[0].ty == PTR <==> left == PTR || right == PTR)
            && (r.args[0].ty == BOOLEAN <==> left != PTR && right != PTR && (left == BOOLEAN || right == BOOLEAN))
            && (r.args[0].ty == INTEGER || r.args[0].ty == PTR || r.args[0].ty == BOOLEAN)
  {
    EqualityHasOperands(e);
    hide Typed, CorrectTypes, CorrectTopNode, FromReader, OperatorOutputType, OperatorFirstArgType;
    var t := ContextOfOperands(e);
    hide CommonSubtype;
    CommonSubtypeIsGreatest(e.args[0].ty, e.args[1].ty);
  }

  lemma EqualityHasOperands(e: Expression)
    requires FromReader(e) && e.op in {EQ, NEQ}
    ensures e.args != []
  {
  }

  lemma OffsetOperands(e: Expression)
    requires FromReader(e) && IsPointerArithmetic(e.op) && CorrectTypes(e, ANY).Some?
    ensures var r := CorrectTypes(e, ANY).value;
            && r.kind == OPERATOR && r.op == e.op && |r.args| == |e.args| == 2
            && r.args[0] == e.args[0] && r.args[0].ty == PTR && r.args[1].ty == INTEGER
  {
    hide Typed;
    CorrectionIsTyped(e.args[1], INTEGER);
  }

  /** All operands are corrected into the context the operator gives them. */
  lemma ContextOfOperands(e: Expression) returns (t: Type)
    requires FromReader(e) && e.args != [] && !IsPointerArithmetic(e.op) && CorrectTypes(e, ANY).Some?
    ensures var r := CorrectTypes(e, ANY).value;
            && r.kind == OPERATOR && r.op == e.op && |r.args| == |e.args|
            && forall k :: 0 <= k < |r.args| ==> r.args[k].ty == t
    ensures e.op in {EQ, NEQ} ==>
              |e.args| == 2 && CommonSubtype(e.args[0].ty, e.args[1].ty) == Some(t)
              && e.args[0].ty != ANY && e.args[1].ty != ANY && !(e.args[0].ty == BITVECTOR && e.args[1].ty == BITVECTOR)
    ensures e.op !in {EQ, NEQ} ==> OperatorFirstArgType(e.op) == Some(t) && e.op != NONE && !IsCast(e.op)
  {
    hide FromReader, CorrectTypes;
    ReaderArity(e);
    if |e.args| == 1 {
      t := OperatorFirstArgType(e.op).value;
      UnaryOperand(e);
    } else {
      ReaderTypes(e);
      OperandContextExists(e);
      BinaryOperands(e);
      t := OperandContext(e).value;
    }
  }

  lemma ReaderArity(e: Expression)
    requires FromReader(e) && e.args != []
    ensures (|e.args| == 1 && IsUnary(e.op)) || |e.args| == 2
  {
  }

  lemma UnaryOperand(e: Expression)
    requires FromReader(e) && |e.args| == 1 && CorrectTypes(e, ANY).Some?
    ensures var r := CorrectTypes(e, ANY).value;
            && r.kind == OPERATOR && r.op == e.op && |r.args| == 1
            && Some(r.args[0].ty) == OperatorFirstArgType(e.op)
  {
    hide Typed;
    CorrectionIsTyped(e.args[0], OperatorFirstArgType(e.op).value);
  }

  lemma BinaryOperands(e: Expression)
    requires FromReader(e) && |e.args| == 2 && !IsPointerArithmetic(e.op) && CorrectTypes(e, ANY).Some?
    ensures OperandContext(e).Some?
    ensures var r := CorrectTypes(e, ANY).value;
            && r.kind == OPERATOR && r.op == e.op && |r.args| == 2
            && r.args[0].ty == r.args[1].ty == OperandContext(e).value
  {
    hide Typed;
    OperandContextExists(e);
    CorrectionIsTyped(e.args[0], OperandContext(e).value);
    CorrectionIsTyped(e.args[1], OperandContext(e).value);
  }

  /** The type of an operator node as it is read. */
  lemma ReaderResultTypes(e: Expression)
    requires FromReader(e) && e.args != []
    ensures e.op in {EQ, NEQ, LT, LE, GT, GE, OR, AND, NOT} <==> e.ty == BOOLEAN
    ensures e.op in {ADD, SUB, MUL, DIV, MOD, NEG} <==> e.ty == INTEGER
    ensures e.op in {BV_AND, BV_OR, BV_XOR, BV_SHL, BV_SHR, BV_NOT} <==> e.ty == BITVECTOR
    ensures e.op in {PTR_ADD, PTR_SUB} <==> e.ty == PTR
  {
  }

  /** The table of result types has the two implicit casts exchanged; nothing reads it for them. */
  lemma ImplicitCastsAreExchanged(op: Operator)
    requires IsCast(op)
    ensures OperatorOutputType(op) == Some(CastType(op)) <==> op !in {IMPLICIT_INT_CAST, IMPLICIT_BV_CAST}
    ensures op == IMPLICIT_INT_CAST ==> OperatorOutputType(op) == Some(CastType(IMPLICIT_BV_CAST))
    ensures op == IMPLICIT_BV_CAST ==> OperatorOutputType(op) == Some(CastType(IMPLICIT_INT_CAST))
  {
  }

  /** A conversion between a pointer and a number is written out as a cast; any other prints nothing. */
  lemma PointerCastsAreWritten(e: Expression, context: Type)
    requires context in {INTEGER, BITVECTOR, PTR} && e.ty != context
    ensures var r := CorrectTopNode(e, context);
            && r.args == [e] && IsCast(r.op) && r.repr == OperatorToString(r.op)
            && (r.repr == "" <==> context != PTR && e.ty != PTR)
  {
  }

  lemma OperandContextExists(e: Expression)
    requires FromReader(e) && |e.args| == 2 && !IsPointerArithmetic(e.op)
    ensures OperandContext(e).Some? <==> !(e.op in {EQ, NEQ} && e.args[0].ty == BITVECTOR && e.args[1].ty == BITVECTOR)
    ensures OperandContext(e).Some? ==> OperandContext(e).value != ANY
  {
    assert e.args[0].ty != ANY && e.args[1].ty != ANY;
  }

  /** Correction of a freshly read expression succeeds exactly on the correctable ones, and then
      delivers a typed expression of the type the context asked for. */
  lemma {:induction false} CorrectionIsTyped(e: Expression, context: Type)
    requires FromReader(e)
    ensures CorrectTypes(e, context).Some? <==> Correctable(e)
    ensures CorrectTypes(e, context).Some? ==>
              var r := CorrectTypes(e, context).value;
              Typed(r) && r.ty == if context == ANY then e.ty else context
    decreases e, 1
  {
    if e.args == [] {
      if e.kind != OPERATOR { TopNodeIsTyped(e, context); }
    } else if |e.args| == 1 {
      CorrectUnary(e, context);
    } else if IsPointerArithmetic(e.op) {
      CorrectPointerArithmetic(e, context);
    } else {
      CorrectBinary(e, context);
    }
  }

  lemma {:induction false} CorrectUnary(e: Expression, context: Type)
    requires FromReader(e) && |e.args| == 1
    ensures CorrectTypes(e, context).Some? <==> Correctable(e)
    ensures CorrectTypes(e, context).Some? ==>
              var r := CorrectTypes(e, context).value;
              Typed(r) && r.ty == if context == ANY then e.ty else context
    decreases e, 0
  {
    hide Typed, CorrectTopNode;
    var argContext := OperatorFirstArgType(e.op).value;
    CorrectionIsTyped(e.args[0], argContext);
    if Correctable(e.args[0]) {
      var arg := CorrectTypes(e.args[0], argContext).value;
      OperandMakesTyped(e, arg);
      TopNodeIsTyped(e.(args := [arg]), context);
    }
  }

  lemma {:induction false} CorrectPointerArithmetic(e: Expression, context: Type)
    requires FromReader(e) && |e.args| == 2 && IsPointerArithmetic(e.op)
    ensures CorrectTypes(e, context).Some? <==> Correctable(e)
    ensures CorrectTypes(e, context).Some? ==>
              var r := CorrectTypes(e, context).value;
              Typed(r) && r.ty == if context == ANY then e.ty else context
    decreases e, 0
  {
    CorrectionIsTyped(e.args[1], INTEGER);
    if Correctable(e) {
      var arg := CorrectTypes(e.args[1], INTEGER).value;
      OffsetMakesTyped(e, arg);
      TopNodeIsTyped(e.(args := [e.args[0], arg]), context);
    }
  }

  lemma {:induction false} CorrectBinary(e: Expression, context: Type)
    requires FromReader(e) && |e.args| == 2 && !IsPointerArithmetic(e.op)
    ensures CorrectTypes(e, context).Some? <==> Correctable(e)
    ensures CorrectTypes(e, context).Some? ==>
              var r := CorrectTypes(e, context).value;
              Typed(r) && r.ty == if context == ANY then e.ty else context
    decreases e, 0
  {
    hide Typed, CorrectTopNode;
    OperandContextExists(e);
    if OperandContext(e).Some? {
      var argContext := OperandContext(e).value;
      CorrectionIsTyped(e.args[0], argContext);
      CorrectionIsTyped(e.args[1], argContext);
      if Correctable(e.args[0]) && Correctable(e.args[1]) {
        var left, right := CorrectTypes(e.args[0], argContext).value, CorrectTypes(e.args[1], argContext).value;
        OperandsMakeTyped(e, left, right);
        TopNodeIsTyped(e.(args := [left, right]), context);
      }
    }
  }
}
