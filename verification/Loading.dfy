/** Reading schema applications from the transformation tool and correcting their types
    (repair/Util.cpp:83-169, 400-505, repair/Repair.cpp:235-245). */
module Loading {
  import opened Core
  import opened Expressions
  import opened Typing
  import opened Synthesis
  import opened Edits
  import opened SearchSpace
  import opened ArgumentLayout
  import opened LayoutAgreement

  /** An expression object of the file, without or with the member `args`. */
  datatype Json =
    | Leaf(kind: string, pointer: bool, rawType: string, repr: string)
    | Node(kind: string, pointer: bool, rawType: string, repr: string, args: seq<Json>)

  function KindByString(s: string): Option<NodeKind> {
    if s == "operator" then Some(OPERATOR)
    else if s == "variable" then Some(VARIABLE)
    else if s == "dereference" then Some(DEREFERENCE)
    else if s == "constant" then Some(CONSTANT)
    else None
  }

  /** None stands for a parse error or a failed assertion. */
  function ConvertExpression(json: Json): Option<Expression> {
    match KindByString(json.kind)
    case None => None
    case Some(kind) =>
      var ty := if json.pointer then PTR else INTEGER;
      if json.Leaf? then Some(Expression(kind, ty, NONE, json.rawType, json.repr, [])) else
        var args := json.args;
        var op := if |args| == 1 then UnaryOperatorByString(json.repr)
                  else if |args| == 2 then BinaryOperatorByString(json.repr, json.pointer)
                  else None;
        if kind != OPERATOR || op.None? then None else
          match (OperatorOutputType(op.value), ConvertAll(args))
          case (Some(opType), Some(converted)) =>
            Some(Expression(kind, opType, op.value, json.rawType, json.repr, converted))
          case _ => None
  }

  function ConvertAll(args: seq<Json>): (r: Option<seq<Expression>>)
    ensures r.Some? ==> |r.value| == |args|
    ensures r.Some? ==> forall k :: 0 <= k < |args| ==> ConvertExpression(args[k]) == Some(r.value[k])
  {
    if args == [] then Some([]) else
      match (ConvertExpression(args[0]), ConvertAll(args[1..]))
      case (Some(first), Some(rest)) => Some([first] + rest)
      case _ => None
  }

  /** Operators are spelled as they were read. */
  predicate Spelled(e: Expression) {
    && (e.args != [] ==> e.repr == OperatorToString(e.op))
    && forall k :: 0 <= k < |e.args| ==> Spelled(e.args[k])
  }

  lemma UnaryRead(text: string)
    requires UnaryOperatorByString(text).Some?
    ensures var op := UnaryOperatorByString(text).value; IsUnary(op) && OperatorToString(op) == text
  {
  }

  lemma BinaryRead(text: string, pointers: bool)
    requires BinaryOperatorByString(text, pointers).Some?
    ensures var op := BinaryOperatorByString(text, pointers).value;
            && (IsComparison(op) || IsHomogeneous(op) || IsPointerArithmetic(op))
            && OperatorToString(op) == text
  {
  }

  /** What is read has the shape type correction expects, and prints as it was written. */
  lemma {:induction false} ConvertedIsFromReader(json: Json)
    requires ConvertExpression(json).Some?
    ensures FromReader(ConvertExpression(json).value) && Spelled(ConvertExpression(json).value)
  {
    hide UnaryOperatorByString, BinaryOperatorByString, OperatorToString, IsUnary, IsComparison, IsHomogeneous, IsPointerArithmetic;
    if json.Node? {
      var args := json.args;
      if |args| == 1 {
        UnaryRead(json.repr);
      } else {
        BinaryRead(json.repr, json.pointer);
      }
      forall k | 0 <= k < |args|
        ensures ConvertExpression(args[k]).Some? && FromReader(ConvertExpression(args[k]).value)
        ensures Spelled(ConvertExpression(args[k]).value)
      {
        ConvertedIsFromReader(args[k]);
      }
    }
  }

  /** All its names are components, and pointer arithmetic is on complete types. */
  predicate Resolved(e: Expression, components: seq<Expression>, pointees: seq<string>) {
    && (e.args == [] ==> e.kind != OPERATOR && (e.kind in {VARIABLE, DEREFERENCE} ==> Names(components, e)))
    && (IsPointerArithmetic(e.op) && e.args != [] ==> e.args[0].rawType in pointees)
    && forall k :: 0 <= k < |e.args| ==> Resolved(e.args[k], components, pointees)
  }

  lemma {:induction false} ReadIsCompilable(e: Expression, components: seq<Expression>, pointees: seq<string>)
    requires FromReader(e) && Spelled(e) && Resolved(e, components, pointees)
    ensures Compilable(e, components, pointees) && Holes(e) == 0
  {
    forall k | 0 <= k < |e.args| ensures Compilable(e.args[k], components, pointees) && Holes(e.args[k]) == 0 {
      ReadIsCompilable(e.args[k], components, pointees);
    }
    SumOfNone(e.args);
  }

  lemma {:induction false} SumOfNone(args: seq<Expression>)
    requires forall k :: 0 <= k < |args| ==> Holes(args[k]) == 0
    ensures CountIn(args, ABSTRACT_KINDS) == 0
  {
    if args != [] { SumOfNone(args[1..]); }
  }

  predicate IsReady(e: Expression, components: seq<Expression>, pointees: seq<string>) {
    Compilable(e, components, pointees) && Holes(e) == 0
  }

  lemma TopNodeIsReady(e: Expression, context: Type, components: seq<Expression>, pointees: seq<string>)
    requires IsReady(e, components, pointees)
    ensures IsReady(CorrectTopNode(e, context), components, pointees)
  {
    var r := CorrectTopNode(e, context);
    if r != e && r.args != [] {
      assert r.args[0] == e && r.kind == OPERATOR && r.repr == OperatorToString(r.op) && !IsPointerArithmetic(r.op);
      assert if |r.args| == 1 then IsCast(r.op) else |r.args| == 2 && IsComparison(r.op);
      assert |r.args| == 2 ==> r.args[1] in {NULL_NODE, MakeIntegerConst(0)};
      hide CorrectTopNode, OperatorToString;
      forall k | 0 <= k < |r.args| ensures IsReady(r.args[k], components, pointees) { }
      SumOfNone(r.args);
    }
  }

  /** Type correction introduces nothing the runtime could not evaluate. */
  lemma {:induction false} CorrectionKeepsReady(e: Expression, context: Type, components: seq<Expression>, pointees: seq<string>)
    requires IsReady(e, components, pointees) && CorrectTypes(e, context).Some?
    ensures IsReady(CorrectTypes(e, context).value, components, pointees)
    decreases e, 1
  {
    hide CorrectTopNode;
    if e.args == [] {
      TopNodeIsReady(e, context, components, pointees);
    } else {
      forall k | 0 <= k < |e.args| ensures IsReady(e.args[k], components, pointees) {
        CountAfterUpdate(e.args, k, e.args[k], ABSTRACT_KINDS);
      }
      if |e.args| == 1 {
        var argContext := OperatorFirstArgType(e.op).value;
        CorrectionKeepsReady(e.args[0], argContext, components, pointees);
        CorrectedOperator(e, context, [CorrectTypes(e.args[0], argContext).value], components, pointees);
      } else {
        CorrectionKeepsBinary(e, context, components, pointees);
      }
    }
  }

  lemma {:induction false} CorrectionKeepsBinary(e: Expression, context: Type, components: seq<Expression>, pointees: seq<string>)
    requires Compilable(e, components, pointees) && CorrectTypes(e, context).Some? && |e.args| == 2
    requires IsReady(e.args[0], components, pointees) && IsReady(e.args[1], components, pointees)
    ensures IsReady(CorrectTypes(e, context).value, components, pointees)
    decreases e, 0
  {
    hide CorrectTopNode;
    if IsPointerArithmetic(e.op) {
      CorrectionKeepsReady(e.args[1], INTEGER, components, pointees);
      CorrectedOperator(e, context, [e.args[0], CorrectTypes(e.args[1], INTEGER).value], components, pointees);
    } else {
      var argContext := OperandContext(e).value;
      CorrectionKeepsReady(e.args[0], argContext, components, pointees);
      CorrectionKeepsReady(e.args[1], argContext, components, pointees);
      CorrectedOperator(e, context, [CorrectTypes(e.args[0], argContext).value, CorrectTypes(e.args[1], argContext).value],
                        components, pointees);
    }
  }

  lemma CorrectedOperator(e: Expression, context: Type, args: seq<Expression>, components: seq<Expression>, pointees: seq<string>)
    requires Compilable(e, components, pointees) && e.args != [] && |args| == |e.args|
    requires forall k :: 0 <= k < |args| ==> IsReady(args[k], components, pointees)
    requires IsPointerArithmetic(e.op) ==> args[0] == e.args[0]
    ensures IsReady(CorrectTopNode(e.(args := args), context), components, pointees)
  {
    SumOfNone(args);
    TopNodeIsReady(e.(args := args), context, components, pointees);
  }

  // ----- Every expression that can be read has a text -----

  function KindText(kind: NodeKind): string
    requires kind in {OPERATOR, VARIABLE, DEREFERENCE, CONSTANT}
  {
    match kind
    case OPERATOR => "operator"
    case VARIABLE => "variable"
    case DEREFERENCE => "dereference"
    case CONSTANT => "constant"
  }

  /** The object of an expression: its kind, whether it is a pointer, its type and its text. */
  function WrittenExpression(e: Expression): Json
    requires FromReader(e)
  {
    if e.args == [] then Leaf(KindText(e.kind), e.ty == PTR, e.rawType, e.repr)
    else Node("operator", e.ty == PTR, e.rawType, e.repr, WrittenAll(e.args))
  }

  function WrittenAll(args: seq<Expression>): (r: seq<Json>)
    requires forall k :: 0 <= k < |args| ==> FromReader(args[k])
    ensures |r| == |args|
  {
    if args == [] then [] else [WrittenExpression(args[0])] + WrittenAll(args[1..])
  }

  /** What is written for an expression is read as that expression: kinds, types, operators and texts. */
  lemma {:induction false} ExpressionIsRead(e: Expression)
    requires FromReader(e) && Spelled(e)
    ensures ConvertExpression(WrittenExpression(e)) == Some(e)
    decreases e, 1
  {
    if e.args != [] {
      ArgumentsAreRead(e.args);
      OperatorIsRead(e);
      hide UnaryOperatorByString, BinaryOperatorByString, OperatorToString, IsUnary, IsComparison, IsHomogeneous, IsPointerArithmetic;
    }
  }

  lemma {:induction false} ArgumentsAreRead(args: seq<Expression>)
    requires forall k :: 0 <= k < |args| ==> FromReader(args[k]) && Spelled(args[k])
    ensures ConvertAll(WrittenAll(args)) == Some(args)
    decreases args, 0
  {
    if args != [] {
      ExpressionIsRead(args[0]);
      ArgumentsAreRead(args[1..]);
      var written := WrittenAll(args);
      assert written[0] == WrittenExpression(args[0]) && written[1..] == WrittenAll(args[1..]);
      hide ConvertExpression, FromReader, Spelled, WrittenExpression, WrittenAll;
      assert args == [args[0]] + args[1..];
    }
  }

  lemma OperatorIsRead(e: Expression)
    requires FromReader(e) && Spelled(e) && e.args != []
    ensures |e.args| == 1 ==> UnaryOperatorByString(e.repr) == Some(e.op)
    ensures |e.args| == 2 ==> BinaryOperatorByString(e.repr, e.ty == PTR) == Some(e.op)
    ensures |e.args| <= 2 && OperatorOutputType(e.op) == Some(e.ty) && e.kind == OPERATOR
  {
    if |e.args| == 2 { BinaryTextRoundTrip(e.op); }
  }

  // ----- Applications -----

  /** How the transformation tool writes a component. */
  function Written(c: Component): Json {
    Leaf(if c.isDereference then "dereference" else "variable", c.isPointer, c.rawType, c.repr)
  }

  lemma WrittenIsRead(c: Component)
    ensures ConvertExpression(Written(c)) == Some(ToExpression(c))
  {
  }

  method LoadComponent(ghost before: seq<Component>, pointees: seq<string>, c: Component)
    returns (comp: Expression, pointees': seq<string>)
    requires pointees == CompleteIn(before)
    ensures comp == ToExpression(c) && pointees' == CompleteIn(before + [c])
  {
    WrittenIsRead(c);
    assert (before + [c])[..|before|] == before;
    comp := ConvertExpression(Written(c)).value;
    pointees' := pointees;
    if Written(c).pointer && !c.incomplete && comp.rawType !in pointees {
      pointees' := pointees + [comp.rawType];
    }
  }

  lemma NoComponents(cs: seq<Component>)
    ensures ToExpressions(cs[..0]) == [] && CompleteIn(cs[..0]) == []
  {
  }

  lemma OneMoreComponent(cs: seq<Component>, n: nat)
    requires n < |cs|
    ensures cs[..n] + [cs[n]] == cs[..n + 1]
    ensures ToExpressions(cs[..n + 1]) == ToExpressions(cs[..n]) + [ToExpression(cs[n])]
  {
  }

  /** The components as read, and the sorted list of their complete pointee types. */
  method LoadComponents(cs: seq<Component>) returns (components: seq<Expression>, completePointeeTypes: seq<string>)
    ensures components == ToExpressions(cs)
    ensures completePointeeTypes == SortNames(CompleteIn(cs))
  {
    components := [];
    completePointeeTypes := [];
    NoComponents(cs);
    hide ToExpressions, CompleteIn;
    for n := 0 to |cs|
      invariant components == ToExpressions(cs[..n])
      invariant completePointeeTypes == CompleteIn(cs[..n])
    {
      var comp;
      comp, completePointeeTypes := LoadComponent(cs[..n], completePointeeTypes, cs[n]);
      components := components + [comp];
      OneMoreComponent(cs, n);
    }
    assert cs[..|cs|] == cs;
    completePointeeTypes := SortNames(completePointeeTypes);
  }

  function ContextType(context: LocationContext): Type {
    if context == CONDITION then BOOLEAN else ANY
  }

  /** The application the search works on: its expression corrected for its context. */
  function Corrected(sa: SchemaApplication): Option<SchemaApplication> {
    match CorrectTypes(sa.original, ContextType(sa.context))
    case None => None
    case Some(original) => Some(sa.(original := original))
  }

  /** A file that loads, and whose expression mentions only its components, yields an application
      that a search space can be generated for. */
  lemma LoadedIsWellFormed(json: Json, cs: seq<Component>, sa: SchemaApplication)
    requires ConvertExpression(json) == Some(sa.original) && ReadFrom(sa, cs)
    requires Resolved(sa.original, sa.components, sa.completePointeeTypes)
    ensures Corrected(sa).Some? <==> Correctable(sa.original)
    ensures Corrected(sa).Some? ==> WellFormed(Corrected(sa).value) && ReadFrom(Corrected(sa).value, cs)
    ensures Corrected(sa).Some? ==>
              var original := Corrected(sa).value.original;
              && Corrected(sa).value == sa.(original := original)
              && (sa.context == CONDITION ==> original.ty == BOOLEAN)
              && (sa.context != CONDITION ==> original.ty == sa.original.ty)
  {
    ConvertedIsFromReader(json);
    CorrectionIsTyped(sa.original, ContextType(sa.context));
    ReadIsCompilable(sa.original, sa.components, sa.completePointeeTypes);
    if Corrected(sa).Some? {
      CorrectionKeepsReady(sa.original, ContextType(sa.context), sa.components, sa.completePointeeTypes);
    }
    forall k | 0 <= k < |sa.components| ensures IsComponent(sa.components[k]) {
      assert sa.components[k] == ToExpression(cs[k]);
    }
  }
}
