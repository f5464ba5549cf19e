/** The emitted evaluation code of a candidate expression and what it computes
    (repair/Synthesis.cpp:423-433 and 654-700). */
module Staging {
  import opened Core
  import opened Expressions
  import opened Typing
  import opened Edits
  import opened Semantics

  /** How source names map to the arguments of the partition function; a missing entry reads as
      the empty string. */
  datatype Layout = Layout(
    renaming: map<string, string>, sizeByType: map<string, string>, nullDerefByName: map<string, string>)

  function Lookup(m: map<string, string>, key: string): string {
    if key in m then m[key] else ""
  }

  /** Replaces the names of variables and dereferences by their runtime representation. */
  function SubstituteWithRuntimeRepr(e: Expression, renaming: map<string, string>): Expression {
    if e.kind == VARIABLE || e.kind == DEREFERENCE then e.(repr := Lookup(renaming, e.repr))
    else e.(args := SubstituteInAll(e.args, renaming))
  }

  function SubstituteInAll(args: seq<Expression>, renaming: map<string, string>): (r: seq<Expression>)
    ensures |r| == |args|
    ensures forall k :: 0 <= k < |args| ==> r[k] == SubstituteWithRuntimeRepr(args[k], renaming)
  {
    if args == [] then [] else
      [SubstituteWithRuntimeRepr(args[0], renaming)] + SubstituteInAll(args[1..], renaming)
  }

  /** Emitted C code, as C parses it: all compound operands are parenthesized. */
  datatype Code =
    | Name(kind: NodeKind, text: string)
    | NullGuarded(flag: string, slot: string)
    | Prefix(text: string, arg: Code)
    | Infix(text: string, left: Code, right: Code)
    | ZeroChecked(text: string, numerator: Code, denominator: Code)
    | Offset(text: string, base: Code, size: string, index: Code)

  function RuntimeSemantics(e: Expression, sizeByType: map<string, string>, nullDerefByName: map<string, string>): Option<Code> {
    if IsPointerArithmetic(e.op) then
      if |e.args| < 2 then None else
        match (RuntimeSemantics(e.args[0], sizeByType, nullDerefByName), RuntimeSemantics(e.args[1], sizeByType, nullDerefByName))
        case (Some(base), Some(index)) => Some(Offset(OperatorToString(e.op), base, Lookup(sizeByType, e.args[0].rawType), index))
        case _ => None
    else if e.op == DIV || e.op == MOD then
      if |e.args| < 2 then None else
        match (RuntimeSemantics(e.args[0], sizeByType, nullDerefByName), RuntimeSemantics(e.args[1], sizeByType, nullDerefByName))
        case (Some(numerator), Some(denominator)) => Some(ZeroChecked(OperatorToString(e.op), numerator, denominator))
        case _ => None
    else if e.args == [] then
      if e.kind == DEREFERENCE then Some(NullGuarded(Lookup(nullDerefByName, e.repr), e.repr))
      else Some(Name(e.kind, e.repr))
    else if |e.args| == 1 then
      match RuntimeSemantics(e.args[0], sizeByType, nullDerefByName)
      case None => None
      case Some(arg) => Some(Prefix(e.repr, arg))
    else if |e.args| == 2 then
      match (RuntimeSemantics(e.args[0], sizeByType, nullDerefByName), RuntimeSemantics(e.args[1], sizeByType, nullDerefByName))
      case (Some(left), Some(right)) => Some(Infix(e.repr, left, right))
      case _ => None
    else None
  }

  /** What the code sees at run time: the argument arrays, by the text of the access, and the two
      hole variables. */
  datatype Machine = Machine(slots: string -> int, bool2: int, param: int, prims: Primitives)

  /** `current_panic` and the value. */
  datatype Executed = Executed(panic: bool, value: int)

  /** The operators C reads from the emitted text. */
  function InfixOperator(text: string): Operator {
    match BinaryOperatorByString(text, false)
    case Some(op) => op
    case None => NONE
  }

  function PrefixOperator(text: string): Operator {
    match PrefixByString(text)
    case Some(op) => op
    case None => NONE
  }

  /** The right operand of a logical operator runs, and can panic, only if it is needed. */
  function ExecInfix(op: Operator, a: Executed, b: Executed, prims: Primitives): Executed {
    if op == AND && a.value == 0 then Executed(a.panic, 0)
    else if op == OR && a.value != 0 then Executed(a.panic, 1)
    else
      Executed(a.panic || b.panic,
               if op == AND || op == OR then Truth(b.value != 0) else ApplyBinary(op, a.value, b.value, prims))
  }

  function ExecZeroChecked(op: Operator, n: Executed, d: Executed, prims: Primitives): Executed {
    if d.value == 0 then Executed(true, 0) else Executed(d.panic || n.panic, ApplyBinary(op, n.value, d.value, prims))
  }

  /** Pointers are converted to integers, so the offset is plain integer arithmetic. */
  function ExecOffset(op: Operator, p: Executed, size: int, n: Executed): Executed {
    Executed(p.panic || n.panic, if op == SUB then p.value - size * n.value else p.value + size * n.value)
  }

  /** Execution goes on after a panic: the expression that panicked counts as 0. */
  function Exec(code: Code, m: Machine): Executed {
    match code
    case Name(kind, text) =>
      (match kind
       case PARAMETER => Executed(false, m.param)
       case BOOL2 => Executed(false, m.bool2)
       case CONSTANT => Executed(false, ConstantValue(text, m.prims))
       case _ => Executed(false, m.slots(text)))
    case NullGuarded(flag, slot) =>
      if m.slots(flag) != 0 then Executed(true, 0) else Executed(false, m.slots(slot))
    case Prefix(text, arg) =>
      var a := Exec(arg, m);
      Executed(a.panic, ApplyUnary(PrefixOperator(text), a.value, m.prims))
    case Infix(text, left, right) => ExecInfix(InfixOperator(text), Exec(left, m), Exec(right, m), m.prims)
    case ZeroChecked(text, numerator, denominator) =>
      ExecZeroChecked(InfixOperator(text), Exec(numerator, m), Exec(denominator, m), m.prims)
    case Offset(text, base, size, index) => ExecOffset(InfixOperator(text), Exec(base, m), m.slots(size), Exec(index, m))
  }

  /** Renaming and emission, as applied to every candidate. */
  function Emit(e: Expression, layout: Layout): Option<Code> {
    RuntimeSemantics(SubstituteWithRuntimeRepr(e, layout.renaming), layout.sizeByType, layout.nullDerefByName)
  }

  /** The argument arrays hold the state `env`: each component's slot has its value (0 in place of
      a member of NULL), its null flag says whether the base is NULL, and sizes are in place. */
  ghost predicate Represents(
    m: Machine, env: Env, layout: Layout, components: seq<Expression>, pointees: seq<string>)
  {
    && m.prims == env.prims
    && (forall k :: 0 <= k < |components| ==> SlotHolds(m, env, layout, components[k]))
    && (forall t :: t in pointees ==> SizeHolds(m, env, layout.sizeByType, t))
  }

  ghost predicate SizeHolds(m: Machine, env: Env, sizeByType: map<string, string>, t: string) {
    t in sizeByType && m.slots(sizeByType[t]) == env.sizeOf(t)
  }

  ghost predicate SlotHolds(m: Machine, env: Env, layout: Layout, c: Expression) {
    && c.repr in layout.renaming
    && var slot := layout.renaming[c.repr];
       if c.kind == DEREFERENCE then
         && slot in layout.nullDerefByName
         && (m.slots(layout.nullDerefByName[slot]) != 0 <==> env.baseIsNull(c.repr))
         && m.slots(slot) == if env.baseIsNull(c.repr) then 0 else env.values(c.repr)
       else m.slots(slot) == env.values(c.repr)
  }

  /** Emitted code means what the expression means: it panics exactly when the expression would
      crash, and otherwise computes its value. */
  ghost predicate Matches(r: Executed, v: Option<int>) {
    && (r.panic <==> v.None?)
    && (v.Some? ==> r.value == v.value)
  }

  lemma {:induction false} EmittedCodeIsFaithful(
    e: Expression, env: Env, m: Machine, layout: Layout, components: seq<Expression>, pointees: seq<string>)
    requires Compilable(e, components, pointees) && Represents(m, env, layout, components, pointees)
    ensures Faithful(e, env, m, layout)
  {
    if e.args == [] {
      LeafIsFaithful(e, env, m, layout, components, pointees);
    } else {
      EmittedCodeIsFaithful(e.args[0], env, m, layout, components, pointees);
      if |e.args| == 1 {
        UnaryIsFaithful(e, env, m, layout);
      } else {
        EmittedCodeIsFaithful(e.args[1], env, m, layout, components, pointees);
        if IsPointerArithmetic(e.op) {
          OffsetIsFaithful(e, env, m, layout);
        } else if e.op in {DIV, MOD} {
          DivisionIsFaithful(e, env, m, layout);
        } else {
          InfixIsFaithful(e, env, m, layout);
        }
      }
    }
  }

  lemma LeafIsFaithful(
    e: Expression, env: Env, m: Machine, layout: Layout, components: seq<Expression>, pointees: seq<string>)
    requires Compilable(e, components, pointees) && Represents(m, env, layout, components, pointees) && e.args == []
    ensures Faithful(e, env, m, layout)
  {
    if e.kind in {VARIABLE, DEREFERENCE} {
      var k :| 0 <= k < |components| && components[k].repr == e.repr && components[k].kind == e.kind;
      assert SlotHolds(m, env, layout, components[k]);
    }
  }

  /** The two sides of the comparison for one node, abbreviated. */
  ghost predicate Faithful(e: Expression, env: Env, m: Machine, layout: Layout) {
    Emit(e, layout).Some? && Matches(Exec(Emit(e, layout).value, m), EvalWith(e, env, Filling(Some(m.bool2), m.param)))
  }

  lemma EmittedUnary(e: Expression, layout: Layout)
    requires e.kind == OPERATOR && |e.args| == 1 && (IsUnary(e.op) || IsCast(e.op)) && Emit(e.args[0], layout).Some?
    ensures Emit(e, layout) == Some(Prefix(e.repr, Emit(e.args[0], layout).value))
  {
    var renamed := SubstituteWithRuntimeRepr(e, layout.renaming);
    assert renamed.args[0] == SubstituteWithRuntimeRepr(e.args[0], layout.renaming);
  }

  lemma EmittedBinary(e: Expression, layout: Layout)
    requires e.kind == OPERATOR && |e.args| == 2
    requires Emit(e.args[0], layout).Some? && Emit(e.args[1], layout).Some?
    ensures var left, right := Emit(e.args[0], layout).value, Emit(e.args[1], layout).value;
            Emit(e, layout) == Some(
              if IsPointerArithmetic(e.op)
              then Offset(OperatorToString(e.op), left, Lookup(layout.sizeByType, e.args[0].rawType), right)
              else if e.op in {DIV, MOD} then ZeroChecked(OperatorToString(e.op), left, right)
              else Infix(e.repr, left, right))
  {
    var renamed := SubstituteWithRuntimeRepr(e, layout.renaming);
    assert renamed.args[0] == SubstituteWithRuntimeRepr(e.args[0], layout.renaming);
    assert renamed.args[1] == SubstituteWithRuntimeRepr(e.args[1], layout.renaming);
  }

  lemma UnaryIsFaithful(e: Expression, env: Env, m: Machine, layout: Layout)
    requires e.kind == OPERATOR && |e.args| == 1 && (IsUnary(e.op) || IsCast(e.op)) && m.prims == env.prims
    requires e.repr == OperatorToString(e.op)
    requires Faithful(e.args[0], env, m, layout)
    ensures Faithful(e, env, m, layout)
  {
    PrefixText(e.op, Exec(Emit(e.args[0], layout).value, m).value, env.prims);
    EmittedUnary(e, layout);
    hide IsUnary, IsCast, PrefixOperator, OperatorToString, Emit, ApplyUnary;
  }

  lemma InfixText(op: Operator)
    requires IsComparison(op) || IsHomogeneous(op)
    ensures InfixOperator(OperatorToString(op)) == op && !IsPointerArithmetic(op)
  {
    BinaryTextRoundTrip(op);
  }

  lemma OffsetText(op: Operator)
    requires IsPointerArithmetic(op)
    ensures InfixOperator(OperatorToString(op)) == if op == PTR_ADD then ADD else SUB
  {
    var op' := if op == PTR_ADD then ADD else SUB;
    assert OperatorToString(op) == OperatorToString(op');
    BinaryTextRoundTrip(op');
  }

  lemma PrefixText(op: Operator, v: int, prims: Primitives)
    requires IsUnary(op) || IsCast(op)
    ensures ApplyUnary(PrefixOperator(OperatorToString(op)), v, prims) == ApplyUnary(op, v, prims)
  {
    if op == IMPLICIT_BV_CAST { assert OperatorToString(op) == OperatorToString(IMPLICIT_INT_CAST); }
    PrefixTextRoundTrip(if op == IMPLICIT_BV_CAST then IMPLICIT_INT_CAST else op);
  }

  /** A panic of an operand stays visible: what it leaves behind, 0, is not used instead of it. */
  lemma InfixMatches(op: Operator, pointee: string, a: Executed, b: Executed, x: Option<int>, y: Option<int>, env: Env)
    requires op !in {DIV, MOD} && !IsPointerArithmetic(op)
    requires Matches(a, x) && Matches(b, y)
    ensures Matches(ExecInfix(op, a, b, env.prims), EvalBinary(op, pointee, x, y, env))
  {
    hide ApplyBinary;
  }

  lemma EvalOfBinary(e: Expression, env: Env, h: Filling)
    requires |e.args| == 2
    ensures EvalWith(e, env, h) == EvalBinary(e.op, e.args[0].rawType, EvalWith(e.args[0], env, h), EvalWith(e.args[1], env, h), env)
  {
    hide EvalBinary;
  }

  lemma ExecOfBinary(text: string, size: string, left: Code, right: Code, m: Machine)
    ensures Exec(Infix(text, left, right), m) == ExecInfix(InfixOperator(text), Exec(left, m), Exec(right, m), m.prims)
    ensures Exec(Offset(text, left, size, right), m) == ExecOffset(InfixOperator(text), Exec(left, m), m.slots(size), Exec(right, m))
  {
    hide ExecInfix, ExecOffset;
  }

  lemma InfixIsFaithful(e: Expression, env: Env, m: Machine, layout: Layout)
    requires e.kind == OPERATOR && |e.args| == 2 && (IsComparison(e.op) || IsHomogeneous(e.op)) && e.op !in {DIV, MOD}
    requires m.prims == env.prims && e.repr == OperatorToString(e.op)
    requires Faithful(e.args[0], env, m, layout) && Faithful(e.args[1], env, m, layout)
    ensures Faithful(e, env, m, layout)
  {
    InfixText(e.op);
    hide IsComparison, IsHomogeneous, IsPointerArithmetic, InfixOperator, OperatorToString, Emit, Exec, ExecInfix, EvalWith, EvalBinary, Matches;
    EmittedBinary(e, layout);
    ExecOfBinary(e.repr, "", Emit(e.args[0], layout).value, Emit(e.args[1], layout).value, m);
    EvalOfBinary(e, env, Filling(Some(m.bool2), m.param));
    var h := Filling(Some(m.bool2), m.param);
    InfixMatches(e.op, e.args[0].rawType, Exec(Emit(e.args[0], layout).value, m), Exec(Emit(e.args[1], layout).value, m),
                 EvalWith(e.args[0], env, h), EvalWith(e.args[1], env, h), env);
  }

  lemma DivisionIsFaithful(e: Expression, env: Env, m: Machine, layout: Layout)
    requires e.kind == OPERATOR && |e.args| == 2 && e.op in {DIV, MOD} && m.prims == env.prims
    requires Faithful(e.args[0], env, m, layout) && Faithful(e.args[1], env, m, layout)
    ensures Faithful(e, env, m, layout)
  {
    InfixText(e.op);
    hide InfixOperator, OperatorToString, Emit, ApplyBinary;
    EmittedBinary(e, layout);
  }

  lemma OffsetMatches(op: Operator, pointee: string, a: Executed, b: Executed, x: Option<int>, y: Option<int>, env: Env)
    requires IsPointerArithmetic(op) && Matches(a, x) && Matches(b, y)
    ensures Matches(ExecOffset(if op == PTR_ADD then ADD else SUB, a, env.sizeOf(pointee), b), EvalBinary(op, pointee, x, y, env))
  {
    hide ApplyBinary;
  }

  lemma OffsetIsFaithful(e: Expression, env: Env, m: Machine, layout: Layout)
    requires e.kind == OPERATOR && |e.args| == 2 && IsPointerArithmetic(e.op)
    requires SizeHolds(m, env, layout.sizeByType, e.args[0].rawType)
    requires Faithful(e.args[0], env, m, layout) && Faithful(e.args[1], env, m, layout)
    ensures Faithful(e, env, m, layout)
  {
    OffsetText(e.op);
    hide IsPointerArithmetic, InfixOperator, OperatorToString, Emit, Exec, ExecOffset, EvalWith, EvalBinary, Matches;
    EmittedBinary(e, layout);
    ExecOfBinary(OperatorToString(e.op), Lookup(layout.sizeByType, e.args[0].rawType),
                 Emit(e.args[0], layout).value, Emit(e.args[1], layout).value, m);
    EvalOfBinary(e, env, Filling(Some(m.bool2), m.param));
    var h := Filling(Some(m.bool2), m.param);
    OffsetMatches(e.op, e.args[0].rawType, Exec(Emit(e.args[0], layout).value, m), Exec(Emit(e.args[1], layout).value, m),
                  EvalWith(e.args[0], env, h), EvalWith(e.args[1], env, h), env);
  }
}
