/** The meaning of an expression in the patched program, over mathematical integers. Pointers are
    integers too, NULL being 0. */
module Semantics {
  import opened Core
  import opened Expressions
  import opened Typing

  /** Everything C leaves to the machine or to the text of the program: literals that are not
      plain decimals, bitwise operators and casts. The results hold whatever these are. */
  datatype Primitives = Primitives(
    literal: string -> int,
    bits: (Operator, int, int) -> int,
    bitNot: int -> int,
    cast: (Operator, int) -> int)

  /** The state of the program when it reaches the location: the value of each variable or member
      access, by its text, whether the base of a member access is NULL, and the pointee sizes. */
  datatype Env = Env(
    values: string -> int,
    baseIsNull: string -> bool,
    sizeOf: string -> int,
    prims: Primitives)

  function Truth(b: bool): int { if b then 1 else 0 }

  /** Division truncates toward zero. */
  function Quotient(a: int, b: int): int
    requires b != 0
  {
    var q := (if a < 0 then -a else a) / (if b < 0 then -b else b);
    if (a < 0) != (b < 0) then -q else q
  }

  function Remainder(a: int, b: int): int
    requires b != 0
  {
    a - b * Quotient(a, b)
  }

  function ConstantValue(text: string, prims: Primitives): int {
    if IsDecimal(text) then DecimalValue(text)
    else if text == NULL_NODE.repr then 0
    else prims.literal(text)
  }

  function ApplyUnary(op: Operator, v: int, prims: Primitives): int {
    match op
    case NEG => -v
    case NOT => Truth(v == 0)
    case BV_NOT => prims.bitNot(v)
    case IMPLICIT_BV_CAST | IMPLICIT_INT_CAST => v
    case _ => prims.cast(op, v)
  }

  /** Operators that evaluate both operands; a zero divisor is the caller's concern. */
  function ApplyBinary(op: Operator, a: int, b: int, prims: Primitives): int {
    match op
    case EQ => Truth(a == b)
    case NEQ => Truth(a != b)
    case LT => Truth(a < b)
    case LE => Truth(a <= b)
    case GT => Truth(a > b)
    case GE => Truth(a >= b)
    case ADD => a + b
    case SUB => a - b
    case MUL => a * b
    case DIV => if b == 0 then 0 else Quotient(a, b)
    case MOD => if b == 0 then 0 else Remainder(a, b)
    case _ => prims.bits(op, a, b)
  }

  function PointerOffset(op: Operator, p: int, size: int, n: int): int {
    if op == PTR_SUB then p - size * n else p + size * n
  }

  /** Values for the holes; None means that computing the value crashed. */
  datatype Filling = Filling(bool2: Option<int>, param: int)

  function EvalUnary(op: Operator, arg: Option<int>, env: Env): Option<int> {
    match arg
    case None => None
    case Some(v) => Some(ApplyUnary(op, v, env.prims))
  }

  /** The right operand counts only where C evaluates it. */
  function EvalBinary(op: Operator, pointee: string, left: Option<int>, right: Option<int>, env: Env): Option<int> {
    match left
    case None => None
    case Some(a) =>
      if op == AND && a == 0 then Some(0)
      else if op == OR && a != 0 then Some(1)
      else
        match right
        case None => None
        case Some(b) =>
          if op == AND || op == OR then Some(Truth(b != 0))
          else if (op == DIV || op == MOD) && b == 0 then None
          else if IsPointerArithmetic(op) then Some(PointerOffset(op, a, env.sizeOf(pointee), b))
          else Some(ApplyBinary(op, a, b, env.prims))
  }

  /** None is a crash: division by zero or dereferencing NULL. */
  function EvalWith(e: Expression, env: Env, h: Filling): Option<int> {
    if e.args == [] then
      match e.kind
      case VARIABLE => Some(env.values(e.repr))
      case DEREFERENCE => if env.baseIsNull(e.repr) then None else Some(env.values(e.repr))
      case CONSTANT => Some(ConstantValue(e.repr, env.prims))
      case PARAMETER => Some(h.param)
      case BOOL2 => h.bool2
      case _ => None
    else if |e.args| == 1 then EvalUnary(e.op, EvalWith(e.args[0], env, h), env)
    else if |e.args| == 2 then
      EvalBinary(e.op, e.args[0].rawType, EvalWith(e.args[0], env, h), EvalWith(e.args[1], env, h), env)
    else None
  }

  /** A concrete expression has no holes to fill. */
  function Eval(e: Expression, env: Env): Option<int> {
    EvalWith(e, env, Filling(None, 0))
  }

  // ----- Type correction and meaning -----

  /** Where correction into a Boolean context inserts the comparison with zero. */
  predicate GetsZeroComparison(e: Expression) {
    && e.ty != BOOLEAN && e.ty != PTR
    && !(e.ty == INTEGER && e.kind == CONSTANT && e.repr in {"0", "1"})
  }

  /** Correction of a node into a Boolean context keeps its truth value exactly when it does not
      insert the comparison with zero: that one uses `==` and inverts the condition. */
  lemma BooleanContextKeepsTruthIff(e: Expression, env: Env)
    requires Eval(e, env).Some?
    requires e.kind == CONSTANT ==> e.args == []
    ensures var r := Eval(CorrectTopNode(e, BOOLEAN), env);
            r.Some? && ((r.value != 0 <==> Eval(e, env).value != 0) <==> !GetsZeroComparison(e))
  {
    ConstantsMeanThemselves(env);
    if e.ty == BOOLEAN {
    } else if e.ty == PTR {
      BinaryValue(NEQ, e, NULL_NODE, env);
    } else if GetsZeroComparison(e) {
      BinaryValue(EQ, e, MakeIntegerConst(0), env);
    }
  }

  lemma ConstantsMeanThemselves(env: Env)
    ensures Eval(FALSE_NODE, env) == Some(0) && Eval(TRUE_NODE, env) == Some(1) && Eval(NULL_NODE, env) == Some(0)
    ensures forall n: nat :: Eval(MakeIntegerConst(n), env) == Some(n)
    ensures ConstantValue("0", env.prims) == 0 && ConstantValue("1", env.prims) == 1
  {
    DecimalRoundTrip(0);
    DecimalRoundTrip(1);
    assert Decimal(1) == "1" && Decimal(0) == "0";
    forall n: nat ensures Eval(MakeIntegerConst(n), env) == Some(n) { DecimalRoundTrip(n); }
    assert !IsDigit(NULL_NODE.repr[0]);
  }

  lemma BinaryValue(op: Operator, left: Expression, right: Expression, env: Env)
    requires op == EQ || op == NEQ
    requires Eval(left, env).Some? && Eval(right, env).Some?
    ensures Eval(ApplyBoolOperator(op, left, right), env) ==
            Some(ApplyBinary(op, Eval(left, env).value, Eval(right, env).value, env.prims))
  {
    var e := ApplyBoolOperator(op, left, right);
    assert e.args[0] == left && e.args[1] == right;
  }

  // ----- What the operators mean -----

  /** The text of a comparison names the outcomes it holds for: less, greater, equal, or with `!` not equal. */
  lemma ComparisonMeans(op: Operator, a: int, b: int, prims: Primitives)
    requires IsComparison(op)
    ensures var text := OperatorToString(op);
            ApplyBinary(op, a, b, prims) ==
            if '!' in text then (if a != b then 1 else 0)
            else if ('<' in text && a < b) || ('>' in text && b < a) || ('=' in text && a == b) then 1 else 0
  {
    ComparisonText(op);
  }

  lemma ComparisonText(op: Operator)
    requires IsComparison(op)
    ensures var text := OperatorToString(op);
            && ('<' in text <==> op in {LT, LE}) && ('>' in text <==> op in {GT, GE})
            && ('!' in text <==> op == NEQ) && ('=' in text <==> op !in {LT, GT})
  {
    var text := OperatorToString(op);
    assert text == [text[0]] || text == [text[0], text[1]];
  }

  /** The other operators by their texts. */
  lemma OperatorText(op: Operator)
    ensures OperatorToString(op) == "||" <==> op == OR
    ensures OperatorToString(op) == "&&" <==> op == AND
    ensures OperatorToString(op) == "+" <==> op in {ADD, PTR_ADD}
    ensures OperatorToString(op) == "-" <==> op in {SUB, PTR_SUB, NEG}
    ensures OperatorToString(op) == "*" <==> op == MUL
    ensures OperatorToString(op) == "/" <==> op == DIV
    ensures OperatorToString(op) == "%" <==> op == MOD
    ensures OperatorToString(op) == "!" <==> op == NOT
  {
    CastText(op);
  }

  lemma BitText(op: Operator)
    ensures OperatorToString(op) == "&" <==> op == BV_AND
    ensures OperatorToString(op) == "|" <==> op == BV_OR
    ensures OperatorToString(op) == "^" <==> op == BV_XOR
    ensures OperatorToString(op) == "<<" <==> op == BV_SHL
    ensures OperatorToString(op) == ">>" <==> op == BV_SHR
    ensures OperatorToString(op) == "~" <==> op == BV_NOT
  {
    CastText(op);
  }

  lemma CastText(op: Operator)
    ensures IsCast(op) ==> OperatorToString(op) == (match op
      case EXPLICIT_BV_CAST => "(unsigned long)" case EXPLICIT_INT_CAST => "(long)"
      case EXPLICIT_PTR_CAST => "(void*)" case EXPLICIT_UNSIGNED_CAST => "(unsigned)" case _ => "")
  {
  }

  /** Addition, subtraction and multiplication are those of the integers: each undoes or repeats the one before. */
  lemma ArithmeticMeans(a: int, b: int, prims: Primitives)
    ensures ApplyBinary(ADD, a, 0, prims) == a && ApplyBinary(ADD, a, b + 1, prims) == ApplyBinary(ADD, a, b, prims) + 1
    ensures ApplyBinary(ADD, ApplyBinary(SUB, a, b, prims), b, prims) == a
    ensures ApplyBinary(MUL, a, 0, prims) == 0
    ensures ApplyBinary(MUL, a, b + 1, prims) == ApplyBinary(ADD, ApplyBinary(MUL, a, b, prims), a, prims)
    ensures ApplyBinary(ADD, ApplyUnary(NEG, a, prims), a, prims) == 0
  {
  }

  /** Quotient and remainder are the one pair whose remainder is smaller than the divisor and not of
      the other sign than the dividend. */
  lemma DivisionMeans(a: int, b: int, q: int, r: int, prims: Primitives)
    requires b != 0
    ensures q == ApplyBinary(DIV, a, b, prims) && r == ApplyBinary(MOD, a, b, prims) <==>
            IsTruncated(a, b, q, r)
  {
    TruncatedDivision(a, b);
    if IsTruncated(a, b, q, r) { OneTruncatedDivision(a, b, q, r, Quotient(a, b), Remainder(a, b)); }
    hide Quotient, Remainder;
  }

  predicate IsTruncated(a: int, b: int, q: int, r: int) {
    && a == q * b + r && (if b < 0 then b else -b) < r < (if b < 0 then -b else b)
    && (a >= 0 ==> r >= 0) && (a <= 0 ==> r <= 0)
  }

  lemma QuotientTimes(a: int, b: int)
    requires b != 0
    ensures var m, n := if a < 0 then -a else a, if b < 0 then -b else b;
            Quotient(a, b) * b == b * Quotient(a, b) == if a < 0 then -(n * (m / n)) else n * (m / n)
  {
    var m, n := if a < 0 then -a else a, if b < 0 then -b else b;
    var k := m / n;
    if b < 0 { assert b * k == -(n * k) && b * -k == n * k; } else { assert b * -k == -(n * k); }
  }

  lemma TruncatedDivision(a: int, b: int)
    requires b != 0
    ensures IsTruncated(a, b, Quotient(a, b), Remainder(a, b))
  {
    QuotientTimes(a, b);
    var m, n := if a < 0 then -a else a, if b < 0 then -b else b;
    hide Quotient;
    assert m == n * (m / n) + m % n;
  }

  lemma OneTruncatedDivision(a: int, b: int, q: int, r: int, q': int, r': int)
    requires b != 0 && IsTruncated(a, b, q, r) && IsTruncated(a, b, q', r')
    ensures q == q' && r == r'
  {
    assert q * b - q' * b == (q - q') * b && q' * b - q * b == (q' - q) * b;
    if q > q' { MultipleIsLarge(q - q', b); }
    if q < q' { MultipleIsLarge(q' - q, b); }
  }

  lemma MultipleIsLarge(k: int, b: int)
    requires k >= 1
    ensures b >= 0 ==> k * b >= b
    ensures b <= 0 ==> k * b <= b
  {
  }

  /** What C makes of `&&`, `||` and `!`: the right operand counts only if the left one leaves the outcome open. */
  lemma ConnectivesMean(pointee: string, x: Option<int>, y: Option<int>, env: Env)
    ensures EvalBinary(AND, pointee, x, y, env) == Some(1) <==> x.Some? && y.Some? && x.value != 0 && y.value != 0
    ensures EvalBinary(AND, pointee, x, y, env) == Some(0) <==> x == Some(0) || (x.Some? && y == Some(0))
    ensures EvalBinary(AND, pointee, x, y, env).None? <==> x.None? || (x != Some(0) && y.None?)
    ensures EvalUnary(NOT, EvalBinary(OR, pointee, x, y, env), env) ==
            EvalBinary(AND, pointee, EvalUnary(NOT, x, env), EvalUnary(NOT, y, env), env)
    ensures EvalBinary(OR, pointee, x, y, env) in {None, Some(0), Some(1)}
    ensures x.None? ==> EvalUnary(NOT, x, env).None?
    ensures x.Some? ==> EvalUnary(NOT, x, env) == Some(if x.value == 0 then 1 else 0)
  {
  }

  /** Division by zero crashes, and nothing else does that has operands. */
  lemma OperatorCrashes(op: Operator, pointee: string, a: int, b: int, env: Env)
    ensures EvalBinary(op, pointee, Some(a), Some(b), env).None? <==> op in {DIV, MOD} && b == 0
  {
  }

  /** A pointer moves by the size of its pointee for each step, and back. */
  lemma PointersMove(p: int, size: int, n: int)
    ensures PointerOffset(PTR_ADD, p, size, 0) == p
    ensures PointerOffset(PTR_ADD, p, size, n + 1) == PointerOffset(PTR_ADD, p, size, n) + size
    ensures PointerOffset(PTR_SUB, PointerOffset(PTR_ADD, p, size, n), size, n) == p
  {
  }

  /** One of the nodes of an expression. */
  predicate IsPart(part: Expression, e: Expression) {
    part == e || exists k :: 0 <= k < |e.args| && IsPart(part, e.args[k])
  }

  /** A member of NULL, a division by zero, a Boolean hole whose expression crashed, or a node that has no meaning. */
  predicate Crashes(part: Expression, env: Env, h: Filling) {
    || (part.args == [] && part.kind == DEREFERENCE && env.baseIsNull(part.repr))
    || (|part.args| == 2 && part.op in {DIV, MOD} && EvalWith(part.args[1], env, h) == Some(0))
    || (part.args == [] && part.kind == BOOL2 && h.bool2.None?)
    || (part.args == [] && part.kind in {OPERATOR, INT2, COND3}) || |part.args| > 2
  }

  /** An expression crashes only for one of these reasons, at one of its nodes. */
  lemma {:induction false} CrashHasCause(e: Expression, env: Env, h: Filling) returns (part: Expression)
    requires EvalWith(e, env, h).None?
    ensures IsPart(part, e) && Crashes(part, env, h)
  {
    part := e;
    if 1 <= |e.args| <= 2 && !Crashes(e, env, h) {
      var k := if EvalWith(e.args[0], env, h).None? then 0 else 1;
      if k == 1 { RightCrashes(e, env, h); }
      part := CrashHasCause(e.args[k], env, h);
    }
  }

  lemma RightCrashes(e: Expression, env: Env, h: Filling)
    requires 1 <= |e.args| <= 2 && EvalWith(e, env, h).None? && EvalWith(e.args[0], env, h).Some? && !Crashes(e, env, h)
    ensures |e.args| == 2 && EvalWith(e.args[1], env, h).None?
  {
  }

  /** Without a cause at hand a leaf has the value the program gives it. */
  lemma LeafMeans(e: Expression, env: Env, h: Filling)
    requires e.args == [] && !Crashes(e, env, h)
    ensures e.kind in {VARIABLE, DEREFERENCE} ==> EvalWith(e, env, h) == Some(env.values(e.repr))
    ensures e.kind == PARAMETER ==> EvalWith(e, env, h) == Some(h.param)
    ensures e.kind == BOOL2 ==> EvalWith(e, env, h) == h.bool2
  {
  }
}
