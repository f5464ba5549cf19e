/** Expression constructors (repair/Util.cpp:76-81, 175-335, repair/Synthesis.cpp:44-74)
    and the decimal notation they rely on. */
module Expressions {
  import opened Core

  // ----- Decimal notation -----

  function Digit(d: nat): (c: char)
    requires d < 10
  {
    "0123456789"[d]
  }

  function Decimal(n: nat): string {
    if n < 10 then [Digit(n)] else Decimal(n / 10) + [Digit(n % 10)]
  }

  predicate IsDigit(c: char) { '0' <= c <= '9' }

  predicate IsDecimal(s: string) {
    && s != []
    && (forall k :: 0 <= k < |s| ==> IsDigit(s[k]))
    && (|s| > 1 ==> s[0] != '0')
  }

  function DecimalValue(s: string): nat
    requires forall k :: 0 <= k < |s| ==> IsDigit(s[k])
  {
    if s == [] then 0 else
      assert IsDigit(s[|s| - 1]);
      DecimalValue(s[..|s| - 1]) * 10 + (s[|s| - 1] - '0') as nat
  }

  /** Reading what was printed gives the number back. */
  lemma {:induction false} DecimalRoundTrip(n: nat)
    ensures IsDecimal(Decimal(n)) && DecimalValue(Decimal(n)) == n
    ensures n > 0 ==> Decimal(n)[0] != '0'
  {
    if n < 10 {
      assert Decimal(n)[..0] == [];
    } else {
      DecimalRoundTrip(n / 10);
      var s := Decimal(n);
      assert s[..|s| - 1] == Decimal(n / 10);
      assert s[0] == Decimal(n / 10)[0];
      assert forall k :: 0 <= k < |s| - 1 ==> s[k] == Decimal(n / 10)[k];
    }
  }

  lemma DecimalIsInjective(m: nat, n: nat)
    requires Decimal(m) == Decimal(n)
    ensures m == n
  {
    DecimalRoundTrip(m);
    DecimalRoundTrip(n);
  }

  // ----- Nodes -----

  const DEFAULT_BOOLEAN_TYPE := "int"
  const EXPLICIT_INT_CAST_TYPE := "long"
  const EXPLICIT_UNSIGNED_CAST_TYPE := "unsigned"
  const EXPLICIT_BV_CAST_TYPE := "unsigned long"
  const EXPLICIT_PTR_CAST_TYPE := "void"

  const TRUE_NODE := Expression(CONSTANT, BOOLEAN, NONE, "int", "1", [])
  const FALSE_NODE := Expression(CONSTANT, BOOLEAN, NONE, "int", "0", [])
  const NULL_NODE := Expression(CONSTANT, PTR, NONE, "void", "(void*)0", [])
  const PARAMETER_NODE := Expression(PARAMETER, INTEGER, NONE, "unsigned long", "param_value", [])
  const BOOL2_NODE := Expression(BOOL2, BOOLEAN, NONE, DEFAULT_BOOLEAN_TYPE, "bool2_value", [])

  predicate IsAbstractNode(kind: NodeKind) {
    kind == PARAMETER || kind == INT2 || kind == BOOL2 || kind == COND3
  }

  function OperatorToString(op: Operator): string {
    match op
    case NONE => ""
    case EQ => "=="
    case NEQ => "!="
    case LT => "<"
    case LE => "<="
    case GT => ">"
    case GE => ">="
    case OR => "||"
    case AND => "&&"
    case ADD => "+"
    case SUB => "-"
    case MUL => "*"
    case DIV => "/"
    case MOD => "%"
    case NEG => "-"
    case NOT => "!"
    case BV_AND => "&"
    case BV_OR => "|"
    case BV_XOR => "^"
    case BV_SHL => "<<"
    case BV_SHR => ">>"
    case BV_NOT => "~"
    case PTR_ADD => "+"
    case PTR_SUB => "-"
    case IMPLICIT_BV_CAST => ""
    case IMPLICIT_INT_CAST => ""
    case EXPLICIT_BV_CAST => "(" + EXPLICIT_BV_CAST_TYPE + ")"
    case EXPLICIT_INT_CAST => "(" + EXPLICIT_INT_CAST_TYPE + ")"
    case EXPLICIT_PTR_CAST => "(" + EXPLICIT_PTR_CAST_TYPE + "*)"
    case EXPLICIT_UNSIGNED_CAST => "(" + EXPLICIT_UNSIGNED_CAST_TYPE + ")"
  }

  function BinaryOperatorByString(text: string, pointers: bool): Option<Operator> {
    if text == "==" then Some(EQ)
    else if text == "!=" then Some(NEQ)
    else if text == "<" then Some(LT)
    else if text == "<=" then Some(LE)
    else if text == ">" then Some(GT)
    else if text == ">=" then Some(GE)
    else if text == "||" then Some(OR)
    else if text == "&&" then Some(AND)
    else if text == "+" then Some(if pointers then PTR_ADD else ADD)
    else if text == "-" then Some(if pointers then PTR_SUB else SUB)
    else if text == "*" then Some(MUL)
    else if text == "/" then Some(DIV)
    else if text == "%" then Some(MOD)
    else if text == "&" then Some(BV_AND)
    else if text == "|" then Some(BV_OR)
    else if text == "^" then Some(BV_XOR)
    else if text == "<<" then Some(BV_SHL)
    else if text == ">>" then Some(BV_SHR)
    else None
  }

  function UnaryOperatorByString(text: string): Option<Operator> {
    if text == "-" then Some(NEG)
    else if text == "!" then Some(NOT)
    else if text == "~" then Some(BV_NOT)
    else None
  }

  /** What C makes of the text in front of an operand; no text at all is an implicit cast. */
  function PrefixByString(text: string): Option<Operator> {
    if text == "" then Some(IMPLICIT_INT_CAST)
    else if text == OperatorToString(EXPLICIT_BV_CAST) then Some(EXPLICIT_BV_CAST)
    else if text == OperatorToString(EXPLICIT_INT_CAST) then Some(EXPLICIT_INT_CAST)
    else if text == OperatorToString(EXPLICIT_PTR_CAST) then Some(EXPLICIT_PTR_CAST)
    else if text == OperatorToString(EXPLICIT_UNSIGNED_CAST) then Some(EXPLICIT_UNSIGNED_CAST)
    else UnaryOperatorByString(text)
  }

  predicate IsBinaryOperator(op: Operator) {
    op !in {NONE, NEG, NOT, BV_NOT, IMPLICIT_BV_CAST, IMPLICIT_INT_CAST, EXPLICIT_BV_CAST, EXPLICIT_INT_CAST,
            EXPLICIT_PTR_CAST, EXPLICIT_UNSIGNED_CAST}
  }

  /** The text of an operator, with its arity and the type of its result, determines it. */
  lemma BinaryTextRoundTrip(op: Operator)
    requires IsBinaryOperator(op)
    ensures BinaryOperatorByString(OperatorToString(op), op in {PTR_ADD, PTR_SUB}) == Some(op)
  {
    var text := OperatorToString(op);
    assert |text| == 1 || |text| == 2;
    if |text| == 1 {
      assert text == [text[0]];
    } else {
      assert text == [text[0], text[1]];
    }
  }

  lemma PrefixTextRoundTrip(op: Operator)
    requires op != NONE && !IsBinaryOperator(op) && op != IMPLICIT_BV_CAST
    ensures PrefixByString(OperatorToString(op)) == Some(op)
  {
    assert OperatorToString(EXPLICIT_BV_CAST)[1] == 'u' && OperatorToString(EXPLICIT_INT_CAST)[1] == 'l';
    assert OperatorToString(EXPLICIT_PTR_CAST)[1] == 'v' && OperatorToString(EXPLICIT_UNSIGNED_CAST)[1] == 'u';
    assert |OperatorToString(EXPLICIT_BV_CAST)| == 15 && |OperatorToString(EXPLICIT_UNSIGNED_CAST)| == 10;
  }

  function MakeIntegerConst(n: nat): Expression {
    Expression(CONSTANT, INTEGER, NONE, "int", Decimal(n), [])
  }

  function Wrap(ty: Type, op: Operator, rawType: string, e: Expression): Expression {
    Expression(OPERATOR, ty, op, rawType, OperatorToString(op), [e])
  }

  function WrapWithImplicitIntCast(e: Expression): Expression { Wrap(INTEGER, IMPLICIT_INT_CAST, e.rawType, e) }

  function WrapWithImplicitBVCast(e: Expression): Expression { Wrap(BITVECTOR, IMPLICIT_BV_CAST, e.rawType, e) }

  function WrapWithExplicitIntCast(e: Expression): Expression {
    Wrap(INTEGER, EXPLICIT_INT_CAST, EXPLICIT_INT_CAST_TYPE, e)
  }

  function WrapWithExplicitBVCast(e: Expression): Expression {
    Wrap(BITVECTOR, EXPLICIT_BV_CAST, EXPLICIT_BV_CAST_TYPE, e)
  }

  function WrapWithExplicitPtrCast(e: Expression): Expression {
    Wrap(PTR, EXPLICIT_PTR_CAST, EXPLICIT_PTR_CAST_TYPE, e)
  }

  function WrapWithExplicitUnsignedCast(e: Expression): Expression {
    Wrap(INTEGER, EXPLICIT_UNSIGNED_CAST, EXPLICIT_UNSIGNED_CAST_TYPE, e)
  }

  function ApplyBoolOperator(op: Operator, left: Expression, right: Expression): Expression {
    Expression(OPERATOR, BOOLEAN, op, DEFAULT_BOOLEAN_TYPE, OperatorToString(op), [left, right])
  }

  function MakeNonNULLCheck(pointer: Expression): Expression { ApplyBoolOperator(NEQ, pointer, NULL_NODE) }

  function MakeNULLCheck(pointer: Expression): Expression { ApplyBoolOperator(EQ, pointer, NULL_NODE) }

  /** Compares with `==`, as the code does. */
  function MakeNonZeroCheck(e: Expression): Expression { ApplyBoolOperator(EQ, e, MakeIntegerConst(0)) }
}
