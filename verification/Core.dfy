/** The shared vocabulary of the repair tool (repair/Core.h): patch identifiers,
    expressions, schema applications and candidate patches.
    All of these are values: nothing in the tool updates them once built. */
module Core {

  /** Identifies one candidate patch. `base` 0 is reserved for the array terminators,
      `bool2` 0 means the hole is disabled. */
  datatype PatchID = PatchID(base: nat, int2: nat, bool2: nat, cond3: nat, param: nat)

  type AppID = nat

  datatype TestStatus = PASS | FAIL | TIMEOUT

  datatype NodeKind =
    | OPERATOR | VARIABLE | CONSTANT | DEREFERENCE
    | PARAMETER | INT2 | BOOL2 | COND3

  datatype Type = ANY | BOOLEAN | INTEGER | PTR | BITVECTOR

  datatype Operator =
    | NONE
    | EQ | NEQ | LT | LE | GT | GE | OR | AND | ADD | SUB | MUL | DIV | MOD | NEG | NOT
    | BV_AND | BV_XOR | BV_OR | BV_SHL | BV_SHR | BV_NOT
    | PTR_ADD | PTR_SUB
    | IMPLICIT_BV_CAST | IMPLICIT_INT_CAST
    | EXPLICIT_BV_CAST | EXPLICIT_INT_CAST | EXPLICIT_PTR_CAST | EXPLICIT_UNSIGNED_CAST

  datatype Expression = Expression(
    kind: NodeKind, ty: Type, op: Operator, rawType: string, repr: string, args: seq<Expression>)

  datatype Location = Location(fileId: nat, beginLine: nat, beginColumn: nat, endLine: nat, endColumn: nat)

  datatype TransformationSchema = EXPRESSION | IF_GUARD | LOOSENING_SCHEMA | TIGHTENING_SCHEMA | INITIALIZATION

  datatype SynthesisRule =
    | REPLACE_OPERATOR | SWAPING | SIMPLIFICATION | GENERALIZATION | CONCRETIZATION
    | LOOSENING | TIGHTENING | NEGATION | NULL_CHECK | SUBSTITUTION | UNSIGNED_CAST

  datatype LocationContext = CONDITION | UNKNOWN

  datatype SchemaApplication = SchemaApplication(
    id: AppID,
    schema: TransformationSchema,
    location: Location,
    context: LocationContext,
    original: Expression,
    components: seq<Expression>,
    completePointeeTypes: seq<string>)

  datatype PatchMetadata = PatchMetadata(rule: SynthesisRule, distance: nat)

  datatype Patch = Patch(id: PatchID, app: SchemaApplication, modified: Expression, meta: PatchMetadata)

  datatype Option<+T> = None | Some(value: T)
}
