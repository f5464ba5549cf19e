/** In which order the edits of an expression are listed (repair/Synthesis.cpp:275-413). Patches of equal
    cost are tried in the order in which they were generated, so the order decides what is delivered. */
module EnumerationOrder {
  import opened Core
  import opened Expressions
  import opened Typing
  import opened Synthesis

  // ----- Keys -----

  /** Where an edit is made and what it is: a number for each choice, from the root on. */
  type Key = seq<nat>

  /** The order of dictionaries. */
  predicate Less(a: Key, b: Key) {
    b != [] && (a == [] || a[0] < b[0] || (a[0] == b[0] && Less(a[1..], b[1..])))
  }

  predicate Increasing(keys: seq<Key>) {
    forall i, j :: 0 <= i < j < |keys| ==> Less(keys[i], keys[j])
  }

  /** The operators that are ever put in the place of another one, in the order in which they are tried. */
  function OperatorWith(n: nat): Operator {
    match n
    case 0 => EQ case 1 => NEQ case 2 => LT case 3 => LE case 4 => GT case 5 => GE
    case 6 => OR case 7 => AND
    case 8 => ADD case 9 => SUB case 10 => MUL
    case 11 => BV_AND case 12 => BV_OR case 13 => BV_XOR case 14 => BV_SHL case 15 => BV_SHR
    case 16 => PTR_ADD case 17 => PTR_SUB
    case _ => NONE
  }

  /** What takes the place of a leaf: component `i` of its type, and then a parameter or NULL. */
  function LeafEditAt(e: Expression, components: seq<Expression>, key: Key): Option<Modification>
    requires |key| > 0
  {
    if e.kind !in {CONSTANT, VARIABLE, DEREFERENCE} || (e.ty != INTEGER && (e.ty != PTR || e.kind == CONSTANT)) then None
    else if |key| == 2 && key[0] == 1 && key[1] < |components| then
      var c := components[key[1]];
      if c.ty == e.ty && (e.ty == PTR ==> c.rawType == e.rawType)
      then Some(Modification(c, PatchMetadata(if e.kind == CONSTANT then GENERALIZATION else SUBSTITUTION, 1)))
      else None
    else if key == [2] then
      Some(Modification(if e.ty == PTR then NULL_NODE else PARAMETER_NODE,
                        PatchMetadata(if e.kind == CONSTANT then SUBSTITUTION else CONCRETIZATION, 1)))
    else None
  }

  /** The edit of an operator node: another operator, an edit of an operand, a cast, or an operand in
      its place. */
  function OperatorEditAt(e: Expression, components: seq<Expression>, key: Key): Option<Modification>
    requires |key| > 0 && 1 <= |e.args| <= 2
    decreases |key|, 0
  {
    if |key| == 2 && key[0] == 3 then
      var op := OperatorWith(key[1]);
      if Interchangeable(e.args[0].ty == PTR, e.op, op)
      then Some(Modification(WithOperator(e, op), PatchMetadata(REPLACE_OPERATOR, 1))) else None
    else if key[0] == 4 && !(|e.args| == 2 && IsPointerArithmetic(e.op)) then In(e, 0, EditAt(e.args[0], components, key[1..]))
    else if key[0] == 5 && |e.args| == 2 then In(e, 1, EditAt(e.args[1], components, key[1..]))
    else if (key == [6] || key == [7]) && |e.args| == 2 && e.args[key[0] - 6].ty == INTEGER then
      In(e, key[0] - 6, Some(Modification(WrapWithExplicitUnsignedCast(e.args[key[0] - 6]), PatchMetadata(UNSIGNED_CAST, 1))))
    else if key == [8] && IsSimplifiable(e) then
      Some(Modification(e.args[0], PatchMetadata(SIMPLIFICATION, if |e.args| == 1 then 1 else ExpressionDepth(e.args[1]))))
    else if key == [9] && |e.args| == 2 && IsSimplifiable(e) then
      Some(Modification(e.args[1], PatchMetadata(SIMPLIFICATION, ExpressionDepth(e.args[0]))))
    else None
  }

  function In(e: Expression, k: nat, x: Option<Modification>): Option<Modification>
    requires k < |e.args|
  {
    match x
    case None => None
    case Some(m) => Some(Modification(e.(args := e.args[k := m.expr]), m.meta))
  }

  /** The edit with this key, if there is one: first of all, a Boolean gives way to the hole. */
  function EditAt(e: Expression, components: seq<Expression>, key: Key): Option<Modification>
    decreases |key|, 1
  {
    if key == [] || |e.args| > 2 then None
    else if key[0] == 0 then
      if key == [0] && e.ty == BOOLEAN
      then Some(Modification(BOOL2_NODE, PatchMetadata(SUBSTITUTION, ExpressionDepth(e) + 1))) else None
    else if e.args == [] then LeafEditAt(e, components, key)
    else OperatorEditAt(e, components, key)
  }

  // ----- Lists in order -----

  /** `list` has exactly the edits whose keys start with a number from `low` to below `high`, in order. */
  ghost predicate Covers(
    e: Expression, components: seq<Expression>, low: nat, high: nat, list: seq<Modification>, keys: seq<Key>)
  {
    && |keys| == |list| && Increasing(keys)
    && (forall i :: 0 <= i < |keys| ==> keys[i] != [] && low <= keys[i][0] < high && EditAt(e, components, keys[i]) == Some(list[i]))
    && (forall key: Key :: key != [] && low <= key[0] < high && EditAt(e, components, key).Some? ==> key in keys)
  }

  lemma Joined(
    e: Expression, components: seq<Expression>, low: nat, mid: nat, high: nat,
    a: seq<Modification>, ka: seq<Key>, b: seq<Modification>, kb: seq<Key>)
    requires low <= mid <= high && Covers(e, components, low, mid, a, ka) && Covers(e, components, mid, high, b, kb)
    ensures Covers(e, components, low, high, a + b, ka + kb)
  {
    hide EditAt;
    var keys := ka + kb;
    forall i, j | 0 <= i < j < |keys| ensures Less(keys[i], keys[j]) {
      if i < |ka| <= j {
        assert keys[i] == ka[i] && keys[j] == kb[j - |ka|];
      } else if i >= |ka| {
        assert keys[i] == kb[i - |ka|] && keys[j] == kb[j - |ka|];
      }
    }
  }

  /** Where there is no edit nothing is listed. */
  lemma NothingCovered(e: Expression, components: seq<Expression>, low: nat, high: nat)
    requires forall key: Key :: key != [] && low <= key[0] < high ==> EditAt(e, components, key).None?
    ensures Covers(e, components, low, high, [], [])
  {
  }

  lemma OneCovered(e: Expression, components: seq<Expression>, n: nat, x: Modification)
    requires EditAt(e, components, [n]) == Some(x)
    requires forall key: Key :: |key| > 1 && key[0] == n ==> EditAt(e, components, key).None?
    ensures Covers(e, components, n, n + 1, [x], [[n]])
  {
    hide EditAt;
    forall key: Key | key != [] && key[0] == n && EditAt(e, components, key).Some? ensures key in [[n]] {
      assert key == [n];
    }
  }

  // ----- Leaves -----

  predicate IsOfType(c: Expression, ty: Type, rawType: Option<string>) {
    c.ty == ty && (rawType.Some? ==> c.rawType == rawType.value)
  }

  /** The components from `from` on, by their places. */
  ghost predicate ArePlaces(
    components: seq<Expression>, from: nat, ty: Type, rawType: Option<string>, meta: PatchMetadata,
    list: seq<Modification>, places: seq<nat>)
  {
    && |places| == |list|
    && (forall k :: 0 <= k < |places| ==>
          from <= places[k] < |components| && IsOfType(components[places[k]], ty, rawType)
          && list[k] == Modification(components[places[k]], meta))
    && (forall k, l :: 0 <= k < l < |places| ==> places[k] < places[l])
    && (forall i :: from <= i < |components| && IsOfType(components[i], ty, rawType) ==> i in places)
  }

  lemma {:induction false} PlacesOf(
    components: seq<Expression>, from: nat, ty: Type, rawType: Option<string>, meta: PatchMetadata) returns (places: seq<nat>)
    requires from <= |components|
    ensures ArePlaces(components, from, ty, rawType, meta, FromComponents(components[from..], ty, rawType, meta), places)
    decreases |components| - from
  {
    places := [];
    hide IsOfType, ArePlaces;
    if from < |components| {
      FirstComponent(components, from, ty, rawType, meta);
      var list := FromComponents(components[from + 1..], ty, rawType, meta);
      places := PlacesOf(components, from + 1, ty, rawType, meta);
      if IsOfType(components[from], ty, rawType) {
        PlaceTaken(components, from, ty, rawType, meta, list, places);
        places := [from] + places;
      } else {
        PlaceSkipped(components, from, ty, rawType, meta, list, places);
      }
    } else {
      NoPlace(components, ty, rawType, meta);
      assert components[from..] == [];
    }
  }

  lemma FirstComponent(components: seq<Expression>, from: nat, ty: Type, rawType: Option<string>, meta: PatchMetadata)
    requires from < |components|
    ensures FromComponents(components[from..], ty, rawType, meta) ==
            (if IsOfType(components[from], ty, rawType) then [Modification(components[from], meta)] else [])
            + FromComponents(components[from + 1..], ty, rawType, meta)
  {
    assert components[from..][0] == components[from] && components[from..][1..] == components[from + 1..];
  }

  lemma NoPlace(components: seq<Expression>, ty: Type, rawType: Option<string>, meta: PatchMetadata)
    ensures ArePlaces(components, |components|, ty, rawType, meta, [], [])
  {
  }

  lemma PlaceTaken(
    components: seq<Expression>, from: nat, ty: Type, rawType: Option<string>, meta: PatchMetadata,
    list: seq<Modification>, places: seq<nat>)
    requires from < |components| && ArePlaces(components, from + 1, ty, rawType, meta, list, places)
    requires IsOfType(components[from], ty, rawType)
    ensures ArePlaces(components, from, ty, rawType, meta, [Modification(components[from], meta)] + list, [from] + places)
  {
    hide IsOfType;
    var all, longer := [from] + places, [Modification(components[from], meta)] + list;
    forall k | 0 <= k < |all|
      ensures from <= all[k] < |components| && IsOfType(components[all[k]], ty, rawType)
      ensures longer[k] == Modification(components[all[k]], meta)
      ensures k > 0 ==> all[k] > from
    {
      if k > 0 { assert all[k] == places[k - 1] && longer[k] == list[k - 1]; }
    }
    forall k, l | 0 <= k < l < |all| ensures all[k] < all[l] {
      if k > 0 { assert all[k] == places[k - 1] && all[l] == places[l - 1]; }
    }
    forall i | from <= i < |components| && IsOfType(components[i], ty, rawType) ensures i in all {
      if i > from { assert i in places; }
    }
  }

  lemma PlaceSkipped(
    components: seq<Expression>, from: nat, ty: Type, rawType: Option<string>, meta: PatchMetadata,
    list: seq<Modification>, places: seq<nat>)
    requires from < |components| && ArePlaces(components, from + 1, ty, rawType, meta, list, places)
    requires !IsOfType(components[from], ty, rawType)
    ensures ArePlaces(components, from, ty, rawType, meta, [] + list, places)
  {
    hide IsOfType;
    assert [] + list == list;
  }

  /** The key of each place. */
  function Under(n: nat, places: seq<nat>): (r: seq<Key>)
    ensures |r| == |places| && forall k :: 0 <= k < |r| ==> r[k] == [n, places[k]]
  {
    seq(|places|, k requires 0 <= k < |places| => [n, places[k]])
  }

  lemma PlaceHasKey(n: nat, places: seq<nat>, key: Key)
    requires |key| == 2 && key[0] == n && key[1] in places
    ensures key in Under(n, places)
  {
    var k :| 0 <= k < |places| && places[k] == key[1];
    assert Under(n, places)[k] == key;
  }

  lemma UnderIncreases(n: nat, places: seq<nat>)
    requires forall k, l :: 0 <= k < l < |places| ==> places[k] < places[l]
    ensures Increasing(Under(n, places))
  {
  }

  predicate IsReplaceable(e: Expression) {
    e.args == [] && e.kind in {CONSTANT, VARIABLE, DEREFERENCE} && (e.ty == INTEGER || (e.ty == PTR && e.kind != CONSTANT))
  }

  function LeafMeta(e: Expression): PatchMetadata {
    PatchMetadata(if e.kind == CONSTANT then GENERALIZATION else SUBSTITUTION, 1)
  }

  function LeafComponents(e: Expression, components: seq<Expression>): seq<Modification> {
    FromComponents(components, e.ty, if e.ty == PTR then Some(e.rawType) else None, LeafMeta(e))
  }

  lemma LeafCovered(e: Expression, components: seq<Expression>) returns (keys: seq<Key>)
    requires e.args == []
    ensures Covers(e, components, 1, 10, LeafModifications(e, components), keys)
  {
    keys := [];
    if IsReplaceable(e) {
      var places := PlacesOf(components, 0, e.ty, if e.ty == PTR then Some(e.rawType) else None, LeafMeta(e));
      assert components[0..] == components;
      var list := LeafComponents(e, components);
      ComponentsCovered(e, components, list, places);
      var last := LastCovered(e, components);
      hide Covers, ArePlaces, LeafComponents, LeafModifications;
      Joined(e, components, 1, 2, 10, list, Under(1, places), [last], [[2]]);
      keys := Under(1, places) + [[2]];
    } else {
      NothingCovered(e, components, 1, 10);
    }
  }

  lemma LastCovered(e: Expression, components: seq<Expression>) returns (last: Modification)
    requires IsReplaceable(e)
    ensures Covers(e, components, 2, 10, [last], [[2]])
    ensures LeafModifications(e, components) == LeafComponents(e, components) + [last]
  {
    last := EditAt(e, components, [2]).value;
    OneCovered(e, components, 2, last);
    NothingCovered(e, components, 3, 10);
    Joined(e, components, 2, 3, 10, [last], [[2]], [], []);
    assert [last] + [] == [last] && [[2]] + [] == [[2]];
  }

  lemma ComponentsCovered(
    e: Expression, components: seq<Expression>, list: seq<Modification>, places: seq<nat>)
    requires IsReplaceable(e)
    requires ArePlaces(components, 0, e.ty, if e.ty == PTR then Some(e.rawType) else None, LeafMeta(e), list, places)
    ensures Covers(e, components, 1, 2, list, Under(1, places))
  {
    UnderIncreases(1, places);
    forall key: Key | key != [] && key[0] == 1 && EditAt(e, components, key).Some? ensures key in Under(1, places) {
      PlaceHasKey(1, places, key);
    }
  }

  // ----- Operators -----

  /** The place of an operator in their order. */
  function Rank(op: Operator): nat {
    match op
    case EQ => 0 case NEQ => 1 case LT => 2 case LE => 3 case GT => 4 case GE => 5
    case OR => 6 case AND => 7
    case ADD => 8 case SUB => 9 case MUL => 10
    case BV_AND => 11 case BV_OR => 12 case BV_XOR => 13 case BV_SHL => 14 case BV_SHR => 15
    case PTR_ADD => 16 case PTR_SUB => 17
    case _ => 18
  }

  lemma RankOfOperator(n: nat)
    ensures n < 18 ==> Rank(OperatorWith(n)) == n
    ensures n >= 18 ==> OperatorWith(n) == NONE
  {
  }

  lemma OperatorOfRank(op: Operator)
    requires Rank(op) < 18
    ensures OperatorWith(Rank(op)) == op
  {
  }

  function Ranks(ops: seq<Operator>): (r: seq<nat>)
    ensures |r| == |ops| && forall k :: 0 <= k < |r| ==> r[k] == Rank(ops[k])
  {
    seq(|ops|, k requires 0 <= k < |ops| => Rank(ops[k]))
  }

  predicate InOrder(ops: seq<Operator>) {
    forall k, l :: 0 <= k < l < |ops| ==> Rank(ops[k]) < Rank(ops[l])
  }

  /** The operators tried for a node are listed in that order. */
  lemma OperatorsInOrder(e: Expression)
    requires e.args != [] && MutateOperator(e).Some?
    ensures InOrder(MutateOperator(e).value)
  {
    var ops := MutateOperator(e).value;
    NeighboursInOrder(e, 0);
    NeighboursInOrder(e, 1);
    NeighboursInOrder(e, 2);
    NeighboursInOrder(e, 3);
    hide Rank, MutateOperator;
  }

  lemma NeighboursInOrder(e: Expression, k: nat)
    requires e.args != [] && MutateOperator(e).Some? && k < 4
    ensures var ops := MutateOperator(e).value;
            |ops| <= 5 && (k + 1 < |ops| ==> Rank(ops[k]) < Rank(ops[k + 1]))
  {
  }

  lemma OperatorsCovered(e: Expression, components: seq<Expression>, ops: seq<Operator>)
    requires Typed(e) && 1 <= |e.args| <= 2 && MutateOperator(e) == Some(ops)
    ensures Covers(e, components, 1, 4, OperatorModifications(e, ops), Under(3, Ranks(ops)))
  {
    OperatorsInOrder(e);
    UnderIncreases(3, Ranks(ops));
    OperatorsListed(e, ops);
    hide Rank, OperatorWith, MutateOperator, Interchangeable, OperatorModifications, Typed;
    forall k | 0 <= k < |ops|
      ensures EditAt(e, components, [3, Rank(ops[k])]) == Some(OperatorModifications(e, ops)[k])
    {
      assert ops[k] in ops;
      ListedOperator(e, ops[k], components);
    }
    forall key: Key | key != [] && 1 <= key[0] < 4 && EditAt(e, components, key).Some? ensures key in Under(3, Ranks(ops)) {
      OperatorKey(e, components, key);
      OperatorsAreInterchangeable(e, OperatorWith(key[1]));
      RankHas(ops, key[1]);
      PlaceHasKey(3, Ranks(ops), key);
    }
  }

  lemma OperatorKey(e: Expression, components: seq<Expression>, key: Key)
    requires 1 <= |e.args| <= 2 && key != [] && 1 <= key[0] < 4 && EditAt(e, components, key).Some?
    ensures |key| == 2 && key[0] == 3 && OperatorWith(key[1]) != NONE
    ensures Interchangeable(e.args[0].ty == PTR, e.op, OperatorWith(key[1]))
  {
  }

  lemma ListedOperator(e: Expression, op: Operator, components: seq<Expression>)
    requires Typed(e) && 1 <= |e.args| <= 2 && MutateOperator(e).Some? && op in MutateOperator(e).value
    ensures EditAt(e, components, [3, Rank(op)]) == Some(Modification(WithOperator(e, op), PatchMetadata(REPLACE_OPERATOR, 1)))
  {
    OperatorsAreInterchangeable(e, op);
    InterchangeableIsRanked(e.args[0].ty == PTR, e.op, op);
    OperatorOfRank(op);
    hide Rank, OperatorWith, MutateOperator, Interchangeable, Typed;
  }

  lemma InterchangeableIsRanked(pointers: bool, op: Operator, op': Operator)
    requires Interchangeable(pointers, op, op')
    ensures Rank(op') < 18
  {
  }

  lemma RankHas(ops: seq<Operator>, n: nat)
    requires OperatorWith(n) in ops && OperatorWith(n) != NONE
    ensures n in Ranks(ops)
  {
    RankOfOperator(n);
    hide Rank, OperatorWith;
    var k :| 0 <= k < |ops| && ops[k] == OperatorWith(n);
    assert Ranks(ops)[k] == n;
  }

  lemma {:induction false} OperatorsListed(e: Expression, ops: seq<Operator>)
    ensures var list := OperatorModifications(e, ops);
            |list| == |ops|
            && forall k :: 0 <= k < |list| ==> list[k] == Modification(WithOperator(e, ops[k]), PatchMetadata(REPLACE_OPERATOR, 1))
  {
    if ops != [] { OperatorsListed(e, ops[1..]); }
  }

  // ----- Operands -----

  /** The keys of an operand, seen from the expression. */
  function Behind(n: nat, keys: seq<Key>): (r: seq<Key>)
    ensures |r| == |keys| && forall i :: 0 <= i < |r| ==> r[i] == [n] + keys[i]
  {
    seq(|keys|, i requires 0 <= i < |keys| => [n] + keys[i])
  }

  lemma BehindIncreases(n: nat, keys: seq<Key>)
    requires Increasing(keys)
    ensures Increasing(Behind(n, keys))
  {
    var r := Behind(n, keys);
    forall i, j | 0 <= i < j < |r| ensures Less(r[i], r[j]) {
      assert r[i][1..] == keys[i] && r[j][1..] == keys[j];
    }
  }

  lemma BehindHas(n: nat, keys: seq<Key>, key: Key)
    requires key != [] && key[0] == n && key[1..] in keys
    ensures key in Behind(n, keys)
  {
    var i :| 0 <= i < |keys| && keys[i] == key[1..];
    assert Behind(n, keys)[i] == key;
  }

  /** The edits of operand `k` are edits of the expression, unless the operand is the base of pointer arithmetic. */
  lemma EditOfOperand(e: Expression, components: seq<Expression>, k: nat, key: Key)
    requires k < |e.args| <= 2 && !(k == 0 && |e.args| == 2 && IsPointerArithmetic(e.op)) && key != [] && key[0] == 4 + k
    ensures EditAt(e, components, key) == In(e, k, EditAt(e.args[k], components, key[1..]))
  {
  }

  lemma KeyIsBounded(e: Expression, components: seq<Expression>, key: Key)
    requires EditAt(e, components, key).Some?
    ensures key != [] && key[0] < 10
  {
  }

  lemma OperandCovered(e: Expression, components: seq<Expression>, k: nat, mods: seq<Modification>, keys: seq<Key>)
    requires k < |e.args| <= 2 && !(k == 0 && |e.args| == 2 && IsPointerArithmetic(e.op))
    requires Covers(e.args[k], components, 0, 10, mods, keys)
    ensures Covers(e, components, 4 + k, 5 + k, InArgument(e, k, mods), Behind(4 + k, keys))
  {
    hide EditAt, Increasing, InArgument, Behind, IsPointerArithmetic, In;
    BehindIncreases(4 + k, keys);
    var list := InArgument(e, k, mods);
    var all := Behind(4 + k, keys);
    forall i | 0 <= i < |all| ensures EditAt(e, components, all[i]) == Some(list[i]) {
      assert EditAt(e.args[k], components, keys[i]) == Some(mods[i]);
      OneOperandKey(e, components, k, mods, keys[i], i);
    }
    forall key: Key | key != [] && key[0] == 4 + k && EditAt(e, components, key).Some? ensures key in all {
      KeyOfOperand(e, components, k, key);
      assert key[1..] in keys;
      BehindHas(4 + k, keys, key);
    }
  }

  lemma OneOperandKey(e: Expression, components: seq<Expression>, k: nat, mods: seq<Modification>, key: Key, i: nat)
    requires k < |e.args| <= 2 && !(k == 0 && |e.args| == 2 && IsPointerArithmetic(e.op))
    requires i < |mods| && EditAt(e.args[k], components, key) == Some(mods[i])
    ensures EditAt(e, components, [4 + k] + key) == Some(InArgument(e, k, mods)[i])
  {
    hide EditAt, InArgument, IsPointerArithmetic;
    assert ([4 + k] + key)[1..] == key;
    EditOfOperand(e, components, k, [4 + k] + key);
  }

  /** A key of the operand's edits is behind it. */
  lemma KeyOfOperand(e: Expression, components: seq<Expression>, k: nat, key: Key)
    requires k < |e.args| <= 2 && !(k == 0 && |e.args| == 2 && IsPointerArithmetic(e.op))
    requires key != [] && key[0] == 4 + k && EditAt(e, components, key).Some?
    ensures EditAt(e.args[k], components, key[1..]).Some? && key[1..] != [] && key[1..][0] < 10
  {
    hide EditAt, IsPointerArithmetic;
    EditOfOperand(e, components, k, key);
    KeyIsBounded(e.args[k], components, key[1..]);
  }

  // ----- The other stages -----

  lemma HoleCovered(e: Expression, components: seq<Expression>) returns (keys: seq<Key>)
    requires |e.args| <= 2
    ensures Covers(e, components, 0, 1, HoleModification(e), keys)
  {
    keys := [];
    if e.ty == BOOLEAN {
      keys := [[0]];
      OneCovered(e, components, 0, HoleModification(e)[0]);
    } else {
      NothingCovered(e, components, 0, 1);
    }
  }

  lemma CastCovered(e: Expression, components: seq<Expression>, k: nat) returns (keys: seq<Key>)
    requires |e.args| == 2 && k < 2
    ensures Covers(e, components, 6 + k, 7 + k, UnsignedCast(e, k), keys)
  {
    keys := [];
    if e.args[k].ty == INTEGER {
      keys := [[6 + k]];
      OneCovered(e, components, 6 + k, UnsignedCast(e, k)[0]);
    } else {
      NothingCovered(e, components, 6 + k, 7 + k);
    }
  }

  /** The operands that can take the place of the expression. */
  function Simplifications(e: Expression): seq<Modification>
    requires 1 <= |e.args| <= 2
  {
    if |e.args| == 2 then BinarySimplifications(e)
    else if IsSimplifiable(e) then [Modification(e.args[0], PatchMetadata(SIMPLIFICATION, ATOMIC_EDIT))]
    else []
  }

  lemma SimplificationsCovered(e: Expression, components: seq<Expression>) returns (keys: seq<Key>)
    requires 1 <= |e.args| <= 2
    ensures Covers(e, components, 8, 10, Simplifications(e), keys)
  {
    hide EditAt, Covers;
    var firstKeys := FirstSimplification(e, components);
    var secondKeys := SecondSimplification(e, components);
    Joined(e, components, 8, 9, 10, Simplifications(e)[..SimplifiedAt(e)], firstKeys, Simplifications(e)[SimplifiedAt(e)..], secondKeys);
    keys := firstKeys + secondKeys;
    assert Simplifications(e)[..SimplifiedAt(e)] + Simplifications(e)[SimplifiedAt(e)..] == Simplifications(e);
  }

  function SimplifiedAt(e: Expression): (n: nat)
    requires 1 <= |e.args| <= 2
    ensures n <= |Simplifications(e)|
  {
    if IsSimplifiable(e) then 1 else 0
  }

  lemma FirstSimplification(e: Expression, components: seq<Expression>) returns (keys: seq<Key>)
    requires 1 <= |e.args| <= 2
    ensures Covers(e, components, 8, 9, Simplifications(e)[..SimplifiedAt(e)], keys)
  {
    keys := [];
    if IsSimplifiable(e) {
      keys := [[8]];
      OneCovered(e, components, 8, Simplifications(e)[0]);
      assert Simplifications(e)[..1] == [Simplifications(e)[0]];
    } else {
      NothingCovered(e, components, 8, 9);
    }
  }

  lemma SecondSimplification(e: Expression, components: seq<Expression>) returns (keys: seq<Key>)
    requires 1 <= |e.args| <= 2
    ensures Covers(e, components, 9, 10, Simplifications(e)[SimplifiedAt(e)..], keys)
  {
    keys := [];
    if |e.args| == 2 && IsSimplifiable(e) {
      keys := [[9]];
      OneCovered(e, components, 9, Simplifications(e)[1]);
      assert Simplifications(e)[1..] == [Simplifications(e)[1]];
    } else {
      NothingCovered(e, components, 9, 10);
    }
  }

  // ----- The enumeration in order -----

  lemma {:induction false} TopCovered(e: Expression, components: seq<Expression>) returns (keys: seq<Key>)
    requires Typed(e) && 1 <= |e.args| <= 2
    ensures MutateOperator(e).Some?
    ensures Covers(e, components, 0, 4, HoleModification(e) + OperatorModifications(e, MutateOperator(e).value), keys)
  {
    hide EditAt, Covers, HoleModification, OperatorModifications, MutateOperator, Typed;
    OperatorsAreInterchangeable(e, EQ);
    var ops := MutateOperator(e).value;
    var holeKeys := HoleCovered(e, components);
    OperatorsCovered(e, components, ops);
    Joined(e, components, 0, 1, 4, HoleModification(e), holeKeys, OperatorModifications(e, ops), Under(3, Ranks(ops)));
    keys := holeKeys + Under(3, Ranks(ops));
  }

  /** The enumeration lists the edits in the order of their keys, each once. */
  lemma {:induction false} EnumeratedInOrder(e: Expression, components: seq<Expression>) returns (keys: seq<Key>)
    requires Typed(e)
    ensures BaseSubstitutions(e, components).Some?
    ensures Covers(e, components, 0, 10, BaseSubstitutions(e, components).value, keys)
    decreases e, 1
  {
    hide EditAt, Covers;
    if e.args == [] {
      var holeKeys := HoleCovered(e, components);
      var leafKeys := LeafCovered(e, components);
      Joined(e, components, 0, 1, 10, HoleModification(e), holeKeys, LeafModifications(e, components), leafKeys);
      keys := holeKeys + leafKeys;
    } else if |e.args| == 1 {
      keys := UnaryInOrder(e, components);
    } else {
      keys := BinaryInOrder(e, components);
    }
  }

  lemma {:induction false} UnaryInOrder(e: Expression, components: seq<Expression>) returns (keys: seq<Key>)
    requires Typed(e) && |e.args| == 1
    ensures BaseSubstitutions(e, components).Some?
    ensures Covers(e, components, 0, 10, BaseSubstitutions(e, components).value, keys)
    decreases e, 0
  {
    hide EditAt, Covers, HoleModification, OperatorModifications, MutateOperator, IsSimplifiable, InArgument, Typed;
    OperandIsTyped(e);
    var topKeys := TopCovered(e, components);
    var top := HoleModification(e) + OperatorModifications(e, MutateOperator(e).value);
    var operandKeys := EnumeratedInOrder(e.args[0], components);
    var mods := BaseSubstitutions(e.args[0], components).value;
    OperandCovered(e, components, 0, mods, operandKeys);
    NoOtherStage(e, components);
    var lastKeys := SimplificationsCovered(e, components);
    Joined(e, components, 0, 4, 5, top, topKeys, InArgument(e, 0, mods), Behind(4, operandKeys));
    Joined(e, components, 5, 8, 10, [], [], Simplifications(e), lastKeys);
    Joined(e, components, 0, 5, 10, top + InArgument(e, 0, mods), topKeys + Behind(4, operandKeys),
           [] + Simplifications(e), [] + lastKeys);
    keys := topKeys + Behind(4, operandKeys) + ([] + lastKeys);
    assert BaseSubstitutions(e, components).value == top + InArgument(e, 0, mods) + ([] + Simplifications(e));
  }

  lemma OperandIsTyped(e: Expression)
    requires Typed(e) && |e.args| == 1
    ensures Typed(e.args[0])
  {
  }

  lemma NoOtherStage(e: Expression, components: seq<Expression>)
    requires |e.args| == 1
    ensures Covers(e, components, 5, 8, [], [])
  {
    NothingCovered(e, components, 5, 8);
  }

  lemma {:induction false} LeftInOrder(e: Expression, components: seq<Expression>) returns (keys: seq<Key>)
    requires Typed(e) && |e.args| == 2
    ensures LeftModifications(e, components).Some?
    ensures Covers(e, components, 4, 5, InArgument(e, 0, LeftModifications(e, components).value), keys)
    decreases e.args[0], 2
  {
    hide EditAt, Covers, InArgument, IsPointerArithmetic, BaseSubstitutions, Typed;
    if IsPointerArithmetic(e.op) {
      keys := [];
      BaseIsKept(e, components);
      NoModification(e);
    } else {
      FirstIsTyped(e);
      var operandKeys := EnumeratedInOrder(e.args[0], components);
      OperandCovered(e, components, 0, BaseSubstitutions(e.args[0], components).value, operandKeys);
      keys := Behind(4, operandKeys);
    }
  }

  lemma FirstIsTyped(e: Expression)
    requires Typed(e) && |e.args| == 2 && !IsPointerArithmetic(e.op)
    ensures Typed(e.args[0])
  {
  }

  lemma NoModification(e: Expression)
    requires |e.args| == 2
    ensures InArgument(e, 0, []) == []
  {
  }

  lemma BaseIsKept(e: Expression, components: seq<Expression>)
    requires |e.args| == 2 && IsPointerArithmetic(e.op)
    ensures Covers(e, components, 4, 5, [], [])
  {
    NothingCovered(e, components, 4, 5);
  }

  lemma {:induction false} BinaryInOrder(e: Expression, components: seq<Expression>) returns (keys: seq<Key>)
    requires Typed(e) && |e.args| == 2
    ensures BaseSubstitutions(e, components).Some?
    ensures Covers(e, components, 0, 10, BaseSubstitutions(e, components).value, keys)
    decreases e, 0
  {
    hide EditAt, Covers, HoleModification, OperatorModifications, MutateOperator, UnsignedCast, BinarySimplifications;
    var topKeys := TopCovered(e, components);
    var top := HoleModification(e) + OperatorModifications(e, MutateOperator(e).value);
    var leftKeys := LeftInOrder(e, components);
    var left := InArgument(e, 0, LeftModifications(e, components).value);
    Joined(e, components, 0, 4, 5, top, topKeys, left, leftKeys);
    var operandKeys := EnumeratedInOrder(e.args[1], components);
    var mods := BaseSubstitutions(e.args[1], components).value;
    OperandCovered(e, components, 1, mods, operandKeys);
    var right := InArgument(e, 1, mods);
    Joined(e, components, 0, 5, 6, top + left, topKeys + leftKeys, right, Behind(5, operandKeys));
    var lastKeys := LastInOrder(e, components, top + left + right, topKeys + leftKeys + Behind(5, operandKeys));
    keys := lastKeys;
  }

  lemma LastInOrder(e: Expression, components: seq<Expression>, list: seq<Modification>, first: seq<Key>) returns (keys: seq<Key>)
    requires |e.args| == 2 && Covers(e, components, 0, 6, list, first)
    ensures Covers(e, components, 0, 10, list + UnsignedCast(e, 0) + UnsignedCast(e, 1) + BinarySimplifications(e), keys)
  {
    hide EditAt, Covers, UnsignedCast, BinarySimplifications;
    var leftKeys := CastCovered(e, components, 0);
    Joined(e, components, 0, 6, 7, list, first, UnsignedCast(e, 0), leftKeys);
    var rightKeys := CastCovered(e, components, 1);
    Joined(e, components, 0, 7, 8, list + UnsignedCast(e, 0), first + leftKeys, UnsignedCast(e, 1), rightKeys);
    var lastKeys := SimplificationsCovered(e, components);
    Joined(e, components, 0, 8, 10, list + UnsignedCast(e, 0) + UnsignedCast(e, 1), first + leftKeys + rightKeys,
           BinarySimplifications(e), lastKeys);
    keys := first + leftKeys + rightKeys + lastKeys;
  }

  // ----- The modifications of a schema in order -----

  /** The modification with this key: a condition is loosened and then tightened after all edits, and
      the guard of an if becomes the other constant before it becomes the hole. */
  function ModificationAt(schema: TransformationSchema, e: Expression, components: seq<Expression>, key: Key): Option<Modification> {
    match schema
    case EXPRESSION =>
      if key == [10] && e.ty == BOOLEAN then
        Some(Modification(ApplyBoolOperator(OR, e, BOOL2_NODE), PatchMetadata(LOOSENING, 2)))
      else if key == [11] && e.ty == BOOLEAN then
        Some(Modification(ApplyBoolOperator(AND, e, BOOL2_NODE), PatchMetadata(TIGHTENING, 2)))
      else EditAt(e, components, key)
    case IF_GUARD =>
      if key == [0] && e.repr == "1" then Some(Modification(FALSE_NODE, PatchMetadata(SUBSTITUTION, 1)))
      else if key == [0] && e.repr == "0" then Some(Modification(TRUE_NODE, PatchMetadata(SUBSTITUTION, 1)))
      else if key == [1] then Some(Modification(BOOL2_NODE, PatchMetadata(SUBSTITUTION, 2)))
      else None
    case LOOSENING_SCHEMA | TIGHTENING_SCHEMA =>
      if key == [0] then Some(Modification(BOOL2_NODE, PatchMetadata(SUBSTITUTION, 2))) else None
    case INITIALIZATION => None
  }

  ghost predicate ListsAll(schema: TransformationSchema, e: Expression, components: seq<Expression>, list: seq<Modification>, keys: seq<Key>) {
    && |keys| == |list| && Increasing(keys)
    && (forall i :: 0 <= i < |keys| ==> ModificationAt(schema, e, components, keys[i]) == Some(list[i]))
    && (forall key: Key :: ModificationAt(schema, e, components, key).Some? ==> key in keys)
  }

  /** The modifications of every typed expression are listed in the order of their keys, each once. */
  lemma ModificationsInOrder(schema: TransformationSchema, e: Expression, components: seq<Expression>) returns (keys: seq<Key>)
    requires Typed(e)
    ensures BaseModifications(schema, e, components).Some?
    ensures ListsAll(schema, e, components, BaseModifications(schema, e, components).value, keys)
  {
    if schema == EXPRESSION {
      keys := ExpressionInOrder(e, components);
    } else if schema == INITIALIZATION {
      keys := [];
    } else {
      keys := if schema == IF_GUARD && e.repr in {"1", "0"} then [[0], [1]] else if schema == IF_GUARD then [[1]] else [[0]];
    }
  }

  lemma ExpressionInOrder(e: Expression, components: seq<Expression>) returns (keys: seq<Key>)
    requires Typed(e)
    ensures BaseModifications(EXPRESSION, e, components).Some?
    ensures ListsAll(EXPRESSION, e, components, BaseModifications(EXPRESSION, e, components).value, keys)
  {
    hide EditAt, BaseSubstitutions, Typed;
    var first := EnumeratedInOrder(e, components);
    var mods := BaseSubstitutions(e, components).value;
    var list := BaseModifications(EXPRESSION, e, components).value;
    var behind: seq<Key> := if e.ty == BOOLEAN then [[10], [11]] else [];
    keys := first + behind;
    forall i | 0 <= i < |keys| ensures ModificationAt(EXPRESSION, e, components, keys[i]) == Some(list[i]) {
      if i < |first| { assert keys[i] == first[i] && list[i] == mods[i]; }
    }
    forall key: Key | ModificationAt(EXPRESSION, e, components, key).Some? ensures key in keys {
      if EditAt(e, components, key).Some? { KeyIsBounded(e, components, key); assert key in first; }
    }
  }

  // ----- The order leaves no choice -----

  lemma {:induction false} LessIsStrict(a: Key, b: Key)
    requires Less(a, b)
    ensures !Less(b, a) && a != b
  {
    if a != [] && a[0] == b[0] { LessIsStrict(a[1..], b[1..]); }
  }

  /** Keys in order with the same members are the same. */
  lemma {:induction false} KeysAreDetermined(a: seq<Key>, b: seq<Key>)
    requires Increasing(a) && Increasing(b) && forall key :: key in a <==> key in b
    ensures a == b
  {
    assert a != [] ==> a[0] in b;
    assert b != [] ==> b[0] in a;
    if a != [] && b != [] {
      HeadsAgree(a, b);
      TailsAgree(a, b);
      TailsAgree(b, a);
      KeysAreDetermined(a[1..], b[1..]);
    }
  }

  lemma HeadsAgree(a: seq<Key>, b: seq<Key>)
    requires Increasing(a) && Increasing(b) && a != [] && b != [] && a[0] in b && b[0] in a
    ensures a[0] == b[0]
  {
    var i :| 0 <= i < |b| && b[i] == a[0];
    var j :| 0 <= j < |a| && a[j] == b[0];
    if i > 0 && j > 0 { LessIsStrict(a[0], b[0]); }
  }

  lemma TailsAgree(a: seq<Key>, b: seq<Key>)
    requires Increasing(a) && Increasing(b) && a != [] && b != [] && a[0] == b[0] && forall key :: key in a ==> key in b
    ensures forall key :: key in a[1..] ==> key in b[1..]
  {
    forall key | key in a[1..] ensures key in b[1..] {
      var i :| 1 <= i < |a| && a[i] == key;
      LessIsStrict(a[0], key);
      assert key in b;
    }
  }

  /** There is one list of modifications in this order. */
  lemma OrderIsUnique(
    schema: TransformationSchema, e: Expression, components: seq<Expression>,
    a: seq<Modification>, ka: seq<Key>, b: seq<Modification>, kb: seq<Key>)
    requires ListsAll(schema, e, components, a, ka) && ListsAll(schema, e, components, b, kb)
    ensures a == b
  {
    hide ModificationAt;
    forall key | key in ka ensures key in kb {}
    forall key | key in kb ensures key in ka {}
    KeysAreDetermined(ka, kb);
    forall i | 0 <= i < |a| ensures a[i] == b[i] {
      assert ModificationAt(schema, e, components, ka[i]) == Some(a[i]);
    }
  }
}
