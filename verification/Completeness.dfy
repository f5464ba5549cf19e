/** What is in the search space, without its numbering: every modification of every application, with
    its holes filled in every way, and nothing else (repair/Synthesis.cpp:378-413, 709-788, 884-920). */
module Completeness {
  import opened Core
  import opened Expressions
  import opened Synthesis
  import opened Edits
  import opened Dispatch
  import opened SearchSpace
  import opened Generation

  // ----- The candidates, independent of any enumeration -----

  /** A condition is loosened or tightened by a hole. */
  predicate Extends(e: Expression, x: Modification) {
    && e.ty == BOOLEAN && x.meta.distance == 2
    && (|| (x.expr == Expression(OPERATOR, BOOLEAN, OR, "int", "||", [e, BOOL2_NODE]) && x.meta.rule == LOOSENING)
        || (x.expr == Expression(OPERATOR, BOOLEAN, AND, "int", "&&", [e, BOOL2_NODE]) && x.meta.rule == TIGHTENING))
  }

  /** The guard of a new statement is the hole or, if it is a constant, the other constant. */
  predicate ReplacesGuard(e: Expression, x: Modification) {
    && x.meta.rule == SUBSTITUTION
    && (|| (x.expr == BOOL2_NODE && x.meta.distance == 2)
        || (e.repr == "1" && x.expr == FALSE_NODE && x.meta.distance == 1)
        || (e.repr == "0" && x.expr == TRUE_NODE && x.meta.distance == 1))
  }

  ghost predicate IsModification(sa: SchemaApplication, x: Modification) {
    match sa.schema
    case EXPRESSION => IsEdit(sa.original, x, sa.components) || Extends(sa.original, x)
    case IF_GUARD => ReplacesGuard(sa.original, x)
    case LOOSENING_SCHEMA | TIGHTENING_SCHEMA =>
      x == Modification(BOOL2_NODE, PatchMetadata(SUBSTITUTION, 2))
    case INITIALIZATION => false
  }

  ghost predicate FillsBool2(e: Expression, filled: Expression, components: seq<Expression>) {
    if HasNodeOfKind(e, BOOL2) then exists b :: IsBool2(b, components) && filled == Fill(e, BOOL2, b) else filled == e
  }

  ghost predicate FillsParameter(e: Expression, filled: Expression, paramBound: nat) {
    if HasNodeOfKind(e, PARAMETER)
    then exists n: nat :: n <= paramBound && filled == Fill(e, PARAMETER, MakeIntegerConst(n))
    else filled == e
  }

  /** `e` is `m` with its holes filled. */
  ghost predicate IsFilled(m: Expression, e: Expression, components: seq<Expression>, paramBound: nat) {
    exists filled :: FillsBool2(m, filled, components) && FillsParameter(filled, e, paramBound)
  }

  /** The largest constant that is tried: there is one bound for conditions and one for all else. */
  ghost predicate IsLargestConstant(sa: SchemaApplication, bounds: Bounds, n: nat) {
    && (sa.context == CONDITION ==> n == bounds.maxConditionParameter)
    && (sa.context != CONDITION ==> n == bounds.maxExpressionParameter)
  }

  /** `e`, at this price, is a candidate for the application. */
  ghost predicate IsCandidate(sa: SchemaApplication, bounds: Bounds, e: Expression, meta: PatchMetadata) {
    exists m, n ::
      IsLargestConstant(sa, bounds, n) && IsModification(sa, Modification(m, meta)) && IsFilled(m, e, sa.components, n)
  }

  ghost predicate Offers(patches: seq<Patch>, sa: SchemaApplication, e: Expression, meta: PatchMetadata) {
    exists id :: Patch(id, sa, e, meta) in patches
  }

  // ----- The search space is exactly the candidates -----

  lemma ModificationsAreExact(sa: SchemaApplication, x: Modification)
    requires WellFormed(sa)
    ensures x in Mods(sa) <==> IsModification(sa, x)
  {
    hide BaseSubstitutions, IsEdit, Compilable, Holes;
    if sa.schema == EXPRESSION {
      EnumerationIsExact(sa.original, sa.components, x);
    }
  }

  lemma BoolsAreExact(sa: SchemaApplication, b: Expression)
    requires WellFormed(sa)
    ensures b in Bools(sa) <==> IsBool2(b, sa.components)
  {
    Bool2IsExact(sa.components, b);
  }

  lemma DecodedIsFilled(sa: SchemaApplication, m: Expression, id: PatchID, paramBound: nat)
    requires WellFormed(sa) && DecodeBase(sa, m, id, paramBound).Some?
    ensures IsFilled(m, DecodeBase(sa, m, id, paramBound).value, sa.components, paramBound)
  {
    var e := DecodeBase(sa, m, id, paramBound).value;
    var filled := if HasNodeOfKind(m, BOOL2) then Fill(m, BOOL2, Bools(sa)[id.bool2 - 1]) else m;
    if HasNodeOfKind(m, BOOL2) {
      BoolsAreExact(sa, Bools(sa)[id.bool2 - 1]);
    }
    hide IsBool2, Fill;
    assert FillsBool2(m, filled, sa.components);
    assert FillsParameter(filled, e, paramBound);
  }

  lemma FilledIsDecoded(sa: SchemaApplication, base: nat, m: Expression, e: Expression, paramBound: nat) returns (id: PatchID)
    requires WellFormed(sa) && IsFilled(m, e, sa.components, paramBound)
    ensures id.base == base && DecodeBase(sa, m, id, paramBound) == Some(e)
  {
    hide IsBool2, Fill, HasNodeOfKind;
    var filled :| FillsBool2(m, filled, sa.components) && FillsParameter(filled, e, paramBound);
    var bool2: nat, param: nat := 0, 0;
    if HasNodeOfKind(m, BOOL2) {
      var b :| IsBool2(b, sa.components) && filled == Fill(m, BOOL2, b);
      BoolsAreExact(sa, b);
      var i :| 0 <= i < |Bools(sa)| && Bools(sa)[i] == b;
      bool2 := i + 1;
    }
    if HasNodeOfKind(filled, PARAMETER) {
      param :| param <= paramBound && e == Fill(filled, PARAMETER, MakeIntegerConst(param));
    }
    id := PatchID(base, 0, bool2, 0, param);
  }

  /** The patches of an application offer exactly its candidates. */
  lemma PatchesAreCandidates(sa: SchemaApplication, firstBase: nat, bounds: Bounds, e: Expression, meta: PatchMetadata)
    requires WellFormed(sa)
    ensures Offers(PatchesOf(sa, firstBase, bounds), sa, e, meta) <==> IsCandidate(sa, bounds, e, meta)
  {
    hide PatchesOf, IsCandidate;
    if Offers(PatchesOf(sa, firstBase, bounds), sa, e, meta) {
      var id :| Patch(id, sa, e, meta) in PatchesOf(sa, firstBase, bounds);
      OfferedIsCandidate(sa, firstBase, bounds, Patch(id, sa, e, meta));
    }
    if IsCandidate(sa, bounds, e, meta) {
      var id := CandidateIsOffered(sa, firstBase, bounds, e, meta);
    }
  }

  lemma OfferedIsCandidate(sa: SchemaApplication, firstBase: nat, bounds: Bounds, p: Patch)
    requires WellFormed(sa) && p in PatchesOf(sa, firstBase, bounds)
    ensures IsCandidate(sa, bounds, p.modified, p.meta)
  {
    hide IsModification, IsFilled, DecodeBase, PatchesOf, Mods, WellFormed;
    PatchesDecode(sa, firstBase, bounds, p);
    var x := Mods(sa)[p.id.base - firstBase];
    ModificationsAreExact(sa, x);
    DecodedIsFilled(sa, x.expr, p.id, ParamBound(sa, bounds));
    assert x == Modification(x.expr, p.meta);
    assert IsLargestConstant(sa, bounds, ParamBound(sa, bounds));
  }

  /** A modification with its Boolean hole filled by the choice `bool2`, if it has one. */
  ghost predicate IsChoice(sa: SchemaApplication, m: Expression, bool2: nat, filled: Expression) {
    if HasNodeOfKind(m, BOOL2) then 0 < bool2 <= |Bools(sa)| && filled == Fill(m, BOOL2, Bools(sa)[bool2 - 1])
    else bool2 == 0 && filled == m
  }

  /** For modification `j` with a parameter hole, or with one in the Boolean expression chosen, the
      constant `n` is offered exactly up to the bound for conditions in a condition, and up to the
      bound for expressions elsewhere. */
  lemma ConstantIsOffered(
    sa: SchemaApplication, firstBase: nat, bounds: Bounds, j: nat, bool2: nat, filled: Expression, n: nat)
    requires WellFormed(sa) && j < |Mods(sa)| && IsChoice(sa, Mods(sa)[j].expr, bool2, filled)
    requires HasNodeOfKind(filled, PARAMETER)
    ensures var offered := Patch(PatchID(firstBase + j, 0, bool2, 0, n), sa,
                                 Fill(filled, PARAMETER, MakeIntegerConst(n)), Mods(sa)[j].meta)
                           in PatchesOf(sa, firstBase, bounds);
            && (sa.context == CONDITION ==> (offered <==> n <= bounds.maxConditionParameter))
            && (sa.context != CONDITION ==> (offered <==> n <= bounds.maxExpressionParameter))
  {
    hide PatchesOf, Mods, Bools, WellFormed, Fill, HasNodeOfKind;
    PatchesDecode(sa, firstBase, bounds, Patch(PatchID(firstBase + j, 0, bool2, 0, n), sa,
                                               Fill(filled, PARAMETER, MakeIntegerConst(n)), Mods(sa)[j].meta));
  }

  lemma CandidateIsOffered(sa: SchemaApplication, firstBase: nat, bounds: Bounds, e: Expression, meta: PatchMetadata)
    returns (id: PatchID)
    requires WellFormed(sa) && IsCandidate(sa, bounds, e, meta)
    ensures Patch(id, sa, e, meta) in PatchesOf(sa, firstBase, bounds)
  {
    hide IsModification, IsFilled, DecodeBase, PatchesOf, Mods, WellFormed;
    var m, paramBound :|
      IsLargestConstant(sa, bounds, paramBound) && IsModification(sa, Modification(m, meta))
      && IsFilled(m, e, sa.components, paramBound);
    assert paramBound == ParamBound(sa, bounds);
    ModificationsAreExact(sa, Modification(m, meta));
    var j :| 0 <= j < |Mods(sa)| && Mods(sa)[j] == Modification(m, meta);
    id := FilledIsDecoded(sa, firstBase + j, m, e, paramBound);
    PatchesDecode(sa, firstBase, bounds, Patch(id, sa, e, meta));
  }

  lemma {:induction false} OffersUpTo(
    sas: seq<SchemaApplication>, bounds: Bounds, n: nat, sa: SchemaApplication, e: Expression, meta: PatchMetadata)
    requires n <= |sas| && forall k :: 0 <= k < n ==> WellFormed(sas[k])
    ensures Offers(SpaceUpTo(sas, bounds, n), sa, e, meta) <==> sa in sas[..n] && IsCandidate(sa, bounds, e, meta)
  {
    hide PatchesOf, IsCandidate, WellFormed, FirstBase;
    if n > 0 {
      var earlier, firstBase := SpaceUpTo(sas, bounds, n - 1), FirstBase(sas, n - 1);
      var last := PatchesOf(sas[n - 1], firstBase, bounds);
      OffersUpTo(sas, bounds, n - 1, sa, e, meta);
      assert sas[..n] == sas[..n - 1] + [sas[n - 1]];
      assert Offers(earlier + last, sa, e, meta) <==> Offers(earlier, sa, e, meta) || Offers(last, sa, e, meta);
      if Offers(last, sa, e, meta) {
        var id :| Patch(id, sa, e, meta) in last;
        OfferedBy(sas[n - 1], firstBase, bounds, Patch(id, sa, e, meta));
      }
      PatchesAreCandidates(sas[n - 1], firstBase, bounds, e, meta);
    }
  }

  lemma OfferedBy(sa: SchemaApplication, firstBase: nat, bounds: Bounds, p: Patch)
    requires p in PatchesOf(sa, firstBase, bounds)
    ensures p.app == sa
  {
    PatchesDecode(sa, firstBase, bounds, p);
    DecodedBase(sa, firstBase, bounds, p);
  }

  /** The search space offers exactly the candidates of the applications, each at its price. */
  lemma SpaceIsExact(
    sas: seq<SchemaApplication>, bounds: Bounds, sa: SchemaApplication, e: Expression, meta: PatchMetadata)
    requires forall k :: 0 <= k < |sas| ==> WellFormed(sas[k])
    ensures Offers(Space(sas, bounds), sa, e, meta) <==> sa in sas && IsCandidate(sa, bounds, e, meta)
  {
    OffersUpTo(sas, bounds, |sas|, sa, e, meta);
    assert sas[..|sas|] == sas;
  }
}
