/** The two tools agree on the argument layout: the slot the generated code reads for a component,
    a pointee type or a null flag is where the call puts it
    (transform/TransformUtil.cpp:853-979, repair/Synthesis.cpp:487-612). */
module LayoutAgreement {
  import opened Core
  import opened Expressions
  import opened Semantics
  import opened Staging
  import opened ArgumentLayout

  // ----- Slot texts -----

  predicate NoBracket(s: string) {
    forall k :: 0 <= k < |s| ==> s[k] != '['
  }

  /** The text of an access determines the array and the index. */
  lemma SlotTextIsInjective(a: string, i: nat, b: string, j: nat)
    requires NoBracket(a) && NoBracket(b) && SlotText(a, i) == SlotText(b, j)
    ensures a == b && i == j
  {
    var s, t := SlotText(a, i), SlotText(b, j);
    assert s[|a|] == '[' && t[|b|] == '[';
    assert forall k :: 0 <= k < |a| ==> s[k] == a[k];
    assert forall k :: 0 <= k < |b| ==> t[k] == b[k];
    assert |a| == |b|;
    assert a == s[..|a|] && b == t[..|b|];
    assert Decimal(i) == s[|a| + 1..|s| - 1] && Decimal(j) == t[|b| + 1..|t| - 1];
    DecimalIsInjective(i, j);
  }

  /** What the generated function needs to compile: array parameters with different names. */
  predicate CallableNames(cs: seq<Component>) {
    && (forall t, u :: t in TypesIn(cs) && u in TypesIn(cs) && t != u ==> Underscored(t) != Underscored(u))
    && (forall t :: t in TypesIn(cs) ==> NoBracket(t) && (PointersIn(cs) != [] ==> Underscored(t) != "ptr"))
  }

  lemma ArgNames(t: string, u: string)
    requires NoBracket(t)
    ensures NoBracket(ArgNameByNonPtrType(t))
    ensures ArgNameByNonPtrType(t) == ArgNameByNonPtrType(u) ==> Underscored(t) == Underscored(u)
    ensures ArgNameByNonPtrType(t) == POINTER_ARG_NAME ==> Underscored(t) == "ptr"
  {
    var n := ArgNameByNonPtrType(t);
    assert Underscored(t) == n[2..|n| - 5];
    var o := ArgNameByNonPtrType(u);
    assert Underscored(u) == o[2..|o| - 5];
    assert POINTER_ARG_NAME[2..|POINTER_ARG_NAME| - 5] == "ptr";
  }

  // ----- Both tools see the same lists -----

  function Reprs(cs: seq<Component>): (r: seq<string>)
    ensures |r| == |cs| && forall k :: 0 <= k < |cs| ==> r[k] == cs[k].repr
  {
    seq(|cs|, k requires 0 <= k < |cs| => cs[k].repr)
  }

  lemma {:induction false} SameLists(cs: seq<Component>)
    ensures TypesOf(ToExpressions(cs)) == TypesIn(cs)
    ensures forall t :: ReprsOf(ToExpressions(cs), t) == Reprs(ValuesIn(cs, t))
    ensures PointerReprs(ToExpressions(cs)) == Reprs(PointersIn(cs))
    ensures DereferencesOf(ToExpressions(cs)) == DereferencesIn(cs)
  {
    if cs == [] {
    } else {
      var init := cs[..|cs| - 1];
      SameLists(init);
      assert ToExpressions(cs)[..|cs| - 1] == ToExpressions(init);
      forall t ensures ReprsOf(ToExpressions(cs), t) == Reprs(ValuesIn(cs, t)) {
        SameReprs(cs, t);
      }
    }
  }

  lemma SameReprs(cs: seq<Component>, t: string)
    requires cs != [] && ReprsOf(ToExpressions(cs[..|cs| - 1]), t) == Reprs(ValuesIn(cs[..|cs| - 1], t))
    ensures ReprsOf(ToExpressions(cs), t) == Reprs(ValuesIn(cs, t))
  {
    assert ToExpressions(cs)[..|cs| - 1] == ToExpressions(cs[..|cs| - 1]);
  }

  lemma {:induction false} PointersListed(cs: seq<Component>)
    ensures forall c :: c in PointersIn(cs) <==> c in cs && c.isPointer
    ensures forall d :: d in DereferencesIn(cs) <==> exists k :: 0 <= k < |cs| && cs[k].isDereference && cs[k].repr == d
  {
    if cs != [] {
      var init, last := cs[..|cs| - 1], cs[|cs| - 1];
      PointersListed(init);
      assert cs == init + [last];
      forall d ensures d in DereferencesIn(cs) <==> exists k :: 0 <= k < |cs| && cs[k].isDereference && cs[k].repr == d {
        if d in DereferencesIn(init) {
          var k :| 0 <= k < |init| && init[k].isDereference && init[k].repr == d;
          assert cs[k] == init[k];
        }
        if exists k :: 0 <= k < |cs| && cs[k].isDereference && cs[k].repr == d {
          var k :| 0 <= k < |cs| && cs[k].isDereference && cs[k].repr == d;
          if k < |init| { assert init[k] == cs[k]; }
        }
      }
    }
  }

  lemma {:induction false} ValuesListed(cs: seq<Component>, t: string)
    ensures forall c :: c in ValuesIn(cs, t) <==> c in cs && !c.isPointer && c.rawType == t
    ensures ValuesIn(cs, t) != [] ==> t in TypesIn(cs)
  {
    if cs != [] {
      ValuesListed(cs[..|cs| - 1], t);
      assert cs == cs[..|cs| - 1] + [cs[|cs| - 1]];
    }
  }

  /** The last component's text occurs nowhere before. */
  lemma LastIsNew(cs: seq<Component>, list: seq<Component>)
    requires DistinctReprs(cs) && cs != [] && forall c :: c in list ==> c in cs[..|cs| - 1]
    ensures forall k :: 0 <= k < |list| ==> list[k].repr != cs[|cs| - 1].repr
  {
    forall k | 0 <= k < |list| ensures list[k].repr != cs[|cs| - 1].repr {
      assert list[k] in list;
      var i :| 0 <= i < |cs| - 1 && cs[..|cs| - 1][i] == list[k];
      assert cs[i] == list[k];
    }
  }

  lemma {:induction false} PointersDistinct(cs: seq<Component>)
    requires DistinctReprs(cs)
    ensures DistinctReprs(PointersIn(cs))
  {
    if cs != [] {
      var init := cs[..|cs| - 1];
      PointersDistinct(init);
      PointersListed(init);
      LastIsNew(cs, PointersIn(init));
    }
  }

  lemma {:induction false} ValuesDistinct(cs: seq<Component>, t: string)
    requires DistinctReprs(cs)
    ensures DistinctReprs(ValuesIn(cs, t))
  {
    if cs != [] {
      var init := cs[..|cs| - 1];
      ValuesDistinct(init, t);
      ValuesListed(init, t);
      LastIsNew(cs, ValuesIn(init, t));
    }
  }

  /** Both tools pass the same number of arrays. */
  lemma SameArity(cs: seq<Component>)
    ensures |ParameterList(ToExpressions(cs))| == |ArgumentList(cs)|
  {
    SameLists(cs);
    PointersExist(cs);
    DereferencesExist(cs);
  }

  lemma PointersExist(cs: seq<Component>)
    ensures var es := ToExpressions(cs); (exists k :: 0 <= k < |es| && es[k].ty != INTEGER) <==> PointersIn(cs) != []
  {
    var es := ToExpressions(cs);
    PointersListed(cs);
    if exists k :: 0 <= k < |es| && es[k].ty != INTEGER {
      var k :| 0 <= k < |es| && es[k].ty != INTEGER;
      assert cs[k] in PointersIn(cs);
    }
    if PointersIn(cs) != [] {
      assert PointersIn(cs)[0] in PointersIn(cs);
      var k :| 0 <= k < |cs| && cs[k] == PointersIn(cs)[0];
      assert es[k].ty != INTEGER;
    }
  }

  lemma DereferencesExist(cs: seq<Component>)
    ensures var es := ToExpressions(cs); (exists k :: 0 <= k < |es| && es[k].kind == DEREFERENCE) <==> DereferencesIn(cs) != []
  {
    var es := ToExpressions(cs);
    PointersListed(cs);
    if exists k :: 0 <= k < |es| && es[k].kind == DEREFERENCE {
      var k :| 0 <= k < |es| && es[k].kind == DEREFERENCE;
      assert cs[k].repr in DereferencesIn(cs);
    }
    if DereferencesIn(cs) != [] {
      assert DereferencesIn(cs)[0] in DereferencesIn(cs);
      var k :| 0 <= k < |cs| && cs[k].isDereference && cs[k].repr == DereferencesIn(cs)[0];
      assert es[k].kind == DEREFERENCE;
    }
  }

  // ----- The renaming -----

  lemma {:induction false} RenamedAt(m: map<string, string>, reprs: seq<string>, arrayName: string)
    requires Distinct(reprs)
    ensures forall i :: 0 <= i < |reprs| ==>
              reprs[i] in RenameAll(m, reprs, arrayName) && RenameAll(m, reprs, arrayName)[reprs[i]] == SlotText(arrayName, i)
    ensures forall r :: r in m && r !in reprs ==>
              r in RenameAll(m, reprs, arrayName) && RenameAll(m, reprs, arrayName)[r] == m[r]
  {
    if reprs != [] {
      var init := reprs[..|reprs| - 1];
      RenamedAt(m, init, arrayName);
      forall i | 0 <= i < |init| ensures reprs[i] == init[i] && init[i] != reprs[|reprs| - 1] { }
    }
  }

  /** Component `c` is element `i` of the array called `name`. */
  ghost predicate HasSlot(cs: seq<Component>, c: Component, name: string, i: nat) {
    if c.isPointer then name == POINTER_ARG_NAME && i < |PointersIn(cs)| && PointersIn(cs)[i] == c
    else name == ArgNameByNonPtrType(c.rawType) && i < |ValuesIn(cs, c.rawType)| && ValuesIn(cs, c.rawType)[i] == c
  }

  lemma SlotNames(cs: seq<Component>, c: Component, name: string, i: nat)
    requires CallableNames(cs) && c in cs && HasSlot(cs, c, name, i)
    ensures NoBracket(name)
    ensures !c.isPointer ==> c.rawType in TypesIn(cs)
  {
    if !c.isPointer {
      ValuesListed(cs, c.rawType);
      assert ValuesIn(cs, c.rawType) != [];
      ArgNames(c.rawType, c.rawType);
    }
  }

  lemma SlotsAreDistinct(cs: seq<Component>, c: Component, c': Component, name: string, i: nat, name': string, i': nat)
    requires CallableNames(cs) && c in cs && c' in cs
    requires HasSlot(cs, c, name, i) && HasSlot(cs, c', name', i') && SlotText(name, i) == SlotText(name', i')
    ensures c == c'
  {
    SlotNames(cs, c, name, i);
    SlotNames(cs, c', name', i');
    SlotTextIsInjective(name, i, name', i');
    SameNameSameGroup(cs, c, c', name);
  }

  lemma SameNameSameGroup(cs: seq<Component>, c: Component, c': Component, name: string)
    requires CallableNames(cs) && (c.isPointer || c'.isPointer ==> PointersIn(cs) != [])
    requires !c.isPointer ==> c.rawType in TypesIn(cs)
    requires !c'.isPointer ==> c'.rawType in TypesIn(cs)
    requires name == if c.isPointer then POINTER_ARG_NAME else ArgNameByNonPtrType(c.rawType)
    requires name == if c'.isPointer then POINTER_ARG_NAME else ArgNameByNonPtrType(c'.rawType)
    ensures c.isPointer == c'.isPointer && (!c.isPointer ==> c.rawType == c'.rawType)
  {
    hide Underscored, ArgNameByNonPtrType, TypesIn, PointersIn;
    if !c.isPointer { ArgNames(c.rawType, c'.rawType); }
    if !c'.isPointer { ArgNames(c'.rawType, c.rawType); }
  }

  /** Every repr belongs to one group, so the groups do not overwrite each other. */
  lemma SameReprSameComponent(cs: seq<Component>, c: Component, c': Component)
    requires DistinctReprs(cs) && c in cs && c' in cs && c.repr == c'.repr
    ensures c == c'
  {
    var i :| 0 <= i < |cs| && cs[i] == c;
    var j :| 0 <= j < |cs| && cs[j] == c';
  }

  lemma {:induction false} RenamedInTypes(cs: seq<Component>, types: seq<string>, c: Component, i: nat)
    requires DistinctReprs(cs) && Distinct(types) && c in cs && !c.isPointer
    requires c.rawType in types && HasSlot(cs, c, ArgNameByNonPtrType(c.rawType), i)
    ensures var m := RenameTypes(ToExpressions(cs), types);
            c.repr in m && m[c.repr] == SlotText(ArgNameByNonPtrType(c.rawType), i)
  {
    var t := types[|types| - 1];
    var es, init := ToExpressions(cs), types[..|types| - 1];
    GroupReprs(cs, t);
    RenamedAt(RenameTypes(es, init), ReprsOf(es, t), ArgNameByNonPtrType(t));
    if c.rawType == t {
      assert ReprsOf(es, t)[i] == c.repr;
    } else {
      var k :| 0 <= k < |types| && types[k] == c.rawType;
      assert init[k] == c.rawType;
      RenamedInTypes(cs, init, c, i);
      NotInGroup(cs, t, c);
    }
  }

  lemma GroupReprs(cs: seq<Component>, t: string)
    requires DistinctReprs(cs)
    ensures ReprsOf(ToExpressions(cs), t) == Reprs(ValuesIn(cs, t))
    ensures Distinct(ReprsOf(ToExpressions(cs), t))
  {
    SameLists(cs);
    ValuesDistinct(cs, t);
  }

  lemma NotInGroup(cs: seq<Component>, t: string, c: Component)
    requires DistinctReprs(cs) && c in cs && c.rawType != t
    ensures c.repr !in Reprs(ValuesIn(cs, t))
  {
    var group := ValuesIn(cs, t);
    if c.repr in Reprs(group) {
      var k :| 0 <= k < |group| && Reprs(group)[k] == c.repr;
      assert group[k] in group;
      ValuesListed(cs, t);
      SameReprSameComponent(cs, c, group[k]);
    }
  }

  /** The renaming sends every component to its slot. */
  lemma RenamingIsCorrect(cs: seq<Component>, c: Component) returns (name: string, i: nat)
    requires DistinctReprs(cs) && CallableNames(cs) && c in cs
    ensures HasSlot(cs, c, name, i)
    ensures var m := RuntimeRenaming(ToExpressions(cs)); c.repr in m && m[c.repr] == SlotText(name, i)
  {
    var es := ToExpressions(cs);
    var types := SortNames(TypesOf(es));
    SameLists(cs);
    PointersDistinct(cs);
    PointersListed(cs);
    ValuesListed(cs, c.rawType);
    var reprs := PointerReprs(es);
    assert Distinct(reprs);
    RenamedAt(RenameTypes(es, types), reprs, POINTER_ARG_NAME);
    if c.isPointer {
      name := POINTER_ARG_NAME;
      i :| 0 <= i < |PointersIn(cs)| && PointersIn(cs)[i] == c;
      assert reprs[i] == c.repr;
    } else {
      name := ArgNameByNonPtrType(c.rawType);
      i :| 0 <= i < |ValuesIn(cs, c.rawType)| && ValuesIn(cs, c.rawType)[i] == c;
      RenamedInTypes(cs, types, c, i);
      if c.repr in reprs {
        var k :| 0 <= k < |reprs| && reprs[k] == c.repr;
        assert PointersIn(cs)[k] in PointersIn(cs);
        SameReprSameComponent(cs, c, PointersIn(cs)[k]);
      }
    }
  }

  // ----- The agreement -----

  /** The call binds each array parameter to the array at its position. */
  ghost predicate Binds(m: Machine, cs: seq<Component>, env: Env) {
    var names, args := ParameterList(ToExpressions(cs)), ArgumentList(cs);
    && |names| == |args|
    && forall p :: 0 <= p < |args| ==> BindsArray(m, names[p], Contents(args[p], env))
  }

  ghost predicate BindsArray(m: Machine, name: string, values: seq<int>) {
    forall i :: 0 <= i < |values| ==> m.slots(SlotText(name, i)) == values[i]
  }

  /** Where each kind of array is in the call, and under which name in the generated function. */
  lemma ValuesBound(m: Machine, cs: seq<Component>, env: Env, t: string)
    requires Binds(m, cs, env) && t in TypesIn(cs)
    ensures BindsArray(m, ArgNameByNonPtrType(t), Contents(Values(t, ElementsOf(ValuesIn(cs, t), BasesIn(cs))), env))
  {
    var types := SortNames(TypesIn(cs));
    SameLists(cs);
    var p :| 0 <= p < |types| && types[p] == t;
    assert ParameterList(ToExpressions(cs))[p] == ArgNameByNonPtrType(t);
    assert ArgumentList(cs)[p] == Values(t, ElementsOf(ValuesIn(cs, t), BasesIn(cs)));
  }

  lemma PointersBound(m: Machine, cs: seq<Component>, env: Env)
    requires Binds(m, cs, env) && PointersIn(cs) != []
    ensures BindsArray(m, POINTER_ARG_NAME, Contents(Values("void*", ElementsOf(PointersIn(cs), BasesIn(cs))), env))
    ensures BindsArray(m, SIZES_ARG_NAME, Contents(Sizes(SortNames(CompleteIn(cs))), env))
  {
    var p := |TypesIn(cs)|;
    PointerNames(cs);
    PointerArguments(cs);
    hide ParameterList, ArgumentList, BindsArray, Contents;
    assert BindsArray(m, ParameterList(ToExpressions(cs))[p], Contents(ArgumentList(cs)[p], env));
    assert BindsArray(m, ParameterList(ToExpressions(cs))[p + 1], Contents(ArgumentList(cs)[p + 1], env));
  }

  /** Behind the arrays of the other types come the pointers, then the sizes. */
  lemma PointerNames(cs: seq<Component>)
    requires PointersIn(cs) != []
    ensures var names, p := ParameterList(ToExpressions(cs)), |TypesIn(cs)|;
            p + 1 < |names| && names[p] == POINTER_ARG_NAME && names[p + 1] == SIZES_ARG_NAME
  {
    SameLists(cs);
    PointersExist(cs);
  }

  lemma PointerArguments(cs: seq<Component>)
    requires PointersIn(cs) != []
    ensures var args, p := ArgumentList(cs), |TypesIn(cs)|;
            && p + 1 < |args| && args[p] == Values("void*", ElementsOf(PointersIn(cs), BasesIn(cs)))
            && args[p + 1] == Sizes(SortNames(CompleteIn(cs)))
  {
  }

  lemma FlagsBound(m: Machine, cs: seq<Component>, env: Env)
    requires Binds(m, cs, env) && DereferencesIn(cs) != []
    ensures var members := FlagsOf(SortNames(DereferencesIn(cs)), BasesIn(cs));
            BindsArray(m, NULLDEREF_ARG_NAME, Contents(NullFlags(members), env))
  {
    var names, args := ParameterList(ToExpressions(cs)), ArgumentList(cs);
    SameLists(cs);
    PointersExist(cs);
    DereferencesExist(cs);
    SameArity(cs);
    assert names[|names| - 1] == NULLDEREF_ARG_NAME;
    assert args[|args| - 1] == NullFlags(FlagsOf(SortNames(DereferencesIn(cs)), BasesIn(cs)));
  }

  /** A component's element is guarded by its base exactly if it is a dereference. */
  lemma GuardedIffDereference(cs: seq<Component>, c: Component)
    requires DistinctReprs(cs) && c in cs
    ensures c.repr in BasesIn(cs) <==> c.isDereference
  {
    PointersListed(cs);
    var i :| 0 <= i < |cs| && cs[i] == c;
    if c.isDereference { assert c.repr in DereferencesIn(cs); }
    if c.repr in BasesIn(cs) {
      var k :| 0 <= k < |cs| && cs[k].isDereference && cs[k].repr == c.repr;
      assert k == i;
    }
  }

  lemma SlotValue(m: Machine, cs: seq<Component>, env: Env, c: Component, name: string, i: nat)
    requires Binds(m, cs, env) && DistinctReprs(cs) && CallableNames(cs) && c in cs && HasSlot(cs, c, name, i)
    ensures m.slots(SlotText(name, i)) == if c.isDereference && env.baseIsNull(c.repr) then 0 else env.values(c.repr)
  {
    GuardedIffDereference(cs, c);
    SlotNames(cs, c, name, i);
    if c.isPointer {
      PointersBound(m, cs, env);
    } else {
      ValuesBound(m, cs, env, c.rawType);
    }
  }

  lemma FlagValue(m: Machine, cs: seq<Component>, env: Env, c: Component, slot: string)
    requires Binds(m, cs, env) && DistinctReprs(cs) && CallableNames(cs) && c in cs && c.isDereference
    requires var renaming := RuntimeRenaming(ToExpressions(cs)); c.repr in renaming && slot == renaming[c.repr]
    ensures var flags := NullDerefCondition(ToExpressions(cs), RuntimeRenaming(ToExpressions(cs)));
            slot in flags && m.slots(flags[slot]) == Truth(env.baseIsNull(c.repr))
  {
    hide RuntimeRenaming, NullDerefCondition, SlotText, Binds, CallableNames, DereferencesIn, BasesIn, SortNames, DistinctReprs;
    var k := FlagIndex(cs, c);
    FlagSlot(cs, k);
    assert RuntimeReprs(SortNames(DereferencesIn(cs)), RuntimeRenaming(ToExpressions(cs)))[k] == slot;
    FlagAt(m, cs, env, k);
  }

  lemma FlagAt(m: Machine, cs: seq<Component>, env: Env, k: nat)
    requires Binds(m, cs, env) && k < |DereferencesIn(cs)|
    ensures m.slots(SlotText(NULLDEREF_ARG_NAME, k)) == Truth(env.baseIsNull(SortNames(DereferencesIn(cs))[k]))
  {
    var flags := NullFlags(FlagsOf(SortNames(DereferencesIn(cs)), BasesIn(cs)));
    FlagsBound(m, cs, env);
    hide SlotText, Binds, DereferencesIn, BasesIn, SortNames;
    assert m.slots(SlotText(NULLDEREF_ARG_NAME, k)) == Contents(flags, env)[k];
  }

  lemma FlagIndex(cs: seq<Component>, c: Component) returns (k: nat)
    requires c in cs && c.isDereference
    ensures k < |DereferencesIn(cs)| && SortNames(DereferencesIn(cs))[k] == c.repr
  {
    PointersListed(cs);
    var i :| 0 <= i < |cs| && cs[i] == c;
    assert c.repr in DereferencesIn(cs);
    var names := SortNames(DereferencesIn(cs));
    k :| 0 <= k < |names| && names[k] == c.repr;
  }

  lemma FlagSlot(cs: seq<Component>, k: nat)
    requires DistinctReprs(cs) && CallableNames(cs) && k < |DereferencesIn(cs)|
    ensures var renaming := RuntimeRenaming(ToExpressions(cs));
            var slot := RuntimeReprs(SortNames(DereferencesIn(cs)), renaming)[k];
            var flags := NullDerefCondition(ToExpressions(cs), renaming);
            slot in flags && flags[slot] == SlotText(NULLDEREF_ARG_NAME, k)
  {
    var renaming := RuntimeRenaming(ToExpressions(cs));
    SameLists(cs);
    DereferenceSlotsDistinct(cs);
    RenamedAt(map[], RuntimeReprs(SortNames(DereferencesIn(cs)), renaming), NULLDEREF_ARG_NAME);
  }

  lemma DereferenceSlotsDistinct(cs: seq<Component>)
    requires DistinctReprs(cs) && CallableNames(cs)
    ensures Distinct(RuntimeReprs(SortNames(DereferencesIn(cs)), RuntimeRenaming(ToExpressions(cs))))
  {
    var names := SortNames(DereferencesIn(cs));
    var renaming := RuntimeRenaming(ToExpressions(cs));
    var slots := RuntimeReprs(names, renaming);
    PointersListed(cs);
    forall a, b | 0 <= a < b < |slots| ensures slots[a] != slots[b] {
      assert names[a] in names && names[b] in names;
      var i :| 0 <= i < |cs| && cs[i].isDereference && cs[i].repr == names[a];
      var j :| 0 <= j < |cs| && cs[j].isDereference && cs[j].repr == names[b];
      var name, k := RenamingIsCorrect(cs, cs[i]);
      var name', k' := RenamingIsCorrect(cs, cs[j]);
      if slots[a] == slots[b] {
        SlotsAreDistinct(cs, cs[i], cs[j], name, k, name', k');
      }
    }
  }

  /** The application the repair tool reads back from the transformation tool. */
  ghost predicate ReadFrom(sa: SchemaApplication, cs: seq<Component>) {
    sa.components == ToExpressions(cs) && sa.completePointeeTypes == SortNames(CompleteIn(cs))
  }

  lemma SizeValue(m: Machine, cs: seq<Component>, env: Env, t: string)
    requires Binds(m, cs, env) && t in SortNames(CompleteIn(cs))
    ensures SizeHolds(m, env, TypeSizes(SortNames(CompleteIn(cs))), t)
  {
    var pointees := SortNames(CompleteIn(cs));
    RenamedAt(map[], pointees, SIZES_ARG_NAME);
    CompleteMeansPointers(cs);
    PointersBound(m, cs, env);
    var k :| 0 <= k < |pointees| && pointees[k] == t;
    assert Contents(Sizes(pointees), env)[k] == env.sizeOf(t);
  }

  lemma {:induction false} CompleteMeansPointers(cs: seq<Component>)
    ensures CompleteIn(cs) != [] ==> PointersIn(cs) != []
  {
    if cs != [] { CompleteMeansPointers(cs[..|cs| - 1]); }
  }

  /** What one tool writes is what the other reads: with the arrays bound by position, the
      generated code sees every component, pointee size and null flag of the program state. */
  lemma LayoutsAgree(m: Machine, sa: SchemaApplication, cs: seq<Component>, env: Env)
    requires ReadFrom(sa, cs) && DistinctReprs(cs) && CallableNames(cs)
    requires Binds(m, cs, env) && m.prims == env.prims
    ensures Represents(m, env, LayoutOf(sa), sa.components, sa.completePointeeTypes)
  {
    forall t | t in sa.completePointeeTypes ensures SizeHolds(m, env, LayoutOf(sa).sizeByType, t) {
      SizeValue(m, cs, env, t);
    }
    ComponentsAgree(m, sa, cs, env);
  }

  lemma ComponentsAgree(m: Machine, sa: SchemaApplication, cs: seq<Component>, env: Env)
    requires ReadFrom(sa, cs) && DistinctReprs(cs) && CallableNames(cs)
    requires Binds(m, cs, env)
    ensures forall k :: 0 <= k < |sa.components| ==> SlotHolds(m, env, LayoutOf(sa), sa.components[k])
  {
    forall k | 0 <= k < |sa.components| ensures SlotHolds(m, env, LayoutOf(sa), sa.components[k]) {
      assert sa.components[k] == ToExpression(cs[k]);
      ComponentAgrees(m, sa, cs, env, cs[k]);
    }
  }

  lemma ComponentAgrees(m: Machine, sa: SchemaApplication, cs: seq<Component>, env: Env, c: Component)
    requires ReadFrom(sa, cs) && DistinctReprs(cs) && CallableNames(cs) && c in cs
    requires Binds(m, cs, env)
    ensures SlotHolds(m, env, LayoutOf(sa), ToExpression(c))
  {
    var name, i := RenamingIsCorrect(cs, c);
    SlotValue(m, cs, env, c, name, i);
    if c.isDereference {
      FlagValue(m, cs, env, c, SlotText(name, i));
    }
  }
}
