/** In which order the Boolean expressions and the patches of the space are listed
    (repair/Synthesis.cpp:211-273, 709-788): the order of generation decides between patches of equal cost. */
module SpaceOrder {
  import opened Core
  import opened Expressions
  import opened Synthesis
  import opened Dispatch
  import opened SearchSpace
  import opened Generation
  import opened EnumerationOrder

  // ----- Ranges of keys -----

  /** From `low` up to but not including `high`. */
  predicate Within(low: Key, key: Key, high: Key) {
    !Less(key, low) && Less(key, high)
  }

  lemma {:induction false} LessThrough(a: Key, m: Key, b: Key)
    requires Less(a, m) && !Less(b, m)
    ensures Less(a, b)
  {
    if a != [] && b != [] && a[0] == m[0] && b[0] == m[0] { LessThrough(a[1..], m[1..], b[1..]); }
  }

  lemma WithinEither(low: Key, mid: Key, high: Key, key: Key)
    requires !Less(mid, low) && !Less(high, mid)
    ensures Within(low, key, high) <==> Within(low, key, mid) || Within(mid, key, high)
  {
    if Less(key, mid) { LessThrough(key, mid, high); }
    if Less(key, low) { LessThrough(key, low, mid); }
  }

  lemma LessAcross(low: Key, a: Key, mid: Key, b: Key, high: Key)
    requires Within(low, a, mid) && Within(mid, b, high)
    ensures Less(a, b)
  {
    LessThrough(a, mid, b);
  }

  lemma LessThanOne(key: Key, l: nat)
    requires key != []
    ensures Less(key, [l]) <==> key[0] < l
  {
    assert [l][1..] == [];
  }

  lemma LessThanTwo(key: Key, l: nat, r: nat)
    requires |key| >= 2
    ensures Less(key, [l, r]) <==> key[0] < l || (key[0] == l && key[1] < r)
  {
    assert [l, r][1..] == [r];
    LessThanOne(key[1..], r);
  }

  // ----- The expressions for the Boolean hole -----

  /** The expression with this key: the place of the left component; 0, or one more than the place of
      the right one; and the operator. A pointer is compared with NULL first, an integer with the parameter. */
  function Bool2At(components: seq<Expression>, key: Key): Option<Expression> {
    if |key| != 3 || key[0] >= |components| || key[1] > |components| then None else
      var left := components[key[0]];
      if left.ty == PTR then
        var right := if key[1] == 0 then NULL_NODE else components[key[1] - 1];
        if key[2] < 2 && (key[1] == 0 || (right.ty == PTR && right.rawType == left.rawType))
        then Some(ApplyBoolOperator(if key[2] == 0 then EQ else NEQ, left, right)) else None
      else if left.ty == INTEGER then
        var right := if key[1] == 0 then PARAMETER_NODE else components[key[1] - 1];
        if key[2] < 6 && right.ty == INTEGER then Some(ApplyBoolOperator(OperatorWith(key[2]), left, right)) else None
      else None
  }

  ghost predicate Lists(components: seq<Expression>, low: Key, high: Key, list: seq<Expression>, keys: seq<Key>) {
    && |keys| == |list| && Increasing(keys)
    && (forall i :: 0 <= i < |keys| ==> Within(low, keys[i], high) && Bool2At(components, keys[i]) == Some(list[i]))
    && (forall key: Key :: Within(low, key, high) && Bool2At(components, key).Some? ==> key in keys)
  }

  lemma ListsJoined(
    components: seq<Expression>, low: Key, mid: Key, high: Key,
    a: seq<Expression>, ka: seq<Key>, b: seq<Expression>, kb: seq<Key>)
    requires !Less(mid, low) && !Less(high, mid)
    requires Lists(components, low, mid, a, ka) && Lists(components, mid, high, b, kb)
    ensures Lists(components, low, high, a + b, ka + kb)
  {
    hide Bool2At, Less, Within;
    var keys := ka + kb;
    forall i, j | 0 <= i < j < |keys| ensures Less(keys[i], keys[j]) {
      if i < |ka| <= j {
        assert keys[i] == ka[i] && keys[j] == kb[j - |ka|];
        LessAcross(low, ka[i], mid, kb[j - |ka|], high);
      } else if i >= |ka| {
        assert keys[i] == kb[i - |ka|] && keys[j] == kb[j - |ka|];
      }
    }
    forall i | 0 <= i < |keys| ensures Within(low, keys[i], high) {
      WithinEither(low, mid, high, keys[i]);
    }
    forall key: Key | Within(low, key, high) && Bool2At(components, key).Some? ensures key in keys {
      WithinEither(low, mid, high, key);
    }
  }

  /** The keys of one pair. */
  function PairKeys(l: nat, r: nat, n: nat): (keys: seq<Key>)
    ensures |keys| == n && forall k :: 0 <= k < n ==> keys[k] == [l, r, k]
  {
    seq(n, k requires 0 <= k < n => [l, r, k])
  }

  lemma KeyOfPair(l: nat, r: nat, key: Key)
    requires |key| == 3
    ensures Within([l, r], key, [l, r + 1]) <==> key[0] == l && key[1] == r
  {
    LessThanTwo(key, l, r);
    LessThanTwo(key, l, r + 1);
  }

  /** What the components compared are listed as. */
  lemma PairListed(components: seq<Expression>, l: nat, r: nat, list: seq<Expression>)
    requires forall k :: 0 <= k < |list| ==> Bool2At(components, [l, r, k]) == Some(list[k])
    requires forall k: nat :: Bool2At(components, [l, r, k]).Some? ==> k < |list|
    ensures Lists(components, [l, r], [l, r + 1], list, PairKeys(l, r, |list|))
  {
    hide Within;
    hide Less;
    var keys := PairKeys(l, r, |list|);
    forall i, j | 0 <= i < j < |keys| ensures Less(keys[i], keys[j]) {
      PairLess(l, r, i, j);
    }
    forall i | 0 <= i < |keys| ensures Within([l, r], keys[i], [l, r + 1]) {
      KeyOfPair(l, r, keys[i]);
    }
    forall key: Key | Within([l, r], key, [l, r + 1]) && Bool2At(components, key).Some? ensures key in keys {
      KeyOfPair(l, r, key);
      assert key == [l, r, key[2]];
      assert keys[key[2]] == key;
    }
  }

  lemma PairLess(l: nat, r: nat, i: nat, j: nat)
    requires i < j
    ensures Less([l, r, i], [l, r, j])
  {
    assert [l, r, i][1..] == [r, i] && [l, r, j][1..] == [r, j] && [r, i][1..] == [i] && [r, j][1..] == [j];
  }

  /** What is listed for a left component and the right ones from place `from` on. */
  function Rest(left: Expression, components: seq<Expression>): seq<Expression> {
    if left.ty == PTR then PointerComparisons(left, components) else IntegerComparisons(left, components)
  }

  lemma {:induction false} RightsListed(components: seq<Expression>, l: nat, from: nat) returns (keys: seq<Key>)
    requires l < |components| && components[l].ty in {PTR, INTEGER} && from <= |components|
    ensures Lists(components, [l, from + 1], [l, |components| + 1], Rest(components[l], components[from..]), keys)
    decreases |components| - from
  {
    var left := components[l];
    if from == |components| {
      keys := [];
      assert components[from..] == [];
    } else {
      var rest := RightsListed(components, l, from + 1);
      var list := OneRight(components, l, from);
      ListsJoined(components, [l, from + 1], [l, from + 2], [l, |components| + 1],
                  list, PairKeys(l, from + 1, |list|), Rest(left, components[from + 1..]), rest) by {
        PlacesIncrease(l, from + 1, from + 2);
        PlacesIncrease(l, from + 2, |components| + 1);
      }
      keys := PairKeys(l, from + 1, |list|) + rest;
    }
  }

  lemma PlacesIncrease(l: nat, r: nat, r': nat)
    requires r <= r'
    ensures !Less([l, r'], [l, r])
  {
    LessThanTwo([l, r'], l, r);
  }

  lemma OneRight(components: seq<Expression>, l: nat, from: nat) returns (list: seq<Expression>)
    requires l < |components| && components[l].ty in {PTR, INTEGER} && from < |components|
    ensures Rest(components[l], components[from..]) == list + Rest(components[l], components[from + 1..])
    ensures Lists(components, [l, from + 1], [l, from + 2], list, PairKeys(l, from + 1, |list|))
  {
    hide Lists, Less;
    var left, right := components[l], components[from];
    assert components[from..][0] == right && components[from..][1..] == components[from + 1..];
    list :=
      if left.ty == PTR then
        if right.ty == PTR && left.rawType == right.rawType
        then [ApplyBoolOperator(EQ, left, right), ApplyBoolOperator(NEQ, left, right)] else []
      else if right.ty == INTEGER then ComparisonsWith(left, right) else [];
    PairListed(components, l, from + 1, list);
  }

  lemma LeftListed(components: seq<Expression>, l: nat) returns (keys: seq<Key>)
    requires l < |components| && components[l].ty in {PTR, INTEGER}
    ensures Bool2For(components[l], components).Some?
    ensures Lists(components, [l], [l + 1], Bool2For(components[l], components).value, keys)
  {
    hide Lists, Less;
    var left := components[l];
    var first := if left.ty == PTR then [MakeNULLCheck(left), MakeNonNULLCheck(left)] else ComparisonsWith(left, PARAMETER_NODE);
    PairListed(components, l, 0, first);
    assert components[0..] == components;
    var rest := RightsListed(components, l, 0);
    var list := Rest(left, components);
    ListsJoined(components, [l, 0], [l, 1], [l, |components| + 1], first, PairKeys(l, 0, |first|), list, rest) by {
      PlacesIncrease(l, 0, 1);
      PlacesIncrease(l, 1, |components| + 1);
    }
    keys := PairKeys(l, 0, |first|) + rest;
    OnlyPairs(components, l, first + list, keys);
  }

  /** Every key has three numbers. */
  lemma OnlyPairs(components: seq<Expression>, l: nat, list: seq<Expression>, keys: seq<Key>)
    requires Lists(components, [l, 0], [l, |components| + 1], list, keys)
    ensures Lists(components, [l], [l + 1], list, keys)
  {
    forall key: Key | |key| == 3
      ensures Within([l, 0], key, [l, |components| + 1]) ==> Within([l], key, [l + 1])
      ensures Within([l], key, [l + 1]) && key[1] <= |components| ==> Within([l, 0], key, [l, |components| + 1])
    {
      KeyOfLeft(l, key, |components| + 1);
    }
    hide Within;
    hide Less;
  }

  lemma KeyOfLeft(l: nat, key: Key, n: nat)
    requires |key| == 3
    ensures Within([l, 0], key, [l, n]) <==> key[0] == l && key[1] < n
    ensures Within([l], key, [l + 1]) <==> key[0] == l
  {
    LessThanTwo(key, l, 0);
    LessThanTwo(key, l, n);
    LessThanOne(key, l);
    LessThanOne(key, l + 1);
  }

  lemma {:induction false} LeftsListed(components: seq<Expression>, from: nat) returns (keys: seq<Key>)
    requires AreComponents(components) && from <= |components|
    ensures Bool2From(components[from..], components).Some?
    ensures Lists(components, [from], [|components|], Bool2From(components[from..], components).value, keys)
    decreases |components| - from
  {
    hide Lists, Bool2At, Bool2For;
    keys := [];
    if from == |components| {
      NoLeft(components);
      assert components[from..] == [];
    } else {
      assert components[from..][0] == components[from] && components[from..][1..] == components[from + 1..];
      assert IsComponent(components[from]);
      var first := LeftListed(components, from);
      var rest := LeftsListed(components, from + 1);
      ListsJoined(components, [from], [from + 1], [|components|], Bool2For(components[from], components).value, first,
                  Bool2From(components[from + 1..], components).value, rest);
      keys := first + rest;
    }
  }

  lemma NoLeft(components: seq<Expression>)
    ensures Lists(components, [|components|], [|components|], [], [])
  {
  }

  /** The expressions for the Boolean hole are listed in the order of their keys, each place once. */
  lemma Bool2InOrder(components: seq<Expression>) returns (keys: seq<Key>)
    requires AreComponents(components)
    ensures Bool2Expressions(components).Some?
    ensures var list := Bool2Expressions(components).value;
            && |keys| == |list| && Increasing(keys)
            && (forall i :: 0 <= i < |keys| ==> Bool2At(components, keys[i]) == Some(list[i]))
            && forall key: Key :: Bool2At(components, key).Some? ==> key in keys
  {
    keys := LeftsListed(components, 0);
    assert components[0..] == components;
    forall key: Key | Bool2At(components, key).Some? ensures Within([0], key, [|components|]) {}
  }

  // ----- The patches -----

  /** By modification; then the last Boolean expression first; then the smallest parameter first. */
  predicate Before(a: PatchID, b: PatchID) {
    || a.base < b.base
    || (a.base == b.base && a.bool2 > b.bool2)
    || (a.base == b.base && a.bool2 == b.bool2 && a.param < b.param)
  }

  predicate InOrderOfIds(ids: seq<PatchID>) {
    forall i, j :: 0 <= i < j < |ids| ==> Before(ids[i], ids[j])
  }

  lemma IdsJoined(a: seq<PatchID>, b: seq<PatchID>)
    requires InOrderOfIds(a) && InOrderOfIds(b) && forall x, y :: x in a && y in b ==> Before(x, y)
    ensures InOrderOfIds(a + b)
  {
    forall i, j | 0 <= i < j < |a + b| ensures Before((a + b)[i], (a + b)[j]) {
      if i < |a| <= j {
        assert (a + b)[i] in a && (a + b)[j] in b;
      }
    }
  }

  lemma ParametersInOrder(c: Candidate, paramBound: nat)
    ensures InOrderOfIds(Ids(WithParameter(c, paramBound)))
    ensures forall id :: id in Ids(WithParameter(c, paramBound)) ==> id.base == c.id.base && id.bool2 == c.id.bool2
  {
  }

  lemma {:induction false} Bool2InstancesInOrder(c: Candidate, bools: seq<Expression>, n: nat, paramBound: nat)
    requires n <= |bools|
    ensures InOrderOfIds(Ids(Bool2Instances(c, bools, n, paramBound)))
    ensures forall id :: id in Ids(Bool2Instances(c, bools, n, paramBound)) ==> id.base == c.id.base && id.bool2 <= n
  {
    hide WithParameter;
    if n > 0 {
      var w := WithBool2(c, bools, n);
      ParametersInOrder(w, paramBound);
      Bool2InstancesInOrder(c, bools, n - 1, paramBound);
      var a, b := WithParameter(w, paramBound), Bool2Instances(c, bools, n - 1, paramBound);
      IdsJoined(Ids(a), Ids(b));
      assert Ids(a + b) == Ids(a) + Ids(b);
    }
  }

  /** In order, and with bases from `low` up to but not including `high`. */
  predicate AreOrdered(patches: seq<Patch>, low: nat, high: nat) {
    && InOrderOfIds(PatchIds(patches))
    && forall k :: 0 <= k < |patches| ==> low <= patches[k].id.base < high
  }

  lemma OrderedJoined(a: seq<Patch>, b: seq<Patch>, low: nat, mid: nat, high: nat)
    requires AreOrdered(a, low, mid) && AreOrdered(b, mid, high) && low <= mid <= high
    ensures AreOrdered(a + b, low, high)
  {
    forall x, y | x in PatchIds(a) && y in PatchIds(b) ensures Before(x, y) {
      assert exists k :: 0 <= k < |a| && a[k].id == x;
      assert exists k :: 0 <= k < |b| && b[k].id == y;
    }
    IdsJoined(PatchIds(a), PatchIds(b));
    assert PatchIds(a + b) == PatchIds(a) + PatchIds(b);
  }

  lemma NothingOrdered(low: nat)
    ensures AreOrdered([], low, low)
  {
  }

  lemma BaseInOrder(sa: SchemaApplication, m: Modification, base: nat, paramBound: nat)
    ensures AreOrdered(PatchesOfBase(sa, m, base, paramBound), base, base + 1)
  {
    var c := Start(base, m.expr);
    var instances := Instances(c, Bools(sa), paramBound);
    ParametersInOrder(c, paramBound);
    Bool2InstancesInOrder(c, Bools(sa), |Bools(sa)|, paramBound);
    hide Instances;
    var patches := ToPatches(instances, sa, m.meta);
    assert PatchIds(patches) == Ids(instances);
    forall k | 0 <= k < |patches| ensures patches[k].id.base == base {
      assert PatchIds(patches)[k] in Ids(instances);
    }
  }

  lemma {:induction false} UpToInOrder(sa: SchemaApplication, mods: seq<Modification>, firstBase: nat, paramBound: nat, n: nat)
    requires n <= |mods|
    ensures AreOrdered(PatchesUpTo(sa, mods, firstBase, paramBound, n), firstBase, firstBase + n)
  {
    hide PatchesOfBase, AreOrdered;
    NothingOrdered(firstBase);
    if n > 0 {
      UpToInOrder(sa, mods, firstBase, paramBound, n - 1);
      BaseInOrder(sa, mods[n - 1], firstBase + (n - 1), paramBound);
      OrderedJoined(PatchesUpTo(sa, mods, firstBase, paramBound, n - 1), PatchesOfBase(sa, mods[n - 1], firstBase + (n - 1), paramBound),
                    firstBase, firstBase + (n - 1), firstBase + n);
    }
  }

  lemma {:induction false} SpaceUpToInOrder(sas: seq<SchemaApplication>, bounds: Bounds, n: nat)
    requires n <= |sas|
    ensures FirstBase(sas, n) >= 1 && AreOrdered(SpaceUpTo(sas, bounds, n), 1, FirstBase(sas, n))
  {
    hide Mods, PatchesUpTo, AreOrdered;
    NothingOrdered(1);
    if n > 0 {
      var sa, first := sas[n - 1], FirstBase(sas, n - 1);
      SpaceUpToInOrder(sas, bounds, n - 1);
      UpToInOrder(sa, Mods(sa), first, ParamBound(sa, bounds), |Mods(sa)|);
      OrderedJoined(SpaceUpTo(sas, bounds, n - 1), PatchesOf(sa, first, bounds), 1, first, FirstBase(sas, n));
    }
  }

  /** The whole space is listed in the order of its identifiers. */
  lemma SpaceInOrder(sas: seq<SchemaApplication>, bounds: Bounds)
    ensures InOrderOfIds(PatchIds(Space(sas, bounds)))
  {
    hide SpaceUpTo;
    SpaceUpToInOrder(sas, bounds, |sas|);
  }

  // ----- The base numbers -----

  /** `n` is the base of modification `j` of application `k`. */
  predicate IsBaseOf(sas: seq<SchemaApplication>, k: nat, j: nat, n: nat) {
    k < |sas| && j < |Mods(sas[k])| && n == FirstBase(sas, k) + j
  }

  lemma {:induction false} BaseIsGiven(sas: seq<SchemaApplication>, n: nat, count: nat)
    requires count <= |sas| && 1 <= n < FirstBase(sas, count)
    ensures exists k, j :: IsBaseOf(sas, k, j, n)
  {
    hide Mods;
    if count > 0 {
      if n < FirstBase(sas, count - 1) {
        BaseIsGiven(sas, n, count - 1);
      } else {
        assert IsBaseOf(sas, count - 1, n - FirstBase(sas, count - 1), n);
      }
    }
  }

  lemma {:induction false} BasesIncrease(sas: seq<SchemaApplication>, k: nat, l: nat)
    requires k < l <= |sas|
    ensures 1 <= FirstBase(sas, k) && FirstBase(sas, k) + |Mods(sas[k])| <= FirstBase(sas, l)
    decreases l
  {
    hide Mods;
    if k < l - 1 { BasesIncrease(sas, k, l - 1); } else if k > 0 { BasesIncrease(sas, k - 1, k); }
  }

  /** The modifications of all applications are numbered from 1 without gaps, each once. */
  lemma BasesAreConsecutive(sas: seq<SchemaApplication>, n: nat)
    ensures 1 <= n < FirstBase(sas, |sas|) <==> exists k, j :: IsBaseOf(sas, k, j, n)
    ensures forall k, j, k', j' :: IsBaseOf(sas, k, j, n) && IsBaseOf(sas, k', j', n) ==> k == k' && j == j'
  {
    hide Mods, FirstBase;
    forall k, j | IsBaseOf(sas, k, j, n) ensures 1 <= n < FirstBase(sas, |sas|) { BasesIncrease(sas, k, |sas|); }
    forall k, j, k', j' | IsBaseOf(sas, k, j, n) && IsBaseOf(sas, k', j', n) ensures k == k' && j == j' {
      if k < k' { BasesIncrease(sas, k, k'); }
      if k' < k { BasesIncrease(sas, k', k); }
    }
    if 1 <= n < FirstBase(sas, |sas|) { BaseIsGiven(sas, n, |sas|); }
  }
}
