/** The cost of a candidate patch and the order it induces (repair/Prioritization.cpp:22-61,
    repair/Repair.cpp:56-63). */
module Prioritization {
  import opened Core

  const GOOD: real := 0.2
  const OK: real := 0.1

  function SyntacticDiff(el: Patch): real {
    var distance := el.meta.distance as real;
    match el.app.schema
    case EXPRESSION =>
      (match el.meta.rule
       case REPLACE_OPERATOR => distance - GOOD
       case SWAPING => distance - GOOD
       case SIMPLIFICATION => distance - GOOD
       case GENERALIZATION => distance - GOOD
       case SUBSTITUTION => distance - GOOD
       case LOOSENING => distance - OK
       case TIGHTENING => distance - OK
       case _ => distance)
    case IF_GUARD => distance - GOOD
    case _ => distance
  }

  /** How much a transformation is favoured among edits of the same distance: 0 is best. */
  function Tier(el: Patch): nat {
    if el.app.schema == IF_GUARD then 0
    else if el.app.schema != EXPRESSION then 2
    else if el.meta.rule in {REPLACE_OPERATOR, SWAPING, SIMPLIFICATION, GENERALIZATION, SUBSTITUTION} then 0
    else if el.meta.rule in {LOOSENING, TIGHTENING} then 1
    else 2
  }

  /** The cost is lexicographic: the distance decides, the tier breaks ties. */
  lemma CostIsLexicographic(a: Patch, b: Patch)
    ensures SyntacticDiff(a) < SyntacticDiff(b) <==>
            a.meta.distance < b.meta.distance || (a.meta.distance == b.meta.distance && Tier(a) < Tier(b))
    ensures SyntacticDiff(a) == SyntacticDiff(b) <==>
            a.meta.distance == b.meta.distance && Tier(a) == Tier(b)
  {
    CostByTier(a);
    CostByTier(b);
  }

  lemma CostByTier(a: Patch)
    ensures SyntacticDiff(a) == a.meta.distance as real - [GOOD, OK, 0.0][Tier(a)]
  {
  }

  // ----- The stable sort -----

  type Cost = Patch -> real

  /** Candidate `i` comes before candidate `j`: it is cheaper, or as cheap and generated earlier. */
  predicate Before(space: seq<Patch>, cost: Cost, i: nat, j: nat)
    requires i < |space| && j < |space|
  {
    cost(space[i]) < cost(space[j]) || (cost(space[i]) == cost(space[j]) && i < j)
  }

  /** `order` lists every index of `space` once, in stable cost order. */
  ghost predicate IsOrder(space: seq<Patch>, cost: Cost, order: seq<nat>) {
    && |order| == |space|
    && (forall a :: 0 <= a < |order| ==> order[a] < |space|)
    && (forall i :: 0 <= i < |space| ==> i in order)
    && (forall a, b :: 0 <= a < b < |order| ==> Before(space, cost, order[a], order[b]))
  }

  /** What a stable sort promises. */
  ghost predicate IsStableSort(sorted: seq<Patch>, space: seq<Patch>, cost: Cost) {
    exists order :: IsOrder(space, cost, order) && Follows(sorted, space, order)
  }

  ghost predicate Follows(sorted: seq<Patch>, space: seq<Patch>, order: seq<nat>) {
    && |sorted| == |order|
    && forall a :: 0 <= a < |order| ==> order[a] < |space| && sorted[a] == space[order[a]]
  }

  /** The promise leaves no freedom: the stable order is unique. */
  lemma {:induction false} OrderIsUnique(space: seq<Patch>, cost: Cost, order: seq<nat>, order': seq<nat>, n: nat)
    requires IsOrder(space, cost, order) && IsOrder(space, cost, order')
    requires n <= |order|
    ensures order[..n] == order'[..n]
  {
    if n > 0 {
      OrderIsUnique(space, cost, order, order', n - 1);
      var i, i' := order[n - 1], order'[n - 1];
      assert i in order' && i' in order;
      var b :| 0 <= b < |order'| && order'[b] == i;
      var a :| 0 <= a < |order| && order[a] == i';
      NotEarlier(space, cost, order, order', n - 1, b);
      NotEarlier(space, cost, order', order, n - 1, a);
      InOrder(space, cost, order, n - 1, a);
      InOrder(space, cost, order', n - 1, b);
    }
  }

  lemma InOrder(space: seq<Patch>, cost: Cost, order: seq<nat>, a: nat, b: nat)
    requires IsOrder(space, cost, order) && a <= b < |order|
    ensures a == b || Before(space, cost, order[a], order[b])
  {
  }

  /** Where two orders agree on a prefix, neither has its next index within the prefix of the other. */
  lemma NotEarlier(space: seq<Patch>, cost: Cost, order: seq<nat>, order': seq<nat>, n: nat, b: nat)
    requires IsOrder(space, cost, order) && n < |order| && n <= |order'| && order[..n] == order'[..n]
    requires b < |order'| && order'[b] == order[n]
    ensures b >= n
  {
    assert forall k :: 0 <= k < n ==> order'[..n][k] == order[..n][k];
    assert forall k :: 0 <= k < n ==> order[k] != order[n] by {
      forall k | 0 <= k < n ensures order[k] != order[n] { InOrder(space, cost, order, k, n); }
    }
  }

  /** Inserts the earlier index `i` in front of everything at least as costly. */
  function Insert(space: seq<Patch>, cost: Cost, i: nat, order: seq<nat>): (r: seq<nat>)
    requires i < |space| && forall a :: 0 <= a < |order| ==> i < order[a] < |space|
    requires forall a, b :: 0 <= a < b < |order| ==> Before(space, cost, order[a], order[b])
    ensures |r| == |order| + 1
    ensures forall j :: j in r <==> j == i || j in order
    ensures forall a :: 0 <= a < |r| ==> i <= r[a] < |space|
    ensures forall a, b :: 0 <= a < b < |r| ==> Before(space, cost, r[a], r[b])
  {
    if order == [] then [i]
    else if cost(space[i]) <= cost(space[order[0]]) then
      assert forall b :: 0 < b < |order| ==> Before(space, cost, order[0], order[b]);
      [i] + order
    else
      var rest := Insert(space, cost, i, order[1..]);
      InsertHead(space, cost, i, order, rest);
      [order[0]] + rest
  }

  lemma InsertHead(space: seq<Patch>, cost: Cost, i: nat, order: seq<nat>, rest: seq<nat>)
    requires i < |space| && forall a :: 0 <= a < |order| ==> i < order[a] < |space|
    requires forall a, b :: 0 <= a < b < |order| ==> Before(space, cost, order[a], order[b])
    requires order != [] && cost(space[i]) > cost(space[order[0]])
    requires forall j :: j in rest <==> j == i || j in order[1..]
    requires forall a :: 0 <= a < |rest| ==> i <= rest[a] < |space|
    requires forall a, b :: 0 <= a < b < |rest| ==> Before(space, cost, rest[a], rest[b])
    ensures var r := [order[0]] + rest;
            && (forall j :: j in r <==> j == i || j in order)
            && (forall a, b :: 0 <= a < b < |r| ==> Before(space, cost, r[a], r[b]))
  {
    var r := [order[0]] + rest;
    assert order == [order[0]] + order[1..];
    forall a, b | 0 <= a < b < |r| ensures Before(space, cost, r[a], r[b]) {
      if a > 0 {
        assert r[a] == rest[a - 1] && r[b] == rest[b - 1];
      } else {
        assert r[b] == rest[b - 1] && rest[b - 1] in rest;
        if r[b] != i {
          var c :| 0 <= c < |order[1..]| && order[1..][c] == r[b];
          assert Before(space, cost, order[0], order[c + 1]);
        }
      }
    }
  }

  /** The stable order of the indexes from `i` on. */
  function OrderFrom(space: seq<Patch>, cost: Cost, i: nat): (r: seq<nat>)
    requires i <= |space|
    ensures |r| == |space| - i
    ensures forall j :: j in r <==> i <= j < |space|
    ensures forall a, b :: 0 <= a < b < |r| ==> r[a] < |space| && r[b] < |space| && Before(space, cost, r[a], r[b])
    decreases |space| - i
  {
    if i == |space| then [] else
      var rest := OrderFrom(space, cost, i + 1);
      assert forall a :: 0 <= a < |rest| ==> rest[a] in rest;
      Insert(space, cost, i, rest)
  }

  /** The cost table, by patch identifier; an unknown identifier costs nothing. */
  type CostTable = map<PatchID, real>

  function ByTable(table: CostTable): Cost {
    (el: Patch) => if el.id in table then table[el.id] else 0.0
  }

  method ComputeCosts(space: seq<Patch>) returns (table: CostTable)
    requires forall i, j :: 0 <= i < j < |space| ==> space[i].id != space[j].id
    ensures forall i :: 0 <= i < |space| ==> ByTable(table)(space[i]) == SyntacticDiff(space[i])
  {
    table := map[];
    for n := 0 to |space|
      invariant forall i :: 0 <= i < n ==> space[i].id in table && table[space[i].id] == SyntacticDiff(space[i])
    {
      table := table[space[n].id := SyntacticDiff(space[n])];
    }
  }

  method Prioritize(space: seq<Patch>, table: CostTable) returns (sorted: seq<Patch>)
    ensures IsStableSort(sorted, space, ByTable(table))
  {
    var order := OrderFrom(space, ByTable(table), 0);
    forall a | 0 <= a < |order| ensures order[a] < |space| { assert order[a] in order; }
    sorted := seq(|order|, a requires 0 <= a < |order| => space[order[a]]);
    assert IsOrder(space, ByTable(table), order) && Follows(sorted, space, order);
  }

  /** Sorting depends only on the costs of the patches sorted. */
  lemma SortBySameCosts(sorted: seq<Patch>, space: seq<Patch>, cost: Cost, cost': Cost)
    requires IsStableSort(sorted, space, cost)
    requires forall i :: 0 <= i < |space| ==> cost(space[i]) == cost'(space[i])
    ensures IsStableSort(sorted, space, cost')
  {
    var order :| IsOrder(space, cost, order) && Follows(sorted, space, order);
    forall a, b | 0 <= a < b < |order| ensures Before(space, cost', order[a], order[b]) {
      assert Before(space, cost, order[a], order[b]);
    }
    assert IsOrder(space, cost', order);
  }

  /** Two stable sorts of one space are the same sequence. */
  lemma StableSortIsUnique(sorted: seq<Patch>, sorted': seq<Patch>, space: seq<Patch>, cost: Cost)
    requires IsStableSort(sorted, space, cost) && IsStableSort(sorted', space, cost)
    ensures sorted == sorted'
  {
    var order :| IsOrder(space, cost, order) && Follows(sorted, space, order);
    var order' :| IsOrder(space, cost, order') && Follows(sorted', space, order');
    OrderIsUnique(space, cost, order, order', |space|);
    assert order[..|space|] == order && order'[..|space|] == order';
  }
}
