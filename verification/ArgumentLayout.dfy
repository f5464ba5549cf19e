/** The arguments of a partition function, computed twice: the transformation tool writes the call
    (transform/TransformUtil.cpp:821-979), the repair tool writes the parameters and the code that
    reads them (repair/Synthesis.cpp:436-440, 487-612, repair/Util.cpp:470-485). */
module ArgumentLayout {
  import opened Core
  import opened Expressions
  import opened Semantics
  import opened Staging

  /** A component as the transformation tool describes it. `base` is the text left of the arrow. */
  datatype Component = Component(
    isDereference: bool, isPointer: bool, rawType: string, repr: string, incomplete: bool, base: string)

  function ToExpression(c: Component): Expression {
    Expression(if c.isDereference then DEREFERENCE else VARIABLE, if c.isPointer then PTR else INTEGER,
               NONE, c.rawType, c.repr, [])
  }

  function ToExpressions(cs: seq<Component>): (r: seq<Expression>)
    ensures |r| == |cs| && forall k :: 0 <= k < |cs| ==> r[k] == ToExpression(cs[k])
  {
    seq(|cs|, k requires 0 <= k < |cs| => ToExpression(cs[k]))
  }

  // ----- Collecting components -----

  predicate DistinctReprs(cs: seq<Component>) {
    forall i, j :: 0 <= i < j < |cs| ==> cs[i].repr != cs[j].repr
  }

  predicate HasRepr(cs: seq<Component>, repr: string) {
    exists i :: 0 <= i < |cs| && cs[i].repr == repr
  }

  /** The first component of every text, in order of appearance. */
  function FirstOccurrences(cs: seq<Component>): (r: seq<Component>)
    ensures DistinctReprs(r)
    ensures forall repr :: HasRepr(r, repr) <==> HasRepr(cs, repr)
    ensures forall c :: c in r ==> c in cs
  {
    if cs == [] then [] else
      var init, last := cs[..|cs| - 1], cs[|cs| - 1];
      var r := FirstOccurrences(init);
      FirstOccurrencesStep(cs, r);
      if HasRepr(r, last.repr) then r else r + [last]
  }

  lemma FirstOccurrencesStep(cs: seq<Component>, r: seq<Component>)
    requires cs != [] && DistinctReprs(r)
    requires forall repr :: HasRepr(r, repr) <==> HasRepr(cs[..|cs| - 1], repr)
    ensures var last := cs[|cs| - 1];
            var r' := if HasRepr(r, last.repr) then r else r + [last];
            DistinctReprs(r') && forall repr :: HasRepr(r', repr) <==> HasRepr(cs, repr)
  {
    var init, last := cs[..|cs| - 1], cs[|cs| - 1];
    var r' := if HasRepr(r, last.repr) then r else r + [last];
    forall repr ensures HasRepr(r', repr) <==> HasRepr(cs, repr) {
      if HasRepr(cs, repr) {
        var i :| 0 <= i < |cs| && cs[i].repr == repr;
        if i < |cs| - 1 {
          assert init[i].repr == repr;
          assert HasRepr(r, repr);
          var j :| 0 <= j < |r| && r[j].repr == repr;
          assert r'[j].repr == repr;
        } else if !HasRepr(r, repr) {
          assert r'[|r|].repr == repr;
        }
      }
      if HasRepr(r', repr) {
        var j :| 0 <= j < |r'| && r'[j].repr == repr;
        if j < |r| {
          assert HasRepr(r, repr);
          assert HasRepr(init, repr);
          var i :| 0 <= i < |init| && init[i].repr == repr;
          assert cs[i].repr == repr;
        } else {
          assert cs[|cs| - 1].repr == repr;
        }
      }
    }
  }

  /** No earlier component has the text. */
  predicate IsFirst(cs: seq<Component>, i: nat) {
    i < |cs| && forall j :: 0 <= j < i ==> cs[j].repr != cs[i].repr
  }

  /** The places of the components kept, in order: exactly those where a text appears first. */
  ghost predicate ArePlaces(cs: seq<Component>, r: seq<Component>, places: seq<nat>) {
    && |places| == |r|
    && (forall k :: 0 <= k < |r| ==> IsFirst(cs, places[k]) && r[k] == cs[places[k]])
    && (forall k, l :: 0 <= k < l < |r| ==> places[k] < places[l])
    && (forall i :: IsFirst(cs, i) ==> i in places)
  }

  /** Every component kept stands where its text appears first, and these places increase. */
  lemma {:induction false} FirstOccurrencesAreInOrder(cs: seq<Component>) returns (places: seq<nat>)
    ensures ArePlaces(cs, FirstOccurrences(cs), places)
  {
    places := [];
    if cs != [] {
      var init := cs[..|cs| - 1];
      places := FirstOccurrencesAreInOrder(init);
      PlacesStep(cs, FirstOccurrences(init), places);
      if !HasRepr(init, cs[|cs| - 1].repr) { places := places + [|cs| - 1]; }
    }
  }

  lemma PlacesStep(cs: seq<Component>, r: seq<Component>, places: seq<nat>)
    requires cs != [] && ArePlaces(cs[..|cs| - 1], r, places)
    ensures var last := cs[|cs| - 1];
            if HasRepr(cs[..|cs| - 1], last.repr) then ArePlaces(cs, r, places)
            else ArePlaces(cs, r + [last], places + [|cs| - 1])
  {
    var init, n := cs[..|cs| - 1], |cs| - 1;
    forall i: nat ensures IsFirst(cs, i) <==> IsFirst(init, i) || (i == n && !HasRepr(init, cs[n].repr)) {
      assert i < n ==> cs[i] == init[i];
      assert forall j :: 0 <= j < i && j < n ==> cs[j] == init[j];
    }
  }

  /** The components of the expression itself come first, then what is visible at the location;
      a text seen before is dropped. */
  method CollectComponents(fromExpr: seq<Component>, visible: seq<Component>) returns (result: seq<Component>)
    ensures result == FirstOccurrences(fromExpr + visible)
    ensures exists places :: ArePlaces(fromExpr + visible, result, places)
  {
    result := AddAll([], [], fromExpr);
    assert [] + fromExpr == fromExpr;
    result := AddAll(fromExpr, result, visible);
    ghost var places := FirstOccurrencesAreInOrder(fromExpr + visible);
  }

  method AddAll(ghost before: seq<Component>, start: seq<Component>, cs: seq<Component>) returns (result: seq<Component>)
    requires start == FirstOccurrences(before)
    ensures result == FirstOccurrences(before + cs)
  {
    result := start;
    assert before + cs[..0] == before;
    for n := 0 to |cs|
      invariant result == FirstOccurrences(before + cs[..n])
    {
      result := AddIfNew(before + cs[..n], result, cs[n]);
      assert (before + cs[..n]) + [cs[n]] == before + cs[..n + 1];
    }
    assert cs[..|cs|] == cs;
  }

  method AddIfNew(ghost before: seq<Component>, result: seq<Component>, c: Component) returns (result': seq<Component>)
    requires result == FirstOccurrences(before)
    ensures result' == FirstOccurrences(before + [c])
  {
    var newComponent := true;
    for i := 0 to |result|
      invariant newComponent <==> forall k :: 0 <= k < i ==> result[k].repr != c.repr
    {
      if c.repr == result[i].repr {
        newComponent := false;
      }
    }
    assert (before + [c])[..|before|] == before;
    result' := if newComponent then result + [c] else result;
  }

  // ----- Sorted lists of names -----

  predicate Le(a: string, b: string) {
    a == [] || (b != [] && (a[0] < b[0] || (a[0] == b[0] && Le(a[1..], b[1..]))))
  }

  predicate Distinct(s: seq<string>) {
    forall i, j :: 0 <= i < j < |s| ==> s[i] != s[j]
  }

  function InsertName(x: string, s: seq<string>): (r: seq<string>)
    ensures |r| == |s| + 1
    ensures forall y :: y in r <==> y == x || y in s
    ensures Distinct(s) && x !in s ==> Distinct(r)
  {
    if s == [] || Le(x, s[0]) then [x] + s else
      var rest := InsertName(x, s[1..]);
      InsertedAfterHead(x, s, rest);
      [s[0]] + rest
  }

  lemma InsertedAfterHead(x: string, s: seq<string>, rest: seq<string>)
    requires s != [] && (forall y :: y in rest <==> y == x || y in s[1..])
    requires Distinct(s[1..]) && x !in s[1..] ==> Distinct(rest)
    ensures forall y :: y in [s[0]] + rest <==> y == x || y in s
    ensures Distinct(s) && x !in s ==> Distinct([s[0]] + rest)
  {
    assert s == [s[0]] + s[1..];
    if Distinct(s) && x !in s {
      assert Distinct(s[1..]);
      forall j | 0 < j < |s| ensures s[j] != s[0] { }
      assert s[0] !in rest;
    }
  }

  /** Both tools sort their lists of names. */
  function SortNames(s: seq<string>): (r: seq<string>)
    ensures |r| == |s|
    ensures forall y :: y in r <==> y in s
    ensures Distinct(s) ==> Distinct(r)
  {
    if s == [] then [] else
      assert s == [s[0]] + s[1..];
      InsertName(s[0], SortNames(s[1..]))
  }

  /** The order of dictionaries: the first difference decides, and a prefix comes first. */
  lemma {:induction false} LeIsLexicographic(a: string, b: string)
    ensures Le(a, b) <==> a <= b || exists k :: 0 <= k < |a| && k < |b| && a[..k] == b[..k] && a[k] < b[k]
  {
    if a != [] && b != [] {
      var a', b' := a[1..], b[1..];
      LeIsLexicographic(a', b');
      if Le(a, b) && !(a <= b) && a[0] == b[0] {
        var k :| 0 <= k < |a'| && k < |b'| && a'[..k] == b'[..k] && a'[k] < b'[k];
        assert a[..k + 1] == [a[0]] + a'[..k] && b[..k + 1] == [b[0]] + b'[..k];
        assert a[k + 1] < b[k + 1];
      }
      if k :| 0 <= k < |a| && k < |b| && a[..k] == b[..k] && a[k] < b[k] {
        if k > 0 {
          assert a[..k][0] == a[0] && b[..k][0] == b[0];
          assert a'[..k - 1] == a[..k][1..] && b'[..k - 1] == b[..k][1..];
          assert a'[k - 1] < b'[k - 1];
        }
      }
    }
  }

  lemma {:induction false} LeIsTotal(a: string, b: string)
    ensures Le(a, b) || Le(b, a)
  {
    if a != [] && b != [] { LeIsTotal(a[1..], b[1..]); }
  }

  lemma {:induction false} LeIsTransitive(a: string, b: string, c: string)
    requires Le(a, b) && Le(b, c)
    ensures Le(a, c)
  {
    if a != [] && a[0] == b[0] == c[0] { LeIsTransitive(a[1..], b[1..], c[1..]); }
  }

  predicate Sorted(s: seq<string>) {
    forall i, j :: 0 <= i < j < |s| ==> Le(s[i], s[j])
  }

  lemma {:induction false} InsertKeepsSorted(x: string, s: seq<string>)
    requires Sorted(s)
    ensures Sorted(InsertName(x, s))
  {
    hide Le;
    if s != [] {
      if Le(x, s[0]) {
        forall j | 0 <= j < |s| ensures Le(x, s[j]) {
          if j > 0 { LeIsTransitive(x, s[0], s[j]); }
        }
      } else {
        InsertKeepsSorted(x, s[1..]);
        LeIsTotal(x, s[0]);
        var rest := InsertName(x, s[1..]);
        forall j | 0 <= j < |rest| ensures Le(s[0], rest[j]) {
          assert rest[j] in rest;
        }
      }
    }
  }

  lemma {:induction false} NamesAreSorted(s: seq<string>)
    ensures Sorted(SortNames(s))
  {
    if s != [] {
      NamesAreSorted(s[1..]);
      InsertKeepsSorted(s[0], SortNames(s[1..]));
    }
  }

  function AddName(s: seq<string>, x: string): (r: seq<string>)
    ensures Distinct(s) ==> Distinct(r)
    ensures forall y :: y in r <==> y == x || y in s
  {
    if x in s then s else s + [x]
  }

  // ----- The writer: arrays in the call -----

  /** One element of a value array; a member access is guarded by its base. */
  datatype Element = Element(repr: string, guard: Option<string>)

  datatype ArrayLiteral =
    | Values(elementType: string, elements: seq<Element>)
    | Sizes(types: seq<string>)
    | NullFlags(members: seq<(string, string)>)

  function PointersIn(cs: seq<Component>): seq<Component> {
    if cs == [] then [] else
      var init, c := cs[..|cs| - 1], cs[|cs| - 1];
      PointersIn(init) + if c.isPointer then [c] else []
  }

  function ValuesIn(cs: seq<Component>, t: string): seq<Component> {
    if cs == [] then [] else
      var init, c := cs[..|cs| - 1], cs[|cs| - 1];
      ValuesIn(init, t) + if !c.isPointer && c.rawType == t then [c] else []
  }

  function TypesIn(cs: seq<Component>): (r: seq<string>)
    ensures Distinct(r)
  {
    if cs == [] then [] else
      var init, c := cs[..|cs| - 1], cs[|cs| - 1];
      if c.isPointer then TypesIn(init) else AddName(TypesIn(init), c.rawType)
  }

  function CompleteIn(cs: seq<Component>): (r: seq<string>)
    ensures Distinct(r)
  {
    if cs == [] then [] else
      var init, c := cs[..|cs| - 1], cs[|cs| - 1];
      if c.isPointer && !c.incomplete then AddName(CompleteIn(init), c.rawType) else CompleteIn(init)
  }

  function DereferencesIn(cs: seq<Component>): (r: seq<string>)
    ensures Distinct(r)
  {
    if cs == [] then [] else
      var init, c := cs[..|cs| - 1], cs[|cs| - 1];
      if c.isDereference then AddName(DereferencesIn(init), c.repr) else DereferencesIn(init)
  }

  /** The base of each dereference: that of its first occurrence. */
  function BasesIn(cs: seq<Component>): (r: map<string, string>)
    ensures forall d :: d in r <==> d in DereferencesIn(cs)
  {
    if cs == [] then map[] else
      var init, c := cs[..|cs| - 1], cs[|cs| - 1];
      if c.isDereference && c.repr !in DereferencesIn(init) then BasesIn(init)[c.repr := c.base] else BasesIn(init)
  }

  function ElementsOf(cs: seq<Component>, bases: map<string, string>): (r: seq<Element>)
    ensures |r| == |cs|
    ensures forall k :: 0 <= k < |cs| ==>
              r[k] == Element(cs[k].repr, if cs[k].repr in bases then Some(bases[cs[k].repr]) else None)
  {
    seq(|cs|, k requires 0 <= k < |cs| =>
      Element(cs[k].repr, if cs[k].repr in bases then Some(bases[cs[k].repr]) else None))
  }

  function ValueArrays(cs: seq<Component>, types: seq<string>, bases: map<string, string>): (r: seq<ArrayLiteral>)
    ensures |r| == |types|
    ensures forall k :: 0 <= k < |types| ==> r[k] == Values(types[k], ElementsOf(ValuesIn(cs, types[k]), bases))
  {
    seq(|types|, k requires 0 <= k < |types| => Values(types[k], ElementsOf(ValuesIn(cs, types[k]), bases)))
  }

  function FlagsOf(dereferences: seq<string>, bases: map<string, string>): (r: seq<(string, string)>)
    requires forall d :: d in dereferences ==> d in bases
    ensures |r| == |dereferences|
    ensures forall k :: 0 <= k < |r| ==> r[k] == (dereferences[k], bases[dereferences[k]])
  {
    seq(|dereferences|, k requires 0 <= k < |dereferences| => (dereferences[k], bases[dereferences[k]]))
  }

  function PointerArrays(pointers: seq<Component>, pointees: seq<string>, bases: map<string, string>): seq<ArrayLiteral> {
    if pointers == [] then [] else [Values("void*", ElementsOf(pointers, bases)), Sizes(pointees)]
  }

  function FlagArrays(dereferences: seq<string>, bases: map<string, string>): seq<ArrayLiteral>
    requires forall d :: d in dereferences ==> d in bases
  {
    if dereferences == [] then [] else [NullFlags(FlagsOf(dereferences, bases))]
  }

  function ArgumentList(cs: seq<Component>): seq<ArrayLiteral> {
    ValueArrays(cs, SortNames(TypesIn(cs)), BasesIn(cs))
    + PointerArrays(PointersIn(cs), SortNames(CompleteIn(cs)), BasesIn(cs))
    + FlagArrays(SortNames(DereferencesIn(cs)), BasesIn(cs))
  }

  /** The lists and maps the writer fills while it scans the components. */
  datatype Scan = Scan(
    typesToValues: map<string, seq<Component>>, pointers: seq<Component>, completePointeeTypes: seq<string>,
    nonPointerTypes: seq<string>, dereferences: seq<string>, baseOfDereference: map<string, string>)

  ghost predicate Scanned(scan: Scan, cs: seq<Component>) {
    && scan.pointers == PointersIn(cs)
    && scan.completePointeeTypes == CompleteIn(cs)
    && scan.nonPointerTypes == TypesIn(cs)
    && scan.dereferences == DereferencesIn(cs)
    && scan.baseOfDereference == BasesIn(cs)
    && ValuesScanned(scan.typesToValues, cs)
  }

  ghost predicate ValuesScanned(typesToValues: map<string, seq<Component>>, cs: seq<Component>) {
    && (forall t :: t in typesToValues <==> t in TypesIn(cs))
    && (forall t :: ValuesIn(cs, t) == if t in typesToValues then typesToValues[t] else [])
  }

  method ScanOne(scan: Scan, ghost before: seq<Component>, c: Component) returns (scan': Scan)
    requires Scanned(scan, before)
    ensures Scanned(scan', before + [c])
  {
    hide PointersIn, CompleteIn, TypesIn, DereferencesIn, BasesIn, ValuesIn, ValuesScanned;
    ScanStep(before, c);
    ValuesStep(scan.typesToValues, before, c);
    scan' := scan;
    if c.isDereference && c.repr !in scan.dereferences {
      scan' := scan'.(dereferences := scan.dereferences + [c.repr],
                      baseOfDereference := scan.baseOfDereference[c.repr := c.base]);
    }
    if c.isPointer {
      scan' := scan'.(pointers := scan.pointers + [c]);
      if !c.incomplete {
        scan' := scan'.(completePointeeTypes := AddName(scan.completePointeeTypes, c.rawType));
      }
    } else {
      var values := if c.rawType in scan.typesToValues then scan.typesToValues[c.rawType] else [];
      scan' := scan'.(nonPointerTypes := AddName(scan.nonPointerTypes, c.rawType),
                      typesToValues := scan.typesToValues[c.rawType := values + [c]]);
    }
  }

  lemma ValuesStep(typesToValues: map<string, seq<Component>>, before: seq<Component>, c: Component)
    requires ValuesScanned(typesToValues, before)
    ensures var values := if c.rawType in typesToValues then typesToValues[c.rawType] else [];
            ValuesScanned(if c.isPointer then typesToValues else typesToValues[c.rawType := values + [c]], before + [c])
  {
    ScanStep(before, c);
    hide PointersIn, CompleteIn, TypesIn, DereferencesIn, BasesIn, ValuesIn;
  }

  /** One component more, for each of the lists. */
  lemma ScanStep(before: seq<Component>, c: Component)
    ensures PointersIn(before + [c]) == PointersIn(before) + if c.isPointer then [c] else []
    ensures CompleteIn(before + [c]) == if c.isPointer && !c.incomplete then AddName(CompleteIn(before), c.rawType) else CompleteIn(before)
    ensures TypesIn(before + [c]) == if c.isPointer then TypesIn(before) else AddName(TypesIn(before), c.rawType)
    ensures DereferencesIn(before + [c]) ==
            if c.isDereference then AddName(DereferencesIn(before), c.repr) else DereferencesIn(before)
    ensures BasesIn(before + [c]) ==
            if c.isDereference && c.repr !in DereferencesIn(before) then BasesIn(before)[c.repr := c.base] else BasesIn(before)
    ensures forall t :: ValuesIn(before + [c], t) == ValuesIn(before, t) + if !c.isPointer && c.rawType == t then [c] else []
  {
    assert (before + [c])[..|before|] == before;
  }

  // ----- What the lists select -----

  predicate HasValue(cs: seq<Component>, t: string) {
    exists k :: 0 <= k < |cs| && !cs[k].isPointer && cs[k].rawType == t
  }

  predicate HasComplete(cs: seq<Component>, t: string) {
    exists k :: 0 <= k < |cs| && cs[k].isPointer && !cs[k].incomplete && cs[k].rawType == t
  }

  predicate HasDereference(cs: seq<Component>, d: string) {
    exists k :: 0 <= k < |cs| && cs[k].isDereference && cs[k].repr == d
  }

  /** A type has an array if some component that is no pointer has it; it has a size slot if some
      pointer to it is complete; a text has a flag if some dereference has it. */
  lemma {:induction false} ListsSelect(cs: seq<Component>, t: string)
    ensures t in TypesIn(cs) <==> HasValue(cs, t)
    ensures t in CompleteIn(cs) <==> HasComplete(cs, t)
    ensures t in DereferencesIn(cs) <==> HasDereference(cs, t)
  {
    hide HasValue, HasComplete, HasDereference;
    if cs == [] {
      NothingHas(t);
    } else {
      ListsSelect(cs[..|cs| - 1], t);
      OneMoreHas(cs, t);
    }
  }

  lemma NothingHas(t: string)
    ensures !HasValue([], t) && !HasComplete([], t) && !HasDereference([], t)
  {
  }

  lemma OneMoreHas(cs: seq<Component>, t: string)
    requires cs != []
    ensures var init, c := cs[..|cs| - 1], cs[|cs| - 1];
            && (HasValue(cs, t) <==> HasValue(init, t) || (!c.isPointer && c.rawType == t))
            && (HasComplete(cs, t) <==> HasComplete(init, t) || (c.isPointer && !c.incomplete && c.rawType == t))
            && (HasDereference(cs, t) <==> HasDereference(init, t) || (c.isDereference && c.repr == t))
  {
    var init := cs[..|cs| - 1];
    assert forall k :: 0 <= k < |init| ==> init[k] == cs[k];
  }

  /** The base kept for a dereference is that of the first component with its text. */
  lemma {:induction false} BaseIsFirst(cs: seq<Component>, d: string) returns (k: nat)
    requires d in DereferencesIn(cs)
    ensures k < |cs| && cs[k].isDereference && cs[k].repr == d && BasesIn(cs)[d] == cs[k].base
    ensures forall j :: 0 <= j < k ==> !(cs[j].isDereference && cs[j].repr == d)
  {
    var init := cs[..|cs| - 1];
    k := |cs| - 1;
    if d in DereferencesIn(init) {
      k := BaseIsFirst(init, d);
      assert init[k] == cs[k] && forall j :: 0 <= j < k ==> init[j] == cs[j];
    } else {
      ListsSelect(init, d);
      assert forall j :: 0 <= j < k ==> cs[j] == init[j];
    }
  }

  /** These places, in order, are precisely those of the components wanted. */
  ghost predicate IsSelection(cs: seq<Component>, wanted: set<Component>, r: seq<Component>, places: seq<nat>) {
    && |places| == |r|
    && (forall k :: 0 <= k < |r| ==> places[k] < |cs| && r[k] == cs[places[k]] && r[k] in wanted)
    && (forall k, l :: 0 <= k < l < |r| ==> places[k] < places[l])
    && (forall i :: 0 <= i < |cs| && cs[i] in wanted ==> i in places)
  }

  lemma SelectionStep(cs: seq<Component>, wanted: set<Component>, r: seq<Component>, places: seq<nat>)
    requires cs != [] && IsSelection(cs[..|cs| - 1], wanted, r, places)
    ensures var last := cs[|cs| - 1];
            if last in wanted then IsSelection(cs, wanted, r + [last], places + [|cs| - 1]) else IsSelection(cs, wanted, r, places)
  {
    var init, n := cs[..|cs| - 1], |cs| - 1;
    forall i | 0 <= i < |cs| && cs[i] in wanted ensures i in places + [n] && (i < n ==> i in places) {
      assert i < n ==> init[i] == cs[i];
    }
  }

  function Pointers(cs: seq<Component>): set<Component> { set c | c in cs && c.isPointer }

  function ValuesOf(cs: seq<Component>, t: string): set<Component> { set c | c in cs && !c.isPointer && c.rawType == t }

  /** The array of pointers holds the pointers, and that of a type the values of that type, in order. */
  lemma {:induction false} ArraysSelect(cs: seq<Component>, all: seq<Component>, t: string) returns (pointers: seq<nat>, values: seq<nat>)
    requires cs <= all
    ensures IsSelection(cs, Pointers(all), PointersIn(cs), pointers)
    ensures IsSelection(cs, ValuesOf(all, t), ValuesIn(cs, t), values)
  {
    pointers, values := [], [];
    if cs != [] {
      hide IsSelection;
      var init, last := cs[..|cs| - 1], cs[|cs| - 1];
      pointers, values := ArraysSelect(init, all, t);
      SelectionStep(cs, Pointers(all), PointersIn(init), pointers);
      SelectionStep(cs, ValuesOf(all, t), ValuesIn(init, t), values);
      assert last == all[|cs| - 1];
      assert PointersIn(init) + [] == PointersIn(init) && ValuesIn(init, t) + [] == ValuesIn(init, t);
      if last.isPointer { pointers := pointers + [|cs| - 1]; }
      if !last.isPointer && last.rawType == t { values := values + [|cs| - 1]; }
    }
  }

  method ScanAll(cs: seq<Component>) returns (scan: Scan)
    ensures Scanned(scan, cs)
  {
    scan := Scan(map[], [], [], [], [], map[]);
    for n := 0 to |cs|
      invariant Scanned(scan, cs[..n])
    {
      scan := ScanOne(scan, cs[..n], cs[n]);
      assert cs[..n + 1] == cs[..n] + [cs[n]];
    }
    assert cs[..|cs|] == cs;
  }

  method MakeArgumentList(cs: seq<Component>) returns (result: seq<ArrayLiteral>)
    ensures result == ArgumentList(cs)
  {
    var scan := ScanAll(cs);
    var dereferences := SortNames(scan.dereferences);
    var types := SortNames(scan.nonPointerTypes);
    TypesAreScanned(scan, cs, types);
    result := WriteValues(cs, types, scan.typesToValues, scan.baseOfDereference);
    result := WritePointers(result, scan.pointers, SortNames(scan.completePointeeTypes), scan.baseOfDereference);
    result := WriteFlags(result, dereferences, scan.baseOfDereference);
  }

  method WritePointers(before: seq<ArrayLiteral>, pointers: seq<Component>, pointees: seq<string>, bases: map<string, string>)
    returns (result: seq<ArrayLiteral>)
    ensures result == before + PointerArrays(pointers, pointees, bases)
  {
    result := before;
    if pointers != [] {
      result := result + [Values("void*", ElementsOf(pointers, bases)), Sizes(pointees)];
    }
  }

  method WriteFlags(before: seq<ArrayLiteral>, dereferences: seq<string>, bases: map<string, string>)
    returns (result: seq<ArrayLiteral>)
    requires forall d :: d in dereferences ==> d in bases
    ensures result == before + FlagArrays(dereferences, bases)
  {
    result := before;
    if dereferences != [] {
      result := result + [NullFlags(FlagsOf(dereferences, bases))];
    }
  }

  method WriteValues(ghost cs: seq<Component>, types: seq<string>, typesToValues: map<string, seq<Component>>, bases: map<string, string>)
    returns (result: seq<ArrayLiteral>)
    requires forall k :: 0 <= k < |types| ==> types[k] in typesToValues && typesToValues[types[k]] == ValuesIn(cs, types[k])
    ensures result == ValueArrays(cs, types, bases)
  {
    result := [];
    for k := 0 to |types|
      invariant |result| == k
      invariant forall i :: 0 <= i < k ==> result[i] == Values(types[i], ElementsOf(ValuesIn(cs, types[i]), bases))
    {
      result := result + [Values(types[k], ElementsOf(typesToValues[types[k]], bases))];
    }
  }

  lemma TypesAreScanned(scan: Scan, cs: seq<Component>, types: seq<string>)
    requires Scanned(scan, cs) && types == SortNames(scan.nonPointerTypes)
    ensures forall k :: 0 <= k < |types| ==>
              types[k] in scan.typesToValues && scan.typesToValues[types[k]] == ValuesIn(cs, types[k])
  {
    forall k | 0 <= k < |types|
      ensures types[k] in scan.typesToValues && scan.typesToValues[types[k]] == ValuesIn(cs, types[k])
    {
      assert types[k] in types;
    }
  }

  /** What the arrays of the call hold when the program is in state `env`. */
  function Contents(a: ArrayLiteral, env: Env): (r: seq<int>)
    ensures |r| == if a.Values? then |a.elements| else if a.Sizes? then |a.types| else |a.members|
  {
    match a
    case Values(_, elements) =>
      seq(|elements|, k requires 0 <= k < |elements| =>
        if elements[k].guard.Some? && env.baseIsNull(elements[k].repr) then 0 else env.values(elements[k].repr))
    case Sizes(types) => seq(|types|, k requires 0 <= k < |types| => env.sizeOf(types[k]))
    case NullFlags(members) => seq(|members|, k requires 0 <= k < |members| => Truth(env.baseIsNull(members[k].0)))
  }

  // ----- The reader: parameters and names in the generated code -----

  const POINTER_ARG_NAME := "__ptr_vals"
  const SIZES_ARG_NAME := "__ptr_sizes"
  const NULLDEREF_ARG_NAME := "__nullderef"

  function Underscored(s: string): (r: string)
    ensures |r| == |s|
    ensures forall k :: 0 <= k < |s| ==> r[k] == if s[k] == ' ' then '_' else s[k]
  {
    seq(|s|, k requires 0 <= k < |s| => if s[k] == ' ' then '_' else s[k])
  }

  function ArgNameByNonPtrType(t: string): string {
    "__" + Underscored(t) + "_vals"
  }

  function SlotText(name: string, index: nat): string {
    name + "[" + Decimal(index) + "]"
  }

  function TypesOf(es: seq<Expression>): (r: seq<string>)
    ensures Distinct(r)
  {
    if es == [] then [] else
      var init, e := es[..|es| - 1], es[|es| - 1];
      if e.ty == INTEGER then AddName(TypesOf(init), e.rawType) else TypesOf(init)
  }

  function ReprsOf(es: seq<Expression>, t: string): seq<string> {
    if es == [] then [] else
      var init, e := es[..|es| - 1], es[|es| - 1];
      ReprsOf(init, t) + if e.ty == INTEGER && e.rawType == t then [e.repr] else []
  }

  function PointerReprs(es: seq<Expression>): seq<string> {
    if es == [] then [] else
      var init, e := es[..|es| - 1], es[|es| - 1];
      PointerReprs(init) + if e.ty == PTR then [e.repr] else []
  }

  function DereferencesOf(es: seq<Expression>): (r: seq<string>)
    ensures Distinct(r)
  {
    if es == [] then [] else
      var init, e := es[..|es| - 1], es[|es| - 1];
      if e.kind == DEREFERENCE then AddName(DereferencesOf(init), e.repr) else DereferencesOf(init)
  }

  function NamesOfTypes(types: seq<string>): (r: seq<string>)
    ensures |r| == |types| && forall k :: 0 <= k < |types| ==> r[k] == ArgNameByNonPtrType(types[k])
  {
    seq(|types|, k requires 0 <= k < |types| => ArgNameByNonPtrType(types[k]))
  }

  /** The array parameters of the generated function, in order. */
  function ParameterList(es: seq<Expression>): seq<string> {
    NamesOfTypes(SortNames(TypesOf(es)))
    + (if exists k :: 0 <= k < |es| && es[k].ty != INTEGER then [POINTER_ARG_NAME, SIZES_ARG_NAME] else [])
    + (if exists k :: 0 <= k < |es| && es[k].kind == DEREFERENCE then [NULLDEREF_ARG_NAME] else [])
  }

  /** Maps each name to the slot of its position; a later occurrence of a name wins. */
  function RenameAll(m: map<string, string>, reprs: seq<string>, arrayName: string): map<string, string> {
    if reprs == [] then m else
      var n := |reprs| - 1;
      RenameAll(m, reprs[..n], arrayName)[reprs[n] := SlotText(arrayName, n)]
  }

  function RenameTypes(es: seq<Expression>, types: seq<string>): map<string, string> {
    if types == [] then map[] else
      var n := |types| - 1;
      RenameAll(RenameTypes(es, types[..n]), ReprsOf(es, types[n]), ArgNameByNonPtrType(types[n]))
  }

  function RuntimeRenaming(es: seq<Expression>): map<string, string> {
    RenameAll(RenameTypes(es, SortNames(TypesOf(es))), PointerReprs(es), POINTER_ARG_NAME)
  }

  function TypeSizes(pointees: seq<string>): map<string, string> {
    RenameAll(map[], pointees, SIZES_ARG_NAME)
  }

  function RuntimeReprs(names: seq<string>, renaming: map<string, string>): (r: seq<string>)
    ensures |r| == |names| && forall k :: 0 <= k < |names| ==> r[k] == Lookup(renaming, names[k])
  {
    seq(|names|, k requires 0 <= k < |names| => Lookup(renaming, names[k]))
  }

  function NullDerefCondition(es: seq<Expression>, renaming: map<string, string>): map<string, string> {
    RenameAll(map[], RuntimeReprs(SortNames(DereferencesOf(es)), renaming), NULLDEREF_ARG_NAME)
  }

  function LayoutOf(sa: SchemaApplication): Layout {
    var renaming := RuntimeRenaming(sa.components);
    Layout(renaming, TypeSizes(sa.completePointeeTypes), NullDerefCondition(sa.components, renaming))
  }
}
