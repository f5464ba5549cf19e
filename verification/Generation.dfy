/** The search space over all schema applications (repair/Synthesis.cpp:790-849, 884-920): every
    identifier stands for one patch, and the switches are emitted for exactly these patches. */
module Generation {
  import opened Core
  import opened Synthesis
  import opened Dispatch
  import opened SearchSpace
  import opened ArgumentLayout
  import SearchEngine

  // ----- Identifiers and patches of one application -----

  lemma ToPatchesMember(candidates: seq<Candidate>, sa: SchemaApplication, meta: PatchMetadata, p: Patch)
    ensures p in ToPatches(candidates, sa, meta) <==>
            p.app == sa && p.meta == meta && Candidate(p.id, p.modified) in candidates
  {
    var r := ToPatches(candidates, sa, meta);
    if p.app == sa && p.meta == meta && Candidate(p.id, p.modified) in candidates {
      var k :| 0 <= k < |candidates| && candidates[k] == Candidate(p.id, p.modified);
      assert r[k] == p;
    }
  }

  /** `p` is the instance of `m`, numbered `base`, that its identifier describes. */
  ghost predicate IsInstance(sa: SchemaApplication, m: Modification, base: nat, paramBound: nat, p: Patch) {
    && p.app == sa && p.meta == m.meta && p.id.base == base
    && DecodeBase(sa, m.expr, p.id, paramBound) == Some(p.modified)
  }

  lemma PatchesOfBaseDecode(sa: SchemaApplication, m: Modification, base: nat, paramBound: nat, p: Patch)
    ensures p in PatchesOfBase(sa, m, base, paramBound) <==> IsInstance(sa, m, base, paramBound, p)
  {
    hide Instances, DecodeBase;
    var instances := Instances(Start(base, m.expr), Bools(sa), paramBound);
    ToPatchesMember(instances, sa, m.meta, p);
    InstancesDecode(sa, base, m.expr, paramBound, Candidate(p.id, p.modified));
  }

  lemma PatchesOfBaseDistinct(sa: SchemaApplication, m: Modification, base: nat, paramBound: nat)
    ensures DistinctIds(PatchIds(PatchesOfBase(sa, m, base, paramBound)))
  {
    hide Instances, DecodeBase;
    var instances := Instances(Start(base, m.expr), Bools(sa), paramBound);
    InstancesDecode(sa, base, m.expr, paramBound, Start(base, m.expr));
    assert PatchIds(ToPatches(instances, sa, m.meta)) == Ids(instances);
  }

  lemma {:induction false} UpToDecode(
    sa: SchemaApplication, mods: seq<Modification>, firstBase: nat, paramBound: nat, n: nat, p: Patch)
    requires n <= |mods|
    ensures p in PatchesUpTo(sa, mods, firstBase, paramBound, n) <==>
            && firstBase <= p.id.base < firstBase + n
            && IsInstance(sa, mods[p.id.base - firstBase], p.id.base, paramBound, p)
  {
    hide IsInstance, PatchesOfBase;
    if n > 0 {
      UpToDecode(sa, mods, firstBase, paramBound, n - 1, p);
      PatchesOfBaseDecode(sa, mods[n - 1], firstBase + (n - 1), paramBound, p);
      if IsInstance(sa, mods[n - 1], firstBase + (n - 1), paramBound, p) {
        InstanceBase(sa, mods[n - 1], firstBase + (n - 1), paramBound, p);
      }
    }
  }

  lemma {:induction false} UpToDistinct(sa: SchemaApplication, mods: seq<Modification>, firstBase: nat, paramBound: nat, n: nat)
    requires n <= |mods|
    ensures DistinctIds(PatchIds(PatchesUpTo(sa, mods, firstBase, paramBound, n)))
  {
    hide IsInstance, PatchesOfBase;
    if n > 0 {
      var earlier := PatchesUpTo(sa, mods, firstBase, paramBound, n - 1);
      var last := PatchesOfBase(sa, mods[n - 1], firstBase + (n - 1), paramBound);
      UpToDistinct(sa, mods, firstBase, paramBound, n - 1);
      forall p, q | p in earlier && q in last ensures p.id != q.id {
        UpToDecode(sa, mods, firstBase, paramBound, n - 1, p);
        PatchesOfBaseDecode(sa, mods[n - 1], firstBase + (n - 1), paramBound, q);
        InstanceBase(sa, mods[n - 1], firstBase + (n - 1), paramBound, q);
      }
      PatchesOfBaseDistinct(sa, mods[n - 1], firstBase + (n - 1), paramBound);
      PatchesAppend(earlier, last);
    }
  }

  lemma InstanceBase(sa: SchemaApplication, m: Modification, base: nat, paramBound: nat, p: Patch)
    requires IsInstance(sa, m, base, paramBound, p)
    ensures p.app == sa && p.id.base == base
  {
  }

  lemma PatchesAppend(first: seq<Patch>, rest: seq<Patch>)
    requires DistinctIds(PatchIds(first)) && DistinctIds(PatchIds(rest))
    requires forall p, q :: p in first && q in rest ==> p.id != q.id
    ensures DistinctIds(PatchIds(first + rest))
  {
    var all := PatchIds(first + rest);
    forall a, b | 0 <= a < b < |all| ensures all[a] != all[b] {
      if b < |first| {
        assert all[a] == PatchIds(first)[a] && all[b] == PatchIds(first)[b];
      } else if a >= |first| {
        assert all[a] == PatchIds(rest)[a - |first|] && all[b] == PatchIds(rest)[b - |first|];
      } else {
        assert first[a] in first && rest[b - |first|] in rest;
      }
    }
  }

  /** The patches of one application are exactly what the identifiers decode to, each once. */
  lemma PatchesDecode(sa: SchemaApplication, firstBase: nat, bounds: Bounds, p: Patch)
    ensures p in PatchesOf(sa, firstBase, bounds) <==> Decode(sa, firstBase, bounds, p.id) == Some(p)
    ensures DistinctIds(PatchIds(PatchesOf(sa, firstBase, bounds)))
  {
    hide Mods, DecodeBase, PatchesUpTo;
    UpToDecode(sa, Mods(sa), firstBase, ParamBound(sa, bounds), |Mods(sa)|, p);
    UpToDistinct(sa, Mods(sa), firstBase, ParamBound(sa, bounds), |Mods(sa)|);
  }

  lemma DecodedBase(sa: SchemaApplication, firstBase: nat, bounds: Bounds, p: Patch)
    requires Decode(sa, firstBase, bounds, p.id) == Some(p)
    ensures p.app == sa && firstBase <= p.id.base < firstBase + |Mods(sa)|
  {
    hide Mods, DecodeBase;
  }

  // ----- The whole space -----

  /** The first base number of application `k`. */
  function FirstBase(sas: seq<SchemaApplication>, k: nat): nat
    requires k <= |sas|
  {
    if k == 0 then 1 else FirstBase(sas, k - 1) + |Mods(sas[k - 1])|
  }

  /** The patches of the first `n` applications; base numbers run on from one to the next. */
  function SpaceUpTo(sas: seq<SchemaApplication>, bounds: Bounds, n: nat): seq<Patch>
    requires n <= |sas|
  {
    if n == 0 then [] else
      SpaceUpTo(sas, bounds, n - 1) + PatchesOf(sas[n - 1], FirstBase(sas, n - 1), bounds)
  }

  function Space(sas: seq<SchemaApplication>, bounds: Bounds): seq<Patch> {
    SpaceUpTo(sas, bounds, |sas|)
  }

  /** The patch an identifier stands for among the first `n` applications. */
  function DecodeUpTo(sas: seq<SchemaApplication>, bounds: Bounds, n: nat, id: PatchID): Option<Patch>
    requires n <= |sas|
  {
    if n == 0 then None
    else if id.base >= FirstBase(sas, n - 1) then Decode(sas[n - 1], FirstBase(sas, n - 1), bounds, id)
    else DecodeUpTo(sas, bounds, n - 1, id)
  }

  function DecodeId(sas: seq<SchemaApplication>, bounds: Bounds, id: PatchID): Option<Patch> {
    DecodeUpTo(sas, bounds, |sas|, id)
  }

  lemma {:induction false} SpaceUpToDecodes(sas: seq<SchemaApplication>, bounds: Bounds, n: nat, p: Patch)
    requires n <= |sas|
    ensures p in SpaceUpTo(sas, bounds, n) <==> DecodeUpTo(sas, bounds, n, p.id) == Some(p)
    ensures p in SpaceUpTo(sas, bounds, n) ==> 1 <= p.id.base < FirstBase(sas, n)
    ensures FirstBase(sas, n) >= 1
  {
    hide Mods, Decode, PatchesOf;
    if n > 0 {
      SpaceUpToDecodes(sas, bounds, n - 1, p);
      PatchesDecode(sas[n - 1], FirstBase(sas, n - 1), bounds, p);
      if p in PatchesOf(sas[n - 1], FirstBase(sas, n - 1), bounds) {
        DecodedBase(sas[n - 1], FirstBase(sas, n - 1), bounds, p);
      }
    }
  }

  lemma {:induction false} SpaceUpToDistinct(sas: seq<SchemaApplication>, bounds: Bounds, n: nat)
    requires n <= |sas|
    ensures DistinctIds(PatchIds(SpaceUpTo(sas, bounds, n)))
  {
    hide Mods, Decode, PatchesOf;
    if n > 0 {
      var earlier, last := SpaceUpTo(sas, bounds, n - 1), PatchesOf(sas[n - 1], FirstBase(sas, n - 1), bounds);
      SpaceUpToDistinct(sas, bounds, n - 1);
      forall p, q | p in earlier && q in last ensures p.id != q.id {
        SpaceUpToDecodes(sas, bounds, n - 1, p);
        PatchesDecode(sas[n - 1], FirstBase(sas, n - 1), bounds, q);
        DecodedBase(sas[n - 1], FirstBase(sas, n - 1), bounds, q);
      }
      if last != [] { PatchesDecode(sas[n - 1], FirstBase(sas, n - 1), bounds, last[0]); }
      PatchesAppend(earlier, last);
    }
  }

  predicate DistinctApps(sas: seq<SchemaApplication>) {
    forall i, j :: 0 <= i < j < |sas| ==> sas[i].id != sas[j].id
  }

  lemma {:induction false} SpaceApps(sas: seq<SchemaApplication>, bounds: Bounds, n: nat, p: Patch)
    requires n <= |sas| && p in SpaceUpTo(sas, bounds, n)
    ensures p.app in sas[..n]
  {
    hide Mods, Decode, PatchesOf;
    if p in SpaceUpTo(sas, bounds, n - 1) {
      SpaceApps(sas, bounds, n - 1, p);
      assert sas[..n - 1] <= sas[..n];
    } else {
      PatchesDecode(sas[n - 1], FirstBase(sas, n - 1), bounds, p);
      DecodedBase(sas[n - 1], FirstBase(sas, n - 1), bounds, p);
      assert sas[..n][n - 1] == p.app;
    }
  }

  /** The generated space is exactly the set of patches identifiers stand for: no identifier is
      reserved, none is given twice, and it alone determines the whole patch. */
  lemma SpaceDecodes(sas: seq<SchemaApplication>, bounds: Bounds, p: Patch)
    ensures p in Space(sas, bounds) <==> DecodeId(sas, bounds, p.id) == Some(p)
    ensures p in Space(sas, bounds) ==> p.id.base != 0 && p.app in sas
    ensures DistinctIds(PatchIds(Space(sas, bounds)))
  {
    hide SpaceUpTo, DecodeUpTo;
    SpaceUpToDecodes(sas, bounds, |sas|, p);
    SpaceUpToDistinct(sas, bounds, |sas|);
    if p in Space(sas, bounds) {
      SpaceApps(sas, bounds, |sas|, p);
      assert sas[..|sas|] == sas;
    }
  }

  /** So the search may start on it. */
  lemma SpaceIsWellNumbered(sas: seq<SchemaApplication>, bounds: Bounds)
    requires DistinctApps(sas)
    ensures SearchEngine.WellNumbered(Space(sas, bounds))
  {
    hide Space, DecodeId;
    var space := Space(sas, bounds);
    forall i | 0 <= i < |space| ensures space[i].id.base != 0 && space[i].app in sas {
      SpaceDecodes(sas, bounds, space[i]);
    }
    forall i, j | 0 <= i < j < |space|
      ensures space[i].id != space[j].id
      ensures space[i].app.id == space[j].app.id ==> space[i].app == space[j].app
    {
      SpaceDecodes(sas, bounds, space[i]);
      assert PatchIds(space)[i] != PatchIds(space)[j];
    }
  }

  // ----- Generation -----

  ghost predicate AllEmitted(switches: seq<Switches>, sas: seq<SchemaApplication>) {
    && |switches| <= |sas|
    && forall k :: 0 <= k < |switches| ==> IsEmitted(switches[k], sas[k], FirstBase(sas, k), LayoutOf(sas[k]))
  }

  method GenerateSearchSpace(sas: seq<SchemaApplication>, bounds: Bounds)
    returns (searchSpace: seq<Patch>, switches: seq<Switches>)
    requires forall k :: 0 <= k < |sas| ==> WellFormed(sas[k])
    ensures searchSpace == Space(sas, bounds)
    ensures |switches| == |sas| && AllEmitted(switches, sas)
  {
    hide Mods, PatchesOf, IsEmitted, WellFormed, LayoutOf;
    var baseId := 1;
    searchSpace, switches := [], [];
    for k := 0 to |sas|
      invariant baseId == FirstBase(sas, k)
      invariant searchSpace == SpaceUpTo(sas, bounds, k)
      invariant |switches| == k && AllEmitted(switches, sas)
    {
      var patches, emitted;
      baseId, patches, emitted := CandidateDispatch(sas[k], baseId, LayoutOf(sas[k]), bounds);
      searchSpace := searchSpace + patches;
      switches := switches + [emitted];
    }
  }
}
