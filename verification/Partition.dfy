/** The shared partition array and the loop of a generated partition function
    (repair/Runtime.cpp:54-80, repair/Synthesis.cpp:834-878).

    The repair tool writes candidate identifiers and an input terminator into the array.
    Each call of the partition function evaluates the executed candidate first, then every
    candidate still listed, and compacts the agreeing ones in place behind its read cursor. */
module Partition {
  import opened Core

  const MAX_PARTITION_SIZE: nat := 1000000
  const INPUT_TERMINATOR := PatchID(0, 0, 0, 0, 0)
  const OUTPUT_TERMINATOR := PatchID(0, 0, 0, 0, 1)

  /** What evaluating one candidate yields: the C value, or a recorded panic
      (division by zero, NULL dereference), in which case the value is junk. */
  datatype Outcome = Outcome(panic: bool, value: int)

  predicate Agree(executed: Outcome, other: Outcome) {
    (executed.panic && other.panic) || (!executed.panic && !other.panic && executed.value == other.value)
  }

  type Evaluation = PatchID -> Outcome

  // ----- Contents of the array -----

  /** The candidates listed in the array: everything before the first terminator. */
  function Entries(mem: seq<PatchID>): seq<PatchID> {
    if mem == [] || mem[0].base == 0 then [] else [mem[0]] + Entries(mem[1..])
  }

  lemma {:induction false} EntriesArePrefix(mem: seq<PatchID>)
    ensures Entries(mem) <= mem
    ensures forall k :: 0 <= k < |Entries(mem)| ==> mem[k].base != 0
    ensures |Entries(mem)| < |mem| ==> mem[|Entries(mem)|].base == 0
  {
    if mem == [] || mem[0].base == 0 {
    } else {
      EntriesArePrefix(mem[1..]);
      var rest := Entries(mem[1..]);
      assert mem == [mem[0]] + mem[1..];
      forall k | 0 <= k < |Entries(mem)| ensures mem[k].base != 0 && mem[k] == Entries(mem)[k] {
        if k > 0 { assert mem[k] == mem[1..][k - 1]; }
      }
    }
  }

  lemma {:induction false} EntriesUntil(mem: seq<PatchID>, n: nat)
    requires n < |mem| && mem[n].base == 0
    requires forall k :: 0 <= k < n ==> mem[k].base != 0
    ensures Entries(mem) == mem[..n]
  {
    if n == 0 {
    } else {
      EntriesUntil(mem[1..], n - 1);
      assert mem[..n] == [mem[0]] + mem[1..][..n - 1];
    }
  }

  /** The array holds `entries` followed by `terminator`. */
  ghost predicate Lists(mem: seq<PatchID>, entries: seq<PatchID>, terminator: PatchID) {
    && |entries| < |mem|
    && entries == mem[..|entries|]
    && mem[|entries|] == terminator
    && terminator.base == 0
    && forall k :: 0 <= k < |entries| ==> entries[k].base != 0
  }

  lemma ListsEntries(mem: seq<PatchID>, entries: seq<PatchID>, terminator: PatchID)
    requires Lists(mem, entries, terminator)
    ensures Entries(mem) == entries
  {
    forall k | 0 <= k < |entries| ensures mem[k].base != 0 {
      assert mem[k] == entries[k];
    }
    EntriesUntil(mem, |entries|);
  }

  /** Some terminator lies inside the array, so scans stop before leaving it. */
  ghost predicate Terminated(mem: seq<PatchID>) {
    exists n :: 0 <= n < |mem| && IsTerminator(mem[n])
  }

  predicate IsTerminator(id: PatchID) {
    id == INPUT_TERMINATOR || id == OUTPUT_TERMINATOR
  }

  /** Index of the first terminator (the length if there is none). */
  function FirstTerminator(mem: seq<PatchID>): (n: nat)
    ensures n <= |mem|
    ensures forall k :: 0 <= k < n ==> !IsTerminator(mem[k])
    ensures n < |mem| ==> IsTerminator(mem[n])
  {
    if mem == [] || IsTerminator(mem[0]) then 0 else
      var n := 1 + FirstTerminator(mem[1..]);
      assert forall k :: 1 <= k < n ==> mem[k] == mem[1..][k - 1];
      n
  }

  ghost function SetOf(s: seq<PatchID>): set<PatchID> {
    set id | id in s
  }

  /** What the repair tool reads back from an array with these contents. */
  ghost function ReadBack(mem: seq<PatchID>): set<PatchID> {
    var n := FirstTerminator(mem);
    if n < |mem| && mem[n] == OUTPUT_TERMINATOR then SetOf(mem[..n]) else {}
  }

  lemma ReadBackOf(mem: seq<PatchID>, entries: seq<PatchID>, terminator: PatchID)
    requires Lists(mem, entries, terminator) && IsTerminator(terminator)
    ensures Terminated(mem)
    ensures ReadBack(mem) == if terminator == OUTPUT_TERMINATOR then SetOf(entries) else {}
  {
    var n := FirstTerminator(mem);
    forall k | 0 <= k < |entries| ensures !IsTerminator(mem[k]) {
      assert mem[k] == entries[k];
    }
    assert IsTerminator(mem[|entries|]);
    assert n == |entries|;
  }

  // ----- The value-equivalence filter -----

  /** The candidates of `s`, in order, whose outcome agrees with that of `own`. */
  function Agreeing(s: seq<PatchID>, eval: Evaluation, own: PatchID): (r: seq<PatchID>)
    ensures |r| <= |s|
    ensures forall id :: id in r <==> id in s && Agree(eval(own), eval(id))
  {
    if s == [] then [] else
      var init := Agreeing(s[..|s| - 1], eval, own);
      var last := s[|s| - 1];
      assert s == s[..|s| - 1] + [last];
      if Agree(eval(own), eval(last)) then init + [last] else init
  }

  // ----- One call of the partition function, step by step -----

  /** Where the generated code stands: before evaluating `id`, before testing the next
      input entry, or past the output terminator. */
  datatype Control = AtLabel | AtNext | Returned

  datatype Frame = Frame(
    mem: seq<PatchID>, id: PatchID, input: nat, output: nat, result: Option<Outcome>, pc: Control)

  function Enter(mem: seq<PatchID>, own: PatchID): Frame {
    Frame(mem, own, 0, 0, None, AtLabel)
  }

  /** Both cursors point into the array. */
  predicate InBounds(f: Frame) {
    f.input < |f.mem| && f.output < |f.mem|
  }

  function Step(eval: Evaluation, f: Frame): Frame
    requires InBounds(f)
  {
    match f.pc
    case AtLabel =>
      var current := eval(f.id);
      if f.result.None? then
        f.(result := Some(current), pc := AtNext)
      else if Agree(f.result.value, current) then
        f.(mem := f.mem[f.output := f.id], output := f.output + 1, pc := AtNext)
      else
        f.(pc := AtNext)
    case AtNext =>
      if f.mem[f.input].base != 0 then
        f.(id := f.mem[f.input], input := f.input + 1, pc := AtLabel)
      else
        f.(mem := f.mem[f.output := OUTPUT_TERMINATOR], pc := Returned)
    case Returned => f
  }

  /** The state after `n` steps of a call; a step out of bounds would have no meaning,
      which `CallStaysInBounds` rules out. */
  function Run(eval: Evaluation, f: Frame, n: nat): Frame {
    if n == 0 then f else
      var g := Run(eval, f, n - 1);
      if InBounds(g) then Step(eval, g) else g
  }

  /** `f` occurs during a call of the partition function on array `mem0`. */
  ghost predicate Reachable(eval: Evaluation, mem0: seq<PatchID>, own: PatchID, f: Frame) {
    exists n: nat :: Run(eval, Enter(mem0, own), n) == f
  }

  lemma ReachableStep(eval: Evaluation, mem0: seq<PatchID>, own: PatchID, f: Frame)
    requires Reachable(eval, mem0, own, f) && InBounds(f)
    ensures Reachable(eval, mem0, own, Step(eval, f))
  {
    var n: nat :| Run(eval, Enter(mem0, own), n) == f;
    assert Run(eval, Enter(mem0, own), n + 1) == Step(eval, f);
  }

  /** The stepwise call returns and leaves `mem` behind. */
  ghost predicate CallEndsWith(eval: Evaluation, mem0: seq<PatchID>, own: PatchID, mem: seq<PatchID>) {
    exists f :: Reachable(eval, mem0, own, f) && f.pc.Returned? && f.mem == mem
  }

  /** How many listed candidates have been compared already. */
  function Compared(f: Frame): int {
    if f.pc.AtLabel? then f.input - 1 else f.input
  }

  /** The invariant of one call on an array that listed `entries` before it. */
  ghost predicate CallInvariant(f: Frame, mem0: seq<PatchID>, entries: seq<PatchID>, eval: Evaluation, own: PatchID) {
    && |f.mem| == |mem0|
    && f.input <= |entries| < |mem0|
    && f.output <= |mem0|
    && (f.result.None? ==> f == Enter(mem0, own))
    && (f.result.Some? ==>
          && f.result.value == eval(own)
          && 0 <= Compared(f)
          && (f.pc.AtLabel? ==> f.id == entries[f.input - 1])
          && (f.pc.Returned? ==> f.input == |entries|)
          && Compacted(f, mem0, Agreeing(entries[..Compared(f)], eval, own)))
  }

  /** The survivors so far sit before the output cursor; nothing behind it has been touched,
      except that a finished call has put the output terminator there. */
  ghost predicate Compacted(f: Frame, mem0: seq<PatchID>, kept: seq<PatchID>)
    requires |f.mem| == |mem0|
  {
    && f.output == |kept| <= |mem0|
    && f.mem[..f.output] == kept
    && (f.pc.Returned? ==> f.output < |mem0| && f.mem[f.output] == OUTPUT_TERMINATOR)
    && (forall k :: (if f.pc.Returned? then f.output + 1 else f.output) <= k < |mem0| ==> f.mem[k] == mem0[k])
  }

  lemma FirstStepKeepsInvariant(f: Frame, mem0: seq<PatchID>, entries: seq<PatchID>, eval: Evaluation, own: PatchID)
    requires f == Enter(mem0, own) && |entries| < |mem0|
    ensures CallInvariant(Step(eval, f), mem0, entries, eval, own)
  {
    assert entries[..0] == [];
  }

  lemma LabelStepKeepsInvariant(f: Frame, mem0: seq<PatchID>, entries: seq<PatchID>, eval: Evaluation, own: PatchID)
    requires CallInvariant(f, mem0, entries, eval, own) && f.pc.AtLabel? && f.result.Some?
    ensures InBounds(f)
    ensures CallInvariant(Step(eval, f), mem0, entries, eval, own)
  {
    var kept := Agreeing(entries[..f.input - 1], eval, own);
    assert Compacted(f, mem0, kept);
    AgreeingOneMore(entries, f.input, eval, own);
    var g := Step(eval, f);
    if Agree(eval(own), eval(f.id)) {
      CompactedWrite(f, mem0, kept);
      assert Compacted(g, mem0, kept + [f.id]);
    } else {
      assert Compacted(g, mem0, kept);
    }
  }

  lemma CompactedWrite(f: Frame, mem0: seq<PatchID>, kept: seq<PatchID>)
    requires |f.mem| == |mem0| && f.output < |mem0| && f.pc.AtLabel? && Compacted(f, mem0, kept)
    ensures Compacted(f.(mem := f.mem[f.output := f.id], output := f.output + 1, pc := AtNext), mem0, kept + [f.id])
  {
    assert f.mem[f.output := f.id][..f.output + 1] == kept + [f.id];
  }

  lemma AgreeingOneMore(entries: seq<PatchID>, n: nat, eval: Evaluation, own: PatchID)
    requires 0 < n <= |entries|
    ensures var kept := Agreeing(entries[..n - 1], eval, own);
            Agreeing(entries[..n], eval, own) ==
            if Agree(eval(own), eval(entries[n - 1])) then kept + [entries[n - 1]] else kept
  {
    var done := entries[..n];
    assert done[..|done| - 1] == entries[..n - 1];
  }

  lemma NextStepKeepsInvariant(f: Frame, mem0: seq<PatchID>, entries: seq<PatchID>, eval: Evaluation, own: PatchID)
    requires CallInvariant(f, mem0, entries, eval, own) && f.pc.AtNext?
    requires entries == mem0[..|entries|] && mem0[|entries|].base == 0
    requires forall k :: 0 <= k < |entries| ==> entries[k].base != 0
    ensures InBounds(f)
    ensures CallInvariant(Step(eval, f), mem0, entries, eval, own)
  {
    var kept := Agreeing(entries[..f.input], eval, own);
    var g := Step(eval, f);
    // Writes have not reached the entry about to be read.
    assert f.mem[f.input] == mem0[f.input];
    if f.input < |entries| {
      assert entries[f.input] == mem0[f.input];
      assert Compacted(g, mem0, kept);
    } else {
      assert g.mem[..g.output] == f.mem[..f.output];
      assert Compacted(g, mem0, kept);
    }
  }

  lemma StepKeepsInvariant(
    f: Frame, mem0: seq<PatchID>, entries: seq<PatchID>, terminator: PatchID, eval: Evaluation, own: PatchID)
    requires CallInvariant(f, mem0, entries, eval, own)
    requires Lists(mem0, entries, terminator)
    ensures InBounds(f)
    ensures CallInvariant(Step(eval, f), mem0, entries, eval, own)
  {
    match f.pc
    case AtLabel =>
      if f.result.None? {
        FirstStepKeepsInvariant(f, mem0, entries, eval, own);
      } else {
        LabelStepKeepsInvariant(f, mem0, entries, eval, own);
      }
    case AtNext => NextStepKeepsInvariant(f, mem0, entries, eval, own);
    case Returned =>
  }

  lemma {:induction false} RunKeepsInvariant(
    mem0: seq<PatchID>, entries: seq<PatchID>, terminator: PatchID, eval: Evaluation, own: PatchID, n: nat)
    requires Lists(mem0, entries, terminator)
    ensures CallInvariant(Run(eval, Enter(mem0, own), n), mem0, entries, eval, own)
  {
    if n > 0 {
      RunKeepsInvariant(mem0, entries, terminator, eval, own, n - 1);
      StepKeepsInvariant(Run(eval, Enter(mem0, own), n - 1), mem0, entries, terminator, eval, own);
    }
  }

  /** Every access of a call is inside the array, and no write overtakes an unread entry:
      what lies at or beyond the read cursor is still what was there on entry. */
  lemma CallStaysInBounds(
    mem0: seq<PatchID>, entries: seq<PatchID>, terminator: PatchID, eval: Evaluation, own: PatchID, n: nat)
    requires Lists(mem0, entries, terminator)
    ensures var f := Run(eval, Enter(mem0, own), n);
            && InBounds(f) && f.input <= |entries| && f.output <= f.input
            && (!f.pc.Returned? ==> f.mem[f.input..] == mem0[f.input..])
  {
    var f := Run(eval, Enter(mem0, own), n);
    RunKeepsInvariant(mem0, entries, terminator, eval, own, n);
    hide Run, Agreeing;
    if !f.pc.Returned? { assert forall k :: f.input <= k < |mem0| ==> f.mem[k] == mem0[k]; }
  }

  /** A call killed at any step. In the first call (input terminator) the tool reads back
      nothing; in a later call it reads back a set between the candidates that agree on this
      call too and those that agreed on the earlier ones. */
  lemma TornCall(
    mem0: seq<PatchID>, entries: seq<PatchID>, terminator: PatchID, eval: Evaluation, own: PatchID, n: nat)
    requires Lists(mem0, entries, terminator) && IsTerminator(terminator)
    ensures var f := Run(eval, Enter(mem0, own), n);
            && Terminated(f.mem)
            && (f.pc.Returned? ==> ReadBack(f.mem) == SetOf(Agreeing(entries, eval, own)))
            && (!f.pc.Returned? && terminator == INPUT_TERMINATOR ==> ReadBack(f.mem) == {})
            && (!f.pc.Returned? && terminator == OUTPUT_TERMINATOR ==>
                  SetOf(Agreeing(entries, eval, own)) <= ReadBack(f.mem) <= SetOf(entries))
  {
    RunKeepsInvariant(mem0, entries, terminator, eval, own, n);
    var f := Run(eval, Enter(mem0, own), n);
    if f.result.None? {
      ReadBackOf(mem0, entries, terminator);
    } else if f.pc.Returned? {
      var kept := Agreeing(entries[..Compared(f)], eval, own);
      assert entries[..Compared(f)] == entries;
      forall k | 0 <= k < |kept| ensures kept[k].base != 0 { assert kept[k] in kept; }
      ReadBackOf(f.mem, kept, OUTPUT_TERMINATOR);
    } else {
      MixtureReadsBack(f, mem0, entries, terminator, eval, own);
    }
  }

  /** Every call returns: a bound on its length. */
  lemma {:induction false} CallReturns(
    mem0: seq<PatchID>, entries: seq<PatchID>, terminator: PatchID, eval: Evaluation, own: PatchID)
    requires Lists(mem0, entries, terminator)
    ensures Run(eval, Enter(mem0, own), 2 * |entries| + 2).pc.Returned?
  {
    CallProgress(mem0, entries, terminator, eval, own, 2 * |entries| + 2);
    CallStaysInBounds(mem0, entries, terminator, eval, own, 2 * |entries| + 2);
  }

  /** Two steps per entry, and it returns with two steps more, not before. */
  lemma {:induction false} CallProgress(
    mem0: seq<PatchID>, entries: seq<PatchID>, terminator: PatchID, eval: Evaluation, own: PatchID, n: nat)
    requires Lists(mem0, entries, terminator)
    ensures var f := Run(eval, Enter(mem0, own), n);
            if f.pc.Returned? then n >= 2 * |entries| + 2 else n == 2 * f.input + (if f.pc.AtNext? then 1 else 0)
  {
    hide Step, CallInvariant, Agreeing;
    if n > 0 {
      CallProgress(mem0, entries, terminator, eval, own, n - 1);
      CallStaysInBounds(mem0, entries, terminator, eval, own, n - 1);
      RunKeepsInvariant(mem0, entries, terminator, eval, own, n - 1);
      ProgressStep(Run(eval, Enter(mem0, own), n - 1), mem0, entries, terminator, eval, own);
    }
  }

  lemma ProgressStep(
    f: Frame, mem0: seq<PatchID>, entries: seq<PatchID>, terminator: PatchID, eval: Evaluation, own: PatchID)
    requires Lists(mem0, entries, terminator) && CallInvariant(f, mem0, entries, eval, own) && InBounds(f)
    ensures var g := Step(eval, f);
            if f.pc.Returned? then g == f
            else if g.pc.Returned? then f.pc.AtNext? && f.input == |entries|
            else g.input == f.input + (if f.pc.AtNext? then 1 else 0) && g.pc.AtNext? == f.pc.AtLabel?
  {
    hide Agreeing;
    if f.pc.AtNext? && f.input < |entries| {
      assert f.mem[f.input] == mem0[f.input] == entries[f.input];
    }
  }

  // ----- A call that is killed -----

  /** How many entries have been written back after `n` steps: the agreeing ones among those
      compared, two steps each. */
  function WrittenAfter(entries: seq<PatchID>, eval: Evaluation, own: PatchID, n: nat): (w: nat)
    ensures w <= |entries|
  {
    var compared := if n == 0 then 0 else (n - 1) / 2;
    |Agreeing(if compared < |entries| then entries[..compared] else entries, eval, own)|
  }

  /** What a later call leaves to be read back if it is killed after `n` steps: the agreeing entries
      and, unless it has returned, all entries that have not been overwritten. */
  ghost function TornReadBack(entries: seq<PatchID>, eval: Evaluation, own: PatchID, n: nat): set<PatchID> {
    SetOf(Agreeing(entries, eval, own)) +
    if n >= 2 * |entries| + 2 then {} else SetOf(entries[WrittenAfter(entries, eval, own, n)..])
  }

  lemma TornCallReadsBack(mem0: seq<PatchID>, entries: seq<PatchID>, eval: Evaluation, own: PatchID, n: nat)
    requires Lists(mem0, entries, OUTPUT_TERMINATOR)
    ensures ReadBack(Run(eval, Enter(mem0, own), n).mem) == TornReadBack(entries, eval, own, n)
  {
    hide CallInvariant, WrittenAfter, ReadBack, Agreeing, Run;
    RunKeepsInvariant(mem0, entries, OUTPUT_TERMINATOR, eval, own, n);
    CallProgress(mem0, entries, OUTPUT_TERMINATOR, eval, own, n);
    TornCall(mem0, entries, OUTPUT_TERMINATOR, eval, own, n);
    var f := Run(eval, Enter(mem0, own), n);
    if !f.pc.Returned? {
      WrittenIsOutput(f, mem0, entries, eval, own, n);
      if f.result.None? {
        NothingWritten(f, mem0, entries, eval, own);
      } else {
        MixtureReadsBack(f, mem0, entries, OUTPUT_TERMINATOR, eval, own);
      }
    }
  }

  lemma NothingWritten(f: Frame, mem0: seq<PatchID>, entries: seq<PatchID>, eval: Evaluation, own: PatchID)
    requires Lists(mem0, entries, OUTPUT_TERMINATOR) && CallInvariant(f, mem0, entries, eval, own) && f.result.None?
    ensures f.output == 0
    ensures ReadBack(f.mem) == SetOf(Agreeing(entries, eval, own)) + SetOf(entries[0..])
  {
    ReadBackOf(mem0, entries, OUTPUT_TERMINATOR);
    assert entries[0..] == entries;
  }

  lemma WrittenIsOutput(f: Frame, mem0: seq<PatchID>, entries: seq<PatchID>, eval: Evaluation, own: PatchID, n: nat)
    requires CallInvariant(f, mem0, entries, eval, own) && !f.pc.Returned?
    requires n == 2 * f.input + (if f.pc.AtNext? then 1 else 0)
    ensures f.output == WrittenAfter(entries, eval, own, n)
  {
    hide Agreeing;
    if f.result.None? {
      assert entries[..0] == [] && Agreeing([], eval, own) == [];
    } else if Compared(f) == |entries| {
      assert entries[..Compared(f)] == entries;
    }
  }

  /** During a call the array holds the compacted part, then the entries not yet overwritten. */
  lemma MixtureReadsBack(
    f: Frame, mem0: seq<PatchID>, entries: seq<PatchID>, terminator: PatchID, eval: Evaluation, own: PatchID)
    requires Lists(mem0, entries, terminator) && IsTerminator(terminator)
    requires CallInvariant(f, mem0, entries, eval, own) && f.result.Some? && !f.pc.Returned?
    ensures Terminated(f.mem) && f.output <= |entries|
    ensures ReadBack(f.mem) ==
            if terminator == INPUT_TERMINATOR then {}
            else SetOf(Agreeing(entries, eval, own)) + SetOf(entries[f.output..])
  {
    var kept := Agreeing(entries[..Compared(f)], eval, own);
    var mixture := kept + entries[|kept|..];
    forall k | 0 <= k < |mixture| ensures mixture[k].base != 0 {
      if k < |kept| { assert kept[k] in kept; }
    }
    assert f.mem[..|entries|] == mixture;
    ReadBackOf(f.mem, mixture, terminator);
    hide CallInvariant, ReadBack, Lists;
    MixtureHolds(entries, Compared(f), eval, own);
  }

  lemma MixtureHolds(entries: seq<PatchID>, n: nat, eval: Evaluation, own: PatchID)
    requires n <= |entries|
    ensures var kept := Agreeing(entries[..n], eval, own);
            SetOf(kept + entries[|kept|..]) == SetOf(Agreeing(entries, eval, own)) + SetOf(entries[|kept|..])
  {
    hide Agreeing;
    var kept := Agreeing(entries[..n], eval, own);
    forall id | id in Agreeing(entries, eval, own) ensures id in kept || id in entries[|kept|..] {
      var k :| 0 <= k < |entries| && entries[k] == id;
      if k < n {
        assert entries[..n][k] == id;
      } else {
        assert entries[|kept|..][k - |kept|] == id;
      }
    }
  }

  /** A later call that is killed after `n` steps, before it returns, is harmless exactly if all
      entries it has not overwritten agree. */
  lemma TornCallIsExactIff(mem0: seq<PatchID>, entries: seq<PatchID>, eval: Evaluation, own: PatchID, n: nat)
    requires Lists(mem0, entries, OUTPUT_TERMINATOR) && n < 2 * |entries| + 2
    ensures ReadBack(Run(eval, Enter(mem0, own), n).mem) == SetOf(Agreeing(entries, eval, own)) <==>
            forall k :: WrittenAfter(entries, eval, own, n) <= k < |entries| ==> Agree(eval(own), eval(entries[k]))
  {
    TornCallReadsBack(mem0, entries, eval, own, n);
    TornIsExactIff(entries, eval, own, n);
  }

  lemma TornIsExactIff(entries: seq<PatchID>, eval: Evaluation, own: PatchID, n: nat)
    requires n < 2 * |entries| + 2
    ensures TornReadBack(entries, eval, own, n) == SetOf(Agreeing(entries, eval, own)) <==>
            forall k :: WrittenAfter(entries, eval, own, n) <= k < |entries| ==> Agree(eval(own), eval(entries[k]))
  {
    var w := WrittenAfter(entries, eval, own, n);
    forall k | w <= k < |entries| ensures entries[k] in SetOf(entries[w..]) {
      assert entries[w..][k - w] == entries[k];
    }
  }

  // ----- The array as an object -----

  class Runtime {
    const partition: array<PatchID>

    constructor ()
      ensures fresh(partition) && partition.Length == MAX_PARTITION_SIZE
    {
      partition := new PatchID[MAX_PARTITION_SIZE](_ => INPUT_TERMINATOR);
    }

    /** Lays out the candidates to partition, in the iteration order of the hash set: arbitrary,
        but fixed once laid out. */
    method SetPartition(ids: set<PatchID>) returns (ghost order: seq<PatchID>)
      requires |ids| < MAX_PARTITION_SIZE == partition.Length
      modifies partition
      ensures SetOf(order) == ids && |order| == |ids|
      ensures partition[..|order|] == order
      ensures partition[|order|] == INPUT_TERMINATOR
      ensures partition[|order| + 1..] == old(partition[|order| + 1..])
    {
      order := [];
      var index, rest := 0, ids;
      while rest != {}
        invariant index == |order| && |order| + |rest| == |ids|
        invariant SetOf(order) + rest == ids
        invariant partition[..index] == order
        invariant partition[index..] == old(partition[index..])
        decreases rest
      {
        var id :| id in rest;
        partition[index] := id;
        order := order + [id];
        index := index + 1;
        rest := rest - {id};
      }
      partition[index] := INPUT_TERMINATOR;
    }

    /** Reads the surviving candidates. */
    method GetPartition() returns (result: set<PatchID>)
      requires partition.Length == MAX_PARTITION_SIZE
      requires Terminated(partition[..])
      ensures result == ReadBack(partition[..])
    {
      ghost var stop := FirstTerminator(partition[..]);
      result := {};
      var index := 0;
      while partition[index] != OUTPUT_TERMINATOR
        invariant index <= stop < partition.Length
        invariant result == SetOf(partition[..index])
        decreases stop - index
      {
        if partition[index] == INPUT_TERMINATOR {
          assert index == stop;
          return {};
        }
        if index > MAX_PARTITION_SIZE {
          return {};
        }
        assert !IsTerminator(partition[..][index]);
        result := result + {partition[index]};
        assert partition[..index + 1] == partition[..index] + [partition[index]];
        index := index + 1;
      }
      assert IsTerminator(partition[..][index]);
      assert partition[..][..index] == partition[..index];
    }

    /** Evaluates one candidate: the first one gives the output, a later one that agrees is written
        back. */
    method Compare(
      eval: Evaluation, ghost f: Frame, id: PatchID, output: Outcome, initialized: bool, outputIndex: nat)
      returns (output': Outcome, outputIndex': nat)
      requires f.pc.AtLabel? && InBounds(f) && f.mem == partition[..] && f.output == outputIndex && f.id == id
      requires f.result == if initialized then Some(output) else None
      modifies partition
      ensures var g := Step(eval, f);
              && g.mem == partition[..] && g.output == outputIndex' && g.result == Some(output')
              && g.input == f.input && g.id == id && g.pc.AtNext?
    {
      output', outputIndex' := output, outputIndex;
      var current := eval(id);
      if !initialized {
        output' := current;
      } else if Agree(output, current) {
        partition[outputIndex] := id;
        outputIndex' := outputIndex + 1;
      }
      assert Step(eval, f).mem == partition[..];
    }

    /** The body of a generated partition function while candidates are listed in the array.
        `own` is the executed candidate, taken from the environment. */
    method PartitionFunction(eval: Evaluation, own: PatchID) returns (output: Outcome)
      requires |Entries(partition[..])| < partition.Length
      modifies partition
      ensures output == eval(own)
      ensures var entries := old(Entries(partition[..]));
              var kept := Agreeing(entries, eval, own);
              && partition[..|kept|] == kept
              && partition[|kept|] == OUTPUT_TERMINATOR
              && partition[|kept| + 1..] == old(partition[|kept| + 1..])
              && Entries(partition[..]) == kept
      ensures CallEndsWith(eval, old(partition[..]), own, partition[..])
    {
      ghost var mem0 := partition[..];
      ghost var entries := Entries(mem0);
      EntriesArePrefix(mem0);
      ghost var f := Enter(mem0, own);
      assert Run(eval, f, 0) == f;
      var id := own;
      output := Outcome(false, 0);
      var initialized := false;
      var inputIndex, outputIndex := 0, 0;
      while true
        invariant inputIndex <= |entries|
        invariant f.mem == partition[..] && f.input == inputIndex && f.output == outputIndex
        invariant f.id == id && f.pc == AtLabel
        invariant f.result == if initialized then Some(output) else None
        invariant Reachable(eval, mem0, own, f)
        decreases |entries| - inputIndex
      {
        Advance(eval, mem0, own, f);
        output, outputIndex := Compare(eval, f, id, output, initialized, outputIndex);
        initialized := true;
        f := Step(eval, f);
        Advance(eval, mem0, own, f);
        if partition[inputIndex].base != 0 {
          id := partition[inputIndex];
          inputIndex := inputIndex + 1;
          f := Step(eval, f);
        } else {
          break;
        }
      }
      partition[outputIndex] := OUTPUT_TERMINATOR;
      f := Step(eval, f);
      assert f.mem == partition[..];
      ReturnedFrame(eval, mem0, own, f);
    }

    /** Reads the next entry, or at the terminator puts the output terminator. */
    method FetchOrEnd(eval: Evaluation, ghost f: Frame, id: PatchID, inputIndex: nat, outputIndex: nat)
      returns (id': PatchID, inputIndex': nat, returned: bool)
      requires f.pc.AtNext? && InBounds(f) && f.mem == partition[..] && f.id == id
      requires f.input == inputIndex && f.output == outputIndex
      modifies partition
      ensures var g := Step(eval, f);
              && g.mem == partition[..] && g.output == outputIndex && g.result == f.result
              && g.input == inputIndex' && g.id == id' && g.pc == if returned then Returned else AtLabel
    {
      id', inputIndex', returned := id, inputIndex, partition[inputIndex].base == 0;
      if returned {
        partition[outputIndex] := OUTPUT_TERMINATOR;
      } else {
        id' := partition[inputIndex];
        inputIndex' := inputIndex + 1;
      }
      assert Step(eval, f).mem == partition[..];
    }

    /** The same call, killed after `n` steps. */
    method PartitionFunctionUntil(eval: Evaluation, own: PatchID, n: nat)
      requires |Entries(partition[..])| < partition.Length
      modifies partition
      ensures partition[..] == Run(eval, Enter(old(partition[..]), own), n).mem
    {
      ghost var mem0 := partition[..];
      ghost var f := Enter(mem0, own);
      assert After(eval, mem0, own, 0, f);
      var id, output := own, Outcome(false, 0);
      var initialized := false;
      var inputIndex, outputIndex, left := 0, 0, n;
      hide After, Run, Entries, Enter, Step, Agree;
      while left > 0
        invariant 0 <= left <= n && inputIndex <= |Entries(mem0)|
        invariant After(eval, mem0, own, n - left, f)
        invariant f.mem == partition[..] && f.input == inputIndex && f.output == outputIndex
        invariant f.id == id && f.pc == AtLabel
        invariant f.result == if initialized then Some(output) else None
      {
        AfterStep(eval, mem0, own, n - left, f);
        output, outputIndex := Compare(eval, f, id, output, initialized, outputIndex);
        initialized := true;
        f := Step(eval, f);
        left := left - 1;
        if left == 0 { break; }
        AfterStep(eval, mem0, own, n - left, f);
        var returned;
        id, inputIndex, returned := FetchOrEnd(eval, f, id, inputIndex, outputIndex);
        f := Step(eval, f);
        left := left - 1;
        if returned {
          StaysReturned(eval, mem0, own, n - left, n, f);
          break;
        }
      }
      assert After(eval, mem0, own, n, f);
      AfterRun(eval, mem0, own, n, f);
    }
  }

  /** The state of a call after `n` steps. */
  ghost predicate After(eval: Evaluation, mem0: seq<PatchID>, own: PatchID, n: nat, f: Frame) {
    Run(eval, Enter(mem0, own), n) == f
  }

  lemma AfterRun(eval: Evaluation, mem0: seq<PatchID>, own: PatchID, n: nat, f: Frame)
    requires After(eval, mem0, own, n, f)
    ensures Run(eval, Enter(mem0, own), n) == f
  {
  }

  lemma AfterStep(eval: Evaluation, mem0: seq<PatchID>, own: PatchID, n: nat, f: Frame)
    requires After(eval, mem0, own, n, f) && |Entries(mem0)| < |mem0|
    ensures InBounds(f) && After(eval, mem0, own, n + 1, Step(eval, f))
    ensures Step(eval, f).input <= |Entries(mem0)|
    ensures f.pc.AtNext? ==> f.result == Some(eval(own))
  {
    assert Reachable(eval, mem0, own, f);
    Advance(eval, mem0, own, f);
  }

  lemma {:induction false} StaysReturned(eval: Evaluation, mem0: seq<PatchID>, own: PatchID, m: nat, n: nat, f: Frame)
    requires m <= n && After(eval, mem0, own, m, f) && f.pc.Returned?
    ensures After(eval, mem0, own, n, f)
  {
    if m < n { StaysReturned(eval, mem0, own, m, n - 1, f); }
  }

  /** A call never gets stuck, and its cursors stay within the listed entries. */
  lemma Advance(eval: Evaluation, mem0: seq<PatchID>, own: PatchID, f: Frame)
    requires Reachable(eval, mem0, own, f) && |Entries(mem0)| < |mem0|
    ensures InBounds(f) && Reachable(eval, mem0, own, Step(eval, f))
    ensures Step(eval, f).input <= |Entries(mem0)|
    ensures f.pc.AtNext? ==> f.result == Some(eval(own))
  {
    EntriesArePrefix(mem0);
    var entries := Entries(mem0);
    var n: nat :| Run(eval, Enter(mem0, own), n) == f;
    RunKeepsInvariant(mem0, entries, mem0[|entries|], eval, own, n);
    StepKeepsInvariant(f, mem0, entries, mem0[|entries|], eval, own);
    ReachableStep(eval, mem0, own, f);
  }

  /** What the array holds once a call has returned. */
  lemma ReturnedFrame(eval: Evaluation, mem0: seq<PatchID>, own: PatchID, f: Frame)
    requires Reachable(eval, mem0, own, f) && f.pc.Returned? && |Entries(mem0)| < |mem0|
    ensures f.result == Some(eval(own)) && |f.mem| == |mem0|
    ensures var kept := Agreeing(Entries(mem0), eval, own);
            && |kept| < |f.mem|
            && f.mem[..|kept|] == kept
            && f.mem[|kept|] == OUTPUT_TERMINATOR
            && f.mem[|kept| + 1..] == mem0[|kept| + 1..]
            && Entries(f.mem) == kept
  {
    EntriesArePrefix(mem0);
    var n: nat :| Run(eval, Enter(mem0, own), n) == f;
    RunKeepsInvariant(mem0, Entries(mem0), mem0[|Entries(mem0)|], eval, own, n);
    hide Reachable, Run, Entries, Agreeing, CallInvariant;
    ReturnedArray(f, mem0, Entries(mem0), eval, own);
    ListsEntries(f.mem, Agreeing(Entries(mem0), eval, own), OUTPUT_TERMINATOR);
  }

  lemma ReturnedArray(f: Frame, mem0: seq<PatchID>, entries: seq<PatchID>, eval: Evaluation, own: PatchID)
    requires CallInvariant(f, mem0, entries, eval, own) && f.pc.Returned? && f.result.Some?
    requires forall k :: 0 <= k < |entries| ==> entries[k].base != 0
    ensures f.result == Some(eval(own)) && |f.mem| == |mem0|
    ensures var kept := Agreeing(entries, eval, own);
            && Lists(f.mem, kept, OUTPUT_TERMINATOR)
            && f.mem[|kept| + 1..] == mem0[|kept| + 1..]
  {
    hide Agreeing;
    var kept := Agreeing(entries, eval, own);
    assert entries[..Compared(f)] == entries;
    forall k | 0 <= k < |kept| ensures kept[k].base != 0 { assert kept[k] in kept; }
  }
}
