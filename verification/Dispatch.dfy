/** Generation of the search space: the holes of every base modification are filled by a stack
    worklist, and the same modifications are emitted as switch cases
    (repair/Synthesis.cpp:614-652, 709-788 and 806-849). */
module Dispatch {
  import opened Core
  import opened Expressions
  import opened Edits

  // ----- Filling a hole -----

  predicate HasNodeOfKind(e: Expression, kind: NodeKind) {
    e.kind == kind || exists k :: 0 <= k < |e.args| && HasNodeOfKind(e.args[k], kind)
  }

  /** Replaces the first node of the kind, in preorder; None if there is none. */
  function SubstituteFirst(e: Expression, kind: NodeKind, s: Expression): Option<Expression> {
    if e.kind == kind then Some(s) else
      match SubstituteInArgs(e.args, kind, s)
      case None => None
      case Some(args) => Some(e.(args := args))
  }

  function SubstituteInArgs(args: seq<Expression>, kind: NodeKind, s: Expression): (r: Option<seq<Expression>>)
    ensures r.Some? ==> |r.value| == |args|
  {
    if args == [] then None else
      match SubstituteFirst(args[0], kind, s)
      case Some(first) => Some([first] + args[1..])
      case None =>
        match SubstituteInArgs(args[1..], kind, s)
        case Some(rest) => Some([args[0]] + rest)
        case None => None
  }

  function Fill(e: Expression, kind: NodeKind, s: Expression): Expression {
    match SubstituteFirst(e, kind, s)
    case Some(filled) => filled
    case None => e
  }

  /** The in-place substitution of the code: updates the first matching node and says so. */
  method SubstituteNodeOfKind(e: Expression, kind: NodeKind, s: Expression) returns (found: bool, result: Expression)
    ensures found <==> SubstituteFirst(e, kind, s).Some?
    ensures result == Fill(e, kind, s)
    decreases e
  {
    result := e;
    if e.kind == kind {
      return true, s;
    }
    var k := 0;
    assert NotBefore(e.args, 0, kind, s) by {
      assert e.args[0..] == e.args;
      match SubstituteInArgs(e.args, kind, s) {
        case Some(all) => assert e.args[..0] + all == all;
        case None =>
      }
    }
    while k < |e.args|
      invariant k <= |e.args| && NotBefore(e.args, k, kind, s)
    {
      var inArg, arg := SubstituteNodeOfKind(e.args[k], kind, s);
      SearchNext(e.args, k, kind, s);
      if inArg {
        result := e.(args := e.args[k := arg]);
        return true, result;
      }
      k := k + 1;
    }
    found := false;
  }

  /** The first `k` arguments hold no node of the kind: the search continues in the others. */
  ghost predicate NotBefore(args: seq<Expression>, k: nat, kind: NodeKind, s: Expression)
    requires k <= |args|
  {
    SubstituteInArgs(args, kind, s) == Prepend(args[..k], SubstituteInArgs(args[k..], kind, s))
  }

  ghost function Prepend(prefix: seq<Expression>, r: Option<seq<Expression>>): Option<seq<Expression>> {
    match r
    case None => None
    case Some(rest) => Some(prefix + rest)
  }

  lemma SearchNext(args: seq<Expression>, k: nat, kind: NodeKind, s: Expression)
    requires k < |args| && NotBefore(args, k, kind, s)
    ensures match SubstituteFirst(args[k], kind, s)
            case Some(arg) => SubstituteInArgs(args, kind, s) == Some(args[k := arg])
            case None => NotBefore(args, k + 1, kind, s)
  {
    var rest := args[k..];
    assert rest[0] == args[k] && rest[1..] == args[k + 1..];
    match SubstituteFirst(args[k], kind, s) {
      case Some(arg) => assert args[..k] + ([arg] + rest[1..]) == args[k := arg];
      case None =>
        match SubstituteInArgs(rest[1..], kind, s) {
          case Some(tail) => assert args[..k] + ([rest[0]] + tail) == args[..k + 1] + tail;
          case None =>
        }
    }
  }

  lemma {:induction false} SubstituteFinds(e: Expression, kind: NodeKind, s: Expression)
    ensures HasNodeOfKind(e, kind) <==> SubstituteFirst(e, kind, s).Some?
    decreases e, 0
  {
    SubstituteInArgsFinds(e.args, kind, s);
  }

  lemma {:induction false} SubstituteInArgsFinds(args: seq<Expression>, kind: NodeKind, s: Expression)
    ensures SubstituteInArgs(args, kind, s).Some? <==> exists k :: 0 <= k < |args| && HasNodeOfKind(args[k], kind)
    decreases args
  {
    if args != [] {
      SubstituteFinds(args[0], kind, s);
      SubstituteInArgsFinds(args[1..], kind, s);
      if exists k :: 0 <= k < |args| && HasNodeOfKind(args[k], kind) {
        var k :| 0 <= k < |args| && HasNodeOfKind(args[k], kind);
        if k > 0 { assert args[1..][k - 1] == args[k]; }
      }
    }
  }

  /** Filling the first node of a kind trades it for the nodes of the filling. */
  lemma {:induction false} FillCounts(e: Expression, kind: NodeKind, s: Expression, kinds: set<NodeKind>)
    requires IsAbstractNode(kind) && AbstractLeaves(e)
    ensures SubstituteFirst(e, kind, s).Some? ==>
              Count(SubstituteFirst(e, kind, s).value, kinds) + (if kind in kinds then 1 else 0) ==
              Count(e, kinds) + Count(s, kinds)
    decreases e, 0
  {
    if e.kind == kind {
      assert CountIn(e.args, kinds) == 0;
    } else {
      FillInArgsCounts(e.args, kind, s, kinds);
    }
  }

  lemma {:induction false} FillInArgsCounts(args: seq<Expression>, kind: NodeKind, s: Expression, kinds: set<NodeKind>)
    requires IsAbstractNode(kind) && forall k :: 0 <= k < |args| ==> AbstractLeaves(args[k])
    ensures SubstituteInArgs(args, kind, s).Some? ==>
              CountIn(SubstituteInArgs(args, kind, s).value, kinds) + (if kind in kinds then 1 else 0) ==
              CountIn(args, kinds) + Count(s, kinds)
    decreases args
  {
    if args != [] {
      FillCounts(args[0], kind, s, kinds);
      FillInArgsCounts(args[1..], kind, s, kinds);
      match SubstituteFirst(args[0], kind, s) {
        case Some(first) => assert ([first] + args[1..])[1..] == args[1..];
        case None =>
          match SubstituteInArgs(args[1..], kind, s) {
            case Some(rest) => assert ([args[0]] + rest)[1..] == rest;
            case None =>
          }
      }
    }
  }

  /** Filling changes one argument, the one that holds the node. */
  lemma {:induction false} FilledArgument(args: seq<Expression>, kind: NodeKind, s: Expression) returns (k: nat)
    requires SubstituteInArgs(args, kind, s).Some? && IsAbstractNode(kind)
    ensures k < |args| && SubstituteFirst(args[k], kind, s).Some?
    ensures SubstituteInArgs(args, kind, s).value == args[k := SubstituteFirst(args[k], kind, s).value]
    ensures Count(args[k], ABSTRACT_KINDS) >= 1
    ensures forall i :: 0 <= i < |args| && i != k ==>
              Count(args[i], ABSTRACT_KINDS) + Count(args[k], ABSTRACT_KINDS) <= CountIn(args, ABSTRACT_KINDS)
  {
    if SubstituteFirst(args[0], kind, s).Some? {
      k := 0;
      assert [SubstituteFirst(args[0], kind, s).value] + args[1..] == args[0 := SubstituteFirst(args[0], kind, s).value];
      forall i | 0 < i < |args| ensures Count(args[i], ABSTRACT_KINDS) <= CountIn(args[1..], ABSTRACT_KINDS) {
        CountAfterUpdate(args[1..], i - 1, args[i], ABSTRACT_KINDS);
      }
    } else {
      var l := FilledArgument(args[1..], kind, s);
      k := l + 1;
      var first := SubstituteFirst(args[k], kind, s).value;
      assert [args[0]] + args[1..][l := first] == args[k := first];
      CountAfterUpdate(args[1..], l, args[k], ABSTRACT_KINDS);
      forall i | 0 < i < |args| && i != k
        ensures Count(args[i], ABSTRACT_KINDS) + Count(args[k], ABSTRACT_KINDS) <= CountIn(args[1..], ABSTRACT_KINDS)
      {
        assert args[i] == args[1..][i - 1];
      }
    }
    SubstituteFinds(args[k], kind, s);
    SubstitutedIsCounted(args[k], kind);
  }

  lemma {:induction false} SubstitutedIsCounted(e: Expression, kind: NodeKind)
    requires IsAbstractNode(kind) && HasNodeOfKind(e, kind)
    ensures Holes(e) >= 1
  {
    if e.kind != kind {
      var k :| 0 <= k < |e.args| && HasNodeOfKind(e.args[k], kind);
      SubstitutedIsCounted(e.args[k], kind);
      CountAfterUpdate(e.args, k, e.args[k], ABSTRACT_KINDS);
    }
  }

  /** Abstract nodes have no arguments. */
  predicate AbstractLeaves(e: Expression) {
    && (IsAbstractNode(e.kind) ==> e.args == [])
    && forall k :: 0 <= k < |e.args| ==> AbstractLeaves(e.args[k])
  }

  lemma {:induction false} FillKeepsAbstractLeaves(e: Expression, kind: NodeKind, s: Expression)
    requires AbstractLeaves(e) && AbstractLeaves(s)
    ensures AbstractLeaves(Fill(e, kind, s))
    decreases e, 0
  {
    if e.kind != kind {
      FillInArgsKeepsAbstractLeaves(e.args, kind, s);
      if SubstituteInArgs(e.args, kind, s).Some? { assert e.args != []; }
    }
  }

  lemma {:induction false} FillInArgsKeepsAbstractLeaves(args: seq<Expression>, kind: NodeKind, s: Expression)
    requires AbstractLeaves(s) && forall k :: 0 <= k < |args| ==> AbstractLeaves(args[k])
    ensures SubstituteInArgs(args, kind, s).Some? ==>
              forall k :: 0 <= k < |args| ==> AbstractLeaves(SubstituteInArgs(args, kind, s).value[k])
    decreases args
  {
    if args != [] {
      FillKeepsAbstractLeaves(args[0], kind, s);
      FillInArgsKeepsAbstractLeaves(args[1..], kind, s);
    }
  }

  lemma {:induction false} HasNodeIsCounted(e: Expression, kind: NodeKind)
    ensures HasNodeOfKind(e, kind) <==> Count(e, {kind}) > 0
    decreases e, 0
  {
    HasNodeInArgsIsCounted(e.args, kind);
  }

  lemma {:induction false} HasNodeInArgsIsCounted(args: seq<Expression>, kind: NodeKind)
    ensures (exists k :: 0 <= k < |args| && HasNodeOfKind(args[k], kind)) <==> CountIn(args, {kind}) > 0
    decreases args
  {
    if args != [] {
      HasNodeIsCounted(args[0], kind);
      HasNodeInArgsIsCounted(args[1..], kind);
      if exists k :: 0 <= k < |args| && HasNodeOfKind(args[k], kind) {
        var k :| 0 <= k < |args| && HasNodeOfKind(args[k], kind);
        if k > 0 { assert args[1..][k - 1] == args[k]; }
      }
    }
  }

  lemma {:induction false} CompilableHasAbstractLeaves(e: Expression, components: seq<Expression>, pointees: seq<string>)
    requires Compilable(e, components, pointees)
    ensures AbstractLeaves(e)
  {
    forall k | 0 <= k < |e.args| ensures AbstractLeaves(e.args[k]) {
      CompilableHasAbstractLeaves(e.args[k], components, pointees);
    }
  }

  /** The only holes of an expression the runtime can evaluate are the two it has variables for. */
  lemma {:induction false} CompilableHoles(e: Expression, components: seq<Expression>, pointees: seq<string>)
    requires Compilable(e, components, pointees)
    ensures Holes(e) == Count(e, {BOOL2}) + Count(e, {PARAMETER})
    decreases e, 0
  {
    CompilableHolesInArgs(e.args, components, pointees);
  }

  lemma {:induction false} CompilableHolesInArgs(args: seq<Expression>, components: seq<Expression>, pointees: seq<string>)
    requires forall k :: 0 <= k < |args| ==> Compilable(args[k], components, pointees)
    ensures CountIn(args, ABSTRACT_KINDS) == CountIn(args, {BOOL2}) + CountIn(args, {PARAMETER})
    decreases args
  {
    if args != [] {
      CompilableHoles(args[0], components, pointees);
      CompilableHolesInArgs(args[1..], components, pointees);
    }
  }

  // ----- The instances of one base modification -----

  datatype Candidate = Candidate(id: PatchID, expr: Expression)

  function ParameterInstances(c: Candidate, count: nat): (r: seq<Candidate>)
    ensures |r| == count
    ensures forall k :: 0 <= k < count ==>
              r[k] == Candidate(c.id.(param := k), Fill(c.expr, PARAMETER, MakeIntegerConst(k)))
  {
    seq(count, k requires 0 <= k < count => Candidate(c.id.(param := k), Fill(c.expr, PARAMETER, MakeIntegerConst(k))))
  }

  function WithParameter(c: Candidate, paramBound: nat): seq<Candidate> {
    if HasNodeOfKind(c.expr, PARAMETER) then ParameterInstances(c, paramBound + 1) else [c]
  }

  function WithBool2(c: Candidate, bools: seq<Expression>, i: nat): Candidate
    requires 0 < i <= |bools|
  {
    Candidate(c.id.(bool2 := i), Fill(c.expr, BOOL2, bools[i - 1]))
  }

  /** The last Boolean expression pushed is the first one popped. */
  function Bool2Instances(c: Candidate, bools: seq<Expression>, n: nat, paramBound: nat): seq<Candidate>
    requires n <= |bools|
  {
    if n == 0 then [] else WithParameter(WithBool2(c, bools, n), paramBound) + Bool2Instances(c, bools, n - 1, paramBound)
  }

  function Instances(c: Candidate, bools: seq<Expression>, paramBound: nat): seq<Candidate> {
    if HasNodeOfKind(c.expr, BOOL2) then Bool2Instances(c, bools, |bools|, paramBound) else WithParameter(c, paramBound)
  }

  // ----- The worklist -----

  /** What the worklist ends with when `done` has been delivered and `stack` is left, top first. */
  ghost function Deliver(done: seq<Candidate>, stack: seq<Candidate>, bools: seq<Expression>, paramBound: nat): seq<Candidate>
    decreases |stack|
  {
    if stack == [] then done else
      Deliver(done + Instances(stack[|stack| - 1], bools, paramBound), stack[..|stack| - 1], bools, paramBound)
  }

  /** The candidates pushed for the first `n` Boolean expressions. */
  function Pushed(c: Candidate, bools: seq<Expression>, n: nat): (r: seq<Candidate>)
    requires n <= |bools|
    ensures |r| == n
    ensures forall k :: 0 <= k < n ==> r[k] == WithBool2(c, bools, k + 1)
  {
    seq(n, k requires 0 <= k < n => WithBool2(c, bools, k + 1))
  }

  lemma DeliverPushed(done: seq<Candidate>, stack: seq<Candidate>, c: Candidate, bools: seq<Expression>, paramBound: nat)
    ensures Deliver(done, stack + [c], bools, paramBound) ==
            Deliver(done + Instances(c, bools, paramBound), stack, bools, paramBound)
  {
    assert (stack + [c])[..|stack|] == stack;
  }

  /** Pushing a candidate for every Boolean expression delivers all its instances, in reverse. */
  lemma {:induction false} DeliverBranches(
    done: seq<Candidate>, stack: seq<Candidate>, c: Candidate, bools: seq<Expression>, n: nat, paramBound: nat)
    requires n <= |bools|
    requires forall i :: 0 < i <= |bools| ==> !HasNodeOfKind(WithBool2(c, bools, i).expr, BOOL2)
    ensures Deliver(done, stack + Pushed(c, bools, n), bools, paramBound) ==
            Deliver(done + Bool2Instances(c, bools, n, paramBound), stack, bools, paramBound)
    decreases n
  {
    if n == 0 {
      assert stack + Pushed(c, bools, 0) == stack && done + [] == done;
    } else {
      DeliverOneBranch(done, stack, c, bools, n, paramBound);
      var first := WithParameter(WithBool2(c, bools, n), paramBound);
      DeliverBranches(done + first, stack, c, bools, n - 1, paramBound);
      var others := Bool2Instances(c, bools, n - 1, paramBound);
      assert (done + first) + others == done + (first + others);
      assert first + others == Bool2Instances(c, bools, n, paramBound);
    }
  }

  lemma DeliverOneBranch(
    done: seq<Candidate>, stack: seq<Candidate>, c: Candidate, bools: seq<Expression>, n: nat, paramBound: nat)
    requires 0 < n <= |bools| && !HasNodeOfKind(WithBool2(c, bools, n).expr, BOOL2)
    ensures Deliver(done, stack + Pushed(c, bools, n), bools, paramBound) ==
            Deliver(done + WithParameter(WithBool2(c, bools, n), paramBound), stack + Pushed(c, bools, n - 1), bools, paramBound)
  {
    var last := WithBool2(c, bools, n);
    assert stack + Pushed(c, bools, n) == (stack + Pushed(c, bools, n - 1)) + [last];
    DeliverPushed(done, stack + Pushed(c, bools, n - 1), last, bools, paramBound);
  }

  /** How many more rounds the worklist can take. */
  ghost function Work(stack: seq<Candidate>, choices: nat): nat {
    if stack == [] then 0 else
      (if HasNodeOfKind(stack[|stack| - 1].expr, BOOL2) then choices + 1 else 1) + Work(stack[..|stack| - 1], choices)
  }

  lemma {:induction false} PushedWork(stack: seq<Candidate>, c: Candidate, bools: seq<Expression>, n: nat)
    requires n <= |bools|
    requires forall i :: 0 < i <= |bools| ==> !HasNodeOfKind(WithBool2(c, bools, i).expr, BOOL2)
    ensures Work(stack + Pushed(c, bools, n), |bools|) == n + Work(stack, |bools|)
  {
    var all := stack + Pushed(c, bools, n);
    if n == 0 {
      assert all == stack;
    } else {
      PushedWork(stack, c, bools, n - 1);
      assert all[..|all| - 1] == stack + Pushed(c, bools, n - 1);
      assert all[|all| - 1] == WithBool2(c, bools, n);
    }
  }

  /** Filling the Boolean hole of `c`, whichever expression is used, leaves none. */
  ghost predicate Bool2Fillable(c: Candidate, bools: seq<Expression>) {
    HasNodeOfKind(c.expr, BOOL2) ==>
      forall i :: 0 < i <= |bools| ==> !HasNodeOfKind(WithBool2(c, bools, i).expr, BOOL2)
  }

  ghost predicate AllFillable(stack: seq<Candidate>, bools: seq<Expression>) {
    forall k :: 0 <= k < |stack| ==> Bool2Fillable(stack[k], bools)
  }

  lemma TopFillable(rest: seq<Candidate>, top: Candidate, bools: seq<Expression>)
    ensures AllFillable(rest + [top], bools) <==> AllFillable(rest, bools) && Bool2Fillable(top, bools)
  {
    if AllFillable(rest + [top], bools) {
      assert (rest + [top])[|rest|] == top;
      forall k | 0 <= k < |rest| ensures Bool2Fillable(rest[k], bools) { assert (rest + [top])[k] == rest[k]; }
    }
  }

  method PushBool2(rest: seq<Candidate>, current: Candidate, bools: seq<Expression>) returns (stack: seq<Candidate>)
    ensures stack == rest + Pushed(current, bools, |bools|)
  {
    stack := rest;
    var i := 0;
    while i < |bools|
      invariant i <= |bools| && stack == rest + Pushed(current, bools, i)
    {
      var _, filled := SubstituteNodeOfKind(current.expr, BOOL2, bools[i]);
      stack := stack + [Candidate(current.id.(bool2 := i + 1), filled)];
      assert Pushed(current, bools, i + 1) == Pushed(current, bools, i) + [WithBool2(current, bools, i + 1)];
      i := i + 1;
    }
  }

  method FillParameter(current: Candidate, paramBound: nat) returns (instances: seq<Candidate>)
    ensures instances == ParameterInstances(current, paramBound + 1)
  {
    instances := [];
    var i := 0;
    while i <= paramBound
      invariant i <= paramBound + 1 && instances == ParameterInstances(current, i)
    {
      var _, filled := SubstituteNodeOfKind(current.expr, PARAMETER, MakeIntegerConst(i));
      instances := instances + [Candidate(current.id.(param := i), filled)];
      i := i + 1;
    }
  }

  lemma BranchStep(
    done: seq<Candidate>, rest: seq<Candidate>, c: Candidate, bools: seq<Expression>, paramBound: nat)
    requires HasNodeOfKind(c.expr, BOOL2) && Bool2Fillable(c, bools)
    ensures var stack := rest + Pushed(c, bools, |bools|);
            && Deliver(done, stack, bools, paramBound) == Deliver(done, rest + [c], bools, paramBound)
            && Work(stack, |bools|) < Work(rest + [c], |bools|)
            && (AllFillable(rest, bools) ==> AllFillable(stack, bools))
  {
    DeliverBranches(done, rest, c, bools, |bools|, paramBound);
    DeliverPushed(done, rest, c, bools, paramBound);
    PushedWork(rest, c, bools, |bools|);
    assert (rest + [c])[..|rest|] == rest;
  }

  lemma LastStep(
    done: seq<Candidate>, rest: seq<Candidate>, c: Candidate, bools: seq<Expression>, paramBound: nat)
    requires !HasNodeOfKind(c.expr, BOOL2)
    ensures AllFillable(rest + [c], bools) ==> AllFillable(rest, bools)
    ensures Deliver(done + Instances(c, bools, paramBound), rest, bools, paramBound) == Deliver(done, rest + [c], bools, paramBound)
    ensures Work(rest, |bools|) < Work(rest + [c], |bools|)
  {
    DeliverPushed(done, rest, c, bools, paramBound);
    TopFillable(rest, c, bools);
    assert (rest + [c])[..|rest|] == rest;
  }

  /** One round on a candidate without Boolean hole. */
  method FillLast(current: Candidate, ghost bools: seq<Expression>, paramBound: nat) returns (filled: seq<Candidate>)
    requires !HasNodeOfKind(current.expr, BOOL2)
    ensures filled == Instances(current, bools, paramBound)
  {
    if HasNodeOfKind(current.expr, PARAMETER) {
      filled := FillParameter(current, paramBound);
    } else {
      filled := [current];
    }
  }

  lemma AtStart(start: Candidate, bools: seq<Expression>, paramBound: nat)
    requires Bool2Fillable(start, bools)
    ensures Deliver([], [start], bools, paramBound) == Instances(start, bools, paramBound) && AllFillable([start], bools)
  {
    DeliverPushed([], [], start, bools, paramBound);
    assert [] + [start] == [start] && [] + Instances(start, bools, paramBound) == Instances(start, bools, paramBound);
  }

  lemma NothingLeft(done: seq<Candidate>, bools: seq<Expression>, paramBound: nat)
    ensures Deliver(done, [], bools, paramBound) == done
  {
  }

  method FillHoles(start: Candidate, bools: seq<Expression>, paramBound: nat) returns (instances: seq<Candidate>)
    requires Bool2Fillable(start, bools)
    ensures instances == Instances(start, bools, paramBound)
  {
    instances := [];
    var stack := [start];
    hide *;
    AtStart(start, bools, paramBound);
    ghost var goal := Instances(start, bools, paramBound);
    while stack != []
      invariant Deliver(instances, stack, bools, paramBound) == goal
      invariant AllFillable(stack, bools)
      decreases Work(stack, |bools|)
    {
      var current := stack[|stack| - 1];
      var rest := stack[..|stack| - 1];
      assert rest + [current] == stack;
      TopFillable(rest, current, bools);
      if HasNodeOfKind(current.expr, BOOL2) {
        BranchStep(instances, rest, current, bools, paramBound);
        stack := PushBool2(rest, current, bools);
      } else {
        LastStep(instances, rest, current, bools, paramBound);
        stack := rest;
        var filled := FillLast(current, bools, paramBound);
        instances := instances + filled;
      }
    }
    NothingLeft(instances, bools, paramBound);
  }
}
