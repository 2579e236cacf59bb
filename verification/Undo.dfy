/**
  The nested undo of a permission visitor (unittests/misc_tests.cpp): it saves only
  the length of its list at every level, and must act like a stack of full copies.
*/
module Undo {
  import opened Lists

  datatype Op<T> = Visit(item: T) | Repeat(again: T) | Push | Pop | Squash

  // ----- lengths only -----

  datatype Sized<T> = Sized(items: seq<T>, sizes: seq<nat>)

  /** One call; pop and squash need a level, and pop checks that the list has not become shorter. */
  function Step<T>(s: Sized<T>, op: Op<T>): Option<Sized<T>> {
    match op
    case Visit(x) => Some(Sized(s.items + [x], s.sizes))
    case Repeat(_) => Some(s)
    case Push => Some(Sized(s.items, s.sizes + [|s.items|]))
    case Pop =>
      if s.sizes == [] || s.sizes[|s.sizes| - 1] > |s.items| then None
      else Some(Sized(s.items[..s.sizes[|s.sizes| - 1]], s.sizes[..|s.sizes| - 1]))
    case Squash =>
      if s.sizes == [] then None else Some(Sized(s.items, s.sizes[..|s.sizes| - 1]))
  }

  function Run<T>(s: Sized<T>, ops: seq<Op<T>>): Option<Sized<T>>
    decreases |ops|
  {
    if ops == [] then Some(s)
    else
      match Step(s, ops[0])
      case None => None
      case Some(next) => Run(next, ops[1..])
  }

  // ----- full copies -----

  datatype Copies<T> = Copies(current: seq<T>, saved: seq<seq<T>>)

  function CopyStep<T>(s: Copies<T>, op: Op<T>): Option<Copies<T>> {
    match op
    case Visit(x) => Some(Copies(s.current + [x], s.saved))
    case Repeat(_) => Some(s)
    case Push => Some(Copies(s.current, s.saved + [s.current]))
    case Pop => if s.saved == [] then None else Some(Copies(s.saved[|s.saved| - 1], s.saved[..|s.saved| - 1]))
    case Squash => if s.saved == [] then None else Some(Copies(s.current, s.saved[..|s.saved| - 1]))
  }

  function CopyRun<T>(s: Copies<T>, ops: seq<Op<T>>): Option<Copies<T>>
    decreases |ops|
  {
    if ops == [] then Some(s)
    else
      match CopyStep(s, ops[0])
      case None => None
      case Some(next) => CopyRun(next, ops[1..])
  }

  // ----- the one refines the other -----

  /** The saved lengths do not decrease and fit the list. */
  ghost predicate Nested(sizes: seq<nat>, top: nat) {
    && (forall i, j :: 0 <= i < j < |sizes| ==> sizes[i] <= sizes[j])
    && (forall i :: 0 <= i < |sizes| ==> sizes[i] <= top)
  }

  /** Every copy is the part of the list that its length stands for. */
  ghost predicate Stands<T>(s: Sized<T>, c: Copies<T>) {
    && s.items == c.current && |s.sizes| == |c.saved| && Nested(s.sizes, |s.items|)
    && forall i :: 0 <= i < |s.sizes| ==> c.saved[i] == s.items[..s.sizes[i]]
  }

  lemma StepStands<T>(s: Sized<T>, c: Copies<T>, op: Op<T>)
    requires Stands(s, c)
    ensures Step(s, op).Some? <==> CopyStep(c, op).Some?
    ensures Step(s, op).Some? ==> Stands(Step(s, op).value, CopyStep(c, op).value)
  {
    if op.Visit? {
      forall i | 0 <= i < |s.sizes| ensures (s.items + [op.item])[..s.sizes[i]] == s.items[..s.sizes[i]] {
      }
    } else if op.Push? {
      assert s.items[..|s.items|] == s.items;
    } else if op.Pop? && s.sizes != [] {
      var top := s.sizes[|s.sizes| - 1];
      forall i | 0 <= i < |s.sizes| - 1 ensures s.items[..top][..s.sizes[i]] == s.items[..s.sizes[i]] {
      }
    }
  }

  /** Every run with lengths only is a run with full copies: they stop together, and at every point the lengths
      stand for the copies. */
  lemma {:induction false} RunStands<T>(s: Sized<T>, c: Copies<T>, ops: seq<Op<T>>)
    requires Stands(s, c)
    ensures Run(s, ops).Some? <==> CopyRun(c, ops).Some?
    ensures Run(s, ops).Some? ==> Stands(Run(s, ops).value, CopyRun(c, ops).value)
    decreases |ops|
  {
    hide Stands, Step, CopyStep;
    if ops != [] {
      StepStands(s, c, ops[0]);
      if Step(s, ops[0]).Some? {
        RunStands(Step(s, ops[0]).value, CopyStep(c, ops[0]).value, ops[1..]);
      }
    }
  }

  // ----- matching pushes -----

  /** The number of levels open after a run that starts with `depth` of them and never closes more. */
  function Levels<T>(ops: seq<Op<T>>, depth: nat): Option<nat> {
    if ops == [] then Some(depth)
    else
      match ops[0]
      case Push => Levels(ops[1..], depth + 1)
      case Pop => if depth == 0 then None else Levels(ops[1..], depth - 1)
      case Squash => if depth == 0 then None else Levels(ops[1..], depth - 1)
      case _ => Levels(ops[1..], depth)
  }

  /** From a state in order a run goes through exactly when it never closes more levels than are open. */
  lemma {:induction false} RunsExactly<T>(s: Sized<T>, ops: seq<Op<T>>)
    requires Nested(s.sizes, |s.items|)
    ensures Run(s, ops).Some? <==> Levels(ops, |s.sizes|).Some?
    ensures Run(s, ops).Some? ==> |Run(s, ops).value.sizes| == Levels(ops, |s.sizes|).value
    ensures Run(s, ops).Some? ==> var r := Run(s, ops).value; Nested(r.sizes, |r.items|)
    decreases |ops|
  {
    hide Step, Nested;
    if ops != [] {
      StepExactly(s, ops[0]);
      if Step(s, ops[0]).Some? {
        RunsExactly(Step(s, ops[0]).value, ops[1..]);
      }
    }
  }

  lemma StepExactly<T>(s: Sized<T>, op: Op<T>)
    requires Nested(s.sizes, |s.items|)
    ensures Step(s, op).Some? <==> (op.Pop? || op.Squash? ==> s.sizes != [])
    ensures Step(s, op).Some? ==>
              var r := Step(s, op).value;
              && Nested(r.sizes, |r.items|)
              && |r.sizes| == |s.sizes| + if op.Push? then 1 else if op.Pop? || op.Squash? then -1 else 0
  {
  }

  /** The levels below those that a run opens do not matter to it, and it keeps the list they cover. */
  lemma {:induction false} RunFramed<T>(base: seq<nat>, covered: seq<T>, s: Sized<T>, ops: seq<Op<T>>)
    requires Nested(s.sizes, |s.items|) && Levels(ops, |s.sizes|).Some? && covered <= s.items
    requires forall i :: 0 <= i < |s.sizes| ==> |covered| <= s.sizes[i]
    ensures Run(s, ops).Some? && covered <= Run(s, ops).value.items
    ensures var r := Run(s, ops).value;
            Run(Sized(s.items, base + s.sizes), ops) == Some(Sized(r.items, base + r.sizes))
    decreases |ops|
  {
    if ops != [] {
      StepFramed(base, covered, s, ops[0]);
      RunFramed(base, covered, Step(s, ops[0]).value, ops[1..]);
    }
  }

  lemma StepFramed<T>(base: seq<nat>, covered: seq<T>, s: Sized<T>, op: Op<T>)
    requires Nested(s.sizes, |s.items|) && (op.Pop? || op.Squash? ==> s.sizes != []) && covered <= s.items
    requires forall i :: 0 <= i < |s.sizes| ==> |covered| <= s.sizes[i]
    ensures Step(s, op).Some?
    ensures var r := Step(s, op).value;
            && Nested(r.sizes, |r.items|) && covered <= r.items
            && (forall i :: 0 <= i < |r.sizes| ==> |covered| <= r.sizes[i])
            && Step(Sized(s.items, base + s.sizes), op) == Some(Sized(r.items, base + r.sizes))
  {
    var all := base + s.sizes;
    match op
    case Visit(_) =>
    case Repeat(_) =>
    case Push =>
      assert base + (s.sizes + [|s.items|]) == all + [|s.items|];
    case Pop =>
      LastFramed(base, s.sizes);
      TopCovers(covered, s.items, s.sizes[|s.sizes| - 1]);
    case Squash =>
      LastFramed(base, s.sizes);
  }

  lemma LastFramed(base: seq<nat>, sizes: seq<nat>)
    requires sizes != []
    ensures var all := base + sizes;
            all[|all| - 1] == sizes[|sizes| - 1] && all[..|all| - 1] == base + sizes[..|sizes| - 1]
  {
  }

  lemma TopCovers<T>(covered: seq<T>, items: seq<T>, top: nat)
    requires covered <= items && |covered| <= top <= |items|
    ensures covered <= items[..top]
  {
  }

  lemma {:induction false} RunConcat<T>(s: Sized<T>, a: seq<Op<T>>, b: seq<Op<T>>)
    ensures Run(s, a + b) == match Run(s, a) case None => None case Some(r) => Run(r, b)
    decreases |a|
  {
    if a == [] {
      assert a + b == b;
    } else {
      assert (a + b)[1..] == a[1..] + b;
      if Step(s, a[0]).Some? {
        RunConcat(Step(s, a[0]).value, a[1..], b);
      }
    }
  }

  /** The permissions that a run visits for the first time, in order. */
  function Visited<T>(ops: seq<Op<T>>): seq<T> {
    if ops == [] then [] else (if ops[0].Visit? then [ops[0].item] else []) + Visited(ops[1..])
  }

  /** As long as nothing is undone, the list is what it was followed by the permissions visited since, in order. */
  lemma {:induction false} VisitsKept<T>(s: Sized<T>, ops: seq<Op<T>>)
    requires forall i :: 0 <= i < |ops| ==> !ops[i].Pop?
    requires Run(s, ops).Some?
    ensures Run(s, ops).value.items == s.items + Visited(ops)
    decreases |ops|
  {
    if ops == [] {
      assert s.items + [] == s.items;
    } else {
      VisitsKept(Step(s, ops[0]).value, ops[1..]);
      JoinAll(s.items, if ops[0].Visit? then [ops[0].item] else [], Visited(ops[1..]));
      assert s.items + [] == s.items;
    }
  }

  /** A pop undoes exactly the work since the matching push, whatever levels were opened and closed between. */
  lemma PopRestores<T>(s: Sized<T>, work: seq<Op<T>>)
    requires Levels(work, 0) == Some(0)
    ensures Run(s, [Push] + work + [Pop]) == Some(s)
  {
    Bracketed(s, work);
    var r := Run(Sized(s.items, []), work).value;
    CloseLevel(s, work, r, Pop);
    assert r.items[..|s.items|] == s.items;
  }

  /** A squash keeps the work for the enclosing level, as if there had been no push. */
  lemma SquashKeeps<T>(s: Sized<T>, work: seq<Op<T>>)
    requires Levels(work, 0) == Some(0)
    ensures Run(s, [Push] + work + [Squash]) == Run(s, work)
  {
    Bracketed(s, work);
    var r := Run(Sized(s.items, []), work).value;
    CloseLevel(s, work, r, Squash);
    RunFramed(s.sizes, s.items, Sized(s.items, []), work);
    assert s.sizes + [] == s.sizes;
  }

  /** The work between a push and its match, seen from the level it opens. */
  lemma Bracketed<T>(s: Sized<T>, work: seq<Op<T>>)
    requires Levels(work, 0) == Some(0)
    ensures Run(Sized(s.items, []), work).Some?
    ensures var r := Run(Sized(s.items, []), work).value;
            && s.items <= r.items && r.sizes == []
            && Run(Sized(s.items, s.sizes + [|s.items|]), work) == Some(Sized(r.items, s.sizes + [|s.items|]))
  {
    var inner := Sized(s.items, []);
    RunFramed(s.sizes + [|s.items|], s.items, inner, work);
    RunsExactly(inner, work);
    assert s.sizes + [|s.items|] + [] == s.sizes + [|s.items|];
  }

  lemma CloseLevel<T>(s: Sized<T>, work: seq<Op<T>>, r: Sized<T>, op: Op<T>)
    requires op.Pop? || op.Squash?
    requires Run(Sized(s.items, s.sizes + [|s.items|]), work) == Some(Sized(r.items, s.sizes + [|s.items|]))
    requires s.items <= r.items
    ensures Run(s, [Push] + work + [op]) ==
            Some(Sized(if op.Pop? then r.items[..|s.items|] else r.items, s.sizes))
  {
    var worked := Sized(r.items, s.sizes + [|s.items|]);
    RunConcat(s, [Push] + work, [op]);
    RunConcat(s, [Push], work);
    RunOne(s, Push);
    RunOne(worked, op);
    assert (s.sizes + [|s.items|])[..|s.sizes|] == s.sizes;
  }

  lemma RunOne<T>(s: Sized<T>, op: Op<T>)
    ensures Run(s, [op]) == Step(s, op)
  {
    assert [op][1..] == [];
  }

  /** The visitor itself. */
  class PermissionVisitor<T> {
    var permissions: seq<T>
    var sizeStack: seq<nat>

    ghost function State(): Sized<T>
      reads this
    {
      Sized(permissions, sizeStack)
    }

    constructor ()
      ensures State() == Sized([], [])
    {
      permissions, sizeStack := [], [];
    }

    method Call(permission: T)
      modifies this
      ensures Step(old(State()), Visit(permission)) == Some(State())
    {
      permissions := permissions + [permission];
    }

    method PushUndo()
      modifies this
      ensures Step(old(State()), Push) == Some(State())
    {
      sizeStack := sizeStack + [|permissions|];
    }

    /** The source reads the last saved size before it checks that there is one. */
    method PopUndo() returns (ok: bool)
      requires sizeStack != []
      modifies this
      ensures ok ==> Step(old(State()), Pop) == Some(State())
      ensures !ok ==> Step(old(State()), Pop) == None && State() == old(State())
    {
      ok := sizeStack[|sizeStack| - 1] <= |permissions|;
      if ok {
        permissions := permissions[..sizeStack[|sizeStack| - 1]];
        sizeStack := sizeStack[..|sizeStack| - 1];
      }
    }

    method SquashUndo() returns (ok: bool)
      modifies this
      ensures ok ==> Step(old(State()), Squash) == Some(State())
      ensures !ok ==> Step(old(State()), Squash) == None && State() == old(State())
    {
      ok := sizeStack != [];
      if ok {
        sizeStack := sizeStack[..|sizeStack| - 1];
      }
    }
  }
}
