/**
  The two-cursor comparison of a class's fields with its reflected fields
  (the loop of `validate_file` in tools/validate_reflection.py).

  `Run` is the loop as a function of its variables; `Matches` and `CursorsMeet`
  say, without any cursor, what the loop decides.
*/
module Reconcile {
  import opened Lists

  type Field = string

  /** One value per assertion of the loop and of the checks after it. */
  datatype Reason =
    | SwapNotReflected    // a swapped class field is not reflected at all
    | SwapInOrder         // a swapped field is where it belongs anyway
    | SwapUnknown         // a swapped reflected field is not a reflected field
    | IgnoredButReflected // an ignored field shows up in the reflection later
    | IgnoreInOrder       // an ignored field is reflected where it belongs
    | Mismatch            // two plain fields differ
    | ErroneousIgnores    // ignores that name no class field
    | UnknownFields       // reflected fields that are not class fields
    | ErroneousSwaps      // swaps that were never used
    | SwapNeverProvided   // swapped class fields that were never reflected
    | SwapNotInClass      // swapped reflected fields that are not class fields

  datatype Outcome = Accepted | Rejected(reason: Reason)

  /**
    The loop's variables: both cursors, the swaps and ignores still to be
    consumed, swapped fields seen on one side only, and ignores consumed so far.
   */
  datatype Cursor = Cursor(f: nat, rf: nat, swapped: seq<Field>, ignored: seq<Field>,
                           back: seq<Field>, fwd: seq<Field>, done: seq<Field>)

  datatype Next = Halt(reason: Reason) | Go(c: Cursor)

  function Start(ignored: seq<Field>, swapped: seq<Field>): Cursor {
    Cursor(0, 0, swapped, ignored, [], [], [])
  }

  /** One iteration of the main loop: it advances a cursor, and neither leaves its list. */
  function Step(F: seq<Field>, R: seq<Field>, c: Cursor): (r: Next)
    requires c.f < |F| && c.rf <= |R|
    ensures r.Go? ==> c.f <= r.c.f <= |F| && c.rf <= r.c.rf <= |R| && c.f + c.rf < r.c.f + r.c.rf
  {
    var field := F[c.f];
    var reflected := if c.rf < |R| then Some(R[c.rf]) else None;
    if field in c.swapped then
      if field !in R then Halt(SwapNotReflected)
      else if reflected == Some(field) then Halt(SwapInOrder)
      else Go(c.(f := c.f + 1, swapped := RemoveFirst(c.swapped, field), back := c.back + [field]))
    else if reflected.Some? && reflected.value in c.swapped then
      if reflected.value !in R then Halt(SwapUnknown)
      else Go(c.(rf := c.rf + 1, swapped := RemoveFirst(c.swapped, reflected.value),
                 fwd := c.fwd + [reflected.value]))
    else if reflected.Some? && reflected.value in c.done then Halt(IgnoredButReflected)
    else if field in c.ignored then
      if reflected == Some(field) then Halt(IgnoreInOrder)
      else Go(c.(f := c.f + 1, ignored := RemoveFirst(c.ignored, field), done := c.done + [field]))
    else if reflected.Some? && reflected.value in c.back then
      Go(c.(rf := c.rf + 1, back := RemoveFirst(c.back, reflected.value)))
    else if field in c.fwd then
      Go(c.(f := c.f + 1, fwd := RemoveFirst(c.fwd, field)))
    else if reflected == Some(field) then
      Go(c.(f := c.f + 1, rf := c.rf + 1))
    else Halt(Mismatch)
  }

  /** The trailing loop: reflected fields left over must all be parked in `back`. */
  function Drain(rest: seq<Field>, back: seq<Field>): (seq<Field>, seq<Field>) {
    if rest == [] then ([], back)
    else if rest[0] in back then Drain(rest[1..], RemoveFirst(back, rest[0]))
    else
      var (unused, left) := Drain(rest[1..], back);
      ([rest[0]] + unused, left)
  }

  /** The checks after the main loop, in their order. */
  function Finish(R: seq<Field>, c: Cursor): Outcome
    requires c.rf <= |R|
  {
    var (unused, back) := Drain(R[c.rf..], c.back);
    if c.ignored != [] then Rejected(ErroneousIgnores)
    else if unused != [] then Rejected(UnknownFields)
    else if c.swapped != [] then Rejected(ErroneousSwaps)
    else if back != [] then Rejected(SwapNeverProvided)
    else if c.fwd != [] then Rejected(SwapNotInClass)
    else Accepted
  }

  function Run(F: seq<Field>, R: seq<Field>, c: Cursor): Outcome
    requires c.f <= |F| && c.rf <= |R|
    decreases |F| - c.f + |R| - c.rf
  {
    if c.f == |F| then Finish(R, c)
    else
      match Step(F, R, c)
      case Halt(reason) => Rejected(reason)
      case Go(next) => Run(F, R, next)
  }

  // ----- what the loop decides -----

  /**
    What the list builders guarantee about one reflected class: no list repeats
    a field, and a field that is both ignored and swapped is not reflected.
   */
  ghost predicate Listed(R: seq<Field>, I: seq<Field>, S: seq<Field>) {
    Distinct(R) && Distinct(I) && Distinct(S) && forall x :: x in I && x in S ==> x !in R
  }

  /**
    The reflection covers the class: every class field is reflected or ignored
    and not both, only class fields are reflected, and once the swapped fields
    are set aside the rest is in class order.
   */
  ghost predicate Matches(F: seq<Field>, R: seq<Field>, I: seq<Field>, S: seq<Field>) {
    && Distinct(F)
    && (forall x :: x in I ==> x in F)
    && (forall x :: x in S ==> x in F && x in R)
    && (forall x :: x in R <==> x in F && x !in I)
    && Except(R, S) == Except(F, S + I)
  }

  /** Position `b` of the class follows the plain field reflected just before `q` (or both start). */
  ghost predicate Aligned(F: seq<Field>, R: seq<Field>, S: seq<Field>, b: nat, q: nat)
    requires b <= |F| && q <= |R|
  {
    if q == 0 then b == 0 else b > 0 && R[q - 1] !in S && F[b - 1] == R[q - 1]
  }

  ghost predicate MeetAt(F: seq<Field>, R: seq<Field>, S: seq<Field>, b: nat, p: nat, q: nat) {
    && b <= p < |F| && q < |R| && F[p] == R[q]
    && Aligned(F, R, S, b, q)
    && forall k :: b <= k <= p ==> F[k] in S && F[k] !in R[..q]
  }

  /**
    Some swapped field is the next one reflected after a plain field (or at the
    start) and follows that plain field in the class too, with only swapped
    fields not reflected yet in between: its swap changed nothing.
   */
  ghost predicate CursorsMeet(F: seq<Field>, R: seq<Field>, S: seq<Field>) {
    exists b: nat, p: nat, q: nat :: MeetAt(F, R, S, b, p, q)
  }

  // ----- the loop invariant -----

  /** Where every field is, as a function of the two consumed prefixes `fp` and `rp`. */
  ghost predicate Parked(fp: seq<Field>, rp: seq<Field>, I: seq<Field>, S: seq<Field>, c: Cursor) {
    && Distinct(c.swapped) && Distinct(c.ignored) && Distinct(c.back) && Distinct(c.fwd)
    && (forall x :: x in c.swapped <==> x in S && x !in fp && x !in rp)
    && (forall x :: x in c.back <==> x in S && x in fp && x !in rp)
    && (forall x :: x in c.fwd <==> x in S && x in rp && x !in fp)
    && (forall x :: x in c.ignored <==> x in I && x !in fp)
    && (forall x :: x in c.done <==> x in I && x in fp)
  }

  /** What the consumed prefixes have in common so far. */
  ghost predicate Agree(fp: seq<Field>, rp: seq<Field>, R: seq<Field>, I: seq<Field>, S: seq<Field>) {
    && Distinct(fp)
    && (forall x :: x in rp ==> x !in I)
    && (forall x :: x in S && x in fp ==> x in R)
    && Except(rp, S) == Except(fp, S + I)
  }

  ghost predicate Inv(F: seq<Field>, R: seq<Field>, I: seq<Field>, S: seq<Field>, c: Cursor) {
    && c.f <= |F| && c.rf <= |R|
    && Parked(F[..c.f], R[..c.rf], I, S, c)
    && Agree(F[..c.f], R[..c.rf], R, I, S)
  }

  /** A plain field in one consumed prefix is in the other. */
  lemma PlainShared(fp: seq<Field>, rp: seq<Field>, R: seq<Field>, I: seq<Field>, S: seq<Field>, x: Field)
    requires Agree(fp, rp, R, I, S) && x !in S && x !in I
    ensures x in fp <==> x in rp
  {
    ExceptMembers(rp, S);
    ExceptMembers(fp, S + I);
    assert x in Except(rp, S) <==> x in rp;
    assert x in Except(fp, S + I) <==> x in fp;
  }

  /** Any class field the loop consumes is new: a class that repeats a field never gets past it. */
  lemma ConsumedIsNew(F: seq<Field>, R: seq<Field>, I: seq<Field>, S: seq<Field>, c: Cursor)
    requires Listed(R, I, S) && Inv(F, R, I, S, c) && c.f < |F|
    requires Step(F, R, c).Go? && Step(F, R, c).c.f == c.f + 1
    ensures F[c.f] !in F[..c.f]
  {
    var x, fp, rp := F[c.f], F[..c.f], R[..c.rf];
    if x in fp {
      // nothing pending names x, so the last branch was taken: x is reflected here
      assert x !in c.swapped && x !in c.ignored && x !in c.fwd;
      assert c.rf < |R| && R[c.rf] == x;
      DistinctParts(R, c.rf);
      assert x !in c.done && x !in c.back;
      PlainShared(fp, rp, R, I, S, x);
      assert false;
    }
  }

  lemma StepKeepsParked(F: seq<Field>, R: seq<Field>, I: seq<Field>, S: seq<Field>, c: Cursor)
    requires Listed(R, I, S) && Inv(F, R, I, S, c) && c.f < |F| && Step(F, R, c).Go?
    ensures var n := Step(F, R, c).c;
            n.f <= |F| && n.rf <= |R| && Parked(F[..n.f], R[..n.rf], I, S, n)
  {
    hide Step, Agree, Distinct, Inv;
    StepKeepsDistinct(F, R, I, S, c);
    StepBounds(F, R, I, S, c);
    var n := Step(F, R, c).c;
    forall x ensures ParkedAt(F[..n.f], R[..n.rf], I, S, n, x) {
      StepParks(F, R, I, S, c, x);
    }
    ParkedEverywhere(F[..n.f], R[..n.rf], I, S, n);
  }

  /** Where one field is. */
  ghost predicate ParkedAt(fp: seq<Field>, rp: seq<Field>, I: seq<Field>, S: seq<Field>, c: Cursor, x: Field) {
    && (x in c.swapped <==> x in S && x !in fp && x !in rp)
    && (x in c.back <==> x in S && x in fp && x !in rp)
    && (x in c.fwd <==> x in S && x in rp && x !in fp)
    && (x in c.ignored <==> x in I && x !in fp)
    && (x in c.done <==> x in I && x in fp)
  }

  lemma ParkedEverywhere(fp: seq<Field>, rp: seq<Field>, I: seq<Field>, S: seq<Field>, c: Cursor)
    requires Distinct(c.swapped) && Distinct(c.ignored) && Distinct(c.back) && Distinct(c.fwd)
    requires forall x :: ParkedAt(fp, rp, I, S, c, x)
    ensures Parked(fp, rp, I, S, c)
  {
    hide Distinct;
    forall x
      ensures x in c.swapped <==> x in S && x !in fp && x !in rp
      ensures x in c.back <==> x in S && x in fp && x !in rp
      ensures x in c.fwd <==> x in S && x in rp && x !in fp
      ensures x in c.ignored <==> x in I && x !in fp
      ensures x in c.done <==> x in I && x in fp
    {
      assert ParkedAt(fp, rp, I, S, c, x);
    }
  }

  lemma StepBounds(F: seq<Field>, R: seq<Field>, I: seq<Field>, S: seq<Field>, c: Cursor)
    requires Inv(F, R, I, S, c) && c.f < |F| && Step(F, R, c).Go?
    ensures Step(F, R, c).c.f <= |F| && Step(F, R, c).c.rf <= |R|
  {
    hide Step, Agree, Parked;
  }

  lemma StepParks(F: seq<Field>, R: seq<Field>, I: seq<Field>, S: seq<Field>, c: Cursor, x: Field)
    requires Listed(R, I, S) && Inv(F, R, I, S, c) && c.f < |F| && Step(F, R, c).Go?
    ensures var n := Step(F, R, c).c; n.f <= |F| && n.rf <= |R| && ParkedAt(F[..n.f], R[..n.rf], I, S, n, x)
  {
    hide Agree, RemoveFirst, Distinct;
    var n := Step(F, R, c).c;
    if n.f == c.f + 1 {
      ConsumedIsNew(F, R, I, S, c);
      MoreOf(F, c.f);
    }
    if n.rf == c.rf + 1 {
      DistinctParts(R, c.rf);
      MoreOf(R, c.rf);
      RemoveFirstMembers(c.swapped, R[c.rf]);
      RemoveFirstMembers(c.back, R[c.rf]);
    }
    RemoveFirstMembers(c.swapped, F[c.f]);
    RemoveFirstMembers(c.ignored, F[c.f]);
    RemoveFirstMembers(c.fwd, F[c.f]);
  }

  lemma MoreOf(s: seq<Field>, k: nat)
    requires k < |s|
    ensures forall x :: x in s[..k + 1] <==> x in s[..k] || x == s[k]
  {
    assert s[..k + 1] == s[..k] + [s[k]];
  }

  /** No list that the loop keeps ever holds a field twice. */
  lemma StepKeepsDistinct(F: seq<Field>, R: seq<Field>, I: seq<Field>, S: seq<Field>, c: Cursor)
    requires Listed(R, I, S) && Inv(F, R, I, S, c) && c.f < |F| && Step(F, R, c).Go?
    ensures var n := Step(F, R, c).c;
            Distinct(n.swapped) && Distinct(n.ignored) && Distinct(n.back) && Distinct(n.fwd)
  {
    hide Agree, RemoveFirst, Distinct;
    var x := F[c.f];
    DistinctWithout(c.swapped, x);
    DistinctWithout(c.ignored, x);
    DistinctWithout(c.fwd, x);
    if c.rf < |R| {
      DistinctWithout(c.swapped, R[c.rf]);
      DistinctWithout(c.back, R[c.rf]);
      if R[c.rf] in c.swapped {
        DistinctSnoc(c.fwd, R[c.rf]);
      }
    }
    if x in c.swapped {
      DistinctSnoc(c.back, x);
    }
  }

  lemma DistinctWithout(s: seq<Field>, x: Field)
    requires Distinct(s)
    ensures Distinct(RemoveFirst(s, x))
  {
    hide RemoveFirst, Distinct;
    RemoveFirstMembers(s, x);
  }

  lemma StepKeepsAgree(F: seq<Field>, R: seq<Field>, I: seq<Field>, S: seq<Field>, c: Cursor)
    requires Listed(R, I, S) && Inv(F, R, I, S, c) && c.f < |F| && Step(F, R, c).Go?
    ensures var n := Step(F, R, c).c;
            n.f <= |F| && n.rf <= |R| && Agree(F[..n.f], R[..n.rf], R, I, S)
  {
    hide RemoveFirst, Except;
    var n := Step(F, R, c).c;
    var x := F[c.f];
    if n.f == c.f + 1 {
      ConsumedIsNew(F, R, I, S, c);
      assert F[..n.f] == F[..c.f] + [x];
      DistinctSnoc(F[..c.f], x);
      ExceptSnoc(F[..c.f], x, S + I);
    }
    if n.rf == c.rf + 1 {
      assert R[..n.rf] == R[..c.rf] + [R[c.rf]];
      ExceptSnoc(R[..c.rf], R[c.rf], S);
    }
    if n.f == c.f + 1 && n.rf == c.rf + 1 {
      DistinctParts(R, c.rf);
      assert x == R[c.rf] && x !in S && x !in I;
    }
  }

  lemma StepKeepsInv(F: seq<Field>, R: seq<Field>, I: seq<Field>, S: seq<Field>, c: Cursor)
    requires Listed(R, I, S) && Inv(F, R, I, S, c) && c.f < |F| && Step(F, R, c).Go?
    ensures Inv(F, R, I, S, Step(F, R, c).c)
  {
    StepKeepsParked(F, R, I, S, c);
    StepKeepsAgree(F, R, I, S, c);
  }

  // ----- soundness -----

  lemma {:induction false} DrainMembers(rest: seq<Field>, back: seq<Field>)
    requires Distinct(rest) && Distinct(back)
    ensures forall x :: x in Drain(rest, back).0 <==> x in rest && x !in back
    ensures forall x :: x in Drain(rest, back).1 <==> x in back && x !in rest
  {
    if rest != [] {
      assert rest == [rest[0]] + rest[1..];
      assert rest[0] !in rest[1..];
      RemoveFirstMembers(back, rest[0]);
      DrainMembers(rest[1..], if rest[0] in back then RemoveFirst(back, rest[0]) else back);
    }
  }

  lemma SplitMembers(R: seq<Field>, k: nat)
    requires Distinct(R) && k <= |R|
    ensures Distinct(R[k..])
    ensures forall x :: x in R <==> x in R[..k] || x in R[k..]
    ensures forall x :: x in R[..k] ==> x !in R[k..]
  {
    assert R == R[..k] + R[k..];
  }

  lemma FinishSound(F: seq<Field>, R: seq<Field>, I: seq<Field>, S: seq<Field>, c: Cursor)
    requires Listed(R, I, S) && Inv(F, R, I, S, c) && c.f == |F|
    requires Finish(R, c) == Accepted
    ensures Matches(F, R, I, S)
  {
    var rp, rest := R[..c.rf], R[c.rf..];
    assert F[..c.f] == F && R == rp + rest;
    SplitMembers(R, c.rf);
    DrainMembers(rest, c.back);
    forall x | x in rest
      ensures x in S && x in F
    {
      assert x !in Drain(rest, c.back).0;
    }
    forall x | x in S
      ensures x in F && x in R
    {
      assert x !in c.swapped && x !in c.fwd;
    }
    forall x | x in I
      ensures x in F && x !in R
    {
      assert x !in c.ignored;
    }
    forall x
      ensures x in R <==> x in F && x !in I
    {
      if x !in I && x !in S {
        PlainShared(F, rp, R, I, S, x);
      }
    }
    ExceptConcat(rp, rest, S);
    ExceptMembers(rest, S);
    NoMembers(Except(rest, S));
  }

  lemma {:induction false} RunSound(F: seq<Field>, R: seq<Field>, I: seq<Field>, S: seq<Field>, c: Cursor)
    requires Listed(R, I, S) && Inv(F, R, I, S, c)
    requires Run(F, R, c) == Accepted
    ensures Matches(F, R, I, S)
    decreases |F| - c.f + |R| - c.rf
  {
    hide Step, Parked, Agree, Except;
    if c.f == |F| {
      FinishSound(F, R, I, S, c);
    } else {
      StepKeepsInv(F, R, I, S, c);
      RunSound(F, R, I, S, Step(F, R, c).c);
    }
  }

  // ----- completeness -----

  /**
    Since a swapped field was last taken from the reflection, the class cursor
    has not moved over a pending swap; since a plain field was, it has moved
    over pending swaps only.
   */
  ghost predicate Trail(F: seq<Field>, R: seq<Field>, S: seq<Field>, c: Cursor)
    requires c.f <= |F| && c.rf <= |R|
  {
    c.rf < |R| && R[c.rf] in c.swapped ==>
      if c.rf > 0 && R[c.rf - 1] in S then c.f < |F| && F[c.f] !in c.swapped
      else exists b: nat :: b <= c.f && Trailing(F, R, S, c, b)
  }

  ghost predicate Trailing(F: seq<Field>, R: seq<Field>, S: seq<Field>, c: Cursor, b: nat)
    requires b <= c.f <= |F| && c.rf <= |R|
  {
    Aligned(F, R, S, b, c.rf) && forall k :: b <= k < c.f ==> F[k] in S && F[k] !in R[..c.rf]
  }

  lemma StepKeepsTrail(F: seq<Field>, R: seq<Field>, I: seq<Field>, S: seq<Field>, c: Cursor)
    requires Listed(R, I, S) && Inv(F, R, I, S, c) && c.f < |F| && Step(F, R, c).Go?
    requires Trail(F, R, S, c)
    ensures Trail(F, R, S, Step(F, R, c).c)
  {
    hide RemoveFirst, Agree, Except;
    var n := Step(F, R, c).c;
    StepKeepsInv(F, R, I, S, c);
    if n.rf < |R| && R[n.rf] in n.swapped {
      if n.rf == c.rf {
        // only a pending swap lets the class cursor move past a pending reflected swap
        assert R[c.rf] in c.swapped && F[c.f] in c.swapped;
        var b: nat :| b <= c.f && Trailing(F, R, S, c, b);
        assert Trailing(F, R, S, n, b);
      } else if n.f == c.f {
        assert R[c.rf] in S;
        assert F[c.f] !in c.swapped;
      } else {
        DistinctParts(R, c.rf);
        assert R[c.rf] !in S;
        assert Trailing(F, R, S, n, n.f);
      }
    }
  }

  /** When the list relation holds, the two fields of the last branch are the same plain field. */
  lemma PlainHeadsAgree(F: seq<Field>, R: seq<Field>, I: seq<Field>, S: seq<Field>, c: Cursor)
    requires Matches(F, R, I, S) && Inv(F, R, I, S, c) && c.f < |F|
    requires F[c.f] !in S && F[c.f] !in I
    requires c.rf < |R| ==> R[c.rf] !in S
    ensures c.rf < |R| && R[c.rf] == F[c.f]
  {
    assert R[..|R|] == R;
    ExceptAt(F, c.f, S + I);
    if c.rf < |R| {
      ExceptAt(R, c.rf, S);
    }
  }

  /** When the list relation holds, the only assertion the loop body can fail is the one on order. */
  lemma StepComplete(F: seq<Field>, R: seq<Field>, I: seq<Field>, S: seq<Field>, c: Cursor)
    requires Listed(R, I, S) && Matches(F, R, I, S) && Inv(F, R, I, S, c) && c.f < |F|
    requires Trail(F, R, S, c)
    ensures Step(F, R, c).Halt? ==> Step(F, R, c).reason == SwapInOrder && CursorsMeet(F, R, S)
  {
    DistinctParts(F, c.f);
    if c.rf < |R| {
      DistinctParts(R, c.rf);
    }
    match Step(F, R, c)
    case Go(_) =>
    case Halt(SwapInOrder) =>
      var b: nat :| b <= c.f && Trailing(F, R, S, c, b);
      assert MeetAt(F, R, S, b, c.f, c.rf);
    case Halt(Mismatch) =>
      PlainHeadsAgree(F, R, I, S, c);
    case Halt(_) =>
  }

  lemma FinishComplete(F: seq<Field>, R: seq<Field>, I: seq<Field>, S: seq<Field>, c: Cursor)
    requires Listed(R, I, S) && Matches(F, R, I, S) && Inv(F, R, I, S, c) && c.f == |F|
    ensures Finish(R, c) == Accepted
  {
    var rp, rest := R[..c.rf], R[c.rf..];
    assert F[..c.f] == F && R == rp + rest;
    SplitMembers(R, c.rf);
    DrainMembers(rest, c.back);
    ExceptConcat(rp, rest, S);
    ExceptMembers(rest, S);
    forall x | x in rest
      ensures x in c.back
    {
      assert x !in Except(rest, S);
    }
    var (unused, left) := Drain(rest, c.back);
    assert forall x :: x !in unused && x !in left && x !in c.ignored && x !in c.swapped && x !in c.fwd;
    NoMembers(unused);
    NoMembers(left);
    NoMembers(c.ignored);
    NoMembers(c.swapped);
    NoMembers(c.fwd);
  }

  lemma {:induction false} RunComplete(F: seq<Field>, R: seq<Field>, I: seq<Field>, S: seq<Field>, c: Cursor)
    requires Listed(R, I, S) && Matches(F, R, I, S) && Inv(F, R, I, S, c) && Trail(F, R, S, c)
    ensures Run(F, R, c) == Accepted || (Run(F, R, c) == Rejected(SwapInOrder) && CursorsMeet(F, R, S))
    decreases |F| - c.f + |R| - c.rf
  {
    hide Step, Parked, Agree, Except;
    if c.f == |F| {
      FinishComplete(F, R, I, S, c);
    } else {
      StepComplete(F, R, I, S, c);
      if Step(F, R, c).Go? {
        StepKeepsInv(F, R, I, S, c);
        StepKeepsTrail(F, R, I, S, c);
        RunComplete(F, R, I, S, Step(F, R, c).c);
      }
    }
  }

  /** The cursors are still short of a meeting point, or closing in on it. */
  ghost predicate Ahead(c: Cursor, b: nat, p: nat, q: nat) {
    c.rf < q || (c.rf == q && b <= c.f <= p)
  }

  /** The plain field just before an unreached meeting point cannot be absorbed at the end. */
  lemma FinishShort(F: seq<Field>, R: seq<Field>, I: seq<Field>, S: seq<Field>, c: Cursor, q: nat)
    requires Listed(R, I, S) && Inv(F, R, I, S, c)
    requires c.rf < q <= |R| && R[q - 1] !in S
    ensures Finish(R, c) != Accepted
  {
    var x, rest := R[q - 1], R[c.rf..];
    assert x == rest[q - 1 - c.rf];
    SplitMembers(R, c.rf);
    DrainMembers(rest, c.back);
    assert x in Drain(rest, c.back).0;
  }

  /** No step goes past a meeting point. */
  lemma StepStaysAhead(F: seq<Field>, R: seq<Field>, I: seq<Field>, S: seq<Field>, c: Cursor, b: nat, p: nat, q: nat)
    requires Listed(R, I, S) && Distinct(F) && Inv(F, R, I, S, c) && c.f < |F| && Step(F, R, c).Go?
    requires MeetAt(F, R, S, b, p, q) && Ahead(c, b, p, q)
    ensures Ahead(Step(F, R, c).c, b, p, q)
  {
    var n := Step(F, R, c).c;
    DistinctParts(F, c.f);
    if c.rf == q {
      assert F[c.f] in c.swapped;
    } else if n.rf == q {
      assert R[c.rf] == R[q - 1] && R[q - 1] !in S;
      assert F[c.f] == R[q - 1] == F[b - 1];
    }
  }

  /** A meeting point ahead of the cursors is never passed. */
  lemma {:induction false} MeetingRejects(F: seq<Field>, R: seq<Field>, I: seq<Field>, S: seq<Field>, c: Cursor,
                                          b: nat, p: nat, q: nat)
    requires Listed(R, I, S) && Matches(F, R, I, S) && Inv(F, R, I, S, c)
    requires MeetAt(F, R, S, b, p, q) && Ahead(c, b, p, q)
    ensures Run(F, R, c) != Accepted
    decreases |F| - c.f + |R| - c.rf
  {
    hide Step, Parked, Agree, Except;
    if c.f == |F| {
      FinishShort(F, R, I, S, c, q);
    } else if Step(F, R, c).Go? {
      StepKeepsInv(F, R, I, S, c);
      StepStaysAhead(F, R, I, S, c, b, p, q);
      MeetingRejects(F, R, I, S, Step(F, R, c).c, b, p, q);
    }
  }

  // ----- the main results -----

  /** The loop accepts exactly the reflections that match the class and swap no field in vain. */
  lemma AcceptsExactly(F: seq<Field>, R: seq<Field>, I: seq<Field>, S: seq<Field>)
    requires Listed(R, I, S)
    ensures Run(F, R, Start(I, S)) == Accepted <==> Matches(F, R, I, S) && !CursorsMeet(F, R, S)
    ensures Matches(F, R, I, S) && CursorsMeet(F, R, S) ==> Run(F, R, Start(I, S)) == Rejected(SwapInOrder)
  {
    var c := Start(I, S);
    assert Inv(F, R, I, S, c);
    assert Trailing(F, R, S, c, 0);
    if Run(F, R, c) == Accepted {
      RunSound(F, R, I, S, c);
    }
    if Matches(F, R, I, S) {
      RunComplete(F, R, I, S, c);
      if b: nat, p: nat, q: nat :| MeetAt(F, R, S, b, p, q) {
        MeetingRejects(F, R, I, S, c, b, p, q);
      }
    }
  }

  /** Without swaps, reflecting a class in its own order, less the ignored fields, is accepted. */
  lemma ClassOrderAccepted(F: seq<Field>, I: seq<Field>)
    requires Distinct(F) && Distinct(I) && forall x :: x in I ==> x in F
    ensures Run(F, Except(F, I), Start(I, [])) == Accepted
  {
    hide Run, Except;
    var R := Except(F, I);
    ExceptMembers(F, I);
    ExceptDistinct(F, I);
    ExceptNone(R, []);
    assert [] + I == I;
    AcceptsExactly(F, R, I, []);
  }

  /** A matching reflection lists the class's fields without the ignored ones, each once. */
  lemma MatchesIsPermutation(F: seq<Field>, R: seq<Field>, I: seq<Field>, S: seq<Field>)
    requires Distinct(R) && Matches(F, R, I, S)
    ensures multiset(R) == multiset(Except(F, I))
  {
    ExceptMembers(F, I);
    ExceptDistinct(F, I);
    SameMembersSameMultiset(R, Except(F, I));
  }

  // ----- the documented rule on swaps -----

  /** As many plain fields come before a meeting point in the class as in the reflection. */
  lemma MeetingPrefixes(F: seq<Field>, R: seq<Field>, I: seq<Field>, S: seq<Field>, b: nat, p: nat, q: nat)
    requires Listed(R, I, S) && Matches(F, R, I, S) && MeetAt(F, R, S, b, p, q)
    ensures |Except(R[..q], S)| == |Except(F[..p], S + I)|
  {
    hide Except;
    assert F[..p] == F[..b] + F[b..p];
    ExceptConcat(F[..b], F[b..p], S + I);
    ExceptAll(F[b..p], S + I);
    if q > 0 {
      assert R[q - 1] in R;
      ExceptRank(R, q - 1, S);
      ExceptRank(F, b - 1, S + I);
      ExceptDistinct(R, S);
    } else {
      ExceptAll(R[..q], S);
      ExceptAll(F[..b], S + I);
    }
  }

  /** What is kept before and after a swapped field that both lists hold at the same place. */
  lemma MeetingSplits(F: seq<Field>, R: seq<Field>, I: seq<Field>, S: seq<Field>, b: nat, p: nat, q: nat)
    requires Listed(R, I, S) && Matches(F, R, I, S) && MeetAt(F, R, S, b, p, q)
    ensures Except(R[..q], S) == Except(F[..p], S + I)
    ensures Except(R[q + 1..], S) == Except(F[p + 1..], S + I)
  {
    MeetingPrefixes(F, R, I, S, b, p, q);
    ExceptSplit(R, q, S);
    ExceptSplit(F, p, S + I);
    var core := Except(R, S);
    assert core[..|Except(R[..q], S)|] == Except(R[..q], S);
    assert core[|Except(R[..q], S)|..] == Except(R[q + 1..], S);
  }

  /** A swap on which the cursors meet is redundant: the lists match without it. */
  lemma MeetingIsRedundant(F: seq<Field>, R: seq<Field>, I: seq<Field>, S: seq<Field>, b: nat, p: nat, q: nat)
    requires Listed(R, I, S) && Matches(F, R, I, S) && MeetAt(F, R, S, b, p, q)
    ensures F[p] in S && Matches(F, R, I, RemoveFirst(S, F[p]))
  {
    var S' := RemoveFirst(S, F[p]);
    RemoveFirstMembers(S, F[p]);
    MeetingSplits(F, R, I, S, b, p, q);
    ExceptRestored(R, q, S, S');
    ExceptRestored(F, p, S + I, S' + I);
  }

  /** Declaring only swaps that are needed is always accepted. */
  lemma NeededSwapsAccepted(F: seq<Field>, R: seq<Field>, I: seq<Field>, S: seq<Field>)
    requires Listed(R, I, S) && Matches(F, R, I, S)
    requires forall x :: x in S ==> !Matches(F, R, I, RemoveFirst(S, x))
    ensures Run(F, R, Start(I, S)) == Accepted
  {
    AcceptsExactly(F, R, I, S);
    if b: nat, p: nat, q: nat :| MeetAt(F, R, S, b, p, q) {
      MeetingIsRedundant(F, R, I, S, b, p, q);
    }
  }

  /** The converse fails: for any three fields, the swap of `s` below is redundant and goes unnoticed. */
  lemma RedundantSwapAccepted(s: Field, c: Field, t: Field)
    requires Distinct([s, c, t])
    ensures Listed([t, s, c], [], [t, s])
    ensures Matches([s, c, t], [t, s, c], [], RemoveFirst([t, s], s))
    ensures Run([s, c, t], [t, s, c], Start([], [t, s])) == Accepted
  {
    var F, R := [s, c, t], [t, s, c];
    assert s == F[0] && c == F[1] && t == F[2];
    RedundantSwapRun(s, c, t);
    RemoveSecond(t, s);
    TwoKept(s, c, t);
  }

  lemma RedundantSwapRun(s: Field, c: Field, t: Field)
    requires s != c && s != t && c != t
    ensures Run([s, c, t], [t, s, c], Start([], [t, s])) == Accepted
  {
    var F, R := [s, c, t], [t, s, c];
    var c1, c2 := Cursor(1, 0, [t], [], [s], [], []), Cursor(1, 1, [], [], [s], [t], []);
    var c3, c4 := Cursor(1, 2, [], [], [], [t], []), Cursor(2, 3, [], [], [], [t], []);
    var c5 := Cursor(3, 3, [], [], [], [], []);
    RemoveSecond(t, s);
    assert Step(F, R, Start([], [t, s])) == Go(c1);
    assert Step(F, R, c1) == Go(c2);
    assert Step(F, R, c2) == Go(c3);
    assert Step(F, R, c3) == Go(c4);
    assert Step(F, R, c4) == Go(c5);
    hide Step;
    assert Run(F, R, c5) == Accepted;
    assert Run(F, R, c4) == Accepted;
    assert Run(F, R, c3) == Accepted;
    assert Run(F, R, c2) == Accepted;
    assert Run(F, R, c1) == Accepted;
  }

  lemma RemoveSecond(t: Field, s: Field)
    requires s != t
    ensures RemoveFirst([t, s], s) == [t]
  {
    assert RemoveFirst([t, s][1..], s) == [];
  }

  lemma TwoKept(s: Field, c: Field, t: Field)
    requires Distinct([s, c, t])
    ensures Except([t, s, c], [t]) == [s, c] == Except([s, c, t], [t] + [])
  {
    assert s == [s, c, t][0] && c == [s, c, t][1] && t == [s, c, t][2];
    ExceptNone([s, c], [t]);
    assert [t, s, c] == [t] + [s, c] && [s, c, t] == [s, c] + [t] && [t] + [] == [t];
    ExceptConcat([t], [s, c], [t]);
    ExceptConcat([s, c], [t], [t]);
    ExceptAll([t], [t]);
  }

  lemma TransposedLists(u: seq<Field>, x: Field, y: Field, v: seq<Field>)
    requires Distinct(u + [x, y] + v)
    ensures var F, R := u + [x, y] + v, u + [y, x] + v;
            Distinct(R) && F != R && x != y && x in F && y in F && forall z :: z in R <==> z in F
  {
    var F, R := u + [x, y] + v, u + [y, x] + v;
    assert F[|u|] == x && F[|u| + 1] == y && R[|u|] == y && R[|u| + 1] == x;
    assert forall i :: 0 <= i < |R| && i != |u| && i != |u| + 1 ==> R[i] == F[i];
  }

  lemma TransposedMatches(u: seq<Field>, x: Field, y: Field, v: seq<Field>, S: seq<Field>)
    requires Distinct(u + [x, y] + v)
    requires forall z :: z in S ==> z == x || z == y
    ensures Matches(u + [x, y] + v, u + [y, x] + v, [], S) <==> S != []
  {
    var F, R := u + [x, y] + v, u + [y, x] + v;
    TransposedLists(u, x, y, v);
    if S == [] {
      ExceptNone(F, S + []);
      ExceptNone(R, S);
    } else {
      assert S[0] in S;
      TransposedKept(u, x, y, v, S);
    }
  }

  /** With a field of the pair set aside, the transposed list keeps the same fields in the same order. */
  lemma TransposedKept(u: seq<Field>, x: Field, y: Field, v: seq<Field>, S: seq<Field>)
    requires x in S || y in S
    ensures Except(u + [y, x] + v, S) == Except(u + [x, y] + v, S + [])
  {
    assert S + [] == S;
    PairKept(x, y, S);
    ExceptConcat(u + [y, x], v, S);
    ExceptConcat(u + [x, y], v, S);
    ExceptConcat(u, [y, x], S);
    ExceptConcat(u, [x, y], S);
  }

  lemma PairKept(x: Field, y: Field, S: seq<Field>)
    requires x in S || y in S
    ensures Except([y, x], S) == Except([x, y], S)
  {
    assert [y] + [x] == [y, x] && [x] + [y] == [x, y] && [] + [x] == [x] && [] + [y] == [y];
    ExceptSnoc([y], x, S);
    ExceptSnoc([x], y, S);
    ExceptSnoc([], x, S);
    ExceptSnoc([], y, S);
  }

  /** The example of the tool's documentation, for any two adjacent fields of any class. */
  lemma TransposedPair(u: seq<Field>, x: Field, y: Field, v: seq<Field>)
    requires Distinct(u + [x, y] + v)
    ensures var F, R := u + [x, y] + v, u + [y, x] + v;
            && Run(F, R, Start([], [x])) == Accepted
            && Run(F, R, Start([], [y])) == Accepted
            && Run(F, R, Start([], [x, y])) == Rejected(SwapInOrder)
            && Run(F, R, Start([], [])) != Accepted
  {
    hide Run, Start;
    TransposedOne(u, x, y, v, x);
    TransposedOne(u, x, y, v, y);
    TransposedBoth(u, x, y, v);
    TransposedNone(u, x, y, v);
  }

  lemma TransposedOne(u: seq<Field>, x: Field, y: Field, v: seq<Field>, z: Field)
    requires Distinct(u + [x, y] + v) && (z == x || z == y)
    ensures Run(u + [x, y] + v, u + [y, x] + v, Start([], [z])) == Accepted
  {
    hide Matches, Except, Run;
    TransposedLists(u, x, y, v);
    TransposedMatches(u, x, y, v, [z]);
    TransposedMatches(u, x, y, v, []);
    assert RemoveFirst([z], z) == [];
    NeededSwapsAccepted(u + [x, y] + v, u + [y, x] + v, [], [z]);
  }

  lemma TransposedBoth(u: seq<Field>, x: Field, y: Field, v: seq<Field>)
    requires Distinct(u + [x, y] + v)
    ensures Run(u + [x, y] + v, u + [y, x] + v, Start([], [x, y])) == Rejected(SwapInOrder)
  {
    hide Matches, Except, Run;
    var F, R := u + [x, y] + v, u + [y, x] + v;
    TransposedLists(u, x, y, v);
    TransposedMatches(u, x, y, v, [x, y]);
    assert MeetAt(F, R, [x, y], |u|, |u| + 1, |u|) by {
      assert R[..|u|] == u && F[..|u|] == u;
    }
    AcceptsExactly(F, R, [], [x, y]);
  }

  lemma TransposedNone(u: seq<Field>, x: Field, y: Field, v: seq<Field>)
    requires Distinct(u + [x, y] + v)
    ensures Run(u + [x, y] + v, u + [y, x] + v, Start([], [])) != Accepted
  {
    hide Matches, Except, Run;
    TransposedLists(u, x, y, v);
    TransposedMatches(u, x, y, v, []);
    AcceptsExactly(u + [x, y] + v, u + [y, x] + v, [], []);
  }

  /** A swap in a reflection that is already in class order is always refused. */
  lemma InOrderSwapRejected(F: seq<Field>, S: seq<Field>)
    requires Distinct(F) && Distinct(S) && S != []
    ensures Run(F, F, Start([], S)) != Accepted
    ensures (forall x :: x in S ==> x in F) ==> Run(F, F, Start([], S)) == Rejected(SwapInOrder)
  {
    AcceptsExactly(F, F, [], S);
    assert S[0] in S;
    if S[0] in F {
      var k := FirstIn(F, S);
      DistinctParts(F, k);
      assert k > 0 ==> F[k - 1] in F[..k];
      assert MeetAt(F, F, S, k, k, k);
    }
    assert S + [] == S;
  }

  lemma FirstIn(F: seq<Field>, S: seq<Field>) returns (k: nat)
    requires exists x :: x in F && x in S
    ensures k < |F| && F[k] in S && forall x :: x in F[..k] ==> x !in S
  {
    assert F[..|F|] == F;
    k := 0;
    while F[k] !in S
      invariant k < |F| && forall x :: x in F[..k] ==> x !in S
      decreases |F| - k
    {
      assert F[..k + 1] == F[..k] + [F[k]];
      k := k + 1;
    }
  }
}
