/**
  The delegated-proof-of-stake bookkeeping of a block header
  (libraries/chain/block_header_state.cpp): which blocks a new block confirms,
  which block a supermajority has confirmed, and which block is irreversible.
*/
module Dpos {
  import opened Lists
  import opened Schedule

  // ----- the flat maps from producers to block numbers -----

  datatype Entry = Entry(key: Account, num: nat)

  type FlatMap = seq<Entry>

  function Find(m: FlatMap, key: Account): Option<nat> {
    if m == [] then None
    else if m[0].key == key then Some(m[0].num)
    else Find(m[1..], key)
  }

  function Put(m: FlatMap, key: Account, num: nat): FlatMap {
    if m == [] then [Entry(key, num)]
    else if m[0].key == key then [Entry(key, num)] + m[1..]
    else [m[0]] + Put(m[1..], key, num)
  }

  // ----- the state of a header -----

  const MAX_TRACKED := 1024
  const UINT32 := 0x1_0000_0000

  datatype Header = Header(
    num: nat,                // number of this block
    slot: nat,               // its time slot
    proposed: nat,           // last block confirmed by a supermajority
    irreversible: nat,       // last irreversible block
    schedule: seq<Account>,
    lastProduced: FlatMap,   // per producer, the last block it produced
    impliedIrb: FlatMap,     // per producer, what was proposed when it last produced
    confirms: seq<nat>,      // per tracked block, oldest first, the confirmations still missing
    pending: seq<Account>,   // a schedule waiting to become active
    pendingLib: nat)         // ... once this block is irreversible

  datatype Refusal = NotInFuture | DoubleConfirm | PendingRefused

  datatype Result = Next(header: Header, promoted: bool) | Refused(why: Refusal)

  /** The least number that is more than two thirds of a schedule. */
  function Required(schedule: seq<Account>): (r: nat)
    ensures 3 * r > 2 * |schedule| >= 3 * (r - 1)
  {
    |schedule| * 2 / 3 + 1
  }

  // ----- the irreversible block -----

  /** Every producer's implied irreversible block, once the next one has had its say. */
  function Implied(m: FlatMap, producer: Account, proposed: nat): (vs: seq<nat>)
    ensures |vs| == |m|
  {
    if m == [] then []
    else [if m[0].key == producer then proposed else m[0].num] + Implied(m[1..], producer, proposed)
  }

  function Below(vs: seq<nat>, x: nat): seq<nat> {
    if vs == [] then [] else (if vs[0] < x then [vs[0]] else []) + Below(vs[1..], x)
  }

  function Above(vs: seq<nat>, x: nat): seq<nat> {
    if vs == [] then [] else (if vs[0] > x then [vs[0]] else []) + Above(vs[1..], x)
  }

  lemma {:induction false} PartsShrink(vs: seq<nat>, x: nat)
    ensures |Below(vs, x)| + |Above(vs, x)| <= |vs|
    ensures x in vs ==> |Below(vs, x)| + |Above(vs, x)| < |vs|
  {
    if vs != [] {
      PartsShrink(vs[1..], x);
    }
  }

  /** The element that sorting would put at index `k` (`nth_element`). */
  function Nth(vs: seq<nat>, k: nat): nat
    requires k < |vs|
    decreases |vs|
  {
    PartsShrink(vs, vs[0]);
    var low, high := Below(vs, vs[0]), Above(vs, vs[0]);
    if k < |low| then Nth(low, k)
    else if k < |vs| - |high| then vs[0]
    else Nth(high, k - (|vs| - |high|))
  }

  function CalcIrreversible(m: FlatMap, producer: Account, proposed: nat): nat {
    var vs := Implied(m, producer, proposed);
    if vs == [] then 0 else Nth(vs, (|vs| - 1) / 3)
  }

  // ----- confirmations -----

  /** The countdown of the newest tracked blocks: where it stops, with the counts as they then are. */
  function CountDown(confirms: seq<nat>, i: int, todo: nat): (r: (seq<nat>, Option<nat>))
    requires -1 <= i < |confirms|
    ensures |r.0| == |confirms| && (r.1.Some? ==> r.1.value <= i)
    decreases i + 1
  {
    if i < 0 || todo == 0 then (confirms, None)
    else
      var left := (confirms[i] + 255) % 256;
      if left == 0 then (confirms[i := left], Some(i))
      else CountDown(confirms[i := left], i - 1, todo - 1)
  }

  /** The tracked blocks with a new one at the end; the oldest goes when there are too many. */
  function Grown(confirms: seq<nat>, required: nat): (grown: seq<nat>)
    ensures grown != []
  {
    (if |confirms| < MAX_TRACKED then confirms else confirms[1..]) + [required % 256]
  }

  // ----- the next header -----

  /** The header of a block in slot `when` whose producer confirms the `n` blocks before it as well;
      `when` 0 stands for the next slot. */
  function NextHeader(s: Header, reps: nat, when: nat, n: nat): Result
    requires s.schedule != [] && reps > 0
  {
    if when != 0 && when <= s.slot then Refused(NotInFuture)
    else
      var slot := if when != 0 then when else s.slot + 1;
      var producer := ScheduledProducer(s.schedule, reps, slot);
      var last := Find(s.lastProduced, producer);
      if last.Some? && last.value >= (s.num + 1 - n) % UINT32 then Refused(DoubleConfirm)
      else
        var num := s.num + 1;
        var grown := Grown(s.confirms, Required(s.schedule));
        var (counted, hit) := CountDown(grown, |grown| - 1, n + 1);
        var proposed := if hit.Some? then (num - (|grown| - 1 - hit.value)) % UINT32 else s.proposed;
        var confirms := if hit.Some? then counted[hit.value + 1..] else counted;
        var irreversible := CalcIrreversible(s.impliedIrb, producer, s.proposed);
        if s.pending != [] && irreversible >= s.pendingLib then
          Next(Header(num, slot, proposed, irreversible, s.pending,
                      Put(Carried(s.pending, s.lastProduced, producer, num, irreversible), producer, num),
                      Carried(s.pending, s.impliedIrb, producer, s.proposed, irreversible),
                      confirms, [], s.pendingLib), true)
        else
          Next(Header(num, slot, proposed, irreversible, s.schedule,
                      Put(s.lastProduced, producer, num), Put(s.impliedIrb, producer, s.proposed),
                      confirms, s.pending, s.pendingLib), false)
  }

  /** The entries of a new schedule: the producer's own, what the old map knows, the irreversible block otherwise. */
  function Carried(schedule: seq<Account>, old': FlatMap, producer: Account, num: nat, irreversible: nat): FlatMap {
    if schedule == [] then []
    else
      var p := schedule[|schedule| - 1];
      var known := Find(old', p);
      Put(Carried(schedule[..|schedule| - 1], old', producer, num, irreversible), p,
          if p == producer then num else if known.Some? then known.value else irreversible)
  }

  /** A block may also carry a new schedule, if none is waiting and none has just become active. */
  function Extend(s: Header, reps: nat, when: nat, n: nat, newProducers: Option<seq<Account>>): Result
    requires s.schedule != [] && reps > 0
  {
    match NextHeader(s, reps, when, n)
    case Refused(why) => Refused(why)
    case Next(h, promoted) =>
      if newProducers.None? then Next(h, promoted)
      else if promoted || s.pending != [] then Refused(PendingRefused)
      else Next(h.(pending := newProducers.value, pendingLib := h.num), promoted)
  }

  /** The loop over the tracked blocks, newest first. */
  method ConfirmBlocks(confirms: seq<nat>, n: nat) returns (counted: seq<nat>, hit: Option<nat>)
    ensures (counted, hit) == CountDown(confirms, |confirms| - 1, n + 1)
  {
    counted, hit := confirms, None;
    var i, todo: nat := |confirms| - 1, n + 1;
    while i >= 0 && todo > 0
      invariant -1 <= i < |counted|
      invariant hit.None? && CountDown(confirms, |confirms| - 1, n + 1) == CountDown(counted, i, todo)
      decreases i
    {
      counted := counted[i := (counted[i] + 255) % 256];
      if counted[i] == 0 {
        hit := Some(i);
        return;
      }
      i, todo := i - 1, todo - 1;
    }
  }

  // ----- the element at an index of the sorted order -----

  lemma {:induction false} BelowMonotone(vs: seq<nat>, x: nat, y: nat)
    requires x <= y
    ensures |Below(vs, x)| <= |Below(vs, y)|
  {
    if vs != [] {
      BelowMonotone(vs[1..], x, y);
    }
  }

  /** Below a bound at most the pivot, the elements below the pivot decide. */
  lemma {:induction false} BelowOfBelow(vs: seq<nat>, x: nat, y: nat)
    requires x <= y
    ensures |Below(Below(vs, y), x)| == |Below(vs, x)|
  {
    if vs != [] {
      BelowOfBelow(vs[1..], x, y);
      BelowConcat(if vs[0] < y then [vs[0]] else [], Below(vs[1..], y), x);
    }
  }

  lemma BelowConcat(a: seq<nat>, b: seq<nat>, x: nat)
    requires |a| <= 1
    ensures |Below(a + b, x)| == |Below(b, x)| + if a != [] && a[0] < x then 1 else 0
  {
    if a == [] {
      assert a + b == b;
    } else {
      assert (a + b)[1..] == b;
    }
  }

  /** Beyond the pivot, everything that is not above it is below. */
  lemma {:induction false} BelowOfAbove(vs: seq<nat>, x: nat, y: nat)
    requires y < x
    ensures |Below(vs, x)| == |Below(Above(vs, y), x)| + |vs| - |Above(vs, y)|
  {
    if vs != [] {
      BelowOfAbove(vs[1..], x, y);
      BelowConcat(if vs[0] > y then [vs[0]] else [], Above(vs[1..], y), x);
    }
  }

  /** The element at index `k` reaches `x` exactly when at most `k` elements are below `x`. */
  lemma {:induction false} NthAtLeast(vs: seq<nat>, k: nat, x: nat)
    requires k < |vs|
    ensures Nth(vs, k) >= x <==> |Below(vs, x)| <= k
    decreases |vs|
  {
    hide Below, Above;
    var pivot := vs[0];
    PartsShrink(vs, pivot);
    var low, high := Below(vs, pivot), Above(vs, pivot);
    if x <= pivot {
      BelowMonotone(vs, x, pivot);
      BelowOfBelow(vs, x, pivot);
      if k < |low| {
        NthAtLeast(low, k, x);
      } else if k >= |vs| - |high| {
        NthAtLeast(high, k - (|vs| - |high|), x);
        NoneBelow(vs, x, pivot);
      }
    } else {
      BelowMonotone(vs, pivot, x);
      BelowOfAbove(vs, x, pivot);
      if k < |low| {
        NthAtLeast(low, k, x);
        AllBelow(vs, pivot, x);
      } else if k >= |vs| - |high| {
        NthAtLeast(high, k - (|vs| - |high|), x);
      }
    }
  }

  /** Nothing above the pivot is below a bound that the pivot reaches. */
  lemma {:induction false} NoneBelow(vs: seq<nat>, x: nat, pivot: nat)
    requires x <= pivot
    ensures |Below(Above(vs, pivot), x)| == 0
  {
    if vs != [] {
      NoneBelow(vs[1..], x, pivot);
      BelowConcat(if vs[0] > pivot then [vs[0]] else [], Above(vs[1..], pivot), x);
    }
  }

  /** Everything below the pivot is below a bound beyond it. */
  lemma {:induction false} AllBelow(vs: seq<nat>, pivot: nat, x: nat)
    requires pivot < x
    ensures |Below(Below(vs, pivot), x)| == |Below(vs, pivot)|
  {
    if vs != [] {
      AllBelow(vs[1..], pivot, x);
      BelowConcat(if vs[0] < pivot then [vs[0]] else [], Below(vs[1..], pivot), x);
    }
  }

  // ----- what every block keeps -----

  ghost predicate AtMostAll(m: FlatMap, bound: nat) {
    forall i :: 0 <= i < |m| ==> m[i].num <= bound
  }

  /** Confirmation counts fit their byte, and a block whose count has run out is no longer tracked. */
  ghost predicate Counting(confirms: seq<nat>) {
    forall i :: 0 <= i < |confirms| ==> 1 <= confirms[i] <= 255
  }

  /** Irreversible, proposed and current block are in this order, and only blocks after the proposed one are tracked. */
  ghost predicate Ordered(s: Header) {
    && s.irreversible <= s.proposed <= s.num < 0x1_0000_0000
    && AtMostAll(s.impliedIrb, s.proposed)
    && AtMostAll(s.lastProduced, s.num)
    && |s.confirms| <= s.num - s.proposed
    && Counting(s.confirms)
    && s.schedule != [] && Required(s.schedule) <= 255 && Required(s.pending) <= 255
  }

  lemma {:induction false} PutAtMost(m: FlatMap, key: Account, num: nat, bound: nat)
    requires AtMostAll(m, bound) && num <= bound
    ensures AtMostAll(Put(m, key, num), bound)
  {
    if m != [] && m[0].key != key {
      PutAtMost(m[1..], key, num, bound);
    }
  }

  lemma {:induction false} FindAtMost(m: FlatMap, key: Account, bound: nat)
    requires AtMostAll(m, bound) && Find(m, key).Some?
    ensures Find(m, key).value <= bound
  {
    if m[0].key != key {
      FindAtMost(m[1..], key, bound);
    }
  }

  lemma {:induction false} CarriedAtMost(schedule: seq<Account>, m: FlatMap, producer: Account, num: nat,
                                         irreversible: nat, bound: nat)
    requires AtMostAll(m, bound) && num <= bound && irreversible <= bound
    ensures AtMostAll(Carried(schedule, m, producer, num, irreversible), bound)
  {
    if schedule != [] {
      var p, rest := schedule[|schedule| - 1], schedule[..|schedule| - 1];
      CarriedAtMost(rest, m, producer, num, irreversible, bound);
      if Find(m, p).Some? {
        FindAtMost(m, p, bound);
      }
      PutAtMost(Carried(rest, m, producer, num, irreversible), p,
                if p == producer then num else if Find(m, p).Some? then Find(m, p).value else irreversible, bound);
    }
  }

  lemma {:induction false} ImpliedAtMost(m: FlatMap, producer: Account, proposed: nat, x: nat)
    requires AtMostAll(m, proposed) && proposed < x
    ensures |Below(Implied(m, producer, proposed), x)| == |m|
  {
    if m != [] {
      ImpliedAtMost(m[1..], producer, proposed, x);
    }
  }

  /** The irreversible block is never past what some producer has seen proposed. */
  lemma IrreversibleAtMost(m: FlatMap, producer: Account, proposed: nat)
    requires AtMostAll(m, proposed)
    ensures CalcIrreversible(m, producer, proposed) <= proposed
  {
    var vs := Implied(m, producer, proposed);
    if vs != [] {
      ImpliedAtMost(m, producer, proposed, proposed + 1);
      NthAtLeast(vs, (|vs| - 1) / 3, proposed + 1);
    }
  }

  /** Every count that the countdown passes loses exactly one, no other count changes, and it stops at the
      first count that runs out. */
  lemma {:induction false} CountDownAt(confirms: seq<nat>, i: int, todo: nat, j: nat)
    requires -1 <= i < |confirms| && Counting(confirms) && j < |confirms|
    ensures var (counted, hit) := CountDown(confirms, i, todo);
            && counted[j] == confirms[j] - (if i - todo < j <= i && (hit.Some? ==> j >= hit.value) then 1 else 0)
            && (hit.Some? ==> i - todo < hit.value <= i && counted[hit.value] == 0)
            && ((hit.Some? ==> j > hit.value) ==> 1 <= counted[j])
    decreases i + 1
  {
    if i >= 0 && todo > 0 {
      OneLess(confirms[i]);
      if confirms[i] > 1 {
        CountDownAt(confirms[i := confirms[i] - 1], i - 1, todo - 1, j);
      }
    }
  }

  lemma OneLess(count: nat)
    requires 1 <= count <= 255
    ensures (count + 255) % 256 == count - 1
  {
  }

  /** The countdown leaves every count it does not drop running. */
  lemma CountDownKeeps(confirms: seq<nat>, i: int, todo: nat)
    requires -1 <= i < |confirms| && Counting(confirms)
    ensures var (counted, hit) := CountDown(confirms, i, todo);
            Counting(if hit.Some? then counted[hit.value + 1..] else counted)
  {
    hide CountDown;
    var (counted, hit) := CountDown(confirms, i, todo);
    forall j: nat | j < |counted| && (hit.Some? ==> j > hit.value) ensures 1 <= counted[j] <= 255 {
      CountDownAt(confirms, i, todo, j);
    }
  }

  lemma GrownCounts(confirms: seq<nat>, required: nat)
    requires Counting(confirms) && 1 <= required <= 255
    ensures Counting(Grown(confirms, required)) && |Grown(confirms, required)| <= |confirms| + 1
  {
  }

  /** Every accepted block keeps the order, and the proposed block never goes back. */
  lemma NextKeepsOrder(s: Header, reps: nat, when: nat, n: nat)
    requires Ordered(s) && reps > 0 && s.num + 1 < 0x1_0000_0000 && NextHeader(s, reps, when, n).Next?
    ensures var h := NextHeader(s, reps, when, n).header;
            Ordered(h) && h.num == s.num + 1 && h.slot > s.slot && h.proposed >= s.proposed
  {
    hide CountDown, Grown, Find, Put, Carried, CalcIrreversible, ScheduledProducer;
    var slot := if when != 0 then when else s.slot + 1;
    var producer := ScheduledProducer(s.schedule, reps, slot);
    var irreversible := CalcIrreversible(s.impliedIrb, producer, s.proposed);
    var required := Required(s.schedule);
    GrownCounts(s.confirms, required);
    var grown := Grown(s.confirms, required);
    CountDownKeeps(grown, |grown| - 1, n + 1);
    IrreversibleAtMost(s.impliedIrb, producer, s.proposed);
    MapsKept(s, producer, irreversible);
  }

  /** Of the blocks after `base`, all those after the proposed one are tracked, or at least the last 1024. */
  ghost predicate Tracks(base: nat, s: Header) {
    |s.confirms| >= 1024 || s.num - |s.confirms| <= base || s.num - |s.confirms| <= s.proposed
  }

  /** Every accepted block keeps all the counts it can: no block is forgotten before it is proposed, or 1024 blocks
      old; and no more than 1024 are kept. */
  lemma NextTracks(base: nat, s: Header, reps: nat, when: nat, n: nat)
    requires Ordered(s) && reps > 0 && s.num + 1 < 0x1_0000_0000 && NextHeader(s, reps, when, n).Next?
    requires Tracks(base, s)
    ensures var h := NextHeader(s, reps, when, n).header;
            Tracks(base, h) && (|h.confirms| <= 1024 || |h.confirms| <= |s.confirms|)
  {
    hide CountDown, Counting, Find, Put, Carried, CalcIrreversible, ScheduledProducer;
  }

  /** Why the counts must fit their byte: where a schedule needs one more confirmation than a multiple of 256, as one
      of 384 producers does, every block is proposed on the word of its own producer. */
  lemma ByteTooSmall(s: Header, reps: nat, when: nat, n: nat)
    requires s.schedule != [] && reps > 0 && s.num + 1 < 0x1_0000_0000
    ensures NextHeader(s, reps, when, n).Next? && Required(s.schedule) % 256 == 1 ==>
              var h := NextHeader(s, reps, when, n).header;
              h.proposed == h.num && h.confirms == []
    ensures |s.schedule| == 384 ==> Required(s.schedule) == 257
  {
    hide Find, Put, Carried, CalcIrreversible, ScheduledProducer;
    var grown := Grown(s.confirms, Required(s.schedule));
    assert grown[|grown| - 1] == Required(s.schedule) % 256;
  }

  lemma MapsKept(s: Header, producer: Account, irreversible: nat)
    requires Ordered(s) && irreversible <= s.proposed
    ensures var num := s.num + 1;
            && AtMostAll(Put(Carried(s.pending, s.lastProduced, producer, num, irreversible), producer, num), num)
            && AtMostAll(Carried(s.pending, s.impliedIrb, producer, s.proposed, irreversible), s.proposed)
            && AtMostAll(Put(s.lastProduced, producer, num), num)
            && AtMostAll(Put(s.impliedIrb, producer, s.proposed), s.proposed)
  {
    hide Put, Carried, Counting;
    var num := s.num + 1;
    CarriedAtMost(s.pending, s.lastProduced, producer, num, irreversible, num);
    PutAtMost(Carried(s.pending, s.lastProduced, producer, num, irreversible), producer, num, num);
    CarriedAtMost(s.pending, s.impliedIrb, producer, s.proposed, irreversible, s.proposed);
    PutAtMost(s.lastProduced, producer, num, num);
    PutAtMost(s.impliedIrb, producer, s.proposed, s.proposed);
  }

  // ----- the irreversible block and two thirds -----

  /** More than two thirds of the producers have seen the irreversible block proposed; and the irreversible
      block reaches `x` exactly when at most a third, rounded down, have seen less. */
  lemma IrreversibleHasSupermajority(m: FlatMap, producer: Account, proposed: nat, x: nat)
    requires m != []
    ensures var vs := Implied(m, producer, proposed);
            var lib := CalcIrreversible(m, producer, proposed);
            && (lib >= x <==> |Below(vs, x)| <= (|m| - 1) / 3)
            && 3 * (|m| - |Below(vs, lib)|) > 2 * |m|
  {
    var vs := Implied(m, producer, proposed);
    NthAtLeast(vs, (|vs| - 1) / 3, x);
    NthAtLeast(vs, (|vs| - 1) / 3, CalcIrreversible(m, producer, proposed));
  }

  /** What the producers have seen so far does not fall behind the irreversible block. */
  ghost predicate Settled(s: Header) {
    if s.impliedIrb == [] then s.irreversible == 0
    else |Below(Nums(s.impliedIrb), s.irreversible)| <= (|s.impliedIrb| - 1) / 3
  }

  function Nums(m: FlatMap): (vs: seq<nat>)
    ensures |vs| == |m|
  {
    if m == [] then [] else [m[0].num] + Nums(m[1..])
  }

  lemma {:induction false} ImpliedBelow(m: FlatMap, producer: Account, proposed: nat, x: nat)
    requires AtMostAll(m, proposed)
    ensures |Below(Implied(m, producer, proposed), x)| <= |Below(Nums(m), x)|
  {
    if m != [] {
      ImpliedBelow(m[1..], producer, proposed, x);
      var vs, ws := Implied(m, producer, proposed), Nums(m);
      assert vs[1..] == Implied(m[1..], producer, proposed) && ws[1..] == Nums(m[1..]);
    }
  }

  ghost predicate DistinctKeys(m: FlatMap) {
    forall i, j :: 0 <= i < j < |m| ==> m[i].key != m[j].key
  }

  lemma {:induction false} ImpliedIsPut(m: FlatMap, producer: Account, proposed: nat)
    requires DistinctKeys(m) && Find(m, producer).Some?
    ensures Nums(Put(m, producer, proposed)) == Implied(m, producer, proposed)
  {
    if m[0].key == producer {
      OthersImplied(m[1..], producer, proposed);
      assert ([Entry(producer, proposed)] + m[1..])[1..] == m[1..];
    } else {
      ImpliedIsPut(m[1..], producer, proposed);
      assert ([m[0]] + Put(m[1..], producer, proposed))[1..] == Put(m[1..], producer, proposed);
    }
  }

  lemma {:induction false} OthersImplied(m: FlatMap, producer: Account, proposed: nat)
    requires forall i :: 0 <= i < |m| ==> m[i].key != producer
    ensures Implied(m, producer, proposed) == Nums(m)
  {
    if m != [] {
      OthersImplied(m[1..], producer, proposed);
    }
  }

  /** The producer of the next block. */
  function Turn(s: Header, reps: nat, when: nat): Account
    requires s.schedule != [] && reps > 0
  {
    ScheduledProducer(s.schedule, reps, if when != 0 then when else s.slot + 1)
  }

  /** The irreversible block that the next block brings. */
  function NextIrreversible(s: Header, reps: nat, when: nat): nat
    requires s.schedule != [] && reps > 0
  {
    CalcIrreversible(s.impliedIrb, Turn(s, reps, when), s.proposed)
  }

  /** At most a third of the producers, rounded down, will have seen less than the irreversible block proposed. */
  ghost predicate Keeps(s: Header, reps: nat, when: nat)
    requires s.schedule != [] && reps > 0
  {
    if s.impliedIrb == [] then s.irreversible == 0
    else |Below(Implied(s.impliedIrb, Turn(s, reps, when), s.proposed), s.irreversible)| <= (|s.impliedIrb| - 1) / 3
  }

  /** The irreversible block goes back exactly when too many producers have seen less than it proposed. */
  lemma IrreversibleKept(s: Header, reps: nat, when: nat, n: nat)
    requires s.schedule != [] && reps > 0 && NextHeader(s, reps, when, n).Next?
    ensures NextHeader(s, reps, when, n).header.irreversible == NextIrreversible(s, reps, when)
    ensures NextIrreversible(s, reps, when) >= s.irreversible <==> Keeps(s, reps, when)
  {
    hide CountDown, Grown, Find, Put, Carried, ScheduledProducer, Nth, Below, Implied;
    if s.impliedIrb != [] {
      IrreversibleHasSupermajority(s.impliedIrb, Turn(s, reps, when), s.proposed, s.irreversible);
    }
  }

  /** From a settled header no block takes the irreversible block back, whether or not a schedule becomes active. */
  lemma IrreversibleMonotone(s: Header, reps: nat, when: nat, n: nat)
    requires Ordered(s) && reps > 0 && Settled(s) && NextHeader(s, reps, when, n).Next?
    ensures NextHeader(s, reps, when, n).header.irreversible >= s.irreversible
  {
    hide NextHeader, Below, Nums, Implied, ScheduledProducer, Nth;
    IrreversibleKept(s, reps, when, n);
    ImpliedBelow(s.impliedIrb, Turn(s, reps, when), s.proposed, s.irreversible);
  }

  /** Every scheduled producer has an entry, or the next block will make them. */
  ghost predicate Known(s: Header) {
    && DistinctKeys(s.impliedIrb)
    && ((forall i :: 0 <= i < |s.schedule| ==> Find(s.impliedIrb, s.schedule[i]).Some?)
        || (s.impliedIrb == [] && s.pending != [] && s.pendingLib == 0))
  }

  /** While a schedule lasts, a settled header stays settled. */
  lemma SettledKept(s: Header, reps: nat, when: nat, n: nat)
    requires Ordered(s) && reps > 0 && Settled(s) && Known(s)
    requires NextHeader(s, reps, when, n).Next? && !NextHeader(s, reps, when, n).promoted
    ensures var h := NextHeader(s, reps, when, n).header; Settled(h) && Known(h)
  {
    hide CountDown, Grown, Find, Put, Carried, Below, Nums, Implied, Position, Nth;
    var producer := Turn(s, reps, when);
    NextIsFound(s, reps, when, n);
    IrreversibleHasSupermajority(s.impliedIrb, producer, s.proposed, NextIrreversible(s, reps, when));
    ImpliedIsPut(s.impliedIrb, producer, s.proposed);
    PutKeys(s.impliedIrb, producer, s.proposed);
    PutFinds(s.impliedIrb, producer, s.proposed);
  }

  lemma NextIsFound(s: Header, reps: nat, when: nat, n: nat)
    requires s.schedule != [] && reps > 0 && Known(s)
    requires NextHeader(s, reps, when, n).Next? && !NextHeader(s, reps, when, n).promoted
    ensures s.impliedIrb != [] && Find(s.impliedIrb, Turn(s, reps, when)).Some?
    ensures forall i :: 0 <= i < |s.schedule| ==> Find(s.impliedIrb, s.schedule[i]).Some?
  {
    hide CountDown, Grown, Put, Carried, Position, DistinctKeys;
    var producer := Turn(s, reps, when);
    assert producer in s.schedule;
  }

  /** While a schedule lasts, the irreversible block is the one a third of the way up in what the header now
      records of its producers. */
  lemma IrreversibleOnRecord(s: Header, reps: nat, when: nat, n: nat)
    requires s.schedule != [] && reps > 0 && Known(s)
    requires NextHeader(s, reps, when, n).Next? && !NextHeader(s, reps, when, n).promoted
    ensures var h := NextHeader(s, reps, when, n).header;
            |h.impliedIrb| == |s.impliedIrb| > 0 && h.irreversible == Nth(Nums(h.impliedIrb), (|h.impliedIrb| - 1) / 3)
  {
    hide CountDown, Grown, Find, Put, Carried, Nums, Implied, Position, Nth;
    var producer := Turn(s, reps, when);
    NextIsFound(s, reps, when, n);
    ImpliedIsPut(s.impliedIrb, producer, s.proposed);
    PutKeyAt(s.impliedIrb, producer, s.proposed, 0);
  }

  // ----- a schedule that waits -----

  /** The block that proposed the waiting schedule is not yet irreversible. */
  ghost predicate Waiting(s: Header) {
    s.pending != [] ==> s.irreversible < s.pendingLib
  }

  /** A new schedule is taken exactly when none is waiting; a block without one only has to be acceptable. */
  lemma ProposalTaken(s: Header, reps: nat, when: nat, n: nat, newProducers: Option<seq<Account>>)
    requires s.schedule != [] && reps > 0
    ensures Extend(s, reps, when, n, newProducers).Next? <==>
            NextHeader(s, reps, when, n).Next? && (newProducers.None? || s.pending == [])
  {
    hide CountDown, Grown, Find, Put, Carried, CalcIrreversible, ScheduledProducer;
  }

  /** A waiting schedule becomes active with the very first block that makes its proposal irreversible. */
  lemma ActivatesInTime(s: Header, reps: nat, when: nat, n: nat, newProducers: Option<seq<Account>>)
    requires Ordered(s) && reps > 0 && s.num + 1 < 0x1_0000_0000 && Extend(s, reps, when, n, newProducers).Next?
    ensures var r := Extend(s, reps, when, n, newProducers);
            && Waiting(r.header)
            && (r.promoted <==> s.pending != [] && r.header.irreversible >= s.pendingLib)
            && r.header.schedule == (if r.promoted then s.pending else s.schedule)
            && (newProducers.Some? ==> s.pending == [] && r.header.pending == newProducers.value)
            && (newProducers.None? ==> r.header.pending == if r.promoted then [] else s.pending)
  {
    hide CountDown, Grown, Find, Put, Carried, CalcIrreversible, ScheduledProducer;
    NextKeepsOrder(s, reps, when, n);
    var slot := if when != 0 then when else s.slot + 1;
    IrreversibleAtMost(s.impliedIrb, ScheduledProducer(s.schedule, reps, slot), s.proposed);
  }

  lemma PutKeys(m: FlatMap, key: Account, num: nat)
    requires DistinctKeys(m)
    ensures DistinctKeys(Put(m, key, num))
  {
    hide Put, Find;
    var r := Put(m, key, num);
    FindKeys(m, key);
    forall i, j | 0 <= i < j < |r| ensures r[i].key != r[j].key {
      PutKeyAt(m, key, num, i);
      PutKeyAt(m, key, num, j);
    }
  }

  lemma {:induction false} PutKeyAt(m: FlatMap, key: Account, num: nat, k: nat)
    ensures |Put(m, key, num)| == |m| + if Find(m, key).Some? then 0 else 1
    ensures k < |Put(m, key, num)| ==> Put(m, key, num)[k].key == if k < |m| then m[k].key else key
  {
    if m != [] && m[0].key != key {
      PutKeyAt(m[1..], key, num, if k == 0 then 0 else k - 1);
    }
  }

  lemma {:induction false} FindKeys(m: FlatMap, key: Account)
    ensures Find(m, key).None? ==> forall i :: 0 <= i < |m| ==> m[i].key != key
  {
    if m != [] && m[0].key != key {
      FindKeys(m[1..], key);
    }
  }

  lemma {:induction false} PutFind(m: FlatMap, key: Account, num: nat, other: Account)
    ensures Find(Put(m, key, num), other) == if other == key then Some(num) else Find(m, other)
  {
    if m != [] && m[0].key != key {
      PutFind(m[1..], key, num, other);
      assert ([m[0]] + Put(m[1..], key, num))[1..] == Put(m[1..], key, num);
    } else if m != [] {
      assert ([Entry(key, num)] + m[1..])[1..] == m[1..];
    }
  }

  lemma PutFinds(m: FlatMap, key: Account, num: nat)
    ensures forall other :: Find(Put(m, key, num), other) == if other == key then Some(num) else Find(m, other)
  {
    forall other
      ensures Find(Put(m, key, num), other) == if other == key then Some(num) else Find(m, other)
    {
      PutFind(m, key, num, other);
    }
  }

  // ----- a schedule that becomes active -----

  function Members(schedule: seq<Account>): (r: set<Account>)
    ensures |r| <= |schedule| && forall x :: x in r <==> x in schedule
  {
    if schedule == [] then {} else {schedule[0]} + Members(schedule[1..])
  }

  /** What a member of the new schedule finds recorded. */
  lemma {:induction false} CarriedFind(schedule: seq<Account>, m: FlatMap, producer: Account, num: nat, lib: nat,
                                       q: Account)
    ensures q in schedule ==>
              var v := if q == producer then num else if Find(m, q).Some? then Find(m, q).value else lib;
              Find(Carried(schedule, m, producer, num, lib), q) == Some(v)
  {
    if schedule != [] {
      var last, rest := schedule[|schedule| - 1], schedule[..|schedule| - 1];
      CarriedFind(rest, m, producer, num, lib, q);
      PutFind(Carried(rest, m, producer, num, lib), last,
              if last == producer then num else if Find(m, last).Some? then Find(m, last).value else lib, q);
      assert schedule == rest + [last];
    }
  }

  /** What the next header records of every producer: who has produced last and what was then proposed. While a
      schedule lasts only the entries of the block's producer change. A schedule that becomes active takes over what
      is known of its members, and the irreversible block for the others. */
  lemma NextRecords(s: Header, reps: nat, when: nat, n: nat, q: Account)
    requires s.schedule != [] && reps > 0 && NextHeader(s, reps, when, n).Next?
    ensures var (h, promoted) := (NextHeader(s, reps, when, n).header, NextHeader(s, reps, when, n).promoted);
            var producer := Turn(s, reps, when);
            && h.num == s.num + 1 && h.slot == (if when != 0 then when else s.slot + 1)
            && Find(h.lastProduced, producer) == Some(s.num + 1)
            && Find(h.impliedIrb, producer) == (if promoted && producer !in s.pending then None else Some(s.proposed))
            && (!promoted && q != producer ==>
                  && Find(h.lastProduced, q) == Find(s.lastProduced, q)
                  && Find(h.impliedIrb, q) == Find(s.impliedIrb, q))
            && (promoted && q != producer && q in s.pending ==>
                  && Find(h.lastProduced, q) == OrElse(Find(s.lastProduced, q), h.irreversible)
                  && Find(h.impliedIrb, q) == OrElse(Find(s.impliedIrb, q), h.irreversible))
            && (promoted && q != producer && q !in s.pending ==>
                  Find(h.lastProduced, q).None? && Find(h.impliedIrb, q).None?)
  {
    hide CountDown, Grown, Find, Put, Carried, CalcIrreversible, Position;
    var producer := Turn(s, reps, when);
    var lib := NextHeader(s, reps, when, n).header.irreversible;
    PutFinds(s.lastProduced, producer, s.num + 1);
    PutFinds(s.impliedIrb, producer, s.proposed);
    PutFinds(Carried(s.pending, s.lastProduced, producer, s.num + 1, lib), producer, s.num + 1);
    CarriedFind(s.pending, s.lastProduced, producer, s.num + 1, lib, q);
    CarriedFind(s.pending, s.impliedIrb, producer, s.proposed, lib, q);
    CarriedFind(s.pending, s.impliedIrb, producer, s.proposed, lib, producer);
    CarriedOnly(s.pending, s.lastProduced, producer, s.num + 1, lib, q);
    CarriedOnly(s.pending, s.impliedIrb, producer, s.proposed, lib, q);
    CarriedOnly(s.pending, s.impliedIrb, producer, s.proposed, lib, producer);
  }

  function OrElse(found: Option<nat>, other: nat): Option<nat> {
    if found.Some? then found else Some(other)
  }

  lemma {:induction false} CarriedOnly(schedule: seq<Account>, m: FlatMap, producer: Account, num: nat, lib: nat,
                                       q: Account)
    ensures q !in schedule ==> Find(Carried(schedule, m, producer, num, lib), q).None?
  {
    if schedule != [] {
      var last, rest := schedule[|schedule| - 1], schedule[..|schedule| - 1];
      CarriedOnly(rest, m, producer, num, lib, q);
      PutFind(Carried(rest, m, producer, num, lib), last,
              if last == producer then num else if Find(m, last).Some? then Find(m, last).value else lib, q);
    }
  }

  lemma {:induction false} CarriedDistinct(schedule: seq<Account>, m: FlatMap, producer: Account, num: nat, lib: nat)
    ensures DistinctKeys(Carried(schedule, m, producer, num, lib))
  {
    if schedule != [] {
      var q, rest := schedule[|schedule| - 1], schedule[..|schedule| - 1];
      CarriedDistinct(rest, m, producer, num, lib);
      PutKeys(Carried(rest, m, producer, num, lib), q,
              if q == producer then num else if Find(m, q).Some? then Find(m, q).value else lib);
    }
  }

  /** The keys whose entry is below a bound. */
  ghost function LowKeys(m: FlatMap, x: nat): set<Account> {
    if m == [] then {} else LowKeys(m[1..], x) + if m[0].num < x then {m[0].key} else {}
  }

  lemma {:induction false} LowKeysFound(m: FlatMap, x: nat, q: Account)
    requires DistinctKeys(m)
    ensures q in LowKeys(m, x) <==> Find(m, q).Some? && Find(m, q).value < x
  {
    if m != [] {
      LowKeysFound(m[1..], x, q);
      if m[0].key == q {
        KeyOnce(m[1..], q);
      }
    }
  }

  lemma {:induction false} KeyOnce(m: FlatMap, q: Account)
    requires forall i :: 0 <= i < |m| ==> m[i].key != q
    ensures Find(m, q).None?
  {
    if m != [] {
      KeyOnce(m[1..], q);
    }
  }

  lemma {:induction false} LowKeysCount(m: FlatMap, x: nat)
    requires DistinctKeys(m)
    ensures |LowKeys(m, x)| == |Below(Nums(m), x)|
  {
    if m != [] {
      LowKeysCount(m[1..], x);
      LowKeysFound(m[1..], x, m[0].key);
      KeyOnce(m[1..], m[0].key);
      assert Nums(m)[1..] == Nums(m[1..]);
    }
  }

  lemma {:induction false} BelowAll(vs: seq<nat>, x: nat)
    requires forall i :: 0 <= i < |vs| ==> vs[i] < x
    ensures |Below(vs, x)| == |vs|
  {
    if vs != [] {
      BelowAll(vs[1..], x);
    }
  }

  /** A map has as many entries as it has keys. */
  lemma EntriesAreKeys(m: FlatMap, keys: set<Account>)
    requires DistinctKeys(m) && forall q :: q in keys <==> Find(m, q).Some?
    ensures |m| == |keys|
  {
    var top := Top(m);
    LowKeysCount(m, top);
    BelowAll(Nums(m), top);
    forall q ensures q in LowKeys(m, top) <==> q in keys {
      LowKeysFound(m, top, q);
      if Find(m, q).Some? {
        FindAtMost(m, q, top - 1);
      }
    }
    assert LowKeys(m, top) == keys;
  }

  /** A bound above all entries. */
  ghost function Top(m: FlatMap): (t: nat)
    ensures t > 0 && AtMostAll(m, t - 1) && forall i :: 0 <= i < |m| ==> Nums(m)[i] < t
  {
    if m == [] then 1
    else
      var t := Top(m[1..]);
      if m[0].num < t then t else m[0].num + 1
  }

  /** The members of the waiting schedule, other than the producer, that have seen less than `lib` proposed. */
  function Laggards(s: Header, producer: Account, lib: nat): (r: set<Account>)
    ensures forall q :: q in r <==>
                        && q in s.pending && q != producer
                        && Find(s.impliedIrb, q).Some? && Find(s.impliedIrb, q).value < lib
  {
    set q | q in s.pending && q != producer && Find(s.impliedIrb, q).Some? && Find(s.impliedIrb, q).value < lib
  }

  /** The change of schedule that the next block may bring leaves at most a third of the new producers, rounded
      down, behind the irreversible block. */
  ghost predicate Settles(s: Header, reps: nat, when: nat)
    requires s.schedule != [] && reps > 0
  {
    var lib := NextIrreversible(s, reps, when);
    s.pending != [] && lib >= s.pendingLib ==>
    |Laggards(s, Turn(s, reps, when), lib)| <= (|Members(s.pending)| - 1) / 3
  }

  lemma CarriedCounts(s: Header, producer: Account, lib: nat)
    requires s.pending != [] && lib <= s.proposed
    ensures var m := Carried(s.pending, s.impliedIrb, producer, s.proposed, lib);
            |m| == |Members(s.pending)| > 0 && |Below(Nums(m), lib)| == |Laggards(s, producer, lib)|
  {
    hide Carried, Find, Below, Nums, Members, LowKeys, DistinctKeys;
    var m := Carried(s.pending, s.impliedIrb, producer, s.proposed, lib);
    CarriedDistinct(s.pending, s.impliedIrb, producer, s.proposed, lib);
    forall q ensures q in LowKeys(m, lib) <==> q in Laggards(s, producer, lib)
             ensures q in Members(s.pending) <==> Find(m, q).Some?
    {
      CarriedFind(s.pending, s.impliedIrb, producer, s.proposed, lib, q);
      CarriedOnly(s.pending, s.impliedIrb, producer, s.proposed, lib, q);
      LowKeysFound(m, lib, q);
    }
    assert LowKeys(m, lib) == Laggards(s, producer, lib);
    LowKeysCount(m, lib);
    EntriesAreKeys(m, Members(s.pending));
    assert s.pending[0] in Members(s.pending);
  }

  /** A header in which a schedule has just become active is settled exactly when at most a third of the new
      producers, rounded down, had seen less than the irreversible block proposed. */
  lemma SettledAtChange(s: Header, reps: nat, when: nat, n: nat)
    requires Ordered(s) && reps > 0 && NextHeader(s, reps, when, n).Next? && NextHeader(s, reps, when, n).promoted
    ensures var h := NextHeader(s, reps, when, n).header; Known(h) && (Settled(h) <==> Settles(s, reps, when))
  {
    hide CountDown, Grown, Find, Put, Carried, Below, Nums, Implied, ScheduledProducer, Nth, Members, Laggards,
      DistinctKeys;
    var producer, lib := Turn(s, reps, when), NextIrreversible(s, reps, when);
    IrreversibleAtMost(s.impliedIrb, producer, s.proposed);
    CarriedCounts(s, producer, lib);
    CarriedDistinct(s.pending, s.impliedIrb, producer, s.proposed, lib);
    forall i | 0 <= i < |s.pending|
      ensures Find(Carried(s.pending, s.impliedIrb, producer, s.proposed, lib), s.pending[i]).Some?
    {
      CarriedFind(s.pending, s.impliedIrb, producer, s.proposed, lib, s.pending[i]);
    }
  }
}
