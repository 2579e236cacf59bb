/**
  Round-robin block production: which producer a slot belongs to
  (libraries/chain/block_header_state.cpp), the round arithmetic of
  unittests/producer_schedule_tests.cpp and the search for a hand-over in
  unittests/fork_test_utilities.cpp.
*/
module Schedule {
  import opened Lists
  import opened Bits

  type Account = nat

  /** The position in a schedule of `n` producers, each with `reps` slots in a row, that a slot belongs to. */
  function Position(n: nat, reps: nat, slot: nat): (pos: nat)
    requires n > 0 && reps > 0
    ensures pos < n
  {
    PositionInRange(n, reps, slot);
    slot % (n * reps) / reps
  }

  lemma PositionInRange(n: nat, reps: nat, slot: nat)
    requires n > 0 && reps > 0
    ensures n * reps > 0 && 0 <= slot % (n * reps) / reps < n
  {
    var t := slot % (n * reps);
    DivNonNegative(t, reps);
    MulMono(n, t / reps, reps);
    assert t == t / reps * reps + t % reps;
  }

  function ScheduledProducer(schedule: seq<Account>, reps: nat, slot: nat): Account
    requires schedule != [] && reps > 0
  {
    schedule[Position(|schedule|, reps, slot)]
  }

  // ----- fairness -----

  /** How many of the `len` slots from `start` on belong to position `pos`. */
  function Turns(n: nat, reps: nat, pos: nat, start: nat, len: nat): nat
    requires n > 0 && reps > 0
  {
    if len == 0 then 0
    else Turns(n, reps, pos, start, len - 1) + if Position(n, reps, start + len - 1) == pos then 1 else 0
  }

  lemma PositionPeriodic(n: nat, reps: nat, slot: nat)
    requires n > 0 && reps > 0
    ensures Position(n, reps, slot + n * reps) == Position(n, reps, slot)
  {
    var l := n * reps;
    assert l > 0 by { PositionInRange(n, reps, slot); }
    DivModUnique(slot + l, l, slot / l + 1, slot % l);
  }

  lemma {:induction false} TurnsFirst(n: nat, reps: nat, pos: nat, start: nat, len: nat)
    requires n > 0 && reps > 0 && len > 0
    ensures Turns(n, reps, pos, start, len)
         == (if Position(n, reps, start) == pos then 1 else 0) + Turns(n, reps, pos, start + 1, len - 1)
    decreases len
  {
    hide Position;
    if len > 1 {
      TurnsFirst(n, reps, pos, start, len - 1);
      assert start + 1 + (len - 1) - 1 == start + len - 1;
    }
  }

  /** A window slid by one slot loses at one end what it gains at the other. */
  lemma {:induction false} TurnsSlide(n: nat, reps: nat, pos: nat, start: nat)
    requires n > 0 && reps > 0
    ensures Turns(n, reps, pos, start, n * reps) == Turns(n, reps, pos, 0, n * reps)
  {
    hide Position;
    if start > 0 {
      var l := n * reps;
      assert l > 0 by { PositionInRange(n, reps, start); }
      TurnsSlide(n, reps, pos, start - 1);
      TurnsFirst(n, reps, pos, start - 1, l);
      PositionPeriodic(n, reps, start - 1);
    }
  }

  lemma FirstRound(n: nat, reps: nat, slot: nat, pos: nat)
    requires n > 0 && reps > 0 && slot < n * reps
    ensures Position(n, reps, slot) == pos <==> pos * reps <= slot < pos * reps + reps
  {
    SmallMod(slot, n * reps);
    var q := slot / reps;
    assert slot == q * reps + slot % reps;
    if pos * reps <= slot < pos * reps + reps {
      DivModUnique(slot, reps, pos, slot - pos * reps);
    }
  }

  /** In the first round a position gets the slots from `pos * reps` on. */
  lemma {:induction false} TurnsFromZero(n: nat, reps: nat, pos: nat, len: nat)
    requires n > 0 && reps > 0 && len <= n * reps
    ensures Turns(n, reps, pos, 0, len) ==
            if len <= pos * reps then 0 else if len < pos * reps + reps then len - pos * reps else reps
  {
    hide Position;
    if len > 0 {
      TurnsFromZero(n, reps, pos, len - 1);
      FirstRound(n, reps, len - 1, pos);
    }
  }

  /** In every window of a round's length, aligned or not, every position gets exactly its repetitions. */
  lemma ScheduleFair(n: nat, reps: nat, pos: nat, start: nat)
    requires reps > 0 && pos < n
    ensures Turns(n, reps, pos, start, n * reps) == reps
  {
    hide Turns;
    TurnsSlide(n, reps, pos, start);
    MulMono(pos + 1, n, reps);
    assert (pos + 1) * reps == pos * reps + reps;
    TurnsFromZero(n, reps, pos, n * reps);
  }

  // ----- rounds -----

  /** The number of the first block of the next round. */
  method NextRoundFirstBlock(head: nat, n: nat, reps: nat) returns (res: nat)
    requires n > 0 && reps > 0
    ensures res > head && n * reps > 0 && res % (n * reps) == 0
    ensures forall k :: head < k < res ==> k % (n * reps) != 0
    ensures Position(n, reps, res) == 0
  {
    PositionInRange(n, reps, 0);
    var blocksPerRound := n * reps;
    res := head + 1;
    ghost var bound := (head / blocksPerRound + 1) * blocksPerRound;
    NextMultiple(head, blocksPerRound);
    while res % blocksPerRound != 0
      invariant head < res <= bound
      invariant forall k :: head < k < res ==> k % blocksPerRound != 0
      decreases bound - res
    {
      res := res + 1;
    }
    SmallMod(0, reps);
  }

  lemma NextMultiple(head: nat, l: nat)
    requires l > 0
    ensures (head / l + 1) * l > head && (head / l + 1) * l % l == 0
  {
    var q := head / l;
    assert head == q * l + head % l;
    assert (q + 1) * l == q * l + l;
    DivModUnique((q + 1) * l, l, q + 1, 0);
  }

  // ----- hand-overs -----

  /** The block of this slot is produced by `last` and the next one by `next`. */
  predicate HandOver(schedule: seq<Account>, reps: nat, slot: nat, last: Account, next: Account)
    requires schedule != [] && reps > 0
  {
    ScheduledProducer(schedule, reps, slot) == last && ScheduledProducer(schedule, reps, slot + 1) == next
  }

  /** From one slot to the next the position stays or moves to its neighbour, the latter at the end of a turn. */
  lemma NextPosition(n: nat, reps: nat, slot: nat)
    requires n > 0 && reps > 0
    ensures var p := Position(n, reps, slot);
            && n * reps > 0
            && Position(n, reps, slot + 1)
            == if slot % (n * reps) == p * reps + reps - 1 then (if p + 1 == n then 0 else p + 1) else p
  {
    MulPositive(n, reps);
    NextInRound(slot, n * reps);
    DivMod(slot, n * reps);
    NextOffset(slot % (n * reps), n, reps);
  }

  /** The same within a round. */
  lemma NextOffset(t: nat, n: nat, reps: nat)
    requires n > 0 && reps > 0 && t < n * reps
    ensures (if t == n * reps - 1 then 0 else (t + 1) / reps)
            == if t == t / reps * reps + reps - 1 then (if t / reps + 1 == n then 0 else t / reps + 1) else t / reps
  {
    DivMod(t, reps);
    if t == n * reps - 1 {
      LastTurn(t, n, reps);
    } else {
      TurnEnds(t, n, reps, t / reps);
    }
  }

  lemma NextInRound(slot: nat, l: nat)
    requires l > 0
    ensures (slot + 1) % l == if slot % l == l - 1 then 0 else slot % l + 1
  {
    var q, t := slot / l, slot % l;
    DivMod(slot, l);
    if t == l - 1 {
      MulNext(q, l);
      DivModUnique(slot + 1, l, q + 1, 0);
    } else {
      DivModUnique(slot + 1, l, q, t + 1);
    }
  }

  lemma LastTurn(t: nat, n: nat, reps: nat)
    requires n > 0 && reps > 0 && t == n * reps - 1
    ensures t / reps == n - 1 && t == (n - 1) * reps + reps - 1
  {
    MulNext(n - 1, reps);
    DivModUnique(t, reps, n - 1, reps - 1);
  }

  lemma TurnEnds(t: nat, n: nat, reps: nat, p: int)
    requires reps > 0 && t == p * reps + t % reps && t + 1 < n * reps
    ensures (t + 1) / reps == if t == p * reps + reps - 1 then p + 1 else p
    ensures t == p * reps + reps - 1 ==> p + 1 < n
  {
    MulNext(p, reps);
    if t == p * reps + reps - 1 {
      DivModUnique(t + 1, reps, p + 1, 0);
      MulMono(n, p + 1, reps);
    } else {
      DivMod(t, reps);
      DivModUnique(t + 1, reps, p, t % reps + 1);
    }
  }

  /** A hand-over between two producers can happen only if the second follows the first in the round. */
  lemma HandOverBetweenNeighbours(schedule: seq<Account>, reps: nat, slot: nat, i: nat, j: nat)
    requires Distinct(schedule) && reps > 0 && i < |schedule| && j < |schedule| && i != j
    requires HandOver(schedule, reps, slot, schedule[i], schedule[j])
    ensures j == if i + 1 == |schedule| then 0 else i + 1
  {
    hide Position;
    NextPosition(|schedule|, reps, slot);
  }

  /** How many slots after `slot` the turn of position `i` next ends. */
  function TurnEndsIn(n: nat, reps: nat, slot: nat, i: nat): (k: nat)
    requires reps > 0 && i < n
    ensures k < n * reps
  {
    PositionInRange(n, reps, slot);
    MulMono(i + 1, n, reps);
    var l := n * reps;
    var end, t := (i + 1) * reps - 1, slot % l;
    if t <= end then end - t else end + l - t
  }

  lemma TurnEndsThere(n: nat, reps: nat, slot: nat, i: nat)
    requires reps > 0 && i < n
    ensures n * reps > 0
    ensures (slot + TurnEndsIn(n, reps, slot, i)) % (n * reps) == i * reps + reps - 1
    ensures Position(n, reps, slot + TurnEndsIn(n, reps, slot, i)) == i
  {
    PositionInRange(n, reps, slot);
    MulMono(i + 1, n, reps);
    var l := n * reps;
    var end, t, q := (i + 1) * reps - 1, slot % l, slot / l;
    assert end == i * reps + reps - 1;
    if t <= end {
      DivModUnique(slot + (end - t), l, q, end);
    } else {
      DivModUnique(slot + (end + l - t), l, q + 1, end);
    }
    DivModUnique(end, reps, i, reps - 1);
  }

  /** Within a round, wherever it is entered, every neighbouring pair hands over. */
  lemma HandOverWithinRound(schedule: seq<Account>, reps: nat, slot: nat, i: nat)
    requires |schedule| >= 2 && reps > 0 && i < |schedule|
    ensures var k := TurnEndsIn(|schedule|, reps, slot, i);
            var j := if i + 1 == |schedule| then 0 else i + 1;
            k <= |schedule| * reps - 1 && HandOver(schedule, reps, slot + k, schedule[i], schedule[j])
  {
    hide Position;
    TurnEndsThere(|schedule|, reps, slot, i);
    NextPosition(|schedule|, reps, slot + TurnEndsIn(|schedule|, reps, slot, i));
  }

  /** A chain that produces one block per slot under a fixed schedule. */
  class Tester {
    const schedule: seq<Account>
    const reps: nat
    var head: nat

    constructor (schedule: seq<Account>, reps: nat, head: nat)
      ensures this.schedule == schedule && this.reps == reps && this.head == head
    {
      this.schedule, this.reps, this.head := schedule, reps, head;
    }

    method ProduceBlock()
      modifies this
      ensures head == old(head) + 1
    {
      head := head + 1;
    }

    /** Produces blocks until the head block is the last of `last`'s turn before `next`'s, but at most `limit`. */
    method ProduceEmptyBlocksUntil(last: Account, next: Account, limit: nat) returns (found: bool)
      requires schedule != [] && reps > 0
      modifies this
      ensures old(head) <= head <= old(head) + limit
      ensures found <==> HandOver(schedule, reps, head, last, next)
      ensures !found ==> head == old(head) + limit
      ensures forall slot :: old(head) <= slot < head ==> !HandOver(schedule, reps, slot, last, next)
    {
      var produced := 0;
      while produced < limit
        invariant head == old(head) + produced && produced <= limit
        invariant forall slot :: old(head) <= slot < head ==> !HandOver(schedule, reps, slot, last, next)
      {
        if HandOver(schedule, reps, head, last, next) { return true; }
        ProduceBlock();
        produced := produced + 1;
      }
      return HandOver(schedule, reps, head, last, next);
    }

    /** With a limit of a round less one slot, the hand-over between neighbours is always found. */
    method FindHandOver(i: nat, limit: nat) returns (found: bool)
      requires |schedule| >= 2 && reps > 0 && i < |schedule| && limit >= |schedule| * reps - 1
      modifies this
      ensures found && head - old(head) <= |schedule| * reps - 1
    {
      ghost var start := head;
      var j := if i + 1 == |schedule| then 0 else i + 1;
      found := ProduceEmptyBlocksUntil(schedule[i], schedule[j], limit);
      HandOverWithinRound(schedule, reps, start, i);
    }
  }
}
