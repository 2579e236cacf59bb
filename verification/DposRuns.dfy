/**
  Safety of the delegated-proof-of-stake bookkeeping over whole runs of blocks
  (libraries/chain/block_header_state.cpp): who vouched for the blocks that become
  proposed and irreversible, and what two forks of a chain must have in common.
*/
module DposRuns {
  import Bits
  import opened Lists
  import opened Schedule
  import opened Dpos

  // ----- runs of blocks -----

  datatype Block = Block(when: nat, n: nat, newProducers: Option<seq<Account>>)

  /** A block that was produced: under which schedule, whether a new one became active with it, and that its
      producer vouches for it and for the `confirmed` blocks before it. */
  datatype Produced = Produced(num: nat, producer: Account, confirmed: nat, schedule: seq<Account>, promoted: bool)

  /** The header after a list of blocks, if every one of them is accepted, and the blocks that were produced. */
  function Chain(s: Header, reps: nat, blocks: seq<Block>): Option<(Header, seq<Produced>)>
    requires reps > 0
  {
    if blocks == [] then Some((s, []))
    else
      var before := Chain(s, reps, blocks[..|blocks| - 1]);
      var b := blocks[|blocks| - 1];
      if before.None? || before.value.0.schedule == [] then None
      else
        match Extend(before.value.0, reps, b.when, b.n, b.newProducers)
        case Refused(_) => None
        case Next(h, promoted) => Some((h, before.value.1 + [Entered(before.value.0, reps, h, b.n, promoted)]))
  }

  function Entered(s: Header, reps: nat, h: Header, n: nat, promoted: bool): Produced
    requires s.schedule != [] && reps > 0
  {
    Produced(h.num, ScheduledProducer(s.schedule, reps, h.slot), n, s.schedule, promoted)
  }

  /** The first part of an accepted run is accepted, and its last block extends it. */
  lemma {:induction false} ChainPrefix(s: Header, reps: nat, blocks: seq<Block>, k: nat)
    requires reps > 0 && k <= |blocks| && Chain(s, reps, blocks).Some?
    ensures Chain(s, reps, blocks[..k]).Some?
    ensures Chain(s, reps, blocks[..k]).value.1 <= Chain(s, reps, blocks).value.1
    decreases |blocks|
  {
    hide Extend, Entered;
    if k == |blocks| {
      assert blocks[..k] == blocks;
    } else {
      var init := blocks[..|blocks| - 1];
      assert init[..k] == blocks[..k];
      ChainPrefix(s, reps, init, k);
    }
  }

  /** One block more of a run. */
  lemma ChainStep(s: Header, reps: nat, blocks: seq<Block>, k: nat)
    requires reps > 0 && k < |blocks| && Chain(s, reps, blocks).Some?
    ensures Chain(s, reps, blocks[..k]).Some? && Chain(s, reps, blocks[..k + 1]).Some?
    ensures var (h, hist) := Chain(s, reps, blocks[..k]).value;
            && h.schedule != []
            && var r := Extend(h, reps, blocks[k].when, blocks[k].n, blocks[k].newProducers);
               && r.Next?
               && Chain(s, reps, blocks[..k + 1]).value ==
                  (r.header, hist + [Entered(h, reps, r.header, blocks[k].n, r.promoted)])
  {
    hide Extend, Entered;
    ChainPrefix(s, reps, blocks, k + 1);
    assert blocks[..k + 1][..k] == blocks[..k];
  }

  /** A run of accepted blocks that stays within 32-bit block numbers and 8-bit confirmation counts. */
  ghost predicate InBounds(s: Header, reps: nat, blocks: seq<Block>) {
    && reps > 0 && Ordered(s) && s.num + |blocks| < 0x1_0000_0000 && Chain(s, reps, blocks).Some?
    && forall i :: 0 <= i < |blocks| && blocks[i].newProducers.Some? ==> Required(blocks[i].newProducers.value) <= 255
  }

  /** Every run of accepted blocks keeps the order of irreversible, proposed and current block, across any
      changes of schedule, and never takes the proposed block back. */
  lemma {:induction false} EveryChainOrdered(s: Header, reps: nat, blocks: seq<Block>)
    requires InBounds(s, reps, blocks)
    ensures var h := Chain(s, reps, blocks).value.0;
            Ordered(h) && h.num == s.num + |blocks| && h.slot >= s.slot + |blocks| && h.proposed >= s.proposed
  {
    hide NextHeader, Ordered;
    if blocks != [] {
      var k := |blocks| - 1;
      EveryChainOrdered(s, reps, blocks[..k]);
      var h := Chain(s, reps, blocks[..k]).value.0;
      OrderedSchedule(h);
      NextKeepsOrder(h, reps, blocks[k].when, blocks[k].n);
      var next := NextHeader(h, reps, blocks[k].when, blocks[k].n).header;
      if blocks[k].newProducers.Some? {
        PendingKeepsOrder(next, blocks[k].newProducers.value);
      }
    }
  }

  /** After every block of a run, a schedule that waits has a proposal that is not yet irreversible. */
  lemma EveryChainWaits(s: Header, reps: nat, blocks: seq<Block>)
    requires InBounds(s, reps, blocks) && (Waiting(s) || blocks != [])
    ensures Waiting(Chain(s, reps, blocks).value.0)
  {
    hide Extend, Ordered, Waiting;
    if blocks != [] {
      var k := |blocks| - 1;
      EveryChainOrdered(s, reps, blocks[..k]);
      var h := Chain(s, reps, blocks[..k]).value.0;
      ActivatesInTime(h, reps, blocks[k].when, blocks[k].n, blocks[k].newProducers);
    }
  }

  lemma OrderedSchedule(s: Header)
    requires Ordered(s)
    ensures s.schedule != []
  {
  }

  lemma PendingKeepsOrder(h: Header, producers: seq<Account>)
    requires Ordered(h) && Required(producers) <= 255
    ensures Ordered(h.(pending := producers, pendingLib := h.num))
  {
  }

  // ----- who confirmed what -----

  predicate Vouches(p: Produced, b: nat) {
    p.num - p.confirmed <= b <= p.num
  }

  /** The producers that vouch for block `b`. */
  function Confirmers(hist: seq<Produced>, b: nat): set<Account> {
    if hist == [] then {}
    else
      var last := hist[|hist| - 1];
      Confirmers(hist[..|hist| - 1], b) + if Vouches(last, b) then {last.producer} else {}
  }

  lemma ConfirmersAdd(hist: seq<Produced>, p: Produced, b: nat)
    ensures Confirmers(hist + [p], b) == Confirmers(hist, b) + if Vouches(p, b) then {p.producer} else {}
  {
    assert (hist + [p])[..|hist|] == hist;
  }

  lemma {:induction false} ConfirmerVouched(hist: seq<Produced>, b: nat, who: Account) returns (i: nat)
    requires who in Confirmers(hist, b)
    ensures i < |hist| && hist[i].producer == who && Vouches(hist[i], b)
  {
    var k := |hist| - 1;
    if Vouches(hist[k], b) && hist[k].producer == who {
      i := k;
    } else {
      i := ConfirmerVouched(hist[..k], b, who);
    }
  }

  // ----- the books -----

  /** The blocks produced after block `base`, in order. */
  ghost predicate InTurn(base: nat, hist: seq<Produced>) {
    forall i :: 0 <= i < |hist| ==> hist[i].num == base + 1 + i
  }

  /** The confirmations that block `b` needs: more than two thirds of the schedule it was produced under. */
  function Needed(base: nat, hist: seq<Produced>, b: nat): nat
    requires base < b <= base + |hist|
  {
    Required(hist[b - base - 1].schedule)
  }

  /** The confirmers that block `b` has among those of `hist` and the confirmations it misses add up to what it
      needs by the list `all`. */
  ghost predicate Balanced(base: nat, all: seq<Produced>, hist: seq<Produced>, b: int, missing: nat) {
    b > base ==> b <= base + |all| && |Confirmers(hist, b)| + missing == Needed(base, all, b)
  }

  /** The books balance for every tracked block. */
  ghost predicate Tallied(base: nat, all: seq<Produced>, hist: seq<Produced>, counts: seq<nat>) {
    forall j :: 0 <= j < |counts| ==> BalancedAt(base, all, hist, counts, j)
  }

  ghost predicate BalancedAt(base: nat, all: seq<Produced>, hist: seq<Produced>, counts: seq<nat>, j: nat)
    requires j < |counts|
  {
    Balanced(base, all, hist, base + |all| - (|counts| - 1 - j), counts[j])
  }

  lemma NoneYet(base: nat, hist: seq<Produced>)
    requires InTurn(base, hist)
    ensures Confirmers(hist, base + |hist| + 1) == {}
  {
    var b := base + |hist| + 1;
    if who :| who in Confirmers(hist, b) {
      var i := ConfirmerVouched(hist, b, who);
    }
  }

  /** A producer's word counts once. */
  lemma WordAdds(hist: seq<Produced>, p: Produced, b: nat)
    ensures |Confirmers(hist + [p], b)| ==
            |Confirmers(hist, b)| + if Vouches(p, b) && p.producer !in Confirmers(hist, b) then 1 else 0
  {
    ConfirmersAdd(hist, p, b);
    var was := Confirmers(hist, b);
    assert p.producer in was ==> was + {p.producer} == was;
  }

  lemma {:induction false} VoucherConfirms(hist: seq<Produced>, i: nat, b: nat)
    requires i < |hist| && Vouches(hist[i], b)
    ensures hist[i].producer in Confirmers(hist, b)
  {
    if i < |hist| - 1 {
      VoucherConfirms(hist[..|hist| - 1], i, b);
    }
  }

  lemma BlockAdds(base: nat, hist: seq<Produced>, p: Produced, b: int, missing: nat)
    requires Balanced(base, hist, hist, b, missing)
    ensures Balanced(base, hist + [p], hist, b, missing)
  {
  }

  /** With a new block at the end, before its producer's word is counted. */
  lemma GrownTallied(base: nat, hist: seq<Produced>, p: Produced, confirms: seq<nat>)
    requires Tallied(base, hist, hist, confirms) && InTurn(base, hist) && Required(p.schedule) <= 255
    ensures Tallied(base, hist + [p], hist, Grown(confirms, Required(p.schedule)))
  {
    hide Confirmers, Required;
    var required := Required(p.schedule);
    var grown := Grown(confirms, required);
    var drop := |confirms| + 1 - |grown|;
    NoneYet(base, hist);
    forall j | 0 <= j < |grown| ensures BalancedAt(base, hist + [p], hist, grown, j) {
      if j < |grown| - 1 {
        assert grown[j] == confirms[j + drop] && BalancedAt(base, hist, hist, confirms, j + drop);
        BlockAdds(base, hist, p, base + |hist| - (|confirms| - 1 - (j + drop)), confirms[j + drop]);
      }
    }
  }

  /** Lowering the count of a block keeps the balance exactly when the producer's word is its first for the block. */
  lemma WordCounts(base: nat, hist: seq<Produced>, p: Produced, b: int, missing: nat, left: nat)
    requires Balanced(base, hist + [p], hist, b, missing) && b > base
    requires left == missing - (if p.num - p.confirmed <= b <= p.num then 1 else 0)
    ensures Balanced(base, hist + [p], hist + [p], b, left) <==>
            (Vouches(p, b) ==> p.producer !in Confirmers(hist, b))
  {
    hide Confirmers;
    WordAdds(hist, p, b);
  }

  /** No block whose count the countdown lowers has had this producer's word before. */
  ghost predicate FirstWord(base: nat, hist: seq<Produced>, p: Produced, grown: seq<nat>) {
    var hit := CountDown(grown, |grown| - 1, p.confirmed + 1).1;
    forall j :: 0 <= j < |grown| ==> FirstWordAt(base, hist, p, grown, hit, j)
  }

  ghost predicate FirstWordAt(base: nat, hist: seq<Produced>, p: Produced, grown: seq<nat>, hit: Option<nat>, j: nat) {
    var b := p.num - (|grown| - 1 - j);
    |grown| - 1 - j <= p.confirmed && (hit.Some? ==> j >= hit.value) && b > base ==> p.producer !in Confirmers(hist, b)
  }

  /** A count that the countdown keeps or stops at is balanced exactly when the word for it is a first one. */
  lemma CountedAt(base: nat, hist: seq<Produced>, p: Produced, grown: seq<nat>, j: nat)
    requires p.num == base + |hist| + 1 && j < |grown| && Tallied(base, hist + [p], hist, grown) && Counting(grown)
    ensures var (counted, hit) := CountDown(grown, |grown| - 1, p.confirmed + 1);
            && (hit.Some? ==> counted[hit.value] == 0)
            && (if hit.Some? && j < hit.value then FirstWordAt(base, hist, p, grown, hit, j)
                else BalancedAt(base, hist + [p], hist + [p], counted, j) <==>
                     FirstWordAt(base, hist, p, grown, hit, j))
  {
    hide CountDown, Counting, Confirmers, Needed;
    var (counted, hit) := CountDown(grown, |grown| - 1, p.confirmed + 1);
    CountDownAt(grown, |grown| - 1, p.confirmed + 1, j);
    var b := base + |hist + [p]| - (|grown| - 1 - j);
    assert BalancedAt(base, hist + [p], hist, grown, j);
    if b > base && !(hit.Some? && j < hit.value) {
      WordCounts(base, hist, p, b, grown[j], counted[j]);
    }
  }

  /** After the countdown the books balance, and the block it stopped at has all its confirmations, exactly when
      no producer's word was counted twice. */
  lemma CountedTallied(base: nat, hist: seq<Produced>, p: Produced, grown: seq<nat>)
    requires p.num == base + |hist| + 1
    requires Tallied(base, hist + [p], hist, grown) && grown != [] && Counting(grown)
    ensures var (counted, hit) := CountDown(grown, |grown| - 1, p.confirmed + 1);
            var now := hist + [p];
            && Tallied(base, now, now, if hit.Some? then counted[hit.value + 1..] else counted)
            && (hit.Some? ==> BalancedAt(base, now, now, counted, hit.value))
            <==> FirstWord(base, hist, p, grown)
  {
    hide BalancedAt, CountDown, Counting, Tallied, FirstWordAt;
    var now := hist + [p];
    var (counted, hit) := CountDown(grown, |grown| - 1, p.confirmed + 1);
    var from := if hit.Some? then hit.value + 1 else 0;
    TailTallied(base, now, counted, from);
    TailWhole(counted);
    WordsMatch(base, hist, p, grown, counted, hit, from);
  }

  lemma TailWhole(counted: seq<nat>)
    ensures counted[0..] == counted
  {
  }

  lemma WordsMatch(base: nat, hist: seq<Produced>, p: Produced, grown: seq<nat>, counted: seq<nat>, hit: Option<nat>,
                   from: nat)
    requires p.num == base + |hist| + 1 && (counted, hit) == CountDown(grown, |grown| - 1, p.confirmed + 1)
    requires Tallied(base, hist + [p], hist, grown) && Counting(grown) && |counted| == |grown|
    requires (hit.Some? ==> hit.value < |grown|) && from == (if hit.Some? then hit.value + 1 else 0)
    ensures (forall j :: from <= j < |counted| ==> BalancedAt(base, hist + [p], hist + [p], counted, j))
            && (hit.Some? ==> BalancedAt(base, hist + [p], hist + [p], counted, hit.value))
            <==> FirstWord(base, hist, p, grown)
  {
    hide BalancedAt, CountDown, Counting, Tallied, FirstWordAt;
    var now := hist + [p];
    if FirstWord(base, hist, p, grown) {
      forall j: nat | j < |counted| && (hit.Some? ==> j >= hit.value) ensures BalancedAt(base, now, now, counted, j) {
        CountedAt(base, hist, p, grown, j);
        assert FirstWordAt(base, hist, p, grown, hit, j);
      }
    } else {
      var j: nat :| j < |grown| && !FirstWordAt(base, hist, p, grown, hit, j);
      CountedAt(base, hist, p, grown, j);
      assert !BalancedAt(base, now, now, counted, j);
    }
  }

  lemma TailTallied(base: nat, now: seq<Produced>, counted: seq<nat>, from: nat)
    requires from <= |counted|
    ensures Tallied(base, now, now, counted[from..]) <==>
            forall j :: from <= j < |counted| ==> BalancedAt(base, now, now, counted, j)
  {
    hide Balanced;
    var rest := counted[from..];
    forall j | 0 <= j < |rest|
      ensures BalancedAt(base, now, now, rest, j) <==> BalancedAt(base, now, now, counted, from + j)
    {
      assert rest[j] == counted[from + j];
    }
    if Tallied(base, now, now, rest) {
      forall j | from <= j < |counted| ensures BalancedAt(base, now, now, counted, j) {
        assert BalancedAt(base, now, now, rest, j - from);
      }
    }
  }

  // ----- what a run accounts for -----

  /** A block after `base` with the word of a supermajority. */
  ghost predicate Backed(base: nat, hist: seq<Produced>, b: nat) {
    b > base ==> b <= base + |hist| && |Confirmers(hist, b)| >= Needed(base, hist, b)
  }

  ghost predicate AllBacked(base: nat, hist: seq<Produced>, m: FlatMap) {
    forall i :: 0 <= i < |m| ==> Backed(base, hist, m[i].num)
  }

  /** The last block of every producer that matters is on record; a producer that has left the schedule was last
      heard before the schedule now waiting was proposed. */
  ghost predicate OnRecord(s: Header, hist: seq<Produced>) {
    forall i :: 0 <= i < |hist| ==>
                var last := Find(s.lastProduced, hist[i].producer);
                && (last.Some? ==> hist[i].num <= last.value)
                && (last.None? ==> hist[i].producer !in s.schedule)
                && (last.None? && s.pending != [] ==> hist[i].num <= s.pendingLib)
  }

  /** An entry of a producer's last block: its own block, or a block no longer tracked. */
  ghost predicate Own(base: nat, hist: seq<Produced>, proposed: nat, e: Entry) {
    e.num <= base || e.num <= proposed || (e.num <= base + |hist| && hist[e.num - base - 1].producer == e.key)
  }

  ghost predicate AllOwn(base: nat, hist: seq<Produced>, proposed: nat, m: FlatMap) {
    forall i :: 0 <= i < |m| ==> Own(base, hist, proposed, m[i])
  }

  /** The header `s` that follows block `base` after the blocks of `hist` knows exactly who confirmed what. */
  ghost predicate Accounted(base: nat, s: Header, hist: seq<Produced>) {
    && s.num == base + |hist| && InTurn(base, hist)
    && OnRecord(s, hist) && AllOwn(base, hist, s.proposed, s.lastProduced)
    && Tallied(base, hist, hist, s.confirms)
    && Backed(base, hist, s.proposed) && Backed(base, hist, s.irreversible) && AllBacked(base, hist, s.impliedIrb)
  }

  lemma BackedGrows(base: nat, hist: seq<Produced>, p: Produced, b: nat)
    requires Backed(base, hist, b)
    ensures Backed(base, hist + [p], b)
  {
    ConfirmersAdd(hist, p, b);
    var was, now := Confirmers(hist, b), Confirmers(hist + [p], b);
    assert now == was + (now - was);
  }

  lemma {:induction false} PutBacked(base: nat, hist: seq<Produced>, m: FlatMap, key: Account, v: nat)
    requires AllBacked(base, hist, m) && Backed(base, hist, v)
    ensures AllBacked(base, hist, Put(m, key, v))
  {
    hide Backed;
    if m != [] && m[0].key != key {
      PutBacked(base, hist, m[1..], key, v);
    }
  }

  lemma {:induction false} FindBacked(base: nat, hist: seq<Produced>, m: FlatMap, key: Account)
    requires AllBacked(base, hist, m) && Find(m, key).Some?
    ensures Backed(base, hist, Find(m, key).value)
  {
    hide Backed;
    if m[0].key != key {
      FindBacked(base, hist, m[1..], key);
    }
  }

  lemma {:induction false} CarriedBacked(base: nat, hist: seq<Produced>, schedule: seq<Account>, m: FlatMap,
                                         producer: Account, proposed: nat, lib: nat)
    requires AllBacked(base, hist, m) && Backed(base, hist, proposed) && Backed(base, hist, lib)
    ensures AllBacked(base, hist, Carried(schedule, m, producer, proposed, lib))
  {
    hide Backed;
    if schedule != [] {
      var q, rest := schedule[|schedule| - 1], schedule[..|schedule| - 1];
      CarriedBacked(base, hist, rest, m, producer, proposed, lib);
      if Find(m, q).Some? {
        FindBacked(base, hist, m, q);
      }
      PutBacked(base, hist, Carried(rest, m, producer, proposed, lib), q,
                if q == producer then proposed else if Find(m, q).Some? then Find(m, q).value else lib);
    }
  }

  lemma {:induction false} NthIn(vs: seq<nat>, k: nat)
    requires k < |vs|
    ensures Nth(vs, k) in vs
    decreases |vs|
  {
    var low, high := Below(vs, vs[0]), Above(vs, vs[0]);
    PartsShrink(vs, vs[0]);
    PartsIn(vs, vs[0], Nth(vs, k));
    if k < |low| {
      NthIn(low, k);
    } else if k >= |vs| - |high| {
      NthIn(high, k - (|vs| - |high|));
    }
  }

  lemma {:induction false} PartsIn(vs: seq<nat>, x: nat, v: nat)
    ensures v in Below(vs, x) || v in Above(vs, x) ==> v in vs
  {
    if vs != [] {
      PartsIn(vs[1..], x, v);
    }
  }

  lemma {:induction false} ImpliedFrom(m: FlatMap, producer: Account, proposed: nat, v: nat)
    requires v in Implied(m, producer, proposed)
    ensures v == proposed || exists i :: 0 <= i < |m| && m[i].num == v
  {
    if v != (if m[0].key == producer then proposed else m[0].num) {
      ImpliedFrom(m[1..], producer, proposed, v);
    }
  }

  lemma IrreversibleBacked(base: nat, hist: seq<Produced>, m: FlatMap, producer: Account, proposed: nat)
    requires AllBacked(base, hist, m) && Backed(base, hist, proposed)
    ensures Backed(base, hist, CalcIrreversible(m, producer, proposed))
  {
    hide Nth, Confirmers;
    var vs := Implied(m, producer, proposed);
    if vs != [] {
      NthIn(vs, (|vs| - 1) / 3);
      ImpliedFrom(m, producer, proposed, Nth(vs, (|vs| - 1) / 3));
    }
  }

  // ----- the double-confirmation check -----

  /** The double-confirmation check lets a block through exactly when its producer's last block comes before all
      those it now confirms, or when it claims to confirm more blocks than there are. */
  lemma DoubleConfirmGuard(s: Header, reps: nat, when: nat, n: nat)
    requires Ordered(s) && reps > 0 && n < 0x1_0000 && (when == 0 || when > s.slot)
    requires s.num + 1 < 0x1_0000_0000
    ensures var slot := if when != 0 then when else s.slot + 1;
            var last := Find(s.lastProduced, ScheduledProducer(s.schedule, reps, slot));
            NextHeader(s, reps, when, n).Next? <==> last.None? || last.value + n < s.num + 1 || n > s.num + 1
  {
    hide CountDown, Grown, Put, Carried, CalcIrreversible, ScheduledProducer, Find;
    var producer := ScheduledProducer(s.schedule, reps, if when != 0 then when else s.slot + 1);
    if Find(s.lastProduced, producer).Some? {
      FindAtMost(s.lastProduced, producer, s.num);
    }
    assert n > s.num + 1 ==> (s.num + 1 - n) % UINT32 == s.num + 1 - n + UINT32;
  }

  // ----- counting twice -----

  /** The block counts its producer's word a second time: it claims more blocks than there are, the producer's last
      block is still tracked, and the countdown gets down to it. */
  predicate Overcounts(base: nat, s: Header, reps: nat, when: nat, n: nat)
    requires s.schedule != [] && reps > 0
  {
    var last := Find(s.lastProduced, Turn(s, reps, when));
    var grown := Grown(s.confirms, Required(s.schedule));
    && n > s.num + 1 && last.Some? && last.value > base && s.num + 1 - last.value < |grown|
    && forall j :: 0 <= j < |grown| && j > |grown| - 1 - (s.num + 1 - last.value) ==> grown[j] > 1
  }

  /** The countdown does not get past a count of one. */
  lemma StopsAtOne(grown: seq<nat>, todo: nat, j: nat)
    requires Counting(grown) && j < |grown| && grown[j] == 1 && |grown| - 1 - todo < j
    ensures CountDown(grown, |grown| - 1, todo).1.Some? && CountDown(grown, |grown| - 1, todo).1.value >= j
  {
    hide CountDown;
    CountDownAt(grown, |grown| - 1, todo, j);
  }

  /** ... and stops nowhere else. */
  lemma StopsOnlyAtOne(grown: seq<nat>, todo: nat)
    requires Counting(grown) && grown != [] && CountDown(grown, |grown| - 1, todo).1.Some?
    ensures grown[CountDown(grown, |grown| - 1, todo).1.value] == 1
  {
    hide CountDown;
    CountDownAt(grown, |grown| - 1, todo, CountDown(grown, |grown| - 1, todo).1.value);
  }

  /** A producer's word is on record up to its last block. */
  lemma WordOnRecord(base: nat, s: Header, hist: seq<Produced>, who: Account, b: nat)
    requires OnRecord(s, hist) && who in s.schedule && who in Confirmers(hist, b)
    ensures Find(s.lastProduced, who).Some? && b <= Find(s.lastProduced, who).value
  {
    var i := ConfirmerVouched(hist, b, who);
  }

  /** What the double-confirmation check has let through. */
  lemma GuardPassed(s: Header, reps: nat, when: nat, n: nat)
    requires s.schedule != [] && reps > 0 && s.num + 1 < 0x1_0000_0000 && NextHeader(s, reps, when, n).Next?
    ensures var last := Find(s.lastProduced, Turn(s, reps, when));
            last.Some? && n <= s.num + 1 ==> last.value < s.num + 1 - n
  {
    hide CountDown, Grown, Put, Carried, CalcIrreversible, ScheduledProducer, Find;
    if n <= s.num + 1 {
      Bits.SmallMod(s.num + 1 - n, UINT32);
    }
  }

  /** A claim beyond the first block that does not count twice stops after the producer's last block. */
  lemma StopsInTime(base: nat, s: Header, reps: nat, when: nat, n: nat, grown: seq<nat>)
    requires s.schedule != [] && reps > 0 && n > s.num + 1 && !Overcounts(base, s, reps, when, n)
    requires grown == Grown(s.confirms, Required(s.schedule)) && Counting(grown) && |grown| <= s.num + 2
    ensures var last := Find(s.lastProduced, Turn(s, reps, when));
            var hit := CountDown(grown, |grown| - 1, n + 1).1;
            last.Some? && base < last.value <= s.num && s.num + 1 - last.value < |grown| ==>
            hit.Some? && hit.value > |grown| - 1 - (s.num + 1 - last.value)
  {
    hide CountDown, Grown, Find, ScheduledProducer, Required;
    var last := Find(s.lastProduced, Turn(s, reps, when));
    if last.Some? && base < last.value <= s.num && s.num + 1 - last.value < |grown| {
      var j :| 0 <= j < |grown| && j > |grown| - 1 - (s.num + 1 - last.value) && grown[j] <= 1;
      StopsAtOne(grown, n + 1, j);
    }
  }

  lemma NotOvercounted(base: nat, s: Header, reps: nat, when: nat, n: nat, hist: seq<Produced>, p: Produced, j: nat)
    requires Ordered(s) && Accounted(base, s, hist) && reps > 0 && s.num + 1 < 0x1_0000_0000
    requires NextHeader(s, reps, when, n).Next? && !Overcounts(base, s, reps, when, n)
    requires p.num == s.num + 1 && p.confirmed == n && p.producer == Turn(s, reps, when)
    requires j < |Grown(s.confirms, Required(s.schedule))|
    ensures var grown := Grown(s.confirms, Required(s.schedule));
            FirstWordAt(base, hist, p, grown, CountDown(grown, |grown| - 1, n + 1).1, j)
  {
    hide NextHeader, CountDown, Grown, ScheduledProducer, Find, OnRecord, Tallied, Confirmers, AllOwn,
      Backed, AllBacked, InTurn, Counting, Overcounts, Required;
    var grown := Grown(s.confirms, Required(s.schedule));
    GrownCounts(s.confirms, Required(s.schedule));
    TurnScheduled(s, reps, when);
    GuardPassed(s, reps, when, n);
    if n > s.num + 1 {
      StopsInTime(base, s, reps, when, n, grown);
    }
    var b := p.num - (|grown| - 1 - j);
    if b > base && p.producer in Confirmers(hist, b) {
      WordOnRecord(base, s, hist, p.producer, b);
      FindAtMost(s.lastProduced, p.producer, s.num);
    }
  }

  lemma TurnScheduled(s: Header, reps: nat, when: nat)
    requires s.schedule != [] && reps > 0
    ensures Turn(s, reps, when) in s.schedule
  {
    hide Position;
  }

  /** A block that counts twice does so at the producer's last block. */
  lemma Overcounted(base: nat, s: Header, reps: nat, when: nat, n: nat, hist: seq<Produced>, p: Produced)
    requires Ordered(s) && Accounted(base, s, hist) && reps > 0 && Overcounts(base, s, reps, when, n)
    requires p.num == s.num + 1 && p.confirmed == n && p.producer == Turn(s, reps, when)
    ensures !FirstWord(base, hist, p, Grown(s.confirms, Required(s.schedule)))
  {
    hide CountDown, Grown, ScheduledProducer, Find, OnRecord, Tallied, Confirmers, Backed, AllBacked, Counting,
      Required, AllOwn;
    var grown := Grown(s.confirms, Required(s.schedule));
    GrownCounts(s.confirms, Required(s.schedule));
    var last := Find(s.lastProduced, p.producer).value;
    FindAtMost(s.lastProduced, p.producer, s.num);
    var at := |grown| - 1 - (s.num + 1 - last);
    FindOwn(base, hist, s.proposed, s.lastProduced, p.producer);
    VoucherConfirms(hist, last - base - 1, last);
    if CountDown(grown, |grown| - 1, n + 1).1.Some? {
      StopsOnlyAtOne(grown, n + 1);
    }
    assert !FirstWordAt(base, hist, p, grown, CountDown(grown, |grown| - 1, n + 1).1, at);
  }

  lemma {:induction false} FindOwn(base: nat, hist: seq<Produced>, proposed: nat, m: FlatMap, key: Account)
    requires AllOwn(base, hist, proposed, m) && Find(m, key).Some?
    ensures Own(base, hist, proposed, Entry(key, Find(m, key).value))
  {
    hide Own;
    if m[0].key != key {
      FindOwn(base, hist, proposed, m[1..], key);
    }
  }

  lemma {:induction false} PutOwn(base: nat, hist: seq<Produced>, proposed: nat, m: FlatMap, key: Account, num: nat)
    requires AllOwn(base, hist, proposed, m) && Own(base, hist, proposed, Entry(key, num))
    ensures AllOwn(base, hist, proposed, Put(m, key, num))
  {
    hide Own;
    if m != [] && m[0].key != key {
      PutOwn(base, hist, proposed, m[1..], key, num);
    }
  }

  lemma {:induction false} CarriedOwn(base: nat, hist: seq<Produced>, proposed: nat, schedule: seq<Account>, m: FlatMap,
                                      producer: Account, num: nat, lib: nat)
    requires AllOwn(base, hist, proposed, m) && Own(base, hist, proposed, Entry(producer, num)) && lib <= proposed
    ensures AllOwn(base, hist, proposed, Carried(schedule, m, producer, num, lib))
  {
    hide AllOwn;
    if schedule == [] {
      NothingOwned(base, hist, proposed);
    } else {
      var q, rest := schedule[|schedule| - 1], schedule[..|schedule| - 1];
      CarriedOwn(base, hist, proposed, rest, m, producer, num, lib);
      if Find(m, q).Some? {
        FindOwn(base, hist, proposed, m, q);
      }
      PutOwn(base, hist, proposed, Carried(rest, m, producer, num, lib), q,
             if q == producer then num else if Find(m, q).Some? then Find(m, q).value else lib);
    }
  }

  lemma NothingOwned(base: nat, hist: seq<Produced>, proposed: nat)
    ensures AllOwn(base, hist, proposed, [])
  {
  }

  lemma OwnKept(base: nat, s: Header, p: Produced, hist: seq<Produced>, proposed: nat, lib: nat)
    requires AllOwn(base, hist, s.proposed, s.lastProduced) && proposed >= s.proposed && lib <= s.proposed
    requires p.num == base + |hist| + 1
    ensures AllOwn(base, hist + [p], proposed, Put(s.lastProduced, p.producer, p.num))
    ensures AllOwn(base, hist + [p], proposed,
                   Put(Carried(s.pending, s.lastProduced, p.producer, p.num, lib), p.producer, p.num))
  {
    hide Put, Carried;
    var now := hist + [p];
    assert AllOwn(base, now, proposed, s.lastProduced);
    assert Own(base, now, proposed, Entry(p.producer, p.num));
    PutOwn(base, now, proposed, s.lastProduced, p.producer, p.num);
    CarriedOwn(base, now, proposed, s.pending, s.lastProduced, p.producer, p.num, lib);
    PutOwn(base, now, proposed, Carried(s.pending, s.lastProduced, p.producer, p.num, lib), p.producer, p.num);
  }

  // ----- one block -----

  /** The books of the next header balance exactly when the block counts no word twice. */
  lemma StepBooks(base: nat, s: Header, p: Produced, hist: seq<Produced>)
    requires Ordered(s) && Accounted(base, s, hist) && s.num + 1 < 0x1_0000_0000
    requires p.num == s.num + 1 && p.schedule == s.schedule
    ensures var grown := Grown(s.confirms, Required(s.schedule));
            var (counted, hit) := CountDown(grown, |grown| - 1, p.confirmed + 1);
            var proposed := if hit.Some? then (p.num - (|grown| - 1 - hit.value)) % UINT32 else s.proposed;
            && Tallied(base, hist + [p], hist + [p], if hit.Some? then counted[hit.value + 1..] else counted)
            && Backed(base, hist + [p], proposed)
            <==> FirstWord(base, hist, p, grown)
  {
    hide Confirmers, CountDown, Grown, OnRecord, AllBacked, Needed, Tallied, InTurn, FirstWord, AllOwn, Required,
      Backed, BalancedAt, Counting;
    var grown := Grown(s.confirms, Required(s.schedule));
    var (counted, hit) := CountDown(grown, |grown| - 1, p.confirmed + 1);
    GrownCounts(s.confirms, Required(s.schedule));
    GrownTallied(base, hist, p, s.confirms);
    CountedTallied(base, hist, p, grown);
    BackedGrows(base, hist, p, s.proposed);
    if hit.Some? {
      var b := p.num - (|grown| - 1 - hit.value);
      Bits.SmallMod(b, UINT32);
      StopBacked(base, s, p, hist, grown, b);
    }
  }

  /** The block at which the countdown stops has its supermajority exactly when it misses nothing. */
  lemma StopBacked(base: nat, s: Header, p: Produced, hist: seq<Produced>, grown: seq<nat>, b: nat)
    requires grown != [] && Counting(grown) && Tallied(base, hist + [p], hist, grown) && p.num == base + |hist| + 1
    requires CountDown(grown, |grown| - 1, p.confirmed + 1).1.Some?
    requires b == p.num - (|grown| - 1 - CountDown(grown, |grown| - 1, p.confirmed + 1).1.value)
    ensures var (counted, hit) := CountDown(grown, |grown| - 1, p.confirmed + 1);
            Backed(base, hist + [p], b) <==> BalancedAt(base, hist + [p], hist + [p], counted, hit.value)
  {
    hide CountDown, Confirmers, Needed;
    CountedAt(base, hist, p, grown, CountDown(grown, |grown| - 1, p.confirmed + 1).1.value);
    var j := CountDown(grown, |grown| - 1, p.confirmed + 1).1.value;
    StopsOnlyAtOne(grown, p.confirmed + 1);
    assert BalancedAt(base, hist + [p], hist, grown, j);
    if b > base {
      WordAdds(hist, p, b);
    }
  }

  /** Without a change of schedule the record gets one entry. */
  lemma RecordKept(s: Header, h: Header, p: Produced, hist: seq<Produced>)
    requires OnRecord(s, hist) && h.schedule == s.schedule && h.pending == s.pending && h.pendingLib == s.pendingLib
    requires h.lastProduced == Put(s.lastProduced, p.producer, p.num)
    requires forall i :: 0 <= i < |hist| ==> hist[i].num <= p.num
    ensures OnRecord(h, hist + [p])
  {
    hide Find, Put;
    PutFinds(s.lastProduced, p.producer, p.num);
  }

  /** A new schedule keeps every record that still matters: a producer that comes back was last heard before the
      block that is now irreversible. */
  lemma RecordCarried(s: Header, h: Header, p: Produced, hist: seq<Produced>, lib: nat)
    requires OnRecord(s, hist) && s.pending != [] && lib >= s.pendingLib && h.schedule == s.pending && h.pending == []
    requires h.lastProduced == Put(Carried(s.pending, s.lastProduced, p.producer, p.num, lib), p.producer, p.num)
    requires forall i :: 0 <= i < |hist| ==> hist[i].num <= p.num
    ensures OnRecord(h, hist + [p])
  {
    hide Find, Put, Carried;
    var now := hist + [p];
    PutFinds(Carried(s.pending, s.lastProduced, p.producer, p.num, lib), p.producer, p.num);
    forall i | 0 <= i < |now|
      ensures var last := Find(h.lastProduced, now[i].producer);
              (last.Some? ==> now[i].num <= last.value) && (last.None? ==> now[i].producer !in h.schedule)
    {
      CarriedFind(s.pending, s.lastProduced, p.producer, p.num, lib, now[i].producer);
      CarriedOnly(s.pending, s.lastProduced, p.producer, p.num, lib, now[i].producer);
    }
  }

  lemma TurnAdds(base: nat, hist: seq<Produced>, p: Produced)
    requires InTurn(base, hist) && p.num == base + |hist| + 1
    ensures InTurn(base, hist + [p]) && forall i :: 0 <= i < |hist| ==> hist[i].num <= p.num
  {
  }

  lemma ImpliedBacked(base: nat, s: Header, p: Produced, hist: seq<Produced>, lib: nat)
    requires AllBacked(base, hist, s.impliedIrb) && Backed(base, hist, s.proposed) && Backed(base, hist, lib)
    ensures AllBacked(base, hist + [p], Put(s.impliedIrb, p.producer, s.proposed))
    ensures AllBacked(base, hist + [p], Carried(s.pending, s.impliedIrb, p.producer, s.proposed, lib))
    ensures Backed(base, hist + [p], lib)
  {
    hide Backed, Put, Carried;
    PutBacked(base, hist, s.impliedIrb, p.producer, s.proposed);
    CarriedBacked(base, hist, s.pending, s.impliedIrb, p.producer, s.proposed, lib);
    AllBackedGrows(base, hist, p, Put(s.impliedIrb, p.producer, s.proposed));
    AllBackedGrows(base, hist, p, Carried(s.pending, s.impliedIrb, p.producer, s.proposed, lib));
    BackedGrows(base, hist, p, lib);
  }

  lemma AllBackedGrows(base: nat, hist: seq<Produced>, p: Produced, m: FlatMap)
    requires AllBacked(base, hist, m)
    ensures AllBacked(base, hist + [p], m)
  {
    hide Backed;
    forall i | 0 <= i < |m| ensures Backed(base, hist + [p], m[i].num) {
      BackedGrows(base, hist, p, m[i].num);
    }
  }

  /** Every accepted block keeps the account, whether or not a new schedule becomes active with it, exactly when
      it does not count its producer's word a second time. */
  lemma StepAccounted(base: nat, s: Header, reps: nat, when: nat, n: nat, hist: seq<Produced>)
    requires Ordered(s) && Accounted(base, s, hist) && reps > 0 && s.num + 1 < 0x1_0000_0000
    requires NextHeader(s, reps, when, n).Next?
    ensures var Next(h, promoted) := NextHeader(s, reps, when, n);
            Accounted(base, h, hist + [Entered(s, reps, h, n, promoted)]) <==> !Overcounts(base, s, reps, when, n)
  {
    hide CountDown, Grown, Put, Carried, CalcIrreversible, ScheduledProducer, Find, Tallied, Backed, AllBacked,
      OnRecord, InTurn, FirstWord, FirstWordAt, Overcounts, AllOwn;
    var Next(h, promoted) := NextHeader(s, reps, when, n);
    var p := Entered(s, reps, h, n, promoted);
    var lib := NextIrreversible(s, reps, when);
    OnceExactly(base, s, reps, when, n, hist, p);
    StepBooks(base, s, p, hist);
    StepRecords(base, s, reps, when, n, hist, p, lib);
  }

  /** The countdown lowers only counts of blocks that have not had the producer's word exactly when the header
      before says so. */
  lemma OnceExactly(base: nat, s: Header, reps: nat, when: nat, n: nat, hist: seq<Produced>, p: Produced)
    requires Ordered(s) && Accounted(base, s, hist) && reps > 0 && s.num + 1 < 0x1_0000_0000
    requires NextHeader(s, reps, when, n).Next?
    requires p.num == s.num + 1 && p.confirmed == n && p.producer == Turn(s, reps, when)
    ensures FirstWord(base, hist, p, Grown(s.confirms, Required(s.schedule))) <==> !Overcounts(base, s, reps, when, n)
  {
    hide NextHeader, CountDown, Grown, ScheduledProducer, Accounted, FirstWordAt, Overcounts, Required;
    var grown := Grown(s.confirms, Required(s.schedule));
    var hit := CountDown(grown, |grown| - 1, p.confirmed + 1).1;
    if Overcounts(base, s, reps, when, n) {
      Overcounted(base, s, reps, when, n, hist, p);
    } else {
      forall j: nat | j < |grown| ensures FirstWordAt(base, hist, p, grown, hit, j) {
        NotOvercounted(base, s, reps, when, n, hist, p, j);
      }
    }
  }

  /** Everything but the books is kept by every block. */
  lemma StepRecords(base: nat, s: Header, reps: nat, when: nat, n: nat, hist: seq<Produced>, p: Produced, lib: nat)
    requires Ordered(s) && Accounted(base, s, hist) && reps > 0 && s.num + 1 < 0x1_0000_0000
    requires NextHeader(s, reps, when, n).Next? && lib == NextIrreversible(s, reps, when)
    requires p.num == s.num + 1 && p.producer == Turn(s, reps, when)
    ensures var h, now := NextHeader(s, reps, when, n).header, hist + [p];
            && InTurn(base, now) && OnRecord(h, now) && AllOwn(base, now, h.proposed, h.lastProduced)
            && Backed(base, now, h.irreversible) && AllBacked(base, now, h.impliedIrb)
  {
    hide CountDown, Grown, Put, Carried, CalcIrreversible, ScheduledProducer, Find, Tallied, Backed, AllBacked,
      OnRecord, InTurn, AllOwn, Counting;
    var Next(h, promoted) := NextHeader(s, reps, when, n);
    NextKeepsOrder(s, reps, when, n);
    IrreversibleAtMost(s.impliedIrb, p.producer, s.proposed);
    IrreversibleBacked(base, hist, s.impliedIrb, p.producer, s.proposed);
    ImpliedBacked(base, s, p, hist, lib);
    OwnKept(base, s, p, hist, h.proposed, lib);
    TurnAdds(base, hist, p);
    if promoted {
      RecordCarried(s, h, p, hist, lib);
    } else {
      RecordKept(s, h, p, hist);
    }
  }

  // ----- safety over whole runs -----

  /** Some block of a run counts its producer's word a second time. */
  ghost predicate CountsTwice(base: Header, reps: nat, blocks: seq<Block>)
    requires reps > 0
  {
    exists k :: 0 <= k < |blocks| && TwiceAt(base, reps, blocks, k)
  }

  ghost predicate TwiceAt(base: Header, reps: nat, blocks: seq<Block>, k: nat)
    requires reps > 0 && k < |blocks|
  {
    var before := Chain(base, reps, blocks[..k]);
    before.Some? && before.value.0.schedule != [] &&
    Overcounts(base.num, before.value.0, reps, blocks[k].when, blocks[k].n)
  }

  /** The account after the first `k` blocks of a run. */
  ghost predicate AccountedAt(base: Header, reps: nat, blocks: seq<Block>, k: nat)
    requires reps > 0 && k <= |blocks|
  {
    var after := Chain(base, reps, blocks[..k]);
    after.Some? && Accounted(base.num, after.value.0, after.value.1)
  }

  lemma InBoundsPrefix(base: Header, reps: nat, blocks: seq<Block>, k: nat)
    requires InBounds(base, reps, blocks) && k <= |blocks|
    ensures InBounds(base, reps, blocks[..k])
  {
    hide Chain, Ordered, Required;
    ChainPrefix(base, reps, blocks, k);
  }

  /** As long as the account holds, the next block keeps it exactly when it counts no word twice. */
  lemma NextAccounted(base: Header, reps: nat, blocks: seq<Block>, k: nat)
    requires InBounds(base, reps, blocks) && k < |blocks| && AccountedAt(base, reps, blocks, k)
    ensures AccountedAt(base, reps, blocks, k + 1) <==> !TwiceAt(base, reps, blocks, k)
  {
    hide Chain, NextHeader, Ordered, Accounted, Overcounts, Required;
    ChainStep(base, reps, blocks, k);
    InBoundsPrefix(base, reps, blocks, k);
    EveryChainOrdered(base, reps, blocks[..k]);
    var (s, hist) := Chain(base, reps, blocks[..k]).value;
    StepAccounted(base.num, s, reps, blocks[k].when, blocks[k].n, hist);
    if blocks[k].newProducers.Some? {
      ProposalOnly(s, reps, blocks[k]);
      PendingAccounted(base.num, NextHeader(s, reps, blocks[k].when, blocks[k].n).header,
                       Chain(base, reps, blocks[..k + 1]).value.1, blocks[k].newProducers.value);
    }
  }

  /** A block that proposes a schedule differs from one that does not only in what waits. */
  lemma ProposalOnly(s: Header, reps: nat, b: Block)
    requires s.schedule != [] && reps > 0 && b.newProducers.Some? && Extend(s, reps, b.when, b.n, b.newProducers).Next?
    ensures NextHeader(s, reps, b.when, b.n).Next? && !NextHeader(s, reps, b.when, b.n).promoted
    ensures var h := NextHeader(s, reps, b.when, b.n).header;
            && h.pending == [] && h.impliedIrb != []
            && Extend(s, reps, b.when, b.n, b.newProducers)
               == Next(h.(pending := b.newProducers.value, pendingLib := h.num), false)
  {
    hide CountDown, Grown, Carried, CalcIrreversible, Find, ScheduledProducer;
  }

  lemma StartAccounted(base: Header)
    requires Ordered(base)
    ensures Accounted(base.num, base, [])
  {
  }

  lemma PendingAccounted(base: nat, h: Header, hist: seq<Produced>, producers: seq<Account>)
    requires h.pending == []
    ensures Accounted(base, h, hist) <==> Accounted(base, h.(pending := producers, pendingLib := h.num), hist)
  {
    hide Tallied, Backed, AllBacked, AllOwn;
  }

  lemma {:induction false} AccountedUpTo(base: Header, reps: nat, blocks: seq<Block>, k: nat)
    requires InBounds(base, reps, blocks) && k <= |blocks|
    requires forall i :: 0 <= i < k ==> !TwiceAt(base, reps, blocks, i)
    ensures AccountedAt(base, reps, blocks, k)
  {
    hide TwiceAt, Accounted;
    if k == 0 {
      assert blocks[..0] == [];
      StartAccounted(base);
    } else {
      AccountedUpTo(base, reps, blocks, k - 1);
      NextAccounted(base, reps, blocks, k - 1);
    }
  }

  /** The account holds after every block of a run exactly when no block counts its producer's word twice. */
  lemma RunAccounted(base: Header, reps: nat, blocks: seq<Block>)
    requires InBounds(base, reps, blocks)
    ensures (forall k :: 0 <= k <= |blocks| ==> AccountedAt(base, reps, blocks, k))
            <==> !CountsTwice(base, reps, blocks)
  {
    hide TwiceAt, AccountedAt, Chain, Ordered;
    if !CountsTwice(base, reps, blocks) {
      forall k | 0 <= k <= |blocks| ensures AccountedAt(base, reps, blocks, k) {
        AccountedUpTo(base, reps, blocks, k);
      }
    } else {
      var k :| 0 <= k < |blocks| && TwiceAt(base, reps, blocks, k);
      if AccountedAt(base, reps, blocks, k) {
        NextAccounted(base, reps, blocks, k);
      }
    }
  }

  /** Blocks that claim no more blocks than there are never count a word twice. */
  lemma SizedCountsOnce(base: Header, reps: nat, blocks: seq<Block>)
    requires InBounds(base, reps, blocks) && forall i :: 0 <= i < |blocks| ==> blocks[i].n <= base.num + i + 1
    ensures !CountsTwice(base, reps, blocks)
  {
    hide Chain, Ordered, Grown, Find, ScheduledProducer, Required;
    forall k | 0 <= k < |blocks| ensures !TwiceAt(base, reps, blocks, k) {
      InBoundsPrefix(base, reps, blocks, k);
      EveryChainOrdered(base, reps, blocks[..k]);
    }
  }

  /** Every block that becomes proposed or irreversible in a run, across any changes of schedule, has the word of
      more than two thirds as many different producers as it had in its schedule; and every block still tracked
      lacks exactly as many as its count says. */
  lemma SupermajorityConfirmed(base: Header, reps: nat, blocks: seq<Block>)
    requires InBounds(base, reps, blocks) && !CountsTwice(base, reps, blocks)
    ensures var (h, hist) := Chain(base, reps, blocks).value;
            && |hist| == |blocks| && InTurn(base.num, hist) && Tallied(base.num, hist, hist, h.confirms)
            && forall b :: (b == h.proposed || b == h.irreversible) && b > base.num ==>
                           && b <= base.num + |hist|
                           && |Confirmers(hist, b)| >= Required(hist[b - base.num - 1].schedule)
                           && 3 * |Confirmers(hist, b)| > 2 * |hist[b - base.num - 1].schedule|
  {
    hide Chain, Ordered, Tallied, Confirmers, Required, CountsTwice, InTurn;
    EveryChainOrdered(base, reps, blocks);
    RunAccounted(base, reps, blocks);
    assert AccountedAt(base, reps, blocks, |blocks|) && blocks[..|blocks|] == blocks;
  }

  /** Over every run no count is given up before its block is proposed or 1024 blocks old. */
  lemma {:induction false} EveryChainTracks(s: Header, reps: nat, blocks: seq<Block>)
    requires InBounds(s, reps, blocks)
    ensures var h := Chain(s, reps, blocks).value.0;
            Tracks(s.num, h) && (|h.confirms| <= 1024 || |h.confirms| <= |s.confirms|)
  {
    hide NextHeader, Ordered, Tracks;
    if blocks == [] {
      TracksItself(s);
    } else {
      var k := |blocks| - 1;
      InBoundsPrefix(s, reps, blocks, k);
      EveryChainTracks(s, reps, blocks[..k]);
      EveryChainOrdered(s, reps, blocks[..k]);
      var h := Chain(s, reps, blocks[..k]).value.0;
      NextTracks(s.num, h, reps, blocks[k].when, blocks[k].n);
      var next := NextHeader(h, reps, blocks[k].when, blocks[k].n).header;
      if blocks[k].newProducers.Some? {
        PendingTracks(s.num, next, blocks[k].newProducers.value);
      }
    }
  }

  lemma TracksItself(s: Header)
    ensures Tracks(s.num, s)
  {
  }

  lemma PendingTracks(base: nat, h: Header, producers: seq<Account>)
    requires Tracks(base, h)
    ensures Tracks(base, h.(pending := producers, pendingLib := h.num))
  {
  }

  /** Conversely, of the last 1024 blocks none after the proposed one has the word of a supermajority: a block of
      the run becomes proposed as soon as enough different producers have vouched for it. */
  lemma SupermajorityProposed(base: Header, reps: nat, blocks: seq<Block>, b: nat)
    requires InBounds(base, reps, blocks) && !CountsTwice(base, reps, blocks)
    requires base.num < b <= base.num + |blocks| < b + 1024
    ensures var (h, hist) := Chain(base, reps, blocks).value;
            && |hist| == |blocks|
            && (3 * |Confirmers(hist, b)| > 2 * |hist[b - base.num - 1].schedule| ==> b <= h.proposed)
  {
    hide Chain, Tallied, Confirmers, Required, CountsTwice, InTurn;
    SupermajorityConfirmed(base, reps, blocks);
    EveryChainOrdered(base, reps, blocks);
    EveryChainTracks(base, reps, blocks);
    var (h, hist) := Chain(base, reps, blocks).value;
    if b > h.proposed {
      StillMissing(base.num, hist, h.confirms, b);
    }
  }

  /** A tracked block lacks the word of a supermajority. */
  lemma StillMissing(base: nat, hist: seq<Produced>, counts: seq<nat>, b: nat)
    requires Tallied(base, hist, hist, counts) && Counting(counts)
    requires base < b <= base + |hist| < b + |counts|
    ensures 3 * |Confirmers(hist, b)| <= 2 * |hist[b - base - 1].schedule|
  {
    hide Confirmers;
    var j := |counts| - 1 - (base + |hist| - b);
    assert BalancedAt(base, hist, hist, counts, j) && counts[j] >= 1;
  }

  // ----- safety of forks -----

  /** The producers of the schedule in force and of the one that waits. */
  function Electorate(base: Header): set<Account> {
    Members(base.schedule) + Members(base.pending)
  }

  /** Before a new block is irreversible, only the schedule in force and the one that waits can be active. */
  ghost predicate EarlySchedules(base: Header, h: Header, hist: seq<Produced>) {
    && (forall i :: 0 <= i < |hist| ==> hist[i].producer in hist[i].schedule && Early(base, hist[i].schedule))
    && (h.irreversible <= base.num ==>
          && Early(base, h.schedule)
          && (h.pending != [] ==>
                h.pendingLib > base.num || (h.pending == base.pending && h.schedule == base.schedule)))
  }

  ghost predicate Early(base: Header, schedule: seq<Account>) {
    schedule == base.schedule || (base.pending != [] && schedule == base.pending)
  }

  lemma EarlyStep(base: Header, s: Header, hist: seq<Produced>, reps: nat, b: Block)
    requires Ordered(s) && reps > 0 && s.num + 1 < 0x1_0000_0000 && s.num >= base.num
    requires EarlySchedules(base, s, hist) && s.irreversible <= base.num
    requires Extend(s, reps, b.when, b.n, b.newProducers).Next?
    ensures var Next(h, promoted) := Extend(s, reps, b.when, b.n, b.newProducers);
            EarlySchedules(base, h, hist + [Entered(s, reps, h, b.n, promoted)])
  {
    hide Extend, ScheduledProducer, Counting, AtMostAll;
    var Next(h, promoted) := Extend(s, reps, b.when, b.n, b.newProducers);
    ExtendFields(s, reps, b);
    ActivatesInTime(s, reps, b.when, b.n, b.newProducers);
  }

  lemma ExtendFields(s: Header, reps: nat, b: Block)
    requires Ordered(s) && reps > 0 && Extend(s, reps, b.when, b.n, b.newProducers).Next?
    ensures var Next(h, promoted) := Extend(s, reps, b.when, b.n, b.newProducers);
            && h.num == s.num + 1
            && h.pendingLib == (if b.newProducers.Some? then h.num else s.pendingLib)
            && ScheduledProducer(s.schedule, reps, h.slot) in s.schedule
  {
    hide CountDown, Grown, Put, Carried, CalcIrreversible, Find, Position, Counting;
  }

  lemma {:induction false} RunEarly(base: Header, reps: nat, blocks: seq<Block>, k: nat)
    requires InBounds(base, reps, blocks) && k <= |blocks|
    requires forall i :: 0 <= i < k ==> IrreversibleAt(base, reps, blocks, i) <= base.num
    ensures Chain(base, reps, blocks[..k]).Some?
    ensures EarlySchedules(base, Chain(base, reps, blocks[..k]).value.0, Chain(base, reps, blocks[..k]).value.1)
  {
    hide Chain, Ordered, Extend, Entered, EarlySchedules;
    InBoundsPrefix(base, reps, blocks, k);
    if k == 0 {
      assert blocks[..0] == [];
      EarlyStart(base, reps);
    } else {
      RunEarly(base, reps, blocks, k - 1);
      ChainStep(base, reps, blocks, k - 1);
      InBoundsPrefix(base, reps, blocks, k - 1);
      EveryChainOrdered(base, reps, blocks[..k - 1]);
      var (s, hist) := Chain(base, reps, blocks[..k - 1]).value;
      assert IrreversibleAt(base, reps, blocks, k - 1) == s.irreversible;
      EarlyStep(base, s, hist, reps, blocks[k - 1]);
    }
  }

  lemma EarlyStart(base: Header, reps: nat)
    requires reps > 0
    ensures Chain(base, reps, []) == Some((base, [])) && EarlySchedules(base, base, [])
  {
  }

  /** The irreversible block after the first `k` blocks of a run. */
  ghost function IrreversibleAt(base: Header, reps: nat, blocks: seq<Block>, k: nat): nat
    requires reps > 0 && k <= |blocks|
  {
    match Chain(base, reps, blocks[..k])
    case Some((h, _)) => h.irreversible
    case None => 0
  }

  /** The first part of a run after which a new block is irreversible. */
  lemma {:induction false} FirstTime(base: Header, reps: nat, blocks: seq<Block>, n: nat) returns (k: nat)
    requires reps > 0 && n <= |blocks| && IrreversibleAt(base, reps, blocks, n) > base.num
    ensures k <= n && IrreversibleAt(base, reps, blocks, k) > base.num
    ensures forall i :: 0 <= i < k ==> IrreversibleAt(base, reps, blocks, i) <= base.num
  {
    hide IrreversibleAt;
    k := 0;
    while IrreversibleAt(base, reps, blocks, k) <= base.num
      invariant k <= n && forall i :: 0 <= i < k ==> IrreversibleAt(base, reps, blocks, i) <= base.num
      decreases n - k
    {
      k := k + 1;
    }
  }

  /** A new block is irreversible after the first `k` blocks of a run, and a supermajority vouched for it: as many
      producers as its schedule needs, all of the schedule in force at the start or of the one that waited then. */
  ghost predicate MadeIrreversible(base: Header, reps: nat, blocks: seq<Block>, k: nat, vouching: set<Account>)
    requires reps > 0 && k <= |blocks|
  {
    var after := Chain(base, reps, blocks[..k]);
    && after.Some? && after.value.0.irreversible > base.num
    && vouching == Confirmers(after.value.1, after.value.0.irreversible) && vouching <= Electorate(base)
    && (|vouching| >= Required(base.schedule) || (base.pending != [] && |vouching| >= Required(base.pending)))
  }

  /** The first new block that a run makes irreversible has such a supermajority, whatever schedules come later. */
  lemma FirstIrreversible(base: Header, reps: nat, blocks: seq<Block>) returns (k: nat, vouching: set<Account>)
    requires InBounds(base, reps, blocks) && !CountsTwice(base, reps, blocks)
    requires Chain(base, reps, blocks).value.0.irreversible > base.num
    ensures k <= |blocks| && MadeIrreversible(base, reps, blocks, k, vouching)
  {
    hide Chain, Ordered, Required, CountsTwice, Confirmers, EarlySchedules;
    assert blocks[..|blocks|] == blocks;
    k := FirstTime(base, reps, blocks, |blocks|);
    RunEarly(base, reps, blocks, k);
    InBoundsPrefix(base, reps, blocks, k);
    CountsOncePrefix(base, reps, blocks, k);
    SupermajorityConfirmed(base, reps, blocks[..k]);
    var (h, hist) := Chain(base, reps, blocks[..k]).value;
    vouching := Confirmers(hist, h.irreversible);
    EarlyConfirmers(base, h, hist);
  }

  lemma EarlyConfirmers(base: Header, h: Header, hist: seq<Produced>)
    requires EarlySchedules(base, h, hist)
    ensures forall b :: Confirmers(hist, b) <= Electorate(base)
    ensures forall i :: 0 <= i < |hist| ==> Early(base, hist[i].schedule)
  {
    hide Members, Confirmers;
    forall b, who | who in Confirmers(hist, b) ensures who in Electorate(base) {
      var i := ConfirmerVouched(hist, b, who);
    }
  }

  lemma CountsOncePrefix(base: Header, reps: nat, blocks: seq<Block>, k: nat)
    requires reps > 0 && k <= |blocks| && !CountsTwice(base, reps, blocks)
    ensures !CountsTwice(base, reps, blocks[..k])
  {
    hide Chain, Overcounts;
    forall i | 0 <= i < k ensures !TwiceAt(base, reps, blocks[..k], i) {
      assert blocks[..k][..i] == blocks[..i];
      assert !TwiceAt(base, reps, blocks, i);
    }
  }

  /** Safety of forks: of two runs from the same header that each make a new block irreversible, whatever schedules
      they come to, each has a supermajority for its first one, and the two overlap by all that they exceed the
      electorate; if no schedule waits at the start, that is more than a third of the producers. */
  lemma ForksShareConfirmers(base: Header, reps: nat, left: seq<Block>, right: seq<Block>)
    returns (i: nat, j: nat, a: set<Account>, b: set<Account>)
    requires InBounds(base, reps, left) && !CountsTwice(base, reps, left)
    requires InBounds(base, reps, right) && !CountsTwice(base, reps, right)
    requires Chain(base, reps, left).value.0.irreversible > base.num
    requires Chain(base, reps, right).value.0.irreversible > base.num
    ensures i <= |left| && MadeIrreversible(base, reps, left, i, a)
    ensures j <= |right| && MadeIrreversible(base, reps, right, j, b)
    ensures |a * b| >= |a| + |b| - |Electorate(base)|
    ensures base.pending == [] ==> 3 * |a * b| > |base.schedule|
  {
    hide Chain, Ordered, Confirmers, CountsTwice, Required;
    i, a := FirstIrreversible(base, reps, left);
    j, b := FirstIrreversible(base, reps, right);
    Overlap(a, b, Electorate(base));
    if base.pending == [] {
      assert Electorate(base) == Members(base.schedule);
    }
  }

  lemma Overlap(a: set<Account>, b: set<Account>, all: set<Account>)
    requires a <= all && b <= all
    ensures |a * b| >= |a| + |b| - |all|
  {
    assert all == (a + b) + (all - (a + b));
  }

  // ----- the irreversible block over whole runs -----

  /** A block of a run does not take the irreversible block back. */
  ghost predicate Onward(base: Header, reps: nat, blocks: seq<Block>, k: nat)
    requires reps > 0 && k < |blocks|
  {
    IrreversibleAt(base, reps, blocks, k) <= IrreversibleAt(base, reps, blocks, k + 1)
  }

  /** Before the block, at most a third of the producers are going to have seen less than the irreversible block. */
  ghost predicate KeptAt(base: Header, reps: nat, blocks: seq<Block>, k: nat)
    requires reps > 0 && k < |blocks|
  {
    var before := Chain(base, reps, blocks[..k]);
    before.Some? && before.value.0.schedule != [] && Keeps(before.value.0, reps, blocks[k].when)
  }

  /** A run never takes the irreversible block back exactly when before each of its blocks at most a third of the
      producers, rounded down, are going to have seen less than it proposed. */
  lemma RunKeptExactly(base: Header, reps: nat, blocks: seq<Block>)
    requires InBounds(base, reps, blocks)
    ensures (forall k :: 0 <= k < |blocks| ==> Onward(base, reps, blocks, k))
            <==> forall k :: 0 <= k < |blocks| ==> KeptAt(base, reps, blocks, k)
  {
    hide Onward, KeptAt, Chain, Ordered;
    forall k | 0 <= k < |blocks| ensures Onward(base, reps, blocks, k) <==> KeptAt(base, reps, blocks, k) {
      KeptStep(base, reps, blocks, k);
    }
  }

  lemma KeptStep(base: Header, reps: nat, blocks: seq<Block>, k: nat)
    requires InBounds(base, reps, blocks) && k < |blocks|
    ensures Onward(base, reps, blocks, k) <==> KeptAt(base, reps, blocks, k)
  {
    hide Chain, Ordered, NextHeader, Keeps, Entered;
    ChainStep(base, reps, blocks, k);
    IrreversibleKept(Chain(base, reps, blocks[..k]).value.0, reps, blocks[k].when, blocks[k].n);
  }

  /** The change of schedule that a block may bring leaves at most a third of the new producers behind. */
  ghost predicate SettlesAt(base: Header, reps: nat, blocks: seq<Block>, k: nat)
    requires reps > 0 && k < |blocks|
  {
    var before := Chain(base, reps, blocks[..k]);
    before.Some? && before.value.0.schedule != [] && Settles(before.value.0, reps, blocks[k].when)
  }

  ghost predicate SettledAt(base: Header, reps: nat, blocks: seq<Block>, k: nat)
    requires reps > 0 && k <= |blocks|
  {
    var after := Chain(base, reps, blocks[..k]);
    after.Some? && Settled(after.value.0) && Known(after.value.0)
  }

  lemma SettledStep(base: Header, reps: nat, blocks: seq<Block>, k: nat)
    requires InBounds(base, reps, blocks) && k < |blocks| && SettledAt(base, reps, blocks, k)
    ensures SettledAt(base, reps, blocks, k + 1) <==> SettlesAt(base, reps, blocks, k)
    ensures Onward(base, reps, blocks, k)
  {
    hide Chain, Ordered, Settled, Known, Settles, Entered, NextHeader;
    ChainStep(base, reps, blocks, k);
    InBoundsPrefix(base, reps, blocks, k);
    EveryChainOrdered(base, reps, blocks[..k]);
    var s := Chain(base, reps, blocks[..k]).value.0;
    var Next(h, promoted) := NextHeader(s, reps, blocks[k].when, blocks[k].n);
    IrreversibleMonotone(s, reps, blocks[k].when, blocks[k].n);
    if promoted {
      SettledAtChange(s, reps, blocks[k].when, blocks[k].n);
    } else {
      SettledKept(s, reps, blocks[k].when, blocks[k].n);
      SettlesWithoutChange(s, reps, blocks[k].when, blocks[k].n);
    }
    if blocks[k].newProducers.Some? {
      ProposalOnly(s, reps, blocks[k]);
      PendingSettled(h, blocks[k].newProducers.value);
    }
  }

  lemma SettlesWithoutChange(s: Header, reps: nat, when: nat, n: nat)
    requires s.schedule != [] && reps > 0
    requires NextHeader(s, reps, when, n).Next? && !NextHeader(s, reps, when, n).promoted
    ensures Settles(s, reps, when)
  {
    hide CountDown, Grown, Put, Carried, CalcIrreversible, Find, ScheduledProducer;
  }

  lemma PendingSettled(h: Header, producers: seq<Account>)
    requires h.impliedIrb != []
    ensures var next := h.(pending := producers, pendingLib := h.num);
            (Settled(h) <==> Settled(next)) && (Known(h) <==> Known(next))
  {
  }

  /** All headers of a run are settled exactly when all its changes of schedule leave at most a third of the new
      producers behind; and then the irreversible block never goes back. */
  lemma RunIrreversibleMonotone(base: Header, reps: nat, blocks: seq<Block>)
    requires InBounds(base, reps, blocks) && Settled(base) && Known(base)
    ensures (forall k :: 0 <= k <= |blocks| ==> SettledAt(base, reps, blocks, k)) <==>
            (forall k :: 0 <= k < |blocks| ==> SettlesAt(base, reps, blocks, k))
    ensures (forall k :: 0 <= k < |blocks| ==> SettlesAt(base, reps, blocks, k)) ==>
            forall k :: 0 <= k < |blocks| ==> Onward(base, reps, blocks, k)
  {
    hide SettledAt, SettlesAt, Onward, Chain, Ordered;
    if forall k :: 0 <= k < |blocks| ==> SettlesAt(base, reps, blocks, k) {
      forall k | 0 <= k <= |blocks| ensures SettledAt(base, reps, blocks, k) {
        SettledUpTo(base, reps, blocks, k);
      }
    }
    if forall k :: 0 <= k <= |blocks| ==> SettledAt(base, reps, blocks, k) {
      forall k | 0 <= k < |blocks|
        ensures SettlesAt(base, reps, blocks, k)
        ensures Onward(base, reps, blocks, k)
      {
        SettledStep(base, reps, blocks, k);
      }
    }
  }

  lemma {:induction false} SettledUpTo(base: Header, reps: nat, blocks: seq<Block>, k: nat)
    requires InBounds(base, reps, blocks) && Settled(base) && Known(base) && k <= |blocks|
    requires forall i :: 0 <= i < k ==> SettlesAt(base, reps, blocks, i)
    ensures SettledAt(base, reps, blocks, k)
  {
    hide SettlesAt, Settled, Known, Ordered;
    if k == 0 {
      assert blocks[..0] == [];
    } else {
      SettledUpTo(base, reps, blocks, k - 1);
      SettledStep(base, reps, blocks, k - 1);
    }
  }
}
