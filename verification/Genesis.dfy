/**
  Runs from the genesis header (libraries/chain/controller.cpp): what holds of all
  of them, and two runs that show where the guarantees end.
*/
module Genesis {
  import Bits
  import opened Lists
  import opened Schedule
  import opened Dpos
  import opened DposRuns
  import ForkTree
  import ForkFile
  import ForkRuns

  /** The header before the first block: the initial schedule is in force and waits as well. */
  function GenesisHeader(producers: seq<Account>, slot: nat): Header {
    Header(1, slot, 0, 0, producers, [], [], [], producers, 0)
  }

  lemma GenesisInOrder(producers: seq<Account>, slot: nat)
    requires producers != [] && Required(producers) <= 255
    ensures var g := GenesisHeader(producers, slot); Ordered(g) && Settled(g) && Known(g)
  {
  }

  /** The first block always makes the initial schedule active. */
  lemma FirstBlockActivates(producers: seq<Account>, slot: nat, reps: nat, when: nat, n: nat)
    requires producers != [] && reps > 0 && NextHeader(GenesisHeader(producers, slot), reps, when, n).Next?
    ensures NextHeader(GenesisHeader(producers, slot), reps, when, n).promoted
  {
    hide CountDown, Grown, Put, Carried, Find, ScheduledProducer;
  }

  /** Every run from genesis keeps its three blocks in order; if no block counts a word twice, every block that it
      makes irreversible has its supermajority; and if no change of schedule leaves more than a third of the new
      producers behind, the irreversible block never goes back. */
  lemma GenesisRun(producers: seq<Account>, slot: nat, reps: nat, blocks: seq<Block>)
    requires producers != [] && InBounds(GenesisHeader(producers, slot), reps, blocks)
    ensures var g := GenesisHeader(producers, slot);
            var (h, hist) := Chain(g, reps, blocks).value;
            && Ordered(h) && (blocks != [] ==> Waiting(h))
            && (!CountsTwice(g, reps, blocks) && h.irreversible > 1 ==>
                  && h.irreversible <= 1 + |hist|
                  && 3 * |Confirmers(hist, h.irreversible)| > 2 * |hist[h.irreversible - 2].schedule|)
            && ((forall k :: 0 <= k < |blocks| ==> SettlesAt(g, reps, blocks, k)) ==>
                forall k :: 0 <= k < |blocks| ==> Onward(g, reps, blocks, k))
  {
    hide Chain, Waiting, CountsTwice, Confirmers, SettlesAt, Onward, Settled, Known, Tallied, InTurn, Required;
    var g := GenesisHeader(producers, slot);
    GenesisInOrder(producers, slot);
    EveryChainOrdered(g, reps, blocks);
    if blocks != [] {
      EveryChainWaits(g, reps, blocks);
    }
    if !CountsTwice(g, reps, blocks) {
      SupermajorityConfirmed(g, reps, blocks);
    }
    RunIrreversibleMonotone(g, reps, blocks);
  }

  // ----- four producers -----

  const FOUR: seq<Account> := [1, 2, 3, 4]

  function Four(a: nat, b: nat, c: nat, d: nat): (m: FlatMap)
    ensures |m| == 4 && DistinctKeys(m)
  {
    [Entry(1, a), Entry(2, b), Entry(3, c), Entry(4, d)]
  }

  lemma {:induction false} FindAt(m: FlatMap, i: nat)
    requires DistinctKeys(m) && i < |m|
    ensures Find(m, m[i].key) == Some(m[i].num)
  {
    if i > 0 {
      FindAt(m[1..], i - 1);
    }
  }

  lemma {:induction false} PutAt(m: FlatMap, i: nat, v: nat)
    requires DistinctKeys(m) && i < |m|
    ensures Put(m, m[i].key, v) == m[i := Entry(m[i].key, v)]
  {
    if i > 0 {
      PutAt(m[1..], i - 1, v);
      assert m[i := Entry(m[i].key, v)] == [m[0]] + m[1..][i - 1 := Entry(m[i].key, v)];
    } else {
      assert m[0 := Entry(m[0].key, v)] == [Entry(m[0].key, v)] + m[1..];
    }
  }

  lemma {:induction false} PutNew(m: FlatMap, key: Account, v: nat)
    requires forall i :: 0 <= i < |m| ==> m[i].key != key
    ensures Put(m, key, v) == m + [Entry(key, v)]
  {
    if m != [] {
      PutNew(m[1..], key, v);
      assert m + [Entry(key, v)] == [m[0]] + (m[1..] + [Entry(key, v)]);
    }
  }

  lemma {:induction false} ImpliedAt(m: FlatMap, producer: Account, v: nat, i: nat)
    requires i < |m|
    ensures Implied(m, producer, v)[i] == if m[i].key == producer then v else m[i].num
  {
    if i > 0 {
      ImpliedAt(m[1..], producer, v, i - 1);
    }
  }

  lemma FourFound(a: nat, b: nat, c: nat, d: nat)
    ensures var m := Four(a, b, c, d);
            Find(m, 1) == Some(a) && Find(m, 2) == Some(b) && Find(m, 3) == Some(c) && Find(m, 4) == Some(d)
  {
    hide Find;
    var m := Four(a, b, c, d);
    FindAt(m, 0);
    FindAt(m, 1);
    FindAt(m, 2);
    FindAt(m, 3);
  }

  lemma FourPut(a: nat, b: nat, c: nat, d: nat, v: nat)
    ensures var m := Four(a, b, c, d);
            && Put(m, 1, v) == Four(v, b, c, d) && Put(m, 2, v) == Four(a, v, c, d)
            && Put(m, 3, v) == Four(a, b, v, d) && Put(m, 4, v) == Four(a, b, c, v)
  {
    hide Put;
    var m := Four(a, b, c, d);
    PutAt(m, 0, v);
    PutAt(m, 1, v);
    PutAt(m, 2, v);
    PutAt(m, 3, v);
  }

  function Fewer(a: nat, b: nat, c: nat, d: nat, x: nat): nat {
    (if a < x then 1 else 0) + (if b < x then 1 else 0) + (if c < x then 1 else 0) + (if d < x then 1 else 0)
  }

  lemma FourBelow(a: nat, b: nat, c: nat, d: nat, x: nat)
    ensures |Below([a, b, c, d], x)| == Fewer(a, b, c, d, x)
  {
    var s := [a, b, c, d];
    assert s[1..] == [b, c, d] && s[1..][1..] == [c, d] && s[1..][1..][1..] == [d] && s[1..][1..][1..][1..] == [];
    assert |Below([d], x)| == if d < x then 1 else 0;
    assert |Below([c, d], x)| == (if c < x then 1 else 0) + |Below([d], x)|;
    assert |Below([b, c, d], x)| == (if b < x then 1 else 0) + |Below([c, d], x)|;
  }

  /** With four producers the irreversible block is the second lowest of what they have seen. */
  lemma FourIrreversible(e: nat, f: nat, g: nat, h: nat, producer: Account, proposed: nat, lib: nat)
    requires var a, b := if producer == 1 then proposed else e, if producer == 2 then proposed else f;
             var c, d := if producer == 3 then proposed else g, if producer == 4 then proposed else h;
             Fewer(a, b, c, d, lib) <= 1 && Fewer(a, b, c, d, lib + 1) >= 2
    ensures CalcIrreversible(Four(e, f, g, h), producer, proposed) == lib
  {
    hide Nth, Below;
    var m := Four(e, f, g, h);
    var a, b := if producer == 1 then proposed else e, if producer == 2 then proposed else f;
    var c, d := if producer == 3 then proposed else g, if producer == 4 then proposed else h;
    var vs := Implied(m, producer, proposed);
    ImpliedAt(m, producer, proposed, 0);
    ImpliedAt(m, producer, proposed, 1);
    ImpliedAt(m, producer, proposed, 2);
    ImpliedAt(m, producer, proposed, 3);
    assert vs == [a, b, c, d];
    FourBelow(a, b, c, d, lib);
    FourBelow(a, b, c, d, lib + 1);
    NthAtLeast(vs, 1, lib);
    NthAtLeast(vs, 1, lib + 1);
  }

  // ----- one block at a time -----

  /** A block with which no schedule becomes active. */
  lemma PlainStep(s: Header, reps: nat, when: nat, n: nat, producer: Account, lib: nat,
                  grown: seq<nat>, counted: seq<nat>, hit: Option<nat>)
    requires s.schedule != [] && reps > 0 && when > s.slot
    requires ScheduledProducer(s.schedule, reps, when) == producer
    requires CalcIrreversible(s.impliedIrb, producer, s.proposed) == lib && (s.pending != [] ==> lib < s.pendingLib)
    requires Find(s.lastProduced, producer).Some? ==> Find(s.lastProduced, producer).value < (s.num + 1 - n) % UINT32
    requires Grown(s.confirms, Required(s.schedule)) == grown && CountDown(grown, |grown| - 1, n + 1) == (counted, hit)
    ensures NextHeader(s, reps, when, n) ==
            Next(Header(s.num + 1, when,
                        if hit.Some? then (s.num + 1 - (|grown| - 1 - hit.value)) % UINT32 else s.proposed,
                        lib, s.schedule,
                        Put(s.lastProduced, producer, s.num + 1), Put(s.impliedIrb, producer, s.proposed),
                        if hit.Some? then counted[hit.value + 1..] else counted, s.pending, s.pendingLib), false)
  {
    hide CountDown, Grown, CalcIrreversible, Find, Put, ScheduledProducer, Carried, Required;
  }

  /** A block with which the waiting schedule becomes active. */
  lemma ChangeStep(s: Header, reps: nat, when: nat, n: nat, producer: Account, lib: nat,
                   grown: seq<nat>, counted: seq<nat>, hit: Option<nat>)
    requires s.schedule != [] && reps > 0 && when > s.slot
    requires ScheduledProducer(s.schedule, reps, when) == producer
    requires CalcIrreversible(s.impliedIrb, producer, s.proposed) == lib && s.pending != [] && lib >= s.pendingLib
    requires Find(s.lastProduced, producer).Some? ==> Find(s.lastProduced, producer).value < (s.num + 1 - n) % UINT32
    requires Grown(s.confirms, Required(s.schedule)) == grown && CountDown(grown, |grown| - 1, n + 1) == (counted, hit)
    ensures NextHeader(s, reps, when, n) ==
            Next(Header(s.num + 1, when,
                        if hit.Some? then (s.num + 1 - (|grown| - 1 - hit.value)) % UINT32 else s.proposed,
                        lib, s.pending,
                        Put(Carried(s.pending, s.lastProduced, producer, s.num + 1, lib), producer, s.num + 1),
                        Carried(s.pending, s.impliedIrb, producer, s.proposed, lib),
                        if hit.Some? then counted[hit.value + 1..] else counted, [], s.pendingLib), true)
  {
    hide CountDown, Grown, CalcIrreversible, Find, Put, ScheduledProducer, Carried, Required;
  }

  /** A run with one block more. */
  lemma OneMore(base: Header, reps: nat, blocks: seq<Block>, b: Block, s: Header, hist: seq<Produced>,
                h: Header, promoted: bool, producer: Account)
    requires reps > 0 && Chain(base, reps, blocks) == Some((s, hist)) && s.schedule != []
    requires Extend(s, reps, b.when, b.n, b.newProducers) == Next(h, promoted)
    requires ScheduledProducer(s.schedule, reps, h.slot) == producer
    ensures Chain(base, reps, blocks + [b]) ==
            Some((h, hist + [Produced(h.num, producer, b.n, s.schedule, promoted)]))
  {
    hide Extend, ScheduledProducer;
    assert (blocks + [b])[..|blocks|] == blocks;
  }

  lemma FourRequired()
    ensures |FOUR| == 4 && Required(FOUR) == 3 && FOUR != []
  {
  }

  /** The turns of four producers with three slots each. */
  lemma FourTurns(slot: nat)
    ensures ScheduledProducer(FOUR, 3, slot) == slot % 12 / 3 + 1
  {
    var i := slot % 12 / 3;
    assert i == 0 || i == 1 || i == 2 || i == 3;
  }

  /** The counts that every further block of a chain of four producers leaves when it confirms the two before it. */
  lemma Counts(todo: nat)
    requires todo >= 3
    ensures Grown([], 3) == [3] && Grown([2], 3) == [2, 3] && Grown([1, 2], 3) == [1, 2, 3]
    ensures CountDown([3], 0, 1) == ([2], None) && CountDown([3], 0, todo) == ([2], None)
    ensures CountDown([2, 3], 1, todo) == ([1, 2], None)
    ensures CountDown([1, 2, 3], 2, todo) == ([0, 1, 2], Some(0)) && [0, 1, 2][1..] == [1, 2]
  {
    assert [3][0 := 2] == [2];
    assert [2, 3][1 := 2] == [2, 2] && [2, 2][0 := 1] == [1, 2];
    assert CountDown([2, 2], 0, todo - 1) == CountDown([1, 2], -1, todo - 2);
    assert [1, 2, 3][2 := 2] == [1, 2, 2] && [1, 2, 2][1 := 1] == [1, 1, 2] && [1, 1, 2][0 := 0] == [0, 1, 2];
    assert CountDown([1, 1, 2], 0, todo - 2) == ([0, 1, 2], Some(0));
    assert CountDown([1, 2, 2], 1, todo - 1) == CountDown([1, 1, 2], 0, todo - 2);
  }

  /** What the first block makes of the initial schedule. */
  lemma FourCarried(producer: Account, num: nat)
    requires 1 <= producer <= 4
    ensures Carried(FOUR, [], producer, num, 0) ==
            Four(if producer == 1 then num else 0, if producer == 2 then num else 0,
                 if producer == 3 then num else 0, if producer == 4 then num else 0)
  {
    hide Put;
    assert FOUR[..3] == [1, 2, 3] && [1, 2, 3][..2] == [1, 2] && [1, 2][..1] == [1] && [1][..0] == [];
    var a, b := if producer == 1 then num else 0, if producer == 2 then num else 0;
    var c, d := if producer == 3 then num else 0, if producer == 4 then num else 0;
    PutNew([], 1, a);
    assert Carried([1], [], producer, num, 0) == [Entry(1, a)];
    PutNew([Entry(1, a)], 2, b);
    assert Carried([1, 2], [], producer, num, 0) == [Entry(1, a), Entry(2, b)];
    PutNew([Entry(1, a), Entry(2, b)], 3, c);
    assert Carried([1, 2, 3], [], producer, num, 0) == [Entry(1, a), Entry(2, b), Entry(3, c)];
    PutNew([Entry(1, a), Entry(2, b), Entry(3, c)], 4, d);
  }

  // ----- a run that takes the irreversible block back -----

  function Pick(p: Account, a: nat, b: nat, c: nat, d: nat): nat {
    if p == 1 then a else if p == 2 then b else if p == 3 then c else d
  }

  function With(p: Account, v: nat, a: nat, b: nat, c: nat, d: nat): FlatMap {
    Four(if p == 1 then v else a, if p == 2 then v else b, if p == 3 then v else c, if p == 4 then v else d)
  }

  function Full(num: nat, slot: nat, proposed: nat, irreversible: nat, last: FlatMap, seen: FlatMap,
                pending: seq<Account>, lib: nat): Header {
    Header(num, slot, proposed, irreversible, FOUR, last, seen, [1, 2], pending, lib)
  }

  lemma FourMaps(p: Account, v: nat, a: nat, b: nat, c: nat, d: nat)
    requires 1 <= p <= 4
    ensures Find(Four(a, b, c, d), p) == Some(Pick(p, a, b, c, d))
    ensures Put(Four(a, b, c, d), p, v) == With(p, v, a, b, c, d)
  {
    hide Find, Put, Four;
    FourFound(a, b, c, d);
    FourPut(a, b, c, d, v);
  }

  /** A block of four producers that confirms the two before it makes the older of them proposed. */
  lemma FourStep(num: nat, slot: nat, proposed: nat, irreversible: nat, a: nat, b: nat, c: nat, d: nat,
                 e: nat, f: nat, g: nat, h: nat, pending: seq<Account>, pendingLib: nat, when: nat, lib: nat)
    requires 2 <= num < 100 && when > slot && lib < pendingLib
    requires Pick(when % 12 / 3 + 1, a, b, c, d) < num - 1
    requires CalcIrreversible(Four(e, f, g, h), when % 12 / 3 + 1, proposed) == lib
    ensures var p := when % 12 / 3 + 1;
            && ScheduledProducer(FOUR, 3, when) == p
            && NextHeader(Full(num, slot, proposed, irreversible, Four(a, b, c, d), Four(e, f, g, h),
                               pending, pendingLib), 3, when, 2)
               == Next(Full(num + 1, when, num - 1, lib, With(p, num + 1, a, b, c, d), With(p, proposed, e, f, g, h),
                            pending, pendingLib), false)
  {
    hide NextHeader, CalcIrreversible, Find, Put, CountDown, Grown, ScheduledProducer, Required, Four, With, Pick;
    var p := when % 12 / 3 + 1;
    FourTurns(when);
    FourRequired();
    Counts(3);
    FourMaps(p, num + 1, a, b, c, d);
    FourMaps(p, proposed, e, f, g, h);
    Bits.SmallMod(num - 1, UINT32);
    PlainStep(Full(num, slot, proposed, irreversible, Four(a, b, c, d), Four(e, f, g, h), pending, pendingLib),
              3, when, 2, p, lib, [1, 2, 3], [0, 1, 2], Some(0));
  }

  /** The first block from genesis, in a chain of four producers. */
  lemma FourStart(slot: nat, when: nat, n: nat)
    requires when > slot
    ensures var p := when % 12 / 3 + 1;
            && ScheduledProducer(FOUR, 3, when) == p
            && NextHeader(GenesisHeader(FOUR, slot), 3, when, n)
               == Next(Header(2, when, 0, 0, FOUR, With(p, 2, 0, 0, 0, 0), Four(0, 0, 0, 0), [2], [], 0), true)
  {
    hide NextHeader, Put, CountDown, Grown, ScheduledProducer, Required, Four, Carried;
    var p := when % 12 / 3 + 1;
    FourTurns(when);
    FourRequired();
    Counts(if n >= 2 then n + 1 else 3);
    OneLeft(n + 1);
    FourCarried(p, 2);
    FourCarried(p, 0);
    FourMaps(p, 2, if p == 1 then 2 else 0, if p == 2 then 2 else 0, if p == 3 then 2 else 0, if p == 4 then 2 else 0);
    ChangeStep(GenesisHeader(FOUR, slot), 3, when, n, p, 0, [3], [2], None);
  }

  lemma OneLeft(todo: nat)
    requires todo > 0
    ensures CountDown([3], 0, todo) == ([2], None)
  {
    assert [3][0 := 2] == [2];
  }

  const PROPOSAL: seq<Account> := [1, 6]

  lemma ProposalTurn()
    ensures PROPOSAL != [] && Required(PROPOSAL) == 2 && ScheduledProducer(PROPOSAL, 3, 33) == 6
  {
  }

  /** Producer 6 is new and starts from the irreversible block; producer 1 has been away since genesis. */
  lemma ProposalCarried(m: FlatMap, num: nat, lib: nat)
    requires Find(m, 1) == Some(0) && Find(m, 6).None?
    ensures Carried(PROPOSAL, m, 2, num, lib) == [Entry(1, 0), Entry(6, lib)]
    ensures Put(Carried(PROPOSAL, m, 2, num, lib), 2, num) == [Entry(1, 0), Entry(6, lib), Entry(2, num)]
  {
    hide Put, Find;
    assert PROPOSAL[..1] == [1] && [1][..0] == [];
    PutNew([], 1, 0);
    assert Carried([1], m, 2, num, lib) == [Entry(1, 0)];
    PutNew([Entry(1, 0)], 6, lib);
    PutNew([Entry(1, 0), Entry(6, lib)], 2, num);
  }

  lemma NotFound(a: nat, b: nat, c: nat, d: nat)
    ensures Find(Four(a, b, c, d), 6).None?
  {
    hide Find;
    KeyOnce(Four(a, b, c, d), 6);
  }

  const S1 := Header(2, 3, 0, 0, FOUR, Four(0, 2, 0, 0), Four(0, 0, 0, 0), [2], [], 0)
  const S2 := Full(3, 6, 0, 0, Four(0, 2, 3, 0), Four(0, 0, 0, 0), PROPOSAL, 3)
  const S3 := Full(4, 9, 2, 0, Four(0, 2, 3, 4), Four(0, 0, 0, 0), PROPOSAL, 3)
  const S4 := Full(5, 15, 3, 0, Four(0, 5, 3, 4), Four(0, 2, 0, 0), PROPOSAL, 3)
  const S5 := Full(6, 18, 4, 0, Four(0, 5, 6, 4), Four(0, 2, 3, 0), PROPOSAL, 3)
  const S6 := Full(7, 21, 5, 2, Four(0, 5, 6, 7), Four(0, 2, 3, 4), PROPOSAL, 3)
  const S7 := Header(8, 27, 6, 3, PROPOSAL, [Entry(1, 0), Entry(6, 3), Entry(2, 8)], [Entry(1, 0), Entry(6, 3)],
                     [1, 2], [], 3)

  lemma Steps3To6()
    ensures NextHeader(S2, 3, 9, 2) == Next(S3, false) && ScheduledProducer(FOUR, 3, 9) == 4
    ensures NextHeader(S3, 3, 15, 2) == Next(S4, false) && ScheduledProducer(FOUR, 3, 15) == 2
    ensures NextHeader(S4, 3, 18, 2) == Next(S5, false) && ScheduledProducer(FOUR, 3, 18) == 3
    ensures NextHeader(S5, 3, 21, 2) == Next(S6, false) && ScheduledProducer(FOUR, 3, 21) == 4
  {
    hide NextHeader, CalcIrreversible, ScheduledProducer;
    FourIrreversible(0, 0, 0, 0, 4, 0, 0);
    FourStep(3, 6, 0, 0, 0, 2, 3, 0, 0, 0, 0, 0, PROPOSAL, 3, 9, 0);
    FourIrreversible(0, 0, 0, 0, 2, 2, 0);
    FourStep(4, 9, 2, 0, 0, 2, 3, 4, 0, 0, 0, 0, PROPOSAL, 3, 15, 0);
    FourIrreversible(0, 2, 0, 0, 3, 3, 0);
    FourStep(5, 15, 3, 0, 0, 5, 3, 4, 0, 2, 0, 0, PROPOSAL, 3, 18, 0);
    FourIrreversible(0, 2, 3, 0, 4, 4, 2);
    FourStep(6, 18, 4, 0, 0, 5, 6, 4, 0, 2, 3, 0, PROPOSAL, 3, 21, 2);
  }

  lemma Step2()
    ensures Extend(S1, 3, 6, 2, Some(PROPOSAL)) == Next(S2, false) && ScheduledProducer(FOUR, 3, 6) == 3
  {
    hide NextHeader, CalcIrreversible, Find, Put, CountDown, Grown, ScheduledProducer, Required, Four;
    FourTurns(6);
    FourRequired();
    Counts(3);
    FourIrreversible(0, 0, 0, 0, 3, 0, 0);
    FourMaps(3, 3, 0, 2, 0, 0);
    FourMaps(3, 0, 0, 0, 0, 0);
    Bits.SmallMod(1, UINT32);
    PlainStep(S1, 3, 6, 2, 3, 0, [2, 3], [1, 2], None);
  }

  lemma Step7()
    ensures NextHeader(S6, 3, 27, 2) == Next(S7, true) && ScheduledProducer(FOUR, 3, 27) == 2
  {
    hide NextHeader, CalcIrreversible, Find, Put, CountDown, Grown, ScheduledProducer, Required, Four, Carried;
    FourTurns(27);
    FourRequired();
    Counts(3);
    FourIrreversible(0, 2, 3, 4, 2, 5, 3);
    FourMaps(2, 8, 0, 5, 6, 7);
    FourFound(0, 5, 6, 7);
    FourFound(0, 2, 3, 4);
    NotFound(0, 5, 6, 7);
    NotFound(0, 2, 3, 4);
    ProposalCarried(Four(0, 5, 6, 7), 8, 3);
    ProposalCarried(Four(0, 2, 3, 4), 5, 3);
    Bits.SmallMod(6, UINT32);
    ChangeStep(S6, 3, 27, 2, 2, 3, [1, 2, 3], [0, 1, 2], Some(0));
  }

  lemma Step8()
    ensures NextHeader(S7, 3, 33, 0).Next? && !NextHeader(S7, 3, 33, 0).promoted
    ensures NextHeader(S7, 3, 33, 0).header.irreversible == 0 && ScheduledProducer(PROPOSAL, 3, 33) == 6
  {
    hide CountDown, Grown, Put, Find, ScheduledProducer, Carried, Nth, Implied;
    ProposalTurn();
    ProposalLib();
    FindAt(S7.lastProduced, 1);
    Bits.SmallMod(9, UINT32);
  }

  lemma ProposalLib()
    ensures CalcIrreversible([Entry(1, 0), Entry(6, 3)], 6, 6) == 0
  {
    hide Nth;
    var m := [Entry(1, 0), Entry(6, 3)];
    ImpliedAt(m, 6, 6, 0);
    ImpliedAt(m, 6, 6, 1);
    assert Implied(m, 6, 6) == [0, 6];
    assert [0, 6][1..] == [6];
    NthAtLeast([0, 6], 0, 1);
  }

  /** Four producers, of which the first is away: it stays a member of the schedule that the third one proposes. */
  const BACK: seq<Block> := [
    Block(3, 0, None), Block(6, 2, Some(PROPOSAL)), Block(9, 2, None), Block(15, 2, None),
    Block(18, 2, None), Block(21, 2, None), Block(27, 2, None), Block(33, 0, None)]

  lemma BackNext(k: nat, s: Header, h: Header, promoted: bool)
    requires k < |BACK| && Chain(GenesisHeader(FOUR, 0), 3, BACK[..k]).Some? && s.schedule != []
    requires Chain(GenesisHeader(FOUR, 0), 3, BACK[..k]).value.0 == s
    requires Extend(s, 3, BACK[k].when, BACK[k].n, BACK[k].newProducers) == Next(h, promoted)
    ensures Chain(GenesisHeader(FOUR, 0), 3, BACK[..k + 1]).Some?
    ensures Chain(GenesisHeader(FOUR, 0), 3, BACK[..k + 1]).value.0 == h
  {
    hide Extend, ScheduledProducer, FOUR;
    assert BACK[..k + 1] == BACK[..k] + [BACK[k]];
    OneMore(GenesisHeader(FOUR, 0), 3, BACK[..k], BACK[k], s, Chain(GenesisHeader(FOUR, 0), 3, BACK[..k]).value.1,
            h, promoted, ScheduledProducer(s.schedule, 3, h.slot));
  }

  lemma BackBlocks()
    ensures |BACK| == 8 && BACK[..0] == [] && BACK[..8] == BACK
    ensures BACK[0] == Block(3, 0, None) && BACK[1] == Block(6, 2, Some(PROPOSAL)) && BACK[2] == Block(9, 2, None)
    ensures BACK[3] == Block(15, 2, None) && BACK[4] == Block(18, 2, None) && BACK[5] == Block(21, 2, None)
    ensures BACK[6] == Block(27, 2, None) && BACK[7] == Block(33, 0, None)
    ensures forall i :: 0 <= i < 8 ==> BACK[i].n <= i + 2
    ensures forall i :: 0 <= i < 8 && BACK[i].newProducers.Some? ==> BACK[i].newProducers.value == PROPOSAL
  {
  }

  lemma BackStart()
    ensures Chain(GenesisHeader(FOUR, 0), 3, BACK[..1]).Some?
    ensures Chain(GenesisHeader(FOUR, 0), 3, BACK[..1]).value.0 == S1
  {
    hide NextHeader, ScheduledProducer, BACK;
    BackBlocks();
    FourRequired();
    FourStart(0, 3, 0);
    assert Chain(GenesisHeader(FOUR, 0), 3, BACK[..0]).Some?;
    BackNext(0, GenesisHeader(FOUR, 0), S1, true);
  }

  lemma BackHeaders()
    ensures Chain(GenesisHeader(FOUR, 0), 3, BACK[..7]).Some?
    ensures Chain(GenesisHeader(FOUR, 0), 3, BACK[..7]).value.0 == S7
    ensures Chain(GenesisHeader(FOUR, 0), 3, BACK[..8]).Some?
    ensures Chain(GenesisHeader(FOUR, 0), 3, BACK[..8]).value.0.irreversible == 0
  {
    hide NextHeader, ScheduledProducer, Chain, BACK, Four;
    BackBlocks();
    FourRequired();
    BackStart();
    Step2();
    BackNext(1, S1, S2, false);
    Steps3To6();
    BackNext(2, S2, S3, false);
    BackNext(3, S3, S4, false);
    BackNext(4, S4, S5, false);
    BackNext(5, S5, S6, false);
    Step7();
    BackNext(6, S6, S7, true);
    Step8();
    ProposalTurn();
    BackNext(7, S7, NextHeader(S7, 3, 33, 0).header, false);
  }

  /** A change of schedule can take the irreversible block back: a run from genesis of eight accepted blocks, none of
      which counts a word twice, whose last block drops the irreversible block from 3 to 0. */
  lemma IrreversibleGoesBack()
    ensures |BACK| == 8 && InBounds(GenesisHeader(FOUR, 0), 3, BACK) && !CountsTwice(GenesisHeader(FOUR, 0), 3, BACK)
    ensures IrreversibleAt(GenesisHeader(FOUR, 0), 3, BACK, 7) == 3
    ensures IrreversibleAt(GenesisHeader(FOUR, 0), 3, BACK, 8) == 0
  {
    hide Chain, BACK, Four, CountsTwice;
    BackBlocks();
    BackHeaders();
    FourRequired();
    ProposalTurn();
    GenesisInOrder(FOUR, 0);
    SizedCountsOnce(GenesisHeader(FOUR, 0), 3, BACK);
  }

  /** A fork database that holds the branch of that run cannot be opened after it is closed. */
  lemma BackNotReopened(digest: nat -> nat, unvalidated: seq<ForkTree.Block>, validated: seq<ForkTree.Block>,
                        out: seq<ForkTree.Block>)
    requires ForkFile.Listing(ForkRuns.Branch(GenesisHeader(FOUR, 0), 3, BACK, digest), false, unvalidated)
    requires ForkFile.Listing(ForkRuns.Branch(GenesisHeader(FOUR, 0), 3, BACK, digest), true, validated)
    requires ForkFile.WorstFirst(out) && multiset(out) == multiset(unvalidated) + multiset(validated)
    ensures ForkFile.Load(ForkTree.Id(1, digest(1)), out) == None
  {
    hide ForkRuns.Branch, ForkFile.Listing, ForkFile.WorstFirst, ForkFile.Load, IrreversibleAt, BACK, Chain;
    IrreversibleGoesBack();
    assert !Onward(GenesisHeader(FOUR, 0), 3, BACK, 7);
    ForkRuns.RunReopened(GenesisHeader(FOUR, 0), 3, BACK, digest, unvalidated, validated, out);
  }

  // ----- blocks that claim to confirm more blocks than there are -----

  const OVERSIZED: seq<Block> := [Block(12, 5, None), Block(13, 5, None), Block(14, 5, None)]

  const T1 := Header(2, 12, 0, 0, FOUR, Four(2, 0, 0, 0), Four(0, 0, 0, 0), [2], [], 0)
  const T2 := Header(3, 13, 0, 0, FOUR, Four(3, 0, 0, 0), Four(0, 0, 0, 0), [1, 2], [], 0)
  const T3 := Header(4, 14, 2, 0, FOUR, Four(4, 0, 0, 0), Four(0, 0, 0, 0), [1, 2], [], 0)

  function First(num: nat, promoted: bool): Produced {
    Produced(num, 1, 5, FOUR, promoted)
  }

  lemma OversizedSteps()
    ensures NextHeader(GenesisHeader(FOUR, 11), 3, 12, 5) == Next(T1, true) && ScheduledProducer(FOUR, 3, 12) == 1
    ensures NextHeader(T1, 3, 13, 5) == Next(T2, false) && ScheduledProducer(FOUR, 3, 13) == 1
    ensures NextHeader(T2, 3, 14, 5) == Next(T3, false) && ScheduledProducer(FOUR, 3, 14) == 1
  {
    hide NextHeader, CalcIrreversible, Find, Put, CountDown, Grown, ScheduledProducer, Required, Four;
    FourTurns(13);
    FourTurns(14);
    FourRequired();
    Counts(6);
    FourStart(11, 12, 5);
    FourIrreversible(0, 0, 0, 0, 1, 0, 0);
    FourMaps(1, 3, 2, 0, 0, 0);
    FourMaps(1, 4, 3, 0, 0, 0);
    FourMaps(1, 0, 0, 0, 0, 0);
    PlainStep(T1, 3, 13, 5, 1, 0, [2, 3], [1, 2], None);
    Bits.SmallMod(2, UINT32);
    PlainStep(T2, 3, 14, 5, 1, 0, [1, 2, 3], [0, 1, 2], Some(0));
  }

  lemma OversizedChain()
    ensures Chain(GenesisHeader(FOUR, 11), 3, OVERSIZED) ==
            Some((T3, [] + [First(2, true)] + [First(3, false)] + [First(4, false)]))
    ensures Chain(GenesisHeader(FOUR, 11), 3, OVERSIZED[..1]) == Some((T1, [] + [First(2, true)]))
  {
    hide NextHeader, ScheduledProducer;
    var g, b := GenesisHeader(FOUR, 11), OVERSIZED;
    OversizedSteps();
    FourRequired();
    assert Chain(g, 3, []) == Some((g, []));
    OneMore(g, 3, [], b[0], g, [], T1, true, 1);
    OneMore(g, 3, [] + [b[0]], b[1], T1, [] + [First(2, true)], T2, false, 1);
    OneMore(g, 3, [] + [b[0]] + [b[1]], b[2], T2, [] + [First(2, true)] + [First(3, false)], T3, false, 1);
    assert [] + [b[0]] + [b[1]] + [b[2]] == b && [] + [b[0]] == b[..1];
  }

  lemma OneConfirmer()
    ensures Confirmers([] + [First(2, true)] + [First(3, false)] + [First(4, false)], 2) == {1}
  {
    hide Confirmers;
    NoneYet(1, []);
    ConfirmersAdd([], First(2, true), 2);
    ConfirmersAdd([] + [First(2, true)], First(3, false), 2);
    ConfirmersAdd([] + [First(2, true)] + [First(3, false)], First(4, false), 2);
  }

  lemma OversizedTwice()
    ensures TwiceAt(GenesisHeader(FOUR, 11), 3, OVERSIZED, 1)
  {
    hide Chain, Overcounts, Four;
    OversizedChain();
    FourRequired();
    OversizedAgain();
  }

  lemma OversizedAgain()
    ensures Overcounts(1, T1, 3, 13, 5)
  {
    hide Four, Find, Grown, ScheduledProducer, Required;
    FourRequired();
    OversizedSteps();
    FourFound(2, 0, 0, 0);
    Counts(6);
  }

  /** Blocks that claim more blocks than there are can count a word twice: a run from genesis of three accepted
      blocks in which one producer of four gets a block proposed alone. */
  lemma OversizedClaims()
    ensures InBounds(GenesisHeader(FOUR, 11), 3, OVERSIZED) && |FOUR| == 4
    ensures CountsTwice(GenesisHeader(FOUR, 11), 3, OVERSIZED)
    ensures var (h, hist) := Chain(GenesisHeader(FOUR, 11), 3, OVERSIZED).value;
            h.proposed == 2 && Confirmers(hist, 2) == {1} && Required(hist[0].schedule) == 3
  {
    hide Chain, Confirmers, Four, TwiceAt, Required, Ordered;
    OversizedChain();
    OversizedTwice();
    OneConfirmer();
    FourRequired();
    GenesisInOrder(FOUR, 11);
  }
}
