/**
  The fork database (libraries/chain/fork_database.cpp): the blocks above the last
  irreversible one, the best validated block among them, and what each operation
  does to the tree they form.
*/
module ForkDb {
  import opened Lists
  import opened ForkTree

  datatype Outcome = Done | Unlinkable | Duplicate | NotFound | NotValid | HeadInTheWay

  // ----- walking the descendants of a block -----

  /** The index without a block and everything built on it. */
  ghost function Pruned(index: Index, id: Id): Index
    requires Keyed(index)
  {
    map k | k in index && !OnBranch(index, k, id) :: index[k]
  }

  function Items(queue: seq<Id>): set<Id> {
    set k | k in queue
  }

  /** A queue of descendants of a block in which all children of the blocks in `done` have been put. */
  ghost predicate Frontier(index: Index, id: Id, queue: seq<Id>, done: set<Id>) {
    && Keyed(index) && id in queue && Distinct(queue)
    && (forall q :: q in queue ==> OnBranch(index, q, id))
    && (forall q :: q in queue && q != id ==> q in index && index[q].prev in done)
    && (forall c :: c in index && index[c].prev in done ==> c in queue)
  }

  ghost predicate ChildrenOf(index: Index, id: Id, cs: seq<Id>) {
    Distinct(cs) && forall c :: c in cs <==> c in index && index[c].prev == id
  }

  /** A child of a block in the queue that has not been looked at is not yet in the queue. */
  lemma ChildIsNew(index: Index, id: Id, queue: seq<Id>, done: set<Id>, q: Id, c: Id)
    requires Frontier(index, id, queue, done) && q in queue && q !in done && c in index && index[c].prev == q
    ensures c !in queue && OnBranch(index, c, id)
  {
    if c == id {
      BranchNum(index, q, id);
    }
  }

  lemma DistinctJoin(a: seq<Id>, b: seq<Id>)
    requires Distinct(a) && Distinct(b) && forall x :: x in b ==> x !in a
    ensures Distinct(a + b)
  {
    var s := a + b;
    forall i, j | 0 <= i < j < |s| ensures s[i] != s[j] {
      if i < |a| <= j {
        assert s[j] in b && s[i] in a;
      }
    }
  }

  lemma FrontierStep(index: Index, id: Id, queue: seq<Id>, done: set<Id>, q: Id, cs: seq<Id>)
    requires Frontier(index, id, queue, done) && q in queue && q !in done && ChildrenOf(index, q, cs)
    ensures Frontier(index, id, queue + cs, done + {q})
    ensures cs != [] ==> index.Keys - Items(queue + cs) < index.Keys - Items(queue)
  {
    hide OnBranch;
    forall c | c in cs ensures c !in queue && OnBranch(index, c, id) {
      ChildIsNew(index, id, queue, done, q, c);
    }
    DistinctJoin(queue, cs);
    if cs != [] {
      assert cs[0] in index.Keys - Items(queue) && cs[0] in queue + cs;
    }
  }

  /** A queue without anything left to look at holds the block and exactly its descendants. */
  lemma {:induction false} FrontierDone(index: Index, id: Id, queue: seq<Id>, k: Id)
    requires Frontier(index, id, queue, Items(queue))
    ensures k in queue <==> OnBranch(index, k, id)
    decreases k.num
  {
    if k != id && k in index {
      FrontierDone(index, id, queue, index[k].prev);
    }
  }

  // ----- what the operations keep -----

  /** Pruning keeps every walk that does not meet the pruned block. */
  lemma {:induction false} PrunedBranch(index: Index, id: Id, k: Id, anc: Id)
    requires Keyed(index) && OnBranch(index, k, anc) && !OnBranch(index, k, id)
    ensures OnBranch(Pruned(index, id), k, anc)
    decreases k.num
  {
    if k != anc {
      PrunedBranch(index, id, index[k].prev, anc);
    }
  }

  lemma PrunedTree(index: Index, root: Id, id: Id)
    requires Tree(index, root)
    ensures Tree(Pruned(index, id), root)
  {
    var pruned := Pruned(index, id);
    forall k | k in pruned ensures pruned[k].prev in pruned || pruned[k].prev == root {
      assert !OnBranch(index, index[k].prev, id);
    }
  }

  /** Beyond a block that has been taken out there is nothing to walk to. */
  lemma {:induction false} WalkStops(index: Index, id: Id, k: Id, below: Id)
    requires Keyed(index) && id !in index && OnBranch(index, k, id) && below.num < id.num
    ensures !OnBranch(index, k, below)
    decreases k.num
  {
    if k != id {
      BranchNum(index, k, id);
      WalkStops(index, id, index[k].prev, below);
    }
  }

  // ----- moving the root -----

  /** The index while the root moves from `root` to `id`: the blocks built on `id` are all there, and every
      other block still hangs on the old root. */
  ghost predicate Moving(index: Index, was: Index, root: Id, id: Id) {
    && Keyed(was) && Keyed(index) && id !in index && index.Keys <= was.Keys
    && (forall k :: k in index ==> index[k] == was[k])
    && (forall k :: k in was && k != id && OnBranch(was, k, id) ==> k in index && OnBranch(index, k, id))
    && (forall k :: k in index && !OnBranch(was, k, id) ==> OnBranch(index, k, root))
  }

  /** The blocks built on a block. */
  ghost function Above(index: Index, id: Id): Index
    requires Keyed(index)
  {
    map k | k in index && k != id && OnBranch(index, k, id) :: index[k]
  }

  lemma {:induction false} WithoutBlock(index: Index, root: Id, id: Id, k: Id)
    requires Tree(index, root) && id in index && (k in index || k == root) && k != id
    ensures Keyed(index - {id})
    ensures if OnBranch(index, k, id) then OnBranch(index - {id}, k, id) else OnBranch(index - {id}, k, root)
    decreases k.num
  {
    if k != root {
      var part := index - {id};
      if index[k].prev == id {
        assert OnBranch(index, k, id) && OnBranch(part, k, id);
      } else {
        WithoutBlock(index, root, id, index[k].prev);
        assert part[k] == index[k] && OnBranch(index, k, id) == OnBranch(index, index[k].prev, id);
      }
    }
  }

  lemma MoveStarts(index: Index, root: Id, id: Id)
    requires Tree(index, root) && id in index
    ensures Moving(index - {id}, index, root, id)
  {
    forall k | (k in index || k == root) && k != id
      ensures Keyed(index - {id})
      ensures if OnBranch(index, k, id) then OnBranch(index - {id}, k, id) else OnBranch(index - {id}, k, root)
    {
      WithoutBlock(index, root, id, k);
    }
    WithoutBlock(index, root, id, root);
  }

  /** Taking out an earlier block of the branch only takes out blocks that are not built on the new root. */
  lemma MoveStep(index: Index, was: Index, root: Id, id: Id, gone: Id)
    requires Moving(index, was, root, id) && gone.num < id.num
    ensures Moving(Pruned(index, gone), was, root, id)
    ensures forall k :: OnBranch(was, k, id) ==> !OnBranch(index, k, gone)
  {
    var next := Pruned(index, gone);
    forall k | OnBranch(was, k, id) ensures !OnBranch(index, k, gone) {
      WalkStops(index, id, k, gone);
    }
    forall k | k in was && k != id && OnBranch(was, k, id) ensures k in next && OnBranch(next, k, id) {
      PrunedBranch(index, gone, k, id);
    }
    forall k | k in next && !OnBranch(was, k, id) ensures OnBranch(next, k, root) {
      PrunedBranch(index, gone, k, root);
    }
  }

  /** Once the old root is taken out, exactly the blocks built on the new one are left. */
  lemma MoveEnds(index: Index, was: Index, root: Id, id: Id)
    requires Moving(index, was, root, id) && root.num < id.num
    ensures Pruned(index, root) == Above(was, id) && Tree(Above(was, id), id)
  {
    var next := Pruned(index, root);
    MoveStep(index, was, root, id, root);
    forall k | k in next ensures k in Above(was, id) && (next[k].prev in next || next[k].prev == id) {
      assert OnBranch(was, k, id);
      if was[k].prev != id {
        BranchNum(was, was[k].prev, id);
      }
    }
  }

  /** Given up half way, the move leaves the blocks built on the new root without a way to the old one. */
  lemma MoveBroken(index: Index, was: Index, root: Id, id: Id)
    requires Moving(index, was, root, id) && root.num < id.num && Above(was, id) != map[]
    ensures !Tree(index, root)
  {
    var k :| k in Above(was, id);
    WalkStops(index, id, k, root);
    if Tree(index, root) {
      RootReached(index, root, k);
    }
  }

  lemma MovingKeyed(index: Index, was: Index, root: Id, id: Id)
    requires Moving(index, was, root, id)
    ensures Keyed(index) && id !in index
  {
  }

  /** Where the head is while the root moves. */
  ghost predicate HeadKept(index: Index, was: Index, root: Id, id: Id, head: Id)
    requires Keyed(was)
  {
    OnBranch(was, head, id) || head == root || head in index
  }

  /** One round of the move: refused only if the head is not built on the new root, and never left undecided
      when the old root itself is taken out. */
  lemma MoveRound(index: Index, was: Index, root: Id, id: Id, gone: Id, head: Id)
    requires Moving(index, was, root, id) && gone.num < id.num && root.num < id.num
    requires HeadKept(index, was, root, id, head) && (head in was || head == root)
    ensures OnBranch(index, head, gone) ==> !OnBranch(was, head, id)
    ensures Moving(Pruned(index, gone), was, root, id)
    ensures !OnBranch(index, head, gone) ==> HeadKept(Pruned(index, gone), was, root, id, head)
    ensures gone == root ==> Pruned(index, gone) == Above(was, id) && Tree(Above(was, id), id)
    ensures gone == root && !OnBranch(index, head, gone) ==> OnBranch(was, head, id)
  {
    hide OnBranch;
    MoveStep(index, was, root, id, gone);
    if gone == root {
      MoveEnds(index, was, root, id);
      HeadDecides(index, was, root, id, head);
    }
  }

  lemma MoveStartsWithHead(index: Index, root: Block, head: Block, id: Id)
    requires Tree(index, root.id) && HeadInTree(index, root, head) && id in index
    ensures Moving(index - {id}, index, root.id, id) && HeadKept(index - {id}, index, root.id, id, head.id)
    ensures head.id in index || head.id == root.id
    ensures root.id.num < id.num
  {
    MoveStarts(index, root.id, id);
    RootReached(index, root.id, id);
    BranchNum(index, id, root.id);
  }

  lemma HeadDecides(index: Index, was: Index, root: Id, id: Id, head: Id)
    requires Moving(index, was, root, id) && HeadKept(index, was, root, id, head)
    ensures OnBranch(was, head, id) || OnBranch(index, head, root)
  {
  }

  /** The blocks above a new root on the head's branch are in order. */
  lemma MovedIsValid(was: Index, root: Block, id: Id, head: Block)
    requires Tree(was, root.id) && HeadInTree(was, root, head) && HeadIsBest(was, head)
    requires id in was && OnBranch(was, head.id, id)
    ensures HeadInTree(Above(was, id), was[id], head) && HeadIsBest(Above(was, id), head)
  {
    if head == root {
      BranchNum(was, root.id, id);
    }
  }

  // ----- preference -----

  /** The first block of the ordered index is valid if any is, and the best of the valid ones. */
  lemma FirstIsBest(index: Index, b: Block)
    requires Keyed(index) && IsFirst(index, b)
    ensures (exists id :: id in index && index[id].valid) ==> b.valid && HeadIsBest(index, b)
  {
  }

  /** No validated block has a later irreversible block than the head, or the same one and a higher number. */
  ghost predicate HeadIsBest(index: Index, head: Block) {
    forall id :: id in index && index[id].valid ==>
                 index[id].lib < head.lib || (index[id].lib == head.lib && id.num <= head.id.num)
  }

  ghost predicate HeadInTree(index: Index, root: Block, head: Block) {
    head == root || (head.id in index && index[head.id] == head && head.valid)
  }

  /** Adding a block that is not validated can still change the head: exactly when a validated block as good as
      the head has a smaller digest. */
  lemma TiedHeadYields(index: Index, head: Block, n: Block, first: Block)
    requires Keyed(index) && head.id in index && index[head.id] == head && head.valid && HeadIsBest(index, head)
    requires n.id !in index && !n.valid && Numbered(n) && IsFirst(index[n.id := n], first)
    ensures first != head <==>
            exists id :: && id in index && index[id].valid && id.digest < head.id.digest
                         && index[id].lib == head.lib && id.num == head.id.num
  {
    var now := index[n.id := n];
    assert head.id in now && now[head.id] == head;
    assert first.id != head.id ==> Ahead(first, head);
    if first.id != head.id {
      assert first.valid && first.id in index;
    }
    forall id | id in index && id != head.id ensures first == head ==> Ahead(head, index[id]) {
      assert now[id] == index[id];
    }
  }

  /** The first block in the order among those seen that are not validated. */
  ghost predicate BestPending(index: Index, todo: set<Id>, best: Option<Block>) {
    && (best.Some? ==> best.value.id in index && index[best.value.id] == best.value && !best.value.valid)
    && forall id :: id in index && id !in todo && !index[id].valid ==>
                    best.Some? && (id == best.value.id || Precedes(best.value, index[id]))
  }

  lemma NoneSeen(index: Index)
    ensures BestPending(index, index.Keys, None)
  {
  }

  lemma BestSeen(index: Index, todo: set<Id>, best: Option<Block>, k: Id)
    requires Keyed(index) && k in todo && todo <= index.Keys && BestPending(index, todo, best)
    ensures var better := !index[k].valid && (best.None? || Precedes(index[k], best.value));
            BestPending(index, todo - {k}, if better then Some(index[k]) else best)
  {
    forall id | id in index && id !in todo && !index[id].valid
      ensures best.Some? && Precedes(index[k], best.value) ==> id == k || Precedes(index[k], index[id])
    {
    }
  }

  lemma AllSeen(index: Index, best: Option<Block>, head: Block)
    requires Keyed(index) && HeadIsBest(index, head) && BestPending(index, {}, best)
    ensures var b := if best.Some? && FirstPreferred(best.value, head) then best.value else head;
            forall id :: id in index ==>
                         index[id].lib < b.lib || (index[id].lib == b.lib && id.num <= b.id.num)
    ensures best.Some? ==> best.value.id in index && index[best.value.id] == best.value && !best.value.valid
  {
  }

  class ForkDatabase {
    var index: Index
    var root: Block
    var head: Block

    ghost predicate Valid()
      reads this
    {
      Tree(index, root.id) && HeadInTree(index, root, head) && HeadIsBest(index, head)
    }

    constructor (start: Block)
      ensures Valid() && index == map[] && root == head == start.(valid := true)
    {
      index := map[];
      root := start.(valid := true);
      head := start.(valid := true);
    }

    method Reset(start: Block)
      modifies this
      ensures Valid() && index == map[] && root == head == start.(valid := true)
    {
      index := map[];
      root := start.(valid := true);
      head := root;
    }

    /** The first block of the index in its order. */
    method First() returns (c: Option<Block>)
      requires Keyed(index)
      ensures c.None? <==> index == map[]
      ensures c.Some? ==> IsFirst(index, c.value)
    {
      c := None;
      var todo := index.Keys;
      while todo != {}
        invariant todo <= index.Keys
        invariant c.None? <==> todo == index.Keys
        invariant c.Some? ==> c.value.id in index && index[c.value.id] == c.value
        invariant c.Some? ==>
                    forall id :: id in index && id !in todo && id != c.value.id ==> Precedes(c.value, index[id])
      {
        var k :| k in todo;
        if c.None? || Precedes(index[k], c.value) {
          c := Some(index[k]);
        }
        todo := todo - {k};
      }
      assert index.Keys == {} ==> index == map[];
    }

    /** Adds a block; it must link to a block of the index or to the root. */
    method Add(n: Block, ignoreDuplicate: bool) returns (r: Outcome)
      requires Valid() && Numbered(n)
      modifies this
      ensures Valid() && root == old(root)
      ensures r == Unlinkable <==> n.prev != root.id && n.prev !in old(index)
      ensures r == Duplicate <==> r != Unlinkable && n.id in old(index) && !ignoreDuplicate
      ensures r in {Done, Unlinkable, Duplicate}
      ensures r != Done || n.id in old(index) ==> index == old(index) && head == old(head)
      ensures r == Done && n.id !in old(index) ==> index == old(index)[n.id := n]
      ensures r == Done && n.id !in old(index) ==>
                if exists id :: id in index && index[id].valid then IsFirst(index, head) else head == old(head)
    {
      hide IsFirst, HeadIsBest, HeadInTree;
      if n.prev != root.id && n.prev !in index {
        return Unlinkable;
      }
      if n.id in index {
        return if ignoreDuplicate then Done else Duplicate;
      }
      AddedTree(index, root.id, n);
      index := index[n.id := n];
      assert n.id in index;
      var candidate := First();
      FirstValid(index, candidate.value);
      AddedHead(old(index), root, head, n, candidate.value);
      if candidate.value.valid {
        head := candidate.value;
      }
      r := Done;
    }

    /** Marks a block as validated and makes it the head if it is preferred to the head. */
    method MarkValid(h: Block) returns (r: Outcome)
      requires Valid() && (h.id in index ==> index[h.id] == h)
      modifies this
      ensures Valid() && root == old(root)
      ensures r == NotFound <==> !h.valid && h.id !in old(index)
      ensures r in {Done, NotFound}
      ensures r != Done || h.valid ==> index == old(index) && head == old(head)
      ensures r == Done && !h.valid ==> index == old(index)[h.id := h.(valid := true)]
      ensures r == Done && !h.valid ==>
                head == if h.lib > old(head).lib || (h.lib == old(head).lib && h.id.num > old(head).id.num)
                        then h.(valid := true) else old(head)
      ensures head.lib > old(head).lib || (head.lib == old(head).lib && head.id.num >= old(head).id.num)
    {
      hide IsFirst, HeadIsBest, HeadInTree;
      if h.valid {
        return Done;
      }
      if h.id !in index {
        return NotFound;
      }
      var now := h.(valid := true);
      MarkedTree(index, root.id, now);
      index := index[h.id := now];
      assert h.id in index;
      var candidate := First();
      MarkedFirst(old(index), head, now, candidate.value);
      MarkedHead(old(index), root, head, now);
      if FirstPreferred(candidate.value, head) {
        head := candidate.value;
      }
      r := Done;
    }

    method Children(id: Id) returns (cs: seq<Id>)
      ensures ChildrenOf(index, id, cs)
    {
      cs := [];
      var todo := index.Keys;
      while todo != {}
        invariant todo <= index.Keys && Distinct(cs)
        invariant forall c :: c in cs <==> c in index && c !in todo && index[c].prev == id
      {
        var k :| k in todo;
        if index[k].prev == id {
          cs := cs + [k];
        }
        todo := todo - {k};
      }
    }

    /** The ids of a block and of everything built on it, or whether the head is one of them. */
    method Descendants(id: Id) returns (queue: seq<Id>, meetsHead: bool)
      requires Keyed(index)
      ensures meetsHead <==> OnBranch(index, head.id, id)
      ensures !meetsHead ==> forall k :: k in queue <==> OnBranch(index, k, id)
    {
      queue := [id];
      meetsHead := false;
      var i := 0;
      ghost var done: set<Id> := {};
      while i < |queue|
        invariant i <= |queue| && Frontier(index, id, queue, done) && done == Items(queue[..i]) && head.id !in done
        decreases index.Keys - Items(queue), |queue| - i
      {
        if queue[i] == head.id {
          meetsHead := true;
          return;
        }
        var cs := Children(queue[i]);
        NotDone(queue, i);
        FrontierStep(index, id, queue, done, queue[i], cs);
        QueuePrefix(queue, cs, i);
        queue, i, done := queue + cs, i + 1, done + {queue[i]};
      }
      assert queue[..i] == queue;
      forall k ensures k in queue <==> OnBranch(index, k, id) {
        FrontierDone(index, id, queue, k);
      }
    }

    /** Takes out a block and everything built on it, unless the head is among them. */
    method Remove(id: Id) returns (r: Outcome)
      requires Keyed(index)
      modifies this`index
      ensures r == HeadInTheWay <==> OnBranch(old(index), head.id, id)
      ensures r in {Done, HeadInTheWay}
      ensures index == if r == Done then Pruned(old(index), id) else old(index)
      ensures old(Valid()) ==> Valid()
    {
      var queue, meetsHead := Descendants(id);
      if meetsHead {
        return HeadInTheWay;
      }
      for j := 0 to |queue|
        invariant index == old(index) - Items(queue[..j])
      {
        ErasedOne(old(index), queue, j);
        index := index - {queue[j]};
      }
      assert queue[..|queue|] == queue;
      assert index == Pruned(old(index), id);
      RemoveKeeps(old(index), root, head, id);
      r := Done;
    }

    /** The ids of the blocks before a block, down to the root. */
    method Before(b: Block) returns (gone: seq<Id>)
      requires Tree(index, root.id) && b.id in index && index[b.id] == b
      ensures gone != [] && gone[|gone| - 1] == root.id && forall j :: 0 <= j < |gone| ==> gone[j].num < b.id.num
    {
      gone := [b.prev];
      while gone[|gone| - 1] in index
        invariant gone != [] && (gone[|gone| - 1] in index || gone[|gone| - 1] == root.id)
        invariant forall j :: 0 <= j < |gone| ==> gone[j].num < b.id.num
        decreases gone[|gone| - 1].num
      {
        gone := gone + [index[gone[|gone| - 1]].prev];
      }
    }

    /** Takes out the blocks before the new root with all that is built on them; the last one is the old root. */
    method TakeOut(gone: seq<Id>, id: Id, ghost was: Index) returns (ok: bool)
      requires Keyed(was) && Moving(index, was, root.id, id) && HeadKept(index, was, root.id, id, head.id)
      requires (head.id in was || head.id == root.id) && root.id.num < id.num
      requires gone != [] && gone[|gone| - 1] == root.id && forall j :: 0 <= j < |gone| ==> gone[j].num < id.num
      modifies this`index
      ensures id !in index && (ok <==> OnBranch(was, head.id, id))
      ensures ok ==> index == Above(was, id) && Tree(index, id)
      ensures !ok && Above(was, id) != map[] ==> !Tree(index, root.id)
    {
      hide OnBranch, Pruned, Above, HeadKept, Moving;
      MovingKeyed(index, was, root.id, id);
      for j := 0 to |gone|
        invariant Keyed(was) && Moving(index, was, root.id, id) && id !in index
        invariant HeadKept(index, was, root.id, id, head.id)
        invariant j == |gone| ==> index == Above(was, id) && Tree(index, id) && OnBranch(was, head.id, id)
      {
        MoveRound(index, was, root.id, id, gone[j], head.id);
        MovingKeyed(index, was, root.id, id);
        MovingKeyed(Pruned(index, gone[j]), was, root.id, id);
        var taken := Remove(gone[j]);
        if taken != Done {
          if Above(was, id) != map[] {
            MoveBroken(index, was, root.id, id);
          }
          return false;
        }
      }
      ok := true;
    }

    /** Makes a validated block the root: what is not built on it is dropped. It goes through exactly when the
        head is on the branch of the new root; otherwise the new root has already left the index, and what was
        built on it is cut off. */
    method AdvanceRoot(id: Id) returns (r: Outcome)
      requires Valid()
      modifies this
      ensures r == NotFound <==> id !in old(index)
      ensures r == NotValid <==> id in old(index) && !old(index)[id].valid
      ensures r == Done <==> id in old(index) && old(index)[id].valid && OnBranch(old(index), head.id, id)
      ensures r in {Done, NotFound, NotValid, HeadInTheWay} && head == old(head)
      ensures r in {NotFound, NotValid} ==> index == old(index)
      ensures r == HeadInTheWay ==> id !in index && (Above(old(index), id) != map[] ==> !Valid())
      ensures r != Done ==> root == old(root)
      ensures r == Done ==> Valid() && root == old(index)[id] && index == Above(old(index), id)
    {
      hide OnBranch, Above, HeadKept, HeadInTree, HeadIsBest, Moving;
      if id !in index {
        return NotFound;
      }
      if !index[id].valid {
        return NotValid;
      }
      MoveStartsWithHead(index, root, head, id);
      var newRoot := index[id];
      var gone := Before(newRoot);
      index := index - {id};
      var ok := TakeOut(gone, id, old(index));
      if !ok {
        return HeadInTheWay;
      }
      MovedIsValid(old(index), old(root), id, head);
      root := newRoot;
      r := Done;
    }

    method RollbackHeadToRoot()
      requires Valid()
      modifies this
      ensures Valid() && root == old(root) && head == root
      ensures index.Keys == old(index).Keys
      ensures forall id :: id in index ==> index[id] == old(index)[id].(valid := false)
    {
      var todo := index.Keys;
      while todo != {}
        invariant todo <= index.Keys == old(index).Keys
        invariant forall id :: id in index ==>
                    index[id] == if id in todo then old(index)[id] else old(index)[id].(valid := false)
        modifies this`index
      {
        var k :| k in todo;
        index := index[k := index[k].(valid := false)];
        todo := todo - {k};
      }
      head := root;
    }

    /** The best block of all, validated or not. */
    method PendingHead() returns (b: Block)
      requires Valid()
      ensures b == head || (b.id in index && index[b.id] == b && !b.valid)
      ensures b == head || b.lib > head.lib || (b.lib == head.lib && b.id.num > head.id.num)
      ensures forall id :: id in index ==>
                           index[id].lib < b.lib || (index[id].lib == b.lib && id.num <= b.id.num)
    {
      hide BestPending, Precedes;
      b := head;
      var best: Option<Block> := None;
      var todo := index.Keys;
      NoneSeen(index);
      while todo != {}
        invariant todo <= index.Keys && BestPending(index, todo, best)
      {
        var k :| k in todo;
        BestSeen(index, todo, best, k);
        if !index[k].valid && (best.None? || Precedes(index[k], best.value)) {
          best := Some(index[k]);
        }
        todo := todo - {k};
      }
      AllSeen(index, best, head);
      if best.Some? && FirstPreferred(best.value, head) {
        b := best.value;
      }
    }

    /** The block with a number on the branch that ends at `h`. */
    method SearchOnBranch(h: Id, num: nat) returns (b: Option<Block>)
      requires Keyed(index)
      ensures b.Some? ==> b.value.id in index && index[b.value.id] == b.value
      ensures b.Some? ==> OnBranch(index, h, b.value.id) && b.value.id.num == num
      ensures b.None? ==> forall k :: k in index && OnBranch(index, h, k) ==> k.num != num
    {
      var s := h;
      while s in index
        invariant OnBranch(index, h, s)
        invariant forall k :: k in index && OnBranch(index, h, k) && k.num == num ==> OnBranch(index, s, k)
        decreases s.num
      {
        if s.num == num {
          return Some(index[s]);
        }
        BranchTrans(index, h, s, index[s].prev);
        s := index[s].prev;
      }
      b := None;
    }

    /** The blocks of the branch that ends at `h` up to a number, latest first. */
    method FetchBranch(h: Id, trim: nat) returns (branch: seq<Block>)
      requires Keyed(index)
      ensures forall b :: b in branch <==>
                          b.id in index && index[b.id] == b && OnBranch(index, h, b.id) && b.id.num <= trim
      ensures forall i :: 0 < i < |branch| ==> branch[i - 1].prev == branch[i].id
    {
      hide OnBranch, Collected;
      branch := [];
      var s := h;
      CollectedNothing(index, h, trim);
      while s in index
        invariant Collected(index, h, s, trim, branch)
        decreases s.num
      {
        CollectedOne(index, h, s, trim, branch);
        if s.num <= trim {
          branch := branch + [index[s]];
        }
        s := index[s].prev;
      }
      CollectedAll(index, h, s, trim, branch);
    }

    ghost predicate Present(id: Id)
      reads this
    {
      id in index || id == root.id
    }

    /** The two branches from two blocks back to their lowest common ancestor. */
    method FetchBranchFrom(first: Id, second: Id) returns (ok: bool, left: seq<Block>, right: seq<Block>)
      requires Tree(index, root.id)
      ensures ok <==> Present(first) && Present(second)
      ensures ok ==> var c := CommonAncestor(index, root.id, first, second);
                     left == PathTo(index, first, c) && right == PathTo(index, second, c)
    {
      hide CommonAncestor, PathTo, OnBranch, Walked;
      ok, left, right := false, [], [];
      if (first != root.id && first !in index) || (second != root.id && second !in index) {
        return;
      }
      ok := true;
      ghost var c := CommonAncestor(index, root.id, first, second);
      var a, b := first, second;
      WalkedNothing(index, first, c);
      WalkedNothing(index, second, c);
      while a.num > b.num
        invariant Present(a) && Present(b) && CommonAncestor(index, root.id, a, b) == c
        invariant Walked(index, first, a, c, left)
        decreases a.num
      {
        WalkHigher(index, root.id, a, b);
        WalkedOn(index, first, a, c, left);
        left := left + [index[a]];
        a := index[a].prev;
      }
      while b.num > a.num
        invariant Present(a) && Present(b) && a.num <= b.num && CommonAncestor(index, root.id, a, b) == c
        invariant Walked(index, second, b, c, right)
        decreases b.num
      {
        WalkOther(index, root.id, a, b);
        WalkedOn(index, second, b, c, right);
        right := right + [index[b]];
        b := index[b].prev;
      }
      var l, r := [], [];
      if a == b {
        WalkEnds(index, root.id, a);
      } else {
        l, r := DownTogether(a, b);
      }
      WalkedAll(index, first, a, c, left, l);
      WalkedAll(index, second, b, c, right, r);
      left, right := left + l, right + r;
    }

    /** The last part of the walk: two different blocks with the same number. */
    method DownTogether(first: Id, second: Id) returns (left: seq<Block>, right: seq<Block>)
      requires Tree(index, root.id) && Present(first) && Present(second) && first != second && first.num == second.num
      ensures var c := CommonAncestor(index, root.id, first, second);
              left == PathTo(index, first, c) && right == PathTo(index, second, c)
    {
      hide CommonAncestor, PathTo, OnBranch, Walked;
      left, right := [], [];
      ghost var c := CommonAncestor(index, root.id, first, second);
      var a, b := first, second;
      WalkedNothing(index, first, c);
      WalkedNothing(index, second, c);
      WalkBoth(index, root.id, a, b);
      while index[a].prev != index[b].prev
        invariant a in index && b in index && a.num == b.num && a != b && CommonAncestor(index, root.id, a, b) == c
        invariant Walked(index, first, a, c, left)
        invariant Walked(index, second, b, c, right)
        decreases a.num
      {
        WalkBoth(index, root.id, a, b);
        WalkedOn(index, first, a, c, left);
        WalkedOn(index, second, b, c, right);
        left, right := left + [index[a]], right + [index[b]];
        a, b := index[a].prev, index[b].prev;
        WalkBoth(index, root.id, a, b);
      }
      WalkBoth(index, root.id, a, b);
      WalkEnds(index, root.id, index[a].prev);
      WalkedOn(index, first, a, c, left);
      WalkedOn(index, second, b, c, right);
      WalkedAll(index, first, c, c, left + [index[a]], []);
      WalkedAll(index, second, c, c, right + [index[b]], []);
      left, right := left + [index[a]], right + [index[b]];
    }
  }

  // ----- collecting a branch -----

  ghost predicate OfBranch(index: Index, h: Id, trim: nat, b: Block)
    requires Keyed(index)
  {
    b.id in index && index[b.id] == b && OnBranch(index, h, b.id) && b.id.num <= trim
  }

  /** The blocks collected on the way from `h` down to `s`. */
  ghost predicate Collected(index: Index, h: Id, s: Id, trim: nat, branch: seq<Block>) {
    && Keyed(index) && OnBranch(index, h, s)
    && (forall b :: b in branch ==> OfBranch(index, h, trim, b))
    && (forall b :: OfBranch(index, h, trim, b) ==> b in branch || OnBranch(index, s, b.id))
    && (branch != [] ==> branch[|branch| - 1].prev == s && s.num <= trim)
    && (forall i :: 0 < i < |branch| ==> branch[i - 1].prev == branch[i].id)
  }

  lemma CollectedNothing(index: Index, h: Id, trim: nat)
    requires Keyed(index)
    ensures Collected(index, h, h, trim, [])
  {
  }

  lemma CollectedOne(index: Index, h: Id, s: Id, trim: nat, branch: seq<Block>)
    requires Collected(index, h, s, trim, branch) && s in index
    ensures Collected(index, h, index[s].prev, trim, if s.num <= trim then branch + [index[s]] else branch)
  {
    BranchTrans(index, h, s, index[s].prev);
    var next := index[s].prev;
    forall b | OfBranch(index, h, trim, b) && b !in branch ensures b == index[s] || OnBranch(index, next, b.id) {
      assert OnBranch(index, s, b.id);
    }
  }

  lemma CollectedAll(index: Index, h: Id, s: Id, trim: nat, branch: seq<Block>)
    requires Collected(index, h, s, trim, branch) && s !in index
    ensures forall b :: b in branch <==>
                        b.id in index && index[b.id] == b && OnBranch(index, h, b.id) && b.id.num <= trim
    ensures forall i :: 0 < i < |branch| ==> branch[i - 1].prev == branch[i].id
  {
    forall b | OfBranch(index, h, trim, b) ensures b in branch {
      assert OnBranch(index, s, b.id) ==> b.id == s;
    }
    assert forall b :: OfBranch(index, h, trim, b) <==> b in branch;
    forall b ensures b in branch <==>
                     b.id in index && index[b.id] == b && OnBranch(index, h, b.id) && b.id.num <= trim
    {
      assert OfBranch(index, h, trim, b) <==> b in branch;
    }
  }

  // ----- the walk to the common ancestor -----

  lemma JoinOne(s: seq<Block>, x: Block, t: seq<Block>)
    ensures s + ([x] + t) == s + [x] + t
  {
  }

  /** The blocks walked so far on the way from `start` to `c`, of which `a` comes next. */
  ghost predicate Walked(index: Index, start: Id, a: Id, c: Id, walked: seq<Block>)
    requires Keyed(index)
  {
    PathTo(index, start, c) == walked + PathTo(index, a, c)
  }

  lemma WalkedNothing(index: Index, start: Id, c: Id)
    requires Keyed(index)
    ensures Walked(index, start, start, c, [])
  {
    hide PathTo;
  }

  lemma WalkedOn(index: Index, start: Id, a: Id, c: Id, walked: seq<Block>)
    requires Keyed(index) && a in index && Walked(index, start, a, c, walked)
    requires PathTo(index, a, c) == [index[a]] + PathTo(index, index[a].prev, c)
    ensures Walked(index, start, index[a].prev, c, walked + [index[a]])
  {
    hide PathTo;
    JoinOne(walked, index[a], PathTo(index, index[a].prev, c));
  }

  lemma WalkedAll(index: Index, start: Id, a: Id, c: Id, walked: seq<Block>, rest: seq<Block>)
    requires Keyed(index) && Walked(index, start, a, c, walked) && rest == PathTo(index, a, c)
    ensures walked + rest == PathTo(index, start, c)
    ensures rest == [] ==> walked == PathTo(index, start, c)
  {
    hide PathTo;
  }

  lemma RootLowest(index: Index, root: Id, id: Id)
    requires Tree(index, root) && (id in index || id == root)
    ensures id != root ==> root.num < id.num
  {
    RootReached(index, root, id);
    if id != root {
      BranchNum(index, id, root);
    }
  }

  lemma WalkHigher(index: Index, root: Id, a: Id, b: Id)
    requires Tree(index, root) && (a in index || a == root) && (b in index || b == root) && a.num > b.num
    ensures a in index && (index[a].prev in index || index[a].prev == root)
    ensures var c := CommonAncestor(index, root, a, b);
            && c == CommonAncestor(index, root, index[a].prev, b)
            && PathTo(index, a, c) == [index[a]] + PathTo(index, index[a].prev, c)
  {
    RootLowest(index, root, a);
    RootLowest(index, root, b);
    CommonAncestorLowest(index, root, a, b);
    var c := CommonAncestor(index, root, a, b);
    if c != b {
      BranchNum(index, b, c);
    }
  }

  lemma WalkOther(index: Index, root: Id, a: Id, b: Id)
    requires Tree(index, root) && (a in index || a == root) && (b in index || b == root) && b.num > a.num
    ensures b in index && (index[b].prev in index || index[b].prev == root)
    ensures var c := CommonAncestor(index, root, a, b);
            && c == CommonAncestor(index, root, a, index[b].prev)
            && PathTo(index, b, c) == [index[b]] + PathTo(index, index[b].prev, c)
  {
    RootLowest(index, root, a);
    RootLowest(index, root, b);
    CommonAncestorLowest(index, root, a, b);
    var c := CommonAncestor(index, root, a, b);
    if c != a {
      BranchNum(index, a, c);
    }
  }

  lemma WalkBoth(index: Index, root: Id, a: Id, b: Id)
    requires Tree(index, root) && (a in index || a == root) && (b in index || b == root) && b.num == a.num && a != b
    ensures a in index && b in index
    ensures index[a].prev in index || index[a].prev == root
    ensures index[b].prev in index || index[b].prev == root
    ensures index[a].prev.num == index[b].prev.num
    ensures var c := CommonAncestor(index, root, a, b);
            && c == CommonAncestor(index, root, index[a].prev, index[b].prev)
            && PathTo(index, a, c) == [index[a]] + PathTo(index, index[a].prev, c)
            && PathTo(index, b, c) == [index[b]] + PathTo(index, index[b].prev, c)
  {
    RootLowest(index, root, a);
    RootLowest(index, root, b);
    CommonAncestorLowest(index, root, a, b);
    var c := CommonAncestor(index, root, a, b);
    if c == a {
      BranchNum(index, b, c);
    } else if c == b {
      BranchNum(index, a, c);
    }
  }

  lemma WalkEnds(index: Index, root: Id, a: Id)
    requires Tree(index, root) && (a in index || a == root)
    ensures CommonAncestor(index, root, a, a) == a && PathTo(index, a, a) == []
  {
  }

  lemma NotDone(queue: seq<Id>, i: nat)
    requires i < |queue| && Distinct(queue)
    ensures queue[i] !in Items(queue[..i])
  {
  }

  lemma QueuePrefix(queue: seq<Id>, cs: seq<Id>, i: nat)
    requires i < |queue|
    ensures Items((queue + cs)[..i + 1]) == Items(queue[..i]) + {queue[i]}
  {
    assert (queue + cs)[..i + 1] == queue[..i] + [queue[i]];
  }

  lemma ErasedOne(index: Index, queue: seq<Id>, j: nat)
    requires j < |queue|
    ensures index - Items(queue[..j]) - {queue[j]} == index - Items(queue[..j + 1])
  {
    assert queue[..j + 1] == queue[..j] + [queue[j]];
  }

  lemma RemoveKeeps(index: Index, root: Block, head: Block, id: Id)
    requires Keyed(index) && !OnBranch(index, head.id, id)
    ensures var pruned := Pruned(index, id);
            Tree(index, root.id) && HeadInTree(index, root, head) && HeadIsBest(index, head) ==>
            Tree(pruned, root.id) && HeadInTree(pruned, root, head) && HeadIsBest(pruned, head)
  {
    if Tree(index, root.id) {
      PrunedTree(index, root.id, id);
    }
  }

  lemma AddedTree(index: Index, root: Id, n: Block)
    requires Tree(index, root) && Numbered(n) && (n.prev == root || n.prev in index)
    ensures Tree(index[n.id := n], root)
  {
    RootReached(index, root, n.prev);
    if n.prev != root {
      BranchNum(index, n.prev, root);
    }
  }

  lemma FirstValid(index: Index, first: Block)
    requires IsFirst(index, first)
    ensures first.valid <==> exists id :: id in index && index[id].valid
  {
    assert index[first.id] == first;
  }

  lemma AddedHead(index: Index, root: Block, head: Block, n: Block, first: Block)
    requires Keyed(index) && Numbered(n) && HeadInTree(index, root, head) && HeadIsBest(index, head)
    requires n.id !in index && IsFirst(index[n.id := n], first)
    ensures var best := if first.valid then first else head;
            HeadInTree(index[n.id := n], root, best) && HeadIsBest(index[n.id := n], best)
  {
    var now := index[n.id := n];
    FirstIsBest(now, first);
    if !first.valid {
      FirstValid(now, first);
    } else {
      assert now[first.id].valid;
    }
  }

  lemma MarkedTree(index: Index, root: Id, now: Block)
    requires Tree(index, root) && now.id in index && now == index[now.id].(valid := true)
    ensures Tree(index[now.id := now], root)
  {
  }

  /** Once a block is marked, the first block can be preferred to the head only if it is that block. */
  lemma MarkedFirst(index: Index, head: Block, now: Block, first: Block)
    requires HeadIsBest(index, head) && now.id in index && now == index[now.id].(valid := true)
    requires IsFirst(index[now.id := now], first)
    ensures FirstPreferred(first, head) <==>
            now.lib > head.lib || (now.lib == head.lib && now.id.num > head.id.num)
    ensures FirstPreferred(first, head) ==> first == now
  {
    assert now.id in index[now.id := now];
    assert first.id != now.id ==> Ahead(first, now) && first.valid && index[first.id] == first;
  }

  /** The better one of the head and the marked block is the best validated block. */
  lemma MarkedHead(index: Index, root: Block, head: Block, now: Block)
    requires Keyed(index) && HeadInTree(index, root, head) && HeadIsBest(index, head)
    requires now.id in index && !index[now.id].valid && now == index[now.id].(valid := true)
    ensures var best := if FirstPreferred(now, head) then now else head;
            HeadInTree(index[now.id := now], root, best) && HeadIsBest(index[now.id := now], best)
  {
    var marked := index[now.id := now];
    forall id | id in marked && marked[id].valid && id != now.id ensures index[id].valid {
    }
  }
}
