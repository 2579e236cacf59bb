/**
  The tree of blocks that the fork database keeps above its root
  (libraries/chain/fork_database.cpp): branches, common ancestors and preference.
*/
module ForkTree {
  import opened Lists

  /** A block's id holds its number; the rest is its digest. */
  datatype Id = Id(num: nat, digest: nat)

  /** What the fork database reads of a block state. */
  datatype Block = Block(id: Id, prev: Id, lib: nat, valid: bool)

  /** A block's number is one more than that in its predecessor's id (libraries/chain/block_header.cpp). */
  predicate Numbered(b: Block) {
    b.id.num == b.prev.num + 1
  }

  type Index = map<Id, Block>

  ghost predicate Keyed(index: Index) {
    forall id :: id in index ==> index[id].id == id && Numbered(index[id])
  }

  /** Every block hangs on another one or on the root. */
  ghost predicate Tree(index: Index, root: Id) {
    && Keyed(index) && root !in index
    && forall id :: id in index ==> index[id].prev in index || index[id].prev == root
  }

  // ----- branches -----

  /** `anc` is `id` or one of the blocks before it, as far as the index goes. */
  ghost predicate OnBranch(index: Index, id: Id, anc: Id)
    requires Keyed(index)
    decreases id.num
  {
    id == anc || (id in index && OnBranch(index, index[id].prev, anc))
  }

  /** The blocks from `id` back to, but not including, `anc`. */
  ghost function PathTo(index: Index, id: Id, anc: Id): seq<Block>
    requires Keyed(index)
    decreases id.num
  {
    if id == anc || id !in index then [] else [index[id]] + PathTo(index, index[id].prev, anc)
  }

  /** The path from a block down to an ancestor: from the block itself to the one built on the ancestor, each built
      on the next, as many as their numbers are apart. */
  lemma {:induction false} PathExactly(index: Index, id: Id, anc: Id)
    requires Keyed(index) && OnBranch(index, id, anc)
    ensures var p := PathTo(index, id, anc);
            && |p| == id.num - anc.num && (p == [] <==> id == anc)
            && (p != [] ==> p[0].id == id && p[|p| - 1].prev == anc)
            && (forall i :: 0 <= i < |p| ==> p[i].id in index && index[p[i].id] == p[i])
            && forall i :: 0 < i < |p| ==> p[i - 1].prev == p[i].id
    decreases id.num
  {
    if id != anc {
      PathExactly(index, index[id].prev, anc);
    }
  }

  lemma {:induction false} BranchNum(index: Index, id: Id, anc: Id)
    requires Keyed(index) && OnBranch(index, id, anc) && id != anc
    ensures id in index && anc.num < id.num
    decreases id.num
  {
    if index[id].prev != anc {
      BranchNum(index, index[id].prev, anc);
    }
  }

  lemma {:induction false} RootReached(index: Index, root: Id, id: Id)
    requires Tree(index, root) && (id in index || id == root)
    ensures OnBranch(index, id, root)
    decreases id.num
  {
    if id != root {
      RootReached(index, root, index[id].prev);
    }
  }

  lemma {:induction false} BranchTrans(index: Index, a: Id, b: Id, c: Id)
    requires Keyed(index) && OnBranch(index, a, b) && OnBranch(index, b, c)
    ensures OnBranch(index, a, c)
    decreases a.num
  {
    if a != b {
      BranchTrans(index, index[a].prev, b, c);
    }
  }

  /** Of two blocks on one branch the earlier one is on the branch of the later one. */
  lemma {:induction false} BranchLinear(index: Index, id: Id, a: Id, b: Id)
    requires Keyed(index) && OnBranch(index, id, a) && OnBranch(index, id, b) && a.num <= b.num
    ensures OnBranch(index, b, a)
    decreases id.num
  {
    if id != b {
      BranchNum(index, id, b);
      BranchLinear(index, index[id].prev, a, b);
    }
  }

  // ----- the lowest common ancestor -----

  ghost function CommonAncestor(index: Index, root: Id, a: Id, b: Id): Id
    requires Tree(index, root) && (a in index || a == root) && (b in index || b == root)
    decreases a.num + b.num
  {
    if a == b then a
    else
      RootReached(index, root, a);
      RootReached(index, root, b);
      if a != root && b != root && a.num == b.num then
        CommonAncestor(index, root, index[a].prev, index[b].prev)
      else if a != root && (b == root || a.num > b.num) then
        CommonAncestor(index, root, index[a].prev, b)
      else
        CommonAncestor(index, root, a, index[b].prev)
  }

  /** It is on both branches, and every block on both is on its own. */
  lemma {:induction false} CommonAncestorLowest(index: Index, root: Id, a: Id, b: Id)
    requires Tree(index, root) && (a in index || a == root) && (b in index || b == root)
    ensures var c := CommonAncestor(index, root, a, b);
            && (c in index || c == root) && OnBranch(index, a, c) && OnBranch(index, b, c)
            && forall d :: OnBranch(index, a, d) && OnBranch(index, b, d) ==> OnBranch(index, c, d)
    decreases a.num + b.num
  {
    if a != b {
      var c := CommonAncestor(index, root, a, b);
      RootReached(index, root, a);
      RootReached(index, root, b);
      if a != root && b != root && a.num == b.num {
        CommonAncestorLowest(index, root, index[a].prev, index[b].prev);
      } else if a != root && (b == root || a.num > b.num) {
        CommonAncestorLowest(index, root, index[a].prev, b);
      } else {
        CommonAncestorLowest(index, root, a, index[b].prev);
      }
      forall d | OnBranch(index, a, d) && OnBranch(index, b, d) ensures OnBranch(index, c, d) {
        SharedBelow(index, root, a, b, d);
      }
    }
  }

  /** A block on two different branches is not the higher of the two tips. */
  lemma SharedBelow(index: Index, root: Id, a: Id, b: Id, d: Id)
    requires Tree(index, root) && (a in index || a == root) && (b in index || b == root) && a != b
    requires OnBranch(index, a, d) && OnBranch(index, b, d)
    ensures a.num >= b.num ==> a != d
    ensures b.num >= a.num ==> b != d
  {
    if d == a {
      BranchNum(index, b, a);
    } else if d == b {
      BranchNum(index, a, b);
    }
  }

  // ----- preference -----

  /** A later irreversible block, or the same and a longer chain. */
  predicate FirstPreferred(a: Block, b: Block) {
    a.lib > b.lib || (a.lib == b.lib && a.id.num > b.id.num)
  }

  /** The order of the index by validity, irreversible block, number and digest, best first. */
  predicate Precedes(a: Block, b: Block) {
    if a.valid != b.valid then a.valid
    else FirstPreferred(a, b) || (!FirstPreferred(b, a) && a.id.digest < b.id.digest)
  }

  /** The order spelled out: validated blocks first, then the later irreversible block, then the higher block
      number, then the smaller digest. */
  ghost predicate Ahead(a: Block, b: Block) {
    && (b.valid ==> a.valid)
    && (a.valid == b.valid ==> a.lib >= b.lib)
    && (a.valid == b.valid && a.lib == b.lib ==> a.id.num >= b.id.num)
    && (a.valid == b.valid && a.lib == b.lib && a.id.num == b.id.num ==> a.id.digest < b.id.digest)
  }

  /** The comparison of the index is that order: it never puts two different blocks level, and it is transitive. */
  lemma PrecedesIsOrder(a: Block, b: Block, c: Block)
    ensures Precedes(a, b) <==> Ahead(a, b)
    ensures a.id != b.id ==> (Precedes(a, b) <==> !Precedes(b, a))
    ensures Precedes(a, b) && Precedes(b, c) ==> Precedes(a, c)
  {
  }

  /** The first block of the ordered index. */
  ghost predicate IsFirst(index: Index, b: Block) {
    && b.id in index && index[b.id] == b
    && forall id :: id in index && id != b.id ==> Ahead(b, index[id])
  }
}
