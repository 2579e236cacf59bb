/**
  A run of block headers as a branch of the fork database: when the branch can be
  opened again after it has been closed.
*/
module ForkRuns {
  import opened Lists
  import opened ForkTree
  import opened ForkFile
  import Dpos
  import DposRuns

  /** The `k`-th block of a run in the fork database: on the one before it, with its header's irreversible block. */
  ghost function BlockOf(base: Dpos.Header, reps: nat, blocks: seq<DposRuns.Block>, digest: nat -> nat, k: nat): Block
    requires reps > 0 && 0 < k <= |blocks|
  {
    var num := base.num + k;
    Block(Id(num, digest(num)), Id(num - 1, digest(num - 1)), DposRuns.IrreversibleAt(base, reps, blocks, k), true)
  }

  /** The first `k` blocks of a run, added one by one. */
  ghost function FirstBlocks(base: Dpos.Header, reps: nat, blocks: seq<DposRuns.Block>, digest: nat -> nat,
                             k: nat): Index
    requires reps > 0 && k <= |blocks|
  {
    if k == 0 then map[]
    else
      var b := BlockOf(base, reps, blocks, digest, k);
      FirstBlocks(base, reps, blocks, digest, k - 1)[b.id := b]
  }

  ghost function Branch(base: Dpos.Header, reps: nat, blocks: seq<DposRuns.Block>, digest: nat -> nat): Index
    requires reps > 0
  {
    FirstBlocks(base, reps, blocks, digest, |blocks|)
  }

  lemma {:induction false} BranchAt(base: Dpos.Header, reps: nat, blocks: seq<DposRuns.Block>, digest: nat -> nat,
                                    k: nat, id: Id)
    requires reps > 0 && k <= |blocks|
    ensures var index := FirstBlocks(base, reps, blocks, digest, k);
            && (id in index <==> base.num < id.num <= base.num + k && id.digest == digest(id.num))
            && (id in index ==>
                  index[id] == BlockOf(base, reps, blocks, digest, id.num - base.num) && index[id].id == id)
  {
    hide DposRuns.IrreversibleAt;
    if k > 0 {
      BranchAt(base, reps, blocks, digest, k - 1, id);
    }
  }

  lemma BranchIsTree(base: Dpos.Header, reps: nat, blocks: seq<DposRuns.Block>, digest: nat -> nat)
    requires reps > 0
    ensures Tree(Branch(base, reps, blocks, digest), Id(base.num, digest(base.num)))
  {
    hide FirstBlocks, DposRuns.IrreversibleAt;
    var index, root := Branch(base, reps, blocks, digest), Id(base.num, digest(base.num));
    BranchAt(base, reps, blocks, digest, |blocks|, root);
    forall id | id in index
      ensures index[id].id == id && Numbered(index[id]) && (index[id].prev in index || index[id].prev == root)
    {
      BranchAt(base, reps, blocks, digest, |blocks|, id);
      BranchAt(base, reps, blocks, digest, |blocks|, index[id].prev);
    }
  }

  /** The link from the block after the `k`-th one. */
  lemma LinkGoesOn(base: Dpos.Header, reps: nat, blocks: seq<DposRuns.Block>, digest: nat -> nat, k: nat)
    requires reps > 0 && 1 <= k < |blocks|
    ensures var index, id := Branch(base, reps, blocks, digest), Id(base.num + k + 1, digest(base.num + k + 1));
            && id in index && index[id].prev in index
            && (index[index[id].prev].lib <= index[id].lib <==> DposRuns.Onward(base, reps, blocks, k))
  {
    hide FirstBlocks, DposRuns.IrreversibleAt;
    BranchAt(base, reps, blocks, digest, |blocks|, Id(base.num + k + 1, digest(base.num + k + 1)));
    BranchAt(base, reps, blocks, digest, |blocks|, Id(base.num + k, digest(base.num + k)));
  }

  /** The branch of a run never goes back exactly when the run, from its first block on, never does. */
  lemma BranchGoesOn(base: Dpos.Header, reps: nat, blocks: seq<DposRuns.Block>, digest: nat -> nat)
    requires reps > 0
    ensures NeverBack(Branch(base, reps, blocks, digest)) <==>
            forall k :: 1 <= k < |blocks| ==> DposRuns.Onward(base, reps, blocks, k)
  {
    hide Branch, DposRuns.Onward;
    var index := Branch(base, reps, blocks, digest);
    forall k | 1 <= k < |blocks| ensures NeverBack(index) ==> DposRuns.Onward(base, reps, blocks, k) {
      LinkGoesOn(base, reps, blocks, digest, k);
    }
    if forall k :: 1 <= k < |blocks| ==> DposRuns.Onward(base, reps, blocks, k) {
      forall id | id in index && index[id].prev in index ensures index[index[id].prev].lib <= index[id].lib {
        LinkNumber(base, reps, blocks, digest, id);
        LinkGoesOn(base, reps, blocks, digest, id.num - base.num - 1);
      }
    }
  }

  lemma LinkNumber(base: Dpos.Header, reps: nat, blocks: seq<DposRuns.Block>, digest: nat -> nat, id: Id)
    requires reps > 0 && id in Branch(base, reps, blocks, digest)
    requires Branch(base, reps, blocks, digest)[id].prev in Branch(base, reps, blocks, digest)
    ensures base.num + 1 < id.num <= base.num + |blocks| && id.digest == digest(id.num)
  {
    hide FirstBlocks, DposRuns.IrreversibleAt;
    BranchAt(base, reps, blocks, digest, |blocks|, id);
    BranchAt(base, reps, blocks, digest, |blocks|, Branch(base, reps, blocks, digest)[id].prev);
  }

  /** Closing and opening a database that holds the branch of a run gives it back exactly when the run never takes
      the irreversible block back, and fails otherwise. */
  lemma RunReopened(base: Dpos.Header, reps: nat, blocks: seq<DposRuns.Block>, digest: nat -> nat,
                    unvalidated: seq<Block>, validated: seq<Block>, out: seq<Block>)
    requires reps > 0
    requires Listing(Branch(base, reps, blocks, digest), false, unvalidated)
    requires Listing(Branch(base, reps, blocks, digest), true, validated)
    requires WorstFirst(out) && multiset(out) == multiset(unvalidated) + multiset(validated)
    ensures Load(Id(base.num, digest(base.num)), out) ==
            if forall k :: 1 <= k < |blocks| ==> DposRuns.Onward(base, reps, blocks, k)
            then Some(Branch(base, reps, blocks, digest)) else None
  {
    hide Branch, Listing, WorstFirst, Load, NeverBack, Tree, DposRuns.Onward;
    BranchIsTree(base, reps, blocks, digest);
    BranchGoesOn(base, reps, blocks, digest);
    ReopenExactly(Branch(base, reps, blocks, digest), Id(base.num, digest(base.num)), unvalidated, validated, out);
  }
}
