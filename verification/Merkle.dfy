/**
  The two ways the chain computes a merkle root: level by level over a whole
  vector (libraries/chain/merkle.cpp), and one leaf at a time with a short list
  of nodes kept between appends (incremental_merkle.hpp). The hash of a
  canonical pair is any function of the two digests.
*/
module Merkle {
  import opened Bits
  import opened Lists
  import opened MerkleDepth

  type Hash<!D> = (D, D) -> D

  // ----- the tree -----

  /** The next level up: adjacent nodes combined, a last one without partner combined with itself. */
  function NextLevel<D>(hash: Hash<D>, ids: seq<D>): (up: seq<D>)
    ensures |up| == (|ids| + 1) / 2
  {
    if ids == [] then []
    else if |ids| == 1 then [hash(ids[0], ids[0])]
    else [hash(ids[0], ids[1])] + NextLevel(hash, ids[2..])
  }

  /** The root over a non-empty list of leaves. */
  function Root<D>(hash: Hash<D>, ids: seq<D>): D
    requires ids != []
    decreases |ids|
  {
    if |ids| == 1 then ids[0] else Root(hash, NextLevel(hash, ids))
  }

  /** The next level up without the node that lacks a partner. */
  function FullLevel<D>(hash: Hash<D>, ids: seq<D>): (up: seq<D>)
    ensures |up| == |ids| / 2
  {
    if |ids| < 2 then []
    else [hash(ids[0], ids[1])] + FullLevel(hash, ids[2..])
  }

  /** The roots of the complete subtrees the leaves fall into, smallest first. */
  function Peaks<D>(hash: Hash<D>, ids: seq<D>): seq<D>
    decreases |ids|
  {
    if ids == [] then []
    else (if |ids| % 2 == 1 then [ids[|ids| - 1]] else []) + Peaks(hash, FullLevel(hash, ids))
  }

  // ----- one level of an append -----

  lemma {:induction false} AppendEven<D>(hash: Hash<D>, ids: seq<D>, top: D)
    requires |ids| % 2 == 0
    ensures NextLevel(hash, ids + [top]) == FullLevel(hash, ids) + [hash(top, top)]
    ensures FullLevel(hash, ids + [top]) == FullLevel(hash, ids)
  {
    if ids == [] {
      assert ids + [top] == [top];
    } else {
      AppendEven(hash, ids[2..], top);
      assert (ids + [top])[2..] == ids[2..] + [top];
    }
  }

  lemma {:induction false} AppendOdd<D>(hash: Hash<D>, ids: seq<D>, top: D)
    requires |ids| % 2 == 1
    ensures var up := FullLevel(hash, ids) + [hash(ids[|ids| - 1], top)];
            NextLevel(hash, ids + [top]) == up && FullLevel(hash, ids + [top]) == up
  {
    if |ids| == 1 {
      assert (ids + [top])[2..] == [];
    } else {
      AppendOdd(hash, ids[2..], top);
      assert (ids + [top])[2..] == ids[2..] + [top];
    }
  }

  /**
    Part of the way up: the tree over all leaves has, at this level, the complete nodes `level`
    followed by `top`; `top` is itself complete unless `partial`; `rest` is what is left of the old
    active nodes and `updated` what the new ones begin with.
   */
  ghost predicate Climbing<D>(hash: Hash<D>, all: seq<D>, level: seq<D>, top: D, partial: bool,
                              rest: seq<D>, updated: seq<D>)
    requires all != []
  {
    && Peaks(hash, level) <= rest
    && Root(hash, all) == Root(hash, level + [top])
    && (if partial then Peaks(hash, all) == updated + Peaks(hash, level)
        else updated == [] && Peaks(hash, all) == Peaks(hash, level + [top]))
  }

  lemma PeaksStep<D>(hash: Hash<D>, ids: seq<D>)
    requires ids != []
    ensures |ids| % 2 == 0 ==> Peaks(hash, ids) == Peaks(hash, FullLevel(hash, ids))
    ensures |ids| % 2 == 1 ==> Peaks(hash, ids) == [ids[|ids| - 1]] + Peaks(hash, FullLevel(hash, ids))
  {
    hide FullLevel;
    var up := Peaks(hash, FullLevel(hash, ids));
    assert [] + up == up;
  }

  lemma RootStep<D>(hash: Hash<D>, ids: seq<D>)
    requires |ids| > 1
    ensures Root(hash, ids) == Root(hash, NextLevel(hash, ids))
  {
    hide NextLevel;
  }

  /** Going up from a left node: the node itself becomes a peak if it is complete. */
  lemma ClimbLeft<D>(hash: Hash<D>, all: seq<D>, level: seq<D>, top: D, partial: bool,
                     rest: seq<D>, updated: seq<D>)
    requires all != [] && Climbing(hash, all, level, top, partial, rest, updated)
    requires level != [] && |level| % 2 == 0
    ensures Climbing(hash, all, FullLevel(hash, level), hash(top, top), true, rest,
                     if partial then updated else updated + [top])
  {
    hide NextLevel, FullLevel, Peaks, Root;
    LeftNode(hash, level, top);
    PeaksStep(hash, level);
  }

  lemma LeftNode<D>(hash: Hash<D>, level: seq<D>, top: D)
    requires level != [] && |level| % 2 == 0
    ensures Root(hash, level + [top]) == Root(hash, FullLevel(hash, level) + [hash(top, top)])
    ensures Peaks(hash, level + [top]) == [] + [top] + Peaks(hash, FullLevel(hash, level))
  {
    hide NextLevel, FullLevel, Peaks, Root;
    var next := level + [top];
    AppendEven(hash, level, top);
    RootStep(hash, next);
    PeaksStep(hash, next);
    assert [] + [top] == [next[|next| - 1]];
  }

  /** Going up from a right node: the first of the old nodes is its left partner. */
  lemma ClimbRight<D>(hash: Hash<D>, all: seq<D>, level: seq<D>, top: D, partial: bool,
                      rest: seq<D>, updated: seq<D>)
    requires all != [] && Climbing(hash, all, level, top, partial, rest, updated)
    requires |level| % 2 == 1
    ensures rest != []
    ensures Climbing(hash, all, FullLevel(hash, level), hash(rest[0], top), partial, rest[1..],
                     if partial then updated + [rest[0]] else updated)
  {
    hide NextLevel, FullLevel, Peaks, Root;
    var left, up := level[|level| - 1], Peaks(hash, FullLevel(hash, level));
    RightNode(hash, level, top);
    PeaksStep(hash, level);
    PrefixTail(left, up, rest);
    Regroup(updated, left, up);
  }

  lemma Regroup<D>(s: seq<D>, x: D, t: seq<D>)
    ensures s + ([x] + t) == s + [x] + t
  {
  }

  lemma RightNode<D>(hash: Hash<D>, level: seq<D>, top: D)
    requires |level| % 2 == 1
    ensures var up := FullLevel(hash, level) + [hash(level[|level| - 1], top)];
            && Root(hash, level + [top]) == Root(hash, up)
            && Peaks(hash, level + [top]) == Peaks(hash, up)
  {
    hide NextLevel, FullLevel, Peaks, Root;
    AppendOdd(hash, level, top);
    RootStep(hash, level + [top]);
    PeaksStep(hash, level + [top]);
  }

  lemma PrefixTail<D>(x: D, s: seq<D>, t: seq<D>)
    requires [x] + s <= t
    ensures t != [] && t[0] == x && s <= t[1..]
  {
    assert ([x] + s)[0] == x;
    assert forall i :: 0 <= i < |s| ==> ([x] + s)[i + 1] == s[i];
  }

  lemma ClimbedToRoot<D>(hash: Hash<D>, all: seq<D>, top: D, partial: bool, rest: seq<D>, updated: seq<D>)
    requires all != [] && Climbing(hash, all, [], top, partial, rest, updated)
    ensures Root(hash, all) == top && Peaks(hash, all) <= updated + [top]
  {
    hide Peaks, Root;
    assert [] + [top] == [top] && updated + [] == updated;
    SingleLeaf(hash, top);
  }

  lemma SingleLeaf<D>(hash: Hash<D>, top: D)
    ensures Root(hash, [top]) == top && Peaks(hash, [top]) == [top] && Peaks(hash, []) == []
  {
    assert FullLevel(hash, [top]) == [];
  }

  // ----- complete nodes never change -----

  /** The complete nodes `k` levels above the leaves. */
  function CompleteNodes<D>(hash: Hash<D>, ids: seq<D>, k: nat): seq<D>
    decreases k
  {
    if k == 0 then ids else CompleteNodes(hash, FullLevel(hash, ids), k - 1)
  }

  lemma {:induction false} FullLevelGrows<D>(hash: Hash<D>, ids: seq<D>, more: seq<D>)
    requires ids <= more
    ensures FullLevel(hash, ids) <= FullLevel(hash, more)
  {
    if |ids| >= 2 {
      assert ids[2..] <= more[2..];
      FullLevelGrows(hash, ids[2..], more[2..]);
    }
  }

  /** Whatever is appended later, a node over leaves that are all there keeps its value and its place. */
  lemma {:induction false} CompleteNodesStable<D>(hash: Hash<D>, ids: seq<D>, more: seq<D>, k: nat)
    requires ids <= more
    ensures CompleteNodes(hash, ids, k) <= CompleteNodes(hash, more, k)
    decreases k
  {
    if k > 0 {
      FullLevelGrows(hash, ids, more);
      CompleteNodesStable(hash, FullLevel(hash, ids), FullLevel(hash, more), k - 1);
    }
  }

  // ----- the root of a vector -----

  lemma {:induction false} NextLevelAt<D>(hash: Hash<D>, ids: seq<D>, i: nat)
    requires 2 * i + 1 < |ids|
    ensures NextLevel(hash, ids)[i] == hash(ids[2 * i], ids[2 * i + 1])
    decreases i
  {
    if i > 0 {
      NextLevelAt(hash, ids[2..], i - 1);
    }
  }

  /** Repeating the last node of an odd level changes nothing. */
  lemma {:induction false} RepeatLast<D>(hash: Hash<D>, ids: seq<D>)
    requires |ids| % 2 == 1
    ensures NextLevel(hash, ids + [ids[|ids| - 1]]) == NextLevel(hash, ids)
  {
    if |ids| == 1 {
      assert (ids + [ids[0]])[2..] == [];
    } else {
      RepeatLast(hash, ids[2..]);
      assert (ids + [ids[|ids| - 1]])[2..] == ids[2..] + [ids[|ids| - 1]];
    }
  }

  /** A node combined with itself, over and over. */
  function Doubled<D>(hash: Hash<D>, x: D, times: nat): D {
    if times == 0 then x else Doubled(hash, hash(x, x), times - 1)
  }

  lemma {:induction false} NextLevelConcat<D>(hash: Hash<D>, left: seq<D>, right: seq<D>)
    requires |left| % 2 == 0
    ensures NextLevel(hash, left + right) == NextLevel(hash, left) + NextLevel(hash, right)
  {
    if left == [] {
      assert left + right == right;
    } else {
      var first, rest := hash(left[0], left[1]), left[2..];
      NextLevelConcat(hash, rest, right);
      assert (left + right)[2..] == rest + right;
      assert NextLevel(hash, left + right) == [first] + NextLevel(hash, rest + right);
      JoinAll([first], NextLevel(hash, rest), NextLevel(hash, right));
    }
  }

  /** The tree over more than `2^k` and at most `2^(k+1)` leaves: the first `2^k` of them form the left half, and the
      root over the others, combined with itself until it is as high, is the right half. */
  lemma {:induction false} RootSplits<D>(hash: Hash<D>, left: seq<D>, right: seq<D>, k: nat)
    requires |left| == Pow2(k) && 0 < |right| <= Pow2(k)
    ensures Levels(|right|) <= k
    ensures Root(hash, left + right) == hash(Root(hash, left), Doubled(hash, Root(hash, right), k - Levels(|right|)))
    decreases k
  {
    hide Root, NextLevel, Pow2, Levels, Doubled;
    if k == 0 {
      TwoLeaves(hash, left, right);
    } else {
      HalfOfPower(k);
      var l, r := NextLevel(hash, left), NextLevel(hash, right);
      RootSplits(hash, l, r, k - 1);
      NextLevelConcat(hash, left, right);
      RootStep(hash, left + right);
      RootStep(hash, left);
      RightHalf(hash, right, k);
    }
  }

  lemma TwoLeaves<D>(hash: Hash<D>, left: seq<D>, right: seq<D>)
    requires |left| == Pow2(0) && 0 < |right| <= Pow2(0)
    ensures Levels(|right|) == 0
    ensures Root(hash, left + right) == hash(Root(hash, left), Doubled(hash, Root(hash, right), 0))
  {
    assert left + right == [left[0], right[0]];
  }

  lemma HalfOfPower(k: nat)
    requires k > 0
    ensures Pow2(k) == 2 * Pow2(k - 1) && Pow2(k - 1) > 0
  {
  }

  /** The right half is the same from one level up. */
  lemma RightHalf<D>(hash: Hash<D>, right: seq<D>, k: nat)
    requires k > 0 && right != [] && Levels(|NextLevel(hash, right)|) <= k - 1
    ensures var r := NextLevel(hash, right);
            && r != [] && Levels(|right|) <= k
            && Doubled(hash, Root(hash, r), k - 1 - Levels(|r|))
               == Doubled(hash, Root(hash, right), k - Levels(|right|))
  {
    if |right| > 1 {
      hide Root, NextLevel, Doubled;
      RootStep(hash, right);
    }
  }

  /** One round over a level of even length, in place in its first half. */
  method HashPairs<D>(hash: Hash<D>, level: seq<D>) returns (up: seq<D>)
    requires |level| % 2 == 0
    ensures up == NextLevel(hash, level)
  {
    var ids := level;
    for i := 0 to |level| / 2
      invariant |ids| == |level|
      invariant forall j :: 0 <= j < i ==> ids[j] == NextLevel(hash, level)[j]
      invariant forall j :: i <= j < |ids| ==> ids[j] == level[j]
    {
      NextLevelAt(hash, level, i);
      ids := ids[i := hash(ids[2 * i], ids[2 * i + 1])];
    }
    up := ids[..|level| / 2];
  }

  /** The root of a vector; the empty vector has the default digest. */
  method VectorRoot<D>(hash: Hash<D>, leaves: seq<D>, default: D) returns (root: D)
    ensures root == if leaves == [] then default else Root(hash, leaves)
  {
    hide NextLevel;
    if leaves == [] { return default; }
    var ids := leaves;
    while |ids| > 1
      invariant ids != [] && Root(hash, ids) == Root(hash, leaves)
      decreases |ids|
    {
      RootStep(hash, ids);
      if |ids| % 2 == 1 {
        RepeatLast(hash, ids);
        ids := ids + [ids[|ids| - 1]];
      }
      ids := HashPairs(hash, ids);
    }
    root := ids[0];
  }

  // ----- the accumulator -----

  class IncrementalMerkle<D> {
    const hash: Hash<D>
    var nodeCount: nat
    var activeNodes: seq<D>
    ghost var leaves: seq<D>

    /** The active nodes begin with the roots of the complete subtrees and end with the root. */
    ghost predicate Valid()
      reads this
    {
      && nodeCount == |leaves|
      && Peaks(hash, leaves) <= activeNodes
      && (leaves != [] ==> activeNodes != [] && activeNodes[|activeNodes| - 1] == Root(hash, leaves))
    }

    constructor (hash: Hash<D>)
      ensures Valid() && leaves == [] && this.hash == hash
    {
      this.hash := hash;
      nodeCount, activeNodes, leaves := 0, [], [];
    }

    /** Adds a leaf and returns the root over all leaves so far. */
    method Append(digest: D) returns (root: D)
      requires Valid() && nodeCount + 1 < 0x1_0000_0000_0000_0000
      modifies this
      ensures Valid() && leaves == old(leaves) + [digest]
      ensures root == Root(hash, leaves)
    {
      hide NextLevel, FullLevel, Peaks, Root, MaxDepth;
      var partial := false;
      MaxDepthIsLevels(nodeCount + 1);
      var currentDepth := MaxDepth(nodeCount + 1) - 1;
      var index := nodeCount;
      var top := digest;
      var iter := 0;
      var updated: seq<D> := [];
      ghost var all := leaves + [digest];
      ghost var level := leaves;
      assert activeNodes[0..] == activeNodes;
      while currentDepth > 0
        invariant iter <= |activeNodes|
        invariant index == |level| && currentDepth == Levels(|level| + 1)
        invariant Climbing(hash, all, level, top, partial, activeNodes[iter..], updated)
        modifies {}
      {
        if index % 2 == 0 {
          ClimbLeft(hash, all, level, top, partial, activeNodes[iter..], updated);
          if !partial {
            updated := updated + [top];
          }
          top := hash(top, top);
          partial := true;
        } else {
          ClimbRight(hash, all, level, top, partial, activeNodes[iter..], updated);
          var left := activeNodes[iter];
          assert activeNodes[iter..][1..] == activeNodes[iter + 1..];
          iter := iter + 1;
          if partial {
            updated := updated + [left];
          }
          top := hash(left, top);
        }
        level := FullLevel(hash, level);
        currentDepth := currentDepth - 1;
        index := index / 2;
      }
      ClimbedToRoot(hash, all, top, partial, activeNodes[iter..], updated);
      updated := updated + [top];
      activeNodes := updated;
      nodeCount := nodeCount + 1;
      leaves := all;
      root := activeNodes[|activeNodes| - 1];
    }

    method GetRoot(default: D) returns (root: D)
      requires Valid()
      ensures root == if leaves == [] then default else Root(hash, leaves)
    {
      root := if nodeCount > 0 then activeNodes[|activeNodes| - 1] else default;
    }
  }

  /** Appending leaf by leaf gives the root of the vector. */
  method AppendedRoot<D>(hash: Hash<D>, ids: seq<D>, default: D) returns (root: D)
    requires |ids| < 0x1_0000_0000_0000_0000
    ensures root == if ids == [] then default else Root(hash, ids)
  {
    var m := new IncrementalMerkle<D>(hash);
    for i := 0 to |ids|
      invariant m.Valid() && m.hash == hash && m.leaves == ids[..i] && fresh(m)
    {
      var _ := m.Append(ids[i]);
      assert ids[..i + 1] == ids[..i] + [ids[i]];
    }
    assert ids[..|ids|] == ids;
    root := m.GetRoot(default);
  }
}
