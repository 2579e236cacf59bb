/**
  The file of the fork database (libraries/chain/fork_database.cpp): `close` writes
  the blocks in one merged order, `open` adds them again one by one.
*/
module ForkFile {
  import opened Lists
  import opened ForkTree
  import opened ForkDb

  // ----- the merged order -----

  /** The blocks of one kind as the ordered index lists them backwards: each one before all that precede it. */
  ghost predicate Listing(index: Index, valid: bool, s: seq<Block>) {
    && (forall b :: b in s <==> b.id in index && index[b.id] == b && b.valid == valid)
    && (forall i, j :: 0 <= i < j < |s| ==> s[i] != s[j] && Ahead(s[j], s[i]))
  }

  /** No block has a later irreversible block than a later one, or the same one and a higher number. */
  ghost predicate WorstFirst(s: seq<Block>) {
    forall i, j :: 0 <= i < j < |s| ==>
                   s[i].lib < s[j].lib || (s[i].lib == s[j].lib && s[i].id.num <= s[j].id.num)
  }

  /** None of the blocks written is preferred to one still to come. */
  ghost predicate Behind(out: seq<Block>, s: seq<Block>, from: nat) {
    forall k, j :: 0 <= k < |out| && from <= j < |s| ==> !FirstPreferred(out[k], s[j])
  }

  lemma ListingWorstFirst(index: Index, valid: bool, s: seq<Block>)
    requires Listing(index, valid, s)
    ensures WorstFirst(s)
  {
    forall i, j | 0 <= i < j < |s|
      ensures s[i].lib < s[j].lib || (s[i].lib == s[j].lib && s[i].id.num <= s[j].id.num)
    {
      assert s[i] in s && s[j] in s;
    }
  }

  /** The loop of `close`: of the two next blocks the one that is not preferred is written first. */
  method Write(unvalidated: seq<Block>, validated: seq<Block>) returns (out: seq<Block>)
    requires WorstFirst(unvalidated) && WorstFirst(validated)
    ensures WorstFirst(out) && multiset(out) == multiset(unvalidated) + multiset(validated)
  {
    hide WorstFirst, Behind, FirstPreferred;
    out := [];
    var u, v := 0, 0;
    NothingWritten(unvalidated, validated);
    while u < |unvalidated| || v < |validated|
      invariant u <= |unvalidated| && v <= |validated| && WorstFirst(out)
      invariant Behind(out, unvalidated, u) && Behind(out, validated, v)
      invariant multiset(out) == multiset(unvalidated[..u]) + multiset(validated[..v])
      decreases |unvalidated| - u + |validated| - v
    {
      if u < |unvalidated| && (v == |validated| || FirstPreferred(validated[v], unvalidated[u])) {
        if v < |validated| {
          PreferredOneWay(validated[v], unvalidated[u]);
        }
        Appended(out, unvalidated, u, validated, v);
        out, u := out + [unvalidated[u]], u + 1;
      } else {
        assert v < |validated|;
        Appended(out, validated, v, unvalidated, u);
        out, v := out + [validated[v]], v + 1;
      }
    }
    assert unvalidated[..u] == unvalidated && validated[..v] == validated;
  }

  lemma NothingWritten(s: seq<Block>, t: seq<Block>)
    ensures WorstFirst([]) && Behind([], s, 0) && Behind([], t, 0)
  {
  }

  lemma PreferredOneWay(a: Block, b: Block)
    requires FirstPreferred(a, b)
    ensures !FirstPreferred(b, a)
  {
  }

  lemma Appended(out: seq<Block>, s: seq<Block>, i: nat, t: seq<Block>, j: nat)
    requires i < |s| && j <= |t| && WorstFirst(s) && WorstFirst(t) && WorstFirst(out)
    requires Behind(out, s, i) && Behind(out, t, j) && (j < |t| ==> !FirstPreferred(s[i], t[j]))
    ensures WorstFirst(out + [s[i]]) && Behind(out + [s[i]], s, i + 1) && Behind(out + [s[i]], t, j)
    ensures multiset(s[..i + 1]) == multiset(s[..i]) + multiset{s[i]}
  {
    assert s[..i + 1] == s[..i] + [s[i]];
    forall m | j <= m < |t| ensures !FirstPreferred(s[i], t[m]) {
      assert m > j ==> !FirstPreferred(t[j], t[m]);
    }
  }

  // ----- reading it back -----

  /** The index after adding blocks one by one, unless one of them does not link or is there already. */
  function Load(root: Id, blocks: seq<Block>): Option<Index> {
    if blocks == [] then Some(map[])
    else
      var b := blocks[|blocks| - 1];
      match Load(root, blocks[..|blocks| - 1])
      case None => None
      case Some(index) =>
        if (b.prev != root && b.prev !in index) || b.id in index then None else Some(index[b.id := b])
  }

  /** The loop of `open`. */
  method Read(root: Id, blocks: seq<Block>) returns (r: Option<Index>)
    ensures r == Load(root, blocks)
  {
    var index: Index := map[];
    for i := 0 to |blocks|
      invariant Load(root, blocks[..i]) == Some(index)
    {
      var b := blocks[i];
      assert blocks[..i + 1][..i] == blocks[..i];
      if (b.prev != root && b.prev !in index) || b.id in index {
        Stuck(root, blocks, i + 1);
        return None;
      }
      index := index[b.id := b];
    }
    assert blocks[..|blocks|] == blocks;
    r := Some(index);
  }

  lemma {:induction false} Stuck(root: Id, blocks: seq<Block>, i: nat)
    requires i <= |blocks| && Load(root, blocks[..i]).None?
    ensures Load(root, blocks).None?
    decreases |blocks|
  {
    if i == |blocks| {
      assert blocks[..i] == blocks;
    } else {
      var k := |blocks| - 1;
      assert blocks[..k][..i] == blocks[..i];
      Stuck(root, blocks[..k], i);
    }
  }

  ghost predicate Links(root: Id, blocks: seq<Block>, j: nat)
    requires j < |blocks|
  {
    blocks[j].prev == root || exists i :: 0 <= i < j && blocks[i].id == blocks[j].prev
  }

  ghost predicate DistinctIds(blocks: seq<Block>) {
    forall i, j :: 0 <= i < j < |blocks| ==> blocks[i].id != blocks[j].id
  }

  ghost predicate Holds(index: Index, blocks: seq<Block>) {
    && (forall b :: b in blocks <==> b.id in index && index[b.id] == b)
    && (forall id :: id in index ==> index[id].id == id)
  }

  /** Reading goes through exactly when every block comes after its predecessor; it then holds exactly the blocks. */
  lemma {:induction false} LoadExactly(root: Id, blocks: seq<Block>)
    requires DistinctIds(blocks)
    ensures Load(root, blocks).Some? <==> forall j :: 0 <= j < |blocks| ==> Links(root, blocks, j)
    ensures Load(root, blocks).Some? ==> Holds(Load(root, blocks).value, blocks)
  {
    if blocks != [] {
      var k := |blocks| - 1;
      var init := blocks[..k];
      LoadExactly(root, init);
      forall j | 0 <= j < k ensures Links(root, blocks, j) <==> Links(root, init, j) {
        LinksPrefix(root, blocks, k, j);
      }
      if Load(root, init).Some? {
        LoadLast(root, blocks, Load(root, init).value);
      }
    }
  }

  lemma LinksPrefix(root: Id, blocks: seq<Block>, k: nat, j: nat)
    requires j < k <= |blocks|
    ensures Links(root, blocks, j) <==> Links(root, blocks[..k], j)
  {
    assert forall i :: 0 <= i < j ==> blocks[i].id == blocks[..k][i].id;
  }

  lemma LoadLast(root: Id, blocks: seq<Block>, index: Index)
    requires blocks != [] && DistinctIds(blocks) && Holds(index, blocks[..|blocks| - 1])
    requires Load(root, blocks[..|blocks| - 1]) == Some(index)
    ensures Load(root, blocks).Some? <==> Links(root, blocks, |blocks| - 1)
    ensures Load(root, blocks).Some? ==> Holds(Load(root, blocks).value, blocks)
  {
    hide Holds;
    var k := |blocks| - 1;
    IdPresent(index, blocks, k, blocks[k].prev);
    IdPresent(index, blocks, k, blocks[k].id);
    if blocks[k].id !in index {
      HoldsMore(index, blocks[..k], blocks[k]);
      assert blocks == blocks[..k] + [blocks[k]];
    }
  }

  lemma HoldsMore(index: Index, blocks: seq<Block>, b: Block)
    requires Holds(index, blocks) && b.id !in index
    ensures Holds(index[b.id := b], blocks + [b])
  {
    forall c ensures c in blocks + [b] <==> c in blocks || c == b {
    }
  }

  /** An id is in the index exactly when a block with it has been read. */
  lemma IdPresent(index: Index, blocks: seq<Block>, k: nat, id: Id)
    requires k <= |blocks| && Holds(index, blocks[..k])
    ensures id in index <==> exists i :: 0 <= i < k && blocks[i].id == id
  {
    var init := blocks[..k];
    if id in index {
      assert index[id] in init;
      var i :| 0 <= i < k && init[i] == index[id];
      assert blocks[i].id == id;
    }
    if i :| 0 <= i < k && blocks[i].id == id {
      assert init[i] in init;
    }
  }

  // ----- closing and opening -----

  /** No block has an earlier irreversible block than the one it is built on. */
  ghost predicate NeverBack(index: Index) {
    forall id :: id in index && index[id].prev in index ==> index[index[id].prev].lib <= index[id].lib
  }

  lemma WrittenOnce(index: Index, unvalidated: seq<Block>, validated: seq<Block>, out: seq<Block>)
    requires Keyed(index) && Listing(index, false, unvalidated) && Listing(index, true, validated)
    requires multiset(out) == multiset(unvalidated) + multiset(validated)
    ensures DistinctIds(out) && forall b :: b in out <==> b.id in index && index[b.id] == b
  {
    forall b ensures b in out <==> b.id in index && index[b.id] == b {
      assert b in out <==> b in multiset(out);
      assert b in unvalidated <==> b in multiset(unvalidated);
      assert b in validated <==> b in multiset(validated);
    }
    forall i, j | 0 <= i < j < |out| ensures out[i].id != out[j].id {
      assert out[i] in out && out[j] in out;
      AtMostOnce(unvalidated, out[i]);
      AtMostOnce(validated, out[i]);
      assert out[i] in unvalidated ==> !out[i].valid;
      assert out[i] in validated ==> out[i].valid;
      if out[i].id == out[j].id {
        TwiceCounted(out, i, j);
        assert false;
      }
    }
  }

  lemma TwiceCounted(s: seq<Block>, i: nat, j: nat)
    requires i < j < |s| && s[i] == s[j]
    ensures multiset(s)[s[i]] >= 2
  {
    assert s == s[..j] + [s[j]] + s[j + 1..];
    assert s[i] in s[..j];
  }

  lemma {:induction false} AtMostOnce(s: seq<Block>, b: Block)
    requires forall i, j :: 0 <= i < j < |s| ==> s[i] != s[j]
    ensures multiset(s)[b] <= 1 && (b !in s ==> multiset(s)[b] == 0)
  {
    if s != [] {
      AtMostOnce(s[1..], b);
      assert s == [s[0]] + s[1..];
    }
  }

  /** Closing and opening gives the same index back, and opening goes through, exactly when the irreversible
      block never goes back along a branch. */
  lemma ReopenExactly(index: Index, root: Id, unvalidated: seq<Block>, validated: seq<Block>, out: seq<Block>)
    requires Tree(index, root) && Listing(index, false, unvalidated) && Listing(index, true, validated)
    requires WorstFirst(out) && multiset(out) == multiset(unvalidated) + multiset(validated)
    ensures Load(root, out) == if NeverBack(index) then Some(index) else None
  {
    hide Load, Listing, Links, DistinctIds, NeverBack, Holds, WorstFirst, Tree;
    TreeKeyed(index, root);
    WrittenOnce(index, unvalidated, validated, out);
    LoadExactly(root, out);
    AllLink(index, root, out);
    if Load(root, out).Some? {
      SameBlocks(index, Load(root, out).value, out);
    }
  }

  lemma TreeKeyed(index: Index, root: Id)
    requires Tree(index, root)
    ensures Keyed(index)
  {
  }

  /** Every block comes after its predecessor exactly when the irreversible block never goes back along a branch. */
  lemma AllLink(index: Index, root: Id, out: seq<Block>)
    requires Tree(index, root) && WorstFirst(out) && forall b :: b in out <==> b.id in index && index[b.id] == b
    ensures (forall j :: 0 <= j < |out| ==> Links(root, out, j)) <==> NeverBack(index)
  {
    hide Links, WorstFirst;
    if NeverBack(index) {
      forall j | 0 <= j < |out| ensures Links(root, out, j) {
        ParentWritten(index, root, out, j);
      }
    } else {
      var id :| id in index && index[id].prev in index && index[index[id].prev].lib > index[id].lib;
      assert index[id] in out;
      var j :| 0 <= j < |out| && out[j] == index[id];
      forall i | 0 <= i < |out| ensures out[i].id in index && index[out[i].id] == out[i] {
        assert out[i] in out;
      }
      ChildFirst(index, root, out, j);
    }
  }

  lemma ParentWritten(index: Index, root: Id, out: seq<Block>, j: nat)
    requires Tree(index, root) && NeverBack(index) && WorstFirst(out) && j < |out|
    requires forall b :: b in out <==> b.id in index && index[b.id] == b
    ensures Links(root, out, j)
  {
    var b := out[j];
    assert b in out;
    if b.prev != root {
      var p := index[b.prev];
      assert p in out;
      var i :| 0 <= i < |out| && out[i] == p;
      assert p.lib <= b.lib && p.id.num < b.id.num;
    }
  }

  lemma ChildFirst(index: Index, root: Id, out: seq<Block>, j: nat)
    requires Tree(index, root) && WorstFirst(out) && j < |out| && out[j].prev in index
    requires index[out[j].prev].lib > out[j].lib
    requires forall i :: 0 <= i < |out| ==> out[i].id in index && index[out[i].id] == out[i]
    ensures !Links(root, out, j)
  {
    forall i | 0 <= i < j ensures out[i].id != out[j].prev {
      assert out[i].lib <= out[j].lib;
    }
  }

  lemma SameBlocks(index: Index, loaded: Index, out: seq<Block>)
    requires Keyed(index) && Holds(loaded, out) && forall b :: b in out <==> b.id in index && index[b.id] == b
    ensures loaded == index
  {
    forall id | id in index ensures id in loaded && loaded[id] == index[id] {
      assert index[id] in out;
    }
    assert forall id :: id in loaded ==> loaded[id] in out;
  }

  /** What `open` demands of the head it has read: the root if nothing is validated, otherwise a block as good as
      every validated one. */
  ghost predicate HeadAccepted(index: Index, root: Block, head: Block) {
    if exists id :: id in index && index[id].valid then HeadIsBest(index, head) else head.id == root.id
  }

  /** What a file with these blocks and this head is opened as: every block must link, and the head must be there
      and be accepted. */
  ghost function Opened(root: Block, blocks: seq<Block>, headId: Id): Option<(Index, Block)> {
    match Load(root.id, blocks)
    case None => None
    case Some(index) =>
      if headId == root.id && HeadAccepted(index, root, root) then Some((index, root))
      else if headId != root.id && headId in index && HeadAccepted(index, root, index[headId])
      then Some((index, index[headId]))
      else None
  }

  lemma {:induction false} LoadKeyed(root: Id, blocks: seq<Block>)
    requires Load(root, blocks).Some? && forall b :: b in blocks ==> Numbered(b)
    ensures Keyed(Load(root, blocks).value)
  {
    if blocks != [] {
      var n := |blocks| - 1;
      assert blocks[n] in blocks;
      LoadKeyed(root, blocks[..n]);
    }
  }

  /** The check on the first block of the order decides whether the head is accepted. */
  lemma FirstDecides(index: Index, root: Block, head: Block, first: Option<Block>)
    requires Keyed(index) && (first.None? <==> index == map[]) && (first.Some? ==> IsFirst(index, first.value))
    ensures HeadAccepted(index, root, head) <==>
            if first.None? || !first.value.valid then head.id == root.id else !FirstPreferred(first.value, head)
  {
    if first.Some? {
      FirstValid(index, first.value);
      if first.value.valid {
        assert index[first.value.id].valid;
        FirstIsBest(index, first.value);
      }
    }
  }

  /** `open`: reads the blocks, looks the head up and checks it against the first block of the order. */
  method Open(root: Block, blocks: seq<Block>, headId: Id) returns (r: Option<(Index, Block)>)
    requires forall b :: b in blocks ==> Numbered(b)
    ensures r == Opened(root, blocks, headId)
  {
    hide HeadAccepted, Load, IsFirst, FirstPreferred;
    var loaded := Read(root.id, blocks);
    if loaded.None? { return None; }
    LoadKeyed(root.id, blocks);
    var db := new ForkDatabase(root);
    db.index := loaded.value;
    if root.id == headId {
      db.head := root;
    } else if headId in db.index {
      db.head := db.index[headId];
    } else {
      return None;
    }
    var candidate := db.First();
    FirstDecides(db.index, root, db.head, candidate);
    if candidate.None? || !candidate.value.valid {
      if db.head.id != root.id { return None; }
    } else if FirstPreferred(candidate.value, db.head) {
      return None;
    }
    r := Some((db.index, db.head));
  }

  /** A database whose irreversible blocks never go back is opened as it was closed: same blocks, same head. */
  lemma ReopenRestores(index: Index, root: Block, head: Block,
                       unvalidated: seq<Block>, validated: seq<Block>, out: seq<Block>)
    requires Tree(index, root.id) && HeadInTree(index, root, head) && HeadIsBest(index, head) && NeverBack(index)
    requires Listing(index, false, unvalidated) && Listing(index, true, validated)
    requires WorstFirst(out) && multiset(out) == multiset(unvalidated) + multiset(validated)
    ensures Opened(root, out, head.id) == Some((index, head))
  {
    ReopenExactly(index, root.id, unvalidated, validated, out);
  }
}
