/** Optional values, and sequences as lists: repetition, removal, and what is left of a list without another one. */
module Lists {

  datatype Option<+T> = None | Some(value: T)

  ghost predicate Distinct<T>(s: seq<T>) {
    forall i, j :: 0 <= i < j < |s| ==> s[i] != s[j]
  }

  /** `list.remove(x)`: drops the first occurrence of `x`. */
  function RemoveFirst<T(==)>(s: seq<T>, x: T): seq<T> {
    if s == [] then []
    else if s[0] == x then s[1..]
    else [s[0]] + RemoveFirst(s[1..], x)
  }

  /** The elements of `s` that are not listed in `gone`, in the order of `s`. */
  function Except<T(==)>(s: seq<T>, gone: seq<T>): seq<T> {
    if s == [] then []
    else
      var last := s[|s| - 1];
      Except(s[..|s| - 1], gone) + if last in gone then [] else [last]
  }

  lemma {:induction false} RemoveFirstMembers<T>(s: seq<T>, x: T)
    requires Distinct(s)
    ensures Distinct(RemoveFirst(s, x))
    ensures forall y :: y in RemoveFirst(s, x) <==> y in s && y != x
  {
    if s != [] && s[0] != x {
      RemoveFirstMembers(s[1..], x);
      assert s == [s[0]] + s[1..];
      assert s[0] !in RemoveFirst(s[1..], x);
    } else if s != [] {
      assert s == [x] + s[1..];
    }
  }

  lemma DistinctSnoc<T>(s: seq<T>, x: T)
    requires Distinct(s) && x !in s
    ensures Distinct(s + [x])
  {
  }

  lemma DistinctParts<T>(s: seq<T>, k: nat)
    requires Distinct(s) && k < |s|
    ensures Distinct(s[..k]) && s[k] !in s[..k] && s[k] !in s[k + 1..]
  {
  }

  lemma ExceptSnoc<T>(s: seq<T>, x: T, gone: seq<T>)
    ensures Except(s + [x], gone) == Except(s, gone) + if x in gone then [] else [x]
  {
    assert (s + [x])[..|s|] == s;
  }

  lemma {:induction false} ExceptMembers<T>(s: seq<T>, gone: seq<T>)
    ensures forall x :: x in Except(s, gone) <==> x in s && x !in gone
  {
    if s != [] {
      ExceptMembers(s[..|s| - 1], gone);
      assert s == s[..|s| - 1] + [s[|s| - 1]];
    }
  }

  lemma {:induction false} ExceptConcat<T>(a: seq<T>, b: seq<T>, gone: seq<T>)
    ensures Except(a + b, gone) == Except(a, gone) + Except(b, gone)
  {
    if b == [] {
      assert a + b == a;
    } else {
      var b', x := b[..|b| - 1], b[|b| - 1];
      ExceptConcat(a, b', gone);
      JoinAll(a, b', [x]);
      ExceptSnoc(a + b', x, gone);
      ExceptSnoc(b', x, gone);
      assert b == b' + [x];
      hide Except;
      JoinAll(Except(a, gone), Except(b', gone), if x in gone then [] else [x]);
    }
  }

  lemma JoinAll<T>(a: seq<T>, b: seq<T>, c: seq<T>)
    ensures a + (b + c) == a + b + c
  {
  }

  /** Nothing of `s` is listed in `gone`: nothing is dropped. */
  lemma {:induction false} ExceptNone<T>(s: seq<T>, gone: seq<T>)
    requires forall x :: x in s ==> x !in gone
    ensures Except(s, gone) == s
  {
    if s != [] {
      assert s == s[..|s| - 1] + [s[|s| - 1]];
      ExceptNone(s[..|s| - 1], gone);
    }
  }

  /** A kept element stands in the result right after what is kept of the elements before it. */
  lemma ExceptAt<T>(s: seq<T>, k: nat, gone: seq<T>)
    requires k < |s| && s[k] !in gone
    ensures |Except(s[..k], gone)| < |Except(s, gone)|
    ensures Except(s, gone)[|Except(s[..k], gone)|] == s[k]
  {
    assert s == (s[..k] + [s[k]]) + s[k + 1..];
    ExceptConcat(s[..k] + [s[k]], s[k + 1..], gone);
    ExceptSnoc(s[..k], s[k], gone);
  }

  lemma NoMembers<T>(s: seq<T>)
    ensures s == [] || exists x :: x in s
  {
    assert s != [] ==> s[0] in s;
  }

  lemma ExceptSplit<T>(s: seq<T>, k: nat, gone: seq<T>)
    requires k < |s| && s[k] in gone
    ensures Except(s, gone) == Except(s[..k], gone) + Except(s[k + 1..], gone)
  {
    assert s == (s[..k] + [s[k]]) + s[k + 1..];
    ExceptConcat(s[..k] + [s[k]], s[k + 1..], gone);
    ExceptSnoc(s[..k], s[k], gone);
  }

  /** Everything in `s` is listed in `gone`: nothing is left. */
  lemma ExceptAll<T>(s: seq<T>, gone: seq<T>)
    requires forall x :: x in s ==> x in gone
    ensures Except(s, gone) == []
  {
    ExceptMembers(s, gone);
    NoMembers(Except(s, gone));
  }

  lemma {:induction false} ExceptSame<T>(s: seq<T>, gone: seq<T>, gone': seq<T>)
    requires forall x :: x in s ==> (x in gone <==> x in gone')
    ensures Except(s, gone) == Except(s, gone')
  {
    if s != [] {
      assert s == s[..|s| - 1] + [s[|s| - 1]];
      ExceptSame(s[..|s| - 1], gone, gone');
    }
  }

  lemma {:induction false} ExceptDistinct<T>(s: seq<T>, gone: seq<T>)
    requires Distinct(s)
    ensures Distinct(Except(s, gone))
  {
    if s != [] {
      var k := |s| - 1;
      DistinctParts(s, k);
      ExceptDistinct(s[..k], gone);
      ExceptMembers(s[..k], gone);
    }
  }

  lemma {:induction false} SameMembersSameMultiset<T>(s: seq<T>, t: seq<T>)
    requires Distinct(s) && Distinct(t) && forall x :: x in s <==> x in t
    ensures multiset(s) == multiset(t)
  {
    DistinctCounts(s);
    DistinctCounts(t);
    forall x
      ensures multiset(s)[x] == multiset(t)[x]
    {
    }
  }

  lemma {:induction false} DistinctCounts<T>(s: seq<T>)
    requires Distinct(s)
    ensures forall x :: multiset(s)[x] == if x in s then 1 else 0
  {
    if s != [] {
      var k := |s| - 1;
      assert s == s[..k] + [s[k]];
      DistinctParts(s, k);
      DistinctCounts(s[..k]);
    }
  }

  /** Taking `s[k]` off the list of dropped elements puts it back between what is kept around it. */
  lemma ExceptRestored<T>(s: seq<T>, k: nat, gone: seq<T>, gone': seq<T>)
    requires Distinct(s) && k < |s|
    requires forall x :: x in gone' <==> x in gone && x != s[k]
    ensures Except(s, gone') == Except(s[..k], gone) + [s[k]] + Except(s[k + 1..], gone)
  {
    DistinctParts(s, k);
    assert s == (s[..k] + [s[k]]) + s[k + 1..];
    ExceptConcat(s[..k] + [s[k]], s[k + 1..], gone');
    ExceptSnoc(s[..k], s[k], gone');
    ExceptSame(s[..k], gone, gone');
    ExceptSame(s[k + 1..], gone, gone');
  }

  lemma SliceOfSlice<T>(s: seq<T>, a: nat, b: nat, c: nat, d: nat)
    requires a <= b <= |s| && c <= d <= b - a
    ensures s[a..b][c..d] == s[a + c..a + d]
  {
    assert forall x :: 0 <= x < d - c ==> s[a..b][c..d][x] == s[a..b][c + x];
  }

  /** A kept element is the last one kept of the elements up to it. */
  lemma ExceptRank<T>(s: seq<T>, k: nat, gone: seq<T>)
    requires k < |s| && s[k] !in gone
    ensures 0 < |Except(s[..k + 1], gone)| <= |Except(s, gone)|
    ensures Except(s, gone)[|Except(s[..k + 1], gone)| - 1] == s[k]
  {
    assert s[..k + 1] == s[..k] + [s[k]];
    ExceptSnoc(s[..k], s[k], gone);
    ExceptAt(s, k, gone);
  }
}
