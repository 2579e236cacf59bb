/**
  The scan that collects the enumerators of an enum body (`add_fields` and
  `add_enum_field` in tools/validate_reflection.py): a repeated search for a
  small pattern that backs up one character to reuse each comma.
*/
module EnumScan {
  import opened Lists
  import opened BraceReader

  datatype CharClass = Space | Word | Value

  predicate In(c: char, cls: CharClass) {
    match cls
    case Space => IsSpace(c)
    case Word => 'a' <= c <= 'z' || 'A' <= c <= 'Z' || '0' <= c <= '9' || c == '_'
    case Value => c != ',' && c != '}' && !IsSpace(c)
  }

  /** Past the longest run of characters of a class. */
  function Skip(s: string, cls: CharClass, i: nat): (j: nat)
    requires i <= |s|
    ensures i <= j <= |s|
    decreases |s| - i
  {
    if i < |s| && In(s[i], cls) then Skip(s, cls, i + 1) else i
  }

  /** A match of the enumerator pattern: where its name lies and where it ends. */
  datatype Enumerator = Enumerator(from: nat, to: nat, end: nat)

  /** What may follow a name and its spaces: an optional `=` and value, then `,` or `}`. Returns the end. */
  function MatchClose(s: string, c: nat): (end: Option<nat>)
    requires c < |s|
    ensures end.Some? ==> c < end.value <= |s|
  {
    if s[c] == '=' then
      var d := Skip(s, Space, c + 1);
      var e := Skip(s, Value, d);
      var f := Skip(s, Space, e);
      if d < e && f < |s| && (s[f] == ',' || s[f] == '}') then Some(f + 1) else None
    else if s[c] == ',' || s[c] == '}' then Some(c + 1)
    else None
  }

  /**
    The enumerator pattern at the start of `s`: a comma or `{`, a name, an optional
    `=` with a value free of spaces, and a comma or `}`. No proper prefix of a run can
    be followed by what comes next, so the longest runs are the only ones to try.
   */
  function MatchStart(s: string): (m: Option<Enumerator>)
    ensures m.Some? ==> 0 < m.value.from < m.value.to < m.value.end <= |s|
  {
    if s == "" || (s[0] != ',' && s[0] != '{') then None
    else
      var a := Skip(s, Space, 1);
      var b := Skip(s, Word, a);
      var c := Skip(s, Space, b);
      if a == b || c == |s| then None
      else
        match MatchClose(s, c)
        case None => None
        case Some(end) => Some(Enumerator(a, b, end))
  }

  /** The leftmost match in `s` at or after `i`, with its position. */
  function Search(s: string, i: nat): (m: Option<(nat, Enumerator)>)
    ensures m.Some? ==> i <= m.value.0 < |s| && MatchStart(s[m.value.0..]) == Some(m.value.1)
    decreases |s| - i
  {
    if i >= |s| then None
    else
      match MatchStart(s[i..])
      case Some(e) => Some((i, e))
      case None => Search(s, i + 1)
  }

  // ----- the matched text is found where it was matched -----

  lemma {:induction false} SkipAgrees(s: string, t: string, cls: CharClass, i: nat)
    requires i <= |s| && Skip(s, cls, i) < |s|
    requires Skip(s, cls, i) < |t| && forall k :: i <= k <= Skip(s, cls, i) ==> t[k] == s[k]
    ensures Skip(t, cls, i) == Skip(s, cls, i)
    decreases |s| - i
  {
    if i < Skip(s, cls, i) {
      SkipAgrees(s, t, cls, i + 1);
    }
  }

  lemma CloseAgrees(s: string, t: string, c: nat)
    requires c < |s| && MatchClose(s, c).Some?
    requires var end := MatchClose(s, c).value; end <= |t| && forall k :: c <= k < end ==> t[k] == s[k]
    ensures MatchClose(t, c) == MatchClose(s, c)
  {
    if s[c] == '=' {
      var d := Skip(s, Space, c + 1);
      var e := Skip(s, Value, d);
      SkipAgrees(s, t, Space, c + 1);
      SkipAgrees(s, t, Value, d);
      SkipAgrees(s, t, Space, e);
    }
  }

  /** A match depends on the matched text only. */
  lemma MatchAgrees(s: string, t: string)
    requires MatchStart(s).Some?
    requires var end := MatchStart(s).value.end; end <= |t| && forall k :: 0 <= k < end ==> t[k] == s[k]
    ensures MatchStart(t) == MatchStart(s)
  {
    var a := Skip(s, Space, 1);
    var b := Skip(s, Word, a);
    var c := Skip(s, Space, b);
    SkipAgrees(s, t, Space, 1);
    SkipAgrees(s, t, Word, a);
    SkipAgrees(s, t, Space, b);
    CloseAgrees(s, t, c);
  }

  lemma {:induction false} SearchLeftmost(s: string, i: nat, k: nat)
    requires i <= k < |s| && MatchStart(s[k..]).Some?
    ensures Search(s, i).Some? && Search(s, i).value.0 <= k
    decreases k - i
  {
    if i < k {
      SearchLeftmost(s, i + 1, k);
    }
  }

  /** Wherever the matched text occurs, there is a match. */
  lemma RepeatMatches(s: string, i: nat, k: nat)
    requires i <= |s| && k <= |s| && MatchStart(s[i..]).Some?
    requires var n := MatchStart(s[i..]).value.end; k + n <= |s| && s[k..k + n] == s[i..i + n]
    ensures MatchStart(s[k..]).Some?
  {
    var n := MatchStart(s[i..]).value.end;
    forall x | 0 <= x < n
      ensures s[k..][x] == s[i..][x]
    {
      assert s[k..k + n][x] == s[i..i + n][x];
    }
    MatchAgrees(s[i..], s[k..]);
  }

  /** Looking for the matched text finds the match itself: no earlier occurrence can have been missed. */
  lemma FoundAtMatch(content: string, loc: nat, hi: nat, i: nat, all: string)
    requires loc <= hi <= |content| && loc + i + |all| <= hi
    requires Search(content[loc..hi], 0).Some? && Search(content[loc..hi], 0).value.0 == i
    requires Search(content[loc..hi], 0).value.1.end == |all| && all == content[loc + i..loc + i + |all|]
    ensures FindText(content, all, loc, |content|) == Some(loc + i)
  {
    hide MatchStart, Search;
    assert OccursAt(content, all, loc + i, |content|);
    var found := FindText(content, all, loc, |content|).value;
    if found < loc + i {
      NoEarlierRepeat(content, loc, hi, i, all, found);
      assert false;
    }
  }

  lemma NoEarlierRepeat(content: string, loc: nat, hi: nat, i: nat, all: string, at: nat)
    requires loc <= at < loc + i && hi <= |content| && loc + i + |all| <= hi
    requires Search(content[loc..hi], 0).Some? && Search(content[loc..hi], 0).value.0 == i
    requires Search(content[loc..hi], 0).value.1.end == |all| && all == content[loc + i..loc + i + |all|]
    ensures !OccursAt(content, all, at, |content|)
  {
    hide MatchStart;
    var s, k, n := content[loc..hi], at - loc, |all|;
    if OccursAt(content, all, at, |content|) {
      SliceOfSlice(content, loc, hi, k, k + n);
      SliceOfSlice(content, loc, hi, i, i + n);
      assert s[k..k + n] == s[i..i + n];
      RepeatMatches(s, i, k);
      SearchLeftmost(s, 0, k);
      assert false;
    }
  }

  // ----- the scan -----

  /** The names the scan collects from the text `s` between its position and the end of the body. */
  function Scan(s: string): seq<string>
    decreases |s|
  {
    if |s| <= 1 then []
    else
      match Search(s, 0)
      case None => []
      case Some((i, e)) => [s[i..][e.from..e.to]] + Scan(s[i..][e.end - 1..])
  }

  lemma ScanCons(s: string, i: nat, e: Enumerator, name: string, rest: string)
    requires |s| > 1 && Search(s, 0) == Some((i, e))
    requires name == s[i..][e.from..e.to] && rest == s[i..][e.end - 1..]
    ensures Scan(s) == [name] + Scan(rest)
  {
    hide Search, MatchStart;
  }

  /** One round of the scan, in terms of the whole text. */
  lemma ScanRound(content: string, loc: nat, end: nat, i: nat, e: Enumerator)
    requires loc < end < |content| && Search(content[loc..end + 1], 0) == Some((i, e))
    ensures loc < loc + i + e.end - 1 <= end
    ensures content[loc..end + 1][i..][e.from..e.to] == content[loc + i + e.from..loc + i + e.to]
    ensures content[loc..end + 1][i..][e.end - 1..] == content[loc + i + e.end - 1..end + 1]
  {
    hide MatchStart, Search;
    var n := end + 1 - loc;
    SliceOfSlice(content, loc, end + 1, i, n);
    assert content[loc..end + 1][i..] == content[loc..end + 1][i..n];
    SliceOfSlice(content, loc + i, end + 1, e.from, e.to);
    SliceOfSlice(content, loc + i, end + 1, e.end - 1, n - i);
  }

  lemma JoinOne(s: seq<string>, x: string, t: seq<string>)
    ensures s + ([x] + t) == s + [x] + t
  {
  }

  lemma ScanShort(s: string)
    requires |s| <= 1
    ensures Scan(s) == []
  {
  }

  /** From its opening brace, just before `start`, to its closing brace at `end` the text is the enum `items`. */
  ghost predicate Holds(content: string, start: nat, end: nat, items: seq<Item>) {
    && 0 < start <= end < |content| && items != [] && (forall it :: it in items ==> Writable(it))
    && content[start - 1..end + 1] == ['{'] + Body(items)
  }

  class EnumBody {
    const content: string
    var fields: seq<string>

    constructor (content: string)
      ensures this.content == content && fields == []
    {
      this.content, this.fields := content, [];
    }

    /** Takes one enumerator and returns where to go on. */
    method AddEnumField(loc: nat, end: nat) returns (next: nat)
      requires loc < end < |content|
      modifies this`fields
      ensures loc < next <= end
      ensures fields + Scan(content[next..end + 1]) == old(fields) + Scan(content[loc..end + 1])
    {
      hide MatchStart, Search, Scan;
      var m := Search(content[loc..end + 1], 0);
      if m.None? {
        ScanNone(content[loc..end + 1]);
        ScanShort(content[end..end + 1]);
        return end;
      }
      var (i, e) := m.value;
      ScanRound(content, loc, end, i, e);
      var name, all := content[loc + i + e.from..loc + i + e.to], content[loc + i..loc + i + e.end];
      FoundAtMatch(content, loc, end + 1, i, all);
      next := FindText(content, all, loc, |content|).value + |all| - 1;
      ghost var rest := content[next..end + 1];
      ScanCons(content[loc..end + 1], i, e, name, rest);
      JoinOne(fields, name, Scan(rest));
      fields := fields + [name];
    }

    method AddFields(start: nat, end: nat)
      requires end < |content|
      modifies this`fields
      ensures var loc := if start > 0 then start - 1 else 0;
              fields == old(fields) + if loc < end then Scan(content[loc..end + 1]) else []
      ensures forall items :: Holds(content, start, end, items) ==> fields == old(fields) + SimpleNames(items)
    {
      forall items | Holds(content, start, end, items) ensures Scan(content[start - 1..end + 1]) == SimpleNames(items) {
        ScanReadsBack('{', items);
      }
      var loc := if start > 0 then start - 1 else 0;
      ghost var first := loc;
      while loc < end
        invariant loc <= end || loc == first
        invariant first < end ==>
                    fields + Scan(content[loc..end + 1]) == old(fields) + Scan(content[first..end + 1])
        invariant first >= end ==> fields == old(fields)
        decreases end - loc
      {
        loc := AddEnumField(loc, end);
      }
    }
  }

  // ----- the scan undoes the writing of an enum -----

  /** An enumerator as written: its name between spaces and, after `=`, anything but `,` and braces. */
  datatype Item = Item(pre: string, name: string, mid: string, init: Option<string>)

  ghost predicate AllIn(s: string, cls: CharClass) {
    forall k :: 0 <= k < |s| ==> In(s[k], cls)
  }

  /** Letters, digits and the underscore by their character codes. */
  ghost predicate NameChar(c: char) {
    97 <= c as int <= 122 || 65 <= c as int <= 90 || 48 <= c as int <= 57 || c as int == 95
  }

  ghost predicate Writable(it: Item) {
    && (forall c :: c in it.pre || c in it.mid ==> Blank(c))
    && it.name != "" && (forall c :: c in it.name ==> NameChar(c))
    && (it.init.Some? ==> forall c :: c in it.init.value ==> c != ',' && c != '{' && c != '}')
  }

  lemma WritableClasses(it: Item)
    requires Writable(it)
    ensures AllIn(it.pre, Space) && AllIn(it.mid, Space) && AllIn(it.name, Word)
  {
    forall k | 0 <= k < |it.pre| ensures In(it.pre[k], Space) {
      assert it.pre[k] in it.pre;
    }
    forall k | 0 <= k < |it.mid| ensures In(it.mid[k], Space) {
      assert it.mid[k] in it.mid;
    }
    forall k | 0 <= k < |it.name| ensures In(it.name[k], Word) {
      assert it.name[k] in it.name;
    }
  }

  /** One run without spaces, with spaces around it at most. */
  ghost predicate SimpleValue(v: string) {
    exists d: nat, e: nat :: RunIn(v, d, e)
  }

  ghost predicate RunIn(v: string, d: nat, e: nat) {
    && d < e <= |v|
    && (forall k :: 0 <= k < d || e <= k < |v| ==> Blank(v[k]))
    && (forall k :: d <= k < e ==> !Blank(v[k]))
  }

  lemma {:induction false} SkipStops(s: string, cls: CharClass, i: nat)
    requires i <= |s|
    ensures var j := Skip(s, cls, i);
            (j < |s| ==> !In(s[j], cls)) && forall k :: i <= k < j ==> In(s[k], cls)
    decreases |s| - i
  {
    hide In;
    if i < |s| && In(s[i], cls) {
      SkipStops(s, cls, i + 1);
    }
  }

  /** The longest run is the one that ends where the class ends. */
  lemma SkipUnique(s: string, cls: CharClass, i: nat, j: nat)
    requires i <= j <= |s| && (j < |s| ==> !In(s[j], cls)) && forall k :: i <= k < j ==> In(s[k], cls)
    ensures Skip(s, cls, i) == j
  {
    hide In, Skip;
    SkipStops(s, cls, i);
  }

  /** The runs that the pattern tries are the right ones. */
  lemma SimpleBySkipping(v: string)
    requires forall c :: c in v ==> c != ',' && c != '}'
    ensures var d := Skip(v, Space, 0);
            var e := Skip(v, Value, d);
            SimpleValue(v) <==> d < e && Skip(v, Space, e) == |v|
  {
    hide Skip;
    var d := Skip(v, Space, 0);
    var e := Skip(v, Value, d);
    forall k | 0 <= k < |v| ensures (In(v[k], Value) <==> !Blank(v[k])) && (In(v[k], Space) <==> Blank(v[k])) {
      assert v[k] in v;
    }
    if d < e && Skip(v, Space, e) == |v| {
      SkipStops(v, Space, 0);
      SkipStops(v, Value, d);
      SkipStops(v, Space, e);
      assert RunIn(v, d, e);
    }
    if SimpleValue(v) {
      var d': nat, e': nat :| RunIn(v, d', e');
      SkipUnique(v, Space, 0, d');
      SkipUnique(v, Value, d', e');
      SkipUnique(v, Space, e', |v|);
    }
  }

  ghost predicate Simple(it: Item) {
    it.init.Some? ==> SimpleValue(it.init.value)
  }

  function ItemText(it: Item): string {
    it.pre + it.name + it.mid + if it.init.Some? then "=" + it.init.value else ""
  }

  /** The items separated by commas and closed by a brace. */
  function Body(items: seq<Item>): string
    requires items != []
  {
    ItemText(items[0]) + if |items| == 1 then "}" else "," + Body(items[1..])
  }

  /** The names of the items without an initializer or with a simple one. */
  ghost function SimpleNames(items: seq<Item>): seq<string> {
    if items == [] then []
    else (if Simple(items[0]) then [items[0].name] else []) + SimpleNames(items[1..])
  }

  function Names(items: seq<Item>): seq<string> {
    seq(|items|, i requires 0 <= i < |items| => items[i].name)
  }

  /** Skipping inside a stretch `v` of `s` that is followed by a character outside the class. */
  lemma {:induction false} SkipEmbedded(s: string, v: string, off: nat, cls: CharClass, i: nat)
    requires off + |v| < |s| && i <= |v| && !In(s[off + |v|], cls)
    requires forall k :: 0 <= k < |v| ==> s[off + k] == v[k]
    ensures Skip(s, cls, off + i) == off + Skip(v, cls, i)
    decreases |v| - i
  {
    if i < |v| {
      assert s[off + i] == v[i];
      if In(v[i], cls) {
        SkipEmbedded(s, v, off, cls, i + 1);
      }
    }
  }

  lemma Closers(x: char)
    requires x == ',' || x == '}'
    ensures !In(x, Space) && !In(x, Value) && !In(x, Word)
  {
  }

  /** An initializer followed by a comma or `}` closes an enumerator exactly when it is simple. */
  lemma CloseItem(s: string, c: nat, v: string)
    requires c + 1 + |v| < |s| && s[c] == '=' && (s[c + 1 + |v|] == ',' || s[c + 1 + |v|] == '}')
    requires forall k :: 0 <= k < |v| ==> s[c + 1 + k] == v[k]
    requires forall x :: x in v ==> x != ',' && x != '}'
    ensures MatchClose(s, c) == if SimpleValue(v) then Some(c + |v| + 2) else None
  {
    hide Skip, In, SimpleValue;
    SimpleBySkipping(v);
    var d := Skip(v, Space, 0);
    var e := Skip(v, Value, d);
    var f := Skip(v, Space, e);
    Closers(s[c + 1 + |v|]);
    SkipEmbedded(s, v, c + 1, Space, 0);
    SkipEmbedded(s, v, c + 1, Value, d);
    SkipEmbedded(s, v, c + 1, Space, e);
    if f < |v| {
      assert s[c + 1 + f] == v[f] && v[f] in v;
    }
  }

  ghost predicate Lies(s: string, from: nat, v: string) {
    from + |v| <= |s| && forall k :: from <= k < from + |v| ==> s[k] == v[k - from]
  }

  /** Where the parts of an item lie in `[d] + ItemText(it) + [delim] + rest`. */
  ghost predicate LaidOut(s: string, it: Item) {
    var a := 1 + |it.pre|;
    var b := a + |it.name|;
    var c := b + |it.mid|;
    var v := if it.init.Some? then it.init.value else "";
    var z := if it.init.Some? then c + 1 + |v| else c;
    && z < |s|
    && Lies(s, 1, it.pre) && Lies(s, a, it.name) && Lies(s, b, it.mid)
    && (it.init.Some? ==> s[c] == '=' && Lies(s, c + 1, v))
    && z == 1 + |ItemText(it)| && (s[z] == ',' || s[z] == '}')
  }

  lemma LayOut(d: char, it: Item, delim: char, rest: string)
    requires delim == ',' || delim == '}'
    ensures LaidOut([d] + ItemText(it) + [delim] + rest, it)
  {
    var t := if it.init.Some? then "=" + it.init.value else "";
    Regroup([d], it.pre, it.name, it.mid, t, [delim], rest);
    PartsAre([d], it, t, [delim] + rest);
  }

  lemma Regroup(d: string, p: string, n: string, m: string, t: string, e: string, rest: string)
    ensures d + (p + n + m + t) + e + rest == d + p + n + m + t + (e + rest)
  {
    Join(d, p + n + m, t);
    Join(d, p + n, m);
    Join(d, p, n);
    Join(d + p + n + m + t, e, rest);
  }

  lemma PartsAre(d: string, it: Item, t: string, z: string)
    requires |d| == 1 && t == (if it.init.Some? then "=" + it.init.value else "")
    requires z != "" && (z[0] == ',' || z[0] == '}')
    ensures LaidOut(d + it.pre + it.name + it.mid + t + z, it)
  {
    hide Lies;
    var s := d + it.pre + it.name + it.mid + t + z;
    Join(d + it.pre + it.name + it.mid, t, z);
    Join(d + it.pre + it.name, it.mid, t + z);
    Join(d + it.pre, it.name, it.mid + (t + z));
    PartLies(s, d, it.pre, it.name + (it.mid + (t + z)));
    PartLies(s, d + it.pre, it.name, it.mid + (t + z));
    PartLies(s, d + it.pre + it.name, it.mid, t + z);
    PartLies(s, d + it.pre + it.name + it.mid, t, z);
    if it.init.Some? {
      TailLies(s, |d + it.pre + it.name + it.mid|, '=', it.init.value);
    }
  }

  lemma PartLies(s: string, u: string, v: string, w: string)
    requires s == u + v + w
    ensures Lies(s, |u|, v) && |s| == |u| + |v| + |w| && (w != "" ==> s[|u| + |v|] == w[0])
  {
  }

  lemma TailLies(s: string, from: nat, x: char, v: string)
    requires Lies(s, from, [x] + v)
    ensures from < |s| && s[from] == x && Lies(s, from + 1, v)
  {
    var t := [x] + v;
    assert forall k :: from + 1 <= k < from + 1 + |v| ==> s[k] == t[k - from];
  }

  lemma Join(a: string, b: string, c: string)
    ensures a + (b + c) == a + b + c
  {
  }

  /** The pattern matches an item exactly when the item is simple, and then it captures its name. */
  lemma MatchItem(s: string, it: Item)
    requires Writable(it) && LaidOut(s, it) && (s[0] == ',' || s[0] == '{')
    ensures MatchStart(s) ==
            if Simple(it)
            then Some(Enumerator(1 + |it.pre|, 1 + |it.pre| + |it.name|, |ItemText(it)| + 2))
            else None
  {
    hide Skip, SimpleValue, In;
    var a := 1 + |it.pre|;
    var b := a + |it.name|;
    var c := b + |it.mid|;
    assert it.name[0] == s[a];
    WordRun(s, it, a, b, c);
    if it.init.Some? {
      var v := it.init.value;
      assert forall k :: 0 <= k < |v| ==> s[c + 1 + k] == v[k];
      CloseItem(s, c, v);
    }
  }

  lemma WordRun(s: string, it: Item, a: nat, b: nat, c: nat)
    requires Writable(it) && LaidOut(s, it)
    requires a == 1 + |it.pre| && b == a + |it.name| && c == b + |it.mid|
    ensures Skip(s, Space, 1) == a && Skip(s, Word, a) == b && Skip(s, Space, b) == c
  {
    WritableClasses(it);
    assert In(it.name[0], Word) && s[a] == it.name[0];
    SkipUnique(s, Space, 1, a);
    assert b < c ==> In(it.mid[0], Space) && s[b] == it.mid[0];
    SkipUnique(s, Word, a, b);
    SkipUnique(s, Space, b, c);
  }

  /** No match starts inside an item. */
  lemma NoneInside(s: string, it: Item, k: nat)
    requires Writable(it) && LaidOut(s, it) && 1 <= k <= |ItemText(it)|
    ensures MatchStart(s[k..]).None?
  {
    WritableClasses(it);
    var a := 1 + |it.pre|;
    var b := a + |it.name|;
    var c := b + |it.mid|;
    if k < a {
      assert In(it.pre[k - 1], Space);
    } else if k < b {
      assert In(it.name[k - a], Word);
    } else if k < c {
      assert In(it.mid[k - b], Space);
    } else if k > c {
      var v := it.init.value;
      assert s[k] == v[k - c - 1] && v[k - c - 1] in v;
    }
  }

  lemma {:induction false} SearchSkips(s: string, i: nat, j: nat)
    requires i <= j && forall k :: i <= k < j && k < |s| ==> MatchStart(s[k..]).None?
    ensures Search(s, i) == Search(s, j)
    decreases j - i
  {
    hide MatchStart;
    if i < j {
      SearchSkips(s, i + 1, j);
    }
  }

  lemma {:induction false} SearchSuffix(s: string, p: nat, i: nat)
    requires p <= |s|
    ensures Search(s, p + i) == match Search(s[p..], i) { case None => None case Some((k, e)) => Some((p + k, e)) }
    decreases |s| - i
  {
    hide MatchStart;
    if p + i < |s| {
      assert s[p..][i..] == s[p + i..];
      SearchSuffix(s, p, i + 1);
    }
  }

  /** Text before `p` that matches nowhere contributes no name. */
  lemma ScanSuffix(s: string, p: nat)
    requires p + 1 < |s| && forall k :: 0 <= k < p ==> MatchStart(s[k..]).None?
    ensures Scan(s) == Scan(s[p..])
  {
    hide MatchStart, Search, Scan;
    SearchSkips(s, 0, p);
    SearchSuffix(s, p, 0);
    var t := s[p..];
    if Search(t, 0).None? {
      ScanNone(s);
      ScanNone(t);
    } else {
      var (k, e) := Search(t, 0).value;
      var u := s[p + k..];
      assert t[k..] == u;
      var name, rest := u[e.from..e.to], u[e.end - 1..];
      ScanCons(t, k, e, name, rest);
      ScanCons(s, p + k, e, name, rest);
    }
  }

  lemma ScanNone(s: string)
    requires Search(s, 0).None?
    ensures Scan(s) == []
  {
    hide Search;
  }

  lemma SearchFirst(s: string)
    requires s != ""
    ensures MatchStart(s).Some? ==> Search(s, 0) == Some((0, MatchStart(s).value))
  {
    hide MatchStart;
    assert s[0..] == s;
  }

  lemma NameLies(s: string, it: Item)
    requires LaidOut(s, it)
    ensures var a := 1 + |it.pre|; a + |it.name| <= |s| && s[a..a + |it.name|] == it.name
  {
  }

  lemma ScanItem(d: char, it: Item, delim: char, rest: string)
    requires Writable(it) && (d == ',' || d == '{') && (delim == ',' || (delim == '}' && rest == ""))
    ensures Scan([d] + ItemText(it) + [delim] + rest)
         == (if Simple(it) then [it.name] else []) + Scan([delim] + rest)
  {
    hide MatchStart, Writable, LaidOut, Simple, Search, Scan;
    var s, p := [d] + ItemText(it) + [delim] + rest, 1 + |ItemText(it)|;
    LayOut(d, it, delim, rest);
    MatchItem(s, it);
    assert s[0..] == s && s[p..] == [delim] + rest;
    forall k | 1 <= k < p
      ensures MatchStart(s[k..]).None?
    {
      NoneInside(s, it, k);
    }
    SearchFirst(s);
    if Simple(it) {
      var a := 1 + |it.pre|;
      NameLies(s, it);
      ScanCons(s, 0, Enumerator(a, a + |it.name|, p + 1), it.name, s[p..]);
    } else if rest != "" {
      ScanSuffix(s, p);
    } else {
      LastDelimiter(s, p);
    }
  }

  /** A text whose only possible match starts at its last character has none. */
  lemma LastDelimiter(s: string, p: nat)
    requires 1 <= p && |s| == p + 1 && forall k :: 0 <= k < p ==> MatchStart(s[k..]).None?
    ensures Scan(s) == [] == Scan(s[p..])
  {
    assert MatchStart(s[p..]).None?;
    SearchSkips(s, 0, p + 1);
  }

  /** Every enum written out is read back: the simple items' names, in order, once each. */
  lemma {:induction false} ScanReadsBack(d: char, items: seq<Item>)
    requires items != [] && (d == ',' || d == '{')
    requires forall it :: it in items ==> Writable(it)
    ensures Scan([d] + Body(items)) == SimpleNames(items)
    decreases |items|
  {
    var it := items[0];
    if |items| == 1 {
      assert [d] + Body(items) == [d] + ItemText(it) + ['}'] + "";
      ScanItem(d, it, '}', "");
      assert Scan(['}'] + "") == [];
    } else {
      assert [d] + Body(items) == [d] + ItemText(it) + [','] + Body(items[1..]);
      ScanItem(d, it, ',', Body(items[1..]));
      ScanReadsBack(',', items[1..]);
    }
  }

  /** So all names are read exactly when every initializer is simple. */
  lemma ScanReadsAllNames(items: seq<Item>)
    requires items != [] && forall it :: it in items ==> Writable(it)
    ensures Scan("{" + Body(items)) == Names(items) <==> forall it :: it in items ==> Simple(it)
  {
    ScanReadsBack('{', items);
    assert "{" == ['{'];
    SimpleNamesLength(items);
  }

  lemma {:induction false} SimpleNamesLength(items: seq<Item>)
    ensures |SimpleNames(items)| <= |items|
    ensures SimpleNames(items) == Names(items) <==> forall it :: it in items ==> Simple(it)
    ensures |SimpleNames(items)| == |items| ==> forall it :: it in items ==> Simple(it)
  {
    if items != [] {
      SimpleNamesLength(items[1..]);
      assert items == [items[0]] + items[1..];
      assert Names(items) == [items[0].name] + Names(items[1..]);
    }
  }
}
