/**
  The reader that cuts a source text into brace scopes (`EmptyScope` and
  `ClassStruct` in tools/validate_reflection.py). How a scope's header is
  recognised is left open: any classifier may be plugged in.
*/
module BraceReader {
  import opened Lists

  datatype Kind = Plain | Class | Namespace

  /** The text a class or namespace pattern matched; it ends in its opening brace. */
  datatype Header = Header(text: string, kind: Kind)

  type Classifier = (Kind, string) -> Option<Header>

  datatype Span = Span(start: nat, end: nat)

  /** A header pattern ends in `{`; what it matches before that is left open. */
  ghost predicate HeaderLike(classify: Classifier) {
    forall kind, slice :: classify(kind, slice).Some? ==> EndsInBrace(classify(kind, slice).value.text)
  }

  ghost predicate EndsInBrace(m: string) {
    |m| > 0 && m[|m| - 1] == '{'
  }

  // ----- string searching -----

  /** First position of `ch` in `[lo, hi)`. */
  function Find(text: string, ch: char, lo: nat, hi: nat): (r: Option<nat>)
    requires hi <= |text|
    ensures r.Some? ==> lo <= r.value < hi && text[r.value] == ch
    ensures forall k :: lo <= k < (if r.Some? then r.value else hi) ==> text[k] != ch
    decreases hi - lo
  {
    if lo >= hi then None
    else if text[lo] == ch then Some(lo)
    else Find(text, ch, lo + 1, hi)
  }

  predicate OccursAt(text: string, m: string, k: nat, hi: nat)
    requires hi <= |text|
  {
    k + |m| <= hi && text[k..k + |m|] == m
  }

  /** First position of the string `m` lying entirely in `[lo, hi)`. */
  function FindText(text: string, m: string, lo: nat, hi: nat): (r: Option<nat>)
    requires hi <= |text|
    ensures r.Some? ==> lo <= r.value && OccursAt(text, m, r.value, hi)
    ensures forall k: nat :: lo <= k < (if r.Some? then r.value else hi + 1) ==> !OccursAt(text, m, k, hi)
    decreases hi - lo
  {
    if lo + |m| > hi then None
    else if OccursAt(text, m, lo, hi) then Some(lo)
    else FindText(text, m, lo + 1, hi)
  }

  predicate IsSpace(c: char) {
    c == ' ' || c == '\t' || c == '\n' || c == '\r' || c == 11 as char || c == 12 as char
  }

  function SkipSpaces(text: string, i: nat): (j: nat)
    requires i <= |text|
    ensures i <= j <= |text| && (j < |text| ==> !IsSpace(text[j]))
    ensures forall k :: i <= k < j ==> IsSpace(text[k])
    decreases |text| - i
  {
    if i < |text| && IsSpace(text[i]) then SkipSpaces(text, i + 1) else i
  }

  function SkipInitializer(text: string, i: nat): (j: nat)
    requires i <= |text|
    ensures i <= j <= |text| && (j < |text| ==> text[j] == ';' || text[j] == '}')
    ensures forall k :: i <= k < j ==> text[k] != ';' && text[k] != '}'
    decreases |text| - i
  {
    if i < |text| && text[i] != ';' && text[i] != '}' then SkipInitializer(text, i + 1) else i
  }

  /** A brace initializer, `{` without `;` or `}` up to `}` and then `;`, at position `i`: its end. */
  function InitializerAt(text: string, i: nat): (end: Option<nat>)
    requires i < |text|
    ensures end.Some? ==> text[i] == '{' && i < end.value <= |text|
  {
    if text[i] != '{' then None
    else
      var j := SkipInitializer(text, i + 1);
      if j == |text| || text[j] != '}' then None
      else
        var k := SkipSpaces(text, j + 1);
        if k < |text| && text[k] == ';' then Some(k + 1) else None
  }

  /** The leftmost brace initializer at or after `i`. */
  function SearchInitializer(text: string, i: nat): (m: Option<string>)
    ensures m.Some? ==> |m.value| > 0 && m.value[0] == '{'
    ensures m.Some? ==> exists k: nat :: i <= k && OccursAt(text, m.value, k, |text|)
    decreases |text| - i
  {
    if i >= |text| then None
    else
      match InitializerAt(text, i)
      case Some(end) => var m := text[i..end]; assert OccursAt(text, m, i, |text|); Some(m)
      case None => SearchInitializer(text, i + 1)
  }

  /** A slice bound: one below zero counts from the end of the text. */
  function Bound(text: string, end: int): (b: nat)
    ensures b <= |text|
  {
    if end < 0 then (if |text| + end < 0 then 0 else |text| + end)
    else if end > |text| then |text| else end
  }

  function OrMinusOne(r: Option<nat>): int {
    if r.Some? then r.value else -1
  }

  // ----- the code -----

  /** Where to stop looking for a nested scope: the next `}`, or the one after a brace initializer. */
  function FindPossibleEnd(text: string, current: nat): int {
    var possible := OrMinusOne(Find(text, '}', current, |text|));
    match SearchInitializer(text, current)
    case None => possible
    case Some(all) =>
      var allStart := OrMinusOne(FindText(text, all, current, |text|));
      var allEnd := allStart + |all|;
      if allStart < possible < allEnd
      then OrMinusOne(Find(text, '}', allEnd + 1, |text|))
      else possible
  }

  /** Where the string `m` puts the opening brace of a scope. */
  function FindScopeStart(text: string, current: nat, end: int, m: string): (start: int)
    ensures start >= -1
  {
    match FindText(text, m, current, Bound(text, end))
    case None => -1
    case Some(loc) => loc + |m| - 1
  }

  /** The scope opened next inside a scope of the given kind, and its kind. */
  function NextScope(text: string, current: nat, kind: Kind, classify: Classifier): Option<(nat, Kind)> {
    var end := FindPossibleEnd(text, current);
    var generic := FindScopeStart(text, current, end, "{");
    if kind == Plain then
      if generic == -1 then None else Some((generic, Plain))
    else
      var hi := Bound(text, end);
      var header := classify(kind, if current <= hi then text[current..hi] else "");
      var start := if header.Some? then FindScopeStart(text, current, end, header.value.text) else -1;
      if start == -1 && generic == -1 then None
      else if start != -1 && (generic == -1 || start <= generic) then Some((start, header.value.kind))
      else Some((generic, Plain))
  }

  // ----- the reference: one flat scan with a depth counter -----

  /** The position where the `d`-th scope enclosing position `i` is closed (0 is the innermost). */
  function Closer(text: string, i: nat, d: nat): (r: Option<nat>)
    ensures r.Some? ==> i <= r.value < |text| && text[r.value] == '}'
    decreases |text| - i
  {
    if i >= |text| then None
    else if text[i] == '{' then Closer(text, i + 1, d + 1)
    else if text[i] == '}' then (if d == 0 then Some(i) else Closer(text, i + 1, d - 1))
    else Closer(text, i + 1, d)
  }

  /** Every `{` in `[lo, hi)` with the `}` that closes it, from left to right. */
  function Spans(text: string, lo: nat, hi: nat): seq<Span>
    requires hi <= |text|
    decreases hi - lo
  {
    if lo >= hi then []
    else if text[lo] == '{' && Closer(text, lo + 1, 0).Some? then
      [Span(lo, Closer(text, lo + 1, 0).value)] + Spans(text, lo + 1, hi)
    else Spans(text, lo + 1, hi)
  }

  ghost predicate AllClosed(text: string, lo: nat, hi: nat)
    requires hi <= |text|
  {
    forall i: nat :: lo <= i < hi && text[i] == '{' ==> Closer(text, i + 1, 0).Some?
  }

  /** Reading stops at a `}` that closes nothing, or just before the last character. */
  function StopOf(text: string): (stop: nat)
    requires |text| > 0
    ensures stop < |text|
  {
    var stray := Closer(text, 1, 0);
    if stray.Some? then stray.value else |text| - 1
  }

  // ----- where the search for a scope ends -----

  /** White space by its character codes: the space, and tab to carriage return. */
  ghost predicate Blank(c: char) {
    c as int == 32 || 9 <= c as int <= 13
  }

  /** `[i, e)` is a brace initializer that is closed at `j`: a `{`, no `;` or `}` up to a `}`, and after that
      only white space up to a `;`. */
  ghost predicate IsInitializer(text: string, i: nat, j: nat, e: nat) {
    && i < j < e - 1 < |text| && text[i] == '{' && text[j] == '}' && text[e - 1] == ';'
    && (forall k :: i < k < j ==> text[k] != ';' && text[k] != '}')
    && (forall k :: j < k < e - 1 ==> Blank(text[k]))
  }

  lemma InitializerFound(text: string, i: nat)
    requires i < |text| && InitializerAt(text, i).Some?
    ensures exists j: nat :: IsInitializer(text, i, j, InitializerAt(text, i).value)
  {
    assert IsInitializer(text, i, SkipInitializer(text, i + 1), InitializerAt(text, i).value);
  }

  lemma InitializerNotMissed(text: string, i: nat, j: nat, e: nat)
    requires IsInitializer(text, i, j, e)
    ensures InitializerAt(text, i) == Some(e)
  {
    assert SkipInitializer(text, i + 1) == j;
    assert SkipSpaces(text, j + 1) == e - 1;
  }

  /** The same text is an initializer wherever it stands. */
  lemma InitializerMoves(text: string, i: nat, j: nat, e: nat, i': nat)
    requires IsInitializer(text, i, j, e) && i' + (e - i) <= |text| && text[i'..i' + (e - i)] == text[i..e]
    ensures IsInitializer(text, i', i' + (j - i), i' + (e - i))
  {
    forall k | i' <= k < i' + (e - i) ensures text[k] == text[i + (k - i')] {
      assert text[i'..i' + (e - i)][k - i'] == text[i..e][k - i'];
    }
    forall k | i' < k < i' + (j - i) ensures text[k] != ';' && text[k] != '}' {
      assert text[k] == text[i + (k - i')];
    }
    forall k | i' + (j - i) < k < i' + (e - i) - 1 ensures Blank(text[k]) {
      assert text[k] == text[i + (k - i')];
    }
  }

  lemma {:induction false} SearchFirst(text: string, i: nat) returns (k: nat)
    ensures i <= k && forall p :: i <= p < k && p < |text| ==> InitializerAt(text, p).None?
    ensures SearchInitializer(text, i).Some? <==> k < |text|
    ensures k < |text| ==> InitializerAt(text, k).Some?
                           && SearchInitializer(text, i).value == text[k..InitializerAt(text, k).value]
    decreases |text| - i
  {
    hide InitializerAt;
    k := i;
    if i < |text| && InitializerAt(text, i).None? {
      k := SearchFirst(text, i + 1);
    }
  }

  /** The text of the leftmost initializer is first found at the leftmost initializer. */
  lemma FoundWhereSearched(text: string, current: nat, k: nat)
    requires current <= k < |text| && InitializerAt(text, k).Some?
    requires forall p :: current <= p < k ==> InitializerAt(text, p).None?
    ensures FindText(text, text[k..InitializerAt(text, k).value], current, |text|) == Some(k)
  {
    hide InitializerAt, FindText;
    var e := InitializerAt(text, k).value;
    var m := text[k..e];
    assert OccursAt(text, m, k, |text|);
    var loc := FindText(text, m, current, |text|).value;
    if loc < k {
      InitializerFound(text, k);
      var j: nat :| IsInitializer(text, k, j, e);
      InitializerMoves(text, k, j, e, loc);
      InitializerNotMissed(text, loc, loc + (j - k), loc + (e - k));
    }
  }

  /** The search ends at the first `}`; unless that one closes a brace initializer, then at the first `}` past the
      character after it. */
  lemma PossibleEndExactly(text: string, current: nat)
    ensures var close := Find(text, '}', current, |text|);
            && (close.None? ==> FindPossibleEnd(text, current) == -1)
            && (close.Some? ==>
                  && (forall i: nat, e: nat :: current <= i && IsInitializer(text, i, close.value, e) ==>
                        FindPossibleEnd(text, current) == OrMinusOne(Find(text, '}', e + 1, |text|)))
                  && ((forall i: nat, e: nat :: current <= i ==> !IsInitializer(text, i, close.value, e)) ==>
                        FindPossibleEnd(text, current) == close.value))
  {
    hide Find, InitializerAt, FindText, SearchInitializer, IsInitializer;
    var close := Find(text, '}', current, |text|);
    var k := SearchFirst(text, current);
    if k < |text| {
      FoundWhereSearched(text, current, k);
      var e := InitializerAt(text, k).value;
      InitializerFound(text, k);
      var j: nat :| IsInitializer(text, k, j, e);
      ClosedFirst(text, current, k, j, e);
      if close.Some? {
        forall i: nat, e': nat | current <= i && IsInitializer(text, i, close.value, e')
          ensures e' == e && j == close.value
        {
          InitializerNotMissed(text, i, close.value, e');
          InitializerSpan(text, i, close.value, e');
          SameEnd(text, k, j, e, i, close.value, e');
        }
      }
    } else if close.Some? {
      forall i: nat, e: nat | current <= i ensures !IsInitializer(text, i, close.value, e) {
        if IsInitializer(text, i, close.value, e) {
          InitializerSpan(text, i, close.value, e);
          InitializerNotMissed(text, i, close.value, e);
        }
      }
    }
  }

  lemma InitializerSpan(text: string, i: nat, j: nat, e: nat)
    requires IsInitializer(text, i, j, e)
    ensures i < j < e - 1 < |text| && text[j] == '}'
  {
  }

  /** The first `}` is at most the closing brace of an initializer, and in it only if it is that brace. */
  lemma ClosedFirst(text: string, current: nat, i: nat, j: nat, e: nat)
    requires current <= i && IsInitializer(text, i, j, e)
    ensures var close := Find(text, '}', current, |text|);
            && close.Some? && close.value <= j && i < j < e
            && (i < close.value < e <==> close.value == j)
  {
    hide Find;
  }

  lemma NotBefore(text: string, j: nat, e: nat, e': nat)
    requires j < e - 1 < |text| && j < e' - 1 < |text| && text[e - 1] == ';'
    requires forall k :: j < k < e' - 1 ==> Blank(text[k])
    ensures e' <= e
  {
  }

  /** Two initializers with the first `}` in them end at the same place. */
  lemma SameEnd(text: string, i: nat, j: nat, e: nat, i': nat, j': nat, e': nat)
    requires IsInitializer(text, i, j, e) && IsInitializer(text, i', j', e') && i <= i' && j' <= j
    ensures j == j' && e == e'
  {
    NotBefore(text, j, e, e');
    NotBefore(text, j, e', e);
  }

  // ----- the kind of a scope -----

  /** The position after the last brace before `i`; a file is read from position 1 on. */
  function AfterBrace(text: string, i: nat): nat
    requires i <= |text|
  {
    if i <= 1 then 1
    else if text[i - 1] == '{' || text[i - 1] == '}' then i
    else AfterBrace(text, i - 1)
  }

  /** The opening brace of the `d`-th scope that is open before position `i` (0 is the innermost); position 0 stands
      for the file. */
  function Enclosing(text: string, i: nat, d: nat): (r: nat)
    requires i <= |text|
    ensures r == 0 || r < i
  {
    if i <= 1 then 0
    else if text[i - 1] == '}' then Enclosing(text, i - 1, d + 1)
    else if text[i - 1] != '{' then Enclosing(text, i - 1, d)
    else if d > 0 then Enclosing(text, i - 1, d - 1)
    else i - 1
  }

  /** The first occurrence of the header `m` in `[from, bound)` ends at `open`. */
  ghost predicate HeaderEndsAt(text: string, from: nat, bound: nat, m: string, open: nat)
    requires bound <= |text|
  {
    && from + |m| <= open + 1 <= bound && text[open + 1 - |m|..open + 1] == m
    && forall k: nat :: from <= k < open + 1 - |m| ==> !OccursAt(text, m, k, bound)
  }

  /** In a scope of kind `outer`, the kind of the scope that opens at `open` when `from` is the position after the
      brace before it: that of the header recognised in between, if it ends at this brace, and plain otherwise. */
  ghost function KindFrom(text: string, outer: Kind, from: nat, open: nat, classify: Classifier): Kind {
    var bound := Bound(text, FindPossibleEnd(text, from));
    var header := classify(outer, if from <= bound then text[from..bound] else "");
    if outer != Plain && header.Some? && HeaderEndsAt(text, from, bound, header.value.text, open)
    then header.value.kind
    else Plain
  }

  /** The kind of the scope that opens at `open` in a file whose own kind is `file`. */
  ghost function KindOf(text: string, file: Kind, open: nat, classify: Classifier): Kind
    requires open <= |text|
  {
    if open == 0 then file
    else
      var outer := KindOf(text, file, Enclosing(text, open, 0), classify);
      KindFrom(text, outer, AfterBrace(text, open), open, classify)
  }

  /** Each scope is of the kind that its header, the kind of the scope around it and so on up to the file give it. */
  ghost predicate RightKinds(text: string, file: Kind, classify: Classifier, visited: seq<Span>, kinds: seq<Kind>) {
    && |kinds| == |visited|
    && forall i :: 0 <= i < |visited| ==>
                   visited[i].start <= |text| && kinds[i] == KindOf(text, file, visited[i].start, classify)
  }

  /** The next scope has the kind that the text before its brace gives it. */
  lemma NextScopeKind(text: string, current: nat, kind: Kind, classify: Classifier)
    requires HeaderLike(classify) && NextScope(text, current, kind, classify).Some?
    ensures var (open, k) := NextScope(text, current, kind, classify).value;
            k == KindFrom(text, kind, current, open, classify)
  {
    hide Find, FindText, FindPossibleEnd, FindScopeStart;
    if kind != Plain {
      var end := FindPossibleEnd(text, current);
      var hi := Bound(text, end);
      var header := classify(kind, if current <= hi then text[current..hi] else "");
      GenericStart(text, current, end);
      if header.Some? {
        HeaderStart(text, current, end, header.value.text);
        HeaderFound(text, current, end, header.value.text, NextScope(text, current, kind, classify).value.0);
      }
    }
  }

  lemma HeaderFound(text: string, current: nat, end: int, m: string, open: nat)
    requires EndsInBrace(m)
    ensures FindScopeStart(text, current, end, m) == open <==> HeaderEndsAt(text, current, Bound(text, end), m, open)
  {
    hide FindText;
    var hi := Bound(text, end);
    var loc := FindText(text, m, current, hi);
    if HeaderEndsAt(text, current, hi, m, open) {
      assert OccursAt(text, m, open + 1 - |m|, hi);
    }
  }

  /** Reading on over text without braces stays in the same scope. */
  lemma {:induction false} SameScope(text: string, current: nat, open: nat)
    requires 0 < current <= open <= |text| && AfterBrace(text, current) == current
    requires forall k :: current <= k < open ==> text[k] != '{' && text[k] != '}'
    ensures AfterBrace(text, open) == current && Enclosing(text, open, 0) == Enclosing(text, current, 0)
    decreases open
  {
    if open > current {
      SameScope(text, current, open - 1);
    }
  }

  /** Backwards, a closed scope is passed over as a whole. */
  lemma {:induction false} BackOver(text: string, i: nat, d: nat, k: nat)
    requires 0 < i && Closer(text, i, d).Some?
    ensures Enclosing(text, Closer(text, i, d).value + 1, k) == Enclosing(text, i, k + d + 1)
    decreases |text| - i
  {
    if text[i] == '{' {
      BackOver(text, i + 1, d + 1, k);
    } else if text[i] != '}' {
      BackOver(text, i + 1, d, k);
    } else if d > 0 {
      BackOver(text, i + 1, d - 1, k);
    }
  }

  /** Where the reader of the scope that opens at `start` can stand: inside it and outside all scopes nested in it,
      just past a brace. */
  ghost predicate Inside(text: string, start: nat, current: nat) {
    0 < current <= |text| && AfterBrace(text, current) == current && Enclosing(text, current, 0) == start
  }

  lemma InsideStart(text: string, start: nat)
    requires start < |text| && (start == 0 || text[start] == '{')
    ensures Inside(text, start, start + 1)
  {
  }

  /** A nested scope gets its kind, and after it the reader is inside its own scope again. */
  lemma InsideNext(text: string, file: Kind, start: nat, current: nat, open: nat, classify: Classifier)
    requires Inside(text, start, current) && FirstOpen(text, current, open)
    ensures KindOf(text, file, open, classify) ==
            KindFrom(text, KindOf(text, file, start, classify), current, open, classify)
    ensures Closer(text, open + 1, 0).Some? ==> Inside(text, start, Closer(text, open + 1, 0).value + 1)
  {
    hide KindFrom, Closer;
    SameScope(text, current, open);
    if Closer(text, open + 1, 0).Some? {
      BackOver(text, open + 1, 0, 0);
    }
  }

  lemma KindsOn(text: string, file: Kind, classify: Classifier, visited: seq<Span>, kinds: seq<Kind>,
                span: Span, inner: seq<Span>, innerKinds: seq<Kind>)
    requires RightKinds(text, file, classify, visited, kinds) && RightKinds(text, file, classify, inner, innerKinds)
    requires span.start <= |text|
    ensures RightKinds(text, file, classify, visited + [span] + inner,
                       kinds + [KindOf(text, file, span.start, classify)] + innerKinds)
  {
    hide KindOf;
  }

  // ----- opening braces -----

  /** Whatever the kind, the classifier and the initializer rule, the next scope opens at the first
      `{` if no `}` comes first (a `{` in the last position does not count). */
  lemma NextScopeIsFirstBrace(text: string, current: nat, kind: Kind, classify: Classifier)
    requires HeaderLike(classify)
    ensures var next := NextScope(text, current, kind, classify);
            var open := Find(text, '{', current, |text|);
            var close := Find(text, '}', current, |text|);
            var opens := open.Some? && open.value < if close.Some? then close.value else |text| - 1;
            if opens then next.Some? && next.value.0 == open.value else next.None?
  {
    hide Find, FindText, FindPossibleEnd, FindScopeStart;
    var close := Find(text, '}', current, |text|);
    FindBelow(text, '{', current, if close.Some? then close.value else Bound(text, -1));
    BoundSeesFirstBrace(text, current);
    GenericStart(text, current, FindPossibleEnd(text, current));
    if kind != Plain {
      var end := FindPossibleEnd(text, current);
      var hi := Bound(text, end);
      var header := classify(kind, if current <= hi then text[current..hi] else "");
      if header.Some? {
        HeaderStart(text, current, end, header.value.text);
      }
    }
  }

  /** The search bound always lets the same opening brace through. */
  lemma BoundSeesFirstBrace(text: string, current: nat)
    ensures var close := Find(text, '}', current, |text|);
            Find(text, '{', current, Bound(text, FindPossibleEnd(text, current)))
            == Find(text, '{', current, if close.Some? then close.value else Bound(text, -1))
  {
    var close := Find(text, '}', current, |text|);
    var end := FindPossibleEnd(text, current);
    var all := SearchInitializer(text, current);
    if all.Some? {
      var loc := FindText(text, all.value, current, |text|);
      if loc.Some? && close.Some? && loc.value < close.value < loc.value + |all.value| {
        var k := loc.value;
        assert text[k] == text[k..k + |all.value|][0] == '{';
        FindStable(text, '{', current, close.value, Bound(text, end), k);
      }
    }
  }

  /** A bound lets through what lies below it. */
  lemma FindBelow(text: string, ch: char, lo: nat, hi: nat)
    requires hi <= |text|
    ensures var all := Find(text, ch, lo, |text|);
            Find(text, ch, lo, hi) == if all.Some? && all.value < hi then all else None
  {
    hide Find;
  }

  /** Once an occurrence lies below both bounds, the bound does not matter. */
  lemma {:induction false} FindStable(text: string, ch: char, lo: nat, hi: nat, hi': nat, k: nat)
    requires hi <= |text| && hi' <= |text| && lo <= k < hi && k < hi' && text[k] == ch
    ensures Find(text, ch, lo, hi) == Find(text, ch, lo, hi')
    decreases hi - lo
  {
    if text[lo] != ch {
      FindStable(text, ch, lo + 1, hi, hi', k);
    }
  }

  lemma {:induction false} FindBrace(text: string, lo: nat, hi: nat)
    requires hi <= |text|
    ensures FindText(text, "{", lo, hi) == Find(text, '{', lo, hi)
    decreases hi - lo
  {
    if lo < hi {
      assert text[lo..lo + 1] == [text[lo]];
      FindBrace(text, lo + 1, hi);
    }
  }

  lemma GenericStart(text: string, current: nat, end: int)
    ensures FindScopeStart(text, current, end, "{") == OrMinusOne(Find(text, '{', current, Bound(text, end)))
  {
    FindBrace(text, current, Bound(text, end));
  }

  /** A header cannot jump over a brace: it opens at the first one, or comes after it. */
  lemma HeaderStart(text: string, current: nat, end: int, m: string)
    requires EndsInBrace(m)
    ensures var start := FindScopeStart(text, current, end, m);
            var open := Find(text, '{', current, Bound(text, end));
            start >= -1 && (start >= 0 ==> open.Some? && open.value <= start)
  {
    var loc := FindText(text, m, current, Bound(text, end));
    if loc.Some? {
      var s := loc.value + |m| - 1;
      assert text[s] == text[loc.value..loc.value + |m|][|m| - 1] == '{';
    }
  }

  // ----- closing braces -----

  /** Closing one scope more continues after the closer of the inner one. */
  lemma {:induction false} CloserOuter(text: string, i: nat, d: nat)
    ensures Closer(text, i, d + 1)
         == match Closer(text, i, d) { case None => None case Some(e) => Closer(text, e + 1, 0) }
    decreases |text| - i
  {
    if i < |text| {
      if text[i] == '{' {
        CloserOuter(text, i + 1, d + 1);
      } else if text[i] == '}' {
        if d > 0 {
          CloserOuter(text, i + 1, d - 1);
        }
      } else {
        CloserOuter(text, i + 1, d);
      }
    }
  }

  /** Text without braces changes nothing. */
  lemma {:induction false} PlainStretch(text: string, i: nat, j: nat, d: nat)
    requires i <= j <= |text| && forall k :: i <= k < j ==> text[k] != '{' && text[k] != '}'
    ensures Closer(text, i, d) == Closer(text, j, d)
    ensures Spans(text, i, j) == []
    decreases j - i
  {
    if i < j {
      PlainStretch(text, i + 1, j, d);
    }
  }

  lemma {:induction false} NeverClosed(text: string, i: nat, d: nat)
    requires forall k :: i <= k < |text| ==> text[k] != '}'
    ensures Closer(text, i, d) == None
    decreases |text| - i
  {
    if i < |text| {
      NeverClosed(text, i + 1, if text[i] == '{' then d + 1 else d);
    }
  }

  lemma {:induction false} SpansConcat(text: string, lo: nat, mid: nat, hi: nat)
    requires lo <= mid <= hi <= |text|
    ensures Spans(text, lo, hi) == Spans(text, lo, mid) + Spans(text, mid, hi)
    decreases mid - lo
  {
    if lo < mid {
      SpansConcat(text, lo + 1, mid, hi);
    }
  }

  lemma {:induction false} InnerClosedFirst(text: string, i: nat, d: nat)
    requires Closer(text, i, d).Some?
    ensures Closer(text, i, 0).Some?
    decreases d
  {
    if d > 0 {
      CloserOuter(text, i, d - 1);
      InnerClosedFirst(text, i, d - 1);
    }
  }

  /** Before a scope is closed, every scope opened in it is. */
  lemma {:induction false} InsideClosed(text: string, i: nat, d: nat)
    requires Closer(text, i, d).Some?
    ensures AllClosed(text, i, Closer(text, i, d).value)
    decreases |text| - i
  {
    if text[i] == '{' {
      InnerClosedFirst(text, i + 1, d + 1);
      InsideClosed(text, i + 1, d + 1);
    } else if text[i] == '}' {
      if d > 0 {
        InsideClosed(text, i + 1, d - 1);
      }
    } else {
      InsideClosed(text, i + 1, d);
    }
  }

  /** From `lo` the text is read up to `current`, which stands at the start or just past a closed scope. */
  ghost predicate ReadUpTo(text: string, lo: nat, current: nat, visited: seq<Span>) {
    && lo <= current <= |text|
    && Closer(text, lo, 0) == Closer(text, current, 0)
    && visited == Spans(text, lo, current)
    && AllClosed(text, lo, current)
    && (current == lo || text[current - 1] == '}')
  }

  /** No brace stands between `current` and the opening brace at `open`. */
  ghost predicate FirstOpen(text: string, current: nat, open: nat) {
    && current <= open < |text| - 1 && text[open] == '{'
    && forall k :: current <= k < open ==> text[k] != '{' && text[k] != '}'
  }

  lemma NoKinds(text: string, file: Kind, classify: Classifier)
    ensures RightKinds(text, file, classify, [], [])
  {
  }

  lemma NothingRead(text: string, lo: nat)
    requires lo <= |text|
    ensures ReadUpTo(text, lo, lo, [])
  {
  }

  /** Reading one complete scope: its span, then what is inside. */
  lemma ReadOn(text: string, lo: nat, current: nat, visited: seq<Span>, open: nat)
    requires ReadUpTo(text, lo, current, visited) && FirstOpen(text, current, open)
    requires Closer(text, open + 1, 0).Some?
    ensures var e := Closer(text, open + 1, 0).value;
            ReadUpTo(text, lo, e + 1, visited + [Span(open, e)] + Spans(text, open + 1, e))
  {
    hide Spans, Closer, AllClosed;
    var e := Closer(text, open + 1, 0).value;
    PlainStretch(text, current, open, 0);
    OpenCloser(text, open);
    CloserOuter(text, open + 1, 0);
    SpansOn(text, lo, current, open, e);
    ClosedOn(text, lo, current, open);
  }

  lemma OpenCloser(text: string, open: nat)
    requires open < |text| && text[open] == '{'
    ensures Closer(text, open, 0) == Closer(text, open + 1, 1)
  {
  }

  lemma ClosedOn(text: string, lo: nat, current: nat, open: nat)
    requires current <= |text| && AllClosed(text, lo, current) && FirstOpen(text, current, open)
    requires Closer(text, open + 1, 0).Some?
    ensures AllClosed(text, lo, Closer(text, open + 1, 0).value + 1)
  {
    hide Closer;
    InsideClosed(text, open + 1, 0);
  }

  lemma SpansOn(text: string, lo: nat, current: nat, open: nat, e: nat)
    requires lo <= current && FirstOpen(text, current, open) && Closer(text, open + 1, 0) == Some(e)
    ensures Spans(text, lo, e + 1) == Spans(text, lo, current) + [Span(open, e)] + Spans(text, open + 1, e)
  {
    hide Closer, Spans;
    SpansConcat(text, lo, current, e + 1);
    SpansConcat(text, current, open, e + 1);
    SpansConcat(text, open + 1, e, e + 1);
    NoSpans(text, current, open);
    SpanFirst(text, open, e);
    SpanLast(text, e);
    SpansJoined(Spans(text, lo, current), Span(open, e), Spans(text, open + 1, e));
  }

  lemma SpansJoined(a: seq<Span>, s: Span, b: seq<Span>)
    ensures a + ([] + ([s] + (b + []))) == a + [s] + b
  {
  }

  lemma SpanFirst(text: string, open: nat, e: nat)
    requires open < e < |text| && text[open] == '{' && Closer(text, open + 1, 0) == Some(e)
    ensures Spans(text, open, e + 1) == [Span(open, e)] + Spans(text, open + 1, e + 1)
  {
    hide Closer;
  }

  lemma SpanLast(text: string, e: nat)
    requires e < |text| && text[e] == '}'
    ensures Spans(text, e, e + 1) == []
  {
    hide Closer;
  }

  lemma {:induction false} NoSpans(text: string, lo: nat, hi: nat)
    requires hi <= |text| && forall k :: lo <= k < hi ==> text[k] != '{'
    ensures Spans(text, lo, hi) == []
    decreases hi - lo
  {
    hide Closer;
    if lo < hi {
      NoSpans(text, lo + 1, hi);
    }
  }

  /** A scope that is never closed leaves every scope around it open. */
  lemma ReadStuck(text: string, lo: nat, current: nat, visited: seq<Span>, open: nat)
    requires ReadUpTo(text, lo, current, visited) && FirstOpen(text, current, open)
    requires Closer(text, open + 1, 0).None?
    ensures Closer(text, lo, 0).None? && !AllClosed(text, lo, |text| - 1)
  {
    PlainStretch(text, current, open, 0);
    CloserOuter(text, open + 1, 0);
  }

  /** No scope opens from `current` on before the next `}`, or before the last character. */
  ghost predicate NoneOpens(text: string, current: nat) {
    var close := Find(text, '}', current, |text|);
    forall k :: current <= k < (if close.Some? then close.value else |text| - 1) ==> text[k] != '{'
  }

  // ----- what the flat scan means -----

  function Delta(c: char): int {
    if c == '{' then 1 else if c == '}' then -1 else 0
  }

  /** Opening braces minus closing braces in `[i, j)`. */
  function Net(text: string, i: nat, j: nat): int
    requires j <= |text|
    decreases j
  {
    if j <= i then 0 else Net(text, i, j - 1) + Delta(text[j - 1])
  }

  /** `e` closes the scope whose body starts at `i`: a `}` with everything in between balanced. */
  ghost predicate Closes(text: string, i: nat, e: nat) {
    && i <= e < |text| && text[e] == '}'
    && Net(text, i, e) == 0
    && forall k: nat :: i <= k <= e ==> Net(text, i, k) >= 0
  }

  /** After the leading character, every `}` closes a `{` and every `{` is closed. */
  ghost predicate Balanced(text: string) {
    && |text| > 0
    && Net(text, 1, |text|) == 0
    && forall k: nat :: 1 <= k <= |text| ==> Net(text, 1, k) >= 0
  }

  lemma {:induction false} NetConcat(text: string, i: nat, j: nat, k: nat)
    requires i <= j <= k <= |text|
    ensures Net(text, i, k) == Net(text, i, j) + Net(text, j, k)
    decreases k
  {
    if j < k {
      NetConcat(text, i, j, k - 1);
    }
  }

  lemma NetFirst(text: string, i: nat, k: nat)
    requires i < k <= |text|
    ensures Net(text, i, k) == Delta(text[i]) + Net(text, i + 1, k)
  {
    NetConcat(text, i, i + 1, k);
    assert Net(text, i, i + 1) == Net(text, i, i) + Delta(text[i]);
  }

  /** The scan at depth `d` finds the first point where `d + 1` more braces are closed than opened. */
  lemma {:induction false} CloserNet(text: string, i: nat, d: nat)
    ensures var r := Closer(text, i, d);
            && (r.Some? ==> Net(text, i, r.value) == 0 - d)
            && forall k: nat :: i <= k <= (if r.Some? then r.value else |text|) ==> Net(text, i, k) >= 0 - d
    decreases |text| - i
  {
    if i < |text| {
      var r := Closer(text, i, d);
      var hi := if r.Some? then r.value else |text|;
      var d' := d + Delta(text[i]);
      if d' >= 0 {
        CloserNet(text, i + 1, d');
        forall k: nat | i < k <= hi
          ensures Net(text, i, k) == Net(text, i + 1, k) + Delta(text[i])
        {
          NetFirst(text, i, k);
        }
      }
    }
  }

  /** The scope open before `i` starts at the last point from which more braces are opened than closed. */
  lemma {:induction false} EnclosingExactly(text: string, i: nat, d: nat)
    requires 0 < i <= |text|
    ensures var p := Enclosing(text, i, d);
            && p < i && (p > 0 ==> text[p] == '{' && Net(text, p, i) == d + 1)
            && forall k: nat :: p < k <= i ==> Net(text, k, i) <= d
    decreases i
  {
    if i > 1 && !(text[i - 1] == '{' && d == 0) {
      EnclosingExactly(text, i - 1, d - Delta(text[i - 1]));
    }
  }

  /** The scan finds the closing brace of a scope, and finds none only if there is none. */
  lemma CloserIsMatch(text: string, i: nat, e: nat)
    ensures Closer(text, i, 0) == Some(e) <==> Closes(text, i, e)
  {
    CloserNet(text, i, 0);
    if Closes(text, i, e) {
      var r := Closer(text, i, 0);
      assert Net(text, i, e + 1) == -1;
      assert r.Some? ==> Net(text, i, r.value + 1) == -1;
    }
  }

  /** The spans of a stretch are its opening braces with their closing braces, in order, and nothing else. */
  lemma {:induction false} SpansExact(text: string, lo: nat, hi: nat)
    requires hi <= |text|
    ensures forall s :: s in Spans(text, lo, hi) <==>
                        lo <= s.start < hi && text[s.start] == '{' && Closes(text, s.start + 1, s.end)
    ensures forall j, k :: 0 <= j < k < |Spans(text, lo, hi)| ==>
                           Spans(text, lo, hi)[j].start < Spans(text, lo, hi)[k].start
    decreases hi - lo
  {
    if lo < hi {
      SpansExact(text, lo + 1, hi);
      var rest, close := Spans(text, lo + 1, hi), Closer(text, lo + 1, 0);
      forall s: Span | s.start == lo
        ensures close == Some(s.end) <==> Closes(text, s.start + 1, s.end)
      {
        CloserIsMatch(text, lo + 1, s.end);
      }
      if text[lo] == '{' && close.Some? {
        assert Spans(text, lo, hi) == [Span(lo, close.value)] + rest;
        assert forall j :: 0 <= j < |rest| ==> rest[j] in rest;
      }
    }
  }

  /** In a balanced file every scope is closed and lies before the stopping point, so all of them are visited. */
  lemma BalancedFile(text: string)
    requires Balanced(text)
    ensures AllClosed(text, 1, StopOf(text))
    ensures forall i: nat :: 1 <= i < |text| && text[i] == '{' ==> i < StopOf(text)
  {
    CloserNet(text, 1, 0);
    var stray := Closer(text, 1, 0);
    assert stray.Some? ==> Net(text, 1, stray.value + 1) == -1;
    forall i: nat | 1 <= i < |text| && text[i] == '{'
      ensures Closer(text, i + 1, 0).Some?
    {
      CloserNet(text, i + 1, 0);
      NetConcat(text, 1, i, |text|);
      NetFirst(text, i, |text|);
    }
  }

  // ----- the scope objects -----

  class Scope {
    const start: nat
    const kind: Kind
    var current: nat
    var end: Option<nat>

    constructor (start: nat, kind: Kind, text: string)
      requires |text| > 0
      ensures this.start == start && this.kind == kind && current == start + 1
      ensures end == if start == 0 then Some(|text| - 1) else None
    {
      this.start, this.kind, this.current := start, kind, start + 1;
      this.end := if start == 0 then Some(|text| - 1) else None;
    }

    /** The position and kind of the scope opened next. */
    method NextOpening(text: string, classify: Classifier) returns (next: Option<(nat, Kind)>)
      requires HeaderLike(classify)
      ensures next.Some? ==> FirstOpen(text, current, next.value.0)
      ensures next.None? ==> NoneOpens(text, current)
      ensures next.Some? ==> next.value.1 == KindFrom(text, kind, current, next.value.0, classify)
    {
      NextScopeIsFirstBrace(text, current, kind, classify);
      if NextScope(text, current, kind, classify).Some? {
        NextScopeKind(text, current, kind, classify);
      }
      next := NextScope(text, current, kind, classify);
    }

    /** A scope of a file: it starts at an opening brace, or is the file itself, and has the kind it should have. */
    ghost predicate Placed(text: string, file: Kind, classify: Classifier) {
      && start < |text| && (start == 0 || text[start] == '{')
      && kind == KindOf(text, file, start, classify)
    }

    /** Reads the nested scopes up to the point where no further one opens. */
    method ReadNested(text: string, classify: Classifier, ghost file: Kind)
      returns (ok: bool, visited: seq<Span>, kinds: seq<Kind>)
      requires HeaderLike(classify) && current == start + 1 <= |text|
      modifies this`current
      ensures ok ==> ReadUpTo(text, start + 1, current, visited)
      ensures ok ==> NoneOpens(text, current)
      ensures !ok ==> Closer(text, start + 1, 0).None? && !AllClosed(text, start + 1, |text| - 1)
      ensures ok && Placed(text, file, classify) ==> RightKinds(text, file, classify, visited, kinds)
      decreases |text| - start, 0
    {
      hide Closer, Spans, FirstOpen, HeaderLike, KindOf, KindFrom, RightKinds, Inside;
      visited, kinds := [], [];
      NothingRead(text, start + 1);
      ghost var placed := Placed(text, file, classify);
      if placed {
        InsideStart(text, start);
      }
      NoKinds(text, file, classify);
      while current < |text| - 1
        invariant ReadUpTo(text, start + 1, current, visited)
        invariant placed ==> Inside(text, start, current) && RightKinds(text, file, classify, visited, kinds)
      {
        var next := NextOpening(text, classify);
        if next.None? { break; }
        var child := new Scope(next.value.0, next.value.1, text);
        var inner, innerKinds;
        if placed {
          InsideNext(text, file, start, current, child.start, classify);
        }
        ok, inner, innerKinds := child.Read(text, classify, file);
        if !ok {
          ReadStuck(text, start + 1, current, visited, child.start);
          return;
        }
        ReadOn(text, start + 1, current, visited, child.start);
        if placed {
          KindsOn(text, file, classify, visited, kinds, Span(child.start, child.end.value), inner, innerKinds);
        }
        visited := visited + [Span(child.start, child.end.value)] + inner;
        kinds := kinds + [child.kind] + innerKinds;
        current := child.end.value + 1;
      }
      ok := true;
    }

    /** Reads a nested scope: it succeeds exactly when the scope is closed, and ends it at the matching brace. */
    method Read(text: string, classify: Classifier, ghost file: Kind)
      returns (ok: bool, visited: seq<Span>, kinds: seq<Kind>)
      requires HeaderLike(classify) && 0 < start && current == start + 1 <= |text| && end == None
      modifies this
      ensures ok <==> Closer(text, start + 1, 0).Some?
      ensures ok ==> end == Closer(text, start + 1, 0) && visited == Spans(text, start + 1, end.value)
      ensures ok && Placed(text, file, classify) ==> RightKinds(text, file, classify, visited, kinds)
      decreases |text| - start, 1
    {
      hide KindOf, RightKinds;
      ok, visited, kinds := ReadNested(text, classify, file);
      if !ok { return; }
      end := Find(text, '}', current, |text|);
      if end.None? {
        NeverClosed(text, current, 0);
        return false, visited, kinds;
      }
      PlainStretch(text, current, end.value, 0);
      SpansConcat(text, start + 1, current, end.value);
    }

    /** Reads a whole file, given with a leading newline: every scope up to the stopping point is visited. */
    method ReadFile(text: string, classify: Classifier) returns (ok: bool, visited: seq<Span>, kinds: seq<Kind>)
      requires HeaderLike(classify) && 0 == start && current == 1 <= |text|
      modifies this`current
      ensures ok <==> AllClosed(text, 1, StopOf(text))
      ensures ok ==> visited == Spans(text, 1, StopOf(text)) && RightKinds(text, kind, classify, visited, kinds)
    {
      hide RightKinds;
      ok, visited, kinds := ReadNested(text, classify, kind);
      if !ok { return; }
      var close := Find(text, '}', current, |text|);
      if close.Some? {
        PlainStretch(text, current, close.value, 0);
        SpansConcat(text, 1, current, close.value);
      } else {
        NeverClosed(text, current, 0);
        if current < |text| {
          PlainStretch(text, current, |text| - 1, 0);
          SpansConcat(text, 1, current, |text| - 1);
        } else if |text| > 1 {
          SpansConcat(text, 1, |text| - 1, |text|);
        }
      }
    }
  }
}
