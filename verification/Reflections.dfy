/**
  The per-class lists that the FC_REFLECT macros and their @ignore / @swap
  comments build up, and their comparison with the class definition.
*/
module Reflections {
  import opened Lists
  import opened Reconcile

  datatype Directive = Ignore | Swap

  datatype BuildError = RepeatedField | RepeatedIgnore | RepeatedSwap | IgnoredAndSwapped

  /** The lists of one reflected class. */
  datatype Entry = Entry(fields: seq<Field>, ignored: seq<Field>, swapped: seq<Field>)

  type View = map<string, Entry>

  /** What a builder call leaves behind: the lists, and the assertion that stopped it, if any. */
  datatype Built = Built(view: View, error: Option<BuildError>)

  datatype Call =
    | Reflect(name: string, field: Field)
    | Declare(name: string, directive: Directive, words: seq<Field>)

  function EntryOf(view: View, name: string): Entry {
    if name in view then view[name] else Entry([], [], [])
  }

  function AddFieldTo(view: View, name: string, field: Field): Built {
    var e := EntryOf(view, name);
    if field in e.fields then Built(view[name := e], Some(RepeatedField))
    else Built(view[name := e.(fields := e.fields + [field])], None)
  }

  /** One word of an @ignore or @swap comment. */
  function DeclareIn(e: Entry, directive: Directive, word: Field): (Entry, Option<BuildError>) {
    match directive
    case Ignore =>
      if word in e.ignored then (e, Some(RepeatedIgnore))
      else if word in e.swapped then (e, Some(IgnoredAndSwapped))
      else (e.(ignored := e.ignored + [word]), None)
    case Swap =>
      if word in e.swapped then (e, Some(RepeatedSwap))
      else if word in e.ignored then (e, Some(IgnoredAndSwapped))
      else (e.(swapped := e.swapped + [word]), None)
  }

  function DeclareWord(view: View, name: string, directive: Directive, word: Field): Built {
    var (e, error) := DeclareIn(EntryOf(view, name), directive, word);
    Built(view[name := e], error)
  }

  function DeclareWords(view: View, name: string, directive: Directive, words: seq<Field>): Built
    decreases |words|
  {
    if words == [] then Built(view, None)
    else
      var b := DeclareWord(view, name, directive, words[0]);
      if b.error.Some? then b else DeclareWords(b.view, name, directive, words[1..])
  }

  function Perform(view: View, call: Call): Built {
    match call
    case Reflect(name, field) => AddFieldTo(view, name, field)
    case Declare(name, directive, words) => DeclareWords(view, name, directive, words)
  }

  /** A whole file: the calls in order, up to the first failing one. */
  function PerformAll(view: View, calls: seq<Call>): Built
    decreases |calls|
  {
    if calls == [] then Built(view, None)
    else
      var b := Perform(view, calls[0]);
      if b.error.Some? then b else PerformAll(b.view, calls[1..])
  }

  // ----- what every run of builder calls keeps -----

  ghost predicate WellBuilt(e: Entry) {
    && Distinct(e.fields) && Distinct(e.ignored) && Distinct(e.swapped)
    && forall x :: x in e.ignored ==> x !in e.swapped
  }

  ghost predicate AllWellBuilt(view: View) {
    forall name :: name in view ==> WellBuilt(view[name])
  }

  lemma DeclareWordKeeps(view: View, name: string, directive: Directive, word: Field)
    requires AllWellBuilt(view)
    ensures AllWellBuilt(DeclareWord(view, name, directive, word).view)
  {
    var e := EntryOf(view, name);
    assert WellBuilt(e);
    if directive == Ignore && word !in e.ignored {
      DistinctSnoc(e.ignored, word);
    } else if directive == Swap && word !in e.swapped {
      DistinctSnoc(e.swapped, word);
    }
  }

  lemma {:induction false} DeclareWordsKeep(view: View, name: string, directive: Directive, words: seq<Field>)
    requires AllWellBuilt(view)
    ensures AllWellBuilt(DeclareWords(view, name, directive, words).view)
    decreases |words|
  {
    if words != [] {
      DeclareWordKeeps(view, name, directive, words[0]);
      var b := DeclareWord(view, name, directive, words[0]);
      if b.error.None? {
        DeclareWordsKeep(b.view, name, directive, words[1..]);
      }
    }
  }

  lemma PerformKeeps(view: View, call: Call)
    requires AllWellBuilt(view)
    ensures AllWellBuilt(Perform(view, call).view)
  {
    match call
    case Reflect(name, field) =>
      var e := EntryOf(view, name);
      assert WellBuilt(e);
      if field !in e.fields {
        DistinctSnoc(e.fields, field);
      }
    case Declare(name, directive, words) =>
      DeclareWordsKeep(view, name, directive, words);
  }

  /** After any calls, failing or not, every class's lists repeat nothing and no field is ignored and swapped. */
  lemma {:induction false} EveryRunWellBuilt(view: View, calls: seq<Call>)
    requires AllWellBuilt(view)
    ensures AllWellBuilt(PerformAll(view, calls).view)
    decreases |calls|
  {
    if calls != [] {
      PerformKeeps(view, calls[0]);
      var b := Perform(view, calls[0]);
      if b.error.None? {
        EveryRunWellBuilt(b.view, calls[1..]);
      }
    }
  }

  // ----- what the calls say, class by class -----

  /** The fields that the calls reflect for a class, in the order of the calls. */
  function FieldsOf(calls: seq<Call>, name: string): seq<Field> {
    if calls == [] then []
    else (if calls[0].Reflect? && calls[0].name == name then [calls[0].field] else []) + FieldsOf(calls[1..], name)
  }

  /** The words that the calls declare for a class with one directive, in order. */
  function WordsOf(calls: seq<Call>, name: string, directive: Directive): seq<Field> {
    if calls == [] then []
    else
      (if calls[0].Declare? && calls[0].name == name && calls[0].directive == directive then calls[0].words else [])
      + WordsOf(calls[1..], name, directive)
  }

  /** A class that is reflected or has a word declared. */
  predicate Mentioned(calls: seq<Call>, name: string) {
    FieldsOf(calls, name) != [] || WordsOf(calls, name, Ignore) != [] || WordsOf(calls, name, Swap) != []
  }

  function Longer(e: Entry, fields: seq<Field>, ignored: seq<Field>, swapped: seq<Field>): Entry {
    Entry(e.fields + fields, e.ignored + ignored, e.swapped + swapped)
  }

  function WithWords(e: Entry, directive: Directive, words: seq<Field>): Entry {
    if directive == Ignore then e.(ignored := e.ignored + words) else e.(swapped := e.swapped + words)
  }

  /** The lists of a class after more calls. */
  function After(e: Entry, calls: seq<Call>, name: string): Entry {
    Longer(e, FieldsOf(calls, name), WordsOf(calls, name, Ignore), WordsOf(calls, name, Swap))
  }

  /** Lists that are wrong stay wrong however they grow. */
  lemma ShorterWellBuilt(e: Entry, fields: seq<Field>, ignored: seq<Field>, swapped: seq<Field>)
    requires WellBuilt(Longer(e, fields, ignored, swapped))
    ensures WellBuilt(e)
  {
    PrefixDistinct(e.fields, fields);
    PrefixDistinct(e.ignored, ignored);
    PrefixDistinct(e.swapped, swapped);
    forall x | x in e.ignored ensures x !in e.swapped {
      assert x in e.ignored + ignored && (x in e.swapped ==> x in e.swapped + swapped);
    }
  }

  lemma PrefixDistinct(s: seq<Field>, t: seq<Field>)
    requires Distinct(s + t)
    ensures Distinct(s)
  {
    forall i, j | 0 <= i < j < |s| ensures s[i] != s[j] {
      assert (s + t)[i] == s[i] && (s + t)[j] == s[j];
    }
  }

  lemma SnocDistinct(s: seq<Field>, x: Field)
    requires Distinct(s)
    ensures Distinct(s + [x]) <==> x !in s
  {
    if x in s {
      var i :| 0 <= i < |s| && s[i] == x;
      assert (s + [x])[i] == (s + [x])[|s|];
    }
  }

  /** A word is refused exactly when the longer list would be wrong. */
  lemma WordTaken(e: Entry, directive: Directive, word: Field)
    requires WellBuilt(e)
    ensures var (now, error) := DeclareIn(e, directive, word);
            && (error.None? <==> WellBuilt(WithWords(e, directive, [word])))
            && now == if error.None? then WithWords(e, directive, [word]) else e
  {
    SnocDistinct(e.ignored, word);
    SnocDistinct(e.swapped, word);
    assert word in e.ignored + [word] && word in e.swapped + [word];
  }

  lemma NothingMore(s: seq<Field>)
    ensures s + [] == s
  {
  }

  lemma WordThenWords(e: Entry, directive: Directive, words: seq<Field>)
    requires words != []
    ensures WithWords(WithWords(e, directive, [words[0]]), directive, words[1..]) == WithWords(e, directive, words)
  {
    var list := if directive == Ignore then e.ignored else e.swapped;
    JoinAll(list, [words[0]], words[1..]);
    assert words == [words[0]] + words[1..];
  }

  /** All the words of a comment are added in order to the list of its directive, unless that makes a list wrong;
      no other class is touched. */
  lemma {:induction false} WordsTaken(view: View, name: string, directive: Directive, words: seq<Field>)
    requires AllWellBuilt(view)
    ensures var b := DeclareWords(view, name, directive, words);
            && (b.error.None? <==> WellBuilt(WithWords(EntryOf(view, name), directive, words)))
            && (b.error.None? && words != [] ==>
                  b.view == view[name := WithWords(EntryOf(view, name), directive, words)])
            && (words == [] ==> b.view == view)
            && forall other :: other != name ==> EntryOf(b.view, other) == EntryOf(view, other)
    decreases |words|
  {
    hide WellBuilt, WithWords, DeclareIn;
    var e := EntryOf(view, name);
    EmptyWellBuilt();
    if words == [] {
      NoWords(e, directive);
    } else {
      WordTaken(e, directive, words[0]);
      WordThenWords(e, directive, words);
      var b := DeclareWord(view, name, directive, words[0]);
      DeclareWordKeeps(view, name, directive, words[0]);
      if b.error.None? {
        WordsTaken(b.view, name, directive, words[1..]);
        NoWords(WithWords(e, directive, [words[0]]), directive);
      } else if WellBuilt(WithWords(e, directive, words)) {
        FewerWords(WithWords(e, directive, [words[0]]), directive, words[1..]);
      }
    }
  }

  lemma EmptyWellBuilt()
    ensures WellBuilt(Entry([], [], []))
  {
  }

  lemma NoWords(e: Entry, directive: Directive)
    ensures WithWords(e, directive, []) == e
  {
    NothingMore(e.ignored);
    NothingMore(e.swapped);
  }

  lemma FewerWords(e: Entry, directive: Directive, words: seq<Field>)
    requires WellBuilt(WithWords(e, directive, words))
    ensures WellBuilt(e)
  {
    NothingMore(e.fields);
    NothingMore(if directive == Ignore then e.swapped else e.ignored);
    ShorterWellBuilt(e, [], if directive == Ignore then words else [], if directive == Ignore then [] else words);
  }

  /** One call changes the lists of its own class as it says, or is refused because that would make them wrong. */
  lemma CallTaken(view: View, call: Call, name: string)
    requires AllWellBuilt(view)
    ensures var b := Perform(view, call);
            && (name == call.name ==> (b.error.None? <==> WellBuilt(After(EntryOf(view, name), [call], name))))
            && (b.error.None? ==> EntryOf(b.view, name) == After(EntryOf(view, name), [call], name))
            && (b.error.None? ==> (name in b.view <==> name in view || Mentioned([call], name)))
            && (name != call.name ==> EntryOf(b.view, name) == EntryOf(view, name))
  {
    hide WellBuilt, DeclareWords;
    var e := EntryOf(view, name);
    EmptyWellBuilt();
    OneCall(e, call, name);
    match call
    case Reflect(_, field) =>
      if name == call.name {
        FieldTaken(e, field);
      }
    case Declare(at, directive, words) =>
      WordsTaken(view, at, directive, words);
      if name == at {
        NoWords(e, directive);
      }
  }

  /** A field is refused exactly when the longer list would repeat it. */
  lemma FieldTaken(e: Entry, field: Field)
    requires WellBuilt(e)
    ensures field !in e.fields <==> WellBuilt(Entry(e.fields + [field], e.ignored, e.swapped))
  {
    SnocDistinct(e.fields, field);
  }

  lemma OneCallSays(call: Call, name: string, directive: Directive)
    ensures FieldsOf([call], name) == if call.Reflect? && call.name == name then [call.field] else []
    ensures WordsOf([call], name, directive) ==
            if call.Declare? && call.name == name && call.directive == directive then call.words else []
  {
    assert [call][1..] == [];
  }

  lemma OneCall(e: Entry, call: Call, name: string)
    ensures name != call.name ==> After(e, [call], name) == e && !Mentioned([call], name)
    ensures name == call.name && call.Reflect? ==>
              After(e, [call], name) == Entry(e.fields + [call.field], e.ignored, e.swapped) && Mentioned([call], name)
    ensures name == call.name && call.Declare? ==>
              && After(e, [call], name) == WithWords(e, call.directive, call.words)
              && (Mentioned([call], name) <==> call.words != [])
  {
    OneCallSays(call, name, Ignore);
    OneCallSays(call, name, Swap);
    NothingMore(e.fields);
    NothingMore(e.ignored);
    NothingMore(e.swapped);
  }

  /** The lists after the first call and then after the others. */
  lemma CallThenCalls(e: Entry, calls: seq<Call>, name: string)
    requires calls != []
    ensures After(After(e, [calls[0]], name), calls[1..], name) == After(e, calls, name)
    ensures Mentioned(calls, name) <==> Mentioned([calls[0]], name) || Mentioned(calls[1..], name)
  {
    var first, rest := [calls[0]], calls[1..];
    OneCallSays(calls[0], name, Ignore);
    OneCallSays(calls[0], name, Swap);
    JoinAll(e.fields, FieldsOf(first, name), FieldsOf(rest, name));
    JoinAll(e.ignored, WordsOf(first, name, Ignore), WordsOf(rest, name, Ignore));
    JoinAll(e.swapped, WordsOf(first, name, Swap), WordsOf(rest, name, Swap));
  }

  lemma NoCalls(e: Entry, name: string)
    ensures After(e, [], name) == e && !Mentioned([], name)
  {
    NothingMore(e.fields);
    NothingMore(e.ignored);
    NothingMore(e.swapped);
  }

  /** After a run of calls that goes through, a class has exactly what its own calls give it. */
  lemma {:induction false} RunTaken(view: View, calls: seq<Call>, name: string)
    requires AllWellBuilt(view) && PerformAll(view, calls).error.None?
    ensures var b := PerformAll(view, calls);
            && EntryOf(b.view, name) == After(EntryOf(view, name), calls, name)
            && (name in b.view <==> name in view || Mentioned(calls, name))
    decreases |calls|
  {
    hide WellBuilt, After, Perform, Mentioned;
    var e := EntryOf(view, name);
    if calls == [] {
      NoCalls(e, name);
    } else {
      PerformKeeps(view, calls[0]);
      CallTaken(view, calls[0], name);
      CallThenCalls(e, calls, name);
      RunTaken(Perform(view, calls[0]).view, calls[1..], name);
    }
  }

  /** A run that fails does so because of a class that all its calls together would give a wrong list. */
  lemma {:induction false} RunRefused(view: View, calls: seq<Call>) returns (name: string)
    requires AllWellBuilt(view) && PerformAll(view, calls).error.Some?
    ensures !WellBuilt(After(EntryOf(view, name), calls, name))
    decreases |calls|
  {
    hide WellBuilt, After, Perform;
    var b := Perform(view, calls[0]);
    if b.error.Some? {
      name := calls[0].name;
      CallTaken(view, calls[0], name);
      CallThenCalls(EntryOf(view, name), calls, name);
      if WellBuilt(After(EntryOf(view, name), calls, name)) {
        FewerCalls(After(EntryOf(view, name), [calls[0]], name), calls[1..], name);
      }
    } else {
      PerformKeeps(view, calls[0]);
      name := RunRefused(b.view, calls[1..]);
      CallTaken(view, calls[0], name);
      CallThenCalls(EntryOf(view, name), calls, name);
    }
  }

  lemma FewerCalls(e: Entry, calls: seq<Call>, name: string)
    requires WellBuilt(After(e, calls, name))
    ensures WellBuilt(e)
  {
    ShorterWellBuilt(e, FieldsOf(calls, name), WordsOf(calls, name, Ignore), WordsOf(calls, name, Swap));
  }

  /** What the calls of a file say of a class. */
  function Said(calls: seq<Call>, name: string): (e: Entry)
    ensures e == After(Entry([], [], []), calls, name)
  {
    Entry(FieldsOf(calls, name), WordsOf(calls, name, Ignore), WordsOf(calls, name, Swap))
  }

  /** A file is read without an error exactly when no class has a field reflected twice, a word declared twice with
      the same directive, or a word both ignored and swapped; then the registry holds the classes mentioned, each
      with exactly what its own calls say, in their order. */
  lemma BuiltExactly(calls: seq<Call>)
    ensures var b := PerformAll(map[], calls);
            && (b.error.None? <==> forall name :: WellBuilt(Said(calls, name)))
            && (b.error.None? ==>
                  forall name :: && (name in b.view <==> Mentioned(calls, name))
                                 && (name in b.view ==> b.view[name] == Said(calls, name)))
  {
    hide After, Mentioned, PerformAll, WellBuilt;
    var b := PerformAll(map[], calls);
    if b.error.None? {
      EveryRunWellBuilt(map[], calls);
      EmptyWellBuilt();
      forall name ensures WellBuilt(Said(calls, name)) && (name in b.view <==> Mentioned(calls, name))
                          && (name in b.view ==> b.view[name] == Said(calls, name))
      {
        RunTaken(map[], calls, name);
      }
    } else {
      var name := RunRefused(map[], calls);
      assert !WellBuilt(Said(calls, name));
    }
  }

  // ----- from the lists to the verdict -----

  /** The ignore list actually compared: database objects get their `id` ignored unless it is mentioned. */
  function IgnoresOf(e: Entry, ignoreId: bool): seq<Field> {
    if ignoreId && "id" !in e.ignored && "id" !in e.fields then e.ignored + ["id"] else e.ignored
  }

  function Verdict(F: seq<Field>, e: Entry, ignoreId: bool): Outcome {
    Run(F, e.fields, Start(IgnoresOf(e, ignoreId), e.swapped))
  }

  /** A field is ignored exactly when it is declared so, or is the `id` of a database object that reflects no `id`. */
  lemma IgnoresExactly(e: Entry, ignoreId: bool, x: Field)
    ensures x in IgnoresOf(e, ignoreId) <==> x in e.ignored || (ignoreId && x == "id" && "id" !in e.fields)
    ensures Distinct(e.ignored) ==> Distinct(IgnoresOf(e, ignoreId))
  {
    if ignoreId && "id" !in e.ignored && "id" !in e.fields {
      assert "id" in e.ignored + ["id"];
    }
  }

  /** A database object need not mention its `id`: reflecting the other fields in class order is accepted, and so is
      reflecting all of them; for any other class the first is refused. */
  lemma IdOptional(F: seq<Field>)
    requires Distinct(F) && "id" in F
    ensures Verdict(F, Entry(Except(F, ["id"]), [], []), true) == Accepted
    ensures Verdict(F, Entry(F, [], []), true) == Accepted
    ensures Verdict(F, Entry(Except(F, ["id"]), [], []), false) != Accepted
  {
    hide Run, Except, CursorsMeet;
    ClassOrderAccepted(F, ["id"]);
    ClassOrderAccepted(F, []);
    ExceptNone(F, []);
    ExceptMembers(F, ["id"]);
    ExceptDistinct(F, ["id"]);
    AcceptsExactly(F, Except(F, ["id"]), [], []);
    assert [] + ["id"] == ["id"];
  }

  /** The automatic `id` makes the ignores and swaps overlap exactly when `id` is swapped and not reflected. */
  lemma IdOverlap(e: Entry, ignoreId: bool)
    requires WellBuilt(e)
    ensures Listed(e.fields, IgnoresOf(e, ignoreId), e.swapped)
    ensures (exists x :: x in IgnoresOf(e, ignoreId) && x in e.swapped)
            <==> ignoreId && "id" in e.swapped && "id" !in e.fields
  {
    if ignoreId && "id" !in e.ignored && "id" !in e.fields {
      DistinctSnoc(e.ignored, "id");
      assert "id" in e.ignored + ["id"];
    }
  }

  /** ... and a class built like that is refused, whatever its fields. */
  lemma IdOverlapRefused(F: seq<Field>, e: Entry)
    requires WellBuilt(e) && "id" in e.swapped && "id" !in e.fields
    ensures Verdict(F, e, true) != Accepted
  {
    IdOverlap(e, true);
    AcceptsExactly(F, e.fields, IgnoresOf(e, true), e.swapped);
  }

  /** For every file, class and definition: what the validator accepts, from the macros to the verdict. */
  lemma ValidatorAcceptsExactly(calls: seq<Call>, name: string, F: seq<Field>, ignoreId: bool)
    requires name in PerformAll(map[], calls).view
    ensures var e := PerformAll(map[], calls).view[name];
            Verdict(F, e, ignoreId) == Accepted <==>
            Matches(F, e.fields, IgnoresOf(e, ignoreId), e.swapped) && !CursorsMeet(F, e.fields, e.swapped)
    ensures PerformAll(map[], calls).error.None? ==>
              var R, I, S := FieldsOf(calls, name), WordsOf(calls, name, Ignore), WordsOf(calls, name, Swap);
              var id := if ignoreId && "id" !in I && "id" !in R then ["id"] else [];
              Verdict(F, PerformAll(map[], calls).view[name], ignoreId) == Accepted <==>
              Matches(F, R, I + id, S) && !CursorsMeet(F, R, S)
  {
    hide FieldsOf, WordsOf, Mentioned, PerformAll, Run, Matches, CursorsMeet;
    EveryRunWellBuilt(map[], calls);
    BuiltExactly(calls);
    var e := PerformAll(map[], calls).view[name];
    NothingMore(e.ignored);
    IdOverlap(e, ignoreId);
    AcceptsExactly(F, e.fields, IgnoresOf(e, ignoreId), e.swapped);
  }

  // ----- the objects -----

  class Reflection {
    var fields: seq<Field>
    var ignored: seq<Field>
    var swapped: seq<Field>

    constructor (e: Entry)
      ensures Lists() == e
    {
      fields, ignored, swapped := e.fields, e.ignored, e.swapped;
    }

    ghost function Lists(): Entry
      reads this
    {
      Entry(fields, ignored, swapped)
    }

    /** The main loop: both cursors up to the end of the class, or to the first failing assertion. */
    method Walk(F: seq<Field>)
      returns (halt: Option<Reason>, rf: nat, back: seq<Field>, fwd: seq<Field>, ghost end: Cursor)
      modifies this`ignored, this`swapped
      ensures rf <= |fields| && end.rf == rf
      ensures Run(F, fields, Start(old(ignored), old(swapped)))
           == if halt.Some? then Rejected(halt.value) else Finish(fields, end)
      ensures halt.None? ==> end == Cursor(|F|, rf, swapped, ignored, back, fwd, end.done)
    {
      rf, back, fwd := 0, [], [];
      var f, done := 0, [];
      ghost var run := Run(F, fields, Start(old(ignored), old(swapped)));
      end := Start(ignored, swapped);
      while f < |F|
        invariant f <= |F| && rf <= |fields|
        invariant end == Cursor(f, rf, swapped, ignored, back, fwd, done)
        invariant run == Run(F, fields, end)
        decreases |F| - f + |fields| - rf
      {
        ghost var next := Step(F, fields, end);
        assert run == if next.Halt? then Rejected(next.reason) else Run(F, fields, next.c);
        end := if next.Go? then next.c else end;
        var field := F[f];
        var reflected := if rf < |fields| then Some(fields[rf]) else None;
        if field in swapped {
          swapped := RemoveFirst(swapped, field);
          back := back + [field];
          if field !in fields { halt := Some(SwapNotReflected); return; }
          if reflected == Some(field) { halt := Some(SwapInOrder); return; }
          f := f + 1;
          continue;
        }
        if reflected.Some? && reflected.value in swapped {
          swapped := RemoveFirst(swapped, reflected.value);
          fwd := fwd + [reflected.value];
          if reflected.value !in fields { halt := Some(SwapUnknown); return; }
          rf := rf + 1;
          continue;
        }
        if reflected.Some? && reflected.value in done { halt := Some(IgnoredButReflected); return; }
        if field in ignored {
          ignored := RemoveFirst(ignored, field);
          done := done + [field];
          if reflected == Some(field) { halt := Some(IgnoreInOrder); return; }
          f := f + 1;
          continue;
        }
        if reflected.Some? && reflected.value in back {
          back := RemoveFirst(back, reflected.value);
          rf := rf + 1;
        } else if field in fwd {
          fwd := RemoveFirst(fwd, field);
          f := f + 1;
        } else {
          if reflected != Some(field) { halt := Some(Mismatch); return; }
          f := f + 1;
          rf := rf + 1;
        }
      }
      halt := None;
    }

    /** The trailing loop over the reflected fields left over. */
    method DrainRest(start: nat, parked: seq<Field>) returns (unused: seq<Field>, back: seq<Field>)
      requires start <= |fields|
      ensures (unused, back) == Drain(fields[start..], parked)
    {
      unused, back := [], parked;
      assert [] + Drain(fields[start..], parked).0 == Drain(fields[start..], parked).0;
      for rf := start to |fields|
        invariant Drain(fields[start..], parked)
               == (unused + Drain(fields[rf..], back).0, Drain(fields[rf..], back).1)
      {
        assert fields[rf..] == [fields[rf]] + fields[rf + 1..];
        if fields[rf] in back {
          back := RemoveFirst(back, fields[rf]);
        } else {
          assert unused + Drain(fields[rf..], back).0
              == (unused + [fields[rf]]) + Drain(fields[rf + 1..], back).0;
          unused := unused + [fields[rf]];
        }
      }
      assert unused + [] == unused;
    }

    /** Compares the reflection with the class, consuming the ignores and swaps as it uses them. */
    method Compare(F: seq<Field>, ignoreId: bool) returns (outcome: Outcome)
      modifies this`ignored, this`swapped
      ensures outcome == Verdict(F, old(Lists()), ignoreId)
      ensures outcome == Accepted ==> ignored == [] && swapped == []
      ensures WellBuilt(old(Lists())) ==>
                var id := if ignoreId && "id" !in old(ignored) && "id" !in fields then ["id"] else [];
                outcome == Accepted <==>
                Matches(F, fields, old(ignored) + id, old(swapped)) && !CursorsMeet(F, fields, old(swapped))
    {
      if ignoreId {
        if "id" !in ignored && "id" !in fields {
          ignored := ignored + ["id"];
        }
      }
      ghost var e := old(Lists());
      assert ignored == IgnoresOf(e, ignoreId);
      NothingMore(e.ignored);
      if WellBuilt(e) {
        IdOverlap(e, ignoreId);
        AcceptsExactly(F, e.fields, IgnoresOf(e, ignoreId), e.swapped);
      }
      var halt, rf, back, fwd, end := Walk(F);
      if halt.Some? { return Rejected(halt.value); }
      if ignored != [] { return Rejected(ErroneousIgnores); }
      var unused, left := DrainRest(rf, back);
      if unused != [] { return Rejected(UnknownFields); }
      if swapped != [] { return Rejected(ErroneousSwaps); }
      if left != [] { return Rejected(SwapNeverProvided); }
      if fwd != [] { return Rejected(SwapNotInClass); }
      return Accepted;
    }
  }

  class Registry {
    var classes: View

    constructor ()
      ensures classes == map[]
    {
      classes := map[];
    }

    method FindOrAdd(name: string) returns (e: Entry)
      modifies this
      ensures e == EntryOf(old(classes), name) && classes == old(classes)[name := e]
    {
      if name !in classes {
        classes := classes[name := Entry([], [], [])];
      }
      e := classes[name];
    }

    method AddField(name: string, field: Field) returns (error: Option<BuildError>)
      modifies this
      ensures Built(classes, error) == AddFieldTo(old(classes), name, field)
      ensures error == if field in EntryOf(old(classes), name).fields then Some(RepeatedField) else None
      ensures name in classes
      ensures classes[name].fields ==
              EntryOf(old(classes), name).fields + if error.None? then [field] else []
      ensures classes[name].ignored == EntryOf(old(classes), name).ignored
      ensures classes[name].swapped == EntryOf(old(classes), name).swapped
      ensures forall other :: other != name ==> EntryOf(classes, other) == EntryOf(old(classes), other)
    {
      var e := FindOrAdd(name);
      if field in e.fields { return Some(RepeatedField); }
      classes := classes[name := e.(fields := e.fields + [field])];
      return None;
    }

    method AddWord(name: string, word: Field, directive: Directive) returns (error: Option<BuildError>)
      modifies this
      ensures Built(classes, error) == DeclareWord(old(classes), name, directive, word)
    {
      var e := FindOrAdd(name);
      if directive == Ignore {
        if word in e.ignored { return Some(RepeatedIgnore); }
        if word in e.swapped { return Some(IgnoredAndSwapped); }
        classes := classes[name := e.(ignored := e.ignored + [word])];
      } else {
        if word in e.swapped { return Some(RepeatedSwap); }
        if word in e.ignored { return Some(IgnoredAndSwapped); }
        classes := classes[name := e.(swapped := e.swapped + [word])];
      }
      return None;
    }

    method AddIgnoreSwaps(name: string, words: seq<Field>, directive: Directive) returns (error: Option<BuildError>)
      modifies this
      ensures Built(classes, error) == DeclareWords(old(classes), name, directive, words)
      ensures AllWellBuilt(old(classes)) ==>
                (error.None? <==> WellBuilt(WithWords(EntryOf(old(classes), name), directive, words)))
      ensures AllWellBuilt(old(classes)) && error.None? ==>
                EntryOf(classes, name) == WithWords(EntryOf(old(classes), name), directive, words)
      ensures AllWellBuilt(old(classes)) ==>
                forall other :: other != name ==> EntryOf(classes, other) == EntryOf(old(classes), other)
    {
      hide AllWellBuilt, WellBuilt, WithWords, DeclareWord;
      if AllWellBuilt(classes) {
        WordsTaken(classes, name, directive, words);
        NoWords(EntryOf(classes, name), directive);
      }
      for i := 0 to |words|
        invariant DeclareWords(old(classes), name, directive, words)
               == DeclareWords(classes, name, directive, words[i..])
      {
        assert words[i..][1..] == words[i + 1..];
        error := AddWord(name, words[i], directive);
        if error.Some? { return; }
      }
      return None;
    }

    /** Compares one reflected class with its definition; its lists are left as the comparison leaves them. */
    method Validate(name: string, F: seq<Field>, ignoreId: bool) returns (outcome: Outcome)
      requires name in classes
      modifies this
      ensures outcome == Verdict(F, old(classes)[name], ignoreId)
      ensures classes.Keys == old(classes).Keys
      ensures forall n :: n in classes && n != name ==> classes[n] == old(classes)[n]
      ensures outcome == Accepted ==> classes[name] == Entry(old(classes)[name].fields, [], [])
    {
      var r := new Reflection(classes[name]);
      outcome := r.Compare(F, ignoreId);
      classes := classes[name := Entry(r.fields, r.ignored, r.swapped)];
    }
  }
}
