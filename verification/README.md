# Verified core of the relay chain

A Dafny model of the parts of this EOSIO-based chain and its tooling where the reasoning is hardest, with proofs
about them. `dafny verify dfyconfig.toml` checks the whole project.

- `Reconcile.dfy`, `Reflections.dfy`: the reflection validator: the two-cursor loop that compares a class with its `FC_REFLECT` macro, and the builders of the lists it compares
- `BraceReader.dfy`: its recursive reader of brace scopes
- `EnumScan.dfy`: its scanner for enum bodies
- `Dpos.dfy`, `DposRuns.dfy`: delegated proof of stake in the block header state: confirmations, the proposed and the irreversible block, changes of schedule; safety over whole runs and forks
- `Genesis.dfy`: runs from the genesis header, and two of them that show where the guarantees end
- `ForkTree.dfy`, `ForkDb.dfy`, `ForkFile.dfy`, `ForkRuns.dfy`: the fork database: its tree, its best head, removal, moving the root, common ancestors, and its file; a run of block headers as a branch of it
- `MerkleDepth.dfy`, `Merkle.dfy`: the incremental Merkle tree against the vector algorithm, and the bit tricks for its depth
- `Names.dfy`: the base-32 name codec, its order and `name_suffix`
- `FixInt.dfy`: conversion of binary64 and binary128 numbers to 128-bit integers
- `Schedule.dfy`: round-robin scheduling of producers and the search for a hand-over
- `Undo.dfy`: the nested undo of the permission visitor
- `Timestamps.dfy`: block time slots
- `Lists.dfy`, `Bits.dfy`: lists without repetition; bit operations on integers

How the model is built:

- Code that updates state is a class or a method with a loop, proved against a function; the lemmas are about that
  function. A Python or C++ list, flat map or ordered index that is updated is a field or variable that is
  reassigned.
- Machine arithmetic is explicit where it shows: the 8-bit confirmation counts, the unsigned 32-bit subtraction of
  the double-confirmation check, 64-bit shifts and masks in names and tree depths, 128-bit wrap-around in the
  conversions, the 32-bit slot and C++ division toward zero.
- Failing assertions and exceptions are results. Where an exception leaves an object half changed, the contract says
  what is left.
- Hashes and class-header recognition are arbitrary functions. Block ids are a block number and a digest, as
  `block_header::id` makes them.

Where code and documentation disagree, the model follows the code:

- The validator's documentation asks for needed swaps only. The code refuses a swap only if both cursors meet on it,
  so some redundant swaps pass (`Reconcile.RedundantSwapAccepted`); `Reconcile.AcceptsExactly` is the exact rule.
- The assertion on a repeated swap (tools/validate_reflection.py:524) formats its message with too few arguments and
  raises a different exception. The model has one failure for both.
- The comment in `name_suffix` says leading dots do not count as dots of the name; the code counts them
  (contracts/eosiolib/types.hpp:95).
- `clz_power_2` is documented to count leading zeros and returns the position of the bit, which is what its caller
  needs (`MerkleDepth.ClzOfPower`).
- A 128-bit conversion at exponent 127 shifts into the sign bit, which C leaves undefined; the model wraps.
  `FixInt.TruncatesExactly` says for which inputs that is harmless.
- An irreversible block is meant to stay irreversible; a change of schedule can take the number back
  (`Genesis.IrreversibleGoesBack`). `Dpos.IrreversibleKept` and `DposRuns.RunKeptExactly` are the exact condition for
  a block and for a run; `Dpos.SettledAtChange` says which changes of schedule are harmless. A fork database that
  holds such a branch cannot be opened after it is closed (`Genesis.BackNotReopened`).
- A producer is not to confirm a block twice; the check lets it through when a block claims more blocks than there
  are (`DposRuns.DoubleConfirmGuard`). `DposRuns.StepAccounted` says exactly which blocks count a word twice, and
  `Genesis.OversizedClaims` is a run that does.
- `fetch_branch` is documented to throw for an unknown block; it returns an empty branch.

## Model

| member | source | states |
|---|---|---|
| `Reconcile.Step` | tools/validate_reflection.py:640-679 | every iteration that fails no assertion advances one of the two cursors and leaves neither list, on any input, repeated fields and overlapping lists included; this is what makes the loop end |
| `Reconcile.StepKeepsInv` | tools/validate_reflection.py:640-679 | every iteration keeps the loop invariant: what is parked, consumed and still declared accounts for both consumed prefixes |
| `Reconcile.ConsumedIsNew` | tools/validate_reflection.py:640-679 | a class that repeats a field never gets past the repetition |
| `Reconcile.DrainMembers` | tools/validate_reflection.py:682-690 | the trailing loop leaves unused exactly the fields that were not parked, and parked exactly those that did not turn up |
| `Reconcile.FinishSound` | tools/validate_reflection.py:681-694 | if the closing assertions pass, the declarative relation between the four lists holds |
| `Reconcile.FinishComplete` | tools/validate_reflection.py:681-694 | if the relation holds and the loop reached its end, no closing assertion fails |
| `Reconcile.StepComplete` | tools/validate_reflection.py:640-679 | when the relation holds, the only assertion an iteration can fail is the one on a swap already in order |
| `Reconcile.StepKeepsTrail` | tools/validate_reflection.py:640-679 | the loop always stands at a point from which its way back to the last plain field is known |
| `Reconcile.RunSound` | tools/validate_reflection.py:631-694 | from any state in the invariant: no assertion fires only if the relation holds |
| `Reconcile.RunComplete` | tools/validate_reflection.py:631-694 | from any state in the invariant: if the relation holds, the run is accepted or refused as "already in order", and a refusal exhibits where the cursors met |
| `Reconcile.MeetingRejects` | tools/validate_reflection.py:640-652 | if the cursors are going to meet on a pending swapped field, the run is refused |
| `Reconcile.AcceptsExactly` | tools/validate_reflection.py:631-694 | the loop accepts exactly when the relation holds (ignores are unreflected class fields, swaps are in both lists, the reflection is the class without the ignores, and in the same order once the swaps are taken out of both) and the cursors never meet on a pending swap; if only the latter fails the verdict is "already in order" |
| `Reconcile.ClassOrderAccepted` | tools/validate_reflection.py:631-694 | without swaps, reflecting any class in its own order less the ignored fields is accepted |
| `Reconcile.MatchesIsPermutation` | tools/validate_reflection.py:14-17 | the relation makes the reflection a permutation of the class fields without the ignored ones |
| `Reconcile.MeetingIsRedundant` | tools/validate_reflection.py:650 | a swap on which the cursors meet is redundant: the lists match without it |
| `Reconcile.NeededSwapsAccepted` | tools/validate_reflection.py:19-24 | a reflection that matches and declares only needed swaps is accepted |
| `Reconcile.RedundantSwapAccepted` | tools/validate_reflection.py:19-24 | the converse of the documented rule is false: for any three fields there is a redundant swap that is accepted |
| `Reconcile.TransposedPair` | tools/validate_reflection.py:19-24 | the documented example for any two adjacent fields of any class: declaring either one is accepted, declaring both or neither is refused |
| `Reconcile.InOrderSwapRejected` | tools/validate_reflection.py:640-652 | with the reflection in class order and nothing ignored, every non-empty swap list is refused |
| `Reflections.DeclareWordKeeps` | tools/validate_reflection.py:510-527 | a declared ignore or swap, accepted or refused, keeps every class well built |
| `Reflections.DeclareWordsKeep` | tools/validate_reflection.py:510-530 | and so does a whole list of them |
| `Reflections.PerformKeeps` | tools/validate_reflection.py:489-537 | every builder call keeps every class well built |
| `Reflections.EveryRunWellBuilt` | tools/validate_reflection.py:489-537 | after any sequence of calls each class has distinct fields, ignores and swaps, and no field is both ignored and swapped |
| `Reflections.WordTaken` | tools/validate_reflection.py:519-527 | a word is refused exactly when adding it to the list of its directive would repeat it or make it both ignored and swapped; otherwise it goes to the end of that list and of no other |
| `Reflections.WordsTaken` | tools/validate_reflection.py:510-530 | all the words of a comment go in order to the end of the list of its directive, or some word is refused, exactly when that would make the lists wrong; no other class is touched |
| `Reflections.CallTaken` | tools/validate_reflection.py:489-537 | one call changes the lists of its own class as it says, or is refused exactly when that would make them wrong, and touches no other class |
| `Reflections.RunTaken` | tools/validate_reflection.py:489-537 | after any run of calls that goes through, every class has its earlier lists followed by exactly what its own calls say, in their order |
| `Reflections.RunRefused` | tools/validate_reflection.py:489-537 | a run fails only because of a class that all its calls together would give a wrong list |
| `Reflections.BuiltExactly` | tools/validate_reflection.py:489-537 | a file is read without an error exactly when no class has a field reflected twice, a word declared twice with one directive, or a word both ignored and swapped; the registry then holds exactly the classes mentioned, each with the fields, ignores and swaps that a filter of the calls gives, in their order |
| `Reflections.IgnoresExactly` | tools/validate_reflection.py:624-628 | a field is ignored exactly when it is declared so, or is the `id` of a database object that does not reflect its `id` |
| `Reflections.IdOptional` | tools/validate_reflection.py:624-694 | for every class with an `id`: a database object may reflect all its fields in class order or all but the `id`, without any directive; for any other class leaving the `id` out is refused |
| `Reflections.IdOverlap` | tools/validate_reflection.py:624-628 | the automatic `id` makes ignores and swaps overlap exactly when `id` is swapped and not reflected |
| `Reflections.IdOverlapRefused` | tools/validate_reflection.py:624-649 | a class built like that is refused, whatever its fields |
| `Reflections.ValidatorAcceptsExactly` | tools/validate_reflection.py:489-694 | from the builder calls to the verdict, for every run of calls, class and definition: acceptance is exactly the relation plus "the cursors never meet"; for a run without an error it is stated on the fields, ignores and swaps filtered from the calls, with the automatic `id` |
| `Reflections.Reflection.constructor` | tools/validate_reflection.py:382-388 | a reflection object holds the lists it is built from |
| `Reflections.Reflection.Walk` | tools/validate_reflection.py:640-679 | the main loop on the object's own lists, which it consumes, ends in the state or failure of the specified run |
| `Reflections.Reflection.DrainRest` | tools/validate_reflection.py:682-690 | the trailing loop computes the specified remainder |
| `Reflections.Reflection.Compare` | tools/validate_reflection.py:624-694 | the comparison accepts well-built lists exactly when they satisfy the relation, with `id` among the ignores of a database object that mentions it nowhere, and the cursors never meet; an accepted comparison uses up all ignores and swaps |
| `Reflections.Registry.constructor` | tools/validate_reflection.py:390-392 | a registry starts without classes |
| `Reflections.Registry.FindOrAdd` | tools/validate_reflection.py:489-493 | looks up a class or adds an empty one, and changes nothing else |
| `Reflections.Registry.AddField` | tools/validate_reflection.py:533-537 | the field goes to the end of the fields of its class, or is refused exactly when it is there already; the other two lists and the other classes keep what they had |
| `Reflections.Registry.AddWord` | tools/validate_reflection.py:519-527 | one word, with the checks in the order of the code |
| `Reflections.Registry.AddIgnoreSwaps` | tools/validate_reflection.py:510-530 | the words go to the end of the list of their directive, in order, exactly when that leaves the lists without repetition and overlap; the other classes keep what they had |
| `Reflections.Registry.Validate` | tools/validate_reflection.py:610-694 | compares one class with its definition and leaves the other classes alone |
| `BraceReader.NextScopeIsFirstBrace` | tools/validate_reflection.py:138-164 | whatever the kind of scope, the text that the header pattern matches up to its last `{`, and the initializer rule, the next scope opens at the first `{` if no `}` comes before it, and otherwise none opens |
| `BraceReader.BoundSeesFirstBrace` | tools/validate_reflection.py:138-149 | moving the search bound past an initializer never hides or reveals an opening brace |
| `BraceReader.PossibleEndExactly` | tools/validate_reflection.py:138-149 | the search for a scope is bounded by the first `}`, unless that one closes a brace initializer, then by the first `}` past the character after the initializer; the leftmost match and the first copy of its text are the same place |
| `BraceReader.NextScopeKind` | tools/validate_reflection.py:317-353 | the next scope has the kind of the recognised header exactly when the first copy of that header before the bound ends at the opening brace, and is plain otherwise; inside a plain scope all are plain |
| `BraceReader.BackOver` | tools/validate_reflection.py:110-164 | going backwards, a closed scope is passed over as a whole |
| `BraceReader.InsideNext` | tools/validate_reflection.py:110-164 | the text that decides the kind of a nested scope starts right after the last brace before it, and the scope around it is the one being read; after the nested scope this is so again |
| `BraceReader.EnclosingExactly` | tools/validate_reflection.py:110-164 | the scope around a position starts at the last point from which more braces are opened than closed |
| `BraceReader.HeaderStart` | tools/validate_reflection.py:317-353 | a recognised header opens at the first brace or after it, so it cannot jump over one |
| `BraceReader.CloserOuter` | tools/validate_reflection.py:110-124 | the closer of an enclosing scope is found by continuing after the closer of the inner one |
| `BraceReader.ReadOn` | tools/validate_reflection.py:151-164 | reading one complete nested scope contributes its span, then the spans inside it, and resumes after its end |
| `BraceReader.ReadStuck` | tools/validate_reflection.py:110-124 | a scope that is never closed leaves every scope around it open |
| `BraceReader.CloserNet` | tools/validate_reflection.py:110-124 | the scan finds the first point at which one more brace is closed than opened |
| `BraceReader.CloserIsMatch` | tools/validate_reflection.py:110-124 | the position found is the matching brace, and none is found only if there is none |
| `BraceReader.SpansExact` | tools/validate_reflection.py:110-164 | the visited spans are exactly the opening braces with their matching braces, in order |
| `BraceReader.BalancedFile` | tools/validate_reflection.py:110-164 | in a balanced file every scope is closed and visited |
| `BraceReader.Scope.constructor` | tools/validate_reflection.py:95-108 | a new scope starts reading after its brace; only the outermost one has an end |
| `BraceReader.Scope.NextOpening` | tools/validate_reflection.py:151-353 | the next scope opens at the first `{` if no `}` comes before it, and otherwise none opens; it is of kind k exactly when the classifier returns a header of kind k whose first copy before the bound ends at that brace, plain otherwise, and plain in a plain scope |
| `BraceReader.Scope.ReadNested` | tools/validate_reflection.py:110-353 | reads the nested scopes up to where no further one opens, visits exactly their spans, and gives each the kind that its header and the scopes around it determine |
| `BraceReader.Scope.Read` | tools/validate_reflection.py:110-353 | succeeds exactly when the scope is closed, sets its end to the matching brace, and gives every scope inside its kind |
| `BraceReader.Scope.ReadFile` | tools/validate_reflection.py:110-353 | succeeds exactly when every scope opened before the stopping point is closed, visits all of them in order, and says of each whether it is a namespace, a class or plain |
| `EnumScan.MatchAgrees` | tools/validate_reflection.py:234 | a match depends on the matched text only |
| `EnumScan.FoundAtMatch` | tools/validate_reflection.py:291-298 | searching for the matched text finds the match itself, never an earlier copy |
| `EnumScan.EnumBody.constructor` | tools/validate_reflection.py:240-246 | an enum body starts without fields |
| `EnumScan.EnumBody.AddEnumField` | tools/validate_reflection.py:291-300 | one round takes the leftmost enumerator and resumes at the comma it shares with the next |
| `EnumScan.EnumBody.AddFields` | tools/validate_reflection.py:268-277 | the loop ends and appends exactly the names the specified scan reads; for a text that holds a written enum from the brace before `start` to the one at `end`, the names of its simple items |
| `EnumScan.MatchItem` | tools/validate_reflection.py:234 | the pattern matches a written enumerator exactly when its initializer is simple, and captures its name |
| `EnumScan.SimpleBySkipping` | tools/validate_reflection.py:234 | the runs of characters that the pattern tries split an initializer as one value between white space exactly when it can be split so at all |
| `EnumScan.ScanItem` | tools/validate_reflection.py:268-300 | one written enumerator is read, or skipped whole |
| `EnumScan.ScanReadsBack` | tools/validate_reflection.py:268-300 | every enum body written out is read back as the names of its simple items, in order, once each |
| `EnumScan.ScanReadsAllNames` | tools/validate_reflection.py:268-300 | all names are read exactly when every initializer is simple (non-empty, without comma, brace or space) |
| `Names.StringToName` | contracts/eosiolib/types.hpp:41-64 | packs the first thirteen characters of any string, the thirteenth in four bits; no shift loses a bit and no bit is set twice |
| `Names.ToString` | contracts/eosiolib/types.hpp:125-139 | prints any word as the thirteen characters of its symbols without trailing dots |
| `Names.LastNotDot` | contracts/eosiolib/types.hpp:160-164 | drops trailing dots, except from a string of dots only |
| `Names.ShiftIn` | contracts/eosiolib/types.hpp:52-60 | adding a symbol below what is packed so far is addition: the shift fits the word and overlaps nothing |
| `Names.EncodeDecode` | contracts/eosiolib/types.hpp:41-64 | every word is the encoding of its thirteen symbols |
| `Names.DecodeEncode` | contracts/eosiolib/types.hpp:41-64 | thirteen symbols come back from their encoding if the last one fits four bits |
| `Names.PrintThenParse` | contracts/eosiolib/types.hpp:41-139 | every 64-bit word, printed and parsed, is the same word |
| `Names.ParseThenPrint` | contracts/eosiolib/types.hpp:41-139 | a string over the alphabet that fits and is not all dots is printed back without its trailing dots |
| `Names.ParsePrintExactly` | contracts/eosiolib/types.hpp:41-139 | a string survives parsing and printing exactly when it is canonical or thirteen dots |
| `Names.ParsePrintAny` | contracts/eosiolib/types.hpp:24-139 | any string whatever, parsed and printed, is its first thirteen characters with every foreign one turned into a dot, the thirteenth reduced to four bits, and the trailing dots dropped |
| `Names.NameOrder` | unittests/misc_tests.cpp:585-632 | names compare as numbers exactly as their canonical strings compare alphabetically |
| `Names.NameInjective` | contracts/eosiolib/types.hpp:41-64 | different canonical strings are different names |
| `Names.NameSuffix` | contracts/eosiolib/types.hpp:77-105 | scanning, masking and shifting the word yields the encoding of the symbols after the last inner dot, for every word |
| `Names.SuffixBits` | contracts/eosiolib/types.hpp:98-104 | the two shifts put the suffix to the top of the word, losing no bit and overlapping nowhere |
| `Names.SuffixSplit` | contracts/eosiolib/types.hpp:77-105 | the suffix is what follows the last dot that another symbol follows, moved to the front |
| `Names.SuffixRefines` | contracts/eosiolib/types.hpp:77-105 | on canonical names the word operation is taking the string after the last dot |
| `Names.SuffixIdempotent` | contracts/eosiolib/types.hpp:77-105 | the suffix of a suffix is itself, on every word |
| `FixInt.FieldsRead` | libraries/builtins/fixdfti.c:19-24 | the masks and shifts read the sign, the biased exponent and the fraction of any pattern |
| `FixInt.FormatsSound` | libraries/builtins/fixdfti.c:19-24 | the parameters of both formats are those of IEEE 754 |
| `FixInt.FixIsConversion` | libraries/builtins/fixdfti.c:16-41 | the result depends only on the number that a finite pattern encodes |
| `FixInt.TruncatesExactly` | libraries/builtins/fixdfti.c:16-41 | for every finite pattern of either format the result is the number truncated toward zero and saturated exactly when the exponent is not 127 or the number is -2^127 |
| `FixInt.ShiftFits` | libraries/builtins/fixtfti.c:31-36 | the left shift and the product stay within the signed 128-bit range exactly below exponent 127 |
| `FixInt.Saturates` | libraries/builtins/fixtfti.c:27-29 | from exponent 128 on, infinities and NaNs included, the result is the extreme of the sign |
| `FixInt.ConversionsAgree` | libraries/builtins/fixtfti.c:13-37 | the binary64 and the binary128 conversion agree on every number both can hold |
| `FixInt.OddBelow127` | libraries/builtins/fixdfti.c:19-39 | below 2^127 flipping the sign bit negates the result |
| `FixInt.FixMonotone` | libraries/builtins/fixtfti.c:16-36 | the conversion keeps the order of everything but NaNs, outside exponent 127 |
| `MerkleDepth.SmearStep` | libraries/chain/include/eosio/chain/incremental_merkle.hpp:19-24 | each smearing step doubles the run of ones, up to the length of the number |
| `MerkleDepth.Smeared` | libraries/chain/include/eosio/chain/incremental_merkle.hpp:17-27 | six steps turn every number of up to 64 bits into all ones |
| `MerkleDepth.StripeBit` | libraries/chain/include/eosio/chain/incremental_merkle.hpp:42-47 | the six masks are striped patterns: which bits each one has |
| `MerkleDepth.ClzOfPower` | libraries/chain/include/eosio/chain/incremental_merkle.hpp:38-50 | on a power of two the masks add up to its exponent: the function returns the position of the bit, not the number of leading zeros its comment speaks of |
| `MerkleDepth.MaxDepthIsLevels` | libraries/chain/include/eosio/chain/incremental_merkle.hpp:59-65 | for every 64-bit node count the bit tricks give the number of levels of the tree, none for no nodes |
| `Merkle.ClimbLeft` | libraries/chain/include/eosio/chain/incremental_merkle.hpp:179-192 | going up from a left node keeps the invariant of the climb; the node is recorded only if it is complete |
| `Merkle.ClimbRight` | libraries/chain/include/eosio/chain/incremental_merkle.hpp:193-208 | going up from a right node keeps the invariant; the first of the old active nodes is its left partner |
| `Merkle.ClimbedToRoot` | libraries/chain/include/eosio/chain/incremental_merkle.hpp:215-219 | at the top, the new active nodes start with the peaks of the longer list and end with its root |
| `Merkle.CompleteNodesStable` | libraries/chain/include/eosio/chain/incremental_merkle.hpp:89-92 | a node over leaves that are all there never changes, whatever is appended later |
| `Merkle.HashPairs` | libraries/chain/merkle.cpp:42-46 | one round in place over the front half of a level computes the next level |
| `Merkle.VectorRoot` | libraries/chain/merkle.cpp:35-50 | the loop computes the root of the level-by-level tree |
| `Merkle.RootSplits` | libraries/chain/merkle.cpp:35-50 | the root over more than 2^k and at most 2^(k+1) leaves hashes the root of the first 2^k, on the left, with the root of the others combined with itself until it is as high |
| `Merkle.IncrementalMerkle.constructor` | libraries/chain/include/eosio/chain/incremental_merkle.hpp:97-99 | an empty tree |
| `Merkle.IncrementalMerkle.Append` | libraries/chain/include/eosio/chain/incremental_merkle.hpp:168-226 | after appending, the active nodes stand for the list of all leaves so far (its peaks first, its root last), and the result is the root of that list |
| `Merkle.IncrementalMerkle.GetRoot` | libraries/chain/include/eosio/chain/incremental_merkle.hpp:233-239 | returns the root of all leaves so far, or the default digest |
| `Merkle.AppendedRoot` | libraries/chain/include/eosio/chain/incremental_merkle.hpp:168-239 | appending leaf by leaf gives the same root as the vector algorithm, for every list of leaves and every hash |
| `Schedule.ScheduleFair` | libraries/chain/block_header_state.cpp:12-16 | in every window of one round, aligned or not, each position gets exactly its repetitions |
| `Schedule.NextRoundFirstBlock` | unittests/producer_schedule_tests.cpp:42-49 | the loop returns the least multiple of the round length above the head, a slot of the first position |
| `Schedule.NextPosition` | unittests/producer_schedule_tests.cpp:25-28 | from one slot to the next the position stays, or moves to its neighbour at the end of a turn |
| `Schedule.HandOverBetweenNeighbours` | unittests/fork_test_utilities.cpp:29-31 | a hand-over from one producer to another happens only between neighbours of the round |
| `Schedule.HandOverWithinRound` | unittests/fork_test_utilities.cpp:29-41 | within a round from any slot every neighbouring pair hands over |
| `Schedule.Tester.constructor` | unittests/fork_test_utilities.cpp:24-28 | a tester at a given slot |
| `Schedule.Tester.ProduceBlock` | unittests/fork_test_utilities.cpp:35 | a block moves the head by one slot |
| `Schedule.Tester.ProduceEmptyBlocksUntil` | unittests/fork_test_utilities.cpp:24-42 | produces at most the limit, stops at the first hand-over and returns whether there is one |
| `Schedule.Tester.FindHandOver` | unittests/fork_test_utilities.cpp:24-42 | with a limit of a round less one slot the hand-over between neighbours is always found |
| `Dpos.ConfirmBlocks` | libraries/chain/block_header_state.cpp:84-109 | the loop over the tracked blocks computes the specified countdown |
| `Dpos.NthAtLeast` | libraries/chain/block_header_state.cpp:24-29 | the selected element reaches a bound exactly when at most `k` elements are below it, which is what sorting and indexing would give |
| `Dpos.CountDownAt` | libraries/chain/block_header_state.cpp:86-109 | every count passed loses exactly one, no other changes, and the countdown stops at the first that runs out |
| `Dpos.CountDownKeeps` | libraries/chain/block_header_state.cpp:91-105 | every count that is kept is still running |
| `Dpos.IrreversibleAtMost` | libraries/chain/block_header_state.cpp:18-30 | the irreversible block is not past the proposed one |
| `Dpos.NextKeepsOrder` | libraries/chain/block_header_state.cpp:32-165 | every accepted block, with or without a change of schedule, keeps irreversible, proposed and current block in this order, tracks only blocks after the proposed one, and never takes the proposed block back |
| `Dpos.NextRecords` | libraries/chain/block_header_state.cpp:32-160 | what the next header records of any producer: its number and slot, the last block of the producer and what was proposed then; a schedule that becomes active takes over what is known of its members, and the irreversible block for the others |
| `Dpos.NextTracks` | libraries/chain/block_header_state.cpp:73-105 | every accepted block keeps the counts of all blocks after the proposed one, or of at least the last 1024, and of no more than 1024 |
| `Dpos.ByteTooSmall` | libraries/chain/block_header_state.cpp:66-83 | why the counts must fit their byte: a schedule that needs one confirmation more than a multiple of 256 makes every block proposed on the word of its own producer |
| `Dpos.Required` | libraries/chain/block_header_state.cpp:70-71 | the confirmations a block needs are the least number above two thirds of the schedule |
| `Dpos.IrreversibleHasSupermajority` | libraries/chain/block_header_state.cpp:23-29 | more than two thirds of the producers have seen the irreversible block proposed; it reaches a number exactly when at most a third, rounded down, have seen less |
| `Dpos.IrreversibleKept` | libraries/chain/block_header_state.cpp:112 | the exact condition, on the header before a block, under which the block does not take the irreversible block back: at most a third of the producers, rounded down, are going to have seen less than it proposed |
| `Dpos.IrreversibleMonotone` | libraries/chain/block_header_state.cpp:112-160 | from a settled header (at most a third of its producers behind the irreversible block) no block takes the irreversible block back, whether or not a schedule becomes active with it |
| `Dpos.SettledKept` | libraries/chain/block_header_state.cpp:154-160 | while a schedule lasts a settled header stays settled |
| `Dpos.SettledAtChange` | libraries/chain/block_header_state.cpp:114-153 | a header in which a schedule has just become active is settled exactly when at most a third of the new producers, rounded down, had seen less than the irreversible block; this is read off the waiting schedule and the old record |
| `Dpos.CarriedCounts` | libraries/chain/block_header_state.cpp:135-150 | the record of a new schedule has one entry for each of its members, and its entries below the irreversible block are exactly those members that lag behind it |
| `Dpos.CarriedFind` | libraries/chain/block_header_state.cpp:119-150 | after a change of schedule every member has an entry: its own new one for the producer, the old one if known, the irreversible block otherwise |
| `Dpos.IrreversibleOnRecord` | libraries/chain/block_header_state.cpp:112-159 | while a schedule lasts, the irreversible block is exactly the one a third of the way up in what the new header records of its producers |
| `Dpos.ActivatesInTime` | libraries/chain/block_header_state.cpp:114-252 | a waiting schedule becomes active with the very first block that makes its proposal irreversible, and not before; a new one is taken only when none waits |
| `Dpos.ProposalTaken` | libraries/chain/block_header_state.cpp:208-213 | a block that carries a new schedule is accepted exactly when the block is and no schedule waits |
| `DposRuns.EveryChainOrdered` | libraries/chain/block_header_state.cpp:32-253 | every run of accepted blocks, across any changes of schedule, keeps the order of the three blocks and never takes the proposed block back |
| `DposRuns.EveryChainWaits` | libraries/chain/block_header_state.cpp:114-252 | after every block of a run, whatever header it starts from, a schedule that waits has a proposal that is not yet irreversible |
| `DposRuns.DoubleConfirmGuard` | libraries/chain/block_header_state.cpp:45-51 | the check lets a block through exactly when its producer's last block comes before all it now confirms, or when it claims more blocks than there are |
| `DposRuns.CountedTallied` | libraries/chain/block_header_state.cpp:71-109 | after the countdown, the producers that vouched for a tracked block and the confirmations it still misses add up to what it needs, and the block it stops at misses none, exactly when no count was lowered for a word already given |
| `DposRuns.OnceExactly` | libraries/chain/block_header_state.cpp:45-109 | whether a count is lowered for a word already given can be read off the header before the block: the block claims more blocks than there are, its producer's last block is still tracked, and every later count is above one |
| `DposRuns.RecordCarried` | libraries/chain/block_header_state.cpp:119-133 | a change of schedule keeps the record of last blocks sound: a producer that comes back after having left was last heard before the block that is now irreversible |
| `DposRuns.StepAccounted` | libraries/chain/block_header_state.cpp:32-165 | every accepted block, with or without a change of schedule, keeps the account of who confirmed what exactly when it does not count its producer's word twice |
| `DposRuns.RunAccounted` | libraries/chain/block_header_state.cpp:32-253 | the account holds after every block of a run exactly when none of its blocks counts a word twice |
| `DposRuns.SizedCountsOnce` | libraries/chain/block_header_state.cpp:45-51 | blocks that claim no more blocks than there are never count a word twice |
| `DposRuns.SupermajorityConfirmed` | libraries/chain/block_header_state.cpp:32-165 | every block that becomes proposed or irreversible in a run, across any changes of schedule, has the word of more than two thirds as many different producers as its schedule had; every tracked block lacks exactly as many as its count says |
| `DposRuns.EveryChainTracks` | libraries/chain/block_header_state.cpp:73-105 | over every run no count is given up before its block is proposed or 1024 blocks old |
| `DposRuns.SupermajorityProposed` | libraries/chain/block_header_state.cpp:73-109 | the converse: in every run that counts no word twice, each of the last 1024 blocks with the word of more than two thirds as many producers as its schedule had is proposed, or a later one is |
| `DposRuns.FirstIrreversible` | libraries/chain/block_header_state.cpp:32-165 | the first new block that a run makes irreversible, whatever schedules come later, has its supermajority among the producers of the schedule in force at the start and of the one that waited then |
| `DposRuns.ForksShareConfirmers` | libraries/chain/block_header_state.cpp:32-165 | two runs from the same header that each make a new block irreversible, whatever schedules they come to, have supermajorities that overlap by all that they exceed those producers; if no schedule waited, by more than a third of the schedule |
| `DposRuns.RunKeptExactly` | libraries/chain/block_header_state.cpp:112 | a run never takes the irreversible block back exactly when the condition of `Dpos.IrreversibleKept` holds before each of its blocks |
| `DposRuns.RunIrreversibleMonotone` | libraries/chain/block_header_state.cpp:112-160 | all headers of a run are settled exactly when all its changes of schedule leave at most a third of the new producers behind; and then the irreversible block never goes back |
| `Genesis.GenesisInOrder` | libraries/chain/controller.cpp:445-464 | the genesis header is in order, settled, and its producers get their entries with the first block |
| `Genesis.FirstBlockActivates` | libraries/chain/controller.cpp:454-456 | the first block always makes the initial schedule active |
| `Genesis.GenesisRun` | libraries/chain/controller.cpp:445-464 | every run from genesis keeps its three blocks in order; every block it makes irreversible has its supermajority if no word is counted twice; the irreversible block never goes back if no change of schedule leaves more than a third behind |
| `Genesis.FourIrreversible` | libraries/chain/block_header_state.cpp:18-30 | with four producers the irreversible block is the second lowest of what they have seen |
| `Genesis.IrreversibleGoesBack` | libraries/chain/block_header_state.cpp:116-154 | a change of schedule can take the irreversible block back: a run from genesis of eight accepted blocks, none counting a word twice, whose last block drops it from 3 to 0 |
| `Genesis.BackNotReopened` | libraries/chain/fork_database.cpp:82-226 | a fork database that holds the branch of that run cannot be opened after it is closed |
| `Genesis.OversizedClaims` | libraries/chain/block_header_state.cpp:45-51 | blocks that claim more blocks than there are can count a word twice: a run from genesis of three accepted blocks in which one producer of four gets a block proposed alone |
| `ForkTree.BranchLinear` | libraries/chain/fork_database.cpp:363-366 | of two blocks on one branch the earlier is on the branch of the later |
| `ForkTree.PathExactly` | libraries/chain/fork_database.cpp:384-441 | the path from a block down to an ancestor starts with the block, ends with the one built on the ancestor, each built on the next, as many as their numbers are apart |
| `ForkTree.CommonAncestorLowest` | libraries/chain/fork_database.cpp:380-383 | the common ancestor is on both branches, and every block on both is on its own branch |
| `ForkTree.PrecedesIsOrder` | libraries/chain/fork_database.cpp:41-55 | the comparison of the index is the order by validity, irreversible block, number and digest; it is transitive and leaves no two different blocks level |
| `ForkDb.FrontierDone` | libraries/chain/fork_database.cpp:444-458 | a finished queue holds the block and exactly its descendants |
| `ForkDb.TiedHeadYields` | libraries/chain/fork_database.cpp:330-333 | adding a block that is not validated changes the head exactly when a validated block with the same irreversible block and number as the head has a smaller digest |
| `ForkDb.AddedHead` | libraries/chain/fork_database.cpp:330-333 | after adding a block the first block of the order if validated, else the old head, is the best validated block |
| `ForkDb.MarkedFirst` | libraries/chain/fork_database.cpp:478-484 | after marking a block the first block of the order is preferred to the head exactly when the marked block has a later irreversible block, or the same one and a higher number, and then it is that block |
| `ForkDb.MarkedHead` | libraries/chain/fork_database.cpp:478-484 | the better one of the head and the marked block is the best validated block |
| `ForkDb.MoveEnds` | libraries/chain/fork_database.cpp:273-282 | once the old root is taken out, exactly the blocks built on the new one are left, and they form a tree over it |
| `ForkDb.MoveBroken` | libraries/chain/fork_database.cpp:273-276 | a move given up half way leaves the blocks built on the new root without a way to the old one |
| `ForkDb.ForkDatabase.constructor` | libraries/chain/fork_database.cpp:232-238 | a database with only a root |
| `ForkDb.ForkDatabase.Reset` | libraries/chain/fork_database.cpp:232-238 | drops everything and starts from a new root |
| `ForkDb.ForkDatabase.First` | libraries/chain/fork_database.cpp:30-50 | the first block of the ordered index is before every other one: validated first, then by later irreversible block, higher number, smaller digest |
| `ForkDb.ForkDatabase.Add` | libraries/chain/fork_database.cpp:299-334 | unlinkable and duplicate blocks are refused exactly when they should be and change nothing; otherwise the block is added, the tree stays a tree and the head is the first validated block in the order, with the latest irreversible block and then the highest number of all validated ones |
| `ForkDb.ForkDatabase.MarkValid` | libraries/chain/fork_database.cpp:467-485 | marks the block, and makes it the head exactly when it has a later irreversible block than the head, or the same one and a higher number; no validated block then has a later one, or the same one and a higher number, than the head |
| `ForkDb.ForkDatabase.Children` | libraries/chain/fork_database.cpp:453-457 | the children of a block, each once |
| `ForkDb.ForkDatabase.Descendants` | libraries/chain/fork_database.cpp:445-458 | the walk finds exactly the descendants of a block, or that the head is among them, and ends |
| `ForkDb.ForkDatabase.Remove` | libraries/chain/fork_database.cpp:444-465 | takes out exactly the block and what is built on it; refused, without any change, exactly when the head is among them |
| `ForkDb.ForkDatabase.Before` | libraries/chain/fork_database.cpp:262-267 | the walk down from a block ends at the root: no orphaned branch is ever met |
| `ForkDb.ForkDatabase.TakeOut` | libraries/chain/fork_database.cpp:273-276 | the removals leave exactly the blocks built on the new root, and go through exactly when the head is on its branch |
| `ForkDb.ForkDatabase.AdvanceRoot` | libraries/chain/fork_database.cpp:252-283 | succeeds exactly when the block is there, validated and on the head's branch, and then keeps exactly the blocks built on it, as a tree with the same head; if the head is elsewhere the blocks built on the new root are left cut off |
| `ForkDb.ForkDatabase.RollbackHeadToRoot` | libraries/chain/fork_database.cpp:240-250 | every block loses its mark and the head is the root |
| `ForkDb.ForkDatabase.PendingHead` | libraries/chain/fork_database.cpp:349-359 | no block of the index, validated or not, has a later irreversible block than the result, or the same one and a higher number; the result is the head unless it is better than the head |
| `ForkDb.ForkDatabase.SearchOnBranch` | libraries/chain/fork_database.cpp:371-378 | finds the block with the number on the branch, and none only if there is none |
| `ForkDb.ForkDatabase.FetchBranch` | libraries/chain/fork_database.cpp:361-369 | exactly the blocks of the branch up to the number, latest first, each built on the next |
| `ForkDb.ForkDatabase.FetchBranchFrom` | libraries/chain/fork_database.cpp:384-441 | fails only if one of the blocks is unknown, and otherwise returns the two paths to the lowest common ancestor |
| `ForkDb.ForkDatabase.DownTogether` | libraries/chain/fork_database.cpp:417-440 | two different blocks with the same number are walked down together to their lowest common ancestor |
| `ForkFile.ListingWorstFirst` | libraries/chain/fork_database.cpp:183-189 | the ordered index read backwards lists blocks by irreversible block and then number, neither ever falling |
| `ForkFile.Write` | libraries/chain/fork_database.cpp:183-216 | the merge writes every block once, by irreversible block and then number, neither ever falling |
| `ForkFile.Read` | libraries/chain/fork_database.cpp:124-136 | adding the blocks of a file one by one |
| `ForkFile.LoadExactly` | libraries/chain/fork_database.cpp:124-136 | reading goes through exactly when every block comes after its predecessor, and then holds exactly the blocks |
| `ForkFile.Open` | libraries/chain/fork_database.cpp:122-158 | opens a file exactly when every block comes after its predecessor, the head is the root or among the blocks, and is as good as every validated block, or the root if none is validated; the result is those blocks and that head |
| `ForkFile.FirstDecides` | libraries/chain/fork_database.cpp:148-158 | comparing the head with the first block of the order alone decides whether it is as good as every validated block |
| `ForkFile.ReopenExactly` | libraries/chain/fork_database.cpp:82-226 | closing and opening gives the same index back exactly when the irreversible block never goes back along a branch, and fails otherwise |
| `ForkFile.AllLink` | libraries/chain/fork_database.cpp:183-216 | in the merged order every block comes after its predecessor exactly when the irreversible block never goes back along a branch |
| `ForkFile.ReopenRestores` | libraries/chain/fork_database.cpp:80-227 | such a database is opened as it was closed, with the same blocks and the same head |
| `ForkRuns.BranchGoesOn` | libraries/chain/fork_database.cpp:36-55 | the branch of a run never goes back exactly when the run, from its first block on, never takes the irreversible block back |
| `ForkRuns.RunReopened` | libraries/chain/fork_database.cpp:82-226 | a database that holds the branch of a run is opened as it was closed exactly when the run never takes the irreversible block back, and cannot be opened otherwise |
| `Undo.StepStands` | unittests/misc_tests.cpp:287-313 | every call on lengths does to the list what the same call on full copies does |
| `Undo.RunStands` | unittests/misc_tests.cpp:280-315 | every run with lengths only is a run with full copies: both stop at the same call, and at every point the lengths stand for the copies and do not decrease |
| `Undo.RunsExactly` | unittests/misc_tests.cpp:299-313 | a run goes through exactly when it never closes more levels than are open; the check in pop never fails |
| `Undo.VisitsKept` | unittests/misc_tests.cpp:287-313 | as long as nothing is popped the list is what it was followed by the permissions visited since, in order |
| `Undo.RunFramed` | unittests/misc_tests.cpp:293-313 | a run does not depend on the levels below those it opens and keeps the list they cover |
| `Undo.PopRestores` | unittests/misc_tests.cpp:299-306 | a pop restores exactly the state before the matching push, whatever was opened and closed between |
| `Undo.SquashKeeps` | unittests/misc_tests.cpp:308-313 | a squash keeps the work, as if there had been no push |
| `Undo.PermissionVisitor.constructor` | unittests/misc_tests.cpp:285 | an empty visitor |
| `Undo.PermissionVisitor.Call` | unittests/misc_tests.cpp:287-289 | appends a permission |
| `Undo.PermissionVisitor.PushUndo` | unittests/misc_tests.cpp:293-297 | saves the length |
| `Undo.PermissionVisitor.PopUndo` | unittests/misc_tests.cpp:299-306 | cuts the list back to the saved length, or fails and changes nothing |
| `Undo.PermissionVisitor.SquashUndo` | unittests/misc_tests.cpp:308-313 | forgets the saved length, or fails and changes nothing |
| `Timestamps.SlotContains` | contracts/eosiolib/time.hpp:142-170 | a time lies in its slot of three seconds since the start of 2000 exactly when it is not before that epoch and not after the last 32-bit slot |
| `Timestamps.BeforeEpoch` | contracts/eosiolib/time.hpp:166-170 | a time before the epoch gets the first slot if it is less than 3000 milliseconds early, and otherwise a slot counted down from the upper end |
| `Timestamps.SlotRoundTrip` | contracts/eosiolib/time.hpp:142-170 | slot to time to slot is the identity for all 32-bit slots; slot n starts 3n seconds after the epoch |
| `Timestamps.SlotMonotone` | contracts/eosiolib/time.hpp:166-170 | within that range later times have later slots |
| `Timestamps.BlockTimestamp.constructor` | contracts/eosiolib/time.hpp:118 | a timestamp with a given slot |
| `Timestamps.BlockTimestamp.SetTimePoint` | contracts/eosiolib/time.hpp:166-170 | sets the slot whose three seconds contain the time exactly when the time is in range |
| `Timestamps.BlockTimestamp.SetTimePointSec` | contracts/eosiolib/time.hpp:172-175 | whole seconds give the same slot as the same time in microseconds |
| `Timestamps.BlockTimestamp.Next` | contracts/eosiolib/time.hpp:131-136 | the next slot starts one interval later; the last slot has none |

## Left out

- The regular expressions for fields, macros and class headers, comment stripping, and the tokens of `@ignore` and
  `@swap` comments: class fields, macro fields and words are inputs, header recognition is an arbitrary classifier.
- Unicode: `\s` and `\w` are the ASCII classes.
- The derived-class branch of the macro reader, and `find_class`.
- The assertions of `create_scope` and `Namespace.__init__` (tools/validate_reflection.py:230 and 366), which stop the
  reading of a file on an unknown kind of header and on a namespace with a base class.
- Assertion messages, debug output, argument parsing and directory walking of the validator.
- The terminating NUL of C strings: a string is the characters before it. The second copy of `name_suffix` in the tests.
- The unsigned and 32-bit float conversions, and conversions from integers.
- Signatures, signing keys, schedule versions, protocol features and header extensions of a block header.
- Overflow of the 32-bit block number: runs end before it. Schedules of more than 382 producers, whose required
  confirmations do not fit 8 bits; the source excludes them statically (`Dpos.ByteTooSmall` says why).
- The flat maps of a header are sequences of entries with distinct keys; their order in memory is not modelled.
- Shared pointers: the fork database holds block states as values, so other holders of a block state do not see its
  validated mark change. Protocol-feature validation while a file is read, the encoding of the file, its magic number
  and version.
- The ordered listings that the multi-index container provides are inputs of `ForkFile.Write`.
- The canonical left and right bits of a Merkle pair are part of the arbitrary hash; proofs of inclusion.
- The controller, chain database, transaction execution, resource limits, authority checker, ABI serializer, plugins,
  contracts and the network.
- `block_timestamp::maximum`, comparisons and the arithmetic of `time_point_sec`.
- `push_blocks` and `is_schedule_equal` in the tests.
- Reflections.Registry.Validate: the record of a class is a value in the registry's map, so sharing of the record
  object between the registry and its callers is not modelled.
- DposRuns.SupermajorityConfirmed: requires that no block counts a word twice, because the property fails otherwise
  (`Genesis.OversizedClaims`); `DposRuns.RunAccounted` says when the account behind it holds.
- DposRuns.ForksShareConfirmers: promises an overlap of more than a third only if no schedule waits at the start,
  because one fork may bring the waiting schedule into force and the other not.
- Undo.PermissionVisitor.PopUndo: requires a saved size, because the source reads the last one before it checks that
  there is one.
