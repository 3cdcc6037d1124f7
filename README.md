# C-Vise hint layer, modelled in Dafny

C-Vise reduces a failing test case by trying many small edits. Its passes
describe those edits as *hints*: each hint is a list of byte-range *patches*
(delete `[l, r)`, optionally insert a vocabulary string instead), grouped into
a *bundle* with a *vocabulary* of strings that patches refer to by index. This
project models the part of C-Vise that lists such candidate edits, builds and
serialises hints, resolves overlaps, orders them and applies them, together
with the counter protocol of `clang_delta` and the enumeration states that
drive the reduction loop:

- the `clang_delta` hint builder (vocabulary interning, hint scopes, JSON
  lines) and the JSON line format itself, with its parser;
- the hint applier of `cvise/utils/hint.py` (sort keys, merging of
  overlapping patches, applying patches to a buffer, position remapping,
  subtraction, sorting and grouping);
- the hint generators of the `balanced`, `makefile`, `clangmodulemap`,
  `clanghints` and `clangincludegraph` passes, the makefile parser, the clex
  driver's token bookkeeping, and the two tree-sitter emitters;
- `TransformationManager`'s counter checks and output choice, and the
  counter/range logic of clang_delta's `ReplaceFunctionDefWithDecl`;
- `BinaryState`/`SubsegmentState` and the bounded pass cache.

Code that works by updating objects (the hint builder, the transformation
manager, the cache, the clex token table, the bracket scanner, the parsers'
cursors) is modelled as Dafny classes and methods with loops; each method is
proved against a specification function, and the properties the source
promises are proved as lemmas about those functions. Pure code (sort keys,
merge, the JSON format, the state values) is modelled as functions.

External inputs become parameters: Clang and tree-sitter match results are
given as ranges or opaque declarations, regex matches as spans, the
filesystem as lists of files and existence predicates, the contents of
pasted files as a `Paste` function, and the JSON decoder of the hint stream
as a `decode` function.

## Model

| member | source | states |
|---|---|---|
| `HintsBuilder.IndexOf` | clang_delta/HintsBuilder.cpp:106-108 | the index `std::find` returns is the first position holding the string |
| `HintsBuilder.Intern` | clang_delta/HintsBuilder.cpp:102-111 | a known string keeps its index and the vocabulary is unchanged; an unknown one is appended and gets the new last index; the vocabulary only grows at its end and stays duplicate-free |
| `HintsBuilder.Builder.LookupOrCreateVocabId` | clang_delta/HintsBuilder.cpp:102-111 | the linear search moves the vocabulary and returns the id exactly as `Intern` says, and leaves the hints alone |
| `HintsBuilder.PatchAddedSpec` | clang_delta/HintsBuilder.cpp:37-49 | a non-positive length changes nothing; otherwise one patch with `R = L + Len` is appended, naming a vocabulary id (below the vocabulary size, holding the replacement) exactly when the replacement is non-empty; the builder invariant is kept |
| `HintsBuilder.Builder.AddPatch` | clang_delta/HintsBuilder.cpp:37-49 | the builder's fields become `PatchAdded` of the old ones |
| `HintsBuilder.HintFinished` | clang_delta/HintsBuilder.cpp:91-100 | an empty current hint commits nothing; otherwise it is appended to the hints and the current hint is reset |
| `HintsBuilder.HintFinishedValid` | clang_delta/HintsBuilder.cpp:91-100 | committing keeps the builder invariant (no empty hint, every patch non-empty with an existing id) |
| `HintsBuilder.Builder.FinishCurrentHint` | clang_delta/HintsBuilder.cpp:91-100 | the builder's fields become `HintFinished` of the old ones |
| `HintsBuilder.Reversed` | clang_delta/HintsBuilder.cpp:55 | element `i` of the result is element `n - 1 - i` of the input |
| `HintsBuilder.ReversedTwice` | clang_delta/HintsBuilder.cpp:55 | reversing twice restores the original order |
| `HintsBuilder.ReverseKeepsValid` | clang_delta/HintsBuilder.cpp:55 | reversing the hints keeps the builder invariant |
| `HintsBuilder.ReversedPairs` | clang_delta/HintsBuilder.cpp:55 | a relation between `xs` and reversed `ys` holds between reversed `xs` and `ys` |
| `HintsBuilder.Builder.ReverseOrder` | clang_delta/HintsBuilder.cpp:55 | only the hint list changes, and it becomes its reverse |
| `HintsBuilder.AddPatchesSpec` | clang_delta/HintsBuilder.cpp:37-49 | after a sequence of `AddPatch` calls, patch `k` of the new part covers the `k`-th positive-length edit, in order, and names its replacement exactly when it is non-empty; hints are untouched |
| `HintsBuilder.ScopeSpec` | clang_delta/HintsBuilder.cpp:17-19 | a hint scope that received no positive-length edit commits nothing, otherwise exactly one hint with one patch per such edit; the current hint is empty afterwards |
| `HintsBuilder.Builder.AddScopedHint` | clang_delta/HintsBuilder.cpp:17-19 | the patches added inside a scope followed by `FinishCurrentHint` move the builder as `Scope` says |
| `HintsBuilder.Builder.constructor` | clang_delta/HintsBuilder.cpp:21-23 | a new builder has an empty vocabulary, no hints and no current hint |
| `HintsBuilder.Builder.GetVocabularyJson` | clang_delta/HintsBuilder.cpp:57-69 | the loop builds exactly `RenderVocab` of the vocabulary: quoted strings joined by commas inside brackets |
| `HintsBuilder.PatchJson` | clang_delta/HintsBuilder.cpp:79-84 | one patch is written as `{"l":L,"r":R}` with `,"v":V` only when a value is present |
| `HintsBuilder.HintJsonOf` | clang_delta/HintsBuilder.cpp:75-86 | the loop over a hint's patches builds exactly its JSON line, patches in insertion order |
| `HintsBuilder.Builder.GetHintJsons` | clang_delta/HintsBuilder.cpp:71-89 | one line per committed hint, in order, each the hint's JSON line |
| `HintsBuilder.HintLinesParse` | clang_delta/HintsBuilder.cpp:71-89 | every line the builder prints parses back to the committed hint it came from |
| `HintJson.Decimal` | clang_delta/HintsBuilder.cpp:79 | numbers are printed as a non-empty run of decimal digits, a single digit exactly below ten |
| `HintJson.DecimalValue` | clang_delta/HintsBuilder.cpp:79 | the printed digits read back as the number |
| `HintJson.ParseNatDecimal` | clang_delta/HintsBuilder.cpp:79 | a printed number followed by a non-digit parses back to the number and the rest |
| `HintJson.ParsePatchRender` | clang_delta/HintsBuilder.cpp:79-84 | a printed patch parses back to the patch |
| `HintJson.ParsePatchItemsRender` | clang_delta/HintsBuilder.cpp:76-85 | a comma-joined non-empty list of printed patches parses back to the list |
| `HintJson.ParseHintRender` | clang_delta/HintsBuilder.cpp:86 | every printed hint line, with or without a type, parses back to exactly the hint |
| `HintJson.ParseVocabRender` | clang_delta/HintsBuilder.cpp:57-69 | the printed vocabulary parses back to the vocabulary when no string contains a quote (the printer does no escaping) |
| `HintJson.RenderUntypedHint` | clang_delta/HintsBuilder.cpp:86 | a hint without a type is printed as `{"p":[...]}` |
| `HintJson.RenderDeletion` | clang_delta/HintsBuilder.cpp:79-84 | a patch without a value is printed as `{"l":L,"r":R}` |
| `VocabTables.Intern` | cvise/passes/makefile.py:227-233 | `_get_vocab_id`: a known path keeps its id and the table is unchanged; a new path is appended and gets the last index; the id's entry is the path and the list only grows at its end |
| `VocabTables.VocabTable.GetVocabId` | cvise/passes/clangmodulemap.py:106-112 | the in-place `_get_vocab_id` moves the list and the dictionary exactly as `Intern` says |
| `VocabTables.ExtendsTransitive` | cvise/passes/makefile.py:227-233 | a table that extends one that extends a third extends the third |
| `Ordering.LessIrreflexive` | cvise/utils/hint.py:41-48 | no key is smaller than itself |
| `Ordering.LessTransitive` | cvise/utils/hint.py:41-48 | key order is transitive, so sorting by it is well defined |
| `Ordering.LessTotal` | cvise/utils/hint.py:41-48 | any two keys are equal or one is smaller: the order on `comparison_key` tuples is total |
| `Ordering.LexIrreflexive` | cvise/utils/hint.py:61-66 | no tuple of keys is lexicographically smaller than itself |
| `Ordering.LexTransitive` | cvise/utils/hint.py:61-66 | lexicographic order on tuples (the `Hint.comparison_key` tuple of patch keys) is transitive |
| `Ordering.LexTotal` | cvise/utils/hint.py:61-66 | lexicographic order is total |
| `Ordering.Insert` | cvise/utils/hint.py:557 | one step of the stable sort: the result holds the old elements plus `x`, one longer |
| `Ordering.InsertSorted` | cvise/utils/hint.py:557 | inserting into a key-sorted sequence keeps it key-sorted |
| `Ordering.SortBy` | cvise/utils/hint.py:557 | `sorted(s, key=...)` returns a permutation of `s` |
| `Ordering.SortBySortsBy` | cvise/utils/hint.py:557 | the result of `sorted` is in key order |
| `Ordering.AdjacentSorted` | cvise/utils/hint.py:548-555 | comparing neighbours only, as the `need_sort` scan does, is enough to know the whole sequence is sorted |
| `Ordering.InsertLast` | cvise/utils/hint.py:557 | an element no smaller than all others is placed last (stability) |
| `Ordering.SortBySorted` | cvise/utils/hint.py:561 | sorting an already sorted list leaves it unchanged (the sort is stable) |
| `HintModel.PatchKeys` | cvise/utils/hint.py:61-66 | the hint key's middle element is the tuple of its patches' keys, position by position |
| `HintModel.AbsentSortsFirst` | cvise/utils/hint.py:41-48 | an absent field becomes -1 and sorts before every present one; an empty patch's key is five -1s |
| `HintModel.IndexKeyInjective` | cvise/utils/hint.py:41-48 | the `-1 if None` encoding of an index field loses nothing |
| `HintModel.PatchKeyInjective` | cvise/utils/hint.py:41-48 | two patches with non-negative positions have equal keys exactly when they are equal |
| `HintModel.HintKeyInjective` | cvise/utils/hint.py:61-66 | two hints with non-negative positions have equal keys exactly when they are equal |
| `HintModel.PositionlessFirst` | cvise/utils/hint.py:589-602 | a patch without `left` sorts before every positioned one under the merge key |
| `HintModel.MergeKeyOrder` | cvise/utils/hint.py:589-602 | among positioned patches the merge key orders by ascending left, then descending right, then a deletion before a replacement (both directions) |
| `HintMerge.MergeOverlappingPatches` | cvise/utils/hint.py:564-586 | the merge loop computes the corrected fold `Merge(patches, false)` over the merge-key sort |
| `HintMerge.CoveredSnoc` | cvise/utils/hint.py:584-585 | appending a patch adds exactly its characters to those replaced |
| `HintMerge.CoveredPermutation` | cvise/utils/hint.py:567 | sorting does not change which characters are replaced |
| `HintMerge.MergeIntoShape` | cvise/utils/hint.py:568-585 | one merge step keeps the merged list well formed and pairwise disjoint |
| `HintMerge.MergeIntoCovers` | cvise/utils/hint.py:568-585 | one merge step (absorb and extend, or append) adds exactly the characters of the new patch |
| `HintMerge.MergeSortedShape` | cvise/utils/hint.py:567-586 | folding left-sorted well-formed patches gives well-formed, disjoint patches |
| `HintMerge.MergeSortedCovers` | cvise/utils/hint.py:567-586 | the fold replaces exactly the characters its inputs replace |
| `HintMerge.SortedByMergeKeyLeftsSorted` | cvise/utils/hint.py:589-602 | a merge-key sorted list of positioned patches is in order of left ends |
| `HintMerge.SortedWellFormed` | cvise/utils/hint.py:567 | sorting well-formed patches by the merge key gives well-formed patches in left order |
| `HintMerge.MergeSpec` | cvise/utils/hint.py:564-586 | over the corrected merge (see Left out): `_merge_overlapping_patches` returns non-overlapping patches: well formed, disjoint and in position order, and a character is replaced after merging exactly when some input patch replaced it (what each merged patch inserts is `MergeLeaders`) |
| `HintMerge.AsWrittenAgreesOnNonEmpty` | cvise/utils/hint.py:572-578 | on non-empty patches the source's overlap test and the corrected test produce the same fold |
| `HintMerge.OverlapTestsAgree` | cvise/utils/hint.py:572-578 | for a non-empty current patch starting at or after the previous one, "shares a character" and "starts before the previous end" coincide |
| `HintMerge.MergeAgreesOnNonEmpty` | cvise/utils/hint.py:564-586 | the source's merge and the corrected one agree whenever no patch is empty |
| `HintMerge.AsWrittenKeepsInsertionInsideDeletion` | cvise/utils/hint.py:572-578 | with the source's test, an insertion at 5 inside a deletion of `[0, 10)` stays a separate patch and the result is not disjoint; the corrected test absorbs it |
| `HintMerge.MergeExamples` | cvise/utils/hint.py:574-583 | touching patches stay separate; an overlapping patch extends the previous one; a nested one is absorbed |
| `HintMerge.MergeOrigins` | cvise/utils/hint.py:580-582 | every merged patch keeps the path, operation, value and hint of an input patch |
| `HintMerge.MergeEndsWithin` | cvise/utils/hint.py:580-582 | merging never extends a patch past the largest right end among the inputs |
| `HintMerge.DisjointChain` | cvise/utils/hint.py:564-586 | in the merged list every patch ends before any later one starts |
| `HintMerge.MergeIntoAbsorbed` | cvise/utils/hint.py:572-583 | a step that absorbs the new patch keeps the previous patch's path, operation, value, hint and start, and its end becomes the larger of the two ends |
| `HintMerge.MaxRightIsMax` | cvise/utils/hint.py:581-582 | the running end of a group is the largest right end among its patches, reached by one of them |
| `HintMerge.LeadersStep` | cvise/utils/hint.py:568-585 | one fold step keeps the leaders so far and adds the new patch exactly when it starts at or after every earlier end |
| `HintMerge.MergeSortedLeaders` | cvise/utils/hint.py:567-586 | over the sorted list, every merged patch keeps the origin and start of a leader (a patch no earlier patch reaches into), every leader is kept, and the last merged patch ends at the largest input end |
| `HintMerge.MergeLeaders` | cvise/utils/hint.py:564-586 | over the corrected merge (see Left out): the same for `_merge_overlapping_patches` on any input order: the first patch of each overlap group survives with its value, stretched over the group |
| `HintMerge.MergeOne` | cvise/utils/hint.py:564-586 | a single patch merges to itself |
| `HintMerge.MergeTwo` | cvise/utils/hint.py:567-583 | two patches merge by folding the later one in merge-key order into the earlier one |
| `HintMerge.MergeNested` | cvise/utils/hint.py:567-583 | over the corrected merge (see Left out): a patch nested in one that sorts before it is absorbed, and only the outer patch remains, in either input order |
| `HintMerge.MergeLeftmost` | cvise/utils/hint.py:567-583 | over the corrected merge (see Left out): of two patches sharing characters, the one starting first remains, stretched to the other's end, in either input order |
| `HintApply.Step` | cvise/utils/hint.py:298-325 | one loop iteration either continues with a cursor inside the file or stops with a conflict or failure |
| `HintApply.ApplyPatch` | cvise/utils/hint.py:298-325 | the loop body computes `Step` |
| `HintApply.ApplyHintPatchesToFile` | cvise/utils/hint.py:284-331 | over the corrected merge (see Left out): `_apply_hint_patches_to_file` computes `ApplyToFile`: merge, apply in order, copy the tail (its output bytes are `ApplyToFileContent`) |
| `HintApply.ApplyDelta` | cvise/utils/hint.py:307-321 | on success the output length is the input length plus inserted minus deleted bytes, and each pass's statistic changes by the size change of its own patches |
| `HintApply.StepDelta` | cvise/utils/hint.py:307-321 | one applied patch changes the output and its own pass's statistic by its size change, and no other pass's |
| `HintApply.ApplySucceeds` | cvise/utils/hint.py:302-305 | disjoint patches inside the file, in order, whose insertions resolve, pass every `assert` and apply |
| `HintApply.StepContinues` | cvise/utils/hint.py:302-308 | such a patch moves the cursor to its right end |
| `HintApply.MergeKeepsRefOk` | cvise/utils/hint.py:293 | merging keeps every patch's vocabulary references resolvable |
| `HintApply.ApplyToFileSucceeds` | cvise/utils/hint.py:284-331 | with the corrected merge, well-formed patches inside the file whose insertions resolve always apply |
| `HintApply.ApplyDeletions` | cvise/utils/hint.py:296-329 | applying disjoint deletions in order keeps exactly the bytes none of them covers |
| `HintApply.ApplyToFileDeletes` | cvise/utils/hint.py:284-331 | over the corrected merge (see Left out): pure deletions, in any order and however they overlap, leave exactly the bytes no deletion covers |
| `HintApply.AsWrittenMergeBreaksApply` | cvise/utils/hint.py:305 | after the source's merge, deleting `[0, 10)` together with an insertion at 5 fails the `start_pos <= p.left` assertion |
| `HintApply.CorrectedMergeApplies` | cvise/utils/hint.py:284-331 | with the corrected merge the same pair empties the 10-byte file and records -10 for the pass |
| `HintApply.DeleteAllDigits` | cvise/utils/hint.py:296-329 | the deletion alone empties the file and records -10 |
| `HintApply.SplicedCons` | cvise/utils/hint.py:307-324 | the splice from a cursor is the bytes up to the first patch, its insertion, then the splice of the rest from its right end |
| `HintApply.ApplyCons` | cvise/utils/hint.py:298-325 | the loop takes a placed patch by copying the bytes before it and its insertion and continuing from its right end |
| `HintApply.ApplyContent` | cvise/utils/hint.py:296-329 | applying sorted, disjoint, in-file patches whose insertions resolve writes the splice: every patch's range becomes its insertion and every other byte is copied |
| `HintApply.ApplyToFileContent` | cvise/utils/hint.py:284-331 | over the corrected merge (see Left out): for any well-formed in-file patches whose insertions resolve, the merged patches are placed and the output is their splice of the file |
| `HintApply.ApplyMergedToOne` | cvise/utils/hint.py:284-331 | over the corrected merge (see Left out): when the patches merge into one, the output is the bytes before it, its insertion and the bytes after it |
| `HintApply.InsertionOfOrigin` | cvise/utils/hint.py:313-321 | what a patch inserts and whether it resolves depend on its value, operation, bundle and hint, not its range |
| `HintApply.PlainInsertion` | cvise/utils/hint.py:313-321 | a patch without an operation inserts its value's vocabulary entry, and a deletion inserts nothing |
| `HintApply.NestedPatchDropped` | cvise/utils/hint.py:284-331 | over the corrected merge (see Left out): a patch nested in one that sorts before it changes nothing: the outer patch alone replaces its range, in either order |
| `HintApply.LeftmostPatchWins` | cvise/utils/hint.py:284-331 | over the corrected merge (see Left out): of two overlapping patches, the first one's value replaces both ranges, in either order |
| `HintApply.FooBarBazCuts` | cvise/tests/test_hint.py:153-182 | cutting "bar" out of "Foo bar baz" gives "Foo  baz", and putting "some" in its place gives "Foo some baz" |
| `HintApply.ReplaceWithShorter` | cvise/tests/test_hint.py:127-137 | replacing `[4, 13)` by "xyz" turns "Foo foobarbaz baz" into "Foo xyz baz" |
| `HintApply.ReplacementInsideDeletion` | cvise/tests/test_hint.py:153-166 | a replacement inside a deleted "bar" is dropped: "Foo  baz" |
| `HintApply.DeletionInsideReplacement` | cvise/tests/test_hint.py:169-182 | a deletion inside a replaced "bar" is dropped: "Foo some baz" |
| `HintApply.DeletionOfPrefixWins` | cvise/tests/test_hint.py:185-201 | at the same start the longer deletion wins over the replacement of its prefix: "Foo  baz" |
| `HintApply.LeftmostReplacementWins` | cvise/tests/test_hint.py:221-238 | of the overlapping replacements of "bc" and "cd" in "abcd", the leftmost wins: "afoo" |
| `HintApply.AbcdCut` | cvise/tests/test_hint.py:224-238 | replacing "bcd" of "abcd" by "foo" gives "afoo" |
| `HintSubtract.StopIndex` | cvise/utils/hint.py:484 | the inner loop stops at the first patch whose `right or 0` exceeds the query, every patch before it ending at or before it |
| `HintSubtract.StopIndexUnique` | cvise/utils/hint.py:484 | that stopping index is unique |
| `HintSubtract.InsertDistinct` | cvise/utils/hint.py:482 | adding one query keeps the queries strictly increasing, with exactly the old ones and the new one |
| `HintSubtract.SortedDistinct` | cvise/utils/hint.py:482 | `sorted(set(queries))` is strictly increasing with the same elements |
| `HintSubtract.MergeResolvable` | cvise/utils/hint.py:479 | merging keeps each subtrahend's value index inside its bundle's vocabulary |
| `HintSubtract.Advance` | cvise/utils/hint.py:484-491 | the inner loop moves the cursor to `StopIndex` and accumulates the shift of the patches passed |
| `HintSubtract.CalcPositionsMapping` | cvise/utils/hint.py:475-501 | the mapping has exactly the queried positions as keys, each mapped to `MapPosition` over the subtrahends as the corrected merge leaves them (see Left out) |
| `HintSubtract.PatchRefs` | cvise/utils/hint.py:433-437 | every patch of a hint is tagged with its bundle and hint index |
| `HintSubtract.SubtractHintList` | cvise/utils/hint.py:447-466 | each hint keeps its type and extra and gets its remapped, filtered patches; the hint count is unchanged |
| `HintSubtract.MappedPatchUnchanged` | cvise/utils/hint.py:453-457 | with nothing subtracted a patch maps to itself |
| `HintSubtract.SubtractNothing` | cvise/utils/hint.py:416-472 | subtracting no bundles returns the bundle unchanged when its patches pass the keep test |
| `HintSubtract.MapInsidePatch` | cvise/utils/hint.py:494-498 | a position inside a subtracted patch maps to where that patch's start maps |
| `HintSubtract.InsideSubtrahendCollapses` | cvise/utils/hint.py:458-465 | a patch lying inside one subtracted patch collapses to an empty range, kept exactly when it has an operation |
| `HintSubtract.MapAfterAll` | cvise/utils/hint.py:484-492 | a position after every subtracted patch shifts by their total size change |
| `HintSubtract.MapBeforeAll` | cvise/utils/hint.py:492-500 | a position before every subtracted patch does not move |
| `HintSort.SortEach` | cvise/utils/hint.py:544-557 | the first half of `sort_hints` treats each hint on its own, keeping the hint count |
| `HintSort.NeedsSort` | cvise/utils/hint.py:548-555 | the scan reports a needed sort exactly when the patches are not in key order |
| `HintSort.SortHintPatches` | cvise/utils/hint.py:544-558 | the early-exit scan and the sort together give the hint with its patches stably sorted by key, the rest of the hint unchanged |
| `HintSort.SortHintsOf` | cvise/utils/hint.py:542-561 | `sort_hints` leaves the bundle's names and vocabulary and replaces the hints by `SortedHints` |
| `HintSort.SortedHintsSpec` | cvise/utils/hint.py:542-561 | after sorting, the hints are a permutation of the patch-sorted hints, in `Hint.comparison_key` order, each with its patches in `Patch.comparison_key` order |
| `HintSort.SortEachSorted` | cvise/utils/hint.py:544-558 | every hint's patches end up in key order |
| `HintSort.SortHintsIdempotent` | cvise/utils/hint.py:542-561 | sorting twice is sorting once |
| `HintSort.GroupHintsByType` | cvise/utils/hint.py:504-518 | `group_hints_by_type` has one bundle per type, keyed in order of first occurrence, each with the bundle's names and vocabulary and exactly its type's hints in order |
| `HintSort.AbsentTypeHasNoHints` | cvise/utils/hint.py:504-518 | a type never seen has no hints |
| `HintSort.GroupingPartitions` | cvise/utils/hint.py:504-518 | the groups are keyed by distinct types, none is empty, and together they hold every hint exactly once |
| `PassStates.Subsegment.End` | cvise/passes/abstract.py:51-52 | the window `[index, end)` is `chunk` long and, in a valid state, lies inside the instances |
| `PassStates.CreateSubsegment` | cvise/passes/abstract.py:43-49 | no state exactly when the minimum chunk exceeds the instance count or the maximum chunk; otherwise a valid state at the minimum chunk whose index is its random start |
| `PassStates.AdvanceSubsegment` | cvise/passes/abstract.py:57-68 | `advance` keeps the state valid |
| `PassStates.SubsegmentOnSuccess` | cvise/passes/abstract.py:70-83 | `advance_on_success` ends when the chunk exceeds the new instance count, and otherwise keeps the state valid with the new count |
| `PassStates.AdvanceWithinChunk` | cvise/passes/abstract.py:57-68 | within one chunk size the window moves one position right, wrapping to 0; the chunk grows (or the walk ends) exactly after every position was visited |
| `PassStates.Walk` | cvise/passes/abstract.py:57-68 | `k` advances within one chunk size keep the chunk, start and instance count and count `k` more steps |
| `PassStates.WalkVisits` | cvise/passes/abstract.py:24-28 | from a fresh state the `k`-th window starts at `(start + k) mod positions`, and after the last position the chunk grows or the walk ends |
| `PassStates.VisitsEachOnce` | cvise/passes/abstract.py:24-28 | every window position of a chunk size is visited by exactly one step |
| `PassStates.Binary.ClippedEnd` | cvise/passes/abstract.py:118-119 | the window end is clipped to the instance count and not before the index |
| `PassStates.Binary.RealChunk` | cvise/passes/abstract.py:121-122 | the covered size is at most `chunk`, and positive and inside the instances in a valid state |
| `PassStates.CreateBinary` | cvise/passes/abstract.py:109-113 | no state exactly for zero instances; otherwise a valid state at index 0 over all instances |
| `PassStates.AdvanceBinary` | cvise/passes/abstract.py:124-135 | the walk ends exactly when the window reaches the end and the chunk cannot be halved; otherwise the instance count is kept and, before the end, the index moves by one chunk |
| `PassStates.BinaryOnSuccess` | cvise/passes/abstract.py:137-144 | no state for zero instances; an index still inside the new count keeps the state with the new count |
| `PassStates.BinaryAdvanceTerminates` | cvise/passes/abstract.py:124-135 | each advance halves the chunk or moves towards the end, so the walk terminates |
| `PassStates.BinaryTiles` | cvise/passes/abstract.py:124-135 | the windows of one chunk size tile the instances: the `k`-th starts at `k * chunk` |
| `PassStates.BinaryState.constructor` | cvise/passes/abstract.py:87-90 | the object holds the three given fields |
| `PassStates.BinaryState.Create` | cvise/passes/abstract.py:109-113 | the object version of `create` agrees with `CreateBinary` |
| `PassStates.BinaryState.Copy` | cvise/passes/abstract.py:115-116 | a fresh object with equal fields |
| `PassStates.BinaryState.Advance` | cvise/passes/abstract.py:124-135 | `advance` works on a fresh copy, leaves this object alone and agrees with `AdvanceBinary` |
| `PassStates.BinaryState.AdvanceOnSuccess` | cvise/passes/abstract.py:137-144 | stores the new instance count in place (unless it is zero) and returns this object or a fresh advanced copy, as `BinaryOnSuccess` says |
| `ClexDriver.Rank` | clex/driver.c:97-114 | names enumerate as bijective base-26 numerals; only the empty name has rank 0 |
| `ClexDriver.RankInjective` | clex/driver.c:97-114 | distinct lowercase names have distinct ranks |
| `ClexDriver.NextChar` | clex/driver.c:88-95 | `next_char` moves a letter one step round `a..z` and reports the wrap exactly for 'z' |
| `ClexDriver.Successor` | clex/driver.c:97-114 | the next name is a non-empty lowercase name |
| `ClexDriver.SuccessorRank` | clex/driver.c:97-114 | the next name ranks exactly one higher, so the enumeration visits every name once |
| `ClexDriver.SuccessorOfZs` | clex/driver.c:97-114 | trailing 'z's roll over to 'a's while the letter before them is bumped |
| `ClexDriver.NextName` | clex/driver.c:97-114 | the in-buffer right-to-left carry computes `Successor` |
| `ClexDriver.ShouldBeRenamed` | clex/driver.c:132-141 | `should_be_renamed` computes the renaming test `ShouldRename` |
| `ClexDriver.SameLengthOrder` | clex/driver.c:132-141 | between names of one length, `strcmp` order is enumeration order |
| `ClexDriver.ShorterNameMayNotReplace` | clex/driver.c:132-141 | the test compares with `strcmp` and not by enumeration: "ab" is not renamed to the shorter "b" |
| `ClexDriver.Interned` | clex/driver.c:143-170 | the identifier index holds each renamable text once, and nothing else |
| `ClexDriver.InternedFirstOccurrence` | clex/driver.c:143-170 | the index lists texts in order of first occurrence |
| `ClexDriver.TokenList.constructor` | clex/driver.c:39-42 | the token array starts empty with room for one token |
| `ClexDriver.TokenList.AddTok` | clex/driver.c:44-60 | `add_tok` appends exactly one token with the given text, no id, and start `end - yyleng`, doubling the array when full, and returns its index |
| `ClexDriver.TokenList.Clashes` | clex/driver.c:116-130 | the inner scan finds a clash exactly when some token has this text |
| `ClexDriver.TokenList.FindUnusedName` | clex/driver.c:116-130 | `find_unused_name` returns a name no token uses, and every name before it in the enumeration is used |
| `ClexDriver.TokenList.IndexToks` | clex/driver.c:143-170 | `index_toks` keeps the tokens, builds the interned index of renamable texts, and gives every renamable token the id of its text |
| `ClexDriver.TokenList.IndexOne` | clex/driver.c:146-168 | one step gives token `i` its id, interning its text if new, and changes no other token |
| `ClexDriver.TokenList.RmToks` | clex/driver.c:285-307 | `rm_toks` prints all tokens except the window from the `idx`-th non-blank token on, and exits OK exactly when that token exists |
| `ClexDriver.TokenList.HintsRmToks` | clex/driver.c:309-327 | one cut per run of `n` consecutive non-blank tokens, from the first one's start to the last one's end, in order |
| `ClexDriver.TokenList.Lookup` | clex/driver.c:153-160 | the inner search returns the index of the text, or -1 when absent |
| `ClexDriver.NonBlank` | clex/driver.c:290-298 | the non-blank tokens number as many as the count `which` reaches |
| `ClexDriver.RmToksRemovesWindow` | clex/driver.c:285-307 | `rm_toks` removes exactly the tokens from the window start up to its end |
| `ClexDriver.RmToksNothing` | clex/driver.c:285-307 | with no `idx`-th non-blank token, everything is printed |
| `ClexDriver.ModUnique` | clex/driver.c:318-320 | the ring-buffer slot `which % n` is the unique remainder |
| `Balanced.FirstEndingAt` | cvise/passes/balanced.py:64-70 | the first prefix match ending at the position, every earlier one ending elsewhere |
| `Balanced.StartOfSpec` | cvise/passes/balanced.py:98 | without a prefix an open bracket starts at itself; with one, a start exists exactly when a prefix match ends at the bracket, and then it is that match's start |
| `Balanced.GetTouchingPrefix` | cvise/passes/balanced.py:64-70 | the forward-only cursor finds the match touching the bracket, having skipped only matches ending before it |
| `Balanced.CreateHint` | cvise/passes/balanced.py:72-91 | no hint for a bad bracket or for an empty inside; otherwise untyped deletions in this file, with value 0 exactly in mode `All` with a replacement |
| `Balanced.CreateHintDeletes` | cvise/passes/balanced.py:72-91 | the hint removes the whole pair (`All`), its two brackets (`Only`) or what lies strictly between (`Inside`) |
| `Balanced.ScanInvariant` | cvise/passes/balanced.py:95-103 | the stack and hints of the scan keep their invariant over every prefix |
| `Balanced.HintsFromMatchedPairs` | cvise/passes/balanced.py:95-103 | every hint comes from an open bracket matched with a later close bracket with balanced bytes between; with a prefix, a match ends at the open bracket |
| `Balanced.StackKept` | cvise/passes/balanced.py:96-101 | over bytes that never close more than they open, the stack keeps what it held and grows by their depth |
| `Balanced.ScanGrows` | cvise/passes/balanced.py:96-103 | scanning further only appends pairs and hints |
| `Balanced.MatchedPairsFound` | cvise/passes/balanced.py:95-103 | conversely, every open bracket matched by a later close bracket with balanced bytes between, whose hint `create_hint` makes, is recorded with that hint |
| `Balanced.UnmatchedCloseIgnored` | cvise/passes/balanced.py:100 | a close bracket on an empty stack adds no hint |
| `Balanced.PatchesWithinFile` | cvise/passes/balanced.py:72-91 | every patch names the file and is a non-empty range inside it |
| `Balanced.ScanByte` | cvise/passes/balanced.py:96-103 | one loop iteration moves the stack and the hints as the scan step says |
| `Balanced.GenerateHintsForFile` | cvise/passes/balanced.py:54-103 | `_generate_hints_for_file` appends exactly the scan's hints |
| `Balanced.BaseVocabulary` | cvise/passes/balanced.py:37-40 | the replacement, if any, is vocabulary slot 0 |
| `Balanced.RelPaths` | cvise/passes/balanced.py:44-47 | the directory's relative paths, in order |
| `Balanced.DirPatchesWithinFiles` | cvise/passes/balanced.py:43-49 | every patch of a directory's hints names one of its files and lies inside it |
| `Balanced.GenerateHints` | cvise/passes/balanced.py:35-52 | `generate_hints` builds `GeneratedBundle`: replacement first, then one slot per file, the hints in file order |
| `Balanced.SingleFileReferences` | cvise/passes/balanced.py:35-52 | for a file, every value refers to the replacement's slot and every patch lies inside the file |
| `Balanced.DirectoryReferences` | cvise/passes/balanced.py:35-52 | for a directory, every value refers to the replacement's slot and every patch lies inside the file whose relative path its path slot holds |
| `MakefileParser.PySlice` | cvise/utils/makefileparser.py:38-46 | Python's slice clamps both bounds to the length, and is the plain slice when they are in range |
| `MakefileParser.Substr` | cvise/utils/makefileparser.py:38-46 | `substr` keeps the part inside the parent text, starting `begin` after it and ending `end` after it when given |
| `MakefileParser.SubstrLocated` | cvise/utils/makefileparser.py:38-46 | a part of text found at its location in the file is again found at its new location |
| `MakefileParser.SubstrOfSubstr` | cvise/utils/makefileparser.py:38-46 | a part of a part is the corresponding part of the whole |
| `MakefileParser.RStripLineEnd` | cvise/utils/makefileparser.py:84 | `rstrip(b'\r\n')` removes exactly the trailing newlines and carriage returns |
| `MakefileParser.RFind` | cvise/utils/makefileparser.py:85 | `rfind` gives the last occurrence, or -1 when there is none |
| `MakefileParser.JoinedSpacedOut` | cvise/utils/makefileparser.py:84-92 | joining continuations only turns the backslash (and a leading tab) into spaces: every byte stays where it was |
| `MakefileParser.JoinContinuations` | cvise/utils/makefileparser.py:80-92 | the first loop of `parse` computes `Joined` and changes no byte's position |
| `MakefileParser.SkipWord` | cvise/utils/makefileparser.py:159 | the end of a word is the first ASCII whitespace after it, or the end |
| `MakefileParser.WordSpans` | cvise/utils/makefileparser.py:159 | `split()` yields non-empty words in order, inside the text |
| `MakefileParser.Words` | cvise/utils/makefileparser.py:159 | each word is the bytes of its span |
| `MakefileParser.Find` | cvise/utils/makefileparser.py:161 | `find` returns -1 or a position at or after `start` where the word occurs |
| `MakefileParser.FindWordAfterSpaces` | cvise/utils/makefileparser.py:161-162 | searching for a word from the end of the previous one finds it where it is, so the `assert pos != -1` holds |
| `MakefileParser.SplitBySpaces` | cvise/utils/makefileparser.py:156-168 | `_split_by_spaces` computes `SpaceTokens` |
| `MakefileParser.SpaceTokensSpec` | cvise/utils/makefileparser.py:156-168 | each token is a located word without whitespace, the tokens follow one another, and a token records its preceding whitespace exactly when there is some |
| `MakefileParser.SkipShellSpaces` | cvise/utils/makefileparser.py:180-181 | the loop stops at the first byte `isspace()` rejects, or the end |
| `MakefileParser.ScanShellToken` | cvise/utils/makefileparser.py:189-212 | a token ends at whitespace outside quotes or at the end, always advances, and keeps at most the bytes it passed |
| `MakefileParser.ReadShellToken` | cvise/utils/makefileparser.py:186-212 | the inner token loop computes `ScanShellToken` |
| `MakefileParser.ReadShellSpaces` | cvise/utils/makefileparser.py:179-181 | the whitespace loop computes `SkipShellSpaces` |
| `MakefileParser.LocatedShellToken` | cvise/utils/makefileparser.py:184-215 | the token read at `begin` is located at `[begin, end)` with its preceding whitespace |
| `MakefileParser.SplitShellCmdLine` | cvise/utils/makefileparser.py:171-217 | `_split_shell_cmd_line` computes `ShellTokens` |
| `MakefileParser.ShellTokensAt` | cvise/utils/makefileparser.py:177-183 | no token is left once only whitespace remains; otherwise the next token follows the whitespace |
| `MakefileParser.ShellTokensSpec` | cvise/utils/makefileparser.py:171-217 | the shell tokens lie in order inside the text, each recording exactly the whitespace since the previous one |
| `MakefileParser.UnquotedShellToken` | cvise/utils/makefileparser.py:189-212 | a token without quotes is taken as it stands, up to the next whitespace |
| `MakefileParser.FindByte` | cvise/utils/makefileparser.py:125-128 | `find` of one byte returns its first index, or -1 |
| `MakefileParser.ToPaths` | cvise/utils/makefileparser.py:220-221 | every token becomes a path with the same location and preceding whitespace |
| `MakefileParser.RuleOf` | cvise/utils/makefileparser.py:122-141 | a parsed rule starts where the line starts, ends inside it (before a comment), and has no recipe or unclassified lines yet |
| `MakefileParser.RuleOfSome` | cvise/utils/makefileparser.py:122-131 | a line is a rule exactly when it does not start with a tab and has a colon before any `#` |
| `MakefileParser.ParseRuleLine` | cvise/utils/makefileparser.py:122-141 | `_parse_rule_line` computes `RuleOf` |
| `MakefileParser.RecipeOf` | cvise/utils/makefileparser.py:144-153 | a recipe line's location starts after the tab and the optional `@` |
| `MakefileParser.RecipeOfSome` | cvise/utils/makefileparser.py:144-153 | a line is a recipe line exactly when it starts with a tab and has a non-blank command after it |
| `MakefileParser.ParseRecipeLine` | cvise/utils/makefileparser.py:144-153 | `_parse_recipe_line` computes `RecipeOf` |
| `MakefileParser.LineTexts` | cvise/utils/makefileparser.py:95-99 | every line gets a location of its own length |
| `MakefileParser.LineTextsSpec` | cvise/utils/makefileparser.py:95-99 | the line locations are chained from 0 to the end of the file, and each line is the bytes at its location |
| `MakefileParser.ClassifySpec` | cvise/utils/makefileparser.py:96-111 | every line is accounted for exactly once; the rules follow one another and each spans its recipe and unclassified lines; the top-level unclassified lines are the lines before the first rule |
| `MakefileParser.ClassifyOne` | cvise/utils/makefileparser.py:100-111 | one line is a recipe line of the last rule, a new rule, an unclassified line of the last rule, or a top-level line |
| `MakefileParser.ClassifyLines` | cvise/utils/makefileparser.py:94-111 | the second loop of `parse` computes `Classify` |
| `MakefileParser.Chars` | cvise/utils/makefileparser.py:6-24 | target names are compared byte by byte |
| `MakefileParser.BuiltinTargetsSpec` | cvise/utils/makefileparser.py:114-115 | the built-in targets are exactly the built-in names some rule has as a target |
| `MakefileParser.PhonyTargetsSpec` | cvise/utils/makefileparser.py:116-117 | the phony targets are exactly the prerequisites of the rules with a `.PHONY` target |
| `MakefileParser.CollectTargets` | cvise/utils/makefileparser.py:113-117 | the third loop collects exactly those two sets |
| `MakefileParser.Parse` | cvise/utils/makefileparser.py:79-119 | `parse` computes `ParseSpec` of the file's contents |
| `MakefileParser.ParseSpecArranged` | cvise/utils/makefileparser.py:79-119 | the joined file keeps the original length, its lines are arranged among rules and top-level lines as above, and each top-level line is the bytes at its location |
| `MakefilePass.LocsToPatches` | cvise/passes/makefile.py:236-237 | `_locs_to_patches` gives one patch per location |
| `MakefilePass.LocsToPatchesSpec` | cvise/passes/makefile.py:236-237 | patch `k` deletes exactly location `k` of the makefile: same file, same bounds, no operation or value |
| `MakefilePass.LocsToPatchesAppend` | cvise/passes/makefile.py:236-237 | the patches of two location lists are the two patch lists one after the other, so the order is kept |
| `MakefilePass.LineEnd` | cvise/passes/makefile.py:182 | `.` stops at the first newline |
| `MakefilePass.AfterEqualsSpec` | cvise/passes/makefile.py:182 | every path the `=...` option pattern extracts is a newline-free part of the argument right after an `=` |
| `MakefilePass.GroupSpans` | cvise/passes/makefile.py:209-224 | the groups found among the first `n` arguments are index spans inside them |
| `MakefilePass.Slices` | cvise/passes/makefile.py:209-224 | each group is the slice of the arguments its span names |
| `MakefilePass.GetRemovableArgGroups` | cvise/passes/makefile.py:209-224 | `_get_removable_arg_groups` computes `RemovableArgGroups` |
| `MakefilePass.GroupSlicesSnoc` | cvise/passes/makefile.py:212-223 | argument `i` closes a pair with the pending two-token option, starts a pair, is dropped as blocklisted, or is a group of its own |
| `MakefilePass.GroupSpansSpec` | cvise/passes/makefile.py:209-224 | the groups are disjoint and in order; each is a lone argument that is neither a two-token option nor blocklisted, or a two-token option with the next argument whose pair is not blocklisted; and every such argument or pair is a group |
| `MakefilePass.Record` | cvise/passes/makefile.py:133-137 | `setdefault(...).extend(...)` keeps the dictionary well formed (keys in insertion order, no repeats) |
| `MakefilePass.HintsFor` | cvise/passes/makefile.py:139-145 | one hint per dictionary key |
| `MakefilePass.HintsForSpec` | cvise/passes/makefile.py:139-145 | hint `k` has the pass's type and deletes exactly the locations of key `k`, in order |
| `MakefilePass.CollectGroups` | cvise/passes/makefile.py:131-137 | recording groups keeps the dictionary well formed |
| `MakefilePass.RecordGroup` | cvise/passes/makefile.py:132-137 | one group's preceding spaces and locations are appended under its space-joined text |
| `MakefilePass.AppendHints` | cvise/passes/makefile.py:139-145 | the final loop appends `HintsFor` the dictionary, in key order |
| `MakefilePass.RecordGroups` | cvise/passes/makefile.py:131-137 | the loop over one command's groups computes `CollectGroups` |
| `MakefilePass.RecordCommands` | cvise/passes/makefile.py:128-137 | the loop over one rule's recipe records the groups of the compiler commands only |
| `MakefilePass.AddArgRemovalHints` | cvise/passes/makefile.py:124-145 | `_add_arg_removal_hints` appends `ArgRemovalHints` |
| `MakefilePass.CollectGroupsSpec` | cvise/passes/makefile.py:125-137 | the dictionary holds the group texts in first-occurrence order, each with all its locations |
| `MakefilePass.KeysInOrderSpec` | cvise/passes/makefile.py:125-137 | a text is a key exactly when some group has it |
| `MakefilePass.ArgRemovalHintsSpec` | cvise/passes/makefile.py:124-145 | one hint per distinct argument text; every removable group's text has one; each hint deletes every occurrence, with its preceding whitespace, in every compiler command |
| `MakefilePass.RecordGrows` | cvise/passes/makefile.py:157-160 | recording only adds: the key is present afterwards with the new locations |
| `MakefilePass.PathMentions` | cvise/passes/makefile.py:156-166 | the names of a rule header are recorded; the dictionary only grows, by exactly those names |
| `MakefilePass.OneDistinctTarget` | cvise/passes/makefile.py:153 | a rule has one distinct target name exactly when it has targets and all carry the first one's name |
| `MakefilePass.HeaderRule` | cvise/passes/makefile.py:151-166 | one rule header keeps the dictionary well formed and only adds |
| `MakefilePass.HeaderMentions` | cvise/passes/makefile.py:150-166 | the header loop yields a well-formed dictionary |
| `MakefilePass.Filter` | cvise/passes/makefile.py:168-169 | the kept keys are exactly those not dropped, still without repeats |
| `MakefilePass.Without` | cvise/passes/makefile.py:168-169 | popping keeps every other name and its locations and removes exactly the dropped ones |
| `MakefilePass.PopTargets` | cvise/passes/makefile.py:168-169 | the pop loop over built-in and phony targets computes `Without` |
| `MakefilePass.FirstKnown` | cvise/passes/makefile.py:184-197 | the search stops at the first possible path that is a known target, or finds none |
| `MakefilePass.ArgsMentions` | cvise/passes/makefile.py:180-197 | scanning arguments adds locations but never a new name |
| `MakefilePass.LineMentions` | cvise/passes/makefile.py:173-197 | one command line adds locations but never a new name |
| `MakefilePass.CommandMentions` | cvise/passes/makefile.py:173-197 | a recipe adds locations but never a new name |
| `MakefilePass.RecipeMentions` | cvise/passes/makefile.py:172-197 | the command loop only appends, never adding or removing a name |
| `MakefilePass.TargetMentions` | cvise/passes/makefile.py:148-197 | the dictionary turned into hints is well formed |
| `MakefilePass.RecordPaths` | cvise/passes/makefile.py:156-166 | the loop over targets or prerequisites computes `PathMentions` |
| `MakefilePass.RecordHeaders` | cvise/passes/makefile.py:150-166 | the header loop computes `HeaderMentions` |
| `MakefilePass.FindKnownPath` | cvise/passes/makefile.py:184-197 | the search loop computes `FirstKnown` |
| `MakefilePass.RecordArgs` | cvise/passes/makefile.py:180-197 | the argument loop computes `ArgsMentions` |
| `MakefilePass.RecordRecipeLines` | cvise/passes/makefile.py:173-197 | the recipe loop computes `CommandMentions` |
| `MakefilePass.AddTargetRemovalHints` | cvise/passes/makefile.py:148-206 | `_add_target_removal_hints` appends `TargetRemovalHints` |
| `MakefilePass.HeaderKeysSpec` | cvise/passes/makefile.py:150-166 | the header loop records exactly the names in some rule header |
| `MakefilePass.HeaderLocKept` | cvise/passes/makefile.py:150-197 | a location recorded in the header loop survives to the end unless its name is popped |
| `MakefilePass.SingleTargetRuleRemoved` | cvise/passes/makefile.py:153-154 | a rule with one distinct target that is neither built-in nor phony is deleted whole by that target's hint |
| `MakefilePass.PrereqMentionRemoved` | cvise/passes/makefile.py:162-166 | every prerequisite mention is deleted by its name's hint unless the name is built-in or phony |
| `MakefilePass.TargetMentionRemoved` | cvise/passes/makefile.py:155-160 | in a rule with several target names each target mention is deleted by its own hint |
| `MakefilePass.CommandOfTargetRemoved` | cvise/passes/makefile.py:174-178 | a command whose program is a target with a hint is deleted whole by that hint |
| `MakefilePass.ArgOfTargetRemoved` | cvise/passes/makefile.py:180-197 | an argument naming a target with a hint (directly or after `=`) is deleted by the first such name's hint, with a preceding two-token option |
| `MakefilePass.TargetRemovalHintsSpec` | cvise/passes/makefile.py:148-206 | one hint per name; the names are distinct and are exactly the header names that are neither built-in nor phony; each hint deletes all its name's mentions |
| `MakefilePass.GroupSpansOrdered` | cvise/passes/makefile.py:209-224 | the groups come out in argument order, none overlapping the next |
| `MakefilePass.GroupSpansSound` | cvise/passes/makefile.py:209-224 | every group found is a removable lone argument or a removable option pair |
| `MakefilePass.GroupSpansComplete` | cvise/passes/makefile.py:209-224 | every removable lone argument or option pair among the arguments is found |
| `MakefilePass.FilterTwice` | cvise/passes/makefile.py:168-169 | popping names one set after another is popping their union |
| `MakefilePass.WithoutOneMore` | cvise/passes/makefile.py:168-169 | popping one more name after a set is popping the enlarged set, so the loop's order does not matter |
| `MakefilePass.KnownProgramRecorded` | cvise/passes/makefile.py:174-178 | a command whose program is a known target has its whole line recorded under that target |
| `ClangModuleMap.SkipPathBytes` | cvise/passes/clangmodulemap.py:270 | `[^\s"]+` stops at the first whitespace or double quote |
| `ClangModuleMap.HeaderPathAtSpec` | cvise/passes/clangmodulemap.py:269-274 | with the keyword at a given position, `header\s+"([^\s"]+)"` matches exactly when a path is found there, and the path is the captured group |
| `ClangModuleMap.LastHeaderPath` | cvise/passes/clangmodulemap.py:269-274 | the greedy `.*` makes the rightmost keyword position with a match win; no path when no position matches |
| `ClangModuleMap.KindOf` | cvise/passes/clangmodulemap.py:236-247 | the branches in order: a module title line whatever the stack, and a header, use or closing-brace line only inside a module; a header line carries the pattern's path |
| `ClangModuleMap.ExtendOpen` | cvise/passes/clangmodulemap.py:233-234 | every open module is extended, none added or removed |
| `ClangModuleMap.ExtendOpenSpec` | cvise/passes/clangmodulemap.py:233-234 | each open module keeps its start and everything else and now ends at the current line's end |
| `ClangModuleMap.PopModule` | cvise/passes/clangmodulemap.py:236-245 | a closing brace removes exactly one open module from the stack |
| `ClangModuleMap.Step` | cvise/passes/clangmodulemap.py:228-247 | one line moves the file position past that line |
| `ClangModuleMap.ExtendOpenModules` | cvise/passes/clangmodulemap.py:233-234 | the loop over the stack computes `ExtendOpen` |
| `ClangModuleMap.ParseLine` | cvise/passes/clangmodulemap.py:228-247 | the body of the loop over lines computes `Step` |
| `ClangModuleMap.ParseFile` | cvise/passes/clangmodulemap.py:221-249 | `_parse_file` computes `ParseModuleMap` on the file's bytes |
| `ClangModuleMap.StepShape` | cvise/passes/clangmodulemap.py:228-247 | per line kind: open a module, add a header or a use to the innermost module, close it at this line, or record the line as unclassified |
| `ClangModuleMap.ExtendedGood` | cvise/passes/clangmodulemap.py:233-234 | extending the open modules keeps the reader's invariant |
| `ClangModuleMap.PushModuleGood` | cvise/passes/clangmodulemap.py:236-239 | opening a module after everything finished so far keeps the invariant |
| `ClangModuleMap.AddHeaderGood` | cvise/passes/clangmodulemap.py:240-241 | adding a header to the innermost module keeps the invariant |
| `ClangModuleMap.AddUseGood` | cvise/passes/clangmodulemap.py:242-243 | adding a use to the innermost module keeps the invariant |
| `ClangModuleMap.CloseModuleGood` | cvise/passes/clangmodulemap.py:244-246 | closing the innermost module at the brace line keeps the invariant |
| `ClangModuleMap.PopModuleGood` | cvise/passes/clangmodulemap.py:236-246 | a closed module joins its parent's submodules or the file's modules, and the invariant holds |
| `ClangModuleMap.StepGood` | cvise/passes/clangmodulemap.py:228-247 | one line of any kind keeps the invariant |
| `ClangModuleMap.ParseLinesGood` | cvise/passes/clangmodulemap.py:225-247 | after any lines the reader's state satisfies the invariant and its position is the length read |
| `ClangModuleMap.FinishGood` | cvise/passes/clangmodulemap.py:221-249 | attaching the still-open modules yields well-nested modules, in file order, inside what was read |
| `ClangModuleMap.ParseModuleMapWellFormed` | cvise/passes/clangmodulemap.py:221-249 | every module starts at its title line, ends at its closing brace or at the end of the file, nests its headers, uses and submodules in order inside itself, and lies in the file; the unclassified lines too lie in the file |
| `VocabTables.VocabTable.constructor` | cvise/passes/clangmodulemap.py:47-48 | a new table holds the fixed words and an empty path dictionary |
| `ClangModuleMapHints.HeaderHints` | cvise/passes/clangmodulemap.py:156-181 | the loop over headers only appends to the vocabulary, keeping it without repeats |
| `ClangModuleMapHints.UseHints` | cvise/passes/clangmodulemap.py:182-194 | one delete-use-decl hint per `use` line, deleting that line, in order |
| `ClangModuleMapHints.ModuleHints` | cvise/passes/clangmodulemap.py:115-198 | a module's hints only append to the vocabulary |
| `ClangModuleMapHints.SubmoduleHints` | cvise/passes/clangmodulemap.py:195-198 | the submodules' hints only append to the vocabulary |
| `ClangModuleMapHints.UnclassifiedHints` | cvise/passes/clangmodulemap.py:205-218 | one delete-line hint per unclassified line, deleting that line, in order |
| `ClangModuleMapHints.TopLevelHints` | cvise/passes/clangmodulemap.py:57-60 | the top-level modules' hints only append to the vocabulary |
| `ClangModuleMapHints.FileHints` | cvise/passes/clangmodulemap.py:53-61 | one file's hints only append to the vocabulary |
| `ClangModuleMapHints.FilesHints` | cvise/passes/clangmodulemap.py:52-61 | all files' hints only append to the vocabulary |
| `ClangModuleMapHints.InitialVocabulary` | cvise/passes/clangmodulemap.py:18-25 | the vocabulary starts as the six hint types, in index order, without repeats |
| `ClangModuleMapHints.CreateHintsForHeaders` | cvise/passes/clangmodulemap.py:156-181 | the loop computes `HeaderHints`, moving the vocabulary table accordingly |
| `ClangModuleMapHints.CreateHintsForUses` | cvise/passes/clangmodulemap.py:182-194 | the loop appends `UseHints` |
| `ClangModuleMapHints.CreateHintsForModule` | cvise/passes/clangmodulemap.py:115-198 | `_create_hints_for_module` appends `ModuleHints` and moves the table accordingly |
| `ClangModuleMapHints.CreateHintsForSubmodules` | cvise/passes/clangmodulemap.py:195-198 | the recursion over submodules appends `SubmoduleHints` |
| `ClangModuleMapHints.CreateHintsForUnclassifiedLines` | cvise/passes/clangmodulemap.py:205-218 | `_create_hints_for_unclassified_lines` appends `UnclassifiedHints` |
| `ClangModuleMapHints.CreateHintsForTopLevel` | cvise/passes/clangmodulemap.py:57-60 | the loop over top-level modules appends `TopLevelHints` |
| `ClangModuleMapHints.CreateHintsForFile` | cvise/passes/clangmodulemap.py:53-61 | one iteration of the loop over files appends `FileHints` |
| `ClangModuleMapHints.GenerateHints` | cvise/passes/clangmodulemap.py:43-63 | `generate_hints` returns `FilesHints` from the fixed vocabulary: the hints and the final vocabulary |
| `ClangModuleMapHints.DeletionHints` | cvise/passes/clangmodulemap.py:126-138 | one whole-module deletion per module, in order |
| `ClangModuleMapHints.InlineHints` | cvise/passes/clangmodulemap.py:140-159 | one title-and-brace removal per module, in order |
| `ClangModuleMapHints.NonModularHints` | cvise/passes/clangmodulemap.py:171-181 | one make-non-modular hint per header, deleting the header line, in order |
| `ClangModuleMapHints.Subtree` | cvise/passes/clangmodulemap.py:195-198 | a module's tree starts with the module itself |
| `ClangModuleMapHints.HeaderHintsByType` | cvise/passes/clangmodulemap.py:156-181 | the headers give exactly one make-non-modular hint each and otherwise only file references |
| `ClangModuleMapHints.ModuleHintsByType` | cvise/passes/clangmodulemap.py:115-198 | filtered by any hint type, a module's hints are what its tree calls for |
| `ClangModuleMapHints.ModuleHintsSpec` | cvise/passes/clangmodulemap.py:115-198 | a deletion for every empty module of the tree, an inlining for every other, the top-level module itself excepted; a make-non-modular hint per header and a delete-use-decl hint per use in the tree, all in tree order |
| `ClangModuleMapHints.TopLevelMembers` | cvise/passes/clangmodulemap.py:125 | a top-level module never gets a deletion or inlining hint for itself, but all its descendants are considered |
| `ClangModuleMapHints.HeaderFilerefs` | cvise/passes/clangmodulemap.py:156-170 | each header whose file exists gets one file reference naming its path, in order |
| `ClangModuleMapHints.ModuleFilerefs` | cvise/passes/clangmodulemap.py:115-198 | every header of the tree whose file exists gets one file reference, in tree order, whose extra index names the header's path in the final vocabulary |
| `ClangModuleMapHints.FilerefsForExtends` | cvise/passes/clangmodulemap.py:106-112 | growing the vocabulary at its end keeps every existing file reference pointing at its header |
| `ClangHints.Find` | cvise/passes/clanghints.py:192 | `bytes.index` returns a position at or after the start holding the byte |
| `ClangHints.FindFirst` | cvise/passes/clanghints.py:192 | the hit is the first such position, and a miss means there is none |
| `ClangHints.TrimEnd` | cvise/passes/clanghints.py:188 | `int()` ignores trailing whitespace: the trimmed end drops exactly the trailing ASCII spaces |
| `ClangHints.ParseIntDecimal` | cvise/passes/clanghints.py:188 | `int()` reads back a decimal number without leading zeros |
| `ClangHints.ReadVocabulary` | cvise/passes/clanghints.py:189-195 | the vocabulary loop computes `ReadVocab`, including its error when a NUL is missing |
| `ClangHints.ReadHintLines` | cvise/passes/clanghints.py:197-203 | the hint loop computes `ReadHints`, including its error on a line without newline or one that does not decode |
| `ClangHints.ReadHintsStops` | cvise/passes/clanghints.py:200-201 | a missing newline or an undecodable line ends the read with that error |
| `ClangHints.ReadHintsStep` | cvise/passes/clanghints.py:199-202 | one hint line read puts its hint in front of what the rest reads |
| `ClangHints.ParseClangDeltaHints` | cvise/passes/clanghints.py:180-204 | `parse_clang_delta_hints` computes `ParseHintStream`: blank output gives an empty bundle, and every failure is an error |
| `ClangHints.DecodeAll` | cvise/passes/clanghints.py:201 | one decoded hint per line, in order |
| `ClangHints.ReadVocabAt` | cvise/passes/clanghints.py:189-195 | NUL-terminated strings read back as those strings, stopping after the last NUL |
| `ClangHints.ReadHintsAt` | cvise/passes/clanghints.py:197-203 | newline-terminated lines up to the end read back as their decoded hints |
| `ClangHints.FindCount` | cvise/passes/clanghints.py:192 | `index` misses exactly when no such byte remains |
| `ClangHints.ReadVocabShape` | cvise/passes/clanghints.py:189-195 | reading the vocabulary fails exactly when fewer NUL bytes than its size remain, and otherwise yields that many strings without NUL |
| `ClangHints.ReadHintsCount` | cvise/passes/clanghints.py:197-203 | a successful read yields one hint per newline left |
| `ClangHints.ParseEmitted` | cvise/passes/clanghints.py:180-204 | round trip: the stream `clang_delta` emits (size, NUL-terminated strings, newline-terminated hint lines) parses back to its vocabulary and its decoded hints |
| `ClangHints.StdChoices` | cvise/passes/clanghints.py:75-80 | the user's non-empty standard alone; otherwise every known standard when iterating; otherwise one run without `--std=` |
| `ClangHints.BestIndex` | cvise/passes/clanghints.py:85-96 | the kept outcome is one that gave a bundle |
| `ClangHints.BestIndexSpec` | cvise/passes/clanghints.py:85-96 | `>=` keeps the last of the outcomes with the most hints; none is kept exactly when every outcome is an error |
| `ClangHints.GenerateHintsForStandard` | cvise/passes/clanghints.py:154-177 | a run that raises `ClangDeltaError` gives its error and is not `raised`; the output of a clean run is parsed, and `raised` holds exactly when that parse fails |
| `ClangHints.FirstRaising` | cvise/passes/clanghints.py:87-91 | the first choice whose clean output does not parse (a `ValueError` or `msgspec.DecodeError` that `except ClangDeltaError` does not catch); no earlier choice raises |
| `ClangHints.ConsiderStandard` | cvise/passes/clanghints.py:87-96 | one turn of the loop: `raised` exactly when this choice's parse raises, with that error; otherwise the kept standard and bundle move as `BestIndex` does over one more outcome |
| `ClangHints.ChooseStandard` | cvise/passes/clanghints.py:82-96 | the first parse error ends the loop and propagates with its message; when none occurs the loop keeps `BestIndex`'s standard and its bundle |
| `ClangHints.NewClangState` | cvise/passes/clanghints.py:71-120 | the parse error of the first choice whose clean output does not parse propagates; otherwise no standard exactly when every run raised `ClangDeltaError`, and else one of the choices whose run and parse succeeded, with at least as many hints as any such choice, and no later choice has as many |
| `ClangIncludeGraph.SplitByNullChar` | cvise/passes/clangincludegraph.py:194-201 | the cursor loop yields exactly `SplitNul` of the data |
| `ClangIncludeGraph.SplitNulTokens` | cvise/passes/clangincludegraph.py:194-201 | no token holds a NUL |
| `ClangIncludeGraph.SplitNulJoin` | cvise/passes/clangincludegraph.py:194-201 | the tokens joined with NULs, plus a final NUL if the data ends with one, give the data back: only separators are lost |
| `ClangIncludeGraph.SplitNulFirst` | cvise/passes/clangincludegraph.py:196-201 | the first NUL ends the first token, and the rest is split from after it |
| `ClangIncludeGraph.SplitByNullCharJoin` | cvise/passes/clangincludegraph.py:194-201 | the whole data splits into tokens that join back to it |
| `ClangIncludeGraph.SplitNulTerminated` | cvise/passes/clangincludegraph.py:194-201 | round trip: NUL-terminated strings split back into exactly those strings |
| `ClangIncludeGraph.KthModuloNElements` | cvise/passes/clangincludegraph.py:179-180 | the `j`-th command of job `k` is command `j * n + k`, and every command with that remainder is taken |
| `ClangIncludeGraph.KthAppend` | cvise/passes/clangincludegraph.py:179-180 | a new command joins job `k` exactly when its index is `k` modulo `n` |
| `ClangIncludeGraph.KthModuloNPartition` | cvise/passes/clangincludegraph.py:179-180 | the `n` jobs together take every command exactly once |
| `ClangIncludeGraph.KthModuloNOutside` | cvise/passes/clangincludegraph.py:179-180 | a job number outside `0 .. n-1` gets no command |
| `ClangIncludeGraph.FilterArgsLoop` | cvise/passes/clangincludegraph.py:183-191 | the loop that appends and pops computes `FilterArgs` |
| `ClangIncludeGraph.FilterArgsKept` | cvise/passes/clangincludegraph.py:183-191 | every kept argument comes from the input and is not removable |
| `ClangIncludeGraph.FilterArgsNothingRemovable` | cvise/passes/clangincludegraph.py:183-191 | with nothing removable every argument is kept, in order |
| `ClangIncludeGraph.FilterArgsDropsPair` | cvise/passes/clangincludegraph.py:189-190 | a removable argument right after a kept `-Xclang` removes both |
| `ClangIncludeGraph.FilterArgsDropsAlone` | cvise/passes/clangincludegraph.py:187-190 | a removable argument not after a kept `-Xclang` removes only itself |
| `ClangIncludeGraph.Distinct` | cvise/passes/clangincludegraph.py:71 | `set(...)` listed: no repeats and exactly the same elements |
| `ClangIncludeGraph.MergedVocabSpec` | cvise/passes/clangincludegraph.py:68-71 | the merged vocabulary is `@fileref` followed by every string of every job once, in byte order |
| `ClangIncludeGraph.VocabIndex` | cvise/passes/clangincludegraph.py:72 | the dictionary comprehension keeps the last index holding each string |
| `ClangIncludeGraph.RemapPatches` | cvise/passes/clangincludegraph.py:79-82 | each patch is remapped, in order |
| `ClangIncludeGraph.RemapPreservesStrings` | cvise/passes/clangincludegraph.py:77-83 | the remapped hint has type 0, keeps every range, and each index names the same string in the merged vocabulary as it did in the job's |
| `ClangIncludeGraph.RemapBundle` | cvise/passes/clangincludegraph.py:73 | each hint of a job is remapped, in order |
| `ClangIncludeGraph.MergedCovers` | cvise/passes/clangincludegraph.py:68-72 | every job's string has an index in the merged vocabulary |
| `ClangIncludeGraph.MergeJobBundlesSpec` | cvise/passes/clangincludegraph.py:66-74 | the merged bundle's vocabulary covers every job's, and its hints are the remapped hints of all jobs, each exactly once |
| `TransformationManagerModel.Dispatch` | clang_delta/TransformationManager.cpp:330-344 | success exactly for a successful parse, or an internal error when not generating hints; a success prints the hints or the transformed source and reports no error; otherwise the transformation's message, with the invalid-counter code for a too-large instance or to-counter |
| `TransformationManagerModel.Transformation.constructor` | clang_delta/Transformation.h:97-117 | a new transformation has no counter, no to-counter, no error and the given multiple-rewrites flag |
| `TransformationManagerModel.TransformationManager.constructor` | clang_delta/TransformationManager.cpp:429-445 | a new manager has no transformation, no counters and every flag off |
| `TransformationManagerModel.TransformationManager.SetTransformationCounter` | clang_delta/TransformationManager.h:59-62 | any counter is stored (the positivity `assert` is debug-only; `Verify` rejects a non-positive one) and nothing else changes |
| `TransformationManagerModel.TransformationManager.SetToCounter` | clang_delta/TransformationManager.h:64-67 | any to-counter is stored (the positivity `assert` is debug-only) and nothing else changes |
| `TransformationManagerModel.TransformationManager.Verify` | clang_delta/TransformationManager.cpp:349-371 | passes exactly when a transformation is chosen and it skips counters or the counter is positive and the to-counter is absent or not smaller; each failure has its message, and a counter failure sets the invalid-counter code |
| `TransformationManagerModel.TransformationManager.DoTransformation` | clang_delta/TransformationManager.cpp:295-345 | the options reach the transformation; a to-counter on a transformation without multiple rewrites fails with its message before parsing; query-only mode succeeds after parsing; otherwise the outcome is `Dispatch` of the parse's error state |
| `ClangReplaceFunctionDef.CollectSpec` | clang_delta/ReplaceFunctionDefWithDecl.cpp:331-344 | the count is the number of definitions not preserved; in range mode all of them are kept in order; otherwise the one whose 1-based number is the counter, if any |
| `ClangReplaceFunctionDef.ScopeCommits` | clang_delta/ReplaceFunctionDefWithDecl.cpp:251 | a hint scope with at least one positive-length edit commits exactly one hint covering those edits and leaves no open hint |
| `ClangReplaceFunctionDef.ScopeCloses` | clang_delta/ReplaceFunctionDefWithDecl.cpp:251 | a hint scope always leaves no open hint |
| `ClangReplaceFunctionDef.Range` | clang_delta/ReplaceFunctionDefWithDecl.cpp:318-323 | the 1-based inclusive range has `hi - lo + 1` definitions, none when `hi < lo` |
| `ClangReplaceFunctionDef.ScopesDownOrder` | clang_delta/ReplaceFunctionDefWithDecl.cpp:318-323 | rewriting from `hi` down to `lo` appends one hint per definition, the last definition's first |
| `ClangReplaceFunctionDef.RewrittenInOrder` | clang_delta/ReplaceFunctionDefWithDecl.cpp:301-327 | in range mode, after the reversal, hint `j` covers definition `counter + j`, up to the to-counter or to every definition for `INT_MAX`; no definitions means no hints |
| `ClangReplaceFunctionDef.ReplaceFunctionDefWithDecl.constructor` | clang_delta/ReplaceFunctionDefWithDecl.h:35-39 | a new transformation has counted nothing, kept nothing and chosen nothing |
| `ClangReplaceFunctionDef.ReplaceFunctionDefWithDecl.AddOneFunctionDef` | clang_delta/ReplaceFunctionDefWithDecl.cpp:331-344 | a preserved routine is skipped; otherwise it is counted, kept in range mode, and chosen in single mode when its number is the counter |
| `ClangReplaceFunctionDef.ReplaceFunctionDefWithDecl.CollectDefs` | clang_delta/ReplaceFunctionDefWithDecl.cpp:69-71 | the traversal calls `addOneFunctionDef` for each definition in order |
| `ClangReplaceFunctionDef.ReplaceFunctionDefWithDecl.DoRewriting` | clang_delta/ReplaceFunctionDefWithDecl.cpp:301-328 | single mode rewrites the chosen definition; range mode resolves `INT_MAX` to the count, rewrites from the to-counter down to the counter and then reverses the hints |
| `ClangReplaceFunctionDef.ScopesDownSplit` | clang_delta/ReplaceFunctionDefWithDecl.cpp:318-323 | the descending loop is the loop down to `lo + 1` followed by definition `lo` |
| `TsReplaceFunctionDef.Overlaps` | treesitter_delta/ReplaceFunctionDefWithDecl.cpp:43-45 | `max(starts) < min(ends)` holds exactly when both ranges are non-empty and each starts before the other ends |
| `TsReplaceFunctionDef.OverlapsSymmetric` | treesitter_delta/ReplaceFunctionDefWithDecl.cpp:43-45 | overlapping does not depend on the order of the two instances |
| `TsReplaceFunctionDef.TouchingDoNotOverlap` | treesitter_delta/ReplaceFunctionDefWithDecl.cpp:43-45 | ranges that only touch, or are apart, do not overlap |
| `TsReplaceFunctionDef.MakeInstance` | treesitter_delta/ReplaceFunctionDefWithDecl.cpp:141-166 | a constexpr match gives no instance; an out-of-line member is deleted whole from its template or definition start; a constructor loses its initializer list and body; otherwise the body is replaced by `;` |
| `TsReplaceFunctionDef.Instances` | treesitter_delta/ReplaceFunctionDefWithDecl.cpp:135-173 | matches with non-empty bodies give non-empty instances, in match order |
| `TsReplaceFunctionDef.DropOverlapping` | treesitter_delta/ReplaceFunctionDefWithDecl.cpp:170-171 | popping leaves a prefix of the kept list whose last entry does not overlap the new one |
| `TsReplaceFunctionDef.ResolveSpec` | treesitter_delta/ReplaceFunctionDefWithDecl.cpp:168-172 | the kept list holds only given instances, ends with the newest, and no two neighbours overlap |
| `TsReplaceFunctionDef.ResolveExample` | treesitter_delta/ReplaceFunctionDefWithDecl.cpp:168-172 | a body inside a larger match is evicted by the later, more detailed match |
| `TsReplaceFunctionDef.PrintAsHintMeaning` | treesitter_delta/ReplaceFunctionDefWithDecl.cpp:47-54 | a printed hint reads back with the instance's range, type 2 for a template and 1 otherwise, and value 0 (`;`) exactly when a semicolon is written |
| `TsReplaceFunctionDef.VocabularyLineParses` | treesitter_delta/ReplaceFunctionDefWithDecl.cpp:122 | the vocabulary line reads back as `;`, `regular`, `template-function` in that order, matching the indices hints use |
| `TsReplaceFunctionDef.PrintAll` | treesitter_delta/ReplaceFunctionDefWithDecl.cpp:175-176 | one hint line per kept instance, in order |
| `TsReplaceFunctionDef.BuildInstance` | treesitter_delta/ReplaceFunctionDefWithDecl.cpp:148-166 | the instance built for a match that is not constexpr is `MakeInstance`'s |
| `TsReplaceFunctionDef.PopOverlapping` | treesitter_delta/ReplaceFunctionDefWithDecl.cpp:170-171 | the pop loop computes `DropOverlapping` |
| `TsReplaceFunctionDef.ResolveSnoc` | treesitter_delta/ReplaceFunctionDefWithDecl.cpp:170-172 | one more instance evicts the overlapping tail and is appended |
| `TsReplaceFunctionDef.ProcessFile` | treesitter_delta/ReplaceFunctionDefWithDecl.cpp:127-177 | `processFile` prints the resolved instances of the matches |
| `TsReplaceFunctionDef.PrintInstances` | treesitter_delta/ReplaceFunctionDefWithDecl.cpp:175-176 | the print loop computes `PrintAll` |
| `TsRemoveFunction.InstanceOrder` | treesitter_delta/RemoveFunction.cpp:65-68 | `operator<` on instances is lexicographic on start byte, then end byte |
| `TsRemoveFunction.MatchName` | treesitter_delta/RemoveFunction.cpp:92-103 | a destructor's name, and only a destructor's, gets the `~` prefix |
| `TsRemoveFunction.DestructorGroupsApart` | treesitter_delta/RemoveFunction.cpp:100-102 | a destructor and a function with the same identifier fall into different groups |
| `TsRemoveFunction.NamesOf` | treesitter_delta/RemoveFunction.cpp:146-147 | the map's keys: every name seen, each once |
| `TsRemoveFunction.Group` | treesitter_delta/RemoveFunction.cpp:128-139 | each name seen maps to all its instances, in match order, and no other name is a key |
| `TsRemoveFunction.GroupHint` | treesitter_delta/RemoveFunction.cpp:152-159 | one name's hint has no type and one pure deletion per instance, in order |
| `TsRemoveFunction.NameOrderSpec` | treesitter_delta/RemoveFunction.cpp:142-148 | the sorted names are exactly the distinct names, each once, ordered by their instance vectors |
| `TsRemoveFunction.OutputSpec` | treesitter_delta/RemoveFunction.cpp:121-161 | one line per distinct name; each line reads back as the hint deleting all that name's instances; names with smaller instance vectors come first |
| `TsRemoveFunction.EmptyVocabulary` | treesitter_delta/RemoveFunction.cpp:116 | the vocabulary line is the empty JSON array |
| `TsRemoveFunction.PrintGroup` | treesitter_delta/RemoveFunction.cpp:152-159 | the printing loop writes exactly the JSON line of the name's hint |
| `TsRemoveFunction.GroupByName` | treesitter_delta/RemoveFunction.cpp:128-139 | the grouping loop computes `Group` and the names in first-seen order |
| `TsRemoveFunction.OrderNames` | treesitter_delta/RemoveFunction.cpp:144-148 | the names are the map's keys, sorted by instance vectors: a permutation of the distinct names |
| `TsRemoveFunction.PrintGroups` | treesitter_delta/RemoveFunction.cpp:150-160 | one line per name, in the given order |
| `TsRemoveFunction.ProcessFile` | treesitter_delta/RemoveFunction.cpp:121-161 | `processFile` prints `Output` of the matches |
| `TsRemoveFunction.SortByAgrees` | treesitter_delta/RemoveFunction.cpp:148 | sorting by two key functions that agree on every element gives the same order |
| `PassCache.Find` | cvise/utils/cache.py:34 | `mapping.get` misses exactly when the hash is not a key |
| `PassCache.FindAt` | cvise/utils/cache.py:34 | in a group without repeated hashes, each entry is what its hash finds |
| `PassCache.Without` | cvise/utils/cache.py:49 | `del` removes the hash and keeps every other key |
| `PassCache.WithoutSpec` | cvise/utils/cache.py:49 | removing a hash keeps the other entries in order, shrinks the group by one exactly when the hash was there, and changes no other lookup |
| `PassCache.WithoutFirst` | cvise/utils/cache.py:45-49 | removing the oldest entry drops exactly the first entry |
| `PassCache.Evicted` | cvise/utils/cache.py:41-45 | the hash itself when present, else the oldest entry of a full group; nothing is evicted exactly when the hash is new and the group is not full |
| `PassCache.GroupAddedSpec` | cvise/utils/cache.py:41-52 | after `add` the group stays well formed and within the bound, the hash finds the new item, and every other hash finds what it found before unless it was evicted |
| `PassCache.GroupAddedReplaces` | cvise/utils/cache.py:42-52 | re-adding a known hash keeps the group's size and hashes |
| `PassCache.GroupAddedEvictsOldest` | cvise/utils/cache.py:44-52 | adding a new hash to a full group drops the oldest entry and appends the new one |
| `PassCache.GroupOf` | cvise/utils/cache.py:39 | `setdefault` makes a missing pass group empty |
| `PassCache.LookupIn` | cvise/utils/cache.py:32-35 | no item for a pass list never seen, and a miss exactly when the group lacks the hash |
| `PassCache.AddedLookup` | cvise/utils/cache.py:32-52 | after `add`, `lookup` with the same passes and hash gives the new item, and other pass groups see no change |
| `PassCache.SingleGroupDirs` | cvise/utils/cache.py:17-52 | with a single pass group no more than `MAX_ITEMS_PER_PASS_GROUP` directories are live |
| `PassCache.AddedConsistent` | cvise/utils/cache.py:37-53 | `add` keeps every live directory owned by exactly one entry, given a directory never handed out before |
| `PassCache.LiveDirsAreItemDirs` | cvise/utils/cache.py:26-30 | the live directories are exactly the items' directories, so `__exit__` deletes them all |
| `PassCache.Cache.constructor` | cvise/utils/cache.py:19-21 | a new cache has no groups and no directories |
| `PassCache.Cache.Lookup` | cvise/utils/cache.py:32-35 | the cached path of the hash's item, or none when the group lacks it or does not exist |
| `PassCache.Cache.Add` | cvise/utils/cache.py:37-53 | the items become `ItemsAdded` with a fresh directory, the evicted entry's directory is deleted, and the cache stays consistent |
| `PassCache.Cache.Exit` | cvise/utils/cache.py:26-30 | every item's directory is deleted and every group forgotten |
| `PassCache.DeleteDirs` | cvise/utils/cache.py:27-29 | the deletion loop removes exactly the visited directories |
| `PassCache.ItemDirSet` | cvise/utils/cache.py:27-28 | the loop visits exactly the items' directories |
| `ByteLines.SkipSpaces` | cvise/utils/makefileparser.py:156-168 | skips exactly the ASCII whitespace `bytes.split()` splits on |
| `ByteLines.FirstLineLength` | cvise/passes/clangmodulemap.py:225 | binary file iteration's first line runs up to and including the first newline, or to the end |
| `ByteLines.ReadLinesConcat` | cvise/passes/clangmodulemap.py:225-227 | the lines put back together are the file |
| `ByteLines.ReadLinesShape` | cvise/passes/clangmodulemap.py:225-227 | no line is empty, and every line but the last ends with its only newline |

## Left out

- File and directory I/O: `store_hints` and `load_hints` (msgspec and zstd), the directory walk of `apply_hints` and `_take_rm_patch` (whole-file removal by an `rm` operation), and the reading and writing of files around `_apply_hint_patches_to_file`. The applier works on a byte buffer. Pasting another file's contents, together with the `_has_patches_from_other_hints` conflict check, is the `paste` parameter.
- Path normalisation: paths are compared as the bytes the vocabulary holds, and `Path(...)` spelling differences are not modelled.
- The makefile pass's `generate_hints`, `_add_file_level_hints` and `_add_fileref_hints`: they depend on the filesystem (which files exist, relative paths). The makefile parser reads its input from a byte string, not from a file.
- The directory walks and `_interesting_file` of the module map pass, and the `exists()` check on header paths, which is the `fileExists` parameter. Module and `use` identifiers are not modelled, because no hint uses them.
- Regular expressions are written out as predicates over bytes: the makefile option and blocklist patterns, and the module map patterns. The include graph pass's removable-argument pattern is the `removable` parameter.
- Running external programs is not modelled: `clang_delta` for one standard is the `run` parameter (its `Err` stands for a `ClangDeltaError`: timeout, failed subprocess, non-zero exit code), and decoding one JSON hint line is the `decode` parameter. The include graph multiplex pass (`_get_makefiles_from_hints`, `_get_all_makefile_commands`, its `_get_vocab_id` and the tool runs) is also left out. Only the helpers it composes are modelled.
- Clang and tree-sitter analysis: AST visits, query matches and rewriter edits are inputs, given as function definitions with their edits, matches with their node ranges, and parse error states. `Transformation.cpp` (`checkCounterValidity`, the output routines) is not part of this model. `TransformationManagerModel.TransformationManager.DoTransformation` takes the error state parsing leaves as its `parsed` parameter, and its output is a tag naming which text is printed.
- `ClangReplaceFunctionDef`: the source only asserts (`TransAssert`) that the counter and the to-counter do not exceed the number of definitions; the model states this as a precondition of range mode.
- Logging, timing and the `ClangState` wrapper in `new()`; only the choice of standard is modelled.
- The cache's key `repr([passes])` is an opaque pass list, the temporary directory manager is a counter handing out fresh directory numbers, and `copy_test_case` is the `contents` parameter.
- `TsRemoveFunction.ProcessFile`: `std::sort` is not stable, so two names whose instance vectors are equal may come out in either order. The model sorts stably from the map's order, and `TsRemoveFunction.OutputSpec` promises only the order the source guarantees.
- `MakefileParser.ScanShellToken`: inside double quotes, the source compares a byte (an `int`) with a tuple of one-character strings (makefileparser.py:200-208). The backslash-escape branch therefore never fires, and a backslash inside quotes is kept as it is. The model follows the code, so escapes are not honoured.
- Patches built by the passes set a `file=` field, while `Patch` in hint.py names that field `path`. The model treats both as the patch's file index.
- `HintSort.SortHintPatches`: `sort_hints` updates `bundle.hints` in place; the model returns the new bundle.
- `HintSubtract.CalcPositionsMapping`: the inserted length is `len(vocab[value])` even for a paste patch, whose real insertion is a file's contents. The model does the same.
- `HintSubtract.CalcPositionsMapping`: maps positions over the corrected merge, while the source calls its own `_merge_overlapping_patches` (hint.py:479). With subtrahends deleting `[0, 10)` and inserting "x" at `[5, 5)`, the source keeps the insertion and maps 10 to 1; the model absorbs it and maps 10 to 0. The two agree whenever no subtrahend is empty (`HintMerge.MergeAgreesOnNonEmpty`).
- `HintSubtract.PathOf`: a path index outside the vocabulary gives `None`, the default file, where the source raises `IndexError` (hint.py:425, 436, 451). Bundles the passes build always name an existing slot.
- `ClangHints.ParseInt`: Python's `int()` also accepts digits grouped by underscores (`b'1_0'` is 10); the model returns `None` for them. clang_delta never prints such numbers.
- `TransformationManagerModel.TransformationManager.SetTransformationCounter` and `SetToCounter` follow a release build, where the `assert(Counter > 0)` is compiled out. A debug build would abort on a non-positive counter from `--counter` (ClangDelta.cpp:171).
- In-place updates of merged patches: `_merge_overlapping_patches` replaces `prev.patch` on the reference object (hint.py:582), which the caller's list also holds. The model builds new values, so that aliasing is not captured.
- Fixed-width integers: clex token positions and clang_delta's `int` counters are modelled as unbounded integers, since no operation modelled here comes near overflow. `INT_MAX` is kept as the constant `2147483647`, the to-counter value that means "all".
- `ClexDriver`: `realloc` failure and the flex scanner itself are not modelled; the scanned tokens are inputs, and the token texts are strings rather than `char` buffers.
- `HintMerge.MergeSpec`: proved of the corrected merge `Merge(_, false)` (see Findings), not of `_merge_overlapping_patches` as written. The source's merge keeps an empty patch that lies strictly inside another one separate, for example an insertion at `[5, 5)` inside a deletion `[0, 10)`, and `_apply_hint_patches_to_file` then raises at hint.py:305. When no patch is empty the two merges agree (`HintMerge.MergeAgreesOnNonEmpty`), so the fact holds of the source as written.
- `HintMerge.MergeLeaders`: proved of the corrected merge `Merge(_, false)` (see Findings), not of `_merge_overlapping_patches` as written. The source's merge keeps an empty patch that lies strictly inside another one separate, for example an insertion at `[5, 5)` inside a deletion `[0, 10)`, and `_apply_hint_patches_to_file` then raises at hint.py:305. When no patch is empty the two merges agree (`HintMerge.MergeAgreesOnNonEmpty`), so the fact holds of the source as written.
- `HintMerge.MergeNested`: proved of the corrected merge `Merge(_, false)` (see Findings), not of `_merge_overlapping_patches` as written. The source's merge keeps an empty patch that lies strictly inside another one separate, for example an insertion at `[5, 5)` inside a deletion `[0, 10)`, and `_apply_hint_patches_to_file` then raises at hint.py:305. When no patch is empty the two merges agree (`HintMerge.MergeAgreesOnNonEmpty`), so the fact holds of the source as written.
- `HintMerge.MergeLeftmost`: proved of the corrected merge `Merge(_, false)` (see Findings), not of `_merge_overlapping_patches` as written. The source's merge keeps an empty patch that lies strictly inside another one separate, for example an insertion at `[5, 5)` inside a deletion `[0, 10)`, and `_apply_hint_patches_to_file` then raises at hint.py:305. When no patch is empty the two merges agree (`HintMerge.MergeAgreesOnNonEmpty`), so the fact holds of the source as written.
- `HintApply.ApplyHintPatchesToFile`: proved of the corrected merge `Merge(_, false)` (see Findings), not of `_merge_overlapping_patches` as written. The source's merge keeps an empty patch that lies strictly inside another one separate, for example an insertion at `[5, 5)` inside a deletion `[0, 10)`, and `_apply_hint_patches_to_file` then raises at hint.py:305. When no patch is empty the two merges agree (`HintMerge.MergeAgreesOnNonEmpty`), so the fact holds of the source as written.
- `HintApply.ApplyToFileContent`: proved of the corrected merge `Merge(_, false)` (see Findings), not of `_merge_overlapping_patches` as written. The source's merge keeps an empty patch that lies strictly inside another one separate, for example an insertion at `[5, 5)` inside a deletion `[0, 10)`, and `_apply_hint_patches_to_file` then raises at hint.py:305. When no patch is empty the two merges agree (`HintMerge.MergeAgreesOnNonEmpty`), so the fact holds of the source as written.
- `HintApply.ApplyToFileDeletes`: proved of the corrected merge `Merge(_, false)` (see Findings), not of `_merge_overlapping_patches` as written. The source's merge keeps an empty patch that lies strictly inside another one separate, for example an insertion at `[5, 5)` inside a deletion `[0, 10)`, and `_apply_hint_patches_to_file` then raises at hint.py:305. When no patch is empty the two merges agree (`HintMerge.MergeAgreesOnNonEmpty`), so the fact holds of the source as written.
- `HintApply.ApplyMergedToOne`: proved of the corrected merge `Merge(_, false)` (see Findings), not of `_merge_overlapping_patches` as written. The source's merge keeps an empty patch that lies strictly inside another one separate, for example an insertion at `[5, 5)` inside a deletion `[0, 10)`, and `_apply_hint_patches_to_file` then raises at hint.py:305. When no patch is empty the two merges agree (`HintMerge.MergeAgreesOnNonEmpty`), so the fact holds of the source as written.
- `HintApply.NestedPatchDropped`: proved of the corrected merge `Merge(_, false)` (see Findings), not of `_merge_overlapping_patches` as written. The source's merge keeps an empty patch that lies strictly inside another one separate, for example an insertion at `[5, 5)` inside a deletion `[0, 10)`, and `_apply_hint_patches_to_file` then raises at hint.py:305. When no patch is empty the two merges agree (`HintMerge.MergeAgreesOnNonEmpty`), so the fact holds of the source as written.
- `HintApply.LeftmostPatchWins`: proved of the corrected merge `Merge(_, false)` (see Findings), not of `_merge_overlapping_patches` as written. The source's merge keeps an empty patch that lies strictly inside another one separate, for example an insertion at `[5, 5)` inside a deletion `[0, 10)`, and `_apply_hint_patches_to_file` then raises at hint.py:305. When no patch is empty the two merges agree (`HintMerge.MergeAgreesOnNonEmpty`), so the fact holds of the source as written.
- `MakefileParser.ToPaths`: bytes that are not valid UTF-8 are not modelled. `tok.value.decode()` in `_to_paths` (makefileparser.py:221) raises `UnicodeDecodeError` on such a token, where the model goes on with the bytes and returns a result.
- `MakefilePass.RecordCommands`: bytes that are not valid UTF-8 are not modelled. `recipe_line.program.value.decode()` (makefile.py:129) raises `UnicodeDecodeError` on such a program name, where the model goes on with the bytes and returns a result. The allowlist is then searched in the decoded `str`, where `\b` also counts non-ASCII letters as word characters; the model's `IsWordByte` counts only ASCII letters, digits and `_`.
- `MakefilePass.ArgsMentions`: bytes that are not valid UTF-8 are not modelled. `path_bytes.decode()` (makefile.py:185) raises on an argument with `UnicodeDecodeError`, where the model goes on with the bytes and returns a result.
- `MakefilePass.LineMentions`: bytes that are not valid UTF-8 are not modelled. `recipe_line.program.value.decode()` (makefile.py:174) and `path_bytes.decode()` (makefile.py:185) raise on a program or an argument with `UnicodeDecodeError`, where the model goes on with the bytes and returns a result.
- `MakefilePass.FindKnownPath`: bytes that are not valid UTF-8 are not modelled. `path_bytes.decode()` (makefile.py:185) raises on a candidate path with `UnicodeDecodeError`, where the model goes on with the bytes and returns a result.
- `MakefilePass.RecordArgs`: bytes that are not valid UTF-8 are not modelled. `path_bytes.decode()` (makefile.py:185) raises on an argument with `UnicodeDecodeError`, where the model goes on with the bytes and returns a result.
- `MakefilePass.RecordRecipeLines`: bytes that are not valid UTF-8 are not modelled. `recipe_line.program.value.decode()` (makefile.py:174) raises on a program name with `UnicodeDecodeError`, where the model goes on with the bytes and returns a result.
- `ClangModuleMap.HeaderPathAtSpec`: bytes that are not valid UTF-8 are not modelled. `m.group(1).decode()` (clangmodulemap.py:273) raises on a header path with `UnicodeDecodeError`, where the model goes on with the bytes and returns a result.
- `ClangModuleMap.LastHeaderPath`: bytes that are not valid UTF-8 are not modelled. `m.group(1).decode()` (clangmodulemap.py:273) raises on a header path with `UnicodeDecodeError`, where the model goes on with the bytes and returns a result.
- `ClangModuleMap.KindOf`: bytes that are not valid UTF-8 are not modelled. `m.group(1).decode()` (clangmodulemap.py:254, 273, 281) raises on a module, header or `use` name with `UnicodeDecodeError`, where the model goes on with the bytes and returns a result.
- `ClangIncludeGraph.SplitByNullChar`: bytes that are not valid UTF-8 are not modelled. `data[start:sep].decode()` (clangincludegraph.py:200) raises on a piece with `UnicodeDecodeError`, where the model goes on with the bytes and returns a result.
- `ClangIncludeGraph.FilterArgsLoop`: bytes that are not valid UTF-8 are not modelled. `arg.value.decode()` (clangincludegraph.py:186) raises on an argument with `UnicodeDecodeError`, where the model goes on with the bytes and returns a result.
- `HintSort.GroupHintsByType`: a hint whose type index lies outside the vocabulary is excluded by the precondition `TypesResolvable`, where `bundle.vocabulary[h.type]` (hint.py:508) raises `IndexError`. The type is an `Option<nat>`, while hint.py:57 declares `int | None`, so a negative index, which Python reads from the end of the vocabulary, is not modelled either.

## Findings

| source | as written | input that shows it | evidently intended | confidence | as-written member | corrected member |
|---|---|---|---|---|---|---|
| cvise/utils/hint.py:572-578 | `_merge_overlapping_patches` absorbs a patch only when `max(lefts) < min(rights)`, so an empty insertion patch strictly inside an earlier deletion stays separate, and `_apply_hint_patches_to_file` then fails `assert start_pos <= p.left` (hint.py:305) and raises | a 10-byte file with a deletion `[0, 10)` and an insertion `[5, 5)` with a value | an edit inside a deleted range is absorbed by it (test `cur.left < prev.right`), so applying never fails | not executed | `HintApply.AsWrittenMergeBreaksApply` | `HintApply.CorrectedMergeApplies` |
