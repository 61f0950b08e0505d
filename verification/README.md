# cJSON and the hooking engine, modelled and proved in Dafny

Two independent parts of the repository are modelled.

**The JSON part** (`dep/cJSON`). Trees are a datatype (`Json`), and what a tree stands for is a value with maps for
objects (`Denote`). Operations that relink list nodes work on heap nodes (`Items`, `SortList`, `ChildRing`, `OpenRing`,
`Duplicate`); the printer, the parser and the in-place filters are classes and methods over arrays and cursors
(`PrintBuffer`, `ParseBuffer`, `Minify`, `PointerText`), each equal to a function over texts (`PrintText`, `ParseText`,
...). Above these stand JSON Pointer (`Pointer`), JSON Patch (`JsonPatch`, `PatchMeaning`, `PatchRemoval`, `PatchDiff`,
`PatchReach`) and Merge Patch (`MergePatch`, `MergeMeaning`, `MergeInverse`, `MergeShapes`, `PlainKeys`), related to
functions that follow RFC 6901, RFC 6902 and RFC 7396. Sorting an object in place can leave its ring of children open,
and appending goes by that ring: `Rings` is what the list operations do to it, `RingTree` holds trees that remember it,
and `PatchRings`, `PatchRuns`, `SortedInPlace`, `MergeRings` and `PatchDocument` say what patches do to such trees;
`JsonPatch` and `MergePatch` have what they do while appending appends, and `PatchStatus` what each status says.
`Rfc8259`, `StringCode` and `StrictString` set the strings that are read against RFC 8259; `JsonGrammar`, `GrammarReads`,
`GrammarWritten` and `JsonDocument` do so for whole texts with their blanks. `PrintLayout` says where a print puts its
own, `JsonFilter` and `MinifyMeaning` what is left when a filter takes them out. Characters stand for unsigned bytes,
C strings for sequences without NUL.

**The hooking part** (`src/kndetours`). Code is a sequence or a map of bytes. `JumpEncoding` has the jumps that are
written; `X86Relocation` and `Prologue` copy instructions of 64-bit x86 and say what they mean, `InstructionSize` how
long they are by the manual, and `FunctionEnd` which of them are moved; `Transaction` is the state machine of begin,
attach, detach, commit and abort, with a class whose methods equal its steps; `HookCalls`, `HookIdentity`,
`LongPrologue`, `HookChain`, `HookRuns`, `HookMany` and `HookTwice` prove what runs of calls and transactions do, and
`SuspendedThreads` where threads go on that stand in the code meanwhile. `TrampolinePool` and `Trampolines` are the
allocator, `Placement` the bounds it is given. `Arm64Machine`, `Arm64Relocation` and `Arm64Branches` copy ARM64
branches, on a small machine that executes what is written.

Where the code and its own description differ, the model follows the code, and says so as a lemma:

- Unescaping a pointer token in place does not undo escaping for every key (`PointerText.DecodeUndoesEncode`).
- Removal by path ignores letter case in the case-sensitive calls too. When it takes out what it should is
  `PatchRemoval.RemoveAgreesExactly`; `PatchRemoval.RemoveTakesTheWrongKey` and `BothSpellings` are inputs.
- The merge patch generator walks in the order of `strcmp` through keys sorted without regard to case, and takes keys for
  the same that differ in case only. For which keys a generated patch leads from one tree to another is
  `MergeShapes.InvertsExactly`; `MergeShapes.UpperCaseLosesAKey` is an input that loses a member.
- Digits of `\u` that are none read as zero instead of failing, `\u0000` ends the string, and bare control characters are
  taken. When the reader is that of RFC 8259 is `StrictString.ParseFollowsRfc`; `StrictString.BadDigitsAreTaken` is an input.
- Every control character is taken for a blank, and leading zeros for digits. What is taken besides the texts of RFC 8259
  is `JsonDocument.StrictExactly`.
- The minifier takes the second of two backslashes for the start of an escaped quote. When that changes the result is
  `Minify.MinifyFollowsRfc`; `Minify.EscapedBackslashMisreads` is an input.
- Sorting an object keeps the ring of its children only when the first child's name comes before all others and the last
  one's behind all others (`SortList.SortObject`). Appending to an open ring links nothing or cuts children off, and
  says that it succeeded (`OpenRing.SortThenAdd`). The test operation and both generators sort the trees that they are
  given. When a run of patches does what RFC 6902 says nevertheless is `PatchRuns.RunFollowsExactly`;
  `SortedInPlace.TestLosesTheNewMember`, `TestLosesAnOldMember`, `GeneratorLosesTheNewMember` and
  `MergeRings.GeneratorLosesTheMergedMember` are inputs.
- The opcode E0, in the code a "jmp eax", is `loopne` in the manual; a function is taken to end behind it
  (`FunctionEnd.PreparedExactly`).
- The jump behind the moved instructions can run over the bytes saved for the detach. When attaching and detaching is the
  identity is `HookIdentity.AttachThenDetachIsIdentity`; `LongPrologue.LongPrologueIsSpoilt` is an input.
- Three bits note where a moved instruction ended. Which suspended threads go on at the wrong place is
  `SuspendedThreads.AttachMovesThreads` and `DetachMovesThreads`; `SuspendedThreads.EightBytesAreSkipped` is an input.
- A live trampoline that goes on inside its own region does not keep the region (`Trampolines.TargetInRegionIsMissed`).
- Of two attaches in one transaction the later one is not entered when the functions are the same or overlap. When both
  are entered is `HookTwice.BothEnteredExactly`; `HookTwice.SecondAttachIsNotEntered` is the case of one function.
- An ARM64 branch on x17, or on a condition that always holds, is lost in the longer forms
  (`Arm64Branches.CopyGoesRightExactly`).

## Model

| member | source | states |
|---|---|---|
| CStrings.CompareZero | dep/cJSON/cJSON_Utils.c:83-109 | comparing gives zero exactly for names that are equal up to the case that is ignored |
| CStrings.CompareFlip | dep/cJSON/cJSON_Utils.c:83-109 | exchanging the two strings flips the sign |
| CStrings.CompareTransitive | dep/cJSON/cJSON_Utils.c:83-109 | the order of names is transitive, and strict when one of the steps is |
| CStrings.BeforeExactly | dep/cJSON/cJSON_Utils.c:83-109 | a name comes before another exactly when, up to the case that is ignored, it is a proper prefix or has the smaller byte at the first difference |
| CStrings.DecimalRoundTrip | dep/cJSON/cJSON_Utils.c:198-299 | reading a printed array index gives the index back |
| CStrings.DecimalFromFront | dep/cJSON/cJSON_Utils.c:274-299 | each digit counts for as many powers of ten as digits follow it |
| MergeSort.SortPermutes | dep/cJSON/cJSON_Utils.c:484-593 | sorting neither loses nor repeats an entry |
| MergeSort.SortSorts | dep/cJSON/cJSON_Utils.c:484-593 | no entry of the sorted list comes after a later one |
| MergeSort.MergePermutes | dep/cJSON/cJSON_Utils.c:534-590 | merging keeps all entries of both lists |
| MergeSort.MergeSorts | dep/cJSON/cJSON_Utils.c:534-590 | merging two ordered lists gives an ordered one |
| MergeSort.FirstStays | dep/cJSON/cJSON_Utils.c:484-593 | the first entry stays in front exactly when its name comes before all others, since of equal names the later entry is taken first |
| MergeSort.LastStays | dep/cJSON/cJSON_Utils.c:484-593 | the last entry stays at the end exactly when its name comes behind all others |
| Rings.AppendedExactly | dep/cJSON/cJSON.c:2012-2043 | appending by the first child's prev appends exactly when the ring is closed; else the new item is not linked, or what is behind the child found is cut off |
| Rings.SortIsPick | dep/cJSON/cJSON_Utils.c:484-602 | sorting looks at the names alone: the sorted children stand at the positions of one permutation, which also moves the child that prev leads to |
| Rings.AppendAfterSort | dep/cJSON/cJSON.c:2012-2043 | after sorting a ring, appending appends exactly when the first child's name came before all others and the last child's behind all others; else nothing is linked, or all behind the old last child is lost |
| Rings.SortedPairTakesNothing | dep/cJSON/cJSON.c:2030-2040 | of the children b and a, sorted, neither is followed by c |
| Rings.SortedTripleLosesOne | dep/cJSON/cJSON.c:2030-2040 | of the children a, c and b, sorted, c is lost when d is appended |
| SortList.SortList | dep/cJSON/cJSON_Utils.c:484-593 | on the nodes themselves: the result is a chain with inverse neighbour links over exactly the same nodes, in sorted order; it ends because both halves are shorter; the first prev is that of the old head or NULL |
| SortList.SplitList | dep/cJSON/cJSON_Utils.c:508-525 | the walk of two cursors cuts the chain into two non-empty, disjoint chains at the middle |
| SortList.TestSorted | dep/cJSON/cJSON_Utils.c:496-506 | the early exit is taken exactly for a strictly ordered list |
| SortList.MergeLists | dep/cJSON/cJSON_Utils.c:534-590 | relinking merges two disjoint chains into one chain with the merged order |
| SortList.SortObject | dep/cJSON/cJSON_Utils.c:595-602 | for any first prev: the children are sorted, prev stays with the first child or is NULL; a ring survives exactly when the first child's name comes before all others and the last child's behind all others |
| SortList.TwoChildrenBreakTheRing | dep/cJSON/cJSON_Utils.c:595-602 | sorting the children b and a leaves no ring |
| ChildRing.GetArrayItem | dep/cJSON/cJSON_Utils.c:262-272 | the child at an index, or NULL past the end |
| ChildRing.AddItemToArray | dep/cJSON/cJSON.c:2012-2049 | for any first prev, and with true for success: the item goes behind the child that prev leads to, or is not linked when it leads to none; false, and no change, for NULL and for the array itself |
| OpenRing.SortThenAdd | dep/cJSON/cJSON_Utils.c:595-602 | on the nodes themselves, a sort and an append: it says true, and appends exactly when both ends were in their places; else nothing is linked, or all behind the old last child is lost |
| ChildRing.DetachItemViaPointer | dep/cJSON/cJSON.c:2243-2277 | for any first prev: detaching removes just that child and clears its links, hands prev to a new first child, and closes the ring when it takes the last; NULL when it hangs nowhere |
| ChildRing.DetachItemFromArray | dep/cJSON/cJSON_Utils.c:393-427 | detaching by index, nothing for an index outside |
| ChildRing.InsertItemInArray | dep/cJSON/cJSON.c:2319-2351 | inserting keeps the ring; an index past the end appends |
| ChildRing.InsertItemOrFail | dep/cJSON/cJSON_Utils.c:693-728 | the insertion of the patch code fails for an index past the end |
| ChildRing.ReplaceItemViaPointer | dep/cJSON/cJSON.c:2353-2400 | replacing keeps the ring, exchanges one child, and unlinks the old one; NULL for any of the three, or a parent without children, is an error that changes nothing |
| ChildRing.LinkChildren | dep/cJSON/cJSON.c:1492-1587 | stringing together new nodes, as parsing does, makes a ring of exactly these |
| Duplicate.DuplicateRec | dep/cJSON/cJSON.c:2774-2858 | the recursive copy is on new nodes only, holds in each what the original holds, but no reference flag, in the same order, with a ring at every level; it fails exactly when there are more levels than the limit leaves |
| Duplicate.DuplicateItem | dep/cJSON/cJSON.c:2767-2772 | duplicating, with recursion or without, fails exactly for NULL and for trees of more levels than the limit |
| Json.FindNameFirst | dep/cJSON/cJSON.c:1936-1966 | the lookup finds the first member of the name, and nothing only when there is none |
| Json.MembersMap | dep/cJSON/cJSON.c:1936-1966 | with unique keys the members are the map that they denote |
| Pointer.MatchEncoded | dep/cJSON/cJSON_Utils.c:120-154 | a name matches an encoded key followed by the end or a slash exactly when it is that key |
| Pointer.EncodedUnescapes | dep/cJSON/cJSON_Utils.c:157-196 | the two replacements of section 4 of RFC 6901, ~1 and then ~0, give an encoded key back |
| Pointer.SkipEncoded | dep/cJSON/cJSON_Utils.c:326-336 | skipping a token skips the encoded key and nothing of the next one |
| Pointer.IndexToken | dep/cJSON/cJSON_Utils.c:274-299 | an encoded token reads as the index that RFC 6901 gives it, modulo the size of size_t; the empty token reads as 0 |
| Pointer.LocateAgrees | dep/cJSON/cJSON_Utils.c:301-346 | a path leads to a node exactly when section 4 of RFC 6901 finds a value; the node denotes it, and exchanging the node exchanges the value; keys may differ in letter case only |
| Pointer.FindPointerIs | dep/cJSON/cJSON_Utils.c:198-259 | the search finds every node and returns the encoded path of its place |
| Pointer.LocateTokens | dep/cJSON/cJSON_Utils.c:301-346 | the path of a place leads back to it exactly when no key on the way is hidden by an earlier sibling |
| Pointer.PointerRoundTrip | dep/cJSON/cJSON_Utils.c:198-356 | looking up the pointer found for a node gives that node, exactly when no key above it is hidden |
| PointerText.ComparePointers | dep/cJSON/cJSON_Utils.c:120-154 | the loop over both strings decides whether the name matches the token |
| PointerText.DecodeArrayIndex | dep/cJSON/cJSON_Utils.c:274-299 | the loop gives the index with wrap-around, and refuses leading zeros and other characters |
| PointerText.GetItemFromPointer | dep/cJSON/cJSON_Utils.c:301-346 | the loop over tokens ends at the place that the lookup function gives |
| PointerText.FindPointerFromObjectTo | dep/cJSON/cJSON_Utils.c:198-259 | the recursive search gives the path of the search function |
| PointerText.PointerEncodedLength | dep/cJSON/cJSON_Utils.c:157-171 | the length is that of the encoded key |
| PointerText.EncodeStringAsPointer | dep/cJSON/cJSON_Utils.c:173-196 | exactly the reserved bytes are written, with the encoded key and a NUL |
| PointerText.DecodePointerInPlace | dep/cJSON/cJSON_Utils.c:359-390 | the two-cursor loop, byte by byte, on the buffer |
| PointerText.DecodeUndoesEncode | dep/cJSON/cJSON_Utils.c:359-390 | unescaping an escaped key gives the key back exactly for the keys that survive |
| PointerText.PlainSurvives | dep/cJSON/cJSON_Utils.c:359-390 | keys without '~' and '/' survive |
| PointerText.SlashDoesNotSurvive | dep/cJSON/cJSON_Utils.c:367-389 | "a/b" and "~x" do not survive, "x~" does |
| JsonCompare.CompareJsonTrees | dep/cJSON/cJSON_Utils.c:604-690 | the recursive comparison decides the comparison function |
| RingTree.CompareTrees | dep/cJSON/cJSON_Utils.c:604-690 | the recursive comparison with its loops leaves the first tree sorted as far as it has come, with the rings that sorting leaves |
| RingTree.CompareErases | dep/cJSON/cJSON_Utils.c:604-690 | its answer does not depend on the rings |
| RingTree.CompareKeeps | dep/cJSON/cJSON_Utils.c:604-690 | whatever it has sorted, the tree denotes what it did |
| RingTree.FreshIs | dep/cJSON/cJSON.c:2774-2858 | a duplicate has the same members in the same order, and closed rings |
| JsonCompare.SortedDenotes | dep/cJSON/cJSON_Utils.c:647-656 | sorting the members of an object orders them strictly and keeps its map |
| JsonCompare.CompareAgrees | dep/cJSON/cJSON_Utils.c:604-690 | two trees compare equal exactly when they denote the same value; with regard to case, keys may differ in letter case only |
| JsonPatch.DetachIsRemove | dep/cJSON/cJSON_Utils.c:430-481 | detaching by path removes and returns what the remove of RFC 6902 removes, and finds nothing exactly when there is nothing |
| JsonPatch.AddIsAdd | dep/cJSON/cJSON_Utils.c:951-1036 | adding by path is the add of RFC 6902: the same success, the same document, also beside keys that differ in letter case only |
| JsonPatch.RemoveThenAdd | dep/cJSON/cJSON_Utils.c:862-888 | taking a value out and adding another one at its path is setting it |
| PatchMeaning.ApplyIsRfc6902 | dep/cJSON/cJSON_Utils.c:807-1036 | while appending appends, every operation succeeds exactly when section 4 of RFC 6902 lets it, and leaves the document that it asks for, at the root where a value is given and on any path below; what is taken out must be found alike with regard to case and without |
| PatchMeaning.DecodesAs | dep/cJSON/cJSON_Utils.c:743-786 | the operation that is carried out is the one whose name, among the six of RFC 6902, the "op" member holds |
| PatchMeaning.MoveMeans | dep/cJSON/cJSON_Utils.c:890-932 | a move is a remove and an add of the removed value |
| PatchMeaning.CopyMeans | dep/cJSON/cJSON_Utils.c:890-932 | a copy is an add of the value that is found |
| PatchMeaning.TestMeans | dep/cJSON/cJSON_Utils.c:828-833 | a test succeeds exactly when the value found is the one given; what it does to the document is `PatchRings.TestFollows` |
| PatchMeaning.ReplaceMeans | dep/cJSON/cJSON_Utils.c:862-888 | a replace sets the value at a path that is there |
| PatchStatus.MalformedIsRefused | dep/cJSON/cJSON_Utils.c:815-830 | a patch without a text for a path has status 2, one whose "op" is none of the six words or no text has status 3, and the document stays as it is |
| PatchStatus.WordIsTaken | dep/cJSON/cJSON_Utils.c:743-786 | the operation is invalid exactly when the text is none of the six words |
| PatchStatus.ValueIsNeeded | dep/cJSON/cJSON_Utils.c:832-957 | without a value an add has status 7 and a test status 1; a replace has status 7 and has taken the old item out, or 13 when there was none |
| PatchStatus.SourceIsNeeded | dep/cJSON/cJSON_Utils.c:904-930 | without a source a move or copy has status 4, with one that is no text status 5 |
| PatchStatus.AddStatus | dep/cJSON/cJSON_Utils.c:959-1024 | status 9 for no parent or one that holds nothing, 11 for a token that is no index, 10 for an index behind the end, 0 otherwise |
| PatchStatus.NoSlashStatus | dep/cJSON/cJSON_Utils.c:959-981 | a path without a slash has no parent: status 9 for adding, and nothing to take out |
| PatchStatus.OtherStatus | dep/cJSON/cJSON_Utils.c:832-957 | status 13 for nothing to remove or replace, 5 for nothing to move or copy, and 0 or 1 for a test by whether the value found is the one given |
| PatchRemoval.RemoveAgreesExactly | dep/cJSON/cJSON_Utils.c:466-469 | a member is removed as RFC 6902 says exactly when the lookup that ignores case finds what the other one finds, also beside keys that differ in letter case only |
| PatchRemoval.RemoveTakesTheWrongKey | dep/cJSON/cJSON_Utils.c:466-469 | removing /A from {"a": null} takes out "a" in the case-sensitive call |
| PatchRemoval.BothSpellings | dep/cJSON/cJSON_Utils.c:466-469 | from {"a": 1, "A": 2}, removing /a takes out "a", and so does removing /A |
| PatchRings.AddFollows | dep/cJSON/cJSON_Utils.c:951-1036 | adding by path is the add of RFC 6902 exactly when the object that gets the member has a closed ring once its old member is deleted |
| PatchRings.ReplaceFollows | dep/cJSON/cJSON_Utils.c:862-888 | a replace follows RFC 6902 exactly when, besides, what is taken out is what the path names |
| PatchRings.MoveFollows | dep/cJSON/cJSON_Utils.c:890-932 | a move of what the path names follows RFC 6902 exactly when the ring that gets it is closed after the removal |
| PatchRings.TestFollows | dep/cJSON/cJSON_Utils.c:828-833 | a test answers as RFC 6902 has it and leaves a document that denotes the same, in another order and with other rings |
| PatchRings.ApplyFollowsExactly | dep/cJSON/cJSON_Utils.c:807-1036 | one patch on a tree with any rings does what section 4 of RFC 6902 says exactly when each object that it gives a member to has a closed ring by then, and what it takes out is what the path names |
| PatchRuns.RunFollowsExactly | dep/cJSON/cJSON_Utils.c:1038-1094 | a run of patches does at every step what RFC 6902 says exactly when these two hold at every step up to the first that fails |
| PatchRuns.SafeRunIsRfc6902 | dep/cJSON/cJSON_Utils.c:1038-1094 | such a run succeeds as a whole exactly when section 5 of RFC 6902 lets it, with the document that it asks for |
| PatchRuns.ApplyClosed | dep/cJSON/cJSON_Utils.c:807-1036 | on closed rings every patch but a test is safe and leaves closed rings |
| PatchRuns.RunClosed | dep/cJSON/cJSON_Utils.c:1038-1094 | so is every run without a test |
| SortedInPlace.TestThenAddExactly | dep/cJSON/cJSON_Utils.c:828-833 | testing an object and then adding a member to it does what RFC 6902 says exactly when the first key came before all others and the last key behind all others |
| SortedInPlace.TestLosesTheNewMember | dep/cJSON/cJSON_Utils.c:828-833 | {"b": 0, "a": 1}, tested against itself: "c" is then added with status 0 and is not there |
| SortedInPlace.TestLosesAnOldMember | dep/cJSON/cJSON_Utils.c:828-833 | {"a": 0, "c": 1, "b": 2}, tested against itself: adding "d" loses "c" with status 0 |
| PatchDiff.CreatePatches | dep/cJSON/cJSON_Utils.c:1141-1279 | the generator, with its loops over arrays and sorted members, gives the patches of the diff function |
| PatchDiff.CreateSurplusPatches | dep/cJSON/cJSON_Utils.c:1197-1213 | removes at one repeated index, or adds at the end |
| PatchDiff.NextMemberPatches | dep/cJSON/cJSON_Utils.c:1232-1271 | one turn of the walk takes the smaller key and leaves the rest of the diff |
| PatchDiff.NothingToPatchExactly | dep/cJSON/cJSON_Utils.c:1141-1279 | there are no patches exactly when the two trees compare equal |
| PatchDiff.ApplyConcat | dep/cJSON/cJSON_Utils.c:1038-1094 | applying patches one after the other, up to the first failure |
| PatchReach.DiffReaches | dep/cJSON/cJSON_Utils.c:1141-1279 | the patches for a subtree, applied to any document that has it at that path, turn it into the other subtree and leave the rest alone |
| PatchReach.DiffApplies | dep/cJSON/cJSON_Utils.c:1038-1309 | while appending appends, the generated patches, applied to any document equal to the first tree, succeed at every step and give the second |
| PatchRuns.DiffThenPatch | dep/cJSON/cJSON_Utils.c:1038-1309 | applying the generated patches to a tree with closed rings that is equal to the first one, as a duplicate of it is, succeeds at every step, gives the second, and leaves closed rings |
| SortedInPlace.GeneratorLosesTheNewMember | dep/cJSON/cJSON_Utils.c:1216-1219 | applying them to the first tree itself, which the generator has sorted: for {"b": 0, "a": 1} the added "c" is not there, with status 0 |
| PatchReach.MembersReach | dep/cJSON/cJSON_Utils.c:1216-1273 | the walk over two objects adds, removes and changes exactly what differs |
| PatchReach.ElemsReach | dep/cJSON/cJSON_Utils.c:1166-1213 | the patches for an array turn what is left of one into what is left of the other |
| PatchDocument.Document.DetachItem | dep/cJSON/cJSON_Utils.c:430-481 | the document changes only when an item is found, and then lacks just that |
| PatchDocument.Document.AddItem | dep/cJSON/cJSON_Utils.c:951-1036 | the value goes to its path, behind the child that the ring leads to |
| PatchDocument.Document.TestItem | dep/cJSON/cJSON_Utils.c:828-833 | the test sorts the document in place, also when it fails |
| PatchDocument.Document.ApplyOne | dep/cJSON/cJSON_Utils.c:807-1036 | the in-place patch step by step, on trees with rings, keeping what was done before a step failed |
| PatchDocument.Document.ApplyPatches | dep/cJSON/cJSON_Utils.c:1038-1094 | all patches in order on trees with rings, with status 1 for patches that are no array |
| MergePatch.MergePatchTrees | dep/cJSON/cJSON_Utils.c:1321-1379 | while appending appends, the recursive merge with its loop is the merge function |
| MergeRings.MergeClosed | dep/cJSON/cJSON_Utils.c:1321-1379 | on trees with closed rings merging is that function, and leaves closed rings |
| MergeRings.MergeTrees | dep/cJSON/cJSON_Utils.c:1321-1379 | the recursive merge with its loop, on trees with rings |
| MergeRings.MergeFollowsExactly | dep/cJSON/cJSON_Utils.c:1321-1379 | a merge into a tree with any rings gives every object, at every member of the patch, that member and nothing else new exactly when each object that gets a member, at any depth, has a closed ring by then; it is the merge function then |
| MergeRings.SafeMergeIsRfc7396 | dep/cJSON/cJSON_Utils.c:1321-1379 | so such a merge is the function of section 2 of RFC 7396 |
| MergePatch.GenerateMergePatch | dep/cJSON/cJSON_Utils.c:1391-1471 | the generator with its walk is the generating function, with a null for a second tree that is NULL; the calls below a common key ignore case |
| MergePatch.NextMergeMembers | dep/cJSON/cJSON_Utils.c:1415-1464 | one turn of the walk, which compares with strcmp |
| MergeMeaning.MergeIsRfc7396 | dep/cJSON/cJSON_Utils.c:1321-1379 | merging is the function of section 2 of RFC 7396 |
| MergeMeaning.DistinctMergeable | dep/cJSON/cJSON_Utils.c:1386-1389 | for the case-sensitive merge it is enough that no object repeats a key |
| MergeInverse.DifferenceInverts | dep/cJSON/cJSON_Utils.c:1391-1471 | merging the least difference gives the second value exactly when no null stands in the way |
| MergeInverse.GenerateDenotes | dep/cJSON/cJSON_Utils.c:1391-1471 | the generated patch is the least difference, and there is none exactly for equal objects |
| MergeInverse.GenerateMergeable | dep/cJSON/cJSON_Utils.c:1391-1471 | a generated patch confuses no lookup of the merge |
| MergeInverse.MergeInverts | dep/cJSON/cJSON_Utils.c:1321-1481 | merging the generated patch into a duplicate of the first tree gives the second exactly when no null stands in the way, where the keys sort as strcmp sorts them and are told apart wherever the code folds them |
| MergeRings.MergeInvertsClosed | dep/cJSON/cJSON_Utils.c:1321-1481 | the same on trees with rings: for a first tree with closed rings, taken before the generator sorts it |
| MergeRings.GeneratorLosesTheMergedMember | dep/cJSON/cJSON_Utils.c:1406-1407 | merging into the first tree itself, which the generator has sorted: for {"b": 0, "a": 1} the merged "c" is not there |
| MergeShapes.InvertsExactly | dep/cJSON/cJSON_Utils.c:1321-1481 | for any nested sets of keys: for every pair of trees over them whose second keeps its nulls, merging into a duplicate of the first gives the second, exactly when, wherever the generator, the merge or the comparison before it folds the keys, they sort as strcmp sorts them and are told apart |
| MergeShapes.FlatInvertsExactly | dep/cJSON/cJSON_Utils.c:1321-1481 | for objects of one level: always with regard to case, and without exactly when the keys sort alike both ways and no two differ in case only |
| MergeShapes.SwappedLosesAKey | dep/cJSON/cJSON_Utils.c:1406-1423 | any two keys in one order when folded and in the other for strcmp: the patch puts the second in and then takes out both |
| MergeShapes.FoldedLosesAKey | dep/cJSON/cJSON_Utils.c:1406-1464 | any two keys that differ in case only: the patch puts the second in over the first and then takes it out, and the comparison takes the two objects for the same |
| MergeShapes.BadAbove | dep/cJSON/cJSON_Utils.c:1443-1459 | a pair that is not inverted makes the objects that have it under a common key one |
| MergeShapes.UpperCaseLosesAKey | dep/cJSON/cJSON_Utils.c:1406-1423 | {"a": 1, "B": 1} to {"B": 1} generates "B" twice and loses it |
| PlainKeys.LowerCaseSameOrder | dep/cJSON/cJSON_Utils.c:1406-1423 | without upper-case letters the walk meets the keys in the order they are sorted in, at every depth |
| PlainKeys.LowerCaseMergeInverts | dep/cJSON/cJSON_Utils.c:1321-1481 | for different trees with unique lower-case keys, and no null member in the second, the generated patch turns a duplicate of the first into the second |
| PlainKeys.PlainKeysDiffable | dep/cJSON/cJSON_Utils.c:1141-1279 | trees whose keys hold no '~' and no '/' and do not differ in letter case only can be diffed |
| PrintText.ValueNulFree | dep/cJSON/cJSON.c:1418-1489 | a printed text holds no NUL |
| PrintLayout.PrintedIs | dep/cJSON/cJSON.c:1590-1881 | the formatted print has one line for each member, with a tab for each array and object around it, a tab behind each colon, and a space behind each comma of an array; the other print has no blanks |
| PrintLayout.PrintedGood | dep/cJSON/cJSON.c:949-1881 | either print is a text that RFC 8259 lets stand for the tree |
| PrintLayout.PrintsSqueezed | dep/cJSON/cJSON.c:1590-1881 | taking the blanks that stand outside strings out of either print gives the unformatted one, which has none |
| PrintBuffer.Printer.Ensure | dep/cJSON/cJSON.c:485-568 | room for so many bytes and one besides is there exactly when capacity allows; the text so far is kept by every growth path |
| PrintBuffer.Printer.UpdateOffset | dep/cJSON/cJSON.c:571-581 | the offset moves to the end of what was written |
| PrintBuffer.Printer.CountEscapes | dep/cJSON/cJSON.c:971-996 | the first loop counts exactly what escaping adds |
| PrintBuffer.Printer.PrintString | dep/cJSON/cJSON.c:949-1068 | the escaped string is written within the room asked for, and it succeeds exactly when it fits with two bytes to spare |
| PrintBuffer.Printer.PrintNumber | dep/cJSON/cJSON.c:591-658 | an int is printed in decimal, exactly when it fits with two bytes to spare |
| PrintBuffer.Printer.PrintArray | dep/cJSON/cJSON.c:1590-1649 | the loop over the children prints the text of the array, with the same exact bound |
| PrintBuffer.Printer.PrintObject | dep/cJSON/cJSON.c:1770-1881 | the loop over the members prints the text of the object, with the same exact bound |
| PrintBuffer.Printer.PrintValue | dep/cJSON/cJSON.c:1418-1489 | the text does not depend on the buffer or on how it grew, and printing succeeds exactly when every node can be printed and the text fits with two bytes to spare |
| PrintBuffer.Print | dep/cJSON/cJSON.c:1234-1310 | an array of just the size of the text and its NUL |
| PrintBuffer.PrintBuffered | dep/cJSON/cJSON.c:1312-1341 | the same text from any initial size; a negative one fails |
| PrintBuffer.PrintPreallocated | dep/cJSON/cJSON.c:1343-1360 | succeeds exactly when the tree can be printed and the length is at least that of the text and two |
| Unicode.ParseHex4 | dep/cJSON/cJSON.c:661-694 | four hexadecimal digits give their number, anything else zero |
| Unicode.EncodeUtf8 | dep/cJSON/cJSON.c:745-808 | writes the octets of a code point and nothing before them |
| Unicode.Utf16LiteralToUtf8 | dep/cJSON/cJSON.c:698-816 | how far a literal or a pair of them reaches, and its octets |
| Unicode.Utf8IsRfc3629 | dep/cJSON/cJSON.c:745-808 | the octets stand for just that character number by section 3 of RFC 3629, and no shorter sequence does |
| ParseBuffer.UnitsMonotone | dep/cJSON/cJSON.c:833-858 | the sizing count, started one character later, loses at most one and gains none |
| ParseBuffer.Utf16Fits | dep/cJSON/cJSON.c:698-816 | the octets of a literal fit what the sizing pass counted, even where the passes disagree on where an escape begins |
| ParseBuffer.Parser.Measure | dep/cJSON/cJSON.c:833-867 | the sizing loop finds the closing quote and counts the bytes to skip |
| ParseBuffer.Parser.Decode | dep/cJSON/cJSON.c:869-923 | for any bytes, no write passes the allocation, and the output is the decoded string and a NUL |
| ParseBuffer.Parser.ParseString | dep/cJSON/cJSON.c:819-946 | parsing a string with its allocation is the string reader |
| ParseBuffer.Parser.ParseArray | dep/cJSON/cJSON.c:1492-1587 | the loop over elements, with offset and depth, is the array reader; the depth is restored on success |
| ParseBuffer.Parser.ParseObject | dep/cJSON/cJSON.c:1652-1767 | the loop over members, with offset and depth, is the object reader; the depth is restored on success |
| ParseBuffer.Parser.ParseValue | dep/cJSON/cJSON.c:1363-1415 | the dispatch on the first characters is the value reader |
| ParseBuffer.ParseWithLength | dep/cJSON/cJSON.c:1142-1219 | the whole parse, with the byte order mark, the blanks and the required end |
| GrammarReads.WrittenIsRead | dep/cJSON/cJSON.c:1363-1767 | every value that is written by the grammar, with blanks around all structural characters, is read to its end with its tree, whatever stands around it, exactly when at most 1000 arrays and objects are nested |
| GrammarReads.StrictIsTaken | dep/cJSON/cJSON.c:819-1767 | what is written as sections 2 to 7 of RFC 8259 have it is among these |
| GrammarWritten.ReadIsWritten | dep/cJSON/cJSON.c:1363-1767 | whatever is read is such a value, with the tree that was read and within the nesting limit |
| JsonDocument.DocumentIsRead | dep/cJSON/cJSON.c:1085-1219 | a value between blanks, behind a byte order mark or not, is read as a whole up to the NUL that is asked for |
| JsonDocument.DocumentIsWritten | dep/cJSON/cJSON.c:1085-1219 | whatever text is taken is such a value between blanks, with a NUL behind it when one is asked for |
| JsonDocument.StrictDocumentIsRead | dep/cJSON/cJSON.c:1142-1219 | every text that RFC 8259 lets stand for a tree of ints, within the nesting limit and without \u0000, is read as that tree |
| JsonDocument.StrictExactly | dep/cJSON/cJSON.c:819-1767 | what is taken is a text of RFC 8259 exactly when its blanks are the four of the RFC, no number has leading zeros, and no string has a bare control character, \u0000 or a \u without four digits |
| StringCode.EscapedTextDecodes | dep/cJSON/cJSON.c:661-931 | any mix of plain bytes, simple escapes, \u literals and surrogate pairs reads as the plain bytes and the UTF-8 of the scalars |
| StringCode.LoneSurrogateFails | dep/cJSON/cJSON.c:716-742 | a surrogate without its other half makes the string fail, whatever surrounds it |
| StringCode.EscapesAgree | dep/cJSON/cJSON.c:882-903 | the letters behind a backslash, and what each stands for, are those of section 7 of RFC 8259 |
| StringCode.DigitsAgree | dep/cJSON/cJSON.c:661-696 | so are the digits behind \u and their values |
| StringCode.PairsAgree | dep/cJSON/cJSON.c:728-752 | every code point beyond the basic plane is read from the pair that section 2.1 of RFC 2781 writes for it |
| StringCode.HalvesAgree | dep/cJSON/cJSON.c:716-752 | and every pair that is read is one that it writes |
| StringCode.EscapeOneIs | dep/cJSON/cJSON.c:1010-1060 | the seven short escapes are written for their characters, \u00 and two digits for other control characters, and nothing else is escaped |
| StringCode.BadDigitsEndTheString | dep/cJSON/cJSON.c:681-684 | digits that are none read as zero, so the C string ends there, and what follows matters only if it makes the string fail |
| StringCode.StringReads | dep/cJSON/cJSON.c:819-1068 | reading a printed string gives the string back |
| StrictString.StringsAgree | dep/cJSON/cJSON.c:819-931 | from any place in a string that decodes, a reader by section 7 of RFC 8259 reads the same octets exactly when no bare control character, no \u0000 and no \u without four digits is met; else it refuses, or reads a NUL |
| StrictString.RfcIsRead | dep/cJSON/cJSON.c:819-931 | whatever that reader reads, the code reads |
| StrictString.PrintedIsStrict | dep/cJSON/cJSON.c:949-1068 | a printed string is one that section 7 of RFC 8259 reads, as the string that was printed |
| StrictString.ParseFollowsRfc | dep/cJSON/cJSON.c:661-931 | reading a string is that reader exactly when it fails or meets none of the three |
| StrictString.BadDigitsAreTaken | dep/cJSON/cJSON.c:681-684 | "\uZZZZ" is read as the empty string, where section 7 of RFC 8259 has no string |
| RoundTrip.NumberReads | dep/cJSON/cJSON.c:307-408 | reading a printed int gives the int back and stops behind it |
| RoundTrip.ValueReads | dep/cJSON/cJSON.c:1363-1881 | reading the print of a tree, at any place and depth, gives the tree and the place behind it, unless it is nested beyond the limit |
| RoundTrip.PrintThenParse | dep/cJSON/cJSON.c:819-1881 | parsing the formatted or unformatted print gives the same tree and ends where the text ends, exactly when its nesting is within the limit |
| Minify.SkipOnelineComment | dep/cJSON/cJSON.c:2860-2871 | on to the end of the line |
| Minify.SkipMultilineComment | dep/cJSON/cJSON.c:2873-2885 | behind the closing mark, or to the end of the text |
| Minify.MinifyString | dep/cJSON/cJSON.c:2887-2907 | a string is moved down unchanged, up to what is taken for its closing quote |
| Minify.MinifyInPlace | dep/cJSON/cJSON.c:2909-2955 | the in-place filter gives what the filter gives from an untouched copy, and ends |
| Minify.CompactStays | dep/cJSON/cJSON.c:2909-2955 | exactly a compact text is left unchanged |
| Minify.MinifiedIsCompact | dep/cJSON/cJSON.c:2909-2955 | the result is compact |
| Minify.MinifyIsIdempotent | dep/cJSON/cJSON.c:2909-2955 | a second pass changes nothing |
| Minify.CommentsGo | dep/cJSON/cJSON.c:2860-2885 | a comment goes up to and with the end of its line, or up to and with its closing mark; one without an end takes the rest along |
| Minify.SameLengthExactly | dep/cJSON/cJSON.c:2887-2907 | both readings give a string the same length exactly when no closing quote follows an escaped backslash, or it has no end |
| Minify.RestsAgree | dep/cJSON/cJSON.c:2887-2955 | from any place, in or outside a string for each reading, both write the same exactly when they read alike |
| Minify.MinifyFollowsRfc | dep/cJSON/cJSON.c:2887-2955 | the result is that of a filter with the strings of RFC 8259 exactly when no blank and no slash stands where one of the two readings is in a string and the other is not |
| Minify.LegibleFollowsRfc | dep/cJSON/cJSON.c:2887-2955 | so it is where no closing quote follows an escaped backslash |
| Minify.EscapedBackslashMisreads | dep/cJSON/cJSON.c:2887-2907 | a string that ends in an escaped backslash costs the next string its blanks, which a filter with the strings of RFC 8259 keeps |
| MinifyMeaning.MinifyKeepsMeaning | dep/cJSON/cJSON.c:2909-2955 | of a text of RFC 8259 the minifier leaves the same text without blanks exactly when no blank and no slash stands where one of the two readings is in a string and the other is not; parsing then gives the same tree, or the same failure |
| MinifyMeaning.MinifiedPrint | dep/cJSON/cJSON.c:2909-2955 | minifying either print of a tree gives its unformatted print exactly under the same condition |
| JumpEncoding.Int32RoundTrip | src/kndetours/Instruction.c:113-121 | reading the four bytes gives the number after the cast |
| JumpEncoding.BytesAndWrap | src/kndetours/Instruction.c:124-135 | the bytes tell two numbers apart exactly when the cast does |
| JumpEncoding.JmpImmediateIs | src/kndetours/Instruction.c:113-135 | the test recognizes a written jump up to four gigabytes, and the jump arrives exactly within reach |
| JumpEncoding.IsJmpImmediateExactly | src/kndetours/Instruction.c:113-135 | bytes that pass the test are the jump that would be written |
| JumpEncoding.JmpIndirectIs | src/kndetours/Instruction.c:139-178 | the same for the indirect jump and its vector |
| X86Relocation.SizeFollowsManual | src/kndetours/Disassembler.c:1088-1153 | the size by the flag table is the size by the manual's addressing forms |
| X86Relocation.CopyKeepsMeaning | src/kndetours/Disassembler.c:967-1271 | the copy of a plain, short-branch, rel32 or RIP-relative instruction means what the original means exactly when its new displacement fits in 32 bits |
| X86Relocation.MeaningStays | src/kndetours/Disassembler.c:1088-1183 | bytes behind an instruction change neither its length nor its meaning |
| X86Relocation.CopyIsInstruction | src/kndetours/Disassembler.c:1088-1271 | a copy is one instruction of just its own length |
| InstructionSize.DecodeBehind | src/kndetours/Disassembler.c:1185-1271 | behind any prefixes, in any order, the opcode decides, with the operand size, address size and REX.W that stand among them |
| InstructionSize.PlainSize | src/kndetours/Disassembler.c:1088-1183 | the size of an instruction without ModR/M is that of its opcode and its immediate or address: 2, 4 or 8 bytes by 66, 67 and REX.W |
| InstructionSize.AddressedSize | src/kndetours/Disassembler.c:1088-1183 | with ModR/M, behind 0F or not, it is that of the opcode, the address by the manual's rules, and the immediate |
| InstructionSize.AddressedMeans | src/kndetours/Disassembler.c:1126-1175 | such an instruction is taken for relative exactly in the form with mod 0 and r/m 5, by the 32 bits behind ModR/M |
| InstructionSize.ShortJumpMeans | src/kndetours/Disassembler.c:1211-1271 | a short jump goes by its last byte, with a sign, from behind it, as its long form does |
| InstructionSize.NearJumpMeans | src/kndetours/Disassembler.c:1088-1183 | a jump or call with 32 bits goes by them from behind it, behind 0F or not |
| Prologue.CopyLoop | src/kndetours/Transaction.c:331-363 | the loop moves the instructions of the recursive function and notes their ends in rAlign, in three bits and five |
| Prologue.MoveInstructions | src/kndetours/Transaction.c:331-420 | both loops and the checks behind them, with the status of every failure and the debug break for copies that do not fit |
| Prologue.LayOut | src/kndetours/Transaction.c:404-432 | the record is filled in the order of the code: copies, size, saved bytes, and the jump behind the copies over whatever is there |
| Prologue.HeadRestores | src/kndetours/SlimDetours.inl:60-95 | the saved bytes are what was taken exactly when the jump ends before them or holds the bytes that it spoils |
| Prologue.SpilledIs | src/kndetours/SlimDetours.inl:60-95 | no byte for up to 26 moved bytes, then one to four, which are zeros and for 30 start with 36 |
| Prologue.HeadRuns | src/kndetours/SlimDetours.inl:60-95 | the copies and the whole jump stand at the front of the record, wherever the jump ends |
| Prologue.MovedRuns | src/kndetours/Transaction.c:333-363 | moved instructions have the effect of the original ones, for whatever instructions do, and go on behind themselves |
| Prologue.TrampolineKeepsMeaning | src/kndetours/Transaction.c:333-436 | executing the trampoline's code and its jump has the effect of executing the prologue and going on behind what was taken |
| FunctionEnd.PreparedExactly | src/kndetours/Transaction.c:333-420 | by the bytes: behind no moved instruction but the last a function may end, the moved ones go up to one where it may or to byte 5, listed paddings follow up to there, and too few bytes in all are refused, each status exactly when it is due |
| FunctionEnd.PreparedFrom | src/kndetours/Transaction.c:333-385 | such instructions and paddings there are whenever the bytes tell |
| FunctionEnd.ShortFunctionIsRefused | src/kndetours/Transaction.c:395-401 | attaching to a function that may end before byte 5, with no padding behind it, is refused and changes nothing |
| FunctionEnd.LoneRetIsRefused | src/kndetours/Instruction.c:331-345 | so it is for a ret of one byte with another function behind it |
| Transaction.Engine.TransactionBegin | src/kndetours/Transaction.c:22-69 | a transaction is opened, or refused while one is open |
| Transaction.Engine.AttachHook | src/kndetours/Transaction.c:272-474 | the step of attaching: nothing but a trampoline and a pending operation, or a status and no change |
| Transaction.Engine.DetachHook | src/kndetours/Transaction.c:478-538 | the step of detaching: a pending operation, or a status and no change |
| Transaction.Engine.CommitOperation | src/kndetours/Transaction.c:145-199 | one operation: patch, restore or bypass, with the pointer variable |
| Transaction.Engine.TransactionCommit | src/kndetours/Transaction.c:123-268 | all operations, the newest first, then every suspended thread, then freeing the trampolines that are still to be removed |
| Transaction.Engine.ThreadUpdate | src/kndetours/Thread.c:288-347 | the first pending operation whose code or trampoline the thread stands in moves it, by the first entry of rAlign that matches |
| Transaction.Engine.TransactionAbort | src/kndetours/Transaction.c:73-119 | frees what was attached and changes nothing else |
| Transaction.Commit | src/kndetours/Transaction.c:123-268 | every step keeps the invariant: each trampoline is a whole record for mapped code, each pending operation is about a live one |
| HookCalls.AnswersExactly | src/kndetours/Transaction.c:22-538 | each call's status, by who calls, what is hooked by what, and which detour the trampoline holds |
| HookCalls.RefusedDropOut | src/kndetours/Transaction.c:22-538 | any run of calls by any threads comes to what its successful calls alone come to |
| HookCalls.MistakenDetaches | src/kndetours/Transaction.c:497-512 | detaches by another detour than the one attached, or by other threads, change nothing over any run |
| HookCalls.MistakenTransaction | src/kndetours/Transaction.c:123-538 | a transaction of nothing else leaves code, trampolines and pointers as they were |
| HookCalls.OthersHaveNoEffect | src/kndetours/Transaction.c:22-538 | while a thread has a transaction, nothing that other threads call has any effect |
| HookIdentity.AddCommits | src/kndetours/Transaction.c:172-199 | committing one attach changes the bytes, the trampoline and the pointer of this hook alone |
| HookIdentity.RemoveCommits | src/kndetours/Transaction.c:145-171 | committing one detach finds the hook in place and puts back just what its trampoline holds, and its pointer |
| HookIdentity.AttachesSucceed | src/kndetours/Transaction.c:272-474 | any number of attaches with disjoint prologues all succeed and are put on record in order |
| HookIdentity.AttachesCommit | src/kndetours/Transaction.c:123-268 | their commit puts every hook in place |
| HookIdentity.DetachesCommit | src/kndetours/Transaction.c:123-268 | the commit of all detaches, in any order, leaves what there was, but for the bytes that the jumps spoilt |
| HookIdentity.SpoiltNothing | src/kndetours/Transaction.c:404-432 | the code that is put back is the original exactly when for every hook the moved code has at most 26 bytes or the spoilt bytes happen to be its own |
| HookIdentity.AttachThenDetach | src/kndetours/Transaction.c:123-538 | attach all, commit, detach all in any order, commit: pointers and trampolines are as before, and the code but for the spoilt bytes |
| HookIdentity.AttachThenDetachIsIdentity | src/kndetours/Transaction.c:123-538 | attach all, commit, detach all in any order, commit: every code byte, every pointer and the live trampolines are as before exactly when every trampoline keeps what it took |
| HookIdentity.AbortIsIdentity | src/kndetours/Transaction.c:73-119 | up to the commit neither code nor pointers change, and aborting gives back the trampolines |
| LongPrologue.LongPrepared | src/kndetours/Transaction.c:333-420 | two short branches and a 15-byte instruction are taken as 19 bytes and moved as 27 |
| LongPrologue.LongPrologueIsSpoilt | src/kndetours/Transaction.c:404-432 | such a function is attached to and detached from with success, and then starts with a zero |
| HookTwice.BothEnteredExactly | src/kndetours/Transaction.c:142-199 | of two attaches in one transaction the first function jumps to its trampoline after the commit, and the second exactly when the bytes patched later spare its jump |
| HookTwice.SparedOrMissed | src/kndetours/Transaction.c:186-194 | they spare it when they miss it, and else only for functions that start one to four bytes apart |
| HookTwice.SparedByChance | src/kndetours/Transaction.c:186-194 | two functions one byte apart whose jumps fall together byte by byte |
| HookTwice.BothEnteredUnlessHit | src/kndetours/Transaction.c:142-199 | for functions that are the same or five bytes or more apart, both are entered exactly when the later patch misses the jump |
| HookTwice.SecondAttachIsNotEntered | src/kndetours/Transaction.c:142-199 | of two attaches to one function in one transaction, both reported as successful, the function jumps to the first one's trampoline and not to the second one's, which stays live |
| HookChain.WalkDown | src/kndetours/Transaction.c:172-199 | from any layer control passes through the detours below that are still attached, and ends at the moved code of the oldest |
| HookChain.EntryPassesThroughTheAttached | src/kndetours/Transaction.c:145-199 | control entering the function passes through exactly the attached detours, the newest first |
| HookRuns.HookOnIs | src/kndetours/Transaction.c:272-474 | all that one hook's transaction changes |
| HookRuns.HookOffIs | src/kndetours/Transaction.c:145-171 | all that one unhook's transaction changes, when the function still jumps to the hook and when it does not |
| HookRuns.JumpPrepared | src/kndetours/Transaction.c:333-420 | hooking a hooked function moves just its jump, to the layer below |
| HookRuns.HookStep | src/kndetours/Transaction.c:272-474 | one more hook puts one more layer on the chain |
| HookRuns.StillThereIsNewest | src/kndetours/Transaction.c:150-157 | the check finds the hook in place exactly when it is the newest |
| HookRuns.BaredIsSame | src/kndetours/Transaction.c:404-432 | once the last hook is off the function starts as before exactly when its trampoline has kept what it took |
| HookRuns.UnhookStep | src/kndetours/Transaction.c:145-171 | detaching the newest restores the layer below and frees the trampoline, at the bottom up to the bytes that the jump spoilt; detaching another one leaves the code, puts it in bypass and frees nothing |
| HookRuns.RunKeepsChain | src/kndetours/Transaction.c:123-538 | any run of hooking and unhooking keeps the chain whole over the function as its last complete removal left it, and its layers that are on are the detours attached by the events alone |
| HookRuns.ControlPassesThroughTheAttached | src/kndetours/Transaction.c:123-538 | after any run, control passes through exactly the attached detours, newest first, and comes to the function's own code as the last complete removal left it |
| HookRuns.BodyRunsAsBefore | src/kndetours/Transaction.c:333-436 | and executing that code does what the function did before the oldest of these hooks |
| HookMany.EventKeepsAll | src/kndetours/Transaction.c:123-538 | hooking or unhooking one of any number of functions in one memory keeps the chains of all |
| HookMany.RunKeepsAll | src/kndetours/Transaction.c:123-538 | so does any interleaved run, and each function's layers that are on are those attached by its own events |
| HookMany.ControlPassesInEveryFunction | src/kndetours/Transaction.c:123-538 | after any interleaved run, control entering any of the functions passes through exactly its attached detours, newest first, and comes to its own code |
| SuspendedThreads.AttachMovesThreads | src/kndetours/Thread.c:288-347 | a thread at an instruction of a function that is hooked goes on at its copy, exactly unless it is at the first one and 8, 16 or 24 bytes were moved |
| SuspendedThreads.AttachLeavesOthers | src/kndetours/Thread.c:334-343 | a thread that stands in none of the prologues stays where it is |
| SuspendedThreads.DetachMovesThreads | src/kndetours/Thread.c:288-347 | a thread at a copy goes back to the original, exactly unless it is at the jump behind the copies and 8 or more bytes were moved |
| SuspendedThreads.DetachMovesEntered | src/kndetours/Thread.c:318-333 | a thread at the entry of a trampoline goes back to the beginning of the function, and one at no copy and no entry stays where it is |
| SuspendedThreads.AttachFinds | src/kndetours/Trampoline.c:461-489 | the lookup by the place in the function, over entries of three bits |
| SuspendedThreads.DetachFindsPlace | src/kndetours/Trampoline.c:461-489 | the lookup by the place in the trampoline, over entries of five bits |
| SuspendedThreads.EightBytesAreSkipped | src/kndetours/Trampoline.c:477-489 | two instructions of four bytes send a thread in front of them behind them |
| SuspendedThreads.ResumesFrom | src/kndetours/Transaction.c:333-363 | from any instruction on, the copies do what the originals do |
| SuspendedThreads.MovedThreadGoesOn | src/kndetours/Thread.c:334-343 | a thread moved to a copy executes what it would have executed, and comes to the jump to the rest of the function |
| TrampolinePool.AllocHandsOut | src/kndetours/Trampoline.c:286-360 | what is handed out was free, lies within the bounds and is live from then on; nothing is handed out exactly when no list head and no new region will do |
| TrampolinePool.FreeTakesBack | src/kndetours/Trampoline.c:363-371 | freeing makes just that trampoline free |
| TrampolinePool.ReleaseKeepsLive | src/kndetours/Trampoline.c:416-433 | exactly the regions without a live trampoline are released |
| TrampolinePool.ReleaseOneKeepsLive | src/kndetours/Trampoline.c:436-459 | releasing one region takes away no live trampoline |
| TrampolinePool.AnyRunAgrees | src/kndetours/Trampoline.c:286-459 | over any run the live trampolines are exactly those that callers hold, free lists are free of repetition, and no region goes while one of its trampolines is held |
| Trampolines.LooksEmptyExactly | src/kndetours/Trampoline.c:375-401 | the test for an empty region passes exactly when every live trampoline goes on inside the region |
| Trampolines.TargetInRegionIsMissed | src/kndetours/Trampoline.c:388-397 | a live trampoline that goes on inside its own region is overlooked |
| Trampolines.Region.constructor | src/kndetours/Trampoline.c:336-354 | the loop from the last place to the third threads all of them onto the free list |
| Trampolines.Region.Take | src/kndetours/Trampoline.c:306-322 | the head comes off the list that runs through the trampolines |
| Trampolines.Region.Give | src/kndetours/Trampoline.c:363-371 | a freed trampoline becomes the head |
| Trampolines.Region.IsEmpty | src/kndetours/Trampoline.c:375-401 | the loop decides whether all places are free |
| Trampolines.Allocator.AllocTrampoline | src/kndetours/Trampoline.c:286-360 | the default region, the others in order, or a new one, and which trampoline it gives |
| Trampolines.Allocator.FreeTrampoline | src/kndetours/Trampoline.c:363-371 | from the address to its region and onto that free list |
| Trampolines.Allocator.ReleaseUnused | src/kndetours/Trampoline.c:416-433 | the loop that releases regions while walking the list |
| Trampolines.Allocator.ReleaseRegionOf | src/kndetours/Trampoline.c:436-459 | releases the region of an address, if it is empty |
| Placement.FindJmpBounds | src/kndetours/Instruction.c:284-329 | the branches on the first bytes of the code |
| Placement.BoundsReach | src/kndetours/Memory.c:270-292 | every byte of a trampoline within the bounds is a user address in reach of the function |
| Placement.BoundsReachTarget | src/kndetours/Instruction.c:284-329 | what a jump at the front refers to is in reach of the jump's copy |
| Placement.BoundsExactly | src/kndetours/Memory.c:270-292 | within the bounds are exactly the addresses at least half a megabyte inside the memory of a program and inside the reach of the function and of what its jump refers to |
| Placement.BoundsHaveRoom | src/kndetours/Instruction.c:284-329 | the bounds are not empty when the jump refers to a user address |
| Placement.CopiedJumpInReach | src/kndetours/Instruction.c:284-329 | so the copy of such a jump means what the jump means |
| Placement.CopiedVectorInReach | src/kndetours/Instruction.c:305-323 | and the copy of a jump through a vector reads the same vector |
| Placement.BoundsAreNear | src/kndetours/Transaction.c:190-193 | trampolines found within the bounds, one hook after the other, satisfy what the chain of hooks needs |
| Arm64Relocation.BccDecodes | src/kndetours/Disassembler.c:1910-1942 | an assembled conditional branch decodes to its condition and distance |
| Arm64Relocation.BDecodes | src/kndetours/Disassembler.c:1944-1990 | an assembled branch decodes to its distance and link bit |
| Arm64Relocation.CbzDecodes | src/kndetours/Disassembler.c:2036-2071 | an assembled compare-and-branch decodes to its fields |
| Arm64Relocation.TbzDecodes | src/kndetours/Disassembler.c:2241-2279 | an assembled test-and-branch decodes to its fields |
| Arm64Relocation.MovDecodes | src/kndetours/Disassembler.c:2148-2178 | an assembled move decodes to its fields |
| Arm64Relocation.EmitMovImmediate | src/kndetours/Disassembler.c:2301-2348 | the loop over the four pieces emits the moves of the recursive function |
| Arm64Relocation.MovImmediateRuns | src/kndetours/Disassembler.c:2301-2348 | one to four moves leave any 64-bit constant in the register |
| Arm64Relocation.MovImmediateLength | src/kndetours/Disassembler.c:2301-2348 | it takes a move for each piece that is not the more frequent one of 0 and FFFF, one at least, and just one for a 32-bit constant with FFFF above |
| Arm64Branches.CopyBRuns | src/kndetours/Disassembler.c:2461-2488 | a branch goes to its target from any distance, and a call returns behind the copy |
| Arm64Branches.CopyBccRuns | src/kndetours/Disassembler.c:2423-2457 | a conditional branch goes where it should over any distance, unless its condition has no opposite |
| Arm64Branches.CopyCbzRuns | src/kndetours/Disassembler.c:2514-2548 | a compare-and-branch goes where it should, by what the moves have left in the register |
| Arm64Branches.CopyTbzRuns | src/kndetours/Disassembler.c:2552-2590 | a test-and-branch goes where it should, by what the moves have left in the register |
| Arm64Branches.CopyGoesRight | src/kndetours/Disassembler.c:2423-2684 | for every source and destination address the copy takes the target or falls through as the branch does, and leaves other registers and flags alone |
| Arm64Branches.CopyGoesRightExactly | src/kndetours/Disassembler.c:2423-2684 | this holds for all register contents exactly when a far test is not of x17 and a far condition has an opposite |
| Arm64Branches.OthersStay | src/kndetours/Disassembler.c:2639-2673 | whatever is no such branch, and neither ADR, ADRP nor the load of a literal, is copied as it is |

## Left out

- PatchRuns.DiffThenPatch: the case-sensitive pair of calls; keys that differ in letter case only are excluded, because removal ignores case.
- PatchRings.ApplyFollowsExactly: case-sensitive application. An empty token or a number beyond size_t for an array, and a move or copy to the path of the whole document, which fails with status 9, are excluded; a move takes out what its path names. A "from" that is no string is given status 5.
- PatchDocument.Document.ApplyOne: appending behind a node that has left the list ends the model; no status is given then. The patch itself, of which a test sorts the value, is not tracked.
- JsonCompare.CompareJsonTrees: the answer alone; what sorting leaves in the first tree is `RingTree.CompareTrees`, and in the second is not modelled.
- MergePatch.MergePatchTrees: on member lists; with rings it is `MergeRings.MergeTrees`.
- MergeRings.MergeFollowsExactly: the case-sensitive merge.
- SortedInPlace.GeneratorLosesTheNewMember: what a generator leaves of trees with objects inside is not modelled, beyond that it sorts each object it reaches.
- MergeInverse.MergeInverts: on member lists, as for a duplicate of the first tree (`MergeRings.MergeInvertsClosed`); the condition on the keys of a pair is sufficient; that it is necessary for families of trees is `MergeShapes.InvertsExactly`.
- MergeShapes.InvertsExactly: on member lists, as for a duplicate of the first tree; arrays hold neither objects nor arrays.
- RoundTrip.PrintThenParse: numbers are ints; fractions, exponents, strtod and the %1.15g and %1.17g formats are not part of this model, and a number with a fraction or an exponent counts as not read.
- JsonDocument.StrictDocumentIsRead: numbers are ints here too; strings with \u0000 are left to `StrictString.StringsAgree`.
- PrintBuffer.PrintBuffered: an initial size of 0 is covered for allocators that can reallocate; without, the source copies a byte out of an empty buffer.
- X86Relocation.CopyKeepsMeaning: opcode tables are a parameter of which only the relative jumps are known; VEX, EVEX, XOP, LOOP, JCXZ and dynamic targets are not copied, and a call's pushed return address is part of what an instruction may do.
- InstructionSize.PlainSize: which opcode has which row of the tables is a premise; so too for the other lemmas there.
- FunctionEnd.PreparedExactly: for bytes whose instructions the tables know.
- Transaction.Engine.AttachHook: the pointer is the function itself (skipping of import and patch jumps is not part of this model), and the trampoline is one that the allocator found.
- HookMany.ControlPassesInEveryFunction: one transaction for each hook and unhook, detours that call on through their own pointer variable, and trampolines as near as `Placement.BoundsAreNear` gives; so too for `HookRuns.ControlPassesThroughTheAttached`.
- HookIdentity.AttachThenDetachIsIdentity: hooks with disjoint prologues, each with its own pointer variable and trampoline.
- SuspendedThreads.DetachMovesThreads: threads at the beginning of a copy or at the jump behind the copies; padding that was taken without being moved counts as passed.
- TrampolinePool.AnyRunAgrees: where the system finds a new region is an input; the search through the address space is not part of this model.
- Arm64Branches.CopyGoesRight: ADR, ADRP and literal loads are not part of this model; x17 holds nothing that is needed later.
- Trees are values: aliasing between trees, reference and constant-string flags, raw items and the order of members that diffing leaves behind are not modelled; lists and their links are, on heap nodes.
- Allocation failure, custom allocation hooks and the error position after a failed parse.
- Printing of a missing string.
- Floating point numbers, NaN and infinity, and the locale's decimal point.
- Page protection, the enumeration and suspension of threads, instruction caches, and memory of trampolines as executable bytes shared with code.
- The 32-bit x86 variants of the hooking code, and the ARM64 variants of its transaction code.
- Process creation, the watchdog, logging, and the wrappers around hooks.
