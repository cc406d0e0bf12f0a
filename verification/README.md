# Verified model of w64devkit's own tools

w64devkit ships, beside third-party compilers, a handful of tools of its own. This project models the
ones with real algorithms in them and proves what they are for:

- **quilt** (`src/quilt.cpp`). The diff engine has four algorithms (Myers with a cost limit, minimal,
  patience, histogram), a hunk builder and a unified-diff printer; the patch engine parses, places hunks
  with fuzz and offset, and writes files and rejects. The main result is that the two are inverse:
  `DiffThenPatch.PatchOfDiffIsNewFile`. On top of them are the stack of patches (`QuiltStack`), with
  backups layered per patch, the annotator and the dependency graph.
- **pkg-config** (`src/pkg-config.c`). The resolver walks packages with an explicit stack, two kinds of
  edges and a late upgrade from private to public (`PkgResolve`); variables are expanded with an explicit
  stack (`Expand`); versions are compared (`VersionOrder`); names are bound in hash tries (`HashTrie`).
- **xxd** (`src/rexxd.c`). Hex dump and reverse hex dump over buffered input and output; the main result
  is the round trip `HexUndump.DumpAndUndump`.
- **vc++filt** (`src/vc++filt.c`). A cache that must never change a result, even out of memory.
- **threads** (`src/threads.c`). The handshake by which `thrd_create` hands a record on its own stack to
  the new thread.

## How it is built

Code that updates variables is a method with loops, and where the original has an object whose fields
change it is a class: `FileStore`, `QuiltState`, `Pkgs` and `Processor`, `Trie`, `CallCache`, `Input` and
`Output`, and arrays for the Myers rounds, the resolver's stack and the dump template. Every method is
proved against a specification that is then proved to mean something: `LocateHunk` against "least in
fuzz, distance and direction", `Process` against reachability, `MyersDiff` against the length of a longest
common subsequence. The handshake is a state machine whose moves are the atomic actions of both threads.

| files | content |
|---|---|
| `EditScript`, `Myers`, `Trim`, `PatienceDiff`, `HistogramBlocks`, `HistogramScan`, `HistogramDiff` | edit scripts and the four algorithms |
| `Text`, `Hunks`, `Unified`, `DiffEngine`, `PrintedExample` | lines, hunks, the unified format, comparing two files |
| `PatchParser`, `ParsePrinted`, `PatchTolerance` | reading a patch; what is printed is read back, and what else is read the same |
| `PatchApply`, `PatchSearch`, `PatchOutput`, `PatchWindows`, `PatchEngine`, `PatchOutcome`, `PatchRejects`, `LineEndings` | finding places, output, files; one outcome; rejects read back; carriage returns |
| `PatchFits`, `PatchShifted`, `RoundTrip`, `DiffThenPatch`, `PatchContextZero`, `ContextZero` | diff then patch; what happens without context |
| `QuiltFiles`, `QuiltEngine`, `QuiltHeaders`, `QuiltStack`, `OwnPatches`, `ReversedPush`, `SplitOff`, `StackLaws` | backups, what a patch leaves alone, headers, commands, refresh-push-pop |
| `Annotate`, `DependencyGraph` | annotations, reachability and transitive reduction |
| `VersionOrder`, `PkgGraph`, `PkgInvariant`, `PkgDepth`, `PkgAsked`, `PkgResolve`, `VersionLaws`, `Expand`, `ExpandLaws`, `HashTrie`, `SymbolCache` | pkg-config and the symbol cache |
| `Handshake` | starting a thread |
| `HexBits`, `HexDigits`, `HexStreams`, `HexWords`, `HexLines`, `HexEntries`, `HexGroups`, `HexSkips`, `HexDump`, `HexUndump` | hex dumps |

## Where the code does not do what one would expect

- A comparison with no context lines prints, for a pure insertion, the line before it as its start
  (`src/quilt.cpp:2272-2281`), while the patch engine starts one line earlier (`src/quilt.cpp:3018`). An
  insertion at the end of a file that lacks its last newline also goes wrong where the lines alone would
  come out right. `ContextZeroFails` has concrete files; `PatchWithoutContext` says exactly for which files
  it does no harm.
- Pushing backs up only the files of `+++` lines, and `/dev/null` is not one of them
  (`src/quilt.cpp:3590`). A patch that deletes a file is therefore pushed without a backup, and popping it
  does not bring the file back: `OwnPatches.PushedAndPopped` shows that, hidden and empty files aside, this
  is the only change of one file for which it does not. The exact condition for any patch is `PopUndoesPush`.
- A pop tries a patch in reverse first (`src/quilt.cpp:4228`), also one that was itself pushed in reverse,
  and so refuses to take that off unless forced: `ReversedIsRefused`.
- An empty backup stands for a file that did not exist (`src/quilt.cpp:919`), so an empty file that the patch
  names is lost by push and pop (`RestoresExactly`, `PushRestoresExactly`).
- Among histogram blocks equally rare, the longest of those compared is taken, but positions inside a
  block already extended are passed over (`src/quilt.cpp:2097-2111`), so a longer one can be overlooked.
  `SearchOverlooks` has concrete files; `LongestUnlessOverlooked` says exactly when the longest is taken.
- The fuzz of a hunk is computed a second time at the place found (`src/quilt.cpp:3435-3444`), without the
  limit on the position that the search had. For a hunk of context lines only it can be less than what was
  found: `FuzzFoundLess` is such a case, `FuzzFoundAgain` the exact condition.
- A reject file marks a missing newline for the old side only (`src/quilt.cpp:3333-3335`), so a rejected
  hunk that adds the last line of a file is read back as if that line were terminated. `ReadBackExactly`
  says which hunks come back unchanged.
- A hunk that ends without a newline but is not the last to be written leaves its last line and the next
  one glued together; `OutputIsSplice` says exactly when the output has the lines it should have.
- The patch engine drops carriage returns at the ends of lines and restores them by the first line of the
  file (`src/quilt.cpp:2876-2910`, `src/quilt.cpp:3512-3524`). A file that mixes line endings, or a new
  file with carriage returns, does not come out as it was compared: `CarriageReturnsFail` has concrete
  cases, `PatchOfDiffIsNewFile` the exact condition.
- A kept line that is the unterminated end of exactly one of the two files is printed as a deletion and an
  insertion, and each is marked if its file lacks a final newline, even if the line is not the last of that
  file (`src/quilt.cpp:2340-2362`). The round trip holds all the same.

## Model

| member | source | states |
|---|---|---|
| EditScript.PathIffInOrder | src/quilt.cpp:1576-1583 | A script leads from one position to another exactly if it lists the old lines in order, the new lines in order, and keeps only equal pairs |
| EditScript.ShortestIffLcsCost | src/quilt.cpp:1635-1750 | No script is shorter exactly if the number of changes is n + m - 2 LCS: the independent meaning of "minimal" |
| Myers.FarIsFurthest | src/quilt.cpp:1684-1707 | No path with d changes ends further along its diagonal than the furthest-reaching point of round d, even where that point lies outside the grid |
| Myers.FarIsReached | src/quilt.cpp:1684-1707 | Every furthest-reaching point, cut back into the grid, is the end of a path; what is cut off counts against its changes |
| Myers.FirstFinishIsCorner | src/quilt.cpp:1703-1707 | The first point that is past both ends is exactly the corner, and its round is the least cost of any script |
| Myers.Bogosqrt | src/quilt.cpp:1530-1538 | The cost limit starts from the smallest power of two that is at least the root |
| Myers.CostLimitMeans | src/quilt.cpp:1662-1672 | The limit is the smallest power of two that is at least the root of the number of lines, but at least 256 |
| Myers.BacktrackTrace | src/quilt.cpp:1587-1633 | Walking back through the saved rounds gives a path from the start to the given point with exactly as many changes as rounds |
| Myers.Advance | src/quilt.cpp:1687-1701 | One step on a diagonal, from the half-updated array, computes the furthest-reaching point of the new round |
| Myers.RunRound | src/quilt.cpp:1686-1708 | A round either stops at the first finished diagonal or leaves all its points in the array, none of them finished |
| Myers.BestEndpoint | src/quilt.cpp:1713-1724 | At the cost limit: the point inside the grid with the greatest x + y of the round, or none if none is inside |
| Myers.SomeFartherInBox | src/quilt.cpp:1710-1724 | Until a round finishes, one of its points is inside both files and at least as far on as any path of as many edits |
| Myers.MyersDiff | src/quilt.cpp:1635-1750 | The script is valid in all modes, free for equal inputs, and shortest in minimal mode. In plain mode it is shortest if the least cost is within the limit of the two lengths; otherwise its head has exactly as many edits as the limit and gets as far as any path inside the files with as many, and the rest is such a script again |
| Trim.TrimCommon | src/quilt.cpp:1779-1788 | The common head and tail do not overlap and cannot be longer |
| Trim.MinimalInterior | src/quilt.cpp:1876-1896 | With nothing to anchor on, head and tail are kept around a shortest script of the interior |
| PatienceDiff.UniqueMatches | src/quilt.cpp:1801-1831 | Exactly the pairs of lines that are unique on both sides, in old order |
| PatienceDiff.LongestChain | src/quilt.cpp:1833-1874 | The piles give a chain that increases on both sides, and no longer chain of these matches exists |
| PatienceDiff.PatienceAnchors | src/quilt.cpp:1801-1874 | The anchors are a longest common chain of lines unique on both sides |
| PatienceDiff.PatienceScript | src/quilt.cpp:1758-1961 | The script keeps the common head and tail and every anchor of a longest chain of lines unique to both sides; before, between and behind the anchors it is again such a script of the gap, and without anchors a shortest one |
| HistogramBlocks.ExtendBlock | src/quilt.cpp:2072-2099 | The whole maximal block of equal lines around a pair, and how often its rarest line occurs |
| HistogramDiff.FindBlock | src/quilt.cpp:2030-2114 | The block chosen is maximal, as rare as any common block, and as long as any of that rarity that holds a line the search looked from; there is none exactly if every common line is too frequent |
| HistogramScan.LongestUnlessOverlooked | src/quilt.cpp:2097-2111 | The block chosen is the longest of the rarest if and only if no longer one of them has all its lines inside blocks the search has passed over |
| HistogramDiff.CommonOnceIsLongest | src/quilt.cpp:2097-2111 | If some common line occurs once in the old file, the block chosen is the longest around such a line |
| HistogramScan.SearchOverlooks | src/quilt.cpp:2097-2111 | Two concrete files on which the search ends with a block of two lines while one of four is as rare |
| HistogramDiff.HistogramScript | src/quilt.cpp:1966-2195 | The script keeps the common head and tail and the block it splits at; before and behind the block it is again such a script, one level deeper; past the depth limit or without a block the interior is a shortest script |
| DiffEngine.RunAlgorithm | src/quilt.cpp:2538-2545 | All four algorithms give a valid script, and each exactly what it promises by itself |
| Hunks.FindChanges | src/quilt.cpp:2212-2223 | The ranges are maximal runs of changes, in order, and hold every change: each operation in a range is a change, and the next range is not adjacent |
| Hunks.MergeChanges | src/quilt.cpp:2227-2237 | Ranges are merged exactly if they are within two contexts: merged ones are further apart, and inside one the next change is never further away; they still hold every change |
| Hunks.BuildHunks | src/quilt.cpp:2206-2297 | Every change is in exactly one hunk, hunks are disjoint and in order, operations between them are all kept lines, no hunk has as many kept lines in a row between two changes as would divide it, and starts and counts are those of the lines used, with the convention for empty ranges |
| Hunks.HunksDetermined | src/quilt.cpp:2206-2297 | That description fits one list of hunks only |
| DiffEngine.SplitTail | src/quilt.cpp:2563-2584 | If one file only lacks its last newline, the script is still valid and shows the last line as a change; all other operations are kept |
| DiffEngine.SameIffNothingToShow | src/quilt.cpp:2547-2561 | Two contents are equal exactly if the script keeps all lines and both ends of file agree |
| DiffEngine.BuiltinDiff | src/quilt.cpp:2503-2607 | The exit code is 0 exactly for equal contents, with no output; otherwise the output is the printed hunks of a valid script, which is the one the algorithm promises, but for the end of the files where only one ends with a newline |
| Text.SplitFileLines | src/quilt.cpp:1548-1574 | Lines for comparison, carriage returns kept, and whether the last one is terminated |
| Text.TextOfLines | src/quilt.cpp:1548-1574 | A text is determined by its lines and its end |
| Text.LinesOfText | src/quilt.cpp:442-459 | Joining lines and splitting again gives the same lines, except that an empty unterminated last line is lost |
| Text.SplitLines | src/quilt.cpp:442-459 | Lines of a patch, without carriage returns before newlines |
| Text.LoadFileLines | src/quilt.cpp:2876-2910 | Lines of a file to patch, its end, and whether its first line ends in CR LF |
| Unified.FormatUnified | src/quilt.cpp:2300-2391 | Prints the lines of the unified format; what they mean is given by PrintedParses |
| PrintedExample.OneLineChanged | src/quilt.cpp:2300-2391 | A change of the only line, printed letter by letter: no count for one line, and the marker behind the line without a newline |
| PrintedExample.LinesAround | src/quilt.cpp:2300-2391 | A deletion with context, printed letter by letter |
| PatchParser.ParsePatch | src/quilt.cpp:2685-2864 | The loops over headers, hunks and bodies read what the line-by-line description of the format says |
| ParsePrinted.PrintedParses | src/quilt.cpp:2300-2391 | Parsing a printed comparison recovers one file with exactly the printed hunks: ranges, lines and missing newlines, sides exchanged in reverse; only carriage returns at the ends of lines are lost |
| PatchTolerance.AlikeParsed | src/quilt.cpp:2783-2811 | A patch is read the same if empty lines of context have lost their blank, wherever, and markers are in lower case |
| PatchTolerance.DescriptionSkipped | src/quilt.cpp:2697-2708 | What stands before the first file is passed over |
| PatchTolerance.SectionIgnored | src/quilt.cpp:2746-2776 | What follows the ranges in the header of a hunk does not matter |
| PatchTolerance.OneDirectoryOff | src/quilt.cpp:2647-2665 | Stripping a path takes off one directory after the other, with all slashes behind it, and keeps the last name |
| PatchTolerance.TargetChosen | src/quilt.cpp:2717-2742 | The file that is patched: the name that is not /dev/null, the shorter one, of two equally long the new one, and the new one instead of a backup |
| PatchApply.TryMatch | src/quilt.cpp:2971-2998 | Holds exactly if the pattern without the context that fuzz leaves out stands at the position |
| PatchApply.LocateHunk | src/quilt.cpp:3004-3066 | The place found is least in fuzz, then in distance from the guess, then forward before backward; -1 only if no place exists |
| PatchApply.LocatedOnce | src/quilt.cpp:3004-3066 | That description fits one place and one amount of fuzz only |
| PatchSearch.NearestFirst | src/quilt.cpp:3020-3060 | Of two places equally far from the guess the one behind it is taken, and none is passed by for a farther one |
| PatchSearch.FuzzMeans | src/quilt.cpp:2971-2998 | With fuzz so many lines of context may differ at both ends of a hunk, but no line from its first change to its last |
| PatchOutput.FindFuzz | src/quilt.cpp:3435-3444 | The least fuzz that matches at the place found |
| PatchOutput.PlaceHunks | src/quilt.cpp:3413-3486 | Hunks are placed in order, each searched for behind the one before and as far off as the last one placed; AllPlacedShifted says what that is for |
| PatchOutput.BuildOutput | src/quilt.cpp:3086-3155 | The text that the placements of the hunks determine; OutputIsSplice says what it is |
| PatchWindows.FuzzFoundAgain | src/quilt.cpp:3435-3444 | The fuzz computed again is never more than the fuzz the search stopped at, and equals it if and only if the place lies within the range searched with it |
| PatchWindows.ChangeFuzzFoundAgain | src/quilt.cpp:3435-3444 | So the two are equal for every hunk that deletes or inserts a line |
| PatchWindows.FuzzFoundLess | src/quilt.cpp:3435-3444 | Two concrete hunks of context lines only, on an empty file: the second is found with fuzz 2 and computed again as 1 |
| PatchWindows.WindowsApart | src/quilt.cpp:3469-3471 | Replaced windows lie in the file, are disjoint and in order |
| PatchWindows.OutputIsSplice | src/quilt.cpp:3086-3155 | The output is the text of the input lines with exactly the windows replaced, with the end of file the last hunk gives it, if and only if no hunk that ends without a newline is followed by more output |
| PatchFits.AllPlacedExactly | src/quilt.cpp:3004-3066 | Hunks whose old side and context fit a file are placed without offset or fuzz, whatever else in the file looks alike |
| PatchFits.FittingHunksApply | src/quilt.cpp:3086-3155 | Such hunks are all applied and give the other file, with its end of file |
| PatchShifted.AllPlacedShifted | src/quilt.cpp:3469-3471 | In a file that has other lines before the first hunk, all hunks are placed as far off as the first one, without fuzz, whatever else in the file looks alike |
| PatchShifted.ShiftedHunksApply | src/quilt.cpp:3413-3486 | The output then is these other lines, followed by the rest of the other file |
| RoundTrip.ComparisonFits | src/quilt.cpp:2206-2297 | Hunks of any comparison with at least one line of context fit, in both directions |
| DiffThenPatch.PatchOfDiffIsNewFile | src/quilt.cpp:3344-3568 | The printed comparison of any two files, parsed and applied, is accepted whole and turns old into new, in reverse new into old: byte for byte if and only if every line of the outcome ends the way the first line of the patched file does |
| LineEndings.RecoveredExactly | src/quilt.cpp:3512-3524 | With its carriage returns dropped and restored a file comes back if and only if each line, but for an unterminated last one, ends in exactly one where they are restored, and no line ends in one where they are not |
| LineEndings.CarriageReturnsFail | src/quilt.cpp:3512-3524 | Two concrete cases that do not come back: a new file with a carriage return, and a new line without one in a file that has them |
| DiffThenPatch.DiffThenPatch | src/quilt.cpp:2503-2607 | The same of the two engines called one after the other, for all four algorithms |
| PatchContextZero.ContextZeroExactly | src/quilt.cpp:3017-3018 | Without context, all hunks that fit are placed, and the patched file is the new one byte for byte if and only if every pure insertion is harmless: one line early makes no difference, at the end of the file either |
| ContextZero.ComparisonFitsBare | src/quilt.cpp:2206-2297 | The hunks of every comparison without context do fit, in both directions |
| ContextZero.PatchWithoutContext | src/quilt.cpp:3344-3568 | The printed comparison without context of any two files, parsed and applied, is accepted whole and gives the other file if and only if all its insertions are harmless and the carriage returns at the ends of lines come back |
| ContextZero.ContextZeroFails | src/quilt.cpp:2272-2281 | Three concrete pairs of files, two of them told apart by their last newline only, that every shortest comparison without context fails to patch |
| PatchRejects.ParsedRejectsReadBack | src/quilt.cpp:3303-3340 | For every file of every patch, read in reverse or not, and whatever is rejected of it: the reject text is empty exactly if nothing was; otherwise it is read back as the same file with exactly the rejected hunks in order |
| PatchRejects.ReadBackExactly | src/quilt.cpp:3333-3335 | A hunk comes back just as it was if and only if its missing newlines are those of its last line, the mark being written for the old side only, and no line ends in a carriage return |
| LineEndings.RestoredReadsBack | src/quilt.cpp:3512-3524 | Restored line endings are dropped again when the file is next loaded: the same lines and the same end |
| LineEndings.RestoredEverywhere | src/quilt.cpp:3512-3524 | After restoring, every newline has a carriage return before it |
| LineEndings.AlreadyRestored | src/quilt.cpp:3512-3524 | A text in which every newline has one is left as it is, so restoring twice is restoring once |
| PatchEngine.PatchOneFile | src/quilt.cpp:3378-3560 | What one file of a patch does: missing files, creation, removal when empty, rejects, dry run |
| PatchEngine.BuiltinPatch | src/quilt.cpp:3344-3568 | All files in order; the exit code is 1 exactly if a file was missing or a hunk rejected |
| PatchOutcome.OneOutcome | src/quilt.cpp:3344-3568 | A patch has exactly one outcome on given files: the description of the search determines exit code and files |
| PatchOutcome.ApplyPatch | src/quilt.cpp:3344-3568 | The engine computes this outcome |
| QuiltFiles.ParsePatchFiles | src/quilt.cpp:3583-3609 | The files a patch names in its +++ lines, /dev/null left out |
| StackLaws.ComponentOff | src/quilt.cpp:3593-3603 | Stripping the name of a file takes off one component after the other |
| QuiltEngine.ReversibleIsTame | src/quilt.cpp:3344-3568 | A patch whose targets are all named in its +++ lines and whose new files have text changes nothing but these files and rejects, and leaves no file empty that was not, whether it applies or not |
| QuiltFiles.RestoresExactly | src/quilt.cpp:888-938 | Restoring brings a file backed up back exactly if it was not an empty file |
| StackLaws.HiddenMeans | src/quilt.cpp:871-886 | Hidden, and so not restored, are the files whose name without directories begins with a dot |
| QuiltFiles.PopUndoesPush | src/quilt.cpp:871-938 | Popping undoes a push if and only if no visible file backed up was empty and every other file is untouched: for any effect of the patch |
| QuiltStack.PushKeepsBottom | src/quilt.cpp:4020-4108 | Pushing, failed or not, forced or not, leaves all layers below as they were, if no file of the patch is empty; a push that is not recorded then leaves the files as they were |
| QuiltStack.PushRestoresExactly | src/quilt.cpp:4020-4108 | Just below a patch that was pushed, forced on or undone, the layer is as it was if and only if no file of the patch was empty |
| OwnPatches.PushedAndPopped | src/quilt.cpp:5020-5061 | A patch written from a change of one file makes this change when pushed; popping it then restores all files if and only if the change was not a deletion, the file is not hidden, and no file backed up for the patch was empty |
| OwnPatches.PopIsAccepted | src/quilt.cpp:4222-4238 | A pop that is not forced does take this patch off again: its trial in reverse succeeds |
| ReversedPush.ReversedIsRefused | src/quilt.cpp:4222-4238 | A patch that rewrites a file, pushed in reverse, is refused by the pop that is not forced, which tries it in reverse once more |
| QuiltStack.QuiltState.FindInSeries | src/quilt.cpp:341-346 | The index of a patch, or -1 exactly if it is not in the series |
| QuiltStack.QuiltState.TopIndex | src/quilt.cpp:325-332 | In a good state, the top patch is the last of the applied prefix |
| QuiltStack.QuiltState.BackUpAll | src/quilt.cpp:888-907 | Backups of all named files, empty for those that do not exist |
| QuiltStack.QuiltState.RestoreFile | src/quilt.cpp:909-938 | An empty backup removes the file, another replaces it |
| QuiltStack.QuiltState.RestoreAll | src/quilt.cpp:4085-4088 | Restoring the named files one by one, with repetitions, restores the whole backup |
| QuiltStack.QuiltState.RestoreVisible | src/quilt.cpp:4256-4259 | Restoring the visible files in any order restores the visible backup |
| QuiltStack.QuiltState.PushOne | src/quilt.cpp:4003-4108 | One push: applied, forced on, or undone; the state stays good |
| StackLaws.ForcedNeedsRefresh | src/quilt.cpp:3946-3954 | After a patch was forced on, nothing more is pushed and it is not popped without force |
| StackLaws.UndoneLeaves | src/quilt.cpp:4080-4102 | A patch that does not apply leaves the stack as it was, and its rejects only if they are asked for |
| QuiltStack.QuiltState.Push | src/quilt.cpp:3946-4118 | The exit code and the whole state are those of pushing one patch after the other up to the target, stopping at the first that fails; code 2 exactly where there is nothing to push; the layers below are kept |
| QuiltStack.QuiltState.PopOne | src/quilt.cpp:4201-4277 | A pop is refused exactly if it is not forced and the patch needs a refresh or does not come off in reverse |
| QuiltStack.QuiltState.Pop | src/quilt.cpp:4160-4277 | The exit code and the whole state are those of popping one patch after the other down to the target, stopping at the first refused; the files are those of the layer it ends at, with lower layers kept |
| QuiltStack.QuiltState.New | src/quilt.cpp:4599-4668 | A new patch goes on top; it exists already exactly if refused, or the strip level is; a refusal changes nothing |
| QuiltStack.QuiltState.Delete | src/quilt.cpp:6785-6865 | Only the top patch or one not applied is deleted; the top one is popped first; the patch file stays, goes, or is renamed as asked; strip levels and reversal marks stay |
| QuiltStack.QuiltState.Rename | src/quilt.cpp:6885-7017 | Renaming keeps place, layers and files, and moves all that is noted for the patch; a refusal changes nothing |
| QuiltStack.QuiltState.Import | src/quilt.cpp:7073-7188 | A patch is added after the top; one that exists is replaced if forced, not applied, and its header agrees or a choice of header was given |
| QuiltHeaders.HeaderReplaced | src/quilt.cpp:6738-6762 | Replacing the header of a patch keeps its diff, and the new header is then the header |
| QuiltHeaders.ImportedDiff | src/quilt.cpp:7106-7150 | Whatever header an import keeps, the diff is that of the patch imported, and the header is the one chosen |
| QuiltStack.QuiltState.Fork | src/quilt.cpp:7684-7840 | The top patch goes on under a new name, with the same layers, and its text is copied; a refusal changes nothing |
| QuiltStack.QuiltState.RefreshFork | src/quilt.cpp:5680-5778 | A new patch on top whose backups are the files between it and the old top; layers below the old top are kept; a refusal changes nothing |
| SplitOff.SplitOffIsPushed | src/quilt.cpp:5717-5755 | The backups of a split-off patch are the files as the patch below made them; so whatever is changed in its files afterwards, popping it brings exactly these back |
| QuiltStack.RunCommands | src/quilt.cpp:3974-4118 | Over any run of the eight commands the series has no patch twice and the applied list is a prefix of it |
| QuiltStack.RunStack | src/quilt.cpp:4169-4277 | Over any run of pushes and pops, layers no pop reached are unchanged and no file is empty that was not; back at the depth of the start, so are the applied list and all files, rejects aside |
| Annotate.FillTable | src/quilt.cpp:4333-4369 | The table holds the LCS length of all suffixes |
| Annotate.ReannotateLines | src/quilt.cpp:4333-4369 | The lines that keep an annotation are a longest common subsequence, and every other line gets the new one |
| DependencyGraph.CollectReachable | src/quilt.cpp:8046-8074 | Exactly the nodes reachable along or against the edges |
| DependencyGraph.HasAlternatePath | src/quilt.cpp:8076-8096 | Sound and complete for detours, cyclic graphs included |
| DependencyGraph.ReduceEdges | src/quilt.cpp:8098-8116 | Exactly the edges with a detour in the original graph are dropped |
| DependencyGraph.ReductionIsTransitiveReduction | src/quilt.cpp:8098-8116 | With edges from earlier to later patches: reachability is kept, no edge left is redundant, and the result is contained in every set of edges with the same reachability |
| DependencyGraph.BuildEdges | src/quilt.cpp:8335-8362 | An edge names a file exactly if the later patch depends on the earlier one through it; all edges go from earlier to later |
| VersionOrder.SplitDigits | src/pkg-config.c:250-258 | The leading run of digits and what follows |
| VersionOrder.CompareVersions | src/pkg-config.c:1375-1418 | The loop compares token by token: runs of digits and other characters |
| VersionOrder.VersionsAreOrdered | src/pkg-config.c:1375-1418 | The comparison is a total order: opposite, transitive, and 0 only for identical versions |
| VersionOrder.NumbersByValue | src/pkg-config.c:1391-1406 | Numbers without leading zeros are ordered by value, however long |
| VersionLaws.NextCharacters | src/pkg-config.c:1383-1390 | Unless both versions go on with a digit, the smaller character comes first |
| VersionLaws.NextNumbers | src/pkg-config.c:1391-1408 | Where both go on with a number, the longer one comes later, and of two equally long the one of larger value |
| VersionLaws.NumbersAccepted | src/pkg-config.c:551-562 | A version that is a number is accepted exactly if its value stands in the required relation to the required one |
| PkgResolve.Pkgs.Locate | src/pkg-config.c:636-652 | Finds the package of a name or adds it; all others stay |
| PkgResolve.Pkgs.Prepend | src/pkg-config.c:654-659 | The linked list gets a new head |
| PkgResolve.Pkgs.AllPresent | src/pkg-config.c:661-668 | Equal counts mean that every located package is listed |
| PkgInvariant.StartKeeps | src/pkg-config.c:1496-1501 | The invariant of the traversal holds at the start |
| PkgInvariant.FinishKeeps | src/pkg-config.c:1505-1508 | Listing a loaded package keeps it |
| PkgInvariant.PopKeeps | src/pkg-config.c:1510-1514 | Leaving a finished level keeps it |
| PkgInvariant.SkipKeeps | src/pkg-config.c:1522-1523 | Passing over a package already known keeps it |
| PkgInvariant.UpgradeKeeps | src/pkg-config.c:1523-1537 | Making a private package public and going through what it requires again keeps it |
| PkgInvariant.LoadKeeps | src/pkg-config.c:1539-1568 | Loading a package and pushing both kinds of requirements keeps it |
| PkgInvariant.DoneMeans | src/pkg-config.c:1572-1573 | With the stack empty: loaded is reachable, public is reachable through public requirements, direct is named, each is listed once, and an acyclic graph is listed in dependency order |
| PkgDepth.FullStackIsDeep | src/pkg-config.c:1552-1565 | The stack of 256 levels is full only if a chain of requirements with 128 packages on it leads to the package named, and at least 85 packages are needed |
| PkgAsked.TakeHeard | src/pkg-config.c:1516-1571 | Every specification on the stack was named or is a requirement of a needed package, and every loaded package has the version that one of them asks for: each step keeps this |
| PkgResolve.Settle | src/pkg-config.c:1504-1508 | The step on the pointer structure is the step of the invariant |
| PkgResolve.Revisit | src/pkg-config.c:1520-1537 | The same for a package met again; it fails only with a full stack |
| PkgResolve.LoadNew | src/pkg-config.c:1539-1570 | The same for a new package; failures say what was missing, too old or really too deep |
| PkgResolve.StepMeasure | src/pkg-config.c:1503-1571 | Every step lowers a lexicographic measure, cyclic graphs included |
| PkgResolve.Turn | src/pkg-config.c:1503-1571 | One turn of the loop keeps the invariant and lowers the measure, or fails for a true reason: a version is too old only for a requirement that was made, and a full stack has a long chain of requirements under it |
| PkgResolve.Processor.Process | src/pkg-config.c:1489-1574 | It always ends; on success exactly the reachable packages are loaded, flags are right whatever the order of discovery, each is listed once, requirers before required if acyclic; and for each a named specification or a requirement of a needed package vouches, with its version; on failure the package named is missing, of a version that such a specification rejects, or at the end of a chain of requirements with 128 packages on it |
| Expand.ExpandString | src/pkg-config.c:1113-1172 | The loop over an explicit stack of 128 slots halts, never overruns, and gives the recursive expansion, which the laws below determine |
| ExpandLaws.PlainText | src/pkg-config.c:1120-1169 | A text without marks stays as it is |
| ExpandLaws.DollarText | src/pkg-config.c:1160-1166 | Two dollar signs give one |
| ExpandLaws.ReferenceText | src/pkg-config.c:1121-1158 | A reference gives the expansion of its value, the global one before that of the package, between what is before it and the expansion of what is behind the closing brace; it is too deep or undefined exactly as the levels and bindings say |
| ExpandLaws.OpenReferenceText | src/pkg-config.c:1134-1138 | A reference that is not closed takes all that is left for its name |
| ExpandLaws.EveryText | src/pkg-config.c:1118-1169 | Every string has one of these shapes, so that the laws determine its expansion |
| Expand.ExpandsIffChainsGood | src/pkg-config.c:1123-1157 | A string expands exactly if every chain of references from it is defined and short enough |
| Expand.CyclesNeverExpand | src/pkg-config.c:1140-1145 | A variable that leads back to itself never expands, at any number of levels |
| Expand.MoreLevels | src/pkg-config.c:1116-1131 | The stack size does not show in the text |
| HashTrie.Trie.Find | src/pkg-config.c:456-470 | The walk ends at the key exactly if it is bound, for any hash, past the point where the shifted hash is all zero |
| HashTrie.NarrowWalk | src/pkg-config.c:456-470 | A walk by the top two bits of a 32-bit hash is the walk of the 64-bit hash with these bits in its upper half, so the trie stands for both |
| HashTrie.Trie.Bind | src/pkg-config.c:456-470 | A binding is added or replaced; all other keys keep theirs |
| HashTrie.Trie.Lookup | src/pkg-config.c:472-482 | A lookup finds exactly what is bound |
| HashTrie.Trie.Upsert | src/vc++filt.c:299-313 | Finds or adds a key; without memory and key nothing changes, and null is returned exactly then |
| SymbolCache.CallCache.Undecorate | src/vc++filt.c:337-353 | The result is that of the uncached call for every pattern of failing allocations; what is remembered stays so |
| Handshake.MovesKeep | src/threads.c:41-69 | Every move of either thread, spurious wakeups included, keeps the invariant |
| Handshake.RunsAreSafe | src/threads.c:41-69 | In every run the child gets its function and argument and never touches the record after the creator has returned |
| Handshake.NeverStuck | src/threads.c:58-64 | As long as the creator has not returned, some thread can move other than by a spurious wakeup |
| Handshake.RunsEnd | src/threads.c:58-64 | Every run is as short as its spurious wakeups allow, and where only these are left the creator has returned |
| HexBits.HasOctetExactly | src/rexxd.c:375-389 | The word trick finds an octet exactly if it is there |
| HexBits.HexDumpLenExactly | src/rexxd.c:1181-1208 | The multiplication and the table give the length up to the first two blanks, ignoring top bits |
| HexDigits.HexOffset | src/rexxd.c:671-682 | An offset is written in 8 digits, or in 16 if it needs more |
| HexDigits.ParseOffsetText | src/rexxd.c:1078-1094 | Invalid, too large, or the value of the digits |
| HexDigits.OffsetParses | src/rexxd.c:1078-1094 | Every offset printed below 2^63 is read back |
| HexStreams.Input.Refill | src/rexxd.c:456-474 | Whatever a read returns, nothing of the input is lost; only a read of nothing ends it |
| HexStreams.Input.NextBytes | src/rexxd.c:523-551 | The next octets, fewer only at the end, however short the reads |
| HexStreams.Input.NextLine | src/rexxd.c:494-521 | The next line with its newline, across any number of reads |
| HexStreams.Output.Flush | src/rexxd.c:579-585 | What is in the buffer reaches the file at its place, unless the device is faulty |
| HexStreams.Output.Write | src/rexxd.c:587-601 | Octets are written at the position, across any number of flushes; it fails only on a faulty device or past the largest position |
| HexStreams.Output.Seek | src/rexxd.c:603-627 | The position moves on, with or without a seekable file; where it is not, zeros fill the gap; it fails only on a faulty device, backwards, or past the largest position |
| HexWords.LastOctets | src/rexxd.c:1166-1179 | The octets of the accumulated word are those the last digits spell |
| HexWords.Accumulate | src/rexxd.c:1147-1164 | Characters other than digits are passed over, and every sixteen digits are eight octets written |
| HexWords.Finish | src/rexxd.c:1166-1179 | The digits left over are written; all digits together are spelled in order |
| HexWords.Decode | src/rexxd.c:1260-1265 | Reading a text writes exactly the octets its digits spell |
| HexLines.Cut | src/rexxd.c:397-417 | Cuts at the first occurrence, blocks of eight skipped |
| HexLines.HexDumpTrim | src/rexxd.c:1210-1229 | Steps of seven find the first gap, also across blocks |
| HexLines.BodyReadsBack | src/rexxd.c:749-839 | A line with any columns, group length, case and text column has its gap after the digits, and these spell its octets |
| HexEntries.FitsOnce | src/rexxd.c:838-839 | The text of a line is determined by its offset and octets |
| HexEntries.EntriesStandForInput | src/rexxd.c:778-840 | The lines shown, skipped runs filled with zeros, stand for exactly the input |
| HexSkips.ShownExactly | src/rexxd.c:778-840 | Shown are all lines but those of zeros right behind another such line, if these are to be skipped, and never but the last; there is a star exactly where lines are left out |
| HexDump.FillLine | src/rexxd.c:805-819 | The template, overwritten in place, is the line, also for a short last one |
| HexGroups.BodyIsGrouped | src/rexxd.c:755-779 | A line is a colon, a space, the octets in groups with one space between each two, in digits of the case asked for, blanks up to the text column, and the text |
| HexGroups.LineText | src/rexxd.c:671-682 | Before that stands the offset, in 8 digits or from 2^32 on 16, in lower case |
| HexDump.RunHexdump | src/rexxd.c:749-841 | The lines printed are exactly those to be shown, with skipping, and cover the whole input |
| HexUndump.Trim | src/rexxd.c:428-436 | Whitespace is cut off both ends |
| HexUndump.UndumpLine | src/rexxd.c:1235-1265 | A printed line writes its octets at its offset; only a faulty device or an end past the largest position prevents it |
| HexUndump.RunRHexdump | src/rexxd.c:1231-1267 | All lines together write what they stand for; only a faulty device or an end past the largest position prevents it |
| HexUndump.DumpAndUndump | src/rexxd.c:749-841 | Reverse dump of dump is the identity for every input, column count, group length, case, skipping and pattern of short reads; it fails only on a faulty device or if the dump itself is longer than the largest position |

## Left out

Not modelled:

- Messages, colours, timestamps' contents, command-line parsing, mail, diffstat, and context-format diffs: only easy members.
- Merge-conflict output of the patch engine (`--merge`).
- Fixed integer widths in `src/quilt.cpp` and `src/pkg-config.c`: numbers are unbounded, and a hunk range too large for the original's parser is not an error here.
- The order in which hash maps of the original are iterated: where it matters, the proofs hold for every order.
- Sorting by the library function: modelled as insertion sort, of which only sortedness and contents are used.
- `.pc` file parsing, the search path, and resolving a path to a package name: the repository of packages is a map from names to what they require; a package whose requirements do not parse is not part of this model.
- `--maximum-traverse-depth`: no limit is assumed, since with one the result depends on the visiting order.
- The hash function, the undecorator of symbols and the test for conflicting patches in the graph: parameters. The cache's temporary buffer, which an uncached result aliases until the next call, is a fresh string.
- Output of `Expand` before a failure: a failing expansion has no text; the environments are maps there, which `HashTrie` justifies.
- Quilt's input and output errors, `QUILT_PATCH_OPTS`, push with `--refresh`, automatic refresh before pop, default names for forks, and the rest of refresh. An import takes one file and is given the name and the text of the patch. Backup directories that lie inside one another because one patch name is a prefix of another.
- Paths are compared as text: two spellings of one file are two files.
- Hex dump with bit, decimal, include, PostScript and little-endian output, display offset, seek and length limits; reverse dump of texts that no dump prints. The character table is a parameter. Offsets do not wrap at 64 bits.
- Releasing the lock in the handshake is one atomic step, and no other threads take part.

Stated with conditions the code decides:

- DiffThenPatch.PatchOfDiffIsNewFile: asks for at least one line of context, since `ContextZero.PatchWithoutContext` has the case without; labels have no line break.
- ContextZero.PatchWithoutContext: is about files in which no line ends in two carriage returns.
- QuiltStack.RunStack: asks for patches that name all their targets in `+++` lines, none of these hidden or a reject or empty at the start, and whose new files have text, because each of these would be lost by a pop; other files may be empty; reject files are not followed.
- OwnPatches.PushedAndPopped: is about one file with a plain name and strip level 1, at least one line of context, and line endings that a patch brings back.
- ReversedPush.ReversedIsRefused: is about a file rewritten without a line in common; with lines in common the trial may find a place by chance.
- HexLines.HexDumpTrim: for a line without a gap the length is that of the padded last step, which may lie one past the end; such lines are never printed by a dump, and the rest of the line is taken as a whole.
- HexUndump.RunRHexdump: is about lines as a dump prints them, into a fresh output. Of a device that may fail nothing is said of when it does.
- SplitOff.SplitOffIsPushed: is about a patch that applied without force and with the usual fuzz, names all its targets, and had no empty file; where changes are made in other files, popping leaves these.
- QuiltHeaders.HeaderReplaced: is about texts whose lines do not end in a carriage return, and headers in which no line starts a diff.
- PkgResolve.Processor.Process: a version is checked only when a package is first loaded, as in the original; a later, stricter requirement is not looked at.
