# Proofs about MemDiver's interval, window and log machinery

MemDiver reads memory dumps: it scans captured bytes in windows, compares dumps at corresponding
addresses, pages through byte-class regions, tints bytes by page state, lists heap roles and
instructions, and files what analysts conclude. Several of its components replace something
simple by something fast, and have to agree with it. This project models them in Dafny and proves
that they do, for all inputs; `dafny verify dfyconfig.toml` checks everything.

How the files follow the program:

| files | what they model |
|---|---|
| `ScanPlan.dfy`, `ScanGaps.dfy`, `ScanWindows.dfy`, `WindowedDetection.dfy` | captured runs merged and clipped into segments, the gaps between them, segments read in overlapping windows; which window reports a match; windowed scanning against whole-run scanning, for any detector |
| `Strings.dfy`, `StringWindows.dfy`, `StringScan.dfy`, `StringRows.dfy`, `StringTable.dfy`, `StringClips.dfy` | string extraction, the strings producer with its row limit and counters, what its rows say in bytes and addresses, what a complete table promises and what its count of clipped strings is |
| `CacheModel.dfy`, `CacheEffects.dfy`, `ReaderCache.dfy` | the reference-counted reader cache: its locked steps as functions on an abstract state, with runs of them; what a step does key by key; the class that carries them out |
| `RecordLog.dfy`, `RecordBatches.dfy`, `RecordHistory.dfy`, `RecordStore.dfy` | the append-only analysis log: single appends, batches, what is accepted and written line by line, chains of superseding entries, current entries |
| `VaTranslation.dfy`, `WindowProjection.dfy`, `CrossDump.dfy`, `AlignedWindow.dfy`, `DumpMemory.dfy`, `RegionPaging.dfy` | the aligned window: address translation and its index, projection into segments and gaps, reading each dump, what that shows of the dumps' memories, counting distinct values, paging regions |
| `PageStates.dfy`, `PageWindow.dfy` | page-state tables by a sweep, and their clip, subtraction and merge in window coordinates |
| `HeapRoles.dfy`, `Disassembly.dfy`, `StructMembers.dfy` | heap role runs and chunk lookups, the budgeted disassembly loop, structure members by offset |
| `RuleArchive.dfy`, `RuleStore.dfy` | rule sources archived before they are overwritten: file writes that may stop at any point, and the store |
| `LabelledRuns.dfy`, `Sequences.dfy` | runs of addresses and what a list of them denotes; sorting, bisection, sums |

Lists of runs are given a meaning first: how often they put a label on an address. Every
transformation is stated against that meaning, for every address. Where the result is also
ordered, disjoint and maximally joined it is called canonical, and there is only one canonical list with a
given meaning. Objects the program updates in place are classes whose methods are tied to
functions on an abstract state; what the program promises is proved about those functions.

Reading a dump, the disassembly engine, digests, and a heap layout's role lookup are parameters with the contract
their callers rely on. A locked section is one step.

## Where code and documentation differ

The model follows the code. These are the places where the code does less than its own text says, or
something a reader may not expect, with a concrete input or the exact condition:

- `owns` (app/scan_plan.py:306-320) says that the tail of a long string is never reported again. For a minimum
  length that a window can hold after the guard, that takes a guard of one character: an overlap of two bytes for
  ASCII and of four for UTF-16LE. With less a tail comes back (`StringWindows.TailReportedAgain`,
  `NoTailsExactly`, `GuardedByOverlap`). The shipped overlap is far larger.
- `owns` also says that a string that outruns its owner is clipped at the owner's end. It is lost when the part
  before that end is shorter than the minimum length: then no window reports it, `clipped_strings` does not count
  it, and the table may still say `complete` (app/tools_strings.py:262-275). `_validated` (60-77) bounds the
  minimum length only from below. No string is lost if and only if the minimum length fits in
  `overlap - overlap/2 + 1` bytes (`StringWindows.SevenLettersLost`, `AllReportedExactly`,
  `StringTable.CompleteTableLacks`, `RowForEveryStringExactly`).
- `clipped_strings` (app/tools_strings.py:134-144) misses two kinds of string that outrun their owner: those lost
  as above, and UTF-16 strings whose owner ends inside a character (`StringWindows.ClippedExactly`,
  `StringClips.CompleteClips`).
- `latest` (analysis/record_store.py:129-135) collects superseded ids by truth value, so an entry whose id is
  empty stays current after it is superseded (`RecordHistory.SupersededYetCurrent`, `LatestIsTips`).
- `_clip` (app/page_state_runs.py:106-123) starts one run before the segment. On a table with
  overlapping runs an earlier, longer run is missed (`PageWindow.OverlapIsMissed`,
  `SearchMissesNothing`).
- `_va_offset_index` (app/tools_consensus.py:1541-1600) is meant to answer as the linear walk does. On overlapping
  runs, which core/dump_source.py:923-925 admits, the two can name different bytes
  (`VaTranslation.OverlapMisleadsIndex`); `IndexIsWalkExactly` says for which tables they agree.
- `gap_stats` (app/scan_plan.py:326-330) counts neighbours that touch in address but not in the
  stream as a gap of no bytes, and a segment inside another one as a gap of fewer than none
  (`ScanGaps.TouchingCounted`, `NestedCounted`, `GapCountExactly`).
- "Nothing is hard-deleted" (analysis/yara_rule_store.py:16-18) fails when two sources of a name share the
  twelve-digit digest (`RuleArchive.CollisionLoses`). It holds over a run exactly when no operation replaces or
  removes a live source while history holds another one under its name and digest
  (`RuleArchive.NothingLostExactly`).
- A `"va"` offset below zero is answered with an address below the span instead of `None`
  (app/tools_consensus.py:308-316, `VaTranslation.ViewsRoundTrip`).

## Model

| member | source | states |
|---|---|---|
| ScanPlan.Merged | app/scan_plan.py:98-106 | the joined table holds the same (va, vas) byte pairs, each as often, and the same total length, and leaves no neighbours that could be joined; when no address is captured twice it is the canonical table of its byte pairs |
| LabelledRuns.CanonicalUnique | app/scan_plan.py:98-106 | two lists of positive, ordered, maximally joined runs that put the same labels on the same addresses are the same list, so every result proved canonical is the only one with its meaning |
| ScanPlan.Segment.Clip | app/scan_plan.py:59-73 | clipping keeps exactly the addresses in range, keeps every coordinate shift, reads at most `align - 1` lead bytes and starts on the grid or at the run's own start; nothing is returned exactly when nothing is in range |
| ScanPlan.ClippedScansScope | app/scan_plan.py:129-134 | an address from `offset` (or 0) on and below `offset + length` (or without end) is scanned exactly as often as the unclipped segments hold it, and any other address never, whatever the alignment |
| ScanPlan.ScanSizeIsPlanSize | app/scan_plan.py:186-198 | the size computed without alignment is the captured size of the aligned plan |
| ScanPlan.GapStats | app/scan_plan.py:326-330 | the gap bytes are what the span, from the first placed segment's start to the last one's end, holds beyond the captured bytes; one gap fewer than placed segments is counted |
| ScanPlan.PlacedAreSegments | app/scan_plan.py:326-330 | the placed segments are, in order, the address and length of each segment that has an address |
| ScanGaps.GapCountExactly | app/scan_plan.py:326-330 | for all placed segments, overlapping or not, against the one canonical list of uncovered stretches between them: the gap bytes never exceed their total length and equal it if and only if no address is held twice; the gap count is never below their number and equals it if and only if, besides, no segment ends where another starts |
| ScanGaps.StretchesExist | app/scan_plan.py:326-330 | that list of maximal uncovered stretches exists for all segments, overlapping or not |
| ScanGaps.TouchingCounted | app/scan_plan.py:326-330 | any two placed segments that touch: no address between them is uncovered, yet one gap of no bytes is counted |
| ScanGaps.NestedCounted | app/scan_plan.py:326-330 | any two placed segments of which the second lies inside the first: no address between them is uncovered, yet one gap of fewer than no bytes is counted |
| ScanPlan.SpanIsCapturedPlusGaps | app/scan_plan.py:326-330 | captured bytes plus gap bytes are the span from the lowest start to the end of the highest-starting segment |
| ScanWindows.WindowsTile | app/scan_plan.py:257-280 | the windows of a run start one step apart from 0, only the final one says `last` and it ends at the run's end, and the owned bytes add up to the run |
| ScanWindows.ExactlyOneOwner | app/scan_plan.py:306-320 | every position of a run is reported by exactly one window, which sees more than `overlap - overlap/2` bytes from it on (or all that is left) and, unless it is the first, at least `overlap/2` bytes before it |
| WindowedDetection.WindowedIsCut | app/scan_plan.py:292-320 | for any detector that looks back no further than the guard, the owned reports of all windows in order are exactly what scanning each position up to its owner's end finds, each once |
| WindowedDetection.WindowedIsWholeExactly | app/scan_plan.py:306-320 | windowed scanning equals whole-run scanning if and only if cutting the run at an owner's end changes nothing that starts at a position that owner reports |
| WindowedDetection.WindowedIsWhole | app/scan_plan.py:306-320 | for any detector local to the guard on both sides, any run length and any window larger than the overlap, the concatenated owned reports are the whole run's matches |
| Strings.ExtractAscii | core/strings.py:70-98 | the single pass finds exactly the maximal printable runs that are long enough, in order of position |
| Strings.ExtractUtf16 | core/strings.py:147-165 | the leftmost-longest pattern matches are exactly the maximal wide strings, whatever their byte alignment |
| Strings.Matches | app/tools_strings.py:89-96 | both encodings together, sorted by offset, are exactly the strings found position by position |
| StringWindows.StringsAreLocal | app/scan_plan.py:306-320 | whether a string starts at a position depends on no more than one character before it |
| WindowedDetection.SeenIsCut | app/scan_plan.py:292-320 | the same whenever every window sees the positions it owns as the cut run shows them, which covers detectors that look back further than the guard but find nothing there |
| WindowedDetection.OwnerReports | app/scan_plan.py:306-320 | whatever the detector and the guard, windowed scanning reports at a position precisely what the position's owner finds there in the bytes it reads |
| StringWindows.StringsAreCut | app/scan_plan.py:306-320 | windowed extraction reports, by its start, each string as far as it lies below its owner's end, if that part is long enough to be reported, and nothing else; stated for every request whose guard hides tails |
| StringWindows.StringReported | app/scan_plan.py:306-320 | whatever the guard, a string of the run is reported at its start if and only if the characters of it below its owner's end reach the minimum length |
| StringWindows.AllReportedExactly | app/scan_plan.py:306-320 | for every window and overlap, every string of every run is reported if and only if, for each encoding looked for, the minimum length fits in the `overlap - overlap/2 + 1` bytes an owner sees at a seam |
| StringWindows.SeamStringLost | app/tools_strings.py:60-77 | for every request above that bound, a concrete run with a long enough string at a seam that no window reports; the minimum length is only bounded from below |
| StringWindows.SevenLettersLost | app/tools_strings.py:60-77 | with windows of six bytes, an overlap of four and a minimum length of five, seven letters at a seam are not reported at all |
| StringWindows.ShortStringsWhole | app/scan_plan.py:306-320 | when no string spans more than `overlap - overlap/2` bytes the windowed scan finds exactly the run's strings |
| StringWindows.ClippedExactly | app/tools_strings.py:134-144 | a string that outruns its owner's end is counted as clipped if and only if enough of it is left to be reported and the end does not fall inside one of its characters |
| StringWindows.CountedIsAtEnd | app/tools_strings.py:134-144 | a string that does not outrun its owner's end is counted if and only if it is long enough, ends exactly there and the run goes on |
| StringClips.ClipsAddUp | app/tools_strings.py:147-174 | where the guard hides tails, the `clipped` counter of a scan that reads every window in full is, segment by segment, the number of strings counted by that rule at their owner's end |
| StringClips.CompleteClips | app/tools_strings.py:262-275 | the `clipped_strings` of a complete table is the number of strings of the captured bytes so counted |
| StringWindows.TailReportedAgain | app/scan_plan.py:306-320 | for every grid and request with a guard narrower than a character, and a window that can report what follows the guard: a concrete run on which the scan reports a position inside a string, where none starts |
| StringWindows.NoTailsExactly | app/scan_plan.py:306-320 | whatever encodings and minimum length are asked for, the tail of a string is never reported as another string, on any run, if and only if each encoding looked for has a guard at least one character wide or a window too short to report anything after the guard |
| StringWindows.GuardedByOverlap | app/scan_plan.py:306-320 | for a minimum length that a window can hold after the guard that condition is an overlap of at least two bytes, and of four once UTF-16LE is looked for |
| StringWindows.ShortWindowsHaveNoTails | app/scan_plan.py:306-320 | the overlap alone does not decide it: windows of one byte without overlap report no tails of strings of two characters |
| StringScan.SegmentWindows | app/tools_strings.py:147-163 | only a segment's final window reports `last`, and it is the plan's last window exactly for the last segment |
| StringScan.Scan.WindowRows | app/tools_strings.py:117-144 | the rows of a window are those of the matches it owns, in order, each with the place of its match in all three coordinates, its encoding and its length in characters and bytes; `clipped` grows by the owned matches that reach its end |
| StringScan.Scan.ScanSegment | app/tools_strings.py:147-163 | scanning a segment adds its windows in order until the limit is met, and sets `truncated` from the rows and windows left |
| StringScan.Scan.ScanPlan | app/tools_strings.py:166-174 | the counters and rows are those of the windows read up to the first one that met the limit |
| StringRows.TextIsSpelled | core/strings.py:70-98 | byte by byte: a text of a given length is found at a place if and only if that many characters follow each other from there on, none precedes, none follows, and they are enough |
| StringRows.RowsTell | app/tools_strings.py:117-144 | without the functions that compute rows: every row of a scan says of a string spelled in what some window read, at a place that window is to report, where it starts by run offset, address and stream offset, and how long it is in characters and bytes; and every such string has its row |
| StringTable.TruncatedExactly | app/tools_strings.py:147-163 | the returned rows are the first ones of the unlimited scan; without `truncated` every window was read and every row is returned; `truncated` holds if and only if rows were dropped or the limit was met before the last window |
| StringTable.NoShortReads | app/tools_strings.py:147-163 | no short read was counted if and only if every window came back in full |
| StringTable.BytesAddUp | app/tools_strings.py:147-174 | with no short read the bytes counted as scanned are exactly the plan's captured bytes, overlaps counted once |
| StringTable.RowsAddUp | app/tools_strings.py:147-174 | reading every window yields, segment by segment, one row for each string of the captured bytes as far as its owner sees it, when that is long enough, and no other row |
| StringTable.StringsTable | app/tools_strings.py:262-275 | every row is true of the bytes a window read (as in `StringRows.RowsTell`), and without `truncated` no string is left out and the byte count is the sum of what each window counts of its read; `truncated`, `complete` and, when complete, `clipped_strings` are the ones the scan of all windows owes |
| StringTable.CompleteScan | app/tools_strings.py:262-275 | a table that says `complete` holds, segment by segment, a row for everything the windows report and accounts for every captured byte once, whatever the guard |
| StringTable.CompleteTable | app/tools_strings.py:262-275 | where the guard hides tails those are exactly the rows of the strings as far as their owners see them |
| StringTable.RowTellsString | app/tools_strings.py:117-144 | where the guard hides tails every row of every table, complete or not, names in all coordinates a place of the captured bytes where a string starts, with the characters its owner sees of it |
| StringTable.NoStringMissed | app/tools_strings.py:262-275 | when the minimum length fits in what an owner sees at a seam, a complete table has for every string of every segment, of any length and whatever the guard, a row at its start with the characters its owner sees |
| StringTable.RowForEveryStringExactly | app/tools_strings.py:262-275 | for given encodings, sizes and minimum length, complete tables of all dumps and limits have a row for every string if and only if the minimum length fits in what an owner sees at a seam |
| StringTable.CompleteTableLacks | app/tools_strings.py:262-275 | for every request above that bound, a dump whose complete table has no row for one of its strings and does not count it as clipped |
| CacheModel.StepKeepsInv | app/reader_cache.py:151-279 | every acquire, failed open, release, invalidation and shutdown keeps the cache invariant and the capacity |
| CacheModel.EveryRun | app/reader_cache.py:151-279 | over every interleaving with matched releases: no reader is closed while held, none twice, each is open exactly while it is cached or held, and the map never exceeds its capacity |
| CacheModel.ShutdownClosesAll | app/reader_cache.py:246-279 | once nothing is held a shutdown leaves every reader ever opened closed exactly once |
| CacheModel.EvictsLeastRecent | app/reader_cache.py:191-217 | an acquire drops at most one entry, only when over capacity: the key acquired longest ago, never the one just acquired |
| CacheEffects.InvalidatedDoes | app/reader_cache.py:219-244 | in the state: invalidating takes one place out of the order and one key out of the table, dismisses that entry and changes nothing about any other |
| CacheEffects.AcquiredDoes | app/reader_cache.py:151-217 | in the state: acquiring moves the key behind the others with its entry, and drops the first key when that overfills the cache |
| CacheEffects.InvalidatedIsReopened | app/reader_cache.py:219-244 | over every run: the first acquire of a key after its invalidation, whatever happens in between, makes an entry that no earlier step had, so the replaced file is opened anew |
| ReaderCache.MslReaderCache.Acquire | app/reader_cache.py:151-173 | the key is the most recent one with its entry, the others keep their order and entries, and the least recent one is gone if the cache was full; the entry gains a reference; the invariant holds and every reader that is held is open |
| ReaderCache.MslReaderCache.Release | app/reader_cache.py:175-189 | releasing drops a reference; an entry that is no longer cached has its reader closed once at its last one, and open until then |
| ReaderCache.MslReaderCache.EvictOverCapacity | app/reader_cache.py:191-217 | eviction removes oldest keys down to the capacity and closes or defers each reader |
| ReaderCache.MslReaderCache.Invalidate | app/reader_cache.py:219-244 | the key is gone from the map and the order, every other key keeps its entry and its place; the dropped entry is closed if nobody holds it, else open and marked; true exactly when there was one |
| ReaderCache.MslReaderCache.Shutdown | app/reader_cache.py:246-279 | shutdown empties the map; every entry ever made is closed once if nobody holds it, else open and marked |
| RecordLog.AppendEachGrows | analysis/record_store.py:89-109 | what appending a batch one entry at a time adds to each file is that capture's entries in batch order |
| RecordBatches.FileReads | analysis/record_store.py:203-221 | reading a file gives its entries in file order, or the capture and the 1-based number of the first line that does not parse; a missing file reads as empty |
| RecordBatches.AppendAccepts | analysis/record_store.py:73-87 | a single append succeeds if and only if the capture id is 1 to 128 allowed characters, no line of the file is corrupt, none has the entry's id, and the entry supersedes nothing or an entry on some line; it then adds one line to that file. Otherwise it gives the first reason: bad capture id, first corrupt line, duplicate, unknown parent |
| RecordBatches.EachFits | analysis/record_store.py:89-109 | appending a batch one by one goes on for as long as entries fit: an entry fits if and only if the same holds of its capture's file and of the entries for that capture before it in the batch; the first one that does not ends it with its first reason |
| RecordBatches.AppendsExtend | analysis/record_store.py:167-178 | a batch appended as a whole changes only the files of its captures, and each gains the lines of precisely its entries, in batch order |
| RecordStore.AnalysisRecord.Check | analysis/record_store.py:97-105 | checking without writing finds the first entry, and the error, at which the one-at-a-time appends would fail: the first that does not fit, told by lines and batch as in `RecordBatches.EachFits` |
| RecordStore.AnalysisRecord.AppendMany | analysis/record_store.py:89-109 | a batch ends with the same files as appending its entries one after the other, or fails at the same entry with the same error and leaves every file as it was; told by lines and batch: it succeeds if and only if every entry fits, fails with the first misfit's error otherwise, and each file keeps its lines and gains its entries in batch order; files that are logs stay logs |
| RecordHistory.AppendsKeepLogs | analysis/record_store.py:156-164 | whatever is appended, ids stay unique and every superseded entry is filed earlier |
| RecordStore.Ancestors | analysis/record_store.py:181-189 | the walk back ends, and gives the linked chain from an entry that supersedes nothing to the entry asked for |
| RecordStore.Descendants | analysis/record_store.py:192-200 | the walk forward ends, takes the newest child at each step and stops at an entry nothing supersedes |
| RecordStore.AnalysisRecord.History | analysis/record_store.py:143-153 | the history is the linked chain from a root through the entry to an unsuperseded tip, or a not-found or read error |
| RecordStore.AnalysisRecord.Get | analysis/record_store.py:137-141 | the entry filed under the id, or a not-found error exactly when there is none |
| RecordHistory.ChainHasNoDuplicates | analysis/record_store.py:181-200 | no entry occurs twice in a chain of a log |
| RecordHistory.HistoryUnique | analysis/record_store.py:143-153 | an entry has one history |
| RecordHistory.LaterEntriesShareHistory | analysis/record_store.py:143-153 | every entry that follows in a history has that same history |
| RecordHistory.LatestIsTips | analysis/record_store.py:129-135 | the current entries are exactly the tips that are not retractions, in file order, if and only if no such entry with an empty id has been superseded |
| RecordHistory.LatestAreCurrent | analysis/record_store.py:129-135 | for every log and kind: the result is, in file order, exactly the entries of the kind asked for that are no retractions and that no entry supersedes, an empty id counting as superseded by none |
| RecordHistory.SupersededYetCurrent | analysis/record_store.py:129-135 | two appends after which a superseded entry with an empty id is still reported as current |
| RecordHistory.NeverReturns | analysis/record_store.py:129-135 | an entry that has left the current ones never returns, whatever is appended |
| RecordHistory.OnlyTheTipIsCurrent | analysis/record_store.py:129-153 | of a history only the tip can be current, and it is unless it is a retraction |
| VaTranslation.VasRuns | core/vas_runs.py:12-47 | the run table lists the source's ranges that hold bytes in order, each with its own addresses whether the source gives lengths or ends, laid end to end in the stream |
| VaTranslation.StackedIsDense | core/vas_runs.py:12-47 | an offset lies in some run exactly when it is below the captured total |
| VaTranslation.TranslateVa | app/tools_consensus.py:283-343 | the lookup in either direction is the model's translation for each of the three views |
| VaTranslation.Inverse | app/tools_consensus.py:318-332 | for runs disjoint in both coordinates the two directions are mutual inverses on captured addresses and undefined exactly elsewhere |
| VaTranslation.StreamRoundTrips | app/tools_consensus.py:318-332 | for a source's own table every stream offset round-trips if and only if no address is captured twice |
| VaTranslation.ViewsRoundTrip | app/tools_consensus.py:308-316 | every captured byte passes from its stream offset to the address view and back unchanged if and only if no address is captured twice and no run starts below the span; every offset of the address view is answered, and returns if and only if it is not negative |
| VaTranslation.IndexIsWalk | app/tools_consensus.py:1541-1600 | on runs that hold no address twice the sorted bisect index answers every address as the linear walk does, -1 for none |
| VaTranslation.IndexIsWalkExactly | app/tools_consensus.py:1541-1600 | for a source's own run table, overlapping or not, the index and the walk agree on every address if and only if, wherever another run reaches into the addresses looked up in a run of the sorted table, that run stands earlier in the unsorted table and ends no earlier there |
| VaTranslation.Misled | app/tools_consensus.py:1541-1600 | where that fails, the first address looked up in the run, or the first one past its end, is answered differently |
| VaTranslation.OverlapMisleadsIndex | app/tools_consensus.py:1541-1600 | a table of two overlapping runs that the index and the walk answer differently |
| WindowProjection.CheckPartition | engine/consensus.py:272-292 | the sorted cursor check accepts a projection exactly when its segments and gaps cover each index of the window once, none is empty, and there is one class for each index |
| WindowProjection.GapXorSegment | engine/consensus.py:252-263 | each index of a window is in a gap or in a segment, never both |
| WindowProjection.FlatProjection | app/tools_consensus.py:451-492 | one segment up to the shortest dump's end; a class is reported exactly where a dump has a byte and a class was measured, -1 elsewhere |
| WindowProjection.FlatPartitions | app/tools_consensus.py:451-492 | a flat projection partitions its window and every gap index is unclassified |
| WindowProjection.Project | engine/consensus.py:883-949 | a walk's pieces, later ones winning, become a partition whose segments name the owning slab byte of each index and every dump's address of it, whose gaps nothing owns and whose classes follow ownership; no segment or gap could begin earlier |
| AlignedWindow.ReadDumpWindow | app/tools_consensus.py:640-747 | the buffer keeps the window's length and holds what each addressable segment's read returned; a byte is claimed exactly where a read captured it; the offset reported for a segment is where it was read |
| AlignedWindow.SegmentHolds | app/tools_consensus.py:713-743 | in a segment the window holds what that segment's read returned and claims exactly what it captured |
| AlignedWindow.NothingOutside | app/tools_consensus.py:713-743 | outside addressable segments a dump holds zero and claims nothing |
| AlignedWindow.CompareDumps | app/tools_consensus.py:1336-1350 | per index, the number of distinct values held by the unlocked dumps that captured it, 0 when no bytes are read |
| AlignedWindow.DifferMeansDisagreement | app/tools_consensus.py:16-52 | an index counts two or more values if and only if two dumps captured it and hold different bytes |
| DumpMemory.WindowShows | app/tools_consensus.py:815-842 | against each dump's memory by address: an index of an aligned segment holds and claims precisely the byte the dump captured at its own address for it, an index of a flat one what it captured at the shared offset, and nothing where the dump has no address its view can show; in the captured stream for as long as the stream follows memory |
| DumpMemory.ShowsOwnAddressExactly | app/tools_consensus.py:815-842 | in the captured stream an index shows an address of the run the stream has come to, and its own address if and only if that run holds it as far from its offset as the segment's first run does |
| DumpMemory.DifferIsInMemory | app/tools_consensus.py:815-937 | two or more values are counted at an index if and only if two unlocked dumps captured different bytes at their own addresses for it |
| AlignedWindow.GapIsSilent | app/tools_consensus.py:16-31 | at a gap index the class is -1, every dump's byte is 0 and unclaimed, and no value is counted |
| CrossDump.DenseValid | app/tools_consensus.py:849-857 | the mask is true exactly where a run claims the index, a run starting before the window being moved to its start at full length |
| CrossDump.DistinctCounts | app/tools_consensus.py:909-930 | sorting a column with the sentinel last and counting changes below `present` gives the number of distinct present values |
| CrossDump.CrossDumpRuns | app/tools_consensus.py:860-937 | every entry is the cardinality of the set of byte values held by the dumps whose runs cover that index, for any number of dumps |
| CrossDump.DiffersWhereDumpsDisagree | app/tools_consensus.py:880-895 | two or more values if and only if two present dumps disagree; none if and only if none is present |
| RegionPaging.KeptAreRuns | engine/consensus.py:1211-1227 | the length filters keep the regions' order and disjointness |
| RegionPaging.OffsetPage | app/tools_consensus.py:1861-1872 | the offset page holds the regions after the cursor up to the limit, and a cursor exactly when more remain |
| RegionPaging.RankPage | app/tools_consensus.py:1873-1891 | the rank page holds the next rows of the length order, and a cursor exactly when more remain |
| RegionPaging.ListingIsOrdered | engine/consensus.py:1276-1331 | the ranked list holds every qualifying region once, in the requested order |
| RegionPaging.ClassRegions | app/tools_consensus.py:1815-1891 | a page and its total are those of the listing of the regions with a length of at least 1 and `min_length` and, unless it is 0, at most `max_length`: by offset, or longest or shortest first with equal lengths by offset; it holds the rows after the cursor up to the limit, kept from 1 to 500, and a cursor that stands after them exactly when rows are left |
| RegionPaging.EveryRegionOnce | app/tools_consensus.py:1855-1891 | following the cursor until -1 visits every qualifying region exactly once in order, for any limits and both cursors |
| RegionPaging.SessionsEnd | app/tools_consensus.py:1855-1891 | no session is longer than one page more than there are regions |
| PageStates.BuildStateTable | app/page_state_runs.py:72-90 | the sweep emits a start-sorted table of the explicit states and of exactly the uncovered stretches between first start and furthest end, overlapping runs included; the stretches are the maximal ones when no run is empty |
| PageStates.RegionStateTable | app/page_state_runs.py:62-90 | for a dump's regions, overlapping or not: an address carries a state exactly when a page of an interval in that state holds it, and UNMAPPED besides where no page holds it but some pages start at or below it and some end above |
| PageStates.RunsCarry | app/page_state_runs.py:62-69 | the runs of regions put a state on an address if and only if page `k` of an interval in that state, `base + k * page_size` up to the next page, holds it |
| PageStates.TableStates | app/page_state_runs.py:72-90 | every address carries each explicit state as often as runs put it there, and UNMAPPED once more exactly where it is uncovered |
| PageStates.DisjointTable | app/page_state_runs.py:195-228 | for disjoint runs the table is ordered and gives each address precisely its one non-captured state |
| PageWindow.Clip | app/page_state_runs.py:106-123 | an index of the segment carries exactly the states its address has in the part of the table the search sees |
| PageWindow.SearchMissesNothing | app/page_state_runs.py:106-123 | clipping misses nothing if and only if every run it skips has ended by the segment's start |
| PageWindow.OrderedTableIsSearched | app/page_state_runs.py:106-123 | on a table without overlaps that condition always holds |
| PageWindow.OverlapIsMissed | app/page_state_runs.py:106-123 | an overlapping table of three runs for which the clip of a failed address is empty |
| PageWindow.SubtractValid | app/page_state_runs.py:126-148 | indices a valid run claims lose their states, all others keep them |
| PageWindow.MergeRuns | app/page_state_runs.py:151-160 | no index gains or loses a state, no touching neighbours share one, and runs without overlap become the canonical list |
| PageWindow.WindowPageStateRuns | app/page_state_runs.py:231-256 | on an ordered table and segments apart, an index has a state if and only if its segment maps it to an address with that state and no valid run claims it; the output is canonical |
| PageWindow.MemoryPageStateRuns | app/page_state_runs.py:195-256 | from a dump's memory runs to window indices in one statement: for positive runs and segments that do not overlap an index has a state if and only if no valid run claims it and its segment maps it to an address that a run puts in that state, or, for UNMAPPED, that no run covers inside the span; the output is canonical |
| PageWindow.RegionPageStateRuns | app/page_state_runs.py:62-256 | from a dump's pages to window indices: with no empty interval and no address in two, an index has a state if and only if no valid run has the index and its segment gives it an address that a page of that state holds or, for UNMAPPED, that lies in a hole between pages; the output is canonical |
| HeapRoles.Coalesced | app/tools_heap.py:592-607 | sorted positive runs become disjoint, maximally joined ones in which each offset carries the role of the first run covering it |
| HeapRoles.ViewRoleRuns | app/tools_heap.py:579-589 | a view offset carries a role exactly when the address its piece shows does, joined across pieces |
| HeapRoles.ViewChunkStarts | app/tools_heap.py:610-619 | the bisect start and early stop find exactly the chunks that start in a piece, each once, sorted |
| HeapRoles.ChunkAt | heap/model.py:209-216 | the search finds the chunk that contains an address, or none when none does |
| HeapRoles.NeighboursAreNearest | app/tools_heap.py:439-447 | the neighbours are the nearest chunks that end at or below and start above the address, the one that holds it left out |
| Disassembly.ListingIsStretch | app/tools_disasm.py:196-221 | a stretch's listing is all its bytes in order at contiguous addresses |
| Disassembly.DecodeStretch | app/tools_disasm.py:196-221 | the loop ends with the first `budget` rows of the listing, `cut` exactly when rows were left, and a stop for each undecodable row |
| Disassembly.Decode | app/tools_disasm.py:224-235 | the rows are the first `max_insns` of the listing of all stretches, truncated exactly when it is longer |
| Disassembly.RowsArePrefix | app/tools_disasm.py:224-235 | for any sound decoder the rows' bytes are a prefix of the captured bytes, no row crosses a gap, and truncation holds if and only if captured bytes are left undecoded; every row is an instruction the decoder returned for its stretch, or the bytes where it stopped, as many as are to be skipped or are left |
| Disassembly.GapsOf | app/tools_disasm.py:177-188 | the cursor loop computes the gaps before, between and after the stretches |
| Disassembly.GapsTileWindow | app/tools_disasm.py:177-188 | gaps and stretches together cover each address of the window once |
| Disassembly.GapsAreMaximal | app/tools_disasm.py:177-188 | when no stretch is empty the gaps are the maximal ones |
| StructMembers.ContainingFieldMeans | app/tools_code_evidence.py:168-182 | a field is found exactly when one contains the offset, and it comes first in the order of fields |
| StructMembers.TypeSizeIs | app/tools_code_evidence.py:142-165 | a type's computed size is its recorded one: of a structure as recorded, of an array count times element, of a bitfield its carrier's, of any other as recorded or else the usual C size |
| StructMembers.ContainingFieldSpans | app/tools_code_evidence.py:168-182 | of the recorded fields whose recorded size spans the offset (one byte where none is known) the one found starts last and has the first name, in dictionary order, of those that start with it; none is found exactly when none spans it |
| StructMembers.DescendIsSound | app/tools_code_evidence.py:185-202 | for any well-founded type graph the path resolves, independently, to the leaf at the offset walked over, the rest lies inside the leaf and nothing further is known there |
| StructMembers.MemberFound | app/tools_code_evidence.py:205-213 | a member is returned if and only if some recorded field of the structure spans the offset |
| StructMembers.MemberIsSound | app/tools_code_evidence.py:205-213 | field offsets and index times element size along the path sum to `isf_member_offset`, which plus `inner_offset` is the offset asked for; the inner offset is below the leaf's size when known and positive |
| RuleArchive.WriteKeepsSafe | analysis/plugin_store.py:99-108 | a write that replaces or removes only what is archived gives no source up |
| RuleArchive.OpKeepsSafe | analysis/yara_rule_store.py:98-113 | a put or delete stopped after any of its file writes keeps every source |
| RuleArchive.EveryRunIsSafe | analysis/yara_rule_store.py:98-175 | over every run, wherever operations stop, every source ever live is live or has its digest in history |
| RuleArchive.StepIsWrites | analysis/yara_rule_store.py:98-175 | the step that runs are made of is what the file writes an operation gets done come to, wherever it stops |
| RuleArchive.OnlyCollisionsLose | analysis/plugin_store.py:99-108 | a source that was live and cannot be read back has its place in history held by another source of the same name and short digest that was live too |
| RuleArchive.OpLosesExactly | analysis/yara_rule_store.py:98-175 | after a put or delete stopped after any write, a source can be read back if and only if the operation made it live, or it could be read back before and the operation did not take it out of its live file while history, before the operation, held another source under its name and digest |
| RuleArchive.PutKeepsExactly | analysis/yara_rule_store.py:98-113 | a completed put keeps the source it replaces if and only if that is the source put, or history has nothing under its name and digest, or has that source there |
| RuleArchive.DeleteKeepsExactly | analysis/yara_rule_store.py:154-175 | a completed delete keeps the source it removes if and only if history has nothing under its name and digest or has that source there |
| RuleArchive.SurvivesExactly | analysis/yara_rule_store.py:98-175 | over every run, wherever operations stop, a source can be read back at the end if and only if some operation made it live and none after that lost it |
| RuleArchive.NothingLostExactly | analysis/yara_rule_store.py:98-175 | every source that was ever live can be read back at every point of a run if and only if no operation of it replaces or removes a live source while history holds another one under its name and digest |
| RuleArchive.NothingIsLost | analysis/yara_rule_store.py:98-175 | while no two sources of a name share a short digest, every source ever live can be read back |
| RuleArchive.CollisionLoses | analysis/plugin_store.py:99-108 | for any digest and any two sources it does not tell apart, three puts of one name after which the second source is gone |
| RuleArchive.PutAll | analysis/plugin_store.py:161-180 | what a completed put leaves in the live files, the sidecars and history |
| RuleArchive.DeleteAll | analysis/yara_rule_store.py:154-175 | what a completed delete leaves: the source archived, a tombstone with the version |
| RuleArchive.VersionsIncrease | analysis/yara_rule_store.py:98-113 | after a completed put every later put of the name carries a greater version, through stopped operations, deletes and tombstones |
| RuleStore.RefusalJudges | analysis/yara_rule_store.py:85-97 | by characters and bytes: a name that is not a letter or underscore and up to 63 letters, digits and underscores is bad; then a source without any text is refused, then one of more than 262144 bytes in UTF-8, and no other |
| RuleStore.YaraRuleStore.Put | analysis/yara_rule_store.py:85-113 | a put is answered as in `RuleStore.RefusalJudges`, a refused one without effect; otherwise all writes of a put, the source reads back under the next version, unmodified, and the source it replaces can be read back exactly unless its digest was taken |
| RuleStore.YaraRuleStore.Delete | analysis/yara_rule_store.py:154-175 | not-found and bad-name errors without effect; otherwise all writes of a delete, the version kept, the source recoverable unless its digest was taken |
| Sequences.BisectRight | app/page_state_runs.py:115-116 | binary search returns the number of entries not above the key |
| Sequences.SortSorts | app/scan_plan.py:102-102 | sorting by a total preorder yields an ordered arrangement of the same elements |

## Left out

- Strings: the `utf-8` encoding (app/tools_strings.py offers it beside the two modelled), IOC classification of a string, region columns and filing into a case.
- StringTable.CompleteTable: stated for segments without lead bytes scanned from their own start, which is what the strings producer plans; the aligned lead of other producers is covered by ScanPlan.ClippedScansScope only.
- WindowedDetection.WindowedIsWhole: the detector is any function of the bytes and the position; the individual key finders are not modelled.
- CacheModel.EveryRun: a release is only modelled for a handle that is held, as the context manager that calls it guarantees; wall-clock statistics, key-material scoping and source wrappers are not modelled.
- RecordLog: JSON encoding of entries, timestamps, locations, payloads and support; a file line is an entry, blank, or text that does not parse. A file whose last line was torn is not modelled.
- RecordStore.AnalysisRecord.History: stated for files the store itself produced (unique ids, parents filed earlier); on a hand-edited file with a cycle the original loop does not end.
- WindowProjection.Project: the three walks that yield its pieces (engine/consensus.py:724-856) are not modelled; a piece is assumed to lie inside the window and the slab, in some layout row.
- AlignedWindow.ReadDumpWindow: a read is assumed to return at most the bytes asked for; base64, key status and heap annotations of the response are not modelled.
- RegionPaging.ClassRegions: variance, labels and jump offsets of a row, and the way regions are found in the class array, are not modelled; regions are assumed ascending and disjoint.
- PageStates.BuildStateTable: the two caches of built tables are not modelled; a run's length is assumed not negative.
- PageWindow.MergeRuns: stated for runs of positive length, which is what the subtraction before it yields.
- PageWindow.SubtractValid: valid runs are assumed not to have a negative length.
- image_page_states_payload (app/page_state_runs.py:269-299): its running stream offset is the accumulation proved for VaTranslation.VasRuns; the rest is formatting.
- HeapRoles.ViewRoleRuns: a layout is assumed to answer any range with ordered runs that agree on every address, which its chunks guarantee when they do not overlap.
- Disassembly.RowsArePrefix: the decoder is assumed to return contiguous instructions of at least one byte inside its input; text of rows is carried along unread.
- StructMembers.MemberIsSound: the member path is a list of field names and indices, not its dotted text; sizes and counts are assumed not negative.
- RuleArchive: `put_versioned_json` (analysis/plugin_store.py:130-144) archives like a put but keeps its version inside the one file it writes; hand edits and unreadable sidecars, timestamps and compile results are not modelled.
- Symlink and permission checks, file system errors, HTTP and command-line surfaces, Volatility, DuckDB and Arrow: plumbing around the modelled logic.
- Entropy, variance and confidence: floating-point measures.
