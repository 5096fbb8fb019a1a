# Proofs about the gem5 tooling scripts

The Python tools around gem5 move traces and checkpoints between formats, versions and
machines. This project models the parts of them that carry an algorithm and proves what
they promise, for every input. Code that updates things step by step is modelled by methods
and classes; what the steps add up to is stated on functions and proved by lemmas.

`dafny verify dfyconfig.toml` checks everything.

## What is modelled

- **O3 pipeline viewer** (`PipeInst`, `ReorderQueue`, `TraceViewer`, `Timeline`, with the
  stable sort in `KeySort`). Instructions arrive out of order and pass through a bounded
  queue. The queue prints exactly what sorting the whole trace would print if and only if no
  instruction is overtaken by more than are waiting when it arrives; the displacement bound
  that the script assumes is enough, and one more place is too much for every pair of
  thresholds. Reading only the requested region loses nothing. In the timeline every stage is
  printed exactly once, and a row can be read back when no two of its letters share a cycle.
- **Checkpoint migration** (`UpgraderLoader`, `Migrations`). Migrations run in rounds, each in
  the first round in which its dependencies are present, in whatever order a round is applied.
- **Port binding** (`PortBinder`). One greedy pass over connections listed in both directions,
  accepted by a count (with counting in `Distinct`).
- **Dependency traces** (`Varint`, `DepTrace`, `TraceFile`, with Python's string operations in
  `PyText`). Varints, frames, and a text form that survives the trip through the binary form.
- **Checkpoint aggregation** (`SectionNames`, `Aggregator`). Images are laid out one after the
  other, addresses move with them, and CPU sections are renamed without collision.
- **Copyright years and blocks** (`Years`, `CommentBlocks`).
- **Periodic checkpoints** (`PeriodicCheckpoints`), **the tester's cache tree** (`CacheTree`),
  **the latency sweep** (`RangeSweep`) and **the rolling log** (`LogRoll`, with `Cyclic`).

## Where the code differs from what it says

- The comment on downgraders in `cpt_upgrader.py` says that a tag with a downgrader is removed
  before a tag that depends on it can run. The code waits for the tag to be present. The
  dependent migration runs in no later round than the removal; within one round the order is
  that of a set, so the removal may come first and the dependency be gone (`RemovalPrecedesIff`,
  `SupportedIff`, `DowngradeOrderCounterexample`).
- Sorting does not make one direction of every connection bindable; a sorted list may be
  rejected that passes in another order (`SortedListRejected`). The pass succeeds exactly when
  some single pass over the same order can bind everything (`AcceptedIffSinglePassExists`).
- An end connected to itself can make the count come out right by accident
  (`SelfConnectionsFoolTheCount`); without such ends it cannot (`CountIsSoundIffNoSelf`).
- An empty message ends the reading of a trace file, and a payload cut short is passed to the
  parser without a check of its length (`FramesRoundTrip`, `CutPayloadIsHandedOn`).
- Ranges with a bound that does not have four digits are lost or cut when years are read back
  (`DatesRoundTrip`).
- Letters that share a cycle push the rest of the row to the right, so a crowded row does not
  tell the cycles of its stages (`CellIsCycleIff`, `CrowdedRowIsAmbiguous`).
- The compact timeline looks at its first event and fails on an instruction that has none
  (`CompactRowHasEvents`).
- Merged addresses are right only as long as no earlier image is shorter than its page count
  (`ShortImagesShift`, `RangeSizeExact`).
- A benchmark checkpoint inside a period lets that period's own checkpoint be taken but ends the
  series after it (`PeriodsExact`, `InterruptedIsLast`).
- A comment block that reaches the end of the file is not reported (`ScanRuns`, `ScanC`).
- The end of a C comment is looked for only from the next line on, so a comment that is closed
  on its own line stays open and takes in code up to the next closing sign (`ClosedCommentStaysOpen`, `BlockIsCommentIff`).

## Model

| member | source | states |
|---|---|---|
| KeySort.SortByOrders | final_project/ca-final/util/o3-pipeview.py:241-242 | the sorted queue is ordered by sequence number and a permutation of the queue |
| KeySort.StableOnKey | final_project/ca-final/util/o3-pipeview.py:241-242 | instructions with the same number keep their order of arrival |
| KeySort.SortUnique | final_project/ca-final/util/o3-pipeview.py:241-242 | order and stability determine the sorted sequence, so nothing else can be meant by a stable sort |
| KeySort.SelectSort | final_project/ca-final/util/o3-pipeview.py:241-268 | filtering before or after sorting is the same |
| ReorderQueue.RunConserves | final_project/ca-final/util/o3-pipeview.py:212-244 | for any order of arrival, popped plus queued is a permutation of what arrived, the queue stays within the upper threshold after every call and, once drained, never falls below the lower one |
| ReorderQueue.SortedIffFewOvertake | final_project/ca-final/util/o3-pipeview.py:212-244 | all drains plus the final flush pop the stably sorted trace if and only if every instruction is overtaken by at most as many younger ones as are waiting when it arrives, a number that depends on its position and the thresholds alone |
| ReorderQueue.QueueLength | final_project/ca-final/util/o3-pipeview.py:212-244 | how many instructions wait and how many were popped after any number of arrivals, in closed form |
| ReorderQueue.PlacedIsSorted | final_project/ca-final/util/o3-pipeview.py:45-50 | the assumption of the script suffices: at most the lower threshold of places after its rank, for every instruction, gives the sorted trace |
| ReorderQueue.PlacedRegionIsSorted | final_project/ca-final/util/o3-pipeview.py:45-65 | the same assumption on the whole trace sorts every region of it, although smaller instructions may follow behind the region |
| ReorderQueue.OneMorePlaceIsTooMuch | final_project/ca-final/util/o3-pipeview.py:45-50 | for all thresholds there is a trace with every instruction at most one place later than that which comes out in the wrong order |
| TraceViewer.Viewer.PrintInsts | final_project/ca-final/util/o3-pipeview.py:231-277 | a drain sorts the queue and moves its front, down to the threshold, to the popped instructions, of which the shown ones are printed in order |
| TraceViewer.Viewer.QueueInst | final_project/ca-final/util/o3-pipeview.py:212-227 | after every call the queue is what the arrivals so far make of it |
| TraceViewer.Viewer.FindStart | final_project/ca-final/util/o3-pipeview.py:94-126 | skips to the first fetch at or after the line that reaches the start of the window, and only instructions before the window |
| TraceViewer.Viewer.ReadRegion | final_project/ca-final/util/o3-pipeview.py:154-207 | queues exactly the instructions up to the first one beyond the window and its slack |
| TraceViewer.Viewer.ProcessTrace | final_project/ca-final/util/o3-pipeview.py:69-207 | what is read and within the bounds that are set, and not squashed when only committed ones are wanted, is printed as often as it was read, and nothing else is; in the order in which the queue pops it |
| TraceViewer.PrintedExactly | final_project/ca-final/util/o3-pipeview.py:250-268 | the same of every sequence of arrivals, field by field |
| TraceViewer.RegionBounds | final_project/ca-final/util/o3-pipeview.py:155-183 | where reading stops: the first fetch past the stop tick and the slack, or past the stop number and the upper threshold |
| TraceViewer.RegionRefinesSortThenFilter | final_project/ca-final/util/o3-pipeview.py:45-65 | on a trace with no instruction more than the lower threshold of places late, ticks that run back by no more than the slack when a stop tick is set, and numbers that run back by no more than the upper threshold when a stop number is set, reading only the region prints exactly what sorting and filtering the whole trace prints: in ascending order, every wanted instruction of the whole trace as often as it occurs |
| Timeline.OneLineIffCompact | final_project/ca-final/util/o3-pipeview.py:354-359 | there is one line exactly in the compact case, and never none |
| Timeline.WindowsPartition | final_project/ca-final/util/o3-pipeview.py:369-373 | a tick not after the last event lies in a window exactly when it is not before the base tick, and then in only one |
| Timeline.CellGivesCycle | final_project/ca-final/util/o3-pipeview.py:337-416 | in a row in which no two letters share a cycle, cell and start tick give the cycle of a letter; on the wrapped row this holds exactly for stages that do not come before the fetch |
| Timeline.RowTellsCycles | final_project/ca-final/util/o3-pipeview.py:285-416 | in an uncrowded row the cell of each of the eight letters gives the cycle of its field |
| Timeline.RowShowsLetters | final_project/ca-final/util/o3-pipeview.py:374-397 | which of the eight letters a row shows, field by field, with the dispatch left out exactly when it has the tick of the issue |
| Timeline.WrittenOut | final_project/ca-final/util/o3-pipeview.py:285-416 | a row with all eight letters, and the row of an abandoned instruction |
| Timeline.CellIsCycleIff | final_project/ca-final/util/o3-pipeview.py:387-406 | a letter stands at its cycle if and only if no two letters up to it in the row share one |
| Timeline.CrowdedRowIsAmbiguous | final_project/ca-final/util/o3-pipeview.py:387-411 | two instructions, renamed in different cycles, that are printed as the same row |
| Timeline.RowUnique | final_project/ca-final/util/o3-pipeview.py:387-416 | the events of a row determine it |
| Timeline.PrintedMembers | final_project/ca-final/util/o3-pipeview.py:374-397 | a row holds exactly the stages reached in its window, except a dispatch in the tick of the issue |
| Timeline.KeyIsTupleOrder | final_project/ca-final/util/o3-pipeview.py:374-387 | events are sorted by offset and then by the name of the stage |
| Timeline.LastRowHoldsLastEvent | final_project/ca-final/util/o3-pipeview.py:340-359 | the last event is the tick of a printed stage and lies in the last row |
| Timeline.EveryStageOnce | final_project/ca-final/util/o3-pipeview.py:369-397 | over all rows a reached stage is printed exactly once, in one row and there once, or never when it is hidden or before the base tick |
| Timeline.CompactRowHasEvents | final_project/ca-final/util/o3-pipeview.py:390-391 | the first event of the compact row is missing exactly when every tick is zero or before the base tick, and never when the fetch tick is set |
| Timeline.RenderRow | final_project/ca-final/util/o3-pipeview.py:388-416 | every event has its letter at its cycle, shifted by the crowding before it; all other cells are dots; the row has one cell per cycle plus one per crowded event |
| Timeline.CollectEvents | final_project/ca-final/util/o3-pipeview.py:374-386 | finds the stages of one window in pipeline order |
| Timeline.PrintInst | final_project/ca-final/util/o3-pipeview.py:335-431 | prints one correct row per window, and fails exactly on a compact row without events |
| Migrations.EarliestRound | final_project/ca-final/util/cpt_upgrader.py:144-148 | a migration runs in the first round whose tags hold all its dependencies |
| Migrations.FinalTags | final_project/ca-final/util/cpt_upgrader.py:150-158 | a completed run ends with the initial tags plus those of all upgraders minus those of all downgraders, and a second run schedules nothing |
| Migrations.AppliedOnce | final_project/ca-final/util/cpt_upgrader.py:258-269 | no migration is applied in two rounds |
| Migrations.AppliedIffScheduled | final_project/ca-final/util/cpt_upgrader.py:257-269 | what was scheduled and is no longer pending was applied in some round, and nothing else was |
| Migrations.StopsInTime | final_project/ca-final/util/cpt_upgrader.py:258-269 | every round but the last makes progress, so there are at most as many rounds as migrations |
| Migrations.RoundFollowsDependencies | final_project/ca-final/util/cpt_upgrader.py:257-269 | with upgrades only, all pending dependencies run in earlier rounds and, after the first round, one of them in the round just before |
| Migrations.NeverAfterDowngrade | final_project/ca-final/util/cpt_upgrader.py:144-148 | a migration that depends on a tag with a downgrader runs only if the tag was there, and in no later round than its removal |
| Migrations.RemovalPrecedesIff | final_project/ca-final/util/cpt_upgrader.py:258-269 | for every order in which the rounds may be applied: the removal of a tag precedes a migration that depends on it if and only if both are in the same round and the removal is listed first |
| Migrations.PresentWhenApplied | final_project/ca-final/util/cpt_upgrader.py:258-267 | a dependency is present when the dependent migration is applied, unless its downgrader comes before it in the same round |
| Migrations.SupportedIff | final_project/ca-final/util/cpt_upgrader.py:258-267 | all dependencies of a migration are present when it is applied, in every order of its round, if and only if no other migration of that round removes one of them |
| Migrations.DowngradeOrderCounterexample | final_project/ca-final/util/cpt_upgrader.py:56-61 | a registry in which a downgrade and its dependent run in the same round, in either order, and in which the dependent is stuck once the tag is gone |
| Migrations.GivesUpIffCycle | final_project/ca-final/util/cpt_upgrader.py:258-263 | with upgraders only and known dependencies, the run aborts if and only if scheduled migrations depend on each other in a cycle |
| Migrations.GivesUpIff | final_project/ca-final/util/cpt_upgrader.py:257-263 | the run aborts if and only if upgraders that are to run depend on each other in a cycle, or a scheduled migration depends on a tag that nothing can provide, or on one that is removed before the migration has run |
| Migrations.ApplyRound | final_project/ca-final/util/cpt_upgrader.py:150-158 | for every order of application a round has the same effect, lists each ready migration once, and removes only tags that are there |
| Migrations.ProcessFile | final_project/ca-final/util/cpt_upgrader.py:255-269 | the loop ends, its run is the one that the rounds describe for every order within a round, and it aborts exactly when migrations are left |
| UpgraderLoader.ChainLegacy | final_project/ca-final/util/cpt_upgrader.py:171-175 | consecutive legacy versions from 3 on depend exactly on the version before; it fails exactly when version 3 exists without version 2 |
| UpgraderLoader.Forward | final_project/ca-final/util/cpt_upgrader.py:179-186 | every named upgrader, and no other, gains the dependency; it fails exactly on an unknown name |
| UpgraderLoader.Audit | final_project/ca-final/util/cpt_upgrader.py:187-192 | accepts exactly dependency lists of registered tags |
| UpgraderLoader.Resolve | final_project/ca-final/util/cpt_upgrader.py:177-192 | succeeds exactly when every tag named in either direction is registered, and then adds exactly the reversed forward dependencies |
| UpgraderLoader.ResolvedIsAudited | final_project/ca-final/util/cpt_upgrader.py:63-69 | after loading, every dependency is registered, and one upgrader depends on another exactly when either of the two says so |
| UpgraderLoader.Loader.Register | final_project/ca-final/util/cpt_upgrader.py:121-142 | a script enters the table under its tag, in the set of its kind, and under its legacy version |
| UpgraderLoader.Loader.Link | final_project/ca-final/util/cpt_upgrader.py:165-192 | legacy versions are chained from 3 to the first gap, and then the registry is valid and audited, or loading fails for one of the two reasons above |
| PortBinder.AcceptedIsComplete | final_project/ca-final/configs/example/read_config.py:380-395 | for any order of a symmetric list at most half is bound; when the count is half, every connection is bound in exactly one direction and sits at its index of its port |
| PortBinder.CompleteIsAccepted | final_project/ca-final/configs/example/read_config.py:392-395 | without repetition in the list, a complete binding passes the check |
| PortBinder.IndicesInOrder | final_project/ca-final/configs/example/read_config.py:361-390 | at every port the bindings are 0, 1, 2, ... in the order of binding, each from a bound connection |
| PortBinder.BoundIffNext | final_project/ca-final/configs/example/read_config.py:361-390 | a connection is bound exactly when both its indices are the number of bindings that their ports have by then |
| PortBinder.GreedyIsBest | final_project/ca-final/configs/example/read_config.py:380-395 | if any choice of positions in the order binds half of the list, so does the greedy pass |
| PortBinder.AcceptedIffSinglePassExists | final_project/ca-final/configs/example/read_config.py:370-395 | on every symmetric list, in any order, the check passes if and only if some single pass over the order can bind everything |
| PortBinder.SortedListRejected | final_project/ca-final/configs/example/read_config.py:370-379 | for any four ports in ascending order, a sorted symmetric list that is rejected although its connections pass in another order |
| PortBinder.SelfConnectionsFoolTheCount | final_project/ca-final/configs/example/read_config.py:392-395 | for any six ports, a list with self-connections, whose indices all start at 0, that passes the check while a connection is unbound |
| PortBinder.CountIsSoundIffNoSelf | final_project/ca-final/configs/example/read_config.py:392-395 | for a list without repetition that passes the check: every connection is bound if and only if none joins an end to itself |
| PortBinder.CompleteIffCounted | final_project/ca-final/configs/example/read_config.py:392-395 | the exact count: every connection is bound if and only if the list has twice as many entries as bound connections, less the bound self-connections |
| PortBinder.NoLookupFails | final_project/ca-final/configs/example/read_config.py:361-365 | with both directions listed no counter lookup fails |
| PortBinder.ZeroCounters | final_project/ca-final/configs/example/read_config.py:354-359 | every listed port starts at zero |
| PortBinder.BindPorts | final_project/ca-final/configs/example/read_config.py:349-395 | for any order of visiting, the loop binds what the pass describes, fails on exactly the lookups that miss, and rejects exactly when the count is not half |
| Varint.EncodeVarint | final_project/ca-final/util/protolib.py:147-159 | writes the base-128 form |
| Varint.EncodeIsShortest | final_project/ca-final/util/protolib.py:147-159 | no terminated run of bytes spells the number in fewer bytes |
| Varint.DecodeVarint | final_project/ca-final/util/protolib.py:100-128 | reads a number of at most ten bytes whole, and tells the end of file from too many bytes |
| Varint.VarintRoundTrip | final_project/ca-final/util/protolib.py:100-128 | for every number and whatever follows: exactly the written bytes are read; the value is the number modulo 2^32 below 2^63, that minus 2^32 below 2^70, and an error from there on |
| Varint.DecodeTerminated | final_project/ca-final/util/protolib.py:100-128 | what any terminated run of bytes is read as, also one with needless bytes |
| Varint.DecodeUnterminated | final_project/ca-final/util/protolib.py:110-128 | a run without an end is the end of the file below ten bytes and an error from there on |
| Varint.CutNumberIsEndOfFile | final_project/ca-final/util/protolib.py:112-115 | a file that ends within the first ten bytes of a number reads as the end of the file |
| Varint.FirstMessage | final_project/ca-final/util/protolib.py:131-144 | what the reader makes of the first frame for every payload below 2^63 bytes |
| Varint.ReadMessages | final_project/ca-final/util/decode_inst_dep_trace.py:163-165 | reading until no message comes yields all payloads in order |
| Varint.FramesRoundTrip | final_project/ca-final/util/protolib.py:131-168 | written payloads are read back if and only if none is empty and each is shorter than 2^32 bytes |
| Varint.CutPayloadIsHandedOn | final_project/ca-final/util/protolib.py:140-143 | a payload cut short by the end of file is passed to the parser as it is |
| DepTrace.PrintDeps | final_project/ca-final/util/decode_inst_dep_trace.py:200-213 | a comma before every dependency |
| DepTrace.PrintFields | final_project/ca-final/util/decode_inst_dep_trace.py:167-198 | the fields of a record with the defaults for pc and weight and only the optional fields it has |
| DepTrace.PrintRecord | final_project/ca-final/util/decode_inst_dep_trace.py:164-215 | the whole line of a record |
| DepTrace.LinePlaces | final_project/ca-final/util/decode_inst_dep_trace.py:164-215 | the text of every field at its place between the colons and commas |
| DepTrace.ReadDeps | final_project/ca-final/util/encode_inst_dep_trace.py:195-206 | the non-empty items as numbers, or the first error |
| DepTrace.ReadRecord | final_project/ca-final/util/encode_inst_dep_trace.py:157-206 | one line as a record, or its first error |
| DepTrace.ParsedFits | final_project/ca-final/util/encode_inst_dep_trace.py:157-206 | what parses fits its 32-bit and 64-bit fields, so other numbers are rejected |
| DepTrace.RecordRoundTrip | final_project/ca-final/util/encode_inst_dep_trace.py:157-209 | for fields within their integer types, parsing a printed line gives the record with explicit defaults if and only if its type is valid and it has address, size and flags exactly when it is a load or store |
| DepTrace.LineSurvivesIff | final_project/ca-final/util/encode_inst_dep_trace.py:157-209 | parsing a printed line and printing it again gives the same line if and only if the record has the fields of its type |
| DepTrace.ExplicitPrintsSame | final_project/ca-final/util/decode_inst_dep_trace.py:167-178 | making the defaults explicit does not change the printed line |
| TraceFile.FileRoundTrip | final_project/ca-final/util/decode_inst_dep_trace.py:133-165 | a file with magic number and a framable header gives back its messages if and only if all of them can be framed |
| TraceFile.OtherMagic | final_project/ca-final/util/decode_inst_dep_trace.py:133-139 | a file is rejected exactly when it does not start with the bytes of gem5 |
| TraceFile.TextToBinary | final_project/ca-final/util/encode_inst_dep_trace.py:136-209 | one message per line, or the error of the first line that is no record |
| TraceFile.BinaryToText | final_project/ca-final/util/decode_inst_dep_trace.py:133-215 | one line per message up to the first that cannot be parsed, or rejection of a file without the magic number |
| TraceFile.TextSurvives | final_project/ca-final/util/encode_inst_dep_trace.py:154-209 | encoding a printed trace and decoding the file prints the very same lines if and only if every record has the fields of its type |
| SectionNames.TagDetermines | final_project/ca-final/util/checkpoint_aggregator.py:59-69 | all padded indices have the same width and determine the index |
| SectionNames.TagSpells | final_project/ca-final/util/checkpoint_aggregator.py:59-69 | the tag is the index in decimal, padded to the width of the largest index |
| SectionNames.RenameInjective | final_project/ca-final/util/checkpoint_aggregator.py:68-70 | the new name of a CPU section determines the checkpoint and the old name, for any number of checkpoints and any names |
| SectionNames.RenameFirst | final_project/ca-final/util/checkpoint_aggregator.py:69-70 | the first cpu of a name is followed by the zero-padded index, and the rest is renamed in the same way |
| SectionNames.RenameNothing | final_project/ca-final/util/checkpoint_aggregator.py:68-69 | a name without cpu stays as it is |
| Aggregator.CopyPages | final_project/ca-final/util/checkpoint_aggregator.py:107-114 | the page loop copies the front of the image, less when it is short |
| Aggregator.LayoutLength | final_project/ca-final/util/checkpoint_aggregator.py:99-114 | the merged image has as many bytes as pages say exactly when every image is long enough |
| Aggregator.RelocateInjective | final_project/ca-final/util/checkpoint_aggregator.py:74-77 | two different bytes in use never go to the same address |
| Aggregator.ShortImagesShift | final_project/ca-final/util/checkpoint_aggregator.py:74-114 | a copied byte lies at its relocated address if and only if no earlier image is shorter than its page count |
| Aggregator.BytesSurvive | final_project/ca-final/util/checkpoint_aggregator.py:99-114 | every byte in use is found at its relocated address when its image and those before it are full |
| Aggregator.AddressesKeepMeaning | final_project/ca-final/util/checkpoint_aggregator.py:67-79 | every physical address of a CPU section is written under the new name as an address that holds the same byte |
| Aggregator.CpuSectionExact | final_project/ca-final/util/checkpoint_aggregator.py:67-82 | every CPU section is written with its addresses moved, its other items in place, and the process id of its checkpoint exactly when it is a section of file descriptors |
| Aggregator.MergedDistinct | final_project/ca-final/util/checkpoint_aggregator.py:67-94 | no two merged sections share a name, and none takes the name of the sections added at the end |
| Aggregator.SetOptionSets | final_project/ca-final/util/checkpoint_aggregator.py:81-82 | the process id replaces the option where it stands or is added at the end, and everything else keeps its value and place |
| Aggregator.OthersKept | final_project/ca-final/util/checkpoint_aggregator.py:90-94 | the other sections of the last checkpoint are written unchanged |
| Aggregator.MergedOnly | final_project/ca-final/util/checkpoint_aggregator.py:67-94 | nothing else is written: every merged section is a CPU section of some checkpoint or another section of the last one |
| Aggregator.MaxTickIsMaximum | final_project/ca-final/util/checkpoint_aggregator.py:86-89 | the merged tick bounds all ticks and is one of them unless it is zero |
| Aggregator.MergeSections | final_project/ca-final/util/checkpoint_aggregator.py:67-94 | the sections that one checkpoint contributes |
| Aggregator.Pad | final_project/ca-final/util/checkpoint_aggregator.py:123-131 | pages are added until the requested size is reached |
| Aggregator.RangeSizeExact | final_project/ca-final/util/checkpoint_aggregator.py:123-140 | the range size is the least page multiple covering pages and requested size, and the length of the image exactly when no image is short |
| Aggregator.Merge | final_project/ca-final/util/checkpoint_aggregator.py:44-145 | the loop yields the layout, the merged sections, the padding, the sizes and the tick described above |
| Years.RunsAreMaximal | final_project/ca-final/util/find_copyrights.py:195-220 | the ranges are ascending, separated by gaps, and cover exactly the years |
| Years.RunsAreFewest | final_project/ca-final/util/find_copyrights.py:195-220 | no other list of ranges covering these years is shorter |
| Years.DateStr | final_project/ca-final/util/find_copyrights.py:195-220 | prints the ranges, and fails exactly on no years |
| Years.PrintWrittenOut | final_project/ca-final/util/find_copyrights.py:195-220 | a single year and a range, printed |
| PyText.StripLaw | final_project/ca-final/util/find_copyrights.py:116 | stripping removes white space at both ends and leaves none there |
| PyText.IntExact | final_project/ca-final/util/find_copyrights.py:126 | exactly the texts that are a number: digits, with a sign or without, in white space |
| Years.ProcessDates | final_project/ca-final/util/find_copyrights.py:115-132 | the union of what the items between the commas stand for |
| Years.ItemExact | final_project/ca-final/util/find_copyrights.py:118-130 | an item stands for the years of the range that it starts with, else for the number that it is, else for none |
| Years.PaddingIsIgnored | final_project/ca-final/util/find_copyrights.py:116 | white space around the items does not matter |
| Years.ReadWrittenOut | final_project/ca-final/util/find_copyrights.py:112-132 | a list with blanks around a comma and a dash, read out |
| Years.RunReads | final_project/ca-final/util/find_copyrights.py:118-130 | a printed range never yields a foreign year, and yields all its years exactly when it is a single year or has four-digit bounds |
| Years.DatesRoundTrip | final_project/ca-final/util/find_copyrights.py:115-132 | reading printed years returns the set if and only if every range of several years has four-digit bounds |
| CommentBlocks.ScanRuns | final_project/ca-final/util/find_copyrights.py:20-35 | the blocks are ascending and disjoint and are exactly the maximal comment runs that are followed by a line and reached before code ends the scan |
| CommentBlocks.ScanShell | final_project/ca-final/util/find_copyrights.py:22-35 | the same for shell-style files, whose first line may be skipped |
| CommentBlocks.ScanLisp | final_project/ca-final/util/find_copyrights.py:37-50 | the same for Lisp files |
| CommentBlocks.ShellExact | final_project/ca-final/util/find_copyrights.py:13 | a comment line: the sign behind nothing but white space |
| CommentBlocks.SignsExact | final_project/ca-final/util/find_copyrights.py:14-17 | the signs of Lisp, line and C comments, anywhere in the line |
| CommentBlocks.CppAloneExact | final_project/ca-final/util/find_copyrights.py:81-82 | a line comment with nothing but white space before it |
| CommentBlocks.CopyrightExact | final_project/ca-final/util/find_copyrights.py:87-88 | a notice: the word behind the first sign and white space |
| CommentBlocks.ModeLineExact | final_project/ca-final/util/find_copyrights.py:12 | a mode line of an editor, anywhere in the line |
| CommentBlocks.ShellWrittenOut | final_project/ca-final/util/find_copyrights.py:22-35 | the blocks of a file with blank lines, code right behind a comment, and code that ends the scan |
| CommentBlocks.CWrittenOut | final_project/ca-final/util/find_copyrights.py:52-106 | the blocks of a file with a C comment, a group of line comments around a blank line, a second notice, and code |
| CommentBlocks.ScanLine | final_project/ca-final/util/find_copyrights.py:63-106 | one line keeps the state consistent, so its three assertions never fire; an early stop happens only at code or at a line that opens both kinds of comment |
| CommentBlocks.ScanC | final_project/ca-final/util/find_copyrights.py:52-106 | every block is a C comment up to its first end or a maximal group of line comments, blocks are in order, and every passed line that is not blank lies in a block or in the open one |
| CommentBlocks.ScanIsDetermined | final_project/ca-final/util/find_copyrights.py:52-106 | that contract admits only one result: the blocks, the block left open, and where and why the scan stops |
| CommentBlocks.BlockIsCommentIff | final_project/ca-final/util/find_copyrights.py:67-73 | a reported C block lies in one comment if and only if its first line does not close what it opens |
| CommentBlocks.ClosedCommentStaysOpen | final_project/ca-final/util/find_copyrights.py:67-103 | a file in which a line of code between two one-line comments is reported as part of a block |
| PeriodicCheckpoints.Simulator.Simulate | final_project/ca-final/configs/common/Simulation.py:252-253 | does what the script says next, never past the limit, and exactly to it when that is reported |
| PeriodicCheckpoints.RunTo | final_project/ca-final/configs/common/Simulation.py:254-256 | reaches the target tick however often the benchmark interrupts, unless the simulation ends |
| PeriodicCheckpoints.TakePeriodic | final_project/ca-final/configs/common/Simulation.py:246-283 | the j-th checkpoint is taken at start plus j periods, all but the first at or before the last tick, within the maximum; the system ends at its last checkpoint, or at the last tick when that stretch was undisturbed; log, reason, exit and final state are the ones that the script of the system gives |
| PeriodicCheckpoints.AllExact | final_project/ca-final/configs/common/Simulation.py:252-283 | for every script: when the first target is met, when the series is cut short, when it reaches the maximum, how many checkpoints are taken, which event gives the exit that is returned, and which events are left |
| PeriodicCheckpoints.PeriodsExact | final_project/ca-final/configs/common/Simulation.py:262-281 | the series is cut short if and only if fewer undisturbed stretches come first than checkpoints are needed; the period that is disturbed gives one more checkpoint exactly when its interruptions are followed by an undisturbed stretch |
| PeriodicCheckpoints.NeededIs | final_project/ca-final/configs/common/Simulation.py:262-269 | what is needed: the largest number within the maximum whose last tick is not past the end |
| PeriodicCheckpoints.InterruptedIsLast | final_project/ca-final/configs/common/Simulation.py:262-281 | after any number of undisturbed periods, one interrupted period is the last, whatever the system would do next and however many checkpoints are missing |
| PeriodicCheckpoints.QuietTakesAll | final_project/ca-final/configs/common/Simulation.py:262-281 | without the interruption all checkpoints are taken |
| CacheTree.TestersBelow | final_project/ca-final/configs/example/memtest.py:151-161 | the closed form obeys the recursion of the tree |
| CacheTree.NumTesters | final_project/ca-final/configs/example/memtest.py:150-161 | the sum over levels of testers times subsystems |
| CacheTree.ScalePrototypes | final_project/ca-final/configs/example/memtest.py:235-260 | one prototype per level of caches, the last one as given; each other has size, ways and miss registers of the one behind it times a fan-out, ten times its latency, and the opposite inclusivity and write-back |
| CacheTree.Builder.Register | final_project/ca-final/configs/example/memtest.py:288-294 | a subsystem gets a name not used before |
| CacheTree.Builder.MakeLevel | final_project/ca-final/configs/example/memtest.py:285-347 | given the list parts of its level, adds the product of the fan-outs at every level below, names without gap or repetition, at every level one cache from the prototype of that level for each subsystem it leads to, and attaches each of its testers once; no list is read past its end, and it fails exactly at level 0 without a cache |
| CacheTree.Builder.MakeBelow | final_project/ca-final/configs/example/memtest.py:320-329 | one cache and one subtree per fan-out |
| CacheTree.Build | final_project/ca-final/configs/example/memtest.py:350-351 | the recursion makes exactly as many testers as the closed form counts, at every level as many caches as there are subsystems below it, and attaches every tester exactly once |
| RangeSweep.IsPow2Exact | final_project/ca-final/configs/dram/lat_mem_rd.py:156-158 | the bit test holds of the powers of two and nothing else |
| RangeSweep.NextIsPower | final_project/ca-final/configs/dram/lat_mem_rd.py:170-173 | the step doubles exactly when an octave is complete |
| RangeSweep.Sweep | final_project/ca-final/configs/dram/lat_mem_rd.py:164-174 | ends for every maximum; the i-th range has the closed form, and only the last one reaches the maximum |
| RangeSweep.PointsIncrease | final_project/ca-final/configs/dram/lat_mem_rd.py:170-174 | the ranges strictly increase |
| RangeSweep.PowersAreSwept | final_project/ca-final/configs/dram/lat_mem_rd.py:164-174 | every power of two from 4096 on is a range, and they are exactly every fourth |
| LogRoll.Roller.Fill | final_project/ca-final/util/logroll.py:83-89 | while the buffer fills it holds all input, and it reports when it is full |
| LogRoll.Roller.Wrap | final_project/ca-final/util/logroll.py:91-92 | a full buffer keeps the last lines, dumped in order of arrival |
| LogRoll.Roll | final_project/ca-final/util/logroll.py:75-94 | the final dump prints the last lines, or all of them when the target is not positive |

## Left out

- Splitting a pipeline trace into lines and collecting the lines of one instruction: the viewer is modelled on a trace already grouped into instructions.
- Colours, headers and column padding of the pipeline viewer, and widths or cycle times that are not positive.
- UpgraderLoader.Loader.Register: two scripts that declare the same tag, which the documentation rules out, and scripts whose variables have the wrong type.
- The effect of a migration on the checkpoint's contents, backups, and the reading and writing of the tag list.
- Attaching the bound ports to simulator objects, and the parsing of port names.
- The serialisation of a record by the protobuf library, which is a parameter assumed to be undone by parsing; a header that cannot be parsed; the fields for virtual address and address space, which the scripts do not use.
- Spellings of integers with underscores, and white space and digits beyond ASCII.
- RegionRefinesSortThenFilter: takes the starts of the window and the tick slack to be not negative, because ticks and sequence numbers of a trace never are.
- FramesRoundTrip: does not consider payloads of 2^63 bytes and more, because no file holds one.
- The configuration file syntax of checkpoints, and a last checkpoint without a section for the memory store.
- In the varint decoder, bitwise or of disjoint bits is modelled as addition and the 32-bit masks as remainders.
- Running times, signals that arrive in the middle of a line of the rolling log, and the other checkpoint and switching modes of the simulation script.
- The ports of the tester's crossbars and caches, which only copy values.
- Configuration scripts that only connect simulator objects, and code generators.
