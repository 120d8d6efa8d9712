# stat_log in Dafny

stat_log lets a running program record logs and statistics in shared memory, and a second program,
the controller, read and clear them. This project models the parts of it whose correctness does not
show in any one function, and proves what they are for.

**The ring log.** `LogBlocks`, `LogWindow`, `LogOrder`, `LogMemory`, `LogGenerator` and `LogRetriever`
model `src/shared_memory_logger.cpp` down to the byte. A message is cut into a head block and continuation
blocks that go round a ring of fixed-size blocks. Nothing says where the log begins and nothing is
ever removed; overwriting destroys an old entry's head first, so what is left of it reads as "skip
me". `Generator` keeps a ghost history of its accepted writes, and its validity says that the bytes
are those of `RingAfter(history)`. Unrolled from the cursor this ring is `Window(history)`, which
holds exactly the longest suffix of the history that fits. `Retriever.GetLog` prints exactly these
entries, starting with the one whose head has the smallest time stamp and, among equal time stamps,
comes first in memory. Time stamps are taken before the lock, so this is write order up to a rotation;
`LogOrder.WriteOrderExactly` says for every history when it is write order. `LogProtocol` runs several
try-lock writers and blocking readers in any interleaving. `HexDump` is the text of packet dumps;
`LogLines` spells out what is printed, entry by entry; `LogRun` puts messages in at one end and states what comes out at the other, also for a reader who
comes at any time between the steps of several writers (`LogRun.ReadAnyTime`).

**Nested arrays and the printer.** `IndexCodec`, `IndexSpec`, `StatCell`, `StatArray` and `Printer`
model two codes that never meet: writes and commands find a cell by nested array offsets, while the
printer divides flat positions by the dimension sizes that the command left behind. They agree for
every depth and all sizes. The index specifiers of the command line are modelled as a grammar of
texts, with the printer's own parsing of them.

**The tag tree.** `TagTree`, `Layout`, `StatMemory`, `StatCommands`, `StatLog`, `StatRun`,
`StatReport` and `BitStatus` model the flattening of the tag tree, the regions both builds compute for themselves, the
routing of commands by dotted path, and the two processes as classes over one byte array. The flat
memory is proved to be a map from tag and index path to the state of a statistic, over every run of
writes, serializations and clears of single cells in any order, for trees of simple stats and
accumulators alike. A write is taken with the arguments it is given. A clear of a path is a sequence
of clears of cells, which the other process's steps can come between. `StatRun.RunThenDump` goes from
a run to the lines printed for a list of paths, which `StatReport` spells out: which tags, in which
order, and what of each. `CounterProtocol` takes a counter's write apart into
load and store.

**Accumulators.** `Accumulator` and `AccumArray` are the byte-level operations on an accumulator's
cell and on nested arrays of them, for any list of features. A feature says what word it stores for
given samples, be there any or none, and how it makes entry and title from a word;
`Accumulator.Common` is the form of counts, means and the like, and `HistogramTraits` makes
histograms features, which keep their titles in memory. `AccumulatorProtocol` interleaves the writers,
the serializer and the controller, which sets the control word without a lock and looks at it again
for every feature it dumps.

**Histograms.** `Histogram` models the bins of `boost_hist.hpp` over the reals.

`Bytes`, `Text`, `Sequences` and `Arithmetic` hold what these share.

## What is not as one might expect

The code is modelled as it is. Where it does not do what its documentation or one's first guess
says, the exact condition is proved.

- An entry longer than the whole ring overwrites its own head and leaves an empty log
  (`LogWindow.OverlongEntryEmptiesLog`: exactly then).
- The log is printed in write order exactly if the head of the oldest survivor comes before all
  others: for each of them the time stamp is later, or equal and the head block further on in memory
  (`LogOrder.WriteOrderExactly`). So the later of two entries is printed first when the clock steps
  back between them (`LogOrder.SteppedClockReorders`), and also when their time stamps are equal and
  the ring wraps round between them (`LogOrder.TiedStampsReorder`).
- A full block carries no NUL. Printing it stays inside the copied memory except when it is the very
  last block and no byte follows the ring (`LogRetriever.PrintStaysInside`).
- `src/utils.cpp:46-55` gives every index specifier a meaning. The printer uses the largest `size_t`
  as a mark for "no number" and drops numbers that do not fit, so `n` with `n >= 2^64 - 1` selects
  everything and a lower bound above `2^64 - 1` is no bound (`IndexSpec.RangeMeetsGrammar`: exactly
  then).
- `src/utils.cpp:64-65` says that a clear zeroes statistics. An accumulator whose next write comes
  before its next serialization shows the summary from before the clear again
  (`AccumulatorProtocol.StaleSummaryReappears`); a dump is current exactly if the serializer has run
  since the last reset (`AccumulatorProtocol.DumpIsCurrentExactly`).
- A simple stat is printed as `unsigned long`: the dump shows the number it holds exactly if that is
  not negative (`StatCommands.DumpIsExactUnlessNegative`). The number is the sum or the last value
  written exactly if the type can hold that (`StatMemory.NumberIsSumOrLast`).
- Superfluous indices are ignored by arrays only. A single simple stat stores its first argument:
  given an index 7 and the value 1, a counter adds 7 (`StatMemory.SuperfluousIndexIsStored`). They make
  no difference exactly if the statistic is an array, or the first argument gives the same word as the
  value (`StatMemory.SuperfluousIndicesMatter`). So a status word written to a single counter adds the
  numbers of its bits instead of counting them (`BitStatus.SingleAddsNumbers`).
- A write to a counter that loads before a clear and stores after it undoes the clear, unless there was
  nothing to clear (`CounterProtocol.ClearIsLost`). In every run a counter is right after each step
  exactly if what the others stored and cleared between the load and the store of each write would
  have left the counter as it was (`CounterProtocol.RunIsRightExactly`); that is, if it adds up to
  nothing, or, with a clear among it, to what the counter held (`CounterProtocol.HarmlessExactly`).
- A dump of an accumulator shows some features' values and zeros for others if a clear comes between
  them (`AccumulatorProtocol.DumpIsTorn`).
- The title of an array of histograms is made from the last one's bounds, and from zeroed memory before
  it was first serialized (`StatCommands.DumpShowsAccumulator`).
- A path that ends in a dot addresses a parent and what is below it, but no leaf
  (`TagTree.RouteIsAddressed`).
- The dimension list of a nested array is complete exactly if no outer size is 0
  (`StatArray.PushedIsAllSizes`).
- The density form of an empty histogram is not a number (`Histogram.DensitiesAreADistribution`).

## Model

| member | source | states |
|---|---|---|
| LogBlocks.BlocksCoverData | src/shared_memory_logger.cpp:110-116 | the computed number of blocks is exactly the number of nonempty chunks of the data, the head block always included |
| LogBlocks.ChunkFits | src/shared_memory_logger.cpp:136-151 | every chunk fits behind its block's header, and all but the last fill the block to its end |
| LogBlocks.ChunksJoinToData | src/shared_memory_logger.cpp:136-152 | the chunks of all blocks, joined, are the data |
| LogWindow.SurvivorsIsLongestFittingSuffix | src/shared_memory_logger.cpp:110-152 | the survivors of a history are a suffix of it whose blocks fit in the ring, and no longer suffix fits |
| LogWindow.OverlongEntryEmptiesLog | src/shared_memory_logger.cpp:110-121 | nothing survives a write exactly when its data is longer than all data areas of the ring |
| LogWindow.LeftoverRun | src/shared_memory_logger.cpp:129-149 | what is left of an entry whose head was overwritten holds no head, so readers skip it |
| LogWindow.WindowHoldsSurvivors | src/shared_memory_logger.cpp:117-152 | the ring invariant: from the cursor on, blocks with zero headers, then the survivors in write order, each whole |
| LogWindow.PutShifts | src/shared_memory_logger.cpp:138-152 | writing blocks round the ring shifts them into the view from the cursor and the oldest blocks out of it |
| LogWindow.CursorAdvances | src/shared_memory_logger.cpp:117-122 | the cursor is the number of blocks accepted so far modulo the ring |
| LogWindow.RingUnrollsToWindow | src/shared_memory_logger.cpp:117-152 | for every history the ring read once round from the cursor is the window of its last blocks |
| LogMemory.SignedRoundTrip | src/shared_memory_logger.cpp:28-32 | the seconds and microseconds of a time stamp read back as they were stored |
| LogGenerator.Generator.constructor | src/shared_memory_logger.cpp:59-75 | zeroed memory is the ring of the empty history |
| LogGenerator.Generator.StoreHead | src/shared_memory_logger.cpp:125-134 | the head header with block count, time stamp, tag and level is stored, and no other block changes |
| LogGenerator.Generator.StoreChunk | src/shared_memory_logger.cpp:138-152 | one round of the copy loop completes a block and leaves the next one marked as a continuation, or ends the entry |
| LogGenerator.Generator.StoreEntry | src/shared_memory_logger.cpp:123-152 | afterwards memory holds the ring with the entry's blocks laid round it, the slack behind it still zero |
| LogGenerator.Generator.DoWriteData | src/shared_memory_logger.cpp:77-153 | a write that gets the lock appends its entry to the history and keeps the generator valid; one that does not changes nothing |
| LogGenerator.Generator.WriteData | include/stat_log/loggers/logger_common.h:127-135 | a logged text is stored with its terminating NUL |
| LogRetriever.TextRead | src/shared_memory_logger.cpp:319-331 | printing a block as a C string yields exactly its share of the text, although full blocks hold no NUL |
| LogRetriever.PrintStaysInside | src/shared_memory_logger.cpp:214-221 | such a print ends inside the copied memory unless the block is a full one at the very end of memory without slack |
| LogOrder.RingHeads | src/shared_memory_logger.cpp:230-249 | the heads in the ring are exactly those of the survivors; there are none exactly when nothing survives |
| LogOrder.RotationIsComplete | src/shared_memory_logger.cpp:251-260 | read from any of its heads round the ring, every entry is still whole |
| LogOrder.SurvivorInRing | src/shared_memory_logger.cpp:117-134 | the head of each survivor lies where the cursor was when it was written |
| LogOrder.ReadStartIsFirst | src/shared_memory_logger.cpp:230-243 | exactly one survivor comes before all others by time stamp and then by place in memory |
| LogOrder.ReadingOrder | src/shared_memory_logger.cpp:223-260 | from the head found first, that of this survivor, the entries read are all survivors, in write order from there on and round to the one before it |
| LogOrder.InOrderMeans | src/shared_memory_logger.cpp:34-37 | the first survivor's head comes before all others exactly if each of them has more seconds, or the same and more microseconds, or both the same and its head further on in memory |
| LogOrder.WriteOrderExactly | src/shared_memory_logger.cpp:223-243 | for every history reading starts with the first survivor exactly if each other one has a later time stamp, or the same and its head further on in memory; then it goes in write order |
| LogOrder.SteppedClockReorders | include/stat_log/loggers/logger_common.h:127-135 | when a later write has an earlier time stamp, in seconds and then microseconds, it is read first |
| LogOrder.TiedStampsReorder | src/shared_memory_logger.cpp:235-242 | without a step of the clock, the later of two entries with the same time stamp is read first when the ring wraps round between them |
| LogRetriever.Retriever.FindFirst | src/shared_memory_logger.cpp:223-243 | finds the head with the smallest time stamp, by seconds and then microseconds, the first in memory among equals, or that there is none |
| LogRetriever.Retriever.PrintContinuation | src/shared_memory_logger.cpp:319-331 | prints the rest of an entry's text, across the end of the ring, and stops behind its last block |
| LogRetriever.Retriever.PrintEntry | src/shared_memory_logger.cpp:265-333 | prints an entry's line whole, or nothing if its tag or level is excluded |
| LogRetriever.Retriever.Walk | src/shared_memory_logger.cpp:251-334 | goes over every block once, terminates, and prints each entry it meets once |
| LogRetriever.Retriever.PrintCopy | src/shared_memory_logger.cpp:223-337 | prints of any copy of the ring exactly the survivors of its history, from the one that is read first on |
| LogRetriever.Retriever.GetLog | src/shared_memory_logger.cpp:185-337 | for every history prints exactly the survivors that are not excluded, each whole, from the one that is read first on and round to the one before it, in write order if the first has fewer seconds, or the same and fewer microseconds, than each other one; says that the log is empty exactly when nothing survives |
| LogRetriever.InWriteOrder | src/shared_memory_logger.cpp:235-242 | that order for every history, in seconds and microseconds |
| LogLines.LogTextMeans | src/shared_memory_logger.cpp:223-333 | what is printed, entry by entry: first the one with the fewest seconds, then microseconds, then the place in memory, the others in write order and round; nothing of an entry whose tag or level is excluded, and otherwise the time, the tag and the level as far as they are asked for, a colon and a space behind each, the text and a line end |
| LogLines.EmptyLogText | src/shared_memory_logger.cpp:245-249 | the words printed when nothing survives |
| LogProtocol.StepKeepsInv | src/shared_memory_logger.cpp:100-152 | every step of every thread keeps: at rest memory is the ring of the accepted writes, inside a write a prefix of the new entry is laid over it |
| LogProtocol.SnapshotsAreWhole | src/shared_memory_logger.cpp:214-221 | in every interleaving every finished copy is the ring after a whole number of accepted writes, so it shows whole entries only |
| LogProtocol.DroppedWritesLeaveNoTrace | src/shared_memory_logger.cpp:101-122 | whenever no writer is inside, ring and cursor are those of the accepted writes alone |
| LogProtocol.WritesAreAccountedFor | src/shared_memory_logger.cpp:100-107 | in every interleaving every write that was begun was accepted or dropped, once, or is the one that is inside |
| LogProtocol.WriteAlone | src/shared_memory_logger.cpp:100-153 | a write whose steps nobody disturbs is accepted and leaves the ring with its entry |
| LogProtocol.WriteIsDropped | src/shared_memory_logger.cpp:101-104 | a write that finds the lock taken is dropped and changes nothing else |
| LogProtocol.ReadAlone | src/shared_memory_logger.cpp:214-221 | a reader that finds the lock free copies the ring as it is and changes nothing else |
| LogProtocol.MidWriteIsTorn | src/shared_memory_logger.cpp:123-152 | between a write's first and last block the ring has a head without its whole entry |
| LogProtocol.TornStateIsReachable | src/shared_memory_logger.cpp:123-152 | such a state is reached in the first write of an entry of several blocks, so the lock is needed |
| HexDump.BodyLength | include/stat_log/loggers/logger_common.h:191-195 | a dump takes three characters per byte |
| HexDump.BodyAt | include/stat_log/loggers/logger_common.h:191-195 | every byte takes its two lower-case hexadecimal digits, the higher first, and a line end if it is the 32nd of its line and a space otherwise |
| HexDump.ParseBody | include/stat_log/loggers/logger_common.h:191-195 | reading a dump back gives the dumped bytes |
| HexDump.LogGenProxy.HexDump | include/stat_log/loggers/logger_common.h:185-196 | an enabled proxy appends label and dump to its text, a disabled one nothing |
| HexDump.LogGenProxy.Finish | include/stat_log/loggers/logger_common.h:170-174 | the end of a logging statement logs the text collected, unless it is empty or the lock is taken |
| HexDump.DumpReadsBack | include/stat_log/loggers/logger_common.h:185-196 | a logged dump is an entry the log prints whole, and its text reads back as the dumped bytes |
| LogRun.LogThenRead | src/shared_memory_logger.cpp:77-337 | after any sequence of messages of any sizes, reading prints exactly the entries of the longest suffix whose blocks fit, each whole, from the one that is read first on, and in write order if the first one's head comes before all others |
| LogRun.MessagesPrinted | src/shared_memory_logger.cpp:77-337 | what is printed, in terms of the messages: the last ones, beginning with the one with the smallest time stamp, each with its own time, tag, level and text |
| LogRun.ReadAnyTime | src/shared_memory_logger.cpp:214-337 | in every interleaving of writers and readers, a reader whose copy is finished prints exactly the survivors of the writes accepted when it took the lock |
| LogRun.RenderShows | src/shared_memory_logger.cpp:320-333 | every entry that is not excluded has its line in the output |
| LogRun.SurvivingDumpReadsBack | include/stat_log/loggers/logger_common.h:185-196 | a dump that survives is printed whole, and the dumped bytes can be read back from the output |
| IndexCodec.CellIndexBound | include/stat_log/stats/stat_array.h:86-106 | a path within bounds leads to one of the array's cells |
| IndexCodec.CellOfIndexPath | src/printer.cpp:202-212 | every flat position is the cell of the path the printer divides it into |
| IndexCodec.IndexPathOfCell | src/printer.cpp:202-212 | every path is what the printer divides its cell's position into |
| IndexCodec.IndexPathsAscend | src/printer.cpp:202-212 | later positions have later paths: where two differ first, the earlier one has the smaller index |
| IndexSpec.RangeRead | src/printer.cpp:171-196 | the printer reads every well-formed range as documented, except that limits it cannot hold fall away |
| IndexSpec.RangeMeetsGrammar | src/utils.cpp:46-55 | a range has its documented meaning for all indices exactly if its number or lower bound fits |
| IndexSpec.SpecRead | src/printer.cpp:166-199 | what the printer makes of every specifier of dot-separated ranges, for every index |
| IndexSpec.SpecMeetsGrammar | src/utils.cpp:46-55 | a specifier whose numbers fit selects exactly the documented indices; an empty one selects all |
| IndexSpec.SelectorMeetsGrammar | src/printer.cpp:213-232 | the printer selects exactly the index paths that lie in every given dimension's specifier; missing specifiers accept all |
| IndexSpec.HelpTextExample | src/utils.cpp:52-55 | the help text's example selects what the help text says |
| IndexSpec.BelongsToRange | src/printer.cpp:166-199 | tells whether some range of the specifier accepts the index |
| Printer.LabelReadsBack | src/printer.cpp:218-232 | the label before an entry tells its index path and ends in a colon and a space |
| Text.NumTextDigits | src/printer.cpp:226 | digit `i` of a number, from the right, is the remainder of its quotient by `10^i` |
| Text.NumTextLength | src/printer.cpp:226 | a number has as many digits as powers of ten do not exceed it, and no zeros before it |
| Printer.IdxToDimString | src/printer.cpp:202-233 | the label is that of the decoded path, and the entry is to be printed exactly if the selector selects that path |
| Printer.ChosenAreTheKept | src/printer.cpp:243-249 | the positions printed are exactly the selected ones, ascending, each once |
| Printer.PrintEntries | src/printer.cpp:243-249 | prints the selected entries in order, each behind its label |
| Printer.PrintDump | src/printer.cpp:148-251 | a tag without entries is left out; otherwise name, title and selected entries |
| Printer.DumpMeans | src/printer.cpp:148-251 | of a tag with entries are printed its name, its title indented by the length of the first label, and a row for exactly the selected positions, ascending, each the label and the entry |
| Printer.ListedIsLatest | src/printer.cpp:63-69 | removing a tag before adding it leaves exactly the latest addition of each tag, in the order of these additions |
| Printer.LatestMeans | src/printer.cpp:63-69 | the listed additions are exactly those after which their tag was not added again, in the order they were made |
| Printer.ListedOnce | src/printer.cpp:83-97 | no tag is listed twice, and the listed tags are all that were ever added |
| Printer.MinDepthIsLeast | src/printer.cpp:85-94 | the minimum depth is that of the shallowest tag added |
| Printer.ListedAreDeepEnough | src/printer.cpp:134 | the depth of a listed tag minus the minimum depth never underflows |
| Printer.Printer.AddStatOutput | src/printer.cpp:83-89 | the list becomes that of the additions so far with this one, under the current print options |
| Printer.Printer.AddLogOutput | src/printer.cpp:91-97 | the same for log tags |
| Printer.Printer.PrintTags | src/printer.cpp:269-288 | lists all tags under their headings, each indented by its depth below the shallowest |
| Printer.SectionMeans | src/printer.cpp:269-288 | nothing without tags; otherwise the heading and for every tag as many tabs as it lies deeper than the shallowest, and its name |
| Printer.Printer.PrintDumpStat | src/printer.cpp:144-253 | prints a heading and the dumps of all listed tags, the first to the last, or nothing if none is listed |
| StatCell.WrittenDecodes | include/stat_log/stats/stats_common.h:54-64 | the word of a written cell is the sum or the value, modulo what its type can hold |
| StatCell.NumberStored | include/stat_log/stats/stats_common.h:57-64 | a number that a signed or unsigned type can hold survives being stored |
| StatCell.PrintedExactly | include/stat_log/stats/stats_common.h:74-79 | converted to `unsigned long`, a number is printed as what it is exactly if it is not negative |
| StatArray.VisitedIsFlat | include/stat_log/stats/stat_array.h:186-193 | nested loops reach the cells one after the other as they lie in memory, for every depth |
| StatArray.DumpShowsAll | include/stat_log/stats/stats_common.h:74-79 | a dump changes no memory and shows every cell once, in order; the title is that of the last cell |
| StatArray.ClearClearsAll | include/stat_log/stats/stats_common.h:84-87 | a clear clears every cell, also when it comes to it after others |
| StatArray.ClearLeavesRest | include/stat_log/stats/stats_common.h:84-87 | a clear changes no byte outside the cells |
| StatArray.PushedIsAllSizes | include/stat_log/stats/stat_array.h:171-195 | the dimension list is complete exactly if no size but the innermost is 0 or the command only asks for the type |
| StatArray.ArrayTitleMeans | include/stat_log/stats/stat_array.h:176-183 | the description of nested arrays opens once for each dimension, has the element's description and then the sizes, the innermost first |
| StatArray.DoLeafCommand | include/stat_log/stats/stats_common.h:66-88 | a command to a single stat shows, describes or clears its cell |
| StatArray.DoElements | include/stat_log/stats/stat_array.h:133-139 | the command reaches all elements in order and leaves the dimension list alone |
| StatArray.DoArrays | include/stat_log/stats/stat_array.h:185-194 | clearing and restoring the dimension list in the loop leaves the incoming list followed by the sizes of one embedded array |
| StatArray.DescribeFirst | include/stat_log/stats/stat_array.h:123-131 | the type of an array is described through its first element, which pushes the inner sizes |
| StatArray.DoStatCommand | include/stat_log/stats/stat_array.h:118-195 | for every depth the command reaches all cells in row-major order and appends the array's sizes to the dimension list |
| StatArray.CellLiesWithin | include/stat_log/stats/stat_array.h:86-106 | the cell a path leads to lies within the array |
| StatArray.AddressBelow | include/stat_log/stats/stat_array.h:152-159 | going one array down keeps the address the rest of the path leads to |
| StatArray.EatIndices | include/stat_log/stats/stat_array.h:94-106 | an array of stats takes its first argument for the index and its last for the value, however many come between |
| StatArray.Write | include/stat_log/stats/stat_array.h:86-159 | a write changes exactly the cell its indices lead to; it stores the last argument in an array's cell and the first in a single stat |
| TagTree.FlattenReversesPreorder | include/stat_log/util/stat_log_impl.h:202-248 | the flat list holds every node of the tree exactly once, in reversed preorder |
| TagTree.ParentComesFirst | include/stat_log/util/tag_commander.h:22-50 | a tag comes before all that lies below it |
| TagTree.PreorderOfAppend | include/stat_log/util/tag_commander.h:22-50 | what lies below an earlier sibling comes before what lies below a later one |
| TagTree.PreorderLiesBelow | include/stat_log/util/stat_log_impl.h:305-320 | a tag's depth is the number of tags above it |
| TagTree.HeadTailSplits | src/utils.cpp:226-241 | head and tail are the first name of a dotted path and the rest |
| TagTree.RouteIsAddressed | include/stat_log/util/tag_commander.h:70-113 | a command goes to exactly the tags whose names begin with the path, once each, in preorder; the empty path means all, an unknown one none |
| TagTree.RouteIsSubtree | include/stat_log/util/tag_commander.h:77-113 | with different names among siblings the path leads to one tag, and the command goes to it and all tags below it, or to none |
| Layout.RegionEndsBefore | include/stat_log/util/stat_log_impl.h:379-388 | every region ends before the next begins |
| Layout.RegionsTile | include/stat_log/util/stat_log_impl.h:360-388 | every byte of the shared memory lies in exactly one region |
| Layout.BuildsAgree | include/stat_log/util/stat_log_impl.h:358-388 | the operational and the control build give every tag the same offset and size and compute the same total |
| Layout.NodeHasHandle | include/stat_log/util/stat_log_impl.h:180-248 | every tag has its place in the list, with the container its build gives it |
| Layout.AddSizes | include/stat_log/util/stat_log_impl.h:363-368 | adds up the regions of a list |
| Layout.SetSharedPointers | include/stat_log/util/stat_log_impl.h:381-386 | hands out the regions of a list one behind the other |
| Layout.AssignPlaces | include/stat_log/util/stat_log_impl.h:358-388 | the total is the sum of all regions, and each tag gets the running sum before it, statistics before loggers |
| StatMemory.SitesAreSound | include/stat_log/util/stat_log_impl.h:379-388 | for every tag tree the statistics' cells lie one behind the other within the memory |
| StatMemory.SitesAgree | include/stat_log/util/stat_log_impl.h:333-346 | both processes find the same statistics at the same places |
| StatMemory.SitesKnowTree | include/stat_log/stat_log.h:30-38 | every tag is found, with what it holds |
| StatMemory.CellsAreApart | include/stat_log/stats/stat_array.h:86-106 | different cells, of one tag or of two, share no byte |
| StatMemory.ValueIsSumOrLast | include/stat_log/stats/stats_common.h:54-89 | a simple stat's word is the sum of the values written since the last clear, or the last of them, modulo what the type can hold |
| StatMemory.NumberIsSumOrLast | include/stat_log/stats/stats_common.h:54-89 | the number it holds, signed or not, is exactly that sum or value if and only if the type can hold it |
| StatMemory.AccumulatedIsSinceClear | include/stat_log/stats/accumulator.h:109-124 | the control word is set exactly from a clear until the next write, and otherwise the accumulator holds exactly the samples written since the last clear |
| StatMemory.ClearForgets | include/stat_log/stats/stats_common.h:84-87 | whatever both processes did in the meantime, nothing written before a clear of the cell counts |
| StatMemory.SuperfluousIndicesMatter | include/stat_log/stats/stats_common.h:59-64 | for every statistic and all arguments, superfluous indices change no other cell, and leave the written one alone exactly if the statistic is an array or the first argument gives the same word as the last |
| StatMemory.SuperfluousIndexIsStored | include/stat_log/stats/stats_common.h:59-64 | a single counter given 7 and 1 holds 7 |
| StatMemory.OneCellChanges | include/stat_log/stats/stat_array.h:86-106 | an event that touches one cell and changes bytes of that cell only keeps the rest of the map |
| StatMemory.WriteHolds | include/stat_log/stats/stats_common.h:59-64 | a write to a simple stat, whatever its arguments, changes the map at its tag and path only |
| StatMemory.CellClearHolds | include/stat_log/stats/stats_common.h:84-87 | clearing one cell zeroes a simple stat in the map or sets an accumulator's control word, and leaves the rest of the map alone |
| StatMemory.AccumWriteHolds | include/stat_log/stats/accumulator.h:109-124 | a write to an accumulator zeroes its control word if that is set, and changes no other byte and no other entry of the map |
| StatMemory.SerializeHolds | include/stat_log/stats/accumulator.h:94-107 | serializing an accumulator replaces its summary by that of the samples it holds, be there any or none |
| StatCommands.SendingShows | include/stat_log/stat_log.h:194-205 | commands other than a clear change no memory and give the printer one answer per tag, in order |
| StatCommands.DumpShowsMap | include/stat_log/stats/stats_common.h:74-79 | entry k of a simple stat's dump is the number at the path the printer decodes from k, as `unsigned long` |
| StatCommands.DumpIsExactUnlessNegative | include/stat_log/stats/stats_common.h:77 | it shows the number the map holds exactly if that is not negative |
| StatCommands.DumpShowsAccumulator | include/stat_log/stats/accumulator.h:153-191 | entry k of an accumulator's dump shows zeros from a clear until the next write, and otherwise the samples that were held at the last serialization; the title comes from what the last cell was served with, whether cleared or not |
| StatCommands.ClearReachesExactly | include/stat_log/util/tag_commander.h:22-50 | a clear clears every cell, or sets the control word of every accumulator, of the tags it is sent to, and no other cell changes |
| StatCommands.ClearKeepsRest | include/stat_log/util/tag_commander.h:22-50 | no byte behind the statistics changes, so log levels stay |
| StatCommands.RoutedAreKnown | include/stat_log/util/tag_commander.h:83-113 | no tag is sent a command twice |
| StatCommands.ClearHolds | include/stat_log/util/tag_commander.h:22-50 | a clear sent to a list of tags is in memory what one clear per cell is in the map |
| StatCommands.NodeClearsExactly | include/stat_log/util/tag_commander.h:22-50 | these clears zero simple stats and set control words in the map at all cells of these tags and nowhere else |
| StatLog.Operational.constructor | include/stat_log/util/stat_log_impl.h:358-391 | afterwards the map is zero everywhere and every logger of every log tag is at level INFO |
| StatLog.Operational.SetSharedPtr | include/stat_log/loggers/logger_common.h:47-56 | sets the levels of one log tag and nothing else |
| StatLog.Operational.WriteStat | include/stat_log/stat_log.h:65-69 | memory and accumulators stay in step with the map when a simple stat or an accumulator is written with any arguments it takes |
| StatLog.Operational.SerializeElement | include/stat_log/stats/accumulator.h:94-107 | they stay in step when one accumulator is serialized |
| StatLog.Operational.SerializeStat | include/stat_log/stats/stats_common.h:116-143 | serializing a statistic, of whatever depth, is serializing each of its accumulators; other statistics need none |
| StatLog.Operational.SerializeAll | include/stat_log/stat_log.h:94-105 | a round of the serializer thread serializes every statistic of the tree |
| StatLog.PassServesAll | include/stat_log/stat_log.h:94-105 | after such a round every accumulator shows the samples it holds, and nothing else in the map has changed |
| StatLog.ParseTag | src/utils.cpp:106-117 | an argument is a tag's path alone, or path, colon and specifiers; what a further colon introduces is ignored |
| StatLog.Control.constructor | include/stat_log/util/stat_log_impl.h:358-391 | a controller with the same tags is in step with the memory it attaches to |
| StatLog.Control.DoCommand | include/stat_log/stats/stats_common.h:150-155 | a command to a tag acts on its cells and answers with title, entries and sizes |
| StatLog.Control.SendCommand | include/stat_log/stat_log.h:186-205 | the answer goes to the printer with the tag's name, identity and depth |
| StatLog.Control.Go | include/stat_log/util/tag_commander.h:22-50 | the command is sent to a tag and then to all tags below it |
| StatLog.Control.TagCommander | include/stat_log/util/tag_commander.h:64-113 | the command is sent to the tags the path is routed to |
| StatLog.Control.Command | include/stat_log/stat_log.h:150-160 | memory stays in step with the map whatever the command and path; a clear is one clear per cell of the tags addressed |
| StatLog.Control.ClearCell | include/stat_log/stats/stats_common.h:84-87 | memory stays in step with the map when the controller clears one cell |
| StatLog.Control.ParseUserCommands | include/stat_log/stat_log.h:141-165 | the tags named are commanded one after the other, each with its own specifiers |
| StatLog.Control.DumpStats | include/stat_log/stat_log.h:141-170 | a dump prints the latest answer of every tag addressed, once, in the order of the last time it was addressed, and changes nothing |
| StatRun.LeafDump | src/printer.cpp:144-253 | of a leaf are printed its name, the title, and for every path the index specifiers denote, in order, the path and the text of its cell |
| StatRun.Perform | include/stat_log/stats/stats_common.h:54-89 | over any run of writes and serializations by one process and clears of cells by the other, in any order, memory, accumulators and map stay in step |
| StatRun.AnswersToRequests | include/stat_log/stat_log.h:141-165 | the printer is given the answers of the tags the requests address, in the order they are addressed |
| StatRun.LatestOfMapped | src/printer.cpp:63-69 | the answers left in the printer's list are those to the last request for each tag |
| StatRun.Dump | include/stat_log/stat_log.h:141-170 | what a controller prints for a list of paths is a function of the events alone, for every tree, list and selectors of the grammar |
| StatRun.RunThenDump | include/stat_log/stat_log.h:141-170 | for every tree, run, and list of paths with selectors of the grammar whose numbers fit: nothing if no tag is addressed, and otherwise a heading and the addressed leaves, the first to the last, once each, and of each exactly the cells denoted by the selector it was last addressed with, with what the run has left in them |
| StatReport.AskedTags | src/printer.cpp:63-69 | printed are exactly the tags that a request addresses and no later request does, with that request's specifiers, in the order of the requests and of each one's route |
| StatReport.TagInfoOfNode | include/stat_log/stat_log.h:186-205 | a tag is shown with the last name of its path, and its depth is the number of names above |
| StatReport.LeafIsPrinted | src/printer.cpp:148-251 | of a leaf are printed the last name of its path, its title indented by the length of the first label, and a row for exactly the denoted positions, ascending, each the label and the cell's text |
| StatReport.ParentLines | src/printer.cpp:150 | nothing is printed of a parent |
| StatReport.SimpleEntry | include/stat_log/stats/stats_common.h:74-79 | the text of a simple stat's cell is its number modulo 2^64, and it has no title |
| StatReport.AccumEntry | include/stat_log/stats/accumulator.h:178-190 | the text of an accumulator's cell has, for every feature in order, what it shows for 0 or for the word of the samples last serialized, and a space |
| StatReport.AccumTitle | include/stat_log/stats/accumulator.h:168-176 | its title has, for every feature in the same order, a space and the title for the word the last cell was served with |
| CounterProtocol.StoreIsRightExactly | include/stat_log/stats/simple_counter.h:18-23 | after a store a counter is right exactly if what the others stored and cleared since its load would have left the loaded number as it was |
| CounterProtocol.HarmlessExactly | include/stat_log/stats/simple_counter.h:18-23 | that is the case exactly if it adds up to nothing, or, with a clear among it, to the loaded number |
| CounterProtocol.IdealIsValue | include/stat_log/stats/simple_counter.h:18-23 | what the counter is to hold after its stores and clears is its value in the map of the statistics |
| CounterProtocol.RunIsRightExactly | include/stat_log/stats/simple_counter.h:18-23 | in every run the counter holds its value in the map after each step exactly if each store's condition holds |
| CounterProtocol.ClearIsLost | include/stat_log/stats/stats_common.h:84-87 | a clear between load and store is lost exactly if there was something to clear |
| CounterProtocol.WriteIsLost | include/stat_log/stats/simple_counter.h:18-23 | a write inside another one is lost exactly if it added something |
| BitStatus.WriteBitStatus | include/stat_log/util/bit_status.h:41-56 | one write per set bit, in order, with the indices, the bit's number and a one for arguments |
| BitStatus.BitsAreCounted | include/stat_log/util/bit_status.h:41-56 | in an array with a cell per bit each set bit reaches its own cell and no other cell is written |
| BitStatus.BitCount | include/stat_log/util/bit_status.h:14-16 | afterwards a counter is one more where the bit is set and unchanged elsewhere |
| BitStatus.SingleAddsNumbers | include/stat_log/stats/stats_common.h:59-64 | a single stat is given the numbers of the set bits |
| Accumulator.CellShows | include/stat_log/stats/accumulator.h:168-191 | while the control word is set an entry shows zeros, otherwise the features of the samples last summarized; the title is made from these in both cases |
| Accumulator.EntryAndTitle | include/stat_log/stats/accumulator.h:154-200 | entry, title and description list the features in one order, that of their words in the cell; the entry shows zeros while the control word is set, the title does not |
| Accumulator.NamedTitles | include/stat_log/stats/accumulator_types/accumulator_common.h:76-79 | a title of features that are titled by their names is their names, whatever lies in memory |
| Accumulator.ClearSetsWord | include/stat_log/stats/accumulator.h:202-205 | a clear sets the control word and leaves the summary |
| Accumulator.AccumOp.Write | include/stat_log/stats/accumulator.h:109-124 | if the control word is set the earlier samples go and the word is zeroed; the sample is added |
| Accumulator.AccumOp.Serialize | include/stat_log/stats/accumulator.h:94-107 | what the features make of the samples, be there any or none, takes the front of the cell, and the control word is not touched |
| Accumulator.FeatureInCell | include/stat_log/stats/accumulator.h:168-190 | a feature's word lies where the advancing pointer has come to |
| Accumulator.DoAccumCommand | include/stat_log/stats/accumulator.h:140-206 | the accumulator's command is what arrays of stats expect of their elements; what a dump shows is spelled out by `EntryAndTitle` |
| AccumArray.SerializeArray | include/stat_log/stats/stat_array.h:108-169 | for every depth each accumulator's summary is stored at its own cell |
| AccumArray.SerializedCells | include/stat_log/stats/stat_array.h:161-169 | afterwards every cell begins with its summary, and all control words are as before |
| AccumArray.WriteElement | include/stat_log/stats/stat_array.h:86-159 | a write goes down the nested arrays, one index each, to the one accumulator and control word its indices lead to, with the last argument for its sample |
| AccumArray.WriteAccumulator | include/stat_log/stats/accumulator.h:109-124 | a single accumulator takes one argument, an array of them as other arrays do |
| AccumulatorProtocol.StepKeepsInv | include/stat_log/stats/accumulator.h:94-191 | every step of writers, serializer and controller keeps the protocol's invariant |
| AccumulatorProtocol.NoClearIsLost | include/stat_log/stats/accumulator.h:109-124 | once a write has finished, the accumulator never again holds a sample added before the clears that preceded the write, even if a clear comes between test and zeroing |
| AccumulatorProtocol.LateSamplesStay | include/stat_log/stats/accumulator.h:115-123 | a sample whose write began after the last clear is not dropped |
| AccumulatorProtocol.DumpShowsLastSummary | include/stat_log/stats/accumulator.h:178-190 | outside of serializations a dump in one step shows zeros if the word is set or there was no serialization, and otherwise the summary of what the last serialization saw |
| AccumulatorProtocol.UndisturbedDumpIsWhole | include/stat_log/stats/accumulator.h:178-190 | a dump that reads word and value feature by feature shows the same if neither is touched while it lasts |
| AccumulatorProtocol.DumpIsTorn | include/stat_log/stats/accumulator.h:178-190 | with a clear between two features it shows the first one's value and a zero |
| AccumulatorProtocol.ZerosUntilZeroed | include/stat_log/stats/accumulator.h:186-205 | from a clear on dumps show zeros until a writer zeroes the word, however often the serializer runs |
| AccumulatorProtocol.DumpIsCurrentExactly | include/stat_log/stats/accumulator.h:95-107 | a dump of samples shows ones the accumulator still holds exactly if the serializer ran since the last reset |
| AccumulatorProtocol.WriteAlone | include/stat_log/stats/accumulator.h:109-124 | the steps of an undisturbed write amount to the write as one operation |
| AccumulatorProtocol.SerializeAlone | include/stat_log/stats/accumulator.h:95-107 | the steps of an undisturbed serialization amount to it as one operation |
| AccumulatorProtocol.StaleSummaryReappears | include/stat_log/stats/accumulator.h:117-121 | after clear and write, before the next serialization, a dump shows the sample from before the clear |
| Histogram.EdgesDivideRange | include/stat_log/stats/accumulator_types/boost_hist.hpp:66-79 | edges increase strictly, from the minimum at edge 1 to the maximum at the last |
| Histogram.EdgesAreEven | include/stat_log/stats/accumulator_types/boost_hist.hpp:76-79 | all bins between the edges have the same width, the range divided by their number |
| Histogram.EdgeBelongsToUpperBin | include/stat_log/stats/accumulator_types/boost_hist.hpp:87-105 | a sample equal to an edge lies in the bin that begins there |
| Histogram.BinsPartition | include/stat_log/stats/accumulator_types/boost_hist.hpp:87-105 | every sample lies in exactly one half-open bin |
| Histogram.CountsAddUp | include/stat_log/stats/accumulator_types/boost_hist.hpp:82-107 | no sample is lost or counted twice |
| Histogram.CountIsNumber | include/stat_log/stats/accumulator_types/boost_hist.hpp:82-107 | a bin's count is the number of the samples not below its lower edge and below its upper edge |
| Histogram.DensitiesAreADistribution | include/stat_log/stats/accumulator_types/boost_hist.hpp:110-127 | densities are numbers exactly if there are samples; then none is negative and they sum to 1 |
| Histogram.SharesAreCounts | include/stat_log/stats/accumulator_types/boost_hist.hpp:119-120 | a bin's share times the number of samples is its count |
| Histogram.UpperBound | include/stat_log/stats/accumulator_types/boost_hist.hpp:97-101 | finds the first edge above the sample |
| Histogram.PlaceBins | include/stat_log/stats/accumulator_types/boost_hist.hpp:76-79 | computes the lower bounds of the bins: edge 1 is the minimum and each next one a bin's width, the range divided by the number of bins, further on |
| Histogram.HistogramImpl.FindBin | include/stat_log/stats/accumulator_types/boost_hist.hpp:87-105 | comparison and search give the bin whose interval holds the sample; a sample equal to edge i belongs to bin i |
| Histogram.HistogramImpl.Add | include/stat_log/stats/accumulator_types/boost_hist.hpp:82-107 | every bin's count stays the number of samples in its interval |
| Histogram.HistogramImpl.Result | include/stat_log/stats/accumulator_types/boost_hist.hpp:110-127 | pairs each bin's bound with its count or its share of the samples |
| Histogram.HistogramImpl.Serialize | include/stat_log/stats/accumulator_types/histogram.h:73-83 | the shared array takes the result bin by bin, bounds and values converted to its types |
| HistogramTraits.BinsReadBack | include/stat_log/stats/accumulator_types/histogram.h:73-83 | every bin's bound and value can be read back from the shared array, as far as their types can hold them |
| HistogramTraits.HistogramShows | include/stat_log/stats/accumulator_types/histogram.h:91-121 | the dump of a serialized histogram lists the bounds of all bins in its title and their counts or shares in its entry, for any samples and without any |
| HistogramTraits.ListingMeans | include/stat_log/stats/accumulator_types/histogram.h:91-121 | these lists have every bound's or value's text and a space behind it, in the order of the bins |
| HistogramTraits.HistogramServes | include/stat_log/stats/accumulator_types/histogram.h:73-83 | what such a feature stores for the samples is the result of the histogram accumulator that was given them |

## Left out

- Creation and mapping of shared memory and its error exits: memory is a byte array of the right size, zeroed by the operational side.
- Other layouts of a log header: fields lie as on platforms with 4-byte `unsigned int` that align 8-byte integers to 8 bytes (512 bytes a block, 48 and 4 a header), and the seconds of a time stamp take 8 bytes.
- LogRetriever.Retriever.GetLog: needs fewer than 2^32 blocks and at least one byte behind the ring, and survivors that are NUL-terminated texts with a tag below 16 and a level below 8 characters; the code does not check these.
- `localtime` and `strftime`: the text of a time stamp is a parameter, and an invalid time does not end the program.
- Output to a file instead of the terminal.
- LogProtocol.SnapshotsAreWhole: blocks are stored and copied in one step each; smaller steps inside the lock are seen by nobody else.
- StatRun.RunThenDump: a write, a serialization and a clear of one cell are one step of a run each, in any order; the dump comes after the run. `CounterProtocol` and `AccumulatorProtocol` take the steps of a counter and of an accumulator apart, one cell at a time.
- StatMemory.NumberIsSumOrLast: a signed counter is taken to wrap around; the language leaves such an overflow undefined.
- Floating-point simple stats, and the widths, precision and alignment of printed numbers.
- Accumulator.AccumOp.Write: the accumulator set is the sequence of its samples, a feature's stored word any function of it and its entry and title any functions of the word; how Boost computes a feature is not part of this model. Each feature shows zeros as it shows a zero word.
- AccumulatorProtocol.UndisturbedDumpIsWhole: what a dump shows that overlaps a serialization, a clear or the zeroing of the control word is not characterized; the code takes no lock there.
- Histogram.DensitiesAreADistribution: rounding is not modelled.
- IndexSpec.BelongsToRange: ranges with two or more dashes are not covered; the code writes beyond its two bounds there.
- StatArray.Write: indices out of range are not covered; the code asserts that there are none. Argument lists for which the templates do not compile are not covered either.
- Arrays of size 0 in trees: `StatMemory.SpecOk` asks for positive sizes, because the printer divides by them.
- Changing log levels, listing stat types and the log-level listing: they pass through the same routing and list of tags.
- Parsing of the command line other than tags, paths and index specifiers, help texts, and output options of the log.
- `NullStat`, time series, compound and stream loggers, and the template machinery that builds the tag tree.
