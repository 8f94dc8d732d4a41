# Traffic capture, index and storage: a verified model

The repository captures network packets, lays them on disk, indexes the flows they belong to, and stores time series
in a small data node. This project models the parts of it whose correctness is hard to see, in the form the C++ code
has (linked nodes, bit-packed buffers, in-place writes, state machines fed by queues), and proves what they keep.
`dafny verify dfyconfig.toml` checks everything.

Three groups of files:

**Flow index.** `BitMap.dfy` (bit matrix), `PrefixBloomFilter.dfy` (address slices and Bloom rows), `Keys.dfy` (typed
keys and `operator>>`), `SkipLog.dfy` (what the skip list means, without nodes), `SkipList.dfy` (towers and pointers),
`MemoryIndex.dfy` (Bloom gate in front of six skip lists), `BloomExact.dfy` (which lookups the filter answers no). The random level is any value from 1 to `maxLevel`, the hash
is an arbitrary function.

**Data node write path.** `Dispatch.dfy` (server, engine, pipes), `PipeRing.dfy` (the lock-free ring as interleaved
atomic steps), `Tables.dfy` (rows, schemas, memtables), `RegionWorker.dfy` (region life cycle, once as a state machine
on values and once as objects), `RegionLives.dfy` (where regions go), `SST.dfy` (block layout, writer, reader, file), `Storage.dfy` (the flusher, and the way
from accepted row to bytes on disk).

**Probe storage.** `PacketAggregator.dfy` (flow chains by circular distances), `CellLog.dfy` (packets across linked
cells, and bytes written over them), `FlowDisk.dfy` (runs of the capture loop: log and links in the same bytes),
`DiskChains.dfy` (what bytes must say for a flow to be found), `DPDKCapture.dfy` (the capture object),
`DataBlockBuffer.dfy` (a circular window of memory blocks onto a larger circular disk), `BlockRuns.dfy` (what its blocks
say over runs), `CheckThreads.dfy` (how its check threads share them).

`Bytes.dfy`, `Buffers.dfy` and `Wrappers.dfy` hold machine words, byte buffers and `Option`. Every class is proved
against a specification on values, and the lemmas state what that specification means: the worker object does what
`WorkerRuns.HandleSignal` says, and `WorkerRuns` proves what every run of `HandleSignal` keeps.

## Facts about the code the proofs make exact

- Search results are 32-bit (src-old/lib/skipList.hpp:476): the answer is the stored value modulo 2^32.
- `PipeRing` loses an item with two producers, on every ring (`TwoProducersLoseAnItem`); one producer is enough for every
  ring to be a queue (`RunIsFifo`). `workerFlusherPipe` is shared by all workers (src/dataNode/dataNode.cpp:22); the model
  treats it as a queue.
- CREATE is refused only for an id that is open and closed at once, so one id can be both (`CreateWhileOpen`). The maps
  stay apart exactly in runs that create no open region (`RunApartIff`).
- The worker checks no types. A value of another type than its column is accepted and, when its memtable is flushed,
  raises an exception that leaves the flusher's loop; a JSON number without sign is unsigned, so an INT64 column takes
  5 and cannot be flushed (`UntypedAccepted`). Everything reaches the file exactly when every accepted write is typed
  (`AllHandledIff`).
- The write position of `outputToCharCompact` is 32-bit: its bytes are the compact form for every list exactly when the
  last value starts below 2^32 (`EmittedIff`).
- A write to an empty memtable can flush that empty memtable (`EmptyFlush` says exactly when); its start time is then
  2^64 - 1 and its end time 0.
- A string cell records the size of all strings as its offset (src/dataNode/dataNodeLib/SST.hpp:190), while
  src/dataNode/readme.md promises the offset of the string; only empty strings are inside the block when read through
  it (`RecordedOffset`). Strings are recovered by summing sizes (`ReadBack`). The readme also counts a time stamp
  column; the code writes no time stamps.
- A link of 2^32 - 1 bytes reads as the end of a chain; `LinksExactIff` gives the exact condition on threshold and disk.
- Packet data split by a cell boundary starts again at its first byte (src/probe/dpdkCapture.cpp:176); `RecordExact`
  says when the record is still the packet.
- A packet whose header starts fewer than four bytes before the end of a cell's room, or on the cell pointer itself, does
  not have its four link bytes: part of the pointer stands there. If nobody follows it, the pointer reads as a link and
  its flow is not given back (`UnfollowedOnPointer`); if somebody does, the link is written over the pointer and what
  lies behind it is lost (`LinkOnPointer`). `FlowOnDisk`, `RecordOnDisk` and `PointersIntactIff` say exactly which flows,
  records and pointers remain.
- `writeBefore` ignores a refused link (src/probe/dpdkCapture.cpp:72), and the flow is then cut there (`ClearRight`). A
  link may also be taken after its block was handed out (`LateLink`); new data is not, while its writer stays within the
  barrier interval (`NewDataSpares`).
- Check threads never hand out the same block exactly when their number divides that of the blocks (`SharedOutIff`),
  which nothing checks.
- Block ids stay usable after recycling exactly when the buffer divides the disk (`AlignmentIff`), which the
  constructor does not check. A block's times are never reset: its start time belongs to the current lap exactly when no
  earlier lap was offered a smaller one (`StartOfLapIff`, `TwoLaps`), its end time as soon as one write of the lap closed
  it (`EndOfLap`).

## Model

| member | source | states |
|---|---|---|
| BitMaps.CellInBounds | src-old/lib/bitMap.hpp:20-35 | every cell of the matrix has its byte inside the allocation and its bit inside that byte |
| BitMaps.CellInjective | src-old/lib/bitMap.hpp:20-35 | two cells share byte and bit if and only if they are the same cell |
| BitMaps.SetCells | src-old/lib/bitMap.hpp:92-101 | or-ing the mask into one byte adds exactly one cell to the matrix the bytes stand for |
| BitMaps.ClearCells | src-old/lib/bitMap.hpp:83-90 | and-ing the inverted mask removes exactly one cell |
| BitMaps.BitMap.Create | src-old/lib/bitMap.hpp:38-58 | fails exactly on the two bad column counts, otherwise an all-false matrix |
| BitMaps.BitMap.Get | src-old/lib/bitMap.hpp:74-82 | membership in the matrix, false out of range |
| BitMaps.BitMap.Set | src-old/lib/bitMap.hpp:92-101 | adds its own cell and no other; refuses exactly what is out of range |
| BitMaps.BitMap.ClearCol | src-old/lib/bitMap.hpp:83-90 | the loop removes exactly the cells of one column |
| Keys.ShrIsDivision | src-old/lib/util.hpp:61-76 | for every shift, `operator>>` divides high * 2^64 + low by 2^shift |
| Keys.IPv6Order | src-old/lib/util.hpp:25-47 | the three comparisons are the numeric order of the 128-bit values |
| Keys.CompareIsRankOrder | src-old/lib/skipList.hpp:236-312 | for every key length, the typed comparison of two byte strings is the order of one number per key |
| Keys.RankInjective | src-old/lib/skipList.hpp:236-312 | keys without padding compare equal only when they are the same bytes |
| Keys.TupleIPv4Bytes | src-old/lib/util.hpp:84-88 | the four members of an IPv4 tuple, each encoded in its width, are the twelve bytes of the key in this order |
| Keys.PaddedTuple | src-old/lib/util.hpp:151-155 | two 40-byte keys compare equal if and only if their four members are the same; the padding does not matter |
| SkipLog.SortLogSorted | src-old/lib/skipList.hpp:446-451 | inserting before the first key not smaller keeps any history in key order |
| SkipLog.SortLogPermutes | src-old/lib/skipList.hpp:423-469 | the ordered form holds exactly the inserted entries, with multiplicity |
| SkipLog.SortLogMatching | src-old/lib/skipList.hpp:446-451 | under each key the entries stand newest first |
| SkipLog.SortLogIsTheOnly | src-old/lib/skipList.hpp:446-451 | these two properties determine the order: no other sequence has both |
| SkipLog.BetweenSorted | src-old/lib/skipList.hpp:495-519 | a range answer is in key order |
| SkipLog.BetweenMatching | src-old/lib/skipList.hpp:495-519 | a range answer lists under each key in [begin, end) what a key search lists, and nothing for other keys |
| SkipLog.ExpandCompact | src-old/lib/skipList.hpp:552-571 | expanding the compact form from its bytes, with the number of keys recovered from the length, gives back every (key, value) pair in order, for up to 2^32 entries |
| SkipLog.JoinPairs | src-old/lib/skipList.hpp:532-551 | the plain form is those same pairs written one after the other |
| Towers.ChainIncreases | src-old/lib/skipList.hpp:454-464 | each level visits positions in increasing order, so it has no cycle |
| Towers.ChainMembers | src-old/lib/skipList.hpp:454-464 | a level visits exactly the towers taller than it |
| Towers.UpperLevelIsSubsequence | src-old/lib/skipList.hpp:454-464 | level l + 1 is the subsequence of level l whose towers reach it |
| Towers.BottomLevelLength | src-old/lib/skipList.hpp:433-436 | the bottom level visits every node |
| SkipLists.RelinkedPointer | src-old/lib/skipList.hpp:454-464 | a pointer of an old node after the relinking is the pointer the longer list needs |
| SkipLists.SkipList.LevelMeaning | src-old/lib/skipList.hpp:423-469 | in every reachable list each level is a null-ended walk from the head over increasing positions, a subsequence of the level below, empty at or above `level`, with `nodeNum` nodes at the bottom |
| SkipLists.SkipList.LevelMembers | src-old/lib/skipList.hpp:440-464 | a node of height h is on exactly the levels 0 to h - 1 |
| SkipLists.SkipList.KeysAscend | src-old/lib/skipList.hpp:446-451 | keys never decrease along the bottom level |
| SkipLists.SkipList.EmptyAbove | src-old/lib/skipList.hpp:467 | no node reaches a level at or above `level`, so the head links there are null |
| SkipLists.SkipList.RandomLevel | src-old/lib/skipList.hpp:85-91 | any outcome of the coin is a level from 1 to maxLevel |
| SkipLists.SkipList.Descend | src-old/lib/skipList.hpp:443-451 | stops on every level at the last tower with a smaller key |
| SkipLists.SkipList.Relink | src-old/lib/skipList.hpp:454-464 | exactly the predecessors' pointers change, to the new node, which takes over the old ones |
| SkipLists.SkipList.Insert | src-old/lib/skipList.hpp:423-469 | for any key and any tower height all list invariants hold again, and the log grows by exactly this entry; wrong lengths are ignored, a full list refuses |
| SkipLists.SkipList.FindByKey | src-old/lib/skipList.hpp:470-494 | the pointer descent and scan answer a filter of the insertion log: values under the key, newest first, modulo 2^32 |
| SkipLists.SkipList.FindByRange | src-old/lib/skipList.hpp:495-519 | the values of all keys in [begin, end), by key and newest first within a key, modulo 2^32 |
| SkipLists.SkipList.OutputToChar | src-old/lib/skipList.hpp:532-551 | the buffer is filled, without gap, with every key and value in key order |
| SkipLists.SkipList.OutputToCharCompact | src-old/lib/skipList.hpp:552-571 | count, directory and values for any number of nodes; the compact form whenever the last value starts below 2^32 |
| SkipLists.WritePosition | src-old/lib/skipList.hpp:566 | the 32-bit write positions are the true ones for all nodes if and only if the last value starts below 2^32 |
| SkipLists.EmittedIff | src-old/lib/skipList.hpp:552-571 | what is returned is the compact form for every list of n entries if and only if the last value starts below 2^32; beyond that any list whose last value uses its top byte loses it |
| SkipLists.EmittedLossless | src-old/lib/skipList.hpp:552-571 | until then expanding the returned bytes gives back every pair in order |
| BloomRows.RowsWithin | src-old/lib/prefixBloomFilter.hpp:58-99 | every row an insertion touches lies in its own field's range, and all ranges end below (PORT + IPV4 + IPV6) * 2 |
| BloomRows.RangesDisjoint | src-old/lib/prefixBloomFilter.hpp:275-316 | the row ranges of different fields do not meet |
| BloomRows.NoFalseNegative | src-old/lib/prefixBloomFilter.hpp:123-217 | once x is inserted, and whatever is marked later, every lookup of an address sharing x's top prefix bytes is true |
| BloomRows.AnswerMonotone | src-old/lib/prefixBloomFilter.hpp:123-217 | a shorter prefix of an address that answers true answers true, on any set of marked cells |
| BloomRows.FullAnswerIsAllRows | src-old/lib/prefixBloomFilter.hpp:101-122 | the prefix form at full length asks the same as the plain form |
| BloomRows.AnswerShared | src-old/lib/prefixBloomFilter.hpp:123-217 | an answer depends only on the leading bytes asked about |
| BloomRows.AnswerLocal | src-old/lib/prefixBloomFilter.hpp:123-217 | an answer for a field depends only on the rows of that field |
| BloomExact.AnswerTwoExact | src-old/lib/prefixBloomFilter.hpp:123-217 | after any insertions into any fields, a port or two leading bytes of an address are found if and only if a value with them was inserted into that field |
| BloomExact.AnswerOneExact | src-old/lib/prefixBloomFilter.hpp:127-133 | the same for one leading byte |
| BloomExact.AnswerNeedsTop | src-old/lib/prefixBloomFilter.hpp:134-171 | a longer prefix is only found when its two leading bytes were inserted |
| BloomExact.RowsInNumbers | src-old/lib/prefixBloomFilter.hpp:58-99 | which rows an insertion into a field marks, as numbers: the row of the leading pair, that of the lower pair of an IPv4 address, and k hashed rows for each lower byte |
| BloomExact.AnswerInNumbers | src-old/lib/prefixBloomFilter.hpp:134-217 | a lookup of two or more bytes is true if and only if exactly the rows of those bytes are marked, with some pair of the third byte for three bytes of an IPv4 address |
| BloomRows.FieldsDoNotInterfere | src-old/lib/prefixBloomFilter.hpp:275-316 | an insertion into one field changes no answer of another field, for any value, prefix and column |
| BloomRows.AdequateReach | src-old/lib/prefixBloomFilter.hpp:225-232 | on a bitmap of the announced size no insertion runs out of rows |
| BloomRows.ReachStop | src-old/lib/prefixBloomFilter.hpp:37-45 | an insertion that fails has marked exactly the rows before the first one out of range |
| PrefixBloomFilters.IPv6Byte | src-old/lib/prefixBloomFilter.hpp:88 | bytes taken through `operator>>` are the little-endian bytes of the 128-bit value |
| PrefixBloomFilters.IPv6Prefix | src-old/lib/prefixBloomFilter.hpp:90-91 | the hashed string is the little-endian form of the value above the byte |
| PrefixBloomFilters.PrefixBloomFilter.SetBloom | src-old/lib/prefixBloomFilter.hpp:37-45 | the hash loop marks the rows of the byte, stopping at the first that does not fit |
| PrefixBloomFilters.PrefixBloomFilter.SetIPv4 | src-old/lib/prefixBloomFilter.hpp:58-79 | marks the pair rows and the Bloom rows of each lower byte, and succeeds exactly when all fit |
| PrefixBloomFilters.PrefixBloomFilter.SetIPv6 | src-old/lib/prefixBloomFilter.hpp:80-99 | the same for sixteen bytes |
| PrefixBloomFilters.PrefixBloomFilter.GetBloom | src-old/lib/prefixBloomFilter.hpp:47-56 | the early-exit loop tests exactly the rows the insertion marks |
| PrefixBloomFilters.PrefixBloomFilter.CheckIPv4 | src-old/lib/prefixBloomFilter.hpp:123-173 | the branches for each prefix length answer the prefix question on the marked cells |
| PrefixBloomFilters.PrefixBloomFilter.CheckIPv6 | src-old/lib/prefixBloomFilter.hpp:189-217 | the same for sixteen bytes |
| PrefixBloomFilters.PrefixBloomFilter.InsertPort | src-old/lib/prefixBloomFilter.hpp:275-288 | marks in the writing column; false exactly without bitmap, for another kind of field, or out of rows |
| PrefixBloomFilters.PrefixBloomFilter.InsertIPv4 | src-old/lib/prefixBloomFilter.hpp:289-302 | as InsertPort, for the rows of an IPv4 address |
| PrefixBloomFilters.PrefixBloomFilter.InsertIPv6 | src-old/lib/prefixBloomFilter.hpp:303-316 | as InsertPort, for the rows of an IPv6 address |
| PrefixBloomFilters.PrefixBloomFilter.GetPort | src-old/lib/prefixBloomFilter.hpp:318-332 | true exactly when the port's row is marked in the reading column |
| PrefixBloomFilters.PrefixBloomFilter.GetWholeIPv4 | src-old/lib/prefixBloomFilter.hpp:333-347 | true exactly when all rows of the address are marked |
| PrefixBloomFilters.PrefixBloomFilter.GetWholeIPv6 | src-old/lib/prefixBloomFilter.hpp:363-376 | true exactly when all rows of the address are marked |
| PrefixBloomFilters.PrefixBloomFilter.GetIPv4 | src-old/lib/prefixBloomFilter.hpp:348-362 | answers the prefix question for prefix lengths 0 to 4 |
| PrefixBloomFilters.PrefixBloomFilter.GetIPv6 | src-old/lib/prefixBloomFilter.hpp:377-392 | answers the prefix question for prefix lengths 0 to 16 |
| FlowLog.ExpectedIsScan | src-old/lib/memoryIndex.hpp:42-100 | on an adequate bitmap the expected answer is a plain scan of all inserted flows for the struct member with these bytes |
| FlowLog.LogAnswersExpected | src-old/lib/memoryIndex.hpp:101-121 | searching a field's log for a key is scanning the flows for it, with ports merging both address families |
| FlowLog.GateHidesNothing | src-old/lib/memoryIndex.hpp:104-106 | a key the Bloom gate turns away is the key of no logged entry |
| FlowLog.AdequateRecorded | src-old/lib/memoryIndex.hpp:42-100 | on an adequate bitmap every field of every flow is entered |
| FlowLog.RecordedPrefix | src-old/lib/memoryIndex.hpp:46-49 | an insertion that stops has entered exactly the fields before the one that failed |
| FlowLog.KeyIsMember | src-old/lib/memoryIndex.hpp:43-98 | the bytes a flow is entered under for a field are the encoding of that member of its IPv4 or IPv6 struct, and a key of another size is entered under nothing |
| FlowLog.RecordedIPv4 | src-old/lib/memoryIndex.hpp:43-70 | which fields of an IPv4 flow are entered: source address, destination address, source port, destination port, in this order, as long as the rows of each member fit |
| FlowLog.RecordedIPv6 | src-old/lib/memoryIndex.hpp:71-98 | the same for an IPv6 flow |
| FlowLog.ScanFinds | src-old/lib/memoryIndex.hpp:101-121 | a number is in the answer if and only if it is the position, modulo 2^32, of a flow whose struct has the key as that member |
| MemoryIndexes.MemoryIndex.constructor | src-old/lib/memoryIndex.hpp:27-40 | six empty lists behind one filter with reading column equal to writing column |
| MemoryIndexes.MemoryIndex.InsertIndex | src-old/lib/memoryIndex.hpp:42-100 | the history grows by the flow, and every list holds exactly what the history enters under its field |
| MemoryIndexes.MemoryIndex.SearchIndex | src-old/lib/memoryIndex.hpp:101-121 | for any history the low 32 bits of the positions of the flows entered under the key, newest first; on an adequate bitmap, of all flows whose struct has the key as that member (srcip for SRCIP and so on) |
| PipeRings.RealPosBijective | src/lib/pipeRing.hpp:51 | `real_pos` is a bijection on the positions below the capacity, for every power of two from 8 on |
| PipeRings.SlotDistinct | src/lib/pipeRing.hpp:51 | two items less than a lap apart never share a slot |
| PipeRings.RunInv | src/lib/pipeRing.hpp:43-71 | the ring invariant holds in every state of every interleaving of one producer's and one consumer's atomic steps |
| PipeRings.RunIsFifo | src/lib/pipeRing.hpp:43-71 | in every such state what was received is, in order, what was sent first, and at most capacity - 1 items wait |
| PipeRings.StepRefinesQueue | src/lib/pipeRing.hpp:43-71 | each atomic step is a stutter, one put into a queue with room, or one get from its front |
| PipeRings.BlockingIsExact | src/lib/pipeRing.hpp:47-63 | put waits exactly on a full queue, get comes back empty exactly on an empty one |
| PipeRings.NoRace | src/lib/pipeRing.hpp:53-67 | the consumer never reads the slot being written |
| PipeRings.TwoProducersLoseAnItem | src/lib/pipeRing.hpp:43-71 | with two producers, on every ring: one interleaving of two puts loses the first item, and of the two whole gets that follow the second yields a slot nobody wrote |
| PipeRings.PipeRing.Put | src/lib/pipeRing.hpp:43-57 | a whole put appends to the queue and keeps the invariant |
| PipeRings.PipeRing.Get | src/lib/pipeRing.hpp:58-71 | a whole get takes the front of the queue, or nothing when it is empty |
| PipeRings.PipeRing.constructor | src/lib/pipeRing.hpp:25-39 | storage exists exactly for a power of two and for capacity 0; an empty queue from capacity 8 on |
| Requests.AcceptedWellSent | src/dataNode/regionServer.cpp:29-141 | whatever arrives, the signals sent are numbered consecutively and the first for every region is a CREATE |
| Requests.AcceptedConcat | src/dataNode/regionServer.cpp:29-141 | splitting the input into lines changes nothing |
| Requests.DecodeIff | src/dataNode/regionServer.cpp:50-133 | an object is decoded to a request if and only if its entries ask for that request: WRITE, or ADMIN with CREATE, OPEN, CLOSE or DROP and their fields |
| Requests.AcceptedOne | src/dataNode/regionServer.cpp:36-139 | an object that asks for a request becomes a signal with its region, the next number and that request if and only if the region was created before or is created by it |
| Requests.RejectedOne | src/dataNode/regionServer.cpp:31-139 | an object that asks for nothing becomes nothing |
| RegionServers.RegionServer.ParseRequest | src/dataNode/regionServer.cpp:30-138 | a signal results exactly for an accepted request; the region map grows only by created regions |
| RegionServers.RegionServer.ParseRequests | src/dataNode/regionServer.cpp:13-141 | one array of objects yields exactly the accepted requests after those already sent |
| RegionServers.RegionServer.SendRegionRequest | src/dataNode/regionServer.cpp:143-152 | a signal of an unknown region is dropped, every other one is put on the pipe |
| RegionServers.RegionServer.Serve | src/dataNode/regionServer.cpp:13-152 | exactly the accepted requests reach the engine pipe, in order: none is dropped on the way |
| MitoEngines.MitoEngine.HandleSignal | src/dataNode/mitoEngine.cpp:10-28 | the oldest signal leaves the server pipe and is appended to the one pipe w with region = q * n + w; every other pipe stays |
| MitoEngines.WorkerServes | src/dataNode/mitoEngine.cpp:7-9 | the engine chooses w if and only if w is below n and the region id is a multiple of n and w more |
| MitoEngines.WorkersShare | src/dataNode/mitoEngine.cpp:7-9 | of any n consecutive region ids each worker serves exactly one |
| MitoEngines.WorkersRepeat | src/dataNode/mitoEngine.cpp:7-9 | regions n apart share a worker |
| MitoEngines.RunConserved | src/dataNode/mitoEngine.cpp:10-28 | in every interleaving of server, engine and workers nothing is lost, duplicated, reordered or sent to another worker |
| MitoEngines.RouteOrder | src/dataNode/mitoEngine.cpp:7-9 | a worker's share is in strictly increasing request order |
| MitoEngines.RouteKeepsRegion | src/dataNode/mitoEngine.cpp:7-9 | a region's signals all go to one worker, in the order sent |
| MitoEngines.EndToEnd | src/dataNode/mitoEngine.cpp:7-28 | from the requests that arrive to what worker w has taken: a prefix of exactly the signals with region = q * n + w, in increasing request order, a region's signals in the order sent, its CREATE first |
| Tables.StoredTextIsCharged | src/dataNode/dataNodeLib/memtable.hpp:166-212 | the string bytes a row keeps are at most those its fields were charged for |
| Tables.ProjectMeaning | src/dataNode/dataNodeLib/memtable.hpp:173-178 | a row is stored if and only if every column name is a field name, and it is the one row whose values are, column by column, those of the fields of these names |
| Tables.FieldSizes | src/dataNode/dataNodeLib/memtable.hpp:191-208 | each field, wherever it comes, adds eight bytes if it is a number and its own length if it is a string |
| Tables.WriteTimes | src/dataNode/dataNodeLib/memtable.hpp:171-172 | the time bounds of a table with rows stay the exact minimum and maximum of its time stamps |
| Tables.WriteKeepsInv | src/dataNode/dataNodeLib/memtable.hpp:166-212 | a write followed by its size keeps bounds, sizes and row lengths in step with the rows |
| Memtables.Memtable.constructor | src/dataNode/dataNodeLib/memtable.hpp:134-148 | an empty mutable table charged with its names and types |
| Memtables.Memtable.Write | src/dataNode/dataNodeLib/memtable.hpp:166-181 | appends one row that holds for each column the value of the field with its name; throws exactly when frozen or when some column name is no field name, in the latter case after the bounds moved |
| Memtables.Memtable.CalRowSize | src/dataNode/dataNodeLib/memtable.hpp:191-208 | the loop charges the time stamp and every field, also those that are no column |
| Memtables.Memtable.Freeze | src/dataNode/dataNodeLib/memtable.hpp:213-215 | only the mutability changes |
| WorkerRuns.StepRefines | src/dataNode/regionWorker.cpp:19-225 | one signal does to the worker what it does to a plain log of accepted rows: memtables, thresholds and flushes are invisible |
| WorkerRuns.PlainWrite | src/dataNode/regionWorker.cpp:45-59 | a write that fits the threshold is accepted if and only if it names every column, and the log then gets the row with the value of each column's field |
| WorkerRuns.PlainRefuses | src/dataNode/regionWorker.cpp:41-49 | a write to a region that is not open, that cannot be read or that is too large changes nothing |
| WorkerRuns.RunRefines | src/dataNode/regionWorker.cpp:189-225 | row conservation over every run: a region's flushed rows followed by its open memtable's rows are its accepted rows in order; the worker stops exactly when the log does |
| WorkerRuns.RunRequested | src/dataNode/regionWorker.cpp:19-64 | in every reachable state each stored value, flushed or not, is the one some write request for the region, with the row's time stamp, gave for the name of its column |
| WorkerRuns.RunKeepsInv | src/dataNode/regionWorker.cpp:45-187 | in every reachable state an open memtable uses at most its threshold plus the empty-table size, stored strings are within the charged ones, and a flush carries the exact time bounds of its rows |
| WorkerRuns.StepKeepsInv | src/dataNode/regionWorker.cpp:45-187 | every signal keeps these bounds |
| WorkerRuns.FlushWhenFull | src/dataNode/regionWorker.cpp:45-187 | over all signals: a flush happens if and only if a row fits the threshold but not behind the rows already there, or a region with rows is closed; exactly that memtable goes, and no other open region changes |
| WorkerRuns.EmptyFlush | src/dataNode/regionWorker.cpp:45-57 | an empty memtable is flushed exactly when the row fits the threshold alone but not with names and types |
| WorkerRuns.CreateWhileOpen | src/dataNode/regionWorker.cpp:68-97 | CREATE for an open region succeeds and leaves its id in both maps |
| WorkerRuns.ApartStep | src/dataNode/regionWorker.cpp:66-153 | no id is open and closed at once after a signal if and only if the signal is not a readable CREATE for an open region |
| WorkerRuns.RunApartIff | src/dataNode/regionWorker.cpp:189-225 | over a whole run the two maps stay apart in every state if and only if no open region is created |
| RegionLives.RegionsConserved | src/dataNode/regionWorker.cpp:66-153 | after any run the regions open, closed or dropped are exactly those a readable CREATE named |
| RegionLives.StatusStep | src/dataNode/regionWorker.cpp:66-153 | where a region is after each signal: in which of the three maps its id is |
| RegionLives.AttributesStep | src/dataNode/regionWorker.cpp:66-153 | which attributes every id has after a signal for any id |
| RegionLives.RunGiven | src/dataNode/regionWorker.cpp:66-187 | in every reachable state all attributes are those of a CREATE for the region, an open table has the columns they name, and a flushed one goes to the file they name |
| RegionLives.ExceptionIff | src/dataNode/regionWorker.cpp:19-153 | an exception leaves the worker if and only if a closed region with unreadable columns is opened or a write misses a column |
| RegionLives.UsageInNumbers | src/dataNode/regionWorker.cpp:155-157 | an empty memtable is charged its names and four bytes per column, each row eight bytes, eight per number and the length of each string |
| WorkerRuns.Isolation | src/dataNode/regionWorker.cpp:189-225 | a region's state and log after a run are those its own signals produce alone |
| WorkerRuns.RowsEndToEnd | src/dataNode/regionWorker.cpp:189-225 | from requests at the server to a worker's rows, in every interleaving: a region's rows are what a prefix of its own accepted requests puts in a plain log, at one worker only |
| RegionWorkers.RegionWorker.SendFlushSignal | src/dataNode/regionWorker.cpp:159-187 | the memtable is frozen, replaced by an empty one of the same columns and put on the pipe with its bounds; no other region or flushed table changes |
| RegionWorkers.RegionWorker.HandleWrite | src/dataNode/regionWorker.cpp:19-64 | the objects follow the value model of a write, or an exception leaves the worker exactly when a column is missing |
| RegionWorkers.RegionWorker.HandleStatus | src/dataNode/regionWorker.cpp:66-153 | the objects follow the value model of the region life cycle |
| RegionWorkers.RegionWorker.OpenRegion | src/dataNode/regionWorker.cpp:98-122 | a closed region opens with a fresh memtable of its columns, unless its column names are no object; text that is not JSON ends the worker |
| RegionWorkers.RegionWorker.CloseRegion | src/dataNode/regionWorker.cpp:123-135 | rows are flushed first, then the region loses its memtable and moves to the closed map |
| RegionWorkers.RegionWorker.HandleSignal | src/dataNode/regionWorker.cpp:189-225 | every open region keeps a mutable memtable of its own, every closed one has none, and no flushed memtable changes, whatever the signal; the new state is the value model's |
| RegionWorkers.OneOpened | src/dataNode/regionWorker.cpp:107-135 | changing one open region changes no other: memtables are never shared |
| BlockLayout.SectionsTile | src/dataNode/dataNodeLib/SST.hpp:136-216 | the sections follow each other without gap or overlap inside the block, which ends after them by exactly the charged but unstored string bytes |
| BlockLayout.ColumnPlace | src/dataNode/dataNodeLib/SST.hpp:49-75 | where each column's type, size, name offset and name stand |
| BlockLayout.CellPlace | src/dataNode/dataNodeLib/SST.hpp:179-212 | where each cell and each string of a row stand |
| BlockReader.HeaderRead | src/dataNode/dataNodeLib/SST.hpp:122-130 | the reading constructor computes the writer's section addresses from the bytes |
| BlockReader.NameRead | src/dataNode/dataNodeLib/SST.hpp:40-48 | every column name is recovered from the offset table |
| BlockReader.ColumnRead | src/dataNode/dataNodeLib/SST.hpp:40-48 | every column type and size is recovered |
| BlockReader.HeaderInNumbers | src/dataNode/dataNodeLib/SST.hpp:11-20 | the seven words of the header as numbers |
| BlockReader.ColumnInNumbers | src/dataNode/dataNodeLib/SST.hpp:49-75 | where the type code, cell size, name offset and name of each column stand and what they are, as numbers |
| BlockReader.CellRead | src/dataNode/dataNodeLib/SST.hpp:88-91 | a cell and its string stand at the addresses the reader computes |
| BlockReader.StringStartRead | src/dataNode/dataNodeLib/SST.hpp:189-196 | the sizes before a cell sum to where its string starts |
| BlockReader.ReadBack | src/dataNode/dataNodeLib/SST.hpp:122-216 | round trip: every cell of every typed table is read back from the bytes of its block |
| BlockReader.RecordedOffset | src/dataNode/dataNodeLib/SST.hpp:190 | through the recorded offset only an empty string lies inside the strings of the block |
| SSTBlocks.RowLayout | src/dataNode/dataNodeLib/SST.hpp:143-159 | row width and column starts are the prefix sums of the column sizes |
| SSTBlocks.SSTBlock.SerializeVarMeta | src/dataNode/dataNodeLib/SST.hpp:49-75 | the column loop fills types, sizes, offsets and names, and leaves the fixed metadata alone |
| SSTBlocks.SSTBlock.SerializeRow | src/dataNode/dataNodeLib/SST.hpp:180-212 | the cells and strings of a row arrive behind the earlier ones; false exactly where a value has the wrong type |
| SSTBlocks.SSTBlock.SerializeMemtable | src/dataNode/dataNodeLib/SST.hpp:136-216 | the buffer becomes the block of the table, writing nowhere else; fails exactly on an untyped table |
| SSTBlocks.SSTBlock.FromBuffer | src/dataNode/dataNodeLib/SST.hpp:122-130 | all addresses come from the header bytes |
| SSTFiles.BlockStays | src/dataNode/dataNodeLib/SST.hpp:314-324 | a block stays where it is whatever is appended later |
| SSTFiles.SSTBlockMeta.FlushBlock | src/dataNode/dataNodeLib/SST.hpp:271-326 | the block goes to the end of the file and its offset is remembered; a stored block or an untyped table leaves the file alone |
| SSTFiles.SSTBlockMeta.LoadBlock | src/dataNode/dataNodeLib/SST.hpp:247-270 | out of range exactly when the file ends at or before the offset, otherwise the bytes the header announces |
| SSTFiles.SST.AppendMemtable | src/dataNode/dataNodeLib/SST.hpp:371-387 | one more readable block, all earlier ones still readable |
| SSTFiles.SST.StillStored | src/dataNode/dataNodeLib/SST.hpp:371-387 | blocks stay readable when another object appends to the same file |
| SSTFiles.SST.Load | src/dataNode/dataNodeLib/SST.hpp:247-270 | after any run of appends every flushed table is loaded at the writer's addresses with every cell readable |
| Storage.StepTyped | src/dataNode/regionWorker.cpp:45-62 | one signal keeps all tables writable if and only if the write it accepts, if any, has values of its columns' types |
| Storage.AllHandledIff | src/dataNode/dataNodeLib/SST.hpp:179-212 | the flusher gets past all tables of a run if and only if every accepted write was typed for its schema, which is known before each write |
| Storage.UntypedAccepted | src/dataNode/regionWorker.cpp:28-62 | a number that JSON decoding makes unsigned is accepted for an INT64 column, and the table with it is the one the flusher does not get past |
| Storage.OneValueHandled | src/dataNode/regionWorker.cpp:28-62 | for every column type and value: the region takes it, and the flusher gets past its table if and only if the value is of the column's type |
| Storage.MergedHandled | src/dataNode/flusher.cpp:34-44 | the flusher gets past the pipe of all workers if and only if it would get past what each of them put there |
| Storage.AcceptedRowReadable | src/dataNode/flusher.cpp:17-26 | from the requests to the file, wherever on the merged pipe the flusher has got to: the region's SST holds a prefix of its accepted rows, each readable cell by cell, and all flushed ones once the pipe is worked off |
| Storage.CellFromRequest | src/dataNode/flusher.cpp:17-26 | every cell read from the file of a region is the value a write request for the region gave for the name of the cell's column |
| Flushers.Flusher.HandleFlush | src/dataNode/flusher.cpp:17-26 | one more table in the SST of its region, or an exception exactly on an untyped table; no other SST changes |
| Flushers.Flusher.Run | src/dataNode/flusher.cpp:34-44 | the loop stops exactly at the first untyped table; up to there each SST takes its region's tables in order, and all their rows are read back |
| FlowChains.DiffRange | src/probe/dpdkCapture.cpp:253-267 | last offset plus difference, modulo the disk, is the packet's offset |
| FlowChains.LinkExact | src/probe/dpdkCapture.cpp:866-867 | the four bytes lead to the packet if and only if the distance is below 2^32 - 1 |
| FlowChains.LinkedDistance | src-old/lib/packetAggregator.hpp:52-53 | a link is only made across a circular distance within the threshold |
| FlowChains.LinkedIff | src-old/lib/packetAggregator.hpp:45-53 | a packet is linked if and only if its flow is known, its circular distance is within the offset threshold and the elapsed time, counted past 2^64 when the clock wrapped, is within the time threshold |
| FlowChains.ApartInNumbers | src-old/lib/packetAggregator.hpp:52-53 | on the disk the two 64-bit operations on offsets are the circular distance, also where their sum overflows |
| FlowChains.LinksExactIff | src-old/lib/packetAggregator.hpp:52-61 | all links the aggregator can make lead to their packets if and only if threshold or disk rules out a distance of 2^32 - 1 |
| FlowChains.AllFlows | src/probe/dpdkCapture.cpp:855-881 | after any run, each flow's packets form chains by who was linked to whom, headed by its indexed packets, and the chains hold its offsets in order |
| FlowChains.LongLinkCuts | src/probe/dpdkCapture.cpp:866-867 | otherwise two packets 2^32 - 1 apart are linked by a number that does not lead from one to the other |
| DiskChains.GivenBackIff | src/probe/dpdkCapture.cpp:855-881 | whatever a disk holds: following four bytes at each offset from a flow's indexed packets meets exactly the flow's packets in order if and only if the bytes of each lead to its successor, or end the chain when it has none |
| PacketAggregators.PacketAggregator.AddPacket | src-old/lib/packetAggregator.hpp:41-62 | the previous offset when both the circular distance and the elapsed time, as plain numbers, are within their thresholds, else the largest word; the flow's entry is renewed on every call |
| CellLog.FitsIff | src/probe/dpdkCapture.cpp:97-107 | a packet fits two cells from every position if and only if header, length and a pointer fit one cell |
| CellLog.AppendLog | src/probe/dpdkCapture.cpp:121-187 | one packet appends its record to the log, cut where the cell ends |
| CellLog.LogLength | src/probe/dpdkCapture.cpp:97-107 | position in the log is cells times room plus offset in the cell |
| CellLog.RecordExact | src/probe/dpdkCapture.cpp:165-178 | the record is the packet if and only if the data is not split, or its parts agree |
| CellLog.ReadBack | src/probe/dpdkCapture.cpp:121-187 | the log is read back from any place by following cell pointers |
| CellLog.PatchOnDisk | src/probe/dpdkCapture.cpp:56-74 | bytes written anywhere over full cells and log leave on disk exactly the patched trail |
| CellLog.PatchLog | src/probe/dpdkCapture.cpp:56-74 | a link anywhere in a cell changes the log by exactly the part of it that falls before the cell pointer |
| CellLog.LinkAndPointer | src/probe/dpdkCapture.cpp:56-74 | a link leaves the cell pointer alone if and only if four bytes remain before it or the overlapping bytes agree; it never touches another cell |
| FlowDisk.OffsetsDiffer | src/probe/dpdkCapture.cpp:97-107 | no two packets of a run are reported at the same offset, even at the end of a cell's room |
| FlowDisk.RunInv | src/probe/dpdkCapture.cpp:815-881 | after any run, whatever the links hit: each packet stands at the sum of the earlier lengths, and aggregator and index are those of the link model on the reported offsets |
| FlowDisk.RunDisk | src/probe/dpdkCapture.cpp:815-881 | over any run, whatever the links hit: the cells hold the records in order, each with the part of its link that falls before the pointer, and behind each record that goes on the cell pointer, with the part of a link that fell on it |
| FlowDisk.HeadOnDisk | src/probe/dpdkCapture.cpp:815-881 | over any run the four bytes at a packet's offset are the link that landed there, or else the mark as far as the room goes and then the cell pointer |
| FlowDisk.RecordOnDisk | src/probe/dpdkCapture.cpp:815-881 | in any run, each packet whose header ends its link before the pointer, or on which no link landed, is read from its offset by the cell pointers: its link or mark, then the rest of what was written, whatever became of the others |
| FlowDisk.FlowOnDisk | src/probe/dpdkCapture.cpp:815-881 | in any run, the bytes of the disk give a flow back, each packet once and in capture order, if and only if at each of its packets a link has landed that is not the largest word, or the blank bytes happen to say the right thing |
| FlowDisk.ClearRight | src/probe/dpdkCapture.cpp:815-881 | for a header that ends before the pointer that means: its link, if a packet follows it, landed and is not the largest word |
| FlowDisk.AllFlowsOnDisk | src/probe/dpdkCapture.cpp:815-881 | when every link is taken, and threshold or disk rule out a distance of 2^32 - 1: all flows are given back if and only if every packet nobody follows has the mark at its offset, and no part of the cell pointer |
| FlowDisk.UnfollowedOnPointer | src/probe/dpdkCapture.cpp:815-881 | wherever a cell holds two headers, two packets lose a flow: the second is reported on the cell pointer, which reads as a link |
| FlowDisk.PointersIntactIff | src/probe/dpdkCapture.cpp:815-881 | after any run the cell pointers are intact if and only if every link that landed ended before the pointer of its cell or agrees with it |
| FlowDisk.LinkOnPointer | src/probe/dpdkCapture.cpp:815-881 | a third packet gives all flows back again, and its link sends cell 0 to a wrong cell |
| DPDKCaptures.DPDKCapture.GetOffset | src/probe/dpdkCapture.cpp:97-107 | the offset is the end of the log, never reduced by the disk size; the position moves past the pointer exactly on a full cell |
| DPDKCaptures.DPDKCapture.SplitHeader | src/probe/dpdkCapture.cpp:131-159 | a header that does not fit leaves the cell full, linked to the new one, with the rest there |
| DPDKCaptures.DPDKCapture.SplitData | src/probe/dpdkCapture.cpp:160-180 | data that does not fit goes on in the new cell, from its first byte again |
| DPDKCaptures.DPDKCapture.WritePacketToPacketBuffer | src/probe/dpdkCapture.cpp:109-190 | every full cell holds its share of the log and the next cell's number, the current one the rest; no other cell of the log changes |
| DPDKCaptures.DPDKCapture.WriteBefore | src/probe/dpdkCapture.cpp:56-74 | the link's bytes at the earlier offset and no other change, or no change at all when the block buffer refuses them |
| DPDKCaptures.DPDKCapture.Capture | src/probe/dpdkCapture.cpp:815-881 | one packet is one step of the run model on disk bytes, aggregator and index: written, then linked from its predecessor, if the link is taken, or indexed; reported at the end of the log |
| DPDKCaptures.DPDKCapture.CaptureAll | src/probe/dpdkCapture.cpp:815-881 | the loop follows the run model, and its disk gives back exactly the flows of which every packet's bytes say the right thing |
| BlockWindow.CheckRSSExact | src/probe/probeLib/dataBlockBuffer.hpp:47-61 | the two-case test holds if and only if the writer is 1 to D - B - 1 blocks ahead of the right barrier on the circle |
| BlockWindow.DirectCheckRSSExact | src/probe/probeLib/dataBlockBuffer.hpp:62-73 | the same with 0 to D - B - 1 |
| BlockWindow.AheadLeads | src/probe/probeLib/dataBlockBuffer.hpp:47-61 | the distance of those intervals is the shortest way on from one disk block to the other |
| BlockWindow.RecycledAligned | src/probe/probeLib/dataBlockBuffer.hpp:254-259 | a recycled block stays congruent to its index |
| BlockWindow.AlignmentIff | src/probe/probeLib/dataBlockBuffer.hpp:254-259 | it does so for every block if and only if the buffer divides the disk |
| BlockWindow.TouchedMapped | src/probe/probeLib/dataBlockBuffer.hpp:145-176 | every byte of an accepted write lands in a block mapped to that byte's disk block |
| BlockWindow.TouchedIff | src/probe/probeLib/dataBlockBuffer.hpp:154-176 | the two block checks speak for every byte of a write, whatever is mapped, if and only if it touches at most two blocks |
| BlockWindow.MappedIff | src/probe/probeLib/dataBlockBuffer.hpp:154-176 | a write is accepted if and only if the blocks of its first byte and of the byte after its last are mapped |
| BlockWindow.WindowWrite | src/probe/probeLib/dataBlockBuffer.hpp:184-199 | a write to the window is a write to the circular disk, split or not: each disk byte in memory is the written one exactly if the write covers its address |
| DataBlockBuffers.WriteIsDiskWrite | src/probe/probeLib/dataBlockBuffer.hpp:145-207 | an accepted write is a disk write seen through the window; a refused one changes no byte |
| DataBlockBuffers.DataBlockBuffer.WriteBlock | src/probe/probeLib/dataBlockBuffer.hpp:145-207 | the whole state after a write, for each of its three ends |
| DataBlockBuffers.DataBlockBuffer.CheckBlock | src/probe/probeLib/dataBlockBuffer.hpp:208-218 | the thread's block if and only if every writer is outside the barrier interval |
| DataBlockBuffers.DataBlockBuffer.DirectGetBlockID | src/probe/probeLib/dataBlockBuffer.hpp:219-227 | the thread's block if and only if some writer is outside the narrower interval |
| DataBlockBuffers.DataBlockBuffer.GetBlock | src/probe/probeLib/dataBlockBuffer.hpp:231-253 | hands out the thread's block with its times, bytes and the packets of all writers, zeroes exactly its counts and moves the thread on by the number of check threads; the buffer stays valid |
| CheckThreads.NextBlockOf | src/probe/probeLib/dataBlockBuffer.hpp:249-250 | in any run a thread that started at block b hands out block b + k * n, modulo the buffer, after k hand-outs, with n threads |
| CheckThreads.EveryBlockReached | src/probe/probeLib/dataBlockBuffer.hpp:130-144 | every block is handed out by some thread |
| CheckThreads.SharedOutIff | src/probe/probeLib/dataBlockBuffer.hpp:249-250 | different threads never hand out the same block, in any run, if and only if their number divides that of the blocks |
| DataBlockBuffers.DataBlockBuffer.RecycleBlock | src/probe/probeLib/dataBlockBuffer.hpp:254-259 | one block moves one buffer length along the disk; all blocks stay aligned when the buffer divides the disk |
| DataBlockBuffers.DataBlockBuffer.Create | src/probe/probeLib/dataBlockBuffer.hpp:75-113 | fails exactly when the buffer size is no power of two or the disk is too small; otherwise every block serves its own index |
| BlockRuns.StartIsLeast | src/probe/probeLib/dataBlockBuffer.hpp:175-181 | over any run of writes, hand-outs and recycled blocks a start time is the least time stamp ever offered to the block: nothing resets it |
| BlockRuns.StartOfLapIff | src/probe/probeLib/dataBlockBuffer.hpp:231-259 | a block is handed out with the start of its current lap if and only if no earlier lap was offered a smaller time stamp |
| BlockRuns.TwoLaps | src/probe/probeLib/dataBlockBuffer.hpp:145-259 | for every buffer of two blocks or more, two laps after which a block still names the first one's time |
| BlockRuns.EndIsLast | src/probe/probeLib/dataBlockBuffer.hpp:162-182 | over any run an end time is that of the last write that closed the block, of an earlier lap while the current one has none |
| BlockRuns.EndOfLap | src/probe/probeLib/dataBlockBuffer.hpp:231-259 | a block is handed out with the end time of its current lap as soon as one write of the lap closed it |
| BlockRuns.WriteBlocks | src/probe/probeLib/dataBlockBuffer.hpp:162-182 | when a write reaches the next block and when it renews block times, in plain numbers |
| BlockRuns.WriterReaches | src/probe/probeLib/dataBlockBuffer.hpp:155-205 | a writer of new data is recorded at the disk block of the byte after its last one, or of its first when that is not mapped |
| BlockRuns.HandedOutCount | src/probe/probeLib/dataBlockBuffer.hpp:231-253 | the packet count handed out is the number of indexed packets accepted into the block since it was last handed out |
| BlockRuns.MemoryIsLastWritten | src/probe/probeLib/dataBlockBuffer.hpp:145-259 | over any run of writes of two blocks at most, on a disk the buffer divides: memory holds for every mapped disk address the byte of the last accepted write since the block was mapped |
| BlockRuns.HandedOutBytes | src/probe/probeLib/dataBlockBuffer.hpp:231-253 | under the same conditions the bytes handed out are, address by address of their disk block, what was last written there since the block was mapped to it |
| BlockRuns.BytesStay | src/probe/probeLib/dataBlockBuffer.hpp:231-259 | under the same conditions the bytes behind a handed-out pointer stay what they were until the block is recycled, unless an accepted write covers their address |
| BlockRuns.NewDataSpares | src/probe/probeLib/dataBlockBuffer.hpp:47-61 | new data covers no address of a block checkBlock let go, as long as its writer goes on by less than what is left of the barrier interval |
| BlockRuns.LinkTaken | src/probe/probeLib/dataBlockBuffer.hpp:145-207 | a link is taken if and only if the blocks of its first byte and of the byte after its last are in memory; it changes bytes and nothing else |
| BlockRuns.LateLink | src/probe/dpdkCapture.cpp:56-74 | for every buffer of two blocks or more, a link that is written between hand-out and recycling and changes the bytes handed out |

## Left out

- Sockets, heartbeats, logging, thread start and stop, CPU pinning, io_uring, DPDK and the vendored and generated files: plumbing or foreign code.
- JSON and `stoull` parsing: arbitrary functions from text to values (`Parsers`, `stoull`); requests arrive as decoded dictionaries. The worker branches for QUERY and for unknown request types only log, and the server never sends them.
- The shared cell counter, the clock, the hash and the coin of `randomLevel`: parameters or arbitrary choices.
- 64-bit overflow: sums of sizes, offsets and counters are unbounded here; the 32-bit truncations of values, links and write positions, and the wrap of the aggregator's differences, are modelled.
- Manual memory ownership, cache-line padding, memory order weaker than atomic steps, and the use of shared pointers to the same block from two places.
- `PipeRing` calls below capacity 8 or with several producers: the code divides by zero or loses items there; `workerFlusherPipe` is a queue in the model.
- Unordered maps: one column order is fixed per schema and used by every loop over it; column types outside the enumeration are not modelled.
- Prefix lengths above 4 and 16: the code shifts by a negative amount there, which C++ leaves undefined.
- Keys shorter than the field, and `valueLen` above 8: the code reads outside its buffers there.
- Waiting loops: `put` is called on a ring with room, and `writeBlock` retries are one write that succeeds.
- DPDKCaptures.DPDKCapture.Capture: bytes go to one disk array, and whether a link is taken is an input; `LinkTaken` says when the block buffer takes it. Memory blocks, hand-outs and disk writes in between are not composed with it.
- DataBlockBuffers.DataBlockBuffer.GetBlock: returns the bytes of the block, where the code returns a pointer into the buffer that later writes show through (`BytesStay`, `LateLink`).
- Packet headers: their length is a parameter, because the header structs are not in the repository; the link is the first field.
- Non-IP packets, for which the write position moves without a write: runs hold IP packets only. Data after a split is modelled as the code writes it.
- A second lap over the disk: flow chains and cell logs are stated for runs whose offsets and cells are not reused.
- FlowDisk.RecordOnDisk: reads the record the code writes, which is the packet itself only under the condition of `RecordExact`.
- MemoryIndexes.MemoryIndex.InsertIndex: the history is shorter than 2^64 - 1 flows, the node limit the code passes.
- DataBlockBuffers.DataBlockBuffer.WriteBlock: data is at most one buffer long, since the code copies beyond its memory otherwise. The run results on bytes hold for writes of two blocks at most, the exact limit of the two checks (`TouchedIff`).
- Flushers.Flusher.Run: each region has one SST; a dropped and re-created region gets another object for the same file, whose appends leave stored blocks readable (`StillStored`).
- Shutdown draining, `singleRingBuffer.hpp` (the same algorithm as `pipeRing.hpp`), byte-order helpers and address parsing.
