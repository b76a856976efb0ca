# HFetch, verified

A Dafny model of the parts of HFetch and of the algorithms bundled with it that are hardest to get
right, with proofs of what they promise. `dafny verify dfyconfig.toml` checks everything.

HFetch's own code:

- **Placement** (`Layers`, `Placement`, `PlacementProperties`, `PlacementChoices`, `HeatMapPlacement`).
  A decision about a file's segment walks down a doubly linked chain of storage layers, places all of it or as much as a layer has
  room for, and cuts every share into parts. `Solve` and its helpers are methods over the linked
  chain; they are proved equal to a plan over the layers as values, and the theorems are about all
  plans: each layer is sent exactly what its free space and the scores on it entitle it to, placements
  tile a prefix of the file, data only moves up, buffer names are never reused,
  and layers only get what they have room for under an exact condition.
- **The segment auditor** (`Segments`, `IntervalMap`, `SegmentUpdates`, `ByteHistory`, `Auditor`,
  `AuditorRuns`, `BufferOwnership`, `ReadRuns`). Each file has an interval map, which reads and moves
  split. The lookup among its keys is `DistributedMap`'s own, and so the results say exactly what it
  finds, which bytes a request reaches and which ones it loses. Over every run of opens, reads, closes
  and moves a file's map is what its own requests make of it; the maps stay exact covers, with the
  score and place of every byte determined by the requests alone, if and only if no request loses
  bytes; the active counts are opens minus closes; files opened one after another have different maps;
  and closes delete own buffers only, if and only if there are no more files than maps.

Code bundled under `external/rpclib/dependencies`:

- **Matching** (`Graphs`, `BipartiteMatching`). gmock's augmenting-path search, with its links
  updated in place, finds a maximum matching of every bipartite graph. The proof keeps the set of
  right nodes that failed searches have seen, which no later success can open up again.
- **Mock calls** (`Expectations`, `MockCalls`). gmock's partially ordered expectations: over every
  run of definitions and calls, calls respect the order of prerequisites, and the two shortcuts in
  the code are justified.
- **Diffs** (`EditDistance`, `DiffText`, `UnifiedDiff`). The edit script is sound, optimal under an exact
  condition, and the hunks of the unified diff, read back from the printed text, turn one side into the other.
- **Regular expressions and filters** (`SimpleRegex`, `Filters`). The validator accepts exactly the
  notation, and the backtracking matchers agree with the languages that expressions denote.
- **Test order** (`Shuffle`, `RunOrder`, `TestOrder`, `TestRuns`). Registration, in-place shuffles
  and the run loop: death tests first, every case once in every iteration, order determined by the
  seed, registration order restored.
- **UTF-8** (`Utf8`) and **decimal formatting** (`DecimalFormat`). Bit-level encoders and the digit
  count from the bit length, against independent readers.

`Options` and `Powers` hold two shared definitions.

Where a promise of the code or of its documentation does not hold for all inputs, the model follows
the code and a lemma says exactly when it holds:

- The documentation calls the edit script optimal (gtest.h:7911). It need not be:
  `EditDistance.TiesCostOptimality` has the example, `EditDistance.OptimalIffNoBadTie` and
  `EditDistance.LightestIffObedient` the conditions.
- A diff with context 0 prints nothing (gmock-gtest-all.cc:2677-2685, 2703-2706): `UnifiedDiff.CreateUnifiedDiff`,
  with the example `UnifiedDiff.NoHunksNoPatch`.
- `solve` tests whether a layer has room with the size of an entry's key, and then places the stored
  file (max_bw_dpe.cpp:73-76). A partial read leaves the whole file under a smaller key
  (`HeatMapPlacement.PartialReadRun`, `FileOutgrowsKeyIff`), and a layer is then sent more than it has
  room for (`PartialReadOverfills`). It never is exactly if the file is no larger than its key:
  `PlacementProperties.EveryDecisionKeepsRoomIff`, and for one chain `DecisionKeepsRoomIff`.
- `place` starts `solve` at index 0 whatever the segment's start (max_bw_dpe.cpp:40), and
  `PlaceDataInLayer` overwrites the start of the source before it takes its size (137-138). Sources
  are then right only for segments that start there: `PlacementProperties.TilesIffAligned`, with the
  example `HeatMapPlacement.PlacedFromZeroReadsOthers`. An index past the start can leave fewer
  source parts than destination parts: `Placement.PairsInRangeIff`.
- Offsets beyond an int are narrowed in `SplitInParts` (max_bw_dpe.cpp:150-153): `Placement.TilesIffFits`, with
  the example `Placement.FarPartIsElsewhere`.
- Layer ids have eight bits (configuration_manager.h:68): `Layers.IdsRiseIff`, with the example
  `Layers.ManyLayersShareIds`.
- The loops over looked-up entries are meant to keep every byte ("retain left over scores",
  file_segment_auditor.cpp:64, 129). They lose the bytes before a request that starts inside an entry and
  goes on behind it, unless the lookup passes that entry over. Two overlapping reads are enough
  (`ReadRuns.OverlappingReadLosesBytes`), or one read past the end, which the client does not clamp
  (hfetch.cpp:96-97, `ReadRuns.ReadPastEndLosesBytes`). The exact condition is
  `SegmentUpdates.UpdateKeepsPartitionIff` for one request and `AuditorRuns.MapsStayExactCoversIff` for runs.
- Empty requests put an empty key into a map with a sole key, or at the start of another key:
  `ReadRuns.EmptyReadBreaksCover`, with the same exact condition.
- Reads of buffered bytes are not all counted: `SegmentUpdates.FindsNothingIff` says which requests find
  nothing, `ReadRuns.ReadInsideKeyFindsNothing` is an example.
- With more files than maps a close can delete files that are still open: `BufferOwnership.OneFileTooMany`
  for every number of maps, and `BufferOwnership.DeletesOwnOnlyIff` exactly.
- Registering a death test while tests are shuffled may run it after others
  (gmock-gtest-all.cc:5967-5972): `TestRuns.RegisterDeathShuffledIff`, with the example
  `TestRuns.DeathTestRunsSecond`.
- An excessive call retires nothing (gmock.h:10374-10385), so calls of an expectation that must not be
  called can come before those of its prerequisites: `MockCalls.CallsOutOfOrder`. All other calls are in
  order: `MockCalls.Session.Invoke`.
- Code points outside U+10FFFF are documented to print a message (gmock-gtest-all.cc:3204-3206); those up
  to 0x1FFFFF are encoded instead: `Utf8.EncodedAsDocumentedIff`.
- Lone surrogates that meet in a sequence of code points merge in UTF-16: `Utf8.SurvivesUtf16Iff`, with
  the example `Utf8.LoneSurrogatesMerge`.

## Model

| member | source | states |
|---|---|---|
| `Segments.SplitIsExact` | src/common/data_structure.h:157-193 | `Substract` together with `Intersect` divides an entry into disjoint pieces that cover it, with the common piece being the overlap, if and only if the entry starts no later than the request ends and does not both start and end before it |
| `Segments.SplitKeeps` | src/common/data_structure.h:157-193 | Where entry and request overlap, the intersection has exactly the bytes of both, and with the left-overs all bytes of the entry, but for those before the request if the request goes on behind the entry |
| `Layers.ConfigurationManager.BuildLayers` | src/common/configuration_manager.h:59-83 | The layers form one doubly linked chain in the order given, with `FIRST` and `LAST` at its ends and ids counting up from 1 in eight bits; an empty list leaves `FIRST` alone |
| `Layers.IdsRiseIff` | src/common/configuration_manager.h:62-68 | Ids rise along the chain, and so identify layers, if and only if there are at most 255 layers |
| `Layers.ManyLayersShareIds` | src/common/configuration_manager.h:62-68 | The 256th layer gets id 0 and the 257th the id of the first |
| `Layers.ConfigurationManager.FindLayer` | src/common/data_structure.h:307-322 | Walking the chain finds the first layer with the id, and nothing exactly if there is none |
| `Placement.MaxBandwidthDPE.SplitInParts` | src/server/dpe/max_bw_dpe.cpp:149-166 | For sizes that fit an int: the parts are the pieces that cut the file at multiples of the segment size, each with the next generated name or with the file's own; for all others every part still has int bounds |
| `Placement.CountIsExact` | src/server/dpe/max_bw_dpe.cpp:150-151 | The truncating division with its correction counts ceil(size / segment size) parts |
| `Placement.PartsTile` | src/server/dpe/max_bw_dpe.cpp:149-166 | Parts without generated names tile the file's segment in order, each holding between 1 and SEGMENT_SIZE bytes |
| `Placement.TilesIffFits` | src/server/dpe/max_bw_dpe.cpp:149-166 | A nonempty file of less than 2^31 bytes is tiled if and only if its bounds fit an int; otherwise the narrowing to int sends the parts elsewhere |
| `Placement.FarPartIsElsewhere` | src/server/dpe/max_bw_dpe.cpp:149-166 | Ten bytes from offset 2^31 on make one part, of ten bytes from -2^31 on |
| `Placement.PartCountMonotone` | src/server/dpe/max_bw_dpe.cpp:140-145 | The destination never has more parts than the source, so pairing part by part stays in range |
| `Placement.PairsInRangeIff` | src/server/dpe/max_bw_dpe.cpp:131-147 | With an index past the start of the segment the source is smaller than the destination: there is a source part for every destination part if and only if the index skips fewer bytes than the last part has, or the file is a single part and the source has a negative size of less than one part |
| `Placement.MaxBandwidthDPE.GenerateBufferFilename` | src/common/io_clients/data_manager.h:144-147 | The name is the decimal sequence number with the suffix; the sequence advances by one |
| `Placement.BufferNamesDiffer` | src/common/io_clients/data_manager.h:144-147 | Different sequence numbers give different buffer names |
| `Placement.MaxBandwidthDPE.PlaceDataInLayer` | src/server/dpe/max_bw_dpe.cpp:131-147 | Source parts start at the running index and are paired with destination parts that each start at 0 on the new layer; new names are only taken for data that leaves the last layer; the index advances past the source |
| `Placement.PlacedAt` | src/server/dpe/max_bw_dpe.cpp:140-145 | Paired parts agree in size and in their position in the file |
| `Placement.MaxBandwidthDPE.ScanVictims` | src/server/dpe/max_bw_dpe.cpp:92-97 | Space available is the free space and the bytes of the lowest-scored victims, taken while they score less than the data and space is still short |
| `Placement.MaxBandwidthDPE.Decide` | src/server/dpe/max_bw_dpe.cpp:54-101 | The walk stops at the file's own layer and the last one; a layer with free space for the key takes the whole file, whatever is on it scores; otherwise one that has nothing of a lower score is passed over, and any other takes what it can offer, up to the file: its free bytes and those of all that scores less |
| `Placement.DecisionIsDue` | src/server/dpe/max_bw_dpe.cpp:54-101 | For every layer, file and score the value that the decision is proved equal to is the one that is due by free space and lower-scored victims alone |
| `Placement.MaxBandwidthDPE.Solve` | src/server/dpe/max_bw_dpe.cpp:48-124 | The recursion down the chain carries out exactly the shares that the plan over the layers determines, and never follows a null `next`; who is given what by the plan is stated by `PlacementChoices` |
| `Placement.MaxBandwidthDPE.PlacePart` | src/server/dpe/max_bw_dpe.cpp:107-114 | The front of the file goes to the layer and the rest is planned from the next layer down, with the rest's size as the new limit |
| `Placement.PlanIsAffordable` | src/server/dpe/max_bw_dpe.cpp:92-119 | Whatever capacities and scores are, the shares of a plan are never negative and never exceed the file together |
| `PlacementProperties.PlacementsTilePrefix` | src/server/dpe/max_bw_dpe.cpp:48-147 | For a file that starts at the running index: the sources of all placements, in order, tile a prefix of the file with no gap or overlap, keep name, layer and score, and every destination has its source's size |
| `PlacementProperties.TilesIffAligned` | src/server/dpe/max_bw_dpe.cpp:137-139 | For an index before, at or past the start: the sources tile a prefix of the file if and only if nothing is placed or the index that the caller passes is the start of the file's segment |
| `PlacementProperties.LayersReceiveTheirShare` | src/server/dpe/max_bw_dpe.cpp:99-115 | Each layer is sent exactly the bytes of its share, however they are cut into parts |
| `PlacementProperties.PlanDescends` | src/server/dpe/max_bw_dpe.cpp:69-120 | On a chain with rising ids, whatever the sizes of file and key, the shares go down the chain, at most one to a layer, and none goes to the file's own layer or the last one |
| `PlacementProperties.ScanIffRoom` | src/server/dpe/max_bw_dpe.cpp:92-100 | The scanned space is enough for the file if and only if the layer has room: its free space and the bytes of some lowest victims, all of which score less than the data |
| `PlacementProperties.TakesAllWithRoomIff` | src/server/dpe/max_bw_dpe.cpp:73-76 | Taking the whole file because its key fits is only ever done with room for the file if and only if the file is no larger than the key |
| `PlacementProperties.PlanWithinRoomIff` | src/server/dpe/max_bw_dpe.cpp:73-119 | On a chain with rising ids no layer's share exceeds its room if and only if the layer that takes the whole file, if one does, has the space that an eviction asks for; evictions and splits never overfill |
| `PlacementProperties.StaysAbove` | src/server/dpe/max_bw_dpe.cpp:69-72 | All shares stay above the file's layer and above the last layer, whatever the sizes |
| `PlacementProperties.DataOnlyMovesUp` | src/server/dpe/max_bw_dpe.cpp:48-124 | Over a whole decision on a chain with rising ids, whatever sizes, capacities and scores, data is placed only above the file's layer and above the last one |
| `PlacementProperties.DecisionKeepsRoomIff` | src/server/dpe/max_bw_dpe.cpp:48-124 | Over a whole decision no layer receives more bytes than its free space plus those of lower-scored victims, if and only if the layer that takes the whole file has the scanned space for it |
| `PlacementProperties.EveryDecisionKeepsRoomIff` | src/server/dpe/max_bw_dpe.cpp:48-124 | No decision about a file, on any chain, ever overfills a layer if and only if the file is no larger than its key |
| `PlacementProperties.BuiltChainMovesUp` | src/server/dpe/max_bw_dpe.cpp:40-124 | On every chain that `BuildLayers` makes from at most 255 layers, with the file on any of them, data only moves up |
| `PlacementProperties.BuiltChainKeepsRoomIff` | src/server/dpe/max_bw_dpe.cpp:40-124 | On every such chain a decision keeps within all room under the same exact condition, which files no larger than their keys meet |
| `PlacementProperties.PlacementNames` | src/server/dpe/max_bw_dpe.cpp:159-163 | Destinations get consecutive new names if the data comes from the last layer, and keep the file's name otherwise |
| `PlacementProperties.BufferFilesAreDistinct` | src/server/dpe/max_bw_dpe.cpp:141-162 | No buffer name is given twice, within a decision or in a later one |
| `PlacementChoices.GivenIsKept` | src/server/dpe/max_bw_dpe.cpp:69-120 | Every layer of a chain with rising ids is given exactly what it keeps of what arrives there: all if its free space is enough for the key, otherwise as much as it can offer, nothing where the walk stops or passes over; what is left goes on with its own size as the key |
| `PlacementChoices.LayersReceiveWhatTheyKeep` | src/server/dpe/max_bw_dpe.cpp:48-147 | Over a whole decision each layer is sent exactly that many bytes |
| `PlacementChoices.RoomyLayerTakesAll` | src/server/dpe/max_bw_dpe.cpp:73-79 | If all layers above are passed over, a layer with free space for the key takes the whole file, whatever is on it scores |
| `PlacementChoices.GetsNothingIff` | src/server/dpe/max_bw_dpe.cpp:69-121 | A layer is sent nothing of what arrives there if and only if the walk stops at it, it is passed over, or it has nothing to offer |
| `PlacementChoices.FreeSpaceNeedsNoScore` | src/server/dpe/max_bw_dpe.cpp:73-79 | A file of 100 bytes and score 3 goes to a layer with 1000 bytes free that holds something of score 5 |
| `PlacementChoices.DecisionWritesFromZero` | src/server/dpe/max_bw_dpe.cpp:131-147 | What a layer is sent is written from offset 0 on without gap or overlap, or, if it is fetched from the last layer, each piece from offset 0 of its own file |
| `HeatMapPlacement.FileOutgrowsKeyIff` | src/server/file_segment_auditor.cpp:126-141 | After any reads of a file, safe or not, each entry stores the whole file, and its key is smaller than the file if and only if it is not the whole file's |
| `HeatMapPlacement.OnlyEntryIff` | src/server/file_segment_auditor.cpp:126-141 | While the requests are safe, an entry is the whole file's if and only if it is the only one |
| `HeatMapPlacement.EntryKeepsRoomIff` | src/server/dpe/max_bw_dpe.cpp:39-40 | Decisions about an entry of a heat map never overfill a layer, whatever the layers, if and only if the entry's file is no larger than its key |
| `HeatMapPlacement.ReadEntryKeepsRoomIff` | src/server/dpe/max_bw_dpe.cpp:39-40 | For a file that has been read but not moved: decisions about an entry never overfill a layer, whatever the layers, if and only if the entry has the whole file as its key |
| `HeatMapPlacement.PartialReadRun` | src/server/file_segment_auditor.cpp:117-141 | A run that opens a file of 1000 bytes and reads the first 100 leaves a key of 100 bytes with a file of 1000 |
| `HeatMapPlacement.PartialReadOverfills` | src/server/dpe/max_bw_dpe.cpp:73-79 | A decision about that entry then sends 1000 bytes to a layer with 100 left and no victims |
| `HeatMapPlacement.PlacedFromZeroReadsOthers` | src/server/dpe/max_bw_dpe.cpp:131-139 | Placed from index 0, a file of 100 bytes from offset 100 on makes one read of 200 bytes from offset 0 into a buffer of 100 |
| `IntervalMap.ContainsInServer` | src/common/distributed_ds/map/DistributedMap.h:234-266 | The loop over the ordered keys returns the entries that the lookup determines: a sole key whatever the request is, and otherwise a run of keys from the first that does not start before the request on, or from the one before it |
| `IntervalMap.ReplaceSplits` | src/server/file_segment_auditor.cpp:126-141 | Splitting an entry that overlaps the request keeps the keys disjoint and all other entries as they are, gives file and score to exactly the bytes of both, and loses exactly the entry's bytes before the request if the request goes on behind the entry |
| `SegmentUpdates.ReturnedIff` | src/common/distributed_ds/map/DistributedMap.h:246-262 | Among several disjoint keys the lookup returns exactly those that start in the request, and the one that starts before and ends in it, and nothing if all keys start before the request |
| `SegmentUpdates.FindsNothingIff` | src/common/distributed_ds/map/DistributedMap.h:243-262 | A nonempty request finds nothing if and only if there are several keys and it starts behind the start of the last one, ends before the file, or lies within a key at neither of its ends |
| `SegmentUpdates.UpdateRefines` | src/server/file_segment_auditor.cpp:54-141 | For every request on disjoint keys: a read adds one to the frequency and its recency to the score of each requested byte in a returned key and keeps its file; a move puts each such byte on the destination, as far from the start as it is from the start of the request, in a stored segment of its key's size, and keeps its score; bytes before the request are lost in returned keys that end before the request does; nothing else changes |
| `SegmentUpdates.UpdateKeepsPartitionIff` | src/server/file_segment_auditor.cpp:54-141 | An update leaves an exact cover exact if and only if, with a sole key, the request is nonempty, does not end before it and starts by its start or ends by its end; with several, a nonempty request starts inside no key but the last that it goes on behind, and an empty one starts at no key |
| `ByteHistory.SafeIffKeeps` | src/server/file_segment_auditor.cpp:54-141 | The same condition told from the cuts that earlier requests have made |
| `ByteHistory.HitIffReached` | src/common/distributed_ds/map/DistributedMap.h:234-266 | Which bytes a safe request applies to, told from the cuts: all its bytes in the file if it starts at a cut or not behind the start of the file, if a cut is right behind its end, or if the file is uncut, and none otherwise |
| `ByteHistory.UpdateCuts` | src/common/data_structure.h:157-193 | A request that applies makes keys start at its start and behind its end, and no others |
| `ByteHistory.TouchTracks` | src/server/file_segment_auditor.cpp:54-141 | Cuts, scores and places that a history of safe requests alone determines stay those of the map with every further safe read or move |
| `ByteHistory.SafeRequestsTrack` | src/server/file_segment_auditor.cpp:54-141 | After any safe requests the map of a file is an exact cover with exactly the cuts, scores and places that the requests determine |
| `ByteHistory.OneMoreSafeIff` | src/server/file_segment_auditor.cpp:54-141 | After safe requests one more leaves the cover exact if and only if it is safe too |
| `ByteHistory.ScoresCountReads` | src/server/file_segment_auditor.cpp:126-141 | After safe requests a byte's frequency is the number of the reads that have reached it and its recency score the sum of theirs; moves add nothing |
| `ByteHistory.ReadRaisesScore` | src/server/file_segment_auditor.cpp:130-135 | A read of positive recency never lowers the score of a byte, and raises it if and only if it reaches the byte |
| `ByteHistory.MovedBytesAreAt` | src/server/file_segment_auditor.cpp:68-74 | After safe requests a moved byte is on the destination of its last move, as far from the start as it was from the start of what was moved; its distance from the start of its key tells that offset if and only if no later request has cut in between |
| `ByteHistory.UnmovedBytesStay` | src/server/file_segment_auditor.cpp:54-141 | A byte that no request has moved is in the file itself |
| `ByteHistory.FromStartIsSafe` | src/lib/hfetch.cpp:89-97 | Requests of bytes from the start of the file on, which the client makes as its offset is the 0 that `fseek` returns, are all safe, in any number and of any length |
| `Auditor.FileSegmentAuditor.CreateOffsetMap` | src/server/file_segment_auditor.cpp:165-193 | A file new to the server gets the map of the next slot, counted from slot 1 of max_num_files on, with one entry for its whole segment added; one that is registered elsewhere shares that map; a file known here changes nothing |
| `Auditor.FileSegmentAuditor.MarkFileSegmentsActive` | src/server/file_segment_auditor.cpp:97-106 | The file's active count goes up by one, from nothing to one for a new file |
| `Auditor.FileSegmentAuditor.MarkFileSegmentsInactive` | src/server/file_segment_auditor.cpp:108-115 | The file's active count goes down by one, in the unsigned arithmetic of the counter; a file never opened has none |
| `Auditor.FileSegmentAuditor.CheckIfFileActive` | src/server/file_segment_auditor.cpp:251-258 | True exactly for a file with a count other than zero |
| `Auditor.FileSegmentAuditor.IncreaseFileSegmentFrequency` | src/server/file_segment_auditor.cpp:117-163 | The file's own map, and no other, is changed by the read |
| `Auditor.FileSegmentAuditor.UpdateOnMove` | src/server/file_segment_auditor.cpp:54-95 | The file's own map, and no other, is changed by the move; scores stay |
| `Auditor.FileSegmentAuditor.Update` | src/server/file_segment_auditor.cpp:28-52 | The state is the one that the events lead to one after the other, and the maps stay consistent with the files throughout |
| `Auditor.FileSegmentAuditor.FetchHeatMap` | src/server/file_segment_auditor.cpp:195-214 | Exactly the entries of the file's map, by falling recency score; none for an unknown file |
| `Auditor.InsertKeepsHeatMap` | src/common/data_structure.h:225-233 | Inserting behind the entries that score at least as much keeps the list ordered and complete |
| `Auditor.FileSegmentAuditor.BuffersToDelete` | src/server/event_manager.cpp:42-57 | A buffer is deleted if and only if a close event finds its file not open any more, the map that the file uses holds the buffer, and it is not on the last layer |
| `Auditor.StepKeepsConsistent` | src/server/file_segment_auditor.cpp:28-95 | Every event and every move keeps `file_segment_map[f]` the map of f's slot, and slots existing |
| `AuditorRuns.RunRegisters` | src/server/file_segment_auditor.cpp:165-193 | In every run the files opened so far own the slots of their first opens, in turn |
| `AuditorRuns.ConsecutiveFilesGetDistinctMaps` | src/server/file_segment_auditor.cpp:165-193 | In every run any max_num_files consecutive new files have distinct maps |
| `AuditorRuns.MapsFollowHistories` | src/server/file_segment_auditor.cpp:28-193 | In every run on at most max_num_files files, whatever the requests, the map of each file is what its own reads and moves since its first open make of it; operations on other files leave it alone |
| `AuditorRuns.SafeRunsTrack` | src/server/file_segment_auditor.cpp:28-193 | In every run of safe requests on at most max_num_files nonempty files, each file's map is an exact cover of the segment it was opened with, cut where its requests have cut it, and every byte has exactly the score and the place that its reads and moves determine |
| `AuditorRuns.SafeRunsAccount` | src/server/file_segment_auditor.cpp:28-193 | Over every such run a byte has been read as often as its frequency says, its recency score is the sum of these reads, and it is where its last move has put it, at that offset, or in the file if there was none |
| `AuditorRuns.MapsStayExactCoversIff` | src/server/file_segment_auditor.cpp:28-193 | In every run on at most max_num_files nonempty files, all maps stay exact covers throughout if and only if all requests are safe, given the cuts of those before |
| `AuditorRuns.ActiveCountIsBalance` | src/server/file_segment_auditor.cpp:97-115 | In every run a file's active count is its opens minus its closes from its first open on, modulo the counter's width |
| `AuditorRuns.InactiveIffBalanced` | src/server/event_manager.cpp:42-52 | If closes have not exceeded opens, the file is inactive exactly when they are equal |
| `BufferOwnership.MapOwns` | src/server/file_segment_auditor.cpp:54-141 | Whatever is asked of a file, its map stores only the file as it was opened and what its own moves have put somewhere |
| `BufferOwnership.ReleasesIff` | src/server/event_manager.cpp:42-57 | In every run on at most max_num_files files, a close deletes exactly the buffers off the last layer that the file's own reads and moves have left in its map, once its opens and closes balance in 32 bits |
| `BufferOwnership.OneFileTooMany` | src/server/event_manager.cpp:42-57 | For every max_num_files there is a run on one file more in which closing the first file deletes the file opened last, which is still open |
| `BufferOwnership.DeletesOwnOnlyIff` | src/server/event_manager.cpp:42-57 | All runs on at most k files, whatever happens in them, only delete buffers of the closed file if and only if k is at most max_num_files |
| `ReadRuns.MapAfterReads` | src/server/file_segment_auditor.cpp:28-193 | Opening a file and reading from it leaves its map as the reads make it |
| `ReadRuns.OverlappingReadLosesBytes` | src/server/file_segment_auditor.cpp:117-141 | Of 200 bytes the first 100 are read and then 50 to 150: bytes 0 to 49 are in no entry any more |
| `ReadRuns.ReadPastEndLosesBytes` | src/server/file_segment_auditor.cpp:117-141 | A read of 500 to 1500 of a fresh file of 1000 bytes: bytes 0 to 499 are in no entry any more |
| `ReadRuns.LargerReadCountsTwice` | src/server/file_segment_auditor.cpp:117-141 | Of 1000 bytes the first 100 are read and then the first 200: byte 50 has frequency 2 |
| `ReadRuns.ReadInsideKeyFindsNothing` | src/common/distributed_ds/map/DistributedMap.h:246-262 | Of 1000 bytes the first 100 are read and then 150 to 180: the second read changes nothing |
| `ReadRuns.EmptyReadBreaksCover` | src/server/file_segment_auditor.cpp:117-141 | A read of no bytes at offset 5 of a fresh file leaves its map without an exact cover |
| `Graphs.MatchMatrix.HasEdge` | external/rpclib/dependencies/include/gmock/gmock.h:8086-8088 | Reads one coordinate of the matrix out of the flattened cells |
| `Graphs.MatchMatrix.SetEdge` | external/rpclib/dependencies/include/gmock/gmock.h:8089-8091 | Changes one coordinate and no other |
| `Graphs.SpaceIndexInjective` | external/rpclib/dependencies/include/gmock/gmock.h:8103-8105 | Different coordinates have different cells, all within the matrix |
| `Graphs.MatchMatrix.NextGraph` | external/rpclib/dependencies/src/gmock-gtest-all.cc:11085-11097 | The matrix as a binary number goes up by one and the result is true, or it wraps around to zero and the result is false |
| `Graphs.IncrementValue` | external/rpclib/dependencies/src/gmock-gtest-all.cc:11085-11097 | Clearing leading ones and setting the first zero is adding one modulo 2 to the number of cells |
| `Graphs.IncrementWraps` | external/rpclib/dependencies/src/gmock-gtest-all.cc:11085-11097 | It wraps around exactly for the full graph |
| `Graphs.EveryGraphVisitedOnce` | external/rpclib/dependencies/src/gmock-gtest-all.cc:11085-11097 | From the empty graph every graph is reached after exactly one number of calls below 2 to the number of cells |
| `Graphs.WrapsAround` | external/rpclib/dependencies/src/gmock-gtest-all.cc:11085-11097 | After 2 to the number of cells calls the matrix is empty again |
| `BipartiteMatching.MaxBipartiteMatchState.TryAugment` | external/rpclib/dependencies/src/gmock-gtest-all.cc:10985-11011 | On success one augmenting path over unseen nodes has been flipped: its nodes pass their partners on, links stay mutual and one more left node is matched; on failure nothing has changed and everything reachable has been seen |
| `BipartiteMatching.AugmentAtSink` | external/rpclib/dependencies/src/gmock-gtest-all.cc:10996-11008 | Linking a left node to a free right node is the flip of a path of one edge |
| `BipartiteMatching.AugmentThrough` | external/rpclib/dependencies/src/gmock-gtest-all.cc:11003-11008 | Relinking a right node whose partner has found a new one is the flip of a longer path; links stay mutual |
| `BipartiteMatching.FailureIsClosed` | external/rpclib/dependencies/src/gmock-gtest-all.cc:10985-11011 | What a failed search has seen, with what earlier ones have, is closed under alternating steps and holds all the left node's edges |
| `BipartiteMatching.NoPathOutOfClosed` | external/rpclib/dependencies/src/gmock-gtest-all.cc:10937-10946 | From a node whose edges all lead into a closed set there is no augmenting path |
| `BipartiteMatching.PathAvoidsClosed` | external/rpclib/dependencies/src/gmock-gtest-all.cc:10937-10946 | No augmenting path touches a closed set |
| `BipartiteMatching.ClosedSurvivesAugment` | external/rpclib/dependencies/src/gmock-gtest-all.cc:10937-10956 | Later successes keep a closed set closed, so a left node whose search has failed need not be visited again |
| `BipartiteMatching.LinksAreMaximum` | external/rpclib/dependencies/src/gmock-gtest-all.cc:10936-10970 | Once every unlinked left node leads only into a closed set, no matching has more pairs than the links |
| `BipartiteMatching.MaxBipartiteMatchState.LinkedPairs` | external/rpclib/dependencies/src/gmock-gtest-all.cc:10958-10969 | The pairs of the links, by rising left node |
| `BipartiteMatching.MaxBipartiteMatchState.Compute` | external/rpclib/dependencies/src/gmock-gtest-all.cc:10936-10970 | For every graph the result is a matching, and no matching has more pairs |
| `BipartiteMatching.FindMaxBipartiteMatching` | external/rpclib/dependencies/src/gmock-gtest-all.cc:11033-11036 | The same for every matrix |
| `BipartiteMatching.SaturatesIffFull` | external/rpclib/dependencies/src/gmock-gtest-all.cc:11058-11059 | A matching covers all matchers exactly if it has as many pairs as there are matchers |
| `BipartiteMatching.FindPairing` | external/rpclib/dependencies/src/gmock-gtest-all.cc:11054-11083 | True exactly if some matching gives every matcher an element; then the pairs found do |
| `EditDistance.FillTables` | external/rpclib/dependencies/src/gmock-gtest-all.cc:2476-2522 | Every cell of the move table holds the move that the recurrence chooses, ties included |
| `EditDistance.CalculateOptimalEdits` | external/rpclib/dependencies/src/gmock-gtest-all.cc:2476-2531 | The traced script transforms left into right, consuming both completely and matching equal elements only, and weighs what the table's last cell says; it is a lightest script if and only if some lightest one obeys the tie rule, and always without bad ties |
| `EditDistance.ScriptIsSound` | external/rpclib/dependencies/src/gmock-gtest-all.cc:2524-2531 | The same for the path back from any cell |
| `EditDistance.NoScriptIsLighter` | external/rpclib/dependencies/include/gtest/gtest.h:7911-7914 | No script weighs less than the distance |
| `EditDistance.SomeScriptAttains` | external/rpclib/dependencies/include/gtest/gtest.h:7911-7914 | Some script weighs exactly the distance |
| `EditDistance.CellIsExactIff` | external/rpclib/dependencies/src/gmock-gtest-all.cc:2500-2519 | Next to exact cells a cell is exact if and only if it is no bad tie: the elements differ, adding or removing is no dearer than replacing, and neither of them is strictly cheaper than both others |
| `EditDistance.OptimalIffNoBadTie` | external/rpclib/dependencies/src/gmock-gtest-all.cc:2500-2519 | All scripts, for all prefixes, are lightest if and only if the table has no such tie |
| `EditDistance.LightestIffObedient` | external/rpclib/dependencies/src/gmock-gtest-all.cc:2476-2531 | The script for the whole inputs is lightest if and only if some lightest script neither adds nor removes at equal elements and at such ties |
| `EditDistance.ObedientIsNoLighter` | external/rpclib/dependencies/src/gmock-gtest-all.cc:2500-2531 | Among the scripts that do neither, none is lighter than the traced one |
| `EditDistance.TiesCostOptimality` | external/rpclib/dependencies/src/gmock-gtest-all.cc:2508-2519 | Turning ABA into BAB is such a case: the script found has three replacements although a lighter one exists |
| `EditDistance.InternalStrings.GetId` | external/rpclib/dependencies/src/gmock-gtest-all.cc:2536-2549 | Known strings keep their ids; different strings have different ids |
| `EditDistance.SameScript` | external/rpclib/dependencies/src/gmock-gtest-all.cc:2552-2566 | Scripts only depend on which elements are equal |
| `EditDistance.CalculateOptimalLineEdits` | external/rpclib/dependencies/src/gmock-gtest-all.cc:2552-2566 | The script for lines is the one for their ids, and transforms the lines |
| `UnifiedDiff.Hunk.PushLine` | external/rpclib/dependencies/src/gmock-gtest-all.cc:2583-2599 | The hunk's old and new side and its counts grow by the line as its mark says |
| `DiffText.RemovesGoFirst` | external/rpclib/dependencies/src/gmock-gtest-all.cc:2583-2617 | Moving a remove in front of pending adds changes neither side of the hunk nor its counts |
| `DiffText.SideSizes` | external/rpclib/dependencies/src/gmock-gtest-all.cc:2623-2635 | The counts in a header are the sizes of the hunk's two sides |
| `UnifiedDiff.Hunk.PrintTo` | external/rpclib/dependencies/src/gmock-gtest-all.cc:2601-2635 | The text is that of a hunk whose lines add up to what was pushed, with removed lines in front of added ones; what the text says is stated by `DiffText.DiffReadsBack` |
| `DiffText.DiffReadsBack` | external/rpclib/dependencies/src/gmock-gtest-all.cc:2601-2635 | An independent reader of the format gives back, from the text of any hunks without newlines in their lines, exactly the sides that each one changes, where they start and how many lines the hunk has of them, and its marked lines |
| `UnifiedDiff.TransformsInStep` | external/rpclib/dependencies/src/gmock-gtest-all.cc:2651-2664 | A script that transforms the sides keeps positions in step with it |
| `UnifiedDiff.FillHunk` | external/rpclib/dependencies/src/gmock-gtest-all.cc:2674-2701 | A hunk ends at the end of the script or behind exactly `context` matches, holds no two changes with twice as many between them, and its positions are the script's |
| `UnifiedDiff.HunkExtends` | external/rpclib/dependencies/src/gmock-gtest-all.cc:2657-2708 | Hunks that are ordered and patch the left side up to one position do so up to the next |
| `UnifiedDiff.DoneCompletely` | external/rpclib/dependencies/src/gmock-gtest-all.cc:2657-2708 | If only matches are left, the patched left side is the right side |
| `UnifiedDiff.RightStartsArePatched` | external/rpclib/dependencies/src/gmock-gtest-all.cc:2667-2668 | The right start of each hunk is the line that the patched text has reached |
| `UnifiedDiff.CreateUnifiedDiff` | external/rpclib/dependencies/src/gmock-gtest-all.cc:2651-2711 | The printed hunks are ordered on both sides, do not overlap and agree with their headers, and show exactly `context` common lines around their changes, or all there are; applying them to left gives right if and only if the context is not 0 or the sides are equal, and so does applying the printed text itself, read back, if no line holds a newline; without context nothing is printed |
| `UnifiedDiff.TextPatches` | external/rpclib/dependencies/src/gmock-gtest-all.cc:2601-2635 | The printed text, read back and applied with checks of its headers, patches left to what the hunks make of it |
| `UnifiedDiff.NoHunksNoPatch` | external/rpclib/dependencies/src/gmock-gtest-all.cc:2677-2706 | For two different lines that is not a diff |
| `SimpleRegex.ReadIffWritten` | external/rpclib/dependencies/src/gmock-gtest-all.cc:9195-9200 | A string is the notation of at most one expression; reading and writing undo each other |
| `SimpleRegex.ValidIffReadTail` | external/rpclib/dependencies/src/gmock-gtest-all.cc:9224-9262 | From any position on, the scan accepts exactly what can be read as items |
| `SimpleRegex.ValidateRegex` | external/rpclib/dependencies/src/gmock-gtest-all.cc:9210-9265 | Accepts exactly the notations of well-formed expressions; never a null pointer |
| `SimpleRegex.SplitHead` | external/rpclib/dependencies/src/gmock-gtest-all.cc:9281-9324 | A prefix matches an item and more if and only if it splits into a word of the item and a match of the rest |
| `SimpleRegex.MatchRepetitionAndRegexAtHead` | external/rpclib/dependencies/src/gmock-gtest-all.cc:9273-9295 | True exactly if some prefix is a word of the repeated atom followed by the rest, for any string that a size_t can index |
| `SimpleRegex.MatchRegexAtHead` | external/rpclib/dependencies/src/gmock-gtest-all.cc:9300-9326 | True exactly if some prefix is a word of the expression, the whole string if it ends in $ |
| `SimpleRegex.MatchRegexAnywhere` | external/rpclib/dependencies/src/gmock-gtest-all.cc:9336-9349 | True exactly if the expression denotes some substring, one at the start if it begins with ^; never for null pointers |
| `SimpleRegex.ClassesHold` | external/rpclib/dependencies/src/gmock-gtest-all.cc:9163-9199 | The escaped classes have the members that are listed or coded, and the capital letters stand for the complements |
| `SimpleRegex.OthersStandForThemselves` | external/rpclib/dependencies/src/gmock-gtest-all.cc:9164-9199 | Punctuation is all of printable ASCII but blanks, letters and digits; escaped punctuation and every plain character but the dot match themselves only |
| `SimpleRegex.EscapesMatchSomething` | external/rpclib/dependencies/src/gmock-gtest-all.cc:9175-9199 | An escape is valid if and only if it matches some character |
| `SimpleRegex.PlainIff` | external/rpclib/dependencies/src/gmock-gtest-all.cc:9240-9262 | The characters that stand for themselves without an escape, by their codes |
| `SimpleRegex.RepetitionsDenote` | external/rpclib/dependencies/src/gmock-gtest-all.cc:9270-9296 | A question mark denotes an atom or nothing, a plus sign an atom and any number more, a star that or nothing |
| `Filters.PatternMatchesString` | external/rpclib/dependencies/src/gmock-gtest-all.cc:1910-1925 | True exactly if the string is what the pattern up to a colon stands for |
| `Filters.MatchesFilter` | external/rpclib/dependencies/src/gmock-gtest-all.cc:1927-1946 | True exactly if one of the colon-separated patterns stands for the name |
| `Filters.DeathFilterIsConvention` | external/rpclib/dependencies/src/gmock-gtest-all.cc:1611-1613 | The filter for death test cases selects exactly the names that end in DeathTest or have it before a slash |
| `Shuffle.Random.Generate` | external/rpclib/dependencies/src/gmock-gtest-all.cc:1756-1773 | The next number is below the range and is the remainder of the next state |
| `Shuffle.StepsAreBijective` | external/rpclib/dependencies/src/gmock-gtest-all.cc:1759-1761 | Each 31-bit state follows on exactly one |
| `Shuffle.EveryNumberIsPicked` | external/rpclib/dependencies/src/gmock-gtest-all.cc:1759-1772 | Every number below the range is generated from some state |
| `Shuffle.ShuffleRange` | external/rpclib/dependencies/src/gmock-gtest-all.cc:718-736 | The vector in place becomes the Fisher-Yates order that the generator's draws determine |
| `Shuffle.ShuffleRearranges` | external/rpclib/dependencies/src/gmock-gtest-all.cc:712-736 | Whatever the draws, the range holds the same elements and all others stay in place |
| `Shuffle.EveryOrderIsDrawn` | external/rpclib/dependencies/src/gmock-gtest-all.cc:729-735 | Every order of the range is reached by some draws |
| `Shuffle.DrawsAreUnique` | external/rpclib/dependencies/src/gmock-gtest-all.cc:729-735 | No order of different elements is reached by two sequences of draws |
| `RunOrder.ShuffledBlocksKeepOrder` | external/rpclib/dependencies/src/gmock-gtest-all.cc:6385-6391 | Shuffling the death tests and then the others keeps each index in its block |
| `RunOrder.EveryBlockOrderIsDrawn` | external/rpclib/dependencies/src/gmock-gtest-all.cc:6385-6391 | Every order of the death tests and of the others is reached by some draws |
| `RunOrder.EveryCaseCanBeLast` | external/rpclib/dependencies/src/gmock-gtest-all.cc:6383-6391 | From some state of the generator any case ends its block |
| `RunOrder.EveryTestCanBeLast` | external/rpclib/dependencies/src/gmock-gtest-all.cc:6393-6396 | From some state of the generator any test is the last of its case |
| `RunOrder.BlockOrderVisits` | external/rpclib/dependencies/src/gmock-gtest-all.cc:989-994 | Following such indices visits the first block's elements, each once, and then the others |
| `RunOrder.AppendKeepsBlockOrder` | external/rpclib/dependencies/src/gmock-gtest-all.cc:5973-5978 | A case that is not a death test may be registered in any order of the indices |
| `TestOrder.GetRandomSeedFromFlag` | external/rpclib/dependencies/src/gmock-gtest-all.cc:541-554 | The seed is between 1 and 99999, is the flag if that is, and otherwise differs from the 32-bit flag or clock by a multiple of 99999 |
| `TestOrder.SeedsAreCyclic` | external/rpclib/dependencies/src/gmock-gtest-all.cc:556-565 | Iterations go through all seeds in turn |
| `TestOrder.TestCase.AddTestInfo` | external/rpclib/dependencies/src/gmock-gtest-all.cc:4199-4204 | The test is the last one, in the list and in the order |
| `TestOrder.TestCase.ShuffleTests` | external/rpclib/dependencies/src/gmock-gtest-all.cc:4240-4243 | The tests' order is shuffled; all of them stay in it |
| `TestOrder.TestCase.UnshuffleTests` | external/rpclib/dependencies/src/gmock-gtest-all.cc:4245-4250 | The order is that of registration |
| `TestOrder.TestCase.Run` | external/rpclib/dependencies/src/gmock-gtest-all.cc:4207-4232 | A case that should run visits its tests in the current order |
| `TestRuns.InsertKeepsBlocks` | external/rpclib/dependencies/src/gmock-gtest-all.cc:5964-5976 | Inserting behind the last death test case, or at the end, keeps registration order within death tests and within the others |
| `TestRuns.RegisterDeathShuffledIff` | external/rpclib/dependencies/src/gmock-gtest-all.cc:5964-5978 | After registering a death test case in a shuffled order a run has no death test case after another one if and only if there were no other cases or the first of them is in its place |
| `TestRuns.DeathTestRunsSecond` | external/rpclib/dependencies/src/gmock-gtest-all.cc:5967-5972 | Two cases are shuffled to the order B, A when CDeathTest is registered: it then runs after B |
| `TestRuns.UnitTestImpl.GetTestCase` | external/rpclib/dependencies/src/gmock-gtest-all.cc:5948-5981 | The registered case of that name; otherwise a new one, registered last, with death test cases kept in front |
| `TestRuns.UnitTestImpl.AddTestInfo` | external/rpclib/dependencies/src/gmock-gtest-all.cc:1052-1072 | The test is added to its case, which is registered if it is new; no other case changes |
| `TestRuns.UnitTestImpl.ShuffleTests` | external/rpclib/dependencies/src/gmock-gtest-all.cc:6383-6397 | Case indices are shuffled in two blocks and then the tests of each case, all from one stream of random numbers |
| `TestRuns.UnitTestImpl.UnshuffleTests` | external/rpclib/dependencies/src/gmock-gtest-all.cc:6399-6407 | Cases and tests are back in the order of registration |
| `TestRuns.UnitTestImpl.GetMutableTestCase` | external/rpclib/dependencies/src/gmock-gtest-all.cc:989-994 | The case that the index vector selects, or none out of range |
| `TestRuns.UnitTestImpl.RunTestCases` | external/rpclib/dependencies/src/gmock-gtest-all.cc:6092-6095 | Every index runs once, in the current order |
| `TestRuns.UnitTestImpl.CurrentOrderIsComplete` | external/rpclib/dependencies/src/gmock-gtest-all.cc:6385-6397 | In any order that registering, shuffling and unshuffling can lead to, a run is complete |
| `TestRuns.UnitTestImpl.EachCaseOnce` | external/rpclib/dependencies/src/gmock-gtest-all.cc:6383-6407 | A complete run visits each registered case exactly once and no death test case after another one |
| `TestRuns.UnitTestImpl.SameSeedSameVisits` | external/rpclib/dependencies/src/gmock-gtest-all.cc:6117-6127 | The seed determines the whole order of an iteration, so a failing iteration can be repeated without those before |
| `TestRuns.UnitTestImpl.OrderOfSeedOne` | external/rpclib/dependencies/src/gmock-gtest-all.cc:6072-6078 | With seed 1 three test cases that are no death tests run in the order third, second, first |
| `TestRuns.UnitTestImpl.RunIteration` | external/rpclib/dependencies/src/gmock-gtest-all.cc:6065-6122 | One iteration is complete, follows its seed and ends unshuffled |
| `TestRuns.UnitTestImpl.RunAllTests` | external/rpclib/dependencies/src/gmock-gtest-all.cc:6047-6128 | All iterations are, with seeds in turn; nothing is visited if there is nothing to run or the set-up of environments fails fatally |
| `Utf8.ReadFirstOfLayout` | external/rpclib/dependencies/src/gmock-gtest-all.cc:3174-3182 | The bytes of a code point of up to 21 bits, with anything behind them, are read back as that code point |
| `Utf8.LayoutOfReadFirst` | external/rpclib/dependencies/src/gmock-gtest-all.cc:3174-3182 | Bytes that can be read in their shortest form are the layout of the code point |
| `Utf8.ExamplesOfLengths` | external/rpclib/dependencies/src/gmock-gtest-all.cc:3174-3182 | The layouts of the examples in section 7 of RFC 3629 |
| `Utf8.EncodesIffDecodes` | external/rpclib/dependencies/src/gmock-gtest-all.cc:3207-3233 | Encoding is a bijection between sequences of nonzero code points of up to 21 bits and well-formed byte sequences |
| `Utf8.CodePointToUtf8` | external/rpclib/dependencies/src/gmock-gtest-all.cc:3207-3233 | The layout of section 3 of RFC 3629 extended to 21 bits; nothing for 0, a message with the hexadecimal value for more bits |
| `Utf8.EncodedAsDocumentedIff` | external/rpclib/dependencies/src/gmock-gtest-all.cc:3204-3210 | The message is printed for exactly the code points outside Unicode, as documented, if and only if the code point is not between 0x110000 and 0x1FFFFF, which the code encodes |
| `Utf8.HexReadsBack` | external/rpclib/dependencies/src/gmock-gtest-all.cc:3413-3418 | The digits of the message read back to the value, without leading zeros |
| `Utf8.PairUnits` | external/rpclib/dependencies/src/gmock-gtest-all.cc:3242-3255 | Combining a surrogate pair undoes the encoding of section 2.1 of RFC 2781 |
| `Utf8.PairOfUnits` | external/rpclib/dependencies/src/gmock-gtest-all.cc:3242-3255 | What that section encodes as two units is a surrogate pair that combines to the code point |
| `Utf8.UnitsOfCodePoints` | external/rpclib/dependencies/src/gmock-gtest-all.cc:3276-3287 | Any string of 16-bit units, well-formed or not, can be recovered from the code points that are written |
| `Utf8.SurvivesUtf16Iff` | external/rpclib/dependencies/src/gmock-gtest-all.cc:3276-3287 | A sequence of code points survives UTF-16 if and only if no two neighbours in it look like a surrogate pair |
| `Utf8.LoneSurrogatesMerge` | external/rpclib/dependencies/src/gmock-gtest-all.cc:3281-3284 | The two code points U+D800 and U+DC00 come back as the one U+10000 |
| `Utf8.WideStringToUtf8` | external/rpclib/dependencies/src/gmock-gtest-all.cc:3271-3292 | What is written decodes to the string: from UTF-16 whatever its units are, from UTF-32 if they have at most 21 bits |
| `Expectations.ExpectationBase.RetireAllPreRequisites` | external/rpclib/dependencies/src/gmock-gtest-all.cc:11315-11331 | All expectations before this one retire, and nothing else does; none ever retires before its prerequisites |
| `Expectations.ClosedBelow` | external/rpclib/dependencies/src/gmock-gtest-all.cc:11317-11321 | Everything before a retired expectation is retired, which is what the shortcut relies on |
| `Expectations.ExpectationBase.AllPrerequisitesAreSatisfied` | external/rpclib/dependencies/src/gmock-gtest-all.cc:11336-11346 | True exactly if everything before the expectation is satisfied |
| `Expectations.ExpectationBase.FindUnsatisfiedPrerequisites` | external/rpclib/dependencies/src/gmock-gtest-all.cc:11349-11367 | Adds exactly the unsatisfied prerequisites that are reached through satisfied ones that have not been called |
| `Expectations.BlockedIffUnsatisfied` | external/rpclib/dependencies/src/gmock-gtest-all.cc:11354-11359 | Not looking behind called expectations loses nothing: something is found if and only if not everything before is satisfied |
| `Expectations.ExpectationBase.GetActionForArguments` | external/rpclib/dependencies/include/gmock/gmock.h:10328-10396 | A call counts; unless it is excessive everything before retires, and so does the expectation itself if it is to on saturation, and the action is the next one. Once an expectation that may be called has been, everything before it is satisfied and retired for good |
| `MockCalls.Session.FindMatchingExpectation` | external/rpclib/dependencies/include/gmock/gmock.h:10892-10906 | The last definition that is active, ready and matches; none exactly if there is none |
| `MockCalls.Sequence.AddExpectation` | external/rpclib/dependencies/src/gmock-gtest-all.cc:12015-12023 | The expectation joins the sequence unless it was the last to do so, with the one before it as a prerequisite |
| `MockCalls.Session.ExpectCall` | external/rpclib/dependencies/include/gmock/gmock.h:10779-10798 | A new expectation, with the prerequisites named and the last ones of the sequences it joins, keeps all invariants and its sequences |
| `MockCalls.Session.Invoke` | external/rpclib/dependencies/include/gmock/gmock.h:10857-10880 | The last definition that can handle the call does, with everything before it called as often as it is to be; it is excessive exactly if the expectation has been called as often as it may be; exactly what comes before it retires unless the call is excessive, so afterwards all of that is retired if and only if the expectation may be called at all or it was already; over every run of definitions and calls the calls stay in order |
| `MockCalls.OnceActionsAreUsedOnce` | external/rpclib/dependencies/include/gmock/gmock.h:10354-10356 | In every run each action that an expectation uses once is used by at most one of its calls, by one if and only if it has been called often enough, and in their turn |
| `MockCalls.RetiringIsNeverExcessive` | external/rpclib/dependencies/include/gmock/gmock.h:10388-10393 | In every run an expectation that is to retire on saturation never gets a call too many |
| `MockCalls.CallsOutOfOrder` | external/rpclib/dependencies/include/gmock/gmock.h:10374-10385 | A run in which an expectation that must not be called is called before its prerequisite |
| `MockCalls.NextInOrder` | external/rpclib/dependencies/include/gmock/gmock.h:10270-10280 | An expectation that is not retired may be called next: nothing that it has to precede has been called, other than what must not be called |
| `MockCalls.SequenceIsCalledInOrder` | external/rpclib/dependencies/src/gmock-gtest-all.cc:12015-12023 | In every run the expectations of a sequence handle calls in its order, those that must not be called aside |
| `DecimalFormat.DecimalReadsBack` | external/rpclib/dependencies/include/format.h:806-826 | Decimal notation consists of digits that read back to the number |
| `DecimalFormat.DecimalLength` | external/rpclib/dependencies/include/format.h:772-779 | Its length is the one k with 10^(k-1) <= n < 10^k, and 1 for zero |
| `DecimalFormat.EstimateIsClose` | external/rpclib/dependencies/include/format.h:777 | Multiplying the bit length by 1233 and shifting by 12 gives the number of digits or one less |
| `DecimalFormat.LookupDecides` | external/rpclib/dependencies/include/format.h:774-779 | For every 32-bit and 64-bit number the comparison with the table's power of ten corrects the estimate to the exact length |
| `DecimalFormat.CountDigits64` | external/rpclib/dependencies/include/format.h:774-779 | The number of decimal digits |
| `DecimalFormat.CountDigits32` | external/rpclib/dependencies/include/format.h:799-803 | The number of decimal digits |
| `DecimalFormat.CountDigitsFallback` | external/rpclib/dependencies/include/format.h:782-797 | The number of decimal digits, for every number |
| `DecimalFormat.PowersOfTen` | external/rpclib/dependencies/src/format.cc:668-676 | The 64-bit table holds the powers of ten |
| `DecimalFormat.PowersOfTen32` | external/rpclib/dependencies/src/format.cc:652-666 | So does the 32-bit table |
| `DecimalFormat.TablePair` | external/rpclib/dependencies/src/format.cc:644-650 | The digit table holds the two digits of each number below 100 |
| `DecimalFormat.WriteBackwards` | external/rpclib/dependencies/include/format.h:2910-2930 | Two digits at a time, the number is written to end where told, and nothing else is overwritten |
| `DecimalFormat.FormatDecimal` | external/rpclib/dependencies/include/format.h:806-827 | With as many cells as it has digits, the number fills exactly these |
| `DecimalFormat.Word64Fits` | external/rpclib/dependencies/include/format.h:2904-2907 | No 64-bit number has more digits than the buffer leaves room for with a sign |
| `DecimalFormat.FormatInt.Unsigned` | external/rpclib/dependencies/include/format.h:2946-2948 | The text is the decimal notation, within the buffer |
| `DecimalFormat.FormatInt.Signed` | external/rpclib/dependencies/include/format.h:2932-2945 | The text is the notation of the absolute value with a sign if negative, the least number included, within the buffer |

## Left out

- Auditor.FileSegmentAuditor.IncreaseFileSegmentFrequency: the re-indexing of `layer_score_map` (file_segment_auditor.cpp:142-162), see the next line.
- Auditor.FileSegmentAuditor.UpdateOnMove: the re-indexing of `layer_score_map` (file_segment_auditor.cpp:75-89): leftovers are not re-indexed and moves look up the new layer, so it is not an index of the maps; what placement reads from it is an arbitrary list of victims per layer.
- `place` (max_bw_dpe.cpp:28-46) only calls `solve` for every entry of every heat map; the model has the single call.
- `DataManager::MakeCapacity`, `HasCapacity` and `CanFit` (data_manager.h:69-143): a status whose success value is 0 is used as a truth value there, and the eviction scan reads the end of a map.
- `GetDataLocation` and the client library's `fread`: their offsets come from keys rather than from stored segments.
- Several servers: the keys of a map are hashed over the servers, and a lookup concatenates what each of them returns (DistributedMap.h:206-218); the model has one server. Locks and remote calls are not part of it, and the sequence is a counter.
- Placement.PairsInRangeIff: about the number of parts; what the code reads when there are too few is undefined, so `PlaceDataInLayer` and what calls it exclude indices past the start of the segment by a precondition.
- I/O clients, MPI, RPC, threads, clocks and tracing; how full a layer is, is a function of its id.
- Floating point: capacities and scores are reals, the recency term of a read is a function of its time, edit weights are integers in units of 0.00001.
- Machine integers other than those that code here narrows or wraps on purpose: `long` and `size_t` are unbounded. Counts that must fit an int for the code to work have it as a precondition.
- Shared pointers between `file_segment_map` and `offsetMaps`: a file has the index of its map. Files that share a slot share its map, as in the code.
- Vectors that grow are fields of type `seq`; only the vectors that `ShuffleRange` permutes are objects of their own, and fixed buffers are arrays.
- Placement.MaxBandwidthDPE.ScanVictims: the loop in the code starts at the map's end, which is no entry (max_bw_dpe.cpp:93-97); the model scans as the comment above it says, from the lowest score up.
- PlacementChoices.GivenIsKept: about nonempty files and victims listed by falling score without negative sizes, as the multimap of the code keeps them; an empty file has only empty shares (`Placement.PlanIsAffordable`).
- Placement.MaxBandwidthDPE.Solve: the tests and loops of one function are divided over `Decide`, `ScanVictims`, `PlaceAll` and `PlacePart`; a layer whose id has no victims list, for which the code would read past the map, is excluded by a precondition.
- EditDistance.OptimalIffNoBadTie: about all prefixes at once; for the whole inputs alone LightestIffObedient is exact.
- SimpleRegex.ValidateRegex: the wording of its messages.
- UnifiedDiff.CreateUnifiedDiff: lines are strings without terminators; of lines that hold newlines, which do not read back, only the hunks are stated.
- Utf8.WideStringToUtf8: whether wide characters have 16 or 32 bits is a parameter.
- Filters.MatchesFilter: negative patterns and the user's own filters, with sharding and the filtering of tests to run; whether a case runs is an arbitrary flag here.
- TestRuns.UnitTestImpl.RunAllTests: negative repeat counts, which run forever; every finite part of such a run is covered. What environments do beyond failing, events, times and results.
- Expectations.ExpectationBase: cardinalities that users define; the model has the bounds of the built-in ones. What actions do, warnings that they ran out, and the printing of explanations.
- MockCalls.Session.ExpectCall: clauses are checked for their order by the code; here an expectation is made with its prerequisites at once, as its fields do not change after the statement.
- MockCalls.Sequence.AddExpectation: the code adds the prerequisite to the expectation at this point; here `ExpectCall` has collected it before the expectation is made.
- MockCalls.Session.Invoke: the mutex; calls happen one at a time.
- fmt's padding, precision, alternate bases and floating-point output; gtest's printers, XML output, death test processes, flags and option parsing.
