# Verified models of Tengine's stateful engines

Tengine adds to nginx a number of modules that each hold a small stateful engine: a planner, a protocol, a shared-memory table, an allocator, a decoder, a cache. This project models those engines in Dafny and proves, for every input and every run, that the imperative code refines a simple description: a byte sequence, a map, a log, a partition.

`dafny verify dfyconfig.toml` checks everything. Each file is one module.

| module | engine | simple description it is proved against |
|---|---|---|
| `TfsSegments`, `TfsReadPlan` | cutting a large file into 2 MB fragments, storing their table, planning a range read | the file's bytes |
| `TfsFileHoles` | finding the holes of a custom file in a range | the bytes of the range that no fragment covers |
| `TfsBatch`, `TfsBatchProgress` | parallel sub-requests that answer in turn | segments in order, one callback per batch, and always a way to finish |
| `LocklessHash`, `LocklessCalls` | one-writer, many-reader shared hash table | a growing set of elements; calls that never wait |
| `PathTrie`, `CommString` | path trie in shared memory and the string split it uses | longest registered prefix in a map |
| `PoolAlloc` | pool allocator with per-function statistics | disjoint ranges, a ledger of bytes |
| `DubboDecoder` | resumable frame decoder and ping encoder | parsing the whole stream at once |
| `BlockCache` | search tree and queue of the block cache | stored nodes in order of last use |
| `RtRing` | response-time ring | the log of completed requests |
| `ConnectTunnel` | CONNECT tunnel | two first-in-first-out byte streams |
| `KeepalivePool` | keepalive connection pool | a partition of items, connections by age |
| `TwoSlot` | two-slot configuration switch | whole updates |
| `Primes` | prime search | the least prime not below a number |

Objects the C code updates in place are classes with a `Valid()` predicate that every method keeps; loops are loops with invariants, proved against specification functions. What other processes or sockets can interleave with (the lockless hash, the batch protocol, the two-slot switch) is a state machine whose invariant holds in every state of every run. Results of system calls, allocators, sockets, clocks and hash functions are parameters, so the theorems hold for all of them.

Some properties one would expect turn out not to hold of the code. For each there is an input on which it fails, or the whole failing family, and the exact condition under which the code does meet the property:

- A read that starts strictly inside the last fragment and runs past the end asks for bytes that the fragment does not have (`TfsReadPlan.PlanStored`, `TfsReadPlan.PastEndPlanFails`).
- The unsigned space test of the pool keeps allocations inside a block if and only if the block ends on an aligned address (`PoolAlloc.InsideIffEndAligned`, `PoolAlloc.UnalignedEndBreaks`).
- Joining what `comm_split_string` returns gives the string back if and only if the string is empty, has fewer fields than there is room for, or has exactly as many and does not end with the delimiter: a trailing empty field that would be the last to fit is dropped (`CommString.SplitJoinsIff`, `CommString.TrailingEmptyFieldDropped`).
- A negative ping id does not survive byte swapping on a little-endian host, except those whose low seven bytes are all ones (`DubboDecoder.PingRoundTrip`, `DubboDecoder.NegativeIdLost`).
- A cached address list reads back exactly if and only if it has at most 31 addresses, and an inserted node is found whatever the rebalancing if and only if its key was not cached yet (`BlockCache.StoredExact`, `BlockCache.InsertedIsFoundIff`).
- The ring leaves the oldest second of the period out, so with the default period of one second it always reports 0 (`RtRing.OldestSecondLeftOut`, `RtRing.OldestRequestMissed`, `RtRing.Ring.UpdateRt`).
- A tunnel that closes drops whatever its buffers still hold. The upstream's bytes all arrived if and only if none wait, and some can be waiting only when the client has ended. The client's bytes all arrived if and only if neither the request header buffer nor the tunnel's own buffer holds any, and some can be waiting only when the upstream has ended or the header buffer holds them (`ConnectTunnel.Tunnel.ClosingDelivers`, with a tunnel for each kind of loss: `ConnectTunnel.UpstreamBytesLost`, `ConnectTunnel.ClientBytesLost`, `ConnectTunnel.LeftoverLost`). A configured response that is sent in several attempts starts over each time, so the client has exactly it if and only if the attempts before the last sent nothing (`ConnectTunnel.ConfiguredResponse`, `ConnectTunnel.ResponseRestarts`).
- Right after start-up readers of the two-slot switch may get older data than the newest update (`TwoSlot.NewestIsServed`, `TwoSlot.StaleAfterStart`).

## Model

| member | source | states |
|---|---|---|
| `TfsSegments.ChainSize` | modules/ngx_http_tfs_module/ngx_tfs_common.c:725-741 | the computed size is the number of bytes the buffer chain still holds |
| `TfsSegments.CutFragment` | modules/ngx_http_tfs_module/ngx_http_tfs_data_server_message.c:1495-1506 | cutting the smaller of 2 MB and what is left off the rest of a body gives exactly its next fragment and leaves the fragments after it |
| `TfsSegments.SendBody.TakeNext` | modules/ngx_http_tfs_module/ngx_http_tfs_data_server_message.c:1515-1562 | empty buffers are skipped, and a non-empty window of at most the wanted size is moved off the front of what is left; it fails only when nothing is left |
| `TfsSegments.SendBody.PrepareSegmentData` | modules/ngx_http_tfs_module/ngx_http_tfs_data_server_message.c:1508-1565 | the chain built holds exactly the next `size` bytes, and what is left follows them; it fails if and only if fewer are left |
| `TfsSegments.SendBody.CutSegment` | modules/ngx_http_tfs_module/ngx_http_tfs_data_server_message.c:1495-1565 | segment k gets the bytes, size and operation size of fragment k, whatever the buffer boundaries |
| `TfsSegments.SendBody.GetSegmentForWrite` | modules/ngx_http_tfs_module/ngx_http_tfs_data_server_message.c:1448-1575 | for every buffer chain the segments' data, one after the other, is the whole body and the body is consumed; a large file's segments lie end to end from 0, a custom file's end to end from the requested offset or, when it appends, all at -1, a raw file's all at 0; the "early end" error cannot happen: only a missing body fails |
| `TfsSegments.WrittenOffsets` | modules/ngx_http_tfs_module/ngx_http_tfs_data_server_message.c:1486-1505 | those offsets, for every write plan |
| `TfsSegments.WrittenBytes` | modules/ngx_http_tfs_module/ngx_http_tfs_data_server_message.c:1470-1565 | the segments hold exactly the body; all are 2 MB but the last, which is not empty |
| `TfsReadPlan.FindSegment` | modules/ngx_http_tfs_module/ngx_http_tfs_data_server_message.c:1297-1319 | in an ascending table the binary search answers the index of the row at the offset, else the negated insertion index between smaller and larger rows; in any table an answer above 0 is a row at the offset |
| `TfsReadPlan.StartRow` | modules/ngx_http_tfs_module/ngx_http_tfs_data_server_message.c:1364-1383 | in an ascending table, gaps included, the start row is the last that begins at or before the offset; -1 if and only if that row ends at or before it; row 0 when every row begins later |
| `TfsReadPlan.EndRow` | modules/ngx_http_tfs_module/ngx_http_tfs_data_server_message.c:1385-1395 | in an ascending table the end row is the last one that begins before the end; -1 if and only if there is none |
| `TfsReadPlan.LastHolds` | modules/ngx_http_tfs_module/ngx_http_tfs_data_server_message.c:1364-1383 | in a table without gaps the last row that begins at or before a byte holds it, unless the table ends before |
| `TfsReadPlan.TrimFirst` | modules/ngx_http_tfs_module/ngx_http_tfs_data_server_message.c:1416-1423 | the first piece starts exactly at the offset and keeps its end; the 32-bit subtraction never wraps visibly |
| `TfsReadPlan.TrimLast` | modules/ngx_http_tfs_module/ngx_http_tfs_data_server_message.c:1425-1433 | the last piece stops at the end of the range or after a whole row's size, whichever is smaller |
| `TfsReadPlan.PlanRows` | modules/ngx_http_tfs_module/ngx_http_tfs_data_server_message.c:1397-1438 | the pieces tile the stored part of the range if and only if the range ends inside the table or starts at or before the last row; otherwise the one piece overruns its fragment |
| `TfsReadPlan.PlanRange` | modules/ngx_http_tfs_module/ngx_http_tfs_data_server_message.c:1364-1438 | an offset past the table is an error; any other range gets such a plan |
| `TfsReadPlan.GetSegmentForRead` | modules/ngx_http_tfs_module/ngx_http_tfs_data_server_message.c:1322-1445 | no table is an error, an offset past the file is done, a table shorter than the file is an error, and every other range is planned as consecutive rows that tile it under that condition |
| `TfsReadPlan.SetMetaSegmentData` | modules/ngx_http_tfs_module/ngx_http_tfs_data_server_message.c:1130-1185 | the stored table lists every segment's info in order, with count and file size |
| `TfsReadPlan.TiledPlanReads` | modules/ngx_http_tfs_module/ngx_http_tfs_data_server_message.c:1397-1438 | reading the pieces of any plan that tiles [lo, hi) gives exactly those bytes of the body |
| `TfsReadPlan.UploadedIsStored` | modules/ngx_http_tfs_module/ngx_http_tfs_data_server_message.c:1130-1185 | what the write plan uploads is a contiguous table over exactly the body, wherever the fragments were placed |
| `TfsReadPlan.TilesIffServes` | modules/ngx_http_tfs_module/ngx_http_tfs_data_server_message.c:1397-1438 | a plan serves the asked bytes if and only if it tiles the range |
| `TfsReadPlan.PlanStored` | modules/ngx_http_tfs_module/ngx_http_tfs_data_server_message.c:1297-1445 | the round trip: planning any range over the stored table serves exactly the bytes that exist if and only if the range ends inside the file or does not start strictly inside the last fragment |
| `TfsReadPlan.PastEndPlanFails` | modules/ngx_http_tfs_module/ngx_http_tfs_data_server_message.c:1425-1433 | the condition is needed: every plan for ten bytes from byte 4 of a ten-byte file fails to serve the six that exist |
| `TfsReadPlan.WriteThenRead` | modules/ngx_http_tfs_module/ngx_http_tfs_data_server_message.c:1297-1575 | end to end, from any buffer chain through cutting, placing under any distinct ids and storing the table to the plan of any range: the bytes served are the body's under exactly that condition |
| `TfsFileHoles.CoverTiles` | modules/ngx_http_tfs_module/ngx_http_tfs_data_server_message.c:1727-1794 | the walk tiles the range from its start, answers the fragments in order with their sizes, and skips one only when the range is used up |
| `TfsFileHoles.GapsMeetSegments` | modules/ngx_http_tfs_module/ngx_http_tfs_data_server_message.c:1742-1763 | every hole stops where a fragment starts or where the range ends |
| `TfsFileHoles.CoverExact` | modules/ngx_http_tfs_module/ngx_http_tfs_data_server_message.c:1742-1769 | for fragments that ascend without overlap, a byte the walk passes lies in a hole if and only if no fragment covers it |
| `TfsFileHoles.HolesAreUncovered` | modules/ngx_http_tfs_module/ngx_http_tfs_data_server_message.c:1727-1794 | a byte of the range lies in a reported hole, the one behind the last fragment included, if and only if no fragment covers it, for fragments that ascend without overlap |
| `TfsFileHoles.GapsPrecede` | modules/ngx_http_tfs_module/ngx_http_tfs_data_server_message.c:1742-1763 | before the last fragments have come, every byte reported as a hole lies in front of a fragment |
| `TfsFileHoles.WalkStopsBehind` | modules/ngx_http_tfs_module/ngx_http_tfs_data_server_message.c:1742-1769 | the walk over the fragments ends behind the last one, or where the range ends |
| `TfsFileHoles.HolesPartitionRange` | modules/ngx_http_tfs_module/ngx_http_tfs_data_server_message.c:1727-1794 | holes ascend without overlap, holes and answered bytes add up to what was walked, and when no fragments are to come that is the whole request |
| `TfsFileHoles.File.Visit` | modules/ngx_http_tfs_module/ngx_http_tfs_data_server_message.c:1742-1769 | one round reports the hole in front of a fragment, passes both, keeps file_offset + left_length, and stops exactly when the range is used up |
| `TfsFileHoles.File.CheckFileHole` | modules/ngx_http_tfs_module/ngx_http_tfs_data_server_message.c:1727-1794 | the holes reported and the new position are those of the tiling, so of fragments that ascend without overlap exactly the uncovered bytes of the range are reported; while more fragments are to come, holes lie in front of a fragment only and the walk stops behind the last one or where the range ends; file_offset + left_length is constant; done leaves nothing |
| `TfsBatch.StepInv` | modules/ngx_http_tfs_module/ngx_http_tfs.c:1058-1156 | every step of every interleaving of sub-requests keeps counters, flags, control and output consistent |
| `TfsBatch.TurnsAndWakeups` | modules/ngx_http_tfs_module/ngx_http_tfs.c:2303-2558 | sp_done_count = sp_succ_count + sp_fail_count = sp_curr - segment_index; at rest the sub-request in turn is never ready, nor holds all its data, without writing; one whose data server reported an error counts as failed once it is done; each batch calls back exactly once |
| `TfsBatch.OutputInOrder` | modules/ngx_http_tfs_module/ngx_http_tfs.c:1514-1814 | at any time the client has prefixes of the segments in order, nothing past the one in turn, every earlier one whole while nothing failed, and at a successful end everything |
| `TfsBatch.BytesOnlyInTurn` | modules/ngx_http_tfs_module/ngx_http_tfs.c:1058-1156 | the bytes of segment j go out only while sp_curr is j |
| `TfsBatch.WrittenBytes` | modules/ngx_http_tfs_module/ngx_http_tfs.c:1514-1666 | a write appends exactly the next unsent bytes of the segment in turn |
| `TfsBatch.TurnPassesInv` | modules/ngx_http_tfs_module/ngx_http_tfs.c:1719-1814 | reporting on the sub-request in turn moves the turn to the next one and keeps the invariant |
| `TfsBatch.WakeOk` | modules/ngx_http_tfs_module/ngx_http_tfs.c:2539-2558 | waking the next sub-request keeps the protocol part of the invariant |
| `TfsBatchProgress.BatchCanEnd` | modules/ngx_http_tfs_module/ngx_http_tfs.c:1514-1814 | from every state of every run inside a batch, some continuation makes the batch call back, and without a failure if nothing has failed yet |
| `TfsBatchProgress.FileCanArrive` | modules/ngx_http_tfs_module/ngx_http_tfs.c:2303-2558 | from every state of every run in which nothing has failed yet, some continuation delivers the whole file |
| `TfsBatchProgress.ChainsAreShort` | modules/ngx_http_tfs_module/ngx_http_tfs.c:2539-2558 | in every run a chain of calls that wake each other ends by itself, after at most 36 calls |
| `TfsBatchProgress.FailsIff` | modules/ngx_http_tfs_module/ngx_http_tfs.c:1058-1156 | in every run, over all batches: a batch holds a failure, and the request ends badly, if and only if a data server reported an error, a connection broke or the client went; failures are never forgotten nor made up |
| `TfsBatchProgress.FileCanArriveIff` | modules/ngx_http_tfs_module/ngx_http_tfs.c:2303-2558 | from any state of any run the whole file can still arrive if and only if none of that has happened |
| `TfsBatchProgress.OverflowSends` | modules/ngx_http_tfs_module/ngx_http_tfs.c:1514-1666 | a sub-request in turn whose buffer overflows hands on what it has before everything has arrived |
| `TfsBatchProgress.OverflowWaits` | modules/ngx_http_tfs_module/ngx_http_tfs.c:1077-1090 | one that is not in turn sends nothing and is marked ready |
| `TfsBatchProgress.SilentAfterFailure` | modules/ngx_http_tfs_module/ngx_http_tfs.c:2539-2558 | after a failure only sub-requests that are writing already, or that overflow, send anything more |
| `LocklessHash.StepInv` | modules/mod_common/ngx_comm_shm.c:349-411 | every store of the writer and every load of any reader, in any order, keeps the invariant |
| `LocklessHash.LocklessSafety` | modules/mod_common/ngx_comm_shm.c:349-411 | in every state of every run a finished get returned a visible element with its key or nothing, and whatever was visible for the key when it began; count <= chain length <= count + 1; keys are distinct per chain; capacity is kept |
| `LocklessHash.VisibleForever` | modules/mod_common/ngx_comm_shm.c:349-411 | what is visible stays visible along every run |
| `LocklessHash.AddReports` | modules/mod_common/ngx_comm_shm.c:349-383 | an add that reports success has made its element visible, "present" means the key is visible, "out of memory" that all nodes are used; only the count update changes what is visible, by that element |
| `LocklessHash.CompletedAddIsFound` | modules/mod_common/ngx_comm_shm.c:349-411 | over a whole run: a get that begins after an add has reported success returns that element, whatever happens in between |
| `LocklessHash.GetIsLinearizable` | modules/mod_common/ngx_comm_shm.c:385-411 | between the beginning and the end of every get there is a state whose visible elements are exactly what it answers for its key |
| `LocklessCalls.AddAnswers` | modules/mod_common/ngx_comm_shm.c:349-383 | over every run: an add that has returned reports "present" if and only if its key was visible when it was called, "out of memory" if and only if it was not and no node was free, and success otherwise; what is visible has then grown by its element, and otherwise not at all |
| `LocklessCalls.AddedIsFound` | modules/mod_common/ngx_comm_shm.c:349-411 | a get that begins after a called add has reported success returns its element |
| `LocklessCalls.AddNeverWaits` | modules/mod_common/ngx_comm_shm.c:349-383 | whatever the readers do, an add returns after at most six steps of its own more than its chain has nodes |
| `LocklessCalls.GetNeverWaits` | modules/mod_common/ngx_comm_shm.c:385-411 | whatever the writer does, a get returns after at most three steps of its own per node of its chain, and two more |
| `LocklessHash.LinkStep` | modules/mod_common/ngx_comm_shm.c:349-383 | linking a filled node extends its chain by one and takes nothing from any reader |
| `LocklessHash.MoveReaderOk` | modules/mod_common/ngx_comm_shm.c:385-411 | every step of a get keeps what it still has to find ahead of it |
| `CommString.JoinFields` | modules/mod_common/ngx_comm_string.c:8-38 | joining the fields of a string restores it and no field holds the delimiter |
| `CommString.FieldsJoin` | modules/mod_common/ngx_comm_string.c:8-38 | splitting joined fields restores them |
| `CommString.ScanField` | modules/mod_common/ngx_comm_string.c:8-38 | the inner loop finds the first field and whether a delimiter ended it |
| `CommString.SplitString` | modules/mod_common/ngx_comm_string.c:8-38 | the result is the first out_len fields, without a trailing empty one when it would be the last that fits |
| `CommString.BoundedIs` | modules/mod_common/ngx_comm_string.c:8-38 | the result is a prefix of the fields: as many as there is room for, less a trailing empty one that would be the last to fit |
| `CommString.ShortSplitJoins` | modules/mod_common/ngx_comm_string.c:8-38 | with fewer fields than room the result joins back to the string |
| `CommString.SplitJoinsIff` | modules/mod_common/ngx_comm_string.c:8-38 | joining the result gives the string back if and only if the string is empty, has fewer fields than room, or has exactly as many and does not end with the delimiter |
| `CommString.TrailingEmptyFieldDropped` | modules/mod_common/ngx_comm_string.c:8-38 | "a/" has two fields, but a split into two returns one and a split into three returns both |
| `PathTrie.KeyIffCaseEqual` | modules/mod_common/ngx_comm_shm.c:436-447 | two segments get the same key if and only if the comparison function says so and their hashes pick the same bucket |
| `PathTrie.KeyIsCaseFolding` | modules/mod_common/ngx_comm_string.c:84-90 | for segments without zero bytes, same key means equal up to case |
| `PathTrie.PrefixIsCaseFolding` | modules/mod_common/ngx_comm_shm.c:547-615 | for paths without zero bytes, one path is a prefix of another for the search if and only if its lower-cased segments are |
| `PathTrie.CaseOfALetter` | modules/mod_common/ngx_comm_string.c:84-90 | two bytes are told apart unless they are the two cases of a letter |
| `PathTrie.SlashesIgnored` | modules/mod_common/ngx_comm_shm.c:482-491 | a path means the same with or without one slash in front and one behind |
| `PathTrie.SegmentsJoin` | modules/mod_common/ngx_comm_shm.c:482-493 | a path has up to 64 segments, without slashes, which joined again are the path when there are fewer |
| `PathTrie.EmptySegments` | modules/mod_common/ngx_comm_shm.c:482-493 | a second slash in front or behind is an empty segment |
| `PathTrie.LongestPrefixMeans` | modules/mod_common/ngx_comm_shm.c:547-615 | the specification answers the data of a registered prefix such that no longer one has any |
| `PathTrie.WalkEndsAtItsPath` | modules/mod_common/ngx_comm_shm.c:436-545 | in the node graph a node is reached by its own path only |
| `PathTrie.NodeLinked` | modules/mod_common/ngx_comm_shm.c:515-533 | linking a fresh node keeps every walk and every answer and makes it the child for its key |
| `PathTrie.DataStored` | modules/mod_common/ngx_comm_shm.c:538-544 | storing data changes the answer for one path and no other |
| `PathTrie.Trie.Calloc` | modules/mod_common/ngx_comm_shm.c:50-63 | allocation succeeds if and only if the pool has the bytes, and marks the pool when it does not |
| `PathTrie.Trie.HashGet` | modules/mod_common/ngx_comm_shm.c:256-286 | the hash lookup finds the child with the segment's key, or none |
| `PathTrie.Trie.EnsureTable` | modules/mod_common/ngx_comm_shm.c:508-513 | creating a table, or failing to for lack of pool memory, changes no walk |
| `PathTrie.Trie.NewChild` | modules/mod_common/ngx_comm_shm.c:515-533 | a new child is found under its key and costs its node, text and link; failing at any of the allocations keeps every walk, and means the pool was smaller than that |
| `PathTrie.Trie.Add` | modules/mod_common/ngx_comm_shm.c:468-545 | an add registers the data for the path, or runs out of pool memory and registers nothing; it succeeds when the pool has room for a table, a node with its text and a link per segment, and never takes more |
| `PathTrie.Trie.Search` | modules/mod_common/ngx_comm_shm.c:547-615 | after any adds, the answer is the data of the longest registered case-insensitive segment prefix, else the root's |
| `PoolAlloc.InsideIffEndAligned` | modules/ngx_debug_pool/ngx_palloc.c:221-247 | the unsigned test keeps every series of requests inside the block if and only if the block ends on an aligned address |
| `PoolAlloc.UnalignedEndBreaks` | modules/ngx_debug_pool/ngx_palloc.c:229-240 | for every block with an unaligned end, filling it and asking for one aligned byte leaves it |
| `PoolAlloc.FitsIff` | modules/ngx_debug_pool/ngx_palloc.c:229-240 | in a block with an aligned end the unsigned test passes if and only if the next place, rounded up when asked, leaves room for the request |
| `PoolAlloc.FindRoom` | modules/ngx_debug_pool/ngx_palloc.c:221-246 | the scan stops at the first block from current on that has room, and past the end if and only if none has |
| `PoolAlloc.SkipHeuristic` | modules/ngx_debug_pool/ngx_palloc.c:250-288 | failed never exceeds 6, is 6 exactly before current, never rises along the chain; N blocks after N - 1 growths have current at max(0, N - 7) |
| `PoolAlloc.CountFailures` | modules/ngx_debug_pool/ngx_palloc.c:279-283 | the counting loop changes only the counters and keeps that shape for one more block |
| `PoolAlloc.LiveAllocationsDisjoint` | modules/ngx_debug_pool/ngx_palloc.c:195-395 | any two live allocations of a valid pool, small or large, are disjoint |
| `PoolAlloc.Pool.constructor` | modules/ngx_debug_pool/ngx_palloc.c:62-105 | a new pool has one block, empty behind the pool header, adds its size and itself to the statistics, and takes the next ledger entry |
| `PoolAlloc.Pool.PallocSmall` | modules/ngx_debug_pool/ngx_palloc.c:221-247 | a small request is carved off the first block from current on that has room, at its end, rounded up when asked, and no other block changes; a new block serves it if and only if none has room, and it fails only if there is no memory for that; at most 7 blocks are scanned in a pool that was never reset |
| `PoolAlloc.Pool.PallocBlock` | modules/ngx_debug_pool/ngx_palloc.c:250-288 | growing appends a block with the request behind its header, changes the others in their failure counts only and charges the statistics; failure changes nothing |
| `PoolAlloc.Pool.PallocLarge` | modules/ngx_debug_pool/ngx_palloc.c:291-340 | a large request is recorded in the first freed record among the first five or, if there is none, in a new one at the front, and charged; it fails if and only if there is no memory for it or for the new record; every live small allocation stays |
| `PoolAlloc.Pool.Pmemalign` | modules/ngx_debug_pool/ngx_palloc.c:343-370 | aligned memory is recorded at the front of the large list; it fails if and only if there is no memory for it or for the record; every live small allocation stays |
| `PoolAlloc.Pool.Palloc` | modules/ngx_debug_pool/ngx_palloc.c:195-218 | requests up to the maximum are served as small ones, larger ones as large; earlier allocations stay live and the ledger entry is the pool's footprint |
| `PoolAlloc.Pool.Pfree` | modules/ngx_debug_pool/ngx_palloc.c:373-395 | frees if and only if the address is one of the large records, and refunds exactly what it holds; NULL matches an empty record and refunds nothing |
| `PoolAlloc.Pool.Reset` | modules/ngx_debug_pool/ngx_palloc.c:169-192 | all allocations end, the blocks stay and are empty, only their bytes stay charged |
| `PoolAlloc.Pool.Destroy` | modules/ngx_debug_pool/ngx_palloc.c:108-166 | the pool's ledger entry ends at 0, not alive |
| `PoolAlloc.StatConservation` | modules/ngx_debug_pool/ngx_palloc.c:62-192 | a stat's size is the sum over its live pools of block bytes and live large bytes, and cnum the number of live pools |
| `PoolAlloc.CreatePool` | modules/ngx_debug_pool/ngx_palloc.c:62-105 | creating a pool keeps every pool accounted for, the new one included |
| `PoolAlloc.UsePool` | modules/ngx_debug_pool/ngx_palloc.c:108-395 | every operation on any live pool, allocation, free, reset and destroy, keeps all pools accounted for, changes no other pool's ledger entry and ends the pool only by destroying it, so with CreatePool the conservation holds through whole runs |
| `PoolAlloc.TwoPools` | modules/ngx_debug_pool/ngx_palloc.c:62-395 | such a run: two pools are created, one is used and reset while the other is destroyed, and the stat ends up charged with exactly the first one's bytes and one pool more |
| `DubboDecoder.NetworkOrder` | modules/mod_dubbo/ngx_dubbo.c:345-346 | on either kind of host, loading and converting gives the network-order number |
| `DubboDecoder.SwapMacroReverses` | modules/mod_dubbo/ngx_dubbo.h:18-25 | of an unsigned word the swap macro reverses the bytes |
| `DubboDecoder.SignedSwapMacro` | modules/mod_dubbo/ngx_dubbo.h:18-25 | of a negative signed word it keeps only the top byte, below ones |
| `DubboDecoder.MacroIsSwap` | modules/mod_dubbo/ngx_dubbo.h:18-25 | of any unsigned word the macro, bit by bit, is the byte reversal the decoder is modelled with |
| `DubboDecoder.MacroIsHton64` | modules/mod_dubbo/ngx_dubbo.h:18-25 | of any signed word, negative ones included, it is the conversion the ping id goes through |
| `DubboDecoder.FramesConcat` | modules/mod_dubbo/ngx_dubbo.c:318-398 | parsing a stream can be interrupted anywhere and resumed from its rest |
| `DubboDecoder.WiresParse` | modules/mod_dubbo/ngx_dubbo.c:318-398 | parsing undoes writing: frames written one after the other, header fields in place and numbers in network order, parse to themselves |
| `DubboDecoder.StreamIsWires` | modules/mod_dubbo/ngx_dubbo.c:318-398 | writing undoes parsing: any stream is its frames written out, followed by its rest |
| `DubboDecoder.Decoder.StepHeader` | modules/mod_dubbo/ngx_dubbo.c:337-358 | the header state takes exactly the missing bytes, or all there are, and then has the numbers in host order |
| `DubboDecoder.Decoder.StepPayload` | modules/mod_dubbo/ngx_dubbo.c:359-391 | the payload state finishes the first frame of the stream, or keeps all of it as the frame in progress |
| `DubboDecoder.Decoder.DecodeResponse` | modules/mod_dubbo/ngx_dubbo.c:318-398 | one call takes the first frame off what is pending and available, or makes all of it pending |
| `DubboDecoder.Decoder.Feed` | modules/mod_dubbo/ngx_http_dubbo_module.c:1308-1330 | the caller's loop yields all frames of the pending bytes and one buffer, and keeps the rest; it fails only when a payload finds no memory, and has then handed out a prefix of the frames with every frame for which there was memory |
| `DubboDecoder.Decoder.FeedAll` | modules/mod_dubbo/ngx_dubbo.c:318-398 | chunk independence: however a stream is cut into buffers, the frames are those of the whole stream; whenever memory runs out, they are a prefix of those with every frame for which there was memory |
| `DubboDecoder.PingRoundTrip` | modules/mod_dubbo/ngx_dubbo.c:244-295 | a ping is one frame with the null payload; its id comes back if and only if the host is big-endian, the id is not negative, or its low seven bytes are all ones |
| `DubboDecoder.NegativeIdLost` | modules/mod_dubbo/ngx_dubbo.c:244-295 | on a little-endian host the id -2 comes back as another one |
| `DubboDecoder.Pinger.EncodePingRequest` | modules/mod_dubbo/ngx_dubbo.c:244-295 | every ping carries the next id, wrapping around at 64 bits, with the protocol's magic, flags and status; the id decodes to itself under exactly that condition |
| `BlockCache.SearchFinds` | modules/ngx_http_tfs_module/ngx_http_tfs_local_block_cache.c:128-175 | in a sorted tree the search finds a node with the key if and only if there is one, hash collisions included |
| `BlockCache.InsertLeafSplits` | modules/ngx_http_tfs_module/ngx_http_tfs_local_block_cache.c:70-106 | the descent puts the node after all that are not above it and before all that are, whatever the keys |
| `BlockCache.InsertConsistent` | modules/ngx_http_tfs_module/ngx_http_tfs_local_block_cache.c:188-235 | after insertion and any rebalancing the tree is sorted and tree and queue hold the same nodes |
| `BlockCache.DeleteConsistent` | modules/ngx_http_tfs_module/ngx_http_tfs_local_block_cache.c:318-330 | so they do after deleting a node from both |
| `BlockCache.TouchConsistent` | modules/ngx_http_tfs_module/ngx_http_tfs_local_block_cache.c:158-159 | so they do after moving a node to the head of the queue |
| `BlockCache.StoredExact` | modules/ngx_http_tfs_module/ngx_http_tfs_local_block_cache.c:225-227 | an address list reads back exactly, whatever the slab held, if and only if it has at most 31 addresses |
| `BlockCache.StoredWords` | modules/ngx_http_tfs_module/ngx_http_tfs_local_block_cache.c:225-227 | word by word what is handed out: the length in two bytes, the copied words in one, the slab behind them |
| `BlockCache.OlderNodeWins` | modules/ngx_http_tfs_module/ngx_http_tfs_local_block_cache.c:70-106 | before rebalancing, a search answers with the new node if and only if its key was not there |
| `BlockCache.SearchDecides` | modules/ngx_http_tfs_module/ngx_http_tfs_local_block_cache.c:109-185 | the search decides whether the key is cached and answers with a node that caches it |
| `BlockCache.TouchedMoves` | modules/ngx_http_tfs_module/ngx_http_tfs_local_block_cache.c:158-175 | a hit moves the node found to the head and leaves the others in their order; a miss does nothing |
| `BlockCache.InsertedIsFound` | modules/ngx_http_tfs_module/ngx_http_tfs_local_block_cache.c:188-235 | a node inserted under a fresh key is the one found, however the tree is rebalanced |
| `BlockCache.InsertedIsFoundIff` | modules/ngx_http_tfs_module/ngx_http_tfs_local_block_cache.c:70-235 | every rebalancing finds the new node if and only if no node cached its key |
| `BlockCache.Cache.constructor` | modules/ngx_http_tfs_module/ngx_http_tfs_local_block_cache.c:15-67 | a new cache is empty and valid |
| `BlockCache.Cache.FindNode` | modules/ngx_http_tfs_module/ngx_http_tfs_local_block_cache.c:128-175 | the descent loop computes the search |
| `BlockCache.Cache.Lookup` | modules/ngx_http_tfs_module/ngx_http_tfs_local_block_cache.c:109-185 | declined if and only if the key is not cached; a hit returns the value of the node the search finds, moves it to the head and counts; nothing changes when the answer cannot be allocated |
| `BlockCache.Cache.BatchLookup` | modules/ngx_http_tfs_module/ngx_http_tfs_local_block_cache.c:337-443 | answers and order of use are those of looking the keys up one by one (`LookupAll`); all-hit, some-missed and the error for an empty batch or a failed allocation |
| `BlockCache.Cache.LookupAll` | modules/ngx_http_tfs_module/ngx_http_tfs_local_block_cache.c:109-185 | a loop of single lookups gives the same answers and the same order of use as the batch lookup |
| `BlockCache.Cache.Discard` | modules/ngx_http_tfs_module/ngx_http_tfs_local_block_cache.c:297-334 | drops the 10000 nodes at the end of the queue, or all, from both structures; every node kept was used after every node dropped |
| `BlockCache.Cache.Insert` | modules/ngx_http_tfs_module/ngx_http_tfs_local_block_cache.c:188-235 | fails only when both slab attempts fail; the new node, which may reuse memory the discard has freed, heads the queue in front of what the discard kept, and is found when none of those has its key |
| `RtRing.WindowSplit` | modules/ngx_http_sysguard_module/ngx_http_sysguard_module.c:346-348 | the totals of a stretch of seconds are the sum of the totals of its parts |
| `RtRing.WindowSnoc` | modules/ngx_http_sysguard_module/ngx_http_sysguard_module.c:424-426 | one more request adds its seconds, milliseconds and itself to the totals of every stretch that holds its second, and to no other |
| `RtRing.AdvanceRefines` | modules/ngx_http_sysguard_module/ngx_http_sysguard_module.c:403-418 | moving on by any number of seconds, across the wrap and skipped seconds, keeps the ring a picture of the log |
| `RtRing.CountRefines` | modules/ngx_http_sysguard_module/ngx_http_sysguard_module.c:424-426 | counting a request into the current slot is appending it to the log |
| `RtRing.OldestSecondLeftOut` | modules/ngx_http_sysguard_module/ngx_http_sysguard_module.c:316-355 | the loop counts every request of the period if and only if none completed in its oldest second; with one slot it counts nothing |
| `RtRing.OldestRequestMissed` | modules/ngx_http_sysguard_module/ngx_http_sysguard_module.c:316-355 | a request of second 9 is missing from the two seconds that end with second 10 |
| `RtRing.Ring.constructor` | modules/ngx_http_sysguard_module/ngx_http_sysguard_module.c:758-775 | a new ring pictures the empty log |
| `RtRing.Ring.UpdateRtNode` | modules/ngx_http_sysguard_module/ngx_http_sysguard_module.c:377-427 | the log grows by the request, and the current slot is the current second's |
| `RtRing.Ring.SumSlots` | modules/ngx_http_sysguard_module/ngx_http_sysguard_module.c:316-355 | the loop sums exactly the log's requests of the nr_slots - 1 seconds that end at the current slot's |
| `RtRing.Mean` | modules/ngx_http_sysguard_module/ngx_http_sysguard_module.c:357-369 | the floor of the mean in milliseconds, 0 for a negative sum |
| `RtRing.Ring.UpdateRt` | modules/ngx_http_sysguard_module/ngx_http_sysguard_module.c:299-374 | cached_rt is the floor of their mean latency, 0 without requests, with a negative sum or with a period of one second |
| `ConnectTunnel.PumpFifo` | modules/ngx_http_proxy_connect_module/ngx_http_proxy_connect_module.c:706-769 | whatever the sockets answer, bytes received = bytes sent ++ bytes buffered, and the buffer never overflows |
| `ConnectTunnel.RoundExact` | modules/ngx_http_proxy_connect_module/ngx_http_proxy_connect_module.c:706-769 | a round sends the front of what is pending, as much as the destination takes, then receives the front of what the source offers, as much as fits; what ends or fails it, exactly |
| `ConnectTunnel.ReadyDelivers` | modules/ngx_http_proxy_connect_module/ngx_http_proxy_connect_module.c:706-769 | between ready sockets every byte of every chunk gets through, in order, and nothing stays behind |
| `ConnectTunnel.RunLoop` | modules/ngx_http_proxy_connect_module/ngx_http_proxy_connect_module.c:706-769 | the loop computes that run |
| `ConnectTunnel.RunDrain` | modules/ngx_http_proxy_connect_module/ngx_http_proxy_connect_module.c:580-625 | the response loop sends a prefix and reports done only when all is out |
| `ConnectTunnel.DrainSplits` | modules/ngx_http_proxy_connect_module/ngx_http_proxy_connect_module.c:580-625 | whatever the sends answer, sent bytes and the rest make up the response, and done means no rest |
| `ConnectTunnel.DrainDone` | modules/ngx_http_proxy_connect_module/ngx_http_proxy_connect_module.c:578-600 | a client that takes a byte at each send has the whole response after as many sends as it has bytes |
| `ConnectTunnel.DrainStops` | modules/ngx_http_proxy_connect_module/ngx_http_proxy_connect_module.c:600-625 | a send that would block or fails ends the attempt with nothing more sent, and only the latter is a failure |
| `ConnectTunnel.ConfiguredResponse` | modules/ngx_http_proxy_connect_module/ngx_http_proxy_connect_module.c:560-625 | a configured response restarts, so the client has exactly it if and only if earlier attempts sent nothing |
| `ConnectTunnel.ResponseRestarts` | modules/ngx_http_proxy_connect_module/ngx_http_proxy_connect_module.c:560-625 | a tunnel whose client gets the first byte of a configured response twice |
| `ConnectTunnel.LeftoverByteStays` | modules/ngx_http_proxy_connect_module/ngx_http_proxy_connect_module.c:684-688 | the header buffer can be left with a byte when the client has ended |
| `ConnectTunnel.GoUpOk` | modules/ngx_http_proxy_connect_module/ngx_http_proxy_connect_module.c:679-769 | any run of the loop towards the upstream keeps client bytes = bytes sent ++ header buffer ++ own buffer, only appends to the streams, remembers the client's end, and uses a buffer of the configured size |
| `ConnectTunnel.GoDownOk` | modules/ngx_http_proxy_connect_module/ngx_http_proxy_connect_module.c:672-769 | any run of the loop towards the client keeps upstream bytes = bytes relayed ++ buffer, only appends to the streams, and remembers the upstream's end |
| `ConnectTunnel.HeaderBytesFirst` | modules/ngx_http_proxy_connect_module/ngx_http_proxy_connect_module.c:679-700 | no new byte is taken into the header buffer before all that was left in it has been sent |
| `ConnectTunnel.Tunnel.constructor` | modules/ngx_http_proxy_connect_module/ngx_http_proxy_connect_module.c:2347-2363 | the exchange starts with the leftover bytes received and nothing sent |
| `ConnectTunnel.Tunnel.RelayUp` | modules/ngx_http_proxy_connect_module/ngx_http_proxy_connect_module.c:648-805 | client bytes go through the header buffer first, then the tunnel's own, first in, first out across the switch; the other direction and its buffer do not change; a failed send breaks the tunnel, the closing test ends it, a failed event registration breaks it, and otherwise it stays open |
| `ConnectTunnel.Tunnel.RelayDown` | modules/ngx_http_proxy_connect_module/ngx_http_proxy_connect_module.c:648-805 | upstream bytes are relayed first in, first out, and the other direction and its buffers do not change; it ends as relaying the other way does |
| `ConnectTunnel.Tunnel.SendEstablished` | modules/ngx_http_proxy_connect_module/ngx_http_proxy_connect_module.c:534-645 | each attempt sends a prefix of what is left; a configured response starts over, so the client got exactly it if and only if earlier attempts sent nothing; client bytes are relayed at once when some are waiting, and not before the response is out |
| `ConnectTunnel.Tunnel.OnUpstreamWritable` | modules/ngx_http_proxy_connect_module/ngx_http_proxy_connect_module.c:912-963 | a timeout or a failed connect breaks the tunnel without moving a byte; otherwise the response starts, nothing moves while it is on its way, and client bytes are relayed after it; both peers' streams only grow, and a response that is out stays as it was |
| `ConnectTunnel.Tunnel.OnUpstreamReadable` | modules/ngx_http_proxy_connect_module/ngx_http_proxy_connect_module.c:855-909 | nothing moves before the response is out; after it upstream bytes are relayed through the buffer allocated on first use |
| `ConnectTunnel.Tunnel.OnClientReadable` | modules/ngx_http_proxy_connect_module/ngx_http_proxy_connect_module.c:808-829 | before the response is out nothing moves; after it client bytes are relayed, and the client is sent nothing |
| `ConnectTunnel.Tunnel.OnClientWritable` | modules/ngx_http_proxy_connect_module/ngx_http_proxy_connect_module.c:832-852 | resumes the response while it is on its way, relays upstream bytes after it; a timeout breaks the tunnel; a response that is out stays as it was |
| `ConnectTunnel.Tunnel.TunnelIsTransparent` | modules/ngx_http_proxy_connect_module/ngx_http_proxy_connect_module.c:898-909 | in every state each side has been sent a prefix of what the other sent, nothing before the response is fully out, and the client first got the response, the default one unless one was configured |
| `ConnectTunnel.Tunnel.ClosingDelivers` | modules/ngx_http_proxy_connect_module/ngx_http_proxy_connect_module.c:773-783 | a closed tunnel has delivered the upstream's bytes if and only if none wait, and some wait only if the client ended; the client's bytes if and only if none wait in either buffer, and some wait only if the upstream ended or the header buffer holds them |
| `ConnectTunnel.Tunnel.OpenGoesOn` | modules/ngx_http_proxy_connect_module/ngx_http_proxy_connect_module.c:773-805 | in an open tunnel one side has not ended, and a side that has still has bytes on their way |
| `ConnectTunnel.LeftoverLost` | modules/ngx_http_proxy_connect_module/ngx_http_proxy_connect_module.c:684-783 | a tunnel that closes with the client's last byte in the header buffer, although the upstream has not ended |
| `ConnectTunnel.UpstreamBytesLost` | modules/ngx_http_proxy_connect_module/ngx_http_proxy_connect_module.c:773-783 | a tunnel that closes with an upstream byte undelivered, because the client ended |
| `ConnectTunnel.ClientBytesLost` | modules/ngx_http_proxy_connect_module/ngx_http_proxy_connect_module.c:773-783 | a tunnel that closes with a client byte in its own buffer, because the upstream ended |
| `KeepalivePool.EachItemOnce` | modules/ngx_http_tfs_module/ngx_http_connection_pool.c:46-58 | in a bucket every item is in exactly one of the two queues, once |
| `KeepalivePool.ReleaseOk` | modules/ngx_http_tfs_module/ngx_http_connection_pool.c:107-108 | moving an item to the free queue keeps the bucket's partition and order, and its connection is parked there no more |
| `KeepalivePool.ParkOk` | modules/ngx_http_tfs_module/ngx_http_connection_pool.c:182-222 | parking in the first free item keeps them, the new connection first |
| `KeepalivePool.AllItems` | modules/ngx_http_tfs_module/ngx_http_connection_pool.c:55-57 | the filling loop puts every item into the free queue once |
| `KeepalivePool.EvictedIsOldest` | modules/ngx_http_tfs_module/ngx_http_connection_pool.c:182-195 | only a bucket without a free item gives a connection up: the one parked longest; the others stay in their order |
| `KeepalivePool.Pool.constructor` | modules/ngx_http_tfs_module/ngx_http_connection_pool.c:20-63 | a new pool is valid and has nothing parked |
| `KeepalivePool.Pool.FirstFor` | modules/ngx_http_tfs_module/ngx_http_connection_pool.c:96-106 | the search finds the first slot with exactly that address |
| `KeepalivePool.Pool.FirstIsLatest` | modules/ngx_http_tfs_module/ngx_http_connection_pool.c:96-125 | that slot holds the connection to the address that was parked last, over all buckets |
| `KeepalivePool.Pool.Get` | modules/ngx_http_tfs_module/ngx_http_connection_pool.c:66-128 | succeeds if and only if a connection to exactly that address is parked, returns the one parked last, which nobody else holds; its slot alone leaves the queue and nothing else changes |
| `KeepalivePool.Pool.MakeRoom` | modules/ngx_http_tfs_module/ngx_http_connection_pool.c:182-195 | a full bucket closes the connection parked longest and frees its item; otherwise nothing changes |
| `KeepalivePool.Pool.FreePeer` | modules/ngx_http_tfs_module/ngx_http_connection_pool.c:131-227 | parks if and only if there is a connection, nothing failed and it is sound; the bucket is then exactly the old one with its oldest connection closed if it was full and the new one in front, or taken out again when the last test says so; other buckets do not change |
| `KeepalivePool.Pool.CloseHandler` | modules/ngx_http_tfs_module/ngx_http_connection_pool.c:230-271 | a stale event changes nothing; otherwise the connection is closed and its item is free |
| `KeepalivePool.ParkedComesBack` | modules/ngx_http_tfs_module/ngx_http_connection_pool.c:66-227 | taking out what was parked last restores the bucket as it was when room had been made |
| `KeepalivePool.ParkThenGet` | modules/ngx_http_tfs_module/ngx_http_connection_pool.c:66-227 | a parked connection comes back to the next get for its address, and the pool is as before but for the eviction |
| `KeepalivePool.LastInFirstOut` | modules/ngx_http_tfs_module/ngx_http_connection_pool.c:66-227 | two connections parked for one address come back in reverse order, and the pool is as before |
| `TwoSlot.StepInv` | modules/mod_strategy/ngx_proc_strategy_module.c:369-433 | every step of the callback and of any reader keeps the invariant |
| `TwoSlot.ReadersSeeWholeUpdates` | modules/mod_strategy/ngx_proc_strategy_module.c:322-504 | in every reachable state the slot being updated is not the current one, readers get nothing or the data switched to last, and what a reader holds stays unmodified until an update begins after a switch |
| `TwoSlot.QuietRun` | modules/mod_strategy/ngx_proc_strategy_module.c:401-409 | without a successful update nothing changes for readers, however many updates fail |
| `TwoSlot.UpdateIsServed` | modules/mod_strategy/ngx_proc_strategy_module.c:369-433 | from any idle state a callback with something new and a good update makes readers get exactly the new data, and leaves the slot they had as it was |
| `TwoSlot.NoUpdateNoChange` | modules/mod_strategy/ngx_proc_strategy_module.c:385-409 | one without anything new, or with a failed update, changes nothing for readers |
| `TwoSlot.FetchGets` | modules/mod_strategy/ngx_proc_strategy_module.c:486-504 | what a reader fetches is what there is to get |
| `TwoSlot.NewestIsServed` | modules/mod_strategy/ngx_proc_strategy_module.c:322-367 | between switches readers get the newest data if and only if a callback has updated a slot, or the start left slot 1 without newer data |
| `TwoSlot.StaleAfterStart` | modules/mod_strategy/ngx_proc_strategy_module.c:322-367 | a start-up after which readers get older data than the newest |
| `Primes.SmallDivisor` | modules/mod_common/ngx_comm_math.c:28-34 | a composite number has a divisor no larger than its square root |
| `Primes.IsPrime` | modules/mod_common/ngx_comm_math.c:19-37 | trial division up to the square root decides primality |
| `Primes.PrimeAbove` | modules/mod_common/ngx_comm_math.c:40-51 | above every number there is a prime (Euclid's argument), which bounds the search |
| `Primes.GenerateGreaterPrime` | modules/mod_common/ngx_comm_math.c:40-51 | the search ends with the least prime not below n |

## Left out

- TfsReadPlan.GetSegmentForRead: is stated for tables whose rows follow each other from offset 0, which is what the write path stores (`TfsReadPlan.UploadedIsStored`), with at most 2^30 rows and a range that ends below 2^63; an empty range is rejected before the planner is called. Parsing a received table and allocation failures are not part of this model.
- TfsReadPlan.FindSegment: is stated for at most 2^30 rows, where the 32-bit midpoint cannot overflow.
- TfsReadPlan.StartRow: is stated for ascending tables of at most 2^30 rows, because in other tables the search finds no particular row.
- TfsReadPlan.EndRow: is stated for the same tables.
- TfsReadPlan.PlanRows: is stated for tables without gaps, because the source has no answer for a range with a gap: it reads the rows on both sides as if they met.
- TfsReadPlan.PlanRange: is stated for the same tables.
- TfsSegments.SendBody.GetSegmentForWrite: allocation failures, the copy kept for retries and segment data left over from an earlier attempt are not part of this model.
- TfsFileHoles.File.Visit: is stated for a fragment that asks for no more than what is left of the range.
- TfsFileHoles.File.CheckFileHole: is stated for fragments that never ask for more than what is left of the range (`Fits`); otherwise the unsigned length wraps around.
- TfsBatch.TurnsAndWakeups: covers reads; the write action and its rollback, failure to allocate a sub-request and the file-hole filler are not part of this model, and retries inside one sub-request are one step.
- TfsBatchProgress.BatchCanEnd: says that a batch can end, not that it will, because a server or the client may stay silent; timers are not part of this model.
- TfsBatch.OutputInOrder: does not claim absence of gaps after a sub-request has failed, because the overflow path sends without looking at the parent's failure count.
- LocklessHash.LocklessSafety: stores and loads are single steps in program order; reordering by the hardware is not modelled.
- PathTrie.Trie.Calloc: a pool allocation is a byte count; its address and the zeroing are not modelled.
- PathTrie.Trie.Add: hash deletion, arrays and string helpers of the library are left out.
- PoolAlloc.Pool.constructor: requires an aligned size, without which blocks do not end on an aligned address (`PoolAlloc.InsideIffEndAligned`); the lookup of the per-function record, `ngx_prealloc`, cleanup handlers, block caching and sizes near 2^64 are left out.
- DubboDecoder.Decoder.Feed: says nothing of the decoder's state after a failed allocation, on which the caller gives up with an error.
- DubboDecoder.Decoder.DecodeResponse: reads one buffer, as its only caller passes; request encoding is left out.
- DubboDecoder.Pinger.EncodePingRequest: takes the increment of the signed counter to wrap around, which C leaves open.
- BlockCache.Cache.Insert: the tree is a value, so update of its links in place and red-black colours are not modelled; rebalancing may return any tree with the same nodes in the same order. `remove`, the remote cache and the choice between the two are left out.
- RtRing.Ring.UpdateRtNode: is stated for a clock that does not go back, and sums do not overflow.
- ConnectTunnel.Tunnel.OnClientReadable: detection of a broken client connection before the response is out, delayed (rate-limited) reads and timers are left out.
- KeepalivePool.Pool.constructor: excludes a `max_cached` of 0, which the configuration rejects when it is given and with which an eviction has nothing to take; `broken` stands for the five flags of a connection.
- TwoSlot.StepInv: slots are values changed by steps that other processes can see; allocation failures at start-up and `ngx_shm_cal_slab_pool_size` are left out.
- Primes.IsPrime: uses the exact integer square root instead of the floating-point one; shuffling, Java hash keys and the table of bucket sizes are left out.
- Choice of a data server, deletion of segments, `comm_atoll` and the other string helpers, slice, concat, footer, statistics counters and debugging modules: easy members.
- Sockets, events, timers, logging, configuration parsing, JSON, Hessian, xudp and Tair: input/output or libraries; their results are parameters.
