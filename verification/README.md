# Verified model of the threaders services

A Dafny 4.11 model of five parts of the repository, with proofs of what they
keep. `dafny verify dfyconfig.toml` checks everything. Each part has a
specification on values (`SacTable`, `HilolaySpec`, `WireSpec`, `MuseSpec`,
`SuseSpec`), lemmas about single steps and whole runs (`SacTree`, `HilolayRuns`,
`HilolayTime`, `MuseHeap`, `MuseRuns`), and the imperative code itself
(`SacServer`, `Hilolay`, `Wire`, `Muse`, `Suse`): classes, buffers and loops
whose methods are proved equal to the specification.

* **SAC node table** (`SacPath`, `SacTable`, `SacTree`, `SacServer`). Paths are
  NUL-free strings that start with '/', of any shape, so empty components are
  allowed. `split_path` cuts two character buffers in place, `determinar_nodo`
  scans the 1024 entries, `sac_create_directory` fills the first free one. Any
  sequence of requests on an empty table is followed on a plain list of
  directories, names that are too long for their field included.
* **hilolay** (`HilolaySpec`, `HilolayRuns`, `HilolayTime`, `Hilolay`). Thread
  control blocks are linked through their own `next` fields; `swapcontext` is
  the change of `current`. A run is any sequence of yields, creations, returns
  and stops, each with the clock readings it makes.
* **Wire format** (`Bytes`, `WireSpec`, `Wire`). Integers are four little-endian
  bytes; the network is a byte sequence.
* **MUSE** (`MuseHeap`, `MuseSpec`, `MuseRuns`, `Muse`). Frames, page entries and
  a byte memory, of any contents at first, in which headers of five bytes tile
  each segment.
* **SUSE** (`SuseSpec`, `Suse`). The long-term and short-term schedulers.

## Where code and documentation differ

The model follows the code.

* `split_path` keeps the final slash of the upper path ("/home/" and not the
  "/home" of sac_server/src/sac_operate.c:86-87), and its name for a path that
  ends in two slashes is empty.
* `sac_create_directory` does not check that the name fits the 71-byte field. A
  longer name is reported as created; `FoundIffNameFits` says when it can be
  found afterwards, `LongNameIsLost` gives one that cannot, and
  `LostNameIsDoubled` shows that it is then created again. `HistoryRefinesDirs`
  says exactly which histories keep the table a set of directories.
* hilolay/README.md speaks of 50 threads; `MAX_ULTS` is 5000.
* The exponential mean of SUSE always starts from a mean of zero, so the estimate
  is the weight times the burst; `ChoiceByWeight` says what that chooses.
* One pass of the SUSE long-term scheduler skips every second thread, since the
  index moves on over the element that was removed; `LongTermKeepsOrder` says
  exactly when arrival order survives.
* MUSE does not check that the second header of an allocation has room, and its
  walk reads one more header after the last block of a segment, at the segment's
  size, when no block fits. `BoundMattersIff` says when that changes the answer and
  `OrderIffRoom` exactly which requests keep the memory in order.
  `TightPageBreaksTiling` gives a request whose second header has no room.
  `GrantsOverlap` gives two requests of one process, with the sizes of
  muse/muse.config, of which the second is granted bytes outside its segment that
  the next process is granted too; `LaterRequestLeavesSegment` has the general
  case, and `OnlyLastSegmentAtRisk` bounds it to the segment in the last frames.
* A process whose first MUSE request is refused keeps a segment without pages. The
  walk of a later request begins with the first element of that empty list
  (`EmptyHasNoPages`), so the process is never served again
  (`RefusedProcessIsLockedOut`).

muse/src/muse.c does not compile as it stands: two versions of the allocator are
interleaved. The model is this reconstruction: `asignar_dir_memoria` is lines
346-404 followed by the return of line 442 with the first frame as `pagina`,
without the trial walk and the rewritten header of lines 418-431;
`recorer_segmento_espacio_libre` is lines 445-500 followed by 514-530, without
the second copy of its beginning in lines 502-513.

## Model

| member | source | states |
|---|---|---|
| SacServer.SplitPath | sac_server/src/sac_operate.c:98-117 | the two buffers, cut in place, read as the upper path with its slash and as the last component, which together are the path but for a final slash |
| SacPath.SuperPath | sac_server/src/sac_operate.c:98-117 | the upper path is absolute, ends in a slash and is strictly shorter, which ends the recursion of the resolution |
| SacPath.CutIsExact | sac_server/src/sac_operate.c:98-117 | the path is the upper part, the name and at most one slash more |
| SacPath.ParseStep | sac_server/src/sac_operate.c:98-117 | cutting a path takes away exactly the last of the components that lie between its slashes |
| SacPath.ParseYieldsComponents | sac_server/src/sac_operate.c:98-117 | the components of an absolute path hold neither slash nor NUL |
| SacPath.ParseRender | sac_server/src/sac_operate.c:98-117 | every list of components is the parse of its own path, so paths and component lists are interchangeable |
| SacPath.ParseTrailingSlash | sac_server/src/sac_operate.c:103-112 | a trailing slash is idle after a name and adds an empty component after a slash |
| SacServer.NodeTable.FindNode | sac_server/src/sac_operate.c:33-80 | the recursion and the scan, with -1 passing through `int` and `uint32_t`, compute the resolution of the path in the table |
| SacTable.ResolveByFields | sac_server/src/sac_operate.c:64-79 | the answer is the number of the first entry in use with that name and the upper path's number for a parent, or 0xFFFFFFFF if there is none |
| SacTable.ResolveIsWalk | sac_server/src/sac_operate.c:33-80 | resolution of a string is the descent along its components, in any table |
| SacTable.PathOfResolves | sac_server/src/sac_operate.c:64-79 | the chain of parents of a live entry leads back to its number |
| SacTable.ResolvesToPathOf | sac_server/src/sac_operate.c:64-79 | only that chain leads to it |
| SacTable.Bijection | sac_server/src/sac_operate.c:33-117 | a path resolves to entry k's number if and only if its components are k's chain of parents, and k has such a path |
| SacServer.NodeTable.FindFree | sac_server/src/sac_write.c:39-44 | the search whose node lags behind its index finds the first free entry, and reports a full table exactly when there is none |
| SacServer.NodeTable.CreateDirectory | sac_server/src/sac_write.c:12-60 | the new table and the code are those of the specification; on a set of directories they are those of a creation in the list, exactly when it is clean |
| SacTree.Created | sac_server/src/sac_write.c:39-50 | a success writes one entry, the first free one, as an empty directory with the stored name and the resolved parent, and nothing else |
| SacTable.MkdirCodes | sac_server/src/sac_write.c:22-43 | -17 for a path that resolves, -2 if its upper path does not, -122 if all 1024 entries are in use, and 0 otherwise |
| SacTable.MkdirWrites | sac_server/src/sac_write.c:38-50 | a success gives the first free entry state 2, size 0, the upper path's number and the name, which from 71 bytes on is read back as its first 71 and that number's bytes |
| SacTable.ParentBytesEnd | sac_server/src/sac_write.c:47-49 | what is read past the field is the part of the parent's four bytes before their first zero |
| SacTable.ParentBytesOfNumber | sac_server/src/sac_write.c:47-49 | which is nothing for a multiple of 256, and else the number's one or two bytes, the lower one first |
| SacTree.DirsAreWalkable | sac_server/src/sac_operate.c:64-79 | the directories listed are exactly the component lists that lead to a node, each at the place its number says |
| SacTree.NumberIsWalk | sac_server/src/sac_operate.c:64-79 | counting places in the list gives the node number that the table's scans give |
| SacTree.MkdirKeepsDense | sac_server/src/sac_write.c:39-50 | whatever is created, live entries stay a prefix with earlier parents, one longer after a success |
| SacTree.WellFormedIffClean | sac_server/src/sac_write.c:45-50 | a creation leaves a table of proper names without twins if and only if there was one and the stored name is a component its parent does not have yet |
| SacTree.FitsIsClean | sac_server/src/sac_write.c:47 | a name that fits the field is such a one and adds the directory asked for |
| SacTree.WalkAfterCreation | sac_server/src/sac_write.c:45-50 | the added directory leads to the chosen entry and every other descent ends where it did, also those through the new directory |
| SacTree.MkdirThenResolve | sac_server/src/sac_write.c:12-60 | after a success exactly the paths of the added directory change their answer, to the chosen index plus one |
| SacTree.DirsAfterCreation | sac_server/src/sac_write.c:39-50 | existing directories keep their numbers and the added one gets the next |
| SacTree.CleanIffCleanIn | sac_server/src/sac_write.c:45-50 | whether a creation is clean can be told from the list alone |
| SacTree.MkdirRefinesDirs | sac_server/src/sac_write.c:12-60 | a creation leaves a set of directories if and only if it is clean, and is then a creation in the list, with EEXIST, ENOENT, EDQUOT and success in the same cases |
| SacTree.HistoryRefinesDirs | sac_server/src/sac_write.c:12-60 | any sequence of requests on an empty table, with names of any length, leaves a set of directories if and only if every creation was clean, and then gives the codes, contents and numbers of the list |
| SacTree.FittingNamesAreClean | sac_server/src/sac_write.c:12-60 | requests whose names fit the field are always clean |
| SacTree.TrailingSlashIdle | sac_server/src/sac_operate.c:103-112 | an appended slash is idle if and only if the path ends in none or leads nowhere |
| SacTree.FoundIffNameFits | sac_server/src/sac_write.c:47-49 | a created directory can be found if and only if its name fits the field or its excess is what its parent's number puts behind byte 71 |
| SacTree.OneByteTooLong | sac_server/src/sac_write.c:47-49 | a name of 71 bytes is found if and only if its parent's number is a multiple of 256 |
| SacTree.LongNameIsLost | sac_server/src/sac_write.c:47-49 | a 72-byte name is created and not found |
| SacTree.LostNameIsDoubled | sac_server/src/sac_write.c:22-50 | a directory that cannot be found is created a second time, and has a twin from then on |
| HilolaySpec.InitEstablishesInv | hilolay/hilolay.c:6-12 | after the initialization main alone is running |
| HilolaySpec.InitByFields | hilolay/hilolay.c:6-12 | slot 0 runs as thread 0, nobody waits and the next thread is number 1 |
| HilolaySpec.YieldKeepsInv | hilolay/hilolay.c:33-59 | a yield runs the head of the queue, queues a live caller last and restores the invariant, also for a caller that is leaving |
| HilolaySpec.YieldByFields | hilolay/hilolay.c:33-59 | the head runs from the second reading on, the caller is charged up to the first and waits last unless it is free, and no other block changes |
| HilolayRuns.PrepareLaw | hilolay/hilolay.c:16-19 | up to its yield an event queues the created thread only, and frees a thread that finishes while main waits in the queue |
| HilolayRuns.CreateWithoutSlot | hilolay/hilolay.c:92-96 | a creation changes nothing if and only if none of the 5000 blocks is free |
| HilolayRuns.CreateByFields | hilolay/hilolay.c:92-110 | the first free block gets the next number and empty books, runs at once if nobody waited, and else waits right before its creator |
| HilolayRuns.FirstThreadIsOne | hilolay/hilolay.c:89-111 | the first created thread is number 1 in slot 1 and runs while main waits |
| HilolayRuns.EndByFields | hilolay/hilolay.c:16-23 | a thread that returns or stops frees its block, charged with its burst once or twice, and the head runs |
| HilolayRuns.StepLaw | hilolay/hilolay.c:16-111 | for every event exactly the current thread is running, the queue holds exactly the ready ones without repeats, and the queue moves by one dispatch |
| HilolayRuns.StepConservesLive | hilolay/hilolay.c:16-111 | the live threads change by the one created or the one finished and by no other |
| HilolayRuns.ReturnNeverComesBack | hilolay/hilolay.c:16-23 | a returning thread is always replaced and its slot is free, so the code after its last yield is not reached |
| HilolayRuns.MainWaitsForAll | hilolay/hilolay.c:25-27 | main's loop ends exactly when no other thread is live |
| HilolayRuns.RunIsLawful | hilolay/hilolay.c:16-111 | every state of every run satisfies the invariant and every step the law of the queue |
| HilolayRuns.DispatchedInTurn | hilolay/hilolay.c:33-59 | the thread at position k moves up one place per dispatch and is the one chosen by dispatch k + 1, whatever happens meanwhile |
| HilolayRuns.AheadRunsFirst | hilolay/hilolay.c:62-72 | no queued thread runs before those ahead of it |
| HilolayRuns.CreatedRunsBeforeCreatorResumes | hilolay/hilolay.c:101-110 | by the time a successful creation returns to its caller the created thread has run |
| HilolayRuns.FreedRunsOnlyIfReused | hilolay/hilolay.c:92-102 | a free slot is live later only if a creation took it in between |
| HilolayTime.SumAfterStep | hilolay/hilolay.c:203-207 | a step books exactly the burst it ends, and a finished thread's time leaves the books with it |
| HilolayTime.TimeAccounted | hilolay/hilolay.c:203-207 | under a monotone clock each live thread's time is the sum of its own bursts, each counted once; no two bursts overlap; and all times with the current burst fit in the time since the start |
| HilolayTime.StopPrintsEachBurstOnce | hilolay/hilolay.c:75-80 | the printed total counts each burst once and the printed last burst is the one just ended; the discarded block is left with it counted twice |
| Hilolay.Library.constructor | hilolay/hilolay.c:6-12 | the pool and main's block are in the initial state |
| Hilolay.Library.Enqueue | hilolay/hilolay.c:127-143 | the pointers stand for the old queue with the block at its end, also when the stale tail of an empty queue is overwritten |
| Hilolay.Library.GetNext | hilolay/hilolay.c:62-72 | the head of the queue is returned and the pointers stand for the rest |
| Hilolay.Library.SummarizeBurst | hilolay/hilolay.c:203-207 | the current block is charged with the time since its burst began |
| Hilolay.Library.Yield | hilolay/hilolay.c:33-59 | the pointer code performs the specified yield and reports whether there was somebody to yield to |
| Hilolay.Library.FindFree | hilolay/hilolay.c:92-99 | the scan of the pool finds its first free block or its end |
| Hilolay.Library.Create | hilolay/hilolay.c:89-111 | the pointer code performs the specified creation and yield, or nothing and an error code when the pool is full |
| Hilolay.Library.Return | hilolay/hilolay.c:16-28 | the pointer code performs the specified return, its assertion holds, and main exits exactly when alone |
| Hilolay.Library.Stop | hilolay/hilolay.c:75-80 | the pointer code performs the specified stop and prints the specified total |
| WireSpec.PayloadAppend | shared-common/common/utils.c:92-100 | appending a field to a buffer lays out the longer list of fields |
| WireSpec.FieldsOfPayload | shared-common/common/utils.c:437-459 | parsing a layout gives back the fields, in order |
| WireSpec.PayloadOfFields | shared-common/common/utils.c:437-459 | every framed byte string is the layout of the fields parsed from it |
| WireSpec.PackageSize | shared-common/common/utils.c:108-112 | a package has 8 bytes and four more per field than its contents |
| Bytes.Le32Digits | shared-common/common/utils.c:92-100 | the four bytes of an integer are its digits to the base 256, the lowest first |
| WireSpec.FromFieldsOf | shared-common/common/utils.c:265-330 | the fields of a message are read back as that message, for all values |
| WireSpec.MallocBytes | shared-common/common/utils.c:122-131 | a request for memory is 1, 16, 4, size, 4, identifier, and is received as such |
| WireSpec.MemFreeBytes | shared-common/common/utils.c:132-141 | a release is 2, 16, 4, address, 4, identifier, and is received as such |
| WireSpec.GetBytes | shared-common/common/utils.c:142-152 | a read is 4, 24, 4, address, 4, identifier, 4, size, and is received as such |
| WireSpec.CopyMessageBytes | shared-common/common/utils.c:153-171 | a copy is 3, 28 and the contents' length, 4, address, 4, identifier, 4, length, length, contents, and is received as such |
| WireSpec.MallocOkBytes | shared-common/common/utils.c:172-179 | an answer to a request is 8, 8, 4, pointer, and is received as such |
| WireSpec.FreeResponseBytes | shared-common/common/utils.c:190-197 | an answer to a release is 9, 8, 4, result, and is received as such |
| WireSpec.MessageByPlace | shared-common/common/utils.c:274-330 | each message but a copy is read off the fixed places of its words, whatever fields follow |
| WireSpec.CopyByPlace | shared-common/common/utils.c:303-316 | a copy is read off the places of its words, and its contents off the 28th byte on |
| WireSpec.DecodeByPlace | shared-common/common/utils.c:427-459 | decoding takes the code, the size and that many bytes off the stream and leaves the rest |
| WireSpec.DecodeEncode | shared-common/common/utils.c:117-330 | whatever follows an encoded message, decoding gives it back and stops on the first byte after it |
| WireSpec.EncodeDecode | shared-common/common/utils.c:117-330 | the bytes consumed are the encoding of the message decoded, unless there were fields the receiver ignores |
| WireSpec.DecodeAllEncodeAll | shared-common/common/utils.c:117-330 | any list of messages is decoded from its stream exactly |
| Wire.PackageBuffer.Add | shared-common/common/utils.c:92-100 | the reallocated buffer holds the old fields and the new one |
| Wire.PackageBuffer.Serialize | shared-common/common/serializer.c:3-16 | the filled buffer is operation code, size and stream |
| Wire.SerializeAndSend | shared-common/common/utils.c:117-197 | the connection receives exactly the encoding of the message, which is given byte by byte for each of the six kinds |
| Wire.ReceiveBuffer | shared-common/common/utils.c:427-435 | size and contents are taken off the connection and nothing else |
| Wire.ReceivePackage | shared-common/common/utils.c:437-459 | the loop returns the fields of the package, in order, and leaves what follows it |
| Wire.ReceiveAndDeserialize | shared-common/common/utils.c:265-330 | code and package are taken off the connection and read as the message |
| Wire.Exchange | shared-common/common/utils.c:117-330 | sent through one end and received at the other, the messages are the same |
| MuseHeap.BlocksFill | muse/src/muse.c:479-526 | a walk that ends on the segment's size meets blocks that add up to it |
| MuseHeap.WalkFindsFirstFit | muse/src/muse.c:476-526 | with the inclusive bound of the source the walk accepts the first block that fits, or else the header at the segment's size if that one does |
| MuseHeap.BoundMattersIff | muse/src/muse.c:526 | its answer is not the first fit if and only if no block fits and the header at the segment's size does |
| MuseHeap.AcceptedIff | muse/src/muse.c:476-526 | the walk accepts a header if and only if it is the first one read that is free and has more than the wanted size |
| MuseHeap.RefusedIff | muse/src/muse.c:476-526 | it answers -1 if and only if no header of a block, nor the one at the segment's size, is free with more than the wanted size |
| MuseHeap.SplitKeepsTiling | muse/src/muse.c:486-500 | the two header writes keep the segment tiled if and only if the block has room for both, and then replace one block by two |
| MuseHeap.SplitConservesSize | muse/src/muse.c:486-500 | that replacement conserves the total size |
| MuseHeap.SplitKeepsBlocks | muse/src/muse.c:486-500 | every other block keeps its place and its header |
| MuseHeap.BlocksApart | muse/src/muse.c:479-526 | two blocks of a segment do not overlap |
| MuseSpec.FirstLayoutTiles | muse/src/muse.c:391-405 | the first layout tiles the pages but for their last byte if and only if one spare byte is left or at least six, with six or more as two blocks |
| MuseSpec.HeaderByBytes | muse/src/muse.h:39-43 | a header is four bytes of size, the lowest first, and a flag |
| MuseSpec.PagesOfIsQuotient | muse/src/muse.c:348-353 | the pages counted one by one are C's quotient and one more |
| MuseSpec.PagesHold | muse/src/muse.c:352-398 | the pages taken hold the bytes asked for and the spare ones |
| MuseRuns.FirstGrant | muse/src/muse.c:346-442 | a first request takes one page more than the quotient behind the frames in use and is answered with the sixth byte there, or -1 if there are not as many |
| MuseRuns.FirstGrantWrites | muse/src/muse.c:391-405 | it writes ten bytes: the wanted size and 0, and behind that block what the pages spare less six and 1 |
| MuseRuns.FurtherGrant | muse/src/muse.c:476-530 | a further request is answered with the byte after the first header that is free and has more than the wanted size, or -1 |
| MuseRuns.FurtherGrantWrites | muse/src/muse.c:486-500 | it writes ten bytes: the wanted size and 0, and behind that block the old size less that and five and 1; a refused one writes nothing |
| MuseRuns.NewSegmentTiled | muse/src/muse.c:346-405 | a new segment is tiled if and only if its last page has one spare byte or at least six, and its first block has exactly the wanted size |
| MuseRuns.OldSegmentTiled | muse/src/muse.c:445-530 | a request that finds a block keeps its segment tiled if and only if the rest of the block holds a header, and splits the first fitting one |
| MuseRuns.RoomIsInBounds | muse/src/muse.c:346-530 | a request with room reads and writes within `memoria` only |
| MuseRuns.SecondHeaderInside | muse/src/muse.c:398-405 | over real frames the second header is inside `memoria` if and only if five bytes are spared or enough memory follows |
| MuseRuns.OrderIffRoom | muse/src/muse.c:55-82 | a request keeps all segments apart and tiled and is granted a block of its own segment if and only if it has room |
| MuseRuns.TightPageBreaksTiling | muse/src/muse.c:398-405 | nine bytes in a page of 16 are granted and break the tiling |
| MuseRuns.LaterRequestLeavesSegment | muse/src/muse.c:401-526 | after a first request that leaves one spare byte every further one is granted bytes four behind the process's frames |
| MuseRuns.GrantsOverlap | muse/src/muse.c:55-82 | requests of 26 and 4 bytes by one process and of 20 by the next, in the configured memory, share three bytes |
| MuseRuns.NeighbourGuards | muse/src/muse.c:476-526 | in a memory below eight megabytes, if another segment follows in the next frame, the bytes read past the last block are never accepted, and room is a matter of the first fitting block |
| MuseRuns.OnlyLastSegmentAtRisk | muse/src/muse.c:55-82 | after any run with room from the initial memory that holds for every segment but the one in the last frames in use |
| MuseRuns.RefusedProcessIsLockedOut | muse/src/muse.c:68-77 | a refused first request is answered -1 and leaves an empty segment, which stays empty and unserved over every run |
| Muse.Server.EmptyHasNoPages | muse/src/muse.c:476-482 | that segment is one whose list has no first page for the walk to read |
| MuseRuns.GrantIsHeld | muse/src/muse.c:71-76 | a granted block has the wanted size, lies in the process's segment and was held by nobody |
| MuseRuns.AnswerIsHeld | muse/src/muse.c:71-76 | the answer is its first byte, as an address for a new segment and as an offset in the segment otherwise |
| MuseRuns.AllocKeepsHeld | muse/src/muse.c:55-82 | no request with room moves, resizes or overwrites a block that is held |
| MuseRuns.HeldBlocksApart | muse/src/muse.c:55-82 | different held blocks share no byte, within a process and between processes |
| MuseRuns.RunKeepsHeld | muse/src/muse.c:55-82 | from a sound memory, over any sequence of requests with room, memory stays sound and every held block keeps its bytes |
| Muse.Server.constructor | muse/src/muse.c:255-277 | all frames and entries are free, and the memory is sound whatever it contains |
| Muse.Server.FreeFrame | muse/src/muse.c:310-320 | the scan finds the first frame after the occupied prefix, or -1 |
| Muse.Server.FreeEntry | muse/src/muse.c:323-333 | the scan finds the first entry after the same prefix, or -1 |
| Muse.Server.HasPages | muse/src/muse.c:532-549 | the count succeeds exactly when that many frames are left |
| Muse.Server.TakePages | muse/src/muse.c:357-379 | occupied frames and entries stay the same prefix, entry i maps to frame i, and the segment's pages are consecutive |
| Muse.Server.AssignMemory | muse/src/muse.c:346-405 | frames, entries, pages and both headers are those of the specified new segment |
| Muse.Server.AddressOf | muse/src/muse.c:481-482 | page and position, with the page's index read as its frame, give the linear address |
| Muse.SecondHeader | muse/src/muse.c:398-399 | the address computed from the last frame is the byte after the first block |
| Muse.LastOffset | muse/src/muse.c:447-452 | the bound of the walk, counted in whole pages, is the segment's size |
| Muse.Server.FindFit | muse/src/muse.c:476-526 | the walk up to that bound, with its offsets kept in ints, stops at the first header that is free and has more than the wanted size, or finds that none is and has |
| Muse.Server.FindSpace | muse/src/muse.c:445-530 | the walk and its two writes perform the specified cut, also past the last block, and the answer leads behind that header |
| Muse.Server.Malloc | muse/src/muse.c:55-82 | the handler performs the specified allocation and answers -1 as 0xFFFFFFFF |
| SuseSpec.EvensConserve | suse/src/scheduler/suse_scheduler.c:106-115 | the admitted threads and those left are the ones that waited |
| SuseSpec.LongTermByPlace | suse/src/scheduler/suse_scheduler.c:103-116 | a pass admits the first, third and so on of the waiting threads until none of them is left or more are ready than the degree that remains, and no sooner; the others wait on in order |
| SuseSpec.LongTermStops | suse/src/scheduler/suse_scheduler.c:103-116 | a pass does nothing if and only if nobody waits or the guard fails at once |
| SuseSpec.LongTermKeepsOrder | suse/src/scheduler/suse_scheduler.c:103-116 | arrival order survives a pass if and only if at most two threads wait or there is room for one |
| SuseSpec.ThirdOvertakesSecond | suse/src/scheduler/suse_scheduler.c:103-116 | of three threads with room for two, the third overtakes the second |
| SuseSpec.FirstLeast | suse/src/scheduler/suse_scheduler.c:118-138 | the chosen position has a least estimate, and every earlier one a greater |
| SuseSpec.EstimateIsWeighted | suse/src/scheduler/suse_scheduler.c:94-101 | the estimate is the weight times the burst |
| SuseSpec.DispatchesFirstLeast | suse/src/scheduler/suse_scheduler.c:118-139 | the first ready thread with a least estimate leaves, the others keep their order and the degree is one more |
| SuseSpec.ShorterGoesFirst | suse/src/scheduler/suse_scheduler.c:118-139 | of two threads with bursts 9 and 1 the second is dispatched |
| SuseSpec.ChoiceByWeight | suse/src/scheduler/suse_scheduler.c:94-101 | shortest burst first for a positive weight, arrival order for zero, longest first for a negative one |
| SuseSpec.StepConserves | suse/src/scheduler/suse_scheduler.c:103-139 | one pass keeps degree plus ready threads and every thread |
| SuseSpec.RunConserves | suse/src/scheduler/suse_scheduler.c:103-139 | over any mix of passes degree plus ready threads is a constant K, the ready queue has at most K / 2 + 1 threads, and no thread is lost or doubled |
| Suse.FoldKeepsLeast | suse/src/scheduler/suse_scheduler.c:118-130 | the seeded fold ends in a least estimate, and in its seed if and only if nobody in the list is below it |
| Suse.Scheduler.FoldIsFirstLeast | suse/src/scheduler/suse_scheduler.c:127-131 | the loop's test succeeds first at the first least estimate |
| Suse.Scheduler.RunLongTerm | suse/src/scheduler/suse_scheduler.c:103-116 | the loop that removes under its own index admits every second thread, in order, as long as and no longer than the guard holds |
| Suse.Scheduler.RunShortTerm | suse/src/scheduler/suse_scheduler.c:124-139 | a non-empty queue dispatches the first of its threads with the least time (greatest, for a negative weight), keeps the order of the rest, and changes no other thread |

## Left out

- Sockets, threads, FUSE callbacks, `mmap`, configuration and logging: they are calls into the system; the network is a byte sequence and the clock a list of readings.
- Reads of the operation code that return fewer than four bytes: the servers call `recv` without waiting for all of them and do not check the count.
- Contexts and stacks of hilolay threads, and a SIGALRM in the middle of `lib_enqueue`: an alarm is a yield between steps.
- 32-bit overflow of hilolay's identifiers and clock: both are unbounded integers.
- The fields of a SAC entry that a name of 71 bytes or more runs over (dates and block pointers): nothing reads them.
- The entry past the table that the C loops read once before their bound stops them: its value is never used, and the model does not read it.
- SacServer.NodeTable.CreateDirectory: is about names of at most 4094 bytes, because a longer one would run over the next entry of the table.
- Muse.Server.AssignMemory: is about requests below 2^31 - 5 bytes whose pages are an int and whose second header lies in `memoria`, because the C sums wrap beyond the former, and the source writes outside the array otherwise: in swap pages, which the vectors count too, and behind the last real frame when fewer than five spare bytes and too few bytes of memory are left (`SecondHeaderInside`).
- Muse.Server.FindSpace: is about walks and cuts within `memoria` for a process that has pages; the source checks neither, and reads or writes outside the array, or takes the frame of a missing page, in the other cases.
- Wire.ReceivePackage: is about packages that arrive whole and well framed; the source ignores what `recv` returns and would read past a shorter one.
- Wire.SerializeAndSend: is about copies that carry as many bytes as they say and whose package size is an int; the source reads and adds without checking.
- The list of frames built in muse/src/muse.c:381-389: it is never used.
- The MEMFREE, GET and COPY handlers of MUSE (muse/src/muse.c:83-241): the first never writes its updated header back, the second always returns four bytes, and the third overwrites block sizes, so the heap has no invariant that survives them.
- `muse_map`, `muse_sync`, `muse_unmap` and a second segment for a process: not implemented in the source.
- Translation of an offset answered to a process's second request into an address: the source leaves it to the caller.
- HANDSHAKE and GET_OK messages and the SAC pathname messages: nothing is sent for the first, and the others send a pointer or copy into an unset one, so no round trip exists.
- `serializer_deserialize_object` and the string helpers of shared-common/common/utils.c: unused or immediate.
- Semaphores, metrics, and the SUSE functions that block, finish or re-ready a thread: one-line list additions that do not maintain the degree.
- Rounding in the exponential mean: it is a `real`.
