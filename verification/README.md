# A verified model of the GPU Direct Storage driver

The driver moves file data between storage and GPU memory. A process maps a shadow buffer of host
pages over a GPU buffer; a read or write on the shadow buffer is cut into chunks, the file system
is called on shadow pages, and where the block layer asks for DMA addresses the driver hands out
those of the GPU pages behind them.

The modules follow the driver's parts.

| module | what it models |
|---|---|
| `TransferPlan`, `Placement` | argument checks, cutting a request into chunks, address translation |
| `Blocks`, `Holes`, `Notes` | per-block states and sparse holes |
| `Transfers`, `Mgroup` | what chunks, requests and sequences of requests come to, and the transfer loop that does it in place |
| `IoMachine` | the I/O state of a buffer under any number of threads, one atomic operation at a time |
| `Lifetime` | the references of a buffer under I/O, munmap and the GPU free callback |
| `Segments`, `SgV1`, `IterV2` | the scatter-gather builder and the DMA iterator |
| `Dma`, `MapCache` | DMA addresses of one peer device, and the cache of mappings |
| `Registry` | naming shadow pages and finding their buffer again |
| `Pci` | distance and rank of peer devices |
| `Units` | constants and division lemmas |

Sizes are fixed at a page and metadata block of 4096 bytes and a GPU page of 65536 bytes. Integers
are unbounded; 64-bit sums that the driver computes from user input are reduced explicitly, and a
mapped GPU range is taken not to wrap 64 bits. Calls into the file system, the block layer and the
NVIDIA peer-to-peer layer, random draws and the kernel's answers are parameters: whatever they
answer, the stated contracts hold.

## Main results

- **Placement.** Every byte of every chunk reaches the GPU byte that the request named, for every
  accepted request except exactly those in `Placement.Misplaces`: RDMA keys, a shadow buffer
  below 64 KiB, an unaligned start and a first chunk cut short by the RDMA segment. There the shadow
  address keeps the displacement of the first chunk, and the second chunk is misplaced.
- **The transfer loop.** On a buffer in any block states and whatever the kernel does, `StartOp` ends as
  `Transfers.Ends` states: every call of the file system with its direction, file position, address
  and length, what it returns, the file position, hole list and state of every block it leaves. A
  chunk leaves its own blocks in use exactly if it is interrupted (stopped by a signal with
  -ERESTARTSYS, or in an exiting process) or if the file lacks a read or a write operation, so that
  nothing completes it; besides, it leaves in error the blocks outside its range to which its
  vectors stray. A request fails a fill assertion exactly at a chunk that needs a block in use when
  every chunk before it came back whole. Vectors of its own address range never stray from a chunk
  that is addressed right. With a cooperating file system a request not in `Misplaces` fails if and
  only if some chunk needs a block in use, and inside one request that arises exactly behind an
  interrupted chunk on a shadow buffer of whole GPU pages.
- **Sequences of requests.** `Session` runs any sequence of requests on one buffer. From idle blocks,
  a request fails a fill assertion if and only if one of its chunks is attempted, with all before it
  in the request back whole, and needs a block that the last chunk issued before it, in the same
  request or an earlier one, left in use. So no assertion ever fails over a sequence of orderly
  requests, and each leaves the buffer idle: requests not in `Misplaces`, on files with both
  operations, with no chunk interrupted and only vectors of its own range.
- **Completion and holes.** A hole list covers exactly the blocks below the byte count that were never
  mapped, as maximal runs, while they fit; on overflow the read is cut at the start of run 769 and the
  size of entry 768 is given exactly. A write ends in an error exactly if such a block exists or a
  block past the count is spoilt.
- **Mutual exclusion, mapping and teardown**, for any number of threads and any interleaving of single
  atomic operations. As long as there is no teardown the state is known exactly from whether a
  mapping was finished, is under way or was given up, and whether an I/O is in flight. What each call
  does when nothing interrupts it is given for every state.
- **References.** In every run the count is the VMA's, the mapping's and the I/O's reference, less
  the puts of the mapping's and one for every DMA mark that the iterator has refused. The mapping's
  reference is dropped twice only in two interleavings, and from the moment the callback frees the
  DMA mappings no I/O is ever in flight. In a clean run, one in which the release has not begun
  after a refused mark, the two interleavings are also enough, as stated exactly; with one drop, the
  group is released twice exactly when a lookup took a reference on a count of zero and has let go
  of it; and otherwise the group is released exactly when the count reaches zero. The three
  interleavings and the refused mark are shown to occur. With munmap's mark and re-read as one step,
  and a lookup and its claim as one step, none of the three arises.
- **DMA lists.** Both ways of building a DMA list cover the pages of the request exactly, in order,
  and where they split is given exactly. The iterator applies the rule about GPU page indices that
  are multiples of 65535 only at the start of a vector, so a long vector is merged across one.
- **DMA contiguity.** When a piece that was granted a DMA address is really contiguous, and when a
  contiguous piece is granted one, exactly.
- **Mapping cache.** Over every run each call is answered once and for the device it asked for, all
  callers for a device get the same mapping, and none fails unless an allocation or mapping below does.
- **Page identity, PCI distance and rank.**

Where the code falls short of what one would expect, the exact condition is proved along with a
concrete case: `MisplacedRequest`, `RestartCrashes`, `NoOperationCrashes`, `StrayCrashes`,
`SecondClaimEndsFirst`, `RaceHappens`, `LateHappens`, `ReviveHappens`, `OverputHappens`,
`BoundaryPassed`, `CrossingUnchecked`, `GoodRefused`, `AsymmetricPair`.

## Model

| member | source | states |
|---|---|---|
| TransferPlan.IssuedWholePages | src/nvfs-core.c:2064-2068 | every chunk is a positive whole number of pages, so the alignment assertion never fires |
| TransferPlan.AdvanceOnTrack | src/nvfs-core.c:2148-2161 | a full chunk keeps the loop invariant: the GPU cursor stands exactly `done` bytes into the request |
| TransferPlan.FirstOnTrack | src/nvfs-core.c:1771-1828 | argument checking and setup establish that invariant for every accepted request |
| TransferPlan.VaOffsetExact | src/nvfs-core.c:1771-1773 | the 64-bit start offset of an accepted request does not wrap |
| Placement.GpuPlaceOfPage | src/nvfs-mmap.c:1070-1076 | GPU page and offset of a shadow page add up to the page's displacement, with the offset inside the page |
| Placement.FreshChunkWellPlaced | src/nvfs-mmap.c:1017-1066 | a chunk whose shadow address carries no displacement puts every byte at the requested GPU byte, inside the active blocks |
| Placement.StaleChunkMisplaced | src/nvfs-mmap.c:1060 | a chunk whose shadow address still carries an earlier displacement is misplaced |
| Placement.SmoothPlan | src/nvfs-core.c:2049-2164 | with a shadow buffer of whole GPU pages every chunk is accepted and well placed and the plan reaches the end of the request |
| Placement.SmallPlan | src/nvfs-core.c:2049-2164 | with a shadow buffer below one GPU page: exactly when the request completes, and exactly when every chunk is well placed |
| Placement.PlacementExact | src/nvfs-core.c:2049-2164 | end-to-end placement of every chunk of every accepted request, if and only if the request is not in `Misplaces` |
| Placement.MisplacesOnlySmallRdma | src/nvfs-core.c:1820-1828 | misplacement needs RDMA keys and a shadow buffer below 64 KiB |
| Placement.CompletesExactly | src/nvfs-core.c:2049-2085 | a request runs to its end if and only if the shadow buffer is whole GPU pages, or the request is empty, or it ends inside the shadow buffer |
| Placement.MisplacedRequest | src/nvfs-mmap.c:1060 | a concrete accepted request with a misplaced chunk |
| Placement.PlanSound | src/nvfs-core.c:2064-2083 | every issued chunk: positive, inside request, RDMA segment and shadow buffer, active blocks matching its bytes |
| Placement.RdmaWindowAgrees | src/nvfs-dma.c:1530-1548 | the RDMA window of every chunk is the requested GPU range, and the size check never rejects it |
| Placement.MmapExactly | src/nvfs-mmap.c:630-645 | a shadow buffer has up to 16 pages or up to 256 whole GPU pages, if and only if its length is accepted |
| Placement.PinnedExactly | src/nvfs-core.c:1274-1292 | when a GPU range is refused, as an if-and-only-if, and that the page table asked for otherwise is the smallest that covers it |
| Placement.EntriesCover | src/nvfs-core.c:1274-1292 | the page table asked for covers the whole GPU buffer |
| Placement.ActiveBlocksInBounds | src/nvfs-core.c:615-620 | every GPU page index computed for an active block is below the entry count |
| Placement.ChunksMeetExactly | src/nvfs-core.c:2049-2164 | consecutive chunks of a request use a common block if and only if the shadow buffer is whole GPU pages |
| Holes.RunsMaximal | src/nvfs-mmap.c:908-931 | the run list is the maximal runs: apart, in order, covering exactly the unmapped blocks |
| Holes.MaximalRunsUnique | src/nvfs-mmap.c:908-931 | no other list of runs is |
| Holes.ReportedExact | src/nvfs-mmap.c:908-931 | every entry starts a run; all are exact but the 768th of an overflowing list, which is never too small |
| Holes.ReportOpen | src/nvfs-mmap.c:909-927 | a new run appends an entry while there is room, and otherwise fixes the byte limit once |
| Holes.ReportExtend | src/nvfs-mmap.c:928-931 | continuing any run grows the last entry, also after the list is full |
| Blocks.FullyMapped | src/nvfs-mmap.c:875-974 | if DMA covered the active range there is no hole, no error, and the count stands |
| Blocks.CutRead | src/nvfs-mmap.c:993-1001 | a read is cut if and only if there are more than 768 runs, to the start of the 769th, below the original count |
| Blocks.FinalRetBounds | src/nvfs-mmap.c:993-1001 | completion never raises the count, and only a write ends in an error |
| Blocks.AccountedExactly | src/nvfs-mmap.c:838-866 | a block is accounted for if and only if it holds a byte below the count |
| Blocks.ErrorExactly | src/nvfs-mmap.c:893-938 | a write ends in an error if and only if a block with a byte below the count was not mapped or a later one is spoilt; a read if and only if a later one is |
| Blocks.HolesExactly | src/nvfs-mmap.c:900-931 | a read gets a hole list if and only if the file is sparse or such a block was not mapped, and up to a 768th entry the list covers exactly those blocks |
| Notes.ReadRecords | src/nvfs-mmap.c:900-931 | the loop's variables record exactly the runs of unmapped blocks |
| Notes.RecordsStop | src/nvfs-mmap.c:893-898 | blocks past the accounted ones record nothing |
| Notes.FaultsNoted | src/nvfs-mmap.c:893-938 | the error code is set if and only if some block is at fault |
| Notes.NotesDecide | src/nvfs-mmap.c:875-1001 | the loop's final variables give the completion that the block states call for |
| Transfers.MarkFromExact | src/nvfs-mmap.c:1258-1280 | marking a range of blocks: the active ones are handed to DMA, the first past them is put in error, the rest stay |
| Transfers.MarkVecExact | src/nvfs-mmap.c:1235-1305 | the same for a vector, whose first page must be active to be looked up |
| Transfers.MarkAllExact | src/nvfs-dma.c:345-357 | after a list of vectors: exactly the active blocks that one reaches are handed to DMA, exactly the blocks that one strays to are in error |
| Transfers.FilledAfloat | src/nvfs-mmap.c:1047-1058 | after an accepted fill the active blocks are in transfer and the others reset |
| Transfers.MarkAllAfloat | src/nvfs-mmap.c:1258-1280 | marking any vectors keeps the active blocks in transfer, and the others reset or in error |
| Transfers.ChunkBounds | src/nvfs-core.c:868-910 | a chunk passes an error on and otherwise returns at most what the file system did; the loop goes on only after the full count |
| Transfers.InUseExactly | src/nvfs-core.c:2086-2104 | a block is left in use if and only if it is the chunk's own and the chunk was interrupted or never completed, or a vector strayed to it |
| Transfers.ReachedStep | src/nvfs-core.c:2049-2191 | what comes of the next chunk decides how the request ends |
| Transfers.CrashesExactly | src/nvfs-mmap.c:1004-1009 | an assertion fails if and only if some chunk needs a block in use and every chunk before it came back whole |
| Transfers.BlockedExactly | src/nvfs-mmap.c:1004-1009 | a chunk needs a block in use after another if and only if that one left such a block in its range |
| Transfers.HitsExactly | src/nvfs-mmap.c:1004-1009 | so a chunk after the first fails exactly on what the one before it left |
| Transfers.CountMoved | src/nvfs-core.c:2124-2191 | the count returned is the sum of what the chunks moved |
| Transfers.CountBounded | src/nvfs-core.c:2124-2191 | that is all chunks issued but the last, and at most that one |
| Transfers.OwnNeverStrays | src/nvfs-mmap.c:1147-1157 | vectors of its own address range never stray from a chunk that is addressed right |
| Transfers.CooperatesWhole | src/nvfs-core.c:2124-2145 | a chunk that is addressed right comes back whole if its whole range is mapped and the full count is returned |
| Transfers.CooperatingExactly | src/nvfs-core.c:2049-2191 | with a cooperating file system a request not in `Misplaces` fails an assertion if and only if a chunk needs a block in use, and otherwise reaches the end of its plan |
| Transfers.HitsInside | src/nvfs-mmap.c:953-974 | inside such a request a chunk needs a block in use if and only if the one before was interrupted and the shadow buffer is whole GPU pages |
| Transfers.ClashesExactly | src/nvfs-mmap.c:1004-1009 | on blocks as the last chunk issued left them, a chunk needs a block in use if and only if it meets what that chunk left |
| Transfers.FailsExactly | src/nvfs-core.c:2049-2191 | on such blocks a request fails an assertion if and only if some chunk is attempted and meets what the chunk issued before it left, and all before it are attempted, meet nothing and come back whole |
| Transfers.JobLeaves | src/nvfs-mmap.c:953-974 | a request leaves the blocks exactly as the last chunk issued by then left them |
| Transfers.IdleExactly | src/nvfs-mmap.c:953-974 | it leaves the buffer idle if and only if the file has both operations and that chunk was not interrupted and did not stray |
| Transfers.SessionExactly | src/nvfs-mmap.c:1004-1009 | a sequence of requests on an idle buffer fails an assertion in request j if and only if it comes to that request and the request fails at a chunk, after the last chunk issued before it |
| Transfers.NextExactly | src/nvfs-mmap.c:1004-1009 | the same for two requests: the second fails if and only if it fails after the last chunk of the first |
| Transfers.NextCrashes | src/nvfs-mmap.c:1004-1009 | it does if its first chunk meets what the first request left, and with a plan of one chunk only then |
| Transfers.OrderlyJob | src/nvfs-mmap.c:953-974 | an orderly request on an idle buffer fails no assertion and leaves the buffer idle |
| Transfers.OrderlyRuns | src/nvfs-mmap.c:1004-1009 | so does every sequence of orderly requests, after every request |
| Transfers.RestartCrashes | src/nvfs-mmap.c:953-974 | a concrete read that is stopped by a signal and tried again |
| Transfers.NoOperationCrashes | src/nvfs-core.c:2096-2104 | a concrete read of a file without a write operation, and then of another file |
| Transfers.StrayingLeaves | src/nvfs-mmap.c:1258-1269 | a misplaced request that ends in its second chunk, which leaves a block outside its range in error |
| Transfers.StrayCrashes | src/nvfs-mmap.c:1258-1269 | after it, a request for the whole buffer fails an assertion |
| Mgroup.ShadowGroup.constructor | src/nvfs-mmap.c:786-790 | after mmap every block is allocated |
| Mgroup.ShadowGroup.InitBlocks | src/nvfs-mmap.c:440 | pinning makes every block fillable |
| Mgroup.ShadowGroup.ResetBlocks | src/nvfs-mmap.c:1029-1063 | clears exactly the blocks of a range |
| Mgroup.ShadowGroup.FillMpages | src/nvfs-mmap.c:1004-1066 | when fill accepts, rejects (changing nothing) and hits its assertion, and the new block states and active range |
| Mgroup.ShadowGroup.SetDmaState | src/nvfs-mmap.c:1235-1284 | marked, refused at the first block not in transfer, or run past the array: when each happens, and the new states |
| Mgroup.ShadowGroup.MapVec | src/nvfs-dma.c:345-357 | looking up a vector's first page and marking the vector, in place, against `MarkVec` |
| Mgroup.ShadowGroup.ScanBlocks | src/nvfs-mmap.c:875-965 | the validation loop in place against the fold over the old states |
| Mgroup.ShadowGroup.Complete | src/nvfs-mmap.c:831-1001 | count, hole list, block states and active range after completion |
| Mgroup.ShadowGroup.MapVecs | src/nvfs-dma.c:339-357 | the same for the vectors of a transfer in turn |
| Mgroup.ShadowGroup.DirectIo | src/nvfs-core.c:868-910 | one call of the file system, as recorded with its direction, address, length and position; the block states after marking and completion, or after marking only if the process is exiting or the result is -ERESTARTSYS; the result; the hole list |
| Mgroup.CheckRange | src/nvfs-core.c:1586-1623 | the checks on the file range |
| Mgroup.CheckFile | src/nvfs-core.c:1624-1704 | the checks on the file and on what the caller says about it |
| Mgroup.ShadowGroup.IoInit | src/nvfs-core.c:1586-1830 | a request is accepted if and only if the checks on file range, file, buffer address and GPU range hold, and the I/O then stands at its start |
| Mgroup.ShadowGroup.SetUp | src/nvfs-core.c:1726-1828 | the fields it sets, and that it is accepted exactly for a file opened for direct I/O and a GPU range that passes its checks |
| Mgroup.ShadowGroup.SetGpuCursor | src/nvfs-core.c:1771-1828 | the GPU part of those checks, and the cursor it sets |
| Mgroup.ShadowGroup.IssueChunk | src/nvfs-core.c:2064-2104 | rejected exactly when fill rejects, an assertion exactly when a needed block is in use, and otherwise call, result, hole list and block states as `RunChunk` gives them, also where the file lacks an operation |
| Mgroup.ShadowGroup.FillChunk | src/nvfs-core.c:2064-2085 | the fill of the chunk at the cursor: when it is rejected, when an assertion fails, and the states, range and address it leaves |
| Mgroup.ShadowGroup.TransferChunk | src/nvfs-core.c:2086-2104 | what follows an accepted fill: the call made is that of the chunk, and the rest is as `RunChunk` gives it |
| Mgroup.ShadowGroup.AdvanceCursor | src/nvfs-core.c:2148-2161 | the GPU cursor moves to that of the next chunk |
| Mgroup.ShadowGroup.Iterate | src/nvfs-core.c:2049-2164 | one iteration of the transfer loop, on any block states: the call it makes, how it ends, and the blocks, hole list, file position and cursor it leaves |
| Mgroup.ShadowGroup.Account | src/nvfs-core.c:2124-2164 | what a chunk's result leads to: an error, a short or a sparse count ends the request, the full count goes on; the file position moves by the count |
| Mgroup.ShadowGroup.RunPlan | src/nvfs-core.c:2049-2191 | the loop makes the calls of the plan in order and ends as `Ends` states, with file position and hole list to match |
| Mgroup.ShadowGroup.StartOp | src/nvfs-core.c:1973-2192 | on any block states and over every behaviour of the kernel: the calls made are those of the chunks issued, in order; result or failed assertion and every block state are those of `RequestEnds`, to which `CrashesExactly`, `CountMoved` and `CooperatingExactly` apply; the file position has moved by the bytes moved; the hole list is the last one written |
| Mgroup.ShadowGroup.Perform | src/nvfs-core.c:2260-2286 | one request from its arguments on: refused with an error and without touching a block, run to its end with its result and calls, or stopped at an assertion |
| Mgroup.ShadowGroup.Session | src/nvfs-core.c:2260-2286 | any sequence of requests on one buffer, found in any block states, runs up to the first that fails an assertion, which is that of `Crash`, and otherwise leaves the block states of `Before`; orderly requests on an idle buffer all run and leave it idle |
| IoMachine.MoveFacts | src/nvfs-core.c:143-255 | what one atomic step can do to the state and to ownership of the I/O slot |
| IoMachine.InvStep | src/nvfs-core.c:143-255 | the invariant survives every step of every thread |
| IoMachine.Reachable | src/nvfs-core.c:143-255 | and holds over every run of any number of threads |
| IoMachine.MutualExclusion | src/nvfs-core.c:174-200 | at most one owner of the I/O slot; one while IN_PROGRESS; none in FREE, INIT and READY |
| IoMachine.RetreatNeverSucceeds | src/nvfs-core.c:1832-1841 | the release attempted by a thread whose claim failed never succeeds |
| IoMachine.TeardownClosed | src/nvfs-core.c:207-255 | above IN_PROGRESS no run leads back, and nobody newly gets the slot |
| IoMachine.MapFacts | src/nvfs-core.c:1260-1420 | what one atomic step can do to the mapping: begin it from FREE, finish it in READY, undo it in FREE or give it up in INIT |
| IoMachine.StateExactly | src/nvfs-core.c:1260-1420 | over every run without teardown: READY or IN_PROGRESS exactly once a mapping was finished, INIT exactly while one is under way or was given up, FREE otherwise; one thread maps at most, and no I/O is ever in flight before a mapping was finished |
| IoMachine.TeardownAlone | src/nvfs-core.c:207-255 | the state that an uninterrupted teardown leaves, for every state and either caller |
| IoMachine.MapAlone | src/nvfs-core.c:1260-1272 | what an uninterrupted mapping, its end, its undoing and giving it up lead to, for every state |
| IoMachine.IoAlone | src/nvfs-core.c:1716-1725 | what an uninterrupted I/O call and its release lead to, for every state; a failed claim always ends in CALLBACK_END |
| IoMachine.FreeAlone | src/nvfs-mmap.c:132-138 | the final release stores UNPIN except on a buffer in FREE or INIT |
| IoMachine.UnpinOnlyByFree | src/nvfs-core.c:1446 | without a final release no run stores UNPIN |
| IoMachine.NoIoAfterTeardown | src/nvfs-core.c:257-284 | throughout a run TERMINATED, CALLBACK_END and UNPIN mean that no I/O is in flight if and only if no thread stored a state of its own while another owned the slot |
| IoMachine.SecondClaimEndsFirst | src/nvfs-core.c:193-195 | a second I/O call on a busy buffer stores CALLBACK_END while the first is in flight |
| Lifetime.CountIo | src/nvfs-core.c:739-785 | every step of an I/O accounts for every reference, a refused mark's included |
| Lifetime.CountMun | src/nvfs-mmap.c:538-576 | so does every step of munmap |
| Lifetime.CountCb | src/nvfs-core.c:291-361 | so does every step of the GPU free callback |
| Lifetime.CountReap | src/nvfs-core.c:1427-1450 | so does every step of the release |
| Lifetime.MunOrder | src/nvfs-mmap.c:500-580 | every step of munmap keeps what is known about state, positions and decisions |
| Lifetime.CbOrder | src/nvfs-core.c:291-361 | every step of the GPU free callback keeps it |
| Lifetime.IoOrder | src/nvfs-core.c:739-785 | every step of pinning, looking up, claiming, marking, completing and releasing an I/O keeps it |
| Lifetime.ReapOrder | src/nvfs-core.c:1427-1450 | every step of the release of the group keeps it |
| Lifetime.RunInv | src/nvfs-core.c:143-205 | both hold over every run |
| Lifetime.NoRefusalClean | src/nvfs-mmap.c:1262-1269 | a run without a refused mark ends clean: without a release begun after one |
| Lifetime.DroppedTwiceExactly | src/nvfs-mmap.c:538-563 | in every run the mapping's reference is dropped more than once only if a synchronous release fell between munmap's mark and re-read, or a failed claim stored CALLBACK_END after its decision and the callback dropped; in a clean run, once munmap has decided, if and only if |
| Lifetime.LateState | src/nvfs-core.c:193-195 | in the second case munmap has decided and the state is CALLBACK_END until the release stores UNPIN, in every run |
| Lifetime.LateDropsExactly | src/nvfs-core.c:312-317 | after it, in a clean run without a revival, the callback drops too if and only if it passes its check before the release stores UNPIN |
| Lifetime.ReferencesConserved | src/nvfs-mmap.c:538-576 | otherwise, in every run: one drop at most, the count is VMA plus mapping plus I/O less one for each refused mark, and the check before the last put holds unless a mark was refused; in a clean run without a revival the release has begun exactly at zero |
| Lifetime.RefusedMarksCost | src/nvfs-mmap.c:1262-1269 | in every run, whatever happens in it, the count is VMA plus mapping plus I/O less the puts of the mapping's and one for each refused mark, and at zero the release has begun |
| Lifetime.ReleasedTwiceExactly | src/nvfs-mmap.c:75-113 | in a clean run the count reaches zero again only, and with one drop always, after a lookup took a reference on a count of zero |
| Lifetime.CompletionPutNeverLast | src/nvfs-core.c:784 | in a clean run the put that completes an I/O is never the last unless a mark was refused |
| Lifetime.NoIoWhileFreeing | src/nvfs-core.c:312-340 | in every run, while the callback frees DMA mappings and ever after, no I/O is in flight; an I/O in flight means IN_PROGRESS, TERMINATE_REQ or CALLBACK_REQ, or UNPIN in a run that is not clean |
| Lifetime.AsyncNeverDrops | src/nvfs-core.c:190-196 | over every run an asynchronous I/O never drops the mapping's reference |
| Lifetime.CoarseRunsSafe | src/nvfs-mmap.c:538-542 | with mark and re-read as one step, and lookup and claim as one step, reference safety holds outright and the group is released once |
| Lifetime.CallbackAlone | src/nvfs-core.c:257-340 | what the callback does by itself, for every state of a mapped buffer: drop, wait for the I/O, or wait for UNPIN |
| Lifetime.WaitAlone | src/nvfs-core.c:266-281 | from its wait it goes on once the I/O has ended, to drop in CALLBACK_END and to wait for UNPIN in TERMINATED |
| Lifetime.ReadAlone | src/nvfs-core.c:249-253 | past its ladder it waits exactly while an I/O has been asked to end |
| Lifetime.CheckAlone | src/nvfs-core.c:312-340 | from its check it drops in CALLBACK_END, ends in UNPIN and waits for UNPIN otherwise |
| Lifetime.MunmapAlone | src/nvfs-mmap.c:500-580 | what munmap does by itself, for every state: which references it drops and the state it leaves |
| Lifetime.ReleaseAlone | src/nvfs-mmap.c:128-141 | the release stores UNPIN and only then takes the group off the registry |
| Lifetime.FailedClaimAlone | src/nvfs-core.c:189-196 | a failed claim by itself: a synchronous one ends a termination that munmap asked for and drops the mapping's reference, and every one ends in CALLBACK_END without its own reference |
| Lifetime.IoUndisturbed | src/nvfs-core.c:739-785 | an I/O that nothing disturbs, completed or given up, leaves everything as it was |
| Lifetime.RaceHappens | src/nvfs-core.c:190-192 | a run in which munmap and a synchronous release both drop, and the check before the last put fails |
| Lifetime.LateHappens | src/nvfs-core.c:193-195 | a run in which munmap and the callback both drop |
| Lifetime.ReviveHappens | src/nvfs-mmap.c:247-260 | a run in which a lookup revives a group on its way out and it is released twice |
| Lifetime.OverputHappens | src/nvfs-dma.c:1062-1066 | a run in which one refused mark makes the check before munmap's last put fail |
| Segments.PrefixSplits | src/nvfs-dma.c:936-1114 | a segment over consecutive pages accounts for exactly those pages of the translation |
| Segments.PrefixWhole | src/nvfs-dma.c:936-1114 | for a request of GPU pages only, the translation is that of every page |
| Segments.SplitSnoc | src/nvfs-dma.c:812-920 | adding a segment of consecutive pages keeps the segments starting exactly at the breaks |
| SgV1.AddPage | src/nvfs-dma.c:424-486 | a page joins the last entry or starts one, and fits if and only if the list holds the entries |
| SgV1.MapSg | src/nvfs-dma.c:307-514 | mixed requests are errors, CPU requests are left alone, GPU requests get their list if and only if it fits |
| SgV1.MergeExpands | src/nvfs-dma.c:425-486 | the list expands to the GPU addresses of the pages, in order |
| SgV1.NvmeSplitsExactly | src/nvfs-dma.c:452-467 | on the NVMe path entries start exactly at discontinuities, after a zero address, or at an index that is a nonzero multiple of 65535 |
| SgV1.BreaksSplit | src/nvfs-dma.c:452-467 | on either path those places split |
| SgV1.SplitsForAReason | src/nvfs-dma.c:424-467 | every entry after the first starts at such a place or, off the NVMe path, after an entry without room for one more page |
| SgV1.SegmentLimit | src/nvfs-dma.c:424-433 | off the NVMe path an entry of several pages respects the queue's maximum |
| SgV1.RunMerges | src/nvfs-dma.c:452-467 | on the NVMe path consecutive pages with indices from 1 to 65534 become one entry |
| SgV1.MultipleSplits | src/nvfs-dma.c:452-467 | a page whose index is a nonzero multiple of 65535 starts an entry |
| IterV2.TrimDrops | src/nvfs-dma.c:544-558 | a peeked vector stands for the pages not yet consumed |
| IterV2.CheckBvecContiguity | src/nvfs-dma.c:725-798 | the longest physically contiguous start of a vector |
| IterV2.DmaIter.constructor | src/nvfs-dma.c:1132-1160 | iteration starts at the first page of the request |
| IterV2.DmaIter.Peek | src/nvfs-dma.c:544-558 | the rest of the current vector, or nothing at the end of a bio |
| IterV2.DmaIter.Advance | src/nvfs-dma.c:568-572 | exactly the consumed pages leave the iterator |
| IterV2.DmaIter.NextBio | src/nvfs-dma.c:833-842 | stepping to the next bio loses no page |
| IterV2.DmaIter.Consume | src/nvfs-dma.c:876-906 | mark and consume the contiguous start of a vector; inside a vector the rest does not continue it |
| IterV2.DmaIter.Extend | src/nvfs-dma.c:831-906 | one round of coalescing: what it adds, and why it adds nothing |
| IterV2.DmaIter.Coalesce | src/nvfs-dma.c:812-920 | the segment grows by consecutive pages only, as far as allowed, and the iterator rests on unread data if there is any |
| IterV2.DmaIter.MapNext | src/nvfs-dma.c:936-1114 | a segment is the next consecutive pages, none of them after the first the start of a vector at a boundary, and shortens the rest by them; where it ends; that there is none if and only if the next page is a CPU page or there is no next page; that it fails if and only if the next page is past its buffer, or is a GPU page and the request is not valid, its mark is refused or the segment gets no DMA address |
| IterV2.DmaIter.MapAll | src/nvfs-dma.c:1132-1205 | the segments concatenate to the page-by-page translation of the leading GPU pages, none skipped, none repeated, and only granted ones; it is done if and only if a CPU page or nothing follows them, and fails only where the call after them is refused or the page is past its buffer; with every mark accepted a segment starts exactly where a page does not follow on, or is the first of its vector and at a boundary |
| IterV2.BoundaryPassed | src/nvfs-dma.c:725-798 | a vector whose second page is at a boundary is mapped without a segment starting there |
| Dma.CountChunks | src/nvfs-core.c:416-427 | one more than the gaps; one if and only if every page follows the one before |
| Dma.GetDma | src/nvfs-core.c:615-696 | the address of the first byte, or refusal exactly when the compared addresses do not agree |
| Dma.LinearExactly | src/nvfs-core.c:637-663 | a device meets the right bytes if and only if each touched GPU page follows the one before |
| Dma.GrantExactly | src/nvfs-core.c:664-696 | when a granted piece is contiguous: it starts a GPU page, stays in one, the mapping is one chunk, or it is short and the next page follows |
| Dma.RefusalJustified | src/nvfs-core.c:664-696 | a piece that starts a GPU page is refused only if it is not contiguous |
| Dma.RefusalExactly | src/nvfs-core.c:664-696 | a contiguous piece is granted if and only if it starts a GPU page, is at most 64 KiB, or the mapping is one chunk |
| Dma.CrossingUnchecked | src/nvfs-core.c:664 | a granted piece that is not contiguous |
| Dma.GoodRefused | src/nvfs-core.c:682 | a contiguous piece that is refused |
| MapCache.InvStep | src/nvfs-core.c:487-555 | the cache invariant survives every step of every thread |
| MapCache.RunInv | src/nvfs-core.c:487-555 | and holds over every run |
| MapCache.OneMappingPerDevice | src/nvfs-core.c:487-555 | no id is inserted twice, one thread at most is inside and the flag tells so; every caller that gets a mapping gets the one in the table for the id it asked for, so all callers for an id get the same mapping and chunk count |
| MapCache.CallsConserved | src/nvfs-core.c:487-555 | over every run each id was asked for as often as it was answered for or is under way |
| MapCache.LooksExactly | src/nvfs-core.c:472-502 | a look finds a mapping if and only if the id is in the table |
| MapCache.FailsOnlyBelow | src/nvfs-core.c:505-526 | a caller goes without a mapping only if an allocation or a mapping fails |
| MapCache.AskTaken | src/nvfs-core.c:487-495 | a thread outside takes the next call, and its id counts as asked for |
| MapCache.CallAlone | src/nvfs-core.c:487-555 | a call with no other thread inside is answered in seven steps, with the mapping in the table or a new one, which is inserted |
| MapCache.WaiterServed | src/nvfs-core.c:546-554 | a thread waiting for one that is mapping stays until that one is done and then gets its mapping |
| MapCache.FailureAnswered | src/nvfs-core.c:505-526 | a failure below is answered with nothing and clears the flag |
| Registry.Find | src/nvfs-mmap.c:84-113 | the first buffer with a base index, or none if and only if it is free |
| Registry.FirstFree | src/nvfs-mmap.c:690-717 | the chosen base index is free and in range; none if and only if all draws are taken |
| Registry.Groups.Mmap | src/nvfs-mmap.c:690-723 | registration fails if and only if all ten draws are taken, and never reuses a base index |
| Registry.Groups.Release | src/nvfs-mmap.c:139-141 | the base index is free afterwards and every other buffer stays |
| Registry.ReleaseExactly | src/nvfs-mmap.c:139-141 | what leaves the registry is exactly the buffer with that base index |
| Registry.Reachable | src/nvfs-mmap.c:690-717 | base indices are unique after any sequence of mmap and release |
| Registry.PageIndexDecodes | src/nvfs-mmap.c:752 | shift and remainder give back base index and slot |
| Registry.PagesIdentified | src/nvfs-mmap.c:747-752 | no two registered pages ever share a number |
| Registry.FromPage | src/nvfs-mmap.c:1108-1145 | a page is found if and only if it is registered, in its own buffer and slot |
| Pci.HighestBridge | src/nvfs-pci.c:524-537 | the top-down scan finds the last bridge and the depth |
| Pci.ScanPeer | src/nvfs-pci.c:549-563 | the bottom-up scan finds the bridge if it is on the peer's path, and the depths |
| Pci.WalkDown | src/nvfs-pci.c:574-596 | the walk down computes the distance through the common suffix, with the ACS term |
| Pci.Distance | src/nvfs-pci.c:484-611 | the distance of two rows, with the error cases |
| Pci.PaddedRow | src/nvfs-pci.c:389-407 | every path of bridges fits in a row and is read back from it |
| Pci.CommonSuffixMaximal | src/nvfs-pci.c:574-587 | the common suffix is common and cannot be longer |
| Pci.LowestCommonBridge | src/nvfs-pci.c:574-587 | in a bridge tree it is every bridge that both paths share |
| Pci.TreeDistance | src/nvfs-pci.c:524-596 | in a bridge tree with a shared root port the distance is p + q - 2n + 1 for n common bridges, plus the ACS term |
| Pci.SymmetricExactly | src/nvfs-pci.c:589-596 | in a bridge tree with a shared root port the distance is symmetric unless ACS applies to one side only |
| Pci.AsymmetricPair | src/nvfs-pci.c:592-596 | a pair at distance 2 one way and 3 the other |
| Pci.DistanceBanded | src/nvfs-pci.c:568-596 | same root port at most 31, across root ports 128 to 159 on a node, 255 to 286 across nodes |
| Pci.AcrossExactly | src/nvfs-pci.c:568-572 | across root ports each bridge above either device counts one, and sixteen above the peer none |
| Pci.OrDisjoint | src/nvfs-pci.c:628 | numbers without a bit in common are joined bitwise by adding them |
| Pci.RankIsSum | src/nvfs-pci.c:628 | the packed rank is the missing bandwidth plus the low half of the distance in the upper half |
| Pci.RankOrder | src/nvfs-pci.c:627-628 | ranks order by distance, then by larger bandwidth, with missing paths last |
| Pci.FillMatrix | src/nvfs-pci.c:620-636 | every cell holds the distance, bandwidth and rank of its pair |
| Pci.PreferenceExact | src/nvfs-pci.c:620-632 | in the matrix a peer comes first exactly when it is nearer, or as near and with a larger product of link width and speed, up to 160; a shared root port always wins |

## Left out

- Mgroup.ShadowGroup.StartOp: models synchronous requests, to which the file system does not answer that it has queued the call; the code asserts that, and the type `Answer` excludes it. An asynchronous request returns at once and is completed elsewhere. A count above what was asked for, which the code takes for a bug once it exceeds the request, is taken as the count asked for.
- Mgroup.ShadowGroup.SetDmaState: a vector that runs past the metadata array is an outcome of its own; what the code then does to the memory behind the array is not modelled.
- Mgroup.ShadowGroup.DirectIo: an error found by validation comes back as 0, as the code does it, so errors are not claimed to be reported.
- Mgroup.ShadowGroup.IoInit: synchronous requests only, so without the check on the end-fence value.
- Lifetime.ReferencesConserved: starts from a mapped buffer and follows one I/O at a time, one munmap and at most one callback, without remapping. Where munmap or the callback reads the state twice in a row to test it, the two reads are one step. The release runs beside the thread whose put began it. The references that the DMA layer takes and puts in pairs are left out; of a refused mark only the put without a get is kept.
- SgV1.MapSg: takes whole-page vectors, as the block layer delivers single-page segments of a page-aligned request.
- IterV2.DmaIter.MapNext: takes page-aligned vectors and non-empty bios; with a start inside a page the coalescing test compares page addresses rather than byte addresses. A segment is given by its GPU physical address; the DMA address handed out for it is that of `Dma.GetDma`.
- Registry.FromPage: a slot past the end of a buffer is taken not to match, where the code reads past its metadata array to compare.
- Dma.GetDma: a GPU page index past the mapping and a zero DMA address are assertions in the code and preconditions here; the first is excluded by `Placement.ActiveBlocksInBounds`.
- Comparing the number of DMA chunks with the number of physical chunks when a mapping is made: only counts are compared, which says nothing about where the breaks are.
- Liveness and leaks: a failed map or an asynchronous I/O at munmap can keep the mapping's reference, and the callback may wait for ever.
- Batch submission, and the release of entries that were already started.
- The NVIDIA peer-to-peer calls, file-system iterators, user-page pinning, fallocate and page-cache flushing.
- Page sizes other than 4096, vectors that start inside a page, and asynchronous requests larger than the shadow buffer.
- Statistics, procfs, fault injection, module setup and the vendor symbol table: they carry no protocol or arithmetic of their own.
