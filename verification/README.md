# Verified model of the simple display system

This project models the parts of the display system where data is moved or
state is handed between actors, and proves what they keep. The source consists
of a Linux DRM driver with its XDMA core, a UEFI graphics driver, and two pixel
stream kernels.

| file | part of the system |
|---|---|
| `Arithmetic.dfy` | division facts used throughout |
| `Scatter.dfy` | scatter lists and the byte sequence they denote |
| `Descriptors.dfy`, `Prefetch.dfy` | hardware descriptors, control word, chains, and the engine's block prefetch over them |
| `Engine.dfy`, `EngineService.dfy` | one DMA engine: its queue, starting it, and retiring transfers against the completed-descriptor count |
| `LinePackets.dfy`, `LineFraming.dfy`, `LineSubmit.dfy`, `LineRequest.dfy` | line-packetised frames: counting, building, framing, submission, completion |
| `RequestList.dfy`, `RingSplit.dfy` | ordinary requests: cutting into software descriptors and splitting over the ring |
| `Aperture.dfy`, `AperturePasses.dfy` | transfers through a fixed endpoint window: one pass, and what several passes add up to |
| `UserBuffer.dfy` | cutting a user buffer into page pieces |
| `FrameUpload.dfy` | the frame upload protocol as a step relation over its five actors |
| `Compositor.dfy`, `FrameRows.dfy` | the CPU compositor that fills the line buffers, and the row table that sends them |
| `Rows.dfy`, `Blt.dfy`, `BltPixels.dfy` | block transfers of the UEFI graphics output protocol (section 12.9.2.3 of the UEFI Specification 2.10) |
| `DriverBinding.dfy` | Start and Stop with roll-back (section 11.1 of the UEFI Specification 2.10) |
| `PixelFormats.dfy`, `PixelKernels.dfy`, `PixelRoundTrip.dfy` | the pixel pack and unpack kernels |

Code that changes state is modelled as methods over arrays and objects with
loops like the source's. Each method is proved against a specification function
or states its new state outright; what the system promises is then proved about
those specifications. What the outside decides (allocations, register readings,
outcomes of PCI accesses, what a device or the kernel answers) enters as
parameters, so every result holds for all answers. The upload protocol is a
relation between states; its results hold for every interleaving and run of any
length.

Inductive steps are the recursive calls in the lemma bodies; automatic induction
is switched off on the lemmas Dafny would otherwise apply it to.

## Findings

Seven places where the code does not meet the obvious stronger statement are kept
as they are, with the exact condition or the run that shows it.

- The first pass of `xdma_init_request` rounds in 32 bits. An entry gets enough
  slots exactly if `len + limit - 1` stays below 2^32 (`RequestList.ReserveExact`).
  A list is refused exactly if its wrapping entries miss more slots than the
  others leave over (`RequestList.ListExact`), as one entry of 0xF0000002 bytes at
  the default limit is (`RequestList.RefusedExample`).
- A later pass of `xdma_xfer_aperture` walks the list from its head again and
  masks the offset. All passes together send the list exactly if every pass but
  the last stops before the first entry's last descriptor and at a byte where the
  mask gives the remainder (`AperturePasses.TransferRight`). The first entry's
  descriptors are counted by `AperturePasses.EntryCount`; the mask is right at all
  bytes exactly if the aperture is a power of two
  (`AperturePasses.MaskIsRemainder`, `AperturePasses.PowerRight`). The statement is
  about lists of mapped memory: no entry empty, no byte twice, under 4 GiB in all.
- `char_sgdma_map_user_buf_to_sgl` can only succeed below 4 GiB, because the
  piece size passes through a 32-bit minimum (`UserBuffer.LengthErrors`). The
  length of an aperture request is an `unsigned long` from user space
  (cdev_sgdma.c:814), so a longer one can arrive there; `read` and `write` callers
  may be capped below that by the kernel before they reach this function.
- After a start that could not restore the PCI Command word, a second start
  records the changed word in place of the entry word. Without such a start the
  entry word is kept over any calls (`DriverBinding.EntryWordKept`); with one,
  four calls lose it (`DriverBinding.EntryWordLost`).
- Enabling a pipe that is on cancels a queued upload and schedules no other, so
  a flushed snapshot can stay untaken with every actor idle
  (`FrameUpload.SnapshotCancelled`). It is the only exception to the no-lost-update
  property (`FrameUpload.NoLostUpdate`).
- A service call with a non-zero count that brings nothing beyond the descriptors
  already dequeued still judges the next queued transfer and fails it
  (`EngineService.NothingNew`). With anything new, later calls of a run retire
  what a single call would have (`EngineService.LaterService`).
- The modes V_16 and V_16C of `pixel_pack` do not look at the first pixel's last
  flag of a pair and wait for more input exactly on lines of odd length
  (`PixelRoundTrip.PackEndsWithLine`).

## Model

| member | source | states |
|---|---|---|
| `LinePackets.CountLineDescriptors` | Linux_DRM_Driver/fpga_drm/libxdma.c:4037-4081 | the counting loops succeed exactly when the list holds `lines * size` bytes, and then count as many descriptors as the building pass writes |
| `LinePackets.CountedExactly` | Linux_DRM_Driver/fpga_drm/libxdma.c:4048-4075 | counting from any point of a line succeeds exactly when the bytes still to come complete the lines still to come; the count is the number of pieces of the cut |
| `LineFraming.CutKeepsBytes` | Linux_DRM_Driver/fpga_drm/libxdma.c:4239-4275 | however mapping merged the list, the pieces name its bytes in its order, none twice and none left out |
| `LineFraming.PacketsAreRuns` | Linux_DRM_Driver/fpga_drm/libxdma.c:4252-4262 | cutting the pieces at the end-of-packet marks gives the byte stream in runs of one line, from any open line on |
| `LineFraming.LinesAreFramed` | Linux_DRM_Driver/fpga_drm/libxdma.c:4239-4275 | an accepted list becomes exactly `line_count` packets of `line_size` bytes, packet k being line k of the list |
| `LineFraming.PieceShape` | Linux_DRM_Driver/fpga_drm/libxdma.c:4246-4262 | no piece is empty or over the limit and the last one ends its packet |
| `LineFraming.CutIsOptimal` | Linux_DRM_Driver/fpga_drm/libxdma.c:4054-4067 | no way of sending the list that respects entries, line ends and the descriptor limit has fewer pieces |
| `LineFraming.CutIsAdmissible` | Linux_DRM_Driver/fpga_drm/libxdma.c:4054-4067 | the driver's own cut is such a way, so the minimum is attained |
| `LineFraming.GreedyIsFurthest` | Linux_DRM_Driver/fpga_drm/libxdma.c:4054-4056 | taking less than possible in one piece never lowers the number of pieces that follow by more than that one |
| `LineSubmit.ChainSays` | Linux_DRM_Driver/fpga_drm/libxdma.c:4239-4282 | read back from memory, the chain says exactly the pieces of the cut; only its last descriptor stops the engine and reports completion, and it points nowhere |
| `LineSubmit.FrameOnTheWire` | Linux_DRM_Driver/fpga_drm/libxdma.c:4239-4282 | for every accepted list: bytes in order, exact packets, one stopping descriptor, and a prefetch walk that reads the whole chain |
| `LineSubmit.PacketIsRow` | Linux_DRM_Driver/fpga_drm/libxdma.c:4239-4275 | when the mapped list denotes concatenated rows, packet k on the wire is row k |
| `FrameRows.PrepareActiveSgt` | Linux_DRM_Driver/fpga_drm/fpga_drm_drv.c:1776-1788 | the frame table gets one entry per visible line buffer, a line's bytes long, the entries behind stay |
| `FrameRows.TableReads` | Linux_DRM_Driver/fpga_drm/fpga_drm_drv.c:1776-1788 | reading the table's bytes is reading the line buffers one after the other |
| `FrameRows.ComposedOnWire` | Linux_DRM_Driver/fpga_drm/fpga_drm_drv.c:1747-1788 | however the mapping merges or moves the table, the list is accepted and packet k on the wire is row k of the composition |
| `LineSubmit.BuildEntry` | Linux_DRM_Driver/fpga_drm/libxdma.c:4239-4273 | the inner building loop writes the next pieces of the cut to consecutive slots and touches no other slot |
| `LineSubmit.BuildLines` | Linux_DRM_Driver/fpga_drm/libxdma.c:4236-4275 | the building pass stays inside the slice the counting pass reserved |
| `LineSubmit.BuildFrame` | Linux_DRM_Driver/fpga_drm/libxdma.c:4222-4282 | chaining, filling and adjacency together leave the complete chain of the cut in the reserved slice |
| `LineSubmit.QueueFrame` | Linux_DRM_Driver/fpga_drm/libxdma.c:4203-4310 | the counted frame is queued unless the device refuses, and then the engine, from the addresses written to its registers, fetches exactly the frame's slots |
| `LineSubmit.SubmitLines` | Linux_DRM_Driver/fpga_drm/libxdma.c:4083-4310 | a frame is queued exactly under the listed conditions; then its chain stands in the ring, the registers make the engine fetch exactly its slots, index and usage are as stated; a refusal leaves queue and usage as they were |
| `LineSubmit.CompleteLines` | Linux_DRM_Driver/fpga_drm/libxdma.c:3737-3859 | the reported byte count is the transfer's length if it was completed and zero otherwise; slots and usage are given back, a transfer still with the engine is aborted |
| `LineRequest.ServeAndComplete` | Linux_DRM_Driver/fpga_drm/libxdma.c:1107-1209 | serving a queued request once and settling it leaves the engine idle, reports the full length exactly if the whole chain was completed, and makes the request's callback exactly once if there was a count to judge by |
| `LineRequest.SendFrame` | Linux_DRM_Driver/fpga_drm/libxdma.c:4203-4310 | from idle a frame is queued exactly if it fits ring and device; any submission, service and completion then ends idle with nothing reserved, queued or running, the bytes and the one callback reported |
| `Descriptors.ControlDecodes` | Linux_DRM_Driver/fpga_drm/libxdma.c:2340-2370 | the packed control word decodes to the magic, the adjacent count and the flags that went in |
| `Descriptors.NextAdj` | Linux_DRM_Driver/fpga_drm/libxdma.c:656-672 | the adjacent count always fits its six-bit field |
| `Descriptors.PointersOf` | Linux_DRM_Driver/fpga_drm/libxdma.c:2273-2299 | each descriptor of a chain names the 32 bytes behind it, the last one nothing |
| `Descriptors.TransferDescInit` | Linux_DRM_Driver/fpga_drm/libxdma.c:2273-2299 | the slice is chained slot by slot with a null end, contents outside the slice unchanged |
| `Descriptors.FillAdjacent` | Linux_DRM_Driver/fpga_drm/libxdma.c:3039-3047 | every descriptor of the slice gets the count of those adjoining its successor, nothing else changes |
| `Descriptors.DescDone` | Linux_DRM_Driver/fpga_drm/libxdma.c:2374-2377 | the slice is cleared, the rest of the ring untouched |
| `Prefetch.PrefetchWalk` | Linux_DRM_Driver/fpga_drm/libxdma.c:656-672 | from the registers the driver programs, block prefetch reads every descriptor once and in order, stops on the last, and crosses no 2 KiB boundary |
| `Prefetch.WalksUnique` | Linux_DRM_Driver/fpga_drm/libxdma.c:656-672 | the chain dictates that walk: there is no other |
| `Prefetch.BlockFits` | Linux_DRM_Driver/fpga_drm/libxdma.c:656-672 | a block announced by the driver lies inside the transfer and inside one 2 KiB block of the bus |
| `Prefetch.AdjacentInSlots` | Linux_DRM_Driver/fpga_drm/libxdma.c:663-671 | the count reaches to the end of the 64-slot block or of the transfer, whichever is nearer |
| `Prefetch.ChainFetched` | Linux_DRM_Driver/fpga_drm/libxdma.c:690-776 | a finished chain in the ring is fetched slot by slot, from bus address ring + 32 * slot of its first descriptor |
| `Engines.Engine.Start` | Linux_DRM_Driver/fpga_drm/libxdma.c:690-776 | a start happens exactly on an idle engine with work, and programs the head of the queue |
| `Engines.Engine.Enqueue` | Linux_DRM_Driver/fpga_drm/libxdma.c:2459-2535 | a transfer is taken exactly if it has descriptors and the device is neither offline nor shutting down; order is kept, an idle engine is started, a refusal changes nothing |
| `EngineService.RetiredIsShortest` | Linux_DRM_Driver/fpga_drm/libxdma.c:836-1031 | the retired transfers are the shortest non-empty prefix whose descriptors reach the count, or the whole queue; only the last of them can fail, exactly if the prefix exceeds the count or, with an engine error, reaches it |
| `EngineService.ReportedExactly` | Linux_DRM_Driver/fpga_drm/libxdma.c:829-831 | of the retired transfers exactly those with a callback that end their request are called back, once each and in queue order |
| `EngineService.OutstandingIsNew` | Linux_DRM_Driver/fpga_drm/libxdma.c:1191-1192 | what is outstanding is the true number beyond those dequeued, however often the 32-bit count has wrapped |
| `EngineService.LaterService` | Linux_DRM_Driver/fpga_drm/libxdma.c:1191-1201 | a later call of a run retires up to the same transfer a single call would have reached |
| `EngineService.NothingNew` | Linux_DRM_Driver/fpga_drm/libxdma.c:925-994 | a call with nothing new to judge by fails the next transfer |
| `EngineService.WhatIsRead` | Linux_DRM_Driver/fpga_drm/libxdma.c:1130-1163 | a writeback counts for itself; without one, or when it flags an error, the registers are read |
| `EngineService.PassedSums` | Linux_DRM_Driver/fpga_drm/libxdma.c:843-890 | what the count still says is the count minus the descriptors passed, from any point of the queue |
| `EngineService.RetireHead` | Linux_DRM_Driver/fpga_drm/libxdma.c:811-834 | the head leaves the queue in its final state, and its callback is made if it has one and ends its request |
| `EngineService.ServiceTransferList` | Linux_DRM_Driver/fpga_drm/libxdma.c:836-893 | every transfer the count goes beyond is completed and reported in order |
| `EngineService.ServiceFinalTransfer` | Linux_DRM_Driver/fpga_drm/libxdma.c:925-1031 | the transfer the count ends in is completed if reached in full without error, and failed otherwise |
| `EngineService.Resume` | Linux_DRM_Driver/fpga_drm/libxdma.c:1063-1098 | afterwards the engine runs exactly if work is queued |
| `EngineService.ServiceQueue` | Linux_DRM_Driver/fpga_drm/libxdma.c:1188-1199 | both halves together retire exactly the prefix, in order, each with its verdict and callback |
| `EngineService.Service` | Linux_DRM_Driver/fpga_drm/libxdma.c:1107-1209 | a service call with a count settles the prefix, keeps the dequeued count of a run that goes on, and runs exactly if work is left; without one it changes no queue |
| `RequestList.PiecesCover` | Linux_DRM_Driver/fpga_drm/libxdma.c:3136-3150 | an entry becomes ceil(len / limit) non-empty pieces that cover it exactly |
| `RequestList.AllPiecesCover` | Linux_DRM_Driver/fpga_drm/libxdma.c:3131-3151 | the pieces of the whole list denote its bytes and total |
| `RequestList.ReserveExact` | Linux_DRM_Driver/fpga_drm/libxdma.c:3118-3123 | an entry gets enough slots exactly if its 32-bit rounding sum does not wrap |
| `RequestList.ListExact` | Linux_DRM_Driver/fpga_drm/libxdma.c:3118-3157 | a whole list gets room exactly if the slots its empty and long entries leave over cover what the wrapping ones miss; without a wrapping entry nothing is missing |
| `RequestList.RefusedExample` | Linux_DRM_Driver/fpga_drm/libxdma.c:3118-3157 | one entry of 0xF0000002 bytes at the default limit: sixteen pieces for one slot |
| `RequestList.DefaultLimitIsSafe` | Linux_DRM_Driver/fpga_drm/libxdma.c:3118-3123 | with the default descriptor limit no entry up to 0xF0000001 bytes wraps |
| `RequestList.CountSlots` | Linux_DRM_Driver/fpga_drm/libxdma.c:3118-3127 | the first pass counts the slots reserved per entry |
| `RequestList.CutEntry` | Linux_DRM_Driver/fpga_drm/libxdma.c:3136-3150 | the inner loop appends exactly the pieces of its entry |
| `RequestList.InitRequest` | Linux_DRM_Driver/fpga_drm/libxdma.c:3109-3164 | the request is refused exactly if the pieces outnumber the slots, a test on the lengths, and otherwise holds all pieces and the total |
| `RingSplit.SplitCount` | Linux_DRM_Driver/fpga_drm/libxdma.c:2974-3035 | n pieces from slot i on become exactly ceil((i + n) / slots) transfers |
| `RingSplit.TwoSuffice` | Linux_DRM_Driver/fpga_drm/libxdma.c:3957-4016 | a request that fits the ring needs at most two transfers, and their slots do not overlap |
| `RingSplit.SplitSaysTheSame` | Linux_DRM_Driver/fpga_drm/libxdma.c:2935-2972 | the transfers together say the same item sequence as one unsplit build |
| `RingSplit.EpAtIs` | Linux_DRM_Driver/fpga_drm/libxdma.c:2955-2956 | the endpoint of a piece lies as far behind the request's as the pieces before it are long, or is the request's on a fixed-address engine |
| `RingSplit.LengthIs` | Linux_DRM_Driver/fpga_drm/libxdma.c:2953-2954 | a transfer's length is the total of its pieces |
| `RingSplit.SlotSays` | Linux_DRM_Driver/fpga_drm/libxdma.c:2944-2970 | field by field: a descriptor's length, and which of its two addresses is the piece's and which the endpoint's |
| `RingSplit.SlicesInRing` | Linux_DRM_Driver/fpga_drm/libxdma.c:3001-3007 | every transfer is a non-empty contiguous slice of the ring and of the request |
| `RingSplit.SliceIsWalked` | Linux_DRM_Driver/fpga_drm/libxdma.c:3009-3047 | the engine's prefetch reads each transfer from end to end |
| `RingSplit.SliceSays` | Linux_DRM_Driver/fpga_drm/libxdma.c:2944-2970 | a transfer's descriptors say its part of the unsplit request |
| `RingSplit.TransferBuild` | Linux_DRM_Driver/fpga_drm/libxdma.c:2935-2972 | the slots are told the request's next items, and the endpoint address has then advanced by the bytes of all pieces so far, or stands still |
| `RingSplit.DescSet` | Linux_DRM_Driver/fpga_drm/libxdma.c:2390-2411 | the direction decides which end of the descriptor is the source |
| `RingSplit.BuildSlice` | Linux_DRM_Driver/fpga_drm/libxdma.c:3005-3047 | the passes over a slice leave one complete chain and touch no other slot |
| `RingSplit.TransferInit` | Linux_DRM_Driver/fpga_drm/libxdma.c:2974-3052 | one call takes the first slice of what is left, records its length and the bus address of its first slot, and moves ring index, usage and request position past it |
| `RingSplit.RingSaysRequest` | Linux_DRM_Driver/fpga_drm/libxdma.c:2935-3047 | the last slice built, a request that fits stands in the ring complete: the engine fetches exactly each slice's slots, which together name every piece's address, length and endpoint in order, and no other slot has changed |
| `RingSplit.SubmitOne` | Linux_DRM_Driver/fpga_drm/libxdma.c:3974-4016 | one turn builds its slice into the ring and queues its transfer exactly if the device takes it |
| `RingSplit.SubmitRequest` | Linux_DRM_Driver/fpga_drm/libxdma.c:3957-4016 | the loop succeeds exactly if no attempt meets a closed device; ring, queue and usage are stated for both outcomes; a request that fits then stands in the ring complete, and an idle engine is told to fetch its first transfer |
| `Aperture.WindowIsIdeal` | Linux_DRM_Driver/fpga_drm/libxdma.c:3285-3328 | byte k of any list goes to base + (start + k) mod aperture, once and in order |
| `Aperture.InsideWindow` | Linux_DRM_Driver/fpga_drm/libxdma.c:3295-3306 | no descriptor is empty, over the limit, outside the window or across its end |
| `Aperture.FillPass` | Linux_DRM_Driver/fpga_drm/libxdma.c:3281-3331 | one pass, from any progress, writes as many of the descriptors its walk asks for as the ring has slots, touches no other slot, and records entry, offset and bytes where it stopped |
| `AperturePasses.OnePass` | Linux_DRM_Driver/fpga_drm/libxdma.c:3248-3331 | the first pass over a list that fits the ring: its slots read back as byte k to base + k mod aperture, all inside the window, and the request is through |
| `AperturePasses.AndBits` | Linux_DRM_Driver/fpga_drm/libxdma.c:3282 | the mask works bit by bit |
| `AperturePasses.MaskIsRemainder` | Linux_DRM_Driver/fpga_drm/libxdma.c:3282 | the mask a later pass uses is the remainder for every offset exactly if the aperture is a power of two |
| `AperturePasses.EntryCount` | Linux_DRM_Driver/fpga_drm/libxdma.c:3295-3321 | from a fresh start an entry takes ceil(aperture / limit) descriptors for each whole window and ceil(rest / limit) for what remains |
| `AperturePasses.PassIsTurn` | Linux_DRM_Driver/fpga_drm/libxdma.c:3281-3331 | what a pass leaves in its slots is the next part of what the whole run of passes sends |
| `AperturePasses.TransferRight` | Linux_DRM_Driver/fpga_drm/libxdma.c:3248-3350 | all passes together send exactly the list if and only if every pass but the last stops before the first entry's last descriptor, at a byte where the mask is right |
| `AperturePasses.PowerRight` | Linux_DRM_Driver/fpga_drm/libxdma.c:3248-3350 | for an aperture of a power of two only the first of the two conditions matters |
| `AperturePasses.Transfer` | Linux_DRM_Driver/fpga_drm/libxdma.c:3248-3410 | on such a list the loop of passes ends with the request through and the ring as the passes leave it |
| `AperturePasses.SecondPassExample` | Linux_DRM_Driver/fpga_drm/libxdma.c:3283-3293 | a two-entry list whose second pass sends the first byte again |
| `UserBuffer.PagesTouched` | Linux_DRM_Driver/XDMA_driver/xdma/cdev_sgdma.c:301-303 | below 4 GiB the page formula counts exactly the pages the buffer touches |
| `UserBuffer.BufferIsCovered` | Linux_DRM_Driver/XDMA_driver/xdma/cdev_sgdma.c:349-360 | its pieces are the whole buffer in order, one per page, none empty, none beyond its page |
| `UserBuffer.LengthErrors` | Linux_DRM_Driver/XDMA_driver/xdma/cdev_sgdma.c:301-365 | the leftover-length error is unreachable exactly below 4 GiB, and no page is counted only for an empty aligned buffer |
| `UserBuffer.MappedBufferFits` | Linux_DRM_Driver/fpga_drm/libxdma.c:3118-3160 | entries of at most a page, or merged in any way while length and limit together stay within 4 GiB, always find room for all their pieces |
| `UserBuffer.CutPages` | Linux_DRM_Driver/XDMA_driver/xdma/cdev_sgdma.c:349-360 | the loop produces exactly those pieces and the leftover |
| `UserBuffer.MapUserBuffer` | Linux_DRM_Driver/XDMA_driver/xdma/cdev_sgdma.c:295-373 | mapping succeeds exactly for such buffers when all pages are pinned and no two neighbours coincide; a lack of memory and a fault are reported exactly under their conditions |
| `FrameUpload.StepKeepsInv` | Linux_DRM_Driver/fpga_drm/fpga_drm_drv.c:1493-1627 | every step of every actor keeps the protocol invariant |
| `FrameUpload.ReachableInv` | Linux_DRM_Driver/fpga_drm/fpga_drm_drv.c:1493-1930 | so it holds in every state any interleaving can reach |
| `FrameUpload.SingleFlight` | Linux_DRM_Driver/fpga_drm/fpga_drm_drv.c:1493-1627 | a pending completion or deferred upload implies a frame in flight, there is at most one, and accepted submissions equal finished frames plus the one in flight |
| `FrameUpload.NoLostUpdate` | Linux_DRM_Driver/fpga_drm/fpga_drm_drv.c:1839-1894 | with the pipe on the newest flushed snapshot has been taken, or a named actor is still due to look at it, or an enable of the running pipe has cancelled its upload |
| `FrameUpload.SnapshotCancelled` | Linux_DRM_Driver/fpga_drm/fpga_drm_drv.c:2148-2170 | a run that ends in that exception: the newest snapshot not taken, every actor idle |
| `FrameUpload.RestMeansUpToDate` | Linux_DRM_Driver/fpga_drm/fpga_drm_drv.c:1839-1906 | when every actor has come to rest the newest snapshot has been composed and nothing is in flight |
| `FrameUpload.TruthfulSuccess` | Linux_DRM_Driver/fpga_drm/fpga_drm_drv.c:1553-1592 | in every reachable state the counters move only when a frame's accounting ends, a success exactly if its request was completed, was not reported late and carried the active mode's frame size |
| `FrameUpload.FirstReport` | Linux_DRM_Driver/fpga_drm/fpga_drm_drv.c:1494-1530 | of the timeout, the stop's timeout and the engine's callback, whichever comes first for a frame decides whether it was late |
| `FrameUpload.ReportDecides` | Linux_DRM_Driver/fpga_drm/fpga_drm_drv.c:1494-1627 | over any run from a frame's first report to the end of its accounting, a late one counts as a failure and another as uploaded exactly if settled as completed with the frame size |
| `FrameUpload.SettleTakes` | Linux_DRM_Driver/fpga_drm/fpga_drm_drv.c:1616-1622 | settling takes the engine's state of the request, and its length exactly if completed |
| `FrameUpload.EngineDecides` | Linux_DRM_Driver/fpga_drm/fpga_drm_drv.c:1616-1622 | over any run up to settling, a request keeps the length it was submitted with and the state the engine gave it |
| `FrameUpload.SubmittedSize` | Linux_DRM_Driver/fpga_drm/fpga_drm_drv.c:1790-1837 | a frame is submitted with the active mode's frame size |
| `FrameUpload.ModeProgrammed` | Linux_DRM_Driver/fpga_drm/fpga_drm_drv.c:2154-2166 | a programmed mode turns the pipe on and sets the size frames are measured by |
| `FrameUpload.NoLostCompletion` | Linux_DRM_Driver/fpga_drm/fpga_drm_drv.c:1494-1520 | a frame the engine is done with is pending with the worker due, or its callback is still to come and will make it so |
| `FrameUpload.TimerForFrame` | Linux_DRM_Driver/fpga_drm/fpga_drm_drv.c:1614 | the timeout is set only while the engine holds a frame |
| `FrameUpload.Quiescence` | Linux_DRM_Driver/fpga_drm/fpga_drm_drv.c:1908-1930 | when disable returns nothing is in flight, and no later run submits a frame unless a mode is programmed and a flush follows it |
| `FrameUpload.QuietRun` | Linux_DRM_Driver/fpga_drm/fpga_drm_drv.c:2172-2185 | shut-off uploads stay shut off over any run without that sequence |
| `Compositor.CopyPrimaryFrame` | Linux_DRM_Driver/fpga_drm/fpga_drm_drv.c:1674-1701 | the copy succeeds exactly on usable geometry and fills the visible rows, all other bytes unchanged |
| `Compositor.BlendOverlay` | Linux_DRM_Driver/fpga_drm/fpga_drm_drv.c:1703-1745 | the overlay replaces exactly the bytes its destination covers |
| `Compositor.ComposeFrame` | Linux_DRM_Driver/fpga_drm/fpga_drm_drv.c:1747-1774 | success exactly on usable planes; then every visible byte is the overlay's where it covers and the primary's elsewhere |
| `Compositor.PixelInside` | Linux_DRM_Driver/fpga_drm/fpga_drm_drv.c:1674-1701 | byte k of pixel (x, y) lies at y * pitch + 4 * x + k of the framebuffer's memory |
| `Compositor.ComposedIsPointwise` | Linux_DRM_Driver/fpga_drm/fpga_drm_drv.c:1674-1774 | each byte of visible pixel (x, y) is that of the overlay's pixel shifted by the rectangle offset inside the destination and of the primary's own pixel elsewhere, read at its place in memory, for any pitch |
| `Compositor.SourceInside` | Linux_DRM_Driver/fpga_drm/fpga_drm_drv.c:1712-1722 | overlay pixels come from inside the source framebuffer |
| `Compositor.BlendRow` | Linux_DRM_Driver/fpga_drm/fpga_drm_drv.c:1734-1742 | one turn of the row loop replaces exactly the covered bytes of its line |
| `Blt.AcceptedExactly` | firmware/uefi/SimpleDisplayPkg/SimpleDisplayGopDxe/SimpleDisplayGopDxe.c:256-358 | a request is executed exactly if, in plain geometry, its rectangle has pixels, lies in the frame wherever it is read or written, and has a buffer with an addressable layout where it needs one |
| `Blt.BoundsExact` | firmware/uefi/SimpleDisplayPkg/Library/SimpleDisplayHwLib/SimpleDisplayHwLib.c:383-407 | a mode fits exactly if it is at most 1920 by 1080 and its frame ends inside the BAR |
| `Blt.BufferCell` | firmware/uefi/SimpleDisplayPkg/SimpleDisplayGopDxe/SimpleDisplayGopDxe.c:425-467 | byte k of row r of a request's rectangle lies at (y + r) * Delta + 4 * x + k of the caller's buffer |
| `Blt.StrideExact` | firmware/uefi/SimpleDisplayPkg/SimpleDisplayGopDxe/SimpleDisplayGopDxe.c:316-358 | the overflow tests accept a layout exactly if its last byte offset fits the word size |
| `Blt.NoRowOverflows` | firmware/uefi/SimpleDisplayPkg/SimpleDisplayGopDxe/SimpleDisplayGopDxe.c:316-358 | no row address of an accepted layout overflows, whatever Delta was given |
| `Blt.RowInFrame` | firmware/uefi/SimpleDisplayPkg/SimpleDisplayGopDxe/SimpleDisplayGopDxe.c:164-172 | a row of an accepted rectangle lies inside the visible frame, clear of registers and scratch |
| `Blt.ReadFrameBufferRow` | firmware/uefi/SimpleDisplayPkg/SimpleDisplayGopDxe/SimpleDisplayGopDxe.c:147-184 | a successful read delivers the row's bytes, a failed one nothing |
| `Blt.WriteFrameBufferRow` | firmware/uefi/SimpleDisplayPkg/SimpleDisplayGopDxe/SimpleDisplayGopDxe.c:189-224 | a successful write changes exactly the row's bytes, a failed one nothing |
| `Blt.FillRows` | firmware/uefi/SimpleDisplayPkg/SimpleDisplayGopDxe/SimpleDisplayGopDxe.c:375-394 | the rows done hold the fill row, every other byte is unchanged; success exactly if no access fails, otherwise the rows before the failing one |
| `Blt.StoreRows` | firmware/uefi/SimpleDisplayPkg/SimpleDisplayGopDxe/SimpleDisplayGopDxe.c:446-466 | the rows done equal the caller's rows, every other byte is unchanged; success exactly if no access fails |
| `Blt.LoadRows` | firmware/uefi/SimpleDisplayPkg/SimpleDisplayGopDxe/SimpleDisplayGopDxe.c:425-445 | the rows done of the caller's buffer equal the frame, its other bytes are unchanged; success exactly if no access fails |
| `Blt.SourceIntact` | firmware/uefi/SimpleDisplayPkg/SimpleDisplayGopDxe/SimpleDisplayGopDxe.c:395-424 | in the chosen direction a source row still holds its original bytes when its turn comes |
| `Blt.MoveRows` | firmware/uefi/SimpleDisplayPkg/SimpleDisplayGopDxe/SimpleDisplayGopDxe.c:395-424 | the rows moved equal the original source rows, everything else is unchanged; success exactly if none of the two accesses a row fails |
| `Blt.WorkingMeans` | firmware/uefi/SimpleDisplayPkg/SimpleDisplayGopDxe/SimpleDisplayGopDxe.c:375-466 | the accesses that work before the first failing one: all of them exactly if none fails |
| `Blt.Blt` | firmware/uefi/SimpleDisplayPkg/SimpleDisplayGopDxe/SimpleDisplayGopDxe.c:229-477 | each status is returned exactly under its condition, DeviceError exactly if an access fails; the rows before it are transferred and are the only bytes changed |
| `BltPixels.CopyIsSimultaneous` | firmware/uefi/SimpleDisplayPkg/SimpleDisplayGopDxe/SimpleDisplayGopDxe.c:395-424 | an overlapping copy equals a simultaneous copy from the old frame, pixels outside the destination unchanged |
| `BltPixels.FillIsUniform` | firmware/uefi/SimpleDisplayPkg/SimpleDisplayGopDxe/SimpleDisplayGopDxe.c:375-394 | after a fill the rectangle holds the pixel everywhere and the rest of the frame is unchanged |
| `BltPixels.OnlyTheFrame` | firmware/uefi/SimpleDisplayPkg/Library/SimpleDisplayHwLib/SimpleDisplayHwLib.c:383-407 | no accepted request changes a byte outside the visible frame |
| `BltPixels.RoundTrip` | firmware/uefi/SimpleDisplayPkg/SimpleDisplayGopDxe/SimpleDisplayGopDxe.c:425-467 | buffer to video and back returns the same pixels, bytes outside both rectangles unchanged |
| `BltPixels.StoreAndFetch` | firmware/uefi/SimpleDisplayPkg/SimpleDisplayGopDxe/SimpleDisplayGopDxe.c:425-467 | storing a rectangle and fetching it into a buffer of any layout succeeds exactly if no access fails, returns the same pixels and touches nothing else of the target |
| `BltPixels.SetMode` | firmware/uefi/SimpleDisplayPkg/SimpleDisplayGopDxe/SimpleDisplayGopDxe.c:89-142 | a mode is selected exactly if it fits the BAR and every row can be cleared, and success leaves a black frame |
| `DriverBinding.Controller.RestorePciAttributes` | firmware/uefi/SimpleDisplayPkg/SimpleDisplayGopDxe/SimpleDisplayGopDxe.c:584-646 | success exactly if the register reads back as saved; a failure keeps the saved state |
| `DriverBinding.Controller.EnablePciMemoryDecode` | firmware/uefi/SimpleDisplayPkg/SimpleDisplayGopDxe/SimpleDisplayGopDxe.c:650-709 | success exactly if the memory bit is seen set in the register |
| `DriverBinding.Controller.Bind` | firmware/uefi/SimpleDisplayPkg/SimpleDisplayGopDxe/SimpleDisplayGopDxe.c:735-816 | binding takes all of its steps or none |
| `DriverBinding.Controller.CreateChild` | firmware/uefi/SimpleDisplayPkg/SimpleDisplayGopDxe/SimpleDisplayGopDxe.c:824-951 | the entry word is on record before anything changes it |
| `DriverBinding.Controller.Undo` | firmware/uefi/SimpleDisplayPkg/SimpleDisplayGopDxe/SimpleDisplayGopDxe.c:928-996 | the roll-back gives everything back or keeps marker, opens and saved word for a retry |
| `DriverBinding.Controller.Start` | firmware/uefi/SimpleDisplayPkg/SimpleDisplayGopDxe/SimpleDisplayGopDxe.c:714-996 | an error on an unbound controller leaves the entry state, or the marker and both opens with the entry word on record |
| `DriverBinding.Controller.StopParent` | firmware/uefi/SimpleDisplayPkg/SimpleDisplayGopDxe/SimpleDisplayGopDxe.c:1012-1061 | success exactly if the entry word is back and the marker gone; then the controller is unbound |
| `DriverBinding.Controller.StopChild` | firmware/uefi/SimpleDisplayPkg/SimpleDisplayGopDxe/SimpleDisplayGopDxe.c:1063-1129 | success removes the child and restores the entry word; a child that cannot be removed stays |
| `DriverBinding.Perform` | firmware/uefi/SimpleDisplayPkg/SimpleDisplayGopDxe/SimpleDisplayGopDxe.c:714-1129 | a call on the object is the specified step, with the specified success |
| `DriverBinding.CallKeepsEntry` | firmware/uefi/SimpleDisplayPkg/SimpleDisplayGopDxe/SimpleDisplayGopDxe.c:824-866 | one call keeps the entry word exactly if it does not record another word in its place |
| `DriverBinding.EntryWordKept` | firmware/uefi/SimpleDisplayPkg/SimpleDisplayGopDxe/SimpleDisplayGopDxe.c:714-1129 | over any sequence of calls without such a start the word on record is the entry word, and a controller that ends unbound carries it |
| `DriverBinding.StartRollsBack` | firmware/uefi/SimpleDisplayPkg/SimpleDisplayGopDxe/SimpleDisplayGopDxe.c:928-996 | a failed start leaves the controller exactly as it was, or bound with its entry word on record, and says which |
| `DriverBinding.RollBackSucceeds` | firmware/uefi/SimpleDisplayPkg/SimpleDisplayGopDxe/SimpleDisplayGopDxe.c:928-996 | a failed start whose every roll-back step succeeds has changed nothing |
| `DriverBinding.ErrorFreeLife` | firmware/uefi/SimpleDisplayPkg/SimpleDisplayGopDxe/SimpleDisplayGopDxe.c:714-1129 | start, child stop and parent stop without an error end in exactly the state before the start |
| `DriverBinding.FailureIsRecovered` | firmware/uefi/SimpleDisplayPkg/SimpleDisplayGopDxe/SimpleDisplayGopDxe.c:928-1129 | and so do successful stops after a start that failed and could not roll back |
| `DriverBinding.EntryWordLost` | firmware/uefi/SimpleDisplayPkg/SimpleDisplayGopDxe/SimpleDisplayGopDxe.c:824-866 | four calls, a failed start, a second start and two successful stops, that end unbound with another word |
| `PixelKernels.PixelPack` | vivado_project/hls/pixel_pack/pixel_pack.cpp:7-127 | the loops of every mode write exactly the words of the group-wise specification and read no pixel too many |
| `PixelKernels.PixelUnpack` | vivado_project/hls/pixel_unpack/pixel_unpack.cpp:7-104 | the loops of every mode write exactly the pixels of the specification |
| `PixelFormats.MeanIsFloor` | vivado_project/hls/pixel_pack/pixel_pack.cpp:112-119 | two pixels share the mean of a byte, rounded down |
| `PixelRoundTrip.PackLayout` | vivado_project/hls/pixel_pack/pixel_pack.cpp:19-126 | every byte of every word of a packed line, by its position in the line, with the user flags each word carries |
| `PixelKernels.ReadFour` | vivado_project/hls/pixel_pack/pixel_pack.cpp:27-35 | the conditional reads take a group up to and including a last flag |
| `PixelKernels.WriteThree` | vivado_project/hls/pixel_pack/pixel_pack.cpp:37-42 | the three slices of the 96-bit buffer are the regrouped pixels |
| `PixelKernels.ReadTwo` | vivado_project/hls/pixel_pack/pixel_pack.cpp:88-93 | both pixels are read whatever the first one's last flag says |
| `PixelRoundTrip.PackUndoesUnpack` | vivado_project/hls/pixel_pack/pixel_pack.cpp:19-126 | packing an unpacked line of any length gives every word back as `Restored` says, and both calls read exactly their line |
| `PixelRoundTrip.UnpackUndoesPack` | vivado_project/hls/pixel_unpack/pixel_unpack.cpp:17-103 | unpacking a packed line gives every pixel back as `Kept` says, in V_16C with the rounded mean of the pair |
| `PixelRoundTrip.ExactWords` | vivado_project/hls/pixel_pack/pixel_pack.cpp:19-126 | unpack then pack is the identity always for V_8, V_16, V_16C, for V_24 exactly if user flags sit on group starts, for V_32 exactly if the top byte is the alpha |
| `PixelRoundTrip.ExactPixels` | vivado_project/hls/pixel_unpack/pixel_unpack.cpp:17-49 | pack then unpack is the identity always for V_32 and for V_24 exactly if user flags sit on group starts |
| `PixelRoundTrip.PackEndsWithLine` | vivado_project/hls/pixel_pack/pixel_pack.cpp:83-93 | a line of any length is packed to its end, except that the paired modes wait for more input exactly on odd lines |
| `PixelRoundTrip.UnpackEndsWithLine` | vivado_project/hls/pixel_unpack/pixel_unpack.cpp:19-37 | unpacking waits for more input exactly if the line is not a whole number of groups |

## Left out

- LineSubmit.CompleteLines: covers the single-transfer requests of the line path; a request of several transfers whose later ones are not at the head of the queue is not modelled, because aborting such a transfer leaves it on the list (libxdma.c:2439-2448).
- RingSplit.SubmitRequest: the non-blocking loop keeps two transfer records; the model hands out a fresh one per round, which agrees with the code up to two rounds, all a request that fits the ring needs.
- RingSplit.TransferBuild: the writeback addresses of receive-side streaming, the end-of-packet flush and credit mode are not part of the model.
- AperturePasses.TransferRight: the total of a list is below 4 GiB, beyond which the driver's own total wraps; windows of size zero, with which the driver's loop makes no progress, are not modelled.
- AperturePasses.Transfer: every transfer of a pass completes; a failed or timed out one ends the loop early. The loop is given only for lists it can send, since on others it need not end.
- Aperture: linking the finished descriptors of a pass repeats the chaining proved for ordinary transfers and is not modelled a second time.
- RequestList.InitRequest: the number of slots is unbounded; the driver's signed 32-bit counters are not modelled, and a piece is counted rather than stored in an array of the reserved size, so writes past its end before the final comparison (libxdma.c:3138-3150) are not captured.
- Byte totals of a request are unbounded numbers; the driver's fit 32 bits.
- Bus, endpoint and user addresses are unbounded numbers and the two halves of each 64-bit descriptor field are kept as one number; only the low half used for the adjacent count is taken modulo 2^32.
- Compositor.CopyPrimaryFrame: row offsets are exact products; the driver multiplies row and pitch in 32 bits, which differs for framebuffers beyond 4 GiB.
- EngineService.Service: cyclic transfers, performance counters, shutdown wait queues and failing register accesses are not modelled.
- Engines.Engine.Start: the configuration of the engine's mode register is one successful step, and so is the status read; the status word it reads back is a parameter. Their failures are not modelled.
- Engines.Engine.Enqueue: a start that fails after the transfer was put in the queue, and leaves it there, is not modelled.
- FrameUpload: setting the completion flags and scheduling the worker is one step, KMS callbacks are serialised, and the engine's lock is not modelled between a state change and its callback, which only adds interleavings.
- FrameUpload.Quiescence: stated for disable only; enable stops uploads with the pipe still on (fpga_drm_drv.c:2154), so the same cannot be said of it.
- FrameUpload: whether uploads are enabled is fixed for a run; the module parameter behind it is writable (fpga_drm_drv.c:228-229), and a snapshot skipped while it was off is not taken when it is switched on.
- FrameUpload: framebuffer reference counts are not part of the state; the early return at fpga_drm_drv.c:1855-1859 does not give back the overlay reference it took.
- Descriptor usage after a refused `xdma_xfer_submit` (libxdma.c:3608-3613) is stated by `RingSplit.SubmitRequest` only for the non-blocking form of the same loop.
- DriverBinding.Controller.Start: closing a protocol always succeeds, the PCI attribute word is not tracked beside the Command register, and the firmware's own error codes are merged into one.
- Blt.Blt: null `This` pointers, task priority levels and the freeing of the row buffer are not modelled; a failed row access is taken to have moved no byte.
- PixelKernels.PixelPack: one call handles one line; the free-running restart of the kernel is the next call on the rest of the stream.
- The polling threads, the second copy of the XDMA core, interrupt and BAR set-up, character devices and ioctls.
- Mode tables, clock, timing, I2C and GPIO programming, colour conversion and trace blocks: constants and straight-line register writes.
- EDID protocols, `QueryMode` and the Supported check of the UEFI driver.
