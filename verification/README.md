# Verification of the HNMos kernel

This project models the parts of the HNMos Kernel 01 that keep state of their own, together with the host
program at the other end of its serial line, and proves what they guarantee over every input and every run.
Each module follows one component of the kernel. Where the source updates static state in place, the model is
a class with the same fields and arrays; every method is proved against a function on values, and the theorems
are proved about those functions.

- `PhysicalMemory`, `KernelHeap`: the page bitmap filled from the Multiboot memory map (Multiboot Specification
  0.6.96, section 3.3), its counters and next-fit search, and the bump heap on top of it.
- `SyncCheckpoint`: the spinlock, the fence counters and the snapshots, as machine steps of any number of
  processors on sequentially consistent memory.
- `Text`, `Ring`, `HexCodec`, `AiTask`, `SerialTransport`, `SerialFraming`, `AiBridge`: the kernel's end of the
  HNAI1 serial protocol, from the interrupt-fed ring to the task a line completes.
- `HostBridge`, `HostSession`, `WireProtocol`, `WireDelivery`: the host's end and its session, both ends against
  each other, and a response cut anywhere on its way.
- `AiSession`, `AiStudio`: the volatile credential and the screen's capture modes.
- `Framebuffer`, `Cursor`, `Console`, `ConsoleText`: the pixels as bytes, the cursor drawn over saved pixels, the
  text console that must stay the rendering of a grid of cells, and what a text looks like on it.
- `Scheduler`, `EventQueue`, `Workspace`: the cooperative scheduler, the event ring, and the policy in front of
  the RAM file system.

32-bit wrap-around is written out wherever the source can reach it. A picture is a map from screen positions to
the bytes of the pixel there, so statements about pictures are statements about framebuffer bytes; the
screen's pitch covers a row and the buffer holds all rows. Bytes of text are characters below 256.

Where the code does not do what one would expect, the model follows the code, and the exact condition is proved:

- A memory map entry whose base is above 0xFFFFF000 and that is at least a page long frees every page: rounding
  its base up wraps to 0 (`PhysicalMemory.MapFreeSetExactly`, `PhysicalMemory.FreesExactlyContained`). A reserved
  range whose end rounds up past the address space reserves nothing (`PhysicalMemory.ReservesExactlyMet`).
- Without a map, sizes of 4 GiB and more wrap, and may leave nothing free (`PhysicalMemory.BasicFreeSetExactly`).
- A map entry of 4 GiB or more is recorded as 2^32-1 KiB, whatever its length (`PhysicalMemory.EntryKibExactly`).
- A request for more than 0xFFFFFFF8 bytes is rounded to 0 and gets a block of no bytes (`KernelHeap.GrantCovers`).
- The waste bound holds exactly when some returned block is of at most 0xFFFFFFF8 bytes, so always when no larger
  one is asked for (`KernelHeap.RunWasteBounded`, `KernelHeap.ModestWasteBounded`, `KernelHeap.WasteUnbounded`).
- The line buffer is never cleared, so a response header of exactly 19 characters is completed by bytes of an
  earlier line (`SerialFraming.ParseDependsOnLineAlone`). A line that fills it starts over, and what is behind the
  last multiple of 2304 characters is parsed (`SerialFraming.FramingIndependentOfChunks`).
- A yield with no task ready resumes the current task even if it was blocked or stopped
  (`Scheduler.YieldRunsOne`, `Scheduler.BlockedTaskResumed`).
- The console keeps the rendering over every run exactly when the text rows fill the screen and there are two or
  more (`Console.RunsFaithfulExactly`, `Console.ScrollFaithfulExactly`).
- The workspace policy denies file names with two dots in them, which would stay inside
  (`Workspace.DotsInNameDenied`).
- The host answers what it cannot read with id 00000000, which no task submitted before the counter wraps has
  (`AiBridge.IdIsSubmitCount`).

`dafny verify dfyconfig.toml` checks the whole project.

## Model

| member | source | states |
|---|---|---|
| `PhysicalMemory.MapFreeSetMeaning` | kernel01/kernel/memory/pmm.c:178-309 | for every memory map with no wrapping base, a page is free after init exactly when one available low entry wholly contains it, it ends at or below 1 GiB, and it meets neither low memory, nor the kernel image, nor the boot record; and it is below the page count |
| `PhysicalMemory.MapFreeSetExactly` | kernel01/kernel/memory/pmm.c:178-309 | for every map the free set has that meaning for all pages exactly when no such entry's base wraps, or every tracked page that is not off limits is usable anyway |
| `PhysicalMemory.FreeIsAllowed` | kernel01/kernel/memory/pmm.c:261-271 | for every map at all, a free page is below the page count and not off limits |
| `PhysicalMemory.FreeNeedsTypeOne` | kernel01/kernel/memory/pmm.c:206-234 | for every map at all, a free page comes from an entry of type 1 with a base below 4 GiB that wholly contains it or whose base wraps; no entry of another type frees anything |
| `PhysicalMemory.ReservedExample` | kernel01/kernel/memory/pmm.c:206-234 | 128 MiB with the last 128 KiB of type 2: the reserved pages stay used, the page before them is free, and the sizes and counts of both kinds |
| `PhysicalMemory.WrappedMapFreesAll` | kernel01/kernel/memory/pmm.c:43-46 | a map with one available entry whose base is above 0xFFFFF000 and that is a page long frees every tracked page that is not off limits |
| `PhysicalMemory.WrappedMapExample` | kernel01/kernel/memory/pmm.c:109-131 | a concrete map of that kind, and a page it frees that no entry contains |
| `PhysicalMemory.FreesExactlyContained` | kernel01/kernel/memory/pmm.c:109-131 | marking a range free frees exactly the tracked pages it wholly contains, for exactly the ranges whose rounded base does not wrap |
| `PhysicalMemory.ReservesExactlyMet` | kernel01/kernel/memory/pmm.c:133-155 | marking a range used reserves exactly the tracked pages it meets, for exactly the ranges whose rounded end does not wrap |
| `PhysicalMemory.SizingCoversMarking` | kernel01/kernel/memory/pmm.c:178-234 | the page count of the first pass is above every page the second pass frees, so the bound check never drops one |
| `PhysicalMemory.PagesCoverHighest` | kernel01/kernel/memory/pmm.c:157-204 | the page count is exactly that of the highest 64-bit end of any entry, of at least 1 MiB, cut at 1 GiB |
| `PhysicalMemory.MapTotalIsSum` | kernel01/kernel/memory/pmm.c:206-234 | on the map path usable, reserved and total KiB are the unbounded sums over the entries capped at 2^32-1, and total is the capped sum of the other two |
| `PhysicalMemory.RecordAllTallies` | kernel01/kernel/memory/pmm.c:62-70 | from any tally, recording a map adds each entry to exactly one of the two sizes and counts, saturating |
| `PhysicalMemory.EntryKibExactly` | kernel01/kernel/memory/pmm.c:53-60 | a recorded length is the 64-bit length in KiB capped at 2^32-1 exactly for entries below 4 GiB and those that reach the cap; every entry of 4 GiB or more counts as the cap |
| `PhysicalMemory.SumKibExactly` | kernel01/kernel/memory/pmm.c:62-70 | on a map of entries recorded exactly the capped sums are those of the 64-bit lengths |
| `PhysicalMemory.BasicTallyMeaning` | kernel01/kernel/memory/pmm.c:236-259 | without a map upper memory is usable, low memory and the first MiB are reserved, and the total is their sum, modulo 2^32 |
| `PhysicalMemory.BasicFreeSetMeaning` | kernel01/kernel/memory/pmm.c:236-259 | without a map, and when the wrapped sizes reach, a page is free exactly when it lies in upper memory below 1 GiB and is not off limits |
| `PhysicalMemory.BasicFreeSetExactly` | kernel01/kernel/memory/pmm.c:236-259 | the free set has that meaning for every kernel end and record address for exactly the sizes whose wrapped total and upper memory still reach the last page wanted, which are all those that fit the address space and some larger ones |
| `PhysicalMemory.BasicSizesExample` | kernel01/kernel/memory/pmm.c:250 | exactly 4 GiB without a map: the total wraps to 0 and nothing is free |
| `PhysicalMemory.WithheldIsOffLimits` | kernel01/kernel/memory/pmm.c:261-271 | the pages the reservations take are exactly those that meet low memory, the kernel image or the boot record |
| `PhysicalMemory.ScanIsNextFit` | kernel01/kernel/memory/pmm.c:311-328 | the probe order finds the cyclically first free page from the cursor, for every cursor and every non-empty free set |
| `PhysicalMemory.ClearBit` | kernel01/kernel/memory/pmm.c:82-85 | clearing a page's bit in its byte changes no other bit |
| `PhysicalMemory.SetBit` | kernel01/kernel/memory/pmm.c:77-80 | setting a page's bit in its byte changes no other bit |
| `PhysicalMemory.PageManager.MarkPageFree` | kernel01/kernel/memory/pmm.c:87-96 | one page below the page count becomes free, and the two counters move with it; freeing a free page or one out of range changes nothing |
| `PhysicalMemory.PageManager.MarkPageUsed` | kernel01/kernel/memory/pmm.c:98-107 | the reverse |
| `PhysicalMemory.PageManager.MarkRangeFree` | kernel01/kernel/memory/pmm.c:109-131 | the bitmap's free set grows by exactly the pages of the range, with the counters still counting it |
| `PhysicalMemory.PageManager.MarkRangeUsed` | kernel01/kernel/memory/pmm.c:133-155 | the free set shrinks by exactly the pages of the range |
| `PhysicalMemory.PageManager.PrepareBitmap` | kernel01/kernel/memory/pmm.c:157-176 | every bit is set, also those from the page count on, which is the size rounded up and capped at 262144 pages |
| `PhysicalMemory.PageManager.MapHighestAddress` | kernel01/kernel/memory/pmm.c:178-204 | the first pass over the map as it is laid out in memory returns the highest end over all entries |
| `PhysicalMemory.PageManager.ParseMap` | kernel01/kernel/memory/pmm.c:206-234 | the second pass frees the union of what the entries free and records every entry |
| `PhysicalMemory.PageManager.InitFromBasicMemory` | kernel01/kernel/memory/pmm.c:236-259 | the path without a map, with its wrapping sizes |
| `PhysicalMemory.PageManager.ReserveKernelRanges` | kernel01/kernel/memory/pmm.c:261-271 | the three reservations |
| `PhysicalMemory.PageManager.Init` | kernel01/kernel/memory/pmm.c:273-309 | the free set, page count and tallies after init on each of the three paths; the counters count the bitmap and page 0 is not free |
| `PhysicalMemory.PageManager.AllocPage` | kernel01/kernel/memory/pmm.c:311-328 | 0 exactly when nothing is free; else the cyclically first free page from the cursor, never page 0, and only its bit changes |
| `PhysicalMemory.PageManager.FreePage` | kernel01/kernel/memory/pmm.c:330-339 | frees the page of an aligned tracked address and nothing else |
| `KernelHeap.RunBlocksSafe` | kernel01/kernel/memory/heap.c:55-83 | over every run of block allocations, page allocations and frees of lent pages: blocks of at most 0xFFFFFFF8 bytes are 8-aligned, inside one boot-free page each, pairwise disjoint, and off every free or lent page |
| `KernelHeap.BlocksAvoidKernel` | kernel01/kernel/memory/heap.c:55-83 | both allocators composed with any boot map: no such block touches low memory, the kernel image or the boot record |
| `KernelHeap.RunWasteBounded` | kernel01/kernel/memory/heap.c:19-83 | in every reachable state with a page, total bytes are 4096 per page, used bytes are those of the returned blocks and at most the total, and twice the used bytes exceed 4096 times one page less exactly when some returned block is of at most 0xFFFFFFF8 bytes |
| `KernelHeap.ModestWasteBounded` | kernel01/kernel/memory/heap.c:19-83 | so the waste bound holds over every run whose requests are of at most 0xFFFFFFF8 bytes |
| `KernelHeap.WasteUnbounded` | kernel01/kernel/memory/heap.c:14-17 | one request for 0xFFFFFFF9 bytes opens a page of which nothing is used, and the bound fails |
| `KernelHeap.RunUses` | kernel01/kernel/memory/heap.c:55-83 | over every run the used bytes are the rounded sizes of the returned blocks added up |
| `KernelHeap.RunKeeps` | kernel01/kernel/memory/heap.c:19-83 | every run partitions the boot-time pages into free, lent and heap pages |
| `KernelHeap.GrantCovers` | kernel01/kernel/memory/heap.c:14-17 | the rounded size covers the request, by less than 8 bytes, for exactly the sizes up to 0xFFFFFFF8; above, it is 0 |
| `KernelHeap.RequestsServed` | kernel01/kernel/memory/heap.c:55-83 | in every reachable state a request that fits behind the open page's offset returns page plus offset with the page manager untouched; else it takes the cyclically first free page; else, or above a page, it is refused and counted |
| `KernelHeap.ServedExactly` | kernel01/kernel/memory/heap.c:55-83 | in every reachable state a request of 1 to 4096 bytes returns a block if and only if its size rounded up to 8 fits behind the open page's offset or a page is free |
| `KernelHeap.RequestsCounted` | kernel01/kernel/memory/heap.c:55-83 | over every run `allocations` is the number of blocks returned and `failures` that of the refused requests for at least one byte, modulo 2^32 |
| `KernelHeap.Heap.constructor` | kernel01/kernel/memory/heap.c:35-53 | an empty heap, ready exactly when the page manager is |
| `KernelHeap.Heap.NewPage` | kernel01/kernel/memory/heap.c:19-33 | takes one page from the page manager and opens it, or counts a failure |
| `KernelHeap.Heap.Kmalloc` | kernel01/kernel/memory/heap.c:55-83 | result, counters, bump pointer and page manager after a call, for every size |
| `KernelHeap.Heap.LendPage` | kernel01/kernel/memory/pmm.c:311-328 | a page taken by another caller, as the heap sees the page manager |
| `KernelHeap.Heap.ReturnPage` | kernel01/kernel/memory/pmm.c:330-339 | a page given back, as the heap sees the page manager |
| `SyncCheckpoint.MutualExclusion` | kernel01/kernel/sync/sync_asm.s:34-81 | for any number of processors and any interleaving of machine steps: at most one is between its winning exchange and its releasing store, the lock word is 1 exactly then, and that one has interrupts off and its entry flag saved |
| `SyncCheckpoint.FlagsRestored` | kernel01/kernel/sync/sync_asm.s:42-49 | the step that ends an operation restores the interrupt flag of its call |
| `SyncCheckpoint.FreeLockTaken` | kernel01/kernel/sync/sync_asm.s:53-81 | a processor that finds the lock free is inside after at most five steps of its own, and has changed nothing but the lock |
| `SyncCheckpoint.FinishesAlone` | kernel01/kernel/sync/sync_asm.s:34-81 | left alone, a processor that finds the lock free finishes its operation in a number of steps known beforehand, releases the lock, and its operation is the last of the log |
| `SyncCheckpoint.Linearizable` | kernel01/kernel/sync/system_sync.c:106-175 | every run is equivalent to its finished operations run one after another in the order of their releases, returned copies included |
| `SyncCheckpoint.AloneAdds` | kernel01/kernel/sync/system_sync.c:41-104 | run alone, an operation adds exactly its own increments, and its copy shows the counters it leaves and the readings it took |
| `SyncCheckpoint.NoIncrementLost` | kernel01/kernel/sync/system_sync.c:41-65 | in any interleaving the counters equal the increments of all finished operations since the last init, modulo 2^32 |
| `SyncCheckpoint.SnapshotConsistent` | kernel01/kernel/sync/system_sync.c:67-104 | every returned snapshot has as many CPU as RAM fences and no more sequence steps than fences, and its own readings |
| `SyncCheckpoint.SnapshotsOrdered` | kernel01/kernel/sync/system_sync.c:155-175 | two snapshots with no init between them are ordered in every counter while the counts fit 32 bits |
| `SyncCheckpoint.ReadyExactlyAfterInit` | kernel01/kernel/sync/system_sync.c:220-228 | in every run the ready question is answered with 1 exactly when an init was finished before it, and else with 0 |
| `SyncCheckpoint.StepKeeps` | kernel01/kernel/sync/sync_asm.s:53-81 | one machine step of one processor keeps the invariant of lock, flags, words and log |
| `Text.SplitJoins` | tools/ai/openai_bridge.py:198-219 | splitting cuts exactly at the separators: joined again the pieces give the stream |
| `Text.SplitAppend` | tools/ai/openai_bridge.py:198-219 | appending to a stream only extends the piece it was left in |
| `HexCodec.DecodeEncode` | kernel01/kernel/ai/ai_serial_transport.c:47-95 | decoding undoes encoding on every byte string |
| `HexCodec.NumberReads` | kernel01/kernel/ai/ai_serial_transport.c:143-163 | reading a printed number gives it back when the digits can hold it |
| `HexCodec.DecodesExactly` | kernel01/kernel/ai/ai_serial_transport.c:165-196 | a field is decoded exactly when it has an even number of characters and all are hexadecimal digits, and to half as many bytes |
| `HexCodec.NumberReadExactly` | kernel01/kernel/ai/ai_serial_transport.c:143-163 | a number is read exactly when all its characters are hexadecimal digits |
| `HexCodec.AnyCase` | kernel01/kernel/ai/ai_serial_transport.c:56-71 | fields are read alike in upper and lower case |
| `HexCodec.NumberAnyCase` | kernel01/kernel/ai/ai_serial_transport.c:56-71 | so are numbers |
| `Ring.FullWhenNextTaken` | kernel01/kernel/ai/ai_serial_transport.c:97-108 | the writer finds the next slot taken exactly when one slot less than the capacity is queued |
| `Ring.PushAppends` | kernel01/kernel/ai/ai_serial_transport.c:97-108 | a push appends to the queue the ring holds, across the wrap of the index |
| `Ring.PopTakesFirst` | kernel01/kernel/ai/ai_serial_transport.c:110-119 | a pop takes the queue's first element |
| `AiTask.Task.CopyText` | kernel01/kernel/ai/ai_task.c:3-19 | the buffer reads as the source cut at its NUL and at the capacity; a null source empties it |
| `AiTask.Task.Prepare` | kernel01/kernel/ai/ai_task.c:36-54 | the task after preparation |
| `AiTask.Task.SetOutput` | kernel01/kernel/ai/ai_task.c:56-63 | the output becomes the text, cut to fit |
| `SerialTransport.Transport.PushRx` | kernel01/kernel/ai/ai_serial_transport.c:97-108 | a byte joins the queue, or is dropped and counted when 4095 are queued |
| `SerialTransport.Transport.PopRx` | kernel01/kernel/ai/ai_serial_transport.c:110-119 | the first queued byte, if there is one |
| `SerialTransport.Transport.CaptureRx` | kernel01/kernel/ai/ai_serial_transport.c:121-126 | every byte the receiver holds is pushed, in order |
| `SerialTransport.Transport.PrefixMatches` | kernel01/kernel/ai/ai_serial_transport.c:128-141 | whether the line buffer starts with a text |
| `SerialTransport.Transport.ParseU32` | kernel01/kernel/ai/ai_serial_transport.c:143-163 | the value of eight hexadecimal digits, or failure |
| `SerialTransport.Transport.DecodeText` | kernel01/kernel/ai/ai_serial_transport.c:165-196 | the decoded payload cut at 1023 bytes, or failure on an odd or bad digit |
| `SerialTransport.Transport.ParseResponse` | kernel01/kernel/ai/ai_serial_transport.c:198-223 | exactly what the whole line buffer, stale bytes included, says about the task |
| `SerialTransport.Transport.TakeByte` | kernel01/kernel/ai/ai_serial_transport.c:275-310 | one byte of the line assembler |
| `SerialTransport.Transport.Poll` | kernel01/kernel/ai/ai_serial_transport.c:275-310 | captures, then reads lines until one answers the task or the queue is empty |
| `SerialTransport.Transport.Send` | kernel01/kernel/ai/ai_serial_transport.c:245-261 | refuses an empty input; else writes exactly the request frame |
| `SerialTransport.Transport.SendApiKey` | kernel01/kernel/ai/ai_serial_transport.c:263-273 | refuses an empty key; else writes exactly the key frame |
| `SerialTransport.Transport.WriteHexU32` | kernel01/kernel/ai/ai_serial_transport.c:79-84 | eight digits, most significant first |
| `SerialTransport.Transport.WriteHexText` | kernel01/kernel/ai/ai_serial_transport.c:86-95 | the C string's bytes as hexadecimal digits |
| `SerialFraming.FramingIndependentOfChunks` | kernel01/kernel/ai/ai_serial_transport.c:275-310 | however captures and polls interleave and whatever bytes come: what was accepted is what was read and what is queued, the finished lines are the newline split of what was read without returns, and the buffer holds the unfinished rest; of a line of more than 2303 characters what is behind the last multiple of 2304 is left; and with no drop everything received is accepted |
| `SerialFraming.FittingLinesWhole` | kernel01/kernel/ai/ai_serial_transport.c:301-306 | lines of at most 2303 characters are finished as they are |
| `SerialFraming.ReceiveKeeps` | kernel01/kernel/ai/ai_serial_transport.c:97-126 | the ring takes as many of the received bytes as it has room for, and counts the rest as dropped |
| `SerialFraming.DropsCounted` | kernel01/kernel/ai/ai_serial_transport.c:97-126 | in every run the bytes not accepted are counted, modulo 2^32 |
| `SerialFraming.SameBytesSameLines` | kernel01/kernel/ai/ai_serial_transport.c:275-310 | two runs that read all they accepted parsed the same lines if they accepted the same bytes, and so if they received the same bytes and dropped none |
| `SerialFraming.BufferInBounds` | kernel01/kernel/ai/ai_serial_transport.c:275-310 | the buffer index stays in bounds for any input |
| `SerialFraming.ParseIsPure` | kernel01/kernel/ai/ai_serial_transport.c:198-223 | the parse is a function of the line unless the line has exactly 19 characters |
| `SerialFraming.ParseDependsOnLineAlone` | kernel01/kernel/ai/ai_serial_transport.c:198-223 | the parse depends on the line alone exactly when the line is not a bare 19-character header of the task; such a header is completed by bytes an earlier line left behind |
| `SerialFraming.NoHeaderNoReply` | kernel01/kernel/ai/ai_serial_transport.c:198-223 | whatever the buffer holds, only a line with the task's own header is answered, and an answer succeeds exactly when the line has at least 21 characters and status S |
| `AiBridge.DoneOnlyByOwnLine` | kernel01/kernel/ai/ai_bridge.c:34-89 | in every run of submits, cancels, polls and interrupts a serial task is DONE only after a line finished since its submit carried its id and status S, and its output is that line's decoded payload |
| `AiBridge.IdIsSubmitCount` | kernel01/kernel/ai/ai_bridge.c:34-66 | with fewer than 2^32 submits the current id is the number of submits, so ids are distinct and none is 0 |
| `AiBridge.SettledStays` | kernel01/kernel/ai/ai_bridge.c:68-89 | DONE, ERROR and CANCELLED, with the output, stay until the next submit |
| `AiBridge.LateAnswerIgnored` | kernel01/kernel/ai/ai_serial_transport.c:198-223 | a line that names an older id, or id 0, is no reply to the current task, whatever is left in the buffer |
| `AiBridge.OnlyOwnLinesAct` | kernel01/kernel/ai/ai_serial_provider.c:26-33 | in every run, a poll that finishes no line with the current header leaves the task as it was |
| `AiBridge.CancelledForGood` | kernel01/kernel/ai/ai_bridge.c:79-89 | a running or pending task that is cancelled is CANCELLED with the message as its output and id, type, input and profile kept, until the next submit, whatever bytes come after, its own answer included |
| `AiBridge.CancelNothing` | kernel01/kernel/ai/ai_bridge.c:79-83 | cancelling a task in any other state changes nothing |
| `AiBridge.CancelReports` | kernel01/kernel/ai/ai_bridge.c:79-89 | the call reports success exactly for a running or pending task |
| `AiBridge.SubmitStarts` | kernel01/kernel/ai/ai_bridge.c:34-66 | submitting an HNLang task with some text starts it under the next id and sends its request frame; without text it fails with its message and nothing is sent |
| `AiBridge.StubFinishes` | kernel01/kernel/ai/ai_stub_provider.c:21-63 | any other task is finished by the next poll with the fixed text of its type, whatever came over the wire, and nothing is sent or read |
| `AiBridge.Bridge.SubmitToSerial` | kernel01/kernel/ai/ai_serial_provider.c:4-24 | the serial provider's submit, with both failure texts |
| `AiBridge.Bridge.SubmitToStub` | kernel01/kernel/ai/ai_stub_provider.c:3-19 | the stub provider's submit |
| `AiBridge.Bridge.PollStubTask` | kernel01/kernel/ai/ai_stub_provider.c:21-63 | the stub provider's poll |
| `AiBridge.Bridge.SubmitTask` | kernel01/kernel/ai/ai_bridge.c:34-66 | the task, the id counter, the provider chosen and the bytes sent |
| `AiBridge.Bridge.PollTask` | kernel01/kernel/ai/ai_bridge.c:68-77 | the task and the port after a poll of the provider of the last submit |
| `AiBridge.Bridge.CancelTask` | kernel01/kernel/ai/ai_bridge.c:79-89 | cancels a running or pending task and nothing else |
| `HostBridge.ServeIndependentOfChunks` | tools/ai/openai_bridge.py:198-219 | the host handles exactly the newline split of the stream for every chunking into pieces of at most 1024 bytes, when every frame has at most 7168 bytes |
| `HostBridge.Server.Receive` | tools/ai/openai_bridge.py:198-219 | one received piece: appended, thrown away with an error answer if more than 8192 bytes are pending, else cut at its newlines and handled in order |
| `HostBridge.Server.HandleOne` | tools/ai/openai_bridge.py:207-219 | a key frame replaces the key or is answered with an error; any other frame is answered by the request handler |
| `WireProtocol.RequestRoundTrip` | tools/ai/openai_bridge.py:54-78 | the host's parse of the kernel's request frame returns the same id, type, prompt and profile, for every id, every non-blank ASCII prompt that fits and every ASCII profile of at most 512 bytes |
| `WireProtocol.ResponseRoundTrip` | tools/ai/openai_bridge.py:49-83 | the kernel's parse of a response frame gives the first 900 characters of its text cut at a NUL, DONE if the host says so and ERROR otherwise; for NUL-free ASCII that is the text itself |
| `WireProtocol.DeliveredShows` | tools/ai/openai_bridge.py:49-51 | of a text without NULs the first 900 characters arrive, each as it is or as a question mark |
| `WireProtocol.KeyRoundTrip` | tools/ai/openai_bridge.py:104-115 | a submitted key of 8 to 256 ASCII characters is recovered exactly |
| `WireProtocol.ExampleFrames` | kernel01/kernel/ai/ai_serial_transport.c:245-273 | a request, its response and a key as they stand on the wire |
| `WireProtocol.DrainLine` | kernel01/kernel/ai/ai_serial_transport.c:275-310 | a line arriving between two lines is assembled and parsed as it was sent |
| `WireProtocol.EndToEnd` | tools/ai/openai_bridge.py:161-170 | a running task whose request the host handles, and whose response comes whole, ends DONE with the provider's text, or ERROR with its message |
| `WireDelivery.EndToEndInPieces` | kernel01/kernel/ai/ai_serial_transport.c:275-310 | the same outcome when the response comes in any pieces by any interrupts and polls, at the next poll |
| `WireDelivery.PiecesArrive` | kernel01/kernel/ai/ai_serial_transport.c:97-126 | however a line is cut, the task is answered by it or the line buffer and the queue still hold exactly its start |
| `HostSession.KeyIsLastAccepted` | tools/ai/openai_bridge.py:207-219 | after any frames the session's key is that of the last accepted key frame, or the one from before |
| `HostSession.KeyThenRequest` | tools/ai/openai_bridge.py:198-219 | in every session, a key of 8 to 256 ASCII characters and then a sendable request, in any pieces of at most 1024 bytes: the provider is called once, with the prompt, the profile and this key, its answer goes back in one frame with the request's id, and the key stays |
| `HostSession.RequestUsesKey` | tools/ai/openai_bridge.py:161-170 | a request is answered by the provider called with the session's key |
| `HostSession.RefusedKeyAnswered` | tools/ai/openai_bridge.py:212-218 | a refused key leaves the key as it was and is answered by one frame with id 00000000 and status E |
| `HostSession.KeyNeeds` | tools/ai/openai_bridge.py:104-115 | a key is only taken from an ASCII line of three fields with the header, and a plain hexadecimal field is a key exactly when it holds 8 to 256 bytes |
| `HostSession.RequestNeeds` | tools/ai/openai_bridge.py:54-78 | a request is only read from an ASCII line of six fields with the header, an id of eight and a type of two characters, a prompt that is not blank, and fields of at most 512 bytes |
| `HostSession.ReturnIgnored` | tools/ai/openai_bridge.py:54-115 | a return at the end of a key line, or of a request line that fits, does not matter |
| `HostSession.UnreadableAnswered` | tools/ai/openai_bridge.py:161-170 | a request that cannot be read is answered, without calling the provider, by one frame with id 00000000 and status E |
| `HostSession.UnsupportedAnswered` | tools/ai/openai_bridge.py:165-170 | a request of a type other than 1 to 7 is answered under its own id with status E, and the provider is not called |
| `HostSession.OverflowAnswered` | tools/ai/openai_bridge.py:204-208 | more than 8192 pending bytes are thrown away and answered by one frame with id 00000000 and status E, and the key stays |
| `AiSession.Session.WipeSecret` | kernel01/kernel/ai/ai_session.c:15-24 | the whole buffer is zero |
| `AiSession.Session.BeginSubscriptionLogin` | kernel01/kernel/ai/ai_session.c:33-38 | no secret, and the unsupported state |
| `AiSession.Session.BeginApiKey` | kernel01/kernel/ai/ai_session.c:40-45 | an empty secret being entered |
| `AiSession.Session.CaptureCharacter` | kernel01/kernel/ai/ai_session.c:47-59 | the buffer is the typed text and zeros: a visible character is appended below 191, anything else refused |
| `AiSession.Session.EraseCharacter` | kernel01/kernel/ai/ai_session.c:61-70 | the last character is taken off and zeroed |
| `AiSession.Session.SubmitApiKey` | kernel01/kernel/ai/ai_session.c:72-92 | the buffer is wiped in every case that was entering, and the frame is sent only for 8 characters or more on a ready line |
| `AiSession.Session.CancelSession` | kernel01/kernel/ai/ai_session.c:94-99 | wiped and disconnected |
| `AiStudio.NeverBothCaptured` | kernel01/kernel/interface/screens/ai_studio_screen.c:341-424 | in every run of screen events, with anything done to the bridge in between, secret and prompt capture are never both on, and no secret is kept outside key entry |
| `AiStudio.SecretTyping` | kernel01/kernel/interface/screens/ai_studio_screen.c:483-577 | while a key is entered, typing edits the secret as a stack of at most 191 characters and changes nothing else, neither prompt nor bridge nor wire |
| `AiStudio.PromptTyping` | kernel01/kernel/interface/screens/ai_studio_screen.c:483-577 | while a prompt is entered, typing edits the prompt as a stack of at most 159 characters and changes nothing else |
| `AiStudio.KeyReachesHost` | kernel01/kernel/ai/ai_session.c:72-92 | in every run, Enter during key entry wipes the secret and, from 8 characters on, sends a frame from which the host recovers exactly the typed text |
| `AiStudio.PromptReachesHost` | kernel01/kernel/interface/screens/ai_studio_screen.c:360-384 | in every run, Enter during prompt entry with a prompt that is not blank starts a task under the next id, in a frame from which the host reads back id, prompt and profile |
| `AiStudio.OnlyEnterSends` | kernel01/kernel/interface/screens/ai_studio_screen.c:483-577 | no other event puts anything on the wire |
| `AiStudio.KeyDialogue` | kernel01/kernel/ai/ai_session.c:40-92 | from 'k' through any typing to Enter: the session waits for the provider exactly when eight or more characters were left and the line is ready, and then exactly their frame was sent; else the key is invalid and nothing was sent; the secret is gone, and nothing else changed |
| `AiStudio.PromptDialogue` | kernel01/kernel/interface/screens/ai_studio_screen.c:341-384 | from 'g' through any typing to Enter on a ready line with no task running: a prompt with some text becomes the request of a new running task; an empty one is refused and stays open |
| `AiStudio.ClickActs` | kernel01/kernel/interface/screens/ai_studio_screen.c:405-424 | what pressing and releasing the left button on each of the five buttons does, in any capture mode |
| `AiStudio.ReleasedElsewhere` | kernel01/kernel/interface/screens/ai_studio_screen.c:463-481 | a press released anywhere else does nothing |
| `AiStudio.LetterIsClick` | kernel01/kernel/interface/screens/ai_studio_screen.c:543-566 | while nothing is entered a button's letter does what a click on it does |
| `AiStudio.OtherLetters` | kernel01/kernel/interface/screens/ai_studio_screen.c:568-577 | while nothing is entered 'x' cancels a pending or running task, and any further character is not taken |
| `AiStudio.Studio.StartPrompt` | kernel01/kernel/interface/screens/ai_studio_screen.c:341-358 | refused while a task runs; else key entry is cancelled and an empty prompt captured |
| `AiStudio.Studio.SubmitCaptured` | kernel01/kernel/interface/screens/ai_studio_screen.c:360-384 | refused when empty; else submitted, and capture ends only on success |
| `AiStudio.Studio.ActivateButton` | kernel01/kernel/interface/screens/ai_studio_screen.c:405-424 | what each button does to the capture modes |
| `AiStudio.Studio.PressKey` | kernel01/kernel/interface/screens/ai_studio_screen.c:491-527 | backspace and Enter, secret before prompt |
| `AiStudio.Studio.TypeCharacter` | kernel01/kernel/interface/screens/ai_studio_screen.c:529-577 | a character goes to the secret, else to the prompt, else is a shortcut |
| `AiStudio.Studio.PressMouse` | kernel01/kernel/interface/screens/ai_studio_screen.c:444-461 | the last button under the pointer is pressed |
| `AiStudio.Studio.ReleaseMouse` | kernel01/kernel/interface/screens/ai_studio_screen.c:463-481 | the pressed button acts if the pointer is still on it |
| `AiStudio.Studio.HandleEvent` | kernel01/kernel/interface/screens/ai_studio_screen.c:483-595 | the whole event dispatch |
| `AiStudio.Studio.OnExit` | kernel01/kernel/interface/screens/ai_studio_screen.c:603-612 | both captures end, and an entered secret is wiped |
| `Framebuffer.PixelsApart` | kernel01/kernel/graphics/framebuffer.c:331-352 | two pixels of a screen whose pitch covers a row share no byte |
| `Framebuffer.PixelWritten` | kernel01/kernel/graphics/framebuffer.c:331-352 | writing one pixel's bytes changes the picture at its place and nowhere else |
| `Framebuffer.DefaultMasksKeepColor` | kernel01/kernel/graphics/framebuffer.c:145-163 | with the default masks 24 and 32 bit pixels keep all colour bits and 16 bit pixels the upper 5, 6 and 5 |
| `Framebuffer.LowestFirst` | kernel01/kernel/graphics/framebuffer.c:331-352 | a pixel's bytes are the bytes of the packed colour, the lowest one first, at every depth |
| `Framebuffer.RgbHolds` | kernel01/kernel/graphics/color.c:3-6 | a colour put together from three components holds them |
| `Framebuffer.BorderIsRing` | kernel01/kernel/graphics/primitive.c:36-46 | a border whose far sides do not wrap is the outermost ring of its rectangle, as far as it is on the screen |
| `Framebuffer.InkHighestLeft` | kernel01/kernel/graphics/font.c:125-136 | the highest bit of a glyph's row is its leftmost pixel, and the next bits follow to the right |
| `Framebuffer.Framebuffer.constructor` | kernel01/kernel/graphics/framebuffer.c:190-216 | the mode as given, with the default masks when a channel has none |
| `Framebuffer.Framebuffer.PutPixel` | kernel01/kernel/graphics/framebuffer.c:331-352 | one pixel of the packed colour, or nothing off the screen, at 16, 24 and 32 bits per pixel |
| `Framebuffer.Framebuffer.Clear` | kernel01/kernel/graphics/framebuffer.c:354-365 | the whole picture in one colour |
| `Framebuffer.Framebuffer.DrawFillRect` | kernel01/kernel/graphics/primitive.c:4-34 | exactly the rectangle's part on the screen, also when its far edges wrap 32 bits |
| `Framebuffer.Framebuffer.DrawRect` | kernel01/kernel/graphics/primitive.c:36-46 | the four sides, the far ones found with wrapping arithmetic |
| `Framebuffer.Framebuffer.DrawChar` | kernel01/kernel/graphics/font.c:125-136 | the glyph's 64 pixels at coordinates that wrap at 2^32, for any glyph table |
| `Framebuffer.Framebuffer.DrawString` | kernel01/kernel/graphics/font.c:138-143 | letters side by side |
| `Cursor.Cursor.Move` | kernel01/kernel/graphics/cursor.c:274-287 | leaves no trail: the hidden picture (saved pixels put back) changes by the status panel alone, and what is seen is the arrow on it, for every position and depth |
| `Cursor.Cursor.Hide` | kernel01/kernel/graphics/cursor.c:227-260 | the framebuffer shows the hidden picture |
| `Cursor.Cursor.ShowCurrent` | kernel01/kernel/graphics/cursor.c:262-272 | the panel becomes part of the hidden picture, the arrow does not; nothing when shown already |
| `Cursor.Cursor.SaveBackground` | kernel01/kernel/graphics/cursor.c:154-188 | saves exactly the pixels under the arrow's box that are on the screen |
| `Cursor.Cursor.DrawShape` | kernel01/kernel/graphics/cursor.c:190-207 | the arrow, outlined where a neighbour is outside it |
| `Cursor.Cursor.DrawStatus` | kernel01/kernel/graphics/cursor.c:115-152 | the panel, its border and its text |
| `Cursor.Cursor.Init` | kernel01/kernel/graphics/cursor.c:209-225 | the cursor shown at a place with no button down |
| `Cursor.Cursor.Invalidate` | kernel01/kernel/graphics/cursor.c:289-292 | what is on the screen becomes the hidden picture |
| `Cursor.PutBack` | kernel01/kernel/graphics/cursor.c:227-260 | pixels saved from a picture, put back over anything stamped on their places, give the picture again |
| `Cursor.ArrowShown` | kernel01/kernel/graphics/cursor.c:50-74 | the arrow lies where its rows say, with its tip at the pointer, in the outline's colour where a neighbour is outside it and the fill's elsewhere; every other pixel is left as it was |
| `Cursor.TextShown` | kernel01/kernel/graphics/font.c:138-143 | a text that does not run over the edge of the coordinates shows each letter in its own eight by eight pixels |
| `Cursor.DecimalReads` | kernel01/kernel/graphics/cursor.c:93-113 | a coordinate is written in digits that read back to it, with no zero in front |
| `Cursor.StatusExample` | kernel01/kernel/graphics/cursor.c:115-152 | the panel's text for one pointer |
| `Cursor.NoTrail` | kernel01/kernel/graphics/cursor.c:274-287 | over any run of moves every pixel outside the panel's reach keeps its value |
| `Cursor.OnlyLastStatus` | kernel01/kernel/graphics/cursor.c:115-152 | over a run of moves with coordinates below 10^8 only the last status panel shows |
| `Cursor.LastStatusShows` | kernel01/kernel/graphics/cursor.c:274-287 | over a run of moves with any coordinates only the last status panel shows, at every pixel but those of the strip right of the panel that a long text runs into |
| `Console.Console.Drive` | kernel01/kernel/graphics/console_graphics.c:79-214 | after a clear and any run of characters, newlines, backspaces, colour changes and cursor placements the framebuffer shows exactly what those operations draw, on a regular screen the rendering of the terminal's grid, and the cursor is inside the grid |
| `Console.RunsFaithfulExactly` | kernel01/kernel/graphics/console_graphics.c:79-205 | after a clear every run keeps the picture the rendering of the grid exactly when the text rows fill the screen's height and there are at least two; on any other screen with two colours that differ a given run tears |
| `Console.RunKeeps` | kernel01/kernel/graphics/console_graphics.c:79-205 | on a regular screen every run keeps every picture the rendering of its grid |
| `Console.Console.Perform` | kernel01/kernel/graphics/console_graphics.c:55-205 | each operation's exact effect on terminal and picture |
| `Console.ScrollFaithfulExactly` | kernel01/kernel/graphics/console_graphics.c:91-116 | scrolling keeps every picture the rendering of its grid exactly when the text rows fill the screen's height and there are at least two |
| `Console.ScrollTears` | kernel01/kernel/graphics/console_graphics.c:91-116 | the screens where it does not: a picture in one colour, and another colour scrolled in |
| `Console.PlainTextLayout` | kernel01/kernel/graphics/console_graphics.c:160-205 | text of any length without control characters on a cleared console fills it line by line and shows its last lines, each cell holding the character its place in the text gives |
| `ConsoleText.ConsoleShowsSheet` | kernel01/kernel/graphics/console_graphics.c:118-212 | any text at all, written on a cleared console, shows the last rows of an endless sheet over which a pen moves: newlines, returns, backspaces across row starts and tabs included, with the cursor at the pen |
| `ConsoleText.WindowOnSheet` | kernel01/kernel/graphics/console_graphics.c:118-205 | the same for text without tabs, one character at a time |
| `ConsoleText.LinesAndReturns` | kernel01/kernel/graphics/console_graphics.c:160-205 | text of letters, newlines and returns whose stretches stay inside a row shows its last lines, one a row; later stretches of a line cover the earlier ones, and the cursor stands behind the last |
| `ConsoleText.RowsAreLines` | kernel01/kernel/graphics/console_graphics.c:118-205 | without returns the rows are the last lines of the text split at its newlines, cell by cell |
| `ConsoleText.TabIsFourSpaces` | kernel01/kernel/graphics/console_graphics.c:181-187 | a tab is exactly four spaces |
| `ConsoleText.BackspaceErases` | kernel01/kernel/graphics/console_graphics.c:135-158 | a letter and a backspace leave the pen where it was, also over a row's end, and a blank at its place |
| `ConsoleText.BackspaceAtHome` | kernel01/kernel/graphics/console_graphics.c:135-158 | at the upper left corner a backspace does nothing |
| `ConsoleText.LetterPlaced` | kernel01/kernel/graphics/console_graphics.c:55-77 | a letter written where the cursor was placed, clamped to the grid, is the only cell that changes, in the colours last set |
| `ConsoleText.ClearShows` | kernel01/kernel/graphics/console_graphics.c:79-89 | a clear blanks every cell in the paper colour last set and goes home |
| `Console.ScrollRenders` | kernel01/kernel/graphics/console_graphics.c:91-116 | a picture moved up eight lines and filled below renders the grid moved up a row |
| `Console.LetterRenders` | kernel01/kernel/graphics/console_graphics.c:160-205 | a letter drawn at a cell's pixels changes the rendering by that cell |
| `Console.BlankRenders` | kernel01/kernel/graphics/console_graphics.c:135-158 | a blank drawn at a cell's pixels changes the rendering by that cell |
| `Console.Console.constructor` | kernel01/kernel/graphics/console_graphics.c:29-48 | ready exactly when the screen holds a cell |
| `Console.Console.SetColors` | kernel01/kernel/graphics/console_graphics.c:55-59 | only the colours change |
| `Console.Console.SetCursor` | kernel01/kernel/graphics/console_graphics.c:61-77 | the cursor is placed, clamped to the grid |
| `Console.Console.Clear` | kernel01/kernel/graphics/console_graphics.c:79-89 | a blank grid, shown, and the cursor invalidated |
| `Console.Console.CopyRowUp` | kernel01/kernel/graphics/console_graphics.c:105-112 | the byte copy of one pixel row changes the picture by that row |
| `Console.Console.Scroll` | kernel01/kernel/graphics/console_graphics.c:91-116 | the picture eight lines further up, the last eight blank; nothing on a screen of at most eight lines |
| `Console.Console.Newline` | kernel01/kernel/graphics/console_graphics.c:118-133 | next row, scrolling at the last one: the exact terminal and picture, and still the grid's rendering |
| `Console.Console.Backspace` | kernel01/kernel/graphics/console_graphics.c:135-158 | the cell before the cursor is blanked, also across a row's start: the exact terminal and picture |
| `Console.Console.PutChar` | kernel01/kernel/graphics/console_graphics.c:160-205 | newline, return, backspace, tab as four spaces, any other character in its cell with wrap: the exact terminal and picture |
| `Console.Console.Write` | kernel01/kernel/graphics/console_graphics.c:207-212 | the characters one after another |
| `Console.Console.WriteLine` | kernel01/kernel/graphics/console_graphics.c:214-218 | the characters and a newline |
| `Scheduler.YieldRunsOne` | kernel01/kernel/task/scheduler.c:73-90 | after a yield exactly one task runs, at the current place, whatever states the others were given; it was ready, once the running task is demoted, exactly when some task was, and with none the current task is resumed as it is |
| `Scheduler.YieldPicksNearest` | kernel01/kernel/task/scheduler.c:18-40 | of the ready tasks the nearest one cyclically behind the current task is run |
| `Scheduler.BlockedTaskResumed` | kernel01/kernel/task/scheduler.c:73-90 | with both tasks of the start blocked, the next yield runs the blocked second one |
| `Scheduler.RunKeeps` | kernel01/kernel/task/scheduler.c:18-90 | over every run ids are distinct, no task but the current one runs, and the yield total is the sum of the tasks' counts modulo 2^32 |
| `Scheduler.InitialInv` | kernel01/kernel/task/scheduler.c:42-60 | the state after init has these properties |
| `Scheduler.ReadyTaskRuns` | kernel01/kernel/task/scheduler.c:18-40 | no starvation: a ready task left alone runs after as many yields as its cyclic distance, whatever happens to the others |
| `Scheduler.WithinOneRound` | kernel01/kernel/task/scheduler.c:18-40 | that distance is at most the number of tasks |
| `Scheduler.AddedTaskRuns` | kernel01/kernel/task/scheduler.c:62-71 | an added task gets the next id and, unless set aside, runs within as many yields as there are tasks |
| `Scheduler.FullTableRefuses` | kernel01/kernel/task/task.c:25-27 | a full table takes no more tasks |
| `Scheduler.YieldsAreFair` | kernel01/kernel/task/scheduler.c:73-90 | while nothing blocks, over any number of yields the counts of any two tasks grow by amounts that differ by at most one |
| `Scheduler.Registry.RegisterTask` | kernel01/kernel/task/task.c:15-45 | a new ready task with the next id, or 0 when eight are registered |
| `Scheduler.Registry.IndexById` | kernel01/kernel/task/task.c:72-85 | found exactly for ids handed out |
| `Scheduler.Registry.SetTaskState` | kernel01/kernel/task/task.c:87-97 | one task's state changes |
| `Scheduler.Registry.IncrementYieldCount` | kernel01/kernel/task/task.c:99-109 | one task's count grows, modulo 2^32 |
| `Scheduler.Cooperative.constructor` | kernel01/kernel/task/scheduler.c:42-60 | the two tasks of the start |
| `Scheduler.Cooperative.AddTask` | kernel01/kernel/task/scheduler.c:62-71 | a task is registered |
| `Scheduler.Cooperative.SelectTask` | kernel01/kernel/task/scheduler.c:18-40 | the first ready task cyclically behind the current one is made current, or none |
| `Scheduler.Cooperative.YieldTask` | kernel01/kernel/task/scheduler.c:73-90 | the whole yield |
| `EventQueue.FirstInFirstOut` | kernel01/kernel/interface/events.c:42-96 | in every run the queue is a FIFO of capacity 127: order of acceptance, consecutive sequence numbers, pending is what was not handed out, offers are accepted or dropped, and `recent` is the last accepted |
| `EventQueue.HandedOutAsOffered` | kernel01/kernel/interface/events.c:42-72 | over every run the events handed out and then the pending ones are the events offered while fewer than 127 were waiting, in that order and in every field but the number; the others are counted as dropped |
| `EventQueue.EventRing.PushEvent` | kernel01/kernel/interface/events.c:42-61 | stamped and queued, or dropped and counted |
| `EventQueue.EventRing.PollEvent` | kernel01/kernel/interface/events.c:63-72 | the first pending event, if there is one |
| `EventQueue.EventRing.Recent` | kernel01/kernel/interface/events.c:74-82 | the last accepted event, if there was one |
| `EventQueue.EventRing.PendingCount` | kernel01/kernel/interface/events.c:84-91 | the queue's length |
| `Workspace.AllowedStaysInside` | kernel01/kernel/ai/ai_workspace_policy.c:55-94 | every path the policy allows resolves, `.` and `..` removed, to /workspace or below |
| `Workspace.PolicyExactly` | kernel01/kernel/ai/ai_workspace_policy.c:55-94 | the whole policy: which capabilities are denied on every path, which need approval, and for the others exactly the paths that are allowed |
| `Workspace.DotsInNameDenied` | kernel01/kernel/ai/ai_workspace_policy.c:22-35 | the policy is stricter than staying inside: any file name with two dots side by side is denied, though its path resolves to that file below /workspace |
| `Workspace.OnlyTheDraftChanges` | kernel01/kernel/fs/ramfs.c:96-202 | over every run of draft writes with any paths and data: only the draft changes, it reads back as the first 1023 characters last accepted, every file's size is the length of its data, and every other path reads as at the start |
| `Workspace.RunEffect` | kernel01/kernel/fs/ramfs.c:174-202 | the draft after a run is the last accepted data, cut |
| `Workspace.ReadsExactly` | kernel01/kernel/fs/ramfs.c:116-136 | every file and directory is read under its own path, the root also under a missing or empty one, and nothing else is |
| `Workspace.DraftAllowed` | kernel01/kernel/ai/ai_workspace_policy.c:72-94 | the draft's own path is always allowed |
| `Workspace.HasPrefix` | kernel01/kernel/ai/ai_workspace_policy.c:3-20 | whether a C string starts with a prefix; a null one does not |
| `Workspace.ContainsParentReference` | kernel01/kernel/ai/ai_workspace_policy.c:22-35 | whether two dots stand side by side anywhere; a null path counts as one that has them |
| `Workspace.EndsWithHnlang` | kernel01/kernel/ai/ai_workspace_policy.c:37-53 | whether a C string ends in the source suffix |
| `Workspace.DecideOnPath` | kernel01/kernel/ai/ai_workspace_policy.c:72-94 | the decision for a capability and a path |
| `Workspace.RamFs.StringEqual` | kernel01/kernel/fs/ramfs.c:77-94 | equality of C strings |
| `Workspace.RamFs.Init` | kernel01/kernel/fs/ramfs.c:96-114 | ready, with the draft's size measured |
| `Workspace.RamFs.WriteWorkspace` | kernel01/kernel/fs/ramfs.c:174-202 | only the draft's path is accepted; the data is cut at 1023 and the node's size follows |
| `Workspace.Vfs.WriteHnlangDraft` | kernel01/kernel/fs/vfs.c:40-50 | the policy stands before every write |

## Left out

- Port I/O, the UART's set-up and its bounded write retries, PCI and BGA probing, interrupt controllers: transmitted bytes arrive in order, and received bytes are a parameter of each poll or interrupt.
- The provider, HTTP, sockets and the host's environment: the provider is an arbitrary function of the call, the prompt, the profile and the key that returns a text or an error; its console output is not part of this model.
- The host's reading beyond plain frames: decoding bytes above 127, signs and white space in hexadecimal fields are arbitrary functions of the host record, so nothing is claimed about frames that need them.
- Log lines, name and summary functions, statistics getters: constant lookups.
- The glyph table: an arbitrary function from characters to eight bytes.
- The boot screen, launcher, router, widgets, theme and the other screens: drawing.
- The check that a framebuffer exists before Studio takes events, and Studio's drawing, its activity line, hover highlights and hit-testing: mouse events carry which buttons the pointer is over.
- Saving a finished draft while Studio draws: the write itself is the one modelled in `Workspace`.
- The masked text of the secret, and the session's status texts.
- Digit-by-digit assembly of the cursor's status text in a buffer: the text is a function of the pointer. It never reaches the buffer's end.
- The assembly plan and machine snapshot that accompany a task: a fixed list.
- Task entry points, arguments and context flags: the scheduler never calls them.
- Listing the file system, and the node summaries.
- `kfree`, which does nothing.
- Liveness of the spinlock under contention: the code gives no fairness to rely on; only an undisturbed processor is shown to finish. Processor flags other than the interrupt flag, and the serialising and barrier instructions' effect on weaker memory models, are not part of this model.
- The command-line self test of the host program, and socket clean-up.
- Keyboard map, mouse packets and terminal commands: single-branch facts.
