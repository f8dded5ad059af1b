# StarOS kernel: verified model

StarOS is a small i386 kernel. This Dafny project models six of its parts and proves what they keep
over whole runs.

* **Scheduler.** `Scheduler` is the state machine of the three process queues, the sleep clocks, the
  single `gets` reader, the current process and the control-flow flag. One step is one interrupt
  handler, system call, `execv` or dispatch, taken atomically. `SchedulerInvariant`,
  `SchedulerStranding`, `SchedulerWaking`, `SchedulerRuns`, `SchedulerInput` and `SchedulerTheorems`
  prove what its runs keep.
* **Scheduler and heap.** Every queue insertion is a `malloc` of a list node and every removal a `free`,
  and either can be fatal. `SchedulerNodes` lists the node operations of each step in the order of the
  code, `NodeMemory` does them on the allocator, and `SchedulerMachine` is the two together: a step is
  taken when all its node operations are served, and otherwise the machine stops. Until then the
  machine's run is the scheduler's run (`Projects`), so every result about a scheduler `Run` is one about
  the machine as long as it has not stopped. `MachineTheorems` states the main results with the exact
  point where it stops, `TimeSlices` a run that does. `Kernel.Machine` is the same code running in place on
  linked queues (`LinkedLists`, `Queues`); every method is proved to do exactly those node operations and
  to move the state exactly as `Scheduler` says.
* **Keyboard.** `Keyboard` is the PS/2 set-1 decoder with its key table; it feeds the scheduler's `gets`.
* **Heap.** `HeapModel` is the first-fit allocator on its two tables, `Heap.Allocator` the code on
  arrays. Properties are stated by counting, for each byte, the blocks that own it.
* **Paging.** `PagingModel` (one directory), `PagingKernel` (the kernel ranges) and `PagingSystem` (all
  directories) with the code in `Paging.Mmu`; the walk is that of section 5.2 of the Intel 80386
  Programmer's Reference Manual.
* **Console.** `Console` is the 25 x 80 text screen with its half-screen scroll, on the byte copies of
  `Memory`, against the unbounded output wrapped at 80 columns.
* **FAT32.** `Fat32` (cluster chains and file reading), `LongNames` (long-name entries and `strcmp`) and
  `DirectoryLookup`, against the Microsoft FAT32 File System Specification 1.03.

`fatal` and `panic` halt the machine: a `fault`, a `halted` flag, `None` or `ok == false`, after which
nothing changes.

Seven laws one might expect turn out to hold only under a condition; each has its exact condition and a
failing input:

* A process that blocks is always woken in the end only if its call was sound: `sleep` of at least one
  second, `gets` of at least one byte and with no other reader waiting. Every unsound call loses a
  process for good (`SoundIffNoneStranded`, `StrandedIff`, `UnsoundCallLosesProcess`, with three runs from
  boot).
* A process is woken, preempted or dispatched only while the allocator can serve the list nodes
  (`RunsIffServed`, `TimerExactly`, `SleepWakesExactly`, `GetsDelivers`). Records are never reused, so
  every run has stopped by its 5117th dispatch, and one process alone gets that far (`InsertionsBounded`,
  `DispatchesBounded`, `OneProcessHalts`); and freed nodes merge only with what follows them, so two
  processes that never block stop the machine at the 1024th dispatch, when the free table is full
  (`TwoProcessesHalt`).
* The decoder halts exactly at a byte that completes E0 xx with xx in neither table's range; among listed
  codes these are E0 9C and E0 ED (`StreamFatalIff`, `DecodeFatalIff`, `MissingCodesHalt`). It falls
  silent for good, as long as no zero byte comes, exactly when the bytes it waits on begin no listed code,
  as after FA (`SilentForeverIff`, `AcknowledgeSilences`).
* `free` releases exactly its block, and `malloc` then `free` restores the free bytes, exactly when no
  older live record of another size starts at the address, which is always so for requests of 1 to
  2^32 - 8 bytes (`FreeReleasesIff`, `RoundTripIff`, `RoundTrip`). After `malloc(0)` both fail
  (`FreeReleasesFails`, `RoundTripFails`).
* A long name is rebuilt exactly when its length is not a multiple of 13 or the buffer happens to hold a
  null behind it (`RebuiltIff`, `RebuiltFails`); lookup goes by the name so rebuilt (`ScanFindsFirst`).
* A forward `memcpy` is a move exactly when it copies downwards or the source repeats itself with the
  distance copied (`ForwardCopyIsMoveIff`, `UpwardCopyFails`).
* `next_cluster` returns the FAT entry exactly when the entry's four reserved bits on disk are clear
  (`NextClusterIff`, `ReservedBitsMisread`).

## Model

| member | source | states |
|---|---|---|
| MachineTheorems.EachOnExactlyOneQueue | src/interrupt.cpp:34-112 | in every run from boot, with any interleaving and any arguments: no `remove` misses its element and no null process is used; until a malloc or free stops the machine, each created process is on exactly one queue, once, the one its status names, running is the current process in the process thread and empty otherwise, and every queue entry has a node that is a live heap block of its own |
| MachineTheorems.RunsIffServed | src/linked_list.h:21-108 | a run goes on exactly while each of its node operations in turn finds a fitting free block and an unused record, or, to free, a free-table entry or a free block right behind the node |
| MachineTheorems.RunsWithRoom | src/memory_management.cpp:34-114 | in particular whenever records, free-table entries and bytes of the first free block cover the run's operations |
| MachineTheorems.InsertionsBounded | src/memory_management.cpp:57-62 | in every run from boot that has not stopped the record count is 5 + the queue insertions + 2 per `execv`, and at most 10240, whatever was freed; so every run with more has stopped |
| MachineTheorems.DispatchesBounded | src/schedular.cpp:8-16 | whatever runs, the machine has stopped by the 5117th dispatch |
| TimeSlices.OneProcessHalts | src/memory_management.cpp:57-62 | that bound is reached: one program alone that never blocks, with any keys and idle ticks and any frames, has stopped the machine exactly when it has come to its 5117th dispatch, the record table full |
| TimeSlices.TwoProcessesHalt | src/memory_management.cpp:94-113 | two programs that never block, with any dispatches, timer ticks and keys and any frames: the machine has stopped exactly when it has come to the 1024th dispatch, the free table full, because each dispatch leaves an entry that nothing merges with |
| SchedulerMachine.Projects | src/linked_list.h:21-46 | until it stops, the machine's run is the scheduler's run, with as many nodes as queue entries |
| SchedulerMachine.StepOk | src/linked_list.h:21-108 | a step stops the machine exactly when its node operations are not served, and otherwise keeps the invariants of scheduler and nodes |
| NodeMemory.DoAllServed | src/memory_management.cpp:34-114 | any sequence of node operations goes through exactly when each is served in turn; no node is then shared, freed twice or reused while queued |
| NodeMemory.BootMem | src/kernel.cpp:4-25 | the task state segment and the allocator's self-test leave five records and one free block |
| SchedulerInvariant.NextInv | src/system_entry.cpp:86-143 | every step from every state of the invariant keeps it, whatever its arguments |
| SchedulerInvariant.TickFromOk | src/interrupt.cpp:62-70 | the `for_each` of the timer always finds its process on the blocking queue, lowers each clock once, and unblocks exactly the processes whose clock stood at 1 |
| MachineTheorems.TimerExactly | src/interrupt.cpp:34-91 | a timer interrupt stops the machine exactly when its node operations cannot be served; otherwise it appends the expired sleepers in sleep order, then the preempted process with its frame saved; the remaining clocks are those above 1, one lower, in order |
| MachineTheorems.TimerCounts | src/interrupt.cpp:62-84 | those operations are one new node per expired sleeper and per preempted process, and as many freed, and one freed per clock that has run out |
| MachineTheorems.StepNodes | src/system_entry.cpp:114-139 | the node operations of dispatch, `execv`, `gets` and `sleep`, in order, with execv's two blocks |
| NodeMemory.NodeBytes | src/linked_list.h:21-23 | a process node takes 8 bytes, a clock node 16 |
| SchedulerTheorems.BlockedSleepsOrReads | src/system_entry.cpp:105-143 | in every sound run the blocked processes are the disjoint union of the sleepers, all with positive clocks, and a reader with characters to come |
| SchedulerStranding.SoundIffNoneStranded | src/system_entry.cpp:86-143 | a step leaves no blocked process stranded exactly when it is sound |
| SchedulerWaking.StrandedIff | src/interrupt.cpp:62-112 | a blocked process stays blocked in every continuation of the scheduler exactly when it has no positive clock and is not the reader of characters still to come; otherwise timer ticks or key strokes, from any decoder state, wake it |
| SchedulerStranding.StrandedForever | src/interrupt.cpp:62-73 | a stranded process stays blocked after every continuation, sound or not |
| SchedulerTheorems.UnsoundCallLosesProcess | src/system_entry.cpp:106-110 | after any unsound call some process is blocked in every continuation |
| SchedulerTheorems.SleepZeroNeverWakes | src/interrupt.cpp:63-73 | a concrete run: `sleep(0)` from boot never returns, because the clock goes to -1 and is filtered out |
| SchedulerTheorems.GetsZeroNeverReturns | src/ps2_keyboard.cpp:212-221 | a concrete run: `gets` of no bytes never returns |
| SchedulerTheorems.SecondReaderStrandsFirst | src/system_entry.cpp:106-110 | a concrete run: a second `gets` overwrites the globals and the first reader never returns |
| MachineTheorems.SleepWakesExactly | src/system_entry.cpp:124-143 | a process that sleeps s >= 1 seconds is blocked, with clock 1000 s minus the ticks elapsed, whatever else interleaves, until the machine stops or the 1000 s-th timer interrupt comes; that one stops the machine exactly when its node operations cannot be served, and otherwise makes the process ready |
| SchedulerRuns.FirstComeFirstServed | src/schedular.cpp:9-15 | the process at position k of the ready queue is chosen by exactly the (k+1)-th dispatch of any run |
| SchedulerRuns.ReadyPrefix | src/interrupt.cpp:67-103 | wake-ups, preemptions and blockings only append: after d dispatches the queue begins with what stood behind its first d entries |
| SchedulerRuns.ContextKept | src/interrupt.cpp:82-104 | while a process is not running, no step of any run changes its context except the one `eax` of its completed `gets` |
| SchedulerRuns.ResumesWhereItLeft | src/process.cpp:254-310 | at its next dispatch a process has, register by register, the frame it left with, plus that `eax` |
| SchedulerRuns.ReturnsToDispatcher | src/process.cpp:206-252 | the timer, `gets` or `sleep` that takes a process off returns to the kernel with every register the kernel had at that process's dispatch, whatever happened in between |
| Contexts.SaveRestoreIdentity | src/process.cpp:254-310 | saving takes each register from its own place in the frame and restoring puts it back there, so both orders are the identity on all copied registers |
| SchedulerTheorems.StartsAsCreated | src/process.cpp:149-168 | the n-th process is first dispatched with its own two ring-3 selectors, its stack and its entry point, whatever ran in between |
| SchedulerTheorems.ExecMakesProcess | src/kernel.cpp:71-80 | `execv` in the kernel thread makes one more process, last in the ready queue, exactly while there are fewer than 254 |
| MachineTheorems.GetsDelivers | src/ps2_keyboard.cpp:189-222 | in every run after `gets(n)` without another `gets`: memory is the old one with exactly the typed characters written from the buffer on; until the n-th the caller stays blocked and keys touch no node, for n = 0 for ever; the n-th key needs the caller's node freed and a new one, and exactly when both are served the caller goes to the end of the ready queue with the buffer in `eax` and the reader globals are cleared |
| MachineTheorems.LineFromKeys | src/ps2_keyboard.cpp:159-222 | from boot: the keyboard sends the codes of some events, a process calls `gets(n)`, the keyboard sends more codes; whatever else runs before the next `gets`, memory differs exactly by the first n characters (all of them for n = 0) that the keyboard's layout and the history of the two shift keys give for the events from the call on |
| SchedulerTheorems.GetsBound | src/paging.cpp:250-253 | a `gets` of a running process goes through exactly up to 4 MB |
| SchedulerInput.StoreCell | src/ps2_keyboard.cpp:214-215 | writing a text fills its cells in order, addresses modulo 2^32, and no other cell |
| SchedulerInput.NoReaderNoWrites | src/ps2_keyboard.cpp:212-221 | with no reader, no run without a `gets` writes buffer memory |
| SchedulerInput.RunDecoder | src/ps2_keyboard.cpp:224-235 | in any run that has not halted, decoder and key table are those of decoding all bytes read so far |
| SchedulerInput.RunStores | src/ps2_keyboard.cpp:212-221 | from a `gets(n)` to the next `gets`, before and after the reader is released: for n >= 1 the first n characters typed are written and nothing else; for n = 0 every character typed is written, without end |
| SchedulerInput.TextAfter | src/ps2_keyboard.cpp:159-222 | the text typed by key strokes after an earlier history is the one the written-out layout gives: each digit or letter key its plain character, or its upper-case one when of the latest press and release of either shift key the press is later |
| SchedulerInput.KeyTypes | src/keyevent_table.cpp:10-60 | byte by byte: each digit and letter key types its character of the layout, upper-case behind the press of either shift key, and plain again after the release |
| Keyboard.LayoutMatches | src/keyevent_table.cpp:138-395 | the key tables, `is_valid_char` and `to_lower` agree with the layout on every event |
| Keyboard.DecodeInvertsCodes | src/ps2_keyboard.cpp:17-129 | for every sequence of listed codes without E0 9C and E0 ED, the decoder yields exactly the matching events in order and ends with SCAN_CODE 0 |
| KeyboardSilence.StreamFatalIff | src/ps2_keyboard.cpp:77-129 | on any byte stream from any state, the decoder halts exactly at a byte that completes E0 xx with xx in neither table's range |
| Keyboard.DecodeFatalIff | src/ps2_keyboard.cpp:93-110 | so decoding listed codes reaches the fatal branch exactly when E0 9C or E0 ED occurs |
| Keyboard.MissingCodesHalt | src/ps2_keyboard.cpp:93-110 | both codes do halt the decoder |
| KeyboardSilence.SilentForeverIff | src/ps2_keyboard.cpp:17-64 | while no zero byte comes, the decoder never yields an event again exactly when the bytes it waits on begin no listed code |
| KeyboardSilence.AcknowledgeSilences | src/ps2_keyboard.cpp:225-235 | one byte FA in the idle state is enough |
| KeyboardSilence.PendingValue | src/ps2_keyboard.cpp:229 | SCAN_CODE always is the last eight bytes since the last event |
| Keyboard.CodesUnique | src/ps2_keyboard.cpp:17-64 | different event sequences never have the same bytes: no code is another's, a prefix of one or a join |
| Keyboard.BreakCodeReleases | src/keyevent_table.cpp:138-395 | a code plus 0x80 is a listed code, and the tables give it the release of the same key |
| Keyboard.TableIsHeld | src/ps2_keyboard.cpp:202-209 | the key table holds exactly the keys whose latest event is a press |
| Keyboard.ShiftHeld | src/ps2_keyboard.cpp:159-161 | its two shift entries follow the events 2A, AA and 36, B6 |
| Keyboard.IndexOf | src/ps2_keyboard.cpp:66-73 | the search loop returns the first index, or -1 |
| Keyboard.ConvertCode | src/ps2_keyboard.cpp:77-129 | to_event_id with its table searches is the conversion the decoder is stated with |
| Kernel.Machine.TimerInterrupt | src/interrupt.cpp:34-91 | the timer branch on the linked queues does the timer step and its node operations, and returns the kernel's frame when it preempts |
| Kernel.Machine.KeyboardInterrupt | src/interrupt.cpp:92-112 | the keyboard branch does the key step and its node operations |
| Kernel.Machine.SysGets | src/system_entry.cpp:86-123 | SYSCALL_GETS does its step and node operations and returns the kernel's frame |
| Kernel.Machine.SysSleep | src/system_entry.cpp:124-143 | SYSCALL_SLEEP does its step and node operations and returns the kernel's frame |
| Kernel.Machine.Dispatch | src/schedular.cpp:8-16 | one pass of the scheduler loop does the dispatch step and its node operations, and keeps the kernel's context of that moment |
| Kernel.Machine.Exec | src/process.cpp:12-168 | the record and queue effects of `execv`, with its two mallocs and its node, are the exec step |
| LinkedLists.LinkedList.PushBack | src/linked_list.h:21-27 | allocates a node and appends it, or links nothing when malloc is fatal; the chain stays acyclic, ends in `tail`, meets no freed node |
| LinkedLists.LinkedList.Remove | src/linked_list.h:29-46 | deletes the first match and frees exactly its node, and finds one exactly when the element is there; the freed nodes are those that left the chain |
| LinkedLists.LinkedList.Filter | src/linked_list.h:70-86 | keeps exactly the elements that satisfy the filter, in order, and frees exactly the other nodes, in turn |
| LinkedLists.LinkedList.ForEach | src/linked_list.h:61-67 | maps every element in place |
| LinkedLists.LinkedList.PopFront | src/linked_list.h:96-108 | drops and returns the first element and frees exactly its node, fails exactly when empty |
| Queues.QueueSet.FilterSleeping | src/interrupt.cpp:72-73 | filtering the sleep queue does the removals the model lists for it, and frees exactly the nodes that leave |
| HeapModel.HistoryInv | src/memory_management.cpp:34-114 | over any malloc/free history that does not halt, blocks are 8-aligned with size = end - start, and every byte from 0x59005000 to 0x78405000 is owned by exactly one free or live block, every other byte by none |
| HeapModel.BlocksDisjoint | src/memory_management.cpp:34-114 | hence no two free or live blocks overlap |
| HeapModel.MallocGives | src/memory_management.cpp:40-64 | malloc takes exactly the bytes of its 8-aligned block from the free ones; the block is the request rounded up to a multiple of 8, and empty for requests above 2^32 - 8 |
| HeapModel.MallocHaltsIff | src/memory_management.cpp:46-67 | malloc halts exactly when every free block is too small or the record table is full |
| HeapModel.FreeHaltsIff | src/memory_management.cpp:76-113 | free halts exactly when the pointer is not live, or no free block begins at the end of its block and the free table is full |
| HeapModel.MallocLive | src/memory_management.cpp:40-64 | malloc of a size that does not round to 0 makes exactly one new pointer live |
| HeapModel.FreeLive | src/memory_management.cpp:76-92 | free of a live pointer ends its life and no other's |
| HeapModel.FreeReleasesIff | src/memory_management.cpp:76-113 | free of a live block's pointer frees exactly that block's bytes if and only if no older empty live record starts at the same address |
| HeapModel.FreeReleasesFails | src/memory_management.cpp:83-88 | after malloc(0) and malloc(8) the second block is not released |
| HeapModel.HistoryNonEmpty | src/memory_management.cpp:40-62 | with requests of 1 to 2^32 - 8 bytes there never is an empty live record |
| HeapModel.LiveStartsUnique | src/memory_management.cpp:83-88 | no two non-empty live blocks start at one address |
| HeapModel.RoundTripIff | src/memory_management.cpp:34-114 | malloc then free restores the free bytes exactly when no older live record of another size starts where the first large enough free block does |
| HeapModel.RoundTripFails | src/memory_management.cpp:40-64 | after malloc(0) it does not |
| HeapModel.RoundTrip | src/memory_management.cpp:34-114 | after any history of requests of 1 to 2^32 - 8 bytes it always does, and never halts |
| HeapModel.RecordsCountMallocs | src/memory_management.cpp:57-62 | the record count is the number of mallocs ever made, freed or not, so at most 10240 |
| Heap.Allocator.Malloc | src/memory_management.cpp:34-68 | the array code, with its lazy initialisation, refines the allocator |
| Heap.Allocator.Free | src/memory_management.cpp:72-114 | the array code of free refines it |
| PagingModel.FreshDirectoryTranslates | src/paging.cpp:56-132 | after any sequence of aligned mappings on a fresh directory, the hardware's two-level walk takes every 32-bit address to the last frame mapped for its page plus its low 12 bits, and finds it not present exactly when its page was never mapped |
| PagingModel.MapWalk | src/paging.cpp:78-131 | one mapping changes one page's translation, takes a table page exactly when the slot was empty, and gives the entry the asked-for privilege |
| PagingKernel.KernelIdentity | src/paging.cpp:142-165 | add_kernel_mappings is the identity on the first 4 MB and from 0x40005000 to 0x7E805000, leaves every other translation and entry, takes one table per newly populated slot, and gives every entry it writes, in tables and directory, the asked-for privilege |
| PagingKernel.MapAllCount | src/paging.cpp:82-97 | over any sequence of mappings, the table pages handed out are exactly the slots newly populated |
| PagingKernel.KernelTakes252 | src/kernel.h:36-44 | on an empty directory that is exactly 252 tables |
| PagingSystem.HistoryOk | src/process.cpp:27-140 | through any mix of process creations, user and kernel mappings and copied slots: no two processes share a table, no frame backs two user pages, no user page is a directory or table |
| PagingSystem.BootOk | src/paging.cpp:135-138 | the state after prepare_kernel_paging satisfies this |
| PagingSystem.BootPrivileges | src/paging.cpp:135-138 | the kernel's directory is the first page handed out, 253 pages are taken, and none of its entries is open to user code |
| PagingSystem.ProcessPrivileges | src/paging.cpp:153-154 | in a process's directory the kernel pages, like the user pages, are writable and open to user code |
| PagingSystem.CopyEffect | src/paging.cpp:243-254 | after a copy the kernel translates the whole 4 MB slot as the process does and every other slot, and every process, as before |
| PagingSystem.CopiedSlotFollows | src/paging.cpp:243-254 | a populated slot, once copied, lets the kernel see the process's later mappings there |
| Paging.Mmu.AllocPage | src/stdlib.cpp:32-48 | hands out the next page boundary's page, zeroed |
| Paging.Mmu.AddMapping | src/paging.cpp:56-132 | the code on entries refines one mapping; unaligned addresses change nothing and fail |
| Paging.Mmu.AddKernelMappings | src/paging.cpp:142-165 | the nested loops refine the kernel mapping |
| Paging.Mmu.CopyProcessMapping | src/paging.cpp:243-254 | the copy refines its step and fails exactly above 4 MB |
| Paging.Mmu.CheckMapping | src/paging.cpp:14-49 | the walk reports the translation |
| Console.PrintShows | src/b32_print.cpp:80-108 | for every output of printable characters and newlines after the clear: the cursor stays on screen at the end of the last line, rows 0..row show exactly the last row + 1 lines of the whole output wrapped at 80 columns, in white, and everything beyond is blank |
| Console.ScreenCells | src/b32_print.cpp:33-38 | the same cell by cell: byte 160 r + 2 c holds the character of column c in row r, the next byte its color 7 |
| Console.PrintHaltsIff | src/b32_print.cpp:80-108 | print_c halts exactly on a character that is neither a newline nor from 32 to 126 |
| Console.WrapSnoc | src/b32_print.cpp:86-103 | wrapping character by character computes the wrapping of the whole text |
| Console.ScrollShows | src/b32_print.cpp:48-59 | the half-screen scroll keeps the last 13 full lines and opens a blank one |
| Console.Vga.PrintC | src/b32_print.cpp:80-108 | the code on the video bytes refines the console |
| Console.Vga.constructor | src/b32_print.cpp:153-160 | the clearing loops leave a screen that shows the empty output |
| Memory.ForwardCopyIsMoveIff | src/b32_string.cpp:51-61 | the forward byte copy is a move exactly when it copies downwards or the source repeats itself with that distance |
| Memory.UpwardCopyFails | src/b32_string.cpp:51-61 | two bytes copied up by one are not moved |
| Memory.Memcpy | src/b32_string.cpp:51-61 | the loop computes the forward copy |
| Memory.Zeromem | src/b32_string.cpp:33-49 | words first, then the rest: exactly `count` bytes become 0 and every other byte stays |
| Fat32.ReadFileByte | src/b32_filesystem.cpp:308-333 | reading yields exactly `size` bytes, byte i being byte i mod 512 of the (i / 512)-th cluster of the file's chain, for every size including multiples of 512 |
| Fat32.NextClusterIff | src/b32_filesystem.cpp:232-251 | next_cluster is the FAT entry of the specification exactly when the top four bits of the entry's word on disk are clear |
| Fat32.ReservedBitsMisread | src/b32_filesystem.cpp:232-251 | on a FAT sector of all ones they differ |
| Fat32.ClusterSectorBytes | src/b32_filesystem.cpp:142-151 | read_cluster reads the cluster the specification's layout names: the data region begins behind the reserved sectors and all copies of the FAT |
| Fat32.ClustersApart | src/b32_filesystem.cpp:144-149 | a cluster's sector lies behind every sector of every FAT copy, cluster 2 comes first, and different clusters have different sectors |
| Fat32.BootRecordRead | src/b32_filesystem.cpp:253-262 | load_PBR takes the partition's start and the boot record's fields from their bytes |
| Fat32.Fat32Read | src/b32_filesystem.cpp:315-331 | the loop terminates and writes exactly those bytes and nothing behind them |
| LongNames.RebuiltIff | src/b32_filesystem.cpp:183-208 | whatever the buffer held, the name rebuilt from its entries in on-disk order compares equal exactly when its length is no multiple of 13 or a null lies behind it |
| LongNames.RebuiltFails | src/b32_filesystem.cpp:183-208 | a name of 13 characters over a full buffer does not compare equal to itself |
| LongNames.WriteAllCells | src/b32_filesystem.cpp:188-208 | which cells the entries of a name write, and with what |
| LongNames.CompareZeroIff | src/b32_string.cpp:3-23 | strcmp returns 0 exactly on equal C strings |
| LongNames.CompareAntisymmetric | src/b32_string.cpp:3-23 | swapping the arguments negates the result |
| LongNames.CompareOrders | src/b32_string.cpp:3-23 | the result is the order of the first difference: an ended string first, then signed characters |
| LongNames.EncodesReads | src/b32_filesystem.cpp:80-89 | the order number and the 13 characters are read from their bytes in the entry |
| LongNames.Strcmp | src/b32_string.cpp:3-23 | the loop computes the comparison |
| DirectoryLookup.ScanFindsFirst | src/b32_filesystem.cpp:178-228 | in a one-sector directory where every item carries its long-name run, lookup returns cluster, size and kind of the first item whose name shows as the wanted one and fails when none does; an item shows its name, and behind a name of 13, 26, ... characters also what the buffer held there up to the next null |
| DirectoryLookup.CarriesDecodes | src/b32_filesystem.cpp:209-219 | the first cluster is read from bytes 26, 27, 20, 21 of the short entry, the size from 28 to 31, the directory bit from byte 11 |
| DirectoryLookup.RewrittenShows | src/b32_filesystem.cpp:188-208 | that is the C string in the buffer after the item's run |
| DirectoryLookup.ShownIsFirst | src/b32_filesystem.cpp:178-228 | with no name length a multiple of 13 it is the first item of the wanted name, whatever the buffer held |
| DirectoryLookup.ReadByName | src/b32_filesystem.cpp:285-333 | from the disk's bytes and a name to the file, one sector to a cluster: partition and boot record are found, the root directory is the sector behind the FATs, lookup gives the first item that shows that name, and reading gives every byte of its chain |
| DirectoryLookup.SplitIsName | src/b32_filesystem.cpp:163-172 | the path component ended by a slash or null becomes the string looked up |
| DirectoryLookup.SplitPath | src/b32_filesystem.cpp:163-172 | the copying loop stops at the first slash |
| DirectoryLookup.LocateInCluster | src/b32_filesystem.cpp:174-227 | the loop over the sector's 16 entries refines the lookup |

## Left out

- Kernel.Machine.SysGets: a `gets` from the kernel thread is reported as an invalid source; that the code first dereferences CURRENT_PROCESS and saves the frame into it (src/system_entry.cpp:86-104) is not modelled, only the `fatal` the call ends in.
- MachineTheorems.EachOnExactlyOneQueue: says nothing about the queues once a malloc or free has stopped the machine, which can be between a `remove` and its `push_back`.
- `execv` of a file shorter than an ELF header, or so large that malloc would round its size to 0, is not a step: neither loads.
- Atomic steps: each handler, system call and dispatch is one step; the dispatch code itself runs with interrupts enabled (src/interrupt.cpp:245), and what an interrupt in its middle does is not modelled.
- EFLAGS at dispatch comes from the kernel's own flags (src/process.cpp:229); nothing is claimed about it, and the register loads and `iret` are modelled as reading the stored context.
- The address space a `gets` writes to: the keyboard handler does not switch page directories, so the buffer is memory by address, and the page-directory effect of `copy_process_mapping` in SYSCALL_GETS is modelled in `PagingSystem` only.
- SYSCALL_HELLOWORLD, SYSCALL_ADD, SYSCALL_STRUCT and SYSCALL_PRINTF: they change neither queues nor clocks.
- ELF segment copying in `execv` (src/process.cpp:49-114): only its page, mapping, record and queue effects are kept.
- The page-fault branch (src/interrupt.cpp:157-185): its mask does not give page-aligned addresses.
- PagingSystem.HistoryOk: assumes at most 25600 pages handed out, because `alloc_page` has no upper check.
- FAT32: volumes with one sector to a cluster (the code reads one of each), root directory at cluster 2, 512-byte sectors, `hidden_sectors` at the partition's start; the recursion into sub-directories stops at the `Directory` result, because "." and ".." carry no long-name run.
- LongNames.RebuiltIff: names of 1 to 195 characters; a longer name's order number wraps to 0 and is written before the buffer.
- DirectoryLookup.ScanFindsFirst: a directory with unused entries has at least one item, because the name buffer is uninitialised before the first long-name entry.
- `usleep` and its `Count_down` between dispatches, and `remove_mount_point`: no queue, clock or file content depends on them.
- The address check of the free table at allocator start (src/memory_management.cpp:15-18), boot code, GDT, IDT and TSS set-up, disk and serial port I/O, printf formatting, user programs.
