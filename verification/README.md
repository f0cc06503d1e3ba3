# A verified model of the kernel

The kernel is a small 32-bit x86 kernel: a heap on demand-mapped pages, timer-preempted kernel
threads, `printk`, and a text console. This project models those four parts in Dafny and proves what
they promise, mostly over whole runs. Code that works by assignment is modelled by classes and
methods with the same statements; each is proved against a function or relation on values, about
which the properties are then proved.

**Memory.** Physical memory is an array of bytes, and everything lies in it: page directory, page
tables, chunk headers, payloads. `Pmm` is the frame stack, `PageTables` and `Vmm` the two-level tables
and the processor's walk, `Arena` the heap's address range with loads and stores that go through the
tables, `Heap` the allocator, whose header fields are words behind two levels of paging. Above them
are the values they are proved against: `HeapLinks` (headers by address), `HeapSpec` (chunks in address
order), `FramePool` (who owns which frame), `HeapRuns` (the code's sums and all runs of `kmalloc` and
`kfree`), `AsWritten` (runs without the missing back link), and `HeapPages` (what the tables must
contain). `Boot` starts it all from the loader's memory map.

**Threads.** `Cpu` gives registers, flat memory, interrupt frames and `switch_to`; `Stubs` has the
assembly routines instruction by instruction. `Threads` says how a thread lies in memory while it is
not running, `Preemption` what timer ticks do to all of them,
`Ticking` that they can always happen, `Interrupts` that nothing can interrupt them, `RoundRobin` in
which order. `Tasks` and `Sched` are thread creation and the scheduler's list, `Creation` is `kernel_thread` cut into single
stores with everything else in between, `Race` and `LosingRace` two of them at once. `Idt` is dispatch and acknowledgement.

**Formatting.** `Numerals` and `NumeralLaws` are `number` and what holds of its output, `Printf` gives
formats a meaning directive by directive, `PrintfLaws` says what each directive prints in terms of how it
is written, `Vsprintf` is the single scan, `Console` the screen, `Printk` the two together.

A method is proved against a function on values; the lemmas beside that function fix its answers in
numbers, offsets and characters, so that they do not depend on how it is computed.

## Where the code and its intent differ

- **`split_chunk` leaves a stale back link.** It never sets the old successor's `prev` to the new chunk
  (`src/mm/heap.c:115-123`), although `glue_chunk` relies on that link and maintains it itself. The model
  has both versions behind one flag: `repaired = true` adds the one missing assignment, `repaired = false`
  is the code as it stands. The run properties are those of the repaired version. For both versions
  `HeapLinks.KmallocSoundIff` says when one call keeps the list sound: if and only if the link is
  repaired or the chosen chunk is not cut. `HeapLinks.AsWrittenReturnsLiveMemory` is a run of the code
  as it stands that hands out memory still in use.
- **The size bound of `init_pmm` is off by one frame.** `page_addr <= PMM_MAX_SIZE` (`src/mm/pmm.c:40`) lets
  frame 0x20000000 through, which is not in the linear map. `Pmm.FramesInLinearMapIff` gives the exact
  condition; the memory stack is proved for RAM that ends at or below 512 MB, in one region at 1 MB.
- **`get_mapping`** has a bare `return` where no page table exists (`src/mm/vmm.c:93-94`), taken as 0, and
  returns 0 without an output pointer, unlike its comment (`src/include/vmm.h:58`).
- **32-bit sums.** `len += 12` and `start + len` can wrap, and `length` has 31 bits
  (`src/mm/heap.c:23`, `src/mm/heap.c:84`, `src/include/heap.h:14`). `HeapRuns.CodeKmalloc` computes them as
  the code does. `HeapRuns.CodeAgreesIff` says when the code does what is specified: if and only if the
  sums do not wrap (`NoWrap`, which a caller can check beforehand), or the first one wraps and the code
  runs out of frames all the same. A wrapped request that is answered leads out of the heap
  (`HeapRuns.WrappedRequestLeavesHeap`); `kmalloc(0xFFFFFFFF)` on the booted heap returns 11 bytes and has
  the next chunk's header put inside its own (`HeapRuns.WrappedRequestCorruptsHeap`). The runs are those
  of callers that respect `NoWrap`; it rules out no request that could be met
  (`HeapRuns.GrantedDoesNotWrap`). That `heap_max` itself never wraps is proved, not required.
- **`*` in formats** takes an argument but is not skipped, so it is printed (`src/kernel/debug/printk.c:193-211`);
  `Printf.StarStaysLiteral` says so behind any flags and width, in the precision
  too, and for every continuation. `+` and space also apply to unsigned
  conversions.
- **Two threads creating threads at once** can lose one of the new threads
  (`src/kernel/task/task.c:40-46`). `Race.RaceOutcome` covers every interleaving of two creations with each
  other and with everything else: both new threads end up in the ring if and only if the creation that
  links second had not found its tail when the other linked; otherwise the thread linked first is out of
  the ring. `LosingRace.LosingRun` is such a run. The other creation properties are for one in flight.
- **One selector for five.** The stub saves `ds` and reloads all data segments from it
  (`src/idt/idt_s.s:131-150`): `Cpu.LeaveUndoesEnter` restores all selectors if and only if they were equal.
- **`get_mapping` after `map`** finds the frame, unless frame 0 was mapped with no flag at all
  (`src/mm/vmm.c:99`): `Vmm.MappedPageIsFound`.

## Model

| member | source | states |
|---|---|---|
| `Pmm.FrameStack.AllocPage` | src/mm/pmm.c:49-53 | takes the frame freed last; fails exactly when no frame is free |
| `Pmm.FrameStack.FreePage` | src/mm/pmm.c:56-59 | the freed frame is the next to be taken; fails exactly when the stack is full |
| `Pmm.FrameStack.Init` | src/mm/pmm.c:25-47 | pushes the frames of all usable regions in order (`FramesPushed` says which those are) and counts them; fails exactly when they do not fit in 0x20000 slots |
| `Pmm.FramesPushed` | src/mm/pmm.c:31-45 | for any memory map an address is pushed if and only if some entry of type 1 at 0x100000, whose end does not pass 2^32, has it at a whole number of pages above the kernel's end, below the region's end and at 512 MB or below |
| `Pmm.FramesOfOneRegion` | src/mm/pmm.c:31-46 | for one region of type 1 at 0x100000 the pushed frames ascend by 4096 from the kernel's end, are too few to fill the stack, and are exactly the page addresses f up to 0x20000000 with 0x100000 + kernel size <= f < 0x100000 + length_low, none when that sum passes 2^32 |
| `Pmm.FramesInLinearMapIff` | src/mm/pmm.c:40 | all pushed frames lie inside the 512 MB linear map if and only if 0x100000 + length_low is at most 512 MB or passes 2^32, or the kernel ends above 512 MB |
| `PageTables.MapChangesOnePage` | src/mm/vmm.c:49-72 | `map` changes the entry of exactly one of the 2^20 pages, also when it installs a zeroed table frame, and keeps the tables well formed |
| `PageTables.UnmapRemovesOnePage` | src/mm/vmm.c:74-86 | `unmap` empties exactly one page and keeps the directory |
| `PageTables.WithTableChangesNoPage` | src/mm/vmm.c:56-63 | putting a zeroed table that aliases none in use into an empty slot changes no page |
| `PageTables.SetEntryChangesOnePage` | src/mm/vmm.c:69 | one store into a table in use changes the page it governs and no other |
| `PageTables.TablesFrame` | src/mm/vmm.c:49-104 | stores outside directory and tables change no mapping |
| `Vmm.Memory.InitVmm` | src/mm/vmm.c:18-34 | from zeroed statics the loops build the linear map, nothing else in the directory, and touch nothing else in memory |
| `Vmm.Memory.Map` | src/mm/vmm.c:49-72 | memory and frame stack after `map`; fails exactly when a table is missing and no frame is left |
| `Vmm.Memory.Unmap` | src/mm/vmm.c:74-86 | memory after `unmap`, also when there is no table |
| `Vmm.Memory.GetMapping` | src/mm/vmm.c:88-104 | found exactly when an output pointer is passed and the page has an entry, and then its page base |
| `Vmm.MappedPageIsFound` | src/mm/vmm.c:69-103 | after `map`, `get_mapping` gives pa rounded down to its page, if and only if pa or the flags make the entry non-zero |
| `Vmm.WalkByHand` | src/include/vmm.h:33-38 | the walk word by word: which two words it reads for an address, which bits make it fault, and the physical address |
| `Vmm.MapTranslates` | src/mm/vmm.c:49-72 | after `map` with the present flag the processor translates the whole page to the frame and every other address as before |
| `Vmm.UnmapTranslates` | src/mm/vmm.c:74-86 | after `unmap` the page faults and every other address is translated as before |
| `FramePool.OneOwnerPerFrame` | src/mm/pmm.c:49-59 | under conservation free frames, heap pages and page tables are duplicate-free, pairwise disjoint and together all frames there ever were |
| `FramePool.GrowOneTakes` | src/mm/heap.c:84-88 | a new heap page takes the top frame of the stack, and for the first of every 1024 pages the one below it becomes the page table |
| `FramePool.GrowToConserves` | src/mm/heap.c:78-89 | growing by any number of pages, tables included, conserves all frames |
| `FramePool.ShrinkToConserves` | src/mm/heap.c:102-108 | so does shrinking; tables stay |
| `FramePool.GrowSucceedsIff` | src/mm/heap.c:84-88 | growing to n pages succeeds exactly when the pages and missing tables are free, and takes exactly those |
| `FramePool.GrowThenShrink` | src/mm/heap.c:78-109 | growing and shrinking back restores the frame stack in order, less the new page tables |
| `HeapSpec.TakeKeepsOk` | src/mm/heap.c:30-36 | handing out a free chunk, split or whole, keeps tiling, no free neighbours and a used last chunk, and the heap's end |
| `HeapSpec.FreeKeepsOk` | src/mm/heap.c:127-146 | two-sided merging and tail dropping keep the same |
| `HeapSpec.FreeUndoesMalloc` | src/mm/heap.c:21-146 | releasing the chunk just handed out restores the chunk sequence in all three cases |
| `HeapSpec.MallocLive` | src/mm/heap.c:21-67 | exactly one new live chunk, at least the length asked for, all others as they were; `MallocGrants` gives its exact length |
| `HeapSpec.MallocGrants` | src/mm/heap.c:21-67 | the chunk handed out is at most 12 bytes longer than asked for: a free chunk is cut exactly when more than 12 bytes are left over, the tail becoming the next, free chunk, and is handed out whole otherwise; a new chunk at the end is exact |
| `HeapSpec.FreeLive` | src/mm/heap.c:69-76 | exactly the released chunk stops being live |
| `HeapSpec.LiveDeterminesChunks` | src/mm/heap.c:21-146 | well-formed chunk sequences with the same live chunks are equal, so what `kmalloc` and `kfree` leave free, and in how many pieces, follows from which chunks are live |
| `HeapRuns.PayloadsAreSafe` | src/mm/heap.c:21-146 | after any calls of the code's `kmalloc`, with requests that do not wrap, and `kfree` from boot all live payloads have their size, lie in the mapped heap and are pairwise disjoint, and no further such call goes astray |
| `HeapRuns.PayloadSize` | src/mm/heap.c:21-67 | `kmalloc(n)` answers 12 bytes into the first free chunk of at least n + 12 bytes, or into a new one at the heap's end; the payload there holds n to n + 12 bytes |
| `HeapRuns.CodeAgreesIff` | src/mm/heap.c:21-67 | with 32-bit sums and the 31-bit length `kmalloc` does what is specified if and only if nothing wraps, or it wraps and panics all the same |
| `HeapRuns.AppendedLength` | src/mm/heap.c:23-60 | where the code appends a chunk: the 32-bit and 31-bit arithmetic that gives its stored length, and the pointer |
| `HeapRuns.WrappedRequestLeavesHeap` | src/mm/heap.c:21-67 | a pointer returned for a request that wraps has less than that many bytes behind it |
| `HeapRuns.WrappedRequestCorruptsHeap` | src/mm/heap.c:21-67 | the run from boot: 11 bytes for 0xFFFFFFFF, and the next header inside the first |
| `HeapRuns.GrantedDoesNotWrap` | src/mm/heap.c:23-30 | a request the heap can meet never wraps a 32-bit sum nor exceeds the length field |
| `HeapRuns.KmallocKeepsInv` | src/mm/heap.c:21-67 | chunk, frame and page-count invariants across `kmalloc` as specified, which is the code's wherever `CodeAgreesIff` holds |
| `HeapRuns.KfreeKeepsInv` | src/mm/heap.c:69-109 | and across `kfree` |
| `HeapRuns.RoomEverywhere` | src/mm/heap.c:78-109 | `heap_max` is the first page boundary at or above the heap's end, never wraps, and a mapped page's frame always fits on the stack |
| `HeapRuns.KfreeUndoesKmalloc` | src/mm/heap.c:21-109 | `kfree` right after `kmalloc` restores chunks, heap limit, pages and the order of the frame stack, less new page tables |
| `HeapRuns.AllReleased` | src/mm/heap.c:69-109 | once everything is released, after any calls that do not wrap, the heap is empty and every frame is free except the page tables |
| `HeapLinks.SplitRefines` | src/mm/heap.c:111-125 | with the back link, splitting in the linked list is splitting in the chunk sequence |
| `HeapLinks.SplitWrites` | src/mm/heap.c:111-125 | the exact header writes of `split_chunk`: none unless more than 12 bytes are left over; otherwise new header, length and forward link, and the successor's back link only if repaired |
| `HeapLinks.GlueNextRefines` | src/mm/heap.c:129-134 | taking in a free successor likewise, and when it happens |
| `HeapLinks.GluePrevRefines` | src/mm/heap.c:135-141 | being taken in by a free predecessor likewise |
| `HeapLinks.KfreeRefines` | src/mm/heap.c:69-96 | `kfree` on the list, next and prev mutually inverse, is `Free` on the chunks |
| `HeapLinks.KmallocRefines` | src/mm/heap.c:21-67 | `kmalloc` on the list is first fit on the chunks and returns that chunk |
| `HeapLinks.KmallocSoundIff` | src/mm/heap.c:21-67 | the list stays sound if and only if the back link is repaired or nothing is cut |
| `HeapLinks.StaleBackLink` | src/mm/heap.c:111-125 | every cut without the repair breaks the list |
| `HeapLinks.AsWrittenReturnsLiveMemory` | src/mm/heap.c:111-146 | a run of the code as it stands whose last `kmalloc` returns a pointer still in use |
| `AsWritten.RunSoundIff` | src/mm/heap.c:21-146 | as it stands the code keeps the list sound at every moment of a run if and only if no `kmalloc` in it cuts |
| `HeapPages.GrowStep` | src/mm/heap.c:84-88 | mapping the next page, with or without a new table, yields exactly the tables of the grown pool over all 2^20 pages |
| `HeapPages.GrowKeepsView` | src/mm/heap.c:84-88 | and leaves every heap byte as it was |
| `HeapPages.ShrinkStep` | src/mm/heap.c:102-108 | the page to drop is mapped to its frame, and unmapping it yields the tables of the shrunk pool |
| `HeapPages.StoreStep` | src/mm/vmm.c:49-104 | a store into the heap changes one heap byte and no mapping |
| `HeapPages.WalkHeap` | src/mm/vmm.c:49-72 | the processor finds every heap byte at its page's frame, present and writable, and faults beyond `heap_max` |
| `HeapPages.WalkLinear` | src/mm/vmm.c:18-34 | in every reachable state PAGE_OFFSET + a is physical a, page 0 excepted |
| `Arena.HeapArea.AllocChunk` | src/mm/heap.c:78-89 | the loop grows the pool to the pages the 32-bit sum asks for, keeps the bytes, and fails exactly when frames run out |
| `Arena.HeapArea.DropPage` | src/mm/heap.c:103-107 | the mapping lookup succeeds, the frame goes back, the remaining bytes stay |
| `Arena.HeapArea.Trim` | src/mm/heap.c:102-108 | the loop drops exactly the pages that start at or after the chunk |
| `HeaderBytes.StoreField` | src/include/heap.h:10-15 | a store into one header word changes that field alone: `prev` at 0, `next` at 4, flag and 31-bit length packed at 8 |
| `HeaderBytes.HeadersMissPayloads` | src/mm/heap.c:21-146 | a call that writes only headers leaves every byte of every live payload as it was |
| `Heap.KernelHeap.SplitChunk` | src/mm/heap.c:111-125 | the assignments in memory are `Split` on the list, with or without the repair; a header is added exactly when more than 12 bytes are left over |
| `Heap.KernelHeap.GlueChunk` | src/mm/heap.c:127-146 | the assignments and the trimming are the merged list and the shrunk pool |
| `Heap.KernelHeap.FreeChunk` | src/mm/heap.c:91-109 | unlinks the last chunk and returns exactly its whole pages |
| `Heap.KernelHeap.Search` | src/mm/heap.c:25-39 | the loop finds the first fitting chunk, or stops behind the last one |
| `Heap.KernelHeap.Kmalloc` | src/mm/heap.c:21-67 | chunks, frames, list and result are as specified, the result is the payload of a used chunk with room for n to n + 12 bytes, only headers are written, all live payloads keep their bytes; fails exactly when frames run out; sound afterwards if and only if repaired or nothing was cut |
| `Heap.KernelHeap.Kfree` | src/mm/heap.c:69-76 | chunks and frames are as specified, only headers are written, all other payloads keep their bytes |
| `Heap.KernelHeap.StoreToPayload` | src/mm/heap.c:34-35 | a caller's store into its payload disturbs neither list nor tables nor other payloads |
| `Boot.KernInit` | src/init/entry.c:107-109 | from one region of RAM the three initialisations succeed and leave a valid empty heap over exactly its frames |
| `Cpu.LeaveUndoesEnter` | src/idt/idt_s.s:129-153 | whatever ran in between, if it left the stack above alone, interrupt exit restores every register and flag, and the selectors if and only if they were equal |
| `Cpu.HandlerSeesFrame` | src/include/idt.h:23-40 | the handler finds the address of the saved registers on the stack and each of them at its `pt_regs` offset, kernel selectors loaded and interrupts off |
| `Cpu.EnterWritesBelow` | src/idt/idt_s.s:129-142 | interrupt entry writes the 60 bytes below the stack pointer only |
| `Cpu.SwitchComesBack` | src/kernel/sched/switch_to.s:5-24 | to its caller `switch_to` returns normally: stack pointer, ebp, ebx, esi, edi and flags as they were |
| `Cpu.ContextLayout` | src/include/task.h:17-24 | saving and loading a context use the field order esp, ebp, ebx, esi, edi, eflags |
| `Cpu.SaveContextWrites` | src/kernel/sched/switch_to.s:6-14 | storing the old context writes the context and one word below the old stack pointer, nothing else |
| `Stubs.Processor.EnterIrq` | src/idt/idt_s.s:101-142 | interrupt gate, entry macro and stub, instruction by instruction, build the frame |
| `Stubs.Processor.EnterException` | src/idt/idt_s.s:6-79 | with or without an error code of its own an exception reaches the handler with the same frame |
| `Stubs.Processor.StubOut` | src/idt/idt_s.s:143-153 | the second half of the stub and `iret` load the frame |
| `Stubs.Processor.Switch` | src/kernel/sched/switch_to.s:5-24 | the instructions of `switch_to` are the function `SwitchTo` and a `ret` |
| `Threads.EpiloguesFollowChain` | src/kernel/sched/sched.c:25-37 | returning through the saved frames ends at the stub with the stack pointer it had |
| `Threads.ParkedStays` | src/include/task.h:32-39 | a waiting thread depends on its context and stack only |
| `Preemption.TickGetsThrough` | src/kernel/sched/sched.c:25-37 | whatever the C code does within its bounds, a tick arrives at the next thread |
| `Preemption.TickKeepsThreads` | src/kernel/sched/sched.c:25-37 | a tick parks the current thread, resumes the next exactly as it was left or about to start, and writes only on those two stacks |
| `Interrupts.InterruptsStayOff` | src/idt/idt_s.s:101-153 | from the gate to the `iret` of the thread switched to the interrupt flag is clear at every stage, so a tick cannot be interrupted |
| `Preemption.FreshThreadBegins` | src/kernel/sched/switch_to.s:15-24 | a new thread is dispatched at the `ret` of `switch_to`, where its flags first let interrupts in, with fn, `kthread_exit` and the argument on its stack |
| `Interrupts.NewThreadStarts` | src/kernel/task/task.c:30-37 | that `ret` is an ordinary step and enters fn with its argument in place, `kthread_exit` as return address and interrupts enabled |
| `Interrupts.NewThreadStartsLater` | src/kernel/sched/switch_to.s:22-24 | interrupted at that `ret` and resumed any time later, it still starts the same way |
| `Preemption.SpawnKeepsThreads` | src/kernel/task/task.c:39-46 | a thread that joins the ring disturbs no other |
| `Preemption.WaitingThreadIsKept` | src/idt/idt_s.s:101-153 | over any run of steps, ticks and creations a waiting thread finds registers and stack as it left them |
| `Preemption.PreemptionIsTransparent` | src/idt/idt_s.s:101-153 | a thread interrupted at any instruction resumes, any number of steps later, with the same registers, eip, eflags and stack |
| `Ticking.FirstThreadHolds` | src/kernel/sched/sched.c:9-23 | the state after `init_sched` is one the runs can begin with |
| `Ticking.TickCanHappen` | src/kernel/sched/sched.c:25-37 | with interrupts enabled and room on the stack a tick is always possible, to its end |
| `RoundRobin.TurnsGoRound` | src/kernel/sched/sched.c:25-28 | the k-th tick dispatches the k-th thread of the ring after the current one |
| `RoundRobin.EveryTaskOnce` | src/kernel/sched/sched.c:25-28 | any n ticks in a row make each of n threads current exactly once |
| `Tasks.SetupMakesTask` | src/kernel/task/task.c:19-40 | whatever the block held, the stores leave a thread that starts at fn, linked to the head |
| `Tasks.NewTaskLayout` | src/kernel/task/task.c:19-40 | the finished block word by word, at literal offsets: task fields, context, and the three words at the top of its 8192 bytes |
| `Tasks.NewTaskRuns` | src/kernel/sched/switch_to.s:15-24 | switching to that block enters fn with interrupts on, `kthread_exit` as return address and the argument above it |
| `Sched.TaskList.InitSched` | src/kernel/sched/sched.c:9-23 | a ring of one on the kernel stack, whose context and contents are not touched |
| `Sched.TaskList.ChangeTaskTo` | src/kernel/sched/sched.c:30-37 | which contexts are switched, and that staying switches none |
| `Sched.TaskList.Schedule` | src/kernel/sched/sched.c:25-28 | the successor in the ring becomes current; nothing before `init_sched` |
| `Sched.TaskList.FindTail` | src/kernel/task/task.c:41-45 | the walk ends, at the last of the ring |
| `Sched.TaskList.KernelThread` | src/kernel/task/task.c:16-49 | the ring grows by the new thread at its end, which is ready to start; nothing outside its block and the tail's link changes; when it halts |
| `Creation.CreationStepKeeps` | src/kernel/task/task.c:16-49 | every store, every tick and every step of others keeps the ring closed and complete |
| `Creation.CreationKeepsRing` | src/kernel/task/task.c:39-46 | at every moment of every interleaving the ring is the old one, or the old one and the new thread after the last store; to the others it is an ordinary run |
| `Creation.CreationEnds` | src/kernel/task/task.c:41-46 | the creator's steps are bounded by stores plus ring size plus one, reached exactly when linked |
| `Creation.CreatorCanStep` | src/kernel/task/task.c:16-49 | and it is never stuck |
| `Creation.RacingCreationsLoseOne` | src/kernel/task/task.c:46 | the two stores behind the race: a second link at the old tail closes a ring without the block linked first |
| `Race.RaceOutcome` | src/kernel/task/task.c:16-49 | two creations interleaved in any way: both threads are in the ring at the end if and only if the later one had not found its tail at the first link; what the ring is in every case |
| `Race.FirstLinksFirst` | src/kernel/task/task.c:40-46 | the same with the linking step given |
| `Race.StaleLink` | src/kernel/task/task.c:46 | a late link acts as if the first new thread had never joined, and disturbs no thread that stays |
| `LosingRace.LosingRun` | src/kernel/task/task.c:40-46 | from any ring of two creators that can be interrupted, a run that loses a thread |
| `Creation.StacksAreApart` | src/kernel/task/task.c:17 | blocks from `kmalloc` are apart from each other and from the kernel stack in every run whose requests do not wrap |
| `Idt.Dispatcher.IrqHandler` | src/idt/idt.c:139-147 | acknowledgements first, slave before master, then the handler registered last for the number |
| `Idt.Dispatcher.IsrHandler` | src/idt/idt.c:22-28 | calls the handler registered last for the number since the table was cleared, whatever else was registered; reports the number if there is none |
| `Idt.LastForIs` | src/idt/idt.c:17-19 | in any history of registrations that handler is the one with no later registration for its number, none without any |
| `Idt.RegistrationDispatches` | src/idt/idt.c:17-28 | after registering f for n, exception and interrupt n end in a call of f and every other number is dispatched as before |
| `Idt.AcknowledgedBeforeHandler` | src/idt/idt.c:139-147 | 0x20 goes to port 0xA0 for numbers from 40 on, then to port 0x20; whatever lines of lower priority are in service, by the time the handler runs exactly the accepted line no longer is |
| `Numerals.Number` | src/kernel/debug/printk.c:66-147 | the in-place loops write exactly the text `NumberText`, which `NumberParts` describes; null pointer exactly for a bad base |
| `Numerals.Digits` | src/kernel/debug/printk.c:101-108 | the division loop stores the digits lowest first, between 1 and 32 of them; `DigitLetters` and `DigitsReadBack` say which |
| `Numerals.PutNumber` | src/kernel/debug/printk.c:115-144 | of the loops that count the field width down only one writes padding, in the right place |
| `NumeralLaws.WidthLaw` | src/kernel/debug/printk.c:91-144 | exactly max(width, sign + prefix + max(precision, digits)) characters |
| `NumeralLaws.PaddingLaw` | src/kernel/debug/printk.c:115-144 | the padding is all spaces on the left, all zeros behind the prefix, or all spaces on the right |
| `NumeralLaws.NumberParts` | src/kernel/debug/printk.c:66-147 | the text part by part: sign and prefix as the flags say; digits of the base in the case asked for that denote the magnitude, at least `precision` of them, leading zeros only for precision or zero padding; spaces on the side the flags say and only to fill the field |
| `NumeralLaws.DigitLetters` | src/kernel/debug/printk.c:69-73 | every digit is one of the first `base` characters of 0..9a..z or 0..9A..Z as SMALL says, and the leading one is not 0 |
| `NumeralLaws.NumberReadsBack` | src/kernel/debug/printk.c:66-147 | reading the text gives the number back for every word, base, width, precision and flags, -2^31 included |
| `NumeralLaws.DigitsReadBack` | src/kernel/debug/printk.c:105-107 | the value of the digits is the number |
| `Printf.ParseCoversFormat` | src/kernel/debug/printk.c:162-307 | the items of a format spell out the format, nothing lost and nothing twice |
| `Printf.SpelledFormatParses` | src/kernel/debug/printk.c:168-222 | a format written from canonical items, in which every part is as long as it can be read, is read as those items |
| `Printf.OneReading` | src/kernel/debug/printk.c:162-307 | reading a format gives the only canonical items that spell it, unknown conversions and cut off directives included |
| `Printf.NumbersReadBack` | src/kernel/debug/printk.c:259-290 | every numeric directive prints its argument so that it can be read back, signed for d and i |
| `Printf.StarStaysLiteral` | src/kernel/debug/printk.c:193-211 | every directive that ends in `*` prints `%*`, drops flags, width and dot, and what follows is printed as it stands |
| `Printf.StarTakesArgument` | src/kernel/debug/printk.c:193-211 | and takes an argument exactly right behind the flags or right behind the dot |
| `PrintfLaws.NumbersAsWritten` | src/kernel/debug/printk.c:259-290 | every numeric directive in terms of how it is written: base and sign from the conversion, width and least number of digits from its digits (8 with zero padding for a bare `%p`), sign, prefix, letters and side of the padding from its flags |
| `PrintfLaws.CharAsWritten` | src/kernel/debug/printk.c:225-235 | `%c` prints the low byte of its argument in a field of the width, on the side the flag says |
| `PrintfLaws.StringAsWritten` | src/kernel/debug/printk.c:237-257 | `%s` prints the string cut to the precision in a field of the width, on the side the flag says |
| `PrintfLaws.OthersAsWritten` | src/kernel/debug/printk.c:292-306 | `%n` stores the number of characters so far; `%%`, a cut off directive and unknown conversions, and the arguments they take |
| `PrintfLaws.RenderConcat` | src/kernel/debug/printk.c:162-308 | a format prints its items one after the other, each going on where the last stopped in text and arguments |
| `Vsprintf.ScanFlags` | src/kernel/debug/printk.c:168-187 | the loop consumes exactly the flag characters |
| `Vsprintf.SkipAtoi` | src/kernel/debug/printk.c:41-49 | consumes exactly the digits and gives their value |
| `Vsprintf.ScanFields` | src/kernel/debug/printk.c:189-222 | width, precision and qualifier of the directive, and the arguments they take |
| `Vsprintf.PutChar` | src/kernel/debug/printk.c:226-235 | `%c`, padded on one side |
| `Vsprintf.PutString` | src/kernel/debug/printk.c:238-257 | `%s`, cut to the precision, padded on one side |
| `Vsprintf.Convert` | src/kernel/debug/printk.c:224-306 | each conversion writes the text `PrintfLaws` describes and takes its argument |
| `Vsprintf.Vsprintf` | src/kernel/debug/printk.c:149-311 | the scan equals the renderings of the format's items in order, which `PrintfLaws` describes, returns the exact length, terminates the text and never reads past the format's end |
| `Printk.PrintkColor` | src/kernel/debug/printk.c:23-37 | the screen goes on by exactly the rendered text up to its first NUL |
| `Console.Screen.Clear` | src/drivers/console.c:35-45 | the screen is the window onto a new roll |
| `Console.Screen.Scroll` | src/drivers/console.c:47-60 | one row up with a blank row at the bottom, exactly when the cursor has left the screen |
| `Console.Screen.PutcColor` | src/drivers/console.c:62-90 | the 25x80 buffer stays the last 25 rows of the endless terminal, on which the character acts as `TypedCharacter` says; cursor on screen, every store inside the buffer |
| `Console.WriteColor` | src/drivers/console.c:98-101 | a whole string does, up to its terminator |
| `Console.TextFillsCells` | src/drivers/console.c:78-86 | text fills consecutive cells from the cursor across rows with code and colours, and changes no other cell |
| `Console.TypedCharacter` | src/drivers/console.c:62-86 | what each character does to cells and cursor: the printable ones, newline, carriage return, tab, backspace, and nothing for the others |
| `Console.LastRowsShow` | src/drivers/console.c:47-60 | screen row i shows row i of the last 25, and the cursor is shown where it is |
| `Console.LinesFillRows` | src/drivers/console.c:62-90 | lines shorter than 80 joined by newlines fill consecutive rows from the left and change no other cell |
| `Console.RowsAboveStay` | src/drivers/console.c:62-90 | whatever is typed, rows above the cursor never change and the cursor never goes back up |

## Left out

- Boot code, mode switching, GDT and IDT tables, loading of cr3, `invlpg` and the TLB: the tables in memory count at once.
- The thread model runs on a flat 4 GB memory; that heap and linear map give it distinct bytes is `HeapPages.WalkHeap` and `HeapPages.WalkLinear`.
- Page-table edits are made at physical addresses; `HeapPages.WalkLinear` is what makes the kernel's PAGE_OFFSET addresses the same bytes.
- After a failed `assert` the machine halts; what memory holds then is not specified.
- `kmalloc` and `kfree` are single calls here: two threads inside the heap at the same time are not modelled, and the code does not guard against them.
- Double `kfree` and foreign pointers: excluded by the requires of `Heap.KernelHeap.Kfree`.
- Heap.KernelHeap.Kmalloc: takes `HeapRuns.NoWrap` as its precondition; what the code does with the other requests is stated on chunks by `HeapRuns.CodeAgreesIff`, not in memory.
- HeapRuns.CodeAgreesIff: where a wrapped length puts a new header onto another one, the answer is `Overlaps` and the bytes of the two headers are not followed further.
- Boot.KernInit: assumes one usable region at 1 MB that ends at or below 512 MB or gives no frame, a page-aligned kernel image that contains the static tables, and zeroed statics.
- Preemption.TickKeepsThreads: the compiled C functions between stub and `switch_to` are a relation, `CallsSwitch`: they stay within the interrupted stack, leave interrupts off, keep a frame-pointer chain of return addresses and pass the two contexts. `current` is kept beside memory.
- Preemption.PreemptionIsTransparent: threads are taken to stay off each other's blocks, to keep kernel segments, and to leave stack room for the interrupt frame when the timer fires.
- `kthread_exit`, `wait_proc_head`, panic output, page-fault reporting, ELF lookup, `show_memory_map`, `test_heap` and the demo thread: output or loops without state.
- Programming of interrupt controllers, timer and cursor registers: only the acknowledgements and the cursor's cell number are kept.
- Race.RaceOutcome: for two creations begun by different threads of one ring; three at once are not covered.
- Sched.TaskList.KernelThread: `kmalloc`'s result is a parameter; `pid` counts modulo 2^32.
- Numerals.Number: widths and precisions are unbounded integers, and `-num` on -2^31 wraps as compiled code does.
- Vsprintf.Vsprintf: arguments are a sequence of words and strings a function of their address; the output is taken to fit the buffer.
- Idt.Dispatcher.IrqHandler: interrupt numbers are below 256; packing of gate descriptors is not modelled.
