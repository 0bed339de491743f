# RT-Thread 1.2, modelled and proved in Dafny

The kernel, the allocators and the small shell compiler of RT-Thread 1.2 as Dafny
programs, with proofs of what they are for. `dafny verify dfyconfig.toml` checks the whole
project.

Each part comes in two layers. The specification layer is a state machine over values: a
step for each stretch of code that runs with interrupts off (or with the object's lock
held), an invariant, and a theorem over every run. The object layer is the code's own form:
classes with the source's fields, arrays, links and loops, whose methods are proved to take
exactly the steps of the first layer.

| files | part |
|---|---|
| FinshWord, FinshNode, FinshVm, FinshCorrect | the finsh compiler and its stack machine, and that compiled code means what the source means |
| Lists, Arith | what the parts share |
| Ring | the doubly linked list of the kernel |
| Tiling, MemheapSpec, Memheap | the memheap allocator: two rings of headers over one region |
| MemSpec, Mem | the first-fit heap with its lowest-free pointer |
| SlabPages, SlabSizes, SlabZones, Slab | the page list, the chunk zones on top and the page usage table |
| IpcList | the lists of suspended threads, first come or by priority |
| MailboxSpec, Mailbox | mailboxes: wake one, check again |
| MessageQueueSpec, MessageQueue | message queues with copies outside the critical regions |
| MutexSpec, Mutex | recursive mutexes with priority inheritance |
| Event | event flags with a walk that consumes bits |
| Semaphore | counting semaphores with hand-off |
| TimerSpec, Timer | timers: a skip list over wrapping ticks |
| Bitmap, SchedulerSpec, Scheduler | ready lists and their bit map |
| RwLock | reader-writer locks that prefer writers |
| Division | shift-subtract division |

Where the code does not do what it is for, the model keeps the code, lemmas show
inputs on which it fails, and the exact condition is proved:

- a call as first operand loses the operator (`FinshCorrect.EmitsAll`), and increments of
  system variables go through the wrong record (`FinshCorrect.SystemBump`);
- more than 256 nested takes break a mutex (`MutexSpec.ReleaseExact`);
- a semaphore value overflows at 65535 (`SemaphoreSpec.ReleaseExact`);
- the scheduler's lock counts to 32768 only (`SchedulerSpec.Balanced`), although the comment
  at scheduler.c:365-368 promises 65535 levels;
- a memheap refuses a request for all the memory it has (`MemheapSpec.RefusedExactFit`);
- a shrinking `rt_realloc` can leave the lowest-free pointer above a free block
  (`MemSpec.ShrinkLowest`), an exact fit at the end of the heap is refused
  (`MemSpec.Complete`), and in a heap of less than 12 bytes the search does not end
  (`MemSpec.SearchEnds`);
- a due periodic timer without delay never lets a check end (`TimerSpec.EndsExactly`);
- blocks of a power of two above the page size need not be aligned to their size
  (`SlabZones.MallocAligned`), although the comment at slab.c:162-163 promises it. The same
  comment promises a block for `malloc(0)`; the code returns NULL, and so does the model;
- a writer that times out can leave readers asleep on a free lock
  (`RwLockSpec.StuckExactly`).

Addresses are integers and memory is a map from addresses. Ticks, semaphore values, the hold
count of a mutex, the lock of the scheduler, event words and the operands and text of finsh
have the source's widths and wrap as it does; sizes, entry counts and the counters of
reader-writer locks are unbounded. Threads are numbers.

## Model

| member | source | states |
|---|---|---|
| `FinshWord.Get32Set32` | rt_thread_lwip_enc28j60/components/finsh/finsh_ops.c:317-325 | the four operand bytes that the compiler writes are read back as the same 32-bit long |
| `FinshWord.OperandBytes` | rt_thread_lwip_enc28j60/components/finsh/finsh_ops.c:317-325 | the operand bytes are those of the 32-bit word, low byte first |
| `FinshWord.DivModLaw` | rt_thread_lwip_enc28j60/components/finsh/finsh_ops.c:99-140 | C division and remainder are defined but for a zero divisor and the one overflowing pair, and satisfy a = q * b + r with r smaller than b in size and of the sign of a |
| `FinshWord.ArithLaw` | rt_thread_lwip_enc28j60/components/finsh/finsh_ops.c:42-163 | for r = a - b, r + b is a but for multiples of 2^32, and likewise for addition and multiplication; all three are always defined |
| `FinshWord.BitLaw` | rt_thread_lwip_enc28j60/components/finsh/finsh_ops.c:165-251 | and, or, exclusive or and complement, bit by bit in two's complement |
| `FinshWord.ShiftLaw` | rt_thread_lwip_enc28j60/components/finsh/finsh_ops.c:253-295 | a left shift by b multiplies by 2^b modulo 2^32, a right shift divides by 2^b and rounds down, for b from 0 to 31 and no other |
| `FinshNode.Compiler.CodeBytes` | rt_thread_lwip_enc28j60/components/finsh/finsh_compiler.c:39-41 | emitting bytes overwrites exactly that stretch of the text segment and moves the write position |
| `FinshNode.Compiler.Compile` | rt_thread_lwip_enc28j60/components/finsh/finsh_compiler.c:43-757 | the recursive code generator writes, in place, exactly the code of the tree and of its siblings |
| `FinshNode.Compiler.CompileStatement` | rt_thread_lwip_enc28j60/components/finsh/finsh_compiler.c:918-934 | a statement's code, with a pop behind all but the last |
| `FinshNode.Compiler.Run` | rt_thread_lwip_enc28j60/components/finsh/finsh_compiler.c:903-937 | the whole run leaves the code of every statement and zeros, which are no-ops, behind it |
| `FinshVm.Machine.Dispatch` | rt_thread_lwip_enc28j60/components/finsh/finsh_ops.c:42-465 | every entry of the dispatch table changes stack, program counter and memory as the operation's meaning says, and faults exactly when it has none |
| `FinshVm.Machine.Run` | rt_thread_lwip_enc28j60/components/finsh/finsh_vm.c:47-72 | the fetch loop computes the meaning of the text; it terminates and neither the stack nor the text is overrun |
| `FinshCorrect.TreeCode` | rt_thread_lwip_enc28j60/components/finsh/finsh_compiler.c:759-901 | for every expression over dword variables, type pass and code generator together emit the code given by its structure, with an operator exactly where its first operand has a type, and the type pass finds a type for all but calls and what stands for them |
| `FinshCorrect.ExprCorrect` | rt_thread_lwip_enc28j60/components/finsh/finsh_compiler.c:43-757 | compiler correctness: from any stack and memory the code leaves that stack plus exactly the value of left-to-right evaluation, with the same memory; it faults if and only if the source expression is undefined |
| `FinshCorrect.ArgsCorrect` | rt_thread_lwip_enc28j60/components/finsh/finsh_compiler.c:285-309 | a call's arguments are pushed in order, their effects in order |
| `FinshCorrect.BumpCorrect` | rt_thread_lwip_enc28j60/components/finsh/finsh_compiler.c:373-713 | pre- and post-increment and decrement leave the new or the old value and the stored result |
| `FinshCorrect.BumpMeaning` | rt_thread_lwip_enc28j60/components/finsh/finsh_compiler.c:373-713 | ++x means x = x + 1, and x++ the same with the old value; likewise for -- |
| `FinshCorrect.AssignMeaning` | rt_thread_lwip_enc28j60/components/finsh/finsh_compiler.c:311-372 | an assignment changes exactly the cell of its variable, to the value it gives |
| `FinshCorrect.PointerMeaning` | rt_thread_lwip_enc28j60/components/finsh/finsh_compiler.c:718-757 | *&x means x on both sides of an assignment, and &*p means p |
| `FinshCorrect.SystemBump` | rt_thread_lwip_enc28j60/components/finsh/finsh_compiler.c:373-713 | increment and decrement of a system variable, whose record the compiler takes for a variable's, are compiled as for a variable at its address if and only if the value lay in the record |
| `FinshCorrect.EmitsAll` | rt_thread_lwip_enc28j60/components/finsh/finsh_compiler.c:759-901 | the code of an expression has all its operators if and only if no operator in it, at any depth, has a first operand without type, that is, a call or the address of what a call points to: binary operators, complement, dereference and store through a pointer |
| `FinshCorrect.VoidOperandPushesBoth` | rt_thread_lwip_enc28j60/components/finsh/finsh_compiler.c:217-284 | where it has one, a binary operator or a store leaves both operand values on the stack and changes nothing |
| `FinshCorrect.VoidOperandUnchanged` | rt_thread_lwip_enc28j60/components/finsh/finsh_compiler.c:266-271 | and complement and dereference do what their operand does |
| `FinshCorrect.StatementsCorrect` | rt_thread_lwip_enc28j60/components/finsh/finsh_compiler.c:918-934 | a statement list leaves the value of the last statement and the memory after all of them |
| `FinshCorrect.ProgramCorrect` | rt_thread_lwip_enc28j60/components/finsh/finsh_compiler.c:903-937 | compiled text plus its no-op tail runs to the end with the last value alone on the stack |
| `FinshCorrect.EvaluateLine` | rt_thread_lwip_enc28j60/components/finsh/finsh_vm.c:47-72 | compiler object, machine object and source meaning agree end to end on every statement list that fits the text segment |
| `Ring.LinkAfter` | rt_thread_lwip_enc28j60/include/rtservice.h:62-69 | four stores insert a node behind any node of a ring, and leave a ring |
| `Ring.Unlink` | rt_thread_lwip_enc28j60/include/rtservice.h:90-96 | two stores take a node out of a ring of two or more, and leave a ring |
| `Ring.Links.Init` | rt_thread_lwip_enc28j60/include/rtservice.h:51-54 | a node alone is a ring |
| `Ring.Links.InsertAfter` | rt_thread_lwip_enc28j60/include/rtservice.h:62-69 | insertion behind a node puts it at that place of the sequence; the links of all nodes outside the ring are unchanged, and every other ring is still one |
| `Ring.Links.InsertBefore` | rt_thread_lwip_enc28j60/include/rtservice.h:77-84 | insertion before any node of the ring, before its head being behind its last node; nothing outside is changed |
| `Ring.Links.IsEmpty` | rt_thread_lwip_enc28j60/include/rtservice.h:102-105 | a list is empty exactly when its head is alone in its ring |
| `Ring.Links.Remove` | rt_thread_lwip_enc28j60/include/rtservice.h:90-96 | removal takes the node out of the sequence and leaves it alone in a ring of its own, also if it was alone; nothing outside is changed |
| `MemheapSpec.AllocInv` | rt_thread_lwip_enc28j60/src/memheap.c:190-262 | taking or splitting a free block keeps tiling, merging, free ring and counters |
| `MemheapSpec.RequestLaw` | rt_thread_lwip_enc28j60/src/memheap.c:154-157 | a request is rounded up to the next multiple of four, and to 12 |
| `MemheapSpec.AllocExact` | rt_thread_lwip_enc28j60/src/memheap.c:195-265 | the block given out has fewer than 36 bytes more than asked for, and exactly the size asked for whenever the rest makes a block; that rest is free, and available_size falls by the block and its header |
| `MemheapSpec.AllocUse` | rt_thread_lwip_enc28j60/src/memheap.c:195-265 | exactly that stretch of the pool comes into use |
| `MemheapSpec.FreeInv` | rt_thread_lwip_enc28j60/src/memheap.c:499-593 | releasing a block with its four kinds of merge keeps them |
| `MemheapSpec.FreeUse` | rt_thread_lwip_enc28j60/src/memheap.c:499-593 | exactly the released block goes out of use, whatever it is merged with |
| `MemheapSpec.RoundTrip` | rt_thread_lwip_enc28j60/src/memheap.c:146-593 | a release undoes an allocation: the same blocks and the same available_size |
| `MemheapSpec.GrowInv` | rt_thread_lwip_enc28j60/src/memheap.c:354-403 | growing in place into a free neighbour keeps them |
| `MemheapSpec.ShrinkInv` | rt_thread_lwip_enc28j60/src/memheap.c:424-496 | cutting the tail off a block, merged or not, keeps them |
| `MemheapSpec.ResizeUse` | rt_thread_lwip_enc28j60/src/memheap.c:345-493 | growing and shrinking in place move exactly the end of the block |
| `MemheapSpec.NewestFirst` | rt_thread_lwip_enc28j60/src/memheap.c:146-593 | a new free block comes first in the free ring, so the next request that fits is served from it; the others keep their order |
| `Tiling.Determined` | rt_thread_lwip_enc28j60/src/memheap.c:146-593 | in a pool without neighbouring free blocks, the stretches in use determine all blocks |
| `MemheapSpec.RunInv` | rt_thread_lwip_enc28j60/src/memheap.c:60-593 | in every run the blocks tile the pool from start to tailer, the free ring lists exactly the unused blocks, no two neighbours are free, available_size is the sum of free data, and max_used_size is the running maximum |
| `MemheapSpec.RefusedExactFit` | rt_thread_lwip_enc28j60/src/memheap.c:162-190 | a request that fits is refused only if it equals the whole available memory in one block |
| `MemheapSpec.WholeRefused` | rt_thread_lwip_enc28j60/src/memheap.c:162-190 | a new pool of 148 bytes with one free block of 100 refuses a request of 100 |
| `MemheapObject.Memheap.constructor` | rt_thread_lwip_enc28j60/src/memheap.c:60-131 | the headers and both rings of a new pool |
| `MemheapObject.Memheap.FindFree` | rt_thread_lwip_enc28j60/src/memheap.c:176-188 | the loop over the free ring stops at the first block that is large enough |
| `MemheapObject.Memheap.Alloc` | rt_thread_lwip_enc28j60/src/memheap.c:146-288 | first fit in free-ring order; NULL only if nothing fits or the request is not below available_size; every live byte keeps its value |
| `MemheapObject.Memheap.Free` | rt_thread_lwip_enc28j60/src/memheap.c:499-593 | the links after the merges are those of the specification, and no byte changes |
| `MemheapObject.Memheap.Grow` | rt_thread_lwip_enc28j60/src/memheap.c:354-403 | the boundary move on the links, with every live byte kept |
| `MemheapObject.Memheap.Shrink` | rt_thread_lwip_enc28j60/src/memheap.c:424-496 | the cut on the links, with every live byte kept |
| `MemheapObject.Memheap.Relocate` | rt_thread_lwip_enc28j60/src/memheap.c:411-420 | new block, copy, release: the old bytes are found in the new block, all others keep their value, and NULL changes nothing |
| `MemheapObject.Memheap.Extend` | rt_thread_lwip_enc28j60/src/memheap.c:319-421 | growing: in place when the free block behind has room to spare, else elsewhere, with the bytes copied |
| `MemheapObject.Memheap.Realloc` | rt_thread_lwip_enc28j60/src/memheap.c:291-496 | which way is taken in each case, the block returned is used and large enough, the first min(old, new) bytes are kept, and so is every other live byte |
| `MemheapObject.Memheap.Memcpy` | rt_thread_lwip_enc28j60/src/kservice.c:218-258 | the copy loop between disjoint ranges |
| `MemSpec.AllocInv` | rt_thread_lwip_enc28j60/src/mem.c:283-352 | taking or splitting a block keeps tiling, merging and used_mem, and lfree free or heap_end |
| `MemSpec.RequestLaw` | rt_thread_lwip_enc28j60/src/mem.c:262-273 | a request is rounded up to the next multiple of four, and to 12 |
| `MemSpec.AllocExact` | rt_thread_lwip_enc28j60/src/mem.c:283-340 | the block given out has fewer than 24 bytes more than asked for, and exactly the size asked for whenever the rest makes a block, which is free |
| `MemSpec.AllocUse` | rt_thread_lwip_enc28j60/src/mem.c:283-340 | exactly that stretch of the heap comes into use |
| `MemSpec.FreeInv` | rt_thread_lwip_enc28j60/src/mem.c:504-558 | rt_free with plug_holes keeps them, and keeps lfree the lowest free block |
| `MemSpec.FreeUse` | rt_thread_lwip_enc28j60/src/mem.c:504-558 | exactly the freed block goes out of use, whatever it is merged with |
| `MemSpec.RoundTrip` | rt_thread_lwip_enc28j60/src/mem.c:246-558 | a free undoes a malloc: the same blocks, used_mem and lowest free block |
| `MemSpec.ShrinkInv` | rt_thread_lwip_enc28j60/src/mem.c:430-454 | the cut of rt_realloc keeps them |
| `MemSpec.ShrinkUse` | rt_thread_lwip_enc28j60/src/mem.c:430-454 | the cut moves exactly the end of the block |
| `MemSpec.AllocLowest` | rt_thread_lwip_enc28j60/src/mem.c:344-351 | rt_malloc keeps lfree the lowest free block |
| `MemSpec.ShrinkLowest` | rt_thread_lwip_enc28j60/src/mem.c:430-454 | rt_realloc keeps lfree the lowest free block if and only if the block behind was free or lfree was below the cut |
| `MemSpec.ShrinkLosesBlock` | rt_thread_lwip_enc28j60/src/mem.c:430-454 | a heap in which that fails, and rt_malloc then refuses 12 bytes with 76 free |
| `MemSpec.Complete` | rt_thread_lwip_enc28j60/src/mem.c:279-283 | a free block large enough is taken by the search if and only if it is not an exact fit ending at heap_end |
| `MemSpec.RefusedAtEnd` | rt_thread_lwip_enc28j60/src/mem.c:279-283 | a new heap of 100 bytes refuses a request of 100 |
| `MemSpec.SearchEnds` | rt_thread_lwip_enc28j60/src/mem.c:264-281 | the search for a request that passes the size test ends if and only if the heap has 12 bytes or more |
| `MemSpec.TinyHeapSpins` | rt_thread_lwip_enc28j60/src/mem.c:272-281 | with less than 12 bytes the search is, after any number of steps, below its wrapped bound and has found nothing |
| `MemSpec.RunInv` | rt_thread_lwip_enc28j60/src/mem.c:246-558 | in every run of malloc, free and realloc the invariant holds, max_mem is the running maximum of used_mem, and without a shrinking realloc lfree is the lowest free block or heap_end |
| `MemObject.Heap.constructor` | rt_thread_lwip_enc28j60/src/mem.c:184-230 | the two headers of a new heap |
| `MemObject.Heap.PlugHoles` | rt_thread_lwip_enc28j60/src/mem.c:136-174 | merging forward and then backward over the offset links, and what becomes of lfree |
| `MemObject.Heap.Search` | rt_thread_lwip_enc28j60/src/mem.c:279-283 | the loop finds the first block that fits, or there is none; it terminates |
| `MemObject.Heap.Malloc` | rt_thread_lwip_enc28j60/src/mem.c:246-374 | first fit on the links; NULL exactly when nothing fits below the bound |
| `MemObject.Heap.Free` | rt_thread_lwip_enc28j60/src/mem.c:504-558 | the links after a release are those of the specification |
| `MemObject.Heap.Realloc` | rt_thread_lwip_enc28j60/src/mem.c:385-466 | same size, cut in place, or move by first fit and release; NULL and foreign pointers change nothing |
| `SlabPages.Unique` | rt_thread_lwip_enc28j60/src/slab.c:234-243 | a sorted, disjoint, maximally merged run list is determined by its set of free pages |
| `SlabPages.AllocFacts` | rt_thread_lwip_enc28j60/src/slab.c:246-280 | an allocation takes n free pages and no others, and keeps the list in that form |
| `SlabPages.ReleaseFacts` | rt_thread_lwip_enc28j60/src/slab.c:282-332 | a release adds exactly its pages and keeps the list in that form |
| `SlabPages.RoundTrip` | rt_thread_lwip_enc28j60/src/slab.c:246-332 | freeing what was just allocated restores the identical list |
| `SlabPages.Commutes` | rt_thread_lwip_enc28j60/src/slab.c:282-332 | two releases in either order leave the identical list |
| `SlabPages.Complete` | rt_thread_lwip_enc28j60/src/slab.c:246-280 | a refusal means that no long enough stretch of pages is free, and what is given out is the lowest one |
| `SlabPages.PageList.PageAlloc` | rt_thread_lwip_enc28j60/src/slab.c:246-280 | the walk with the pointer to the link does what the specification says |
| `SlabPages.PageList.PageFree` | rt_thread_lwip_enc28j60/src/slab.c:282-332 | likewise for the release, with all its merges |
| `SlabSizes.BestClass` | rt_thread_lwip_enc28j60/src/slab.c:411-469 | zoneindex gives the smallest chunk size that holds the request, and its index |
| `SlabSizes.RoomForTwo` | rt_thread_lwip_enc28j60/src/slab.c:640-658 | every new zone has room for two chunks or more, so it is rightly listed as having one left |
| `SlabSizes.LayoutExact` | rt_thread_lwip_enc28j60/src/slab.c:639-655 | chunks start at the first multiple of their size, or of 8, behind the header, and a zone has as many as there is room for |
| `SlabZones.MallocSmallInv` | rt_thread_lwip_enc28j60/src/slab.c:538-671 | the zone paths of rt_malloc keep the chunk, list and page invariants |
| `SlabZones.MallocLargeInv` | rt_thread_lwip_enc28j60/src/slab.c:504-536 | the large path keeps them |
| `SlabZones.FreeChunkInv` | rt_thread_lwip_enc28j60/src/slab.c:856-935 | rt_free of a chunk, through a zone kept back or released, keeps them |
| `SlabZones.FreeLargeInv` | rt_thread_lwip_enc28j60/src/slab.c:826-851 | rt_free of a large block keeps them |
| `SlabZones.TakeOk` | rt_thread_lwip_enc28j60/src/slab.c:554-583 | z_nfree is z_nmax - 1 - z_uindex plus the free list, and the chunk given out was not in use |
| `SlabZones.NoOverlap` | rt_thread_lwip_enc28j60/src/slab.c:488-684 | any two different blocks in use, chunks or large, occupy disjoint bytes |
| `SlabZones.MallocGives` | rt_thread_lwip_enc28j60/src/slab.c:538-671 | exactly the returned block joins those in use, it was not in use before, and it is large enough |
| `SlabZones.FreeTakes` | rt_thread_lwip_enc28j60/src/slab.c:856-935 | exactly the given chunk leaves those in use, even when its zone is retired |
| `SlabZones.LargeGives` | rt_thread_lwip_enc28j60/src/slab.c:504-536 | a large block has the fewest pages that hold it, was not in use, and alone joins those in use |
| `SlabZones.LargeTakes` | rt_thread_lwip_enc28j60/src/slab.c:826-851 | exactly the given large block leaves those in use |
| `SlabZones.ChunkOrder` | rt_thread_lwip_enc28j60/src/slab.c:564-583 | chunks never used are given out first, and then the one freed last |
| `SlabZones.ServedFrom` | rt_thread_lwip_enc28j60/src/slab.c:488-684 | the page a request is served from: the first zone of its class with chunks left, else a zone kept back, else the first free pages that suffice |
| `SlabZones.MallocAligned` | rt_thread_lwip_enc28j60/src/slab.c:162-163 | for every power of two, the block that rt_malloc returns, chunk or large, is aligned to its size if and only if the size is at most a page or the page it is served from is a multiple of it |
| `SlabZones.NotAligned` | rt_thread_lwip_enc28j60/src/slab.c:162-163 | a new slab whose free pages start at an odd page serves 8192 bytes that are not aligned to 8192, as a large block or as a chunk |
| `SlabZones.RunInv` | rt_thread_lwip_enc28j60/src/slab.c:488-935 | in every run every chunk is exactly one of in use, on the free list or never used; zone_array lists exactly the zones with chunks left; no page is given out twice |
| `SlabZones.RunAccounted` | rt_thread_lwip_enc28j60/src/slab.c:488-935 | in every state of every run exactly the pages that were free at first are free or in use |
| `SlabZones.RunSpare` | rt_thread_lwip_enc28j60/src/slab.c:880-932 | in every state at most one zone of a class has no chunk in use, and at most two are kept back |
| `SlabZones.RunNoOverlap` | rt_thread_lwip_enc28j60/src/slab.c:488-935 | no two blocks in use overlap in any state of any run |
| `SlabObject.SizeOfZones` | rt_thread_lwip_enc28j60/src/slab.c:384-387 | zone_size is the least of its values not below half a thousandth of the heap |
| `SlabObject.Allocator.constructor` | rt_thread_lwip_enc28j60/src/slab.c:354-403 | after initialization all pages but those of the usage table are free |
| `SlabObject.Allocator.Malloc` | rt_thread_lwip_enc28j60/src/slab.c:488-684 | the in-place allocator, with its page usage table, follows the specification |
| `SlabObject.Allocator.FreeBlock` | rt_thread_lwip_enc28j60/src/slab.c:793-935 | a block is found back through its page, and released as specified; NULL changes nothing |
| `IpcList.Suspend` | rt_thread_lwip_enc28j60/src/ipc.c:92-135 | the search of rt_ipc_list_suspend inserts at the specified place |
| `IpcList.EnqueueFacts` | rt_thread_lwip_enc28j60/src/ipc.c:92-135 | priority lists stay sorted, equal priorities in order of arrival, and everyone else keeps their order |
| `MailboxSpec.SendInv` | rt_thread_lwip_enc28j60/src/ipc.c:1404-1522 | one pass of a sender keeps the invariant, whoever was woken before |
| `MailboxSpec.RecvInv` | rt_thread_lwip_enc28j60/src/ipc.c:1551-1674 | one pass of a receiver keeps it |
| `MailboxSpec.ResetInv` | rt_thread_lwip_enc28j60/src/ipc.c:1686-1715 | a reset keeps it |
| `MailboxSpec.RunInv` | rt_thread_lwip_enc28j60/src/ipc.c:1404-1715 | no lost wakeup under all interleavings: a receiver left waiting implies entry is at most the receivers woken and not run, a sender left waiting implies the same of the free slots |
| `MailboxSpec.Quiescent` | rt_thread_lwip_enc28j60/src/ipc.c:1404-1715 | when every woken thread has run, receivers wait only on an empty and senders only on a full mailbox |
| `MailboxSpec.Words` | rt_thread_lwip_enc28j60/src/ipc.c:1404-1715 | what receivers return is, in every state of every run, the first part of the words that callers passed, in the order in which their calls found room, and the mailbox holds the rest; a blocked sender's word is the one of its call |
| `MailboxSpec.Phases` | rt_thread_lwip_enc28j60/src/ipc.c:1404-1715 | every step moves exactly the threads it should: the caller returns or waits, the first of the other list is woken, a timeout fails its thread, a reset fails all that wait |
| `MailboxSpec.Joins` | rt_thread_lwip_enc28j60/src/ipc.c:1449-1453 | a thread that starts to wait joins its list in order, and the other list is left alone |
| `MailboxObject.Mailbox.Put` | rt_thread_lwip_enc28j60/src/ipc.c:1496-1503 | storing at the wrapping in_offset appends to the queue the array stands for |
| `MailboxObject.Mailbox.Get` | rt_thread_lwip_enc28j60/src/ipc.c:1643-1651 | fetching at the wrapping out_offset takes the first word of it |
| `MailboxObject.Mailbox.Send` | rt_thread_lwip_enc28j60/src/ipc.c:1404-1522 | a call or a retry in place follows the specification, with its result and the receiver it resumes |
| `MailboxObject.Mailbox.Recv` | rt_thread_lwip_enc28j60/src/ipc.c:1551-1674 | likewise for receiving, with the sender it resumes |
| `MailboxObject.Mailbox.Timeout` | rt_thread_lwip_enc28j60/src/thread.c:633-654 | a timeout takes the thread off the list it waits in |
| `MailboxObject.Mailbox.Reset` | rt_thread_lwip_enc28j60/src/ipc.c:1686-1715 | every waiter is resumed once, and the mailbox is empty |
| `IpcList.ResumeAll` | rt_thread_lwip_enc28j60/src/ipc.c:169-195 | the loop resumes the threads of the list in order, each once |
| `MessageQueueSpec.RunInv` | rt_thread_lwip_enc28j60/src/ipc.c:1924-2278 | under all interleavings of the split regions every node is in exactly one of free list, queue, and one thread's hands; the queue is the deque of messages; no receiver waits while a message is there for it |
| `MessageQueueSpec.InDueOrder` | rt_thread_lwip_enc28j60/src/ipc.c:1924-2278 | in every state of every run the messages taken are the first of those due, by the buffers of the calls: a message sent is due last, an urgent one next, and the queue holds the rest |
| `MessageQueueSpec.FirstInFirstOut` | rt_thread_lwip_enc28j60/src/ipc.c:1959-1980 | without urgent messages and resets, the messages taken are the first of those sent, in the order in which the sends were completed |
| `MessageQueueSpec.UrgentNext` | rt_thread_lwip_enc28j60/src/ipc.c:2045-2062 | an urgent message is the next one taken, unless another urgent one or a reset comes before |
| `MessageQueueSpec.Phases` | rt_thread_lwip_enc28j60/src/ipc.c:1924-2278 | every step moves exactly the threads it should through filling, linking, waiting, reading and failing |
| `MessageQueueSpec.Joins` | rt_thread_lwip_enc28j60/src/ipc.c:2141-2150 | a receiver that starts to wait joins the list in order |
| `MessageQueueSpec.Delivered` | rt_thread_lwip_enc28j60/src/ipc.c:2192-2216 | what a receiver copies is as long as asked for, up to the message size, and starts with the message that was first when it took its node |
| `MessageQueueSpec.ResetInv` | rt_thread_lwip_enc28j60/src/ipc.c:2234-2278 | a reset frees every queued message and leaves the copying threads alone |
| `MessageQueueObject.MessageQueue.constructor` | rt_thread_lwip_enc28j60/src/ipc.c:1738-1785 | the loop of rt_mq_init threads every node on the free list |
| `MessageQueueObject.MessageQueue.Take` | rt_thread_lwip_enc28j60/src/ipc.c:1924-1955 | the first region pops the free list, or fails exactly when it is empty or the message too long |
| `MessageQueueObject.MessageQueue.Fill` | rt_thread_lwip_enc28j60/src/ipc.c:1958-1961 | the copy with interrupts on touches only the node in hand |
| `MessageQueueObject.MessageQueue.LinkMessage` | rt_thread_lwip_enc28j60/src/ipc.c:1963-1998 | the second region appends, or for rt_mq_urgent (lines 2052-2080) prepends, on head, tail and next, and wakes the first receiver |
| `MessageQueueObject.MessageQueue.RecvPass` | rt_thread_lwip_enc28j60/src/ipc.c:2095-2205 | one pass of a receiver on the links |
| `MessageQueueObject.MessageQueue.Copy` | rt_thread_lwip_enc28j60/src/ipc.c:2207-2208 | the bytes copied out |
| `MessageQueueObject.MessageQueue.Release` | rt_thread_lwip_enc28j60/src/ipc.c:2210-2216 | the node goes back to the free list |
| `MessageQueueObject.MessageQueue.ResetAll` | rt_thread_lwip_enc28j60/src/ipc.c:2234-2278 | the reset resumes every waiting receiver in order and frees every queued node |
| `MutexSpec.RunInv` | rt_thread_lwip_enc28j60/src/ipc.c:642-859 | owner, value and the 8-bit hold agree, waiters are sorted, and the priority claims hold in every reachable state |
| `MutexSpec.Exclusion` | rt_thread_lwip_enc28j60/src/ipc.c:642-859 | at most one thread holds the mutex, its priority is at least as urgent as every waiter's, and everyone else runs at their own priority |
| `MutexSpec.TakeSucceeds` | rt_thread_lwip_enc28j60/src/ipc.c:667-687 | a take of a free mutex, or of one's own, makes the thread the owner and counts; nothing else changes |
| `MutexSpec.TakeWaits` | rt_thread_lwip_enc28j60/src/ipc.c:689-718 | a take of another thread's mutex is refused, or joins the waiters in order and makes the owner as urgent as the thread and no more |
| `MutexSpec.TimeoutExact` | rt_thread_lwip_enc28j60/src/thread.c:633-654 | a timeout takes its waiter out and changes nothing else |
| `MutexSpec.LastRelease` | rt_thread_lwip_enc28j60/src/ipc.c:806-849 | the last release restores the owner's priority and hands the mutex to the first, a most urgent waiter, or to nobody; the others wait on |
| `MutexSpec.InnerRelease` | rt_thread_lwip_enc28j60/src/ipc.c:806-809 | a release before the last changes nothing but the count |
| `MutexSpec.ForeignRelease` | rt_thread_lwip_enc28j60/src/ipc.c:794-803 | a release by another thread than the owner changes nothing |
| `MutexSpec.ReleaseExact` | rt_thread_lwip_enc28j60/src/ipc.c:806-809 | a release keeps the invariant if and only if the 8-bit counter has not wrapped round to one inside nested takes |
| `MutexSpec.WrapExample` | rt_thread_lwip_enc28j60/src/ipc.c:667-671 | after 257 nested takes, or any 256k + 1, one release frees the mutex with the other takes still open |
| `MutexObject.Mutex.Take` | rt_thread_lwip_enc28j60/src/ipc.c:642-761 | the take in place, with the priority change of the owner |
| `MutexObject.Mutex.Release` | rt_thread_lwip_enc28j60/src/ipc.c:772-859 | the release in place; only the owner succeeds |
| `MutexObject.Mutex.Timeout` | rt_thread_lwip_enc28j60/src/thread.c:633-654 | a timeout takes the waiter off the list and nothing else |
| `EventSpec.RetryFacts` | rt_thread_lwip_enc28j60/src/ipc.c:1020-1067 | after a send no thread left waiting is satisfied, and those resumed got bits they asked for, all if they asked for all |
| `EventSpec.ClearedOnce` | rt_thread_lwip_enc28j60/src/ipc.c:1056-1059 | a bit cleared for one waiter is received by no later waiter of the same send |
| `EventSpec.BitLaw` | rt_thread_lwip_enc28j60/src/ipc.c:1014-1059 | the operations on event words are union, intersection and difference of their bits |
| `EventSpec.SatisfiedIs` | rt_thread_lwip_enc28j60/src/ipc.c:1029-1048 | a request for all is satisfied when the word has each of its bits, one for any when it has one of them |
| `EventSpec.RetryInTurn` | rt_thread_lwip_enc28j60/src/ipc.c:1020-1067 | waiters get their turn in queue order, on what the ones before have left |
| `EventSpec.RetryBits` | rt_thread_lwip_enc28j60/src/ipc.c:1056-1059 | a bit is left after the walk exactly when it was there and no resumed thread cleared it |
| `EventSpec.SendExact` | rt_thread_lwip_enc28j60/src/ipc.c:998-1077 | a send adds its bits and gives each resumed thread what it got; a send of no bits changes nothing |
| `EventSpec.RecvExact` | rt_thread_lwip_enc28j60/src/ipc.c:1093-1199 | a satisfied receive takes what it clears; another joins the waiters in order or changes nothing |
| `EventSpec.EndExact` | rt_thread_lwip_enc28j60/src/ipc.c:1211-1236 | a reset clears every bit and the list, a timeout takes exactly its waiter out |
| `EventSpec.RetryThreads` | rt_thread_lwip_enc28j60/src/ipc.c:1020-1067 | the threads left are a subsequence of the waiters, and every waiter is either left or resumed |
| `EventSpec.RunInv` | rt_thread_lwip_enc28j60/src/ipc.c:998-1236 | in every reachable state no waiting thread is satisfied by the event word |
| `EventObject.Walk` | rt_thread_lwip_enc28j60/src/ipc.c:1020-1067 | the walk that resumes and clears on the way equals letting each waiter retry a non-blocking receive in turn |
| `EventObject.Match` | rt_thread_lwip_enc28j60/src/ipc.c:1029-1048 | the test for one waiter, and that clearing the narrowed set equals clearing the set asked for |
| `EventObject.Event.Send` | rt_thread_lwip_enc28j60/src/ipc.c:998-1077 | the send in place: same received sets, same clears |
| `EventObject.Event.Recv` | rt_thread_lwip_enc28j60/src/ipc.c:1093-1199 | the receive in place until it returns or waits |
| `EventObject.Event.Timeout` | rt_thread_lwip_enc28j60/src/thread.c:633-654 | a timeout takes the waiter off the list |
| `EventObject.Event.Reset` | rt_thread_lwip_enc28j60/src/ipc.c:1211-1236 | a reset resumes every waiter in order and clears the event word |
| `SemaphoreSpec.RunInv` | rt_thread_lwip_enc28j60/src/ipc.c:328-510 | between resets initial value plus releases is value plus grants, and nobody waits while the value is positive |
| `SemaphoreSpec.Conservation` | rt_thread_lwip_enc28j60/src/ipc.c:328-510 | counted by the calls: the value is what init or the last reset set, plus the releases since, less the takes granted since |
| `SemaphoreSpec.Joins` | rt_thread_lwip_enc28j60/src/ipc.c:366-381 | a take that cannot be granted joins the waiters in order, or changes nothing |
| `SemaphoreSpec.EndsOnce` | rt_thread_lwip_enc28j60/src/thread.c:592-654 | a waiting thread stops waiting exactly when a release reaches it, it times out, or the semaphore is reset, with that outcome |
| `SemaphoreSpec.OneEnd` | rt_thread_lwip_enc28j60/src/ipc.c:328-510 | over whole runs: from a take that blocks to its return exactly one step ends the wait, and its outcome stays |
| `SemaphoreSpec.ReturnsOnce` | rt_thread_lwip_enc28j60/src/ipc.c:386-404 | and the take returns that outcome |
| `SemaphoreSpec.ReleaseExact` | rt_thread_lwip_enc28j60/src/ipc.c:452-459 | a release keeps the count if and only if the 16-bit value does not overflow |
| `SemaphoreSpec.Overflow` | rt_thread_lwip_enc28j60/src/ipc.c:452-459 | a release at 65535 leaves 0 |
| `SemaphoreObject.Semaphore.Take` | rt_thread_lwip_enc28j60/src/ipc.c:328-411 | the take in place |
| `SemaphoreObject.Semaphore.Release` | rt_thread_lwip_enc28j60/src/ipc.c:435-469 | the release in place, with the thread it resumes |
| `SemaphoreObject.Semaphore.Timeout` | rt_thread_lwip_enc28j60/src/thread.c:633-654 | a timeout takes the waiter off the list |
| `SemaphoreObject.Semaphore.Reset` | rt_thread_lwip_enc28j60/src/ipc.c:481-510 | a reset resumes every waiter in order and sets the value |
| `TimerSpec.WrapLater` | rt_thread_lwip_enc28j60/src/timer.c:341-353 | within half the tick range the wrapped comparison of rt_timer_start is the order of the deadlines |
| `TimerSpec.WrapDue` | rt_thread_lwip_enc28j60/src/timer.c:496-500 | and that of rt_timer_check tells exactly the due timers |
| `TimerSpec.InsertAt` | rt_thread_lwip_enc28j60/src/timer.c:341-353 | a timer is inserted behind exactly those that expire no later, so equal timeouts keep their order |
| `TimerSpec.RowInsert` | rt_thread_lwip_enc28j60/src/timer.c:329-378 | inserting into each row a timer reaches is inserting into the one sorted list, for any number of rows |
| `TimerSpec.RowRemove` | rt_thread_lwip_enc28j60/src/timer.c:121-129 | removing from every row is removing from the one list |
| `TimerSpec.RowOfRow` | rt_thread_lwip_enc28j60/src/timer.c:329-357 | every row is a subsequence of the row below |
| `TimerSpec.HeightIs` | rt_thread_lwip_enc28j60/src/timer.c:363-378 | a timer reaches one more row for every two zero bits at the end of its number |
| `TimerSpec.FiredDue` | rt_thread_lwip_enc28j60/src/timer.c:478-536 | a check fires exactly the due timers, in order |
| `TimerSpec.CheckLeaves` | rt_thread_lwip_enc28j60/src/timer.c:478-536 | it leaves exactly the timers that are not due and the periodic ones that were, each with the deadline now + delay |
| `TimerSpec.RunInv` | rt_thread_lwip_enc28j60/src/timer.c:290-536 | the list stays sorted and within the half range in which the comparisons are right, across wrap-around |
| `TimerSpec.ExactExpiry` | rt_thread_lwip_enc28j60/src/clock.c:83-105 | over every run: a periodic timer started at tick s with delay d fires at the ticks s + k * d, k = 1, 2, ..., and at no other until it is stopped; another one fires at s + d, or s + 1 for a zero delay, and never again until it is started again |
| `TimerSpec.StopExact` | rt_thread_lwip_enc28j60/src/timer.c:409-432 | rt_timer_stop takes exactly its timer off the list, the others staying in order, and leaves an inactive one alone |
| `TimerSpec.StoppedSilent` | rt_thread_lwip_enc28j60/src/timer.c:409-432 | over every run: a timer that is stopped does not fire until it is started again |
| `TimerSpec.UnstartedSilent` | rt_thread_lwip_enc28j60/src/timer.c:290-536 | nor does one that was never started |
| `TimerSpec.NeverEnds` | rt_thread_lwip_enc28j60/src/timer.c:478-536 | with a due periodic timer of zero delay every round of the loop finds a due timer |
| `TimerSpec.EndsExactly` | rt_thread_lwip_enc28j60/src/timer.c:478-536 | rt_timer_check ends if and only if no due timer is periodic with zero delay |
| `TimerSpec.ZeroDelay` | rt_thread_lwip_enc28j60/src/timer.c:290-399 | starting a periodic timer with zero delay, which is accepted, makes the next tick's check one that does not end |
| `TimerObject.TimerList.FindRows` | rt_thread_lwip_enc28j60/src/timer.c:329-357 | the row-by-row search finds in every row the place of stable insertion |
| `TimerObject.TimerList.InsertRows` | rt_thread_lwip_enc28j60/src/timer.c:363-378 | the height drawn from the counter, and the insertion into as many rows |
| `TimerObject.TimerList.Start` | rt_thread_lwip_enc28j60/src/timer.c:290-399 | rt_timer_start on the rows follows the one sorted list |
| `TimerObject.TimerList.Stop` | rt_thread_lwip_enc28j60/src/timer.c:409-432 | rt_timer_stop takes the timer out of every row and clears its flag, refused for an inactive timer |
| `TimerObject.TimerList.Check` | rt_thread_lwip_enc28j60/src/timer.c:478-536 | the loop of rt_timer_check terminates and fires what the specification says |
| `TimerObject.TimerList.Increase` | rt_thread_lwip_enc28j60/src/clock.c:83-105 | one tick: the 32-bit tick wraps, and the check runs |
| `Bitmap.FfsIs` | rt_thread_lwip_enc28j60/src/kservice.c:1205-1249 | __rt_ffs with its table is the lowest set bit of every 32-bit word, plus one, and zero for zero |
| `Bitmap.LowestIs` | rt_thread_lwip_enc28j60/src/kservice.c:1235-1249 | that bit is set and none below it is |
| `ReadyMap.SetShows` | rt_thread_lwip_enc28j60/src/scheduler.c:267-353 | setting and clearing bits keeps the map, of one or two levels, marking exactly the lists that are not empty |
| `ReadyMap.FindIs` | rt_thread_lwip_enc28j60/src/scheduler.c:191-212 | the search in either form finds the numerically smallest priority with a ready thread |
| `SchedulerSpec.RunInv` | rt_thread_lwip_enc28j60/src/scheduler.c:191-353 | in every run from rt_system_scheduler_init each ready list holds exactly the threads that are ready at its priority, each once |
| `SchedulerSpec.RunsMostUrgent` | rt_thread_lwip_enc28j60/src/scheduler.c:191-230 | an unlocked rt_schedule switches to the first thread of the most urgent priority: no ready thread is more urgent |
| `SchedulerSpec.YieldRotates` | rt_thread_lwip_enc28j60/src/thread.c:377-410 | a yield puts a ready current thread, wherever it is in its list, behind the others of its priority, in their order; another one does not move |
| `SchedulerSpec.CreateExact` | rt_thread_lwip_enc28j60/src/thread.c:84-136 | a new thread is not ready and has the priority it was given |
| `SchedulerSpec.StartupExact` | rt_thread_lwip_enc28j60/src/thread.c:203-234 | a thread starts at its own priority, behind those that are ready at it |
| `SchedulerSpec.SuspendExact` | rt_thread_lwip_enc28j60/src/thread.c:554-582 | a suspend takes a ready thread off its list and leaves any other alone |
| `SchedulerSpec.ResumeExact` | rt_thread_lwip_enc28j60/src/thread.c:592-624 | a resume puts a suspended thread behind those that are ready at its priority |
| `SchedulerSpec.PriorityExact` | rt_thread_lwip_enc28j60/src/thread.c:485-526 | a change of priority gives the thread just that priority, and puts it behind those ready there if it is ready |
| `SchedulerSpec.ScheduleExact` | rt_thread_lwip_enc28j60/src/scheduler.c:191-258 | rt_schedule moves no thread, and does nothing while the scheduler is locked |
| `SchedulerSpec.Balanced` | rt_thread_lwip_enc28j60/src/scheduler.c:358-401 | as many exits as entries unlock the scheduler, and no fewer, if and only if there were at most 32768 entries, where the comment in the source promises 65535 |
| `SchedulerSpec.ExitsNeeded` | rt_thread_lwip_enc28j60/src/scheduler.c:358-401 | for every number of entries, exactly how many exits unlock the scheduler: k modulo 65536 if that is at most 32768, and else one |
| `SchedulerObject.Scheduler.constructor` | rt_thread_lwip_enc28j60/src/scheduler.c:120-147 | empty lists and a bit map without bits, which shows them |
| `SchedulerObject.Scheduler.CreateThread` | rt_thread_lwip_enc28j60/src/thread.c:84-136 | a new thread is known and in no list |
| `SchedulerObject.Scheduler.Link` | rt_thread_lwip_enc28j60/src/scheduler.c:267-303 | the list and bit part of rt_schedule_insert_thread |
| `SchedulerObject.Scheduler.Unlink` | rt_thread_lwip_enc28j60/src/scheduler.c:313-353 | that of rt_schedule_remove_thread |
| `SchedulerObject.Scheduler.Start` | rt_thread_lwip_enc28j60/src/thread.c:203-234 | rt_thread_startup sets priority and masks and makes the thread ready |
| `SchedulerObject.Scheduler.Suspend` | rt_thread_lwip_enc28j60/src/thread.c:554-582 | rt_thread_suspend, refused unless ready |
| `SchedulerObject.Scheduler.ResumeThread` | rt_thread_lwip_enc28j60/src/thread.c:592-624 | rt_thread_resume, refused unless suspended |
| `SchedulerObject.Scheduler.SetThreadPriority` | rt_thread_lwip_enc28j60/src/thread.c:485-526 | the priority change moves a ready thread to its new list and recomputes the masks |
| `SchedulerObject.Scheduler.YieldThread` | rt_thread_lwip_enc28j60/src/thread.c:377-410 | rt_thread_yield |
| `SchedulerObject.Scheduler.Schedule` | rt_thread_lwip_enc28j60/src/scheduler.c:191-258 | rt_schedule through the bit map does what the specification says of the lists |
| `SchedulerObject.Scheduler.EnterCritical` | rt_thread_lwip_enc28j60/src/scheduler.c:358-373 | rt_enter_critical on the 16-bit counter |
| `SchedulerObject.Scheduler.ExitCritical` | rt_thread_lwip_enc28j60/src/scheduler.c:378-401 | rt_exit_critical, with the rt_schedule of the last level |
| `RwLockSpec.RunInv` | rt_thread_lwip_enc28j60/components/pthreads/pthread_rwlock.c:139-353 | in every run the counters agree with who holds and who waits, and while the lock is free and writers wait one of them is being woken |
| `RwLockSpec.Exclusion` | rt_thread_lwip_enc28j60/components/pthreads/pthread_rwlock.c:139-353 | rw_refcount is -1 exactly when one writer and no reader holds the lock, and k exactly when k readers and no writer do |
| `RwLockSpec.WritersFirst` | rt_thread_lwip_enc28j60/components/pthreads/pthread_rwlock.c:139-353 | no reader acquires while a writer is counted as waiting, and no writer while anyone holds the lock |
| `RwLockSpec.ReadExact` | rt_thread_lwip_enc28j60/components/pthreads/pthread_rwlock.c:139-193 | a thread that asks to read has one lock more if no writer holds or waits, and else waits or is refused; nobody else changes |
| `RwLockSpec.WriteExact` | rt_thread_lwip_enc28j60/components/pthreads/pthread_rwlock.c:265-352 | a thread that asks to write has the lock if nobody held it, and else waits or is refused |
| `RwLockSpec.UnlockExact` | rt_thread_lwip_enc28j60/components/pthreads/pthread_rwlock.c:288-319 | a holder that unlocks has one lock less, and nobody else changes |
| `RwLockSpec.WakeExact` | rt_thread_lwip_enc28j60/components/pthreads/pthread_cond.c:133-180 | a signal wakes the first sleeper or is kept, a broadcast wakes every sleeper |
| `RwLockSpec.SleepExact` | rt_thread_lwip_enc28j60/components/pthreads/pthread_cond.c:183-207 | a wait takes a kept signal or joins the list; a timeout leaves it with an error |
| `RwLockSpec.StuckExactly` | rt_thread_lwip_enc28j60/components/pthreads/pthread_rwlock.c:233-262 | a step leaves readers asleep on a free lock without waiting writers, and nobody to wake them, if and only if they were so before or the last waiting writer returns from a timeout to the free lock while no reader is being woken |
| `RwLockSpec.NeverStuck` | rt_thread_lwip_enc28j60/components/pthreads/pthread_rwlock.c:288-319 | so in every run without such a step, waiting readers of a free lock are being woken |
| `RwLockSpec.StuckStays` | rt_thread_lwip_enc28j60/components/pthreads/pthread_rwlock.c:288-319 | and once stuck only a timeout of theirs or another thread that takes the lock changes that |
| `RwLockSpec.StuckRun` | rt_thread_lwip_enc28j60/components/pthreads/pthread_rwlock.c:225-319 | a run of eight steps that ends so |
| `RwLockObject.RwLock.ReadLock` | rt_thread_lwip_enc28j60/components/pthreads/pthread_rwlock.c:139-170 | rdlock and timedrdlock between two points without rw_mutex |
| `RwLockObject.RwLock.WriteLock` | rt_thread_lwip_enc28j60/components/pthreads/pthread_rwlock.c:322-352 | wrlock and timedwrlock, likewise |
| `RwLockObject.RwLock.TryReadLock` | rt_thread_lwip_enc28j60/components/pthreads/pthread_rwlock.c:173-193 | tryrdlock: succeeds exactly when no writer holds the lock and none is counted as waiting |
| `RwLockObject.RwLock.TryWriteLock` | rt_thread_lwip_enc28j60/components/pthreads/pthread_rwlock.c:265-285 | trywrlock: succeeds exactly when nobody holds the lock |
| `RwLockObject.RwLock.Unlock` | rt_thread_lwip_enc28j60/components/pthreads/pthread_rwlock.c:288-319 | unlock by a holder: one writer is signalled when it can go, else all readers |
| `RwLockObject.RwLock.SleepOn` | rt_thread_lwip_enc28j60/components/pthreads/pthread_cond.c:183-207 | the semaphore take of a condition wait |
| `RwLockObject.RwLock.Timeout` | rt_thread_lwip_enc28j60/src/thread.c:633-654 | a timeout ends a sleep with an error |
| `RwLockObject.Broadcast` | rt_thread_lwip_enc28j60/components/pthreads/pthread_cond.c:133-165 | the loop wakes every sleeper and leaves a value of one, or a positive value as it was |
| `Division.Udiv` | rt_thread_lwip_enc28j60/libcpu/ia32/__udivsi3.c:20-49 | for all 32-bit operands the shift-subtract loops return the quotient, and zero for a zero denominator |
| `Division.Umod` | rt_thread_lwip_enc28j60/libcpu/ia32/__umodsi3.c:20-49 | and the remainder |
| `Division.Subtract` | rt_thread_lwip_enc28j60/libcpu/ia32/__udivsi3.c:37-46 | num = quot * den + rest with rest < den, by the invariant rest < 2 * shifted denominator |

## Left out

- The finsh lexer and parser: the model starts from syntax trees.
- FinshCorrect.ExprCorrect: covers dword constants, int and long variables, dereference, address-of, assignment, all binary operators, complement, increment, decrement and calls; byte and word widths, `void*` variables and system variables under increment are not in the fragment; for the last, `FinshCorrect.SystemBump`.
- FinshCorrect.BumpCorrect: the dword forms only; memory has dword cells.
- FinshVm.Machine.Dispatch: the byte and word handlers are one fault, because memory has dword cells.
- FinshVm.Machine.Run: likewise, a text with byte or word operations stops as a fault.
- FinshCorrect.EvaluateLine: requires that the code fits the text segment, which the compiler does not check.
- finsh_heap.c, shell.c, cmd.c and the msh shell.
- Requests near 2^32 bytes, where rounding a size up wraps round: sizes are unbounded integers in all three allocators.
- The contents of blocks in mem.c and slab.c: that a move copies them is shown for memheap only. The magic words in headers are not modelled.
- MemObject.Heap.Malloc: excludes the requests on heaps of less than 12 bytes whose search does not end; `MemSpec.SearchEnds` states that case.
- MemObject.Heap.Realloc: that a moved block keeps its bytes.
- MemheapObject.Memheap.Memcpy: the byte loop only, where the source also copies words.
- SlabPages.PageList.PageAlloc: positions in a sequence stand for the pointer to the link.
- SlabPages.PageList.PageFree: likewise.
- SlabObject.Allocator.FreeBlock: address 0 is NULL and no block starts there.
- used_mem and max_mem of slab.c, rt_realloc and rt_calloc of slab.c, and the double release of heap_sem when pages run out: allocator calls are sequential here.
- SlabObject.Allocator.Malloc: the set of chunks in use is kept in the zone record, where the source has no such field; nothing reads it but to keep it.
- mempool.c: a woken thread takes a block without checking again, so it has no invariant of the mailbox's kind.
- Nested mutexes, mutexes with first-come waiters, and priority changes by others than the mutex: a release restores priority without regard to them.
- Detaching and deleting IPC objects, and hooks.
- The ticks left of a timeout that a retry computes: a retry may wait again or not.
- rt_timer_control, soft timers, rt_tick_set, and timer functions that start or stop timers.
- TimerObject.TimerList.Check: timer functions leave the timer lists alone, and periodic timers have a delay; without one, `TimerSpec.EndsExactly`.
- TimerObject.TimerList.Start: excludes a periodic timer with zero delay, which the source accepts and after which the next check does not end; `TimerSpec.ZeroDelay`.
- TimerObject.TimerList.Increase: without the time slice of the current thread.
- Rows of the skip list and lists of waiters are sequences in the object layer; that the ring operations implement insertion and removal in a sequence is shown in Ring and used link by link in Memheap.
- Context switching, stack checks, the time slice in rt_tick_increase, and threads that end.
- SchedulerSpec.RunsMostUrgent: assumes that some thread is ready whenever rt_schedule runs, as the idle thread is.
- RwLockSpec.RunInv: the semaphores of the conditions do not overflow. Lazy initialization and destruction of rwlocks are left out.
- Drivers, board support, start-up code, module.c, libdl, the object container and the POSIX wrappers.
