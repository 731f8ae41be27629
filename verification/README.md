# Zythos kernel: a Dafny model

A model of the parts of the Zythos hobby kernel that keep state under invariants, with proofs about them:

- **The heap** (`Memory`, `BlockList`, `HeapRuns`, `HeapBytes`, `KernelHeap`). `g_heap` is an array of bytes, a
  block header is 12 bytes inside it, and `kmalloc`, `kfree` and `krealloc` make the same stores in the same order as
  the C code. A ghost list of blocks stands beside the bytes: every call is proved to turn the list into the one given
  by a list function, and the run theorems are about those functions. Both merge orders of `kfree` are there.
- **The scheduler** (`SchedulerSpec`, `Scheduler`). Task structs are objects whose fields are updated in place. Each
  call is proved against a relation that does not walk the list, and the run theorems are about that relation.
- **The context switch** (`ContextSwitch`). Pushes and pops on a byte-addressed machine, the hand-built first frame of
  a new task, and runs of many tasks.
- **The keyboard ring buffer** (`KbdBuffer`). Whole pushes interrupt a pop between its single memory accesses.
- **The ELF32 loader** (`ElfLoader`). It works in a flat address space of 2^32 bytes that also holds the file buffer;
  every header field is read from memory where the code reads it. Its outcome is stated for every file, and as a memory
  image for files whose sums do not wrap and whose segments keep apart.
- **The shell tokenizer** (`ParseArgs`) and **the Set 1 scancode decoder** (`Scancodes`).

Findings, where the code and its documentation differ or a property needs a condition:

- **Growth in place can destroy the block list.** `krealloc` writes the header of the split-off remainder before it
  reads `next->next`. When the rounded size exceeds the old size by 8, or by 4 while a block follows the absorbed one at
  an address that is not a multiple of 256, that header changes the link. `HeapBytes.GrowthBreaksChain` proves that the
  bytes hold a list afterwards if and only if neither is the case; `HeapRuns.ClobberingIsReachable` reaches it with two calls,
  `kmalloc(8)` and `krealloc(p, 16)`. The code is modelled as it stands; runs of calls exclude exactly these growths.
- **Rounding wraps.** For the seven largest 32-bit sizes the rounded size is 0. The list stays sound, but `kmalloc` grants
  such a size with an empty block (`HeapRuns.HugeRequestGranted`); a block is as long as asked exactly for sizes up to
  2^32 - 8 (`BlockList.AlignSizeCovers`, `HeapRuns.MallocAdds`).
- **`krealloc` to such a size loses the contents.** A block of 28 bytes or more is cut down to no bytes, and a header is
  written over its payload; `HeapRuns.PrefixLost` reaches it with `kmalloc(32)` and `krealloc(p, 0xFFFFFFFF)`. The bytes to
  be kept still fit exactly when the size is at most 2^32 - 8 or the block is shorter than 28 bytes
  (`HeapRuns.PrefixFits`).
- **No round-robin.** The comment above `pick_next` promises round-robin among equal priorities. When all tasks are
  ready and only yield, at whatever priorities, the processor alternates between the first two by priority and then by
  age (`SchedulerSpec.OnlyTwoRun`), and all others starve (`SchedulerSpec.OthersStarve`). So the tasks of the highest
  priority take turns exactly when there are at most two of them (`SchedulerSpec.RoundRobinExactly`); with three, the
  boot task among them, it is never current again (`SchedulerSpec.BootTaskStarves`).
- **`sys_sleep` may return at once**, and `sys_task_exit` may reach the loop marked as unreachable: both happen exactly
  when no other task is ready or due (`SchedulerSpec.KeepsProcessor`), for instance when the boot task is alone
  (`SchedulerSpec.BootTaskAlone`).
- **SHIFT and CTRL are not "held".** After left shift down, right shift down, left shift up, right shift is held and SHIFT
  is clear (`Scancodes.HeldButClear`). The bit tells whether one of its two keys is held exactly unless one of them was
  released while the other was held and neither was touched since (`Scancodes.HeldExactly`).
- **`keyboard_init` does not forget a pending prefix.** Afterwards everything is decoded as from reset exactly when none
  was pending (`Scancodes.InitForgets`); 0xE0, `keyboard_init`, 0x1C is the keypad's Enter (`Scancodes.PrefixSurvives`).
- **The loader's bounds checks** count the table in entries of `e_phentsize` bytes and read it in entries of 32, and their
  sums wrap. `ElfLoader.ReadsStayInside` and `ElfLoader.TableEnds` say exactly when everything read lies in the buffer;
  `ElfLoader.TableMayEscape` is a file that passes the first check with its table outside, `ElfLoader.SegmentMayEscape`
  one that is loaded although its segment's contents are not in it.

Modelling choices: machine words are integers with the wrap-around written out (`% TWO32`); the target is 32-bit
(`Makefile:136`), so a header has 12 bytes; the address of `g_heap` is a parameter; whether `kmalloc` succeeds inside
`sys_create_task` is a parameter; `keymap_translate_keycode` is an arbitrary function. In runs of the heap the client
passes live pointers only and `krealloc(0, n)` is `kmalloc(n)`. In runs of the context switch a computing task writes
neither the stack nor the saved `esp` of another task. In runs of the scheduler a dead task makes no calls. The runs of
the ring buffer treat `kbd_buffer_push` as atomic, since it is called from the interrupt handler, and allow either order
of the two reads in the comparison `tail == head`.

## Model

| member | source | states |
|---|---|---|
| BlockList.AlignSizeCovers | mm/blocks.c:4-11 | the rounded size is the least multiple of 8 that covers the size, if and only if the size is at most 2^32 - 8; above that it is 0 |
| BlockList.FirstFit | mm/malloc.c:47-68 | the index found fits, and no earlier block does |
| BlockList.PayloadsDisjoint | mm/mm_private.h:8-12 | in a list that tiles the heap, two blocks (header and payload) never overlap and lie inside the heap |
| BlockList.SpliceWellFormed | mm/malloc.c:51-62 | replacing a stretch of blocks by others that tile the same bytes keeps the whole heap tiled |
| BlockList.CarveGood | mm/malloc.c:48-65 | an allocation keeps the heap tiled and leaves no two free neighbours |
| BlockList.FreeGood | mm/malloc.c:82-95 | so does a free |
| BlockList.ResizeGood | mm/malloc.c:136-182 | so does shrinking or growing in place |
| BlockList.FuseThenNext | mm/malloc.c:86-89 | merging a merged block with its successor equals merging the whole stretch at once |
| BlockList.FuseThenPrevious | mm/malloc.c:91-95 | the same for the predecessor, so both merge orders agree |
| HeapRuns.CarveUsed | mm/malloc.c:48-64 | an allocation adds exactly one live block, at an address no live block has, of the requested size if at least 28 bytes are left over and of the whole block otherwise |
| HeapRuns.FreeUsed | mm/malloc.c:82-95 | a free removes exactly that live block and changes no other |
| HeapRuns.ResizeUsed | mm/malloc.c:136-182 | an in-place resize replaces exactly that live block by one at the same address; of the room there is, in the block or with the next one, it keeps the requested size if at least 28 bytes are left over and all otherwise |
| HeapRuns.FreeUndoesMalloc | mm/malloc.c:33-96 | freeing what was just carved out of a coalesced heap restores the block list, split or not |
| HeapRuns.FreeAfterMalloc | mm/malloc.c:33-96 | the same as calls: the pointer of a successful kmalloc is live, and kfree on it restores the block list |
| HeapRuns.MallocAdds | mm/malloc.c:44-64 | a successful kmalloc adds one live block, the rounded size or the whole free block; in heaps up to 2^32 - 8 bytes it is as long as asked if and only if the rounding did not wrap |
| HeapRuns.HugeRequestGranted | mm/malloc.c:44-64 | kmalloc(0xFFFFFFFF) on a fresh heap returns a block of size 0 |
| HeapRuns.MallocChoice | mm/malloc.c:40-70 | kmalloc fails exactly for size 0 or when every free block is smaller than the rounded size, and otherwise takes the lowest-addressed fitting one |
| HeapRuns.ReallocChoice | mm/malloc.c:123-198 | krealloc returns the same pointer if and only if the nonzero size fits the block or the block with a free next one; null if and only if the size is 0 or neither that nor any free block is large enough; otherwise the lowest free block that is |
| HeapRuns.StillLive | mm/malloc.c:184-197 | the block being moved survives the allocation of its successor unchanged |
| HeapRuns.PrefixFits | mm/malloc.c:134-181 | a block resized in place still has room for the bytes to be kept if and only if the size is at most 2^32 - 8 or the block was shorter than 28 bytes |
| HeapRuns.PrefixLost | mm/malloc.c:134-157 | a run of two calls after which a block asked to grow has no bytes |
| HeapRuns.SparedStay | mm/malloc.c:33-199 | a call leaves every live block it does not name in its place and at its size |
| HeapRuns.ReallocHolds | mm/malloc.c:109-199 | the block a successful krealloc returns has room for min(old size, new size) bytes, whenever these fit |
| HeapRuns.StepSound | mm/malloc.c:33-199 | every call on live pointers keeps the heap tiled and coalesced, the record of requested sizes exactly on the live blocks, and each block as long as asked for sizes up to 2^32 - 8 |
| HeapRuns.RunSound | mm/malloc.c:15-199 | so does every run of calls |
| HeapRuns.ReachableSound | mm/malloc.c:15-199 | in particular every run from mem_init |
| HeapRuns.ReachablePayloads | mm/malloc.c:15-199 | in every reachable heap live payloads lie inside it, apart from each other and from every header |
| HeapRuns.FreeAllRestores | mm/malloc.c:73-96 | freeing all live pointers in any order leaves the single free block of mem_init |
| HeapRuns.RunThenFreeAll | mm/malloc.c:15-199 | so after any run |
| HeapRuns.ClobberingIsReachable | mm/malloc.c:167-174 | kmalloc(8) from a fresh heap reaches a state where krealloc to 16 lands its new header on the old link |
| HeapBytes.SpliceRepresents | mm/malloc.c:51-62 | if only bytes of the replaced blocks changed and the new headers are right, following next visits the new list |
| HeapBytes.MarkHolds | mm/malloc.c:82-83 | storing used changes the list held in the bytes by that flag and nothing else |
| HeapBytes.MergeHolds | mm/malloc.c:86-89 | the two stores of a merge make the bytes hold the merged list |
| HeapBytes.SplitHolds | mm/malloc.c:51-59 | the header stores of a split make the bytes hold the split list |
| HeapBytes.NewSplitLink | mm/malloc.c:168-171 | which value next->next reads as after the split header's first two stores, for each overlap |
| HeapBytes.GrowthHolds | mm/malloc.c:160-174 | a growth that splits and does not land on the link yields the grown list |
| HeapBytes.BrokenLink | mm/malloc.c:167-174 | if the bytes hold any tiling list after a growth, the new header did not land on the link |
| HeapBytes.GrowthBreaksChain | mm/malloc.c:160-174 | after a growth that splits, the bytes hold a list tiling the heap if and only if the growth is not by 8, nor by 4 with a successor address that is not a multiple of 256 |
| HeapBytes.HoldsAtMostOne | mm/malloc.c:47-68 | the bytes determine the list that following next visits |
| HeapBytes.PayloadWriteHolds | mm/blocks.c:28-31 | a client writing only inside one payload changes neither the list nor any other payload |
| KernelHeap.Heap.MallocC | mm/malloc.c:9-13 | 256 KiB of storage, not initialised |
| KernelHeap.Heap.HeapC | mm/heap.c:8-12 | 64 KiB of storage, not initialised |
| KernelHeap.Heap.MemInit | mm/malloc.c:15-31 | the heap becomes one free block of the clamped capacity |
| KernelHeap.Heap.Kmalloc | mm/malloc.c:33-71 | the bytes hold the list after a first-fit allocation; the pointer is that block's payload or null; all live payloads keep their bytes; a failure changes nothing |
| KernelHeap.Heap.Search | mm/malloc.c:45-68 | the walk along next stops at the first fitting block, or at null exactly when none fits |
| KernelHeap.Heap.Take | mm/malloc.c:49-64 | splitting off the rest or taking the block whole makes the bytes hold the carved list; live payloads keep their bytes |
| KernelHeap.Heap.FindPrevious | mm/blocks.c:13-26 | the block whose next is the given one, null for the first block |
| KernelHeap.Heap.Merge | mm/malloc.c:86-89 | the merged list, with only the first header's bytes changed |
| KernelHeap.Heap.MergeWithNext | mm/malloc.c:86-89 | absorbs the next block exactly when it is there and free |
| KernelHeap.Heap.MergeWithPrevious | mm/malloc.c:91-95 | is absorbed by the previous block exactly when that is there and free |
| KernelHeap.Heap.Kfree | mm/malloc.c:73-96 | on every tiled heap next-then-previous merging yields the list with the block and its free neighbours as one free block, coalesced if it was; all remaining payloads keep their bytes; null and an uninitialised heap are no-ops |
| KernelHeap.Heap.KfreePreviousFirst | mm/heap.c:75-98 | previous-then-next merging yields the same list, on every tiled heap |
| KernelHeap.Heap.Shrink | mm/malloc.c:136-157 | the shrunk list, the remainder merged forward; the front of the block and all other payloads keep their bytes |
| KernelHeap.Heap.Grow | mm/malloc.c:159-182 | grows in place exactly when the next block is free and large enough; valid list or no list as GrowthBreaksChain says; payloads keep their bytes either way |
| KernelHeap.Heap.Split | mm/malloc.c:168-171 | the header of the remainder, with the link as it reads after the first two stores |
| KernelHeap.Heap.AbsorbAndSplit | mm/malloc.c:167-174 | a growth that splits: the grown list, or no list at all, by the condition on the overlap |
| KernelHeap.Heap.Copy | mm/malloc.c:190-195 | the bytes of one payload in another, nothing else changed |
| KernelHeap.Heap.Move | mm/malloc.c:184-198 | allocate, copy, free: the list of the two calls; the result starts with the old bytes; all other payloads keep theirs; a failure changes nothing |
| KernelHeap.Heap.Krealloc | mm/malloc.c:109-199 | all paths: the list Realloc gives, the first min(old size, new size) bytes kept whenever they fit (HeapRuns.PrefixFits), all other payloads unchanged, a null result for a nonzero size changes nothing; on a damaging growth no list is held |
| KernelHeap.Heap.Execute | mm/malloc.c:33-199 | any run of calls, on the bytes: it ends with the list of the run; a block that no call names keeps its place, size and bytes; of any block the bytes that krealloc is to keep follow it through every resize and move |
| SchedulerSpec.SelectOne | init/init_sched.c:113-120 | extending the walk by a task replaces the best one exactly by a strictly better candidate |
| SchedulerSpec.FindIsPlace | init/init_sched.c:79-85 | a search by id succeeds exactly on the ids handed out |
| SchedulerSpec.YieldTask | init/init_sched.c:126-144 | what a yield does to any one task; only a ready candidate is switched to |
| SchedulerSpec.YieldOutcome | init/init_sched.c:126-144 | after a yield that switches exactly one task runs; after one that does not, no other task is ready; a running task is the current one and a blocked one's time has not come |
| SchedulerSpec.YieldIsDetermined | init/init_sched.c:105-144 | the relation for a yield fixes its outcome |
| SchedulerSpec.YieldChooses | init/init_sched.c:105-144 | a switch goes to a task that is ready or due, of the highest priority among those and the newest of that priority; without a switch nobody else is ready or due |
| SchedulerSpec.CreateAdds | init/init_sched.c:45-77 | with both allocations one ready task with the next id and the priority passed, nothing else changed; otherwise nothing changed |
| SchedulerSpec.PriorityKept | init/init_sched.c:26-166 | over any run a task keeps its priority |
| SchedulerSpec.CreatedPriority | init/init_sched.c:68-96 | in every state after its creation a task has the priority passed to sys_create_task, which is what a query reports |
| SchedulerSpec.StepInv | init/init_sched.c:45-164 | every call keeps the invariant and never takes an id back |
| SchedulerSpec.RunInv | init/init_sched.c:26-166 | over any run from a state with the invariant, as the boot state has: it holds throughout, and every id handed out is found |
| SchedulerSpec.IdsDistinct | init/init_sched.c:66-74 | ids in the list are distinct and below the next one |
| SchedulerSpec.StepDead | init/init_sched.c:113-120 | one call by a live task leaves a dead one dead and does not switch to it |
| SchedulerSpec.RunDead | init/init_sched.c:156-166 | over any run a dead task stays dead and is never switched to |
| SchedulerSpec.DeadExactly | init/init_sched.c:156-164 | over any run the dead tasks are exactly those that were dead and those that called sys_task_exit |
| SchedulerSpec.ExitIsForGood | init/init_sched.c:156-166 | a task that exits is dead in every later state, and nothing switches to it |
| SchedulerSpec.SleepStarts | init/init_sched.c:146-154 | without wrap-around a task going to sleep is blocked with its wake time, or ready or running if that is already reached |
| SchedulerSpec.SleepBlocks | init/init_sched.c:151-153 | with wrap-around: it is blocked exactly when the wrapped wake time is above the wrapped counter |
| SchedulerSpec.SleepGoesOn | init/init_sched.c:105-144 | one more call by anybody keeps it so, and below the wake time nothing switches to the task |
| SchedulerSpec.SleepLasts | init/init_sched.c:105-154 | over any run: blocked while the counter is below the wake time, ready or running from the first yield that reaches it, never switched to before |
| SchedulerSpec.KeepsProcessor | init/init_sched.c:133-165 | a yield, sleep or exit keeps the processor exactly when no other task is ready or due at the next tick |
| SchedulerSpec.BootTaskAlone | init/init_sched.c:133-165 | the boot task alone: its exit leaves it dead and current, its sleep leaves it blocked and current |
| SchedulerSpec.YieldExists | init/init_sched.c:105-144 | the relation for a yield has an outcome in every numbered state |
| SchedulerSpec.FirstOrSecond | init/init_sched.c:105-144 | with everybody awake a yield goes to the first task by priority, then by age, or from that one to the second |
| SchedulerSpec.OnlyTwoRun | init/init_sched.c:103-144 | so over any run of yields the processor alternates between these two |
| SchedulerSpec.OthersStarve | init/init_sched.c:103-144 | and every other task never runs after the first yield |
| SchedulerSpec.RoundRobinExactly | init/init_sched.c:103-124 | over any run of yields with everybody awake, every task of the highest priority runs in any stretch of as many states as there are tasks, if and only if at most two tasks have it |
| SchedulerSpec.BootTaskStarves | init/init_sched.c:26-144 | a run from boot, for every n: two tasks created, n yields, and the boot task never current again |
| Scheduler.Kernel.constructor | init/init_sched.c:26-43 | the running thread becomes task 0, alone in the list |
| Scheduler.Kernel.Visit | init/init_sched.c:110-120 | one round of the walk wakes the task if due and keeps the best so far |
| Scheduler.Kernel.PickNext | init/init_sched.c:105-124 | the single walk equals waking everybody due and then taking the first of the highest-priority ready tasks other than current, or current |
| Scheduler.Kernel.Yield | init/init_sched.c:126-144 | the relation for a yield, and the invariant |
| Scheduler.Kernel.Sleep | init/init_sched.c:146-154 | the relation for a sleep, and the invariant |
| Scheduler.Kernel.Exit | init/init_sched.c:156-164 | the relation for an exit, and the invariant |
| Scheduler.Kernel.CreateTask | init/init_sched.c:45-77 | a ready task with the next id in front of the chain of next pointers, or no change and -1 when an allocation fails |
| Scheduler.Kernel.FindTask | init/init_sched.c:79-85 | the first task of the list with the id, or null |
| Scheduler.Kernel.QueryTask | init/init_sched.c:87-96 | succeeds exactly on the ids handed out, with that task's state and priority |
| ContextSwitch.Cpu.SaveRegisters | arch/x86-64/context_switch.asm:7-10 | the four pushes complete the caller's frame below its return address |
| ContextSwitch.Cpu.RestoreRegisters | arch/x86-64/context_switch.asm:17-21 | the pops and the return load exactly the context of the frame at esp |
| ContextSwitch.Cpu.Switch | arch/x86-64/context_switch.asm:6-21 | the caller's context is a frame whose address is in the given cell, the machine has the context of the frame at new_esp, nothing else changed |
| ContextSwitch.Cpu.CallSwitch | init/init_sched.c:143 | the call with its two arguments on the stack: the caller is saved at the first, the frame at the second is resumed, nothing else changed |
| ContextSwitch.Cpu.BuildFrame | init/init_sched.c:58-64 | a frame that stands for four zero registers, the trampoline and the stack top |
| ContextSwitch.Cpu.NewTask | init/init_sched.c:58-69 | building the frame and storing its address in the task's esp is the Create step of a run, for a stack and struct apart from all others |
| ContextSwitch.CallsIsCallable | init/init_sched.c:143 | a task that calls from its own stack meets what the switch needs |
| ContextSwitch.SwitchInv | arch/x86-64/context_switch.asm:6-21 | a switch resumes the task with its saved context and keeps all other suspended tasks' frames |
| ContextSwitch.StepInv | init/init_sched.c:45-144 | computing, switching and creating tasks all keep every suspended task's frame and saved context |
| ContextSwitch.SavedKept | init/init_sched.c:143 | over any stretch of a run in which a task does not run, its saved context stays |
| ContextSwitch.ResumeRestores | arch/x86-64/context_switch.asm:6-21 | over any run, a task suspended and later resumed gets back ebx, esi, edi, ebp, return address and stack level |
| ContextSwitch.FirstResume | init/init_sched.c:58-69 | over any run, the first resume of a new task pops four zeros, lands in the trampoline and leaves esp at the stack top |
| KbdBuffer.Buffer.constructor | kernel/kbd_buffer.c:5-9 | nothing is unread |
| KbdBuffer.Buffer.Push | kernel/kbd_buffer.c:11-19 | the unread characters grow by the new one, or stay when 127 wait |
| KbdBuffer.Buffer.Pop | kernel/kbd_buffer.c:21-29 | takes the first unread character, fails exactly when there is none |
| KbdBuffer.PushAppends | kernel/kbd_buffer.c:13-18 | full exactly when 127 are unread; otherwise the character is appended |
| KbdBuffer.AdvanceDrops | kernel/kbd_buffer.c:26-27 | advancing the tail drops exactly the first unread character |
| KbdBuffer.StepInv | kernel/kbd_buffer.c:11-29 | every single access and every whole interrupt keeps popped plus unread equal to accepted |
| KbdBuffer.PoppedIsPrefix | kernel/kbd_buffer.c:11-29 | under every interleaving the popped characters are a prefix of the accepted ones, the rest is what the ring holds, at most 127 |
| KbdBuffer.InterruptIsSafe | kernel/kbd_buffer.c:11-27 | wherever the reader is, a push drops its character exactly when 127 are unread and never changes the slot about to be read |
| KbdBuffer.EmptyIsExact | kernel/kbd_buffer.c:23-28 | a pop reports empty exactly when nothing was unread when it read the head, for either order of the two reads |
| KbdBuffer.UninterruptedPop | kernel/kbd_buffer.c:21-29 | the reader's accesses without interruption add up to the whole pop |
| ElfLoader.Memcpy | drivers/loader.c:10-20 | every byte of memory afterwards, for all addresses and sizes: unchanged outside the destination, inside it the source byte as it was, or as it is now if the copy had already written it |
| ElfLoader.CopyDetermined | drivers/loader.c:10-20 | that fixes the outcome of the copy |
| ElfLoader.CopyIsPlain | drivers/loader.c:10-20 | the copy is plain unless the destination starts inside the source; then a source byte is replaced by the first one |
| ElfLoader.Memclear | drivers/loader.c:22-31 | zeros in the range, going round at 2^32, nothing else changed |
| ElfLoader.LoadSegment | drivers/loader.c:116-151 | skips, rejects or loads an entry exactly as its fields say; loading is the copy, then the clearing, then the bounds, with the fields read again from memory after each step |
| ElfLoader.LoadedClear | drivers/loader.c:135-151 | an entry whose segment keeps off the buffer and does not wrap holds its file bytes, then zeros up to memsz |
| ElfLoader.LoadAll | drivers/loader.c:111-157 | the whole history of the loop, entry by entry, with the minimum, maximum and loaded flag folded over it |
| ElfLoader.ImageGrows | drivers/loader.c:138-145 | loading one more segment keeps the earlier ones and changes nothing else |
| ElfLoader.EntryDecoded | drivers/elf.h:73-82 | reading a program header encoded field by field gives its fields back, at any address |
| ElfLoader.HeaderDecoded | drivers/elf.h:43-58 | the same of the file header |
| ElfLoader.LoadableExactly | drivers/loader.c:42-129 | a file in memory is loadable if and only if its encoded header and entries meet the conditions, stated in their field values |
| ElfLoader.HistoryProgress | drivers/loader.c:115-157 | on a tame file the loop has loaded just what the first entries of the original table say |
| ElfLoader.LoopFinished | drivers/loader.c:115-166 | a loop that ran to its end loaded the whole table, with the exact bounds; a segment was loaded if and only if the file is loadable |
| ElfLoader.LoopStopped | drivers/loader.c:121-129 | a loop that stopped met the first bad segment, with the segments before it loaded |
| ElfLoader.ElfLoad | drivers/loader.c:91-172 | for every file: refused with nothing changed, or the loop's complete history and the answer to it, failures leaving the result alone; on tame files 0 if and only if the file is loadable, memory is exactly the image of the segments before the first bad one, and entry and exact bounds are reported |
| ElfLoader.OutcomeOfTame | drivers/loader.c:91-172 | the promise for tame files follows from the one for all files |
| ElfLoader.BssLoaded | drivers/loader.c:138-172 | an executable whose segment is longer in memory than in the file is loaded: its bytes, then zeros, nothing else, with entry and bounds |
| ElfLoader.OutcomeIsDetermined | drivers/loader.c:91-172 | for every file the relation fixes memory, code and result |
| ElfLoader.ReadsStayInside | drivers/loader.c:103-124 | for the file in memory, after all checks: header, entries and segment contents lie in the buffer if and only if the table of 32-byte entries ends in it and no segment's sum wraps |
| ElfLoader.TableEnds | drivers/loader.c:103-106 | with 32-byte entries the check means that exactly when the table's end does not wrap |
| ElfLoader.TableMayEscape | drivers/loader.c:103-109 | a memory whose file passes the check with its table outside the buffer |
| ElfLoader.SegmentMayEscape | drivers/loader.c:121-124 | a memory whose file is loadable with its segment's contents outside the buffer |
| ParseArgs.SkipBlanks | userland/zsh.c:81 | stops at the first character that is not blank |
| ParseArgs.FindEnd | userland/zsh.c:87-91 | stops at the end of the quoted or bare token |
| ParseArgs.TakeToken | userland/zsh.c:84-93 | cuts one token: where it starts and ends, the single character overwritten, the pointer stored |
| ParseArgs.PlacedNext | userland/zsh.c:84-93 | cutting one more token keeps the earlier ones in place, in order and apart |
| ParseArgs.Parse | userland/zsh.c:75-97 | the tokens of the line, at most 15, each a C string of the line, ordered, disjoint and in bounds, a null pointer after the last, no other change to the line |
| ParseArgs.TokensOfRender | userland/zsh.c:74-97 | any line of quoted and bare pieces, however spaced, perhaps ending in an unclosed quote, splits into exactly its texts, as many as there is room for |
| ParseArgs.EveryLineRenders | userland/zsh.c:74-97 | every line is such a line |
| ParseArgs.WordsSplit | userland/zsh.c:80-94 | bare words with any spaces, tabs and newlines before, between and after them are split into exactly these words, as many as there is room for |
| ParseArgs.LineOfWords | userland/zsh.c:80-97 | up to 15 words are all arguments |
| ParseArgs.QuoteRoundTrip | userland/zsh.c:74-97 | quoting up to 15 arguments without quotes and splitting gives the arguments back |
| ParseArgs.QuotedLineTerminated | userland/zsh.c:240-242 | a quoted line of arguments without NUL ends where its NUL is put |
| ParseArgs.ParseQuoted | userland/zsh.c:75-97 | splitting a quoted line in place gives pointers to exactly the arguments |
| Scancodes.KeysAndScancodes | input/keyboard.c:10-99 | every key has exactly one scancode, extended or not; press and release share it |
| Scancodes.Keyboard.Init | input/keyboard.c:177-182 | clears the modifiers and leaves a pending prefix pending |
| Scancodes.Keyboard.UpdateModifier | input/keyboard.c:101-142 | if the modifier word told the history of key events so far, it tells it with this event added |
| Scancodes.Keyboard.HandleScancode | input/keyboard.c:144-175 | one byte's effect on state and events |
| Scancodes.RunIsParseThenFold | input/keyboard.c:144-175 | decoding any bytes one at a time equals parsing into (extended, code) pairs and folding: same modifiers, same events |
| Scancodes.KeyOrNone | input/keyboard.c:10-99 | which scancodes have a key, with and without the prefix |
| Scancodes.ExtendedKeys | input/keyboard.c:67-84 | the keys behind the prefix |
| Scancodes.ModifierKeys | input/keyboard.c:10-84 | the scancodes of the keys that change modifiers |
| Scancodes.ByteEvent | input/keyboard.c:144-175 | after any bytes from reset one more adds an event if and only if it is not the prefix and has a key; pressed or released by its top bit, never a repeat, with the modifiers after it and what the layout gives for them, text only on a press |
| Scancodes.UpdatedBits | input/keyboard.c:101-142 | a key event changes exactly its own bit |
| Scancodes.ModifiersMean | input/keyboard.c:101-170 | after any bytes from reset: latest event for SHIFT, CTRL, ALT, ALTGR, parity for the locks, no other bit |
| Scancodes.SharedBit | input/keyboard.c:104-114 | a bit of two keys is set only if one is held, and agrees with that exactly unless one was released under the other and neither touched since |
| Scancodes.HeldExactly | input/keyboard.c:101-170 | the same of SHIFT and CTRL, after any bytes from reset |
| Scancodes.ShiftByte | input/keyboard.c:104-108 | after any bytes, one more for a shift key: a press sets SHIFT and agrees with held, a release clears it and agrees if and only if the other key was not held before |
| Scancodes.HeldButClear | input/keyboard.c:104-108 | three bytes after which right shift is held and SHIFT is clear |
| Scancodes.InitForgets | input/keyboard.c:177-182 | after keyboard_init all bytes are decoded as from reset if and only if no prefix was pending |
| Scancodes.PrefixSurvives | input/keyboard.c:144-182 | 0x1C after a pending prefix and keyboard_init is the keypad's Enter |

## Left out

- KernelHeap.Heap.Krealloc: after a growth that changes the link it says which payload bytes are kept and that no list is held, not what later calls would do, because they follow a broken link.
- ElfLoader.ElfLoad: for files with wrapping sums, other entry sizes, or segments that meet each other or the buffer the outcome is a history, entry by entry, and not an image, because the loader then rewrites what it reads.
- Scheduler.Kernel.CreateTask: stack, frame and esp are in `ContextSwitch.Cpu.NewTask`; `kmalloc` is a parameter, and ids stay below 2^31 - 1, where the signed counter would overflow.
- Scheduler.Kernel.constructor: the boot task's `kmalloc` succeeds; the code does not check it.
- ContextSwitch.Cpu.Switch: `eax`, `ecx`, `edx` and the flags are not modelled; the calling convention does not keep them.
- ContextSwitch.Cpu.NewTask: that the two allocations of a task lie apart from the other tasks' is what the heap theorems say of live blocks; here it is a condition.
- `kfree` and `krealloc` on pointers that are not live: the code has no check, so it is a precondition.
- Any preemption other than the keyboard interrupt: the kernel has none.
- Port I/O and device drivers (`kernel/pic.c`, `net/e1000.c`, `net/ne2000.c`, `core/restart.c`, `core/shutdown.c`, boot assembly): hardware effects.
- `net/tcp.c`, `net/network.c`: unfinished, with no peer to model a protocol against.
- `userland/pkg.c`: rests on file operations the VFS does not have.
- `userland/register.c`, `kernel/vfs.c`, `drivers/hfs`, `fs/fat32` and the environment of `userland/zsh.c`: small tables and copies that would add only easy members.
- `init/init_proc.c`, `core/greet.c`, `kernel/main.c`, `userland/syscall.c`: glue or superseded code.
- `input/keymap.c`: layout tables and dead keys; the decoder takes the translation as a parameter.
- `klog` output and the `p_flags` and `p_paddr` fields of program headers: the loader does not act on them.
