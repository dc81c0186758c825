# Verified model of the SBUnix kernel core

A Dafny 4.11 model of the parts of this x86-64 teaching kernel whose correctness spans many
functions: frames, page tables and copy-on-write fork (`sys/phymap.c`, `sys/isr.c`, `sys/elf.c`), the
task list and scheduler (`sys/task.c`), the user heap (`libc/malloc.c`), the tar file index
(`sys/tarfs.c`), and the stateful string routines (`libc/string.c`, `sys/string1.c`).
`dafny verify dfyconfig.toml` checks everything.

## How it is built

Each part has two layers. Classes and methods follow the C code statement by statement: the fields it
updates, the loops it runs, the branches it takes. Every method is proved to compute a step of a
specification on values. Lemmas then prove what those steps mean over all inputs and all runs.

| file | models |
|---|---|
| `Utils.dfy` | a null index, C integer conversions, suffixes of sequences |
| `Frames.dfy` | the free list of page descriptors, `kmalloc`, frame conservation |
| `Paging.dfy` | page tables as values, the four-level walk, tree shape, single table writes |
| `AddressSpace.dfy` | what `map_process`, `set_user_AddrSpace` and the fork copy promise about walks |
| `Phymap.dfy` | those operations on a machine with memory, CR3 and the frame allocator |
| `Clones.dfy` | cloned address spaces over sequences of `map_process` calls |
| `Cow.dfy`, `Isr.dfy` | copy-on-write refines eager copying; the page-fault handler, user stores, the kernel's own stores and fork |
| `Elf.dfy`, `Launch.dfy` | `elf_load`; loading into a cloned address space, as boot and exec do, and where copy-on-write starts |
| `Clobber.dfy` | states and runs in which the kernel overwrites user pages |
| `Sched.dfy`, `Tasks.dfy` | the scheduler as a step system; the linked list that takes those steps |
| `Outcomes.dfy` | what each scheduler step does to every task; tasks that fork, exit or are killed |
| `Kernel.dfy` | tasks and memory in one run |
| `Heap.dfy`, `Malloc.dfy` | first-fit heap runs; the doubly linked block list |
| `Strings.dfy` | `memcpy` and `strtok` |
| `Octal.dfy`, `Archive.dfy`, `Tarfs.dfy`, `Directories.dfy` | octal readers, the ustar archive, the index against the raw scan, directory listings |
| `Ustar.dfy` | archives as a tar writer lays them out, and what both lookups and `readfile` give back of them |

Memory is kept as two typed views of the same frames, `tables` and `data`. Which role a frame plays is
tracked by a ghost map, `own`, that gives every page table its one place in the tree; the invariants
prove that no frame of the data view that a user page reaches is a table.

## Assumptions taken from the code

- A free frame reads as zero. `pdpt_alloc`, `pdt_alloc` and `pt_alloc` do not clear the frames they take.
- Where the code dereferences the result of `page_alloc` unchecked, enough frames are free.
- The last page descriptor's `next` starts out NULL: `page_init` never writes it.
- The descriptor array lies apart from allocatable frames. `page_init` reserves room for pointers, not
  for structures, so this does not follow from the code.
- `phyAddr` is called only where the three upper levels are present; otherwise it goes on through a null
  table pointer.
- The kernel's own stores ignore the writable bit (CR0.WP is clear). It reaches page tables at their
  physical addresses; user mappings that cover a page table are assumed away.
- Every other store of the kernel's goes to whatever frame the current root shows at the address, user
  mappings included: the fault handler's copy, and the fields of Task and vma structures. Something must be
  mapped there, and it must be neither a page table nor a frame that stays free; an absent entry would
  fault inside the kernel. What the fields are is left open.
- kmalloc's frames are contiguous, as they are without page_dealloc (`Frames.KmallocContiguous`); a Task
  takes two.
- The set of user pages is a parameter: any pages below PML4 index 510, the text of the shipped programs
  at 0x400000 included. Nothing is assumed about how many frames there are or where they lie.
- `brk` returns a fresh page run that meets no earlier one. The dispatcher in `sys/syscall.c` has no case
  for its call number.
- An archive to be indexed holds files and directories only, each directory before its contents, with
  names long enough (two characters for files, three for directories) that the parent search stays inside
  the name, and at most 99 entries, so that the index array keeps a terminator.

## Where the code does not do what it is for

Each of these is proved, with the exact condition under which the code is right.

- The kernel expects every frame that it takes for itself at the frame's own address, where a program may
  have its pages by then: the shipped programs have text at 0x400000, the address of frame 0x400.
  The fault handler keeps copy-on-write intact if and only if no other user page shows the frame it finds
  there (`Cow.FaultKeepsInvIff`). For a kernel that maps its window identically outside user pages this
  means: the fresh frame's address is not a user page, or it is the faulting page itself and nobody else
  shows its frame (`Cow.FaultSafeIff`). What processes read survives under the same condition, or
  when that frame held the very same bytes (`Cow.FaultRefinesIff`). The same holds of the stores into Task and vma structures
  (`Cow.KernelRefinesIff`, `Cow.KernelSafeIff`, `Cow.ExecRefinesIff`).
  `Clobber.FaultClobbersText` and `Clobber.StructureClobbersText` give a state in which the text is lost,
  and `Clobber.LoadForkWriteClobbers` the runs: load, fork, and write one page, and the child finds the
  write in another.
- exec reads its arguments through the new address space after loading. They arrive if and only if the
  pages that loading put over them hold the same bytes there (`Elf.ArgumentsArriveIff`).
- A zombie that goes on running, because nobody was waiting when it exited, and then forks is put back to
  WAITING and is dispatched again (`Sched.ZombieDispatched`); a dead task stays dead exactly as long as it
  does not do that (`Sched.DeadThroughoutIff`).
- A killed task that nobody takes over from goes on running. If it then exits it is a zombie like any
  other, and a fork brings it back (`Outcomes.KilledDispatched`). Somebody takes over exactly if the killed
  task was not running or another was waiting (`Outcomes.KillTakesOverIff`). Once another task runs, neither a killed
  nor an exited task ever comes back (`Outcomes.KilledForGood`, `Outcomes.ExitedForGood`).
- `moveProcessToEnd` walks off the list when given its last task. Waitpid aside, which is not
  modelled, nothing after boot gets there: no sequence of forks, execs, exits, kills and yields gets stuck
  (`Sched.NeverStuck`). One more `create_process`, which only boot calls (sys/main.c:81), would be enough
  (`Sched.StuckAfterCreate`).
- exec loads into a clone that shares every lower table present in the old address space, so pages that the
  new image does not load keep the old program's contents (`Cow.ExecRefinesIff`).
- `sbrk` rounds correctly exactly as long as the page count fits an `int` (`Heap.FitsIff`).
- `octalToDecimal` is right for eleven octal digits exactly when their decimal reading is below 2^31,
  or ends in 0 and lies in one window further up (`Octal.OctalToDecimalRightIff`). Of the sizes that
  a header can hold, those below 295600128 come back, and multiples of 8 from 2147483648 up to 2364801023
  (`Octal.WrittenSizeReadIff`).
- `readfile` returns what its loop counter ends at: -1 for every non-negative request, not the number of
  bytes (`Tarfs.Tarfs.ReadFile`). The bytes themselves are right (`Ustar.FilesReadBack`).
- `getElfHeader` and `openfile` disagree exactly on the empty name, which the scan finds in the closing
  zero block, and on names whose first header is not a regular file (`Tarfs.LookupsAgreeIff`).
- `readdirect` misses children listed after a second header of their directory, prints a fixed text for the
  empty name, and is exact otherwise
  (`Directories.ListsChildrenIff`).
- Returning a frame that is already free makes the free list circular (`Frames.DeallocKeepsListIff`).

## Model

| member | source | states |
|---|---|---|
| Frames.FrameAllocator.constructor | sys/phymap.c:61-85 | after page_init the free list is exactly the frames from the reservation up, in address order, and refer_cnt is 1 below it and 0 from there on |
| Frames.FrameAllocator.PageAlloc | sys/phymap.c:86-96 | takes the head of the list, or returns NULL when it is empty |
| Frames.FrameAllocator.PageDealloc | sys/phymap.c:97-102 | puts a frame that is not listed at the head of the list |
| Frames.FrameAllocator.Kmalloc | sys/phymap.c:222-238 | takes the page count of the size off the list and returns the first frame's address; 0 for size 0 |
| Frames.DeallocKeepsListIff | sys/phymap.c:97-102 | the list still ends after page_dealloc if and only if the frame was not on it |
| Frames.Conservation | sys/phymap.c:86-102 | in every run of page_alloc and page_dealloc of live frames, listed and live frames partition the initial pool and the list has no duplicates |
| Frames.FramesForIsCeiling | sys/phymap.c:227-229 | kmalloc's `int` page count is the size divided by 4096 rounded up, for every size below 8 TiB |
| Frames.BumpPointer | sys/phymap.c:222-238 | without page_dealloc the free list is a bump pointer: what is left is the frames past all those taken |
| Frames.KmallocContiguous | sys/phymap.c:222-238 | without page_dealloc every kmalloc gets contiguous frames |
| Frames.KmallocDisjoint | sys/phymap.c:222-238 | and no two kmalloc calls share a frame |
| Paging.PathIsPageNumber | sys/phymap.c:103-118 | the four 9-bit indices of an address spell its bits 12 to 47 |
| Paging.SamePathIffSamePage | sys/phymap.c:103-118 | two addresses have the same four indices if and only if they agree on bits 12 to 47 |
| Paging.FlagBits | include/sys/phymap.h:8-14 | an entry is present, writable, for the user or copy-on-write by bits 0, 1, 2 and 8; the words the kernel writes are 0x007 and 0x105 |
| Paging.LastLevelDecides | sys/phymap.c:119-142 | every table above the last level is linked for user mode to read and write, so what the last entry allows the whole walk allows |
| Paging.GetDependsOnVisited | sys/phymap.c:424-456 | a translation depends only on the tables it reads |
| Paging.GetAfterLeafWrite | sys/phymap.c:311-314 | writing a last-level entry changes exactly the translations that end in it |
| Paging.GetAfterLink | sys/phymap.c:119-142 | hanging an empty table under an absent entry changes no translation |
| Paging.TreeAfterLink | sys/phymap.c:119-142 | and keeps the tables a tree |
| AddressSpace.LeafWriteIsMapStep | sys/phymap.c:311-314 | the last write of map_process makes the page translate to its frame and keeps every other translation, whichever tables were allocated on the way |
| AddressSpace.VisitsLast | sys/phymap.c:280-307 | a walk ends in the table map_process found exactly when it follows the same indices below the same top-level table |
| AddressSpace.MappedFlags | sys/phymap.c:311-314 | the entry of a mapped page has the given frame and bits 0 to 2 set, exactly 0x007 when given a bare frame |
| AddressSpace.ForkedFlags | sys/phymap.c:400-407 | after fork every page present below PML4 index 510 is, in parent and child, its old frame with exactly 0x105; absent pages stay absent |
| AddressSpace.ForkedKernelHalf | sys/phymap.c:420-421 | from PML4 index 510 on both have the parent's entries, and read what the parent read |
| AddressSpace.ForkStepDone | sys/phymap.c:359-422 | the 510 copied slots and the two verbatim ones make up the fork step: parent and child both map the parent's old frame with P, U and COW wherever the parent mapped one |
| AddressSpace.CloneTranslates | sys/phymap.c:346-358 | cloning changes no translation and gives the clone the original's |
| AddressSpace.PresentNotMissing | sys/phymap.c:439-453 | where a translation is present no upper level is missing |
| Phymap.Machine.constructor | sys/phymap.c:143-146 | the first frame becomes an empty PML4 |
| Phymap.Machine.AllocTable | sys/phymap.c:119-142 | a fresh table is linked with P, W and U under the given entry |
| Phymap.Machine.FindTables | sys/phymap.c:285-307 | finds or allocates the three lower tables of an address, taking exactly as many frames as levels are missing, and keeps every translation |
| Phymap.Machine.MapProcess | sys/phymap.c:274-316 | the page of the address translates to the given word with P, W and U under every root that shares its slot; every other translation, and every other PML4 entry, is as before |
| Phymap.Machine.PhyAddr | sys/phymap.c:424-456 | returns the last-level entry that the walk reaches, flags included |
| Phymap.Machine.SetUserAddrSpace | sys/phymap.c:346-358 | a fresh root holds the current root's 512 entries |
| Phymap.Machine.CopyPt | sys/phymap.c:394-413 | each present entry of the parent's page table becomes frame with P, U and COW in parent and child; absent ones stay absent in both |
| Phymap.Machine.CopyTable | sys/phymap.c:375-417 | copies everything below one parent table into an empty one of the same level, taking one frame per interior table |
| Phymap.Machine.ForkAddressSpace | sys/phymap.c:359-422 | for every address below PML4 index 510, parent and child end up with the parent's old frame marked P, U and COW, or both unmapped; slots 510 and 511 are the parent's; the child's tables are fresh; the free list shrinks by one plus the number of interior tables |
| Clones.SharedSlot | sys/phymap.c:346-358 | a slot present when cloned reads the same under both roots after any later map_process calls: the latest mapping made under either |
| Clones.SeparateSlot | sys/phymap.c:346-358 | a slot not shared stays separate: each root reads only its own mappings |
| Clones.CloneSharesExactlyPresentSlots | sys/phymap.c:346-358 | an address space and its clone agree forever on slots present at clone time and are independent on the others |
| Cow.UserAccess | sys/phymap.c:400-407 | under the invariant, which fork, fault, exec and store keep, all four levels of the walk to a present user page let user mode read it, and write it where it is writable |
| Cow.ForkKeepsInv | sys/phymap.c:359-422 | fork keeps the invariant that a writable user frame is reachable from one page of one process only |
| Cow.FaultKeepsInvIff | sys/isr.c:181-194 | the fault handler keeps it if and only if no other user page shows the frame that is mapped at the fresh frame's address |
| Cow.FaultSafeIff | sys/isr.c:183-190 | for a window mapped identically outside user pages: if and only if the fresh frame's address is not a user page, or it is the faulting page itself and nobody else shows its frame |
| Cow.IdentityIsUnshared | sys/isr.c:183-184 | a fresh frame mapped at its own address is shown by no user page |
| Cow.FaultKeepsInv | sys/isr.c:181-194 | the handler keeps the invariant in that case |
| Cow.StoreKeepsInv | sys/isr.c:169-196 | a store keeps it |
| Cow.ExecKeepsInv | sys/task.c:391-415 | exec keeps it for the new process and all others, the caller having ended |
| Cow.KernelKeepsInv | sys/task.c:266-327 | the kernel taking frames for its structures and storing into them keeps it |
| Cow.ForkRefines | sys/phymap.c:359-422 | after the page-table copy of fork every process reads what it would had all pages been copied |
| Cow.FaultRefinesIff | sys/isr.c:181-194 | the fault handler changes nothing that any process reads if and only if no other user page shows the frame it writes to, or that frame held the same bytes |
| Cow.StoreRefines | sys/isr.c:169-196 | a store changes that byte for that process and nothing for any other |
| Cow.KernelRefinesIff | sys/task.c:268-326 | the kernel's stores into its structures change nothing that any process reads if and only if no user page shows the frames behind their addresses, or the bytes there stay the same |
| Cow.KernelSafeIff | sys/task.c:268-326 | for a kernel whose own addresses show no user's frames: if and only if none of the structures' addresses is a user page |
| Cow.ExecRefinesIff | sys/task.c:391-415 | after exec the new process reads its image and, on all other pages, what the caller read, and the others what they did, if and only if the stores into vma structures went to frames that none of these pages show, or changed nothing there |
| Cow.FreshIsUnshown | sys/phymap.c:86-96 | a frame on the free list is shown by no user page |
| Cow.StepKeepsInvIff | sys/isr.c:169-196 | a fork, an exec, a user write or the kernel's own stores keep the invariant if and only if it is not a write whose fault is unsafe |
| Cow.InvThroughoutIff | sys/phymap.c:359-422 | the invariant holds throughout a run if and only if every fault in it is safe |
| Cow.CowRefinesEagerCopy | sys/phymap.c:359-422 | over every interleaving of forks, execs, user writes and kernel stores whose faults and stores are safe, each process reads exactly what it would if fork had copied every user page |
| Isr.PageFault | sys/isr.c:169-196 | a COW page is copied to the frame found at the fresh frame's address and mapped there, with that entry's flags and P, W and U; any other entry is left alone |
| Isr.UserStore | sys/isr.c:169-196 | a store, with the fault it may take first, is the write step of the refinement |
| Phymap.Machine.StoreStructure | sys/phymap.c:325-342 | fields of a kernel structure change the frame that the current root shows at its address, and no other |
| Isr.TakeStructure | sys/task.c:268-272 | kmalloc of a structure and the stores into it are one kernel step |
| Isr.CopyVmas | sys/task.c:281-302 | so is the loop that copies the parent's vmas, under the child's tables |
| Isr.ForkProcess | sys/task.c:266-327 | copyParentToChild is a kernel step under the parent's root, the fork step, and a kernel step under the child's |
| Clobber.FaultClobbersText | sys/isr.c:181-194 | a sound state with text at 0x400000 and frame 0x400 free, from which the fault handler loses the invariant and the text |
| Clobber.StructureClobbersText | sys/task.c:268-272 | from the same state a kernel structure in that frame overwrites the text |
| Clobber.LoadForkWriteClobbers | sys/isr.c:181-194 | in every run that loads a program, forks it and writes to a page when the next free frame's address is another of its pages, the child reads the parent's write on that other page |
| Elf.BytesCovered | sys/elf.c:52-54 | every byte of a segment lies on a page that the loader maps |
| Elf.PagesSpanned | sys/elf.c:52-53 | the page count is last page minus first page plus one |
| Elf.MapSegment | sys/elf.c:52-61 | the pages of a segment, and no others, get distinct fresh zero frames |
| Elf.CopyIn | sys/elf.c:62-65 | the copy through the new tables changes exactly those bytes |
| Elf.TakeVma | sys/phymap.c:325-342 | addVMA takes a frame and stores at its address: into that frame, into the page of the new program that lies there, or into what the space showed there before |
| Elf.LoadSegments | sys/elf.c:47-67 | for segments with disjoint pages all are loaded, but for pages the kernel stored to, and no other translation changes |
| Elf.LoadedReads | sys/elf.c:47-67 | every byte of a loaded segment is mapped, writable, to a frame fresh from the free list, distinct pages to distinct frames, and reads as the file's byte for R-X and R-W segments up to p_filesz and as zero elsewhere, unless the kernel stored to that page |
| Elf.MapHeapAndStack | sys/elf.c:69-76 | the heap and stack pages get fresh zero frames, each followed by the frame of its vma |
| Elf.ReadBytes | sys/elf.c:83 | the arguments are read through the tables as they are then |
| Elf.PushArguments | sys/elf.c:79-84 | the argument count, then 64 bytes for each argument as found at `args`, end 8 bytes below the top of the stack page, and nothing else changes |
| Elf.ArgumentsArriveIff | sys/elf.c:83 | the bytes copied are the caller's if and only if every page that loading put over them holds the same bytes there |
| Elf.ElfLoad | sys/elf.c:43-88 | the whole load: all segments, an empty heap page and the arguments are in place, in fresh distinct frames, but for pages the kernel stored to; no other translation of this root, no root that shares no slot with it, and no frame in use before changes, but for those behind the vma structures' addresses |
| Launch.LoadIsExecSnap | sys/task.c:251-258 | cloning the address space and loading into the clone is the exec step of the refinement |
| Launch.LoadProcess | sys/task.c:396-411 | so is what the code does, with CR3 switched to the clone and back |
| Launch.LoadedProcessIsSound | sys/task.c:247-264 | a process loaded into a space that shows nothing on the user pages it does not load, as the kernel's at boot, satisfies the copy-on-write invariant, and every user page it shows is one it loaded, and writable |
| Launch.ForkedFromLoaded | sys/phymap.c:359-422 | so from the first load on, over every interleaving of forks, execs, user writes and kernel stores whose faults and stores are safe, each process reads exactly what it would if each fork had copied every page |
| Tasks.GetProcessID | sys/task.c:68-78 | the first unused id is returned and marked, or -1 as an unsigned 16-bit value |
| Tasks.Scheduler.constructor | sys/task.c:155-178 | boot leaves init waiting with pid 1 and the shell running with pid 2, and establishes the invariants |
| Tasks.Scheduler.AddProcessToList | sys/task.c:107-127 | a new task goes to the end of the list |
| Tasks.Scheduler.MoveProcessToEnd | sys/task.c:95-106 | moves a task to the end, or walks off the list exactly when it was last |
| Tasks.Scheduler.GetNextWaitingTask | sys/task.c:198-212 | returns the first waiting task after init, moved to the end, or NULL |
| Tasks.Scheduler.SwitchTask | sys/task.c:220-228 | the new task runs, the old one waits unless it has ended, CR3 follows |
| Tasks.Scheduler.JumpToUserMode | sys/task.c:344-364 | the task runs and CR3 is its own |
| Tasks.Scheduler.Yield | sys/task.c:214-218 | takes the yield step |
| Tasks.Scheduler.ExitProcess | sys/task.c:418-422 | takes the exit step |
| Tasks.Scheduler.KillProcess | sys/task.c:18-37 | takes the kill step: the first task with that pid, if any, ends, then a yield |
| Tasks.Scheduler.CreateProcess | sys/task.c:247-264 | takes the create step: a child of init at the end of the list |
| Tasks.Scheduler.ForkProcess | sys/task.c:329-342 | takes the fork step: a child of the running task, switched to |
| Tasks.Scheduler.ExecProcess | sys/task.c:379-417 | takes the exec step: the running task ends and a sibling replaces it |
| Outcomes.CreateOutcome | sys/task.c:247-264 | the new task waits in its own address space; no other task changes |
| Outcomes.ForkOutcome | sys/task.c:329-342 | the child runs in its own address space, the forking task waits unless it had ended, and no other task changes |
| Outcomes.ExecOutcome | sys/task.c:379-417 | the new task runs in its own address space, the caller has ended, and no other task changes |
| Outcomes.YieldOutcome | sys/task.c:198-228 | with `i` the first place after init that waits: that task runs in its own address space, init waits unless it has ended, no other task changes; with none, nothing more happens |
| Outcomes.KillEnds | sys/task.c:18-37 | the first task of the list with that pid has ended after the step, whatever its state was |
| Outcomes.ExitZombie | sys/task.c:418-422 | the running task is a zombie after the step, whatever its state was |
| Outcomes.GoneForGood | sys/task.c:198-228 | in every run a dead task that is not running is never dispatched again and stays dead, ended if it had ended |
| Outcomes.KilledForGood | sys/task.c:18-37 | so a killed task stays ended and is never dispatched again, once another task has taken over |
| Outcomes.KillTakesOverIff | sys/task.c:18-37 | another task has taken over after a kill if and only if the killed one was not running or another one was waiting |
| Outcomes.ExitedForGood | sys/task.c:418-422 | and an exited one stays dead |
| Outcomes.KilledDispatched | sys/task.c:18-37 | without one: boot, kill of the shell by itself, exit, fork, yield, and the shell is dispatched again |
| Outcomes.ForkerPickedAgain | sys/task.c:198-228 | from boot, a task that forks, unless it had ended or is killed, is picked again within as many yields as its place in the list |
| Sched.StepShape | sys/task.c:95-127 | each completed step appends its new task, or moves the picked task to the end keeping the order of all the others, or leaves the list alone; init stays first, nothing is lost or duplicated |
| Sched.StuckIff | sys/task.c:95-105 | a yield walks off the list if and only if the last task is the only one after init that waits |
| Sched.NeverStuck | sys/task.c:95-127 | from boot on, no sequence of forks, execs, exits, kills and yields ever gets stuck: every step completes and leaves the last task not waiting |
| Sched.StuckAfterCreate | sys/task.c:95-105 | a task created after boot gets the next yield stuck |
| Sched.RunKeepsInv | sys/task.c:198-227 | in every run the list stays duplicate-free and headed by init, init is never dispatched, and CR3 belongs to the running task |
| Sched.DeadNotDispatched | sys/task.c:198-212 | no step dispatches an ended or zombie task |
| Sched.DeadStaysDeadIff | sys/task.c:224-227 | dead tasks stay dead in a step if and only if it is not a fork by a zombie |
| Sched.DeadStepIff | sys/task.c:224-227 | one dead task stays dead in a step if and only if it does not itself fork as a zombie |
| Sched.DeadThroughoutIff | sys/task.c:224-227 | and throughout a stretch of a run if and only if it never does |
| Sched.DeadForever | sys/task.c:198-227 | a task once dead is never dispatched again as long as it does not itself fork as a zombie |
| Sched.ZombieDispatched | sys/task.c:224-227 | boot, exit, fork, yield: the exited shell is dispatched again |
| Sched.WaitingAdvances | sys/task.c:198-212 | a yield that skips a waiting task brings it one place nearer to init |
| Sched.BoundedWaitingInRun | sys/task.c:198-218 | in a run of completed steps, a waiting task with k tasks between init and it, that nobody kills, is picked within k + 1 yields |
| Sched.BoundedWaiting | sys/task.c:198-218 | the same from boot, without assuming that any step completes, whatever forks, execs, exits, kills of others and yields happen |
| Sched.StepFamily | sys/task.c:247-271 | each step adds at most one task, with the next unused pid, as a child of init, of the running task or of its parent |
| Sched.CreationPids | sys/task.c:68-78 | in every run the n-th task created has pid n from then on, up to 99, and 65535 beyond |
| Sched.PidsDistinct | sys/task.c:68-78 | in every run of at most 99 tasks pids are distinct, every parent pid is smaller, and every parent exists |
| Sched.Ancestry | sys/task.c:247-271 | every parent chain is strictly decreasing and ends at a task whose parent is 0 |
| Sched.BootKeepsInv | sys/task.c:155-178 | the state after boot satisfies all invariants, its last task running |
| Kernel.StepKeepsSpaces | sys/task.c:214-422 | a fork, exec, exit, kill, yield, write or kernel store keeps the roots of tasks that have not left by exec distinct and in use |
| Kernel.BootIsSound | sys/main.c:76-87 | boot, with the shell loaded into a clone of the kernel's space, is a sound start |
| Kernel.TasksReadTheirOwn | sys/task.c:214-422 | in every run from a sound start whose faults and kernel stores are safe, CR3 is the running task's root, the living tasks have distinct roots, and each reads on every user page what it would had each fork copied every page |
| Heap.FitsIff | libc/malloc.c:47-56 | the run sbrk asks for holds header and payload if and only if its page count fits an `int` |
| Heap.RunKeepsInv | libc/malloc.c:107-159 | in every run status and magic agree, runs are apart, and the live blocks are exactly the allocated ones, each large enough |
| Heap.LivePayloadsDisjoint | libc/malloc.c:107-159 | a live payload, as long as was asked for, lies in its run and meets no other block's header or payload |
| Heap.MallocServes | libc/malloc.c:60-137 | the first free block that is large enough is reused with its address and size and magic code 33, else a new block of the size asked for has magic code 11; no other block changes; the payload starts 32 bytes up |
| Heap.BlocksNeverChange | libc/malloc.c:107-159 | in every run a block keeps its address and its size, however often it is freed and reused |
| Heap.PagesAsked | libc/malloc.c:47-64 | for every size below 8 TiB sbrk asks for the whole pages that hold the size and 32 bytes, and one more when these fill them exactly |
| Heap.MallocReturnsFree | libc/malloc.c:79-96 | malloc of a non-zero size never returns a live payload, nor NULL |
| Heap.FreeIsSafe | libc/malloc.c:140-159 | the dangling-pointer branch is unreachable, a repeated free changes nothing, a first one changes one block's status and magic |
| Heap.OneSizeStep | libc/malloc.c:107-134 | with one request size brk is asked only when every block is live |
| Heap.BlocksArePeak | libc/malloc.c:107-134 | with one request size the number of blocks ever obtained is the peak number of simultaneous allocations |
| Malloc.Allocator.BlockRequest | libc/malloc.c:60-77 | a block at the start of a fresh run is linked behind the last one |
| Malloc.Allocator.FindFreedBlock | libc/malloc.c:79-96 | the first freed block that is large enough, or NULL with the last block |
| Malloc.Allocator.MallocBytes | libc/malloc.c:107-137 | first fit on the list, which stays linked both ways; NULL for size 0 |
| Malloc.Allocator.BlockHeader | libc/malloc.c:98-104 | the header one header size below a payload is that payload's block |
| Malloc.Allocator.FreeBytes | libc/malloc.c:140-159 | frees the block of a payload address, reporting double frees and dangling pointers; NULL is ignored |
| Strings.Memcpy | libc/string.c:208-219 | the destination range ends equal to the old source range and every other byte is unchanged, however the two overlap |
| Strings.TokensSound | libc/string.c:137-171 | every token is a maximal non-empty delimiter-free stretch |
| Strings.TokensComplete | libc/string.c:137-171 | every such stretch is a token |
| Strings.TokensOrdered | libc/string.c:137-171 | the tokens come in order, apart |
| Strings.Tokenizer.Strtok | libc/string.c:123-171 | one call returns the next token and terminates it, or returns NULL and leaves the static idle |
| Strings.Tokenizer.TokenizeAll | libc/string.c:123-171 | strtok(s, d), then strtok(NULL, d) until NULL, returns the tokens in order, overwrites delimiters only, ends, and leaves the static idle |
| Octal.GetSize | sys/tarfs.c:9-20 | the base-8 value of eleven characters, in unsigned 32-bit arithmetic; a size n below 8^11 written in octal reads as n modulo 2^32 |
| Octal.ZeroHeaderSize | sys/tarfs.c:9-20 | an all-zero header reads as 1227133520 |
| Octal.ErasedHeaderSize | sys/tarfs.c:9-20 | a size field of 0xFF bytes, -1 as signed characters, reads as 7 |
| Octal.Stoi | sys/tarfs.c:40-50 | the leading digits in base ten, in 64-bit arithmetic; a number written in decimal at the front reads as itself modulo 2^64 |
| Octal.OctalToDecimal | sys/tarfs.c:71-85 | sums, in base eight, the digits as seen through the `int` cast |
| Octal.ReadersAgree | sys/tarfs.c:9-85 | for eleven octal digits whose decimal reading is below 2^31 both readers give the octal value |
| Octal.OctalToDecimalRightIff | sys/tarfs.c:71-85 | the exact condition, for eleven octal digits, under which octalToDecimal gives the octal value |
| Octal.OctalFieldAt | include/sys/tarfs.h:25 | character k of an octal field of w characters is digit n / 8^(w - 1 - k) % 8 |
| Octal.OctalFieldValue | sys/tarfs.c:9-20 | an octal field that is wide enough has the value of the number written |
| Octal.DecimalValue | sys/tarfs.c:40-50 | a number written in decimal is digits whose base-ten value is that number |
| Octal.WrittenSizeReadIff | sys/tarfs.c:40-85 | a size below 8^11 written in octal comes back through stoi and octalToDecimal if and only if it is below 295600128, or a multiple of 8 from 2147483648 up to 2364801023 |
| Archive.StridesAgree | sys/tarfs.c:166-169 | both walkers advance by 512 plus the size rounded up to 512 |
| Archive.ZeroStride | sys/tarfs.c:214-216 | over the closing zeros the scan jumps 1227134464 bytes |
| Tarfs.ReadSize | sys/tarfs.c:147-149 | octalToDecimal of stoi of a header's size field is the entry's size; for a field written with size n it is n if and only if n is one of the sizes above |
| Tarfs.WrittenSize | sys/tarfs.c:147-149 | a field written with size n is one that both walkers can read if and only if n is below 295600128, and its entry's size is n |
| Tarfs.Tarfs.ParentFrom | sys/tarfs.c:88-130 | the loops of the two parent searches: 999 without a slash, else the first entry named by the path up to the last one |
| Tarfs.Tarfs.GetPerInd | sys/tarfs.c:88-108 | the parent index of a directory |
| Tarfs.Tarfs.GetPerIndFile | sys/tarfs.c:110-130 | the parent index of a file |
| Tarfs.Tarfs.TarfsInit | sys/tarfs.c:132-172 | one entry per header with its name, size, type, address and parent, the rest of the array empty |
| Tarfs.ScanNext | sys/tarfs.c:207-217 | one step of the raw scan goes to the next header, or further through the closing zeros, and always forward |
| Tarfs.Tarfs.GetElfHeader | sys/tarfs.c:203-219 | ends on every name and returns the byte after the first header of that name, or 0 |
| Tarfs.Tarfs.OpenFile | sys/tarfs.c:257-277 | the address of the first file entry of that name, or 0 |
| Tarfs.LookupsAgreeIff | sys/tarfs.c:203-277 | getElfHeader(f) is openfile(f) + 512, or both are 0, if and only if f is not empty and its first header, if any, is a regular file |
| Tarfs.UniqueLookups | sys/tarfs.c:203-277 | with unique names: each regular file is found by both, absent names by neither, directories and the empty name by the scan alone |
| Tarfs.OpenFindsHeader | sys/tarfs.c:257-277 | a non-zero result of openfile is the address of a regular file's header of that name in the archive |
| Tarfs.Tarfs.ReadFile | sys/tarfs.c:313-335 | as many bytes as were asked for and are there go to the buffer, then a NUL, and the rest of the buffer is kept; the result is -1, or one below a negative request |
| Ustar.HeaderReads | include/sys/tarfs.h:20-38 | a header laid out as a tar writer does reads as the name, size and type flag put in, with the contents after it |
| Ustar.WrittenIsWellFormed | sys/tarfs.c:132-172 | in every archive below 2 GiB that a tar writer makes the walk finds, in order, a header for each member and no other |
| Ustar.IndexHoldsMembers | sys/tarfs.c:132-172 | tarfs_init's index of it has one entry per member, with its name, length, kind and the address its contents follow, and no more |
| Ustar.LookupsFindContents | sys/tarfs.c:203-277 | with unique names getElfHeader returns the address of the member's contents, openfile for a file that of the header before them, and both 0 for names not put in |
| Ustar.FilesReadBack | sys/tarfs.c:257-335 | opening a file by name and reading it gives back, byte for byte, as much of what was archived under that name as was asked for |
| Directories.IndexIsForest | sys/tarfs.c:152-165 | tarfs_init leaves an index whose parent links are right |
| Directories.ParentLinks | sys/tarfs.c:88-130 | every par_ind is 999, when the path has no directory prefix, or an earlier index, that of the directory naming the longest one |
| Directories.AncestorsArePrefixes | sys/tarfs.c:88-130 | following par_ind upwards ends, and visits exactly the directory prefixes of the path |
| Directories.ChildIffParent | sys/tarfs.c:302 | an entry lies immediately in a directory if and only if its par_ind names it |
| Tarfs.Tarfs.ReadDirect | sys/tarfs.c:279-310 | what is printed: the fixed text for the empty name, else entries with the directory's prefix whose par_ind is the last header of that name |
| Directories.ListsChildrenIff | sys/tarfs.c:279-310 | readdirect prints exactly the immediate children in archive order if and only if none of them follows a second header of the directory and the name is not empty |
| Directories.UniqueNamesListChildren | sys/tarfs.c:279-310 | with unique names it does for every name but the empty one |

## Left out

- Phymap.Machine.CopyTable: the three inner loops of the fork copy are one method, recursive on the level; the outermost is a loop of its own.
- Phymap.Machine.MapProcess: page tables are values in a map that is reassigned, not arrays in place; a table is reached by its frame number.
- Isr.UserStore: stores one byte; wider stores, and stores across a page boundary, are sequences of these.
- Elf.CopyIn: copies upwards, the direction memcpy takes when the file image lies above the segment, as the kernel's does.
- Elf.ElfLoad: the task's entry point and stack pointer are left out.
- Elf.PushArguments: reads all argument bytes before it stores any, as memcpy's direction guarantees unless two of the pages involved show one frame; the argument pages must be mapped.
- Phymap.Machine.StoreStructure: what the kernel stores in its structures is not modelled, only where.
- Elf.ElfLoad: program headers must not cover the heap or stack page, as they must not cover each other's.
- Tasks.Scheduler.SwitchTask: registers, kernel stacks and the hand-copied stack frame of fork are hardware; states, the running task and CR3 stay.
- Tasks.Scheduler.ExecProcess: gets the new address space as a parameter; Launch.LoadProcess makes it.
- Malloc.Allocator.MallocBytes: the result of brk is a parameter, unused for any other block; the branch for a NULL block is unreachable, since block_request has written through the pointer by then.
- Tarfs.Tarfs.TarfsInit: entries that are neither files nor directories would keep the previous entry's par_ind; archives holding them are not covered.
- Tarfs.Tarfs.GetElfHeader: C strings are Dafny strings here, so comparing and copying names character by character is not modelled.
- Tarfs.Tarfs.ReadDirect: printing is returned as a sequence of strings.
- Outcomes.ForkerPickedAgain: as for bounded waiting, no task is created by create_process after boot.
- SYSS_waitpid: it writes WAITING whatever the parent's state and walks the list while yield relinks it, so it is not a step of the scheduler.
- The map_virt_address and mapAllpages boot mappings: the same walk as map_process on the boot tables.
- VMA lists: nothing modelled depends on them.
- opendirect, a copy of openfile for directories.
- Tarfs.Tarfs.ReadFile: the buffer is an array of its own, apart from the archive; a request of -2^31, whose decrement C leaves undefined, is excluded.
- strcat, strncat, str_to_int and the other short string routines: easy, or not doing what they are for.
- The AHCI driver, keyboard, timer, printing, system-call wrappers, user programs and boot code: device protocols and thin glue.
- TLB effects, interrupts during kernel code, descriptor tables and the interrupt controllers.
