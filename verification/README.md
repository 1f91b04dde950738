# A verified model of the kernel's memory, tasks, printing and console

This project models the core of a small 32-bit x86 kernel and proves properties
of it over all inputs, all states and all runs. It has four parts.

**Memory.** A bitmap hands out physical frames first fit (`Pm`, `FrameRuns`).
Page directories and page tables live in those frames; `vm_map_page` edits them
in place, and two cache frames make every directory share the kernel's and the
I/O range's tables (`Paging`, `Mapping`, `Windows`, `Directories`, `Vm`). The ELF
loader (`Bytes`, `Loading`, `ElfImage`, `Elf`) and fork (`Forking`, `CopyLoop`, `TaskMemory`,
`Fork`) build address spaces on top, through the steps of `UserMaps`. `BootMemory` compares
what `pm_init` frees with what the boot loader offers. Memory is one array
of frames of 1024 words, and a state of it is a value of type `Paging.Snap`:
contents, free frames, directories, tables and the two caches. Everything is
specified through `Paging.Walk`, the two-level walk of 32-bit paging (section 4.3
of the Intel SDM, volume 3A). The ghost field `slot` records which table frames
serve which directory index; `Inv` says that every present entry leads to such a
frame, and `Valid` adds that every directory is complete in both windows and that
directory entries give the rights they should. `Access` says what the pages of an
address space allow, as section 4.6 of the same volume combines the two levels.

**Tasks.** `Ring` and `Scheduling` give the ring, the scheduler and the four
events (fork, exit, yield, dispatch) on values; `Tasks` has the linked objects
that are edited in place and proves each operation equal to the event.
`StaleHead`, `WaitSafety` and `ShellWait` prove what holds over whole runs;
`ShellRun` and `TidReuse` are two runs, built event by event, that show where the
limits are. `Syscalls` joins the ring to the memory and the loader to fork, and
`Isolation` follows the programs of all live tasks over whole runs of its calls.

**Numbers.** `Radix` is the theory of digit reversal in base ten and sixteen;
`Printing` has the printers of `kprintf.c` and the parser of `usr/euclid.c`;
`Euclid` has the extended Euclidean algorithm with C's truncated division.

**Console.** `Console` has the 80 x 25 buffer with its in-place scrolling, against
a sheet that only grows.

Two predicates of `Words` say nothing about the kernel. `Holds(p)` is p, stated as
one fact: a large predicate is then handed from contract to contract whole and not
conjunct by conjunct, which keeps proofs small. `Sealed(p)` is p as well, but not
looked into before `Unseal`, for loops and calls that only pass it on.

## What the code needs from its surroundings

- Frame 0 is never free, because 0 means "out of memory". `FreedAboveKernel`
  shows that `pm_init` guarantees it.
- The kernel reaches a frame through `P2KH`, in the window that every directory
  maps, so the frames it is handed must lie below `KHEAP`. First fit hands those
  out first. `Enough(n)` asks for n free frames below `KHEAP` if there are any at or
  above it; if there are none, running out is modelled and needs nothing.
- `vm_init` clears neither cache frame. Their `present` bits must happen to be
  clear at boot; `Booted` says so.
- Flags given to `vm_map_page` are below 0x80: no 4 MiB pages.
- The region loops of `pm_init` end exactly under `StepsTerminate`; the converse is
  `StepsDiverge`.
- `task_fork` needs frames for the parent's run and a run within one directory
  entry, and checks neither; what `task_copy_vm` does without is among the findings.

## Findings

- "Every other page walks as before" is not true of `vm_map_page`: attaching a
  cached table brings that table's other pages along. `MapIsUpdateIff` says
  exactly when the plain map update holds; it fails on the first page of every
  directory but the first (`AttachingBringsPages`), and always holds without a
  cache (`UserWalks`).
- `task_exit` leaves `htask` alone. The ring at `htask` survives exactly when the
  exiting task is not `htask`, or is alone (`ExitKeepsRingIff`). In the shell's own
  pattern it is gone for good from the first child's exit on (`PatternRingIff`,
  `FirstExitBreaksRing`); exited tasks come back into the `next` cycle, and
  `StaleHeadRing` says which.
- Once the 8-bit tid has come round, `task_wait` can return too early. Wait safety
  holds of all runs with at most b tids exactly if b is at most 256 (`SafeIff`);
  `FlagIff` says what a flag means in any run. The shell's own pattern, one child at
  a time, is safe with any number of tids (`PatternFlagIff`, `PatternWait`). A
  failed fork's -1, which the shell passes on to wait, is no index of `is_running`
  (`WaitForFork`).
- `task_copy_vm` checks neither what `pm_alloc_frame` answers nor where the run
  ends. It isolates the child, with every frame still in its role, exactly if the
  run lies in one directory entry and there is a frame for each of its pages and
  one for their table (`CopyIsolatesIff`). Otherwise pages or the table go to frame
  0, or the parent's own table is changed.
- The table `task_copy_vm` allocates is not zeroed. So a child can itself be forked
  exactly if the word behind its run happens not to be present (`ForkableIff`).
- `pm_init` takes a region's length for its end address and skips the page at the
  kernel's end. It frees all pages a region offers past the kernel exactly if there
  are none: whenever a region reaches past the kernel, memory is lost
  (`RegionFreedIff`, `MapFreedIff`). Of a region of 126 MiB from 1 MiB on it loses
  the last MiB (`LastMegabyteLost`), of one that starts at 0 the page at the
  kernel's end (`FirstPageLost`).
- `pm_init` takes `mem_upper`, which counts KiB, for a byte address. It frees all
  upper memory past the kernel exactly if there is none (`UpperFreedIff`); with
  127 MiB it frees nothing (`NothingFreed`).
- `kputd` prints wrong numbers. It is right exactly when the digit reversal of the
  absolute value fits in 32 bits (`PrintedIff`); 1000000009 is one number that is
  printed as another (`TenDigitsFail`), and the most negative int is one more
  (`MostNegativeFails`).
- `toint` overflows on the last 48 ints although their value fits (`ParsesIff`): it
  adds the character before it subtracts '0'.
- `euclid` reaches the undefined quotient INT_MIN / -1 from exactly two pairs of
  arguments (`DefinedIff`).
- The loader's copy leaves its frame exactly for segments that do not lie in the
  first page of the file (`CopyStaysInFrameIff`), and the bytes land at `p_vaddr`
  exactly when `p_vaddr` is congruent to `p_offset` modulo the page
  (`LoadedBytes`).

## Model

| member | source | states |
|---|---|---|
| `Pm.FrameManager.LockFrame` | pm.c:12-15 | the or on one word of the bitmap removes exactly that frame from the free set |
| `Pm.FrameManager.FreeFrame` | pm.c:18-21 | the and-not on one word of the bitmap adds exactly that frame to the free set |
| `Pm.FrameManager.AllocFrame` | pm.c:24-41 | returns the least free frame and removes exactly it; 0 when none is free |
| `Pm.FrameManager.Init` | pm.c:44-79 | with bit 6 of the flags set, the free frames afterwards are exactly those that the regions written from mmap_addr to mmap_addr + mmap_length free, else those from the kernel's end to mem_upper; a map that is cut short or wraps is covered too |
| `Pm.FrameManager.FreeMap` | pm.c:58-69 | the walk over the entries ends, at mmap_addr + mmap_length on 32 bits, and frees exactly what they free |
| `Pm.WrittenMapFrees` | pm.c:58-69 | on a map written region by region the walk meets each region once, with its own fields |
| `Pm.WrittenMapTerminates` | pm.c:58-63 | such a map can be walked to its end if the page loops of its regions end |
| `Pm.TouchesIff` | pm.c:63 | the frames a page loop from addr to end is said to visit are those of addr, addr + 4096 and so on below end |
| `Pm.FrameManager.FreeEntry` | pm.c:62-68 | one entry adds exactly its frames, and only if it is AVAILABLE |
| `Pm.FrameManager.FreeRegion` | pm.c:63-67 | the page loop ends and frees exactly the pages of the region above the kernel |
| `Pm.FrameManager.FreeUpper` | pm.c:73-77 | frees exactly the pages from the kernel's end to mem_upper |
| `Pm.StepsDiverge` | pm.c:63 | outside the termination condition the 32-bit page loop stays below its end for ever |
| `Pm.FreedAboveKernel` | pm.c:63-77 | nothing below the end of the kernel is freed, so frame 0 stays locked |
| `Pm.FreedInsideAvailable` | pm.c:58-68 | with aligned regions every freed frame lies wholly inside an AVAILABLE region |
| `Pm.NextEntry` | pm.c:58-61 | stepping to the next map entry neither wraps nor skips |
| `BootMemory.RegionFreedIff` | pm.c:63-67 | every page a region offers past the kernel is freed exactly when it offers none there |
| `BootMemory.MapFreedIff` | pm.c:58-69 | the same for a whole map whose regions do not overlap: all offered pages are freed exactly when no region reaches past the kernel |
| `BootMemory.LastMegabyteLost` | pm.c:63 | with a region of 126 MiB at 1 MiB the frames of the last MiB stay locked |
| `BootMemory.FirstPageLost` | pm.c:64 | with a region of 128 MiB from 0 and a kernel up to 2 MiB, frame 0x200 stays locked and all above it are freed |
| `BootMemory.UpperFreedIff` | pm.c:73-77 | all that is freed is upper memory, and all of it is freed exactly when none lies past the kernel |
| `BootMemory.NothingFreed` | pm.c:73-77 | with mem_upper for 127 MiB and a kernel up to 2 MiB nothing is freed |
| `FrameRuns.Perform` | pm.c:12-41 | any sequence of calls takes the allocator through exactly the states of the set machine, with its answers; the set bits of the bitmap count the frames that are not free |
| `FrameRuns.NoDoubleHandout` | pm.c:24-41 | a frame handed out twice has been freed in between |
| `FrameRuns.StaysLocked` | pm.c:12-21 | a locked frame stays locked until it is freed |
| `FrameRuns.ZeroMeansEmpty` | pm.c:39-40 | the answer 0 means "no free frame" if and only if frame 0 is not free |
| `FrameRuns.Conservation` | pm.c:12-41 | over any run, free frames plus net frames handed out are constant |
| `FrameRuns.FreePlusLocked` | pm.c:9-41 | in every state the free frames and the set bits of the bitmap sum to 2^20 |
| `Words.BitOfOr` | pm.c:14 | digit by digit meaning of the or that packs flags and sets bitmap bits |
| `Words.BitOfAndNot` | pm.c:20 | digit by digit meaning of the and-not that clears bitmap bits |
| `Words.OrHigh` | vm.c:53-62 | or-ing flags into a word leaves the address above them alone |
| `Paging.Entry` | vm.c:62 | the packed entry is present and leads to the frame of pa |
| `Paging.CacheUsedIff` | vm.c:36-37 | the addresses each cache serves, and the entry of each |
| `Paging.TableFor` | vm.c:35-59 | the table used is never a directory or a cache; it is a free frame exactly when the code allocates, else the table of that index |
| `Paging.PdeFor` | vm.c:53-56 | the directory entry written leads to that table |
| `Paging.MappedByWrites` | vm.c:53-62 | the sequence of writes amounts to one simultaneous update of directory, cache and table |
| `Mapping.MapTouches` | vm.c:32-62 | which words a mapping writes: one of the table, and only if the directory had no table one of the directory and the same in the cache |
| `Mapping.MapRights` | vm.c:53-62 | the mapped page allows what the flags say, less what an older directory entry withholds |
| `Mapping.MapKeepsRights` | vm.c:53-56 | with the kernel's flags every directory and cache entry allows writing, and user programs exactly below KHALF |
| `Mapping.MapKeepsInv` | vm.c:26-65 | a mapping keeps all frames in their roles |
| `Mapping.MapWalks` | vm.c:26-65 | the walk of every page of the directory mapped in |
| `Mapping.MapWalksElsewhere` | vm.c:26-65 | any other directory changes only if it shares the table, and then only at that page |
| `Mapping.MapIsUpdateIff` | vm.c:26-65 | exactly when all other pages of the directory walk as before |
| `Directories.AttachingBringsPages` | vm.c:43-56 | the first kernel page mapped in a later directory brings the next one along |
| `Mapping.MapKeepsData` | vm.c:26-65 | no frame outside the paging structures changes or is freed |
| `Vm.Kernel` | vm.h:50-51 | the kernel address of a frame leads back to it, page aligned and never null |
| `Vm.TablePointer` | vm.c:61 | masking after P2KH finds the table whatever the flag bits |
| `Vm.KernelLoop` | vm.c:73 | the k-th address of the kernel loop and when it stops |
| `Vm.IoLoop` | vm.c:92 | the I/O loop ends by wrapping to 0 after exactly 8192 pages |
| `Vm.AddressSpaces.Alloc` | pm.c:24-41 | the least free frame, which is one below KHEAP as long as there is one, as a kernel address that leads to it |
| `Vm.AddressSpaces.AllocPte` | vm.c:11-23 | the least free frame, zeroed; 0 and no change exactly when none is free |
| `Vm.AddressSpaces.FindTable` | vm.c:36-51 | the cached table if there is one, else a new zeroed frame; a code and no change exactly when a frame is needed and none is free |
| `Vm.AddressSpaces.GetTable` | vm.c:32-59 | the table for va is found in the directory, the cache or a new frame, and entered where the code enters it |
| `Vm.AddressSpaces.MapPage` | vm.c:26-65 | succeeds exactly when no table is needed or a frame is free; on failure nothing changes and the code is 1 or 2; on success the state is the map update |
| `Windows.NextProgress` | vm.c:73-78 | one more page of a window keeps the loop invariant: walks, entries, sharing and the balance of frames |
| `Windows.NextOthers` | vm.c:26-65 | filling a window in one directory changes no translation in any other |
| `Windows.StuckMeansTooFew` | vm.c:39-50 | the loop fails only when fewer frames were free at its start than the cache lacked tables |
| `Windows.FullCount` | vm.c:69-100 | a filled window has taken exactly one frame for each table the cache lacked |
| `Vm.AddressSpaces.MapKernel` | vm.c:69-81 | the first 256 MiB at KHALF, or failure for want of frames |
| `Vm.AddressSpaces.MapIo` | vm.c:88-100 | the I/O range onto itself, or failure for want of frames |
| `Vm.AddressSpaces.NewPdir` | vm.c:103-125 | succeeds exactly with enough frames; the new directory walks as booted and nothing else has changed |
| `Vm.AddressSpaces.InitCaches` | vm.c:129-143 | succeeds exactly with two free frames; the two caches are there with their bounds and no tables, so the first directory will take 73 frames |
| `Vm.AddressSpaces.Init` | vm.c:127-152 | succeeds exactly with 75 free frames, takes exactly 75, and the kernel's directory walks as booted |
| `Directories.Finish` | vm.c:103-125 | both loops together give the boot translations and nothing else, with all tables shared |
| `Directories.EveryDirectoryBoots` | vm.c:103-125 | after any number of calls, failed ones included, every directory built translates exactly the boot map |
| `Directories.UncachedWalks` | vm.c:46-62 | mapping a window page by page without a cache gives its pages and leaves all others |
| `Directories.CachedAsUncached` | vm.c:103-125 | a directory built with the caches translates every page as one built without any |
| `Directories.RunCost` | vm.c:103-125 | over any run of successes only the first pays for the tables; every later one takes exactly 1 frame |
| `Directories.BootNeed` | vm.c:129-145 | after boot the first directory takes exactly 73 frames |
| `Access.EntryDecides` | vm.c:53-62 | between kernel operations the page-table entry alone decides below KHALF, and no page above it is open to user programs |
| `Access.WindowRights` | vm.c:69-100 | the kernel and nobody else may write every page of both windows, in every directory |
| `Access.NewDirectoryRights` | vm.c:103-125 | a new directory allows that and nothing else |
| `Access.UserPageRights` | vm.c:26-65 | a page mapped with user flags may be read and written by user programs |
| `Access.LoadedRights` | elf.c:66-70 | so may every page the loader maps |
| `Access.NewStackRights` | task.c:109-115 | and the stack of a new task |
| `Access.ForkedRights` | task.c:197-225 | a copied page allows the child what it allows the parent; its stack is open to it |
| `Access.SameRights` | vm.c:26-65 | a page that walks as before allows what it did |
| `UserMaps.UserWalks` | vm.c:46-51 | without a cache, mapping is a plain update of the translation |
| `UserMaps.UserKeepsKernelHalf` | vm.c:46-51 | a user mapping changes no kernel translation of any directory |
| `Bytes.SetFrameByte` | task.c:118 | a byte store into memory of words changes exactly that byte |
| `Elf.CopyBytes` | elf.c:63-65 | byte k of the destination is byte k of the source, all other bytes and frames are unchanged |
| `Elf.LoadPage` | elf.c:54-73 | allocate, copy, map: the page walks to a new frame holding the file's bytes; on failure nothing visible has changed and memory is exhausted |
| `Elf.LoadSegment` | elf.c:43-76 | the page loop of one header, with its three failures |
| `Elf.MapSections` | elf.c:28-80 | success reaches the state whose meaning is LoadedBytes; either way the kernel half of every directory, all earlier data, and every directory where it shares no table with this one are untouched, and the pages of this one are old or in new frames; failure only for want of frames or a segment at or above KHALF |
| `Loading.LoadStep` | elf.c:37-77 | one more segment keeps all earlier ones that it does not overlay |
| `Loading.LoadsSpare` | elf.c:66-70 | one more segment changes no translation of any other directory at an index where the two have no table in common, or where the image is not loaded |
| `Loading.ImageStays` | elf.c:30-41 | an image that lies in no page it loads reads the same through the directory after any number of its segments have been mapped |
| `Loading.ShellImageLiesApart` | usr/shell.c:148-156 | the image of euclid, at its place in the shell's data, is such an image |
| `Loading.LoadedBytes` | elf.c:45-75 | reading through the walk gives the file's bytes; at p_vaddr + k exactly when p_vaddr is congruent to p_offset |
| `ElfImage.HeaderReads` | elf.c:14-35 | of a file that starts with an Elf32_Ehdr, written field by field, the loader reads the magic, class and version, e_entry, e_phoff, e_phentsize and e_phnum that were written |
| `ElfImage.SegmentReads` | elf.c:35-65 | and p_type, p_offset, p_vaddr and p_filesz of the n-th Elf32_Phdr |
| `ElfImage.RecordLoaded` | elf.c:43-75 | loading puts byte p_offset + k of the file, for the p_offset and p_filesz of the record, on the page of its p_vaddr |
| `ElfImage.ImageIsImage` | elf.h:35-65 | the records written one behind the other make such a file |
| `Loading.PassesCover` | elf.c:43-61 | the passes of the page loop take every byte of the segment's file contents exactly once |
| `Loading.CopyStaysInFrameIff` | elf.c:59-65 | the copy stays in the allocated frame exactly for segments in the file's first page |
| `Forking.Retarget` | task.c:197-202 | the copied entry leads to the copy and keeps the low 12 bits |
| `Fork.WalkByHand` | task.c:178-190 | reading the two entries by hand agrees with the page walk |
| `Fork.CopyPage` | task.c:192-202 | one pass: the frame pm_alloc_frame gives, frame 0 if there is none, gets the page, on the first pass the next one becomes the table, and the entries are written |
| `Fork.TaskCopyVm` | task.c:169-207 | for a run of any length and any number of free frames, the loop makes exactly one pass for each page of the run, in order, on the entries as they were at the start |
| `CopyLoop.PassOk` | task.c:177-206 | a pass changes neither the parent's directory nor any table entry the loop has still to read |
| `CopyLoop.CopyIsolatesIff` | task.c:169-207 | the child is isolated and all frames keep their roles exactly when there is nothing to copy, or the run lies in one directory entry and there is a frame for each page and the table |
| `CopyLoop.TooLong` | task.c:198-202 | a run that leaves its directory entry is never isolated: from there on the parent's own table is written |
| `CopyLoop.Starved` | task.c:192-197 | nor is one that runs out of frames |
| `CopyLoop.OneFrame` | task.c:192-197 | with a single free frame a single page is copied to it and the table lands in frame 0 |
| `CopyLoop.CopiedWhile` | task.c:169-207 | with enough frames the loop's memory is that of the copy whose properties follow |
| `Forking.CopyNext` | task.c:177-206 | one more page keeps the invariant over fresh frames, new table and copied pages |
| `Forking.CopiedChild` | task.c:192-202 | page k of the child walks to its own fresh frame with the parent's flags and contents |
| `Forking.CopiedElsewhere` | task.c:169-207 | no other directory, and nothing of the child outside the run's entry, changes |
| `Forking.ForkableIff` | task.c:196-202 | the copied child, its stack mapped outside the run, has a run of the same length exactly when the word behind it in the unzeroed table is not present, or the run ends with its directory entry |
| `Forking.CopiedIsolated` | task.c:169-207 | the copy isolates the child's run from the parent's |
| `Forking.StackIsolated` | task.c:220-226 | mapping the child's stack keeps that isolation |
| `Forking.DirCopiedWalks` | task.c:218 | after the directory copy the child walks as the parent does |
| `Fork.TaskAlloc` | task.c:74-127 | succeeds exactly with enough frames, and tells how far it got; the new task's frames are distinct and new, its directory walks as booted plus its stack, the byte at its top is 0, and nothing that was there is disturbed |
| `Fork.MapStack` | task.c:104-118 | the stack page is mapped onto itself with user flags, or task_alloc fails for want of frames |
| `Fork.TaskFork` | task.c:209-237 | -1 exactly when task_alloc fails; otherwise the child's run is isolated from the parent's, outside the run's directory entry it walks as the parent but for its stack, every other data frame and, but for the stack's page in a shared table, every translation of every directory is as before, and the stack's page is no page of a run where that table is shared; with 1 the stack is mapped and the kernel stack copied |
| `TaskMemory.ForkIsolated` | task.c:218-226 | directory copy, page copies and stack mapping together, seen from before the fork |
| `TaskMemory.CopySpares` | task.c:218-219 | the copies change no translation of any older directory and no data |
| `TaskMemory.StackSpares` | task.c:220-226 | the stack mapping changes at most the page of the stack, in directories that share its table |
| `TaskMemory.ForkResult` | task.c:220-226 | the two outcomes of the stack mapping, both with an isolated run and everybody else spared |
| `TaskMemory.KernelStackIsolated` | task.c:228 | copying the kernel stack keeps the isolation |
| `TaskMemory.KernelStackForked` | task.c:228 | the child's kernel stack has the parent's contents, and all that the fork promised still holds |
| `Ring.InsertKeepsRing` | task.c:130-140 | from any well-formed ring, exactly one task is inserted, just before the old htask |
| `Ring.ExitKeepsRing` | task.c:58-63 | the exit of a task other than htask removes exactly that task, and fgtask becomes its successor |
| `Ring.ExitKeepsRingIff` | task.c:58-63 | a ring at htask survives an exit exactly when the task is not htask or is alone |
| `Tasks.Kernel.Link` | task.c:130-140 | the pointer writes equal the insertion on values |
| `Tasks.Kernel.TaskAlloc` | task.c:74-143 | when the tid is consumed and the task linked, by how far the allocations get |
| `Tasks.Kernel.TaskFork` | task.c:209-237 | the returned value and the new ring for each outcome; is_running is set only at the end |
| `Syscalls.TaskFork` | task.c:209-237 | the fork of fgtask: the free frames decide the outcome, and the outcome the ring, the tids, is_running and the answer; the child's record has its directory and kernel stack |
| `Syscalls.ForkByFrames` | task.c:74-236 | the same by the number of free frames alone: when nothing happens, when only the tid is used up, when the child heads the ring, and when it is flagged and its tid returned |
| `Syscalls.TaskAdd` | task.c:145-167 | an invalid image changes nothing; a valid one is loaded into a new task's address space and its entry address stored on the new stack, or it fails as task_alloc or the loader does; the task is linked in the ring even if its image cannot be loaded |
| `Syscalls.EntryRead` | task.c:164 | the new task reads the e_entry of its image byte by byte right above the top of its stack |
| `Syscalls.LoadedRun` | task.c:172-190 | an image that covers the pages from 0x08048000 on is, once loaded, a run as task_copy_vm copies it |
| `Syscalls.AddedTaskRuns` | task.c:145-190 | so a task that task_add has loaded can be forked |
| `Syscalls.Exec` | exec.c:9-25 | 1 exactly for an invalid image, which changes nothing; 2 for a load that failed; else fgtask's directory has the image and the low byte of the entry address is at uesp + 4 |
| `Syscalls.ExecByteRead` | exec.c:21 | the low byte of e_entry is read back at that address |
| `Syscalls.ForkThenExec` | usr/shell.c:155-156 | when the child of a fork loads an image into its run, the parent's run keeps its translations and bytes |
| `Isolation.MovesSeparate` | task.c:145-237 | a step that leaves all other programs alone and puts its own into old or new frames keeps all programs apart |
| `Isolation.StepMoves` | task.c:58-237 | fork, add, exec, exit and the stores of programs are all such steps, whether they succeed or fail |
| `Isolation.AlwaysSeparate` | task.c:58-237 | in every state of every run of them, no two live tasks have a frame of their programs in common |
| `Isolation.OnlyByOwner` | task.c:58-237 | over any stretch without a load, store or exit of its own, a live task's program keeps its translations and contents |
| `Isolation.ReadsTheSame` | task.c:58-237 | so it reads the same byte at every address of its program |
| `Tasks.Kernel.Unlink` | task.c:61-63 | the pointer writes of an exit, in their order, also when neighbours coincide |
| `Tasks.Kernel.TaskExit` | task.c:58-69 | equals the exit event; htask is not touched |
| `Tasks.Kernel.TaskYield` | task.c:49-56 | equals the yield event; nothing without a foreground task |
| `Tasks.Kernel.Dispatch` | task.c:25-41 | the skip loop ends at the first RUNNABLE task and makes it the running one |
| `Scheduling.AfterClosed` | task.c:25-143 | every event keeps all links inside the heap |
| `Scheduling.AlwaysOneRunning` | task.c:25-72 | in every state of every run at most one task is RUNNING, and it is fgtask |
| `Scheduling.DispatchFinds` | task.c:27-29 | if the cycle of length n holds a RUNNABLE task the loop finds one within n advances |
| `Scheduling.RoundMovesOn` | task.c:25-56 | a yield and a dispatch in an all-live cycle hand over to the next task |
| `Scheduling.RoundRobin` | task.c:25-56 | in any n consecutive rounds every task of an all-live cycle of n runs exactly once |
| `StaleHead.AlwaysStale` | usr/shell.c:155-158 | the invariant of the fork, wait, repeat pattern over whole runs |
| `StaleHead.StaleHeadRing` | task.c:58-140 | the next-cycle from the first task always holds it, any live child and all exited tasks but perhaps the last, and has exactly that length |
| `StaleHead.PatternRingIff` | task.c:60-63 | in a run of the pattern there is a ring at htask exactly as long as no child has exited |
| `ShellRun.FirstExitBreaksRing` | usr/shell.c:155-158 | a run of the pattern after whose first exit there is no ring |
| `StaleHead.PatternDispatches` | task.c:25-29 | in such a run the scheduler always finds a task, within one trip |
| `WaitSafety.AlwaysTracked` | task.c:23-236 | over runs with at most 256 tids the flags, tids and states agree |
| `WaitSafety.WaitSafe` | task.c:43-47 | is_running[i] is set exactly for a successfully forked task with tid i that has not exited |
| `WaitSafety.FlagIff` | task.c:69 | in every run, however many tids it uses, is_running[i] is set exactly when the last fork or exit of a task with tid i was a successful fork |
| `WaitSafety.WaitForFork` | task.c:43-47 | waiting for the value of any earlier fork: out of range after a failure, over at once when only the stack was missing, else over exactly once the child has exited |
| `ShellWait.PatternFlagIff` | usr/shell.c:155-158 | in every state of the fork, wait, repeat pattern, with any number of tids, is_running[i] is set exactly for the tid of the live child, if its fork succeeded |
| `ShellWait.PatternWait` | usr/shell.c:155-158 | so the wait for the last fork can return exactly once that child has exited |
| `TidReuse.WrapUnsafe` | task.c:91 | a run with 257 tids in which the wait for a live task returns |
| `TidReuse.SafeIff` | task.c:23-91 | all runs with at most b tids are wait safe if and only if b is at most 256 |
| `Radix.ReverseTwice` | kprintf.c:21-43 | the reversed accumulator printed backwards, then the stripped zeros, are the digits of the number |
| `Radix.Position` | kprintf.c:21-80 | the i-th digit from the right is the one that weighs the i-th power of the base |
| `Radix.NeverSpells` | kprintf.c:59-85 | the digits of a register never spell a number whose reversal exceeds the register |
| `Radix.RevBound` | kprintf.c:65 | a number of k digits has a reversal of at most k digits |
| `Printing.KPutX` | kprintf.c:17-44 | prints the hexadecimal digits of every 32-bit word; no shift loses a digit |
| `Printing.HexRoundTrip` | kprintf.c:17-44 | the digits printed parse back to n, without leading zero when n > 0 |
| `Printing.HexText` | kprintf.c:17-44 | zero is printed as 00, any other word with one symbol for each of its digits, the first not 0 |
| `Printing.HexFits` | kprintf.c:27 | the reversal of a 32-bit word fits in 32 bits |
| `Printing.KPutD` | kprintf.c:46-86 | exactly what is printed for every word, wrapped register and negative remainders included |
| `Printing.PrintedIff` | kprintf.c:46-86 | the canonical signed decimal if and only if the reversal is below 2^32; otherwise the text denotes another number |
| `Printing.DecimalShape` | kprintf.c:46-86 | the canonical decimal of 0 is 0, and negative numbers have a minus sign in front |
| `Printing.DecimalText` | kprintf.c:46-86 | that of a positive number has one symbol for each of its digits, the first not 0 |
| `Printing.OneDigit` | kprintf.c:36 | the symbols are 0 to 9 and A to F, and each parses back to its digit |
| `Printing.NineDigits` | kprintf.c:46-86 | numbers of at most nine digits are printed right and read back by toint without overflow |
| `Printing.TenDigitsFail` | kprintf.c:65 | the text printed for 1000000009 denotes 904560014 |
| `Printing.MostNegativeFails` | kprintf.c:52-66 | the text printed for the most negative int denotes -81780621 |
| `Printing.ToInt` | usr/euclid.c:25-35 | the loop computes the parsed value whenever no intermediate result overflows |
| `Printing.ParsesIff` | usr/euclid.c:25-35 | on any string of digits, leading zeros included, toint computes the value, without overflow exactly up to INT_MAX - 48 |
| `Printing.ParserInverts` | usr/euclid.c:25-35 | toint inverts the canonical decimal, without overflow exactly up to INT_MAX - 48 |
| `Printing.PrintThenParseIff` | usr/euclid.c:25-35 | exactly when printing and then parsing gives the number back |
| `Euclid.Euclid` | usr/euclid.c:9-23 | Bezout's identity, a common divisor, its sign, the bounds on the coefficients, and 32-bit arithmetic without overflow, for all ints for which C defines the call |
| `Euclid.Determined` | usr/euclid.c:9-23 | these determine d, x and y: no other values meet them |
| `Euclid.NonNegative` | usr/euclid.c:9-23 | for non-negative a and b, d is the greatest common divisor; it is 0 only if both are |
| `Euclid.SignedStep` | usr/euclid.c:18-21 | one level keeps the sign: that of a or of b, by the parity of the number of divisions |
| `Euclid.DivLaw` | usr/euclid.c:18-21 | C's truncated quotient and remainder satisfy the division law, with a remainder below the divisor |
| `Euclid.BezoutStep` | usr/euclid.c:18-21 | one level keeps identity and common divisor |
| `Euclid.BoundedStep` | usr/euclid.c:19-21 | one level keeps the bounds, and neither product nor difference exceeds half of the absolute value of a |
| `Euclid.Greatest` | usr/euclid.c:9-23 | every common divisor divides the result |
| `Euclid.DefinedIff` | usr/euclid.c:18-21 | the recursion meets INT_MIN / -1 from exactly two pairs |
| `Console.Vga.EncodeChar` | vga.c:19-24 | the or packs character and colour without overlap |
| `Console.Vga.Scroll` | vga.c:26-42 | in place, rows 1 to 24 move up and a blank row in the current colour comes in |
| `Console.Vga.SetColor` | vga.c:44-47 | the packed colour, nothing else |
| `Console.Vga.Init` | vga.c:49-61 | all 25 rows blank, white on black; the cursor stays |
| `Console.Vga.PutChar` | vga.c:63-93 | the window of the unscrolled sheet after the character, with row < 25 and col < 80 |
| `Console.Vga.PutString` | kprintf.c:9-15 | the window of the unscrolled sheet after any text |
| `Console.WindowStep` | vga.c:83-92 | scrolling before or after a step makes no difference |
| `Console.WindowRun` | vga.c:26-93 | over any run the console shows the last 25 rows of the sheet written without scrolling |
| `Console.HistoryKept` | vga.c:26-93 | rows that have left the window are never written again |
| `Console.PlainText` | vga.c:78-86 | printable text of any length is laid out in reading order, and nothing else is written |
| `Console.BackspaceBack` | vga.c:67-70 | a backspace takes back the cursor movement of a printable character |
| `Console.BackspaceKeeps` | vga.c:67-70 | it stays at the start of a row and changes no cell |
| `Console.CarriageReturn` | vga.c:74-75 | the start of the same row, no cell changed |
| `Console.TabStops` | vga.c:76-77 | the next multiple of four, or the start of the next row, no cell changed |
| `Console.NewLine` | vga.c:71-73 | the start of the next row, no cell changed |
| `Console.OthersIgnored` | vga.c:78 | any other character below the blank does nothing |
| `Console.ColoredCell` | vga.c:19-47 | a character is written at the cursor, its code in the low byte, foreground and background above it |
| `Console.ClearedCells` | vga.c:49-61 | white blanks on black, the cursor where it was |
| `Console.LinesLaidOut` | vga.c:71-86 | any number of short lines come out one to a row |

## Left out

- Assembly, MSRs, interrupt entry, GDT, IDT and TSS setup, APIC registers: hardware effects. A context switch is an atomic hand-over.
- Preemption inside kernel functions: each system call body and each turn of the scheduler is one step.
- The TLB, `lcr3`, and the accessed and dirty bits the processor sets by itself.
- Elf.LoadPage: the passes of the page loop after the first, because the source copies them outside the frame it has allocated (elf.c:63); `CopyStaysInFrameIff` says for which segments.
- Elf.LoadSegment: segments that reach past the file's first page, for the same reason.
- Elf.MapSections: images with such a segment, and zeroing of the rest of a segment in memory.
- Fork.TaskFork: too few frames for the run after task_alloc, and runs that cross a 4 MiB boundary; `CopyIsolatesIff` says what the copy is then, what the rest of the fork makes of it is not modelled.
- Fork.TaskFork: translations of the child in the run's directory entry outside the run, because the new table is not zeroed; sharing of the parent's user stack.
- Fork.TaskFork: the register frame, the context, and two words: task.c:231 stores one on the child's stack, task.c:232 goes through the register frame that task.c:228 has just overwritten, to the parent's stack address. The ghost parameter n is the length of the run.
- Syscalls.TaskFork: the same.
- Tasks.Kernel.TaskAlloc: how far the allocations get is a parameter here; `Fork.TaskAlloc` ties it to the free frames.
- Tasks.Kernel.TaskFork: the outcome is a parameter here; `Syscalls.TaskFork` ties it to the memory half.
- Syscalls.Exec: the image is one value, while elf.c reads it through the directory it changes; `ImageStays` says when that makes no difference. `uesp + 4` is to be mapped to data, which the source does not check.
- Elf.MapSections: the same about the image.
- Isolation.AlwaysSeparate: stacks, because parent and child share the parent's; a store in a run is one into a frame of no other task's program.
- Isolation.OnlyByOwner: the same.
- `task_init`, and `elf_get_entry`, which only reads the header.
- FrameRuns.Perform is a client that makes the calls of a run one after the other; the source has no such function.
- A copy of a whole frame (memcpy and memset of a page) is one assignment, and loading a segment copies its bytes in a loop.
- Some long functions of the source are split into several methods here, so that each proof stays small; their order of effects is the source's.
- Vm.AddressSpaces.Init: the frames the source loses when `vm_init` fails half way are lost here too, and nothing more is said about that state.
- `kprintf`'s format walk, varargs and the log messages; the serial port.
- Printing.ToInt: inputs on which C's int overflows, which C leaves undefined.
- The keyboard, the IDE driver, `string.c` beyond copying and filling whole ranges, and the user programs other than the parser and Euclid's algorithm.
