# ZeptoOS in Dafny

A model of the state-holding parts of the ZeptoOS kernel, with proofs of what they keep over whole
runs. Code that changes things in place is imperative Dafny (classes, arrays, loops with
invariants); each such method is proved against a specification function, and the laws of the
system are proved about those functions.

Bytes and words are natural numbers with explicit bounds; `Bits` defines `&`, `|` and single bits on
them. The kernel's masks are applied with these, its shifts are divisions by powers of two, and its
truncations are remainders.

- **Paging.** `Pmm` is the bitmap allocator, `Forest` a heap of radix tables without bit layout,
  `Supply` how many pages its operations need, `Histories` runs of all of them; `VmmX64`,
  `TablesI386` and `VmmI386` are the two managers over the words of physical memory,
  `TranslationX64` and `TranslationI386` what they mean for addresses, `ClientsX64` and
  `ClientsI386` their clients, `BootX64` the tables the boot code leaves. Three layers: words of
  memory decode to slots of a heap (`Describes`); the heap's tables carry a ghost tag saying where in
  the tree they stand, so that a slot is reached along one path only, except through roots that share
  it; walks of the heap are a flat table of pages per root. What the entries hold is stated as numbers
  of the words in memory, and the rights of an address over all levels of its walk. On the i386 the
  manager's own accesses go through the processor (`Mmu`): once paging is on, `Valid` holds the
  directory in use to reaching every table, and each access is proved not to fault.
- **Scheduling.** `Scheduler` is round robin as a state machine over events, `ContextSwitch` the
  machine under it: kernel stacks as rows of an array, the stub's pushes and pops, the TSS stack
  pointer. Every machine step is a scheduler step, for 64-bit and 32-bit frames.
- **File systems.** `Ext2` (geometry, inodes, contents), `Ext2Driver` (the code), `Vfs` (path
  resolution over one reused node, reads through the node found), `Tar` (the ustar image, its parser, reads and writes),
  `Directories` (the listing of whichever is mounted).
- **User-visible loops.** `Getdents` (packed directory records and the walk of `ls`), `Keyboard`
  (the ring and the edited line), `Vga` (the scrolling screen).
- `Bytes`, `Calls` and `Wrappers` hold byte slices, the calls on a manager and the option type.

A panic is a failure result after which the run is over (`None` or `false`). C strings are
sequences without NUL unless the NUL matters. What the code relies on without testing appears as a
precondition: flags that touch no address bits, no 2 MB leaf on the path of a map or unmap, a
directory block whose records lead forward, one-block directories, direct blocks only.

Where proofs meet choices of the code: the i386 lookup never tests the present bit of a table entry,
and is right only because such an entry is zero in every run; the x64 clone and both created spaces
share subtrees, so a later change under a present top-level entry shows through all of them; the
i386 clone shares nothing.

Where the code does not meet what a caller may expect, the exact condition is proved:

- `pmm_init` rounds both ends of an available range down, so it gives away memory that is not
  available exactly with a range that begins inside a page and frees some (`RangeIsAvailable`, with
  an input in `PartialPage`). It reserves all of a module exactly when the module's end rounds up
  below 4 GB (`ModuleIsReserved`).
- The i386 window that reaches the tables consists of ordinary entries, and nothing guards it.
  A directory that unmaps its own page, or maps another frame there, can no longer be used
  (`OwnPageLost`). A run keeps the tables in reach at every moment exactly when no call through the
  window touches a page that is or may become a table, unless it maps it to itself
  (`ReachableThroughout`); this can be told from the calls before the run. On x64 the window is made
  of 2 MB leaves and lasts through every history.
- `ext2_node_write` stores only what fits in one block, and never extends the file, though it
  returns the whole size. Whatever is written reads back exactly if the write stays in one block and
  inside the file (`WritesReadBack`; `PastEndInput` and `CrossingInput` are two that do not). In a
  block the file does not have it overwrites block 0 (`HoleIsBlockZero`).
- `tar_read` compares `offset + size` with the size in 32 bits, so a sum that wraps may not be cut
  (`ReadIsSlice`, with an input in `WrappedRead`). Such a read runs past 4 GB
  (`WrapLeavesMemory`), so where memory ends there it leaves memory.
- The screen gives a backspace no meaning. What the echo types on the paper the screen is a window
  of is the line as edited exactly when no consumed backspace deleted anything (`EchoShowsLine`, with
  an input in `ErasedStaysVisible`).
- A clone into the directory in use keeps the code's tables in reach exactly when the tables taken
  over reach them (`ReachableAfterClone`).

## Model

| member | source | states |
|---|---|---|
| Pmm.SetOneBit | kernel/mm/pmm.c:7-8 | setting a bit of the packed bitmap takes exactly that page out of the free ones |
| Pmm.ClearOneBit | kernel/mm/pmm.c:25 | clearing a bit by the complement mask frees exactly that page |
| Pmm.FreeAtBootInBytes | kernel/mm/pmm.c:13-49 | a page is free at boot exactly when an available range offers it and no byte of it lies below 1 MB, in the kernel image or in a module |
| Pmm.FreeHoldsNothing | kernel/mm/pmm.c:31-48 | the page of any such byte is never free at boot |
| Pmm.ModuleIsReserved | kernel/mm/pmm.c:43-47 | all of a module is reserved exactly when its end rounds up within 32 bits |
| Pmm.EmptyModule | kernel/mm/pmm.c:43-47 | a module without bytes reserves the page it would begin inside of, and no other |
| Pmm.RangeIsAvailable | kernel/mm/pmm.c:22-26 | the loop over a range frees only available memory exactly when the range begins on a page border or frees nothing |
| Pmm.PartialPage | kernel/mm/pmm.c:22-26 | a range that begins at 0x200800 frees the page at 0x200000 |
| Pmm.Allocator.constructor | kernel/mm/pmm.c:11-49 | after boot the free pages are exactly those in an available range and outside the low 1 MB, the kernel image and the modules |
| Pmm.Allocator.Init | kernel/mm/pmm.c:13-49 | the same of `pmm_init` on any bitmap and any parsed memory map |
| Pmm.Allocator.Alloc | kernel/mm/pmm.c:51-60 | the lowest free page is handed out and marked; failure only when nothing is free |
| Pmm.Allocator.FreePage | kernel/mm/pmm.c:62-67 | exactly the addressed page becomes free, and none beyond 16 MB |
| Pmm.Allocator.AllocPages | kernel/mm/pmm.c:69-91 | the lowest run of free pages is taken, exactly those bits change, and failure means no such run exists |
| Pmm.RunConserves | kernel/mm/pmm.c:51-91 | in every run whose clients give back only what they hold, free and held pages stay disjoint and their union constant |
| Pmm.GrantsAreExclusive | kernel/mm/pmm.c:13-91 | from boot on, no client is handed a held page, a page outside every available range, or one with a byte below 1 MB, of the kernel image or of a module; the count of free plus held pages never changes |
| Pmm.PerformOne | kernel/mm/pmm.c:51-91 | the bitmap allocator serves each call exactly as a pool of free and held pages does |
| Pmm.Perform | kernel/mm/pmm.c:13-91 | any list of calls on a freshly booted allocator is such a run, up to a panic or a page given back that is not held |
| Forest.WalkAfterAddChild | kernel/x64/vmm.c:14-24 | hanging a cleared table under an empty entry adds and removes no translation |
| Forest.GrowKeepsWalks | kernel/x64/vmm.c:26-39 | creating the intermediate tables of a path changes no translation through any table |
| Forest.GrowSpec | kernel/x64/vmm.c:26-39 | the descent keeps the heap valid, keeps every table and present entry, and ends at the last-level table its path reaches |
| Forest.ReachesExactly | kernel/x64/vmm.c:26-39 | a last-level entry is reached along one path only, and only by roots that share its first table |
| Forest.MapTranslates | kernel/x64/vmm.c:62-70 | a map changes the walks of its page through the roots that share its top-level entry, and no other walk |
| Forest.UnmapTranslates | kernel/x64/vmm.c:72-80 | an unmap ends exactly those walks |
| Forest.SharingStays | kernel/x64/vmm.c:14-80 | maps and unmaps never change which roots share a top-level entry |
| Forest.RunIsLastWrite | kernel/x64/vmm.c:14-110 | over every run of maps and unmaps through any roots, every walk is decided by the last operation that targets it |
| Forest.CreateSpaceTranslates | kernel/x64/vmm.c:48-55 | a created root walks like its origin, every older table as before |
| Forest.SharedSlotAgrees | kernel/x64/vmm.c:48-116 | two roots that share an entry agree below it after any run |
| Forest.PrivateSlotStays | kernel/x64/vmm.c:48-116 | below an entry a root shares with nobody in use, runs through other roots change nothing for it |
| Forest.CloneSlotsKeep | kernel/i386/vmm.c:75-94 | after the clone each present entry of the source leads to a table made for the destination, all other entries are as before |
| Forest.CloneSlotsTranslate | kernel/i386/vmm.c:75-94 | after any number of turns the destination walks like the source under the entries already cloned |
| Forest.CloneIsIndependent | kernel/i386/vmm.c:75-94 | a clone into a subset directory walks like the source, and later runs through one leave the other unchanged |
| Supply.GrowNeeds | kernel/x64/vmm.c:14-39 | the descent that creates tables panics exactly when fewer pages are free than tables are missing on the path, and else takes one page for each |
| Supply.MapNeeds | kernel/x64/vmm.c:62-70 | the same of a map |
| Supply.RunNeeds | kernel/x64/vmm.c:14-80 | a run of maps and unmaps with a free page for each level below the root and each map does not panic, and tables and free pages together stay the same |
| Supply.CloneNeeds | kernel/i386/vmm.c:75-94 | the deep clone panics exactly when fewer pages are free than the source has tables |
| Supply.CreateNeeds | kernel/x64/vmm.c:48-55 | a new space needs exactly one free page |
| Histories.DeedTranslates | kernel/x64/vmm.c:14-116 | one map, unmap, creation, clone, or frame taken or given back changes each root's walks only as the root it comes from and the write it sees say |
| Histories.HistoryTranslates | kernel/x64/vmm.c:14-116 | after any mixture of all these, every root that then exists walks as the flat meaning of the history says |
| VmmX64.TableEntryDecodes | kernel/x64/vmm.c:21-23 | the entry written for a fresh table is present, no leaf, leads back to its page, and carries all rights |
| VmmX64.PageEntryDecodes | kernel/x64/vmm.c:68 | the entry written by a map is a present leaf with the address bits of phys |
| VmmX64.PageEntryIs | kernel/x64/vmm.c:68 | as a number, the entry is the 40-bit page of phys plus flags with bit 0 set |
| VmmX64.PageEntryRights | kernel/x64/vmm.c:68 | its low three bits are those of flags and the present bit |
| VmmX64.LeafIsWalk | kernel/x64/vmm.c:82-110 | over the words of memory, the entry that ends a walk is the heap's, and the rights all levels have in common are that entry's |
| VmmX64.MappedInMemory | kernel/x64/vmm.c:62-70 | after a map the word in memory is phys's page and every flag of the call, and the rights over all levels are those asked for |
| VmmX64.PathDigits | kernel/x64/vmm.c:83-86 | the four nine-bit indices are the digits of the page number |
| VmmX64.PathIsPageNumber | kernel/x64/vmm.c:83-86 | two addresses have the same four indices exactly when bits 12 to 47 agree |
| VmmX64.PhysAddrIsWalk | kernel/x64/vmm.c:82-110 | the chain of reads over physical memory gives the address of the heap's walk, 2 MB leaves included |
| VmmX64.Manager.constructor | kernel/x64/vmm.c:41-46 | the manager takes over the tables in use |
| VmmX64.Manager.ClearPage | kernel/x64/vmm.c:7-12 | every word of the page becomes zero, no other word changes |
| VmmX64.Manager.FillEntry | kernel/x64/vmm.c:19-21 | an absent entry gets the lowest free page, cleared and linked, and nothing else changes |
| VmmX64.Manager.NextTable | kernel/x64/vmm.c:14-24 | one step of the descent, with and without create, including NULL and panic |
| VmmX64.Manager.PageTable | kernel/x64/vmm.c:26-39 | three steps make the whole descent to the last-level table |
| VmmX64.Manager.MapPage | kernel/x64/vmm.c:62-70 | the words of memory afterwards stand for the heap with the page mapped, and the page's entry and rights are those of phys and flags; it succeeds exactly when a page is free for every table missing on the path |
| VmmX64.Manager.UnmapPage | kernel/x64/vmm.c:72-80 | the words afterwards stand for the heap with the page unmapped, and no page was allocated |
| VmmX64.Manager.CreateAddressSpace | kernel/x64/vmm.c:48-55 | a fresh page becomes a root with the kernel's top-level entries |
| VmmX64.Manager.CloneAddressSpace | kernel/x64/vmm.c:112-116 | the destination holds the source's top-level entries, all else is unchanged |
| VmmX64.Manager.CopyTable | kernel/x64/vmm.c:113-115 | exactly the words of the target page become those of the source page |
| VmmX64.Manager.TakeFrame | kernel/mm/pmm.c:51-60 | a client's allocation takes the lowest free page out of those the tables may grow into |
| VmmX64.Manager.GiveFrame | kernel/mm/pmm.c:62-67 | a frame given back may be used again, and no table changes |
| TranslationX64.RunTranslates | kernel/x64/vmm.c:14-110 | over every run of maps and unmaps the lookup over memory equals the flat table page by page, for every address and root |
| TranslationX64.RunEntries | kernel/x64/vmm.c:14-110 | the entry that ends each walk, and the rights over all levels, are those of the last map seen there, flags included |
| TranslationX64.MapPageTranslates | kernel/x64/vmm.c:62-110 | after a map the page translates to the 40-bit page of phys plus the page offset, every other address as before |
| TranslationX64.UnmapPageTranslates | kernel/x64/vmm.c:72-110 | after an unmap the page translates to nothing, every other address as before |
| TranslationX64.CreatedSpaceTranslates | kernel/x64/vmm.c:48-55 | a created space translates every address as the kernel's, older spaces as before |
| TranslationX64.ClonedSpaceTranslates | kernel/x64/vmm.c:112-116 | after a clone the destination translates every address as the source did |
| TranslationX64.TwinRootsAfterRun | kernel/x64/vmm.c:48-116 | two spaces with equal top levels agree for ever under present entries; under absent ones changes through one stay invisible in the other |
| TranslationX64.Perform | kernel/x64/vmm.c:62-110 | performing any list of calls on the real memory ends in what the flat table says, for every root and address; three free pages for each map suffice |
| TranslationX64.LargeRunTranslates | kernel/x64/vmm.c:82-110 | no run of proper calls changes an address that a 2 MB leaf translates |
| ClientsX64.ServeAll | kernel/x64/vmm.c:48-116 | serving any mixture of maps, unmaps, new and cloned spaces and frames on the real memory ends, for every root and address, in what the history says |
| BootX64.SetupPageTables | kernel/x64/boot.s:63-82 | the boot code's words form a valid heap of three tables and touch no other word |
| BootX64.LargeEntryIs | kernel/x64/boot.s:73-80 | entry i of the last table is 2 MB times i plus 0x87 |
| BootX64.BootTranslates | kernel/x64/boot.s:63-82 | they map the first gigabyte to itself, present, writable and for users, and nothing else |
| BootX64.BootRunTranslates | kernel/x64/boot.s:63-82 | every run of proper calls keeps the first gigabyte on itself through the boot root |
| BootX64.BootHistoryTranslates | kernel/x64/boot.s:63-82 | so does every history, through every root, old or created, and all rights stay |
| BootX64.BootWindowReached | kernel/x64/boot.s:63-82 | so every table and every page of the allocator is always reached at its own address |
| TablesI386.SplitEntry | kernel/i386/vmm.c:84-86 | address part and flag part recombine to the entry, with the present bit in the flag part |
| TablesI386.TableEntryDecodes | kernel/i386/vmm.c:18 | the entry written for a fresh table leads back to its page with all rights |
| TablesI386.PageEntryIs | kernel/i386/vmm.c:58 | as a number, the entry a map writes is the page of phys plus flags with bit 0 set |
| TablesI386.PageEntryFlags | kernel/i386/vmm.c:58 | its low twelve bits, and its three rights bits, are those of flags and the present bit |
| TablesI386.CloneEntryDecodes | kernel/i386/vmm.c:91 | a cloned directory entry is the address of the copy plus all flag bits of the old entry |
| TablesI386.RightsAreEntry | kernel/i386/vmm.c:8-73 | no directory entry takes a right away: the rights both levels have in common are those of the table entry |
| TablesI386.EntryAtIsWalk | kernel/i386/vmm.c:68-73 | the lookup finds the walk's entry although it never tests that entry's present bit |
| VmmI386.NoFault | kernel/i386/vmm.c:24-39 | with the tables in reach the processor translates the address of every word of a table or free page to itself |
| VmmI386.ReachableAfterMap | kernel/i386/vmm.c:55-59 | a map leaves every table in reach exactly when it is harmless: not at such a page as the directory sees it, or to itself |
| VmmI386.ReachableAfterUnmap | kernel/i386/vmm.c:61-66 | the same of an unmap |
| VmmI386.ReachableAfterCloneSlot | kernel/i386/vmm.c:76-93 | a turn of the clone leaves every table in reach, through the destination exactly when the table taken over reaches those under it |
| VmmI386.ReachableAfterClone | kernel/i386/vmm.c:75-94 | the same, exactly, of the whole clone |
| VmmI386.Manager.GetPageTable | kernel/i386/vmm.c:8-22 | the table of an address, created from a cleared page when asked, with NULL and panic cases; without paging or with, no access faults |
| VmmI386.Manager.MapPage | kernel/i386/vmm.c:55-59 | the words afterwards stand for the heap with the page mapped; it succeeds exactly when no table is missing or a page is free, and the code can go on exactly when the call was harmless |
| VmmI386.Manager.UnmapPage | kernel/i386/vmm.c:61-66 | the words afterwards stand for the heap with the page unmapped; the code can go on exactly when the call was harmless |
| VmmI386.Manager.GetPhysAddr | kernel/i386/vmm.c:68-73 | the lookup, made through the processor, gives the address the words of memory say, and changes nothing |
| VmmI386.Manager.SwitchTo | kernel/i386/vmm.c:50-53 | the code can go on exactly when the new directory keeps every table in reach |
| VmmI386.Manager.InitPaging | kernel/i386/vmm.c:24-39 | exactly the pages below 16 MB are mapped: in memory each entry is the page's own address plus 7, and both levels together allow all; it succeeds exactly with five free pages, and every table is then in reach |
| VmmI386.Manager.CreateAddressSpace | kernel/i386/vmm.c:41-48 | a fresh page becomes a directory with the kernel's entries, and reaches the tables if the kernel's does |
| VmmI386.Manager.CopyDirectory | kernel/i386/vmm.c:44-46 | exactly the words of the new directory become the kernel's |
| VmmI386.Manager.CloneEntries | kernel/i386/vmm.c:82-90 | the copied table equals the original word for word |
| VmmI386.Manager.CloneTable | kernel/i386/vmm.c:76-93 | one turn gives the destination its own copy of a table, with the entry's flags; the code can go on exactly when its own tables stay in reach |
| VmmI386.Manager.CloneAddressSpace | kernel/i386/vmm.c:75-94 | the whole loop is the fold of those turns, also of a directory into itself, and succeeds exactly with one free page for each table of the source |
| TranslationI386.RunTranslates | kernel/i386/vmm.c:8-73 | over every run of maps and unmaps the words of memory hold the flat table's entry, phys's page plus the flags of the last map seen there, and both levels together allow what it allows; `ReachableThroughout` says which runs the code can make with paging on |
| TranslationI386.MappedEntry | kernel/i386/vmm.c:55-73 | a mapped entry keeps the address bits of phys and every flag, and is never taken for "none" |
| TranslationI386.CreatedSpaceTranslates | kernel/i386/vmm.c:41-48 | a created space holds the kernel's entry for every address, and shares exactly the present directory entries |
| TranslationI386.SharedEntryAgrees | kernel/i386/vmm.c:41-66 | directories that share an entry agree below it after any run |
| TranslationI386.CloneTranslates | kernel/i386/vmm.c:75-94 | after a clone into a subset directory both hold the source's old entry, with flags, for every address |
| TranslationI386.CloneRunsApart | kernel/i386/vmm.c:55-94 | any later run through one of them leaves every entry of the other as it was |
| TranslationI386.IdentityTranslates | kernel/i386/vmm.c:24-73 | right after init_paging addresses below 16 MB translate to their own page and none above |
| TranslationI386.ReachedAfterRun | kernel/i386/vmm.c:8-73 | after any run a page of the window is reached at its own address exactly when the last call seen there, if any, maps it to itself |
| TranslationI386.OwnPageLost | kernel/i386/vmm.c:55-73 | one call that unmaps the directory's own page, or maps another frame there, puts it out of reach |
| TranslationI386.ReachableThroughout | kernel/i386/vmm.c:8-73 | a run keeps every table in reach at every moment exactly when each call is harmless, as told before the run |
| TranslationI386.AwayIsHarmless | kernel/i386/vmm.c:55-66 | a call at a page that is no table and can become none is harmless, and so is one that maps a page to itself |
| TranslationI386.HighIsHarmless | kernel/i386/vmm.c:55-66 | a call above 16 MB is harmless |
| TranslationI386.KernelEntriesReach | kernel/i386/vmm.c:41-48 | after any run a root with the kernel's entries for the window reaches exactly the pages the kernel's directory does |
| TranslationI386.TablesStayReached | kernel/i386/vmm.c:8-73 | after a harmless run every table, created ones included, is reached at its own address through the directory in use and every root with its entries for the window |
| TranslationI386.Perform | kernel/i386/vmm.c:55-73 | performing any list of calls, harmless ones once paging is on, ends in what the flat table says with every table in reach; one free page for each map suffices |
| ClientsI386.ServeAll | kernel/i386/vmm.c:41-94 | serving any mixture of maps, unmaps, new and cloned spaces, switches and frames ends, for every root and address, in what the history says, with every table in reach |
| Scheduler.FirstFromNearest | kernel/core/scheduler.c:71-79 | the selected task is the first active one round the circle; none only if none is active |
| Scheduler.SelectsNearest | kernel/core/scheduler.c:63-81 | if any task is active after a scheduling step the running one is, and no active task was passed over |
| Scheduler.ActiveAfter | kernel/core/scheduler.c:20-61 | after a step exactly those are active who were, less the running task that exits, and the task created while fewer than ten were |
| Scheduler.NobodyLeft | kernel/core/scheduler.c:63-81 | when no task is active, the interrupted context goes on |
| Scheduler.ExitIsForever | kernel/core/scheduler.c:20-61 | an exited task never becomes active again |
| Scheduler.WaitingGetsNearer | kernel/core/scheduler.c:63-81 | each call of schedule while a task waits brings the selection nearer to it |
| Scheduler.BoundedWaiting | kernel/core/scheduler.c:20-81 | a task that stays active is selected within ten calls, no other twice in between, whoever exits or is created meanwhile |
| Scheduler.SelectedWithinTen | kernel/core/scheduler.c:20-81 | ten calls of schedule select every active task that is not running, whatever else happens |
| Scheduler.SavedStays | kernel/core/scheduler.c:63-81 | what a waiting task resumes with never changes while it waits |
| Scheduler.ResumesAsInterrupted | kernel/core/scheduler.c:63-81 | a task interrupted and running again, at once or after others ran, has the registers, instruction pointer, flags and stack it was interrupted with |
| Scheduler.StartsAsCreated | kernel/core/scheduler.c:20-54 | a created task first runs with the context it was created with |
| ContextSwitch.Machine.constructor | kernel/core/scheduler.c:12-18 | after scheduler_init no task exists and the idle loop runs on the boot stack |
| ContextSwitch.Machine.Push | kernel/x64/irq.s:11-26 | the pushes of an interrupt below any stack offset leave the context as a frame and touch nothing else |
| ContextSwitch.Machine.Enter | kernel/x64/irq.s:11-26 | interrupt entry leaves exactly the interrupted context as a frame at the top of the stack the TSS names: twenty words on x64, thirteen on i386, eleven from i386 kernel mode |
| ContextSwitch.Machine.Leave | kernel/x64/irq.s:31-46 | the return restores the context a frame holds |
| ContextSwitch.Machine.FindNext | kernel/core/scheduler.c:71-79 | the modulo search over the slots in use finds the first active task of the circle |
| ContextSwitch.Machine.Schedule | kernel/core/scheduler.c:63-81 | the caller's pointer is saved, the selected task's pointer returned and its kernel stack put in the TSS |
| ContextSwitch.Machine.SwitchFrom | kernel/core/scheduler.c:63-81 | schedule and the return resume the selected task's context, and every other active task stays one full frame below its stack top |
| ContextSwitch.Machine.SwitchFromInside | kernel/core/scheduler.c:56-81 | the interrupt a finished task raises inside its system call: a second frame is pushed, and either forgotten for another task or popped before the first |
| ContextSwitch.Machine.TimerInterrupt | kernel/i386/irq.s:9-16 | a timer interrupt from user mode or from the idle loop is a timer step, on both architectures |
| ContextSwitch.Machine.ExitSyscall | kernel/core/scheduler.c:56-61 | an exit, with its nested interrupt, is an exit step |
| ContextSwitch.Machine.TaskCreateUser | kernel/core/scheduler.c:20-54 | a creation is a creation step: below ten slots the task gets the next number, is active, and its stack holds the start frame; else nothing changes |
| ContextSwitch.Machine.BuildFrame | kernel/core/scheduler.c:29-39 | the built frame ends the kernel stack with user segments, interrupts on and no privileged flag, entry point, user stack top and zero registers, and touches no other stack |
| ContextSwitch.StartFlags | kernel/core/scheduler.c:33 | of the flags pushed, exactly the interrupt flag and the constant bit 1 are set |
| ContextSwitch.Perform | kernel/core/scheduler.c:12-81 | a list of ticks, exits, creations and computing takes the machine through the run of the scheduler that exactly these make, in order |
| ContextSwitch.PerformRounds | kernel/core/scheduler.c:63-81 | within any commands with ten ticks or exits among them, from the first tick on if the idle loop runs, the machine runs every active task |
| ContextSwitch.PerformResume | kernel/x64/irq.s:11-46 | a task the machine interrupts and runs again has its whole context back |
| ContextSwitch.StartsAtEntry | kernel/core/scheduler.c:20-54 | a created task starts at its entry point with zero registers, in the user segments at privilege level 3, with interrupts on and no privileged flag, at its own user stack top |
| Ext2.ScaleIsProduct | kernel/fs/ext2.c:38-39 | block offsets, quotients and remainders are those of the block size |
| Ext2.InodeSlot | kernel/fs/ext2.c:21-30 | block and slot of an index name record `index` of the flat inode table, for block sizes 1024, 2048, 4096 |
| Ext2.InodeRoundTrip | kernel/fs/ext2.h:33-51 | an inode laid out field by field in its 128 bytes reads back |
| Ext2.InodeInTable | kernel/fs/ext2.c:18-31 | so does inode n from byte `block size * table block + 128 * (n - 1)` of the disk |
| Ext2.BlockAt | kernel/fs/ext2.c:8-11 | byte k of block n is byte `block size * n + k` of the disk |
| Ext2.ContentAt | kernel/fs/ext2.c:38-49 | byte k of a file is byte `k % block size` of direct block `k / block size` |
| Ext2.WriteKeepsInodes | kernel/fs/ext2.c:71-84 | a write to a data block changes no inode |
| Ext2.WriteKeepsOthers | kernel/fs/ext2.c:71-84 | a file without the written block keeps every byte |
| Ext2.WriteReadsBack | kernel/fs/ext2.c:71-84 | the written file holds the data at the offset and its old bytes elsewhere |
| Ext2Driver.Driver.ReadBlock | kernel/fs/ext2.c:8-11 | the front of the buffer becomes the block |
| Ext2Driver.Driver.WriteBlock | kernel/fs/ext2.c:13-16 | exactly the block's bytes change |
| Ext2Driver.Driver.ReadInode | kernel/fs/ext2.c:18-31 | the fetched inode is the 128-byte record of the flat table |
| Ext2Driver.Driver.ReadChunk | kernel/fs/ext2.c:38-50 | each turn makes progress, stays inside file and request, and copies exactly its slice of the file |
| Ext2Driver.Driver.ReadData | kernel/fs/ext2.c:33-53 | the chunk loop copies exactly the requested slice of the concatenated blocks |
| Ext2Driver.Driver.NodeRead | kernel/fs/ext2.c:65-69 | a read returns `min(size, i_size - offset)` bytes, none past the end, equal to that slice |
| Ext2Driver.Driver.NodeWrite | kernel/fs/ext2.c:71-84 | exactly the addressed bytes of one direct block change on the disk; what does not fit in the block is dropped, though the whole size is returned |
| Ext2Driver.WritesReadBack | kernel/fs/ext2.c:65-84 | every data of a size reads back after a write exactly if the write stays in one block and inside the file |
| Ext2Driver.ReadsBackInside | kernel/fs/ext2.c:65-84 | inside the file a write reads back exactly when the part it dropped was there already |
| Ext2Driver.PastEndInput | kernel/fs/ext2.c:71-84 | four bytes past the end of a file of ten are all stored, and none is read |
| Ext2Driver.CrossingInput | kernel/fs/ext2.c:71-84 | of four bytes across a block border two are stored, and the read returns something else |
| Ext2Driver.HoleIsBlockZero | kernel/fs/ext2.c:74-82 | a write in a block the file does not have overwrites block 0 |
| Ext2Driver.WriteFits | kernel/fs/ext2.c:71-84 | a write inside the file and one block is one the driver accepts and stores whole |
| Ext2Driver.Driver.NodeReaddir | kernel/fs/ext2.c:86-115 | the index-th used record, its name cut at 127 bytes |
| Ext2Driver.Driver.NodeFinddir | kernel/fs/ext2.c:117-158 | the static node shows the inode of the first used record with the name, even when it is itself the directory asked |
| Ext2Driver.SameName | kernel/fs/ext2.c:130-137 | record name and C string match exactly when they are equal |
| Ext2Driver.DirectoryBit | kernel/fs/ext2.c:147 | an inode is a directory exactly when bit 14 of its mode is set; mode 0x41ED is one, 0x81A4 is not |
| Ext2Driver.DirectoryRoundTrip | kernel/fs/ext2.c:55-61 | a directory laid out record after record is well formed and reads back as its records in use |
| Ext2Driver.FindDistinct | kernel/fs/ext2.c:117-158 | with distinct names a lookup of entry i's name finds entry i |
| Ext2Driver.FoundIsEntry | kernel/fs/ext2.c:117-158 | a lookup succeeds exactly when an entry has the name, and gives the inode of such an entry |
| Ext2Driver.ReaddirThenFinddir | kernel/fs/ext2.c:86-158 | the name readdir gives at an index leads finddir to the same inode |
| Vfs.SlashSplits | kernel/fs/vfs.c:79-91 | a slash splits a path into independent lists of components |
| Vfs.ExtraSlashes | kernel/fs/vfs.c:79-91 | repeated and trailing slashes change nothing |
| Vfs.SlashIs | kernel/fs/vfs.c:82-86 | paths are split at the character `/` |
| Vfs.ResolveSplits | kernel/fs/vfs.c:70-93 | resolving a path is resolving its parts in turn |
| Vfs.FileSystem.MountRoot | kernel/fs/ext2.c:187-195 | the node ext2 makes for inode 2 becomes the mounted root and stands for it |
| Vfs.FileSystem.MountInitrd | kernel/main.c:45-46 | a parsed initrd's directory becomes the mounted root |
| Vfs.FileSystem.MountAt | kernel/fs/vfs.c:95-110 | "/" replaces the root, by an ext2 node, a tar node or nothing, and the first row of the mount table; another path takes the next row or fails when eight are used |
| Vfs.FileSystem.Finddir | kernel/fs/vfs.c:63-68 | a lookup on a node of either file system is the lookup in the directory it stands for; files and NULL have none |
| Vfs.FileSystem.CopyToken | kernel/fs/vfs.c:80-85 | one token is copied whole and the slash after it passed |
| Vfs.FileSystem.ResolvePath | kernel/fs/vfs.c:70-93 | the walk over text reaches the place of the fold of lookups over the non-empty components from the mounted root, though on ext2 all steps share one node |
| Vfs.FileSystem.VfsRead | kernel/fs/vfs.c:38-41 | a read on a node returns the slice of the file it stands for, from either file system, and nothing on NULL or a tar directory |
| Vfs.FileSystem.ReadPath | kernel/fs/vfs.c:38-93 | resolving a path and reading as many bytes as the node's length says gives the whole file the path leads to, on either file system |
| Vfs.InitrdPath | kernel/fs/tar.c:57-74 | under a parsed image a path of one component leads to the first recorded file of that name and its bytes |
| Vfs.ReadFromInitrd | kernel/main.c:43-51 | parsing an image, mounting it and opening a path gives that file's bytes, and nothing exactly when no recorded file has the name |
| Tar.OctalRoundTrip | kernel/fs/tar.c:17-25 | an octal field of any width reads back as the number written |
| Tar.HeaderFields | kernel/fs/tar.h:4-12 | the header has the name at 0, eleven octal digits of size at 124 and the type at 156 |
| Tar.FilledModes | kernel/fs/tar.c:118-131 | in octal the directory has mode 755 and every file mode 644 |
| Tar.RoundedIsLeast | kernel/fs/tar.c:115 | data is padded to the least multiple of 512 that holds it |
| Tar.Initrd.ParseOctal | kernel/fs/tar.c:17-25 | the value up to the first non-octal byte, in 32 bits |
| Tar.Initrd.Record | kernel/fs/tar.c:102-113 | a file is appended to the table unless 32 are recorded |
| Tar.Initrd.FillNodes | kernel/fs/tar.c:118-152 | the directory node, and each file's node and directory entry, carry number, flags, mask, size, functions and name; `NodeOpens` says where the number leads |
| Tar.Initrd.Parse | kernel/fs/tar.c:92-155 | on the image of any list of files the walk ends and records the first 32 names, sizes and data addresses in order, each with its node |
| Tar.Initrd.Finddir | kernel/fs/tar.c:57-74 | the node of the first recorded file with the name |
| Tar.Initrd.Read | kernel/fs/tar.c:27-40 | the bytes of the file the node's inode names, from the offset on, cut at its size as the 32-bit comparison decides |
| Tar.ReadIsSlice | kernel/fs/tar.c:31-34 | a read stays inside the file exactly when it asks for nothing past the end or the sum does not wrap below the size, and is then the slice asked for |
| Tar.WrappedRead | kernel/fs/tar.c:31-34 | an input whose sum wraps and is not cut |
| Tar.WrapLeavesMemory | kernel/fs/tar.c:31-38 | such a read runs past 4 GB |
| Tar.Initrd.Write | kernel/fs/tar.c:42-50 | exactly the addressed bytes of memory of the file the node's inode names change |
| Tar.LookupFindsData | kernel/fs/tar.c:57-155 | with distinct names a recorded file's name leads to exactly its bytes |
| Tar.ChunksAreOneRead | kernel/fs/tar.c:27-40 | any cutting of a read into chunks returns the same bytes |
| Tar.WholeFile | kernel/fs/tar.c:27-40 | chunks that cover the size return the whole file |
| Tar.ReadByName | kernel/fs/tar.c:27-155 | parsing an image, finding a file by name and reading through its node in chunks of any sizes returns its bytes |
| Tar.NodeOpens | kernel/fs/tar.c:27-152 | the node left for recorded file i leads tar_read to that file's bytes, and its length is how many they are |
| Tar.LoadByName | kernel/main.c:45-51 | parse, find and one read of the node's length give exactly the first recorded file of the name, or nothing when there is none |
| Tar.WriteByName | kernel/fs/tar.c:42-155 | writing through the node found leaves the image of the updated list, and the node then reads the updated bytes |
| Tar.ExtentsApart | kernel/fs/tar.c:96-116 | the data of a file ends before every later header and before the end block |
| Tar.ImageUpdate | kernel/fs/tar.c:42-50 | storing bytes inside a file turns the image into the image of the updated list |
| Tar.WriteIsUpdate | kernel/fs/tar.c:42-116 | after an in-bounds write memory holds the image of the updated list: read back exactly, other files unchanged, same table |
| Getdents.RecLenFits | kernel/x64/syscall.c:98-99 | the record length is the least multiple of 8 not below 24 + n + 1 on x64, of 4 not below 12 + n + 1 on i386, and the name with its NUL fits |
| Getdents.FitIsLongest | kernel/x64/syscall.c:93-102 | the packed entries are the longest prefix whose records fit in count |
| Getdents.WriteRecord | kernel/x64/syscall.c:103-110 | exactly the record's bytes are written; `RecordAt` says what a reader finds in them |
| Getdents.SysGetdents | kernel/x64/syscall.c:84-115 | the buffer holds the longest fitting prefix of the mounted root's listing, each record with its fields where the struct has them; nothing past the returned length changes, -1 without a root |
| Getdents.RecordAt | kernel/i386/syscall.c:107-114 | record k holds d_ino in bytes 0 to 8, d_off in 8 to 16, d_reclen in 16 to 18 and the name from 18 on x64, at 0, 4, 8 and 10 on i386; both lengths lead to record k + 1 |
| Getdents.FirstRecord | user/init.c:78-81 | a reader of the user's struct finds the name, its NUL and the way to the next record |
| Getdents.ListNames | user/init.c:77-82 | the walk over packed records ends and yields their names in order |
| Getdents.Ls | user/init.c:74-83 | kernel and user side together: the names of the longest prefix of the root's listing that fits in 1024 bytes |
| Getdents.LsInitrd | kernel/fs/tar.c:92-155 | on a freshly parsed image those are the names of its first files, in image order |
| Directories.VfsReaddir | kernel/fs/vfs.c:56-61 | the index-th entry of whichever file system's directory the node is; none for a file |
| Directories.TarListing | kernel/fs/tar.c:52-55 | a parsed image lists its first 32 files, numbered from 1 |
| Directories.Ext2Listing | kernel/fs/ext2.c:86-115 | an ext2 directory laid out on the disk lists its records in use, in order, names cut at 127 bytes |
| Directories.Ext2ListingValid | kernel/fs/ext2.c:86-115 | every well-formed ext2 directory can be listed |
| Keyboard.RingIsFifo | kernel/core/keyboard.c:34-69 | in every interleaving of keys and reads, what was taken followed by what waits is what was accepted; a key is dropped exactly when 255 wait; no zero is stored |
| Keyboard.RingHolds | kernel/core/keyboard.c:39-43 | of keys pressed while nothing is read the first 255 characters are kept |
| Keyboard.KeyRows | kernel/core/keyboard.c:8-21 | the rows of scancodes from 2, 16, 30 and 43 type the rows of a keyboard |
| Keyboard.OtherKeys | kernel/core/keyboard.c:8-36 | escape, backspace, tab, enter and space; modifiers, unused codes and releases type nothing |
| Keyboard.Driver.Handler | kernel/core/keyboard.c:34-46 | a key event appends its character or drops it, as in the queue |
| Keyboard.Driver.Poll | kernel/core/keyboard.c:48-56 | every 100000th poll asks the controller, and no scancode is lost or invented |
| Keyboard.AskedInTurn | kernel/core/keyboard.c:48-56 | after the controller was asked, 99999 polls ask nothing and the next takes one answer |
| Keyboard.Driver.GetChar | kernel/core/keyboard.c:58-69 | it polls once and then only while no character waits, and takes the oldest one |
| Keyboard.Driver.SysRead | kernel/x64/syscall.c:44-68 | the buffer holds the edited line of exactly the characters consumed, and the screen shows their echo, which is that line if nothing was deleted |
| Keyboard.EditKeeps | kernel/i386/syscall.c:48-72 | the line consists of the characters no later backspace deletes; it is at most len long and ends in newline unless it filled len |
| Keyboard.BackspaceUndoes | kernel/x64/syscall.c:51-57 | a character and the backspace after it leave no trace |
| Keyboard.EchoShowsLine | kernel/x64/syscall.c:51-65 | for all characters consumed, the echo puts the line as edited on the screen's paper exactly when none of them deleted anything |
| Keyboard.ErasedStaysVisible | kernel/x64/syscall.c:51-57 | one character typed and deleted: the line is empty, the screen has four cells more, with their colour |
| Vga.TypedIsWrapped | kernel/core/vga.c:25-45 | typing text character by character lays out its lines wrapped at 80 columns, one below the other |
| Vga.BlankFromCursor | kernel/core/vga.c:9-45 | every cell at or after the cursor is blank |
| Vga.CharacterShown | kernel/core/vga.c:9-45 | a character whose row has not left at the top is shown at its row and column, before the cursor |
| Vga.TopIsLeast | kernel/core/vga.c:9-43 | the screen scrolls only when a cell more would leave it |
| Vga.WindowShows | kernel/core/vga.c:5-43 | every cell has colour 0x0F and the character laid out there, or a space |
| Vga.SerialOf | kernel/core/serial.c:26-33 | a newline goes over the serial line as carriage return and newline, any other character as itself |
| Vga.Screen.Scroll | kernel/core/vga.c:9-17 | rows move up by one, the last becomes blank, the cursor goes to its start |
| Vga.Screen.Kcls | kernel/core/vga.c:19-24 | the screen shows an empty paper |
| Vga.Screen.WriteChar | kernel/core/vga.c:28-43 | one character moves the window exactly as typing it on the unbounded paper does |
| Vga.Screen.TtyWrite | kernel/core/vga.c:25-45 | the same of any C string, which also goes over the serial line with a carriage return before each newline |
| Vga.Screen.WriteAll | kernel/core/vga.c:19-45 | after `kcls` and any strings the screen is the last 25 rows of the wrapped lines, each cell colour 0x0F and its character or a space, the cursor where they end |

## Left out

- TLB invalidation, CR3 and CR0 writes, segment registers, GDT, IDT and TSS packing: hardware effects, except the TSS stack pointer, which is modelled.
- Port I/O: PIC, PIT, serial and PATA registers; the disk is an array of bytes moved in whole blocks.
- The byte layout of Multiboot records: `pmm_init` starts from parsed entries and modules. The end of the kernel image plus 4095 is assumed below 4 GB.
- Physical memory above 16 MB: no table lies there, since the allocator covers 16 MB; reads of tables stay below.
- Mapping or unmapping below a 2 MB leaf: `next_table` would take the leaf for a table, so a caller must avoid it.
- On x64 the manager's accesses are to physical memory, since the window that reaches the tables always lasts (`BootX64.BootWindowReached`); only the i386 manager goes through the processor.
- VmmX64.Manager.ClearPage: zeroes word by word, where the code stores byte by byte; the page's contents are the same.
- Scheduler state before `scheduler_init`, and interrupts that arrive while the kernel itself runs: its gates mask them, except the `int $32` of an exit, which is modelled.
- ContextSwitch.Machine.Enter: the pushes are a loop over the list of registers, not one statement a register; the kernel's C code on the stack is any change below the frame.
- ext2 indirect blocks, block groups other than 0, directories of more than one block, `ext2_mount` and its superblock parsing.
- Ext2Driver.Driver.NodeWrite: writes that pass the end of the 4096-byte block buffer are excluded; the code would write beyond it.
- Path components of more than 127 bytes and tar names of 100 bytes, for which the code writes or reads past its buffers.
- Tar.Initrd.Read: a read whose sum wraps must still lie in memory, which excludes it when memory ends at 4 GB.
- Getdents.SysGetdents: counts within 152 of 4 GB are excluded, where `pos + reclen` would wrap.
- Tar.Initrd.Write: does not test the size, so only in-bounds writes keep the image; `Tar.WriteIsUpdate` is about those.
- Stub operations (`tar_mkdir`, `tar_link`, `sys_open`, `sys_close`, `ext2_unmount`), `vfs_umount`, `vfs_link`, `vfs_unlink`: call-only or plain table shifts.
- `vfs_write`, `vfs_open` and `vfs_close`: the same dispatch as `vfs_read`; the writes behind them are modelled.
- The system call switch, the shell's other commands, `kmain`, the ELF loader.
- Keyboard.Driver.SysRead: a read whose controller answers run out before the line is complete is reported as unfinished.
- `kernel/scheduler.c` and `kernel/drv/`: older duplicates that the build does not use.
