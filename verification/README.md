# Rest-OS memory, boot and scheduling, verified

This project models the core of the Rest-OS kernel and of its UEFI loader in Dafny and proves
what they are for. It is built in layers, and each layer's guarantee is the next one's assumption.

* **Words and entries** (`Bits`, `Entries`): the bit operations of the code on 64-bit words, and
  the fields that the processor reads out of a page-table entry (Intel SDM volume 3A, sections 4.5
  and 4.6).
* **Translation** (`Walks`, `Forest`, `Paths`): the processor's walk through four levels of tables
  in flat physical memory, and an ownership invariant over all trees at once. Kernel-half tables are
  shared by all address spaces; all other tables belong to one.
* **Mapping** (`PageTable`): `map_raw_option` on physical memory, proved against the translation of
  every page from every root: the target changes as asked, the rest of a larger leaf that covered it
  is unmapped, and nothing else moves.
* **Process mapping** (`ProcessMapping`): `map_raw_user` in any table and at any address, on the tree
  that one root reaches, and exactly when it changes what the reference table maps.
* **Frames** (`BootMap`, `FrameAlloc`): merging of the boot memory map, and the bitmap allocator as
  a set of free frames.
* **Memory manager** (`Spaces`, `MemoryModel`, `MemoryRuns`, `MemoryBoot`, `MemoryManager`): boot,
  new address spaces, user and kernel mappings and the vmalloc fault as steps of a state machine.
  Theorems about whole runs: separation of address spaces, stability and visibility of kernel
  mappings, no frame used twice, and kernel regions that tile their window. The class `MemoryManager`
  performs these steps with the code's loops; `New` joins the allocator's boot state to them, with the
  exact number of frames that boot takes.
* **Frames over runs** (`MemoryOwnership`, `ProcessImage`): every frame is free, a table, a data frame
  or outside, over every run from boot on; locked frames stay outside; and exactly which frames are
  lost. Setting up a program's image is one such run.
* **Kernel heap** (`Heap`, `HeapAlloc`): the intrusive free list inside a word array, refining first
  fit on blocks; safety and conservation over every run.
* **Loader** (`Elf`, `ByteView`, `Loader`, `LoaderCode`): the second page-table builder and the ELF
  image load. Bytes read through the table it built are the program image, and the number of table
  frames is exact.
* **Hand-over** (`HandOver`): exactly when the loader's table and the kernel's reference table agree on
  the image and on the stack.
* **Scheduler** (`Scheduler`, `SchedulerCode`): several cores over one queue as interleaved steps,
  with the page table that each core runs on, and the objects of the code refining them.
* **CPIO** (`Cpio`): the initrd reader as the inverse of a writer, and what it makes of broken archives.

Classes stand for the objects that the code updates in place, and methods keep its loops; a method
that would be too large for one proof is cut at its loop body. Physical memory is one store of
64-bit words that the boot-time view and the direct-mapped view both read and write. A method
result of `None` or `false` stands for the panic of an `expect` or `unwrap` where the code panics;
after such a result only what the contract says is promised.

What the code and the model share, such as tests, constants and places of fields, is tied to a meaning of
its own: `BootMap.SeparatedIff`, `MemoryBoots.KernelTranslates`, `Cpios.MatchesIff`,
`Scheduling.SwitchedTable`, `ProcessImages.StackIsReady`, `Elfs.HeaderExample` and the like.

Where the code differs from what its callers may expect, the model follows the code:

* `map_in_userspace` counts pages from the page of `vaddr`, so it covers the request exactly under
  the condition of `MemoryModel.CoversRequest`. Since it maps `size / PAGE_SIZE + 1` pages, two ranges
  that merely touch can share a page.
* Mapping a user page again replaces its frame, and nothing gives the old one back. So "no frame is
  lost" is false: `MemoryOwnership.StepLosesIff`, `RunLosesIff` and `BootLosesIff` say exactly when it
  holds, for one call, for a run, and in terms of the calls alone; `ProcessImages.ImageLosesIff` says
  it of a program's image.
* `PageTable::create` does not clear its frame. `Initialize` and `New` assume that the reference root's
  frame holds no present entry; `PageTables.EmptyRootIff` shows that nothing less will do, and
  `MemoryBoots.StaleRootTranslates` what happens otherwise. `create_page_table` needs no such
  assumption, because it overwrites all 512 entries.
* At boot the one store is an assumption of `Initialize` and `New` in two more ways. The boot-time view
  takes a physical address for a virtual one, which holds only for what the loader mapped to itself,
  the first 16M (uefi-loader/src/main.rs:431-440); the frames that become tables must lie there. And
  the loader's own tables, still in use, lie in memory that the map calls available
  (uefi-loader/src/main.rs:575-590); they must not be among the frames that are written.
* The results of `lock_region` are ignored at boot. `MemoryBoots.CreateFrameAllocator` states exactly
  which frames are free, `MemoryBoots.KernelIsKeptIff` when the kernel is safe from the allocator, and
  `MemoryOwnership.KernelUntouchedIff` the same of every run.
* `align_up` wraps around where overflow checks are off, for an alignment of the size of the remaining
  address space; with overflow checks on, as in a debug build, it panics at kernel/src/util.rs:54
  instead. `Bits.AlignUpOverflows` says when, `Heaps.OverflowFits` what the fit test makes of it, and
  `Heaps.AllocIsSafeIff` that allocation is safe exactly as long as the block it takes is not affected.
* `start` runs its thread on the kernel's table even if the process has its own, and `replace_image`
  leaves the core on the old table. `Scheduling.OnOwnTableIff` and `StepMisplacesIff` say exactly when
  cores run on the right table.
* `add_process` does not check that a process is new; `Scheduling.AddKeepsIff` says when that matters.
* The loader asserts neither that a segment's address is page-aligned nor that segments keep apart;
  `LoaderModels.ImageInPlaceIff` shows that the image is where it should be exactly if both hold, and
  `HandOver.UnalignedExample` and `SharedPageExample` what happens otherwise.
* `map_in_userspace` does not check that an address is in the user half. Where the process has a
  top-level entry, a kernel-half page is changed for everyone; `ProcessMappings.ReferenceKeptIff` is exact.
* The direct map has no upper limit. From 32 TiB on it runs into the vmalloc window, and
  `MemoryBoots.BootIsInvIff` shows that the manager's invariant then fails.
* Merging memory-map entries adds lengths, so an overlapping entry makes the merged one too long;
  `BootMap.MergeIsExactIff` gives the exact condition under which the result is the union.
* `map_raw` and `map_raw_user` have the same body, so kernel mappings carry the user bit too; the
  mappings stated here say so.

## Model

| member | source | states |
|---|---|---|
| `Bits.AlignUpIsLeast` | kernel/src/util.rs:53-55 | for every power of two and no overflow, `align_up` is the least multiple at or above its argument |
| `Bits.AlignUpOverflows` | kernel/src/util.rs:53-55 | `align_up` yields at least its argument if and only if the sum stays below 2^64; otherwise it yields 0 |
| `Bits.AlignDownIsMultiple` | kernel/src/util.rs:57-59 | `align_down` by a power of two is the multiple at or below the argument |
| `Entries.EntryReads` | kernel/src/arch/x86_64/page_table.rs:50-57 | the masks and flag tests of `Entry` read the present bit, the size bit and the frame that the processor reads |
| `Entries.EntryMade` | kernel/src/arch/x86_64/page_table.rs:46-65 | an entry ORed together from an aligned address below 2^52 and flags decodes to exactly that frame and those rights |
| `PageTables.IndexIsPath` | kernel/src/arch/x86_64/page_table.rs:425-433 | the shifts and masks of `index` select the entry of each of the four levels of the walk |
| `PageTables.TranslateMapping` | kernel/src/arch/x86_64/page_table.rs:103-152 | returns the physical addresses of exactly the entries that the processor reads for the address, and none below the leaf |
| `PageTables.HangTable` | kernel/src/arch/x86_64/page_table.rs:245-270 | zeroing a free frame and writing its entry keeps the state between two turns of the loop, with one more table on the way to the page |
| `PageTables.AddMissingTable` | kernel/src/arch/x86_64/page_table.rs:241-264 | a missing table takes the next free frame; without one nothing changes and none is left |
| `PageTables.NextTable` | kernel/src/arch/x86_64/page_table.rs:240-264 | one turn of the loop follows an existing table or adds an empty one, and keeps the loop state |
| `PageTables.CreateTables` | kernel/src/arch/x86_64/page_table.rs:240-264 | the loop ends with a full chain of tables down to the leaf and the address of its entry, having taken exactly one frame for each missing table, or with no frame left because there were fewer |
| `PageTables.WriteLeaf` | kernel/src/arch/x86_64/page_table.rs:266-279 | the last write maps exactly the block, with its flags, in every root that shares the tables, and keeps the tree well formed |
| `PageTables.MapRawOption` | kernel/src/arch/x86_64/page_table.rs:204-279 | succeeds if and only if no smaller table is in the way and there is a frame for every missing table, and takes exactly those; then every page of the block translates to `paddr` plus offset with the requested rights, the rest of a larger leaf that covered it is unmapped, and no other translation of any root changes; a blocked call or one without any frame changes nothing, and one that runs out half-way has broken up at most that larger leaf |
| `PageTables.MapRaw` | kernel/src/arch/x86_64/page_table.rs:154-178 | the same with the flags of a memory region; every table taken from the allocator is now in the tree and nothing else was written |
| `ProcessMappings.MapRawUser` | kernel/src/arch/x86_64/page_table.rs:180-202 | in any table of a process and at any address: maps the block, exactly when it can, in the roots that share the page with the process, and changes the reference table exactly as the next row says |
| `ProcessMappings.ReferenceKeptIff` | kernel/src/arch/x86_64/page_table.rs:180-279 | a call for a process leaves the reference table alone if and only if the page is a user page, the process has no top-level entry for it, or the reference table maps the block just so already: addresses are not checked |
| `ProcessMappings.KernelTextExample` | kernel/src/arch/x86_64/page_table.rs:180-279 | a call for the first page of the kernel text in a space created after boot makes the reference table read another frame there |
| `ProcessMappings.ViewIsValid` | kernel/src/arch/x86_64/page_table.rs:180-279 | the tables that one root reaches, through shared entries or its own, are a well-formed tree by themselves |
| `Forests.TableInstalled` | kernel/src/arch/x86_64/page_table.rs:245-258 | hanging an empty table into an entry unmaps exactly the pages of that entry, also where it replaces a larger leaf |
| `Forests.LeafWritten` | kernel/src/arch/x86_64/page_table.rs:266-276 | writing a leaf changes the walks that read its entry, and no other |
| `Forests.VisitsIffSees` | kernel/src/arch/x86_64/page_table.rs:103-152 | which roots reach a table is decided by its owner alone: the owning space, or for a kernel table every root that has the top-level entry |
| `PageTables.OneParent` | kernel/src/arch/x86_64/page_table.rs:240-264 | no table hangs in two entries, except that kernel-half tables hang at the same index of several roots |
| `PageTables.RightsAreTheLeafs` | kernel/src/arch/x86_64/page_table.rs:252-258 | the rights ANDed over all levels are those of the leaf entry |
| `Forests.WalkThrough` | kernel/src/arch/x86_64/page_table.rs:252-258 | a walk through a table yields what the table yields, restricted only by the user bit of the entries above |
| `PageTables.EmptyRootIff` | kernel/src/arch/x86_64/page_table.rs:82-93 | the frame that `create` does not clear can serve as a root if and only if none of its words has the present bit |
| `BootMap.BootInfo.AddMemoryMapEntry` | shared/boot/src/lib.rs:175-210 | the merge-and-restart loop terminates and leaves exactly the merged list; a full map of 128 entries is left alone and reported |
| `BootMap.BootInfo.DeleteMemoryMapEntry` | shared/boot/src/lib.rs:212-218 | swapping the entry to the end removes it and keeps the order of the others |
| `BootMap.MergeSeparates` | shared/boot/src/lib.rs:175-210 | between two entries of one type there is always a gap: one ends before the other starts |
| `BootMap.SeparatedIff` | shared/boot/src/lib.rs:183-193 | the merge test finds exactly the entries of the same type that leave no gap |
| `BootMap.MergeConserves` | shared/boot/src/lib.rs:197-199 | the total length of each type grows by exactly the length of the new entry |
| `BootMap.MergeCoversAll` | shared/boot/src/lib.rs:197-199 | everything the old entries and the new one cover stays covered |
| `BootMap.MergeIsUnion` | shared/boot/src/lib.rs:175-210 | when same-type inputs are disjoint the merged entries cover exactly the union |
| `BootMap.MergeIsExactIff` | shared/boot/src/lib.rs:197-199 | for a separated map the result covers exactly the union if and only if the new entry shares no point with an entry of its type |
| `BootMap.MergeOverlapExample` | shared/boot/src/lib.rs:197-199 | 0 to 10 and 5 to 15 merge into 0 to 20 |
| `BootMap.MergeKeepsOrder` | shared/boot/src/lib.rs:201-208 | the unmerged entries keep their order and the merged one comes last |
| `FrameAlloc.Bitmap.SetIndex` | kernel/src/mm/frame_alloc.rs:32-40 | changes the one bit and no other |
| `FrameAlloc.BitmapRegion.LockFrames` | kernel/src/mm/frame_alloc.rs:84-94 | takes exactly the given run of frames out of the free set |
| `FrameAlloc.BitmapRegion.AllocFrame` | kernel/src/mm/frame_alloc.rs:96-109 | the lowest free frame of the region, and `None` exactly when the region has none |
| `FrameAlloc.BitmapRegion.FreeFrame` | kernel/src/mm/frame_alloc.rs:111-119 | adds the frame to the free set |
| `FrameAlloc.BitmapFrameAllocator.Init` | kernel/src/mm/frame_alloc.rs:147-165 | one region for each available entry, in their order, disjoint, and the free frames are exactly the frames of available entries |
| `FrameAlloc.AvailableFrameIff` | kernel/src/mm/frame_alloc.rs:147-165 | the frames of available entries are those whose 4096 bytes all lie in one such entry |
| `FrameAlloc.BitmapFrameAllocator.AllocFrame` | kernel/src/mm/frame_alloc.rs:187-195 | the first free frame in the order of the regions leaves the free set; `None` exactly when it is empty |
| `FrameAlloc.BitmapFrameAllocator.FreeFrame` | kernel/src/mm/frame_alloc.rs:197-205 | a frame of a region becomes free again, any other is ignored |
| `FrameAlloc.BitmapFrameAllocator.LockRegion` | kernel/src/mm/frame_alloc.rs:167-183 | succeeds exactly when one region contains the range, and then takes its whole frames; otherwise nothing changes |
| `FrameAlloc.RunInOneEntry` | shared/boot/src/lib.rs:175-210 | because merged entries do not touch, a run of available frames always lies in a single entry |
| `MemoryBoots.CreateFrameAllocator` | kernel/src/mm/mod.rs:230-251 | which frames are free at start: the available ones without the first four and without the kernel, where each of the two runs is taken out if and only if all of it is available memory |
| `MemoryBoots.KernelIsKeptIff` | kernel/src/mm/mod.rs:240-248 | ignoring what `lock_region` returns keeps every frame with an address from `kernel_start` up to `kernel_end` out of the free ones if and only if that whole run is available memory, or each of its frames is none or among four locked first frames |
| `MemoryBoots.KernelLostExample` | kernel/src/mm/mod.rs:240-248 | a kernel of two pages of which the map calls only the first available leaves that page free |
| `MemoryManagers.MemoryManager.MapText` | kernel/src/mm/mod.rs:304-319 | maps the kernel text page by page to the kernel frames, with exactly one table for each 2M, 1G and 512G block it touches, or has fewer frames than that |
| `MemoryManagers.MemoryManager.MapDirect` | kernel/src/mm/mod.rs:321-333 | maps 2M blocks up to and including the highest address, with exactly one table for each 1G and 512G block that has none yet, or has fewer frames than that; no table of 4K pages is ever in the way |
| `MemoryBoots.PathIffNeeded` | kernel/src/mm/mod.rs:304-333 | at every moment of boot a table is on the way to a page if and only if a page mapped so far needs it: none is missing and none is there in vain |
| `MemoryBoots.TextMissing` | kernel/src/mm/mod.rs:304-319 | the next page of text lacks exactly the tables by which the count of touched blocks grows |
| `MemoryBoots.DirectMissing` | kernel/src/mm/mod.rs:321-333 | the same of the next block of the direct map, which from 119 TiB on shares the 512G block of the text |
| `MemoryManagers.MemoryManager.HighestAddress` | kernel/src/mm/mod.rs:290-298 | the highest end of an entry, 0 for an empty map |
| `MemoryManagers.MemoryManager.Initialize` | kernel/src/mm/mod.rs:276-351 | from a root without a present entry: afterwards every address of the text window up to the size of the kernel translates to `kernel_start` plus offset, and the direct-map address of every byte of every memory map entry to that byte; succeeds if and only if there is a frame for each of the tables, and takes exactly those; the invariant of the running manager then holds if and only if the highest address is below 32 TiB |
| `MemoryManagers.MemoryManager.New` | kernel/src/mm/mod.rs:253-274 | the manager comes up if and only if more frames are free at boot than the tables take, with exactly those frames as its pool and with the translations of the previous row, if available memory is installed and the first free frame has no present entry; the invariant of all runs holds if and only if the highest address is below 32 TiB |
| `MemoryBoots.WindowIsFreeIff` | kernel/src/mm/mod.rs:321-333 | the reference table maps nothing in the vmalloc window if and only if the highest address is below 32 TiB |
| `MemoryBoots.TextTranslates` | kernel/src/mm/mod.rs:304-319 | with `text` pages mapped from frame `first` on, the text window translates to that frame's address plus offset |
| `MemoryBoots.KernelTranslates` | kernel/src/mm/mod.rs:304-319 | the text window translates to `kernel_start` plus offset for every byte from `kernel_start` up to `kernel_end` |
| `MemoryBoots.DirectMapTranslates` | kernel/src/mm/physical_memory.rs:75-81 | the address `KernelPhysicalMemory` gives for `p` translates to `p`, for every `p` up to the highest address |
| `MemoryBoots.MemoryTranslates` | kernel/src/mm/mod.rs:290-333 | every byte of every entry of the memory map is read through its direct-map address |
| `MemoryBoots.BootIsInvIff` | kernel/src/mm/mod.rs:276-351 | the initialized manager satisfies the invariant from which all runs start if and only if the highest address is below 32 TiB |
| `MemoryBoots.StaleRootTranslates` | kernel/src/arch/x86_64/page_table.rs:82-93 | `create` does not clear its frame: if an old word in it names the frame itself, the new root translates a page nobody mapped |
| `MemoryManagers.MemoryManager.MapRegion` | kernel/src/mm/mod.rs:483-504 | every page of the region is mapped in order, to its given frame or to one that was free |
| `MemoryManagers.MemoryManager.AllocateKernelVm` | kernel/src/mm/mod.rs:371-396 | the region starts at the old next address, the next one starts right behind its pages, and the call is a kernel mapping step of the model |
| `MemoryManagers.MemoryManager.MapPhysicalToKernelVm` | kernel/src/mm/mod.rs:431-457 | the region starts at the old next address and is mapped to the frames from that of `paddr` on |
| `MemoryManagers.MemoryManager.MapInUserspace` | kernel/src/mm/mod.rs:398-429 | maps `size / PAGE_SIZE + 1` pages from the page of `vaddr` to frames that were free, records the region, and is a user mapping step of the model |
| `MemoryManagers.MemoryManager.CreatePageTable` | kernel/src/mm/mod.rs:354-369 | the new root is a step of the model: it translates like the reference table |
| `MemoryManagers.MemoryManager.PageFaultVmalloc` | kernel/src/mm/mod.rs:510-531 | copies the vmalloc entries 337 to 368 of the reference root and is a fault step of the model; panics exactly for a process without a memory space |
| `MemoryManagers.MemoryManager.PageFault` | kernel/src/mm/mod.rs:533-544 | serves exactly the faults in the vmalloc window, after which the address translates as in the reference table; any other fault changes nothing; panics exactly in the window for a process without a memory space |
| `MemoryManagers.MemoryManager.FindRegion` | kernel/src/mm/mod.rs:459-477 | finds the unique region that contains the address, exactly for addresses from `VMALLOC_START` up to the next address |
| `MemoryManagers.VmSlots` | kernel/src/mm/mod.rs:518-519 | the window covers the top-level entries 337 up to 369 |
| `MemoryManagers.Windows` | kernel/src/mm/mod.rs:32-46 | the entries at which direct map and vmalloc window start and end and the kernel text starts |
| `Spaces.ClonedWalks` | kernel/src/mm/mod.rs:354-369 | a root copied from the reference root translates like it, and no other translation changes |
| `Spaces.ClonedIsValid` | kernel/src/mm/mod.rs:354-369 | copying the root keeps all trees well formed, with shared kernel-half tables |
| `Spaces.SyncedWalk` | kernel/src/arch/x86_64/page_table.rs:405-423 | a copied top-level entry makes its pages translate as in the reference root, and nothing else |
| `MemoryModel.KernelHalfView` | kernel/src/mm/mod.rs:354-369 | a root translates a kernel-half page as the reference root does, or not at all, by whether its top-level entry is present |
| `MemoryModel.UserPageStep` | kernel/src/mm/mod.rs:404-426 | one page of `map_in_userspace` keeps the invariant and changes the one page of the one space |
| `MemoryModel.KernelPageStep` | kernel/src/mm/mod.rs:486-503 | one page of `map_region` keeps the invariant and changes the page in the roots that share it |
| `MemoryModel.RegionCommitted` | kernel/src/mm/mod.rs:379-393 | recording a mapped region keeps the regions tiling the window up to the next address, all of them mapped, and nothing beyond |
| `MemoryModel.SpaceIsCreated` | kernel/src/mm/mod.rs:354-369 | creating a space keeps the invariant |
| `MemoryModel.FaultKeeps` | kernel/src/mm/mod.rs:510-531 | serving a fault keeps the invariant |
| `MemoryModel.FaultSyncs` | kernel/src/mm/mod.rs:510-531 | after a fault every address of the vmalloc window translates the same in the process and in the reference table |
| `MemoryModel.FaultKeepsOthers` | kernel/src/mm/mod.rs:510-531 | a fault changes no other space, and no page outside the top-level entries 337 to 368 |
| `MemoryModel.CoversRequest` | kernel/src/mm/mod.rs:404-416 | the mapped pages cover the requested bytes if and only if the offset of `vaddr` in its page and the rest of the size together fit one page |
| `MemoryModel.UncoveredExample` | kernel/src/mm/mod.rs:404-416 | two bytes across a page boundary are not covered |
| `MemoryRuns.Separation` | kernel/src/mm/mod.rs:354-504 | over any run of operations the user half of a space translates as before unless something is mapped into that very space |
| `MemoryRuns.ReferenceStaysKernelOnly` | kernel/src/mm/mod.rs:354-504 | the reference table never maps anything in the user half |
| `MemoryRuns.KernelStable` | kernel/src/mm/mod.rs:354-531 | what the reference table maps stays mapped the same over any run, and outside the vmalloc window nothing is added |
| `MemoryRuns.KernelVisible` | kernel/src/mm/mod.rs:354-531 | what all spaces see of the kernel half, such as text and direct map, every space sees unchanged after any run, also the spaces created meanwhile |
| `MemoryRuns.LaterRegionsVisible` | kernel/src/mm/mod.rs:483-531 | after one fault every later region in an already present top-level slot is visible in the process without another fault, in all later states |
| `MemoryRuns.NoSharedFrames` | kernel/src/mm/mod.rs:398-504 | in every state two pages of user halves have different frames, none free and none a table |
| `MemoryRuns.RegionFramesPrivate` | kernel/src/mm/mod.rs:483-504 | a page of an anonymous kernel region has a frame that is not free, no table and no user page |
| `MemoryRuns.RegionFramesDiffer` | kernel/src/mm/mod.rs:483-504 | two pages of anonymous kernel regions have different frames |
| `MemoryRuns.RegionRights` | kernel/src/mm/mod.rs:483-504 | every address of a kernel region is mapped with the write and cache flags of the region, and with the user bit |
| `MemoryRuns.PhysicalRegion` | kernel/src/mm/mod.rs:431-457 | a mapping of page-aligned `paddr` sends result plus i to `paddr + i` |
| `MemoryOwnership.OneRole` | kernel/src/mm/mod.rs:371-504 | every frame of the pool is exactly one of free, table and data frame, and no other frame is any |
| `MemoryOwnership.RolesStay` | kernel/src/mm/mod.rs:371-504 | over any run a frame changes its role only by leaving the allocator: tables stay tables, and a data frame stays with its page |
| `MemoryOwnership.LockedStaysOut` | kernel/src/mm/mod.rs:240-248 | in every state of every run from boot on a locked frame is not free, no table and no data frame, and no user page maps it |
| `MemoryOwnership.KernelUntouchedIff` | kernel/src/mm/mod.rs:240-248 | the manager touches no frame of the kernel, in any run, if and only if the run of its frames could be locked or needed no lock |
| `MemoryOwnership.LostExactly` | kernel/src/mm/mod.rs:404-426 | a step loses exactly the frames of the pages that it maps although they were mapped |
| `MemoryOwnership.StepLosesIff` | kernel/src/mm/mod.rs:398-429 | where no frame is lost, `map_in_userspace` loses one if and only if one of its pages was mapped before |
| `MemoryOwnership.RunLosesIff` | kernel/src/mm/mod.rs:354-504 | no frame is lost over a run if and only if no call maps a mapped page again |
| `MemoryOwnership.BootLosesIff` | kernel/src/mm/mod.rs:354-504 | from boot on no frame is ever lost if and only if no two calls of `map_in_userspace` cover a page of the same space twice |
| `MemoryOwnership.TwoCallsExample` | kernel/src/mm/mod.rs:398-429 | two calls for the first page of a new space lose a frame |
| `MemoryOwnership.MappedIffCovered` | kernel/src/mm/mod.rs:398-429 | a user page is mapped after a run if and only if some call covered it |
| `MemoryOwnership.LastCallDecides` | kernel/src/mm/mod.rs:398-429 | a user page has the rights that the last call asked for, and always the user bit |
| `ProcessImages.MapImage` | kernel/src/process.rs:109-168 | setting up a program image is exactly one new space, one user mapping for each loadable segment in order and one for the stack |
| `ProcessImages.ImageIsMapped` | kernel/src/process.rs:126-166 | the user half of the new space maps exactly the pages of the segments and of the stack |
| `ProcessImages.SegmentRights` | kernel/src/process.rs:126-147 | a page of a segment that nothing later touches is a cached user page, writable if and only if the segment is |
| `ProcessImages.SegmentFlagsIff` | kernel/src/process.rs:126-140 | the region flags of a segment are the bits PF_R, PF_W and PF_X of its header |
| `ProcessImages.StackIsReady` | kernel/src/process.rs:158-174 | all 16K of the stack from 0x7000_0000_0000 on are mapped for the user to write, and the image starts with the stack pointer at their end |
| `ProcessImages.ImageLosesIff` | kernel/src/process.rs:126-166 | the image loses a frame if and only if two of its ranges, each a page longer than its size asks for, share a page |
| `Heaps.SizeAlignIsRequest` | kernel/src/mm/heap_alloc.rs:134-141 | the alignment is raised to 8, and the size is the least multiple of it that holds the layout and the 16 bytes of a node |
| `Heaps.AllocKeeps` | kernel/src/mm/heap_alloc.rs:144-171 | allocation keeps free and used blocks aligned, inside the heap and pairwise disjoint, and free, used and padding bytes add up to the heap, for every request that does not overflow in the block it gets |
| `Heaps.FreeKeeps` | kernel/src/mm/heap_alloc.rs:174-177 | freeing a block in use keeps the heap in order and its bytes accounted for |
| `Heaps.AllocReturns` | kernel/src/mm/heap_alloc.rs:79-171 | a returned block is inside the heap, aligned as asked and apart from every block in use; `None` exactly when no node fits |
| `Heaps.NoPadding` | kernel/src/mm/heap_alloc.rs:109-110 | requests aligned to 8 at most lose no byte |
| `Heaps.FreeThenAlloc` | kernel/src/mm/heap_alloc.rs:60-171 | freeing a block and asking for the same layout returns the same address and restores the free list |
| `Heaps.RunIsSafe` | kernel/src/mm/heap_alloc.rs:60-177 | over every run of allocations and matching frees the heap stays safe and no byte is lost but padding, which is 0 while no alignment above 8 is asked for |
| `Heaps.OverflowFits` | kernel/src/mm/heap_alloc.rs:106-131 | with an alignment for which `align_up` overflows, the fit test answers by the size alone and the address is 0 |
| `Heaps.AllocIsSafeIff` | kernel/src/mm/heap_alloc.rs:144-171 | a served request gets an aligned block inside the heap and apart from all used ones, and leaves the heap in order, if and only if start plus alignment does not overflow in the block that it gets |
| `Heaps.OverflowExample` | kernel/src/mm/heap_alloc.rs:106-131 | in a megabyte of heap at the end of memory a request aligned to 2 GiB yields address 0 |
| `HeapAllocators.RegionAnswer` | kernel/src/mm/heap_alloc.rs:106-131 | the answer is the lowest aligned address of the block with room for the request and a rest that is empty or holds a node, and `None` exactly when no address is such, if and only if rounding up does not overflow in the block or the answer is `None` |
| `HeapAllocators.Allocator.constructor` | kernel/src/mm/heap_alloc.rs:44-57 | after `init` the heap is one free block |
| `HeapAllocators.Allocator.AddFreeRegion` | kernel/src/mm/heap_alloc.rs:60-76 | its two assertions hold, the node becomes the first of the list, and only words of the block are written |
| `HeapAllocators.Allocator.FindRegion` | kernel/src/mm/heap_alloc.rs:79-103 | takes exactly the first fitting node out of the list in memory, and changes nothing when none fits |
| `HeapAllocators.Allocator.AllocMemory` | kernel/src/mm/heap_alloc.rs:144-171 | result and heap are those of the model, and no byte of a block in use changes |
| `HeapAllocators.Allocator.FreeMemory` | kernel/src/mm/heap_alloc.rs:174-177 | the heap is that of the model, only the freed block is written, and the other blocks keep their bytes |
| `HeapAllocators.Allocator.Alloc` | kernel/src/mm/heap_alloc.rs:183-189 | an address is aligned for the layout, inside the heap and apart from all blocks in use |
| `HeapAllocators.Allocator.Dealloc` | kernel/src/mm/heap_alloc.rs:192-199 | with the layout of the allocation it frees exactly that block |
| `HeapAllocators.Allocator.Store` | kernel/src/mm/heap_alloc.rs:8-16 | the nodes lie in free memory only: a write by the owner of a block leaves the free list intact |
| `HeapAllocators.ListIsAcyclic` | kernel/src/mm/heap_alloc.rs:11-17 | following the links visits every free block once and ends |
| `HeapAllocators.LeastBlock` | kernel/src/mm/heap_alloc.rs:12-17 | the least block is exactly the two words of a node |
| `HeapAllocators.NodePushed` | kernel/src/mm/heap_alloc.rs:67-75 | writing a node puts its block in front of the linked list |
| `HeapAllocators.Unlinked` | kernel/src/mm/heap_alloc.rs:89-96 | leading the link past a node removes exactly its block |
| `Elfs.HeaderRoundTrip` | shared/elf/src/lib.rs:403-435 | parsing a written 64-bit program header gives it back, whatever follows it in its table entry |
| `Elfs.HeaderExample` | shared/elf/src/lib.rs:403-435 | place, width and byte order of every field |
| `Elfs.ParsesIff` | shared/elf/src/lib.rs:360-377 | a header parses unless its type lies between the standard and the system-specific ones or above 0x7fff_ffff, and it is loadable if and only if the type is 1 |
| `Elfs.TableRoundTrip` | shared/elf/src/lib.rs:498-513 | iteration over a written table of headers, wherever it lies and however its entries are padded, yields those headers |
| `Elfs.PageCountIsLeast` | uefi-loader/src/main.rs:285-290 | the page count is the least number of pages that hold the memory size |
| `Elfs.LoadsIff` | uefi-loader/src/main.rs:269-274 | exactly the headers of the loadable type are segments |
| `LoaderModels.SegmentEndIs` | uefi-loader/src/main.rs:341-349 | a segment ends where the last of its pages does |
| `Elfs.HeadersArePrefix` | shared/elf/src/lib.rs:498-513 | iteration yields the headers up to the first one of unknown type and nothing after |
| `Elfs.ProgramHeaderIter.Next` | shared/elf/src/lib.rs:498-513 | yields the next header of that sequence, and stays where it is at its end |
| `ByteViews.CopyBytes` | uefi-loader/src/main.rs:369-372 | the bytes arrive at the address and nothing else changes |
| `ByteViews.WordIsBytes` | uefi-loader/src/main.rs:369-372 | the eight bytes of a word spell it, the lowest first |
| `Loaders.FrameAlloc.AllocZeroed` | uefi-loader/src/main.rs:159-180 | the next frame in order, cleared; out of frames exactly when all were handed out |
| `Loaders.NextTable` | uefi-loader/src/main.rs:223-245 | one turn of the loop follows a present entry or hangs a new empty table |
| `Loaders.MapPage4k` | uefi-loader/src/main.rs:197-254 | the page of `vaddr` maps to `paddr`, present and writable for the kernel only, the map is otherwise unchanged, and memory outside the loader's frames is not written |
| `LoaderModels.PageAdded` | uefi-loader/src/main.rs:197-254 | one call updates the map of the tree at one page |
| `LoaderModels.LoaderRights` | uefi-loader/src/main.rs:245-254 | exactly the pages of the map are mapped, for the kernel only, to read and to write |
| `LoaderModels.TablesAreBlocks` | uefi-loader/src/main.rs:223-239 | the tree has exactly one table for each 2M, 1G and 512G block with a mapped page, and its root |
| `Loaders.FramesAreBlocks` | uefi-loader/src/main.rs:159-180 | the frames handed out are the root, one for each such block, and the data pages |
| `Loaders.IdentityTakesTen` | uefi-loader/src/main.rs:431-440 | on an empty root the identity map takes exactly ten tables |
| `Loaders.GetPageCount` | uefi-loader/src/main.rs:265-295 | the pages of all loadable segments plus the 512 of the stack; panics exactly when a segment has another alignment than 4096 |
| `Loaders.LoadSegment` | uefi-loader/src/main.rs:328-387 | a segment's bytes are the file's and then zero, its pages are mapped in order, and bytes outside it and the loader's frames stay |
| `Loaders.MapInKernel` | uefi-loader/src/main.rs:313-390 | the map and the bytes of the whole image, and its physical and virtual ends |
| `Loaders.MapInStack` | uefi-loader/src/main.rs:403-422 | maps the 512 stack pages and returns the top |
| `Loaders.IdentityMap` | uefi-loader/src/main.rs:431-440 | maps the first 16M to themselves |
| `Loaders.PrepareTrampoline` | uefi-loader/src/main.rs:452-472 | the code arrives in its page, which is mapped to itself, and nothing else but the loader's frames is written |
| `Loaders.TakePage` | uefi-loader/src/main.rs:598-603 | the page of the boot information is a cleared frame of the loader that no table uses |
| `Loaders.PrepareKernel` | uefi-loader/src/main.rs:489-606 | the finished table maps image, stack, identity map, trampoline and boot information, image and trampoline are in memory, and the frames used are counted |
| `LoaderModels.LoadedImage` | uefi-loader/src/main.rs:313-390 | read through the finished table, byte `vaddr + i` of a segment is file byte `offset + i` below the file size and 0 from there up to the memory size |
| `LoaderModels.ImageInPlaceIff` | uefi-loader/src/main.rs:313-390 | the finished table reads every byte of every segment where the loader put it if and only if all segments start at a page and no two share one: the loader checks neither |
| `HandOver.UnalignedExample` | uefi-loader/src/main.rs:374-387 | a segment in the middle of a page is read from the middle of its place |
| `HandOver.SharedPageExample` | uefi-loader/src/main.rs:374-387 | of two segments in one page both are read in the place of the second |
| `LoaderModels.StackInPlaceIff` | uefi-loader/src/main.rs:403-422 | the stack lies above every segment, and is read at the pages behind the last one if and only if the highest end of a segment is page-aligned |
| `LoaderModels.OwnPlace` | uefi-loader/src/main.rs:431-472 | the first 16M, the trampoline and the boot information are read at their own addresses |
| `LoaderModels.SegmentsTile` | uefi-loader/src/main.rs:265-390 | the segments and the stack fill the counted physical pages without gap or overlap |
| `HandOver.HandOverIff` | kernel/src/mm/mod.rs:304-319 | the loader's table and the reference table translate the whole image alike if and only if every segment that has pages lies at `KERNEL_TEXT_START` plus the pages before it |
| `HandOver.StackHandOverIff` | kernel/src/mm/mod.rs:304-319 | both tables translate the kernel's stack alike if and only if it lies behind as many pages of kernel text as the image has |
| `Scheduling.ThreadsConserved` | kernel/src/scheduler.rs:48-155 | over any interleaving of steps of all cores the threads in the queue and on the cores are those at the start plus those added, none twice |
| `Scheduling.OneCoreOnly` | kernel/src/scheduler.rs:48-155 | no thread runs on two cores, and none waits while it runs |
| `Scheduling.StepKeeps` | kernel/src/scheduler.rs:48-155 | every step keeps the invariant and conserves the threads |
| `Scheduling.AddKeepsIff` | kernel/src/scheduler.rs:144-155 | `add_process` keeps the invariant if and only if none of its threads is queued or running or comes twice: the code does not check that |
| `Scheduling.AddTwiceExample` | kernel/src/scheduler.rs:144-155 | adding a process of one thread twice breaks the invariant |
| `Scheduling.SchedulePanics` | kernel/src/scheduler.rs:95-110 | `schedule` panics exactly when a ready core has no thread and the queue is empty; "Can't find cr3" is unreachable |
| `Scheduling.ExecPanics` | kernel/src/scheduler.rs:119-142 | `exec` panics exactly on a core without a thread |
| `Scheduling.SwitchedTable` | kernel/src/scheduler.rs:95-142 | after `schedule` and `exec` the core is on the table of its thread's process, or on the kernel's if that process has no memory space, which only a kernel process may lack |
| `Scheduling.NoTablePanics` | kernel/src/scheduler.rs:95-142 | without the invariant `schedule` and `exec` panic also exactly for a process that has no memory space and is not the kernel's |
| `Scheduling.OnOwnTableIff` | kernel/src/scheduler.rs:48-142 | exactly when a core runs its thread on the table of its process after a step: always after `schedule` and `exec`, after `start` only if the process uses the kernel's table |
| `Scheduling.StartOnWrongTable` | kernel/src/scheduler.rs:62-67 | `start` runs the thread of a process with a table of its own on the kernel's |
| `Scheduling.StepMisplacesIff` | kernel/src/scheduler.rs:48-142 | a step leaves every core on its right table if and only if it is no such `start` and replaces no image of a process that another table runs |
| `Scheduling.TablesAreOwn` | kernel/src/scheduler.rs:48-142 | over any run without such steps every core runs its thread on the table of the thread's process |
| `Scheduling.QueuePosition` | kernel/src/scheduler.rs:79-97 | a waiting thread moves up by one with every pop of any core, whatever is added meanwhile |
| `Scheduling.PickedInTurn` | kernel/src/scheduler.rs:95-97 | the thread at position k is picked by pop number k + 1 |
| `Scheduling.ContextsPreserved` | kernel/src/scheduler.rs:79-93 | a thread's saved registers are those of its last preemption, or those of its last image as long as at most one preemption followed |
| `Scheduling.PickResumes` | kernel/src/scheduler.rs:79-116 | the thread that `schedule` hands back is the first in line, with the registers it should resume with |
| `Schedulers.Thread.constructor` | kernel/src/thread.rs:62-98 | the registers of a new kernel thread, with `update` set |
| `Schedulers.KernelThreadEnters` | kernel/src/thread.rs:69-83 | a kernel thread starts its function in ring 0 with interrupts enabled, at the top of its 16K stack |
| `Schedulers.ImageEnters` | kernel/src/process.rs:104-107 | an image is entered in ring 3 with interrupts enabled, on the user segments |
| `Schedulers.Process.CreateKernel` | kernel/src/process.rs:33-83 | a kernel process can always find a table, and its one thread belongs to it |
| `Schedulers.Process.ReplaceImage` | kernel/src/process.rs:172-184 | the process runs on its own table and is no kernel process, and the thread enters the image with its next save skipped |
| `Schedulers.Shared.AddProcess` | kernel/src/scheduler.rs:144-155 | appends the threads of the process in order and lists the process |
| `Schedulers.Scheduler.Start` | kernel/src/scheduler.rs:48-68 | picks the first thread, for the kernel's table whatever its process; panics exactly with a current thread or an empty queue |
| `Schedulers.Scheduler.Exec` | kernel/src/scheduler.rs:119-142 | the running thread's registers and the table of its process; panics exactly without a thread or a table |
| `Schedulers.Scheduler.Schedule` | kernel/src/scheduler.rs:70-117 | requeues and saves the current thread, picks the first one with the table of its process, and does nothing on a core that is not ready |
| `Schedulers.Machine.Schedule` | kernel/src/scheduler.rs:70-117 | seen over the objects of all cores it is exactly the `Schedule` step of the model, and it panics exactly when that step does |
| `Schedulers.Machine.Start` | kernel/src/scheduler.rs:48-68 | seen over the objects of all cores it is exactly the `Start` step, with the table switched to and its panic |
| `Schedulers.Machine.Exec` | kernel/src/scheduler.rs:119-142 | seen over the objects of all cores it is exactly the `Exec` step, including its panic |
| `Schedulers.Machine.AddProcess` | kernel/src/scheduler.rs:144-155 | seen over the objects it is the `AddProcess` step for the threads of the process in order |
| `Schedulers.Machine.ReplaceImage` | kernel/src/process.rs:172-184 | seen over the objects it is the `ReplaceImage` step on the running thread and its process |
| `Schedulers.Machine.SetReady` | kernel/src/scheduler.rs:44-46 | seen over the objects it is the `SetReady` step |
| `Cpios.CPIO.ParseAt` | kernel/src/cpio.rs:26-82 | the field-by-field parser yields the sizes of a header all of whose fields parse |
| `Cpios.CPIO.ReadFile` | kernel/src/cpio.rs:120-161 | the loop yields what the archive says, and its offset grows until it stops |
| `Cpios.HeaderParses` | kernel/src/cpio.rs:46-78 | a written header parses to its two sizes |
| `Cpios.HeaderIff` | kernel/src/cpio.rs:46-81 | a header is read if and only if it starts with the magic number and all 13 fields are numerals; any other octal number is a failed assertion |
| `Cpios.MagicIff` | kernel/src/cpio.rs:52-62 | exactly the spellings 070701 and +70701 are taken for the magic number |
| `Cpios.NumeralIff` | kernel/src/cpio.rs:57-60 | a field parses if and only if it is one or more digits after at most one plus sign |
| `Cpios.DigitIff` | kernel/src/cpio.rs:57-60 | digits are 0 to 9 and a to f in either case, with their values |
| `Cpios.EncodeIsUtf8` | kernel/src/cpio.rs:131-132 | every encoding of Unicode text is accepted as a name |
| `Cpios.Utf8IsEncoded` | kernel/src/cpio.rs:131-132 | every name that is accepted is the encoding of some Unicode text |
| `Cpios.MatchesIff` | kernel/src/cpio.rs:136-150 | a name matches if and only if it is `./` and the path, or it is the path and that does not start with `./` |
| `Cpios.EntryRead` | kernel/src/cpio.rs:120-161 | an archive that starts with a written entry yields its contents, ends, or is read on behind it |
| `Cpios.CutOff` | kernel/src/cpio.rs:120-161 | what becomes of an archive that breaks off inside an entry, for every length: not found without a whole header, and a panic as soon as a byte is needed that is missing |
| `Cpios.RoundTrip` | kernel/src/cpio.rs:120-161 | for a written archive the reader returns the contents of the first entry whose name is the path, or the path behind `./` if the path has none itself, or nothing; only the trailer's own name finds the trailer |
| `Cpios.FieldFits` | kernel/src/cpio.rs:50-58 | a parsed field is below 2^32, so the 32-bit parser never overflows |

## Left out

- Unmapping (`unmap_raw`, `check_free_table`, `can_free_table`): reached only from a commented-out block, and `set_flags` can only add bits, so it would not unmap.
- Translation caches, CR3 loads, interrupt entry and exit, `switch_thread`, and the registers' way through the stack: hardware effects; a table is chosen by its root address only.
- The no-execute bit and the region flags READ and EXECUTE: the code gives them no effect on an entry.
- Firmware calls: the loader's frame block and image memory are parameters, assumed installed, aligned and apart from each other.
- Spin locks: each locked section is one atomic step.
- ELF identification and the file header: the program table's place and size are given; `Elf::parse` only copies them.
- The other archive kinds of the CPIO reader, which are unimplemented in the code.
- ACPI, PIC, APIC, serial, timers, descriptor tables, multiboot and the host build tool.
- Region names, `is_mapped`, and printing.
- MemoryManager failures: after a panic for want of frames, or a mapping that stops half-way, no state is described.
- 64-bit wrap-around of addresses and lengths, except in `align_up` and the heap's checked sum: addresses are natural numbers, and preconditions keep them below 2^64 where that matters.
- MemoryManagers.MemoryManager.Initialize: assumes a root frame without a present entry, tables within reach of the boot-time view and apart from the loader's, and a memory map below 119.49 TiB, where the direct map would reach the kernel text, because the code checks none of these.
- MemoryManagers.MemoryManager.New: assumes in addition that memory which the map calls available is installed.
- MemoryManagers.MemoryManager.AllocateKernelVm: requires room in the vmalloc window, because the bump allocator has no upper check.
- MemoryManagers.MemoryManager.MapPhysicalToKernelVm: requires room in the vmalloc window, for the same reason.
- MemoryManagers.MemoryManager.MapInUserspace: requires addresses of the user half, which the code does not check; `ProcessMappings.MapRawUser` is one page of it at any address.
- MemoryManagers.MemoryManager.FindRegion: visits the regions in any order, not in key order; at most one of them can contain the address.
- PageTables.MapRawOption: requires `paddr` aligned to the page and below 2^52, because `set_address` ORs the raw address; a kernel-half page of a process whose own top-level entry is absent is left to `ProcessMappings.MapRawUser`.
- Heaps.AllocKeeps: requires that rounding up inside the block it takes does not overflow, as do `Heaps.AllocReturns`, `Heaps.RunIsSafe` and the methods of `HeapAllocators`; `Heaps.AllocIsSafeIff` shows that this is exact.
- LoaderModels.LoadedImage: for page-aligned segments that share no page with each other, which `LoaderModels.ImageInPlaceIff` shows to be exact, nor with the stack, the identity map, the trampoline or the boot information; the loader checks none of this.
- Loaders.MapInStack: it, `identity_map` and the image loop share one helper for their common loop over pages.
- Loaders.LoadSegment: the file part of a segment must fit its pages, here and in `MapInKernel` and `PrepareKernel`; beyond them the code would overwrite what lies behind.
- Loaders.PrepareKernel: the contents of the boot information and the jump to the kernel are not part of it.
- Schedulers.Process.ReplaceImage: the address space is `ProcessImages.MapImage`; the switch to the new table in between is not modelled.
- ProcessImages.MapImage: the clearing of the stack's pages is not modelled; the code does not copy the program data yet.
- Scheduling.ThreadsConserved: a process is added once, with threads of its own; the code does not check that, and `Scheduling.AddKeepsIff` shows that it must.
- Cpios.RoundTrip: for names in UTF-8 and sizes that fit the header fields.
