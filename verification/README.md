# Harmony: frames, page tables, capabilities and cells

A Dafny model of the core of the Harmony kernel, with proofs. Harmony keeps a 16-bit word for every
physical frame (a state and a reference count) and builds everything else on it: page tables, kernel
objects behind counted pointers, capability tables linked into tries. The model follows that structure.

- **Frames.** `RetypeEntries` is the packed word and the (state, count) machine it stands for;
  `RetypeTables` the table and the operations of frames; `Ownership` the protocol of handles, as
  interleaved atomic steps of any number of actors; `FrameAllocators` the allocator that works on the
  table; `BootMemory` the allocator that works on the bootloader's memory map, and the making of the table.
- **Address spaces.** `VirtualAddresses` and `PageTableEntries` are the two bit layouts; `PageTables`
  is memory, the translation walk of section 4.5 of the Intel 64 and IA-32 Architectures Software
  Developer's Manual, volume 3A, and the forest that page tables form; `AddressSpaces` is `map_to` and
  new address spaces as functions on a snapshot of the machine, with the theorems; `Machines` is the
  same code working in place, proved equal to those functions; `HugeParents` settles one family of
  arguments apart. `Loaders` and `Processes` specify the ELF loader and prove what it builds,
  `Completions` when it completes; `Booting` holds its loops, working in place.
- **Capabilities.** `Tries` is lookup on arbitrary graphs; `CapGraphs` the objects, their counts and
  the release cascade, in place; `Components` the Link and Unlink operations of `exercise_cap`.
- **Cells.** `SpinCells`, `OnceCells` (with the lazy cell) and `RefCells` are the concurrent cells, as
  interleavings of atomic steps of any number of threads.

`Layout`, `Wrappers` and `DivMod` are shared constants, `Option` and two facts about division.

Where the model takes a position:

- The code is modelled as written where it departs from its description, and the law that was meant
  is proved with its exact condition. `value_for` reduces the count modulo its maximum, so an acquire
  one short of the maximum stores 0 (`WrapExample`; the condition is `NeverWraps`). The inherent
  `drop(self)` of the frame types decrements once itself and once more when `self` leaves scope
  (`LastDropCallPanics`, `BootTableLosesItsReference`; the condition is `Clean`). `map_to` accepts
  HUGE_PAGE among the flags for added levels, and then changes translations even when it fails
  (`FailedCallChangesPages`; the condition is `AddsLarge`).
- The release of a `KPtr` alone follows the description instead (docs/Memory Management.md, "Counting
  Kernel Frames": one decrement per released pointer), in two places. In `CapGraphs`, because with two
  decrements no release cascade ever begins. In `AddressSpaces` and `Machines`, where `clone_kernel`
  borrows the current table: as written the first borrow takes the boot table's count to 0
  (`BootTableLosesItsReference`) and the second panics (`SecondBorrowPanics`), so that no run would
  create two address spaces from it. Link and Unlink are serial, as in the kernel, which runs on one
  core and is not preempted.
- A panic ends the run. Sums of the source that leave 64 bits are panics too, as with the overflow
  checks of a development build.
- `place` in a snapshot, `ext` in the object graph and `lost` in the ownership protocol are
  bookkeeping the kernel does not keep. `place` says where each lower-half table is linked, `ext` is
  the bag of pointers held by running code, `lost` counts references gone without a handle.
- Each atomic operation is one step of a single global order.

## Model

| member | source | states |
|---|---|---|
| `RetypeEntries.UnpackPack` | harmony/kernel/src/retyping.rs:331-344 | unpacking a packed (state, count) gives it back if and only if the count is below the maximum; the maximum comes back as 0 |
| `RetypeEntries.WordLayout` | harmony/kernel/src/retyping.rs:313-336 | below the maximum the word of a state is its count above 0, 0x4000, 0x8000 or 0xC000 |
| `RetypeEntries.CounterStaysInField` | harmony/kernel/src/retyping.rs:358-384 | the +1 and -1 on the whole word, under their guards, change the count by one and never the state |
| `RetypeEntries.StepSimulates` | harmony/kernel/src/retyping.rs:358-418 | every operation on the word replies as on the (state, count) pair, and leaves the word of the resulting pair if and only if it is not an acquire one short of the maximum |
| `RetypeEntries.RunSimulates` | harmony/kernel/src/retyping.rs:358-418 | over every sequence of operations the word stands for the pair after each of them if and only if none wraps |
| `RetypeEntries.WrapExample` | harmony/kernel/src/retyping.rs:390-402 | an accepted acquire that leaves the frame with no references |
| `RetypeTables.RetypeTable.TryAs` | harmony/kernel/src/retyping.rs:130-169 | result and new entry of `try_as_user` and `try_as_kernel` in all cases, including the wrap; all other entries unchanged; idle frames keep count 0; the debug assertion holds |
| `RetypeTables.RetypeTable.TryAsUntyped` | harmony/kernel/src/retyping.rs:171-183 | answers whether the frame is untyped and reserves nothing |
| `RetypeTables.RetypeTable.TryInto` | harmony/kernel/src/retyping.rs:191-203 | succeeds exactly on untyped frames, which get the new type and count 1; a failure changes nothing |
| `RetypeTables.RetypeTable.TryIntoUntypedFrom` | harmony/kernel/src/retyping.rs:205-221 | succeeds exactly on the given type with count 0, reports the right error otherwise, and neither debug assertion fails |
| `RetypeTables.RetypeTable.TryIntoUntyped` | harmony/kernel/src/retyping.rs:223-229 | frees a frame exactly when it is typed and unreferenced; only a kernel frame in use is reported by its count |
| `RetypeTables.RetypeTable.Increment` | harmony/kernel/src/retyping.rs:358-370 | one more reference and the old count in any state, refused exactly at the maximum; all other entries unchanged |
| `RetypeTables.RetypeTable.Decrement` | harmony/kernel/src/retyping.rs:372-384 | one reference less and the old count in any state, refused exactly at 0; all other entries unchanged |
| `Ownership.NextKeepsInv` | harmony/kernel/src/retyping.rs:130-305 | every step by any actor keeps, for every frame, count + lost = live handles + boot owner, and one kind of use while nothing is lost; what each step does is in the next three rows |
| `Ownership.AcquireDoes` | harmony/kernel/src/retyping.rs:130-203 | `try_into`, `try_as` and `clone`: exactly when each succeeds, the entry it leaves (also in the wrap), the handle gained, and that nothing else changes |
| `Ownership.ReleaseDoes` | harmony/kernel/src/retyping.rs:251-305 | a handle dropped and both halves of a `drop` call take one from the count each and panic exactly at 0; which handle goes, and that nothing else changes |
| `Ownership.PassDoes` | harmony/kernel/src/retyping.rs:205-249 | freeing succeeds exactly on a typed frame with count 0; turning a handle into a raw pointer, back, and handing it on change no entry and no other handle |
| `Ownership.LostIffNotClean` | harmony/kernel/src/retyping.rs:251-305 | over every run a frame loses references if and only if the run finishes a `drop` call on it or acquires it one short of the maximum |
| `Ownership.Conservation` | harmony/kernel/src/kptr.rs:44-138 | in every interleaving the count of a frame equals its live handles plus boot owner if and only if the run is clean for it; then all handles have the kind of its state, and it is untyped only with no handle |
| `Ownership.ReleaseCannotPanic` | harmony/kernel/src/retyping.rs:288-305 | while the count of a frame is exact, no release of a handle on it panics |
| `Ownership.StateChanges` | harmony/kernel/src/retyping.rs:191-229 | no step changes the state of a frame other than from Untyped with count 0 to a type with count 1, or from a type with count 0 to Untyped |
| `Ownership.LastDropCallPanics` | harmony/kernel/src/kptr.rs:126-138 | the last release through a `drop` call panics when `self` leaves scope |
| `Ownership.BootTableLosesItsReference` | harmony/kernel/src/arch/x86_64/paging/page_table.rs:135-149 | a run of three steps, the borrow of `clone_kernel`, after which a boot frame has count 0: conservation does fail for runs that are not clean |
| `Ownership.SecondBorrowPanics` | harmony/kernel/src/arch/x86_64/paging/page_table.rs:121-149 | the next borrow of that table panics when it is dropped |
| `FrameAllocators.FindUntyped` | harmony/kernel/src/bump_allocator.rs:19-56 | finds the lowest untyped frame at or above the cursor, and none exactly when none remains there |
| `FrameAllocators.BumpAllocator.AllocFrame` | harmony/kernel/src/bump_allocator.rs:19-30 | hands out exactly that frame, typed with count 1, and changes no other entry; `None` leaves the table alone |
| `FrameAllocators.BumpAllocator.AllocUntypedFrame` | harmony/kernel/src/bump_allocator.rs:32-43 | finds the same frame and claims nothing |
| `FrameAllocators.ClaimUsesOne` | harmony/kernel/src/bump_allocator.rs:45-56 | each allocation uses up exactly one of the untyped frames its cursor can still reach |
| `FrameAllocators.NoFrameGivenTwice` | harmony/kernel/src/bump_allocator.rs:19-56 | over every interleaving of the loop iterations of any number of allocators, and of other changes that free nothing, all frames handed out are different and were untyped, and an allocator past the end proves that no untyped frame is left |
| `FrameAllocators.IterationDoes` | harmony/kernel/src/bump_allocator.rs:45-56 | in every such interleaving an iteration at an untyped frame claims it, typed with count 1, and hands it out, at any other frame steps on by one, and past the end does nothing |
| `FrameAllocators.LowestIsGiven` | harmony/kernel/src/bump_allocator.rs:19-56 | in every such interleaving each frame handed out is the lowest untyped frame of the whole table at that moment |
| `BootMemory.Scan` | harmony/kernel/src/retyping.rs:455-485 | the scan stops at the first usable region that is large enough, or past the end if there is none, and fails exactly when a region before that has an unaligned length |
| `BootMemory.ServeDoes` | harmony/kernel/src/retyping.rs:455-485 | a request gets the start of the first usable region with room at or after the cursor, which shrinks by exactly that much; it gets nothing exactly if there is none; it panics only for a length that is not whole frames or an address out of range |
| `BootMemory.BumpAllocator.AllocFrame` | harmony/kernel/src/retyping.rs:455-469 | the loop gives the reply, map and cursor of a request for one frame |
| `BootMemory.BumpAllocator.AllocFrames` | harmony/kernel/src/retyping.rs:471-485 | the loop gives the reply, map and cursor of a request for `count` frames |
| `BootMemory.RunConserves` | harmony/kernel/src/retyping.rs:455-485 | on any map, overlapping or not, after any calls every address is held by as many granted blocks and remaining usable regions as there were usable regions |
| `BootMemory.BlocksPartitionMemory` | harmony/kernel/src/retyping.rs:455-485 | on every map, at every address that no two usable regions claim, at most one granted block or remaining usable region holds it, and one does exactly if it was usable; blocks are aligned where usable regions are |
| `BootMemory.SortedMapIsPartitioned` | harmony/kernel/src/retyping.rs:455-485 | on a sorted map that is so at every address |
| `BootMemory.ListedTwiceGrantedTwice` | harmony/kernel/src/retyping.rs:455-469 | the condition is needed: a frame listed twice is granted twice |
| `BootMemory.NewTable` | harmony/kernel/src/retyping.rs:19-65 | the loops of `RetypeTable::new` compute `BootTable`, in which the last region covering a frame decides its entry |
| `BootMemory.NewTableIsRight` | harmony/kernel/src/retyping.rs:19-65 | on every aligned map of physical memory whose last region does not end at 0 there is no panic; there is no table exactly when no usable region can store it; otherwise the table lies in a usable region and holds one entry for every frame up to the end of the last region, and wherever overlapping regions agree an entry is Untyped, Kernel with count 1 or Unavailable as the map says, and Unavailable for the frames of the table |
| `BootMemory.NewTableFails` | harmony/kernel/src/retyping.rs:19-65 | on any map, exactly when `RetypeTable::new` panics, gives up or makes a table |
| `BootMemory.SortedMapsAgree` | harmony/kernel/src/retyping.rs:19-65 | on a sorted aligned map regions agree at every frame, and all memory lies below the top |
| `BootMemory.BootIsInitial` | harmony/kernel/src/retyping.rs:19-65 | whatever the map, a table that comes out is a state from which `Conservation` starts |
| `VirtualAddresses.TryNewIffCanonical` | harmony/kernel/src/arch/x86_64/paging/virtual_address.rs:28-38 | `try_new` accepts exactly the 48-bit sign-extended addresses and keeps their value |
| `VirtualAddresses.IndexAtLevel` | harmony/kernel/src/arch/x86_64/paging/virtual_address.rs:58-84 | `page_table_index` agrees with `p1_index` to `p4_index` at every level |
| `VirtualAddresses.IndicesDetermine` | harmony/kernel/src/arch/x86_64/paging/virtual_address.rs:58-79 | a canonical page address is rebuilt from its four indices; its half is told by the top one |
| `VirtualAddresses.IndicesInjective` | harmony/kernel/src/arch/x86_64/paging/virtual_address.rs:58-84 | canonical page addresses are equal if and only if all four indices are |
| `PageTableEntries.SetThenGet` | harmony/kernel/src/arch/x86_64/paging/page_table.rs:218-261 | reading back what `set` wrote gives the frame and every flag, or nothing if all of it was zero |
| `PageTableEntries.GetThenSet` | harmony/kernel/src/arch/x86_64/paging/page_table.rs:218-261 | writing back what `get` read reproduces the word |
| `PageTableEntries.HardwareBits` | harmony/kernel/src/arch/x86_64/paging/page_table.rs:255-261 | in the word written, bits 0, 1, 2, 7 and 63 are present, writable, user, huge and no-execute, and bits 12 to 51 the frame |
| `PageTables.LeafWriteElsewhere` | harmony/kernel/src/arch/x86_64/paging/page_table.rs:78-80 | writing a leaf entry changes no lower-half walk that does not end in that entry |
| `PageTables.LinkKeepsWalks` | harmony/kernel/src/arch/x86_64/paging/page_table.rs:80-89 | linking a cleared table below an empty entry, not as a large page, changes no lower-half walk of any address space |
| `PageTables.HigherHalfCommon` | harmony/kernel/src/arch/x86_64/paging/page_table.rs:135-149 | roots with the same upper entries over unchanged kernel tables translate every higher-half page alike |
| `AddressSpaces.BootSpaceOk` | harmony/kernel/src/arch/x86_64/paging/page_table.rs:121-129 | a boot table with an empty lower half, with all tables in kernel frames, satisfies the invariant |
| `AddressSpaces.AddTableOk` | harmony/kernel/src/arch/x86_64/paging/page_table.rs:81-89 | adding a level takes a frame no table occupies and keeps the invariant; without HUGE_PAGE it changes no translation |
| `AddressSpaces.MapToKeeps` | harmony/kernel/src/arch/x86_64/paging/page_table.rs:52-94 | with any flags, `map_to` keeps each table in a kernel frame of its own, writes nothing but tables, answers as the walk and the number of free frames demand, and uses up exactly one untyped frame for each missing level (all there are, if they do not suffice), the lowest ones from the cursor up; the cursor passes none that is left |
| `AddressSpaces.MapToUpdatesOnePage` | harmony/kernel/src/arch/x86_64/paging/page_table.rs:52-94 | unless it adds a large entry, `map_to` changes the translation of no page of any address space but the one asked for, and of that only on success, to exactly the frame and flags given |
| `AddressSpaces.MapKeepsLevels` | harmony/kernel/src/arch/x86_64/paging/page_table.rs:80-89 | where all upper-level entries of an address space have the parent flags given, they still do after `map_to` |
| `AddressSpaces.LevelsAreVia` | harmony/kernel/src/arch/x86_64/paging/page_table.rs:52-94 | then every mapped page is reached through three entries with those flags |
| `AddressSpaces.NewRootOk` | harmony/kernel/src/arch/x86_64/paging/page_table.rs:131-149 | a new address space maps no lower-half page, keeps the invariant and changes no other address space |
| `AddressSpaces.HigherHalfCommonInRuns` | harmony/kernel/src/arch/x86_64/paging/page_table.rs:135-149 | after every run of mappings and new address spaces each higher-half page translates everywhere as it did anywhere at the start |
| `AddressSpaces.RunRefinesMap` | harmony/kernel/src/arch/x86_64/paging/page_table.rs:52-94 | over every run in which no call adds a large entry, for every address space there at the end, created in the run or before: the page tables refine a map from (address space, page) to translation, which a successful mapping updates at one key and a new address space extends by an empty lower half and the kernel's higher half |
| `AddressSpaces.CallCreates` | harmony/kernel/src/arch/x86_64/paging/page_table.rs:131-149 | a new address space starts with no lower-half page and the current table's higher half, and a mapping creates none |
| `HugeParents.OneKeyLaw` | harmony/kernel/src/arch/x86_64/paging/page_table.rs:52-94 | for every call on a lower-half page, every flag and every answer, all pages of all address spaces are as the one-key law says if and only if the call does not add a level with HUGE_PAGE: a level is missing and a frame is free |
| `HugeParents.LargeEntryShows` | harmony/kernel/src/arch/x86_64/paging/page_table.rs:80-89 | an added level with HUGE_PAGE turns the page asked for from unmapped into a large page or a fault, whatever the answer |
| `HugeParents.FailedCallChangesPages` | harmony/kernel/src/arch/x86_64/paging/page_table.rs:80-89 | a machine with one free frame on which a call answers `FrameAllocationError` and yet two pages go from unmapped to a fault |
| `Machines.Machine.AddTable` | harmony/kernel/src/arch/x86_64/paging/page_table.rs:81-89 | the allocating branch, in place, does what `AddressSpaces.AddTable` says, or only moves the cursor |
| `Machines.Machine.MapTo` | harmony/kernel/src/arch/x86_64/paging/page_table.rs:52-94 | the loop of `map_to`, in place and with any flags, leaves the machine and the answer of `AddressSpaces.MapTo` and keeps the invariant |
| `Machines.Machine.CloneKernel` | harmony/kernel/src/arch/x86_64/paging/page_table.rs:135-149 | copies exactly the upper 256 entries of the current table, leaves the rest empty, and gives back the pointer it takes; panics exactly where the count is too near its maximum for that |
| `Machines.Machine.NewAddressSpace` | harmony/kernel/src/arch/x86_64/paging/page_table.rs:131-133 | finding a free frame, copying the kernel half, retyping and filling, in place, is the new-address-space step of the runs; panics exactly where the borrow does |
| `Loaders.LoadPageOk` | harmony/kernel/src/arch/x86_64/bootup.rs:158-203 | one iteration maps the page, until then unmapped, to a frame that was free, holding that page of the image, and leaves everything else |
| `Loaders.LoadBuildsImage` | harmony/kernel/src/arch/x86_64/bootup.rs:149-205 | if `Segment::load` completes, every touched page is mapped, its leaf flags present, user, writable and executable exactly as the header says, to a User frame of its own, and reading through the new translation gives the file bytes where the header puts them and zero elsewhere; all other pages and data in use are unchanged |
| `Loaders.LeafDecides` | harmony/kernel/src/arch/x86_64/bootup.rs:172-182 | a page reached through three levels with the loader's parent flags has exactly the rights of its leaf |
| `Processes.MapStackOk` | harmony/kernel/src/arch/x86_64/bootup.rs:70-90 | the stack loop maps exactly its pages, to free frames of their own, with leaf flags writable, user and not executable |
| `Processes.MapWindowOk` | harmony/kernel/src/arch/x86_64/bootup.rs:92-114 | the window loop maps page k to frame k, for the kernel only, and no other page |
| `Processes.ProcessImage` | harmony/kernel/src/arch/x86_64/bootup.rs:23-122 | if `Process::load` completes, all segments, the stack and the window stand in the new address space together, nothing else is mapped in its lower half, segments and stack share no frame, through all levels user code may use every segment page and write and execute it exactly as its header says, may use and write the stack and not execute it, and may not use the window, user code reaches only user frames that were free before, its higher half is the kernel's, every earlier address space is as it was, and so is all data in memory |
| `Processes.UserReachesOwn` | harmony/kernel/src/arch/x86_64/bootup.rs:92-114 | isolation: a lower-half page that user code may use leads to a user frame with one reference that was free before; the window is not among them |
| `Completions.MapToCompletes` | harmony/kernel/src/arch/x86_64/paging/page_table.rs:52-94 | with three untyped frames `map_to` succeeds exactly on pages with nothing in the way, and then only this page has something in the way that had not before |
| `Completions.LoadCompletes` | harmony/kernel/src/arch/x86_64/bootup.rs:149-205 | `Segment::load` completes only if the segment is within the file, readable, in the lower half and its pages are free, and always if it is and there are four untyped frames for each page; then exactly its pages are taken |
| `Completions.MapStackCompletes` | harmony/kernel/src/arch/x86_64/bootup.rs:70-90 | the same of the stack loop |
| `Completions.MapWindowCompletes` | harmony/kernel/src/arch/x86_64/bootup.rs:92-114 | the same of the window loop, with three frames for each page |
| `Completions.ProcessCompletes` | harmony/kernel/src/arch/x86_64/bootup.rs:23-122 | `Process::load` completes only if the current table can be borrowed and segments, stack and window fit side by side in the lower half, and always if they do and there are enough untyped frames |
| `Booting.LoadOnePage` | harmony/kernel/src/arch/x86_64/bootup.rs:158-203 | one iteration, in place, completes exactly when and as `LoadPage` says |
| `Booting.LoadSegment` | harmony/kernel/src/arch/x86_64/bootup.rs:149-205 | the loop of `Segment::load`, in place, completes exactly when and as `Load` says |
| `Booting.LoadSegments` | harmony/kernel/src/arch/x86_64/bootup.rs:61-67 | the loop over program headers, in place, completes exactly when and as `LoadAll` says |
| `Booting.MapStackPages` | harmony/kernel/src/arch/x86_64/bootup.rs:70-90 | the stack loop, in place, completes exactly when and as `MapStack` says |
| `Booting.MapWindowPages` | harmony/kernel/src/arch/x86_64/bootup.rs:92-114 | the window loop, in place, completes exactly when and as `MapWindow` says |
| `Booting.LoadProcessImage` | harmony/kernel/src/arch/x86_64/bootup.rs:23-122 | `Process::load`, in place, completes exactly when and as `LoadProcess` says, so `ProcessImage` holds of it |
| `Tries.GetIsWalk` | harmony/trie/src/lib.rs:61-75 | on every graph lookup is the walk along the base-`COUNT` digits of the id, least significant first: all but the last are hops, the last is the slot |
| `Tries.DigitsOfNumber` | harmony/trie/src/lib.rs:61-75 | every digit string without superfluous zeros is the digits of its number, so each is the id of one walk |
| `Tries.NumberOfDigits` | harmony/trie/src/lib.rs:61-75 | the digits of an id make up the id |
| `Tries.LookupIsShallow` | harmony/trie/src/lib.rs:56-75 | on every graph, cyclic or not, an id below `COUNT`^k visits at most k nodes |
| `Tries.KernelLookupIsShallow` | harmony/kernel/src/caps.rs:14-18 | with 128 slots a 32-bit id visits at most 5 tables |
| `Tries.RelinkIsLocal` | harmony/kernel/src/component.rs:102-120 | changing the child of a slot, on any graph, changes no lookup whose walk does not hop through that slot, nor which walks do |
| `Tries.RelinkTakesEffect` | harmony/kernel/src/component.rs:102-120 | the others are not found after Unlink, and after Link are looked up from the linked table with the rest of their id |
| `Tries.HopsStayInPart` | harmony/trie/src/lib.rs:61-75 | a walk that starts in a closed part of the graph hops only through nodes of the part |
| `Tries.AddressingIsInjective` | harmony/trie/src/lib.rs:61-75 | where the tables below the root form a tree, different ids never find the same slot |
| `Tries.FoundSlots` | harmony/trie/src/lib.rs:61-75 | a slot is found by some id below a bound if and only if it is a slot of the root or a non-zero slot of a node whose hops, with it, make a number below the bound |
| `Tries.KernelSlotsInRange` | harmony/kernel/src/caps.rs:14-18 | with 128 slots the slots that have a 32-bit id are exactly those of the root, the non-zero ones down to three hops, 1 to 15 at four hops, and none beyond |
| `CapGraphs.SurvivorsAreGreatest` | harmony/kernel/src/kptr.rs:126-138 | what a release leaves is the greatest set of objects each held by a handle or by a member of the set |
| `CapGraphs.NothingToTrim` | harmony/kernel/src/kptr.rs:118-138 | where counts are exact, taking handles and giving them back frees nothing |
| `CapGraphs.RelinkCounts` | harmony/kernel/src/caps.rs:121-125 | relinking takes one edge from the old child, gives one to the new, and none to or from the resource |
| `CapGraphs.ChangeMovesCounts` | harmony/kernel/src/caps.rs:121-125 | where nothing is freed the stored counts move by exactly that |
| `CapGraphs.CapHeap.New` | harmony/kernel/src/kptr.rs:44-68 | succeeds exactly on untyped frames; the pointers in the value move into the object, or are dropped on failure; counts stay exact; a success changes no other frame's entry, and a failure changes entries as `Drop` does |
| `CapGraphs.CapHeap.Clone` | harmony/kernel/src/kptr.rs:118-124 | one more handle, counted, unless the count is at its maximum |
| `CapGraphs.CapHeap.Drop` | harmony/kernel/src/kptr.rs:126-138 | one handle less; the cascade terminates, keeps every count exact, frees nothing that is supported and alters no other object; every frame freed is left as Kernel with count 0, and every frame that held no object keeps its entry |
| `CapGraphs.CapHeap.DropAll` | harmony/kernel/src/kptr.rs:133-136 | dropping the fields of a dying object one by one does the same for all of them, entries included |
| `CapGraphs.CapHeap.GetCloned` | harmony/kernel/src/caps.rs:127-129 | the slot, with a new handle for each of its pointers, unless that takes a count past its maximum |
| `CapGraphs.CapHeap.Replace` | harmony/kernel/src/caps.rs:117-119 | the slots change places, their pointers change between fields and handles, and every count stays exact |
| `CapGraphs.CapHeap.Change` | harmony/kernel/src/caps.rs:121-125 | clone, overwrite, swap and drop together relink the child, keep every count exact, use up just the handle given, and free exactly what is no longer in use, with the entries of freed and of unused frames as for `Drop`; refused exactly if cloning is |
| `Components.Find` | harmony/kernel/src/caps.rs:82-86 | lookup over the live tables finds only slots of live tables whose pointers lead to objects of the right kind |
| `Components.Hop` | harmony/trie/src/lib.rs:69-73 | one step of the walk gives up the handle on a table for one on its child, clones and drops the resource, and leaves the graph alone |
| `Components.FindSlot` | harmony/kernel/src/caps.rs:82-86 | the walk in place, one handle at a time, finds what `Find` says and leaves the caller holding the table found; no panic while counts are three below the maximum |
| `Components.GetCapability` | harmony/kernel/src/caps.rs:66-68 | find, clone and let go together give the slot with one new handle for each of its pointers |
| `Components.GetTable` | harmony/kernel/src/caps.rs:70-79 | succeeds exactly if the id leads to a capability table, and then the caller gains one handle on it; not found exactly if the id leads nowhere, an invalid argument for every other resource and for an empty slot; the graph is unchanged |
| `Components.ExerciseCap` | harmony/kernel/src/component.rs:94-120 | not found, invalid argument, passed on or done, each exactly when what the two ids lead to says so, and never an internal error; every handle taken is given back; the graph is the relinked one less what is no longer in use, and unchanged on an error; counts and kinds stay right; frames that lost their object are left as Kernel with count 0 and frames without one as they were; no panic while counts are five below the maximum |
| `Components.EffectReplies` | harmony/kernel/src/component.rs:94-120 | the reply and the graph of an operation, from what the ids lead to alone |
| `Components.FindNeverFails` | harmony/kernel/src/caps.rs:82-86 | lookup finds a slot or nothing; the kernel's slots have no error of their own |
| `Components.EffectKeeps` | harmony/kernel/src/component.rs:94-120 | after an operation and its release, pointers lead to live objects of the right kind and the calling thread is as it was |
| `Components.OperationIsLocal` | harmony/kernel/src/component.rs:101-120 | after Link or Unlink and the release that follows, every id seen from a surviving table finds what it found, except those that hopped through the changed slot: not found after Unlink, and after Link looked up from the linked table, which survives |
| `Components.SystemCallIsLocal` | harmony/kernel/src/component.rs:94-120 | the same in terms of the capability, the operation and the reply: a refused call changes no lookup, and one that is done changes only those that hop through the named slot of the table the capability names |
| `SpinCells.NextKeepsInv` | harmony/sync/src/cell/atomic_cell.rs:36-56 | every step of any thread keeps one owner of the lock, whose progress agrees with the value and with what was returned |
| `SpinCells.CellIsLinearizable` | harmony/sync/src/cell/atomic_cell.rs:26-68 | in every interleaving at most one thread is past the lock, and the calls in the order of their return are a run of the sequential cell: `replace` and `get_cloned` return what the last call before them that stores anything stored, and so is the value when nobody is past the lock |
| `SpinCells.OwnerFinishes` | harmony/sync/src/cell/atomic_cell.rs:36-56 | from every reachable state with the lock taken, at most three steps of its owner release it and complete the call |
| `SpinCells.SoloCall` | harmony/sync/src/cell/atomic_cell.rs:26-68 | a call that finds the lock free completes in five steps, returns the value it found and leaves the one it brings |
| `OnceCells.NextKeepsInv` | harmony/sync/src/cell/atomic_once_cell.rs:38-71 | no step of any thread panics or reads before the write, and the state moves up by at most one |
| `OnceCells.OnceAndForAll` | harmony/sync/src/cell/atomic_lazy_cell.rs:25-35 | in every interleaving at most one value is written, at most one `set_with` succeeds, every `get` and lazy `get` that returned gave that value, and the poisoned panic, the unknown-state panic and an uninitialised read are unreachable |
| `OnceCells.AfterInit` | harmony/sync/src/cell/atomic_once_cell.rs:62-71 | from the moment the state is 2, whatever the threads do, every call that returns gives the value written, or that there is one: no `get` is told that there is none |
| `OnceCells.SoloSet` | harmony/sync/src/cell/atomic_once_cell.rs:38-56 | an undisturbed `set_with` fills an empty cell, and otherwise reports which of the two other states it met and changes nothing |
| `OnceCells.SoloGet` | harmony/sync/src/cell/atomic_once_cell.rs:62-71 | an undisturbed `get` returns the value exactly if the state is 2 |
| `OnceCells.SoloLazyGet` | harmony/sync/src/cell/atomic_lazy_cell.rs:25-35 | an undisturbed lazy `get` on an empty cell takes the closure, stores what it gives and returns it |
| `OnceCells.SoloLazyGetAgain` | harmony/sync/src/cell/atomic_lazy_cell.rs:25-35 | on a full cell it returns the value and leaves everything as it is |
| `OnceCells.InitializerFinishes` | harmony/sync/src/cell/atomic_once_cell.rs:38-56 | from every reachable state with an initialiser at work, at most three steps of it bring the state to 2 |
| `OnceCells.InitOnlyGrows` | harmony/sync/src/cell/atomic_once_cell.rs:38-56 | between any two points of a run the state only moves 0, 1, 2, and a value once there stays |
| `RefCells.AtMostOneGuard` | harmony/sync/src/cell/atomic_ref_cell.rs:30-85 | in every interleaving there is at most one guard, a borrow is refused exactly while there is one, and the assertion in `drop_borrow` never fails; a guard reads the value, writes it exactly if it may, and dropped leaves the cell free |
| `RefCells.GuardIsExclusive` | harmony/sync/src/cell/atomic_ref_cell.rs:131-156 | while a guard lives, whatever the other threads do, the value is what that guard wrote last, or what it found |

## Left out

- Hardware and entry code: assembly, interrupts, GDT and IDT, timers, serial output, logging, registers, `Thread::dispatch`.
- Weak memory orderings and TLB effects; fairness: that a spinning thread is scheduled and wins in the end.
- The Construct, Drop, Copy and ChangeAffinity operations and page-table capabilities, which need or are `todo!()` in the source.
- System-call argument and error encodings, the parsing of ELF headers and of bootloader responses: inputs of the model are already decoded, and program headers are the loadable ones.
- `KPtr::try_into_inner`: nothing calls it; it would release through the same `drop` call and then drop the pointer as well.
- `AnyPageTable::unmap`, `PageTableEntry::reset` and `set_flags`: nothing else in the kernel calls them.
- `get_mut` of the once and lazy cells and `map` of the guards: they need exclusive access or keep the same borrow, and would add only easy members.
- MapTo: asks for a lower-half page, as all callers pass; kernel tables are shared, so a higher-half page would change in every address space.
- MapToUpdatesOnePage: lower-half pages only, for the same reason.
- RunRefinesMap: lower-half pages only, for the same reason.
- NewRootOk: follows the described single decrement in `clone_kernel`, as said above.
- CloneKernel: follows the described single decrement of the pointer it drops; `SecondBorrowPanics` is about the code as written.
- NewAddressSpace: treats the search and the retype as one step, which is what a kernel on one core does.
- Drop: follows the described single decrement, as said above; `LastDropCallPanics` is about the code as written.
- ExerciseCap: a panic ends the run, so the state after one is not described.
- AtMostOneGuard: guards of one cell only; `borrow` and `borrow_mut` are both exclusive, as in the source.
