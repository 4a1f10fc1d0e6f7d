# A model of the OS/161 A3 virtual memory system, the file table and the process table

This project models, in Dafny, the virtual memory of an OS/161 kernel (the
MIPS teaching kernel) as its `OPT_A3` build implements it, together with the
per-process file table and the global process table of its `OPT_A2` system
calls. It also proves properties of that model.

The VM part:

- **The coremap.** A frame table of `max_pages` entries, laid out from the
  first free physical page. It hands out the lowest run of `n` free frames
  that starts at an index `i` with `i + n < max_pages`; because the bound
  is strict, the last frame is never handed out. When no such run is free
  it evicts a page of the current address space, chosen by `Pvictim`, and
  hands out that page's one frame.
- **Page tables.** One array of PTEs per segment: text, data and a 12-page
  stack. Each PTE holds a frame index, a page number, the flags `VALID`,
  `DIRTY`, `MODIFIED` and `IN_SWAP`, and a swap slot.
- **The swap file.** 2304 page-sized slots with an availability table.
  `write_to_swap` and `read_from_swap` move pages between the swap file and
  frames.
- **The TLB.** 64 slots, with a round-robin victim counter `next_victim`.
- **The fault path.** `vm_fault` dispatches through `get_pt_entry` and
  `page_fault`. A missing page comes from swap, from the executable
  (`On_Demand_Loading`, which reads the ELF program headers again and loads
  one page), or as a zero-filled stack page. A resident page, a page
  swapped in and a stack page are then installed in the TLB by
  `TLB_updating`. `On_Demand_Loading` writes its own TLB entry, and
  `vm_fault` returns after it without calling `TLB_updating`.
- **Address spaces.** Creation, region definition, `as_prepare_load`,
  `as_copy`, `as_activate` and `as_destroy`, plus `load_elf`, which defines
  the regions from the executable's `PT_LOAD` headers.

How the model is built:

- **Whole-state value.** The kernel's globals and the current address space
  are objects: `FrameTable`, `AddrSpace`, `SwapStore`, `Tlb`, `FileTable`,
  `Kernel`. Their methods modify those objects in place. Each operation that
  touches several of them is stated against a pure specification function.
  That function works on the whole-machine value `MachineState.Machine`: the
  frames, the address space's PTEs, the swap slots, the TLB and
  `next_victim`. The method's `ensures` says that the snapshot of the
  objects after the call equals the function applied to the snapshot
  before. The lemmas are proved about these functions.
- **Errors and halts.** An error return is `Status`: `Ok`, `Err(errno)` or
  `Fail`, where `Fail` is the source's `-1`. A panic, a NULL dereference, an
  endless loop and `_exit` are halts: `Outcome.Stop(KernelPanic | NullDeref
  | Spins | ProcExit)`.
- **Inputs become parameters.** The swap device's results are boolean
  parameters (`ioOk`, `readOk`). The executable is a value `ElfFile`: its
  headers, its size, and the offsets `readErrors` at which `VOP_READ`
  fails; such a failure is the errno `IoError`, which `load_elf`,
  `load_segment` and `On_Demand_Loading` return as the source returns
  `VOP_READ`'s own result. The memory `ram_stealmem` returns before the
  coremap exists (`stolen`) and the current process (`cur`, `hasProc`) are
  parameters too.

## Model

| member | source | states |
|---|---|---|
| VmDefs.PageAlign | vm/vm.c:152 | `addr & PAGE_FRAME`: the page-aligned address at or below `a`, less than a page below it |
| Tlb.Probe | vm/vm.c:307 | `tlb_probe`: the lowest slot whose EntryHi is the page, or -1 exactly when no slot holds it |
| Tlb.InvalidatedMapsNoUserPage | vm/addrspace.c:285-288 | after every slot is written `TLBHI_INVALID(i)`, no user page (below USERSTACK) is found by a probe |
| Tlb.InvalidateMatching | vm/swapfile.c:134-137 | invalidating the probed slot changes only that slot, and nothing when the probe misses |
| Tlb.InvalidateMatchingUnmaps | vm/swapfile.c:134-137 | when the page has one slot at most, the probe misses after the invalidation |
| Tlb.Bump | vm/vm.c:336-338 | corrected `next_victim` bump: stays a slot index, moves off the slot just filled, and is unchanged otherwise |
| Tlb.BumpAsWritten | vm/vm.c:336-338 | as written: the counter moves only when it names the slot just filled, and then to that slot + 1; it differs from the corrected bump only when slot 63 is filled with `next_victim == 63`, giving 64 |
| Tlb.Tlb.constructor | vm/addrspace.c:285-288 | the TLB starts with every slot invalid and `next_victim == 0` |
| Tlb.Tlb.RrVictim | vm/vm.c:36-41 | `tlb_get_rr_victim` returns the counter and advances it modulo NUM_TLB; the slots are unchanged |
| Tlb.Tlb.InvalidateAll | vm/addrspace.c:285-288 | every slot is invalid afterwards |
| Tlb.Tlb.InvalidatePage | vm/swapfile.c:134-137 | the slots become `InvalidateMatching` of the old slots |
| Coremap.IndexOfFrame | vm/pt.c:125 | in a laid-out table, `(paddr - cmt[0]->cm_paddr) / PAGE_SIZE` recovers the index of frame k |
| Coremap.FirstFitFrom | vm/coremap.c:103-118 | the lowest start at or after i of a usable run, or -1 exactly when there is none |
| Coremap.FirstFit | vm/coremap.c:103-118 | the first-fit search: the lowest start of n free frames with `i + n < max_pages`, or -1 exactly when none exists |
| Coremap.LastFrameNeverAllocated | vm/coremap.c:117 | because the test is `i + n < max_pages`, a table whose only free frame is the last one never yields a run |
| Coremap.SmallerRequestFitsNoLater | vm/coremap.c:103-118 | when n frames can be found, any smaller request is found too, at the same start or a lower one |
| Coremap.ClaimRun | vm/coremap.c:119-125 | claiming a run marks exactly frames i..i+n-1 occupied, owned by the caller, with the tag and the countdown lengths n, n-1, ..., 1; the other frames and all addresses stay the same |
| Coremap.FreeRun | vm/vm.c:111-117 | releasing a run clears exactly frames i..i+len-1 and keeps every address and the swappable flag |
| Coremap.Occupancy | vm/coremap.c:104 | the occupied bit of each frame, in order |
| Coremap.ClaimThenFreeRestoresOccupancy | vm/coremap.c:119-125 | freeing the run a claim made (the length stored at its head) restores the table's occupancy |
| Coremap.FrameTable.constructor | vm/coremap.c:25-28 | before `get_global_coremap` there is no table: not ready, no frames |
| Coremap.FrameTable.GetGlobalCoremap | vm/coremap.c:25-58 | first call: one blank frame per page from `lo_paddr`, the frames laid out from `ramLo`, and `lo_paddr` advanced past the last frame; later calls change nothing |
| Coremap.FrameTable.SetCoremapProc | vm/coremap.c:73-82 | an index past `max_pages` changes nothing; otherwise that frame becomes occupied and owned, with the tag |
| Coremap.FrameTable.ClaimFirstFit | vm/coremap.c:103-130 | finds a run exactly when `FirstFit` does, returns its first frame's address and leaves the table as `ClaimRun`; otherwise nothing changes |
| Coremap.FrameTable.FreeKpagesAsWritten | vm/vm.c:90-117 | as written: an address below `lo_paddr` frees nothing; otherwise the KASSERT that the frame at index `(paddr - lo_paddr) / PAGE_SIZE` belongs to the current process panics when it does not, and the run there is released when it does |
| Coremap.FrameTable.FreeKpages | vm/vm.c:90-117 | corrected: the index is taken from the first frame's address; a frame of another owner panics at the KASSERT and changes nothing; otherwise the run stored there is released |
| Coremap.FrameTable.FreeRunAt | vm/vm.c:111-117 | the release loop leaves the table as `FreeRun` |
| Coremap.FreeKpagesAsWrittenFreesNothing | vm/vm.c:97 | with frame i at `ramLo + i*PAGE_SIZE` and `lo_paddr` at `ramLo + max_pages*PAGE_SIZE`, as `GetGlobalCoremap` leaves them and no claim or release changes, the kernel address of every frame takes the early return of `free_kpages` as written |
| Coremap.FreeKpagesFindsTheRun | vm/vm.c:104 | with the first frame's address as the base, the index computed from frame k's kernel address is k |
| PageTable.ChangePte | vm/pt.c:34-37 | `change_pte` sets the frame index, never clears a flag bit, sets the requested bits and no others |
| PageTable.SegmentType | vm/pt.c:39-83 | `segment_type` is -1, TEXT, DATA or STACK, and -1 without an address space |
| PageTable.ClassifyOrder | vm/pt.c:70-81 | text wins over data, data over stack, and -1 is outside all three, in both directions |
| PageTable.SetPte | vm/pt.c:93 | storing through a PTE pointer changes that PTE only and keeps every segment's extent |
| PageTable.GetPtEntry | vm/pt.c:85-120 | `get_pt_entry`: -1 iff no segment, 0 iff the PTE is VALID with a frame, 1 iff a non-resident text or data page, 2 iff a non-resident stack page |
| PageTable.PageOffsetInRange | vm/pt.c:92 | a page of a region lies at an index inside the region's PTE array |
| PageTable.WfLookupSafe | vm/pt.c:90-102 | in a well-formed address space every lookup stays inside its segment's array |
| PageTable.FreshPtes | vm/addrspace.c:346-350 | one fresh PTE per page |
| PageTable.BuildPtentry | vm/pt.c:21-32 | `build_ptentry` gives a PTE with no swap slot and the given page number, resident exactly when the flag has VALID and the frame index is not -1 |
| PageTable.FreshPtesFault | vm/pt.c:21-32 | `build_ptentry(-1, base + i*PAGE_SIZE, 0)`: page number `base + i*PAGE_SIZE`, not resident, not in swap, slot -1 |
| AddrSpaces.AlignRegion | vm/addrspace.c:329-336 | the aligned base is at most a page below `vaddr`, the aligned pages cover `[vaddr, vaddr+sz)`, and the last page starts inside it |
| AddrSpaces.DefinedRegionMapsItsPages | vm/addrspace.c:342-351 | a first region becomes the text segment: each of its addresses classifies as text and finds a fresh PTE for its own page |
| AddrSpaces.SetupIsWellFormed | vm/addrspace.c:319-372 | text, data and stack defined in that order give a well-formed address space; a third region is EUNIMP and changes nothing |
| AddrSpaces.AddrSpace.constructor | vm/addrspace.c:72-119 | `as_create`: all bases and sizes 0, no PTEs |
| AddrSpaces.AddrSpace.DefineRegion | vm/addrspace.c:319-372 | `as_define_region` leaves the view and result as `DefineRegionView`: first text, then data, then EUNIMP |
| AddrSpaces.AddrSpace.DefineStack | vm/addrspace.c:424-451 | `as_define_stack` returns USERSTACK, sets `as_stackpbase` when it was 0, and builds 12 fresh stack PTEs |
| AddrSpaces.AddrSpace.Store | vm/pt.c:139-140 | a store through a PTE pointer is `SetPte` |
| AddrSpaces.AddrSpace.LoadPage | vm/pt.c:122-164 | `load_page`: -1 with nothing changed when `paddr` does not start a frame; otherwise the page's PTE gets the frame, VALID, and DIRTY except for text, and the frame is owned with the segment's tag |
| AddrSpaces.NewRegionPtes | vm/addrspace.c:346-350 | the loop builds `FreshPtes` |
| AddrSpaces.LoadedPte | vm/pt.c:138-159 | a loaded PTE is VALID with the frame index, DIRTY exactly for data and stack, and keeps MODIFIED and IN_SWAP |
| AddrSpaces.LoadedPageIsResident | vm/pt.c:108-110 | after `load_page` the page's lookup reports 0 (resident) |
| AddrSpaces.AsActivate | vm/addrspace.c:264-293 | a NULL address space leaves the TLB alone; otherwise every slot is invalid |
| AddrSpaces.ReleaseFramesExactly | vm/addrspace.c:185-197 | the teardown loop over one segment releases frame k exactly when a resident PTE of the segment names it |
| AddrSpaces.TeardownFreesMappedFrames | vm/addrspace.c:185-237 | `as_destroy` frees exactly the frames named by a resident PTE of text, data or stack, and leaves every other frame unchanged |
| AddrSpaces.ReleaseSegment | vm/addrspace.c:185-197 | the loop leaves the table as `ReleaseFrames` |
| AddrSpaces.AsDestroy | vm/addrspace.c:171-261 | NULL changes nothing; a segment whose PTE array is shorter than its page count makes `array_get` fail its KASSERT, a panic (the PTE-less copy `as_copy` makes is one); otherwise the frames become `TeardownFrames`, the PTE arrays are emptied and the TLB is all invalid |
| SwapFile.LowestFree | vm/swapfile.c:31-38 | `find_slot`: the lowest available slot, or -1 exactly when none is available |
| SwapFile.SlotFitsInFile | vm/swapfile.c:118 | every slot's page lies inside `SWAPFILE_SIZE`, so the size check after a fresh-slot write never fires |
| SwapFile.SwappedOut | vm/swapfile.c:123-126 | a page written to a fresh slot: it records the slot, is IN_SWAP and not VALID, and keeps its other bits |
| SwapFile.Rewritten | vm/swapfile.c:97 | a page rewritten to its old slot loses VALID only |
| SwapFile.SwapOutSpec | vm/swapfile.c:73-149 | `write_to_swap` returns 0 or -1, keeps the slot table's size, and leaves PTE and slot table untouched when it returns -1 |
| SwapFile.SwapOutOutcomes | vm/swapfile.c:73-149 | `write_to_swap` returns 0 or -1; an unmodified page changes nothing; -1 leaves PTE and slots alone; a successful write of a modified page leaves it in swap and not resident; a new page is written iff a slot is free |
| SwapFile.SwapOutNeverFreesSlots | vm/swapfile.c:126 | a taken slot stays taken |
| SwapFile.SwapOutKeepsConsistency | vm/swapfile.c:73-149 | every IN_SWAP PTE names a distinct taken slot before and after `write_to_swap` |
| SwapFile.FirstResidentFrom | vm/swapfile.c:213-257 | the lowest resident PTE at or after i, or -1 exactly when none is resident |
| SwapFile.VictimSpec | vm/swapfile.c:204-261 | `Pvictim` returns NULL exactly when there is no address space, hangs exactly for a tag other than TEXT, DATA and STACK, and otherwise halts only by a panic |
| SwapFile.VictimIsResident | vm/swapfile.c:204-261 | a victim `Pvictim` returns is a resident PTE of the segment it scans (data for TEXT and DATA, stack for STACK) |
| SwapFile.PVictim | vm/swapfile.c:204-261 | the scan returns `VictimSpec`: NULL without an address space, the lowest resident PTE, a panic after a fruitless pass, a hang for another tag |
| SwapFile.SwapStore.constructor | vm/swapfile.c:27-28 | before `get_global_swapfile` no slot is marked available |
| SwapFile.SwapStore.GetGlobalSwapfile | vm/swapfile.c:41-71 | the first call marks all 2304 slots available and sets the offset to 0; later calls change nothing |
| SwapFile.SwapStore.FindSlot | vm/swapfile.c:31-38 | the loop returns `LowestFree` |
| SwapFile.SwapStore.WriteToSwap | vm/swapfile.c:73-149 | PTE, slots, offset and result as `SwapOutSpec`; after a successful write of a modified page its TLB slot is invalidated |
| MachineState.FrameAddrAligned | vm/pt.c:125-131 | a frame address is page-aligned and indexes its own frame |
| MachineState.SameLayoutLookups | vm/pt.c:85-106 | two address spaces with the same layout classify and locate every address alike |
| MachineState.SwapOutMachine | vm/swapfile.c:73-149 | `write_to_swap` on the whole machine keeps the frames, the layout and `next_victim` |
| MachineState.SwapOutKeepsResidentOccupied | vm/swapfile.c:73-149 | writing a page out keeps every resident PTE on an occupied frame |
| FrameAlloc.GetFramesSpec | vm/coremap.c:89-157 | `coremap_getFrames` keeps the machine well-formed and the table's shape, and returns the address of a frame |
| FrameAlloc.GetFramesKeepsNonResident | vm/coremap.c:143-154 | allocation rewrites no PTE that is not resident |
| FrameAlloc.GetFramesFirstFit | vm/coremap.c:103-128 | with a run free, the caller gets the lowest run's first frame, the run is its own, and nothing else changes |
| FrameAlloc.GetFramesEvicts | vm/coremap.c:143-154 | with no run free, the caller gets the victim's frame; a modified victim is written out and, if the write worked, is no longer resident; an unmodified victim stays resident on the frame just handed out |
| FrameAlloc.GetFramesKeepsResidentOccupied | vm/coremap.c:89-157 | allocation keeps every resident PTE on an occupied frame |
| FrameAlloc.GetFramesKeepsSwapConsistent | vm/coremap.c:143-154 | allocation keeps the PTE/slot correspondence |
| FrameAlloc.GetPPagesSpec | vm/vm.c:421-450 | `getppages` never returns 0 (it panics); with the coremap it returns a frame address; before it, the stolen address |
| FrameAlloc.AllocKpagesSpec | vm/vm.c:68-88 | `alloc_kpages` returns a KSEG0 address |
| FrameAlloc.KernelAllocationNeverEvicts | vm/vm.c:74 | with no run free, a kernel allocation (tag 9) hangs in `Pvictim`, or dereferences NULL without a process, and changes nothing |
| FrameAlloc.GetFrames | vm/coremap.c:89-157 | the method leaves result and state as `GetFramesSpec` |
| FrameAlloc.GetPPages | vm/vm.c:421-450 | the method leaves result and state as `GetPPagesSpec` |
| FrameAlloc.AllocKpages | vm/vm.c:68-88 | the method leaves result and state as `AllocKpagesSpec` |
| TlbRefill.FirstInvalid | vm/vm.c:313-317 | the lowest slot without TLBLO_VALID, or -1 exactly when all are valid |
| TlbRefill.WritableOnlyUntilInstalled | vm/vm.c:319-330 | a fresh text page is writable until MODIFIED is set, then read-only; data and stack pages stay writable |
| TlbRefill.MarkModified | vm/vm.c:342 | setting MODIFIED changes only that PTE's flag |
| TlbRefill.FillFree | vm/vm.c:313-344 | the lowest invalid slot gets the entry and no other slot changes; the corrected counter stays a slot index other than the one filled, the as-written one grows by one at most |
| TlbRefill.FreeFills | vm/vm.c:313-344 | successive refills into an emptied TLB (after `as_activate`) keep 64 slots, and with the corrected bump the counter stays a slot index |
| TlbRefill.FreeFillsInOrder | vm/vm.c:313-344 | n refills into an emptied TLB fill slots 0..n-1 in order with their entries, leave the rest invalid, and leave `next_victim` at n as written (n mod 64 corrected) |
| TlbRefill.NextVictimLeavesTlb | vm/vm.c:336-338 | as written, 64 refills into an emptied TLB leave every slot valid and `next_victim == 64`, outside the TLB, so the next refill takes the round-robin branch with slot 64; the corrected bump leaves 0 |
| TlbRefill.TlbUpdateSpec | vm/vm.c:291-365 | `TLB_updating` (with the corrected bump) changes no frame and no swap state and at most sets MODIFIED on the page's PTE |
| TlbRefill.RefillMapsPage | vm/vm.c:291-365 | after a 0 result the TLB maps the page, to `paddr` and valid when it was not mapped before; an existing mapping is left alone |
| TlbRefill.RefillKeepsTlbUnique | vm/vm.c:307-311 | a refill never gives a page a second slot |
| TlbRefill.RefillKeepsVictimInRange | vm/vm.c:336-338 | with the corrected bump, `next_victim` stays a slot index and never names the slot just filled |
| TlbRefill.FindInvalid | vm/vm.c:313-317 | the scan returns `FirstInvalid` |
| TlbRefill.FillFreeSlot | vm/vm.c:336-344 | the free slot gets the entry, the counter moves by the corrected bump, and the PTE is stored |
| TlbRefill.FillVictimSlot | vm/vm.c:346-362 | the round-robin victim slot gets the entry and the counter advances modulo NUM_TLB |
| TlbRefill.TlbUpdating | vm/vm.c:291-365 | the method leaves result and state as `TlbUpdateSpec` |
| SwapIn.SwapOpened | vm/swapfile.c:153 | `get_global_swapfile` from `read_from_swap` opens the store and changes nothing when it is open |
| SwapIn.BindFrame | vm/swapfile.c:168-172 | the new frame is occupied and owned, and the PTE points at it |
| SwapIn.MarkValid | vm/swapfile.c:184 | only the PTE's VALID bit is set |
| SwapIn.BindAndInstall | vm/swapfile.c:165-184 | binding the frame, installing it in the TLB and setting VALID keeps the machine well-formed |
| SwapIn.ReadFromSwapSpec | vm/swapfile.c:152-200 | `read_from_swap` keeps the machine well-formed; what it leaves is stated by `SwapInMakesResident` and `SwapInKeepsSwapConsistent` |
| SwapIn.AllocKeepsSwapInTarget | vm/swapfile.c:168 | the allocation inside `read_from_swap` does not touch the PTE being swapped in |
| SwapIn.RefillSwappedPage | vm/vm.c:302 | `TLB_updating` installs a page in swap although its lookup reports a fault |
| SwapIn.BindAndInstallMapsPage | vm/swapfile.c:165-184 | after binding and the TLB install, the page is resident in the new frame and mapped by the TLB |
| SwapIn.SwapInMakesResident | vm/swapfile.c:152-200 | after `read_from_swap`, even when the read fails, the page is resident in a frame owned by the caller |
| SwapIn.KeepsSwapFieldsConsistent | vm/swapfile.c:166 | keeping every PTE's slot and IN_SWAP bit keeps the slot correspondence |
| SwapIn.MarkValidIdempotent | vm/swapfile.c:184-195 | setting VALID a second time changes nothing |
| SwapIn.ReadFromSwap | vm/swapfile.c:152-200 | the method leaves result and state as `ReadFromSwapSpec` |
| SwapIn.BindSwapInFrame | vm/swapfile.c:169-172 | the frame, its owner and the PTE's frame index are set as `BindFrame` says |
| SwapIn.SetValid | vm/swapfile.c:184 | the PTE becomes `MarkValid` of itself and nothing else changes |
| SwapIn.InstallSwappedPage | vm/swapfile.c:165-184 | binding, TLB install and VALID leave the state as `BindAndInstall` |
| SwapIn.FinishSwapIn | vm/swapfile.c:165-199 | the state becomes `BindAndInstall`, and the result is 0, or -1 when the read failed |
| SwapIn.SwapInKeepsSwapConsistent | vm/swapfile.c:152-200 | swap-in keeps the slot correspondence: the page keeps IN_SWAP and its slot, which is not freed |
| AsLoad.AsPrepareLoadSpec | vm/addrspace.c:375-410 | `as_prepare_load` sets the three bases and nothing else in the new address space, and keeps the machine well-formed |
| AsLoad.PrepareLoadBases | vm/addrspace.c:381-401 | it halts or returns 0 (the ENOMEM returns are unreachable); on 0 the three bases are non-zero frame addresses |
| AsLoad.CopiedLayout | vm/addrspace.c:126-141 | the copy has the original's region bases and sizes, no physical bases and no PTEs |
| AsLoad.AsCopyKeepsLayoutButNoPtes | vm/addrspace.c:122-168 | `as_copy` halts or returns 0 with the original's layout and three bases set, but no PTEs, so the copy is not well-formed |
| AsLoad.AsCopySpec | vm/addrspace.c:122-168 | `as_copy` keeps the machine well-formed and the frame table's shape |
| AsLoad.AsPrepareLoad | vm/addrspace.c:375-410 | the method leaves result, new address space and state as `AsPrepareLoadSpec` |
| AsLoad.AsCopy | vm/addrspace.c:122-168 | the method leaves result, copy and state as `AsCopySpec` |
| Elf.ReadHeader | syscall/loadelf.c:198-232 | a header is accepted iff it was read without a device error, whole, and passes every identification, version, type and machine test; a device error is returned as it is (`IoError`), any other refusal is ENOEXEC |
| Elf.PhdrOffset | syscall/loadelf.c:250 | header i lies at `e_phoff + i * e_phentsize` |
| Elf.Kind | syscall/loadelf.c:264-273 | PT_LOAD is loaded, PT_NULL, PT_PHDR and PT_MIPS_REGINFO are skipped, any other type is refused |
| Elf.DefineFrom | syscall/loadelf.c:249-283 | the header walk fails only with the device error, ENOEXEC or EUNIMP, never touches the stack, and never redefines a text region once it is set |
| Elf.LoadElfSpec | syscall/loadelf.c:183-338 | `load_elf` fails only with the device error, ENOEXEC or EUNIMP; a refused header changes nothing; the stack is never touched |
| Elf.DefineFromReadsAll | syscall/loadelf.c:249-283 | a successful header walk read every header whole and without a device error, and met no unknown type |
| Elf.DefineFromEntry | syscall/loadelf.c:335-337 | a successful walk returns `e_entry` |
| Elf.LoadElfResult | syscall/loadelf.c:183-338 | `load_elf` returns the header's own errno (device error or ENOEXEC) on a refused header and changes nothing; when it succeeds it returns `e_entry` and every header was read and of a known type |
| Elf.TwoLoadHeadersDefineTextAndData | syscall/loadelf.c:275-282 | two PT_LOAD headers read without error on a fresh address space define text from the first and data from the second |
| Elf.LoadElf | syscall/loadelf.c:183-338 | the method leaves result and address space as `LoadElfSpec` |
| Elf.PlanPage | syscall/loadelf.c:488-503 | a page past the file image is zero-filled; otherwise the rest of the image is read, one page at most |
| Elf.PagesCoverFileImage | syscall/loadelf.c:488-503 | consecutive pages read the whole file image: full pages until the last, which ends exactly at `p_filesz` |
| Elf.LoadSegmentSpec | syscall/loadelf.c:94-175 | `load_segment` clamps filesize to memsize, fails iff the read meets a device error (returned as it is) or reads one byte or more past the end of the file (ENOEXEC), and otherwise zero-fills the rest of memsize; a read of no bytes is never short |
| Demand.FrameIndex | vm/pt.c:125 | a frame address indexes its frame |
| Demand.LoadPageSpec | vm/pt.c:122-164 | `load_page` on the machine keeps the layout, changes only the frames and the page's PTE, and nothing for an address outside every segment |
| Demand.LoadPageMakesResident | vm/pt.c:122-164 | after `load_page` the page is resident in the frame at `paddr`, owned by the caller |
| Demand.RrSlotNext | syscall/loadelf.c:458-486 | the round-robin search visits consecutive slots modulo NUM_TLB |
| Demand.RrFreeFrom | syscall/loadelf.c:458-486 | the search finds an invalid slot, or -1 exactly when every slot it visits is valid |
| Demand.RrFreeFailsOnlyWhenFull | syscall/loadelf.c:458-486 | the round-robin search fails iff every TLB slot is valid |
| Demand.ProbeFindsWrite | syscall/loadelf.c:458-486 | writing an entry into a slot with no earlier copy makes the probe find that slot |
| Demand.InstallSpec | syscall/loadelf.c:458-486 | the page is installed in one slot with the loaded entry and no other slot changes; it spins iff the page is not mapped and every slot is valid |
| Demand.Reprotect | syscall/loadelf.c:516-526 | a segment without PF_W has the page's TLB entry rewritten read-only |
| Demand.FinishSpec | syscall/loadelf.c:516-526 | after a successful load, with the PTE marked MODIFIED and the entry made read-only without PF_W, the page stays loadable and the layout, frames, swap state and `next_victim` are kept; a writable segment's TLB is left alone |
| Demand.PageStatus | syscall/loadelf.c:488-503 | a zero page always succeeds; a read page returns the device error as it is, or ENOEXEC when one byte or more of it lies past the end of the file |
| Demand.LoadFromHeader | syscall/loadelf.c:453-526 | loading one page from its header keeps the page loadable, the layout, the swap state and the table's size, and returns 0, ENOEXEC or the device error |
| Demand.LoadedPageIsMapped | syscall/loadelf.c:453-526 | a page loaded from its header is resident in the frame, owned by the caller and MODIFIED, and the TLB maps it writable exactly when the segment has PF_W |
| Demand.MatchBase | syscall/loadelf.c:434-447 | a header matches iff its `p_vaddr` is the base of the region the faulting page lies in |
| Demand.OnDemandFrom | syscall/loadelf.c:414-527 | the header walk keeps the layout and the swap state, and returns 0, ENOEXEC or the device error when it ends |
| Demand.OnDemandSpec | syscall/loadelf.c:341-531 | `On_Demand_Loading` keeps the address space well-formed, and returns 0, ENOEXEC or the device error unless it halts |
| Demand.RefusedExecutableChangesNothing | syscall/loadelf.c:358-392 | a refused header returns its own errno (device error or ENOEXEC) before any frame is taken |
| Demand.NoMatchLoadsNothing | syscall/loadelf.c:414-527 | a walk that matches no header returns 0 and changes nothing; the page stays absent |
| Demand.ZeroPageEndsWalk | syscall/loadelf.c:488-503 | after a zero page the reused index ends the walk in an executable with at most 4097 headers |
| Demand.StackLoadingSpec | syscall/loadelf.c:534-564 | `stack_loading` keeps the address space well-formed and returns 0 unless it halts |
| Demand.StackPageIsResident | syscall/loadelf.c:534-564 | a stack page loaded by `stack_loading` is resident in a frame owned by the caller with the STACK tag |
| Demand.LoadPageInto | vm/pt.c:122-164 | the method leaves the state as `LoadPageSpec` |
| Demand.RrSearch | syscall/loadelf.c:458-486 | the search returns `RrFreeFrom` and moves `next_victim` past the slot found |
| Demand.InstallPage | syscall/loadelf.c:458-486 | the method returns `InstallSpec` and leaves the state as its result, or unchanged when it halts |
| Demand.FinishPage | syscall/loadelf.c:516-526 | the state becomes `FinishSpec` of the old state |
| Demand.LoadHeaderPage | syscall/loadelf.c:453-526 | the method leaves result and state as `LoadFromHeader` |
| Demand.WalkHeader | syscall/loadelf.c:414-527 | one iteration of the header loop: the walk from i equals its result when it ends here, or the walk from a later header on the new state |
| Demand.OnDemandLoading | syscall/loadelf.c:341-531 | the method leaves result and state as `OnDemandSpec` |
| Demand.StackLoading | syscall/loadelf.c:534-564 | the method leaves result and state as `StackLoadingSpec` |
| VmFault.NumberedLocate | vm/pt.c:85-106 | in a numbered address space the PTE found for a page has that page as its page number |
| VmFault.FaultNotSetUp | vm/pt.c:39-102 | in an address space that is not set up, a fault panics at `segment_type`'s KASSERTs when a base or size is 0; with every region defined but no PTE arrays, a fault outside every segment is EFAULT and any other panics in `array_get` |
| VmFault.ResidentPaddr | vm/vm.c:181 | a resident page's frame address is page-aligned and a frame of the table |
| VmFault.RefillSpec | vm/vm.c:276-281 | refilling a resident page always succeeds and keeps the layout |
| VmFault.SwapInThenResident | vm/pt.c:178-187 | a page in swap can be swapped in, and after a 0 result it is resident |
| VmFault.SwapInThenRefill | vm/vm.c:235-248 | swapping a page in and refilling the TLB keeps the machine well-formed |
| VmFault.StackThenRefill | vm/vm.c:250-262 | loading a stack page and refilling the TLB keeps the machine well-formed |
| VmFault.ReadWriteFault | vm/vm.c:212-281 | the read and write cases of `vm_fault` keep the machine well-formed |
| VmFault.ReadOnlyFault | vm/vm.c:156-204 | the read-only case of `vm_fault` keeps the machine well-formed |
| VmFault.VmFaultSpec | vm/vm.c:140-289 | `vm_fault` keeps the machine well-formed, also on an address space without PTEs or with a region left undefined |
| VmFault.FaultOutsideSegmentsIsEfault | vm/vm.c:175-266 | a fault outside every segment (or with no address space) is EFAULT and changes nothing, also in a copy without PTEs |
| VmFault.ResidentFaultRefills | vm/vm.c:267-281 | a read or write fault on a resident page returns 0, maps it in the TLB, and changes no frame, no swap state and no other PTE |
| VmFault.WriteToLoadedTextExits | vm/vm.c:185-203 | a write to a resident page that is MODIFIED and not DIRTY (loaded text) makes the process exit and changes nothing |
| VmFault.CopyFaultPanics | vm/addrspace.c:122-168 | in the address space `as_copy` returns, a fault outside every segment of the original is EFAULT and any other fault panics, changing nothing |
| VmFault.OneRegionFaultPanics | vm/pt.c:39-56 | for an executable with one PT_LOAD header (text and stack defined, `as_vbase2` 0), every read, write or read-only fault with a process panics at `segment_type`'s KASSERT and changes nothing |
| VmFault.InvalidAddress | vm/vm.c:370-417 | `vm_invalidaddress` flags every address without a process or address space, and otherwise exactly the addresses outside text, data and stack |
| VmFault.InvalidAddressMatchesFault | vm/vm.c:403-414 | an address is invalid iff `segment_type` gives -1 for its page |
| VmFault.Refill | vm/vm.c:276-281 | the method leaves result and state as `RefillSpec` |
| VmFault.SwapInFault | vm/vm.c:235-248 | the method leaves result and state as `SwapInThenRefill` |
| VmFault.StackFault | vm/vm.c:250-262 | the method leaves result and state as `StackThenRefill` |
| VmFault.ReadWriteFaultOn | vm/vm.c:212-281 | the method leaves result and state as `ReadWriteFault` |
| VmFault.ReadOnlyFaultOn | vm/vm.c:156-204 | the method leaves result and state as `ReadOnlyFault` |
| VmFault.VmFaultOn | vm/vm.c:140-289 | the method leaves result and state as `VmFaultSpec` |
| FileTables.AddU32 | syscall/filetable.c:104 | `num_files` arithmetic wraps modulo 2^32 and is exact in range |
| FileTables.FirstClear | syscall/filetable.c:99-108 | the lowest clear descriptor, or -1 exactly when all are set |
| FileTables.CountSet | syscall/filetable.c:104 | the number of set bits is 0 iff none is set |
| FileTables.CountMark | syscall/filetable.c:102-104 | marking a clear bit adds one to the count |
| FileTables.CountUnmark | syscall/filetable.c:134-136 | unmarking a set bit takes one from the count |
| FileTables.OpenFile.constructor | syscall/filetable.c:87-93 | a new File has the vnode, the flags, the descriptor and offset 0 |
| FileTables.FileTable.constructor | syscall/filetable.c:16-35 | a new table is empty, consistent and counted |
| FileTables.FileTable.Create | syscall/filetable.c:16-35 | `create_filetable` is NULL when either allocation fails, else an empty table with `num_files` 0 |
| FileTables.FileTable.Exists | syscall/filetable.c:113-120 | `file_exists_in_table`: EBADF iff fd >= OPEN_MAX, else the bitmap bit |
| FileTables.FileTable.GetFileById | syscall/filetable.c:144-153 | `get_file_by_id` succeeds iff fd < OPEN_MAX, and is EBADF otherwise |
| FileTables.FileTable.CreateFile | syscall/filetable.c:86-111 | -1 when the allocation fails; EMFILE when full; otherwise the lowest clear descriptor gets the file and `num_files` one more, keeping bitmap, files and count consistent |
| FileTables.FileTable.Close | syscall/filetable.c:124-139 | -1 for a closed descriptor with nothing changed; otherwise the bit and slot are cleared, `num_files` decremented and the File's vnode dropped |
| FileTables.FileTable.Destroy | syscall/filetable.c:59-83 | only descriptors 0-2 are cleared, `num_files` drops by how many of them were set, and consistency and the count are kept |
| FileTables.FileTable.DuplicateFrom | syscall/filetable.c:37-57 | `num_files` is copied first; -1 when the bitmap cannot be made; otherwise the copy has the source's bitmap and File pointers, and duplicating a table into itself empties it |
| ProcTables.EmptyTable | syscall/proctable.c:13-15 | OPEN_MAX slots, all NULL |
| ProcTables.FirstFreePid | syscall/proctable.c:39-49 | the lowest free pid from 1, or -1 exactly when slots 1 to OPEN_MAX-1 are all taken |
| ProcTables.AddSpec | syscall/proctable.c:34-50 | the process goes into the lowest free slot from 1 and gets that pid; a full table is unchanged |
| ProcTables.PidCheckAsWritten | syscall/proctable.c:28 | as written, the guard admits every negative pid and every pid from 1 to OPEN_MAX |
| ProcTables.PidCheckReadsOutsideTable | syscall/proctable.c:28-31 | pid OPEN_MAX and pid -1 pass the guard but are not indexes of the table |
| ProcTables.LookupPid | syscall/proctable.c:25-32 | corrected lookup: a process is returned only for 0 < pid < OPEN_MAX, and then it is the table's slot |
| ProcTables.RemoveCheckAsWritten | syscall/proctable.c:55 | as written, the guard admits every pid below OPEN_MAX, negative ones included |
| ProcTables.RemoveCheckReadsOutsideTable | syscall/proctable.c:55 | pid -1 passes the guard but is not an index of the table |
| ProcTables.RemoveSpec | syscall/proctable.c:52-62 | corrected removal: the slot is cleared iff 0 <= pid < OPEN_MAX and it holds p; otherwise nothing changes |
| ProcTables.AddThenLookup | syscall/proctable.c:34-50 | after adding, the new pid looks up the process and every other pid looks up what it did before |
| ProcTables.RemoveThenLookup | syscall/proctable.c:52-62 | after removing p at its pid, that pid looks up nothing |
| ProcTables.LookupLastsUntilRemoved | syscall/proctable.c:25-62 | over any sequence of adds and removes, a registered process stays found at its pid until it is removed there |
| ProcTables.CanAddAsWrittenIsInverted | syscall/proctable.c:64-71 | on an empty table `can_add_to_proctable` says false though pids are free; on a full table it says true though none is |
| ProcTables.ProcTable.constructor | syscall/proctable.c:11-16 | a new table has every slot NULL and no processes running |
| ProcTables.Kernel.GetProctable | syscall/proctable.c:9-23 | the first call creates the empty table; later calls return the same table, unchanged |
| ProcTables.Kernel.GetProcByPid | syscall/proctable.c:25-32 | returns `LookupPid` of the table (with the corrected bounds) and changes no slot |
| ProcTables.Kernel.AddProcToTable | syscall/proctable.c:34-50 | the table and the process's pid become as `AddSpec` says |
| ProcTables.Kernel.RemoveProcFromTable | syscall/proctable.c:52-62 | the table becomes `RemoveSpec` of the old table at the process's pid |
| ProcTables.Kernel.CanAddToProctable | syscall/proctable.c:64-71 | as written: dereferences NULL before the table exists; otherwise true iff some slot is occupied |
| ProcTables.Kernel.HasFreePid | syscall/proctable.c:64-71 | corrected: true iff `add_proc_to_table` would find a free pid (a table not yet created has them all) |

## Left out

- Page contents are not modelled: the bytes `bzero`, `memmove`, `uiomove`, `VOP_READ` and `VOP_WRITE` move. A swap read or write is a boolean success parameter; a read of the executable fails at the offsets in `ElfFile.readErrors`, with the one errno `IoError` standing for whatever the device returns. `load_segment` is modelled by how many bytes it reads and zero-fills.
- The statistics counters (`vmstats_inc`), `spl` interrupt masking, `kprintf`, `DEBUG` and `printCoremap` have no effect on the state and are left out.
- The locks and condition variables (`coremap_lk`, `rw_lock`, the process table's `pt_cv`, `pt_lock` and `pt_lock2`) are left out. Concurrency is not modelled.
- `kmalloc` and `kfree`, `vfs_open`, `vfs_close`, `VOP_INCOPEN`, `kstrdup` and `lock_create` are outside the model. Where a failure changes the outcome, it is a parameter (`Create`, `CreateFile`, `DuplicateFrom`).
- `as_create`: a failing `array_create` and the opening of the executable are not modelled. The executable is a parameter of the fault path.
- `get_proctable`: a failing `kmalloc` is not modelled; the source only KASSERTs it.
- `duplicate_filetable`: the `kfree(dest)` on failure is not modelled. The table is left in place with the copied `num_files`.
- `Pvictim` and `On_Demand_Loading` can loop forever. That is modelled as the halt `Stop(Spins)`, not as a non-terminating method.
- `On_Demand_Loading`: when no program header matches, the frame it took stays allocated and is owned by no PTE. `NoMatchLoadsNothing` states that the PTE is unchanged; the leak itself is not a separate property.
- `load_elf`: only the `OPT_A3` branch is modelled. It defines regions and loads nothing, and its `as_prepare_load` is not called.
- The `VM_FAULT_READONLY` case of `vm_fault` falls through to the read case only for a PTE without VALID. No such PTE reaches that point, so the fall-through is not modelled.
- `tlb_read` calls around `TLB_updating` in `read_from_swap` only read registers and are left out.
- The physical address handed to `as_zero_region` by `write_to_swap` and `free_kpages` is not modelled, since it only zero-fills.
- `get_file_by_id` stores the File only in its own parameter (`ret = ft->files[fd]`), so the caller receives nothing. The model returns the status only.
- `FileTables.FileTable.Exists`: the source returns `EBADF` (a non-zero int) for a bad handle, and the bit otherwise. The model keeps the two apart as `BadHandle` and `Bit`.
- `FileTables.FileTable.Close` and `FileTables.FileTable.GetFileById` require `fd < OPEN_MAX` and a set bit respectively, because the source's `bitmap_isset` and its KASSERT do.
- `VmFault.VmFaultSpec`, `VmFault.SwapInThenRefill`, `VmFault.StackThenRefill`, `VmFault.ReadWriteFault`, `VmFault.ReadOnlyFault`, `Demand.OnDemandSpec`, `Demand.StackLoadingSpec`, `FrameAlloc.GetFramesSpec`, `FrameAlloc.AllocKpagesSpec`, `SwapIn.ReadFromSwapSpec`, `SwapIn.BindAndInstall`, `AsLoad.AsCopySpec` and `TlbRefill.TlbUpdateSpec`: their own `ensures` state only the invariants they keep. What they compute is stated by the lemmas listed next to them above.
- TlbRefill.FillFreeSlot, TlbRefill.TlbUpdateSpec, TlbRefill.TlbUpdating: the refill uses the corrected bump, so that `next_victim` stays a slot index as `Tlb.Valid` and the machine invariant require; the as-written counter, and how it leaves the TLB, is modelled by `TlbRefill.FreeFills` with `TlbRefill.NextVictimLeavesTlb`.
- Coremap.FrameTable.FreeKpages, Coremap.FrameTable.FreeKpagesAsWritten: require the computed index and its run to lie inside the table; the source reads outside the array there, which is not a checked halt and is not modelled. `curproc` is a process, never NULL.
- AddrSpaces.AsDestroy: after a panic part-way through the teardown, which frames were already released is not described.
- `as_copy` returns an address space without PTEs. The model takes it through `vm_fault` (`VmFault.CopyFaultPanics`) and `as_destroy` (`AddrSpaces.AsDestroy`), where the source panics; the other operations are stated for well-formed address spaces only.
- An executable whose `PT_LOAD` headers define only a text region leaves `as_vbase2` at 0, and `vm_fault` then panics at `segment_type`'s KASSERT (`VmFault.OneRegionFaultPanics`). The model follows that panic; it does not model a kernel that accepts such executables.
- The swap file's 2304-slot capacity, page size and `SWAPFILE_SIZE` are taken from the source as constants. The fault handler and TLB registers are modelled, not the MIPS hardware.

## Findings

| source | as written | input that shows it | evidently intended | confidence | as-written member | corrected member |
|---|---|---|---|---|---|---|
| vm/vm.c:97-104 | `free_kpages` compares the address with `lo_paddr` and indexes from it, but `get_global_coremap` (vm/coremap.c:50-54) advanced `lo_paddr` past the last frame | any address `alloc_kpages` returned once the coremap exists: its physical address is below `lo_paddr`, so the function returns early and the frames stay occupied | index from the first frame's address, `coremap[0]->cm_paddr`, as `load_page` does | high; not executed | Coremap.FrameTable.FreeKpagesAsWritten, Coremap.FreeKpagesAsWrittenFreesNothing | Coremap.FrameTable.FreeKpages, Coremap.FreeKpagesFindsTheRun |
| vm/vm.c:336-338 | after filling free slot i, `next_victim += 1` when it equals i, with no wrap | filling slot 63 while `next_victim == 63` leaves `next_victim == 64`; the next round-robin replacement writes TLB slot 64, which does not exist | advance modulo NUM_TLB, as `tlb_get_rr_victim` (vm/vm.c:36-41) does | high; not executed | Tlb.BumpAsWritten, TlbRefill.NextVictimLeavesTlb | Tlb.Bump, TlbRefill.RefillKeepsVictimInRange |
| syscall/proctable.c:28-31 | `get_proc_by_pid` rejects only `pid == 0 \|\| pid > OPEN_MAX` before reading `processes[pid]` | pid = OPEN_MAX (128) or pid = -1 passes the guard and reads outside the OPEN_MAX-slot array | accept only 0 < pid < OPEN_MAX | high; not executed | ProcTables.PidCheckAsWritten, ProcTables.PidCheckReadsOutsideTable | ProcTables.LookupPid, ProcTables.Kernel.GetProcByPid |
| syscall/proctable.c:55-56 | `remove_proc_from_table` checks only `p_pid < OPEN_MAX` before reading `processes[p_pid]` | a process whose pid is -1 passes the guard and reads `processes[-1]` | check 0 <= pid < OPEN_MAX | medium; not executed | ProcTables.RemoveCheckAsWritten, ProcTables.RemoveCheckReadsOutsideTable | ProcTables.RemoveSpec, ProcTables.Kernel.RemoveProcFromTable |
| syscall/proctable.c:64-71 | `can_add_to_proctable` returns true as soon as some slot is occupied | an empty table gives false although every pid is free; a full table gives true although `add_proc_to_table` will find no pid | true iff some pid from 1 is free | medium; not executed | ProcTables.Kernel.CanAddToProctable, ProcTables.CanAddAsWrittenIsInverted | ProcTables.Kernel.HasFreePid |
