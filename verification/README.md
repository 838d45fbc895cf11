# M12 kernel: a verified model

M12 is a small x86-64 kernel. This project models the four parts of it that hold state, and proves
what they promise over all inputs and all runs:

- the **physical page allocator** (`kernel/memory.c`): the E820 parser, the bitmap, first-fit
  allocation, freeing, range reservation and the search for contiguous pages;
- the **four-level page tables** (`kernel/paging.c`, `include/paging.h`): `map_page`, the copying of the
  boot mappings, the kernel window and `Init_Paging`, on tables that come from that allocator;
- the **process table and scheduler** (`kernel/process.c`): creation, fork, exit, brk and round robin,
  with stacks from the same allocator;
- the **VGA terminal and number printers** (`kernel/vga.c`).

Check everything with `dafny verify dfyconfig.toml`.

## How it is built

Each part has two layers. The imperative layer keeps the source's own form: classes whose fields are
the source's static variables, an `array<bv8>` bitmap, an `array` of slots, an `array` of screen cells,
and the source's loops. The value layer gives every operation as a function on plain values, and the
theorems are about those functions. Each imperative method is proved to compute its function.

| file | holds |
|---|---|
| `Words.dfy`, `PhysicalMemory.dfy` | machine words, bitwise OR, memory as 4 KB frames |
| `PagePool.dfy` | the allocator as a set of free pages; traces of gets and frees |
| `MemoryMap.dfy` | the E820 parser and the sizes that follow from it |
| `PageAllocator.dfy` | class `PageAllocator`: the bitmap in memory |
| `PageTables.dfy` | the hardware walk, the tree invariant, walks under edits |
| `Mappings.dfy` | table creation and leaf installation, and what they do to translations |
| `KernelPaging.dfy` | `map_page`, `Init_Paging`, the boot tables, `get_physical_address` |
| `PagingUnit.dfy` | class `Paging` |
| `Processes.dfy` | the process table, its order, the scheduler, the counter |
| `ProcessManager.dfy` | class `ProcessManager` |
| `KernelSystem.dfy` | all of the above as one state machine, and its runs |
| `KernelRuns.dfy` | what every run from boot keeps in absolute terms: translations, user access, the counter |
| `StackPointers.dfy` | over every run: the `rsp` field of each context, and the word the context switch really loads |
| `Kernel.dfy` | `_kmain` and every operation follow that state machine |
| `TextTape.dfy`, `Numerals.dfy`, `Terminal.dfy` | the screen against an unbounded tape, numerals, class `Terminal` |

The tree invariant of the page tables labels each table frame with the one path of indices that leads
to it. From it follows that no table is shared (`PageTables.NothingShared`), so an edit can only be seen
by addresses whose path runs through the edited entry. Freshness of new tables comes from the
allocator: no labelled frame is ever on the free list.

## Assumptions

- Physical memory is directly addressable, as the casts at kernel/paging.c:149 and
  kernel/memory.c:216 take for granted. In every state reached from boot page `i` is in fact found at its
  own address exactly when the last mapping over that address is onto the page's own 2 MB block, or there
  was none and `i` is below 256 (`KernelRuns.PageAtOwnAddress`). So without such a mapping the clearing of
  a new page leaves mapped memory at page 256.
- At boot the tables of boot/boot.asm:62-90 are in place and their unwritten entries are zero; the
  boot code itself clears only the PML4.
- The bitmap at 0x60000 is kept apart from the modelled frames. `MemoryMap.BitmapFits` justifies this.
- `switch_process` writes the old stack pointer to offset 0 of the old context and loads the new one from
  offset 0 of the new context (kernel/context_switch_.asm:16-19), which is the field `r15` of the C struct (include/process.h:21).
- In the state machine every operation runs with a current process, as it does after
  `InitProcessManager`. The methods also cover the null pointer wherever the source checks for it.

## Where natural claims fail

Each of these has an exact condition, for all inputs.

- The process counter equals the number of live processes exactly when the number of creations that
  failed for want of stacks plus the number of zombie exits is a multiple of 2^32
  (`KernelSystem.CountLaw`, `KernelSystem.FailedCreateMiscounts`, `Processes.ExitTwiceWraps`). A machine
  with five pages reaches a miscount in one step (`KernelRuns.MiscountIsReachable`). While that number is
  zero the counter never underflows (`KernelRuns.NoUnderflowFromBoot`).
- An exit hands over to a READY process exactly when the counter still exceeds 1 and another slot is
  READY (`Processes.ExitOutcome`, `Processes.ExitOfTwoStalls`). One creation after boot reaches the state
  in which it does not (`KernelRuns.StallIsReachable`).
- The managed pages lie inside the chosen E820 block exactly when it starts at or below 1 MB, or no page
  fits (`MemoryMap.ManagedInsideIff`, `MemoryMap.HighBlockIsMismanaged`).
- A reserved range covers every page it touches exactly when its clipped end is page aligned or past the
  last page, or nothing is left of it after clipping (`PagePool.MarkCoversIff`).
- `find_contiguous_free_pages` answers 0 exactly when there is no run or the run starts at page 0
  (`Allocator.PageAllocator.FindContiguous`).
- `Init_Memory` leaves the counter right exactly when it was zero before (`Allocator.PageAllocator.Init`).
- `map_page` maps base plus offset exactly when the base is 2 MB aligned (`KernelPaging.ExactBaseIff`).
- `get_physical_address` agrees with the hardware in a state reached from boot exactly when the last
  mapping of the address is present and onto the 2 MB block the shortcut names, or, with no mapping since
  boot, on the first 2 MB and on the kernel window if that could be set up
  (`KernelRuns.ShortcutOverRuns`). Mapping the first 2 MB anywhere but to 0 breaks it there
  (`KernelRuns.RemapBreaksShortcut`).
- `map_page` with `PAGE_USER` gives user access only where the upper levels already do. Over every run
  from boot an address is user-accessible exactly when it lies under PML4 slots 1 to 510 and the last
  mapping over it is present and asks for user access (`KernelRuns.UserAccessOverRuns`).
- A `map_page` that fails leaves memory and pool as they were, except exactly when the PML4 slot was
  empty and one page was left: then the new PDPT stays (`KernelPaging.FailureLeavesTraceIff`,
  `KernelPaging.LastPageIsLinked`).
- A forked child does not inherit its parent's break: a slot's break is the last nonzero address given
  while that slot was current, or 0x400000 (`KernelRuns.BreakOverRuns`).
- A creation that finds fewer than two pages leaves a slot that is READY and will be scheduled; its
  kernel stack is a page that has gone back to the allocator exactly when one page was left
  (`Processes.FailedCreateDangles`).
- The `rsp` field of a slot's context points into the slot's own kernel stack exactly when the slot has
  stacks and was not filled by fork (`StackPointers.OwnStackOverRuns`). But `switch_process` never reads
  that field: it loads word 0 of the context. A switch to a process loads a null stack pointer exactly
  when the process last left with one, or never left and was not forked by a process that held a nonzero
  word (`StackPointers.NullStackIff`). So does the first switch to a process made by `create_process`
  (`StackPointers.FirstSwitchLoadsNull`).

## Model

| member | source | states |
|---|---|---|
| `PagePool.TraceRefinesHeldSet` | kernel/memory.c:190-259 | over every trace of gets and frees, double and invalid frees included, the free set is the complement of the pages the client holds, and `used_pages` is how many it holds |
| `PagePool.TraceGetIsFresh` | kernel/memory.c:190-223 | after any trace the next page handed out is the lowest one nobody holds, it is zero, and no other frame changed; null exactly when all are held |
| `PagePool.GetValid` | kernel/memory.c:190-223 | a get keeps counter and free set in agreement and fails exactly when the counter has reached the total |
| `PagePool.ReleaseValid` | kernel/memory.c:225-259 | freeing any address whatever keeps counter and free set in agreement |
| `PagePool.ReleaseEffect` | kernel/memory.c:225-259 | an address that names a page in use gives that page back, cleared; every other address, a page already free included, changes nothing at all |
| `PagePool.GetThenRelease` | kernel/memory.c:190-259 | get followed by free of the result restores free set and counter |
| `PagePool.MarkUsedCount` | kernel/memory.c:120-137 | the counter rises by exactly the number of pages newly taken |
| `PagePool.MarkUsedValid` | kernel/memory.c:120-137 | reserving keeps the agreement, takes exactly the pages of the range, and is idempotent |
| `PagePool.RangeIs` | kernel/memory.c:120-137 | the pages taken are exactly the managed ones that end after `start` and no later than `end` |
| `PagePool.MarkCoversIff` | kernel/memory.c:121-128 | every managed page the range overlaps is reserved if and only if the clipped end is page aligned or past the last page, or the clipped range is empty |
| `PagePool.MarkTakesOnlyOverlap` | kernel/memory.c:121-128 | every page taken shares a byte with the clipped range |
| `MemoryMap.SafeParse` | kernel/memory.c:31-117 | the parser picks the earliest entry with the largest usable length above 1 MB, without 64-bit overflow; the end is that block's end capped at 4 GB and above 1 MB; -1 exactly for a bad count or no usable block |
| `MemoryMap.ParseUnique` | kernel/memory.c:55-96 | the parser's answer is determined by the map |
| `MemoryMap.UsableIs` | kernel/memory.c:59-106 | an entry of type 1 with 64-bit base and length up to 4 GB contributes exactly its bytes at or above 1 MB, any other entry nothing; its end is cut at 4 GB |
| `MemoryMap.FallbackEnd` | kernel/memory.c:143-151 | parsing fails exactly on no entry, more than 50, or none usable, and then the end is 0x20000000 |
| `MemoryMap.EarliestWins` | kernel/memory.c:71-92 | of two blocks of equal usable size the first is taken |
| `MemoryMap.ManagedInsideIff` | kernel/memory.c:102-153 | all managed pages lie inside the chosen block if and only if it starts at or below 1 MB or no page fits |
| `MemoryMap.HighBlockIsMismanaged` | kernel/memory.c:72-113 | with a single usable block at 16 MB, page 0 lies outside it |
| `MemoryMap.BitmapFits` | kernel/memory.c:26-28 | for every memory end the bitmap stops at or below 0x7FFE0, clear of video memory and managed pages |
| `MemoryMap.BootReservationsEmpty` | kernel/memory.c:170-184 | all five boot reservations change nothing |
| `Allocator.BitMoves` | kernel/memory.c:198-203 | clearing or setting one bit through byte index and mask moves that page and no other |
| `Allocator.ByteFormat` | kernel/memory.c:128-136 | a byte is tested, cleared and set with the masks 1, 2, 4 up to 128 |
| `Allocator.BitmapFormat` | kernel/memory.c:198-199 | page `i` is bit `i % 8` from the low end of byte `i / 8`, set when the page is free |
| `Allocator.PageAllocator.constructor` | kernel/memory.c:5-9 | the static initial state: no bitmap, no pages, nothing used, the default memory end of 512 MB |
| `Allocator.PageAllocator.Init` | kernel/memory.c:143-188 | every page comes out free, the page count follows from the parsed end, and counter and bitmap agree if and only if the counter was zero before |
| `Allocator.PageAllocator.MarkRangeUsed` | kernel/memory.c:120-137 | the bitmap follows the reserved set; padding bits past the last page keep their value |
| `Allocator.PageAllocator.MarkPages` | kernel/memory.c:128-136 | the loop frees nothing, takes exactly its interval, and conserves counter plus free pages |
| `Allocator.PageAllocator.FirstFree` | kernel/memory.c:197-222 | the search finds the lowest free page |
| `Allocator.PageAllocator.GetPhysicalPage` | kernel/memory.c:190-223 | the bitmap operation is the set operation; the rollback branch cannot be reached |
| `Allocator.PageAllocator.FreePhysicalPage` | kernel/memory.c:225-259 | the bitmap operation is the set operation, for every address |
| `Allocator.PageAllocator.FindContiguous` | kernel/memory.c:261-289 | a nonzero result is a genuine free run and the lowest; 0 exactly when there is none or it starts at page 0 |
| `Allocator.PageAllocator.GetFreeMemory` | kernel/memory.c:295-297 | the counter arithmetic is the size of the free set in bytes |
| `PageTables.NothingShared` | kernel/paging.c:127-172 | in a tree no table is reached by two different paths |
| `PageTables.WalkAvoids` | kernel/paging.c:166-169 | an edit is invisible to addresses whose path avoids the edited entry, rights included |
| `PageTables.WalkLink` | kernel/paging.c:135-146 | hanging an empty table on an absent entry changes no translation |
| `PageTables.WalkKeeps` | kernel/paging.c:15-31 | tables whose entries are unchanged translate alike |
| `PageTables.UserFromTop` | kernel/paging.c:127-172 | a user translation needs the user flag in the top-level entry: rights only shrink on the way down |
| `Mappings.EnsureTableGood` | kernel/paging.c:135-166 | making or following a table keeps the tree, and leads to the table of the right path |
| `Mappings.EnsureTableWrites` | kernel/paging.c:135-146 | where a table is missing the lowest free page is taken, cleared, and hung as its address plus the link flags; no other word of memory changes |
| `Mappings.EnsureTableInvisible` | kernel/paging.c:135-166 | it changes no translation and no inherited right |
| `Mappings.EnsuredAddress` | kernel/paging.c:149-166 | `entry & ~0xFFF` is the address of the table the hardware would walk to |
| `Mappings.InstallOutcome` | kernel/paging.c:135-164 | an installation succeeds if and only if the pool holds the tables still missing, and takes exactly those |
| `Mappings.InstallWrites` | kernel/paging.c:127-172 | every word an installation writes, in order, and what it leaves when it stops for want of a page |
| `Mappings.InstallTranslation` | kernel/paging.c:127-172 | success changes exactly the target 2 MB region, to the leaf with the rights the upper levels give; a failed allocation at any point changes no translation; the tree is kept either way |
| `Mappings.SameRegionIs2MB` | include/paging.h:21-23 | for canonical addresses equal indices mean the same 2 MB block |
| `Mappings.InstallPages` | kernel/paging.c:135-164 | every page taken becomes a table and every new table is a page taken |
| `Mappings.InstallKeepsEntry` | kernel/paging.c:127-172 | an installation leaves alone every entry off its path, and every upper-level entry that is present or that it finds no page for; it gives no page back and keeps every table's path |
| `KernelPaging.PageLeaf` | kernel/paging.c:169 | the leaf is a huge page, and each flag is set if and only if address or flags set it |
| `KernelPaging.PageLeafBit` | kernel/paging.c:169 | bit by bit, all 64: the leaf is the address, the flags and bit 7 |
| `KernelPaging.MapPageTranslation` | kernel/paging.c:127-172 | for any arguments at all, what every address translates to afterwards |
| `KernelPaging.MapPageMapsBlock` | kernel/paging.c:127-172 | with aligned base and low flags the block maps to base plus offset, with the given flags met with the rights the upper levels leave, or is unmapped without PRESENT; all other addresses are unaffected |
| `KernelPaging.MapPageOutcome` | kernel/paging.c:128-164 | it goes through if and only if the kernel root exists and the missing tables can be had |
| `KernelPaging.MapPageWrites` | kernel/paging.c:127-172 | the words `map_page` writes: PRESENT, WRITABLE and USER (7) on new tables at both levels, the leaf at the PD index; nothing without a kernel root |
| `KernelPaging.LastPageIsLinked` | kernel/paging.c:135-157 | with one page left and no PDPT the call fails with the new PDPT linked and its page taken |
| `KernelPaging.FailureLeavesTraceIff` | kernel/paging.c:135-157 | a call that fails changes memory or pool if and only if it stopped that way |
| `KernelPaging.AlignedLeaf` | kernel/paging.c:169 | for an aligned base the OR of base, flags and PAGE_HUGE decodes to that base and those flags |
| `KernelPaging.ExactBaseIff` | kernel/paging.c:169 | base plus offset for every address if and only if the base is 2 MB aligned |
| `KernelPaging.NewRootTranslation` | kernel/paging.c:15-31 | the copied PML4 translates every address as the boot one did |
| `KernelPaging.InitPagingTranslation` | kernel/paging.c:84-124 | every translation outside the kernel window is kept; on success the window maps to physical 0, supervisor only; on any failure nothing changes |
| `KernelPaging.InitPagingWrites` | kernel/paging.c:84-124 | which PML4 is used (the active one from 1 MB up to 2 MB, otherwise a copy on a new page), every word written (flags 3 on new tables, leaf 0x183), the kernel root and CR3 afterwards, failures included |
| `KernelPaging.InitPagingPages` | kernel/paging.c:84-124 | every page `Init_Paging` takes becomes a page table |
| `KernelPaging.KernelLeaf` | kernel/paging.c:57-77 | the kernel window is exactly the 2 MB region of the kernel base and maps to physical 0 |
| `KernelPaging.BootTree` | boot/boot.asm:62-90 | the boot tables form an unshared tree |
| `KernelPaging.BootWalk` | boot/boot.asm:62-90 | they identity-map exactly the first 2 MB |
| `KernelPaging.BootOutcome` | kernel/paging.c:84-124 | from the boot tables `Init_Paging` succeeds if and only if three pages are free |
| `KernelPaging.BootToKernel` | kernel/paging.c:84-124 | all translations after a successful boot |
| `KernelPaging.ShortcutAgreesIff` | kernel/paging.c:201-206 | right after a successful `Init_Paging` from the boot tables the arithmetic shortcut equals the hardware walk if and only if the address is in the first 2 MB or the kernel window |
| `KernelPaging.PhysicalOffset` | kernel/paging.c:201-206 | the shortcut is the offset within the top 2 GB and the identity below |
| `PagingUnit.Paging.constructor` | kernel/paging.c:5 | no kernel root yet, CR3 as the boot loader set it |
| `PagingUnit.Paging.ClearTable` | kernel/paging.c:142-144 | the zeroing loop clears the whole table |
| `PagingUnit.Paging.CurrentPml4` | kernel/paging.c:8-12 | CR3 without its flag bits |
| `PagingUnit.Paging.NextTable` | kernel/paging.c:135-149 | memory, allocator and table address follow the table-making step |
| `PagingUnit.Paging.ReachTable` | kernel/paging.c:130-166 | both levels, down to the PD |
| `PagingUnit.Paging.MapPage` | kernel/paging.c:127-172 | the memory writes are the `map_page` step |
| `PagingUnit.Paging.CopyBootMappings` | kernel/paging.c:15-31 | the loop copies exactly the present entries |
| `PagingUnit.Paging.SetupKernelMappings` | kernel/paging.c:34-81 | the memory writes are the kernel-window installation |
| `PagingUnit.Paging.BuildRoot` | kernel/paging.c:97-112 | a new PML4 on a fresh page, or null with nothing changed |
| `PagingUnit.Paging.PickRoot` | kernel/paging.c:92-112 | an active PML4 in [1 MB, 2 MB) is reused, otherwise one is built |
| `PagingUnit.Paging.InitPaging` | kernel/paging.c:84-124 | the memory writes and the CR3 switch are the `Init_Paging` step |
| `Processes.FirstUnused` | kernel/process.c:61-67 | the first unused slot, everything before it being in use |
| `Processes.CreateShape` | kernel/process.c:59-124 | a creation fills one slot, READY with the next pid whether it succeeds or not; it succeeds if and only if two pages are free, and only then is it counted and given its start context: the entry point, the top of its own kernel stack, interrupts on, the kernel segments, every other register clear; otherwise the slot keeps its old context |
| `Processes.CreateFull` | kernel/process.c:69-72 | with every slot in use a creation changes nothing |
| `Processes.CreateStacks` | kernel/process.c:87-100 | the lowest free page becomes the kernel stack and the next the user stack, both cleared; what the fields and frames hold when there is one page or none |
| `Processes.CreatePages` | kernel/process.c:87-100 | all or nothing on pages: two distinct fresh ones, or the free set and counter as before; only frames of free pages are written |
| `Processes.CreateOrdered` | kernel/process.c:59-124 | creation keeps the table order and touches no other slot |
| `Processes.PidsUnique` | kernel/process.c:77 | pids are unique and nonzero |
| `Processes.ChainsEndAtIdle` | kernel/process.c:84 | parent chains have no cycle and end at slot 0 |
| `Processes.ForkEffect` | kernel/process.c:174-190 | success exactly when a slot and two pages are free; it then takes two distinct fresh pages, returns the old `next_pid`, counts the child and gives it the parent's saved context with `rax` 0, READY, with a break of 0x400000 and the kernel page table; on failure (-1) pages and counter are as before, and a free slot has become READY, or with none the table is unchanged; no other slot changes either way |
| `Processes.NextReadyNearest` | kernel/process.c:132-151 | the scan stops at the nearest READY slot in cyclic order |
| `Processes.ScheduleCloser` | kernel/process.c:126-152 | an effective call reaches a waiting slot or strictly lowers its cyclic distance |
| `Processes.ScheduleEffect` | kernel/process.c:126-152 | a switch writes one word, in the old context; no switch changes nothing |
| `Processes.ScheduleSwitchesIff` | kernel/process.c:126-152 | a switch happens if and only if more than one process is counted and another slot is READY; at most one counted changes nothing |
| `Processes.ExitOutcome` | kernel/process.c:197-209 | the exiting slot is a zombie with its status; a READY process takes over if and only if the counter still exceeds 1 and another slot is READY |
| `Processes.ExitEffect` | kernel/process.c:197-209 | all an exit touches: state and status of its slot, the counter by one with wrap, and on a handover `current` and word 0 of the slot left; the handover happens if and only if the counter was 0 or above 2 and another slot is READY |
| `Processes.ExitHandsOver` | kernel/process.c:197-209 | with a right counter, an exit that leaves two live processes always makes a READY one current |
| `Processes.ExitOfTwoStalls` | kernel/process.c:127-129 | with two counted processes the zombie stays current beside a READY slot |
| `Processes.ExitTwiceWraps` | kernel/process.c:204 | two exits of the last counted process wrap the 32-bit counter |
| `Processes.ExitGap` | kernel/process.c:197-209 | an exit lowers counter and live processes together, except when a zombie exits |
| `Processes.CreateGap` | kernel/process.c:59-124 | a creation raises both together, except when it gets a slot but no stacks |
| `Processes.BrkEffect` | kernel/process.c:231-239 | null changes nothing; an address changes the break of the current slot and nothing else |
| `Processes.InitOrdered` | kernel/process.c:18-57 | initialisation gives an ordered table with one live, counted, current process, with or without stacks; with stacks it starts at the idle entry, without it keeps the slot's context; every other slot has exactly its six fields cleared |
| `Processes.StackCount` | kernel/process.c:87-100 | distinct stacks occupy two pages for each process created |
| `Processes.FailedCreateDangles` | kernel/process.c:78-100 | a creation that finds a slot but fewer than two pages leaves the slot READY and waiting for its turn; its kernel stack lies in a free page if and only if one page was left, and is null otherwise |
| `ProcessManagement.ProcessManager.constructor` | kernel/process.c:6-9 | the static initial state, every slot zero |
| `ProcessManagement.ProcessManager.FindSlot` | kernel/process.c:61-67 | the slot loop finds the first unused slot |
| `ProcessManagement.ProcessManager.AllocateStacks` | kernel/process.c:87-100 | the two allocations with rollback follow the stack step |
| `ProcessManagement.ProcessManager.CreateProcess` | kernel/process.c:59-124 | allocator, table and result follow the creation step |
| `ProcessManagement.ProcessManager.FindReady` | kernel/process.c:132-151 | the loop over 64 indices finds the next READY slot |
| `ProcessManagement.ProcessManager.Schedule` | kernel/process.c:126-152 | the table follows the scheduling step; without a current process and with at most one counted nothing changes |
| `ProcessManagement.ProcessManager.Fork` | kernel/process.c:174-190 | allocator, table and result follow the fork step |
| `ProcessManagement.ProcessManager.Exit` | kernel/process.c:197-209 | the table follows the exit step, counter wrap included; without a current process nothing changes |
| `ProcessManagement.ProcessManager.Brk` | kernel/process.c:231-239 | a nonzero address becomes the break and is returned; null returns the old break and changes nothing; 0 without a current process |
| `ProcessManagement.ProcessManager.ResetSlots` | kernel/process.c:26-34 | every slot is reset |
| `ProcessManagement.ProcessManager.Init` | kernel/process.c:18-57 | allocator and table follow the initialisation step, fallback included |
| `KernelSystem.UsedPagesFormula` | kernel/memory.c:190-259 | `used_pages` is the number of table pages plus two for every process created |
| `KernelSystem.StepInv` | kernel/process.c:59-239 | every operation keeps the tree, the table order, and the account of pages: tables and stacks are pairwise distinct and are all the pages in use |
| `KernelSystem.RunInv` | kernel/process.c:59-239 | the same over every run, with the formula for `used_pages` |
| `KernelSystem.BootInv` | kernel/main.c:13-19 | the invariant holds after booting, whichever allocations fail |
| `KernelSystem.ReachableInv` | kernel/main.c:13-19 | the invariant and the formula in every state reachable from boot; `next_pid` never exceeds 65 |
| `KernelSystem.PoolSwap` | kernel/process.c:87-100 | taking or returning free pages disturbs no page table |
| `KernelSystem.StepTranslation` | kernel/paging.c:127-172 | each operation changes a translation only by a `map_page` that goes through for its region, and never the inherited rights |
| `KernelSystem.RunTranslation` | kernel/paging.c:127-172 | after any run an address translates by the last `map_page` that went through for its region, or as at the start |
| `KernelSystem.CountLaw` | kernel/process.c:118-204 | over every run the counter equals the number of live processes if and only if the number of failed creations and zombie exits is a multiple of 2^32 |
| `KernelSystem.CountLawFromBoot` | kernel/process.c:18-57 | the same for every run from boot |
| `KernelSystem.FailedCreateMiscounts` | kernel/process.c:78-100 | one creation without stacks leaves a READY, uncounted slot |
| `KernelSystem.WaitingShrinks` | kernel/process.c:126-152 | until its turn a READY slot's cyclic distance bounds the effective calls still to come |
| `KernelSystem.BoundedWaiting` | kernel/process.c:126-152 | in any interleaving of all operations a READY slot becomes current within 63 effective scheduling calls |
| `KernelRuns.BootTranslation` | kernel/paging.c:84-124 | what every address translates to right after boot, for every amount of memory |
| `KernelRuns.TablesAfterInit` | kernel/paging.c:34-124 | after booting with three pages or more, every word of the three new tables: 0x2003 and 0x101003 in the PML4 at 0x100000, 0x102003 in the PDPT, 0x183 in the PD |
| `KernelRuns.BootLayoutIs` | kernel/main.c:13-19 | those words stay through `InitProcessManager`; the idle stacks are at 0x103000 and 0x104000; all later pages are free |
| `KernelRuns.BootIdle` | kernel/process.c:36-40 | after booting with five pages or more, slot 0 is current, counted and READY, starts at the idle entry on its own stack, with pid 1, break 0x400000 and page table 0x100000 |
| `KernelRuns.FirstMappingWords` | kernel/paging.c:127-172 | the first mapping under an empty PML4 slot writes 0x105007, 0x106007 and the leaf |
| `KernelRuns.ShortcutOverRuns` | kernel/paging.c:201-206 | after every run from boot, for every address: the shortcut equals the hardware walk if and only if the last mapping of the address is present and onto the block the shortcut names, or there was none and the address is in the first 2 MB or in a window that was set up |
| `KernelRuns.PageAtOwnAddress` | kernel/memory.c:214-217 | in every state reached from boot page `i` translates to itself if and only if the last mapping over its address is onto its own block, or there was none and `i` is below 256 |
| `KernelRuns.RemapBreaksShortcut` | kernel/paging.c:201-206 | one mapping of any address in the first 2 MB to any aligned base but 0 makes the shortcut wrong at every address there |
| `KernelRuns.BootEntries` | kernel/paging.c:15-31 | after boot PML4 slot 0 and PDPT slot 0 still hold the boot entries, and slots 1 to 510 are empty |
| `KernelRuns.UserOnlyInMiddleSlots` | kernel/paging.c:127-172 | over every run from boot, whatever flags are asked for, only addresses under PML4 slots 1 to 510 are ever user-accessible |
| `KernelRuns.MiddleSlotsCanBeUser` | kernel/paging.c:127-172 | with at least seven pages, each of those addresses becomes user-accessible by one call right after boot |
| `KernelRuns.UserAccessOverRuns` | kernel/paging.c:127-172 | over every run from boot an address is user-accessible if and only if it lies under PML4 slots 1 to 510 and its last mapping is present and has the user flag |
| `KernelRuns.MiscountIsReachable` | kernel/process.c:78-100 | with exactly five pages the first creation after boot is live and uncounted |
| `KernelRuns.StallIsReachable` | kernel/process.c:127-129 | with at least seven pages one creation and one exit after boot leave the zombie current beside a READY slot |
| `KernelRuns.NoDriftNoUnderflow` | kernel/process.c:204 | from a right counter, over every run without a stackless creation or a zombie exit, each exit finds the counter at least 1 |
| `KernelRuns.NoUnderflowFromBoot` | kernel/process.c:204 | the same for every run from boot |
| `KernelRuns.RunBreak` | kernel/process.c:231-239 | over every run a slot's break is the last nonzero address given while it was current, else what it was at the start, else 0x400000 for a slot made since |
| `KernelRuns.BreakOverRuns` | kernel/process.c:85-239 | from boot: the last such address or 0x400000, for forked children too |
| `StackPointers.OwnStackIff` | kernel/process.c:113 | while `rsp` fields come from creation and fork alone, a slot's points into its own kernel stack if and only if it has stacks and was not filled by fork |
| `StackPointers.OwnStackOverRuns` | kernel/process.c:59-190 | over every run from boot on zeroed static slots the `rsp` field points into the slot's own kernel stack if and only if the slot has stacks and was not filled by fork |
| `StackPointers.RunWord` | kernel/context_switch_.asm:15-19 | over every run, word 0 of a slot's context is the pointer stored by the last switch away from it; if there was none, the word its parent held at the fork that filled it; if there was no such fork, what it was at the start |
| `StackPointers.StackWordOverRuns` | kernel/context_switch_.asm:15-19 | the same from boot, where the last case is 0; it is that of the slots the run did not fill by fork |
| `StackPointers.InUseNotForked` | kernel/process.c:61-67 | a slot in use is never filled again by a fork |
| `StackPointers.NullStackIff` | kernel/process.c:139-147 | in every state reached from boot, a step that hands over to another process loads a null stack pointer if and only if the process holds no word: it last left with a null pointer, or never left and was not forked by a holder |
| `StackPointers.FirstSwitchLoadsNull` | kernel/process.c:102-147 | with at least seven pages, the first switch to a process created after boot loads a null stack pointer, although it has its stacks and its `rsp` field is the top of its own |
| `Kernel.BootMemory` | kernel/main.c:14 | after `Init_Memory` every page is free and the boot tables are untouched |
| `Kernel.StartProcesses` | kernel/main.c:19 | `InitProcessManager` on zeroed static slots is the initialisation step, on the pages the page tables left |
| `Kernel.Kmain` | kernel/main.c:14-19 | `Init_Memory`, `Init_Paging` and `InitProcessManager` end in the boot state of the state machine, over zeroed static slots |
| `Kernel.Execute` | kernel/process.c:59-239 | every operation of the classes is the corresponding step of the state machine |
| `TextTape.CellBytes` | kernel/vga.c:252 | a cell holds the character in its low byte and the colour in its high byte; a negative char sets the whole attribute byte |
| `TextTape.PutcByCode` | kernel/vga.c:224-262 | by code: 10 starts the next row, 9 writes four blanks, 8 goes back and blanks, every other character is written; a blank is 32 in the current colour; leaving the last row scrolls |
| `TextTape.PutcRefines` | kernel/vga.c:215-262 | one character on the screen is one character on the unbounded tape, seen through its last 25 rows |
| `TextTape.PrintRefines` | kernel/vga.c:28-38 | the same for every text with tabs, newlines and backspaces |
| `TextTape.AnyScreenIsATape` | kernel/vga.c:215-222 | every screen with a cursor below 2000 is such a view, so the refinement starts anywhere |
| `TextTape.HistoryKept` | kernel/vga.c:14-26 | rows that scrolled off are never touched again |
| `TextTape.PlainTextReadsBack` | kernel/vga.c:251-262 | text without control characters can be read back in order; nothing else changes |
| `TextTape.RmlineEffect` | kernel/vga.c:184-192 | exactly the cursor's row is blanked with 32 in the current colour; on the last row the screen then scrolls once; the cursor is at the row's start |
| `Numerals.NumeralUnique` | kernel/vga.c:40-106 | a number has only one numeral without leading zeros |
| `Numerals.DigitCodes` | kernel/vga.c:128-143 | the digits are the characters 0 to 9 and a to f |
| `Numerals.ReverseBuffer` | kernel/vga.c:74-78 | reversal in place, the rest of the buffer untouched |
| `Numerals.DecimalDigits` | kernel/vga.c:56-65 | at most ten digits, so the cap of 15 never truncates; reversed they are the numeral of the number |
| `Numerals.FormatUnsigned` | kernel/vga.c:83-106 | parsing the text gives the number back; no leading zero |
| `Numerals.FormatSigned` | kernel/vga.c:40-81 | the same for every 32-bit signed number, the smallest included, with a minus sign exactly when negative |
| `Numerals.HexDigits` | kernel/vga.c:137-143 | at most sixteen digits, so the 20-byte buffer is never overrun |
| `Numerals.FormatHex` | kernel/vga.c:128-146 | parsing the text gives every 64-bit number back; no leading zero |
| `VgaTerminal.Terminal.constructor` | kernel/vga.c:353-360 | every cell 0x0F20, the initial colour, the cursor at the origin |
| `VgaTerminal.Terminal.CopyRowUp` | kernel/vga.c:17-19 | one row moves up, nothing else changes |
| `VgaTerminal.Terminal.Scroll` | kernel/vga.c:14-26 | the nested loops shift every row up and fill the last with 32 in the current colour |
| `VgaTerminal.Terminal.SetCursor` | kernel/vga.c:292-313 | the cursor goes to the cell whose row and column are the nearest on the screen to those asked for |
| `VgaTerminal.Terminal.Putc` | kernel/vga.c:215-262 | cells and cursor follow the screen step; the overflow guard is dead and every write is in bounds |
| `VgaTerminal.Terminal.RemoveLine` | kernel/vga.c:184-192 | cells and cursor follow the `rmline` step |
| `VgaTerminal.Terminal.Kprint` | kernel/vga.c:28-38 | the erase-line escape removes the line, any other text is printed |
| `VgaTerminal.Terminal.KprintNum` | kernel/vga.c:40-81 | the screen shows the signed numeral of the number |
| `VgaTerminal.Terminal.KprintUnsigned` | kernel/vga.c:83-106 | the screen shows the decimal numeral of the number |
| `VgaTerminal.Terminal.KprintHex` | kernel/vga.c:128-146 | the screen shows the hexadecimal numeral of the number |

## Left out

- Boot assembly, mode switches, CR4, EFER, port I/O and the TLB: hardware effects; CR3 and the cursor registers are plain fields.
- The hardware walk: reserved-bit faults, the no-execute, accessed, dirty and global bits are not part of a translation; present, writable, user and page size are.
- Register contents across a context switch: only the word `switch_process` stores and loads is modelled, not what runs after a null one was loaded.
- `kernel/idt.c`, `kernel/isr.c`, `kernel/irq.c`, `kernel/syscall.c`: table filling and dispatch with one-branch facts only.
- `unmap_page` and `Complete_Boot_Paging`: declared in include/paging.h but defined nowhere.
- `sys_exec_handler` and `sys_wait_handler`: stubs that return -1; `get_current_pid` and the other plain getters.
- Format-string handling of `vkprintf` and `kprintcolor`, debug output, `MemoryInfo`, `kernel/test.c`, `lib/string.c`: input/output or easy members.
- Debug lines that the modelled operations print to the screen while they work.
- PagingUnit.Paging.SetupKernelMappings: its 2 MB loop has a single turn and is written without the loop.
- ProcessManagement.ProcessManager.Schedule: needs a current process when more than one is counted, because the source then reads through that pointer without a check; the same holds of Exit, which calls it.
- ProcessManagement.ProcessManager.Fork: needs a current process, because the source reads through that pointer without a check.
- Kernel.Kmain: the initialisation of the screen, of the interrupt tables and of the system calls is not part of it; the blank screen is `VgaTerminal.Terminal.constructor`.
