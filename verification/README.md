# Olive kernel: memory management and formatting

Olive is a small x86-64 kernel. This project models the parts of it that hold most of its state and
arithmetic, and proves what the rest of the kernel relies on:

* **Physical page allocator** (`MemoryMap.dfy`, `Pmm.dfy`): a stack of free frame addresses, kept in
  memory that is cut off one of the regions it manages.
* **Virtual memory manager** (`Words.dfy`, `PageTree.dfy`, `Paging.dfy`, `PagingRuns.dfy`,
  `VmmInit.dfy`, `Vmm.dfy`): four-level page tables (section 4.5 of the Intel SDM, Volume 3A) built on
  demand in frames of the page allocator. The tables are proved to be a tree with frames of their own
  and to agree with a flat map from 36-bit page numbers to entries.
* **Heap** (`HeapView.dfy`, `HeapRuns.dfy`, `HeapRep.dfy`, `HeapContents.dfy`, `HeapHint.dfy`, `HeapLaws.dfy`,
  `Heap.dfy`): liballoc, a
  list of majors obtained from a page source, each with an address-ordered list of minors, linked by
  hand through headers. `HeapView` is the heap as a value and says where requests go; `HeapRuns` proves
  what clients rely on over all runs; `HeapRep` says how the value is kept in headers and bytes and why
  rewiring links keeps them in step; `HeapContents` is about the bytes of clients, `HeapHint` about where
  searches start; `HeapLaws` says in plain numbers where a block goes and what it costs; `Heap` is the code.
* **Formatter** (`FormatSpec.dfy`, `Scanner.dfy`, `Digits.dfy`, `Conversion.dfy`, `FormatText.dfy`,
  `FormatLaws.dfy`, `Printf.dfy`): nanoprintf in the configuration of `olive/src/lib/printf.c` (width,
  precision and large conversions on; float, binary and writeback off), after section 7.21.6.1 of
  ISO/IEC 9899:2011.
  `FormatLaws` holds what that section asks for, said from the letters and digits of a specification alone.

`Wrappers.dfy`, `Sequences.dfy` and `Arithmetic.dfy` hold the option type, the sequences without duplicates
and the remainders they share. Each component has a specification in functions on
values, about which the theorems are, and methods in the form of the C code that are proved to compute
exactly that specification.

Reading notes:

* Numbers are unbounded unless a 32- or 64-bit limit matters: image addresses, the 32-bit header fields
  (`HeapView.Representable`), the signed 32-bit comparisons of `kfree` and `kcalloc`, and all printed
  arguments are cut or bounded as in C.
* 0 stands for NULL. No usable region starts at address 0 (`MemoryMap.WellFormed`), so frame 0 is never free
  and cannot be confused with a refusal (`Pmm.CarvedAddresses`, `Pmm.NullIsRefusal`).
* `ASSERT` in `pmm_free_pages` is the field `halted`: the machine stops and nothing changes.
* The heap's page source is the parameter `grant` of each call: NULL, or a page-aligned range apart from
  all majors. `kmalloc` is one function in C; its outer loop is split into `Search`, `Turn`, `Skip`,
  `Serve` and `MoveOn`, one part of the loop body each. The same goes for `npf_parse_format_spec` and
  `npf_vpprintf`.
* Where the code differs from the C standard, or goes its own way where that is silent, the model follows it: a
  precision zero-pads characters and pointers, `.-5` pads although it drops the precision, zeros go to the
  right of a number when a negative `*` width meets the `0` flag, a negative `*` precision leaves the `0` flag
  without effect, and a `*` precision of `%c`, `%p` and `%%` takes no argument, so that every later argument is
  off by one. `Conversion.AbsentPrecision` says exactly when the first two show, `FormatLaws.NumberLaw` exactly
  when the next two change the text (and `FormatLaws.LetterReadsBack` what it reads as), and
  `FormatText.LaterArguments` exactly when the last happens.
* Results that the code does not meet on all inputs come with their exact condition and an input that
  fails: `Pmm.ContiguityExact`, `PagingRuns.FreeExact`, `FormatText.LocalityExact`,
  `Conversion.AbsentPrecision`, `Conversion.PrintedReadsBack`, `FormatLaws.NumberLaw` and `Heap.CallocCovers`.

Nothing was executed: the results are what the verifier establishes about the model.

## Model

| member | source | states |
|---|---|---|
| Pmm.PageAllocator.Init | olive/src/mm/pmm.c:33-103 | refuses a missing map or offset without effect; otherwise cuts the stack off the last entry that can hold it, and leaves exactly the usable frames of the reduced map on the stack, in order, with the true count, or reports overflow exactly when there are more frames than were counted |
| Pmm.PageAllocator.CountPages | olive/src/mm/pmm.c:55-62 | the pages counted are those of the usable entries, each rounded down |
| Pmm.PageAllocator.CarveStack | olive/src/mm/pmm.c:68-80 | only the last usable entry that is long enough is shortened, and by the size of the stack; nothing happens if there is none |
| Pmm.PageAllocator.Fill | olive/src/mm/pmm.c:82-102 | the stack holds all usable frames and their number is the count of free pages, or there are more than were counted and the code reports that |
| Pmm.PageAllocator.PushAll | olive/src/mm/pmm.c:83-98 | all usable frames are pushed, entry by entry, or the stack is full and holds a prefix of them |
| Pmm.PageAllocator.PushEntry | olive/src/mm/pmm.c:88-96 | pushes the frames of one entry, stopping exactly at the capacity |
| Pmm.PageAllocator.RequestPages | olive/src/mm/pmm.c:105-120 | pops n slots and returns the lowest; a zero or too large request changes nothing and gives NULL |
| Pmm.PageAllocator.FreePages | olive/src/mm/pmm.c:122-144 | pushes n consecutive addresses; a NULL or unaligned pointer or a zero count stops the machine; on overflow the stack is filled and the counters stay |
| MemoryMap.CarveSplits | olive/src/mm/pmm.c:53-100 | for any page-aligned map without overlaps and with room for the stack: pushed frames and the stack's own frames split the usable frames, without duplicates or losses, and their numbers add up to the total, so the overflow branch is never taken |
| MemoryMap.UsableFramesExact | olive/src/mm/pmm.c:83-98 | the frames pushed for a map are exactly the pages of its usable regions, each once |
| MemoryMap.CarveWellFormed | olive/src/mm/pmm.c:68-80 | shortening one entry keeps the map well formed |
| MemoryMap.SplitExact | olive/src/mm/pmm.c:68-98 | what is cut off and what is pushed partition the usable memory |
| MemoryMap.StackExact | olive/src/mm/pmm.c:53-98 | the bytes cut off are whole pages, hold 8 bytes for each counted page, and are less than one page more; they come off the last usable entry that long; and total - (total + 511) / 512 frames are left for the stack; nothing is cut off exactly if no usable entry has 8 bytes for each page |
| Pmm.InitInv | olive/src/mm/pmm.c:33-103 | initialisation establishes the ownership invariant with every frame free |
| Pmm.RunInv | olive/src/mm/pmm.c:105-144 | over every run in which clients give back only what they own, free and owned frames partition the initial set, no frame is on the stack twice, and free + used is constant |
| Pmm.TakeInv | olive/src/mm/pmm.c:105-120 | a request of any size keeps the partition and the counters |
| Pmm.GiveInv | olive/src/mm/pmm.c:122-144 | giving back owned frames keeps the partition, and never overflows |
| Pmm.StepInv | olive/src/mm/pmm.c:105-144 | each single operation keeps the partition |
| Pmm.GiveExact | olive/src/mm/pmm.c:122-144 | giving frames back keeps the partition exactly if they are owned, or an assertion stops the machine, or the stack is full, so that nothing is owned and nothing is pushed |
| Pmm.CarvedAddresses | olive/src/mm/pmm.c:53-98 | every frame on the stack after initialisation is a page address other than NULL |
| Pmm.NullIsRefusal | olive/src/mm/pmm.c:105-120 | in every state of a run a request is answered NULL exactly if it is refused |
| Pmm.OwnedNeverHalts | olive/src/mm/pmm.c:122-126 | giving back owned frames never stops the machine |
| Pmm.InitChunked | olive/src/mm/pmm.c:83-98 | regions that are multiples of k pages leave a stack of ascending runs of k frames |
| Pmm.InitBlocks | olive/src/mm/pmm.c:83-100 | such a stack starts a run of the uniform-size discipline |
| Pmm.TakeBlockInv | olive/src/mm/pmm.c:113-114 | the k slots popped are the k consecutive frames from the returned address, and belong to no other block |
| Pmm.GiveBlockInv | olive/src/mm/pmm.c:130-138 | returning a block keeps the blocks, and the stack has room for it |
| Pmm.BlockRunInv | olive/src/mm/pmm.c:105-144 | in any order of requests and frees of one size k, all blocks in use are disjoint and none of their frames is free |
| Pmm.ContiguityExact | olive/src/mm/pmm.c:105-144 | with no block in use, every run of requests and frees of one size k leaves a next request that succeeds with k consecutive frames, exactly if the stack consists, from the top down, of ascending runs of k frames, with fewer than k left over at the bottom |
| Pmm.RunsContiguous | olive/src/mm/pmm.c:105-144 | such a stack hands out consecutive frames after every run, also while blocks are in use |
| Pmm.ReachGap | olive/src/mm/pmm.c:105-144 | any other stack has a run of requests of k pages after which the next one succeeds with frames that are not consecutive |
| Pmm.ThreePages | olive/src/mm/pmm.c:53-100 | the stack pmm_init leaves for one usable region of three pages |
| Pmm.MixedSizesBreakContiguity | olive/src/mm/pmm.c:33-144 | with mixed sizes contiguity is lost also on such a stack: from what pmm_init leaves for that region, four allowed calls with single pages make a two-page request return frames that are not consecutive |
| Words.EntryRoundTrip | olive/src/mm/vmm.c:153-169 | a page address combined with flags by OR is read back by the address mask, and the flags by the low bits |
| PageTree.IndexFields | olive/src/mm/vmm.c:175-177 | the four 9-bit index fields of an address are the base-512 digits of its page number |
| PageTree.WalkTree | olive/src/mm/vmm.c:149-200 | walking the four levels reaches a table exactly if the tree has a node for that prefix, and it is that node's frame |
| PageTree.LeafInTree | olive/src/mm/vmm.c:173-200 | the last-level entry of a page is found by the walk exactly in its node |
| PageTree.LinkTree | olive/src/mm/vmm.c:160-170 | linking a zeroed frame of its own keeps the tables a tree |
| PageTree.LinkLeaf | olive/src/mm/vmm.c:160-170 | linking a zeroed table changes no entry of the flat map, for no page |
| PageTree.StoreTree | olive/src/mm/vmm.c:213 | writing a last-level entry keeps the tables a tree |
| PageTree.StoreLeaf | olive/src/mm/vmm.c:213 | writing a last-level entry changes the flat map at that page and nowhere else |
| PageTree.OtherFrame | olive/src/mm/vmm.c:149-200 | writes to frames that are no tables change no walk |
| PageTree.AccessExact | olive/src/mm/vmm.c:149-171 | a page that is reached is present, writable and open to user mode along the whole walk exactly if its last-level entry has the bit, and execute-disabled anywhere exactly if that entry is |
| PageTree.LinkOpens | olive/src/mm/vmm.c:169 | an entry that links a table is present, writable, open to user mode, and executable |
| Paging.GrowEffect | olive/src/mm/vmm.c:173-200 | creating a path succeeds exactly if there are as many free frames as missing tables, takes exactly these, and changes no entry of the flat map |
| Paging.MapRefines | olive/src/mm/vmm.c:202-217 | a map sets exactly the entry of its page to phys OR flags, for all pages, including those whose tables it creates; if frames run out it changes no entry and the tables remain a tree |
| Paging.RemapIsFree | olive/src/mm/vmm.c:149-217 | a page with a path is mapped again without taking a frame |
| Paging.RetryReuses | olive/src/mm/vmm.c:155-170 | after a failed map the frames still missing are fewer by exactly those the failed attempt took |
| Paging.UnmapRefines | olive/src/mm/vmm.c:219-241 | an unmap sets exactly the entry of its page to 0, reports whether the path existed, and gives back no table |
| Paging.MapUnmap | olive/src/mm/vmm.c:202-241 | map then unmap leaves the flat map as it was but for that page, which is 0 |
| Paging.MapAccess | olive/src/mm/vmm.c:149-217 | what the hardware grants for a page just mapped, along all four levels, is what the flags of the map say |
| Paging.MapTranslate | olive/src/mm/vmm.c:202-252 | an address of a page just mapped translates to phys plus its offset |
| Paging.TranslateExact | olive/src/mm/vmm.c:243-252 | without a path the answer is 0; otherwise the entry cut to the physical width, without its lowest 12 bits, plus the offset |
| Words.FieldExact | olive/src/mm/vmm.c:153 | the mask of the page-table code takes bits 12 to 51 |
| Words.AddressExact | olive/src/mm/vmm.c:249-251 | the mask of virt2phys takes the bits from 12 up to the physical width |
| Paging.UniqueParentEntry | olive/src/mm/vmm.c:149-171 | no two entries of upper tables point to the same table |
| PagingRuns.RunInv | olive/src/mm/vmm.c:149-241 | over every run of frame requests of any size, frees, client writes, maps and unmaps, free frames, tables and client frames partition the initial frames |
| PagingRuns.StepInv | olive/src/mm/vmm.c:149-241 | each single operation keeps that partition, a request for any number of frames included |
| PagingRuns.RunAccess | olive/src/mm/vmm.c:149-241 | in every state of every allowed run, what the hardware grants for a page that is reached is decided by its last-level entry alone |
| PagingRuns.FreeExact | olive/src/mm/vmm.c:219-241 | giving back a frame, directly or with an unmap, keeps the partition exactly if that frame is one of the client, or the call stops the machine because it is NULL or no page address; ownership itself is not checked |
| PagingRuns.UnownedMapping | olive/src/mm/vmm.c:202-241 | from any state with the partition: mapping a frame other than NULL that the client does not own keeps it, unmapping that page with free_phys then breaks it |
| Vmm.BootUnowned | olive/src/mm/vmm.c:52-241 | that happens from every boot map with at least four usable frames left, on the first map and unmap |
| Vmm.FivePages | olive/src/mm/pmm.c:53-100 | such a boot map exists: one usable region of five pages |
| PagingRuns.WriteStep | olive/src/mm/vmm.c:149-200 | what clients write to their own frames never shows in the page tables |
| PagingRuns.MapKeepsContents | olive/src/mm/vmm.c:202-217 | a map does not change the contents of any client frame |
| PagingRuns.RunCost | olive/src/mm/vmm.c:149-217 | after any allowed run without failed maps from an empty PML4 there are 1 + the numbers of distinct 9-, 18- and 27-bit prefixes of the pages ever mapped tables, and it is exactly their tables that exist |
| PagingRuns.EnoughFrames | olive/src/mm/vmm.c:149-217 | as many frames as the tables of a set of pages need suffice for every map within the set, in any order |
| VmmInit.DirectMapLinear | olive/src/mm/vmm.c:93-120 | every page the direct-map loops touch translates linearly, whatever overlapping or over-long loops map it too |
| VmmInit.UsableTranslates | olive/src/mm/vmm.c:93-103 | every usable page p is found at p + offset after initialisation |
| VmmInit.ImageTranslates | olive/src/mm/vmm.c:122-140 | every image page translates to v - kernel_virt + kernel_phys, with exactly the flags of its section |
| VmmInit.NoWritableExecutable | olive/src/mm/vmm.c:122-140 | an image page is writable only from the data section on, executable only in the text section, never both, and always present, cached and closed to user mode |
| VmmInit.DirectMapBits | olive/src/mm/vmm.c:93-120 | every page of the direct map is present, writable and closed to user mode; it is write-through and not executable only if a framebuffer loop touches it, and cached and executable only if another loop does |
| VmmInit.EntryExact | olive/src/mm/vmm.c:97-119 | the mappings made for an entry are exactly those of the pages its loop touches: up to its length for usable memory, on by its base address for the other kinds, rounded up for a framebuffer |
| VmmInit.MappedExactly | olive/src/mm/vmm.c:52-147 | after initialisation a page has a present entry exactly if the direct map or the image names it, and every other entry is 0 |
| VmmInit.MapAllOther | olive/src/mm/vmm.c:93-140 | making a list of mappings changes the entry of no page outside the list, also if frames run out |
| Vmm.PageMapper.GetBelow | olive/src/mm/vmm.c:149-171 | follows or creates one level as the specification says, and returns the frame of the node |
| Vmm.PageMapper.Pml4ToPt | olive/src/mm/vmm.c:173-200 | follows or creates the path of an address, stopping where frames run out |
| Vmm.PageMapper.MapPage | olive/src/mm/vmm.c:202-217 | the new tables, memory and free stack are those of the map specification |
| Vmm.PageMapper.UnmapPage | olive/src/mm/vmm.c:219-241 | the new state is that of a step of the runs, and the result tells whether the path existed; handing back an entry without an address stops the machine with nothing changed; the invariant is kept if the frame handed back is a frame of the client |
| Vmm.PageMapper.VirtToPhys | olive/src/mm/vmm.c:243-252 | returns the translation of the specification and changes nothing |
| Vmm.PageMapper.Init | olive/src/mm/vmm.c:52-147 | refuses zero kernel addresses or an empty allocator; otherwise the page map is the empty one with the whole list of direct-map and image mappings made in order |
| Vmm.PageMapper.MapMemory | olive/src/mm/vmm.c:93-120 | the mappings of all memory-map entries are made in order |
| Vmm.PageMapper.MapUsable | olive/src/mm/vmm.c:97-103 | the loop over a usable entry makes its mappings |
| Vmm.PageMapper.MapFramebuffer | olive/src/mm/vmm.c:104-112 | the over-long loop over a framebuffer entry makes its mappings |
| Vmm.PageMapper.MapReclaimable | olive/src/mm/vmm.c:113-119 | the over-long loop over a reclaimable entry makes its mappings |
| Vmm.PageMapper.MapImage | olive/src/mm/vmm.c:122-140 | the three section loops make the image mappings in order |
| Vmm.PageMapper.MapSegment | olive/src/mm/vmm.c:123-127 | one section loop makes its mappings, with physical addresses in 64-bit arithmetic |
| Vmm.RootedPartition | olive/src/mm/vmm.c:67-77 | with the PML4 taken, the allocator's frames are partitioned into one table and free frames |
| Vmm.BootPartition | olive/src/mm/vmm.c:52-241 | from any well-formed boot map on: whatever is requested, freed, written, mapped and unmapped after pmm_init and the set-up of the PML4, the usable frames outside the allocator's own stack stay partitioned into free, table and client frames |
| VmmInit.LayoutExists | olive/src/mm/vmm.c:79-140 | memory layouts that meet the assumptions on sections and direct map exist |
| Vmm.RootedInv | olive/src/mm/vmm.c:67-77 | a zeroed PML4 frame from the allocator satisfies the paging invariant |
| HeapView.Aligned | olive/src/mm/liballoc/liballoc.c:18-31 | the aligned pointer is a multiple of 16, at least 16 and less than 32 bytes into the block |
| HeapView.GapsAreFree | olive/src/mm/liballoc/liballoc.c:260 | the gaps of a major add up to size - usage |
| HeapView.SkipIsSound | olive/src/mm/liballoc/liballoc.c:271-279 | a major skipped by CASE 1 has no gap that would do |
| HeapView.SearchComplete | olive/src/mm/liballoc/liballoc.c:247-456 | wherever the hint makes the search start, it fails exactly if no major has a gap that would do |
| HeapView.FreshMajorServes | olive/src/mm/liballoc/liballoc.c:158-195 | a new major always has room for the request it was made for |
| HeapLaws.PagesLeast | olive/src/mm/liballoc/liballoc.c:158-178 | the pages asked for are the least number, at least 16, that hold the size and 80 bytes of headers |
| HeapLaws.LeastOfAll | olive/src/mm/liballoc/liballoc.c:165-174 | no other number of pages with these two properties is smaller |
| HeapLaws.FirstFit | olive/src/mm/liballoc/liballoc.c:198-456 | a block of 32 bytes more than the request goes, with its header of 40, into the first gap with room in the order of the search: from the hinted major on if its free bytes are more than enough, else from the root on, and around once; exactly if no gap has room a new major of the least number of pages is asked for, and begins with the block |
| HeapLaws.PointerIs | olive/src/mm/liballoc/liballoc.c:18-31 | the pointer is the multiple of 16 that lies 56 to 71 bytes behind the start of the block, and the tag before it is the distance back |
| HeapLaws.TotalsAre | olive/src/mm/liballoc/liballoc.c:188-311 | l_inuse grows by the request and 32, l_allocated by the least number of pages of a new major |
| HeapView.AllocOk | olive/src/mm/liballoc/liballoc.c:198-465 | an allocation keeps majors apart, blocks inside, ordered and disjoint, and no major empty |
| HeapView.ReleaseOk | olive/src/mm/liballoc/liballoc.c:467-567 | a release keeps the same |
| HeapView.ShrinkOk | olive/src/mm/liballoc/liballoc.c:640-645 | shrinking in place keeps the same |
| HeapRuns.BlocksApart | olive/src/mm/liballoc/liballoc.c:198-465 | any two blocks, headers included, are disjoint |
| HeapRuns.RegionIsPrivate | olive/src/mm/liballoc/liballoc.c:198-465 | the region a client asked for is aligned, behind its header and tag, inside its block, and disjoint from all other blocks and headers |
| HeapRuns.PtrUnique | olive/src/mm/liballoc/liballoc.c:467-485 | a pointer names one block |
| HeapRuns.AllocTotals | olive/src/mm/liballoc/liballoc.c:190-311 | l_inuse and l_allocated stay the sums over all blocks and majors when a block is added |
| HeapRuns.ReleaseTotals | olive/src/mm/liballoc/liballoc.c:525-548 | and when one is released |
| HeapRuns.AllocRelease | olive/src/mm/liballoc/liballoc.c:198-567 | freeing what was just allocated restores every block, gap and major exactly, also if a major had to be added |
| HeapRuns.StepOk | olive/src/mm/liballoc/liballoc.c:198-655 | each call keeps the heap well formed |
| HeapRuns.RunsOk | olive/src/mm/liballoc/liballoc.c:198-655 | every heap any run of malloc, free and realloc calls reaches is well formed, without empty majors |
| HeapRuns.FreeEverything | olive/src/mm/liballoc/liballoc.c:538-550 | freeing all blocks leaves no major, both totals 0, and has returned every loan of the page source whole |
| HeapRuns.FreeAllInAnyOrder | olive/src/mm/liballoc/liballoc.c:467-567 | the live pointers can be freed one after the other in every order, each order a permutation of all of them, always with that outcome |
| HeapRep.LinkInChain | olive/src/mm/liballoc/liballoc.c:299-427 | linking a header in by hand gives the chain with the block inserted |
| HeapRep.LinkOutChain | olive/src/mm/liballoc/liballoc.c:528-536 | linking a header out by hand gives the chain with the block removed |
| HeapRep.PlaceRep | olive/src/mm/liballoc/liballoc.c:299-427 | after linking, accounting and tagging, headers and bytes represent the heap with the new block; every other chain and tag is as before |
| HeapRep.AppendRep | olive/src/mm/liballoc/liballoc.c:288-292 | a linked-in fresh major extends the list of majors |
| HeapRep.RemoveRep | olive/src/mm/liballoc/liballoc.c:523-536 | linking out a block represents the heap without it |
| HeapRep.DropRep | olive/src/mm/liballoc/liballoc.c:538-550 | linking out an emptied major represents the heap without it |
| HeapRep.ShrinkRep | olive/src/mm/liballoc/liballoc.c:640-645 | recording a smaller request represents the shrunk heap |
| HeapContents.CopyBytesAt | olive/src/mm/liballoc/liballoc.c:89-113 | a byte-by-byte copy forwards puts the old source bytes at the destination, whenever the destination lies below the source or behind it |
| HeapContents.ClientWrites | olive/src/mm/liballoc/liballoc.c:198-465 | whatever a client writes in its region, all tags and all other regions keep their bytes |
| HeapContents.AllocBlocks | olive/src/mm/liballoc/liballoc.c:198-465 | an allocation keeps every block as it was, and the new block is none of them |
| HeapContents.AllocKeepsContents | olive/src/mm/liballoc/liballoc.c:24-30 | the tag of a new block overwrites no byte of any client |
| HeapContents.AllocThenWrite | olive/src/mm/liballoc/liballoc.c:569-655 | an allocation followed by any writing in the new region changes no byte of any earlier client |
| HeapContents.GrowApart | olive/src/mm/liballoc/liballoc.c:649-650 | the old region survives the allocation and does not overlap the new one |
| Heap.KernelHeap.constructor | olive/src/mm/liballoc/liballoc.c:71-79 | the heap starts empty |
| Heap.KernelHeap.AllocateNewPage | olive/src/mm/liballoc/liballoc.c:158-196 | asks for the rounded-up pages, at least 16, and writes an unlinked empty major header, or counts a warning |
| Heap.KernelHeap.Kmalloc | olive/src/mm/liballoc/liballoc.c:198-465 | the heap, the pointer and the bytes afterwards are those of the first sufficient gap from the hint or the root on; the page source is asked once, and only if there is none; a refusal changes nothing but the warning count and the hint; the hint afterwards is the first of the roomiest majors among the old hint and those visited, a new one included unless the last was left for want of free space |
| HeapHint.RoomiestHint | olive/src/mm/liballoc/liballoc.c:258-267 | after a refusal the hint names a major with the most free space of all, or no major has any |
| HeapHint.NoteMost | olive/src/mm/liballoc/liballoc.c:258-267 | after visiting some majors the hint remembers the true free space of its major, and no visited major has more |
| HeapHint.FirstRoomiest | olive/src/mm/liballoc/liballoc.c:258-267 | the hint moves to the first of the visited majors that have the most free space, and only if that is more than the hinted one has |
| HeapLaws.HintFound | olive/src/mm/liballoc/liballoc.c:244-267 | which majors count as visited when a block is placed: those from the hinted major or the root to the one that takes it |
| HeapLaws.HintNew | olive/src/mm/liballoc/liballoc.c:244-450 | and when nothing had room: all, and a new one unless the last was left for want of free bytes |
| Heap.KernelHeap.Search | olive/src/mm/liballoc/liballoc.c:258-456 | the outer loop ends with that placement and hint or the refusal, under the measure of restart, new major and majors left |
| Heap.KernelHeap.Turn | olive/src/mm/liballoc/liballoc.c:258-456 | one turn of the outer loop decides the request or comes closer to the end of the search |
| Heap.KernelHeap.Skip | olive/src/mm/liballoc/liballoc.c:260-293 | CASE 1 leaves a major without losing a gap that would do |
| Heap.KernelHeap.Serve | olive/src/mm/liballoc/liballoc.c:297-455 | CASES 2 to 5 place the block in the first gap of the major, or move on |
| Heap.KernelHeap.NoteMajor | olive/src/mm/liballoc/liballoc.c:260-267 | visiting a major moves the hint as the specification of the visited majors says |
| Heap.KernelHeap.NoteHint | olive/src/mm/liballoc/liballoc.c:260-267 | the hint moves to a major that beats the best free space so far |
| Heap.KernelHeap.StartingPoint | olive/src/mm/liballoc/liballoc.c:244-256 | the search starts at the hint only if that has more than enough room |
| Heap.KernelHeap.MoveOn | olive/src/mm/liballoc/liballoc.c:275-292 | the next major, the root once more, or one new major behind the last |
| Heap.KernelHeap.FirstPage | olive/src/mm/liballoc/liballoc.c:226-238 | an empty heap gets its first major or stays empty |
| Heap.KernelHeap.NextPage | olive/src/mm/liballoc/liballoc.c:447-450 | a new major is linked behind the last, or nothing changes |
| Heap.KernelHeap.TryMajor | olive/src/mm/liballoc/liballoc.c:297-430 | the block goes to the first sufficient gap of the major, if there is one |
| Heap.KernelHeap.PlaceInEmpty | olive/src/mm/liballoc/liballoc.c:299-320 | CASE 2 puts the block at the start of an empty major |
| Heap.KernelHeap.PlaceBeforeFirst | olive/src/mm/liballoc/liballoc.c:326-352 | CASE 3 puts it before the first minor |
| Heap.KernelHeap.WalkMinors | olive/src/mm/liballoc/liballoc.c:358-430 | CASE 4 finds the first sufficient gap behind a minor, or none |
| Heap.KernelHeap.TryAfter | olive/src/mm/liballoc/liballoc.c:363-427 | the gap behind one minor is used exactly if it is large enough |
| Heap.KernelHeap.PlaceAfterLast | olive/src/mm/liballoc/liballoc.c:374-391 | CASE 4.1 puts the block behind the last minor |
| Heap.KernelHeap.PlaceBetween | olive/src/mm/liballoc/liballoc.c:406-425 | CASE 4.2 puts it between two minors |
| Heap.KernelHeap.Deliver | olive/src/mm/liballoc/liballoc.c:309-319 | usage, totals, pointer and tag of the new block |
| Heap.KernelHeap.Align | olive/src/mm/liballoc/liballoc.c:18-31 | the pointer is aligned and the distance back is left in the byte 16 before it |
| Heap.KernelHeap.Unalign | olive/src/mm/liballoc/liballoc.c:33-41 | undoes ALIGN: from the pointer to any block whose tag is in place, back to the first byte behind the header of the block |
| Heap.LiveHeader | olive/src/mm/liballoc/liballoc.c:481-487 | from any live pointer, the tag leads back to its header, and that holds the magic number 0xc001c0de |
| Heap.KernelHeap.Kfree | olive/src/mm/liballoc/liballoc.c:467-567 | a live pointer releases its block, and its major, whole and with its page count, if that is then empty; it is live no more, and while its major stays its header is marked 0xdeaddead, so that freeing it again counts an error; the hint leaves a major that is given back, and moves to one that now has more room; NULL and dead pointers only count |
| Heap.OverrunExact | olive/src/mm/liballoc/liballoc.c:489-500 | a bad pointer counts as an overrun exactly if the lowest byte of its magic number is right, which is not so for a dead header |
| Heap.KernelHeap.FreeBlock | olive/src/mm/liballoc/liballoc.c:523-563 | the block at the header is released and the representation stays true |
| Heap.KernelHeap.UnlinkMinor | olive/src/mm/liballoc/liballoc.c:526-533 | the headers that remain are the chain of the major without that block; the header taken out is dead and otherwise as it was |
| Heap.KernelHeap.ReturnMajor | olive/src/mm/liballoc/liballoc.c:540-550 | links, root and hint are those of the list without the major, and the page source gets its whole range back |
| Heap.KernelHeap.BetterHint | olive/src/mm/liballoc/liballoc.c:554-561 | of the hinted major and the freed block's, the hint ends at one with the most room in 32-bit signed arithmetic, and stays on a tie; NULL stays NULL |
| Heap.KernelHeap.Memcpy | olive/src/mm/liballoc/liballoc.c:89-113 | the word-then-byte copy equals the byte-by-byte copy and leaves all other bytes alone |
| Heap.KernelHeap.Memset | olive/src/mm/liballoc/liballoc.c:81-88 | n bytes are set and no other |
| Heap.KernelHeap.Kcalloc | olive/src/mm/liballoc/liballoc.c:569-581 | the block has as many bytes as the product cut to an int; all are 0, and no other client's bytes change; a refused request for 0 bytes clears nothing |
| Heap.CallocCovers | olive/src/mm/liballoc/liballoc.c:569-581 | the block kcalloc gets holds the whole array exactly if the true product fits an int |
| Heap.CallocFallsShort | olive/src/mm/liballoc/liballoc.c:569-581 | it happens that it does not: 65536 objects of 65537 bytes get a block of 65536 bytes |
| Heap.KernelHeap.Krealloc | olive/src/mm/liballoc/liballoc.c:583-655 | growing keeps the old bytes in the new block and every other region, releases the old block, and assumes that the allocation succeeds; shrinking only records the request; size 0 frees; NULL allocates; a dead pointer only counts |
| Heap.KernelHeap.Grow | olive/src/mm/liballoc/liballoc.c:649-654 | allocate, copy, free: contents of the block and of all others; with nothing to copy also if the allocation is refused |
| Heap.KernelHeap.ShrinkBlock | olive/src/mm/liballoc/liballoc.c:640-645 | the recorded request becomes smaller and nothing else changes |
| Heap.ReallocSteps | olive/src/mm/liballoc/liballoc.c:583-655 | what krealloc does is a step of the runs for which the invariant is proved |
| Heap.TurnsNext | olive/src/mm/liballoc/liballoc.c:258-456 | each way a turn can end makes the measure of the outer loop smaller |
| Heap.ScanSkip | olive/src/mm/liballoc/liballoc.c:271-292 | skipping by CASE 1 keeps track of the first sufficient gap |
| Heap.ScanTry | olive/src/mm/liballoc/liballoc.c:297-455 | the first sufficient gap found is the one the specification names |
| FormatSpec.ScanExact | olive/include/lib/internal/nanoprintf.h:305-567 | a text begins with a specification of the grammar (% flags* width? precision? length? conversion) exactly if the longest-match scan finds it; hence no text begins with two, and what follows never changes how one is read |
| FormatSpec.ScanSpelled | olive/include/lib/internal/nanoprintf.h:305-567 | every specification of the grammar is found, whatever follows it |
| FormatSpec.ScanSound | olive/include/lib/internal/nanoprintf.h:305-567 | what is found is a specification of the grammar and stands at the front of the text |
| Scanner.ReadFlags | olive/include/lib/internal/nanoprintf.h:309-346 | the flag loop reads the longest run of flags; minus overrides zero and plus overrides space in any order |
| Scanner.ReadWidth | olive/include/lib/internal/nanoprintf.h:348-364 | a star, or a run of digits and its value |
| Scanner.ReadPrecision | olive/include/lib/internal/nanoprintf.h:366-394 | a star, digits, or digits behind a minus sign, which leave the precision absent but keep its number |
| Scanner.ReadLength | olive/include/lib/internal/nanoprintf.h:397-437 | the longest length modifier |
| Scanner.ReadConversion | olive/include/lib/internal/nanoprintf.h:439-564 | the conversion, and which flags and precisions it overrides |
| Scanner.ReadDigits | olive/include/lib/internal/nanoprintf.h:358-362 | the value of the longest run of digits; no step of the computation exceeds an int if the value does not |
| Scanner.ParseFormatSpec | olive/include/lib/internal/nanoprintf.h:305-567 | returns the length and the meaning of the specification, or 0 exactly if there is none; the cursor never passes the NUL; width and precision digits must fit an int |
| Digits.ItoaRev | olive/include/lib/internal/nanoprintf.h:569-580 | the digits of the absolute value, last first, without ever negating the number, so that INT64_MIN works |
| Digits.UtoaRev | olive/include/lib/internal/nanoprintf.h:582-593 | the digits of the number in the base, last first; the rest of the buffer is untouched |
| Digits.NumeralReads | olive/include/lib/internal/nanoprintf.h:569-593 | reading the digits gives the number back, and there are no leading zeros |
| Digits.NumeralFits | olive/include/lib/internal/nanoprintf.h:69-75 | at most 22 octal, 20 decimal or 16 hexadecimal digits for any 64-bit number |
| Conversion.BodyFits | olive/include/lib/internal/nanoprintf.h:69-75 | what is put in the conversion buffer, with the octal zero, fits its 23 bytes |
| Conversion.TextLength | olive/include/lib/internal/nanoprintf.h:1240-1350 | the exact length of a conversion: sign, prefix, precision zeros and body, stretched to the width if there is a pad character; sign and prefix never come together |
| Conversion.TextShape | olive/include/lib/internal/nanoprintf.h:1240-1350 | a printed number is spaces, one sign, one prefix, digits, spaces, in this order |
| Conversion.RoundTrip | olive/include/lib/internal/nanoprintf.h:1037-1350 | reading a printed number back gives its value; none if no digit is printed; times the base for each zero put behind the digits |
| Conversion.PrintedReadsBack | olive/include/lib/internal/nanoprintf.h:956-1350 | for every specification of a number and every argument, it reads back exactly if a digit is printed and no zeros go behind a value other than 0, which takes a negative star width, the zero flag, no precision, and room to pad |
| FormatLaws.NumberLaw | olive/include/lib/internal/nanoprintf.h:954-1350 | for d, i, o, u, x, X and p, every length modifier, every flag, width and precision the standard gives a meaning, and every number of the C type in question, however the higher bits of its word are set: sign, mark, least digits in the base of the letter, and padding are what the standard asks for, exactly unless the formatter departs in one of its two ways |
| FormatLaws.ZeroFlagLost | olive/include/lib/internal/nanoprintf.h:545-563 | an input for the second of them: %05.*d with -1 and 42 does not print 00042 |
| FormatLaws.LetterReadsBack | olive/include/lib/internal/nanoprintf.h:439-545 | reading the text in the base of the letter gives back any number of the C type that was passed, exactly unless no digit is printed or zeros are put behind a number other than 0 |
| FormatLaws.LetterGlyphs | olive/include/lib/internal/nanoprintf.h:569-593 | no capital is printed for any letter but X, none but capitals for X, and no letter at all for d, i, o and u |
| FormatLaws.StringLaw | olive/include/lib/internal/nanoprintf.h:1022-1350 | s prints the text, cut at the precision, with spaces on the right for - and on the left without it |
| FormatLaws.CharacterLaw | olive/include/lib/internal/nanoprintf.h:1013-1350 | c prints the low byte of its argument and % a %, padded with spaces; a 0 flag that no - cancels leaves them without padding |
| FormatLaws.AbsentKeepsNumber | olive/include/lib/internal/nanoprintf.h:366-394 | a precision that counts as absent keeps its number |
| FormatLaws.Alphabet | olive/include/lib/internal/nanoprintf.h:309-564 | the flags are - 0 + space #, the conversions % c s p d i o u x X |
| Conversion.NegativeStarWidth | olive/include/lib/internal/nanoprintf.h:972-976 | the exception occurs: %0*d with -3 and 5 prints 500 |
| Conversion.AbsentPrecision | olive/include/lib/internal/nanoprintf.h:1211-1264 | for every specification whose precision counts as absent and every argument: its number still prints zeros, exactly unless the body is that long anyway or zeros of the width stand in their place |
| Conversion.PrecisionPadsCharacter | olive/include/lib/internal/nanoprintf.h:1249 | an input for which it does: %.3c of A prints 00A |
| Conversion.PrecBounds | olive/include/lib/internal/nanoprintf.h:1249 | the difference of precision and length is an int for every precision from INT_MIN + 23 on, and not for INT_MIN |
| Conversion.ResolvedUsable | olive/include/lib/internal/nanoprintf.h:966-989 | replacing stars by arguments gives a specification without stars |
| FormatText.NeededConcat | olive/include/lib/internal/nanoprintf.h:956-964 | the arguments two formats take add up |
| FormatText.LocalityExact | olive/include/lib/internal/nanoprintf.h:956-964 | formatting f + g is formatting f and then g with the arguments left, for all g and all arguments, exactly if every % of f is decided inside f; one more % behind f is the test |
| FormatText.UnsettledBreaks | olive/include/lib/internal/nanoprintf.h:956-964 | if some % of f is undecided, a % behind f prints something else than f and a % |
| FormatText.PercentAtEnd | olive/include/lib/internal/nanoprintf.h:956-964 | it happens: % and % print two of them, %% prints one |
| FormatText.LaterArguments | olive/include/lib/internal/nanoprintf.h:439-545 | what follows a specification gets the arguments behind those it spells, exactly unless it is a %c, %p or %% with a star precision, whose argument is never taken; then it gets them from one too early on |
| Printf.Writer.PutByte | olive/include/lib/internal/nanoprintf.h:902-909 | the first len characters put are in the buffer and the rest of it is as before |
| Printf.Writer.Put | olive/include/lib/internal/nanoprintf.h:924-929 | one more character is put and counted, below the largest int |
| Printf.TakeStars | olive/include/lib/internal/nanoprintf.h:966-989 | width and precision from the arguments; a negative width means left-justified, a negative precision none; a width of INT_MIN has no negation |
| Printf.ConvertSigned | olive/include/lib/internal/nanoprintf.h:1037-1074 | sign and digits of a signed argument of any length modifier |
| Printf.ConvertUnsigned | olive/include/lib/internal/nanoprintf.h:1079-1152 | digits, octal zero and 0x of an unsigned argument; the lone zero of octal with precision 0 |
| Printf.ConvertPointer | olive/include/lib/internal/nanoprintf.h:1154-1160 | hexadecimal digits and 0x of a pointer |
| Printf.StringLength | olive/include/lib/internal/nanoprintf.h:1022-1035 | a string is cut at its precision, with a length that stays an int |
| Printf.ComputePads | olive/include/lib/internal/nanoprintf.h:1211-1264 | pad character, zeros and pads are those that make up the text, and no difference on the way leaves an int |
| Printf.PiecesAreText | olive/include/lib/internal/nanoprintf.h:1266-1350 | the order of output of all pad branches gives one text |
| Printf.EmitField | olive/include/lib/internal/nanoprintf.h:1240-1350 | what is put for one argument is its text, in every pad branch |
| Printf.ConvertOne | olive/include/lib/internal/nanoprintf.h:966-1350 | what is put for one specification is what it prints with its arguments, and it takes exactly these |
| Printf.Vpprintf | olive/include/lib/internal/nanoprintf.h:946-1354 | puts exactly the text of the format and its arguments, and returns its length |
| Printf.Vsnprintf | olive/include/lib/internal/nanoprintf.h:1378-1402 | returns the length of the whole text whatever the size of the buffer; the buffer holds the first size - 1 characters of it, a NUL behind them, and is unchanged behind its size |
| Printf.TerminatedHolds | olive/include/lib/internal/nanoprintf.h:902-909 | what a terminated buffer holds, cell by cell |

## Left out

- The higher-half offset: page-table pointers are physical frame addresses; adding and subtracting the offset is not modelled, except for the direct map itself.
- TLB flushes, the CR3 load and CPUID: the physical address width is a parameter of at most 52. Nothing is claimed about what stays reachable after the CR3 switch.
- Spinlocks: every operation is sequential; the page allocator takes no lock, so no claim spans components under concurrency.
- 64-bit wrap-around of counters, sizes and addresses (`pm_total_pages`, `l_inuse`, `l_allocated`, sums of addresses): unbounded here.
- Pmm.PageAllocator.Init: if no region can hold the stack the code writes through a NULL stack pointer, so the contract requires one (or no pages at all).
- Heap.KernelHeap.Kmalloc: requests whose rounded-up size does not fit the 32-bit header fields are required away (`HeapView.Representable`), because the code would truncate them silently. Among them are those within 32 bytes of 2^64, for which adding the slack wraps to a size of 0 to 31; so the branch for size 0 and such tiny blocks are not reached in the model.
- Heap.KernelHeap.Krealloc: growing a block that holds bytes requires that the allocation succeeds, because the code copies to its result untested, NULL included.
- Heap.KernelHeap.Grow: the same.
- Heap.KernelHeap.Kcalloc: an allocation of more than 0 bytes is required to succeed, because the code clears its result untested, NULL included. A product that is negative as an int is required away: as a size it is at least 2^64 - 2^31, and the code would clear that many bytes.
- Heap.CallocCovers: says nothing of those products either.
- Header bytes: headers are records keyed by address, apart from the payload bytes; a dead header whose bytes are handed out again is forgotten. A pointer that is neither live nor leads to a header still in memory is outside the contract of `kfree` and `krealloc`.
- `liballoc_wrappers.c`: the page source is abstract; as written its two hooks disagree on address spaces.
- Trace and warning messages, `liballoc_dump`, and the text of error messages.
- Formatter, excluded by the configuration: float, binary and writeback conversions, the `L` modifier.
- Formatter, undefined in C: literal width or precision digits beyond an int, a star width of INT_MIN, a negative star precision so close to INT_MIN that the length of the digits cannot be subtracted from it (`FormatText.Defined`, `Conversion.PrecFits`), too few arguments, and texts of more than INT_MAX characters are required away. Arguments that overlap the buffer are not modelled.
- `printf.c`, serial ports and the terminal: input and output.
- GDT, IDT, interrupt stubs, exception printing, backtrace, `string.c`, boot requests: tables, assembly and one-loop routines.
