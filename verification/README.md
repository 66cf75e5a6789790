# Verified model of the i386 kernel's stateful components

This project models five components of the kernel over explicit state and proves what they keep over
every run: the page tables over the frame bitmap (`src/vmm.c`, `src/pmm.c`), the kernel heap
(`src/heap.c`), the scheduler (`src/kernel.c`), the file tree with its disk table (`src/fs.c`) and the
pipes (`src/pipe.c`). Memory is a sequence of words or a map keyed by address, never a set of Dafny
objects, so that every disjointness is proved.

`Common` holds the few definitions several components share.

* **Page tables.** `Bits` gives the C bit operators on words their arithmetic meaning. `Pmm` is the frame
  allocator, whose bitmap lies in the very RAM it manages. `Paging` says what a directory frame means (a
  partial map from 20-bit page numbers to frame and flags) and what each kind of table update does to every
  translation in the machine, `Rights` what it does to the flags of the directory slots. `Vmm` has the
  operations of `vmm.c` as methods on words in RAM, proved word by word and against that partial map for all
  live directories at once, and `Run` for any sequence of requests.
* **Heap.** `FreeList` is the address-ordered coalescing list as a value, for any header size. `HeapLinks`
  relates it to headers in memory linked by `next`, `HeapCells` to a tiling of the bumped region in which
  every byte is live, free, lost or an alignment gap. `Heap` has the operations of `heap.c`.
* **Scheduler.** `SchedModel` is the process table as a transition system, `SchedProofs` its safety over
  runs, `SchedLiveness` bounded waiting and the work measure, `SchedSteps` what each step does to which slot
  and how cooperative runs go, `Scheduler` the methods that update the table in place, each proved equal to its
  transition.
* **File system.** `FsCodec` is the tree, the preorder encoder with its cap, the decoder, and the round trip.
  `FsLinks` relates first-child/next-sibling/parent links to a tree, `FsState` is the invariant of nodes and
  data buffers, `FileSystem` the operations on the linked nodes, `FsTrees` what they mean for the tree,
  `FsShell` runs of commands on a tree with a current path and the linked nodes that refine them. `FsDisk` is
  saving; `FsLoad` says node by node what the two loops of `fs_init` make of any records and when that is a
  forest, `FsRestore` relates the loops to it, `FsStands` says which tree linked nodes stand for, and for the
  nodes of a boot exactly when; `FsBoot` is booting, `FsSector` what comes back through the one sector the table
  is written to.
* **Pipes.** `Pipe` is the pool of ring buffers: each pipe is a queue with a history, and any interleaving of
  calls on any ids refines the pool of queues, reply by reply.

Where the code does not do what its documentation or its names suggest, the code is modelled as it is and
the exact condition is proved:

* `kmalloc` unlinks the block it found before `split_block` looks for it on the list, so the remainder of a
  split ends up on no list (src/heap.c:172-182). `Heap.KernelHeap.Kmalloc` states how many bytes are lost;
  `Heap.KernelHeap.MallocThenFree` shows that freeing restores the list if and only if the block was not
  split; `Heap.SplitLosesRemainder` is a run of three calls that loses 56 bytes;
  `Heap.LostForGood` that no later request brings a lost byte back; `Heap.KernelHeap.KmallocAsMeant` splits while
  the block is linked and loses nothing.
* Under `-m32` a header has 12 bytes, so no block ever touches another and coalescing never happens
  (`Heap.PaddedInsert`, kept over every run by `Heap.KernelHeap.Run`).
* The first mapping in a 4 MiB region fixes the flags of its directory slot; later mappings in the region change
  their page entries only (src/vmm.c:37-43). `Vmm.FirstMappingDecides` says so over any run, until the region is
  emptied.
* `pmm_init` rounds the number of bitmap words down (src/pmm.c:17). `Pmm.FrameAllocator.Init` proves exactly
  when the count it starts with is right, and `Pmm.InitFails` gives a machine on which it is wrong.
* `pick_next_ready(-1)` reads slot -1 as soon as two processes are in the table before a tick
  (src/kernel.c:164, src/kernel.c:245): `SchedProofs.ProbesInTableIff`, `SchedProofs.TwoSpawnsUnanchored`.
* `slice` is not reset when the last process finishes (src/kernel.c:274-279). In preemptive mode it never passes
  the quantum, and `SchedProofs.SliceAtQuantumIff` says exactly which ticks leave it there. From boot,
  `SchedLiveness.StaleSliceIff`: after a process spawned alone has run its r ticks, the slice stands at the
  quantum if and only if r is a multiple of it; `SchedLiveness.StaleSliceAfterSpawn` is the source's own r = 100.
* The disk table has 16 x 52 = 832 bytes but one 512-byte sector is written and read (src/fs.c:66,
  src/fs.c:199, src/ata.c:53), into memory that holds whatever the stack held. For every such memory entries 0
  to 8 of the table come back whole, entry 9 without its size and data sector, and the rest is what the memory
  held (`FsSector.WhatComesBack`); the table says what was saved if and only if the memory completes it
  (`FsSector.ReadsBackIff`). For every memory that keeps the copy loop inside its buffer (`SafeMemory`), every tree
  and all answers of kmalloc, the nodes after the boot stand for the saved tree if and only if every record that
  comes through hangs under the first, by a way up through directories that ends there, and unfolded from there
  the records spell the tree (`FsStands.StandsIff`, `FsSector.SaveAndBootSector`). When nothing is refused
  (`Granted`) exactly as many entries from 10 on must look used as the tree has nodes there. So a tree of at most
  ten or more than sixteen nodes, and any tree when no entry from 10 on looks used, comes back if and only if no
  such entry looks used and the tree has at most nine nodes, or ten and the tenth's content comes back right.
* A name longer than its field is cut when it is stored but not when it is looked up (src/fs.c:50-53,
  src/fs.c:334): what `fs_mkdir` or `fs_create_file` made is found again under its name if and only if the name
  has fewer than 32 characters (`FileSystem.FoundIff`).

## Model

| member | source | states |
|---|---|---|
| Bits.EntryWord | src/vmm.c:42-47 | or-ing an aligned address, twelve flag bits and the present bit keeps address and flags apart |
| Bits.AnyEntryWord | src/vmm.c:47-47 | for any address the entry has its page, and in the low twelve bits whatever address and flags set, and the present bit |
| Bits.PageMasks | src/vmm.c:45-56 | masking with 0xFFF and with its complement splits a word into offset and page base |
| Bits.AndMask | src/vmm.c:35-35 | a mask of n ones takes the remainder modulo 2^n |
| Bits.AndBit | src/pmm.c:34-34 | bits of a conjunction, for every word and bit position |
| Bits.OrBit | src/pmm.c:35-35 | bits of a disjunction, for every word and bit position |
| Bits.TestBit | src/pmm.c:34-34 | the condition `w & (1 << k)` holds exactly when bit k is set |
| Pmm.SetBitEffect | src/pmm.c:35-35 | setting a bit adds exactly that frame to the frames in use |
| Pmm.ClearBitEffect | src/pmm.c:22-26 | clearing a bit removes exactly that frame |
| Pmm.UsedSetTest | src/pmm.c:31-34 | the bitmap test reads membership in the set of used frames |
| Pmm.UsedSetFramed | src/pmm.c:20-21 | no write at or above the first free frame can change the set of used frames |
| Pmm.BitmapPlacement | src/pmm.c:13-21 | the bitmap starts at the page at or above the kernel's end and lies below the first free frame |
| Pmm.InitOutcome | src/pmm.c:16-27 | the frames left in use by the two loops, and the initial count is right exactly when the skipped words already had the reserved bits set |
| Pmm.CountBelow | src/pmm.c:27-27 | a set of numbers below n has n elements exactly when it is all of them, so the count decides fullness |
| Pmm.FrameAllocator.Init | src/pmm.c:7-28 | the placement, the frames in use afterwards for any earlier RAM contents, and the invariant holds if and only if the bits the rounded-down fill skips were set; no word outside the bitmap is written; the count starts at the first frame behind the kernel and a bitmap of one bit a frame, as numbers |
| Pmm.FrameAllocator.Place | src/pmm.c:8-14 | number of frames, and a bitmap behind the kernel that ends below the first free frame |
| Pmm.InitFails | src/pmm.c:7-28 | 160 KiB under a kernel ending at frame 34: the kernel's frames 32 and 33 and the bitmap's own count as free |
| Pmm.FrameAllocator.MarkAllUsed | src/pmm.c:16-18 | every whole word of the bitmap is ones, every other word of RAM as before |
| Pmm.FrameAllocator.ReleaseFrom | src/pmm.c:20-26 | exactly the frames from the first free one to the end become free, by writes to the bitmap alone |
| Pmm.FrameAllocator.AllocFrame | src/pmm.c:30-41 | the lowest free frame, never 0 and above the bitmap's end; 0 exactly when none is free; count and used set grow by exactly it; only bitmap words change; in the word of the frame its bit is or-ed in, every other word is as before |
| Pmm.FrameAllocator.FreeFrame | src/pmm.c:43-52 | exactly that frame leaves the used set, and the count drops only if it was in use; only bitmap words change; the invariant survives if and only if the frame is not a reserved one; the bit of a frame in use is cleared in its word, every other word is as before |
| Pmm.FrameAllocator.AllocThenFree | src/pmm.c:30-52 | free undoes alloc, also when nothing could be allocated |
| Paging.RegionHasTable | src/vmm.c:60-67 | canonical form: a 4 MiB region has a table exactly when some page of it is mapped |
| Paging.TablesDistinct | src/vmm.c:37-42 | tables of different slots, of one directory or of two, are different frames |
| Paging.FramesOwned | src/vmm.c:33-68 | a directory owns exactly one frame plus one for each region it maps |
| Paging.OwnedDisjoint | src/vmm.c:37-42 | frames of different directories are disjoint |
| Paging.Framed | src/vmm.c:33-48 | memory that agrees on the directories and tables keeps every invariant and every translation |
| Paging.MapInPlace | src/vmm.c:45-47 | writing a present entry into an existing table maps that page and changes no other translation anywhere |
| Paging.MapNewTable | src/vmm.c:37-47 | hanging a fresh table with one entry maps that page and changes no other translation anywhere |
| Paging.UnmapInPlace | src/vmm.c:56-63 | clearing an entry of a table that stays non-empty unmaps that page only |
| Paging.UnmapDropTable | src/vmm.c:60-67 | dropping the emptied table unmaps that page only and keeps the canonical form |
| Paging.DropDirectory | src/vmm.c:96-104 | forgetting a directory and its tables leaves all other directories as they were |
| Paging.TablesAreOwned | src/vmm.c:98-102 | the tables the destroy loop meets are exactly the table frames the directory owns |
| Paging.CopyStep | src/vmm.c:78-91 | one turn of the copy loop extends the copied prefix by one table |
| Paging.AddDirectory | src/vmm.c:77-93 | a finished copy is one more directory with the kernel's translation, the others unchanged |
| Paging.FinishCopy | src/vmm.c:70-93 | after the copy: same translations and slot flags as the kernel's, in frames nobody held before |
| Paging.IdentityRegion | src/vmm.c:13-15 | the regions an identity map of m pages touches |
| Paging.IdentityTurn | src/vmm.c:13-15 | which turns of the identity loop need a new table, and when they find no frame |
| Vmm.PageIndex | src/vmm.c:34-35 | the index split is a bijection between page numbers and pairs of indices: the table index is the page number modulo 1024 |
| Vmm.EntryDecodes | src/vmm.c:45-47 | masking an entry recovers the page and the flags it was made from |
| Vmm.EntryMeans | src/vmm.c:45-47 | the entry stored is present and decodes to the frame and flags |
| Vmm.OrFlags | src/vmm.c:90-90 | the copied directory entry has the new frame and the old flags |
| Rights.MapSlots | src/vmm.c:37-43 | the first mapping in a region fixes the flags of its slot, to those passed with bit 0 set; a later one leaves every slot alone |
| Rights.UnmapSlots | src/vmm.c:60-67 | after an unmapping the slots left are those of the regions still mapped, with their flags |
| Rights.CopySlots | src/vmm.c:90-90 | a copied directory has the slots of the kernel's, flags included, and no other directory's slot changes |
| Rights.SlotsAreMapped | src/vmm.c:37-67 | the slots of a live directory are exactly its mapped regions |
| Rights.StillWritable | src/vmm.c:13-15 | mapping with flags 3 keeps every slot at present, writable and kernel only |
| Vmm.PageMapper.Store | src/vmm.c:41-47 | a store changes one word of one frame and not the set of used frames |
| Vmm.PageMapper.CopyFrame | src/vmm.c:89-89 | the frame becomes a copy, all other frames as before |
| Vmm.PageMapper.Init | src/vmm.c:6-15 | the identity on every page the free frames reach and nothing else, with exactly 1 + ceil(pages / 1024) frames; every word of a frame that was in use, the bitmap apart, is as before; every table hangs in a slot with the flags 3 |
| Vmm.PageMapper.FirstDirectory | src/vmm.c:9-10 | an empty kernel directory in one fresh frame |
| Vmm.PageMapper.IdentityPage | src/vmm.c:13-15 | one turn maps one more page while frames last, and takes a frame exactly at the start of a region |
| Vmm.PageMapper.IdentityEntry | src/vmm.c:14-14 | the call for one page: mapped to itself with flags 3 when there is a table or a free frame; the slots keep the flags 3 |
| Vmm.PageMapper.MapPage | src/vmm.c:33-48 | all address spaces afterwards, for any physical address: only the named page of the named directory changes, to the frame that holds the address with the flags or-ed to what stands below it; nothing changes exactly when the region has no table and no frame is free; the frame count; words of other owners' frames as before; and word by word: the page entry is `phys`, the twelve flag bits and the present bit or-ed; a slot that gets its table in this call has in its low twelve bits the flags modulo 4096 with bit 0 set, and the new table is otherwise zero; a slot that had a table keeps its word, and so does every other word from the first free frame on |
| Vmm.PageMapper.MapEntry | src/vmm.c:37-47 | the same on a split address, word by word as well: mapped exactly when there is a table or a free frame |
| Vmm.PageMapper.TableFor | src/vmm.c:37-43 | a slot without a table gets a zeroed one in a frame nobody had, under the flags of the call with bit 0 set; nothing changes when the slot has one, or exactly when no frame is free |
| Vmm.PageMapper.UnmapPage | src/vmm.c:50-68 | all address spaces afterwards: only the named page is gone, and an emptied table is given back; words of other owners' frames as before; word by word: the page entry is cleared, the slot exactly when no other entry of its table is present, and then the table's frame is free; every other word as before |
| Vmm.PageMapper.UnmapEntry | src/vmm.c:56-67 | behind the test for a table: the page goes from its directory, all other views stay, and word by word what is cleared |
| Vmm.PageMapper.DropTable | src/vmm.c:64-67 | the table's frame is free and its slot cleared, every other word as before |
| Vmm.PageMapper.TableEmpty | src/vmm.c:60-63 | whether no entry of the table is present |
| Vmm.PageMapper.NewTable | src/vmm.c:37-43 | a zeroed table under the slot, or nothing exactly when every frame is in use |
| Vmm.PageMapper.CreatePd | src/vmm.c:70-94 | fails exactly when fewer frames are free than the copy needs, and then everything is as before; otherwise a directory in fresh frames with the kernel's translations and slot flags; no word of a frame in use changes |
| Vmm.PageMapper.CopyTables | src/vmm.c:77-92 | the copy is complete, or every frame taken for it is given back |
| Vmm.PageMapper.UndoCopy | src/vmm.c:80-86 | failure at any inner allocation restores the used frames and all translations |
| Vmm.PageMapper.AttachCopy | src/vmm.c:79-90 | the new table is a word-for-word copy under a slot with the old flags |
| Vmm.PageMapper.FreeTables | src/vmm.c:98-102 | exactly the tables under the first n slots are given back |
| Vmm.PageMapper.DestroyPd | src/vmm.c:96-104 | exactly the directory's frames go back, one plus one per mapped region; every other directory is unchanged and only bitmap words are written |
| Vmm.PageMapper.Serve | src/vmm.c:33-104 | one request, of a directory or of another owner of frames, steps the partial-map machine and the flags of all slots, is turned down exactly when `Refused` says so, and keeps every word of other owners' frames |
| Vmm.PageMapper.ServeTake | src/pmm.c:30-41 | another owner takes a frame nobody had: no translation changes; refused exactly when none is free |
| Vmm.PageMapper.ServeGive | src/pmm.c:43-52 | and gives it back: no translation changes, the frame belongs to nobody |
| Vmm.PageMapper.Run | src/vmm.c:33-104 | any run of directory requests with frames taken and given back by others in between refines the partial-map machine, step by step with the exact refusals; the frames that belong to no directory are those of the start, every word of them unchanged, reserved frames included and the bitmap apart, and those taken and not given back; and at the end the low twelve bits of every slot of every live directory are what replaying the events says |
| Vmm.StillBeside | src/vmm.c:33-104 | one step keeps that account of other owners' frames and their words |
| Vmm.UnnamedUnchanged | src/vmm.c:33-104 | isolation over runs: a directory no event names keeps its whole translation |
| Vmm.LastEventDecides | src/vmm.c:33-104 | a page's translation after a run is what the last event on it said |
| Vmm.FirstMappingDecides | src/vmm.c:37-43 | over a run the flags of a slot are those of the mapping that gave the region its table, as a number, whatever later mappings ask for, until the region is emptied or the directory goes |
| FreeList.InsertOrdered | src/heap.c:116-158 | inserting a block apart from the list keeps it sorted, disjoint and with no two neighbours touching |
| FreeList.InsertBytes | src/heap.c:116-158 | the covered bytes grow by exactly the block's header and payload |
| FreeList.Canonical | src/heap.c:116-158 | coalesced form is canonical: lists that cover the same bytes are the same list |
| FreeList.WithoutBytes | src/heap.c:172-181 | unlinking a block takes exactly its bytes off the list |
| FreeList.SplitsExactly | src/heap.c:64-69 | in numbers: a block is split exactly when it has n + H + 8 bytes or more; then n bytes are handed out and the remainder starts behind them, otherwise the whole block goes, with fewer than n + H + 8 bytes |
| FreeList.TakeInPlaceBytes | src/heap.c:62-114 | as meant, serving a request takes exactly the bytes handed out off the list |
| FreeList.FreeUndoesTakeInPlace | src/heap.c:62-158 | as meant, the split and the forward merge are inverse |
| FreeList.FreeUndoesTakeIff | src/heap.c:62-185 | as written, freeing restores the list if and only if the block found has fewer than n + H + 8 bytes |
| HeapLinks.LinkIn | src/heap.c:133-135 | relinking inserts the block at its position of the chain, and only there |
| HeapLinks.LinkOut | src/heap.c:172-181 | relinking takes exactly the k-th block out of the chain |
| HeapLinks.LinkOver | src/heap.c:71-88 | the remainder takes the block's place in the chain |
| HeapLinks.MergeNext | src/heap.c:143-155 | absorbing the next block merges the two in the chain and nothing else |
| HeapCells.TotalsAddUp | src/heap.c:236-236 | live, free, lost and gap bytes add up to the bumped region |
| HeapCells.ListBytesFree | src/heap.c:229-235 | the sum over the free list is the bytes of the free cells |
| HeapCells.ReleaseIsInsert | src/heap.c:116-158 | absorbing free neighbours in the tiling is coalescing insertion in the list |
| HeapCells.ReleaseTotals | src/heap.c:204-220 | freeing finds no lost byte and closes no gap |
| HeapCells.CarveTotals | src/heap.c:62-90 | a split remainder that is not relinked adds its length to the lost bytes, and nothing else does |
| HeapCells.LayoutSafe | src/heap.c:160-220 | in a tiling, live blocks are apart from each other and from every free block and inside the region |
| Heap.KernelHeap.Init | src/heap.c:33-40 | an aligned, empty heap |
| Heap.KernelHeap.FindFreeBlock | src/heap.c:42-60 | the first block of the chain that is large enough and its predecessor, or NULL |
| Heap.KernelHeap.SplitBlock | src/heap.c:62-114 | split exactly when the block has asize + H + 8 bytes or more; on a linked block the remainder behind asize bytes takes its place, a smaller block leaves the list whole; on an unlinked one the list is as before and the remainder on none |
| Heap.KernelHeap.InsertAndCoalesce | src/heap.c:116-158 | the list in memory becomes the coalescing insertion; headers of other blocks are untouched |
| Heap.KernelHeap.FindPlace | src/heap.c:125-131 | the walk stops at the block's place in address order |
| Heap.KernelHeap.CoalesceForward | src/heap.c:137-146 | merges with the next block exactly when they touch |
| Heap.KernelHeap.CoalesceBack | src/heap.c:148-157 | merges with the block before exactly when they touch |
| Heap.KernelHeap.Kmalloc | src/heap.c:160-201 | first fit then bump, NULL exactly when neither fits; a block found leaves the list, and the one served has exactly n bytes when the one found has n + H + 8 or more, and is the whole block otherwise; what is lost is 0 or at least H + 8 bytes, exactly the part not served; what is skipped |
| Heap.KernelHeap.KmallocAnswer | src/heap.c:160-201 | kmalloc is the step of the plain allocator, answer included |
| Heap.KernelHeap.TakeFound | src/heap.c:170-185 | unlink-then-split: the list loses the whole block, the live set gains the part served |
| Heap.KernelHeap.TakeBump | src/heap.c:187-200 | the bump path with its gap and its refusal |
| Heap.KernelHeap.Kfree | src/heap.c:204-220 | a live block goes back into the list, coalesced, and the live set loses exactly it; NULL and pointers outside the heap change nothing |
| Heap.KernelHeap.GiveBack | src/heap.c:217-219 | the live block joins the list coalesced, nothing is lost or gained |
| Heap.KernelHeap.KmallocAsMeant | src/heap.c:160-201 | with the split done while linked: same answers, the remainder stays in place, no byte is lost |
| Heap.KernelHeap.MallocThenFreeAsMeant | src/heap.c:160-220 | allocation from the list and free restore the list of addresses and sizes |
| Heap.KernelHeap.MallocThenFree | src/heap.c:160-220 | as written, they restore it if and only if the block found has fewer than n + H + 8 bytes |
| Heap.SplitLosesRemainder | src/heap.c:160-220 | with 12-byte headers, kmalloc(64), kfree, kmalloc(8) leaves 56 bytes on no list |
| Heap.KernelHeap.UsedSize | src/heap.c:227-242 | used plus list bytes make up the bumped region, so the clamp never loses bytes; used is live, lost and gap bytes |
| Heap.KernelHeap.FreeSize | src/heap.c:244-247 | free is the list's bytes plus what was never bumped, the unsigned difference wrapping when start passes the end |
| Heap.KernelHeap.Layout | src/heap.c:160-220 | in every valid state the list is linked and address-ordered, live and free blocks share no byte and lie below the bump pointer, the count is that of the live blocks |
| Heap.KernelHeap.Run | src/heap.c:33-220 | over any run of requests free list, live blocks, bump pointer, lost and skipped bytes and pointers held go as on the plain allocator, each answer is the one it gives, clients hold distinct live blocks, the count is theirs, and with 12-byte headers no two blocks touch |
| Heap.LostForGood | src/heap.c:160-220 | over any run lost and skipped bytes never become fewer and the bump pointer never goes back |
| Heap.PaddedInsert | src/heap.c:9-13 | with header size 4 modulo 8 freeing never merges: the list grows by one block each time |
| SchedModel.PickNearest | src/kernel.c:160-171 | the nearest ready or running slot around the ring, found whenever there is one |
| SchedModel.UpdateKeeps | src/kernel.c:173-189 | counting down waits keeps the table invariant |
| SchedModel.DispatchRuns | src/kernel.c:242-251 | after the choice a running process is current, and a newly chosen one starts its slice |
| SchedModel.YieldKeeps | src/kernel.c:191-216 | yielding keeps the invariant, and does nothing in preemptive mode |
| SchedModel.ActsKeep | src/kernel.c:253-253 | a process body that yields and exits as it pleases keeps the invariant |
| SchedProofs.SqueezeKeepsOrder | src/kernel.c:267-271 | compaction removes one slot and keeps the relative order of the others |
| SchedProofs.FinishKeeps | src/kernel.c:259-286 | removing the finished process keeps the invariant, with the next slot current |
| SchedProofs.AccountKeeps | src/kernel.c:254-302 | the accounting part of a tick keeps the invariant and the slice bound |
| SchedProofs.TickKeeps | src/kernel.c:218-303 | a tick keeps the invariant, the slice bound, and that a process is current when there are two or more |
| SchedProofs.Run | src/kernel.c:191-437 | every run whose ticks start with a current slot or at most one process keeps the invariant, and without a change to cooperative mode the slice bound |
| SchedProofs.SafeOverRuns | src/kernel.c:191-437 | over every such interleaving: slots from nr_procese on are unused, slots below live, at most one runs and it is the current one; in preemptive mode the slice is at most the quantum, and equal to it only with no current process |
| SchedProofs.PreemptiveBody | src/kernel.c:191-194 | in preemptive mode whatever a body calls comes to nothing or to ending its process |
| SchedProofs.SliceAtQuantumIff | src/kernel.c:218-303 | a tick leaves the slice at the quantum or above if and only if it ends the only process on the last tick of its slice, or is idle with the slice there already |
| SchedProofs.AnchoredProbe | src/kernel.c:162-164 | from a current slot, or from -1 with one process, C's remainder stays in the table |
| SchedProofs.ProbesInTableIff | src/kernel.c:160-171 | every probe is in the table exactly when a slot is current or at most one process exists |
| SchedProofs.TwoSpawnsUnanchored | src/kernel.c:242-245 | two spawns after boot reach a state whose tick probes slot -1 |
| SchedLiveness.TickAdvances | src/kernel.c:218-303 | a tick runs the process or strictly lowers d * QUANTUM - slice, also when compaction moves it |
| SchedLiveness.RunsByMeasure | src/kernel.c:218-303 | a ready process runs within its measure |
| SchedLiveness.RunsWithin | src/kernel.c:218-303 | bounded waiting: at cyclic distance d a ready process runs within d * QUANTUM + 1 ticks |
| SchedLiveness.TickWork | src/kernel.c:218-286 | a tick that runs a process lowers the work owed by exactly one, an idle tick not at all |
| SchedLiveness.TickWaits | src/kernel.c:173-189 | the longest wait runs down by one per tick, and only waiting makes a tick idle |
| SchedLiveness.AllFinish | src/kernel.c:218-303 | with no new commands, and a current slot or at most one process at the start, every process finishes within the work owed plus the longest wait |
| SchedLiveness.AloneRuns | src/kernel.c:253-279 | a process alone with r ticks to go is gone after r ticks, and the slice is where cyclic counting puts it |
| SchedLiveness.StaleSliceIff | src/kernel.c:274-279 | from boot, a process spawned alone with r ticks leaves the slice at the quantum if and only if r is a multiple of the quantum |
| SchedLiveness.StaleSliceAfterSpawn | src/kernel.c:274-279 | from boot with the source's 100 ticks: the slice is at the quantum, and stays there over the next spawn |
| SchedSteps.UpdateSlots | src/kernel.c:173-189 | what counting down does to each slot: only waiting ones, one tick less, ready when none is left |
| SchedSteps.WakesAfter | src/kernel.c:173-189 | a process that waits w ticks sleeps through the first w - 1 updates and is ready from the w-th on |
| SchedSteps.WaitEffect | src/kernel.c:411-437 | the named slot alone waits, for the ticks asked if there are any and for ten otherwise |
| SchedSteps.KillEffect | src/kernel.c:381-405 | the named slot, current or not, has no remaining time, and nothing else changes |
| SchedSteps.SpawnEffect | src/kernel.c:454-465 | one ready process behind the others with the ticks asked; ten processes fill the table |
| SchedSteps.DispatchEffect | src/kernel.c:242-251 | the process that runs stays; otherwise the first active one from the current slot on, or from slot 0, runs with a new slice |
| SchedSteps.YieldEffect | src/kernel.c:191-216 | in cooperative mode the one that yields sleeps three ticks and the first other active process behind it takes over with a new slice |
| SchedSteps.StaysOn | src/kernel.c:253-288 | a tick that leaves the process current, in cooperative mode always, in preemptive mode below a slice of four: the whole new state |
| SchedSteps.QuantumEnds | src/kernel.c:288-302 | in preemptive mode with the fourth tick of its slice the process is ready again and the first active one behind it, itself the last of all, gets a new slice |
| SchedSteps.LastTick | src/kernel.c:259-286 | with its last tick a process leaves, those behind move down, and who is current and runs afterwards |
| SchedSteps.FinishEffect | src/kernel.c:265-285 | the same for the part of the tick that removes the process |
| SchedSteps.TickIdles | src/kernel.c:220-240 | with nobody ready a tick counts the waits down and does nothing else |
| SchedSteps.TickStarts | src/kernel.c:242-257 | with nobody running the first active process, one just woken included, runs in this very tick with a new slice |
| SchedSteps.ExitIsKill | src/kernel.c:253-286 | a body that exits ends its process with this tick, as a kill before the tick would |
| SchedSteps.YieldIsCharged | src/kernel.c:253-256 | when a body yields, the rest of the tick is charged to the process that took over, and the one that yielded keeps its remaining time and sleeps three ticks |
| SchedSteps.CooperativeTick | src/kernel.c:253-288 | in cooperative mode a tick of a running process with more than one tick to go, whose body makes no calls, leaves it current and running with one tick less, however large the slice |
| SchedSteps.KeepsProcessor | src/kernel.c:218-303 | over any such ticks and new processes it keeps the processor while it has ticks to go |
| SchedSteps.EndsOnTime | src/kernel.c:218-286 | and leaves the table with the last of them |
| Scheduler.ProcessTable.constructor | src/kernel.c:1041-1046 | the table the shell starts with: ten unused slots, no current process, preemptive mode |
| Scheduler.ProcessTable.PickNextReady | src/kernel.c:160-171 | the loop finds the slot of the transition system |
| Scheduler.ProcessTable.UpdateWaitingSlots | src/kernel.c:173-189 | the loop refines the transition |
| Scheduler.ProcessTable.YieldNow | src/kernel.c:191-216 | the in-place yield refines the transition |
| Scheduler.ProcessTable.LeaveProcessor | src/kernel.c:203-215 | the current process stops and the nearest active one takes over with a new slice |
| Scheduler.ProcessTable.SchedulerTick | src/kernel.c:218-303 | the in-place tick refines the transition for any process body, from an anchored state to an anchored state; in cooperative mode a running process with more than one tick to go whose body makes no calls stays current with one tick less; what the transition does otherwise is stated in `SchedSteps` |
| Scheduler.ProcessTable.RunOne | src/kernel.c:242-302 | once somebody is ready: choosing, running the body and accounting in place are those of the transition |
| Scheduler.ProcessTable.FinishNow | src/kernel.c:259-286 | the shifting loop and the choice of the next slot refine the transition |
| Scheduler.ProcessTable.ShiftDown | src/kernel.c:267-270 | every slot behind the current one moves down by one, the others stay |
| Scheduler.ProcessTable.KillProcess | src/kernel.c:381-405 | only the remaining time of the named slot changes |
| Scheduler.ProcessTable.WaitProcess | src/kernel.c:411-437 | the named slot waits for the ticks asked, or ten |
| Scheduler.ProcessTable.Append | src/kernel.c:454-465 | one ready process behind the others, or nothing when the table is full |
| Scheduler.ProcessTable.Drive | src/kernel.c:191-437 | any sequence of events whose ticks start anchored is a run of the transition system |
| FsCodec.EncodeIsPrefix | src/fs.c:137-181 | the encoder records exactly the first sixteen nodes in preorder |
| FsCodec.ParentsRecorded | src/fs.c:137-181 | every recorded node but the root has a recorded parent with a smaller index |
| FsCodec.DecodeFlat | src/fs.c:111-127 | a recorded subtree decodes to its mirror |
| FsCodec.FlatTrunc | src/fs.c:139-142 | the records that fit are the preorder of the truncated tree |
| FsCodec.LoadAfterSave | src/fs.c:63-201 | for a tree of any size, loading what was saved gives the mirror of its first sixteen nodes |
| FsCodec.MirrorAt | src/fs.c:122-124 | the mirror image keeps every node and lists its children the other way round, each mirrored itself |
| FsCodec.MirrorTwice | src/fs.c:122-124 | reversing every sibling list twice is the identity |
| FsCodec.TwoRoundsIdentity | src/fs.c:63-201 | two save and load rounds are the identity on trees of at most sixteen nodes |
| FsLinks.SiblingsDisjoint | src/fs.c:210-212 | subtrees of two children have no node in common |
| FsLinks.LinkFirst | src/fs.c:210-212 | prepending a child keeps the links a tree |
| FsLinks.UnlinkAt | src/fs.c:308-315 | unlinking child k keeps the links a tree, with exactly that child gone from the chain |
| FsLinks.DropNodes | src/fs.c:316-316 | freeing nodes no remaining chain enters keeps the links a tree |
| FsState.AdoptedOk | src/fs.c:210-212 | linking a fresh node keeps the whole invariant |
| FsState.WriteContents | src/fs.c:368-391 | the file holds the bytes written and every other node keeps its content |
| FsState.WriteOk | src/fs.c:368-391 | replacing a buffer keeps every buffer owned by exactly one node |
| FsState.NotAboveItself | src/fs.c:274-306 | no directory is below its own child, so the in-use guard of fs_rm can never fire |
| FsState.PrunedOk | src/fs.c:308-316 | taking a child and its subtree out keeps the whole invariant, the current directory included |
| FsState.AllFreed | src/fs.c:258-271 | the nodes freed by the recursion are exactly the subtree, the node itself last |
| FileSystem.FileTree.CreateNode | src/fs.c:43-62 | a node without links under the first 31 characters of the name, all of it when it is shorter; nothing when kmalloc answers NULL |
| FileSystem.FileTree.Mkdir | src/fs.c:203-214 | a directory in front of the current directory's children, fails exactly when kmalloc does; a lookup of the name finds it exactly when the name fits its field; its name is the first min(length, 31) characters, and a lookup of those finds it |
| FileSystem.FileTree.FindChild | src/fs.c:331-340 | the first child of that name and kind, and its predecessor |
| FileSystem.FoundByName | src/fs.c:331-340 | what a lookup finds has the name asked for, whole, and the kind; whatever comes before it has another name or is of the other kind |
| FileSystem.FileTree.CreateFile | src/fs.c:329-353 | refused exactly for a name some child has or a NULL from kmalloc; otherwise a file in front, found under its name exactly when the name fits; its name is the first min(length, 31) characters, and a lookup of those finds it |
| FileSystem.FileTree.Cd | src/fs.c:216-236 | the parent for "..", otherwise the first directory of that name, otherwise no change |
| FileSystem.FileTree.WriteFile | src/fs.c:354-400 | exactly when it fails, and what the file, its buffer and everything else are afterwards, the lost content on a NULL from kmalloc included |
| FileSystem.FileTree.IsParentOf | src/fs.c:274-284 | whether the target is the node or an ancestor of it |
| FileSystem.FileTree.FreeNodeRecursive | src/fs.c:253-272 | exactly the nodes of the subtree and their buffers are freed, each once, each while still allocated |
| FileSystem.FileTree.Rm | src/fs.c:286-327 | "root" is refused, a missing name reported, otherwise exactly the first child of that name goes with its subtree and buffers; never reported in use |
| FileSystem.FileTree.MkdirThenRm | src/fs.c:203-327 | removing a directory just made gives back every node, buffer and link |
| FileSystem.LongNameNeverFound | src/fs.c:50-53 | a name of 32 characters or more is never found by any lookup |
| FileSystem.FoundIff | src/fs.c:50-53 | a node just made is what a lookup of its name and kind finds if and only if the name has fewer than 32 characters |
| FileSystem.IsAdded | src/fs.c:50-53 | for names of any length: the new node stands in front of the children under the first min(length, 31) characters of the name, without content, and a lookup of those finds it |
| FsTrees.OnlyAt | src/fs.c:203-327 | when only one subtree changed, the whole tree changed at that path and nowhere else |
| FsTrees.GrownTree | src/fs.c:203-353 | mkdir and create: the tree gains one leaf in front of the current directory's children, at the same path |
| FsTrees.WroteTree | src/fs.c:354-400 | write: the tree changes in the content of one file of the current directory, at the same path |
| FsTrees.CutTree | src/fs.c:286-327 | rm: the tree loses one child of the current directory with everything below it, and the path still leads there |
| FsShell.FindIs | src/fs.c:331-340 | looking a child up in the chain of nodes and in the tree is the same |
| FsShell.DirIs | src/fs.c:216-236 | the tree at the current path is the tree of the current directory's node |
| FsShell.UpPath | src/fs.c:218-224 | the parent pointer is the path without its last step, NULL at the root |
| FsShell.ServeMkdir | src/fs.c:203-214 | mkdir on the nodes is mkdir on the tree and path |
| FsShell.ServeCreate | src/fs.c:329-353 | create on the nodes is create on the tree, refusals included |
| FsShell.ServeCd | src/fs.c:216-236 | cd on the nodes is a step of the path |
| FsShell.ServeWrite | src/fs.c:354-400 | write on the nodes is write on the tree for any answer of kmalloc, the address just freed included |
| FsShell.ServeRm | src/fs.c:286-327 | rm on the nodes is rm on the tree |
| FsShell.SomeState | src/fs.c:22-23 | every valid state stands for a tree and a path to its current directory |
| FsShell.Run | src/fs.c:203-400 | any sequence of commands with any answers of kmalloc, from any valid state, refines the commands on a tree with a current path |
| FsShell.OtherSubtree | src/fs.c:203-400 | a command leaves the trees at paths apart from the current one as they were |
| FsShell.ReplacedSubtree | src/fs.c:203-400 | and at the current path the new tree stands |
| FsDisk.SectorsDistinct | src/fs.c:153-155 | two files never share a data sector, and none uses the table's |
| FsDisk.Disk.WriteData | src/fs.c:157-166 | the sector holds the content padded with zeros |
| FsDisk.Disk.SerializeNode | src/fs.c:137-181 | the table and data sectors record exactly what the encoder lists for the linked nodes |
| FsDisk.Disk.SaveToDisk | src/fs.c:183-201 | the stored table is the encoding of the tree, entry by entry: name, kind, parent, size, and for a file with content sector 101 + i with the content and zeros up to 512 bytes; the others unused; only data sectors were written besides |
| FsRestore.NextFresh | src/fs.c:76-107 | on any table, the next answers of kmalloc are not yet in use |
| FsRestore.NodesMade | src/fs.c:76-107 | on any table, exactly one node for every used entry kmalloc had memory for |
| FsRestore.RestoredLoading | src/fs.c:76-107 | on any table, the first loop makes the node of every record that comes through and nothing else |
| FsRestore.LinkedLoading | src/fs.c:111-127 | on any table, circles included, the second loop gives every node the parent, first child and sibling its record asks for |
| FsRestore.ThroughSound | src/fs.c:76-127 | whatever the table holds, a record that comes through with a parent is there and so is the parent |
| FsRestore.BootFinished | src/fs.c:72-127 | what fs_init ends with, for any table: node by node the closed form |
| FsLoad.LoadMade | src/fs.c:78-105 | one entry's node and buffer join those loaded so far |
| FsLoad.LinkMade | src/fs.c:111-126 | one entry becomes first child of its parent, be it itself, and nothing else changes |
| FsLoad.LoadedLinks | src/fs.c:111-126 | when no way up from record to record goes in a circle the links are a forest, each child chain its records in falling order |
| FsLoad.LoadedTree | src/fs.c:76-127 | the tree under a node is the records unfolded from its record |
| FsLoad.LoadedData | src/fs.c:84-105 | on any records every buffer belongs to exactly one node |
| FsLoad.GroundedOk | src/fs.c:76-127 | when every record that is there hangs under the first, the whole invariant holds |
| FsLoad.DecodesTo | src/fs.c:111-127 | when parents come earlier the records unfold to what they decode to |
| FsLoad.EncodedOk | src/fs.c:137-181 | what the encoder writes for a tree of a valid state can be loaded: every parent is an earlier directory |
| FsStands.TreeCountsNodes | src/fs.c:22-23 | the tree of a valid state has exactly as many nodes as are allocated |
| FsStands.TreeUnique | src/fs.c:210-212 | the links in memory stand for one tree only |
| FsStands.LoadedCount | src/fs.c:76-82 | a boot makes exactly one node for every entry that got one |
| FsStands.StandsGrounded | src/fs.c:111-127 | nodes of a boot that stand for a tree at all have every record hanging under the first |
| FsStands.StandsIff | src/fs.c:76-127 | for any records: the nodes stand for a tree if and only if every record hangs under the first and unfolded they spell that tree |
| FsBoot.RestoreNodes | src/fs.c:76-107 | for any table the first loop computes `Restored`: nodes and buffers for the used entries, as far as kmalloc answers; file entries that get a buffer stay inside a sector |
| FsBoot.LinkNodes | src/fs.c:109-127 | for any table the second loop computes `LinkedUp`: every entry whose parent was created is prepended to it |
| FsBoot.Init | src/fs.c:63-135 | the nodes after boot for any table whose copies stay inside a sector and any answers of kmalloc, and exactly when they stand for a tree and for which: the records unfolded, decoded when parents come earlier; or a new root exactly when the first entry is not a used one called root |
| FsBoot.BootedNode | src/fs.c:76-127 | field by field, for any table: the node of an entry has its name cut to 31 characters, its kind, its content as far as kmalloc answers, the parent the entry names if that has a node, as first child the node hung last under it, and as sibling the one hung last under the parent before it |
| FsBoot.HeadHung | src/fs.c:122-124 | the head of a chain of children is the node of the last entry hung there |
| FsBoot.RecordedReads | src/fs.c:76-100 | to the loader a saved table says exactly the saved records |
| FsBoot.DecodePrefix | src/fs.c:111-127 | entries without a parent behind the others add nothing to the tree |
| FsBoot.SavedBoots | src/fs.c:63-129 | a table that says some records boots into the tree they decode to, without what kmalloc refused |
| FsBoot.SaveAndBoot | src/fs.c:63-201 | save, power off, boot, with memory for the nodes of the tree: the mirror of the first sixteen nodes |
| FsBoot.TwoRounds | src/fs.c:63-201 | two rounds give the tree back as it was |
| FsSector.WhatComesBack | src/fs.c:65-66 | for every memory: entries 0 to 8 whole, entry 9 without size and sector, the others as the memory had them |
| FsSector.ReadsBackIff | src/fs.c:65-100 | for every memory and any saved records, the table read back says the records if and only if the memory completes it |
| FsSector.KeptReads | src/fs.c:65-100 | when no later entry looks used, the table read back says the first ten records, the tenth with the content the memory names |
| FsSector.SectorTreeIff | src/fs.c:63-201 | those records decode to the mirror of a tree, which is the saved one if and only if it has at most nine nodes, or ten with the tenth's content right |
| FsSector.NodeComesBack | src/fs.c:76-126 | in every memory safe for the copy loop, each of the first nine nodes has its name, kind, content and parent again, as far as kmalloc answers for it |
| FsSector.BackCount | src/fs.c:65-80 | used entries of the table read back: the first ten saved and those the memory adds |
| FsSector.CountBack | src/fs.c:65-127 | a tree comes back only if exactly as many entries from 10 on look used as it has nodes there |
| FsSector.FewOrMany | src/fs.c:63-135 | a tree of at most ten or more than sixteen nodes comes back if and only if no entry from 10 on looks used and it fits |
| FsSector.BootFromSector | src/fs.c:63-135 | the same for a boot from any saved table that came through one sector |
| FsSector.TenNodesLoseData | src/fs.c:185-199 | a tree of ten nodes that does not come back from cleared memory |
| FsSector.LoneRootMayFail | src/fs.c:65-80 | a lone root, saved over memory in which entry 10 looks used, is not what the table says |
| FsSector.SaveAndBootSector | src/fs.c:63-201 | save and boot over the real sector, for every tree, every memory safe for the copy loop (`SafeMemory`) and any answers of kmalloc: the first nine nodes come back, and the tree if and only if the table read back spells it |
| Pipe.FifoOverRuns | src/pipe.c:31-75 | over any run bytes accepted are bytes delivered followed by bytes buffered, and both only grow |
| Pipe.DrainedIsAccepted | src/pipe.c:31-65 | a drained pipe has delivered exactly what it accepted |
| Pipe.PoolOverRuns | src/pipe.c:11-75 | first in, first out on every pipe at once, over any interleaving of calls on any ids |
| Pipe.OthersKeepPipe | src/pipe.c:11-75 | calls on other ids and allocations leave a pipe in use as it was |
| Pipe.CallMoves | src/pipe.c:31-65 | one call appends to a pipe what its reply says went in and takes from its front what it hands out |
| Pipe.ClientsSeeFifo | src/pipe.c:31-75 | from the replies alone: while a pipe is in use, the bytes writers were told went in are the bytes readers were handed, followed by those buffered |
| Pipe.CloseEffect | src/pipe.c:67-75 | the pool after a close, for each end: which end is shut, and idle exactly when the other was |
| Pipe.EndsStay | src/pipe.c:67-75 | over any calls an end once closed stays closed, and the other open, while the pipe is in use |
| Pipe.AfterReadClosed | src/pipe.c:31-75 | after the read end is closed every read is answered -1, and every write takes what fits into 4096 bytes, over any calls on any ids |
| Pipe.AfterWriteClosed | src/pipe.c:31-75 | after the write end is closed every write is answered -1, and every read hands out the front of what is buffered, or -1 when nothing is |
| Pipe.BufferedIsRead | src/pipe.c:47-75 | what was buffered when the write end was closed is what readers are handed from then on, in order, followed by what is left |
| Pipe.WriteStep | src/pipe.c:31-45 | a write takes the minimum of the request and what is missing to 4096 bytes; on a closed end it changes nothing |
| Pipe.ReadStep | src/pipe.c:47-65 | a read takes the minimum of the request and what is buffered; on a closed end it changes nothing |
| Pipe.RingSlots | src/pipe.c:39-43 | the write position is none of the buffered ones |
| Pipe.RingAdvance | src/pipe.c:55-59 | after a byte is read every queue position moves up by one, across the wrap |
| Pipe.PipePool.Alloc | src/pipe.c:11-24 | the lowest unused pipe, empty and open; -1 exactly when all are in use |
| Pipe.PipePool.Free | src/pipe.c:26-29 | exactly that pipe becomes unused, an id out of range does nothing |
| Pipe.PipePool.Write | src/pipe.c:31-45 | accepts the minimum of the request and the room, appended in order; other pipes unchanged; -1 exactly when not there or closed, as numbers with 4096 bytes of room in all |
| Pipe.PipePool.Read | src/pipe.c:47-65 | delivers the minimum of the request and the data, in order, and nothing else of the caller's buffer changes; the three cases of -1 |
| Pipe.PipePool.Close | src/pipe.c:67-75 | 0 closes the read end and anything else the write end, what is buffered stays, and the pipe goes back to the pool exactly when both are closed |
| Pipe.PipePool.Run | src/pipe.c:11-75 | any interleaving of alloc, free, write, read and close on any ids refines the calls on the pool of queues, and every reply, bytes handed out included, is the one they give |

## Left out

- Port I/O and drivers (`src/ata.c`, `src/uart.c`, `src/io.h`), text and graphics output, and all printing inside modelled functions: hardware effects only.
- Boot code, assembly stubs, GDT, TSS and IDT set-up, CR0 and CR3 writes, TLB behaviour and the user programs: hardware or foreign state.
- `shell_loop`, `execute_pipeline`, `trim`, `strcmp` and command parsing: user interface and glue.
- `heap_test`, `heap_test_processes`, `heap_dump`, `fs_ls`, `fs_cat`: demonstrations and printing only.
- Descriptor ownership in `syscall_handler` and pipelines: descriptors are copied without reference counts (src/idt.c:200), so one close shuts the end for all copies and there is no ownership theorem; pipes are modelled at the level of `src/pipe.c`.
- `spawn_pipeline_process` beyond its table append: its stack-allocation failure path keeps the new directory (src/kernel.c:577-580), so frame conservation is stated for `src/vmm.c`.
- `src/scheduler.c` and the backup files: an older scheduler that is not built.
- Wrap-around of 32-bit sizes and addresses, double free and foreign pointers into the heap: preconditions (`Heap.KernelHeap.Kmalloc`, `Heap.KernelHeap.Kfree`, `Vmm.PageMapper.Init`).
- How the processor combines the flags of a slot with those of a page entry into effective rights: the source only stores both, and both are stated.
- Vmm.PageMapper.Init: requires one free frame, because the first allocation is not checked (src/vmm.c:9-10).
- Pmm.FrameAllocator.Init: requires the bitmap to end inside RAM, because the code does not check it (src/pmm.c:21-27).
- Block contents in the heap: only headers are in memory, payload bytes are the clients'.
- Scheduler.ProcessTable.SchedulerTick: requires a current slot or at most one process, because from other states the code reads slot -1 (src/kernel.c:164); results over runs are about runs whose ticks all start from such states.
- Scheduler.ProcessTable.PickNextReady: requires a start in the table, or -1 with at most one process, for the same reason.
- Scheduler.ProcessTable.KillProcess: does not close the pipe descriptors of the process (src/kernel.c:389-398), because descriptors are not in the model.
- SchedLiveness.RunsWithin: process bodies make no calls; a body may kill or yield at will only in the safety results.
- Names are strings without the terminating NUL, and comparison is equality.
- FsShell.Run: a write that announces more bytes than were passed changes nothing, because the caller promises that many bytes.
- FsBoot.Init: requires used file entries that get a node and a buffer to claim at most one 512-byte sector that exists, because the copy loop does not check the size and would read past its buffer (src/fs.c:92-98); an entry's kind is file or directory, no other type word, and it is used or not (the first entry is compared with 1, src/fs.c:68, the others with 0).
- FsDisk.Disk.SaveToDisk: stores the whole table; the 512-byte sector is applied where the table is read back, in `FsSector`.
- FsSector.SaveAndBootSector: requires the same of the entries the memory supplies (`SafeMemory`).
- Sibling names are not unique, because `fs_mkdir` does not look (src/fs.c:203-214); every lookup finds the first match.
