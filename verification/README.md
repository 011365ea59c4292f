# Verified models of the Sugimotos kernel

Sugimotos is a small operating system for 32-bit RISC-V. This project models the parts of
it with the most state and the most branching, in Dafny, and proves what they are for.
Verify everything with `dafny verify dfyconfig.toml`.

The code that changes things step by step is modelled by classes with the fields the
kernel changes and by methods with its loops; each method is proved against a
specification, and the specifications are tied together by lemmas.

| module | models |
|---|---|
| Common, Counting, Phys | shared types; finite sets; physical memory of 2^20 frames of 1024 words |
| FreeRuns, PageAlloc | `mm/page_alloc.c`: the theory of sorted free runs; the allocator with its linked lists, reference counts and metadata |
| Sv32, Vm | `mm/vm.c`: page-table entries and walks (section 4.3 of the RISC-V Privileged Architecture, version 20211203); the page tables in memory and who owns them |
| Vma, Image | the tables of memory areas in `mm/process_vm.c`; the areas and mappings of the program image |
| Cow, ProcTable | copy-on-write as a theory of pages, counts, entries and what each process sees; facts about the process table |
| Kernel | the entry points of `mm/process_vm.c` and `kernel/process/process.c` over allocator and page tables |
| Eager | whole runs of the kernel against a machine that copies eagerly |
| VirtioBlk | `drivers/virtio/virtio_blk.c` with up to eight readers, the interrupt and the device (section 2.6 of VIRTIO 1.1) |
| Sched, WaitExit | `kernel/process/sched.c`; fork, exit and waitpid as a protocol |
| Wm, EventRing | `kernel/gui/wm.c`: damage, z order, painting; the event ring of a window |
| Ext4, Ramfs | extent lookup and reads of `fs/ext4.c`; the memory files of `fs/fs.c` |

## Main results

- `Eager.BootAndRun` crosses all three memory layers. From boot on, which fails exactly
  without room for one page, over every sequence of loads, stores, page faults, mmap,
  munmap, fork, exec, exit, wait, reaping and switches, the kernel answers as a machine
  that copies all memory at fork and maps all memory at once would. A permitted load,
  store, fault, fork or exec is never refused but for want of memory, and a load, store or
  fault not while two pages can be had. Every process always sees exactly that machine's
  memory, the program reads as it lay in RAM at boot, and every page in use is a page
  table or is mapped, unless the allocator has warned that it lost one.
- `Kernel.MappedPage`: the 16-bit count of a mapped page is the number of leaf entries
  that map it, at most 8; a writable entry is the only one; a free page is mapped nowhere.
- `PageAllocator`: the linked list is at all times the canonical form of the set of free
  pages, and that form is unique (`FreeRuns.CanonicalUnique`).
- `PageTables.MapPage` is a point update of one address space, also when it splits a
  4 MiB leaf.
- `VirtioBlk.Run`: in every interleaving a read that succeeds has its own sector.
- `Sched.BoundedWaiting` and `Sched.ProportionalShare`; `WaitExit.Run`: no lost wakeup,
  exactly-once reaping.
- `WindowManager.Run`: over any sequence of actions clipped repaints equal full repaints,
  but for the pixels of the two actions that mark nothing; `Wm.PainterAgreesWithTop`:
  painting agrees with hit testing; `EventRing.Run`: event times strictly increase and
  nothing is lost unmarked, over every sequence of calls.
- `Ext4.LookupIsSearch`, `Ext4.ReadInPieces`, `Ramfs.RoundTrip`, `Ramfs.Run`.

## Where the code does less than one would expect

Each of these is proved: a condition under which the property holds, exactly, and where a
single input shows the failure, that input.

- An area with W and neither R nor X. Fork maps its pages nowhere afterwards: the frame
  keeps two references and no entry (`Kernel.CloneOnePage`, `ProcTable.ShareForgets`); with
  R or X nothing is lost. The bytes seen stay right, for no store ever gets through: an
  access that the areas allow faults for ever only for W without R, the combination the
  hardware reserves (`Kernel.UserAccess`), and there every store does, unless it is refused
  for want of memory (`Kernel.UserStore`).
- munmap and mmap of more than 0xfffff000 bytes. The rounded length wraps to 0
  (`Vma.CeilCovers`); munmap then returns 0 and does nothing, mmap returns -1.
- A failing MAP_FIXED mmap changes nothing, unless munmap accepts the range and the table
  is then full; in that case the range has been emptied (`Kernel.MmapFixed`).
- The overflow test of the allocator sees the size modulo 2^32 bytes: it is right exactly
  for fewer than 2^20 pages and for sizes whose remainder does not fit either
  (`PageAlloc.BumpTest`), so not for 2^20 pages (`PageAlloc.BumpTestWraps`). No caller
  passes that many: the one size that varies, in wm_set_image, is a 32-bit number of bytes
  divided by 4096 (`kernel/gui/wm.c:373-374`).
- A freed page keeps its count of 1 and is never used again exactly when no list node is
  spare or can be carved and neither neighbour of the page is free
  (`PageAllocator.DropLastRef`, `PageAllocator.FreePages`; `PageAlloc.PageIsLost` builds
  such a state). One reference more on a count of 65535 wraps it to 0, which breaks the
  allocator (`PageAllocator.PageIncRef`); counts of mapped pages do not pass 8.
- wm_focus of the focused window raises it and marks nothing: exactly the pixels where
  something of another color hid it are wrong afterwards, unless they were dirty
  (`WindowManager.Focus`, `Wm.FocusAgainMayShow`). wm_set_image without pixels frees the
  image and marks nothing: exactly the pixels where it was seen are wrong afterwards,
  unless they were dirty (`WindowManager.SetImage`, `Wm.FreeImageMayShow`).
- An ext4 read stays inside the file exactly when offset plus length is below 2^32
  (`Ext4.RemainingInFile`, `Ext4.RemainingMayPassTheEnd`).
- fs_open that fails only for want of a descriptor has already created or emptied the file;
  it changes nothing exactly if the file existed and was empty or not to be truncated
  (`FileSystem.Open`, `Ramfs.FailedOpenEmpties`).

## Model

| member | source | states |
|---|---|---|
| Eager.BootAndRun | mm/process_vm.c:227-501 | Booting fails exactly when not one page fits below the metadata; else, over every run of loads, stores, faults, mmap, munmap, fork, exec, exit, wait, reaping and scheduling: every answer is one an eager-copying machine gives, which refuses a load, store, fault, fork, exec or new process only for a reason it knows; a permitted load, store or fault succeeds unless at most one page can be had before it, and a fork or new process unless fewer than 8192 bytes are left between the pages and the metadata; all processes see exactly that machine's memories, and the program reads as it lay in RAM at boot; and, if no mmap asks for W alone, every page in use is a page table or mapped, unless the allocator has warned that it could not free one |
| Eager.Boot | mm/vm.c:202-218 | The kernel fails to boot exactly when not one page fits below the metadata; else it boots into a valid state in which nobody sees any memory and no page is lost |
| Eager.BootOnce | mm/vm.c:202-218 | With 32 MiB of RAM behind a program of three pages it does boot, so the invariant of all other results is reachable |
| Eager.Run | mm/process_vm.c:227-256 | The same from any valid state: copy-on-write refines eager copying over every run, and no page is lost that was not lost before; each load, store or fault without memory comes when at most one page can be had |
| Eager.Happen | arch/riscv32/trap/trap.c:165-199 | One event: the kernel and the eager machine stay in step, whatever the event, also when the call fails half-way; a permitted load, store or fault succeeds whenever two pages can be had before it |
| Eager.SeenIsAllowed | mm/process_vm.c:465-501 | The fault handler allows an access exactly if the process sees the page with that permission |
| Eager.StaysTame | mm/process_vm.c:358-393 | Only an mmap with W alone ever makes a page with W alone |
| Eager.SeenIsHad | mm/process_vm.c:227-236 | What a process does not see with W alone it has in no area with W alone, so its fork loses nothing |
| FreeRuns.CanonicalUnique | mm/page_alloc.c:86-100 | Two sorted, disjoint, non-adjacent run lists with the same pages are the same list: the free list is determined by the free set |
| FreeRuns.InsertFrees | mm/page_alloc.c:102-168 | Freeing a page that is not free adds exactly that page to the free set and keeps the list canonical, however it joins its neighbours |
| FreeRuns.TakeAllocates | mm/page_alloc.c:177-205 | Taking n pages from the front of a run removes exactly those pages and keeps the list canonical |
| FreeRuns.MergeKeepsPages | mm/page_alloc.c:86-100 | Merging two touching runs keeps the set of free pages |
| PageAlloc.PageAllocator.constructor | mm/page_alloc.c:23-42 | Initialisation gives an empty free list and zero counts, with the counts below the end of RAM and the metadata above every page |
| PageAlloc.PageAllocator.AllocRunNode | mm/page_alloc.c:58-76 | A node comes from the spare list or is carved below meta_top; null exactly when the spare list is empty and none can be carved, and then nothing changes |
| PageAlloc.PageAllocator.ReleaseRunNode | mm/page_alloc.c:78-84 | The node goes on the spare list and on no other |
| PageAlloc.PageAllocator.CoalesceFreeRuns | mm/page_alloc.c:86-100 | The pointer loop computes the canonical list and returns every node it removes to the spare list |
| PageAlloc.PageAllocator.FreeSinglePageRaw | mm/page_alloc.c:102-168 | The linked list afterwards is the canonical insertion of the page; -1 exactly when no node can be had and no free run ends or starts at the page, and then the list is unchanged; both overlap PANICs are unreachable |
| FreeRuns.NearIsNextToFree | mm/page_alloc.c:112-157 | At the place the search finds, the page joins a run exactly when some run ends or starts at it |
| PageAlloc.NextToFreeCount | mm/page_alloc.c:102-168 | No free run ends or starts at a page in use exactly when neither neighbour has count 0 below next_paddr |
| PageAlloc.PageAllocator.AllocPagesTry | mm/page_alloc.c:170-227 | For every size whose overflow test is right: fails exactly when no run has n pages and the pages at next_paddr do not fit; else n pages that were free have count 1 and are zeroed, no other count or frame changes, the list is again the canonical form of the free set, and the pages are the front of the first run that is long enough, else those at next_paddr |
| PageAlloc.PageAllocator.NoneCanBeHad | mm/page_alloc.c:170-227 | A single page can be handed out exactly when some page has count 0 and lies below the metadata |
| PageAlloc.PageAllocator.FreePages | mm/page_alloc.c:234-274 | PANICs exactly on the bad arguments and free pages; else every page in turn loses one reference, and one that would reach 0 is in the free list, or keeps its count 1 exactly when at its turn no node can be had and neither neighbour is free, which sets the warning flag |
| PageAlloc.PageAllocator.DropLastRef | mm/page_alloc.c:264-272 | The count is 0 and the page free; or the page keeps its count 1 and the warning flag is set, exactly when no node can be had and neither neighbour is free |
| PageAlloc.PageAllocator.PageDecRef | mm/page_alloc.c:294-319 | The same for page_dec_ref of one page with any count, and PANIC exactly on a managed page with count 0 |
| PageAlloc.PageIsLost | mm/page_alloc.c:264-272 | With 2048 pages of RAM all of which are handed out and nothing warned, freeing the first, whose count is 1, leaves the count at 1 and sets the warning flag |
| PageAlloc.PageAllocator.PageIncRef | mm/page_alloc.c:276-292 | One more reference, modulo 2^16, PANIC exactly on a managed page with count 0; the allocator stays valid exactly if the count was not 65535 |
| PageAlloc.PageAllocator.NodeOnExactlyOneList | mm/page_alloc.c:58-84 | Every node ever carved is on exactly one of free_runs and free_meta_nodes |
| PageAlloc.PageAllocator.NodesApart | mm/page_alloc.c:23-42 | Nodes, the count array and the pages handed out are pairwise disjoint in memory |
| PageAlloc.BumpTest | mm/page_alloc.c:210-217 | The overflow test in 32-bit arithmetic sees the size modulo 2^32 bytes; so it is right exactly for fewer than 2^20 pages and for sizes whose remainder does not fit either |
| PageAlloc.BumpTestWraps | mm/page_alloc.c:211-213 | A request for 2^20 pages wraps to no bytes and passes the test |
| Sv32.DecodeEncode | mm/vm.c:40-57 | Decoding an encoded page-table entry gives it back: frame and permission bits are placed without overlap |
| Sv32.TableWriteIsPointUpdate | mm/vm.c:59-86 | One second-level store changes the translation of one page of one root, and of no other root |
| Sv32.LinkKeepsSpaces | mm/vm.c:67-83 | Replacing a 4 MiB leaf by 1024 entries, or linking an empty table, changes no translation of any root |
| Vm.PageTables.FillTable | mm/vm.c:67-80 | The loop that splits a 4 MiB leaf maps each of its 1024 pages as the leaf did |
| Vm.PageTables.MapPage | mm/vm.c:59-86 | A point update of the translation: the page maps the new frame and permissions, every other page of this root and every page of every other root translates as before; -1 only for want of memory for a table, with nothing changed |
| Vm.PageTables.QueryUserPage | mm/vm.c:136-164 | 1 with the frame, offset and permissions of the translation, 0 exactly when the page is not mapped |
| Vm.PageTables.MapUserPage | mm/vm.c:166-180 | The same update with U set; without R, W and X the entry maps nothing |
| Vm.PageTables.UnmapUserPage | mm/vm.c:182-200 | -1 exactly for an address that is not aligned or a page under a 4 MiB leaf, of which there is none in the user slots; else the page leaves the translation of this root and of no other |
| Vm.PageTables.MapRange4k | mm/vm.c:88-97 | The n pages of the range map the n frames of the other, and nothing else changes |
| Vm.PageTables.MapRange4m | mm/vm.c:99-110 | Exactly the first-level entries of the range become leaves for consecutive 4 MiB from the target on |
| Vm.PageTables.VmInit | mm/vm.c:202-218 | -1 exactly when no page can be handed out; else the kernel root translates the pages of the devices and of the RAM to themselves, without U, and maps nothing else; memory outside the managed range stays |
| Vm.PageTables.BuildUserSatp | mm/vm.c:225-273 | A root that translates as the kernel's does, overlaid with the image and the stack; no other root changes; 0 only with fewer than 4096 bytes left between the pages and the metadata, and then all translations and all counts of pages in use are as they were |
| Vm.PageTables.DiscardRoot | mm/vm.c:262-271 | A failed build frees the root and leaves its tables allocated without an owner |
| Vm.KernelWalks | mm/vm.c:202-218 | Page by page, what the kernel root translates |
| Vm.SatpRoot | mm/vm.c:112-121 | The root taken from a satp is the one put in, and a satp is never 0 |
| Vm.OverlayAt | mm/vm.c:88-97 | Page by page, what mapping a range means |
| Vma.AddVma | mm/process_vm.c:11-37 | Succeeds exactly on a non-empty, aligned, free range and a free slot; then exactly those pages get the protection; else nothing changes |
| Vma.FindVmaIndex | mm/process_vm.c:39-48 | The slot of an area that has the address, or none if none has it |
| Vma.RangeOk | mm/process_vm.c:50-74 | Accepts exactly the non-empty ranges that end below 2^32 and whose every byte lies in an area with the needed protection, across area borders |
| Vma.FindFreeMmapRange | mm/process_vm.c:288-310 | Terminates; the lowest address of the window at which the length fits without meeting an area, whatever the slot order; -1 only when there is none |
| Vma.ChooseMmap | mm/process_vm.c:379-393 | The hint when it fits, else the lowest address, else failure exactly when the length fits nowhere |
| Vma.RangeOverlapsAny | mm/process_vm.c:312-323 | Says whether some area meets the range |
| Vma.FindFreeSlot | mm/process_vm.c:325-332 | The first free slot, or none exactly when all are used |
| Vma.CutArea | mm/process_vm.c:417-448 | Delete, trim or split: exactly the pages in the range go, the rest of the area keeps its protection; fails only for a split without a slot, with nothing changed |
| Vma.SplitIsOnlyCut | mm/process_vm.c:395-463 | By disjointness a range inside one area meets no other |
| Vma.MunmapVmas | mm/process_vm.c:412-449 | As a map from page to protection exactly [addr, end) goes; -1 exactly when a split finds no slot, with nothing changed; and exactly when no slot is free afterwards |
| Vma.CeilCovers | mm/process_vm.c:195-198 | Rounding a length up covers it exactly when the length is at most 0xfffff000; above, it wraps to 0 |
| Image.InitAreas | mm/process_vm.c:200-225 | proc_vm_init never fails and gives exactly the pages of the text, read-only and stack segments their protections |
| Image.ImageFacts | mm/vm.c:236-262 | Outside the user slots a process can write nothing, and a new root maps nothing inside them but the stack |
| Cow.SharersBounded | mm/page_alloc.c:276-292 | A frame is mapped by at most PROC_MAX entries, one for each process |
| Cow.Single | mm/process_vm.c:334-356 | An entry with W is the only entry for its frame |
| Cow.InstallKeeps | mm/process_vm.c:493-500 | Mapping a zeroed page on demand changes nothing anybody sees and keeps counts and sharing right |
| Cow.RecopyKeeps | mm/process_vm.c:334-356 | Moving a process to its own writable copy changes nothing anybody sees |
| Cow.ProtectKeeps | mm/process_vm.c:239-242 | Taking W from the parent's entry changes nothing anybody sees, also when the entry then maps nothing |
| Cow.ShareKeeps | mm/process_vm.c:244-251 | Giving the child an entry for the parent's frame makes it see the parent's bytes there, and nobody else sees a change |
| Cow.StoreKeeps | mm/process_vm.c:334-356 | A store through an entry with W changes one word of what one process sees |
| Cow.UnmapKeeps | mm/process_vm.c:82-110 | Unmapping a page makes it zero for its process and leaves all others |
| Cow.RemapLoses | mm/process_vm.c:334-356 | No page is lost when an entry moves to a page at most in use and the page it left is free or mapped elsewhere |
| Kernel.Kernel.constructor | kernel/process/process.c:4-16 | The process table at boot satisfies the invariant |
| Kernel.Kernel.MappedPage | mm/page_alloc.c:276-319 | The count of every mapped user page is the number of leaf entries of all processes that map it, at most PROC_MAX; behind an entry with W it is 1; the page is not free and no table lies in it; and an area of the process gives the permissions of the entry |
| Kernel.Kernel.EntriesAreSharers | mm/vm.c:136-164 | The entries counted are those of the page tables themselves |
| Kernel.Kernel.FreeIsMappedNowhere | mm/page_alloc.c:170-227 | A page in the free list is mapped by no process |
| Kernel.Kernel.OthersAlike | mm/vm.c:225-273 | Outside the user slots all processes translate alike, as kernel and image say, and no two share a root |
| Kernel.Kernel.HandleUserPageFault | mm/process_vm.c:465-501 | Nobody sees a change; 0 means the areas allow the access and the entry now has the permission; -1 only if they do not or at most one page could be had before; no page is lost |
| Kernel.Kernel.TryCowFault | mm/process_vm.c:334-356 | The page becomes the process's own with W, and nobody sees a change; -1 only without W in the area, for a page that is not shared, or if at most one page could be had before |
| Kernel.Kernel.MoveToCopy | mm/process_vm.c:345-355 | Copy, remap and drop of the old reference, after which counts, sharing and all views are right |
| Kernel.Kernel.InstallPage | mm/process_vm.c:493-500 | Demand paging of a zeroed page, with the page given back when it cannot be mapped; it fails only if at most one page could be had before |
| Kernel.Kernel.Mmap | mm/process_vm.c:358-393 | Exactly when it succeeds; then the returned range holds zeros with the asked protection and nothing else changed for anybody; without MAP_FIXED it is the hint if it fits, else the lowest address; MAP_FIXED is an override of the range; when it fails nothing changed, but a failing MAP_FIXED may have emptied its range |
| Kernel.Kernel.MmapFixed | mm/process_vm.c:370-378 | MAP_FIXED succeeds exactly when munmap accepts the range and leaves a slot |
| Kernel.Kernel.MmapFree | mm/process_vm.c:379-393 | Without MAP_FIXED: hint or lowest address, failing exactly when there is no room or no slot |
| Kernel.Kernel.Munmap | mm/process_vm.c:395-463 | Exactly when it succeeds; then the process loses exactly the range, protections and contents, and its pages are freed; -1 changes nothing; nobody else sees a change |
| Kernel.Kernel.UnmapRange | mm/process_vm.c:82-110 | Every page of the range is unmapped and its frame loses one reference; no page is lost |
| Kernel.Kernel.VmRelease | mm/process_vm.c:76-111 | For a process with a root: nothing of it stays mapped in the user slots, every other process sees what it saw, no page is lost |
| Kernel.Kernel.NewProcess | kernel/process/process.c:84-103 | What fork and create_user_process share: a process in an unused slot with a root and memory that is all zero and shared with nobody; or everything is given back, nobody sees a change, and fewer than 8192 bytes are left |
| Kernel.Kernel.FreeStackPages | mm/process_vm.c:98-102 | For a process without a root: its two stack pages are free again, or the allocator has warned, and nobody sees a change |
| Kernel.Kernel.CloneOnePage | mm/process_vm.c:236-253 | The child sees the parent's bytes at the page and nobody else a change; with W alone the frame is afterwards held and mapped by nobody |
| Kernel.Kernel.ProtectPage | mm/process_vm.c:239-242 | Taking W from the parent cannot fail and nobody sees it |
| Kernel.Kernel.SharePage | mm/process_vm.c:244-251 | One more reference and an entry for the child, whose own page is freed; or, when there is no table, neither |
| Kernel.Kernel.ProcVmClone | mm/process_vm.c:227-256 | Afterwards the child sees exactly what the parent sees, including the pages clone skips; nobody else sees a change, even when it fails half-way; no page is lost if no area has W alone |
| ProcTable.AllocProcessSlot | kernel/process/process.c:18-25 | An unused slot, or none exactly when there is none |
| ProcTable.FindByPid | kernel/process/process.c:50-57 | A used slot with this pid, or none exactly when there is none |
| Kernel.Kernel.Fork | kernel/process/process.c:113-160 | The child is an exact copy of what the parent sees, in an unused slot, with the parent's record, stack frame address included, but for state, pid, parent, exit status and root; it fails only without a trap frame, for a kernel process, for a stack pointer outside the stack, without a slot, or with fewer than 8192 bytes left afterwards between the pages and the metadata, and then the table is restored and nobody sees a change |
| Kernel.Kernel.CreateUserProcess | kernel/process/process.c:84-111 | A new process sees a zeroed stack and nothing else writable; it fails only without a slot or with fewer than 8192 bytes left afterwards, and then the table and all memories are as they were |
| Kernel.Kernel.VmReset | mm/process_vm.c:258-274 | Every area of the mmap window goes with its pages; what is left of the memory is what was there |
| Kernel.Kernel.Exec | kernel/process/process.c:162-180 | The process keeps its stack, contents and all, and its image, and nothing else; -1 changes nothing; nobody else sees a change |
| Kernel.Kernel.Exit | kernel/process/process.c:182-198 | The process is a zombie with its status; exactly the first process with the parent's pid, if it sleeps, may run again; nobody's memory changes until the zombie is reaped |
| Kernel.Kernel.Reap | kernel/process/process.c:241-243 | A zombie's slot is free, its memory gone, its pages free, all other processes see what they saw |
| ProcTable.ScanChildren | kernel/process/process.c:225-238 | Whether a child matches, and the first matching zombie |
| Kernel.Kernel.WaitPass | kernel/process/process.c:222-245 | Reaps exactly the first matching zombie and gives its pid and status; without one changes nothing |
| Kernel.Kernel.ReapOrphans | kernel/process/process.c:200-211 | Exactly the user zombies without a parent go, and only their memories |
| Kernel.Kernel.UserAccess | arch/riscv32/trap/trap.c:182-186 | An access ends permitted, or refused because the areas forbid it or at most one page could be had before, or goes on faulting, which happens only for areas with W and without R |
| Kernel.Kernel.UserStore | mm/process_vm.c:465-501 | A store changes the one word the storing process sees and nothing else anybody sees; it never gets through to a page without R |
| Kernel.Kernel.UserLoad | mm/process_vm.c:465-501 | A load gives the word the process sees there in the user slots, and elsewhere that of the program, which outside the managed range is as it was when the kernel started; it is refused only when the areas forbid it or at most one page could be had before |
| VirtioBlk.Run | drivers/virtio/virtio_blk.c:193-270 | Over every interleaving of readers, interrupts and a device that completes in any order, a blk_read that returns 0 has its own sector in its buffer |
| VirtioBlk.ExactlyOneToken | drivers/virtio/virtio_blk.c:109-125 | A published request is in exactly one of the available ring, the device and the used ring, and in none exactly when its slot is done, so no completion reaches another slot or a later request |
| VirtioBlk.RingPosWraps | drivers/virtio/virtio_blk.c:246-248 | A 16-bit index and the unbounded counter name the same ring entry |
| VirtioBlk.RingPush | drivers/virtio/virtio_blk.c:246-248 | A new entry never overwrites one that is still to be read |
| VirtioBlk.AcquireKeeps | drivers/virtio/virtio_blk.c:198-218 | Taking a free slot keeps the invariant of driver, rings, device and readers |
| VirtioBlk.FillKeeps | drivers/virtio/virtio_blk.c:220-244 | Writing the three descriptors of the own slot keeps it |
| VirtioBlk.PublishKeeps | drivers/virtio/virtio_blk.c:246-251 | Publishing keeps it |
| VirtioBlk.ConsumeKeeps | drivers/virtio/virtio_blk.c:193-270 | The device taking a request keeps it, and what it takes is one reader's whole request |
| VirtioBlk.CompleteKeeps | drivers/virtio/virtio_blk.c:193-270 | The device completing any request it holds keeps it |
| VirtioBlk.HarvestKeeps | drivers/virtio/virtio_blk.c:109-125 | Harvesting the oldest completion keeps it |
| VirtioBlk.ReleaseKeeps | drivers/virtio/virtio_blk.c:253-268 | A reader that finds its slot done with status 0 has its sector, and releasing keeps the invariant |
| VirtioBlk.Blk.ProcessUsed | drivers/virtio/virtio_blk.c:109-125 | Exactly the slots of all completions become done, and used_idx catches up |
| VirtioBlk.Blk.TryAcquire | drivers/virtio/virtio_blk.c:198-218 | A slot is taken exactly when one is free |
| VirtioBlk.Blk.FillRequest | drivers/virtio/virtio_blk.c:220-244 | The reader's request is written, and the invariant kept |
| VirtioBlk.Blk.PublishRequest | drivers/virtio/virtio_blk.c:246-251 | The request is the newest in the available ring |
| VirtioBlk.Blk.Poll | drivers/virtio/virtio_blk.c:253-268 | Finished exactly when the request is completed; 0 exactly for status 0, and then the buffer holds the sector; the slot is free again |
| VirtioBlk.Blk.HandleIrq | drivers/virtio/virtio_blk.c:272-284 | A raised interrupt harvests all completions, another changes nothing |
| VirtioBlk.Blk.DeviceTake | drivers/virtio/virtio_blk.c:193-270 | The device takes the oldest available request |
| VirtioBlk.Blk.DeviceAnswer | drivers/virtio/virtio_blk.c:193-270 | The device completes any request it holds: with status 0 and the sector in the buffer of the request, or with an error and any bytes; no other buffer or slot changes |
| Sched.PickNext | kernel/process/sched.c:14-31 | The eligible process with the largest budget, the first such after the start; none exactly when none is eligible |
| Sched.BestIsUnique | kernel/process/sched.c:14-31 | There is one such process |
| Sched.RefillBudgets | kernel/process/sched.c:33-43 | Every schedulable process gets its priority as budget, the others keep theirs |
| Sched.Scheduler.Yield | kernel/process/sched.c:45-69 | One yield: refill when nobody is eligible, charge the chosen, idle when nobody can run |
| Sched.BoundedWaiting | kernel/process/sched.c:14-69 | From any state with non-negative budgets a runnable process is chosen within the sum of budgets plus the sum of priorities plus one yields |
| Sched.ProportionalShare | kernel/process/sched.c:33-69 | Between two consecutive refills every runnable process is charged exactly its priority |
| Sched.YieldTimes | kernel/process/sched.c:45-69 | n calls of yield are a run in the sense of the two results above |
| WaitExit.Run | kernel/process/process.c:113-255 | Over every cooperative schedule: a process asleep in waitpid has a matching child and no matching zombie, no zombie runs, every reported status belongs to a death and no death is reported twice |
| WaitExit.DiesKeeps | kernel/process/process.c:182-198 | An exit that wakes a sleeping parent loses no wakeup |
| WaitExit.ReapedKeeps | kernel/process/process.c:239-243 | Reaping uses up a death that was not reported before |
| WaitExit.Processes.Start | kernel/process/process.c:113-160 | A new child in an unused slot; -1 exactly when there is none or no memory, which is a parameter here, and then nothing changes |
| WaitExit.Processes.Exit | kernel/process/process.c:182-198 | The process is a zombie; exactly a sleeping process with the parent's pid becomes runnable |
| WaitExit.Processes.WaitPass | kernel/process/process.c:218-255 | A reaped child was a matching zombie and its status not handed out before; no child exactly when none matches; sleep only with children and no zombie among them |
| WaitExit.Processes.ReapOrphans | kernel/process/process.c:200-211 | Exactly the user zombies without a parent go |
| Wm.WindowManager.Run | kernel/gui/wm.c:295-468 | After any sequence of create, move, resize, set-image, taking an image away, close, focus changes, focusing again, clicks, cursor moves and repaints, a render that paints the dirty rectangle only leaves the full picture, but for pixels that focusing again or taking an image away has changed without marking them and nothing has painted since; without those two, everywhere |
| Wm.WindowManager.MarkRect | kernel/gui/wm.c:83-110 | The dirty rectangle is the smallest that holds what was dirty and the part of the new one on the screen |
| Wm.FindTopAt | kernel/gui/wm.c:234-248 | The topmost window at the pixel, or none exactly when none covers it |
| Wm.PainterAgreesWithTop | kernel/gui/wm.c:409-434 | For every pixel not under the cursor the last window painted in z order is the one wm_top_at finds, or the desktop when it finds none |
| Wm.SortByZ | kernel/gui/wm.c:409-416 | The selection sort lists every window to paint once, in increasing z |
| Wm.Screen.FillRect | kernel/gui/wm.c:384-395 | Exactly the pixels of the rectangle inside clip and screen get the color |
| Wm.Screen.Blit | kernel/gui/wm.c:422-433 | Exactly the image pixels inside window, clip and screen are drawn |
| Wm.Screen.Paint | kernel/gui/wm.c:397-441 | Inside the clip the buffer shows the full picture, outside it is unchanged |
| Wm.OneWindowChanges | kernel/gui/wm.c:317-355 | A change of one window changes only pixels it covered or covers |
| Wm.WindowManager.Create | kernel/gui/wm.c:295-315 | A new topmost window in a free slot, on the screen if it can fit; -1 exactly when all slots are used |
| Wm.WindowManager.Move | kernel/gui/wm.c:317-325 | The window moves, and outside the dirty rectangle the screen stays right |
| Wm.WindowManager.Resize | kernel/gui/wm.c:327-335 | The same for its size |
| Wm.WindowManager.SetImage | kernel/gui/wm.c:366-382 | The same for its image; taking the image away marks nothing, and exactly the pixels outside the dirty rectangle where it was seen become wrong |
| Wm.FreeImageChanges | kernel/gui/wm.c:366-372 | Which pixels change when an image is taken away |
| Wm.FreeImageMayShow | kernel/gui/wm.c:366-372 | A window whose pixel is wrong after its image is taken away |
| Wm.WindowManager.Close | kernel/gui/wm.c:345-355 | The window goes, the focus with it, and the screen stays right |
| Wm.WindowManager.Focus | kernel/gui/wm.c:337-343 | The window is raised and has the focus, and the screen stays right; if it had the focus already nothing is marked, and exactly the pixels outside the dirty rectangle where it was hidden by a window that looks different become wrong |
| Wm.RaiseChanges | kernel/gui/wm.c:337-343 | Which pixels change when a window is raised |
| Wm.FocusAgainMayShow | kernel/gui/wm.c:219-232 | Two windows for which focusing the focused one again leaves a wrong pixel |
| Wm.WindowManager.Click | kernel/gui/wm.c:449-468 | The topmost window under the cursor gets the focus, and all is repainted, stale pixels too |
| Wm.WindowManager.RepackZ | kernel/gui/wm.c:250-266 | The used windows are renumbered 1 to n in their order, and nothing else changes |
| Wm.WindowManager.Render | kernel/gui/wm.c:443-447 | Afterwards nothing is dirty, and the back buffer shows the full picture but for stale pixels that were not dirty |
| EventRing.Ring.QueueEvent | kernel/gui/wm.c:182-217 | A bounded FIFO of 255 events: merge into a like newest event, append, or, when full, replace the oldest by one overflow mark the first time and drop after that |
| EventRing.Ring.PollEvent | kernel/gui/wm.c:471-478 | The oldest event, or nothing exactly when there is none |
| EventRing.Run | kernel/gui/wm.c:182-217 | Over every sequence of queueing and polling, with the shared clock advanced by other windows in between: timestamps strictly increase over all events delivered and then those pending; at most one overflow mark among them all, and one exactly if the ring ever overflowed; at most 255 pending; and without an overflow the 32-bit sum of wheel turns queued is that of the turns delivered and pending |
| EventRing.MergeKeeps | kernel/gui/wm.c:185-198 | Merging in place keeps timestamps strictly increasing and the wheel sum |
| EventRing.OverflowMarked | kernel/gui/wm.c:200-210 | So does replacing the oldest event by the mark |
| Ext4.Volume.FindPhysical | fs/ext4.c:222-282 | The block the extents give, by index at depth 1, and an error exactly where the code has one |
| Ext4.LookupIsSearch | fs/ext4.c:222-282 | In a well-formed tree of depth 0 or 1 that is a search of the flattened list of extents |
| Ext4.ChooseIndex | fs/ext4.c:243-255 | The last index entry whose key is not above the block |
| Ext4.SearchNode | fs/ext4.c:262-280 | The extent that has the block, or none if none has it |
| Ext4.Volume.ReadData | fs/ext4.c:284-315 | The longest prefix of the range, cut at the end of the file, that is mapped and readable, byte by byte |
| Ext4.RemainingInFile | fs/ext4.c:286-292 | A read stays inside the file exactly when offset plus length is below 2^32 |
| Ext4.RemainingMayPassTheEnd | fs/ext4.c:286-292 | A read that passes the end of a file of ten bytes |
| Ext4.ReadIsUnique | fs/ext4.c:284-315 | The specification of a read has one answer |
| Ext4.ReadsJoin | fs/ext4.c:284-315 | A whole piece and the read behind it are one read of both |
| Ext4.ReadInPieces | fs/ext4.c:284-315 | A fully mapped range read in any consecutive pieces gives what one read gives |
| Ramfs.NormalizeName | fs/fs.c:47-69 | The name of a path of slashes and 1 to 31 characters without a slash; none exactly for all other paths |
| Ramfs.FileSystem.Open | fs/fs.c:182-204 | Exactly which opens succeed: with a free descriptor and a file that exists or may be created; the descriptor names that file at offset 0 or, for O_APPEND, its size; and the store: also when only a descriptor is missing the file has been created or, for O_TRUNC, emptied, so the store is as it was exactly if the file existed and was empty or not to be truncated |
| Ramfs.FileSystem.EnsureFile | fs/fs.c:143-158 | The file of that name, or a new empty one exactly for O_CREAT with a free slot; no other name changes |
| Ramfs.FailedOpenEmpties | fs/fs.c:182-204 | A file of three bytes before, and after an open that fails for want of a descriptor the same file, empty, and no other change |
| Ramfs.FileSystem.Close | fs/fs.c:206-213 | Exactly that descriptor closes, -1 exactly when it is not open |
| Ramfs.FileSystem.Read | fs/fs.c:215-242 | The bytes from the offset on, as many as there are and are asked for, and the offset moves by as many |
| Ramfs.FileSystem.Write | fs/fs.c:244-272 | As many bytes as fit into 1024 at the offset, or at the end for O_APPEND; the others stay; no other name changes |
| Ramfs.FileSystem.Unlink | fs/fs.c:274-293 | The name goes, no other, and every descriptor of every process on it is closed |
| Ramfs.FileSystem.Rename | fs/fs.c:295-312 | The bytes move to a new name, exactly when the old one exists and the new one does not |
| Ramfs.SlotChanged | fs/fs.c:143-158 | Changing one slot is changing one name of the store, and names stay unique |
| Ramfs.RoundTrip | fs/fs.c:182-272 | Writing through a fresh O_CREAT and O_TRUNC descriptor in any chunks and reading through a fresh one in any pieces gives the concatenation cut at 1024 bytes |
| Ramfs.Run | fs/fs.c:143-312 | Over every sequence of calls of all processes, with fork copying descriptors: names are different and fit, sizes and offsets do not pass 1024, and every open descriptor is on a file in use, also after somebody unlinked its file |
| Ramfs.WriteChunks | fs/fs.c:244-272 | Writing chunks one behind the other stores their concatenation, cut |
| Ramfs.ReadPieces | fs/fs.c:215-242 | Reading pieces one behind the other gives the file, cut |

## Left out

- Memory barriers, the TLB and sfence.vma, locks and interrupts inside a system call: a locked region, a walk of the page tables and a store are one step.
- The context switch, trap frames and registers: a switch assigns the current process, and which runnable process is chosen is left open in Kernel, Eager and WaitExit; Sched says which one it is.
- Lazy initialisation of the allocator: done by the constructor. The count array is a sequence, with its address range in the layout of the metadata; its bytes do not appear in physical memory, and neither do those of the list nodes.
- Recovery of page tables: a dead process's root and tables, and the tables of a build that failed, stay allocated, as in the code.
- Misaligned 4 MiB leaves and A and D bits: the kernel never makes the first and always sets the second.
- Stores of less than a word and instruction fetches. A program inside the managed range, where the linker puts none, may read as anything.
- Image.InitAreas: `.user.data` and `.user.bss` are empty, as nothing in the repository is placed there; with contents they would be shared by all processes, and a second fork would give their pages to the allocator.
- Kernel.Kernel.VmRelease: a process without a root is handled where it arises, in Kernel.Kernel.NewSpace.
- Kernel.Kernel.Fork: a failure for want of memory implies that little is left afterwards between the pages and the metadata; how many free pages the child would have needed is not stated.
- Kernel.Kernel.CreateUserProcess: the same.
- Eager.BootAndRun: mmap, munmap, exit, wait and yield may be refused for reasons of the area table and of the states of other processes, which the machine does not have; Kernel states them exactly at each call.
- PageAlloc.PageAllocator.AllocPagesTry: sizes for which the overflow test is wrong (PageAlloc.BumpTest gives them exactly), where the code goes on to write outside its count array.
- Kernel.Kernel.Exec: whether the arguments can be read is a parameter; copying them to the new stack is left out.
- Kernel.Kernel.Exit: closing descriptors is left out; WaitExit and Kernel model its two sides, who runs and who owns memory.
- A zombie whose parent has died keeps its slot until a new process with the old pid waits for it, as in the code; that such a slot is ever freed is not stated.
- waitq: enqueueing and blocking are not one step in the code, so only safety is stated for readers of the disk; a wakeup may come at any time.
- VirtioBlk.Run: buffers of concurrent readers are different, and the device reads a chain of descriptors in one step and answers with the sector or with an error; discovery, negotiation of features and the MMIO registers are left out.
- Wm.WindowManager.Create: w and h one pixel larger than the usable screen divide by zero in the code and are not modelled; titles, texts and overflow of coordinates beyond 32 bits are left out.
- Wm.WindowManager.SetImage: the buffer behind the image and its allocation are left out; an image is its rows of pixels.
- Wm.WindowManager.Move: coordinates are unbounded integers.
- EventRing.Ring.QueueEvent: timestamps are unbounded; the calls made by a change of focus are not modelled in Wm.
- Ext4.Volume.FindPhysical: nodes whose header claims more entries than fit into their block, where the code reads past the block.
- Ext4.Volume.ReadData: the same nodes; a destination that overlaps the static block buffer is not modelled; mounting, group descriptors, read_inode and the scan of the root directory are left out; holes end a read, as in the code.
- Ramfs.FileSystem.Open: without a mounted ext4 volume; reading through ext4 descriptors and fs_listdir are left out. Bytes in a gap left by another descriptor's truncation are whatever was there.
- The greeting file of fs_init, the shell, the applications, the GPU and input drivers, string functions and the dispatch of system calls.
