/** The memory entry points of the kernel: mm/process_vm.c and the memory side of
    kernel/process/process.c. */
module Kernel {
  import opened Common
  import opened FreeRuns
  import opened Phys
  import opened PageAlloc
  import opened Sv32
  import opened Vm
  import opened Vma
  import opened Cow
  import opened Image
  import opened ProcTable

  class Kernel {
    const vm: PageTables
    const image: seq<Segment>
    ghost const kmap: KernelMap
    ghost const rom: Memory           // the memory when the kernel started
    var procs: seq<Process>
    var current: nat
    ghost var spaces: seq<Leaves>     // the user slots of each process's translation

    ghost predicate Linked()
      reads this`procs, this`spaces, vm`roots, vm`kernelRoot, vm.ram
    {
      vm.kernelRoot == kmap.root && kmap.image == ImageSpace(kmap.space, image) && RootsApart(procs)
      && AllSpacesOk(procs, spaces, vm.ram.frames, vm.roots, kmap)
    }

    /** Outside the managed range, where the program lies, memory has not changed. */
    ghost predicate RomOk()
      reads vm.ram
    {
      SameOutside(rom, vm.ram.frames, vm.alloc.freeFrame, vm.alloc.managed)
    }

    /** The program as it was then. */
    ghost function Program(): map<nat, Frame> { Outside(rom, vm.alloc.freeFrame, vm.alloc.managed) }

    lemma RomStays(m: Memory)
      requires SameOutside(rom, m, vm.alloc.freeFrame, vm.alloc.managed)
      requires SameOutside(m, vm.ram.frames, vm.alloc.freeFrame, vm.alloc.managed)
      ensures RomOk()
    {}

    ghost predicate HeapOk()
      reads this`procs, this`spaces, vm, vm.ram, vm.alloc, vm.alloc.runs, vm.alloc.metas
    {
      vm.Valid() && vm.Booted() && Linked() && RomOk()
    }

    /** Every slot unused but the first, which runs the idle process. */
    constructor (vm: PageTables, image: seq<Segment>)
      requires vm.Valid() && vm.Booted() && ImageOk(image)
      ensures Valid() && this.vm == vm && this.image == image && rom == vm.ram.frames
      ensures procs == seq(PROC_MAX, _ => UNUSED)[0 := IDLE] && current == 0
    {
      this.vm := vm;
      this.image := image;
      kmap := KernelMap(vm.kernelRoot, vm.SpaceOf(vm.kernelRoot), ImageSpace(vm.SpaceOf(vm.kernelRoot), image));
      rom := vm.ram.frames;
      procs := seq(PROC_MAX, _ => UNUSED)[0 := IDLE];
      current := 0;
      spaces := seq(PROC_MAX, _ => map[]);
      new;
      hide PageTables.Valid, PageTables.Booted, ImageOk, ImageSpace;
      StartsValid();
    }

    lemma StartsValid()
      requires vm.Valid() && vm.Booted() && ImageOk(image) && rom == vm.ram.frames
      requires kmap == KernelMap(vm.kernelRoot, vm.SpaceOf(vm.kernelRoot), ImageSpace(vm.SpaceOf(vm.kernelRoot), image))
      requires procs == seq(PROC_MAX, _ => UNUSED)[0 := IDLE] && current == 0 && spaces == seq(PROC_MAX, _ => map[])
      ensures Valid()
    {
      hide PageAllocator.Valid, Trees, TablesHeld, Space, KernelRootOk, ImageSpace, ImageOk, Sharers, AreasOk;
      EmptyTable();
      NobodyMaps(Snapshot());
    }

    /** The state of the processes' memory, with these areas. */
    ghost function WorldWith(areas: seq<seq<UserVma>>): World
      reads this`spaces, vm`roots, vm`own, vm`abandoned, vm.alloc`refs, vm.ram
    {
      World(vm.ram.frames, vm.alloc.refs, vm.alloc.freeFrame, vm.Tables(), spaces, areas)
    }

    /** Pages in use that no process maps, other than page tables and the tables of an
        address space that could not be completed. */
    ghost function Lost(): set<nat>
      reads this`spaces, vm`roots, vm`own, vm`abandoned, vm.alloc`refs
    {
      LostFrames(vm.Stray(), spaces)
    }

    lemma RootFacts(i: nat)
      requires HeapOk() && i < PROC_MAX && procs[i].Live()
      ensures vm.alloc.Valid() && vm.alloc.ram == vm.ram && vm.TreesOk() && vm.HeldOk()
      ensures procs[i].Root() in vm.roots && procs[i].Root() < FRAMES && procs[i].Root() != vm.kernelRoot
      ensures spaces[i] == Users(vm.SpaceOf(procs[i].Root())) && Others(vm.SpaceOf(procs[i].Root())) == kmap.image
    {
      assert SpaceOk(procs[i], spaces[i], vm.ram.frames, vm.roots, kmap);
    }

    /** vm_map_user_page for page p of process i. */
    method MapIn(i: nat, p: nat, f: nat, prot: Prot) returns (rc: int)
      requires HeapOk() && i < PROC_MAX && procs[i].Live() && Region(p) && f < FRAMES
      modifies vm`own, vm.alloc`freeRuns, vm.alloc`freeMetaNodes, vm.alloc`runs, vm.alloc`metas, vm.alloc`contents
      modifies vm.alloc`nextPaddr, vm.alloc`used, vm.alloc`refs, vm.alloc.repr, vm.ram, this`spaces
      ensures HeapOk() && (rc == 0 || rc == -1)
      ensures rc == -1 ==> vm.ram.frames == old(vm.ram.frames) && vm.alloc.refs == old(vm.alloc.refs)
                           && vm.own == old(vm.own) && spaces == old(spaces) && p !in spaces[i] && vm.alloc.NoPageLeft()
      ensures rc == 0 ==> spaces == old(spaces)[i := Mapped(old(spaces)[i], p, UserLeaf(f, prot))]
      ensures Kept(old(vm.ram.frames), vm.ram.frames, old(vm.alloc.refs), vm.alloc.refs, vm.alloc.freeFrame,
                   old(vm.Tables()), vm.Tables())
      ensures vm.Stray() <= old(vm.Stray())
      ensures Falls(old(vm.alloc.Level()), vm.alloc.Level())
    {
      hide PageAllocator.Valid, Trees, TablesHeld, Space, Kept, KernelRootOk, HasTable, ImageSpace, OtherRootsKept,
        StrayFrames, PageAllocator.Level, PageTables.Tables, PageTables.Stray;
      PageAddress(p);
      PageAddress(f);
      RootFacts(i);
      TablesManaged();
      ghost var m, r, tables := vm.ram.frames, vm.alloc.refs, vm.Tables();
      ghost var root := procs[i].Root();
      rc := vm.MapUserPage(procs[i].satp, Bytes(p), Bytes(f), prot);
      KeptOutside(m, vm.ram.frames, r, vm.alloc.refs, vm.alloc.freeFrame, tables, vm.Tables());
      RomStays(m);
      UsersMapped(Space(m, root), p, UserLeaf(f, prot));
      RootsStay(m, vm.ram.frames, vm.roots, root, vm.kernelRoot);
      if rc == 0 {
        spaces := spaces[i := Mapped(spaces[i], p, UserLeaf(f, prot))];
        LinkedAfter(m, vm.ram.frames, procs, old(spaces), vm.roots, kmap, i, spaces[i]);
      } else {
        MappedNeverFails(m, vm.roots, vm.own, p, root);
      }
    }

    /** What the memory of the processes depends on, as a value. */
    ghost function Snapshot(): World
      reads this`procs, this`spaces, vm`roots, vm`own, vm`abandoned, vm.alloc`refs, vm.ram
    {
      WorldWith(AreasOf(procs))
    }

    ghost predicate Valid()
      reads this`procs, this`current, this`spaces, vm, vm.ram, vm.alloc, vm.alloc.runs, vm.alloc.metas
    {
      HeapOk() && Inv(Snapshot()) && ProcsOk(procs, kmap.image) && ImageOk(image)
      && current < PROC_MAX && procs[current].state !in {Unused, Zombie}
    }

    lemma TablesManaged()
      requires HeapOk()
      ensures |vm.alloc.refs| == vm.alloc.managed
      ensures forall t | t in vm.Tables() :: vm.alloc.freeFrame <= t < vm.alloc.freeFrame + vm.alloc.managed
    {
      hide Trees, Space, KernelRootOk, ImageSpace, PageAllocator.Valid, Linked;
      vm.AllocSizes();
      HeldTables(vm.alloc.refs, vm.alloc.freeFrame, vm.roots, vm.own);
    }

    /** alloc_pages_try(1) */
    method NewPage() returns (pa: nat)
      requires HeapOk()
      modifies vm.alloc`freeRuns, vm.alloc`freeMetaNodes, vm.alloc`runs, vm.alloc`metas, vm.alloc`contents
      modifies vm.alloc`nextPaddr, vm.alloc`used, vm.alloc`refs, vm.alloc.repr, vm.ram
      ensures HeapOk()
      ensures pa == 0 ==> vm.alloc.refs == old(vm.alloc.refs) && vm.ram.frames == old(vm.ram.frames)
                          && vm.alloc.NoPageLeft()
      ensures pa != 0 ==> pa == Bytes(pa / 4096) && pa / 4096 < FRAMES && pa / 4096 !in vm.Tables()
      ensures pa != 0 ==> NewFrame(old(vm.alloc.refs), vm.alloc.refs, vm.alloc.freeFrame, pa / 4096)
      ensures pa != 0 ==> vm.ram.frames == old(vm.ram.frames)[pa / 4096 := ZeroFrame()]
      ensures if pa == 0 then vm.Stray() == old(vm.Stray()) else vm.Stray() <= old(vm.Stray()) + {pa / 4096}
      ensures Falls(old(vm.alloc.Level()), vm.alloc.Level())
    {
      hide PageAllocator.Valid, Trees, TablesHeld, Space, KernelRootOk, ImageSpace, NewFrame, StrayFrames;
      BootFacts();
      vm.AllocSizes();
      ghost var m, r := vm.ram.frames, vm.alloc.refs;
      pa := vm.AllocFrame();
      if pa != 0 {
        LinkedSame(m, vm.ram.frames, procs, spaces, vm.roots, kmap);
        NewOutside(m, vm.ram.frames, r, vm.alloc.refs, vm.alloc.freeFrame, pa / 4096);
        RomStays(m);
      }
    }

    lemma BootFacts()
      requires HeapOk()
      ensures vm.alloc.Valid() && vm.alloc.ram == vm.ram && vm.TreesOk() && vm.HeldOk()
      ensures vm.kernelRoot in vm.roots && vm.kernelRoot < FRAMES && KernelRootOk(vm.ram.frames[vm.kernelRoot])
      ensures forall r | r in vm.roots :: r < FRAMES && r !in vm.own
    {}

    /** free_pages of one page, or page_dec_ref, on a frame that is no table. */
    method FreeFrame(f: nat)
      requires HeapOk() && f < FRAMES && f !in vm.Tables() && Held(vm.alloc.refs, vm.alloc.freeFrame, f)
      modifies vm.alloc, vm.alloc.repr
      ensures HeapOk() && fresh(vm.alloc.repr - old(vm.alloc.repr))
      ensures OneDropped(old(vm.alloc.refs), vm.alloc.refs, vm.alloc.freeFrame, f)
      ensures vm.alloc.nextPaddr == old(vm.alloc.nextPaddr) && vm.alloc.metaTop <= old(vm.alloc.metaTop)
      ensures Falls(old(vm.alloc.Level()), vm.alloc.Level())
      ensures vm.Stray() <= old(vm.Stray())
      ensures vm.alloc.leakWarned || old(vm.alloc.refs)[f - vm.alloc.freeFrame] > 1 || f !in vm.Stray()
    {
      hide Trees, Space, KernelRootOk, ImageSpace, PageAllocator.Valid, TablesHeld, Dropped, Linked, StrayFrames;
      BootFacts();
      ManagedFrame(f);
      ghost var r := vm.alloc.refs;
      var panicked, moments := vm.alloc.FreePages(Bytes(f), 1);
      DroppedOne(r, vm.alloc.refs, f - vm.alloc.freeFrame, vm.alloc.OutOfNodes() && vm.alloc.leakWarned);
      DroppedFrame(r, vm.alloc.refs, vm.alloc.freeFrame, f, vm.alloc.OutOfNodes() && vm.alloc.leakWarned);
      HeldAfterDrop(r, vm.alloc.refs, vm.alloc.freeFrame, vm.roots, vm.own, f);
      StrayAfterDrop(r, vm.alloc.refs, vm.alloc.freeFrame, vm.Tables() + vm.abandoned, f, vm.alloc.leakWarned);
    }

    /** page_dec_ref on such a frame. */
    method DecFrame(f: nat)
      requires HeapOk() && f < FRAMES && f !in vm.Tables() && Held(vm.alloc.refs, vm.alloc.freeFrame, f)
      modifies vm.alloc, vm.alloc.repr
      ensures HeapOk() && fresh(vm.alloc.repr - old(vm.alloc.repr))
      ensures OneDropped(old(vm.alloc.refs), vm.alloc.refs, vm.alloc.freeFrame, f)
      ensures vm.alloc.nextPaddr == old(vm.alloc.nextPaddr) && vm.alloc.metaTop <= old(vm.alloc.metaTop)
      ensures Falls(old(vm.alloc.Level()), vm.alloc.Level())
      ensures vm.Stray() <= old(vm.Stray())
      ensures vm.alloc.leakWarned || old(vm.alloc.refs)[f - vm.alloc.freeFrame] > 1 || f !in vm.Stray()
    {
      hide Trees, Space, KernelRootOk, ImageSpace, PageAllocator.Valid, TablesHeld, Linked, StrayFrames;
      BootFacts();
      ManagedFrame(f);
      ghost var r := vm.alloc.refs;
      var panicked := vm.alloc.PageDecRef(Bytes(f));
      HeldAfterDrop(r, vm.alloc.refs, vm.alloc.freeFrame, vm.roots, vm.own, f);
      StrayAfterDrop(r, vm.alloc.refs, vm.alloc.freeFrame, vm.Tables() + vm.abandoned, f, vm.alloc.leakWarned);
    }

    /** page_inc_ref on such a frame. */
    method IncFrame(f: nat)
      requires HeapOk() && f < FRAMES && f !in vm.Tables() && Held(vm.alloc.refs, vm.alloc.freeFrame, f)
      requires vm.alloc.refs[f - vm.alloc.freeFrame] < 0xffff
      modifies vm.alloc`refs
      ensures HeapOk()
      ensures var i := f - vm.alloc.freeFrame; vm.alloc.refs == old(vm.alloc.refs)[i := old(vm.alloc.refs)[i] + 1]
      ensures vm.Stray() == old(vm.Stray())
    {
      hide Trees, Space, KernelRootOk, ImageSpace, PageAllocator.Valid, TablesHeld, Linked, StrayFrames;
      BootFacts();
      ManagedFrame(f);
      ghost var r := vm.alloc.refs;
      var panicked := vm.alloc.PageIncRef(Bytes(f));
      StrayAfterInc(r, vm.alloc.freeFrame, vm.Tables() + vm.abandoned, f);
      HeldAfterInc(r, vm.alloc.freeFrame, vm.roots, vm.own, f);
    }

    /** vm_unmap_user_page for page p of process i. */
    method UnmapIn(i: nat, p: nat)
      requires HeapOk() && i < PROC_MAX && procs[i].Live() && Region(p)
      modifies vm.ram, this`spaces
      ensures HeapOk()
      ensures spaces == old(spaces)[i := Mapped(old(spaces)[i], p, None)]
      ensures forall f | 0 <= f < FRAMES && f !in vm.Tables() :: vm.ram.frames[f] == old(vm.ram.frames)[f]
    {
      hide Trees, Space, KernelRootOk, ImageSpace, PageAllocator.Valid, TablesHeld;
      PageAddress(p);
      RootFacts(i);
      BootFacts();
      ghost var m := vm.ram.frames;
      ghost var root := procs[i].Root();
      TablesManaged();
      var rc := vm.UnmapUserPage(procs[i].satp, Bytes(p));
      forall f | 0 <= f < FRAMES && f !in vm.Tables() ensures vm.ram.frames[f] == m[f] { assert f !in vm.own; }
      RomStays(m);
      UsersMapped(Space(m, root), p, None);
      spaces := spaces[i := Mapped(spaces[i], p, None)];
      LinkedAfter(m, vm.ram.frames, procs, old(spaces), vm.roots, kmap, i, spaces[i]);
    }

    /** vm_query_user_page for page p of process i. */
    method QueryIn(i: nat, p: nat) returns (found: bool, f: nat, perm: Perm)
      requires HeapOk() && i < PROC_MAX && procs[i].Live() && p < PAGES
      ensures found <==> p in PageMap(i, p)
      ensures found ==> PageMap(i, p)[p] == Leaf(f, perm)
    {
      hide Trees, Space, KernelRootOk, ImageSpace, PageAllocator.Valid, TablesHeld, SpaceOk;
      PageAddress(p);
      RootFacts(i);
      var rc, pa;
      rc, pa, perm := vm.QueryUserPage(procs[i].satp, Bytes(p));
      return rc > 0, pa / 4096, perm;
    }

    /** The part of the translation of process i that page p belongs to. */
    ghost function PageMap(i: nat, p: nat): Leaves
      reads this`spaces
      requires i < |spaces|
    {
      if Region(p) then spaces[i] else kmap.image
    }

    // -------------------------------------------------------------------
    // Page faults.

    /** memcpy of a whole page into a frame no table uses. */
    method CopyPage(to: nat, from: nat)
      requires HeapOk() && to < FRAMES && from < FRAMES && to !in vm.Tables()
      requires vm.alloc.freeFrame <= to < vm.alloc.freeFrame + vm.alloc.managed
      modifies vm.ram
      ensures HeapOk() && vm.ram.frames == old(vm.ram.frames)[to := old(vm.ram.frames)[from]]
    {
      hide Trees, Space, KernelRootOk, ImageSpace, PageAllocator.Valid, TablesHeld;
      BootFacts();
      DataWrite(vm.ram.frames, vm.ram.frames[to := vm.ram.frames[from]], procs, spaces, vm.roots, vm.own, kmap);
      vm.ram.frames := vm.ram.frames[to := vm.ram.frames[from]];
    }

    /** A new page with the bytes of a page in use. */
    method NewCopy(from: nat) returns (pa: nat)
      requires HeapOk() && from < FRAMES && Held(vm.alloc.refs, vm.alloc.freeFrame, from)
      modifies vm.alloc`freeRuns, vm.alloc`freeMetaNodes, vm.alloc`runs, vm.alloc`metas, vm.alloc`contents
      modifies vm.alloc`nextPaddr, vm.alloc`used, vm.alloc`refs, vm.alloc.repr, vm.ram
      ensures HeapOk()
      ensures pa == 0 ==> vm.alloc.refs == old(vm.alloc.refs) && vm.ram.frames == old(vm.ram.frames)
                          && vm.alloc.NoPageLeft()
      ensures pa != 0 ==> pa == Bytes(pa / 4096) && pa / 4096 < FRAMES && pa / 4096 !in vm.Tables()
      ensures pa != 0 ==> NewFrame(old(vm.alloc.refs), vm.alloc.refs, vm.alloc.freeFrame, pa / 4096)
      ensures pa != 0 ==> vm.ram.frames == old(vm.ram.frames)[pa / 4096 := old(vm.ram.frames)[from]]
      ensures if pa == 0 then vm.Stray() == old(vm.Stray()) else vm.Stray() <= old(vm.Stray()) + {pa / 4096}
      ensures Falls(old(vm.alloc.Level()), vm.alloc.Level())
    {
      hide PageAllocator.Valid, Trees, TablesHeld, Space, KernelRootOk, ImageSpace, Linked, StrayFrames,
        PageAllocator.NoPageLeft;
      vm.AllocSizes();
      pa := NewPage();
      if pa != 0 {
        CopyPage(pa / 4096, from);
      }
    }

    /** proc_try_cow_fault: the current process moves to its own copy of page p. */
    method TryCowFault(p: nat, prot: Prot) returns (rc: int)
      requires Valid() && procs[current].Live() && Region(p) && Granted(p) == Some(prot)
      modifies vm`own, vm.alloc, vm.alloc.repr, vm.ram, this`spaces
      ensures Valid() && fresh(vm.alloc.repr - old(vm.alloc.repr)) && (rc == 0 || rc == -1)
      ensures forall i | 0 <= i < PROC_MAX :: SameView(old(Snapshot()), Snapshot(), i)
      ensures rc == 0 ==> p in spaces[current] && spaces[current][p].perm == UserPerm(prot)
      ensures rc == -1 ==> !prot.w || p !in old(spaces)[current] || old(spaces)[current][p].perm.w
                           || old(vm.alloc.LowMemory())
      ensures Spared(old(vm.alloc.Level()), old(Lost()), vm.alloc.Level(), Lost())
    {
      hide PageAllocator.Valid, Trees, TablesHeld, Space, KernelRootOk, ImageSpace, Kept, CountsOk, SharingOk, AreasOk,
        PagesOk, Linked, ProtAt, View, LostFrames, StrayFrames;
      if !prot.w {
        return -1;
      }
      var found, oldFrame, perm := QueryIn(current, p);
      if !found || perm.w {
        return -1;
      }
      rc := MoveToCopy(p, prot, oldFrame);
    }

    /** Page p is mapped to a copy of its frame; 0 when there is no memory for it. */
    method MapCopy(p: nat, prot: Prot, oldFrame: nat) returns (f: nat)
      requires Valid() && procs[current].Live() && Region(p) && prot.w
      requires p in spaces[current] && spaces[current][p].frame == oldFrame
      modifies vm`own, vm.alloc`freeRuns, vm.alloc`freeMetaNodes, vm.alloc`runs, vm.alloc`metas, vm.alloc`contents
      modifies vm.alloc`nextPaddr, vm.alloc`used, vm.alloc`refs, vm.alloc.repr, vm.ram, this`spaces
      ensures HeapOk() && oldFrame < FRAMES
      ensures f == 0 ==> Snapshot() == old(Snapshot()) && vm.Stray() == old(vm.Stray()) && vm.alloc.NoPageLeft()
      ensures f != 0 ==> Copied(old(Snapshot()), Snapshot(), current, p, f, prot) && vm.Stray() <= old(vm.Stray()) + {f}
      ensures Falls(old(vm.alloc.Level()), vm.alloc.Level())
    {
      hide PageAllocator.Valid, Trees, TablesHeld, Space, KernelRootOk, ImageSpace, Kept, CountsOk, SharingOk, AreasOk,
        PagesOk, Linked, ProcsOk, CountsKept, DataKept, NewFrame, PageAllocator.NoPageLeft, ImageOk, Sharers,
        LostFrames, StrayFrames;
      ghost var w := Snapshot();
      MappedFrame(w, current, p);
      var pa := NewCopy(oldFrame);
      if pa == 0 {
        return 0;
      }
      f := pa / 4096;
      ghost var r1, m2 := vm.alloc.refs, vm.ram.frames;
      var rc := MapIn(current, p, f, prot);
      AfterAlloc(w, f, r1, m2, Snapshot());
      if rc < 0 {
        assert false;      // page p is mapped, so its table exists
      }
    }

    /** The rest of proc_try_cow_fault, for a page mapped without W. */
    method MoveToCopy(p: nat, prot: Prot, oldFrame: nat) returns (rc: int)
      requires Valid() && procs[current].Live() && Region(p) && Granted(p) == Some(prot) && prot.w
      requires p in spaces[current] && spaces[current][p].frame == oldFrame
      modifies vm`own, vm.alloc, vm.alloc.repr, vm.ram, this`spaces
      ensures Valid() && fresh(vm.alloc.repr - old(vm.alloc.repr)) && (rc == 0 || rc == -1)
      ensures forall i | 0 <= i < PROC_MAX :: SameView(old(Snapshot()), Snapshot(), i)
      ensures rc == 0 ==> p in spaces[current] && spaces[current][p].perm == UserPerm(prot)
      ensures rc == -1 ==> old(vm.alloc.LowMemory())
      ensures Spared(old(vm.alloc.Level()), old(Lost()), vm.alloc.Level(), Lost())
    {
      hide PageAllocator.Valid, Trees, TablesHeld, Space, KernelRootOk, ImageSpace, CountsOk, SharingOk, AreasOk,
        PagesOk, Linked, ProtAt, View, ProcsOk, OneDropped, Fresh, CountsKept, DataKept, Held, PageAllocator.LowMemory,
        PageAllocator.NoPageLeft, Released, ImageOk, Sharers, LostFrames, StrayFrames;
      ghost var w, stray := Snapshot(), vm.Stray();
      MappedFrame(w, current, p);
      var f := MapCopy(p, prot, oldFrame);
      if f == 0 {
        NoneLeft();
        return -1;
      }
      ghost var w2 := Snapshot();
      StillMapped(w, w2, oldFrame, f);
      DecFrame(oldFrame);
      CopyKeeps(w, w2, Snapshot(), current, p, f, prot, stray, vm.Stray(), vm.alloc.leakWarned);
      rc := 0;
    }

    /** The current process may access page p like this, as its areas say. */
    ghost predicate FaultAllowed(p: nat, access: nat)
      reads this`procs, this`current
      requires current < |procs|
    {
      && procs[current].isUser && access in {1, 2, 4}
      && Granted(p).Some? && Allows(Granted(p).value, NeedOf(access))
    }

    /** The protection the current process has at page p. */
    ghost function Granted(p: nat): Option<Prot>
      reads this`procs, this`current
      requires current < |procs|
    {
      ProtAt(procs[current].vmas, p)
    }

    /** proc_handle_user_page_fault: maps, or copies, the page of an access that the
        areas allow. Nobody sees any memory change. It fails only when the access is
        not allowed or memory is down to its last page. */
    method HandleUserPageFault(addr: Addr, access: nat) returns (rc: int)
      requires Valid()
      modifies vm`own, vm.alloc, vm.alloc.repr, vm.ram, this`spaces
      ensures Valid() && fresh(vm.alloc.repr - old(vm.alloc.repr)) && (rc == 0 || rc == -1)
      ensures forall i | 0 <= i < PROC_MAX :: SameView(old(Snapshot()), Snapshot(), i)
      ensures rc == 0 ==> FaultAllowed(addr / 4096, access)
      ensures rc == 0 ==> addr / 4096 in PageMap(current, addr / 4096)
                          && PermHas(PageMap(current, addr / 4096)[addr / 4096].perm, NeedOf(access))
      ensures rc == -1 ==> !FaultAllowed(addr / 4096, access) || old(vm.alloc.LowMemory())
      ensures Spared(old(vm.alloc.Level()), old(Lost()), vm.alloc.Level(), Lost())
    {
      hide PageAllocator.Valid, Trees, TablesHeld, Space, KernelRootOk, ImageSpace, CountsOk, SharingOk, AreasOk,
        PagesOk, Linked, ProtAt, View, HeapOk, PageAllocator.LowMemory, UserVma.Has, LostFrames, StrayFrames,
        Sharers, ImageOk, Kernel.Lost, Kernel.Snapshot;
      if !procs[current].isUser {
        return -1;
      }
      if access != 4 && access != 1 && access != 2 {
        return -1;
      }
      var p := addr / 4096;
      FaultPage(addr);
      var i := FindVmaIndex(procs[current].vmas, Bytes(p));
      AreaFound(addr, p, i);
      if i == VMA_MAX {
        return -1;
      }
      var v := procs[current].vmas[i];
      if !Allows(v.prot, NeedOf(access)) {
        return -1;
      }
      var found, f, perm := QueryIn(current, p);
      if found {
        if PermHas(perm, NeedOf(access)) {
          return 0;
        }
        if access == 2 {
          rc := TryCowFault(p, v.prot);
          return;
        }
        return -1;
      }
      rc := InstallPage(p, v.prot);
    }

    lemma FaultPage(addr: Addr)
      requires Valid()
      ensures addr / 4096 < PAGES && |procs[current].vmas| == VMA_MAX && VmasOk(procs[current].vmas)
      ensures procs[current].isUser ==> procs[current].Live()
    {
      AreasFacts(current);
    }

    /** The area found gives the page its protection; a mapped page has all of it, or
        all but W, and a page outside the user slots is mapped. */
    lemma AreaFound(addr: Addr, p: nat, i: nat)
      requires Valid() && p == addr / 4096 && procs[current].Live() && i <= VMA_MAX && |procs[current].vmas| == VMA_MAX
      requires i < VMA_MAX ==> var v := procs[current].vmas[i]; v.used && v.start <= Bytes(p) < v.end
      requires i == VMA_MAX ==> forall j | 0 <= j < VMA_MAX ::
                 var v := procs[current].vmas[j]; !(v.used && v.start <= Bytes(p) < v.end)
      ensures Granted(p) == if i < VMA_MAX then Some(procs[current].vmas[i].prot) else None
      ensures Granted(p).Some? ==>
                && (!Region(p) ==> p in kmap.image && kmap.image[p].perm == UserPerm(Granted(p).value))
                && (Region(p) && p in spaces[current] ==> PermFits(spaces[current][p].perm, Granted(p).value))
    {
      AreasFacts(current);
      FoundArea(procs[current].vmas, i, p);
      if p in spaces[current] { assert PageOk(procs[current].vmas, spaces[current], vm.ram.frames, p); }
    }

    /** The current process has a page of zeros mapped at p. */
    method InstallPage(p: nat, prot: Prot) returns (rc: int)
      requires Valid() && procs[current].Live() && Region(p) && Granted(p) == Some(prot) && p !in spaces[current]
      requires UserPerm(prot).Leaf()
      modifies vm`own, vm.alloc, vm.alloc.repr, vm.ram, this`spaces
      ensures Valid() && fresh(vm.alloc.repr - old(vm.alloc.repr)) && (rc == 0 || rc == -1)
      ensures forall i | 0 <= i < PROC_MAX :: SameView(old(Snapshot()), Snapshot(), i)
      ensures rc == 0 ==> p in spaces[current] && spaces[current][p].perm == UserPerm(prot)
      ensures rc == -1 ==> old(vm.alloc.LowMemory())
      ensures Spared(old(vm.alloc.Level()), old(Lost()), vm.alloc.Level(), Lost())
    {
      hide PageAllocator.Valid, Trees, TablesHeld, Space, KernelRootOk, ImageSpace, Kept, CountsOk, SharingOk,
        AreasOk, PagesOk, Linked, ProtAt, View, ProcsOk, LostFrames, StrayFrames, Sharers, ImageOk, CountOk,
        Kernel.HeapOk, Fresh, CountsKept, DataKept, NewFrame, PageAllocator.NoPageLeft, Supply.OneAtMost, Supply.None,
        PageTables.Tables;
      ghost var w, stray, supply := Snapshot(), vm.Stray(), vm.alloc.Left();
      var pa := NewPage();
      if pa == 0 {
        NoneLeft();
        return -1;
      }
      var f := pa / 4096;
      ghost var r1, m1 := vm.alloc.refs, vm.ram.frames;
      rc := MapIn(current, p, f, prot);
      ghost var w2 := Snapshot();
      AfterAlloc(w, f, r1, m1, w2);
      if rc < 0 {
        NoneLeft();
        NewWasLast(supply, vm.alloc.Left(), vm.alloc.freeFrame, f);
        GiveBack(w, f);
        FewerLost(stray, vm.Stray(), spaces, vm.alloc.leakWarned);
        return;
      }
      InstallKeeps(w, Snapshot(), current, p, f, prot);
      RemapSpares(w, stray, vm.Stray(), spaces, current, p, UserLeaf(f, prot), false);
    }

    /** The page that could not be mapped is freed again. */
    method GiveBack(ghost w: World, f: nat)
      requires HeapOk() && Inv(w) && ProcsOk(procs, kmap.image) && ImageOk(image)
      requires current < PROC_MAX && procs[current].state !in {Unused, Zombie}
      requires Fresh(w, Snapshot(), f) && CountsKept(w, Snapshot(), {}) && DataKept(w, Snapshot())
      requires w.spaces == spaces && w.areas == AreasOf(procs)
      modifies vm.alloc, vm.alloc.repr
      ensures Valid() && fresh(vm.alloc.repr - old(vm.alloc.repr))
      ensures forall i | 0 <= i < PROC_MAX :: SameView(w, Snapshot(), i)
      ensures Falls(old(vm.alloc.Level()), vm.alloc.Level())
      ensures vm.alloc.leakWarned || vm.Stray() <= old(vm.Stray()) - {f}
    {
      hide PageAllocator.Valid, Trees, TablesHeld, Space, KernelRootOk, ImageSpace, CountsOk, SharingOk, AreasOk,
        PagesOk, Linked, ProtAt, View, ProcsOk, StrayFrames;
      ghost var w2 := Snapshot();
      FreshUnshared(w, w2, f);
      FreeFrame(f);
      GrownAfterDrop(w, w2, Snapshot(), f);
      GrownKeeps(w, Snapshot());
    }

    // -------------------------------------------------------------------
    // Giving memory up.

    /** One step of the loops that unmap and free a range. */
    method UnmapPage(i: nat, p: nat, ghost areas: seq<seq<UserVma>>)
      requires HeapOk() && Inv(WorldWith(areas)) && i < PROC_MAX && procs[i].Live() && Region(p)
      modifies vm.alloc, vm.alloc.repr, vm.ram, this`spaces
      ensures HeapOk() && Inv(WorldWith(areas)) && fresh(vm.alloc.repr - old(vm.alloc.repr))
      ensures spaces == old(spaces)[i := old(spaces)[i] - {p}]
      ensures forall j | 0 <= j < PROC_MAX && j != i :: SameView(old(WorldWith(areas)), WorldWith(areas), j)
      ensures View(WorldWith(areas), i) == Zeroed(old(View(WorldWith(areas), i)), Bytes(p), Bytes(p + 1))
      ensures Spared(old(vm.alloc.Level()), old(Lost()), vm.alloc.Level(), Lost())
    {
      hide PageAllocator.Valid, Trees, TablesHeld, Space, KernelRootOk, ImageSpace, CountsOk, SharingOk, AreasOk,
        PagesOk, Linked, View, OneDropped, Held, LostFrames, StrayFrames;
      ghost var w, stray := WorldWith(areas), vm.Stray();
      var found, f, perm := QueryIn(i, p);
      if !found {
        NoEntry(w, i, p);
        return;
      }
      MappedFrame(w, i, p);
      UnmapIn(i, p);
      ghost var w1 := WorldWith(areas);
      FreeFrame(f);
      AfterUnmap(w, w1, WorldWith(areas), f);
      UnmapKeeps(w, WorldWith(areas), i, p);
      RemapSpares(w, stray, vm.Stray(), spaces, i, p, None, vm.alloc.leakWarned);
      ZeroedOne(View(w, i), p);
    }

    /** Every mapped page of [lo, hi) is unmapped and its frame freed. */
    method UnmapRange(i: nat, lo: nat, hi: nat, ghost areas: seq<seq<UserVma>>)
      requires HeapOk() && Inv(WorldWith(areas)) && i < PROC_MAX && procs[i].Live()
      requires MMAP_BASE <= lo && hi <= STACK_TOP && Aligned(lo) && Aligned(hi)
      modifies vm.alloc, vm.alloc.repr, vm.ram, this`spaces
      ensures HeapOk() && Inv(WorldWith(areas)) && fresh(vm.alloc.repr - old(vm.alloc.repr))
      ensures spaces == old(spaces)[i := Cutout(old(spaces)[i], lo, hi)]
      ensures forall j | 0 <= j < PROC_MAX && j != i :: SameView(old(WorldWith(areas)), WorldWith(areas), j)
      ensures View(WorldWith(areas), i) == Zeroed(old(View(WorldWith(areas), i)), lo, hi)
      ensures Spared(old(vm.alloc.Level()), old(Lost()), vm.alloc.Level(), Lost())
    {
      hide HeapOk, Inv, View, SameView, Cutout, Zeroed, LostFrames, StrayFrames;
      ghost var w := WorldWith(areas);
      InvSizes(w);
      var va := lo;
      NothingCut(spaces[i], View(w, i), lo);
      ViewsReflexive(w);
      while va < hi
        invariant lo <= va && Aligned(va) && (va <= hi || va == lo)
        invariant HeapOk() && Inv(WorldWith(areas)) && fresh(vm.alloc.repr - old(vm.alloc.repr))
        invariant spaces == old(spaces)[i := Cutout(old(spaces)[i], lo, va)]
        invariant forall j | 0 <= j < PROC_MAX && j != i :: SameView(w, WorldWith(areas), j)
        invariant View(WorldWith(areas), i) == Zeroed(View(w, i), lo, va)
        invariant Spared(old(vm.alloc.Level()), old(Lost()), vm.alloc.Level(), Lost())
      {
        ghost var w1 := WorldWith(areas);
        RangePage(va, hi);
        UnmapPage(i, va / 4096, areas);
        CutMore(old(spaces)[i], View(w, i), lo, va);
        ViewsTransitive(w, w1, WorldWith(areas), i);
        va := va + 4096;
      }
      CutEnd(old(spaces)[i], View(w, i), lo, hi, va);
    }

    /** Process i has other areas; its translation stays. */
    method SetVmas(i: nat, t: seq<UserVma>)
      requires HeapOk() && i < PROC_MAX
      modifies this`procs
      ensures HeapOk() && procs == old(procs)[i := old(procs)[i].(vmas := t)]
      ensures AreasOf(procs) == AreasOf(old(procs))[i := t]
    {
      hide PageTables.Valid, PageTables.Booted, SpaceOk;
      VmasIrrelevant(procs, spaces, vm.ram.frames, vm.roots, kmap, i, t);
      procs := procs[i := procs[i].(vmas := t)];
    }

    /** proc_munmap: as a map from page to protection and contents, the memory of the
        current process loses exactly [addr, addr + len) rounded up to pages. It fails
        only on a bad range or for want of a slot for a split, and then nothing has
        changed. */
    method Munmap(addr: Addr, len: Addr) returns (rc: int)
      requires Valid()
      modifies this`procs, vm.alloc, vm.alloc.repr, vm.ram, this`spaces
      ensures Valid() && fresh(vm.alloc.repr - old(vm.alloc.repr)) && (rc == 0 || rc == -1)
      ensures rc == 0 <==> MunmapAccepts(old(procs)[current], addr, len)
      ensures rc == -1 ==> procs == old(procs) && Snapshot() == old(Snapshot())
      ensures procs == old(procs)[current := old(procs)[current].(vmas := procs[current].vmas)]
      ensures forall i | 0 <= i < PROC_MAX && i != current :: SameView(old(Snapshot()), Snapshot(), i)
      ensures rc == 0 ==> View(Snapshot(), current) == Without(old(View(Snapshot(), current)), addr,
                                                               addr + PageCeil(len))
      ensures rc == 0 ==> IsCut(old(procs)[current].vmas, procs[current].vmas, addr, addr + PageCeil(len))
      ensures rc == 0 && PageCeil(len) > 0 ==>
                (AllUsed(procs[current].vmas) <==> FullAfterCut(old(procs)[current].vmas, addr, addr + PageCeil(len)))
      ensures Spared(old(vm.alloc.Level()), old(Lost()), vm.alloc.Level(), Lost())
    {
      hide HeapOk, Inv, View, SameView, ProcsOk, AreasOk, AllUsed, Splitting, VmasOk, AllPlaced, FullAfterCut,
        IsCut, LostFrames, StrayFrames, HasStack, ProtAt, PageTables.Tables, Kernel.Lost, SharingOk;
      InvSizes(Snapshot());
      ViewsReflexive(Snapshot());
      if !procs[current].isUser {
        return -1;
      }
      if !Aligned(addr) {
        return -1;
      }
      if len == 0 {
        return -1;
      }
      var size := PageCeil(len);
      var end := Add32(addr, size);
      if end < addr {
        return -1;
      }
      if addr < MMAP_BASE || end > MMAP_END {
        return -1;
      }
      UserFacts();
      var changed, t;
      rc, changed, t := MunmapVmas(procs[current].vmas, addr, end);
      if rc < 0 {
        return;
      }
      MunmapPages(addr, end, changed, t);
    }

    lemma UserFacts()
      requires Valid()
      ensures VmasOk(procs[current].vmas) && AllPlaced(procs[current].vmas) && |procs[current].vmas| == VMA_MAX
      ensures procs[current].isUser ==> procs[current].Live() && HasStack(procs[current].vmas)
                                        && ImageCovered(procs[current].vmas, kmap.image)
      ensures forall p | p in spaces[current] :: Region(p) && ProtAt(procs[current].vmas, p).Some?
    {
      AreasFacts(current);
      forall p | p in spaces[current] ensures Region(p) && ProtAt(procs[current].vmas, p).Some? {
        assert PageOk(procs[current].vmas, spaces[current], vm.ram.frames, p);
      }
    }

    /** The rest of proc_munmap: the table without the range takes effect, and unless no
        area changed the pages of the range are unmapped and freed. */
    method MunmapPages(addr: Addr, end: Addr, changed: bool, t: seq<UserVma>)
      requires Valid() && procs[current].Live() && MMAP_BASE <= addr <= end && end <= MMAP_END && Aligned(addr)
               && Aligned(end)
      requires VmasOk(t) && AllPlaced(t) && IsCut(procs[current].vmas, t, addr, end)
      requires changed <==> addr < end && !RangeFree(procs[current].vmas, addr, end)
      modifies this`procs, vm.alloc, vm.alloc.repr, vm.ram, this`spaces
      ensures Valid() && fresh(vm.alloc.repr - old(vm.alloc.repr))
      ensures procs == old(procs)[current := old(procs)[current].(vmas := t)]
      ensures forall i | 0 <= i < PROC_MAX && i != current :: SameView(old(Snapshot()), Snapshot(), i)
      ensures View(Snapshot(), current) == Without(old(View(Snapshot(), current)), addr, end)
      ensures Spared(old(vm.alloc.Level()), old(Lost()), vm.alloc.Level(), Lost())
    {
      hide HeapOk, Inv, View, SameView, ProcsOk, IsCut, Cutout, Zeroed, Without, RangeFree, VmasOk, AllPlaced,
        LostFrames, StrayFrames;
      ghost var areas := AreasOf(procs);
      ghost var w := Snapshot();
      InvSizes(w);
      ViewsReflexive(w);
      UserFacts();
      CutProcOk(procs, kmap.image, current, t, addr, end);
      ghost var vmas := procs[current].vmas;
      SetVmas(current, t);
      if changed {
        UnmapRange(current, addr, end, areas);
        CutoutApart(old(spaces)[current], addr, end);
      } else {
        NothingMapped(vmas, spaces[current], addr, end);
      }
      ghost var w1 := WorldWith(areas);
      CutKeeps(w1, Snapshot(), current, t, addr, end);
      WithoutZeroed(View(w, current), addr, end);
      ViewsTransitive(w, w1, Snapshot(), current);
    }

    /** proc_mmap: len bytes, rounded up to pages, of zeroed memory at the address it
        returns, and no other change; MAP_FIXED replaces what was there. When it fails
        nothing has changed, unless MAP_FIXED had already emptied the range before it
        found no slot for the new area. */
    method Mmap(hint: Addr, len: Addr, bits: nat, fixed: bool) returns (ret: int)
      requires Valid()
      modifies this`procs, vm.alloc, vm.alloc.repr, vm.ram, this`spaces
      ensures Valid() && fresh(vm.alloc.repr - old(vm.alloc.repr))
      ensures forall i | 0 <= i < PROC_MAX && i != current :: SameView(old(Snapshot()), Snapshot(), i)
      ensures ret == -1 || (MMAP_BASE <= ret && ret + PageCeil(len) <= MMAP_END && Aligned(ret))
      ensures fixed ==> (ret == hint <==> MunmapAccepts(old(procs)[current], hint, PageCeil(len)) && 0 < bits < 8
                                          && !FullAfterCut(old(procs)[current].vmas, hint, hint + PageCeil(len)))
      ensures fixed ==> ret == hint || ret == -1
      ensures !fixed ==> (ret == -1 <==> !MmapAccepts(old(procs)[current], PageCeil(len), bits))
      ensures !fixed && ret != -1 ==> Fits(old(procs)[current].vmas, ret, PageCeil(len))
      ensures !fixed && ret != -1 && HintFits(old(procs)[current].vmas, hint, PageCeil(len)) ==> ret == hint
      ensures !fixed && ret != -1 && ret != hint ==> forall a: nat | MMAP_BASE <= a < ret ::
                !Fits(old(procs)[current].vmas, a, PageCeil(len))
      ensures ret != -1 ==> IsFilled(old(procs)[current].vmas, procs[current].vmas, ret, ret + PageCeil(len),
                                     ProtOfBits(bits))
      ensures ret != -1 ==> View(Snapshot(), current)
                            == WithZeros(old(View(Snapshot(), current)), ret, ret + PageCeil(len), ProtOfBits(bits))
      ensures ret == -1 ==> View(Snapshot(), current)
                            == if fixed && 0 < bits < 8 && MunmapAccepts(old(procs)[current], hint, PageCeil(len))
                               then Without(old(View(Snapshot(), current)), hint, hint + PageCeil(len))
                               else old(View(Snapshot(), current))
      ensures procs == old(procs)[current := old(procs)[current].(vmas := procs[current].vmas)]
      ensures Spared(old(vm.alloc.Level()), old(Lost()), vm.alloc.Level(), Lost())
    {
      hide HeapOk, Inv, View, SameView, ProcsOk, AreasOk, AllUsed, Splitting, VmasOk, AllPlaced, FullAfterCut,
        Fits, LostFrames, StrayFrames, IsFilled, Kernel.Lost, PageAllocator.Level;
      InvSizes(Snapshot());
      ViewsReflexive(Snapshot());
      ret := -1;
      if !procs[current].isUser {
        return;
      }
      if len == 0 {
        return;
      }
      if bits >= 8 || bits == 0 {
        return;
      }
      var size := PageCeil(len);
      if fixed {
        ret := MmapFixed(hint, size, bits);
      } else {
        ret := MmapFree(hint, size, bits);
      }
    }

    /** MAP_FIXED: whatever was in the range goes first. */
    method MmapFixed(addr: Addr, size: Addr, bits: nat) returns (ret: int)
      requires Valid() && procs[current].isUser && Aligned(size) && 0 < bits < 8
      modifies this`procs, vm.alloc, vm.alloc.repr, vm.ram, this`spaces
      ensures Valid() && fresh(vm.alloc.repr - old(vm.alloc.repr)) && (ret == addr || ret == -1)
      ensures forall i | 0 <= i < PROC_MAX && i != current :: SameView(old(Snapshot()), Snapshot(), i)
      ensures ret == addr <==> MunmapAccepts(old(procs)[current], addr, size)
                               && !FullAfterCut(old(procs)[current].vmas, addr, addr + size)
      ensures ret == addr ==> MMAP_BASE <= addr && addr + size <= MMAP_END && Aligned(addr)
      ensures ret == addr ==> IsFilled(old(procs)[current].vmas, procs[current].vmas, addr, addr + size,
                                       ProtOfBits(bits))
      ensures ret == addr ==> View(Snapshot(), current)
                              == WithZeros(old(View(Snapshot(), current)), addr, addr + size, ProtOfBits(bits))
      ensures ret == -1 ==> View(Snapshot(), current)
                            == if MunmapAccepts(old(procs)[current], addr, size)
                               then Without(old(View(Snapshot(), current)), addr, addr + size)
                               else old(View(Snapshot(), current))
      ensures procs == old(procs)[current := old(procs)[current].(vmas := procs[current].vmas)]
      ensures Spared(old(vm.alloc.Level()), old(Lost()), vm.alloc.Level(), Lost())
    {
      hide HeapOk, Inv, View, SameView, ProcsOk, AreasOk, AllUsed, Splitting, VmasOk, AllPlaced, FullAfterCut, IsFilled,
        WithZeros, Without, RangeFree, LostFrames, StrayFrames;
      InvSizes(Snapshot());
      ViewsReflexive(Snapshot());
      CeilOfAligned(size);
      if !Aligned(addr) {
        return -1;
      }
      if addr < MMAP_BASE || Add32(addr, size) > MMAP_END || Add32(addr, size) < addr {
        return -1;
      }
      ghost var w := Snapshot();
      var rc := Munmap(addr, size);
      if rc < 0 {
        return -1;
      }
      ghost var w1 := Snapshot();
      rc := FillHole(addr, size, bits, old(procs)[current].vmas, View(w, current));
      ViewsTransitive(w, w1, Snapshot(), current);
      return if rc < 0 then -1 else addr;
    }

    /** The new area goes where the old pages were. */
    method FillHole(addr: Addr, size: Addr, bits: nat, ghost vmas: seq<UserVma>, ghost v: map<nat, Cell>)
      returns (rc: int)
      requires Valid() && procs[current].isUser && Aligned(addr) && Aligned(size) && 0 < size && 0 < bits < 8
      requires MMAP_BASE <= addr && addr + size <= MMAP_END
      requires IsCut(vmas, procs[current].vmas, addr, addr + size)
      requires View(Snapshot(), current) == Without(v, addr, addr + size)
      modifies this`procs
      ensures Valid() && (rc == 0 || rc == -1) && (rc == -1 <==> AllUsed(old(procs)[current].vmas))
      ensures forall i | 0 <= i < PROC_MAX && i != current :: SameView(old(Snapshot()), Snapshot(), i)
      ensures procs == old(procs)[current := old(procs)[current].(vmas := procs[current].vmas)]
      ensures rc == 0 ==> IsFilled(vmas, procs[current].vmas, addr, addr + size, ProtOfBits(bits))
      ensures View(Snapshot(), current)
              == if rc == 0 then WithZeros(v, addr, addr + size, ProtOfBits(bits)) else Without(v, addr, addr + size)
    {
      hide HeapOk, Inv, View, SameView, ProcsOk, AreasOk, AllUsed, VmasOk, AllPlaced, IsFilled, WithZeros, Without,
        RangeFree;
      InvSizes(Snapshot());
      ghost var t := procs[current].vmas;
      UserFacts();
      FreeByPages(t, addr, addr + size);
      rc := AddToCurrent(addr, Add32(addr, size), bits);
      ZerosOverHole(v, addr, addr + size, ProtOfBits(bits));
      if rc == 0 {
        FilledOverCut(vmas, t, procs[current].vmas, addr, addr + size, ProtOfBits(bits));
      }
    }

    /** Without MAP_FIXED: the hint, or the lowest free address. */
    method MmapFree(hint: Addr, size: Addr, bits: nat) returns (ret: int)
      requires Valid() && procs[current].isUser && Aligned(size) && 0 < bits < 8
      modifies this`procs
      ensures Valid()
      ensures ret == -1 <==> !MmapAccepts(old(procs)[current], size, bits)
      ensures ret == -1 ==> procs == old(procs)
      ensures ret != -1 ==> MMAP_BASE <= ret && ret + size <= MMAP_END && Aligned(ret)
                            && Fits(old(procs)[current].vmas, ret, size)
      ensures ret != -1 && HintFits(old(procs)[current].vmas, hint, size) ==> ret == hint
      ensures ret != -1 && ret != hint ==> forall a: nat | MMAP_BASE <= a < ret ::
                !Fits(old(procs)[current].vmas, a, size)
      ensures forall i | 0 <= i < PROC_MAX && i != current :: SameView(old(Snapshot()), Snapshot(), i)
      ensures ret != -1 ==> IsFilled(old(procs)[current].vmas, procs[current].vmas, ret, ret + size, ProtOfBits(bits))
      ensures ret != -1 ==> View(Snapshot(), current)
                            == WithZeros(old(View(Snapshot(), current)), ret, ret + size, ProtOfBits(bits))
      ensures procs == old(procs)[current := old(procs)[current].(vmas := procs[current].vmas)]
    {
      hide HeapOk, Inv, View, SameView, ProcsOk, AreasOk, AllUsed, VmasOk, AllPlaced, IsFilled, WithZeros, RangeFree;
      InvSizes(Snapshot());
      ViewsReflexive(Snapshot());
      UserFacts();
      var rc, addr := ChooseMmap(procs[current].vmas, hint, size);
      if rc < 0 {
        return -1;
      }
      assert Add32(addr, size) == addr + size;
      rc := AddToCurrent(addr, Add32(addr, size), bits);
      if rc < 0 {
        return -1;
      }
      return addr;
    }

    /** proc_add_vma for the current process, inside the mmap window. */
    method AddToCurrent(start: Addr, end: Addr, bits: nat) returns (rc: int)
      requires Valid() && procs[current].isUser && MMAP_BASE <= start && end <= MMAP_END && 0 < bits < 8
      requires Aligned(start) && Aligned(end)
      modifies this`procs
      ensures Valid() && (rc == 0 || rc == -1)
      ensures rc == 0 <==>
                start < end && RangeFree(old(procs)[current].vmas, start, end) && !AllUsed(old(procs)[current].vmas)
      ensures rc == -1 ==> procs == old(procs)
      ensures forall i | 0 <= i < PROC_MAX && i != current :: SameView(old(Snapshot()), Snapshot(), i)
      ensures rc == 0 ==> IsFilled(old(procs)[current].vmas, procs[current].vmas, start, end, ProtOfBits(bits))
      ensures rc == 0 ==> View(Snapshot(), current)
                          == WithZeros(old(View(Snapshot(), current)), start, end, ProtOfBits(bits))
      ensures procs == old(procs)[current := old(procs)[current].(vmas := procs[current].vmas)]
    {
      hide HeapOk, Inv, View, SameView, ProcsOk, AllUsed, VmasOk, AllPlaced, IsFilled, WithZeros, RangeFree;
      InvSizes(Snapshot());
      ViewsReflexive(Snapshot());
      UserFacts();
      ghost var w, vmas := Snapshot(), procs[current].vmas;
      var t;
      rc, t := AddVma(procs[current].vmas, start, end, ProtOfBits(bits));
      if rc < 0 {
        return;
      }
      FilledProcOk(procs, kmap.image, current, t, start, end, ProtOfBits(bits));
      NoneWhereFree(vmas, start, end);
      SetVmas(current, t);
      FillKeeps(w, Snapshot(), current, t, start, end, ProtOfBits(bits));
    }

    /** proc_vm_release of a process with an address space: every page it maps in the
        user slots is unmapped and its frame freed. */
    method VmRelease(i: nat)
      requires HeapOk() && Inv(Snapshot()) && i < PROC_MAX && procs[i].Live()
      requires procs[i].stackBase == STACK_BASE && procs[i].stackPages == 2
      modifies vm.alloc, vm.alloc.repr, vm.ram, this`spaces
      ensures HeapOk() && Inv(Snapshot()) && fresh(vm.alloc.repr - old(vm.alloc.repr))
      ensures spaces == old(spaces)[i := map[]]
      ensures forall j | 0 <= j < PROC_MAX && j != i :: SameView(old(Snapshot()), Snapshot(), j)
      ensures Spared(old(vm.alloc.Level()), old(Lost()), vm.alloc.Level(), Lost())
    {
      hide HeapOk, Inv, View, SameView, Cutout, Zeroed, LostFrames, StrayFrames, Kernel.Lost, AreasOf,
        PageTables.Tables;
      Sizes();
      ghost var w, areas, vmas := Snapshot(), AreasOf(procs), procs[i].vmas;
      InvSizes(w);
      ViewsReflexive(w);
      AreasPlaced(w, i);
      assert vmas == w.areas[i];
      var k := 0;
      while k < VMA_MAX
        invariant 0 <= k <= VMA_MAX && HeapOk() && Inv(Snapshot()) && fresh(vm.alloc.repr - old(vm.alloc.repr))
        invariant |spaces| == PROC_MAX && spaces == old(spaces)[i := spaces[i]]
        invariant forall j | 0 <= j < PROC_MAX && j != i :: SameView(w, Snapshot(), j)
        invariant forall j | 0 <= j < k :: InWindow(vmas[j]) ==> NonePresent(vmas[j], spaces[i])
        invariant Spared(old(vm.alloc.Level()), old(Lost()), vm.alloc.Level(), Lost())
      {
        var v := procs[i].vmas[k];
        if v.used && MMAP_BASE <= v.start && v.end <= MMAP_END {
          ghost var s1, w1 := spaces[i], Snapshot();
          UnmapRange(i, v.start, v.end, areas);
          CutoutAbsent(s1, vmas, v.start, v.end);
          ViewsTransitive(w, w1, Snapshot(), i);
        }
        k := k + 1;
      }
      ghost var s1, w1 := spaces[i], Snapshot();
      StackBounds();
      UnmapRange(i, procs[i].stackBase, procs[i].stackBase + Bytes(procs[i].stackPages), areas);
      CutoutAbsent(s1, vmas, STACK_BASE, STACK_TOP);
      ViewsTransitive(w, w1, Snapshot(), i);
      AllReleased(Snapshot(), i);
    }

    /** reset_process_with_released_resources, and the reaping of a zombie. */
    method Discard(i: nat)
      requires Valid() && i < PROC_MAX && i != current && procs[i].Live()
      modifies this`procs, vm.alloc, vm.alloc.repr, vm.ram, this`spaces
      ensures Valid() && fresh(vm.alloc.repr - old(vm.alloc.repr))
      ensures procs == old(procs)[i := UNUSED] && spaces == old(spaces)[i := map[]]
      ensures forall j | 0 <= j < PROC_MAX && j != i :: SameView(old(Snapshot()), Snapshot(), j)
      ensures View(Snapshot(), i) == map[]
      ensures Spared(old(vm.alloc.Level()), old(Lost()), vm.alloc.Level(), Lost())
    {
      hide HeapOk, Inv, View, SameView, LostFrames, StrayFrames;
      ProcFacts(i);
      ghost var w := Snapshot();
      VmRelease(i);
      ghost var w1 := Snapshot();
      MarkUnused(i);
      EmptyTable();
      EmptyCovered(NoAreas(), w1.mem);
      AreasChange(w1, Snapshot(), i, NoAreas());
      NothingToSee(Snapshot(), i);
      ViewsTransitive(w, w1, Snapshot(), i);
    }

    /** mark_process_unused */
    method MarkUnused(i: nat)
      requires HeapOk() && i < PROC_MAX && i < |spaces| && spaces[i] == map[]
      modifies this`procs
      ensures HeapOk() && procs == old(procs)[i := UNUSED] && AreasOf(procs) == AreasOf(old(procs))[i := NoAreas()]
      ensures ProcsOk(old(procs), kmap.image) ==> ProcsOk(procs, kmap.image)
    {
      hide PageTables.Valid, PageTables.Booted;
      UnusedLinked(procs, spaces, vm.ram.frames, vm.roots, kmap, i);
      procs := procs[i := UNUSED];
    }

    lemma Sizes()
      requires HeapOk()
      ensures |procs| == PROC_MAX && |spaces| == PROC_MAX
    {}

    lemma ProcFacts(i: nat)
      requires Valid() && i < PROC_MAX
      ensures ProcOk(procs[i], kmap.image) && |procs| == PROC_MAX && |spaces| == PROC_MAX
    {}

    // -------------------------------------------------------------------
    // New processes.

    /** alloc_pages_try for the two pages of a stack. */
    method NewStackPages() returns (pa: nat)
      requires HeapOk()
      modifies vm.alloc`freeRuns, vm.alloc`freeMetaNodes, vm.alloc`runs, vm.alloc`metas, vm.alloc`contents
      modifies vm.alloc`nextPaddr, vm.alloc`used, vm.alloc`refs, vm.alloc.repr, vm.ram
      ensures HeapOk()
      ensures pa == 0 ==> vm.alloc.refs == old(vm.alloc.refs) && vm.ram.frames == old(vm.ram.frames)
      ensures pa != 0 ==> pa == Bytes(pa / 4096) && pa / 4096 + 1 < FRAMES
      ensures pa != 0 ==> TwoNew(old(vm.alloc.refs), vm.alloc.refs, vm.alloc.freeFrame, pa / 4096, vm.Tables())
      ensures pa != 0 ==> Cleared(old(vm.ram.frames), vm.ram.frames, pa / 4096, 2)
      ensures if pa == 0 then vm.Stray() == old(vm.Stray())
              else vm.Stray() <= old(vm.Stray()) + {pa / 4096, pa / 4096 + 1}
      ensures Falls(old(vm.alloc.Level()), vm.alloc.Level())
      ensures pa == 0 ==> vm.alloc.Level().room < 8192
    {
      hide Trees, TablesHeld, Space, KernelRootOk, ImageSpace, PageAllocator.Valid, StrayFrames, Marked, Cleared,
        TwoNew, Agrees, FitIndex;
      BootFacts();
      vm.AllocSizes();
      ghost var m, r := vm.ram.frames, vm.alloc.refs;
      ghost var first;
      pa, first := vm.alloc.AllocPagesTry(2);
      if pa != 0 {
        PageIndex(vm.alloc.freeFrame, first);
        StackPagesKeep(m, vm.ram.frames, r, vm.alloc.refs, vm.alloc.freeFrame, first, vm.roots, vm.own);
        StrayAfterTwo(r, vm.alloc.refs, vm.alloc.freeFrame, vm.Tables() + vm.abandoned, vm.Tables(), pa / 4096);
        LinkedSame(m, vm.ram.frames, procs, spaces, vm.roots, kmap);
        ClearedOutside(m, vm.ram.frames, pa / 4096, 2, vm.alloc.freeFrame, vm.alloc.managed);
        RomStays(m);
      }
    }

    /** vm_build_user_satp for an embryo with its stack at pa, and the root it gets. */
    method RootFor(c: nat, pa: nat) returns (ok: bool)
      requires HeapOk() && ImageOk(image) && c < PROC_MAX && Aligned(pa) && pa / 4096 + 2 <= FRAMES
      requires procs[c].state != Unused && procs[c].isUser && procs[c].satp == 0
      requires procs[c].stackBase == STACK_BASE && procs[c].stackPages == 2
      modifies this`procs, this`spaces, vm`roots, vm`own, vm`abandoned, vm.alloc, vm.alloc.repr, vm.ram
      ensures HeapOk() && fresh(vm.alloc.repr - old(vm.alloc.repr))
      ensures Kept(old(vm.ram.frames), vm.ram.frames, old(vm.alloc.refs), vm.alloc.refs, vm.alloc.freeFrame,
                   old(vm.Tables()), vm.Tables())
      ensures ok ==> procs == old(procs)[c := old(procs)[c].(satp := procs[c].satp, stackPa := pa)]
                     && procs[c].satp != 0
      ensures ok ==> spaces == old(spaces)[c := StackSpace(pa / 4096)]
      ensures !ok ==> procs == old(procs) && spaces == old(spaces) && vm.alloc.Level().room < 4096
      ensures Falls(old(vm.alloc.Level()), vm.alloc.Level()) && (vm.alloc.leakWarned || vm.Stray() <= old(vm.Stray()))
    {
      hide PageAllocator.Valid, Trees, TablesHeld, Space, KernelRootOk, ImageSpace, Kept, SpaceOk, RootsApart, ImageOk,
        Segment.Ok, StrayFrames;
      StackBounds();
      SegmentsOk(image);
      TablesManaged();
      ghost var m1, r1, roots1, tables := vm.ram.frames, vm.alloc.refs, vm.roots, vm.Tables();
      var satp := vm.BuildUserSatp(procs[c].stackBase, pa, procs[c].stackPages, image);
      KeptOutside(m1, vm.ram.frames, r1, vm.alloc.refs, vm.alloc.freeFrame, tables, vm.Tables());
      RomStays(m1);
      ok := satp != 0;
      if ok {
        AdoptSpace(c, satp, pa, m1, roots1);
      } else {
        LinkedSame(m1, vm.ram.frames, procs, spaces, vm.roots, kmap);
      }
    }

    /** An address space and a stack for the new process c, which will have the areas t.
        When memory runs out everything is given back. */
    method NewSpace(c: nat, ghost areas: seq<seq<UserVma>>, ghost t: seq<UserVma>) returns (ok: bool)
      requires HeapOk() && Inv(WorldWith(areas)) && ImageOk(image) && c < PROC_MAX && AreasOk(t) && HasStack(t)
      requires procs[c].state != Unused && procs[c].isUser && procs[c].satp == 0
      requires procs[c].stackBase == STACK_BASE && procs[c].stackPages == 2
      modifies this`procs, this`spaces, vm`roots, vm`own, vm`abandoned, vm.alloc, vm.alloc.repr, vm.ram
      ensures HeapOk() && fresh(vm.alloc.repr - old(vm.alloc.repr))
      ensures ok ==> procs == old(procs)[c := old(procs)[c].(satp := procs[c].satp, stackPa := procs[c].stackPa)]
      ensures ok ==> procs[c].satp != 0 && Inv(WorldWith(areas[c := t]))
      ensures ok ==> OthersSame(old(WorldWith(areas)), WorldWith(areas[c := t]), c)
      ensures ok ==> spaces == old(spaces)[c := spaces[c]] && AllZero(View(WorldWith(areas[c := t]), c))
      ensures ok ==> forall p: nat :: Unshared(spaces, c, p)
      ensures !ok ==> vm.alloc.Level().room < 8192
      ensures !ok ==> procs == old(procs) && spaces == old(spaces) && Inv(WorldWith(areas))
      ensures !ok ==> forall j | 0 <= j < PROC_MAX :: SameView(old(WorldWith(areas)), WorldWith(areas), j)
      ensures Spared(old(vm.alloc.Level()), old(Lost()), vm.alloc.Level(), Lost())
    {
      hide PageAllocator.Valid, Trees, TablesHeld, Space, KernelRootOk, ImageSpace, Kept, CountsOk, SharingOk,
        AreasOk, PagesOk, ProtAt, View, TwoNew, SpaceOk, RootsApart, Fresh, CountsKept, DataKept, Sharers, ImageOk,
        Segment.Ok, HasStack, LostFrames, StrayFrames, PageTables.Tables, PageTables.Stray, Kernel.RomOk;
      ghost var w, stray := WorldWith(areas), vm.Stray();
      EmbryoSpace(c);
      var pa := NewStackPages();
      if pa == 0 {
        Untouched(w, WorldWith(areas));
        return false;
      }
      ghost var m1, r1 := vm.ram.frames, vm.alloc.refs;
      StackAddress(pa);
      ok := RootFor(c, pa);
      if ok {
        AfterBuild(w, m1, r1, WorldWith(areas[c := t]), pa / 4096);
        NewStackKeeps(w, WorldWith(areas[c := t]), c, pa / 4096, t);
        FreshStackUnshared(w, WorldWith(areas[c := t]), c, pa / 4096);
        StackIsMapped(stray, vm.Stray(), w.spaces, c, pa / 4096, vm.alloc.leakWarned);
      } else {
        AfterBuild(w, m1, r1, WorldWith(areas), pa / 4096);
        FreeStackPages(w, areas, pa / 4096);
        FewerLost(stray, vm.Stray(), spaces, vm.alloc.leakWarned);
      }
    }

    /** The new root becomes the address space of process c. */
    method AdoptSpace(c: nat, satp: nat, pa: nat, ghost m1: Memory, ghost roots1: set<nat>)
      requires vm.Valid() && vm.Booted() && vm.kernelRoot == kmap.root && kmap.image == ImageSpace(kmap.space, image)
      requires RomOk()
      requires RootsApart(procs) && AllSpacesOk(procs, spaces, m1, roots1, kmap)
               && SameSpaces(m1, vm.ram.frames, roots1)
      requires ImageOk(image) && c < PROC_MAX && procs[c].state != Unused && procs[c].isUser && procs[c].satp == 0
               && satp != 0
      requires RootFromSatp(satp) < FRAMES && RootFromSatp(satp) !in roots1 && vm.roots == roots1 + {RootFromSatp(satp)}
      requires vm.SpaceOf(RootFromSatp(satp))
               == Overlay(OverlayAll(kmap.space, image), STACK_PAGE, 2, pa / 4096, STACK_PERM)
      modifies this`procs, this`spaces
      ensures HeapOk() && spaces == old(spaces)[c := StackSpace(pa / 4096)]
      ensures procs == old(procs)[c := old(procs)[c].(satp := satp, stackPa := pa)]
    {
      hide PageTables.Valid, Space, ImageSpace, ImageOk, Overlay, OverlayAll;
      KernelRootSpace(vm.ram.frames, kmap.root);
      NewSpaceParts(kmap.space, image, pa / 4096);
      AdoptLinked(procs, spaces, m1, vm.ram.frames, roots1, kmap, c, satp, pa);
      procs := procs[c := procs[c].(satp := satp, stackPa := pa)];
      spaces := spaces[c := StackSpace(pa / 4096)];
    }

    /** free_pages of the stack that was never mapped. */
    method FreeStackPages(ghost w: World, ghost areas: seq<seq<UserVma>>, f: nat)
      requires HeapOk() && Inv(w) && f + 1 < FRAMES
      requires Fresh(w, WorldWith(areas), f) && Fresh(w, WorldWith(areas), f + 1)
      requires CountsKept(w, WorldWith(areas), {}) && DataKept(w, WorldWith(areas))
      requires w.spaces == spaces && w.areas == areas
      modifies vm.alloc, vm.alloc.repr
      ensures HeapOk() && fresh(vm.alloc.repr - old(vm.alloc.repr)) && Inv(WorldWith(areas))
      ensures forall j | 0 <= j < PROC_MAX :: SameView(w, WorldWith(areas), j)
      ensures Falls(old(vm.alloc.Level()), vm.alloc.Level())
      ensures vm.alloc.leakWarned || vm.Stray() <= old(vm.Stray()) - {f, f + 1}
    {
      hide Trees, Space, KernelRootOk, ImageSpace, PageAllocator.Valid, TablesHeld, Dropped, Linked, CountsOk,
        SharingOk, AreasOk, PagesOk, View, StrayFrames;
      ghost var w2 := WorldWith(areas);
      BootFacts();
      FreshUnshared(w, w2, f);
      FreshUnshared(w, w2, f + 1);
      ManagedFrame(f);
      ManagedFrame(f + 1);
      ghost var r := vm.alloc.refs;
      var panicked, moments := vm.alloc.FreePages(Bytes(f), 2);
      StrayAfterBoth(r, vm.alloc.refs, vm.alloc.freeFrame, vm.Tables() + vm.abandoned, f, vm.alloc.OutOfNodes()
                     && vm.alloc.leakWarned);
      TwoDropped(r, vm.alloc.refs, vm.alloc.freeFrame, f, vm.alloc.OutOfNodes()
                 && vm.alloc.leakWarned, vm.roots, vm.own);
      GrownAfterTwo(w, w2, WorldWith(areas), f);
      GrownKeeps(w, WorldWith(areas));
    }

    lemma EmbryoSpace(c: nat)
      requires HeapOk() && c < PROC_MAX && !procs[c].Live()
      ensures spaces[c] == map[]
    {
      assert SpaceOk(procs[c], spaces[c], vm.ram.frames, vm.roots, kmap);
    }

    // -------------------------------------------------------------------
    // Fork.

    /** One page of proc_vm_clone: parent and child map the frame without W. */
    method CloneOnePage(c: nat, p: nat, prot: Prot) returns (rc: int)
      requires Valid() && procs[current].Live() && c < PROC_MAX && c != current && procs[c].Live() && Region(p)
      requires Granted(p) == Some(prot) && prot.w && procs[c].vmas == procs[current].vmas
      requires Unshared(spaces, c, p) && (p in View(Snapshot(), c) ==> View(Snapshot(), c)[p].data == ZeroFrame())
      modifies vm`own, vm.alloc, vm.alloc.repr, vm.ram, this`spaces
      ensures Valid() && fresh(vm.alloc.repr - old(vm.alloc.repr)) && (rc == 0 || rc == -1)
      ensures rc == -1 ==> vm.alloc.Level().room < 4096
      ensures OthersSame(old(Snapshot()), Snapshot(), c)
      ensures rc == 0 ==> View(Snapshot(), c) == PageTaken(old(View(Snapshot(), c)), old(View(Snapshot(), current)), p)
      ensures OnlyPage(old(spaces), spaces, p)
      ensures rc == 0 && !(prot.r || prot.x) && p in old(spaces)[current] ==>
                Forgotten(Snapshot(), old(spaces)[current][p].frame)
      ensures Falls(old(vm.alloc.Level()), vm.alloc.Level())
      ensures prot.r || prot.x ==> Spared(old(vm.alloc.Level()), old(Lost()), vm.alloc.Level(), Lost())
    {
      hide PageAllocator.Valid, Trees, TablesHeld, Space, KernelRootOk, ImageSpace, Kept, CountsOk, SharingOk,
        AreasOk, PagesOk, Linked, ProtAt, View, ProcsOk, ImageOk, Sharers, OnlyPage, Shareable, Unshared,
        Forgotten, LostFrames, StrayFrames, Kernel.HeapOk, Content, Held, AreasOf, PageTables.Tables;
      ghost var w := Snapshot();
      BothSee(w, current, c, p, prot);
      OnlyPageRefl(spaces, p);
      var found, f, perm := QueryIn(current, p);
      if !found {
        NothingToTake(w, current, c, p);
        return 0;
      }
      var had, g, childPerm := QueryIn(c, p);
      MappedFrame(w, current, p);
      NotShared(w, current, c, p);
      rc := ProtectPage(p, f, prot);
      ghost var w1 := Snapshot();
      BothSee(w1, current, c, p, prot);
      assert SameView(w, w1, current) && SameView(w, w1, c);
      rc := SharePage(c, p, f, prot, had, g);
      ViewsTransitive(w, w1, Snapshot(), c);
      OnlyPageTwice(w.spaces, w1.spaces, spaces, p);
    }

    /** The parent's entry loses W. It is mapped, so this cannot fail. */
    method ProtectPage(p: nat, f: nat, prot: Prot) returns (rc: int)
      requires Valid() && procs[current].Live() && Region(p) && Granted(p) == Some(prot) && prot.w
      requires p in spaces[current] && spaces[current][p].frame == f
      modifies vm`own, vm.alloc, vm.alloc.repr, vm.ram, this`spaces
      ensures Valid() && rc == 0 && fresh(vm.alloc.repr - old(vm.alloc.repr))
      ensures forall j | 0 <= j < PROC_MAX :: SameView(old(Snapshot()), Snapshot(), j)
      ensures spaces == old(spaces)[current := Mapped(old(spaces)[current], p, UserLeaf(f, prot.(w := false)))]
      ensures p !in spaces[current] ==> Sharers(spaces, f) == {}
      ensures !(prot.r && prot.w) ==> Content(spaces[current], vm.ram.frames, p) == ZeroFrame()
      ensures Shareable(f)
      ensures Falls(old(vm.alloc.Level()), vm.alloc.Level())
      ensures prot.r || prot.x ==> Spared(old(vm.alloc.Level()), old(Lost()), vm.alloc.Level(), Lost())
    {
      hide PageAllocator.Valid, Trees, TablesHeld, Space, KernelRootOk, ImageSpace, CountsOk, SharingOk, AreasOk,
        PagesOk, Linked, ProtAt, View, ProcsOk, ImageOk, SameView, CountsKept, DataKept, Kept, Sharers, Content,
        Mapped, UserLeaf, LostFrames, StrayFrames, PageTables.Tables, PageTables.Stray;
      ghost var w, stray := Snapshot(), vm.Stray();
      MappedFrame(w, current, p);
      SharersBounded(spaces, f);
      rc := MapIn(current, p, f, prot.(w := false));
      if rc < 0 {
        assert false;
      }
      KeptCounts(w, Snapshot());
      ProtectKeeps(w, Snapshot(), current, p, prot);
      if prot.r || prot.x {
        ReadableLeaf(f, prot);
        RemapSpares(w, stray, vm.Stray(), spaces, current, p, UserLeaf(f, prot.(w := false)), false);
      }
    }

    /** Frame f is a managed page in use, no table, and its count is far from wrapping. */
    ghost predicate Shareable(f: nat)
      reads vm`roots, vm`own, vm`abandoned, vm.alloc`refs
    {
      && f < FRAMES && f !in vm.Tables() && Held(vm.alloc.refs, vm.alloc.freeFrame, f)
      && vm.alloc.refs[f - vm.alloc.freeFrame] <= PROC_MAX
    }

    /** One more reference and an entry without W for the child; or neither. */
    method MapShared(c: nat, p: nat, f: nat, prot: Prot) returns (rc: int)
      requires Valid() && c < PROC_MAX && procs[c].Live() && Region(p) && Shareable(f)
      modifies vm`own, vm.alloc, vm.alloc.repr, vm.ram, this`spaces
      ensures HeapOk() && fresh(vm.alloc.repr - old(vm.alloc.repr)) && (rc == 0 || rc == -1)
      ensures rc == -1 ==> vm.alloc.Level().room < 4096
      ensures rc == -1 ==> Snapshot() == old(Snapshot())
      ensures rc == 0 ==> CountsKept(old(Snapshot()), Snapshot(), {f}) && DataKept(old(Snapshot()), Snapshot())
                          && Gained(old(Snapshot()), Snapshot(), f)
                          && spaces == old(spaces)[c := Mapped(old(spaces)[c], p, UserLeaf(f, prot.(w := false)))]
      ensures vm.Stray() <= old(vm.Stray()) && Falls(old(vm.alloc.Level()), vm.alloc.Level())
    {
      hide PageAllocator.Valid, Trees, TablesHeld, Space, KernelRootOk, ImageSpace, Kept, CountsOk, SharingOk,
        AreasOk, PagesOk, Linked, ProcsOk, ImageOk, CountsKept, DataKept, Gained, Sharers, Mapped, UserLeaf,
        LostFrames, StrayFrames, Kernel.HeapOk, PageTables.Stray, PageTables.Tables;
      ghost var w := Snapshot();
      IncFrame(f);
      ghost var r2 := vm.alloc.refs;
      rc := MapIn(c, p, f, prot.(w := false));
      if rc < 0 {
        DecFrame(f);
        assert vm.alloc.refs == w.refs;
        return;
      }
      AfterShare(w, r2, Snapshot(), f);
    }

    /** The child's entry joins the parent's; a page the child had is freed. When the
        child cannot have a table for it the reference is dropped again. */
    method SharePage(c: nat, p: nat, f: nat, prot: Prot, had: bool, g: nat) returns (rc: int)
      requires Valid() && procs[current].Live() && c < PROC_MAX && c != current && procs[c].Live() && Region(p)
      requires ProtAt(procs[c].vmas, p) == Some(prot) && prot.w && Shareable(f)
      requires p in spaces[current] <==> UserLeaf(f, prot.(w := false)).Some?
      requires p in spaces[current] ==> spaces[current][p] == UserLeaf(f, prot.(w := false)).value
      requires p !in spaces[current] ==> Sharers(spaces, f) == {}
      requires had <==> p in spaces[c]
      requires had ==> spaces[c][p].frame == g && g != f
      requires !(prot.r && prot.w) ==> Content(spaces[current], vm.ram.frames, p) == ZeroFrame()
      modifies vm`own, vm.alloc, vm.alloc.repr, vm.ram, this`spaces
      ensures Valid() && fresh(vm.alloc.repr - old(vm.alloc.repr)) && (rc == 0 || rc == -1)
      ensures rc == -1 ==> vm.alloc.Level().room < 4096
      ensures OthersSame(old(Snapshot()), Snapshot(), c)
      ensures rc == 0 ==> View(Snapshot(), c)
                          == if p in old(View(Snapshot(), c))
                             then old(View(Snapshot(), c))
                                  [p := Cell(prot, Content(old(spaces)[current], old(vm.ram.frames), p))]
                             else old(View(Snapshot(), c))
      ensures OnlyPage(old(spaces), spaces, p)
      ensures rc == 0 && !(prot.r || prot.x) ==> Forgotten(Snapshot(), f)
      ensures Falls(old(vm.alloc.Level()), vm.alloc.Level())
      ensures prot.r || prot.x ==> Spared(old(vm.alloc.Level()), old(Lost()), vm.alloc.Level(), Lost())
    {
      hide PageAllocator.Valid, Trees, TablesHeld, Space, KernelRootOk, ImageSpace, CountsOk, SharingOk, AreasOk,
        PagesOk, Linked, ProtAt, View, ProcsOk, ImageOk, SameView, CountsKept, DataKept, Gained, Released, Sharers,
        Content, Mapped, UserLeaf, CountOk, OnlyPage, Forgotten, LostFrames, StrayFrames, PageTables.Stray,
        OneDropped, Held, PageTables.Tables, Perm.Leaf, AreasOf;
      ghost var w, stray := Snapshot(), vm.Stray();
      ReadableLeaf(f, prot);
      rc := MapShared(c, p, f, prot);
      if rc < 0 {
        Untouched(w, Snapshot());
        FewerLost(stray, vm.Stray(), spaces, false);
        OnlyPageRefl(spaces, p);
        return;
      }
      ghost var w3 := Snapshot();
      if had && g != f {
        MappedFrame(w, c, p);
        StillHeld(w, w3, g, f);
        FreeFrame(g);
        AfterShareDrop(w, w3, Snapshot(), f, g);
      }
      ShareKeeps(w, Snapshot(), current, c, p, f, prot);
      if prot.r || prot.x {
        RemapSpares(w, stray, vm.Stray(), spaces, c, p, UserLeaf(f, prot.(w := false)), vm.alloc.leakWarned);
      }
      ShareForgets(w, Snapshot(), c, p, f, prot);
      OnlyPageOne(w.spaces, c, p, UserLeaf(f, prot.(w := false)));
    }

    /** The pages of the writable area k, one after the other. */
    method CloneArea(c: nat, k: nat, ghost parent: map<nat, Cell>, ghost done0: set<nat>)
      returns (rc: int, ghost done: set<nat>)
      requires Valid() && procs[current].Live() && c < PROC_MAX && c != current && procs[c].Live()
      requires procs[c].vmas == procs[current].vmas && k < |procs[c].vmas|
      requires procs[c].vmas[k].used && procs[c].vmas[k].prot.w && forall q | q in done0 :: !procs[c].vmas[k].Has(q)
      requires parent == View(Snapshot(), current) && CloneSoFar(parent, View(Snapshot(), c), spaces, c, done0)
      modifies vm`own, vm.alloc, vm.alloc.repr, vm.ram, this`spaces
      ensures Valid() && fresh(vm.alloc.repr - old(vm.alloc.repr)) && (rc == 0 || rc == -1)
      ensures rc == -1 ==> vm.alloc.Level().room < 4096
      ensures OthersSame(old(Snapshot()), Snapshot(), c)
      ensures rc == 0 ==> CloneSoFar(parent, View(Snapshot(), c), spaces, c, done)
      ensures rc == 0 ==> forall q :: q in done <==> q in done0 || procs[c].vmas[k].Has(q)
      ensures Falls(old(vm.alloc.Level()), vm.alloc.Level())
      ensures procs[c].vmas[k].prot.r || procs[c].vmas[k].prot.x ==>
                Spared(old(vm.alloc.Level()), old(Lost()), vm.alloc.Level(), Lost())
    {
      hide Valid, View, SameView, CloneSoFar, PageTaken, OnlyPage, AreasOk, Sharers, AreasOf, ProtAt, SharingOk,
        Lost, Inv, PageTables.Tables, Unshared, AllZero, ProcsOk;
      done := done0;
      SharingFacts();
      ghost var w := Snapshot();
      WritableArea(k);
      Refl(w, c);
      var v := procs[current].vmas[k];
      var va := v.start;
      while va < v.end
        invariant v.start <= va <= v.end && Aligned(va) && Valid() && |spaces| == PROC_MAX
                  && fresh(vm.alloc.repr - old(vm.alloc.repr))
        invariant OthersSame(w, Snapshot(), c) && CloneSoFar(parent, View(Snapshot(), c), spaces, c, done)
        invariant forall q :: q in done <==> q in done0 || v.start <= Bytes(q) < va
        invariant Falls(old(vm.alloc.Level()), vm.alloc.Level())
        invariant v.prot.r || v.prot.x ==> Spared(old(vm.alloc.Level()), old(Lost()), vm.alloc.Level(), Lost())
      {
        ghost var w1, p := Snapshot(), va / 4096;
        RangePage(va, v.end);
        PageOfArea(k, va);
        StillParent(w, w1, current, c);
        CloneAt(parent, View(w1, c), spaces, c, done, p);
        rc := CloneOnePage(c, va / 4096, v.prot);
        SharingFacts();
        ViewsTransitive(w, w1, Snapshot(), c);
        if rc < 0 {
          return;
        }
        CloneStep(parent, View(w1, c), View(Snapshot(), c), w1.spaces, spaces, c, done, p);
        done := done + {p};
        va := va + 4096;
      }
      rc := 0;
    }

    /** Without W an entry with R or X still maps its page. */
    lemma ReadableLeaf(f: nat, prot: Prot)
      ensures UserLeaf(f, prot.(w := false)).Some? <==> prot.r || prot.x
      ensures prot.r || prot.x ==> UserLeaf(f, prot.(w := false)).value.frame == f
    {}

    lemma SharingFacts()
      requires Valid()
      ensures Inv(Snapshot()) && SharingOk(spaces) && |spaces| == PROC_MAX && |procs| == PROC_MAX && current < PROC_MAX
    {}

    lemma WritableArea(k: nat)
      requires Valid() && k < |procs[current].vmas| && procs[current].vmas[k].used && procs[current].vmas[k].prot.w
      ensures var v := procs[current].vmas[k];
              MMAP_BASE <= v.start < v.end && v.end <= STACK_TOP && Aligned(v.start) && Aligned(v.end)
    {
      AreasFacts(current);
      assert Placed(procs[current].vmas[k]);
    }

    lemma PageOfArea(k: nat, va: nat)
      requires Valid() && k < |procs[current].vmas| && procs[current].vmas[k].used && Aligned(va)
      requires procs[current].vmas[k].start <= va < procs[current].vmas[k].end
      ensures Bytes(va / 4096) == va && procs[current].vmas[k].Has(va / 4096)
      ensures Granted(va / 4096) == Some(procs[current].vmas[k].prot)
    {
      hide Kernel.Lost, Sharers, PageTables.Tables;
      AreasFacts(current);
      ProtOf(procs[current].vmas, k, va / 4096);
    }

    lemma GrantedSeen(p: nat)
      requires Valid()
      ensures Region(p) && Granted(p).Some? ==>
                p in View(Snapshot(), current) && View(Snapshot(), current)[p].prot == Granted(p).value
    {}

    /** proc_vm_clone: afterwards the child sees what the parent sees. Nobody else,
        the parent included, sees any change, even when it fails half-way. */
    method ProcVmClone(c: nat) returns (rc: int)
      requires Valid() && procs[current].Live() && c < PROC_MAX && c != current && procs[c].Live()
      requires procs[c].vmas == procs[current].vmas && AllZero(View(Snapshot(), c)) && forall p: nat ::
                 Unshared(spaces, c, p)
      modifies vm`own, vm.alloc, vm.alloc.repr, vm.ram, this`spaces
      ensures Valid() && fresh(vm.alloc.repr - old(vm.alloc.repr)) && (rc == 0 || rc == -1)
      ensures rc == -1 ==> vm.alloc.Level().room < 4096
      ensures OthersSame(old(Snapshot()), Snapshot(), c)
      ensures rc == 0 ==> View(Snapshot(), c) == old(View(Snapshot(), current))
      ensures Falls(old(vm.alloc.Level()), vm.alloc.Level())
      ensures NoWriteOnly(old(procs)[current].vmas) ==>
                Spared(old(vm.alloc.Level()), old(Lost()), vm.alloc.Level(), Lost())
    {
      hide Valid, View, SameView, CloneSoFar, AreasOk, AllZero, Unshared, LostFrames, StrayFrames, UserVma.Has,
        VmasOk, PageTables.Tables, Kernel.Lost, Sharers, SharingOk, PageAllocator.Level;
      SharingFacts();
      ghost var w := Snapshot();
      ghost var parent, done := View(w, current), {};
      Refl(w, c);
      CloneStart(w, current, c);
      FaultPage(0);
      ghost var vmas := procs[c].vmas;
      var k := 0;
      while k < VMA_MAX
        invariant 0 <= k <= VMA_MAX && Valid() && |spaces| == PROC_MAX && fresh(vm.alloc.repr - old(vm.alloc.repr))
        invariant OthersSame(w, Snapshot(), c) && CloneSoFar(parent, View(Snapshot(), c), spaces, c, done)
        invariant DoneAreas(vmas, k, done)
        invariant Falls(old(vm.alloc.Level()), vm.alloc.Level())
        invariant NoWriteOnly(old(procs)[current].vmas) ==>
                    Spared(old(vm.alloc.Level()), old(Lost()), vm.alloc.Level(), Lost())
      {
        if procs[current].vmas[k].used && procs[current].vmas[k].prot.w {
          ghost var w1, done1 := Snapshot(), done;
          StillParent(w, w1, current, c);
          AreaNotDone(vmas, k, done);
          rc, done := CloneArea(c, k, parent, done);
          SharingFacts();
          ViewsTransitive(w, w1, Snapshot(), c);
          if rc < 0 {
            return;
          }
          AreaDone(vmas, k, done1, done);
        } else {
          AreaSkipped(vmas, k, done);
        }
        k := k + 1;
      }
      rc := 0;
      SharingFacts();
      CloneEnd(w, Snapshot(), current, c, done);
    }

    /** init_process_common, and the stack the process will have. */
    method InitProcess(c: nat, pid: nat, parentPid: nat, stackBase: nat, stackPages: nat)
      requires HeapOk() && c < PROC_MAX && procs[c] == UNUSED
      modifies this`procs
      ensures HeapOk() && procs == old(procs)[c := Embryo(pid, parentPid, stackBase, stackPages)]
      ensures AreasOf(procs) == AreasOf(old(procs)) && spaces[c] == map[]
    {
      hide PageTables.Valid, PageTables.Booted;
      EmbryoLinked(procs, spaces, vm.ram.frames, vm.roots, kmap, c, Embryo(pid, parentPid, stackBase, stackPages));
      procs := procs[c := Embryo(pid, parentPid, stackBase, stackPages)];
    }

    /** proc_fork: the child sees exactly what the parent sees, and no process sees any
        change. When it fails the process table is as it was and nobody sees a change. */
    method Fork(hasFrame: bool, sp: nat) returns (rc: int)
      requires Valid()
      modifies this`procs, this`spaces, vm`roots, vm`own, vm`abandoned, vm.alloc, vm.alloc.repr, vm.ram
      ensures Valid() && fresh(vm.alloc.repr - old(vm.alloc.repr))
      ensures rc == -1 || 1 <= rc <= PROC_MAX
      ensures rc == -1 ==> !old(procs)[current].isUser || !hasFrame || !SpOk(old(procs)[current], sp)
                           || (forall i | 0 <= i < PROC_MAX :: old(procs)[i].state != Unused)
                           || vm.alloc.Level().room < 8192
      ensures rc == -1 ==> procs == old(procs) && forall j | 0 <= j < PROC_MAX ::
                SameView(old(Snapshot()), Snapshot(), j)
      ensures rc != -1 ==> old(procs)[current].isUser && hasFrame && SpOk(old(procs)[current], sp)
      ensures rc != -1 ==> old(procs)[rc - 1].state == Unused && procs == old(procs)[rc - 1 := procs[rc - 1]]
                           && IsChild(old(procs)[current], procs[rc - 1], rc)
                           && procs[rc - 1].stackPa == old(procs)[current].stackPa
      ensures rc != -1 ==> View(Snapshot(), rc - 1) == old(View(Snapshot(), current))
                           && OthersSame(old(Snapshot()), Snapshot(), rc - 1)
      ensures Falls(old(vm.alloc.Level()), vm.alloc.Level())
      ensures NoWriteOnly(old(procs)[current].vmas) ==>
                Spared(old(vm.alloc.Level()), old(Lost()), vm.alloc.Level(), Lost())
    {
      hide HeapOk, Inv, View, SameView, ProcsOk, AreasOk, ImageOk, AllZero, Unshared, SpOk, LostFrames,
        StrayFrames, NoWriteOnly, SharingOk, Sharers, PageTables.Valid, VmasOk, PageAllocator.Level,
        PageTables.Tables;
      SharingFacts();
      Untouched(Snapshot(), Snapshot());
      if !procs[current].isUser || !hasFrame {
        return -1;
      }
      FaultPage(0);
      ghost var w := Snapshot();
      var c := AllocProcessSlot(procs);
      if c == PROC_MAX {
        return -1;
      }
      ProcFacts(c);
      NothingToSee(w, c);
      var ok := ForkSpace(c);
      if !ok {
        return -1;
      }
      SharingFacts();
      ghost var w1 := Snapshot();
      rc := FinishFork(c, sp);
      SharingFacts();
      if rc < 0 {
        UnseenAgain(w, w1, Snapshot(), c);
      } else {
        ViewsTransitive(w, w1, Snapshot(), c);
        StillParent(w, w1, current, c);
      }
    }

    /** The stack pointer is checked and the memory cloned; or the child is given up. */
    method FinishFork(c: nat, sp: nat) returns (rc: int)
      requires Valid() && procs[current].Live() && c < PROC_MAX && c != current && procs[c].Live()
      requires IsChild(procs[current], procs[c], c + 1)
      requires AllZero(View(Snapshot(), c)) && forall p: nat :: Unshared(spaces, c, p)
      modifies this`procs, vm`own, vm.alloc, vm.alloc.repr, vm.ram, this`spaces
      ensures Valid() && fresh(vm.alloc.repr - old(vm.alloc.repr)) && (rc == -1 || rc == c + 1)
      ensures OthersSame(old(Snapshot()), Snapshot(), c)
      ensures rc == -1 ==> !SpOk(procs[current], sp) || vm.alloc.Level().room < 4096
      ensures rc == -1 ==> procs == old(procs)[c := UNUSED] && View(Snapshot(), c) == map[]
      ensures rc != -1 ==> SpOk(procs[current], sp) && procs == old(procs)[c := procs[c]]
                           && IsChild(procs[current], procs[c], c + 1)
                           && procs[c].stackPa == procs[current].stackPa
                           && View(Snapshot(), c) == old(View(Snapshot(), current))
      ensures Falls(old(vm.alloc.Level()), vm.alloc.Level())
      ensures NoWriteOnly(old(procs)[current].vmas) ==>
                Spared(old(vm.alloc.Level()), old(Lost()), vm.alloc.Level(), Lost())
    {
      hide HeapOk, Inv, View, SameView, ProcsOk, AreasOk, ImageOk, AllZero, Unshared, SpOk, LostFrames, StrayFrames,
        NoWriteOnly, SharingOk, Sharers;
      SharingFacts();
      ghost var w := Snapshot();
      if !SpOk(procs[current], sp) {
        Discard(c);
        SharingFacts();
        return -1;
      }
      rc := ProcVmClone(c);
      ghost var w1 := Snapshot();
      SharingFacts();
      if rc < 0 {
        Discard(c);
        SharingFacts();
        ViewsTransitive(w, w1, Snapshot(), c);
        return -1;
      }
      SetStackPa(c, procs[current].stackPa);
      return procs[c].pid;
    }

    /** What fork and create_user_process have in common: the embryo, its stack and its
        root, which make its memory one with the areas t, all zero; or nothing. */
    method NewProcess(c: nat, parentPid: nat, stackBase: nat, stackPages: nat, ghost t: seq<UserVma>) returns (ok: bool)
      requires Valid() && c < PROC_MAX && procs[c].state == Unused && stackBase == STACK_BASE && stackPages == 2
      requires AreasOk(t) && HasStack(t)
      modifies this`procs, this`spaces, vm`roots, vm`own, vm`abandoned, vm.alloc, vm.alloc.repr, vm.ram
      ensures HeapOk() && fresh(vm.alloc.repr - old(vm.alloc.repr))
      ensures !ok ==> Valid() && vm.alloc.Level().room < 8192
      ensures !ok ==> procs == old(procs) && forall j | 0 <= j < PROC_MAX :: SameView(old(Snapshot()), Snapshot(), j)
      ensures ok ==> procs[c].satp != 0 && AreasOf(procs) == old(AreasOf(procs))
      ensures ok ==> procs == old(procs)[c := Embryo(c + 1, parentPid, stackBase, stackPages)
                                              .(satp := procs[c].satp, stackPa := procs[c].stackPa)]
      ensures ok ==> Inv(WorldWith(AreasOf(procs)[c := t]))
      ensures ok ==> OthersSame(old(Snapshot()), WorldWith(AreasOf(procs)[c := t]), c)
      ensures ok ==> AllZero(View(WorldWith(AreasOf(procs)[c := t]), c)) && forall p: nat :: Unshared(spaces, c, p)
      ensures Spared(old(vm.alloc.Level()), old(Lost()), vm.alloc.Level(), Lost())
    {
      hide HeapOk, Inv, View, SameView, AreasOk, ImageOk, AllZero, Unshared, HasStack, ImageCovered, AreasOf, ProcsOk,
        LostFrames, StrayFrames, Kernel.Lost;
      SharingFacts();
      ProcFacts(c);
      ghost var areas := AreasOf(procs);
      InitProcess(c, c + 1, parentPid, stackBase, stackPages);
      ok := NewSpace(c, areas, t);
      if !ok {
        MarkUnused(c);
        assert procs == old(procs);
      }
    }

    /** The child's slot, stack, root and areas, or nothing at all. */
    method ForkSpace(c: nat) returns (ok: bool)
      requires Valid() && procs[current].Live() && c < PROC_MAX && procs[c].state == Unused
      modifies this`procs, this`spaces, vm`roots, vm`own, vm`abandoned, vm.alloc, vm.alloc.repr, vm.ram
      ensures Valid() && fresh(vm.alloc.repr - old(vm.alloc.repr))
      ensures !ok ==> vm.alloc.Level().room < 8192
      ensures !ok ==> procs == old(procs) && forall j | 0 <= j < PROC_MAX :: SameView(old(Snapshot()), Snapshot(), j)
      ensures ok ==> procs == old(procs)[c := procs[c]] && IsChild(old(procs)[current], procs[c], c + 1)
                     && procs[c].Live()
      ensures ok ==> OthersSame(old(Snapshot()), Snapshot(), c) && AllZero(View(Snapshot(), c))
      ensures ok ==> forall p: nat :: Unshared(spaces, c, p)
      ensures Spared(old(vm.alloc.Level()), old(Lost()), vm.alloc.Level(), Lost())
    {
      hide HeapOk, Inv, View, SameView, AreasOk, ImageOk, AllZero, Unshared, HasStack, ImageCovered, AreasOf,
        LostFrames, StrayFrames;
      SharingFacts();
      UserFacts();
      ProcFacts(c);
      ProcFacts(current);
      var parent := procs[current];
      ok := NewProcess(c, parent.pid, parent.stackBase, parent.stackPages, parent.vmas);
      if !ok {
        return;
      }
      SetVmas(c, parent.vmas);
      ProcsOkWith(old(procs), procs, kmap.image, c);
    }

    /** The kernel remembers the parent's stack frames as the child's, too. */
    method SetStackPa(c: nat, pa: nat)
      requires Valid() && c < PROC_MAX && procs[c].Live()
      modifies this`procs
      ensures Valid() && procs == old(procs)[c := old(procs)[c].(stackPa := pa)] && Snapshot() == old(Snapshot())
    {
      hide PageTables.Valid, PageTables.Booted, Inv;
      ProcFacts(c);
      EmbryoLinked(procs, spaces, vm.ram.frames, vm.roots, kmap, c, procs[c].(stackPa := pa));
      procs := procs[c := procs[c].(stackPa := pa)];
      assert AreasOf(procs) == AreasOf(old(procs));
    }

    /** create_user_process: a slot with a zeroed stack and the program image; PROC_MAX
        stands for NULL, and then the table and all memories are as they were; tables of
        a root that could not be completed stay allocated. */
    method CreateUserProcess() returns (c: nat)
      requires Valid()
      modifies this`procs, this`spaces, vm`roots, vm`own, vm`abandoned, vm.alloc, vm.alloc.repr, vm.ram
      ensures Valid() && fresh(vm.alloc.repr - old(vm.alloc.repr)) && c <= PROC_MAX
      ensures c == PROC_MAX ==> (forall i | 0 <= i < PROC_MAX :: procs[i].state != Unused)
                                || vm.alloc.Level().room < 8192
      ensures c == PROC_MAX ==> procs == old(procs) && forall j | 0 <= j < PROC_MAX ::
                SameView(old(Snapshot()), Snapshot(), j)
      ensures c < PROC_MAX ==> old(procs)[c].state == Unused && procs == old(procs)[c := procs[c]]
      ensures c < PROC_MAX ==> procs[c].state == Runnable && procs[c].pid == c + 1 && procs[c].parentPid == 0
                               && procs[c].Live()
      ensures c < PROC_MAX ==> OthersSame(old(Snapshot()), Snapshot(), c) && View(Snapshot(), c) == FreshStack()
      ensures Spared(old(vm.alloc.Level()), old(Lost()), vm.alloc.Level(), Lost())
    {
      hide HeapOk, Inv, View, SameView, AreasOk, AllZero, Unshared, HasStack, ImageCovered, AreasOf, ImageOk,
        VmasOk, AllPlaced, Sharers, FreshStack, SharingOk, LostFrames, StrayFrames, PageTables.Tables,
        PageTables.Valid, ProtAt;
      SharingFacts();
      c := AllocProcessSlot(procs);
      if c == PROC_MAX {
        Untouched(Snapshot(), Snapshot());
        return;
      }
      StackBounds();
      ghost var t0 := StackTable();
      StackTableOk();
      var ok := NewProcess(c, 0, STACK_TOP - Bytes(2), 2, t0);
      if !ok {
        c := PROC_MAX;
        return;
      }
      ghost var w0 := WorldWith(AreasOf(procs)[c := t0]);
      var rc, t := InitAreas(image, procs[c].stackBase, procs[c].stackPages);
      if rc < 0 {
        assert false;
      }
      SetVmas(c, t);
      ImageIs();
      InitCovered(kmap.space, image, t);
      ProcsOkWith(old(procs), procs, kmap.image, c);
      assert Snapshot().areas == w0.areas[c := t];
      FreshAreas(w0, Snapshot(), c, t, image);
      ViewsTransitive(old(Snapshot()), w0, Snapshot(), c);
    }

    lemma ImageIs()
      requires HeapOk()
      ensures kmap.image == ImageSpace(kmap.space, image)
    {}

    // -------------------------------------------------------------------
    // Exec, exit and reaping.

    /** One area of proc_vm_reset. */
    method DropArea(k: nat)
      requires Valid() && procs[current].Live() && k < |procs[current].vmas|
      requires procs[current].vmas[k].used && InWindow(procs[current].vmas[k])
      modifies this`procs, vm.alloc, vm.alloc.repr, vm.ram, this`spaces
      ensures Valid() && fresh(vm.alloc.repr - old(vm.alloc.repr))
      ensures procs == old(procs)[current := old(procs)[current].(vmas := old(procs)[current].vmas[k := NO_VMA])]
      ensures OthersSame(old(Snapshot()), Snapshot(), current)
      ensures Shrunk(old(View(Snapshot(), current)), View(Snapshot(), current))
      ensures Spared(old(vm.alloc.Level()), old(Lost()), vm.alloc.Level(), Lost())
    {
      hide HeapOk, Inv, View, SameView, ProcsOk, IsCut, Cutout, Zeroed, Without, RangeFree, VmasOk, AllPlaced, ImageOk,
        Shrunk, LostFrames, StrayFrames;
      ghost var areas := AreasOf(procs);
      ghost var w := Snapshot();
      SharingFacts();
      UserFacts();
      var v := procs[current].vmas[k];
      ghost var t := procs[current].vmas[k := NO_VMA];
      DropIsCut(procs[current].vmas, k);
      CutProcOk(procs, kmap.image, current, t, v.start, v.end);
      UnmapRange(current, v.start, v.end, areas);
      CutoutApart(old(spaces)[current], v.start, v.end);
      ghost var w1 := WorldWith(areas);
      SetVmas(current, procs[current].vmas[k := NO_VMA]);
      CutKeeps(w1, Snapshot(), current, t, v.start, v.end);
      WithoutZeroed(View(w, current), v.start, v.end);
      ShrunkBy(View(w, current), v.start, v.end);
      ViewsTransitive(w, w1, Snapshot(), current);
    }

    /** proc_vm_reset: the areas of the mmap window go; the stack and what it holds stay. */
    method VmReset()
      requires Valid() && procs[current].Live()
      modifies this`procs, vm.alloc, vm.alloc.repr, vm.ram, this`spaces
      ensures Valid() && fresh(vm.alloc.repr - old(vm.alloc.repr))
      ensures procs == old(procs)[current := old(procs)[current].(vmas := procs[current].vmas)]
      ensures forall j | 0 <= j < |procs[current].vmas| && procs[current].vmas[j].used ::
                !InWindow(procs[current].vmas[j])
      ensures OthersSame(old(Snapshot()), Snapshot(), current)
      ensures Shrunk(old(View(Snapshot(), current)), View(Snapshot(), current))
      ensures Spared(old(vm.alloc.Level()), old(Lost()), vm.alloc.Level(), Lost())
    {
      hide Valid, View, SameView, VmasOk, AllPlaced, Shrunk, LostFrames, StrayFrames, PageAllocator.Level, AreasOf,
        PageTables.Tables, Kernel.Lost, Sharers, SharingOk, Inv;
      SharingFacts();
      ghost var w := Snapshot();
      Refl(w, current);
      ShrunkBy(View(w, current), 0, 0);
      var k := 0;
      FaultPage(0);
      while k < VMA_MAX
        invariant 0 <= k <= VMA_MAX && Valid() && |procs| == PROC_MAX && |spaces| == PROC_MAX && procs[current].Live()
        invariant fresh(vm.alloc.repr - old(vm.alloc.repr))
        invariant procs == old(procs)[current := old(procs)[current].(vmas := procs[current].vmas)]
        invariant |procs[current].vmas| == VMA_MAX
        invariant forall j | 0 <= j < k && procs[current].vmas[j].used :: !InWindow(procs[current].vmas[j])
        invariant OthersSame(w, Snapshot(), current) && Shrunk(View(w, current), View(Snapshot(), current))
        invariant Spared(old(vm.alloc.Level()), old(Lost()), vm.alloc.Level(), Lost())
      {
        var v := procs[current].vmas[k];
        if v.used && v.start >= MMAP_BASE && v.end <= MMAP_END {
          ghost var w1 := Snapshot();
          DropArea(k);
          SharingFacts();
          ViewsTransitive(w, w1, Snapshot(), current);
          ShrunkTwice(View(w, current), View(w1, current), View(Snapshot(), current));
        }
        k := k + 1;
      }
    }

    /** proc_exec: the process keeps its stack, contents and all, and its program image,
        and loses everything it had mapped. Whether the arguments can be read was asked
        before. */
    method Exec(entry: nat, argvOk: bool) returns (rc: int)
      requires Valid()
      modifies this`procs, vm.alloc, vm.alloc.repr, vm.ram, this`spaces
      ensures Valid() && fresh(vm.alloc.repr - old(vm.alloc.repr)) && (rc == 0 || rc == -1)
      ensures rc == 0 <==> procs[current].isUser && entry != 0 && argvOk
      ensures procs == old(procs)[current := old(procs)[current].(vmas := procs[current].vmas)]
      ensures rc == -1 ==> procs == old(procs) && Snapshot() == old(Snapshot())
      ensures OthersSame(old(Snapshot()), Snapshot(), current)
      ensures rc == 0 ==> View(Snapshot(), current) == StackOnly(old(View(Snapshot(), current)))
      ensures Spared(old(vm.alloc.Level()), old(Lost()), vm.alloc.Level(), Lost())
    {
      hide Valid, View, SameView, VmasOk, AllPlaced, Shrunk, StackOnly, AreasOk, ImageOk, ProtAt, InitProt, LostFrames,
        StrayFrames;
      SharingFacts();
      ghost var w := Snapshot();
      Refl(w, current);
      if !procs[current].isUser {
        return -1;
      }
      if entry == 0 {
        return -1;
      }
      if !argvOk {
        return -1;
      }
      FaultPage(0);
      VmReset();
      ghost var w1 := Snapshot();
      SharingFacts();
      rc := VmInitCurrent();
      SharingFacts();
      ViewsTransitive(w, w1, Snapshot(), current);
      StackOnlyOfShrunk(View(w, current), View(w1, current));
    }

    /** proc_vm_init of a process that has its stack mapped and nothing else. */
    method VmInitCurrent() returns (rc: int)
      requires Valid() && procs[current].Live()
      requires forall j | 0 <= j < |procs[current].vmas| && procs[current].vmas[j].used ::
                 !InWindow(procs[current].vmas[j])
      modifies this`procs
      ensures Valid() && rc == 0
      ensures procs == old(procs)[current := old(procs)[current].(vmas := procs[current].vmas)]
      ensures OthersSame(old(Snapshot()), Snapshot(), current)
      ensures View(Snapshot(), current) == StackOnly(old(View(Snapshot(), current)))
    {
      hide HeapOk, View, SameView, VmasOk, AllPlaced, StackOnly, AreasOk, ImageOk, ProtAt, InitProt, HasStack,
        ImageCovered, CountsOk, SharingOk, PagesOk;
      SharingFacts();
      ProcFacts(current);
      ImageIs();
      ghost var w := Snapshot();
      var t;
      rc, t := InitAreas(image, procs[current].stackBase, procs[current].stackPages);
      InitCovered(kmap.space, image, t);
      StackStays(w, current, t, image);
      SetVmas(current, t);
      ProcsOkWith(old(procs), procs, kmap.image, current);
      AreasChange(w, Snapshot(), current, t);
      StackView(w, Snapshot(), current, image);
    }

    /** switch_context to a process the scheduler may pick. */
    method Switch(next: nat) returns (rc: int)
      requires Valid()
      modifies this`current
      ensures Valid() && Snapshot() == old(Snapshot())
      ensures if next < PROC_MAX && procs[next].state == Runnable then rc == 0 && current == next
              else rc == -1 && current == old(current)
    {
      hide HeapOk, Inv, ProcOk;
      if next < PROC_MAX && procs[next].state == Runnable {
        current := next;
        return 0;
      }
      return -1;
    }

    /** The memory side of proc_exit: the process is a zombie, its memory untouched until
        it is reaped, a blocked parent may run, and another process runs. */
    method Exit(status: int, next: nat) returns (rc: int)
      requires Valid()
      modifies this`procs, this`current
      ensures Valid()
      ensures rc == 0 <==> next < PROC_MAX && next != old(current) && old(procs)[next].state == Runnable
      ensures rc != 0 ==> procs == old(procs) && current == old(current)
      ensures rc == 0 ==> current == next
                          && procs[old(current)] == old(procs)[old(current)].(state := Zombie, exitStatus := status)
      ensures rc == 0 ==> forall j | 0 <= j < PROC_MAX && j != old(current) ::
                procs[j] == (if old(procs)[j].state == Blocked
                                && FirstWithPid(old(procs), j, old(procs)[old(current)].parentPid)
                             then old(procs)[j].(state := Runnable) else old(procs)[j])
      ensures forall j | 0 <= j < PROC_MAX :: SameView(old(Snapshot()), Snapshot(), j)
    {
      hide Inv, HeapOk, SameView, ProcOk, PageAllocator.Valid, ProcsOk, Kernel.Snapshot, ImageOk, Sharers,
        SharingOk;
      SharingFacts();
      Untouched(Snapshot(), Snapshot());
      if !(next < PROC_MAX && next != current && procs[next].state == Runnable) {
        return -1;
      }
      var parent := procs[current].parentPid;
      ChangeState(current, Zombie, status);
      var p := FindByPid(procs, parent);
      if p < PROC_MAX && procs[p].state == Blocked {
        ChangeState(p, Runnable, procs[p].exitStatus);
      }
      current := next;
      rc := 0;
    }

    /** A process changes its state; its memory does not. */
    method ChangeState(i: nat, state: State, status: int)
      requires HeapOk() && ProcsOk(procs, kmap.image) && i < PROC_MAX && procs[i].state != Unused && state != Unused
      modifies this`procs
      ensures HeapOk() && ProcsOk(procs, kmap.image) && Snapshot() == old(Snapshot())
      ensures procs == old(procs)[i := old(procs)[i].(state := state, exitStatus := status)]
    {
      hide PageTables.Valid, PageTables.Booted, AllSpacesOk;
      EmbryoLinked(procs, spaces, vm.ram.frames, vm.roots, kmap, i, procs[i].(state := state, exitStatus := status));
      procs := procs[i := procs[i].(state := state, exitStatus := status)];
      ProcsOkWith(old(procs), procs, kmap.image, i);
      assert AreasOf(procs) == AreasOf(old(procs));
    }

    /** proc_vm_release and mark_process_unused, on a zombie. */
    method Reap(i: nat)
      requires Valid() && i < PROC_MAX && procs[i].state == Zombie
      modifies this`procs, vm.alloc, vm.alloc.repr, vm.ram, this`spaces
      ensures Valid() && fresh(vm.alloc.repr - old(vm.alloc.repr))
      ensures procs == old(procs)[i := UNUSED] && spaces == old(spaces)[i := map[]]
      ensures OthersSame(old(Snapshot()), Snapshot(), i) && View(Snapshot(), i) == map[]
      ensures Spared(old(vm.alloc.Level()), old(Lost()), vm.alloc.Level(), Lost())
    {
      hide HeapOk, Inv, View, SameView, LostFrames, StrayFrames;
      ProcFacts(i);
      if procs[i].isUser {
        Discard(i);
        return;
      }
      SharingFacts();
      EmbryoSpace(i);
      ghost var w := Snapshot();
      MarkUnused(i);
      assert AreasOf(procs) == AreasOf(old(procs));
      NothingToSee(Snapshot(), i);
      Refl(w, i);
    }

    /** One pass of the loop in proc_waitpid, for any child when pid is not positive:
        reaps the first zombie child and gives its pid and status. */
    method WaitPass(pid: int) returns (hasChild: bool, reaped: nat, status: int, slot: nat)
      requires Valid()
      modifies this`procs, vm.alloc, vm.alloc.repr, vm.ram, this`spaces
      ensures Valid() && fresh(vm.alloc.repr - old(vm.alloc.repr)) && slot <= PROC_MAX
      ensures hasChild <==> exists i :: 0 <= i < PROC_MAX && ChildOf(old(procs)[i], old(procs)[current].pid, pid)
      ensures slot == PROC_MAX ==> procs == old(procs) && Snapshot() == old(Snapshot())
      ensures forall i | 0 <= i < slot && ChildOf(old(procs)[i], old(procs)[current].pid, pid) ::
                old(procs)[i].state != Zombie
      ensures slot < PROC_MAX ==> ChildOf(old(procs)[slot], old(procs)[current].pid, pid)
                                  && old(procs)[slot].state == Zombie
      ensures slot < PROC_MAX ==> reaped == old(procs)[slot].pid && status == old(procs)[slot].exitStatus
      ensures slot < PROC_MAX ==> procs == old(procs)[slot := UNUSED] && OthersSame(old(Snapshot()), Snapshot(), slot)
      ensures slot < PROC_MAX ==> View(Snapshot(), slot) == map[]
      ensures Spared(old(vm.alloc.Level()), old(Lost()), vm.alloc.Level(), Lost())
    {
      hide Valid, View, OthersSame, AreasOf, ChildOf, LostFrames, StrayFrames;
      SharingFacts();
      hasChild, slot := ScanChildren(procs, current, pid);
      reaped, status := 0, 0;
      if slot < PROC_MAX {
        reaped, status := procs[slot].pid, procs[slot].exitStatus;
        Reap(slot);
      }
    }

    /** proc_reap_orphan_zombies, run by the idle process in slot 0. */
    method ReapOrphans()
      requires Valid()
      modifies this`procs, vm.alloc, vm.alloc.repr, vm.ram, this`spaces
      ensures Valid() && fresh(vm.alloc.repr - old(vm.alloc.repr))
      ensures forall i | 0 <= i < PROC_MAX :: procs[i] == if IsOrphan(old(procs), i) then UNUSED else old(procs)[i]
      ensures forall i | 0 <= i < PROC_MAX ::
                if IsOrphan(old(procs), i) then View(Snapshot(), i) == map[]
                else SameView(old(Snapshot()), Snapshot(), i)
      ensures Spared(old(vm.alloc.Level()), old(Lost()), vm.alloc.Level(), Lost())
    {
      hide Valid, View, SameView, IsOrphan, AreasOf, Sharers, SharingOk, Inv, OthersSame, OrphansGone, Kernel.Lost,
        PageTables.Tables, PageAllocator.Level;
      SharingFacts();
      ghost var table, w := procs, Snapshot();
      NoneGone(table, w);
      var i := 0;
      while i < PROC_MAX
        invariant 0 <= i <= PROC_MAX && Valid() && |procs| == PROC_MAX && fresh(vm.alloc.repr - old(vm.alloc.repr))
        invariant OrphansGone(table, procs, w, Snapshot(), i)
        invariant Spared(old(vm.alloc.Level()), old(Lost()), vm.alloc.Level(), Lost())
      {
        if IsOrphan(procs, i) {
          ghost var w1, before := Snapshot(), procs;
          OrphanIsZombie(procs, i);
          Reap(i);
          SharingFacts();
          OneMoreGone(table, before, procs, w, w1, Snapshot(), i);
        } else {
          NoOrphanHere(table, procs, w, Snapshot(), i);
        }
        i := i + 1;
      }
      AllGone(table, procs, w, Snapshot());
    }

    // -------------------------------------------------------------------
    // What programs do.

    /** The hardware walk of section 4.3.2 of the RISC-V Privileged Architecture for an
        access to page p by the current process. */
    method Translate(p: nat, access: nat) returns (ok: bool, f: nat)
      requires HeapOk() && current < PROC_MAX && procs[current].Live() && p < PAGES
      ensures ok <==> p in PageMap(current, p) && HwAllows(PageMap(current, p)[p].perm, NeedOf(access))
      ensures ok ==> PageMap(current, p)[p].frame == f
    {
      hide HeapOk;
      var found, perm;
      found, f, perm := QueryIn(current, p);
      ok := found && HwAllows(perm, NeedOf(access));
    }

    /** An access that may fault once. It ends in a permitted access to frame f; or it is
        refused, because the areas forbid it or memory is down to its last page; or the
        handler keeps saying yes to an entry the hardware never lets through, which
        happens only for W without R. */
    method UserAccess(p: nat, access: nat) returns (end: Ending, f: nat)
      requires Valid() && procs[current].Live() && p < PAGES && access in {1, 2, 4}
      modifies vm`own, vm.alloc, vm.alloc.repr, vm.ram, this`spaces
      ensures Valid() && fresh(vm.alloc.repr - old(vm.alloc.repr))
      ensures forall j | 0 <= j < PROC_MAX :: SameView(old(Snapshot()), Snapshot(), j)
      ensures end == Permitted ==> p in PageMap(current, p) && PageMap(current, p)[p].frame == f
                                   && HwAllows(PageMap(current, p)[p].perm, NeedOf(access))
      ensures end == Refused ==> !FaultAllowed(p, access) || old(vm.alloc.LowMemory())
      ensures end == Livelock ==> FaultAllowed(p, access) && Granted(p).value.w && !Granted(p).value.r
      ensures Spared(old(vm.alloc.Level()), old(Lost()), vm.alloc.Level(), Lost())
    {
      hide HeapOk, Inv, View, SameView, PageAllocator.LowMemory, ProcsOk, ImageOk, LostFrames, StrayFrames,
        PageTables.Valid, Aligned;
      SharingFacts();
      ViewsReflexive(Snapshot());
      PageAddress(p);
      var ok;
      ok, f := Translate(p, access);
      if ok {
        return Permitted, f;
      }
      var rc := HandleUserPageFault(Bytes(p), access);
      if rc < 0 {
        return Refused, f;
      }
      ok, f := Translate(p, access);
      if ok {
        return Permitted, f;
      }
      WithoutRead(p, access);
      return Livelock, f;
    }

    lemma WithoutRead(p: nat, access: nat)
      requires Valid() && procs[current].Live() && FaultAllowed(p, access) && p in PageMap(current, p)
      requires PermHas(PageMap(current, p)[p].perm, NeedOf(access))
               && !HwAllows(PageMap(current, p)[p].perm, NeedOf(access))
      ensures Granted(p).value.w && !Granted(p).value.r
    {
      hide HeapOk, CountsOk, SharingOk, View, AreasOk, ProcsOk, Sharers;
      AreasFacts(current);
      assert Region(p) ==> PageOk(procs[current].vmas, spaces[current], vm.ram.frames, p);
    }

    /** A store instruction: it changes what the storing process sees at that word, and
        nothing else that anybody sees. */
    method UserStore(p: nat, k: nat, v: Word) returns (end: Ending)
      requires Valid() && procs[current].Live() && p < PAGES && k < WORDS
      modifies vm`own, vm.alloc, vm.alloc.repr, vm.ram, this`spaces
      ensures Valid() && fresh(vm.alloc.repr - old(vm.alloc.repr))
      ensures OthersSame(old(Snapshot()), Snapshot(), current)
      ensures end == Permitted ==> p in old(View(Snapshot(), current))
                                   && old(View(Snapshot(), current))[p].prot.w
                                   && old(View(Snapshot(), current))[p].prot.r
      ensures end == Permitted ==> View(Snapshot(), current) == Stored(old(View(Snapshot(), current)), p, k, v)
      ensures end != Permitted ==> View(Snapshot(), current) == old(View(Snapshot(), current))
      ensures end == Refused ==> !FaultAllowed(p, 2) || old(vm.alloc.LowMemory())
      ensures end == Livelock ==> FaultAllowed(p, 2) && Granted(p).value.w && !Granted(p).value.r
      ensures Spared(old(vm.alloc.Level()), old(Lost()), vm.alloc.Level(), Lost())
    {
      hide HeapOk, Inv, View, PageAllocator.LowMemory, ProcsOk, ImageOk, HwAllows, LostFrames, StrayFrames;
      var f;
      ghost var w := Snapshot();
      end, f := UserAccess(p, 2);
      assert SameView(w, Snapshot(), current);
      if end == Permitted {
        ghost var w1 := Snapshot();
        WritableIsUsers(p);
        LoadedIsSeen(p);
        WriteWord(f, p, k, v);
        StoreKeeps(w1, Snapshot(), current, p, k, v);
        ViewsTransitive(w, w1, Snapshot(), current);
      }
    }

    /** Nothing outside the user slots can be written. */
    lemma WritableIsUsers(p: nat)
      requires Valid() && procs[current].Live() && p in PageMap(current, p)
               && HwAllows(PageMap(current, p)[p].perm, NeedOf(2))
      ensures Region(p) && p in spaces[current] && spaces[current][p].perm.w && spaces[current][p].perm.r
      ensures spaces[current][p].frame < FRAMES && spaces[current][p].frame !in vm.Tables()
      ensures vm.alloc.freeFrame <= spaces[current][p].frame < vm.alloc.freeFrame + vm.alloc.managed
    {
      BootFacts();
      vm.AllocSizes();
      KernelRootSpace(vm.ram.frames, kmap.root);
      ImageFacts(kmap.space, image);
      MappedFrame(Snapshot(), current, p);
    }

    /** The memory word itself. */
    method WriteWord(f: nat, ghost p: nat, k: nat, v: Word)
      requires HeapOk() && f < FRAMES && f !in vm.Tables() && k < WORDS
      requires vm.alloc.freeFrame <= f < vm.alloc.freeFrame + vm.alloc.managed
      modifies vm.ram
      ensures HeapOk() && vm.ram.frames == old(vm.ram.frames)[f := old(vm.ram.frames)[f][k := v]]
    {
      hide Trees, Space, KernelRootOk, ImageSpace, PageAllocator.Valid, TablesHeld;
      BootFacts();
      DataWrite(vm.ram.frames, vm.ram.frames[f := vm.ram.frames[f][k := v]], procs, spaces, vm.roots, vm.own, kmap);
      vm.ram.frames := vm.ram.frames[f := vm.ram.frames[f][k := v]];
    }

    /** A load instruction: from the user slots it gives what the process sees there, and
        from elsewhere the program, as it lies in physical memory. */
    method UserLoad(p: nat, k: nat) returns (end: Ending, v: Word)
      requires Valid() && procs[current].Live() && p < PAGES && k < WORDS
      modifies vm`own, vm.alloc, vm.alloc.repr, vm.ram, this`spaces
      ensures Valid() && fresh(vm.alloc.repr - old(vm.alloc.repr))
      ensures forall j | 0 <= j < PROC_MAX :: SameView(old(Snapshot()), Snapshot(), j)
      ensures end == Permitted && Region(p) ==>
                p in old(View(Snapshot(), current)) && old(View(Snapshot(), current))[p].prot.r
                && v == old(View(Snapshot(), current))[p].data[k]
      ensures end == Permitted && !Region(p) ==>
                (exists i :: 0 <= i < |image| && image[i].Has(p)) && v == vm.ram.frames[p][k]
      ensures end == Permitted && !Region(p) && p in Program() ==> v == Program()[p][k]
      ensures end == Refused ==> !FaultAllowed(p, 1) || old(vm.alloc.LowMemory())
      ensures end != Livelock
      ensures Spared(old(vm.alloc.Level()), old(Lost()), vm.alloc.Level(), Lost())
    {
      hide HeapOk, Inv, View, PageAllocator.LowMemory, ProcsOk, ImageOk, LostFrames, StrayFrames;
      var f;
      ghost var w := Snapshot();
      end, f := UserAccess(p, 1);
      assert SameView(w, Snapshot(), current);
      v := 0;
      if end == Permitted {
        if Region(p) {
          LoadedIsSeen(p);
        } else {
          ProgramIsRead(p);
        }
        v := vm.ram.frames[f][k];
      }
    }

    lemma ProgramIsRead(p: nat)
      requires Valid() && !Region(p) && p in kmap.image && kmap.image[p].perm.u
      ensures p < FRAMES && kmap.image[p].frame == p && exists i :: 0 <= i < |image| && image[i].Has(p)
      ensures p in Program() ==> vm.ram.frames[p] == Program()[p]
    {
      BootFacts();
      KernelRootSpace(vm.ram.frames, kmap.root);
      ProgramPage(kmap.space, image, p);
    }

    lemma LoadedIsSeen(p: nat)
      requires Valid() && procs[current].Live() && Region(p) && p in spaces[current]
      ensures spaces[current][p].frame < FRAMES && p in View(Snapshot(), current)
      ensures View(Snapshot(), current)[p].data == vm.ram.frames[spaces[current][p].frame]
      ensures PermFits(spaces[current][p].perm, View(Snapshot(), current)[p].prot)
    {
      AreasFacts(current);
      MappedFrame(Snapshot(), current, p);
      assert PageOk(procs[current].vmas, spaces[current], vm.ram.frames, p);
    }

    // -------------------------------------------------------------------
    // What the invariant says of the page tables.

    /** The page tables of process i map page p, in the user slots, to frame f. */
    ghost predicate MapsTo(i: nat, p: nat, f: nat)
      reads this`procs, vm.ram
    {
      && i < |procs| && procs[i].Live() && Region(p) && procs[i].Root() < FRAMES
      && p in vm.SpaceOf(procs[i].Root()) && vm.SpaceOf(procs[i].Root())[p].frame == f
    }

    /** All leaf entries of user slots that map frame f. */
    ghost function Entries(f: nat): set<(nat, nat)>
      reads this`procs, vm.ram
    {
      set i: nat, p: nat | i < PROC_MAX && p < 0x4_0000 && MapsTo(i, p, f) :: (i, p)
    }

    lemma MappedIs(i: nat, p: nat, f: nat)
      requires Valid() && i < PROC_MAX
      ensures MapsTo(i, p, f) <==> p in spaces[i] && spaces[i][p].frame == f
      ensures MapsTo(i, p, f) ==> spaces[i][p] == vm.SpaceOf(procs[i].Root())[p]
    {
      hide Trees, Space, KernelRootOk, ImageSpace, TablesHeld, PageAllocator.Valid, Inv, ProcsOk;
      if procs[i].Live() {
        RootFacts(i);
      } else {
        assert SpaceOk(procs[i], spaces[i], vm.ram.frames, vm.roots, kmap);
      }
    }

    lemma EntriesAreSharers(f: nat)
      requires Valid()
      ensures Entries(f) == Sharers(spaces, f)
    {
      hide Valid, MapsTo;
      SharingFacts();
      forall i: nat, p: nat ensures (i, p) in Entries(f) <==> (i, p) in Sharers(spaces, f) {
        if i < PROC_MAX { MappedIs(i, p, f); }
        MapsInSlots(i, p, f);
      }
    }

    lemma MapsInSlots(i: nat, p: nat, f: nat)
      requires |procs| == PROC_MAX
      ensures MapsTo(i, p, f) ==> i < PROC_MAX && p < 0x4_0000
    {}

    /** The count of a mapped frame is the number of entries that map it, which is at most
        the number of processes; behind an entry with W it is 1. The frame is not free and
        is no table, and an area of the process gives the permissions the entry has. */
    lemma MappedPage(i: nat, p: nat, f: nat)
      requires Valid() && i < PROC_MAX && MapsTo(i, p, f)
      ensures Held(vm.alloc.refs, vm.alloc.freeFrame, f)
      ensures vm.alloc.refs[f - vm.alloc.freeFrame] == |Entries(f)| <= PROC_MAX
      ensures var perm := vm.SpaceOf(procs[i].Root())[p].perm;
              && (perm.w ==> vm.alloc.refs[f - vm.alloc.freeFrame] == 1)
              && ProtAt(procs[i].vmas, p).Some? && PermFits(perm, ProtAt(procs[i].vmas, p).value)
      ensures f !in vm.Tables() && !Covers(vm.alloc.contents, Bytes(f))
    {
      hide HeapOk, Entries, ProtAt, PermFits, View, ProcsOk, Covers;
      MappedIs(i, p, f);
      EntriesAreSharers(f);
      AreasFacts(i);
      Single(spaces, i, p);
      assert CountOk(Snapshot(), f);
      SharersBounded(spaces, f);
      HeldIsNotFree(f);
    }

    lemma HeldIsNotFree(f: nat)
      requires HeapOk() && Held(vm.alloc.refs, vm.alloc.freeFrame, f)
      ensures !Covers(vm.alloc.contents, Bytes(f))
    {
      hide Trees, Space, KernelRootOk, ImageSpace, TablesHeld, Linked, PageAllocator.ListsOk;
      PageIndex(vm.alloc.freeFrame, f - vm.alloc.freeFrame);
    }

    /** A page in the free list is mapped by no process. */
    lemma FreeIsMappedNowhere(a: nat)
      requires Valid() && Aligned(a) && Covers(vm.alloc.contents, a)
      ensures Entries(a / 4096) == {}
    {
      hide Valid, MapsTo, Covers;
      SharingFacts();
      forall i: nat, p: nat ensures (i, p) !in Entries(a / 4096) {
        MapsInSlots(i, p, a / 4096);
        if MapsTo(i, p, a / 4096) { MappedPage(i, p, a / 4096); }
      }
    }

    /** Outside the user slots every process translates alike, as the kernel's root and
        the program image do. */
    lemma OthersAlike(i: nat, j: nat)
      requires Valid() && i < PROC_MAX && j < PROC_MAX && procs[i].Live() && procs[j].Live()
      ensures procs[i].Root() < FRAMES && procs[j].Root() < FRAMES
      ensures Others(vm.SpaceOf(procs[i].Root())) == Others(vm.SpaceOf(procs[j].Root()))
              == ImageSpace(kmap.space, image)
      ensures i != j ==> procs[i].Root() != procs[j].Root()
    {
      RootFacts(i);
      RootFacts(j);
    }

    lemma NoneLeft()
      requires HeapOk() && vm.alloc.NoPageLeft()
      ensures vm.alloc.Left().None() && vm.alloc.LowMemory()
    {
      hide Trees, TablesHeld, Space, KernelRootOk, ImageSpace, Linked, PageAllocator.Valid;
      vm.alloc.NoneCanBeHad();
    }

    lemma AreasFacts(i: nat)
      requires Valid() && i < PROC_MAX
      ensures AreasOk(procs[i].vmas) && |procs[i].vmas| == VMA_MAX && ProcOk(procs[i], kmap.image)
      ensures forall p | p in spaces[i] :: PageOk(procs[i].vmas, spaces[i], vm.ram.frames, p)
    {
      assert Snapshot().areas[i] == procs[i].vmas;
      assert PagesOk(procs[i].vmas, spaces[i], vm.ram.frames);
    }

    lemma ManagedFrame(f: nat)
      requires vm.alloc.Valid() && Held(vm.alloc.refs, vm.alloc.freeFrame, f)
      ensures vm.alloc.IsManaged(Bytes(f)) && vm.alloc.freeRam <= Bytes(f) && Aligned(Bytes(f))
      ensures vm.alloc.Index(Bytes(f)) == f - vm.alloc.freeFrame
      ensures Bytes(f) + Bytes(1) <= Page(vm.alloc.freeRam, vm.alloc.managed)
    {
      PageIndex(vm.alloc.freeFrame, f - vm.alloc.freeFrame);
    }
  }
}
