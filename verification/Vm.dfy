/** The page-table operations of mm/vm.c on the one physical memory. */
module Vm {
  import opened Common
  import opened FreeRuns
  import opened Phys
  import opened PageAlloc
  import opened Sv32

  /** User pages below the kernel's mappings: the 2 GiB gap of first-level slots
      0x80 to 0xff holds the mmap window and the stack. */
  const USER_SLOT: nat := 0x80
  const USER_SLOT_END: nat := 0x100

  /** The protection of a VMA: VMA_PROT_R, VMA_PROT_W, VMA_PROT_X. */
  datatype Prot = Prot(r: bool, w: bool, x: bool)

  function UserPerm(p: Prot): Perm { Perm(p.r, p.w, p.x, true) }

  /** What vm_map_user_page installs; an entry without R, W and X maps nothing. */
  function UserLeaf(frame: nat, p: Prot): Option<Leaf> {
    if UserPerm(p).Leaf() then Some(Leaf(frame, UserPerm(p))) else None
  }

  /** No first-level leaf covers the user slots. */
  ghost predicate UserSlotsPlain(m: Memory, roots: set<nat>) {
    forall r, i | r in roots && r < FRAMES && USER_SLOT <= i < USER_SLOT_END :: !Decode(m[r][i]).IsLeaf()
  }

  ghost predicate Trees(m: Memory, roots: set<nat>, own: map<nat, (nat, nat)>) {
    TablesOk(m, roots, own) && UserSlotsPlain(m, roots)
  }

  ghost predicate SameSpaces(m: Memory, m': Memory, roots: set<nat>) {
    forall r | r in roots && r < FRAMES :: Space(m', r) == Space(m, r)
  }

  /** Frame f is a managed page with a reference. */
  ghost predicate Held(refs: seq<nat>, base: nat, f: nat) {
    base <= f < base + |refs| && refs[f - base] > 0
  }

  /** Frame f belongs to a page table. */
  ghost predicate IsTableFrame(roots: set<nat>, own: map<nat, (nat, nat)>, f: nat) {
    f in roots || f in own
  }

  ghost predicate TablesHeld(refs: seq<nat>, base: nat, roots: set<nat>, own: map<nat, (nat, nat)>) {
    forall f | IsTableFrame(roots, own, f) :: Held(refs, base, f)
  }

  /** vm_make_satp and vm_root_from_satp */
  function MakeSatp(rootPa: nat): nat { 0x8000_0000 + rootPa / 4096 }
  function RootFromSatp(satp: nat): nat { satp % 0x10_0000 }

  class PageTables {
    const ram: Ram
    const alloc: PageAllocator
    ghost var roots: set<nat>
    ghost var own: map<nat, (nat, nat)>     // second-level table -> its root and slot
    ghost var abandoned: set<nat>           // tables of roots whose building failed
    var kernelRoot: nat                     // frame of kernel_root_pt

    ghost predicate TreesOk()
      reads this`roots, this`own, ram
    {
      Trees(ram.frames, roots, own)
    }

    ghost predicate HeldOk()
      reads this`roots, this`own, alloc`refs
    {
      TablesHeld(alloc.refs, alloc.freeFrame, roots, own)
    }

    ghost predicate Valid()
      reads this, ram, alloc, alloc.runs, alloc.metas
    {
      alloc.Valid() && alloc.ram == ram && TreesOk() && HeldOk()
    }

    ghost function Tables(): set<nat>
      reads this`roots, this`own
    {
      roots + own.Keys
    }

    /** Pages in use that are no page tables and never were. */
    ghost function Stray(): set<nat>
      reads this`roots, this`own, this`abandoned, alloc`refs
    {
      StrayFrames(alloc.refs, alloc.freeFrame, Tables() + abandoned)
    }

    lemma RootsBounded()
      requires TreesOk()
      ensures forall r | r in roots :: r < FRAMES && r !in own
    {}

    constructor (ram: Ram, alloc: PageAllocator)
      requires alloc.Valid() && alloc.ram == ram
      ensures Valid() && this.ram == ram && this.alloc == alloc && roots == {} && own == map[] && abandoned == {}
    {
      this.ram := ram;
      this.alloc := alloc;
      roots, own, abandoned := {}, map[], {};
      kernelRoot := 0;
    }

    ghost function SpaceOf(root: nat): map<nat, Leaf>
      reads ram
      requires root < FRAMES
    {
      Space(ram.frames, root)
    }

    /** alloc_pages_try(1): one zeroed frame no table and no translation uses. */
    method AllocFrame() returns (pa: nat)
      requires Valid()
      modifies alloc`freeRuns, alloc`freeMetaNodes, alloc`runs, alloc`metas, alloc`contents, alloc`nextPaddr, alloc`used
      modifies alloc`refs, alloc.repr, ram
      ensures Valid() && SameSpaces(old(ram.frames), ram.frames, roots)
      ensures pa == 0 <==> old(alloc.NoPageLeft())
      ensures pa == 0 ==> alloc.refs == old(alloc.refs) && ram.frames == old(ram.frames) && alloc.NoPageLeft()
      ensures pa != 0 ==> pa == Bytes(pa / 4096) && pa < 0x1_0000_0000 && !IsTableFrame(roots, own, pa / 4096)
      ensures pa != 0 ==> NewFrame(old(alloc.refs), alloc.refs, alloc.freeFrame, pa / 4096)
      ensures pa != 0 ==> ram.frames == old(ram.frames)[pa / 4096 := ZeroFrame()]
      ensures if pa == 0 then Stray() == old(Stray()) else Stray() <= old(Stray()) + {pa / 4096}
      ensures Falls(old(alloc.Level()), alloc.Level())
    {
      hide Trees, PageAllocator.Valid, NewFrame, Marked, Cleared, StrayFrames, FitIndex;
      AllocSizes();
      ghost var m, r := ram.frames, alloc.refs;
      ghost var first;
      pa, first := alloc.AllocPagesTry(1);
      if pa != 0 {
        PageIndex(alloc.freeFrame, first);
        AllocKeepsTrees(m, ram.frames, r, alloc.refs, alloc.freeFrame, first, roots, own);
        StrayAfterNew(r, alloc.refs, alloc.freeFrame, Tables() + abandoned, pa / 4096);
      } else {
        NothingLeft();
      }
    }

    lemma NothingLeft()
      requires alloc.Valid() && alloc.metaTop < alloc.nextPaddr + Bytes(1)
      requires forall i | 0 <= i < |alloc.contents| :: alloc.contents[i].pages < 1
      ensures alloc.NoPageLeft()
    {}

    lemma AllocSizes()
      requires alloc.Valid()
      ensures |alloc.refs| == alloc.managed && alloc.freeFrame + alloc.managed < FRAMES
      ensures alloc.freeRam == Bytes(alloc.freeFrame) && alloc.nextPaddr > 0
    {}

    /** Clears the fresh table l0 and, when the first-level entry was a 4 MiB leaf,
        fills it with the 1024 pages of that leaf. */
    method FillTable(l0: nat, pte1: Word)
      requires l0 < FRAMES
      modifies ram
      ensures Splits(ram.frames[l0], Decode(pte1))
      ensures ram.frames == old(ram.frames)[l0 := ram.frames[l0]]
    {
      var p1 := Decode(pte1);
      ghost var m := ram.frames;
      ram.ClearFrames(l0, 1);
      ClearedOne(m, ram.frames, l0);
      DecodeZero();
      if p1.IsLeaf() {
        var pa4m := Bytes(SuperFrame(p1, 0));
        var i := 0;
        while i < WORDS
          invariant 0 <= i <= WORDS
          invariant ram.frames == m[l0 := ram.frames[l0]]
          invariant forall j | 0 <= j < i :: LeafOf(ram.frames[l0][j]) == SplitLeaf(p1, j)
        {
          SuperAddress(p1, i);
          var w := PteFromPa(pa4m + Bytes(i), p1.perm);
          LeafOfPte(pa4m + Bytes(i), p1.perm);
          ram.frames := ram.frames[l0 := ram.frames[l0][i := w]];
          i := i + 1;
        }
      }
    }

    lemma TableOwned(root: nat, slot: nat)
      requires Valid() && root in roots && root < FRAMES && slot < WORDS && Decode(ram.frames[root][slot]).IsTable()
      ensures var l0 := Decode(ram.frames[root][slot]).Frame(); l0 != 0 && l0 in own && own[l0] == (root, slot)
    {
      var l0 := Decode(ram.frames[root][slot]).Frame();
      assert own[l0] == (root, slot);
      assert Held(alloc.refs, alloc.freeFrame, l0);
    }

    /** The first half of vm_map_page: the second-level table of slot, made if need be. */
    method EnsureTable(root: nat, slot: nat) returns (l0: nat)
      requires Valid() && root in roots && slot < WORDS
      modifies this`own, alloc`freeRuns, alloc`freeMetaNodes, alloc`runs, alloc`metas, alloc`contents, alloc`nextPaddr
      modifies alloc`used, alloc`refs, alloc.repr, ram
      ensures Valid()
      ensures l0 == 0 ==> ram.frames == old(ram.frames) && alloc.refs == old(alloc.refs) && own == old(own)
                          && alloc.NoPageLeft()
      ensures l0 == 0 ==> !Decode(old(ram.frames)[root][slot]).IsTable()
      ensures OwnGrows(old(own), own, root)
      ensures l0 != 0 ==> l0 in own && own[l0] == (root, slot)
      ensures Kept(old(ram.frames), ram.frames, old(alloc.refs), alloc.refs, alloc.freeFrame, old(Tables()), Tables())
      ensures Stray() <= old(Stray())
      ensures Falls(old(alloc.Level()), alloc.Level())
      ensures OtherRootsKept(old(ram.frames), ram.frames, roots, root)
      ensures SameSpaces(old(ram.frames), ram.frames, roots)
    {
      hide Trees, Kept, Walk, Space, Decode, Encode, TablesHeld, PageAllocator.Valid, StrayFrames;
      RootsBounded();
      var pte1 := ram.frames[root][slot];
      if Decode(pte1).IsTable() {
        TableOwned(root, slot);
        l0 := Decode(pte1).Frame();
        KeptRefl(ram.frames, alloc.refs, alloc.freeFrame, Tables());
        return;
      }
      l0 := MakeTable(root, slot);
    }

    /** Allocates, fills and links a table for the slot. */
    method MakeTable(root: nat, slot: nat) returns (l0: nat)
      requires Valid() && root in roots && slot < WORDS && !Decode(ram.frames[root][slot]).IsTable()
      modifies this`own, alloc`freeRuns, alloc`freeMetaNodes, alloc`runs, alloc`metas, alloc`contents, alloc`nextPaddr
      modifies alloc`used, alloc`refs, alloc.repr, ram
      ensures Valid() && SameSpaces(old(ram.frames), ram.frames, roots)
      ensures l0 == 0 ==> ram.frames == old(ram.frames) && alloc.refs == old(alloc.refs) && own == old(own)
                          && alloc.NoPageLeft()
      ensures l0 != 0 ==> l0 !in old(own) && own == old(own)[l0 := (root, slot)]
      ensures Kept(old(ram.frames), ram.frames, old(alloc.refs), alloc.refs, alloc.freeFrame, old(Tables()), Tables())
      ensures Stray() <= old(Stray())
      ensures Falls(old(alloc.Level()), alloc.Level())
      ensures OtherRootsKept(old(ram.frames), ram.frames, roots, root)
    {
      hide StrayFrames, TablesHeld, PageAllocator.Valid, Kept, Decode, Space, UserSlotsPlain, PageTables.TreesOk;
      RootsBounded();
      var pa := AllocFrame();
      if pa == 0 {
        KeptRefl(ram.frames, alloc.refs, alloc.freeFrame, Tables());
        return 0;
      }
      l0 := pa / 4096;
      ghost var m1, t1 := ram.frames, Tables() + abandoned;
      LinkTable(root, slot, l0, pa);
      StrayAfterLink(alloc.refs, alloc.freeFrame, t1, Tables() + abandoned, l0);
      KeptByLink(old(ram.frames), m1, ram.frames, old(alloc.refs), alloc.refs, alloc.freeFrame, roots, old(own), l0,
                 (root, slot));
    }

    /** Fills the fresh frame l0 and puts it in the slot. */
    method LinkTable(root: nat, slot: nat, l0: nat, pa: nat)
      requires Valid() && root in roots && slot < WORDS && pa == Bytes(l0) && pa < 0x1_0000_0000
      requires !Decode(ram.frames[root][slot]).IsTable()
      requires !IsTableFrame(roots, own, l0) && Held(alloc.refs, alloc.freeFrame, l0)
      modifies this`own, ram
      ensures Valid() && own == old(own)[l0 := (root, slot)]
      ensures OnlyTablesChange(old(ram.frames), ram.frames, roots, own)
      ensures OtherRootsKept(old(ram.frames), ram.frames, roots, root)
      ensures SameSpaces(old(ram.frames), ram.frames, roots)
    {
      hide Encode, Decode, LeafOf, Walk, Space, PageAllocator.Valid, Trees, TablesHeld;
      RootsBounded();
      ghost var m := ram.frames;
      FillTable(l0, ram.frames[root][slot]);
      ghost var table := ram.frames[l0];
      ram.frames := ram.frames[root := ram.frames[root][slot := TablePte(pa)]];
      DecodeTablePte(pa);
      LinkKeepsTrees(m, roots, own, l0, root, slot, table, TablePte(pa));
      HeldWith(alloc.refs, alloc.freeFrame, roots, own, l0, (root, slot));
      own := own[l0 := (root, slot)];
    }

    /** vm_map_page: page vpn of this root maps frame pa / 4096 with these
        permissions, and every other page of every root maps what it did. */
    method MapPage(root: nat, va: nat, pa: nat, perm: Perm) returns (rc: int)
      requires Valid() && root in roots && va < 0x1_0000_0000 && pa < 0x1_0000_0000
      modifies this`own, alloc`freeRuns, alloc`freeMetaNodes, alloc`runs, alloc`metas, alloc`contents, alloc`nextPaddr
      modifies alloc`used, alloc`refs, alloc.repr, ram
      ensures Valid() && (rc == 0 || rc == -1)
      ensures rc == -1 ==> ram.frames == old(ram.frames) && alloc.refs == old(alloc.refs) && own == old(own)
      ensures rc == -1 ==> !HasTable(old(ram.frames), root, va / 4096) && alloc.NoPageLeft()
      ensures OwnGrows(old(own), own, root)
      ensures Kept(old(ram.frames), ram.frames, old(alloc.refs), alloc.refs, alloc.freeFrame, old(Tables()), Tables())
      ensures Stray() <= old(Stray())
      ensures Falls(old(alloc.Level()), alloc.Level())
      ensures rc == 0 ==> SpaceOf(root) == Mapped(old(SpaceOf(root)), va / 4096,
                                                  if perm.Leaf() then Some(Leaf(pa / 4096, perm)) else None)
      ensures forall r | r in roots && r != root :: SpaceOf(r) == old(SpaceOf(r))
      ensures OtherRootsKept(old(ram.frames), ram.frames, roots, root)
    {
      hide Trees, Kept, Walk, Space, Decode, Encode, PteFromPa, TablesHeld, PageAllocator.Valid, StrayFrames;
      RootsBounded();
      var vpn := va / 4096;
      var l0 := EnsureTable(root, Vpn1(vpn));
      if l0 == 0 {
        return -1;
      }
      LeafOfPte(pa, perm);
      RootsBounded();
      ghost var m1 := ram.frames;
      WriteEntry(l0, vpn, PteFromPa(pa, perm));
      KeptThenWrite(old(ram.frames), m1, ram.frames, old(alloc.refs), alloc.refs, alloc.freeFrame, old(Tables()),
                    Tables(), l0);
      rc := 0;
    }

    /** Stores one second-level entry. */
    method WriteEntry(l0: nat, vpn: nat, w: Word)
      requires TreesOk() && l0 in own && vpn < PAGES && own[l0].1 == Vpn1(vpn)
      modifies ram
      ensures TreesOk()
      ensures forall f | 0 <= f < FRAMES && f != l0 :: ram.frames[f] == old(ram.frames)[f]
      ensures SpaceOf(own[l0].0) == Mapped(old(SpaceOf(own[l0].0)), vpn, LeafOf(w))
      ensures forall r | r in roots && r != own[l0].0 :: SpaceOf(r) == old(SpaceOf(r))
    {
      ghost var m := ram.frames;
      TableWriteIsPointUpdate(m, roots, own, l0, vpn, w);
      assert forall r | r in roots :: r != l0;
      ram.frames := ram.frames[l0 := ram.frames[l0][Vpn0(vpn) := w]];
    }

    /** vm_query_user_page: 1 with the frame and permissions of a mapped page, else 0. */
    method QueryUserPage(satp: nat, va: nat) returns (rc: int, pa: nat, perm: Perm)
      requires TreesOk() && RootFromSatp(satp) in roots && va < 0x1_0000_0000
      ensures rc == (if va / 4096 in SpaceOf(RootFromSatp(satp)) then 1 else 0)
      ensures rc == 1 ==> SpaceOf(RootFromSatp(satp))[va / 4096] == Leaf(pa / 4096, perm)
      ensures rc == 1 ==> pa % 4096 == va % 4096 && pa < 0x1_0000_0000
    {
      hide Decode, RootFromSatp;
      rc, pa, perm := 0, 0, Perm(false, false, false, false);
      var vpn := va / 4096;
      ghost var root := RootFromSatp(satp);
      RootIsFrame(root);
      var p1 := Decode(ram.frames[RootFromSatp(satp)][Vpn1(vpn)]);
      if !p1.v {
        return;
      }
      if p1.perm.Leaf() {
        ByteInFrame(SuperFrame(p1, Vpn0(vpn)), va);
        return 1, Bytes(SuperFrame(p1, Vpn0(vpn))) + va % 4096, p1.perm;
      }
      var p0 := Decode(ram.frames[p1.Frame()][Vpn0(vpn)]);
      if !p0.v || !p0.perm.Leaf() {
        return;
      }
      ByteInFrame(p0.Frame(), va);
      return 1, Bytes(p0.Frame()) + va % 4096, p0.perm;
    }

    lemma RootIsFrame(root: nat)
      requires TreesOk() && root in roots
      ensures root < FRAMES
    {}

    /** vm_map_user_page */
    method MapUserPage(satp: nat, va: nat, pa: nat, prot: Prot) returns (rc: int)
      requires Valid() && RootFromSatp(satp) in roots && va < 0x1_0000_0000 && pa < 0x1_0000_0000
      modifies this`own, alloc`freeRuns, alloc`freeMetaNodes, alloc`runs, alloc`metas, alloc`contents, alloc`nextPaddr
      modifies alloc`used, alloc`refs, alloc.repr, ram
      ensures Valid() && (rc == 0 || rc == -1)
      ensures rc == -1 ==> ram.frames == old(ram.frames) && alloc.refs == old(alloc.refs) && own == old(own)
      ensures rc == -1 ==> !Aligned(va) || !Aligned(pa)
                           || (!HasTable(old(ram.frames), RootFromSatp(satp), va / 4096) && alloc.NoPageLeft())
      ensures rc == 0 ==> Aligned(va) && Aligned(pa)
      ensures OwnGrows(old(own), own, RootFromSatp(satp))
      ensures rc == 0 ==> SpaceOf(RootFromSatp(satp)) ==
                          Mapped(old(SpaceOf(RootFromSatp(satp))), va / 4096, UserLeaf(pa / 4096, prot))
      ensures forall r | r in roots && r != RootFromSatp(satp) :: SpaceOf(r) == old(SpaceOf(r))
      ensures OtherRootsKept(old(ram.frames), ram.frames, roots, RootFromSatp(satp))
      ensures Kept(old(ram.frames), ram.frames, old(alloc.refs), alloc.refs, alloc.freeFrame, old(Tables()), Tables())
      ensures Stray() <= old(Stray())
      ensures Falls(old(alloc.Level()), alloc.Level())
    {
      if !Aligned(va) || !Aligned(pa) {
        return -1;
      }
      rc := MapPage(RootFromSatp(satp), va, pa, UserPerm(prot));
    }

    /** vm_unmap_user_page: a page under a 4 MiB leaf is refused, and in the user slots
        there is none. */
    method UnmapUserPage(satp: nat, va: nat) returns (rc: int)
      requires TreesOk() && RootFromSatp(satp) in roots && va < 0x1_0000_0000
      modifies ram
      ensures TreesOk() && (rc == 0 || rc == -1)
      ensures rc == -1 <==> !Aligned(va) || Decode(old(ram.frames)[RootFromSatp(satp)][Vpn1(va / 4096)]).IsLeaf()
      ensures USER_SLOT <= Vpn1(va / 4096) < USER_SLOT_END ==> (rc == 0 <==> Aligned(va))
      ensures rc == -1 ==> ram.frames == old(ram.frames)
      ensures rc == 0 ==> SpaceOf(RootFromSatp(satp)) == old(SpaceOf(RootFromSatp(satp))) - {va / 4096}
      ensures forall r | r in roots && r != RootFromSatp(satp) :: SpaceOf(r) == old(SpaceOf(r))
      ensures forall f | 0 <= f < FRAMES && f !in own :: ram.frames[f] == old(ram.frames)[f]
    {
      if !Aligned(va) {
        return -1;
      }
      var vpn := va / 4096;
      var root := RootFromSatp(satp);
      var p1 := Decode(ram.frames[root][Vpn1(vpn)]);
      rc := 0;
      if !p1.v {
        NotMapped(ram.frames, root, vpn);
        return;
      }
      if p1.perm.Leaf() {
        return -1;
      }
      assert own[p1.ppn] == (root, Vpn1(vpn));
      DecodeZero();
      WriteEntry(p1.Frame(), vpn, 0);
    }

    // -------------------------------------------------------------------
    // Building address spaces.

    /** vm_map_range_4k over n pages. */
    method MapRange4k(root: nat, va: nat, pa: nat, n: nat, perm: Perm) returns (rc: int)
      requires Valid() && root in roots && perm.Leaf()
      requires va / 4096 + n <= PAGES && pa / 4096 + n <= FRAMES && Aligned(va) && Aligned(pa)
      modifies this`own, alloc`freeRuns, alloc`freeMetaNodes, alloc`runs, alloc`metas, alloc`contents, alloc`nextPaddr
      modifies alloc`used, alloc`refs, alloc.repr, ram
      ensures Valid() && (rc == 0 || rc == -1)
      ensures rc == -1 ==> alloc.Level().room < 4096
      ensures rc == 0 ==> SpaceOf(root) == Overlay(old(SpaceOf(root)), va / 4096, n, pa / 4096, perm)
      ensures forall r | r in roots && r != root :: SpaceOf(r) == old(SpaceOf(r))
      ensures OtherRootsKept(old(ram.frames), ram.frames, roots, root)
      ensures Kept(old(ram.frames), ram.frames, old(alloc.refs), alloc.refs, alloc.freeFrame, old(Tables()), Tables())
      ensures Stray() <= old(Stray())
      ensures Falls(old(alloc.Level()), alloc.Level())
      ensures OwnGrows(old(own), own, root)
    {
      hide PageAllocator.Valid, TablesHeld, Trees, Kept, Space, Perm.Leaf, Overlay, StrayFrames, PageTables.Stray,
        PageTables.TreesOk;
      RootsBounded();
      KeptRefl(ram.frames, alloc.refs, alloc.freeFrame, Tables());
      OverlayNone(SpaceOf(root), va / 4096, pa / 4096, perm);
      rc := 0;
      var i := 0;
      while i < n
        invariant 0 <= i <= n && Valid() && rc == 0
        invariant SpaceOf(root) == Overlay(old(SpaceOf(root)), va / 4096, i, pa / 4096, perm)
        invariant forall r | r in roots && r != root :: SpaceOf(r) == old(SpaceOf(r))
        invariant OtherRootsKept(old(ram.frames), ram.frames, roots, root)
        invariant Kept(old(ram.frames), ram.frames, old(alloc.refs), alloc.refs, alloc.freeFrame, old(Tables()),
                       Tables())
        invariant Stray() <= old(Stray()) && Falls(old(alloc.Level()), alloc.Level())
        invariant OwnGrows(old(own), own, root)
      {
        ghost var m1, r1, t1 := ram.frames, alloc.refs, Tables();
        OffsetPage(va, i, PAGES);
        OffsetPage(pa, i, FRAMES);
        rc := MapPage(root, va + Bytes(i), pa + Bytes(i), perm);
        KeptTrans(old(ram.frames), m1, ram.frames, old(alloc.refs), r1, alloc.refs, alloc.freeFrame, old(Tables()), t1,
                  Tables());
        if rc < 0 {
          return;
        }
        OverlayNext(old(SpaceOf(root)), va / 4096, i, pa / 4096, perm);
        i := i + 1;
      }
    }

    /** The kernel's own root has 4 MiB leaves without U and nothing else, and leaves
        the user slots empty. */
    ghost predicate Booted()
      reads this`roots, this`kernelRoot, ram
    {
      kernelRoot in roots && kernelRoot < FRAMES && KernelRootOk(ram.frames[kernelRoot])
    }

    /** A new root with the kernel's entries. */
    method CopyKernelRoot() returns (pa: nat)
      requires Valid() && Booted()
      modifies this`roots, alloc`freeRuns, alloc`freeMetaNodes, alloc`runs, alloc`metas, alloc`contents, alloc`nextPaddr
      modifies alloc`used, alloc`refs, alloc.repr, ram
      ensures Valid()
      ensures pa == 0 ==> alloc.Level().room < 4096
      ensures pa == 0 ==> roots == old(roots) && ram.frames == old(ram.frames) && alloc.refs == old(alloc.refs)
      ensures pa != 0 ==> pa == Bytes(pa / 4096) && pa < 0x1_0000_0000 && roots == old(roots) + {pa / 4096}
      ensures pa != 0 ==> Free(old(alloc.refs), alloc.freeFrame, pa / 4096) && pa / 4096 !in old(Tables())
      ensures pa != 0 ==> alloc.refs == old(alloc.refs)[pa / 4096 - alloc.freeFrame := 1]
      ensures pa != 0 ==> ram.frames == old(ram.frames)[pa / 4096 := old(ram.frames)[kernelRoot]]
      ensures pa != 0 ==> SpaceOf(pa / 4096) == old(SpaceOf(kernelRoot))
      ensures SameSpaces(old(ram.frames), ram.frames, old(roots))
      ensures Kept(old(ram.frames), ram.frames, old(alloc.refs), alloc.refs, alloc.freeFrame, old(Tables()), Tables())
      ensures Stray() <= old(Stray())
      ensures Falls(old(alloc.Level()), alloc.Level())
    {
      hide PageAllocator.Valid, TablesHeld, Trees, Space, KernelRootOk, Perm.Leaf, StrayFrames;
      RootsBounded();
      ghost var m := ram.frames;
      pa := AllocFrame();
      if pa == 0 {
        return;
      }
      ghost var m1 := ram.frames;
      var root := pa / 4096;
      CopyKeepsTrees(m1, roots, own, root, kernelRoot);
      HeldWithRoot(alloc.refs, alloc.freeFrame, roots, own, root);
      ram.frames := ram.frames[root := ram.frames[kernelRoot]];
      ghost var t1 := Tables() + abandoned;
      roots := roots + {root};
      StrayAfterLink(alloc.refs, alloc.freeFrame, t1, Tables() + abandoned, root);
    }

    /** vm_map_identity_segment for each segment in turn. */
    method MapSegments(root: nat, segments: seq<Segment>) returns (rc: int)
      requires Valid() && root in roots && (forall i | 0 <= i < |segments| :: segments[i].Ok())
      modifies this`own, alloc`freeRuns, alloc`freeMetaNodes, alloc`runs, alloc`metas, alloc`contents, alloc`nextPaddr
      modifies alloc`used, alloc`refs, alloc.repr, ram
      ensures Valid() && (rc == 0 || rc == -1)
      ensures rc == -1 ==> alloc.Level().room < 4096
      ensures rc == 0 ==> SpaceOf(root) == OverlayAll(old(SpaceOf(root)), segments)
      ensures forall r | r in roots && r != root :: SpaceOf(r) == old(SpaceOf(r))
      ensures OtherRootsKept(old(ram.frames), ram.frames, roots, root)
      ensures Kept(old(ram.frames), ram.frames, old(alloc.refs), alloc.refs, alloc.freeFrame, old(Tables()), Tables())
      ensures Stray() <= old(Stray())
      ensures Falls(old(alloc.Level()), alloc.Level())
      ensures OwnGrows(old(own), own, root)
    {
      hide PageAllocator.Valid, TablesHeld, Trees, Kept, Space, Perm.Leaf, Overlay, OverlayAll, StrayFrames;
      RootsBounded();
      KeptRefl(ram.frames, alloc.refs, alloc.freeFrame, Tables());
      OverlayAllNone(SpaceOf(root), segments);
      rc := 0;
      var i := 0;
      while i < |segments|
        invariant 0 <= i <= |segments| && Valid() && rc == 0
        invariant SpaceOf(root) == OverlayAll(old(SpaceOf(root)), segments[..i])
        invariant forall r | r in roots && r != root :: SpaceOf(r) == old(SpaceOf(r))
        invariant OtherRootsKept(old(ram.frames), ram.frames, roots, root)
        invariant Kept(old(ram.frames), ram.frames, old(alloc.refs), alloc.refs, alloc.freeFrame, old(Tables()),
                       Tables())
        invariant Stray() <= old(Stray()) && Falls(old(alloc.Level()), alloc.Level())
        invariant OwnGrows(old(own), own, root)
      {
        ghost var m1, r1, t1 := ram.frames, alloc.refs, Tables();
        var s := segments[i];
        OverlayAllNext(old(SpaceOf(root)), segments, i);
        if s.end > s.start {
          SegmentFits(s);
          rc := MapRange4k(root, s.start, s.start, (s.end - s.start) / 4096, s.perm);
          KeptTrans(old(ram.frames), m1, ram.frames, old(alloc.refs), r1, alloc.refs, alloc.freeFrame, old(Tables()),
                    t1, Tables());
          if rc < 0 {
            return;
          }
        }
        i := i + 1;
      }
      assert segments[..i] == segments;
    }

    /** free_pages(root_pa, 1) after a failed build: the root is free again, its
        second-level tables stay allocated but belong to nobody. */
    method DiscardRoot(root: nat)
      requires Valid() && root in roots && root != kernelRoot
      requires Held(alloc.refs, alloc.freeFrame, root)
      modifies this`roots, this`own, this`abandoned, alloc, alloc.repr
      ensures Valid() && roots == old(roots) - {root} && fresh(alloc.repr - old(alloc.repr))
      ensures own == map t | t in old(own) && old(own)[t].0 != root :: old(own)[t]
      ensures |alloc.refs| == |old(alloc.refs)|
      ensures forall j | 0 <= j < |alloc.refs| && j != root - alloc.freeFrame :: alloc.refs[j] == old(alloc.refs)[j]
      ensures Falls(old(alloc.Level()), alloc.Level())
      ensures old(alloc.refs)[root - alloc.freeFrame] == 1 ==> alloc.leakWarned || Stray() <= old(Stray())
    {
      hide TablesHeld, Trees, Space, PageAllocator.Valid, Dropped, StrayFrames;
      RootsBounded();
      FrameAddress();
      PageIndex(alloc.freeFrame, root - alloc.freeFrame);
      ghost var r := alloc.refs;
      var panicked, moments := alloc.FreePages(Bytes(root), 1);
      DroppedOne(r, alloc.refs, root - alloc.freeFrame, alloc.OutOfNodes() && alloc.leakWarned);
      ghost var own' := map t | t in own && own[t].0 != root :: own[t];
      DiscardKeepsTrees(ram.frames, roots, own, root, own');
      DiscardKeepsHeld(r, alloc.refs, alloc.freeFrame, roots, own, root, own');
      ghost var t1 := Tables() + abandoned;
      abandoned := abandoned + (own.Keys - own'.Keys);
      roots := roots - {root};
      own := own';
      StrayAfterDiscard(r, alloc.refs, alloc.freeFrame, t1, Tables() + abandoned, root, alloc.leakWarned);
    }

    lemma FrameAddress()
      requires alloc.Valid()
      ensures alloc.freeRam == Bytes(alloc.freeFrame) && |alloc.refs| == alloc.managed
    {}

    /** vm_build_user_satp: a root that maps what the kernel's maps, overlaid with the
        user-visible segments of the image and the stack; 0 when memory runs out. */
    method BuildUserSatp(stackBase: nat, stackPa: nat, stackPages: nat, image: seq<Segment>) returns (satp: nat)
      requires Valid() && Booted() && (forall i | 0 <= i < |image| :: image[i].Ok())
      requires stackBase / 4096 + stackPages <= PAGES && stackPa / 4096 + stackPages <= FRAMES
      requires Aligned(stackBase) && Aligned(stackPa)
      modifies this`roots, this`own, this`abandoned, alloc, alloc.repr, ram
      ensures Valid() && Booted() && fresh(alloc.repr - old(alloc.repr))
      ensures satp == 0 ==> roots == old(roots)
      ensures satp != 0 ==> roots == old(roots) + {RootFromSatp(satp)} && RootFromSatp(satp) !in old(Tables())
      ensures satp != 0 ==> Free(old(alloc.refs), alloc.freeFrame, RootFromSatp(satp))
      ensures satp != 0 ==>
                SpaceOf(RootFromSatp(satp)) ==
                Overlay(OverlayAll(old(SpaceOf(kernelRoot)), image), stackBase / 4096, stackPages, stackPa / 4096,
                        STACK_PERM)
      ensures SameSpaces(old(ram.frames), ram.frames, old(roots))
      ensures Kept(old(ram.frames), ram.frames, old(alloc.refs), alloc.refs, alloc.freeFrame, old(Tables()), Tables())
      ensures Falls(old(alloc.Level()), alloc.Level()) && (alloc.leakWarned || Stray() <= old(Stray()))
      ensures satp == 0 ==> alloc.Level().room < 4096
    {
      hide PageAllocator.Valid, TablesHeld, Trees, Kept, Space, KernelRootOk, Overlay, OverlayAll, Segment.Ok,
        StrayFrames, PageTables.Stray, PageAllocator.Level, Bytes;
      satp := 0;
      var rootPa := CopyKernelRoot();
      if rootPa == 0 {
        return;
      }
      var root := rootPa / 4096;
      ghost var m1, r1, t1 := ram.frames, alloc.refs, Tables();
      var rc := FillRoot(root, stackBase, stackPa, stackPages, image);
      KeptTrans(old(ram.frames), m1, ram.frames, old(alloc.refs), r1, alloc.refs, alloc.freeFrame, old(Tables()), t1,
                Tables());
      if rc < 0 {
        ghost var r2, t2 := alloc.refs, Tables();
        RootHeld(root);
        KeptCount(m1, ram.frames, r1, r2, alloc.freeFrame, t1, t2, root);
        DiscardRoot(root);
        KeptAfterDiscard(old(ram.frames), ram.frames, old(alloc.refs), r2, alloc.refs, alloc.freeFrame, old(Tables()),
                         t2, Tables(), root);
        return;
      }
      satp := MakeSatp(rootPa);
      SatpRoot(rootPa);
    }

    lemma RootHeld(root: nat)
      requires HeldOk() && root in roots
      ensures Held(alloc.refs, alloc.freeFrame, root)
    {}

    /** The segments and the stack of a new address space. */
    method FillRoot(root: nat, stackBase: nat, stackPa: nat, stackPages: nat, image: seq<Segment>) returns (rc: int)
      requires Valid() && root in roots && (forall i | 0 <= i < |image| :: image[i].Ok())
      requires stackBase / 4096 + stackPages <= PAGES && stackPa / 4096 + stackPages <= FRAMES
      requires Aligned(stackBase) && Aligned(stackPa)
      modifies this`own, alloc`freeRuns, alloc`freeMetaNodes, alloc`runs, alloc`metas, alloc`contents, alloc`nextPaddr
      modifies alloc`used, alloc`refs, alloc.repr, ram
      ensures Valid() && (rc == 0 || rc == -1)
      ensures rc == -1 ==> alloc.Level().room < 4096
      ensures rc == 0 ==>
                SpaceOf(root) ==
                Overlay(OverlayAll(old(SpaceOf(root)), image), stackBase / 4096, stackPages, stackPa / 4096, STACK_PERM)
      ensures forall r | r in roots && r != root :: SpaceOf(r) == old(SpaceOf(r))
      ensures OtherRootsKept(old(ram.frames), ram.frames, roots, root)
      ensures Kept(old(ram.frames), ram.frames, old(alloc.refs), alloc.refs, alloc.freeFrame, old(Tables()), Tables())
      ensures Stray() <= old(Stray())
      ensures Falls(old(alloc.Level()), alloc.Level())
      ensures OwnGrows(old(own), own, root)
    {
      hide PageAllocator.Valid, TablesHeld, Trees, Kept, Space, Overlay, OverlayAll, Segment.Ok, StrayFrames;
      RootsBounded();
      rc := MapSegments(root, image);
      if rc < 0 {
        return;
      }
      ghost var s1 := SpaceOf(root);
      if stackPages > 0 {
        ghost var m1, r1, t1 := ram.frames, alloc.refs, Tables();
        rc := MapRange4k(root, stackBase, stackPa, stackPages, STACK_PERM);
        KeptTrans(old(ram.frames), m1, ram.frames, old(alloc.refs), r1, alloc.refs, alloc.freeFrame, old(Tables()), t1,
                  Tables());
      } else {
        OverlayNone(s1, stackBase / 4096, stackPa / 4096, STACK_PERM);
      }
    }

    /** vm_map_range_4m over n first-level entries: each maps its 4 MiB to those of the
        slots from `to` on. */
    method MapRange4m(root: nat, slot: nat, to: nat, n: nat, perm: Perm)
      requires root < FRAMES && slot + n <= WORDS && to + n <= WORDS
      modifies ram
      ensures ram.frames == old(ram.frames)[root := ram.frames[root]]
      ensures forall j | 0 <= j < WORDS ::
                ram.frames[root][j] == if slot <= j < slot + n then Megapage(to + j - slot, perm)
                                       else old(ram.frames)[root][j]
    {
      hide PteFromPa;
      var i := 0;
      while i < n
        invariant 0 <= i <= n
        invariant forall j | 0 <= j < WORDS ::
                    ram.frames[root][j] == if slot <= j < slot + i then Megapage(to + j - slot, perm)
                                           else old(ram.frames)[root][j]
        invariant ram.frames == old(ram.frames)[root := ram.frames[root]]
      {
        SlotAddress(to + i);
        ram.frames := ram.frames[root := ram.frames[root][slot + i := PteFromPa(Bytes(1024 * (to + i)), perm)]];
        i := i + 1;
      }
    }

    /** The kernel's root table: the devices and the RAM, each at its own address. */
    method FillKernelRoot(root: nat)
      requires root < FRAMES
      modifies ram
      ensures ram.frames == old(ram.frames)[root := ram.frames[root]]
      ensures forall j | 0 <= j < WORDS ::
                ram.frames[root][j] == if KernelPerm(j).Some? then Megapage(j, KernelPerm(j).value) else 0
    {
      hide Megapage;
      ghost var m := ram.frames;
      ram.ClearFrames(root, 1);
      ClearedOne(m, ram.frames, root);
      MapRange4m(root, 0x08, 0x08, 1, KERNEL_RW);
      MapRange4m(root, 0x30, 0x30, 1, KERNEL_RW);
      MapRange4m(root, 0x40, 0x40, 8, KERNEL_RW);
      MapRange4m(root, 0x200, 0x200, 16, KERNEL_RWX);
    }

    /** vm_init: the kernel's root, in which the devices and the RAM translate to
        themselves, and nothing else is mapped. */
    method VmInit() returns (rc: int)
      requires Valid() && roots == {} && own == map[]
      modifies this`roots, this`kernelRoot, alloc`freeRuns, alloc`freeMetaNodes, alloc`runs, alloc`metas, alloc`contents
      modifies alloc`nextPaddr, alloc`used, alloc`refs, alloc.repr, ram
      ensures Valid() && (rc == 0 || rc == -1)
      ensures rc == -1 <==> old(alloc.NoPageLeft())
      ensures SameOutside(old(ram.frames), ram.frames, alloc.freeFrame, alloc.managed)
      ensures rc == 0 ==> Booted() && Stray() <= old(Stray())
      ensures rc == 0 ==> forall v | 0 <= v < PAGES :: Walk(ram.frames, kernelRoot, v) == KernelWalk(v)
    {
      hide PageAllocator.Valid, KernelRootOk, Trees, TablesHeld, TablesOk, Kept, StrayFrames, Megapage, Walk,
        PageAllocator.Level;
      AllocSizes();
      var pa := AllocFrame();
      if pa == 0 {
        return -1;
      }
      var root := pa / 4096;
      FillKernelRoot(root);
      KernelWalks(ram.frames, root);
      KernelRootMade(ram.frames[root]);
      LoneRootOk(ram.frames, root, alloc.refs, alloc.freeFrame);
      ghost var t1 := Tables() + abandoned;
      roots := {root};
      StrayAfterLink(alloc.refs, alloc.freeFrame, t1, Tables() + abandoned, root);
      kernelRoot := root;
      rc := 0;
    }
  }

  lemma DroppedOne(r: seq<nat>, s: seq<nat>, i: nat, noNodes: bool)
    requires Dropped(r, s, i, 1, noNodes)
    ensures |s| == |r| && forall j | 0 <= j < |r| && j != i :: s[j] == r[j]
  {}

  lemma SatpRoot(rootPa: nat)
    requires rootPa < 0x1_0000_0000
    ensures MakeSatp(rootPa) != 0 && RootFromSatp(MakeSatp(rootPa)) == rootPa / 4096
  {}

  lemma KeptAfterDiscard(m: Memory, m1: Memory, r: seq<nat>, r1: seq<nat>, r2: seq<nat>, base: nat,
                         tables: set<nat>, tables1: set<nat>, tables2: set<nat>, root: nat)
    requires Kept(m, m1, r, r1, base, tables, tables1) && tables2 <= tables1 && Free(r, base, root)
    requires |r2| == |r1| && forall j | 0 <= j < |r1| && j != root - base :: r2[j] == r1[j]
    ensures Kept(m, m1, r, r2, base, tables, tables2)
  {}

  lemma SlotAddress(i: nat)
    requires i < WORDS
    ensures Bytes(1024 * i) < 0x1_0000_0000 && Bytes(1024 * i) / 4096 == 1024 * i
  {}

  const KERNEL_RW: Perm := Perm(true, true, false, false)
  const KERNEL_RWX: Perm := Perm(true, true, true, false)

  /** The first-level leaf for the 4 MiB of slot i. */
  function Megapage(i: nat, perm: Perm): Word
    requires i < WORDS
  {
    SlotAddress(i);
    PteFromPa(Bytes(1024 * i), perm)
  }

  /** The permissions of the kernel in a first-level slot. */
  function KernelPerm(slot: nat): Option<Perm> {
    if slot == 0x08 || slot == 0x30 || 0x40 <= slot < 0x48 then Some(KERNEL_RW)
    else if 0x200 <= slot < 0x210 then Some(KERNEL_RWX)
    else None
  }

  /** How the kernel translates page v. */
  function KernelWalk(v: nat): Option<Leaf> {
    var perm := KernelPerm(v / 1024);
    if perm.Some? then Some(Leaf(v, perm.value)) else None
  }

  lemma KernelWalks(m: Memory, root: nat)
    requires root < FRAMES
    requires forall j | 0 <= j < WORDS ::
               m[root][j] == if KernelPerm(j).Some? then Megapage(j, KernelPerm(j).value) else 0
    ensures forall v | 0 <= v < PAGES :: Walk(m, root, v) == KernelWalk(v)
  {
    hide Megapage;
    DecodeZero();
    forall v | 0 <= v < PAGES ensures Walk(m, root, v) == KernelWalk(v) {
      if KernelPerm(Vpn1(v)).Some? {
        MegapageMaps(Vpn1(v), KernelPerm(Vpn1(v)).value, v);
      }
    }
  }

  lemma MegapageMaps(i: nat, perm: Perm, v: nat)
    requires i < WORDS && perm.Leaf() && v / 1024 == i
    ensures var p := Decode(Megapage(i, perm)); p.v && p.perm == perm && SuperFrame(p, Vpn0(v)) == v
  {
    hide Encode, Decode;
    SlotAddress(i);
    DecodeEncode(Pte(1024 * i, true, perm, true, true));
  }

  lemma KernelRootMade(root: Frame)
    requires forall j | 0 <= j < WORDS :: root[j] == if KernelPerm(j).Some? then Megapage(j, KernelPerm(j).value) else 0
    ensures KernelRootOk(root)
  {
    hide Megapage;
    DecodeZero();
    forall j | 0 <= j < WORDS && KernelPerm(j).Some?
      ensures Decode(root[j]).v && Decode(root[j]).perm == KernelPerm(j).value
    {
      MegapageMaps(j, KernelPerm(j).value, 1024 * j);
    }
  }

  lemma LoneRootOk(m: Memory, root: nat, refs: seq<nat>, base: nat)
    requires root < FRAMES && KernelRootOk(m[root]) && Held(refs, base, root)
    ensures Trees(m, {root}, map[]) && TablesHeld(refs, base, {root}, map[])
  {}

  const STACK_PERM: Perm := Perm(true, true, false, true)

  /** A page-aligned range of the kernel image, mapped at its own address. */
  datatype Segment = Segment(start: nat, end: nat, perm: Perm) {
    predicate Ok() { Aligned(start) && Aligned(end) && end <= 0xffff_f000 && perm.Leaf() }
    function First(): nat { start / 4096 }
    function Count(): nat { if end > start then (end - start) / 4096 else 0 }
    predicate Has(v: nat) { First() <= v < First() + Count() }
  }

  lemma SegmentFits(s: Segment)
    requires s.Ok() && s.end > s.start
    ensures s.First() + s.Count() <= PAGES && s.perm.Leaf()
  {}

  /** The segments identity-mapped one after the other. */
  ghost function OverlayAll(s: map<nat, Leaf>, segments: seq<Segment>): map<nat, Leaf> {
    if segments == [] then s
    else
      var g := segments[|segments| - 1];
      Overlay(OverlayAll(s, segments[..|segments| - 1]), g.First(), g.Count(), g.First(), g.perm)
  }

  lemma DiscardKeepsTrees(m: Memory, roots: set<nat>, own: map<nat, (nat, nat)>, root: nat, own': map<nat, (nat, nat)>)
    requires Trees(m, roots, own) && root in roots
    requires own' == map t | t in own && own[t].0 != root :: own[t]
    ensures Trees(m, roots - {root}, own')
  {}

  lemma DiscardKeepsHeld(r: seq<nat>, s: seq<nat>, base: nat, roots: set<nat>, own: map<nat, (nat, nat)>, root: nat,
                         own': map<nat, (nat, nat)>)
    requires TablesHeld(r, base, roots, own) && root in roots && root !in own
    requires own' == map t | t in own && own[t].0 != root :: own[t]
    requires |s| == |r| && forall j | 0 <= j < |r| && j != root - base :: s[j] == r[j]
    ensures TablesHeld(s, base, roots - {root}, own')
  {
    forall f | IsTableFrame(roots - {root}, own', f) ensures Held(s, base, f) {
      assert IsTableFrame(roots, own, f) && Held(r, base, f);
    }
  }

  lemma OverlayAllNone(s: map<nat, Leaf>, segments: seq<Segment>)
    ensures OverlayAll(s, segments[..0]) == s
  {}

  lemma OverlayAllNext(s: map<nat, Leaf>, segments: seq<Segment>, i: nat)
    requires i < |segments|
    ensures var g := segments[i];
            OverlayAll(s, segments[..i + 1]) == Overlay(OverlayAll(s, segments[..i]), g.First(), g.Count(), g.First(),
                                                        g.perm)
    ensures segments[i].end <= segments[i].start ==> OverlayAll(s, segments[..i + 1]) == OverlayAll(s, segments[..i])
  {
    assert segments[..i + 1][..i] == segments[..i];
  }

  ghost predicate KernelRootOk(root: Frame) {
    && (forall i | 0 <= i < WORDS ::
          !Decode(root[i]).IsTable() && (Decode(root[i]).IsLeaf() ==> !Decode(root[i]).perm.u))
    && (forall i | USER_SLOT <= i < USER_SLOT_END :: !Decode(root[i]).v)
  }

  lemma HeldWithRoot(refs: seq<nat>, base: nat, roots: set<nat>, own: map<nat, (nat, nat)>, t: nat)
    requires TablesHeld(refs, base, roots, own) && Held(refs, base, t)
    ensures TablesHeld(refs, base, roots + {t}, own)
  {}

  lemma ByteInFrame(f: nat, va: nat)
    requires f < FRAMES
    ensures (Bytes(f) + va % 4096) / 4096 == f && (Bytes(f) + va % 4096) % 4096 == va % 4096
    ensures Bytes(f) + va % 4096 < 0x1_0000_0000
  {}

  /** A copy of a root without tables translates like it and disturbs no other. */
  lemma CopyKeepsTrees(m: Memory, roots: set<nat>, own: map<nat, (nat, nat)>, root: nat, kernel: nat)
    requires Trees(m, roots, own) && root < FRAMES && !IsTableFrame(roots, own, root)
    requires kernel in roots && kernel < FRAMES && KernelRootOk(m[kernel])
    ensures Trees(m[root := m[kernel]], roots + {root}, own)
    ensures SameSpaces(m, m[root := m[kernel]], roots)
    ensures Space(m[root := m[kernel]], root) == Space(m, kernel)
  {
    hide KernelRootOk, Walk;
    var m' := m[root := m[kernel]];
    DataWriteKeepsSpaces(m, m', roots, own);
    forall v | 0 <= v < PAGES ensures Walk(m', root, v) == Walk(m, kernel, v) {
      WalkOfCopy(m, m', root, kernel, v);
    }
    CopyTrees(m, m', roots, own, root, kernel);
  }

  lemma WalkOfCopy(m: Memory, m': Memory, root: nat, kernel: nat, v: nat)
    requires root < FRAMES && kernel < FRAMES && KernelRootOk(m[kernel]) && v < PAGES && m' == m[root := m[kernel]]
    ensures Walk(m', root, v) == Walk(m, kernel, v)
  {
    assert m'[root] == m[kernel];
  }

  lemma CopyTrees(m: Memory, m': Memory, roots: set<nat>, own: map<nat, (nat, nat)>, root: nat, kernel: nat)
    requires Trees(m, roots, own) && root < FRAMES && !IsTableFrame(roots, own, root)
    requires kernel in roots && kernel < FRAMES && KernelRootOk(m[kernel]) && m' == m[root := m[kernel]]
    ensures Trees(m', roots + {root}, own)
  {
    assert m'[root] == m[kernel];
  }

  lemma OffsetPage(a: nat, i: nat, limit: nat)
    requires Aligned(a) && a / 4096 + i < limit && limit <= 0x10_0000
    ensures (a + Bytes(i)) / 4096 == a / 4096 + i && a + Bytes(i) < 0x1_0000_0000
  {}

  /** Space s with n pages from lo mapped to n frames from frame. */
  ghost function Overlay(s: map<nat, Leaf>, lo: nat, n: nat, frame: nat, perm: Perm): map<nat, Leaf> {
    if n == 0 then s
    else Overlay(s, lo, n - 1, frame, perm)[lo + n - 1 := Leaf(frame + n - 1, perm)]
  }

  lemma OverlayNone(s: map<nat, Leaf>, lo: nat, frame: nat, perm: Perm)
    ensures Overlay(s, lo, 0, frame, perm) == s
  {}

  lemma OverlayNext(s: map<nat, Leaf>, lo: nat, n: nat, frame: nat, perm: Perm)
    requires perm.Leaf()
    ensures Mapped(Overlay(s, lo, n, frame, perm), lo + n, if perm.Leaf() then Some(Leaf(frame + n, perm)) else None)
            == Overlay(s, lo, n + 1, frame, perm)
  {}

  /** The overlay is exactly the range over s. */
  lemma {:induction false} OverlayAt(s: map<nat, Leaf>, lo: nat, n: nat, frame: nat, perm: Perm, v: nat)
    ensures v in Overlay(s, lo, n, frame, perm) <==> v in s || lo <= v < lo + n
    ensures v in Overlay(s, lo, n, frame, perm) ==>
              Overlay(s, lo, n, frame, perm)[v] == if lo <= v < lo + n then Leaf(frame + (v - lo), perm) else s[v]
  {
    if n > 0 { OverlayAt(s, lo, n - 1, frame, perm, v); }
  }

  lemma NotMapped(m: Memory, root: nat, vpn: nat)
    requires root < FRAMES && vpn < PAGES && !Decode(m[root][Vpn1(vpn)]).v
    ensures vpn !in Space(m, root) && Space(m, root) - {vpn} == Space(m, root)
  {}

  /** A mapped page in the user slots goes through a table, so mapping it again
      allocates nothing and cannot fail. */
  lemma MappedHasTable(m: Memory, roots: set<nat>, root: nat, vpn: nat)
    requires UserSlotsPlain(m, roots) && root in roots && root < FRAMES
    requires vpn in Space(m, root) && USER_SLOT <= Vpn1(vpn) < USER_SLOT_END
    ensures HasTable(m, root, vpn)
  {}

  /** Held frames keep their counts and, unless they are page tables, their contents;
      so do the frames outside the managed range. New tables were free frames. */
  ghost predicate Kept(m: Memory, m': Memory, r: seq<nat>, s: seq<nat>, base: nat, tables: set<nat>,
                       tables': set<nat>) {
    && |s| == |r|
    && (forall i | 0 <= i < |r| && r[i] > 0 :: s[i] == r[i])
    && (forall f | 0 <= f < FRAMES && f !in tables && !Free(r, base, f) :: m'[f] == m[f])
    && (forall t | t in tables' :: t in tables || Free(r, base, t))
  }

  /** Frame f is a managed page without a reference. */
  ghost predicate Free(refs: seq<nat>, base: nat, f: nat) {
    base <= f < base + |refs| && refs[f - base] == 0
  }

  lemma KeptCount(m: Memory, m': Memory, r: seq<nat>, s: seq<nat>, base: nat, tables: set<nat>, tables': set<nat>,
                  f: nat)
    requires Kept(m, m', r, s, base, tables, tables') && Held(r, base, f)
    ensures Held(s, base, f) && s[f - base] == r[f - base]
  {}

  /** The managed pages in use that are not among the known ones. */
  ghost function StrayFrames(refs: seq<nat>, base: nat, known: set<nat>): set<nat> {
    set f: nat | base <= f < base + |refs| && Held(refs, base, f) && f !in known :: f
  }

  lemma StrayAfterNew(r: seq<nat>, s: seq<nat>, base: nat, known: set<nat>, f: nat)
    requires NewFrame(r, s, base, f)
    ensures StrayFrames(s, base, known) <= StrayFrames(r, base, known) + {f}
  {}

  lemma StrayAfterLink(r: seq<nat>, base: nat, known: set<nat>, known': set<nat>, f: nat)
    requires known' == known + {f}
    ensures StrayFrames(r, base, known') == StrayFrames(r, base, known) - {f}
  {}

  /** The root's page is free again; what else was known is known still. */
  lemma StrayAfterDiscard(r: seq<nat>, s: seq<nat>, base: nat, known: set<nat>, known': set<nat>, root: nat, leak: bool)
    requires base <= root < base + |r| && |s| == |r| && known <= known' + {root}
    requires forall j | 0 <= j < |r| && j != root - base :: s[j] == r[j]
    requires s[root - base] + 1 == r[root - base] || leak
    ensures r[root - base] == 1 ==> leak || StrayFrames(s, base, known') <= StrayFrames(r, base, known)
  {
    forall f | f in StrayFrames(s, base, known') && f != root ensures f in StrayFrames(r, base, known) {
      assert base <= f < base + |r| && s[f - base] == r[f - base];
      assert Held(r, base, f) && f !in known;
    }
  }

  lemma KeptRefl(m: Memory, r: seq<nat>, base: nat, tables: set<nat>)
    ensures Kept(m, m, r, r, base, tables, tables)
  {}

  lemma KeptTrans(m: Memory, m1: Memory, m2: Memory, r: seq<nat>, r1: seq<nat>, r2: seq<nat>, base: nat,
                  tables: set<nat>, tables1: set<nat>, tables2: set<nat>)
    requires Kept(m, m1, r, r1, base, tables, tables1) && Kept(m1, m2, r1, r2, base, tables1, tables2)
    requires tables <= tables1
    ensures Kept(m, m2, r, r2, base, tables, tables2)
  {}

  lemma KeptByLink(m: Memory, m1: Memory, m2: Memory, r: seq<nat>, s: seq<nat>, base: nat,
                   roots: set<nat>, own: map<nat, (nat, nat)>, t: nat, o: (nat, nat))
    requires NewFrame(r, s, base, t) && t < FRAMES && m1 == m[t := ZeroFrame()]
    requires OnlyTablesChange(m1, m2, roots, own[t := o])
    ensures Kept(m, m2, r, s, base, roots + own.Keys, roots + own[t := o].Keys)
  {}

  lemma KeptThenWrite(m: Memory, m1: Memory, m2: Memory, r: seq<nat>, s: seq<nat>, base: nat,
                      tables: set<nat>, tables': set<nat>, t: nat)
    requires Kept(m, m1, r, s, base, tables, tables') && t in tables'
    requires forall f | 0 <= f < FRAMES && f != t :: m2[f] == m1[f]
    ensures Kept(m, m2, r, s, base, tables, tables')
  {}

  /** The tables of one root grow. */
  ghost predicate OwnGrows(own: map<nat, (nat, nat)>, own': map<nat, (nat, nat)>, root: nat) {
    && (forall t | t in own :: t in own' && own'[t] == own[t])
    && (forall t | t in own' :: t in own || own'[t].0 == root)
  }

  /** Frame f was free and has its first reference. */
  ghost predicate NewFrame(r: seq<nat>, s: seq<nat>, base: nat, f: nat) {
    base <= f < base + |r| && r[f - base] == 0 && s == r[f - base := 1]
  }

  ghost predicate OtherRootsKept(m: Memory, m': Memory, roots: set<nat>, root: nat) {
    forall r | r in roots && r < FRAMES && r != root :: m'[r] == m[r]
  }

  /** Only page tables were written. */
  ghost predicate OnlyTablesChange(m: Memory, m': Memory, roots: set<nat>, own': map<nat, (nat, nat)>) {
    forall f | 0 <= f < FRAMES && !IsTableFrame(roots, own', f) :: m'[f] == m[f]
  }

  /** Allocating one frame leaves the trees, and every translation, alone. */
  lemma AllocKeepsTrees(m: Memory, m': Memory, r: seq<nat>, s: seq<nat>, base: nat, i: nat,
                        roots: set<nat>, own: map<nat, (nat, nat)>)
    requires Trees(m, roots, own) && TablesHeld(r, base, roots, own)
    requires i < |r| && base + i < FRAMES && Marked(r, s, i, 1) && Cleared(m, m', base + i, 1)
    ensures Trees(m', roots, own) && TablesHeld(s, base, roots, own) && SameSpaces(m, m', roots)
    ensures NewFrame(r, s, base, base + i) && m' == m[base + i := ZeroFrame()]
    ensures !IsTableFrame(roots, own, base + i)
  {
    ClearedOne(m, m', base + i);
    assert s == r[i := 1];
    assert !IsTableFrame(roots, own, base + i);
    DataWriteKeepsSpaces(m, m', roots, own);
  }

  lemma LinkKeepsTrees(m: Memory, roots: set<nat>, own: map<nat, (nat, nat)>, t: nat, root: nat, slot: nat,
                       table: Frame, w: Word)
    requires Trees(m, roots, own) && t < FRAMES && !IsTableFrame(roots, own, t) && root in roots && slot < WORDS
    requires !Decode(m[root][slot]).IsTable() && Splits(table, Decode(m[root][slot]))
    requires Decode(w).IsTable() && Decode(w).ppn == t
    ensures Trees(m[t := table][root := m[root][slot := w]], roots, own[t := (root, slot)])
    ensures SameSpaces(m, m[t := table][root := m[root][slot := w]], roots)
    ensures OnlyTablesChange(m, m[t := table][root := m[root][slot := w]], roots, own[t := (root, slot)])
  {
    LinkKeepsSpaces(m, roots, own, t, root, slot, table, w);
    var m' := m[t := table][root := m[root][slot := w]];
    forall r, i | r in roots && r < FRAMES && USER_SLOT <= i < USER_SLOT_END ensures !Decode(m'[r][i]).IsLeaf() {
      if r == root { assert m'[r] == m[root][slot := w]; } else { assert m'[r] == m[r]; }
    }
  }

  lemma HeldWith(refs: seq<nat>, base: nat, roots: set<nat>, own: map<nat, (nat, nat)>, t: nat, o: (nat, nat))
    requires TablesHeld(refs, base, roots, own) && Held(refs, base, t)
    ensures TablesHeld(refs, base, roots, own[t := o])
  {}

  lemma ClearedOne(m: Memory, m': Memory, f: nat)
    requires f < FRAMES && Cleared(m, m', f, 1)
    ensures m' == m[f := ZeroFrame()]
  {}

  lemma SuperAddress(p: Pte, i: nat)
    requires i < WORDS
    ensures Bytes(SuperFrame(p, 0)) + Bytes(i) < 0x1_0000_0000
    ensures (Bytes(SuperFrame(p, 0)) + Bytes(i)) / 4096 == SuperFrame(p, i)
  {}
}
