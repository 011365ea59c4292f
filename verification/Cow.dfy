/** What copy-on-write must keep, on values: the translations of all processes, the
    reference counts and the memory, against the memory each process would have if
    every fork copied every page. */
module Cow {
  import opened Common
  import Counting
  import opened FreeRuns
  import opened Phys
  import opened PageAlloc
  import opened Sv32
  import opened Vm
  import opened Vma

  /** Page p lies in the user slots: the mmap window and the stack. */
  predicate Region(p: nat) { 0x2_0000 <= p < 0x4_0000 }

  type Leaves = map<nat, Leaf>

  ghost function Users(s: Leaves): Leaves { map p | p in s && Region(p) :: s[p] }
  ghost function Others(s: Leaves): Leaves { map p | p in s && !Region(p) :: s[p] }

  /** All the leaf entries, process and page, that map frame f. */
  ghost function Sharers(spaces: seq<Leaves>, f: nat): set<(nat, nat)> {
    set i: nat, p: nat | i < |spaces| && p in spaces[i] && spaces[i][p].frame == f :: (i, p)
  }

  /** Everything the processes' memory depends on. */
  datatype World = World(mem: Memory, refs: seq<nat>, base: nat, tables: set<nat>, spaces: seq<Leaves>,
                         areas: seq<seq<UserVma>>)

  /** The count of frame f is the number of leaf entries that map it. */
  ghost predicate CountOk(w: World, f: nat) {
    Held(w.refs, w.base, f) && f < FRAMES && f !in w.tables && w.refs[f - w.base] == |Sharers(w.spaces, f)|
  }

  ghost predicate CountsOk(w: World) {
    forall f: nat | Sharers(w.spaces, f) != {} :: CountOk(w, f)
  }

  /** Two entries for one frame have the same page number, and if one of them is
      writable they are the same entry. */
  ghost predicate PairOk(spaces: seq<Leaves>, i: nat, p: nat, j: nat, q: nat)
    requires i < |spaces| && p in spaces[i] && j < |spaces| && q in spaces[j]
  {
    spaces[i][p].frame == spaces[j][q].frame ==> p == q && (spaces[i][p].perm.w || spaces[j][q].perm.w ==> i == j)
  }

  ghost predicate SharingOk(spaces: seq<Leaves>) {
    && |spaces| == PROC_MAX
    && (forall i, p | 0 <= i < |spaces| && p in spaces[i] ::
          Region(p) && spaces[i][p].perm.u && spaces[i][p].perm.Leaf())
    && (forall i, p, j, q | 0 <= i < |spaces| && p in spaces[i] && 0 <= j < |spaces| && q in spaces[j] ::
          PairOk(spaces, i, p, j, q))
  }

  /** The permissions of the area, or those without W while the page is shared. */
  predicate PermFits(perm: Perm, prot: Prot) {
    perm == UserPerm(prot) || perm == UserPerm(prot.(w := false))
  }

  /** Every mapped page lies in an area whose permissions it has, and a page no
      store can have reached is still zero. */
  ghost predicate PageOk(areas: seq<UserVma>, space: Leaves, mem: Memory, p: nat)
    requires p in space
  {
    && ProtAt(areas, p).Some? && PermFits(space[p].perm, ProtAt(areas, p).value)
    && (!(ProtAt(areas, p).value.r && ProtAt(areas, p).value.w) ==> Content(space, mem, p) == ZeroFrame())
  }

  ghost predicate PagesOk(areas: seq<UserVma>, space: Leaves, mem: Memory) {
    forall p | p in space :: PageOk(areas, space, mem, p)
  }

  /** What page p holds: zeros until it is first mapped. */
  ghost function Content(space: Leaves, mem: Memory, p: nat): Frame {
    if p in space && space[p].frame < FRAMES then mem[space[p].frame] else ZeroFrame()
  }

  const STACK_PAGE: nat := 0x3_fffe

  ghost predicate AreasOk(areas: seq<UserVma>) { VmasOk(areas) && AllPlaced(areas) }

  ghost predicate HasStack(areas: seq<UserVma>) {
    && ProtAt(areas, STACK_PAGE) == Some(Prot(true, true, false))
    && ProtAt(areas, STACK_PAGE + 1) == Some(Prot(true, true, false))
  }

  ghost predicate Inv(w: World) {
    && CountsOk(w) && SharingOk(w.spaces) && |w.areas| == PROC_MAX && |w.spaces| == PROC_MAX
    && (forall i | 0 <= i < PROC_MAX :: AreasOk(w.areas[i]) && PagesOk(w.areas[i], w.spaces[i], w.mem))
  }

  /** A page as its process sees it. */
  datatype Cell = Cell(prot: Prot, data: Frame)

  /** The memory of a process: each page of its areas, with zeros where nothing is mapped. */
  ghost function View(w: World, i: nat): map<nat, Cell>
    requires i < |w.areas| && i < |w.spaces|
  {
    map p: nat | p < 0x4_0000 && Region(p) && ProtAt(w.areas[i], p).Some? ::
      Cell(ProtAt(w.areas[i], p).value, Content(w.spaces[i], w.mem, p))
  }

  ghost predicate SameView(w: World, w': World, i: nat) {
    i < |w.areas| && i < |w.spaces| && i < |w'.areas| && i < |w'.spaces| && View(w', i) == View(w, i)
  }

  lemma ViewsSame(w: World, w': World, i: nat)
    requires i < |w.areas| && i < |w.spaces| && i < |w'.areas| && i < |w'.spaces| && w'.areas[i] == w.areas[i]
    requires forall p | Region(p) :: Content(w'.spaces[i], w'.mem, p) == Content(w.spaces[i], w.mem, p)
    ensures SameView(w, w', i)
  {}

  // ---------------------------------------------------------------------
  // Sharers under one change of one entry.

  lemma SharersMapped(spaces: seq<Leaves>, i: nat, p: nat, leaf: Option<Leaf>, f: nat)
    requires i < |spaces|
    ensures Sharers(spaces[i := Mapped(spaces[i], p, leaf)], f)
            == (Sharers(spaces, f) - {(i, p)}) + (if leaf.Some? && leaf.value.frame == f then {(i, p)} else {})
  {
    var t := spaces[i := Mapped(spaces[i], p, leaf)];
    var s := (Sharers(spaces, f) - {(i, p)}) + (if leaf.Some? && leaf.value.frame == f then {(i, p)} else {});
    forall j, q ensures (j, q) in Sharers(t, f) <==> (j, q) in s {
    }
  }

  lemma Single(spaces: seq<Leaves>, i: nat, p: nat)
    requires SharingOk(spaces) && i < |spaces| && p in spaces[i]
    ensures (i, p) in Sharers(spaces, spaces[i][p].frame)
    ensures spaces[i][p].perm.w ==> Sharers(spaces, spaces[i][p].frame) == {(i, p)}
  {
    if spaces[i][p].perm.w {
      forall x | x in Sharers(spaces, spaces[i][p].frame) ensures x == (i, p) {
        assert PairOk(spaces, i, p, x.0, x.1);
      }
    }
  }

  /** A frame has at most one entry per process, so no count exceeds PROC_MAX and the
      16-bit counter never wraps. */
  lemma SharersBounded(spaces: seq<Leaves>, f: nat)
    requires SharingOk(spaces)
    ensures |Sharers(spaces, f)| <= PROC_MAX
  {
    var s := Sharers(spaces, f);
    forall x, y | x in s && y in s && x.0 == y.0 ensures x == y {
      assert PairOk(spaces, x.0, x.1, y.0, y.1);
    }
    ProjectInjective(s);
    Counting.SubsetSize(Owners(s), Counting.UpTo(PROC_MAX));
  }

  ghost function Owners(s: set<(nat, nat)>): set<nat> { set x | x in s :: x.0 }

  lemma {:induction false} ProjectInjective(s: set<(nat, nat)>)
    requires forall x, y | x in s && y in s && x.0 == y.0 :: x == y
    ensures |Owners(s)| == |s|
  {
    if s != {} {
      var x :| x in s;
      ProjectInjective(s - {x});
      assert Owners(s) == Owners(s - {x}) + {x.0};
      assert x.0 !in Owners(s - {x});
    }
  }

  // ---------------------------------------------------------------------
  // The steps.

  ghost predicate FrameKept(w: World, w': World, f: nat) {
    && w'.base == w.base && |w'.refs| == |w.refs|
    && (w.base <= f < w.base + |w.refs| ==> w'.refs[f - w.base] == w.refs[f - w.base])
    && (f !in w.tables ==> f !in w'.tables)
  }

  /** The mapped frames, but these, keep their counts and are still no tables. */
  ghost predicate CountsKept(w: World, w': World, but: set<nat>) {
    forall f: nat | Sharers(w.spaces, f) != {} && f !in but :: FrameKept(w, w', f)
  }

  /** The mapped frames keep their contents. */
  ghost predicate DataKept(w: World, w': World) {
    forall f: nat | Sharers(w.spaces, f) != {} && f < FRAMES :: w'.mem[f] == w.mem[f]
  }

  lemma ContentKept(w: World, w': World, j: nat, q: nat)
    requires CountsOk(w) && DataKept(w, w') && j < |w.spaces| && j < |w'.spaces|
    requires q in w'.spaces[j] <==> q in w.spaces[j]
    requires q in w.spaces[j] ==> w'.spaces[j][q] == w.spaces[j][q]
    ensures Content(w'.spaces[j], w'.mem, q) == Content(w.spaces[j], w.mem, q)
  {
    if q in w.spaces[j] {
      assert (j, q) in Sharers(w.spaces, w.spaces[j][q].frame);
      assert CountOk(w, w.spaces[j][q].frame);
    }
  }

  /** Process j, whose entries stay, keeps its pages and its view. */
  lemma SpaceKept(w: World, w': World, j: nat)
    requires CountsOk(w) && DataKept(w, w') && j < |w.spaces| && j < |w'.spaces| && j < |w.areas| && j < |w'.areas|
    requires w'.spaces[j] == w.spaces[j] && w'.areas[j] == w.areas[j] && PagesOk(w.areas[j], w.spaces[j], w.mem)
    ensures PagesOk(w'.areas[j], w'.spaces[j], w'.mem) && SameView(w, w', j)
  {
    hide CountsOk, DataKept, Content;
    forall q: nat ensures Content(w'.spaces[j], w'.mem, q) == Content(w.spaces[j], w.mem, q) {
      ContentKept(w, w', j, q);
    }
    forall q | q in w'.spaces[j] ensures PageOk(w'.areas[j], w'.spaces[j], w'.mem, q) {
      assert PageOk(w.areas[j], w.spaces[j], w.mem, q);
    }
  }

  ghost predicate Grown(w: World, w': World) {
    w'.spaces == w.spaces && w'.areas == w.areas && CountsKept(w, w', {}) && DataKept(w, w')
  }

  /** Work on frames nobody maps changes nobody's memory. */
  lemma GrownKeeps(w: World, w': World)
    requires Inv(w) && Grown(w, w')
    ensures Inv(w') && forall i | 0 <= i < PROC_MAX :: SameView(w, w', i)
  {
    forall f: nat | Sharers(w'.spaces, f) != {} ensures CountOk(w', f) {
      assert CountOk(w, f) && FrameKept(w, w', f);
    }
    forall i | 0 <= i < PROC_MAX ensures PagesOk(w'.areas[i], w'.spaces[i], w'.mem) && SameView(w, w', i) {
      SpaceKept(w, w', i);
    }
  }

  /** Entry (i, p) may map leaf next to the entries that map its frame already. */
  ghost predicate Joins(spaces: seq<Leaves>, i: nat, p: nat, leaf: Leaf) {
    forall j, q | 0 <= j < |spaces| && q in spaces[j] && spaces[j][q].frame == leaf.frame && (j, q) != (i, p) ::
      q == p && !leaf.perm.w && !spaces[j][q].perm.w
  }

  ghost predicate Remapped(w: World, w': World, i: nat, p: nat, leaf: Option<Leaf>) {
    && i < PROC_MAX && Region(p) && |w.spaces| == PROC_MAX
    && w'.areas == w.areas && w'.spaces == w.spaces[i := Mapped(w.spaces[i], p, leaf)]
    && DataKept(w, w')
  }

  lemma RemapKeepsSharing(spaces: seq<Leaves>, i: nat, p: nat, leaf: Option<Leaf>)
    requires SharingOk(spaces) && i < PROC_MAX && Region(p)
    requires leaf.Some? ==> leaf.value.perm.u && leaf.value.perm.Leaf() && Joins(spaces, i, p, leaf.value)
    ensures SharingOk(spaces[i := Mapped(spaces[i], p, leaf)])
  {
    var t: seq<Leaves> := spaces[i := Mapped(spaces[i], p, leaf)];
    forall j: nat, q: nat | j < |t| && q in t[j] ensures Region(q) && t[j][q].perm.u && t[j][q].perm.Leaf() {
      assert (j, q) != (i, p) ==> q in spaces[j];
    }
    forall j: nat, q: nat, k: nat, r: nat | j < |t| && q in t[j] && k < |t| && r in t[k] ensures PairOk(t, j, q, k, r) {
      RemapPair(spaces, i, p, leaf, j, q, k, r);
    }
    assert SharingOk(t);
  }

  lemma RemapPair(spaces: seq<Leaves>, i: nat, p: nat, leaf: Option<Leaf>, j: nat, q: nat, k: nat, r: nat)
    requires SharingOk(spaces) && i < PROC_MAX && j < PROC_MAX && k < PROC_MAX
    requires leaf.Some? ==> Joins(spaces, i, p, leaf.value)
    requires var t := spaces[i := Mapped(spaces[i], p, leaf)]; q in t[j] && r in t[k]
    ensures PairOk(spaces[i := Mapped(spaces[i], p, leaf)], j, q, k, r)
  {
    if (j, q) != (i, p) && (k, r) != (i, p) {
      assert PairOk(spaces, j, q, k, r);
    } else if (j, q) != (i, p) {
      assert q in spaces[j];
    } else if (k, r) != (i, p) {
      assert r in spaces[k];
    }
  }

  /** The process whose page p was remapped: the other pages stay. */
  lemma RemapSelf(w: World, w': World, i: nat, p: nat, leaf: Option<Leaf>)
    requires CountsOk(w) && Remapped(w, w', i, p, leaf) && |w.areas| == PROC_MAX
             && PagesOk(w.areas[i], w.spaces[i], w.mem)
    requires leaf.Some? ==> PageOk(w.areas[i], w'.spaces[i], w'.mem, p)
    ensures PagesOk(w'.areas[i], w'.spaces[i], w'.mem)
    ensures View(w', i) == if p in View(w, i)
                           then View(w, i)[p := Cell(View(w, i)[p].prot, Content(w'.spaces[i], w'.mem, p))]
                           else View(w, i)
  {
    hide CountsOk, DataKept, Content;
    forall q: nat | q != p ensures Content(w'.spaces[i], w'.mem, q) == Content(w.spaces[i], w.mem, q) {
      ContentKept(w, w', i, q);
    }
    forall q | q in w'.spaces[i] ensures PageOk(w'.areas[i], w'.spaces[i], w'.mem, q) {
      if q != p { assert PageOk(w.areas[i], w.spaces[i], w.mem, q); }
    }
  }

  /** One entry changes: only page p of process i may look different. */
  lemma RemapKeeps(w: World, w': World, i: nat, p: nat, leaf: Option<Leaf>)
    requires Inv(w) && Remapped(w, w', i, p, leaf) && CountsOk(w')
    requires leaf.Some? ==> leaf.value.perm.u && leaf.value.perm.Leaf() && Joins(w.spaces, i, p, leaf.value)
    requires leaf.Some? ==> PageOk(w.areas[i], w'.spaces[i], w'.mem, p)
    ensures Inv(w') && forall j | 0 <= j < PROC_MAX && j != i :: SameView(w, w', j)
    ensures View(w', i) == if p in View(w, i)
                           then View(w, i)[p := Cell(View(w, i)[p].prot, Content(w'.spaces[i], w'.mem, p))]
                           else View(w, i)
  {
    hide CountsOk, SharingOk, DataKept, Joins, View, PageOk, AreasOk, PagesOk, SameView;
    RemapKeepsSharing(w.spaces, i, p, leaf);
    RemapSelf(w, w', i, p, leaf);
    forall j | 0 <= j < PROC_MAX && j != i ensures PagesOk(w'.areas[j], w'.spaces[j], w'.mem) && SameView(w, w', j) {
      SpaceKept(w, w', j);
    }
  }

  lemma CardLess(s: set<(nat, nat)>, x: (nat, nat))
    requires x in s
    ensures |s - {x}| == |s| - 1
  {}

  lemma CardMore(s: set<(nat, nat)>, x: (nat, nat))
    requires x !in s
    ensures |s + {x}| == |s| + 1
  {}

  /** Frame f lost a reference, or had but one. */
  ghost predicate Released(w: World, w': World, f: nat) {
    && w'.base == w.base && |w'.refs| == |w.refs| && w.base <= f < w.base + |w.refs|
    && (f !in w.tables ==> f !in w'.tables)
    && (w'.refs[f - w.base] + 1 == w.refs[f - w.base] || w.refs[f - w.base] == 1)
  }

  lemma ReleasedCount(w: World, w': World, f: nat, x: (nat, nat))
    requires CountOk(w, f) && Released(w, w', f) && x in Sharers(w.spaces, f)
    requires Sharers(w'.spaces, f) == Sharers(w.spaces, f) - {x} && Sharers(w'.spaces, f) != {}
    ensures CountOk(w', f)
  {
    CardLess(Sharers(w.spaces, f), x);
  }

  /** A frame whose entries stay and whose count stays. */
  lemma KeptCount(w: World, w': World, f: nat)
    requires CountsOk(w) && FrameKept(w, w', f) && Sharers(w'.spaces, f) == Sharers(w.spaces, f) != {}
    ensures CountOk(w', f)
  {
    assert CountOk(w, f);
  }

  lemma UnmapCounts(w: World, w': World, i: nat, p: nat)
    requires CountsOk(w) && |w.spaces| == PROC_MAX && i < PROC_MAX && p in w.spaces[i]
    requires w'.spaces == w.spaces[i := Mapped(w.spaces[i], p, None)]
    requires CountsKept(w, w', {w.spaces[i][p].frame}) && Released(w, w', w.spaces[i][p].frame)
    ensures CountsOk(w')
  {
    hide CountOk, FrameKept, Released;
    var g := w.spaces[i][p].frame;
    assert (i, p) in Sharers(w.spaces, g);
    forall f: nat | Sharers(w'.spaces, f) != {} ensures CountOk(w', f) {
      SharersMapped(w.spaces, i, p, None, f);
      if f == g { ReleasedCount(w, w', f, (i, p)); } else { KeptCount(w, w', f); }
    }
  }

  /** A page is unmapped and its frame freed: it reads as zeros from then on. */
  lemma UnmapKeeps(w: World, w': World, i: nat, p: nat)
    requires Inv(w) && Remapped(w, w', i, p, None) && p in w.spaces[i]
    requires CountsKept(w, w', {w.spaces[i][p].frame}) && Released(w, w', w.spaces[i][p].frame)
    ensures Inv(w') && forall j | 0 <= j < PROC_MAX && j != i :: SameView(w, w', j)
    ensures View(w', i) == if p in View(w, i) then View(w, i)[p := Cell(View(w, i)[p].prot, ZeroFrame())]
                           else View(w, i)
  {
    hide CountsOk, SharingOk, DataKept, View, AreasOk, PagesOk, SameView, CountsKept, Released;
    UnmapCounts(w, w', i, p);
    RemapKeeps(w, w', i, p, None);
    assert p !in w'.spaces[i];
  }

  /** A fresh frame with one reference. */
  ghost predicate Fresh(w: World, w': World, f: nat) {
    && f < FRAMES && Free(w.refs, w.base, f) && f !in w'.tables
    && w'.base == w.base && |w'.refs| == |w.refs| && w'.refs[f - w.base] == 1
  }

  lemma FreshUnshared(w: World, w': World, f: nat)
    requires CountsOk(w) && Fresh(w, w', f)
    ensures Sharers(w.spaces, f) == {}
  {
    if x :| x in Sharers(w.spaces, f) {
      assert !CountOk(w, f);
    }
  }

  lemma FreshCount(w: World, w': World, f: nat, x: (nat, nat))
    requires Fresh(w, w', f) && Sharers(w'.spaces, f) == {x}
    ensures CountOk(w', f)
  {}

  lemma InstallCounts(w: World, w': World, i: nat, p: nat, f: nat, leaf: Option<Leaf>)
    requires CountsOk(w) && |w.spaces| == PROC_MAX && i < PROC_MAX && p !in w.spaces[i]
    requires w'.spaces == w.spaces[i := Mapped(w.spaces[i], p, leaf)] && (leaf.Some? ==> leaf.value.frame == f)
    requires CountsKept(w, w', {}) && Fresh(w, w', f)
    ensures CountsOk(w')
  {
    hide CountOk, FrameKept, Fresh;
    FreshUnshared(w, w', f);
    forall g: nat | Sharers(w'.spaces, g) != {} ensures CountOk(w', g) {
      SharersMapped(w.spaces, i, p, leaf, g);
      assert (i, p) !in Sharers(w.spaces, g);
      if g == f { FreshCount(w, w', g, (i, p)); } else { KeptCount(w, w', g); }
    }
  }

  lemma FreshJoins(w: World, i: nat, p: nat, leaf: Leaf)
    requires Sharers(w.spaces, leaf.frame) == {}
    ensures Joins(w.spaces, i, p, leaf)
  {
    forall j: nat, q: nat | j < |w.spaces| && q in w.spaces[j] ensures w.spaces[j][q].frame != leaf.frame {
      assert (j, q) !in Sharers(w.spaces, leaf.frame);
    }
  }

  /** The entry a fault installs has no more than the area's permissions. */
  lemma InstalledPageOk(areas: seq<UserVma>, space: Leaves, mem: Memory, p: nat, f: nat, prot: Prot)
    requires ProtAt(areas, p) == Some(prot) && UserLeaf(f, prot).Some? && f < FRAMES
    requires !(prot.r && prot.w) ==> mem[f] == ZeroFrame()
    ensures var s := Mapped(space, p, UserLeaf(f, prot)); PageOk(areas, s, mem, p) && Content(s, mem, p) == mem[f]
  {}

  /** A demand fault maps a zeroed frame: what the process saw already. */
  lemma InstallKeeps(w: World, w': World, i: nat, p: nat, f: nat, prot: Prot)
    requires Inv(w) && Remapped(w, w', i, p, UserLeaf(f, prot)) && p !in w.spaces[i]
    requires ProtAt(w.areas[i], p) == Some(prot)
    requires CountsKept(w, w', {}) && Fresh(w, w', f) && f < FRAMES && w'.mem[f] == ZeroFrame()
    ensures Inv(w') && forall j | 0 <= j < PROC_MAX :: SameView(w, w', j)
  {
    hide CountsOk, SharingOk, DataKept, AreasOk, PagesOk, CountsKept, Fresh, Joins, ProtAt, PageOk;
    InstallCounts(w, w', i, p, f, UserLeaf(f, prot));
    FreshUnshared(w, w', f);
    FreshJoins(w, i, p, Leaf(f, UserPerm(prot)));
    if UserLeaf(f, prot).Some? { InstalledPageOk(w.areas[i], w.spaces[i], w'.mem, p, f, prot); }
    RemapKeeps(w, w', i, p, UserLeaf(f, prot));
    assert p in View(w, i) ==> View(w, i)[p] == Cell(prot, ZeroFrame());
  }

  lemma RecopyCounts(w: World, w': World, i: nat, p: nat, f: nat, leaf: Option<Leaf>)
    requires CountsOk(w) && |w.spaces| == PROC_MAX && i < PROC_MAX && p in w.spaces[i]
    requires w'.spaces == w.spaces[i := Mapped(w.spaces[i], p, leaf)] && (leaf.Some? ==> leaf.value.frame == f)
    requires CountsKept(w, w', {w.spaces[i][p].frame}) && Released(w, w', w.spaces[i][p].frame) && Fresh(w, w', f)
    ensures CountsOk(w')
  {
    hide CountOk, FrameKept, Fresh, Released;
    var old_f := w.spaces[i][p].frame;
    FreshUnshared(w, w', f);
    assert (i, p) in Sharers(w.spaces, old_f);
    forall g: nat | Sharers(w'.spaces, g) != {} ensures CountOk(w', g) {
      SharersMapped(w.spaces, i, p, leaf, g);
      if g == f {
        FreshCount(w, w', g, (i, p));
      } else if g == old_f {
        ReleasedCount(w, w', g, (i, p));
      } else {
        KeptCount(w, w', g);
      }
    }
  }

  /** A write fault on a shared page moves the process to its own copy. */
  lemma RecopyKeeps(w: World, w': World, i: nat, p: nat, f: nat, prot: Prot)
    requires Inv(w) && Remapped(w, w', i, p, UserLeaf(f, prot)) && p in w.spaces[i]
    requires ProtAt(w.areas[i], p) == Some(prot) && prot.w
    requires CountsKept(w, w', {w.spaces[i][p].frame}) && Released(w, w', w.spaces[i][p].frame)
    requires Fresh(w, w', f) && f < FRAMES && w'.mem[f] == Content(w.spaces[i], w.mem, p)
    ensures Inv(w') && forall j | 0 <= j < PROC_MAX :: SameView(w, w', j)
  {
    hide CountsOk, SharingOk, DataKept, AreasOk, CountsKept, Fresh, Joins, ProtAt, Released, Content;
    RecopyCounts(w, w', i, p, f, UserLeaf(f, prot));
    FreshUnshared(w, w', f);
    FreshJoins(w, i, p, Leaf(f, UserPerm(prot)));
    assert PageOk(w.areas[i], w.spaces[i], w.mem, p);
    InstalledPageOk(w.areas[i], w.spaces[i], w'.mem, p, f, prot);
    RemapKeeps(w, w', i, p, UserLeaf(f, prot));
    assert p in View(w, i) ==> View(w, i)[p] == Cell(prot, Content(w.spaces[i], w.mem, p));
  }

  lemma ProtectCounts(w: World, w': World, i: nat, p: nat, leaf: Option<Leaf>)
    requires CountsOk(w) && |w.spaces| == PROC_MAX && i < PROC_MAX && p in w.spaces[i]
    requires w'.spaces == w.spaces[i := Mapped(w.spaces[i], p, leaf)] && CountsKept(w, w', {})
    requires leaf.Some? ==> leaf.value.frame == w.spaces[i][p].frame
    requires leaf.None? ==> Sharers(w.spaces, w.spaces[i][p].frame) == {(i, p)}
    ensures CountsOk(w')
    ensures leaf.None? ==> Sharers(w'.spaces, w.spaces[i][p].frame) == {}
  {
    hide CountOk, FrameKept;
    var f := w.spaces[i][p].frame;
    assert (i, p) in Sharers(w.spaces, f);
    SharersMapped(w.spaces, i, p, leaf, f);
    forall g: nat | Sharers(w'.spaces, g) != {} ensures CountOk(w', g) {
      SharersMapped(w.spaces, i, p, leaf, g);
      assert Sharers(w'.spaces, g) == Sharers(w.spaces, g);
      KeptCount(w, w', g);
    }
  }

  /** A process may give up the permission to write an entry. */
  lemma ReadOnlyJoins(spaces: seq<Leaves>, i: nat, p: nat, leaf: Leaf)
    requires SharingOk(spaces) && i < PROC_MAX && p in spaces[i] && spaces[i][p].frame == leaf.frame && !leaf.perm.w
    ensures Joins(spaces, i, p, leaf)
  {
    forall j: nat, q: nat | j < |spaces| && q in spaces[j] && spaces[j][q].frame == leaf.frame && (j, q) != (i, p)
      ensures q == p && !spaces[j][q].perm.w
    {
      assert PairOk(spaces, j, q, i, p);
    }
  }

  /** Dropping the permission to write keeps a mapping, unless nothing is left of it:
      then the page was zero and nobody else's. */
  lemma ProtectKeeps(w: World, w': World, i: nat, p: nat, prot: Prot)
    requires Inv(w) && i < PROC_MAX && p in w.spaces[i]
    requires ProtAt(w.areas[i], p) == Some(prot) && prot.w
    requires Remapped(w, w', i, p, UserLeaf(w.spaces[i][p].frame, prot.(w := false)))
    requires CountsKept(w, w', {})
    ensures Inv(w') && forall j | 0 <= j < PROC_MAX :: SameView(w, w', j)
    ensures p !in w'.spaces[i] ==> Sharers(w'.spaces, w.spaces[i][p].frame) == {}
    ensures !(prot.r && prot.w) ==> Content(w.spaces[i], w.mem, p) == ZeroFrame()
    ensures Content(w'.spaces[i], w'.mem, p) == Content(w.spaces[i], w.mem, p)
  {
    hide CountsOk, DataKept, AreasOk, CountsKept, ProtAt, Joins, Sharers;
    var f := w.spaces[i][p].frame;
    var leaf := UserLeaf(f, prot.(w := false));
    assert PageOk(w.areas[i], w.spaces[i], w.mem, p);
    Single(w.spaces, i, p);
    ProtectCounts(w, w', i, p, leaf);
    MappedData(w, w', i, p);
    if leaf.Some? { ReadOnlyJoins(w.spaces, i, p, leaf.value); }
    RemapKeeps(w, w', i, p, leaf);
  }

  lemma MappedData(w: World, w': World, i: nat, p: nat)
    requires CountsOk(w) && DataKept(w, w') && i < |w.spaces| && p in w.spaces[i]
    ensures w.spaces[i][p].frame < FRAMES && w'.mem[w.spaces[i][p].frame] == w.mem[w.spaces[i][p].frame]
  {
    assert (i, p) in Sharers(w.spaces, w.spaces[i][p].frame);
    assert CountOk(w, w.spaces[i][p].frame);
  }

  lemma ShareCounts(w: World, w': World, c: nat, p: nat, f: nat, leaf: Option<Leaf>)
    requires CountsOk(w) && |w.spaces| == PROC_MAX && c < PROC_MAX
    requires w'.spaces == w.spaces[c := Mapped(w.spaces[c], p, leaf)]
    requires leaf.Some? ==> leaf.value.frame == f && Sharers(w.spaces, f) != {} && Gained(w, w', f)
    requires leaf.None? ==> Sharers(w.spaces, f) == {}
    requires p in w.spaces[c] ==> w.spaces[c][p].frame != f && Released(w, w', w.spaces[c][p].frame)
    requires CountsKept(w, w', if p in w.spaces[c] then {f, w.spaces[c][p].frame} else {f})
    ensures CountsOk(w')
  {
    hide CountOk, FrameKept, Gained, Released;
    assert (c, p) !in Sharers(w.spaces, f);
    forall g: nat | Sharers(w'.spaces, g) != {} ensures CountOk(w', g) {
      SharersMapped(w.spaces, c, p, leaf, g);
      if g == f {
        GainedCount(w, w', g, (c, p));
      } else if p in w.spaces[c] && g == w.spaces[c][p].frame {
        assert (c, p) in Sharers(w.spaces, g);
        ReleasedCount(w, w', g, (c, p));
      } else {
        KeptCount(w, w', g);
      }
    }
  }

  /** Frame f has one more reference. */
  ghost predicate Gained(w: World, w': World, f: nat) {
    && w'.base == w.base && |w'.refs| == |w.refs| && w.base <= f < w.base + |w.refs|
    && (f !in w.tables ==> f !in w'.tables) && w'.refs[f - w.base] == w.refs[f - w.base] + 1
  }

  lemma GainedCount(w: World, w': World, f: nat, x: (nat, nat))
    requires CountsOk(w) && Gained(w, w', f) && x !in Sharers(w.spaces, f) && Sharers(w.spaces, f) != {}
    requires Sharers(w'.spaces, f) == Sharers(w.spaces, f) + {x}
    ensures CountOk(w', f)
  {
    hide Sharers;
    assert CountOk(w, f);
    CardMore(Sharers(w.spaces, f), x);
  }

  /** The child joins the read-only sharers of page p of the parent i. */
  lemma ShareKeeps(w: World, w': World, i: nat, c: nat, p: nat, f: nat, prot: Prot)
    requires Inv(w) && i < PROC_MAX && c < PROC_MAX && i != c
    requires ProtAt(w.areas[c], p) == Some(prot) && prot.w
    requires Remapped(w, w', c, p, UserLeaf(f, prot.(w := false)))
    requires p in w.spaces[i] <==> UserLeaf(f, prot.(w := false)).Some?
    requires p in w.spaces[i] ==> w.spaces[i][p] == UserLeaf(f, prot.(w := false)).value && Gained(w, w', f)
    requires p !in w.spaces[i] ==> Sharers(w.spaces, f) == {}
    requires p in w.spaces[c] ==> w.spaces[c][p].frame != f && Released(w, w', w.spaces[c][p].frame)
    requires CountsKept(w, w', if p in w.spaces[c] then {f, w.spaces[c][p].frame} else {f})
    requires !(prot.r && prot.w) ==> Content(w.spaces[i], w.mem, p) == ZeroFrame()
    ensures Inv(w') && forall j | 0 <= j < PROC_MAX && j != c :: SameView(w, w', j)
    ensures View(w', c) == if p in View(w, c) then View(w, c)[p := Cell(prot, Content(w.spaces[i], w.mem, p))]
                           else View(w, c)
  {
    hide CountsOk, DataKept, AreasOk, CountsKept, ProtAt, Joins, PagesOk, Released, Gained, SameView;
    var leaf := UserLeaf(f, prot.(w := false));
    if leaf.Some? {
      Single(w.spaces, i, p);
      MappedData(w, w', i, p);
      SharedJoins(w.spaces, i, c, p, leaf.value);
    }
    ShareCounts(w, w', c, p, f, leaf);
    RemapKeeps(w, w', c, p, leaf);
    assert p in View(w, c) ==> View(w, c)[p].prot == prot;
  }

  lemma SharedJoins(spaces: seq<Leaves>, i: nat, c: nat, p: nat, leaf: Leaf)
    requires SharingOk(spaces) && i < PROC_MAX && c < PROC_MAX && p in spaces[i] && spaces[i][p] == leaf && !leaf.perm.w
    ensures Joins(spaces, c, p, leaf)
  {
    forall j: nat, q: nat | j < |spaces| && q in spaces[j] && spaces[j][q].frame == leaf.frame
      ensures q == p && !spaces[j][q].perm.w
    {
      assert PairOk(spaces, j, q, i, p);
    }
  }

  /** The same areas, and contents that differ at page p at most. */
  lemma ViewsDiffer(w: World, w': World, i: nat, p: nat)
    requires i < |w.areas| && i < |w.spaces| && i < |w'.areas| && i < |w'.spaces| && w'.areas[i] == w.areas[i]
    requires forall q: nat | q != p :: Content(w'.spaces[i], w'.mem, q) == Content(w.spaces[i], w.mem, q)
    requires p in View(w, i)
    ensures View(w', i) == View(w, i)[p := Cell(View(w, i)[p].prot, Content(w'.spaces[i], w'.mem, p))]
  {
    hide Content;
  }

  lemma StoreElsewhere(w: World, w': World, i: nat, p: nat, j: nat, q: nat)
    requires SharingOk(w.spaces) && i < PROC_MAX && p in w.spaces[i] && w.spaces[i][p].perm.w
    requires w'.spaces == w.spaces && j < PROC_MAX && (j, q) != (i, p)
    requires forall f | 0 <= f < FRAMES && f != w.spaces[i][p].frame :: w'.mem[f] == w.mem[f]
    ensures Content(w'.spaces[j], w'.mem, q) == Content(w.spaces[j], w.mem, q)
  {
    if q in w.spaces[j] { assert PairOk(w.spaces, i, p, j, q); }
  }

  /** A store through a writable entry is seen by its process alone. */
  lemma StoreKeeps(w: World, w': World, i: nat, p: nat, k: nat, v: Word)
    requires Inv(w) && i < PROC_MAX && p in w.spaces[i] && k < WORDS
    requires w.spaces[i][p].perm.w && w.spaces[i][p].perm.r && w.spaces[i][p].frame < FRAMES
    requires w' == w.(mem := w.mem[w.spaces[i][p].frame := w.mem[w.spaces[i][p].frame][k := v]])
    ensures Inv(w') && forall j | 0 <= j < PROC_MAX && j != i :: SameView(w, w', j)
    ensures p in View(w, i) && View(w', i) == View(w, i)[p := Cell(View(w, i)[p].prot, View(w, i)[p].data[k := v])]
  {
    StoreCounts(w, w');
    assert PageOk(w.areas[i], w.spaces[i], w.mem, p);
    hide CountsOk, AreasOk, ProtAt;
    forall j: nat, q: nat | j < PROC_MAX && (j, q) != (i, p)
      ensures Content(w'.spaces[j], w'.mem, q) == Content(w.spaces[j], w.mem, q)
    {
      StoreElsewhere(w, w', i, p, j, q);
    }
    forall j: nat | j < PROC_MAX ensures PagesOk(w'.areas[j], w'.spaces[j], w'.mem) {
      forall q | q in w.spaces[j] ensures PageOk(w'.areas[j], w'.spaces[j], w'.mem, q) {
        assert PageOk(w.areas[j], w.spaces[j], w.mem, q);
      }
    }
    forall j: nat | j < PROC_MAX && j != i ensures SameView(w, w', j) { ViewsSame(w, w', j); }
    assert p in View(w, i);
    ViewsDiffer(w, w', i, p);
  }

  lemma StoreCounts(w: World, w': World)
    requires CountsOk(w) && w' == w.(mem := w'.mem)
    ensures CountsOk(w')
  {
    forall f: nat | Sharers(w'.spaces, f) != {} ensures CountOk(w', f) { assert CountOk(w, f); }
  }

  // ---------------------------------------------------------------------
  // Changes of the areas.

  /** A view without the pages of [lo, hi). */
  ghost function Without(v: map<nat, Cell>, lo: nat, hi: nat): map<nat, Cell> {
    map p | p in v && !(lo <= Bytes(p) < hi) :: v[p]
  }

  /** Process i gets other areas, which still cover what it has mapped. */
  lemma AreasChange(w: World, w': World, i: nat, t: seq<UserVma>)
    requires Inv(w) && i < PROC_MAX && w' == w.(areas := w.areas[i := t])
    requires AreasOk(t) && PagesOk(t, w.spaces[i], w.mem)
    ensures Inv(w') && forall j | 0 <= j < PROC_MAX && j != i :: SameView(w, w', j)
  {
    hide AreasOk, PagesOk, SharingOk;
    forall f: nat | Sharers(w'.spaces, f) != {} ensures CountOk(w', f) { assert CountOk(w, f); }
  }

  /** The areas lose a range none of whose pages is mapped. */
  lemma CutKeeps(w: World, w': World, i: nat, t: seq<UserVma>, lo: nat, hi: nat)
    requires Inv(w) && i < PROC_MAX && w' == w.(areas := w.areas[i := t])
    requires AreasOk(t) && IsCut(w.areas[i], t, lo, hi)
    requires forall p | p in w.spaces[i] :: !(lo <= Bytes(p) < hi)
    ensures Inv(w') && forall j | 0 <= j < PROC_MAX && j != i :: SameView(w, w', j)
    ensures View(w', i) == Without(View(w, i), lo, hi)
  {
    hide AreasOk, CountsOk, SharingOk, ProtAt;
    forall p | p in w.spaces[i] ensures PageOk(t, w.spaces[i], w.mem, p) {
      assert PageOk(w.areas[i], w.spaces[i], w.mem, p);
    }
    AreasChange(w, w', i, t);
  }

  /** A view where [lo, hi) is new zeroed memory. */
  ghost function WithZeros(v: map<nat, Cell>, lo: nat, hi: nat, prot: Prot): map<nat, Cell> {
    map p: nat | p < 0x4_0000 && Region(p) && (p in v || lo <= Bytes(p) < hi) ::
      if lo <= Bytes(p) < hi then Cell(prot, ZeroFrame()) else v[p]
  }

  /** The areas gain a range they had no page of. */
  lemma FillKeeps(w: World, w': World, i: nat, t: seq<UserVma>, lo: nat, hi: nat, prot: Prot)
    requires Inv(w) && i < PROC_MAX && w' == w.(areas := w.areas[i := t])
    requires AreasOk(t) && IsFilled(w.areas[i], t, lo, hi, prot)
    requires forall p: nat | lo <= Bytes(p) < hi :: ProtAt(w.areas[i], p) == None
    ensures Inv(w') && forall j | 0 <= j < PROC_MAX && j != i :: SameView(w, w', j)
    ensures View(w', i) == WithZeros(View(w, i), lo, hi, prot)
  {
    hide AreasOk, CountsOk, SharingOk, ProtAt;
    forall p | p in w.spaces[i] ensures PageOk(t, w.spaces[i], w.mem, p) {
      assert PageOk(w.areas[i], w.spaces[i], w.mem, p);
    }
    AreasChange(w, w', i, t);
    forall p | p in w.spaces[i] ensures !(lo <= Bytes(p) < hi) {
      assert PageOk(w.areas[i], w.spaces[i], w.mem, p);
    }
  }

  /** The two stack pages of a new process, backed by frames f and f + 1. */
  ghost function StackSpace(f: nat): Leaves {
    map[STACK_PAGE := Leaf(f, STACK_PERM), STACK_PAGE + 1 := Leaf(f + 1, STACK_PERM)]
  }

  lemma EmptyCovered(areas: seq<UserVma>, mem: Memory)
    ensures PagesOk(areas, map[], mem)
  {}

  /** A new process starts with a zeroed stack and sees nothing but zeros. */
  lemma NewStackKeeps(w: World, w': World, c: nat, f: nat, t: seq<UserVma>)
    requires Inv(w) && c < PROC_MAX && w.spaces[c] == map[]
    requires AreasOk(t) && HasStack(t) && w'.areas == w.areas[c := t]
    requires w'.spaces == w.spaces[c := StackSpace(f)] && DataKept(w, w') && CountsKept(w, w', {})
    requires Fresh(w, w', f) && Fresh(w, w', f + 1) && f + 1 < FRAMES
    requires w'.mem[f] == ZeroFrame() && w'.mem[f + 1] == ZeroFrame()
    ensures Inv(w') && forall j | 0 <= j < PROC_MAX && j != c :: SameView(w, w', j)
    ensures forall p | p in View(w', c) :: View(w', c)[p].data == ZeroFrame()
  {
    hide CountsOk, SharingOk, AreasOk, ProtAt, PagesOk, View, CountsKept, DataKept, Fresh;
    var w1 := w.(areas := w'.areas);
    EmptyCovered(t, w.mem);
    AreasChange(w, w1, c, t);
    var w2 := OneStackPage(w, w', c, f);
    FirstStackPage(w, w1, w2, w', c, f);
    InstallKeeps(w1, w2, c, STACK_PAGE, f, Prot(true, true, false));
    SecondStackPage(w, w2, w', c, f);
    InstallKeeps(w2, w', c, STACK_PAGE + 1, f + 1, Prot(true, true, false));
    ViewZero(w1, c);
    assert SameView(w1, w2, c) && SameView(w2, w', c);
    forall j | 0 <= j < PROC_MAX && j != c ensures SameView(w, w', j) {
      assert SameView(w, w1, j) && SameView(w1, w2, j) && SameView(w2, w', j);
    }
  }

  /** Half-way: the first stack page mapped, the second not. */
  ghost function OneStackPage(w: World, w': World, c: nat, f: nat): World
    requires Fresh(w, w', f) && c < |w.spaces|
  {
    World(w'.mem, w.refs[f - w.base := 1], w.base, w'.tables,
          w.spaces[c := Mapped(w.spaces[c], STACK_PAGE, UserLeaf(f, Prot(true, true, false)))], w'.areas)
  }

  lemma FirstStackPage(w: World, w1: World, w2: World, w': World, c: nat, f: nat)
    requires Inv(w) && c < PROC_MAX && w.spaces[c] == map[] && Fresh(w, w', f) && Fresh(w, w', f + 1)
    requires w1 == w.(areas := w'.areas) && CountsKept(w, w', {}) && DataKept(w, w')
    requires w2 == OneStackPage(w, w', c, f)
    ensures CountsKept(w1, w2, {}) && Fresh(w1, w2, f)
            && Remapped(w1, w2, c, STACK_PAGE, UserLeaf(f, Prot(true, true, false)))
  {
    hide SharingOk, AreasOk, PagesOk;
    FreshUnshared(w, w', f);
    forall g: nat | Sharers(w1.spaces, g) != {} ensures FrameKept(w1, w2, g) {
      assert FrameKept(w, w', g);
    }
  }

  lemma ViewZero(w: World, c: nat)
    requires c < |w.spaces| && c < |w.areas| && w.spaces[c] == map[]
    ensures forall p | p in View(w, c) :: View(w, c)[p].data == ZeroFrame()
  {}

  lemma SecondStackPage(w: World, w2: World, w': World, c: nat, f: nat)
    requires Inv(w) && c < PROC_MAX && w.spaces[c] == map[] && Fresh(w, w', f) && Fresh(w, w', f + 1)
    requires CountsKept(w, w', {}) && DataKept(w, w')
    requires w2 == OneStackPage(w, w', c, f) && w'.spaces == w.spaces[c := StackSpace(f)]
    ensures CountsKept(w2, w', {}) && Fresh(w2, w', f + 1)
    ensures w2.areas == w'.areas ==> Remapped(w2, w', c, STACK_PAGE + 1, UserLeaf(f + 1, Prot(true, true, false)))
  {
    hide SharingOk, AreasOk, PagesOk;
    FreshUnshared(w, w', f);
    FreshUnshared(w, w', f + 1);
    forall g: nat | Sharers(w2.spaces, g) != {} ensures FrameKept(w2, w', g) {
      SharersMapped(w.spaces, c, STACK_PAGE, UserLeaf(f, Prot(true, true, false)), g);
      if g != f { assert FrameKept(w, w', g); }
    }
  }

  // ---------------------------------------------------------------------
  // Pages nobody has.

  /** Of these pages in use, those no process maps. */
  ghost function LostFrames(stray: set<nat>, spaces: seq<Leaves>): set<nat> {
    set f | f in stray && Sharers(spaces, f) == {} :: f
  }

  /** No page was lost, or the allocator has warned that it could not free one. */
  predicate Spared(g: Gauge, lost: set<nat>, g': Gauge, lost': set<nat>) {
    Falls(g, g') && (g'.warned || lost' <= lost)
  }

  /** One entry changes: nothing is lost if the page it maps now was at most in use and
      the page it mapped before, when still in use, has another entry. */
  lemma RemapLoses(stray: set<nat>, stray': set<nat>, spaces: seq<Leaves>, i: nat, p: nat, leaf: Option<Leaf>)
    requires i < |spaces| && stray' <= stray + (if leaf.Some? then {leaf.value.frame} else {})
    requires p in spaces[i] && !(leaf.Some? && leaf.value.frame == spaces[i][p].frame) ==>
               var g := spaces[i][p].frame; g in stray' ==> |Sharers(spaces, g)| >= 2
    ensures LostFrames(stray', spaces[i := Mapped(spaces[i], p, leaf)]) <= LostFrames(stray, spaces)
  {
    var t := spaces[i := Mapped(spaces[i], p, leaf)];
    if leaf.Some? {
      SharersMapped(spaces, i, p, leaf, leaf.value.frame);
      assert (i, p) in Sharers(t, leaf.value.frame);
    }
    forall f | f in LostFrames(stray', t) ensures f in LostFrames(stray, spaces) {
      SharersMapped(spaces, i, p, leaf, f);
      CardRest(Sharers(spaces, f), (i, p));
    }
  }

  lemma CardRest(s: set<(nat, nat)>, x: (nat, nat))
    ensures s - {x} == {} ==> |s| <= 1 && (x !in s ==> s == {})
  {
    if x in s {
      CardLess(s, x);
    } else {
      assert s - {x} == s;
    }
  }
}
