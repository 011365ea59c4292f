/** The process table as a value, and how one step of the kernel changes what the
    processes' memory depends on. */
module ProcTable {
  import opened Common
  import opened FreeRuns
  import opened Phys
  import opened PageAlloc
  import opened Sv32
  import opened Vm
  import opened Vma
  import opened Cow
  import opened Image

  datatype State = Unused | Runnable | Blocked | Zombie

  datatype Process = Process(state: State, pid: nat, parentPid: nat, exitStatus: int, isUser: bool, satp: nat,
                             stackBase: nat, stackPa: nat, stackPages: nat, vmas: seq<UserVma>)
  {
    /** A user process with an address space. */
    predicate Live() { state != Unused && isUser && satp != 0 }
    function Root(): nat { RootFromSatp(satp) }
  }

  const UNUSED: Process := Process(Unused, 0, 0, 0, false, 0, 0, 0, 0, NoAreas())

  const IDLE: Process := UNUSED.(state := Runnable, pid := 1)

  /** The kernel's root, what it maps, and what a user root maps outside the user slots. */
  datatype KernelMap = KernelMap(root: nat, space: Leaves, image: Leaves)

  /** Process p has this root, and the root translates like this. */
  ghost predicate SpaceOk(p: Process, space: Leaves, m: Memory, roots: set<nat>, k: KernelMap) {
    if p.Live() then
      && p.Root() in roots && p.Root() < FRAMES && p.Root() != k.root
      && space == Users(Space(m, p.Root())) && Others(Space(m, p.Root())) == k.image
    else space == map[]
  }

  /** No two processes share a root. */
  ghost predicate RootsApart(procs: seq<Process>) {
    forall i, j | 0 <= i < |procs| && 0 <= j < |procs| && i != j && procs[i].Live() && procs[j].Live() ::
      procs[i].Root() != procs[j].Root()
  }

  ghost function AreasOf(procs: seq<Process>): (a: seq<seq<UserVma>>)
    ensures |a| == |procs| && forall i | 0 <= i < |procs| :: a[i] == procs[i].vmas
  {
    seq(|procs|, i requires 0 <= i < |procs| => procs[i].vmas)
  }

  ghost predicate ProcOk(p: Process, image: Leaves) {
    && (p.state != Unused && p.isUser ==> p.satp != 0) && (p.state == Unused ==> p == UNUSED)
    && if p.Live() then p.stackBase == STACK_BASE && p.stackPages == 2 && HasStack(p.vmas)
    && ImageCovered(p.vmas, image)
       else p.vmas == NoAreas()
  }

  predicate PermHas(perm: Perm, need: Prot) {
    (need.r ==> perm.r) && (need.w ==> perm.w) && (need.x ==> perm.x)
  }

  /** What an access needs: VMA_PROT_R is 1, VMA_PROT_W is 2, VMA_PROT_X is 4. */
  function NeedOf(access: nat): Prot { Prot(access == 1, access == 2, access == 4) }

  lemma PageAddress(p: nat)
    requires p < PAGES
    ensures Bytes(p) / 4096 == p && Aligned(Bytes(p)) && Bytes(p) < 0x1_0000_0000
    ensures Region(p) ==> USER_SLOT <= Vpn1(p) < USER_SLOT_END
  {}

  lemma UsersMapped(s: Leaves, p: nat, leaf: Option<Leaf>)
    requires Region(p)
    ensures Users(Mapped(s, p, leaf)) == Mapped(Users(s), p, leaf) && Others(Mapped(s, p, leaf)) == Others(s)
  {}

  lemma RootsStay(m: Memory, m': Memory, roots: set<nat>, root: nat, kernelRoot: nat)
    requires OtherRootsKept(m, m', roots, root) && kernelRoot in roots && kernelRoot < FRAMES && kernelRoot != root
    ensures m'[kernelRoot] == m[kernelRoot]
  {}

  ghost predicate AllSpacesOk(procs: seq<Process>, spaces: seq<Leaves>, m: Memory, roots: set<nat>, k: KernelMap)
  {
    && |procs| == PROC_MAX && |spaces| == PROC_MAX
    && k.root in roots && k.root < FRAMES && Space(m, k.root) == k.space
    && forall i | 0 <= i < PROC_MAX :: SpaceOk(procs[i], spaces[i], m, roots, k)
  }

  /** The translation of process i changed, the others did not. */
  lemma LinkedAfter(m: Memory, m': Memory, procs: seq<Process>, spaces: seq<Leaves>, roots: set<nat>,
                    k: KernelMap, i: nat, space: Leaves)
    requires AllSpacesOk(procs, spaces, m, roots, k) && RootsApart(procs)
    requires i < PROC_MAX && procs[i].Live()
    requires space == Users(Space(m', procs[i].Root())) && Others(Space(m', procs[i].Root())) == k.image
    requires forall r | r in roots && r < FRAMES && r != procs[i].Root() :: Space(m', r) == Space(m, r)
    ensures AllSpacesOk(procs, spaces[i := space], m', roots, k)
  {
    hide Space;
    forall j | 0 <= j < PROC_MAX ensures SpaceOk(procs[j], spaces[i := space][j], m', roots, k) {
      assert SpaceOk(procs[j], spaces[j], m, roots, k);
    }
  }

  lemma MappedNeverFails(m: Memory, roots: set<nat>, own: map<nat, (nat, nat)>, p: nat, root: nat)
    requires Trees(m, roots, own) && root in roots && root < FRAMES && Region(p) && !HasTable(m, root, p)
    ensures p !in Users(Space(m, root))
  {
    if p in Space(m, root) {
      PageAddress(p);
      MappedHasTable(m, roots, root, p);
      assert false;
    }
  }

  /** Frame f lost one reference; the last one may have stayed. */
  ghost predicate OneDropped(r: seq<nat>, s: seq<nat>, base: nat, f: nat) {
    && base <= f < base + |r| && |s| == |r|
    && (forall j | 0 <= j < |r| && j != f - base :: s[j] == r[j])
    && (s[f - base] + 1 == r[f - base] || s[f - base] == r[f - base] == 1)
  }

  lemma DroppedFrame(r: seq<nat>, s: seq<nat>, base: nat, f: nat, noNodes: bool)
    requires base <= f < base + |r| && Dropped(r, s, f - base, 1, noNodes)
    ensures OneDropped(r, s, base, f)
  {}

  /** After a drop the frame is in use only if another reference was left. */
  lemma StrayAfterDrop(r: seq<nat>, s: seq<nat>, base: nat, known: set<nat>, f: nat, warned: bool)
    requires OneDropped(r, s, base, f) && (s[f - base] + 1 == r[f - base] || warned)
    ensures StrayFrames(s, base, known) <= StrayFrames(r, base, known)
    ensures warned || r[f - base] > 1 || f !in StrayFrames(s, base, known)
  {}

  lemma StrayAfterInc(r: seq<nat>, base: nat, known: set<nat>, f: nat)
    requires Held(r, base, f)
    ensures StrayFrames(r[f - base := r[f - base] + 1], base, known) == StrayFrames(r, base, known)
  {}

  lemma StrayAfterTwo(r: seq<nat>, s: seq<nat>, base: nat, known: set<nat>, tables: set<nat>, f: nat)
    requires TwoNew(r, s, base, f, tables)
    ensures StrayFrames(s, base, known) <= StrayFrames(r, base, known) + {f, f + 1}
  {}

  /** The two pages of a stack that was never mapped are free again. */
  lemma StrayAfterBoth(r: seq<nat>, s: seq<nat>, base: nat, known: set<nat>, f: nat, warned: bool)
    requires base <= f && f + 1 < base + |r| && Dropped(r, s, f - base, 2, warned)
             && r[f - base] == r[f + 1 - base] == 1
    ensures warned || StrayFrames(s, base, known) <= StrayFrames(r, base, known) - {f, f + 1}
  {
    if !warned {
      assert s[f - base] == 0 && s[f + 1 - base] == 0;
    }
  }

  lemma HeldAfterDrop(r: seq<nat>, s: seq<nat>, base: nat, roots: set<nat>, own: map<nat, (nat, nat)>, f: nat)
    requires TablesHeld(r, base, roots, own) && OneDropped(r, s, base, f) && f !in roots + own.Keys
    ensures TablesHeld(s, base, roots, own)
  {
    forall t | IsTableFrame(roots, own, t) ensures Held(s, base, t) {
      assert Held(r, base, t);
    }
  }

  lemma HeldAfterInc(r: seq<nat>, base: nat, roots: set<nat>, own: map<nat, (nat, nat)>, f: nat)
    requires TablesHeld(r, base, roots, own) && base <= f < base + |r|
    ensures TablesHeld(r[f - base := r[f - base] + 1], base, roots, own)
  {
    forall t | IsTableFrame(roots, own, t) ensures Held(r[f - base := r[f - base] + 1], base, t) {
      assert Held(r, base, t);
    }
  }

  ghost predicate ProcsOk(procs: seq<Process>, image: Leaves) {
    |procs| == PROC_MAX && forall i | 0 <= i < PROC_MAX :: ProcOk(procs[i], image)
  }

  /** Every translation is as it was. */
  lemma LinkedSame(m: Memory, m': Memory, procs: seq<Process>, spaces: seq<Leaves>, roots: set<nat>, k: KernelMap)
    requires AllSpacesOk(procs, spaces, m, roots, k) && SameSpaces(m, m', roots)
    ensures AllSpacesOk(procs, spaces, m', roots, k)
  {
    hide Space;
    forall j | 0 <= j < PROC_MAX ensures SpaceOk(procs[j], spaces[j], m', roots, k) {
      assert SpaceOk(procs[j], spaces[j], m, roots, k);
    }
  }

  /** A write outside the tables changes no translation. */
  lemma DataWrite(m: Memory, m': Memory, procs: seq<Process>, spaces: seq<Leaves>, roots: set<nat>,
                  own: map<nat, (nat, nat)>, k: KernelMap)
    requires Trees(m, roots, own) && AllSpacesOk(procs, spaces, m, roots, k)
    requires forall f | 0 <= f < FRAMES && (f in roots || f in own) :: m'[f] == m[f]
    ensures Trees(m', roots, own) && AllSpacesOk(procs, spaces, m', roots, k)
  {
    DataWriteKeepsSpaces(m, m', roots, own);
    LinkedSame(m, m', procs, spaces, roots, k);
  }

  /** The frame an entry maps is a managed page and no table. */
  lemma MappedFrame(w: World, i: nat, p: nat)
    requires CountsOk(w) && i < |w.spaces| && p in w.spaces[i]
    ensures var f := w.spaces[i][p].frame;
            && f < FRAMES && f !in w.tables && Held(w.refs, w.base, f) && CountOk(w, f)
            && Content(w.spaces[i], w.mem, p) == w.mem[f] && Sharers(w.spaces, f) != {}
  {
    assert (i, p) in Sharers(w.spaces, w.spaces[i][p].frame);
    assert CountOk(w, w.spaces[i][p].frame);
  }

  /** What is known after a page was allocated, written, and a table perhaps made. */
  lemma AfterAlloc(w: World, f: nat, r1: seq<nat>, m2: Memory, w2: World)
    requires CountsOk(w) && NewFrame(w.refs, r1, w.base, f) && f < FRAMES && f !in w.tables && w2.base == w.base
    requires forall g | 0 <= g < FRAMES && g != f :: m2[g] == w.mem[g]
    requires Kept(m2, w2.mem, r1, w2.refs, w.base, w.tables, w2.tables)
    ensures CountsKept(w, w2, {}) && DataKept(w, w2) && Fresh(w, w2, f) && w2.mem[f] == m2[f]
  {
    forall g: nat | Sharers(w.spaces, g) != {} ensures FrameKept(w, w2, g) && (g < FRAMES ==> w2.mem[g] == w.mem[g]) {
      assert CountOk(w, g);
      assert r1[g - w.base] == w.refs[g - w.base];
    }
  }

  /** A reference to the fresh frame, or to a mapped one, goes away. */
  lemma AfterDrop(w: World, w2: World, w3: World, g: nat, f: nat)
    requires CountsKept(w, w2, {}) && DataKept(w, w2) && Fresh(w, w2, f) && g != f && CountOk(w, g)
             && Sharers(w.spaces, g) != {}
    requires OneDropped(w2.refs, w3.refs, w2.base, g) && w3 == w2.(refs := w3.refs)
    ensures CountsKept(w, w3, {g}) && DataKept(w, w3) && Released(w, w3, g) && Fresh(w, w3, f) && w3.mem[f] == w2.mem[f]
  {
    assert FrameKept(w, w2, g);
    forall h: nat | Sharers(w.spaces, h) != {} && h !in {g} ensures FrameKept(w, w3, h) { assert FrameKept(w, w2, h); }
  }

  /** The fresh frame was given back and never mapped. */
  lemma GrownAfterDrop(w: World, w2: World, w3: World, f: nat)
    requires CountsKept(w, w2, {}) && DataKept(w, w2) && Sharers(w.spaces, f) == {}
    requires OneDropped(w2.refs, w3.refs, w2.base, f) && w3 == w2.(refs := w3.refs)
    requires w2.spaces == w.spaces && w2.areas == w.areas
    ensures Grown(w, w3)
  {
    forall g: nat | Sharers(w.spaces, g) != {} ensures FrameKept(w, w3, g) { assert FrameKept(w, w2, g); }
  }

  /** The area the fault handler found gives the page its protection. */
  lemma FoundArea(vmas: seq<UserVma>, i: nat, p: nat)
    requires VmasOk(vmas) && i <= |vmas| && (i < |vmas| ==> vmas[i].Has(p))
    requires i == |vmas| ==> forall j | 0 <= j < |vmas| :: !vmas[j].Has(p)
    ensures ProtAt(vmas, p) == if i < |vmas| then Some(vmas[i].prot) else None
  {
    if i < |vmas| { ProtOf(vmas, i, p); }
  }

  lemma StillMapped(w: World, w2: World, g: nat, f: nat)
    requires CountsKept(w, w2, {}) && CountOk(w, g) && Sharers(w.spaces, g) != {} && Fresh(w, w2, f)
    ensures Held(w2.refs, w2.base, g) && g !in w2.tables && g != f && w2.refs[g - w.base] == w.refs[g - w.base]
  {
    assert FrameKept(w, w2, g);
  }

  /** A translation without the pages of [lo, hi). */
  ghost function Cutout(s: Leaves, lo: nat, hi: nat): Leaves {
    map p | p in s && !(lo <= Bytes(p) < hi) :: s[p]
  }

  /** A view in which the pages of [lo, hi) hold zeros. */
  ghost function Zeroed(v: map<nat, Cell>, lo: nat, hi: nat): map<nat, Cell> {
    map p | p in v :: if lo <= Bytes(p) < hi then Cell(v[p].prot, ZeroFrame()) else v[p]
  }

  lemma ZeroedOne(v: map<nat, Cell>, p: nat)
    ensures Zeroed(v, Bytes(p), Bytes(p + 1)) == if p in v then v[p := Cell(v[p].prot, ZeroFrame())] else v
  {}

  lemma NoEntry(w: World, i: nat, p: nat)
    requires Inv(w) && i < PROC_MAX && p !in w.spaces[i]
    ensures w.spaces[i] - {p} == w.spaces[i] && w.spaces[i := w.spaces[i]] == w.spaces
    ensures Zeroed(View(w, i), Bytes(p), Bytes(p + 1)) == View(w, i)
  {
    ZeroedOne(View(w, i), p);
  }

  lemma NothingCut(s: Leaves, v: map<nat, Cell>, lo: nat)
    ensures Cutout(s, lo, lo) == s && Zeroed(v, lo, lo) == v
  {}

  lemma CutMore(s: Leaves, v: map<nat, Cell>, lo: nat, va: nat)
    requires lo <= va && Aligned(va)
    ensures Cutout(s, lo, va) - {va / 4096} == Cutout(s, lo, va + 4096)
    ensures Zeroed(Zeroed(v, lo, va), Bytes(va / 4096), Bytes(va / 4096 + 1)) == Zeroed(v, lo, va + 4096)
  {}

  lemma CutEnd(s: Leaves, v: map<nat, Cell>, lo: nat, hi: nat, va: nat)
    requires va >= hi && (va <= hi || va == lo)
    ensures Cutout(s, lo, va) == Cutout(s, lo, hi) && Zeroed(v, lo, va) == Zeroed(v, lo, hi)
  {
    if va != hi {
      NothingCut(s, v, lo);
      assert Zeroed(v, lo, hi) == v;
    }
  }

  lemma RangePage(va: nat, hi: nat)
    requires MMAP_BASE <= va < hi && hi <= STACK_TOP && Aligned(va) && Aligned(hi)
    ensures Region(va / 4096) && va + 4096 <= hi && Aligned(va + 4096)
  {}

  lemma InvSizes(w: World)
    requires Inv(w)
    ensures |w.spaces| == PROC_MAX && |w.areas| == PROC_MAX
  {}

  lemma ViewsReflexive(w: World)
    requires |w.spaces| == PROC_MAX && |w.areas| == PROC_MAX
    ensures forall j | 0 <= j < PROC_MAX :: SameView(w, w, j)
  {}

  lemma ViewsTransitive(w: World, w1: World, w2: World, but: nat)
    requires forall j | 0 <= j < PROC_MAX && j != but :: SameView(w, w1, j)
    requires forall j | 0 <= j < PROC_MAX && j != but :: SameView(w1, w2, j)
    ensures forall j | 0 <= j < PROC_MAX && j != but :: SameView(w, w2, j)
  {
    forall j | 0 <= j < PROC_MAX && j != but ensures SameView(w, w2, j) {
      assert SameView(w, w1, j) && SameView(w1, w2, j);
    }
  }

  /** Page tables were written and one reference to frame f went away. */
  lemma AfterUnmap(w: World, w1: World, w2: World, f: nat)
    requires CountsOk(w) && CountOk(w, f)
    requires forall g | 0 <= g < FRAMES && g !in w.tables :: w1.mem[g] == w.mem[g]
    requires w1 == w.(mem := w1.mem, spaces := w1.spaces) && w2 == w1.(refs := w2.refs)
    requires OneDropped(w.refs, w2.refs, w.base, f)
    ensures CountsKept(w, w2, {f}) && Released(w, w2, f) && DataKept(w, w2)
  {
    forall g: nat | Sharers(w.spaces, g) != {} ensures CountOk(w, g) {}
  }

  /** What proc_munmap accepts. */
  ghost predicate MunmapAccepts(p: Process, addr: Addr, len: Addr) {
    && p.isUser && Aligned(addr) && len > 0 && MMAP_BASE <= addr && addr + PageCeil(len) <= MMAP_END
    && !(Splitting(p.vmas, addr, addr + PageCeil(len)) && AllUsed(p.vmas))
  }

  lemma VmasIrrelevant(procs: seq<Process>, spaces: seq<Leaves>, m: Memory, roots: set<nat>, k: KernelMap, i: nat,
                       t: seq<UserVma>)
    requires AllSpacesOk(procs, spaces, m, roots, k) && RootsApart(procs) && i < PROC_MAX
    ensures AllSpacesOk(procs[i := procs[i].(vmas := t)], spaces, m, roots, k)
    ensures RootsApart(procs[i := procs[i].(vmas := t)])
  {
    var procs' := procs[i := procs[i].(vmas := t)];
    forall j | 0 <= j < PROC_MAX ensures SpaceOk(procs'[j], spaces[j], m, roots, k) {
      assert SpaceOk(procs[j], spaces[j], m, roots, k);
    }
  }

  /** Cutting pages of the window touches neither the stack nor the image. */
  lemma CutProcOk(procs: seq<Process>, image: Leaves, i: nat, t: seq<UserVma>, lo: nat, hi: nat)
    requires ProcsOk(procs, image) && i < PROC_MAX && procs[i].Live()
    requires MMAP_BASE <= lo && hi <= MMAP_END && IsCut(procs[i].vmas, t, lo, hi)
    ensures ProcsOk(procs[i := procs[i].(vmas := t)], image)
  {
    var vmas := procs[i].vmas;
    assert ProcOk(procs[i], image);
    assert HasStack(t);
    forall p: nat | !Region(p) && ProtAt(t, p).Some?
      ensures p in image && image[p].perm == UserPerm(ProtAt(t, p).value)
    {
      assert ProtAt(t, p) == ProtAt(vmas, p);
    }
    var procs' := procs[i := procs[i].(vmas := t)];
    forall j | 0 <= j < PROC_MAX ensures ProcOk(procs'[j], image) {
      assert ProcOk(procs[j], image);
    }
  }

  lemma CutoutApart(s: Leaves, lo: nat, hi: nat)
    ensures forall p | p in Cutout(s, lo, hi) :: !(lo <= Bytes(p) < hi)
  {}

  lemma WithoutZeroed(v: map<nat, Cell>, lo: nat, hi: nat)
    ensures Without(Zeroed(v, lo, hi), lo, hi) == Without(v, lo, hi)
  {}

  lemma NothingMapped(vmas: seq<UserVma>, space: Leaves, lo: nat, hi: nat)
    requires VmasOk(vmas) && forall p | p in space :: ProtAt(vmas, p).Some?
    requires lo < hi ==> RangeFree(vmas, lo, hi)
    ensures forall p | p in space :: !(lo <= Bytes(p) < hi)
  {
    forall p | p in space ensures !(lo <= Bytes(p) < hi) {
      var i := FindPage(vmas, p);
      assert !vmas[i].Meets(lo, hi) || !(lo < hi);
    }
  }

  /** The bits VMA_PROT_R, VMA_PROT_W and VMA_PROT_X. */
  function ProtOfBits(bits: nat): Prot { Prot(bits % 2 == 1, bits / 2 % 2 == 1, bits / 4 % 2 == 1) }

  /** What proc_mmap without MAP_FIXED accepts. */
  ghost predicate MmapAccepts(p: Process, size: nat, bits: nat) {
    && p.isUser && size > 0 && 0 < bits < 8 && !AllUsed(p.vmas)
    && exists a: nat :: MMAP_BASE <= a && a + size <= MMAP_END && Fits(p.vmas, a, size)
  }

  lemma FilledProcOk(procs: seq<Process>, image: Leaves, i: nat, t: seq<UserVma>, lo: nat, hi: nat, prot: Prot)
    requires ProcsOk(procs, image) && i < PROC_MAX && procs[i].Live()
    requires MMAP_BASE <= lo && hi <= MMAP_END && IsFilled(procs[i].vmas, t, lo, hi, prot)
    ensures ProcsOk(procs[i := procs[i].(vmas := t)], image)
  {
    var vmas := procs[i].vmas;
    assert ProcOk(procs[i], image);
    assert HasStack(t);
    forall p: nat | !Region(p) && ProtAt(t, p).Some?
      ensures p in image && image[p].perm == UserPerm(ProtAt(t, p).value)
    {
      assert ProtAt(t, p) == ProtAt(vmas, p);
    }
    var procs' := procs[i := procs[i].(vmas := t)];
    forall j | 0 <= j < PROC_MAX ensures ProcOk(procs'[j], image) {
      assert ProcOk(procs[j], image);
    }
  }

  lemma NoneWhereFree(vmas: seq<UserVma>, lo: nat, hi: nat)
    requires VmasOk(vmas) && RangeFree(vmas, lo, hi)
    ensures forall p: nat | lo <= Bytes(p) < hi :: ProtAt(vmas, p) == None
  {
    forall p: nat | lo <= Bytes(p) < hi ensures ProtAt(vmas, p) == None {
      var i := FindPage(vmas, p);
      assert forall j | 0 <= j < |vmas| :: !vmas[j].Has(p);
    }
  }

  lemma ZerosOverHole(v: map<nat, Cell>, lo: nat, hi: nat, prot: Prot)
    ensures WithZeros(Without(v, lo, hi), lo, hi, prot) == WithZeros(v, lo, hi, prot)
  {}

  lemma FilledOverCut(vmas: seq<UserVma>, t: seq<UserVma>, t': seq<UserVma>, lo: nat, hi: nat, prot: Prot)
    requires IsCut(vmas, t, lo, hi) && IsFilled(t, t', lo, hi, prot)
    ensures IsFilled(vmas, t', lo, hi, prot)
  {}

  /** With nothing mapped and no area anywhere the invariant holds. */
  lemma NobodyMaps(w: World)
    requires |w.spaces| == PROC_MAX && |w.areas| == PROC_MAX
    requires forall i | 0 <= i < PROC_MAX :: w.spaces[i] == map[] && AreasOk(w.areas[i])
    ensures Inv(w)
  {
    forall f: nat ensures Sharers(w.spaces, f) == {} {}
  }

  /** No page of area v is mapped. */
  ghost predicate NonePresent(v: UserVma, space: Leaves) {
    forall p | p in space :: !v.Has(p)
  }

  /** Cutting a range keeps the absent areas absent and makes those in it absent. */
  lemma CutoutAbsent(s: Leaves, vmas: seq<UserVma>, lo: nat, hi: nat)
    ensures forall j | 0 <= j < |vmas| && NonePresent(vmas[j], s) :: NonePresent(vmas[j], Cutout(s, lo, hi))
    ensures forall j | 0 <= j < |vmas| && lo <= vmas[j].start && vmas[j].end <= hi ::
              NonePresent(vmas[j], Cutout(s, lo, hi))
  {}

  lemma StackBounds()
    ensures Aligned(STACK_BASE) && STACK_BASE + Bytes(2) == STACK_TOP && Aligned(STACK_TOP) && MMAP_BASE <= STACK_BASE
  {}

  lemma AreasPlaced(w: World, i: nat)
    requires Inv(w) && i < PROC_MAX
    ensures |w.areas[i]| == VMA_MAX && AreasOk(w.areas[i])
    ensures forall j | 0 <= j < VMA_MAX && w.areas[i][j].used ::
              Aligned(w.areas[i][j].start) && Aligned(w.areas[i][j].end)
    ensures forall j | 0 <= j < VMA_MAX && !w.areas[i][j].used :: NonePresent(w.areas[i][j], w.spaces[i])
  {}

  /** Every mapped page is in an area, so once the areas of the window and the stack
      are unmapped nothing is mapped. */
  lemma AllReleased(w: World, i: nat)
    requires Inv(w) && i < PROC_MAX && |w.areas[i]| == VMA_MAX
    requires forall j | 0 <= j < VMA_MAX && InWindow(w.areas[i][j]) :: NonePresent(w.areas[i][j], w.spaces[i])
    requires forall j | 0 <= j < VMA_MAX && IsStack(w.areas[i][j]) :: NonePresent(w.areas[i][j], w.spaces[i])
    ensures w.spaces[i] == map[]
  {
    if p :| p in w.spaces[i] {
      assert PageOk(w.areas[i], w.spaces[i], w.mem, p);
      var j := FindPage(w.areas[i], p);
      RegionArea(w.areas[i], j, p);
      assert false;
    }
  }

  lemma RegionArea(vmas: seq<UserVma>, j: nat, p: nat)
    requires AreasOk(vmas) && j < |vmas| && vmas[j].Has(p) && Region(p)
    ensures InWindow(vmas[j]) || IsStack(vmas[j])
  {
    assert Placed(vmas[j]);
  }

  lemma UnusedLinked(procs: seq<Process>, spaces: seq<Leaves>, m: Memory, roots: set<nat>, k: KernelMap, i: nat)
    requires AllSpacesOk(procs, spaces, m, roots, k) && RootsApart(procs) && i < PROC_MAX && spaces[i] == map[]
    ensures AllSpacesOk(procs[i := UNUSED], spaces, m, roots, k) && RootsApart(procs[i := UNUSED])
  {
    var procs' := procs[i := UNUSED];
    forall j | 0 <= j < PROC_MAX ensures SpaceOk(procs'[j], spaces[j], m, roots, k) {
      assert SpaceOk(procs[j], spaces[j], m, roots, k);
    }
  }

  lemma NothingToSee(w: World, i: nat)
    requires i < |w.areas| && i < |w.spaces| && w.areas[i] == NoAreas()
    ensures View(w, i) == map[]
  {
    EmptyTable();
  }

  // ---------------------------------------------------------------------
  // New processes.

  /** Frames f and f + 1 were free and have one reference each. */
  ghost predicate TwoNew(r: seq<nat>, s: seq<nat>, base: nat, f: nat, tables: set<nat>) {
    && base <= f && f + 1 < base + |r| && r[f - base] == 0 && r[f + 1 - base] == 0
    && s == r[f - base := 1][f + 1 - base := 1] && f !in tables && f + 1 !in tables
  }

  /** If the new frame was the last there had been no other. */
  lemma NewWasLast(s: Supply, s': Supply, base: nat, f: nat)
    requires NewFrame(s.refs, s'.refs, base, f) && s'.None() && s'.freeRam == s.freeRam && s'.metaTop == s.metaTop
    ensures s.OneAtMost()
  {
    OneTaken(s, s', f - base);
  }

  // What happens outside the managed range: nothing.

  lemma NewOutside(m: Memory, m': Memory, r: seq<nat>, s: seq<nat>, base: nat, f: nat)
    requires NewFrame(r, s, base, f) && f < FRAMES && m' == m[f := ZeroFrame()]
    ensures SameOutside(m, m', base, |r|)
  {}

  lemma ClearedOutside(m: Memory, m': Memory, f: nat, n: nat, base: nat, managed: nat)
    requires Cleared(m, m', f, n) && base <= f && f + n <= base + managed
    ensures SameOutside(m, m', base, managed)
  {}

  lemma HeldTables(r: seq<nat>, base: nat, roots: set<nat>, own: map<nat, (nat, nat)>)
    requires TablesHeld(r, base, roots, own)
    ensures forall t | t in roots + own.Keys :: base <= t < base + |r|
  {
    forall t | t in roots + own.Keys ensures base <= t < base + |r| {
      assert IsTableFrame(roots, own, t);
    }
  }

  lemma KeptOutside(m: Memory, m': Memory, r: seq<nat>, s: seq<nat>, base: nat, tables: set<nat>, tables': set<nat>)
    requires Kept(m, m', r, s, base, tables, tables') && forall t | t in tables :: base <= t < base + |r|
    ensures SameOutside(m, m', base, |r|)
  {}

  /** Allocating a block leaves the trees and every translation alone. */
  lemma StackPagesKeep(m: Memory, m': Memory, r: seq<nat>, s: seq<nat>, base: nat, i: nat,
                       roots: set<nat>, own: map<nat, (nat, nat)>)
    requires Trees(m, roots, own) && TablesHeld(r, base, roots, own)
    requires i + 1 < |r| && base + i + 1 < FRAMES && Marked(r, s, i, 2) && Cleared(m, m', base + i, 2)
    ensures Trees(m', roots, own) && TablesHeld(s, base, roots, own) && SameSpaces(m, m', roots)
    ensures TwoNew(r, s, base, base + i, roots + own.Keys) && forall f | f in roots && f < FRAMES :: m'[f] == m[f]
  {
    assert !IsTableFrame(roots, own, base + i) && !IsTableFrame(roots, own, base + i + 1);
    assert s == r[i := 1][i + 1 := 1];
    DataWriteKeepsSpaces(m, m', roots, own);
  }

  ghost predicate AllZero(v: map<nat, Cell>) { forall p | p in v :: v[p].data == ZeroFrame() }

  /** The other processes see what they saw. */
  ghost predicate OthersSame(w: World, w': World, c: nat) {
    forall j | 0 <= j < PROC_MAX && j != c :: SameView(w, w', j)
  }

  /** If process c maps page p it is the only one to map that frame. */
  ghost predicate Unshared(spaces: seq<Leaves>, c: nat, p: nat) {
    c < |spaces| && (p in spaces[c] ==> Sharers(spaces, spaces[c][p].frame) == {(c, p)})
  }

  lemma OnlyOne(s: set<(nat, nat)>, x: (nat, nat))
    requires x in s && |s| == 1
    ensures s == {x}
  {
    assert |s - {x}| == 0;
  }

  lemma StackUnshared(w: World, c: nat, f: nat)
    requires Inv(w) && c < PROC_MAX && w.spaces[c] == StackSpace(f)
    requires w.base <= f && f + 1 < w.base + |w.refs| && w.refs[f - w.base] == 1 && w.refs[f + 1 - w.base] == 1
    ensures forall p: nat :: Unshared(w.spaces, c, p)
  {
    forall p: nat ensures Unshared(w.spaces, c, p) {
      if p in w.spaces[c] {
        MappedFrame(w, c, p);
        Single(w.spaces, c, p);
        OnlyOne(Sharers(w.spaces, w.spaces[c][p].frame), (c, p));
      }
    }
  }

  lemma FreshStackUnshared(w: World, w': World, c: nat, f: nat)
    requires Inv(w') && c < PROC_MAX && w'.spaces[c] == StackSpace(f) && Fresh(w, w', f) && Fresh(w, w', f + 1)
    ensures forall p: nat :: Unshared(w'.spaces, c, p)
  {
    hide Inv;
    StackUnshared(w', c, f);
  }

  lemma Untouched(w: World, w': World)
    requires Inv(w) && w' == w
    ensures Inv(w') && forall j | 0 <= j < PROC_MAX :: SameView(w, w', j)
  {}

  lemma StackAddress(pa: nat)
    requires pa == Bytes(pa / 4096)
    ensures Aligned(pa) && STACK_BASE / 4096 == STACK_PAGE && Aligned(STACK_BASE) && STACK_PAGE + 2 <= PAGES
  {}

  lemma SegmentsOk(image: seq<Segment>)
    requires ImageOk(image)
    ensures forall i | 0 <= i < |image| :: image[i].Ok()
  {}

  /** What is known after a stack was allocated and an address space built. */
  lemma AfterBuild(w: World, m1: Memory, r1: seq<nat>, w2: World, f: nat)
    requires CountsOk(w) && TwoNew(w.refs, r1, w.base, f, w.tables) && f + 1 < FRAMES && w2.base == w.base
    requires Cleared(w.mem, m1, f, 2)
    requires Kept(m1, w2.mem, r1, w2.refs, w.base, w.tables, w2.tables)
    ensures CountsKept(w, w2, {}) && DataKept(w, w2) && Fresh(w, w2, f) && Fresh(w, w2, f + 1)
    ensures w2.mem[f] == ZeroFrame() && w2.mem[f + 1] == ZeroFrame()
  {
    forall g: nat | Sharers(w.spaces, g) != {} ensures FrameKept(w, w2, g) && (g < FRAMES ==> w2.mem[g] == w.mem[g]) {
      assert CountOk(w, g);
      assert r1[g - w.base] == w.refs[g - w.base];
    }
  }

  /** A new translation, split at the user slots. */
  lemma NewSpaceParts(kernel: Leaves, image: seq<Segment>, f: nat)
    requires ImageOk(image) && KernelOnly(kernel)
    ensures Users(Overlay(OverlayAll(kernel, image), STACK_PAGE, 2, f, STACK_PERM)) == StackSpace(f)
    ensures Others(Overlay(OverlayAll(kernel, image), STACK_PAGE, 2, f, STACK_PERM)) == ImageSpace(kernel, image)
  {
    hide OverlayAll, ImageOk;
    ImageFacts(kernel, image);
    var o := OverlayAll(kernel, image);
    forall v: nat ensures v in o ==> !Region(v) {
      assert v !in Users(o);
    }
    forall v: nat
      ensures v in Overlay(o, STACK_PAGE, 2, f, STACK_PERM) <==> v in o || STACK_PAGE <= v < STACK_PAGE + 2
      ensures v in Overlay(o, STACK_PAGE, 2, f, STACK_PERM) ==>
                Overlay(o, STACK_PAGE, 2, f, STACK_PERM)[v]
                == if STACK_PAGE <= v < STACK_PAGE + 2 then Leaf(f + (v - STACK_PAGE), STACK_PERM) else o[v]
    {
      OverlayAt(o, STACK_PAGE, 2, f, STACK_PERM, v);
    }
  }

  lemma AdoptLinked(procs: seq<Process>, spaces: seq<Leaves>, m1: Memory, m2: Memory, roots: set<nat>, k: KernelMap,
                    c: nat, satp: nat, pa: nat)
    requires AllSpacesOk(procs, spaces, m1, roots, k) && RootsApart(procs) && SameSpaces(m1, m2, roots)
    requires c < PROC_MAX && procs[c].state != Unused && procs[c].isUser && satp != 0
    requires RootFromSatp(satp) < FRAMES && RootFromSatp(satp) !in roots
    requires Users(Space(m2, RootFromSatp(satp))) == StackSpace(pa / 4096)
             && Others(Space(m2, RootFromSatp(satp))) == k.image
    ensures AllSpacesOk(procs[c := procs[c].(satp := satp, stackPa := pa)], spaces[c := StackSpace(pa / 4096)], m2,
                        roots + {RootFromSatp(satp)}, k)
    ensures RootsApart(procs[c := procs[c].(satp := satp, stackPa := pa)])
  {
    hide Space;
    var procs' := procs[c := procs[c].(satp := satp, stackPa := pa)];
    var spaces' := spaces[c := StackSpace(pa / 4096)];
    forall j | 0 <= j < PROC_MAX
      ensures SpaceOk(procs'[j], spaces'[j], m2, roots + {RootFromSatp(satp)}, k)
      ensures j != c && procs[j].Live() ==> procs[j].Root() != RootFromSatp(satp)
    {
      assert SpaceOk(procs[j], spaces[j], m1, roots, k);
    }
  }

  lemma TwoDropped(r: seq<nat>, s: seq<nat>, base: nat, f: nat, noNodes: bool, roots: set<nat>,
                   own: map<nat, (nat, nat)>)
    requires base <= f && f + 1 < base + |r| && Dropped(r, s, f - base, 2, noNodes)
    requires TablesHeld(r, base, roots, own) && f !in roots + own.Keys && f + 1 !in roots + own.Keys
    ensures TablesHeld(s, base, roots, own)
    ensures |s| == |r| && forall j | 0 <= j < |r| && j != f - base && j != f + 1 - base :: s[j] == r[j]
  {
    forall t | IsTableFrame(roots, own, t) ensures Held(s, base, t) { assert Held(r, base, t); }
  }

  lemma GrownAfterTwo(w: World, w2: World, w3: World, f: nat)
    requires CountsKept(w, w2, {}) && DataKept(w, w2) && Sharers(w.spaces, f) == {} && Sharers(w.spaces, f + 1) == {}
    requires w3 == w2.(refs := w3.refs) && w2.spaces == w.spaces && w2.areas == w.areas
    requires |w3.refs| == |w2.refs|
    requires forall j | 0 <= j < |w2.refs| && j != f - w2.base && j != f + 1 - w2.base :: w3.refs[j] == w2.refs[j]
    ensures Grown(w, w3)
  {
    forall g: nat | Sharers(w.spaces, g) != {} ensures FrameKept(w, w3, g) { assert FrameKept(w, w2, g); }
  }

  // ---------------------------------------------------------------------
  // Fork.

  /** The child sees at page p what the parent sees there. */
  ghost function PageTaken(child: map<nat, Cell>, parent: map<nat, Cell>, p: nat): map<nat, Cell> {
    if p in child && p in parent then child[p := parent[p]] else child
  }

  /** Entries for other pages than p are as they were. */
  ghost predicate OnlyPage(s: seq<Leaves>, s': seq<Leaves>, p: nat) {
    && |s'| == |s|
    && forall j: nat, q: nat | j < |s| && q != p :: (q in s'[j] <==> q in s[j]) && (q in s[j] ==> s'[j][q] == s[j][q])
  }

  lemma OnlyPageRefl(s: seq<Leaves>, p: nat)
    ensures OnlyPage(s, s, p)
  {}

  lemma OnlyPageOne(s: seq<Leaves>, c: nat, p: nat, leaf: Option<Leaf>)
    requires c < |s|
    ensures OnlyPage(s, s[c := Mapped(s[c], p, leaf)], p)
  {}

  lemma OnlyPageTwice(s: seq<Leaves>, s1: seq<Leaves>, s2: seq<Leaves>, p: nat)
    requires |s1| == |s| && OnlyPage(s1, s2, p)
    requires exists i: nat, leaf: Option<Leaf> :: i < |s| && s1 == s[i := Mapped(s[i], p, leaf)]
    ensures OnlyPage(s, s2, p)
  {}

  lemma BothSee(w: World, i: nat, c: nat, p: nat, prot: Prot)
    requires i < |w.areas| && c < |w.areas| && i < |w.spaces| && c < |w.spaces| && w.areas[i] == w.areas[c]
    requires Region(p) && ProtAt(w.areas[i], p) == Some(prot)
    ensures p in View(w, i) && p in View(w, c) && View(w, c)[p].prot == prot
    ensures View(w, i)[p] == Cell(prot, Content(w.spaces[i], w.mem, p))
  {}

  lemma NothingToTake(w: World, i: nat, c: nat, p: nat)
    requires Inv(w) && i < PROC_MAX && c < PROC_MAX && p !in w.spaces[i] && p in View(w, c) && p in View(w, i)
    requires View(w, c)[p].data == ZeroFrame() && View(w, c)[p].prot == View(w, i)[p].prot
    ensures PageTaken(View(w, c), View(w, i), p) == View(w, c) && OthersSame(w, w, c)
  {}

  lemma NotShared(w: World, i: nat, c: nat, p: nat)
    requires i < |w.spaces| && i != c && p in w.spaces[i] && Unshared(w.spaces, c, p)
    ensures p in w.spaces[c] ==> w.spaces[c][p].frame != w.spaces[i][p].frame
  {
    assert (i, p) in Sharers(w.spaces, w.spaces[i][p].frame);
  }

  lemma KeptCounts(w: World, w': World)
    requires CountsOk(w) && w'.base == w.base && Kept(w.mem, w'.mem, w.refs, w'.refs, w.base, w.tables, w'.tables)
    ensures CountsKept(w, w', {}) && DataKept(w, w')
    ensures forall f: nat | f < FRAMES && Held(w.refs, w.base, f) && f !in w.tables ::
              FrameKept(w, w', f) && Held(w'.refs, w.base, f) && f !in w'.tables
  {
    forall g: nat | Sharers(w.spaces, g) != {} ensures FrameKept(w, w', g) && (g < FRAMES ==> w'.mem[g] == w.mem[g]) {
      assert CountOk(w, g);
    }
  }

  lemma AfterShare(w: World, r2: seq<nat>, w3: World, f: nat)
    requires CountsOk(w) && w3.base == w.base && Held(w.refs, w.base, f) && f !in w.tables
    requires r2 == w.refs[f - w.base := w.refs[f - w.base] + 1]
    requires Kept(w.mem, w3.mem, r2, w3.refs, w.base, w.tables, w3.tables)
    ensures CountsKept(w, w3, {f}) && DataKept(w, w3) && Gained(w, w3, f)
  {
    forall g: nat | Sharers(w.spaces, g) != {}
      ensures (g != f ==> FrameKept(w, w3, g)) && (g < FRAMES ==> w3.mem[g] == w.mem[g])
    {
      assert CountOk(w, g);
      assert g != f ==> r2[g - w.base] == w.refs[g - w.base];
    }
  }

  lemma StillHeld(w: World, w3: World, g: nat, f: nat)
    requires CountsKept(w, w3, {f}) && CountOk(w, g) && Sharers(w.spaces, g) != {} && g != f
    ensures Held(w3.refs, w3.base, g) && g !in w3.tables && w3.refs[g - w.base] == w.refs[g - w.base]
  {
    assert FrameKept(w, w3, g);
  }

  lemma AfterShareDrop(w: World, w3: World, w4: World, f: nat, g: nat)
    requires CountsKept(w, w3, {f}) && DataKept(w, w3) && Gained(w, w3, f) && f != g && CountOk(w, g)
             && Sharers(w.spaces, g) != {}
    requires OneDropped(w3.refs, w4.refs, w3.base, g) && w4 == w3.(refs := w4.refs)
    ensures CountsKept(w, w4, {f, g}) && DataKept(w, w4) && Gained(w, w4, f) && Released(w, w4, g)
  {
    assert FrameKept(w, w3, g);
    forall h: nat | Sharers(w.spaces, h) != {} && h !in {f, g}
      ensures FrameKept(w, w4, h)
    {
      assert FrameKept(w, w3, h);
    }
  }

  /** The child sees the parent's contents at the pages done, and has nothing but
      frames of its own, still zero, at the others. */
  ghost predicate CloneSoFar(parent: map<nat, Cell>, child: map<nat, Cell>, spaces: seq<Leaves>, c: nat,
                             done: set<nat>) {
    && child.Keys == parent.Keys
    && (forall q | q in child :: q in parent && child[q].prot == parent[q].prot
                                 && child[q].data == if q in done then parent[q].data else ZeroFrame())
    && (forall q: nat | q !in done :: Unshared(spaces, c, q))
  }

  lemma CloneAt(parent: map<nat, Cell>, child: map<nat, Cell>, spaces: seq<Leaves>, c: nat, done: set<nat>, p: nat)
    requires CloneSoFar(parent, child, spaces, c, done) && p !in done
    ensures Unshared(spaces, c, p) && (p in child ==> child[p].data == ZeroFrame())
  {}

  lemma UnsharedKept(s: seq<Leaves>, s': seq<Leaves>, c: nat, p: nat, q: nat)
    requires SharingOk(s') && |s| == |s'| && OnlyPage(s, s', p) && q != p && Unshared(s, c, q)
    ensures Unshared(s', c, q)
  {
    if q in s'[c] {
      var f := s'[c][q].frame;
      assert (c, q) in Sharers(s', f);
      forall x | x in Sharers(s', f) ensures x == (c, q) {
        assert PairOk(s', c, q, x.0, x.1);
        assert x in Sharers(s, f);
      }
    }
  }

  lemma CloneStep(parent: map<nat, Cell>, child: map<nat, Cell>, child': map<nat, Cell>, s: seq<Leaves>,
                  s': seq<Leaves>, c: nat, done: set<nat>, p: nat)
    requires CloneSoFar(parent, child, s, c, done) && child' == PageTaken(child, parent, p)
    requires SharingOk(s') && OnlyPage(s, s', p)
    ensures CloneSoFar(parent, child', s', c, done + {p})
  {
    forall q: nat | q !in done + {p} ensures Unshared(s', c, q) {
      UnsharedKept(s, s', c, p, q);
    }
  }

  /** The writable areas before k, and nothing else, are done. */
  ghost predicate DoneAreas(vmas: seq<UserVma>, k: nat, done: set<nat>) {
    && k <= |vmas|
    && (forall q | q in done :: exists j :: 0 <= j < k && vmas[j].Has(q))
    && (forall q: nat, j | 0 <= j < k && vmas[j].Has(q) && vmas[j].prot.w :: q in done)
  }

  lemma AreaNotDone(vmas: seq<UserVma>, k: nat, done: set<nat>)
    requires VmasOk(vmas) && k < |vmas| && DoneAreas(vmas, k, done)
    ensures forall q | q in done :: !vmas[k].Has(q)
  {
    forall q | q in done ensures !vmas[k].Has(q) {
      var j :| 0 <= j < k && vmas[j].Has(q);
      if vmas[k].Has(q) { OneArea(vmas, j, k, q); }
    }
  }

  lemma AreaDone(vmas: seq<UserVma>, k: nat, done: set<nat>, done': set<nat>)
    requires k < |vmas| && DoneAreas(vmas, k, done) && forall q :: q in done' <==> q in done || vmas[k].Has(q)
    ensures DoneAreas(vmas, k + 1, done')
  {
    forall q | q in done' ensures exists j :: 0 <= j < k + 1 && vmas[j].Has(q) {
      if q in done {
        var j :| 0 <= j < k && vmas[j].Has(q);
      } else {
        assert vmas[k].Has(q);
      }
    }
  }

  lemma AreaSkipped(vmas: seq<UserVma>, k: nat, done: set<nat>)
    requires k < |vmas| && DoneAreas(vmas, k, done) && !(vmas[k].used && vmas[k].prot.w)
    ensures DoneAreas(vmas, k + 1, done)
  {
    forall q | q in done ensures exists j :: 0 <= j < k + 1 && vmas[j].Has(q) {
      var j :| 0 <= j < k && vmas[j].Has(q);
    }
  }

  lemma Refl(w: World, c: nat)
    requires |w.spaces| == PROC_MAX && |w.areas| == PROC_MAX
    ensures OthersSame(w, w, c)
  {}

  lemma StillParent(w: World, w1: World, i: nat, c: nat)
    requires OthersSame(w, w1, c) && i != c && i < PROC_MAX
    ensures i < |w.areas| && i < |w.spaces| && i < |w1.areas| && i < |w1.spaces| && View(w1, i) == View(w, i)
  {
    assert SameView(w, w1, i);
  }

  lemma CloneStart(w: World, i: nat, c: nat)
    requires |w.areas| == |w.spaces| && i < |w.areas| && c < |w.areas| && w.areas[i] == w.areas[c]
             && AllZero(View(w, c))
    requires forall p: nat :: Unshared(w.spaces, c, p)
    ensures CloneSoFar(View(w, i), View(w, c), w.spaces, c, {}) && DoneAreas(w.areas[c], 0, {})
  {}

  /** A page of an area that grants no write is zero: clone may skip it. */
  lemma ReadOnlyIsZero(w: World, i: nat, q: nat)
    requires Inv(w) && i < PROC_MAX && q in View(w, i) && !(View(w, i)[q].prot.r && View(w, i)[q].prot.w)
    ensures View(w, i)[q].data == ZeroFrame()
  {
    if q in w.spaces[i] { assert PageOk(w.areas[i], w.spaces[i], w.mem, q); }
  }

  lemma CloneEnd(w: World, w': World, i: nat, c: nat, done: set<nat>)
    requires Inv(w) && Inv(w') && i < PROC_MAX && c < PROC_MAX && i != c && OthersSame(w, w', c)
    requires w.areas[i] == w.areas[c] && w'.areas == w.areas
    requires CloneSoFar(View(w, i), View(w', c), w'.spaces, c, done) && DoneAreas(w.areas[c], VMA_MAX, done)
    ensures View(w', c) == View(w, i)
  {
    forall q | q in View(w, i) ensures View(w', c)[q] == View(w, i)[q] {
      if q !in done {
        var j := FindPage(w.areas[i], q);
        ReadOnlyIsZero(w, i, q);
      }
    }
  }

  /** A process as init_process_common leaves it, with a stack to come. */
  function Embryo(pid: nat, parentPid: nat, stackBase: nat, stackPages: nat): Process {
    Process(Runnable, pid, parentPid, 0, true, 0, stackBase, 0, stackPages, NoAreas())
  }

  /** Process c changes, but neither its root nor whether it has one. */
  lemma EmbryoLinked(procs: seq<Process>, spaces: seq<Leaves>, m: Memory, roots: set<nat>, k: KernelMap, c: nat,
                     p: Process)
    requires AllSpacesOk(procs, spaces, m, roots, k) && RootsApart(procs) && c < PROC_MAX
    requires p.Live() == procs[c].Live() && p.satp == procs[c].satp
    ensures AllSpacesOk(procs[c := p], spaces, m, roots, k) && RootsApart(procs[c := p])
    ensures !p.Live() ==> spaces[c] == map[]
  {
    var procs' := procs[c := p];
    assert SpaceOk(procs[c], spaces[c], m, roots, k);
    forall j | 0 <= j < PROC_MAX ensures SpaceOk(procs'[j], spaces[j], m, roots, k) {
      assert SpaceOk(procs[j], spaces[j], m, roots, k);
    }
  }

  /** proc_sp_within_user_stack */
  predicate SpOk(p: Process, sp: nat) {
    p.stackBase <= sp <= p.stackBase + Bytes(p.stackPages)
  }

  /** The process fork makes: the record of its parent but for these fields. */
  predicate IsChild(parent: Process, child: Process, pid: nat) {
    child == parent.(state := Runnable, pid := pid, parentPid := parent.pid, exitStatus := 0,
                     satp := child.satp, stackPa := child.stackPa)
  }

  /** The child is gone again: nobody sees that it was there. */
  lemma UnseenAgain(w: World, w1: World, w2: World, c: nat)
    requires c < PROC_MAX && OthersSame(w, w1, c) && OthersSame(w1, w2, c)
    requires |w.areas| == PROC_MAX && |w.spaces| == PROC_MAX && |w2.areas| == PROC_MAX && |w2.spaces| == PROC_MAX
    requires View(w, c) == map[] && View(w2, c) == map[]
    ensures forall j | 0 <= j < PROC_MAX :: SameView(w, w2, j)
  {
    forall j | 0 <= j < PROC_MAX ensures SameView(w, w2, j) {
      assert j != c ==> SameView(w, w1, j) && SameView(w1, w2, j);
    }
  }

  lemma ProcsOkWith(procs: seq<Process>, procs': seq<Process>, image: Leaves, c: nat)
    requires ProcsOk(procs, image) && c < PROC_MAX && |procs'| == PROC_MAX && procs' == procs[c := procs'[c]]
    requires ProcOk(procs'[c], image)
    ensures ProcsOk(procs', image)
  {}

  /** The view of a new process: two zeroed stack pages. */
  function FreshStack(): map<nat, Cell> {
    map[STACK_PAGE := Cell(READ_WRITE, ZeroFrame()), STACK_PAGE + 1 := Cell(READ_WRITE, ZeroFrame())]
  }

  /** A table with the stack alone. */
  function StackTable(): seq<UserVma> { NoAreas()[0 := UserVma(true, STACK_BASE, STACK_TOP, READ_WRITE)] }

  lemma StackTableOk()
    ensures AreasOk(StackTable()) && HasStack(StackTable()) && |StackTable()| == VMA_MAX
    ensures forall j | 0 <= j < VMA_MAX && StackTable()[j].used :: !InWindow(StackTable()[j])
  {
    var t := StackTable();
    assert VmasOk(t);
    assert t[0].Has(STACK_PAGE) && t[0].Has(STACK_PAGE + 1);
    ProtOf(t, 0, STACK_PAGE);
    ProtOf(t, 0, STACK_PAGE + 1);
  }

  lemma FreshView(w: World, c: nat)
    requires c < |w.areas| && c < |w.spaces| && HasStack(w.areas[c]) && AllZero(View(w, c))
    requires forall p | p in View(w, c) :: STACK_PAGE <= p < STACK_PAGE + 2 && View(w, c)[p].prot == READ_WRITE
    ensures StackOnly(View(w, c)) == FreshStack()
  {
    hide ProtAt;
    assert STACK_PAGE in View(w, c) && STACK_PAGE + 1 in View(w, c);
  }

  /** Pages went, but none of the stack, and the others are as they were. */
  ghost predicate Shrunk(v: map<nat, Cell>, v': map<nat, Cell>) {
    && (forall p | p in v' :: p in v && v'[p] == v[p])
    && (forall p | p in v && STACK_PAGE <= p < STACK_PAGE + 2 :: p in v')
  }

  lemma ShrunkBy(v: map<nat, Cell>, lo: nat, hi: nat)
    requires hi <= MMAP_END
    ensures Shrunk(v, Without(v, lo, hi)) && Shrunk(v, v)
  {}

  lemma ShrunkTwice(v: map<nat, Cell>, v1: map<nat, Cell>, v2: map<nat, Cell>)
    requires Shrunk(v, v1) && Shrunk(v1, v2)
    ensures Shrunk(v, v2)
  {}

  /** Just the stack. */
  ghost function StackOnly(v: map<nat, Cell>): map<nat, Cell> {
    map p | p in v && STACK_PAGE <= p < STACK_PAGE + 2 :: v[p]
  }

  lemma StackOnlyOfShrunk(v: map<nat, Cell>, v': map<nat, Cell>)
    requires Shrunk(v, v')
    ensures StackOnly(v') == StackOnly(v)
  {}

  /** Dropping an area of the window is a cut. */
  lemma DropIsCut(vmas: seq<UserVma>, k: nat)
    requires VmasOk(vmas) && AllPlaced(vmas) && k < |vmas| && vmas[k].used && InWindow(vmas[k])
    ensures VmasOk(vmas[k := NO_VMA]) && AllPlaced(vmas[k := NO_VMA])
    ensures IsCut(vmas, vmas[k := NO_VMA], vmas[k].start, vmas[k].end)
    ensures Aligned(vmas[k].start) && Aligned(vmas[k].end)
  {
    ShrinkArea(vmas, k, NO_VMA);
  }

  /** With the areas of the window gone only stack pages are mapped, and a fresh table
      grants them what they have. */
  lemma StackStays(w: World, i: nat, t: seq<UserVma>, image: seq<Segment>)
    requires Inv(w) && i < PROC_MAX && ImageOk(image) && forall p: nat :: ProtAt(t, p) == InitProt(image, p)
    requires forall j | 0 <= j < |w.areas[i]| && w.areas[i][j].used :: !InWindow(w.areas[i][j])
    ensures PagesOk(t, w.spaces[i], w.mem)
    ensures forall p | p in View(w, i) :: STACK_PAGE <= p < STACK_PAGE + 2 && View(w, i)[p].prot == READ_WRITE
  {
    forall p: nat | Region(p) && ProtAt(w.areas[i], p).Some?
      ensures STACK_PAGE <= p < STACK_PAGE + 2 && ProtAt(w.areas[i], p) == Some(READ_WRITE)
    {
      var j := FindPage(w.areas[i], p);
      RegionArea(w.areas[i], j, p);
    }
    forall p | p in w.spaces[i] ensures PageOk(t, w.spaces[i], w.mem, p) {
      assert PageOk(w.areas[i], w.spaces[i], w.mem, p);
    }
  }

  lemma StackView(w: World, w': World, i: nat, image: seq<Segment>)
    requires i < |w.areas| && i < |w.spaces| && i < |w'.areas| && w'.spaces == w.spaces && w'.mem == w.mem
             && ImageOk(image)
    requires forall p: nat :: ProtAt(w'.areas[i], p) == InitProt(image, p)
    requires forall p | p in View(w, i) :: STACK_PAGE <= p < STACK_PAGE + 2 && View(w, i)[p].prot == READ_WRITE
    requires HasStack(w.areas[i])
    ensures View(w', i) == StackOnly(View(w, i))
  {
    hide ProtAt;
    assert STACK_PAGE in View(w, i) && STACK_PAGE + 1 in View(w, i);
    forall p | p in View(w', i) ensures STACK_PAGE <= p < STACK_PAGE + 2 {}
  }

  /** The areas of the image on top of a fresh stack: still only the stack is seen. */
  lemma FreshAreas(w: World, w': World, c: nat, t: seq<UserVma>, image: seq<Segment>)
    requires Inv(w) && c < PROC_MAX && w.areas[c] == StackTable() && AllZero(View(w, c))
    requires w' == w.(areas := w.areas[c := t]) && ImageOk(image)
    requires AreasOk(t) && forall p: nat :: ProtAt(t, p) == InitProt(image, p)
    ensures Inv(w') && OthersSame(w, w', c) && View(w', c) == FreshStack()
  {
    hide Inv, View, ImageOk, AreasOk, AllZero, HasStack, FreshStack, InitProt, ProtAt, StackOnly;
    InvSizes(w);
    StackTableOk();
    StackStays(w, c, t, image);
    AreasChange(w, w', c, t);
    StackView(w, w', c, image);
    FreshView(w, c);
  }

  // ---------------------------------------------------------------------
  // Exit, waiting, and what programs do.

  /** A child that waitpid(pid) by this process looks at. */
  predicate ChildOf(p: Process, parent: nat, pid: int) {
    p.state != Unused && p.parentPid == parent && (pid > 0 ==> p.pid == pid)
  }

  /** What proc_reap_orphan_zombies reaps; the idle process is in slot 0. */
  predicate IsOrphan(procs: seq<Process>, i: nat)
    requires i < |procs|
  {
    i != 0 && procs[i].state == Zombie && procs[i].isUser && procs[i].parentPid == 0
  }

  lemma OrphanIsZombie(procs: seq<Process>, i: nat)
    requires i < |procs| && IsOrphan(procs, i)
    ensures procs[i].state == Zombie
  {}

  lemma OrphanSame(procs: seq<Process>, procs': seq<Process>, i: nat)
    requires i < |procs| && i < |procs'| && procs[i] == procs'[i]
    ensures IsOrphan(procs, i) == IsOrphan(procs', i)
  {}

  /** The orphans of the table among the first i are gone, and nobody else sees a change. */
  ghost predicate OrphansGone(table: seq<Process>, procs: seq<Process>, w: World, w': World, i: nat) {
    && |table| == PROC_MAX && |procs| == PROC_MAX
    && (forall j | 0 <= j < PROC_MAX :: procs[j] == if j < i && IsOrphan(table, j) then UNUSED else table[j])
    && |w.areas| == PROC_MAX && |w.spaces| == PROC_MAX && |w'.areas| == PROC_MAX && |w'.spaces| == PROC_MAX
    && (forall j | 0 <= j < PROC_MAX ::
          if j < i && IsOrphan(table, j) then View(w', j) == map[] else SameView(w, w', j))
  }

  lemma NoneGone(table: seq<Process>, w: World)
    requires |table| == PROC_MAX && |w.areas| == PROC_MAX && |w.spaces| == PROC_MAX
    ensures OrphansGone(table, table, w, w, 0)
  {
    hide View;
  }

  lemma OneMoreGone(table: seq<Process>, procs: seq<Process>, procs': seq<Process>, w: World, w1: World, w2: World,
                    i: nat)
    requires OrphansGone(table, procs, w, w1, i) && i < PROC_MAX
    requires |w2.areas| == PROC_MAX && |w2.spaces| == PROC_MAX
    requires procs' == procs[i := UNUSED] && IsOrphan(procs, i) && OthersSame(w1, w2, i) && View(w2, i) == map[]
    ensures OrphansGone(table, procs', w, w2, i + 1)
  {
    hide View;
    OrphanSame(procs, table, i);
    forall j | 0 <= j < PROC_MAX && j != i
      ensures if j < i && IsOrphan(table, j) then View(w2, j) == map[] else SameView(w, w2, j)
    {
      assert SameView(w1, w2, j);
    }
  }

  lemma NoOrphanHere(table: seq<Process>, procs: seq<Process>, w: World, w1: World, i: nat)
    requires OrphansGone(table, procs, w, w1, i) && i < PROC_MAX && !IsOrphan(procs, i)
    ensures OrphansGone(table, procs, w, w1, i + 1)
  {
    OrphanSame(procs, table, i);
  }

  lemma AllGone(table: seq<Process>, procs: seq<Process>, w: World, w': World)
    requires OrphansGone(table, procs, w, w', PROC_MAX)
    ensures |table| == PROC_MAX && |procs| == PROC_MAX && |w'.areas| == PROC_MAX && |w'.spaces| == PROC_MAX
    ensures forall j | 0 <= j < PROC_MAX :: procs[j] == if IsOrphan(table, j) then UNUSED else table[j]
    ensures forall j | 0 <= j < PROC_MAX :: if IsOrphan(table, j) then View(w', j) == map[] else SameView(w, w', j)
  {
    hide View;
  }

  /** The hardware lets the access through: a user page with the permissions, and not the
      reserved combination of W without R (section 4.3.1). */
  predicate HwAllows(perm: Perm, need: Prot) {
    perm.u && PermHas(perm, need) && (perm.w ==> perm.r)
  }

  datatype Ending = Permitted | Refused | Livelock

  /** One word of one page stored. */
  ghost function Stored(v: map<nat, Cell>, p: nat, k: nat, x: Word): map<nat, Cell>
    requires k < WORDS
  {
    if p in v then v[p := Cell(v[p].prot, v[p].data[k := x])] else v
  }

  lemma FewerLost(stray: set<nat>, stray': set<nat>, spaces: seq<Leaves>, warned: bool)
    requires warned || stray' <= stray
    ensures warned || LostFrames(stray', spaces) <= LostFrames(stray, spaces)
  {}

  /** One entry changes, and what it mapped before has lost a reference. */
  lemma RemapSpares(w: World, stray: set<nat>, stray': set<nat>, spaces: seq<Leaves>, i: nat, p: nat,
                    leaf: Option<Leaf>, warned: bool)
    requires CountsOk(w) && i < |w.spaces| && spaces == w.spaces[i := Mapped(w.spaces[i], p, leaf)]
    requires stray' <= stray + (if leaf.Some? then {leaf.value.frame} else {})
    requires p in w.spaces[i] && !(leaf.Some? && leaf.value.frame == w.spaces[i][p].frame) ==>
               var g := w.spaces[i][p].frame;
               Held(w.refs, w.base, g) && (warned || w.refs[g - w.base] > 1 || g !in stray')
    ensures warned || LostFrames(stray', spaces) <= LostFrames(stray, w.spaces)
  {
    if !warned {
      if p in w.spaces[i] {
        MappedFrame(w, i, p);
      }
      RemapLoses(stray, stray', w.spaces, i, p, leaf);
    }
  }

  /** The two new pages of a stack are mapped. */
  lemma StackIsMapped(stray: set<nat>, stray': set<nat>, spaces: seq<Leaves>, c: nat, f: nat, warned: bool)
    requires c < |spaces| && spaces[c] == map[] && (warned || stray' <= stray + {f, f + 1})
    ensures warned || LostFrames(stray', spaces[c := StackSpace(f)]) <= LostFrames(stray, spaces)
  {
    if warned { return; }
    var one, two := Some(Leaf(f, STACK_PERM)), Some(Leaf(f + 1, STACK_PERM));
    var t := spaces[c := Mapped(spaces[c], STACK_PAGE, one)];
    RemapLoses(stray, stray + {f}, spaces, c, STACK_PAGE, one);
    RemapLoses(stray + {f}, stray', t, c, STACK_PAGE + 1, two);
    assert t[c := Mapped(t[c], STACK_PAGE + 1, two)] == spaces[c := StackSpace(f)];
  }

  /** No area has W alone, without R and X. */
  ghost predicate NoWriteOnly(vmas: seq<UserVma>) {
    forall i | 0 <= i < |vmas| && vmas[i].used && vmas[i].prot.w :: vmas[i].prot.r || vmas[i].prot.x
  }

  /** Process i maps page p, as prot says, to a new frame with the bytes of the old one. */
  ghost predicate Copied(w: World, w': World, i: nat, p: nat, f: nat, prot: Prot) {
    && i < |w.spaces| && p in w.spaces[i] && w.spaces[i][p].frame < FRAMES
    && w'.spaces == w.spaces[i := Mapped(w.spaces[i], p, UserLeaf(f, prot))]
    && CountsKept(w, w', {}) && DataKept(w, w') && Fresh(w, w', f) && w'.mem[f] == w.mem[w.spaces[i][p].frame]
  }

  /** The end of a copy-on-write fault: the old frame has lost its reference, the page
      is mapped to the copy, and nothing is lost. */
  lemma CopyKeeps(w: World, w2: World, w3: World, i: nat, p: nat, f: nat, prot: Prot, stray: set<nat>,
                  stray': set<nat>, warned: bool)
    requires Inv(w) && i < PROC_MAX && Region(p) && p in w.spaces[i] && ProtAt(w.areas[i], p) == Some(prot) && prot.w
    requires Copied(w, w2, i, p, f, prot) && w2.areas == w.areas && w2.base == w.base
    requires OneDropped(w2.refs, w3.refs, w2.base, w.spaces[i][p].frame) && w3 == w2.(refs := w3.refs)
    requires stray' <= stray + {f} && Held(w.refs, w.base, w.spaces[i][p].frame)
    requires warned || w.refs[w.spaces[i][p].frame - w.base] > 1 || w.spaces[i][p].frame !in stray'
    ensures Inv(w3) && forall j | 0 <= j < PROC_MAX :: SameView(w, w3, j)
    ensures warned || LostFrames(stray', w3.spaces) <= LostFrames(stray, w.spaces)
  {
    hide CountsOk, SharingOk, AreasOk, PagesOk, ProtAt, View, OneDropped, Fresh, CountsKept, DataKept, Released,
      Sharers, LostFrames;
    MappedFrame(w, i, p);
    StillMapped(w, w2, w.spaces[i][p].frame, f);
    AfterDrop(w, w2, w3, w.spaces[i][p].frame, f);
    FreshFrame(w, w3, f);
    RecopyKeeps(w, w3, i, p, f, prot);
    RemapSpares(w, stray, stray', w3.spaces, i, p, UserLeaf(f, prot), warned);
  }

  lemma FreshFrame(w: World, w': World, f: nat)
    requires Fresh(w, w', f)
    ensures f < FRAMES
  {}

  /** A page of an area with W alone that was shared: it has two references, and no
      entry of any process maps it any more. */
  ghost predicate Forgotten(w: World, f: nat) {
    Held(w.refs, w.base, f) && f !in w.tables && Sharers(w.spaces, f) == {}
  }

  lemma ShareForgets(w: World, w': World, c: nat, p: nat, f: nat, prot: Prot)
    requires Gained(w, w', f) && f !in w.tables && c < |w.spaces|
             && w'.spaces == w.spaces[c := Mapped(w.spaces[c], p, UserLeaf(f, prot.(w := false)))]
    requires prot.r || prot.x || Sharers(w.spaces, f) == {}
    ensures prot.r || prot.x || Forgotten(w', f)
  {
    SharersMapped(w.spaces, c, p, UserLeaf(f, prot.(w := false)), f);
  }

  // ---------------------------------------------------------------------
  // Scans of the process table.

  /** alloc_process_slot; PROC_MAX stands for NULL. */
  method AllocProcessSlot(procs: seq<Process>) returns (c: nat)
    requires |procs| == PROC_MAX
    ensures c <= PROC_MAX && (c < PROC_MAX ==> procs[c].state == Unused)
    ensures c == PROC_MAX ==> forall i | 0 <= i < PROC_MAX :: procs[i].state != Unused
  {
    c := 0;
    while c < PROC_MAX
      invariant 0 <= c <= PROC_MAX && forall i | 0 <= i < c :: procs[i].state != Unused
    {
      if procs[c].state == Unused {
        return;
      }
      c := c + 1;
    }
  }

  /** Slot i is the first in use with this pid. */
  predicate FirstWithPid(procs: seq<Process>, i: nat, pid: nat)
    requires i < |procs|
  {
    && procs[i].state != Unused && procs[i].pid == pid
    && forall j | 0 <= j < i :: procs[j].state == Unused || procs[j].pid != pid
  }

  /** find_process_by_pid; PROC_MAX stands for NULL. */
  method FindByPid(procs: seq<Process>, pid: nat) returns (i: nat)
    requires |procs| == PROC_MAX
    ensures i <= PROC_MAX && (i < PROC_MAX ==> FirstWithPid(procs, i, pid))
    ensures i == PROC_MAX ==> forall j | 0 <= j < PROC_MAX :: procs[j].state == Unused || procs[j].pid != pid
  {
    i := 0;
    while i < PROC_MAX
      invariant 0 <= i <= PROC_MAX && forall j | 0 <= j < i :: procs[j].state == Unused || procs[j].pid != pid
    {
      if procs[i].state != Unused && procs[i].pid == pid {
        return;
      }
      i := i + 1;
    }
  }

  /** The scan of one pass of proc_waitpid: is there a child that matches, and the slot
      of the first such child that is a zombie. */
  method ScanChildren(procs: seq<Process>, current: nat, pid: int) returns (hasChild: bool, slot: nat)
    requires |procs| == PROC_MAX && current < PROC_MAX
    ensures slot <= PROC_MAX
    ensures hasChild <==> exists i :: 0 <= i < PROC_MAX && ChildOf(procs[i], procs[current].pid, pid)
    ensures slot < PROC_MAX ==> ChildOf(procs[slot], procs[current].pid, pid) && procs[slot].state == Zombie
    ensures forall i | 0 <= i < slot && ChildOf(procs[i], procs[current].pid, pid) :: procs[i].state != Zombie
  {
    hide ChildOf;
    hasChild, slot := false, 0;
    while slot < PROC_MAX
      invariant slot <= PROC_MAX
      invariant hasChild <==> exists j :: 0 <= j < slot && ChildOf(procs[j], procs[current].pid, pid)
      invariant forall j | 0 <= j < slot && ChildOf(procs[j], procs[current].pid, pid) :: procs[j].state != Zombie
    {
      if ChildOf(procs[slot], procs[current].pid, pid) {
        hasChild := true;
        if procs[slot].state == Zombie {
          return;
        }
      }
      slot := slot + 1;
    }
  }
}
