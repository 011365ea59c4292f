/** The program image every process shares: the identity-mapped segments of
    vm_build_user_satp and the areas proc_vm_init gives a process for them. */
module Image {
  import opened Common
  import opened FreeRuns
  import opened Phys
  import opened Sv32
  import opened Vm
  import opened Vma
  import opened Cow

  const READ: Prot := Prot(true, false, false)
  const READ_WRITE: Prot := Prot(true, true, false)
  const READ_EXEC: Prot := Prot(true, false, true)

  /** The five segments in the order they are mapped: kernel read-only data, user text,
      user read-only data, user data and user bss. The last two are empty. */
  predicate ImageOk(image: seq<Segment>) {
    && |image| == 5 && (forall i | 0 <= i < 5 :: image[i].Ok() && image[i].start <= 0xffff_f000)
    && (forall i | 0 <= i < 3 :: image[i].start >= 0x8000_0000)
    && image[0].perm == UserPerm(READ) && image[1].perm == UserPerm(READ_EXEC) && image[2].perm == UserPerm(READ)
    && image[3].end <= image[3].start && image[4].end <= image[4].start
    && (image[1].end <= image[2].start || image[2].end <= image[1].start)
  }

  /** The translation outside the user slots that every user root has. */
  ghost function ImageSpace(kernel: Leaves, image: seq<Segment>): Leaves { Others(OverlayAll(kernel, image)) }

  /** The last segment that has page v decides how v is mapped. */
  lemma {:induction false} OverlayAllAt(s: Leaves, image: seq<Segment>, v: nat, j: nat)
    requires j < |image| && image[j].Has(v) && forall k | j < k < |image| :: !image[k].Has(v)
    ensures v in OverlayAll(s, image) && OverlayAll(s, image)[v] == Leaf(v, image[j].perm)
  {
    var n := |image| - 1;
    var g := image[n];
    OverlayAt(OverlayAll(s, image[..n]), g.First(), g.Count(), g.First(), g.perm, v);
    if j < n { OverlayAllAt(s, image[..n], v, j); }
  }

  lemma {:induction false} OverlayAllMiss(s: Leaves, image: seq<Segment>, v: nat)
    requires forall k | 0 <= k < |image| :: !image[k].Has(v)
    ensures v in OverlayAll(s, image) <==> v in s
    ensures v in s ==> OverlayAll(s, image)[v] == s[v]
  {
    if |image| > 0 {
      var n := |image| - 1;
      var g := image[n];
      OverlayAt(OverlayAll(s, image[..n]), g.First(), g.Count(), g.First(), g.perm, v);
      OverlayAllMiss(s, image[..n], v);
    }
  }

  /** The kernel's own translation has no user page and leaves the user slots empty. */
  ghost predicate KernelOnly(s: Leaves) {
    forall v | v in s :: !Region(v) && !s[v].perm.u
  }

  lemma KernelRootSpace(m: Memory, root: nat)
    requires root < FRAMES && KernelRootOk(m[root])
    ensures KernelOnly(Space(m, root))
  {
    forall v | v in Space(m, root) ensures !Region(v) && !Space(m, root)[v].perm.u {
      assert !Decode(m[root][Vpn1(v)]).IsTable();
    }
  }

  lemma ImagePage(image: seq<Segment>, i: nat, v: nat)
    requires ImageOk(image) && i < 5 && image[i].Has(v)
    ensures i < 3 && v >= 0x8_0000 && v < PAGES && !Region(v)
  {}

  /** Outside the user slots a process can write nothing, and inside them a new root
      maps nothing. */
  lemma ImageFacts(kernel: Leaves, image: seq<Segment>)
    requires ImageOk(image) && KernelOnly(kernel)
    ensures Users(OverlayAll(kernel, image)) == map[]
    ensures forall v | v in ImageSpace(kernel, image) && ImageSpace(kernel, image)[v].perm.u ::
              !ImageSpace(kernel, image)[v].perm.w
  {
    var o := OverlayAll(kernel, image);
    forall v: nat ensures v in o ==> !Region(v) && (o[v].perm.u ==> !o[v].perm.w) {
      if j :| 0 <= j < 5 && image[j].Has(v) && forall k | j < k < 5 :: !image[k].Has(v) {
        OverlayAllAt(kernel, image, v, j);
        ImagePage(image, j, v);
      } else {
        NoLastSegment(image, v);
        OverlayAllMiss(kernel, image, v);
      }
    }
  }

  /** What a process can reach there is the program, at its own address. */
  lemma ProgramPage(kernel: Leaves, image: seq<Segment>, v: nat)
    requires ImageOk(image) && KernelOnly(kernel)
    requires v in ImageSpace(kernel, image) && ImageSpace(kernel, image)[v].perm.u
    ensures v < PAGES && ImageSpace(kernel, image)[v].frame == v && exists i :: 0 <= i < 5 && image[i].Has(v)
  {
    if j :| 0 <= j < 5 && image[j].Has(v) && forall k | j < k < 5 :: !image[k].Has(v) {
      OverlayAllAt(kernel, image, v, j);
      ImagePage(image, j, v);
    } else {
      NoLastSegment(image, v);
      OverlayAllMiss(kernel, image, v);
    }
  }

  lemma NoLastSegment(image: seq<Segment>, v: nat)
    requires |image| == 5
    requires !exists j :: 0 <= j < 5 && image[j].Has(v) && forall k | j < k < 5 :: !image[k].Has(v)
    ensures forall k | 0 <= k < 5 :: !image[k].Has(v)
  {
    assert !image[4].Has(v);
    assert !image[3].Has(v);
    assert !image[2].Has(v);
    assert !image[1].Has(v);
  }

  /** What proc_vm_init gives page p. */
  function InitProt(image: seq<Segment>, p: nat): Option<Prot>
    requires |image| == 5
  {
    if STACK_PAGE <= p < STACK_PAGE + 2 then Some(READ_WRITE)
    else if image[1].Has(p) then Some(READ_EXEC)
    else if image[2].Has(p) then Some(READ)
    else None
  }

  /** The image pages a process has areas for are mapped, with just those permissions. */
  ghost predicate ImageCovered(vmas: seq<UserVma>, image: Leaves) {
    forall p: nat | !Region(p) && ProtAt(vmas, p).Some? ::
      p in image && image[p].perm == UserPerm(ProtAt(vmas, p).value)
  }

  function NoAreas(): (t: seq<UserVma>) ensures |t| == VMA_MAX { seq(VMA_MAX, _ => NO_VMA) }

  /** What proc_vm_init has given page p after its first n areas: text, read-only data,
      the two empty segments, and the stack. */
  function ProtAfter(image: seq<Segment>, n: nat, p: nat): Option<Prot>
    requires |image| == 5
  {
    if n >= 1 && image[1].Has(p) then Some(READ_EXEC)
    else if n >= 2 && image[2].Has(p) then Some(READ)
    else if n >= 5 && STACK_PAGE <= p < STACK_PAGE + 2 then Some(READ_WRITE)
    else None
  }

  ghost predicate FilledTo(t: seq<UserVma>, image: seq<Segment>, n: nat)
    requires |image| == 5
  {
    forall p: nat :: ProtAt(t, p) == ProtAfter(image, n, p)
  }

  /** The range and the protection of the n-th of these areas. */
  ghost predicate IsNext(image: seq<Segment>, n: nat, lo: nat, hi: nat, prot: Prot)
    requires |image| == 5
  {
    if n == 4 then lo == STACK_BASE && hi == STACK_TOP && prot == READ_WRITE
    else n < 4 && lo == image[n + 1].start && hi == image[n + 1].end
         && prot == if n == 0 then READ_EXEC else if n == 1 then READ else READ_WRITE
  }

  lemma NextIsFree(t: seq<UserVma>, image: seq<Segment>, n: nat, lo: nat, hi: nat, prot: Prot)
    requires ImageOk(image) && FilledTo(t, image, n) && IsNext(image, n, lo, hi, prot)
    ensures Aligned(lo) && Aligned(hi) && (lo < hi ==> Placed(UserVma(true, lo, hi, prot)))
    ensures forall p: nat | lo <= Bytes(p) < hi :: ProtAt(t, p) == None
  {
    hide ProtAt;
    StackRange();
    forall p: nat | lo <= Bytes(p) < hi ensures ProtAt(t, p) == None {
      if n < 4 {
        assert image[n + 1].Has(p);
        ImagePage(image, n + 1, p);
      }
      if image[1].Has(p) { ImagePage(image, 1, p); }
      if image[2].Has(p) { ImagePage(image, 2, p); }
    }
  }

  lemma StackRange()
    ensures Aligned(STACK_BASE) && Aligned(STACK_TOP) && Placed(UserVma(true, STACK_BASE, STACK_TOP, READ_WRITE))
  {}

  lemma HasBytes(g: Segment, p: nat)
    requires g.Ok()
    ensures g.Has(p) <==> g.start <= Bytes(p) < g.end
  {}

  lemma NextFilled(t: seq<UserVma>, t': seq<UserVma>, image: seq<Segment>, n: nat, lo: nat, hi: nat, prot: Prot)
    requires ImageOk(image) && FilledTo(t, image, n) && IsNext(image, n, lo, hi, prot) && IsFilled(t, t', lo, hi, prot)
    ensures FilledTo(t', image, n + 1)
  {
    hide ProtAt, Segment.Has;
    forall p: nat ensures ProtAt(t', p) == ProtAfter(image, n + 1, p) {
      HasBytes(image[1], p);
      HasBytes(image[2], p);
      if n < 4 {
        HasBytes(image[n + 1], p);
        if image[n + 1].Has(p) { ImagePage(image, n + 1, p); }
      }
      assert ProtAt(t, p) == ProtAfter(image, n, p);
      if image[1].Has(p) { ImagePage(image, 1, p); }
      if image[2].Has(p) { ImagePage(image, 2, p); }
    }
  }

  lemma AllFilled(t: seq<UserVma>, image: seq<Segment>)
    requires ImageOk(image) && FilledTo(t, image, 5)
    ensures forall p: nat :: ProtAt(t, p) == InitProt(image, p)
  {
    hide ProtAt;
    forall p: nat ensures ProtAt(t, p) == InitProt(image, p) {
      if image[1].Has(p) { ImagePage(image, 1, p); }
      if image[2].Has(p) { ImagePage(image, 2, p); }
    }
  }

  /** proc_add_vma for a range that may be empty. */
  method AddSegment(t: seq<UserVma>, start: Addr, end: Addr, prot: Prot, ghost image: seq<Segment>, ghost n: nat)
    returns (rc: int, t': seq<UserVma>)
    requires AreasOk(t) && n < VMA_MAX && FreeFrom(t, n)
    requires ImageOk(image) && FilledTo(t, image, n) && IsNext(image, n, start, end, prot)
    ensures rc == 0 && AreasOk(t') && FreeFrom(t', n + 1) && FilledTo(t', image, n + 1)
  {
    hide ImageOk, FilledTo, IsNext, ProtAt;
    rc, t' := 0, t;
    NextIsFree(t, image, n, start, end, prot);
    if end > start {
      FreeByPages(t, start, end);
      assert !AllUsed(t) by { assert !t[n].used; }
      rc, t' := AddVma(t, start, end, prot);
    }
    NextFilled(t, t', image, n, start, end, prot);
  }

  /** proc_vm_init: the areas of a process that has only its program and its stack. */
  method InitAreas(image: seq<Segment>, stackBase: Addr, stackPages: nat) returns (rc: int, t: seq<UserVma>)
    requires ImageOk(image) && stackBase == STACK_BASE && stackPages == 2
    ensures rc == 0 && AreasOk(t) && forall p: nat :: ProtAt(t, p) == InitProt(image, p)
  {
    hide AreasOk, ProtAt, FilledTo, FreeFrom, InitProt, ProtAfter;
    t := NoAreas();
    EmptyTable();
    NoneFilled(image);
    rc, t := AddSegment(t, image[1].start, image[1].end, READ_EXEC, image, 0);
    if rc < 0 {
      return;
    }
    rc, t := AddSegment(t, image[2].start, image[2].end, READ, image, 1);
    if rc < 0 {
      return;
    }
    rc, t := AddSegment(t, image[3].start, image[3].end, READ_WRITE, image, 2);
    if rc < 0 {
      return;
    }
    rc, t := AddSegment(t, image[4].start, image[4].end, READ_WRITE, image, 3);
    if rc < 0 {
      return;
    }
    rc, t := AddSegment(t, stackBase, stackBase + Bytes(stackPages), READ_WRITE, image, 4);
    AllFilled(t, image);
  }

  lemma EmptyTable()
    ensures AreasOk(NoAreas()) && FreeFrom(NoAreas(), 0) && forall p: nat :: ProtAt(NoAreas(), p) == None
  {}

  lemma NoneFilled(image: seq<Segment>)
    requires |image| == 5
    ensures FilledTo(NoAreas(), image, 0)
  {
    EmptyTable();
  }

  /** A fresh table has the stack, and its image pages are mapped as it says. */
  lemma InitCovered(kernel: Leaves, image: seq<Segment>, t: seq<UserVma>)
    requires ImageOk(image) && forall p: nat :: ProtAt(t, p) == InitProt(image, p)
    ensures HasStack(t) && ImageCovered(t, ImageSpace(kernel, image))
  {
    hide ProtAt;
    forall p: nat | !Region(p) && ProtAt(t, p).Some?
      ensures p in ImageSpace(kernel, image) && ImageSpace(kernel, image)[p].perm == UserPerm(ProtAt(t, p).value)
    {
      assert !image[3].Has(p) && !image[4].Has(p);
      if image[1].Has(p) {
        assert !image[2].Has(p);
        OverlayAllAt(kernel, image, p, 1);
      } else {
        OverlayAllAt(kernel, image, p, 2);
      }
    }
  }
}
