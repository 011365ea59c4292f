/** The table of virtual memory areas of a process and the algorithms of
    mm/process_vm.c on it. Addresses are 32-bit and wrap. */
module Vma {
  import opened Common
  import opened FreeRuns
  import opened Sv32
  import opened Vm

  const VMA_MAX: nat := 16
  const MMAP_BASE: nat := 0x2000_0000
  const MMAP_END: nat := 0x3f00_0000

  type Addr = a: nat | a < 0x1_0000_0000

  function Add32(a: nat, b: nat): Addr { (a + b) % 0x1_0000_0000 }

  /** Rounding a length up covers it exactly when it does not wrap to 0. */
  lemma CeilCovers(len: Addr)
    ensures PageCeil(len) >= len <==> len <= 0xffff_f000
    ensures len > 0xffff_f000 ==> PageCeil(len) == 0
    ensures Aligned(PageCeil(len)) && (0 < len <= 0xffff_f000 ==> len <= PageCeil(len) < len + 4096)
  {}

  /** page_ceil: rounds up, and wraps to 0 from 0xfffff001 on. */
  function PageCeil(v: Addr): Addr { Add32(v, 4095) / 4096 * 4096 }

  datatype UserVma = UserVma(used: bool, start: Addr, end: Addr, prot: Prot) {
    /** The page with number p lies in this area. */
    predicate Has(p: nat) { used && start <= Bytes(p) < end }

    predicate Ok() { used ==> Aligned(start) && Aligned(end) && start < end }

    /** Byte ranges meet, as the kernel tests it. */
    predicate Meets(lo: nat, hi: nat) { used && start < hi && lo < end }
  }

  const NO_PROT: Prot := Prot(false, false, false)
  const NO_VMA: UserVma := UserVma(false, 0, 0, NO_PROT)

  /** The areas are non-empty, page-aligned and pairwise disjoint. */
  ghost predicate VmasOk(vmas: seq<UserVma>) {
    && |vmas| == VMA_MAX
    && (forall i | 0 <= i < |vmas| :: vmas[i].Ok())
    && (forall i, j | 0 <= i < |vmas| && 0 <= j < |vmas| && i != j && vmas[i].used ::
          !vmas[j].Meets(vmas[i].start, vmas[i].end))
  }

  const STACK_BASE: nat := 0x3fff_e000
  const STACK_TOP: nat := 0x4000_0000

  predicate InWindow(v: UserVma) { MMAP_BASE <= v.start && v.end <= MMAP_END }
  predicate IsStack(v: UserVma) { v.start == STACK_BASE && v.end == STACK_TOP && v.prot == Prot(true, true, false) }
  predicate InImage(v: UserVma) { 0x8000_0000 <= v.start && !v.prot.w }

  /** An area lies in the mmap window, is the stack, or is read-only program image. */
  predicate Placed(v: UserVma) { v.used ==> InWindow(v) || IsStack(v) || InImage(v) }

  ghost predicate AllPlaced(vmas: seq<UserVma>) {
    forall i | 0 <= i < |vmas| :: Placed(vmas[i])
  }

  ghost predicate Covered(vmas: seq<UserVma>, p: nat) {
    exists i :: 0 <= i < |vmas| && vmas[i].Has(p)
  }

  /** The table as a map from page to protection. */
  ghost function ProtAt(vmas: seq<UserVma>, p: nat): Option<Prot> {
    if Covered(vmas, p) then
      var i :| 0 <= i < |vmas| && vmas[i].Has(p);
      Some(vmas[i].prot)
    else None
  }

  /** A byte range that shares a page with an area meets it. */
  lemma HasMeets(v: UserVma, p: nat, lo: nat, hi: nat)
    requires v.Has(p) && lo <= Bytes(p) < hi
    ensures v.Meets(lo, hi)
  {}

  lemma OneArea(vmas: seq<UserVma>, i: nat, j: nat, p: nat)
    requires VmasOk(vmas) && i < |vmas| && j < |vmas| && vmas[i].Has(p) && vmas[j].Has(p)
    ensures i == j
  {
    HasMeets(vmas[j], p, vmas[i].start, vmas[i].end);
  }

  lemma ProtOf(vmas: seq<UserVma>, i: nat, p: nat)
    requires VmasOk(vmas) && i < |vmas| && vmas[i].Has(p)
    ensures ProtAt(vmas, p) == Some(vmas[i].prot)
  {
    var j :| 0 <= j < |vmas| && vmas[j].Has(p) && ProtAt(vmas, p) == Some(vmas[j].prot);
    OneArea(vmas, i, j, p);
  }

  /** Page p of the table, found in slot i, or in none. */
  lemma FindPage(vmas: seq<UserVma>, p: nat) returns (i: nat)
    requires VmasOk(vmas)
    ensures i <= |vmas| && (i == |vmas| ==> ProtAt(vmas, p) == None && forall j | 0 <= j < |vmas| :: !vmas[j].Has(p))
    ensures i < |vmas| ==> vmas[i].Has(p) && ProtAt(vmas, p) == Some(vmas[i].prot)
  {
    if Covered(vmas, p) {
      i :| 0 <= i < |vmas| && vmas[i].Has(p);
      ProtOf(vmas, i, p);
    } else {
      i := |vmas|;
    }
  }

  /** Area w lies within area v and has its protection. */
  predicate Within(w: UserVma, v: UserVma) {
    w.used ==> v.used && v.start <= w.start && w.end <= v.end && w.prot == v.prot
  }

  /** Shrinking or dropping area i removes exactly the pages it lost. */
  lemma ShrinkArea(vmas: seq<UserVma>, i: nat, w: UserVma)
    requires VmasOk(vmas) && i < |vmas| && Within(w, vmas[i]) && w.Ok()
    ensures VmasOk(vmas[i := w])
    ensures forall p: nat :: ProtAt(vmas[i := w], p) ==
                             if vmas[i].Has(p) && !w.Has(p) then None else ProtAt(vmas, p)
  {
    var t := vmas[i := w];
    forall a, b | 0 <= a < |t| && 0 <= b < |t| && a != b && t[a].used ensures !t[b].Meets(t[a].start, t[a].end) {
      assert !vmas[b].Meets(vmas[a].start, vmas[a].end);
    }
    assert VmasOk(t);
    forall p: nat ensures ProtAt(t, p) == if vmas[i].Has(p) && !w.Has(p) then None else ProtAt(vmas, p) {
      var j := FindPage(vmas, p);
      var k := FindPage(t, p);
      if k < |t| {
        assert vmas[k].Has(p);
        OneArea(vmas, j, k, p);
        if vmas[i].Has(p) { OneArea(vmas, i, k, p); }
      } else if j < |vmas| {
        assert !t[j].Has(p);
      }
    }
  }

  /** An area put in a free slot adds exactly its pages. */
  lemma AddArea(vmas: seq<UserVma>, i: nat, w: UserVma)
    requires VmasOk(vmas) && i < |vmas| && !vmas[i].used && w.used && w.Ok()
    requires forall j | 0 <= j < |vmas| :: !vmas[j].Meets(w.start, w.end)
    ensures VmasOk(vmas[i := w])
    ensures forall p: nat :: ProtAt(vmas[i := w], p) == if w.Has(p) then Some(w.prot) else ProtAt(vmas, p)
  {
    var t := vmas[i := w];
    forall a, b | 0 <= a < |t| && 0 <= b < |t| && a != b && t[a].used ensures !t[b].Meets(t[a].start, t[a].end) {
      if a != i && b != i {
        assert !vmas[b].Meets(vmas[a].start, vmas[a].end);
      } else {
        assert !vmas[if a == i then b else a].Meets(w.start, w.end);
      }
    }
    assert VmasOk(t);
    forall p: nat ensures ProtAt(t, p) == if w.Has(p) then Some(w.prot) else ProtAt(vmas, p) {
      var j := FindPage(vmas, p);
      if w.Has(p) {
        ProtOf(t, i, p);
      } else if j < |vmas| {
        assert t[j] == vmas[j];
        ProtOf(t, j, p);
      } else {
        assert forall k | 0 <= k < |t| :: !t[k].Has(p);
      }
    }
  }

  /** vmas' is vmas without the pages of [lo, hi). */
  ghost predicate IsCut(vmas: seq<UserVma>, vmas': seq<UserVma>, lo: nat, hi: nat) {
    forall p: nat :: ProtAt(vmas', p) == if lo <= Bytes(p) < hi then None else ProtAt(vmas, p)
  }

  /** vmas' is vmas with the pages of [lo, hi) given protection prot. */
  ghost predicate IsFilled(vmas: seq<UserVma>, vmas': seq<UserVma>, lo: nat, hi: nat, prot: Prot) {
    forall p: nat :: ProtAt(vmas', p) == if lo <= Bytes(p) < hi then Some(prot) else ProtAt(vmas, p)
  }

  ghost predicate AllUsed(vmas: seq<UserVma>) {
    forall i | 0 <= i < |vmas| :: vmas[i].used
  }

  /** No area has a byte of [lo, hi). */
  ghost predicate RangeFree(vmas: seq<UserVma>, lo: nat, hi: nat) {
    forall i | 0 <= i < |vmas| :: !vmas[i].Meets(lo, hi)
  }

  /** A page-aligned range no page of which has an area is free. */
  lemma FreeByPages(vmas: seq<UserVma>, lo: nat, hi: nat)
    requires VmasOk(vmas) && Aligned(lo) && Aligned(hi) && lo < hi
    requires forall p: nat | lo <= Bytes(p) < hi :: ProtAt(vmas, p) == None
    ensures RangeFree(vmas, lo, hi)
  {
    forall i | 0 <= i < |vmas| ensures !vmas[i].Meets(lo, hi) {
      if vmas[i].Meets(lo, hi) {
        var a := if vmas[i].start > lo then vmas[i].start else lo;
        assert Bytes(a / 4096) == a;
        ProtOf(vmas, i, a / 4096);
      }
    }
  }

  /** proc_range_overlaps_any_vma */
  method RangeOverlapsAny(vmas: seq<UserVma>, lo: nat, hi: nat) returns (overlaps: bool)
    ensures overlaps <==> !RangeFree(vmas, lo, hi)
  {
    var i := 0;
    while i < |vmas|
      invariant 0 <= i <= |vmas|
      invariant forall j | 0 <= j < i :: !vmas[j].Meets(lo, hi)
    {
      if vmas[i].Meets(lo, hi) {
        return true;
      }
      i := i + 1;
    }
    return false;
  }

  /** The slots from n on are free. */
  ghost predicate FreeFrom(vmas: seq<UserVma>, n: nat) {
    forall i | n <= i < |vmas| :: !vmas[i].used
  }

  /** proc_find_free_vma_slot; |vmas| stands for -1. */
  method FindFreeSlot(vmas: seq<UserVma>) returns (i: nat)
    ensures i <= |vmas| && forall j | 0 <= j < i :: vmas[j].used
    ensures (i == |vmas| <==> AllUsed(vmas)) && (i < |vmas| ==> !vmas[i].used)
  {
    i := 0;
    while i < |vmas|
      invariant 0 <= i <= |vmas| && forall j | 0 <= j < i :: vmas[j].used
    {
      if !vmas[i].used {
        return;
      }
      i := i + 1;
    }
  }

  /** proc_add_vma: rejects an empty or unaligned range, an overlap and a full
      table; else the range and nothing more gets the protection. */
  method AddVma(vmas: seq<UserVma>, start: Addr, end: Addr, prot: Prot) returns (rc: int, vmas': seq<UserVma>)
    requires VmasOk(vmas)
    ensures VmasOk(vmas') && (rc == 0 || rc == -1)
    ensures rc == 0 <==> start < end && Aligned(start) && Aligned(end) && RangeFree(vmas, start, end) && !AllUsed(vmas)
    ensures rc == -1 ==> vmas' == vmas
    ensures rc == 0 ==> IsFilled(vmas, vmas', start, end, prot)
    ensures AllPlaced(vmas) && Placed(UserVma(true, start, end, prot)) ==> AllPlaced(vmas')
    ensures forall n: nat | n < |vmas| && FreeFrom(vmas, n) :: FreeFrom(vmas', n + 1)
  {
    rc, vmas' := -1, vmas;
    if start >= end || !Aligned(start) || !Aligned(end) {
      return;
    }
    var overlaps := RangeOverlapsAny(vmas, start, end);
    if overlaps {
      return;
    }
    var i := FindFreeSlot(vmas);
    if i < |vmas| {
      var w := UserVma(true, start, end, prot);
      AddArea(vmas, i, w);
      rc, vmas' := 0, vmas[i := w];
      assert forall p: nat :: w.Has(p) <==> start <= Bytes(p) < end;
      forall n: nat | n < |vmas| && FreeFrom(vmas, n) ensures FreeFrom(vmas', n + 1) { assert !vmas[n].used; }
    }
  }

  /** proc_find_vma_index; |vmas| stands for -1. */
  method FindVmaIndex(vmas: seq<UserVma>, a: nat) returns (i: nat)
    ensures i <= |vmas|
    ensures i < |vmas| ==> vmas[i].used && vmas[i].start <= a < vmas[i].end
    ensures i == |vmas| ==> forall j | 0 <= j < |vmas| :: !(vmas[j].used && vmas[j].start <= a < vmas[j].end)
  {
    i := 0;
    while i < |vmas|
      invariant 0 <= i <= |vmas|
      invariant forall j | 0 <= j < i :: !(vmas[j].used && vmas[j].start <= a < vmas[j].end)
    {
      if vmas[i].used && vmas[i].start <= a < vmas[i].end {
        return;
      }
      i := i + 1;
    }
  }

  predicate Allows(prot: Prot, need: Prot) {
    (need.r ==> prot.r) && (need.w ==> prot.w) && (need.x ==> prot.x)
  }

  /** Some area gives byte a the needed protection. */
  ghost predicate ByteOk(vmas: seq<UserVma>, a: nat, need: Prot) {
    exists i :: 0 <= i < |vmas| && vmas[i].used && vmas[i].start <= a < vmas[i].end && Allows(vmas[i].prot, need)
  }

  /** One area at most has byte a, so if it does not allow the access nothing does. */
  lemma ByteDenied(vmas: seq<UserVma>, i: nat, a: nat, need: Prot)
    requires VmasOk(vmas) && i < |vmas| && vmas[i].used && vmas[i].start <= a < vmas[i].end
    requires !Allows(vmas[i].prot, need)
    ensures !ByteOk(vmas, a, need)
  {
    forall j | 0 <= j < |vmas| && j != i && vmas[j].used ensures !(vmas[j].start <= a < vmas[j].end) {
      assert !vmas[j].Meets(vmas[i].start, vmas[i].end);
    }
  }

  /** proc_vma_range_ok: accepts exactly the non-empty ranges that end below 2^32 and
      whose every byte lies in an area with the needed protection. */
  method RangeOk(vmas: seq<UserVma>, addr: Addr, len: Addr, need: Prot) returns (ok: bool)
    requires VmasOk(vmas)
    ensures ok <==> len > 0 && addr + len < 0x1_0000_0000 && forall a: nat | addr <= a < addr + len ::
              ByteOk(vmas, a, need)
  {
    if len == 0 {
      return false;
    }
    var end := Add32(addr, len);
    if end < addr {
      return false;
    }
    assert end == addr + len;
    var cur: nat := addr;
    while cur < end
      invariant addr <= cur
      invariant forall a: nat | addr <= a < cur && a < end :: ByteOk(vmas, a, need)
    {
      var i := FindVmaIndex(vmas, cur);
      if i == |vmas| {
        assert !ByteOk(vmas, cur, need);
        return false;
      }
      if !Allows(vmas[i].prot, need) {
        ByteDenied(vmas, i, cur, need);
        return false;
      }
      assert forall a: nat | cur <= a < vmas[i].end :: ByteOk(vmas, a, need);
      if end <= vmas[i].end {
        return true;
      }
      cur := vmas[i].end;
    }
    return true;
  }

  /** len bytes from a on meet no area. */
  ghost predicate Fits(vmas: seq<UserVma>, a: nat, len: nat) { RangeFree(vmas, a, a + len) }

  lemma CeilOfAligned(a: Addr)
    requires Aligned(a)
    ensures PageCeil(a) == a
  {}

  /** proc_find_free_mmap_range: the lowest address of the window where len bytes fit
      without meeting an area, or -1 when there is none. */
  method FindFreeMmapRange(vmas: seq<UserVma>, len: Addr) returns (rc: int, addr: Addr)
    requires VmasOk(vmas)
    ensures rc == 0 || rc == -1
    ensures rc == 0 ==> MMAP_BASE <= addr && addr + len <= MMAP_END && Aligned(addr) && Fits(vmas, addr, len)
    ensures rc == 0 ==> forall a: nat | MMAP_BASE <= a < addr :: !Fits(vmas, a, len)
    ensures rc == -1 ==> forall a: nat | MMAP_BASE <= a && a + len <= MMAP_END :: !Fits(vmas, a, len)
  {
    addr := MMAP_BASE;
    while Add32(addr, len) >= addr && Add32(addr, len) <= MMAP_END
      invariant MMAP_BASE <= addr && Aligned(addr)
      invariant forall a: nat | MMAP_BASE <= a < addr :: !Fits(vmas, a, len)
      decreases 0x1_0000_0000 - addr
    {
      assert Add32(addr, len) == addr + len;
      var overlap := false;
      var i := 0;
      while i < |vmas|
        invariant 0 <= i <= |vmas|
        invariant forall j | 0 <= j < i :: !vmas[j].Meets(addr, addr + len)
      {
        if vmas[i].Meets(addr, addr + len) {
          overlap := true;
          break;
        }
        i := i + 1;
      }
      if !overlap {
        return 0, addr;
      }
      var v := vmas[i];
      CeilOfAligned(v.end);
      forall a: nat | MMAP_BASE <= a < v.end ensures !Fits(vmas, a, len) {
        if a >= addr { assert vmas[i].Meets(a, a + len); }
      }
      addr := PageCeil(v.end);
    }
    assert addr + len <= MMAP_END ==> Add32(addr, len) == addr + len;
    return -1, addr;
  }

  /** The hint of a caller that does not insist is used when it can be. */
  ghost predicate HintFits(vmas: seq<UserVma>, hint: Addr, len: Addr) {
    hint != 0 && Aligned(hint) && MMAP_BASE <= hint && hint + len <= MMAP_END && Fits(vmas, hint, len)
  }

  /** Where proc_mmap without MAP_FIXED puts len bytes: at the hint, else at the lowest
      free address; nowhere only when they fit nowhere. */
  method ChooseMmap(vmas: seq<UserVma>, hint: Addr, len: Addr) returns (rc: int, addr: Addr)
    requires VmasOk(vmas)
    ensures rc == 0 || rc == -1
    ensures rc == 0 ==> MMAP_BASE <= addr && addr + len <= MMAP_END && Aligned(addr) && Fits(vmas, addr, len)
    ensures HintFits(vmas, hint, len) ==> rc == 0 && addr == hint
    ensures rc == 0 && addr != hint ==> forall a: nat | MMAP_BASE <= a < addr :: !Fits(vmas, a, len)
    ensures rc == -1 ==> forall a: nat | MMAP_BASE <= a && a + len <= MMAP_END :: !Fits(vmas, a, len)
  {
    addr := 0;
    if hint != 0 && Aligned(hint) {
      var hintEnd := Add32(hint, len);
      if hint >= MMAP_BASE && hintEnd <= MMAP_END && hintEnd >= hint {
        var overlaps := RangeOverlapsAny(vmas, hint, hintEnd);
        if !overlaps {
          addr := hint;
        }
      }
    }
    rc := 0;
    if addr == 0 {
      rc, addr := FindFreeMmapRange(vmas, len);
    }
  }

  /** The range lies strictly inside area v, so removing it splits v. */
  predicate SplitBy(v: UserVma, addr: nat, end: nat) {
    v.used && v.start < addr < end < v.end
  }

  ghost predicate Splitting(vmas: seq<UserVma>, addr: nat, end: nat) {
    exists i :: 0 <= i < |vmas| && SplitBy(vmas[i], addr, end)
  }

  predicate Inside(v: UserVma, addr: nat, end: nat) { v.used && addr <= v.start && v.end <= end }

  /** At most one slot is free. */
  ghost predicate OneFree(vmas: seq<UserVma>) {
    forall j, k | 0 <= j < |vmas| && 0 <= k < |vmas| && !vmas[j].used && !vmas[k].used :: j == k
  }

  /** Removing the range will leave no slot free. */
  ghost predicate FullAfterCut(vmas: seq<UserVma>, addr: nat, end: nat) {
    if Splitting(vmas, addr, end) then OneFree(vmas)
    else forall j | 0 <= j < |vmas| :: vmas[j].used && !Inside(vmas[j], addr, end)
  }

  /** Slot i was emptied if its area lay in the range, and no other slot changed. */
  ghost predicate SlotKept(vmas: seq<UserVma>, t: seq<UserVma>, i: nat, addr: nat, end: nat) {
    i < |vmas| && |t| == |vmas| && t == vmas[i := t[i]] && (t[i].used <==> !Inside(vmas[i], addr, end))
  }

  /** A free slot, and no other, was filled. */
  ghost predicate SlotFilled(vmas: seq<UserVma>, t: seq<UserVma>) {
    |t| == |vmas| && exists f :: 0 <= f < |vmas| && !vmas[f].used && t[f].used
                                 && forall j | 0 <= j < |vmas| && j != f :: t[j].used == vmas[j].used
  }

  /** Area i loses the part of it in [addr, end): dropped, trimmed or split in two.
      Only a split needs a slot. */
  method CutArea(vmas: seq<UserVma>, i: nat, addr: Addr, end: Addr) returns (ok: bool, t: seq<UserVma>)
    requires VmasOk(vmas) && i < |vmas| && vmas[i].Meets(addr, end) && addr < end && Aligned(addr) && Aligned(end)
    requires AllPlaced(vmas) && MMAP_BASE <= addr && end <= MMAP_END
    ensures VmasOk(t) && AllPlaced(t)
    ensures ok <==> !(vmas[i].start < addr && end < vmas[i].end && AllUsed(vmas))
    ensures !ok ==> t == vmas
    ensures ok ==> forall p: nat :: ProtAt(t, p) == if vmas[i].Has(p) && addr <= Bytes(p) < end then None
                                                    else ProtAt(vmas, p)
    ensures ok ==> (if SplitBy(vmas[i], addr, end) then SlotFilled(vmas, t) else SlotKept(vmas, t, i, addr, end))
    ensures ok ==> !t[i].Meets(addr, end) && forall j | 0 <= j < |vmas| && j != i ::
              t[j] == vmas[j] || !t[j].Meets(addr, end)
  {
    var v := vmas[i];
    assert Placed(v);
    var cutS := if addr > v.start then addr else v.start;
    var cutE := if end < v.end then end else v.end;
    if cutS == v.start && cutE == v.end {
      ShrinkArea(vmas, i, NO_VMA);
      return true, vmas[i := NO_VMA];
    }
    if cutS == v.start {
      ShrinkArea(vmas, i, v.(start := cutE));
      return true, vmas[i := v.(start := cutE)];
    }
    if cutE == v.end {
      ShrinkArea(vmas, i, v.(end := cutS));
      return true, vmas[i := v.(end := cutS)];
    }
    var free := FindFreeSlot(vmas);
    if free == |vmas| {
      return false, vmas;
    }
    t := vmas[free := UserVma(true, cutE, v.end, v.prot)][i := v.(end := cutS)];
    SplitArea(vmas, i, free, addr, end);
    ok := true;
  }

  lemma SplitArea(vmas: seq<UserVma>, i: nat, free: nat, addr: Addr, end: Addr)
    requires VmasOk(vmas) && i < |vmas| && free < |vmas| && !vmas[free].used && vmas[i].used
    requires vmas[i].start < addr < end < vmas[i].end && Aligned(addr) && Aligned(end)
    ensures var t := vmas[free := UserVma(true, end, vmas[i].end, vmas[i].prot)][i := vmas[i].(end := addr)];
            && VmasOk(t)
            && forall p: nat :: ProtAt(t, p) == if vmas[i].Has(p) && addr <= Bytes(p) < end then None
                                                else ProtAt(vmas, p)
  {
    var v := vmas[i];
    var right := UserVma(true, end, v.end, v.prot);
    var t1 := vmas[i := v.(end := addr)];
    ShrinkArea(vmas, i, v.(end := addr));
    forall j | 0 <= j < |t1| ensures !t1[j].Meets(right.start, right.end) {
      if j != i { assert !vmas[j].Meets(v.start, v.end); }
    }
    AddArea(t1, free, right);
    assert t1[free := right] == vmas[free := right][i := v.(end := addr)];
    forall p: nat | v.Has(p) ensures ProtAt(vmas, p) == Some(v.prot) { ProtOf(vmas, i, p); }
  }

  /** By disjointness an area that is split is the only one the range meets. */
  lemma SplitIsOnlyCut(vmas: seq<UserVma>, i: nat, addr: nat, end: nat)
    requires VmasOk(vmas) && i < |vmas| && SplitBy(vmas[i], addr, end)
    ensures forall j | 0 <= j < |vmas| && j != i :: !vmas[j].Meets(addr, end)
  {
    forall j | 0 <= j < |vmas| && j != i ensures !vmas[j].Meets(addr, end) {
      assert !vmas[j].Meets(vmas[i].start, vmas[i].end);
    }
  }

  lemma SplitAlone(vmas: seq<UserVma>, i: nat, addr: nat, end: nat)
    requires VmasOk(vmas) && i < |vmas| && vmas[i].Meets(addr, end)
    ensures Splitting(vmas, addr, end) ==>
              SplitBy(vmas[i], addr, end) && forall j | 0 <= j < |vmas| && j != i :: !vmas[j].Meets(addr, end)
  {
    if k :| 0 <= k < |vmas| && SplitBy(vmas[k], addr, end) {
      SplitIsOnlyCut(vmas, k, addr, end);
    }
  }

  /** Nothing but pages of the range has been taken away. */
  ghost predicate OnlyCuts(vmas: seq<UserVma>, t: seq<UserVma>, addr: nat, end: nat) {
    forall p: nat :: ProtAt(t, p) == ProtAt(vmas, p) || (addr <= Bytes(p) < end && ProtAt(t, p) == None)
  }

  lemma NothingLeft(vmas: seq<UserVma>, t: seq<UserVma>, addr: nat, end: nat)
    requires VmasOk(t) && OnlyCuts(vmas, t, addr, end) && (addr < end ==> RangeFree(t, addr, end))
    ensures IsCut(vmas, t, addr, end)
  {
    forall p: nat ensures ProtAt(t, p) == if addr <= Bytes(p) < end then None else ProtAt(vmas, p) {
      if addr <= Bytes(p) < end {
        assert forall k | 0 <= k < |t| :: !t[k].Has(p);
      }
    }
  }

  /** The slots used when the areas before i have been treated. */
  ghost predicate SlotsSoFar(vmas: seq<UserVma>, t: seq<UserVma>, i: nat, addr: nat, end: nat, changed: bool) {
    && |t| == |vmas|
    && (addr < end && Splitting(vmas, addr, end) && changed ==> (AllUsed(t) <==> OneFree(vmas)))
    && (addr < end && !Splitting(vmas, addr, end) ==>
          && (forall j | i <= j < |vmas| :: t[j] == vmas[j])
          && (forall j | 0 <= j < i && j < |vmas| :: t[j].used <==> vmas[j].used && !Inside(vmas[j], addr, end)))
  }

  lemma SlotsNext(vmas: seq<UserVma>, before: seq<UserVma>, t: seq<UserVma>, i: nat, addr: nat, end: nat, changed: bool)
    requires SlotsSoFar(vmas, before, i, addr, end, changed) && addr < end && i < |vmas| && before[i] == vmas[i]
             && vmas[i].used
    requires if SplitBy(before[i], addr, end) then SlotFilled(before, t) else SlotKept(before, t, i, addr, end)
    requires Splitting(vmas, addr, end) ==> !changed && before == vmas && SplitBy(vmas[i], addr, end)
    ensures SlotsSoFar(vmas, t, i + 1, addr, end, true)
  {
    if Splitting(vmas, addr, end) {
      var f :| 0 <= f < |vmas| && !vmas[f].used && t[f].used
                      && forall j | 0 <= j < |vmas| && j != f :: t[j].used == vmas[j].used;
      if AllUsed(t) { assert OneFree(vmas); }
      if OneFree(vmas) { assert forall j | 0 <= j < |vmas| :: !vmas[j].used ==> j == f; }
    }
  }

  lemma SlotsAtFirst(vmas: seq<UserVma>, addr: nat, end: nat)
    ensures SlotsSoFar(vmas, vmas, 0, addr, end, false)
  {}

  lemma SlotsSkip(vmas: seq<UserVma>, t: seq<UserVma>, i: nat, addr: nat, end: nat, changed: bool)
    requires SlotsSoFar(vmas, t, i, addr, end, changed) && i < |vmas| && |t| == |vmas| && VmasOk(vmas)
    requires addr < end ==> !t[i].Meets(addr, end)
    ensures SlotsSoFar(vmas, t, i + 1, addr, end, changed)
  {}

  lemma SlotsAtEnd(vmas: seq<UserVma>, t: seq<UserVma>, addr: nat, end: nat, changed: bool)
    requires SlotsSoFar(vmas, t, |vmas|, addr, end, changed) && |t| == |vmas|
    requires addr < end && !RangeFree(vmas, addr, end) ==> changed
    ensures addr < end ==> (AllUsed(t) <==> FullAfterCut(vmas, addr, end))
  {}

  /** The first loop of proc_munmap: removes exactly the pages of [addr, end), through
      delete, trim and split. It fails only for want of a slot for a split, and then
      nothing has changed. */
  method MunmapVmas(vmas: seq<UserVma>, addr: Addr, end: Addr) returns (rc: int, changed: bool, t: seq<UserVma>)
    requires VmasOk(vmas) && addr <= end && Aligned(addr) && Aligned(end)
    requires AllPlaced(vmas) && MMAP_BASE <= addr && end <= MMAP_END
    ensures VmasOk(t) && AllPlaced(t) && (rc == 0 || rc == -1)
    ensures rc == -1 <==> Splitting(vmas, addr, end) && AllUsed(vmas)
    ensures rc == -1 ==> t == vmas
    ensures rc == 0 ==> IsCut(vmas, t, addr, end)
    ensures rc == 0 ==> (changed <==> addr < end && !RangeFree(vmas, addr, end))
    ensures rc == 0 && addr < end ==> (AllUsed(t) <==> FullAfterCut(vmas, addr, end))
  {
    hide SlotsSoFar, SlotFilled, SlotKept, FullAfterCut;
    SlotsAtFirst(vmas, addr, end);
    t, changed, rc := vmas, false, 0;
    var i := 0;
    while i < |vmas|
      invariant 0 <= i <= |vmas| && VmasOk(t) && AllPlaced(t)
      invariant !changed ==> t == vmas
      invariant changed <==> addr < end && exists j :: 0 <= j < i && vmas[j].Meets(addr, end)
      invariant addr < end ==> forall j | 0 <= j < i :: !t[j].Meets(addr, end)
      invariant forall j | i <= j < |vmas| :: t[j] == vmas[j] || !t[j].Meets(addr, end)
      invariant forall j | 0 <= j < i :: !(SplitBy(vmas[j], addr, end) && AllUsed(vmas))
      invariant OnlyCuts(vmas, t, addr, end)
      invariant SlotsSoFar(vmas, t, i, addr, end, changed)
    {
      // The pieces cut_s and cut_e bound are empty exactly when the range is.
      if t[i].Meets(addr, end) && addr < end {
        SplitAlone(vmas, i, addr, end);
        ghost var before := t;
        var ok;
        ok, t := CutArea(t, i, addr, end);
        if !ok {
          return -1, changed, vmas;
        }
        SlotsNext(vmas, before, t, i, addr, end, changed);
        changed := true;
      } else {
        SlotsSkip(vmas, t, i, addr, end, changed);
      }
      i := i + 1;
    }
    SlotsAtEnd(vmas, t, addr, end, changed);
    NothingLeft(vmas, t, addr, end);
  }
}
