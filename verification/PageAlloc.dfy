/** The reference-counted page allocator of mm/page_alloc.c: a singly linked list of
    free runs whose nodes are carved downward from the top of the RAM they manage. */
module PageAlloc {
  import opened Common
  import opened FreeRuns
  import opened Phys
  import opened Counting

  /** n times sizeof(struct page_run). */
  function NodeBytes(n: nat): nat { 12 * n }

  class PageRun {
    var base: nat
    var pages: nat
    var next: PageRun?
    const addr: nat                 // where the node itself lives
    ghost const slot: nat           // how many nodes were carved before it

    constructor (addr: nat, ghost slot: nat)
      ensures this.addr == addr && this.slot == slot && base == 0 && pages == 0 && next == null
    {
      this.addr := addr;
      this.slot := slot;
      base, pages, next := 0, 0, null;
    }
  }

  function NodeAt(nodes: seq<PageRun>, i: nat): PageRun? {
    if i < |nodes| then nodes[i] else null
  }

  ghost predicate Distinct(nodes: seq<PageRun>) {
    forall i, j | 0 <= i < j < |nodes| :: nodes[i] != nodes[j]
  }

  /** head points at the acyclic list made of exactly these nodes. */
  ghost predicate Linked(head: PageRun?, nodes: seq<PageRun>)
    reads nodes
  {
    && head == NodeAt(nodes, 0)
    && Distinct(nodes)
    && (forall i {:trigger nodes[i].next} | 0 <= i < |nodes| :: nodes[i].next == NodeAt(nodes, i + 1))
  }

  lemma InsertedAt<T>(s: seq<T>, k: nat, x: T)
    requires k <= |s|
    ensures |Inserted(s, k, x)| == |s| + 1
    ensures forall i | 0 <= i <= |s| :: Inserted(s, k, x)[i] == if i < k then s[i] else if i == k then x else s[i - 1]
  {}

  lemma InsertedHas<T>(s: seq<T>, k: nat, x: T, y: T)
    requires k <= |s|
    ensures y in Inserted(s, k, x) <==> y in s || y == x
  {
    assert s == s[..k] + s[k..];
  }

  lemma RemovedAt<T>(s: seq<T>, k: nat)
    requires k < |s|
    ensures |Removed(s, k)| == |s| - 1
    ensures forall i | 0 <= i < |s| - 1 :: Removed(s, k)[i] == if i < k then s[i] else s[i + 1]
  {}

  lemma RemovedHas(s: seq<PageRun>, k: nat, y: PageRun)
    requires k < |s| && Distinct(s)
    ensures y in Removed(s, k) <==> y in s && y != s[k]
  {
    assert s == s[..k] + ([s[k]] + s[k + 1..]);
    if y in Removed(s, k) {
      if y in s[..k] {
        var i :| 0 <= i < k && s[i] == y;
      } else {
        var i :| 0 <= i < |s| - k - 1 && s[k + 1..][i] == y;
        assert s[k + 1 + i] == y;
      }
    }
  }

  /** The nodes hold these runs. */
  ghost predicate Says(nodes: seq<PageRun>, contents: seq<Run>)
    reads nodes
  {
    && |contents| == |nodes|
    && (forall i | 0 <= i < |nodes| :: nodes[i].base == contents[i].base && nodes[i].pages == contents[i].pages)
  }

  /** A node linked in front of position k makes the list with the node inserted. */
  lemma LinkedInserted(head: PageRun?, r: seq<PageRun>, k: nat, node: PageRun, c: seq<Run>)
    requires k <= |r| && Distinct(r) && node !in r && Says(r, c)
    requires head == (if k == 0 then node else r[0])
    requires k > 0 ==> r[k - 1].next == node
    requires node.next == NodeAt(r, k)
    requires forall i {:trigger r[i].next} | 0 <= i < |r| && i != k - 1 :: r[i].next == NodeAt(r, i + 1)
    ensures Linked(head, Inserted(r, k, node))
    ensures Says(Inserted(r, k, node), Inserted(c, k, Run(node.base, node.pages)))
  {
    InsertedAt(r, k, node);
    InsertedAt(c, k, Run(node.base, node.pages));
  }

  /** Bypassing node k makes the list with the node removed. */
  lemma LinkedRemoved(head: PageRun?, r: seq<PageRun>, k: nat, c: seq<Run>)
    requires k < |r| && Distinct(r) && Says(r, c)
    requires head == (if k == 0 then NodeAt(r, 1) else r[0])
    requires k > 0 ==> r[k - 1].next == NodeAt(r, k + 1)
    requires forall i {:trigger r[i].next} | 0 <= i < |r| && i != k - 1 :: r[i].next == NodeAt(r, i + 1)
    ensures Linked(head, Removed(r, k)) && Says(Removed(r, k), Removed(c, k))
  {
    RemovedAt(r, k);
    RemovedAt(c, k);
  }

  /** Rounded down to the alignment of a node. */
  function AlignDown4(a: nat): nat { a / 4 * 4 }

  /** Where page_refcnt starts: 16 bits for each of n pages, below the top of the RAM. */
  function RefTop(freeRam: nat, n: nat): nat {
    AlignDown4(freeRam + 4094 * n)
  }

  lemma RefTopBelowEnd(freeRam: nat, n: nat)
    ensures RefTop(freeRam, n) + 2 * n <= freeRam + Bytes(n)
  {}

  lemma AlignDownNode(refWord: nat, n: nat)
    requires 12 <= 4 * refWord - NodeBytes(n)
    ensures AlignDown4(4 * refWord - NodeBytes(n) - 12) == 4 * refWord - NodeBytes(n + 1)
  {}

  /** The address of page i. */
  function Page(freeRam: nat, i: nat): nat { freeRam + Bytes(i) }

  /** The free list is the canonical form of the pages below next whose reference
      count is 0, and nothing from next on has been handed out. */
  ghost predicate Agrees(c: seq<Run>, refs: seq<nat>, freeRam: nat, next: nat) {
    && Canonical(c)
    && (forall a: nat | Aligned(a) && Covers(c, a) :: freeRam <= a < next)
    && (forall i | 0 <= i < |refs| && refs[i] == 0 && Page(freeRam, i) < next :: Covers(c, Page(freeRam, i)))
    && (forall i | 0 <= i < |refs| && refs[i] != 0 :: Page(freeRam, i) < next && !Covers(c, Page(freeRam, i)))
    && (forall i | 0 <= i < |refs| :: refs[i] < 0x1_0000)
  }

  /** n pages from first on lost a reference each; a last reference may have stayed
      only when no list node could be had. */
  predicate Dropped(r: seq<nat>, s: seq<nat>, first: nat, n: nat, noNodes: bool) {
    && |s| == |r|
    && (forall j | 0 <= j < |r| && !(first <= j < first + n) :: s[j] == r[j])
    && (forall j | first <= j < first + n && j < |r| :: s[j] + 1 == r[j] || (s[j] == r[j] == 1 && noNodes))
  }

  /** Neither neighbour of page i is free. */
  predicate Alone(r: seq<nat>, i: nat, freeRam: nat, next: nat) {
    && (0 < i <= |r| ==> r[i - 1] != 0)
    && (i + 1 < |r| && Page(freeRam, i + 1) < next ==> r[i + 1] != 0)
  }

  /** The counts, and whether no list node could be had. */
  datatype Moment = Moment(refs: seq<nat>, noNode: bool)

  /** Page i has lost a reference; exactly a last one stays when no node can be had and
      no neighbour is free. */
  predicate Dropping(m: Moment, m': Moment, i: nat, freeRam: nat, next: nat) {
    && i < |m.refs| && m.refs[i] > 0
    && m'.refs == m.refs[i := if m.refs[i] == 1 && m.noNode && Alone(m.refs, i, freeRam, next) then 1
                              else m.refs[i] - 1]
  }

  /** Pages first, first + 1 and so on have lost a reference, one after the other. */
  ghost predicate DroppedInTurn(moments: seq<Moment>, first: nat, freeRam: nat, next: nat) {
    |moments| > 0 && forall j | 0 <= j < |moments| - 1 :: Dropping(moments[j], moments[j + 1], first + j, freeRam, next)
  }

  function MarkPages(r: seq<nat>, first: nat, n: nat): seq<nat> {
    seq(|r|, j requires 0 <= j < |r| => if first <= j < first + n then 1 else r[j])
  }

  /** n pages from first on, free before, have one reference each. */
  predicate Marked(r: seq<nat>, s: seq<nat>, first: nat, n: nat) {
    && |s| == |r|
    && (forall j | 0 <= j < |r| && !(first <= j < first + n) :: s[j] == r[j])
    && (forall j | first <= j < first + n && j < |r| :: r[j] == 0 && s[j] == 1)
  }

  lemma PageInBlock(freeRam: nat, first: nat, n: nat, j: nat)
    ensures Page(freeRam, first) <= Page(freeRam, j) < Page(freeRam, first) + Bytes(n) <==> first <= j < first + n
  {}

  /** Where the first run of n pages or more is. */
  function FitIndex(c: seq<Run>, n: nat): (k: nat)
    ensures k <= |c| && (forall i | 0 <= i < k :: c[i].pages < n) && (k < |c| ==> c[k].pages >= n)
  {
    if c == [] || c[0].pages >= n then 0 else 1 + FitIndex(c[1..], n)
  }

  lemma {:induction false} OneFitIndex(c: seq<Run>, n: nat, k: nat)
    requires k <= |c| && (forall i | 0 <= i < k :: c[i].pages < n) && (k < |c| ==> c[k].pages >= n)
    ensures k == FitIndex(c, n)
  {
    if k > 0 {
      OneFitIndex(c[1..], n, k - 1);
    }
  }

  /** Pages first to first + n - 1 leave the list (c to c') and the counts follow. */
  lemma AgreesAfterTake(c: seq<Run>, c': seq<Run>, r: seq<nat>, s: seq<nat>, first: nat, n: nat, freeRam: nat,
                        next: nat)
    requires Agrees(c, r, freeRam, next) && first + n <= |r| && Canonical(c')
    requires Page(freeRam, first) + Bytes(n) <= next
    requires forall b: nat :: Covers(c', b) <==>
               Covers(c, b) && !(Page(freeRam, first) <= b < Page(freeRam, first) + Bytes(n))
    requires forall b: nat | Page(freeRam, first) <= b < Page(freeRam, first) + Bytes(n) :: Covers(c, b)
    requires |s| == |r| && forall j | 0 <= j < |r| :: s[j] == if first <= j < first + n then 1 else r[j]
    ensures Agrees(c', s, freeRam, next)
    ensures Marked(r, s, first, n)
  {
    forall j | 0 <= j < |r|
      ensures Page(freeRam, first) <= Page(freeRam, j) < Page(freeRam, first) + Bytes(n) <==> first <= j < first + n
    {
      PageInBlock(freeRam, first, n, j);
    }
    forall j | first <= j < first + n && j < |r| ensures Covers(c, Page(freeRam, j)) && r[j] == 0 {
      PageInBlock(freeRam, first, n, j);
    }
  }

  lemma TakeSpec(c: seq<Run>, i: nat, n: nat)
    requires Canonical(c) && i < |c| && 0 < n <= c[i].pages
    ensures Canonical(Take(c, i, n))
    ensures forall b: nat :: Covers(Take(c, i, n), b) <==> Covers(c, b) && !(c[i].base <= b < c[i].base + Bytes(n))
    ensures forall b: nat | c[i].base <= b < c[i].base + Bytes(n) :: Covers(c, b)
  {
    TakeCanonical(c, i, n);
    forall b: nat
      ensures Covers(Take(c, i, n), b) <==> Covers(c, b) && !(c[i].base <= b < c[i].base + Bytes(n))
      ensures c[i].base <= b < c[i].base + Bytes(n) ==> Covers(c, b)
    {
      TakeAllocates(c, i, n, b);
    }
  }

  lemma AgreesWithoutBlock(c: seq<Run>, i: nat, n: nat, r: seq<nat>, s: seq<nat>, first: nat, freeRam: nat, next: nat)
    requires Agrees(c, r, freeRam, next) && i < |c| && 0 < n <= c[i].pages
    requires Page(freeRam, first) == c[i].base && first + n <= |r| && c[i].base + Bytes(n) <= next
    requires |s| == |r| && forall j | 0 <= j < |r| :: s[j] == if first <= j < first + n then 1 else r[j]
    ensures Agrees(Take(c, i, n), s, freeRam, next)
    ensures Marked(r, s, first, n)
  {
    TakeSpec(c, i, n);
    AgreesAfterTake(c, Take(c, i, n), r, s, first, n, freeRam, next);
  }

  lemma PageAligned(frame: nat, i: nat)
    ensures Aligned(Page(Bytes(frame), i))
  {}

  lemma PageIndex(frame: nat, i: nat)
    ensures (Page(Bytes(frame), i) - Bytes(frame)) / 4096 == i
    ensures Page(Bytes(frame), i) / 4096 == frame + i
    ensures Aligned(Page(Bytes(frame), i))
  {}

  lemma PageOf(frame: nat, a: nat) returns (i: nat)
    requires Bytes(frame) <= a && Aligned(a)
    ensures a == Page(Bytes(frame), i)
  {
    i := a / 4096 - frame;
  }

  lemma AlignedPlus(a: nat, n: nat)
    requires Aligned(a)
    ensures Aligned(a + Bytes(n))
  {}

  lemma AlignedGap(a: nat, b: nat)
    requires Aligned(a) && Aligned(b) && a < b
    ensures a + 4096 <= b
  {}

  /** A run of the list holds whole pages of the managed range. */
  lemma RunInRange(c: seq<Run>, i: nat, freeRam: nat, next: nat)
    requires Canonical(c) && i < |c| && Aligned(next)
    requires forall a: nat | Aligned(a) && Covers(c, a) :: freeRam <= a < next
    ensures freeRam <= c[i].base && c[i].End() <= next && Aligned(c[i].base)
  {
    assert c[i].Ok();
    var last := c[i].base + Bytes(c[i].pages - 1);
    AlignedPlus(c[i].base, c[i].pages - 1);
    assert c[i].Has(c[i].base) && c[i].Has(last);
    AlignedGap(last, next);
  }

  /** Handing out the pages at next moves next past them. */
  lemma AgreesAfterBump(c: seq<Run>, r: seq<nat>, s: seq<nat>, first: nat, n: nat, frame: nat, freeRam: nat, next: nat)
    requires Agrees(c, r, freeRam, next) && Page(freeRam, first) == next && first + n <= |r|
    requires |s| == |r| && forall j | 0 <= j < |r| :: s[j] == if first <= j < first + n then 1 else r[j]
    requires freeRam == Bytes(frame)
    ensures Agrees(c, s, freeRam, next + Bytes(n))
    ensures Marked(r, s, first, n)
  {
    forall j | 0 <= j < |r| ensures Aligned(Page(freeRam, j)) { PageAligned(frame, j); }
    assert forall j | first <= j < |r| :: next <= Page(freeRam, j);
  }

  /** The end of a block of n pages at next in 32-bit arithmetic. */
  function NewNext(next: nat, n: nat): nat { (next + Bytes(n)) % 0x1_0000_0000 }

  predicate BumpFails(next: nat, metaTop: nat, n: nat) {
    NewNext(next, n) > metaTop || NewNext(next, n) < next
  }

  /** Fewer than 2^20 pages, or so many that what is left of them modulo 2^32 bytes does
      not fit either. */
  predicate SizeOk(next: nat, metaTop: nat, n: nat) { n < 0x10_0000 || metaTop < next + Bytes(n % 0x10_0000) }

  /** The overflow test of alloc_pages_try sees the size of the block only modulo 2^32
      bytes. So it is right exactly for these sizes. */
  lemma BumpTest(next: nat, metaTop: nat, n: nat)
    requires next <= metaTop < 0x1_0000_0000
    ensures BumpFails(next, metaTop, n) <==> metaTop < next + Bytes(n % 0x10_0000)
    ensures (BumpFails(next, metaTop, n) <==> metaTop < next + Bytes(n)) <==> SizeOk(next, metaTop, n)
  {
    assert next + Bytes(n) == next + Bytes(n % 0x10_0000) + 0x1_0000_0000 * (n / 0x10_0000);
    assert NewNext(next, n) == (next + Bytes(n % 0x10_0000)) % 0x1_0000_0000;
  }

  lemma NewNextExact(next: nat, metaTop: nat, n: nat)
    requires next + Bytes(n) <= metaTop < 0x1_0000_0000
    ensures NewNext(next, n) == next + Bytes(n)
  {}

  /** 2^20 pages wrap to nothing and pass. */
  lemma BumpTestWraps(next: nat, metaTop: nat)
    requires next <= metaTop < 0x1_0000_0000
    ensures !BumpFails(next, metaTop, 0x10_0000) && metaTop < next + Bytes(0x10_0000)
  {}

  /** Counts above 0 may change to other counts above 0. */
  lemma AgreesOnCounts(c: seq<Run>, r: seq<nat>, s: seq<nat>, freeRam: nat, next: nat)
    requires Agrees(c, r, freeRam, next) && |r| == |s|
    requires forall i | 0 <= i < |r| :: (s[i] == 0 <==> r[i] == 0) && s[i] < 0x1_0000
    ensures Agrees(c, s, freeRam, next)
  {}

  /** A page whose last reference goes away joins the list. */
  lemma AgreesAfterFree(c: seq<Run>, c': seq<Run>, r: seq<nat>, i: nat, frame: nat, freeRam: nat, next: nat)
    requires Agrees(c, r, freeRam, next) && i < |r| && r[i] != 0 && freeRam == Bytes(frame)
    requires Canonical(c')
    requires forall b: nat | Aligned(b) :: Covers(c', b) <==> Covers(c, b) || b == Page(freeRam, i)
    ensures Agrees(c', r[i := 0], freeRam, next)
  {
    forall j | 0 <= j < |r| ensures Aligned(Page(freeRam, j)) { PageAligned(frame, j); }
  }

  /** A page in use is next to a free page exactly if a neighbour has count 0. */
  lemma NextToFreeCount(c: seq<Run>, r: seq<nat>, i: nat, frame: nat, freeRam: nat, next: nat)
    requires Agrees(c, r, freeRam, next) && i < |r| && r[i] != 0 && freeRam == Bytes(frame)
    requires next <= Page(freeRam, |r|)
    ensures NextToFree(c, Page(freeRam, i)) <==> !Alone(r, i, freeRam, next)
  {
    assert Page(freeRam, i) + 4096 == Page(freeRam, i + 1);
    PageAligned(frame, i + 1);
    if i > 0 {
      assert Page(freeRam, i) - 4096 == Page(freeRam, i - 1);
      PageAligned(frame, i - 1);
    } else if freeRam >= 4096 {
      PageAligned(frame - 1, 0);
    }
  }

  /** The counts, and where the metadata begins. */
  datatype Supply = Supply(refs: seq<nat>, freeRam: nat, metaTop: nat) {
    /** Page i can be had: it is in the free list, or fresh and below the metadata. */
    predicate Can(i: nat)
      requires i < |refs|
    {
      refs[i] == 0 && Page(freeRam, i + 1) <= metaTop
    }

    ghost predicate None() { forall i | 0 <= i < |refs| :: !Can(i) }

    ghost predicate OneAtMost() {
      forall i, j | 0 <= i < |refs| && 0 <= j < |refs| && Can(i) && Can(j) :: i == j
    }
  }

  /** If none is left without page i, there was at most that one. */
  lemma OneTaken(s: Supply, s': Supply, i: nat)
    requires i < |s.refs| && s'.None() && s'.freeRam == s.freeRam && s'.metaTop == s.metaTop
    requires |s'.refs| == |s.refs| && forall j | 0 <= j < |s.refs| && j != i :: s'.refs[j] == s.refs[j]
    ensures s.OneAtMost()
  {
    forall j | 0 <= j < |s.refs| && s.Can(j) ensures j == i { assert !s'.Can(j); }
  }

  /** What only gets worse: whether a page could not be freed, and how many bytes are left
      for fresh pages and list nodes. */
  datatype Gauge = Gauge(warned: bool, room: int)

  predicate Falls(g: Gauge, g': Gauge) { (g.warned ==> g'.warned) && g'.room <= g.room }

  class PageAllocator {
    const freeRam: nat              // __free_ram
    ghost const freeFrame: nat      // the frame it starts at
    const managed: nat              // managed_page_count
    const refTop: nat               // page_refcnt
    ghost const refWord: nat
    const ram: Ram
    var freeRuns: PageRun?
    var freeMetaNodes: PageRun?
    var nextPaddr: nat
    var metaTop: nat
    var refs: seq<nat>              // page_refcnt[]
    var leakWarned: bool            // free_meta_oom_warned

    ghost var used: nat             // how many pages lie below nextPaddr
    ghost var runs: seq<PageRun>    // the nodes of free_runs
    ghost var metas: seq<PageRun>   // the nodes of free_meta_nodes
    ghost var contents: seq<Run>    // what free_runs says
    ghost var carved: seq<PageRun>  // every node ever carved, oldest first
    ghost var repr: set<PageRun>    // the same nodes

    /** These nodes were carved here. */
    ghost predicate Carved(nodes: seq<PageRun>)
      reads this`carved
    {
      forall i | 0 <= i < |nodes| :: nodes[i].slot < |carved| && carved[nodes[i].slot] == nodes[i]
    }

    /** The lists hold all the carved nodes but this many. */
    ghost predicate Accounted(inHand: nat)
      reads this`carved, this`runs, this`metas
    {
      Carved(runs) && Carved(metas) && |runs| + |metas| + inHand == |carved|
    }

    ghost predicate InRepr()
      reads this`repr, this`runs, this`metas
    {
      (forall n | n in runs :: n in repr) && (forall n | n in metas :: n in repr)
    }

    /** Both lists are acyclic, share no node, and together hold every node carved. */
    ghost predicate ListsOk()
      reads this`freeRuns, this`freeMetaNodes, this`runs, this`metas, this`contents, this`carved, this`repr, runs, metas
    {
      && Linked(freeRuns, runs)
      && Linked(freeMetaNodes, metas)
      && (forall n | n in runs :: n !in metas)
      && InRepr()
      && Accounted(0)
      && Says(runs, contents)
    }

    /** The same but for one node in hand, which is on neither list. */
    ghost predicate Loose(node: PageRun)
      reads this`freeRuns, this`freeMetaNodes, this`runs, this`metas, this`contents, this`carved, this`repr, runs, metas
    {
      && Linked(freeRuns, runs)
      && Linked(freeMetaNodes, metas)
      && (forall n | n in runs :: n !in metas)
      && InRepr()
      && Accounted(1)
      && Says(runs, contents)
      && node !in runs && node !in metas && node in repr && Carved([node])
    }

    /** Node k occupies [refTop - 12(k+1), refTop - 12k): the nodes are pairwise
        disjoint, below the reference counts and at or above metaTop, and no page
        handed out reaches metaTop. */
    ghost predicate LayoutOk()
      reads this`nextPaddr, this`used, this`metaTop, this`carved
    {
      && freeFrame > 0 && freeRam == Bytes(freeFrame) && freeFrame + managed < FRAMES
      && refTop == 4 * refWord && refTop + 2 * managed <= Page(freeRam, managed)
      && metaTop == refTop - NodeBytes(|carved|)
      && (forall i | 0 <= i < |carved| :: carved[i].slot == i && carved[i].addr == refTop - NodeBytes(i + 1))
      && nextPaddr == Page(freeRam, used) && nextPaddr <= metaTop
    }

    /** Page index of an address inside the managed range. */
    function Index(a: nat): nat
      requires a >= freeRam
    {
      (a - freeRam) / 4096
    }

    ghost predicate FreeOk()
      reads this`contents, this`refs, this`nextPaddr
    {
      |refs| == managed && Agrees(contents, refs, freeRam, nextPaddr)
    }

    ghost predicate Valid()
      reads this, runs, metas
    {
      ListsOk() && LayoutOk() && FreeOk()
    }

    /** init_allocator_if_needed on its first, successful call. */
    constructor (ram: Ram, freeFrame: nat, managed: nat)
      requires freeFrame > 0 && freeFrame + managed < FRAMES
      requires RefTop(Bytes(freeFrame), managed) > Bytes(freeFrame)
      ensures Valid() && this.ram == ram && this.freeFrame == freeFrame && this.managed == managed
      ensures runs == [] && metas == [] && repr == {} && !leakWarned && forall i | 0 <= i < managed :: refs[i] == 0
      ensures contents == [] && carved == [] && nextPaddr == freeRam == Bytes(freeFrame)
              && metaTop == RefTop(freeRam, managed)
    {
      RefTopBelowEnd(Bytes(freeFrame), managed);
      this.ram := ram;
      this.freeFrame := freeFrame;
      this.freeRam := Bytes(freeFrame);
      this.managed := managed;
      this.refTop := RefTop(Bytes(freeFrame), managed);
      this.refWord := (Bytes(freeFrame) + 4094 * managed) / 4;
      freeRuns, freeMetaNodes := null, null;
      nextPaddr := Bytes(freeFrame);
      used := 0;
      metaTop := RefTop(Bytes(freeFrame), managed);
      refs := seq(managed, _ => 0);
      leakWarned := false;
      runs, metas, contents, carved := [], [], [], [];
      repr := {};
    }

    ghost function Level(): Gauge
      reads this`leakWarned, this`metaTop, this`nextPaddr
    {
      Gauge(leakWarned, metaTop - nextPaddr)
    }

    /** Nothing is left to carve a node from. */
    ghost predicate OutOfNodes()
      reads this`metaTop, this`nextPaddr
    {
      metaTop <= nextPaddr + 12
    }

    /** No list node can be had: none is spare, and none can be carved. */
    ghost predicate NoNode()
      reads this`freeMetaNodes, this`metaTop, this`nextPaddr
    {
      freeMetaNodes == null && OutOfNodes()
    }

    method PopMetaNode() returns (node: PageRun)
      requires ListsOk() && freeMetaNodes != null
      modifies this`freeMetaNodes, this`metas, metas
      ensures node == old(metas)[0] && metas == old(metas)[1..] && Loose(node)
    {
      node := freeMetaNodes;
      assert metas == [metas[0]] + metas[1..];
      assert node in metas;
      assert forall i | 0 <= i < |runs| :: runs[i] in runs && runs[i] != node;
      freeMetaNodes := node.next;
      node.next := null;
      metas := metas[1..];
    }

    method AllocRunNode() returns (node: PageRun?)
      requires ListsOk() && LayoutOk()
      modifies this`freeMetaNodes, this`metaTop, this`metas, this`carved, this`repr, metas
      ensures LayoutOk() && fresh(repr - old(repr)) && metaTop <= old(metaTop)
      ensures node == null <==> old(NoNode())
      ensures node == null ==> OutOfNodes() && ListsOk() && metas == old(metas)
      ensures node != null ==> Loose(node) && (fresh(node) || node in old(metas))
    {
      if freeMetaNodes != null {
        node := PopMetaNode();
        return;
      }
      AlignDownNode(refWord, |carved|);
      var newTop := AlignDown4(metaTop - 12);
      if newTop <= nextPaddr {
        return null;
      }
      node := CarveNode(newTop);
    }

    method CarveNode(newTop: nat) returns (node: PageRun)
      requires Accounted(0) && InRepr() && LayoutOk() && newTop == metaTop - 12 && nextPaddr < newTop
      modifies this`metaTop, this`carved, this`repr
      ensures LayoutOk() && fresh(node) && Accounted(1) && Carved([node])
      ensures InRepr() && repr == old(repr) + {node}
    {
      metaTop := newTop;
      node := new PageRun(metaTop, |carved|);
      carved := carved + [node];
      repr := repr + {node};
    }

    /** Puts a node that is on no list on the spare list. */
    method ReleaseRunNode(node: PageRun)
      requires Linked(freeMetaNodes, metas) && node !in metas
      modifies this`freeMetaNodes, this`metas, node
      ensures metas == [node] + old(metas) && Linked(freeMetaNodes, metas)
    {
      node.base := 0;
      node.pages := 0;
      node.next := freeMetaNodes;
      freeMetaNodes := node;
      metas := [node] + metas;
    }

    lemma ListsAfterInsert(r: seq<PageRun>, k: nat, node: PageRun, c: seq<Run>)
      requires k <= |r| == |c| && runs == Inserted(r, k, node) && contents == Inserted(c, k, Run(node.base, node.pages))
      requires Distinct(r) && node !in r && Says(r, c) && Carved(r) && Carved([node])
      requires freeRuns == (if k == 0 then node else r[0])
      requires k > 0 ==> r[k - 1].next == node
      requires node.next == NodeAt(r, k)
      requires forall i {:trigger r[i].next} | 0 <= i < |r| && i != k - 1 :: r[i].next == NodeAt(r, i + 1)
      requires Linked(freeMetaNodes, metas) && Carved(metas) && |r| + |metas| + 1 == |carved|
      requires node !in metas && forall n | n in r :: n !in metas && n in repr
      requires node in repr && forall n | n in metas :: n in repr
      ensures ListsOk()
    {
      LinkedInserted(freeRuns, r, k, node, c);
      InsertedAt(r, k, node);
      assert [node][0] == node;
      forall n | n in runs ensures n !in metas && n in repr {
        InsertedHas(r, k, node, n);
      }
    }

    lemma ListsAfterRemove(r: seq<PageRun>, k: nat, c: seq<Run>)
      requires k < |r| == |c| && runs == Removed(r, k) && contents == Removed(c, k)
      requires Distinct(r) && Says(r, c) && Carved(r)
      requires freeRuns == (if k == 0 then NodeAt(r, 1) else r[0])
      requires k > 0 ==> r[k - 1].next == NodeAt(r, k + 1)
      requires forall i {:trigger r[i].next} | 0 <= i < |r| && i != k - 1 :: r[i].next == NodeAt(r, i + 1)
      ensures Linked(freeRuns, runs) && Says(runs, contents) && Carved(runs) && |runs| == |r| - 1
      ensures forall n | n in runs :: n in r && n != r[k]
    {
      LinkedRemoved(freeRuns, r, k, c);
      RemovedAt(r, k);
      forall n | n in runs ensures n in r && n != r[k] {
        RemovedHas(r, k, n);
      }
    }

    /** Links node, which says one free page at a, into the list behind prev
        (at the head when prev is null). */
    method LinkBehind(prev: PageRun?, node: PageRun, a: nat, ghost k: nat)
      requires Loose(node)
      requires k <= |runs| && prev == (if k == 0 then null else runs[k - 1])
      modifies this`freeRuns, this`runs, this`contents, node, runs
      ensures ListsOk()
      ensures runs == Inserted(old(runs), k, node)
      ensures contents == Inserted(old(contents), k, Run(a, 1))
    {
      hide Inserted, PageAllocator.Carved;
      assert k > 0 ==> runs[k - 1] in runs;
      node.base := a;
      node.pages := 1;
      if prev == null {
        node.next := freeRuns;
        freeRuns := node;
      } else {
        node.next := prev.next;
        prev.next := node;
      }
      ghost var r, c := runs, contents;
      runs := Inserted(runs, k, node);
      contents := Inserted(contents, k, Run(a, 1));
      ListsAfterInsert(r, k, node, c);
    }

    /** Bypasses the node behind prev (the head when prev is null). */
    method Bypass(prev: PageRun?, node: PageRun, ghost k: nat)
      requires ListsOk()
      requires k < |runs| && node == runs[k] && prev == (if k == 0 then null else runs[k - 1])
      modifies this`freeRuns, this`runs, this`contents, runs
      ensures Loose(node)
      ensures runs == Removed(old(runs), k)
      ensures contents == Removed(old(contents), k)
    {
      assert k > 0 ==> runs[k - 1] in runs;
      assert runs[k] in runs;
      if prev == null {
        freeRuns := node.next;
      } else {
        prev.next := node.next;
      }
      ghost var r, c := runs, contents;
      runs := Removed(runs, k);
      contents := Removed(contents, k);
      ListsAfterRemove(r, k, c);
    }

    /** Takes the node behind prev (the head when prev is null) off the list and
        puts it on the spare list. */
    method UnlinkBehind(prev: PageRun?, node: PageRun, ghost k: nat)
      requires ListsOk()
      requires k < |runs| && node == runs[k] && prev == (if k == 0 then null else runs[k - 1])
      modifies this`freeRuns, this`freeMetaNodes, this`runs, this`metas, this`contents, runs
      ensures ListsOk()
      ensures runs == Removed(old(runs), k)
      ensures contents == Removed(old(contents), k)
      ensures metas == [node] + old(metas)
    {
      assert node in runs;
      Bypass(prev, node, k);
      ReleaseRunNode(node);
    }

    /** Rewrites run k in place. */
    method SetRun(node: PageRun, base: nat, pages: nat, ghost k: nat)
      requires ListsOk() && k < |runs| && node == runs[k]
      modifies this`contents, node
      ensures ListsOk() && contents == old(contents)[k := Run(base, pages)]
    {
      assert node in runs;
      node.base := base;
      node.pages := pages;
      contents := contents[k := Run(base, pages)];
    }

    /** Absorbs the run behind cur into cur. */
    method MergeNext(cur: PageRun, next: PageRun, ghost k: nat)
      requires ListsOk() && k + 1 < |runs| && cur == runs[k] && next == runs[k + 1]
      modifies this`freeRuns, this`freeMetaNodes, this`runs, this`metas, this`contents, repr
      ensures ListsOk() && runs == Removed(old(runs), k + 1) && metas == [next] + old(metas)
      ensures contents == Merge(old(contents), k)
    {
      assert cur in runs && next in runs;
      MergeByEdits(contents, k);
      SetRun(cur, cur.base, cur.pages + next.pages, k);
      UnlinkBehind(cur, next, k + 1);
    }

    /** coalesce_free_runs: merges every pair of touching runs and frees no page. */
    method CoalesceFreeRuns()
      requires ListsOk() && Ordered(contents)
      modifies this`freeRuns, this`freeMetaNodes, this`runs, this`metas, this`contents, repr
      ensures ListsOk() && Canonical(contents)
      ensures forall b: nat :: Covers(contents, b) <==> Covers(old(contents), b)
    {
      var cur := freeRuns;
      ghost var k := 0;
      while cur != null && cur.next != null
        invariant ListsOk() && Ordered(contents)
        invariant cur == NodeAt(runs, k) && (k == 0 || k < |runs|)
        invariant forall i | 0 < i <= k && i < |runs| :: Apart(contents, i)
        invariant forall b: nat :: Covers(contents, b) <==> Covers(old(contents), b)
        decreases |runs| - k
      {
        assert cur == runs[k] && cur.next == NodeAt(runs, k + 1);
        var next := cur.next;
        if cur.base + Bytes(cur.pages) == next.base {
          MergeKeepsPages(contents, k);
          MergeKeepsApart(contents, k);
          MergeNext(cur, next, k);
        } else {
          assert Before(contents, k + 1);
          cur := next;
          k := k + 1;
        }
      }
    }

    /** Adds a run of one page behind prev, if a node can be had. */
    method AddRun(prev: PageRun?, a: nat, ghost k: nat) returns (rc: int)
      requires ListsOk() && LayoutOk() && k <= |runs| && prev == (if k == 0 then null else runs[k - 1])
      modifies this`freeRuns, this`freeMetaNodes, this`metaTop, this`runs, this`metas, this`contents, this`carved
      modifies this`repr, repr
      ensures ListsOk() && LayoutOk()
      ensures rc == -1 <==> old(NoNode())
      ensures rc == -1 ==> OutOfNodes() && contents == old(contents)
      ensures rc == 0 || rc == -1
      ensures rc == 0 ==> contents == Inserted(old(contents), k, Run(a, 1))
      ensures fresh(repr - old(repr)) && metaTop <= old(metaTop)
    {
      hide Linked, Says, Carved, LayoutOk, Inserted;
      var node := AllocRunNode();
      if node == null {
        return -1;
      }
      LinkBehind(prev, node, a, k);
      rc := 0;
    }

    /** coalesce_free_runs has nothing to do on a canonical list. */
    method CoalesceCanonical()
      requires ListsOk() && Canonical(contents)
      modifies this`freeRuns, this`freeMetaNodes, this`runs, this`metas, this`contents, repr
      ensures ListsOk() && contents == old(contents)
    {
      CanonicalIsOrdered(contents);
      CoalesceFreeRuns();
      CanonicalUnique(contents, old(contents));
    }

    /** free_single_page_raw: puts page paddr on the list. The three overlap panics
        of the source are the branches that assert false. */
    method FreeSinglePageRaw(paddr: nat) returns (rc: int)
      requires ListsOk() && LayoutOk() && Canonical(contents) && Aligned(paddr) && !Covers(contents, paddr)
      modifies this`freeRuns, this`freeMetaNodes, this`metaTop, this`runs, this`metas, this`contents, this`carved
      modifies this`repr, repr
      ensures ListsOk() && LayoutOk() && Canonical(contents)
      ensures rc == 0 || rc == -1
      ensures rc == -1 <==> old(NoNode()) && !NextToFree(old(contents), paddr)
      ensures rc == -1 ==> OutOfNodes() && contents == old(contents)
      ensures rc == 0 ==> forall b: nat | Aligned(b) :: Covers(contents, b) <==> Covers(old(contents), b) || b == paddr
      ensures fresh(repr - old(repr)) && metaTop <= old(metaTop)
    {
      ghost var c := contents;
      ghost var k;
      rc, k := FreeIntoRuns(paddr);
      NearIsNextToFree(c, k, paddr);
      if rc == 0 {
        InsertFrees(c, k, paddr);
      }
    }

    method FreeIntoRuns(paddr: nat) returns (rc: int, ghost k: nat)
      requires ListsOk() && LayoutOk() && Canonical(contents) && Aligned(paddr) && !Covers(contents, paddr)
      modifies this`freeRuns, this`freeMetaNodes, this`metaTop, this`runs, this`metas, this`contents, this`carved
      modifies this`repr, repr
      ensures ListsOk() && LayoutOk()
      ensures rc == 0 || rc == -1
      ensures rc == -1 ==> OutOfNodes() && contents == old(contents)
      ensures SplitsAt(old(contents), k, paddr) && (rc == -1 <==> old(NoNode()) && !Near(old(contents), k, paddr))
      ensures rc == 0 ==> contents == Insert(old(contents), k, paddr)
      ensures fresh(repr - old(repr)) && metaTop <= old(metaTop)
    {
      k := 0;
      if freeRuns == null {
        InsertNew(contents, 0, paddr);
        rc := AddRun(null, paddr, 0);
        return;
      }
      if paddr < freeRuns.base {
        rc := FreeAtHead(paddr);
        return;
      }
      var cur := freeRuns;
      while cur.next != null && cur.next.base < paddr
        invariant k < |runs| && cur == runs[k] && contents[k].base <= paddr
        decreases |runs| - k
      {
        assert cur.next == NodeAt(runs, k + 1);
        cur := cur.next;
        k := k + 1;
      }
      assert contents[k].Ok() && !contents[k].Has(paddr);
      assert cur.next == NodeAt(runs, k + 1);
      rc := FreeBehind(cur, paddr, k);
      k := k + 1;
    }

    method FreeAtHead(paddr: nat) returns (rc: int)
      requires ListsOk() && LayoutOk() && Canonical(contents) && Aligned(paddr) && !Covers(contents, paddr)
      requires freeRuns != null && paddr < freeRuns.base
      modifies this`freeRuns, this`freeMetaNodes, this`metaTop, this`runs, this`metas, this`contents, this`carved
      modifies this`repr, repr
      ensures ListsOk() && LayoutOk() && (rc == 0 || rc == -1)
      ensures rc == -1 <==> old(NoNode()) && !Near(old(contents), 0, paddr)
      ensures rc == -1 ==> OutOfNodes() && contents == old(contents)
      ensures rc == 0 ==> contents == Insert(old(contents), 0, paddr)
      ensures fresh(repr - old(repr)) && metaTop <= old(metaTop)
    {
      var end := paddr + 4096;
      CanonicalIsOrdered(contents);
      Gap(contents, 0, paddr);
      if end > freeRuns.base {
        assert false;
      }
      if end == freeRuns.base {
        InsertRight(contents, 0, paddr);
        SetRun(freeRuns, paddr, freeRuns.pages + 1, 0);
        return 0;
      }
      InsertNew(contents, 0, paddr);
      rc := AddRun(null, paddr, 0);
    }

    /** The part of free_single_page_raw after the search: page paddr goes behind cur. */
    method FreeBehind(cur: PageRun, paddr: nat, ghost k: nat) returns (rc: int)
      requires ListsOk() && LayoutOk() && Canonical(contents) && Aligned(paddr) && !Covers(contents, paddr)
      requires k < |runs| && cur == runs[k] && SplitsAt(contents, k + 1, paddr)
      modifies this`freeRuns, this`freeMetaNodes, this`metaTop, this`runs, this`metas, this`contents, this`carved
      modifies this`repr, repr
      ensures ListsOk() && LayoutOk() && (rc == 0 || rc == -1)
      ensures rc == -1 <==> old(NoNode()) && !Near(old(contents), k + 1, paddr)
      ensures rc == -1 ==> OutOfNodes() && contents == old(contents)
      ensures rc == 0 ==> contents == Insert(old(contents), k + 1, paddr)
      ensures fresh(repr - old(repr)) && metaTop <= old(metaTop)
    {
      hide ListsOk, LayoutOk, Canonical, Ordered, Covers, OutOfNodes, NoNode;
      CanonicalIsOrdered(contents);
      NodeSays(cur, k);
      Gap(contents, k + 1, paddr);
      if cur.base + Bytes(cur.pages) > paddr {
        assert false;
      }
      if cur.next != null && paddr + 4096 > cur.next.base {
        assert false;
      }
      if cur.base + Bytes(cur.pages) == paddr {
        GrowRun(cur, paddr, k);
        return 0;
      }
      if cur.next != null && paddr + 4096 == cur.next.base {
        InsertRight(contents, k + 1, paddr);
        SetRun(cur.next, paddr, cur.next.pages + 1, k + 1);
        return 0;
      }
      rc := NewRunBehind(cur, paddr, k);
    }

    /** What node k and the node after it say. */
    lemma NodeSays(cur: PageRun, k: nat)
      requires ListsOk() && k < |runs| && cur == runs[k]
      ensures |contents| == |runs| && cur.next == NodeAt(runs, k + 1)
      ensures cur.base == contents[k].base && cur.pages == contents[k].pages && cur in repr
      ensures k + 1 < |runs| ==> runs[k + 1].base == contents[k + 1].base && runs[k + 1].pages == contents[k + 1].pages
                                 && runs[k + 1] in repr
    {}

    method NewRunBehind(cur: PageRun, paddr: nat, ghost k: nat) returns (rc: int)
      requires ListsOk() && LayoutOk() && Canonical(contents) && Aligned(paddr) && !Covers(contents, paddr)
      requires k < |runs| && cur == runs[k] && SplitsAt(contents, k + 1, paddr)
      requires contents[k].End() != paddr && (k + 1 < |runs| ==> paddr + 4096 != contents[k + 1].base)
      modifies this`freeRuns, this`freeMetaNodes, this`metaTop, this`runs, this`metas, this`contents, this`carved
      modifies this`repr, repr
      ensures ListsOk() && LayoutOk() && (rc == 0 || rc == -1)
      ensures rc == -1 <==> old(NoNode())
      ensures rc == -1 ==> OutOfNodes() && contents == old(contents)
      ensures rc == 0 ==> contents == Insert(old(contents), k + 1, paddr)
      ensures fresh(repr - old(repr)) && metaTop <= old(metaTop)
    {
      InsertNew(contents, k + 1, paddr);
      InsertCanonical(contents, k + 1, paddr);
      rc := AddRun(cur, paddr, k + 1);
      if rc == 0 {
        CoalesceCanonical();
      }
    }

    /** Page paddr extends cur, which may then reach the run behind it. */
    method GrowRun(cur: PageRun, paddr: nat, ghost k: nat)
      requires ListsOk() && k < |runs| && cur == runs[k] && cur.base + Bytes(cur.pages) == paddr
      modifies this`freeRuns, this`freeMetaNodes, this`runs, this`metas, this`contents, repr
      ensures ListsOk() && contents == Insert(old(contents), k + 1, paddr)
    {
      hide Insert, Merge;
      if k + 1 < |contents| && paddr + 4096 == contents[k + 1].base {
        InsertByMerge(contents, k, paddr);
      } else {
        InsertLeft(contents, k + 1, paddr);
      }
      SetRun(cur, cur.base, cur.pages + 1, k);
      assert cur.next == NodeAt(runs, k + 1);
      if cur.next != null && cur.base + Bytes(cur.pages) == cur.next.base {
        MergeNext(cur, cur.next, k);
      }
    }

    // -------------------------------------------------------------------
    // Pages and their reference counts.

    /** page_idx_if_managed */
    predicate IsManaged(a: nat) {
      freeRam <= a < freeRam + Bytes(managed) && Aligned(a)
    }

    lemma IndexOfPage(a: nat)
      requires freeRam == Bytes(freeFrame) && IsManaged(a)
      ensures a == Page(freeRam, Index(a)) && Index(a) < managed
    {}

    /** Puts page i, which had the counts r, on the free list. */
    method FreePage(i: nat, ghost r: seq<nat>) returns (rc: int)
      requires ListsOk() && LayoutOk() && Agrees(contents, r, freeRam, nextPaddr) && i < |r| == managed && r[i] == 1
      modifies this`freeRuns, this`freeMetaNodes, this`metaTop, this`runs, this`metas, this`contents, this`carved
      modifies this`repr, repr
      ensures ListsOk() && LayoutOk() && fresh(repr - old(repr)) && metaTop <= old(metaTop)
      ensures rc != 0 <==> old(NoNode()) && Alone(r, i, freeRam, nextPaddr)
      ensures rc == 0 ==> Agrees(contents, r[i := 0], freeRam, nextPaddr)
      ensures rc != 0 ==> rc == -1 && OutOfNodes() && Agrees(contents, r, freeRam, nextPaddr)
    {
      ghost var c := contents;
      PageAligned(freeFrame, i);
      NextToFreeCount(c, r, i, freeFrame, freeRam, nextPaddr);
      rc := FreeSinglePageRaw(Page(freeRam, i));
      if rc == 0 {
        AgreesAfterFree(c, contents, r, i, freeFrame, freeRam, nextPaddr);
      }
    }

    /** The last reference to page i goes away. When no list node can be had the
        page is never used again: its count goes back to 1. */
    method DropLastRef(i: nat)
      requires Valid() && i < managed && refs[i] == 1
      modifies this, repr
      ensures Valid() && nextPaddr == old(nextPaddr) && fresh(repr - old(repr)) && metaTop <= old(metaTop)
      ensures refs == old(refs)[i := 0] || (refs == old(refs) && OutOfNodes())
      ensures refs == old(refs) <==> old(NoNode()) && Alone(old(refs), i, freeRam, nextPaddr)
      ensures leakWarned <==> old(leakWarned) || refs == old(refs)
    {
      hide ListsOk, LayoutOk, Agrees, OutOfNodes, NoNode, Alone;
      ghost var r := refs;
      refs := refs[i := 0];
      var rc := FreePage(i, r);
      if rc < 0 {
        refs := refs[i := 1];
        leakWarned := true;
        assert refs == r;
      }
    }

    /** A reference to page i goes away. */
    method DropRef(i: nat)
      requires Valid() && i < managed && refs[i] > 0
      modifies this, repr
      ensures Valid() && nextPaddr == old(nextPaddr) && fresh(repr - old(repr)) && metaTop <= old(metaTop)
      ensures refs == old(refs)[i := refs[i]]
      ensures refs[i] == old(refs[i]) - 1 || (old(refs[i]) == 1 && refs[i] == 1 && OutOfNodes())
      ensures refs == old(refs) <==> old(refs[i]) == 1 && old(NoNode()) && Alone(old(refs), i, freeRam, nextPaddr)
      ensures leakWarned <==> old(leakWarned) || refs == old(refs)
    {
      if refs[i] == 1 {
        DropLastRef(i);
      } else {
        ghost var r := refs;
        refs := refs[i := refs[i] - 1];
        AgreesOnCounts(contents, r, refs, freeRam, nextPaddr);
      }
    }

    /** free_pages. The result says whether the kernel panicked. */
    method FreePages(paddr: nat, n: nat) returns (panicked: bool, ghost moments: seq<Moment>)
      requires Valid()
      modifies this, repr
      ensures Valid() && nextPaddr == old(nextPaddr) && fresh(repr - old(repr)) && metaTop <= old(metaTop)
      ensures panicked <==> n == 0 || !Aligned(paddr) || paddr < freeRam || Page(freeRam, managed) < paddr + Bytes(n)
                            || exists j :: Index(paddr) <= j < Index(paddr) + n && old(refs)[j] == 0
      ensures !panicked ==> Dropped(old(refs), refs, Index(paddr), n, OutOfNodes() && leakWarned)
      ensures !panicked ==> |moments| == n + 1 && DroppedInTurn(moments, Index(paddr), freeRam, nextPaddr)
                            && moments[0] == Moment(old(refs), old(NoNode())) && moments[n] == Moment(refs, NoNode())
      ensures old(leakWarned) ==> leakWarned
    {
      if n == 0 || !Aligned(paddr) || paddr < freeRam || Page(freeRam, managed) < paddr + Bytes(n) {
        return true, [];
      }
      IndexOfPage(paddr);
      panicked, moments := FreeFrom(Index(paddr), n);
    }

    /** The loop of free_pages over pages first to first + n - 1. */
    method FreeFrom(first: nat, n: nat) returns (panicked: bool, ghost moments: seq<Moment>)
      requires Valid() && first + n <= managed
      modifies this, repr
      ensures Valid() && nextPaddr == old(nextPaddr) && fresh(repr - old(repr)) && metaTop <= old(metaTop)
      ensures panicked <==> exists j :: first <= j < first + n && old(refs)[j] == 0
      ensures !panicked ==> Dropped(old(refs), refs, first, n, OutOfNodes() && leakWarned)
      ensures !panicked ==> |moments| == n + 1 && DroppedInTurn(moments, first, freeRam, nextPaddr)
                            && moments[0] == Moment(old(refs), old(NoNode())) && moments[n] == Moment(refs, NoNode())
      ensures old(leakWarned) ==> leakWarned
    {
      hide ListsOk, LayoutOk, Agrees, NoNode, Alone;
      moments := [Moment(refs, NoNode())];
      var i := 0;
      while i < n
        invariant 0 <= i <= n
        invariant Valid() && nextPaddr == old(nextPaddr) && fresh(repr - old(repr)) && metaTop <= old(metaTop)
        invariant forall j | first <= j < first + i :: old(refs)[j] != 0
        invariant Dropped(old(refs), refs, first, i, OutOfNodes() && leakWarned)
        invariant old(leakWarned) ==> leakWarned
        invariant |moments| == i + 1 && DroppedInTurn(moments, first, freeRam, nextPaddr)
        invariant moments[0] == Moment(old(refs), old(NoNode())) && moments[i] == Moment(refs, NoNode())
      {
        if refs[first + i] == 0 {
          assert old(refs)[first + i] == 0;
          return true, moments;
        }
        DropRef(first + i);
        moments := moments + [Moment(refs, NoNode())];
        i := i + 1;
      }
      panicked := false;
    }

    /** page_dec_ref */
    method PageDecRef(paddr: nat) returns (panicked: bool)
      requires Valid()
      modifies this, repr
      ensures Valid() && nextPaddr == old(nextPaddr) && fresh(repr - old(repr)) && metaTop <= old(metaTop)
      ensures panicked <==> IsManaged(paddr) && old(refs)[Index(paddr)] == 0
      ensures panicked || !IsManaged(paddr) ==> refs == old(refs)
      ensures !panicked && IsManaged(paddr) ==>
                var i := Index(paddr);
                && refs == old(refs)[i := refs[i]]
                && (refs[i] == old(refs)[i] - 1 || (old(refs)[i] == 1 && refs[i] == 1 && OutOfNodes() && leakWarned))
      ensures !panicked && IsManaged(paddr) ==>
                Dropping(Moment(old(refs), old(NoNode())), Moment(refs, NoNode()), Index(paddr), freeRam, nextPaddr)
      ensures old(leakWarned) ==> leakWarned
    {
      if !IsManaged(paddr) {
        return false;
      }
      IndexOfPage(paddr);
      if refs[Index(paddr)] == 0 {
        return true;
      }
      DropRef(Index(paddr));
      return false;
    }

    /** page_inc_ref. page_refcnt holds 16 bits: a count of 65535 wraps to 0, and exactly
        then the page is in use with count 0 and the invariant is lost. */
    method PageIncRef(paddr: nat) returns (panicked: bool)
      requires Valid()
      modifies this`refs
      ensures panicked <==> IsManaged(paddr) && old(refs)[Index(paddr)] == 0
      ensures panicked || !IsManaged(paddr) ==> refs == old(refs)
      ensures !panicked && IsManaged(paddr) ==>
                var i := Index(paddr);
                refs == old(refs)[i := if old(refs)[i] == 0xffff then 0 else old(refs)[i] + 1]
      ensures Valid() <==> !(IsManaged(paddr) && old(refs)[Index(paddr)] == 0xffff)
    {
      hide ListsOk, LayoutOk, Agrees, IsManaged, Index;
      if !IsManaged(paddr) {
        return false;
      }
      AddressOf(paddr);
      var i := Index(paddr);
      if refs[i] == 0 {
        return true;
      }
      CountFits(i);
      ghost var r := refs;
      refs := refs[i := (refs[i] + 1) % 0x1_0000];
      CountsAgree(r, i);
      return false;
    }

    lemma AddressOf(a: nat)
      requires LayoutOk() && IsManaged(a)
      ensures a >= freeRam && Index(a) < managed
    {
      IndexOfPage(a);
    }

    /** A 16-bit count goes up by one, but for its maximum. */
    lemma CountFits(i: nat)
      requires FreeOk() && i < managed
      ensures (refs[i] + 1) % 0x1_0000 == if refs[i] == 0xffff then 0 else refs[i] + 1
    {}

    lemma CountsAgree(r: seq<nat>, i: nat)
      requires Agrees(contents, r, freeRam, nextPaddr) && i < |r| && r[i] != 0 && refs == r[i := (r[i] + 1) % 0x1_0000]
      ensures Agrees(contents, refs, freeRam, nextPaddr) <==> r[i] != 0xffff
    {
      if r[i] != 0xffff {
        AgreesOnCounts(contents, r, refs, freeRam, nextPaddr);
      } else {
        assert refs[i] == 0 && Page(freeRam, i) < nextPaddr && !Covers(contents, Page(freeRam, i));
      }
    }

    /** The loop of alloc_pages_try that gives each page of the block one reference. */
    method MarkAllocated(paddr: nat, ghost first: nat, n: nat)
      requires LayoutOk() && |refs| == managed && paddr == Page(freeRam, first) && first + n <= managed
      modifies this`refs
      ensures refs == MarkPages(old(refs), first, n)
    {
      var i := 0;
      while i < n
        invariant 0 <= i <= n && |refs| == managed
        invariant forall j | 0 <= j < managed :: refs[j] == if first <= j < first + i then 1 else old(refs)[j]
      {
        var a := paddr + Bytes(i);
        assert a == Page(freeRam, first + i);
        PageIndex(freeFrame, first + i);
        if IsManaged(a) {
          refs := refs[Index(a) := 1];
        }
        i := i + 1;
      }
    }

    /** The block is zeroed and referenced once. */
    method HandOut(paddr: nat, ghost first: nat, n: nat)
      requires LayoutOk() && |refs| == managed && paddr == Page(freeRam, first) && first + n <= managed
      modifies this`refs, ram
      ensures refs == MarkPages(old(refs), first, n)
      ensures Cleared(old(ram.frames), ram.frames, freeFrame + first, n)
    {
      PageIndex(freeFrame, first);
      ram.ClearFrames(paddr / 4096, n);
      MarkAllocated(paddr, first, n);
    }

    /** Takes n pages from the front of run k; the node goes with its last page. */
    method TakeFromRun(prev: PageRun?, cur: PageRun, n: nat, ghost k: nat)
      requires ListsOk() && k < |runs| && cur == runs[k] && prev == (if k == 0 then null else runs[k - 1])
      requires 0 < n <= cur.pages
      modifies this`freeRuns, this`freeMetaNodes, this`runs, this`metas, this`contents, repr
      ensures ListsOk() && contents == Take(old(contents), k, n)
    {
      ghost var c := contents;
      SetRun(cur, cur.base + Bytes(n), cur.pages - n, k);
      if cur.pages == 0 {
        RemovedAt(contents, k);
        UnlinkBehind(prev, cur, k);
        TakeByRemoval(c, k, contents);
      } else {
        TakeByEdit(c, k, n);
      }
    }

    /** No single page can be handed out. */
    ghost predicate NoPageLeft()
      reads this`contents, this`nextPaddr, this`metaTop
    {
      contents == [] && metaTop < nextPaddr + 4096
    }

    /** The pages that can still be had. */
    ghost function Left(): Supply
      reads this`refs, this`metaTop
    {
      Supply(refs, freeRam, metaTop)
    }

    /** At most one page can be had. */
    ghost predicate LowMemory()
      reads this`refs, this`metaTop
    {
      Left().OneAtMost()
    }

    /** No single page can be handed out exactly if none can be had. */
    lemma NoneCanBeHad()
      requires Valid()
      ensures NoPageLeft() <==> Left().None()
    {
      hide ListsOk;
      if contents != [] {
        var first := RunFirst(0);
        assert Covers(contents, contents[0].base);
        assert Left().Can(first);
      } else if metaTop >= nextPaddr + 4096 {
        assert Left().Can(used);
      } else {
        forall i | 0 <= i < |refs| ensures !Left().Can(i) {
          if refs[i] == 0 { assert !Covers(contents, Page(freeRam, i)); }
        }
      }
    }

    /** With two pages to spare two can be had. */
    lemma LowRoom()
      requires Valid()
      ensures LowMemory() ==> Level().room < 8192
    {
      hide ListsOk;
      if metaTop - nextPaddr >= 8192 {
        assert Left().Can(used) && Left().Can(used + 1);
      }
    }

    /** alloc_pages_try: the front of the first run that is long enough, else fresh pages
        below the metadata. For other sizes the code writes outside its count array. */
    method AllocPagesTry(n: nat) returns (paddr: nat, ghost first: nat)
      requires Valid() && SizeOk(nextPaddr, metaTop, n)
      modifies this`freeRuns, this`freeMetaNodes, this`runs, this`metas, this`contents, this`nextPaddr, this`used
      modifies this`refs
      modifies repr, ram
      ensures Valid()
      ensures paddr == 0 <==> n == 0 || ((forall i | 0 <= i < |old(contents)| :: old(contents)[i].pages < n)
                                         && metaTop < old(nextPaddr) + Bytes(n))
      ensures paddr == 0 ==> refs == old(refs) && ram.frames == old(ram.frames)
      ensures paddr == 0 ==> contents == old(contents) && nextPaddr == old(nextPaddr)
      ensures paddr != 0 ==> paddr == Page(freeRam, first) && first + n <= managed && paddr + Bytes(n) <= nextPaddr
      ensures paddr != 0 ==> Marked(old(refs), refs, first, n)
      ensures paddr != 0 ==> Cleared(old(ram.frames), ram.frames, freeFrame + first, n)
      ensures Falls(old(Level()), Level())
      ensures paddr != 0 ==> var k := FitIndex(old(contents), n);
                if k < |old(contents)| then paddr == old(contents)[k].base && nextPaddr == old(nextPaddr)
                else paddr == old(nextPaddr) && nextPaddr == paddr + Bytes(n)
    {
      hide LayoutOk, Agrees, Marked, Cleared, FitIndex, Canonical;
      NextIsPage();
      first := 0;
      if n == 0 {
        return 0, 0;
      }
      var prev, cur;
      ghost var k;
      prev, cur, k := FirstFit(n);
      OneFitIndex(contents, n, k);
      if cur != null {
        paddr, first := AllocFromRun(prev, cur, n, k);
      } else {
        paddr, first := AllocFresh(n);
      }
    }

    /** The first run of n pages or more, and the node before it. */
    method FirstFit(n: nat) returns (prev: PageRun?, cur: PageRun?, ghost k: nat)
      requires ListsOk()
      ensures k <= |runs| && cur == NodeAt(runs, k) && prev == (if k == 0 then null else runs[k - 1])
      ensures forall i | 0 <= i < k :: contents[i].pages < n
      ensures k < |runs| ==> contents[k].pages >= n
    {
      prev := null;
      cur := freeRuns;
      k := 0;
      while cur != null
        invariant k <= |runs| && cur == NodeAt(runs, k) && prev == (if k == 0 then null else runs[k - 1])
        invariant forall i | 0 <= i < k :: contents[i].pages < n
        decreases |runs| - k
      {
        if cur.pages >= n {
          return;
        }
        prev := cur;
        cur := cur.next;
        k := k + 1;
      }
    }

    method AllocFromRun(prev: PageRun?, cur: PageRun, n: nat, ghost k: nat) returns (paddr: nat, ghost first: nat)
      requires Valid() && 0 < n && k < |runs| && cur == runs[k] && n <= cur.pages
      requires prev == (if k == 0 then null else runs[k - 1])
      modifies this`freeRuns, this`freeMetaNodes, this`runs, this`metas, this`contents, this`refs, repr, ram
      ensures Valid() && paddr == Page(freeRam, first) && first + n <= managed && paddr + Bytes(n) <= nextPaddr
      ensures paddr == old(contents)[k].base && nextPaddr == old(nextPaddr)
      ensures Marked(old(refs), refs, first, n) && Cleared(old(ram.frames), ram.frames, freeFrame + first, n)
    {
      hide LayoutOk, Agrees;
      paddr := cur.base;
      first := RunFirst(k);
      TakeBlock(prev, cur, n, k, first);
      HandOut(paddr, first, n);
    }

    /** The block leaves the list, which then agrees with the counts it will have. */
    method TakeBlock(prev: PageRun?, cur: PageRun, n: nat, ghost k: nat, ghost first: nat)
      requires ListsOk() && FreeOk() && 0 < n && k < |runs| && cur == runs[k] && n <= cur.pages
      requires prev == (if k == 0 then null else runs[k - 1])
      requires contents[k].base == Page(freeRam, first) && first + n <= managed && contents[k].End() <= nextPaddr
      modifies this`freeRuns, this`freeMetaNodes, this`runs, this`metas, this`contents, repr
      ensures ListsOk() && Agrees(contents, MarkPages(refs, first, n), freeRam, nextPaddr)
      ensures Marked(refs, MarkPages(refs, first, n), first, n)
    {
      ghost var c := contents;
      TakeFromRun(prev, cur, n, k);
      AgreesWithoutBlock(c, k, n, refs, MarkPages(refs, first, n), first, freeRam, nextPaddr);
    }

    /** The page a run starts at. */
    lemma RunFirst(k: nat) returns (first: nat)
      requires LayoutOk() && FreeOk() && k < |contents|
      ensures contents[k].base == Page(freeRam, first) && contents[k].End() <= nextPaddr
      ensures first + contents[k].pages <= used && used <= managed
    {
      PageAligned(freeFrame, used);
      RunInRange(contents, k, freeRam, nextPaddr);
      first := PageOf(freeFrame, contents[k].base);
    }

    /** The pages at nextPaddr, if they end at or below the metadata. */
    method AllocFresh(n: nat) returns (paddr: nat, ghost first: nat)
      requires Valid() && 0 < n && SizeOk(nextPaddr, metaTop, n)
      modifies this`nextPaddr, this`used, this`refs, ram
      ensures Valid()
      ensures paddr == 0 <==> metaTop < old(nextPaddr) + Bytes(n)
      ensures paddr == 0 ==> refs == old(refs) && ram.frames == old(ram.frames)
      ensures paddr == 0 ==> contents == old(contents) && nextPaddr == old(nextPaddr)
      ensures paddr != 0 ==> paddr == Page(freeRam, first) && first + n <= managed && paddr + Bytes(n) <= nextPaddr
      ensures paddr != 0 ==> paddr == old(nextPaddr) && nextPaddr == paddr + Bytes(n)
      ensures paddr != 0 ==> Marked(old(refs), refs, first, n)
      ensures paddr != 0 ==> Cleared(old(ram.frames), ram.frames, freeFrame + first, n)
    {
      hide ListsOk, LayoutOk, Agrees;
      paddr, first := nextPaddr, used;
      NextIsPage();
      var fits := BlockFits(n);
      if !fits {
        return 0, 0;
      }
      Bump(n);
      HandOut(paddr, first, n);
    }

    lemma NextIsPage()
      requires LayoutOk()
      ensures nextPaddr == Page(freeRam, used) && nextPaddr > 0 && freeRam > 0
    {}

    /** The overflow and out-of-memory test, in 32-bit arithmetic. */
    method BlockFits(n: nat) returns (fits: bool)
      requires LayoutOk() && SizeOk(nextPaddr, metaTop, n)
      ensures fits <==> nextPaddr + Bytes(n) <= metaTop
    {
      BumpTest(nextPaddr, metaTop, n);
      fits := !BumpFails(nextPaddr, metaTop, n);
    }

    method Bump(n: nat)
      requires LayoutOk() && FreeOk() && nextPaddr + Bytes(n) <= metaTop
      modifies this`nextPaddr, this`used
      ensures LayoutOk() && used == old(used) + n && used <= managed && nextPaddr == Page(freeRam, used)
      ensures nextPaddr == old(nextPaddr) + Bytes(n)
      ensures Agrees(contents, MarkPages(refs, old(used), n), freeRam, nextPaddr)
      ensures Marked(refs, MarkPages(refs, old(used), n), old(used), n)
    {
      NewNextExact(nextPaddr, metaTop, n);
      AgreesAfterBump(contents, refs, MarkPages(refs, used, n), used, n, freeFrame, freeRam, nextPaddr);
      nextPaddr := NewNext(nextPaddr, n);
      used := used + n;
    }

    ghost function Slots(nodes: seq<PageRun>): seq<nat> {
      seq(|nodes|, i requires 0 <= i < |nodes| => nodes[i].slot)
    }

    lemma NothingCarved()
      requires ListsOk() && carved == []
      ensures freeMetaNodes == null
    {}

    /** Every node ever carved is on exactly one of the two lists. */
    lemma NodeOnExactlyOneList(k: nat)
      requires Valid() && k < |carved|
      ensures carved[k] in runs <==> carved[k] !in metas
    {
      hide Says, LayoutOk, Agrees, NodeAt;
      var slots := Slots(runs) + Slots(metas);
      forall i, j | 0 <= i < j < |slots| ensures slots[i] != slots[j] {
        var a := if i < |runs| then runs[i] else metas[i - |runs|];
        var b := if j < |runs| then runs[j] else metas[j - |runs|];
        assert carved[slots[i]] == a && carved[slots[j]] == b;
        assert i < |runs| ==> runs[i] in runs;
        assert j >= |runs| ==> metas[j - |runs|] in metas;
      }
      Pigeonhole(slots, |carved|, k);
      var i :| 0 <= i < |slots| && slots[i] == k;
      assert carved[k] == if i < |runs| then runs[i] else metas[i - |runs|];
    }

    /** The nodes lie above every page handed out, below the counts, and apart. */
    lemma NodesApart(k: nat, l: nat, page: nat)
      requires Valid() && k < l < |carved| && page < managed && refs[page] > 0
      ensures carved[l].addr + 12 <= carved[k].addr && carved[k].addr + 12 <= refTop
      ensures Page(freeRam, page) + 4096 <= carved[l].addr
    {
      assert carved[k].addr == refTop - NodeBytes(k + 1);
      assert carved[l].addr == refTop - NodeBytes(l + 1);
    }
  }

  /** All memory handed out: with 2048 pages the counts fill one page, and when the other
      2047 are in use there is no room for a list node. */
  method FillMemory(ram: Ram) returns (a: PageAllocator)
    modifies ram
    ensures fresh(a) && a.repr == {} && a.Valid() && a.NoNode() && a.freeRam == 4096 && a.managed == |a.refs| == 2048
    ensures !a.leakWarned
    ensures forall i | 0 <= i < 2047 :: a.refs[i] == 1
  {
    hide PageAllocator.LayoutOk, Agrees, FitIndex, Cleared;
    a := new PageAllocator(ram, 1, 2048);
    FitNothing(2047);
    assert RefTop(4096, 2048) == 8388608;
    var paddr, first := a.AllocPagesTry(2047);
    assert first == 0;
    a.NothingCarved();
  }

  lemma FitNothing(n: nat)
    ensures FitIndex([], n) == 0
  {}

  /** A state in which a page is lost: it is freed, and its count stays. */
  method PageIsLost(ram: Ram) returns (a: PageAllocator, panicked: bool, ghost before: Moment, ghost warned: bool)
    modifies ram
    ensures |before.refs| > 0 && before.refs[0] == 1 && before.noNode && !warned
    ensures !panicked && a.Valid() && a.freeRam == 4096 && |a.refs| > 0 && a.refs[0] == 1 && a.leakWarned
    ensures Dropping(before, Moment(a.refs, a.NoNode()), 0, a.freeRam, a.nextPaddr)
  {
    hide PageAllocator.ListsOk, PageAllocator.LayoutOk, Agrees;
    ghost var moments;
    a := FillMemory(ram);
    before, warned := Moment(a.refs, a.NoNode()), a.leakWarned;
    panicked, moments := a.FreePages(4096, 1);
    assert Dropping(moments[0], moments[1], 0, a.freeRam, a.nextPaddr);
  }
}
