/** The free list of the page allocator as a value: a sequence of runs of free
    pages in address order, and what freeing a page, taking pages from the front
    of a run and merging neighbours do to the set of pages it covers. */
module FreeRuns {
  import opened Common

  /** The size of n pages. */
  function Bytes(n: nat): nat { 4096 * n }

  datatype Run = Run(base: nat, pages: nat) {
    function End(): nat { base + Bytes(pages) }
    predicate Has(a: nat) { base <= a < End() }
    predicate Ok() { pages > 0 && Aligned(base) }
  }

  predicate Aligned(a: nat) { a % 4096 == 0 }

  ghost predicate Before(s: seq<Run>, i: nat)
    requires 0 < i < |s|
  {
    s[i - 1].End() <= s[i].base
  }

  ghost predicate Apart(s: seq<Run>, i: nat)
    requires 0 < i < |s|
  {
    s[i - 1].End() < s[i].base
  }

  /** Non-empty, page-aligned runs in address order; neighbours may touch. */
  ghost predicate Ordered(s: seq<Run>) {
    && (forall i | 0 <= i < |s| :: s[i].Ok())
    && (forall i | 0 < i < |s| :: Before(s, i))
  }

  /** Ordered, and no two runs touch. */
  ghost predicate Canonical(s: seq<Run>) {
    && (forall i | 0 <= i < |s| :: s[i].Ok())
    && (forall i | 0 < i < |s| :: Apart(s, i))
  }

  lemma CanonicalIsOrdered(s: seq<Run>)
    requires Canonical(s)
    ensures Ordered(s)
  {
    forall i | 0 < i < |s| ensures Before(s, i) { assert Apart(s, i); }
  }

  /** The page at address a is free. */
  ghost predicate Covers(s: seq<Run>, a: nat) {
    exists i :: 0 <= i < |s| && s[i].Has(a)
  }

  lemma {:induction false} InOrder(s: seq<Run>, i: nat, j: nat)
    requires Ordered(s) && i < j < |s|
    ensures s[i].End() <= s[j].base
    decreases j
  {
    assert Before(s, j);
    if i < j - 1 { InOrder(s, i, j - 1); }
  }

  /** No page is in two runs. */
  lemma CoveredOnce(s: seq<Run>, a: nat, i: nat, j: nat)
    requires Ordered(s)
    requires i < |s| && j < |s| && s[i].Has(a) && s[j].Has(a)
    ensures i == j
  {
    if i < j { InOrder(s, i, j); } else if j < i { InOrder(s, j, i); }
  }

  // ---------------------------------------------------------------------
  // Concatenation.

  lemma CoversConcat(s: seq<Run>, t: seq<Run>, a: nat)
    ensures Covers(s + t, a) <==> Covers(s, a) || Covers(t, a)
  {
    if Covers(s, a) {
      var i :| 0 <= i < |s| && s[i].Has(a);
      assert (s + t)[i].Has(a);
    }
    if Covers(t, a) {
      var i :| 0 <= i < |t| && t[i].Has(a);
      assert (s + t)[|s| + i].Has(a);
    }
    if Covers(s + t, a) {
      var i :| 0 <= i < |s + t| && (s + t)[i].Has(a);
      if i < |s| { assert s[i].Has(a); } else { assert t[i - |s|].Has(a); }
    }
  }

  lemma CoversOne(r: Run, a: nat)
    ensures Covers([r], a) <==> r.Has(a)
  {
    assert [r][0] == r;
  }

  lemma SliceOne(s: seq<Run>, i: nat)
    requires i < |s|
    ensures s[i..i + 1] == [s[i]]
  {}

  lemma SliceTwo(s: seq<Run>, i: nat)
    requires i + 1 < |s|
    ensures s[i..i + 2] == [s[i]] + [s[i + 1]]
  {
    assert (s[i..i + 2])[0] == s[i] && (s[i..i + 2])[1] == s[i + 1];
  }

  lemma CanonicalConcat(s: seq<Run>, t: seq<Run>)
    requires Canonical(s) && Canonical(t)
    requires |s| > 0 && |t| > 0 ==> s[|s| - 1].End() < t[0].base
    ensures Canonical(s + t)
  {
    var u := s + t;
    forall i | 0 < i < |u| ensures Apart(u, i) {
      if i < |s| { assert Apart(s, i); } else if i > |s| { assert Apart(t, i - |s|); }
    }
  }

  lemma CanonicalTake(s: seq<Run>, n: nat)
    requires Canonical(s) && n <= |s|
    ensures Canonical(s[..n])
  {
    forall i | 0 < i < n ensures Apart(s[..n], i) { assert Apart(s, i); }
  }

  lemma CanonicalDrop(s: seq<Run>, n: nat)
    requires Canonical(s) && n <= |s|
    ensures Canonical(s[n..])
  {
    forall i | 0 < i < |s| - n ensures Apart(s[n..], i) { assert Apart(s, n + i); }
  }

  lemma OrderedConcat(s: seq<Run>, t: seq<Run>)
    requires Ordered(s) && Ordered(t)
    requires |s| > 0 && |t| > 0 ==> s[|s| - 1].End() <= t[0].base
    ensures Ordered(s + t)
  {
    var u := s + t;
    forall i | 0 < i < |u| ensures Before(u, i) {
      if i < |s| { assert Before(s, i); } else if i > |s| { assert Before(t, i - |s|); }
    }
  }

  lemma OrderedTake(s: seq<Run>, n: nat)
    requires Ordered(s) && n <= |s|
    ensures Ordered(s[..n])
  {
    forall i | 0 < i < n ensures Before(s[..n], i) { assert Before(s, i); }
  }

  lemma OrderedDrop(s: seq<Run>, n: nat)
    requires Ordered(s) && n <= |s|
    ensures Ordered(s[n..])
  {
    forall i | 0 < i < |s| - n ensures Before(s[n..], i) { assert Before(s, n + i); }
  }

  // ---------------------------------------------------------------------
  // The canonical list of a set of pages is unique.

  lemma NothingBelow(s: seq<Run>, a: nat)
    requires Ordered(s) && |s| > 0 && a < s[0].base
    ensures !Covers(s, a)
  {
    forall i | 0 <= i < |s| ensures !s[i].Has(a) {
      if i > 0 { InOrder(s, 0, i); }
    }
  }

  lemma EndNotCovered(s: seq<Run>)
    requires Canonical(s) && |s| > 0
    ensures !Covers(s, s[0].End()) && Aligned(s[0].End())
  {
    CanonicalIsOrdered(s);
    forall i | 0 <= i < |s| ensures !s[i].Has(s[0].End()) {
      if i >= 1 { assert Apart(s, 1); }
      if i > 1 { InOrder(s, 1, i); }
    }
  }

  lemma FrontCovered(s: seq<Run>)
    requires |s| > 0 && s[0].Ok()
    ensures Covers(s, s[0].base) && Aligned(s[0].base)
  {
    assert s[0].Has(s[0].base);
  }

  lemma FirstBaseDetermined(s: seq<Run>, t: seq<Run>)
    requires Canonical(s) && Canonical(t) && |s| > 0 && |t| > 0
    requires forall a: nat | Aligned(a) :: Covers(s, a) <==> Covers(t, a)
    ensures s[0].base <= t[0].base
  {
    CanonicalIsOrdered(s);
    assert t[0].Has(t[0].base);
    assert Covers(s, t[0].base);
    if t[0].base < s[0].base {
      NothingBelow(s, t[0].base);
    }
  }

  lemma FirstLengthDetermined(s: seq<Run>, t: seq<Run>)
    requires Canonical(s) && Canonical(t) && |s| > 0 && |t| > 0 && s[0].base == t[0].base
    requires forall a: nat | Aligned(a) :: Covers(s, a) <==> Covers(t, a)
    ensures s[0].pages <= t[0].pages
  {
    EndNotCovered(t);
    assert !Covers(s, t[0].End());
    assert !s[0].Has(t[0].End());
  }

  lemma TailCovers(s: seq<Run>, a: nat)
    requires Ordered(s) && |s| > 0
    ensures Covers(s[1..], a) <==> Covers(s, a) && !s[0].Has(a)
  {
    assert s == [s[0]] + s[1..];
    CoversConcat([s[0]], s[1..], a);
    CoversOne(s[0], a);
    if Covers(s[1..], a) {
      var i :| 0 <= i < |s[1..]| && s[1..][i].Has(a);
      InOrder(s, 0, i + 1);
    }
  }

  lemma TailsAgree(s: seq<Run>, t: seq<Run>)
    requires Canonical(s) && Canonical(t) && |s| > 0 && |t| > 0 && s[0] == t[0]
    requires forall a: nat | Aligned(a) :: Covers(s, a) <==> Covers(t, a)
    ensures Canonical(s[1..]) && Canonical(t[1..])
    ensures forall a: nat | Aligned(a) :: Covers(s[1..], a) <==> Covers(t[1..], a)
  {
    CanonicalIsOrdered(s);
    CanonicalIsOrdered(t);
    CanonicalDrop(s, 1);
    CanonicalDrop(t, 1);
    forall a: nat | Aligned(a) ensures Covers(s[1..], a) <==> Covers(t[1..], a) {
      TailCovers(s, a);
      TailCovers(t, a);
    }
  }

  /** Two canonical lists covering the same pages are the same list, so the list
      is a function of the set of free pages alone. */
  lemma {:induction false} CanonicalUnique(s: seq<Run>, t: seq<Run>)
    requires Canonical(s) && Canonical(t)
    requires forall a: nat | Aligned(a) :: Covers(s, a) <==> Covers(t, a)
    ensures s == t
    decreases |s|
  {
    if |s| == 0 {
      if |t| > 0 { FrontCovered(t); }
    } else if |t| == 0 {
      FrontCovered(s);
    } else {
      FirstBaseDetermined(s, t);
      FirstBaseDetermined(t, s);
      FirstLengthDetermined(s, t);
      FirstLengthDetermined(t, s);
      TailsAgree(s, t);
      CanonicalUnique(s[1..], t[1..]);
      assert s == [s[0]] + s[1..] && t == [t[0]] + t[1..];
    }
  }

  // ---------------------------------------------------------------------
  // Replacing the runs lo..hi by the single run r.

  function Splice(s: seq<Run>, lo: nat, r: seq<Run>, hi: nat): seq<Run>
    requires lo <= hi <= |s|
  {
    s[..lo] + (r + s[hi..])
  }

  lemma SpliceCovers(s: seq<Run>, lo: nat, r: seq<Run>, hi: nat, a: nat)
    requires lo <= hi <= |s|
    ensures Covers(Splice(s, lo, r, hi), a) <==> Covers(s[..lo], a) || Covers(r, a) || Covers(s[hi..], a)
    ensures Covers(s, a) <==> Covers(s[..lo], a) || Covers(s[lo..hi], a) || Covers(s[hi..], a)
  {
    CoversConcat(s[..lo], r + s[hi..], a);
    CoversConcat(r, s[hi..], a);
    CoversConcat(s[..lo], s[lo..hi] + s[hi..], a);
    CoversConcat(s[lo..hi], s[hi..], a);
    assert s == s[..lo] + (s[lo..hi] + s[hi..]);
  }

  lemma SpliceCanonical(s: seq<Run>, lo: nat, r: Run, hi: nat)
    requires Canonical(s) && lo <= hi <= |s| && r.Ok()
    requires lo > 0 ==> s[lo - 1].End() < r.base
    requires hi < |s| ==> r.End() < s[hi].base
    ensures Canonical(Splice(s, lo, [r], hi))
  {
    CanonicalTake(s, lo);
    CanonicalDrop(s, hi);
    CanonicalConcat([r], s[hi..]);
    CanonicalConcat(s[..lo], [r] + s[hi..]);
  }

  // ---------------------------------------------------------------------
  // Freeing one page.

  /** k runs start below a, the others at or above it. */
  ghost predicate SplitsAt(s: seq<Run>, k: nat, a: nat) {
    && k <= |s|
    && (k > 0 ==> s[k - 1].base < a)
    && (k < |s| ==> a <= s[k].base)
  }

  /** The list after page a is freed: it joins the run before it, the run after
      it, both, or becomes a run of its own. */
  function Insert(s: seq<Run>, k: nat, a: nat): seq<Run>
    requires k <= |s|
  {
    var left := k > 0 && s[k - 1].End() == a;
    var right := k < |s| && a + 4096 == s[k].base;
    var base := if left then s[k - 1].base else a;
    var pages := (if left then s[k - 1].pages else 0) + 1 + (if right then s[k].pages else 0);
    Splice(s, if left then k - 1 else k, [Run(base, pages)], if right then k + 1 else k)
  }

  /** A page that is not covered lies between its neighbours without touching
      their pages: the overlap panics of the source cannot be reached. */
  lemma Gap(s: seq<Run>, k: nat, a: nat)
    requires Ordered(s) && Aligned(a) && SplitsAt(s, k, a) && !Covers(s, a)
    ensures k > 0 ==> s[k - 1].End() <= a
    ensures k < |s| ==> a + 4096 <= s[k].base
  {
    assert k > 0 ==> !s[k - 1].Has(a);
    assert k < |s| ==> !s[k].Has(a) && s[k].Ok();
  }

  /** Page a touches the run before or after place k. */
  predicate Near(s: seq<Run>, k: nat, a: nat)
    requires k <= |s|
  {
    (k > 0 && s[k - 1].End() == a) || (k < |s| && a + 4096 == s[k].base)
  }

  /** The page before or the page after page a is free. */
  ghost predicate NextToFree(s: seq<Run>, a: nat) {
    Covers(s, a + 4096) || (a >= 4096 && Covers(s, a - 4096))
  }

  /** A page touches a run exactly when a neighbour is free. */
  lemma NearIsNextToFree(s: seq<Run>, k: nat, a: nat)
    requires Canonical(s) && Aligned(a) && SplitsAt(s, k, a) && !Covers(s, a)
    ensures Near(s, k, a) <==> NextToFree(s, a)
  {
    CanonicalIsOrdered(s);
    Gap(s, k, a);
    if k > 0 && s[k - 1].End() == a {
      assert s[k - 1].Ok() && s[k - 1].Has(a - 4096);
    }
    if k < |s| && a + 4096 == s[k].base {
      assert s[k].Ok() && s[k].Has(a + 4096);
    }
    forall i | 0 <= i < |s| && s[i].Has(a + 4096) ensures Near(s, k, a) { AfterIsNear(s, k, a, i); }
    forall i | 0 <= i < |s| && a >= 4096 && s[i].Has(a - 4096) ensures Near(s, k, a) { BeforeIsNear(s, k, a, i); }
  }

  lemma AfterIsNear(s: seq<Run>, k: nat, a: nat, i: nat)
    requires Ordered(s) && SplitsAt(s, k, a) && i < |s| && s[i].Has(a + 4096)
    requires (k > 0 ==> s[k - 1].End() <= a) && (k < |s| ==> a + 4096 <= s[k].base)
    ensures k < |s| && a + 4096 == s[k].base
  {
    if i + 1 < k { InOrder(s, i, k - 1); }
    if k < i { InOrder(s, k, i); }
  }

  lemma BeforeIsNear(s: seq<Run>, k: nat, a: nat, i: nat)
    requires Ordered(s) && Aligned(a) && SplitsAt(s, k, a) && i < |s| && a >= 4096 && s[i].Has(a - 4096)
    requires (k > 0 ==> s[k - 1].End() <= a) && (k < |s| ==> a + 4096 <= s[k].base)
    ensures k > 0 && s[k - 1].End() == a
  {
    assert s[i].Ok();
    if k < i { InOrder(s, k, i); }
    if i + 1 < k { InOrder(s, i, k - 1); }
  }

  lemma InsertCanonical(s: seq<Run>, k: nat, a: nat)
    requires Canonical(s) && Aligned(a) && SplitsAt(s, k, a) && !Covers(s, a)
    ensures Canonical(Insert(s, k, a))
  {
    CanonicalIsOrdered(s);
    Gap(s, k, a);
    var left := k > 0 && s[k - 1].End() == a;
    var right := k < |s| && a + 4096 == s[k].base;
    var base := if left then s[k - 1].base else a;
    var pages := (if left then s[k - 1].pages else 0) + 1 + (if right then s[k].pages else 0);
    var lo, hi := if left then k - 1 else k, if right then k + 1 else k;
    assert left ==> s[k - 1].Ok();
    assert k > 1 ==> Apart(s, k - 1);
    assert right ==> s[k].Ok();
    assert k + 1 < |s| ==> Apart(s, k + 1);
    SpliceCanonical(s, lo, Run(base, pages), hi);
  }

  /** Freeing an uncovered page adds exactly that page and keeps the list canonical. */
  lemma InsertFrees(s: seq<Run>, k: nat, a: nat)
    requires Canonical(s) && Aligned(a) && SplitsAt(s, k, a) && !Covers(s, a)
    ensures Canonical(Insert(s, k, a))
    ensures forall b: nat | Aligned(b) :: Covers(Insert(s, k, a), b) <==> Covers(s, b) || b == a
  {
    InsertCanonical(s, k, a);
    CanonicalIsOrdered(s);
    Gap(s, k, a);
    forall b: nat | Aligned(b) ensures Covers(Insert(s, k, a), b) <==> Covers(s, b) || b == a {
      InsertCovers(s, k, a, b);
    }
  }

  lemma InsertCovers(s: seq<Run>, k: nat, a: nat, b: nat)
    requires k <= |s| && Aligned(a) && Aligned(b)
    ensures Covers(Insert(s, k, a), b) <==> Covers(s, b) || b == a
  {
    var left := k > 0 && s[k - 1].End() == a;
    var right := k < |s| && a + 4096 == s[k].base;
    var base := if left then s[k - 1].base else a;
    var pages := (if left then s[k - 1].pages else 0) + 1 + (if right then s[k].pages else 0);
    var lo, hi := if left then k - 1 else k, if right then k + 1 else k;
    SpliceCovers(s, lo, [Run(base, pages)], hi, b);
    CoversOne(Run(base, pages), b);
    if left && right {
      SliceTwo(s, k - 1);
      CoversConcat([s[k - 1]], [s[k]], b);
      CoversOne(s[k - 1], b);
      CoversOne(s[k], b);
    } else if left {
      SliceOne(s, k - 1);
      CoversOne(s[k - 1], b);
    } else if right {
      SliceOne(s, k);
      CoversOne(s[k], b);
    } else {
      assert s[lo..hi] == [];
    }
  }

  function Inserted<T>(s: seq<T>, k: nat, x: T): seq<T>
    requires k <= |s|
  {
    s[..k] + ([x] + s[k..])
  }

  // The in-place edits that realise the four cases of Insert.

  lemma InsertByMerge(s: seq<Run>, k: nat, a: nat)
    requires k + 1 < |s| && s[k].End() == a && a + 4096 == s[k + 1].base
    ensures Insert(s, k + 1, a) == Merge(s[k := Run(s[k].base, s[k].pages + 1)], k)
  {}

  lemma InsertLeft(s: seq<Run>, k: nat, a: nat)
    requires 0 < k <= |s| && s[k - 1].End() == a && (k < |s| ==> a + 4096 != s[k].base)
    ensures Insert(s, k, a) == s[k - 1 := Run(s[k - 1].base, s[k - 1].pages + 1)]
  {}

  lemma InsertRight(s: seq<Run>, k: nat, a: nat)
    requires k < |s| && a + 4096 == s[k].base && (k > 0 ==> s[k - 1].End() != a)
    ensures Insert(s, k, a) == s[k := Run(a, s[k].pages + 1)]
  {}

  lemma InsertNew(s: seq<Run>, k: nat, a: nat)
    requires k <= |s| && (k > 0 ==> s[k - 1].End() != a) && (k < |s| ==> a + 4096 != s[k].base)
    ensures Insert(s, k, a) == Inserted(s, k, Run(a, 1))
  {}

  // ---------------------------------------------------------------------
  // Taking n pages from the front of run i.

  function Take(s: seq<Run>, i: nat, n: nat): seq<Run>
    requires i < |s| && n <= s[i].pages
  {
    Splice(s, i, if s[i].pages == n then [] else [Run(s[i].base + Bytes(n), s[i].pages - n)], i + 1)
  }

  lemma TakeByRemoval(s: seq<Run>, i: nat, t: seq<Run>)
    requires i < |s| && t == Removed(s[i := Run(s[i].End(), 0)], i)
    ensures t == Take(s, i, s[i].pages)
  {}

  lemma TakeByEdit(s: seq<Run>, i: nat, n: nat)
    requires i < |s| && n < s[i].pages
    ensures s[i := Run(s[i].base + Bytes(n), s[i].pages - n)] == Take(s, i, n)
  {}

  lemma TakeWhole(s: seq<Run>, i: nat)
    requires Canonical(s) && i < |s|
    ensures Canonical(Take(s, i, s[i].pages))
  {
    assert s[i].Ok();
    assert i > 0 ==> Apart(s, i);
    assert i + 1 < |s| ==> Apart(s, i + 1);
    CanonicalTake(s, i);
    CanonicalDrop(s, i + 1);
    CanonicalConcat(s[..i], s[i + 1..]);
    assert [] + s[i + 1..] == s[i + 1..];
  }

  lemma TakeCanonical(s: seq<Run>, i: nat, n: nat)
    requires Canonical(s) && i < |s| && 0 < n <= s[i].pages
    ensures Canonical(Take(s, i, n))
  {
    assert s[i].Ok();
    assert i > 0 ==> Apart(s, i);
    assert i + 1 < |s| ==> Apart(s, i + 1);
    if s[i].pages == n {
      TakeWhole(s, i);
    } else {
      SpliceCanonical(s, i, Run(s[i].base + Bytes(n), s[i].pages - n), i + 1);
    }
  }

  /** Allocating from a run removes exactly the n pages handed out. */
  lemma TakeAllocates(s: seq<Run>, i: nat, n: nat, b: nat)
    requires Canonical(s) && i < |s| && 0 < n <= s[i].pages
    ensures Covers(Take(s, i, n), b) <==> Covers(s, b) && !(s[i].base <= b < s[i].base + Bytes(n))
    ensures s[i].base <= b < s[i].base + Bytes(n) ==> Covers(s, b)
  {
    var rest := if s[i].pages == n then [] else [Run(s[i].base + Bytes(n), s[i].pages - n)];
    SpliceCovers(s, i, rest, i + 1, b);
    SliceOne(s, i);
    CoversOne(s[i], b);
    if s[i].pages != n { CoversOne(rest[0], b); }
    CanonicalIsOrdered(s);
    if s[i].Has(b) {
      if Covers(s[..i], b) {
        var j :| 0 <= j < i && s[..i][j].Has(b);
        CoveredOnce(s, b, i, j);
      }
      if Covers(s[i + 1..], b) {
        var j :| 0 <= j < |s| - i - 1 && s[i + 1..][j].Has(b);
        CoveredOnce(s, b, i, i + 1 + j);
      }
    }
  }

  // ---------------------------------------------------------------------
  // Merging two neighbours that touch.

  function Merge(s: seq<Run>, i: nat): seq<Run>
    requires i + 1 < |s|
  {
    Splice(s, i, [Run(s[i].base, s[i].pages + s[i + 1].pages)], i + 2)
  }

  lemma MergeByEdits(s: seq<Run>, i: nat)
    requires i + 1 < |s|
    ensures Merge(s, i) == Removed(s[i := Run(s[i].base, s[i].pages + s[i + 1].pages)], i + 1)
  {}

  lemma MergeKeepsApart(s: seq<Run>, k: nat)
    requires k + 1 < |s| && forall i | 0 < i <= k :: Apart(s, i)
    ensures |Merge(s, k)| == |s| - 1 && forall i | 0 < i <= k :: Apart(Merge(s, k), i)
  {
    forall i | 0 < i <= k ensures Apart(Merge(s, k), i) { assert Apart(s, i); }
  }

  /** Coalescing one pair changes no page. */
  lemma MergeKeepsPages(s: seq<Run>, i: nat)
    requires Ordered(s) && i + 1 < |s| && s[i].End() == s[i + 1].base
    ensures Ordered(Merge(s, i))
    ensures forall b: nat :: Covers(Merge(s, i), b) <==> Covers(s, b)
  {
    var r := Run(s[i].base, s[i].pages + s[i + 1].pages);
    assert s[i].Ok() && s[i + 1].Ok();
    assert i > 0 ==> Before(s, i);
    assert i + 2 < |s| ==> Before(s, i + 2);
    OrderedTake(s, i);
    OrderedDrop(s, i + 2);
    OrderedConcat([r], s[i + 2..]);
    OrderedConcat(s[..i], [r] + s[i + 2..]);
    forall b: nat ensures Covers(Merge(s, i), b) <==> Covers(s, b) {
      SpliceCovers(s, i, [r], i + 2, b);
      SliceTwo(s, i);
      CoversConcat([s[i]], [s[i + 1]], b);
      CoversOne(s[i], b);
      CoversOne(s[i + 1], b);
      CoversOne(r, b);
    }
  }
}
