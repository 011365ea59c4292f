/** Sv32 page tables in physical memory: the PTE layout of section 4.3 of the RISC-V
    Privileged Architecture, the two-level walk of vm_query_user_page, and what one
    write to a table does to every translation. */
module Sv32 {
  import opened Common
  import opened Phys

  /** The permission bits of a leaf. */
  datatype Perm = Perm(r: bool, w: bool, x: bool, u: bool) {
    predicate Leaf() { r || w || x }
  }

  /** The fields of a page-table entry that the kernel reads or writes. */
  datatype Pte = Pte(ppn: nat, v: bool, perm: Perm, a: bool, d: bool) {
    predicate IsLeaf() { v && perm.Leaf() }
    predicate IsTable() { v && !perm.Leaf() }
    function Frame(): nat { ppn % FRAMES }        // (pte >> 10) << 12 in 32 bits
  }

  /** Where a page is mapped, and how. */
  datatype Leaf = Leaf(frame: nat, perm: Perm)

  /** The number whose lowest bit is b and whose other bits are n. */
  function Push(b: bool, n: nat): nat { 2 * n + if b then 1 else 0 }

  function Low(w: nat): bool { w % 2 == 1 }

  lemma PushPop(b: bool, n: nat)
    ensures Low(Push(b, n)) == b && Push(b, n) / 2 == n
  {}

  /** Bits 0 to 9 are V R W X U G A D and two for software; the PPN is above them. */
  function Encode(p: Pte): Word
    requires p.ppn < FRAMES
  {
    Push(p.v, Push(p.perm.r, Push(p.perm.w, Push(p.perm.x, Push(p.perm.u,
      Push(false, Push(p.a, Push(p.d, Push(false, Push(false, p.ppn))))))))))
  }

  function Decode(w: Word): Pte {
    var r := w / 2;
    var wr := r / 2;
    var x := wr / 2;
    var u := x / 2;
    var g := u / 2;
    var a := g / 2;
    var d := a / 2;
    Pte(d / 2 / 2 / 2, Low(w), Perm(Low(r), Low(wr), Low(x), Low(u)), Low(a), Low(d))
  }

  /** Reading an entry back gives the fields it was written with. */
  lemma DecodeEncode(p: Pte)
    requires p.ppn < FRAMES
    ensures Decode(Encode(p)) == p
  {
    var s0 := Push(false, p.ppn);
    var s1 := Push(false, s0);
    var d := Push(p.d, s1);
    var a := Push(p.a, d);
    var g := Push(false, a);
    var u := Push(p.perm.u, g);
    var x := Push(p.perm.x, u);
    var wr := Push(p.perm.w, x);
    var r := Push(p.perm.r, wr);
    PushPop(false, p.ppn);
    PushPop(false, s0);
    PushPop(p.d, s1);
    PushPop(p.a, d);
    PushPop(false, a);
    PushPop(p.perm.u, g);
    PushPop(p.perm.x, u);
    PushPop(p.perm.w, x);
    PushPop(p.perm.r, wr);
    PushPop(p.v, r);
  }

  /** A cleared entry is not valid. */
  lemma DecodeZero()
    ensures Decode(0) == Pte(0, false, Perm(false, false, false, false), false, false)
  {}

  /** pte_from_pa: always valid, accessed and dirty. */
  function PteFromPa(pa: nat, perm: Perm): Word
    requires pa < 0x1_0000_0000
  {
    Encode(Pte(pa / 4096, true, perm, true, true))
  }

  /** The entry that points at a second-level table. */
  function TablePte(pa: nat): Word
    requires pa < 0x1_0000_0000
  {
    Encode(Pte(pa / 4096, true, Perm(false, false, false, false), false, false))
  }

  /** What a second-level entry maps. */
  function LeafOf(w: Word): Option<Leaf> {
    var p := Decode(w);
    if p.IsLeaf() then Some(Leaf(p.Frame(), p.perm)) else None
  }

  /** Frame i of the 4 MiB page a first-level leaf maps. */
  function SuperFrame(p: Pte, i: nat): nat
    requires i < WORDS
  {
    p.Frame() / 1024 * 1024 + i
  }

  const PAGES: nat := 0x10_0000

  /** A page number is ten bits of first-level and ten bits of second-level index. */
  function Vpn1(vpn: nat): nat { vpn / 1024 }
  function Vpn0(vpn: nat): (i: nat) ensures i < WORDS { vpn % 1024 }

  lemma VpnParts(v: nat, w: nat)
    requires Vpn1(v) == Vpn1(w) && Vpn0(v) == Vpn0(w)
    ensures v == w
  {}

  /** The walk of vm_query_user_page for page vpn. */
  function Walk(m: Memory, root: nat, vpn: nat): Option<Leaf>
    requires root < FRAMES && vpn < PAGES
  {
    var p1 := Decode(m[root][Vpn1(vpn)]);
    if !p1.v then None
    else if p1.perm.Leaf() then Some(Leaf(SuperFrame(p1, Vpn0(vpn)), p1.perm))
    else LeafOf(m[p1.Frame()][Vpn0(vpn)])
  }

  /** The whole translation of one root. */
  ghost function Space(m: Memory, root: nat): map<nat, Leaf>
    requires root < FRAMES
  {
    map v: nat | v < PAGES && Walk(m, root, v).Some? :: Walk(m, root, v).value
  }

  /** Page vpn goes through a second-level table. */
  predicate HasTable(m: Memory, root: nat, vpn: nat)
    requires root < FRAMES && vpn < PAGES
  {
    Decode(m[root][Vpn1(vpn)]).IsTable()
  }

  /** Each second-level table belongs to one entry of one root, and every table
      entry of a root points at its own. */
  ghost predicate TablesOk(m: Memory, roots: set<nat>, own: map<nat, (nat, nat)>) {
    && (forall r | r in roots :: r < FRAMES && r !in own)
    && (forall t | t in own :: t < FRAMES && own[t].0 in roots && own[t].1 < WORDS)
    && (forall t | t in own :: Decode(m[own[t].0][own[t].1]).IsTable() && Decode(m[own[t].0][own[t].1]).ppn == t)
    && (forall r, i | r in roots && 0 <= i < WORDS && Decode(m[r][i]).IsTable() ::
          var t := Decode(m[r][i]).ppn; t in own && own[t] == (r, i))
  }

  /** Writes outside the tables change no translation. */
  lemma DataWriteKeepsSpaces(m: Memory, m': Memory, roots: set<nat>, own: map<nat, (nat, nat)>)
    requires TablesOk(m, roots, own)
    requires forall f | 0 <= f < FRAMES && (f in roots || f in own) :: m'[f] == m[f]
    ensures TablesOk(m', roots, own)
    ensures forall r | r in roots :: Space(m', r) == Space(m, r)
    ensures forall r, v | r in roots && 0 <= v < PAGES :: HasTable(m', r, v) == HasTable(m, r, v)
  {
    forall r, v | r in roots && 0 <= v < PAGES ensures Walk(m', r, v) == Walk(m, r, v) {
      var p1 := Decode(m[r][Vpn1(v)]);
      if p1.IsTable() { assert p1.ppn in own; }
    }
    forall r | r in roots ensures Space(m', r) == Space(m, r) {}
  }

  /** Space updated at one page. */
  function Mapped(s: map<nat, Leaf>, vpn: nat, leaf: Option<Leaf>): map<nat, Leaf> {
    if leaf.Some? then s[vpn := leaf.value] else s - {vpn}
  }

  lemma WalkAfterTableWrite(m: Memory, roots: set<nat>, own: map<nat, (nat, nat)>, t: nat, vpn: nat, w: Word, r: nat,
                            v: nat)
    requires TablesOk(m, roots, own) && t in own && vpn < PAGES && own[t].1 == Vpn1(vpn)
    requires r in roots && v < PAGES
    ensures Walk(m[t := m[t][Vpn0(vpn) := w]], r, v)
            == if r == own[t].0 && v == vpn then LeafOf(w) else Walk(m, r, v)
  {
    var m' := m[t := m[t][Vpn0(vpn) := w]];
    assert m'[r] == m[r];
    var p1 := Decode(m[r][Vpn1(v)]);
    if p1.IsTable() {
      assert own[p1.ppn] == (r, Vpn1(v)) && p1.Frame() == p1.ppn;
      if p1.ppn == t && Vpn0(v) == Vpn0(vpn) {
        VpnParts(v, vpn);
      }
    }
  }

  lemma SpaceSame(m: Memory, m': Memory, root: nat)
    requires root < FRAMES && forall v | 0 <= v < PAGES :: Walk(m', root, v) == Walk(m, root, v)
    ensures Space(m', root) == Space(m, root)
  {}

  lemma SpacePoint(m: Memory, m': Memory, root: nat, vpn: nat, leaf: Option<Leaf>)
    requires root < FRAMES && vpn < PAGES && Walk(m', root, vpn) == leaf
    requires forall v | 0 <= v < PAGES && v != vpn :: Walk(m', root, v) == Walk(m, root, v)
    ensures Space(m', root) == Mapped(Space(m, root), vpn, leaf)
  {
    var s := Space(m', root);
    var t := Mapped(Space(m, root), vpn, leaf);
    forall v ensures v in s <==> v in t {
      if 0 <= v < PAGES && v != vpn { assert Walk(m', root, v) == Walk(m, root, v); }
    }
    forall v | v in s ensures s[v] == t[v] {
      if v != vpn { assert Walk(m', root, v) == Walk(m, root, v); }
    }
  }

  /** One write to a second-level table changes one page of one root. */
  lemma TableWriteIsPointUpdate(m: Memory, roots: set<nat>, own: map<nat, (nat, nat)>, t: nat, vpn: nat, w: Word)
    requires TablesOk(m, roots, own) && t in own && vpn < PAGES && own[t].1 == Vpn1(vpn)
    ensures TablesOk(m[t := m[t][Vpn0(vpn) := w]], roots, own)
    ensures Space(m[t := m[t][Vpn0(vpn) := w]], own[t].0) == Mapped(Space(m, own[t].0), vpn, LeafOf(w))
    ensures forall r | r in roots && r != own[t].0 :: Space(m[t := m[t][Vpn0(vpn) := w]], r) == Space(m, r)
  {
    var m' := m[t := m[t][Vpn0(vpn) := w]];
    assert forall r | r in roots :: m'[r] == m[r];
    forall r, v | r in roots && 0 <= v < PAGES
      ensures Walk(m', r, v) == if r == own[t].0 && v == vpn then LeafOf(w) else Walk(m, r, v)
    {
      WalkAfterTableWrite(m, roots, own, t, vpn, w, r, v);
    }
    SpacePoint(m, m', own[t].0, vpn, LeafOf(w));
    forall r | r in roots && r != own[t].0 ensures Space(m', r) == Space(m, r) {
      SpaceSame(m, m', r);
    }
  }

  lemma LeafOfPte(pa: nat, perm: Perm)
    requires pa < 0x1_0000_0000
    ensures LeafOf(PteFromPa(pa, perm)) == if perm.Leaf() then Some(Leaf(pa / 4096, perm)) else None
  {
    DecodeEncode(Pte(pa / 4096, true, perm, true, true));
  }

  lemma DecodeTablePte(pa: nat)
    requires pa < 0x1_0000_0000
    ensures Decode(TablePte(pa)).IsTable() && Decode(TablePte(pa)).ppn == pa / 4096
  {
    DecodeEncode(Pte(pa / 4096, true, Perm(false, false, false, false), false, false));
  }

  /** Entry i of the table that replaces first-level entry p1. */
  function SplitLeaf(p1: Pte, i: nat): Option<Leaf>
    requires i < WORDS
  {
    if p1.IsLeaf() then Some(Leaf(SuperFrame(p1, i), p1.perm)) else None
  }

  /** Table l0 maps what first-level entry p1 mapped. */
  ghost predicate Splits(l0: Frame, p1: Pte) {
    forall i | 0 <= i < WORDS :: LeafOf(l0[i]) == SplitLeaf(p1, i)
  }

  lemma WalkAfterLink(m: Memory, roots: set<nat>, own: map<nat, (nat, nat)>, t: nat, root: nat, slot: nat,
                      table: Frame, w: Word, r: nat, v: nat)
    requires TablesOk(m, roots, own) && t < FRAMES && t !in roots && t !in own && root in roots && slot < WORDS
    requires !Decode(m[root][slot]).IsTable() && Splits(table, Decode(m[root][slot]))
    requires Decode(w).IsTable() && Decode(w).ppn == t
    requires r in roots && v < PAGES
    ensures Walk(m[t := table][root := m[root][slot := w]], r, v) == Walk(m, r, v)
  {
    hide Decode, Splits;
    var m' := m[t := table][root := m[root][slot := w]];
    if r == root && Vpn1(v) == slot {
      WalkThroughNew(m, m', t, root, table, w, v);
    } else {
      assert m'[r][Vpn1(v)] == m[r][Vpn1(v)];
      WalkElsewhere(m, m', roots, own, t, root, r, v);
    }
  }

  /** Through the new table a page translates as through the entry it replaces. */
  lemma WalkThroughNew(m: Memory, m': Memory, t: nat, root: nat, table: Frame, w: Word, v: nat)
    requires t < FRAMES && root < FRAMES && t != root && v < PAGES
    requires !Decode(m[root][Vpn1(v)]).IsTable() && Splits(table, Decode(m[root][Vpn1(v)]))
    requires Decode(w).IsTable() && Decode(w).ppn == t
    requires m'[t] == table && m'[root][Vpn1(v)] == w
    ensures Walk(m', root, v) == Walk(m, root, v)
  {
    hide Decode;
    assert Decode(w).Frame() == t;
    assert LeafOf(table[Vpn0(v)]) == SplitLeaf(Decode(m[root][Vpn1(v)]), Vpn0(v));
  }

  lemma WalkElsewhere(m: Memory, m': Memory, roots: set<nat>, own: map<nat, (nat, nat)>, t: nat, root: nat, r: nat,
                      v: nat)
    requires TablesOk(m, roots, own) && t !in own && root in roots && r in roots && v < PAGES
    requires m'[r][Vpn1(v)] == m[r][Vpn1(v)]
    requires forall f | 0 <= f < FRAMES && f != t && f != root :: m'[f] == m[f]
    ensures Walk(m', r, v) == Walk(m, r, v)
  {
    hide Decode;
    var p1 := Decode(m[r][Vpn1(v)]);
    if p1.IsTable() {
      assert p1.ppn in own && p1.Frame() == p1.ppn && p1.ppn != root;
      assert m'[p1.ppn] == m[p1.ppn];
    }
  }

  /** Replacing a first-level entry by a table that maps the same pages, 4 MiB leaf
      or not, changes no translation. */
  lemma LinkKeepsSpaces(m: Memory, roots: set<nat>, own: map<nat, (nat, nat)>, t: nat, root: nat, slot: nat,
                        table: Frame, w: Word)
    requires TablesOk(m, roots, own) && t < FRAMES && t !in roots && t !in own && root in roots && slot < WORDS
    requires !Decode(m[root][slot]).IsTable() && Splits(table, Decode(m[root][slot]))
    requires Decode(w).IsTable() && Decode(w).ppn == t
    ensures TablesOk(m[t := table][root := m[root][slot := w]], roots, own[t := (root, slot)])
    ensures forall r | r in roots :: Space(m[t := table][root := m[root][slot := w]], r) == Space(m, r)
  {
    var m' := m[t := table][root := m[root][slot := w]];
    forall r | r in roots ensures Space(m', r) == Space(m, r) {
      forall v | 0 <= v < PAGES ensures Walk(m', r, v) == Walk(m, r, v) {
        WalkAfterLink(m, roots, own, t, root, slot, table, w, r, v);
      }
      SpaceSame(m, m', r);
    }
    LinkKeepsTables(m, roots, own, t, root, slot, table, w);
  }

  lemma LinkKeepsTables(m: Memory, roots: set<nat>, own: map<nat, (nat, nat)>, t: nat, root: nat, slot: nat,
                        table: Frame, w: Word)
    requires TablesOk(m, roots, own) && t < FRAMES && t !in roots && t !in own && root in roots && slot < WORDS
    requires !Decode(m[root][slot]).IsTable()
    requires Decode(w).IsTable() && Decode(w).ppn == t
    ensures TablesOk(m[t := table][root := m[root][slot := w]], roots, own[t := (root, slot)])
  {
    var m' := m[t := table][root := m[root][slot := w]];
    assert forall r | r in roots && r != root :: m'[r] == m[r];
    assert m'[root] == m[root][slot := w];
    forall s | s in own ensures own[s] != (root, slot) {}
  }
}
