/** Reading a file through its extent tree, as fs/ext4.c does, against the flattened
    list of its extents and the bytes they map. */
module Ext4 {
  import opened Common

  const EXT_MAGIC: nat := 0xf30a

  function Wrap32(n: nat): nat { n % 0x1_0000_0000 }

  function Le16(b: seq<Byte>, o: nat): nat
    requires o + 2 <= |b|
  {
    var lo: nat, hi: nat := b[o], b[o + 1];
    lo + 256 * hi
  }

  function Le32(b: seq<Byte>, o: nat): nat
    requires o + 4 <= |b|
  {
    Le16(b, o) + 0x1_0000 * Le16(b, o + 2)
  }

  /** A run of blocks. The top bit of the length field, which marks unwritten extents, is
      ignored; the end of the run is computed in 32 bits. */
  datatype Extent = Extent(block: nat, lenField: nat, startHi: nat, startLo: nat) {
    function Len(): nat { lenField % 0x8000 }
    predicate Has(lblock: nat) { block <= lblock < Wrap32(block + Len()) }
    function Physical(lblock: nat): Option<nat>
      requires Has(lblock)
    {
      if startHi != 0 then None else Some(Wrap32(startLo + (lblock - block)))
    }
  }

  datatype Index = Index(block: nat, leafLo: nat, leafHi: nat)

  /** An extent node: a header of 12 bytes and entries of 12 bytes. */
  predicate NodeFits(b: seq<Byte>) { |b| >= 12 && 12 + 12 * Le16(b, 2) <= |b| }

  function Magic(b: seq<Byte>): nat requires |b| >= 12 { Le16(b, 0) }
  function Entries(b: seq<Byte>): nat requires |b| >= 12 { Le16(b, 2) }
  function Depth(b: seq<Byte>): nat requires |b| >= 12 { Le16(b, 6) }

  function ExtentAt(b: seq<Byte>, i: nat): Extent
    requires 24 + 12 * i <= |b|
  {
    Extent(Le32(b, 12 + 12 * i), Le16(b, 16 + 12 * i), Le16(b, 18 + 12 * i), Le32(b, 20 + 12 * i))
  }

  function IndexAt(b: seq<Byte>, i: nat): Index
    requires 24 + 12 * i <= |b|
  {
    Index(Le32(b, 12 + 12 * i), Le32(b, 16 + 12 * i), Le16(b, 20 + 12 * i))
  }

  function Extents(b: seq<Byte>): (s: seq<Extent>)
    requires NodeFits(b)
    ensures |s| == Entries(b)
  {
    seq(Entries(b), i requires 0 <= i < Entries(b) => ExtentAt(b, i))
  }

  /** The parts of an inode that reading uses. */
  datatype Inode = Inode(sizeLo: nat, sizeHigh: nat, iblock: seq<Byte>)

  /** The blocks of the disk; None where reading fails. */
  type Disk = nat -> Option<seq<Byte>>

  // ---------------------------------------------------------------------
  // What lookup means.

  /** The first extent of the list that has the block. */
  ghost predicate FirstHas(s: seq<Extent>, lblock: nat, i: nat) {
    i < |s| && s[i].Has(lblock) && forall j | 0 <= j < i :: !s[j].Has(lblock)
  }

  /** r is what a search of the list for the block finds. */
  ghost predicate Found(s: seq<Extent>, lblock: nat, r: Option<nat>) {
    if forall i | 0 <= i < |s| :: !s[i].Has(lblock) then r == None
    else exists i: nat :: FirstHas(s, lblock, i) && r == s[i].Physical(lblock)
  }

  lemma FoundIsUnique(s: seq<Extent>, lblock: nat, r: Option<nat>, r': Option<nat>)
    requires Found(s, lblock, r) && Found(s, lblock, r')
    ensures r == r'
  {
    if !(forall i | 0 <= i < |s| :: !s[i].Has(lblock)) {
      var i: nat :| FirstHas(s, lblock, i) && r == s[i].Physical(lblock);
      var j: nat :| FirstHas(s, lblock, j) && r' == s[j].Physical(lblock);
      assert i == j;
    }
  }

  /** The entries of every node lie inside the node. */
  ghost predicate TreeFits(disk: Disk, b: seq<Byte>) {
    && NodeFits(b)
    && forall i | 0 <= i < Entries(b) && Depth(b) == 1 && disk(IndexAt(b, i).leafLo).Some? ::
         NodeFits(disk(IndexAt(b, i).leafLo).value)
  }

  /** The leaf an index entry points at, if it can be used. */
  ghost predicate LeafOk(disk: Disk, ix: Index) {
    && ix.leafHi == 0 && disk(ix.leafLo).Some? && NodeFits(disk(ix.leafLo).value)
    && Magic(disk(ix.leafLo).value) == EXT_MAGIC && Depth(disk(ix.leafLo).value) == 0
  }

  ghost function LeafExtents(disk: Disk, ix: Index): seq<Extent>
    requires LeafOk(disk, ix)
  {
    Extents(disk(ix.leafLo).value)
  }

  /** The extents of a tree of depth 0 or 1, in order. */
  ghost function Flatten(disk: Disk, b: seq<Byte>, n: nat): seq<Extent>
    requires NodeFits(b) && n <= Entries(b) && Depth(b) == 1 && forall i | 0 <= i < Entries(b) ::
               LeafOk(disk, IndexAt(b, i))
  {
    if n == 0 then [] else Flatten(disk, b, n - 1) + LeafExtents(disk, IndexAt(b, n - 1))
  }

  /** Entry i covers no block below its key, nor one from the next key on. */
  ghost predicate InRange(disk: Disk, b: seq<Byte>, i: nat)
    requires NodeFits(b) && i < Entries(b) && LeafOk(disk, IndexAt(b, i))
  {
    forall j, v: nat | 0 <= j < |LeafExtents(disk, IndexAt(b, i))| && LeafExtents(disk, IndexAt(b, i))[j].Has(v) ::
      IndexAt(b, i).block <= v && (i + 1 < Entries(b) ==> v < IndexAt(b, i + 1).block)
  }

  /** A well-formed tree: sorted keys, usable leaves, extents in the range of their key. */
  ghost predicate TreeOk(disk: Disk, b: seq<Byte>) {
    && NodeFits(b) && Magic(b) == EXT_MAGIC && Depth(b) <= 1
    && (Depth(b) == 1 ==>
          && (forall i | 0 <= i < Entries(b) :: LeafOk(disk, IndexAt(b, i)) && InRange(disk, b, i))
          && (forall i, j | 0 <= i < j < Entries(b) :: IndexAt(b, i).block <= IndexAt(b, j).block))
  }

  ghost function AllExtents(disk: Disk, b: seq<Byte>): seq<Extent>
    requires TreeOk(disk, b)
  {
    if Depth(b) == 0 then Extents(b) else Flatten(disk, b, Entries(b))
  }

  // ---------------------------------------------------------------------
  // Searching.

  /** The loop over the extents of one node. */
  method SearchNode(b: seq<Byte>, lblock: nat) returns (r: Option<nat>)
    requires NodeFits(b)
    ensures Found(Extents(b), lblock, r)
  {
    var i := 0;
    while i < Entries(b)
      invariant 0 <= i <= Entries(b)
      invariant forall j | 0 <= j < i :: !Extents(b)[j].Has(lblock)
    {
      var e := ExtentAt(b, i);
      assert Extents(b)[i] == e;
      if e.Has(lblock) {
        assert FirstHas(Extents(b), lblock, i);
        return e.Physical(lblock);
      }
      i := i + 1;
    }
    return None;
  }

  /** The last index entry, from the start, whose key and those before are not above the
      block; Entries(b) stands for NULL. */
  method ChooseIndex(b: seq<Byte>, lblock: nat) returns (chosen: nat)
    requires NodeFits(b)
    ensures chosen <= Entries(b)
    ensures chosen < Entries(b) ==> forall i | 0 <= i <= chosen :: IndexAt(b, i).block <= lblock
    ensures chosen < Entries(b) && chosen + 1 < Entries(b) ==> lblock < IndexAt(b, chosen + 1).block
    ensures chosen == Entries(b) > 0 ==> lblock < IndexAt(b, 0).block
  {
    chosen := Entries(b);
    var i := 0;
    while i < Entries(b)
      invariant 0 <= i <= Entries(b) && (if i == 0 then chosen == Entries(b) else chosen == i - 1)
      invariant forall j | 0 <= j < i :: IndexAt(b, j).block <= lblock
    {
      if IndexAt(b, i).block <= lblock {
        chosen := i;
      } else {
        break;
      }
      i := i + 1;
    }
  }

  /** In a well-formed tree only the chosen leaf can have the block. */
  lemma {:induction false} OnlyChosen(disk: Disk, b: seq<Byte>, n: nat, lblock: nat, chosen: nat)
    requires TreeOk(disk, b) && Depth(b) == 1 && n <= Entries(b) && chosen < Entries(b)
    requires IndexAt(b, chosen).block <= lblock && (chosen + 1 < Entries(b) ==> lblock < IndexAt(b, chosen + 1).block)
    ensures n <= chosen ==> forall j | 0 <= j < |Flatten(disk, b, n)| :: !Flatten(disk, b, n)[j].Has(lblock)
    ensures n > chosen ==> forall r :: Found(Flatten(disk, b, n), lblock, r) <==>
              Found(LeafExtents(disk, IndexAt(b, chosen)), lblock, r)
  {
    hide LeafExtents, Found, IndexAt, Extent.Has;
    if n > 0 {
      OnlyChosen(disk, b, n - 1, lblock, chosen);
      var s, t := Flatten(disk, b, n - 1), LeafExtents(disk, IndexAt(b, n - 1));
      if n - 1 == chosen {
        PrependMisses(s, t, lblock);
      } else {
        LeafMisses(disk, b, n - 1, lblock, chosen);
        AppendMisses(s, t, lblock);
      }
    }
  }

  lemma LeafMisses(disk: Disk, b: seq<Byte>, i: nat, lblock: nat, chosen: nat)
    requires TreeOk(disk, b) && Depth(b) == 1 && i < Entries(b) && chosen < Entries(b) && i != chosen
    requires IndexAt(b, chosen).block <= lblock && (chosen + 1 < Entries(b) ==> lblock < IndexAt(b, chosen + 1).block)
    ensures forall j | 0 <= j < |LeafExtents(disk, IndexAt(b, i))| :: !LeafExtents(disk, IndexAt(b, i))[j].Has(lblock)
  {
    assert InRange(disk, b, i);
    if i < chosen { assert IndexAt(b, i + 1).block <= IndexAt(b, chosen).block; }
  }

  lemma PrependMisses(s: seq<Extent>, t: seq<Extent>, lblock: nat)
    requires forall j | 0 <= j < |s| :: !s[j].Has(lblock)
    ensures forall r :: Found(s + t, lblock, r) <==> Found(t, lblock, r)
  {
    assert forall j | 0 <= j < |t| :: (s + t)[|s| + j] == t[j];
    assert forall j | 0 <= j < |s| :: (s + t)[j] == s[j];
    forall i: nat ensures FirstHas(t, lblock, i) ==> FirstHas(s + t, lblock, |s| + i) {}
    forall i: nat | FirstHas(s + t, lblock, i) ensures i >= |s| && FirstHas(t, lblock, i - |s|) {
      forall j | 0 <= j < i - |s| ensures !t[j].Has(lblock) { assert !(s + t)[|s| + j].Has(lblock); }
    }
    if j :| 0 <= j < |t| && t[j].Has(lblock) {
      assert (s + t)[|s| + j].Has(lblock);
    }
  }

  lemma AppendMisses(s: seq<Extent>, t: seq<Extent>, lblock: nat)
    requires forall j | 0 <= j < |t| :: !t[j].Has(lblock)
    ensures forall r :: Found(s + t, lblock, r) <==> Found(s, lblock, r)
    ensures (forall j | 0 <= j < |s| :: !s[j].Has(lblock)) ==> forall j | 0 <= j < |s + t| :: !(s + t)[j].Has(lblock)
  {
    assert forall j | 0 <= j < |s| :: (s + t)[j] == s[j];
    assert forall j | 0 <= j < |t| :: (s + t)[|s| + j] == t[j];
    forall i: nat ensures FirstHas(s, lblock, i) ==> FirstHas(s + t, lblock, i) {}
    forall i: nat | FirstHas(s + t, lblock, i) ensures i < |s| && FirstHas(s, lblock, i) {
      forall j | 0 <= j < i && j < |s| ensures !s[j].Has(lblock) { assert !(s + t)[j].Has(lblock); }
    }
    if j :| 0 <= j < |s| && s[j].Has(lblock) {
      assert (s + t)[j].Has(lblock);
    } else {
      forall j | 0 <= j < |s + t| ensures !(s + t)[j].Has(lblock) {
        assert (s + t)[j] == if j < |s| then s[j] else t[j - |s|];
      }
    }
  }

  // ---------------------------------------------------------------------
  // The driver.

  /** What extent_find_physical makes of the inode's tree for a block, well-formed or not. */
  ghost predicate Looked(disk: Disk, b: seq<Byte>, lblock: nat, r: Option<nat>)
    requires NodeFits(b)
  {
    if Magic(b) != EXT_MAGIC then r == None
    else if Depth(b) == 0 then Found(Extents(b), lblock, r)
    else if Depth(b) == 1 then
      if Entries(b) == 0 || lblock < IndexAt(b, 0).block then r == None
      else exists c: nat :: Chosen(b, lblock, c) && LookedIn(disk, IndexAt(b, c), lblock, r)
    else r == None
  }

  ghost predicate Chosen(b: seq<Byte>, lblock: nat, c: nat)
    requires NodeFits(b)
  {
    && c < Entries(b) && (forall i | 0 <= i <= c :: IndexAt(b, i).block <= lblock)
    && (c + 1 < Entries(b) ==> lblock < IndexAt(b, c + 1).block)
  }

  ghost predicate LookedIn(disk: Disk, ix: Index, lblock: nat, r: Option<nat>) {
    if ix.leafHi != 0 || disk(ix.leafLo).None? then r == None
    else if |disk(ix.leafLo).value| < 12 || Magic(disk(ix.leafLo).value) != EXT_MAGIC
            || Depth(disk(ix.leafLo).value) != 0 then r == None
    else NodeFits(disk(ix.leafLo).value) ==> Found(Extents(disk(ix.leafLo).value), lblock, r)
  }

  /** In a well-formed tree lookup is a search of the flattened extent list. */
  lemma LookupIsSearch(disk: Disk, b: seq<Byte>, lblock: nat, r: Option<nat>)
    requires TreeOk(disk, b) && Looked(disk, b, lblock, r)
    ensures Found(AllExtents(disk, b), lblock, r)
  {
    if Depth(b) == 1 {
      if Entries(b) == 0 || lblock < IndexAt(b, 0).block {
        NoneBelow(disk, b, Entries(b), lblock);
      } else {
        var c: nat :| Chosen(b, lblock, c) && LookedIn(disk, IndexAt(b, c), lblock, r);
        OnlyChosen(disk, b, Entries(b), lblock, c);
      }
    }
  }

  lemma {:induction false} NoneBelow(disk: Disk, b: seq<Byte>, n: nat, lblock: nat)
    requires TreeOk(disk, b) && Depth(b) == 1 && n <= Entries(b) && (Entries(b) > 0 ==> lblock < IndexAt(b, 0).block)
    ensures forall j | 0 <= j < |Flatten(disk, b, n)| :: !Flatten(disk, b, n)[j].Has(lblock)
  {
    if n > 0 {
      NoneBelow(disk, b, n - 1, lblock);
      assert InRange(disk, b, n - 1);
      if n > 1 { assert IndexAt(b, 0).block <= IndexAt(b, n - 1).block; }
    }
  }

  class Volume {
    const disk: Disk
    const blockSize: nat
    var blockBuf: seq<Byte>         // block_buf, shared by every read

    constructor (disk: Disk, blockSize: nat)
      requires blockSize in {1024, 2048, 4096} && forall p: nat | disk(p).Some? :: |disk(p).value| == blockSize
      ensures Valid() && this.disk == disk && this.blockSize == blockSize
    {
      this.disk, this.blockSize := disk, blockSize;
      blockBuf := [];
    }

    ghost predicate Valid() {
      blockSize in {1024, 2048, 4096} && forall p: nat | disk(p).Some? :: |disk(p).value| == blockSize
    }

    /** read_block into block_buf. After an error the buffer holds anything. */
    method ReadBlock(p: nat) returns (rc: int)
      requires Valid()
      modifies this`blockBuf
      ensures rc == (if disk(p).Some? then 0 else -1)
      ensures rc == 0 ==> blockBuf == disk(p).value && |blockBuf| == blockSize
    {
      var b := disk(p);
      if b.None? {
        blockBuf := *;
        return -1;
      }
      blockBuf := b.value;
      return 0;
    }

    /** extent_find_physical. The nodes it is given fit their blocks. */
    method FindPhysical(b: seq<Byte>, lblock: nat) returns (r: Option<nat>)
      requires Valid() && TreeFits(disk, b)
      modifies this`blockBuf
      ensures Looked(disk, b, lblock, r)
    {
      if Magic(b) != EXT_MAGIC {
        return None;
      }
      if Depth(b) == 0 {
        r := SearchNode(b, lblock);
        return;
      }
      if Depth(b) == 1 {
        var c := ChooseIndex(b, lblock);
        if c == Entries(b) {
          return None;
        }
        var ix := IndexAt(b, c);
        assert Chosen(b, lblock, c);
        if ix.leafHi != 0 {
          return None;
        }
        var rc := ReadBlock(ix.leafLo);
        if rc < 0 {
          return None;
        }
        if Magic(blockBuf) != EXT_MAGIC || Depth(blockBuf) != 0 {
          return None;
        }
        r := SearchNode(blockBuf, lblock);
        return;
      }
      return None;
    }

    /** inode_read_data: the longest prefix of the range that is mapped and readable. */
    method ReadData(ino: Inode, off: nat, len: nat) returns (n: int, out: seq<Byte>)
      requires Valid() && NodeFits(ino.iblock) && TreeFits(disk, ino.iblock) && off < 0x1_0000_0000
               && len < 0x1_0000_0000 && ino.sizeLo < 0x1_0000_0000
      modifies this`blockBuf
      ensures n == -1 <==> ino.sizeHigh != 0
      ensures n != -1 ==> n == |out| && IsRead(disk, blockSize, ino.iblock, off, Remaining(off, len, ino.sizeLo), out)
    {
      hide ByteRead, NotRead, Looked, TreeFits;
      out := [];
      if ino.sizeHigh != 0 {
        return -1, out;
      }
      if off >= ino.sizeLo {
        return 0, out;
      }
      var remaining := if Wrap32(off + len) > ino.sizeLo then ino.sizeLo - off else len;
      var done := 0;
      while done < remaining
        invariant 0 <= done <= remaining && |out| == done
        invariant forall k | 0 <= k < done :: ByteRead(disk, blockSize, ino.iblock, Wrap32(off + k), out[k])
      {
        var pos := Wrap32(off + done);
        var lblock := pos / blockSize;
        var boff := pos % blockSize;
        var chunk := blockSize - boff;
        if chunk > remaining - done {
          chunk := remaining - done;
        }
        var r := FindPhysical(ino.iblock, lblock);
        if r.None? {
          NotReadHere(disk, blockSize, ino.iblock, pos, r);
          break;
        }
        var rc := ReadBlock(r.value);
        if rc < 0 {
          NotReadHere(disk, blockSize, ino.iblock, pos, r);
          break;
        }
        ghost var before := out;
        out := out + blockBuf[boff..boff + chunk];
        ChunkRead(disk, blockSize, ino.iblock, off, done, chunk, r.value, before, out);
        done := done + chunk;
      }
      n := done;
    }
  }

  /** How much inode_read_data tries to read. */
  function Remaining(off: nat, len: nat, size: nat): nat {
    if off >= size then 0 else if Wrap32(off + len) > size then size - off else len
  }

  /** It stays inside the file exactly when the end of the range does not wrap. */
  lemma RemainingInFile(off: nat, len: nat, size: nat)
    requires off < size < 0x1_0000_0000 && len < 0x1_0000_0000
    ensures off + Remaining(off, len, size) <= size <==> off + len < 0x1_0000_0000
    ensures off + len < 0x1_0000_0000 ==> Remaining(off, len, size) == if len <= size - off then len else size - off
  {}

  /** Here a read goes past the end of a file of ten bytes. */
  lemma RemainingMayPassTheEnd()
    ensures 5 + Remaining(5, 0xffff_fffb, 10) > 10
  {}

  /** Position pos of the file is mapped to a block that can be read, and holds x. */
  ghost predicate ByteRead(disk: Disk, bs: nat, b: seq<Byte>, pos: nat, x: Byte)
    requires NodeFits(b) && bs > 0
  {
    exists p: nat :: Looked(disk, b, pos / bs, Some(p)) && disk(p).Some? && pos % bs < |disk(p).value|
                     && disk(p).value[pos % bs] == x
  }

  /** Position pos is not mapped, or its block cannot be read. */
  ghost predicate NotRead(disk: Disk, bs: nat, b: seq<Byte>, pos: nat)
    requires NodeFits(b) && bs > 0
  {
    Looked(disk, b, pos / bs, None) || exists p: nat :: Looked(disk, b, pos / bs, Some(p)) && disk(p).None?
  }

  lemma NotReadHere(disk: Disk, bs: nat, b: seq<Byte>, pos: nat, r: Option<nat>)
    requires NodeFits(b) && bs > 0 && Looked(disk, b, pos / bs, r) && (r.Some? ==> disk(r.value).None?)
    ensures NotRead(disk, bs, b, pos)
  {
    hide Looked;
    assert r.Some? ==> r == Some(r.value);
  }

  /** out is the longest mapped prefix of the n bytes from off on. */
  ghost predicate IsRead(disk: Disk, bs: nat, b: seq<Byte>, off: nat, n: nat, out: seq<Byte>)
    requires NodeFits(b) && bs > 0
  {
    && |out| <= n
    && (forall k | 0 <= k < |out| :: ByteRead(disk, bs, b, Wrap32(off + k), out[k]))
    && (|out| < n ==> NotRead(disk, bs, b, Wrap32(off + |out|)))
  }

  /** Positions in one block; a block never straddles 2^32. */
  lemma InBlock(bs: nat, off: nat, done: nat, j: nat)
    requires bs in {1024, 2048, 4096} && j < bs - Wrap32(off + done) % bs
    ensures Wrap32(off + (done + j)) / bs == Wrap32(off + done) / bs
    ensures Wrap32(off + (done + j)) % bs == Wrap32(off + done) % bs + j
  {
    var pos := Wrap32(off + done);
    if bs == 1024 {
      assert pos + j < 0x1_0000_0000;
    } else if bs == 2048 {
      assert pos + j < 0x1_0000_0000;
    } else {
      assert pos + j < 0x1_0000_0000;
    }
  }

  lemma ChunkRead(disk: Disk, bs: nat, b: seq<Byte>, off: nat, done: nat, chunk: nat, p: nat, before: seq<Byte>,
                  out: seq<Byte>)
    requires bs in {1024, 2048, 4096} && NodeFits(b) && |before| == done && disk(p).Some? && |disk(p).value| == bs
    requires Wrap32(off + done) % bs + chunk <= bs && Looked(disk, b, Wrap32(off + done) / bs, Some(p))
    requires out == before + disk(p).value[Wrap32(off + done) % bs..Wrap32(off + done) % bs + chunk]
    requires forall k | 0 <= k < done :: ByteRead(disk, bs, b, Wrap32(off + k), before[k])
    ensures forall k | 0 <= k < done + chunk :: ByteRead(disk, bs, b, Wrap32(off + k), out[k])
  {
    hide Looked;
    forall k | 0 <= k < done + chunk ensures ByteRead(disk, bs, b, Wrap32(off + k), out[k]) {
      if k >= done {
        InBlock(bs, off, done, k - done);
        assert out[k] == disk(p).value[Wrap32(off + done) % bs + (k - done)];
      } else {
        assert out[k] == before[k];
      }
    }
  }

  lemma LookedIsUnique(disk: Disk, b: seq<Byte>, lblock: nat, r: Option<nat>, r': Option<nat>)
    requires TreeFits(disk, b) && Looked(disk, b, lblock, r) && Looked(disk, b, lblock, r')
    ensures r == r'
  {
    if Magic(b) == EXT_MAGIC && Depth(b) == 0 {
      FoundIsUnique(Extents(b), lblock, r, r');
    } else if Magic(b) == EXT_MAGIC && Depth(b) == 1 && !(Entries(b) == 0 || lblock < IndexAt(b, 0).block) {
      var c: nat :| Chosen(b, lblock, c) && LookedIn(disk, IndexAt(b, c), lblock, r);
      var c': nat :| Chosen(b, lblock, c') && LookedIn(disk, IndexAt(b, c'), lblock, r');
      assert c == c';
      LookedInUnique(disk, IndexAt(b, c), lblock, r, r');
    }
  }

  lemma LookedInUnique(disk: Disk, ix: Index, lblock: nat, r: Option<nat>, r': Option<nat>)
    requires disk(ix.leafLo).Some? ==> NodeFits(disk(ix.leafLo).value)
    requires LookedIn(disk, ix, lblock, r) && LookedIn(disk, ix, lblock, r')
    ensures r == r'
  {
    if ix.leafHi == 0 && disk(ix.leafLo).Some? && Magic(disk(ix.leafLo).value) == EXT_MAGIC
       && Depth(disk(ix.leafLo).value) == 0 {
      FoundIsUnique(Extents(disk(ix.leafLo).value), lblock, r, r');
    }
  }

  /** There is one answer to a read. */
  lemma ReadIsUnique(disk: Disk, bs: nat, b: seq<Byte>, off: nat, n: nat, s: seq<Byte>, t: seq<Byte>)
    requires TreeFits(disk, b) && bs > 0 && IsRead(disk, bs, b, off, n, s) && IsRead(disk, bs, b, off, n, t)
    ensures s == t
  {
    hide Looked, TreeFits, ByteRead, NotRead;
    forall k | 0 <= k < |s| && k < |t| ensures s[k] == t[k] {
      ByteIsUnique(disk, bs, b, Wrap32(off + k), s[k], t[k]);
    }
    if |s| < |t| {
      NotBoth(disk, bs, b, Wrap32(off + |s|), t[|s|]);
    } else if |t| < |s| {
      NotBoth(disk, bs, b, Wrap32(off + |t|), s[|t|]);
    }
  }

  lemma ByteIsUnique(disk: Disk, bs: nat, b: seq<Byte>, pos: nat, x: Byte, y: Byte)
    requires TreeFits(disk, b) && bs > 0 && ByteRead(disk, bs, b, pos, x) && ByteRead(disk, bs, b, pos, y)
    ensures x == y
  {
    hide Looked;
    var p: nat :| Looked(disk, b, pos / bs, Some(p)) && disk(p).Some? && pos % bs < |disk(p).value|
                    && disk(p).value[pos % bs] == x;
    var q: nat :| Looked(disk, b, pos / bs, Some(q)) && disk(q).Some? && pos % bs < |disk(q).value|
                    && disk(q).value[pos % bs] == y;
    LookedIsUnique(disk, b, pos / bs, Some(p), Some(q));
  }

  lemma NotBoth(disk: Disk, bs: nat, b: seq<Byte>, pos: nat, x: Byte)
    requires TreeFits(disk, b) && bs > 0 && ByteRead(disk, bs, b, pos, x)
    ensures !NotRead(disk, bs, b, pos)
  {
    hide Looked;
    var p: nat :| Looked(disk, b, pos / bs, Some(p)) && disk(p).Some?;
    forall r | Looked(disk, b, pos / bs, r) ensures r == Some(p) {
      LookedIsUnique(disk, b, pos / bs, Some(p), r);
    }
  }

  /** A whole piece and the piece behind it are one read of both. */
  lemma ReadsJoin(disk: Disk, bs: nat, b: seq<Byte>, off: nat, m: nat, n: nat, s: seq<Byte>, t: seq<Byte>)
    requires NodeFits(b) && bs > 0 && IsRead(disk, bs, b, off, m, s) && |s| == m && IsRead(disk, bs, b, off + m, n, t)
    ensures IsRead(disk, bs, b, off, m + n, s + t)
  {
    hide Looked, ByteRead, NotRead, Wrap32;
    var u := s + t;
    forall k | 0 <= k < |u| ensures ByteRead(disk, bs, b, Wrap32(off + k), u[k]) {
      if k >= m {
        assert off + k == off + m + (k - m) && u[k] == t[k - m];
      } else {
        assert u[k] == s[k];
      }
    }
    assert off + |u| == off + m + |t|;
  }

  /** Sizes of pieces that make up this much. */
  function Total(sizes: seq<nat>): nat { if sizes == [] then 0 else Total(sizes[..|sizes| - 1]) + sizes[|sizes| - 1] }

  /** Reading a mapped file in consecutive pieces gives what one read gives. */
  method ReadInPieces(v: Volume, ino: Inode, off: nat, sizes: seq<nat>) returns (out: seq<Byte>)
    requires v.Valid() && TreeFits(v.disk, ino.iblock) && ino.sizeHigh == 0 && ino.sizeLo < 0x1_0000_0000
    requires off + Total(sizes) <= ino.sizeLo
    requires forall pos | off <= pos < off + Total(sizes) :: !NotRead(v.disk, v.blockSize, ino.iblock, pos)
    modifies v
    ensures IsRead(v.disk, v.blockSize, ino.iblock, off, Total(sizes), out) && |out| == Total(sizes)
    ensures forall whole: seq<Byte> :: IsRead(v.disk, v.blockSize, ino.iblock, off, Total(sizes), whole) ==>
              whole == out
  {
    hide Looked, ByteRead, NotRead, IsRead, Wrap32;
    out := [];
    var i := 0;
    assert sizes[..|sizes|] == sizes;
    ReadNothing(v.disk, v.blockSize, ino.iblock, off);
    while i < |sizes|
      invariant 0 <= i <= |sizes| && Total(sizes[..i]) <= Total(sizes)
      invariant |out| == Total(sizes[..i]) && IsRead(v.disk, v.blockSize, ino.iblock, off, |out|, out)
    {
      assert sizes[..i + 1][..i] == sizes[..i];
      PartAtMost(sizes, i + 1);
      var n, piece := v.ReadData(ino, off + |out|, sizes[i]);
      WholePiece(v.disk, v.blockSize, ino.iblock, off + |out|, sizes[i], ino.sizeLo, piece);
      ReadsJoin(v.disk, v.blockSize, ino.iblock, off, |out|, sizes[i], out, piece);
      out := out + piece;
      i := i + 1;
    }
    assert sizes[..i] == sizes;
    forall whole: seq<Byte> | IsRead(v.disk, v.blockSize, ino.iblock, off, Total(sizes), whole) ensures whole == out {
      ReadIsUnique(v.disk, v.blockSize, ino.iblock, off, Total(sizes), whole, out);
    }
  }

  lemma ReadNothing(disk: Disk, bs: nat, b: seq<Byte>, off: nat)
    requires NodeFits(b) && bs > 0
    ensures IsRead(disk, bs, b, off, 0, [])
  {}

  /** A read inside the mapped part of a file gives all it asks for. */
  lemma WholePiece(disk: Disk, bs: nat, b: seq<Byte>, off: nat, n: nat, size: nat, piece: seq<Byte>)
    requires NodeFits(b) && bs > 0 && off + n <= size < 0x1_0000_0000
    requires IsRead(disk, bs, b, off, Remaining(off, n, size), piece)
    requires forall pos | off <= pos < off + n :: !NotRead(disk, bs, b, pos)
    ensures |piece| == n && IsRead(disk, bs, b, off, n, piece)
  {
    hide ByteRead, NotRead, Looked;
  }

  lemma {:induction false} PartAtMost(sizes: seq<nat>, i: nat)
    requires i <= |sizes|
    ensures Total(sizes[..i]) <= Total(sizes)
  {
    if i < |sizes| {
      PartAtMost(sizes[..|sizes| - 1], i);
      assert sizes[..|sizes| - 1][..i] == sizes[..i];
    } else {
      assert sizes[..i] == sizes;
    }
  }
}
