/** The memory file system of fs/fs.c and the descriptor tables of all processes, as a
    store from names to bytes. */
module Ramfs {
  import opened Common

  const FILES: nat := 32          // RAMFS_MAX_FILES
  const DATA_MAX: nat := 1024     // RAMFS_DATA_MAX
  const FDS: nat := 16            // FD_MAX

  type Data = d: seq<Byte> | |d| == DATA_MAX witness seq(DATA_MAX, _ => 0)

  datatype File = File(used: bool, name: string, data: Data, size: nat) {
    ghost function Bytes(): seq<Byte> requires size <= DATA_MAX { data[..size] }
  }

  /** The flags of open: the access mode is in the two lowest bits. */
  datatype Flags = Flags(mode: nat, creat: bool, trunc: bool, append: bool)

  function FlagsOf(f: nat): Flags { Flags(f % 4, f / 0x100 % 2 == 1, f / 0x200 % 2 == 1, f / 0x400 % 2 == 1) }

  const READ_ONLY: nat := 1
  const WRITE_ONLY: nat := 2
  const READ_WRITE: nat := 3

  datatype Fd = Fd(used: bool, file: nat, offset: nat, flags: Flags)

  const NO_FLAGS: Flags := Flags(0, false, false, false)
  const NO_FD: Fd := Fd(false, 0, 0, NO_FLAGS)

  function Zeros(): Data { seq(DATA_MAX, _ => 0) }
  function NoFile(): File { File(false, "", Zeros(), 0) }

  // ---------------------------------------------------------------------
  // Names.

  /** A name of 1 to 31 characters without a slash. */
  predicate NameOk(name: string) { 0 < |name| < 32 && '/' !in name }

  /** A path that is slashes and then such a name. */
  ghost predicate Names(path: string, name: string) {
    NameOk(name) && exists k :: 0 <= k <= |path| && AllSlashes(path, k) && path[k..] == name
  }

  ghost predicate AllSlashes(path: string, k: nat) {
    k <= |path| && forall i | 0 <= i < k :: path[i] == '/'
  }

  /** normalize_name */
  method NormalizeName(path: string) returns (r: Option<string>)
    ensures r.Some? ==> Names(path, r.value)
    ensures r.None? ==> forall name :: !Names(path, name)
  {
    var p := 0;
    while p < |path| && path[p] == '/'
      invariant 0 <= p <= |path| && AllSlashes(path, p)
    {
      p := p + 1;
    }
    if p == |path| {
      OnlySlashes(path);
      return None;
    }
    var name := "";
    var q := p;
    while q < |path| && path[q] != '/'
      invariant p <= q <= |path| && name == path[p..q] && '/' !in name && |name| < 32
    {
      if |name| + 1 >= 32 {
        LongName(path, p, q + 1);
        return None;
      }
      name := name + [path[q]];
      q := q + 1;
    }
    if q < |path| {
      SlashInside(path, p, q);
      return None;
    }
    return Some(name);
  }

  lemma SlashIn(path: string, k: nat, i: nat)
    requires k <= i < |path| && path[i] == '/'
    ensures '/' in path[k..]
  {
    assert path[k..][i - k] == path[i];
  }

  lemma OnlySlashes(path: string)
    requires AllSlashes(path, |path|)
    ensures forall name :: !Names(path, name)
  {
    forall k | 0 <= k < |path| ensures '/' in path[k..] { SlashIn(path, k, k); }
  }

  /** A path names at most one file: the slashes in front are all there are. */
  lemma NameStarts(path: string, p: nat, name: string)
    requires p < |path| && AllSlashes(path, p) && path[p] != '/' && Names(path, name)
    ensures name == path[p..]
  {
    var k :| 0 <= k <= |path| && AllSlashes(path, k) && path[k..] == name;
    if k < p { SlashIn(path, k, p - 1); }
  }

  lemma LongName(path: string, p: nat, q: nat)
    requires p < q <= |path| && AllSlashes(path, p) && path[p] != '/' && q - p >= 32
    ensures forall name :: !Names(path, name)
  {
    forall name ensures !Names(path, name) {
      if Names(path, name) { NameStarts(path, p, name); }
    }
  }

  lemma SlashInside(path: string, p: nat, q: nat)
    requires p < q < |path| && AllSlashes(path, p) && path[p] != '/' && path[q] == '/'
    ensures forall name :: !Names(path, name)
  {
    SlashIn(path, p, q);
    forall name ensures !Names(path, name) {
      if Names(path, name) { NameStarts(path, p, name); }
    }
  }

  // ---------------------------------------------------------------------
  // The store.

  /** Names are different and sizes fit. */
  ghost predicate FilesOk(files: seq<File>) {
    && |files| == FILES
    && (forall i | 0 <= i < |files| && files[i].used :: files[i].size <= DATA_MAX && NameOk(files[i].name))
    && (forall i, j | 0 <= i < |files| && 0 <= j < |files| && i != j && files[i].used && files[j].used ::
          files[i].name != files[j].name)
  }

  /** An open descriptor of any process names a file in use, at an offset that fits. */
  ghost predicate FdsOk(files: seq<File>, fds: seq<seq<Fd>>) {
    && |fds| == PROC_MAX && (forall p | 0 <= p < |fds| :: |fds[p]| == FDS)
    && (forall p, f | 0 <= p < |fds| && 0 <= f < |fds[p]| && fds[p][f].used :: FdOk(files, fds[p][f]))
  }

  ghost predicate FdOk(files: seq<File>, d: Fd) {
    d.file < |files| && files[d.file].used && d.offset <= DATA_MAX
  }

  /** File i is the one with this name. */
  ghost predicate At(files: seq<File>, i: nat, name: string) {
    i < |files| && files[i].used && files[i].name == name
  }

  /** The store: the bytes of a name, if there is such a file. */
  ghost function Get(files: seq<File>, name: string): Option<seq<Byte>>
    requires FilesOk(files)
  {
    if exists i: nat :: At(files, i, name) then
      var i: nat :| At(files, i, name);
      Some(files[i].Bytes())
    else None
  }

  lemma GetAt(files: seq<File>, i: nat)
    requires FilesOk(files) && i < |files| && files[i].used
    ensures Get(files, files[i].name) == Some(files[i].Bytes())
  {
    assert At(files, i, files[i].name);
    forall j: nat | At(files, j, files[i].name) ensures j == i {}
  }

  /** The store t is the store files but for one name. */
  ghost predicate OnlyName(files: seq<File>, t: seq<File>, name: string, r: Option<seq<Byte>>)
    requires FilesOk(files) && FilesOk(t)
  {
    forall n :: Get(t, n) == if n == name then r else Get(files, n)
  }

  /** Slot i, which had this name or was free, has other contents, or is free. */
  lemma SlotChanged(files: seq<File>, i: nat, f: File, name: string)
    requires FilesOk(files) && i < |files| && (f.used ==> f.name == name && f.size <= DATA_MAX && NameOk(name))
    requires if files[i].used then files[i].name == name else Get(files, name) == None
    ensures FilesOk(files[i := f]) && OnlyName(files, files[i := f], name, if f.used then Some(f.Bytes()) else None)
  {
    var t := files[i := f];
    forall j | 0 <= j < |files| && j != i && files[j].used ensures files[j].name != name {
      GetAt(files, j);
    }
    assert FilesOk(t);
    forall n ensures Get(t, n) == if n == name then (if f.used then Some(f.Bytes()) else None) else Get(files, n) {
      if j: nat :| At(t, j, n) {
        GetAt(t, j);
        if j != i { GetAt(files, j); }
      } else {
        assert f.used ==> At(t, i, name);
        if j: nat :| At(files, j, n) {
          GetAt(files, j);
          assert j == i || At(t, j, n);
        }
      }
    }
  }

  /** The written bytes at the offset; the others as they were; and the file reaches at
      least to the end of the write. A gap behind the old end holds what was there before
      the file was cut. */
  ghost predicate Wrote(before: seq<Byte>, offset: nat, written: seq<Byte>, after: seq<Byte>) {
    && |after| == (if offset < 1024 && offset + |written| > |before| then offset + |written| else |before|)
    && (forall k | 0 <= k < |before| && !(offset <= k < offset + |written|) :: after[k] == before[k])
    && (forall k | 0 <= k < |written| && offset + k < |after| :: after[offset + k] == written[k])
  }

  class FileSystem {
    var files: seq<File>
    var fds: seq<seq<Fd>>       // the descriptors of every process
    var current: nat

    ghost predicate Valid()
      reads this
    {
      FilesOk(files) && FdsOk(files, fds) && current < PROC_MAX
    }

    /** fs_init, without its greeting file. */
    constructor ()
      ensures Valid() && forall n :: Get(files, n) == None
    {
      files := seq(FILES, _ => NoFile());
      fds := seq(PROC_MAX, _ => seq(FDS, _ => NO_FD));
      current := 0;
    }

    /** find_inode_by_name; FILES stands for -1. */
    method FindFile(name: string) returns (i: nat)
      requires Valid()
      ensures i <= FILES
      ensures i < FILES ==> files[i].used && files[i].name == name && Get(files, name) == Some(files[i].Bytes())
      ensures i == FILES ==> Get(files, name) == None
    {
      i := 0;
      while i < FILES
        invariant 0 <= i <= FILES && forall j | 0 <= j < i :: !(files[j].used && files[j].name == name)
      {
        if files[i].used && files[i].name == name {
          GetAt(files, i);
          return;
        }
        i := i + 1;
      }
    }

    /** alloc_inode; FILES stands for -1. */
    method AllocFile() returns (i: nat)
      requires Valid()
      ensures i <= FILES && (i < FILES ==> !files[i].used)
      ensures i == FILES ==> forall j | 0 <= j < FILES :: files[j].used
    {
      i := 0;
      while i < FILES
        invariant 0 <= i <= FILES && forall j | 0 <= j < i :: files[j].used
      {
        if !files[i].used {
          return;
        }
        i := i + 1;
      }
    }

    /** install_fd for the current process; the result is the descriptor, or -1. */
    method InstallFd(file: nat, flags: Flags, offset: nat) returns (fd: int)
      requires Valid() && file < FILES && files[file].used && offset <= DATA_MAX
      modifies this`fds
      ensures Valid() && -1 <= fd < FDS
      ensures fd == -1 <==> forall f | 0 <= f < FDS :: old(fds)[current][f].used
      ensures fd == -1 ==> fds == old(fds)
      ensures fd != -1 ==> !old(fds)[current][fd].used
                           && fds == old(fds)[current := old(fds)[current][fd := Fd(true, file, offset, flags)]]
    {
      var f := 0;
      while f < FDS
        invariant 0 <= f <= FDS && forall g | 0 <= g < f :: fds[current][g].used
      {
        if !fds[current][f].used {
          fds := fds[current := fds[current][f := Fd(true, file, offset, flags)]];
          return f;
        }
        f := f + 1;
      }
      return -1;
    }

    /** ensure_ramfs_inode: the file with this name, made empty if need be and allowed;
        FILES stands for -1. */
    method EnsureFile(name: string, flags: Flags) returns (i: nat)
      requires Valid() && NameOk(name)
      modifies this`files
      ensures Valid() && i <= FILES
      ensures i < FILES <==> Get(old(files), name).Some? || (flags.creat && FileFree(old(files)))
      ensures i == FILES || Get(old(files), name).Some? ==> files == old(files)
      ensures i < FILES ==> At(files, i, name)
      ensures i < FILES && Get(old(files), name).None? ==> OnlyName(old(files), files, name, Some([]))
    {
      i := FindFile(name);
      if i < FILES || !flags.creat {
        return;
      }
      i := AllocFile();
      if i < FILES {
        SlotChanged(files, i, File(true, name, Zeros(), 0), name);
        files := files[i := File(true, name, Zeros(), 0)];
      }
    }

    /** fs_open, with no ext4 volume: creates the file if asked to, truncates it if asked
        to, and opens a descriptor at its start or its end. An open that fails only for
        want of a descriptor has done all but the last, so it changes nothing exactly if
        there was nothing to create or to truncate. */
    method Open(path: string, f: nat) returns (fd: int)
      requires Valid()
      modifies this`files, this`fds
      ensures Valid() && -1 <= fd < FDS
      ensures fd != -1 <==> FdFree(old(fds)[current]) && exists name :: CanOpen(old(files), path, name, FlagsOf(f))
      ensures fd != -1 ==> exists name ::
                Names(path, name) && OpenedAs(old(files), files, name, FlagsOf(f), fds[current][fd])
      ensures fd != -1 ==> !old(fds)[current][fd].used
                           && fds == old(fds)[current := old(fds)[current][fd := fds[current][fd]]]
      ensures fd == -1 ==> fds == old(fds)
      ensures (forall name :: !CanOpen(old(files), path, name, FlagsOf(f))) ==> files == old(files)
      ensures forall name | CanOpen(old(files), path, name, FlagsOf(f)) ::
                && MadeReady(old(files), files, name, FlagsOf(f))
                && (files == old(files) <==> Ready(old(files), name, FlagsOf(f)))
    {
      hide OnlyName, FdOk, MadeReady, Get, Ready, At, FilesOk, FlagsOf;
      var flags := FlagsOf(f);
      var n := NormalizeName(path);
      if n.None? {
        return -1;
      }
      var name := n.value;
      NameIsUnique(path, name);
      assert CanOpen(files, path, name, flags) <==> Get(files, name).Some? || (flags.creat && FileFree(files));
      ghost var files0, table := files, fds[current];
      var i := EnsureFile(name, flags);
      if i == FILES {
        return -1;
      }
      assert CanOpen(files0, path, name, flags);
      OpenChanges(files0, files, i, name, flags);
      if flags.trunc {
        CutKeepsFds(files, fds, i, files[i].(size := 0));
        files := files[i := files[i].(size := 0)];
      }
      GetAt(files, i);
      var offset := if flags.append then files[i].size else 0;
      fd := InstallFd(i, flags, offset);
      assert FdFree(table) <==> fd != -1;
      assert fd != -1 ==> OpenedAs(files0, files, name, flags, fds[current][fd]);
    }

    predicate IsOpen(fd: int)
      reads this`fds, this`current
      requires current < |fds| && |fds[current]| == FDS
    {
      0 <= fd < FDS && fds[current][fd].used
    }

    /** Descriptor fd of the current process changes. */
    method SetFd(fd: nat, d: Fd)
      requires Valid() && fd < FDS && (d.used ==> FdOk(files, d))
      modifies this`fds
      ensures Valid() && fds == old(fds)[current := old(fds)[current][fd := d]]
    {
      fds := fds[current := fds[current][fd := d]];
    }

    /** fs_close */
    method Close(fd: int) returns (rc: int)
      requires Valid()
      modifies this`fds
      ensures Valid() && (rc == 0 <==> old(IsOpen(fd))) && (rc != 0 ==> rc == -1 && fds == old(fds))
      ensures rc == 0 ==> fds == old(fds)[current := old(fds)[current][fd := NO_FD]]
    {
      if !IsOpen(fd) {
        return -1;
      }
      SetFd(fd, NO_FD);
      return 0;
    }

    /** fs_read: the bytes from the offset on, as many as there are and are asked for. */
    method Read(fd: int, len: nat) returns (n: int, out: seq<Byte>)
      requires Valid()
      modifies this`fds
      ensures Valid() && (n == -1 <==> !(old(IsOpen(fd)) && old(fds)[current][fd].flags.mode != WRITE_ONLY))
      ensures n == -1 ==> fds == old(fds)
      ensures n != -1 ==> var d := old(fds)[current][fd];
                          && n == |out| && out == Slice(files[d.file].Bytes(), d.offset, len)
                          && fds == old(fds)[current := old(fds)[current][fd := d.(offset := d.offset + n)]]
    {
      out := [];
      if !IsOpen(fd) {
        return -1, out;
      }
      var d := fds[current][fd];
      if d.flags.mode == WRITE_ONLY {
        return -1, out;
      }
      var f := files[d.file];
      if d.offset >= f.size {
        SameFd(fds, current, fd);
        return 0, out;
      }
      var remain := f.size - d.offset;
      var m := if len < remain then len else remain;
      out := f.data[d.offset..d.offset + m];
      SliceOfData(f, d.offset, len);
      SetFd(fd, d.(offset := d.offset + m));
      n := m;
    }

    /** fs_write: the bytes at the offset, or at the end for O_APPEND, as many as fit
        into 1024. Bytes of the file outside them stay. */
    method Write(fd: int, buf: seq<Byte>) returns (n: int)
      requires Valid()
      modifies this`files, this`fds
      ensures Valid()
      ensures n == -1 <==> !(old(IsOpen(fd)) && old(fds)[current][fd].flags.mode in {WRITE_ONLY, READ_WRITE})
      ensures n == -1 ==> files == old(files) && fds == old(fds)
      ensures n != -1 ==> var d := old(fds)[current][fd]; var f := old(files)[d.file];
                          var at := if d.flags.append then f.size else d.offset;
                          && n == Room(at, |buf|) && files[d.file].used && files[d.file].name == f.name
                          && fds == old(fds)[current := old(fds)[current][fd := d.(offset := at + n)]]
                          && Wrote(f.Bytes(), at, buf[..n], files[d.file].Bytes())
                          && files == old(files)[d.file := files[d.file]]
                          && OnlyName(old(files), files, f.name, Some(files[d.file].Bytes()))
    {
      hide OnlyName, Wrote, Copied;
      if !IsOpen(fd) {
        return -1;
      }
      var d := fds[current][fd];
      if !(d.flags.mode == WRITE_ONLY || d.flags.mode == READ_WRITE) {
        return -1;
      }
      var f := files[d.file];
      if d.flags.append {
        d := d.(offset := f.size);
      }
      var m := 0;
      if d.offset < DATA_MAX {
        var cap := DATA_MAX - d.offset;
        m := if |buf| < cap then |buf| else cap;
        var data := Copied(f.data, d.offset, buf[..m]);
        var end := d.offset + m;
        // A write of no bytes past the end of a file that was cut makes it longer, too.
        var g := f.(data := data, size := if end > f.size then end else f.size);
        Stores(files, d.file, d.offset, buf[..m], g);
        files := files[d.file := g];
      } else {
        StoresNothing(files, d.file, d.offset);
      }
      SetFd(fd, d.(offset := d.offset + m));
      return m;
    }

    /** Every descriptor of every process on file i closes. */
    method CloseAll(i: nat)
      requires FdsOk(files, fds)
      modifies this`fds
      ensures FdsOk(files, fds) && fds == Closed(old(fds), i)
    {
      var p := 0;
      while p < PROC_MAX
        invariant 0 <= p <= PROC_MAX && FdsOk(files, fds)
        invariant forall q | 0 <= q < PROC_MAX :: fds[q] == if q < p then ClosedIn(old(fds)[q], i) else old(fds)[q]
      {
        var f := 0;
        while f < FDS
          invariant 0 <= f <= FDS && FdsOk(files, fds)
          invariant forall q | 0 <= q < PROC_MAX && q != p ::
                      fds[q] == if q < p then ClosedIn(old(fds)[q], i) else old(fds)[q]
          invariant forall g | 0 <= g < FDS ::
                      fds[p][g] == if g < f then ClosedIn(old(fds)[p], i)[g] else old(fds)[p][g]
        {
          if fds[p][f].used && fds[p][f].file == i {
            fds := fds[p := fds[p][f := fds[p][f].(used := false)]];
          }
          f := f + 1;
        }
        p := p + 1;
      }
      assert fds == Closed(old(fds), i);
    }

    /** fs_unlink: the name goes, and with it every descriptor any process has on it. */
    method Unlink(path: string) returns (rc: int)
      requires Valid()
      modifies this`files, this`fds
      ensures Valid()
      ensures rc == 0 <==> exists name :: Names(path, name) && Get(old(files), name).Some?
      ensures rc != 0 ==> rc == -1 && files == old(files) && fds == old(fds)
      ensures rc == 0 ==> exists name :: Names(path, name) && OnlyName(old(files), files, name, None)
      ensures rc == 0 ==> exists i: nat :: i < FILES && old(files)[i].used && files == old(files)[i := NoFile()]
                                           && fds == Closed(old(fds), i)
    {
      hide OnlyName, Get, NameOk;
      var n := NormalizeName(path);
      if n.None? {
        return -1;
      }
      var i := FindFile(n.value);
      if i == FILES {
        NameIsUnique(path, n.value);
        return -1;
      }
      SlotChanged(files, i, NoFile(), n.value);
      CloseAll(i);
      files := files[i := NoFile()];
      return 0;
    }

    /** fs_rename: the file has the new name and the old one is free; open descriptors
        stay on the file. */
    method Rename(oldPath: string, newPath: string) returns (rc: int)
      requires Valid()
      modifies this`files
      ensures Valid() && (rc == 0 || rc == -1)
      ensures rc == -1 ==> files == old(files)
      ensures forall from, to | Names(oldPath, from) && Names(newPath, to) ::
                && (rc == 0 <==> from == to || (Get(old(files), from).Some? && Get(old(files), to).None?))
                && (rc == 0 ==> forall n :: Get(files, n) == if from == to then Get(old(files), n)
                                                             else if n == to then Get(old(files), from)
                                                             else if n == from then None else Get(old(files), n))
      ensures (forall from :: !Names(oldPath, from)) || (forall to :: !Names(newPath, to)) ==> rc == -1
      ensures forall i | 0 <= i < FILES :: files[i] == old(files)[i].(name := files[i].name)
    {
      var from := NormalizeName(oldPath);
      var to := NormalizeName(newPath);
      if from.None? || to.None? {
        return -1;
      }
      NameIsUnique(oldPath, from.value);
      NameIsUnique(newPath, to.value);
      if from.value == to.value {
        return 0;
      }
      var i := FindFile(from.value);
      if i == FILES {
        return -1;
      }
      var j := FindFile(to.value);
      if j < FILES {
        return -1;
      }
      Renamed(files, i, to.value);
      files := files[i := files[i].(name := to.value)];
      return 0;
    }

    /** What fork does with the descriptors of the parent. */
    method CopyFds(parent: nat, child: nat)
      requires Valid() && parent < PROC_MAX && child < PROC_MAX
      modifies this`fds
      ensures Valid() && fds == old(fds)[child := old(fds)[parent]]
    {
      fds := fds[child := fds[parent]];
    }

    /** One call. */
    method Perform(call: Call)
      requires Valid()
      modifies this
      ensures Valid()
    {
      hide FilesOk, FdsOk, OnlyName, Wrote;
      match call
      case DoOpen(path, flags) => var fd := Open(path, flags);
      case DoClose(fd) => var rc := Close(fd);
      case DoRead(fd, len) => var n, out := Read(fd, len);
      case DoWrite(fd, buf) => var n := Write(fd, buf);
      case DoUnlink(path) => var rc := Unlink(path);
      case DoRename(from, to) => var rc := Rename(from, to);
      case Switch(next) => if next < PROC_MAX { current := next; }
      case Forked(child) => if child < PROC_MAX { CopyFds(current, child); }
    }

    lemma Facts()
      requires Valid()
      ensures FilesOk(files) && FdsOk(files, fds) && current < PROC_MAX
    {}
  }

  lemma SameFd(fds: seq<seq<Fd>>, p: nat, f: nat)
    requires p < |fds| && f < |fds[p]|
    ensures fds[p := fds[p][f := fds[p][f].(offset := fds[p][f].offset + 0)]] == fds
  {
    assert fds[p][f := fds[p][f]] == fds[p];
  }

  /** The n bytes of s from this offset on, or as many as there are. */
  function Slice(s: seq<Byte>, offset: nat, n: nat): seq<Byte> {
    if offset >= |s| then [] else if n < |s| - offset then s[offset..offset + n] else s[offset..]
  }

  lemma SliceOfData(f: File, offset: nat, n: nat)
    requires f.size <= DATA_MAX && offset < f.size
    ensures var m := if n < f.size - offset then n else f.size - offset;
            f.data[offset..offset + m] == Slice(f.Bytes(), offset, n)
  {
    var m := if n < f.size - offset then n else f.size - offset;
    assert |f.data| == DATA_MAX;
    assert Slice(f.Bytes(), offset, n) == f.Bytes()[offset..offset + m];
    assert f.Bytes()[offset..offset + m] == f.data[offset..offset + m];
  }

  /** How many of n bytes fit from this offset on. */
  function Room(offset: nat, n: nat): nat {
    if offset >= 1024 then 0 else if n < 1024 - offset then n else 1024 - offset
  }

  /** The table with every descriptor on file i closed. */
  function ClosedIn(t: seq<Fd>, i: nat): (r: seq<Fd>)
    ensures |r| == |t|
  {
    seq(|t|, f requires 0 <= f < |t| => if t[f].used && t[f].file == i then t[f].(used := false) else t[f])
  }

  function Closed(fds: seq<seq<Fd>>, i: nat): seq<seq<Fd>> {
    seq(|fds|, p requires 0 <= p < |fds| => ClosedIn(fds[p], i))
  }

  lemma NameIsUnique(path: string, name: string)
    requires Names(path, name)
    ensures forall n | Names(path, n) :: n == name
  {
    forall n | Names(path, n) ensures n == name {
      var k :| 0 <= k <= |path| && AllSlashes(path, k) && path[k..] == name;
      assert path[k] == name[0] && name[0] in name;
      NameStarts(path, k, n);
    }
  }

  lemma WroteData(f: File, at: nat, written: seq<Byte>, g: File)
    requires f.size <= DATA_MAX && at < DATA_MAX && at + |written| <= DATA_MAX
    requires g.data == Copied(f.data, at, written)
    requires g.size == if at + |written| > f.size then at + |written| else f.size
    ensures Wrote(f.Bytes(), at, written, g.Bytes())
  {}

  /** The buffer with these bytes copied to an offset. */
  function Copied(data: Data, at: nat, bytes: seq<Byte>): (r: Data)
    requires at + |bytes| <= DATA_MAX
    ensures r[..at] == data[..at] && r[at..at + |bytes|] == bytes && r[at + |bytes|..] == data[at + |bytes|..]
  {
    data[..at] + bytes + data[at + |bytes|..]
  }

  /** Bytes that fit, stored in file i: only its name changes in the store. */
  lemma Stores(files: seq<File>, i: nat, at: nat, written: seq<Byte>, g: File)
    requires FilesOk(files) && i < |files| && files[i].used && at < DATA_MAX && at + |written| <= DATA_MAX
    requires g == files[i].(data := g.data, size := g.size)
    requires g.data == Copied(files[i].data, at, written)
    requires g.size == if at + |written| > files[i].size then at + |written| else files[i].size
    ensures FilesOk(files[i := g]) && Wrote(files[i].Bytes(), at, written, g.Bytes())
    ensures OnlyName(files, files[i := g], files[i].name, Some(g.Bytes()))
  {
    hide OnlyName, Wrote;
    WroteData(files[i], at, written, g);
    GetAt(files, i);
    SlotChanged(files, i, g, files[i].name);
  }

  lemma StoresNothing(files: seq<File>, i: nat, at: nat)
    requires FilesOk(files) && i < |files| && files[i].used && at >= DATA_MAX
    ensures Wrote(files[i].Bytes(), at, [], files[i].Bytes()) && files == files[i := files[i]]
    ensures OnlyName(files, files, files[i].name, Some(files[i].Bytes()))
  {
    GetAt(files, i);
  }

  lemma Renamed(files: seq<File>, i: nat, to: string)
    requires FilesOk(files) && i < |files| && files[i].used && NameOk(to) && Get(files, to) == None
    ensures var t := files[i := files[i].(name := to)];
            && FilesOk(t) && Get(files, files[i].name).Some?
            && forall n :: Get(t, n) == if n == to then Get(files, files[i].name)
                                        else if n == files[i].name then None else Get(files, n)
  {
    var t := files[i := files[i].(name := to)];
    GetAt(files, i);
    forall j | 0 <= j < |files| && files[j].used ensures files[j].name != to { GetAt(files, j); }
    assert FilesOk(t);
    GetAt(t, i);
    forall n ensures Get(t, n) == if n == to then Get(files, files[i].name)
                                  else if n == files[i].name then None else Get(files, n) {
      if j: nat :| At(t, j, n) {
        GetAt(t, j);
        if j != i { GetAt(files, j); }
      } else if j: nat :| At(files, j, n) {
        GetAt(files, j);
        assert j == i || At(t, j, n);
      }
    }
  }

  ghost predicate FileFree(files: seq<File>) { exists i :: 0 <= i < |files| && !files[i].used }
  ghost predicate FdFree(t: seq<Fd>) { exists f :: 0 <= f < |t| && !t[f].used }

  /** The path names this, and it is there or may be made. */
  ghost predicate CanOpen(files: seq<File>, path: string, name: string, flags: Flags)
    requires FilesOk(files)
  {
    Names(path, name) && (Get(files, name).Some? || (flags.creat && FileFree(files)))
  }

  /** The file is there, created or truncated as asked, and no other has changed. */
  ghost predicate MadeReady(before: seq<File>, after: seq<File>, name: string, flags: Flags)
    requires FilesOk(before) && FilesOk(after)
  {
    OnlyName(before, after, name, Some(if flags.trunc || Get(before, name).None? then [] else Get(before, name).value))
  }

  /** There is nothing to create and nothing to truncate. */
  ghost predicate Ready(files: seq<File>, name: string, flags: Flags)
    requires FilesOk(files)
  {
    Get(files, name).Some? && (flags.trunc ==> Get(files, name).value == [])
  }

  /** What creating, or not, and then truncating, or not, comes to. */
  lemma OpenChanges(before: seq<File>, made: seq<File>, i: nat, name: string, flags: Flags)
    requires FilesOk(before) && FilesOk(made) && At(made, i, name)
    requires if Get(before, name).Some? then made == before else OnlyName(before, made, name, Some([]))
    ensures var after := if flags.trunc then made[i := made[i].(size := 0)] else made;
            FilesOk(after) && At(after, i, name) && MadeReady(before, after, name, flags)
            && (after == before <==> Ready(before, name, flags))
  {
    GetAt(made, i);
    SlotChanged(made, i, made[i].(size := 0), name);
    var cut := made[i := made[i].(size := 0)];
    if Get(before, name).Some? && Get(before, name).value == [] {
      assert made[i].size == 0;
    }
  }

  /** Descriptors stay right while file i stays in use. */
  lemma CutKeepsFds(files: seq<File>, fds: seq<seq<Fd>>, i: nat, f: File)
    requires FdsOk(files, fds) && i < |files| && f.used
    ensures FdsOk(files[i := f], fds)
  {}

  /** So the descriptor is on the file. */
  ghost predicate OpenedAs(before: seq<File>, after: seq<File>, name: string, flags: Flags, d: Fd)
    requires FilesOk(before) && FilesOk(after)
  {
    && (Get(before, name).None? ==> flags.creat) && MadeReady(before, after, name, flags)
    && d.used && At(after, d.file, name) && d.flags == flags
    && d.offset == if flags.append then |Get(after, name).value| else 0
  }

  // ---------------------------------------------------------------------
  // The round trip.

  /** As much of s as a file holds. */
  function Cut(s: seq<Byte>): seq<Byte> { if |s| <= 1024 then s else s[..1024] }

  function Concat(chunks: seq<seq<Byte>>): seq<Byte> {
    if chunks == [] then [] else Concat(chunks[..|chunks| - 1]) + chunks[|chunks| - 1]
  }

  function Total(sizes: seq<nat>): nat { if sizes == [] then 0 else Total(sizes[..|sizes| - 1]) + sizes[|sizes| - 1] }

  /** A write at the end of a file adds as much as fits. */
  lemma WroteAtEnd(all: seq<Byte>, buf: seq<Byte>, after: seq<Byte>)
    requires Wrote(Cut(all), |Cut(all)|, buf[..Room(|Cut(all)|, |buf|)], after)
    ensures after == Cut(all + buf) && |after| == |Cut(all)| + Room(|Cut(all)|, |buf|)
  {
    var before, n := Cut(all), Room(|Cut(all)|, |buf|);
    assert |after| == |before| + n;
    forall k | 0 <= k < |after| ensures after[k] == Cut(all + buf)[k] {
      if k >= |before| { assert after[|before| + (k - |before|)] == buf[..n][k - |before|]; }
    }
  }

  lemma SliceMore(s: seq<Byte>, m: nat, n: nat)
    ensures Slice(s, 0, m) + Slice(s, |Slice(s, 0, m)|, n) == Slice(s, 0, m + n)
  {}

  /** Descriptor fd of the current process is at this offset of a file with these bytes. */
  ghost predicate Stands(fs: FileSystem, fd: nat, bytes: seq<Byte>, offset: nat)
    reads fs
  {
    && fs.Valid() && fd < FDS && fs.IsOpen(fd)
    && fs.files[fs.fds[fs.current][fd].file].Bytes() == bytes && fs.fds[fs.current][fd].offset == offset
  }

  /** Writes the chunks one after the other to an empty file. */
  method WriteChunks(fs: FileSystem, fd: nat, chunks: seq<seq<Byte>>)
    requires Stands(fs, fd, [], 0) && fs.fds[fs.current][fd].flags.mode in {WRITE_ONLY, READ_WRITE}
    modifies fs`files, fs`fds
    ensures fs.Valid() && fd < FDS && fs.IsOpen(fd) && fs.fds[fs.current][fd].file == old(fs.fds[fs.current][fd].file)
    ensures Stands(fs, fd, Cut(Concat(chunks)), |Cut(Concat(chunks))|)
    ensures fs.files[fs.fds[fs.current][fd].file].name == old(fs.files[fs.fds[fs.current][fd].file].name)
  {
    hide Cut, Concat, Wrote, OnlyName, Room;
    var i := 0;
    ghost var f := fs.fds[fs.current][fd].file;
    ghost var name := fs.files[f].name;
    NextConcat([], []);
    while i < |chunks|
      invariant 0 <= i <= |chunks| && Stands(fs, fd, Cut(Concat(chunks[..i])), |Cut(Concat(chunks[..i]))|)
      invariant fs.fds[fs.current][fd].file == f && fs.fds[fs.current][fd].flags.mode in {WRITE_ONLY, READ_WRITE}
      invariant fs.files[f].name == name
    {
      assert chunks[..i + 1] == chunks[..i] + [chunks[i]];
      NextConcat(chunks[..i], chunks[i]);
      var n := fs.Write(fd, chunks[i]);
      WroteAtEnd(Concat(chunks[..i]), chunks[i], fs.files[f].Bytes());
      i := i + 1;
    }
    assert chunks[..i] == chunks;
  }

  lemma NextConcat(chunks: seq<seq<Byte>>, c: seq<Byte>)
    ensures Concat(chunks + [c]) == Concat(chunks) + c && Concat([]) == [] && Cut([]) == []
  {
    assert (chunks + [c])[..|chunks|] == chunks;
  }

  lemma NextTotal(sizes: seq<nat>, n: nat)
    ensures Total(sizes + [n]) == Total(sizes) + n && Total([]) == 0
  {
    assert (sizes + [n])[..|sizes|] == sizes;
  }

  /** Reads pieces of these sizes one after the other from the start of a file. */
  method ReadPieces(fs: FileSystem, fd: nat, sizes: seq<nat>, ghost bytes: seq<Byte>) returns (out: seq<Byte>)
    requires Stands(fs, fd, bytes, 0) && fs.fds[fs.current][fd].flags.mode != WRITE_ONLY
    modifies fs`fds
    ensures fs.Valid() && out == Slice(bytes, 0, Total(sizes))
  {
    hide Total, Slice;
    out := [];
    var i := 0;
    NextTotal([], 0);
    SliceNothing(bytes);
    while i < |sizes|
      invariant 0 <= i <= |sizes| && Stands(fs, fd, bytes, |out|) && fs.fds[fs.current][fd].flags.mode != WRITE_ONLY
      invariant out == Slice(bytes, 0, Total(sizes[..i]))
    {
      assert sizes[..i + 1] == sizes[..i] + [sizes[i]];
      NextTotal(sizes[..i], sizes[i]);
      SliceMore(bytes, Total(sizes[..i]), sizes[i]);
      var n, piece := fs.Read(fd, sizes[i]);
      out := out + piece;
      i := i + 1;
    }
    assert sizes[..i] == sizes;
  }

  lemma SliceNothing(s: seq<Byte>)
    ensures Slice(s, 0, 0) == []
  {}

  /** Chunks written through a fresh O_CREAT|O_TRUNC descriptor, read back in pieces of any
      sizes through another fresh one, give their concatenation, cut at 1024 bytes. */
  method RoundTrip(fs: FileSystem, path: string, chunks: seq<seq<Byte>>, sizes: seq<nat>)
    returns (ok: bool, out: seq<Byte>)
    requires fs.Valid()
    modifies fs`files, fs`fds
    ensures fs.Valid() && (ok ==> out == Slice(Cut(Concat(chunks)), 0, Total(sizes)))
    ensures ok && Total(sizes) >= 1024 ==> out == Cut(Concat(chunks))
    ensures ok <==> FdFree(old(fs.fds)[fs.current]) && exists n :: CanOpen(old(fs.files), path, n, FlagsOf(0x302))
  {
    hide Cut, Concat, Total, OnlyName, Slice, Wrote;
    ok, out := false, [];
    var w;
    ghost var name;
    w, name := OpenEmpty(fs, path);
    if w < 0 {
      return;
    }
    WriteChunks(fs, w, chunks);
    ghost var bytes := Cut(Concat(chunks));
    GetAt(fs.files, fs.fds[fs.current][w].file);
    var rc := fs.Close(w);
    assert !fs.fds[fs.current][w].used;
    var r := OpenToRead(fs, path, name, bytes);
    if r < 0 {
      return;
    }
    out := ReadPieces(fs, r, sizes, bytes);
    WholeSlice(bytes, Total(sizes));
    CutFits(Concat(chunks));
    ok := true;
  }

  /** open(path, O_CREAT | O_TRUNC | O_WRONLY) */
  method OpenEmpty(fs: FileSystem, path: string) returns (w: int, ghost name: string)
    requires fs.Valid()
    modifies fs`files, fs`fds
    ensures fs.Valid() && w < FDS && (w < 0 ==> w == -1)
    ensures w >= 0 <==> FdFree(old(fs.fds)[fs.current]) && exists n :: CanOpen(old(fs.files), path, n, FlagsOf(0x302))
    ensures w >= 0 ==> Stands(fs, w, [], 0) && fs.fds[fs.current][w].flags.mode == WRITE_ONLY
    ensures w >= 0 ==> Names(path, name) && fs.files[fs.fds[fs.current][w].file].name == name
  {
    w := fs.Open(path, 0x302);
    name := "";
    if w >= 0 {
      name :| Names(path, name) && OpenedAs(old(fs.files), fs.files, name, FlagsOf(0x302), fs.fds[fs.current][w]);
      GetAt(fs.files, fs.fds[fs.current][w].file);
    }
  }

  /** open(path, O_RDONLY) of a file with these bytes. */
  method OpenToRead(fs: FileSystem, path: string, ghost name: string, ghost bytes: seq<Byte>) returns (r: int)
    requires fs.Valid() && Names(path, name) && Get(fs.files, name) == Some(bytes)
    modifies fs`files, fs`fds
    ensures fs.Valid() && r < FDS && (r >= 0 <==> FdFree(old(fs.fds)[fs.current]))
    ensures r >= 0 ==> Stands(fs, r, bytes, 0) && fs.fds[fs.current][r].flags.mode == READ_ONLY
  {
    assert CanOpen(fs.files, path, name, FlagsOf(0x001));
    r := fs.Open(path, 0x001);
    if r >= 0 {
      ghost var n :| Names(path, n) && OpenedAs(old(fs.files), fs.files, n, FlagsOf(0x001), fs.fds[fs.current][r]);
      NameIsUnique(path, name);
      GetAt(fs.files, fs.fds[fs.current][r].file);
    }
  }

  lemma WholeSlice(s: seq<Byte>, n: nat)
    ensures n >= |s| ==> Slice(s, 0, n) == s
  {}

  lemma CutFits(s: seq<Byte>)
    ensures |Cut(s)| <= 1024
  {}

  // ---------------------------------------------------------------------
  // Whole runs, and a failing open.

  /** What the current process does; a switch to another process; or its fork, which
      gives the child the same descriptors. */
  datatype Call =
    | DoOpen(path: string, flags: nat) | DoClose(fd: int) | DoRead(fd: int, len: nat) | DoWrite(fd: int, buf: seq<Byte>)
    | DoUnlink(path: string) | DoRename(from: string, to: string) | Switch(next: nat) | Forked(child: nat)

  /** Over every sequence of calls of all processes names are different and fit, sizes and
      offsets do not pass 1024, and every open descriptor of every process, also after
      somebody has unlinked the file, is on a file in use. */
  method Run(calls: seq<Call>) returns (fs: FileSystem)
    ensures |fs.files| == FILES && |fs.fds| == PROC_MAX
    ensures forall i, j | 0 <= i < j < FILES && fs.files[i].used && fs.files[j].used ::
              fs.files[i].name != fs.files[j].name
    ensures forall i | 0 <= i < FILES && fs.files[i].used :: fs.files[i].size <= 1024 && NameOk(fs.files[i].name)
    ensures forall p, fd | 0 <= p < PROC_MAX && 0 <= fd < |fs.fds[p]| && fs.fds[p][fd].used ::
              fs.fds[p][fd].file < FILES && fs.files[fs.fds[p][fd].file].used && fs.fds[p][fd].offset <= 1024
  {
    fs := new FileSystem();
    for i := 0 to |calls|
      invariant fresh(fs) && fs.Valid()
    {
      fs.Perform(calls[i]);
    }
    fs.Facts();
  }

  /** A file of three bytes, and no descriptor free. */
  method FullOfDescriptors() returns (fs: FileSystem)
    ensures fresh(fs) && fs.Valid() && fs.current < |fs.fds| && !FdFree(fs.fds[fs.current])
    ensures Get(fs.files, "a").Some? && |Get(fs.files, "a").value| == 3
  {
    fs := new FileSystem();
    fs.files := seq(FILES, _ => NoFile())[0 := File(true, "a", Zeros(), 3)];
    fs.fds := seq(PROC_MAX, _ => seq(FDS, _ => Fd(true, 0, 0, NO_FLAGS)));
    GetAt(fs.files, 0);
  }

  /** An open that fails for want of a descriptor and has emptied the file: here all
      descriptors are on a file of three bytes that is opened once more with O_TRUNC. */
  method FailedOpenEmpties() returns (fs: FileSystem, fd: int, ghost before: seq<File>)
    ensures FilesOk(before) && Get(before, "a").Some? && |Get(before, "a").value| == 3
    ensures fs.Valid() && fd == -1 && Get(fs.files, "a") == Some([])
    ensures CanOpen(before, "a", "a", FlagsOf(0x201)) && MadeReady(before, fs.files, "a", FlagsOf(0x201))
  {
    hide OnlyName, FilesOk, FdsOk, FdFree, Get;
    fs := FullOfDescriptors();
    before := fs.files;
    NameOfA();
    assert CanOpen(before, "a", "a", FlagsOf(0x201));
    fd := fs.Open("a", 0x201);
    OnlyNameHas(before, fs.files, "a", Some([]));
  }

  lemma NameOfA()
    ensures Names("a", "a")
  {
    assert AllSlashes("a", 0) && "a"[0..] == "a";
  }

  lemma OnlyNameHas(before: seq<File>, after: seq<File>, name: string, r: Option<seq<Byte>>)
    requires FilesOk(before) && FilesOk(after) && OnlyName(before, after, name, r)
    ensures Get(after, name) == r
  {}
}
