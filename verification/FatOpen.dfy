/** Opening by path: resolve, look up, create, and take a handle from the table of open files. */
module FatOpen {
  import opened Bytes
  import opened FatTable
  import opened FatChain
  import opened FatContent
  import opened FatVolume
  import opened FatFile
  import opened FatDir
  import opened FatWrite
  import opened FatCreate
  import opened FatRoundTrip
  import opened PathWalk
  import opened ShortName

  const MODE_R := 114
  const MODE_W := 119
  const MODE_A := 97

  /** The walk along the path meets proper chains only, and so does the last directory. */
  ghost predicate Reachable(d: Disk, L: Layout, path: seq<byte>)
  {
    && L.Fits(|d|) && 0 !in path
    && (|Stripped(path)| < BUFFER ==> Walkable(d, L, L.root, DirsOf(Stripped(path))))
    && var res := ResolvedPath(d, L, path);
       res.At? && res.name.Some? ==> HasChain(Fat(d, L), res.parent)
  }

  ghost function ResolvedPath(d: Disk, L: Layout, path: seq<byte>): Resolved
    requires L.Fits(|d|) && (|Stripped(path)| < BUFFER ==> Walkable(d, L, L.root, DirsOf(Stripped(path))))
  {
    if |Stripped(path)| >= BUFFER then Missing else ResolveFrom(d, L, L.root, Stripped(path))
  }

  /** What a path names: nothing that could be a file, an entry, or a name its directory does not have. */
  datatype Target = Nothing | Existing(entry: Dirent) | Absent(dir: seq<nat>, name: Name)

  ghost function TargetOf(d: Disk, L: Layout, path: seq<byte>): Target
    requires Reachable(d, L, path)
  {
    var res := ResolvedPath(d, L, path);
    if res.Missing? || res.name.None? then Nothing
    else
      var ch := ChainFrom(Fat(d, L), res.parent);
      var r := Lookup(Directory(d, L, ch), res.name.value);
      if r.Some? then Existing(Directory(d, L, ch)[r.value]) else Absent(ch, res.name.value)
  }

  /** The first handle that is not in use, or the number of handles. */
  method FreeHandle(files: seq<FileHandle>) returns (i: nat)
    ensures i <= |files| && (i < |files| ==> !files[i].used)
    ensures forall j :: 0 <= j < i ==> files[j].used
  {
    i := 0;
    while i < |files| && files[i].used
      invariant 0 <= i <= |files|
      invariant forall j :: 0 <= j < i ==> files[j].used
    {
      i := i + 1;
    }
  }

  /** A handle at the start of the file; mode `w` forgets the size, mode `a` takes it as position. */
  ghost predicate OpenedAt(file: FileHandle, cluster: nat, size: nat, mode: byte)
    reads file
  {
    && file.used
    && file.mode == (if mode == MODE_W || mode == MODE_A then MODE_WRITE else MODE_READ)
    && file.firstCluster == cluster && file.currCluster == cluster && file.currOffset == 0
    && file.fileSize == (if mode == MODE_W then 0 else size)
    && file.filePos == (if mode == MODE_A then size else 0)
  }

  method SetUp(files: seq<FileHandle>, e: Dirent, mode: byte) returns (file: FileHandle?)
    modifies set f | f in files
    ensures file == null <==> forall f :: f in files ==> old(f.used)
    ensures file != null ==> file in files && !old(file.used)
    ensures file != null ==> OpenedAt(file, Le(e[26..28]) + 0x1_0000 * Le(e[20..22]), Le(e[28..32]), mode)
    ensures forall f :: f in files && f != file ==> unchanged(f)
  {
    file := null;
    var i := FreeHandle(files);
    if i == |files| { return; }
    file := files[i];
    file.used, file.mode := true, MODE_READ;
    file.firstCluster, file.currCluster, file.currOffset := ClusterOf(e), ClusterOf(e), 0;
    file.fileSize, file.filePos := SizeOf(e), 0;
    if mode == MODE_W {
      file.mode, file.fileSize, file.filePos := MODE_WRITE, 0, 0;
    } else if mode == MODE_A {
      file.mode, file.filePos := MODE_WRITE, SizeOf(e);
    }
  }

  /**
   `fat32_open`. A missing file is created for modes `w` and `a`; when that fails the disk is
   bit-identical. With no handle left the call fails after the file was created.
   */
  method Open(fs: FatFs, files: seq<FileHandle>, path: seq<byte>, mode: byte)
    returns (file: FileHandle?, r: nat, ghost i: nat)
    requires Reachable(fs.disk, fs.L, path)
    requires TargetOf(fs.disk, fs.L, path).Absent? && (mode == MODE_W || mode == MODE_A) ==>
      FreeCount(Fat(fs.disk, fs.L)) > 0 || NoneFreeOnDevice(fs.disk, fs.L)
    modifies fs`disk, set f | f in files
    ensures |fs.disk| == |old(fs.disk)|
    ensures forall f :: f in files && f != file ==> unchanged(f)
    ensures file != null ==> file in files && !old(file.used)
    ensures match TargetOf(old(fs.disk), fs.L, path) {
        case Nothing => file == null && fs.disk == old(fs.disk)
        case Existing(e) =>
          && fs.disk == old(fs.disk)
          && (file == null <==> forall f :: f in files ==> old(f.used))
          && (file != null ==> OpenedAt(file, Le(e[26..28]) + 0x1_0000 * Le(e[20..22]), Le(e[28..32]), mode))
        case Absent(ch, name) =>
          && IsChain(Fat(old(fs.disk), fs.L), ch)
          && if (mode != MODE_W && mode != MODE_A)
                || FreeSlot(Directory(old(fs.disk), fs.L, ch)).None? || FreeCount(Fat(old(fs.disk), fs.L)) == 0
             then file == null && fs.disk == old(fs.disk)
             else
               && Created(fs.L, old(fs.disk), fs.disk, ch, i, NewEntry(name, ATTR_ARCHIVE, r), r)
               && (file == null <==> forall f :: f in files ==> old(f.used))
               && (file != null ==> OpenedAt(file, r, 0, mode))
      }
  {
    hide IsChain, Fat, Directory, FreeSlot, FreeCount, Created, NewEntry, NoneFreeOnDevice, Lookup, Walkable, HasChain,
      ResolveFrom, Layout.Fits, OpenedAt, Le;
    file, r, i := null, 0, 0;
    var res := Resolve(fs, path);
    if res.Missing? || res.name.None? { return; }
    ghost var ch := ChainFrom(Fat(fs.disk, fs.L), res.parent);
    var exists', e := FindEntry(fs, res.parent, res.name.value, ch);
    if !exists' {
      if mode != MODE_W && mode != MODE_A { return; }
      var ok;
      ok, r, i := CreateFile(fs, res.parent, res.name.value, ch);
      if !ok { return; }
      ClusterFits(fs.L, old(fs.disk), fs.disk, ch, i, NewEntry(res.name.value, ATTR_ARCHIVE, r), r);
      NewEntryFields(res.name.value, ATTR_ARCHIVE, r);
      e := NewEntry(res.name.value, ATTR_ARCHIVE, r);
    }
    file := SetUp(files, e, mode);
  }

  lemma {:induction false} ClusterFits(L: Layout, d: Disk, e: Disk, ch: seq<nat>, i: nat, entry: Dirent, r: nat)
    requires Created(L, d, e, ch, i, entry, r)
    ensures 2 <= r < U32 && r !in ch && IsChain(Fat(e, L), [r]) && IsChain(Fat(e, L), ch)
  {
    SingleChain(Fat(d, L), ch, r);
    ChainFrame(Fat(d, L), Fat(e, L), ch);
  }

  /** `fat32_mkdir`. A path that names something, or nothing with a name, is refused and nothing changes. */
  method Mkdir(fs: FatFs, path: seq<byte>) returns (ret: int, r: nat, ghost i: nat)
    requires Reachable(fs.disk, fs.L, path)
    requires TargetOf(fs.disk, fs.L, path).Absent? ==>
      FreeCount(Fat(fs.disk, fs.L)) > 0 || NoneFreeOnDevice(fs.disk, fs.L)
    modifies fs`disk
    ensures |fs.disk| == |old(fs.disk)| && (ret == 0 || ret == -1)
    ensures match TargetOf(old(fs.disk), fs.L, path) {
        case Nothing => ret == -1 && fs.disk == old(fs.disk)
        case Existing(_) => ret == -1 && fs.disk == old(fs.disk)
        case Absent(ch, name) =>
          && IsChain(Fat(old(fs.disk), fs.L), ch)
          && (ret == 0 <==> FreeSlot(Directory(old(fs.disk), fs.L, ch)).Some? && FreeCount(Fat(old(fs.disk), fs.L)) > 0)
          && (ret != 0 ==> SameTable(old(fs.disk), fs.disk, fs.L) && Frame(old(fs.disk), fs.disk, fs.L, []))
          && (ret == 0 ==> Created(fs.L, old(fs.disk), fs.disk, ch, i, NewEntry(name, ATTR_DIRECTORY, r), r)
                           && NewDirectory(fs.disk, fs.L, r, ch[0]))
      }
  {
    hide IsChain, Fat, Directory, FreeSlot, FreeCount, Created, NewEntry, NoneFreeOnDevice, Lookup, Walkable, HasChain,
      ResolveFrom, Layout.Fits, NewDirectory, SameTable, Frame;
    ret, r, i := -1, 0, 0;
    var res := Resolve(fs, path);
    if res.Missing? || res.name.None? { return; }
    ghost var ch := ChainFrom(Fat(fs.disk, fs.L), res.parent);
    var exists', _ := FindEntry(fs, res.parent, res.name.value, ch);
    if exists' { return; }
    ret, r, i := MakeDirectory(fs, res.parent, res.name.value, ch);
  }

  // ----- what the handles are good for -----

  /** A handle on a file just created, in mode `w`, can be written through. */
  lemma {:induction false} NewHandleWrites(fs: FatFs, file: FileHandle, r: nat)
    requires fs.L.Fits(|fs.disk|) && IsChain(Fat(fs.disk, fs.L), [r]) && OpenedAt(file, r, 0, MODE_W)
    ensures WriteHandle(fs, file, [r]) && file.filePos == 0 && file.fileSize == 0 && file.used
      && file.mode == MODE_WRITE
  {
    CursorInside(fs.L, [r], 0, 0);
  }

  /** A handle for reading is sound when the entry's chain is and holds the size. */
  lemma {:induction false} OpenedReads(fs: FatFs, file: FileHandle, e: Dirent, mode: byte, ch: seq<nat>)
    requires fs.L.Fits(|fs.disk|) && OpenedAt(file, ClusterOf(e), SizeOf(e), mode) && mode != MODE_W && mode != MODE_A
    requires SizeOf(e) > 0 ==>
      IsChain(Fat(fs.disk, fs.L), ch) && ch[0] == ClusterOf(e) && SizeOf(e) <= Capacity(fs.L, ch)
    ensures ReadHandle(fs, file, ch) && file.filePos == 0
  {
    SizeBound(e);
    if SizeOf(e) > 0 {
      CursorInside(fs.L, ch, 0, 0);
    }
  }

  lemma {:induction false} SizeBound(e: Dirent)
    ensures SizeOf(e) < U32
  {
    ToLeOfLe(e[28..32]);
    assert Pow256(4) == U32;
  }

  // ----- from a path to bytes and back -----

  /** The path names no file yet, and its directory has a slot for one. */
  ghost predicate CanCreate(d: Disk, L: Layout, path: seq<byte>)
  {
    && Reachable(d, L, path)
    && var t := TargetOf(d, L, path);
       t.Absent? && FreeSlot(Directory(d, L, t.dir)).Some?
  }

  /** Directory `ch` gained exactly this entry, and every other chain kept its links and its content. */
  ghost predicate Saved(L: Layout, d: Disk, f: Disk, ch: seq<nat>, i: nat, entry: Dirent)
  {
    && L.Fits(|d|) && |f| == |d|
    && IsChain(Fat(d, L), ch) && IsChain(Fat(f, L), ch)
    && FreeSlot(Directory(d, L, ch)) == Some(i) && Directory(f, L, ch) == Directory(d, L, ch)[i := entry]
    && OthersKept(d, f, L, ch)
  }

  /**
   A file that did not exist, opened in mode `w` and written in any number of pieces: a read handle
   on its cluster and size delivers exactly those bytes, its directory has exactly the new entry,
   and every chain that is not the directory's keeps its links and its content.
   */
  method SaveNew(fs: FatFs, files: seq<FileHandle>, reader: FileHandle, path: seq<byte>, bufs: seq<seq<byte>>)
    returns (file: FileHandle?, ret: int, back: seq<byte>, r: nat, ghost i: nat)
    requires CanCreate(fs.disk, fs.L, path) && reader !in files
    requires fs.L.spc > 0
    requires |Total(bufs)| <= INT_MAX && Quot(|Total(bufs)|, fs.L.ClusterBytes()) < FreeCount(Fat(fs.disk, fs.L))
    modifies fs`disk, reader, set f | f in files
    ensures file == null <==> forall f :: f in files ==> old(f.used)
    ensures file != null ==> file in files && file.used && !old(file.used)
    ensures forall f :: f in files && f != file ==> unchanged(f)
    ensures file != null ==>
      var t := TargetOf(old(fs.disk), fs.L, path);
      && ret == |Total(bufs)| && back == Total(bufs) && r < U32
      && Saved(fs.L, old(fs.disk), fs.disk, t.dir, i, NewEntry(t.name, ATTR_ARCHIVE, r))
  {
    hide IsChain, Fat, Directory, FreeSlot, FreeCount, Created, NewEntry, NoneFreeOnDevice, Lookup, Walkable, HasChain,
      ResolveFrom, Layout.Fits, OpenedAt, WriteHandle, OthersKept, Room, Reachable, TargetOf, Saved;
    CanCreateMeans(fs.disk, fs.L, path);
    ghost var d, t := fs.disk, TargetOf(fs.disk, fs.L, path);
    file, r, i := Open(fs, files, path, MODE_W);
    ret, back := 0, [];
    if file == null { return; }
    ghost var e := fs.disk;
    RoomInNew(fs.L, d, e, t.dir, i, NewEntry(t.name, ATTR_ARCHIVE, r), r, |Total(bufs)|);
    NewHandleWrites(fs, file, r);
    ret, back := WriteThenRead(fs, file, reader, bufs, [r]);
    SavedBeside(fs.L, d, e, fs.disk, t.dir, i, NewEntry(t.name, ATTR_ARCHIVE, r), r);
    ClusterFits(fs.L, d, e, t.dir, i, NewEntry(t.name, ATTR_ARCHIVE, r), r);
  }

  lemma {:induction false} CanCreateMeans(d: Disk, L: Layout, path: seq<byte>)
    requires CanCreate(d, L, path)
    ensures Reachable(d, L, path) && L.spc > 0
    ensures var t := TargetOf(d, L, path);
      t.Absent? && L.Fits(|d|) && IsChain(Fat(d, L), t.dir) && Within(L, t.dir)
        && FreeSlot(Directory(d, L, t.dir)).Some?
  {
  }

  /** Creating takes one free cluster, which the new file then has. */
  lemma {:induction false} RoomInNew(L: Layout, d: Disk, e: Disk, ch: seq<nat>, i: nat, entry: Dirent, r: nat, n: nat)
    requires Created(L, d, e, ch, i, entry, r) && Quot(n, L.ClusterBytes()) < FreeCount(Fat(d, L))
    ensures L.Fits(|e|) && IsChain(Fat(e, L), [r]) && Room(L, e, [r], 0, n)
  {
    ClusterFits(L, d, e, ch, i, entry, r);
    AllocFreeSet(Fat(d, L), 0, r);
  }

  lemma {:induction false} SavedBeside(
    L: Layout, d: Disk, e: Disk, f: Disk, ch: seq<nat>, i: nat, entry: Dirent, r: nat)
    requires Created(L, d, e, ch, i, entry, r) && OthersKept(e, f, L, [r])
    ensures Saved(L, d, f, ch, i, entry)
  {
    hide Content, DirOf, Fat, FreeSlot;
    ClusterFits(L, d, e, ch, i, entry, r);
    assert Disjoint(ch, [r]);
    FrameOthers(d, e, L, ch);
    forall o | IsChain(Fat(d, L), o) && Disjoint(o, ch)
      ensures IsChain(Fat(f, L), o) && Within(L, o) && Content(f, L, o) == Content(d, L, o)
    {
      FreeOffChain(Fat(d, L), o, r);
      assert Disjoint(o, [r]);
    }
  }

  // ----- a fresh volume -----

  /** Zeros, and the root directory in cluster 2. */
  function Formatted(L: Layout, sectors: nat): (d: Disk)
    requires EntrySector(L, 2) < sectors
    ensures |d| == sectors
  {
    PutEntry(seq(sectors, _ => ZeroSector()), L, 2, END_OF_CHAIN)
  }

  lemma {:induction false} ZeroEntries(d: Disk, L: Layout, c: nat)
    requires EntrySector(L, c) < |d| && forall n :: 0 <= n < |d| ==> d[n] == ZeroSector()
    ensures FatEntry(d, L, c) == FREE_CLUSTER
  {
    var at := EntryOffset(c);
    assert d[EntrySector(L, c)][at..at + 4] == [0, 0, 0, 0];
    assert Le([0, 0, 0, 0]) == 0;
  }

  /** Its table has the root chain and nothing else, and its root directory is empty. */
  lemma {:induction false} FormattedRoot(L: Layout, sectors: nat)
    requires L.Fits(sectors) && L.limit > 2
    ensures EntrySector(L, 2) < sectors
    ensures var d := Formatted(L, sectors);
      && IsChain(Fat(d, L), [2]) && (L.limit > 3 ==> FreeCount(Fat(d, L)) > 0)
      && forall j :: 0 <= j < |Directory(d, L, [2])| ==> Directory(d, L, [2])[j][0] == 0
  {
    EntryInTable(L, sectors, 2);
    var z, d := seq(sectors, _ => ZeroSector()), Formatted(L, sectors);
    PutEntryFat(z, L, 2, END_OF_CHAIN);
    if L.limit > 3 {
      EntryInTable(L, sectors, 3);
      ZeroEntries(z, L, 3);
      assert 3 in FreeSet(Fat(d, L));
    }
    assert IsChain(Fat(d, L), [2]);
    hide Fat, IsChain, PutEntry, FatEntry, Directory;
    forall j | 0 <= j < |Directory(d, L, [2])|
      ensures Directory(d, L, [2])[j][0] == 0
    {
      var k, s := SlotPlace(L, [2], j);
      SlotAt(d, L, [2], k, s, j % 16);
      assert d[SectorNo(L, 2, s)] == ZeroSector();
    }
  }

  /** A volume of one cluster, taken by the root: the scan takes the word behind the table. */
  lemma {:induction false} ScanLeavesTable()
    ensures var L := Layout(0, 1, 1, 3, 2);
      && L.Fits(2) && EntrySector(L, 2) < 2
      && FreeCount(Fat(Formatted(L, 2), L)) == 0 && FirstFreeOnDevice(Formatted(L, 2), L, 3)
  {
    hide FatEntry, PutEntry, RawEntry, Fat, FreeCount;
    var L := Layout(0, 1, 1, 3, 2);
    var z, d := seq(2, _ => ZeroSector()), Formatted(L, 2);
    RootTakesAll();
    ZeroEntries(z, L, 3);
    PutEntryOther(z, L, 2, END_OF_CHAIN, 3);
    PutEntrySame(z, L, 2, END_OF_CHAIN);
  }

  lemma {:induction false} RootTakesAll()
    ensures var L := Layout(0, 1, 1, 3, 2);
      L.Fits(2) && EntrySector(L, 2) < 2 && FreeCount(Fat(Formatted(L, 2), L)) == 0
  {
    hide FatEntry, PutEntry;
    var L := Layout(0, 1, 1, 3, 2);
    TimesIsProduct(1, 1);
    var z, d := seq(2, _ => ZeroSector()), Formatted(L, 2);
    PutEntryFat(z, L, 2, END_OF_CHAIN);
    assert FreeSet(Fat(d, L)) == {};
  }

  /** On a fresh volume any path of one component can be created, so the contracts above are met by it. */
  lemma {:induction false} FreshVolume(L: Layout, sectors: nat, name: seq<byte>)
    requires L.Fits(sectors) && L.limit > 3 && L.root == 2
    requires name != [] && 0 !in name && SLASH !in name && |name| < BUFFER
    ensures EntrySector(L, 2) < sectors
    ensures var d, path := Formatted(L, sectors), [SLASH] + name;
      && CanCreate(d, L, path) && FreeCount(Fat(d, L)) > 0
      && TargetOf(d, L, path) == Absent([2], ShortNameOf(name))
  {
    hide *;
    FormattedRoot(L, sectors);
    var d := Formatted(L, sectors);
    EmptyLookups(d, L, ShortNameOf(name));
    RootTarget(d, L, name);
  }

  /** A name that the root directory does not have. */
  lemma {:induction false} RootTarget(d: Disk, L: Layout, name: seq<byte>)
    requires L.Fits(|d|) && L.root == 2 && IsChain(Fat(d, L), [2])
    requires name != [] && 0 !in name && SLASH !in name && |name| < BUFFER
    requires Lookup(Directory(d, L, [2]), ShortNameOf(name)) == None && FreeSlot(Directory(d, L, [2])).Some?
    ensures CanCreate(d, L, [SLASH] + name) && TargetOf(d, L, [SLASH] + name) == Absent([2], ShortNameOf(name))
  {
    hide IsChain, Fat, Directory, Layout.Fits, ShortNameOf, Walkable, ResolveFrom, Lookup, FreeSlot, HasChain,
      Components, DirsOf;
    assert Stripped([SLASH] + name) == name;
    NoSlashInside(name);
    NamedEnd(d, L, 2, name);
    OnlyRoot(d, L);
  }

  lemma {:induction false} NoSlashInside(name: seq<byte>)
    requires SLASH !in name
    ensures IndexOf(name, SLASH) == |name|
  {
  }

  lemma {:induction false} OnlyRoot(d: Disk, L: Layout)
    requires L.Fits(|d|) && IsChain(Fat(d, L), [2])
    ensures HasChain(Fat(d, L), 2) && ChainFrom(Fat(d, L), 2) == [2]
  {
    assert [2][0] == 2;
    ChainUnique(Fat(d, L), [2], ChainFrom(Fat(d, L), 2));
  }

  lemma {:induction false} EmptyLookups(d: Disk, L: Layout, name: Name)
    requires L.Fits(|d|) && IsChain(Fat(d, L), [2])
    requires forall j :: 0 <= j < |Directory(d, L, [2])| ==> Directory(d, L, [2])[j][0] == 0
    ensures Lookup(Directory(d, L, [2]), name) == None && FreeSlot(Directory(d, L, [2])).Some?
  {
    hide Directory, Fat;
    assert Times(1, L.spc) == L.spc;
    assert |Directory(d, L, [2])| > 0;
  }
}
