/** Creating files and directories: one cluster, one entry in the parent. */
module FatCreate {
  import opened Bytes
  import opened FatTable
  import opened FatChain
  import opened FatContent
  import opened FatVolume
  import opened FatDir

  function Zeros(n: nat): (z: seq<byte>)
    ensures |z| == n
  {
    seq(n, _ => 0)
  }

  /** A fresh entry: everything zero but the name, the attribute and the first cluster. */
  function NewEntry(name: Name, attr: byte, cluster: nat): Dirent
  {
    name + [attr] + Zeros(8) + ToLe(cluster / 0x1_0000 % 0x1_0000, 2) + Zeros(4)
      + ToLe(cluster % 0x1_0000, 2) + Zeros(4)
  }

  /** Reading the fields of a fresh entry gives back what was put in. */
  lemma {:induction false} NewEntryFields(name: Name, attr: byte, cluster: nat)
    requires cluster < U32
    ensures NameOf(NewEntry(name, attr, cluster)) == name
    ensures Attr(NewEntry(name, attr, cluster)) == attr
    ensures ClusterOf(NewEntry(name, attr, cluster)) == cluster
    ensures SizeOf(NewEntry(name, attr, cluster)) == 0
    ensures forall j :: 12 <= j < 20 || 22 <= j < 26 ==> NewEntry(name, attr, cluster)[j] == 0
  {
    hide ToLe, Le;
    var e := NewEntry(name, attr, cluster);
    var hi, lo := cluster / 0x1_0000 % 0x1_0000, cluster % 0x1_0000;
    assert e[20..22] == ToLe(hi, 2);
    assert e[26..28] == ToLe(lo, 2);
    assert e[28..32] == [0, 0, 0, 0];
    assert Pow256(2) == 0x1_0000;
    LeOfToLe(hi, 2);
    LeOfToLe(lo, 2);
    ZeroWord();
  }

  lemma {:induction false} ZeroWord()
    ensures Le([0, 0, 0, 0]) == 0
  {
  }

  lemma {:induction false} DirOfSplice(c: seq<byte>, i: nat, e: Dirent)
    requires 32 * i + 32 <= |c|
    ensures DirOf(Splice(c, 32 * i, e)) == DirOf(c)[i := e]
  {
    var c' := Splice(c, 32 * i, e);
    forall j | 0 <= j < |c| / 32
      ensures DirOf(c')[j] == DirOf(c)[i := e][j]
    {
      assert j != i ==> c'[32 * j..32 * j + 32] == c[32 * j..32 * j + 32];
    }
  }

  /** One entry written into its sector is one slot replaced in the directory. */
  lemma {:induction false} SlotWrite(d: Disk, L: Layout, ch: seq<nat>, k: nat, s: nat, ent: nat, e: Dirent)
    requires L.Fits(|d|) && IsChain(Fat(d, L), ch) && k < |ch| && s < L.spc && ent < 16
    ensures L.dataStart <= SectorNo(L, ch[k], s) < |d|
    ensures SlotIndex(L, k, s, ent) < |Directory(d, L, ch)|
    ensures var n := SectorNo(L, ch[k], s);
      Directory(d[n := Splice(d[n], 32 * ent, e)], L, ch) == Directory(d, L, ch)[SlotIndex(L, k, s, ent) := e]
  {
    ChainDistinct(Fat(d, L), ch);
    SlotAt(d, L, ch, k, s, ent);
    var off := s * 512 + ent * 32;
    assert off / 512 == s && off % 512 == 32 * ent;
    SectorPatch(d, L, ch, k, off, e);
    assert Position(L, k, off) == 32 * SlotIndex(L, k, s, ent);
    DirOfSplice(Content(d, L, ch), SlotIndex(L, k, s, ent), e);
  }

  /** Taking a free cluster leaves every chain and every directory as it was. */
  lemma {:induction false} AllocKeepsChain(d: Disk, L: Layout, ch: seq<nat>, r: nat)
    requires L.Fits(|d|) && IsChain(Fat(d, L), ch)
    requires 2 <= r < L.limit && FatEntry(d, L, r) == FREE_CLUSTER
    ensures EntrySector(L, r) < |d|
    ensures Frame(d, AllocDisk(d, L, 0, r), L, [])
    ensures IsChain(Fat(AllocDisk(d, L, 0, r), L), ch)
    ensures Content(AllocDisk(d, L, 0, r), L, ch) == Content(d, L, ch)
  {
    FrameReflexive(d, L, []);
    FrameAlloc(d, d, L, [], 0, r);
    FrameChain(d, AllocDisk(d, L, 0, r), L, [], ch);
  }

  lemma {:induction false} FrameWeaken(d: Disk, e: Disk, L: Layout, mine: seq<nat>)
    requires Frame(d, e, L, [])
    ensures Frame(d, e, L, mine)
  {
  }

  ghost predicate SameTable(d: Disk, e: Disk, L: Layout)
  {
    |e| == |d| && L.dataStart <= |d| && forall n :: 0 <= n < L.dataStart ==> e[n] == d[n]
  }

  lemma {:induction false} SameSectorsReflexive(d: Disk, L: Layout)
    requires L.Fits(|d|)
    ensures forall c :: 2 <= c < L.limit ==> SameSectors(d, d, L, c)
  {
    forall c, s | 2 <= c < L.limit && 0 <= s < L.spc
      ensures SectorNo(L, c, s) < |d|
    {
      SectorInside(L, |d|, c, s);
    }
  }

  /** The entry goes into the first free slot of the parent; a full parent is left alone. */
  method AddEntry(fs: FatFs, parent: nat, e: Dirent, ghost ch: seq<nat>, ghost d0: Disk)
    returns (ok: bool, ghost i: nat)
    requires fs.L.Fits(|fs.disk|) && IsChain(Fat(fs.disk, fs.L), ch) && parent == ch[0]
    requires Frame(d0, fs.disk, fs.L, ch)
    modifies fs`disk
    ensures |fs.disk| == |old(fs.disk)|
    ensures ok == FreeSlot(Directory(old(fs.disk), fs.L, ch)).Some?
    ensures !ok ==> fs.disk == old(fs.disk)
    ensures ok ==>
      && FreeSlot(Directory(old(fs.disk), fs.L, ch)) == Some(i)
      && Fat(fs.disk, fs.L) == Fat(old(fs.disk), fs.L)
      && Directory(fs.disk, fs.L, ch) == Directory(old(fs.disk), fs.L, ch)[i := e]
      && SameTable(old(fs.disk), fs.disk, fs.L)
    ensures Frame(d0, fs.disk, fs.L, ch)
    ensures forall c :: 2 <= c < fs.L.limit && c !in ch ==> SameSectors(old(fs.disk), fs.disk, fs.L, c)
  {
    hide Content, Directory, IsChain, Fat, Frame, SectorNo, SameSectors, SlotIndex, Untouched, Layout.Fits;
    ghost var d := fs.disk;
    TableInFront(fs.L, |d|);
    FrameLength(d0, d, fs.L, ch);
    ChainInside(d, fs.L, ch);
    SameSectorsReflexive(d, fs.L);
    var sector, ent;
    ok, sector, ent := ScanDirectory(fs, parent, FreeProbe(), ch);
    i := 0;
    if ok {
      i := FreeSlot(Directory(d, fs.L, ch)).value;
      ghost var k, s := SlotPlace(fs.L, ch, i);
      SlotWrite(fs.disk, fs.L, ch, k, s, ent, e);
      var buf: Sector := Splice(fs.disk[sector], ent * ENTRY_SIZE, e);
      FramePatch(d0, fs.disk, fs.L, ch, ch[k], s, buf);
      DataWriteFat(fs.disk, fs.L, sector, buf);
      fs.disk := fs.disk[sector := buf];
      forall c | 2 <= c < fs.L.limit && c !in ch
        ensures SameSectors(d, fs.disk, fs.L, c)
      {
        SectorWriteUntouched(d, fs.L, ch[k], s, buf, c);
        UntouchedSectors(d, fs.disk, fs.L, c);
      }
    }
  }

  lemma {:induction false} FrameLength(d: Disk, e: Disk, L: Layout, mine: seq<nat>)
    requires Frame(d, e, L, mine)
    ensures |e| == |d|
  {
  }

  lemma {:induction false} TableInFront(L: Layout, sectors: nat)
    requires L.Fits(sectors)
    ensures L.dataStart <= sectors
  {
  }

  lemma {:induction false} UntouchedSectors(d: Disk, e: Disk, L: Layout, c: nat)
    requires Untouched(d, e, L, c)
    ensures SameSectors(d, e, L, c)
  {
  }

  /** What a successful create has done between disks `d` and `e`. */
  ghost predicate Created(L: Layout, d: Disk, e: Disk, ch: seq<nat>, i: nat, entry: Dirent, r: nat)
  {
    && L.Fits(|d|) && |e| == |d|
    && IsChain(Fat(d, L), ch)
    && IsLeastFree(Fat(d, L), r)
    && Fat(e, L) == Allocated(Fat(d, L), 0, r)
    && FreeSlot(Directory(d, L, ch)) == Some(i)
    && Directory(e, L, ch) == Directory(d, L, ch)[i := entry]
    && Frame(d, e, L, ch)
  }

  /** The creating part of `fat32_open`: on failure the disk is bit-identical. */
  method CreateFile(fs: FatFs, parent: nat, name: Name, ghost ch: seq<nat>)
    returns (ok: bool, r: nat, ghost i: nat)
    requires fs.L.Fits(|fs.disk|) && IsChain(Fat(fs.disk, fs.L), ch) && parent == ch[0]
    requires FreeCount(Fat(fs.disk, fs.L)) > 0 || NoneFreeOnDevice(fs.disk, fs.L)
    modifies fs`disk
    ensures |fs.disk| == |old(fs.disk)|
    ensures ok <==> FreeSlot(Directory(old(fs.disk), fs.L, ch)).Some? && FreeCount(Fat(old(fs.disk), fs.L)) > 0
    ensures !ok ==> fs.disk == old(fs.disk)
    ensures ok ==> Created(fs.L, old(fs.disk), fs.disk, ch, i, NewEntry(name, ATTR_ARCHIVE, r), r)
  {
    ghost var d := fs.disk;
    i := 0;
    if FreeCount(Fat(d, fs.L)) > 0 { ScanStaysInside(d, fs.L); }
    r := fs.AllocateCluster(0);
    if r == 0 {
      return false, 0, 0;
    }
    FirstFreeCounts(d, fs.L, r);
    AllocKeepsChain(d, fs.L, ch, r);
    FrameWeaken(d, fs.disk, fs.L, ch);
    AllocDiskFat(d, fs.L, 0, r);
    hide Content, Fat, FreeCount, IsChain, Frame;
    ok, i := AddEntry(fs, parent, NewEntry(name, ATTR_ARCHIVE, r), ch, d);
    if !ok {
      PutEntryUndo(d, fs.L, r, END_OF_CHAIN);
      var ret := fs.WriteFatEntry(r, FREE_CLUSTER);
    }
  }

  lemma {:induction false} FirstFreeCounts(d: Disk, L: Layout, r: nat)
    requires L.Fits(|d|) && (FreeCount(Fat(d, L)) > 0 || NoneFreeOnDevice(d, L))
    requires FirstFreeOnDevice(d, L, r)
    ensures FreeCount(Fat(d, L)) > 0 && IsLeastFree(Fat(d, L), r)
  {
    ScanStaysInside(d, L);
  }

  // ----- mkdir -----

  /** The dot names are ten characters and the terminating zero. */
  const DOT_NAME: Name := [46, 32, 32, 32, 32, 32, 32, 32, 32, 32, 0]
  const DOTDOT_NAME: Name := [46, 46, 32, 32, 32, 32, 32, 32, 32, 32, 0]

  function ZeroSector(): Sector { Zeros(512) }

  /** The first sector of a new directory: itself and its parent. */
  function DotSector(cluster: nat, parent: nat): Sector
  {
    NewEntry(DOT_NAME, ATTR_DIRECTORY, cluster) + NewEntry(DOTDOT_NAME, ATTR_DIRECTORY, parent) + Zeros(448)
  }

  /** The sectors of cluster `r` up to `n` hold `first` and then zeros. */
  ghost predicate Blank(d: Disk, L: Layout, r: nat, n: nat, first: Sector)
    requires r >= 2
  {
    forall s :: 0 <= s < n ==>
      SectorNo(L, r, s) < |d| && d[SectorNo(L, r, s)] == if s == 0 then first else ZeroSector()
  }

  lemma {:induction false} BlankWrite(d: Disk, L: Layout, r: nat, n: nat, first: Sector, s: nat, sec: Sector)
    requires L.Fits(|d|) && 2 <= r < L.limit && s < L.spc && n <= L.spc && Blank(d, L, r, n, first)
    ensures SectorNo(L, r, s) < |d|
    ensures s == n && sec == (if n == 0 then first else ZeroSector()) ==>
      Blank(d[SectorNo(L, r, s) := sec], L, r, n + 1, first)
    ensures s == 0 ==> Blank(d[SectorNo(L, r, s) := sec], L, r, n, sec)
  {
    SectorInside(L, |d|, r, s);
  }

  /** Clearing and labelling a cluster taken a moment ago touches nothing that was allocated. */
  method FillDirectory(fs: FatFs, cluster: nat, parent: nat, ghost d0: Disk, ghost mine: seq<nat>)
    requires fs.L.Fits(|fs.disk|) && 2 <= cluster < fs.L.limit
    requires Frame(d0, fs.disk, fs.L, mine) && FatEntry(d0, fs.L, cluster) == FREE_CLUSTER
    modifies fs`disk
    ensures Frame(d0, fs.disk, fs.L, mine)
    ensures Fat(fs.disk, fs.L) == Fat(old(fs.disk), fs.L)
    ensures SameTable(old(fs.disk), fs.disk, fs.L)
    ensures Blank(fs.disk, fs.L, cluster, fs.L.spc, DotSector(cluster, parent))
  {
    hide Frame, Fat, Blank, SectorNo, FatEntry, DotSector, ZeroSector, Layout.Fits;
    ghost var d := fs.disk;
    TableInFront(fs.L, |d|);
    NothingBlank(d, fs.L, cluster);
    FirstSector(fs.L, cluster);
    var firstSector := fs.L.dataStart + (cluster - 2) * fs.L.spc;
    var i := 0;
    while i < fs.L.spc
      invariant 0 <= i <= fs.L.spc
      invariant Frame(d0, fs.disk, fs.L, mine) && SameTable(d, fs.disk, fs.L)
      invariant Fat(fs.disk, fs.L) == Fat(d, fs.L)
      invariant Blank(fs.disk, fs.L, cluster, i, ZeroSector())
    {
      FillStep(fs.disk, fs.L, cluster, i, ZeroSector(), d0, mine);
      BlankWrite(fs.disk, fs.L, cluster, i, ZeroSector(), i, ZeroSector());
      fs.disk := fs.disk[firstSector + i := ZeroSector()];
      i := i + 1;
    }
    var sector := DotSector(cluster, parent);
    FillStep(fs.disk, fs.L, cluster, 0, sector, d0, mine);
    BlankWrite(fs.disk, fs.L, cluster, fs.L.spc, ZeroSector(), 0, sector);
    fs.disk := fs.disk[firstSector := sector];
  }

  lemma {:induction false} NothingBlank(d: Disk, L: Layout, r: nat)
    requires r >= 2 && L.Fits(|d|)
    ensures Blank(d, L, r, 0, ZeroSector()) && L.spc >= 1
  {
  }

  lemma {:induction false} FillStep(d: Disk, L: Layout, c: nat, s: nat, sec: Sector, d0: Disk, mine: seq<nat>)
    requires L.Fits(|d|) && 2 <= c < L.limit && s < L.spc
    requires Frame(d0, d, L, mine) && FatEntry(d0, L, c) == FREE_CLUSTER
    ensures L.dataStart <= SectorNo(L, c, s) < |d|
    ensures Frame(d0, d[SectorNo(L, c, s) := sec], L, mine)
    ensures Fat(d[SectorNo(L, c, s) := sec], L) == Fat(d, L)
  {
    FramePatch(d0, d, L, mine, c, s, sec);
    DataWriteFat(d, L, SectorNo(L, c, s), sec);
  }

  /** A new directory as its own scan sees it: the two dot entries and then nothing. */
  ghost predicate NewDirectory(d: Disk, L: Layout, r: nat, parent: nat)
  {
    && L.Fits(|d|) && 2 <= r < L.limit
    && IsChain(Fat(d, L), [r])
    && var dir := Directory(d, L, [r]);
      && |dir| >= 2
      && dir[0] == NewEntry(DOT_NAME, ATTR_DIRECTORY, r)
      && dir[1] == NewEntry(DOTDOT_NAME, ATTR_DIRECTORY, parent)
      && forall j :: 2 <= j < |dir| ==> dir[j] == Zeros(32)
  }

  lemma {:induction false} BlankIsNew(d: Disk, L: Layout, r: nat, parent: nat)
    requires L.Fits(|d|) && 2 <= r < L.limit && IsChain(Fat(d, L), [r])
    requires Blank(d, L, r, L.spc, DotSector(r, parent))
    ensures NewDirectory(d, L, r, parent)
  {
    var dir := Directory(d, L, [r]);
    assert Times(1, L.spc) == L.spc && |[r]| == 1;
    assert |dir| == L.spc * 16;
    hide Directory, NewEntry, DotSector, Zeros;
    forall j | 0 <= j < |dir|
      ensures dir[j] == BlankEntry(r, parent, j)
    {
      var s, ent := j / 16, j % 16;
      SlotAt(d, L, [r], 0, s, ent);
      assert SlotIndex(L, 0, s, ent) == j;
      BlankEntryAt(r, parent, s, ent);
    }
  }

  /** The `j`-th entry of a new directory. */
  function BlankEntry(r: nat, parent: nat, j: nat): Dirent
  {
    if j == 0 then NewEntry(DOT_NAME, ATTR_DIRECTORY, r)
    else if j == 1 then NewEntry(DOTDOT_NAME, ATTR_DIRECTORY, parent)
    else Zeros(32)
  }

  lemma {:induction false} BlankEntryAt(r: nat, parent: nat, s: nat, ent: nat)
    requires ent < 16
    ensures (if s == 0 then DotSector(r, parent) else ZeroSector())[32 * ent..32 * ent + 32]
         == BlankEntry(r, parent, 16 * s + ent)
  {
    hide NewEntry;
  }

  /**
   Making a directory. On success the parent gained one entry and the new cluster holds an empty
   directory; when the parent is full the table is bit-identical and nothing allocated changed.
   */
  method MakeDirectory(fs: FatFs, parent: nat, name: Name, ghost ch: seq<nat>)
    returns (ret: int, r: nat, ghost i: nat)
    requires fs.L.Fits(|fs.disk|) && IsChain(Fat(fs.disk, fs.L), ch) && parent == ch[0]
    requires FreeCount(Fat(fs.disk, fs.L)) > 0 || NoneFreeOnDevice(fs.disk, fs.L)
    modifies fs`disk
    ensures |fs.disk| == |old(fs.disk)|
    ensures ret == 0 || ret == -1
    ensures ret == 0 <==> FreeSlot(Directory(old(fs.disk), fs.L, ch)).Some? && FreeCount(Fat(old(fs.disk), fs.L)) > 0
    ensures ret != 0 ==> SameTable(old(fs.disk), fs.disk, fs.L) && Frame(old(fs.disk), fs.disk, fs.L, [])
    ensures ret == 0 ==>
      && Created(fs.L, old(fs.disk), fs.disk, ch, i, NewEntry(name, ATTR_DIRECTORY, r), r)
      && NewDirectory(fs.disk, fs.L, r, parent)
  {
    hide Content, DirOf, IsChain, Fat, Frame, FreeCount, Blank, Untouched, DotSector, NewEntry, AllocDisk, SameSectors,
      FirstFreeOnDevice, NoneFreeOnDevice, IsLeastFree, Layout.Fits, FreeSlot;
    ghost var d := fs.disk;
    i := 0;
    FrameReflexive(d, fs.L, []);
    TableInFront(fs.L, |d|);
    Searching(d, fs.L);
    r := fs.AllocateCluster(0);
    if r == 0 {
      return -1, 0, 0;
    }
    FirstFreeCounts(d, fs.L, r);
    AllocKeepsChain(d, fs.L, ch, r);
    AllocDiskFat(d, fs.L, 0, r);
    ghost var d1 := fs.disk;
    FillDirectory(fs, r, parent, d, []);
    ghost var d2 := fs.disk;
    FrameChain(d, d2, fs.L, [], ch);
    FrameWeaken(d, d2, fs.L, ch);
    SingleChain(Fat(d, fs.L), ch, r);
    var ok;
    ok, i := AddEntry(fs, parent, NewEntry(name, ATTR_DIRECTORY, r), ch, d);
    if !ok {
      var res := fs.WriteFatEntry(r, FREE_CLUSTER);
      MkdirUndone(d, d1, d2, fs.L, r);
      return -1, r, i;
    }
    BlankKept(d2, fs.disk, fs.L, r, DotSector(r, parent));
    BlankIsNew(fs.disk, fs.L, r, parent);
    ret := 0;
  }

  /** With a free cluster in the table the search finds one; with none on the device it finds nothing. */
  lemma {:induction false} Searching(d: Disk, L: Layout)
    requires L.Fits(|d|) && (FreeCount(Fat(d, L)) > 0 || NoneFreeOnDevice(d, L))
    ensures FreeCount(Fat(d, L)) > 0 <==> !NoneFreeOnDevice(d, L)
  {
    if FreeCount(Fat(d, L)) > 0 { ScanStaysInside(d, L); }
  }

  lemma {:induction false} SingleChain(fat: seq<nat>, ch: seq<nat>, r: nat)
    requires IsChain(fat, ch) && IsLeastFree(fat, r)
    ensures 2 <= r < |fat| && r !in ch && IsChain(Allocated(fat, 0, r), [r])
  {
    FreeOffChain(fat, ch, r);
  }

  lemma {:induction false} BlankKept(d: Disk, e: Disk, L: Layout, r: nat, first: Sector)
    requires |e| == |d| && r >= 2 && SameSectors(d, e, L, r) && Blank(d, L, r, L.spc, first)
    ensures Blank(e, L, r, L.spc, first)
  {
  }

  /** Freeing the cluster of a directory that found no place restores the table. */
  lemma {:induction false} MkdirUndone(d: Disk, d1: Disk, d2: Disk, L: Layout, r: nat)
    requires L.Fits(|d|) && 2 <= r < L.limit && FatEntry(d, L, r) == FREE_CLUSTER
    requires EntrySector(L, r) < |d| && d1 == AllocDisk(d, L, 0, r)
    requires SameTable(d1, d2, L) && Frame(d, d2, L, [])
    ensures EntrySector(L, r) < |d2|
    ensures SameTable(d, PutEntry(d2, L, r, FREE_CLUSTER), L)
    ensures Frame(d, PutEntry(d2, L, r, FREE_CLUSTER), L, [])
  {
    var e := PutEntry(d2, L, r, FREE_CLUSTER);
    EntryInTable(L, |d|, r);
    PutEntryUndo(d, L, r, END_OF_CHAIN);
    forall n | 0 <= n < L.dataStart
      ensures e[n] == d[n]
    {
      assert PutEntry(d1, L, r, FREE_CLUSTER)[n] == d[n];
    }
    forall c | 2 <= c < L.limit && FatEntry(d, L, c) != FREE_CLUSTER
      ensures Untouched(d, e, L, c)
    {
      assert Untouched(d, d2, L, c);
      EntryInTable(L, |d|, c);
      forall s | 0 <= s < L.spc
        ensures e[SectorNo(L, c, s)] == d2[SectorNo(L, c, s)]
      {
        SectorInside(L, |d|, c, s);
      }
    }
  }

  // ----- what a create does to lookups -----

  /** Behind an end mark there are only end marks. */
  ghost predicate Tidy(dir: seq<Dirent>)
  {
    forall a, b :: 0 <= a < b < |dir| && dir[a][0] == 0 ==> dir[b][0] == 0
  }

  /**
   A create adds its own name to the lookups of the parent, unless the name starts with the byte
   of deleted entries, and changes no other lookup exactly when no forgotten entry stands behind
   the end mark it overwrote; lookups in all other directories stay.
   */
  lemma {:induction false} CreatedLookups(
    L: Layout, d: Disk, e: Disk, ch: seq<nat>, i: nat, name: Name, attr: byte, r: nat)
    requires attr == ATTR_ARCHIVE || attr == ATTR_DIRECTORY
    requires Created(L, d, e, ch, i, NewEntry(name, attr, r), r)
    requires name[0] != 0 && Lookup(Directory(d, L, ch), name) == None
    ensures IsChain(Fat(e, L), ch) && IsChain(Fat(e, L), [r])
    ensures Lookup(Directory(e, L, ch), name) == Some(i) <==> name[0] != DELETED
    ensures i < |Directory(e, L, ch)| && ClusterOf(Directory(e, L, ch)[i]) == r
    ensures (forall nm: Name :: nm != name ==> Lookup(Directory(e, L, ch), nm) == Lookup(Directory(d, L, ch), nm))
      <==> NothingBack(Directory(d, L, ch), i, name)
    ensures OthersKept(d, e, L, ch)
  {
    hide Fat, NewEntry, Lookup, Content, DirOf, Attr, NothingNewFrom;
    var dir, entry := Directory(d, L, ch), NewEntry(name, attr, r);
    NewEntryFields(name, attr, r);
    assert entry[0] == NameOf(entry)[0];
    FreeOffChain(Fat(d, L), ch, r);
    ChainFrame(Fat(d, L), Fat(e, L), ch);
    InsertedIsFound(dir, i, entry);
    InsertKeepsOthers(dir, i, entry);
    FrameOthers(d, e, L, ch);
  }

  /** A name that starts with the byte of deleted entries, written into an empty directory, is not found. */
  lemma {:induction false} DeletedNameLost()
    ensures var dir: seq<Dirent>, name: Name := [Zeros(32)], [DELETED] + Zeros(10);
      var entry := NewEntry(name, ATTR_ARCHIVE, 2);
      && FreeSlot(dir) == Some(0) && Lookup(dir, name) == None && NameOf(entry) == name
      && Lookup(dir[0 := entry], name) == None
  {
    var name: Name := [DELETED] + Zeros(10);
    NewEntryFields(name, ATTR_ARCHIVE, 2);
    assert NewEntry(name, ATTR_ARCHIVE, 2)[0] == NameOf(NewEntry(name, ATTR_ARCHIVE, 2))[0];
  }

  /** An entry behind the end mark, out of sight until a create overwrites the mark. */
  lemma {:induction false} ForgottenComesBack()
    ensures var name: Name, gone: Name := [65] + Zeros(10), [66] + Zeros(10);
      var dir: seq<Dirent> := [Zeros(32), NewEntry(gone, ATTR_ARCHIVE, 3)];
      var entry := NewEntry(name, ATTR_ARCHIVE, 2);
      && FreeSlot(dir) == Some(0) && NameOf(entry) == name && gone != name
      && Lookup(dir, gone) == None && Lookup(dir[0 := entry], gone) == Some(1)
  {
    var name: Name, gone: Name := [65] + Zeros(10), [66] + Zeros(10);
    var stale, entry := NewEntry(gone, ATTR_ARCHIVE, 3), NewEntry(name, ATTR_ARCHIVE, 2);
    var dir: seq<Dirent> := [Zeros(32), stale];
    NewEntryFields(gone, ATTR_ARCHIVE, 3);
    NewEntryFields(name, ATTR_ARCHIVE, 2);
    assert entry[0] == NameOf(entry)[0] && stale[0] == NameOf(stale)[0];
    assert FindProbe(gone)(dir[0 := entry][0]) == Pass && FindProbe(gone)(dir[0 := entry][1]) == Take;
    assert ScanFrom(dir[0 := entry], FindProbe(gone), 1) == Some(1);
  }

  /** In a tidy directory no lookup but the new one changes, and the directory stays tidy. */
  lemma {:induction false} TidyInsert(dir: seq<Dirent>, i: nat, entry: Dirent)
    requires Tidy(dir) && FreeSlot(dir) == Some(i) && entry[0] != 0
    ensures Tidy(dir[i := entry])
    ensures NothingBack(dir, i, NameOf(entry))
    ensures forall nm: Name :: nm != NameOf(entry) ==> Lookup(dir[i := entry], nm) == Lookup(dir, nm)
  {
    InsertKeepsOthers(dir, i, entry);
    assert forall a :: 0 <= a < i ==> FreeProbe()(dir[a]) == Pass;
    var dir' := dir[i := entry];
    forall a, b | 0 <= a < b < |dir'| && dir'[a][0] == 0
      ensures dir'[b][0] == 0
    {
      assert a != i;
    }
  }
}
