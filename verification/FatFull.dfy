/** Volumes on which the driver goes wrong: no free cluster left, and files that reach 4 GiB. */
module FatFull {
  import opened Bytes
  import opened FatTable
  import opened FatChain
  import opened FatContent
  import opened FatVolume
  import opened FatFile
  import opened FatWrite

  // ----- the write after a halt -----

  /** A pen that stands behind the last byte of the last cluster, as a halted write leaves it. */
  ghost predicate Behind(L: Layout, p: Pen, ch: seq<nat>)
  {
    L.Fits(|p.disk|) && IsChain(Fat(p.disk, L), ch) && p.cluster == Tail(ch) && p.offset == L.ClusterBytes()
  }

  /** The disk with `piece` at the front of the first sector of cluster `c`. */
  function Struck(d: Disk, L: Layout, c: nat, piece: seq<byte>): Disk
    requires c >= 2 && SectorNo(L, c, 0) < |d| && |piece| <= 512
  {
    var s := SectorNo(L, c, 0);
    d[s := Splice(d[s], 0, piece)]
  }

  /** The sector such a pen addresses is the first one of the cluster with the next number. */
  lemma {:induction false} PastTheCluster(L: Layout, sectors: nat, c: nat)
    requires L.Fits(sectors) && 2 <= c && c + 1 < L.limit
    ensures Address(L, c, L.ClusterBytes() / 512) == SectorNo(L, c + 1, 0) < sectors
    ensures L.ClusterBytes() % 512 == 0
  {
    hide Times;
    TimesIsProduct(c - 2, L.spc);
    assert L.ClusterBytes() / 512 == L.spc;
    OneClusterOn(L, c);
    SectorInside(L, sectors, c + 1, 0);
    InThirtyTwo(SectorNo(L, c + 1, 0));
  }

  lemma {:induction false} OneClusterOn(L: Layout, c: nat)
    requires c >= 2
    ensures SectorNo(L, c + 1, 0) == L.dataStart + Times(c - 2, L.spc) + L.spc
  {
  }

  /**
   The next write strikes that cluster, whoever owns it: up to a sector of bytes is reported as
   written and lies at the front of it. The pen moves on behind its own cluster.
   */
  lemma {:induction false} NextWriteStrikes(L: Layout, p: Pen, ch: seq<nat>, src: seq<byte>)
    requires Behind(L, p, ch) && src != [] && Tail(ch) + 1 < L.limit
    ensures Tail(ch) >= 2 && SectorNo(L, Tail(ch) + 1, 0) < |p.disk| && p.offset % 512 == 0
    ensures var piece := Front(src);
      var q := Inked(p, SectorNo(L, Tail(ch) + 1, 0), piece);
      && q.disk == Struck(p.disk, L, Tail(ch) + 1, piece)
      && (NoneFreeOnDevice(q.disk, L) ==> PenRun(L, p, src) == (q, |piece|))
  {
    hide PenRun, Fat, NoneFreeOnDevice, FatEntry, AllocResult, Address, SectorNo, TurnPage, Next;
    TailOf(p.disk, L, ch);
    PastTheCluster(L, |p.disk|, p.cluster);
    ClusterSmall(L, |p.disk|);
    InThirtyTwo(p.offset + Min(|src|, 512));
    var n := PieceLength(p.offset, |src|);
    var q := Inked(p, SectorNo(L, p.cluster + 1, 0), src[..n]);
    NextAfterStrike(L, p.disk, ch, p.cluster + 1, src[..n]);
    StaysBehind(L, q);
    PenRunStep(L, p, src);
  }

  /** Up to a sector of bytes. */
  function Front(src: seq<byte>): (piece: seq<byte>)
    ensures |piece| == Min(|src|, 512) && piece <= src
  {
    src[..Min(|src|, 512)]
  }

  /** Without a next cluster and without a free word the pen stays where it is. */
  lemma {:induction false} StaysBehind(L: Layout, q: Pen)
    requires q.offset >= L.ClusterBytes() && Next(FatEntry(q.disk, L, q.cluster)) == NO_CLUSTER
    ensures NoneFreeOnDevice(q.disk, L) ==> TurnPage(L, q) == (q, false)
  {
    hide FatEntry;
    ScannedNothing(q.disk, L);
  }

  lemma {:induction false} TailOf(d: Disk, L: Layout, ch: seq<nat>)
    requires L.Fits(|d|) && IsChain(Fat(d, L), ch)
    ensures 2 <= Tail(ch) < L.limit && ch != [] && Tail(ch) == ch[|ch| - 1]
  {
  }

  lemma {:induction false} NextAfterStrike(L: Layout, d: Disk, ch: seq<nat>, c: nat, piece: seq<byte>)
    requires L.Fits(|d|) && IsChain(Fat(d, L), ch) && 2 <= c < L.limit && SectorNo(L, c, 0) < |d| && |piece| <= 512
    ensures Next(FatEntry(Struck(d, L, c, piece), L, Tail(ch))) == NO_CLUSTER
  {
    var s := SectorNo(L, c, 0);
    SectorInside(L, |d|, c, 0);
    DataWriteFat(d, L, s, Splice(d[s], 0, piece));
    ChainNext(d, L, ch, |ch| - 1);
    assert Fat(Struck(d, L, c, piece), L)[Tail(ch)] == Fat(d, L)[Tail(ch)];
  }

  /** In the content of the chain that owns the cluster, exactly the bytes at that place change. */
  lemma {:induction false} StruckContent(L: Layout, d: Disk, o: seq<nat>, j: nat, piece: seq<byte>)
    requires L.Fits(|d|) && IsChain(Fat(d, L), o) && j < |o| && |piece| <= 512
    ensures Within(L, o) && SectorNo(L, o[j], 0) < |d| && Position(L, j, 0) + |piece| <= Capacity(L, o)
    ensures Content(Struck(d, L, o[j], piece), L, o) == Splice(Content(d, L, o), Position(L, j, 0), piece)
  {
    ChainDistinct(Fat(d, L), o);
    SectorPatch(d, L, o, j, 0, piece);
  }

  // ----- a full volume of two files -----

  /** No byte of the device is zero. */
  ghost predicate NoZero(d: Disk) { forall s, i :: 0 <= s < |d| && 0 <= i < 512 ==> d[s][i] != 0 }

  lemma {:induction false} NoZeroWord(bs: seq<byte>)
    requires |bs| == 4 && bs[0] != 0
    ensures Le(bs) % LOW28 != 0
  {
    var rest := Le(bs[1..]);
    assert Le(bs) == bs[0] + 256 * rest;
    LowByte(bs[0], rest);
  }

  /** A number whose lowest byte is not zero is no multiple of 2^28. */
  lemma {:induction false} LowByte(b: byte, rest: nat)
    requires b != 0
    ensures (b + 256 * rest) % LOW28 != 0
  {
  }

  /** Then the scan finds nothing. */
  lemma {:induction false} NoZeroNoneFree(d: Disk, L: Layout)
    requires NoZero(d)
    ensures NoneFreeOnDevice(d, L)
  {
    forall c: nat | 2 <= c < SCAN_LIMIT
      ensures FatEntry(d, L, c) != FREE_CLUSTER
    {
      if EntrySector(L, c) < |d| {
        var s, at := EntrySector(L, c), EntryOffset(c);
        assert d[s][at..at + 4][0] == d[s][at] != 0;
        NoZeroWord(d[s][at..at + 4]);
      }
    }
  }

  function Ones(): Sector { seq(512, _ => 255) }

  /** One table sector and two clusters of one sector, every byte 0xFF: clusters 2 and 3 are files of their own. */
  const TWO_FILES := Layout(0, 1, 1, 4, 2)

  function TwoFiles(): Disk { [Ones(), Ones(), Ones()] }

  lemma {:induction false} TwoFilesVolume(d: Disk)
    requires |d| == 3 && d[0] == Ones()
    ensures TWO_FILES.Fits(3) && IsChain(Fat(d, TWO_FILES), [2]) && IsChain(Fat(d, TWO_FILES), [3])
    ensures FreeCount(Fat(d, TWO_FILES)) == 0
  {
    var L := TWO_FILES;
    assert Times(2, 1) == 2 by { TimesIsProduct(2, 1); }
    forall c: nat | c < 4
      ensures FatEntry(d, L, c) == END_OF_CHAIN
    {
      assert EntrySector(L, c) == 0 && EntryOffset(c) == 4 * c;
      assert d[0][4 * c..4 * c + 4] == [255, 255, 255, 255];
      assert Le([255, 255, 255, 255]) == 0xFFFF_FFFF by { AllOnesWord(); }
    }
    assert FreeSet(Fat(d, L)) == {};
  }

  lemma {:induction false} AllOnesWord()
    ensures Le([255, 255, 255, 255]) == 0xFFFF_FFFF
  {
    assert Le([255]) == 255;
    assert [255, 255][1..] == [255];
    assert [255, 255, 255][1..] == [255, 255];
    assert [255, 255, 255, 255][1..] == [255, 255, 255];
  }

  lemma {:induction false} FirstByteOf(d: Disk, c: nat)
    requires |d| == 3 && 2 <= c <= 3
    ensures TWO_FILES.Fits(3) && Within(TWO_FILES, [c]) && Capacity(TWO_FILES, [c]) == 512
    ensures SectorNo(TWO_FILES, c, 0) == c - 1 && Content(d, TWO_FILES, [c])[0] == d[c - 1][0]
  {
    var L := TWO_FILES;
    TimesIsProduct(2, 1);
    TimesIsProduct(1, 1);
    TimesIsProduct(c - 2, 1);
    assert SectorCount(L, |[c]|) == 1;
    assert FileSector(L, [c], 0) == c - 1;
  }

  /**
   The first file is written to the end of its cluster, and the write halts with its cursor behind it;
   one more byte written to that file lands in the second file.
   */
  method WriteIntoNeighbour() returns (fs: FatFs, file: FileHandle, first: int, second: int)
    ensures fs.L == TWO_FILES && |fs.disk| == 3 && TWO_FILES.Fits(3)
    ensures IsChain(Fat(TwoFiles(), TWO_FILES), [3]) && Content(TwoFiles(), TWO_FILES, [3])[0] == 255
    ensures first == 512 && second == 1
    ensures IsChain(Fat(fs.disk, TWO_FILES), [3]) && Content(fs.disk, TWO_FILES, [3])[0] == 7
  {
    hide PenRun, Fat, Content, IsChain, TwoFiles, Filled, Struck3, Sector1, Ones, Layout.Fits, Capacity, Within;
    Sizes();
    TwoFilesVolume(TwoFiles());
    FirstByteOf(TwoFiles(), 3);
    FillFirst();
    StrikeSecond();
    fs := new FatFs(TWO_FILES, TwoFiles());
    file := new FileHandle();
    file.used, file.mode, file.firstCluster, file.currCluster := true, MODE_WRITE, 2, 2;
    first := Write(fs, file, Sector1(), 512);
    second := Write(fs, file, [7], 1);
  }

  function Sector1(): (s: seq<byte>)
    ensures |s| == 512
  {
    seq(512, _ => 1)
  }

  function Filled(): (d: Disk)
    ensures |d| == 3
  {
    [Ones(), Sector1(), Ones()]
  }

  function Struck3(): (d: Disk)
    ensures |d| == 3
  {
    [Ones(), Sector1(), [7] + seq(511, _ => 255)]
  }

  lemma {:induction false} Sizes()
    ensures |TwoFiles()| == 3 && TwoFiles()[0] == Ones() && TwoFiles()[2][0] == 255
    ensures Sector1()[..512] == Sector1() && [7][..1] == [7]
  {
  }

  lemma {:induction false} FillFirst()
    ensures PenRun(TWO_FILES, Pen(TwoFiles(), 2, 2, 0, 0, 0), Sector1()) == (Pen(Filled(), 2, 2, 512, 512, 512), 512)
  {
    hide PenRun, Fat, NoneFreeOnDevice, FatEntry, AllocDisk, Scanned;
    var L, p, src := TWO_FILES, Pen(TwoFiles(), 2, 2, 0, 0, 0), Sector1();
    assert PieceLength(0, 512) == 512 && Address(L, 2, 0) == 1;
    assert src[..512] == src && Splice(Ones(), 0, src) == src;
    assert TwoFiles()[1 := Splice(TwoFiles()[1], 0, src[..512])] == Filled();
    TwoFilesVolume(Filled());
    ChainNext(Filled(), L, [2], 0);
    NoZeroNoneFree(Filled(), L);
    ScannedNothing(Filled(), L);
    PenRunStep(L, p, src);
  }

  lemma {:induction false} StrikeSecond()
    ensures PenRun(TWO_FILES, Pen(Filled(), 2, 2, 512, 512, 512), [7]) == (Pen(Struck3(), 2, 2, 513, 513, 513), 1)
    ensures TWO_FILES.Fits(3) && IsChain(Fat(Struck3(), TWO_FILES), [3]) && Within(TWO_FILES, [3])
    ensures Capacity(TWO_FILES, [3]) == 512 && Content(Struck3(), TWO_FILES, [3])[0] == 7
  {
    hide PenRun, Fat, NoneFreeOnDevice, FatEntry, Content, IsChain, Struck, SectorNo, Layout.Fits;
    TwoFilesVolume(Filled());
    TwoFilesVolume(Struck3());
    FirstByteOf(Filled(), 3);
    FirstByteOf(Struck3(), 3);
    StruckIs();
    NoZeroNoneFree(Struck3(), TWO_FILES);
    assert [7][..1] == [7];
    NextWriteStrikes(TWO_FILES, Pen(Filled(), 2, 2, 512, 512, 512), [2], [7]);
  }

  lemma {:induction false} StruckIs()
    ensures SectorNo(TWO_FILES, 3, 0) == 2 && Struck(Filled(), TWO_FILES, 3, [7]) == Struck3() && NoZero(Struck3())
  {
    FirstByteOf(Filled(), 3);
    assert Splice(Ones(), 0, [7]) == [7] + seq(511, _ => 255);
  }

  // ----- a file of 4 GiB -----

  /** 65536 clusters of 64 KiB, all on one chain. */
  const BIG := Layout(0, 513, 128, 65538, 2)

  function Link(c: nat): nat { if c >= 65537 then END_OF_CHAIN else c + 1 }

  function LinkSector(s: nat): Sector { seq(512, b requires 0 <= b < 512 => ToLe(Link(128 * s + b / 4), 4)[b % 4]) }

  function BigSector(s: nat): Sector { if s < 513 then LinkSector(s) else Ones() }

  function BigDisk(): (d: Disk)
    ensures |d| == 8389121
  {
    seq<Sector>(8389121, s requires 0 <= s => BigSector(s))
  }

  function BigChain(): (ch: seq<nat>)
    ensures |ch| == 65536 && forall i :: 0 <= i < 65536 ==> ch[i] == i + 2
  {
    seq(65536, i requires 0 <= i => i + 2)
  }

  lemma {:induction false} BigEntry(c: nat)
    requires c < 65538
    ensures FatEntry(BigDisk(), BIG, c) == Link(c)
  {
    hide ToLe, Le;
    var s, at := c / 128, 4 * (c % 128);
    BigPlace(c);
    var bs := LinkSector(s)[at..at + 4];
    assert bs == ToLe(Link(c), 4) by {
      forall i | 0 <= i < 4 ensures bs[i] == ToLe(Link(c), 4)[i] {
        assert (at + i) / 4 == c % 128 && (at + i) % 4 == i && 128 * s + c % 128 == c;
      }
    }
    assert Link(c) < Pow256(4) by { assert Pow256(4) == U32; }
    LeOfToLe(Link(c), 4);
  }

  lemma {:induction false} BigPlace(c: nat)
    requires c < 65538
    ensures EntrySector(BIG, c) == c / 128 < 513 && EntryOffset(c) == 4 * (c % 128)
  {
    assert c * 4 % U32 == c * 4;
    assert c * 4 / 512 == c / 128 && c * 4 % 512 == 4 * (c % 128);
  }

  /** A proper chain that holds exactly 2^32 bytes: the files a read can wrap in exist. */
  lemma {:induction false} BigFile()
    ensures BIG.Fits(|BigDisk()|) && IsChain(Fat(BigDisk(), BIG), BigChain()) && Capacity(BIG, BigChain()) == U32
  {
    hide BigDisk, FatEntry;
    TimesIsProduct(65536, 128);
    forall c: nat | c < 65538
      ensures Fat(BigDisk(), BIG)[c] == Link(c)
    {
      BigEntry(c);
    }
  }
}
