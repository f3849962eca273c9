/** Writing through a cursor: sectors patched in place, clusters added at the end of the chain. */
module FatWrite {
  import opened Bytes
  import opened FatTable
  import opened FatChain
  import opened FatContent
  import opened FatVolume
  import opened FatFile

  /** `after` is `before` with `data` laid over it from `pos` on, possibly growing it. */
  ghost predicate Overlaid(before: seq<byte>, after: seq<byte>, pos: nat, data: seq<byte>)
  {
    && |before| <= |after|
    && pos + |data| <= |after|
    && after[pos..pos + |data|] == data
    && (forall i :: 0 <= i < |before| && !(pos <= i < pos + |data|) ==> after[i] == before[i])
  }

  lemma {:induction false} OverlaidStep(before: seq<byte>, mid: seq<byte>, pos: nat, data: seq<byte>, piece: seq<byte>)
    requires Overlaid(before, mid, pos, data)
    requires pos + |data| + |piece| <= |mid|
    ensures Overlaid(before, Splice(mid, pos + |data|, piece), pos, data + piece)
  {
    var after, all := Splice(mid, pos + |data|, piece), data + piece;
    forall i | 0 <= i < |all|
      ensures after[pos..pos + |all|][i] == all[i]
    {
      if i < |data| {
        assert mid[pos..pos + |data|][i] == data[i];
      }
    }
  }

  lemma {:induction false} OverlaidGrow(before: seq<byte>, mid: seq<byte>, after: seq<byte>, pos: nat, data: seq<byte>)
    requires Overlaid(before, mid, pos, data)
    requires |mid| <= |after| && after[..|mid|] == mid
    ensures Overlaid(before, after, pos, data)
  {
    forall i | 0 <= i < |mid|
      ensures after[i] == mid[i]
    {
      assert after[..|mid|][i] == mid[i];
    }
  }

  /**
   What holds of the volume while the file whose chain was `ch0` on disk `d0` has grown to `ch`
   on disk `d`: the old chain is a prefix, the new clusters were free, clusters are conserved,
   and nothing allocated outside the old chain has been touched.
   */
  ghost predicate Grown(L: Layout, d0: Disk, ch0: seq<nat>, d: Disk, ch: seq<nat>)
  {
    && L.Fits(|d0|)
    && |d| == |d0|
    && (ch == [] || IsChain(Fat(d, L), ch))
    && ch0 <= ch
    && (forall i :: |ch0| <= i < |ch| ==> ch[i] < L.limit && Fat(d0, L)[ch[i]] == FREE_CLUSTER)
    && |ch| + FreeCount(Fat(d, L)) == |ch0| + FreeCount(Fat(d0, L))
    && Frame(d0, d, L, ch0)
  }

  function Tail(ch: seq<nat>): nat { if ch == [] then 0 else ch[|ch| - 1] }

  /** A cluster that is free now was free at the start. */
  lemma {:induction false} StillFree(L: Layout, d0: Disk, ch0: seq<nat>, d: Disk, ch: seq<nat>, r: nat)
    requires Grown(L, d0, ch0, d, ch)
    requires 2 <= r < L.limit && Fat(d, L)[r] == FREE_CLUSTER
    ensures Fat(d0, L)[r] == FREE_CLUSTER && r !in ch
  {
    if ch != [] {
      FreeOffChain(Fat(d, L), ch, r);
    }
    assert r !in ch0;
    assert Fat(d0, L)[r] != FREE_CLUSTER ==> Untouched(d0, d, L, r);
  }

  /** The tail is on the old chain or was free, and is not free now. */
  lemma {:induction false} TailEntry(L: Layout, d0: Disk, ch0: seq<nat>, d: Disk, ch: seq<nat>)
    requires Grown(L, d0, ch0, d, ch)
    ensures var prev := Tail(ch);
      && 2 <= L.limit <= SCAN_LIMIT && |d| == |d0| && prev < L.limit
      && (prev == 0 || (2 <= prev && Fat(d, L)[prev] != FREE_CLUSTER))
      && (prev == 0 || prev in ch0 || FatEntry(d0, L, prev) == FREE_CLUSTER)
  {
  }

  /** Allocation behind the tail keeps `Grown`. */
  lemma {:induction false} GrowStep(L: Layout, d0: Disk, ch0: seq<nat>, d: Disk, ch: seq<nat>, r: nat)
    requires Grown(L, d0, ch0, d, ch)
    requires 2 <= r < L.limit && Fat(d, L)[r] == FREE_CLUSTER
    ensures Tail(ch) < L.limit && EntrySector(L, r) < |d| && EntrySector(L, Tail(ch)) < |d|
    ensures Grown(L, d0, ch0, AllocDisk(d, L, Tail(ch), r), ch + [r])
  {
    hide Fat, IsChain, FreeCount, FreeSet, Frame, AllocDisk, Allocated, OnlyEntries, Layout.Fits;
    var prev := Tail(ch);
    TailEntry(L, d0, ch0, d, ch);
    FatAt(d0, L, r);
    FatAt(d, L, r);
    AllocDiskFat(d, L, prev, r);
    StillFree(L, d0, ch0, d, ch, r);
    AllocFreeSet(Fat(d, L), prev, r);
    GrowChain(Fat(d, L), ch, r);
    FrameAlloc(d0, d, L, ch0, prev, r);
  }

  lemma {:induction false} GrowChain(fat: seq<nat>, ch: seq<nat>, r: nat)
    requires |fat| <= SCAN_LIMIT && (ch == [] || IsChain(fat, ch))
    requires 2 <= r < |fat| && fat[r] == FREE_CLUSTER
    ensures Tail(ch) < |fat| && IsChain(Allocated(fat, Tail(ch), r), ch + [r])
  {
    if ch != [] {
      ExtendedChain(fat, ch, r);
    }
  }

  /** A sector write inside the file's own chain keeps `Grown`. */
  lemma {:induction false} PatchStep(
    L: Layout, d0: Disk, ch0: seq<nat>, d: Disk, ch: seq<nat>, k: nat, s: nat, sec: Sector)
    requires Grown(L, d0, ch0, d, ch) && k < |ch| && s < L.spc
    ensures 2 <= ch[k] < L.limit
    ensures L.dataStart <= SectorNo(L, ch[k], s) < |d|
    ensures Grown(L, d0, ch0, d[SectorNo(L, ch[k], s) := sec], ch)
  {
    FramePatch(d0, d, L, ch0, ch[k], s, sec);
    DataWriteFat(d, L, SectorNo(L, ch[k], s), sec);
  }

  /** The state of a write that has put `done` down from position `pos` on. */
  ghost predicate Writing(
    L: Layout, d0: Disk, ch0: seq<nat>, d: Disk, ch: seq<nat>, pos: nat, done: seq<byte>, cluster: nat, offset: nat)
  {
    && Grown(L, d0, ch0, d, ch)
    && Within(L, ch0) && Within(L, ch)
    && pos + |done| < Capacity(L, ch)
    && CursorAt(L, ch, pos + |done|, cluster, offset)
    && Overlaid(Content(d0, L, ch0), Content(d, L, ch), pos, done)
  }

  /** Room for `n` more bytes at `pos`, counting the cluster that is added in advance. */
  ghost predicate Room(L: Layout, d: Disk, ch: seq<nat>, pos: nat, n: nat)
  {
    L.spc > 0 && Quot(pos + n, L.ClusterBytes()) < |ch| + FreeCount(Fat(d, L))
  }

  /** Every cluster the table had is on the chain, and the chain is written to its last byte. */
  ghost predicate FilledUp(L: Layout, d0: Disk, ch0: seq<nat>, d: Disk, ch: seq<nat>, pos: nat, done: seq<byte>)
  {
    && Grown(L, d0, ch0, d, ch)
    && Within(L, ch0) && Within(L, ch)
    && FreeCount(Fat(d, L)) == 0
    && pos + |done| == Capacity(L, ch)
    && Overlaid(Content(d0, L, ch0), Content(d, L, ch), pos, done)
  }

  // ----- the loop as a value -----

  /** The disk and the fields of the handle the loop moves. */
  datatype Pen = Pen(disk: Disk, first: nat, cluster: nat, offset: nat, pos: nat, size: nat)

  /** A piece put into sector `s`, and offset, position and size after it; each has 32 bits. */
  function Inked(p: Pen, s: nat, piece: seq<byte>): Pen
    requires s < |p.disk| && p.offset % 512 + |piece| <= 512
  {
    var pos := (p.pos + |piece|) % U32;
    p.(disk := p.disk[s := Splice(p.disk[s], p.offset % 512, piece)], offset := (p.offset + |piece|) % U32,
       pos := pos, size := if pos > p.size then pos else p.size)
  }

  /** One pass over a cluster number that is there: how far it got, and whether the loop goes on. */
  ghost function PassOn(L: Layout, p: Pen, src: seq<byte>): (r: (Pen, nat, bool))
    requires src != []
    ensures r.1 <= |src| && (r.2 ==> r.1 > 0)
  {
    var n, s := PieceLength(p.offset, |src|), Address(L, p.cluster, p.offset / 512);
    if s >= |p.disk| then (p, 0, false)
    else
      var t := TurnPage(L, Inked(p, s, src[..n]));
      (t.0, n, t.1)
  }

  /** At the end of a cluster: the next one, or one taken behind it, or a halt on the spot. */
  ghost function TurnPage(L: Layout, p: Pen): (Pen, bool)
  {
    if p.offset < L.ClusterBytes() then (p, true)
    else
      var next := Next(FatEntry(p.disk, L, p.cluster));
      if next != NO_CLUSTER then (p.(cluster := next, offset := 0), true)
      else
        var a := AllocResult(p.disk, L, p.cluster);
        if a.1 == 0 then (p, false) else (p.(disk := a.0, cluster := a.1, offset := 0), true)
  }

  /** The pen on the first cluster of a file that had none. */
  function OnFirst(p: Pen, a: (Disk, nat)): Pen { p.(disk := a.0, first := a.1, cluster := a.1, offset := 0) }

  /** One pass of the loop; a handle without a cluster takes its first one before. */
  ghost function Pass(L: Layout, p: Pen, src: seq<byte>): (r: (Pen, nat, bool))
    requires src != []
    ensures r.1 <= |src| && (r.2 ==> r.1 > 0)
  {
    if p.cluster != 0 then PassOn(L, p, src)
    else
      var a := AllocResult(p.disk, L, 0);
      if a.1 == 0 then (p.(first := 0), 0, false) else PassOn(L, OnFirst(p, a), src)
  }

  /** The whole loop: the pen at the end, and how many bytes were written. */
  ghost function PenRun(L: Layout, p: Pen, src: seq<byte>): (r: (Pen, nat))
    ensures r.1 <= |src|
    decreases |src|
  {
    if src == [] then (p, 0)
    else
      var a := Pass(L, p, src);
      if !a.2 then (a.0, a.1)
      else
        var b := PenRun(L, a.0, src[a.1..]);
        (b.0, a.1 + b.1)
  }

  // ----- position and size -----

  /**
   The position moved by `n`, in 32 bits; the size never shrinks, and while the position does not wrap
   it is the furthest place reached.
   */
  predicate Went(pos: nat, size: nat, n: nat, pos': nat, size': nat)
  {
    && pos' == (pos + n) % U32
    && (pos + n < U32 ==> pos' == pos + n)
    && (size < U32 ==> size <= size' < U32)
    && (pos <= size && pos + n < U32 ==> size' == Max(pos', size))
  }

  lemma {:induction false} WentOn(pos: nat, size: nat, n: nat, pos1: nat, size1: nat, m: nat, pos2: nat, size2: nat)
    requires Went(pos, size, n, pos1, size1) && Went(pos1, size1, m, pos2, size2)
    ensures Went(pos, size, n + m, pos2, size2)
  {
  }

  lemma {:induction false} PassPos(L: Layout, p: Pen, src: seq<byte>)
    requires src != [] && p.pos < U32
    ensures var a := Pass(L, p, src); Went(p.pos, p.size, a.1, a.0.pos, a.0.size)
  {
    hide Pass, Went;
    PassMoves(L, p, src);
    WentStep(p, Pass(L, p, src).1);
  }

  lemma {:induction false} PassMoves(L: Layout, p: Pen, src: seq<byte>)
    requires src != [] && p.pos < U32
    ensures var a := Pass(L, p, src);
      && a.0.pos == (p.pos + a.1) % U32
      && a.0.size == if a.1 > 0 && a.0.pos > p.size then a.0.pos else p.size
  {
    hide AllocResult, Address, FatEntry;
    InThirtyTwo(p.pos);
  }

  lemma {:induction false} WentStep(p: Pen, n: nat)
    requires p.pos < U32
    ensures var pos := (p.pos + n) % U32; Went(p.pos, p.size, n, pos, if n > 0 && pos > p.size then pos else p.size)
  {
  }

  /** So the loop moves a pen, whatever ends it. */
  lemma {:induction false} RunPos(L: Layout, p: Pen, src: seq<byte>)
    requires p.pos < U32
    ensures var r := PenRun(L, p, src); Went(p.pos, p.size, r.1, r.0.pos, r.0.size)
    decreases |src|
  {
    hide Pass, Went;
    if src == [] {
      WentNowhere(p);
    } else {
      PassPos(L, p, src);
      var a := Pass(L, p, src);
      if a.2 {
        WentBelow(p, a.1, a.0);
        RunPos(L, a.0, src[a.1..]);
        var r := PenRun(L, a.0, src[a.1..]);
        WentOn(p.pos, p.size, a.1, a.0.pos, a.0.size, r.1, r.0.pos, r.0.size);
      }
    }
  }

  lemma {:induction false} WentNowhere(p: Pen)
    requires p.pos < U32
    ensures Went(p.pos, p.size, 0, p.pos, p.size)
  {
    InThirtyTwo(p.pos);
  }

  lemma {:induction false} WentBelow(p: Pen, n: nat, q: Pen)
    requires Went(p.pos, p.size, n, q.pos, q.size)
    ensures q.pos < U32
  {
  }

  // ----- the loop on the disk -----

  /** One sector read, patched and written back; a sector off the device ends the write. */
  method PatchSector(fs: FatFs, cluster: nat, offset: nat, src: seq<byte>) returns (ok: bool, n: nat)
    requires src != []
    modifies fs`disk
    ensures n == PieceLength(offset, |src|) && ok == (Address(fs.L, cluster, offset / 512) < |old(fs.disk)|)
    ensures !ok ==> fs.disk == old(fs.disk)
    ensures ok ==>
      var s := Address(fs.L, cluster, offset / 512);
      fs.disk == old(fs.disk)[s := Splice(old(fs.disk)[s], offset % 512, src[..n])]
  {
    var sectorInCluster := offset / SECTOR_SIZE;
    var offsetInSector := offset % SECTOR_SIZE;
    var sector := (fs.L.dataStart + (cluster - 2) * fs.L.spc + sectorInCluster) % U32;
    var bytesInSector := SECTOR_SIZE - offsetInSector;
    n := if |src| < bytesInSector then |src| else bytesInSector;
    if sector >= |fs.disk| {
      return false, n;
    }
    var buf: Sector := Splice(fs.disk[sector], offsetInSector, src[..n]);
    fs.disk := fs.disk[sector := buf];
    ok := true;
  }

  method StepOrExtend(fs: FatFs, cluster: nat, offset: nat, ghost p: Pen)
    returns (cluster': nat, offset': nat, on: bool)
    requires p.disk == fs.disk && p.cluster == cluster && p.offset == offset
    modifies fs`disk
    ensures (p.(disk := fs.disk, cluster := cluster', offset := offset'), on) == TurnPage(fs.L, p)
  {
    hide FatEntry, AllocDisk;
    cluster', offset', on := cluster, offset, true;
    if offset >= fs.L.ClusterBytes() {
      var next := fs.NextCluster(cluster);
      if next == NO_CLUSTER {
        next := fs.AllocateCluster(cluster);
        if next == 0 {
          on := false;
          return;
        }
      }
      cluster', offset' := next, 0;
    }
  }

  ghost function PenOf(fs: FatFs, file: FileHandle): Pen
    reads fs, file
  {
    Pen(fs.disk, file.firstCluster, file.currCluster, file.currOffset, file.filePos, file.fileSize)
  }

  /** One pass of the loop over the handle's own fields. */
  method WritePass(fs: FatFs, file: FileHandle, src: seq<byte>) returns (n: nat, on: bool)
    requires src != []
    modifies fs`disk, file`firstCluster, file`currCluster, file`currOffset, file`filePos, file`fileSize
    ensures (PenOf(fs, file), n, on) == Pass(fs.L, old(PenOf(fs, file)), src)
  {
    hide TurnPage, AllocResult, Address, PieceLength;
    n, on := 0, false;
    if file.currCluster == 0 {
      file.firstCluster := fs.AllocateCluster(0);
      if file.firstCluster == 0 { return; }
      file.currCluster, file.currOffset := file.firstCluster, 0;
    }
    ghost var p := PenOf(fs, file);
    var k;
    on, k := PatchSector(fs, file.currCluster, file.currOffset, src);
    if !on { return; }
    n := k;
    file.filePos := (file.filePos + n) % U32;
    file.currOffset := (file.currOffset + n) % U32;
    if file.filePos > file.fileSize {
      file.fileSize := file.filePos;
    }
    ghost var q := PenOf(fs, file);
    assert q == Inked(p, Address(fs.L, p.cluster, p.offset / 512), src[..n]);
    var cluster, offset;
    cluster, offset, on := StepOrExtend(fs, file.currCluster, file.currOffset, q);
    file.currCluster, file.currOffset := cluster, offset;
  }

  /** The write loop, for any handle on any volume. */
  method WriteLoop(fs: FatFs, file: FileHandle, src: seq<byte>) returns (written: nat)
    modifies fs`disk, file`firstCluster, file`currCluster, file`currOffset, file`filePos, file`fileSize
    ensures (PenOf(fs, file), written) == PenRun(fs.L, old(PenOf(fs, file)), src)
  {
    hide Pass, PenRun, PenOf;
    written := 0;
    ghost var p0 := PenOf(fs, file);
    assert src[0..] == src;
    while written < |src|
      invariant written <= |src|
      invariant var r := PenRun(fs.L, PenOf(fs, file), src[written..]);
        PenRun(fs.L, p0, src) == (r.0, written + r.1)
    {
      ghost var p, rest := PenOf(fs, file), src[written..];
      var n, on := WritePass(fs, file, src[written..]);
      PenRunStep(fs.L, p, rest);
      if !on {
        written := written + n;
        return;
      }
      assert rest[n..] == src[written + n..];
      written := written + n;
    }
    assert src[written..] == [];
    NothingRun(fs.L, PenOf(fs, file));
  }

  lemma {:induction false} PenRunStep(L: Layout, p: Pen, src: seq<byte>)
    requires src != []
    ensures var a := Pass(L, p, src);
      PenRun(L, p, src) == if !a.2 then (a.0, a.1) else var b := PenRun(L, a.0, src[a.1..]); (b.0, a.1 + b.1)
  {
  }

  lemma {:induction false} NothingRun(L: Layout, p: Pen)
    ensures PenRun(L, p, []) == (p, 0)
  {
  }

  // ----- what a pass does to the file -----

  lemma {:induction false} SomeChain(L: Layout, ch: seq<nat>, p: nat)
    requires p < Capacity(L, ch)
    ensures ch != []
  {
  }

  lemma {:induction false} ChainApart(d: Disk, L: Layout, ch: seq<nat>)
    requires L.Fits(|d|) && IsChain(Fat(d, L), ch)
    ensures forall a, b :: 0 <= a < b < |ch| ==> ch[a] != ch[b]
  {
    ChainDistinct(Fat(d, L), ch);
  }

  /** The cluster added at the end leaves the content in front of it as it was. */
  lemma {:induction false} GrowContent(L: Layout, d: Disk, ch: seq<nat>, prev: nat, r: nat)
    requires L.Fits(|d|) && Within(L, ch) && prev < L.limit && 2 <= r < L.limit
    ensures EntrySector(L, r) < |d| && EntrySector(L, prev) < |d|
    ensures Within(L, ch + [r]) && Capacity(L, ch) < Capacity(L, ch + [r])
    ensures Content(AllocDisk(d, L, prev, r), L, ch + [r])[..Capacity(L, ch)] == Content(d, L, ch)
  {
    AllocDiskFat(d, L, prev, r);
    var e := AllocDisk(d, L, prev, r);
    TimesMono(|ch|, |ch + [r]|, L.spc);
    ContentPrefix(e, L, ch, [r]);
    forall i | 0 <= i < |ch|
      ensures SameSectors(d, e, L, ch[i])
    {
      forall s | 0 <= s < L.spc
        ensures SectorNo(L, ch[i], s) < |d| && e[SectorNo(L, ch[i], s)] == d[SectorNo(L, ch[i], s)]
      {
        SectorInside(L, |d|, ch[i], s);
      }
    }
    ContentFrame(d, e, L, ch);
  }

  lemma {:induction false} GrownChain(L: Layout, d0: Disk, ch0: seq<nat>, d: Disk, ch: seq<nat>)
    requires Grown(L, d0, ch0, d, ch) && ch != []
    ensures |d| == |d0| && L.Fits(|d|) && IsChain(Fat(d, L), ch)
  {
  }

  /** The sector patched lays the piece over the flat content behind what is there already. */
  lemma {:induction false} PatchLays(
    L: Layout, d0: Disk, ch0: seq<nat>, p: Pen, ch: seq<nat>, pos: nat, done: seq<byte>, src: seq<byte>)
    returns (k: nat)
    requires src != [] && Writing(L, d0, ch0, p.disk, ch, pos, done, p.cluster, p.offset)
    ensures k < |ch| && p.cluster == ch[k] >= 2
    ensures var n, s := PieceLength(p.offset, |src|), Address(L, p.cluster, p.offset / 512);
      && s < |p.disk|
      && (p.offset + n) % U32 == p.offset + n <= L.ClusterBytes()
      && pos + |done| + n == Position(L, k, p.offset + n)
      && var d := p.disk[s := Splice(p.disk[s], p.offset % 512, src[..n])];
         && Grown(L, d0, ch0, d, ch) && Within(L, ch0) && Within(L, ch)
         && Overlaid(Content(d0, L, ch0), Content(d, L, ch), pos, done + src[..n])
  {
    hide Content, CursorAt, Fat, IsChain, FreeCount, Frame, Capacity, Position, SectorNo, Grown, Overlaid, Address,
      Layout.Fits, PieceLength;
    SomeChain(L, ch, pos + |done|);
    GrownChain(L, d0, ch0, p.disk, ch);
    k := CursorPlace(p.disk, L, ch, pos + |done|, p.cluster, p.offset);
    assert p.offset / 512 < L.spc;
    AddressInside(L, |p.disk|, p.cluster, p.offset / 512);
    var n := PieceLength(p.offset, |src|);
    PieceInCluster(L, p.offset, n);
    ClusterSmall(L, |p.disk|);
    InThirtyTwo(p.offset + n);
    PositionOn(L, k, p.offset, n);
    ChainApart(p.disk, L, ch);
    var c := Content(p.disk, L, ch);
    SectorPatch(p.disk, L, ch, k, p.offset, src[..n]);
    var s := Address(L, p.cluster, p.offset / 512);
    PatchStep(L, d0, ch0, p.disk, ch, k, p.offset / 512, Splice(p.disk[s], p.offset % 512, src[..n]));
    OverlaidStep(Content(d0, L, ch0), c, pos, done, src[..n]);
  }

  lemma {:induction false} ClusterSmall(L: Layout, sectors: nat)
    requires L.Fits(sectors)
    ensures L.ClusterBytes() < U32
  {
  }

  /** How a pass or a run of passes ends. `Lost` names the disk on which the scan left the table. */
  datatype Outcome = Going | Full | Lost(disk: Disk, r: nat)

  /** The chain is full and the disk at this point has no zero word for the scan, or has one behind the table. */
  ghost predicate Halted(
    L: Layout, d0: Disk, ch0: seq<nat>, d: Disk, ch: seq<nat>, pos: nat, done: seq<byte>, out: Outcome)
  {
    && FilledUp(L, d0, ch0, d, ch, pos, done)
    && match out {
         case Going => false
         case Full => NoneFreeOnDevice(d, L)
         case Lost(e, r) => e == d && r >= L.limit && FirstFreeOnDevice(d, L, r)
       }
  }

  lemma {:induction false} TurnGood(
    L: Layout, d0: Disk, ch0: seq<nat>, p: Pen, ch: seq<nat>, k: nat, pos: nat, done: seq<byte>)
    returns (ch': seq<nat>, out: Outcome)
    requires Grown(L, d0, ch0, p.disk, ch) && Within(L, ch0) && Within(L, ch)
    requires k < |ch| && p.cluster == ch[k] && p.offset <= L.ClusterBytes()
    requires pos + |done| == Position(L, k, p.offset)
    requires Overlaid(Content(d0, L, ch0), Content(p.disk, L, ch), pos, done)
    ensures ch <= ch'
    ensures var t := TurnPage(L, p);
      && (out == Going ==> t.1 && t.0.first == p.first
                           && Writing(L, d0, ch0, t.0.disk, ch', pos, done, t.0.cluster, t.0.offset))
      && (out != Going ==> ch' == ch && Halted(L, d0, ch0, p.disk, ch, pos, done, out))
      && (out == Full ==> t == (p, false) && p.cluster == Tail(ch) && p.offset == L.ClusterBytes())
  {
    hide Overlaid, Content, CursorAt, FreeCount, Fat, Grown, Within, Capacity, Position, Next, AllocResult, FatEntry;
    GrownChain(L, d0, ch0, p.disk, ch);
    ch', out := ch, Going;
    if p.offset < L.ClusterBytes() {
      CursorInside(L, ch, k, p.offset);
    } else {
      NextPosition(L, k);
      ChainNext(p.disk, L, ch, k);
      if k + 1 < |ch| {
        CursorInside(L, ch, k + 1, 0);
      } else {
        ch', out := ExtendGood(L, d0, ch0, p, ch, pos, done);
      }
    }
  }

  /** Behind the last cluster of the chain. */
  lemma {:induction false} ExtendGood(
    L: Layout, d0: Disk, ch0: seq<nat>, p: Pen, ch: seq<nat>, pos: nat, done: seq<byte>)
    returns (ch': seq<nat>, out: Outcome)
    requires Grown(L, d0, ch0, p.disk, ch) && Within(L, ch0) && Within(L, ch)
    requires p.cluster == Tail(ch) && pos + |done| == Position(L, |ch|, 0)
    requires Overlaid(Content(d0, L, ch0), Content(p.disk, L, ch), pos, done)
    ensures ch <= ch'
    ensures var a := AllocResult(p.disk, L, p.cluster);
      && (out == Going ==> a.1 != 0 && ch' == ch + [a.1] && Writing(L, d0, ch0, a.0, ch', pos, done, a.1, 0))
      && (out != Going ==> ch' == ch && Halted(L, d0, ch0, p.disk, ch, pos, done, out))
      && (out == Full ==> a == (p.disk, 0))
      && (out.Lost? ==> a.1 == out.r)
  {
    hide Overlaid, Content, CursorAt, FreeCount, Fat, Grown, Within, Capacity, Position, FatEntry, AllocDisk,
      NoneFreeOnDevice, FirstFreeOnDevice, IsLeastFree, IsChain;
    var d, r := p.disk, Scanned(p.disk, L);
    TailThere(L, d0, ch0, d, ch);
    EndIsCapacity(L, ch);
    ScannedNothing(d, L);
    ch', out := ch, if r == 0 then Full else Lost(d, r);
    if r == 0 {
      NoneIsFull(d, L);
    } else {
      ScanInsideExactly(d, L, r);
      if r < L.limit {
        LeastFreeIs(Fat(d, L), r);
        GrowStep(L, d0, ch0, d, ch, r);
        GrowContent(L, d, ch, p.cluster, r);
        ch', out := ch + [r], Going;
        OverlaidGrow(Content(d0, L, ch0), Content(d, L, ch), Content(AllocDisk(d, L, p.cluster, r), L, ch'), pos, done);
        CursorInside(L, ch', |ch|, 0);
      } else {
        ScannedOutside(d, L, r);
      }
    }
  }

  lemma {:induction false} TailThere(L: Layout, d0: Disk, ch0: seq<nat>, d: Disk, ch: seq<nat>)
    requires Grown(L, d0, ch0, d, ch)
    ensures |d| == |d0| && L.Fits(|d|) && Tail(ch) < L.limit && EntrySector(L, Tail(ch)) < |d|
  {
    TailEntry(L, d0, ch0, d, ch);
    EntryInTable(L, |d|, Tail(ch));
  }

  lemma {:induction false} EndIsCapacity(L: Layout, ch: seq<nat>)
    ensures Position(L, |ch|, 0) == Capacity(L, ch)
  {
  }

  lemma {:induction false} NoneIsFull(d: Disk, L: Layout)
    requires L.Fits(|d|) && NoneFreeOnDevice(d, L)
    ensures FreeCount(Fat(d, L)) == 0
  {
    if FreeCount(Fat(d, L)) > 0 { ScanStaysInside(d, L); }
  }

  lemma {:induction false} LeastFreeIs(fat: seq<nat>, r: nat)
    requires IsLeastFree(fat, r)
    ensures 2 <= r < |fat| && fat[r] == FREE_CLUSTER
  {
  }

  lemma {:induction false} ScannedOutside(d: Disk, L: Layout, r: nat)
    requires L.Fits(|d|) && FirstFreeOnDevice(d, L, r) && r >= L.limit
    ensures FreeCount(Fat(d, L)) == 0
  {
    ScanInsideExactly(d, L, r);
  }

  lemma {:induction false} PassGood(
    L: Layout, d0: Disk, ch0: seq<nat>, p: Pen, ch: seq<nat>, pos: nat, done: seq<byte>, src: seq<byte>)
    returns (ch': seq<nat>, out: Outcome)
    requires src != [] && Writing(L, d0, ch0, p.disk, ch, pos, done, p.cluster, p.offset)
    ensures ch <= ch'
    ensures var a := Pass(L, p, src);
      && (out == Going ==> a.2 && a.0.first == p.first
                           && Writing(L, d0, ch0, a.0.disk, ch', pos, done + src[..a.1], a.0.cluster, a.0.offset))
      && (out == Full ==> !a.2 && Halted(L, d0, ch0, a.0.disk, ch', pos, done + src[..a.1], out) && a.0.first == p.first
                          && a.0.cluster == Tail(ch') && a.0.offset == L.ClusterBytes())
      && (out.Lost? ==> a.1 > 0 && Halted(L, d0, ch0, out.disk, ch', pos, done + src[..a.1], out))
  {
    hide Writing, Halted, Grown, Within, Overlaid, Content, PieceLength, Address, TurnPage, Position, Tail;
    var i := PatchLays(L, d0, ch0, p, ch, pos, done, src);
    var n, s := PieceLength(p.offset, |src|), Address(L, p.cluster, p.offset / 512);
    var p1 := Inked(p, s, src[..n]);
    TurnKeeps(L, p1);
    ch', out := TurnGood(L, d0, ch0, p1, ch, i, pos, done + src[..n]);
    HaltedDisk(L, d0, ch0, p1.disk, ch, pos, done + src[..n], out);
  }

  /** Turning to another cluster leaves the first cluster, the position and the size. */
  lemma {:induction false} TurnKeeps(L: Layout, p: Pen)
    ensures var t := TurnPage(L, p).0; t.first == p.first && t.pos == p.pos && t.size == p.size
  {
  }

  lemma {:induction false} HaltedDisk(
    L: Layout, d0: Disk, ch0: seq<nat>, d: Disk, ch: seq<nat>, pos: nat, done: seq<byte>, out: Outcome)
    ensures Halted(L, d0, ch0, d, ch, pos, done, out) && out.Lost? ==> out.disk == d
  {
  }

  // ----- what a run of passes does to the file -----

  /** What `PenRun` did with `src`, of which the first `k` bytes went into the chain. */
  ghost predicate RunEnds(
    L: Layout, d0: Disk, ch0: seq<nat>, q: (Pen, nat), ch: seq<nat>, pos: nat, done: seq<byte>, src: seq<byte>, k: nat,
    out: Outcome)
  {
    && k <= q.1 <= |src|
    && match out {
         case Going => k == |src| && Writing(L, d0, ch0, q.0.disk, ch, pos, done + src, q.0.cluster, q.0.offset)
         case Full => k == q.1 && Halted(L, d0, ch0, q.0.disk, ch, pos, done + src[..k], out)
         case Lost(e, _) => Halted(L, d0, ch0, e, ch, pos, done + src[..k], out)
       }
  }

  lemma {:induction false} RunOutcome(
    L: Layout, d0: Disk, ch0: seq<nat>, p: Pen, ch: seq<nat>, pos: nat, done: seq<byte>, src: seq<byte>)
    returns (ch': seq<nat>, k: nat, out: Outcome)
    requires Writing(L, d0, ch0, p.disk, ch, pos, done, p.cluster, p.offset)
    ensures ch <= ch' && RunEnds(L, d0, ch0, PenRun(L, p, src), ch', pos, done, src, k, out)
    ensures !out.Lost? ==> PenRun(L, p, src).0.first == p.first
    ensures out == Full ==> var q := PenRun(L, p, src).0; q.cluster == Tail(ch') && q.offset == L.ClusterBytes()
    decreases |src|
  {
    hide Writing, Halted, Pass, PenRun, Tail;
    if src == [] {
      ConcatEmpty(done);
      NothingRun(L, p);
      ch', k, out := ch, 0, Going;
      return;
    }
    ch', out := PassGood(L, d0, ch0, p, ch, pos, done, src);
    PenRunStep(L, p, src);
    var a := Pass(L, p, src);
    k := a.1;
    if out == Going {
      var ch1, m;
      ch1, m, out := RunOutcome(L, d0, ch0, a.0, ch', pos, done + src[..k], src[k..]);
      Joined(done, src, k, m);
      ch', k := ch1, k + m;
    }
  }

  lemma {:induction false} Joined(done: seq<byte>, src: seq<byte>, n: nat, m: nat)
    requires n + m <= |src|
    ensures done + src[..n] + src[n..] == done + src
    ensures done + src[..n] + src[n..][..m] == done + src[..n + m]
  {
  }

  lemma {:induction false} WritingHasRoom(
    L: Layout, d0: Disk, ch0: seq<nat>, d: Disk, ch: seq<nat>, pos: nat, done: seq<byte>, cluster: nat, offset: nat)
    requires Writing(L, d0, ch0, d, ch, pos, done, cluster, offset)
    ensures Room(L, d0, ch0, pos, |done|)
  {
    hide FreeCount, Fat, Content, Overlaid;
    PositionOf(L, |ch|, 0);
    QuotBound(pos + |done|, |ch|, L.ClusterBytes());
  }

  lemma {:induction false} FilledHasNoRoom(
    L: Layout, d0: Disk, ch0: seq<nat>, d: Disk, ch: seq<nat>, pos: nat, done: seq<byte>, n: nat)
    requires FilledUp(L, d0, ch0, d, ch, pos, done) && |done| <= n
    ensures !Room(L, d0, ch0, pos, n)
  {
    hide FreeCount, Fat, Content, Overlaid;
    PositionOf(L, |ch|, 0);
    QuotRemOf(|ch|, 0, L.ClusterBytes());
    QuotMono(pos + |done|, pos + n, L.ClusterBytes());
  }

  /** All bytes find their place exactly when there is room for them. */
  lemma {:induction false} GoingExactly(
    L: Layout, d0: Disk, ch0: seq<nat>, q: (Pen, nat), ch: seq<nat>, pos: nat, src: seq<byte>, k: nat, out: Outcome)
    requires RunEnds(L, d0, ch0, q, ch, pos, [], src, k, out)
    ensures out == Going <==> Room(L, d0, ch0, pos, |src|)
  {
    hide Writing, FilledUp, Room;
    ConcatEmpty(src);
    ConcatEmpty(src[..k]);
    match out {
      case Going => WritingHasRoom(L, d0, ch0, q.0.disk, ch, pos, src, q.0.cluster, q.0.offset);
      case Full => FilledHasNoRoom(L, d0, ch0, q.0.disk, ch, pos, src[..k], |src|);
      case Lost(e, _) => FilledHasNoRoom(L, d0, ch0, e, ch, pos, src[..k], |src|);
    }
  }

  // ----- fat32_write -----

  /** A handle open for writing on chain `ch`; an empty chain is a file without first cluster. */
  ghost predicate WriteHandle(fs: FatFs, file: FileHandle, ch: seq<nat>)
    reads fs, file
  {
    && fs.L.Fits(|fs.disk|)
    && file.filePos <= file.fileSize < U32
    && if ch == [] then
        file.firstCluster == 0 && file.currCluster == 0 && file.currOffset == 0 && file.fileSize == 0
      else
        && IsChain(Fat(fs.disk, fs.L), ch)
        && file.firstCluster == ch[0]
        && file.filePos < Capacity(fs.L, ch)
        && file.fileSize <= Capacity(fs.L, ch)
        && CursorAt(fs.L, ch, file.filePos, file.currCluster, file.currOffset)
  }

  /** `fat32_write`, on any handle and any volume: all its fields and the disk are those of the loop. */
  method Write(fs: FatFs, file: FileHandle, buffer: seq<byte>, size: int) returns (ret: int)
    requires size <= |buffer|
    modifies fs`disk, file`firstCluster, file`currCluster, file`currOffset, file`filePos, file`fileSize
    ensures !file.used || file.mode != MODE_WRITE ==> ret == -1 && unchanged(file) && fs.disk == old(fs.disk)
    ensures file.used && file.mode == MODE_WRITE && size <= 0 ==> ret == 0 && unchanged(file) && fs.disk == old(fs.disk)
    ensures file.used && file.mode == MODE_WRITE && size > 0 ==>
      ret >= 0 && (PenOf(fs, file), ret) == PenRun(fs.L, old(PenOf(fs, file)), buffer[..size])
  {
    hide PenRun, PenOf;
    if !file.used || file.mode != MODE_WRITE {
      return -1;
    }
    if size <= 0 { return 0; }
    ret := WriteLoop(fs, file, buffer[..size]);
  }

  /** Where a write can start: on the chain at its cursor, or on no cluster at all. */
  ghost predicate Ready(L: Layout, p: Pen, ch: seq<nat>, pos: nat)
  {
    && L.Fits(|p.disk|)
    && if ch == [] then p.first == 0 && p.cluster == 0 && p.offset == 0 && pos == 0
       else
         && IsChain(Fat(p.disk, L), ch) && p.first == ch[0] && pos < Capacity(L, ch)
         && CursorAt(L, ch, pos, p.cluster, p.offset)
  }

  /** How the loop ends from there. */
  lemma {:induction false} ReadyOutcome(L: Layout, p: Pen, ch: seq<nat>, pos: nat, src: seq<byte>)
    returns (ch': seq<nat>, k: nat, out: Outcome)
    requires Ready(L, p, ch, pos) && src != []
    ensures ch <= ch' && RunEnds(L, p.disk, ch, PenRun(L, p, src), ch', pos, [], src, k, out)
    ensures var q := PenRun(L, p, src).0;
      && (!out.Lost? && ch' != [] ==> q.first == ch'[0])
      && (out == Full && ch' != [] ==> q.cluster == Tail(ch') && q.offset == L.ClusterBytes())
      && (out == Full && ch' == [] ==> PenRun(L, p, src) == (p, 0))
  {
    hide Writing, Halted, Grown, Content, PenRun, Pass, AllocResult, Tail;
    ReadyGrown(L, p, ch, pos);
    if ch != [] {
      WritingStart(L, p, ch, pos);
      ch', k, out := RunOutcome(L, p.disk, ch, p, ch, pos, [], src);
    } else {
      TailOfNothing();
      ch', out := ExtendGood(L, p.disk, ch, p, ch, 0, []);
      FirstTaken(L, p, src);
      if out == Going {
        var a := AllocResult(p.disk, L, 0);
        ch', k, out := RunOutcome(L, p.disk, ch, OnFirst(p, a), ch', 0, [], src);
      } else {
        k := 0;
        ConcatEmpty(src[..0]);
        HaltedDisk(L, p.disk, ch, p.disk, ch, 0, [], out);
      }
    }
  }

  lemma {:induction false} TailOfNothing()
    ensures Tail([]) == 0
  {
  }

  lemma {:induction false} ReadyGrown(L: Layout, p: Pen, ch: seq<nat>, pos: nat)
    requires Ready(L, p, ch, pos)
    ensures L.Fits(|p.disk|) && Within(L, ch) && Grown(L, p.disk, ch, p.disk, ch)
    ensures ch == [] ==> pos == Position(L, |ch|, 0) && Overlaid(Content(p.disk, L, ch), Content(p.disk, L, ch), 0, [])
  {
    FrameReflexive(p.disk, L, ch);
  }

  lemma {:induction false} WritingStart(L: Layout, p: Pen, ch: seq<nat>, pos: nat)
    requires Ready(L, p, ch, pos) && ch != [] && Within(L, ch) && Grown(L, p.disk, ch, p.disk, ch)
    ensures Writing(L, p.disk, ch, p.disk, ch, pos, [], p.cluster, p.offset)
  {
  }

  /** A handle without a cluster writes as if it stood on the first one it takes. */
  lemma {:induction false} FirstTaken(L: Layout, p: Pen, src: seq<byte>)
    requires p.cluster == 0 && src != []
    ensures var a := AllocResult(p.disk, L, 0);
      PenRun(L, p, src) == if a.1 == 0 then (p.(first := 0), 0) else PenRun(L, OnFirst(p, a), src)
  {
    hide AllocResult, PassOn, PenRun;
    var a := AllocResult(p.disk, L, 0);
    PenRunStep(L, p, src);
    if a.1 != 0 {
      PenRunStep(L, OnFirst(p, a), src);
    }
  }

  /** At the end of a full chain the cursor stands behind its cluster, which no position has. */
  lemma {:induction false} FullCursor(L: Layout, ch: seq<nat>, p: nat)
    requires L.spc > 0
    ensures !CursorAt(L, ch, p, Tail(ch), L.ClusterBytes())
  {
  }

  /**
   What a write means for a file on chain `ch`. With room all bytes are laid over the content, the
   chain only grows at its end, and no other allocated cluster or entry changes. Without room the
   chain takes every free cluster and is filled to its last byte; then either the disk has no zero
   word for the scan and the write halts there with its cursor off the position, or the scan takes
   a word behind the table.
   */
  method WriteFile(fs: FatFs, file: FileHandle, buffer: seq<byte>, size: int, ghost ch: seq<nat>)
    returns (ret: int, ghost ch': seq<nat>, ghost k: nat, ghost out: Outcome)
    requires size <= |buffer|
    modifies fs`disk, file`firstCluster, file`currCluster, file`currOffset, file`filePos, file`fileSize
    ensures !file.used || file.mode != MODE_WRITE ==>
      ret == -1 && ch' == ch && unchanged(file) && fs.disk == old(fs.disk)
    ensures file.used && file.mode == MODE_WRITE && size <= 0 ==>
      ret == 0 && ch' == ch && unchanged(file) && fs.disk == old(fs.disk)
    ensures file.used && file.mode == MODE_WRITE && size > 0 && old(file.filePos) < U32 ==>
      0 <= ret <= size && file.filePos == (old(file.filePos) + ret) % U32
    ensures file.used && file.mode == MODE_WRITE && size > 0 && old(WriteHandle(fs, file, ch)) ==>
      && ch <= ch'
      && (old(file.filePos) + ret < U32 ==> file.fileSize == Max(file.filePos, old(file.fileSize)))
      && (out == Going <==> Room(fs.L, old(fs.disk), ch, old(file.filePos), size))
      && RunEnds(fs.L, old(fs.disk), ch, (PenOf(fs, file), ret), ch', old(file.filePos), [], buffer[..size], k, out)
      && (out == Going ==> ret == size && ch' != [])
      && (out == Going && old(file.filePos) + size < U32 ==> WriteHandle(fs, file, ch'))
      && (out == Full && ch' != [] ==>
            && file.currCluster == Tail(ch') && file.currOffset == fs.L.ClusterBytes()
            && !CursorAt(fs.L, ch', file.filePos, file.currCluster, file.currOffset))
      && (out == Full && ch' == [] ==> ret == 0 && WriteHandle(fs, file, []))
      && (out == Full && old(file.filePos) + ret < U32 ==> OnChain(fs, file, ch'))
  {
    hide Content, CursorAt, FreeCount, Fat, Within, Capacity, Room, PenRun, Tail, Overlaid, WriteHandle, RunEnds,
      OnChain;
    ch', k, out := ch, 0, Going;
    ghost var p, pos, proper := PenOf(fs, file), file.filePos, WriteHandle(fs, file, ch);
    if proper {
      ReadyHandle(fs, file, ch);
    }
    ret := Write(fs, file, buffer, size);
    if file.used && file.mode == MODE_WRITE && size > 0 {
      ghost var src := buffer[..size];
      if pos < U32 {
        RunPos(fs.L, p, src);
      }
      if proper {
        ch', k, out := ReadyOutcome(fs.L, p, ch, pos, src);
        GoingExactly(fs.L, p.disk, ch, PenRun(fs.L, p, src), ch', pos, src, k, out);
        FullCursor(fs.L, ch', file.filePos);
        match out {
          case Going => GoingHandle(fs, file, p, ch, ch', src, ret, k);
          case Full =>
            FullOnChain(fs, file, p, ch, ch', src, ret, k);
            if ch' == [] {
              assert ch == [];
              UntouchedHandle(fs, file, p, []);
            }
          case Lost(_, _) =>
        }
      }
    }
  }

  /** A file on a proper chain that holds its size; without a chain it has no cluster and no bytes. */
  ghost predicate HeldBy(d: Disk, L: Layout, first: nat, size: nat, ch: seq<nat>)
  {
    && L.Fits(|d|) && size < U32
    && if ch == [] then first == 0 && size == 0
       else IsChain(Fat(d, L), ch) && first == ch[0] && size <= Capacity(L, ch)
  }

  /** The handle's file is such a file, wherever its cursor stands. */
  ghost predicate OnChain(fs: FatFs, file: FileHandle, ch: seq<nat>)
    reads fs, file
  {
    HeldBy(fs.disk, fs.L, file.firstCluster, file.fileSize, ch)
  }

  /** A halted write leaves a file on its chain; only its cursor is off. */
  lemma {:induction false} FullOnChain(
    fs: FatFs, file: FileHandle, p: Pen, ch0: seq<nat>, ch: seq<nat>, src: seq<byte>, ret: nat, k: nat)
    requires RunEnds(fs.L, p.disk, ch0, (PenOf(fs, file), ret), ch, p.pos, [], src, k, Full)
    requires HandleFits(p, fs.L, ch0) && (if ch != [] then file.firstCluster == ch[0] else PenOf(fs, file) == p)
    requires Ready(fs.L, p, ch0, p.pos)
    ensures p.pos + ret < U32 && file.filePos == p.pos + ret && file.fileSize == Max(file.filePos, p.size) ==>
      OnChain(fs, file, ch)
  {
    hide Content, Overlaid, FreeCount, Fat, CursorAt, Frame, NoneFreeOnDevice;
    ConcatEmpty(src[..k]);
    TimesMono(|ch0|, |ch|, fs.L.spc);
  }

  lemma {:induction false} ReadyHandle(fs: FatFs, file: FileHandle, ch: seq<nat>)
    requires WriteHandle(fs, file, ch)
    ensures fs.L.spc > 0 && Ready(fs.L, PenOf(fs, file), ch, file.filePos) && HandleFits(PenOf(fs, file), fs.L, ch)
  {
  }

  /** Position and size of a proper handle. */
  ghost predicate HandleFits(p: Pen, L: Layout, ch: seq<nat>)
  {
    p.pos <= p.size < U32 && p.size <= Capacity(L, ch)
  }

  lemma {:induction false} UntouchedHandle(fs: FatFs, file: FileHandle, p: Pen, ch: seq<nat>)
    requires Ready(fs.L, p, ch, p.pos) && HandleFits(p, fs.L, ch) && PenOf(fs, file) == p
    ensures WriteHandle(fs, file, ch)
  {
  }

  lemma {:induction false} GoingHandle(
    fs: FatFs, file: FileHandle, p: Pen, ch0: seq<nat>, ch: seq<nat>, src: seq<byte>, ret: nat, k: nat)
    requires RunEnds(fs.L, p.disk, ch0, (PenOf(fs, file), ret), ch, p.pos, [], src, k, Going)
    requires HandleFits(p, fs.L, ch0) && (ch != [] ==> file.firstCluster == ch[0])
    ensures ret == |src| && ch != []
    ensures p.pos + ret < U32 && file.filePos == p.pos + ret && file.fileSize == Max(file.filePos, p.size) ==>
      WriteHandle(fs, file, ch)
  {
    ConcatEmpty(src);
    TimesMono(|ch0|, |ch|, fs.L.spc);
  }

  lemma {:induction false} GoingMeans(
    L: Layout, d0: Disk, ch0: seq<nat>, q: (Pen, nat), ch: seq<nat>, pos: nat, src: seq<byte>, k: nat)
    requires RunEnds(L, d0, ch0, q, ch, pos, [], src, k, Going)
    ensures Grown(L, d0, ch0, q.0.disk, ch) && Within(L, ch0) && Within(L, ch)
    ensures Overlaid(Content(d0, L, ch0), Content(q.0.disk, L, ch), pos, src)
  {
    ConcatEmpty(src);
  }

  /** The same write where there is room for all of it. */
  method WriteInRoom(fs: FatFs, file: FileHandle, buffer: seq<byte>, ghost ch: seq<nat>)
    returns (ret: int, ghost ch': seq<nat>)
    requires WriteHandle(fs, file, ch) && file.used && file.mode == MODE_WRITE
    requires file.filePos + |buffer| < U32 && Room(fs.L, fs.disk, ch, file.filePos, |buffer|)
    modifies fs`disk, file`firstCluster, file`currCluster, file`currOffset, file`filePos, file`fileSize
    ensures WriteHandle(fs, file, ch') && ret == |buffer|
    ensures buffer == [] ==> ch' == ch && unchanged(file) && fs.disk == old(fs.disk)
    ensures buffer != [] ==>
      && ch' != []
      && file.filePos == old(file.filePos) + |buffer|
      && file.fileSize == Max(file.filePos, old(file.fileSize))
      && Grown(fs.L, old(fs.disk), ch, fs.disk, ch') && Within(fs.L, ch) && Within(fs.L, ch')
      && Overlaid(Content(old(fs.disk), fs.L, ch), Content(fs.disk, fs.L, ch'), old(file.filePos), buffer)
  {
    hide Content, CursorAt, WriteHandle, Fat, Grown, Within, Capacity, Room, PenRun, Tail, Overlaid, RunEnds, PenOf;
    ghost var d, pos, k, out := fs.disk, file.filePos, 0, Going;
    TakeAll(buffer);
    ret, ch', k, out := WriteFile(fs, file, buffer, |buffer|, ch);
    if buffer != [] {
      GoingMeans(fs.L, d, ch, (PenOf(fs, file), ret), ch', pos, buffer, k);
      PenDisk(fs, file);
    }
  }

  lemma {:induction false} PenDisk(fs: FatFs, file: FileHandle)
    ensures PenOf(fs, file).disk == fs.disk
  {
  }
}
