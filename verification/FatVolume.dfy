/** The mounted volume: entry access, the chain step and first-fit allocation on the device. */
module FatVolume {
  import opened Bytes
  import opened FatTable
  import opened FatChain
  import opened FatContent

  /** The disk after `r` is taken and, unless `prev` is 0, linked behind `prev`. */
  function AllocDisk(d: Disk, L: Layout, prev: nat, r: nat): (e: Disk)
    requires EntrySector(L, r) < |d|
    requires prev != 0 ==> EntrySector(L, prev) < |d|
    ensures |e| == |d|
  {
    var d1 := PutEntry(d, L, r, END_OF_CHAIN);
    if prev == 0 then d1 else PutEntry(d1, L, prev, r)
  }

  /** `r` is the lowest entry the scan finds free, wherever on the device the scan gets to. */
  ghost predicate FirstFreeOnDevice(d: Disk, L: Layout, r: nat)
  {
    && 2 <= r < SCAN_LIMIT
    && FatEntry(d, L, r) == FREE_CLUSTER
    && forall c :: 2 <= c < r ==> FatEntry(d, L, c) != FREE_CLUSTER
  }

  ghost predicate NoneFreeOnDevice(d: Disk, L: Layout)
  {
    forall c :: 2 <= c < SCAN_LIMIT ==> FatEntry(d, L, c) != FREE_CLUSTER
  }

  /** The reserved top four bits of every entry, and all of every entry but two, are kept. */
  ghost predicate OnlyEntries(d: Disk, e: Disk, L: Layout, a: nat, b: nat)
    requires L.Fits(|d|) && |e| == |d|
  {
    forall c :: 0 <= c < L.limit ==>
      && EntrySector(L, c) < |d|
      && RawEntry(e, L, c) / LOW28 == RawEntry(d, L, c) / LOW28
      && (c != a && c != b ==> RawEntry(e, L, c) == RawEntry(d, L, c))
  }

  /** Allocation inside the volume, seen on the table and on the rest of the disk. */
  lemma {:induction false} AllocDiskFat(d: Disk, L: Layout, prev: nat, r: nat)
    requires L.Fits(|d|) && r < L.limit && prev < L.limit
    ensures EntrySector(L, r) < |d| && EntrySector(L, prev) < |d|
    ensures Fat(AllocDisk(d, L, prev, r), L) == Allocated(Fat(d, L), prev, r)
    ensures forall s :: L.dataStart <= s < |d| ==> AllocDisk(d, L, prev, r)[s] == d[s]
    ensures OnlyEntries(d, AllocDisk(d, L, prev, r), L, prev, r)
  {
    EntryInTable(L, |d|, r);
    EntryInTable(L, |d|, prev);
    PutEntryFat(d, L, r, END_OF_CHAIN);
    var d1 := PutEntry(d, L, r, END_OF_CHAIN);
    if prev != 0 {
      PutEntryFat(d1, L, prev, r);
    }
    AllocDiskRaw(d, L, prev, r);
  }

  lemma {:induction false} AllocDiskRaw(d: Disk, L: Layout, prev: nat, r: nat)
    requires L.Fits(|d|) && r < L.limit && prev < L.limit
    requires EntrySector(L, r) < |d| && EntrySector(L, prev) < |d|
    ensures OnlyEntries(d, AllocDisk(d, L, prev, r), L, prev, r)
  {
    var d1 := PutEntry(d, L, r, END_OF_CHAIN);
    forall c | 0 <= c < L.limit
      ensures EntrySector(L, c) < |d|
      ensures RawEntry(AllocDisk(d, L, prev, r), L, c) / LOW28 == RawEntry(d, L, c) / LOW28
      ensures c != prev && c != r ==> RawEntry(AllocDisk(d, L, prev, r), L, c) == RawEntry(d, L, c)
    {
      EntryInTable(L, |d|, c);
      if c == r { PutEntrySame(d, L, r, END_OF_CHAIN); } else { PutEntryOther(d, L, r, END_OF_CHAIN, c); }
      if prev != 0 {
        if c == prev { PutEntrySame(d1, L, prev, r); } else { PutEntryOther(d1, L, prev, r, c); }
      }
    }
  }

  /** Linking a cluster that was free behind a cluster of `mine`, or behind nothing, keeps the frame. */
  lemma {:induction false} FrameAlloc(d0: Disk, d: Disk, L: Layout, mine: seq<nat>, prev: nat, r: nat)
    requires L.Fits(|d0|) && Frame(d0, d, L, mine)
    requires 2 <= r < L.limit && FatEntry(d0, L, r) == FREE_CLUSTER
    requires prev < L.limit && (prev == 0 || prev in mine || FatEntry(d0, L, prev) == FREE_CLUSTER)
    ensures EntrySector(L, r) < |d| && EntrySector(L, prev) < |d|
    ensures Frame(d0, AllocDisk(d, L, prev, r), L, mine)
  {
    AllocDiskFat(d, L, prev, r);
    var e := AllocDisk(d, L, prev, r);
    forall c | 2 <= c < L.limit && c !in mine && FatEntry(d0, L, c) != FREE_CLUSTER
      ensures Untouched(d0, e, L, c)
    {
      assert Untouched(d0, d, L, c);
      assert RawEntry(e, L, c) == RawEntry(d, L, c);
      forall s | 0 <= s < L.spc
        ensures e[SectorNo(L, c, s)] == d[SectorNo(L, c, s)]
      {
        SectorInside(L, |d|, c, s);
      }
    }
  }

  /** As long as the volume has a free cluster, the unbounded scan stops inside the volume. */
  lemma {:induction false} ScanStaysInside(d: Disk, L: Layout)
    requires L.Fits(|d|) && FreeCount(Fat(d, L)) > 0
    ensures !NoneFreeOnDevice(d, L)
    ensures forall r :: FirstFreeOnDevice(d, L, r) ==> IsLeastFree(Fat(d, L), r)
  {
    var c :| c in FreeSet(Fat(d, L));
    assert FatEntry(d, L, c) == FREE_CLUSTER;
    forall r | FirstFreeOnDevice(d, L, r)
      ensures IsLeastFree(Fat(d, L), r)
    {
      assert r <= c;
    }
  }

  /** What the scan comes to: the lowest free entry on the device, or 0. */
  ghost function Scanned(d: Disk, L: Layout): (r: nat)
    ensures r != 0 ==> FirstFreeOnDevice(d, L, r)
  {
    if r: nat :| FirstFreeOnDevice(d, L, r) then r else 0
  }

  lemma {:induction false} ScannedIs(d: Disk, L: Layout, r: nat)
    requires FirstFreeOnDevice(d, L, r)
    ensures Scanned(d, L) == r
  {
  }

  lemma {:induction false} LowestFree(d: Disk, L: Layout, c: nat) returns (r: nat)
    requires 2 <= c < SCAN_LIMIT && FatEntry(d, L, c) == FREE_CLUSTER
    ensures FirstFreeOnDevice(d, L, r)
  {
    if b: nat :| 2 <= b < c && FatEntry(d, L, b) == FREE_CLUSTER {
      r := LowestFree(d, L, b);
    } else {
      r := c;
    }
  }

  lemma {:induction false} ScannedNothing(d: Disk, L: Layout)
    ensures Scanned(d, L) == 0 <==> NoneFreeOnDevice(d, L)
  {
    if c: nat :| 2 <= c < SCAN_LIMIT && FatEntry(d, L, c) == FREE_CLUSTER {
      var r := LowestFree(d, L, c);
    }
  }

  /** The disk and the cluster an allocation gives; 0 and the same disk when it fails. */
  ghost function AllocResult(d: Disk, L: Layout, prev: nat): (a: (Disk, nat))
    ensures |a.0| == |d|
  {
    var r := Scanned(d, L);
    if r == 0 || (prev != 0 && EntrySector(L, prev) >= |d|) then (d, 0) else (AllocDisk(d, L, prev, r), r)
  }

  /** Where the scan stops: inside the table exactly when the table has a free cluster. */
  lemma {:induction false} ScanInsideExactly(d: Disk, L: Layout, r: nat)
    requires L.Fits(|d|) && FirstFreeOnDevice(d, L, r)
    ensures r < L.limit <==> FreeCount(Fat(d, L)) > 0
    ensures r < L.limit ==> IsLeastFree(Fat(d, L), r)
  {
    if r < L.limit {
      assert r in FreeSet(Fat(d, L));
    } else if FreeCount(Fat(d, L)) > 0 {
      ScanStaysInside(d, L);
    }
  }

  /**
   With no free cluster in the table but a zero word behind it the scan takes that word: the disk
   changes, and the chain behind whose tail the word was linked is a chain no longer, with or
   without it.
   */
  lemma {:induction false} FullTableDamage(d: Disk, L: Layout, ch: seq<nat>, r: nat)
    requires L.Fits(|d|) && FirstFreeOnDevice(d, L, r) && FreeCount(Fat(d, L)) == 0 && IsChain(Fat(d, L), ch)
    ensures var tail := ch[|ch| - 1];
      && r >= L.limit && EntrySector(L, r) < |d| && EntrySector(L, tail) < |d|
      && AllocDisk(d, L, tail, r) != d && AllocDisk(d, L, 0, r) != d
      && !IsChain(Fat(AllocDisk(d, L, tail, r), L), ch)
      && !IsChain(Fat(AllocDisk(d, L, tail, r), L), ch + [r])
  {
    hide Fat, FatEntry, AllocDisk, FreeCount, IsChain, FirstFreeOnDevice, EntrySector, Layout.Fits;
    ScanInsideExactly(d, L, r);
    LimitInScan(L, |d|);
    EntryInTable(L, |d|, 0);
    TailInTable(Fat(d, L), ch);
    var tail := ch[|ch| - 1];
    EntryInTable(L, |d|, tail);
    Redirected(d, L, 0, r);
    Redirected(d, L, tail, r);
    Broken(Fat(AllocDisk(d, L, tail, r), L), ch, r);
  }

  lemma {:induction false} TailInTable(fat: seq<nat>, ch: seq<nat>)
    requires IsChain(fat, ch)
    ensures ch != [] && 2 <= ch[|ch| - 1] < |fat|
  {
  }

  /** The word at `r` is taken, and the tail points there. */
  lemma {:induction false} Redirected(d: Disk, L: Layout, tail: nat, r: nat)
    requires L.Fits(|d|) && FirstFreeOnDevice(d, L, r) && r >= L.limit && tail < L.limit && EntrySector(L, tail) < |d|
    ensures r < SCAN_LIMIT && EntrySector(L, r) < |d|
    ensures AllocDisk(d, L, tail, r) != d
    ensures tail != 0 ==> Fat(AllocDisk(d, L, tail, r), L)[tail] == r
  {
    hide PutEntry, EntrySector;
    PutEntrySame(d, L, r, END_OF_CHAIN);
    var d1 := PutEntry(d, L, r, END_OF_CHAIN);
    if tail != 0 {
      PutEntrySame(d1, L, tail, r);
      PutEntryOther(d1, L, tail, r, r);
    }
  }

  lemma {:induction false} Broken(fat: seq<nat>, ch: seq<nat>, r: nat)
    requires ch != [] && ch[|ch| - 1] < |fat| && fat[ch[|ch| - 1]] == r && |fat| <= r < SCAN_LIMIT
    ensures !IsChain(fat, ch) && !IsChain(fat, ch + [r])
  {
    assert (ch + [r])[|ch|] == r;
  }

  class FatFs {
    const L: Layout
    var disk: Disk

    constructor (layout: Layout, device: Disk)
      ensures L == layout && disk == device
    {
      L := layout;
      disk := device;
    }

    method ReadFatEntry(c: nat) returns (v: nat)
      ensures v == FatEntry(disk, L, c)
    {
      var fatOffset := c * 4 % U32;
      var fatSector := (L.fatStart + fatOffset / SECTOR_SIZE) % U32;
      var entryOffset := fatOffset % SECTOR_SIZE;
      assert fatSector == EntrySector(L, c) && entryOffset == EntryOffset(c);
      if fatSector >= |disk| {
        return BAD_CLUSTER;
      }
      var sector := disk[fatSector];
      v := Le(sector[entryOffset..entryOffset + 4]) % LOW28;
    }

    /** -1 when the device has no such sector; otherwise 0 and the entry is replaced. */
    method WriteFatEntry(c: nat, value: nat) returns (ret: int)
      modifies this`disk
      ensures |disk| == |old(disk)|
      ensures ret == if EntrySector(L, c) < |disk| then 0 else -1
      ensures ret == 0 ==> disk == PutEntry(old(disk), L, c, value)
      ensures ret != 0 ==> disk == old(disk)
    {
      var fatOffset := c * 4 % U32;
      var fatSector := (L.fatStart + fatOffset / SECTOR_SIZE) % U32;
      var entryOffset := fatOffset % SECTOR_SIZE;
      assert fatSector == EntrySector(L, c) && entryOffset == EntryOffset(c);
      if fatSector >= |disk| {
        return -1;
      }
      var sector := disk[fatSector];
      var raw := Le(sector[entryOffset..entryOffset + 4]);
      var entry := value % LOW28 + raw / LOW28 * LOW28;
      disk := disk[fatSector := Splice(sector, entryOffset, ToLe(entry, 4))];
      return 0;
    }

    method NextCluster(c: nat) returns (n: nat)
      ensures n == Next(FatEntry(disk, L, c))
    {
      var next := ReadFatEntry(c);
      if next >= EOC_MIN {
        return NO_CLUSTER;
      }
      if next == BAD_CLUSTER {
        return NO_CLUSTER;
      }
      return next;
    }

    /**
     The lowest free entry, linked behind `prev` unless that is 0. A result of 0 means that the
     scan found nothing or `prev` has no entry on the device; the disk is then bit-identical.
     */
    method AllocateCluster(prev: nat) returns (r: nat)
      modifies this`disk
      ensures |disk| == |old(disk)|
      ensures r == 0 ==> disk == old(disk)
      ensures r == 0 ==>
        NoneFreeOnDevice(old(disk), L) || (prev != 0 && EntrySector(L, prev) >= |disk|)
      ensures r != 0 ==> FirstFreeOnDevice(old(disk), L, r)
      ensures r != 0 ==> EntrySector(L, r) < |disk| && (prev != 0 ==> EntrySector(L, prev) < |disk|)
      ensures r != 0 ==> disk == AllocDisk(old(disk), L, prev, r)
      ensures (disk, r) == AllocResult(old(disk), L, prev)
    {
      ghost var d := disk;
      var cluster := 2;
      while cluster < SCAN_LIMIT
        invariant 2 <= cluster <= SCAN_LIMIT
        invariant disk == d
        invariant forall c :: 2 <= c < cluster ==> FatEntry(d, L, c) != FREE_CLUSTER
      {
        var e := ReadFatEntry(cluster);
        if e == FREE_CLUSTER {
          ScannedIs(d, L, cluster);
          var ret := WriteFatEntry(cluster, END_OF_CHAIN);
          if ret < 0 {
            assert false;  // the sector was just read
          }
          if prev != 0 {
            ret := WriteFatEntry(prev, cluster);
            if ret < 0 {
              ret := WriteFatEntry(cluster, FREE_CLUSTER);
              PutEntryUndo(d, L, cluster, END_OF_CHAIN);
              return 0;
            }
          }
          return cluster;
        }
        cluster := cluster + 1;
      }
      return 0;
    }
  }

  /** The requests of a run, one after the other on the disk. */
  method PlayRequests(fs: FatFs, cs: seq<seq<nat>>, qs: seq<Request>) returns (cs': seq<seq<nat>>)
    requires fs.L.Fits(|fs.disk|) && Family(Fat(fs.disk, fs.L), cs) && |qs| <= FreeCount(Fat(fs.disk, fs.L))
    modifies fs`disk
    ensures fs.L.Fits(|fs.disk|)
    ensures Volume(Fat(fs.disk, fs.L), cs') == ServeAll(Volume(Fat(old(fs.disk), fs.L), cs), qs)
    ensures SameData(old(fs.disk), fs.disk, fs.L)
    decreases |qs|
  {
    hide Family, FreeCount, Fat, Serve, Layout.Fits;
    cs' := cs;
    if qs == [] { return; }
    ghost var v := Volume(Fat(fs.disk, fs.L), cs);
    LimitInScan(fs.L, |fs.disk|);
    ServeStep(v, qs[0]);
    cs' := PlayOne(fs, cs, qs[0]);
    cs' := PlayRequests(fs, cs', qs[1..]);
  }

  lemma {:induction false} LimitInScan(L: Layout, sectors: nat)
    requires L.Fits(sectors)
    ensures 2 <= L.limit <= SCAN_LIMIT
  {
  }

  /** No data sector changed. */
  ghost predicate SameData(d: Disk, e: Disk, L: Layout)
  {
    |e| == |d| && forall s :: L.dataStart <= s < |d| ==> e[s] == d[s]
  }

  method PlayOne(fs: FatFs, cs: seq<seq<nat>>, q: Request) returns (cs': seq<seq<nat>>)
    requires fs.L.Fits(|fs.disk|) && Family(Fat(fs.disk, fs.L), cs) && FreeCount(Fat(fs.disk, fs.L)) > 0
    modifies fs`disk
    ensures fs.L.Fits(|fs.disk|)
    ensures Volume(Fat(fs.disk, fs.L), cs') == Serve(Volume(Fat(old(fs.disk), fs.L), cs), q)
    ensures SameData(old(fs.disk), fs.disk, fs.L)
  {
    hide Family, FreeCount, Fat, AllocDisk, OnlyEntries, IsChain, FatEntry, FirstFreeOnDevice, NoneFreeOnDevice,
      IsLeastFree;
    ghost var d := fs.disk;
    ScanStaysInside(d, fs.L);
    LeastFreeExists(Fat(d, fs.L));
    match q {
      case NewChain =>
        EntryInTable(fs.L, |d|, 0);
        var r := fs.AllocateCluster(0);
        LeastFreeUnique(Fat(d, fs.L), r, LeastFreeFrom(Fat(d, fs.L), 2).value);
        AllocDiskFat(d, fs.L, 0, r);
        cs' := cs + [[r]];
      case Extend(k) =>
        cs' := cs;
        if k >= |cs| { return; }
        TailTaken(Fat(d, fs.L), cs, k);
        var tail := cs[k][|cs[k]| - 1];
        EntryInTable(fs.L, |d|, tail);
        var r := fs.AllocateCluster(tail);
        LeastFreeUnique(Fat(d, fs.L), r, LeastFreeFrom(Fat(d, fs.L), 2).value);
        AllocDiskFat(d, fs.L, tail, r);
        cs' := cs[k := cs[k] + [r]];
    }
  }

  lemma {:induction false} LeastFreeUnique(fat: seq<nat>, a: nat, b: nat)
    requires IsLeastFree(fat, a) && IsLeastFree(fat, b)
    ensures a == b && 2 <= a < |fat|
  {
  }
}
