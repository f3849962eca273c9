/** What the driver reads, as bytes of the device counted from its start. */
module FatOnDisk {
  import opened Bytes
  import opened FatTable
  import opened FatChain
  import opened FatContent
  import opened FatDir

  function DeviceByte(d: Disk, p: nat): byte
    requires p / 512 < |d|
  {
    d[p / 512][p % 512]
  }

  lemma {:induction false} WordValue(a: byte, b: byte, c: byte, e: byte)
    ensures Le([a, b, c, e]) == a + 0x100 * b + 0x1_0000 * c + 0x100_0000 * e
  {
    assert [a, b, c, e][1..] == [b, c, e] && [b, c, e][1..] == [c, e] && [c, e][1..] == [e] && [e][1..] == [];
    assert Le([e]) == e;
    assert Le([c, e]) == c + 256 * e;
    assert Le([b, c, e]) == b + 256 * Le([c, e]);
  }

  /** The table is an array of little-endian words: that of cluster `c` is the `c`-th, less its top four bits. */
  lemma {:induction false} TableWord(d: Disk, L: Layout, c: nat)
    requires c < SCAN_LIMIT && L.fatStart + 4 * c / 512 < |d| <= U32
    ensures var p := 512 * L.fatStart + 4 * c;
      && (p + 3) / 512 < |d|
      && FatEntry(d, L, c) ==
         (DeviceByte(d, p) + 0x100 * DeviceByte(d, p + 1) + 0x1_0000 * DeviceByte(d, p + 2)
          + 0x100_0000 * DeviceByte(d, p + 3)) % 0x1000_0000
  {
    hide RawEntry, EntrySector, EntryOffset;
    EntryPlace(L, c);
    WordAt(d, L, c, L.fatStart + 4 * c / 512, 4 * c % 512);
  }

  lemma {:induction false} EntryPlace(L: Layout, c: nat)
    requires c < SCAN_LIMIT && L.fatStart + 4 * c / 512 < U32
    ensures EntrySector(L, c) == L.fatStart + 4 * c / 512 && EntryOffset(c) == 4 * c % 512
  {
    InRange(c);
    InThirtyTwo(L.fatStart + 4 * c / 512);
  }

  lemma {:induction false} WordAt(d: Disk, L: Layout, c: nat, s: nat, at: nat)
    requires EntrySector(L, c) == s < |d| && EntryOffset(c) == at && at + 4 <= 512
    ensures var p := 512 * s + at;
      && (p + 3) / 512 < |d|
      && RawEntry(d, L, c) == DeviceByte(d, p) + 0x100 * DeviceByte(d, p + 1) + 0x1_0000 * DeviceByte(d, p + 2)
                              + 0x100_0000 * DeviceByte(d, p + 3)
  {
    hide EntrySector, EntryOffset, DeviceByte;
    ByteInSector(d, s, at);
    ByteInSector(d, s, at + 1);
    ByteInSector(d, s, at + 2);
    ByteInSector(d, s, at + 3);
    var w := d[s][at..at + 4];
    assert w == [w[0], w[1], w[2], w[3]];
    WordValue(w[0], w[1], w[2], w[3]);
  }

  /** What an entry says of the next cluster: from the bad-cluster value on there is none; so off the device. */
  lemma {:induction false} LinkMeans(d: Disk, L: Layout, c: nat)
    ensures FatEntry(d, L, c) >= 0x0FFF_FFF7 <==> Next(FatEntry(d, L, c)) == 0xFFFF_FFFF
    ensures FatEntry(d, L, c) < 0x0FFF_FFF7 ==> Next(FatEntry(d, L, c)) == FatEntry(d, L, c)
    ensures EntrySector(L, c) >= |d| ==> FatEntry(d, L, c) == 0x0FFF_FFF7
  {
  }

  lemma {:induction false} ByteInSector(d: Disk, s: nat, at: nat)
    requires s < |d| && at < 512
    ensures (512 * s + at) / 512 == s && DeviceByte(d, 512 * s + at) == d[s][at]
  {
  }

  /** The first byte of cluster `c` on the device. */
  function ClusterStart(L: Layout, c: nat): nat
    requires c >= 2
  {
    512 * (L.dataStart + Times(c - 2, L.spc))
  }

  /** A cluster is one stretch of the device, and the content of a chain is its clusters end to end. */
  lemma {:induction false} ContentOnDevice(d: Disk, L: Layout, ch: seq<nat>, k: nat, off: nat)
    requires L.Fits(|d|) && Within(L, ch) && k < |ch| && off < L.ClusterBytes()
    ensures ch[k] >= 2 && (ClusterStart(L, ch[k]) + off) / 512 < |d|
    ensures |Content(d, L, ch)| == 512 * Times(|ch|, L.spc) && 512 * Times(k, L.spc) + off < |Content(d, L, ch)|
    ensures Content(d, L, ch)[512 * Times(k, L.spc) + off] == DeviceByte(d, ClusterStart(L, ch[k]) + off)
  {
    hide Content, Times, Layout.Fits;
    SectorSlice(d, L, ch, k, off, 1);
    SamePlace(L.dataStart + Times(ch[k] - 2, L.spc), off);
    var s := SectorNo(L, ch[k], off / 512);
    assert d[s][off % 512..off % 512 + 1][0] == Content(d, L, ch)[Position(L, k, off)..Position(L, k, off) + 1][0];
  }

  lemma {:induction false} SamePlace(s: nat, off: nat)
    ensures (512 * s + off) / 512 == s + off / 512 && (512 * s + off) % 512 == off % 512
  {
  }

  // ----- directory entries -----

  /** The fields of an entry, from its bytes. */
  lemma {:induction false} EntryFields(e: Dirent, high: nat, low: nat, size: nat)
    requires high < 0x1_0000 && e[20..22] == ToLe(high, 2)
    requires low < 0x1_0000 && e[26..28] == ToLe(low, 2)
    requires size < U32 && e[28..32] == ToLe(size, 4)
    ensures ClusterOf(e) == 0x1_0000 * high + low && SizeOf(e) == size
  {
    assert Pow256(2) == 0x1_0000 && Pow256(4) == U32;
    LeOfToLe(high, 2);
    LeOfToLe(low, 2);
    LeOfToLe(size, 4);
  }

  /** The entry of a directory is one with attribute bit 0x10. */
  lemma {:induction false} DirectoryBit(e: Dirent, high: nat, low: nat)
    requires low < 0x10
    ensures e[11] == 0x20 * high + 0x10 + low ==> IsDirectory(e)
    ensures e[11] == 0x20 * high + low ==> !IsDirectory(e)
  {
    if e[11] == 0x20 * high + 0x10 + low {
      assert e[11] / 16 == 2 * high + 1;
    }
    if e[11] == 0x20 * high + low {
      assert e[11] / 16 == 2 * high;
    }
  }

  // ----- scans -----

  /** The entry answers to `name`. */
  predicate Answers(e: Dirent, name: Name) { e[..11] == name && e[0] != 0xE5 && e[11] != 0x0F }

  /** A lookup finds the first entry that answers, if there is one in front of the first zero byte. */
  lemma {:induction false} LookupMeans(dir: seq<Dirent>, name: Name)
    ensures forall i: nat :: Lookup(dir, name) == Some(i) <==>
      && i < |dir| && dir[i][0] != 0 && Answers(dir[i], name)
      && forall j :: 0 <= j < i ==> dir[j][0] != 0 && !Answers(dir[j], name)
    ensures Lookup(dir, name) == None <==>
      forall i :: 0 <= i < |dir| && Answers(dir[i], name) ==> exists j :: 0 <= j <= i && dir[j][0] == 0
  {
    var probe, r := FindProbe(name), Lookup(dir, name);
    forall j | 0 <= j < |dir|
      ensures probe(dir[j]) == Stop <==> dir[j][0] == 0
      ensures probe(dir[j]) == Take <==> dir[j][0] != 0 && Answers(dir[j], name)
    {
    }
    forall i: nat | i < |dir| && probe(dir[i]) == Take && forall j :: 0 <= j < i ==> probe(dir[j]) == Pass
      ensures r == Some(i)
    {
      ScanSkips(dir, probe, 0, i);
    }
  }

  /** A free slot is the first entry that starts with zero or with the mark of deleted entries. */
  lemma {:induction false} FreeSlotMeans(dir: seq<Dirent>)
    ensures forall i: nat :: FreeSlot(dir) == Some(i) <==>
      && i < |dir| && (dir[i][0] == 0 || dir[i][0] == 0xE5)
      && forall j :: 0 <= j < i ==> dir[j][0] != 0 && dir[j][0] != 0xE5
    ensures FreeSlot(dir) == None <==> forall i :: 0 <= i < |dir| ==> dir[i][0] != 0 && dir[i][0] != 0xE5
  {
    var probe, r := FreeProbe(), FreeSlot(dir);
    forall i: nat | i < |dir| && probe(dir[i]) == Take && forall j :: 0 <= j < i ==> probe(dir[j]) == Pass
      ensures r == Some(i)
    {
      ScanSkips(dir, probe, 0, i);
    }
    if i :| 0 <= i < |dir| && probe(dir[i]) == Take {
      NeverStops(dir, i);
    }
  }

  lemma {:induction false} NeverStops(dir: seq<Dirent>, i: nat)
    requires i < |dir| && FreeProbe()(dir[i]) == Take
    ensures FreeSlot(dir) != None
  {
    assert forall k :: 0 <= k < |dir| ==> FreeProbe()(dir[k]) != Stop;
  }
}
