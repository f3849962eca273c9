/**
 The volume as an array of 512-byte sectors, and the file allocation table packed in it:
 one little-endian 32-bit entry a cluster, of which the top four bits are reserved.
 */
module FatTable {
  import opened Bytes

  const SECTOR_SIZE := 512
  const FREE_CLUSTER := 0
  const BAD_CLUSTER := 0x0FFF_FFF7
  const EOC_MIN := 0x0FFF_FFF8
  const END_OF_CHAIN := 0x0FFF_FFFF
  const NO_CLUSTER := 0xFFFF_FFFF
  const SCAN_LIMIT := 0x0FFF_FFF0
  const LOW28 := 0x1000_0000

  type Sector = s: seq<byte> | |s| == 512 witness seq(512, _ => 0)

  type Disk = seq<Sector>

  /**
   What a mounted volume knows of its geometry. `limit` is the first cluster number past the
   data area, so clusters are 2 <= c < limit.
   */
  datatype Layout = Layout(fatStart: nat, dataStart: nat, spc: nat, limit: nat, root: nat)
  {
    function ClusterBytes(): nat { spc * SECTOR_SIZE }

    /** The table and the data area lie in this order inside a device of `sectors` sectors. */
    ghost predicate Fits(sectors: nat)
    {
      && 1 <= spc < 256
      && 2 <= limit <= SCAN_LIMIT
      && fatStart + (limit * 4 + 511) / 512 <= dataStart
      && dataStart + Times(limit - 2, spc) <= sectors <= U32
    }
  }

  lemma {:induction false} FourTimes(c: nat)
    ensures c * 4 % U32 == 4 * (c % 0x4000_0000)
  {
    var q, r := c / 0x4000_0000, c % 0x4000_0000;
    assert c * 4 == q * U32 + 4 * r;
  }

  /** The sector of an entry; the byte offset and the sum are taken in 32 bits. */
  function EntrySector(L: Layout, c: nat): nat { (L.fatStart + c * 4 % U32 / 512) % U32 }

  function EntryOffset(c: nat): (o: nat)
    ensures o % 4 == 0 && o + 4 <= 512
  {
    FourTimes(c);
    c * 4 % U32 % 512
  }

  function RawEntry(d: Disk, L: Layout, c: nat): nat
    requires EntrySector(L, c) < |d|
  {
    Le(d[EntrySector(L, c)][EntryOffset(c)..EntryOffset(c) + 4])
  }

  /** The low 28 bits of an entry; a sector the device cannot deliver reads as a bad cluster. */
  function FatEntry(d: Disk, L: Layout, c: nat): nat
  {
    if EntrySector(L, c) < |d| then RawEntry(d, L, c) % LOW28 else BAD_CLUSTER
  }

  function Merged(raw: nat, v: nat): nat { v % LOW28 + raw / LOW28 * LOW28 }

  /** The disk after the low 28 bits of the entry of `c` are replaced. */
  function PutEntry(d: Disk, L: Layout, c: nat, v: nat): (r: Disk)
    requires EntrySector(L, c) < |d|
    ensures |r| == |d|
  {
    var s := EntrySector(L, c);
    d[s := Splice(d[s], EntryOffset(c), ToLe(Merged(RawEntry(d, L, c), v), 4))]
  }

  /** The table as the chain algorithms see it: one number for each cluster of the volume. */
  function Fat(d: Disk, L: Layout): (f: seq<nat>)
    ensures |f| == L.limit
  {
    seq(L.limit, c requires 0 <= c => FatEntry(d, L, c))
  }

  lemma {:induction false} FatAt(d: Disk, L: Layout, c: nat)
    requires c < L.limit
    ensures Fat(d, L)[c] == FatEntry(d, L, c)
  {
  }

  lemma {:induction false} EntryInTable(L: Layout, sectors: nat, c: nat)
    requires L.Fits(sectors) && c < L.limit
    ensures EntrySector(L, c) < L.dataStart <= sectors
  {
  }

  /** Different clusters have entries at different places. */
  lemma {:induction false} EntryPlaces(L: Layout, a: nat, b: nat)
    requires a != b && a < SCAN_LIMIT && b < SCAN_LIMIT && EntrySector(L, a) == EntrySector(L, b)
    ensures EntryOffset(a) + 4 <= EntryOffset(b) || EntryOffset(b) + 4 <= EntryOffset(a)
  {
    InRange(a);
    InRange(b);
    var x, y := a * 4 / 512, b * 4 / 512;
    assert x == y by { SameSum(L.fatStart, x, y); }
  }

  lemma {:induction false} InRange(c: nat)
    requires c < SCAN_LIMIT
    ensures c * 4 % U32 == c * 4
  {
  }

  lemma {:induction false} SameSum(a: nat, x: nat, y: nat)
    requires x < U32 && y < U32 && (a + x) % U32 == (a + y) % U32
    ensures x == y
  {
  }

  lemma {:induction false} RawBound(d: Disk, L: Layout, c: nat)
    requires EntrySector(L, c) < |d|
    ensures RawEntry(d, L, c) < U32
  {
    var bs := d[EntrySector(L, c)][EntryOffset(c)..EntryOffset(c) + 4];
    ToLeOfLe(bs);
    assert Pow256(4) == U32;
  }

  /** Writing an entry sets its low 28 bits and keeps its reserved bits. */
  lemma {:induction false} PutEntrySame(d: Disk, L: Layout, c: nat, v: nat)
    requires EntrySector(L, c) < |d|
    ensures FatEntry(PutEntry(d, L, c, v), L, c) == v % LOW28
    ensures RawEntry(PutEntry(d, L, c, v), L, c) / LOW28 == RawEntry(d, L, c) / LOW28
  {
    RawBound(d, L, c);
    var m := Merged(RawEntry(d, L, c), v);
    assert Pow256(4) == U32;
    LeOfToLe(m, 4);
    var s := EntrySector(L, c);
    assert PutEntry(d, L, c, v)[s][EntryOffset(c)..EntryOffset(c) + 4] == ToLe(m, 4);
  }

  /** Writing an entry leaves every bit of every other entry alone. */
  lemma {:induction false} PutEntryOther(d: Disk, L: Layout, c: nat, v: nat, o: nat)
    requires EntrySector(L, c) < |d| && o != c && c < SCAN_LIMIT && o < SCAN_LIMIT
    ensures EntrySector(L, o) < |d| ==> RawEntry(PutEntry(d, L, c, v), L, o) == RawEntry(d, L, o)
    ensures FatEntry(PutEntry(d, L, c, v), L, o) == FatEntry(d, L, o)
  {
    if EntrySector(L, o) == EntrySector(L, c) {
      EntryPlaces(L, c, o);
      var s := EntrySector(L, c);
      var at := EntryOffset(o);
      assert PutEntry(d, L, c, v)[s][at..at + 4] == d[s][at..at + 4];
    }
  }

  /** Taking an entry that was free and freeing it again restores the disk bit for bit. */
  lemma {:induction false} PutEntryUndo(d: Disk, L: Layout, c: nat, v: nat)
    requires EntrySector(L, c) < |d| && FatEntry(d, L, c) == FREE_CLUSTER
    ensures PutEntry(PutEntry(d, L, c, v), L, c, FREE_CLUSTER) == d
  {
    PutEntrySame(d, L, c, v);
    var d1 := PutEntry(d, L, c, v);
    var s, at := EntrySector(L, c), EntryOffset(c);
    var was := d[s][at..at + 4];
    ToLeOfLe(was);
    assert Merged(RawEntry(d1, L, c), FREE_CLUSTER) == RawEntry(d, L, c);
    assert d[s] == d[s][..at] + was + d[s][at + 4..];
    assert PutEntry(d1, L, c, FREE_CLUSTER)[s] == d[s];
  }

  lemma {:induction false} PutEntryElsewhere(d: Disk, L: Layout, c: nat, v: nat)
    requires EntrySector(L, c) < |d|
    ensures forall s :: 0 <= s < |d| && s != EntrySector(L, c) ==> PutEntry(d, L, c, v)[s] == d[s]
  {
  }

  /** On the table as a whole: one number changes. */
  lemma {:induction false} PutEntryFat(d: Disk, L: Layout, c: nat, v: nat)
    requires L.Fits(|d|) && c < L.limit
    requires v < LOW28
    ensures EntrySector(L, c) < |d|
    ensures Fat(PutEntry(d, L, c, v), L) == Fat(d, L)[c := v]
    ensures forall s :: L.dataStart <= s < |d| ==> PutEntry(d, L, c, v)[s] == d[s]
  {
    hide PutEntry, FatEntry, EntryOffset;
    EntryInTable(L, |d|, c);
    PutEntrySame(d, L, c, v);
    PutEntryElsewhere(d, L, c, v);
    var d1 := PutEntry(d, L, c, v);
    forall o | 0 <= o < L.limit && o != c
      ensures FatEntry(d1, L, o) == FatEntry(d, L, o)
    {
      PutEntryOther(d, L, c, v, o);
    }
  }

  /** A table sector the data area does not reach is not changed by a data write. */
  lemma {:induction false} DataWriteFat(d: Disk, L: Layout, s: nat, sec: Sector)
    requires L.Fits(|d|) && L.dataStart <= s < |d|
    ensures Fat(d[s := sec], L) == Fat(d, L)
  {
    forall c | 0 <= c < L.limit
      ensures Fat(d[s := sec], L)[c] == Fat(d, L)[c]
    {
      EntryInTable(L, |d|, c);
    }
  }
}
