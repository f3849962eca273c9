/**
 Directories as sequences of 32-byte entries: lookup, the first free slot, and what writing one
 entry does to every lookup.
 */
module FatDir {
  import opened Bytes
  import opened FatTable
  import opened FatChain
  import opened FatContent
  import opened FatVolume
  import opened FatFile

  const ENTRY_SIZE := 32
  const DELETED := 0xE5
  const ATTR_DIRECTORY := 0x10
  const ATTR_ARCHIVE := 0x20
  const ATTR_LFN := 0x0F

  type Dirent = e: seq<byte> | |e| == 32 witness seq(32, _ => 0)

  type Name = n: seq<byte> | |n| == 11 witness seq(11, _ => 32)

  function NameOf(e: Dirent): Name { e[..11] }

  function Attr(e: Dirent): byte { e[11] }

  function ClusterOf(e: Dirent): nat { Le(e[26..28]) + 0x1_0000 * Le(e[20..22]) }

  function SizeOf(e: Dirent): nat { Le(e[28..32]) }

  predicate IsDirectory(e: Dirent) { Attr(e) / 16 % 2 == 1 }

  /** The entries that the bytes of a directory hold. */
  function DirOf(c: seq<byte>): (dir: seq<Dirent>)
    ensures |dir| == |c| / 32
    ensures forall i :: 0 <= i < |dir| ==> dir[i] == c[32 * i..32 * i + 32]
  {
    seq(|c| / 32, i requires 0 <= i < |c| / 32 => c[32 * i..32 * i + 32])
  }

  // ----- scans -----

  /** What a scan does at an entry: end without result, pass on, or take this entry. */
  datatype Verdict = Stop | Pass | Take

  function ScanFrom(dir: seq<Dirent>, probe: Dirent -> Verdict, i: nat): (r: Option<nat>)
    ensures r.Some? ==> i <= r.value < |dir| && probe(dir[r.value]) == Take
    ensures r.Some? ==> forall j :: i <= j < r.value ==> probe(dir[j]) == Pass
    ensures r.None? ==> forall j :: i <= j < |dir| && probe(dir[j]) == Take ==>
                          exists k :: i <= k < j && probe(dir[k]) == Stop
    decreases |dir| - i
  {
    if i >= |dir| then None
    else match probe(dir[i]) {
      case Stop => None
      case Take => Some(i)
      case Pass => ScanFrom(dir, probe, i + 1)
    }
  }

  predicate Dead(e: Dirent) { e[0] == DELETED || Attr(e) == ATTR_LFN }

  function FindProbe(name: Name): Dirent -> Verdict
  {
    (e: Dirent) => if e[0] == 0 then Stop else if Dead(e) then Pass else if NameOf(e) == name then Take else Pass
  }

  function FreeProbe(): Dirent -> Verdict
  {
    (e: Dirent) => if e[0] == 0 || e[0] == DELETED then Take else Pass
  }

  function Lookup(dir: seq<Dirent>, name: Name): Option<nat> { ScanFrom(dir, FindProbe(name), 0) }

  function FreeSlot(dir: seq<Dirent>): Option<nat> { ScanFrom(dir, FreeProbe(), 0) }

  // ----- inserting an entry -----

  /** From `i` on, up to the next end mark, every live entry has this name or one found already. */
  predicate NothingNewFrom(dir: seq<Dirent>, i: nat, name: Name)
    decreases |dir| - i
  {
    if i >= |dir| || dir[i][0] == 0 then true
    else
      && (Dead(dir[i]) || NameOf(dir[i]) == name || Lookup(dir, NameOf(dir[i])) != None)
      && NothingNewFrom(dir, i + 1, name)
  }

  /** No entry that was forgotten behind the end mark comes back into view with slot `i`. */
  predicate NothingBack(dir: seq<Dirent>, i: nat, name: Name)
    requires i < |dir|
  {
    dir[i][0] == DELETED || NothingNewFrom(dir, i + 1, name)
  }

  lemma {:induction false} NothingNewMeans(dir: seq<Dirent>, i: nat, name: Name)
    ensures NothingNewFrom(dir, i, name) <==>
      forall nm: Name :: nm != name && Lookup(dir, nm) == None ==> ScanFrom(dir, FindProbe(nm), i) == None
    decreases |dir| - i
  {
    if i < |dir| && dir[i][0] != 0 {
      NothingNewMeans(dir, i + 1, name);
      var own := NameOf(dir[i]);
      if !Dead(dir[i]) && own != name && Lookup(dir, own) == None {
        assert ScanFrom(dir, FindProbe(own), i) == Some(i);
      } else {
        forall nm: Name | nm != name && Lookup(dir, nm) == None
          ensures ScanFrom(dir, FindProbe(nm), i) == ScanFrom(dir, FindProbe(nm), i + 1)
        {
        }
      }
    }
  }

  /** A scan that starts behind the changed slot does not see it. */
  lemma {:induction false} ScanBehind(dir: seq<Dirent>, probe: Dirent -> Verdict, i: nat, e: Dirent, j: nat)
    requires i < j && i < |dir|
    ensures ScanFrom(dir[i := e], probe, j) == ScanFrom(dir, probe, j)
    decreases |dir| - j
  {
    if j < |dir| {
      ScanBehind(dir, probe, i, e, j + 1);
    }
  }

  /** A scan that has passed everything before `i` starts at `i`. */
  lemma {:induction false} ScanSkips(dir: seq<Dirent>, probe: Dirent -> Verdict, j: nat, i: nat)
    requires j <= i <= |dir|
    requires forall k :: j <= k < i ==> probe(dir[k]) == Pass
    ensures ScanFrom(dir, probe, j) == ScanFrom(dir, probe, i)
    decreases i - j
  {
    if j < i {
      ScanSkips(dir, probe, j + 1, i);
    }
  }

  /** A hit in front of the changed slot stays. */
  lemma {:induction false} ScanHitsBefore(dir: seq<Dirent>, probe: Dirent -> Verdict, i: nat, e: Dirent, j: nat, h: nat)
    requires j <= h < i < |dir| && ScanFrom(dir, probe, j) == Some(h)
    ensures ScanFrom(dir[i := e], probe, j) == Some(h)
    decreases h - j
  {
    if j < h {
      assert probe(dir[j]) == Pass;
      ScanHitsBefore(dir, probe, i, e, j + 1, h);
    }
  }

  /** In front of the first free slot a lookup hits or passes, it never stops. */
  lemma {:induction false} BeforeFreeSlot(dir: seq<Dirent>, i: nat, name: Name)
    requires FreeSlot(dir) == Some(i)
    requires forall h :: 0 <= h < i ==> Lookup(dir, name) != Some(h)
    ensures forall k :: 0 <= k < i ==> FindProbe(name)(dir[k]) == Pass
  {
    forall k | 0 <= k < i
      ensures FindProbe(name)(dir[k]) == Pass
    {
      FirstTake(dir, i, name, k);
    }
  }

  lemma {:induction false} FirstTake(dir: seq<Dirent>, i: nat, name: Name, k: nat)
    requires FreeSlot(dir) == Some(i) && k < i
    requires forall h :: 0 <= h < i ==> Lookup(dir, name) != Some(h)
    ensures FindProbe(name)(dir[k]) == Pass
  {
    forall l | 0 <= l < k
      ensures FindProbe(name)(dir[l]) == Pass
    {
      FirstTake(dir, i, name, l);
    }
    assert FreeProbe()(dir[k]) == Pass;
    if FindProbe(name)(dir[k]) == Take {
      ScanSkips(dir, FindProbe(name), 0, k);
    }
  }

  lemma {:induction false} InsertOther(dir: seq<Dirent>, i: nat, e: Dirent, nm: Name)
    requires FreeSlot(dir) == Some(i)
    requires e[0] != 0 && nm != NameOf(e)
    ensures Lookup(dir[i := e], nm) == Lookup(dir, nm) <==>
      dir[i][0] == DELETED || Lookup(dir, nm) != None || ScanFrom(dir, FindProbe(nm), i + 1) == None
  {
    var probe, r := FindProbe(nm), Lookup(dir, nm);
    if r.Some? && r.value < i {
      ScanHitsBefore(dir, probe, i, e, 0, r.value);
    } else {
      BeforeFreeSlot(dir, i, nm);
      ScanSkips(dir, probe, 0, i);
      assert forall k :: 0 <= k < i ==> dir[i := e][k] == dir[k];
      ScanSkips(dir[i := e], probe, 0, i);
      ScanBehind(dir, probe, i, e, i + 1);
      assert FreeProbe()(dir[i]) == Take;
    }
  }

  /**
   The new entry is found in its slot by its own name, provided the name does not start with the
   byte that marks a deleted entry; in that case it stays invisible.
   */
  lemma {:induction false} InsertedIsFound(dir: seq<Dirent>, i: nat, e: Dirent)
    requires FreeSlot(dir) == Some(i)
    requires Lookup(dir, NameOf(e)) == None
    requires e[0] != 0 && Attr(e) != ATTR_LFN
    ensures Lookup(dir[i := e], NameOf(e)) == Some(i) <==> e[0] != DELETED
  {
    var probe := FindProbe(NameOf(e));
    BeforeFreeSlot(dir, i, NameOf(e));
    assert forall k :: 0 <= k < i ==> dir[i := e][k] == dir[k];
    ScanSkips(dir[i := e], probe, 0, i);
  }

  /**
   Every other name is looked up as before exactly when the slot was that of a deleted entry, or
   no new name comes to light between the old end mark and the next one.
   */
  lemma {:induction false} InsertKeepsOthers(dir: seq<Dirent>, i: nat, e: Dirent)
    requires FreeSlot(dir) == Some(i) && e[0] != 0
    ensures (forall nm: Name :: nm != NameOf(e) ==> Lookup(dir[i := e], nm) == Lookup(dir, nm))
      <==> NothingBack(dir, i, NameOf(e))
  {
    NothingNewMeans(dir, i + 1, NameOf(e));
    forall nm: Name | nm != NameOf(e)
      ensures Lookup(dir[i := e], nm) == Lookup(dir, nm) <==>
        dir[i][0] == DELETED || Lookup(dir, nm) != None || ScanFrom(dir, FindProbe(nm), i + 1) == None
    {
      InsertOther(dir, i, e, nm);
    }
  }

  // ----- the scan on the device -----

  function Directory(d: Disk, L: Layout, ch: seq<nat>): (dir: seq<Dirent>)
    requires L.Fits(|d|) && Within(L, ch)
    ensures |dir| == SectorCount(L, |ch|) * 16
  {
    DirOf(Content(d, L, ch))
  }

  /** The slot index of entry `ent` of sector `s` of the `k`-th cluster. */
  function SlotIndex(L: Layout, k: nat, s: nat, ent: nat): nat { (SectorCount(L, k) + s) * 16 + ent }

  lemma {:induction false} SlotAt(d: Disk, L: Layout, ch: seq<nat>, k: nat, s: nat, ent: nat)
    requires L.Fits(|d|) && Within(L, ch) && k < |ch| && s < L.spc && ent < 16
    ensures SlotIndex(L, k, s, ent) < SectorCount(L, |ch|) * 16
    ensures L.dataStart <= SectorNo(L, ch[k], s) < |d|
    ensures Directory(d, L, ch)[SlotIndex(L, k, s, ent)] == d[SectorNo(L, ch[k], s)][32 * ent..32 * ent + 32]
  {
    hide Content, SectorNo;
    TimesMono(k, |ch|, L.spc);
    SectorSlice(d, L, ch, k, s * 512 + ent * 32, 32);
    assert (s * 512 + ent * 32) / 512 == s;
    assert (s * 512 + ent * 32) % 512 == 32 * ent;
    assert Position(L, k, s * 512 + ent * 32) == 32 * SlotIndex(L, k, s, ent);
  }

  /** The sixteen entries of one sector, which are those of the directory from `base` on. */
  method ScanSector(buf: Sector, probe: Dirent -> Verdict, ghost dir: seq<Dirent>, ghost base: nat)
    returns (v: Verdict, ent: nat)
    requires base + 16 <= |dir|
    requires forall j :: 0 <= j < 16 ==> dir[base + j] == buf[32 * j..32 * j + 32]
    ensures v == Take ==> ent < 16 && ScanFrom(dir, probe, base) == Some(base + ent)
    ensures v == Stop ==> ScanFrom(dir, probe, base) == None
    ensures v == Pass ==> ScanFrom(dir, probe, base) == ScanFrom(dir, probe, base + 16)
  {
    ent := 0;
    while ent < 16
      invariant 0 <= ent <= 16
      invariant ScanFrom(dir, probe, base) == ScanFrom(dir, probe, base + ent)
    {
      v := probe(buf[ent * ENTRY_SIZE..ent * ENTRY_SIZE + ENTRY_SIZE]);
      assert dir[base + ent] == buf[32 * ent..32 * ent + 32];
      if v != Pass {
        return;
      }
      ent := ent + 1;
    }
    v := Pass;
  }

  /** All sectors of the `k`-th cluster of the directory. */
  method ScanCluster(fs: FatFs, cluster: nat, probe: Dirent -> Verdict, ghost ch: seq<nat>, ghost k: nat)
    returns (v: Verdict, sector: nat, ent: nat)
    requires fs.L.Fits(|fs.disk|) && Within(fs.L, ch) && k < |ch| && cluster == ch[k]
    ensures var dir, base, first := Directory(fs.disk, fs.L, ch), SlotIndex(fs.L, k, 0, 0), SectorNo(fs.L, cluster, 0);
      && (v == Take ==> ent < 16 && first <= sector < first + fs.L.spc
                        && ScanFrom(dir, probe, base) == Some(SlotIndex(fs.L, k, sector - first, ent)))
      && (v == Stop ==> ScanFrom(dir, probe, base) == None)
      && (v == Pass ==> ScanFrom(dir, probe, base) == ScanFrom(dir, probe, SlotIndex(fs.L, k + 1, 0, 0)))
  {
    hide Directory, ScanFrom, SectorNo, SlotIndex, Content, Capacity;
    SlotsOfCluster(fs.L, k);
    FirstSector(fs.L, cluster);
    var firstSector := fs.L.dataStart + (cluster - 2) * fs.L.spc;
    ghost var dir := Directory(fs.disk, fs.L, ch);
    var sec := 0;
    v, ent, sector := Pass, 0, 0;
    while sec < fs.L.spc
      invariant 0 <= sec <= fs.L.spc
      invariant ScanFrom(dir, probe, SlotIndex(fs.L, k, 0, 0)) == ScanFrom(dir, probe, SlotIndex(fs.L, k, sec, 0))
    {
      SectorEntries(fs.disk, fs.L, ch, k, sec);
      SlotsOfSector(fs.L, k, sec);
      v, ent := ScanSector(fs.disk[firstSector + sec], probe, dir, SlotIndex(fs.L, k, sec, 0));
      if v != Pass {
        sector := firstSector + sec;
        return;
      }
      sec := sec + 1;
    }
    v := Pass;
  }

  lemma {:induction false} FirstSector(L: Layout, c: nat)
    requires c >= 2
    ensures forall s: nat :: SectorNo(L, c, s) == L.dataStart + (c - 2) * L.spc + s
  {
    TimesIsProduct(c - 2, L.spc);
  }

  lemma {:induction false} SlotsOfSector(L: Layout, k: nat, s: nat)
    ensures SlotIndex(L, k, s, 0) + 16 == SlotIndex(L, k, s + 1, 0)
    ensures forall ent: nat :: SlotIndex(L, k, s, ent) == SlotIndex(L, k, s, 0) + ent
  {
  }

  lemma {:induction false} SlotsOfCluster(L: Layout, k: nat)
    ensures SlotIndex(L, k, L.spc, 0) == SlotIndex(L, k + 1, 0, 0)
  {
  }

  lemma {:induction false} SectorEntries(d: Disk, L: Layout, ch: seq<nat>, k: nat, s: nat)
    requires L.Fits(|d|) && Within(L, ch) && k < |ch| && s < L.spc
    ensures SlotIndex(L, k, s, 0) + 16 <= |Directory(d, L, ch)|
    ensures L.dataStart <= SectorNo(L, ch[k], s) < |d|
    ensures forall j :: 0 <= j < 16 ==>
      Directory(d, L, ch)[SlotIndex(L, k, s, 0) + j] == d[SectorNo(L, ch[k], s)][32 * j..32 * j + 32]
  {
    SlotAt(d, L, ch, k, s, 15);
    forall j | 0 <= j < 16
      ensures Directory(d, L, ch)[SlotIndex(L, k, s, 0) + j] == d[SectorNo(L, ch[k], s)][32 * j..32 * j + 32]
    {
      SlotAt(d, L, ch, k, s, j);
    }
  }

  lemma {:induction false} ScanOver(dir: seq<Dirent>, probe: Dirent -> Verdict)
    ensures ScanFrom(dir, probe, |dir|) == None
  {
  }

  /** Slot numbers count the entries of the chain's sectors. */
  lemma {:induction false} SlotSector(L: Layout, ch: seq<nat>, k: nat, s: nat, ent: nat)
    requires Within(L, ch) && k < |ch| && s < L.spc && ent < 16
    ensures var slot := SlotIndex(L, k, s, ent);
      && slot < SectorCount(L, |ch|) * 16 && slot / 16 < SectorCount(L, |ch|)
      && FileSector(L, ch, slot / 16) == SectorNo(L, ch[k], 0) + s && slot % 16 == ent
  {
    TimesMono(k, |ch|, L.spc);
    QuotRemOf(k, s, L.spc);
  }

  /** Which cluster and which of its sectors a slot lies in. */
  lemma {:induction false} SlotPlace(L: Layout, ch: seq<nat>, slot: nat) returns (k: nat, s: nat)
    requires L.spc > 0 && Within(L, ch) && slot < SectorCount(L, |ch|) * 16
    ensures k < |ch| && s < L.spc && slot == SlotIndex(L, k, s, slot % 16)
    ensures FileSector(L, ch, slot / 16) == SectorNo(L, ch[k], s)
  {
    k, s := Quot(slot / 16, L.spc), Rem(slot / 16, L.spc);
    QuotBound(slot / 16, |ch|, L.spc);
    QuotRem(slot / 16, L.spc);
  }

  /** The whole chain: the scan of the directory as one sequence of entries, and where its hit lies. */
  method ScanDirectory(fs: FatFs, dirCluster: nat, probe: Dirent -> Verdict, ghost ch: seq<nat>)
    returns (found: bool, sector: nat, ent: nat)
    requires fs.L.Fits(|fs.disk|) && IsChain(Fat(fs.disk, fs.L), ch) && dirCluster == ch[0]
    ensures var r := ScanFrom(Directory(fs.disk, fs.L, ch), probe, 0);
      && found == r.Some?
      && (found ==> sector == FileSector(fs.L, ch, r.value / 16) && ent == r.value % 16)
  {
    hide Directory, ScanFrom, SectorNo, Content, Capacity, FileSector, Fat, IsChain, SlotIndex, Next, SectorCount,
      Layout.Fits;
    ChainInside(fs.disk, fs.L, ch);
    ChainSlots(fs.disk, fs.L, ch);
    ghost var dir := Directory(fs.disk, fs.L, ch);
    ScanOver(dir, probe);
    var current := dirCluster;
    ghost var k := 0;
    sector, ent := 0, 0;
    while current != NO_CLUSTER
      invariant k <= |ch|
      invariant current == if k < |ch| then ch[k] else NO_CLUSTER
      invariant ScanFrom(dir, probe, 0) == ScanFrom(dir, probe, SlotIndex(fs.L, k, 0, 0))
      decreases |ch| - k
    {
      var v;
      v, sector, ent := ScanCluster(fs, current, probe, ch, k);
      if v == Stop { return false, sector, ent; }
      if v == Take {
        SlotSector(fs.L, ch, k, sector - SectorNo(fs.L, ch[k], 0), ent);
        return true, sector, ent;
      }
      ChainNext(fs.disk, fs.L, ch, k);
      current := fs.NextCluster(current);
      k := k + 1;
    }
    found := false;
  }

  lemma {:induction false} ChainSlots(d: Disk, L: Layout, ch: seq<nat>)
    requires L.Fits(|d|) && IsChain(Fat(d, L), ch)
    ensures |ch| > 0 && SlotIndex(L, 0, 0, 0) == 0 && SlotIndex(L, |ch|, 0, 0) == |Directory(d, L, ch)|
    ensures forall i :: 0 <= i < |ch| ==> ch[i] != NO_CLUSTER
  {
  }

  lemma {:induction false} SpcPositive(L: Layout, sectors: nat)
    requires L.Fits(sectors)
    ensures L.spc > 0
  {
  }

  /** `fat32_find`: the entry a lookup by short name finds. */
  method FindEntry(fs: FatFs, cluster: nat, name: Name, ghost ch: seq<nat>) returns (found: bool, e: Dirent)
    requires fs.L.Fits(|fs.disk|) && IsChain(Fat(fs.disk, fs.L), ch) && cluster == ch[0]
    ensures var dir := Directory(fs.disk, fs.L, ch);
      var r := Lookup(dir, name);
      found == r.Some? && (found ==> e == dir[r.value])
  {
    hide IsChain, Fat, Directory, SectorNo, SlotIndex, Layout.Fits;
    ChainInside(fs.disk, fs.L, ch);
    var sector, ent;
    found, sector, ent := ScanDirectory(fs, cluster, FindProbe(name), ch);
    e := seq(32, _ => 0);
    if found {
      SpcPositive(fs.L, |fs.disk|);
      ghost var k, s := SlotPlace(fs.L, ch, Lookup(Directory(fs.disk, fs.L, ch), name).value);
      SlotAt(fs.disk, fs.L, ch, k, s, ent);
      e := fs.disk[sector][ent * ENTRY_SIZE..ent * ENTRY_SIZE + ENTRY_SIZE];
    }
  }
}
