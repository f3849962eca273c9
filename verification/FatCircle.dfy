/** A volume on which the listing never ends although its table is acyclic, and fresh volumes, on which it does. */
module FatCircle {
  import opened Bytes
  import opened FatTable
  import opened FatChain
  import opened FatContent
  import opened FatDir
  import opened FatCreate
  import opened FatOpen
  import opened FatListing
  import opened FatTrail

  // ----- an entry that names a number outside the table -----

  /** One cluster, taken by the root, on a device with one more sector behind it. */
  const ROOT_ONLY := Layout(0, 1, 1, 3, 2)

  /** The table word of cluster 2 is an end mark; the word behind the table, which would be that of 3, is 3. */
  function WordSector(): Sector { seq(12, _ => 255) + [3, 0, 0, 0] + Zeros(496) }

  function Stray(): Dirent { NewEntry(seq(11, _ => 65), ATTR_DIRECTORY, 3) }

  function RootSector(): Sector { Stray() + Zeros(480) }

  function OnesSector(): Sector { seq(512, _ => 255) }

  function StrayDisk(): (d: Disk)
    ensures |d| == 3
  {
    [WordSector(), RootSector(), OnesSector()]
  }

  lemma {:induction false} StrayWords()
    ensures FatEntry(StrayDisk(), ROOT_ONLY, 2) == END_OF_CHAIN && FatEntry(StrayDisk(), ROOT_ONLY, 3) == 3
  {
    var s := WordSector();
    assert EntrySector(ROOT_ONLY, 2) == 0 && EntryOffset(2) == 8;
    assert EntrySector(ROOT_ONLY, 3) == 0 && EntryOffset(3) == 12;
    assert s[8..12] == [255, 255, 255, 255];
    assert s[12..16] == [3, 0, 0, 0];
    WordValues();
  }

  lemma {:induction false} WordValues()
    ensures Le([255, 255, 255, 255]) == 0xFFFF_FFFF && Le([3, 0, 0, 0]) == 3
  {
    assert [255, 255, 255, 255][1..] == [255, 255, 255] && [255, 255, 255][1..] == [255, 255];
    assert [255, 255][1..] == [255] && [255][1..] == [];
    assert [3, 0, 0, 0][1..] == [0, 0, 0] && [0, 0, 0][1..] == [0, 0] && [0, 0][1..] == [0] && [0][1..] == [];
  }

  lemma {:induction false} StrayTable()
    ensures ROOT_ONLY.Fits(3) && Acyclic(Fat(StrayDisk(), ROOT_ONLY)) && Closed(Fat(StrayDisk(), ROOT_ONLY))
    ensures IsChain(Fat(StrayDisk(), ROOT_ONLY), [2])
  {
    var fat := Fat(StrayDisk(), ROOT_ONLY);
    StrayWords();
    assert Times(1, 1) == 1 by { TimesIsProduct(1, 1); }
    assert fat[2] == END_OF_CHAIN;
    assert IsWalk(fat, [2]) && [2][0] == 2;
    forall c: nat | 2 <= c < |fat| ensures HasWalk(fat, c) { }
  }

  /** What the listing reads of the one sector of a cluster. */
  lemma {:induction false} OneSector(c: nat)
    requires 2 <= c <= 3
    ensures ClusterRead(StrayDisk(), ROOT_ONLY, c, 0) == (EntriesOf(StrayDisk()[c - 1]), true)
  {
    var d, L := StrayDisk(), ROOT_ONLY;
    assert Address(L, c, 0) == c - 1;
    assert ClusterRead(d, L, c, 1) == ([], true);
    ConcatEmpty(EntriesOf(d[c - 1]));
  }

  /** Cluster 3 has no end mark and follows itself. */
  lemma {:induction false} GoesRound(n: nat)
    ensures GoesOn(StrayDisk(), ROOT_ONLY, 3, n)
  {
    if n > 0 {
      StrayWords();
      OneSector(3);
      var es := EntriesOf(OnesSector());
      assert forall i :: 0 <= i < 16 ==> es[i][0] == 255;
      GoesRound(n - 1);
    }
  }

  lemma {:induction false} RootShows()
    ensures Shown(EntriesOf(RootSector())) == [Stray()] && IsDirectory(Stray()) && ClusterOf(Stray()) == 3
    ensures Marked(EntriesOf(RootSector()))
  {
    hide NewEntry;
    NewEntryFields(seq(11, _ => 65), ATTR_DIRECTORY, 3);
    var s, es := RootSector(), EntriesOf(RootSector());
    assert es[0] == s[0..32] == Stray();
    assert es[1] == s[32..64] && s[32] == 0;
    assert Stray()[0] == NameOf(Stray())[0] == 65;
    assert es[1..][0] == es[1];
    assert Shown(es[1..]) == [];
  }

  lemma {:induction false} RootTrail()
    ensures HasTrail(StrayDisk(), ROOT_ONLY, 2)
    ensures TrailEntries(StrayDisk(), ROOT_ONLY, TrailFrom(StrayDisk(), ROOT_ONLY, 2)) == EntriesOf(RootSector())
  {
    hide EntriesOf, RootSector, FatEntry;
    var d, L := StrayDisk(), ROOT_ONLY;
    RootShows();
    OneSector(2);
    assert StrayDisk()[1] == RootSector();
    assert IsTrail(d, L, [2]) && [2][0] == 2;
    TrailUnique(d, L, [2], TrailFrom(d, L, 2));
    assert [2][1..] == [];
    ConcatEmpty(EntriesOf(RootSector()));
  }

  /**
   The table is acyclic and no link leaves it, yet the listing of the root enters cluster 3 and stays
   in its loop for ever.
   */
  lemma {:induction false} ListingNeverEnds()
    ensures ROOT_ONLY.Fits(3) && Acyclic(Fat(StrayDisk(), ROOT_ONLY)) && Closed(Fat(StrayDisk(), ROOT_ONLY))
    ensures forall n: nat :: GoesOn(StrayDisk(), ROOT_ONLY, 3, n)
    ensures !HasTrail(StrayDisk(), ROOT_ONLY, 3) && !Listable(StrayDisk(), ROOT_ONLY, 2, 0)
  {
    hide Fat, Acyclic, Closed, GoesOn, HasTrail, TrailEntries, StrayDisk, RootSector, Stray, Shown, EntriesOf;
    StrayTable();
    forall n: nat ensures GoesOn(StrayDisk(), ROOT_ONLY, 3, n) { GoesRound(n); }
    TrailExactly(StrayDisk(), ROOT_ONLY, 3);
    RootTrail();
    RootShows();
    var es := [Stray()];
    assert SubsListable(StrayDisk(), ROOT_ONLY, es, 0) ==> Listable(StrayDisk(), ROOT_ONLY, 3, 1);
  }

  // ----- fresh volumes -----

  /** Every table of end marks and free entries is acyclic and closed. */
  lemma {:induction false} FlatTable(fat: seq<nat>)
    requires forall c :: 2 <= c < |fat| ==> Ends(Next(fat[c]))
    ensures Acyclic(fat) && Closed(fat)
  {
    forall c: nat | 2 <= c < |fat|
      ensures HasWalk(fat, c)
    {
      assert IsWalk(fat, [c]) && [c][0] == c;
    }
  }

  /** On a fresh volume of any geometry, on any device, the listing of the root ends and counts nothing. */
  lemma {:induction false} FreshVolumeLists(L: Layout, sectors: nat)
    requires L.Fits(sectors) && L.limit > 2
    ensures EntrySector(L, 2) < sectors
    ensures var d := Formatted(L, sectors);
      && Acyclic(Fat(d, L)) && Closed(Fat(d, L)) && Contained(d, L, 2, 0)
      && Listable(d, L, 2, 0) && Unfold(d, L, 2, 0) == Dir(0, [])
  {
    hide Formatted, Fat, Acyclic, Closed, HasTrail, IsChain, TrailEntries, Directory, Layout.Fits;
    FormattedRoot(L, sectors);
    var d := Formatted(L, sectors);
    FormattedTable(L, sectors);
    ListsDirectory(d, L, [2]);
    EmptyShown(d, L);
    ContainedListable(d, L, 2, 0);
  }

  lemma {:induction false} EmptyShown(d: Disk, L: Layout)
    requires L.Fits(|d|) && IsChain(Fat(d, L), [2])
    requires forall j :: 0 <= j < |Directory(d, L, [2])| ==> Directory(d, L, [2])[j][0] == 0
    ensures L.limit > 2 && Shown(Directory(d, L, [2])) == []
  {
  }

  lemma {:induction false} FormattedTable(L: Layout, sectors: nat)
    requires L.Fits(sectors) && L.limit > 2
    ensures EntrySector(L, 2) < sectors
    ensures var fat := Fat(Formatted(L, sectors), L); Acyclic(fat) && Closed(fat)
  {
    hide FatEntry, PutEntry, Acyclic, Closed;
    EntryInTable(L, sectors, 2);
    var z, d := seq(sectors, _ => ZeroSector()), Formatted(L, sectors);
    PutEntryFat(z, L, 2, END_OF_CHAIN);
    forall c | 2 <= c < L.limit
      ensures Ends(Next(Fat(d, L)[c]))
    {
      EntryInTable(L, sectors, c);
      ZeroEntries(z, L, c);
      FatAt(z, L, c);
    }
    FlatTable(Fat(d, L));
  }
}
