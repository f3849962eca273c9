/** The recursive listing: it ends wherever the walks it follows end, and counts the directory tree. */
module FatListing {
  import opened Bytes
  import opened FatTable
  import opened FatChain
  import opened FatContent
  import opened FatVolume
  import opened FatDir
  import opened ShortName

  const MAX_DEPTH := 10

  /** The listing stops at an end mark and at the reserved cluster numbers. */
  predicate Ends(c: nat) { c == NO_CLUSTER || c < 2 }

  // ----- what the listing reads from a cluster number, on the volume or off it -----

  function EntriesOf(buf: Sector): (es: seq<Dirent>)
    ensures |es| == 16
  {
    seq(16, j requires 0 <= j < 16 => buf[32 * j..32 * j + 32])
  }

  /** The entries from sector `s` of cluster `c` on, up to a sector that cannot be read, and whether there was none. */
  function ClusterRead(d: Disk, L: Layout, c: nat, s: nat): (seq<Dirent>, bool)
    decreases L.spc - s
  {
    if s >= L.spc then ([], true)
    else if Address(L, c, s) >= |d| then ([], false)
    else
      var r := ClusterRead(d, L, c, s + 1);
      (EntriesOf(d[Address(L, c, s)]) + r.0, r.1)
  }

  /** An entry that marks the end. */
  ghost predicate Marked(es: seq<Dirent>) { exists i :: 0 <= i < |es| && es[i][0] == 0 }

  /** The listing of a directory ends in this cluster, whatever the table says. */
  ghost predicate Stops(d: Disk, L: Layout, c: nat)
  {
    var r := ClusterRead(d, L, c, 0);
    !r.1 || Marked(r.0)
  }

  function After(d: Disk, L: Layout, c: nat): nat { Next(FatEntry(d, L, c)) }

  /** The clusters the listing of one directory visits, from the first to the one it ends in. */
  ghost predicate IsTrail(d: Disk, L: Layout, tr: seq<nat>)
  {
    && tr != []
    && (forall i :: 0 <= i < |tr| ==> !Ends(tr[i]))
    && (forall i :: 0 <= i < |tr| - 1 ==> tr[i + 1] == After(d, L, tr[i]) && !Stops(d, L, tr[i]))
    && (Stops(d, L, tr[|tr| - 1]) || Ends(After(d, L, tr[|tr| - 1])))
  }

  ghost predicate HasTrail(d: Disk, L: Layout, c: nat) { exists tr :: IsTrail(d, L, tr) && tr[0] == c }

  ghost function TrailFrom(d: Disk, L: Layout, c: nat): (tr: seq<nat>)
    requires HasTrail(d, L, c)
    ensures IsTrail(d, L, tr) && tr[0] == c
  {
    var tr :| IsTrail(d, L, tr) && tr[0] == c; tr
  }

  /** All entries along a trail. */
  function TrailEntries(d: Disk, L: Layout, tr: seq<nat>): seq<Dirent>
  {
    if tr == [] then [] else ClusterRead(d, L, tr[0], 0).0 + TrailEntries(d, L, tr[1..])
  }

  // ----- the tree -----

  /** A directory: how many files it shows, and its subdirectories. */
  datatype DirTree = Dir(files: nat, subs: seq<DirTree>)

  predicate Hidden(e: Dirent)
  {
    e[0] == DELETED || Attr(e) == ATTR_LFN || Attr(e) / 8 % 2 == 1 || e[0] == DOT
  }

  /** The entries a listing shows, up to the end mark. */
  function Shown(es: seq<Dirent>): seq<Dirent>
  {
    if es == [] || es[0][0] == 0 then []
    else (if Hidden(es[0]) then [] else [es[0]]) + Shown(es[1..])
  }

  function FilesIn(es: seq<Dirent>): nat
  {
    if es == [] then 0 else (if IsDirectory(es[0]) then 0 else 1) + FilesIn(es[1..])
  }

  /**
   The walk of every directory the listing enters from `c` at this depth ends. Nothing is asked of
   clusters it does not enter, nor of where entries point.
   */
  ghost predicate Listable(d: Disk, L: Layout, c: nat, depth: nat)
    decreases MAX_DEPTH + 1 - depth, 1, 0
  {
    depth <= MAX_DEPTH && !Ends(c) ==>
      HasTrail(d, L, c) && SubsListable(d, L, Shown(TrailEntries(d, L, TrailFrom(d, L, c))), depth)
  }

  ghost predicate SubsListable(d: Disk, L: Layout, es: seq<Dirent>, depth: nat)
    requires depth <= MAX_DEPTH
    decreases MAX_DEPTH + 1 - depth, 0, |es|
  {
    es != [] ==>
    && (IsDirectory(es[0]) ==> Listable(d, L, ClusterOf(es[0]), depth + 1))
    && SubsListable(d, L, es[1..], depth)
  }

  /** The tree below cluster `c`, cut off below the depth limit. */
  ghost function Unfold(d: Disk, L: Layout, c: nat, depth: nat): DirTree
    requires Listable(d, L, c, depth)
    decreases MAX_DEPTH + 1 - depth, 1, 0
  {
    if depth > MAX_DEPTH || Ends(c) then Dir(0, [])
    else
      var es := Shown(TrailEntries(d, L, TrailFrom(d, L, c)));
      Dir(FilesIn(es), Subs(d, L, es, depth))
  }

  ghost function Subs(d: Disk, L: Layout, es: seq<Dirent>, depth: nat): seq<DirTree>
    requires depth <= MAX_DEPTH && SubsListable(d, L, es, depth)
    decreases MAX_DEPTH + 1 - depth, 0, |es|
  {
    if es == [] then []
    else (if IsDirectory(es[0]) then [Unfold(d, L, ClusterOf(es[0]), depth + 1)] else []) + Subs(d, L, es[1..], depth)
  }

  function FileTotal(t: DirTree): nat { t.files + FileTotalAll(t.subs) }

  function FileTotalAll(ts: seq<DirTree>): nat
  {
    if ts == [] then 0 else FileTotal(ts[0]) + FileTotalAll(ts[1..])
  }

  function DirTotal(t: DirTree): nat { |t.subs| + DirTotalAll(t.subs) }

  function DirTotalAll(ts: seq<DirTree>): nat
  {
    if ts == [] then 0 else DirTotal(ts[0]) + DirTotalAll(ts[1..])
  }

  // ----- what is left to count -----

  ghost function FilesLeft(d: Disk, L: Layout, es: seq<Dirent>, depth: nat): nat
    requires depth <= MAX_DEPTH && SubsListable(d, L, Shown(es), depth)
  {
    FilesIn(Shown(es)) + FileTotalAll(Subs(d, L, Shown(es), depth))
  }

  ghost function DirsLeft(d: Disk, L: Layout, es: seq<Dirent>, depth: nat): nat
    requires depth <= MAX_DEPTH && SubsListable(d, L, Shown(es), depth)
  {
    var subs := Subs(d, L, Shown(es), depth);
    |subs| + DirTotalAll(subs)
  }

  /** One entry: a file counts one; a directory counts one and all that is in its own tree. */
  lemma {:induction false} LeftStep(d: Disk, L: Layout, es: seq<Dirent>, depth: nat)
    requires depth <= MAX_DEPTH && SubsListable(d, L, Shown(es), depth) && es != [] && es[0][0] != 0
    ensures SubsListable(d, L, Shown(es[1..]), depth)
    ensures Hidden(es[0]) ==>
      && FilesLeft(d, L, es, depth) == FilesLeft(d, L, es[1..], depth)
      && DirsLeft(d, L, es, depth) == DirsLeft(d, L, es[1..], depth)
    ensures !Hidden(es[0]) && !IsDirectory(es[0]) ==>
      && FilesLeft(d, L, es, depth) == 1 + FilesLeft(d, L, es[1..], depth)
      && DirsLeft(d, L, es, depth) == DirsLeft(d, L, es[1..], depth)
    ensures !Hidden(es[0]) && IsDirectory(es[0]) ==>
      && Listable(d, L, ClusterOf(es[0]), depth + 1)
      && var t := Unfold(d, L, ClusterOf(es[0]), depth + 1);
         && FilesLeft(d, L, es, depth) == FileTotal(t) + FilesLeft(d, L, es[1..], depth)
         && DirsLeft(d, L, es, depth) == 1 + DirTotal(t) + DirsLeft(d, L, es[1..], depth)
  {
    hide Unfold, FileTotal, DirTotal, Listable;
    var rest, all := Shown(es[1..]), Shown(es);
    if Hidden(es[0]) {
      assert all == rest;
    } else {
      assert all[0] == es[0] && all[1..] == rest;
      var subs, less := Subs(d, L, all, depth), Subs(d, L, rest, depth);
      if IsDirectory(es[0]) {
        assert subs[0] == Unfold(d, L, ClusterOf(es[0]), depth + 1) && subs[1..] == less;
      } else {
        assert subs == less;
      }
    }
  }

  /** From `es` still to come to `es'` still to come the counters have grown by what lies between. */
  ghost predicate Counted(
    d: Disk, L: Layout, depth: nat, es: seq<Dirent>, files: nat, dirs: nat, es': seq<Dirent>, files': nat, dirs': nat)
  {
    && depth <= MAX_DEPTH && SubsListable(d, L, Shown(es), depth) && SubsListable(d, L, Shown(es'), depth)
    && files' + FilesLeft(d, L, es', depth) == files + FilesLeft(d, L, es, depth)
    && dirs' + DirsLeft(d, L, es', depth) == dirs + DirsLeft(d, L, es, depth)
  }

  lemma {:induction false} CountedTrans(
    d: Disk, L: Layout, depth: nat, a: seq<Dirent>, f: nat, g: nat, b: seq<Dirent>, f': nat, g': nat, c: seq<Dirent>,
    f'': nat, g'': nat)
    requires Counted(d, L, depth, a, f, g, b, f', g') && Counted(d, L, depth, b, f', g', c, f'', g'')
    ensures Counted(d, L, depth, a, f, g, c, f'', g'')
  {
  }

  lemma {:induction false} CountedNothing(d: Disk, L: Layout, depth: nat, es: seq<Dirent>, f: nat, g: nat)
    requires depth <= MAX_DEPTH && SubsListable(d, L, Shown(es), depth)
    ensures Counted(d, L, depth, es, f, g, es, f, g)
  {
  }

  /** At an end mark nothing is left. */
  lemma {:induction false} CountedEnd(d: Disk, L: Layout, depth: nat, es: seq<Dirent>, f: nat, g: nat)
    requires depth <= MAX_DEPTH && (es == [] || es[0][0] == 0)
    ensures Counted(d, L, depth, es, f, g, [], f, g)
    ensures SubsListable(d, L, Shown(es), depth)
  {
  }

  /** One entry passed, with what it added. */
  lemma {:induction false} CountedOne(d: Disk, L: Layout, depth: nat, es: seq<Dirent>, f: nat, g: nat)
    requires depth <= MAX_DEPTH && SubsListable(d, L, Shown(es), depth) && es != [] && es[0][0] != 0
    ensures Hidden(es[0]) ==> Counted(d, L, depth, es, f, g, es[1..], f, g)
    ensures !Hidden(es[0]) && !IsDirectory(es[0]) ==> Counted(d, L, depth, es, f, g, es[1..], f + 1, g)
    ensures !Hidden(es[0]) && IsDirectory(es[0]) ==>
      && Listable(d, L, ClusterOf(es[0]), depth + 1)
      && var t := Unfold(d, L, ClusterOf(es[0]), depth + 1);
         Counted(d, L, depth, es, f, g, es[1..], f + FileTotal(t), g + 1 + DirTotal(t))
  {
    hide Unfold, FileTotal, DirTotal, Listable, SubsListable, Shown, FilesLeft, DirsLeft;
    LeftStep(d, L, es, depth);
  }

  // ----- the listing itself -----

  /** The sixteen entries of a sector in front of `rest`; after the end mark nothing is left to count. */
  method ListSector(fs: FatFs, buf: Sector, depth: nat, files: nat, dirs: nat, ghost rest: seq<Dirent>)
    returns (stop: bool, files': nat, dirs': nat)
    requires depth <= MAX_DEPTH && SubsListable(fs.disk, fs.L, Shown(EntriesOf(buf) + rest), depth)
    ensures Counted(fs.disk, fs.L, depth, EntriesOf(buf) + rest, files, dirs, if stop then [] else rest, files', dirs')
    ensures stop <==> Marked(EntriesOf(buf))
    decreases MAX_DEPTH + 1 - depth, 0
  {
    hide Counted, Shown, SubsListable, Listable, Unfold, FileTotal, DirTotal, EntriesOf;
    ghost var es, d := EntriesOf(buf) + rest, fs.disk;
    CountedNothing(d, fs.L, depth, es, files, dirs);
    files', dirs' := files, dirs;
    var ent := 0;
    while ent < 16
      invariant 0 <= ent <= 16
      invariant Counted(d, fs.L, depth, es, files, dirs, es[ent..], files', dirs')
      invariant forall i :: 0 <= i < ent ==> EntriesOf(buf)[i][0] != 0
    {
      var de := buf[ent * 32..ent * 32 + 32];
      ghost var left, f, g := es[ent..], files', dirs';
      EntryAt(buf, rest, ent);
      CountedLeft(d, fs.L, depth, es, files, dirs, left, f, g);
      if de[0] == 0 {
        CountedEnd(d, fs.L, depth, left, f, g);
        CountedTrans(d, fs.L, depth, es, files, dirs, left, f, g, [], f, g);
        return true, files', dirs';
      }
      CountedOne(d, fs.L, depth, left, f, g);
      if !Hidden(de) {
        if IsDirectory(de) {
          dirs' := dirs' + 1;
          files', dirs' := ListDir(fs, ClusterOf(de), depth + 1, files', dirs');
        } else {
          files' := files' + 1;
        }
      }
      CountedTrans(d, fs.L, depth, es, files, dirs, left, f, g, left[1..], files', dirs');
      ent := ent + 1;
    }
    assert es[16..] == rest;
    stop := false;
  }

  lemma {:induction false} EntryAt(buf: Sector, rest: seq<Dirent>, ent: nat)
    requires ent < 16
    ensures var left := (EntriesOf(buf) + rest)[ent..];
      && left != [] && left[0] == buf[ent * 32..ent * 32 + 32] == EntriesOf(buf)[ent]
      && left[1..] == (EntriesOf(buf) + rest)[ent + 1..]
  {
    assert 32 * ent == ent * 32;
  }

  lemma {:induction false} CountedLeft(
    d: Disk, L: Layout, depth: nat, es: seq<Dirent>, f: nat, g: nat, left: seq<Dirent>, f': nat, g': nat)
    requires Counted(d, L, depth, es, f, g, left, f', g')
    ensures SubsListable(d, L, Shown(left), depth)
  {
  }

  /** All sectors of a cluster, in front of `rest`; a sector that cannot be read ends the directory. */
  method ListCluster(fs: FatFs, cluster: nat, depth: nat, files: nat, dirs: nat, ghost rest: seq<Dirent>)
    returns (stop: bool, files': nat, dirs': nat)
    requires depth <= MAX_DEPTH && (Stops(fs.disk, fs.L, cluster) ==> rest == [])
    requires SubsListable(fs.disk, fs.L, Shown(ClusterRead(fs.disk, fs.L, cluster, 0).0 + rest), depth)
    ensures Counted(fs.disk, fs.L, depth, ClusterRead(fs.disk, fs.L, cluster, 0).0 + rest, files, dirs, rest,
      files', dirs')
    ensures stop <==> Stops(fs.disk, fs.L, cluster)
    decreases MAX_DEPTH + 1 - depth, 1
  {
    hide Counted, Shown, SubsListable, EntriesOf, Address, ClusterRead, Marked;
    ghost var d, L := fs.disk, fs.L;
    ghost var all := ClusterRead(d, L, cluster, 0);
    files', dirs' := files, dirs;
    CountedNothing(d, L, depth, all.0 + rest, files, dirs);
    var sec := 0;
    while sec < fs.L.spc
      invariant 0 <= sec <= fs.L.spc
      invariant var here := ClusterRead(d, L, cluster, sec);
        && Counted(d, L, depth, all.0 + rest, files, dirs, here.0 + rest, files', dirs')
        && all.1 == here.1 && (Marked(all.0) <==> Marked(here.0))
    {
      ClusterReadStep(d, L, cluster, sec);
      ghost var here, next, f, g := ClusterRead(d, L, cluster, sec), ClusterRead(d, L, cluster, sec + 1), files', dirs';
      var sector := (fs.L.dataStart + (cluster - 2) * fs.L.spc + sec) % U32;
      AddressIs(L, cluster, sec);
      CountedLeft(d, L, depth, all.0 + rest, files, dirs, here.0 + rest, f, g);
      if sector >= |fs.disk| {
        ConcatEmpty(rest);
        return true, files', dirs';
      }
      ghost var es := EntriesOf(d[sector]);
      ConcatAssociates(es, next.0, rest);
      MarkedConcat(es, next.0);
      stop, files', dirs' := ListSector(fs, fs.disk[sector], depth, files', dirs', next.0 + rest);
      CountedTrans(d, L, depth, all.0 + rest, files, dirs, here.0 + rest, f, g,
        if stop then [] else next.0 + rest, files', dirs');
      if stop {
        return;
      }
      sec := sec + 1;
    }
    ClusterReadEnd(d, L, cluster, sec);
    ConcatEmpty(rest);
    stop := false;
  }

  lemma {:induction false} AddressIs(L: Layout, c: nat, s: nat)
    ensures Address(L, c, s) == (L.dataStart + (c - 2) * L.spc + s) % U32
  {
  }

  lemma {:induction false} ClusterReadStep(d: Disk, L: Layout, c: nat, s: nat)
    requires s < L.spc
    ensures Address(L, c, s) >= |d| ==> ClusterRead(d, L, c, s) == ([], false)
    ensures Address(L, c, s) < |d| ==>
      var r := ClusterRead(d, L, c, s + 1); ClusterRead(d, L, c, s) == (EntriesOf(d[Address(L, c, s)]) + r.0, r.1)
  {
  }

  lemma {:induction false} ClusterReadEnd(d: Disk, L: Layout, c: nat, s: nat)
    requires s >= L.spc
    ensures ClusterRead(d, L, c, s) == ([], true) && !Marked([])
  {
  }

  lemma {:induction false} MarkedConcat(a: seq<Dirent>, b: seq<Dirent>)
    ensures Marked(a + b) <==> Marked(a) || Marked(b)
  {
    if Marked(a) {
      var i :| 0 <= i < |a| && a[i][0] == 0;
      assert (a + b)[i][0] == 0;
    }
    if Marked(b) {
      var i :| 0 <= i < |b| && b[i][0] == 0;
      assert (a + b)[|a| + i][0] == 0;
    }
  }

  /**
   The recursive listing from cluster `c`: it terminates, and its counters grow by the files and
   directories of the tree below, cut off at the depth limit.
   */
  method ListDir(fs: FatFs, c: nat, depth: nat, files: nat, dirs: nat) returns (files': nat, dirs': nat)
    requires Listable(fs.disk, fs.L, c, depth)
    ensures files' == files + FileTotal(Unfold(fs.disk, fs.L, c, depth))
    ensures dirs' == dirs + DirTotal(Unfold(fs.disk, fs.L, c, depth))
    decreases MAX_DEPTH + 1 - depth, 2
  {
    hide Counted, Shown, SubsListable, Unfold, FileTotal, DirTotal, IsTrail, HasTrail, Ends, Stops, ClusterRead,
      FatEntry, Next;
    files', dirs' := files, dirs;
    if depth > MAX_DEPTH {
      NothingThere(fs.disk, fs.L, c, depth);
      return;
    }
    if Ends(c) {
      NothingThere(fs.disk, fs.L, c, depth);
      return;
    }
    ghost var d, L, tr, k := fs.disk, fs.L, TrailFrom(fs.disk, fs.L, c), 0;
    ghost var all := TrailEntries(d, L, tr);
    TrailStart(d, L, tr);
    CountedNothing(d, L, depth, all, files, dirs);
    var current := c;
    while !Ends(current)
      invariant k <= |tr| && (if k < |tr| then current == tr[k] else Ends(current))
      invariant Counted(d, L, depth, all, files, dirs, TrailEntries(d, L, tr[k..]), files', dirs')
      decreases |tr| - k
    {
      TrailStep(d, L, tr, k);
      ghost var left, rest, f, g := TrailEntries(d, L, tr[k..]), TrailEntries(d, L, tr[k + 1..]), files', dirs';
      CountedLeft(d, L, depth, all, files, dirs, left, f, g);
      var stop;
      stop, files', dirs' := ListCluster(fs, current, depth, files', dirs', rest);
      CountedTrans(d, L, depth, all, files, dirs, left, f, g, rest, files', dirs');
      if stop {
        k := k + 1;
        break;
      }
      current := fs.NextCluster(current);
      k := k + 1;
    }
    TrailOver(d, L, tr, k, current);
    CountedAll(d, L, c, depth, files, dirs, files', dirs');
  }

  lemma {:induction false} NothingThere(d: Disk, L: Layout, c: nat, depth: nat)
    requires Listable(d, L, c, depth) && (depth > MAX_DEPTH || Ends(c))
    ensures FileTotal(Unfold(d, L, c, depth)) == 0 && DirTotal(Unfold(d, L, c, depth)) == 0
  {
  }

  lemma {:induction false} TrailStart(d: Disk, L: Layout, tr: seq<nat>)
    requires IsTrail(d, L, tr)
    ensures |tr| > 0 && tr[0..] == tr
  {
  }

  lemma {:induction false} TrailStep(d: Disk, L: Layout, tr: seq<nat>, k: nat)
    requires IsTrail(d, L, tr) && k < |tr|
    ensures TrailEntries(d, L, tr[k..]) == ClusterRead(d, L, tr[k], 0).0 + TrailEntries(d, L, tr[k + 1..])
    ensures Stops(d, L, tr[k]) ==> k + 1 == |tr| && TrailEntries(d, L, tr[k + 1..]) == []
    ensures !Stops(d, L, tr[k]) ==> if k + 1 < |tr| then tr[k + 1] == After(d, L, tr[k]) else Ends(After(d, L, tr[k]))
  {
    assert tr[k..][1..] == tr[k + 1..];
    hide ClusterRead, Ends;
  }

  lemma {:induction false} TrailOver(d: Disk, L: Layout, tr: seq<nat>, k: nat, current: nat)
    requires IsTrail(d, L, tr) && k <= |tr| && (k < |tr| ==> current == tr[k] && Ends(current))
    ensures k == |tr| && TrailEntries(d, L, tr[k..]) == []
  {
  }

  /** From the first entry to the last the whole tree is counted. */
  lemma {:induction false} CountedAll(d: Disk, L: Layout, c: nat, depth: nat, f: nat, g: nat, f': nat, g': nat)
    requires Listable(d, L, c, depth) && depth <= MAX_DEPTH && !Ends(c) && HasTrail(d, L, c)
    requires Counted(d, L, depth, TrailEntries(d, L, TrailFrom(d, L, c)), f, g, [], f', g')
    ensures f' == f + FileTotal(Unfold(d, L, c, depth)) && g' == g + DirTotal(Unfold(d, L, c, depth))
  {
    hide HasTrail, IsTrail, Ends, ClusterRead;
  }
}
