/** Which volumes the listing ends on, and that it shows the entries lookups scan. */
module FatTrail {
  import opened Bytes
  import opened FatTable
  import opened FatChain
  import opened FatContent
  import opened FatDir
  import opened FatListing

  // ----- a walk has a trail exactly when its loop ends -----

  /** After `n` passes of the loop over clusters it is still going. */
  ghost predicate GoesOn(d: Disk, L: Layout, c: nat, n: nat)
    decreases n
  {
    !Ends(c) && (n > 0 ==> !Stops(d, L, c) && GoesOn(d, L, After(d, L, c), n - 1))
  }

  lemma {:induction false} TrailEnds(d: Disk, L: Layout, tr: seq<nat>)
    requires IsTrail(d, L, tr)
    ensures !GoesOn(d, L, tr[0], |tr|)
    decreases |tr|
  {
    hide Stops, Ends, FatEntry;
    if |tr| > 1 {
      TrailEnds(d, L, tr[1..]);
    } else {
      assert !Stops(d, L, tr[0]) ==> !GoesOn(d, L, After(d, L, tr[0]), 0);
    }
  }

  lemma {:induction false} EndsTrail(d: Disk, L: Layout, c: nat, n: nat) returns (tr: seq<nat>)
    requires !Ends(c) && !GoesOn(d, L, c, n)
    ensures IsTrail(d, L, tr) && tr[0] == c
    decreases n
  {
    hide Stops, FatEntry;
    var next := After(d, L, c);
    if Stops(d, L, c) || Ends(next) {
      tr := [c];
    } else {
      var rest := EndsTrail(d, L, next, n - 1);
      tr := [c] + rest;
    }
  }

  /** Without a trail the loop over the clusters of a directory never ends, and with one it does. */
  lemma {:induction false} TrailExactly(d: Disk, L: Layout, c: nat)
    requires !Ends(c)
    ensures HasTrail(d, L, c) <==> exists n: nat :: !GoesOn(d, L, c, n)
  {
    hide IsTrail, GoesOn;
    if HasTrail(d, L, c) {
      TrailEnds(d, L, TrailFrom(d, L, c));
    }
    if n: nat :| !GoesOn(d, L, c, n) {
      var tr := EndsTrail(d, L, c, n);
    }
  }

  // ----- walks inside the table -----

  /** Links inside the table, from a cluster of it to an end mark or to a number outside. */
  ghost predicate IsWalk(fat: seq<nat>, w: seq<nat>)
  {
    && w != []
    && (forall i :: 0 <= i < |w| ==> 2 <= w[i] < |fat|)
    && (forall i :: 0 <= i < |w| - 1 ==> w[i + 1] == Next(fat[w[i]]))
    && var n := Next(fat[w[|w| - 1]]); Ends(n) || n >= |fat|
  }

  ghost predicate HasWalk(fat: seq<nat>, c: nat) { exists w :: IsWalk(fat, w) && w[0] == c }

  /** No walk through the table runs in a circle. */
  ghost predicate Acyclic(fat: seq<nat>) { forall c: nat :: 2 <= c < |fat| ==> HasWalk(fat, c) }

  /** No link leaves the table. */
  ghost predicate Closed(fat: seq<nat>)
  {
    forall c :: 2 <= c < |fat| ==> Ends(Next(fat[c])) || Next(fat[c]) < |fat|
  }

  /** A walk of the table, cut where the listing stops, is a trail, if the listing ends at what it leads to. */
  lemma {:induction false} WalkTrail(d: Disk, L: Layout, w: seq<nat>) returns (tr: seq<nat>)
    requires L.Fits(|d|) && IsWalk(Fat(d, L), w)
    requires var n := After(d, L, w[|w| - 1]); Ends(n) || Stops(d, L, n)
    ensures IsTrail(d, L, tr) && tr[0] == w[0]
    decreases |w|
  {
    hide Stops, FatEntry;
    var n := After(d, L, w[0]);
    FatAt(d, L, w[0]);
    if Stops(d, L, w[0]) || Ends(n) {
      tr := [w[0]];
    } else if |w| == 1 {
      tr := [w[0], n];
    } else {
      assert w[1] == n;
      var rest := WalkTrail(d, L, w[1..]);
      tr := [w[0]] + rest;
    }
  }

  lemma {:induction false} ClosedWalk(d: Disk, L: Layout, w: seq<nat>)
    requires L.Fits(|d|) && Closed(Fat(d, L)) && IsWalk(Fat(d, L), w)
    ensures Ends(After(d, L, w[|w| - 1]))
  {
    FatAt(d, L, w[|w| - 1]);
  }

  /** In an acyclic table without links out of it every walk from a cluster of the volume ends. */
  lemma {:induction false} InsideEnds(d: Disk, L: Layout, c: nat)
    requires L.Fits(|d|) && Acyclic(Fat(d, L)) && Closed(Fat(d, L)) && 2 <= c < L.limit
    ensures HasTrail(d, L, c)
  {
    hide Stops, IsTrail, Fat, Closed, FatEntry;
    assert HasWalk(Fat(d, L), c);
    var w :| IsWalk(Fat(d, L), w) && w[0] == c;
    ClosedWalk(d, L, w);
    var tr := WalkTrail(d, L, w);
  }

  // ----- numbers outside the table -----

  /** A walk over numbers outside the table, to where the listing ends or the table begins. */
  ghost predicate IsWayOut(d: Disk, L: Layout, o: seq<nat>)
  {
    && o != []
    && (forall i :: 0 <= i < |o| ==> o[i] >= L.limit && !Ends(o[i]))
    && (forall i :: 0 <= i < |o| - 1 ==> o[i + 1] == After(d, L, o[i]) && !Stops(d, L, o[i]))
    && var c := o[|o| - 1];
       Stops(d, L, c) || Ends(After(d, L, c)) || After(d, L, c) < L.limit
  }

  ghost predicate HasWayOut(d: Disk, L: Layout, c: nat) { exists o :: IsWayOut(d, L, o) && o[0] == c }

  lemma {:induction false} WayOutTrail(d: Disk, L: Layout, o: seq<nat>) returns (tr: seq<nat>)
    requires L.Fits(|d|) && Acyclic(Fat(d, L)) && Closed(Fat(d, L)) && IsWayOut(d, L, o)
    ensures IsTrail(d, L, tr) && tr[0] == o[0]
    decreases |o|
  {
    hide Stops, FatEntry, Acyclic, Closed, Fat;
    var n := After(d, L, o[0]);
    if Stops(d, L, o[0]) || Ends(n) {
      tr := [o[0]];
    } else {
      var rest;
      if |o| == 1 {
        InsideEnds(d, L, n);
        rest := TrailFrom(d, L, n);
      } else {
        rest := WayOutTrail(d, L, o[1..]);
      }
      tr := [o[0]] + rest;
    }
  }

  lemma {:induction false} TrailWayOut(d: Disk, L: Layout, tr: seq<nat>) returns (o: seq<nat>)
    requires IsTrail(d, L, tr) && tr[0] >= L.limit
    ensures IsWayOut(d, L, o) && o[0] == tr[0]
    decreases |tr|
  {
    hide Stops, FatEntry;
    if |tr| == 1 || tr[1] < L.limit {
      o := [tr[0]];
    } else {
      var rest := TrailWayOut(d, L, tr[1..]);
      o := [tr[0]] + rest;
    }
  }

  /** With such a table a walk ends exactly when it starts inside, or finds its way out of the numbers outside. */
  lemma {:induction false} TrailWhen(d: Disk, L: Layout, c: nat)
    requires L.Fits(|d|) && Acyclic(Fat(d, L)) && Closed(Fat(d, L)) && !Ends(c)
    ensures HasTrail(d, L, c) <==> c < L.limit || HasWayOut(d, L, c)
  {
    hide IsTrail, Acyclic, Closed, Fat, Stops, FatEntry;
    if c < L.limit {
      InsideEnds(d, L, c);
    } else {
      if HasTrail(d, L, c) {
        var o := TrailWayOut(d, L, TrailFrom(d, L, c));
      }
      if o :| IsWayOut(d, L, o) && o[0] == c {
        var tr := WayOutTrail(d, L, o);
      }
    }
  }

  // ----- listings -----

  /** The directories a listing enters from `c` at this depth, each inside the table or with a way out. */
  ghost predicate Escapes(d: Disk, L: Layout, c: nat, depth: nat)
    decreases MAX_DEPTH + 1 - depth, 1, 0
  {
    depth <= MAX_DEPTH && !Ends(c) ==>
    && (c < L.limit || HasWayOut(d, L, c))
    && (HasTrail(d, L, c) ==> SubsEscape(d, L, Shown(TrailEntries(d, L, TrailFrom(d, L, c))), depth))
  }

  ghost predicate SubsEscape(d: Disk, L: Layout, es: seq<Dirent>, depth: nat)
    requires depth <= MAX_DEPTH
    decreases MAX_DEPTH + 1 - depth, 0, |es|
  {
    es != [] ==>
    && (IsDirectory(es[0]) ==> Escapes(d, L, ClusterOf(es[0]), depth + 1))
    && SubsEscape(d, L, es[1..], depth)
  }

  /**
   On an acyclic table without links out of it a listing ends exactly when every directory it enters is
   reserved, inside the table, or has a way out of the numbers outside it.
   */
  lemma {:induction false} ListingEndsExactly(d: Disk, L: Layout, c: nat, depth: nat)
    requires L.Fits(|d|) && Acyclic(Fat(d, L)) && Closed(Fat(d, L))
    ensures Listable(d, L, c, depth) <==> Escapes(d, L, c, depth)
    decreases MAX_DEPTH + 1 - depth, 1, 0
  {
    hide Acyclic, Closed, Fat, Ends, HasTrail, HasWayOut, TrailEntries, Shown;
    if depth <= MAX_DEPTH && !Ends(c) {
      TrailWhen(d, L, c);
      if HasTrail(d, L, c) {
        SubsEndExactly(d, L, Shown(TrailEntries(d, L, TrailFrom(d, L, c))), depth);
      }
    }
  }

  lemma {:induction false} SubsEndExactly(d: Disk, L: Layout, es: seq<Dirent>, depth: nat)
    requires L.Fits(|d|) && Acyclic(Fat(d, L)) && Closed(Fat(d, L)) && depth <= MAX_DEPTH
    ensures SubsListable(d, L, es, depth) <==> SubsEscape(d, L, es, depth)
    decreases MAX_DEPTH + 1 - depth, 0, |es|
  {
    hide Acyclic, Closed, Fat, Listable, Escapes;
    if es != [] {
      if IsDirectory(es[0]) {
        ListingEndsExactly(d, L, ClusterOf(es[0]), depth + 1);
      }
      SubsEndExactly(d, L, es[1..], depth);
    }
  }

  /** Every directory entered is reserved, inside the table, or has its first sector off the device. */
  ghost predicate Contained(d: Disk, L: Layout, c: nat, depth: nat)
    decreases MAX_DEPTH + 1 - depth, 1, 0
  {
    depth <= MAX_DEPTH && !Ends(c) ==>
    && (c < L.limit || Address(L, c, 0) >= |d|)
    && (HasTrail(d, L, c) ==> SubsContained(d, L, Shown(TrailEntries(d, L, TrailFrom(d, L, c))), depth))
  }

  ghost predicate SubsContained(d: Disk, L: Layout, es: seq<Dirent>, depth: nat)
    requires depth <= MAX_DEPTH
    decreases MAX_DEPTH + 1 - depth, 0, |es|
  {
    es != [] ==>
    && (IsDirectory(es[0]) ==> Contained(d, L, ClusterOf(es[0]), depth + 1))
    && SubsContained(d, L, es[1..], depth)
  }

  lemma {:induction false} UnreadableStops(d: Disk, L: Layout, c: nat)
    requires L.spc > 0 && Address(L, c, 0) >= |d|
    ensures Stops(d, L, c)
  {
  }

  lemma {:induction false} UnreadableWayOut(d: Disk, L: Layout, c: nat)
    requires L.spc > 0 && Address(L, c, 0) >= |d| && c >= L.limit && !Ends(c)
    ensures HasWayOut(d, L, c)
  {
    hide ClusterRead;
    UnreadableStops(d, L, c);
    assert IsWayOut(d, L, [c]) && [c][0] == c;
  }

  /** That much can be read off the entries, and then the listing ends. */
  lemma {:induction false} ContainedEscapes(d: Disk, L: Layout, c: nat, depth: nat)
    requires L.spc > 0 && Contained(d, L, c, depth)
    ensures Escapes(d, L, c, depth)
    decreases MAX_DEPTH + 1 - depth, 1, 0
  {
    hide HasTrail, HasWayOut, TrailEntries, Shown, Address;
    if depth <= MAX_DEPTH && !Ends(c) {
      if c >= L.limit {
        UnreadableWayOut(d, L, c);
      }
      if HasTrail(d, L, c) {
        SubsContainedEscape(d, L, Shown(TrailEntries(d, L, TrailFrom(d, L, c))), depth);
      }
    }
  }

  lemma {:induction false} SubsContainedEscape(d: Disk, L: Layout, es: seq<Dirent>, depth: nat)
    requires L.spc > 0 && depth <= MAX_DEPTH && SubsContained(d, L, es, depth)
    ensures SubsEscape(d, L, es, depth)
    decreases MAX_DEPTH + 1 - depth, 0, |es|
  {
    hide Contained, Escapes;
    if es != [] {
      if IsDirectory(es[0]) {
        ContainedEscapes(d, L, ClusterOf(es[0]), depth + 1);
      }
      SubsContainedEscape(d, L, es[1..], depth);
    }
  }

  lemma {:induction false} ContainedListable(d: Disk, L: Layout, c: nat, depth: nat)
    requires L.Fits(|d|) && Acyclic(Fat(d, L)) && Closed(Fat(d, L)) && Contained(d, L, c, depth)
    ensures Listable(d, L, c, depth)
  {
    hide Acyclic, Closed, Fat, Contained, Escapes, Listable;
    ContainedEscapes(d, L, c, depth);
    ListingEndsExactly(d, L, c, depth);
  }

  // ----- devices that end with the volume -----

  /** No number a link can hold addresses a sector behind the volume. */
  ghost predicate NothingBehind(d: Disk, L: Layout)
  {
    forall c: nat :: L.limit <= c < LOW28 ==> Address(L, c, 0) >= |d|
  }

  /** So it is when the device ends with the volume and no such address wraps around. */
  lemma {:induction false} EndsWithVolume(d: Disk, L: Layout)
    requires L.Fits(|d|) && |d| == L.dataStart + Times(L.limit - 2, L.spc) && L.dataStart + LOW28 * L.spc <= U32
    ensures NothingBehind(d, L)
  {
    hide Address, Times;
    TimesIsProduct(L.limit - 2, L.spc);
    forall c: nat | L.limit <= c < LOW28
      ensures Address(L, c, 0) >= |d|
    {
      ProductMono(L.limit - 2, c - 2, L.spc);
      ProductStep(c - 2, LOW28, L.spc);
      AddressUnwrapped(L, c);
    }
  }

  lemma {:induction false} AddressUnwrapped(L: Layout, c: nat)
    requires c >= 2 && L.dataStart + (c - 2) * L.spc < U32
    ensures Address(L, c, 0) == L.dataStart + (c - 2) * L.spc
  {
    InThirtyTwo(L.dataStart + (c - 2) * L.spc);
  }

  lemma {:induction false} ProductStep(a: nat, b: nat, m: nat)
    requires a < b && m > 0
    ensures a * m < b * m
  {
  }

  lemma {:induction false} ProductMono(a: nat, b: nat, m: nat)
    requires a <= b
    ensures a * m <= b * m
  {
  }

  /** A link holds 28 bits, or reads as the end mark. */
  lemma {:induction false} LinkBound(d: Disk, L: Layout, c: nat)
    ensures After(d, L, c) < LOW28 || After(d, L, c) == NO_CLUSTER
  {
  }

  /** Then every walk ends after at most one step outside, whatever number it starts from. */
  lemma {:induction false} NothingBehindEnds(d: Disk, L: Layout, c: nat)
    requires L.Fits(|d|) && Acyclic(Fat(d, L)) && NothingBehind(d, L) && !Ends(c)
    ensures HasTrail(d, L, c)
  {
    hide Stops, FatEntry, Fat, Acyclic, Address;
    var n := After(d, L, c);
    LinkBound(d, L, c);
    if c < L.limit {
      var tr := InsideBound(d, L, c);
    } else if Stops(d, L, c) || Ends(n) {
      assert IsTrail(d, L, [c]) && [c][0] == c;
    } else {
      var rest;
      if n < L.limit {
        rest := InsideBound(d, L, n);
      } else {
        UnreadableStops(d, L, n);
        rest := [n];
      }
      assert IsTrail(d, L, [c] + rest) && ([c] + rest)[0] == c;
    }
  }

  lemma {:induction false} InsideBound(d: Disk, L: Layout, c: nat) returns (tr: seq<nat>)
    requires L.Fits(|d|) && Acyclic(Fat(d, L)) && NothingBehind(d, L) && 2 <= c < L.limit
    ensures IsTrail(d, L, tr) && tr[0] == c
  {
    hide Stops, FatEntry, Fat, Address;
    assert HasWalk(Fat(d, L), c);
    var w :| IsWalk(Fat(d, L), w) && w[0] == c;
    var last := w[|w| - 1];
    var n := After(d, L, last);
    FatAt(d, L, last);
    LinkBound(d, L, last);
    if !Ends(n) {
      UnreadableStops(d, L, n);
    }
    tr := WalkTrail(d, L, w);
  }

  /** So on a device that ends with its volume an acyclic table is enough, whatever the files hold. */
  lemma {:induction false} EveryListingEnds(d: Disk, L: Layout, c: nat, depth: nat)
    requires L.Fits(|d|) && Acyclic(Fat(d, L)) && NothingBehind(d, L)
    ensures Listable(d, L, c, depth)
    decreases MAX_DEPTH + 1 - depth, 1, 0
  {
    hide Acyclic, Fat, NothingBehind, HasTrail;
    if depth <= MAX_DEPTH && !Ends(c) {
      NothingBehindEnds(d, L, c);
      EveryListingBelowEnds(d, L, Shown(TrailEntries(d, L, TrailFrom(d, L, c))), depth);
    }
  }

  lemma {:induction false} EveryListingBelowEnds(d: Disk, L: Layout, es: seq<Dirent>, depth: nat)
    requires L.Fits(|d|) && Acyclic(Fat(d, L)) && NothingBehind(d, L) && depth <= MAX_DEPTH
    ensures SubsListable(d, L, es, depth)
    decreases MAX_DEPTH + 1 - depth, 0, |es|
  {
    hide Acyclic, Fat, NothingBehind, Listable;
    if es != [] {
      if IsDirectory(es[0]) {
        EveryListingEnds(d, L, ClusterOf(es[0]), depth + 1);
      }
      EveryListingBelowEnds(d, L, es[1..], depth);
    }
  }

  // ----- the listing and the lookups see the same directory -----

  lemma {:induction false} TrailUnique(d: Disk, L: Layout, a: seq<nat>, b: seq<nat>)
    requires IsTrail(d, L, a) && IsTrail(d, L, b) && a[0] == b[0]
    ensures a == b
    decreases |a|
  {
    hide Stops, FatEntry, Ends;
    var n := After(d, L, a[0]);
    assert |a| > 1 ==> a[1] == n && !Stops(d, L, a[0]) && !Ends(a[1]);
    assert |b| > 1 ==> b[1] == n && !Stops(d, L, b[0]) && !Ends(b[1]);
    if |a| > 1 && |b| > 1 {
      assert a[1] == b[1];
      TrailUnique(d, L, a[1..], b[1..]);
      assert a == [a[0]] + a[1..] && b == [b[0]] + b[1..];
    }
  }

  /** On the volume a cluster reads as its sectors. */
  lemma {:induction false} ClusterReadAt(d: Disk, L: Layout, c: nat, s: nat, t: nat, ent: nat)
    requires L.Fits(|d|) && 2 <= c < L.limit && s <= t < L.spc && ent < 16
    ensures var r := ClusterRead(d, L, c, s);
      && r.1 && |r.0| == 16 * (L.spc - s) && SectorNo(L, c, t) < |d|
      && r.0[16 * (t - s) + ent] == d[SectorNo(L, c, t)][32 * ent..32 * ent + 32]
    decreases L.spc - s
  {
    AddressInside(L, |d|, c, s);
    hide SectorNo, Address, Layout.Fits;
    if s + 1 == L.spc {
      assert ClusterRead(d, L, c, s + 1) == ([], true);
    } else {
      ClusterReadAt(d, L, c, s + 1, if t == s then s + 1 else t, ent);
    }
  }

  lemma {:induction false} TrailEntriesAt(d: Disk, L: Layout, ch: seq<nat>, k: nat, s: nat, ent: nat)
    requires L.Fits(|d|) && Within(L, ch) && k < |ch| && s < L.spc && ent < 16
    ensures |TrailEntries(d, L, ch)| == SectorCount(L, |ch|) * 16 && SlotIndex(L, k, s, ent) < SectorCount(L, |ch|) * 16
    ensures SectorNo(L, ch[k], s) < |d|
    ensures TrailEntries(d, L, ch)[SlotIndex(L, k, s, ent)] == d[SectorNo(L, ch[k], s)][32 * ent..32 * ent + 32]
    decreases |ch|
  {
    hide ClusterRead, SectorNo, Layout.Fits;
    TimesMono(k, |ch|, L.spc);
    ClusterReadAt(d, L, ch[0], 0, if k == 0 then s else 0, ent);
    if |ch| > 1 {
      TrailEntriesAt(d, L, ch[1..], if k == 0 then 0 else k - 1, s, ent);
    }
  }

  lemma {:induction false} TrailIsDirectory(d: Disk, L: Layout, ch: seq<nat>)
    requires L.Fits(|d|) && Within(L, ch) && ch != []
    ensures TrailEntries(d, L, ch) == Directory(d, L, ch)
  {
    hide Directory, TrailEntries, SectorNo;
    TrailEntriesAt(d, L, ch, 0, 0, 0);
    forall j | 0 <= j < SectorCount(L, |ch|) * 16
      ensures TrailEntries(d, L, ch)[j] == Directory(d, L, ch)[j]
    {
      var k, s := SlotPlace(L, ch, j);
      TrailEntriesAt(d, L, ch, k, s, j % 16);
      SlotAt(d, L, ch, k, s, j % 16);
    }
  }

  lemma {:induction false} ShownMarked(a: seq<Dirent>, b: seq<Dirent>)
    requires Marked(a)
    ensures Shown(a + b) == Shown(a)
    decreases |a|
  {
    if a[0][0] != 0 {
      var i :| 0 <= i < |a| && a[i][0] == 0;
      assert a[1..][i - 1][0] == 0;
      ShownMarked(a[1..], b);
      assert (a + b)[1..] == a[1..] + b;
    }
  }

  /** The trail of a proper chain is the part of it up to the end mark; behind it nothing is shown. */
  lemma {:induction false} ChainTrail(d: Disk, L: Layout, ch: seq<nat>) returns (tr: seq<nat>)
    requires L.Fits(|d|) && IsChain(Fat(d, L), ch)
    ensures IsTrail(d, L, tr) && tr[0] == ch[0] && Shown(TrailEntries(d, L, tr)) == Shown(TrailEntries(d, L, ch))
    decreases |ch|
  {
    hide Stops, FatEntry, ClusterRead, Shown;
    ChainHead(d, L, ch);
    var r := ClusterRead(d, L, ch[0], 0);
    var rest := TrailEntries(d, L, ch[1..]);
    if Stops(d, L, ch[0]) {
      tr := [ch[0]];
      StopsMarked(d, L, ch[0]);
      assert tr[1..] == [];
      ConcatEmpty(r.0);
      ShownMarked(r.0, rest);
    } else if |ch| == 1 {
      tr := ch;
    } else {
      var t := ChainTrail(d, L, ch[1..]);
      tr := [ch[0]] + t;
      assert tr[1..] == t;
      ShownAfter(r.0, TrailEntries(d, L, t), rest);
    }
  }

  lemma {:induction false} ChainHead(d: Disk, L: Layout, ch: seq<nat>)
    requires L.Fits(|d|) && IsChain(Fat(d, L), ch)
    ensures 2 <= ch[0] < L.limit && !Ends(ch[0])
    ensures if |ch| > 1 then After(d, L, ch[0]) == ch[1] && IsChain(Fat(d, L), ch[1..]) else Ends(After(d, L, ch[0]))
  {
    ChainStep(Fat(d, L), ch, 0);
    if |ch| > 1 {
      var t := ch[1..];
      forall i | 0 <= i < |t| - 1
        ensures Fat(d, L)[t[i]] == t[i + 1]
      {
        assert t[i] == ch[i + 1] && Fat(d, L)[ch[i + 1]] == ch[i + 1 + 1];
      }
    }
  }

  lemma {:induction false} StopsMarked(d: Disk, L: Layout, c: nat)
    requires L.Fits(|d|) && 2 <= c < L.limit && Stops(d, L, c)
    ensures Marked(ClusterRead(d, L, c, 0).0)
  {
    ClusterReadAt(d, L, c, 0, 0, 0);
  }

  lemma {:induction false} ShownAfter(a: seq<Dirent>, b: seq<Dirent>, c: seq<Dirent>)
    requires Shown(b) == Shown(c)
    ensures Shown(a + b) == Shown(a + c)
    decreases |a|
  {
    if a == [] {
      ConcatEmpty(b);
      ConcatEmpty(c);
    } else {
      ShownAfter(a[1..], b, c);
      assert (a + b)[1..] == a[1..] + b && (a + c)[1..] == a[1..] + c;
    }
  }

  /** For a directory on a proper chain the listing shows what a scan of the directory passes. */
  lemma {:induction false} ListsDirectory(d: Disk, L: Layout, ch: seq<nat>)
    requires L.Fits(|d|) && IsChain(Fat(d, L), ch)
    ensures HasTrail(d, L, ch[0])
    ensures Shown(TrailEntries(d, L, TrailFrom(d, L, ch[0]))) == Shown(Directory(d, L, ch))
  {
    hide IsTrail, Shown, TrailEntries, Directory;
    var tr := ChainTrail(d, L, ch);
    TrailUnique(d, L, tr, TrailFrom(d, L, ch[0]));
    TrailIsDirectory(d, L, ch);
  }
}
