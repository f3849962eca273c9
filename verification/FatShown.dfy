/** Which entries a listing shows and counts, and what a create adds to it. */
module FatShown {
  import opened Bytes
  import opened FatTable
  import opened FatChain
  import opened FatContent
  import opened FatDir
  import opened FatCreate
  import opened FatListing
  import opened FatTrail

  /** No dot in front, not deleted, and no volume label or piece of a long name, which both have bit 0x08. */
  predicate Visible(e: Dirent) { e[0] != 0x2E && e[0] != 0xE5 && e[11] / 8 % 2 == 0 }

  predicate NoMark(es: seq<Dirent>) { forall i :: 0 <= i < |es| ==> es[i][0] != 0 }

  lemma {:induction false} ShownOne(e: Dirent)
    ensures Shown([e]) == if e[0] != 0 && Visible(e) then [e] else []
  {
    assert [e][1..] == [];
    assert Attr(e) == ATTR_LFN ==> Attr(e) / 8 % 2 == 1;
  }

  /** In front of the end mark a listing shows one entry after the other. */
  lemma {:induction false} ShownConcat(a: seq<Dirent>, b: seq<Dirent>)
    requires NoMark(a)
    ensures Shown(a + b) == Shown(a) + Shown(b)
    decreases |a|
  {
    if a == [] {
      ConcatEmpty(b);
      ConcatEmpty(Shown(b));
    } else {
      ShownConcat(a[1..], b);
      assert (a + b)[0] == a[0] && (a + b)[1..] == a[1..] + b;
      ConcatAssociates(if Hidden(a[0]) then [] else [a[0]], Shown(a[1..]), Shown(b));
    }
  }

  /** An entry is shown exactly when it is visible and stands in front of the end mark. */
  lemma {:induction false} ShownExactly(es: seq<Dirent>, e: Dirent)
    ensures e in Shown(es) <==> Visible(e) && exists i :: 0 <= i < |es| && es[i] == e && NoMark(es[..i + 1])
    decreases |es|
  {
    if es != [] && es[0][0] != 0 {
      var rest := es[1..];
      ShownExactly(rest, e);
      ShownOne(es[0]);
      assert es == [es[0]] + rest;
      ShownConcat([es[0]], rest);
      if i :| 0 <= i < |rest| && rest[i] == e && NoMark(rest[..i + 1]) {
        InFront(es, i);
      }
      if i :| 0 <= i < |es| && es[i] == e && NoMark(es[..i + 1]) {
        if i > 0 {
          InFront(es, i - 1);
          assert rest[i - 1] == e;
        }
      }
      if es[0] == e {
        assert NoMark(es[..0 + 1]);
      }
    } else if es != [] {
      forall i | 0 <= i < |es| && es[i] == e
        ensures !NoMark(es[..i + 1])
      {
        assert es[..i + 1][0][0] == 0;
      }
    }
  }

  lemma {:induction false} InFront(es: seq<Dirent>, i: nat)
    requires es != [] && es[0][0] != 0 && i < |es| - 1
    ensures NoMark(es[1..][..i + 1]) <==> NoMark(es[..i + 2])
  {
    var a, b := es[1..][..i + 1], es[..i + 2];
    assert b == [es[0]] + a;
    assert forall k :: 0 <= k < |a| ==> a[k] == b[k + 1];
  }

  // ----- counting -----

  lemma {:induction false} FilesConcat(a: seq<Dirent>, b: seq<Dirent>)
    ensures FilesIn(a + b) == FilesIn(a) + FilesIn(b)
    decreases |a|
  {
    if a == [] {
      ConcatEmpty(b);
    } else {
      FilesConcat(a[1..], b);
      assert (a + b)[0] == a[0] && (a + b)[1..] == a[1..] + b;
    }
  }

  /** Every shown entry is a file or a directory of the tree. */
  lemma {:induction false} FilesAndDirectories(d: Disk, L: Layout, es: seq<Dirent>, depth: nat)
    requires depth <= MAX_DEPTH && SubsListable(d, L, es, depth)
    ensures FilesIn(es) + |Subs(d, L, es, depth)| == |es|
    decreases |es|
  {
    hide Unfold, Listable;
    if es != [] {
      FilesAndDirectories(d, L, es[1..], depth);
    }
  }

  /** The slot in front of which nothing is free, and what stands before and behind it. */
  lemma {:induction false} SlotSplits(dir: seq<Dirent>, i: nat, e: Dirent)
    requires FreeSlot(dir) == Some(i) && e[0] != 0
    ensures Shown(dir[i := e]) == Shown(dir[..i]) + Shown([e]) + Shown(dir[i + 1..])
    ensures Shown(dir) == Shown(dir[..i]) + if dir[i][0] == DELETED then Shown(dir[i + 1..]) else []
  {
    hide Shown;
    var a, b := dir[..i], dir[i + 1..];
    assert FreeProbe()(dir[i]) == Take;
    forall k | 0 <= k < i
      ensures a[k][0] != 0
    {
      assert FreeProbe()(dir[k]) == Pass;
    }
    assert dir[i := e] == a + [e] + b && dir == a + [dir[i]] + b;
    ShownConcat(a, [e] + b);
    ShownConcat([e], b);
    ConcatAssociates(a, [e], b);
    ConcatAssociates(Shown(a), Shown([e]), Shown(b));
    ShownConcat(a, [dir[i]] + b);
    ConcatAssociates(a, [dir[i]], b);
    if dir[i][0] == DELETED {
      ShownConcat([dir[i]], b);
      ShownOne(dir[i]);
      ConcatEmpty(Shown(b));
    } else {
      MarkEnds(dir[i], b);
    }
  }

  lemma {:induction false} MarkEnds(e: Dirent, b: seq<Dirent>)
    requires e[0] == 0
    ensures Shown([e] + b) == []
  {
  }

  /** The files and the directories that the listing of a directory counts on its own level. */
  function FilesOf(dir: seq<Dirent>): nat { FilesIn(Shown(dir)) }

  function DirectoriesOf(dir: seq<Dirent>): int { |Shown(dir)| - FilesIn(Shown(dir)) }

  /**
   A new entry adds one file or one directory to the listing exactly when it took the slot of a
   deleted entry, or nothing to be shown was left behind the end mark it overwrote.
   */
  lemma {:induction false} InsertedIsListed(dir: seq<Dirent>, i: nat, e: Dirent)
    requires FreeSlot(dir) == Some(i) && e[0] != 0 && Visible(e)
    ensures i < |dir|
    ensures var now := dir[i := e];
      && e in Shown(now)
      && (FilesOf(now) == FilesOf(dir) + (if IsDirectory(e) then 0 else 1)
          && DirectoriesOf(now) == DirectoriesOf(dir) + (if IsDirectory(e) then 1 else 0)
          <==> dir[i][0] == DELETED || Shown(dir[i + 1..]) == [])
  {
    hide Shown, FilesIn;
    var a, b := Shown(dir[..i]), Shown(dir[i + 1..]);
    SlotSplits(dir, i, e);
    ShownOne(e);
    assert (a + [e] + b)[|a|] == e;
    FilesConcat(a + [e], b);
    FilesConcat(a, [e]);
    FilesConcat(a, b);
    FilesOne(e);
    ConcatEmpty(a);
  }

  /** So it is on the volume: what the listing of the parent shows after a create. */
  lemma {:induction false} CreatedIsListed(
    L: Layout, d: Disk, e: Disk, ch: seq<nat>, i: nat, name: Name, attr: byte, r: nat)
    requires Created(L, d, e, ch, i, NewEntry(name, attr, r), r)
    requires attr == ATTR_ARCHIVE || attr == ATTR_DIRECTORY
    requires name[0] != 0 && name[0] != 0x2E && name[0] != 0xE5
    ensures HasTrail(d, L, ch[0]) && HasTrail(e, L, ch[0]) && i < |Directory(d, L, ch)|
    ensures var was := TrailEntries(d, L, TrailFrom(d, L, ch[0]));
      var now := TrailEntries(e, L, TrailFrom(e, L, ch[0]));
      && NewEntry(name, attr, r) in Shown(now)
      && (FilesOf(now) == FilesOf(was) + (if attr == ATTR_ARCHIVE then 1 else 0)
          && DirectoriesOf(now) == DirectoriesOf(was) + (if attr == ATTR_DIRECTORY then 1 else 0)
          <==> Directory(d, L, ch)[i][0] == DELETED || Shown(Directory(d, L, ch)[i + 1..]) == [])
  {
    hide Shown, Directory, IsChain, Fat, TrailEntries, HasTrail, NewEntry, FreeSlot, FilesIn, Created, Visible,
      IsDirectory, Layout.Fits;
    ParentChain(L, d, e, ch, i, NewEntry(name, attr, r), r);
    ListsDirectory(d, L, ch);
    ListsDirectory(e, L, ch);
    EntryKind(name, attr, r);
    InsertedIsListed(Directory(d, L, ch), i, NewEntry(name, attr, r));
  }

  lemma {:induction false} EntryKind(name: Name, attr: byte, r: nat)
    requires attr == ATTR_ARCHIVE || attr == ATTR_DIRECTORY
    requires r < U32 && name[0] != 0 && name[0] != 0x2E && name[0] != 0xE5
    ensures var e := NewEntry(name, attr, r); e[0] != 0 && Visible(e) && (IsDirectory(e) <==> attr == ATTR_DIRECTORY)
  {
    hide NewEntry;
    NewEntryFields(name, attr, r);
    var e := NewEntry(name, attr, r);
    assert e[0] == NameOf(e)[0];
  }

  lemma {:induction false} ParentChain(L: Layout, d: Disk, e: Disk, ch: seq<nat>, i: nat, entry: Dirent, r: nat)
    requires Created(L, d, e, ch, i, entry, r)
    ensures L.Fits(|d|) && |e| == |d| && IsChain(Fat(d, L), ch) && IsChain(Fat(e, L), ch) && ch != [] && r < U32
    ensures Within(L, ch) && FreeSlot(Directory(d, L, ch)) == Some(i) && i < |Directory(d, L, ch)|
    ensures Directory(e, L, ch) == Directory(d, L, ch)[i := entry]
  {
    FreeOffChain(Fat(d, L), ch, r);
    ChainFrame(Fat(d, L), Fat(e, L), ch);
  }

  lemma {:induction false} FilesOne(e: Dirent)
    ensures FilesIn([e]) == if IsDirectory(e) then 0 else 1
  {
    assert [e][1..] == [];
  }

  /** A directory just made lists as empty: its two dot entries are not shown. */
  lemma {:induction false} NewDirectoryLists(d: Disk, L: Layout, r: nat, parent: nat, depth: nat)
    requires NewDirectory(d, L, r, parent) && parent < U32
    ensures Listable(d, L, r, depth) && Unfold(d, L, r, depth) == Dir(0, [])
  {
    hide Shown, Directory, IsChain, Fat, TrailEntries, HasTrail, NewEntry;
    ListsDirectory(d, L, [r]);
    NewDirectoryShown(Directory(d, L, [r]), r, parent);
  }

  lemma {:induction false} NewDirectoryShown(dir: seq<Dirent>, r: nat, parent: nat)
    requires |dir| >= 2 && r < U32 && parent < U32
    requires dir[0] == NewEntry(DOT_NAME, ATTR_DIRECTORY, r)
    requires dir[1] == NewEntry(DOTDOT_NAME, ATTR_DIRECTORY, parent)
    requires forall j :: 2 <= j < |dir| ==> dir[j] == Zeros(32)
    ensures Shown(dir) == []
  {
    hide NewEntry;
    NewEntryFields(DOT_NAME, ATTR_DIRECTORY, r);
    NewEntryFields(DOTDOT_NAME, ATTR_DIRECTORY, parent);
    assert dir[0][0] == NameOf(dir[0])[0] && dir[1][0] == NameOf(dir[1])[0];
    assert dir[1..][0] == dir[1] && dir[1..][1..] == dir[2..];
    assert Shown(dir[2..]) == [];
  }

  /** The listing goes down to depth 10: what a directory there shows is counted, but not entered. */
  lemma {:induction false} TenLevels(d: Disk, L: Layout, c: nat)
    ensures Listable(d, L, c, 11) && Unfold(d, L, c, 11) == Dir(0, [])
    ensures !Ends(c) && HasTrail(d, L, c) ==>
      && Listable(d, L, c, 10)
      && var es := Shown(TrailEntries(d, L, TrailFrom(d, L, c)));
         Unfold(d, L, c, 10).files == FilesIn(es) && FilesIn(es) + |Unfold(d, L, c, 10).subs| == |es|
  {
    hide Shown, TrailEntries, HasTrail, FilesIn;
    if !Ends(c) && HasTrail(d, L, c) {
      var es := Shown(TrailEntries(d, L, TrailFrom(d, L, c)));
      LastLevel(d, L, es);
      FilesAndDirectories(d, L, es, 10);
    }
  }

  lemma {:induction false} LastLevel(d: Disk, L: Layout, es: seq<Dirent>)
    ensures SubsListable(d, L, es, 10)
    decreases |es|
  {
    if es != [] {
      LastLevel(d, L, es[1..]);
    }
  }
}
