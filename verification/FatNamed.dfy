/** A name created by path: the same path then finds the new entry, and every other path what it found before. */
module FatNamed {
  import opened Bytes
  import opened FatTable
  import opened FatChain
  import opened FatContent
  import opened FatVolume
  import opened FatFile
  import opened FatDir
  import opened FatOnDisk
  import opened FatCreate
  import opened FatOpen
  import opened FatRoundTrip
  import opened FatWrite
  import opened PathWalk
  import opened ShortName

  // ----- a name made from a path does not look like an end mark -----

  /** The last component of a path without a zero byte is not empty and has no zero byte. */
  lemma {:induction false} ZeroFreeEnd(s: seq<byte>)
    requires 0 !in s && Components(s) != []
    ensures Components(s)[|Components(s)| - 1] != [] && 0 !in Components(s)[|Components(s)| - 1]
    decreases |s|
  {
    var i := IndexOf(s, SLASH);
    if i < |s| && Components(s[i + 1..]) != [] {
      ZeroFreeEnd(s[i + 1..]);
    }
  }

  lemma {:induction false} FirstByte(s: seq<byte>)
    requires s != []
    ensures ShortNameOf(s)[0] == Fold(s[0])
  {
    var dot := IndexOf(s, DOT);
    if 0 < dot < |s| {
      assert Field(s[..dot], 8)[0] == Fold(s[0]);
    } else {
      assert Field(s, 8)[0] == Fold(s[0]);
    }
  }

  /** What a path names but its directory lacks: the name never starts with the byte of an end mark. */
  lemma {:induction false} AbsentName(d: Disk, L: Layout, path: seq<byte>)
    requires Reachable(d, L, path) && TargetOf(d, L, path).Absent?
    ensures var t := TargetOf(d, L, path);
      && t.name[0] != 0 && IsChain(Fat(d, L), t.dir) && Lookup(Directory(d, L, t.dir), t.name) == None
  {
    hide Walk, Components, ShortNameOf, Lookup, Fat, Directory, IsChain;
    var s := Stripped(path);
    ZeroFreeEnd(s);
    FirstByte(Components(s)[|Components(s)| - 1]);
  }

  /** The lookups in the directory of a path, and in all others, after a create through that path. */
  lemma {:induction false} LookupsAfterCreate(
    L: Layout, d: Disk, e: Disk, path: seq<byte>, ch: seq<nat>, name: Name, i: nat, attr: byte, r: nat)
    requires Reachable(d, L, path) && TargetOf(d, L, path) == Absent(ch, name)
    requires attr == ATTR_ARCHIVE || attr == ATTR_DIRECTORY
    requires Created(L, d, e, ch, i, NewEntry(name, attr, r), r)
    ensures var was, now := Directory(d, L, ch), Directory(e, L, ch);
      && i < |was| && (Lookup(now, name) == Some(i) <==> name[0] != DELETED)
      && ((forall nm: Name :: nm != name ==> Lookup(now, nm) == Lookup(was, nm)) <==> NothingBack(was, i, name))
    ensures OthersKept(d, e, L, ch)
  {
    hide Reachable, TargetOf, Lookup, NewEntry, Directory, OthersKept, NothingNewFrom;
    AbsentName(d, L, path);
    CreatedLookups(L, d, e, ch, i, name, attr, r);
  }

  /** A path of 256 bytes or more, without its leading slash, names nothing. */
  lemma {:induction false} PathLimit(d: Disk, L: Layout, path: seq<byte>)
    requires Reachable(d, L, path)
    ensures |path| >= 257 ==> TargetOf(d, L, path) == Nothing
    ensures |path| < 256 ==> ResolvedPath(d, L, path) == ResolveFrom(d, L, L.root, Stripped(path))
  {
    hide Walk, Walkable, Components, Fat, HasChain, Lookup;
  }

  /** A short name of a text without a zero byte has none. */
  lemma {:induction false} NameWithoutZero(s: seq<byte>)
    requires 0 !in s
    ensures 0 !in ShortNameOf(s)
  {
    hide IndexOf;
    FieldWithoutZero(Base(s), 8);
    FieldWithoutZero(Extension(s), 3);
    assert ShortNameOf(s) == Field(Base(s), 8) + Field(Extension(s), 3);
  }

  lemma {:induction false} FieldWithoutZero(s: seq<byte>, width: nat)
    requires 0 !in s
    ensures 0 !in Field(s, width)
  {
    var t := FoldAll(Cut(s, width));
    forall i | 0 <= i < width
      ensures Field(s, width)[i] != 0
    {
      assert i < |t| ==> Field(s, width)[i] == t[i];
    }
  }

  /** By path a directory just made has no entries, not even `.` and `..`, whose last byte is zero. */
  lemma {:induction false} NothingInNew(d: Disk, L: Layout, r: nat, parent: nat, s: seq<byte>)
    requires NewDirectory(d, L, r, parent) && parent < U32 && 0 !in s
    ensures Lookup(Directory(d, L, [r]), ShortNameOf(s)) == None
  {
    hide Directory, NewEntry, Fat, ShortNameOf, Lookup, IsChain;
    var dir, name := Directory(d, L, [r]), ShortNameOf(s);
    NameWithoutZero(s);
    NewEntryFields(DOT_NAME, ATTR_DIRECTORY, r);
    NewEntryFields(DOTDOT_NAME, ATTR_DIRECTORY, parent);
    LookupMeans(dir, name);
    assert DOT_NAME[10] == 0 && DOTDOT_NAME[10] == 0 && name[10] in name;
    forall i | 0 <= i < |dir|
      ensures !Answers(dir[i], name)
    {
      assert dir[i][..11][10] == 0;
    }
  }

  // ----- every directory on the way is the one that changed, or shares nothing with it -----

  ghost predicate Apart(a: seq<nat>, b: seq<nat>) { a == b || Disjoint(a, b) }

  /** No directory met from `c` on is linked into the middle of `ch`, or the other way round. */
  ghost predicate Clear(d: Disk, L: Layout, c: nat, dirs: seq<seq<byte>>, ch: seq<nat>)
    requires L.Fits(|d|)
    decreases |dirs|
  {
    HasChain(Fat(d, L), c) ==>
      && Apart(ChainFrom(Fat(d, L), c), ch)
      && (dirs != [] && Entered(d, L, c, dirs[0]).Some? ==>
            Clear(d, L, Entered(d, L, c, dirs[0]).value, dirs[1..], ch))
  }

  /** Directory `ch` gained `entry` in a free slot, under a name it did not have. */
  ghost predicate Gained(L: Layout, d: Disk, e: Disk, ch: seq<nat>, i: nat, entry: Dirent)
  {
    && Saved(L, d, e, ch, i, entry)
    && entry[0] != 0 && Attr(entry) != ATTR_LFN && Lookup(Directory(d, L, ch), NameOf(entry)) == None
  }

  /** The chain of a clear directory stays, and so does every entry that a lookup finds in it. */
  lemma {:induction false} LookupKept(
    L: Layout, d: Disk, e: Disk, ch: seq<nat>, i: nat, entry: Dirent, c: nat, nm: Name)
    requires Gained(L, d, e, ch, i, entry)
    requires HasChain(Fat(d, L), c) && Apart(ChainFrom(Fat(d, L), c), ch)
    ensures HasChain(Fat(e, L), c) && ChainFrom(Fat(e, L), c) == ChainFrom(Fat(d, L), c)
    ensures Lookup(DirectoryAt(d, L, c), nm).Some? ==>
      && Lookup(DirectoryAt(e, L, c), nm) == Lookup(DirectoryAt(d, L, c), nm)
      && DirectoryAt(e, L, c)[Lookup(DirectoryAt(d, L, c), nm).value]
         == DirectoryAt(d, L, c)[Lookup(DirectoryAt(d, L, c), nm).value]
  {
    hide Content, DirOf, Fat, FindProbe, NothingNewFrom, NameOf;
    var o := ChainFrom(Fat(d, L), c);
    assert IsChain(Fat(e, L), o);
    ChainUnique(Fat(e, L), ChainFrom(Fat(e, L), c), o);
    if o == ch {
      InsertedKeepsFound(Directory(d, L, ch), i, entry, nm);
    }
  }

  /** Writing an entry into the first free slot moves no entry that a lookup finds. */
  lemma {:induction false} InsertedKeepsFound(dir: seq<Dirent>, i: nat, e: Dirent, nm: Name)
    requires FreeSlot(dir) == Some(i) && e[0] != 0 && Lookup(dir, NameOf(e)) == None
    ensures Lookup(dir, nm).Some? ==> Lookup(dir[i := e], nm) == Lookup(dir, nm) && Lookup(dir, nm) != Some(i)
  {
    if Lookup(dir, nm).Some? {
      InsertOther(dir, i, e, nm);
      assert FreeProbe()(dir[i]) == Take;
    }
  }

  lemma {:induction false} EnteredKept(
    L: Layout, d: Disk, e: Disk, ch: seq<nat>, i: nat, entry: Dirent, c: nat, component: seq<byte>)
    requires Gained(L, d, e, ch, i, entry)
    requires HasChain(Fat(d, L), c) && Apart(ChainFrom(Fat(d, L), c), ch)
    requires Entered(d, L, c, component).Some?
    ensures HasChain(Fat(e, L), c) && Entered(e, L, c, component) == Entered(d, L, c, component)
  {
    hide Gained, Lookup, Fat, DirectoryAt, ShortNameOf, IsDirectory, ClusterOf, Apart, HasChain;
    LookupKept(L, d, e, ch, i, entry, c, ShortNameOf(component));
  }

  /** A walk that succeeds and is clear of the changed directory still ends where it did. */
  lemma {:induction false} WalkKept(
    L: Layout, d: Disk, e: Disk, ch: seq<nat>, i: nat, entry: Dirent, c: nat, dirs: seq<seq<byte>>)
    requires Gained(L, d, e, ch, i, entry)
    requires Walkable(d, L, c, dirs) && Clear(d, L, c, dirs, ch) && Walk(d, L, c, dirs).Some?
    ensures Walkable(e, L, c, dirs) && Walk(e, L, c, dirs) == Walk(d, L, c, dirs)
    ensures Clear(d, L, Walk(d, L, c, dirs).value, [], ch)
    decreases |dirs|
  {
    hide Gained, Entered, Fat, HasChain, Apart;
    GainedFits(L, d, e, ch, i, entry);
    if dirs != [] {
      EnteredKept(L, d, e, ch, i, entry, c, dirs[0]);
      WalkKept(L, d, e, ch, i, entry, Entered(d, L, c, dirs[0]).value, dirs[1..]);
    }
  }

  /** The directories a path goes through are clear of `ch`. */
  ghost predicate ClearPath(d: Disk, L: Layout, path: seq<byte>, ch: seq<nat>)
    requires L.Fits(|d|)
  {
    |Stripped(path)| < BUFFER ==> Clear(d, L, L.root, DirsOf(Stripped(path)), ch)
  }

  /** A path that ends in a directory's name leads to the same directory and name as before. */
  lemma {:induction false} ParentKept(L: Layout, d: Disk, e: Disk, ch: seq<nat>, i: nat, entry: Dirent, path: seq<byte>)
    requires Gained(L, d, e, ch, i, entry)
    requires Reachable(d, L, path) && ClearPath(d, L, path, ch) && !TargetOf(d, L, path).Nothing?
    ensures Reachable(e, L, path) && ResolvedPath(e, L, path) == ResolvedPath(d, L, path)
    ensures var p := ResolvedPath(d, L, path).parent;
      && HasChain(Fat(d, L), p) && Apart(ChainFrom(Fat(d, L), p), ch)
      && HasChain(Fat(e, L), p) && ChainFrom(Fat(e, L), p) == ChainFrom(Fat(d, L), p)
  {
    hide Gained, Walk, Walkable, Fat, HasChain, Lookup, Components, ShortNameOf, Apart;
    GainedFits(L, d, e, ch, i, entry);
    WalkKept(L, d, e, ch, i, entry, L.root, DirsOf(Stripped(path)));
    var res := ResolvedPath(d, L, path);
    LookupKept(L, d, e, ch, i, entry, res.parent, res.name.value);
  }

  lemma {:induction false} GainedFits(L: Layout, d: Disk, e: Disk, ch: seq<nat>, i: nat, entry: Dirent)
    requires Gained(L, d, e, ch, i, entry)
    ensures L.Fits(|d|) && L.Fits(|e|)
  {
  }

  /** A lookup of another name, in the directory that changed or beside it. */
  lemma {:induction false} OtherLookup(
    L: Layout, d: Disk, e: Disk, ch: seq<nat>, i: nat, entry: Dirent, o: seq<nat>, nm: Name)
    requires Gained(L, d, e, ch, i, entry) && NothingBack(Directory(d, L, ch), i, NameOf(entry))
    requires IsChain(Fat(d, L), o) && Apart(o, ch) && (o != ch || nm != NameOf(entry))
    ensures Lookup(Directory(e, L, o), nm) == Lookup(Directory(d, L, o), nm)
  {
    hide Content, DirOf, Fat, FindProbe, NothingNewFrom, NameOf;
    if o == ch {
      InsertKeepsOthers(Directory(d, L, ch), i, entry);
    }
  }

  /**
   Every path that named an entry still names that entry; every path to a missing name but the
   created one still finds it missing, provided nothing forgotten comes back.
   */
  lemma {:induction false} OthersStillNamed(
    L: Layout, d: Disk, e: Disk, ch: seq<nat>, i: nat, entry: Dirent, path: seq<byte>)
    requires Gained(L, d, e, ch, i, entry)
    requires Reachable(d, L, path) && ClearPath(d, L, path, ch)
    requires !TargetOf(d, L, path).Nothing? && TargetOf(d, L, path) != Absent(ch, NameOf(entry))
    requires TargetOf(d, L, path).Existing? || NothingBack(Directory(d, L, ch), i, NameOf(entry))
    ensures Reachable(e, L, path) && TargetOf(e, L, path) == TargetOf(d, L, path)
  {
    hide Gained, Walk, Walkable, Fat, Lookup, Directory, Apart, Components, ShortNameOf, NothingBack, NameOf;
    GainedFits(L, d, e, ch, i, entry);
    ParentKept(L, d, e, ch, i, entry, path);
    var res := ResolvedPath(d, L, path);
    LookupKept(L, d, e, ch, i, entry, res.parent, res.name.value);
    if TargetOf(d, L, path).Absent? {
      OtherLookup(L, d, e, ch, i, entry, ChainFrom(Fat(d, L), res.parent), res.name.value);
    }
  }

  /** No lookup ever answers to a name that starts with the byte of deleted entries. */
  lemma {:induction false} DeletedNotFound(dir: seq<Dirent>, nm: Name)
    requires nm[0] == DELETED
    ensures Lookup(dir, nm) == None
  {
  }

  /**
   After a create through a path the path names the new entry, unless the name starts with the
   byte of deleted entries: then it goes on naming nothing, however often it is created.
   */
  lemma {:induction false} CreatedIsNamed(
    L: Layout, d: Disk, e: Disk, path: seq<byte>, ch: seq<nat>, name: Name, i: nat, attr: byte, r: nat)
    requires Reachable(d, L, path) && TargetOf(d, L, path) == Absent(ch, name) && ClearPath(d, L, path, ch)
    requires attr == ATTR_ARCHIVE || attr == ATTR_DIRECTORY
    requires r < U32 && Saved(L, d, e, ch, i, NewEntry(name, attr, r))
    ensures Reachable(e, L, path)
    ensures TargetOf(e, L, path) == if name[0] != DELETED then Existing(NewEntry(name, attr, r)) else Absent(ch, name)
  {
    hide Gained, Walk, Walkable, Components, ShortNameOf, Fat, Lookup, FreeSlot, Apart, NewEntry, NameOf, Attr,
      ClearPath, Content, DirOf;
    var dir, entry := Directory(d, L, ch), NewEntry(name, attr, r);
    CreatedGains(L, d, e, path, ch, name, i, attr, r);
    ParentKept(L, d, e, ch, i, entry, path);
    FoundOrNot(dir, i, name, attr, r);
    assert Directory(e, L, ch) == dir[i := entry];
    assert ch == ChainFrom(Fat(e, L), ResolvedPath(e, L, path).parent);
    assert name == ResolvedPath(e, L, path).name.value;
  }

  /** What a lookup of a new name says about the directory that got it. */
  lemma {:induction false} FoundOrNot(dir: seq<Dirent>, i: nat, name: Name, attr: byte, r: nat)
    requires r < U32 && name[0] != 0 && (attr == ATTR_ARCHIVE || attr == ATTR_DIRECTORY)
    requires FreeSlot(dir) == Some(i) && Lookup(dir, name) == None
    ensures i < |dir|
    ensures Lookup(dir[i := NewEntry(name, attr, r)], name) == if name[0] == DELETED then None else Some(i)
  {
    hide Lookup, NewEntry, Attr;
    var entry := NewEntry(name, attr, r);
    NewEntryFields(name, attr, r);
    assert entry[0] == NameOf(entry)[0];
    if name[0] == DELETED {
      DeletedNotFound(dir[i := entry], name);
    } else {
      InsertedIsFound(dir, i, entry);
    }
  }

  lemma {:induction false} CreatedGains(
    L: Layout, d: Disk, e: Disk, path: seq<byte>, ch: seq<nat>, name: Name, i: nat, attr: byte, r: nat)
    requires Reachable(d, L, path) && TargetOf(d, L, path) == Absent(ch, name)
    requires attr == ATTR_ARCHIVE || attr == ATTR_DIRECTORY
    requires r < U32 && Saved(L, d, e, ch, i, NewEntry(name, attr, r))
    ensures name[0] != 0 && Lookup(Directory(d, L, ch), name) == None
    ensures Gained(L, d, e, ch, i, NewEntry(name, attr, r))
  {
    hide Reachable, TargetOf, Saved, Lookup, NewEntry, Directory, IsChain, Fat;
    var entry := NewEntry(name, attr, r);
    AbsentName(d, L, path);
    NewEntryFields(name, attr, r);
    assert entry[0] == NameOf(entry)[0];
  }

  lemma {:induction false} CreatedIsSaved(L: Layout, d: Disk, e: Disk, ch: seq<nat>, i: nat, entry: Dirent, r: nat)
    requires Created(L, d, e, ch, i, entry, r)
    ensures r < U32 && Saved(L, d, e, ch, i, entry)
  {
    ClusterFits(L, d, e, ch, i, entry, r);
    FrameOthers(d, e, L, ch);
  }

  /**
   A missing file opened in mode `w` and then in mode `r`: the second call finds the cluster that
   the first one created, in another handle, and changes nothing on the volume. It fails only for
   want of a handle, or because the name starts with the byte of deleted entries.
   */
  method OpenTwice(fs: FatFs, files: seq<FileHandle>, path: seq<byte>)
    returns (first: FileHandle?, second: FileHandle?, r: nat, ghost i: nat)
    requires CanCreate(fs.disk, fs.L, path) && FreeCount(Fat(fs.disk, fs.L)) > 0
    requires ClearPath(fs.disk, fs.L, path, TargetOf(fs.disk, fs.L, path).dir)
    modifies fs`disk, set f | f in files
    ensures var t := TargetOf(old(fs.disk), fs.L, path);
      && Created(fs.L, old(fs.disk), fs.disk, t.dir, i, NewEntry(t.name, ATTR_ARCHIVE, r), r)
      && (first == null <==> forall f :: f in files ==> old(f.used))
      && (first != null ==> OpenedAt(first, r, 0, MODE_W))
      && (second == null <==> t.name[0] == DELETED || forall f :: f in files ==> old(f.used) || f == first)
      && (second != null ==> second != first && OpenedAt(second, r, 0, MODE_R))
  {
    hide Reachable, TargetOf, Saved, Lookup, NewEntry, Directory, IsChain, Fat, FreeCount, Created, ClearPath;
    CanCreateMeans(fs.disk, fs.L, path);
    ghost var d, t := fs.disk, TargetOf(fs.disk, fs.L, path);
    first, r, i := Open(fs, files, path, MODE_W);
    ghost var entry := NewEntry(t.name, ATTR_ARCHIVE, r);
    CreatedIsSaved(fs.L, d, fs.disk, t.dir, i, entry, r);
    CreatedIsNamed(fs.L, d, fs.disk, path, t.dir, t.name, i, ATTR_ARCHIVE, r);
    NewEntryFields(t.name, ATTR_ARCHIVE, r);
    var again, _, _ := Open(fs, files, path, MODE_R);
    second := again;
  }

  // ----- a file that exists -----

  /** The entry's chain is proper and holds the size that bytes 28 to 31 give. */
  ghost predicate SoundFile(d: Disk, L: Layout, e: Dirent, ch: seq<nat>)
  {
    L.Fits(|d|) && (Le(e[28..32]) > 0 ==>
      && IsChain(Fat(d, L), ch) && ch[0] == Le(e[26..28]) + 0x1_0000 * Le(e[20..22])
      && Le(e[28..32]) <= Capacity(L, ch))
  }

  /** An existing file opened by path and read from its start: its bytes, up to the size in its entry. */
  method Load(fs: FatFs, files: seq<FileHandle>, path: seq<byte>, n: nat, ghost ch: seq<nat>)
    returns (file: FileHandle?, data: seq<byte>)
    requires Reachable(fs.disk, fs.L, path) && TargetOf(fs.disk, fs.L, path).Existing? && n <= INT_MAX
    requires SoundFile(fs.disk, fs.L, TargetOf(fs.disk, fs.L, path).entry, ch)
    modifies fs`disk, set f | f in files
    ensures fs.disk == old(fs.disk) && (file == null <==> forall f :: f in files ==> old(f.used))
    ensures file != null ==> file in files && !old(file.used)
    ensures file != null ==>
      var size := Le(TargetOf(fs.disk, fs.L, path).entry[28..32]);
      && |data| == Min(n, size)
      && (size > 0 ==> Within(fs.L, ch) && size <= Capacity(fs.L, ch)
                       && data == Content(fs.disk, fs.L, ch)[..Min(n, size)])
  {
    hide Reachable, TargetOf, IsChain, Fat, Content, Capacity, Within, Le, CursorAt;
    ghost var e := TargetOf(fs.disk, fs.L, path).entry;
    data := [];
    var handle, _, _ := Open(fs, files, path, MODE_R);
    file := handle;
    if file == null { return; }
    OpenedReads(fs, file, e, MODE_R, ch);
    if Le(e[28..32]) > 0 {
      ChainInside(fs.disk, fs.L, ch);
    }
    var _, bytes := ReadInside(fs, file, n, ch);
    data := bytes;
  }

  /**
   A new file written through its handle and opened again by its path: no write reaches the size in
   the entry, so the read returns nothing, and the bytes come back exactly when there were none.
   */
  method SaveThenLoad(
    fs: FatFs, files: seq<FileHandle>, reader: FileHandle, path: seq<byte>, bufs: seq<seq<byte>>, n: nat)
    returns (file: FileHandle?, again: FileHandle?, data: seq<byte>)
    requires CanCreate(fs.disk, fs.L, path) && reader !in files && fs.L.spc > 0 && n <= INT_MAX
    requires |Total(bufs)| <= INT_MAX && Quot(|Total(bufs)|, fs.L.ClusterBytes()) < FreeCount(Fat(fs.disk, fs.L))
    requires ClearPath(fs.disk, fs.L, path, TargetOf(fs.disk, fs.L, path).dir)
    requires TargetOf(fs.disk, fs.L, path).name[0] != DELETED
    modifies fs`disk, reader, set f | f in files
    ensures file == null <==> forall f :: f in files ==> old(f.used)
    ensures again == null <==> forall f :: f in files ==> old(f.used) || f == file
    ensures again != null ==> again != file && data == [] && (data == Total(bufs) <==> Total(bufs) == [])
  {
    hide Reachable, TargetOf, IsChain, Fat, Content, Capacity, Within, Le, CursorAt, Saved, NewEntry, Layout.Fits,
      ClearPath, FreeCount, Total, Directory, FreeSlot;
    CanCreateMeans(fs.disk, fs.L, path);
    ghost var d, t := fs.disk, TargetOf(fs.disk, fs.L, path);
    again, data := null, [];
    var ret, back, r;
    ghost var i;
    file, ret, back, r, i := SaveNew(fs, files, reader, path, bufs);
    if file == null { return; }
    CreatedIsNamed(fs.L, d, fs.disk, path, t.dir, t.name, i, ATTR_ARCHIVE, r);
    FreshSize(fs.disk, fs.L, t.name, r);
    SavedFits(fs.L, d, fs.disk, t.dir, i, NewEntry(t.name, ATTR_ARCHIVE, r));
    again, data := Load(fs, files, path, n, []);
  }

  lemma {:induction false} FreshSize(d: Disk, L: Layout, name: Name, r: nat)
    requires r < U32
    ensures Le(NewEntry(name, ATTR_ARCHIVE, r)[28..32]) == 0
    ensures L.Fits(|d|) ==> SoundFile(d, L, NewEntry(name, ATTR_ARCHIVE, r), [])
  {
    hide NewEntry;
    NewEntryFields(name, ATTR_ARCHIVE, r);
  }

  lemma {:induction false} SavedFits(L: Layout, d: Disk, e: Disk, ch: seq<nat>, i: nat, entry: Dirent)
    requires Saved(L, d, e, ch, i, entry)
    ensures L.Fits(|e|)
  {
  }
}
