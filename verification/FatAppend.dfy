/** Opening for appending: the position goes to the end of the file, and the bytes go to its start. */
module FatAppend {
  import opened Bytes
  import opened FatTable
  import opened FatChain
  import opened FatContent
  import opened FatVolume
  import opened FatFile
  import opened FatWrite
  import opened FatOpen

  /** A pen on the first byte of a chain, whatever position it believes in, lays its bytes there. */
  lemma {:induction false} WritesAtStart(L: Layout, p: Pen, ch: seq<nat>, src: seq<byte>) returns (ch': seq<nat>)
    requires L.Fits(|p.disk|) && IsChain(Fat(p.disk, L), ch) && p.first == ch[0] && p.cluster == ch[0] && p.offset == 0
    requires src != [] && Room(L, p.disk, ch, 0, |src|)
    ensures var r := PenRun(L, p, src);
      && r.1 == |src| && Grown(L, p.disk, ch, r.0.disk, ch') && Within(L, ch) && Within(L, ch')
      && Overlaid(Content(p.disk, L, ch), Content(r.0.disk, L, ch'), 0, src)
  {
    hide Content, Fat, Grown, Overlaid, PenRun, Room, Writing, Capacity, CursorAt;
    AtStart(L, ch);
    var k, out;
    ch', k, out := ReadyOutcome(L, p, ch, 0, src);
    var r := PenRun(L, p, src);
    GoingExactly(L, p.disk, ch, r, ch', 0, src, k, out);
    GoingMeans(L, p.disk, ch, r, ch', 0, src, k);
  }

  lemma {:induction false} AtStart(L: Layout, ch: seq<nat>)
    requires ch != [] && L.spc > 0
    ensures CursorAt(L, ch, 0, ch[0], 0) && 0 < Capacity(L, ch)
  {
    CursorInside(L, ch, 0, 0);
    assert Position(L, 0, 0) == 0;
  }

  /**
   An existing file opened in mode `a` and written with room: position and size grow by the bytes
   written, and these lie over the start of the file.
   */
  method OpenAndAppend(fs: FatFs, files: seq<FileHandle>, path: seq<byte>, buffer: seq<byte>, ghost ch: seq<nat>)
    returns (file: FileHandle?, ret: int, ghost ch': seq<nat>)
    requires Reachable(fs.disk, fs.L, path) && TargetOf(fs.disk, fs.L, path).Existing?
    requires 0 < |buffer| <= INT_MAX && fs.L.Fits(|fs.disk|) && IsChain(Fat(fs.disk, fs.L), ch)
    requires var e := TargetOf(fs.disk, fs.L, path).entry;
      ch[0] == Le(e[26..28]) + 0x1_0000 * Le(e[20..22]) && Le(e[28..32]) + |buffer| < U32
    requires Room(fs.L, fs.disk, ch, 0, |buffer|)
    modifies fs`disk, set f | f in files
    ensures file == null <==> forall f :: f in files ==> old(f.used)
    ensures file == null ==> fs.disk == old(fs.disk)
    ensures file != null ==>
      var size := Le(TargetOf(old(fs.disk), fs.L, path).entry[28..32]);
      && ret == |buffer| && file.filePos == file.fileSize == size + |buffer|
      && Grown(fs.L, old(fs.disk), ch, fs.disk, ch') && Within(fs.L, ch) && Within(fs.L, ch')
      && Overlaid(Content(old(fs.disk), fs.L, ch), Content(fs.disk, fs.L, ch'), 0, buffer)
  {
    hide Reachable, TargetOf, IsChain, Fat, Content, Within, Le, Grown, Overlaid, PenRun, Room, Layout.Fits, Went;
    ret, ch' := 0, ch;
    var handle, _, _ := Open(fs, files, path, MODE_A);
    file := handle;
    if file == null { return; }
    ghost var p := PenOf(fs, file);
    ch' := WritesAtStart(fs.L, p, ch, buffer);
    RunPos(fs.L, p, buffer);
    WentFrom(p, PenRun(fs.L, p, buffer).0, |buffer|);
    TakeAll(buffer);
    ret := Write(fs, file, buffer, |buffer|);
  }

  lemma {:induction false} WentFrom(p: Pen, q: Pen, n: nat)
    requires Went(p.pos, p.size, n, q.pos, q.size) && p.pos == p.size && p.pos + n < U32
    ensures q.pos == q.size == p.pos + n
  {
  }

  /**
   So mode `a` appends exactly when the file was empty, for any bytes that do not happen to begin
   with the file's first byte.
   */
  lemma {:induction false} AppendsExactly(before: seq<byte>, after: seq<byte>, size: nat, buffer: seq<byte>)
    requires Overlaid(before, after, 0, buffer) && buffer != []
    requires size <= |before| && before != [] && before[0] != buffer[0] && size + |buffer| <= |after|
    ensures Overlaid(before, after, size, buffer) <==> size == 0
  {
    assert after[0] == after[0..|buffer|][0] == buffer[0];
  }
}
