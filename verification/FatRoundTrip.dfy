/** Laws that tie reads and writes together: split reads, runs of writes, and the round trip. */
module FatRoundTrip {
  import opened Bytes
  import opened FatTable
  import opened FatChain
  import opened FatContent
  import opened FatVolume
  import opened FatFile
  import opened FatWrite

  /**
   A read is cut at the file size exactly when pos + size fits in 32 bits or the file fills its
   clusters to the last byte; otherwise it runs on to the end of the chain.
   */
  lemma {:induction false} ReadCutAtSize(fileSize: nat, pos: nat, size: int, capacity: nat)
    requires pos < fileSize <= capacity && fileSize < U32
    requires 0 < size <= INT_MAX
    ensures ReadLength(fileSize, pos, size, capacity) == Min(size, fileSize - pos)
      <==> pos + size < U32 || capacity == fileSize
  {
    if pos + size >= U32 {
      assert (pos + size) % U32 == pos + size - U32;
    }
  }

  /** How far a read that does not wrap gets. */
  function Delivered(fileSize: nat, pos: nat, size: int): nat
  {
    if size <= 0 || pos >= fileSize then 0 else Min(size, fileSize - pos)
  }

  /** A proper file and a read of it that does not cross 2^32 in the slack behind it. */
  ghost predicate Inside(fs: FatFs, file: FileHandle, size: int, ch: seq<nat>)
    reads fs, file
  {
    && ReadHandle(fs, file, ch) && file.filePos <= file.fileSize && size <= INT_MAX
    && (file.filePos + size < U32 || Capacity(fs.L, ch) == file.fileSize)
  }

  /** A read of any handle; on a proper file, inside it, the flat bytes up to the file size. */
  method ReadInside(fs: FatFs, file: FileHandle, size: int, ghost ch: seq<nat>) returns (ret: int, data: seq<byte>)
    requires fs.L.spc > 0
    modifies file`currCluster, file`currOffset, file`filePos
    ensures !(file.used && file.mode == MODE_READ) ==> ret == -1 && data == [] && unchanged(file)
    ensures file.used && file.mode == MODE_READ && old(file.filePos) < U32 ==>
      0 <= ret == |data| && (size > 0 ==> ret <= size) && file.filePos == (old(file.filePos) + ret) % U32
    ensures file.used && file.mode == MODE_READ && old(Inside(fs, file, size, ch)) ==>
      var n := Delivered(file.fileSize, old(file.filePos), size);
      && ret == n
      && (n > 0 ==> Within(fs.L, ch) && old(file.filePos) + n <= Capacity(fs.L, ch)
                    && data == Content(fs.disk, fs.L, ch)[old(file.filePos)..old(file.filePos) + n])
      && file.filePos == old(file.filePos) + n <= file.fileSize
      && ReadHandle(fs, file, ch)
      && (size <= 0 || old(file.filePos) >= file.fileSize ==> unchanged(file))
  {
    hide CursorAt, Content, Capacity, IsChain, Fat, Layout.Fits;
    if Inside(fs, file, size, ch) && size > 0 && file.filePos < file.fileSize {
      ReadCutAtSize(file.fileSize, file.filePos, size, Capacity(fs.L, ch));
      ChainInside(fs.disk, fs.L, ch);
    }
    InThirtyTwo(if file.filePos < U32 then file.filePos else 0);
    ret, data := ReadFile(fs, file, size, ch);
  }

  /** Two handles that stand at the same place of the same file. */
  ghost predicate SamePlace(a: FileHandle, b: FileHandle)
    reads a, b
  {
    && a.used == b.used && a.mode == b.mode && a.firstCluster == b.firstCluster && a.fileSize == b.fileSize
    && a.filePos == b.filePos && a.currCluster == b.currCluster && a.currOffset == b.currOffset
  }

  lemma {:induction false} CursorUnique(L: Layout, ch: seq<nat>, p: nat, c: nat, o: nat, c': nat, o': nat)
    requires CursorAt(L, ch, p, c, o) && CursorAt(L, ch, p, c', o')
    ensures c == c' && o == o'
  {
  }

  /** The bytes that a read of `size` at `pos` has to deliver. */
  ghost function Piece(c: seq<byte>, fileSize: nat, pos: nat, size: nat): seq<byte>
    requires fileSize <= |c|
  {
    c[Min(pos, fileSize)..Min(pos + size, fileSize)]
  }

  lemma {:induction false} PiecesJoin(c: seq<byte>, fileSize: nat, pos: nat, n: nat, m: nat)
    requires pos <= fileSize <= |c|
    ensures var first := Piece(c, fileSize, pos, n);
      first + Piece(c, fileSize, pos + |first|, m) == Piece(c, fileSize, pos, n + m)
  {
    var k := Min(pos + n, fileSize) - pos;
    SlicesJoin(c, pos, k, Min(pos + k + m, fileSize) - (pos + k));
  }

  /** A read inside a file, as a piece of its content. */
  method ReadPiece(fs: FatFs, file: FileHandle, size: nat, ghost ch: seq<nat>, ghost c: seq<byte>)
    returns (data: seq<byte>)
    requires file.used && file.mode == MODE_READ && Inside(fs, file, size, ch)
    requires IsContent(fs, file.fileSize, ch, c)
    modifies file`currCluster, file`currOffset, file`filePos
    ensures data == Piece(c, file.fileSize, old(file.filePos), size) && |data| <= size
    ensures file.filePos == old(file.filePos) + |data| <= file.fileSize && ReadHandle(fs, file, ch)
    ensures file.fileSize == 0 ==> unchanged(file)
  {
    hide CursorAt, Content, IsChain, Fat;
    var _, bytes := ReadInside(fs, file, size, ch);
    data := bytes;
  }

  /** The flat content of the chain of a file of this size; an empty file need not have a chain. */
  ghost predicate IsContent(fs: FatFs, fileSize: nat, ch: seq<nat>, c: seq<byte>)
    reads fs
  {
    && fileSize <= |c|
    && (fileSize > 0 ==> fs.L.Fits(|fs.disk|) && Within(fs.L, ch) && c == Content(fs.disk, fs.L, ch))
  }

  /** Reading twice gives the bytes of one joined read and leaves the handle at the same place. */
  method ReadTwice(fs: FatFs, a: FileHandle, b: FileHandle, n: nat, m: nat, ghost ch: seq<nat>)
    returns (twice: seq<byte>, once: seq<byte>)
    requires a != b && SamePlace(a, b) && a.used && a.mode == MODE_READ && Inside(fs, a, n + m, ch)
    modifies a`currCluster, a`currOffset, a`filePos, b`currCluster, b`currOffset, b`filePos
    ensures twice == once && SamePlace(a, b)
  {
    hide Capacity, ReadHandle, Inside, Piece, IsContent, Delivered;
    LessInside(fs, a, n, n + m, ch);
    HandleCopied(fs, a, b, n + m, ch);
    ghost var c := ContentOf(fs, a, ch);
    PiecesJoin(c, a.fileSize, a.filePos, n, m);
    var first := ReadPiece(fs, a, n, ch, c);
    IsInside(fs, a, m, ch);
    var second := ReadPiece(fs, a, m, ch, c);
    once := ReadPiece(fs, b, n + m, ch, c);
    twice := first + second;
    if a.fileSize > 0 {
      MeetAgain(fs, a, b, ch);
    }
  }

  lemma {:induction false} ContentOf(fs: FatFs, file: FileHandle, ch: seq<nat>) returns (c: seq<byte>)
    requires ReadHandle(fs, file, ch)
    ensures file.fileSize <= |c| && IsContent(fs, file.fileSize, ch, c)
  {
    c := [];
    if file.fileSize > 0 {
      ChainInside(fs.disk, fs.L, ch);
      c := Content(fs.disk, fs.L, ch);
    }
  }

  /** Two handles on one file at the same position have the same cursor. */
  lemma {:induction false} MeetAgain(fs: FatFs, a: FileHandle, b: FileHandle, ch: seq<nat>)
    requires ReadHandle(fs, a, ch) && ReadHandle(fs, b, ch) && a.filePos == b.filePos
    requires a.fileSize > 0 && b.fileSize > 0
    ensures a.currCluster == b.currCluster && a.currOffset == b.currOffset
    ensures fs.L.Fits(|fs.disk|) && Within(fs.L, ch) && a.filePos <= Capacity(fs.L, ch)
  {
    hide CursorAt;
    CursorUnique(fs.L, ch, a.filePos, a.currCluster, a.currOffset, b.currCluster, b.currOffset);
  }

  lemma {:induction false} HandleCopied(fs: FatFs, a: FileHandle, b: FileHandle, size: int, ch: seq<nat>)
    requires Inside(fs, a, size, ch) && SamePlace(a, b)
    ensures Inside(fs, b, size, ch) && fs.L.spc > 0
  {
  }

  lemma {:induction false} LessInside(fs: FatFs, file: FileHandle, size: int, more: int, ch: seq<nat>)
    requires Inside(fs, file, more, ch) && size <= more
    ensures Inside(fs, file, size, ch) && ReadHandle(fs, file, ch) && file.filePos <= file.fileSize < U32
    ensures more <= INT_MAX && (file.filePos + more < U32 || Capacity(fs.L, ch) == file.fileSize)
  {
  }

  lemma {:induction false} IsInside(fs: FatFs, file: FileHandle, size: int, ch: seq<nat>)
    requires ReadHandle(fs, file, ch) && file.filePos <= file.fileSize && size <= INT_MAX
    requires file.filePos + size < U32 || Capacity(fs.L, ch) == file.fileSize
    ensures Inside(fs, file, size, ch)
  {
  }

  lemma {:induction false} OverlaidTrans(x: seq<byte>, y: seq<byte>, z: seq<byte>, pos: nat, a: seq<byte>, b: seq<byte>)
    requires Overlaid(x, y, pos, a) && Overlaid(y, z, pos + |a|, b)
    ensures Overlaid(x, z, pos, a + b)
  {
    forall i | 0 <= i < |a + b|
      ensures z[pos..pos + |a + b|][i] == (a + b)[i]
    {
      if i < |a| {
        assert y[pos..pos + |a|][i] == a[i];
        assert z[pos + i] == y[pos + i];
      } else {
        assert z[pos + |a|..pos + |a| + |b|][i - |a|] == b[i - |a|];
      }
    }
  }

  lemma {:induction false} GrownTrans(
    L: Layout, d0: Disk, ch0: seq<nat>, d1: Disk, ch1: seq<nat>, d2: Disk, ch2: seq<nat>)
    requires Grown(L, d0, ch0, d1, ch1) && Grown(L, d1, ch1, d2, ch2)
    ensures Grown(L, d0, ch0, d2, ch2)
  {
    forall i | |ch0| <= i < |ch2|
      ensures ch2[i] < L.limit && Fat(d0, L)[ch2[i]] == FREE_CLUSTER
    {
      if i >= |ch1| {
        assert 2 <= ch2[i];
        StillFree(L, d0, ch0, d1, ch1, ch2[i]);
      } else {
        assert ch2[i] == ch1[i];
      }
    }
    forall c | 2 <= c < L.limit && c !in ch0 && FatEntry(d0, L, c) != FREE_CLUSTER
      ensures Untouched(d0, d2, L, c)
    {
      assert Untouched(d0, d1, L, c);
      assert c !in ch1;
      assert Untouched(d1, d2, L, c);
    }
  }

  function Total(bufs: seq<seq<byte>>): seq<byte>
  {
    if bufs == [] then [] else bufs[0] + Total(bufs[1..])
  }

  /** The volume and the content after `done` was written from `pos` on. */
  ghost predicate Written(L: Layout, d0: Disk, ch0: seq<nat>, d: Disk, ch: seq<nat>, pos: nat, done: seq<byte>)
  {
    && Grown(L, d0, ch0, d, ch)
    && Within(L, ch0) && Within(L, ch)
    && Overlaid(Content(d0, L, ch0), Content(d, L, ch), pos, done)
  }

  lemma {:induction false} WrittenNothing(L: Layout, d: Disk, ch: seq<nat>, pos: nat)
    requires L.Fits(|d|) && (ch == [] || IsChain(Fat(d, L), ch)) && pos <= Capacity(L, ch)
    ensures Written(L, d, ch, d, ch, pos, [])
  {
    FrameReflexive(d, L, ch);
  }

  lemma {:induction false} WrittenMore(
    L: Layout, d0: Disk, ch0: seq<nat>, d1: Disk, ch1: seq<nat>, d2: Disk, ch2: seq<nat>, pos: nat, a: seq<byte>,
    b: seq<byte>)
    requires Written(L, d0, ch0, d1, ch1, pos, a)
    requires Grown(L, d1, ch1, d2, ch2) && Within(L, ch2)
    requires Overlaid(Content(d1, L, ch1), Content(d2, L, ch2), pos + |a|, b)
    ensures Written(L, d0, ch0, d2, ch2, pos, a + b)
  {
    GrownTrans(L, d0, ch0, d1, ch1, d2, ch2);
    OverlaidTrans(Content(d0, L, ch0), Content(d1, L, ch1), Content(d2, L, ch2), pos, a, b);
  }

  /** What was not used of the room is still there. */
  lemma {:induction false} RoomLeft(
    L: Layout, d0: Disk, ch0: seq<nat>, d: Disk, ch: seq<nat>, pos: nat, a: seq<byte>, n: nat, all: nat)
    requires Written(L, d0, ch0, d, ch, pos, a) && Room(L, d0, ch0, pos, all) && |a| + n <= all
    ensures Room(L, d, ch, pos + |a|, n)
  {
    QuotMono(pos + |a| + n, pos + all, L.ClusterBytes());
  }

  lemma {:induction false} HandleBounds(fs: FatFs, file: FileHandle, ch: seq<nat>)
    requires WriteHandle(fs, file, ch)
    ensures file.filePos <= file.fileSize < U32
  {
  }

  lemma {:induction false} TotalIs(bufs: seq<seq<byte>>)
    ensures Total(bufs) == if bufs == [] then [] else bufs[0] + Total(bufs[1..])
  {
  }

  /** One more write of a run that has put `done` down so far. */
  method WriteOne(
    fs: FatFs, file: FileHandle, buf: seq<byte>, ghost d0: Disk, ghost ch0: seq<nat>, ghost ch: seq<nat>,
    ghost pos: nat, ghost done: seq<byte>, ghost all: nat)
    returns (ghost ch': seq<nat>)
    requires WriteHandle(fs, file, ch) && file.used && file.mode == MODE_WRITE
    requires file.filePos == pos + |done| && |done| + |buf| <= all && pos + all < U32
    requires Written(fs.L, d0, ch0, fs.disk, ch, pos, done) && Room(fs.L, d0, ch0, pos, all)
    modifies fs`disk, file`firstCluster, file`currCluster, file`currOffset, file`filePos, file`fileSize
    ensures WriteHandle(fs, file, ch')
    ensures file.filePos == old(file.filePos) + |buf|
    ensures file.fileSize == Max(file.filePos, old(file.fileSize))
    ensures Written(fs.L, d0, ch0, fs.disk, ch', pos, done + buf)
  {
    hide *;
    ghost var d1 := fs.disk;
    HandleBounds(fs, file, ch);
    RoomLeft(fs.L, d0, ch0, d1, ch, pos, done, |buf|, all);
    var ret;
    ret, ch' := WriteInRoom(fs, file, buf, ch);
    if buf != [] {
      WrittenMore(fs.L, d0, ch0, d1, ch, fs.disk, ch', pos, done, buf);
    } else {
      ConcatEmpty(done);
    }
  }

  /** A run of writes through one handle is one write of all the bytes. */
  method WriteRun(
    fs: FatFs, file: FileHandle, bufs: seq<seq<byte>>, ghost d0: Disk, ghost ch0: seq<nat>, ghost ch: seq<nat>,
    ghost pos: nat, ghost done: seq<byte>, ghost all: nat)
    returns (ghost ch': seq<nat>)
    requires WriteHandle(fs, file, ch) && file.used && file.mode == MODE_WRITE
    requires file.filePos == pos + |done| && |done| + |Total(bufs)| <= all && pos + all < U32
    requires Written(fs.L, d0, ch0, fs.disk, ch, pos, done) && Room(fs.L, d0, ch0, pos, all)
    modifies fs`disk, file`firstCluster, file`currCluster, file`currOffset, file`filePos, file`fileSize
    ensures WriteHandle(fs, file, ch')
    ensures file.filePos == old(file.filePos) + |Total(bufs)|
    ensures file.fileSize == Max(file.filePos, old(file.fileSize))
    ensures Written(fs.L, d0, ch0, fs.disk, ch', pos, done + Total(bufs))
    decreases |bufs|
  {
    hide *;
    HandleBounds(fs, file, ch);
    TotalIs(bufs);
    if bufs == [] {
      ConcatEmpty(done);
      ch' := ch;
    } else {
      ch' := WriteOne(fs, file, bufs[0], d0, ch0, ch, pos, done, all);
      ch' := WriteRun(fs, file, bufs[1..], d0, ch0, ch', pos, done + bufs[0], all);
      ConcatAssociates(done, bufs[0], Total(bufs[1..]));
    }
  }

  /** A read handle put on the first cluster and size of a file just written from its start. */
  method ReadBack(fs: FatFs, file: FileHandle, reader: FileHandle, ghost ch: seq<nat>, ghost total: seq<byte>)
    returns (ret: int, back: seq<byte>)
    requires reader != file && WriteHandle(fs, file, ch) && Within(fs.L, ch)
    requires file.filePos == file.fileSize == |total| <= INT_MAX
    requires |total| <= |Content(fs.disk, fs.L, ch)| && Content(fs.disk, fs.L, ch)[0..|total|] == total
    modifies reader
    ensures ret == |total| && back == total
  {
    reader.used, reader.mode := true, MODE_READ;
    reader.firstCluster, reader.currCluster := file.firstCluster, file.firstCluster;
    reader.currOffset, reader.fileSize, reader.filePos := 0, file.fileSize, 0;
    if ch != [] {
      CursorInside(fs.L, ch, 0, 0);
    }
    assert ReadHandle(fs, reader, ch);
    hide ReadHandle, WriteHandle, Fat, IsChain, CursorAt, Content, Capacity;
    ret, back := ReadFile(fs, reader, file.fileSize, ch);
  }

  /**
   Through a fresh handle of mode `w` whatever is written, in any number of pieces, is what a read
   handle on the same first cluster and size delivers, while every other chain keeps its links and
   its content.
   */
  method WriteThenRead(fs: FatFs, file: FileHandle, reader: FileHandle, bufs: seq<seq<byte>>, ghost ch: seq<nat>)
    returns (ret: int, back: seq<byte>)
    requires reader != file && file.used && file.mode == MODE_WRITE
    requires WriteHandle(fs, file, ch) && file.filePos == 0 && file.fileSize == 0
    requires |Total(bufs)| <= INT_MAX && Room(fs.L, fs.disk, ch, 0, |Total(bufs)|)
    modifies fs`disk, reader, file`firstCluster, file`currCluster, file`currOffset, file`filePos, file`fileSize
    ensures ret == |Total(bufs)| && back == Total(bufs)
    ensures OthersKept(old(fs.disk), fs.disk, fs.L, ch)
  {
    ghost var d0, total := fs.disk, Total(bufs);
    WrittenNothing(fs.L, d0, ch, 0);
    ghost var ch' := WriteRun(fs, file, bufs, d0, ch, ch, 0, [], |total|);
    ConcatEmpty(total);
    FrameOthers(d0, fs.disk, fs.L, ch);
    hide CursorAt, Room, Fat, FreeCount, Frame, IsChain, Capacity, OthersKept;
    ret, back := ReadBack(fs, file, reader, ch', total);
  }
}
