/** Open files: the read cursor over a chain. */
module FatFile {
  import opened Bytes
  import opened FatTable
  import opened FatChain
  import opened FatContent
  import opened FatVolume

  const MODE_READ := 0
  const MODE_WRITE := 1
  const INT_MAX := 0x7FFF_FFFF

  class FileHandle {
    var used: bool
    var mode: nat
    var firstCluster: nat
    var currCluster: nat
    var currOffset: nat
    var fileSize: nat
    var filePos: nat

    constructor ()
      ensures !used && mode == 0 && firstCluster == 0 && currCluster == 0 && currOffset == 0 && fileSize == 0
        && filePos == 0
    {
      used, mode, firstCluster, currCluster, currOffset, fileSize, filePos := false, 0, 0, 0, 0, 0, 0;
    }
  }

  /**
   The cursor of flat position `p`: the cluster of index p / cluster size and the rest as offset;
   at the very end of the chain, no cluster and offset 0.
   */
  ghost predicate CursorAt(L: Layout, ch: seq<nat>, p: nat, cluster: nat, offset: nat)
  {
    && L.spc > 0
    && offset == Rem(p, L.ClusterBytes())
    && var k := Quot(p, L.ClusterBytes());
      if k < |ch| then cluster == ch[k] else k == |ch| && offset == 0 && cluster == NO_CLUSTER
  }

  /** The same in terms of integer division. */
  lemma {:induction false} CursorIsDivMod(L: Layout, ch: seq<nat>, p: nat, cluster: nat, offset: nat)
    requires CursorAt(L, ch, p, cluster, offset)
    ensures var bpc := L.ClusterBytes();
      && offset == p % bpc
      && 0 <= p / bpc <= |ch|
      && cluster == if p / bpc < |ch| then ch[p / bpc] else NO_CLUSTER
  {
    QuotRemAreDivMod(p, L.ClusterBytes());
  }

  lemma {:induction false} PositionOf(L: Layout, k: nat, off: nat)
    ensures Position(L, k, off) == Times(k, L.ClusterBytes()) + off
  {
    if k > 0 {
      PositionOf(L, k - 1, off);
    }
  }

  lemma {:induction false} CursorInside(L: Layout, ch: seq<nat>, k: nat, off: nat)
    requires k < |ch| && off < L.ClusterBytes()
    ensures CursorAt(L, ch, Position(L, k, off), ch[k], off)
    ensures Position(L, k, off) < Capacity(L, ch)
  {
    PositionOf(L, k, off);
    QuotRemOf(k, off, L.ClusterBytes());
    TimesMono(k, |ch|, L.spc);
  }

  lemma {:induction false} CursorEnd(L: Layout, ch: seq<nat>)
    requires L.spc >= 1
    ensures CursorAt(L, ch, Capacity(L, ch), NO_CLUSTER, 0) && Position(L, |ch|, 0) == Capacity(L, ch)
  {
    PositionOf(L, |ch|, 0);
    QuotRemOf(|ch|, 0, L.ClusterBytes());
  }

  lemma {:induction false} CursorIndex(L: Layout, ch: seq<nat>, p: nat, cluster: nat, offset: nat) returns (k: nat)
    requires CursorAt(L, ch, p, cluster, offset) && p < Capacity(L, ch)
    ensures k < |ch| && offset < L.ClusterBytes()
    ensures cluster == ch[k] && p == Position(L, k, offset)
  {
    k := Quot(p, L.ClusterBytes());
    PositionOf(L, |ch|, 0);
    QuotBound(p, |ch|, L.ClusterBytes());
    QuotRem(p, L.ClusterBytes());
    PositionOf(L, k, offset);
  }

  /** The place of a cursor on a proper chain. */
  lemma {:induction false} CursorPlace(d: Disk, L: Layout, ch: seq<nat>, p: nat, cluster: nat, offset: nat)
    returns (k: nat)
    requires L.Fits(|d|) && IsChain(Fat(d, L), ch) && CursorAt(L, ch, p, cluster, offset) && p < Capacity(L, ch)
    ensures L.spc >= 1 && k < |ch| && offset < L.ClusterBytes() && Within(L, ch)
    ensures 2 <= cluster == ch[k] && cluster != NO_CLUSTER && p == Position(L, k, offset)
  {
    k := CursorIndex(L, ch, p, cluster, offset);
  }

  lemma {:induction false} ChainNext(d: Disk, L: Layout, ch: seq<nat>, k: nat)
    requires L.Fits(|d|) && IsChain(Fat(d, L), ch) && k < |ch|
    ensures Next(FatEntry(d, L, ch[k])) == if k + 1 < |ch| then ch[k + 1] else NO_CLUSTER
    ensures k + 1 < |ch| ==> ch[k + 1] != NO_CLUSTER
  {
    ChainStep(Fat(d, L), ch, k);
  }

  lemma {:induction false} PositionOn(L: Layout, k: nat, offset: nat, n: nat)
    ensures Position(L, k, offset) + n == Position(L, k, offset + n)
  {
  }

  /** Leaving cluster `k` lands on the start of the next. */
  lemma {:induction false} NextPosition(L: Layout, k: nat)
    ensures Position(L, k, L.ClusterBytes()) == Position(L, k + 1, 0)
  {
  }

  /**
   How many bytes a read delivers. The sum pos + size is taken in 32 bits, so it can wrap, in
   which case the request is not cut at the file size but only at the end of the chain.
   */
  function ReadLength(fileSize: nat, pos: nat, size: int, capacity: nat): (n: nat)
    requires pos < fileSize ==> pos <= capacity
    ensures size > 0 && pos < fileSize ==> pos + n <= capacity && n <= size
  {
    if size <= 0 || pos >= fileSize then 0
    else
      var want := if (pos + size) % U32 > fileSize then fileSize - pos else size;
      if want <= capacity - pos then want else capacity - pos
  }

  /** A handle whose cursor agrees with its flat position in `ch`; size 0 needs no chain. */
  ghost predicate ReadHandle(fs: FatFs, file: FileHandle, ch: seq<nat>)
    reads fs, file
  {
    && fs.L.Fits(|fs.disk|)
    && file.filePos < U32 && file.fileSize < U32
    && (file.fileSize > 0 ==>
         && IsChain(Fat(fs.disk, fs.L), ch)
         && file.firstCluster == ch[0]
         && file.fileSize <= Capacity(fs.L, ch)
         && file.filePos <= Capacity(fs.L, ch)
         && CursorAt(fs.L, ch, file.filePos, file.currCluster, file.currOffset))
  }

  // ----- the copy loop as a value -----

  /** Where a handle stands. */
  datatype Cursor = Cursor(cluster: nat, offset: nat)

  /** How many of `n` bytes lie in the sector of this offset. */
  function PieceLength(offset: nat, n: nat): (k: nat)
    ensures k <= n && offset % 512 + k <= 512 && (n > 0 ==> k > 0)
  {
    if n < 512 - offset % 512 then n else 512 - offset % 512
  }

  /** `k` links on from a cluster, as a read follows them for an offset past its cluster; nothing at an end. */
  function Hop(d: Disk, L: Layout, c: nat, k: nat): Option<nat>
    decreases k
  {
    if k == 0 then Some(c)
    else
      var n := Next(FatEntry(d, L, c));
      if n == NO_CLUSTER then None else Hop(d, L, n, k - 1)
  }

  /** The sector a read takes its next bytes from, if the device has it. */
  function ReadSector(d: Disk, L: Layout, cur: Cursor): (s: Option<nat>)
    requires L.spc > 0
    ensures s.Some? ==> s.value < |d|
  {
    var t := Hop(d, L, cur.cluster, cur.offset / L.ClusterBytes());
    if t.None? then None
    else
      var s := Address(L, t.value, cur.offset % L.ClusterBytes() / 512);
      if s < |d| then Some(s) else None
  }

  /** `n` bytes on, to the next cluster at the end of one; the offset has 32 bits. */
  function Moved(d: Disk, L: Layout, cur: Cursor, n: nat): Cursor
  {
    var offset := (cur.offset + n) % U32;
    if offset < L.ClusterBytes() then Cursor(cur.cluster, offset)
    else Cursor(Next(FatEntry(d, L, cur.cluster)), 0)
  }

  /** The bytes the loop copies from this cursor on, and the cursor it ends with. */
  function ReadRun(d: Disk, L: Layout, cur: Cursor, left: nat): (r: (seq<byte>, Cursor))
    requires L.spc > 0
    ensures |r.0| <= left
    decreases left
  {
    var s := ReadSector(d, L, cur);
    if left == 0 || s.None? then ([], cur)
    else
      var at, n := cur.offset % 512, PieceLength(cur.offset, left);
      var chunk, next := d[s.value][at..at + n], Moved(d, L, cur, n);
      if (cur.offset + n) % U32 >= L.ClusterBytes() && next.cluster == NO_CLUSTER then (chunk, next)
      else
        var r := ReadRun(d, L, next, left - n);
        (chunk + r.0, r.1)
  }

  // ----- the copy loop on the disk -----

  /** Following the links. */
  method Follow(fs: FatFs, cluster: nat, k: nat) returns (target: Option<nat>)
    ensures target == Hop(fs.disk, fs.L, cluster, k)
  {
    hide FatEntry;
    var c, i := cluster, 0;
    while i < k
      invariant 0 <= i <= k
      invariant Hop(fs.disk, fs.L, cluster, k) == Hop(fs.disk, fs.L, c, k - i)
    {
      c := fs.NextCluster(c);
      if c == NO_CLUSTER {
        return None;
      }
      i := i + 1;
    }
    target := Some(c);
  }

  method SectorToRead(fs: FatFs, cluster: nat, offset: nat) returns (sector: Option<nat>)
    requires fs.L.spc > 0
    ensures sector == ReadSector(fs.disk, fs.L, Cursor(cluster, offset))
  {
    hide Hop;
    var clusterOffset := offset / fs.L.ClusterBytes();
    var sectorInCluster := offset % fs.L.ClusterBytes() / SECTOR_SIZE;
    var target := Follow(fs, cluster, clusterOffset);
    if target.None? {
      return None;
    }
    var s := (fs.L.dataStart + (target.value - 2) * fs.L.spc + sectorInCluster) % U32;
    sector := if s < |fs.disk| then Some(s) else None;
  }

  /** The copy loop, from any cursor on any volume. */
  method ReadLoop(fs: FatFs, cluster0: nat, offset0: nat, size: nat)
    returns (data: seq<byte>, cluster: nat, offset: nat)
    requires fs.L.spc > 0
    ensures (data, Cursor(cluster, offset)) == ReadRun(fs.disk, fs.L, Cursor(cluster0, offset0), size)
  {
    hide ReadSector, Next, FatEntry, ReadRun;
    cluster, offset, data := cluster0, offset0, [];
    var left := size;
    ConcatEmpty(ReadRun(fs.disk, fs.L, Cursor(cluster0, offset0), size).0);
    while left > 0
      invariant 0 <= left <= size
      invariant var r := ReadRun(fs.disk, fs.L, Cursor(cluster, offset), left);
        ReadRun(fs.disk, fs.L, Cursor(cluster0, offset0), size) == (data + r.0, r.1)
    {
      ghost var cur := Cursor(cluster, offset);
      ghost var all := ReadRun(fs.disk, fs.L, cur, left);
      var sector := SectorToRead(fs, cluster, offset);
      if sector.None? {
        NoSector(fs.disk, fs.L, cur, left);
        ConcatEmpty(data);
        return;
      }
      ReadRunStep(fs.disk, fs.L, cur, left);
      var offsetInSector := offset % SECTOR_SIZE;
      var bytesInSector := SECTOR_SIZE - offsetInSector;
      var toCopy := if left < bytesInSector then left else bytesInSector;
      var chunk := fs.disk[sector.value][offsetInSector..offsetInSector + toCopy];
      offset := (offset + toCopy) % U32;
      if offset >= fs.L.ClusterBytes() {
        offset := 0;
        cluster := fs.NextCluster(cluster);
        if cluster == NO_CLUSTER {
          data := data + chunk;
          return;
        }
      }
      ghost var rest := ReadRun(fs.disk, fs.L, Cursor(cluster, offset), left - toCopy);
      assert all == (chunk + rest.0, rest.1);
      ConcatAssociates(data, chunk, rest.0);
      data := data + chunk;
      left := left - toCopy;
    }
    NothingToRead(fs.disk, fs.L, Cursor(cluster, offset));
    ConcatEmpty(data);
  }

  lemma {:induction false} NoSector(d: Disk, L: Layout, cur: Cursor, left: nat)
    requires L.spc > 0 && ReadSector(d, L, cur).None?
    ensures ReadRun(d, L, cur, left) == ([], cur)
  {
  }

  // ----- what it means on a chain -----

  /** The next piece is a piece of the content. */
  lemma {:induction false} PieceRead(d: Disk, L: Layout, ch: seq<nat>, p: nat, cur: Cursor, left: nat)
    requires L.Fits(|d|) && IsChain(Fat(d, L), ch) && CursorAt(L, ch, p, cur.cluster, cur.offset)
    requires p < Capacity(L, ch) && left > 0
    ensures var n := PieceLength(cur.offset, left);
      && cur.offset + n <= L.ClusterBytes() && p + n <= Capacity(L, ch) && Within(L, ch)
      && var s := ReadSector(d, L, cur);
         && s.Some?
         && d[s.value][cur.offset % 512..cur.offset % 512 + n] == Content(d, L, ch)[p..p + n]
  {
    hide Fat, IsChain, CursorAt, Content, Capacity, Position, SectorNo, Address, Layout.Fits;
    var k := CursorPlace(d, L, ch, p, cur.cluster, cur.offset);
    DivModUnique(cur.offset, 0, cur.offset, L.ClusterBytes());
    assert cur.offset / 512 < L.spc;
    AddressInside(L, |d|, cur.cluster, cur.offset / 512);
    var n := PieceLength(cur.offset, left);
    PieceInCluster(L, cur.offset, n);
    SectorSlice(d, L, ch, k, cur.offset, n);
  }

  /** A piece ends with its sector, and so inside the cluster. */
  lemma {:induction false} PieceInCluster(L: Layout, offset: nat, n: nat)
    requires offset < L.ClusterBytes() && offset % 512 + n <= 512
    ensures offset + n <= L.ClusterBytes()
  {
    assert L.ClusterBytes() == 512 * L.spc;
    assert offset / 512 < L.spc;
  }

  /** The cursor moves with the position, and to the end value exactly at the end of the chain. */
  lemma {:induction false} MovedAlong(d: Disk, L: Layout, ch: seq<nat>, p: nat, cur: Cursor, n: nat)
    requires L.Fits(|d|) && IsChain(Fat(d, L), ch) && CursorAt(L, ch, p, cur.cluster, cur.offset)
    requires p < Capacity(L, ch) && cur.offset + n <= L.ClusterBytes()
    ensures var m := Moved(d, L, cur, n);
      && CursorAt(L, ch, p + n, m.cluster, m.offset)
      && (m.cluster == NO_CLUSTER <==> p + n == Capacity(L, ch))
      && ((cur.offset + n) % U32 >= L.ClusterBytes() <==> cur.offset + n == L.ClusterBytes())
  {
    hide Fat, IsChain, CursorAt, Content, Position, Capacity, Next, FatEntry;
    var k := CursorPlace(d, L, ch, p, cur.cluster, cur.offset);
    ChainNext(d, L, ch, k);
    PositionOn(L, k, cur.offset, n);
    InThirtyTwo(cur.offset + n);
    if cur.offset + n >= L.ClusterBytes() {
      NextPosition(L, k);
      if k + 1 == |ch| {
        CursorEnd(L, ch);
      } else {
        CursorInside(L, ch, k + 1, 0);
      }
    } else {
      CursorInside(L, ch, k, cur.offset + n);
    }
  }

  /** From the cursor of `p`, up to `left` bytes or the end of the chain. */
  lemma {:induction false} ReadRunContent(d: Disk, L: Layout, ch: seq<nat>, p: nat, cur: Cursor, left: nat)
    requires L.Fits(|d|) && IsChain(Fat(d, L), ch) && CursorAt(L, ch, p, cur.cluster, cur.offset) && p < Capacity(L, ch)
    ensures L.spc > 0 && Within(L, ch)
    ensures var r := ReadRun(d, L, cur, left);
      && |r.0| == Min(left, Capacity(L, ch) - p)
      && r.0 == Content(d, L, ch)[p..p + |r.0|]
      && CursorAt(L, ch, p + |r.0|, r.1.cluster, r.1.offset)
    decreases left
  {
    hide Fat, IsChain, CursorAt, Content, Capacity, ReadSector, Moved, Layout.Fits, ReadRun, PieceLength, Within;
    var _ := CursorPlace(d, L, ch, p, cur.cluster, cur.offset);
    if left == 0 {
      NothingToRead(d, L, cur);
    } else {
      var n := PieceLength(cur.offset, left);
      PieceRead(d, L, ch, p, cur, left);
      MovedAlong(d, L, ch, p, cur, n);
      MovedTo(d, L, cur, n);
      ReadRunStep(d, L, cur, left);
      var m := Moved(d, L, cur, n);
      if p + n < Capacity(L, ch) {
        ReadRunContent(d, L, ch, p + n, m, left - n);
        SlicesJoin(Content(d, L, ch), p, n, |ReadRun(d, L, m, left - n).0|);
      }
    }
  }

  lemma {:induction false} NothingToRead(d: Disk, L: Layout, cur: Cursor)
    requires L.spc > 0
    ensures ReadRun(d, L, cur, 0) == ([], cur)
  {
  }

  lemma {:induction false} ReadRunStep(d: Disk, L: Layout, cur: Cursor, left: nat)
    requires L.spc > 0 && left > 0 && ReadSector(d, L, cur).Some?
    ensures var n := PieceLength(cur.offset, left);
      var chunk := d[ReadSector(d, L, cur).value][cur.offset % 512..cur.offset % 512 + n];
      var next := Moved(d, L, cur, n);
      ReadRun(d, L, cur, left) ==
        if (cur.offset + n) % U32 >= L.ClusterBytes() && next.cluster == NO_CLUSTER then (chunk, next)
        else var r := ReadRun(d, L, next, left - n); (chunk + r.0, r.1)
  {
  }

  lemma {:induction false} MovedTo(d: Disk, L: Layout, cur: Cursor, n: nat)
    ensures (cur.offset + n) % U32 >= L.ClusterBytes() ==> Moved(d, L, cur, n).offset == 0
    ensures (cur.offset + n) % U32 < L.ClusterBytes() ==> Moved(d, L, cur, n).cluster == cur.cluster
  {
  }

  lemma {:induction false} SlicesJoin(c: seq<byte>, p: nat, n: nat, m: nat)
    requires p + n + m <= |c|
    ensures c[p..p + n] + c[p + n..p + n + m] == c[p..p + n + m]
  {
  }

  // ----- fat32_read -----

  /** The number of bytes asked for, cut at the file size; the sum is taken in 32 bits. */
  function Wanted(fileSize: nat, pos: nat, size: int): nat
    requires size > 0 && pos < fileSize
  {
    if (pos + size) % U32 > fileSize then fileSize - pos else size
  }

  /** `fat32_read` on any handle and any volume: the loop's bytes and cursor, and the position in 32 bits. */
  method Read(fs: FatFs, file: FileHandle, size: int) returns (ret: int, data: seq<byte>)
    requires fs.L.spc > 0
    modifies file`currCluster, file`currOffset, file`filePos
    ensures !file.used || file.mode != MODE_READ ==> ret == -1 && data == [] && unchanged(file)
    ensures file.used && file.mode == MODE_READ && (size <= 0 || old(file.filePos) >= file.fileSize) ==>
      ret == 0 && data == [] && unchanged(file)
    ensures file.used && file.mode == MODE_READ && size > 0 && old(file.filePos) < file.fileSize ==>
      && (data, Cursor(file.currCluster, file.currOffset)) ==
           ReadRun(fs.disk, fs.L, old(Cursor(file.currCluster, file.currOffset)),
                   Wanted(file.fileSize, old(file.filePos), size))
      && ret == |data| && file.filePos == (old(file.filePos) + |data|) % U32
  {
    hide ReadRun;
    if !file.used || file.mode != MODE_READ {
      return -1, [];
    }
    if size <= 0 { return 0, []; }
    if file.filePos >= file.fileSize { return 0, []; }

    var wanted := size;
    if (file.filePos + size) % U32 > file.fileSize {
      wanted := file.fileSize - file.filePos;
    }
    var cluster, offset;
    data, cluster, offset := ReadLoop(fs, file.currCluster, file.currOffset, wanted);
    file.currCluster, file.currOffset := cluster, offset;
    file.filePos := (file.filePos + |data|) % U32;
    ret := |data|;
  }

  /**
   The same, and on a file with a proper chain it delivers the flat content from the position on, and
   moves the cursor to exactly the cursor of the position behind it.
   */
  method ReadFile(fs: FatFs, file: FileHandle, size: int, ghost ch: seq<nat>)
    returns (ret: int, data: seq<byte>)
    requires fs.L.spc > 0
    modifies file`currCluster, file`currOffset, file`filePos
    ensures !file.used || file.mode != MODE_READ ==> ret == -1 && data == [] && unchanged(file)
    ensures file.used && file.mode == MODE_READ && (size <= 0 || old(file.filePos) >= file.fileSize) ==>
      ret == 0 && data == [] && unchanged(file)
    ensures file.used && file.mode == MODE_READ && size > 0 && old(file.filePos) < file.fileSize ==>
      0 <= ret == |data| <= size && file.filePos == (old(file.filePos) + ret) % U32
    ensures file.used && file.mode == MODE_READ && size > 0 && old(file.filePos) < file.fileSize
            && old(ReadHandle(fs, file, ch)) ==>
      var n := ReadLength(file.fileSize, old(file.filePos), size, Capacity(fs.L, ch));
      && ret == n
      && data == Content(fs.disk, fs.L, ch)[old(file.filePos)..old(file.filePos) + n]
      && CursorAt(fs.L, ch, old(file.filePos) + n, file.currCluster, file.currOffset)
  {
    hide ReadRun, Fat, IsChain, CursorAt, Content, Capacity, Layout.Fits;
    if file.used && file.mode == MODE_READ && size > 0 && file.filePos < file.fileSize {
      WantedSmall(file.fileSize, file.filePos, size);
      if ReadHandle(fs, file, ch) {
        var cur := Cursor(file.currCluster, file.currOffset);
        ReadRunContent(fs.disk, fs.L, ch, file.filePos, cur, Wanted(file.fileSize, file.filePos, size));
      }
    }
    ret, data := Read(fs, file, size);
  }

  lemma {:induction false} WantedSmall(fileSize: nat, pos: nat, size: int)
    requires size > 0 && pos < fileSize
    ensures Wanted(fileSize, pos, size) <= size
  {
  }
}
