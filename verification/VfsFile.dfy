/** A file open through the virtual filesystem: its own position over the driver's cursor. */
module VfsFile {
  import opened Bytes
  import opened FatTable
  import opened FatChain
  import opened FatContent
  import opened FatVolume
  import opened FatFile
  import opened FatWrite
  import opened FatRoundTrip

  const SEEK_SET := 0
  const OK := 0
  const ERR_PERM := -7
  const ERR_NOTSUPP := -9
  const CHUNK := 512

  /** Where a seek goes: the offset is cast to a 32-bit `int`, then bounded by the file. */
  function SeekTarget(offset: int, fileSize: nat): (p: nat)
    ensures p <= fileSize
  {
    if offset <= 0 || ToInt32(offset) <= 0 then 0 else Min(ToInt32(offset), fileSize)
  }

  /** It is the offset cut at the file size exactly when the cast is harmless. */
  lemma {:induction false} SeekTargetExact(offset: nat, fileSize: nat)
    requires fileSize < U32
    ensures SeekTarget(offset, fileSize) == Min(offset, fileSize) <==>
      offset <= INT_MAX || ToInt32(offset) >= fileSize || fileSize == 0
  {
  }

  /** An offset just past 4 GiB in a file of ten bytes goes to position 1. */
  lemma {:induction false} SeekComesRound()
    ensures SeekTarget(U32 + 1, 10) == 1 && Min(U32 + 1, 10) == 10
  {
  }

  /** The cursor at the start of the file. */
  method Rewind(file: FileHandle)
    modifies file`currCluster, file`currOffset, file`filePos
    ensures file.currCluster == file.firstCluster && file.currOffset == 0 && file.filePos == 0
  {
    file.currCluster := file.firstCluster;
    file.currOffset := 0;
    file.filePos := 0;
  }

  /**
   Reading forward in chunks until `n` bytes are passed, the file ends or nothing is read; on a proper
   file that ends at `n` or at the end of the file.
   */
  method SkipForward(fs: FatFs, file: FileHandle, n: int, ghost ch: seq<nat>)
    requires fs.L.spc > 0 && n <= INT_MAX && file.filePos == 0
    modifies file`currCluster, file`currOffset, file`filePos
    ensures file.filePos < U32
    ensures !(file.used && file.mode == MODE_READ) ==> unchanged(file)
    ensures file.used && file.mode == MODE_READ && old(ReadHandle(fs, file, ch)) ==>
      ReadHandle(fs, file, ch) && file.filePos == if n <= 0 then 0 else Min(n, file.fileSize)
  {
    hide ReadHandle, Inside;
    ghost var proper := file.used && file.mode == MODE_READ && ReadHandle(fs, file, ch);
    var remaining := n;
    while remaining > 0
      invariant file.filePos < U32 && (if n > 0 then remaining >= 0 else remaining == n)
      invariant !(file.used && file.mode == MODE_READ) ==> unchanged(file)
      invariant proper ==> ReadHandle(fs, file, ch) && file.filePos <= file.fileSize && file.filePos + remaining == n
    {
      var chunk := if remaining > CHUNK then CHUNK else remaining;
      if proper {
        IsInside(fs, file, chunk, ch);
      }
      var r, _ := ReadInside(fs, file, chunk, ch);
      if r <= 0 {
        break;
      }
      remaining := remaining - r;
    }
  }

  /** A file whose reads have a chain to follow; one of size 0 needs none. */
  ghost predicate Readable(d: Disk, L: Layout, first: nat, size: nat, ch: seq<nat>)
  {
    L.Fits(|d|) && size < U32 && (size > 0 ==> ch != [] && HeldBy(d, L, first, size, ch))
  }

  /** The handle's file is proper for its mode, wherever its cursor stands. */
  ghost predicate Seekable(fs: FatFs, file: FileHandle, ch: seq<nat>)
    reads fs, file
  {
    if file.used && file.mode == MODE_READ then Readable(fs.disk, fs.L, file.firstCluster, file.fileSize, ch)
    else OnChain(fs, file, ch)
  }

  /** At the start of a proper file the cursor is proper, whatever it was before. */
  lemma {:induction false} StartHandle(fs: FatFs, file: FileHandle, ch: seq<nat>)
    requires Seekable(fs, file, ch)
    requires file.currCluster == file.firstCluster && file.currOffset == 0 && file.filePos == 0
    ensures if file.used && file.mode == MODE_READ then ReadHandle(fs, file, ch) else WriteHandle(fs, file, ch)
  {
    if ch != [] {
      CursorInside(fs.L, ch, 0, 0);
    }
  }

  /**
   Seeking rewinds, whatever the cursor was, and reads forward. On a proper file that lands a read
   handle on the cursor of the target position and a handle open for writing on the start.
   */
  method Seek(fs: FatFs, file: FileHandle, offset: int, whence: int, ghost ch: seq<nat>) returns (ret: int)
    requires fs.L.spc > 0
    modifies file`currCluster, file`currOffset, file`filePos
    ensures whence != SEEK_SET ==> ret == ERR_NOTSUPP && unchanged(file)
    ensures whence == SEEK_SET ==> ret == OK && file.filePos < U32
    ensures whence == SEEK_SET && !(file.used && file.mode == MODE_READ) ==>
      file.filePos == 0 && (old(Seekable(fs, file, ch)) ==> WriteHandle(fs, file, ch))
    ensures whence == SEEK_SET && file.used && file.mode == MODE_READ && old(Seekable(fs, file, ch)) ==>
      file.filePos == SeekTarget(offset, file.fileSize) && ReadHandle(fs, file, ch)
  {
    hide HeldBy, Readable, ReadHandle, WriteHandle;
    if whence != SEEK_SET {
      return ERR_NOTSUPP;
    }
    Rewind(file);
    if Seekable(fs, file, ch) {
      StartHandle(fs, file, ch);
    }
    if offset > 0 {
      SkipForward(fs, file, ToInt32(offset), ch);
    }
    return OK;
  }

  // ----- the virtual file -----

  /** An open file of the virtual filesystem; `canRead` and `canWrite` are its open flags. */
  class OpenFile {
    const canRead: bool
    const canWrite: bool
    const handle: FileHandle
    var pos: int

    constructor (canRead: bool, canWrite: bool, handle: FileHandle)
      ensures this.canRead == canRead && this.canWrite == canWrite && this.handle == handle && pos == 0
    {
      this.canRead, this.canWrite, this.handle, pos := canRead, canWrite, handle, 0;
    }
  }

  /**
   The driver handle matches the flags (it is open for writing exactly when the flags ask for
   that), its cursor agrees with its position, and so does the position kept above it.
   */
  ghost predicate InStep(fs: FatFs, f: OpenFile, ch: seq<nat>)
    reads fs, f, f.handle
  {
    && f.handle.used
    && f.pos == f.handle.filePos
    && f.handle.filePos <= f.handle.fileSize
    && if f.canWrite then f.handle.mode == MODE_WRITE && WriteHandle(fs, f.handle, ch)
       else f.handle.mode == MODE_READ && ReadHandle(fs, f.handle, ch)
  }

  /** How far a read of `count` bytes gets, with the cast to `int` and the sum in 32 bits. */
  ghost function ReadCount(fs: FatFs, f: OpenFile, ch: seq<nat>, count: nat): nat
    requires InStep(fs, f, ch)
    reads fs, f, f.handle
  {
    ReadLength(f.handle.fileSize, f.pos, ToInt32(count), Capacity(fs.L, ch))
  }

  /** The read is cut at the file size: exactly then it returns what the flat bytes would. */
  ghost predicate Cut(fileSize: nat, capacity: nat, pos: nat, size: int)
  {
    size <= 0 || pos >= fileSize || pos + size < U32 || capacity == fileSize
  }

  lemma {:induction false} CutExactly(fileSize: nat, capacity: nat, pos: nat, size: int)
    requires fileSize < U32 && size <= INT_MAX && (pos < fileSize ==> fileSize <= capacity)
    ensures ReadLength(fileSize, pos, size, capacity) == Delivered(fileSize, pos, size)
      <==> Cut(fileSize, capacity, pos, size)
  {
    if size > 0 && pos < fileSize {
      ReadCutAtSize(fileSize, pos, size, capacity);
    }
  }

  lemma {:induction false} NothingRead(fileSize: nat, pos: nat, size: int, capacity: nat)
    requires pos < fileSize ==> pos <= capacity
    ensures size <= 0 || pos >= fileSize ==> ReadLength(fileSize, pos, size, capacity) == 0
  {
  }

  /** The position above is that of the driver but for the 32 bits the driver keeps of it. */
  ghost predicate Tracks(f: OpenFile)
    reads f, f.handle
  {
    f.pos >= 0 && f.handle.filePos == f.pos % U32
  }

  /**
   Reading through the virtual file, for any file and volume, every count and position: the positions
   move together. On a file in step the bytes are those of the flat content, and the two positions
   agree afterwards exactly when the end of the read stays below 2^32.
   */
  method VfsRead(fs: FatFs, f: OpenFile, count: nat, ghost ch: seq<nat>) returns (ret: int, data: seq<byte>)
    requires fs.L.spc > 0
    modifies f`pos, f.handle`currCluster, f.handle`currOffset, f.handle`filePos
    ensures !f.canRead ==> ret == ERR_PERM && data == [] && unchanged(f) && unchanged(f.handle)
    ensures f.canRead && count == 0 ==> ret == 0 && data == [] && unchanged(f) && unchanged(f.handle)
    ensures f.canRead && count > 0 && !(f.handle.used && f.handle.mode == MODE_READ) ==>
      ret == -1 && data == [] && unchanged(f) && unchanged(f.handle)
    ensures old(Tracks(f)) ==> Tracks(f)
    ensures old(InStep(fs, f, ch)) && f.canRead && !f.canWrite ==>
      var n := old(ReadCount(fs, f, ch, count));
      && ret == n == |data|
      && f.pos == old(f.pos) + n
      && (n > 0 ==> Within(fs.L, ch) && old(f.pos) + n <= Capacity(fs.L, ch)
                    && data == Content(fs.disk, fs.L, ch)[old(f.pos)..old(f.pos) + n])
      && (f.pos == f.handle.filePos <==> f.pos < U32)
      && (InStep(fs, f, ch) <==> f.pos <= f.handle.fileSize)
  {
    hide CursorAt, Content, Capacity, ReadLength, ToInt32, InStep, ReadHandle, Readable, Within;
    if !f.canRead {
      return ERR_PERM, [];
    }
    ghost var proper, pos, was := InStep(fs, f, ch) && !f.canWrite, f.pos, f.handle.filePos;
    if proper {
      InStepReads(fs, f, ch);
      NothingRead(f.handle.fileSize, f.pos, ToInt32(count), Capacity(fs.L, ch));
    }
    SmallInt32(0);
    if count == 0 { return 0, []; }
    ret, data := ReadFile(fs, f.handle, ToInt32(count), ch);
    if ret > 0 {
      f.pos := f.pos + ret;
    }
    TracksOn(f, pos, was, if ret > 0 then ret else 0);
    if proper {
      InThirtyTwo(was);
      InStepAfter(fs, f, ch);
    }
  }

  lemma {:induction false} TracksOn(f: OpenFile, pos: int, was: nat, n: nat)
    requires f.pos == pos + n && (f.handle.filePos == (was + n) % U32 || (n == 0 && f.handle.filePos == was))
    ensures pos >= 0 && was == pos % U32 ==> Tracks(f)
  {
    WrapAgain(if pos >= 0 then pos else 0, n);
  }

  lemma {:induction false} InStepReads(fs: FatFs, f: OpenFile, ch: seq<nat>)
    requires InStep(fs, f, ch) && !f.canWrite
    ensures f.handle.used && f.handle.mode == MODE_READ && f.pos == f.handle.filePos <= f.handle.fileSize < U32
    ensures ReadHandle(fs, f.handle, ch)
    ensures Readable(fs.disk, fs.L, f.handle.firstCluster, f.handle.fileSize, ch)
    ensures f.handle.fileSize > 0 ==>
      && fs.L.Fits(|fs.disk|) && Within(fs.L, ch) && f.pos <= f.handle.fileSize <= Capacity(fs.L, ch)
      && CursorAt(fs.L, ch, f.pos, f.handle.currCluster, f.handle.currOffset)
  {
  }

  /** A read file stays in step exactly while it does not leave itself. */
  lemma {:induction false} InStepAfter(fs: FatFs, f: OpenFile, ch: seq<nat>)
    requires f.handle.used && f.handle.mode == MODE_READ && !f.canWrite && f.pos >= 0
    requires Readable(fs.disk, fs.L, f.handle.firstCluster, f.handle.fileSize, ch)
    requires f.handle.filePos == f.pos % U32
    requires f.handle.fileSize > 0 ==>
      f.pos <= Capacity(fs.L, ch) && CursorAt(fs.L, ch, f.pos, f.handle.currCluster, f.handle.currOffset)
    ensures InStep(fs, f, ch) <==> f.pos <= f.handle.fileSize
    ensures f.pos == f.handle.filePos <==> f.pos < U32
  {
  }

  lemma {:induction false} WrapAgain(x: nat, a: nat)
    ensures (x % U32 + a) % U32 == (x + a) % U32
  {
  }

  /** One read that crosses 2^32: two bytes from behind the file, and positions that part for good. */
  method ReadAcross(fs: FatFs, f: OpenFile, ghost ch: seq<nat>) returns (ret: int, data: seq<byte>)
    requires InStep(fs, f, ch) && f.canRead && !f.canWrite
    requires f.handle.fileSize == U32 - 2 && Capacity(fs.L, ch) == U32 && f.pos == U32 - 10
    modifies f`pos, f.handle`currCluster, f.handle`currOffset, f.handle`filePos
    ensures ret == 10 && Within(fs.L, ch) && data == Content(fs.disk, fs.L, ch)[U32 - 10..U32]
    ensures f.pos == U32 && f.handle.filePos == 0
  {
    hide CursorAt, Content, Capacity, IsChain, Fat;
    ChainInside(fs.disk, fs.L, ch);
    InThirtyTwo(f.handle.filePos);
    ret, data := VfsRead(fs, f, 100, ch);
  }

  /** A file that is proper wherever its cursor stands, with a handle that matches the flags. */
  ghost predicate Repairable(fs: FatFs, f: OpenFile, ch: seq<nat>)
    reads fs, f, f.handle
  {
    f.handle.used && f.handle.mode == (if f.canWrite then MODE_WRITE else MODE_READ) && Seekable(fs, f.handle, ch)
  }

  /** After a seek both positions are the target, and a proper file is in step again wherever it was. */
  method VfsSeek(fs: FatFs, f: OpenFile, offset: int, whence: int, ghost ch: seq<nat>) returns (ret: int)
    requires fs.L.spc > 0
    modifies f`pos, f.handle`currCluster, f.handle`currOffset, f.handle`filePos
    ensures whence != SEEK_SET ==> ret == ERR_NOTSUPP && unchanged(f) && unchanged(f.handle)
    ensures whence == SEEK_SET ==> ret == OK && f.pos == f.handle.filePos < U32
    ensures old(Tracks(f)) ==> Tracks(f)
    ensures whence == SEEK_SET && old(Repairable(fs, f, ch)) ==>
      InStep(fs, f, ch) && f.pos == if f.canWrite then 0 else SeekTarget(offset, f.handle.fileSize)
  {
    hide ReadHandle, WriteHandle, HeldBy;
    ret := Seek(fs, f.handle, offset, whence, ch);
    if ret == 0 {
      f.pos := f.handle.filePos;
      InThirtyTwo(f.handle.filePos);
    }
    if Repairable(fs, f, ch) && whence == SEEK_SET && f.canWrite {
      HandleSize(fs, f.handle, ch);
    }
  }

  lemma {:induction false} InStepRepairable(fs: FatFs, f: OpenFile, ch: seq<nat>)
    requires InStep(fs, f, ch)
    ensures Repairable(fs, f, ch) && fs.L.spc > 0
  {
  }

  /** The bytes of a write that the cast of their number to `int` leaves. */
  function Carried(buf: seq<byte>): (b: seq<byte>)
    ensures |b| <= INT_MAX && b <= buf && (|buf| <= INT_MAX ==> b == buf)
  {
    if ToInt32(|buf|) <= 0 then [] else buf[..ToInt32(|buf|)]
  }

  /**
   Writing through the virtual file, for any file and volume: the positions move together whatever
   happens below. On a file in step the bytes are laid over the file when there is room, the driver's
   outcome is passed on when there is not, and the two positions agree afterwards exactly when the end
   of the write stays below 2^32.
   */
  method VfsWrite(fs: FatFs, f: OpenFile, buf: seq<byte>, ghost ch: seq<nat>)
    returns (ret: int, ghost ch': seq<nat>, ghost k: nat, ghost out: Outcome)
    modifies f`pos, fs`disk, f.handle`firstCluster, f.handle`currCluster, f.handle`currOffset, f.handle`filePos,
      f.handle`fileSize
    ensures !f.canWrite ==>
      ret == ERR_PERM && ch' == ch && unchanged(f) && unchanged(f.handle) && fs.disk == old(fs.disk)
    ensures f.canWrite && (Carried(buf) == [] || !(f.handle.used && f.handle.mode == MODE_WRITE)) ==>
      ret <= 0 && ch' == ch && unchanged(f) && unchanged(f.handle) && fs.disk == old(fs.disk)
    ensures old(Tracks(f)) ==> Tracks(f)
    ensures f.canWrite && Carried(buf) != [] && old(InStep(fs, f, ch)) ==>
      && ret >= 0 && f.pos == old(f.pos) + ret
      && (f.pos == f.handle.filePos <==> f.pos < U32)
      && (f.pos < U32 ==> f.handle.fileSize == Max(f.handle.filePos, old(f.handle.fileSize)))
      && (out == Going <==> Room(fs.L, old(fs.disk), ch, old(f.pos), |Carried(buf)|))
      && RunEnds(fs.L, old(fs.disk), ch, (PenOf(fs, f.handle), ret), ch', old(f.pos), [], Carried(buf), k, out)
      && (out == Going ==> ret == |Carried(buf)|
                           && Written(fs.L, old(fs.disk), ch, fs.disk, ch', old(f.pos), Carried(buf)))
      && (out == Going && f.pos < U32 ==> InStep(fs, f, ch'))
      && (out == Full && f.pos < U32 ==> Repairable(fs, f, ch'))
  {
    hide WriteHandle, ReadHandle, Grown, Overlaid, Content, Room, Within, RunEnds, PenOf, Tail, CursorAt, HeldBy;
    ch', k, out := ch, 0, Going;
    if !f.canWrite {
      return ERR_PERM, ch, 0, Going;
    }
    if |buf| == 0 { return 0, ch, 0, Going; }
    ghost var d, pos, proper := fs.disk, f.pos, InStep(fs, f, ch);
    ghost var from := if f.pos >= 0 then f.pos else 0;
    if proper {
      HandleSize(fs, f.handle, ch);
      InThirtyTwo(f.handle.filePos);
    }
    ret, ch', k, out := WriteFile(fs, f.handle, buf, ToInt32(|buf|), ch);
    WrapAgain(from, if ret >= 0 then ret else 0);
    if proper && Carried(buf) != [] && out == Going {
      GoingMeans(fs.L, d, ch, (PenOf(fs, f.handle), ret), ch', pos, Carried(buf), k);
      PenDisk(fs, f.handle);
      if pos + ret < U32 {
        HandleSize(fs, f.handle, ch');
      }
    }
    if ret > 0 {
      f.pos := f.pos + ret;
    }
  }

  lemma {:induction false} HandleSize(fs: FatFs, file: FileHandle, ch: seq<nat>)
    requires WriteHandle(fs, file, ch)
    ensures file.filePos <= file.fileSize < U32
  {
  }

  // ----- whole runs -----

  datatype Op = ReadOp(count: nat) | WriteOp(buf: seq<byte>) | SeekOp(offset: int, whence: int)

  /** One operation on any file. */
  method Operate(fs: FatFs, f: OpenFile, op: Op)
    requires fs.L.spc > 0 && Tracks(f)
    modifies f`pos, fs`disk, f.handle`firstCluster, f.handle`currCluster, f.handle`currOffset, f.handle`filePos,
      f.handle`fileSize
    ensures Tracks(f)
  {
    hide Tracks;
    match op {
      case ReadOp(count) =>
        var ret, data := VfsRead(fs, f, count, []);
      case WriteOp(buf) =>
        var ret;
        ghost var ch, k, out;
        ret, ch, k, out := VfsWrite(fs, f, buf, []);
      case SeekOp(offset, whence) =>
        var ret := VfsSeek(fs, f, offset, whence, []);
    }
  }

  /**
   Over every run of reads, writes and seeks, on any file and any volume, proper or not and with or
   without room, the driver's position is the file's modulo 2^32; so the two agree exactly while the
   file's stays below 2^32.
   */
  method RunAny(fs: FatFs, f: OpenFile, ops: seq<Op>)
    requires fs.L.spc > 0 && Tracks(f)
    modifies f`pos, fs`disk, f.handle`firstCluster, f.handle`currCluster, f.handle`currOffset, f.handle`filePos,
      f.handle`fileSize
    ensures Tracks(f) && (f.pos == f.handle.filePos <==> f.pos < U32)
  {
    for i := 0 to |ops|
      invariant Tracks(f)
    {
      Operate(fs, f, ops[i]);
    }
    InThirtyTwo(f.handle.filePos);
  }

  /** A file open for reading, as a flat byte sequence with a position: where an operation goes. */
  function FlatPos(canRead: bool, size: nat, pos: nat, op: Op): (p: nat)
    requires pos <= size
    ensures p <= size
  {
    match op {
      case ReadOp(count) => if canRead then pos + Delivered(size, pos, ToInt32(count)) else pos
      case WriteOp(_) => pos
      case SeekOp(offset, whence) => if whence == SEEK_SET then SeekTarget(offset, size) else pos
    }
  }

  /** The bytes the reads of a run return, one after the other. */
  function FlatReads(canRead: bool, bytes: seq<byte>, pos: nat, ops: seq<Op>): seq<byte>
    requires pos <= |bytes|
    decreases |ops|
  {
    if ops == [] then []
    else
      var p := FlatPos(canRead, |bytes|, pos, ops[0]);
      (if ops[0].ReadOp? then bytes[pos..p] else []) + FlatReads(canRead, bytes, p, ops[1..])
  }

  /** The bytes of the file: its content cut at its size. */
  ghost function FileBytes(fs: FatFs, f: OpenFile, ch: seq<nat>): (b: seq<byte>)
    requires InStep(fs, f, ch)
    reads fs, f, f.handle
    ensures |b| == f.handle.fileSize
  {
    if f.handle.fileSize == 0 then [] else Content(fs.disk, fs.L, ch)[..f.handle.fileSize]
  }

  /** No read of the run crosses 2^32 in a file with slack: checked read by read along the positions. */
  ghost predicate CutRun(canRead: bool, size: nat, capacity: nat, pos: nat, ops: seq<Op>)
    requires pos <= size
    decreases |ops|
  {
    ops != [] ==>
    && (ops[0].ReadOp? && canRead ==> Cut(size, capacity, pos, ToInt32(ops[0].count)))
    && CutRun(canRead, size, capacity, FlatPos(canRead, size, pos, ops[0]), ops[1..])
  }

  /** One operation on a file open for reading. */
  method StepReading(fs: FatFs, f: OpenFile, op: Op, ghost ch: seq<nat>) returns (out: seq<byte>)
    requires InStep(fs, f, ch) && !f.canWrite
    requires op.ReadOp? && f.canRead ==> Cut(f.handle.fileSize, Capacity(fs.L, ch), f.pos, ToInt32(op.count))
    modifies f`pos, f.handle`currCluster, f.handle`currOffset, f.handle`filePos
    ensures InStep(fs, f, ch)
    ensures f.pos == FlatPos(f.canRead, f.handle.fileSize, old(f.pos), op)
    ensures out == if op.ReadOp? then FileBytes(fs, f, ch)[old(f.pos)..f.pos] else []
    ensures FileBytes(fs, f, ch) == old(FileBytes(fs, f, ch)) && f.handle.fileSize == old(f.handle.fileSize)
  {
    hide CursorAt, Content, Capacity, IsChain, Fat, Next;
    out := [];
    ghost var p := f.pos;
    InStepRepairable(fs, f, ch);
    match op {
      case ReadOp(count) =>
        CutExactly(f.handle.fileSize, Capacity(fs.L, ch), f.pos, ToInt32(count));
        var ret;
        ret, out := VfsRead(fs, f, count, ch);
        if f.pos > p {
          SliceOfPrefix(Content(fs.disk, fs.L, ch), f.handle.fileSize, p, f.pos);
        }
      case WriteOp(buf) =>  // refused by the open flags before the driver is asked
      case SeekOp(offset, whence) =>
        var ret := VfsSeek(fs, f, offset, whence, ch);
    }
  }

  lemma {:induction false} SliceOfPrefix(c: seq<byte>, n: nat, a: nat, b: nat)
    requires a <= b <= n <= |c|
    ensures c[..n][a..b] == c[a..b]
  {
  }

  /**
   Every run on a file open for reading returns what the flat byte sequence with a position
   returns, and ends with both positions equal to that position.
   */
  method RunReading(fs: FatFs, f: OpenFile, ops: seq<Op>, ghost ch: seq<nat>) returns (out: seq<byte>)
    requires InStep(fs, f, ch) && !f.canWrite
    requires CutRun(f.canRead, f.handle.fileSize, Capacity(fs.L, ch), f.pos, ops)
    modifies f`pos, f.handle`currCluster, f.handle`currOffset, f.handle`filePos
    ensures InStep(fs, f, ch)
    ensures FileBytes(fs, f, ch) == old(FileBytes(fs, f, ch))
    ensures out == FlatReads(f.canRead, FileBytes(fs, f, ch), old(f.pos), ops)
    decreases |ops|
  {
    hide InStep, Capacity, FileBytes, Cut;
    PosInside(fs, f, ch);
    if ops == [] {
      return [];
    }
    var first := StepReading(fs, f, ops[0], ch);
    var rest := RunReading(fs, f, ops[1..], ch);
    out := first + rest;
  }

  lemma {:induction false} PosInside(fs: FatFs, f: OpenFile, ch: seq<nat>)
    requires InStep(fs, f, ch)
    ensures 0 <= f.pos <= f.handle.fileSize
  {
  }

  // ----- runs on a file open for writing -----

  /** `buf` laid over `bytes` from `pos` on, which may lengthen them. */
  function Lay(bytes: seq<byte>, pos: nat, buf: seq<byte>): (r: seq<byte>)
    requires pos <= |bytes|
    ensures pos + |buf| <= |r|
  {
    if pos + |buf| <= |bytes| then bytes[..pos] + buf + bytes[pos + |buf|..] else bytes[..pos] + buf
  }

  /** The bytes of a file after a run on a handle open for writing; a seek goes to the start. */
  function FlatWrites(bytes: seq<byte>, pos: nat, ops: seq<Op>): seq<byte>
    requires pos <= |bytes|
    decreases |ops|
  {
    if ops == [] then bytes
    else
      var b := if ops[0].WriteOp? then Lay(bytes, pos, Carried(ops[0].buf)) else bytes;
      FlatWrites(b, WritePos(pos, ops[0]), ops[1..])
  }

  function WritePos(pos: nat, op: Op): nat
  {
    match op {
      case WriteOp(buf) => pos + |Carried(buf)|
      case SeekOp(_, whence) => if whence == SEEK_SET then 0 else pos
      case ReadOp(_) => pos
    }
  }

  function LoadOf(op: Op): nat { if op.WriteOp? then |Carried(op.buf)| else 0 }

  /** Every write of the run ends below 2^32 and finds room, checked write by write along the positions. */
  ghost predicate RoomRun(L: Layout, clusters: nat, pos: nat, ops: seq<Op>)
    requires L.spc > 0
    decreases |ops|
  {
    ops != [] ==>
    && (LoadOf(ops[0]) > 0 ==>
          pos + LoadOf(ops[0]) < U32 && Quot(pos + LoadOf(ops[0]), L.ClusterBytes()) < clusters)
    && RoomRun(L, clusters, WritePos(pos, ops[0]), ops[1..])
  }

  lemma {:induction false} OverlaidIsLay(before: seq<byte>, after: seq<byte>, size: nat, pos: nat, buf: seq<byte>)
    requires Overlaid(before, after, pos, buf) && pos <= size <= |before|
    ensures var size' := if pos + |buf| > size then pos + |buf| else size;
      size' <= |after| && after[..size'] == Lay(before[..size], pos, buf)
  {
    var size' := if pos + |buf| > size then pos + |buf| else size;
    var l := Lay(before[..size], pos, buf);
    forall i | 0 <= i < size'
      ensures after[..size'][i] == l[i]
    {
      if pos <= i < pos + |buf| {
        assert after[pos..pos + |buf|][i - pos] == buf[i - pos];
      }
    }
  }

  lemma {:induction false} LayNothing(bytes: seq<byte>, pos: nat)
    requires pos <= |bytes|
    ensures Lay(bytes, pos, []) == bytes
  {
  }

  lemma {:induction false} BytesAre(fs: FatFs, f: OpenFile, ch: seq<nat>)
    requires InStep(fs, f, ch) && f.canWrite
    ensures fs.L.Fits(|fs.disk|) && Within(fs.L, ch) && 0 <= f.pos <= f.handle.fileSize <= Capacity(fs.L, ch)
    ensures FileBytes(fs, f, ch) == Content(fs.disk, fs.L, ch)[..f.handle.fileSize]
  {
  }

  /** A write through the virtual file lays its bytes over the file. */
  method StepWriting(fs: FatFs, f: OpenFile, buf: seq<byte>, ghost ch: seq<nat>) returns (ghost ch': seq<nat>)
    requires InStep(fs, f, ch) && f.canWrite
    requires Carried(buf) != [] ==> f.pos + |Carried(buf)| < U32 && Room(fs.L, fs.disk, ch, f.pos, |Carried(buf)|)
    modifies f`pos, fs`disk, f.handle`firstCluster, f.handle`currCluster, f.handle`currOffset, f.handle`filePos,
      f.handle`fileSize
    ensures InStep(fs, f, ch')
    ensures f.pos == old(f.pos) + |Carried(buf)|
    ensures FileBytes(fs, f, ch') == Lay(old(FileBytes(fs, f, ch)), old(f.pos), Carried(buf))
    ensures |ch'| + FreeCount(Fat(fs.disk, fs.L)) == |ch| + FreeCount(Fat(old(fs.disk), fs.L))
  {
    hide Content, Capacity, IsChain, Fat, FreeCount, CursorAt, Room, Lay, FileBytes, Carried, RunEnds, PenOf;
    ghost var d, size, pos := fs.disk, f.handle.fileSize, f.pos;
    ghost var bytes := FileBytes(fs, f, ch);
    BytesAre(fs, f, ch);
    var ret;
    ghost var k, out;
    ret, ch', k, out := VfsWrite(fs, f, buf, ch);
    BytesAre(fs, f, ch');
    if Carried(buf) == [] {
      LayNothing(bytes, pos);
    } else {
      OverlaidIsLay(Content(d, fs.L, ch), Content(fs.disk, fs.L, ch'), size, pos, Carried(buf));
    }
  }

  /** One operation on a file open for writing; clusters are conserved. */
  method StepAny(fs: FatFs, f: OpenFile, op: Op, ghost ch: seq<nat>) returns (ghost ch': seq<nat>)
    requires InStep(fs, f, ch) && f.canWrite
    requires LoadOf(op) > 0 ==> f.pos + LoadOf(op) < U32 && Room(fs.L, fs.disk, ch, f.pos, LoadOf(op))
    modifies f`pos, fs`disk, f.handle`firstCluster, f.handle`currCluster, f.handle`currOffset, f.handle`filePos,
      f.handle`fileSize
    ensures InStep(fs, f, ch')
    ensures f.pos == WritePos(old(f.pos), op)
    ensures FileBytes(fs, f, ch') ==
      if op.WriteOp? then Lay(old(FileBytes(fs, f, ch)), old(f.pos), Carried(op.buf)) else old(FileBytes(fs, f, ch))
    ensures |ch'| + FreeCount(Fat(fs.disk, fs.L)) == |ch| + FreeCount(Fat(old(fs.disk), fs.L))
  {
    hide Content, FreeCount, Fat, ReadHandle, WriteHandle, Room, HeldBy;
    ch' := ch;
    InStepRepairable(fs, f, ch);
    match op {
      case WriteOp(buf) =>
        ch' := StepWriting(fs, f, buf, ch);
      case SeekOp(offset, whence) =>
        var ret := VfsSeek(fs, f, offset, whence, ch);
      case ReadOp(count) =>
        var ret, data := VfsRead(fs, f, count, ch);
    }
  }

  /**
   Every run on a file open for writing, each of whose writes finds room, leaves the bytes that the
   flat sequence has after the same run, and both positions equal. A write that only goes over bytes
   of the file again needs no further cluster, however often it is done.
   */
  method RunWriting(fs: FatFs, f: OpenFile, ops: seq<Op>, ghost ch: seq<nat>) returns (ghost ch': seq<nat>)
    requires InStep(fs, f, ch) && f.canWrite
    requires RoomRun(fs.L, |ch| + FreeCount(Fat(fs.disk, fs.L)), f.pos, ops)
    modifies f`pos, fs`disk, f.handle`firstCluster, f.handle`currCluster, f.handle`currOffset, f.handle`filePos,
      f.handle`fileSize
    ensures InStep(fs, f, ch')
    ensures FileBytes(fs, f, ch') == FlatWrites(old(FileBytes(fs, f, ch)), old(f.pos), ops)
    decreases |ops|
  {
    hide InStep, FileBytes, FreeCount, Fat, Lay;
    ch' := ch;
    BytesAre(fs, f, ch);
    if ops == [] {
      return;
    }
    ch' := StepAny(fs, f, ops[0], ch);
    ch' := RunWriting(fs, f, ops[1..], ch');
  }
}
