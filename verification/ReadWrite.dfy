/** The calls `osfs_extent_do_read` and `osfs_extent_do_write` (lab4/file.c:154-293), and the
    byte-sequence view of a file that they implement. */
module ReadWrite {
  import opened Bytes
  import opened ExtentTable
  import opened Arith
  import opened State
  import opened FileSteps
  import opened Blocks
  import opened FileOps

  /** What a call returns: the new state, the value or error, and the new file position. */
  datatype IoResult<T> = Io(fs: Fs, ret: Result<T>, pos: nat)

  // ---------------------------------------------------------------- write

  /** lab4/file.c:281-284. */
  function GrowSize(fs: Fs, f: nat, end: nat): Fs
    requires HasTable(fs, f)
  {
    if end > fs.inodes[f].size then SetSize(fs, f, Wrap(end)) else fs
  }

  lemma {:induction false} FormatKeepsRoom(fs: Fs, f: nat)
    requires Inv(fs) && Live(fs, f) && HasTable(fs, f)
    ensures CanGrow(Format(fs, f), f) == CanGrow(fs, f)
  {
    LiveHasTable(fs, f);
    hide Inv, Canonical, BlocksOf;
    if !Formatted(TableOf(fs, f)) {
      EmptyTableIsEmpty(fs.blockSize);
      ZeroBlockIsUnformatted(TableOf(fs, f));
    }
  }

  lemma {:induction false} FormatOpens(fs: Fs, f: nat)
    requires Inv(fs) && Live(fs, f) && HasTable(fs, f)
    ensures Open(Format(fs, f), f) && FileStep(fs, Format(fs, f), f)
    ensures Used(Format(fs, f)) == Used(fs) && Format(fs, f).inodes == fs.inodes
    ensures Phys(Format(fs, f), f) == Phys(fs, f) && Wrote(fs, Format(fs, f), f, 0, [])
    ensures CanGrow(Format(fs, f), f) == CanGrow(fs, f)
  {
    FormatStep(fs, f);
    StepKeepsInv(fs, Format(fs, f), f);
    FormatKeepsRoom(fs, f);
    hide Inv, FileStep, Formatted, BlocksOf, ByteAt, HasRoom;
  }

  /** lab4/file.c:221-293; both the new size and the block numbers are cast to 32 bits. */
  function WriteFile(fs: Fs, f: nat, pos: nat, buf: seq<byte>): (io: IoResult<nat>)
    requires Inv(fs) && Live(fs, f) && HasTable(fs, f)
  {
    FormatOpens(fs, f);
    var w := WriteLoop(Format(fs, f), f, pos, buf);
    match w.status
    case Err(e) => Io(w.fs, Err(e), pos)
    case Ok(_) => Io(GrowSize(w.fs, f, pos + w.done), Ok(w.done), pos + w.done)
  }

  lemma {:induction false} WriteFileIs(fs: Fs, f: nat, pos: nat, buf: seq<byte>, w: Written)
    requires Inv(fs) && Live(fs, f) && HasTable(fs, f) && HasTable(w.fs, f)
    requires Open(Format(fs, f), f) && w == WriteLoop(Format(fs, f), f, pos, buf)
    ensures WriteFile(fs, f, pos, buf) ==
            if w.status.Err? then Io(w.fs, Err(w.status.error), pos)
            else Io(GrowSize(w.fs, f, pos + w.done), Ok(w.done), pos + w.done)
  {
    hide Inv, Formatted, Format, GrowSize, WriteLoop;
  }

  /** The position a write really goes to: the block number keeps only its low 32 bits. */
  function Home(pos: nat, blockSize: nat): nat
    requires blockSize > 0
  {
    blockSize * LogicalBlock(pos, blockSize) + OffsetOf(pos, blockSize)
  }

  lemma {:induction false} HomeBlock(pos: nat, b: nat)
    requires b > 0
    ensures BlockOf(Home(pos, b), b) == LogicalBlock(pos, b) == LogicalBlock(Home(pos, b), b)
    ensures OffsetOf(Home(pos, b), b) == OffsetOf(pos, b)
    ensures BlockOf(pos, b) < U32 ==> Home(pos, b) == pos
  {
    DivModUnique(Home(pos, b), LogicalBlock(pos, b), OffsetOf(pos, b), b);
    assert pos == b * (pos / b) + pos % b;
  }

  lemma {:induction false} HomeOfNext(pos: nat, b: nat)
    requires b > 0 && LogicalBlock(pos, b) + 1 < U32
    ensures var c := b - OffsetOf(pos, b);
            && LogicalBlock(pos + c, b) == LogicalBlock(pos, b) + 1
            && Home(pos + c, b) == Home(pos, b) + c
  {
    NextBlock(pos, b);
    WrapSum(BlockOf(pos, b), 1);
    assert b * (LogicalBlock(pos, b) + 1) == b * LogicalBlock(pos, b) + b;
    hide BlockOf, OffsetOf;
  }

  lemma OpenSizes(fs: Fs, f: nat)
    requires Open(fs, f)
    ensures fs.blockSize >= 8
  {
  }

  lemma {:induction false} StoreAtHome(fs: Fs, f: nat, pos: nat, buf: seq<byte>)
    requires Open(fs, f) && LogicalBlock(pos, fs.blockSize) < |Phys(fs, f)|
    ensures LogicalBlock(Home(pos, fs.blockSize), fs.blockSize) == LogicalBlock(pos, fs.blockSize)
    ensures StoreChunk(fs, f, pos, buf) == StoreChunk(fs, f, Home(pos, fs.blockSize), buf)
  {
    hide Geometry, Inv, Home, LogicalBlock, OffsetOf, BlockOf, Phys, Formatted, Store;
    OpenSizes(fs, f);
    HomeBlock(pos, fs.blockSize);
  }

  lemma {:induction false} ChunkAtHome(fs: Fs, f: nat, pos: nat, buf: seq<byte>)
    requires Open(fs, f) && buf != []
    ensures WriteChunk(fs, f, pos, buf) == WriteChunk(fs, f, Home(pos, fs.blockSize), buf)
  {
    hide Geometry, Inv, Home, LogicalBlock, OffsetOf, BlockOf, Append, BlocksOf, Formatted, StoreChunk, FileStep,
         HasRoom;
    OpenSizes(fs, f);
    HomeBlock(pos, fs.blockSize);
    var l, total := LogicalBlock(pos, fs.blockSize), |Phys(fs, f)|;
    if l < total {
      StoreAtHome(fs, f, pos, buf);
    } else if l == total && fs.freeBlocks > 0 && CanGrow(fs, f) {
      AppendThenStore(fs, f, pos, buf);
      AppendThenStore(fs, f, Home(pos, fs.blockSize), buf);
      StoreAtHome(Append(fs, f).0, f, pos, buf);
      hide WriteChunk;
    } else {
      AppendStep(fs, f);
    }
  }

  lemma {:induction false} LoopUnfolds(fs: Fs, f: nat, pos: nat, buf: seq<byte>)
    requires Open(fs, f)
    ensures WriteLoop(fs, f, pos, buf) ==
            if buf == [] then Written(fs, 0, Ok(()))
            else
              var c := WriteChunk(fs, f, pos, buf);
              if c.status.Err? then c
              else
                var w := WriteLoop(c.fs, f, pos + c.done, buf[c.done..]);
                Written(w.fs, c.done + w.done, w.status)
  {
    hide Inv, WriteChunk, Formatted, OffsetOf;
  }

  lemma {:induction false} EmptyLoop(fs: Fs, f: nat, pos: nat)
    requires Open(fs, f)
    ensures WriteLoop(fs, f, pos, []) == Written(fs, 0, Ok(()))
  {
  }

  /** The loop writes to `Home(pos)`. */
  lemma {:induction false} LoopAtHome(fs: Fs, f: nat, pos: nat, buf: seq<byte>)
    requires Open(fs, f) && LogicalBlock(pos, fs.blockSize) <= |Phys(fs, f)|
    ensures WriteLoop(fs, f, pos, buf) == WriteLoop(fs, f, Home(pos, fs.blockSize), buf)
    decreases |buf|
  {
    hide Inv, WriteLoop, Home, LogicalBlock, OffsetOf, BlockOf, WriteChunk, BlocksOf, Formatted, Stored, HasRoom;
    var b := fs.blockSize;
    var p := Home(pos, b);
    LoopUnfolds(fs, f, pos, buf);
    LoopUnfolds(fs, f, p, buf);
    if buf != [] {
      ChunkAtHome(fs, f, pos, buf);
      HomeBlock(pos, b);
      PhysBelow(fs, f);
      ChunkMeaning(fs, f, p, buf);
      var c := WriteChunk(fs, f, pos, buf);
      if c.status.Ok? && c.done < |buf| {
        HomeOfNext(pos, b);
        LoopAtHome(c.fs, f, pos + c.done, buf[c.done..]);
      } else if c.status.Ok? {
        assert buf[c.done..] == [];
        EmptyLoop(c.fs, f, pos + c.done);
        EmptyLoop(c.fs, f, p + c.done);
      }
    }
  }

  /** From `fs` to `fs1` nothing but file `f` changed, its bytes only by `bytes` at `p`. */
  ghost predicate Changed(fs: Fs, fs1: Fs, f: nat, p: nat, bytes: seq<byte>) {
    && Inv(fs) && Live(fs, f) && HasTable(fs, f)
    && Inv(fs1) && Live(fs1, f) && HasTable(fs1, f)
    && FileStep(fs, fs1, f) && SameShape(fs, fs1)
    && Wrote(fs, fs1, f, p, bytes)
  }

  lemma {:induction false} ChangedBoth(fs: Fs, fs1: Fs, fs2: Fs, f: nat, p: nat, x: seq<byte>, y: seq<byte>)
    requires Changed(fs, fs1, f, p, x) && Changed(fs1, fs2, f, p + |x|, y)
    ensures Changed(fs, fs2, f, p, x + y)
  {
    StepTransitive(fs, fs1, fs2, f);
    WroteBoth(fs, fs1, fs2, f, p, x, y);
    hide Inv, FileStep, Wrote;
  }

  lemma {:induction false} FormatChanges(fs: Fs, f: nat, p: nat)
    requires Inv(fs) && Live(fs, f) && HasTable(fs, f)
    ensures Changed(fs, Format(fs, f), f, p, [])
  {
    FormatOpens(fs, f);
    hide Inv, ByteAt, Format, FileOk, Geometry;
  }

  lemma {:induction false} GrowSizeChanges(fs: Fs, f: nat, end: nat, p: nat)
    requires Open(fs, f)
    ensures Changed(fs, GrowSize(fs, f, end), f, p, [])
    ensures GrowSize(fs, f, end).inodes[f].size == if end > fs.inodes[f].size then Wrap(end) else fs.inodes[f].size
    ensures Phys(GrowSize(fs, f, end), f) == Phys(fs, f)
  {
    if end > fs.inodes[f].size {
      SizeStep(fs, f, Wrap(end));
      StepKeepsInv(fs, SetSize(fs, f, Wrap(end)), f);
    } else {
      NothingStored(fs, f, p);
    }
    hide Inv, ByteAt, FileOk, Geometry, Formatted, BlocksOf;
  }

  /** What a write leaves when, after formatting (`fs0`), the loop stored `bytes` at `p`. */
  lemma {:induction false} AfterLoop(fs: Fs, fs0: Fs, f: nat, p: nat, bytes: seq<byte>, fs2: Fs)
    requires Changed(fs, fs0, f, p, []) && fs0.inodes == fs.inodes
    requires Stored(fs0, fs2, f, p, bytes)
    ensures Changed(fs, fs2, f, p, bytes) && fs2.inodes[f].size == fs.inodes[f].size
  {
    hide Inv, FileStep, Wrote, Formatted, SameShape, Live, HasTable, TableOf;
    assert Changed(fs0, fs2, f, p, bytes);
    ChangedBoth(fs, fs0, fs2, f, p, [], bytes);
    assert [] + bytes == bytes;
  }

  lemma {:induction false} AfterGrowSize(fs: Fs, fs0: Fs, f: nat, p: nat, bytes: seq<byte>, fs2: Fs, end: nat)
    requires Changed(fs, fs0, f, p, []) && fs0.inodes == fs.inodes
    requires Stored(fs0, fs2, f, p, bytes)
    ensures var fs3 := GrowSize(fs2, f, end);
            && Changed(fs, fs3, f, p, bytes)
            && Phys(fs3, f) == Phys(fs2, f)
            && fs3.inodes[f].size == if end > fs.inodes[f].size then Wrap(end) else fs.inodes[f].size
  {
    hide Inv, FileStep, Wrote, Formatted, SameShape, GrowSize, BlocksOf;
    AfterLoop(fs, fs0, f, p, bytes, fs2);
    GrowSizeChanges(fs2, f, end, p + |bytes|);
    ChangedBoth(fs, fs2, GrowSize(fs2, f, end), f, p, bytes, []);
    assert bytes + [] == bytes;
  }

  lemma {:induction false} FormatFits(fs: Fs, f: nat, p: nat, n: nat)
    requires Inv(fs) && Live(fs, f) && HasTable(fs, f) && n > 0
    ensures HasTable(Format(fs, f), f)
    ensures Fits(Format(fs, f), f, p, n) == Fits(fs, f, p, n)
    ensures Growth(Format(fs, f), f, p, n) == Growth(fs, f, p, n)
  {
    FormatOpens(fs, f);
    hide Inv, FileStep, Format, Formatted, BlocksOf, HasRoom, Needed, Wrote;
  }

  /** A write that starts more than one block past the end of the file is refused on the first
      pass and leaves the file's bytes, its size and all bitmaps and counters as they were. */
  lemma {:induction false} WriteRefused(fs: Fs, f: nat, pos: nat, buf: seq<byte>)
    requires Inv(fs) && Live(fs, f) && HasTable(fs, f)
    requires buf != [] && LogicalBlock(pos, fs.blockSize) > |Phys(fs, f)|
    ensures WriteFile(fs, f, pos, buf) == Io(Format(fs, f), Err(EINVAL), pos)
    ensures Changed(fs, Format(fs, f), f, 0, []) && Format(fs, f).inodes == fs.inodes
    ensures Format(fs, f).blockBits == fs.blockBits && Format(fs, f).freeBlocks == fs.freeBlocks
    ensures Phys(Format(fs, f), f) == Phys(fs, f)
  {
    FormatOpens(fs, f);
    FormatChanges(fs, f, 0);
    hide Inv, FileStep, Formatted, BlocksOf, Wrote, BlockOf, OffsetOf, SameShape;
    assert WriteChunk(Format(fs, f), f, pos, buf) == Written(Format(fs, f), 0, Err(EINVAL));
  }

  /** A write of no bytes changes no byte, but it moves the end of the file to `pos` when `pos`
      lies beyond it, without allocating anything. */
  lemma {:induction false} WriteNothing(fs: Fs, f: nat, pos: nat)
    requires Inv(fs) && Live(fs, f) && HasTable(fs, f)
    ensures var io := WriteFile(fs, f, pos, []);
            && io.ret == Ok(0) && io.pos == pos
            && Changed(fs, io.fs, f, 0, []) && Phys(io.fs, f) == Phys(fs, f)
            && io.fs.inodes[f].size == if pos > fs.inodes[f].size then Wrap(pos) else fs.inodes[f].size
  {
    FormatOpens(fs, f);
    FormatChanges(fs, f, 0);
    NothingStored(Format(fs, f), f, 0);
    hide Inv, FileStep, Format, Formatted, Wrote, GrowSize, BlocksOf, SameShape;
    AfterGrowSize(fs, Format(fs, f), f, 0, [], Format(fs, f), pos);
  }

  /** What a write of at least one byte does when it is not refused. Whether it succeeds is
      decided by the blocks it needs; the bytes go to `p`; on failure the first `done` of them
      have been stored, up to the first block that could not be had, and size and position are
      unchanged. */
  ghost predicate WriteResult(fs: Fs, f: nat, pos: nat, p: nat, buf: seq<byte>, done: nat, io: IoResult<nat>) {
    && buf != [] && done <= |buf|
    && Changed(fs, io.fs, f, p, buf[..done])
    && |Phys(io.fs, f)| == |Phys(fs, f)| + Growth(fs, f, p, |buf|)
    && if Fits(fs, f, p, |buf|) then
         && io.ret == Ok(|buf|) && io.pos == pos + |buf| && done == |buf|
         && io.fs.inodes[f].size == (if pos + |buf| > fs.inodes[f].size then Wrap(pos + |buf|) else fs.inodes[f].size)
       else
         && io.ret == Err(ENOSPC) && io.pos == pos
         && io.fs.inodes[f].size == fs.inodes[f].size
         && BlockOf(p + done, fs.blockSize) == |Phys(io.fs, f)|
         && (done == 0 || OffsetOf(p + done, fs.blockSize) == 0)
  }

  /** `fs0` is `fs` with the table set up: the same file as far as a write is concerned. */
  ghost predicate Prepared(fs: Fs, fs0: Fs, f: nat, p: nat, n: nat) {
    && Changed(fs, fs0, f, p, []) && Open(fs0, f) && n > 0
    && fs0.inodes == fs.inodes && fs0.blockSize == fs.blockSize
    && |Phys(fs0, f)| == |Phys(fs, f)|
    && Fits(fs0, f, p, n) == Fits(fs, f, p, n) && Growth(fs0, f, p, n) == Growth(fs, f, p, n)
  }

  lemma {:induction false} FormatPrepares(fs: Fs, f: nat, p: nat, n: nat)
    requires Inv(fs) && Live(fs, f) && HasTable(fs, f) && n > 0
    ensures Prepared(fs, Format(fs, f), f, p, n)
  {
    hide Inv, FileStep, Wrote, BlocksOf, Fits, Growth, Format, Formatted;
    FormatOpens(fs, f);
    FormatChanges(fs, f, p);
    FormatFits(fs, f, p, n);
  }

  lemma {:induction false} WriteEndsWell(fs: Fs, fs0: Fs, f: nat, pos: nat, p: nat, buf: seq<byte>, w: Written)
    requires Prepared(fs, fs0, f, p, |buf|) && LoopResult(fs0, f, p, buf, w) && w.status.Ok?
    ensures WriteResult(fs, f, pos, p, buf, w.done, Io(GrowSize(w.fs, f, pos + w.done), Ok(w.done), pos + w.done))
  {
    hide Inv, FileStep, Wrote, BlockOf, OffsetOf, BlocksOf, SameShape, Fits, Growth, GrowSize, Stored, Changed;
    AfterGrowSize(fs, fs0, f, p, buf[..w.done], w.fs, pos + w.done);
  }

  lemma {:induction false} WriteEndsEarly(fs: Fs, fs0: Fs, f: nat, pos: nat, p: nat, buf: seq<byte>, w: Written)
    requires Prepared(fs, fs0, f, p, |buf|) && LoopResult(fs0, f, p, buf, w) && w.status.Err?
    ensures WriteResult(fs, f, pos, p, buf, w.done, Io(w.fs, Err(w.status.error), pos))
  {
    hide Inv, FileStep, Wrote, BlockOf, OffsetOf, BlocksOf, SameShape, Fits, Growth, Stored, Changed;
    AfterLoop(fs, fs0, f, p, buf[..w.done], w.fs);
  }

  /** Every write of at least one byte that is not refused, in closed form. */
  lemma {:induction false} WriteMeaning(fs: Fs, f: nat, pos: nat, buf: seq<byte>) returns (done: nat)
    requires Inv(fs) && Live(fs, f) && HasTable(fs, f)
    requires buf != [] && LogicalBlock(pos, fs.blockSize) <= |Phys(fs, f)|
    ensures WriteResult(fs, f, pos, Home(pos, fs.blockSize), buf, done, WriteFile(fs, f, pos, buf))
  {
    hide Inv, FileStep, Wrote, BlockOf, OffsetOf, BlocksOf, Home, LogicalBlock, SameShape, Fits, Growth, Format,
         Formatted, Changed;
    var p, fs0 := Home(pos, fs.blockSize), Format(fs, f);
    FormatPrepares(fs, f, p, |buf|);
    HomeBlock(pos, fs.blockSize);
    LoopAtHome(fs0, f, pos, buf);
    LoopMeaning(fs0, f, p, buf);
    hide Prepared, LoopResult, WriteLoop, GrowSize, WriteResult;
    var w := WriteLoop(fs0, f, pos, buf);
    done := w.done;
    if w.status.Ok? {
      WriteEndsWell(fs, fs0, f, pos, p, buf, w);
    } else {
      WriteEndsEarly(fs, fs0, f, pos, p, buf, w);
    }
  }

  // ---------------------------------------------------------------- read

  /** The bytes one pass copies: up to the end of the block. */
  function Chunk(fs: Fs, f: nat, pos: nat, n: nat): (r: seq<byte>)
    requires Open(fs, f) && LogicalBlock(pos, fs.blockSize) < |Phys(fs, f)|
    ensures |r| == Min(n, fs.blockSize - OffsetOf(pos, fs.blockSize))
  {
    PhysAscending(fs, f);
    var at := OffsetOf(pos, fs.blockSize);
    fs.data[Phys(fs, f)[LogicalBlock(pos, fs.blockSize)]][at..at + Min(n, fs.blockSize - at)]
  }

  /** The loop of lab4/file.c:193-215: the bytes copied out, and whether every block was found. */
  function ReadLoop(fs: Fs, f: nat, pos: nat, n: nat): (r: (seq<byte>, bool))
    requires Open(fs, f)
    ensures |r.0| <= n && (r.1 ==> |r.0| == n)
    decreases n
  {
    if n == 0 then ([], true)
    else if LogicalBlock(pos, fs.blockSize) >= |Phys(fs, f)| then ([], false)
    else
      var bytes := Chunk(fs, f, pos, n);
      var rest := ReadLoop(fs, f, pos + |bytes|, n - |bytes|);
      (bytes + rest.0, rest.1)
  }

  /** Under the invariant a table with the magic word is a table, and without it the file is empty. */
  lemma {:induction false} MagicOpens(fs: Fs, f: nat)
    requires Inv(fs) && Live(fs, f) && HasTable(fs, f)
    ensures Magic(TableOf(fs, f)) == EXTENT_MAGIC <==> Formatted(TableOf(fs, f))
    ensures Magic(TableOf(fs, f)) != EXTENT_MAGIC ==> fs.inodes[f].size == 0
  {
    LiveHasTable(fs, f);
    if !Formatted(TableOf(fs, f)) {
      ZeroBlockIsUnformatted(TableOf(fs, f));
    }
  }

  /** lab4/file.c:154-219 for a live file. The table of a file never written is set up here. */
  function ReadFile(fs: Fs, f: nat, pos: nat, n: nat): (io: IoResult<seq<byte>>)
    requires Inv(fs) && Live(fs, f) && HasTable(fs, f)
  {
    FormatOpens(fs, f);
    var size := fs.inodes[f].size;
    if Magic(TableOf(fs, f)) != EXTENT_MAGIC then
      if size == 0 then Io(Format(fs, f), Ok([]), pos) else Io(fs, Err(EOPNOTSUPP), pos)
    else if pos >= size then Io(fs, Ok([]), pos)
    else
      MagicOpens(fs, f);
      var m := Min(n, size - pos);
      var r := ReadLoop(fs, f, pos, m);
      if r.1 then Io(fs, Ok(r.0), pos + m) else Io(fs, Err(EIO), pos)
  }

  /** How many bytes a read at `pos` asks of the blocks. */
  function Wanted(fs: Fs, f: nat, pos: nat, n: nat): nat
    requires HasTable(fs, f)
  {
    if pos >= fs.inodes[f].size then 0 else Min(n, fs.inodes[f].size - pos)
  }

  lemma {:induction false} ReadFormatted(fs: Fs, f: nat, pos: nat, n: nat)
    requires Inv(fs) && Live(fs, f) && HasTable(fs, f) && Magic(TableOf(fs, f)) == EXTENT_MAGIC
    ensures Open(fs, f)
    ensures var m := Wanted(fs, f, pos, n);
            var r := ReadLoop(fs, f, pos, m);
            ReadFile(fs, f, pos, n) ==
            if pos >= fs.inodes[f].size then Io(fs, Ok([]), pos)
            else if r.1 then Io(fs, Ok(r.0), pos + m)
            else Io(fs, Err(EIO), pos)
  {
    MagicOpens(fs, f);
    hide Geometry, Inv, BlocksOf, Formatted, Magic, ReadLoop;
  }

  /** The `n` bytes of file `f` from position `pos` on. */
  function Slice(fs: Fs, f: nat, pos: nat, n: nat): (r: seq<byte>)
    requires HasTable(fs, f)
    ensures |r| == n
  {
    seq<byte>(n, i requires 0 <= i < n => ByteAt(fs, f, pos + i))
  }

  lemma {:induction false} SliceSplit(fs: Fs, f: nat, pos: nat, c: nat, n: nat)
    requires HasTable(fs, f)
    ensures Slice(fs, f, pos, c) + Slice(fs, f, pos + c, n) == Slice(fs, f, pos, c + n)
  {
    hide ByteAt;
  }

  lemma {:induction false} BlockSlice(fs: Fs, f: nat, pos: nat, c: nat)
    requires Open(fs, f) && BlockOf(pos, fs.blockSize) < |Phys(fs, f)|
    requires OffsetOf(pos, fs.blockSize) + c <= fs.blockSize
    ensures Phys(fs, f)[BlockOf(pos, fs.blockSize)] < |fs.data|
    ensures var at := OffsetOf(pos, fs.blockSize);
            fs.data[Phys(fs, f)[BlockOf(pos, fs.blockSize)]][at..at + c] == Slice(fs, f, pos, c)
  {
    LiveHasTable(fs, f);
    PhysAscending(fs, f);
    hide Inv, BlockOf, OffsetOf, BlocksOf, Formatted;
    var l, at := BlockOf(pos, fs.blockSize), OffsetOf(pos, fs.blockSize);
    var chunk := fs.data[Phys(fs, f)[l]][at..at + c];
    forall i | 0 <= i < c
      ensures chunk[i] == Slice(fs, f, pos, c)[i]
    {
      SameBlock(pos, i, fs.blockSize);
      assert ByteAt(fs, f, pos + i) == fs.data[Phys(fs, f)[l]][at + i] == chunk[i];
      assert Slice(fs, f, pos, c)[i] == ByteAt(fs, f, pos + i);
    }
  }

  lemma {:induction false} ChunkSlice(fs: Fs, f: nat, pos: nat, n: nat)
    requires Open(fs, f) && LogicalBlock(pos, fs.blockSize) == BlockOf(pos, fs.blockSize) < |Phys(fs, f)|
    ensures Chunk(fs, f, pos, n) == Slice(fs, f, pos, Min(n, fs.blockSize - OffsetOf(pos, fs.blockSize)))
  {
    hide Inv, BlockOf, OffsetOf, LogicalBlock, Formatted, BlocksOf, Slice, ByteAt;
    BlockSlice(fs, f, pos, Min(n, fs.blockSize - OffsetOf(pos, fs.blockSize)));
  }

  lemma {:induction false} ReadStep(fs: Fs, f: nat, pos: nat, n: nat)
    requires Open(fs, f) && 0 < n && LogicalBlock(pos, fs.blockSize) == BlockOf(pos, fs.blockSize)
    ensures var c := Min(n, fs.blockSize - OffsetOf(pos, fs.blockSize));
            if BlockOf(pos, fs.blockSize) < |Phys(fs, f)| then
              var rest := ReadLoop(fs, f, pos + c, n - c);
              ReadLoop(fs, f, pos, n) == (Slice(fs, f, pos, c) + rest.0, rest.1)
            else
              ReadLoop(fs, f, pos, n) == ([], false)
  {
    hide Geometry, Inv, BlockOf, OffsetOf, LogicalBlock, Formatted, BlocksOf, Slice, ByteAt;
    if BlockOf(pos, fs.blockSize) < |Phys(fs, f)| {
      ChunkSlice(fs, f, pos, n);
    }
    hide Chunk;
  }

  lemma {:induction false} NoRead(fs: Fs, f: nat, pos: nat)
    requires Open(fs, f)
    ensures ReadLoop(fs, f, pos, 0) == ([], true) && Slice(fs, f, pos, 0) == []
  {
  }

  /** What the loop has copied after a chunk of `c` bytes and the `rest`. */
  lemma {:induction false} ReadJoins(fs: Fs, f: nat, pos: nat, n: nat, c: nat, rest: (seq<byte>, bool),
                                     r: (seq<byte>, bool))
    requires HasTable(fs, f) && c <= n && rest.0 == Slice(fs, f, pos + c, |rest.0|)
    requires r == (Slice(fs, f, pos, c) + rest.0, rest.1)
    ensures r.0 == Slice(fs, f, pos, |r.0|)
  {
    hide Slice, BlocksOf, Geometry;
    SliceSplit(fs, f, pos, c, |rest.0|);
  }

  lemma {:induction false} FirstBlock(pos: nat, n: nat, b: nat)
    requires b > 0 && n > 0 && pos + n <= U32
    ensures LogicalBlock(pos, b) == BlockOf(pos, b) <= BlockOf(pos + n - 1, b)
    ensures n <= b - OffsetOf(pos, b) ==> BlockOf(pos + n - 1, b) == BlockOf(pos, b)
  {
    BlockBelow(pos, b);
    DivMonotone(pos, pos + n - 1, b);
    if n <= b - OffsetOf(pos, b) {
      SameBlock(pos, n - 1, b);
    }
  }

  /** The read loop finds every block exactly when the last one exists, and then it has copied
      the bytes of the range; otherwise it has copied a first part of them. */
  lemma {:induction false} ReadLoopMeaning(fs: Fs, f: nat, pos: nat, n: nat)
    requires Open(fs, f) && pos + n <= U32
    ensures var r := ReadLoop(fs, f, pos, n);
            && (r.1 <==> n == 0 || BlockOf(pos + n - 1, fs.blockSize) < |Phys(fs, f)|)
            && r.0 == Slice(fs, f, pos, |r.0|)
    decreases n
  {
    hide Inv, ReadLoop, BlockOf, OffsetOf, LogicalBlock, Formatted, BlocksOf, TableOf, Slice, ByteAt, Geometry;
    NoRead(fs, f, pos);
    var b, r := fs.blockSize, ReadLoop(fs, f, pos, n);
    if n > 0 {
      var c := Min(n, b - OffsetOf(pos, b));
      FirstBlock(pos, n, b);
      ReadStep(fs, f, pos, n);
      if BlockOf(pos, b) < |Phys(fs, f)| {
        var rest := ReadLoop(fs, f, pos + c, n - c);
        ReadLoopMeaning(fs, f, pos + c, n - c);
        assert pos + c + (n - c) - 1 == pos + n - 1;
        ReadJoins(fs, f, pos, n, c, rest, r);
      }
    }
  }

  /** Whether the size of a file is covered by its blocks. */
  ghost predicate Sized(fs: Fs, f: nat)
    requires HasTable(fs, f)
  {
    fs.inodes[f].size == 0 || BlockOf(fs.inodes[f].size - 1, fs.blockSize) < |Phys(fs, f)|
  }

  /** A read changes no byte and no size. It returns the part of the contents it asks for; it
      fails exactly when that part is not covered by blocks, and never falls through to the
      single-block path. */
  lemma {:induction false} ReadMeaning(fs: Fs, f: nat, pos: nat, n: nat)
    requires Inv(fs) && Live(fs, f) && HasTable(fs, f)
    ensures var io, m := ReadFile(fs, f, pos, n), Wanted(fs, f, pos, n);
            && Changed(fs, io.fs, f, 0, []) && io.fs.inodes == fs.inodes && Phys(io.fs, f) == Phys(fs, f)
            && (if m == 0 || BlockOf(pos + m - 1, fs.blockSize) < |Phys(fs, f)| then
                  io.ret == Ok(Slice(fs, f, pos, m)) && io.pos == pos + m
                else
                  io.ret == Err(EIO) && io.pos == pos)
  {
    hide Inv, FileStep, Wrote, SameShape, BlockOf, OffsetOf, LogicalBlock, BlocksOf, ByteAt, Changed, ReadLoop;
    FormatOpens(fs, f);
    FormatChanges(fs, f, 0);
    MagicOpens(fs, f);
    if Magic(TableOf(fs, f)) == EXTENT_MAGIC {
      assert Format(fs, f) == fs;
      hide Format, Magic, Formatted;
      if pos < fs.inodes[f].size {
        ReadLoopMeaning(fs, f, pos, Wanted(fs, f, pos, n));
      }
    }
  }
}
