/** A regular file as a plain byte sequence: what reads and writes mean for its contents, and
    exactly when. */
module ByteStore {
  import opened Bytes
  import opened ExtentTable
  import opened Arith
  import opened State
  import opened FileSteps
  import opened Blocks
  import opened FileOps
  import opened ReadWrite

  /** The first `length` bytes of `v` continued by zeros, with `buf` laid over them at `pos` as far
      as it lies within. */
  function Overlay(v: seq<byte>, length: nat, pos: nat, buf: seq<byte>): (r: seq<byte>)
    ensures |r| == length
    ensures forall i :: 0 <= i < length ==>
              r[i] == if pos <= i < pos + |buf| then buf[i - pos] else if i < |v| then v[i] else 0
  {
    seq<byte>(length, i => if pos <= i < pos + |buf| then buf[i - pos] else if 0 <= i < |v| then v[i] else 0)
  }

  /** `v` with `buf` at `pos`, zero-filled between the old end and `pos`: a `pwrite`. */
  function Overwrite(v: seq<byte>, pos: nat, buf: seq<byte>): (r: seq<byte>)
    ensures |r| == if pos + |buf| > |v| then pos + |buf| else |v|
  {
    Overlay(v, if pos + |buf| > |v| then pos + |buf| else |v|, pos, buf)
  }

  /** No old bytes are stored between the end of the file and `pos`. */
  ghost predicate GapZero(fs: Fs, f: nat, pos: nat)
    requires HasTable(fs, f)
  {
    forall q :: fs.inodes[f].size <= q < pos ==> ByteAt(fs, f, q) == 0
  }

  /** No old bytes are stored past the end of the file. */
  ghost predicate Clean(fs: Fs, f: nat)
    requires HasTable(fs, f)
  {
    forall q :: fs.inodes[f].size <= q ==> ByteAt(fs, f, q) == 0
  }

  lemma {:induction false} BlockInArea(q: nat, k: nat, n: nat, b: nat)
    requires b > 0 && BlockOf(q, b) < k <= n
    ensures q < n * b
  {
    var d := q / b;
    assert q == b * d + q % b;
    MulNonNegative(b, k - 1 - d);
    MulNonNegative(b, n - k);
    assert n * b == b * d + b + b * (k - 1 - d) + b * (n - k);
  }

  /** A successful write ends inside the blocks of the file, hence below 2^32. */
  lemma {:induction false} WriteEndsInBlocks(fs: Fs, f: nat, pos: nat, buf: seq<byte>, done: nat, io: IoResult<nat>)
    requires Inv(fs) && Live(fs, f) && HasTable(fs, f) && Addressable(fs)
    requires WriteResult(fs, f, pos, Home(pos, fs.blockSize), buf, done, io) && io.ret.Ok?
    ensures var p := Home(pos, fs.blockSize);
            p + |buf| <= U32 - 1 && BlockOf(p + |buf| - 1, fs.blockSize) < |Phys(io.fs, f)|
  {
    var p := Home(pos, fs.blockSize);
    assert Changed(fs, io.fs, f, p, buf[..done]);
    assert BlockOf(p + |buf| - 1, fs.blockSize) < |Phys(io.fs, f)|;
    PhysBelow(io.fs, f);
    hide Geometry, Inv, FileStep, BlocksOf, Wrote, Home, WriteResult;
    BlockInArea(p + |buf| - 1, |Phys(io.fs, f)|, |fs.blockBits|, fs.blockSize);
  }

  lemma {:induction false} WrapMultiple(x: int, m: int)
    ensures Wrap(0x1_0000_0000 * m + x) == Wrap(x)
  {
  }

  /** Casting the block number and casting the byte position to 32 bits agree. */
  lemma {:induction false} WrapHome(pos: nat, n: nat, b: nat)
    requires b > 0
    ensures Wrap(pos + n) == Wrap(Home(pos, b) + n)
  {
    var d := BlockOf(pos, b);
    var k := d / 0x1_0000_0000;
    assert d == 0x1_0000_0000 * k + Wrap(d);
    assert pos == b * d + OffsetOf(pos, b);
    assert b * d == 0x1_0000_0000 * (b * k) + b * Wrap(d);
    assert pos + n == 0x1_0000_0000 * (b * k) + (Home(pos, b) + n);
    WrapMultiple(Home(pos, b) + n, b * k);
  }

  lemma {:induction false} SizeAfterWrite(fs: Fs, f: nat, pos: nat, buf: seq<byte>, done: nat, io: IoResult<nat>)
    requires Inv(fs) && Live(fs, f) && HasTable(fs, f) && Addressable(fs)
    requires WriteResult(fs, f, pos, Home(pos, fs.blockSize), buf, done, io) && io.ret.Ok?
    ensures BlockOf(pos, fs.blockSize) < U32 ==>
              io.fs.inodes[f].size == if pos + |buf| > fs.inodes[f].size then pos + |buf| else fs.inodes[f].size
    ensures BlockOf(pos, fs.blockSize) >= U32 ==>
              pos >= U32 && io.fs.inodes[f].size == Home(pos, fs.blockSize) + |buf|
  {
    var b, p := fs.blockSize, Home(pos, fs.blockSize);
    WriteEndsInBlocks(fs, f, pos, buf, done, io);
    HomeBlock(pos, b);
    BlockBelow(pos, b);
    WrapHome(pos, |buf|, b);
    hide Inv, FileStep, BlocksOf, Changed, Home, Fits, Growth, BlockOf, OffsetOf;
  }

  lemma {:induction false} WroteView(fs: Fs, fs1: Fs, f: nat, pos: nat, buf: seq<byte>)
    requires HasTable(fs, f) && HasTable(fs1, f) && Wrote(fs, fs1, f, pos, buf)
    requires fs1.inodes[f].size == if pos + |buf| > fs.inodes[f].size then pos + |buf| else fs.inodes[f].size
    ensures View(fs1, f) == Overwrite(View(fs, f), pos, buf) <==> GapZero(fs, f, pos)
  {
    hide ByteAt;
    var v, v1, o := View(fs, f), View(fs1, f), Overwrite(View(fs, f), pos, buf);
    if GapZero(fs, f, pos) {
      forall i | 0 <= i < |v1|
        ensures v1[i] == o[i]
      {
        assert v1[i] == ByteAt(fs1, f, i);
      }
    }
    if v1 == o {
      forall q | fs.inodes[f].size <= q < pos
        ensures ByteAt(fs, f, q) == 0
      {
        assert v1[q] == ByteAt(fs1, f, q) && o[q] == 0;
      }
    }
  }

  /** A write of at least one byte succeeds exactly when it starts at most one block past the
      end of the blocks of the file and the blocks it needs can be had; it is then complete. */
  lemma {:induction false} WriteSucceedsIff(fs: Fs, f: nat, pos: nat, buf: seq<byte>)
    requires Inv(fs) && Live(fs, f) && HasTable(fs, f) && buf != []
    ensures var io := WriteFile(fs, f, pos, buf);
            && (io.ret.Ok? <==>
                  && LogicalBlock(pos, fs.blockSize) <= |Phys(fs, f)|
                  && Fits(fs, f, Home(pos, fs.blockSize), |buf|))
            && (io.ret.Ok? ==> io.ret == Ok(|buf|) && io.pos == pos + |buf|)
  {
    hide Inv, FileStep, BlocksOf, BlockOf, OffsetOf, Fits, Growth, Home, LogicalBlock, Formatted, Format, WriteFile,
         Changed;
    if LogicalBlock(pos, fs.blockSize) > |Phys(fs, f)| {
      WriteRefused(fs, f, pos, buf);
    } else {
      var done := WriteMeaning(fs, f, pos, buf);
    }
  }

  lemma {:induction false} WriteViews(fs: Fs, f: nat, pos: nat, buf: seq<byte>, done: nat, io: IoResult<nat>)
    requires Inv(fs) && Live(fs, f) && HasTable(fs, f) && Addressable(fs)
    requires WriteResult(fs, f, pos, Home(pos, fs.blockSize), buf, done, io) && io.ret.Ok?
    ensures HasTable(io.fs, f)
    ensures View(io.fs, f) == Overwrite(View(fs, f), pos, buf) <==>
              BlockOf(pos, fs.blockSize) < U32 && GapZero(fs, f, pos)
  {
    hide Inv, FileStep, BlocksOf, ByteAt, BlockOf, OffsetOf, Fits, Growth, Home, View, GapZero, Wrote, SameShape,
         Overwrite;
    assert buf[..done] == buf;
    HomeBlock(pos, fs.blockSize);
    SizeAfterWrite(fs, f, pos, buf, done, io);
    if BlockOf(pos, fs.blockSize) < U32 {
      WroteView(fs, io.fs, f, pos, buf);
    } else {
      WriteEndsInBlocks(fs, f, pos, buf, done, io);
      assert |View(io.fs, f)| < |Overwrite(View(fs, f), pos, buf)|;
    }
  }

  /** The exact condition under which a successful write acts as a `pwrite` on the contents:
      its block number fits in 32 bits and no old bytes lie between the end of file and `pos`. */
  lemma {:induction false} WriteRefines(fs: Fs, f: nat, pos: nat, buf: seq<byte>)
    requires Inv(fs) && Live(fs, f) && HasTable(fs, f) && Addressable(fs) && buf != []
    requires WriteFile(fs, f, pos, buf).ret.Ok?
    ensures var io := WriteFile(fs, f, pos, buf);
            && HasTable(io.fs, f)
            && (View(io.fs, f) == Overwrite(View(fs, f), pos, buf) <==>
                 BlockOf(pos, fs.blockSize) < U32 && GapZero(fs, f, pos))
  {
    hide Inv, FileStep, BlocksOf, ByteAt, BlockOf, OffsetOf, Fits, Growth, Home, LogicalBlock, View, Formatted, Format,
         WriteFile, GapZero, Wrote, SameShape;
    WriteSucceedsIff(fs, f, pos, buf);
    var done := WriteMeaning(fs, f, pos, buf);
    WriteViews(fs, f, pos, buf, done, WriteFile(fs, f, pos, buf));
  }

  lemma {:induction false} ChangedNothing(fs: Fs, fs1: Fs, f: nat, p: nat, q: nat)
    requires Changed(fs, fs1, f, p, [])
    ensures Changed(fs, fs1, f, q, [])
  {
    hide Inv, FileStep, ByteAt;
  }

  /** A failing write leaves the position, the size and every byte outside the range at `Home(pos)`
      as they were, which is the range it was asked to write when the block number of `pos` fits
      in 32 bits; inside, it has stored a first part of `buf`. */
  lemma {:induction false} FailedWrite(fs: Fs, f: nat, pos: nat, buf: seq<byte>) returns (done: nat)
    requires Inv(fs) && Live(fs, f) && HasTable(fs, f) && buf != []
    requires WriteFile(fs, f, pos, buf).ret.Err?
    ensures var io := WriteFile(fs, f, pos, buf);
            && io.pos == pos && done <= |buf|
            && io.ret == Err(if LogicalBlock(pos, fs.blockSize) > |Phys(fs, f)| then EINVAL else ENOSPC)
            && (io.ret.error == EINVAL ==>
                  && done == 0 && Phys(io.fs, f) == Phys(fs, f)
                  && io.fs.blockBits == fs.blockBits && io.fs.freeBlocks == fs.freeBlocks)
            && Changed(fs, io.fs, f, Home(pos, fs.blockSize), buf[..done])
            && (BlockOf(pos, fs.blockSize) < U32 ==> Changed(fs, io.fs, f, pos, buf[..done]))
            && io.fs.inodes[f].size == fs.inodes[f].size
  {
    HomeBlock(pos, fs.blockSize);
    hide Inv, FileStep, BlocksOf, ByteAt, BlockOf, OffsetOf, Fits, Growth, Home, LogicalBlock, Formatted, Format,
         WriteFile;
    if LogicalBlock(pos, fs.blockSize) > |Phys(fs, f)| {
      WriteRefused(fs, f, pos, buf);
      done := 0;
      assert buf[..0] == [];
      ChangedNothing(fs, WriteFile(fs, f, pos, buf).fs, f, 0, Home(pos, fs.blockSize));
    } else {
      done := WriteMeaning(fs, f, pos, buf);
    }
  }

  lemma {:induction false} ChangedNothingView(fs: Fs, fs1: Fs, f: nat, p: nat)
    requires Changed(fs, fs1, f, p, []) && fs1.inodes[f].size == fs.inodes[f].size
    ensures View(fs1, f) == View(fs, f) && Clean(fs1, f) == Clean(fs, f)
  {
    hide Inv, FileStep, ByteAt, SameShape;
  }

  lemma {:induction false} SliceOfWritten(fs: Fs, fs1: Fs, f: nat, pos: nat, buf: seq<byte>)
    requires Changed(fs, fs1, f, pos, buf[..|buf|])
    ensures Slice(fs1, f, pos, |buf|) == buf
  {
    hide Inv, FileStep, ByteAt, SameShape;
    assert buf[..|buf|] == buf;
  }

  /** A successful write can be read back, whatever the file held before. */
  lemma {:induction false} ReadBack(fs: Fs, f: nat, pos: nat, buf: seq<byte>)
    requires Inv(fs) && Live(fs, f) && HasTable(fs, f) && Addressable(fs) && buf != []
    requires BlockOf(pos, fs.blockSize) < U32
    requires WriteFile(fs, f, pos, buf).ret.Ok?
    ensures var io := WriteFile(fs, f, pos, buf);
            && Inv(io.fs) && Live(io.fs, f) && HasTable(io.fs, f)
            && ReadFile(io.fs, f, pos, |buf|).ret == Ok(buf)
  {
    hide Inv, FileStep, BlocksOf, ByteAt, BlockOf, OffsetOf, Fits, Growth, Home, LogicalBlock, Formatted, Format,
         WriteFile, ReadFile, Slice;
    WriteSucceedsIff(fs, f, pos, buf);
    var done := WriteMeaning(fs, f, pos, buf);
    var io := WriteFile(fs, f, pos, buf);
    HomeBlock(pos, fs.blockSize);
    SizeAfterWrite(fs, f, pos, buf, done, io);
    WriteEndsInBlocks(fs, f, pos, buf, done, io);
    ReadMeaning(io.fs, f, pos, |buf|);
    SliceOfWritten(fs, io.fs, f, pos, buf);
    hide Wrote, WriteResult;
  }

  /** The `n` bytes of `v` from `pos` on, as far as there are any. */
  function Part(v: seq<byte>, pos: nat, n: nat): (r: seq<byte>)
    ensures |r| == if pos >= |v| then 0 else if n < |v| - pos then n else |v| - pos
    ensures forall i :: 0 <= i < |r| ==> r[i] == v[pos + i]
  {
    if pos >= |v| then [] else v[pos..pos + Min(n, |v| - pos)]
  }

  lemma {:induction false} SliceOfView(fs: Fs, f: nat, pos: nat, m: nat)
    requires HasTable(fs, f)
    ensures m == 0 ==> Slice(fs, f, pos, m) == []
    ensures pos + m <= |View(fs, f)| ==> Slice(fs, f, pos, m) == View(fs, f)[pos..pos + m]
  {
    hide ByteAt;
  }

  /** On a file whose size is covered by its blocks every read yields the requested part of the
      contents: `min(n, size - pos)` bytes, none past the end of the file. */
  lemma {:induction false} ReadRefines(fs: Fs, f: nat, pos: nat, n: nat)
    requires Inv(fs) && Live(fs, f) && HasTable(fs, f) && Sized(fs, f)
    ensures var io := ReadFile(fs, f, pos, n);
            && io.ret == Ok(Part(View(fs, f), pos, n)) && io.pos == pos + |Part(View(fs, f), pos, n)|
  {
    hide Inv, FileStep, ByteAt, BlockOf, OffsetOf, ReadFile, Changed, BlocksOf, Slice, View;
    ReadMeaning(fs, f, pos, n);
    var m := Wanted(fs, f, pos, n);
    if m > 0 {
      DivMonotone(pos + m - 1, fs.inodes[f].size - 1, fs.blockSize);
    }
    SliceOfView(fs, f, pos, m);
  }

  /** A file is readable everywhere exactly when its blocks cover its size. */
  lemma {:induction false} ReadableIffSized(fs: Fs, f: nat)
    requires Inv(fs) && Live(fs, f) && HasTable(fs, f)
    ensures Sized(fs, f) <==> forall pos, n :: ReadFile(fs, f, pos, n).ret.Ok?
  {
    hide Inv, ByteAt, BlockOf, OffsetOf, ReadFile, Changed, BlocksOf, View;
    if Sized(fs, f) {
      forall pos, n
        ensures ReadFile(fs, f, pos, n).ret.Ok?
      {
        ReadRefines(fs, f, pos, n);
      }
    } else {
      ReadMeaning(fs, f, fs.inodes[f].size - 1, 1);
      assert !ReadFile(fs, f, fs.inodes[f].size - 1, 1).ret.Ok?;
    }
  }

  /** Writes of at least one byte keep the size covered, successful or not. */
  lemma {:induction false} WriteKeepsSized(fs: Fs, f: nat, pos: nat, buf: seq<byte>)
    requires Inv(fs) && Live(fs, f) && HasTable(fs, f) && Addressable(fs) && buf != [] && Sized(fs, f)
    ensures var io := WriteFile(fs, f, pos, buf); HasTable(io.fs, f) && Sized(io.fs, f)
  {
    hide Inv, FileStep, BlocksOf, ByteAt, BlockOf, OffsetOf, Fits, Growth, Home, LogicalBlock, Formatted, Format,
         WriteFile, Wrote;
    var io := WriteFile(fs, f, pos, buf);
    if io.ret.Err? {
      if LogicalBlock(pos, fs.blockSize) > |Phys(fs, f)| {
        WriteRefused(fs, f, pos, buf);
      } else {
        var done := WriteMeaning(fs, f, pos, buf);
      }
    } else {
      WriteSucceedsIff(fs, f, pos, buf);
      var done := WriteMeaning(fs, f, pos, buf);
      WriteEndsInBlocks(fs, f, pos, buf, done, io);
      HomeBlock(pos, fs.blockSize);
      SizeAfterWrite(fs, f, pos, buf, done, io);
    }
  }

  /** A write of no bytes is the one call that can push the size past the blocks: exactly when
      `pos`, cast to 32 bits, lies beyond both the end of the file and its blocks. */
  lemma {:induction false} EmptyWriteKeepsSizedIff(fs: Fs, f: nat, pos: nat)
    requires Inv(fs) && Live(fs, f) && HasTable(fs, f) && Sized(fs, f)
    ensures var io := WriteFile(fs, f, pos, []);
            && HasTable(io.fs, f)
            && (Sized(io.fs, f) <==>
                pos <= fs.inodes[f].size || Wrap(pos) == 0 || BlockOf(Wrap(pos) - 1, fs.blockSize) < |Phys(fs, f)|)
  {
    hide Inv, FileStep, BlocksOf, ByteAt, BlockOf, OffsetOf, WriteFile, Wrote;
    WriteNothing(fs, f, pos);
  }

  /** A file without old bytes past its end stays so under every successful write whose block
      number fits in 32 bits; there every write is a `pwrite`. */
  lemma {:induction false} WriteKeepsClean(fs: Fs, f: nat, pos: nat, buf: seq<byte>)
    requires Inv(fs) && Live(fs, f) && HasTable(fs, f) && Addressable(fs) && buf != [] && Clean(fs, f)
    requires BlockOf(pos, fs.blockSize) < U32 && WriteFile(fs, f, pos, buf).ret.Ok?
    ensures var io := WriteFile(fs, f, pos, buf);
            HasTable(io.fs, f) && Clean(io.fs, f) && View(io.fs, f) == Overwrite(View(fs, f), pos, buf)
  {
    hide Inv, FileStep, BlocksOf, ByteAt, BlockOf, OffsetOf, Fits, Growth, Home, LogicalBlock, Formatted, Format,
         WriteFile, SameShape, View, Overwrite;
    WriteSucceedsIff(fs, f, pos, buf);
    var done := WriteMeaning(fs, f, pos, buf);
    HomeBlock(pos, fs.blockSize);
    SizeAfterWrite(fs, f, pos, buf, done, WriteFile(fs, f, pos, buf));
    WriteRefines(fs, f, pos, buf);
  }

  /** Between two states file `j`, the directory and the inode bitmap are the same. */
  ghost predicate Untouched(fs: Fs, fs1: Fs, j: nat) {
    && SameFile(fs, fs1, j)
    && 0 < |fs.data| && 0 < |fs1.data| && ROOT < |fs.inodes| && ROOT < |fs1.inodes|
    && fs1.data[0] == fs.data[0] && fs1.inodes[ROOT] == fs.inodes[ROOT] && fs1.inodeBits == fs.inodeBits
  }

  lemma {:induction false} ChangedLeaves(fs: Fs, fs1: Fs, f: nat, j: nat, p: nat, bytes: seq<byte>)
    requires Changed(fs, fs1, f, p, bytes) && j != f && Live(fs, j)
    ensures Untouched(fs, fs1, j)
  {
    LiveHasTable(fs, j);
    hide FileOk, ByteAt, View, Bitmaps;
    OtherFiles(fs, fs1, f, j);
    StepRoot(fs, fs1, f);
    hide Inv;
  }

  // ---------------------------------------------------------------- the contract of a write

  /** Nothing but `f` changed, and there only a first part of the range that `buf` goes to. */
  ghost predicate Confined(fs: Fs, fs1: Fs, f: nat, pos: nat, buf: seq<byte>)
    requires fs.blockSize > 0
  {
    exists done: nat :: done <= |buf| && Changed(fs, fs1, f, Home(pos, fs.blockSize), buf[..done])
  }

  /** What the caller of a write may rely on. */
  ghost predicate WriteContract(fs: Fs, f: nat, pos: nat, buf: seq<byte>, fs1: Fs, ret: Result<nat>, newPos: nat) {
    && HasTable(fs, f) && HasTable(fs1, f)
    && Confined(fs, fs1, f, pos, buf)
    && (ret.Ok? ==> ret == Ok(|buf|) && newPos == pos + |buf|)
    && (ret.Err? ==> newPos == pos && fs1.inodes[f].size == fs.inodes[f].size)
    && (ret.Ok? && buf != [] && Addressable(fs) ==>
          (View(fs1, f) == Overwrite(View(fs, f), pos, buf) <==>
             BlockOf(pos, fs.blockSize) < U32 && GapZero(fs, f, pos)))
  }

  lemma {:induction false} ConfinedBy(fs: Fs, fs1: Fs, f: nat, pos: nat, buf: seq<byte>, done: nat)
    requires fs.blockSize > 0 && done <= |buf|
    requires Changed(fs, fs1, f, Home(pos, fs.blockSize), buf[..done])
    ensures Confined(fs, fs1, f, pos, buf) && HasTable(fs1, f)
  {
  }

  lemma {:induction false} WriteKeepsInv(fs: Fs, f: nat, pos: nat, buf: seq<byte>)
    requires Inv(fs) && Live(fs, f) && HasTable(fs, f)
    ensures Inv(WriteFile(fs, f, pos, buf).fs) && Live(WriteFile(fs, f, pos, buf).fs, f)
  {
    hide Inv, WriteFile, FileStep, Wrote, LogicalBlock, BlocksOf, Home, Fits, Growth, BlockOf, OffsetOf, Format;
    if buf == [] {
      WriteNothing(fs, f, pos);
    } else if LogicalBlock(pos, fs.blockSize) > |Phys(fs, f)| {
      WriteRefused(fs, f, pos, buf);
    } else {
      var done := WriteMeaning(fs, f, pos, buf);
    }
  }

  lemma {:induction false} EmptyContract(fs: Fs, f: nat, pos: nat)
    requires Inv(fs) && Live(fs, f) && HasTable(fs, f)
    ensures var io := WriteFile(fs, f, pos, []); WriteContract(fs, f, pos, [], io.fs, io.ret, io.pos)
    ensures WriteFile(fs, f, pos, []).ret.Ok?
  {
    var io := WriteFile(fs, f, pos, []);
    hide Inv, WriteFile, View, Overwrite, BlockOf, GapZero, Home, BlocksOf, Confined, Changed;
    WriteNothing(fs, f, pos);
    var none: seq<byte> := [];
    assert none[..0] == [];
    ChangedNothing(fs, io.fs, f, 0, Home(pos, fs.blockSize));
    ConfinedBy(fs, io.fs, f, pos, none, 0);
  }

  lemma {:induction false} FailedContract(fs: Fs, f: nat, pos: nat, buf: seq<byte>)
    requires Inv(fs) && Live(fs, f) && HasTable(fs, f) && buf != [] && WriteFile(fs, f, pos, buf).ret.Err?
    ensures var io := WriteFile(fs, f, pos, buf); WriteContract(fs, f, pos, buf, io.fs, io.ret, io.pos)
    ensures WriteFile(fs, f, pos, buf).ret != Err(EOPNOTSUPP)
  {
    var io := WriteFile(fs, f, pos, buf);
    hide Geometry, Inv, WriteFile, View, Overwrite, BlockOf, GapZero, Home, LogicalBlock, BlocksOf, Confined, Changed;
    var done := FailedWrite(fs, f, pos, buf);
    ConfinedBy(fs, io.fs, f, pos, buf, done);
  }

  lemma {:induction false} DoneContract(fs: Fs, f: nat, pos: nat, buf: seq<byte>)
    requires Inv(fs) && Live(fs, f) && HasTable(fs, f) && buf != [] && WriteFile(fs, f, pos, buf).ret.Ok?
    ensures var io := WriteFile(fs, f, pos, buf); WriteContract(fs, f, pos, buf, io.fs, io.ret, io.pos)
  {
    var io := WriteFile(fs, f, pos, buf);
    hide Inv, WriteFile, View, Overwrite, BlockOf, Addressable, GapZero, Home, Fits, Growth, LogicalBlock, BlocksOf,
         Confined, Changed;
    WriteSucceedsIff(fs, f, pos, buf);
    var done := WriteMeaning(fs, f, pos, buf);
    ConfinedBy(fs, io.fs, f, pos, buf, done);
    if Addressable(fs) {
      WriteRefines(fs, f, pos, buf);
    }
    hide WriteResult;
  }

  lemma {:induction false} WriteMeetsContract(fs: Fs, f: nat, pos: nat, buf: seq<byte>)
    requires Inv(fs) && Live(fs, f) && HasTable(fs, f)
    ensures var io := WriteFile(fs, f, pos, buf);
            && WriteContract(fs, f, pos, buf, io.fs, io.ret, io.pos)
            && Inv(io.fs) && Live(io.fs, f) && io.ret != Err(EOPNOTSUPP)
  {
    hide Inv, WriteFile, WriteContract, BlocksOf;
    WriteKeepsInv(fs, f, pos, buf);
    if buf == [] {
      EmptyContract(fs, f, pos);
    } else if WriteFile(fs, f, pos, buf).ret.Err? {
      FailedContract(fs, f, pos, buf);
    } else {
      DoneContract(fs, f, pos, buf);
    }
  }

  /** Nothing a write or a read of `f` does, whether it succeeds or fails, is seen through another
      file, the directory or the inode bitmap. */
  lemma {:induction false} Isolation(fs: Fs, f: nat, j: nat, pos: nat, buf: seq<byte>, n: nat)
    requires Inv(fs) && Live(fs, f) && HasTable(fs, f) && Live(fs, j) && j != f
    ensures Untouched(fs, WriteFile(fs, f, pos, buf).fs, j)
    ensures Untouched(fs, ReadFile(fs, f, pos, n).fs, j)
  {
    hide Inv, WriteFile, ReadFile, Changed, Untouched, Home, View, GapZero, Overwrite, BlocksOf;
    WriteMeetsContract(fs, f, pos, buf);
    var fs1 := WriteFile(fs, f, pos, buf).fs;
    var done: nat :| done <= |buf| && Changed(fs, fs1, f, Home(pos, fs.blockSize), buf[..done]);
    ChangedLeaves(fs, fs1, f, j, Home(pos, fs.blockSize), buf[..done]);
    ReadMeaning(fs, f, pos, n);
    ChangedLeaves(fs, ReadFile(fs, f, pos, n).fs, f, j, 0, []);
  }
}
