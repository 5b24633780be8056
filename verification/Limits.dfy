/** Promises the code does not keep for every input, each with calls that break it. The exact
    conditions are in ByteStore (WriteRefines, EmptyWriteKeepsSizedIff, ReadableIffSized) and, for
    refused creations, here. */
module Limits {
  import opened Bytes
  import opened ExtentTable
  import opened Arith
  import opened State
  import opened FileSteps
  import opened Blocks
  import opened FileOps
  import opened ReadWrite
  import opened ByteStore
  import opened Directory
  import opened Creation
  import opened Runs

  /** A file that was just created, with `free` blocks left. */
  ghost predicate Fresh(fs: Fs, f: nat, free: nat) {
    && Inv(fs) && Live(fs, f) && HasTable(fs, f) && Phys(fs, f) == [] && fs.inodes[f].size == 0
    && fs.freeBlocks == free && CanGrow(fs, f)
  }

  lemma {:induction false} CreatedIsFresh(fs: Fs, name: seq<byte>)
    requires HasSpace(fs) && Last(fs) == 1 && fs.blockSize == 1024
    requires |name| < NAME_LIMIT && NoNul(name) && name !in Dir(fs)
    ensures Last(fs) - 1 < MaxEntries(fs.blockSize)
    ensures Fresh(Created(fs, name), 2, fs.freeBlocks - 1) && SameSizes(fs, Created(fs, name))
  {
    var fs1 := Created(fs, name);
    assert fs1.freeBlocks == fs.freeBlocks - 1 && SameSizes(fs, fs1);
    hide Inv, Dir, Created, SameFile, Geometry, BlocksOf, View;
    CreatedMeaning(fs, name);
  }

  lemma {:induction false} FirstFile(inodeCount: nat, blockCount: nat, name: seq<byte>)
    requires MountSizes(1024, inodeCount, blockCount) && inodeCount >= 3 && blockCount >= 2
    requires |name| < NAME_LIMIT && NoNul(name)
    ensures var fs := Mounted(1024, inodeCount, blockCount);
            && Inv(fs) && fs.inodes[ROOT].block < |fs.data|
            && Create(fs, name).1 == Ok(2) && Fresh(Create(fs, name).0, 2, blockCount - 2)
            && SameSizes(fs, Create(fs, name).0)
  {
    var fs := Mounted(1024, inodeCount, blockCount);
    MountedMeaning(1024, inodeCount, blockCount);
    CreateMeaning(fs, name);
    RootBlockMeaning(fs);
    var fs1 := EnsureRootBlock(fs).0;
    assert Used(fs1) == 1 && Last(fs1) == 1 && HasSpace(fs1) && SameSizes(fs, fs1);
    hide Inv, Mounted, EnsureRootBlock, Create, Dir, Fresh, HasSpace;
    CreatedIsFresh(fs1, name);
  }

  // ---------------------------------------------------------------- empty writes

  lemma {:induction false} EmptyWriteThenRead(fs: Fs, f: nat, free: nat, pos: nat)
    requires Fresh(fs, f, free) && 0 < pos < U32
    ensures var io := WriteFile(fs, f, pos, []);
            && io.ret == Ok(0) && Inv(io.fs) && Live(io.fs, f) && HasTable(io.fs, f)
            && ReadFile(io.fs, f, pos - 1, 1).ret == Err(EIO)
  {
    hide Inv, WriteFile, ReadFile, FileStep, Wrote, BlocksOf, BlockOf, HasRoom;
    WriteNothing(fs, f, pos);
    ReadMeaning(WriteFile(fs, f, pos, []).fs, f, pos - 1, 1);
  }

  /** "Reading returns 0 at the end of the file, or the bytes": after writing no bytes at position
      5000 of a new file, its size is 5000 and reading at 4999 is an I/O error. */
  lemma {:induction false} EmptyWriteBreaksReads()
    ensures var fs := Create(Mounted(1024, 20, 20), [97]).0;
            && Inv(fs) && Live(fs, 2) && HasTable(fs, 2)
            && var io := WriteFile(fs, 2, 5000, []);
               && io.ret == Ok(0) && Inv(io.fs) && Live(io.fs, 2) && HasTable(io.fs, 2)
               && ReadFile(io.fs, 2, 4999, 1).ret == Err(EIO)
  {
    FirstFile(20, 20, [97]);
    hide Mounted, Create, WriteFile, ReadFile;
    EmptyWriteThenRead(Create(Mounted(1024, 20, 20), [97]).0, 2, 18, 5000);
  }

  // ---------------------------------------------------------------- bytes of a write that ran out of space

  lemma FreshSizes(fs: Fs, f: nat, free: nat)
    requires Fresh(fs, f, free)
    ensures fs.blockSize >= 8
    ensures BlockOf(0, fs.blockSize) == LogicalBlock(0, fs.blockSize) == Home(0, fs.blockSize) == 0
  {
    hide CanGrow, BlocksOf;
  }

  lemma {:induction false} FirstBlockStored(fs: Fs, f: nat, buf: seq<byte>, done: nat, io: IoResult<nat>)
    requires Fresh(fs, f, 1) && |buf| == fs.blockSize + 1
    requires WriteResult(fs, f, 0, 0, buf, done, io)
    ensures io.ret == Err(ENOSPC) && |Phys(io.fs, f)| == 1 && View(io.fs, f) == [] && io.fs.blockSize == fs.blockSize
    ensures ByteAt(io.fs, f, 0) == buf[0]
  {
    var b := fs.blockSize;
    assert BlockOf(b, b) == 1 && BlockOf(0, b) == 0;
    assert Needed(0, b + 1, 0, b) == 2;
    hide Inv, FileStep, BlocksOf, HasRoom, Geometry;
    assert |Phys(io.fs, f)| == 1;
    assert done > 0;
    assert buf[..done][0] == buf[0];
  }

  lemma {:induction false} OutOfSpace(fs: Fs, f: nat, buf: seq<byte>)
    requires Fresh(fs, f, 1) && |buf| == fs.blockSize + 1
    ensures var io := WriteFile(fs, f, 0, buf);
            && io.ret == Err(ENOSPC) && Inv(io.fs) && Live(io.fs, f) && HasTable(io.fs, f)
            && View(io.fs, f) == [] && |Phys(io.fs, f)| == 1 && ByteAt(io.fs, f, 0) == buf[0]
            && SameSizes(fs, io.fs)
  {
    FreshSizes(fs, f, 1);
    hide Geometry, Inv, WriteFile, FileStep, BlocksOf, BlockOf, OffsetOf, CanGrow, ByteAt, Home, LogicalBlock, Wrote,
         View, Fits, Growth;
    var done := WriteMeaning(fs, f, 0, buf);
    FirstBlockStored(fs, f, buf, done, WriteFile(fs, f, 0, buf));
  }

  lemma {:induction false} ByteWritten(fs: Fs, f: nat, pos: nat, p: nat, x: byte, done: nat, io: IoResult<nat>)
    requires HasTable(fs, f) && WriteResult(fs, f, pos, p, [x], done, io) && Fits(fs, f, p, 1)
    ensures io.ret == Ok(1) && HasTable(io.fs, f) && HasTable(fs, f) && Wrote(fs, io.fs, f, p, [x])
  {
    hide Inv, FileStep, Wrote, BlocksOf, Fits, Growth;
    assert [x][..1] == [x];
  }

  lemma {:induction false} ShortFits(fs: Fs, f: nat)
    requires HasTable(fs, f) && |Phys(fs, f)| == 1
    ensures BlockOf(1, fs.blockSize) == LogicalBlock(1, fs.blockSize) == 0 && Home(1, fs.blockSize) == 1
    ensures Fits(fs, f, 1, 1)
  {
    hide BlocksOf;
    HomeBlock(1, fs.blockSize);
    assert BlockOf(1, fs.blockSize) == 0;
  }

  lemma {:induction false} SecondWriteView(fs: Fs, fs1: Fs, f: nat, x: byte, y: byte)
    requires HasTable(fs, f) && HasTable(fs1, f) && Wrote(fs, fs1, f, 1, [y]) && ByteAt(fs, f, 0) == x
    requires fs1.inodes[f].size == 2
    ensures View(fs1, f) == [x, y]
  {
    hide ByteAt;
    assert View(fs1, f)[0] == x && View(fs1, f)[1] == y;
  }

  lemma {:induction false} ShortWrite(fs: Fs, f: nat, x: byte, y: byte)
    requires Inv(fs) && Live(fs, f) && HasTable(fs, f) && Addressable(fs)
    requires |Phys(fs, f)| == 1 && fs.inodes[f].size == 0 && ByteAt(fs, f, 0) == x
    ensures var io := WriteFile(fs, f, 1, [y]);
            io.ret == Ok(1) && HasTable(io.fs, f) && View(io.fs, f) == [x, y]
  {
    ShortFits(fs, f);
    hide Inv, WriteFile, BlocksOf, BlockOf, OffsetOf, HasRoom, ByteAt, Home, LogicalBlock, Wrote, View,
         WriteResult, Fits;
    var io := WriteFile(fs, f, 1, [y]);
    var done := WriteMeaning(fs, f, 1, [y]);
    ByteWritten(fs, f, 1, 1, y, done, io);
    SizeAfterWrite(fs, f, 1, [y], done, io);
    SecondWriteView(fs, io.fs, f, x, y);
  }

  /** "The gap between the old end of file and the position of a write reads as zeros": on a device
      of three blocks, a write of 1025 ones runs out of space and leaves an empty file; a byte
      written at position 1 then brings one of the ones back. */
  lemma {:induction false} StaleBytesReturn(ones: seq<byte>)
    requires |ones| == 1025 && ones[0] == 1
    ensures var fs := Create(Mounted(1024, 20, 3), [97]).0;
            && Inv(fs) && Live(fs, 2) && HasTable(fs, 2)
            && var io := WriteFile(fs, 2, 0, ones);
               && io.ret == Err(ENOSPC) && Inv(io.fs) && Live(io.fs, 2) && HasTable(io.fs, 2) && View(io.fs, 2) == []
               && var io2 := WriteFile(io.fs, 2, 1, [7]);
                  io2.ret == Ok(1) && HasTable(io2.fs, 2) && View(io2.fs, 2) == [1, 7] != Overwrite([], 1, [7])
  {
    FirstFile(20, 3, [97]);
    var fs := Create(Mounted(1024, 20, 3), [97]).0;
    assert Addressable(fs);
    assert Overwrite([], 1, [7])[0] == 0;
    hide Mounted, Create, WriteFile, ByteAt, BlocksOf, HasRoom;
    OutOfSpace(fs, 2, ones);
    ShortWrite(WriteFile(fs, 2, 0, ones).fs, 2, 1, 7);
  }

  // ---------------------------------------------------------------- positions beyond 2^32 blocks

  lemma {:induction false} FirstByteView(fs: Fs, fs1: Fs, f: nat, x: byte)
    requires HasTable(fs, f) && HasTable(fs1, f) && Wrote(fs, fs1, f, 0, [x]) && fs1.inodes[f].size == 1
    ensures View(fs1, f) == [x]
  {
    hide ByteAt;
    assert View(fs1, f)[0] == x;
  }

  lemma {:induction false} FarWrite(fs: Fs, f: nat, free: nat, pos: nat, x: byte)
    requires Fresh(fs, f, free) && free > 0 && Addressable(fs)
    requires BlockOf(pos, fs.blockSize) >= U32 && Home(pos, fs.blockSize) == 0
    ensures var io := WriteFile(fs, f, pos, [x]);
            io.ret == Ok(1) && HasTable(io.fs, f) && View(io.fs, f) == [x]
  {
    var b := fs.blockSize;
    HomeBlock(pos, b);
    assert BlockOf(0, b) == 0 && Needed(0, 1, 0, b) == 1;
    assert Fits(fs, f, 0, 1);
    hide Geometry, Inv, WriteFile, BlocksOf, HasRoom, ByteAt, BlockOf, OffsetOf, Home, LogicalBlock, Wrote, View,
         WriteResult, Fits;
    var io := WriteFile(fs, f, pos, [x]);
    var done := WriteMeaning(fs, f, pos, [x]);
    ByteWritten(fs, f, pos, 0, x, done, io);
    SizeAfterWrite(fs, f, pos, [x], done, io);
    FirstByteView(fs, io.fs, f, x);
  }

  lemma {:induction false} FarHome()
    ensures BlockOf(1024 * 0x1_0000_0000, 1024) == 0x1_0000_0000 && Home(1024 * 0x1_0000_0000, 1024) == 0
  {
  }

  /** "A write goes to its position": a byte written to a new file at 2^32 blocks, position 2^42,
      is stored at position 0, and the size becomes 1. */
  lemma {:induction false} FarWriteWrapsAround()
    ensures var fs := Create(Mounted(1024, 20, 20), [97]).0;
            && Inv(fs) && Live(fs, 2) && HasTable(fs, 2)
            && var io := WriteFile(fs, 2, 1024 * 0x1_0000_0000, [7]);
               io.ret == Ok(1) && HasTable(io.fs, 2) && View(io.fs, 2) == [7]
  {
    FirstFile(20, 20, [97]);
    var fs, pos := Create(Mounted(1024, 20, 20), [97]).0, 1024 * 0x1_0000_0000;
    assert Addressable(fs) && fs.blockSize == 1024;
    FarHome();
    hide Mounted, Create, WriteFile, View, Home;
    FarWrite(fs, 2, 18, pos, 7);
  }

  // ---------------------------------------------------------------- traces of a refused creation

  /** "A refused creation leaves no trace": exactly when the name was too long, or the root has its
      block and either there was no space or the record left in the free inode slot was there. */
  lemma {:induction false} RefusalLeavesNoTraceIff(fs: Fs, name: seq<byte>)
    requires Inv(fs)
    ensures fs.inodes[ROOT].block < |fs.data| && 0 <= Used(fs) && 0 <= Last(fs) < |fs.inodes|
    ensures Create(fs, name).1.Err? ==>
              (Create(fs, name).0 == fs <==>
                 || |name| >= NAME_LIMIT
                 || (fs.inodes[ROOT].blocks == 1 &&
                     (|| fs.freeBlocks == 0 || Last(fs) + 1 == |fs.inodes|
                      || fs.inodes[Last(fs) + 1] == NewFile(Last(fs) + 1, Used(fs)))))
  {
    CreateMeaning(fs, name);
    RootBlockMeaning(fs);
    assert RootOk(fs) && Bitmaps(fs);
    hide Create, Dir, SameFile, Created, EnsureRootBlock, MaxEntries, RecordOk, Files, Disjoint, Covered, DirectoryOk;
    var fs1 := EnsureRootBlock(fs).0;
    if HasSpace(fs1) {
      assert Refused(fs1).inodes[Last(fs) + 1] == NewFile(Last(fs) + 1, Used(fs1));
      if fs1 == fs && fs.inodes[Last(fs) + 1] == NewFile(Last(fs) + 1, Used(fs)) {
        assert Refused(fs).inodes == fs.inodes;
      }
    }
    hide Inv;
  }

  /** With inodes for the root alone the first creation is refused, but takes the root's block. With
      the 20 inodes and blocks of the source FirstFile applies, and no such creation is refused. */
  lemma {:induction false} RefusalTakesRootBlock()
    ensures var fs := Mounted(1024, 2, 20);
            && Inv(fs) && fs.inodes[ROOT].block < |fs.data|
            && Create(fs, [97]).1 == Err(ENOSPC) && Create(fs, [97]).0.freeBlocks == 19 != fs.freeBlocks
  {
    MountedMeaning(1024, 2, 20);
    var fs := Mounted(1024, 2, 20);
    CreateMeaning(fs, [97]);
    RootBlockMeaning(fs);
  }

  lemma {:induction false} SecondCreation(fs: Fs, name: seq<byte>)
    requires HasSpace(fs) && Last(fs) == 1 && |fs.inodes| >= 4 && fs.freeBlocks >= 2 && MaxEntries(fs.blockSize) >= 2
    requires |name| < NAME_LIMIT && NoNul(name) && name !in Dir(fs) && fs.inodes[3] == BLANK
    ensures var fs1 := Created(fs, name);
            && Inv(fs1) && fs1.inodes[ROOT].block < |fs1.data|
            && Create(fs1, name).1 == Err(EEXIST) && Create(fs1, name).0 != fs1
  {
    CreatedMeaning(fs, name);
    var fs1 := Created(fs, name);
    assert fs1.inodes[ROOT].blocks == 1 && fs1.freeBlocks == fs.freeBlocks - 1 && fs1.inodes[3] == BLANK;
    assert fs1.blockSize == fs.blockSize && |fs1.inodes| == |fs.inodes| && Last(fs1) == 2;
    hide Created, Dir, SameFile;
    CreateMeaning(fs1, name);
    RootBlockMeaning(fs1);
    hide Create, EnsureRootBlock, Inv;
    assert Refused(fs1).inodes[3] == NewFile(3, Used(fs1)) != BLANK;
  }

  /** Creating the same file twice leaves a record in the next free inode slot. */
  lemma {:induction false} RefusalLeavesRecord()
    ensures var fs := Create(Mounted(1024, 20, 20), [97]).0;
            && Inv(fs) && |fs.inodes| == 20 && fs.inodes[ROOT].block < |fs.data|
            && Create(fs, [97]).1 == Err(EEXIST) && Create(fs, [97]).0 != fs
  {
    var m := Mounted(1024, 20, 20);
    MountedMeaning(1024, 20, 20);
    CreateMeaning(m, [97]);
    RootBlockMeaning(m);
    FirstFile(20, 20, [97]);
    var r := EnsureRootBlock(m).0;
    assert HasSpace(r);
    hide Create, EnsureRootBlock, Mounted;
    SecondCreation(r, [97]);
  }
}
