/** From the memory of osfs to the machine: what each file and the whole state stand for. */
module Abstraction {
  import opened Bytes
  import opened ExtentTable
  import opened Arith
  import opened State
  import opened FileSteps
  import opened Blocks
  import opened FileOps
  import opened ReadWrite
  import opened ByteStore
  import opened Directory
  import opened Creation
  import opened Runs
  import M = Machine

  ghost function FileOf(fs: Fs, name: seq<byte>): (f: nat)
    requires Inv(fs) && name in Dir(fs)
    ensures Live(fs, f) && HasTable(fs, f) && f == Dir(fs)[name]
  {
    Resolve(fs, name).value
  }

  /** All bytes of the blocks of a file. */
  function StoredBytes(fs: Fs, f: nat): (s: seq<byte>)
    requires HasTable(fs, f)
    ensures |s| == |Phys(fs, f)| * fs.blockSize
  {
    seq(|Phys(fs, f)| * fs.blockSize, q requires 0 <= q => ByteAt(fs, f, q))
  }

  /** The number of blocks handed out when the last block of the list was. */
  function End(blocks: seq<word>): nat {
    if blocks == [] then 0 else blocks[|blocks| - 1] as int + 1
  }

  function AbsFile(fs: Fs, f: nat): M.File
    requires HasTable(fs, f)
  {
    M.File(f, fs.inodes[f].size, |Phys(fs, f)|, StoredBytes(fs, f), Count(TableOf(fs, f)), End(Phys(fs, f)))
  }

  ghost function AbsFiles(fs: Fs): map<seq<byte>, M.File>
    requires Inv(fs)
  {
    map name | name in Dir(fs) :: AbsFile(fs, FileOf(fs, name))
  }

  ghost function Abs(fs: Fs): M.System
    requires Inv(fs)
  {
    M.System(fs.blockSize, |fs.blockBits|, |fs.inodeBits|, Used(fs), AbsFiles(fs))
  }

  lemma {:induction false} AreaIff(q: nat, k: nat, b: nat)
    requires b > 0
    ensures BlockOf(q, b) < k <==> q < k * b
  {
    var d := q / b;
    assert q == b * d + q % b;
    if d < k {
      BlockInArea(q, k, k, b);
    } else {
      MulNonNegative(b, d - k);
      assert b * d == b * (d - k) + k * b;
    }
  }

  lemma {:induction false} BeyondStored(fs: Fs, f: nat, q: nat)
    requires HasTable(fs, f) && q >= |Phys(fs, f)| * fs.blockSize
    ensures ByteAt(fs, f, q) == 0
  {
    AreaIff(q, |Phys(fs, f)|, fs.blockSize);
  }

  /** The contents of a file are those of the file it stands for. */
  lemma {:induction false} ViewIsContents(fs: Fs, f: nat)
    requires HasTable(fs, f)
    ensures View(fs, f) == M.Contents(AbsFile(fs, f))
  {
    hide ByteAt, BlocksOf;
    forall q | 0 <= q < fs.inodes[f].size
      ensures View(fs, f)[q] == M.Contents(AbsFile(fs, f))[q]
    {
      if q >= |Phys(fs, f)| * fs.blockSize {
        BeyondStored(fs, f, q);
      }
    }
  }

  // ---------------------------------------------------------------- extents

  /** Whether the next block can be merged is read off the list. */
  lemma {:induction false} MergesIff(es: seq<Extent>, lo: nat, hi: nat)
    requires Canonical(es, lo, hi) && hi + 1 < U32
    ensures Merges(es, hi) <==> Flatten(es) != [] && End(Flatten(es)) == hi
  {
    CanonicalFlatten(es, lo, hi);
    hide Flatten;
  }

  lemma {:induction false} EmptyEncoding(lo: nat, hi: nat)
    ensures Encode([]) == [] && Canonical([], lo, hi) && !Merges([], hi)
  {
  }

  /** Under the invariant a table block holds the encoding of its block list. */
  lemma {:induction false} TableIsEncoding(t: Table, lo: nat, hi: nat)
    requires TableOk(t, lo, hi) && hi + 1 < U32
    ensures Count(t) == |Encode(BlocksOf(t))| <= MaxExtents(|t|)
    ensures Canonical(Encode(BlocksOf(t)), lo + 1, hi)
    ensures Merges(Encode(BlocksOf(t)), hi) <==> BlocksOf(t) != [] && End(BlocksOf(t)) == hi
  {
    hide Canonical, Merges, Flatten, End, Get32;
    if Formatted(t) {
      CanonicalIsEncoding(Extents(t), lo + 1, hi);
      MergesIff(Extents(t), lo + 1, hi);
    } else {
      ZeroBlockIsUnformatted(t);
      EmptyEncoding(lo + 1, hi);
    }
    hide Encode;
  }

  lemma {:induction false} AppendedLength(es: seq<Extent>, b: word)
    ensures |Appended(es, b)| == |es| + if Merges(es, b) then 0 else 1
  {
  }

  /** Taking the blocks from `lo` to `hi` one after the other costs at most one extent. */
  lemma {:induction false} EncodeRange(s: seq<word>, low: nat, lo: nat, hi: nat)
    requires Canonical(Encode(s), low, lo) && low <= lo <= hi && hi + 1 < U32
    ensures var es := Encode(s + Range(lo, hi));
            && Canonical(es, low, hi)
            && (lo < hi ==> Merges(es, hi))
            && |es| == |Encode(s)| + if lo == hi || Merges(Encode(s), lo) then 0 else 1
    decreases hi
  {
    hide Canonical, Merges, Encode, Appended;
    if lo == hi {
      assert s + Range(lo, hi) == s;
    } else {
      EncodeRange(s, low, lo, hi - 1);
      var t := s + Range(lo, hi - 1);
      assert s + Range(lo, hi) == t + [hi - 1];
      EncodeSnoc(t, hi - 1);
      CanonicalAppended(Encode(t), low, hi - 1);
      AppendedLength(Encode(t), hi - 1);
      if lo == hi - 1 {
        assert t == s;
      }
    }
  }

  /** The table of a file after a step. */
  lemma {:induction false} ExtentsAfter(t: Table, t1: Table, lo: nat, u: nat, u1: nat)
    requires lo < u <= u1 && u1 + 1 < U32
    requires TableOk(t, lo, u) && TableOk(t1, lo, u1) && BlocksOf(t1) == BlocksOf(t) + Range(u, u1)
    ensures Count(t1) == Count(t) + (if u1 == u || End(BlocksOf(t)) == u then 0 else 1)
    ensures End(BlocksOf(t1)) == if u1 == u then End(BlocksOf(t)) else u1
  {
    hide TableOk, BlocksOf, Encode, Canonical, Merges;
    TableIsEncoding(t, lo, u);
    TableIsEncoding(t1, lo, u1);
    EncodeRange(BlocksOf(t), lo + 1, u, u1);
  }

  // ---------------------------------------------------------------- a step of one file

  /** The stored bytes after a step, from the bytes it wrote. */
  lemma {:induction false} StepStored(fs: Fs, fs1: Fs, f: nat, p: nat, bytes: seq<byte>)
    requires HasTable(fs, f) && HasTable(fs1, f) && Wrote(fs, fs1, f, p, bytes)
    ensures StoredBytes(fs1, f) == Overlay(StoredBytes(fs, f), |Phys(fs1, f)| * fs1.blockSize, p, bytes)
  {
    hide BlocksOf, ByteAt, Geometry;
    var s, s1 := StoredBytes(fs, f), StoredBytes(fs1, f);
    forall q | 0 <= q < |s1|
      ensures s1[q] == Overlay(s, |s1|, p, bytes)[q]
    {
      if q >= |s| {
        BeyondStored(fs, f, q);
      }
    }
  }

  lemma {:induction false} StepTables(fs: Fs, fs1: Fs, f: nat)
    requires Inv(fs) && Live(fs, f) && HasTable(fs, f) && Inv(fs1) && Live(fs1, f) && HasTable(fs1, f)
    requires FileStep(fs, fs1, f)
    ensures var g := Used(fs1) - Used(fs);
            && g >= 0 && |Phys(fs1, f)| == |Phys(fs, f)| + g
            && Count(TableOf(fs1, f)) == Count(TableOf(fs, f)) +
                 (if g == 0 || End(Phys(fs, f)) == Used(fs) then 0 else 1)
            && End(Phys(fs1, f)) == if g == 0 then End(Phys(fs, f)) else Used(fs1)
  {
    LiveHasTable(fs, f);
    LiveHasTable(fs1, f);
    assert Bitmaps(fs1);
    hide Inv, Bitmaps, TableOk, BlocksOf;
    ExtentsAfter(TableOf(fs, f), TableOf(fs1, f), fs.inodes[f].block, Used(fs), Used(fs1));
  }

  /** How the machine sees a step of file `f` that writes `bytes` at `p`. */
  lemma {:induction false} StepAbs(fs: Fs, fs1: Fs, f: nat, p: nat, bytes: seq<byte>)
    requires Changed(fs, fs1, f, p, bytes)
    ensures Used(fs) <= Used(fs1)
    ensures var a, a1, g := AbsFile(fs, f), AbsFile(fs1, f), Used(fs1) - Used(fs);
            && a1.number == f && a1.size == fs1.inodes[f].size && a1.blocks == a.blocks + g
            && a1.stored == Overlay(a.stored, (a.blocks + g) * fs.blockSize, p, bytes)
            && a1.extents == a.extents + (if g == 0 || a.end == Used(fs) then 0 else 1)
            && a1.end == if g == 0 then a.end else Used(fs1)
  {
    hide Inv, Geometry, FileStep, Wrote, BlocksOf, ByteAt, StoredBytes, End, Overlay;
    StepStored(fs, fs1, f, p, bytes);
    StepTables(fs, fs1, f);
  }

  lemma {:induction false} RoomIff(t: Table, lo: nat, hi: nat)
    requires TableOk(t, lo, hi) && 0 < hi && hi + 1 < U32
    ensures HasRoom(t, hi) <==> Count(t) < MaxExtents(|t|) || End(BlocksOf(t)) == hi
  {
    TableIsEncoding(t, lo, hi);
    if Formatted(t) {
      CanonicalIsEncoding(Extents(t), lo + 1, hi);
    } else {
      ZeroBlockIsUnformatted(t);
    }
    hide Canonical, Extents, Flatten, Encode;
  }

  /** A file can be extended exactly when the machine says so. */
  lemma {:induction false} CanExtendIff(fs: Fs, f: nat)
    requires Inv(fs) && Live(fs, f) && HasTable(fs, f)
    ensures fs.blockSize >= 8 && M.Free(Abs(fs)) == fs.freeBlocks
    ensures M.CanExtend(Abs(fs), AbsFile(fs, f)) <==> CanGrow(fs, f)
    ensures CanGrow(fs, f) <==>
              || 8 + 8 * (Count(TableOf(fs, f)) + 1) <= fs.blockSize
              || End(Phys(fs, f)) == Used(fs)
  {
    LiveHasTable(fs, f);
    var t := TableOf(fs, f);
    hide Inv, TableOk, AbsFiles, BlocksOf;
    TableIsEncoding(t, fs.inodes[f].block, Used(fs));
    RoomIff(t, fs.inodes[f].block, Used(fs));
  }

  // ---------------------------------------------------------------- a write of one file

  lemma {:induction false} OverlayNothing(v: seq<byte>, p: nat)
    ensures Overlay(v, |v|, p, []) == v
  {
  }

  lemma {:induction false} OverlayCut(v: seq<byte>, length: nat, p: nat, buf: seq<byte>, done: nat)
    requires done <= |buf| && (done == |buf| || p + done >= length)
    ensures Overlay(v, length, p, buf[..done]) == Overlay(v, length, p, buf)
  {
  }

  lemma {:induction false} ChangedTables(fs: Fs, fs1: Fs, f: nat, p: nat, bytes: seq<byte>)
    requires Changed(fs, fs1, f, p, bytes)
    ensures HasTable(fs, f) && HasTable(fs1, f) && fs.blockSize >= 8
  {
  }

  /** A step that takes no block and writes no byte changes at most the size. */
  lemma {:induction false} QuietStepAbs(fs: Fs, fs1: Fs, f: nat, p: nat)
    requires Changed(fs, fs1, f, p, []) && |Phys(fs1, f)| == |Phys(fs, f)|
    ensures AbsFile(fs1, f) == AbsFile(fs, f).(size := fs1.inodes[f].size) && Used(fs1) == Used(fs)
  {
    ChangedTables(fs, fs1, f, p, []);
    hide Changed, BlocksOf, StoredBytes, End, Overlay;
    StepAbs(fs, fs1, f, p, []);
    OverlayNothing(StoredBytes(fs, f), p);
  }

  lemma {:induction false} GivenIsGrowth(fs: Fs, f: nat, p: nat, n: nat)
    requires Inv(fs) && Live(fs, f) && HasTable(fs, f) && n > 0
    ensures fs.blockSize >= 8
    ensures var g, needed := M.Given(Abs(fs), AbsFile(fs, f), p, n), Needed(p, n, |Phys(fs, f)|, fs.blockSize);
            g == Growth(fs, f, p, n) && g <= needed && (Fits(fs, f, p, n) <==> g == needed)
  {
    CanExtendIff(fs, f);
    hide Inv, BlocksOf, Needed, CanGrow, M.CanExtend, AbsFiles, StoredBytes;
  }

  lemma {:induction false} WrittenIs(m: M.System, a: M.File, a1: M.File, pos: nat, buf: seq<byte>, g: nat,
                                     r: Result<nat>)
    requires m.blockSize >= 8 && buf != [] && LogicalBlock(pos, m.blockSize) <= a.blocks
    requires var p := Home(pos, m.blockSize);
             && g == M.Given(m, a, p, |buf|) && a1.(size := a.size) == M.Grown(m, a, p, buf, g)
             && if g == Needed(p, |buf|, a.blocks, m.blockSize) then
                  r == Ok(|buf|) && a1.size == M.Resized(a, pos + |buf|).size
                else
                  r == Err(ENOSPC) && a1.size == a.size
    ensures (a1, r) == M.Written(m, a, pos, buf)
  {
    hide M.CanExtend, Needed, Home, LogicalBlock;
  }

  /** The bytes a write has stored when it stopped are those that fit. */
  lemma {:induction false} StoredFits(fs: Fs, f: nat, pos: nat, buf: seq<byte>, done: nat, io: IoResult<nat>)
    requires Inv(fs) && Live(fs, f) && HasTable(fs, f)
    requires WriteResult(fs, f, pos, Home(pos, fs.blockSize), buf, done, io)
    ensures var p := Home(pos, fs.blockSize);
            && Changed(fs, io.fs, f, p, buf[..done]) && HasTable(io.fs, f)
            && Overlay(StoredBytes(fs, f), |Phys(io.fs, f)| * fs.blockSize, p, buf[..done]) ==
               Overlay(StoredBytes(fs, f), |Phys(io.fs, f)| * fs.blockSize, p, buf)
  {
    hide Geometry, Inv, Changed, BlocksOf, StoredBytes, Overlay, Fits, Growth, Home, BlockOf, OffsetOf;
    var p, b := Home(pos, fs.blockSize), fs.blockSize;
    ChangedTables(fs, io.fs, f, p, buf[..done]);
    AreaIff(p + done, |Phys(io.fs, f)|, b);
    OverlayCut(StoredBytes(fs, f), |Phys(io.fs, f)| * b, p, buf, done);
  }

  lemma {:induction false} GrownAbs(fs: Fs, f: nat, pos: nat, buf: seq<byte>, done: nat, io: IoResult<nat>)
    requires Inv(fs) && Live(fs, f) && HasTable(fs, f)
    requires WriteResult(fs, f, pos, Home(pos, fs.blockSize), buf, done, io)
    ensures HasTable(io.fs, f) && fs.blockSize >= 8
    ensures var p, a, a1 := Home(pos, fs.blockSize), AbsFile(fs, f), AbsFile(io.fs, f);
            && a1.(size := a.size) == M.Grown(Abs(fs), a, p, buf, Growth(fs, f, p, |buf|))
            && Used(io.fs) - Used(fs) == Growth(fs, f, p, |buf|) == |Phys(io.fs, f)| - |Phys(fs, f)|
  {
    hide Geometry, Inv, Changed, BlocksOf, StoredBytes, End, Overlay, Fits, Growth, AbsFiles, Home, BlockOf, OffsetOf;
    var p := Home(pos, fs.blockSize);
    StoredFits(fs, f, pos, buf, done, io);
    ChangedTables(fs, io.fs, f, p, buf[..done]);
    StepAbs(fs, io.fs, f, p, buf[..done]);
  }

  lemma {:induction false} LongWriteAbs(fs: Fs, f: nat, pos: nat, buf: seq<byte>, done: nat, io: IoResult<nat>)
    requires Inv(fs) && Live(fs, f) && HasTable(fs, f) && LogicalBlock(pos, fs.blockSize) <= |Phys(fs, f)|
    requires WriteResult(fs, f, pos, Home(pos, fs.blockSize), buf, done, io)
    ensures HasTable(io.fs, f) && fs.blockSize >= 8
    ensures (AbsFile(io.fs, f), io.ret) == M.Written(Abs(fs), AbsFile(fs, f), pos, buf)
    ensures Used(io.fs) - Used(fs) == AbsFile(io.fs, f).blocks - AbsFile(fs, f).blocks
  {
    hide Inv, Changed, BlocksOf, StoredBytes, End, Needed, Fits, Growth, AbsFiles, M.Given, M.Grown, M.Written, Home,
         LogicalBlock, BlockOf, OffsetOf;
    var p := Home(pos, fs.blockSize);
    GrownAbs(fs, f, pos, buf, done, io);
    GivenIsGrowth(fs, f, p, |buf|);
    WrittenIs(Abs(fs), AbsFile(fs, f), AbsFile(io.fs, f), pos, buf, Growth(fs, f, p, |buf|), io.ret);
  }

  /** A write of a file is the machine's write of it, in every case. */
  lemma {:induction false} WriteAbs(fs: Fs, f: nat, pos: nat, buf: seq<byte>)
    requires Inv(fs) && Live(fs, f) && HasTable(fs, f)
    ensures var io := WriteFile(fs, f, pos, buf);
            && HasTable(io.fs, f) && fs.blockSize >= 8
            && (AbsFile(io.fs, f), io.ret) == M.Written(Abs(fs), AbsFile(fs, f), pos, buf)
            && Used(io.fs) - Used(fs) == AbsFile(io.fs, f).blocks - AbsFile(fs, f).blocks
  {
    hide Inv, WriteFile, Format, Changed, BlocksOf, StoredBytes, End, AbsFiles, Home, LogicalBlock, M.Grown, M.Given,
         WriteResult;
    var io := WriteFile(fs, f, pos, buf);
    if buf == [] {
      WriteNothing(fs, f, pos);
      ChangedTables(fs, io.fs, f, 0, []);
      QuietStepAbs(fs, io.fs, f, 0);
    } else if LogicalBlock(pos, fs.blockSize) > |Phys(fs, f)| {
      WriteRefused(fs, f, pos, buf);
      ChangedTables(fs, io.fs, f, 0, []);
      QuietStepAbs(fs, io.fs, f, 0);
    } else {
      var done := WriteMeaning(fs, f, pos, buf);
      LongWriteAbs(fs, f, pos, buf, done, io);
    }
  }

  lemma {:induction false} SliceIsPart(fs: Fs, f: nat, pos: nat, n: nat)
    requires HasTable(fs, f)
    ensures Slice(fs, f, pos, Wanted(fs, f, pos, n)) == Part(View(fs, f), pos, n)
  {
    hide ByteAt, View;
    SliceOfView(fs, f, pos, Wanted(fs, f, pos, n));
  }

  /** A read of a file is the machine's read of it. */
  lemma {:induction false} ReadAbs(fs: Fs, f: nat, pos: nat, n: nat)
    requires Inv(fs) && Live(fs, f) && HasTable(fs, f)
    ensures var io := ReadFile(fs, f, pos, n);
            && HasTable(io.fs, f) && AbsFile(io.fs, f) == AbsFile(fs, f) && Used(io.fs) == Used(fs)
            && io.ret == M.Answer(Abs(fs), AbsFile(fs, f), pos, n)
  {
    hide Inv, ReadFile, Changed, BlocksOf, BlockOf, StoredBytes, AbsFiles, End, Part, M.Contents, View;
    var io, m := ReadFile(fs, f, pos, n), Wanted(fs, f, pos, n);
    ReadMeaning(fs, f, pos, n);
    ChangedTables(fs, io.fs, f, 0, []);
    QuietStepAbs(fs, io.fs, f, 0);
    ViewIsContents(fs, f);
    SliceOfView(fs, f, pos, m);
    SliceIsPart(fs, f, pos, n);
    if m > 0 {
      AreaIff(pos + m - 1, |Phys(fs, f)|, fs.blockSize);
    }
  }

  // ---------------------------------------------------------------- all files

  /** The name stands for the same file, and that for the same file of the machine. */
  ghost predicate SameEntry(fs: Fs, fs1: Fs, x: seq<byte>)
    requires Inv(fs) && Inv(fs1)
  {
    && x in Dir(fs) && x in Dir(fs1)
    && FileOf(fs1, x) == FileOf(fs, x)
    && AbsFile(fs1, FileOf(fs1, x)) == AbsFile(fs, FileOf(fs, x))
  }

  /** Only `name` may have changed between two states. */
  ghost predicate OnlyChanges(fs: Fs, fs1: Fs, name: seq<byte>)
    requires Inv(fs) && Inv(fs1)
  {
    && name in Dir(fs1) && Dir(fs).Keys <= Dir(fs1).Keys <= Dir(fs).Keys + {name}
    && forall x :: x in Dir(fs) && x != name ==> SameEntry(fs, fs1, x)
  }

  lemma {:induction false} ChangedFiles(fs: Fs, fs1: Fs, name: seq<byte>)
    requires Inv(fs) && Inv(fs1) && OnlyChanges(fs, fs1, name)
    ensures AbsFiles(fs1) == AbsFiles(fs)[name := AbsFile(fs1, FileOf(fs1, name))]
  {
    hide Inv, Dir, AbsFile, FileOf;
  }

  lemma {:induction false} SameFileAbs(fs: Fs, fs1: Fs, j: nat)
    requires SameFile(fs, fs1, j)
    ensures AbsFile(fs1, j) == AbsFile(fs, j)
  {
    hide ByteAt, BlocksOf, End;
    assert StoredBytes(fs1, j) == StoredBytes(fs, j);
  }

  /** An operation on file `f` leaves the directory alone. */
  lemma {:induction false} ChangedDirectory(fs: Fs, fs1: Fs, f: nat, p: nat, bytes: seq<byte>)
    requires Changed(fs, fs1, f, p, bytes)
    ensures Dir(fs1) == Dir(fs) && Last(fs1) == Last(fs)
  {
    hide Inv, Names, ByteAt, Bitmaps, FileOk, Wrote, BlocksOf;
    StepRoot(fs, fs1, f);
  }

  /** Distinct names stand for distinct files. */
  lemma {:induction false} OtherName(fs: Fs, x: seq<byte>, y: seq<byte>)
    requires Inv(fs) && x in Dir(fs) && y in Dir(fs) && x != y
    ensures FileOf(fs, x) != FileOf(fs, y)
  {
    DirectoryIsBijection(fs);
  }

  lemma {:induction false} ChangedOther(fs: Fs, fs1: Fs, name: seq<byte>, p: nat, bytes: seq<byte>, x: seq<byte>)
    requires Inv(fs) && Inv(fs1) && name in Dir(fs) && x in Dir(fs) && x != name && Dir(fs1) == Dir(fs)
    requires Changed(fs, fs1, FileOf(fs, name), p, bytes)
    ensures SameEntry(fs, fs1, x)
  {
    OtherName(fs, x, name);
    hide Inv, Dir, Changed, Resolve, SameFile, AbsFile;
    ChangedLeaves(fs, fs1, FileOf(fs, name), FileOf(fs, x), p, bytes);
    SameFileAbs(fs, fs1, FileOf(fs, x));
  }

  /** What an operation on the file of `name` does to the machine. */
  lemma {:induction false} ChangedAbs(fs: Fs, fs1: Fs, name: seq<byte>, p: nat, bytes: seq<byte>)
    requires Inv(fs) && name in Dir(fs) && Changed(fs, fs1, FileOf(fs, name), p, bytes)
    ensures var f := FileOf(fs, name);
            && Inv(fs1) && HasTable(fs1, f)
            && Abs(fs1) == Abs(fs).(used := Used(fs1), files := AbsFiles(fs)[name := AbsFile(fs1, f)])
  {
    ChangedDirectory(fs, fs1, FileOf(fs, name), p, bytes);
    assert Inv(fs1) && SameShape(fs, fs1);
    hide Inv, Dir, Changed, SameEntry, AbsFile, AbsFiles;
    forall x | x in Dir(fs) && x != name
      ensures SameEntry(fs, fs1, x)
    {
      ChangedOther(fs, fs1, name, p, bytes, x);
    }
    ChangedFiles(fs, fs1, name);
  }

  // ---------------------------------------------------------------- creation

  lemma {:induction false} NameCount(fs: Fs)
    requires Inv(fs)
    ensures |Dir(fs)| == Last(fs) - 1
  {
    assert DirectoryOk(fs) && Bitmaps(fs);
    hide Inv, Names, EntriesOk, Bitmaps;
    NamesCount(fs.data[0], Last(fs) - 1);
  }

  lemma {:induction false} FileCount(fs: Fs)
    requires Inv(fs)
    ensures AbsFiles(fs).Keys == Dir(fs).Keys && |AbsFiles(fs)| == Last(fs) - 1
  {
    hide Inv, Dir, AbsFile, FileOf;
    NameCount(fs);
    assert |Dir(fs).Keys| == |Dir(fs)| && |AbsFiles(fs).Keys| == |AbsFiles(fs)|;
  }

  lemma {:induction false} SameFilesAbs(fs: Fs, fs1: Fs)
    requires Inv(fs) && Inv(fs1) && Dir(fs1) == Dir(fs)
    requires forall f :: Live(fs, f) ==> SameFile(fs, fs1, f)
    ensures AbsFiles(fs1) == AbsFiles(fs)
  {
    hide Inv, Dir, SameFile, AbsFile, Resolve;
    forall x | x in Dir(fs)
      ensures AbsFile(fs1, FileOf(fs1, x)) == AbsFile(fs, FileOf(fs, x))
    {
      SameFileAbs(fs, fs1, FileOf(fs, x));
    }
    hide FileOf;
  }

  lemma {:induction false} LiveSame(fs: Fs, f: nat)
    requires Inv(fs) && Live(fs, f)
    ensures SameFile(fs, fs, f)
  {
    LiveHasTable(fs, f);
  }

  lemma {:induction false} RootedAbs(fs: Fs)
    requires Inv(fs)
    ensures var fs1 := EnsureRootBlock(fs).0;
            && Inv(fs1) && Last(fs1) == Last(fs) && fs1.inodes[ROOT].blocks == 1
            && Abs(fs1) == (if Used(fs) == 0 then Abs(fs).(used := 1) else Abs(fs))
            && M.Free(Abs(fs1)) == fs1.freeBlocks
  {
    RootBlockMeaning(fs);
    assert Bitmaps(EnsureRootBlock(fs).0);
    hide Inv, EnsureRootBlock, Dir, SameFile, AbsFiles, Bitmaps;
    SameFilesAbs(fs, EnsureRootBlock(fs).0) by {
      forall f | Live(fs, f)
        ensures SameFile(fs, EnsureRootBlock(fs).0, f)
      {
        LiveSame(fs, f);
      }
    }
  }

  lemma {:induction false} RefusedAbs(fs: Fs)
    requires HasSpace(fs)
    ensures Inv(Refused(fs)) && Abs(Refused(fs)) == Abs(fs)
  {
    RefusedMeaning(fs);
    SameFilesAbs(fs, Refused(fs));
    hide Inv, Dir, AbsFiles, SameFile;
  }

  lemma {:induction false} NewFileAbs(fs: Fs, f: nat)
    requires HasTable(fs, f) && IsNewFile(fs, f)
    ensures AbsFile(fs, f) == M.File(f, 0, 0, [], 0, 0)
  {
    hide ByteAt, BlocksOf;
  }

  lemma {:induction false} CreatedEntry(fs: Fs, fs1: Fs, name: seq<byte>, x: seq<byte>)
    requires Inv(fs) && Inv(fs1) && x in Dir(fs) && x != name && Dir(fs1) == Dir(fs)[name := Last(fs) + 1]
    requires forall f :: Live(fs, f) ==> SameFile(fs, fs1, f)
    ensures SameEntry(fs, fs1, x)
  {
    hide Inv, Dir, SameFile, Resolve, AbsFile;
    SameFileAbs(fs, fs1, FileOf(fs, x));
  }

  lemma {:induction false} CreatedAbs(fs: Fs, name: seq<byte>)
    requires HasSpace(fs) && Last(fs) - 1 < MaxEntries(fs.blockSize) && |name| < NAME_LIMIT && NoNul(name)
    requires name !in Dir(fs)
    ensures var fs1, m := Creation.Created(fs, name), Abs(fs);
            && Inv(fs1)
            && Abs(fs1) == m.(used := m.used + 1, files := m.files[name := M.File(Last(fs) + 1, 0, 0, [], 0, 0)])
  {
    CreatedMeaning(fs, name);
    var fs1 := Creation.Created(fs, name);
    assert Used(fs1) == Used(fs) + 1 && |fs1.blockBits| == |fs.blockBits| && |fs1.inodeBits| == |fs.inodeBits|;
    NewFileAbs(fs1, Last(fs) + 1);
    hide Inv, Dir, Creation.Created, SameFile, IsNewFile, SameEntry, AbsFiles, AbsFile;
    forall x | x in Dir(fs) && x != name
      ensures SameEntry(fs, fs1, x)
    {
      CreatedEntry(fs, fs1, name, x);
    }
    assert FileOf(fs1, name) == Last(fs) + 1;
    ChangedFiles(fs, fs1, name);
  }

  /** The state after the root has got its block. */
  ghost function Rooted(fs: Fs): (fs1: Fs)
    requires Inv(fs)
    ensures Inv(fs1) && fs1 == EnsureRootBlock(fs).0
  {
    RootBlockMeaning(fs);
    EnsureRootBlock(fs).0
  }

  /** What the outcome of a creation depends on, read off the machine. */
  lemma {:induction false} SpaceAbs(fs: Fs, name: seq<byte>)
    requires Inv(fs)
    ensures var fs1, m, m1 := Rooted(fs), Abs(fs), Abs(Rooted(fs));
            && Last(fs1) == Last(fs) && fs.blockSize >= 8 && fs1.blockSize == fs.blockSize
            && m1 == (if m.used == 0 then m.(used := 1) else m) && m.blockSize == fs.blockSize
            && |m.files| == Last(fs) - 1 && (name in m.files <==> name in Dir(fs)) && Dir(fs1) == Dir(fs)
            && (HasSpace(fs1) <==> |m.files| + 2 < m.inodeCount && M.Free(m1) != 0)
  {
    RootBlockMeaning(fs);
    RootedAbs(fs);
    FileCount(fs);
    var fs1 := Rooted(fs);
    assert fs.blockSize >= 8 && |fs.inodes| == |fs.inodeBits| && |fs1.inodes| == |fs1.inodeBits| == |fs.inodeBits|;
    hide Inv, EnsureRootBlock, Dir, AbsFiles, M.Free;
  }

  ghost predicate SameReply(r: Result<word>, r': Result<nat>) {
    if r.Ok? then r'.Ok? && r'.value == r.value else r'.Err? && r'.error == r.error
  }

  lemma {:induction false} CreateOutcome(fs: Fs, fs1: Fs, name: seq<byte>, fs2: Fs, r: Result<word>)
    requires Inv(fs) && NoNul(name) && fs1 == Rooted(fs) && Last(fs1) == Last(fs) && Dir(fs1) == Dir(fs)
    requires fs.blockSize >= 8
    requires if |name| >= NAME_LIMIT then (fs2, r) == (fs, Err(ENAMETOOLONG))
             else if !HasSpace(fs1) then (fs2, r) == (fs1, Err(ENOSPC))
             else if Last(fs) - 1 >= MaxEntries(fs.blockSize) then (fs2, r) == (Refused(fs1), Err(ENOSPC))
             else if name in Dir(fs) then (fs2, r) == (Refused(fs1), Err(EEXIST))
             else fs1.blockSize == fs.blockSize && (fs2, r) == (Creation.Created(fs1, name), Ok(Last(fs) + 1))
    ensures Inv(fs2) && Abs(fs2) == M.Created(Abs(fs), name).0 && SameReply(r, M.Created(Abs(fs), name).1)
  {
    hide Inv, Dir, Rooted, Creation.Created, Refused, Abs, HasSpace, MaxEntries, M.Free;
    SpaceAbs(fs, name);
    if |name| < NAME_LIMIT && HasSpace(fs1) {
      if Last(fs) - 1 >= MaxEntries(fs.blockSize) || name in Dir(fs) {
        RefusedAbs(fs1);
      } else {
        CreatedAbs(fs1, name);
      }
    }
  }

  /** Creating a file is the machine's creation of it, in every case. */
  lemma {:induction false} CreateAbs(fs: Fs, name: seq<byte>)
    requires Inv(fs) && NoNul(name) && fs.inodes[ROOT].block < |fs.data|
    ensures var (fs2, r) := Create(fs, name);
            Inv(fs2) && Abs(fs2) == M.Created(Abs(fs), name).0 && SameReply(r, M.Created(Abs(fs), name).1)
  {
    var fs1 := Rooted(fs);
    hide Inv, Dir, Create, Rooted, EnsureRootBlock, Creation.Created, Refused, Abs, HasSpace, MaxEntries, SameReply,
         M.Created;
    CreateMeaning(fs, name);
    SpaceAbs(fs, name);
    var (fs2, r) := Create(fs, name);
    CreateOutcome(fs, fs1, name, fs2, r);
  }
}
