/** Reading and writing regular files (lab4/file.c:154-293) as functions on the state. */
module FileOps {
  import opened Bytes
  import opened ExtentTable
  import opened Arith
  import opened State
  import opened FileSteps
  import opened Blocks

  /** Where the write loop stands: the state, the bytes stored so far, and how it ended. */
  datatype Written = Written(fs: Fs, done: nat, status: Result<()>)

  /** A file whose table is set up, ready for the loops. */
  ghost predicate Open(fs: Fs, f: nat) {
    Inv(fs) && Live(fs, f) && HasTable(fs, f) && Formatted(TableOf(fs, f))
  }

  /** The logical block number the code computes: it is cast to `uint32_t`. */
  function LogicalBlock(pos: nat, blockSize: nat): word
    requires blockSize > 0
  {
    Wrap(BlockOf(pos, blockSize))
  }

  /** The copy at the end of the loop body (lab4/file.c:266-278). */
  function StoreChunk(fs: Fs, f: nat, pos: nat, buf: seq<byte>): (w: Written)
    requires Open(fs, f) && LogicalBlock(pos, fs.blockSize) < |Phys(fs, f)|
    ensures Open(w.fs, f) && w.done <= |buf| && w.status.Ok?
    ensures w.fs.blockSize == fs.blockSize
  {
    var l, at := LogicalBlock(pos, fs.blockSize), OffsetOf(pos, fs.blockSize);
    var n := Min(|buf|, fs.blockSize - at);
    StoreStep(fs, f, l, at, buf[..n]);
    StepKeepsInv(fs, Store(fs, Phys(fs, f)[l], at, buf[..n]), f);
    Written(Store(fs, Phys(fs, f)[l], at, buf[..n]), n, Ok(()))
  }

  /** One pass through the loop (lab4/file.c:244-278). */
  function WriteChunk(fs: Fs, f: nat, pos: nat, buf: seq<byte>): (w: Written)
    requires Open(fs, f) && buf != []
    ensures Open(w.fs, f) && w.done <= |buf|
    ensures w.done == if w.status.Ok? then Min(|buf|, fs.blockSize - OffsetOf(pos, fs.blockSize)) else 0
    ensures w.fs.blockSize == fs.blockSize
  {
    var l := LogicalBlock(pos, fs.blockSize);
    var total := |Phys(fs, f)|;
    if l < total then StoreChunk(fs, f, pos, buf)
    else if l > total then Written(fs, 0, Err(EINVAL))
    else
      AppendStep(fs, f);
      var (fs1, r) := Append(fs, f);
      if r.Err? then Written(fs1, 0, Err(r.error))
      else
        StepKeepsInv(fs, fs1, f);
        StoreChunk(fs1, f, pos, buf)
  }

  /** The whole loop (lab4/file.c:243-279). */
  function WriteLoop(fs: Fs, f: nat, pos: nat, buf: seq<byte>): (w: Written)
    requires Open(fs, f)
    ensures Open(w.fs, f) && w.done <= |buf|
    ensures w.status.Ok? ==> w.done == |buf|
    decreases |buf|
  {
    if buf == [] then Written(fs, 0, Ok(()))
    else
      var c := WriteChunk(fs, f, pos, buf);
      if c.status.Err? then c
      else
        var w := WriteLoop(c.fs, f, pos + c.done, buf[c.done..]);
        Written(w.fs, c.done + w.done, w.status)
  }

  // ---------------------------------------------------------------- what the loop does

  /** From `fs` to `fs1`, file `f` alone changed, and its bytes only by `bytes` at `p`. */
  ghost predicate Stored(fs: Fs, fs1: Fs, f: nat, p: nat, bytes: seq<byte>) {
    && Open(fs, f) && Open(fs1, f)
    && FileStep(fs, fs1, f) && SameShape(fs, fs1)
    && fs1.inodes[f].size == fs.inodes[f].size
    && Wrote(fs, fs1, f, p, bytes)
  }

  lemma {:induction false} WroteBoth(fs: Fs, fs1: Fs, fs2: Fs, f: nat, p: nat, x: seq<byte>, y: seq<byte>)
    requires HasTable(fs, f) && HasTable(fs1, f) && HasTable(fs2, f)
    requires Wrote(fs, fs1, f, p, x) && Wrote(fs1, fs2, f, p + |x|, y)
    ensures Wrote(fs, fs2, f, p, x + y)
  {
    hide ByteAt;
  }

  lemma {:induction false} StoredBoth(fs: Fs, fs1: Fs, fs2: Fs, f: nat, p: nat, x: seq<byte>, y: seq<byte>)
    requires Stored(fs, fs1, f, p, x) && Stored(fs1, fs2, f, p + |x|, y)
    ensures Stored(fs, fs2, f, p, x + y)
  {
    StepTransitive(fs, fs1, fs2, f);
    WroteBoth(fs, fs1, fs2, f, p, x, y);
    hide Inv, FileStep, Wrote, Formatted;
  }

  lemma {:induction false} StoreMeaning(fs: Fs, f: nat, p: nat, bytes: seq<byte>, fs1: Fs)
    requires Open(fs, f) && BlockOf(p, fs.blockSize) < |Phys(fs, f)|
    requires OffsetOf(p, fs.blockSize) + |bytes| <= fs.blockSize
    requires Phys(fs, f)[BlockOf(p, fs.blockSize)] < |fs.data|
    requires fs1 == Store(fs, Phys(fs, f)[BlockOf(p, fs.blockSize)], OffsetOf(p, fs.blockSize), bytes)
    ensures Stored(fs, fs1, f, p, bytes) && Used(fs1) == Used(fs) && TableOf(fs1, f) == TableOf(fs, f)
  {
    hide Inv, FileStep, Wrote, Formatted, Phys, BlockOf, OffsetOf, ByteAt, Geometry;
    StoreStep(fs, f, BlockOf(p, fs.blockSize), OffsetOf(p, fs.blockSize), bytes);
    StoreBytes(fs, f, p, bytes);
    StepKeepsInv(fs, fs1, f);
  }

  lemma {:induction false} StoreChunkMeaning(fs: Fs, f: nat, p: nat, buf: seq<byte>)
    requires Open(fs, f) && BlockOf(p, fs.blockSize) < |Phys(fs, f)|
    requires LogicalBlock(p, fs.blockSize) == BlockOf(p, fs.blockSize)
    ensures var w := StoreChunk(fs, f, p, buf);
            Stored(fs, w.fs, f, p, buf[..w.done]) && Used(w.fs) == Used(fs) && TableOf(w.fs, f) == TableOf(fs, f)
  {
    hide Inv, FileStep, Wrote, Formatted, Phys, BlockOf, OffsetOf, Store, Stored;
    var l, at := BlockOf(p, fs.blockSize), OffsetOf(p, fs.blockSize);
    var bytes := buf[..Min(|buf|, fs.blockSize - at)];
    StoreStep(fs, f, l, at, bytes);
    StoreMeaning(fs, f, p, bytes, Store(fs, Phys(fs, f)[l], at, bytes));
  }

  lemma {:induction false} AppendMeaning(fs: Fs, f: nat, p: nat)
    requires Open(fs, f) && fs.freeBlocks > 0 && CanGrow(fs, f)
    ensures var (fs1, r) := Append(fs, f);
            && r == Ok(Used(fs)) && Stored(fs, fs1, f, p, [])
            && Used(fs1) == Used(fs) + 1 && |Phys(fs1, f)| == |Phys(fs, f)| + 1 && CanGrow(fs1, f)
  {
    var fs1 := Append(fs, f).0;
    LiveHasTable(fs, f);
    AppendStep(fs, f);
    AppendResult(fs, f);
    AppendKeepsBytes(fs, f, AppendState(fs, f));
    StepKeepsInv(fs, fs1, f);
    hide Geometry, Inv, Phys, Formatted, CanGrow, ByteAt, Append, AppendState;
  }

  lemma {:induction false} AppendThenStore(fs: Fs, f: nat, p: nat, buf: seq<byte>)
    requires Open(fs, f) && buf != [] && fs.freeBlocks > 0 && CanGrow(fs, f)
    requires LogicalBlock(p, fs.blockSize) == |Phys(fs, f)|
    ensures var fs1 := Append(fs, f).0;
            && Open(fs1, f) && LogicalBlock(p, fs1.blockSize) < |Phys(fs1, f)|
            && WriteChunk(fs, f, p, buf) == StoreChunk(fs1, f, p, buf)
  {
    hide Inv, FileStep, Wrote, Formatted, BlocksOf, HasRoom, Append, LogicalBlock;
    AppendMeaning(fs, f, p);
  }

  /** A pass that has to append: the new block is the one the bytes go to. */
  lemma {:induction false} AppendChunkMeaning(fs: Fs, f: nat, p: nat, buf: seq<byte>)
    requires Open(fs, f) && buf != [] && fs.freeBlocks > 0 && CanGrow(fs, f)
    requires BlockOf(p, fs.blockSize) == LogicalBlock(p, fs.blockSize) == |Phys(fs, f)|
    ensures var w := WriteChunk(fs, f, p, buf);
            && w.status.Ok?
            && Stored(fs, w.fs, f, p, buf[..w.done])
            && Used(w.fs) == Used(fs) + 1
            && |Phys(w.fs, f)| == |Phys(fs, f)| + 1
            && CanGrow(w.fs, f)
  {
    hide Inv, FileStep, Wrote, Formatted, BlocksOf, HasRoom, Append, StoreChunk, WriteChunk, LogicalBlock;
    AppendMeaning(fs, f, p);
    AppendThenStore(fs, f, p, buf);
    var fs1 := Append(fs, f).0;
    StoreChunkMeaning(fs1, f, p, buf);
    var w := StoreChunk(fs1, f, p, buf);
    StoredBoth(fs, fs1, w.fs, f, p, [], buf[..w.done]);
    assert [] + buf[..w.done] == buf[..w.done];
    hide Stored;
  }

  /** One pass at a position whose block number fits in 32 bits. */
  lemma {:induction false} ChunkMeaning(fs: Fs, f: nat, p: nat, buf: seq<byte>)
    requires Open(fs, f) && buf != [] && BlockOf(p, fs.blockSize) < U32
    ensures var w := WriteChunk(fs, f, p, buf);
            var l, total := BlockOf(p, fs.blockSize), |Phys(fs, f)|;
            if l > total then
              w == Written(fs, 0, Err(EINVAL))
            else if l == total && (fs.freeBlocks == 0 || !CanGrow(fs, f)) then
              w == Written(fs, 0, Err(ENOSPC))
            else
              && w.status.Ok?
              && Stored(fs, w.fs, f, p, buf[..w.done])
              && Used(w.fs) == Used(fs) + (if l == total then 1 else 0)
              && |Phys(w.fs, f)| == total + (if l == total then 1 else 0)
              && CanGrow(w.fs, f) == CanGrow(fs, f)
  {
    hide Inv, FileStep, Wrote, Formatted, BlocksOf, HasRoom, Stored, StoreChunk, BlockOf, OffsetOf;
    var l, total := BlockOf(p, fs.blockSize), |Phys(fs, f)|;
    assert LogicalBlock(p, fs.blockSize) == l;
    if l < total {
      StoreChunkMeaning(fs, f, p, buf);
    } else if l == total {
      if fs.freeBlocks > 0 && CanGrow(fs, f) {
        AppendChunkMeaning(fs, f, p, buf);
      } else {
        AppendStep(fs, f);
      }
    }
  }

  /** How many blocks a write of `n` bytes at `p` needs beyond the `total` the file has. */
  function Needed(p: nat, n: nat, total: nat, blockSize: nat): nat
    requires n > 0 && blockSize > 0
  {
    var last := BlockOf(p + n - 1, blockSize);
    if last < total then 0 else last + 1 - total
  }

  /** Whether the write finds the blocks it needs: decided by the free counter and by whether
      the next free block can still be entered in the extent table. */
  ghost predicate Fits(fs: Fs, f: nat, p: nat, n: nat)
    requires HasTable(fs, f) && n > 0
  {
    var needed := Needed(p, n, |Phys(fs, f)|, fs.blockSize);
    needed == 0 || (needed <= fs.freeBlocks && CanGrow(fs, f))
  }

  /** How many blocks the write takes: all it needs, or all there are. */
  ghost function Growth(fs: Fs, f: nat, p: nat, n: nat): nat
    requires HasTable(fs, f) && n > 0
  {
    if Fits(fs, f, p, n) then Needed(p, n, |Phys(fs, f)|, fs.blockSize)
    else if CanGrow(fs, f) then fs.freeBlocks else 0
  }

  /** One full pass leaves `n - (b - offset)` bytes at the start of the next block. */
  lemma {:induction false} NeededAfterChunk(p: nat, n: nat, total: nat, b: nat)
    requires b > 0 && n > 0 && BlockOf(p, b) <= total
    ensures var c, l := Min(n, b - OffsetOf(p, b)), BlockOf(p, b);
            var total1 := if l == total then total + 1 else total;
            if c == n then Needed(p, n, total, b) == total1 - total
            else
              && BlockOf(p + c, b) == l + 1 <= total1 && OffsetOf(p + c, b) == 0
              && Needed(p, n, total, b) == Needed(p + c, n - c, total1, b) + (total1 - total)
  {
    var c := Min(n, b - OffsetOf(p, b));
    if c == n {
      SameBlock(p, n - 1, b);
    } else {
      NextBlock(p, b);
      DivMonotone(p + c, p + n - 1, b);
    }
    hide BlockOf, OffsetOf;
  }

  lemma {:induction false} PhysBelow(fs: Fs, f: nat)
    requires Inv(fs) && Live(fs, f) && HasTable(fs, f)
    ensures |Phys(fs, f)| < |fs.blockBits| < U32
  {
    LiveHasTable(fs, f);
  }

  ghost predicate LoopResult(fs: Fs, f: nat, p: nat, buf: seq<byte>, w: Written)
    requires Open(fs, f) && buf != []
  {
    && w.done <= |buf| && Stored(fs, w.fs, f, p, buf[..w.done])
    && w.status == (if Fits(fs, f, p, |buf|) then Ok(()) else Err(ENOSPC))
    && |Phys(w.fs, f)| == |Phys(fs, f)| + Growth(fs, f, p, |buf|)
    && (w.status.Ok? ==> w.done == |buf|)
    && (w.status.Err? ==>
          && BlockOf(p + w.done, fs.blockSize) == |Phys(w.fs, f)|
          && (w.done == 0 || OffsetOf(p + w.done, fs.blockSize) == 0))
  }

  lemma {:induction false} LoopStep(fs: Fs, f: nat, p: nat, buf: seq<byte>, c: Written, w: Written)
    requires Open(fs, f) && buf != [] && BlockOf(p, fs.blockSize) <= |Phys(fs, f)|
    requires BlockOf(p, fs.blockSize) == |Phys(fs, f)| ==> fs.freeBlocks > 0 && CanGrow(fs, f)
    requires c == WriteChunk(fs, f, p, buf) && c.done < |buf|
    requires LoopResult(c.fs, f, p + c.done, buf[c.done..], w)
    ensures LoopResult(fs, f, p, buf, Written(w.fs, c.done + w.done, w.status))
  {
    hide Inv, FileStep, Wrote, Formatted, BlocksOf, HasRoom, BlockOf, OffsetOf, WriteChunk, Needed;
    PhysBelow(fs, f);
    ChunkMeaning(fs, f, p, buf);
    NeededAfterChunk(p, |buf|, |Phys(fs, f)|, fs.blockSize);
    StoredBoth(fs, c.fs, w.fs, f, p, buf[..c.done], buf[c.done..][..w.done]);
    assert buf[..c.done] + buf[c.done..][..w.done] == buf[..c.done + w.done];
    hide Stored;
  }

  lemma {:induction false} NothingStored(fs: Fs, f: nat, p: nat)
    requires Open(fs, f)
    ensures Stored(fs, fs, f, p, [])
  {
    LiveHasTable(fs, f);
    hide Inv, FileOk, ByteAt, Geometry;
    assert Range(Used(fs), Used(fs)) == [];
  }

  lemma {:induction false} LoopStops(fs: Fs, f: nat, p: nat, buf: seq<byte>)
    requires Open(fs, f) && buf != [] && BlockOf(p, fs.blockSize) == |Phys(fs, f)|
    requires fs.freeBlocks == 0 || !CanGrow(fs, f)
    ensures LoopResult(fs, f, p, buf, Written(fs, 0, Err(ENOSPC)))
  {
    hide Inv, FileStep, Wrote, Formatted, BlocksOf, HasRoom, BlockOf, OffsetOf, Stored, Needed;
    NeededAfterChunk(p, |buf|, |Phys(fs, f)|, fs.blockSize);
    NothingStored(fs, f, p);
    assert buf[..0] == [];
  }

  lemma {:induction false} LoopEnds(fs: Fs, f: nat, p: nat, buf: seq<byte>, c: Written)
    requires Open(fs, f) && buf != [] && BlockOf(p, fs.blockSize) <= |Phys(fs, f)|
    requires BlockOf(p, fs.blockSize) == |Phys(fs, f)| ==> fs.freeBlocks > 0 && CanGrow(fs, f)
    requires c == WriteChunk(fs, f, p, buf) && c.done == |buf|
    ensures LoopResult(fs, f, p, buf, c)
  {
    hide Inv, FileStep, Wrote, Formatted, BlocksOf, HasRoom, BlockOf, OffsetOf, WriteChunk, Stored, Needed;
    PhysBelow(fs, f);
    ChunkMeaning(fs, f, p, buf);
    NeededAfterChunk(p, |buf|, |Phys(fs, f)|, fs.blockSize);
    assert c.status.value == ();
  }

  /** The write loop in closed form: which writes succeed, what a failing one leaves behind,
      and that `done` bytes and nothing else have reached the file. */
  lemma {:induction false} LoopMeaning(fs: Fs, f: nat, p: nat, buf: seq<byte>)
    requires Open(fs, f) && buf != [] && BlockOf(p, fs.blockSize) <= |Phys(fs, f)|
    ensures LoopResult(fs, f, p, buf, WriteLoop(fs, f, p, buf))
    decreases |buf|
  {
    hide Inv, FileStep, Wrote, Formatted, BlocksOf, HasRoom, BlockOf, OffsetOf, WriteChunk, Needed, Stored, LoopResult;
    PhysBelow(fs, f);
    ChunkMeaning(fs, f, p, buf);
    var c, w := WriteChunk(fs, f, p, buf), WriteLoop(fs, f, p, buf);
    if c.status.Err? {
      LoopStops(fs, f, p, buf);
      assert w == c;
    } else if c.done < |buf| {
      var rest := WriteLoop(c.fs, f, p + c.done, buf[c.done..]);
      assert w == Written(rest.fs, c.done + rest.done, rest.status);
      NeededAfterChunk(p, |buf|, |Phys(fs, f)|, fs.blockSize);
      LoopMeaning(c.fs, f, p + c.done, buf[c.done..]);
      LoopStep(fs, f, p, buf, c, rest);
    } else {
      LoopEnds(fs, f, p, buf, c);
      var rest := WriteLoop(c.fs, f, p + c.done, buf[c.done..]);
      assert rest == Written(c.fs, 0, Ok(()));
      assert w == Written(rest.fs, c.done + rest.done, rest.status);
      assert c.status.value == () && w == c;
    }
    hide WriteLoop;
  }
}
