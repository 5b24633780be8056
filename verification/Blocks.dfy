/** Block allocation and the extent table of a file as functions on the state
    (lab4/inode.c:111-131, lab4/file.c:22-29, 83-152), and what each does under the invariant. */
module Blocks {
  import opened Bytes
  import opened ExtentTable
  import opened Arith
  import opened State
  import opened FileSteps

  /** First fit: the first clear bit at or after `from`, or the length if there is none. */
  function FirstClear(bits: seq<bool>, from: nat): (r: nat)
    requires from <= |bits|
    ensures from <= r <= |bits|
    ensures forall i :: from <= i < r ==> bits[i]
    ensures r < |bits| ==> !bits[r]
    decreases |bits| - from
  {
    if from < |bits| && bits[from] then FirstClear(bits, from + 1) else from
  }

  function AllocBlock(fs: Fs): (Fs, Result<word>)
    requires Geometry(fs)
  {
    var b := FirstClear(fs.blockBits, 0);
    if b == |fs.blockBits| then (fs, Err(ENOSPC))
    else (fs.(blockBits := fs.blockBits[b := true], freeBlocks := Wrap(fs.freeBlocks - 1)), Ok(b))
  }

  function FreeBlock(fs: Fs, b: nat): Fs
    requires b < |fs.blockBits|
  {
    fs.(blockBits := fs.blockBits[b := false], freeBlocks := Wrap(fs.freeBlocks + 1))
  }

  /** Replaces the contents of one block. */
  function SetBlock(fs: Fs, b: nat, content: seq<byte>): (r: Fs)
    requires Geometry(fs) && b < |fs.data| && |content| == fs.blockSize
    ensures Geometry(r)
  {
    fs.(data := fs.data[b := content])
  }

  function SetInode(fs: Fs, f: nat, i: Inode): (r: Fs)
    requires Geometry(fs) && f < |fs.inodes|
    ensures Geometry(r)
  {
    fs.(inodes := fs.inodes[f := i])
  }

  /** lab4/file.c:83-123. */
  function Append(fs: Fs, f: nat): (r: (Fs, Result<word>))
    requires HasTable(fs, f)
    ensures HasTable(r.0, f)
  {
    var t := TableOf(fs, f);
    if Count(t) > MaxExtents(fs.blockSize) then (fs, Err(ENOSPC))
    else
      var (fs1, a) := AllocBlock(fs);
      if a.Err? then (fs1, a)
      else if Merges(Extents(t), a.value) || Count(t) < MaxExtents(fs.blockSize) then
        var fs2 := SetBlock(fs1, fs.inodes[f].block, AppendedTable(t, a.value));
        (SetInode(fs2, f, fs.inodes[f].(blocks := Wrap(fs.inodes[f].blocks + 1))), Ok(a.value))
      else
        (FreeBlock(fs1, a.value), Err(ENOSPC))
  }

  /** Writes an empty table unless one is there (lab4/file.c:147-149). */
  function Format(fs: Fs, f: nat): (r: Fs)
    requires HasTable(fs, f)
    ensures HasTable(r, f)
  {
    if Formatted(TableOf(fs, f)) then fs
    else SetBlock(fs, fs.inodes[f].block, EmptyTable(fs.blockSize))
  }

  /** lab4/file.c:125-152. */
  function EnsureTable(fs: Fs, f: nat): (r: (Fs, Result<()>))
    requires HasTable(fs, f)
    ensures HasTable(r.0, f)
  {
    var i := fs.inodes[f];
    if i.blocks == 0 || i.block == 0 then
      var (fs1, a) := AllocBlock(fs);
      if a.Err? then (fs1, Err(a.error))
      else (Format(SetInode(fs1, f, i.(block := a.value, blocks := 1)), f), Ok(()))
    else
      (Format(fs, f), Ok(()))
  }

  /** `memcpy` of `bytes` into block `b` at offset `at`. */
  function Store(fs: Fs, b: nat, at: nat, bytes: seq<byte>): (r: Fs)
    requires Geometry(fs) && b < |fs.data| && at + |bytes| <= fs.blockSize
    ensures Geometry(r)
  {
    SetBlock(fs, b, Splice(fs.data[b], at, bytes))
  }

  // ---------------------------------------------------------------- meaning

  /** Under the invariant, first fit hands out the block at the allocation mark. */
  lemma {:induction false} AllocMeaning(fs: Fs)
    requires Geometry(fs) && Bitmaps(fs)
    ensures var (fs1, a) := AllocBlock(fs);
            if fs.freeBlocks == 0 then fs1 == fs && a == Err(ENOSPC)
            else a == Ok(Used(fs)) && Geometry(fs1) && Bitmaps(fs1) && Used(fs1) == Used(fs) + 1
                 && FreeBlock(fs1, Used(fs)) == fs
  {
    if fs.freeBlocks != 0 {
      var b := FirstClear(fs.blockBits, 0);
      assert !fs.blockBits[Used(fs)] && b == Used(fs);
      assert fs.blockBits[b := true][b := false] == fs.blockBits;
    }
  }

  /** Whether file `f` can take one more block without running out of extents. */
  predicate CanGrow(fs: Fs, f: nat)
    requires HasTable(fs, f)
  {
    HasRoom(TableOf(fs, f), Used(fs))
  }

  lemma {:induction false} FormatStep(fs: Fs, f: nat)
    requires Inv(fs) && Live(fs, f) && HasTable(fs, f)
    ensures var fs1 := Format(fs, f);
            && EnsureTable(fs, f) == (fs1, Ok(()))
            && FileStep(fs, fs1, f) && Used(fs1) == Used(fs) && fs1.inodes == fs.inodes
            && Formatted(TableOf(fs1, f)) && Phys(fs1, f) == Phys(fs, f)
            && (forall q :: ByteAt(fs1, f, q) == ByteAt(fs, f, q))
  {
    assert FileOk(fs, f);
    EmptyTableIsEmpty(fs.blockSize);
    hide BlockOf, OffsetOf;
  }

  /** The state after a successful append, field by field. */
  ghost function AppendState(fs: Fs, f: nat): (r: Fs)
    requires HasTable(fs, f) && 0 <= Used(fs) < |fs.blockBits| && CanGrow(fs, f)
    ensures HasTable(r, f)
  {
    var i := fs.inodes[f];
    fs.(blockBits := fs.blockBits[Used(fs) := true],
        freeBlocks := fs.freeBlocks - 1,
        data := fs.data[i.block := AppendedTable(TableOf(fs, f), Used(fs))],
        inodes := fs.inodes[f := i.(blocks := Wrap(i.blocks + 1))])
  }

  lemma {:induction false} AppendResult(fs: Fs, f: nat)
    requires Inv(fs) && Live(fs, f) && HasTable(fs, f) && Formatted(TableOf(fs, f))
    requires fs.freeBlocks != 0 && CanGrow(fs, f)
    ensures Append(fs, f) == (AppendState(fs, f), Ok(Used(fs)))
  {
    assert Bitmaps(fs);
    hide AppendedTable, Extents, Merges, Formatted, Get32, Inv;
    assert !fs.blockBits[Used(fs)];
    assert FirstClear(fs.blockBits, 0) == Used(fs);
    hide Bitmaps, FirstClear;
  }

  lemma {:induction false} RecordAppend(i: Inode, t: Table, b: word)
    requires RecordOk(i, t, b) && Formatted(t) && HasRoom(t, b) && b + 1 < U32 && i.blocks <= b
    ensures var t' := AppendedTable(t, b);
            && RecordOk(i.(blocks := Wrap(i.blocks + 1)), t', b + 1)
            && Formatted(t') && HasRoom(t', b + 1)
            && BlocksOf(t') == BlocksOf(t) + [b]
  {
    hide TableOk, BlocksOf, Formatted, HasRoom, AppendedTable;
    TableAppend(t, i.block, b);
  }

  lemma {:induction false} AppendedShape(fs: Fs, f: nat, fs1: Fs)
    requires Inv(fs) && Live(fs, f) && HasTable(fs, f)
    requires 0 < fs.freeBlocks && 0 <= Used(fs) && CanGrow(fs, f)
    requires fs1 == AppendState(fs, f)
    ensures HasTable(fs1, f) && HasRoom(TableOf(fs, f), Used(fs)) && Used(fs1) == Used(fs) + 1
    ensures TableOf(fs1, f) == AppendedTable(TableOf(fs, f), Used(fs))
    ensures fs1.inodes[f] == fs.inodes[f].(blocks := Wrap(fs.inodes[f].blocks + 1))
  {
    hide Inv, Bitmaps, HasRoom, AppendedTable;
  }

  lemma {:induction false} AppendedFileOk(fs: Fs, f: nat, fs1: Fs)
    requires Inv(fs) && Live(fs, f) && HasTable(fs, f) && Formatted(TableOf(fs, f))
    requires 0 < fs.freeBlocks && 0 <= Used(fs) && CanGrow(fs, f)
    requires fs1 == AppendState(fs, f)
    ensures HasTable(fs1, f) && FileOk(fs1, f) && Used(fs1) == Used(fs) + 1
    ensures Formatted(TableOf(fs1, f)) && CanGrow(fs1, f)
    ensures Phys(fs1, f) == Phys(fs, f) + [Used(fs)]
  {
    LiveHasTable(fs, f);
    AppendedShape(fs, f, fs1);
    hide Inv, AppendState, Bitmaps, RecordOk, BlocksOf, Formatted, HasRoom, AppendedTable, Geometry;
    RecordAppend(fs.inodes[f], TableOf(fs, f), Used(fs));
  }

  lemma {:induction false} OneBlock(b: nat)
    requires b + 1 < U32
    ensures Range(b, b + 1) == [b]
  {
  }

  lemma {:induction false} AppendedStep(fs: Fs, f: nat, fs1: Fs)
    requires Inv(fs) && Live(fs, f) && HasTable(fs, f) && Formatted(TableOf(fs, f))
    requires 0 < fs.freeBlocks && 0 <= Used(fs) && CanGrow(fs, f)
    requires fs1 == AppendState(fs, f)
    ensures FileStep(fs, fs1, f) && Used(fs1) == Used(fs) + 1
    ensures HasTable(fs1, f) && Formatted(TableOf(fs1, f)) && CanGrow(fs1, f)
    ensures fs1.inodes[f].size == fs.inodes[f].size
  {
    hide Inv, FileOk, Phys, CanGrow, AppendedTable, Formatted;
    LiveHasTable(fs, f);
    AppendedFileOk(fs, f, fs1);
    OneBlock(Used(fs));
    hide Range;
  }

  /** A record without a block is given the block at the allocation mark, as an empty table. */
  lemma {:induction false} EnsureTableAllocates(fs: Fs, f: nat)
    requires HasTable(fs, f) && Bitmaps(fs) && FreeBlocksZero(fs)
    requires fs.inodes[f].blocks == 0 || fs.inodes[f].block == 0
    ensures var (fs1, r) := EnsureTable(fs, f);
            if fs.freeBlocks == 0 then fs1 == fs && r == Err(ENOSPC)
            else
              && r == Ok(()) && Bitmaps(fs1) && Used(fs1) == Used(fs) + 1
              && fs1.inodes[f] == fs.inodes[f].(block := Used(fs), blocks := 1)
              && HasTable(fs1, f) && Formatted(TableOf(fs1, f)) && Phys(fs1, f) == []
              && forall b :: 0 <= b < |fs.data| && b != Used(fs) ==> fs1.data[b] == fs.data[b]
  {
    AllocMeaning(fs);
    EmptyTableIsEmpty(fs.blockSize);
    if fs.freeBlocks != 0 {
      ZeroBlockIsUnformatted(fs.data[Used(fs)]);
    }
    hide FirstClear, EmptyTable, Extents, Get32;
  }

  /** What appending a block does: it succeeds exactly when a block is free and the table can
      take it, hands out the block at the allocation mark, and adds it, zeroed, at the end. */
  lemma {:induction false} AppendStep(fs: Fs, f: nat)
    requires Inv(fs) && Live(fs, f) && HasTable(fs, f) && Formatted(TableOf(fs, f))
    ensures var (fs1, r) := Append(fs, f);
            if fs.freeBlocks == 0 || !CanGrow(fs, f) then
              fs1 == fs && r == Err(ENOSPC)
            else
              && r == Ok(Used(fs))
              && FileStep(fs, fs1, f) && Used(fs1) == Used(fs) + 1
              && Formatted(TableOf(fs1, f)) && CanGrow(fs1, f)
              && fs1.inodes[f].size == fs.inodes[f].size
  {
    AllocMeaning(fs);
    hide AllocBlock, FirstClear;
    assert FileOk(fs, f);
    if fs.freeBlocks != 0 && CanGrow(fs, f) {
      AppendResult(fs, f);
      AppendedStep(fs, f, AppendState(fs, f));
    }
  }

  // ---------------------------------------------------------------- effect on the bytes

  /** The bytes of `f` are unchanged, except that `bytes` now stand at position `p`. */
  ghost predicate Wrote(fs: Fs, fs1: Fs, f: nat, p: nat, bytes: seq<byte>)
    requires HasTable(fs, f) && HasTable(fs1, f)
  {
    forall q: nat :: ByteAt(fs1, f, q) == if p <= q < p + |bytes| then bytes[q - p] else ByteAt(fs, f, q)
  }

  /** A zero block at the end of the list changes no byte. */
  lemma {:induction false} ZeroBlockAdded(fs: Fs, f: nat, fs1: Fs, b: word)
    requires HasTable(fs, f) && HasTable(fs1, f) && fs1.blockSize == fs.blockSize && |fs1.data| == |fs.data|
    requires Phys(fs1, f) == Phys(fs, f) + [b] && b < |fs.data| && fs1.data[b] == Zeros(fs.blockSize)
    requires forall i :: 0 <= i < |Phys(fs, f)| ==> Phys(fs, f)[i] < |fs.data|
    requires forall i :: 0 <= i < |Phys(fs, f)| ==> fs1.data[Phys(fs, f)[i]] == fs.data[Phys(fs, f)[i]]
    ensures Wrote(fs, fs1, f, 0, [])
  {
    hide Geometry, Phys, BlockOf, OffsetOf;
  }

  /** The appended block is zero, like every free block. */
  lemma {:induction false} AppendKeepsBytes(fs: Fs, f: nat, fs1: Fs)
    requires Inv(fs) && Live(fs, f) && HasTable(fs, f) && Formatted(TableOf(fs, f))
    requires 0 < fs.freeBlocks && 0 <= Used(fs) && CanGrow(fs, f)
    requires fs1 == AppendState(fs, f)
    ensures HasTable(fs1, f) && Wrote(fs, fs1, f, 0, [])
  {
    LiveHasTable(fs, f);
    PhysAscending(fs, f);
    assert fs.data[Used(fs)] == Zeros(fs.blockSize) by { assert FreeBlocksZero(fs); }
    assert forall b :: 0 <= b < |fs.data| && b != fs.inodes[f].block ==> fs1.data[b] == fs.data[b];
    hide Inv, FileOk, RecordOk, Phys, CanGrow, AppendedTable, Formatted;
    AppendedFileOk(fs, f, fs1);
    hide AppendState;
    ZeroBlockAdded(fs, f, fs1, Used(fs));
  }

  /** Storing into the block of logical block `l`. */
  lemma {:induction false} StoreStep(fs: Fs, f: nat, l: nat, at: nat, bytes: seq<byte>)
    requires Inv(fs) && Live(fs, f) && HasTable(fs, f)
    requires l < |Phys(fs, f)| && at + |bytes| <= fs.blockSize
    ensures Phys(fs, f)[l] < |fs.data|
    ensures var fs1 := Store(fs, Phys(fs, f)[l], at, bytes);
            && FileStep(fs, fs1, f) && Used(fs1) == Used(fs)
            && TableOf(fs1, f) == TableOf(fs, f) && fs1.inodes == fs.inodes
  {
    LiveHasTable(fs, f);
    PhysAscending(fs, f);
    hide Inv, Phys, Formatted, RecordOk;
  }

  lemma {:induction false} StoredByte(fs: Fs, f: nat, p: nat, bytes: seq<byte>, fs1: Fs, q: nat)
    requires Inv(fs) && Live(fs, f) && HasTable(fs, f)
    requires BlockOf(p, fs.blockSize) < |Phys(fs, f)|
    requires OffsetOf(p, fs.blockSize) + |bytes| <= fs.blockSize
    requires Phys(fs, f)[BlockOf(p, fs.blockSize)] < |fs.data|
    requires fs1 == Store(fs, Phys(fs, f)[BlockOf(p, fs.blockSize)], OffsetOf(p, fs.blockSize), bytes)
    requires HasTable(fs1, f) && Phys(fs1, f) == Phys(fs, f)
    ensures ByteAt(fs1, f, q) == if p <= q < p + |bytes| then bytes[q - p] else ByteAt(fs, f, q)
  {
    LiveHasTable(fs, f);
    hide Inv, FileOk, Phys, BlockOf, OffsetOf;
    PhysAscending(fs, f);
    WithinBlock(p, |bytes|, q, fs.blockSize);
  }

  lemma {:induction false} StoreBytes(fs: Fs, f: nat, p: nat, bytes: seq<byte>)
    requires Inv(fs) && Live(fs, f) && HasTable(fs, f)
    requires BlockOf(p, fs.blockSize) < |Phys(fs, f)|
    requires OffsetOf(p, fs.blockSize) + |bytes| <= fs.blockSize
    ensures Phys(fs, f)[BlockOf(p, fs.blockSize)] < |fs.data|
    ensures var fs1 := Store(fs, Phys(fs, f)[BlockOf(p, fs.blockSize)], OffsetOf(p, fs.blockSize), bytes);
            HasTable(fs1, f) && Wrote(fs, fs1, f, p, bytes)
  {
    var b := fs.blockSize;
    var l, at := BlockOf(p, b), OffsetOf(p, b);
    StoreStep(fs, f, l, at, bytes);
    PhysAscending(fs, f);
    var s := Phys(fs, f);
    var fs1 := Store(fs, s[l], at, bytes);
    assert Phys(fs1, f) == s;
    forall q: nat
      ensures ByteAt(fs1, f, q) == if p <= q < p + |bytes| then bytes[q - p] else ByteAt(fs, f, q)
    {
      StoredByte(fs, f, p, bytes, fs1, q);
    }
  }

  /** Setting the size of a file that has a table. */
  function SetSize(fs: Fs, f: nat, size: word): Fs
    requires Geometry(fs) && f < |fs.inodes|
  {
    SetInode(fs, f, fs.inodes[f].(size := size))
  }

  lemma {:induction false} SameDataBytes(fs: Fs, fs1: Fs, f: nat)
    requires HasTable(fs, f) && HasTable(fs1, f) && fs1.blockSize == fs.blockSize
    requires fs1.data == fs.data && fs1.inodes[f].block == fs.inodes[f].block
    ensures Wrote(fs, fs1, f, 0, [])
  {
    hide Geometry, BlocksOf, BlockOf, OffsetOf;
  }

  lemma {:induction false} SamePhys(fs: Fs, fs1: Fs, f: nat)
    requires HasTable(fs, f) && HasTable(fs1, f) && TableOf(fs1, f) == TableOf(fs, f)
    ensures Phys(fs1, f) == Phys(fs, f)
  {
    hide Geometry, BlocksOf;
  }

  lemma {:induction false} SizeStep(fs: Fs, f: nat, size: word)
    requires Inv(fs) && Live(fs, f) && HasTable(fs, f) && Formatted(TableOf(fs, f))
    ensures var fs1 := SetSize(fs, f, size);
            && FileStep(fs, fs1, f) && Used(fs1) == Used(fs)
            && TableOf(fs1, f) == TableOf(fs, f) && Wrote(fs, fs1, f, 0, [])
  {
    LiveHasTable(fs, f);
    var fs1 := SetSize(fs, f, size);
    assert HasTable(fs1, f) && TableOf(fs1, f) == TableOf(fs, f) && Bitmaps(fs1) && Geometry(fs1);
    assert SameShape(fs, fs1) && fs1.data == fs.data && fs1.blockSize == fs.blockSize;
    assert fs1.inodes == fs.inodes[f := fs.inodes[f].(size := size)];
    hide SetSize, Inv, Bitmaps, Geometry, Phys, Formatted, TableOk, BlocksOf, Wrote, SameShape;
    assert Range(Used(fs), Used(fs)) == [];
    SamePhys(fs, fs1, f);
    SameDataBytes(fs, fs1, f);
  }
}
