/** The mounted file system in memory, as lab4 keeps and updates it. Each method is proved to
    compute the function of the same name on the state. */
module OsfsMemory {
  /** After the bytes `out`, with `n` more to come from `cur`, what remains of the read loop gives
      its result. */
  ghost predicate Copied(fs: Fs, f: nat, pos: nat, len: nat, out: seq<byte>, cur: nat, n: nat)
    requires Open(fs, f)
  {
    var rest := RW.ReadLoop(fs, f, cur, n);
    RW.ReadLoop(fs, f, pos, len) == (out + rest.0, rest.1)
  }

  lemma {:induction false} CopyStarts(fs: Fs, f: nat, pos: nat, len: nat)
    requires Open(fs, f)
    ensures Copied(fs, f, pos, len, [], pos, len)
  {
    hide Inv, Formatted, RW.ReadLoop;
    assert [] + RW.ReadLoop(fs, f, pos, len).0 == RW.ReadLoop(fs, f, pos, len).0;
  }

  lemma {:induction false} CopyStops(fs: Fs, f: nat, pos: nat, len: nat, out: seq<byte>, cur: nat, n: nat)
    requires Open(fs, f) && n > 0 && Copied(fs, f, pos, len, out, cur, n)
    requires LogicalBlock(cur, fs.blockSize) >= |Phys(fs, f)|
    ensures RW.ReadLoop(fs, f, pos, len) == (out, false)
  {
    hide Inv, Formatted, BlocksOf, BlockOf, OffsetOf, LogicalBlock;
    assert RW.ReadLoop(fs, f, cur, n) == ([], false) && out + [] == out;
    hide RW.ReadLoop;
  }

  lemma {:induction false} CopyGoesOn(fs: Fs, f: nat, pos: nat, len: nat, out: seq<byte>, cur: nat, n: nat)
    requires Open(fs, f) && n > 0 && Copied(fs, f, pos, len, out, cur, n)
    requires LogicalBlock(cur, fs.blockSize) < |Phys(fs, f)|
    ensures var bytes := RW.Chunk(fs, f, cur, n);
            |bytes| <= n && Copied(fs, f, pos, len, out + bytes, cur + |bytes|, n - |bytes|)
  {
    hide Geometry, Inv, Formatted, BlocksOf, BlockOf, OffsetOf, LogicalBlock, RW.Chunk;
    var bytes := RW.Chunk(fs, f, cur, n);
    var rest := RW.ReadLoop(fs, f, cur + |bytes|, n - |bytes|);
    assert RW.ReadLoop(fs, f, cur, n) == (bytes + rest.0, rest.1);
    assert out + (bytes + rest.0) == out + bytes + rest.0;
    hide RW.ReadLoop;
  }

  lemma {:induction false} CopyEnds(fs: Fs, f: nat, pos: nat, len: nat, out: seq<byte>, cur: nat)
    requires Open(fs, f) && Copied(fs, f, pos, len, out, cur, 0)
    ensures RW.ReadLoop(fs, f, pos, len) == (out, true)
  {
    hide Inv, Formatted, BlocksOf, BlockOf, OffsetOf, LogicalBlock;
    assert RW.ReadLoop(fs, f, cur, 0) == ([], true) && out + [] == out;
    hide RW.ReadLoop;
  }

  /** After `done` bytes, in state `fs1`, what remains of the loop gives its result. */
  ghost predicate Continues(fs: Fs, f: nat, pos: nat, buf: seq<byte>, fs1: Fs, done: nat)
    requires Open(fs, f) && Open(fs1, f) && done <= |buf|
  {
    var w := WriteLoop(fs1, f, pos + done, buf[done..]);
    WriteLoop(fs, f, pos, buf) == Written(w.fs, done + w.done, w.status)
  }

  lemma {:induction false} ContinuesStep(fs: Fs, f: nat, pos: nat, buf: seq<byte>, fs1: Fs, done: nat)
    requires Open(fs, f) && Open(fs1, f) && done < |buf| && Continues(fs, f, pos, buf, fs1, done)
    ensures var c := WriteChunk(fs1, f, pos + done, buf[done..]);
            if c.status.Err? then c.done == 0 && WriteLoop(fs, f, pos, buf) == Written(c.fs, done, c.status)
            else Continues(fs, f, pos, buf, c.fs, done + c.done)
  {
    hide Inv, WriteChunk, Formatted, OffsetOf;
    var c := WriteChunk(fs1, f, pos + done, buf[done..]);
    assert buf[done..][c.done..] == buf[done + c.done..];
    var w := WriteLoop(fs1, f, pos + done, buf[done..]);
    if c.status.Ok? {
      var rest := WriteLoop(c.fs, f, pos + (done + c.done), buf[done + c.done..]);
      assert w == Written(rest.fs, c.done + rest.done, rest.status);
    } else {
      assert w == c;
    }
    hide WriteLoop;
  }

  lemma {:induction false} ContinuesEnd(fs: Fs, f: nat, pos: nat, buf: seq<byte>, fs1: Fs)
    requires Open(fs, f) && Open(fs1, f) && Continues(fs, f, pos, buf, fs1, |buf|)
    ensures WriteLoop(fs, f, pos, buf) == Written(fs1, |buf|, Ok(()))
  {
    hide Inv, Formatted, WriteChunk;
    assert buf[|buf|..] == [];
  }

  lemma {:induction false} EmptyCount(blockSize: nat)
    requires 8 <= blockSize < U32
    ensures Put32(EmptyTable(blockSize), 4, 0) == EmptyTable(blockSize)
  {
    var t := EmptyTable(blockSize);
    assert forall i :: 4 <= i < 8 ==> t[i] == 0;
  }

  import opened Bytes
  import opened ExtentTable
  import opened Arith
  import opened State
  import opened FileSteps
  import B = Blocks
  import opened FileOps
  import RW = ReadWrite
  import opened Directory
  import BS = ByteStore
  import C = Creation
  import A = Abstraction
  import M = Machine
  import opened Runs

  class Osfs {
    const blockSize: nat
    var freeInodes: word
    var freeBlocks: word
    const inodeBits: array<bool>
    const blockBits: array<bool>
    const inodes: array<Inode>
    const data: array<seq<byte>>

    /** The whole memory as a value. */
    ghost function Memory(): Fs
      reads this, inodeBits, blockBits, inodes, data
    {
      Fs(blockSize, inodeBits[..], blockBits[..], freeInodes, freeBlocks, inodes[..], data[..])
    }

    /** The regions do not overlap and have the sizes fixed at mount. */
    ghost predicate Valid()
      reads this, inodeBits, blockBits, inodes, data
    {
      inodeBits != blockBits && Geometry(Memory())
    }

    /** lab4/super.c:51-126: zeroed memory, full counters, the root's record and bit. */
    constructor (blockSize: nat, inodeCount: nat, blockCount: nat)
      requires MountSizes(blockSize, inodeCount, blockCount)
      ensures Valid() && Memory() == Mounted(blockSize, inodeCount, blockCount)
      ensures fresh(inodeBits) && fresh(blockBits) && fresh(inodes) && fresh(data)
    {
      this.blockSize := blockSize;
      inodeBits := new bool[inodeCount](_ => false);
      blockBits := new bool[blockCount](_ => false);
      inodes := new Inode[inodeCount](_ => BLANK);
      data := new seq<byte>[blockCount](_ => Zeros(blockSize));
      freeInodes := inodeCount - 1;
      freeBlocks := blockCount;
      new;
      inodes[ROOT] := ROOT_RECORD;
      inodeBits[ROOT] := true;
      var fs := Mounted(blockSize, inodeCount, blockCount);
      assert inodeBits[..] == fs.inodeBits && blockBits[..] == fs.blockBits;
      assert inodes[..] == fs.inodes && data[..] == fs.data;
    }

    /** lab4/inode.c:111-125. */
    method AllocDataBlock() returns (r: Result<word>)
      requires Valid()
      modifies this`freeBlocks, blockBits
      ensures Valid() && (Memory(), r) == B.AllocBlock(old(Memory()))
      ensures r.Ok? ==> r.value < blockBits.Length
    {
      var i := 0;
      while i < blockBits.Length
        invariant 0 <= i <= blockBits.Length
        invariant forall j :: 0 <= j < i ==> blockBits[j]
        invariant Memory() == old(Memory()) && Valid()
      {
        if !blockBits[i] {
          assert B.FirstClear(blockBits[..], 0) == i;
          blockBits[i] := true;
          freeBlocks := Wrap(freeBlocks - 1);
          assert blockBits[..] == old(blockBits[..])[i := true];
          return Ok(i);
        }
        i := i + 1;
      }
      assert B.FirstClear(blockBits[..], 0) == i;
      return Err(ENOSPC);
    }

    /** lab4/inode.c:127-131. */
    method FreeDataBlock(b: nat)
      requires Valid() && b < blockBits.Length
      modifies this`freeBlocks, blockBits
      ensures Valid() && Memory() == B.FreeBlock(old(Memory()), b)
    {
      blockBits[b] := false;
      freeBlocks := Wrap(freeBlocks + 1);
      assert blockBits[..] == old(blockBits[..])[b := false];
    }

    /** lab4/inode.c:33-46. */
    method GetFreeInode() returns (r: Result<word>)
      requires Valid()
      modifies this`freeInodes, inodeBits
      ensures Valid() && (Memory(), r) == C.GetFreeInode(old(Memory()))
      ensures r.Ok? ==> r.value < inodeBits.Length
    {
      var i := 1;
      while i < inodeBits.Length
        invariant 1 <= i <= inodeBits.Length
        invariant forall j :: 1 <= j < i ==> inodeBits[j]
        invariant Memory() == old(Memory()) && Valid()
      {
        if !inodeBits[i] {
          assert B.FirstClear(inodeBits[..], 1) == i;
          inodeBits[i] := true;
          freeInodes := Wrap(freeInodes - 1);
          assert inodeBits[..] == old(inodeBits[..])[i := true];
          return Ok(i);
        }
        i := i + 1;
      }
      assert B.FirstClear(inodeBits[..], 1) == i;
      return Err(ENOSPC);
    }

    /** Replaces one block; every write into the data area goes through here. */
    method SetBlock(b: nat, content: seq<byte>)
      requires Valid() && b < data.Length && |content| == blockSize
      modifies data
      ensures Valid() && Memory() == B.SetBlock(old(Memory()), b, content)
    {
      data[b] := content;
      assert data[..] == old(data[..])[b := content];
    }

    /** Replaces one inode record. */
    method SetInode(f: nat, i: Inode)
      requires Valid() && f < inodes.Length
      modifies inodes
      ensures Valid() && Memory() == B.SetInode(old(Memory()), f, i)
    {
      inodes[f] := i;
      assert inodes[..] == old(inodes[..])[f := i];
    }

    /** Stores one 32-bit word into a block. */
    method SetWord(b: nat, at: nat, v: word)
      requires Valid() && b < data.Length && at + 4 <= blockSize
      modifies data
      ensures Valid() && Memory() == B.SetBlock(old(Memory()), b, Put32(old(Memory()).data[b], at, v))
    {
      SetBlock(b, Put32(data[b], at, v));
    }

    /** lab4/file.c:22-29. */
    method ResetTable(b: nat)
      requires Valid() && b < data.Length
      modifies data
      ensures Valid() && Memory() == B.SetBlock(old(Memory()), b, EmptyTable(blockSize))
    {
      SetBlock(b, Zeros(blockSize));
      SetWord(b, 0, EXTENT_MAGIC);
      SetWord(b, 4, 0);
      EmptyCount(blockSize);
    }

    /** Enters a block at the end of a table: into the last extent if it follows it, else as a
        new extent if there is room (lab4/file.c:105-116). */
    method EnterBlock(tb: nat, block: word) returns (entered: bool)
      requires Valid() && tb < data.Length && Count(data[tb]) <= MaxExtents(blockSize)
      modifies data
      ensures Valid()
      ensures var fs := old(Memory());
              var t := fs.data[tb];
              if Merges(Extents(t), block) || Count(t) < MaxExtents(blockSize) then
                entered && Memory() == B.SetBlock(fs, tb, AppendedTable(t, block))
              else
                !entered && Memory() == fs
    {
      hide Put32;
      var count := Count(data[tb]);
      if count > 0 && Merges(Extents(data[tb]), block) {
        SetWord(tb, 12 + 8 * (count - 1), Wrap(ExtentAt(data[tb], count - 1).len + 1));
      } else {
        if count >= MaxExtents(blockSize) {
          return false;
        }
        SetWord(tb, 8 + 8 * count, block);
        SetWord(tb, 12 + 8 * count, 1);
        SetWord(tb, 4, count + 1);
      }
      return true;
    }

    /** lab4/file.c:83-123. The block is allocated first and given back if it cannot be entered. */
    method ExtentAppendBlock(f: nat) returns (r: Result<word>)
      requires Valid() && HasTable(Memory(), f)
      modifies this`freeBlocks, blockBits, inodes, data
      ensures Valid() && (Memory(), r) == B.Append(old(Memory()), f)
    {
      hide AppendedTable, Extents, Merges;
      var tb := inodes[f].block;
      if Count(data[tb]) > MaxExtents(blockSize) {
        return Err(ENOSPC);
      }
      r := AllocDataBlock();
      if r.Err? {
        return;
      }
      var entered := EnterBlock(tb, r.value);
      if !entered {
        FreeDataBlock(r.value);
        return Err(ENOSPC);
      }
      SetInode(f, inodes[f].(blocks := Wrap(inodes[f].blocks + 1)));
    }

    /** lab4/file.c:125-152, with the branch that allocates a table block. */
    method EnsureTable(f: nat) returns (r: Result<()>)
      requires Valid() && HasTable(Memory(), f)
      modifies this`freeBlocks, blockBits, inodes, data
      ensures Valid() && (Memory(), r) == B.EnsureTable(old(Memory()), f)
    {
      if inodes[f].blocks == 0 || inodes[f].block == 0 {
        var b := AllocDataBlock();
        if b.Err? {
          return Err(b.error);
        }
        SetInode(f, inodes[f].(block := b.value, blocks := 1));
      }
      if !Formatted(data[inodes[f].block]) {
        ResetTable(inodes[f].block);
      }
      return Ok(());
    }

    /** lab4/file.c:193-215: copies `len` bytes out, or stops at the first missing block. */
    method CopyOut(f: nat, pos: nat, len: nat) returns (out: seq<byte>, found: bool)
      requires Valid() && Open(Memory(), f)
      ensures (out, found) == RW.ReadLoop(Memory(), f, pos, len)
    {
      ghost var fs := Memory();
      hide Inv, Formatted, BlocksOf, BlockOf, OffsetOf, LogicalBlock, RW.ReadLoop, Copied;
      out := [];
      CopyStarts(fs, f, pos, len);
      var cur, remaining := pos, len;
      while remaining > 0
        invariant 0 <= remaining <= len && Copied(fs, f, pos, len, out, cur, remaining)
      {
        var r := FindBlock(f, LogicalBlock(cur, blockSize));
        if r.Err? {
          CopyStops(fs, f, pos, len, out, cur, remaining);
          return out, false;
        }
        var at := OffsetOf(cur, blockSize);
        var chunk := Min(remaining, blockSize - at);
        CopyGoesOn(fs, f, pos, len, out, cur, remaining);
        assert data[r.value][at..at + chunk] == RW.Chunk(fs, f, cur, remaining);
        out := out + data[r.value][at..at + chunk];
        cur, remaining := cur + chunk, remaining - chunk;
      }
      CopyEnds(fs, f, pos, len, out, cur);
      return out, true;
    }

    /** Looks a logical block up in the table of `f`. */
    method FindBlock(f: nat, l: word) returns (r: Result<word>)
      requires Valid() && Open(Memory(), f)
      ensures var s := Phys(Memory(), f);
              if l < |s| then r == Ok(s[l]) && s[l] < data.Length else r == Err(ENOENT)
    {
      PhysAscending(Memory(), f);
      hide Extents, Flatten, Inv;
      r := LookupBlock(data[inodes[f].block], l);
    }

    /** Reading through a table that is set up (lab4/file.c:187-218). */
    method ReadTable(f: nat, pos: nat, len: nat) returns (r: Result<seq<byte>>, newPos: nat)
      requires Valid() && Inv(Memory()) && Live(Memory(), f) && HasTable(Memory(), f)
      requires Magic(TableOf(Memory(), f)) == EXTENT_MAGIC
      ensures RW.ReadFile(Memory(), f, pos, len) == RW.Io(Memory(), r, newPos)
    {
      RW.ReadFormatted(Memory(), f, pos, len);
      hide Geometry, Inv, BlocksOf, Formatted, Extents, Magic, Open, Live, RW.ReadLoop, RW.ReadFile;
      var size := inodes[f].size;
      if pos >= size {
        return Ok([]), pos;
      }
      var remaining := len;
      if pos + remaining > size {
        remaining := size - pos;
      }
      var out, found := CopyOut(f, pos, remaining);
      if !found {
        return Err(EIO), pos;
      }
      return Ok(out), pos + remaining;
    }

    /** lab4/file.c:154-219. */
    method ExtentDoRead(f: nat, pos: nat, len: nat) returns (r: Result<seq<byte>>, newPos: nat)
      requires Valid() && Inv(Memory()) && Live(Memory(), f) && HasTable(Memory(), f)
      modifies data
      ensures Valid()
      ensures var io := RW.ReadFile(old(Memory()), f, pos, len);
              Memory() == io.fs && r == io.ret && newPos == io.pos
    {
      LiveHasTable(Memory(), f);
      RW.MagicOpens(Memory(), f);
      assert 1 <= inodes[f].block < data.Length && inodes[f].blocks >= 1;
      hide Inv, FileOk, RecordOk, BlocksOf, Extents, Put32, Get32, RW.ReadLoop;
      var i := inodes[f];
      if i.blocks == 0 || i.block == 0 {
        assert false; // every live file has its table block
      }
      if Magic(data[i.block]) != EXTENT_MAGIC {
        if i.size == 0 {
          ResetTable(i.block);
          return Ok([]), pos;
        }
        return Err(EOPNOTSUPP), pos;
      }
      hide RW.ReadFile;
      r, newPos := ReadTable(f, pos, len);
    }

    /** Appends a block and looks it up again (lab4/file.c:253-263): the second lookup always
        finds the block just appended. */
    method AppendAndLookup(f: nat, l: word) returns (r: Result<word>)
      requires Valid() && Open(Memory(), f) && l == |Phys(Memory(), f)|
      modifies this`freeBlocks, blockBits, inodes, data
      ensures Valid() && Open(Memory(), f) && Memory() == B.Append(old(Memory()), f).0
      ensures if r.Err? then r == B.Append(old(Memory()), f).1
              else B.Append(old(Memory()), f).1.Ok? && |Phys(Memory(), f)| == l + 1
                   && r.value == Phys(Memory(), f)[l] < data.Length
    {
      ghost var fs := Memory();
      B.AppendStep(fs, f);
      if fs.freeBlocks > 0 && B.CanGrow(fs, f) {
        AppendMeaning(fs, f, 0);
      }
      hide Inv, Formatted, BlocksOf, B.Append, B.CanGrow, FileStep, B.Wrote;
      r := ExtentAppendBlock(f);
      if r.Err? {
        return;
      }
      r := FindBlock(f, l);
      if r.Err? {
        assert false; // the table now has l + 1 blocks
      }
    }

    /** The copy at the end of the loop body (lab4/file.c:266-278). */
    method CopyIn(f: nat, pos: nat, buf: seq<byte>, phys: word) returns (chunk: nat)
      requires Valid() && Open(Memory(), f) && LogicalBlock(pos, blockSize) < |Phys(Memory(), f)|
      requires phys == Phys(Memory(), f)[LogicalBlock(pos, blockSize)] < data.Length
      modifies data
      ensures Valid() && Written(Memory(), chunk, Ok(())) == StoreChunk(old(Memory()), f, pos, buf)
      ensures Open(Memory(), f) && |Phys(Memory(), f)| == |old(Phys(Memory(), f))|
    {
      ghost var fs := Memory();
      hide Inv, Formatted, BlocksOf, BlockOf, OffsetOf, FileStep;
      var at := OffsetOf(pos, blockSize);
      chunk := Min(|buf|, blockSize - at);
      B.StoreStep(fs, f, LogicalBlock(pos, blockSize), at, buf[..chunk]);
      SetBlock(phys, Splice(data[phys], at, buf[..chunk]));
    }

    /** One pass of the write loop (lab4/file.c:244-278). The count the code keeps in
        `total_blocks` is always the number of blocks of the file. */
    method WriteOnce(f: nat, pos: nat, buf: seq<byte>, total: word) returns (chunk: nat, r: Result<()>, total': word)
      requires Valid() && Open(Memory(), f) && buf != [] && total == |Phys(Memory(), f)|
      modifies this`freeBlocks, blockBits, inodes, data
      ensures Valid() && Open(Memory(), f) && total' == |Phys(Memory(), f)|
      ensures Written(Memory(), chunk, r) == WriteChunk(old(Memory()), f, pos, buf)
    {
      PhysBelow(Memory(), f);
      B.AppendStep(Memory(), f);
      hide Inv, Formatted, BlocksOf, B.Append, B.CanGrow, FileStep, StoreChunk;
      var l := LogicalBlock(pos, blockSize);
      total' := total;
      var found := FindBlock(f, l);
      if found.Err? {
        if l > total {
          return 0, Err(EINVAL), total;
        }
        found := AppendAndLookup(f, l);
        if found.Err? {
          return 0, Err(found.error), total;
        }
        total' := total + 1;
      }
      chunk := CopyIn(f, pos, buf, found.value);
      r := Ok(());
    }

    /** The write loop (lab4/file.c:243-279); `|buf| - done` is its measure. */
    method CopyAllIn(f: nat, pos: nat, buf: seq<byte>, total0: word) returns (done: nat, r: Result<()>)
      requires Valid() && Open(Memory(), f) && total0 == |Phys(Memory(), f)|
      modifies this`freeBlocks, blockBits, inodes, data
      ensures Valid() && Open(Memory(), f)
      ensures Written(Memory(), done, r) == WriteLoop(old(Memory()), f, pos, buf)
    {
      ghost var fs := Memory();
      hide Inv, Formatted, BlocksOf, FileStep, WriteChunk, WriteLoop;
      var total := total0;
      done := 0;
      assert buf[0..] == buf;
      while done < |buf|
        invariant Valid() && Open(Memory(), f) && done <= |buf| && total == |Phys(Memory(), f)|
        invariant Continues(fs, f, pos, buf, Memory(), done)
        decreases |buf| - done
      {
        ghost var before := Memory();
        var chunk;
        chunk, r, total := WriteOnce(f, pos + done, buf[done..], total);
        ContinuesStep(fs, f, pos, buf, before, done);
        if r.Err? {
          return done, r;
        }
        done := done + chunk;
      }
      ContinuesEnd(fs, f, pos, buf, Memory());
      r := Ok(());
    }

    /** lab4/file.c:221-293. */
    method ExtentDoWrite(f: nat, pos: nat, buf: seq<byte>) returns (r: Result<nat>, newPos: nat)
      requires Valid() && Inv(Memory()) && Live(Memory(), f) && HasTable(Memory(), f)
      modifies this`freeBlocks, blockBits, inodes, data
      ensures Valid()
      ensures var io := RW.WriteFile(old(Memory()), f, pos, buf);
              Memory() == io.fs && r == io.ret && newPos == io.pos
    {
      ghost var fs := Memory();
      hide Inv, Formatted, BlocksOf, B.Format, B.EnsureTable, FileStep, B.Wrote, WriteLoop, RW.WriteFile;
      B.FormatStep(fs, f);
      RW.FormatOpens(fs, f);
      newPos := pos;
      var ensured := EnsureTable(f);
      if ensured.Err? {
        assert false; // every live file has its table block
      }
      var total := FileBlocks(f);
      var done, stored := CopyAllIn(f, pos, buf, total);
      RW.WriteFileIs(fs, f, pos, buf, Written(Memory(), done, stored));
      if stored.Err? {
        return Err(stored.error), pos;
      }
      newPos := pos + done;
      if newPos > inodes[f].size {
        SetInode(f, inodes[f].(size := Wrap(newPos)));
      }
      r := Ok(done);
    }

    /** The number of data blocks of `f` (lab4/file.c:241 with 31-47). */
    method FileBlocks(f: nat) returns (total: word)
      requires Valid() && Open(Memory(), f)
      ensures total == |Phys(Memory(), f)|
    {
      PhysBelow(Memory(), f);
      hide Inv, Extents, Flatten;
      total := TotalBlocks(data[inodes[f].block]);
    }

    // -------------------------------------------------------------- directory

    /** lab4/dir.c:122-210. */
    method NewInode(mode: Mode) returns (r: Result<word>)
      requires Valid()
      modifies this`freeInodes, this`freeBlocks, inodeBits, blockBits, inodes
      ensures Valid() && (Memory(), r) == C.NewInode(old(Memory()), mode)
    {
      hide B.FirstClear;
      if mode == Special {
        return Err(EINVAL);
      }
      if freeInodes == 0 || freeBlocks == 0 {
        return Err(ENOSPC);
      }
      r := GetFreeInode();
      if r.Err? {
        return;
      }
      var ino := r.value;
      SetInode(ino, Inode(ino, 0, 1, mode, 0, 0));
      var b := AllocDataBlock();
      if b.Err? {
        return b;
      }
      SetInode(ino, inodes[ino].(block := b.value));
      freeInodes := Wrap(freeInodes - 1);
    }

    /** The scan that lookup and add-entry share (lab4/dir.c:41-54, 236-243). */
    method ScanEntries(n: nat, name: seq<byte>) returns (i: nat)
      requires Valid() && inodes[ROOT].block < data.Length && n <= MaxEntries(blockSize)
      ensures i == FindEntry(data[inodes[ROOT].block], 0, n, name)
    {
      hide EntryName;
      var block := data[inodes[ROOT].block];
      i := 0;
      while i < n
        invariant i <= n && FindEntry(block, 0, n, name) == FindEntry(block, i, n, name)
      {
        if EntryName(block, i) == name {
          return;
        }
        i := i + 1;
      }
    }

    /** lab4/dir.c:212-254. */
    method AddDirEntry(ino: word, name: seq<byte>) returns (r: Result<()>)
      requires Valid() && inodes[ROOT].block < data.Length && |name| < NAME_LIMIT
      modifies data, inodes
      ensures Valid() && (Memory(), r) == C.AddDirEntry(old(Memory()), ino, name)
    {
      hide PutEntry, EntryName;
      var root := inodes[ROOT];
      var n := root.size / ENTRY_SIZE;
      if n >= MaxEntries(blockSize) {
        return Err(ENOSPC);
      }
      var i := ScanEntries(n, name);
      if i < n {
        return Err(EEXIST);
      }
      SetBlock(root.block, PutEntry(data[root.block], n, name, ino));
      SetInode(ROOT, root.(size := Wrap(root.size + ENTRY_SIZE)));
      r := Ok(());
    }

    /** Takes back inode `ino` and its block (lab4/dir.c:352-359). */
    method Rollback(ino: nat)
      requires Valid() && ino < inodes.Length
      requires inodes[ino].blocks != 0 ==> inodes[ino].block < blockBits.Length
      modifies this`freeInodes, this`freeBlocks, inodeBits, blockBits
      ensures Valid() && Memory() == C.Rollback(old(Memory()), ino)
    {
      if inodes[ino].blocks != 0 {
        FreeDataBlock(inodes[ino].block);
      }
      inodeBits[ino] := false;
      freeInodes := Wrap(freeInodes + 1);
      assert inodeBits[..] == old(inodeBits[..])[ino := false];
    }

    /** Takes an inode and a block for `name` and enters it (lab4/dir.c:299-362). NewInode
        always reports one block for the new file, so the second allocation the code has for
        a file without one (lab4/dir.c:321-332) is never reached. */
    method NewEntry(name: seq<byte>) returns (r: Result<word>)
      requires Valid() && inodes[ROOT].block < data.Length && |name| < NAME_LIMIT
      modifies this`freeInodes, this`freeBlocks, inodeBits, blockBits, inodes, data
      ensures Valid() && (Memory(), r) == C.NewEntry(old(Memory()), name)
    {
      hide C.NewInode, FindEntry, PutEntry;
      r := NewInode(Regular);
      if r.Err? {
        return;
      }
      var ino := r.value;
      freeInodes := Wrap(freeInodes + 1);
      SetInode(ino, C.NewFile(ino, inodes[ino].block));
      var entered := AddDirEntry(ino, name);
      if entered.Err? {
        Rollback(ino);
        return Err(entered.error);
      }
    }

    /** lab4/dir.c:272-381 up to the length check and the root's block, then NewEntry. */
    method CreateFile(name: seq<byte>) returns (r: Result<word>)
      requires Valid() && inodes[ROOT].block < data.Length
      modifies this`freeInodes, this`freeBlocks, inodeBits, blockBits, inodes, data
      ensures Valid() && (Memory(), r) == C.Create(old(Memory()), name)
    {
      hide C.NewEntry, B.FirstClear;
      if |name| >= NAME_LIMIT {
        return Err(ENAMETOOLONG);
      }
      if inodes[ROOT].blocks == 0 {
        var b := AllocDataBlock();
        if b.Err? {
          return b;
        }
        SetInode(ROOT, inodes[ROOT].(block := b.value, blocks := 1));
      }
      r := NewEntry(name);
    }

    /** lab4/dir.c:18-57, with the bounds check of lab4/inode.c:15-22. */
    method LookupFile(name: seq<byte>) returns (r: Result<Option<nat>>)
      requires Valid() && inodes[ROOT].block < data.Length
      requires inodes[ROOT].size / ENTRY_SIZE <= MaxEntries(blockSize)
      ensures r == C.Lookup(Memory(), name)
    {
      hide EntryName;
      var n := inodes[ROOT].size / ENTRY_SIZE;
      var i := ScanEntries(n, name);
      if i == n {
        return Ok(None);
      }
      var ino := EntryInode(data[inodes[ROOT].block], i);
      if ino == 0 || ino >= inodes.Length {
        return Err(EFAULT);
      }
      return Ok(Some(ino));
    }

    // -------------------------------------------------------------- the calls of the VFS

    /** osfs_read (lab4/file.c:308-341). The single-block path after the extent path is never
        reached for a live file. */
    method Read(f: nat, pos: nat, len: nat) returns (r: Result<seq<byte>>, newPos: nat)
      requires Valid() && Inv(Memory()) && Live(Memory(), f) && HasTable(Memory(), f)
      modifies data
      ensures Valid() && Inv(Memory()) && Live(Memory(), f) && HasTable(Memory(), f)
      ensures var io := RW.ReadFile(old(Memory()), f, pos, len);
              Memory() == io.fs && r == io.ret && newPos == io.pos
      ensures View(Memory(), f) == old(View(Memory(), f)) && inodes[..] == old(inodes[..])
      ensures RW.Sized(old(Memory()), f) ==> r == Ok(BS.Part(View(Memory(), f), pos, len)) && newPos == pos + |r.value|
      ensures r.Err? ==> r == Err(EIO) && newPos == pos && !RW.Sized(old(Memory()), f)
    {
      ghost var fs := Memory();
      LiveHasTable(fs, f);
      RW.ReadMeaning(fs, f, pos, len);
      BS.ReadableIffSized(fs, f);
      if RW.Sized(fs, f) {
        BS.ReadRefines(fs, f, pos, len);
      }
      hide Inv, FileStep, ByteAt, BlocksOf, RW.ReadFile, RW.Sized, BS.Part, Bitmaps, TableOk, RW.Slice;
      if inodes[f].mode == Regular {
        r, newPos := ExtentDoRead(f, pos, len);
        if r != Err(EOPNOTSUPP) {
          BS.ChangedNothingView(fs, Memory(), f, 0);
          return;
        }
      }
      assert false;
    }

    /** osfs_write (lab4/file.c:357-420), likewise. */
    method Write(f: nat, pos: nat, buf: seq<byte>) returns (r: Result<nat>, newPos: nat)
      requires Valid() && Inv(Memory()) && Live(Memory(), f) && HasTable(Memory(), f)
      modifies this`freeBlocks, blockBits, inodes, data
      ensures Valid() && Inv(Memory()) && Live(Memory(), f)
      ensures var io := RW.WriteFile(old(Memory()), f, pos, buf);
              Memory() == io.fs && r == io.ret && newPos == io.pos
      ensures BS.WriteContract(old(Memory()), f, pos, buf, Memory(), r, newPos)
    {
      LiveHasTable(Memory(), f);
      BS.WriteMeetsContract(Memory(), f, pos, buf);
      hide Inv, RW.WriteFile, Bitmaps, TableOk, BS.WriteContract, BlocksOf, Formatted;
      if inodes[f].mode == Regular {
        r, newPos := ExtentDoWrite(f, pos, buf);
        if r != Err(EOPNOTSUPP) {
          return;
        }
      }
      assert false;
    }

    /** osfs_create (lab4/dir.c:272-381). */
    method Create(name: seq<byte>) returns (r: Result<word>)
      requires Valid() && Inv(Memory()) && NoNul(name)
      modifies this`freeInodes, this`freeBlocks, inodeBits, blockBits, inodes, data
      ensures Valid() && Inv(Memory())
      ensures inodes.Length == |old(Memory()).inodes| && RootOk(old(Memory()))
              && (Memory(), r) == C.Create(old(Memory()), name)
      ensures A.Abs(Memory()) == M.Created(A.Abs(old(Memory())), name).0
      ensures A.SameReply(r, M.Created(A.Abs(old(Memory())), name).1)
    {
      ghost var fs := Memory();
      assert RootOk(fs);
      A.CreateAbs(fs, name);
      hide Inv, C.Create, A.Abs, A.SameReply, M.Created;
      r := CreateFile(name);
    }

    /** osfs_lookup (lab4/dir.c:18-57). */
    method Lookup(name: seq<byte>) returns (r: Result<Option<nat>>)
      requires Valid() && Inv(Memory())
      ensures r == Ok(if name in C.Dir(Memory()) then Some(C.Dir(Memory())[name]) else None)
    {
      C.LookupMeaning(Memory(), name);
      hide Inv, C.Dir, C.Lookup;
      r := LookupFile(name);
    }
  }
}
