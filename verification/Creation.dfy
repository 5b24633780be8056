/** Creating and looking up files (lab4/dir.c:18-57, 122-254, 272-381, lab4/inode.c:33-46) as
    functions on the state, and their meaning: the directory is a map. */
module Creation {
  import opened Bytes
  import opened ExtentTable
  import opened State
  import opened FileSteps
  import opened Blocks
  import opened Directory

  // ---------------------------------------------------------------- the operations

  /** lab4/inode.c:33-46; inode 0 is never considered. */
  function GetFreeInode(fs: Fs): (Fs, Result<word>)
    requires Geometry(fs)
  {
    var i := FirstClear(fs.inodeBits, 1);
    if i == |fs.inodeBits| then (fs, Err(ENOSPC))
    else (fs.(inodeBits := fs.inodeBits[i := true], freeInodes := Wrap(fs.freeInodes - 1)), Ok(i))
  }

  function FreeInode(fs: Fs, i: nat): Fs
    requires i < |fs.inodeBits|
  {
    fs.(inodeBits := fs.inodeBits[i := false], freeInodes := Wrap(fs.freeInodes + 1))
  }

  /** lab4/dir.c:122-210. The free-inode counter is decremented a second time at the end, and a
      failing block allocation would leave the inode allocated. */
  function NewInode(fs: Fs, mode: Mode): (r: (Fs, Result<word>))
    requires Geometry(fs)
    ensures Geometry(r.0) && |r.0.inodes| == |fs.inodes| && |r.0.data| == |fs.data|
    ensures r.1.Ok? ==> r.1.value < |fs.inodes| && r.0.inodes[r.1.value].block < |fs.data|
    ensures r.1.Ok? ==> forall i :: 0 <= i < |fs.inodes| && i != r.1.value ==> r.0.inodes[i] == fs.inodes[i]
  {
    if mode == Special then (fs, Err(EINVAL))
    else if fs.freeInodes == 0 || fs.freeBlocks == 0 then (fs, Err(ENOSPC))
    else
      var (fs1, i) := GetFreeInode(fs);
      if i.Err? then (fs1, i)
      else
        var fs2 := SetInode(fs1, i.value, Inode(i.value, 0, 1, mode, 0, 0));
        var (fs3, b) := AllocBlock(fs2);
        if b.Err? then (fs3, b)
        else
          var fs4 := SetInode(fs3, i.value, Inode(i.value, 0, 1, mode, 0, b.value));
          (fs4.(freeInodes := Wrap(fs4.freeInodes - 1)), i)
  }

  /** lab4/dir.c:212-254. */
  function AddDirEntry(fs: Fs, ino: word, name: seq<byte>): (Fs, Result<()>)
    requires Geometry(fs) && fs.inodes[ROOT].block < |fs.data| && |name| < NAME_LIMIT
  {
    var root := fs.inodes[ROOT];
    var block := fs.data[root.block];
    var n := root.size / ENTRY_SIZE;
    if n >= MaxEntries(fs.blockSize) then (fs, Err(ENOSPC))
    else if FindEntry(block, 0, n, name) < n then (fs, Err(EEXIST))
    else
      var fs1 := SetBlock(fs, root.block, PutEntry(block, n, name, ino));
      (SetInode(fs1, ROOT, root.(size := Wrap(root.size + ENTRY_SIZE))), Ok(()))
  }

  /** Gives the root directory its block on the first creation (lab4/dir.c:291-297). */
  function EnsureRootBlock(fs: Fs): (Fs, Result<()>)
    requires Geometry(fs)
  {
    var root := fs.inodes[ROOT];
    if root.blocks != 0 then (fs, Ok(()))
    else
      var (fs1, b) := AllocBlock(fs);
      if b.Err? then (fs1, Err(b.error))
      else (SetInode(fs1, ROOT, root.(block := b.value, blocks := 1)), Ok(()))
  }

  /** Takes back a new file that could not be entered (lab4/dir.c:352-362). */
  function Rollback(fs: Fs, ino: nat): Fs
    requires Geometry(fs) && ino < |fs.inodes|
    requires fs.inodes[ino].blocks != 0 ==> fs.inodes[ino].block < |fs.blockBits|
  {
    FreeInode(if fs.inodes[ino].blocks != 0 then FreeBlock(fs, fs.inodes[ino].block) else fs, ino)
  }

  /** The record of a new, empty file. */
  function NewFile(ino: word, block: word): Inode {
    Inode(ino, 0, 1, Regular, 1, block)
  }

  /** Takes an inode and a block, fills in the record and enters it, or gives them back
      (lab4/dir.c:299-362). */
  function NewEntry(fs: Fs, name: seq<byte>): (Fs, Result<word>)
    requires Geometry(fs) && fs.inodes[ROOT].block < |fs.data| && |name| < NAME_LIMIT
  {
    var (fs2, i) := NewInode(fs, Regular);
    if i.Err? then (fs2, i)
    else
      var fs3 := fs2.(freeInodes := Wrap(fs2.freeInodes + 1));
      var fs4 := SetInode(fs3, i.value, NewFile(i.value, fs3.inodes[i.value].block));
      var (fs5, entered) := AddDirEntry(fs4, i.value, name);
      if entered.Err? then (Rollback(fs5, i.value), Err(entered.error))
      else (fs5, i)
  }

  /** lab4/dir.c:272-381, for a regular file created in the root directory. */
  function Create(fs: Fs, name: seq<byte>): (Fs, Result<word>)
    requires Geometry(fs) && fs.inodes[ROOT].block < |fs.data|
  {
    if |name| >= NAME_LIMIT then (fs, Err(ENAMETOOLONG))
    else
      var (fs1, rooted) := EnsureRootBlock(fs);
      if rooted.Err? then (fs1, Err(rooted.error)) else NewEntry(fs1, name)
  }

  /** lab4/dir.c:18-57 with lab4/inode.c:15-22: `None` when there is no such name. */
  function Lookup(fs: Fs, name: seq<byte>): Result<Option<nat>>
    requires Geometry(fs) && fs.inodes[ROOT].block < |fs.data|
    requires fs.inodes[ROOT].size / ENTRY_SIZE <= MaxEntries(fs.blockSize)
  {
    var block := fs.data[fs.inodes[ROOT].block];
    var n := fs.inodes[ROOT].size / ENTRY_SIZE;
    var i := FindEntry(block, 0, n, name);
    if i == n then Ok(None)
    else
      var ino := EntryInode(block, i);
      if ino == 0 || ino >= |fs.inodes| then Err(EFAULT) else Ok(Some(ino))
  }

  /** An entry that names no inode record is reported, not followed (lab4/inode.c:19). */
  lemma {:induction false} BadInodeNumber(fs: Fs, name: seq<byte>, i: nat)
    requires Geometry(fs) && fs.inodes[ROOT].block < |fs.data|
    requires fs.inodes[ROOT].size / 260 <= MaxEntries(fs.blockSize) && i < fs.inodes[ROOT].size / 260
    requires var block := fs.data[fs.inodes[ROOT].block];
             && EntryName(block, i) == name && (forall j :: 0 <= j < i ==> EntryName(block, j) != name)
             && (EntryInode(block, i) == 0 || EntryInode(block, i) >= |fs.inodes|)
    ensures Lookup(fs, name) == Err(EFAULT)
  {
    hide EntryName, EntryInode;
    assert FindEntry(fs.data[fs.inodes[ROOT].block], 0, fs.inodes[ROOT].size / 260, name) == i;
  }

  // ---------------------------------------------------------------- the directory as a map

  /** The directory: names to inode numbers. */
  ghost function Dir(fs: Fs): map<seq<byte>, nat>
    requires Inv(fs)
  {
    Names(fs.data[0], Last(fs) - 1)
  }

  lemma {:induction false} EntriesOf(fs: Fs)
    requires Inv(fs)
    ensures 0 < |fs.data| && ROOT < |fs.inodes| && |fs.data[0]| == fs.blockSize
    ensures ROOT <= Last(fs) && Last(fs) + 1 < U32 && EntriesOk(fs.data[0], Last(fs) - 1)
    ensures Last(fs) - 1 <= MaxEntries(fs.blockSize) && Dir(fs) == Names(fs.data[0], Last(fs) - 1)
  {
    assert Bitmaps(fs) && DirectoryOk(fs);
    hide Inv, Bitmaps, Names;
  }

  lemma {:induction false} RootRecord(fs: Fs)
    requires Inv(fs)
    ensures Geometry(fs) && fs.inodes[ROOT].block == 0 && fs.inodes[ROOT].size / ENTRY_SIZE == Last(fs) - 1
    ensures 0 <= Last(fs) < |fs.inodes|
  {
    assert RootOk(fs) && DirectoryOk(fs) && Bitmaps(fs);
    hide Inv;
  }

  lemma {:induction false} LookupMeaning(fs: Fs, name: seq<byte>)
    requires Inv(fs)
    ensures fs.inodes[ROOT].size / ENTRY_SIZE <= MaxEntries(fs.blockSize) && fs.inodes[ROOT].block < |fs.data|
    ensures Lookup(fs, name) == Ok(if name in Dir(fs) then Some(Dir(fs)[name]) else None)
  {
    RootRecord(fs);
    hide Inv, Dir, EntriesOk, Names, MaxEntries, FindEntry, EntryInode, EntryName;
    EntriesOf(fs);
    NamesMeaning(fs.data[0], Last(fs) - 1, name);
  }

  /** The directory names exactly the live files, each by exactly one name. */
  lemma {:induction false} DirectoryIsBijection(fs: Fs)
    requires Inv(fs)
    ensures forall name :: name in Dir(fs) ==> Live(fs, Dir(fs)[name])
    ensures forall x, y :: x in Dir(fs) && y in Dir(fs) && Dir(fs)[x] == Dir(fs)[y] ==> x == y
    ensures forall f :: Live(fs, f) ==> Named(Dir(fs), f)
  {
    hide Inv, Dir, EntriesOk, Names, MaxEntries;
    EntriesOf(fs);
    NamesAreInodes(fs.data[0], Last(fs) - 1);
  }

  // ---------------------------------------------------------------- the root block

  /** The first block ever allocated is block 0, and it goes to the root. */
  lemma {:induction false} FirstBlockIsRoots(fs: Fs, fs1: Fs)
    requires Inv(fs) && Used(fs) == 0
    requires fs1 == SetInode(AllocBlock(fs).0, ROOT, fs.inodes[ROOT].(block := 0, blocks := 1))
    ensures AllocBlock(fs).1 == Ok(0) && Inv(fs1) && Used(fs1) == 1 && Last(fs1) == Last(fs) == ROOT
  {
    AllocMeaning(fs);
    assert RootOk(fs) && DirectoryOk(fs) && Held(fs.inodes, 1) == 0;
    assert FreeBlocksZero(fs);
    hide AllocBlock;
    assert Bitmaps(fs1) && RootOk(fs1) && DirectoryOk(fs1);
    assert Held(fs1.inodes, 1) == Held(fs1.inodes, 0) + 1;
    assert Owns(fs1, ROOT, 0);
    assert Covered(fs1);
  }

  lemma {:induction false} RootBlockMeaning(fs: Fs)
    requires Inv(fs)
    ensures var (fs1, r) := EnsureRootBlock(fs);
            && r == Ok(()) && Inv(fs1) && fs1.inodes[ROOT].blocks == 1
            && (fs.inodes[ROOT].blocks != 0 ==> fs1 == fs)
            && Last(fs1) == Last(fs) && SameShape(fs, fs1) && fs1.data == fs.data && Dir(fs1) == Dir(fs)
            && (forall f :: Live(fs, f) ==> fs1 == fs)
            && Used(fs1) == if Used(fs) == 0 then 1 else Used(fs)
  {
    assert RootOk(fs) && Bitmaps(fs);
    if fs.inodes[ROOT].blocks == 0 {
      AllocMeaning(fs);
      var fs1 := EnsureRootBlock(fs).0;
      FirstBlockIsRoots(fs, fs1);
    } else {
      assert EnsureRootBlock(fs).1.value == ();
    }
  }

  // ---------------------------------------------------------------- taking an inode and a block

  /** The root has its block, and there is an inode and a block for one more file. */
  ghost predicate HasSpace(fs: Fs) {
    Inv(fs) && fs.inodes[ROOT].blocks == 1 && Last(fs) + 1 < |fs.inodes| && fs.freeBlocks > 0
  }

  lemma SpaceHasInv(fs: Fs)
    requires HasSpace(fs)
    ensures Inv(fs) && fs.inodes[ROOT].blocks == 1
  {
  }

  /** The state before the new file is entered in the directory. */
  ghost function Taken(fs: Fs): (r: Fs)
    requires HasSpace(fs)
    ensures Geometry(r)
  {
    fs.(inodeBits := fs.inodeBits[Last(fs) + 1 := true], freeInodes := fs.freeInodes - 1,
        blockBits := fs.blockBits[Used(fs) := true], freeBlocks := fs.freeBlocks - 1,
        inodes := fs.inodes[Last(fs) + 1 := NewFile(Last(fs) + 1, Used(fs))])
  }

  lemma {:induction false} FreeInodeMeaning(fs: Fs)
    requires Geometry(fs) && Bitmaps(fs)
    ensures 0 < fs.freeInodes
    ensures GetFreeInode(fs) ==
            if Last(fs) + 1 == |fs.inodes| then (fs, Err(ENOSPC))
            else (fs.(inodeBits := fs.inodeBits[Last(fs) + 1 := true], freeInodes := fs.freeInodes - 1),
                  Ok(Last(fs) + 1))
  {
    var i := FirstClear(fs.inodeBits, 1);
    if Last(fs) + 1 < |fs.inodes| {
      assert !fs.inodeBits[Last(fs) + 1];
    }
    assert i == Last(fs) + 1;
  }

  /** For every type of file: special files are refused outright, and else the new record has the
      inode after the last one and the block at the allocation mark. */
  lemma {:induction false} NewInodeOutcome(fs: Fs, mode: Mode)
    requires Inv(fs)
    ensures var (fs1, r) := NewInode(fs, mode);
            if mode == Special then fs1 == fs && r == Err(EINVAL)
            else if Last(fs) + 1 == |fs.inodes| || fs.freeBlocks == 0 then fs1 == fs && r == Err(ENOSPC)
            else
              && r == Ok(Last(fs) + 1) && r.value < |fs.inodes|
              && fs1 == fs.(inodeBits := fs.inodeBits[r.value := true], blockBits := fs.blockBits[Used(fs) := true],
                            freeInodes := Wrap(fs.freeInodes - 2), freeBlocks := fs.freeBlocks - 1,
                            inodes := fs.inodes[r.value := Inode(r.value, 0, 1, mode, 0, Used(fs))])
  {
    assert Bitmaps(fs);
    FreeInodeMeaning(fs);
    if mode != Special && Last(fs) + 1 < |fs.inodes| && fs.freeBlocks != 0 {
      var m := Last(fs) + 1;
      var (fs1, _) := GetFreeInode(fs);
      var fs2 := SetInode(fs1, m, Inode(m, 0, 1, mode, 0, 0));
      assert !fs.blockBits[Used(fs)] && FirstClear(fs2.blockBits, 0) == Used(fs);
      hide Inv, FirstClear, GetFreeInode;
    }
  }

  /** The counters decide nothing here: the free-inode counter also counts inode 0, which is never
      handed out, so it is positive even when no inode is left; the scan reports that. With a
      free block counted, the block allocation after the check cannot fail. */
  lemma {:induction false} NewInodeMeaning(fs: Fs)
    requires Inv(fs) && fs.inodes[ROOT].blocks == 1
    ensures var (fs1, r) := NewInode(fs, Regular);
            if HasSpace(fs) then
              && r == Ok(Last(fs) + 1) && r.value < |fs1.inodes| && Geometry(fs1)
              && SetInode(fs1.(freeInodes := Wrap(fs1.freeInodes + 1)), r.value,
                          NewFile(r.value, fs1.inodes[r.value].block)) == Taken(fs)
            else
              fs1 == fs && r == Err(ENOSPC)
  {
    assert Bitmaps(fs);
    FreeInodeMeaning(fs);
    if HasSpace(fs) {
      var m := Last(fs) + 1;
      var (fs1, _) := GetFreeInode(fs);
      var fs2 := SetInode(fs1, m, Inode(m, 0, 1, Regular, 0, 0));
      assert !fs.blockBits[Used(fs)] && FirstClear(fs2.blockBits, 0) == Used(fs);
      hide Inv, FirstClear, GetFreeInode;
    }
  }

  // ---------------------------------------------------------------- entering the file

  /** The state after a successful creation of `name`. */
  ghost function Created(fs: Fs, name: seq<byte>): (r: Fs)
    requires HasSpace(fs) && Last(fs) - 1 < MaxEntries(fs.blockSize) && |name| < NAME_LIMIT
    ensures Geometry(r)
  {
    var t := Taken(fs);
    t.(data := t.data[0 := PutEntry(fs.data[0], Last(fs) - 1, name, Last(fs) + 1)],
       inodes := t.inodes[ROOT := fs.inodes[ROOT].(size := ENTRY_SIZE * Last(fs))])
  }

  lemma {:induction false} RecordMonotone(i: Inode, t: Table, used: int, used': int)
    requires RecordOk(i, t, used) && used <= used'
    ensures RecordOk(i, t, used')
  {
    hide Formatted, Extents;
  }

  lemma {:induction false} CreatedFile(fs: Fs, name: seq<byte>, fs1: Fs, f: nat)
    requires HasSpace(fs) && Last(fs) - 1 < MaxEntries(fs.blockSize) && |name| < NAME_LIMIT
    requires fs1 == Created(fs, name) && Live(fs1, f)
    ensures FileOk(fs1, f)
    ensures f <= Last(fs) ==>
              && HasTable(fs, f) && FileOk(fs, f)
              && TableOf(fs1, f) == TableOf(fs, f) && fs1.inodes[f] == fs.inodes[f]
    ensures f == Last(fs) + 1 ==> Phys(fs1, f) == [] && fs1.inodes[f].block == Used(fs)
  {
    if f <= Last(fs) {
      LiveHasTable(fs, f);
      RecordMonotone(fs.inodes[f], TableOf(fs, f), Used(fs), Used(fs1));
      hide Inv, RecordOk, PutEntry;
    } else {
      assert RootOk(fs) && FreeBlocksZero(fs) && Bitmaps(fs);
      assert TableOf(fs1, f) == Zeros(fs.blockSize);
      ZeroBlockIsUnformatted(TableOf(fs1, f));
      hide Inv, PutEntry;
    }
  }

  lemma {:induction false} CreatedOwners(fs: Fs, name: seq<byte>, fs1: Fs, i: nat, b: nat)
    requires HasSpace(fs) && Last(fs) - 1 < MaxEntries(fs.blockSize) && |name| < NAME_LIMIT
    requires fs1 == Created(fs, name)
    ensures Owns(fs1, i, b) <==> Owns(fs, i, b) || (i == Last(fs) + 1 && b == Used(fs))
  {
    assert Bitmaps(fs);
    hide Inv, BlocksOf, RecordOk, PutEntry;
    if Live(fs1, i) {
      CreatedFile(fs, name, fs1, i);
    }
  }

  lemma {:induction false} CreatedOwnership(fs: Fs, name: seq<byte>, fs1: Fs)
    requires HasSpace(fs) && Last(fs) - 1 < MaxEntries(fs.blockSize) && |name| < NAME_LIMIT
    requires fs1 == Created(fs, name)
    ensures Disjoint(fs1) && Covered(fs1)
  {
    assert Disjoint(fs) && Covered(fs) && Bitmaps(fs);
    forall i, j, b | Owns(fs1, i, b) && Owns(fs1, j, b)
      ensures i == j
    {
      CreatedOwners(fs, name, fs1, i, b);
      CreatedOwners(fs, name, fs1, j, b);
      if Owns(fs, i, b) { OwnedBelow(fs, i, b); }
      if Owns(fs, j, b) { OwnedBelow(fs, j, b); }
    }
    forall b | 0 <= b < Used(fs1)
      ensures HasOwner(fs1, b)
    {
      if b < Used(fs) {
        assert HasOwner(fs, b);
        var i :| Owns(fs, i, b);
        CreatedOwners(fs, name, fs1, i, b);
      } else {
        CreatedOwners(fs, name, fs1, Last(fs) + 1, b);
      }
    }
  }

  lemma {:induction false} HeldSame(a: seq<Inode>, a': seq<Inode>, n: nat)
    requires n < |a| && n < |a'|
    requires forall i :: 1 <= i <= n ==> a'[i].blocks == a[i].blocks
    ensures Held(a', n) == Held(a, n)
  {
    if n > 0 {
      HeldSame(a, a', n - 1);
    }
  }

  lemma {:induction false} CreatedRoot(fs: Fs, name: seq<byte>, fs1: Fs)
    requires HasSpace(fs) && Last(fs) - 1 < MaxEntries(fs.blockSize) && |name| < NAME_LIMIT
    requires fs1 == Created(fs, name)
    ensures Last(fs1) == Last(fs) + 1 && RootOk(fs1) && 0 <= Last(fs) - 1
    ensures fs1.inodes[ROOT].size == ENTRY_SIZE * (Last(fs1) - 1) && |fs.data[0]| == fs.blockSize
    ensures fs1.data[0] == PutEntry(fs.data[0], Last(fs) - 1, name, Last(fs) + 1)
  {
    assert Bitmaps(fs) && RootOk(fs);
    hide Inv, PutEntry, Bitmaps;
  }

  /** Entering a new name, on the block alone. */
  lemma {:induction false} EnteredBlock(block: seq<byte>, n: nat, name: seq<byte>)
    requires EntriesOk(block, n) && n < MaxEntries(|block|) && n + 2 < U32
    requires |name| < NAME_LIMIT && NoNul(name) && name !in Names(block, n)
    ensures var block1 := PutEntry(block, n, name, n + 2);
            EntriesOk(block1, n + 1) && Names(block1, n + 1) == Names(block, n)[name := n + 2]
  {
    hide PutEntry, EntryName, EntryInode, Names, FindEntry, MaxEntries, EntriesOk;
    NamesMeaning(block, n, name);
    AddedEntry(block, n, name);
    NamesAdded(block, n, name, n + 2);
  }

  lemma {:induction false} CreatedDirectory(fs: Fs, name: seq<byte>, fs1: Fs)
    requires HasSpace(fs) && Last(fs) - 1 < MaxEntries(fs.blockSize) && |name| < NAME_LIMIT && NoNul(name)
    requires name !in Dir(fs) && fs1 == Created(fs, name)
    ensures Last(fs1) == Last(fs) + 1 && DirectoryOk(fs1) && RootOk(fs1)
    ensures 0 <= Last(fs) - 1 <= MaxEntries(|fs.data[0]|) && Dir(fs) == Names(fs.data[0], Last(fs) - 1)
    ensures Names(fs1.data[0], Last(fs)) == Dir(fs)[name := Last(fs) + 1]
  {
    hide Inv, HasSpace, Created, Dir, RootOk, Geometry, MaxEntries, PutEntry, EntriesOk, Names;
    SpaceHasInv(fs);
    CreatedRoot(fs, name, fs1);
    EntriesOf(fs);
    EnteredBlock(fs.data[0], Last(fs) - 1, name);
  }

  lemma {:induction false} CreatedRest(fs: Fs, name: seq<byte>, fs1: Fs)
    requires HasSpace(fs) && Last(fs) - 1 < MaxEntries(fs.blockSize) && |name| < NAME_LIMIT
    requires fs1 == Created(fs, name)
    ensures Bitmaps(fs1) && FreeBlocksZero(fs1)
    ensures Held(fs1.inodes, Last(fs1)) == Used(fs1)
  {
    assert Bitmaps(fs) && FreeBlocksZero(fs) && Held(fs.inodes, Last(fs)) == Used(fs);
    HeldSame(fs.inodes, fs1.inodes, Last(fs));
    hide Inv, PutEntry;
  }

  lemma {:induction false} CreatedFiles(fs: Fs, name: seq<byte>, fs1: Fs)
    requires HasSpace(fs) && Last(fs) - 1 < MaxEntries(fs.blockSize) && |name| < NAME_LIMIT
    requires fs1 == Created(fs, name)
    ensures Files(fs1)
  {
    hide Inv, FileOk;
    forall f | Live(fs1, f)
      ensures FileOk(fs1, f)
    {
      CreatedFile(fs, name, fs1, f);
    }
  }

  lemma {:induction false} CreatedInv(fs: Fs, name: seq<byte>)
    requires HasSpace(fs) && Last(fs) - 1 < MaxEntries(fs.blockSize) && |name| < NAME_LIMIT && NoNul(name)
    requires name !in Dir(fs)
    ensures var fs1 := Created(fs, name);
            && Inv(fs1) && Last(fs1) == Last(fs) + 1
            && Dir(fs1) == Dir(fs)[name := Last(fs) + 1]
  {
    hide Created, HasSpace, Names, Held, Bitmaps, Files, Disjoint, Covered, DirectoryOk, RootOk, FreeBlocksZero;
    hide Geometry, PutEntry;
    var fs1 := Created(fs, name);
    CreatedDirectory(fs, name, fs1);
    CreatedRest(fs, name, fs1);
    CreatedOwnership(fs, name, fs1);
    CreatedFiles(fs, name, fs1);
  }

  /** An untouched table block, no data blocks, and nothing in it. */
  ghost predicate IsNewFile(fs: Fs, f: nat)
    requires HasTable(fs, f)
  {
    Phys(fs, f) == [] && View(fs, f) == [] && fs.inodes[f].size == 0 && Count(TableOf(fs, f)) == 0
  }

  lemma {:induction false} CreatedNewFile(fs: Fs, name: seq<byte>, fs1: Fs)
    requires HasSpace(fs) && Last(fs) - 1 < MaxEntries(fs.blockSize) && |name| < NAME_LIMIT
    requires fs1 == Created(fs, name)
    ensures HasTable(fs1, Last(fs) + 1) && IsNewFile(fs1, Last(fs) + 1)
  {
    CreatedFile(fs, name, fs1, Last(fs) + 1);
    assert fs1.inodes[Last(fs) + 1] == NewFile(Last(fs) + 1, Used(fs));
    assert RootOk(fs) && FreeBlocksZero(fs) && Bitmaps(fs);
    assert TableOf(fs1, Last(fs) + 1) == Zeros(fs.blockSize);
    ZeroBlockIsUnformatted(TableOf(fs1, Last(fs) + 1));
    hide Inv, PutEntry, Created, BlocksOf;
  }

  lemma {:induction false} CreatedSameFiles(fs: Fs, name: seq<byte>, fs1: Fs)
    requires HasSpace(fs) && Last(fs) - 1 < MaxEntries(fs.blockSize) && |name| < NAME_LIMIT
    requires fs1 == Created(fs, name)
    ensures forall f :: Live(fs, f) ==> SameFile(fs, fs1, f)
  {
    assert forall b :: 1 <= b < |fs.data| ==> fs1.data[b] == fs.data[b];
    assert fs1.blockSize == fs.blockSize && |fs1.data| == |fs.data|;
    hide Inv, SameFile, FileOk;
    forall f | Live(fs, f)
      ensures SameFile(fs, fs1, f)
    {
      assert Live(fs1, f);
      CreatedFile(fs, name, fs1, f);
      hide Created;
      SameBlocks(fs, fs1, f);
    }
  }

  /** A successful creation adds exactly one binding, to a fresh inode whose file is empty, and
      leaves every other file as it was. */
  lemma {:induction false} CreatedMeaning(fs: Fs, name: seq<byte>)
    requires HasSpace(fs) && Last(fs) - 1 < MaxEntries(fs.blockSize) && |name| < NAME_LIMIT && NoNul(name)
    requires name !in Dir(fs)
    ensures var fs1 := Created(fs, name);
            && Inv(fs1) && Last(fs1) == Last(fs) + 1
            && Dir(fs1) == Dir(fs)[name := Last(fs) + 1]
            && HasTable(fs1, Last(fs) + 1) && IsNewFile(fs1, Last(fs) + 1)
            && forall f :: Live(fs, f) ==> SameFile(fs, fs1, f)
  {
    hide Inv, Dir, Created, SameFile, IsNewFile;
    CreatedInv(fs, name);
    CreatedSameFiles(fs, name, Created(fs, name));
    CreatedNewFile(fs, name, Created(fs, name));
  }

  // ---------------------------------------------------------------- refusing and rolling back

  /** The state after a refused creation: only the record of a free inode slot is different. */
  ghost function Refused(fs: Fs): (r: Fs)
    requires HasSpace(fs)
    ensures Geometry(r)
  {
    fs.(inodes := fs.inodes[Last(fs) + 1 := NewFile(Last(fs) + 1, Used(fs))])
  }

  lemma {:induction false} RollbackMeaning(fs: Fs)
    requires HasSpace(fs)
    ensures Rollback(Taken(fs), Last(fs) + 1) == Refused(fs)
  {
    assert Bitmaps(fs);
    assert fs.inodeBits[Last(fs) + 1 := true][Last(fs) + 1 := false] == fs.inodeBits;
    assert fs.blockBits[Used(fs) := true][Used(fs) := false] == fs.blockBits;
    hide Inv, Bitmaps;
  }

  lemma {:induction false} RefusedFile(fs: Fs, fs1: Fs, i: nat)
    requires HasSpace(fs) && fs1 == Refused(fs)
    ensures Live(fs1, i) <==> Live(fs, i)
    ensures Live(fs, i) ==>
              && FileOk(fs1, i) && HasTable(fs, i)
              && TableOf(fs1, i) == TableOf(fs, i) && fs1.inodes[i] == fs.inodes[i]
    ensures forall b :: Owns(fs1, i, b) <==> Owns(fs, i, b)
  {
    assert Bitmaps(fs);
    if Live(fs, i) {
      LiveHasTable(fs, i);
    }
    hide Inv, RecordOk, BlocksOf;
  }

  lemma {:induction false} RefusedSameFiles(fs: Fs, fs1: Fs)
    requires HasSpace(fs) && fs1 == Refused(fs)
    ensures forall f :: Live(fs, f) ==> SameFile(fs, fs1, f)
  {
    assert fs1.data == fs.data && fs1.blockSize == fs.blockSize;
    hide Inv, SameFile, FileOk;
    forall f | Live(fs, f)
      ensures SameFile(fs, fs1, f)
    {
      LiveHasTable(fs, f);
      RefusedFile(fs, fs1, f);
      hide Refused;
      SameBlocks(fs, fs1, f);
    }
  }

  lemma {:induction false} RefusedMeaning(fs: Fs)
    requires HasSpace(fs)
    ensures Inv(Refused(fs)) && Last(Refused(fs)) == Last(fs) && Dir(Refused(fs)) == Dir(fs)
    ensures forall f :: Live(fs, f) ==> SameFile(fs, Refused(fs), f)
  {
    var fs1 := Refused(fs);
    RefusedSameFiles(fs, fs1);
    hide SameFile;
    forall i
      ensures Live(fs1, i) ==> FileOk(fs1, i)
      ensures forall b :: Owns(fs1, i, b) <==> Owns(fs, i, b)
    {
      RefusedFile(fs, fs1, i);
    }
    HeldSame(fs.inodes, fs1.inodes, Last(fs));
    assert Bitmaps(fs1) && RootOk(fs1) && FreeBlocksZero(fs1) && DirectoryOk(fs1);
    hide FileOk, Names, Held, EntriesOk, Owns;
    assert Files(fs1);
    assert Disjoint(fs1);
    forall b | 0 <= b < Used(fs1)
      ensures HasOwner(fs1, b)
    {
      assert HasOwner(fs, b);
      var i :| Owns(fs, i, b);
      assert Owns(fs1, i, b);
    }
  }

  // ---------------------------------------------------------------- the whole call

  lemma {:induction false} RootFacts(fs: Fs, name: seq<byte>)
    requires Inv(fs)
    ensures var root, n := fs.inodes[ROOT], Last(fs) - 1;
            && root.block == 0 && root.size == ENTRY_SIZE * n && root.size / ENTRY_SIZE == n
            && 0 <= n <= MaxEntries(fs.blockSize)
            && (FindEntry(fs.data[0], 0, n, name) < n <==> name in Dir(fs))
  {
    assert RootOk(fs) && DirectoryOk(fs) && Bitmaps(fs);
    NamesMeaning(fs.data[0], Last(fs) - 1, name);
    hide Inv, FindEntry, Names, EntryName, EntryInode, Bitmaps;
  }

  lemma {:induction false} SmallDirectory(fs: Fs)
    requires Inv(fs) && Last(fs) - 1 < MaxEntries(fs.blockSize)
    ensures 0 <= ENTRY_SIZE * Last(fs) < U32
  {
    assert Bitmaps(fs);
  }

  lemma {:induction false} AddDirEntryMeaning(fs: Fs, name: seq<byte>, t: Fs)
    requires HasSpace(fs) && |name| < NAME_LIMIT && t == Taken(fs)
    ensures t.inodes[ROOT].block < |t.data|
    ensures AddDirEntry(t, Last(fs) + 1, name) ==
            if Last(fs) - 1 >= MaxEntries(fs.blockSize) then (t, Err(ENOSPC))
            else if name in Dir(fs) then (t, Err(EEXIST))
            else (Created(fs, name), Ok(()))
  {
    hide Inv, PutEntry, FindEntry, Names, MaxEntries;
    RootFacts(fs, name);
    var n := Last(fs) - 1;
    assert t.inodes[ROOT] == fs.inodes[ROOT] && t.data == fs.data;
    if n < MaxEntries(fs.blockSize) {
      assert Wrap(fs.inodes[ROOT].size + ENTRY_SIZE) == ENTRY_SIZE * Last(fs) by {
        SmallDirectory(fs);
      }
    }
  }

  lemma {:induction false} TakenShape(fs: Fs)
    requires HasSpace(fs)
    ensures var t, m := Taken(fs), Last(fs) + 1;
            && 0 <= m < |t.inodes| && m < |fs.inodes| && Used(fs) >= 0 && ROOT < |t.inodes| && |t.data| == |fs.data|
            && t.inodes[m].blocks == 1 && t.inodes[m].block < |t.blockBits| && Geometry(fs)
            && fs.inodes[ROOT].block < |fs.data|
  {
    assert Bitmaps(fs) && RootOk(fs);
    hide Inv;
  }

  lemma {:induction false} NewEntryEnters(fs: Fs, name: seq<byte>)
    requires HasSpace(fs) && |name| < NAME_LIMIT
    ensures fs.inodes[ROOT].block < |fs.data| && Taken(fs).inodes[ROOT].block < |fs.data|
    ensures var t, m := Taken(fs), Last(fs) + 1;
            var (fs1, entered) := AddDirEntry(t, m, name);
            && m < |t.inodes| && (entered.Err? ==> fs1 == t) && Used(fs) >= 0
            && NewEntry(fs, name) == if entered.Err? then (Rollback(t, m), Err(entered.error)) else (fs1, Ok(m))
  {
    hide Geometry, Inv, HasSpace, NewInode, AddDirEntry, Rollback, Dir, MaxEntries, Created, Taken, SetInode, NewFile;
    SpaceHasInv(fs);
    TakenShape(fs);
    NewInodeMeaning(fs);
    AddDirEntryMeaning(fs, name, Taken(fs));
  }

  lemma {:induction false} NewEntryWithSpace(fs: Fs, name: seq<byte>)
    requires HasSpace(fs) && |name| < NAME_LIMIT
    ensures fs.inodes[ROOT].block < |fs.data|
    ensures NewEntry(fs, name) ==
            if Last(fs) - 1 >= MaxEntries(fs.blockSize) then (Refused(fs), Err(ENOSPC))
            else if name in Dir(fs) then (Refused(fs), Err(EEXIST))
            else (Created(fs, name), Ok(Last(fs) + 1))
  {
    hide Inv, HasSpace, NewEntry, AddDirEntry, Rollback, Dir, MaxEntries, Created, Refused, Taken;
    NewEntryEnters(fs, name);
    AddDirEntryMeaning(fs, name, Taken(fs));
    RollbackMeaning(fs);
  }

  lemma {:induction false} NewEntryMeaning(fs: Fs, name: seq<byte>)
    requires Inv(fs) && fs.inodes[ROOT].blocks == 1 && |name| < NAME_LIMIT
    ensures fs.inodes[ROOT].block < |fs.data|
    ensures NewEntry(fs, name) ==
            if !HasSpace(fs) then (fs, Err(ENOSPC))
            else if Last(fs) - 1 >= MaxEntries(fs.blockSize) then (Refused(fs), Err(ENOSPC))
            else if name in Dir(fs) then (Refused(fs), Err(EEXIST))
            else (Created(fs, name), Ok(Last(fs) + 1))
  {
    if HasSpace(fs) {
      NewEntryWithSpace(fs, name);
    } else {
      NewInodeMeaning(fs);
    }
    hide Inv, NewInode, AddDirEntry, Rollback, Dir, MaxEntries, Taken, Created, Refused;
  }

  /** What creating a file does, in all cases. A refusal after the inode and the block were taken
      (the directory is full, or has the name) gives both back. */
  lemma {:induction false} CreateMeaning(fs: Fs, name: seq<byte>)
    requires Inv(fs)
    ensures fs.inodes[ROOT].block < |fs.data|
    ensures var fs1, r := EnsureRootBlock(fs).0, Create(fs, name);
            && Inv(fs1) && Last(fs1) == Last(fs) && Dir(fs1) == Dir(fs)
            && if |name| >= NAME_LIMIT then r == (fs, Err(ENAMETOOLONG))
               else if !HasSpace(fs1) then r == (fs1, Err(ENOSPC))
               else if Last(fs) - 1 >= MaxEntries(fs.blockSize) then r == (Refused(fs1), Err(ENOSPC))
               else if name in Dir(fs) then r == (Refused(fs1), Err(EEXIST))
               else r == (Created(fs1, name), Ok(Last(fs) + 1))
  {
    RootBlockMeaning(fs);
    var fs1 := EnsureRootBlock(fs).0;
    assert Geometry(fs) && Geometry(fs1);
    hide Geometry, Inv, EnsureRootBlock, NewEntry, Dir, MaxEntries, Created, Refused;
    RootFacts(fs, name);
    if |name| < NAME_LIMIT {
      NewEntryMeaning(fs1, name);
    }
  }
}
