/** Whole runs: the mounted state (lab4/super.c:51-126), sequences of calls on it, and what holds
    in every reachable state. */
module Runs {
  import opened Bytes
  import opened State
  import opened FileSteps
  import opened Blocks
  import opened ReadWrite
  import opened ByteStore
  import opened Directory
  import opened Creation

  predicate MountSizes(blockSize: nat, inodeCount: nat, blockCount: nat) {
    8 <= blockSize < U32 && 2 <= inodeCount < 0x8000_0000 && 1 <= blockCount < 0xFFFF_FFFF
  }

  /** An inode slot of the zeroed region, and the root's. */
  const BLANK := Inode(0, 0, 0, Special, 0, 0)
  const ROOT_RECORD := Inode(1, 0, 0, Directory, 2, 0)

  /** The state after `osfs_fill_super`: zeroed memory with the root's bit set. The free-inode
      counter is not lowered for the root, since it already leaves out inode 0. */
  function Mounted(blockSize: nat, inodeCount: nat, blockCount: nat): (fs: Fs)
    requires MountSizes(blockSize, inodeCount, blockCount)
    ensures Geometry(fs)
  {
    Fs(blockSize,
       seq(inodeCount, i => i == ROOT), seq(blockCount, _ => false),
       inodeCount - 1, blockCount,
       seq(inodeCount, i => if i == ROOT then ROOT_RECORD else BLANK),
       seq(blockCount, _ => Zeros(blockSize)))
  }

  lemma {:induction false} MountedMeaning(blockSize: nat, inodeCount: nat, blockCount: nat)
    requires MountSizes(blockSize, inodeCount, blockCount)
    ensures Inv(Mounted(blockSize, inodeCount, blockCount))
    ensures Dir(Mounted(blockSize, inodeCount, blockCount)) == map[]
    ensures Last(Mounted(blockSize, inodeCount, blockCount)) == ROOT
    ensures var fs := Mounted(blockSize, inodeCount, blockCount);
            && fs.blockSize == blockSize && fs.freeInodes == inodeCount - 1 && fs.freeBlocks == blockCount
            && |fs.inodeBits| == inodeCount && (forall i :: 0 <= i < inodeCount ==> (fs.inodeBits[i] <==> i == 1))
            && |fs.blockBits| == blockCount && (forall b :: 0 <= b < blockCount ==> !fs.blockBits[b])
            && fs.inodes[1] == Inode(1, 0, 0, Directory, 2, 0)
            && (forall i :: 0 <= i < inodeCount && i != 1 ==> fs.inodes[i] == Inode(0, 0, 0, Special, 0, 0))
            && forall b, x :: 0 <= b < blockCount && 0 <= x < blockSize ==> fs.data[b][x] == 0
  {
    var fs := Mounted(blockSize, inodeCount, blockCount);
    assert Held(fs.inodes, 1) == Held(fs.inodes, 0) + 0;
    assert Bitmaps(fs) && RootOk(fs) && Files(fs) && Disjoint(fs) && Covered(fs) && FreeBlocksZero(fs)
         && DirectoryOk(fs);
  }

  /** The mounted state, known to satisfy the invariant. */
  ghost function Mount(blockSize: nat, inodeCount: nat, blockCount: nat): (fs: Fs)
    requires MountSizes(blockSize, inodeCount, blockCount)
    ensures Inv(fs) && Dir(fs) == map[]
  {
    MountedMeaning(blockSize, inodeCount, blockCount);
    Mounted(blockSize, inodeCount, blockCount)
  }

  // ---------------------------------------------------------------- calls

  /** A system call as the VFS turns it into operations of osfs; files are opened by name. */
  datatype Call =
    | CallCreate(name: seq<byte>)
    | CallLookup(name: seq<byte>)
    | CallRead(name: seq<byte>, pos: nat, count: nat)
    | CallWrite(name: seq<byte>, pos: nat, buf: seq<byte>)

  datatype Reply =
    | Number(ret: Result<nat>)
    | Data(bytes: Result<seq<byte>>)

  /** Names come from the VFS without NUL bytes. */
  ghost predicate Sensible(c: Call) {
    c.CallCreate? ==> NoNul(c.name)
  }

  /** The live file a name stands for, by the lookup of lab4/dir.c. */
  ghost function Resolve(fs: Fs, name: seq<byte>): (r: Result<nat>)
    requires Inv(fs)
    ensures r == if name in Dir(fs) then Ok(Dir(fs)[name]) else Err(ENOENT)
    ensures r.Ok? ==> Live(fs, r.value) && HasTable(fs, r.value)
  {
    LookupMeaning(fs, name);
    DirectoryIsBijection(fs);
    if name in Dir(fs) then LiveHasTable(fs, Dir(fs)[name]); Ok(Lookup(fs, name).value.value) else Err(ENOENT)
  }

  ghost function Do(fs: Fs, c: Call): (r: (Fs, Reply))
    requires Inv(fs)
  {
    match c
    case CallCreate(name) =>
      assert RootOk(fs);
      var (fs1, r) := Create(fs, name);
      (fs1, Number(if r.Ok? then Ok(r.value) else Err(r.error)))
    case CallLookup(name) =>
      (fs, Number(Resolve(fs, name)))
    case CallRead(name, pos, count) =>
      var f := Resolve(fs, name);
      if f.Err? then (fs, Data(Err(f.error)))
      else
        var io := ReadFile(fs, f.value, pos, count);
        (io.fs, Data(io.ret))
    case CallWrite(name, pos, buf) =>
      var f := Resolve(fs, name);
      if f.Err? then (fs, Number(Err(f.error)))
      else
        var io := WriteFile(fs, f.value, pos, buf);
        (io.fs, Number(io.ret))
  }

  // ---------------------------------------------------------------- one call

  ghost predicate SameSizes(fs: Fs, fs1: Fs) {
    fs1.blockSize == fs.blockSize && |fs1.blockBits| == |fs.blockBits| && |fs1.inodes| == |fs.inodes|
  }

  /** Every write is one of three: refused, empty, or carried out as far as blocks allow. */
  lemma {:induction false} WriteChanges(fs: Fs, f: nat, pos: nat, buf: seq<byte>) returns (done: nat)
    requires Inv(fs) && Live(fs, f) && HasTable(fs, f)
    ensures done <= |buf|
    ensures Changed(fs, WriteFile(fs, f, pos, buf).fs, f, Home(pos, fs.blockSize), buf[..done])
  {
    hide Inv, WriteFile, Changed, Home, View, GapZero, Overwrite;
    WriteMeetsContract(fs, f, pos, buf);
    done :| done <= |buf| && Changed(fs, WriteFile(fs, f, pos, buf).fs, f, Home(pos, fs.blockSize), buf[..done]);
  }

  lemma {:induction false} CreateKeepsInv(fs: Fs, name: seq<byte>)
    requires Inv(fs) && NoNul(name)
    ensures fs.inodes[ROOT].block < |fs.data|
    ensures Inv(Create(fs, name).0) && SameSizes(fs, Create(fs, name).0)
  {
    CreateMeaning(fs, name);
    RootBlockMeaning(fs);
    var fs1 := EnsureRootBlock(fs).0;
    hide Create, EnsureRootBlock;
    if HasSpace(fs1) {
      RefusedMeaning(fs1);
      if |name| < NAME_LIMIT && Last(fs) - 1 < MaxEntries(fs.blockSize) && name !in Dir(fs) {
        CreatedMeaning(fs1, name);
      }
    }
    hide Inv, Dir, PutEntry;
  }

  /** The invariant holds after every call, whatever it replies. */
  lemma {:induction false} CallKeepsInv(fs: Fs, c: Call)
    requires Inv(fs) && Sensible(c)
    ensures Inv(Do(fs, c).0) && SameSizes(fs, Do(fs, c).0)
  {
    hide Inv, Create, ReadFile, WriteFile, FileStep, Wrote, Resolve, Dir;
    match c
    case CallCreate(name) => CreateKeepsInv(fs, name);
    case CallLookup(name) =>
    case CallRead(name, pos, count) =>
      var f := Resolve(fs, name);
      if f.Ok? {
        ReadMeaning(fs, f.value, pos, count);
      }
    case CallWrite(name, pos, buf) =>
      var f := Resolve(fs, name);
      if f.Ok? {
        var done := WriteChanges(fs, f.value, pos, buf);
      }
  }

  // ---------------------------------------------------------------- every reachable state

  ghost predicate AllSensible(calls: seq<Call>) {
    forall i :: 0 <= i < |calls| ==> Sensible(calls[i])
  }

  ghost function Next(fs: Fs, c: Call): (r: Fs)
    requires Inv(fs) && Sensible(c)
    ensures Inv(r) && SameSizes(fs, r)
  {
    CallKeepsInv(fs, c);
    Do(fs, c).0
  }

  /** The state after a sequence of calls. */
  ghost function After(fs: Fs, calls: seq<Call>): (r: Fs)
    requires Inv(fs) && AllSensible(calls)
    ensures Inv(r) && SameSizes(fs, r)
    decreases |calls|
  {
    if calls == [] then fs
    else
      var fs1 := Next(fs, calls[0]);
      After(fs1, calls[1..])
  }
}
