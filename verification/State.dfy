/** The memory of a mounted osfs as a value (lab4/osfs.h:28-70), and the invariant every
    reachable state satisfies. */
module State {
  import opened Bytes
  import opened ExtentTable
  import opened Arith

  const ROOT: nat := 1
  const NAME_LIMIT := 255
  const ENTRY_SIZE := 260

  datatype Mode = Directory | Regular | Symlink | Special

  datatype Inode = Inode(number: word, size: word, blocks: word, mode: Mode, links: word, block: word)

  datatype Fs = Fs(blockSize: nat,
                   inodeBits: seq<bool>, blockBits: seq<bool>,
                   freeInodes: word, freeBlocks: word,
                   inodes: seq<Inode>, data: seq<seq<byte>>)

  /** The sizes fixed at mount. */
  predicate Geometry(fs: Fs) {
    && 8 <= fs.blockSize < U32
    && 2 <= |fs.inodeBits| < 0x8000_0000
    && |fs.inodes| == |fs.inodeBits|
    && 1 <= |fs.blockBits| < 0xFFFF_FFFF
    && |fs.data| == |fs.blockBits|
    && (forall b :: 0 <= b < |fs.data| ==> |fs.data[b]| == fs.blockSize)
  }

  /** The whole data area can be addressed with 32 bits. */
  ghost predicate Addressable(fs: Fs) { |fs.blockBits| * fs.blockSize < U32 }

  /** The number of allocated blocks, and the highest allocated inode, by the free counters. */
  function Used(fs: Fs): int { |fs.blockBits| - fs.freeBlocks }
  function Last(fs: Fs): int { |fs.inodeBits| - fs.freeInodes }

  /** A regular file that is in use. */
  predicate Live(fs: Fs, f: nat) { ROOT < f <= Last(fs) }

  /** `f` is an inode slot whose block pointer points into the data area. */
  predicate HasTable(fs: Fs, f: nat) {
    Geometry(fs) && f < |fs.inodes| && fs.inodes[f].block < |fs.data|
  }

  function TableOf(fs: Fs, f: nat): (t: Table)
    requires HasTable(fs, f)
    ensures |t| == fs.blockSize
  {
    fs.data[fs.inodes[f].block]
  }

  /** The data blocks of a file, in file order. */
  function Phys(fs: Fs, f: nat): seq<word>
    requires HasTable(fs, f)
  {
    BlocksOf(TableOf(fs, f))
  }

  // ---------------------------------------------------------------- invariant

  /** First fit has never left a gap: set bits form a prefix whose length the counter gives.
      Inode 0 is never handed out, and the counter of free inodes counts it as free. */
  ghost predicate Bitmaps(fs: Fs) {
    && 0 <= Used(fs)
    && (forall b :: 0 <= b < |fs.blockBits| ==> (fs.blockBits[b] <==> b < Used(fs)))
    && ROOT <= Last(fs) < |fs.inodeBits|
    && (forall i :: 0 <= i < |fs.inodeBits| ==> (fs.inodeBits[i] <==> ROOT <= i <= Last(fs)))
  }

  ghost predicate RootOk(fs: Fs)
    requires Geometry(fs)
  {
    var root := fs.inodes[ROOT];
    && root.number == ROOT && root.mode == Directory
    && root.block == 0
    && (if Used(fs) == 0 then root.blocks == 0 && Last(fs) == ROOT else root.blocks == 1)
  }

  /** An inode record of a regular file with table block `t`, when `used` blocks are allocated. */
  ghost predicate RecordOk(i: Inode, t: Table, used: int) {
    && i.mode == Regular && i.links == 1
    && 1 <= i.block < used
    && TableOk(t, i.block, used)
    && i.blocks == 1 + |BlocksOf(t)|
    && (!Formatted(t) ==> i.size == 0)
  }

  ghost predicate FileOk(fs: Fs, f: nat)
    requires Geometry(fs)
  {
    HasTable(fs, f) && fs.inodes[f].number == f && RecordOk(fs.inodes[f], TableOf(fs, f), Used(fs))
  }

  ghost predicate Files(fs: Fs)
    requires Geometry(fs)
  {
    forall f :: Live(fs, f) ==> FileOk(fs, f)
  }

  /** Inode `i` holds block `b`: the root its entry block, a file its table and its data. */
  ghost predicate Owns(fs: Fs, i: nat, b: nat)
    requires Geometry(fs)
  {
    if i == ROOT then
      fs.inodes[ROOT].blocks == 1 && b == 0
    else
      Live(fs, i) && HasTable(fs, i) && (b == fs.inodes[i].block || b in Phys(fs, i))
  }

  ghost predicate Disjoint(fs: Fs)
    requires Geometry(fs)
  {
    forall i, j, b :: Owns(fs, i, b) && Owns(fs, j, b) ==> i == j
  }

  ghost predicate HasOwner(fs: Fs, b: nat)
    requires Geometry(fs)
  {
    exists i :: Owns(fs, i, b)
  }

  ghost predicate Covered(fs: Fs)
    requires Geometry(fs)
  {
    forall b :: 0 <= b < Used(fs) ==> HasOwner(fs, b)
  }

  /** The sum of `i_blocks` over the inodes 1..n. */
  function Held(inodes: seq<Inode>, n: nat): nat
    requires n < |inodes|
  {
    if n == 0 then 0 else Held(inodes, n - 1) + inodes[n].blocks
  }

  ghost predicate FreeBlocksZero(fs: Fs)
    requires Geometry(fs)
  {
    forall b :: 0 <= b < |fs.data| && Used(fs) <= b ==> fs.data[b] == Zeros(fs.blockSize)
  }

  // ---------------------------------------------------------------- directory block

  /** The C string at the start of `s`. */
  function CString(s: seq<byte>): seq<byte> {
    if s == [] || s[0] == 0 then [] else [s[0]] + CString(s[1..])
  }

  /** As many entries of 260 bytes as fit into a block. */
  function MaxEntries(blockSize: nat): (n: nat)
    ensures 260 * n <= blockSize < 260 * (n + 1)
  {
    blockSize / ENTRY_SIZE
  }

  function EntryName(block: seq<byte>, i: nat): seq<byte>
    requires i < MaxEntries(|block|)
  {
    CString(block[ENTRY_SIZE * i..ENTRY_SIZE * i + NAME_LIMIT])
  }

  function EntryInode(block: seq<byte>, i: nat): word
    requires i < MaxEntries(|block|)
  {
    Get32(block, ENTRY_SIZE * i + 256)
  }

  /** `n` entries with distinct names; entry `i` names inode `i + 2`. */
  ghost predicate EntriesOk(block: seq<byte>, n: nat) {
    && n <= MaxEntries(|block|)
    && (forall i :: 0 <= i < n ==> EntryInode(block, i) == i + 2)
    && (forall i :: 0 <= i < n ==> |EntryName(block, i)| < NAME_LIMIT)
    && (forall i, j :: 0 <= i < j < n ==> EntryName(block, i) != EntryName(block, j))
  }

  ghost predicate DirectoryOk(fs: Fs)
    requires Geometry(fs) && ROOT <= Last(fs)
  {
    && fs.inodes[ROOT].size == ENTRY_SIZE * (Last(fs) - 1)
    && EntriesOk(fs.data[0], Last(fs) - 1)
  }

  ghost predicate Inv(fs: Fs) {
    && Geometry(fs)
    && Bitmaps(fs)
    && RootOk(fs)
    && Files(fs)
    && Disjoint(fs)
    && Covered(fs)
    && Held(fs.inodes, Last(fs)) == Used(fs)
    && FreeBlocksZero(fs)
    && DirectoryOk(fs)
  }

  // ---------------------------------------------------------------- file contents

  /** The byte stored at position `q` of file `f`; beyond the file's blocks it counts as 0. */
  function ByteAt(fs: Fs, f: nat, q: nat): byte
    requires HasTable(fs, f)
  {
    var p := Phys(fs, f);
    var l := BlockOf(q, fs.blockSize);
    if l < |p| && p[l] < |fs.data| then fs.data[p[l]][OffsetOf(q, fs.blockSize)] else 0
  }

  /** The contents of a file: its first `i_size` bytes. */
  function View(fs: Fs, f: nat): (v: seq<byte>)
    requires HasTable(fs, f)
    ensures |v| == fs.inodes[f].size
  {
    seq(fs.inodes[f].size, q requires 0 <= q < fs.inodes[f].size => ByteAt(fs, f, q))
  }

  /** Between two states file `f` is the same: its record, its table and all its bytes. */
  ghost predicate SameFile(fs: Fs, fs1: Fs, f: nat) {
    && HasTable(fs, f) && HasTable(fs1, f) && fs1.blockSize == fs.blockSize
    && fs1.inodes[f] == fs.inodes[f]
    && TableOf(fs1, f) == TableOf(fs, f) && Phys(fs1, f) == Phys(fs, f) && View(fs1, f) == View(fs, f)
    && forall q :: ByteAt(fs1, f, q) == ByteAt(fs, f, q)
  }

  /** Where the table and the blocks it lists are the same, so is every byte. */
  lemma {:induction false} SameBytes(fs: Fs, fs1: Fs, f: nat)
    requires HasTable(fs, f) && HasTable(fs1, f) && TableOf(fs1, f) == TableOf(fs, f)
    requires fs1.blockSize == fs.blockSize && |fs1.data| == |fs.data|
    requires fs1.inodes[f].size == fs.inodes[f].size
    requires forall b :: b in Phys(fs, f) ==> b < |fs.data| && fs1.data[b] == fs.data[b]
    ensures Phys(fs1, f) == Phys(fs, f) && View(fs1, f) == View(fs, f)
    ensures forall q :: ByteAt(fs1, f, q) == ByteAt(fs, f, q)
  {
    hide Geometry, BlocksOf, BlockOf, OffsetOf;
    assert forall q :: ByteAt(fs1, f, q) == ByteAt(fs, f, q);
    hide ByteAt;
  }

  lemma {:induction false} PhysAscending(fs: Fs, f: nat)
    requires Geometry(fs) && FileOk(fs, f)
    ensures Used(fs) <= |fs.data|
    ensures Ascending(Phys(fs, f), fs.inodes[f].block + 1, Used(fs))
  {
    TableAscending(TableOf(fs, f), fs.inodes[f].block, Used(fs));
  }

  lemma {:induction false} SameBlocks(fs: Fs, fs1: Fs, f: nat)
    requires Geometry(fs) && FileOk(fs, f) && HasTable(fs1, f)
    requires fs1.blockSize == fs.blockSize && |fs1.data| == |fs.data|
    requires fs1.inodes[f] == fs.inodes[f] && TableOf(fs1, f) == TableOf(fs, f)
    requires forall b :: 1 <= b < |fs.data| ==> fs1.data[b] == fs.data[b]
    ensures SameFile(fs, fs1, f)
  {
    PhysAscending(fs, f);
    hide BlocksOf, ByteAt, RecordOk;
    SameBytes(fs, fs1, f);
  }
}
