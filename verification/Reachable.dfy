/** What the invariant says, spelled out for every state a run of calls can reach. */
module Reachable {
  import opened Bytes
  import opened ExtentTable
  import opened State
  import opened FileSteps
  import opened Directory
  import opened Creation
  import opened Runs

  function ClearBits(bits: seq<bool>): nat {
    if bits == [] then 0 else ClearBits(bits[..|bits| - 1]) + if bits[|bits| - 1] then 0 else 1
  }

  lemma {:induction false} ClearOutsideRange(bits: seq<bool>, lo: nat, hi: nat)
    requires lo <= hi <= |bits|
    requires forall i :: 0 <= i < |bits| ==> (bits[i] <==> lo <= i < hi)
    ensures ClearBits(bits) == |bits| - (hi - lo)
  {
    if bits != [] {
      var n := |bits| - 1;
      ClearOutsideRange(bits[..n], if lo < n then lo else n, if hi < n then hi else n);
    }
  }

  /** Set bits are a prefix (for inodes, one starting at the root) and the free counters count
      exactly the clear ones; inode 0 is counted although it is never handed out. */
  lemma {:induction false} CountersAreExact(fs: Fs)
    requires Inv(fs)
    ensures fs.freeBlocks == ClearBits(fs.blockBits) && fs.freeInodes == ClearBits(fs.inodeBits)
    ensures forall i, j :: 0 <= i <= j < |fs.blockBits| && fs.blockBits[j] ==> fs.blockBits[i]
    ensures forall i, j :: ROOT <= i <= j < |fs.inodeBits| && fs.inodeBits[j] ==> fs.inodeBits[i]
    ensures !fs.inodeBits[0] && fs.inodeBits[ROOT]
  {
    assert Bitmaps(fs);
    hide Inv;
    ClearOutsideRange(fs.blockBits, 0, Used(fs));
    ClearOutsideRange(fs.inodeBits, ROOT, Last(fs) + 1);
  }

  /** The set bits of the block bitmap are the disjoint union of the blocks the inodes own, and
      free blocks and owned blocks add up to the device. */
  lemma {:induction false} BlocksArePartitioned(fs: Fs)
    requires Inv(fs)
    ensures forall b :: 0 <= b < |fs.blockBits| ==> (fs.blockBits[b] <==> HasOwner(fs, b))
    ensures forall i, j, b :: Owns(fs, i, b) && Owns(fs, j, b) ==> i == j
    ensures fs.freeBlocks + Held(fs.inodes, Last(fs)) == |fs.blockBits|
  {
    assert Bitmaps(fs) && Covered(fs) && Disjoint(fs);
    forall b | 0 <= b < |fs.blockBits|
      ensures fs.blockBits[b] <==> HasOwner(fs, b)
    {
      if HasOwner(fs, b) {
        var i :| Owns(fs, i, b);
        OwnedBelow(fs, i, b);
      }
    }
    hide Owns, Held;
  }

  /** A file's table block and data blocks ascend, in file order, and its table is the run-length
      encoding of its block list: so `i_block` is never 0 and no two extents could be merged. */
  lemma {:induction false} FileLayout(fs: Fs, f: nat)
    requires Inv(fs) && Live(fs, f)
    ensures HasTable(fs, f) && fs.inodes[f].block >= 1 && fs.inodes[f].blocks == 1 + |Phys(fs, f)|
    ensures Ascending(Phys(fs, f), fs.inodes[f].block + 1, Used(fs))
    ensures Formatted(TableOf(fs, f)) ==> Extents(TableOf(fs, f)) == Encode(Phys(fs, f))
    ensures !Formatted(TableOf(fs, f)) ==> TableOf(fs, f) == Zeros(fs.blockSize) && fs.inodes[f].size == 0
  {
    LiveHasTable(fs, f);
    PhysAscending(fs, f);
    if Formatted(TableOf(fs, f)) {
      CanonicalIsEncoding(Extents(TableOf(fs, f)), fs.inodes[f].block + 1, Used(fs));
    }
    hide Inv, Extents, Canonical, Flatten, Encode, Ascending;
  }

  /** All of it after any calls on a fresh mount. */
  lemma {:induction false} EveryReachableState(blockSize: nat, inodeCount: nat, blockCount: nat, calls: seq<Call>,
                                               fs: Fs)
    requires MountSizes(blockSize, inodeCount, blockCount) && AllSensible(calls)
    requires fs == After(Mount(blockSize, inodeCount, blockCount), calls)
    ensures Inv(fs) && fs.blockSize == blockSize && |fs.blockBits| == blockCount && |fs.inodeBits| == inodeCount
    ensures fs.freeBlocks == ClearBits(fs.blockBits) && fs.freeInodes == ClearBits(fs.inodeBits)
    ensures fs.freeBlocks + Held(fs.inodes, Last(fs)) == blockCount
    ensures forall b :: 0 <= b < blockCount ==> (fs.blockBits[b] <==> HasOwner(fs, b))
    ensures forall b :: 0 <= b < blockCount && !fs.blockBits[b] ==> fs.data[b] == Zeros(blockSize)
    ensures forall f :: Live(fs, f) <==> Named(Dir(fs), f)
    ensures forall x, y :: x in Dir(fs) && y in Dir(fs) && Dir(fs)[x] == Dir(fs)[y] ==> x == y
  {
    assert Geometry(fs) && FreeBlocksZero(fs) && Bitmaps(fs);
    hide Inv, Mounted, Mount, Owns, Dir, Zeros;
    CountersAreExact(fs);
    BlocksArePartitioned(fs);
    DirectoryIsBijection(fs);
  }
}
