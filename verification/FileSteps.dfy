/** What one file operation may change, and that any such change keeps the invariant.
    Every primitive of lab4/file.c is shown to be a `FileStep`. */
module FileSteps {
  import opened Bytes
  import opened ExtentTable
  import opened Arith
  import opened State

  /** The block numbers lo, lo + 1, ..., hi - 1. */
  function Range(lo: nat, hi: nat): (r: seq<word>)
    requires lo <= hi < U32
    ensures |r| == hi - lo && forall i :: 0 <= i < hi - lo ==> r[i] == lo + i
  {
    seq<word>(hi - lo, i requires 0 <= i < hi - lo => lo + i)
  }

  lemma {:induction false} RangeMember(lo: nat, hi: nat, b: nat)
    requires lo <= hi < U32
    ensures b in Range(lo, hi) <==> lo <= b < hi
  {
    if lo <= b < hi {
      assert Range(lo, hi)[b - lo] == b;
    }
  }

  ghost predicate SameShape(fs: Fs, fs': Fs) {
    && fs'.blockSize == fs.blockSize
    && |fs'.blockBits| == |fs.blockBits|
    && |fs'.data| == |fs.data|
    && |fs'.inodes| == |fs.inodes|
    && fs'.inodeBits == fs.inodeBits
    && fs'.freeInodes == fs.freeInodes
  }

  /** From `fs` to `fs'` only file `f` changes: its inode, and blocks it owns afterwards.
      Its new blocks are exactly the newly allocated ones, in order, at the end. */
  ghost predicate FileStep(fs: Fs, fs': Fs, f: nat)
    requires HasTable(fs, f) && Used(fs) >= 0
  {
    && SameShape(fs, fs') && Geometry(fs') && Bitmaps(fs')
    && Used(fs) <= Used(fs')
    && (forall i :: 0 <= i < |fs.inodes| && i != f ==> fs'.inodes[i] == fs.inodes[i])
    && FileOk(fs', f)
    && fs'.inodes[f].block == fs.inodes[f].block
    && Phys(fs', f) == Phys(fs, f) + Range(Used(fs), Used(fs'))
    && (forall b :: 0 <= b < |fs.data| && !Owns(fs', f, b) ==> fs'.data[b] == fs.data[b])
  }

  lemma {:induction false} HeldAtLeast(a: seq<Inode>, n: nat, f: nat)
    requires 1 <= f <= n < |a|
    ensures a[f].blocks <= Held(a, n)
  {
    if f < n {
      HeldAtLeast(a, n - 1, f);
    }
  }

  lemma {:induction false} LiveHasTable(fs: Fs, f: nat)
    requires Inv(fs) && Live(fs, f)
    ensures HasTable(fs, f) && FileOk(fs, f) && Bitmaps(fs)
    ensures fs.inodes[f].blocks <= Used(fs)
  {
    HeldAtLeast(fs.inodes, Last(fs), f);
  }

  /** The blocks of `f` after a step are its old blocks and the newly allocated ones. */
  lemma {:induction false} OwnBlocks(fs: Fs, fs': Fs, f: nat, b: nat)
    requires Inv(fs) && Live(fs, f) && HasTable(fs, f) && FileStep(fs, fs', f)
    ensures Owns(fs', f, b) <==> Owns(fs, f, b) || Used(fs) <= b < Used(fs')
  {
    assert Used(fs) >= 0;
    hide Inv, FileOk, Bitmaps, Phys;
    RangeMember(Used(fs), Used(fs'), b);
    assert b in Phys(fs', f) <==> b in Phys(fs, f) || b in Range(Used(fs), Used(fs'));
  }

  /** Blocks of other inodes are below the allocation mark and not touched by the step. */
  lemma {:induction false} OtherBlocks(fs: Fs, fs': Fs, f: nat, j: nat, b: nat)
    requires Inv(fs) && Live(fs, f) && HasTable(fs, f) && FileStep(fs, fs', f)
    requires j != f && Owns(fs, j, b)
    ensures b < Used(fs) && b < |fs.data| && fs'.data[b] == fs.data[b]
  {
    OwnBlocks(fs, fs', f, b);
    assert b < Used(fs) by {
      if j == ROOT {
        assert RootOk(fs);
      } else {
        PhysAscending(fs, j);
      }
    }
    assert !Owns(fs, f, b);
  }

  /** A record that is in order stays so when more blocks are in use. */
  lemma {:induction false} StillOk(fs: Fs, fs': Fs, j: nat)
    requires Geometry(fs) && Geometry(fs') && FileOk(fs, j) && HasTable(fs', j) && Used(fs) <= Used(fs')
    requires fs'.inodes[j] == fs.inodes[j] && TableOf(fs', j) == TableOf(fs, j)
    ensures FileOk(fs', j)
  {
    hide Geometry, BlocksOf, Formatted, Extents;
  }

  /** Isolation: every other file keeps its table, its block list and all its bytes. */
  lemma {:induction false} OtherFiles(fs: Fs, fs': Fs, f: nat, j: nat)
    requires Inv(fs) && Live(fs, f) && HasTable(fs, f) && FileStep(fs, fs', f)
    requires j != f && Live(fs, j) && HasTable(fs, j)
    ensures HasTable(fs', j) && fs'.inodes[j] == fs.inodes[j]
    ensures TableOf(fs', j) == TableOf(fs, j) && Phys(fs', j) == Phys(fs, j)
    ensures FileOk(fs', j)
    ensures forall q :: ByteAt(fs', j, q) == ByteAt(fs, j, q)
    ensures View(fs', j) == View(fs, j)
  {
    LiveHasTable(fs, j);
    OtherBlocks(fs, fs', f, j, fs.inodes[j].block);
    assert Used(fs) <= Used(fs') && SameShape(fs, fs') && Geometry(fs') && fs'.inodes[j] == fs.inodes[j];
    forall b | b in Phys(fs, j)
      ensures b < |fs.data| && fs'.data[b] == fs.data[b]
    {
      OtherBlocks(fs, fs', f, j, b);
    }
    hide Inv, FileStep, Geometry, BlocksOf, ByteAt, TableOk, Bitmaps;
    SameBytes(fs, fs', j);
    StillOk(fs, fs', j);
  }

  lemma {:induction false} HeldUpdate(a: seq<Inode>, a': seq<Inode>, n: nat, f: nat)
    requires |a| == |a'| && n < |a|
    requires forall i :: 0 <= i < |a| && i != f ==> a'[i] == a[i]
    ensures Held(a', n) == Held(a, n) + if 1 <= f <= n then a'[f].blocks - a[f].blocks else 0
  {
    if n > 0 {
      HeldUpdate(a, a', n - 1, f);
    }
  }

  lemma {:induction false} StepFiles(fs: Fs, fs': Fs, f: nat)
    requires Inv(fs) && Live(fs, f) && HasTable(fs, f) && FileStep(fs, fs', f)
    ensures Files(fs')
  {
    forall j | Live(fs', j)
      ensures FileOk(fs', j)
    {
      if j != f {
        assert Live(fs, j) && FileOk(fs, j);
        OtherFiles(fs, fs', f, j);
      }
    }
  }

  /** Who owns what after a step: as before, plus the new blocks for `f`. */
  lemma {:induction false} StepOwners(fs: Fs, fs': Fs, f: nat, j: nat, b: nat)
    requires Inv(fs) && Live(fs, f) && HasTable(fs, f) && FileStep(fs, fs', f)
    ensures Owns(fs', j, b) <==> Owns(fs, j, b) || (j == f && Used(fs) <= b < Used(fs'))
  {
    if j == f {
      OwnBlocks(fs, fs', f, b);
    } else if j != ROOT && Live(fs, j) {
      assert FileOk(fs, j);
      OtherFiles(fs, fs', f, j);
    }
  }

  lemma {:induction false} OwnedBelow(fs: Fs, j: nat, b: nat)
    requires Inv(fs) && Owns(fs, j, b)
    ensures b < Used(fs)
  {
    if j != ROOT {
      assert FileOk(fs, j);
      PhysAscending(fs, j);
    }
  }

  lemma {:induction false} StepOwnership(fs: Fs, fs': Fs, f: nat)
    requires Inv(fs) && Live(fs, f) && HasTable(fs, f) && FileStep(fs, fs', f)
    ensures Disjoint(fs') && Covered(fs')
  {
    forall i, j, b | Owns(fs', i, b) && Owns(fs', j, b)
      ensures i == j
    {
      StepOwners(fs, fs', f, i, b);
      StepOwners(fs, fs', f, j, b);
      if Owns(fs, i, b) { OwnedBelow(fs, i, b); }
      if Owns(fs, j, b) { OwnedBelow(fs, j, b); }
    }
    forall b | 0 <= b < Used(fs')
      ensures HasOwner(fs', b)
    {
      if b < Used(fs) {
        assert HasOwner(fs, b);
        var i :| Owns(fs, i, b);
        StepOwners(fs, fs', f, i, b);
      } else {
        StepOwners(fs, fs', f, f, b);
      }
    }
  }

  lemma {:induction false} StepRoot(fs: Fs, fs': Fs, f: nat)
    requires Inv(fs) && Live(fs, f) && HasTable(fs, f) && FileStep(fs, fs', f)
    ensures RootOk(fs') && DirectoryOk(fs') && fs'.data[0] == fs.data[0]
  {
    assert Used(fs) > 0 by { assert FileOk(fs, f); }
    assert Owns(fs, ROOT, 0);
    OtherBlocks(fs, fs', f, ROOT, 0);
  }

  lemma {:induction false} StepFreeBlocks(fs: Fs, fs': Fs, f: nat)
    requires Inv(fs) && Live(fs, f) && HasTable(fs, f) && FileStep(fs, fs', f)
    ensures FreeBlocksZero(fs')
  {
    forall b | 0 <= b < |fs'.data| && Used(fs') <= b
      ensures fs'.data[b] == Zeros(fs'.blockSize)
    {
      OwnBlocks(fs, fs', f, b);
      if Owns(fs, f, b) { OwnedBelow(fs, f, b); }
      assert !Owns(fs', f, b);
    }
  }

  /** The blocks a step takes are counted in the file's record. */
  lemma {:induction false} StepHeld(fs: Fs, fs': Fs, f: nat)
    requires Inv(fs) && Live(fs, f) && HasTable(fs, f) && FileStep(fs, fs', f)
    ensures ROOT <= Last(fs) == Last(fs') < |fs.inodes| == |fs'.inodes|
    ensures Held(fs'.inodes, Last(fs')) == Used(fs')
  {
    assert Bitmaps(fs) && Held(fs.inodes, Last(fs)) == Used(fs);
    LiveHasTable(fs, f);
    HeldUpdate(fs.inodes, fs'.inodes, Last(fs), f);
    hide Files, Disjoint, Covered, FreeBlocksZero, RootOk, DirectoryOk, Held, Geometry, Phys, Owns;
  }

  /** Any step on a live file keeps the invariant of the whole file system. */
  lemma {:induction false} StepKeepsInv(fs: Fs, fs': Fs, f: nat)
    requires Inv(fs) && Live(fs, f) && HasTable(fs, f) && FileStep(fs, fs', f)
    ensures Inv(fs') && Live(fs', f)
  {
    StepHeld(fs, fs', f);
    hide Files, Disjoint, Covered, FreeBlocksZero, RootOk, DirectoryOk, Held, Geometry, Phys, Owns, Bitmaps, FileOk;
    StepFiles(fs, fs', f);
    StepOwnership(fs, fs', f);
    StepRoot(fs, fs', f);
    StepFreeBlocks(fs, fs', f);
  }

  lemma {:induction false} RangeSplit(a: nat, b: nat, c: nat, s: seq<word>)
    requires a <= b <= c < U32
    ensures s + Range(a, b) + Range(b, c) == s + Range(a, c)
  {
    assert Range(a, c) == Range(a, b) + Range(b, c);
  }

  lemma {:induction false} UntouchedByBoth(fs: Fs, fs1: Fs, fs2: Fs, f: nat, b: nat)
    requires Inv(fs1) && Live(fs1, f) && HasTable(fs, f) && Used(fs) >= 0
    requires FileStep(fs, fs1, f) && HasTable(fs1, f) && FileStep(fs1, fs2, f)
    requires b < |fs.data| && !Owns(fs2, f, b)
    ensures fs2.data[b] == fs.data[b]
  {
    OwnBlocks(fs1, fs2, f, b);
    hide Inv, FileOk, Phys, Owns, Geometry, Bitmaps;
  }

  lemma {:induction false} StepTransitive(fs: Fs, fs1: Fs, fs2: Fs, f: nat)
    requires Inv(fs) && Live(fs, f) && HasTable(fs, f)
    requires FileStep(fs, fs1, f) && HasTable(fs1, f) && FileStep(fs1, fs2, f)
    ensures FileStep(fs, fs2, f)
  {
    StepKeepsInv(fs, fs1, f);
    LiveHasTable(fs, f);
    hide Inv, FileOk, Phys, Owns, Geometry, Bitmaps, Range;
    RangeSplit(Used(fs), Used(fs1), Used(fs2), Phys(fs, f));
    forall b | 0 <= b < |fs.data| && !Owns(fs2, f, b)
      ensures fs2.data[b] == fs.data[b]
    {
      UntouchedByBoth(fs, fs1, fs2, f, b);
    }
  }
}
