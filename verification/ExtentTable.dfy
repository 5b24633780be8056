/** The extent table of a file (lab4/osfs.h:88-102, lab4/file.c:6-123): one block holding a
    magic word, a count, and `count` pairs (start, len). */
module ExtentTable {
  import opened Bytes

  const EXTENT_MAGIC: word := 0x4F53_4558

  datatype Extent = Extent(start: word, len: word)

  type Table = b: seq<byte> | 8 <= |b| < U32 witness Zeros(8)

  /** As many pairs of words as fit behind the two words of the header. */
  function MaxExtents(blockSize: nat): (n: nat)
    requires blockSize >= 8
    ensures 8 + 8 * n <= blockSize < 16 + 8 * n
  {
    (blockSize - 8) / 8
  }

  function Magic(t: Table): word { Get32(t, 0) }

  function Count(t: Table): word { Get32(t, 4) }

  /** The test that lab4/file.c:147-148 makes before it trusts a table. */
  predicate Formatted(t: Table) {
    Magic(t) == EXTENT_MAGIC && Count(t) <= MaxExtents(|t|)
  }

  function ExtentAt(t: Table, i: nat): Extent
    requires i < MaxExtents(|t|)
  {
    Extent(Get32(t, 8 + 8 * i), Get32(t, 12 + 8 * i))
  }

  function Extents(t: Table): (es: seq<Extent>)
    requires Count(t) <= MaxExtents(|t|)
    ensures |es| == Count(t)
  {
    seq(Count(t), i requires 0 <= i < Count(t) => ExtentAt(t, i))
  }

  /** The blocks of one extent, in order; addresses are `uint32_t` and wrap. */
  function Run(e: Extent): (r: seq<word>)
    ensures |r| == e.len && forall i :: 0 <= i < e.len ==> r[i] == Wrap(e.start + i)
  {
    seq<word>(e.len, i => Wrap(e.start + i))
  }

  /** The block list a table stands for: logical block `l` is stored in block `Flatten(es)[l]`. */
  function Flatten(es: seq<Extent>): seq<word> {
    if es == [] then [] else Flatten(es[..|es| - 1]) + Run(es[|es| - 1])
  }

  /** The empty table that lab4/file.c:22-29 writes. */
  function EmptyTable(blockSize: nat): (t: Table)
    requires 8 <= blockSize < U32
    ensures |t| == blockSize
  {
    Put32(Zeros(blockSize), 0, EXTENT_MAGIC)
  }

  lemma {:induction false} EmptyTableIsEmpty(blockSize: nat)
    requires 8 <= blockSize < U32
    ensures Formatted(EmptyTable(blockSize)) && Extents(EmptyTable(blockSize)) == []
    ensures Magic(EmptyTable(blockSize)) == 0x4F53_4558
  {
  }

  /** Where the words of a table are. */
  lemma {:induction false} TableLayout(t: Table)
    ensures Magic(t) == Get32(t, 0) && Count(t) == Get32(t, 4)
    ensures Formatted(t) <==> Get32(t, 0) == 0x4F53_4558 && 8 + 8 * Get32(t, 4) <= |t|
    ensures Formatted(t) ==> |Extents(t)| == Get32(t, 4)
    ensures Formatted(t) ==>
              forall i :: 0 <= i < |Extents(t)| ==> Extents(t)[i] == Extent(Get32(t, 8 + 8 * i), Get32(t, 12 + 8 * i))
  {
    hide Get32;
  }

  /** A block that was never written carries no table magic. */
  lemma {:induction false} ZeroBlockIsUnformatted(t: Table)
    requires t == Zeros(|t|)
    ensures !Formatted(t) && Magic(t) != EXTENT_MAGIC && Count(t) == 0
  {
  }

  lemma {:induction false} FlattenStep(es: seq<Extent>, i: nat)
    requires i < |es|
    ensures Flatten(es[..i + 1]) == Flatten(es[..i]) + Run(es[i])
  {
    assert es[..i + 1][..i] == es[..i];
  }

  lemma {:induction false} FlattenPrefix(es: seq<Extent>, n: nat)
    requires n <= |es|
    ensures Flatten(es[..n]) <= Flatten(es)
  {
    if n < |es| {
      var front := es[..|es| - 1];
      FlattenPrefix(front, n);
      assert front[..n] == es[..n];
    } else {
      assert es[..n] == es;
    }
  }

  // ---------------------------------------------------------------- reading a table

  /** lab4/file.c:31-47. Any block content is allowed; the sum is a `uint32_t`. */
  method TotalBlocks(t: Table) returns (total: word)
    ensures !Formatted(t) ==> total == 0
    ensures Formatted(t) ==> total == Wrap(|Flatten(Extents(t))|)
  {
    total := 0;
    if Magic(t) != EXTENT_MAGIC {
      return;
    }
    if Count(t) > MaxExtents(|t|) {
      return;
    }
    hide Flatten, Wrap;
    ghost var es := Extents(t);
    assert |Flatten(es[..0])| == 0 && Wrap(0) == 0;
    var i := 0;
    while i < Count(t)
      invariant 0 <= i <= Count(t)
      invariant total == Wrap(|Flatten(es[..i])|)
    {
      FlattenStep(es, i);
      WrapSum(|Flatten(es[..i])|, es[i].len);
      total := Wrap(total + ExtentAt(t, i).len);
      i := i + 1;
    }
    assert es[..i] == es;
  }

  /** lab4/file.c:49-81. Lookup of `l` is indexing the block list at `l`, and it succeeds
      exactly when `l` is below the length of the list. */
  method LookupBlock(t: Table, l: word) returns (r: Result<word>)
    ensures Magic(t) != EXTENT_MAGIC ==> r == Err(ENOENT)
    ensures Magic(t) == EXTENT_MAGIC && Count(t) > MaxExtents(|t|) ==> r == Err(EIO)
    ensures Formatted(t) && l < |Flatten(Extents(t))| ==> r == Ok(Flatten(Extents(t))[l])
    ensures Formatted(t) && l >= |Flatten(Extents(t))| ==> r == Err(ENOENT)
  {
    if Magic(t) != EXTENT_MAGIC {
      return Err(ENOENT);
    }
    if Count(t) > MaxExtents(|t|) {
      return Err(EIO);
    }
    ghost var es := Extents(t);
    var idx: word := l;
    var i := 0;
    while i < Count(t)
      invariant 0 <= i <= Count(t)
      invariant idx == l - |Flatten(es[..i])|
    {
      var e := ExtentAt(t, i);
      FlattenStep(es, i);
      FlattenPrefix(es, i + 1);
      if idx < e.len {
        return Ok(Wrap(e.start + idx));
      }
      idx := idx - e.len;
      i := i + 1;
    }
    assert es[..i] == es;
    return Err(ENOENT);
  }

  // ---------------------------------------------------------------- appending a block

  predicate Merges(es: seq<Extent>, b: int) {
    es != [] && Wrap(es[|es| - 1].start + es[|es| - 1].len) == b
  }

  /** Appending block `b`: grow the last extent if `b` follows it, else start a new one. */
  function Appended(es: seq<Extent>, b: word): (r: seq<Extent>)
  {
    if Merges(es, b) then
      var last := es[|es| - 1];
      es[..|es| - 1] + [Extent(last.start, Wrap(last.len + 1))]
    else
      es + [Extent(b, 1)]
  }

  /** The same on the bytes of the table (lab4/file.c:105-116). */
  function AppendedTable(t: Table, b: word): (r: Table)
    requires Count(t) <= MaxExtents(|t|)
    requires Merges(Extents(t), b) || Count(t) < MaxExtents(|t|)
    ensures |r| == |t|
  {
    var c := Count(t);
    if Merges(Extents(t), b) then
      Put32(t, 12 + 8 * (c - 1), Wrap(ExtentAt(t, c - 1).len + 1))
    else
      Put32(Put32(Put32(t, 8 + 8 * c, b), 12 + 8 * c, 1), 4, c + 1)
  }

  lemma {:induction false} StoredLength(t: Table, i: nat, v: word)
    requires Formatted(t) && i < Count(t)
    ensures var r := Put32(t, 12 + 8 * i, v);
            Formatted(r) && Extents(r) == Extents(t)[i := Extent(ExtentAt(t, i).start, v)]
  {
    hide Put32, Get32;
    var r := Put32(t, 12 + 8 * i, v);
    assert Get32(r, 0) == Get32(t, 0) && Get32(r, 4) == Get32(t, 4);
    forall j | 0 <= j < Count(t)
      ensures Extents(r)[j] == Extents(t)[i := Extent(ExtentAt(t, i).start, v)][j]
    {
      assert Get32(r, 8 + 8 * j) == Get32(t, 8 + 8 * j);
      assert j != i ==> Get32(r, 12 + 8 * j) == Get32(t, 12 + 8 * j);
    }
  }

  lemma {:induction false} StoredExtent(t: Table, e: Extent)
    requires Formatted(t) && Count(t) < MaxExtents(|t|)
    ensures var c := Count(t);
            var r := Put32(Put32(Put32(t, 8 + 8 * c, e.start), 12 + 8 * c, e.len), 4, c + 1);
            Formatted(r) && Extents(r) == Extents(t) + [e]
  {
    hide Put32, Get32;
    var c := Count(t);
    var t1 := Put32(t, 8 + 8 * c, e.start);
    var t2 := Put32(t1, 12 + 8 * c, e.len);
    var r := Put32(t2, 4, c + 1);
    assert Get32(r, 0) == Get32(t2, 0) == Get32(t1, 0) == Get32(t, 0);
    forall j | 0 <= j < c + 1
      ensures Extents(r)[j] == (Extents(t) + [e])[j]
    {
      var o := 8 + 8 * j;
      assert Get32(r, o) == Get32(t2, o) == Get32(t1, o);
      assert Get32(r, o + 4) == Get32(t2, o + 4);
      if j < c {
        assert Get32(t1, o) == Get32(t, o);
        assert Get32(t2, o + 4) == Get32(t1, o + 4) == Get32(t, o + 4);
      }
    }
  }

  lemma {:induction false} AppendedTableMeaning(t: Table, b: word)
    requires Formatted(t)
    requires Merges(Extents(t), b) || Count(t) < MaxExtents(|t|)
    ensures Formatted(AppendedTable(t, b))
    ensures Extents(AppendedTable(t, b)) == Appended(Extents(t), b)
  {
    if Merges(Extents(t), b) {
      hide Put32, Get32;
      var i := Count(t) - 1;
      var es := Extents(t);
      StoredLength(t, i, Wrap(ExtentAt(t, i).len + 1));
      assert es[i := Extent(es[i].start, Wrap(es[i].len + 1))] == Appended(es, b);
    } else {
      hide Put32, Get32;
      StoredExtent(t, Extent(b, 1));
    }
  }

  lemma {:induction false} FlattenSnoc(es: seq<Extent>, e: Extent)
    ensures Flatten(es + [e]) == Flatten(es) + Run(e)
  {
    assert (es + [e])[..|es|] == es;
  }

  lemma {:induction false} FlattenGrown(front: seq<Extent>, e: Extent)
    requires e.len + 1 < U32
    ensures Flatten(front + [Extent(e.start, e.len + 1)]) == Flatten(front + [e]) + [Wrap(e.start + e.len)]
  {
    FlattenSnoc(front, e);
    FlattenSnoc(front, Extent(e.start, e.len + 1));
    assert Run(Extent(e.start, e.len + 1)) == Run(e) + [Wrap(e.start + e.len)];
    assert Flatten(front) + (Run(e) + [Wrap(e.start + e.len)]) == Flatten(front) + Run(e) + [Wrap(e.start + e.len)];
  }

  /** Appending to the table appends to the block list. */
  lemma {:induction false} FlattenAppended(es: seq<Extent>, b: word)
    requires Merges(es, b) ==> es[|es| - 1].len + 1 < U32
    ensures Flatten(Appended(es, b)) == Flatten(es) + [b]
  {
    if Merges(es, b) {
      assert es == es[..|es| - 1] + [es[|es| - 1]];
      FlattenGrown(es[..|es| - 1], es[|es| - 1]);
    } else {
      FlattenSnoc(es, Extent(b, 1));
      assert Run(Extent(b, 1)) == [b];
    }
  }

  // ---------------------------------------------------------------- canonical form

  /** Run-length form over blocks in [lo, hi): no empty extent, ascending, and a gap between
      neighbours, so that no two of them could be merged. */
  ghost predicate Canonical(es: seq<Extent>, lo: nat, hi: nat) {
    && (forall i :: 0 <= i < |es| ==> es[i].len >= 1 && lo <= es[i].start && es[i].start + es[i].len <= hi)
    && (forall i, j :: 0 <= i < j < |es| ==> es[i].start + es[i].len < es[j].start)
  }

  ghost predicate Ascending(s: seq<word>, lo: nat, hi: nat) {
    && (forall i :: 0 <= i < |s| ==> lo <= s[i] < hi)
    && (forall i, j :: 0 <= i < j < |s| ==> s[i] < s[j])
  }

  lemma {:induction false} CanonicalFlatten(es: seq<Extent>, lo: nat, hi: nat)
    requires Canonical(es, lo, hi) && hi <= U32
    ensures Ascending(Flatten(es), lo, hi)
    ensures |es| <= |Flatten(es)|
    ensures es != [] ==>
              Flatten(es) != [] && Flatten(es)[|Flatten(es)| - 1] == es[|es| - 1].start + es[|es| - 1].len - 1
  {
    if es != [] {
      var last := es[|es| - 1];
      var front := es[..|es| - 1];
      CanonicalFlatten(front, lo, last.start);
      var s := Flatten(front);
      assert forall i :: 0 <= i < last.len ==> Run(last)[i] == last.start + i;
      assert forall i :: 0 <= i < |Flatten(es)| ==> Flatten(es)[i] == if i < |s| then s[i] else last.start + (i - |s|);
    }
  }

  lemma {:induction false} CanonicalFront(front: seq<Extent>, last: Extent, lo: nat, hi: nat)
    requires Canonical(front + [last], lo, hi) && hi <= U32
    ensures Canonical(front, lo, hi) && last.len >= 1 && lo <= last.start && last.start + last.len <= hi
    ensures front != [] ==> front[|front| - 1].start + front[|front| - 1].len < last.start
    ensures last.len > 1 ==> Canonical(front + [Extent(last.start, last.len - 1)], lo, hi)
  {
    var es := front + [last];
    assert es[|front|] == last;
    assert forall i :: 0 <= i < |front| ==> es[i] == front[i];
  }

  lemma {:induction false} CanonicalSnoc(front: seq<Extent>, e: Extent, lo: nat, mid: nat, hi: nat)
    requires Canonical(front, lo, mid) && mid <= hi
    requires e.len >= 1 && lo <= e.start && e.start + e.len <= hi
    requires front != [] ==> front[|front| - 1].start + front[|front| - 1].len < e.start
    ensures Canonical(front + [e], lo, hi)
  {
    var es := front + [e];
    forall i, j | 0 <= i < j < |es|
      ensures es[i].start + es[i].len < es[j].start
    {
      assert es[i] == front[i];
    }
  }

  lemma {:induction false} CanonicalGrown(front: seq<Extent>, last: Extent, lo: nat, b: word)
    requires Canonical(front + [last], lo, b) && last.start + last.len == b && b + 1 < U32
    ensures Canonical(front + [Extent(last.start, last.len + 1)], lo, b + 1)
  {
    CanonicalFront(front, last, lo, b);
    CanonicalSnoc(front, Extent(last.start, last.len + 1), lo, b, b + 1);
  }

  lemma {:induction false} CanonicalLast(es: seq<Extent>, lo: nat, hi: nat)
    requires Canonical(es, lo, hi) && hi < U32 && es != []
    ensures es[|es| - 1].start + es[|es| - 1].len <= hi
    ensures Merges(es, es[|es| - 1].start + es[|es| - 1].len)
  {
  }

  /** Appending a block at or above every block so far keeps the table canonical. */
  lemma {:induction false} CanonicalAppended(es: seq<Extent>, lo: nat, b: word)
    requires Canonical(es, lo, b) && lo <= b && b + 1 < U32
    ensures Canonical(Appended(es, b), lo, b + 1) && Merges(Appended(es, b), b + 1)
  {
    hide Canonical;
    if es != [] {
      CanonicalLast(es, lo, b);
    }
    if Merges(es, b) {
      var front, last := es[..|es| - 1], es[|es| - 1];
      assert es == front + [last];
      CanonicalGrown(front, last, lo, b);
    } else {
      CanonicalSnoc(es, Extent(b, 1), lo, b, b + 1);
    }
  }

  /** Run-length encoding: the table built by appending the blocks of a list one at a time. */
  function Encode(s: seq<word>): seq<Extent> {
    if s == [] then [] else Appended(Encode(s[..|s| - 1]), s[|s| - 1])
  }

  lemma {:induction false} EncodeSnoc(s: seq<word>, b: word)
    ensures Encode(s + [b]) == Appended(Encode(s), b)
  {
    assert (s + [b])[..|s|] == s;
  }

  /** A block beyond the end of the last extent starts a new one. */
  lemma {:induction false} AppendedStarts(es: seq<Extent>, b: word)
    requires es != [] ==> es[|es| - 1].start + es[|es| - 1].len < b
    ensures !Merges(es, b) && Appended(es, b) == es + [Extent(b, 1)]
  {
  }

  lemma {:induction false} AppendedGrows(front: seq<Extent>, e: Extent)
    requires e.start + e.len + 1 < U32
    ensures Merges(front + [e], e.start + e.len)
    ensures Appended(front + [e], e.start + e.len) == front + [Extent(e.start, e.len + 1)]
  {
    var es := front + [e];
    assert es[|es| - 1] == e && es[..|es| - 1] == front;
  }

  /** A last extent of one block was started by an append, a longer one was grown by it. */
  lemma {:induction false} ShortExtent(front: seq<Extent>, last: Extent)
    requires last.len == 1 && (front != [] ==> front[|front| - 1].start + front[|front| - 1].len < last.start)
    ensures !Merges(front, last.start) && Appended(front, last.start) == front + [last]
  {
    hide Appended, Merges;
    AppendedStarts(front, last.start);
    assert Extent(last.start, 1) == last;
  }

  lemma {:induction false} LongExtent(front: seq<Extent>, last: Extent)
    requires last.len > 1 && last.start + last.len < U32
    ensures var b, shorter := last.start + (last.len - 1), front + [Extent(last.start, last.len - 1)];
            Appended(shorter, b) == front + [last] && shorter[|shorter| - 1].len + 1 < U32
  {
    hide Appended, Merges;
    var e := Extent(last.start, last.len - 1);
    AppendedGrows(front, e);
    assert Extent(e.start, e.len + 1) == last;
    assert (front + [e])[|front|] == e;
  }

  /** Every non-empty canonical table is one append away from a smaller one. */
  lemma {:induction false} LastAppend(front: seq<Extent>, last: Extent, lo: nat, hi: nat)
    returns (shorter: seq<Extent>, b: word)
    requires Canonical(front + [last], lo, hi) && hi + 1 < U32
    ensures Canonical(shorter, lo, hi) && Appended(shorter, b) == front + [last]
    ensures Merges(shorter, b) ==> shorter[|shorter| - 1].len + 1 < U32
  {
    hide Canonical, Appended, Merges;
    CanonicalFront(front, last, lo, hi);
    b := last.start + (last.len - 1);
    if last.len == 1 {
      shorter := front;
      ShortExtent(front, last);
    } else {
      shorter := front + [Extent(last.start, last.len - 1)];
      LongExtent(front, last);
    }
  }

  /** A canonical table is the run-length encoding of the list it stands for, so that list
      determines the table. */
  lemma {:induction false} CanonicalIsEncoding(es: seq<Extent>, lo: nat, hi: nat)
    requires Canonical(es, lo, hi) && hi + 1 < U32
    ensures Encode(Flatten(es)) == es
    decreases |Flatten(es)|
  {
    if es != [] {
      var front, last := es[..|es| - 1], es[|es| - 1];
      assert es == front + [last];
      var shorter, b := LastAppend(front, last, lo, hi);
      hide Appended, Canonical, Merges;
      FlattenAppended(shorter, b);
      EncodeSnoc(Flatten(shorter), b);
      CanonicalIsEncoding(shorter, lo, hi);
    }
  }

  // ---------------------------------------------------------------- the table of a file

  /** The block list of a table block; a block without the magic stands for the empty list. */
  function BlocksOf(t: Table): seq<word> {
    if Formatted(t) then Flatten(Extents(t)) else []
  }

  /** A table block is either untouched or holds a canonical table over blocks in (lo, hi). */
  ghost predicate TableOk(t: Table, lo: nat, hi: nat) {
    if Formatted(t) then Canonical(Extents(t), lo + 1, hi) else t == Zeros(|t|)
  }

  /** Whether the table can take block `b`. */
  predicate HasRoom(t: Table, b: int) {
    Count(t) <= MaxExtents(|t|) && (Count(t) < MaxExtents(|t|) || Merges(Extents(t), b))
  }

  lemma {:induction false} TableAscending(t: Table, lo: nat, hi: nat)
    requires TableOk(t, lo, hi) && hi <= U32
    ensures Ascending(BlocksOf(t), lo + 1, hi)
  {
    if Formatted(t) {
      CanonicalFlatten(Extents(t), lo + 1, hi);
    }
  }

  lemma {:induction false} LastFits(es: seq<Extent>, lo: nat, hi: nat)
    requires Canonical(es, lo, hi) && hi + 1 < U32
    ensures Merges(es, hi) ==> es != [] && es[|es| - 1].len + 1 < U32
  {
  }

  /** Appending the block at the allocation mark `b` keeps the table canonical, adds `b` to the
      block list, and leaves a table that the next block `b + 1` merges into. */
  lemma {:induction false} TableAppend(t: Table, lo: nat, b: word)
    requires Formatted(t) && TableOk(t, lo, b) && HasRoom(t, b) && lo < b && b + 1 < U32
    ensures var t' := AppendedTable(t, b);
            && Formatted(t') && TableOk(t', lo, b + 1)
            && BlocksOf(t') == BlocksOf(t) + [b]
            && HasRoom(t', b + 1)
  {
    hide AppendedTable, Extents, Appended, Canonical, Flatten, Merges, Get32;
    AppendedTableMeaning(t, b);
    CanonicalAppended(Extents(t), lo + 1, b);
    LastFits(Extents(t), lo + 1, b);
    FlattenAppended(Extents(t), b);
  }
}
