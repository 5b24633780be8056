/** What the user of one file sees over a whole run, whatever happens to the other files. */
module Contents {
  ghost predicate SoundFile(m: M.System, a: M.File) {
    a.blocks <= m.used && |a.stored| == a.blocks * m.blockSize
  }

  import opened Bytes
  import opened ExtentTable
  import opened Arith
  import opened State
  import opened FileOps
  import opened ReadWrite
  import opened ByteStore
  import opened Creation
  import opened Runs
  import opened Abstraction
  import opened Refinement
  import M = Machine

  // ---------------------------------------------------------------- files of the machine

  /** No file has more blocks than were handed out, and its bytes are those of its blocks. */
  ghost predicate Sound(m: M.System) {
    && m.blockSize >= 8 && 1 <= m.blockCount && m.used <= m.blockCount && m.blockCount * m.blockSize < U32
    && forall name :: name in m.files ==> SoundFile(m, m.files[name])
  }

  lemma {:induction false} MulMonotone(x: nat, y: nat, b: nat)
    requires x <= y
    ensures x * b <= y * b
  {
    MulNonNegative(b, y - x);
    assert y * b == x * b + b * (y - x);
  }

  /** A write of one file keeps it sound. */
  lemma {:induction false} WrittenSound(m: M.System, a: M.File, pos: nat, buf: seq<byte>)
    requires Sound(m) && SoundFile(m, a)
    ensures var a1 := M.Written(m, a, pos, buf).0;
            && a1.number == a.number && a.blocks <= a1.blocks
            && m.used + (a1.blocks - a.blocks) <= m.blockCount
            && SoundFile(m.(used := m.used + (a1.blocks - a.blocks)), a1)
  {
    hide M.CanExtend, Needed, Home, LogicalBlock;
  }

  lemma {:induction false} ActSound(m: M.System, c: Call)
    requires Sound(m)
    ensures Sound(M.Act(m, c).0)
  {
    if c.CallWrite? && c.name in m.files {
      WrittenSound(m, m.files[c.name], c.pos, c.buf);
    }
    hide M.Written, M.Answer;
    var m1 := M.Act(m, c).0;
    assert m.used <= m1.used <= m.blockCount;
    forall name | name in m1.files
      ensures SoundFile(m1, m1.files[name])
    {
      assert name in m.files ==> SoundFile(m, m.files[name]);
    }
  }

  // ---------------------------------------------------------------- one file as a byte sequence

  /** How many blocks a file of `n` bytes fills. */
  function BlocksFor(n: nat, b: nat): nat
    requires b > 0
  {
    if n == 0 then 0 else BlockOf(n - 1, b) + 1
  }

  /** The file has the blocks its contents fill, and zeros after the contents. */
  ghost predicate Tidy(m: M.System, a: M.File)
    requires m.blockSize > 0
  {
    && a.blocks == BlocksFor(a.size, m.blockSize)
    && forall q :: a.size <= q < |a.stored| ==> a.stored[q] == 0
  }

  /** What the user knows of a name: nothing stored, or a number and contents. */
  datatype Entry = Absent | Present(number: nat, contents: seq<byte>)

  /** The entry is what the machine stores under the name. */
  ghost predicate Holds(m: M.System, name: seq<byte>, e: Entry)
    requires Sound(m)
  {
    if name in m.files then
      Tidy(m, m.files[name]) && e == Present(m.files[name].number, M.Contents(m.files[name]))
    else e == Absent
  }

  /** A write that leaves nothing behind past the end of the file: it is not empty, its block
      number fits in 32 bits, and it does not stop part-way. It may be refused, or fail to get
      the block for its first byte. */
  ghost predicate Gentle(m: M.System, a: M.File, pos: nat, buf: seq<byte>)
    requires m.blockSize >= 8
  {
    && buf != [] && BlockOf(pos, m.blockSize) < U32
    && (BlockOf(pos, m.blockSize) <= a.blocks ==>
          || M.Given(m, a, pos, |buf|) == Needed(pos, |buf|, a.blocks, m.blockSize)
          || (M.Given(m, a, pos, |buf|) == 0 && BlockOf(pos, m.blockSize) == a.blocks))
  }

  /** The only condition on a run: the writes to this name are gentle. */
  ghost predicate GentleTo(m: M.System, name: seq<byte>, c: Call)
    requires m.blockSize >= 8
  {
    c.CallWrite? && c.name == name && name in m.files ==> Gentle(m, m.files[name], c.pos, c.buf)
  }

  /** Whether a write starts close enough to the contents. */
  predicate InReach(v: seq<byte>, pos: nat, b: nat)
    requires b > 0
  {
    BlockOf(pos, b) <= BlocksFor(|v|, b)
  }

  /** The entry after a call. */
  function Evolved(e: Entry, b: nat, name: seq<byte>, c: Call, r: Reply): Entry
    requires b > 0
  {
    if c.name != name then e
    else
      match c
      case CallCreate(_) => if e.Absent? && r.Number? && r.ret.Ok? then Present(r.ret.value, []) else e
      case CallWrite(_, pos, buf) =>
        if e.Present? && r.Number? && r.ret.Ok? then e.(contents := Overwrite(e.contents, pos, buf)) else e
      case _ => e
  }

  /** What a call about the name answers: everything follows from the entry, except whether there
      is room for one more file, or for a write that starts in a block the file does not have. */
  ghost predicate Answers(e: Entry, b: nat, c: Call, r: Reply)
    requires b > 0
  {
    match c
    case CallCreate(name) =>
      && r.Number? && (r.ret == Err(ENAMETOOLONG) <==> |name| >= NAME_LIMIT)
      && (r.ret.Err? ==> r.ret.error in {ENAMETOOLONG, ENOSPC, EEXIST})
      && (r.ret.Ok? ==> e.Absent?) && (r.ret == Err(EEXIST) ==> e.Present?)
    case CallLookup(_) =>
      r == Number(if e.Present? then Ok(e.number) else Err(ENOENT))
    case CallRead(_, pos, count) =>
      r == Data(if e.Present? then Ok(Part(e.contents, pos, count)) else Err(ENOENT))
    case CallWrite(_, pos, buf) =>
      if e.Absent? then r == Number(Err(ENOENT))
      else if !InReach(e.contents, pos, b) then r == Number(Err(EINVAL))
      else
        || r == Number(Ok(|buf|))
        || (r == Number(Err(ENOSPC)) && BlockOf(pos, b) == BlocksFor(|e.contents|, b))
  }

  // ---------------------------------------------------------------- one call

  lemma {:induction false} LastBlock(pos: nat, n: nat, blocks: nat, size: nat, b: nat)
    requires b > 0 && n > 0 && blocks == BlocksFor(size, b) && BlockOf(pos, b) <= blocks
    ensures blocks + Needed(pos, n, blocks, b) == BlocksFor(if pos + n > size then pos + n else size, b)
    ensures pos + n <= (blocks + Needed(pos, n, blocks, b)) * b && size <= blocks * b
  {
    var total := blocks + Needed(pos, n, blocks, b);
    AreaIff(pos + n - 1, total, b);
    if size > 0 {
      AreaIff(size - 1, blocks, b);
    }
    if pos + n > size > 0 {
      DivMonotone(size - 1, pos + n - 1, b);
    } else if pos + n <= size {
      DivMonotone(pos + n - 1, size - 1, b);
    }
    hide BlockOf;
  }

  /** A gentle write of a tidy file is a `pwrite` on its contents, or refused. */
  lemma {:induction false} GentleWrite(m: M.System, a: M.File, pos: nat, buf: seq<byte>)
    requires Sound(m) && SoundFile(m, a) && Tidy(m, a) && Gentle(m, a, pos, buf)
    ensures var (a1, r) := M.Written(m, a, pos, buf);
            && Tidy(m, a1)
            && if !InReach(M.Contents(a), pos, m.blockSize) then
                 r == Err(EINVAL) && a1 == a
               else
                 || (r == Ok(|buf|) && M.Contents(a1) == Overwrite(M.Contents(a), pos, buf))
                 || (r == Err(ENOSPC) && a1 == a && BlockOf(pos, m.blockSize) == a.blocks)
  {
    var b := m.blockSize;
    HomeBlock(pos, b);
    if BlockOf(pos, b) <= a.blocks {
      var g := Needed(pos, |buf|, a.blocks, b);
      LastBlock(pos, |buf|, a.blocks, a.size, b);
      WrittenSound(m, a, pos, buf);
      var a1 := M.Written(m, a, pos, buf).0;
      MulMonotone(a1.blocks, m.blockCount, b);
      AreaIff(pos, a.blocks, b);
      hide Needed, Home, LogicalBlock, BlockOf, M.Given;
      if M.Given(m, a, pos, |buf|) == g {
        assert a1.size == if pos + |buf| > a.size then pos + |buf| else a.size;
        assert M.Contents(a1) == Overwrite(M.Contents(a), pos, buf);
      } else {
        assert Overlay(a.stored, a.blocks * b, pos, buf) == a.stored;
      }
    }
  }

  lemma {:induction false} TidyRead(m: M.System, a: M.File, pos: nat, n: nat)
    requires Sound(m) && SoundFile(m, a) && Tidy(m, a)
    ensures M.Answer(m, a, pos, n) == Ok(Part(M.Contents(a), pos, n))
  {
    if a.size > 0 {
      AreaIff(a.size - 1, a.blocks, m.blockSize);
    }
    hide M.Contents, Part, BlockOf;
  }

  /** One call, seen by the user of `name`. */
  lemma {:induction false} CallEvolves(m: M.System, name: seq<byte>, c: Call, e: Entry)
    requires Sound(m) && Holds(m, name, e) && GentleTo(m, name, c)
    ensures var (m1, r) := M.Act(m, c);
            && Sound(m1) && m1.blockSize == m.blockSize
            && Holds(m1, name, Evolved(e, m.blockSize, name, c, r))
            && (c.name == name ==> Answers(e, m.blockSize, c, r))
  {
    ActSound(m, c);
    hide Overwrite, Part, M.Contents, BlockOf, M.CanExtend, M.Given, M.Grown, Needed;
    if c.name == name && name in m.files {
      if c.CallWrite? {
        GentleWrite(m, m.files[name], c.pos, c.buf);
      } else if c.CallRead? {
        TidyRead(m, m.files[name], c.pos, c.count);
      }
    }
    hide M.Written, M.Answer;
  }

  // ---------------------------------------------------------------- whole runs

  /** Every write of the run to the name is gentle. */
  ghost predicate GentleRun(m: M.System, name: seq<byte>, calls: seq<Call>)
    requires m.blockSize >= 8
    decreases |calls|
  {
    calls == [] || (GentleTo(m, name, calls[0]) && GentleRun(M.Act(m, calls[0]).0, name, calls[1..]))
  }

  /** The entry after a run: a fold over the calls about the name. */
  function EntryAfter(e: Entry, b: nat, name: seq<byte>, calls: seq<Call>, rs: seq<Reply>): Entry
    requires b > 0 && |rs| == |calls|
    decreases |calls|
  {
    if calls == [] then e
    else EntryAfter(Evolved(e, b, name, calls[0], rs[0]), b, name, calls[1..], rs[1..])
  }

  /** All calls about the name are answered from the entry. */
  ghost predicate AllAnswered(e: Entry, b: nat, name: seq<byte>, calls: seq<Call>, rs: seq<Reply>)
    requires b > 0 && |rs| == |calls|
    decreases |calls|
  {
    calls == [] ||
    (&& (calls[0].name == name ==> Answers(e, b, calls[0], rs[0]))
     && AllAnswered(Evolved(e, b, name, calls[0], rs[0]), b, name, calls[1..], rs[1..]))
  }

  lemma {:induction false} SoundSizes(m: M.System)
    requires Sound(m)
    ensures m.blockSize >= 8
  {
  }

  lemma {:induction false} RunEvolves(m: M.System, name: seq<byte>, calls: seq<Call>, e: Entry)
    requires Sound(m) && Holds(m, name, e) && GentleRun(m, name, calls)
    ensures var m1, rs := M.Final(m, calls), M.Outputs(m, calls);
            && Sound(m1) && Holds(m1, name, EntryAfter(e, m.blockSize, name, calls, rs))
            && AllAnswered(e, m.blockSize, name, calls, rs)
    decreases |calls|
  {
    hide Sound, Holds, GentleTo, M.Act, Evolved, Answers;
    SoundSizes(m);
    if calls != [] {
      var (m1, r) := M.Act(m, calls[0]);
      CallEvolves(m, name, calls[0], e);
      RunEvolves(m1, name, calls[1..], Evolved(e, m.blockSize, name, calls[0], r));
      assert M.Outputs(m, calls)[1..] == M.Outputs(m1, calls[1..]);
    }
  }

  /** What osfs stores under a name, for its user. */
  ghost function EntryOf(fs: Fs, name: seq<byte>): Entry
    requires Inv(fs)
  {
    if name in Dir(fs) then Present(Dir(fs)[name], View(fs, FileOf(fs, name))) else Absent
  }

  lemma {:induction false} EntryMeaning(fs: Fs, name: seq<byte>, e: Entry)
    requires Inv(fs) && Sound(Abs(fs)) && Holds(Abs(fs), name, e)
    ensures EntryOf(fs, name) == e
  {
    hide Inv, Dir, View, M.Contents, Resolve, StoredBytes, End, BlocksOf;
    if name in Dir(fs) {
      ViewIsContents(fs, FileOf(fs, name));
    }
  }

  /** Every run after mounting, for every name: if the writes to this one name are gentle, then its
      contents are those its own successful writes make, and all calls about it are answered
      from them. So a gap reads as zeros as long as no write to this name stopped part-way. The
      other names may be used in any way: their writes may be empty, far out of range, or run
      out of space. */
  lemma {:induction false} MountedContents(blockSize: nat, inodeCount: nat, blockCount: nat, calls: seq<Call>,
                                           name: seq<byte>)
    requires MountSizes(blockSize, inodeCount, blockCount) && blockCount * blockSize < U32 && AllSensible(calls)
    requires GentleRun(M.Fresh(blockSize, inodeCount, blockCount), name, calls)
    ensures var fs := Mount(blockSize, inodeCount, blockCount);
            var rs := Replies(fs, calls);
            && EntryOf(After(fs, calls), name) == EntryAfter(Absent, blockSize, name, calls, rs)
            && AllAnswered(Absent, blockSize, name, calls, rs)
  {
    var m := M.Fresh(blockSize, inodeCount, blockCount);
    assert Sound(m) && Holds(m, name, Absent);
    hide Inv, Dir, Mounted, Mount, GentleRun, Sound, Holds, AllAnswered, EntryAfter, EntryOf, Abs;
    var fs := Mount(blockSize, inodeCount, blockCount);
    MountedRunRefines(blockSize, inodeCount, blockCount, calls);
    RunEvolves(m, name, calls, Absent);
    EntryMeaning(After(fs, calls), name, EntryAfter(Absent, blockSize, name, calls, Replies(fs, calls)));
  }

  // ---------------------------------------------------------------- reads never fail

  /** The blocks of the file cover its size. */
  ghost predicate Covers(a: M.File) { a.size <= |a.stored| }

  ghost predicate NoEmptyWrites(name: seq<byte>, calls: seq<Call>) {
    forall i :: 0 <= i < |calls| && calls[i].CallWrite? && calls[i].name == name ==> calls[i].buf != []
  }

  lemma {:induction false} WrittenCovers(m: M.System, a: M.File, pos: nat, buf: seq<byte>)
    requires Sound(m) && SoundFile(m, a) && Covers(a) && buf != []
    ensures Covers(M.Written(m, a, pos, buf).0)
  {
    var (a1, r) := M.Written(m, a, pos, buf);
    var b, p := m.blockSize, Home(pos, m.blockSize);
    HomeBlock(pos, b);
    WrapHome(pos, |buf|, b);
    MulMonotone(a.blocks, a1.blocks, b);
    AreaIff(p + |buf| - 1, a.blocks + Needed(p, |buf|, a.blocks, b), b);
    WrittenSound(m, a, pos, buf);
    MulMonotone(a1.blocks, m.blockCount, b);
    hide Home, LogicalBlock, BlockOf, M.Given;
  }

  lemma {:induction false} CoveredRead(m: M.System, a: M.File, pos: nat, n: nat)
    requires Covers(a)
    ensures M.Answer(m, a, pos, n) == Ok(Part(M.Contents(a), pos, n))
  {
    hide M.Contents, Part;
  }

  lemma {:induction false} ActCovers(m: M.System, name: seq<byte>, c: Call)
    requires Sound(m) && (name in m.files ==> Covers(m.files[name]))
    requires c.CallWrite? && c.name == name ==> c.buf != []
    ensures var m1 := M.Act(m, c).0; Sound(m1) && (name in m1.files ==> Covers(m1.files[name]))
  {
    ActSound(m, c);
    if c.CallWrite? && c.name == name && name in m.files {
      WrittenCovers(m, m.files[name], c.pos, c.buf);
    }
    hide M.Written, M.Answer;
  }

  lemma {:induction false} RunCovers(m: M.System, name: seq<byte>, calls: seq<Call>)
    requires Sound(m) && (name in m.files ==> Covers(m.files[name])) && NoEmptyWrites(name, calls)
    ensures m.blockSize >= 8
    ensures var m1 := M.Final(m, calls); Sound(m1) && (name in m1.files ==> Covers(m1.files[name]))
    decreases |calls|
  {
    SoundSizes(m);
    hide Sound, Covers, M.Act;
    if calls != [] {
      ActCovers(m, name, calls[0]);
      assert NoEmptyWrites(name, calls[1..]) by {
        assert forall i :: 0 <= i < |calls| - 1 ==> calls[1..][i] == calls[i + 1];
      }
      RunCovers(M.Act(m, calls[0]).0, name, calls[1..]);
    }
  }

  lemma {:induction false} ReadAnswers(fs: Fs, name: seq<byte>, pos: nat, count: nat)
    requires Inv(fs) && name in Dir(fs) && Covers(AbsFile(fs, FileOf(fs, name)))
    ensures Do(fs, CallRead(name, pos, count)).1 == Data(Ok(Part(View(fs, FileOf(fs, name)), pos, count)))
  {
    var f := FileOf(fs, name);
    hide Inv, Dir, AbsFile, Do, FileOf, View, M.Answer, Part, Covers, M.Contents;
    CallRefines(fs, CallRead(name, pos, count));
    ViewIsContents(fs, f);
    CoveredRead(Abs(fs), AbsFile(fs, f), pos, count);
    assert Abs(fs).files[name] == AbsFile(fs, f);
  }

  /** After any run, failed and far writes included, in which no write to this name was empty, a
      read of the name answers with exactly the bytes asked for, never with `EIO`. */
  lemma {:induction false} ReadsNeverFail(blockSize: nat, inodeCount: nat, blockCount: nat, calls: seq<Call>,
                                          name: seq<byte>, pos: nat, count: nat)
    requires MountSizes(blockSize, inodeCount, blockCount) && blockCount * blockSize < U32 && AllSensible(calls)
    requires NoEmptyWrites(name, calls)
    ensures var fs := After(Mount(blockSize, inodeCount, blockCount), calls);
            name in Dir(fs) ==>
              Do(fs, CallRead(name, pos, count)).1 == Data(Ok(Part(View(fs, FileOf(fs, name)), pos, count)))
  {
    var m := M.Fresh(blockSize, inodeCount, blockCount);
    assert Sound(m);
    hide Inv, Dir, Mounted, Mount, Sound, AbsFile, Do, NoEmptyWrites, FileOf, View, M.Final, M.Act, Part, Covers;
    var fs := After(Mount(blockSize, inodeCount, blockCount), calls);
    MountedRunRefines(blockSize, inodeCount, blockCount, calls);
    RunCovers(m, name, calls);
    if name in Dir(fs) {
      assert Abs(fs).files[name] == AbsFile(fs, FileOf(fs, name));
      ReadAnswers(fs, name, pos, count);
    }
  }
}
