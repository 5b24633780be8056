/** What osfs does, without bitmaps, inode table, extent tables or blocks: a machine over a map from
    names to files. Of the device it knows only how many blocks have been handed out. */
module Machine {
  import opened Bytes
  import opened ExtentTable
  import opened Arith
  import opened State
  import opened FileOps
  import opened ReadWrite
  import opened ByteStore
  import opened Runs

  /** A file: its inode number, its size, and all bytes of its `blocks` blocks, those past the end
      included. It is stored in `extents` runs; `end` blocks of the device had been handed out
      when it last grew, so that it can grow without a new run while that is still the number. */
  datatype File = File(number: nat, size: word, blocks: nat, stored: seq<byte>, extents: nat, end: nat)

  datatype System = System(blockSize: nat, blockCount: nat, inodeCount: nat, used: nat, files: map<seq<byte>, File>)

  /** The machine right after mounting. */
  function Fresh(blockSize: nat, inodeCount: nat, blockCount: nat): System {
    System(blockSize, blockCount, inodeCount, 0, map[])
  }

  function Free(m: System): nat { if m.used < m.blockCount then m.blockCount - m.used else 0 }

  /** The contents: the first `size` bytes; bytes beyond the blocks count as zero. */
  function Contents(a: File): (v: seq<byte>)
    ensures |v| == a.size
  {
    Overlay(a.stored, a.size, 0, [])
  }

  // ---------------------------------------------------------------- one file

  predicate CanExtend(m: System, a: File)
    requires m.blockSize >= 8
  {
    a.extents < MaxExtents(m.blockSize) || a.end == m.used
  }

  /** The blocks a write of `n` bytes at `p` is given: those it needs, or those there are. */
  function Given(m: System, a: File, p: nat, n: nat): nat
    requires m.blockSize >= 8 && n > 0
  {
    if CanExtend(m, a) then Min(Needed(p, n, a.blocks, m.blockSize), Free(m)) else 0
  }

  /** The file after a write of `buf` that goes to `p` was given `g` blocks: what fits is stored. */
  function Grown(m: System, a: File, p: nat, buf: seq<byte>, g: nat): File {
    a.(blocks := a.blocks + g,
       stored := Overlay(a.stored, (a.blocks + g) * m.blockSize, p, buf),
       extents := a.extents + (if g == 0 || a.end == m.used then 0 else 1),
       end := if g == 0 then a.end else m.used + g)
  }

  function Resized(a: File, end: nat): File {
    if end > a.size then a.(size := Wrap(end)) else a
  }

  /** A write: the file afterwards and the reply. */
  function Written(m: System, a: File, pos: nat, buf: seq<byte>): (File, Result<nat>)
    requires m.blockSize >= 8
  {
    if buf == [] then (Resized(a, pos), Ok(0))
    else if LogicalBlock(pos, m.blockSize) > a.blocks then (a, Err(EINVAL))
    else
      var p := Home(pos, m.blockSize);
      var g := Given(m, a, p, |buf|);
      var a1 := Grown(m, a, p, buf, g);
      if g < Needed(p, |buf|, a.blocks, m.blockSize) then (a1, Err(ENOSPC))
      else (Resized(a1, pos + |buf|), Ok(|buf|))
  }

  /** A read fails when it asks for bytes of the contents that have no block. */
  function Answer(m: System, a: File, pos: nat, n: nat): Result<seq<byte>> {
    var end := pos + Min(n, if pos < a.size then a.size - pos else 0);
    if pos < end && |a.stored| < end then Err(EIO) else Ok(Part(Contents(a), pos, n))
  }

  // ---------------------------------------------------------------- calls

  /** Creating a file; the first creation that gets past the length check takes a block for the
      directory, and each successful one a block for the extent table. */
  function Created(m: System, name: seq<byte>): (System, Result<nat>) {
    if |name| >= NAME_LIMIT then (m, Err(ENAMETOOLONG))
    else
      var m1 := if m.used == 0 then m.(used := 1) else m;
      var number := |m.files| + 2;
      if number >= m.inodeCount || Free(m1) == 0 then (m1, Err(ENOSPC))
      else if |m.files| >= MaxEntries(m.blockSize) then (m1, Err(ENOSPC))
      else if name in m.files then (m1, Err(EEXIST))
      else (m1.(used := m1.used + 1, files := m.files[name := File(number, 0, 0, [], 0, 0)]), Ok(number))
  }

  /** One call, on whatever state and with whatever outcome. */
  function Act(m: System, c: Call): (System, Reply)
    requires m.blockSize >= 8
  {
    match c
    case CallCreate(name) =>
      var (m1, r) := Created(m, name);
      (m1, Number(r))
    case CallLookup(name) =>
      (m, Number(if name in m.files then Ok(m.files[name].number) else Err(ENOENT)))
    case CallRead(name, pos, count) =>
      (m, Data(if name in m.files then Answer(m, m.files[name], pos, count) else Err(ENOENT)))
    case CallWrite(name, pos, buf) =>
      if name !in m.files then (m, Number(Err(ENOENT)))
      else
        var (a, r) := Written(m, m.files[name], pos, buf);
        (m.(used := m.used + (a.blocks - m.files[name].blocks), files := m.files[name := a]), Number(r))
  }

  // ---------------------------------------------------------------- runs

  function Final(m: System, calls: seq<Call>): (r: System)
    requires m.blockSize >= 8
    ensures r.blockSize == m.blockSize
    decreases |calls|
  {
    if calls == [] then m else Final(Act(m, calls[0]).0, calls[1..])
  }

  function Outputs(m: System, calls: seq<Call>): (rs: seq<Reply>)
    requires m.blockSize >= 8
    ensures |rs| == |calls|
    decreases |calls|
  {
    if calls == [] then [] else [Act(m, calls[0]).1] + Outputs(Act(m, calls[0]).0, calls[1..])
  }
}
