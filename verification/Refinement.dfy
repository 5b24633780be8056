/** Every run of osfs is the run of the machine: same replies, same files, on every sequence of
    calls, whatever they ask for and however they end. */
module Refinement {
  import opened Bytes
  import opened Arith
  import opened State
  import opened ReadWrite
  import opened Directory
  import opened Creation
  import opened Runs
  import opened Abstraction
  import M = Machine

  // ---------------------------------------------------------------- one call

  /** The step from `fs` to `fs1` with reply `r` is the machine's step. */
  ghost predicate Refines(fs: Fs, c: Call, fs1: Fs, r: Reply)
    requires Inv(fs)
  {
    Inv(fs1) && Abs(fs).blockSize >= 8 && (Abs(fs1), r) == M.Act(Abs(fs), c)
  }

  lemma {:induction false} LookupCall(fs: Fs, name: seq<byte>)
    requires Inv(fs)
    ensures Refines(fs, CallLookup(name), fs, Number(Resolve(fs, name)))
  {
    assert fs.blockSize >= 8;
    hide Inv, Dir, AbsFile, M.Answer, M.Written, M.Created;
  }

  /** A read or write of a name that is not there. */
  lemma {:induction false} MissingCall(fs: Fs, c: Call)
    requires Inv(fs) && (c.CallRead? || c.CallWrite?) && c.name !in Dir(fs)
    ensures Refines(fs, c, fs, if c.CallRead? then Data(Err(ENOENT)) else Number(Err(ENOENT)))
  {
    assert fs.blockSize >= 8;
    hide Inv, Dir, AbsFile, M.Answer, M.Written, M.Created;
  }

  lemma {:induction false} ReadSame(fs: Fs, name: seq<byte>, pos: nat, count: nat, io: IoResult<seq<byte>>)
    requires Inv(fs) && name in Dir(fs) && Inv(io.fs) && HasTable(io.fs, FileOf(fs, name)) && fs.blockSize >= 8
    requires var f := FileOf(fs, name);
             && AbsFile(io.fs, f) == AbsFile(fs, f) && Used(io.fs) == Used(fs)
             && io.ret == M.Answer(Abs(fs), AbsFile(fs, f), pos, count)
             && Abs(io.fs) == Abs(fs).(used := Used(io.fs), files := AbsFiles(fs)[name := AbsFile(io.fs, f)])
    ensures Refines(fs, CallRead(name, pos, count), io.fs, Data(io.ret))
  {
    hide Inv, Dir, FileOf, M.Answer, AbsFile;
    assert AbsFiles(fs)[name := AbsFile(fs, FileOf(fs, name))] == AbsFiles(fs);
  }

  lemma {:induction false} ReadCall(fs: Fs, name: seq<byte>, pos: nat, count: nat, io: IoResult<seq<byte>>)
    requires Inv(fs) && name in Dir(fs) && io == ReadFile(fs, FileOf(fs, name), pos, count)
    ensures Refines(fs, CallRead(name, pos, count), io.fs, Data(io.ret))
  {
    var f := FileOf(fs, name);
    assert fs.blockSize >= 8;
    hide Inv, Dir, ReadFile, FileOf, Changed, AbsFile, M.Answer, Slice, BlockOf, Refines;
    ReadMeaning(fs, f, pos, count);
    ReadAbs(fs, f, pos, count);
    ChangedAbs(fs, io.fs, name, 0, []);
    ReadSame(fs, name, pos, count, io);
  }

  lemma {:induction false} WriteStep(fs: Fs, name: seq<byte>, pos: nat, buf: seq<byte>, io: IoResult<nat>)
    requires Inv(fs) && name in Dir(fs) && Inv(io.fs) && HasTable(io.fs, FileOf(fs, name)) && fs.blockSize >= 8
    requires var f := FileOf(fs, name);
             && (AbsFile(io.fs, f), io.ret) == M.Written(Abs(fs), AbsFile(fs, f), pos, buf)
             && Used(io.fs) - Used(fs) == AbsFile(io.fs, f).blocks - AbsFile(fs, f).blocks
             && Abs(io.fs) == Abs(fs).(used := Used(io.fs), files := AbsFiles(fs)[name := AbsFile(io.fs, f)])
    ensures Refines(fs, CallWrite(name, pos, buf), io.fs, Number(io.ret))
  {
    hide Inv, Dir, FileOf, M.Written, AbsFile;
    assert AbsFiles(fs)[name] == AbsFile(fs, FileOf(fs, name));
  }

  lemma {:induction false} WriteCall(fs: Fs, name: seq<byte>, pos: nat, buf: seq<byte>, io: IoResult<nat>)
    requires Inv(fs) && name in Dir(fs) && io == WriteFile(fs, FileOf(fs, name), pos, buf)
    ensures Refines(fs, CallWrite(name, pos, buf), io.fs, Number(io.ret))
  {
    var f := FileOf(fs, name);
    hide Inv, Dir, WriteFile, FileOf, Changed, M.Written, AbsFile, Home, Refines;
    var done := WriteChanges(fs, f, pos, buf);
    WriteAbs(fs, f, pos, buf);
    ChangedAbs(fs, io.fs, name, Home(pos, fs.blockSize), buf[..done]);
    WriteStep(fs, name, pos, buf, io);
  }

  lemma {:induction false} CreateCall(fs: Fs, name: seq<byte>, fs1: Fs, r: Result<word>)
    requires Inv(fs) && NoNul(name) && fs.inodes[ROOT].block < |fs.data| && (fs1, r) == Create(fs, name)
    ensures Refines(fs, CallCreate(name), fs1, Number(if r.Ok? then Ok(r.value) else Err(r.error)))
  {
    assert fs.blockSize >= 8;
    hide Inv, Dir, Create, AbsFiles, M.Created;
    CreateAbs(fs, name);
  }

  /** Reading and writing go to the file that the name stands for. */
  lemma {:induction false} DoIo(fs: Fs, c: Call)
    requires Inv(fs) && (c.CallRead? || c.CallWrite?)
    ensures Do(fs, c) ==
            if c.name !in Dir(fs) then
              (fs, if c.CallRead? then Data(Err(ENOENT)) else Number(Err(ENOENT)))
            else if c.CallRead? then
              var io := ReadFile(fs, FileOf(fs, c.name), c.pos, c.count);
              (io.fs, Data(io.ret))
            else
              var io := WriteFile(fs, FileOf(fs, c.name), c.pos, c.buf);
              (io.fs, Number(io.ret))
  {
    hide Inv, Dir, ReadFile, WriteFile;
  }

  /** One call of osfs is one step of the machine, reply included. */
  lemma {:induction false} CallRefines(fs: Fs, c: Call)
    requires Inv(fs) && Sensible(c)
    ensures Refines(fs, c, Do(fs, c).0, Do(fs, c).1)
  {
    assert RootOk(fs);
    hide Inv, Refines, Create, Dir, ReadFile, WriteFile, FileOf, Resolve;
    if c.CallCreate? {
      CreateCall(fs, c.name, Create(fs, c.name).0, Create(fs, c.name).1);
    } else if c.CallLookup? {
      LookupCall(fs, c.name);
    } else {
      DoIo(fs, c);
      if c.name !in Dir(fs) {
        MissingCall(fs, c);
      } else if c.CallRead? {
        ReadCall(fs, c.name, c.pos, c.count, ReadFile(fs, FileOf(fs, c.name), c.pos, c.count));
      } else {
        WriteCall(fs, c.name, c.pos, c.buf, WriteFile(fs, FileOf(fs, c.name), c.pos, c.buf));
      }
    }
  }

  // ---------------------------------------------------------------- whole runs

  ghost function Replies(fs: Fs, calls: seq<Call>): (r: seq<Reply>)
    requires Inv(fs) && AllSensible(calls)
    ensures |r| == |calls|
    decreases |calls|
  {
    if calls == [] then [] else [Do(fs, calls[0]).1] + Replies(Next(fs, calls[0]), calls[1..])
  }

  lemma {:induction false} NextMeaning(fs: Fs, c: Call)
    requires Inv(fs) && Sensible(c)
    ensures Next(fs, c) == Do(fs, c).0
  {
    hide Inv, Do;
  }

  /** Every run of osfs is the run of the machine. */
  lemma {:induction false} RunRefines(fs: Fs, calls: seq<Call>)
    requires Inv(fs) && AllSensible(calls)
    ensures Abs(fs).blockSize >= 8
    ensures Abs(After(fs, calls)) == M.Final(Abs(fs), calls)
    ensures Replies(fs, calls) == M.Outputs(Abs(fs), calls)
    decreases |calls|
  {
    assert fs.blockSize >= 8;
    hide Inv, Do, Sensible, Next, AbsFiles, M.Act;
    if calls != [] {
      NextMeaning(fs, calls[0]);
      CallRefines(fs, calls[0]);
      RunRefines(Next(fs, calls[0]), calls[1..]);
    }
  }

  /** From a fresh mount the machine starts with no files. */
  lemma {:induction false} MountedRunRefines(blockSize: nat, inodeCount: nat, blockCount: nat, calls: seq<Call>)
    requires MountSizes(blockSize, inodeCount, blockCount) && AllSensible(calls)
    ensures var fs, m := Mount(blockSize, inodeCount, blockCount), M.Fresh(blockSize, inodeCount, blockCount);
            Abs(After(fs, calls)) == M.Final(m, calls) && Replies(fs, calls) == M.Outputs(m, calls)
  {
    var fs := Mount(blockSize, inodeCount, blockCount);
    assert Used(fs) == 0 && |fs.blockBits| == blockCount && |fs.inodeBits| == inodeCount;
    assert AbsFiles(fs) == map[];
    hide Inv, Dir, Mounted, Mount, AbsFiles;
    RunRefines(fs, calls);
  }
}
