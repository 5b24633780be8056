/** Short runs of osfs from a fresh mount, with every number written out. The replies are those of
    the machine, which are those of osfs by Refinement. */
module Examples {
  import opened Bytes
  import opened ExtentTable
  import opened Arith
  import opened State
  import opened FileOps
  import opened ReadWrite
  import opened ByteStore
  import opened Directory
  import opened Creation
  import opened Runs
  import opened Refinement
  import opened Contents
  import M = Machine

  type Name = n: seq<byte> | |n| <= 254 && forall i :: 0 <= i < |n| ==> n[i] != 0 witness []

  /** The state after `calls` on a machine, with the replies. */
  ghost predicate Gives(m: M.System, calls: seq<Call>, m1: M.System, rs: seq<Reply>) {
    m.blockSize >= 8 && M.Final(m, calls) == m1 && M.Outputs(m, calls) == rs
  }

  /** One call of the machine. */
  ghost predicate Acts(m: M.System, c: Call, m1: M.System, r: Reply) {
    m.blockSize >= 8 && M.Act(m, c) == (m1, r)
  }

  lemma NoCalls(m: M.System)
    requires m.blockSize >= 8
    ensures Gives(m, [], m, [])
  {
  }

  lemma OneMore(m: M.System, c: Call, m1: M.System, r: Reply, calls: seq<Call>, m2: M.System, rs: seq<Reply>)
    requires Acts(m, c, m1, r) && Gives(m1, calls, m2, rs)
    ensures Gives(m, [c] + calls, m2, [r] + rs)
  {
    assert ([c] + calls)[1..] == calls;
    hide M.Act;
  }

  /** The same on osfs, right after mounting. */
  lemma MountedGives(blockSize: nat, inodeCount: nat, blockCount: nat, calls: seq<Call>, m1: M.System, rs: seq<Reply>)
    requires MountSizes(blockSize, inodeCount, blockCount) && AllSensible(calls)
    requires Gives(M.Fresh(blockSize, inodeCount, blockCount), calls, m1, rs)
    ensures Replies(Mount(blockSize, inodeCount, blockCount), calls) == rs
  {
    hide Inv, Mount, Mounted, M.Final, M.Outputs;
    MountedRunRefines(blockSize, inodeCount, blockCount, calls);
  }

  // ---------------------------------------------------------------- creations

  /** The reply to a creation, by the number of files, blocks and bytes. */
  lemma CreationReply(m: M.System, name: seq<byte>)
    ensures var (m1, r) := M.Created(m, name);
            var used := if m.used == 0 then 1 else m.used;
            if |name| >= 255 then m1 == m && r == Err(ENAMETOOLONG)
            else if |m.files| + 2 >= m.inodeCount || used >= m.blockCount || 260 * (|m.files| + 1) > m.blockSize then
              m1 == m.(used := used) && r == Err(ENOSPC)
            else if name in m.files then m1 == m.(used := used) && r == Err(EEXIST)
            else
              && r == Ok(|m.files| + 2)
              && m1 == m.(used := used + 1, files := m.files[name := M.File(|m.files| + 2, 0, 0, [], 0, 0)])
  {
  }

  lemma Create1(m: M.System, name: Name)
    requires m.blockSize >= 8
    ensures Acts(m, CallCreate(name), M.Created(m, name).0, Number(M.Created(m, name).1))
  {
  }

  /** A name of 254 bytes is accepted, one of 255 is too long. */
  lemma NameLength(name: seq<byte>)
    requires forall i :: 0 <= i < |name| ==> name[i] != 0
    ensures Replies(Mount(1024, 20, 20), [CallCreate(name)]) ==
            [Number(if |name| <= 254 then Ok(2) else Err(ENAMETOOLONG))]
  {
    var m := M.Fresh(1024, 20, 20);
    CreationReply(m, name);
    var m1, r := M.Created(m, name).0, M.Created(m, name).1;
    hide M.Created, M.Fresh, Mount;
    NoCalls(m1);
    OneMore(m, CallCreate(name), m1, Number(r), [], m1, []);
    assert [CallCreate(name)] + [] == [CallCreate(name)] && [Number(r)] + [] == [Number(r)];
    MountedGives(1024, 20, 20, [CallCreate(name)], m1, [Number(r)]);
  }

  /** The machine of 20 inodes and 20 blocks of 1024 bytes, with these files, all empty. */
  ghost predicate Holding(m: M.System, names: set<seq<byte>>) {
    && m.blockSize == 1024 && m.blockCount == 20 && m.inodeCount == 20
    && m.files.Keys == names && m.used == if names == {} then 0 else |names| + 1
  }

  lemma NextCreation(m: M.System, names: set<seq<byte>>, name: Name)
    requires Holding(m, names) && name !in names && |names| <= 3
    ensures M.Created(m, name).1 == if |names| < 3 then Ok(|names| + 2) else Err(ENOSPC)
    ensures |names| < 3 ==> Holding(M.Created(m, name).0, names + {name})
    ensures M.Created(m, name).0.blockSize == 1024
  {
    CreationReply(m, name);
    assert |m.files| == |m.files.Keys|;
    hide M.Created;
  }

  lemma LateCreation(m: M.System, names: set<seq<byte>>, name: Name)
    requires Holding(m, names) && |names| == 3
    ensures M.Created(m, name).1 == Err(ENOSPC) && M.Created(m, name).0.blockSize == 1024
  {
    CreationReply(m, name);
    assert |m.files| == |m.files.Keys|;
    hide M.Created;
  }

  ghost function FourCalls(a: Name, b: Name, c: Name, d: Name): (calls: seq<Call>)
    ensures AllSensible(calls)
  {
    [CallCreate(a), CallCreate(b), CallCreate(c), CallCreate(d)]
  }

  ghost function FourReplies(): seq<Reply> {
    [Number(Ok(2)), Number(Ok(3)), Number(Ok(4)), Number(Err(ENOSPC))]
  }

  lemma FourSteps(m0: M.System, m1: M.System, m2: M.System, m3: M.System, m4: M.System,
                  a: Name, b: Name, c: Name, d: Name)
    requires Acts(m0, CallCreate(a), m1, Number(Ok(2))) && Acts(m1, CallCreate(b), m2, Number(Ok(3)))
    requires Acts(m2, CallCreate(c), m3, Number(Ok(4))) && Acts(m3, CallCreate(d), m4, Number(Err(ENOSPC)))
    requires m4.blockSize >= 8
    ensures Gives(m0, FourCalls(a, b, c, d), m4, FourReplies())
  {
    hide Acts, Gives, AllSensible;
    NoCalls(m4);
    OneMore(m3, CallCreate(d), m4, Number(Err(ENOSPC)), [], m4, []);
    var c4, r4 := [CallCreate(d)] + [], [Number(Err(ENOSPC))] + [];
    OneMore(m2, CallCreate(c), m3, Number(Ok(4)), c4, m4, r4);
    var c3, r3 := [CallCreate(c)] + c4, [Number(Ok(4))] + r4;
    OneMore(m1, CallCreate(b), m2, Number(Ok(3)), c3, m4, r3);
    var c2, r2 := [CallCreate(b)] + c3, [Number(Ok(3))] + r3;
    OneMore(m0, CallCreate(a), m1, Number(Ok(2)), c2, m4, r2);
    assert [CallCreate(a)] + c2 == FourCalls(a, b, c, d) && [Number(Ok(2))] + r2 == FourReplies();
  }

  /** One creation in such a machine, as a call. */
  lemma CreatesNext(m: M.System, names: set<seq<byte>>, name: Name)
    requires Holding(m, names) && |names| <= 3 && (name !in names || |names| == 3)
    ensures m.blockSize >= 8
    ensures Acts(m, CallCreate(name), M.Created(m, name).0,
                 Number(if |names| < 3 then Ok(|names| + 2) else Err(ENOSPC)))
    ensures |names| < 3 ==> Holding(M.Created(m, name).0, names + {name}) && |names + {name}| == |names| + 1
    ensures M.Created(m, name).0.blockSize == 1024
  {
    assert m.blockSize == 1024;
    hide M.Created, Holding, Acts;
    Create1(m, name);
    if name in names {
      LateCreation(m, names, name);
    } else {
      NextCreation(m, names, name);
    }
  }

  lemma FourRun(a: Name, b: Name, c: Name, d: Name) returns (m4: M.System)
    requires a != b && a != c && b != c
    ensures Gives(M.Fresh(1024, 20, 20), FourCalls(a, b, c, d), m4, FourReplies())
  {
    var m0, none: set<seq<byte>> := M.Fresh(1024, 20, 20), {};
    assert Holding(m0, none) && |none| == 0;
    hide M.Created, M.Fresh, Holding, Acts, Gives, FourCalls, FourReplies;
    CreatesNext(m0, none, a);
    var m1, s1 := M.Created(m0, a).0, none + {a};
    CreatesNext(m1, s1, b);
    var m2, s2 := M.Created(m1, b).0, s1 + {b};
    CreatesNext(m2, s2, c);
    var m3, s3 := M.Created(m2, c).0, s2 + {c};
    CreatesNext(m3, s3, d);
    m4 := M.Created(m3, d).0;
    FourSteps(m0, m1, m2, m3, m4, a, b, c, d);
  }

  /** A directory block of 1024 bytes takes three entries. */
  lemma FourCreations(a: Name, b: Name, c: Name, d: Name)
    requires a != b && a != c && b != c
    ensures Replies(Mount(1024, 20, 20), FourCalls(a, b, c, d)) == FourReplies()
  {
    hide Mount, Gives, FourCalls, FourReplies, AllSensible;
    var m4 := FourRun(a, b, c, d);
    MountedGives(1024, 20, 20, FourCalls(a, b, c, d), m4, FourReplies());
  }

  // ---------------------------------------------------------------- writes

  /** The first byte of the first block, and of the second. */
  lemma Places(b: nat)
    requires 8 <= b < U32
    ensures LogicalBlock(0, b) == 0 && Home(0, b) == 0 && Needed(0, 1, 0, b) == 1
    ensures LogicalBlock(b, b) == 1 && Home(b, b) == b && Needed(b, 1, 1, b) == 1
  {
    DivModUnique(0, 0, 0, b);
    DivModUnique(b, 1, 0, b);
    assert BlockOf(0, b) == 0 && BlockOf(b, b) == 1;
    hide BlockOf, OffsetOf, Home;
    HomeBlock(0, b);
    HomeBlock(b, b);
  }

  /** Two files, empty, or with one block each, in the order they were written. */
  ghost function Two(used: nat, x: M.File, a: Name, y: M.File, b: Name): M.System {
    M.System(1024, 20, 20, used, map[a := x, b := y])
  }

  lemma TwoCreations(a: Name, b: Name)
    requires a != b
    ensures var m0, empty := M.Fresh(1024, 20, 20), M.File(2, 0, 0, [], 0, 0);
            var m1 := M.System(1024, 20, 20, 2, map[a := empty]);
            && Acts(m0, CallCreate(a), m1, Number(Ok(2)))
            && Acts(m1, CallCreate(b), Two(3, empty, a, empty.(number := 3), b), Number(Ok(3)))
  {
    var m0 := M.Fresh(1024, 20, 20);
    CreationReply(m0, a);
    var m1 := M.Created(m0, a).0;
    CreationReply(m1, b);
    assert m1.files == map[a := M.File(2, 0, 0, [], 0, 0)];
    var empty := M.File(2, 0, 0, [], 0, 0);
    assert M.Created(m1, b).0.files == map[a := empty, b := empty.(number := 3)];
    hide M.Created;
  }

  /** The first byte of an empty file. */
  lemma FirstByte(m: M.System, a: M.File, x: byte)
    requires m.blockSize == 1024 && m.used < m.blockCount && a.end != m.used
    requires a == M.File(a.number, 0, 0, [], 0, 0)
    ensures M.Written(m, a, 0, [x]) ==
            (M.File(a.number, 1, 1, Overlay([], 1024, 0, [x]), 1, m.used + 1), Ok(1))
  {
    hide Home, LogicalBlock, Needed, MaxExtents, Overlay;
    Places(1024);
  }

  /** The first byte of the second block, in a file that has one extent, after another file grew. */
  lemma SecondBlock(m: M.System, a: M.File, x: byte)
    requires m.blockSize == 1024 && m.used < m.blockCount && a.end != m.used
    requires a.size == 1 && a.blocks == 1 && a.extents == 1
    ensures M.Written(m, a, 1024, [x]) ==
            (M.File(a.number, 1025, 2, Overlay(a.stored, 2048, 1024, [x]), 2, m.used + 1), Ok(1))
  {
    hide Home, LogicalBlock, Needed, MaxExtents, Overlay;
    Places(1024);
  }

  lemma WriteTo(m: M.System, name: Name, a: M.File, pos: nat, buf: seq<byte>, a1: M.File, r: Result<nat>,
                files: map<seq<byte>, M.File>)
    requires m.blockSize >= 8 && name in m.files && m.files[name] == a && a1.blocks >= a.blocks
    requires M.Written(m, a, pos, buf) == (a1, r) && files == m.files[name := a1]
    ensures Acts(m, CallWrite(name, pos, buf), m.(used := m.used + (a1.blocks - a.blocks), files := files), Number(r))
  {
    hide M.Written;
  }

  lemma ReadFrom(m: M.System, name: Name, pos: nat, n: nat)
    requires m.blockSize >= 8 && name in m.files
    ensures Acts(m, CallRead(name, pos, n), m, Data(M.Answer(m, m.files[name], pos, n)))
  {
  }

  /** What was written around the end of the first block reads back. */
  lemma ReadsBack(m: M.System, a: M.File, x: byte, z: byte)
    requires a.size == 1025 && a.stored == Overlay(Overlay([], 1024, 0, [x]), 2048, 1024, [z])
    ensures M.Answer(m, a, 1023, 7) == Ok([0, z])
  {
    var v := M.Contents(a);
    assert v[1023] == 0 && v[1024] == z;
    var p := Part(v, 1023, 7);
    assert p[0] == v[1023 + 0] && p[1] == v[1023 + 1] && |p| == 2;
    hide Part, M.Contents, Overlay;
    assert p == [0, z];
  }

  ghost function InTurnCalls(a: Name, b: Name, x: byte, y: byte, z: byte): (calls: seq<Call>)
    ensures AllSensible(calls)
  {
    [CallCreate(a), CallCreate(b), CallWrite(a, 0, [x]), CallWrite(b, 0, [y]), CallWrite(a, 1024, [z]),
     CallRead(a, 1023, 7)]
  }

  ghost function InTurnReplies(z: byte): seq<Reply> {
    [Number(Ok(2)), Number(Ok(3)), Number(Ok(1)), Number(Ok(1)), Number(Ok(1)), Data(Ok([0, z]))]
  }

  lemma SixCalls(m0: M.System, m1: M.System, m2: M.System, m3: M.System, m4: M.System, m5: M.System,
                 a: Name, b: Name, x: byte, y: byte, z: byte)
    requires Acts(m0, CallCreate(a), m1, Number(Ok(2))) && Acts(m1, CallCreate(b), m2, Number(Ok(3)))
    requires Acts(m2, CallWrite(a, 0, [x]), m3, Number(Ok(1))) && Acts(m3, CallWrite(b, 0, [y]), m4, Number(Ok(1)))
    requires Acts(m4, CallWrite(a, 1024, [z]), m5, Number(Ok(1)))
    requires Acts(m5, CallRead(a, 1023, 7), m5, Data(Ok([0, z]))) && m5.blockSize >= 8
    ensures Gives(m0, InTurnCalls(a, b, x, y, z), m5, InTurnReplies(z))
  {
    hide Acts, Gives, AllSensible;
    NoCalls(m5);
    OneMore(m5, CallRead(a, 1023, 7), m5, Data(Ok([0, z])), [], m5, []);
    var c6, r6 := [CallRead(a, 1023, 7)] + [], [Data(Ok([0, z]))] + [];
    OneMore(m4, CallWrite(a, 1024, [z]), m5, Number(Ok(1)), c6, m5, r6);
    var c5, r5 := [CallWrite(a, 1024, [z])] + c6, [Number(Ok(1))] + r6;
    OneMore(m3, CallWrite(b, 0, [y]), m4, Number(Ok(1)), c5, m5, r5);
    var c4, r4 := [CallWrite(b, 0, [y])] + c5, [Number(Ok(1))] + r5;
    OneMore(m2, CallWrite(a, 0, [x]), m3, Number(Ok(1)), c4, m5, r4);
    var c3, r3 := [CallWrite(a, 0, [x])] + c4, [Number(Ok(1))] + r4;
    OneMore(m1, CallCreate(b), m2, Number(Ok(3)), c3, m5, r3);
    var c2, r2 := [CallCreate(b)] + c3, [Number(Ok(3))] + r3;
    OneMore(m0, CallCreate(a), m1, Number(Ok(2)), c2, m5, r2);
    assert [CallCreate(a)] + c2 == InTurnCalls(a, b, x, y, z) && [Number(Ok(2))] + r2 == InTurnReplies(z);
  }

  /** A write that takes one block, to the first or the second of two files. */
  lemma WriteFirst(used: nat, f: M.File, a: Name, g: M.File, b: Name, pos: nat, buf: seq<byte>,
                   f1: M.File, r: Result<nat>)
    requires a != b && f1.blocks == f.blocks + 1 && M.Written(Two(used, f, a, g, b), f, pos, buf) == (f1, r)
    ensures Acts(Two(used, f, a, g, b), CallWrite(a, pos, buf), Two(used + 1, f1, a, g, b), Number(r))
  {
    hide M.Written, Acts;
    var m := Two(used, f, a, g, b);
    WriteTo(m, a, f, pos, buf, f1, r, Two(used + 1, f1, a, g, b).files);
  }

  lemma WriteSecond(used: nat, f: M.File, a: Name, g: M.File, b: Name, pos: nat, buf: seq<byte>,
                    g1: M.File, r: Result<nat>)
    requires a != b && g1.blocks == g.blocks + 1 && M.Written(Two(used, f, a, g, b), g, pos, buf) == (g1, r)
    ensures Acts(Two(used, f, a, g, b), CallWrite(b, pos, buf), Two(used + 1, f, a, g1, b), Number(r))
  {
    hide M.Written, Acts;
    var m := Two(used, f, a, g, b);
    WriteTo(m, b, g, pos, buf, g1, r, Two(used + 1, f, a, g1, b).files);
  }

  lemma ReadFirst(used: nat, f: M.File, a: Name, g: M.File, b: Name, x: byte, z: byte)
    requires a != b && f.size == 1025 && f.stored == Overlay(Overlay([], 1024, 0, [x]), 2048, 1024, [z])
    ensures Acts(Two(used, f, a, g, b), CallRead(a, 1023, 7), Two(used, f, a, g, b), Data(Ok([0, z])))
  {
    hide Acts, M.Answer;
    ReadFrom(Two(used, f, a, g, b), a, 1023, 7);
    ReadsBack(Two(used, f, a, g, b), f, x, z);
  }

  lemma TwoSize(used: nat, f: M.File, a: Name, g: M.File, b: Name)
    ensures Two(used, f, a, g, b).blockSize == 1024
  {
  }

  lemma FourWrites(a: Name, b: Name, x: byte, y: byte, z: byte) returns (m5: M.System)
    requires a != b
    ensures Gives(M.Fresh(1024, 20, 20), InTurnCalls(a, b, x, y, z), m5, InTurnReplies(z))
  {
    var empty := M.File(2, 0, 0, [], 0, 0);
    var other := empty.(number := 3);
    var a1, b1 := M.File(2, 1, 1, Overlay([], 1024, 0, [x]), 1, 4), M.File(3, 1, 1, Overlay([], 1024, 0, [y]), 1, 5);
    var a2 := M.File(2, 1025, 2, Overlay(a1.stored, 2048, 1024, [z]), 2, 6);
    FirstByte(Two(3, empty, a, other, b), empty, x);
    FirstByte(Two(4, a1, a, other, b), other, y);
    SecondBlock(Two(5, a1, a, b1, b), a1, z);
    hide Acts, Two, M.Written, M.Fresh, Gives, InTurnCalls, InTurnReplies, Overlay;
    m5 := Two(6, a2, a, b1, b);
    TwoCreations(a, b);
    WriteFirst(3, empty, a, other, b, 0, [x], a1, Ok(1));
    WriteSecond(4, a1, a, other, b, 0, [y], b1, Ok(1));
    WriteFirst(5, a1, a, b1, b, 1024, [z], a2, Ok(1));
    ReadFirst(6, a2, a, b1, b, x, z);
    assert m5.blockSize >= 8 by { TwoSize(6, a2, a, b1, b); }
    SixCalls(M.Fresh(1024, 20, 20), M.System(1024, 20, 20, 2, map[a := empty]), Two(3, empty, a, other, b),
             Two(4, a1, a, other, b), Two(5, a1, a, b1, b), m5, a, b, x, y, z);
  }

  /** Two files written in turn: the second block of the first one takes a second extent, for which
      its table has room, and what was written around the block boundary reads back. */
  lemma InTurn(a: Name, b: Name, x: byte, y: byte, z: byte)
    requires a != b
    ensures Replies(Mount(1024, 20, 20), InTurnCalls(a, b, x, y, z)) == InTurnReplies(z)
  {
    hide Mount, Gives, InTurnCalls, InTurnReplies, AllSensible;
    var m5 := FourWrites(a, b, x, y, z);
    MountedGives(1024, 20, 20, InTurnCalls(a, b, x, y, z), m5, InTurnReplies(z));
  }

  // ---------------------------------------------------------------- a gap

  lemma GapOverwrite(x: byte)
    ensures Overwrite([], 3, [x]) == [0, 0, 0, x]
  {
  }

  lemma GapCreation(a: Name)
    ensures var m1 := M.System(1024, 20, 20, 2, map[a := M.File(2, 0, 0, [], 0, 0)]);
            Acts(M.Fresh(1024, 20, 20), CallCreate(a), m1, Number(Ok(2)))
  {
    var m0 := M.Fresh(1024, 20, 20);
    CreationReply(m0, a);
    Create1(m0, a);
    assert M.Created(m0, a).0.files == map[a := M.File(2, 0, 0, [], 0, 0)];
    hide M.Created, Acts;
  }

  lemma GapPlace(b: nat)
    requires 8 <= b < U32
    ensures BlockOf(3, b) == LogicalBlock(3, b) == 0 && Home(3, b) == 3 && Needed(3, 1, 0, b) == 1
  {
    DivModUnique(3, 0, 3, b);
    hide BlockOf, OffsetOf, Home;
    HomeBlock(3, b);
  }

  lemma GapIsGentle(m: M.System, a: M.File, x: byte)
    requires m == M.System(1024, 20, 20, 2, m.files) && a == M.File(2, 0, 0, [], 0, 0)
    ensures Gentle(m, a, 3, [x])
    ensures M.Written(m, a, 3, [x]).1 == Ok(1)
  {
    hide Home, LogicalBlock, Needed, BlockOf, MaxExtents, Overlay;
    GapPlace(1024);
  }

  lemma GapReplies(a: Name, x: byte)
    ensures Replies(Mount(1024, 20, 20), [CallCreate(a), CallWrite(a, 3, [x])]) == [Number(Ok(2)), Number(Ok(1))]
  {
    var m0, empty := M.Fresh(1024, 20, 20), M.File(2, 0, 0, [], 0, 0);
    var m1 := M.System(1024, 20, 20, 2, map[a := empty]);
    GapCreation(a);
    GapIsGentle(m1, empty, x);
    var (a1, r) := M.Written(m1, empty, 3, [x]);
    var m2 := m1.(used := m1.used + (a1.blocks - empty.blocks), files := m1.files[a := a1]);
    WriteTo(m1, a, empty, 3, [x], a1, r, m2.files);
    hide Acts, M.Written, M.Fresh, Mount, Gives;
    NoCalls(m2);
    OneMore(m1, CallWrite(a, 3, [x]), m2, Number(Ok(1)), [], m2, []);
    OneMore(m0, CallCreate(a), m1, Number(Ok(2)), [CallWrite(a, 3, [x])] + [], m2, [Number(Ok(1))] + []);
    assert [CallCreate(a)] + ([CallWrite(a, 3, [x])] + []) == [CallCreate(a), CallWrite(a, 3, [x])];
    MountedGives(1024, 20, 20, [CallCreate(a), CallWrite(a, 3, [x])], m2, [Number(Ok(2)), Number(Ok(1))]);
  }

  lemma GapRunIsGentle(a: Name, x: byte)
    ensures GentleRun(M.Fresh(1024, 20, 20), a, [CallCreate(a), CallWrite(a, 3, [x])])
  {
    var m0, empty := M.Fresh(1024, 20, 20), M.File(2, 0, 0, [], 0, 0);
    var m1 := M.System(1024, 20, 20, 2, map[a := empty]);
    var calls := [CallCreate(a), CallWrite(a, 3, [x])];
    GapCreation(a);
    GapIsGentle(m1, empty, x);
    assert calls[1..] == [CallWrite(a, 3, [x])] && calls[1..][1..] == [];
    hide M.Act, Gentle;
    assert GentleRun(m1, a, calls[1..]);
  }

  /** The fold over the two calls. */
  lemma GapEntry(a: Name, x: byte, calls: seq<Call>, rs: seq<Reply>)
    requires calls == [CallCreate(a), CallWrite(a, 3, [x])] && rs == [Number(Ok(2)), Number(Ok(1))]
    ensures EntryAfter(Absent, 1024, a, calls, rs) == Present(2, [0, 0, 0, x])
  {
    assert calls[1..] == [CallWrite(a, 3, [x])] && calls[1..][1..] == [];
    assert rs[1..] == [Number(Ok(1))] && rs[1..][1..] == [];
    GapOverwrite(x);
    hide Overwrite;
    assert EntryAfter(Present(2, []), 1024, a, calls[1..], rs[1..]) == Present(2, [0, 0, 0, x]);
  }

  /** One file, one byte at position 3: a gentle run, and the gap reads as zeros. */
  lemma Gap(a: Name, x: byte)
    ensures GentleRun(M.Fresh(1024, 20, 20), a, [CallCreate(a), CallWrite(a, 3, [x])])
    ensures var fs := After(Mount(1024, 20, 20), [CallCreate(a), CallWrite(a, 3, [x])]);
            EntryOf(fs, a) == Present(2, [0, 0, 0, x])
  {
    hide GentleRun, M.Fresh, Mount, EntryAfter, AllAnswered, EntryOf, Replies, After;
    var calls := [CallCreate(a), CallWrite(a, 3, [x])];
    GapRunIsGentle(a, x);
    GapReplies(a, x);
    MountedContents(1024, 20, 20, calls, a);
    GapEntry(a, x, calls, [Number(Ok(2)), Number(Ok(1))]);
  }
}
