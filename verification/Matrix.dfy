/** The matrix product of lab3, three ways: sequential (lab3/2/2_1.c), with the inner dimension
    split between two threads under a spin lock (lab3/2/2_2.c), and with the rows split and no
    lock (lab3/3/3_1/3_1.c). */
module Matrix {
  import opened Arith

  type Rows = seq<seq<int>>

  ghost predicate Size(a: Rows, rows: nat, cols: nat) {
    |a| == rows && forall i :: 0 <= i < rows ==> |a[i]| == cols
  }

  /** x is rows by inner, y is inner by cols. */
  ghost predicate Factors(x: Rows, y: Rows, rows: nat, inner: nat, cols: nat) {
    Size(x, rows, inner) && Size(y, inner, cols)
  }

  /** The sum of x[i][k] * y[k][j] for lo <= k < hi. */
  ghost function Dot(x: Rows, y: Rows, i: nat, j: nat, lo: nat, hi: nat): int
    requires i < |x| && lo <= hi <= |x[i]| && hi <= |y|
    requires forall k :: 0 <= k < |y| ==> j < |y[k]|
    decreases hi
  {
    if lo == hi then 0 else Dot(x, y, i, j, lo, hi - 1) + x[i][hi - 1] * y[hi - 1][j]
  }

  lemma {:induction false} DotSplit(x: Rows, y: Rows, i: nat, j: nat, lo: nat, mid: nat, hi: nat)
    requires i < |x| && lo <= mid <= hi <= |x[i]| && hi <= |y|
    requires forall k :: 0 <= k < |y| ==> j < |y[k]|
    ensures Dot(x, y, i, j, lo, hi) == Dot(x, y, i, j, lo, mid) + Dot(x, y, i, j, mid, hi)
    decreases hi
  {
    if mid < hi {
      DotSplit(x, y, i, j, lo, mid, hi - 1);
    }
  }

  ghost predicate IsProduct(x: Rows, y: Rows, z0: Rows, z: Rows, rows: nat, inner: nat, cols: nat)
    requires Factors(x, y, rows, inner, cols) && Size(z0, rows, cols)
  {
    Size(z, rows, cols) &&
    forall i, j :: 0 <= i < rows && 0 <= j < cols ==> z[i][j] == z0[i][j] + Dot(x, y, i, j, 0, inner)
  }

  function ZeroMatrix(rows: nat, cols: nat): (z: Rows)
    ensures |z| == rows && forall i :: 0 <= i < rows ==> |z[i]| == cols
    ensures forall i, j :: 0 <= i < rows && 0 <= j < cols ==> z[i][j] == 0
  {
    seq(rows, _ => seq(cols, _ => 0))
  }

  /** The smallest instance with every entry different, worked out. */
  lemma DotExample()
    ensures var x, y := [[1, 2], [3, 4]], [[5, 6], [7, 8]];
            && Factors(x, y, 2, 2, 2)
            && Dot(x, y, 0, 0, 0, 2) == 19 && Dot(x, y, 0, 1, 0, 2) == 22
            && Dot(x, y, 1, 0, 0, 2) == 43 && Dot(x, y, 1, 1, 0, 2) == 50
  {
    var x, y := [[1, 2], [3, 4]], [[5, 6], [7, 8]];
    assert forall i, j | 0 <= i < 2 && 0 <= j < 2 ::
        Dot(x, y, i, j, 0, 2) == Dot(x, y, i, j, 0, 1) + x[i][1] * y[1][j]
        && Dot(x, y, i, j, 0, 1) == Dot(x, y, i, j, 0, 0) + x[i][0] * y[0][j];
  }

  /** lab3/2/2_1.c:47-64: row by row, with the sum of each cell in `res`. */
  method Sequential(x: Rows, y: Rows, rows: nat, inner: nat, cols: nat) returns (z: Rows)
    requires Factors(x, y, rows, inner, cols)
    ensures IsProduct(x, y, ZeroMatrix(rows, cols), z, rows, inner, cols)
    ensures |z| == rows && forall i :: 0 <= i < rows ==> |z[i]| == cols
    ensures forall i, j :: 0 <= i < rows && 0 <= j < cols ==> z[i][j] == Dot(x, y, i, j, 0, inner)
  {
    z := [];
    var i := 0;
    while i < rows
      invariant 0 <= i <= rows && |z| == i
      invariant forall r :: 0 <= r < i ==> |z[r]| == cols
      invariant forall r, c :: 0 <= r < i && 0 <= c < cols ==> z[r][c] == Dot(x, y, r, c, 0, inner)
    {
      var row: seq<int> := [];
      var j := 0;
      while j < cols
        invariant 0 <= j <= cols && |row| == j
        invariant forall c :: 0 <= c < j ==> row[c] == Dot(x, y, i, c, 0, inner)
      {
        var res := 0;
        var k := 0;
        while k < inner
          invariant 0 <= k <= inner && res == Dot(x, y, i, j, 0, k)
        {
          res := res + x[i][k] * y[k][j];
          k := k + 1;
        }
        row := row + [res];
        j := j + 1;
      }
      z := z + [row];
      i := i + 1;
    }
  }

  // ---------------------------------------------------------------- two threads

  /** What a thread does next: check its loops, take the lock, load, store, release the lock. */
  datatype At = Loops | Acquire | Load | Store | Release | Done

  /** The part of the product a thread computes: rows iLo..iHi, all columns, k from kLo to kHi. */
  datatype Share = Share(iLo: nat, iHi: nat, kLo: nat, kHi: nat)

  datatype Thread = Thread(at: At, i: nat, j: nat, k: nat, reg: int)

  datatype System = System(z: Rows, locked: bool, t1: Thread, t2: Thread)

  /** What both threads are given. `guarded` says whether they use the lock. */
  datatype Job = Job(x: Rows, y: Rows, z0: Rows, rows: nat, inner: nat, cols: nat, s1: Share, s2: Share, guarded: bool)

  ghost predicate ShareOk(s: Share, rows: nat, inner: nat) {
    s.iLo <= s.iHi <= rows && s.kLo <= s.kHi <= inner
  }

  /** Without the lock the two threads must work on different rows. */
  ghost predicate JobOk(p: Job) {
    && Factors(p.x, p.y, p.rows, p.inner, p.cols) && Size(p.z0, p.rows, p.cols)
    && ShareOk(p.s1, p.rows, p.inner) && ShareOk(p.s2, p.rows, p.inner)
    && (p.guarded || p.s1.iHi <= p.s2.iLo || p.s2.iHi <= p.s1.iLo)
  }

  function StartThread(s: Share): Thread { Thread(Loops, s.iLo, 0, s.kLo, 0) }

  function Start(p: Job): System { System(p.z0, false, StartThread(p.s1), StartThread(p.s2)) }

  /** The three nested loop heads: next column, next row, or done. */
  function NextIndex(p: Job, s: Share, t: Thread): Thread {
    if t.i >= s.iHi then t.(at := Done)
    else if t.j >= p.cols then t.(i := t.i + 1, j := 0)
    else if t.k >= s.kHi then t.(j := t.j + 1, k := s.kLo)
    else t.(at := if p.guarded then Acquire else Load)
  }

  /** A thread about to load or store has its cell and factors inside the matrices. */
  predicate AtCell(p: Job, t: Thread, z: Rows) {
    t.at in {Load, Store} ==>
      && t.i < |z| && t.j < |z[t.i]|
      && t.i < |p.x| && t.k < |p.x[t.i]| && t.k < |p.y| && t.j < |p.y[t.k]|
  }

  /** The step of one thread on its record, the shared matrix and the lock; `Load` and `Store` of
      `z[i][j] += x[i][k] * y[k][j]` are separate. A thread waiting for the lock stays put. */
  function ThreadStep(p: Job, s: Share, t: Thread, z: Rows, locked: bool): (Thread, Rows, bool)
    requires AtCell(p, t, z)
  {
    match t.at
    case Loops => (NextIndex(p, s, t), z, locked)
    case Acquire => if locked then (t, z, locked) else (t.(at := Load), z, true)
    case Load => (t.(at := Store, reg := z[t.i][t.j]), z, locked)
    case Store =>
      (t.(at := if p.guarded then Release else Loops, k := t.k + 1),
       z[t.i := z[t.i][t.j := t.reg + p.x[t.i][t.k] * p.y[t.k][t.j]]], locked)
    case Release => (t.(at := Loops), z, false)
    case Done => (t, z, locked)
  }

  // ---------------------------------------------------------------- invariant

  predicate Holds(t: Thread) { t.at in {Load, Store, Release} }

  /** How far thread `t` has come in the inner loop for cell (a, b): the k it will add next. */
  function Progress(s: Share, t: Thread, a: nat, b: nat): nat {
    if a < s.iLo || a >= s.iHi || a > t.i then s.kLo
    else if a < t.i then s.kHi
    else if b < t.j then s.kHi
    else if b > t.j then s.kLo
    else t.k
  }

  /** The loop variables are in range. */
  ghost predicate InRange(p: Job, s: Share, t: Thread) {
    && s.iLo <= t.i <= s.iHi && t.j <= p.cols && s.kLo <= t.k <= s.kHi
    && (t.i == s.iHi ==> t.j == 0)
    && (t.j == p.cols || t.i == s.iHi ==> t.k == s.kLo)
    && (t.at in {Acquire, Load, Store} ==> t.i < s.iHi && t.j < p.cols && t.k < s.kHi)
    && (t.at == Release ==> t.i < s.iHi && t.j < p.cols && t.k <= s.kHi)
    && (t.at == Done ==> t.i == s.iHi)
    && (t.at in {Acquire, Release} ==> p.guarded)
  }

  /** Each cell holds its first value plus what the two threads have added so far. */
  ghost predicate Sums(p: Job, s: System)
    requires JobOk(p) && InRange(p, p.s1, s.t1) && InRange(p, p.s2, s.t2)
  {
    Size(s.z, p.rows, p.cols) &&
    forall a, b :: 0 <= a < p.rows && 0 <= b < p.cols ==>
      s.z[a][b] == p.z0[a][b] + Dot(p.x, p.y, a, b, p.s1.kLo, Progress(p.s1, s.t1, a, b))
                              + Dot(p.x, p.y, a, b, p.s2.kLo, Progress(p.s2, s.t2, a, b))
  }

  ghost predicate Fresh(s: System, t: Thread)
    requires t.at == Store ==> t.i < |s.z| && t.j < |s.z[t.i]|
  {
    t.at == Store ==> t.reg == s.z[t.i][t.j]
  }

  ghost predicate Inv(p: Job, s: System) {
    && JobOk(p) && InRange(p, p.s1, s.t1) && InRange(p, p.s2, s.t2)
    && Sums(p, s) && Fresh(s, s.t1) && Fresh(s, s.t2)
    && (p.guarded ==> (s.locked <==> Holds(s.t1) || Holds(s.t2)) && !(Holds(s.t1) && Holds(s.t2)))
  }

  function Step(p: Job, s: System, first: bool): System
    requires AtCell(p, s.t1, s.z) && AtCell(p, s.t2, s.z)
  {
    if first then
      var (t, z, l) := ThreadStep(p, p.s1, s.t1, s.z, s.locked);
      System(z, l, t, s.t2)
    else
      var (t, z, l) := ThreadStep(p, p.s2, s.t2, s.z, s.locked);
      System(z, l, s.t1, t)
  }

  lemma StartInv(p: Job)
    requires JobOk(p)
    ensures Inv(p, Start(p))
  {
  }

  // ---------------------------------------------------------------- steps keep the invariant

  lemma IndexKeepsProgress(p: Job, s: Share, t: Thread, a: nat, b: nat)
    requires InRange(p, s, t) && t.at == Loops && b < p.cols
    ensures InRange(p, s, NextIndex(p, s, t))
    ensures Progress(s, NextIndex(p, s, t), a, b) == Progress(s, t, a, b)
  {
  }

  lemma StoreProgress(s: Share, t: Thread, t1: Thread, a: nat, b: nat)
    requires s.iLo <= t.i < s.iHi && t1.i == t.i && t1.j == t.j && t1.k == t.k + 1
    ensures Progress(s, t1, a, b) == if a == t.i && b == t.j then Progress(s, t, a, b) + 1 else Progress(s, t, a, b)
    ensures Progress(s, t, t.i, t.j) == t.k
  {
  }

  /** The first thread adds one product to one cell. */
  lemma StoreKeepsSums(p: Job, s: System, s1: System)
    requires Inv(p, s) && s.t1.at == Store && s1 == Step(p, s, true)
    ensures InRange(p, p.s1, s1.t1) && Sums(p, s1)
  {
    var t := s.t1;
    assert InRange(p, p.s1, s1.t1);
    assert Size(s1.z, p.rows, p.cols);
    forall a, b | 0 <= a < p.rows && 0 <= b < p.cols
      ensures s1.z[a][b] == p.z0[a][b] + Dot(p.x, p.y, a, b, p.s1.kLo, Progress(p.s1, s1.t1, a, b))
                                       + Dot(p.x, p.y, a, b, p.s2.kLo, Progress(p.s2, s1.t2, a, b))
    {
      StoreProgress(p.s1, t, s1.t1, a, b);
      hide Progress;
      if a == t.i && b == t.j {
        assert Dot(p.x, p.y, a, b, p.s1.kLo, t.k + 1) == Dot(p.x, p.y, a, b, p.s1.kLo, t.k) + p.x[a][t.k] * p.y[t.k][b];
        assert s1.z[a][b] == t.reg + p.x[a][t.k] * p.y[t.k][b];
      } else {
        assert s1.z[a][b] == s.z[a][b];
      }
    }
  }

  lemma QuietKeepsSums(p: Job, s: System, s1: System)
    requires Inv(p, s) && s.t1.at != Store && s1 == Step(p, s, true)
    ensures InRange(p, p.s1, s1.t1) && Sums(p, s1)
  {
    assert InRange(p, p.s1, s1.t1);
    forall a, b | 0 <= a < p.rows && 0 <= b < p.cols
      ensures Progress(p.s1, s1.t1, a, b) == Progress(p.s1, s.t1, a, b)
    {
      if s.t1.at == Loops {
        IndexKeepsProgress(p, p.s1, s.t1, a, b);
      }
    }
    hide Progress;
  }

  lemma FirstKeepsInv(p: Job, s: System)
    requires Inv(p, s)
    ensures Inv(p, Step(p, s, true))
  {
    var s1 := Step(p, s, true);
    if s.t1.at == Store {
      StoreKeepsSums(p, s, s1);
      assert s.t2.at == Store && p.guarded ==> Holds(s.t1) && Holds(s.t2);
      if s.t2.at == Store {
        assert s1.z[s.t2.i] == s.z[s.t2.i];
      }
    } else {
      QuietKeepsSums(p, s, s1);
    }
    hide Progress, Sums;
  }

  /** The two threads with their names exchanged. */
  function SwapJob(p: Job): Job { p.(s1 := p.s2, s2 := p.s1) }

  function Swap(s: System): System { s.(t1 := s.t2, t2 := s.t1) }

  lemma SwapInv(p: Job, s: System)
    requires Inv(p, s)
    ensures Inv(SwapJob(p), Swap(s))
  {
    hide Progress;
  }

  lemma SecondKeepsInv(p: Job, s: System)
    requires Inv(p, s)
    ensures Inv(p, Step(p, s, false))
  {
    SwapInv(p, s);
    FirstKeepsInv(SwapJob(p), Swap(s));
    assert ThreadStep(SwapJob(p), p.s2, s.t2, s.z, s.locked) == ThreadStep(p, p.s2, s.t2, s.z, s.locked);
    var s1 := Step(SwapJob(p), Swap(s), true);
    SwapInv(SwapJob(p), s1);
    assert SwapJob(SwapJob(p)) == p && Swap(s1) == Step(p, s, false);
  }

  // ---------------------------------------------------------------- every interleaving

  /** One turn; a thread waiting for the lock, or done, lets it pass. */
  ghost function Turn(p: Job, s: System, first: bool): (r: System)
    requires Inv(p, s)
    ensures Inv(p, r) && r == Step(p, s, first)
  {
    FirstKeepsInv(p, s);
    SecondKeepsInv(p, s);
    Step(p, s, first)
  }

  ghost function After(p: Job, s: System, schedule: seq<bool>): (r: System)
    requires Inv(p, s)
    ensures Inv(p, r)
    decreases |schedule|
  {
    if schedule == [] then s else After(p, Turn(p, s, schedule[0]), schedule[1..])
  }

  ghost function Result(p: Job, schedule: seq<bool>): (r: System)
    requires JobOk(p)
    ensures Inv(p, r)
  {
    StartInv(p);
    After(p, Start(p), schedule)
  }

  ghost predicate Finished(s: System) { s.t1.at == Done && s.t2.at == Done }

  /** What the two threads leave when both are done, under any interleaving. */
  lemma FinishedSums(p: Job, schedule: seq<bool>, a: nat, b: nat)
    requires JobOk(p) && Finished(Result(p, schedule)) && a < p.rows && b < p.cols
    ensures var s := Result(p, schedule);
            s.z[a][b] == p.z0[a][b] + (if p.s1.iLo <= a < p.s1.iHi then Dot(p.x, p.y, a, b, p.s1.kLo, p.s1.kHi) else 0)
                                    + (if p.s2.iLo <= a < p.s2.iHi then Dot(p.x, p.y, a, b, p.s2.kLo, p.s2.kHi) else 0)
  {
    var s := Result(p, schedule);
    assert Inv(p, s);
    assert Progress(p.s1, s.t1, a, b) == if p.s1.iLo <= a < p.s1.iHi then p.s1.kHi else p.s1.kLo;
    assert Progress(p.s2, s.t2, a, b) == if p.s2.iLo <= a < p.s2.iHi then p.s2.kHi else p.s2.kLo;
  }

  /** Until both are done, one of the threads can change something: the lock never blocks both. */
  lemma NoDeadlock(p: Job, s: System)
    requires Inv(p, s) && !Finished(s)
    ensures Step(p, s, true) != s || Step(p, s, false) != s
  {
    if s.t1.at == Done || (s.t1.at == Acquire && s.locked) {
      assert s.t2.at != Done;
      assert Step(p, s, false).t2 != s.t2;
    } else {
      assert Step(p, s, true).t1 != s.t1;
    }
  }

  /** The job of lab3/2/2_2.c: all rows, the inner dimension cut at `mid`, with the lock. */
  ghost function InnerSplit(x: Rows, y: Rows, z0: Rows, rows: nat, inner: nat, cols: nat, mid: nat): (p: Job)
    requires Factors(x, y, rows, inner, cols) && Size(z0, rows, cols) && mid <= inner
    ensures JobOk(p)
  {
    Job(x, y, z0, rows, inner, cols, Share(0, rows, 0, mid), Share(0, rows, mid, inner), true)
  }

  /** The job of lab3/3/3_1/3_1.c: the rows cut at `mid`, all of the inner dimension, no lock. */
  ghost function RowSplit(x: Rows, y: Rows, z0: Rows, rows: nat, inner: nat, cols: nat, mid: nat): (p: Job)
    requires Factors(x, y, rows, inner, cols) && Size(z0, rows, cols) && mid <= rows
    ensures JobOk(p)
  {
    Job(x, y, z0, rows, inner, cols, Share(0, mid, 0, inner), Share(mid, rows, 0, inner), false)
  }

  /** The inner dimension split at any point, under any interleaving. */
  lemma InnerSplitIsProduct(x: Rows, y: Rows, z0: Rows, rows: nat, inner: nat, cols: nat, mid: nat, schedule: seq<bool>)
    requires Factors(x, y, rows, inner, cols) && Size(z0, rows, cols) && mid <= inner
    requires Finished(Result(InnerSplit(x, y, z0, rows, inner, cols, mid), schedule))
    ensures IsProduct(x, y, z0, Result(InnerSplit(x, y, z0, rows, inner, cols, mid), schedule).z, rows, inner, cols)
  {
    var p := InnerSplit(x, y, z0, rows, inner, cols, mid);
    assert Inv(p, Result(p, schedule));
    forall a, b | 0 <= a < rows && 0 <= b < cols
      ensures Result(p, schedule).z[a][b] == z0[a][b] + Dot(x, y, a, b, 0, inner)
    {
      FinishedSums(p, schedule, a, b);
      DotSplit(x, y, a, b, 0, mid, inner);
    }
  }

  /** The rows split at any point, under any interleaving, without a lock. */
  lemma RowSplitIsProduct(x: Rows, y: Rows, z0: Rows, rows: nat, inner: nat, cols: nat, mid: nat, schedule: seq<bool>)
    requires Factors(x, y, rows, inner, cols) && Size(z0, rows, cols) && mid <= rows
    requires Finished(Result(RowSplit(x, y, z0, rows, inner, cols, mid), schedule))
    ensures IsProduct(x, y, z0, Result(RowSplit(x, y, z0, rows, inner, cols, mid), schedule).z, rows, inner, cols)
  {
    var p := RowSplit(x, y, z0, rows, inner, cols, mid);
    assert Inv(p, Result(p, schedule));
    forall a, b | 0 <= a < rows && 0 <= b < cols
      ensures Result(p, schedule).z[a][b] == z0[a][b] + Dot(x, y, a, b, 0, inner)
    {
      FinishedSums(p, schedule, a, b);
    }
  }

  /** Adding to `z0` gives the product alone exactly when `z0` is zero. */
  lemma SumIsProductIff(x: Rows, y: Rows, z0: Rows, z: Rows, sum: Rows, rows: nat, inner: nat, cols: nat)
    requires Factors(x, y, rows, inner, cols) && Size(z0, rows, cols)
    requires IsProduct(x, y, ZeroMatrix(rows, cols), z, rows, inner, cols)
    requires IsProduct(x, y, z0, sum, rows, inner, cols)
    ensures sum == z <==> forall i, j :: 0 <= i < rows && 0 <= j < cols ==> z0[i][j] == 0
  {
    hide ZeroMatrix;
    assert forall i, j :: 0 <= i < rows && 0 <= j < cols ==> (sum[i][j] == z[i][j] <==> z0[i][j] == 0);
    if forall i, j :: 0 <= i < rows && 0 <= j < cols ==> z0[i][j] == 0 {
      forall i | 0 <= i < rows
        ensures sum[i] == z[i]
      {
        assert |sum[i]| == |z[i]| == cols;
      }
    }
  }

  /** Whatever the cuts and schedules, each threaded form leaves the matrix that the sequential form
      prints exactly when the matrix it adds to was zero. The code does not see to that: it takes
      `z` from `malloc` and never clears it. */
  lemma AllFormsAgreeIff(x: Rows, y: Rows, z0: Rows, rows: nat, inner: nat, cols: nat, z: Rows,
                         mid: nat, schedule: seq<bool>, mid': nat, schedule': seq<bool>)
    requires Factors(x, y, rows, inner, cols) && Size(z0, rows, cols) && mid <= inner && mid' <= rows
    requires IsProduct(x, y, ZeroMatrix(rows, cols), z, rows, inner, cols)
    requires Finished(Result(InnerSplit(x, y, z0, rows, inner, cols, mid), schedule))
    requires Finished(Result(RowSplit(x, y, z0, rows, inner, cols, mid'), schedule'))
    ensures Result(InnerSplit(x, y, z0, rows, inner, cols, mid), schedule).z == z <==>
              forall i, j :: 0 <= i < rows && 0 <= j < cols ==> z0[i][j] == 0
    ensures Result(RowSplit(x, y, z0, rows, inner, cols, mid'), schedule').z == z <==>
              forall i, j :: 0 <= i < rows && 0 <= j < cols ==> z0[i][j] == 0
  {
    InnerSplitIsProduct(x, y, z0, rows, inner, cols, mid, schedule);
    RowSplitIsProduct(x, y, z0, rows, inner, cols, mid', schedule');
    SumIsProductIff(x, y, z0, z, Result(InnerSplit(x, y, z0, rows, inner, cols, mid), schedule).z, rows, inner, cols);
    SumIsProductIff(x, y, z0, z, Result(RowSplit(x, y, z0, rows, inner, cols, mid'), schedule').z, rows, inner, cols);
  }

  // ---------------------------------------------------------------- termination

  /** The most steps a thread takes for one column, and for one row. */
  function ColumnSteps(s: Share): int { 5 * (s.kHi - s.kLo) + 6 }

  function RowSteps(p: Job, s: Share): int { p.cols * ColumnSteps(s) + 2 }

  /** Steps done since the head of the innermost loop; a release has already counted its `k`. */
  function Since(at: At): int {
    match at
    case Loops => 0 case Acquire => 1 case Load => 2 case Store => 3 case Release => -1 case Done => 1
  }

  /** The steps a thread has left, at most. */
  function Left(p: Job, s: Share, t: Thread): int {
    (s.iHi - t.i) * RowSteps(p, s) - t.j * ColumnSteps(s) - 5 * (t.k - s.kLo) - Since(t.at) + 1
  }

  lemma {:induction false} LeftIsNatural(p: Job, s: Share, t: Thread)
    requires InRange(p, s, t)
    ensures Left(p, s, t) >= 0
  {
    var w, r := ColumnSteps(s), RowSteps(p, s);
    if t.i < s.iHi {
      MulNonNegative(s.iHi - t.i - 1, r);
      MulNonNegative(p.cols - t.j, w);
      assert (s.iHi - t.i) * r == (s.iHi - t.i - 1) * r + r;
      assert p.cols * w == (p.cols - t.j) * w + t.j * w;
      if t.j < p.cols {
        MulNonNegative(p.cols - t.j - 1, w);
        assert (p.cols - t.j) * w == (p.cols - t.j - 1) * w + w;
      }
    }
  }

  /** Moving to the next column or row uses up what was reserved for it. */
  lemma {:induction false} LoopsLeft(p: Job, s: Share, t: Thread)
    requires InRange(p, s, t) && t.at == Loops
    ensures Left(p, s, NextIndex(p, s, t)) < Left(p, s, t)
  {
    var w, r := ColumnSteps(s), RowSteps(p, s);
    assert (s.iHi - (t.i + 1)) * r == (s.iHi - t.i) * r - r;
    assert (t.j + 1) * w == t.j * w + w;
  }

  /** A step of the first thread that changes anything leaves less to do. */
  lemma {:induction false} FirstLeft(p: Job, s: System)
    requires Inv(p, s)
    ensures Step(p, s, true).t2 == s.t2
    ensures Step(p, s, true) != s ==> Left(p, p.s1, Step(p, s, true).t1) < Left(p, p.s1, s.t1)
  {
    if s.t1.at == Loops {
      LoopsLeft(p, p.s1, s.t1);
    }
    hide RowSteps, ColumnSteps;
  }

  function TotalLeft(p: Job, s: System): int { Left(p, p.s1, s.t1) + Left(p, p.s2, s.t2) }

  lemma SwapStep(p: Job, s: System)
    requires Inv(p, s) && Inv(SwapJob(p), Swap(s))
    ensures Swap(Step(SwapJob(p), Swap(s), true)) == Step(p, s, false)
  {
    assert ThreadStep(SwapJob(p), p.s2, s.t2, s.z, s.locked) == ThreadStep(p, p.s2, s.t2, s.z, s.locked);
  }

  /** Every turn that changes anything lowers the steps left. */
  lemma {:induction false} TurnsShrinkLeft(p: Job, s: System, first: bool)
    requires Inv(p, s) && Turn(p, s, first) != s
    ensures TotalLeft(p, Turn(p, s, first)) < TotalLeft(p, s)
  {
    if first {
      FirstLeft(p, s);
    } else {
      SwapInv(p, s);
      FirstLeft(SwapJob(p), Swap(s));
      SwapStep(p, s);
      assert Left(SwapJob(p), p.s2, s.t2) == Left(p, p.s2, s.t2);
    }
    hide Left;
  }

  /** Every turn of the schedule changes something. */
  ghost predicate Busy(p: Job, s: System, schedule: seq<bool>)
    requires Inv(p, s)
    decreases |schedule|
  {
    schedule == [] || (Turn(p, s, schedule[0]) != s && Busy(p, Turn(p, s, schedule[0]), schedule[1..]))
  }

  /** A run has no more turns that change something than there are steps left. */
  lemma {:induction false} RunsEnd(p: Job, s: System, schedule: seq<bool>)
    requires Inv(p, s) && Busy(p, s, schedule)
    ensures |schedule| + TotalLeft(p, After(p, s, schedule)) <= TotalLeft(p, s)
    decreases |schedule|
  {
    hide Inv, Turn, TotalLeft;
    if schedule != [] {
      TurnsShrinkLeft(p, s, schedule[0]);
      RunsEnd(p, Turn(p, s, schedule[0]), schedule[1..]);
    }
  }

  lemma {:induction false} TotalLeftIsNatural(p: Job, s: System)
    requires Inv(p, s)
    ensures TotalLeft(p, s) >= 0
  {
    LeftIsNatural(p, p.s1, s.t1);
    LeftIsNatural(p, p.s2, s.t2);
    hide Left, Sums, Fresh;
  }

  /** The threads come to an end: no run has more busy turns than there are steps left at its start,
      and when no turn changes anything any more both are done. */
  lemma Terminates(p: Job, s: System, schedule: seq<bool>)
    requires Inv(p, s) && Busy(p, s, schedule)
    ensures |schedule| <= TotalLeft(p, s)
    ensures var s1 := After(p, s, schedule);
            Turn(p, s1, true) == s1 && Turn(p, s1, false) == s1 ==> Finished(s1)
  {
    var s1 := After(p, s, schedule);
    hide Inv, Turn, Finished, TotalLeft;
    RunsEnd(p, s, schedule);
    TotalLeftIsNatural(p, s1);
    if !Finished(s1) {
      NoDeadlock(p, s1);
    }
  }

  /** Every run can be continued to one in which both threads are done. */
  lemma {:induction false} CanFinish(p: Job, s: System) returns (schedule: seq<bool>)
    requires Inv(p, s)
    ensures Busy(p, s, schedule) && Finished(After(p, s, schedule))
    decreases TotalLeft(p, s) + 1
  {
    hide Inv, Turn, Finished, TotalLeft;
    TotalLeftIsNatural(p, s);
    if Finished(s) {
      schedule := [];
    } else {
      NoDeadlock(p, s);
      var first := Turn(p, s, true) != s;
      TurnsShrinkLeft(p, s, first);
      TotalLeftIsNatural(p, Turn(p, s, first));
      var rest := CanFinish(p, Turn(p, s, first));
      schedule := [first] + rest;
      assert schedule[1..] == rest;
    }
  }
}
