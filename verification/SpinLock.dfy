/** The xchg spin lock of lab3/1/1_2 and the counter it protects, for any number of threads.
    One step is one access to shared memory or one branch; the scheduler picks the thread. */
module SpinLock {
  const LOCK := 0
  const UNLOCK := 1

  /** What a thread does next: exchange, test what it got, load, store, release, or nothing. */
  datatype At = Exchange | Test | Load | Store | Release | Done

  /** `eax` is the register of the lock, `reg` the loaded counter, `left` the iterations to go
      and `stored` the increments already stored. */
  datatype Thread = Thread(at: At, eax: int, reg: int, left: int, stored: nat)

  datatype System = System(lock: int, a: int, threads: seq<Thread>)

  function Fresh(count: nat): Thread { Thread(if count == 0 then Done else Exchange, 0, 0, count, 0) }

  /** Each thread is about to run its loop `counts[i]` times (lab3/1/1_2/1_2.c:39-47). */
  function Start(counts: seq<nat>): System {
    System(UNLOCK, 0, seq(|counts|, i requires 0 <= i < |counts| => Fresh(counts[i])))
  }

  /** One step of thread `t` (lab3/1/1_2/1_2.c:14-48): `xchg`, `sub` and `js`, the load and the
      store of `a = a + 1`, and the `xchg` that releases. */
  function Step(s: System, t: nat): System
    requires t < |s.threads|
  {
    var th := s.threads[t];
    match th.at
    case Exchange => s.(lock := LOCK, threads := s.threads[t := th.(at := Test, eax := s.lock)])
    case Test => s.(threads := s.threads[t := th.(at := if th.eax - 1 < 0 then Exchange else Load)])
    case Load => s.(threads := s.threads[t := th.(at := Store, reg := s.a)])
    case Store =>
      var stored := th.(at := Release, stored := th.stored + 1, left := th.left - 1);
      s.(a := th.reg + 1, threads := s.threads[t := stored])
    case Release =>
      var released := th.(at := if th.left == 0 then Done else Exchange, eax := s.lock);
      s.(lock := UNLOCK, threads := s.threads[t := released])
    case Done => s
  }

  function After(s: System, schedule: seq<nat>): System
    requires forall i :: 0 <= i < |schedule| ==> schedule[i] < |s.threads|
    decreases |schedule|
  {
    if schedule == [] then s
    else
      assert |Step(s, schedule[0]).threads| == |s.threads|;
      After(Step(s, schedule[0]), schedule[1..])
  }

  // ---------------------------------------------------------------- invariant

  /** The thread got UNLOCK out of the lock word and has not put it back. */
  predicate Inside(th: Thread) {
    th.at in {Load, Store, Release} || (th.at == Test && th.eax == UNLOCK)
  }

  function Total(threads: seq<Thread>): nat {
    if threads == [] then 0 else Total(threads[..|threads| - 1]) + threads[|threads| - 1].stored
  }

  ghost predicate OneInside(s: System) {
    forall t, u :: 0 <= t < |s.threads| && 0 <= u < |s.threads| && Inside(s.threads[t]) && Inside(s.threads[u]) ==>
      t == u
  }

  ghost predicate HasInside(s: System) {
    exists t :: 0 <= t < |s.threads| && Inside(s.threads[t])
  }

  /** At most one thread is inside, and the lock word is LOCK exactly when one is. */
  ghost predicate Exclusive(s: System) {
    && (s.lock == LOCK || s.lock == UNLOCK)
    && OneInside(s) && (s.lock == LOCK <==> HasInside(s))
  }

  /** What holds of one thread: its increments and its registers. */
  predicate Local(s: System, th: Thread, count: nat) {
    && th.stored + th.left == count && 0 <= th.left
    && (th.at == Test ==> th.eax == LOCK || th.eax == UNLOCK)
    && (th.at == Store ==> th.reg == s.a)
    && (th.at == Done <==> th.left == 0 && th.at != Release)
  }

  ghost predicate Locals(s: System, counts: seq<nat>) {
    |s.threads| == |counts| && forall t :: 0 <= t < |s.threads| ==> Local(s, s.threads[t], counts[t])
  }

  ghost predicate Inv(s: System, counts: seq<nat>) {
    Exclusive(s) && Locals(s, counts) && s.a == Total(s.threads)
  }

  lemma {:induction false} TotalUpdate(threads: seq<Thread>, t: nat, th: Thread)
    requires t < |threads|
    ensures Total(threads[t := th]) == Total(threads) - threads[t].stored + th.stored
  {
    var n := |threads| - 1;
    if t == n {
      assert threads[t := th][..n] == threads[..n];
    } else {
      assert threads[t := th][..n] == threads[..n][t := th];
      TotalUpdate(threads[..n], t, th);
    }
  }

  lemma {:induction false} StartTotal(threads: seq<Thread>)
    requires forall t :: 0 <= t < |threads| ==> threads[t].stored == 0
    ensures Total(threads) == 0
  {
    if threads != [] {
      StartTotal(threads[..|threads| - 1]);
    }
  }

  lemma StartInv(counts: seq<nat>)
    ensures Inv(Start(counts), counts)
  {
    StartTotal(Start(counts).threads);
  }

  /** A step changes the record of its thread only. */
  lemma StepsOne(s: System, t: nat)
    requires t < |s.threads|
    ensures |Step(s, t).threads| == |s.threads|
    ensures Step(s, t).threads == s.threads[t := Step(s, t).threads[t]]
    ensures forall u :: 0 <= u < |s.threads| && u != t ==> Step(s, t).threads[u] == s.threads[u]
  {
  }

  /** How a step changes the lock word and who is inside. */
  lemma StepOfLock(s: System, counts: seq<nat>, t: nat)
    requires Exclusive(s) && Locals(s, counts) && t < |s.threads|
    ensures var s1 := Step(s, t);
            && |s1.threads| == |s.threads|
            && if s.threads[t].at == Exchange then
                 s1.lock == LOCK && (Inside(s1.threads[t]) <==> s.lock == UNLOCK)
               else if s.threads[t].at == Release then
                 s1.lock == UNLOCK && !Inside(s1.threads[t])
               else
                 s1.lock == s.lock && Inside(s1.threads[t]) == Inside(s.threads[t])
  {
    assert Local(s, s.threads[t], counts[t]);
    hide Exclusive, Locals;
  }

  lemma ReleasesInside(th: Thread)
    requires th.at == Release
    ensures Inside(th)
  {
  }

  /** The thread inside stays inside until it releases the lock. */
  lemma StillInside(s: System, counts: seq<nat>, t: nat, u: nat)
    requires Exclusive(s) && Locals(s, counts) && t < |s.threads| && u < |s.threads| && Inside(s.threads[u])
    ensures |Step(s, t).threads| == |s.threads|
    ensures Step(s, t).lock == LOCK ==> Inside(Step(s, t).threads[u])
  {
    StepsOne(s, t);
    StepOfLock(s, counts, t);
    hide Step, Locals, Exclusive;
  }

  lemma StepKeepsExclusive(s: System, counts: seq<nat>, t: nat)
    requires Exclusive(s) && Locals(s, counts) && t < |s.threads|
    ensures Exclusive(Step(s, t))
  {
    var s1 := Step(s, t);
    StepsOne(s, t);
    StepOfLock(s, counts, t);
    hide Step, Locals, Inside;
    if s1.lock == LOCK {
      if s.lock == LOCK {
        var u :| 0 <= u < |s.threads| && Inside(s.threads[u]);
        assert Inside(s1.threads[u]) || s.threads[t].at == Exchange || u != t;
        assert s1.threads[u] == s.threads[u] || u == t;
        StillInside(s, counts, t, u);
      } else {
        assert Inside(s1.threads[t]);
      }
    } else if s.threads[t].at == Release {
      assert Inside(s.threads[t]) by { ReleasesInside(s.threads[t]); }
    }
  }

  lemma StepKeepsLocals(s: System, counts: seq<nat>, t: nat)
    requires Exclusive(s) && Locals(s, counts) && t < |s.threads|
    ensures Locals(Step(s, t), counts)
  {
    var s1 := Step(s, t);
    StepsOne(s, t);
    forall u | 0 <= u < |s.threads|
      ensures Local(s1, s1.threads[u], counts[u])
    {
      assert Local(s, s.threads[u], counts[u]);
      if u != t && s.threads[t].at == Store {
        assert !Inside(s.threads[u]);
      }
      hide Locals, Exclusive;
    }
  }

  lemma StepKeepsInv(s: System, counts: seq<nat>, t: nat)
    requires Inv(s, counts) && t < |s.threads|
    ensures Inv(Step(s, t), counts)
  {
    StepsOne(s, t);
    TotalUpdate(s.threads, t, Step(s, t).threads[t]);
    StepKeepsExclusive(s, counts, t);
    StepKeepsLocals(s, counts, t);
    assert Local(s, s.threads[t], counts[t]);
    hide Total, Locals, Exclusive;
  }

  // ---------------------------------------------------------------- every interleaving

  ghost predicate Schedule(schedule: seq<nat>, n: nat) {
    forall i :: 0 <= i < |schedule| ==> schedule[i] < n
  }

  lemma {:induction false} AfterKeepsInv(s: System, counts: seq<nat>, schedule: seq<nat>)
    requires Inv(s, counts) && Schedule(schedule, |counts|)
    ensures Inv(After(s, schedule), counts)
    decreases |schedule|
  {
    assert |s.threads| == |counts|;
    hide Inv;
    if schedule != [] {
      StepKeepsInv(s, counts, schedule[0]);
      assert |Step(s, schedule[0]).threads| == |s.threads|;
      AfterKeepsInv(Step(s, schedule[0]), counts, schedule[1..]);
    }
  }

  function Sum(counts: seq<nat>): nat {
    if counts == [] then 0 else Sum(counts[..|counts| - 1]) + counts[|counts| - 1]
  }

  lemma {:induction false} TotalOfDone(threads: seq<Thread>, counts: seq<nat>)
    requires |threads| == |counts| && forall t :: 0 <= t < |threads| ==> threads[t].stored == counts[t]
    ensures Total(threads) == Sum(counts)
  {
    if threads != [] {
      TotalOfDone(threads[..|threads| - 1], counts[..|counts| - 1]);
    }
  }

  /** Mutual exclusion and the lock word: it is UNLOCK exactly when nobody is inside. */
  lemma MutualExclusion(counts: seq<nat>, schedule: seq<nat>)
    requires Schedule(schedule, |counts|)
    ensures var s := After(Start(counts), schedule);
            && (s.lock == 1 <==> !HasInside(s)) && (s.lock == 0 <==> HasInside(s))
            && OneInside(s)
            && forall t, u ::
                 && 0 <= t < |s.threads| && s.threads[t].at in {Load, Store, Release}
                 && 0 <= u < |s.threads| && s.threads[u].at in {Load, Store, Release} ==>
                   t == u
  {
    StartInv(counts);
    AfterKeepsInv(Start(counts), counts, schedule);
  }

  ghost predicate AllDone(s: System) {
    forall t :: 0 <= t < |s.threads| ==> s.threads[t].at == Done
  }

  /** No increment is lost: at any time the counter is the number of increments stored, and when
      all threads are done it is the sum of their iteration counts. */
  lemma NoLostUpdate(counts: seq<nat>, schedule: seq<nat>)
    requires Schedule(schedule, |counts|)
    ensures var s := After(Start(counts), schedule);
            && s.a == Total(s.threads) && |s.threads| == |counts|
            && (AllDone(s) ==> s.a == Sum(counts))
  {
    StartInv(counts);
    AfterKeepsInv(Start(counts), counts, schedule);
    var s := After(Start(counts), schedule);
    if AllDone(s) {
      forall t | 0 <= t < |s.threads|
        ensures s.threads[t].stored == counts[t]
      {
        assert Local(s, s.threads[t], counts[t]);
      }
      TotalOfDone(s.threads, counts);
    }
  }

  // ---------------------------------------------------------------- progress

  /** The steps a thread has left if it always gets the lock at once. */
  function Left(th: Thread): int {
    5 * th.left -
    match th.at
    case Exchange => 0
    case Test => if th.eax == UNLOCK then 1 else 0
    case Load => 2
    case Store => 3
    case Release => -1
    case Done => 0
  }

  function TotalLeft(threads: seq<Thread>): int {
    if threads == [] then 0 else TotalLeft(threads[..|threads| - 1]) + Left(threads[|threads| - 1])
  }

  lemma {:induction false} LeftUpdate(threads: seq<Thread>, t: nat, th: Thread)
    requires t < |threads|
    ensures TotalLeft(threads[t := th]) == TotalLeft(threads) - Left(threads[t]) + Left(th)
  {
    var n := |threads| - 1;
    if t == n {
      assert threads[t := th][..n] == threads[..n];
    } else {
      assert threads[t := th][..n] == threads[..n][t := th];
      LeftUpdate(threads[..n], t, th);
    }
  }

  lemma {:induction false} LeftIsNatural(threads: seq<Thread>)
    requires forall t :: 0 <= t < |threads| ==> Left(threads[t]) >= 0
    ensures TotalLeft(threads) >= 0
  {
    if threads != [] {
      LeftIsNatural(threads[..|threads| - 1]);
    }
  }

  /** Spinning costs nothing and every other step lowers what is left: a thread moves on when it is
      inside, or finds the lock free. */
  lemma StepsLowerLeft(s: System, counts: seq<nat>, t: nat)
    requires Inv(s, counts) && t < |s.threads|
    ensures TotalLeft(Step(s, t).threads) <= TotalLeft(s.threads)
    ensures Inside(s.threads[t]) || (s.threads[t].at == Exchange && s.lock == UNLOCK) ==>
              TotalLeft(Step(s, t).threads) < TotalLeft(s.threads)
  {
    assert Local(s, s.threads[t], counts[t]);
    var th := Step(s, t).threads[t];
    LeftUpdate(s.threads, t, th);
    StepsOne(s, t);
    hide TotalLeft, Locals, Exclusive;
  }

  /** How many turns `schedule` gives thread `t`. */
  function Turns(schedule: seq<nat>, t: nat): nat {
    if schedule == [] then 0 else (if schedule[0] == t then 1 else 0) + Turns(schedule[1..], t)
  }

  /** How many of its turns a thread needs, at most, before it or another thread has moved on: one
      when it is inside or about to find the lock free, two when it must look again. */
  predicate Suffices(s: System, t: nat, turns: nat)
    requires t < |s.threads|
  {
    || (Inside(s.threads[t]) && turns >= 1)
    || (s.lock == UNLOCK && s.threads[t].at == Exchange && turns >= 1)
    || (s.lock == UNLOCK && s.threads[t].at == Test && turns >= 2)
  }

  /** A step that lowers nothing leaves a waiting thread as near to its goal, or nearer. */
  lemma IdleStep(s: System, counts: seq<nat>, u: nat, t: nat, turns: nat)
    requires Inv(s, counts) && u < |s.threads| && t < |s.threads| && Suffices(s, t, turns)
    requires TotalLeft(Step(s, u).threads) >= TotalLeft(s.threads)
    ensures |Step(s, u).threads| == |s.threads|
    ensures turns >= 1 && Suffices(Step(s, u), t, if u == t then turns - 1 else turns)
  {
    assert Local(s, s.threads[u], counts[u]);
    StepsLowerLeft(s, counts, u);
    StepsOne(s, u);
    hide TotalLeft, Inv;
  }

  lemma {:induction false} NeverRaises(s: System, counts: seq<nat>, schedule: seq<nat>)
    requires Inv(s, counts) && Schedule(schedule, |counts|)
    ensures |s.threads| == |counts| && Inv(After(s, schedule), counts)
    ensures TotalLeft(After(s, schedule).threads) <= TotalLeft(s.threads)
    decreases |schedule|
  {
    assert |s.threads| == |counts|;
    hide Inv, TotalLeft, Step;
    if schedule != [] {
      StepsLowerLeft(s, counts, schedule[0]);
      StepKeepsInv(s, counts, schedule[0]);
      StepsOne(s, schedule[0]);
      NeverRaises(Step(s, schedule[0]), counts, schedule[1..]);
    }
  }

  lemma NeedsTurns(s: System, t: nat)
    requires t < |s.threads|
    ensures !Suffices(s, t, 0)
  {
  }

  /** A schedule with enough turns for a thread that has something to do lowers what is left. */
  lemma {:induction false} Waits(s: System, counts: seq<nat>, schedule: seq<nat>, t: nat)
    requires Inv(s, counts) && Schedule(schedule, |counts|) && t < |s.threads|
    requires Suffices(s, t, Turns(schedule, t))
    ensures |s.threads| == |counts|
    ensures TotalLeft(After(s, schedule).threads) < TotalLeft(s.threads)
    decreases |schedule|
  {
    assert |s.threads| == |counts|;
    hide Inv, TotalLeft, Step, Suffices;
    if schedule == [] {
      NeedsTurns(s, t);
    } else {
      var u := schedule[0];
      var s1 := Step(s, u);
      StepsLowerLeft(s, counts, u);
      StepKeepsInv(s, counts, u);
      StepsOne(s, u);
      if TotalLeft(s1.threads) < TotalLeft(s.threads) {
        NeverRaises(s1, counts, schedule[1..]);
      } else {
        IdleStep(s, counts, u, t, Turns(schedule, t));
        Waits(s1, counts, schedule[1..], t);
      }
    }
  }

  /** While some thread is not done, one of them needs at most two turns. */
  lemma SomeSuffices(s: System, counts: seq<nat>) returns (t: nat)
    requires Inv(s, counts) && !AllDone(s)
    ensures t < |s.threads| == |counts| && Suffices(s, t, 2)
  {
    if HasInside(s) {
      t :| 0 <= t < |s.threads| && Inside(s.threads[t]);
    } else {
      t :| 0 <= t < |s.threads| && s.threads[t].at != Done;
    }
  }

  lemma {:induction false} AfterBoth(s: System, x: seq<nat>, y: seq<nat>)
    requires Schedule(x, |s.threads|) && Schedule(y, |s.threads|)
    ensures |After(s, x).threads| == |s.threads|
    ensures After(s, x + y) == After(After(s, x), y)
    decreases |x|
  {
    if x == [] {
      assert x + y == y;
    } else {
      assert (x + y)[1..] == x[1..] + y;
      assert |Step(s, x[0]).threads| == |s.threads|;
      AfterBoth(Step(s, x[0]), x[1..], y);
    }
    hide Step;
  }

  lemma LeftOfInv(s: System, counts: seq<nat>)
    requires Inv(s, counts)
    ensures TotalLeft(s.threads) >= 0 && |s.threads| == |counts|
  {
    forall t | 0 <= t < |s.threads|
      ensures Left(s.threads[t]) >= 0
    {
      assert Local(s, s.threads[t], counts[t]);
    }
    LeftIsNatural(s.threads);
  }

  lemma TwoTurns(t: nat)
    ensures Turns([t, t], t) == 2
  {
    assert [t, t][1..] == [t] && [t][1..] == [];
    assert Turns([t], t) == 1;
  }

  /** Until all threads are done two turns of one of them move something on. */
  lemma SomeCanMoveOn(s: System, counts: seq<nat>) returns (t: nat)
    requires Inv(s, counts) && !AllDone(s)
    ensures t < |s.threads| == |counts| && Schedule([t, t], |counts|)
    ensures Inv(After(s, [t, t]), counts) && TotalLeft(After(s, [t, t]).threads) < TotalLeft(s.threads)
  {
    hide Inv, AllDone, Suffices, TotalLeft, Step, After;
    t := SomeSuffices(s, counts);
    TwoTurns(t);
    AfterKeepsInv(s, counts, [t, t]);
    Waits(s, counts, [t, t], t);
  }

  /** From every reachable state the threads can be brought to their end. */
  lemma {:induction false} CanFinish(s: System, counts: seq<nat>) returns (schedule: seq<nat>)
    requires Inv(s, counts)
    ensures |s.threads| == |counts| && Schedule(schedule, |counts|)
    ensures AllDone(After(s, schedule))
    decreases TotalLeft(s.threads) + 1
  {
    LeftOfInv(s, counts);
    hide Inv, AllDone, TotalLeft, Step;
    if AllDone(s) {
      schedule := [];
    } else {
      var t := SomeCanMoveOn(s, counts);
      LeftOfInv(After(s, [t, t]), counts);
      var rest := CanFinish(After(s, [t, t]), counts);
      AfterBoth(s, [t, t], rest);
      schedule := [t, t] + rest;
    }
  }

  // ---------------------------------------------------------------- fair schedules

  /** A round gives every thread at least two turns, in any order. */
  ghost predicate Round(round: seq<nat>, n: nat) {
    Schedule(round, n) && forall t :: 0 <= t < n ==> Turns(round, t) >= 2
  }

  ghost predicate Rounds(rounds: seq<seq<nat>>, n: nat) {
    forall i :: 0 <= i < |rounds| ==> Round(rounds[i], n)
  }

  function Concat(rounds: seq<seq<nat>>): seq<nat> {
    if rounds == [] then [] else rounds[0] + Concat(rounds[1..])
  }

  lemma {:induction false} ConcatIsSchedule(rounds: seq<seq<nat>>, n: nat)
    requires Rounds(rounds, n)
    ensures Schedule(Concat(rounds), n)
  {
    if rounds != [] {
      assert Round(rounds[0], n);
      ConcatIsSchedule(rounds[1..], n);
    }
  }

  lemma MoreTurns(s: System, t: nat, turns: nat)
    requires t < |s.threads| && Suffices(s, t, 2) && turns >= 2
    ensures Suffices(s, t, turns)
  {
  }

  /** Whatever the scheduler does in a round, something is done in it. */
  lemma RoundLowersLeft(s: System, counts: seq<nat>, round: seq<nat>)
    requires Inv(s, counts) && !AllDone(s) && Round(round, |counts|)
    ensures |s.threads| == |counts| && Inv(After(s, round), counts)
    ensures TotalLeft(After(s, round).threads) < TotalLeft(s.threads)
  {
    hide Inv, AllDone, Suffices, TotalLeft, Step, After, Turns;
    var t := SomeSuffices(s, counts);
    MoreTurns(s, t, Turns(round, t));
    AfterKeepsInv(s, counts, round);
    Waits(s, counts, round, t);
  }

  lemma {:induction false} DoneStays(s: System, counts: seq<nat>, schedule: seq<nat>)
    requires Inv(s, counts) && AllDone(s) && Schedule(schedule, |counts|)
    ensures |s.threads| == |counts| && After(s, schedule) == s
    decreases |schedule|
  {
    if schedule != [] {
      assert Step(s, schedule[0]) == s;
      DoneStays(s, counts, schedule[1..]);
    }
    hide Inv;
  }

  /** Every fair schedule ends all threads: no more rounds are needed than there are steps left. */
  lemma {:induction false} RoundsEnd(s: System, counts: seq<nat>, rounds: seq<seq<nat>>)
    requires Inv(s, counts) && Rounds(rounds, |counts|) && |rounds| >= TotalLeft(s.threads)
    ensures |s.threads| == |counts| && Schedule(Concat(rounds), |counts|)
    ensures AllDone(After(s, Concat(rounds)))
    decreases |rounds|
  {
    LeftOfInv(s, counts);
    ConcatIsSchedule(rounds, |counts|);
    hide Inv, AllDone, TotalLeft, Step, Turns;
    if AllDone(s) {
      DoneStays(s, counts, Concat(rounds));
    } else if rounds == [] {
      var t := SomeCanMoveOn(s, counts);
      LeftOfInv(After(s, [t, t]), counts);
      assert false;
    } else {
      assert Round(rounds[0], |counts|);
      ConcatIsSchedule(rounds[1..], |counts|);
      RoundLowersLeft(s, counts, rounds[0]);
      RoundsEnd(After(s, rounds[0]), counts, rounds[1..]);
      AfterBoth(s, rounds[0], Concat(rounds[1..]));
    }
  }

  lemma {:induction false} StartLeft(threads: seq<Thread>, counts: seq<nat>)
    requires |threads| == |counts| && forall t :: 0 <= t < |threads| ==> threads[t] == Fresh(counts[t])
    ensures TotalLeft(threads) == 5 * Sum(counts)
  {
    if threads != [] {
      StartLeft(threads[..|threads| - 1], counts[..|counts| - 1]);
    }
  }

  /** Under every fair schedule the program ends with the counter at the total: five rounds for
      each iteration are enough, whatever the order of turns within a round. */
  lemma FairRunsEnd(counts: seq<nat>, rounds: seq<seq<nat>>)
    requires Rounds(rounds, |counts|) && |rounds| >= 5 * Sum(counts)
    ensures |Start(counts).threads| == |counts| && Schedule(Concat(rounds), |counts|)
    ensures var s := After(Start(counts), Concat(rounds)); AllDone(s) && s.a == Sum(counts)
  {
    StartInv(counts);
    StartLeft(Start(counts).threads, counts);
    hide Inv, AllDone, After, Step, TotalLeft, Start;
    RoundsEnd(Start(counts), counts, rounds);
    NoLostUpdate(counts, Concat(rounds));
  }

  lemma SumOfTwo(x: nat, y: nat)
    ensures Sum([x, y]) == x + y
  {
    assert [x, y][..1] == [x] && [x][..0] == [];
    assert Sum([x]) == Sum([x][..0]) + x;
  }

  lemma RoundOfTwo()
    ensures Round([0, 0, 1, 1], 2)
  {
    var r := [0, 0, 1, 1];
    assert r[1..] == [0, 1, 1] && r[1..][1..] == [1, 1] && r[1..][1..][1..] == [1] && r[1..][1..][1..][1..] == [];
    assert Turns([1], 0) == 0 && Turns([1], 1) == 1;
    assert Turns([1, 1], 0) == 0 && Turns([1, 1], 1) == 2;
    assert Turns([0, 1, 1], 0) == 1 && Turns([0, 1, 1], 1) == 2;
  }

  /** The program itself: two threads of 10000 iterations end with the counter at 20000, whenever
      they end; and they do, for example when they take turns two by two. */
  lemma TwoThreads(schedule: seq<nat>, rounds: seq<seq<nat>>)
    requires forall i :: 0 <= i < |schedule| ==> schedule[i] < 2
    requires |rounds| >= 100000 && forall i :: 0 <= i < |rounds| ==> rounds[i] == [0, 0, 1, 1]
    ensures var s := After(Start([10000, 10000]), schedule);
            && |s.threads| == 2
            && (s.threads[0].at == Done && s.threads[1].at == Done ==> s.a == 20000)
    ensures Schedule(Concat(rounds), 2)
    ensures After(Start([10000, 10000]), Concat(rounds)).a == 20000
  {
    var counts: seq<nat> := [10000, 10000];
    SumOfTwo(10000, 10000);
    RoundOfTwo();
    hide Sum, After, Inv, Step, Turns;
    NoLostUpdate(counts, schedule);
    FairRunsEnd(counts, rounds);
  }
}
