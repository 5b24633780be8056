/** The single-slot mailbox of lab1 in shared memory: one sender, one receiver, three semaphores
    and an in-band exit message. One step is one semaphore operation, or one read or write of one
    shared field; the scheduler picks the process. */
module Mailbox {
  const CAPACITY := 1024
  const EXIT := "__IPC_EXIT__"
  const NUL: char := '\0'

  // ---------------------------------------------------------------- what is sent

  /** What the sender's loop sends for the lines of its input (lab1/sender.c:268-302): the lines
      before an "EOF" line or the end of input, then the exit message. */
  function Outgoing(lines: seq<string>): (m: seq<string>)
    ensures |m| >= 1 && m[|m| - 1] == EXIT == "__IPC_EXIT__"
  {
    if lines == [] || lines[0] == "EOF" then [EXIT] else [lines[0]] + Outgoing(lines[1..])
  }

  /** The lines up to the first "EOF" line, or all of them, and then the exit message; nothing
      after that line is read. */
  lemma {:induction false} OutgoingMeaning(lines: seq<string>, e: nat)
    requires e <= |lines| && (forall i :: 0 <= i < e ==> lines[i] != "EOF")
    requires e == |lines| || lines[e] == "EOF"
    ensures Outgoing(lines) == lines[..e] + ["__IPC_EXIT__"]
    decreases e
  {
    if e > 0 {
      OutgoingMeaning(lines[1..], e - 1);
      assert lines[..e] == [lines[0]] + lines[1..][..e - 1];
    }
  }

  /** A C string as `fgets` leaves it in a 1024-byte buffer, without the newline. */
  ghost predicate Line(s: string) { |s| < CAPACITY && NUL !in s }

  /** Every C string of at most 1023 characters can be sent. */
  lemma LineMeaning(s: string)
    ensures Line(s) <==> |s| <= 1023 && forall i :: 0 <= i < |s| ==> s[i] != '\0'
  {
  }

  ghost predicate AllLines(m: seq<string>) { forall i :: 0 <= i < |m| ==> Line(m[i]) }

  // ---------------------------------------------------------------- state

  /** The sender inside one `send_via_memory_sharing`, named by what it does next. */
  datatype SenderAt = WaitEmpty | SLock | PutText | PutEnd | PutLength | PutExit | SUnlock | PostFull

  /** The receiver inside one `recv_via_memory_sharing`, and its teardown. */
  datatype ReceiverAt =
    | WaitFull | RLock | TakeLength | TakeText | TakeType | ClearLength | ClearExit | ClearText | RUnlock | PostEmpty
    | Check | DestroyFull | DestroyEmpty | DestroyMutex | Finished

  datatype Received = Received(text: string, exit: bool)

  /** `next` is the message the sender is sending or will send next; `count` and `text` are what the
      receiver has copied out of the slot for a message not yet complete; `destroyed` says how many of
      the semaphores full, empty and mutex it has destroyed, in this order. */
  datatype System = System(mutex: nat, empty: nat, full: nat,
                           buffer: string, length: nat, isExit: bool,
                           sender: SenderAt, next: nat,
                           receiver: ReceiverAt, count: nat, text: string, got: seq<Received>,
                           destroyed: nat)

  /** After `sem_init` of mutex, empty and full (lab1/sender.c:221-241). */
  function Start(): System {
    System(1, 1, 0, seq(CAPACITY, _ => NUL), 0, false, WaitEmpty, 0, WaitFull, 0, "", [], 0)
  }

  /** `memcpy` of a text into the shared buffer. */
  function PutString(buffer: string, s: string): string
    requires |s| <= |buffer|
  {
    s + buffer[|s|..]
  }

  // ---------------------------------------------------------------- steps

  /** Whether the sender can move: a wait needs a positive semaphore; it ends after the last message. */
  predicate SenderCan(s: System, m: seq<string>) {
    match s.sender
    case WaitEmpty => s.next < |m| && s.empty > 0
    case SLock => s.mutex > 0
    case _ => true
  }

  /** lab1/sender.c:83-123. */
  function SenderStep(s: System, m: seq<string>): System
    requires SenderCan(s, m) && s.next < |m| && |m[s.next]| < |s.buffer|
  {
    match s.sender
    case WaitEmpty => s.(empty := s.empty - 1, sender := SLock)
    case SLock => s.(mutex := s.mutex - 1, sender := PutText)
    case PutText => s.(buffer := PutString(s.buffer, m[s.next]), sender := PutEnd)
    case PutEnd => s.(buffer := s.buffer[|m[s.next]| := NUL], sender := PutLength)
    case PutLength => s.(length := |m[s.next]|, sender := PutExit)
    case PutExit => s.(isExit := m[s.next] == EXIT, sender := SUnlock)
    case SUnlock => s.(mutex := s.mutex + 1, sender := PostFull)
    case PostFull => s.(full := s.full + 1, sender := WaitEmpty, next := s.next + 1)
  }

  predicate ReceiverCan(s: System) {
    match s.receiver
    case WaitFull => s.full > 0
    case RLock => s.mutex > 0
    case Finished => false
    case _ => true
  }

  /** What a step of the receiver needs. */
  predicate ReceiverReady(s: System) {
    && s.buffer != [] && (s.receiver == TakeText ==> s.count <= |s.buffer|)
    && (s.receiver == Check ==> s.got != [])
  }

  /** lab1/receiver.c:77-121 and the loop and teardown of 276-306. */
  function ReceiverStep(s: System): System
    requires ReceiverCan(s) && ReceiverReady(s)
  {
    match s.receiver
    case WaitFull => s.(full := s.full - 1, receiver := RLock)
    case RLock => s.(mutex := s.mutex - 1, receiver := TakeLength)
    case TakeLength => s.(count := if s.length >= CAPACITY then CAPACITY - 1 else s.length, receiver := TakeText)
    case TakeText => s.(text := s.buffer[..s.count], receiver := TakeType)
    case TakeType => s.(got := s.got + [Received(s.text, s.isExit)], receiver := ClearLength)
    case ClearLength => s.(length := 0, receiver := ClearExit)
    case ClearExit => s.(isExit := false, receiver := ClearText)
    case ClearText => s.(buffer := s.buffer[0 := NUL], receiver := RUnlock)
    case RUnlock => s.(mutex := s.mutex + 1, receiver := PostEmpty)
    case PostEmpty => s.(empty := s.empty + 1, receiver := Check)
    case Check => s.(receiver := if s.got[|s.got| - 1].text == EXIT then DestroyFull else WaitFull)
    case DestroyFull => s.(destroyed := 1, receiver := DestroyEmpty)
    case DestroyEmpty => s.(destroyed := 2, receiver := DestroyMutex)
    case DestroyMutex => s.(destroyed := 3, receiver := Finished)
  }

  // ---------------------------------------------------------------- invariant

  function SenderIn(s: System): nat { if s.sender == WaitEmpty then 0 else 1 }

  predicate SenderHolds(s: System) { s.sender in {PutText, PutEnd, PutLength, PutExit, SUnlock} }

  /** The receiver has the message but has not completed its copy. */
  predicate Taking(s: System) { s.receiver in {RLock, TakeLength, TakeText, TakeType} }

  predicate Clearing(s: System) { s.receiver in {ClearLength, ClearExit, ClearText, RUnlock} }

  /** The receiver has left its loop. */
  predicate Ending(s: System) { s.receiver in {DestroyFull, DestroyEmpty, DestroyMutex, Finished} }

  function Destroyed(at: ReceiverAt): nat {
    match at
    case DestroyEmpty => 1
    case DestroyMutex => 2
    case Finished => 3
    case _ => 0
  }

  function ReceiverIn(s: System): nat {
    if Taking(s) || Clearing(s) || s.receiver == PostEmpty then 1 else 0
  }

  predicate ReceiverHolds(s: System) { (Taking(s) && s.receiver != RLock) || Clearing(s) }

  function Whole(text: string): Received { Received(text, text == EXIT) }

  /** What was received is a prefix of what is sent, each message whole and with the right flag. */
  predicate Faithful(s: System, m: seq<string>) {
    && |s.got| <= |m|
    && forall i :: 0 <= i < |s.got| ==> s.got[i] == Whole(m[i])
  }

  /** Of the first `n` messages none but the last is the exit message. */
  predicate NoExitBefore(n: nat, m: seq<string>)
    requires n <= |m|
  {
    forall i :: 0 <= i < n - 1 ==> m[i] != EXIT
  }

  predicate LastIsExit(n: nat, m: seq<string>)
    requires n <= |m|
  {
    n > 0 && m[n - 1] == EXIT
  }

  /** No received message but the last is the exit message, and the receiver has left its loop
      exactly after an exit message. */
  predicate Stopped(s: System, m: seq<string>)
    requires |s.got| <= |m|
  {
    && NoExitBefore(|s.got|, m)
    && (Ending(s) ==> LastIsExit(|s.got|, m))
    && (LastIsExit(|s.got|, m) ==> Clearing(s) || s.receiver in {PostEmpty, Check} || Ending(s))
    && (Clearing(s) || s.receiver in {PostEmpty, Check} ==> s.got != [])
    && s.destroyed == Destroyed(s.receiver)
  }

  /** What the shared fields hold while the sender fills them and after it has. */
  predicate Slot(s: System, m: seq<string>)
    requires s.next <= |m|
  {
    && |s.buffer| == CAPACITY && s.length < CAPACITY
    && (s.sender in {PutEnd, PutLength, PutExit, SUnlock, PostFull} && s.next < |m| ==> m[s.next] <= s.buffer)
    && (s.sender in {PutLength, PutExit, SUnlock, PostFull} && s.next < |m| ==> m[s.next] + [NUL] <= s.buffer)
    && (s.sender in {PutExit, SUnlock, PostFull} && s.next < |m| ==> s.length == |m[s.next]|)
    && (s.sender in {SUnlock, PostFull} && s.next < |m| ==> s.isExit == (m[s.next] == EXIT))
    && (s.full == 1 || Taking(s) ==>
          && s.next >= 1 && m[s.next - 1] + [NUL] <= s.buffer
          && s.length == |m[s.next - 1]| && s.isExit == (m[s.next - 1] == EXIT))
    && (s.receiver == TakeText ==> s.next >= 1 && s.count == |m[s.next - 1]|)
    && (s.receiver == TakeType ==> s.next >= 1 && s.text == m[s.next - 1])
  }

  /** The counts of the invariant: semaphores, processes and messages. */
  ghost predicate Counts(s: System, m: seq<string>) {
    && s.empty + s.full + SenderIn(s) + ReceiverIn(s) == 1
    && s.mutex + (if SenderHolds(s) then 1 else 0) + (if ReceiverHolds(s) then 1 else 0) == 1
    && s.next <= |m| && (s.sender != WaitEmpty ==> s.next < |m|)
    && s.next == |s.got| + (if s.full == 1 || Taking(s) then 1 else 0)
  }

  ghost predicate Inv(s: System, m: seq<string>) {
    Counts(s, m) && Slot(s, m) && Faithful(s, m) && Stopped(s, m)
  }

  lemma StartInv(m: seq<string>)
    requires AllLines(m)
    ensures Inv(Start(), m)
  {
    hide EXIT;
    var s := Start();
    assert Counts(s, m) && Faithful(s, m) && Stopped(s, m);
    assert |s.buffer| == CAPACITY;
    assert Slot(s, m);
    hide Counts, Faithful, Stopped, Slot;
  }

  lemma SenderCanStep(s: System, m: seq<string>)
    requires AllLines(m) && Inv(s, m) && SenderCan(s, m)
    ensures s.next < |m| && |m[s.next]| < |s.buffer|
  {
    assert Line(m[s.next]);
  }

  lemma SenderKeepsCounts(s: System, m: seq<string>)
    requires Counts(s, m) && SenderCan(s, m) && s.next < |m| && |m[s.next]| < |s.buffer|
    ensures Counts(SenderStep(s, m), m)
  {
  }

  lemma SenderKeepsSlot(s: System, m: seq<string>)
    requires Counts(s, m) && Slot(s, m) && SenderCan(s, m) && s.next < |m| && |m[s.next]| < |s.buffer|
    ensures SenderStep(s, m).next <= |m| && Slot(SenderStep(s, m), m)
  {
    hide EXIT;
  }

  lemma SenderKeepsDelivery(s: System, m: seq<string>)
    requires Faithful(s, m) && Stopped(s, m) && SenderCan(s, m) && s.next < |m| && |m[s.next]| < |s.buffer|
    ensures Faithful(SenderStep(s, m), m) && Stopped(SenderStep(s, m), m)
  {
    var t := SenderStep(s, m);
    assert t.got == s.got && t.receiver == s.receiver && t.destroyed == s.destroyed;
    hide SenderStep, SenderCan, NoExitBefore, LastIsExit, Destroyed;
  }

  lemma SenderKeepsInv(s: System, m: seq<string>)
    requires AllLines(m) && Inv(s, m) && SenderCan(s, m)
    ensures s.next < |m| && |m[s.next]| < |s.buffer|
    ensures Inv(SenderStep(s, m), m)
  {
    hide Slot, Faithful, Stopped, Counts, SenderCan, SenderStep;
    SenderCanStep(s, m);
    SenderKeepsCounts(s, m);
    SenderKeepsSlot(s, m);
    SenderKeepsDelivery(s, m);
  }

  lemma ReceiverCanStep(s: System, m: seq<string>)
    requires Inv(s, m)
    ensures ReceiverReady(s)
  {
  }

  lemma ReceiverKeepsCounts(s: System, m: seq<string>)
    requires Counts(s, m) && ReceiverCan(s) && ReceiverReady(s)
    ensures Counts(ReceiverStep(s), m)
  {
    hide EXIT;
  }

  lemma ReceiverKeepsSlot(s: System, m: seq<string>)
    requires Counts(s, m) && Slot(s, m) && ReceiverCan(s) && ReceiverReady(s)
    ensures Slot(ReceiverStep(s), m)
  {
    hide EXIT;
    if s.receiver == TakeText {
      var t := m[s.next - 1];
      assert s.buffer[..|t|] == (t + [NUL])[..|t|] == t;
    }
  }

  lemma ReceiverKeepsFaithful(s: System, m: seq<string>)
    requires Counts(s, m) && Slot(s, m) && Faithful(s, m) && ReceiverCan(s) && ReceiverReady(s)
    ensures Faithful(ReceiverStep(s), m)
  {
    if s.receiver == TakeType {
      assert s.next - 1 == |s.got|;
    } else {
      hide Slot;
    }
  }

  /** A message is only taken while no exit message has been. */
  lemma TakingKeepsStopped(s: System, m: seq<string>)
    requires Counts(s, m) && Stopped(s, m) && s.receiver == TakeType && |s.got| <= |m|
    ensures ReceiverCan(s) && ReceiverReady(s) ==>
              |ReceiverStep(s).got| <= |m| && Stopped(ReceiverStep(s), m)
  {
    assert |s.got| < |m| && !LastIsExit(|s.got|, m);
    assert NoExitBefore(|s.got| + 1, m);
    hide Counts, NoExitBefore;
  }

  /** The text received last decides whether the receiver leaves its loop. */
  lemma CheckKeepsStopped(s: System, m: seq<string>)
    requires Faithful(s, m) && Stopped(s, m) && s.receiver == Check
    ensures ReceiverCan(s) && ReceiverReady(s) ==> Stopped(ReceiverStep(s), m)
  {
    assert s.got[|s.got| - 1] == Whole(m[|s.got| - 1]);
    assert s.got[|s.got| - 1].text == EXIT <==> LastIsExit(|s.got|, m);
    hide Faithful, NoExitBefore, LastIsExit, EXIT;
  }

  lemma ReceiverKeepsStopped(s: System, m: seq<string>)
    requires Counts(s, m) && Faithful(s, m) && Stopped(s, m) && ReceiverCan(s) && ReceiverReady(s)
    ensures |ReceiverStep(s).got| <= |m| && Stopped(ReceiverStep(s), m)
  {
    hide Counts, NoExitBefore, LastIsExit, EXIT;
    if s.receiver == TakeType {
      TakingKeepsStopped(s, m);
    } else if s.receiver == Check {
      CheckKeepsStopped(s, m);
    } else {
      assert ReceiverStep(s).got == s.got;
    }
  }

  lemma ReceiverKeepsInv(s: System, m: seq<string>)
    requires AllLines(m) && Inv(s, m) && ReceiverCan(s)
    ensures ReceiverReady(s) && Inv(ReceiverStep(s), m)
  {
    hide Slot, Faithful, Stopped, Counts, ReceiverCan, ReceiverStep, ReceiverReady;
    ReceiverCanStep(s, m);
    ReceiverKeepsCounts(s, m);
    ReceiverKeepsSlot(s, m);
    ReceiverKeepsFaithful(s, m);
    ReceiverKeepsStopped(s, m);
  }

  // ---------------------------------------------------------------- every interleaving

  /** One turn: the sender's if `who`, else the receiver's; a blocked process lets it pass. */
  ghost function Turn(s: System, m: seq<string>, who: bool): (r: System)
    requires AllLines(m) && Inv(s, m)
    ensures Inv(r, m)
  {
    if who && SenderCan(s, m) then SenderKeepsInv(s, m); SenderStep(s, m)
    else if !who && ReceiverCan(s) then ReceiverKeepsInv(s, m); ReceiverStep(s)
    else s
  }

  /** The state after the turns of `schedule`. */
  ghost function After(s: System, m: seq<string>, schedule: seq<bool>): (r: System)
    requires AllLines(m) && Inv(s, m)
    ensures Inv(r, m)
    decreases |schedule|
  {
    if schedule == [] then s else After(Turn(s, m, schedule[0]), m, schedule[1..])
  }

  /** The start, known to satisfy the invariant. */
  ghost function Begin(m: seq<string>): (s: System)
    requires AllLines(m)
    ensures s == Start() && Inv(s, m)
  {
    StartInv(m);
    Start()
  }

  ghost function Reached(m: seq<string>, schedule: seq<bool>): (r: System)
    requires AllLines(m)
    ensures Inv(r, m)
  {
    After(Begin(m), m, schedule)
  }

  /** How many messages have been copied into the slot. */
  function Copied(s: System): nat {
    s.next + if s.sender in {PutEnd, PutLength, PutExit, SUnlock, PostFull} then 1 else 0
  }

  /** Under every interleaving: the semaphores account for the two processes, only one of them is
      in its critical section, the mutex never makes either wait, and what has been received is
      a prefix of what was copied in, at most one message behind, each whole and flagged right. */
  lemma EveryInterleaving(m: seq<string>, schedule: seq<bool>)
    requires AllLines(m)
    ensures var s := Reached(m, schedule);
            && s.empty + s.full + SenderIn(s) + ReceiverIn(s) == 1
            && !(SenderHolds(s) && ReceiverHolds(s))
            && (s.sender == SLock || s.receiver == RLock ==> s.mutex == 1)
            && |s.got| <= Copied(s) <= |s.got| + 1 && Copied(s) <= |m|
            && forall i :: 0 <= i < |s.got| ==> s.got[i] == Whole(m[i])
  {
    var s := Reached(m, schedule);
    assert Inv(s, m);
  }

  // ---------------------------------------------------------------- progress

  /** Until the receiver is finished somebody can move. */
  lemma Progress(s: System, m: seq<string>)
    requires AllLines(m) && Inv(s, m) && m != [] && m[|m| - 1] == EXIT && s.receiver != Finished
    ensures SenderCan(s, m) || ReceiverCan(s)
  {
    if s.got != [] {
      assert m[|s.got| - 1] == EXIT ==> s.receiver != WaitFull;
    }
  }

  function SenderRank(at: SenderAt): nat {
    match at
    case WaitEmpty => 0 case SLock => 1 case PutText => 2 case PutEnd => 3 case PutLength => 4
    case PutExit => 5 case SUnlock => 6 case PostFull => 7
  }

  function ReceiverRank(at: ReceiverAt): nat {
    match at
    case ClearLength => 11 case ClearExit => 10 case ClearText => 9 case RUnlock => 8 case PostEmpty => 7
    case Check => 6 case WaitFull => 5 case RLock => 4 case TakeLength => 3 case TakeText => 2 case TakeType => 1
    case DestroyFull => 5 case DestroyEmpty => 4 case DestroyMutex => 3 case Finished => 2
  }

  /** The steps left, at most. */
  function Left(s: System, m: seq<string>): nat
    requires s.next <= |m| && |s.got| <= |m| && (s.sender != WaitEmpty ==> s.next < |m|)
  {
    8 * (|m| - s.next) - SenderRank(s.sender) + 11 * (|m| - |s.got|) + ReceiverRank(s.receiver)
  }

  lemma SenderShrinksLeft(s: System, m: seq<string>)
    requires AllLines(m) && Inv(s, m) && SenderCan(s, m)
    ensures Left(Turn(s, m, true), m) < Left(s, m)
  {
    hide Slot, Faithful, Stopped, EXIT;
    SenderCanStep(s, m);
    var t := Turn(s, m, true);
    assert t == SenderStep(s, m) && Inv(t, m);
    assert t.next == s.next + (if s.sender == PostFull then 1 else 0) && t.got == s.got;
  }

  lemma ReceiverShrinksLeft(s: System, m: seq<string>)
    requires AllLines(m) && Inv(s, m) && ReceiverCan(s)
    ensures Left(Turn(s, m, false), m) < Left(s, m)
  {
    hide Slot, Faithful, Stopped, EXIT;
    ReceiverCanStep(s, m);
    var t := Turn(s, m, false);
    assert t == ReceiverStep(s) && Inv(t, m);
    assert t.next == s.next && |t.got| == |s.got| + (if s.receiver == TakeType then 1 else 0);
  }

  lemma MovesShrinkLeft(s: System, m: seq<string>, who: bool)
    requires AllLines(m) && Inv(s, m) && (if who then SenderCan(s, m) else ReceiverCan(s))
    ensures Left(Turn(s, m, who), m) < Left(s, m)
  {
    if who {
      SenderShrinksLeft(s, m);
    } else {
      ReceiverShrinksLeft(s, m);
    }
    hide Slot, Faithful, Stopped, EXIT, SenderCan, ReceiverCan, Turn, Left;
  }

  ghost function LeftOf(s: System, m: seq<string>): nat
    requires Inv(s, m)
  {
    Left(s, m)
  }

  lemma LeftShrinks(s: System, m: seq<string>, who: bool)
    requires AllLines(m) && Inv(s, m) && (if who then SenderCan(s, m) else ReceiverCan(s))
    ensures LeftOf(Turn(s, m, who), m) < LeftOf(s, m)
  {
    MovesShrinkLeft(s, m, who);
    hide Inv, Turn, Left;
  }

  /** Every turn of the schedule moves a process. */
  ghost predicate Busy(s: System, m: seq<string>, schedule: seq<bool>)
    requires AllLines(m) && Inv(s, m)
    decreases |schedule|
  {
    schedule == [] ||
    ((if schedule[0] then SenderCan(s, m) else ReceiverCan(s)) && Busy(Turn(s, m, schedule[0]), m, schedule[1..]))
  }

  /** A run has at most `Left` moves, and one that cannot be continued has finished. */
  lemma {:induction false} RunsEnd(s: System, m: seq<string>, schedule: seq<bool>)
    requires AllLines(m) && Inv(s, m) && Busy(s, m, schedule)
    ensures |schedule| + Left(After(s, m, schedule), m) <= Left(s, m)
    decreases |schedule|
  {
    hide Inv, Turn, SenderCan, ReceiverCan;
    if schedule != [] {
      MovesShrinkLeft(s, m, schedule[0]);
      RunsEnd(Turn(s, m, schedule[0]), m, schedule[1..]);
    }
  }

  /** Every run comes to its end: it has at most 19 |m| + 5 moves, and when nobody can move any
      more the receiver is finished. */
  lemma Terminates(m: seq<string>, schedule: seq<bool>)
    requires AllLines(m) && m != [] && m[|m| - 1] == EXIT && Busy(Begin(m), m, schedule)
    ensures |schedule| <= 19 * |m| + 5
    ensures var s := Reached(m, schedule);
            !SenderCan(s, m) && !ReceiverCan(s) ==> s.receiver == Finished
  {
    RunsEnd(Start(), m, schedule);
    var s := Reached(m, schedule);
    if s.receiver != Finished {
      Progress(s, m);
    }
  }

  /** Every run can be continued to one in which the receiver is finished. */
  lemma {:induction false} CanFinish(s: System, m: seq<string>) returns (schedule: seq<bool>)
    requires AllLines(m) && Inv(s, m) && m != [] && m[|m| - 1] == EXIT
    ensures Busy(s, m, schedule) && After(s, m, schedule).receiver == Finished
    decreases LeftOf(s, m)
  {
    hide Inv, Turn, SenderCan, ReceiverCan, LeftOf;
    if s.receiver == Finished {
      schedule := [];
    } else {
      Progress(s, m);
      var who := SenderCan(s, m);
      LeftShrinks(s, m, who);
      var rest := CanFinish(Turn(s, m, who), m);
      schedule := [who] + rest;
      assert schedule[1..] == rest;
    }
  }

  // ---------------------------------------------------------------- the end

  /** The index of the first exit message. */
  function FirstExit(m: seq<string>): (e: nat)
    requires m != [] && m[|m| - 1] == EXIT
    ensures e < |m| && m[e] == EXIT && forall i :: 0 <= i < e ==> m[i] != EXIT
  {
    if m[0] == EXIT then 0 else 1 + FirstExit(m[1..])
  }

  /** The receiver has left its loop: what it has received, and where the sender is. */
  lemma LeftTheLoop(s: System, m: seq<string>)
    requires Inv(s, m) && Ending(s)
    ensures 0 < |s.got| <= |m| && m[|s.got| - 1] == EXIT
    ensures forall i :: 0 <= i < |s.got| - 1 ==> m[i] != EXIT
    ensures forall i :: 0 <= i < |s.got| ==> s.got[i] == Whole(m[i])
    ensures |s.got| == |m| ==> s.next == |m| && s.sender == WaitEmpty
  {
    hide Slot;
  }

  /** A finished receiver has delivered exactly the messages up to the first exit message; and if
      that is the last one, the sender has made its last `sem_post` before the teardown began. */
  lemma AtTheEnd(s: System, m: seq<string>)
    requires AllLines(m) && Inv(s, m) && m != [] && m[|m| - 1] == EXIT
    requires Ending(s)
    ensures |s.got| == FirstExit(m) + 1
    ensures forall i :: 0 <= i < |s.got| ==> s.got[i] == Whole(m[i])
    ensures FirstExit(m) == |m| - 1 ==> s.next == |m| && s.sender == WaitEmpty
  {
    hide Inv, FirstExit;
    LeftTheLoop(s, m);
  }

  /** The lines the sender reads before it stops. */
  function Body(lines: seq<string>): seq<string> {
    if lines == [] || lines[0] == "EOF" then [] else [lines[0]] + Body(lines[1..])
  }

  lemma {:induction false} OutgoingIsBody(lines: seq<string>)
    ensures Outgoing(lines) == Body(lines) + [EXIT]
  {
    if lines != [] && lines[0] != "EOF" {
      OutgoingIsBody(lines[1..]);
    }
  }

  lemma {:induction false} BodyMeaning(lines: seq<string>, e: nat)
    requires e <= |lines| && (forall i :: 0 <= i < e ==> lines[i] != "EOF")
    requires e == |lines| || lines[e] == "EOF"
    ensures Body(lines) == lines[..e]
    decreases e
  {
    if e > 0 {
      BodyMeaning(lines[1..], e - 1);
      assert lines[..e] == [lines[0]] + lines[1..][..e - 1];
    }
  }

  lemma ExitIsLine()
    ensures Line(EXIT)
  {
    assert forall i :: 0 <= i < |EXIT| ==> EXIT[i] != NUL;
  }

  lemma {:induction false} OutgoingLines(lines: seq<string>)
    requires AllLines(lines)
    ensures AllLines(Outgoing(lines))
  {
    ExitIsLine();
    if lines != [] && lines[0] != "EOF" {
      assert Line(lines[0]);
      assert AllLines(lines[1..]) by { assert forall i :: 0 <= i < |lines| - 1 ==> lines[1..][i] == lines[i + 1]; }
      OutgoingLines(lines[1..]);
    }
  }

  lemma DestroyedAtTheEnd(s: System, m: seq<string>)
    requires Inv(s, m) && s.destroyed > 0
    ensures Ending(s)
  {
    hide Slot, Faithful, Counts;
  }

  /** End to end: once the receiver has destroyed a semaphore, and no line read before the "EOF" line equals
      the exit message, it has delivered those lines and then the exit message, and the sender is
      through with the semaphores. */
  lemma DeliversTheInput(lines: seq<string>, schedule: seq<bool>)
    requires AllLines(lines) && EXIT !in Body(lines)
    ensures AllLines(Outgoing(lines))
    ensures var m := Outgoing(lines);
            var s := Reached(m, schedule);
            s.destroyed > 0 ==>
              && |s.got| == |Body(lines)| + 1
              && (forall i :: 0 <= i < |Body(lines)| ==> s.got[i] == Received(Body(lines)[i], false))
              && s.got[|Body(lines)|] == Received(EXIT, true)
              && s.next == |m| && s.sender == WaitEmpty
  {
    hide Inv, Ending, Outgoing, Body, Reached, FirstExit;
    OutgoingLines(lines);
    OutgoingIsBody(lines);
    var m := Outgoing(lines);
    var s := Reached(m, schedule);
    if s.destroyed > 0 {
      DestroyedAtTheEnd(s, m);
      AtTheEnd(s, m);
      assert FirstExit(m) == |m| - 1;
    }
  }

  lemma FinishedDestroyed(s: System, m: seq<string>)
    requires Inv(s, m) && s.receiver == Finished
    ensures s.destroyed == 3
  {
    hide Slot, Faithful, Counts;
  }

  lemma FinishingRun(m: seq<string>) returns (whole: seq<bool>)
    requires AllLines(m) && m != [] && m[|m| - 1] == EXIT
    ensures Reached(m, whole).receiver == Finished
  {
    hide Inv, Turn, Busy;
    whole := CanFinish(Begin(m), m);
  }

  /** From the file to the end, with everything written out: the first `e` lines are those before the
      "EOF" line. In every run that cannot go on they have arrived in order, unflagged, and then
      the exit message, flagged; all three semaphores are destroyed and the sender is through.
      And there is such a run. */
  lemma EndToEnd(lines: seq<string>, e: nat, schedule: seq<bool>) returns (whole: seq<bool>)
    requires forall i :: 0 <= i < |lines| ==> |lines[i]| <= 1023 && '\0' !in lines[i]
    requires e <= |lines| && (forall i :: 0 <= i < e ==> lines[i] != "EOF" && lines[i] != "__IPC_EXIT__")
    requires e == |lines| || lines[e] == "EOF"
    ensures var m := lines[..e] + ["__IPC_EXIT__"];
            && AllLines(m) && Reached(m, whole).receiver == Finished
            && var s := Reached(m, schedule);
               s.receiver == Finished || !(SenderCan(s, m) || ReceiverCan(s)) ==>
                 && |s.got| == e + 1 && s.got[e] == Received("__IPC_EXIT__", true)
                 && (forall i :: 0 <= i < e ==> s.got[i] == Received(lines[i], false))
                 && s.destroyed == 3 && s.next == |m| && s.sender == WaitEmpty
  {
    hide Inv, Turn, SenderCan, ReceiverCan, Body, Outgoing, Reached;
    assert AllLines(lines);
    OutgoingMeaning(lines, e);
    BodyMeaning(lines, e);
    OutgoingLines(lines);
    var m := Outgoing(lines);
    whole := FinishingRun(m);
    var s := Reached(m, schedule);
    if s.receiver == Finished || !(SenderCan(s, m) || ReceiverCan(s)) {
      if s.receiver != Finished {
        Progress(s, m);
      }
      FinishedDestroyed(s, m);
      DeliversTheInput(lines, schedule);
    }
  }

  // ---------------------------------------------------------------- an early exit message

  lemma {:induction false} AfterBoth(s: System, m: seq<string>, x: seq<bool>, y: seq<bool>)
    requires AllLines(m) && Inv(s, m)
    ensures After(s, m, x + y) == After(After(s, m, x), m, y)
    decreases |x|
  {
    hide Inv, Turn;
    if x == [] {
      assert x + y == y;
    } else {
      assert (x + y)[1..] == x[1..] + y;
      AfterBoth(Turn(s, m, x[0]), m, x[1..], y);
    }
  }

  lemma {:induction false} AfterOne(s: System, m: seq<string>, who: bool)
    requires AllLines(m) && Inv(s, m)
    ensures After(s, m, [who]) == Turn(s, m, who)
  {
    hide Inv, Turn;
    assert [who][1..] == [];
    assert After(Turn(s, m, who), m, []) == Turn(s, m, who);
  }

  /** `t` can be reached from `s`. */
  ghost predicate Leads(s: System, m: seq<string>, t: System)
    requires AllLines(m) && Inv(s, m)
  {
    exists schedule :: After(s, m, schedule) == t
  }

  lemma LeadsOn(s: System, m: seq<string>, t: System, who: bool)
    requires AllLines(m) && Inv(s, m) && Inv(t, m) && Leads(s, m, t)
    ensures Leads(s, m, Turn(t, m, who))
  {
    hide Inv, Turn;
    var x :| After(s, m, x) == t;
    AfterBoth(s, m, x, [who]);
    AfterOne(t, m, who);
  }

  /** Both processes between two messages, the slot empty. */
  ghost predicate Between(s: System, m: seq<string>) {
    Inv(s, m) && s.sender == WaitEmpty && s.receiver == WaitFull && s.empty == 1 && s.mutex == 1 && s.next < |m|
  }

  /** The sender sends one message whole. */
  lemma SendOne(s0: System, m: seq<string>, s: System) returns (t: System)
    requires AllLines(m) && Inv(s0, m) && Leads(s0, m, s) && Between(s, m)
    ensures Inv(t, m) && Leads(s0, m, t)
    ensures t.sender == WaitEmpty && t.receiver == WaitFull && t.full == 1 && t.mutex == 1
    ensures t.next == s.next + 1 && t.got == s.got
  {
    hide Slot, Faithful, Stopped, Leads;
    t := s;
    var n := 0;
    while n < 8
      invariant 0 <= n <= 8 && Inv(t, m) && Leads(s0, m, t)
      invariant t.receiver == WaitFull && t.got == s.got
      invariant if n < 8 then SenderRank(t.sender) == n && t.next == s.next && t.full == 0
                else t.sender == WaitEmpty && t.next == s.next + 1 && t.full == 1 && t.mutex == 1
      invariant t.sender == WaitEmpty ==> t.empty == 1 || n == 8
    {
      LeadsOn(s0, m, t, true);
      t := Turn(t, m, true);
      n := n + 1;
    }
  }

  /** The receiver after `n` of the 11 steps with message `k`, the sender waiting for it. */
  ghost predicate Stage(s: System, m: seq<string>, n: nat, k: nat) {
    && Inv(s, m) && s.sender == WaitEmpty && s.next == k + 1 <= |m|
    && (n == 0 ==> s.receiver == WaitFull && s.full == 1)
    && (1 <= n <= 4 ==> Taking(s) && ReceiverRank(s.receiver) == 5 - n)
    && (5 <= n <= 8 ==> Clearing(s) && ReceiverRank(s.receiver) == 16 - n)
    && (n == 9 ==> s.receiver == PostEmpty)
    && (n == 10 ==> s.receiver == Check)
    && (n == 11 ==> s.receiver == if m[k] == EXIT then DestroyFull else WaitFull)
    && (n >= 10 ==> s.empty == 1 && s.mutex == 1)
    && (n >= 5 ==> |s.got| == k + 1)
  }

  lemma StageMoves(s: System, m: seq<string>, n: nat, k: nat)
    requires n < 11 && Stage(s, m, n, k)
    ensures ReceiverCan(s)
  {
    hide Slot, Stopped, Faithful, EXIT;
  }

  lemma StageStep(s: System, m: seq<string>, n: nat, k: nat)
    requires AllLines(m) && n < 11 && Stage(s, m, n, k)
    ensures Stage(Turn(s, m, false), m, n + 1, k)
  {
    hide Slot, Stopped, EXIT;
    if n == 10 {
      assert s.got[k] == Whole(m[k]);
    }
    hide Faithful;
    StageMoves(s, m, n, k);
    ReceiverCanStep(s, m);
    assert Turn(s, m, false) == ReceiverStep(s);
  }

  /** The receiver takes one message and looks whether it is the exit message. */
  lemma ReceiveOne(s0: System, m: seq<string>, s: System) returns (t: System)
    requires AllLines(m) && Inv(s0, m) && Inv(s, m) && Leads(s0, m, s)
    requires s.sender == WaitEmpty && s.receiver == WaitFull && s.full == 1
    ensures Inv(t, m) && Leads(s0, m, t)
    ensures t.sender == WaitEmpty && t.next == s.next && |t.got| == s.next && s.next >= 1
    ensures t.receiver == if m[s.next - 1] == EXIT then DestroyFull else WaitFull
    ensures t.receiver == WaitFull ==> t.empty == 1 && t.mutex == 1
  {
    hide Slot, Faithful, Stopped, Leads, Turn;
    t := s;
    var n := 0;
    assert s.next >= 1;
    while n < 11
      invariant 0 <= n <= 11 && Stage(t, m, n, s.next - 1) && Leads(s0, m, t)
    {
      LeadsOn(s0, m, t, false);
      StageStep(t, m, n, s.next - 1);
      t := Turn(t, m, false);
      n := n + 1;
    }
  }

  /** The two processes can exchange the first messages one by one. */
  lemma {:induction false} Exchange(s0: System, m: seq<string>, s: System, e: nat) returns (t: System)
    requires AllLines(m) && Inv(s0, m) && Leads(s0, m, s) && Between(s, m) && s.next <= e < |m|
    requires forall i :: s.next <= i < e ==> m[i] != EXIT
    ensures Between(t, m) && Leads(s0, m, t) && t.next == e
    decreases e - s.next
  {
    if s.next == e {
      t := s;
    } else {
      hide Inv, Leads;
      t := SendOne(s0, m, s);
      t := ReceiveOne(s0, m, t);
      t := Exchange(s0, m, t, e);
    }
  }

  /** The receiver's last three turns. */
  lemma LastTurn(s: System, m: seq<string>)
    requires AllLines(m) && Inv(s, m) && Ending(s) && s.receiver != Finished
    ensures var t := Turn(s, m, false);
            t.next == s.next && Ending(t) && Destroyed(t.receiver) == t.destroyed == Destroyed(s.receiver) + 1
  {
    hide Slot, Faithful, Stopped;
  }

  lemma BetweenAtStart(m: seq<string>)
    requires AllLines(m) && m != []
    ensures Between(Begin(m), m) && Begin(m).next == 0 && Leads(Begin(m), m, Begin(m))
  {
    assert After(Begin(m), m, []) == Begin(m);
  }

  /** After an early exit message all semaphores can be destroyed with messages still unsent. */
  lemma EarlyTeardown(m: seq<string>) returns (schedule: seq<bool>)
    requires AllLines(m) && m != [] && m[|m| - 1] == EXIT && FirstExit(m) < |m| - 1
    ensures var s := Reached(m, schedule); s.destroyed == 3 && s.next < |m|
  {
    hide Inv, Turn, Start;
    var s := Begin(m);
    BetweenAtStart(m);
    var t := Exchange(s, m, s, FirstExit(m));
    t := SendOne(s, m, t);
    t := ReceiveOne(s, m, t);
    var n := 0;
    while n < 3
      invariant 0 <= n <= 3 && Inv(t, m) && Leads(s, m, t) && t.next < |m| && Ending(t)
      invariant Destroyed(t.receiver) == n && (n > 0 ==> t.destroyed == n)
    {
      LeadsOn(s, m, t, false);
      LastTurn(t, m);
      t := Turn(t, m, false);
      n := n + 1;
    }
    schedule :| After(s, m, schedule) == t;
  }

  /** The teardown is safe in every run exactly when no line read before the "EOF" line equals the
      exit message. If one does, some run destroys the semaphores while the sender still has a
      message to send. */
  lemma TeardownSafeIff(lines: seq<string>)
    requires AllLines(lines)
    ensures AllLines(Outgoing(lines))
    ensures EXIT !in Body(lines) <==>
            forall schedule :: var s := Reached(Outgoing(lines), schedule);
                               s.destroyed > 0 ==> s.next == |Outgoing(lines)|
  {
    hide Inv, Outgoing, Body, Reached, FirstExit;
    OutgoingLines(lines);
    OutgoingIsBody(lines);
    var m := Outgoing(lines);
    if EXIT !in Body(lines) {
      forall schedule
        ensures var s := Reached(m, schedule); s.destroyed > 0 ==> s.next == |m|
      {
        DeliversTheInput(lines, schedule);
      }
    } else {
      var i :| 0 <= i < |Body(lines)| && Body(lines)[i] == EXIT;
      assert m[i] == EXIT;
      var schedule := EarlyTeardown(m);
    }
  }
}
