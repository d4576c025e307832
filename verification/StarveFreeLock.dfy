/** The readers-writers lock of sleep_until_error/main.cpp: two condition variables and three counters under one
mutex.

A step is one critical section. A thread blocked in a condition variable sleeps until it is notified or wakes
spuriously; it then competes for the mutex like any other thread and tests its predicate again. */
module StarveFreeLock {
  import opened Counting
  import opened ReadersWriters
  import opened Runs

  datatype Phase = Idle | ReaderSleeps | ReaderNotified | Reading | WriterSleeps | WriterNotified | Writing

  datatype State = State(threads: seq<Phase>, readerCount: int, writerWaitingCount: int, writing: bool)

  predicate IsReading(p: Phase) {
    p == Reading
  }

  predicate IsWriting(p: Phase) {
    p == Writing
  }

  predicate IsWaitingWriter(p: Phase) {
    p == WriterSleeps || p == WriterNotified
  }

  predicate IsSleepingWriter(p: Phase) {
    p == WriterSleeps
  }

  predicate IsNotifiedWriter(p: Phase) {
    p == WriterNotified
  }

  predicate IsSleepingReader(p: Phase) {
    p == ReaderSleeps
  }

  /** The predicates of the two waits. */
  predicate ReaderMayEnter(s: State) {
    s.writerWaitingCount == 0 && !s.writing
  }

  predicate WriterMayEnter(s: State) {
    s.readerCount == 0 && !s.writing
  }

  // ------------------------------------------------------------------------------------------------- steps

  /** lock_shared from its start or after a wake-up, unlock_shared, lock from its start or after a wake-up,
      unlock, and a spurious wake-up. `woken` is the thread that notify_one picks, if any sleeps. */
  datatype Action =
    | LockShared(i: nat) | ResumeShared(i: nat) | UnlockShared(i: nat, woken: nat)
    | Lock(i: nat) | Resume(i: nat) | Unlock(i: nat, woken: nat)
    | Spurious(i: nat)

  predicate Enabled(s: State, a: Action) {
    && a.i < |s.threads|
    && match a
       case LockShared(i) => s.threads[i] == Idle
       case ResumeShared(i) => s.threads[i] == ReaderNotified
       case UnlockShared(i, w) => s.threads[i] == Reading && Wakes(s, w)
       case Lock(i) => s.threads[i] == Idle
       case Resume(i) => s.threads[i] == WriterNotified
       case Unlock(i, w) => s.threads[i] == Writing && Wakes(s, w)
       case Spurious(i) => s.threads[i] == ReaderSleeps || s.threads[i] == WriterSleeps
  }

  /** notify_one may pick w: a sleeping writer if there is one. */
  predicate Wakes(s: State, w: nat) {
    (exists j :: 0 <= j < |s.threads| && s.threads[j] == WriterSleeps) ==> w < |s.threads| && s.threads[w] == WriterSleeps
  }

  function TryShared(s: State, i: nat): State
    requires i < |s.threads|
  {
    if ReaderMayEnter(s) then s.(threads := s.threads[i := Reading], readerCount := s.readerCount + 1)
    else s.(threads := s.threads[i := ReaderSleeps])
  }

  /** After the increment of writer_waiting_count_. */
  function TryExclusive(s: State, i: nat): State
    requires i < |s.threads|
  {
    if WriterMayEnter(s) then
      s.(threads := s.threads[i := Writing], writerWaitingCount := s.writerWaitingCount - 1, writing := true)
    else s.(threads := s.threads[i := WriterSleeps])
  }

  function NotifyOne(threads: seq<Phase>, w: nat): seq<Phase> {
    if w < |threads| && threads[w] == WriterSleeps then threads[w := WriterNotified] else threads
  }

  function NotifyAll(threads: seq<Phase>): seq<Phase> {
    seq(|threads|, k requires 0 <= k < |threads| => if threads[k] == ReaderSleeps then ReaderNotified else threads[k])
  }

  function Perform(s: State, a: Action): State
    requires Enabled(s, a)
  {
    match a
    case LockShared(i) => TryShared(s, i)
    case ResumeShared(i) => TryShared(s, i)
    case UnlockShared(i, w) =>
      var t := s.(threads := s.threads[i := Idle], readerCount := s.readerCount - 1);
      if t.readerCount == 0 && t.writerWaitingCount > 0 then t.(threads := NotifyOne(t.threads, w)) else t
    case Lock(i) => TryExclusive(s.(writerWaitingCount := s.writerWaitingCount + 1), i)
    case Resume(i) => TryExclusive(s, i)
    case Unlock(i, w) =>
      var t := s.(threads := s.threads[i := Idle], writing := false);
      t.(threads := if t.writerWaitingCount > 0 then NotifyOne(t.threads, w) else NotifyAll(t.threads))
    case Spurious(i) => s.(threads := s.threads[i := if s.threads[i] == ReaderSleeps then ReaderNotified else WriterNotified])
  }

  // ---------------------------------------------------------------------------------------------- invariant

  /** The counters are exact. */
  predicate CountersExact(s: State) {
    && s.readerCount == Count(s.threads, IsReading)
    && s.writerWaitingCount == Count(s.threads, IsWaitingWriter)
    && Count(s.threads, IsWriting) == (if s.writing then 1 else 0)
  }

  /** A writer excludes everyone else. */
  predicate Exclusive(s: State) {
    s.writing ==> s.readerCount == 0
  }

  /** Nobody sleeps who should have been notified: with the lock free, a sleeping writer implies a notified one;
      with no writer waiting or writing, no reader sleeps. */
  predicate NoLostWakeup(s: State) {
    && (s.readerCount == 0 && !s.writing && Count(s.threads, IsSleepingWriter) > 0 ==> Count(s.threads, IsNotifiedWriter) > 0)
    && (s.writerWaitingCount == 0 && !s.writing ==> Count(s.threads, IsSleepingReader) == 0)
  }

  predicate Inv(s: State) {
    CountersExact(s) && Exclusive(s) && NoLostWakeup(s)
  }

  function Init(n: nat): State {
    State(seq(n, _ => Idle), 0, 0, false)
  }

  lemma InitInv(n: nat)
    ensures Inv(Init(n))
  {
    CountZero(Init(n).threads, IsReading);
    CountZero(Init(n).threads, IsWriting);
    CountZero(Init(n).threads, IsWaitingWriter);
    CountZero(Init(n).threads, IsSleepingWriter);
    CountZero(Init(n).threads, IsSleepingReader);
  }

  /** All counts when one thread changes phase. */
  lemma Moves(threads: seq<Phase>, i: nat, p: Phase)
    requires i < |threads|
    ensures var t := threads[i := p];
            && Count(t, IsReading) == Count(threads, IsReading) - (if IsReading(threads[i]) then 1 else 0) + (if IsReading(p) then 1 else 0)
            && Count(t, IsWriting) == Count(threads, IsWriting) - (if IsWriting(threads[i]) then 1 else 0) + (if IsWriting(p) then 1 else 0)
            && Count(t, IsWaitingWriter) == Count(threads, IsWaitingWriter) - (if IsWaitingWriter(threads[i]) then 1 else 0) + (if IsWaitingWriter(p) then 1 else 0)
            && Count(t, IsSleepingWriter) == Count(threads, IsSleepingWriter) - (if IsSleepingWriter(threads[i]) then 1 else 0) + (if IsSleepingWriter(p) then 1 else 0)
            && Count(t, IsNotifiedWriter) == Count(threads, IsNotifiedWriter) - (if IsNotifiedWriter(threads[i]) then 1 else 0) + (if IsNotifiedWriter(p) then 1 else 0)
            && Count(t, IsSleepingReader) == Count(threads, IsSleepingReader) - (if IsSleepingReader(threads[i]) then 1 else 0) + (if IsSleepingReader(p) then 1 else 0)
  {
    CountUpdate(threads, i, p, IsReading);
    CountUpdate(threads, i, p, IsWriting);
    CountUpdate(threads, i, p, IsWaitingWriter);
    CountUpdate(threads, i, p, IsSleepingWriter);
    CountUpdate(threads, i, p, IsNotifiedWriter);
    CountUpdate(threads, i, p, IsSleepingReader);
  }

  /** Notifying one writer moves a sleeping writer if there is one. */
  lemma NotifyOneCounts(threads: seq<Phase>, w: nat)
    requires (exists j :: 0 <= j < |threads| && threads[j] == WriterSleeps) ==> w < |threads| && threads[w] == WriterSleeps
    ensures var t := NotifyOne(threads, w);
            && Count(t, IsReading) == Count(threads, IsReading) && Count(t, IsWriting) == Count(threads, IsWriting)
            && Count(t, IsWaitingWriter) == Count(threads, IsWaitingWriter)
            && Count(t, IsSleepingReader) == Count(threads, IsSleepingReader)
            && (Count(t, IsSleepingWriter) > 0 ==> Count(t, IsNotifiedWriter) > 0)
  {
    if w < |threads| && threads[w] == WriterSleeps {
      Moves(threads, w, WriterNotified);
    } else {
      CountZero(threads, IsSleepingWriter);
    }
  }

  lemma NotifyAllCounts(threads: seq<Phase>)
    ensures var t := NotifyAll(threads);
            && Count(t, IsReading) == Count(threads, IsReading) && Count(t, IsWriting) == Count(threads, IsWriting)
            && Count(t, IsWaitingWriter) == Count(threads, IsWaitingWriter)
            && Count(t, IsSleepingWriter) == Count(threads, IsSleepingWriter)
            && Count(t, IsNotifiedWriter) == Count(threads, IsNotifiedWriter)
            && Count(t, IsSleepingReader) == 0
  {
    var t := NotifyAll(threads);
    CountSame(t, threads, IsReading);
    CountSame(t, threads, IsWriting);
    CountSame(t, threads, IsWaitingWriter);
    CountSame(t, threads, IsSleepingWriter);
    CountSame(t, threads, IsNotifiedWriter);
    CountZero(t, IsSleepingReader);
  }

  lemma WaitingSplit(threads: seq<Phase>)
    ensures Count(threads, IsWaitingWriter) == Count(threads, IsSleepingWriter) + Count(threads, IsNotifiedWriter)
  {
    if threads != [] {
      WaitingSplit(threads[..|threads| - 1]);
    }
  }

  lemma ReaderEntryInv(s: State, a: Action)
    requires Inv(s) && Enabled(s, a) && (a.LockShared? || a.ResumeShared?)
    ensures Inv(Perform(s, a))
  {
    hide Count;
    Moves(s.threads, a.i, if ReaderMayEnter(s) then Reading else ReaderSleeps);
  }

  lemma WriterEntryInv(s: State, a: Action)
    requires Inv(s) && Enabled(s, a) && (a.Lock? || a.Resume?)
    ensures Inv(Perform(s, a))
  {
    hide Count;
    Moves(s.threads, a.i, if WriterMayEnter(s) then Writing else WriterSleeps);
  }

  lemma ReaderExitInv(s: State, i: nat, w: nat)
    requires Inv(s) && Enabled(s, UnlockShared(i, w))
    ensures Inv(Perform(s, UnlockShared(i, w)))
  {
    hide Count;
    Moves(s.threads, i, Idle);
    NotifyOneCounts(s.threads[i := Idle], w);
    WaitingSplit(s.threads[i := Idle]);
  }

  lemma WriterExitInv(s: State, i: nat, w: nat)
    requires Inv(s) && Enabled(s, Unlock(i, w))
    ensures Inv(Perform(s, Unlock(i, w)))
  {
    hide Count, NotifyOne, NotifyAll;
    Moves(s.threads, i, Idle);
    WaitingSplit(s.threads[i := Idle]);
    if s.writerWaitingCount > 0 {
      NotifyOneCounts(s.threads[i := Idle], w);
    } else {
      NotifyAllCounts(s.threads[i := Idle]);
    }
  }

  lemma SpuriousInv(s: State, i: nat)
    requires Inv(s) && Enabled(s, Spurious(i))
    ensures Inv(Perform(s, Spurious(i)))
  {
    hide Count;
    Moves(s.threads, i, if s.threads[i] == ReaderSleeps then ReaderNotified else WriterNotified);
  }

  /** Every step keeps the invariant. */
  lemma StepInv(s: State, a: Action)
    requires Inv(s) && Enabled(s, a)
    ensures Inv(Perform(s, a))
  {
    hide Inv;
    match a
    case LockShared(i) => ReaderEntryInv(s, a);
    case ResumeShared(i) => ReaderEntryInv(s, a);
    case Lock(i) => WriterEntryInv(s, a);
    case Resume(i) => WriterEntryInv(s, a);
    case UnlockShared(i, w) => ReaderExitInv(s, i, w);
    case Unlock(i, w) => WriterExitInv(s, i, w);
    case Spurious(i) => SpuriousInv(s, i);
  }

  // -------------------------------------------------------------------------------------------------- runs

  /** The state after performing the actions in order from s, when each is enabled in its turn. */
  function After(s: State, actions: seq<Action>): Run<State>
    decreases |actions|
  {
    if actions == [] then Reached(s)
    else
      var before, a := After(s, actions[..|actions| - 1]), actions[|actions| - 1];
      if before.Reached? && Enabled(before.state, a) then Reached(Perform(before.state, a)) else Blocked
  }

  lemma {:induction false} RunInv(s: State, actions: seq<Action>)
    requires Inv(s) && After(s, actions).Reached?
    ensures Inv(After(s, actions).state)
    decreases |actions|
  {
    hide Inv;
    if actions != [] {
      RunInv(s, actions[..|actions| - 1]);
      StepInv(After(s, actions[..|actions| - 1]).state, actions[|actions| - 1]);
    }
  }

  /** In every run: the counters count the threads in each phase, and two threads are inside together only if
      both read. */
  lemma CountersAndExclusion(n: nat, actions: seq<Action>, i: nat, j: nat)
    requires After(Init(n), actions).Reached?
    requires i < j < |After(Init(n), actions).state.threads|
    ensures var s := After(Init(n), actions).state;
            && s.readerCount == Count(s.threads, IsReading)
            && s.writerWaitingCount == Count(s.threads, IsWaitingWriter)
            && (s.writing <==> exists k :: 0 <= k < |s.threads| && s.threads[k] == Writing)
            && !(s.threads[i] == Writing && s.threads[j] == Writing)
            && !(s.threads[i] == Writing && s.threads[j] == Reading)
            && !(s.threads[i] == Reading && s.threads[j] == Writing)
  {
    InitInv(n);
    RunInv(Init(n), actions);
    var s := After(Init(n), actions).state;
    Inside(s, i, j);
  }

  lemma Inside(s: State, i: nat, j: nat)
    requires Inv(s) && i < j < |s.threads|
    ensures s.writing <==> exists k :: 0 <= k < |s.threads| && s.threads[k] == Writing
    ensures !(s.threads[i] == Writing && s.threads[j] == Writing)
    ensures !(s.threads[i] == Writing && s.threads[j] == Reading)
    ensures !(s.threads[i] == Reading && s.threads[j] == Writing)
  {
    hide Count;
    CountZero(s.threads, IsWriting);
    CountZero(s.threads, IsReading);
    if s.threads[i] == Writing && s.threads[j] == Writing {
      CountTwo(s.threads, i, j, IsWriting);
    }
  }

  // --------------------------------------------------------------------------------- what the calls achieve

  /** A thread is inside, or somewhere in `lock_shared` or `lock`, or in neither. */
  datatype Role = Outsider | Reader | Writer

  function RoleOf(p: Phase): Role {
    match p
    case Idle => Outsider
    case ReaderSleeps => Reader
    case ReaderNotified => Reader
    case Reading => Reader
    case WriterSleeps => Writer
    case WriterNotified => Writer
    case Writing => Writer
  }

  /** The last call thread i made: `lock_shared` or `lock`, and neither when it was an unlock or there was none. */
  function LastCall(actions: seq<Action>, i: nat): Role {
    if actions == [] then Outsider
    else
      match actions[|actions| - 1]
      case LockShared(j) => if i == j then Reader else LastCall(actions[..|actions| - 1], i)
      case Lock(j) => if i == j then Writer else LastCall(actions[..|actions| - 1], i)
      case UnlockShared(j, _) => if i == j then Outsider else LastCall(actions[..|actions| - 1], i)
      case Unlock(j, _) => if i == j then Outsider else LastCall(actions[..|actions| - 1], i)
      case _ => LastCall(actions[..|actions| - 1], i)
  }

  lemma RoleStep(s: State, a: Action, i: nat)
    requires Enabled(s, a) && i < |s.threads|
    ensures |Perform(s, a).threads| == |s.threads|
    ensures a.i != i || a.ResumeShared? || a.Resume? || a.Spurious? ==> RoleOf(Perform(s, a).threads[i]) == RoleOf(s.threads[i])
    ensures a == LockShared(i) ==> RoleOf(Perform(s, a).threads[i]) == Reader
    ensures a == Lock(i) ==> RoleOf(Perform(s, a).threads[i]) == Writer
    ensures a.i == i && (a.UnlockShared? || a.Unlock?) ==> Perform(s, a).threads[i] == Idle
  {
  }

  /** In every run a thread is inside or in the wait of its last call exactly until it unlocks. */
  lemma {:induction false} CallsAndPhases(n: nat, actions: seq<Action>, i: nat)
    requires After(Init(n), actions).Reached? && i < n
    ensures |After(Init(n), actions).state.threads| == n
    ensures RoleOf(After(Init(n), actions).state.threads[i]) == LastCall(actions, i)
    decreases |actions|
  {
    hide Perform;
    if actions != [] {
      CallsAndPhases(n, actions[..|actions| - 1], i);
      RoleStep(After(Init(n), actions[..|actions| - 1]).state, actions[|actions| - 1], i);
    }
  }

  predicate IsInside(p: Phase) {
    p == Reading || p == Writing
  }

  predicate IsWriter(p: Phase) {
    RoleOf(p) == Writer
  }

  /** `lock_shared`, at its start or woken, lets the reader in exactly when no thread writes or waits to write, and
      puts it to sleep otherwise. */
  lemma SharedEntryIff(s: State, a: Action)
    requires Inv(s) && Enabled(s, a) && (a.LockShared? || a.ResumeShared?)
    ensures Perform(s, a).threads
         == s.threads[a.i := if forall j :: 0 <= j < |s.threads| ==> !IsWriter(s.threads[j]) then Reading else ReaderSleeps]
  {
    hide Count;
    CountZero(s.threads, IsWaitingWriter);
    CountZero(s.threads, IsWriting);
    if j :| 0 <= j < |s.threads| && IsWriter(s.threads[j]) {
      assert IsWaitingWriter(s.threads[j]) || IsWriting(s.threads[j]);
    }
  }

  /** `lock`, at its start or woken, lets the writer in exactly when no thread is inside, and puts it to sleep
      otherwise. */
  lemma ExclusiveEntryIff(s: State, a: Action)
    requires Inv(s) && Enabled(s, a) && (a.Lock? || a.Resume?)
    ensures Perform(s, a).threads
         == s.threads[a.i := if forall j :: 0 <= j < |s.threads| ==> !IsInside(s.threads[j]) then Writing else WriterSleeps]
  {
    hide Count;
    CountZero(s.threads, IsReading);
    CountZero(s.threads, IsWriting);
    if j :| 0 <= j < |s.threads| && IsInside(s.threads[j]) {
      assert IsReading(s.threads[j]) || IsWriting(s.threads[j]);
    }
  }

  /** `unlock_shared` makes its thread idle; when that leaves nobody inside, one sleeping writer, if there is one, is
      notified; nothing else happens to anybody. */
  lemma SharedExit(s: State, i: nat, w: nat, j: nat)
    requires Inv(s) && Enabled(s, UnlockShared(i, w)) && j < |s.threads|
    ensures var p, t := s.threads[j], Perform(s, UnlockShared(i, w)).threads;
            |t| == |s.threads| &&
            t[j] == if j == i then Idle
                    else if j == w && p == WriterSleeps && (forall k :: 0 <= k < |t| ==> !IsInside(t[k])) then WriterNotified
                    else p
  {
    hide Count;
    var t := Perform(s, UnlockShared(i, w)).threads;
    ReaderExitInv(s, i, w);
    CountZero(t, IsReading);
    CountZero(t, IsWriting);
    CountZero(s.threads, IsWaitingWriter);
    if k :| 0 <= k < |t| && IsInside(t[k]) {
      assert IsReading(t[k]);
    }
  }

  /** `unlock` makes its thread idle; when a writer waits, one sleeping writer, if there is one, is notified, and
      otherwise every sleeping reader is; nothing else happens to anybody. */
  lemma ExclusiveExit(s: State, i: nat, w: nat, j: nat)
    requires Inv(s) && Enabled(s, Unlock(i, w)) && j < |s.threads|
    ensures var p, t := s.threads[j], Perform(s, Unlock(i, w)).threads;
            |t| == |s.threads| &&
            t[j] == if j == i then Idle
                    else if j == w && p == WriterSleeps then WriterNotified
                    else if p == ReaderSleeps && (forall k :: 0 <= k < |t| ==> !IsWriter(t[k])) then ReaderNotified
                    else p
  {
    hide Count;
    var t := Perform(s, Unlock(i, w)).threads;
    WriterExitInv(s, i, w);
    CountZero(t, IsWaitingWriter);
    CountZero(t, IsWriting);
    CountZero(s.threads, IsWaitingWriter);
    if k :| 0 <= k < |t| && IsWriter(t[k]) {
      assert IsWaitingWriter(t[k]);
    }
  }

  // --------------------------------------------------------------------------------------------- progress

  /** An enter or leave step: one that changes who is inside. */
  predicate EntersOrLeaves(s: State, a: Action)
    requires Enabled(s, a)
  {
    match a
    case UnlockShared(_, _) => true
    case Unlock(_, _) => true
    case ResumeShared(_) => ReaderMayEnter(s)
    case Resume(_) => WriterMayEnter(s)
    case _ => false
  }

  /** Some thread that notify_one may pick. */
  lemma Wakeable(s: State) returns (w: nat)
    ensures Wakes(s, w)
  {
    w := 0;
    if exists j :: 0 <= j < |s.threads| && s.threads[j] == WriterSleeps {
      w :| 0 <= w < |s.threads| && s.threads[w] == WriterSleeps;
    }
  }

  /** No deadlock and no lost wake-up: whenever some thread is not idle, a thread that is inside can leave or a
      thread that has been notified can enter. */
  lemma Progress(s: State) returns (a: Action)
    requires Inv(s) && exists i :: 0 <= i < |s.threads| && s.threads[i] != Idle
    ensures Enabled(s, a) && EntersOrLeaves(s, a)
  {
    hide Count;
    var w := Wakeable(s);
    if s.readerCount > 0 {
      var i := Find(s.threads, IsReading);
      a := UnlockShared(i, w);
    } else if s.writing {
      var i := Find(s.threads, IsWriting);
      a := Unlock(i, w);
    } else {
      CountZero(s.threads, IsReading);
      CountZero(s.threads, IsWriting);
      CountZero(s.threads, IsSleepingReader);
      CountZero(s.threads, IsSleepingWriter);
      CountZero(s.threads, IsNotifiedWriter);
      CountZero(s.threads, IsWaitingWriter);
      WaitingSplit(s.threads);
      if s.writerWaitingCount > 0 {
        var i := Find(s.threads, IsNotifiedWriter);
        a := Resume(i);
      } else {
        var i :| 0 <= i < |s.threads| && s.threads[i] != Idle;
        a := ResumeShared(i);
      }
    }
  }

  // ----------------------------------------------------------------------------------- writer preference

  function ReaderExits(actions: seq<Action>): nat {
    if actions == [] then 0 else ReaderExits(actions[..|actions| - 1]) + if actions[|actions| - 1].UnlockShared? then 1 else 0
  }

  /** A writer waits before each of the actions. */
  predicate WriterWaitsThroughout(s: State, actions: seq<Action>)
    decreases |actions|
  {
    actions != [] ==>
      && WriterWaitsThroughout(s, actions[..|actions| - 1])
      && (After(s, actions[..|actions| - 1]).Reached? ==> After(s, actions[..|actions| - 1]).state.writerWaitingCount > 0)
  }

  /** While a writer waits no reader enters: the readers inside are those at the start less the exits. So after
      as many reader exits as there were readers, no reader is inside. */
  lemma {:induction false} ReadersDrain(s: State, actions: seq<Action>)
    requires Inv(s) && After(s, actions).Reached? && WriterWaitsThroughout(s, actions)
    ensures After(s, actions).state.readerCount == s.readerCount - ReaderExits(actions) >= 0
    decreases |actions|
  {
    hide Inv;
    if actions != [] {
      ReadersDrain(s, actions[..|actions| - 1]);
    }
    RunInv(s, actions);
    NonNegative(After(s, actions).state);
  }

  lemma NonNegative(s: State)
    requires Inv(s)
    ensures s.readerCount >= 0
  {
  }

  /** When those exits have happened and no writer is inside, a waiting writer has been notified and can enter. */
  lemma DrainedWriterEnters(s: State, actions: seq<Action>) returns (i: nat)
    requires Inv(s) && After(s, actions).Reached? && WriterWaitsThroughout(s, actions)
    requires ReaderExits(actions) == s.readerCount
    requires After(s, actions).state.writerWaitingCount > 0 && !After(s, actions).state.writing
    ensures Enabled(After(s, actions).state, Resume(i))
    ensures Perform(After(s, actions).state, Resume(i)).threads[i] == Writing
  {
    hide Count;
    ReadersDrain(s, actions);
    RunInv(s, actions);
    var t := After(s, actions).state;
    WaitingSplit(t.threads);
    CountZero(t.threads, IsSleepingWriter);
    i := Find(t.threads, IsNotifiedWriter);
  }

  // ------------------------------------------------------------------------------------------- refinement

  function UsersOf(s: State): Users {
    Users(Those(s.threads, IsReading), Those(s.threads, IsWriting))
  }

  /** A thread that changes phase without entering or leaving. */
  lemma Outside(threads: seq<Phase>, i: nat, p: Phase)
    requires i < |threads| && IsReading(threads[i]) == IsReading(p) && IsWriting(threads[i]) == IsWriting(p)
    ensures Those(threads[i := p], IsReading) == Those(threads, IsReading)
    ensures Those(threads[i := p], IsWriting) == Those(threads, IsWriting)
  {
    ThoseSame(threads[i := p], threads, IsReading);
    ThoseSame(threads[i := p], threads, IsWriting);
  }

  lemma NotifyingUsers(threads: seq<Phase>, w: nat)
    ensures Those(NotifyOne(threads, w), IsReading) == Those(threads, IsReading)
    ensures Those(NotifyOne(threads, w), IsWriting) == Those(threads, IsWriting)
    ensures Those(NotifyAll(threads), IsReading) == Those(threads, IsReading)
    ensures Those(NotifyAll(threads), IsWriting) == Those(threads, IsWriting)
  {
    ThoseSame(NotifyOne(threads, w), threads, IsReading);
    ThoseSame(NotifyOne(threads, w), threads, IsWriting);
    ThoseSame(NotifyAll(threads), threads, IsReading);
    ThoseSame(NotifyAll(threads), threads, IsWriting);
  }

  lemma CountsToUsers(s: State)
    requires Inv(s)
    ensures s.readerCount == 0 ==> UsersOf(s).readers == {}
    ensures !s.writing ==> UsersOf(s).writers == {}
    ensures forall i :: i in UsersOf(s).writers ==> UsersOf(s).writers == {i}
  {
    CountZero(s.threads, IsReading);
    CountZero(s.threads, IsWriting);
    forall i, j | i in UsersOf(s).writers && j in UsersOf(s).writers ensures i == j {
      if i < j {
        CountTwo(s.threads, i, j, IsWriting);
      } else if j < i {
        CountTwo(s.threads, j, i, IsWriting);
      }
    }
  }

  /** Every step of the lock is a step of the abstract readers-writers lock, or leaves it alone. */
  lemma Refines(s: State, a: Action)
    requires Inv(s) && Enabled(s, a)
    ensures Next(UsersOf(s), UsersOf(Perform(s, a)))
  {
    hide Count, Inv, Those;
    var l, l', t := UsersOf(s), UsersOf(Perform(s, a)), s.threads;
    CountsToUsers(s);
    match a
    case Spurious(i) =>
      Outside(t, i, if t[i] == ReaderSleeps then ReaderNotified else WriterNotified);
    case UnlockShared(i, w) =>
      NotifyingUsers(t[i := Idle], w);
      ThoseUpdate(t, i, Idle, IsReading);
      ThoseUpdate(t, i, Idle, IsWriting);
      Member(t, i);
      assert ReaderLeaves(l, i, l');
    case Unlock(i, w) =>
      NotifyingUsers(t[i := Idle], w);
      ThoseUpdate(t, i, Idle, IsReading);
      ThoseUpdate(t, i, Idle, IsWriting);
      Member(t, i);
      assert WriterLeaves(l, i, l');
    case _ =>
      EntryRefines(s, a);
  }

  lemma Member(threads: seq<Phase>, i: nat)
    requires i < |threads|
    ensures i in Those(threads, IsReading) <==> threads[i] == Reading
    ensures i in Those(threads, IsWriting) <==> threads[i] == Writing
  {
  }

  lemma EntryRefines(s: State, a: Action)
    requires Inv(s) && Enabled(s, a) && (a.LockShared? || a.ResumeShared? || a.Lock? || a.Resume?)
    ensures Next(UsersOf(s), UsersOf(Perform(s, a)))
  {
    hide Count, Inv, Those;
    var l, l', t, i := UsersOf(s), UsersOf(Perform(s, a)), s.threads, a.i;
    var reader := a.LockShared? || a.ResumeShared?;
    CountsToUsers(s);
    Member(t, i);
    if reader && ReaderMayEnter(s) {
      ThoseUpdate(t, i, Reading, IsReading);
      ThoseUpdate(t, i, Reading, IsWriting);
      assert ReaderEnters(l, i, l');
    } else if !reader && WriterMayEnter(s) {
      ThoseUpdate(t, i, Writing, IsReading);
      ThoseUpdate(t, i, Writing, IsWriting);
      assert WriterEnters(l, i, l');
    } else {
      Outside(t, i, if reader then ReaderSleeps else WriterSleeps);
    }
  }

  // --------------------------------------------------------------------------- when a sleeping reader wakes

  /** Reader i sleeps in every state of the run. */
  predicate AsleepThroughout(s: State, actions: seq<Action>, i: nat)
    decreases |actions|
  {
    && (actions != [] ==> AsleepThroughout(s, actions[..|actions| - 1], i))
    && (After(s, actions).Reached? ==> var t := After(s, actions).state.threads; i < |t| && t[i] == ReaderSleeps)
  }

  /** Every unlock of the run finds another writer waiting. */
  predicate WritersHandOver(s: State, actions: seq<Action>)
    decreases |actions|
  {
    actions != [] ==>
      var before, a := After(s, actions[..|actions| - 1]), actions[|actions| - 1];
      && WritersHandOver(s, actions[..|actions| - 1])
      && (before.Reached? && a.Unlock? ==> before.state.writerWaitingCount > 0)
  }

  predicate NoSpuriousFor(actions: seq<Action>, i: nat) {
    forall k :: 0 <= k < |actions| ==> actions[k] != Spurious(i)
  }

  /** Spurious wake-ups aside, a sleeping reader stays asleep through a run exactly when every unlock in it finds
      another writer waiting; the first one that does not wakes it. */
  lemma {:induction false} SleepsOnIff(s: State, actions: seq<Action>, i: nat)
    requires After(s, actions).Reached? && NoSpuriousFor(actions, i)
    requires i < |s.threads| && s.threads[i] == ReaderSleeps
    ensures AsleepThroughout(s, actions, i) <==> WritersHandOver(s, actions)
    decreases |actions|
  {
    if actions != [] {
      var n := |actions| - 1;
      SleepsOnIff(s, actions[..n], i);
      if AsleepThroughout(s, actions[..n], i) {
        assert actions[n] != Spurious(i);
        WakesIff(After(s, actions[..n]).state, actions[n], i);
      }
    }
  }

  lemma WakesIff(s: State, a: Action, i: nat)
    requires Enabled(s, a) && a != Spurious(i) && i < |s.threads| && s.threads[i] == ReaderSleeps
    ensures var t := Perform(s, a).threads; i < |t| && (t[i] == ReaderSleeps <==> (a.Unlock? ==> s.writerWaitingCount > 0))
  {
  }

  function Writers(s: State): int {
    s.writerWaitingCount + if s.writing then 1 else 0
  }

  function WriterExits(actions: seq<Action>): nat {
    if actions == [] then 0 else WriterExits(actions[..|actions| - 1]) + if actions[|actions| - 1].Unlock? then 1 else 0
  }

  predicate NoNewWriter(actions: seq<Action>) {
    forall k :: 0 <= k < |actions| ==> !actions[k].Lock?
  }

  /** As long as no further writer asks for the lock, the writers present are those at the start less the exits. */
  lemma {:induction false} WritersDrain(s: State, actions: seq<Action>)
    requires Inv(s) && After(s, actions).Reached? && NoNewWriter(actions)
    ensures Writers(After(s, actions).state) == Writers(s) - WriterExits(actions) >= 0
    decreases |actions|
  {
    hide Inv;
    if actions != [] {
      var n := |actions| - 1;
      WritersDrain(s, actions[..n]);
      RunInv(s, actions[..n]);
      assert !actions[n].Lock?;
      WritersStep(After(s, actions[..n]).state, actions[n]);
    }
    RunInv(s, actions);
    WritersNonNegative(After(s, actions).state);
  }

  lemma WritersStep(s: State, a: Action)
    requires Inv(s) && Enabled(s, a) && !a.Lock?
    ensures Writers(Perform(s, a)) == Writers(s) - if a.Unlock? then 1 else 0
  {
    hide Count;
    if a.Unlock? {
      CountSome(s.threads, a.i, IsWriting);
    }
  }

  lemma WritersNonNegative(s: State)
    requires Inv(s)
    ensures Writers(s) >= 0 && s.writerWaitingCount >= 0 && s.readerCount >= 0
  {
  }

  /** So after as many writer exits as there were writers, waiting and writing, no reader is asleep any more, and
      every one that was woken can enter. */
  lemma DrainedReaderEnters(s: State, actions: seq<Action>, i: nat)
    requires Inv(s) && After(s, actions).Reached? && NoNewWriter(actions) && WriterExits(actions) == Writers(s)
    requires i < |After(s, actions).state.threads|
    ensures var t := After(s, actions).state;
            && t.threads[i] != ReaderSleeps
            && (t.threads[i] == ReaderNotified ==> Enabled(t, ResumeShared(i)) && Perform(t, ResumeShared(i)).threads[i] == Reading)
  {
    hide Count;
    WritersDrain(s, actions);
    RunInv(s, actions);
    var t := After(s, actions).state;
    WritersNonNegative(t);
    CountZero(t.threads, IsSleepingReader);
  }

  /** And those exits can always happen: some continuation without a new writer brings them about. */
  lemma {:induction false} WritersCanDrain(s: State) returns (actions: seq<Action>)
    requires Inv(s)
    ensures After(s, actions).Reached? && NoNewWriter(actions) && WriterExits(actions) == Writers(s)
    decreases s.readerCount + 2 * s.writerWaitingCount + if s.writing then 1 else 0
  {
    hide Count, Inv;
    WritersNonNegative(s);
    actions := [];
    if Writers(s) > 0 {
      var a := DrainingStep(s);
      StepInv(s, a);
      WritersStep(s, a);
      WritersNonNegative(Perform(s, a));
      var rest := WritersCanDrain(Perform(s, a));
      actions := [a] + rest;
      FirstThenRest(s, a, rest);
      WriterExitsFirst(a, rest);
    }
  }

  lemma DrainingStep(s: State) returns (a: Action)
    requires Inv(s) && Writers(s) > 0
    ensures Enabled(s, a) && !a.Lock?
    ensures var t := Perform(s, a);
            t.readerCount + 2 * t.writerWaitingCount + (if t.writing then 1 else 0)
              < s.readerCount + 2 * s.writerWaitingCount + if s.writing then 1 else 0
  {
    hide Count;
    CountZero(s.threads, IsWaitingWriter);
    CountZero(s.threads, IsWriting);
    a := Progress(s);
    if a.UnlockShared? {
      CountSome(s.threads, a.i, IsReading);
    } else if a.Unlock? {
      CountSome(s.threads, a.i, IsWriting);
    }
  }

  lemma FirstThenRest(s: State, a: Action, rest: seq<Action>)
    requires Enabled(s, a) && After(Perform(s, a), rest).Reached?
    ensures After(s, [a] + rest) == After(Perform(s, a), rest)
  {
    Start(s);
    Then(s, [], a, s, Perform(s, a));
    assert [] + [a] == [a];
    AfterConcat(s, [a], rest);
  }

  lemma {:induction false} WriterExitsFirst(a: Action, rest: seq<Action>)
    ensures WriterExits([a] + rest) == WriterExits(rest) + if a.Unlock? then 1 else 0
  {
    if rest == [] {
      assert ([a] + rest)[..0] == [];
    } else {
      var n := |rest| - 1;
      WriterExitsFirst(a, rest[..n]);
      assert ([a] + rest)[..n + 1] == [a] + rest[..n];
    }
  }

  // ------------------------------------------------------------------------------ readers are not protected

  /** Thread 1 writes, thread 2 waits to write, thread 0 waits to read. */
  const CONTENDED := State([ReaderSleeps, Writing, WriterSleeps], 0, 1, true)

  /** Threads 1 and 2 take turns writing, each asking again before the other leaves. */
  const TURNS: seq<Action> := [Unlock(1, 2), Resume(2), Lock(1), Unlock(2, 1), Resume(1), Lock(2)]

  /** From the start to `CONTENDED`. */
  const OPENING := [Lock(1), LockShared(0), Lock(2)]

  lemma {:induction false} AfterConcat(s: State, a: seq<Action>, b: seq<Action>)
    requires After(s, a).Reached? && After(After(s, a).state, b).Reached?
    ensures After(s, a + b) == After(After(s, a).state, b)
    decreases |b|
  {
    if b == [] {
      assert a + b == a;
    } else {
      AfterConcat(s, a, b[..|b| - 1]);
      assert (a + b)[..|a + b| - 1] == a + b[..|b| - 1];
    }
  }

  /** Performing actions one by one. */
  lemma Then(s: State, a: seq<Action>, b: Action, s1: State, s2: State)
    requires After(s, a) == Reached(s1) && Enabled(s1, b) && Perform(s1, b) == s2
    ensures After(s, a + [b]) == Reached(s2)
  {
    assert (a + [b])[..|a|] == a;
  }

  lemma OpeningReaches()
    ensures After(Init(3), OPENING) == Reached(CONTENDED)
  {
    hide After;
    Start(Init(3));
    assert Init(3).threads == [Idle, Idle, Idle] && [] + [Lock(1)] == OPENING[..1];
    Then(Init(3), [], Lock(1), Init(3), State([Idle, Writing, Idle], 0, 0, true));
    Then(Init(3), OPENING[..1], LockShared(0), State([Idle, Writing, Idle], 0, 0, true), State([ReaderSleeps, Writing, Idle], 0, 0, true));
    assert OPENING[..1] + [LockShared(0)] == OPENING[..2];
    Then(Init(3), OPENING[..2], Lock(2), State([ReaderSleeps, Writing, Idle], 0, 0, true), CONTENDED);
    assert OPENING[..2] + [Lock(2)] == OPENING;
  }

  /** One round of turns ends where it began, with the reader still asleep. */
  lemma TurnsRepeat()
    ensures After(CONTENDED, TURNS) == Reached(CONTENDED)
  {
    hide After;
    var s1, s2 := State([ReaderSleeps, Idle, WriterNotified], 0, 1, false), State([ReaderSleeps, Idle, Writing], 0, 0, true);
    var s3, s4 := State([ReaderSleeps, WriterSleeps, Writing], 0, 1, true), State([ReaderSleeps, WriterNotified, Idle], 0, 1, false);
    var s5 := State([ReaderSleeps, Writing, Idle], 0, 0, true);
    Start(CONTENDED);
    assert [] + [TURNS[0]] == TURNS[..1];
    Then(CONTENDED, [], TURNS[0], CONTENDED, s1);
    assert TURNS[..1] + [TURNS[1]] == TURNS[..2];
    Then(CONTENDED, TURNS[..1], TURNS[1], s1, s2);
    assert TURNS[..2] + [TURNS[2]] == TURNS[..3];
    Then(CONTENDED, TURNS[..2], TURNS[2], s2, s3);
    assert TURNS[..3] + [TURNS[3]] == TURNS[..4];
    Then(CONTENDED, TURNS[..3], TURNS[3], s3, s4);
    assert TURNS[..4] + [TURNS[4]] == TURNS[..5];
    Then(CONTENDED, TURNS[..4], TURNS[4], s4, s5);
    assert TURNS[..5] + [TURNS[5]] == TURNS;
    Then(CONTENDED, TURNS[..5], TURNS[5], s5, CONTENDED);
  }

  lemma Start(s: State)
    ensures After(s, []) == Reached(s)
  {
  }

  function Repeat(actions: seq<Action>, k: nat): seq<Action> {
    if k == 0 then [] else Repeat(actions, k - 1) + actions
  }

  function WriterEntries(actions: seq<Action>): nat {
    if actions == [] then 0 else WriterEntries(actions[..|actions| - 1]) + if actions[|actions| - 1].Resume? then 1 else 0
  }

  lemma {:induction false} WriterEntriesConcat(a: seq<Action>, b: seq<Action>)
    ensures WriterEntries(a + b) == WriterEntries(a) + WriterEntries(b)
  {
    if b == [] {
      assert a + b == a;
    } else {
      WriterEntriesConcat(a, b[..|b| - 1]);
      assert (a + b)[..|a + b| - 1] == a + b[..|b| - 1];
    }
  }

  lemma TurnsWrite()
    ensures WriterEntries(TURNS) == 2
  {
    assert TURNS[..5][..4] == TURNS[..4] && TURNS[..4][..3] == TURNS[..3] && TURNS[..3][..2] == TURNS[..2]
        && TURNS[..2][..1] == TURNS[..1] && TURNS[..1][..0] == [];
    assert WriterEntries(TURNS[..1]) == 0 && WriterEntries(TURNS[..2]) == 1 && WriterEntries(TURNS[..3]) == 1;
    assert WriterEntries(TURNS[..4]) == 1 && WriterEntries(TURNS[..5]) == 2;
  }

  /** The lock's name promises more than it keeps: after the reader has gone to sleep it can wait through any
      number of writes. */
  lemma {:induction false} ReaderCanStarve(k: nat)
    ensures After(Init(3), OPENING) == Reached(CONTENDED) && CONTENDED.threads[0] == ReaderSleeps
    ensures After(CONTENDED, Repeat(TURNS, k)) == Reached(CONTENDED) && WriterEntries(Repeat(TURNS, k)) == 2 * k
  {
    hide After;
    OpeningReaches();
    if k > 0 {
      ReaderCanStarve(k - 1);
      TurnsRepeat();
      TurnsWrite();
      AfterConcat(CONTENDED, Repeat(TURNS, k - 1), TURNS);
      WriterEntriesConcat(Repeat(TURNS, k - 1), TURNS);
    } else {
      Start(CONTENDED);
    }
  }

  // ------------------------------------------------------------------------------------------- the program

  /** The class itself, with the positions of the threads that use it and the wait sets of its two condition
      variables in `threads`. A wait that does not return at once leaves the thread asleep. */
  class StarveFree {
    var threads: seq<Phase>
    var readerCount: int
    var writerWaitingCount: int
    var writing: bool

    function Now(): State
      reads this
    {
      State(threads, readerCount, writerWaitingCount, writing)
    }

    constructor (n: nat)
      ensures Now() == Init(n) && Inv(Now())
    {
      threads := seq(n, _ => Idle);
      readerCount, writerWaitingCount, writing := 0, 0, false;
      new;
      InitInv(n);
    }

    method LockShared(i: nat)
      requires Inv(Now()) && i < |threads| && (threads[i] == Idle || threads[i] == ReaderNotified)
      modifies `threads, `readerCount
      ensures Now() == Perform(old(Now()), if old(threads)[i] == Idle then Action.LockShared(i) else ResumeShared(i))
      ensures Inv(Now())
    {
      StepInv(Now(), if threads[i] == Idle then Action.LockShared(i) else ResumeShared(i));
      if writerWaitingCount == 0 && !writing {
        readerCount := readerCount + 1;
        threads := threads[i := Reading];
      } else {
        threads := threads[i := ReaderSleeps];
      }
    }

    /** notify_one on writer_cv_ */
    method NotifyWriter() returns (ghost woken: nat)
      modifies `threads
      ensures Wakes(old(Now()), woken) && threads == NotifyOne(old(threads), woken)
    {
      woken := |threads|;
      if w: nat :| w < |threads| && threads[w] == WriterSleeps {
        threads := threads[w := WriterNotified];
        woken := w;
      }
    }

    /** notify_all on reader_cv_ */
    method NotifyReaders()
      modifies `threads
      ensures threads == NotifyAll(old(threads))
    {
      for k := 0 to |threads|
        invariant |threads| == |old(threads)|
        invariant forall j :: 0 <= j < |threads| ==> threads[j] == if j < k then NotifyAll(old(threads))[j] else old(threads)[j]
      {
        if threads[k] == ReaderSleeps {
          threads := threads[k := ReaderNotified];
        }
      }
    }

    method UnlockShared(i: nat) returns (ghost woken: nat)
      requires Inv(Now()) && i < |threads| && threads[i] == Reading
      modifies `threads, `readerCount
      ensures Enabled(old(Now()), Action.UnlockShared(i, woken))
      ensures Now() == Perform(old(Now()), Action.UnlockShared(i, woken)) && Inv(Now())
    {
      hide Inv;
      ghost var before := Now();
      readerCount := readerCount - 1;
      threads := threads[i := Idle];
      woken := Wakeable(before);
      if readerCount == 0 && writerWaitingCount > 0 {
        woken := NotifyWriter();
        SleepersStay(before.threads, i);
      }
      StepInv(before, Action.UnlockShared(i, woken));
    }

    /** lock(), from its start or from a wake-up inside its wait */
    method Lock(i: nat)
      requires Inv(Now()) && i < |threads| && (threads[i] == Idle || threads[i] == WriterNotified)
      modifies `threads, `writerWaitingCount, `writing
      ensures Now() == Perform(old(Now()), if old(threads)[i] == Idle then Action.Lock(i) else Resume(i))
      ensures Inv(Now())
    {
      StepInv(Now(), if threads[i] == Idle then Action.Lock(i) else Resume(i));
      if threads[i] == Idle {
        writerWaitingCount := writerWaitingCount + 1;
      }
      if readerCount == 0 && !writing {
        writerWaitingCount := writerWaitingCount - 1;
        writing := true;
        threads := threads[i := Writing];
      } else {
        threads := threads[i := WriterSleeps];
      }
    }

    method Unlock(i: nat) returns (ghost woken: nat)
      requires Inv(Now()) && i < |threads| && threads[i] == Writing
      modifies `threads, `writing
      ensures Enabled(old(Now()), Action.Unlock(i, woken))
      ensures Now() == Perform(old(Now()), Action.Unlock(i, woken)) && Inv(Now())
    {
      hide Inv;
      ghost var before := Now();
      writing := false;
      threads := threads[i := Idle];
      woken := Wakeable(before);
      if writerWaitingCount > 0 {
        woken := NotifyWriter();
        SleepersStay(before.threads, i);
      } else {
        NotifyReaders();
      }
      StepInv(before, Action.Unlock(i, woken));
    }
  }

  /** A thread that becomes idle was not asleep, so the sleepers are the same. */
  lemma SleepersStay(threads: seq<Phase>, i: nat)
    requires i < |threads| && threads[i] != WriterSleeps
    ensures forall j :: 0 <= j < |threads| ==> (threads[i := Idle][j] == WriterSleeps <==> threads[j] == WriterSleeps)
  {
  }
}
