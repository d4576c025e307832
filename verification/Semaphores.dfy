/** The two semaphore programs of readers_writers_problem/semaphore: with a turnstile `in` around the entry sections
(without_writer_starvation.cpp) and without it (with_writer_starvation.cpp).

Any number of reader and writer threads step through their loops one semaphore operation, counter update or memory
access at a time. The flag `turnstile` tells the two programs apart. */
module Semaphores {
  import opened Counting
  import opened ReadersWriters
  import opened Runs

  /** Where a thread is; each name says what it does next or what it is in. */
  datatype Pc =
    | ReaderStart | ReaderHasIn | Incrementing | First | LeavingEntry | PassingTurnstile
    | Reading | Decrementing | Last | LeavingExit
    | WriterStart | WriterHasIn | Loading | Storing(seen: int) | Releasing | ReleasingIn
    | Done

  /** The semaphores' values, read_count and the shared variable. */
  datatype State = State(threads: seq<Pc>, inn: nat, mx: nat, wrt: nat, readCount: nat, increment: int)

  const UINT32 := 0x1_0000_0000

  function Init(roles: seq<Pc>): State {
    State(roles, 1, 1, 1, 0, 0)
  }

  predicate InitialRoles(roles: seq<Pc>) {
    |roles| < UINT32 && forall i :: 0 <= i < |roles| ==> roles[i] == ReaderStart || roles[i] == WriterStart
  }

  // ------------------------------------------------------------------------------------------------- steps

  /** Thread i moves on in its loop body, or leaves its loop because is_running is false. */
  datatype Action = Move(i: nat) | Stop(i: nat)

  predicate Enabled(turnstile: bool, s: State, a: Action) {
    a.i < |s.threads| &&
    match a
    case Stop(i) => s.threads[i] == ReaderStart || s.threads[i] == WriterStart
    case Move(i) =>
      match s.threads[i]
      case ReaderStart => if turnstile then s.inn > 0 else s.mx > 0
      case ReaderHasIn => s.mx > 0
      case First => s.wrt > 0
      case Reading => s.mx > 0
      case WriterStart => if turnstile then s.inn > 0 else s.wrt > 0
      case WriterHasIn => s.wrt > 0
      case Done => false
      case _ => true
  }

  function At(s: State, i: nat, pc: Pc): State
    requires i < |s.threads|
  {
    s.(threads := s.threads[i := pc])
  }

  function Moved(turnstile: bool, s: State, i: nat): State
    requires Enabled(turnstile, s, Move(i))
  {
    match s.threads[i]
    case ReaderStart => if turnstile then At(s, i, ReaderHasIn).(inn := s.inn - 1) else At(s, i, Incrementing).(mx := s.mx - 1)
    case ReaderHasIn => At(s, i, Incrementing).(mx := s.mx - 1)
    case Incrementing =>
      var count := (s.readCount + 1) % UINT32;
      At(s, i, if count == 1 then First else LeavingEntry).(readCount := count)
    case First => At(s, i, LeavingEntry).(wrt := s.wrt - 1)
    case LeavingEntry => At(s, i, if turnstile then PassingTurnstile else Reading).(mx := s.mx + 1)
    case PassingTurnstile => At(s, i, Reading).(inn := s.inn + 1)
    case Reading => At(s, i, Decrementing).(mx := s.mx - 1)
    case Decrementing =>
      var count := (s.readCount + UINT32 - 1) % UINT32;
      At(s, i, if count == 0 then Last else LeavingExit).(readCount := count)
    case Last => At(s, i, LeavingExit).(wrt := s.wrt + 1)
    case LeavingExit => At(s, i, ReaderStart).(mx := s.mx + 1)
    case WriterStart => if turnstile then At(s, i, WriterHasIn).(inn := s.inn - 1) else At(s, i, Loading).(wrt := s.wrt - 1)
    case WriterHasIn => At(s, i, Loading).(wrt := s.wrt - 1)
    case Loading => At(s, i, Storing(s.increment))
    case Storing(seen) => At(s, i, Releasing).(increment := seen + 1)
    case Releasing => At(s, i, if turnstile then ReleasingIn else WriterStart).(wrt := s.wrt + 1)
    case ReleasingIn => At(s, i, WriterStart).(inn := s.inn + 1)
  }

  function Perform(turnstile: bool, s: State, a: Action): State
    requires Enabled(turnstile, s, a)
  {
    match a
    case Move(i) => Moved(turnstile, s, i)
    case Stop(i) => At(s, i, Done)
  }

  // ---------------------------------------------------------------------------------------------- invariant

  predicate HoldsIn(p: Pc) {
    match p
    case ReaderHasIn => true
    case PassingTurnstile => true
    case WriterHasIn => true
    case ReleasingIn => true
    case Incrementing => true
    case First => true
    case LeavingEntry => true
    case _ => HoldsWrt(p)
  }

  predicate HoldsMx(p: Pc) {
    p == Incrementing || p == First || p == LeavingEntry || p == Decrementing || p == Last || p == LeavingExit
  }

  /** Between the increment and the decrement of read_count. */
  predicate Counted(p: Pc) {
    p == First || p == LeavingEntry || p == PassingTurnstile || p == Reading || p == Decrementing
  }

  predicate IsFirst(p: Pc) {
    p == First
  }

  predicate IsLast(p: Pc) {
    p == Last
  }

  /** A writer between its sem_wait(wrt) and its sem_post(wrt). */
  predicate HoldsWrt(p: Pc) {
    p == Loading || p.Storing? || p == Releasing
  }

  predicate OnlyWithTurnstile(p: Pc) {
    p == ReaderHasIn || p == PassingTurnstile || p == WriterHasIn || p == ReleasingIn
  }

  /** 1 when the reader group holds wrt: some reader is counted and none is about to take wrt for the group. */
  function GroupHolds(s: State): nat {
    if s.readCount > 0 && Count(s.threads, IsFirst) == 0 then 1 else 0
  }

  /** Semaphore values and read_count in terms of the threads' positions; wrt is conserved between one writer, the
      reader group, the last reader about to give it up, and nobody. */
  predicate Conserved(turnstile: bool, s: State) {
    && (turnstile ==> s.inn + Count(s.threads, HoldsIn) == 1)
    && s.mx + Count(s.threads, HoldsMx) == 1
    && s.readCount == Count(s.threads, Counted)
    && s.wrt + Count(s.threads, HoldsWrt) + Count(s.threads, IsLast) + GroupHolds(s) == 1
  }

  predicate Inv(turnstile: bool, s: State) {
    && |s.threads| < UINT32
    && Conserved(turnstile, s)
    && (Count(s.threads, IsFirst) > 0 ==> s.readCount == 1)
    && (Count(s.threads, IsLast) > 0 ==> s.readCount == 0)
    && (!turnstile ==> forall i :: 0 <= i < |s.threads| ==> !OnlyWithTurnstile(s.threads[i]))
    && (forall i :: 0 <= i < |s.threads| && s.threads[i].Storing? ==> s.threads[i].seen == s.increment)
  }

  lemma InitInv(turnstile: bool, roles: seq<Pc>)
    requires InitialRoles(roles)
    ensures Inv(turnstile, Init(roles))
  {
    CountZero(roles, HoldsIn);
    CountZero(roles, HoldsMx);
    CountZero(roles, Counted);
    CountZero(roles, IsFirst);
    CountZero(roles, IsLast);
    CountZero(roles, HoldsWrt);
  }

  function One(b: bool): nat {
    if b then 1 else 0
  }

  lemma Moves(threads: seq<Pc>, i: nat, p: Pc)
    requires i < |threads|
    ensures var t := threads[i := p];
            && Count(t, HoldsIn) == Count(threads, HoldsIn) - One(HoldsIn(threads[i])) + One(HoldsIn(p))
            && Count(t, HoldsMx) == Count(threads, HoldsMx) - One(HoldsMx(threads[i])) + One(HoldsMx(p))
            && Count(t, Counted) == Count(threads, Counted) - One(Counted(threads[i])) + One(Counted(p))
            && Count(t, IsFirst) == Count(threads, IsFirst) - One(IsFirst(threads[i])) + One(IsFirst(p))
            && Count(t, IsLast) == Count(threads, IsLast) - One(IsLast(threads[i])) + One(IsLast(p))
            && Count(t, HoldsWrt) == Count(threads, HoldsWrt) - One(HoldsWrt(threads[i])) + One(HoldsWrt(p))
  {
    CountUpdate(threads, i, p, HoldsIn);
    CountUpdate(threads, i, p, HoldsMx);
    CountUpdate(threads, i, p, Counted);
    CountUpdate(threads, i, p, IsFirst);
    CountUpdate(threads, i, p, IsLast);
    CountUpdate(threads, i, p, HoldsWrt);
  }

  lemma {:induction false} CountBound<T>(s: seq<T>, f: T -> bool)
    ensures Count(s, f) <= |s|
  {
    if s != [] {
      CountBound(s[..|s| - 1], f);
    }
  }

  /** When at most one thread satisfies h and thread i does, nobody else satisfies h. */
  lemma Alone(threads: seq<Pc>, i: nat, h: Pc -> bool, j: nat)
    requires i < |threads| && h(threads[i]) && Count(threads, h) <= 1 && j < |threads| && j != i
    ensures !h(threads[j])
  {
    if h(threads[j]) {
      if i < j {
        CountTwo(threads, i, j, h);
      } else {
        CountTwo(threads, j, i, h);
      }
    }
  }

  /** ... so a narrower condition is counted at thread i or not at all. */
  lemma AloneCount(threads: seq<Pc>, i: nat, h: Pc -> bool, f: Pc -> bool)
    requires i < |threads| && h(threads[i]) && Count(threads, h) <= 1 && forall p :: f(p) ==> h(p)
    requires !f(Done)
    ensures Count(threads, f) == One(f(threads[i]))
  {
    var t := threads[i := Done];
    forall j | 0 <= j < |t| ensures !f(t[j]) {
      if j != i {
        Alone(threads, i, h, j);
      }
    }
    CountZero(t, f);
    CountUpdate(threads, i, Done, f);
  }

  /** What the invariant says around one thread. */
  lemma Around(turnstile: bool, s: State, i: nat)
    requires Inv(turnstile, s) && i < |s.threads|
    ensures var p := s.threads[i];
            && (HoldsMx(p) ==> Count(s.threads, HoldsMx) == 1 && Count(s.threads, IsFirst) == One(IsFirst(p)) && Count(s.threads, IsLast) == One(IsLast(p)))
            && (HoldsWrt(p) ==> Count(s.threads, HoldsWrt) == 1 && forall j :: 0 <= j < |s.threads| && j != i ==> !HoldsWrt(s.threads[j]))
            && (turnstile && HoldsIn(p) ==> Count(s.threads, HoldsIn) == 1 && forall j :: 0 <= j < |s.threads| && j != i ==> !HoldsIn(s.threads[j]))
            && (Counted(p) ==> s.readCount >= 1)
            && s.readCount < UINT32 && (!Counted(p) ==> s.readCount < UINT32 - 1)
  {
    hide Count;
    var p, t := s.threads[i], s.threads;
    CountBound(t, Counted);
    if Counted(p) {
      CountSome(t, i, Counted);
    } else {
      CountUpdate(t, i, Reading, Counted);
      CountBound(t[i := Reading], Counted);
    }
    if HoldsMx(p) {
      CountSome(t, i, HoldsMx);
      AloneCount(t, i, HoldsMx, IsFirst);
      AloneCount(t, i, HoldsMx, IsLast);
    }
    if HoldsWrt(p) {
      CountSome(t, i, HoldsWrt);
      forall j | 0 <= j < |t| && j != i ensures !HoldsWrt(t[j]) {
        Alone(t, i, HoldsWrt, j);
      }
    }
    if turnstile && HoldsIn(p) {
      CountSome(t, i, HoldsIn);
      forall j | 0 <= j < |t| && j != i ensures !HoldsIn(t[j]) {
        Alone(t, i, HoldsIn, j);
      }
    }
  }

  lemma ReaderEntryInv(turnstile: bool, s: State, i: nat)
    requires Inv(turnstile, s) && Enabled(turnstile, s, Move(i))
    requires var p := s.threads[i]; p == ReaderStart || p == ReaderHasIn || p == Incrementing || p == First || p == LeavingEntry || p == PassingTurnstile
    ensures Inv(turnstile, Moved(turnstile, s, i))
  {
    hide Count;
    Around(turnstile, s, i);
    Moves(s.threads, i, Moved(turnstile, s, i).threads[i]);
  }

  lemma ReaderExitInv(turnstile: bool, s: State, i: nat)
    requires Inv(turnstile, s) && Enabled(turnstile, s, Move(i))
    requires var p := s.threads[i]; p == Reading || p == Decrementing || p == Last || p == LeavingExit
    ensures Inv(turnstile, Moved(turnstile, s, i))
  {
    hide Count;
    Around(turnstile, s, i);
    Moves(s.threads, i, Moved(turnstile, s, i).threads[i]);
  }

  lemma WriterEntryInv(turnstile: bool, s: State, i: nat)
    requires Inv(turnstile, s) && Enabled(turnstile, s, Move(i))
    requires var p := s.threads[i]; p == WriterStart || p == WriterHasIn
    ensures Inv(turnstile, Moved(turnstile, s, i))
  {
    hide Count;
    Around(turnstile, s, i);
    Moves(s.threads, i, Moved(turnstile, s, i).threads[i]);
  }

  /** The load and the store: no other thread is between its own, so no write is lost. */
  lemma WriteInv(turnstile: bool, s: State, i: nat)
    requires Inv(turnstile, s) && Enabled(turnstile, s, Move(i))
    requires var p := s.threads[i]; p == Loading || p.Storing?
    ensures Inv(turnstile, Moved(turnstile, s, i))
  {
    hide Count;
    Around(turnstile, s, i);
    Moves(s.threads, i, Moved(turnstile, s, i).threads[i]);
  }

  lemma WriterExitInv(turnstile: bool, s: State, i: nat)
    requires Inv(turnstile, s) && Enabled(turnstile, s, Move(i))
    requires var p := s.threads[i]; p == Releasing || p == ReleasingIn
    ensures Inv(turnstile, Moved(turnstile, s, i))
  {
    hide Count;
    Around(turnstile, s, i);
    Moves(s.threads, i, Moved(turnstile, s, i).threads[i]);
  }

  lemma StopInv(turnstile: bool, s: State, i: nat)
    requires Inv(turnstile, s) && Enabled(turnstile, s, Stop(i))
    ensures Inv(turnstile, At(s, i, Done))
  {
    hide Count;
    Moves(s.threads, i, Done);
  }

  /** Every step keeps the invariant. */
  lemma StepInv(turnstile: bool, s: State, a: Action)
    requires Inv(turnstile, s) && Enabled(turnstile, s, a)
    ensures Inv(turnstile, Perform(turnstile, s, a))
  {
    hide Inv, Moved;
    match a
    case Stop(i) => StopInv(turnstile, s, i);
    case Move(i) =>
      var p := s.threads[i];
      if p == WriterStart || p == WriterHasIn {
        WriterEntryInv(turnstile, s, i);
      } else if p == Loading || p.Storing? {
        WriteInv(turnstile, s, i);
      } else if p == Releasing || p == ReleasingIn {
        WriterExitInv(turnstile, s, i);
      } else if p == Reading || p == Decrementing || p == Last || p == LeavingExit {
        ReaderExitInv(turnstile, s, i);
      } else {
        ReaderEntryInv(turnstile, s, i);
      }
  }

  // -------------------------------------------------------------------------------------------------- runs

  function After(turnstile: bool, s: State, actions: seq<Action>): Run<State>
    decreases |actions|
  {
    if actions == [] then Reached(s)
    else
      var before, a := After(turnstile, s, actions[..|actions| - 1]), actions[|actions| - 1];
      if before.Reached? && Enabled(turnstile, before.state, a) then Reached(Perform(turnstile, before.state, a)) else Blocked
  }

  lemma {:induction false} RunInv(turnstile: bool, s: State, actions: seq<Action>)
    requires Inv(turnstile, s) && After(turnstile, s, actions).Reached?
    ensures Inv(turnstile, After(turnstile, s, actions).state)
    decreases |actions|
  {
    hide Inv;
    if actions != [] {
      RunInv(turnstile, s, actions[..|actions| - 1]);
      StepInv(turnstile, After(turnstile, s, actions[..|actions| - 1]).state, actions[|actions| - 1]);
    }
  }

  // ------------------------------------------------------------------------------- no increment is lost

  /** A writer between its sem_wait(wrt) and its store. */
  predicate BeforeStore(p: Pc) {
    p == Loading || p.Storing?
  }

  predicate IsReleasing(p: Pc) {
    p == Releasing
  }

  /** The writer's sem_wait(wrt). */
  function EntersWriting(turnstile: bool): Pc -> bool {
    p => p == if turnstile then WriterHasIn else WriterStart
  }

  /** How many steps of a run were taken by a thread whose position satisfied f. */
  function MovesFrom(turnstile: bool, s: State, actions: seq<Action>, f: Pc -> bool): nat
    requires After(turnstile, s, actions).Reached?
    decreases |actions|
  {
    if actions == [] then 0
    else
      var earlier, a := actions[..|actions| - 1], actions[|actions| - 1];
      MovesFrom(turnstile, s, earlier, f) + One(a.Move? && f(After(turnstile, s, earlier).state.threads[a.i]))
  }

  /** What one step does to the shared variable and to the writers before and after their stores. */
  lemma StoreStep(turnstile: bool, s: State, a: Action)
    requires Inv(turnstile, s) && Enabled(turnstile, s, a)
    ensures var s', p := Perform(turnstile, s, a), s.threads[a.i];
            && s'.increment + Count(s'.threads, BeforeStore) == s.increment + Count(s.threads, BeforeStore) + One(a.Move? && EntersWriting(turnstile)(p))
            && s'.increment + Count(s.threads, IsReleasing) == s.increment + One(a.Move? && p == Releasing) + Count(s'.threads, IsReleasing)
  {
    hide Count, Inv, Moved;
    PositionAfter(turnstile, s, a);
    var p, next := s.threads[a.i], Perform(turnstile, s, a).threads[a.i];
    if a.Move? && (p == WriterStart || p == WriterHasIn || HoldsWrt(p) || p == ReleasingIn) {
      WriterStores(turnstile, s, a.i);
    } else if a.Move? {
      ReaderStores(turnstile, s, a.i);
    }
    CountUpdate(s.threads, a.i, next, BeforeStore);
    CountUpdate(s.threads, a.i, next, IsReleasing);
  }

  /** Every step changes one position only. */
  lemma PositionAfter(turnstile: bool, s: State, a: Action)
    requires Enabled(turnstile, s, a)
    ensures var s' := Perform(turnstile, s, a); |s'.threads| == |s.threads| && s'.threads == s.threads[a.i := s'.threads[a.i]]
  {
  }

  lemma ReaderStores(turnstile: bool, s: State, i: nat)
    requires Enabled(turnstile, s, Move(i))
    requires var p := s.threads[i]; !(p == WriterStart || p == WriterHasIn || HoldsWrt(p) || p == ReleasingIn)
    ensures var p' := Moved(turnstile, s, i).threads[i]; !BeforeStore(p') && p' != Releasing
    ensures Moved(turnstile, s, i).increment == s.increment
  {
  }

  lemma WriterStores(turnstile: bool, s: State, i: nat)
    requires Inv(turnstile, s) && Enabled(turnstile, s, Move(i))
    requires var p := s.threads[i]; p == WriterStart || p == WriterHasIn || HoldsWrt(p) || p == ReleasingIn
    ensures var p, p' := s.threads[i], Moved(turnstile, s, i).threads[i];
            && (BeforeStore(p') <==> p == Loading || EntersWriting(turnstile)(p))
            && (p' == Releasing <==> p.Storing?)
    ensures Moved(turnstile, s, i).increment == s.increment + One(s.threads[i].Storing?)
  {
    hide Count, Conserved;
  }

  lemma SeenIsCurrent(turnstile: bool, s: State, i: nat)
    requires Inv(turnstile, s) && i < |s.threads| && s.threads[i].Storing?
    ensures s.threads[i].seen == s.increment
  {
  }

  lemma {:induction false} StoresCount(turnstile: bool, roles: seq<Pc>, actions: seq<Action>)
    requires InitialRoles(roles) && After(turnstile, Init(roles), actions).Reached?
    ensures var s := After(turnstile, Init(roles), actions).state;
            && s.increment + Count(s.threads, BeforeStore) == MovesFrom(turnstile, Init(roles), actions, EntersWriting(turnstile))
            && s.increment == MovesFrom(turnstile, Init(roles), actions, IsReleasing) + Count(s.threads, IsReleasing)
    decreases |actions|
  {
    hide Count, Inv, Perform, EntersWriting;
    if actions == [] {
      CountZero(roles, BeforeStore);
      CountZero(roles, IsReleasing);
    } else {
      var earlier, a := actions[..|actions| - 1], actions[|actions| - 1];
      StoresCount(turnstile, roles, earlier);
      InitInv(turnstile, roles);
      RunInv(turnstile, Init(roles), earlier);
      StoreStep(turnstile, After(turnstile, Init(roles), earlier).state, a);
    }
  }

  predicate IsReading(p: Pc) {
    p == Reading
  }

  /** In every run of either program: read_count counts the readers between increment and decrement, a writer in
      its critical section is alone, and no increment is lost. The shared variable is one for every time a writer took
      wrt, less the writers that have yet to store; and one for every time a writer gave wrt back, and one more for a
      writer that has stored and has yet to give it back. */
  lemma Safety(turnstile: bool, roles: seq<Pc>, actions: seq<Action>, i: nat, j: nat)
    requires InitialRoles(roles) && After(turnstile, Init(roles), actions).Reached?
    requires var t := After(turnstile, Init(roles), actions).state.threads; i < |t| && j < |t| && i != j
    ensures var s := After(turnstile, Init(roles), actions).state;
            && s.readCount == Count(s.threads, Counted)
            && (HoldsWrt(s.threads[i]) ==> !HoldsWrt(s.threads[j]) && !IsReading(s.threads[j]))
            && s.increment + Count(s.threads, BeforeStore) == MovesFrom(turnstile, Init(roles), actions, EntersWriting(turnstile))
            && s.increment == MovesFrom(turnstile, Init(roles), actions, IsReleasing) + Count(s.threads, IsReleasing)
  {
    hide Count, After, MovesFrom;
    InitInv(turnstile, roles);
    StoresCount(turnstile, roles, actions);
    RunInv(turnstile, Init(roles), actions);
    var s := After(turnstile, Init(roles), actions).state;
    Around(turnstile, s, i);
    if IsReading(s.threads[j]) {
      ReaderKeepsWritersOut(turnstile, s, j);
      CountZero(s.threads, HoldsWrt);
    }
  }

  /** While a reader reads, the group holds wrt. */
  lemma ReaderKeepsWritersOut(turnstile: bool, s: State, j: nat)
    requires Inv(turnstile, s) && j < |s.threads| && s.threads[j] == Reading
    ensures s.wrt == 0 && Count(s.threads, HoldsWrt) == 0
  {
    hide Count;
    Around(turnstile, s, j);
    if Count(s.threads, IsFirst) > 0 {
      var i := Find(s.threads, IsFirst);
      BothCounted(s.threads, i, j);
    }
  }

  lemma BothCounted(threads: seq<Pc>, i: nat, j: nat)
    requires i < |threads| && j < |threads| && i != j && Counted(threads[i]) && Counted(threads[j])
    ensures Count(threads, Counted) >= 2
  {
    if i < j {
      CountTwo(threads, i, j, Counted);
    } else {
      CountTwo(threads, j, i, Counted);
    }
  }

  // --------------------------------------------------------------------------------------------- progress

  /** The first reader waits for wrt only for a writer in its critical section; behind the turnstile there is
      none, so there its sem_wait never blocks. */
  lemma FirstReaderBlocksIff(turnstile: bool, s: State, i: nat)
    requires Inv(turnstile, s) && i < |s.threads| && s.threads[i] == First
    ensures Enabled(turnstile, s, Move(i)) <==> Count(s.threads, HoldsWrt) == 0
    ensures turnstile ==> Enabled(turnstile, s, Move(i))
  {
    hide Count;
    Around(turnstile, s, i);
    if turnstile && Count(s.threads, HoldsWrt) > 0 {
      var j := Find(s.threads, HoldsWrt);
      assert false;
    }
  }

  /** About to enter its loop body, or to leave the loop. */
  predicate AtStart(p: Pc) {
    p == ReaderStart || p == WriterStart
  }

  /** A thread that holds mx can move, or is a first reader waiting for a writer that can. */
  lemma MxHolderMoves(turnstile: bool, s: State) returns (i: nat)
    requires Inv(turnstile, s) && s.mx == 0
    ensures Enabled(turnstile, s, Move(i)) && !AtStart(s.threads[i])
  {
    hide Count;
    i := Find(s.threads, HoldsMx);
    if s.threads[i] == First {
      FirstReaderBlocksIff(turnstile, s, i);
      if !Enabled(turnstile, s, Move(i)) {
        i := Find(s.threads, HoldsWrt);
      }
    }
  }

  /** When wrt is taken, the writer or the reader group that holds it can move, or mx is held by one that can. */
  lemma WrtHolderMoves(turnstile: bool, s: State) returns (i: nat)
    requires Inv(turnstile, s) && s.wrt == 0
    ensures Enabled(turnstile, s, Move(i)) && !AtStart(s.threads[i])
  {
    hide Count;
    if s.mx == 0 {
      i := MxHolderMoves(turnstile, s);
    } else if Count(s.threads, HoldsWrt) > 0 {
      i := Find(s.threads, HoldsWrt);
    } else if Count(s.threads, IsLast) > 0 {
      i := Find(s.threads, IsLast);
    } else {
      i := Find(s.threads, Counted);
      if s.threads[i] == First {
        CountSome(s.threads, i, IsFirst);
      }
    }
  }

  /** Whoever holds the turnstile can move, or waits for a thread that can. */
  lemma InHolderMoves(s: State) returns (i: nat)
    requires Inv(true, s) && s.inn == 0
    ensures Enabled(true, s, Move(i))
  {
    hide Count;
    if s.mx == 0 {
      i := MxHolderMoves(true, s);
    } else {
      i := Find(s.threads, HoldsIn);
      if s.threads[i] == First {
        FirstReaderBlocksIff(true, s, i);
      } else if s.threads[i] == WriterHasIn && s.wrt == 0 {
        i := WrtHolderMoves(true, s);
      }
    }
  }

  /** No deadlock in either program: while a thread has not left its loop, some thread can move on in its body. */
  lemma NoDeadlock(turnstile: bool, s: State) returns (i: nat)
    requires Inv(turnstile, s) && exists k :: 0 <= k < |s.threads| && s.threads[k] != Done
    ensures Enabled(turnstile, s, Move(i))
  {
    hide Count, Inv;
    if s.mx == 0 {
      i := MxHolderMoves(turnstile, s);
    } else if s.wrt == 0 {
      i := WrtHolderMoves(turnstile, s);
    } else if turnstile && s.inn == 0 {
      i := InHolderMoves(s);
    } else {
      i :| 0 <= i < |s.threads| && s.threads[i] != Done;
    }
  }

  // -------------------------------------------------------------------------- the turnstile protects writers

  /** The steps a thread can take without passing the turnstile. */
  function StepsLeft(p: Pc): nat {
    match p
    case Reading => 5
    case Decrementing => 4
    case Last => 3
    case LeavingExit => 2
    case ReaderStart => 1
    case WriterStart => 1
    case _ => 0
  }

  function Backlog(threads: seq<Pc>): nat {
    Total(threads, StepsLeft)
  }

  /** While writer w holds the turnstile and waits for wrt, no reader enters, and every step of another thread
      uses up part of the backlog. */
  lemma BacklogShrinks(s: State, a: Action, w: nat)
    requires Inv(true, s) && Enabled(true, s, a) && w < |s.threads| && s.threads[w] == WriterHasIn && a != Move(w)
    ensures var s' := Perform(true, s, a);
            && w < |s'.threads| && s'.threads[w] == WriterHasIn
            && s'.readCount <= s.readCount
            && Count(s'.threads, IsReading) <= Count(s.threads, IsReading)
            && Backlog(s'.threads) < Backlog(s.threads)
  {
    hide Count, Total;
    Around(true, s, w);
    Around(true, s, a.i);
    var p := Perform(true, s, a).threads[a.i];
    TotalUpdate(s.threads, a.i, p, StepsLeft);
    CountUpdate(s.threads, a.i, p, IsReading);
  }

  predicate NotMoving(actions: seq<Action>, w: nat) {
    forall k :: 0 <= k < |actions| ==> actions[k] != Move(w)
  }

  /** So the wait of the writer is bounded: the other threads together can take at most Backlog steps first, and
      as soon as none of them can move, the writer can. */
  lemma {:induction false} WriterWaitBounded(s: State, actions: seq<Action>, w: nat)
    requires Inv(true, s) && After(true, s, actions).Reached? && NotMoving(actions, w)
    requires w < |s.threads| && s.threads[w] == WriterHasIn
    ensures var s' := After(true, s, actions).state;
            && w < |s'.threads| && s'.threads[w] == WriterHasIn
            && |actions| + Backlog(s'.threads) <= Backlog(s.threads)
            && ((forall i :: i != w ==> !Enabled(true, s', Move(i))) ==> Enabled(true, s', Move(w)))
    decreases |actions|
  {
    hide Inv, Backlog, Moved, Count;
    RunInv(true, s, actions);
    var s' := After(true, s, actions).state;
    if actions != [] {
      var before := actions[..|actions| - 1];
      WriterWaitBounded(s, before, w);
      RunInv(true, s, before);
      BacklogShrinks(After(true, s, before).state, actions[|actions| - 1], w);
    }
    assert s'.threads[w] != Done;
    var i := NoDeadlock(true, s');
  }

  // ------------------------------------------------------------------------------------------- refinement

  function UsersOf(s: State): Users {
    Users(Those(s.threads, IsReading), Those(s.threads, HoldsWrt))
  }

  /** What a step does to its thread's use of the shared variable. */
  lemma Use(turnstile: bool, s: State, a: Action)
    requires Enabled(turnstile, s, a)
    ensures a.i < |s.threads|
    ensures var s', p := Perform(turnstile, s, a), s.threads[a.i];
            && |s'.threads| == |s.threads| && s'.threads == s.threads[a.i := s'.threads[a.i]]
            && (IsReading(s'.threads[a.i]) ==> !HoldsWrt(s'.threads[a.i]))
            && !(IsReading(p) && HoldsWrt(p)) && !(IsReading(s'.threads[a.i]) && HoldsWrt(p)) && !(IsReading(p) && HoldsWrt(s'.threads[a.i]))
            && (IsReading(s'.threads[a.i]) && !IsReading(p) ==> p == PassingTurnstile || p == LeavingEntry)
            && (HoldsWrt(s'.threads[a.i]) && !HoldsWrt(p) ==> s.wrt > 0)
  {
  }

  /** Every step of either program is a step of the abstract readers-writers lock, or leaves it alone. */
  lemma Refines(turnstile: bool, s: State, a: Action)
    requires Inv(turnstile, s) && Enabled(turnstile, s, a)
    ensures Next(UsersOf(s), UsersOf(Perform(turnstile, s, a)))
  {
    hide Count, Inv, Those, Perform, Enabled, HoldsWrt;
    Use(turnstile, s, a);
    var s', i, l, t := Perform(turnstile, s, a), a.i, UsersOf(s), s.threads;
    var p, p', l' := t[i], s'.threads[i], UsersOf(s');
    ThoseUpdate(t, i, p', IsReading);
    ThoseUpdate(t, i, p', HoldsWrt);
    Member(t, i);
    if IsReading(p) == IsReading(p') && HoldsWrt(p) == HoldsWrt(p') {
      ThoseSame(s'.threads, t, IsReading);
      ThoseSame(s'.threads, t, HoldsWrt);
    } else if IsReading(p') {
      EntryFindsNoWriter(turnstile, s, i);
      assert l.writers == {} && l'.writers == {};
      assert ReaderEnters(l, i, l');
    } else if IsReading(p) {
      assert ReaderLeaves(l, i, l');
    } else if HoldsWrt(p') {
      WriterFindsNobody(turnstile, s);
      assert WriterEnters(l, i, l');
    } else {
      OnlyWriter(turnstile, s, i);
      assert WriterLeaves(l, i, l');
    }
  }

  lemma Member(threads: seq<Pc>, i: nat)
    requires i < |threads|
    ensures i in Those(threads, IsReading) <==> IsReading(threads[i])
    ensures i in Those(threads, HoldsWrt) <==> HoldsWrt(threads[i])
  {
  }

  lemma EntryFindsNoWriter(turnstile: bool, s: State, i: nat)
    requires Inv(turnstile, s) && i < |s.threads| && (s.threads[i] == PassingTurnstile || s.threads[i] == LeavingEntry)
    ensures Those(s.threads, HoldsWrt) == {} && forall j :: 0 <= j < |s.threads| ==> !HoldsWrt(s.threads[j])
  {
    hide Count;
    Around(turnstile, s, i);
    if Count(s.threads, IsFirst) > 0 {
      var j := Find(s.threads, IsFirst);
      BothCounted(s.threads, i, j);
    }
    CountZero(s.threads, HoldsWrt);
    ThoseEmpty(s.threads, HoldsWrt);
  }

  lemma WriterFindsNobody(turnstile: bool, s: State)
    requires Inv(turnstile, s) && s.wrt > 0
    ensures UsersOf(s) == EMPTY
  {
    hide Count;
    CountZero(s.threads, HoldsWrt);
    forall j: nat | j < |s.threads| ensures !IsReading(s.threads[j]) {
      if IsReading(s.threads[j]) {
        ReaderKeepsWritersOut(turnstile, s, j);
      }
    }
    ThoseEmpty(s.threads, IsReading);
    ThoseEmpty(s.threads, HoldsWrt);
  }

  lemma OnlyWriter(turnstile: bool, s: State, i: nat)
    requires Inv(turnstile, s) && i < |s.threads| && HoldsWrt(s.threads[i])
    ensures Those(s.threads, HoldsWrt) == {i}
  {
    Around(turnstile, s, i);
  }

  // ------------------------------------------------------------------- without it: when a waiting writer gets in

  /** Thread w cannot move in any state the actions pass through. */
  predicate BlockedThroughout(s: State, actions: seq<Action>, w: nat)
    decreases |actions|
  {
    && (After(false, s, actions).Reached? ==> !Enabled(false, After(false, s, actions).state, Move(w)))
    && (actions != [] ==> BlockedThroughout(s, actions[..|actions| - 1], w))
  }

  /** The action is one of the two posts of wrt: by the last reader out, or by a writer. */
  predicate PostsWrt(s: State, a: Action) {
    a.Move? && a.i < |s.threads| && (s.threads[a.i] == Last || s.threads[a.i] == Releasing)
  }

  /** No action of the run posts wrt. */
  predicate NeverPosted(s: State, actions: seq<Action>)
    decreases |actions|
  {
    actions != [] ==>
      var before := After(false, s, actions[..|actions| - 1]);
      && NeverPosted(s, actions[..|actions| - 1])
      && (before.Reached? ==> !PostsWrt(before.state, actions[|actions| - 1]))
  }

  /** The others act; w neither moves nor stops. */
  predicate Others(actions: seq<Action>, w: nat) {
    forall k :: 0 <= k < |actions| ==> actions[k].i != w
  }

  /** Writer w waits for wrt. */
  predicate WaitsForWrt(s: State, w: nat) {
    s.wrt == 0 && w < |s.threads| && s.threads[w] == WriterStart
  }

  lemma WaitsStep(s: State, a: Action, w: nat)
    requires WaitsForWrt(s, w) && Enabled(false, s, a) && a.i != w
    ensures var s' := Perform(false, s, a);
            && w < |s'.threads| && s'.threads[w] == WriterStart
            && (s'.wrt == 0 <==> !PostsWrt(s, a))
  {
  }

  /** Without the turnstile, a writer that waits stays blocked through a run of the others exactly when neither the
      last of a group of readers nor a writer leaves in it. */
  lemma {:induction false} BlockedIffNeverPosted(s: State, actions: seq<Action>, w: nat)
    requires WaitsForWrt(s, w) && After(false, s, actions).Reached? && Others(actions, w)
    ensures BlockedThroughout(s, actions, w) <==> NeverPosted(s, actions)
    ensures NeverPosted(s, actions) ==> WaitsForWrt(After(false, s, actions).state, w)
    decreases |actions|
  {
    hide Perform, PostsWrt;
    if actions != [] {
      var n := |actions| - 1;
      BlockedIffNeverPosted(s, actions[..n], w);
      if NeverPosted(s, actions[..n]) {
        assert actions[n].i != w;
        WaitsStep(After(false, s, actions[..n]).state, actions[n], w);
      }
    }
  }

  /** The steps a thread can take before it is back at the start, and its leaving the loop from there. */
  function StepsToStart(p: Pc): nat {
    match p
    case Incrementing => 8
    case First => 7
    case LeavingEntry => 6
    case Reading => 5
    case Decrementing => 4
    case Last => 3
    case LeavingExit => 2
    case Loading => 4
    case Storing(_) => 3
    case Releasing => 2
    case ReaderStart => 1
    case WriterStart => 1
    case _ => 0
  }

  function Unfinished(threads: seq<Pc>): nat {
    Total(threads, StepsToStart)
  }

  predicate Enters(s: State, a: Action) {
    a.Move? && a.i < |s.threads| && AtStart(s.threads[a.i])
  }

  /** While nobody enters, every step uses up part of what is unfinished. */
  lemma UnfinishedShrinks(s: State, a: Action)
    requires Inv(false, s) && Enabled(false, s, a) && !Enters(s, a)
    ensures Unfinished(Perform(false, s, a).threads) < Unfinished(s.threads)
  {
    hide Count, Total;
    Around(false, s, a.i);
    TotalUpdate(s.threads, a.i, Perform(false, s, a).threads[a.i], StepsToStart);
  }

  /** No action of the run takes a thread into its loop body. */
  predicate NobodyEnters(s: State, actions: seq<Action>)
    decreases |actions|
  {
    actions != [] ==>
      var before := After(false, s, actions[..|actions| - 1]);
      && NobodyEnters(s, actions[..|actions| - 1])
      && (before.Reached? ==> !Enters(before.state, actions[|actions| - 1]))
  }

  /** So without the turnstile, too, the wait of a writer is bounded as long as nobody else enters: the others can
      take at most `Unfinished` steps, and as soon as none of them can move without entering, the writer can. */
  lemma {:induction false} WriterWaitBoundedWithoutEntries(s: State, actions: seq<Action>, w: nat)
    requires Inv(false, s) && After(false, s, actions).Reached? && Others(actions, w) && NobodyEnters(s, actions)
    requires w < |s.threads| && s.threads[w] == WriterStart
    ensures var s' := After(false, s, actions).state;
            && w < |s'.threads| && s'.threads[w] == WriterStart
            && |actions| + Unfinished(s'.threads) <= Unfinished(s.threads)
            && ((forall i :: 0 <= i < |s'.threads| && !AtStart(s'.threads[i]) ==> !Enabled(false, s', Move(i))) ==> Enabled(false, s', Move(w)))
    decreases |actions|
  {
    hide Inv, Unfinished, Enters, Count;
    RunInv(false, s, actions);
    var s' := After(false, s, actions).state;
    if actions != [] {
      var n := |actions| - 1;
      WriterWaitBoundedWithoutEntries(s, actions[..n], w);
      RunInv(false, s, actions[..n]);
      assert actions[n].i != w;
      UnfinishedShrinks(After(false, s, actions[..n]).state, actions[n]);
      OthersStay(After(false, s, actions[..n]).state, actions[n], w);
    }
    if s'.wrt == 0 {
      var i := WrtHolderMoves(false, s');
    }
  }

  lemma OthersStay(s: State, a: Action, w: nat)
    requires Enabled(false, s, a) && a.i != w && w < |s.threads|
    ensures var t := Perform(false, s, a).threads; w < |t| && t[w] == s.threads[w]
  {
  }

  /** And the others can always make way: some run of theirs without an entry ends with the writer able to move. */
  lemma {:induction false} WriterCanGetIn(s0: State, a: seq<Action>, w: nat) returns (b: seq<Action>)
    requires Inv(false, s0) && After(false, s0, a).Reached? && Others(a, w) && NobodyEnters(s0, a)
    requires w < |s0.threads| && s0.threads[w] == WriterStart
    ensures a <= b && After(false, s0, b).Reached? && Others(b, w) && NobodyEnters(s0, b)
    ensures Enabled(false, After(false, s0, b).state, Move(w))
    decreases Unfinished(After(false, s0, a).state.threads)
  {
    hide Inv, Unfinished, Count, Moved;
    b := a;
    var s := After(false, s0, a).state;
    RunInv(false, s0, a);
    WriterWaitBoundedWithoutEntries(s0, a, w);
    if s.wrt == 0 {
      var i := WrtHolderMoves(false, s);
      UnfinishedShrinks(s, Move(i));
      assert (a + [Move(i)])[..|a|] == a;
      b := WriterCanGetIn(s0, a + [Move(i)], w);
    }
  }

  // -------------------------------------------------------------------------- without it, writers can starve

  /** Reader 0 reads, reader 1 is about to enter, writer 2 waits for wrt. */
  const OVERLAP := State([Reading, ReaderStart, WriterStart], 1, 1, 0, 1, 0)

  /** Reader 1 enters, reader 0 leaves and enters again, reader 1 leaves: the group never empties. */
  const ROUND: seq<Action> := Moves3(1) + Moves3(0) + Moves3(0) + Moves3(1)

  function Moves3(i: nat): seq<Action> {
    [Move(i), Move(i), Move(i)]
  }

  /** Performing actions one by one. */
  lemma Then(s: State, a: seq<Action>, b: Action, s1: State, s2: State, w: nat)
    requires After(false, s, a) == Reached(s1) && Enabled(false, s1, b) && Perform(false, s1, b) == s2
    requires BlockedThroughout(s, a, w) && !Enabled(false, s2, Move(w))
    ensures After(false, s, a + [b]) == Reached(s2) && BlockedThroughout(s, a + [b], w)
  {
    assert (a + [b])[..|a|] == a;
  }

  /** Three moves in a row. */
  lemma ThenThree(s: State, a: seq<Action>, i: nat, s0: State, s1: State, s2: State, s3: State, w: nat)
    requires After(false, s, a) == Reached(s0) && BlockedThroughout(s, a, w)
    requires Enabled(false, s0, Move(i)) && Perform(false, s0, Move(i)) == s1 && !Enabled(false, s1, Move(w))
    requires Enabled(false, s1, Move(i)) && Perform(false, s1, Move(i)) == s2 && !Enabled(false, s2, Move(w))
    requires Enabled(false, s2, Move(i)) && Perform(false, s2, Move(i)) == s3 && !Enabled(false, s3, Move(w))
    ensures After(false, s, a + Moves3(i)) == Reached(s3) && BlockedThroughout(s, a + Moves3(i), w)
  {
    hide After, BlockedThroughout, Perform, Enabled;
    Then(s, a, Move(i), s0, s1, w);
    Then(s, a + [Move(i)], Move(i), s1, s2, w);
    Then(s, a + [Move(i)] + [Move(i)], Move(i), s2, s3, w);
    assert a + [Move(i)] + [Move(i)] + [Move(i)] == a + Moves3(i);
  }

  /** mx is free, the reader group holds wrt, and writer w waits for it. */
  predicate GroupReads(s: State, w: nat) {
    s.mx == 1 && s.wrt == 0 && 1 <= s.readCount < UINT32 - 1 && w < |s.threads| && s.threads[w] == WriterStart
  }

  /** A reader joins the group. */
  lemma Joins(s: State, a: seq<Action>, i: nat, s0: State, w: nat)
    requires After(false, s, a) == Reached(s0) && BlockedThroughout(s, a, w) && GroupReads(s0, w)
    requires i < |s0.threads| && s0.threads[i] == ReaderStart
    ensures After(false, s, a + Moves3(i)) == Reached(s0.(threads := s0.threads[i := Reading], readCount := s0.readCount + 1))
    ensures BlockedThroughout(s, a + Moves3(i), w)
  {
    hide After, BlockedThroughout;
    var s1 := s0.(threads := s0.threads[i := Incrementing], mx := 0);
    var s2 := s1.(threads := s1.threads[i := LeavingEntry], readCount := s0.readCount + 1);
    var s3 := s2.(threads := s2.threads[i := Reading], mx := 1);
    assert s3.threads == s0.threads[i := Reading];
    ThenThree(s, a, i, s0, s1, s2, s3, w);
  }

  /** A reader leaves the group to others. */
  lemma Leaves(s: State, a: seq<Action>, i: nat, s0: State, w: nat)
    requires After(false, s, a) == Reached(s0) && BlockedThroughout(s, a, w) && GroupReads(s0, w) && s0.readCount > 1
    requires i < |s0.threads| && s0.threads[i] == Reading
    ensures After(false, s, a + Moves3(i)) == Reached(s0.(threads := s0.threads[i := ReaderStart], readCount := s0.readCount - 1))
    ensures BlockedThroughout(s, a + Moves3(i), w)
  {
    hide After, BlockedThroughout;
    var s1 := s0.(threads := s0.threads[i := Decrementing], mx := 0);
    var s2 := s1.(threads := s1.threads[i := LeavingExit], readCount := s0.readCount - 1);
    var s3 := s2.(threads := s2.threads[i := ReaderStart], mx := 1);
    assert s3.threads == s0.threads[i := ReaderStart];
    ThenThree(s, a, i, s0, s1, s2, s3, w);
  }

  lemma RoundRepeats(s: State, a: seq<Action>)
    requires After(false, s, a) == Reached(OVERLAP) && BlockedThroughout(s, a, 2)
    ensures After(false, s, a + ROUND) == Reached(OVERLAP) && BlockedThroughout(s, a + ROUND, 2)
  {
    hide After, BlockedThroughout;
    var both := State([Reading, Reading, WriterStart], 1, 1, 0, 2, 0);
    var swapped := State([ReaderStart, Reading, WriterStart], 1, 1, 0, 1, 0);
    assert OVERLAP.(threads := OVERLAP.threads[1 := Reading], readCount := 2) == both;
    assert both.(threads := both.threads[0 := ReaderStart], readCount := 1) == swapped;
    assert swapped.(threads := swapped.threads[0 := Reading], readCount := 2) == both;
    assert both.(threads := both.threads[1 := ReaderStart], readCount := 1) == OVERLAP;
    Joins(s, a, 1, OVERLAP, 2);
    Leaves(s, a + Moves3(1), 0, both, 2);
    Joins(s, a + Moves3(1) + Moves3(0), 0, swapped, 2);
    Leaves(s, a + Moves3(1) + Moves3(0) + Moves3(0), 1, both, 2);
    assert a + Moves3(1) + Moves3(0) + Moves3(0) + Moves3(1) == a + ROUND;
  }

  function Rounds(k: nat): seq<Action> {
    if k == 0 then [] else Rounds(k - 1) + ROUND
  }

  /** Readers that overlap never post wrt, so a writer can wait through any number of reads: in no state along the way
      can it move. */
  lemma {:induction false} WriterCanStarve(k: nat)
    ensures After(false, OVERLAP, Rounds(k)) == Reached(OVERLAP) && BlockedThroughout(OVERLAP, Rounds(k), 2)
    ensures |Rounds(k)| == 12 * k
  {
    hide After, BlockedThroughout;
    if k > 0 {
      WriterCanStarve(k - 1);
      RoundRepeats(OVERLAP, Rounds(k - 1));
    } else {
      BlockedAtFirst();
    }
  }

  lemma BlockedAtFirst()
    ensures After(false, OVERLAP, []) == Reached(OVERLAP) && BlockedThroughout(OVERLAP, [], 2)
  {
  }

  /** Two readers and a writer, where reader 0 is at pc and the others are at the start. */
  function OnlyFirst(pc: Pc, mx: nat, wrt: nat, readCount: nat): State {
    State([pc, ReaderStart, WriterStart], 1, mx, wrt, readCount, 0)
  }

  lemma OnlyFirstMoves(pc: Pc, mx: nat, wrt: nat, readCount: nat, pc': Pc, mx': nat, wrt': nat, readCount': nat)
    requires Enabled(false, OnlyFirst(pc, mx, wrt, readCount), Move(0))
    requires Moved(false, OnlyFirst(pc, mx, wrt, readCount), 0)
          == At(OnlyFirst(pc, mx', wrt', readCount'), 0, pc')
    ensures Perform(false, OnlyFirst(pc, mx, wrt, readCount), Move(0)) == OnlyFirst(pc', mx', wrt', readCount')
  {
    assert [pc, ReaderStart, WriterStart][0 := pc'] == [pc', ReaderStart, WriterStart];
  }

  lemma TakesMx()
    ensures Enabled(false, OnlyFirst(ReaderStart, 1, 1, 0), Move(0))
    ensures Perform(false, OnlyFirst(ReaderStart, 1, 1, 0), Move(0)) == OnlyFirst(Incrementing, 0, 1, 0)
  {
    OnlyFirstMoves(ReaderStart, 1, 1, 0, Incrementing, 0, 1, 0);
  }

  lemma IsCounted()
    ensures Enabled(false, OnlyFirst(Incrementing, 0, 1, 0), Move(0))
    ensures Perform(false, OnlyFirst(Incrementing, 0, 1, 0), Move(0)) == OnlyFirst(First, 0, 1, 1)
  {
    OnlyFirstMoves(Incrementing, 0, 1, 0, First, 0, 1, 1);
  }

  lemma TakesWrt()
    ensures Enabled(false, OnlyFirst(First, 0, 1, 1), Move(0))
    ensures Perform(false, OnlyFirst(First, 0, 1, 1), Move(0)) == OnlyFirst(LeavingEntry, 0, 0, 1)
  {
    OnlyFirstMoves(First, 0, 1, 1, LeavingEntry, 0, 0, 1);
  }

  lemma GivesMx()
    ensures Enabled(false, OnlyFirst(LeavingEntry, 0, 0, 1), Move(0))
    ensures Perform(false, OnlyFirst(LeavingEntry, 0, 0, 1), Move(0)) == OnlyFirst(Reading, 1, 0, 1)
  {
    OnlyFirstMoves(LeavingEntry, 0, 0, 1, Reading, 1, 0, 1);
  }

  /** `OVERLAP` is reached when reader 0 enters first. */
  lemma OverlapReached()
    ensures After(false, Init([ReaderStart, ReaderStart, WriterStart]), [Move(0)] + Moves3(0)) == Reached(OVERLAP)
  {
    hide After, BlockedThroughout, Perform, Enabled;
    var s0, s1 := OnlyFirst(ReaderStart, 1, 1, 0), OnlyFirst(Incrementing, 0, 1, 0);
    var s2, s3 := OnlyFirst(First, 0, 1, 1), OnlyFirst(LeavingEntry, 0, 0, 1);
    assert OVERLAP == OnlyFirst(Reading, 1, 0, 1) && s0 == Init([ReaderStart, ReaderStart, WriterStart]);
    TakesMx();
    IsCounted();
    TakesWrt();
    GivesMx();
    FourActions(s0, Move(0), s1, s2, s3, OVERLAP);
    assert [Move(0)] + [Move(0)] + [Move(0)] + [Move(0)] == [Move(0)] + Moves3(0);
  }

  lemma FourActions(s0: State, a: Action, s1: State, s2: State, s3: State, s4: State)
    requires Enabled(false, s0, a) && Perform(false, s0, a) == s1 && Enabled(false, s1, a) && Perform(false, s1, a) == s2
    requires Enabled(false, s2, a) && Perform(false, s2, a) == s3 && Enabled(false, s3, a) && Perform(false, s3, a) == s4
    ensures After(false, s0, [a] + [a] + [a] + [a]) == Reached(s4)
  {
    hide After, Perform, Enabled;
    FirstAction(s0, a);
    NextAction(s0, [a], a, s1, s2);
    NextAction(s0, [a] + [a], a, s2, s3);
    NextAction(s0, [a] + [a] + [a], a, s3, s4);
  }

  lemma FirstAction(s: State, b: Action)
    requires Enabled(false, s, b)
    ensures After(false, s, [b]) == Reached(Perform(false, s, b))
  {
    assert [b][..0] == [];
  }

  lemma NextAction(s: State, a: seq<Action>, b: Action, s1: State, s2: State)
    requires After(false, s, a) == Reached(s1) && Enabled(false, s1, b) && Perform(false, s1, b) == s2
    ensures After(false, s, a + [b]) == Reached(s2)
  {
    assert (a + [b])[..|a|] == a;
  }

  // ------------------------------------------------------------------------------------------- the programs

  /** The shared memory segment together with the positions of the threads. */
  class SharedMemory {
    const turnstile: bool
    var threads: seq<Pc>
    var inn: nat
    var mx: nat
    var wrt: nat
    var readCount: nat
    var increment: int

    ghost function Now(): State
      reads this
    {
      State(threads, inn, mx, wrt, readCount, increment)
    }

    /** memset and sem_init */
    constructor (turnstile: bool, roles: seq<Pc>)
      requires InitialRoles(roles)
      ensures this.turnstile == turnstile && Now() == Init(roles) && Inv(turnstile, Now())
    {
      this.turnstile, threads := turnstile, roles;
      inn, mx, wrt, readCount, increment := 1, 1, 1, 0, 0;
      new;
      InitInv(turnstile, roles);
    }

    /** One statement of the reader lambda. */
    method ReaderStep(i: nat)
      requires Inv(turnstile, Now()) && Enabled(turnstile, Now(), Move(i))
      requires !(threads[i] == WriterStart || threads[i] == WriterHasIn || HoldsWrt(threads[i]) || threads[i] == ReleasingIn)
      modifies `threads, `inn, `mx, `wrt, `readCount
      ensures Now() == Moved(turnstile, old(Now()), i)
      ensures Inv(turnstile, Now())
    {
      hide Inv, Count;
      StepInv(turnstile, Now(), Move(i));
      var next;
      match threads[i] {
      case ReaderStart =>
        if turnstile {
          inn := inn - 1;
          next := ReaderHasIn;
        } else {
          mx := mx - 1;
          next := Incrementing;
        }
      case ReaderHasIn =>
        mx := mx - 1;
        next := Incrementing;
      case Incrementing =>
        readCount := (readCount + 1) % UINT32;
        next := if readCount == 1 then First else LeavingEntry;
      case First =>
        wrt := wrt - 1;
        next := LeavingEntry;
      case LeavingEntry =>
        mx := mx + 1;
        next := if turnstile then PassingTurnstile else Reading;
      case PassingTurnstile =>
        inn := inn + 1;
        next := Reading;
      case Reading =>
        mx := mx - 1;
        next := Decrementing;
      case Decrementing =>
        readCount := (readCount + UINT32 - 1) % UINT32;
        next := if readCount == 0 then Last else LeavingExit;
      case Last =>
        wrt := wrt + 1;
        next := LeavingExit;
      case LeavingExit =>
        mx := mx + 1;
        next := ReaderStart;
      }
      threads := threads[i := next];
    }

    /** One statement of the writer lambda; the increment is a load and a store. */
    method WriterStep(i: nat)
      requires Inv(turnstile, Now()) && Enabled(turnstile, Now(), Move(i))
      requires threads[i] == WriterStart || threads[i] == WriterHasIn || HoldsWrt(threads[i]) || threads[i] == ReleasingIn
      modifies `threads, `inn, `wrt, `increment
      ensures Now() == Moved(turnstile, old(Now()), i)
      ensures increment == old(increment) + One(old(threads[i]).Storing?)
      ensures Inv(turnstile, Now())
    {
      hide Inv, Count;
      StepInv(turnstile, Now(), Move(i));
      var next;
      match threads[i] {
      case WriterStart =>
        if turnstile {
          inn := inn - 1;
          next := WriterHasIn;
        } else {
          wrt := wrt - 1;
          next := Loading;
        }
      case WriterHasIn =>
        wrt := wrt - 1;
        next := Loading;
      case Loading =>
        next := Storing(increment);
      case Storing(seen) =>
        SeenIsCurrent(turnstile, Now(), i);
        increment := seen + 1;
        next := Releasing;
      case Releasing =>
        wrt := wrt + 1;
        next := if turnstile then ReleasingIn else WriterStart;
      case ReleasingIn =>
        inn := inn + 1;
        next := WriterStart;
      }
      threads := threads[i := next];
    }
  }
}
