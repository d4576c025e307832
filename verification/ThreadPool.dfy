/** The condition-variable work queue of threadpool_new/main.cpp.

A worker's step is one test or one critical section of `run`; testing the wait's predicate and going to sleep are
two steps, both under `guard`, because the destructor clears `is_active` without taking it. Wake-ups may be spurious
and woken workers compete for the mutex with workers that are not asleep. */
module ThreadPool {
  import opened Counting
  import opened Runs

  /** A posted function; `promised` when it was posted with `use_future`. */
  datatype Job = Job(promised: bool, fn: () -> int)

  /** A queued job and its place in the order of posting, which also names its promise. */
  datatype Ticket = Ticket(id: nat, job: Job)

  /** At the loop test, before locking, holding the mutex before the predicate, after the predicate failed, asleep,
      woken, after the predicate held, running a job, gone. */
  datatype Worker =
    | Looping | Acquiring | Holding | GoingToSleep | Sleeping | Notified | Ready | Running(ticket: Ticket) | Exited

  datatype Destructor = Alive | Deactivated | Joining(joined: nat)

  datatype State = State(workers: seq<Worker>, active: bool, destructor: Destructor, locked: bool,
                         pending: seq<Ticket>, posted: seq<Ticket>, dispatched: seq<Ticket>,
                         completed: set<nat>, promises: map<nat, int>)

  function Init(n: nat): State {
    State(seq(n, _ => Looping), true, Alive, false, [], [], [], {}, map[])
  }

  predicate IsSleeping(w: Worker) {
    w == Sleeping
  }

  /** Inside a critical section. */
  predicate InSection(w: Worker) {
    w == Holding || w == GoingToSleep || w == Ready
  }

  /** Woken, or already past the lock and about to take a job if there is one. */
  predicate ComingForWork(w: Worker) {
    w == Notified || w == Holding || w == Ready
  }

  // ------------------------------------------------------------------------------------------------- steps

  datatype Action = Work(i: nat) | Spurious(i: nat) | Post(job: Job, woken: nat) | Deactivate | NotifyAll | Join

  ghost predicate Enabled(s: State, a: Action) {
    match a
    case Work(i) =>
      && i < |s.workers| && s.workers[i] != Sleeping && s.workers[i] != Exited
      && (s.workers[i] == Acquiring || s.workers[i] == Notified ==> !s.locked)
      && (s.workers[i] == Ready && s.active ==> s.pending != [])
    case Spurious(i) => i < |s.workers| && s.workers[i] == Sleeping
    case Post(_, w) => s.destructor.Alive? && !s.locked && Wakes(s.workers, w)
    case Deactivate => s.destructor.Alive?
    case NotifyAll => s.destructor.Deactivated?
    case Join => s.destructor.Joining? && s.destructor.joined < |s.workers| && s.workers[s.destructor.joined] == Exited
  }

  /** notify_one may pick w: a sleeping worker if there is one. */
  predicate Wakes(workers: seq<Worker>, w: nat) {
    (exists j :: 0 <= j < |workers| && workers[j] == Sleeping) ==> w < |workers| && workers[w] == Sleeping
  }

  function NotifyOne(workers: seq<Worker>, w: nat): seq<Worker> {
    if w < |workers| && workers[w] == Sleeping then workers[w := Notified] else workers
  }

  function WakeAll(workers: seq<Worker>): seq<Worker> {
    seq(|workers|, k requires 0 <= k < |workers| => if workers[k] == Sleeping then Notified else workers[k])
  }

  function At(s: State, i: nat, w: Worker): State
    requires i < |s.workers|
  {
    s.(workers := s.workers[i := w])
  }

  /** The job runs; a promised one sets its promise. */
  function RunJob(s: State, i: nat, t: Ticket): State
    requires i < |s.workers|
  {
    At(s, i, Looping).(completed := s.completed + {t.id},
                       promises := if t.job.promised then s.promises[t.id := t.job.fn()] else s.promises)
  }

  ghost function Worked(s: State, i: nat): State
    requires Enabled(s, Work(i))
  {
    match s.workers[i]
    case Looping => At(s, i, if s.active then Acquiring else Exited)
    case Acquiring => At(s, i, Holding).(locked := true)
    case Notified => At(s, i, Holding).(locked := true)
    case Holding => At(s, i, if s.pending != [] || !s.active then Ready else GoingToSleep)
    case GoingToSleep => At(s, i, Sleeping).(locked := false)
    case Ready =>
      if !s.active then At(s, i, Exited).(locked := false)
      else At(s, i, Running(s.pending[0])).(locked := false, pending := s.pending[1..], dispatched := s.dispatched + [s.pending[0]])
    case Running(t) => RunJob(s, i, t)
  }

  ghost function Perform(s: State, a: Action): State
    requires Enabled(s, a)
  {
    match a
    case Work(i) => Worked(s, i)
    case Spurious(i) => At(s, i, Notified)
    case Post(job, w) =>
      var t := Ticket(|s.posted|, job);
      s.(pending := s.pending + [t], posted := s.posted + [t], workers := NotifyOne(s.workers, w))
    case Deactivate => s.(active := false, destructor := Deactivated)
    case NotifyAll => s.(workers := WakeAll(s.workers), destructor := Joining(0))
    case Join => s.(destructor := Joining(s.destructor.joined + 1))
  }

  // ---------------------------------------------------------------------------------------------- invariant

  /** The mutex is held by the one worker inside a critical section. */
  ghost predicate MutexOk(s: State) {
    Count(s.workers, InSection) == if s.locked then 1 else 0
  }

  /** A worker that is past its predicate finds what the predicate promised: `front` is never called on an empty
      queue, and nobody goes to sleep while a job is queued. */
  ghost predicate PredicateHolds(s: State) {
    && (forall i :: 0 <= i < |s.workers| && s.workers[i] == Ready && s.active ==> s.pending != [])
    && (forall i :: 0 <= i < |s.workers| && s.workers[i] == GoingToSleep ==> s.pending == [])
  }

  /** While the pool is active, either nobody sleeps or at least as many workers are coming for work as jobs are
      queued. */
  ghost predicate WorkConserving(s: State) {
    s.active && Count(s.workers, IsSleeping) > 0 ==> Count(s.workers, ComingForWork) >= |s.pending|
  }

  /** First in, first out: the dispatched jobs followed by the queued ones are the posted ones, in order. */
  ghost predicate Conserved(s: State) {
    && s.dispatched + s.pending == s.posted
    && (forall k :: 0 <= k < |s.posted| ==> s.posted[k].id == k)
  }

  predicate RunsJob(w: Worker, k: nat) {
    w.Running? && w.ticket.id == k
  }

  /** No dispatched job is dropped: it has completed, or some worker is running it. */
  ghost predicate NothingDropped(s: State) {
    forall k: nat :: k < |s.dispatched| && k !in s.completed ==> exists i :: 0 <= i < |s.workers| && RunsJob(s.workers[i], k)
  }

  /** Each dispatched job is running on exactly one worker or has completed; promises hold the results of the
      completed promised jobs. */
  ghost predicate JobsOk(s: State) {
    && (forall i :: 0 <= i < |s.workers| && s.workers[i].Running? ==>
          s.workers[i].ticket.id < |s.dispatched| && s.dispatched[s.workers[i].ticket.id] == s.workers[i].ticket
          && s.workers[i].ticket.id !in s.completed)
    && (forall i, j :: 0 <= i < j < |s.workers| && s.workers[i].Running? && s.workers[j].Running? ==>
          s.workers[i].ticket.id != s.workers[j].ticket.id)
    && NothingDropped(s)
    && (forall k :: k in s.completed ==> k < |s.dispatched|)
    && (forall k :: k in s.promises <==> k in s.completed && k < |s.posted| && s.posted[k].job.promised)
    && (forall k :: k in s.promises && k < |s.posted| ==> s.promises[k] == s.posted[k].job.fn())
  }

  /** Workers leave only after deactivation, and the joined ones have left. */
  ghost predicate ShutdownOk(s: State) {
    && (s.active <==> s.destructor.Alive?)
    && (s.active ==> forall i :: 0 <= i < |s.workers| ==> s.workers[i] != Exited)
    && (s.destructor.Joining? ==> s.destructor.joined <= |s.workers|
                                  && forall i :: 0 <= i < s.destructor.joined ==> s.workers[i] == Exited)
  }

  ghost predicate Inv(s: State) {
    && MutexOk(s) && PredicateHolds(s) && WorkConserving(s) && Conserved(s) && JobsOk(s) && ShutdownOk(s)
  }

  lemma InitInv(n: nat)
    ensures Inv(Init(n))
  {
    CountZero(Init(n).workers, InSection);
    CountZero(Init(n).workers, IsSleeping);
  }

  function One(b: bool): nat {
    if b then 1 else 0
  }

  lemma Moves(workers: seq<Worker>, i: nat, w: Worker)
    requires i < |workers|
    ensures var t := workers[i := w];
            && Count(t, InSection) == Count(workers, InSection) - One(InSection(workers[i])) + One(InSection(w))
            && Count(t, IsSleeping) == Count(workers, IsSleeping) - One(IsSleeping(workers[i])) + One(IsSleeping(w))
            && Count(t, ComingForWork) == Count(workers, ComingForWork) - One(ComingForWork(workers[i])) + One(ComingForWork(w))
  {
    CountUpdate(workers, i, w, InSection);
    CountUpdate(workers, i, w, IsSleeping);
    CountUpdate(workers, i, w, ComingForWork);
  }

  /** The other workers are outside the critical section when worker i is inside, or when the mutex is free. */
  lemma OthersOutside(s: State, i: nat, j: nat)
    requires MutexOk(s) && i < |s.workers| && j < |s.workers| && i != j && (InSection(s.workers[i]) || !s.locked)
    ensures !InSection(s.workers[j])
  {
    if InSection(s.workers[j]) {
      CountSome(s.workers, j, InSection);
      if i < j {
        CountTwo(s.workers, i, j, InSection);
      } else {
        CountTwo(s.workers, j, i, InSection);
      }
    }
  }

  lemma WorkerCounts(s: State, i: nat)
    requires Inv(s) && Enabled(s, Work(i))
    ensures MutexOk(Worked(s, i)) && WorkConserving(Worked(s, i))
  {
    hide Count, Conserved, JobsOk;
    Moves(s.workers, i, Worked(s, i).workers[i]);
    if InSection(s.workers[i]) {
      CountSome(s.workers, i, InSection);
    }
  }

  lemma WorkerPredicate(s: State, i: nat)
    requires Inv(s) && Enabled(s, Work(i))
    ensures PredicateHolds(Worked(s, i))
  {
    hide Count, Conserved, JobsOk, WorkConserving;
    forall j | 0 <= j < |s.workers| && j != i && (InSection(s.workers[i]) || !s.locked) ensures !InSection(s.workers[j]) {
      OthersOutside(s, i, j);
    }
  }

  /** A step after which every running worker still runs its job, but for jobs that it completes, drops nothing. */
  lemma StillRunning(s: State, s': State)
    requires NothingDropped(s) && |s'.workers| == |s.workers| && s.completed <= s'.completed && s'.dispatched == s.dispatched
    requires forall i :: 0 <= i < |s.workers| && s.workers[i].Running? ==>
               s'.workers[i] == s.workers[i] || s.workers[i].ticket.id in s'.completed
    ensures NothingDropped(s')
  {
    forall k: nat | k < |s'.dispatched| && k !in s'.completed
      ensures exists i :: 0 <= i < |s'.workers| && RunsJob(s'.workers[i], k)
    {
      var i :| 0 <= i < |s.workers| && RunsJob(s.workers[i], k);
      assert RunsJob(s'.workers[i], k);
    }
  }

  lemma DispatchedRuns(s: State, s': State, i: nat)
    requires NothingDropped(s) && i < |s.workers| && !s.workers[i].Running? && s.pending != [] && s.pending[0].id == |s.dispatched|
    requires s' == At(s, i, Running(s.pending[0])).(locked := false, pending := s.pending[1..], dispatched := s.dispatched + [s.pending[0]])
    ensures NothingDropped(s')
  {
    forall k: nat | k < |s'.dispatched| && k !in s'.completed
      ensures exists j :: 0 <= j < |s'.workers| && RunsJob(s'.workers[j], k)
    {
      if k == |s.dispatched| {
        assert RunsJob(s'.workers[i], k);
      } else {
        var j :| 0 <= j < |s.workers| && RunsJob(s.workers[j], k);
        assert RunsJob(s'.workers[j], k);
      }
    }
  }

  /** Taking the job at the front of the queue. */
  lemma DispatchKeepsJobs(s: State, s': State, i: nat)
    requires Conserved(s) && JobsOk(s) && i < |s.workers| && !s.workers[i].Running? && s.pending != []
    requires s' == At(s, i, Running(s.pending[0])).(locked := false, pending := s.pending[1..], dispatched := s.dispatched + [s.pending[0]])
    ensures Conserved(s') && JobsOk(s')
  {
    var t := s.pending[0];
    assert s.posted[|s.dispatched|] == t && t.id == |s.dispatched|;
    assert s'.dispatched + s'.pending == s.posted;
    DispatchedRuns(s, s', i);
    forall j | 0 <= j < |s'.workers| && s'.workers[j].Running?
      ensures s'.workers[j].ticket.id < |s'.dispatched| && s'.dispatched[s'.workers[j].ticket.id] == s'.workers[j].ticket
      ensures s'.workers[j].ticket.id !in s'.completed && (j != i ==> s'.workers[j].ticket.id != t.id)
    {
      if j != i {
        assert s.workers[j].Running?;
      }
    }
  }

  /** Running a job: it completes, its promise had not been set, and a promised job's promise gets the result of its
      own function. */
  lemma RunKeepsJobs(s: State, i: nat)
    requires Conserved(s) && JobsOk(s) && i < |s.workers| && s.workers[i].Running?
    ensures Conserved(RunJob(s, i, s.workers[i].ticket)) && JobsOk(RunJob(s, i, s.workers[i].ticket))
    ensures var t, s' := s.workers[i].ticket, RunJob(s, i, s.workers[i].ticket);
            && t.id !in s.promises && t.id in s'.completed
            && (t.job.promised ==> t.id in s'.promises && s'.promises[t.id] == t.job.fn())
  {
    var t, s' := s.workers[i].ticket, RunJob(s, i, s.workers[i].ticket);
    assert s.posted[t.id] == t;
    StillRunning(s, s');
    forall j | 0 <= j < |s'.workers| && s'.workers[j].Running?
      ensures s'.workers[j].ticket.id < |s'.dispatched| && s'.dispatched[s'.workers[j].ticket.id] == s'.workers[j].ticket
      ensures s'.workers[j].ticket.id !in s'.completed
    {
      assert s.workers[j].Running? && j != i;
    }
  }

  /** Any other change of a worker. */
  lemma IdleKeepsJobs(s: State, s': State, i: nat, w: Worker)
    requires Conserved(s) && JobsOk(s) && i < |s.workers| && !s.workers[i].Running? && !w.Running?
    requires s' == At(s, i, w).(locked := s'.locked)
    ensures Conserved(s') && JobsOk(s')
  {
    forall j | 0 <= j < |s'.workers| && s'.workers[j].Running? ensures s'.workers[j] == s.workers[j] {
    }
    StillRunning(s, s');
  }

  lemma WorkerJobs(s: State, i: nat)
    requires Inv(s) && Enabled(s, Work(i))
    ensures Conserved(Worked(s, i)) && JobsOk(Worked(s, i))
  {
    hide MutexOk, WorkConserving, PredicateHolds, Conserved, JobsOk;
    var s' := Worked(s, i);
    if s.workers[i] == Ready && s.active {
      DispatchKeepsJobs(s, s', i);
    } else if s.workers[i].Running? {
      RunKeepsJobs(s, i);
    } else {
      IdleKeepsJobs(s, s', i, s'.workers[i]);
    }
  }

  lemma PostInv(s: State, job: Job, w: nat)
    requires Inv(s) && Enabled(s, Post(job, w))
    ensures Inv(Perform(s, Post(job, w)))
  {
    hide Count;
    var s' := Perform(s, Post(job, w));
    assert s'.dispatched + s'.pending == s'.posted;
    StillRunning(s, s');
    CountZero(s.workers, InSection);
    CountZero(s.workers, IsSleeping);
    if w < |s.workers| && s.workers[w] == Sleeping {
      Moves(s.workers, w, Notified);
    }
  }

  lemma NotifyAllInv(s: State)
    requires Inv(s) && Enabled(s, NotifyAll)
    ensures Inv(Perform(s, NotifyAll))
    ensures Count(Perform(s, NotifyAll).workers, IsSleeping) == 0
  {
    hide Count;
    var s' := Perform(s, NotifyAll);
    StillRunning(s, s');
    CountSame(s.workers, s'.workers, InSection);
    CountZero(s'.workers, IsSleeping);
  }

  lemma WorkInv(s: State, i: nat)
    requires Inv(s) && Enabled(s, Work(i))
    ensures Inv(Worked(s, i))
  {
    hide MutexOk, PredicateHolds, WorkConserving, Conserved, JobsOk;
    WorkerCounts(s, i);
    WorkerPredicate(s, i);
    WorkerJobs(s, i);
  }

  lemma SpuriousInv(s: State, i: nat)
    requires Inv(s) && Enabled(s, Spurious(i))
    ensures Inv(At(s, i, Notified))
  {
    hide Count, Conserved, JobsOk;
    Moves(s.workers, i, Notified);
    IdleKeepsJobs(s, At(s, i, Notified), i, Notified);
  }

  /** Every step keeps the invariant. */
  lemma StepInv(s: State, a: Action)
    requires Inv(s) && Enabled(s, a)
    ensures Inv(Perform(s, a))
  {
    hide Count;
    match a
    case Work(i) =>
      WorkInv(s, i);
    case Spurious(i) => SpuriousInv(s, i);
    case Post(job, w) => PostInv(s, job, w);
    case Deactivate =>
    case NotifyAll => NotifyAllInv(s);
    case Join =>
  }

  // -------------------------------------------------------------------------------------------------- runs

  ghost function After(s: State, actions: seq<Action>): Run<State>
    decreases |actions|
  {
    if actions == [] then Reached(s)
    else
      var before, a := After(s, actions[..|actions| - 1]), actions[|actions| - 1];
      if before.Reached? && Enabled(before.state, a) then Reached(Perform(before.state, a)) else Blocked
  }

  lemma {:induction false} RunInv(s: State, actions: seq<Action>)
    requires Inv(s) && After(s, actions).Reached?
    ensures Inv(After(s, actions).state)
    decreases |actions|
  {
    hide Inv;
    if actions != [] {
      RunInv(s, actions[..|actions| - 1]);
      StepInv(After(s, actions[..|actions| - 1]).state, actions[|actions| - 1]);
    }
  }

  /** The jobs posted by a sequence of actions, in order. */
  function PostedJobs(actions: seq<Action>): seq<Job> {
    if actions == [] then []
    else PostedJobs(actions[..|actions| - 1]) + if actions[|actions| - 1].Post? then [actions[|actions| - 1].job] else []
  }

  lemma {:induction false} PostedInOrder(n: nat, actions: seq<Action>)
    requires After(Init(n), actions).Reached?
    ensures var s := After(Init(n), actions).state;
            |s.posted| == |PostedJobs(actions)| && forall k :: 0 <= k < |s.posted| ==> s.posted[k].job == PostedJobs(actions)[k]
    decreases |actions|
  {
    if actions != [] {
      PostedInOrder(n, actions[..|actions| - 1]);
    }
  }

  /** In every run: the dispatched jobs followed by the queued ones are the posted ones in order; a dispatched job
      is running on exactly one worker or has completed, never both and never neither; and the promise of a promised job is set
      exactly when the job has completed, to the result of its own function. */
  lemma FirstInFirstOut(n: nat, actions: seq<Action>, i: nat, j: nat, k: nat)
    requires After(Init(n), actions).Reached?
    ensures var s := After(Init(n), actions).state;
            && |s.dispatched| + |s.pending| == |PostedJobs(actions)|
            && (k < |s.dispatched| ==> s.dispatched[k] == Ticket(k, PostedJobs(actions)[k]))
            && (k < |s.pending| ==> s.pending[k] == Ticket(|s.dispatched| + k, PostedJobs(actions)[|s.dispatched| + k]))
            && (i < j < |s.workers| && s.workers[i].Running? && s.workers[j].Running? ==> s.workers[i].ticket.id != s.workers[j].ticket.id)
            && (i < |s.workers| && s.workers[i].Running? ==> s.workers[i].ticket.id < |s.dispatched| && s.workers[i].ticket.id !in s.completed)
            && (k < |s.dispatched| && k !in s.completed ==> exists w :: 0 <= w < |s.workers| && RunsJob(s.workers[w], k))
            && (k in s.completed ==> k < |s.dispatched|)
            && (k in s.promises <==> k in s.completed && PostedJobs(actions)[k].promised)
            && (k in s.promises ==> s.promises[k] == PostedJobs(actions)[k].fn())
  {
    hide MutexOk, PredicateHolds, WorkConserving, ShutdownOk, After, PostedJobs;
    InitInv(n);
    RunInv(Init(n), actions);
    PostedInOrder(n, actions);
    var s := After(Init(n), actions).state;
    if k < |s.dispatched| {
      assert s.posted[k] == s.dispatched[k];
    }
    if k < |s.pending| {
      assert s.posted[|s.dispatched| + k] == s.pending[k];
    }
  }

  predicate IsRunning(w: Worker) {
    w.Running?
  }

  /** In every run, whenever no worker is running a job, every promised job that has left the queue has fulfilled its
      promise with its own function's result; when the queue is empty too, every promised job ever posted has. */
  lemma PromisesKept(n: nat, actions: seq<Action>, k: nat)
    requires After(Init(n), actions).Reached? && Count(After(Init(n), actions).state.workers, IsRunning) == 0
    requires k < |PostedJobs(actions)| - |After(Init(n), actions).state.pending| && PostedJobs(actions)[k].promised
    ensures var s := After(Init(n), actions).state;
            k in s.promises && s.promises[k] == PostedJobs(actions)[k].fn()
  {
    hide After, PostedJobs, Count;
    FirstInFirstOut(n, actions, 0, 0, k);
    CountZero(After(Init(n), actions).state.workers, IsRunning);
  }

  predicate IsNotified(w: Worker) {
    w == Notified
  }

  /** In every run, whenever the mutex is free and the pool is active: nobody sleeps, or at least as many workers
      have been woken as jobs are queued. */
  lemma NoLostWakeup(n: nat, actions: seq<Action>)
    requires After(Init(n), actions).Reached?
    requires var s := After(Init(n), actions).state; s.active && !s.locked
    ensures var s := After(Init(n), actions).state;
            Count(s.workers, IsSleeping) == 0 || Count(s.workers, IsNotified) >= |s.pending|
  {
    hide Count, PredicateHolds, Conserved, JobsOk, ShutdownOk;
    InitInv(n);
    RunInv(Init(n), actions);
    var s := After(Init(n), actions).state;
    CountZero(s.workers, InSection);
    CountSplit(s.workers);
  }

  lemma {:induction false} CountSplit(workers: seq<Worker>)
    requires forall i :: 0 <= i < |workers| ==> !InSection(workers[i])
    ensures Count(workers, ComingForWork) == Count(workers, IsNotified)
  {
    if workers != [] {
      CountSplit(workers[..|workers| - 1]);
    }
  }

  // ------------------------------------------------------------------------------------ work gets dispatched

  /** The steps a worker takes to its next dispatch while a job is queued. */
  function ToDispatch(w: Worker): nat {
    match w
    case Running(_) => 5
    case Looping => 4
    case Acquiring => 3
    case Notified => 3
    case Holding => 2
    case Ready => 1
    case _ => 0
  }

  ghost predicate Dispatches(s: State, a: Action) {
    a.Work? && a.i < |s.workers| && s.workers[a.i] == Ready && s.active
  }

  /** While a job is queued and the pool is active, some worker that is not asleep can move, unless there are no
      workers at all. */
  lemma SomeWorkerMoves(s: State) returns (i: nat)
    requires Inv(s) && s.active && s.pending != [] && s.workers != []
    ensures Enabled(s, Work(i))
  {
    hide Count, Conserved, JobsOk;
    CountZero(s.workers, InSection);
    if s.locked {
      i := Find(s.workers, InSection);
    } else {
      CountZero(s.workers, IsSleeping);
      if Count(s.workers, IsSleeping) > 0 {
        i := Find(s.workers, ComingForWork);
      } else {
        i := 0;
      }
    }
  }

  /** ... and each such step either dispatches a job or brings the next dispatch nearer. */
  lemma DispatchNearer(s: State, i: nat)
    requires Inv(s) && Enabled(s, Work(i)) && s.active && s.pending != []
    ensures Dispatches(s, Work(i)) || Total(Worked(s, i).workers, ToDispatch) < Total(s.workers, ToDispatch)
    ensures Dispatches(s, Work(i)) <==> |Worked(s, i).dispatched| == |s.dispatched| + 1
  {
    hide Count, Total, MutexOk, WorkConserving, Conserved, JobsOk;
    TotalUpdate(s.workers, i, Worked(s, i).workers[i], ToDispatch);
  }

  // ------------------------------------------------------------------------------- shutdown can miss a worker

  predicate NoSpurious(actions: seq<Action>) {
    forall k :: 0 <= k < |actions| ==> !actions[k].Spurious?
  }

  /** All workers have been joined. */
  predicate Finished(s: State) {
    s.destructor == Joining(|s.workers|)
  }

  /** The destructor waits for a worker that is asleep. */
  predicate Hangs(s: State, w: nat) {
    s.destructor.Joining? && w < |s.workers| && s.workers[w] == Sleeping
  }

  lemma HangsStep(s: State, w: nat, a: Action)
    requires Hangs(s, w) && !a.Spurious? && Enabled(s, a)
    ensures Hangs(Perform(s, a), w)
  {
  }

  lemma NotFinished(s: State, w: nat)
    requires Inv(s) && Hangs(s, w)
    ensures !Finished(s)
  {
    hide MutexOk, PredicateHolds, WorkConserving, Conserved, JobsOk;
  }

  /** Nothing but a spurious wake-up ever wakes that worker, so the destructor never returns. */
  lemma {:induction false} HangsForever(s: State, w: nat, actions: seq<Action>)
    requires Inv(s) && Hangs(s, w) && NoSpurious(actions) && After(s, actions).Reached?
    ensures Hangs(After(s, actions).state, w) && !Finished(After(s, actions).state)
    decreases |actions|
  {
    hide Inv, Enabled, Perform, Hangs, Finished;
    RunInv(s, actions);
    if actions != [] {
      HangsForever(s, w, actions[..|actions| - 1]);
      HangsStep(After(s, actions[..|actions| - 1]).state, w, actions[|actions| - 1]);
    }
    NotFinished(After(s, actions).state, w);
  }

  /** Neither asleep nor about to be. */
  predicate Awake(w: Worker) {
    w != Sleeping && w != GoingToSleep
  }

  predicate AllAwake(s: State) {
    s.destructor.Joining? && forall i :: 0 <= i < |s.workers| ==> Awake(s.workers[i])
  }

  /** The steps a worker takes to leave once the pool is inactive. */
  function ToExit(w: Worker): nat {
    match w
    case Running(_) => 2
    case Looping => 1
    case Acquiring => 3
    case Notified => 3
    case Holding => 2
    case Ready => 1
    case _ => 0
  }

  function ShutdownSteps(s: State): int
    requires s.destructor.Joining?
  {
    Total(s.workers, ToExit) + (|s.workers| - s.destructor.joined)
  }

  /** If nobody was going to sleep when the notification was sent, nobody ever sleeps again, and every step brings
      the end nearer. */
  lemma ShutdownStep(s: State, a: Action)
    requires Inv(s) && AllAwake(s) && Enabled(s, a)
    ensures AllAwake(Perform(s, a)) && 0 <= ShutdownSteps(Perform(s, a)) < ShutdownSteps(s)
  {
    hide Count, Total, MutexOk, WorkConserving, PredicateHolds, Conserved, JobsOk;
    match a
    case Work(i) =>
      TotalUpdate(s.workers, i, Worked(s, i).workers[i], ToExit);
    case Join =>
    case _ => assert false;
  }

  lemma ShutdownProgress(s: State) returns (a: Action)
    requires Inv(s) && AllAwake(s) && !Finished(s)
    ensures Enabled(s, a) && !a.Spurious?
  {
    hide Count, Conserved, JobsOk, WorkConserving;
    var k := s.destructor.joined;
    CountZero(s.workers, InSection);
    if s.workers[k] == Exited {
      a := Join;
    } else if s.locked {
      var i := Find(s.workers, InSection);
      a := Work(i);
    } else {
      a := Work(k);
    }
  }

  lemma {:induction false} ShutdownBounded(s: State, actions: seq<Action>)
    requires Inv(s) && AllAwake(s) && After(s, actions).Reached?
    ensures AllAwake(After(s, actions).state)
    ensures 0 <= ShutdownSteps(After(s, actions).state) && |actions| + ShutdownSteps(After(s, actions).state) <= ShutdownSteps(s)
    decreases |actions|
  {
    hide Inv, AllAwake, ShutdownSteps;
    RunInv(s, actions);
    if actions != [] {
      var before := actions[..|actions| - 1];
      ShutdownBounded(s, before);
      RunInv(s, before);
      ShutdownStep(After(s, before).state, actions[|actions| - 1]);
      StillAwake(After(s, actions).state);
    } else {
      ShutdownNonNegative(s);
    }
  }

  lemma StillAwake(s: State)
    requires AllAwake(s)
    ensures s.destructor.Joining?
  {
  }

  lemma ShutdownNonNegative(s: State)
    requires Inv(s) && AllAwake(s)
    ensures ShutdownSteps(s) >= 0
  {
    hide Total;
  }

  /** The destructor is sure to return, spurious wake-ups aside, exactly when no worker stands between its failed
      predicate and its sleep at the moment of notify_all. */
  lemma ShutdownReturnsIff(s: State)
    requires Inv(s) && s.destructor.Deactivated?
    ensures (forall actions, w :: NoSpurious(actions) && After(Perform(s, NotifyAll), actions).Reached? ==>
               !Hangs(After(Perform(s, NotifyAll), actions).state, w))
       <==> (forall i :: 0 <= i < |s.workers| ==> s.workers[i] != GoingToSleep)
  {
    var s1 := Perform(s, NotifyAll);
    NotifyAllInv(s);
    if forall i :: 0 <= i < |s.workers| ==> s.workers[i] != GoingToSleep {
      forall actions, w | NoSpurious(actions) && After(s1, actions).Reached? ensures !Hangs(After(s1, actions).state, w) {
        WokenAwake(s);
        ShutdownBounded(s1, actions);
      }
    } else {
      var w: nat :| w < |s.workers| && s.workers[w] == GoingToSleep;
      LostWakeup(s, w);
    }
  }

  lemma WokenAwake(s: State)
    requires Inv(s) && s.destructor.Deactivated? && forall i :: 0 <= i < |s.workers| ==> s.workers[i] != GoingToSleep
    ensures AllAwake(Perform(s, NotifyAll))
  {
    var s1 := Perform(s, NotifyAll);
    forall i | 0 <= i < |s1.workers| ensures Awake(s1.workers[i]) {
      assert s1.workers[i] == if s.workers[i] == Sleeping then Notified else s.workers[i];
    }
  }

  /** The lost wake-up: the worker goes to sleep just after it was not woken. */
  lemma LostWakeup(s: State, w: nat)
    requires Inv(s) && s.destructor.Deactivated? && w < |s.workers| && s.workers[w] == GoingToSleep
    ensures NoSpurious([Work(w)]) && After(Perform(s, NotifyAll), [Work(w)]).Reached?
    ensures Hangs(After(Perform(s, NotifyAll), [Work(w)]).state, w)
  {
    var s1 := Perform(s, NotifyAll);
    assert [Work(w)][..0] == [];
    assert After(s1, []) == Reached(s1);
    assert s1.workers[w] == GoingToSleep;
  }

  // ------------------------------------------------------------------------------ at the call of the destructor

  /** Neither posts nor spurious wake-ups. */
  predicate Quiet(actions: seq<Action>) {
    NoSpurious(actions) && forall k :: 0 <= k < |actions| ==> !actions[k].Post?
  }

  predicate AllAsleep(s: State) {
    forall i :: 0 <= i < |s.workers| ==> s.workers[i] == Sleeping
  }

  /** Everyone sleeps until notify_all, and nobody after it. */
  predicate SleepsUntilWoken(s: State) {
    if s.destructor.Joining? then AllAwake(s) else AllAsleep(s)
  }

  lemma SleepsUntilWokenStep(s: State, a: Action)
    requires Inv(s) && SleepsUntilWoken(s) && Enabled(s, a) && !a.Spurious? && !a.Post?
    ensures SleepsUntilWoken(Perform(s, a))
  {
    hide Inv, AllAwake;
    if s.destructor.Joining? {
      ShutdownStep(s, a);
      StillAwake(Perform(s, a));
    } else if a.NotifyAll? {
      WokenAwake(s);
    }
  }

  lemma {:induction false} SleepsUntilWokenThroughout(s: State, actions: seq<Action>)
    requires Inv(s) && SleepsUntilWoken(s) && Quiet(actions) && After(s, actions).Reached?
    ensures SleepsUntilWoken(After(s, actions).state)
    decreases |actions|
  {
    hide Inv, SleepsUntilWoken;
    if actions != [] {
      var n := |actions| - 1;
      SleepsUntilWokenThroughout(s, actions[..n]);
      RunInv(s, actions[..n]);
      assert !actions[n].Spurious? && !actions[n].Post?;
      SleepsUntilWokenStep(After(s, actions[..n]).state, actions[n]);
    }
  }

  /** The steps left until the destructor returns. */
  function CallSteps(s: State): int {
    match s.destructor
    case Alive => 2 + 4 * |s.workers|
    case Deactivated => 1 + 4 * |s.workers|
    case Joining(_) => ShutdownSteps(s)
  }

  lemma CallStep(s: State, a: Action)
    requires Inv(s) && SleepsUntilWoken(s) && Enabled(s, a) && !a.Spurious? && !a.Post?
    ensures 0 <= CallSteps(Perform(s, a)) < CallSteps(s)
  {
    hide Inv, AllAwake;
    if s.destructor.Joining? {
      ShutdownStep(s, a);
      StillAwake(Perform(s, a));
    } else if a.NotifyAll? {
      AllWokenSteps(WakeAll(s.workers));
    }
  }

  lemma {:induction false} AllWokenSteps(workers: seq<Worker>)
    requires forall i :: 0 <= i < |workers| ==> workers[i] == Notified
    ensures Total(workers, ToExit) == 3 * |workers|
  {
    if workers != [] {
      AllWokenSteps(workers[..|workers| - 1]);
    }
  }

  lemma {:induction false} CallBounded(s: State, actions: seq<Action>)
    requires Inv(s) && SleepsUntilWoken(s) && Quiet(actions) && After(s, actions).Reached? && CallSteps(s) >= 0
    ensures CallSteps(After(s, actions).state) >= 0 && |actions| + CallSteps(After(s, actions).state) <= CallSteps(s)
    decreases |actions|
  {
    hide Inv, SleepsUntilWoken, CallSteps;
    if actions != [] {
      var n := |actions| - 1;
      CallBounded(s, actions[..n]);
      SleepsUntilWokenThroughout(s, actions[..n]);
      RunInv(s, actions[..n]);
      assert !actions[n].Spurious? && !actions[n].Post?;
      CallStep(After(s, actions[..n]).state, actions[n]);
    }
  }

  /** Called with all workers asleep, with no posts any more and spurious wake-ups aside, the destructor returns within
      two steps and four for each worker: no schedule is longer, and none ends before it has returned. */
  lemma DestroyReturns(s: State, actions: seq<Action>) returns (next: Action)
    requires Inv(s) && s.destructor.Alive? && AllAsleep(s) && Quiet(actions) && After(s, actions).Reached?
    ensures |actions| <= 2 + 4 * |s.workers|
    ensures var t := After(s, actions).state; Finished(t) || (Enabled(t, next) && !next.Spurious? && !next.Post?)
  {
    hide After, MutexOk, PredicateHolds, WorkConserving, Conserved, JobsOk, AllAwake;
    CallBounded(s, actions);
    SleepsUntilWokenThroughout(s, actions);
    RunInv(s, actions);
    var t := After(s, actions).state;
    next := Deactivate;
    if t.destructor.Deactivated? {
      next := NotifyAll;
    } else if t.destructor.Joining? && !Finished(t) {
      next := ShutdownProgress(t);
      NoPostWhileJoining(t, next);
    }
  }

  lemma NoPostWhileJoining(s: State, a: Action)
    requires s.destructor.Joining? && Enabled(s, a)
    ensures !a.Post?
  {
  }

  /** A worker that may yet test the predicate: neither asleep nor gone. */
  predicate Moving(s: State, w: nat) {
    w < |s.workers| && s.workers[w] != Sleeping && s.workers[w] != Exited
  }

  /** Some worker can take a step after which a worker is still up, and which brings the failed predicate nearer. */
  lemma NextTowardSleep(s: State, w: nat) returns (i: nat)
    requires Inv(s) && s.active && Moving(s, w) && forall j :: 0 <= j < |s.workers| ==> s.workers[j] != GoingToSleep
    ensures Enabled(s, Work(i)) && Worked(s, i).active && Moving(Worked(s, i), i)
    ensures Worked(s, i).destructor == s.destructor
    ensures Worked(s, i).workers[i] == GoingToSleep || |Worked(s, i).pending| < |s.pending|
         || (|Worked(s, i).pending| == |s.pending| && Total(Worked(s, i).workers, ToDispatch) < Total(s.workers, ToDispatch))
  {
    hide Count, Total, WorkConserving, Conserved, JobsOk;
    CountZero(s.workers, InSection);
    if s.locked {
      i := Find(s.workers, InSection);
    } else {
      i := w;
    }
    TotalUpdate(s.workers, i, Worked(s, i).workers[i], ToDispatch);
  }

  /** While the pool is active and nobody posts, a worker that is up can be scheduled until some worker has found the
      queue empty and is about to sleep. */
  lemma {:induction false} SomeoneGoesToSleep(s0: State, a: seq<Action>, s: State, w: nat) returns (b: seq<Action>, t: State, i: nat)
    requires Inv(s) && s.destructor.Alive? && After(s0, a) == Reached(s) && Quiet(a) && Moving(s, w)
    ensures Inv(t) && t.destructor.Alive? && After(s0, b) == Reached(t) && Quiet(b) && i < |t.workers| && t.workers[i] == GoingToSleep
    decreases |s.pending|, Total(s.workers, ToDispatch)
  {
    hide After, Total, MutexOk, PredicateHolds, WorkConserving, Conserved, JobsOk;
    b, t, i := a, s, w;
    if g: nat :| g < |s.workers| && s.workers[g] == GoingToSleep {
      i := g;
    } else {
      var j := NextTowardSleep(s, w);
      StepInv(s, Work(j));
      Then(s0, a, Work(j), s, Worked(s, j));
      b, t, i := a + [Work(j)], Worked(s, j), j;
      if t.workers[j] != GoingToSleep {
        b, t, i := SomeoneGoesToSleep(s0, b, t, j);
      }
    }
  }

  /** From there the wake-up can be lost. */
  lemma SleepMissesWakeup(s0: State, b: seq<Action>, t: State, i: nat) returns (all: seq<Action>)
    requires Inv(t) && t.destructor.Alive? && After(s0, b) == Reached(t) && Quiet(b) && i < |t.workers| && t.workers[i] == GoingToSleep
    ensures Quiet(all) && After(s0, all).Reached? && Hangs(After(s0, all).state, i)
  {
    hide After, Inv;
    var t1 := Perform(t, Deactivate);
    var t2 := Perform(t1, NotifyAll);
    assert t2.workers[i] == GoingToSleep;
    Then(s0, b, Deactivate, t, t1);
    Then(s0, b + [Deactivate], NotifyAll, t1, t2);
    Then(s0, b + [Deactivate] + [NotifyAll], Work(i), t2, Perform(t2, Work(i)));
    all := b + [Deactivate] + [NotifyAll] + [Work(i)];
  }

  /** What a caller can know before destroying the pool: with no posts any more, and spurious wake-ups aside, no
      schedule makes the destructor wait for ever exactly when all workers are asleep. */
  lemma DestroySafelyIff(s: State)
    requires Inv(s) && s.destructor.Alive?
    ensures (forall actions, w :: Quiet(actions) && After(s, actions).Reached? ==> !Hangs(After(s, actions).state, w)) <==> AllAsleep(s)
  {
    hide After;
    if AllAsleep(s) {
      forall actions, w | Quiet(actions) && After(s, actions).Reached? ensures !Hangs(After(s, actions).state, w) {
        SleepsUntilWokenThroughout(s, actions);
      }
    } else {
      var w: nat :| w < |s.workers| && s.workers[w] != Sleeping;
      NoActions(s);
      var b, t, i := SomeoneGoesToSleep(s, [], s, w);
      var all := SleepMissesWakeup(s, b, t, i);
    }
  }

  /** And such a moment is reachable, in three steps of a single worker. */
  lemma LostWakeupReachable()
    ensures var s := Init(1).(workers := [GoingToSleep], locked := true);
            After(Init(1), [Work(0), Work(0), Work(0), Deactivate]) == Reached(s.(active := false, destructor := Deactivated))
  {
    hide After;
    var s0 := Init(1);
    assert s0.workers == [Looping];
    NoActions(s0);
    Then(s0, [], Work(0), s0, s0.(workers := [Acquiring]));
    Then(s0, [] + [Work(0)], Work(0), s0.(workers := [Acquiring]), s0.(workers := [Holding], locked := true));
    Then(s0, [] + [Work(0)] + [Work(0)], Work(0), s0.(workers := [Holding], locked := true), s0.(workers := [GoingToSleep], locked := true));
    Then(s0, [] + [Work(0)] + [Work(0)] + [Work(0)], Deactivate, s0.(workers := [GoingToSleep], locked := true),
         s0.(workers := [GoingToSleep], locked := true, active := false, destructor := Deactivated));
    assert [] + [Work(0)] + [Work(0)] + [Work(0)] + [Deactivate] == [Work(0), Work(0), Work(0), Deactivate];
  }

  lemma NoActions(s: State)
    ensures After(s, []) == Reached(s)
  {
  }

  lemma Then(s: State, a: seq<Action>, b: Action, s1: State, s2: State)
    requires After(s, a) == Reached(s1) && Enabled(s1, b) && Perform(s1, b) == s2
    ensures After(s, a + [b]) == Reached(s2)
  {
    assert (a + [b])[..|a|] == a;
  }

  // ------------------------------------------------------------------------------------------- the program

  class Pool {
    var workers: seq<Worker>
    var active: bool
    var destructor: Destructor
    var locked: bool
    var pending: seq<Ticket>
    var promises: map<nat, int>
    var next: nat
    ghost var posted: seq<Ticket>
    ghost var dispatched: seq<Ticket>
    ghost var completed: set<nat>

    ghost function Now(): State
      reads this
    {
      State(workers, active, destructor, locked, pending, posted, dispatched, completed, promises)
    }

    ghost predicate Valid()
      reads this
    {
      Inv(Now()) && next == |posted|
    }

    constructor (n: nat)
      ensures Now() == Init(n) && Valid()
    {
      workers := seq(n, _ => Looping);
      active, destructor, locked, pending, promises, next := true, Alive, false, [], map[], 0;
      posted, dispatched, completed := [], [], {};
      new;
      InitInv(n);
    }

    /** Both forms of post: the job joins the queue under the mutex and one sleeping worker is woken. The result
        names the promise whose future the caller gets when the job is promised. */
    method Post(job: Job) returns (promise: nat, ghost woken: nat)
      requires Valid() && destructor.Alive? && !locked
      modifies `pending, `next, `posted, `workers
      ensures Enabled(old(Now()), Action.Post(job, woken)) && Now() == Perform(old(Now()), Action.Post(job, woken)) && Valid()
      ensures promise !in promises && promise == |old(posted)|
    {
      hide Inv;
      ghost var before := Now();
      promise, woken := next, |workers|;
      if w: nat :| w < |workers| && workers[w] == Sleeping {
        workers := workers[w := Notified];
        woken := w;
      }
      FreshPromise(before);
      StepInv(before, Action.Post(job, woken));
      pending := pending + [Ticket(next, job)];
      posted := posted + [Ticket(next, job)];
      next := next + 1;
    }

    /** One step of `run` for worker i. */
    method Run(i: nat)
      requires Valid() && Enabled(Now(), Work(i))
      modifies `workers, `locked, `pending, `promises, `dispatched, `completed
      ensures Now() == Perform(old(Now()), Work(i)) && Valid()
      ensures old(workers[i]).Running? && old(workers[i]).ticket.job.promised ==>
                var t := old(workers[i]).ticket; t.id in promises && promises[t.id] == t.job.fn()
    {
      hide Inv;
      StepInv(Now(), Work(i));
      match workers[i]
      case Looping =>
        workers := workers[i := if active then Acquiring else Exited];
      case Acquiring =>
        locked, workers := true, workers[i := Holding];
      case Notified =>
        locked, workers := true, workers[i := Holding];
      case Holding =>
        workers := workers[i := if |pending| != 0 || !active then Ready else GoingToSleep];
      case GoingToSleep =>
        locked, workers := false, workers[i := Sleeping];
      case Ready =>
        locked := false;
        if !active {
          workers := workers[i := Exited];
        } else {
          var job := pending[0];
          dispatched := dispatched + [job];
          pending := pending[1..];
          workers := workers[i := Running(job)];
        }
      case Running(t) =>
        var result := t.job.fn();
        if t.job.promised {
          promises := promises[t.id := result];
        }
        completed := completed + {t.id};
        workers := workers[i := Looping];
    }

    /** is_active = false */
    method Deactivate()
      requires Valid() && destructor.Alive?
      modifies `active, `destructor
      ensures Now() == Perform(old(Now()), Action.Deactivate) && Valid()
    {
      hide Inv;
      StepInv(Now(), Action.Deactivate);
      active, destructor := false, Deactivated;
    }

    /** cv.notify_all() */
    method NotifyAll()
      requires Valid() && destructor.Deactivated?
      modifies `workers, `destructor
      ensures Now() == Perform(old(Now()), Action.NotifyAll) && Valid()
    {
      hide Inv;
      StepInv(Now(), Action.NotifyAll);
      for k := 0 to |workers|
        modifies `workers
        invariant |workers| == |old(workers)|
        invariant forall j :: 0 <= j < |workers| ==> workers[j] == if j < k then WakeAll(old(workers))[j] else old(workers)[j]
      {
        if workers[k] == Sleeping {
          workers := workers[k := Notified];
        }
      }
      assert workers == WakeAll(old(workers));
      destructor := Joining(0);
    }
  }

  lemma FreshPromise(s: State)
    requires Inv(s)
    ensures |s.posted| !in s.promises
  {
  }
}
