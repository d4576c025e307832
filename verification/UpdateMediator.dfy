/** The concurrent dependency update of updater_ex/main.cpp.

`UpdateAll` starts one task per registered device. A task is a stack of `UpdateDevice` frames; every frame past
its `scoped_lock` holds the mutex of its device until it returns. A step is one atomic action of one task or of the
caller of `UpdateAll`; a run interleaves steps in any way. */
module UpdateMediator {
  import opened Runs

  type Dev = nat

  /** What is fixed while `UpdateAll` runs: the registered devices, the dependency lists, and the devices that were
      marked updated before it was called. */
  datatype Config = Config(devices: seq<Dev>, dependencies: map<Dev, seq<Dev>>, marked: set<Dev>) {
    predicate Registered(d: Dev) {
      d in devices
    }

    /** Registered and not yet updated: the skip test lets such a device through. */
    predicate Due(d: Dev) {
      d in devices && d !in marked
    }

    function Deps(d: Dev): seq<Dev> {
      if d in dependencies then dependencies[d] else []
    }
  }

  /** Where a frame of `UpdateDevice` is: before the lock, before the skip test, before dependency `next`, after
      the strategy's Update, and after MarkUpdated. */
  datatype Phase = Waiting | Locked | Calling(next: nat) | Marking | Returning

  datatype Frame = Frame(dev: Dev, phase: Phase)

  /** `log` records the strategy's Update calls in order. */
  datatype State = State(tasks: seq<seq<Frame>>, owner: map<Dev, nat>, updated: set<Dev>, log: seq<Dev>, joined: nat)

  function Top(stack: seq<Frame>): Frame
    requires stack != []
  {
    stack[|stack| - 1]
  }

  function Below(stack: seq<Frame>): seq<Frame>
    requires stack != []
  {
    stack[..|stack| - 1]
  }

  function SetPhase(stack: seq<Frame>, phase: Phase): seq<Frame>
    requires stack != []
  {
    Below(stack) + [Top(stack).(phase := phase)]
  }

  function Init(c: Config): State {
    State([], map[], c.marked, [], 0)
  }

  // ------------------------------------------------------------------------------------------------- steps

  datatype Action = Launch | Join | Advance(task: nat)

  predicate Enabled(c: Config, s: State, a: Action) {
    match a
    case Launch => |s.tasks| < |c.devices|
    case Join => |s.tasks| == |c.devices| && s.joined < |s.tasks| && s.tasks[s.joined] == []
    case Advance(t) => t < |s.tasks| && s.tasks[t] != [] && (Top(s.tasks[t]).phase.Waiting? ==> Top(s.tasks[t]).dev !in s.owner)
  }

  /** One step of task t. */
  function Advanced(c: Config, s: State, t: nat): State
    requires Enabled(c, s, Advance(t))
  {
    var stack, f := s.tasks[t], Top(s.tasks[t]);
    match f.phase
    case Waiting =>
      s.(tasks := s.tasks[t := SetPhase(stack, Locked)], owner := s.owner[f.dev := t])
    case Locked =>
      if f.dev in s.updated || !c.Registered(f.dev) then Returned(s, t)
      else s.(tasks := s.tasks[t := SetPhase(stack, Calling(0))])
    case Calling(i) =>
      if i < |c.Deps(f.dev)| then
        s.(tasks := s.tasks[t := SetPhase(stack, Calling(i + 1)) + [Frame(c.Deps(f.dev)[i], Waiting)]])
      else
        s.(tasks := s.tasks[t := SetPhase(stack, Marking)], log := s.log + [f.dev])
    case Marking =>
      s.(tasks := s.tasks[t := SetPhase(stack, Returning)], updated := s.updated + {f.dev})
    case Returning => Returned(s, t)
  }

  /** The innermost frame returns and its lock is released. */
  function Returned(s: State, t: nat): State
    requires t < |s.tasks| && s.tasks[t] != []
  {
    s.(tasks := s.tasks[t := Below(s.tasks[t])], owner := s.owner - {Top(s.tasks[t]).dev})
  }

  function Perform(c: Config, s: State, a: Action): State
    requires Enabled(c, s, a)
  {
    match a
    case Launch => s.(tasks := s.tasks + [[Frame(c.devices[|s.tasks|], Waiting)]])
    case Join => s.(joined := s.joined + 1)
    case Advance(t) => Advanced(c, s, t)
  }

  /** `UpdateAll` has returned. */
  predicate Finished(c: Config, s: State) {
    |s.tasks| == |c.devices| && s.joined == |s.tasks|
  }

  // ---------------------------------------------------------------------------------------------- invariant

  /** The first m registered dependencies of d have been updated and marked. */
  predicate DepsDone(c: Config, updated: set<Dev>, d: Dev, m: int) {
    forall j :: 0 <= j < m && j < |c.Deps(d)| && c.Registered(c.Deps(d)[j]) ==> c.Deps(d)[j] in updated
  }

  datatype Child = None | Some(dev: Dev)

  /** What holds of a frame f of task t whose callee, if it is not the innermost frame, is for device child. */
  predicate FrameOk(c: Config, owner: map<Dev, nat>, updated: set<Dev>, t: nat, f: Frame, child: Child) {
    && (!f.phase.Waiting? ==> f.dev in owner && owner[f.dev] == t)
    && (child.Some? ==> f.phase.Calling? && 1 <= f.phase.next <= |c.Deps(f.dev)| && child.dev == c.Deps(f.dev)[f.phase.next - 1])
    && (f.phase.Calling? || f.phase.Marking? || f.phase.Returning? ==> c.Registered(f.dev))
    && (f.phase.Calling? || f.phase.Marking? ==> f.dev !in updated)
    && (f.phase.Returning? ==> f.dev in updated)
    && (f.phase.Calling? ==> DepsDone(c, updated, f.dev, if child.Some? then f.phase.next - 1 else f.phase.next))
    && (f.phase.Marking? ==> DepsDone(c, updated, f.dev, |c.Deps(f.dev)|))
  }

  predicate Holding(f: Frame, d: Dev) {
    f.dev == d && !f.phase.Waiting?
  }

  function ChildOf(stack: seq<Frame>, k: nat): Child
    requires k < |stack|
  {
    if k + 1 < |stack| then Some(stack[k + 1].dev) else None
  }

  /** Frames past their lock are for different devices. */
  predicate Distinct(stack: seq<Frame>) {
    forall k, l :: 0 <= k < l < |stack| && !stack[k].phase.Waiting? ==> !Holding(stack[l], stack[k].dev)
  }

  predicate StackOk(c: Config, owner: map<Dev, nat>, updated: set<Dev>, t: nat, stack: seq<Frame>) {
    && Distinct(stack)
    && forall k :: 0 <= k < |stack| ==> FrameOk(c, owner, updated, t, stack[k], ChildOf(stack, k))
  }

  predicate StacksOk(c: Config, s: State) {
    forall t :: 0 <= t < |s.tasks| ==> StackOk(c, s.owner, s.updated, t, s.tasks[t])
  }

  predicate Holds(stack: seq<Frame>, d: Dev) {
    exists k :: 0 <= k < |stack| && Holding(stack[k], d)
  }

  /** Every locked mutex is held by a frame of its owner. */
  predicate OwnersHold(s: State) {
    forall d :: d in s.owner ==> s.owner[d] < |s.tasks| && Holds(s.tasks[s.owner[d]], d)
  }

  predicate RootsOk(c: Config, s: State) {
    && s.joined <= |s.tasks| <= |c.devices|
    && (forall t :: 0 <= t < |s.tasks| && s.tasks[t] != [] ==> s.tasks[t][0].dev == c.devices[t])
    && (forall t :: 0 <= t < |s.tasks| && s.tasks[t] == [] ==> c.devices[t] in s.updated)
    && (forall t :: 0 <= t < s.joined ==> s.tasks[t] == [])
  }

  /** d is between the strategy's Update and MarkUpdated. */
  predicate BeingMarked(s: State, d: Dev) {
    d in s.owner && s.owner[d] < |s.tasks| && s.tasks[s.owner[d]] != [] && Top(s.tasks[s.owner[d]]) == Frame(d, Marking)
  }

  /** The Update calls so far: at most one per device, due devices only, due dependencies first. */
  predicate LogOk(c: Config, log: seq<Dev>) {
    && (forall p, q :: 0 <= p < q < |log| ==> log[p] != log[q])
    && (forall p :: 0 <= p < |log| ==> c.Due(log[p]))
    && (forall p, e :: 0 <= p < |log| && e in c.Deps(log[p]) && c.Due(e) ==> e in log[..p])
  }

  /** Marks are never taken back, and the new ones are those of the log. */
  predicate LogMatches(c: Config, s: State) {
    && c.marked <= s.updated
    && (forall d :: d in s.updated ==> d in s.log || d in c.marked)
    && (forall d :: d in s.log && d !in s.updated ==> BeingMarked(s, d))
    && (forall t :: 0 <= t < |s.tasks| && s.tasks[t] != [] && Top(s.tasks[t]).phase.Marking? ==> Top(s.tasks[t]).dev in s.log)
  }

  predicate Inv(c: Config, s: State) {
    StacksOk(c, s) && OwnersHold(s) && RootsOk(c, s) && LogOk(c, s.log) && LogMatches(c, s)
  }

  lemma InitInv(c: Config)
    ensures Inv(c, Init(c))
  {
  }

  // ------------------------------------------------------------------------------ preservation, step by step

  /** owner and updated change at device d only, and d is never unmarked. */
  ghost predicate OnlyAt(owner: map<Dev, nat>, updated: set<Dev>, owner': map<Dev, nat>, updated': set<Dev>, d: Dev) {
    && (forall e :: e != d ==> (e in owner <==> e in owner') && (e in owner ==> owner[e] == owner'[e]))
    && updated <= updated' <= updated + {d}
  }

  /** A frame that does not hold d is not disturbed. */
  lemma KeepFrame(c: Config, owner: map<Dev, nat>, updated: set<Dev>, owner': map<Dev, nat>, updated': set<Dev>, t: nat, f: Frame, child: Child, d: Dev)
    requires FrameOk(c, owner, updated, t, f, child) && !Holding(f, d) && OnlyAt(owner, updated, owner', updated', d)
    ensures FrameOk(c, owner', updated', t, f, child)
  {
  }

  /** Nor is a stack. */
  lemma KeepStack(c: Config, owner: map<Dev, nat>, updated: set<Dev>, owner': map<Dev, nat>, updated': set<Dev>, t: nat, stack: seq<Frame>, d: Dev)
    requires StackOk(c, owner, updated, t, stack) && !Holds(stack, d) && OnlyAt(owner, updated, owner', updated', d)
    ensures StackOk(c, owner', updated', t, stack)
  {
    forall k | 0 <= k < |stack| ensures FrameOk(c, owner', updated', t, stack[k], ChildOf(stack, k)) {
      KeepFrame(c, owner, updated, owner', updated', t, stack[k], ChildOf(stack, k), d);
    }
  }

  /** The frames below the innermost one, when only the innermost device is affected. */
  lemma KeepBelow(c: Config, owner: map<Dev, nat>, updated: set<Dev>, owner': map<Dev, nat>, updated': set<Dev>, t: nat, stack: seq<Frame>, k: nat)
    requires StackOk(c, owner, updated, t, stack) && k < |stack| - 1 && OnlyAt(owner, updated, owner', updated', Top(stack).dev)
    requires Top(stack).phase.Waiting? ==> Top(stack).dev !in owner
    ensures FrameOk(c, owner', updated', t, stack[k], Some(stack[k + 1].dev)) && !Holding(stack[k], Top(stack).dev)
  {
    assert FrameOk(c, owner, updated, t, stack[k], ChildOf(stack, k));
    KeepFrame(c, owner, updated, owner', updated', t, stack[k], ChildOf(stack, k), Top(stack).dev);
  }

  /** A new innermost frame on top of an undisturbed rest. */
  lemma NewTop(c: Config, owner: map<Dev, nat>, updated: set<Dev>, owner': map<Dev, nat>, updated': set<Dev>, t: nat, stack: seq<Frame>, phase: Phase)
    requires stack != [] && StackOk(c, owner, updated, t, stack) && OnlyAt(owner, updated, owner', updated', Top(stack).dev)
    requires Top(stack).phase.Waiting? ==> Top(stack).dev !in owner
    requires FrameOk(c, owner', updated', t, Top(stack).(phase := phase), None)
    ensures StackOk(c, owner', updated', t, SetPhase(stack, phase))
  {
    var stack' := SetPhase(stack, phase);
    forall k | 0 <= k < |stack'| ensures FrameOk(c, owner', updated', t, stack'[k], ChildOf(stack', k)) {
      if k < |stack| - 1 {
        KeepBelow(c, owner, updated, owner', updated', t, stack, k);
      }
    }
    forall k, l | 0 <= k < l < |stack'| && !stack'[k].phase.Waiting? ensures !Holding(stack'[l], stack'[k].dev) {
      KeepBelow(c, owner, updated, owner', updated', t, stack, k);
    }
  }

  /** A call: the innermost frame moves on to its next dependency and a frame for it is pushed. */
  lemma PushCall(c: Config, owner: map<Dev, nat>, updated: set<Dev>, t: nat, stack: seq<Frame>)
    requires stack != [] && StackOk(c, owner, updated, t, stack) && Top(stack).phase.Calling?
    requires Top(stack).phase.next < |c.Deps(Top(stack).dev)|
    ensures var i := Top(stack).phase.next;
            StackOk(c, owner, updated, t, SetPhase(stack, Calling(i + 1)) + [Frame(c.Deps(Top(stack).dev)[i], Waiting)])
  {
    var i := Top(stack).phase.next;
    var stack' := SetPhase(stack, Calling(i + 1)) + [Frame(c.Deps(Top(stack).dev)[i], Waiting)];
    assert FrameOk(c, owner, updated, t, stack[|stack| - 1], ChildOf(stack, |stack| - 1));
    forall k | 0 <= k < |stack'| ensures FrameOk(c, owner, updated, t, stack'[k], ChildOf(stack', k)) {
      if k < |stack| - 1 {
        KeepBelow(c, owner, updated, owner, updated, t, stack, k);
      }
    }
    forall k, l | 0 <= k < l < |stack'| && !stack'[k].phase.Waiting? ensures !Holding(stack'[l], stack'[k].dev) {
      if k < |stack| - 1 {
        KeepBelow(c, owner, updated, owner, updated, t, stack, k);
      }
    }
  }

  /** A return: the callee's device is updated or not registered, so its caller's dependency is done. */
  lemma PopCall(c: Config, owner: map<Dev, nat>, updated: set<Dev>, t: nat, stack: seq<Frame>)
    requires stack != [] && StackOk(c, owner, updated, t, stack) && !Top(stack).phase.Waiting?
    requires Top(stack).dev in updated || !c.Registered(Top(stack).dev)
    ensures StackOk(c, owner - {Top(stack).dev}, updated, t, Below(stack))
  {
    var owner', stack' := owner - {Top(stack).dev}, Below(stack);
    forall k | 0 <= k < |stack'| ensures FrameOk(c, owner', updated, t, stack'[k], ChildOf(stack', k)) {
      KeepBelow(c, owner, updated, owner', updated, t, stack, k);
    }
  }

  /** The other tasks are not disturbed by a step of task t. */
  lemma OtherStacks(c: Config, s: State, t: nat, u: nat)
    requires Enabled(c, s, Advance(t)) && StacksOk(c, s) && u < |s.tasks| && u != t
    ensures var s' := Advanced(c, s, t); StackOk(c, s'.owner, s'.updated, u, s'.tasks[u])
  {
    var s', d := Advanced(c, s, t), Top(s.tasks[t]).dev;
    assert StackOk(c, s.owner, s.updated, t, s.tasks[t]) && StackOk(c, s.owner, s.updated, u, s.tasks[u]);
    TopFrame(c, s, t);
    forall k | 0 <= k < |s.tasks[u]| ensures !Holding(s.tasks[u][k], d) {
      assert FrameOk(c, s.owner, s.updated, u, s.tasks[u][k], ChildOf(s.tasks[u], k));
    }
    KeepStack(c, s.owner, s.updated, s'.owner, s'.updated, u, s.tasks[u], d);
  }

  lemma TopFrame(c: Config, s: State, t: nat)
    requires StacksOk(c, s) && t < |s.tasks| && s.tasks[t] != []
    ensures FrameOk(c, s.owner, s.updated, t, Top(s.tasks[t]), None)
  {
    var stack := s.tasks[t];
    assert FrameOk(c, s.owner, s.updated, t, stack[|stack| - 1], ChildOf(stack, |stack| - 1));
  }

  lemma OwnStack(c: Config, s: State, t: nat)
    requires Enabled(c, s, Advance(t)) && StacksOk(c, s)
    ensures var s' := Advanced(c, s, t); StackOk(c, s'.owner, s'.updated, t, s'.tasks[t])
  {
    hide StackOk, ChildOf;
    var s', stack := Advanced(c, s, t), s.tasks[t];
    var f := Top(stack);
    assert StackOk(c, s.owner, s.updated, t, stack);
    TopFrame(c, s, t);
    match f.phase
    case Waiting =>
      NewTop(c, s.owner, s.updated, s'.owner, s'.updated, t, stack, Locked);
    case Locked =>
      if f.dev in s.updated || !c.Registered(f.dev) {
        PopCall(c, s.owner, s.updated, t, stack);
      } else {
        NewTop(c, s.owner, s.updated, s'.owner, s'.updated, t, stack, Calling(0));
      }
    case Calling(i) =>
      if i < |c.Deps(f.dev)| {
        PushCall(c, s.owner, s.updated, t, stack);
      } else {
        NewTop(c, s.owner, s.updated, s'.owner, s'.updated, t, stack, Marking);
      }
    case Marking =>
      NewTop(c, s.owner, s.updated, s'.owner, s'.updated, t, stack, Returning);
    case Returning =>
      PopCall(c, s.owner, s.updated, t, stack);
  }

  lemma OwnersStillHold(c: Config, s: State, t: nat)
    requires Enabled(c, s, Advance(t)) && StacksOk(c, s) && OwnersHold(s)
    ensures OwnersHold(Advanced(c, s, t))
  {
    hide StacksOk, DepsDone;
    var s', stack, f := Advanced(c, s, t), s.tasks[t], Top(s.tasks[t]);
    TopFrame(c, s, t);
    forall d | d in s'.owner ensures s'.owner[d] < |s'.tasks| && Holds(s'.tasks[s'.owner[d]], d) {
      if d == f.dev {
        assert Holding(s'.tasks[t][|stack| - 1], d);
      } else {
        var k :| 0 <= k < |s.tasks[s.owner[d]]| && Holding(s.tasks[s.owner[d]][k], d);
        assert Holding(s'.tasks[s.owner[d]][k], d);
      }
    }
  }

  lemma RootsStay(c: Config, s: State, t: nat)
    requires Enabled(c, s, Advance(t)) && StacksOk(c, s) && RootsOk(c, s)
    ensures RootsOk(c, Advanced(c, s, t))
  {
    hide StacksOk, DepsDone;
    TopFrame(c, s, t);
  }

  /** A device about to be updated has not been, and all its registered dependencies have. */
  lemma ReadyToUpdate(c: Config, s: State, t: nat)
    requires Inv(c, s) && t < |s.tasks| && s.tasks[t] != []
    requires Top(s.tasks[t]).phase.Calling? && Top(s.tasks[t]).phase.next >= |c.Deps(Top(s.tasks[t]).dev)|
    ensures var d := Top(s.tasks[t]).dev;
            && c.Due(d) && d !in s.log
            && forall e :: e in c.Deps(d) && c.Registered(e) ==> e in s.updated
  {
    var d := Top(s.tasks[t]).dev;
    TopFrame(c, s, t);
    if d in s.log {
      assert false;
    }
  }

  lemma LogAppend(c: Config, log: seq<Dev>, d: Dev)
    requires LogOk(c, log) && c.Due(d) && d !in log
    requires forall e :: e in c.Deps(d) && c.Due(e) ==> e in log
    ensures LogOk(c, log + [d])
  {
    var log' := log + [d];
    forall p, e | 0 <= p < |log'| && e in c.Deps(log'[p]) && c.Due(e) ensures e in log'[..p] {
      if p < |log| {
        assert log'[..p] == log[..p];
      } else {
        assert log'[..p] == log;
      }
    }
  }

  lemma LogGrows(c: Config, s: State, t: nat)
    requires Enabled(c, s, Advance(t)) && Inv(c, s)
    ensures LogOk(c, Advanced(c, s, t).log)
  {
    hide LogOk, StacksOk, OwnersHold, RootsOk;
    var f := Top(s.tasks[t]);
    if f.phase.Calling? && f.phase.next >= |c.Deps(f.dev)| {
      ReadyToUpdate(c, s, t);
      LogAppend(c, s.log, f.dev);
    }
  }

  lemma CallersCall(c: Config, s: State, t: nat, k: nat)
    requires StacksOk(c, s) && t < |s.tasks| && k < |s.tasks[t]| - 1
    ensures s.tasks[t][k].phase.Calling?
  {
    var stack := s.tasks[t];
    assert FrameOk(c, s.owner, s.updated, t, stack[k], ChildOf(stack, k));
  }

  lemma LogStillMatches(c: Config, s: State, t: nat)
    requires Enabled(c, s, Advance(t)) && Inv(c, s)
    ensures LogMatches(c, Advanced(c, s, t))
  {
    hide StacksOk, OwnersHold, RootsOk, LogOk, DepsDone;
    var s', f := Advanced(c, s, t), Top(s.tasks[t]);
    TopFrame(c, s, t);
    if |s.tasks[t]| > 1 {
      CallersCall(c, s, t, |s.tasks[t]| - 2);
    }
    forall d | d in s'.log && d !in s'.updated ensures BeingMarked(s', d) {
      if d != f.dev {
        assert BeingMarked(s, d);
      }
    }
  }

  lemma LaunchInv(c: Config, s: State)
    requires Enabled(c, s, Launch) && Inv(c, s)
    ensures Inv(c, Perform(c, s, Launch))
  {
    hide LogOk, FrameOk;
    var s' := Perform(c, s, Launch);
    assert StacksOk(c, s') by {
      forall t | 0 <= t < |s'.tasks| ensures StackOk(c, s'.owner, s'.updated, t, s'.tasks[t]) {
        if t < |s.tasks| {
          assert StackOk(c, s.owner, s.updated, t, s.tasks[t]);
        } else {
          NewTask(c, s.owner, s.updated, t);
        }
      }
    }
    forall d | BeingMarked(s, d) ensures BeingMarked(s', d) {
    }
  }

  lemma NewTask(c: Config, owner: map<Dev, nat>, updated: set<Dev>, t: nat)
    requires t < |c.devices|
    ensures StackOk(c, owner, updated, t, [Frame(c.devices[t], Waiting)])
  {
  }

  lemma JoinInv(c: Config, s: State)
    requires Enabled(c, s, Join) && Inv(c, s)
    ensures Inv(c, Perform(c, s, Join))
  {
    hide LogOk, StackOk;
    var s' := Perform(c, s, Join);
    forall d ensures BeingMarked(s, d) <==> BeingMarked(s', d) {
    }
  }

  /** Every step keeps the invariant. */
  lemma StepInv(c: Config, s: State, a: Action)
    requires Enabled(c, s, a) && Inv(c, s)
    ensures Inv(c, Perform(c, s, a))
  {
    hide LogOk, StackOk, OwnersHold, RootsOk, LogMatches;
    match a
    case Launch =>
      LaunchInv(c, s);
    case Join =>
      JoinInv(c, s);
    case Advance(t) =>
      var s' := Advanced(c, s, t);
      forall u | 0 <= u < |s'.tasks| ensures StackOk(c, s'.owner, s'.updated, u, s'.tasks[u]) {
        if u == t {
          OwnStack(c, s, t);
        } else {
          OtherStacks(c, s, t, u);
        }
      }
      OwnersStillHold(c, s, t);
      RootsStay(c, s, t);
      LogGrows(c, s, t);
      LogStillMatches(c, s, t);
  }

  // -------------------------------------------------------------------------------------------------- runs

  /** The state after performing the actions in order, when each of them is enabled in its turn. */
  function After(c: Config, actions: seq<Action>): Run<State>
    decreases |actions|
  {
    if actions == [] then Reached(Init(c))
    else
      var before, a := After(c, actions[..|actions| - 1]), actions[|actions| - 1];
      if before.Reached? && Enabled(c, before.state, a) then Reached(Perform(c, before.state, a)) else Blocked
  }

  lemma {:induction false} RunInv(c: Config, actions: seq<Action>)
    requires After(c, actions).Reached?
    ensures Inv(c, After(c, actions).state)
    decreases |actions|
  {
    if actions == [] {
      InitInv(c);
    } else {
      RunInv(c, actions[..|actions| - 1]);
      StepInv(c, After(c, actions[..|actions| - 1]).state, actions[|actions| - 1]);
    }
  }

  lemma InOrder(c: Config, s: State)
    requires Inv(c, s)
    ensures s.joined <= |s.tasks| <= |c.devices| && LogOk(c, s.log)
  {
  }

  /** In every interleaving, whatever was marked before: when `UpdateAll` has returned, the strategy's Update has run
      exactly once for each registered device that was not marked, for no other device, and for each device after all
      its registered dependencies that were not marked; and all registered devices are marked. */
  lemma ExactlyOnceInOrder(c: Config, actions: seq<Action>)
    requires After(c, actions).Reached? && Finished(c, After(c, actions).state)
    ensures var s := After(c, actions).state;
            && (forall d :: d in s.log <==> c.Due(d))
            && (forall d :: d in s.updated <==> c.Registered(d) || d in c.marked)
            && s.owner == map[]
            && (forall p, q :: 0 <= p < q < |s.log| ==> s.log[p] != s.log[q])
            && (forall p, e :: 0 <= p < |s.log| && e in c.Deps(s.log[p]) && c.Due(e) ==> e in s.log[..p])
  {
    var s := After(c, actions).state;
    RunInv(c, actions);
    forall d | c.Registered(d) ensures d in s.updated {
      var t :| 0 <= t < |c.devices| && c.devices[t] == d;
      assert s.tasks[t] == [];
    }
    NobodyHolds(c, s);
  }

  lemma NobodyHolds(c: Config, s: State)
    requires Inv(c, s) && Finished(c, s)
    ensures s.owner == map[] && forall d :: !BeingMarked(s, d)
  {
    hide LogOk, StackOk, LogMatches;
    forall d ensures d !in s.owner {
      if d in s.owner {
        assert false;
      }
    }
  }

  /** Whenever an Update is about to start, in any run, every registered dependency has been updated and marked,
      and the device has never been updated before. */
  lemma DependenciesFirst(c: Config, actions: seq<Action>, t: nat)
    requires After(c, actions).Reached?
    requires var s := After(c, actions).state;
             t < |s.tasks| && s.tasks[t] != [] && Top(s.tasks[t]).phase.Calling?
             && Top(s.tasks[t]).phase.next == |c.Deps(Top(s.tasks[t]).dev)|
    ensures var s := After(c, actions).state;
            var d := Top(s.tasks[t]).dev;
            d !in s.log && forall e :: e in c.Deps(d) && c.Registered(e) ==> e in s.updated
  {
    RunInv(c, actions);
    ReadyToUpdate(c, After(c, actions).state, t);
  }

  // --------------------------------------------------------------------------------------------- progress

  /** The dependencies among due devices descend in rank: there is no cycle among them. */
  ghost predicate Acyclic(c: Config, rank: Dev -> nat) {
    forall d, e :: c.Due(d) && e in c.Deps(d) && c.Due(e) ==> rank(e) < rank(d)
  }

  /** Rank for due devices, 0 for the others, which are left again without calling their dependencies. */
  ghost function Level(c: Config, rank: Dev -> nat, d: Dev): nat {
    if c.Due(d) then rank(d) + 1 else 0
  }

  /** Down a stack the levels decrease. */
  lemma {:induction false} Descends(c: Config, rank: Dev -> nat, owner: map<Dev, nat>, updated: set<Dev>, t: nat, stack: seq<Frame>, k: nat)
    requires Acyclic(c, rank) && StackOk(c, owner, updated, t, stack) && k < |stack| - 1 && c.marked <= updated
    ensures c.Due(stack[k].dev) && Level(c, rank, Top(stack).dev) < Level(c, rank, stack[k].dev)
    decreases |stack| - k
  {
    assert FrameOk(c, owner, updated, t, stack[k], ChildOf(stack, k));
    assert stack[k + 1].dev in c.Deps(stack[k].dev);
    if k + 1 < |stack| - 1 {
      Descends(c, rank, owner, updated, t, stack, k + 1);
    }
  }

  /** Following the owners of the locks waited for, the level descends, so some task can move. */
  lemma {:induction false} SomeTaskMoves(c: Config, rank: Dev -> nat, s: State, t: nat) returns (u: nat)
    requires Inv(c, s) && Acyclic(c, rank) && t < |s.tasks| && s.tasks[t] != []
    ensures Enabled(c, s, Advance(u))
    decreases Level(c, rank, Top(s.tasks[t]).dev)
  {
    u := t;
    if !Enabled(c, s, Advance(t)) {
      var d := Top(s.tasks[t]).dev;
      var v := s.owner[d];
      assert Holds(s.tasks[v], d);
      var k :| 0 <= k < |s.tasks[v]| && Holding(s.tasks[v][k], d);
      u := v;
      if !Enabled(c, s, Advance(v)) {
        assert StackOk(c, s.owner, s.updated, v, s.tasks[v]);
        Descends(c, rank, s.owner, s.updated, v, s.tasks[v], k);
        u := SomeTaskMoves(c, rank, s, v);
      }
    }
  }

  /** No deadlock: until `UpdateAll` returns, some step is possible. */
  lemma NoDeadlock(c: Config, rank: Dev -> nat, s: State) returns (a: Action)
    requires Inv(c, s) && Acyclic(c, rank) && !Finished(c, s)
    ensures Enabled(c, s, a)
  {
    if |s.tasks| < |c.devices| {
      a := Launch;
    } else if s.tasks[s.joined] == [] {
      a := Join;
    } else {
      var t := SomeTaskMoves(c, rank, s, s.joined);
      a := Advance(t);
    }
  }

  // ------------------------------------------------------------------------------------------ termination

  /** The steps a call of UpdateDevice(d) can still take. */
  ghost function Cost(c: Config, rank: Dev -> nat, d: Dev): nat
    requires Acyclic(c, rank)
    decreases Level(c, rank, d), 1, 0
  {
    if c.Due(d) then 5 + CallCost(c, rank, d, 0) else 2
  }

  ghost function CallCost(c: Config, rank: Dev -> nat, d: Dev, i: nat): nat
    requires Acyclic(c, rank)
    decreases Level(c, rank, d), 0, |c.Deps(d)| - i
  {
    if !c.Due(d) || i >= |c.Deps(d)| then 0
    else 1 + Cost(c, rank, c.Deps(d)[i]) + CallCost(c, rank, d, i + 1)
  }

  ghost function FrameCost(c: Config, rank: Dev -> nat, f: Frame): nat
    requires Acyclic(c, rank)
  {
    match f.phase
    case Waiting => Cost(c, rank, f.dev)
    case Locked => Cost(c, rank, f.dev) - 1
    case Calling(i) => 3 + CallCost(c, rank, f.dev, i)
    case Marking => 2
    case Returning => 1
  }

  ghost function StackCost(c: Config, rank: Dev -> nat, stack: seq<Frame>): nat
    requires Acyclic(c, rank)
    decreases |stack|
  {
    if stack == [] then 0 else StackCost(c, rank, Below(stack)) + FrameCost(c, rank, Top(stack))
  }

  ghost function TasksCost(c: Config, rank: Dev -> nat, tasks: seq<seq<Frame>>): nat
    requires Acyclic(c, rank)
    decreases |tasks|
  {
    if tasks == [] then 0 else TasksCost(c, rank, tasks[..|tasks| - 1]) + StackCost(c, rank, tasks[|tasks| - 1])
  }

  ghost function LaunchCost(c: Config, rank: Dev -> nat, from: nat): nat
    requires Acyclic(c, rank)
    decreases |c.devices| - from
  {
    if from >= |c.devices| then 0 else 1 + Cost(c, rank, c.devices[from]) + LaunchCost(c, rank, from + 1)
  }

  /** A bound on the steps left. */
  ghost function Remaining(c: Config, rank: Dev -> nat, s: State): int
    requires Acyclic(c, rank)
  {
    TasksCost(c, rank, s.tasks) + LaunchCost(c, rank, |s.tasks|) + (|c.devices| - s.joined)
  }

  lemma {:induction false} TasksCostUpdate(c: Config, rank: Dev -> nat, tasks: seq<seq<Frame>>, t: nat, stack: seq<Frame>)
    requires Acyclic(c, rank) && t < |tasks|
    ensures TasksCost(c, rank, tasks[t := stack]) == TasksCost(c, rank, tasks) - StackCost(c, rank, tasks[t]) + StackCost(c, rank, stack)
    decreases |tasks|
  {
    var n := |tasks| - 1;
    if t < n {
      TasksCostUpdate(c, rank, tasks[..n], t, stack);
      assert tasks[t := stack][..n] == tasks[..n][t := stack];
    } else {
      assert tasks[t := stack][..n] == tasks[..n];
    }
  }

  lemma SetPhaseCost(c: Config, rank: Dev -> nat, stack: seq<Frame>, phase: Phase)
    requires Acyclic(c, rank) && stack != []
    ensures StackCost(c, rank, SetPhase(stack, phase))
         == StackCost(c, rank, stack) - FrameCost(c, rank, Top(stack)) + FrameCost(c, rank, Top(stack).(phase := phase))
  {
    assert Below(SetPhase(stack, phase)) == Below(stack);
  }

  lemma PushCost(c: Config, rank: Dev -> nat, stack: seq<Frame>, f: Frame)
    requires Acyclic(c, rank)
    ensures StackCost(c, rank, stack + [f]) == StackCost(c, rank, stack) + FrameCost(c, rank, f)
  {
    assert Below(stack + [f]) == stack;
  }

  /** What each phase change costs. */
  lemma PhaseCosts(c: Config, rank: Dev -> nat, d: Dev, i: nat)
    requires Acyclic(c, rank)
    ensures FrameCost(c, rank, Frame(d, Locked)) == FrameCost(c, rank, Frame(d, Waiting)) - 1 >= 1
    ensures c.Due(d) ==> FrameCost(c, rank, Frame(d, Calling(0))) == FrameCost(c, rank, Frame(d, Locked)) - 1
    ensures c.Due(d) && i < |c.Deps(d)| ==> var rest := FrameCost(c, rank, Frame(d, Calling(i + 1)));
              rest + FrameCost(c, rank, Frame(c.Deps(d)[i], Waiting)) == FrameCost(c, rank, Frame(d, Calling(i))) - 1
    ensures FrameCost(c, rank, Frame(d, Calling(i))) >= 3
  {
  }

  lemma AdvanceCost(c: Config, rank: Dev -> nat, s: State, t: nat)
    requires Acyclic(c, rank) && Inv(c, s) && Enabled(c, s, Advance(t))
    ensures StackCost(c, rank, Advanced(c, s, t).tasks[t]) < StackCost(c, rank, s.tasks[t])
  {
    hide Acyclic, OwnersHold, RootsOk, LogOk, StacksOk;
    var stack, f := s.tasks[t], Top(s.tasks[t]);
    TopFrame(c, s, t);
    StackAdvanceCost(c, rank, stack);
  }

  lemma StackAdvanceCost(c: Config, rank: Dev -> nat, stack: seq<Frame>)
    requires Acyclic(c, rank) && stack != [] && (Top(stack).phase.Calling? ==> c.Due(Top(stack).dev))
    ensures var f := Top(stack);
            match f.phase
            case Waiting => StackCost(c, rank, SetPhase(stack, Locked)) < StackCost(c, rank, stack)
            case Locked => StackCost(c, rank, Below(stack)) < StackCost(c, rank, stack)
                           && (c.Due(f.dev) ==> StackCost(c, rank, SetPhase(stack, Calling(0))) < StackCost(c, rank, stack))
            case Calling(i) =>
              (i < |c.Deps(f.dev)| ==>
                 StackCost(c, rank, SetPhase(stack, Calling(i + 1)) + [Frame(c.Deps(f.dev)[i], Waiting)]) < StackCost(c, rank, stack))
              && StackCost(c, rank, SetPhase(stack, Marking)) < StackCost(c, rank, stack)
            case Marking => StackCost(c, rank, SetPhase(stack, Returning)) < StackCost(c, rank, stack)
            case Returning => StackCost(c, rank, Below(stack)) < StackCost(c, rank, stack)
  {
    hide Acyclic, Cost, CallCost, SetPhase;
    var f := Top(stack);
    PhaseCosts(c, rank, f.dev, if f.phase.Calling? then f.phase.next else 0);
    match f.phase
    case Waiting => SetPhaseCost(c, rank, stack, Locked);
    case Locked => SetPhaseCost(c, rank, stack, Calling(0));
    case Calling(i) =>
      SetPhaseCost(c, rank, stack, Marking);
      if i < |c.Deps(f.dev)| {
        SetPhaseCost(c, rank, stack, Calling(i + 1));
        PushCost(c, rank, SetPhase(stack, Calling(i + 1)), Frame(c.Deps(f.dev)[i], Waiting));
      }
    case Marking => SetPhaseCost(c, rank, stack, Returning);
    case Returning =>
  }

  /** Every step, of whichever task, brings the end nearer. */
  lemma StepDecreases(c: Config, rank: Dev -> nat, s: State, a: Action)
    requires Acyclic(c, rank) && Inv(c, s) && Enabled(c, s, a)
    ensures 0 <= Remaining(c, rank, Perform(c, s, a)) < Remaining(c, rank, s)
  {
    hide Acyclic, StacksOk, OwnersHold, LogOk, LogMatches, Cost, StackCost, TasksCost;
    var s' := Perform(c, s, a);
    match a
    case Launch =>
      LaunchedCost(c, rank, s.tasks, c.devices[|s.tasks|]);
    case Join =>
    case Advance(t) =>
      AdvanceCost(c, rank, s, t);
      var stack := s'.tasks[t];
      assert s'.tasks == s.tasks[t := stack];
      TasksCostUpdate(c, rank, s.tasks, t, stack);
  }

  lemma LaunchedCost(c: Config, rank: Dev -> nat, tasks: seq<seq<Frame>>, d: Dev)
    requires Acyclic(c, rank)
    ensures TasksCost(c, rank, tasks + [[Frame(d, Waiting)]]) == TasksCost(c, rank, tasks) + Cost(c, rank, d)
  {
    hide Acyclic, Cost;
    var stack := [Frame(d, Waiting)];
    assert (tasks + [stack])[..|tasks|] == tasks;
    assert stack == [] + stack;
    PushCost(c, rank, [], stack[0]);
  }

  /** So no run is longer than the bound of the initial state: `UpdateAll` always finishes. */
  lemma {:induction false} RunsBounded(c: Config, rank: Dev -> nat, actions: seq<Action>)
    requires Acyclic(c, rank) && After(c, actions).Reached?
    ensures |actions| + Remaining(c, rank, After(c, actions).state) <= Remaining(c, rank, Init(c))
    ensures Remaining(c, rank, After(c, actions).state) >= 0
    decreases |actions|
  {
    RunInv(c, actions);
    if actions != [] {
      var before := actions[..|actions| - 1];
      RunsBounded(c, rank, before);
      RunInv(c, before);
      StepDecreases(c, rank, After(c, before).state, actions[|actions| - 1]);
    }
  }

  /** Every run can be continued to the end. */
  lemma {:induction false} CanFinish(c: Config, rank: Dev -> nat, actions: seq<Action>) returns (all: seq<Action>)
    requires Acyclic(c, rank) && After(c, actions).Reached?
    ensures actions <= all && After(c, all).Reached? && Finished(c, After(c, all).state)
    decreases Remaining(c, rank, After(c, actions).state)
  {
    all := actions;
    RunInv(c, actions);
    var s := After(c, actions).state;
    if !Finished(c, s) {
      var a := NoDeadlock(c, rank, s);
      StepDecreases(c, rank, s, a);
      assert (actions + [a])[..|actions|] == actions;
      all := CanFinish(c, rank, actions + [a]);
    }
  }

  // ------------------------------------------------------------------------------------------------- cycles

  /** Each device of the path depends directly on the next one, and all are due. */
  predicate Path(c: Config, path: seq<Dev>) {
    && path != []
    && (forall k :: 0 <= k < |path| ==> c.Due(path[k]))
    && (forall k :: 0 <= k < |path| - 1 ==> path[k + 1] in c.Deps(path[k]))
  }

  /** A path of at least one dependency that ends where it begins. */
  predicate Cycle(c: Config, path: seq<Dev>) {
    Path(c, path) && |path| > 1 && path[0] == path[|path| - 1]
  }

  ghost predicate NoCycle(c: Config) {
    forall path :: !Cycle(c, path)
  }

  /** Along a path the ranks descend. */
  lemma {:induction false} RankDescends(c: Config, rank: Dev -> nat, path: seq<Dev>, k: nat)
    requires Acyclic(c, rank) && Path(c, path) && 0 < k < |path|
    ensures rank(path[k]) < rank(path[0])
  {
    assert path[(k - 1) + 1] in c.Deps(path[k - 1]);
    if k > 1 {
      RankDescends(c, rank, path, k - 1);
    }
  }

  /** Among due devices without a cycle one has no dependency: a path that always went on would meet itself. `unseen`
      are the devices not on the path. */
  lemma {:induction false} Sink(c: Config, devs: set<Dev>, path: seq<Dev>, unseen: set<Dev>) returns (d: Dev)
    requires NoCycle(c) && Path(c, path) && (forall e :: e in devs ==> c.Due(e)) && (forall e :: e in path ==> e in devs)
    requires forall e :: e in devs ==> e in path || e in unseen
    ensures d in devs && forall e :: e in c.Deps(d) ==> e !in devs
    decreases unseen
  {
    d := path[|path| - 1];
    if e: Dev :| e in c.Deps(d) && e in devs {
      var longer := path + [e];
      if e in path {
        var i :| 0 <= i < |path| && path[i] == e;
        assert Cycle(c, longer[i..]);
      } else {
        d := Sink(c, devs, longer, unseen - {e});
      }
    }
  }

  /** A sink gets rank 0, the others one more than among themselves. */
  lemma {:induction false} RankAmong(c: Config, devs: set<Dev>) returns (rank: Dev -> nat)
    requires NoCycle(c) && forall e :: e in devs ==> c.Due(e)
    ensures forall d, e :: d in devs && e in c.Deps(d) && e in devs ==> rank(e) < rank(d)
    decreases devs
  {
    rank := d => 0;
    if devs != {} {
      var start :| start in devs;
      var sink := Sink(c, devs, [start], devs);
      var rest := RankAmong(c, devs - {sink});
      rank := d => if d == sink then 0 else rest(d) + 1;
    }
  }

  lemma RankOf(c: Config) returns (rank: Dev -> nat)
    requires NoCycle(c)
    ensures Acyclic(c, rank)
  {
    rank := RankAmong(c, set d | d in c.devices && d !in c.marked);
  }

  /** The dependencies among due devices can be ranked exactly when they have no cycle. */
  lemma RankedIffNoCycle(c: Config)
    ensures (exists rank: Dev -> nat :: Acyclic(c, rank)) <==> NoCycle(c)
  {
    hide Acyclic;
    if rank: Dev -> nat :| Acyclic(c, rank) {
      forall path ensures !Cycle(c, path) {
        if Cycle(c, path) {
          RankDescends(c, rank, path, |path| - 1);
        }
      }
    }
    if NoCycle(c) {
      var rank := RankOf(c);
    }
  }

  // ------------------------------------------------------------------------------- returning is having no cycle

  /** The position of d in the log, as a rank. */
  ghost function Position(log: seq<Dev>, d: Dev): nat {
    if exists p :: 0 <= p < |log| && log[p] == d then (var p :| 0 <= p < |log| && log[p] == d; p) else 0
  }

  /** When any run of `UpdateAll` returns, the dependencies among due devices had no cycle. */
  lemma FinishedImpliesAcyclic(c: Config, actions: seq<Action>)
    requires After(c, actions).Reached? && Finished(c, After(c, actions).state)
    ensures var log := After(c, actions).state.log; Acyclic(c, d => Position(log, d))
  {
    ExactlyOnceInOrder(c, actions);
    var log := After(c, actions).state.log;
    forall d, e | c.Due(d) && e in c.Deps(d) && c.Due(e) ensures Position(log, e) < Position(log, d) {
      assert d in log;
      var p := Position(log, d);
      assert log[p] == d && e in log[..p];
      var q :| 0 <= q < p && log[q] == e;
      assert Position(log, e) == q;
    }
  }

  /** `UpdateAll` can return exactly when the dependencies among registered devices that are not marked have no
      cycle; and then it always does. */
  lemma FinishesIffAcyclic(c: Config)
    ensures (exists actions :: After(c, actions).Reached? && Finished(c, After(c, actions).state)) <==> NoCycle(c)
  {
    hide Acyclic, NoCycle;
    RankedIffNoCycle(c);
    if NoCycle(c) {
      var rank := RankOf(c);
      assert After(c, []).Reached?;
      var all := CanFinish(c, rank, []);
    }
    if actions :| After(c, actions).Reached? && Finished(c, After(c, actions).state) {
      FinishedImpliesAcyclic(c, actions);
    }
  }

  // ------------------------------------------------------------------------------------------- the program

  /** The mediator together with its devices' mutexes and flags and the tasks of the current `UpdateAll`. Each method
      is one atomic piece of the program; `UpdateAll` interleaves them nondeterministically. `marked` and `log` belong
      to the current or last call of `UpdateAll`. */
  class Mediator {
    var devices: seq<Dev>
    var dependencies: map<Dev, seq<Dev>>
    var tasks: seq<seq<Frame>>
    var owner: map<Dev, nat>
    var updated: set<Dev>
    var joined: nat
    ghost var marked: set<Dev>
    ghost var log: seq<Dev>

    ghost function Setup(): Config
      reads this
    {
      Config(devices, dependencies, marked)
    }

    ghost function Now(): State
      reads this
    {
      State(tasks, owner, updated, log, joined)
    }

    constructor ()
      ensures Setup() == Config([], map[], {}) && Now() == Init(Setup())
    {
      devices, dependencies := [], map[];
      tasks, owner, updated, joined := [], map[], {}, 0;
      marked, log := {}, [];
    }

    method AddDevice(d: Dev)
      modifies `devices
      ensures devices == old(devices) + [d]
    {
      devices := devices + [d];
    }

    /** An edge may be set for any two devices, registered or not, and more than once. */
    method SetDependency(from: Dev, to: Dev)
      modifies `dependencies
      ensures Setup().Deps(from) == old(Setup().Deps(from)) + [to]
      ensures forall d :: d != from ==> Setup().Deps(d) == old(Setup().Deps(d))
    {
      dependencies := dependencies[from := (if from in dependencies then dependencies[from] else []) + [to]];
    }

    /** std::async for the next device */
    method LaunchTask()
      requires Enabled(Setup(), Now(), Launch)
      modifies `tasks
      ensures Now() == Perform(Setup(), old(Now()), Launch)
    {
      tasks := tasks + [[Frame(devices[|tasks|], Waiting)]];
    }

    /** future.get() for the next task, which has finished */
    method JoinTask()
      requires Enabled(Setup(), Now(), Join)
      modifies `joined
      ensures Now() == Perform(Setup(), old(Now()), Join)
    {
      joined := joined + 1;
    }

    /** The scoped_lock of the innermost call */
    method Acquire(t: nat)
      requires Enabled(Setup(), Now(), Advance(t)) && Top(tasks[t]).phase.Waiting?
      modifies `tasks, `owner
      ensures Now() == Perform(Setup(), old(Now()), Advance(t))
    {
      owner := owner[Top(tasks[t]).dev := t];
      tasks := tasks[t := SetPhase(tasks[t], Locked)];
    }

    /** The end of a call: the lock is released and control returns to the caller */
    method Release(t: nat)
      requires t < |tasks| && tasks[t] != []
      modifies `tasks, `owner
      ensures Now() == Returned(old(Now()), t)
    {
      owner := owner - {Top(tasks[t]).dev};
      tasks := tasks[t := Below(tasks[t])];
    }

    /** From the skip test to the end of UpdateDevice, one atomic action at a time */
    method Continue(t: nat)
      requires t < |tasks| && tasks[t] != [] && !Top(tasks[t]).phase.Waiting?
      modifies `tasks, `owner, `updated, `log
      ensures Now() == Perform(Setup(), old(Now()), Advance(t))
    {
      var stack, d := tasks[t], Top(tasks[t]).dev;
      match Top(stack).phase
      case Waiting =>
      case Locked =>
        if d in updated || d !in devices {
          Release(t);
        } else {
          tasks := tasks[t := SetPhase(stack, Calling(0))];
        }
      case Calling(i) =>
        if d in dependencies && i < |dependencies[d]| {
          tasks := tasks[t := SetPhase(stack, Calling(i + 1)) + [Frame(dependencies[d][i], Waiting)]];
        } else {
          log := log + [d];
          tasks := tasks[t := SetPhase(stack, Marking)];
        }
      case Marking =>
        updated := updated + {d};
        tasks := tasks[t := SetPhase(stack, Returning)];
      case Returning =>
        Release(t);
    }

    /** Task t is not finished and not blocked on a mutex. */
    predicate CanAdvance(t: nat)
      requires t < |tasks|
      reads this
    {
      tasks[t] != [] && (Top(tasks[t]).phase.Waiting? ==> Top(tasks[t]).dev !in owner)
    }

    /** One step, of whichever task or of the caller, that the scheduler picks. */
    method Step(ghost possible: Action) returns (ghost a: Action)
      requires Enabled(Setup(), Now(), possible) && joined <= |tasks|
      modifies `tasks, `owner, `updated, `log, `joined
      ensures Enabled(Setup(), old(Now()), a) && Now() == Perform(Setup(), old(Now()), a)
    {
      hide Perform;
      a := Launch;
      assert possible.Advance? ==> CanAdvance(possible.task);
      if {
        case |tasks| < |devices| => LaunchTask();
        case |tasks| == |devices| && joined < |tasks| && tasks[joined] == [] => JoinTask(); a := Join;
        case exists t :: 0 <= t < |tasks| && CanAdvance(t) =>
          var t :| 0 <= t < |tasks| && CanAdvance(t);
          a := Advance(t);
          if Top(tasks[t]).phase.Waiting? {
            Acquire(t);
          } else {
            Continue(t);
          }
      }
    }

    /** Under any schedule, when the dependencies have no cycle: terminates with every registered device updated that
        was not before, once, dependencies first. It may be called again, with other devices and dependencies, whenever no
        call of it is in progress; devices marked earlier are then skipped. */
    method UpdateAll()
      requires owner == map[] && NoCycle(Config(devices, dependencies, updated))
      modifies `tasks, `owner, `updated, `joined, `marked, `log
      ensures Setup() == Config(devices, dependencies, old(updated)) && Finished(Setup(), Now()) && owner == map[]
      ensures forall d :: d in log <==> d in devices && d !in old(updated)
      ensures forall d :: d in updated <==> d in devices || d in old(updated)
      ensures LogOk(Setup(), log)
    {
      hide Inv, Perform, Remaining, Acyclic, NoCycle;
      tasks, joined := [], 0;
      marked, log := updated, [];
      ghost var c := Setup();
      ghost var rank := RankOf(c);
      ghost var actions: seq<Action> := [];
      while joined < |devices|
        invariant Setup() == c && After(c, actions) == Reached(Now())
        invariant joined <= |tasks| <= |devices|
        decreases Remaining(c, rank, Now())
      {
        RunInv(c, actions);
        ghost var possible := NoDeadlock(c, rank, Now());
        ghost var before := Now();
        ghost var a := Step(possible);
        StepDecreases(c, rank, before, a);
        assert (actions + [a])[..|actions|] == actions;
        actions := actions + [a];
        RunInv(c, actions);
        InOrder(c, Now());
      }
      ExactlyOnceInOrder(c, actions);
    }
  }
}
