// What each worker does, in which order, and what stop leaves behind.
module ThreadingOrder {
  import opened Threading
  import opened ThreadingRuns

  // ---------------------------------------------------------------- the program

  // The critical sections a worker t completes in one step.
  function Completes(s: State, a: Action, t: Tid): seq<Section>
    requires Enabled(s, a)
  {
    if a == Work(t) then [s.workers[t].pc.section] else if a == Add(t) then [Respawn] else []
  }

  ghost function Log(s: State, acts: seq<Action>, t: Tid): seq<Section>
    requires Runs(s, acts)
    decreases |acts|
  {
    if acts == [] then [] else Completes(s, acts[0], t) + Log(Step(s, acts[0]), acts[1..], t)
  }

  // Section b comes right after section a in the text of runJavaScriptThread.
  predicate ComesAfter(a: Section, b: Section) {
    || (a == MakeContext && b == MakeScript)
    || (a == MakeScript && b == Evaluate)
    || (a == Evaluate && b == Allocate)
    || (a == Allocate && b == Check)
    || (a == Check && (b == Evaluate || b == Respawn || b == Cleanup))
    || (a == Respawn && b == Cleanup)
  }

  ghost predicate InOrder(log: seq<Section>) {
    && (log != [] ==> log[0] == MakeContext)
    && forall k | 0 < k < |log| :: ComesAfter(log[k - 1], log[k])
  }

  predicate CanContinue(log: seq<Section>, next: Section) {
    if log == [] then next == MakeContext else ComesAfter(log[|log| - 1], next)
  }

  // Where a worker is agrees with what it has completed.
  ghost predicate Agrees(log: seq<Section>, pc: Pc) {
    && InOrder(log)
    && match pc
       case Want(section) => CanContinue(log, section)
       case Hold(section) => CanContinue(log, section)
       case Decide => CanContinue(log, Evaluate) && CanContinue(log, Respawn)
       case Removed => CanContinue(log, Respawn)
       case Created(_) => CanContinue(log, Respawn)
       case Finished => log != [] && log[|log| - 1] == Cleanup
  }

  ghost predicate Logged(s: State, t: Tid, log: seq<Section>) {
    if t < |s.workers| then Agrees(log, s.workers[t].pc) else log == []
  }

  lemma LogStep(s: State, a: Action, t: Tid, log: seq<Section>)
    requires Inv(s) && Enabled(s, a) && Logged(s, t, log)
    ensures Logged(Step(s, a), t, log + Completes(s, a, t))
  {
    if Completes(s, a, t) == [] {
      assert log + [] == log;
      if t < |s.workers| {
        MovesWithin(s, a, t, log);
      }
    } else {
      CompletesNext(s, a, t, log);
    }
  }

  lemma MovesWithin(s: State, a: Action, t: Tid, log: seq<Section>)
    requires Inv(s) && Enabled(s, a) && t < |s.workers| && Completes(s, a, t) == [] && Agrees(log, s.workers[t].pc)
    ensures Agrees(log, Step(s, a).workers[t].pc)
  {
  }

  lemma CompletesNext(s: State, a: Action, t: Tid, log: seq<Section>)
    requires Inv(s) && Enabled(s, a) && (a == Work(t) || a == Add(t)) && Agrees(log, s.workers[t].pc)
    ensures Agrees(log + Completes(s, a, t), Step(s, a).workers[t].pc)
  {
    var done := Completes(s, a, t)[0];
    var longer := log + [done];
    assert CanContinue(log, done);
    assert longer[|longer| - 1] == done && longer[..|log|] == log;
  }

  lemma LogNext(s: State, acts: seq<Action>, t: Tid, log: seq<Section>)
    requires Runs(s, acts) && acts != []
    ensures Final(s, acts) == Final(Step(s, acts[0]), acts[1..])
    ensures log + Log(s, acts, t) == log + Completes(s, acts[0], t) + Log(Step(s, acts[0]), acts[1..], t)
  {
  }

  lemma {:induction false} LogRun(s: State, acts: seq<Action>, t: Tid, log: seq<Section>)
    requires Inv(s) && Runs(s, acts) && Logged(s, t, log)
    ensures Logged(Final(s, acts), t, log + Log(s, acts, t))
    decreases |acts|
  {
    if acts == [] {
      assert log + [] == log;
    } else {
      StepKeepsInv(s, acts[0]);
      LogStep(s, acts[0], t, log);
      LogRun(Step(s, acts[0]), acts[1..], t, log + Completes(s, acts[0], t));
      LogNext(s, acts, t, log);
    }
  }

  // In every interleaving each worker goes through its sections in the order of the program, from
  // the creation of its context on, and a finished worker ended with its cleanup.
  lemma WorkersFollowProgram(acts: seq<Action>, t: Tid)
    requires Runs(INITIAL, acts) && t < |Final(INITIAL, acts).workers|
    ensures var log := Log(INITIAL, acts, t);
            InOrder(log) && (Final(INITIAL, acts).workers[t].pc == Finished ==> log != [] && log[|log| - 1] == Cleanup)
  {
    LogRun(INITIAL, acts, t, []);
    assert [] + Log(INITIAL, acts, t) == Log(INITIAL, acts, t);
  }

  // ---------------------------------------------------------------- leaving the loop

  predicate Leaving(pc: Pc) {
    pc == Want(Cleanup) || pc == Hold(Cleanup) || pc == Finished
  }

  ghost predicate LeftForReason(s: State) {
    forall t: Tid | t < |s.workers| && Leaving(s.workers[t].pc) :: s.workers[t].replaced || s.terminate
  }

  lemma LeftStep(s: State, a: Action)
    requires Inv(s) && Enabled(s, a) && LeftForReason(s)
    ensures LeftForReason(Step(s, a))
  {
  }

  lemma {:induction false} LeftRun(s: State, acts: seq<Action>)
    requires Inv(s) && Runs(s, acts) && LeftForReason(s)
    ensures LeftForReason(Final(s, acts))
    decreases |acts|
  {
    if acts != [] {
      StepKeepsInv(s, acts[0]);
      LeftStep(s, acts[0]);
      LeftRun(Step(s, acts[0]), acts[1..]);
    }
  }

  // A worker leaves its loop only if it has replaced itself or the flag is up.
  lemma LeavesOnlyOnFlagOrReplaced(acts: seq<Action>)
    requires Runs(INITIAL, acts)
    ensures LeftForReason(Final(INITIAL, acts))
  {
    LeftRun(INITIAL, acts);
  }

  // ---------------------------------------------------------------- the set after stop

  predicate BeforeRemoval(pc: Pc) {
    pc == Decide || pc == Want(Respawn) || pc == Hold(Respawn)
  }

  ghost predicate NoneBeforeRemoval(s: State) {
    forall t: Tid | t < |s.workers| :: !BeforeRemoval(s.workers[t].pc)
  }

  // Only copied workers that have not been joined can still replace themselves, and none once the
  // joins are over.
  ghost predicate Closing(s: State) {
    match s.ctl
    case Waiting(snapshot, waited) =>
      forall t: Tid | t < |s.workers| && BeforeRemoval(s.workers[t].pc) :: t in snapshot && t !in waited
    case WantClear(_) => NoneBeforeRemoval(s)
    case HoldClear(_) => NoneBeforeRemoval(s)
    case Cleared(_) => NoneBeforeRemoval(s) && NoneSwapping(s) && s.registered == {}
    case Released(_) => NoneBeforeRemoval(s) && NoneSwapping(s) && s.registered == {}
    case _ => true
  }

  ghost predicate NoneSwapping(s: State) {
    forall t: Tid | t < |s.workers| :: !s.workers[t].pc.Removed? && !s.workers[t].pc.Created?
  }

  // A worker step brings nobody before its removal that was not there, with the flag up.
  lemma WorkerStepCloses(s: State, a: Action)
    requires Inv(s) && Enabled(s, a) && s.terminate && WorkerAction(a)
    ensures forall t: Tid | t < |Step(s, a).workers| && BeforeRemoval(Step(s, a).workers[t].pc) ::
              t < |s.workers| && BeforeRemoval(s.workers[t].pc)
    ensures NoneBeforeRemoval(s) && NoneSwapping(s) ==>
              NoneSwapping(Step(s, a)) && Step(s, a).registered == s.registered
  {
  }

  lemma ClosingWorker(s: State, a: Action)
    requires Inv(s) && Enabled(s, a) && Closing(s) && WorkerAction(a)
    ensures Closing(Step(s, a))
  {
    if s.terminate {
      WorkerStepCloses(s, a);
    }
    assert Step(s, a).ctl == s.ctl;
  }

  lemma ClosingController(s: State, a: Action)
    requires Inv(s) && Enabled(s, a) && Closing(s) && !WorkerAction(a)
    ensures Closing(Step(s, a))
  {
    if a.CopySet? {
      assert forall t: Tid | t < |s.workers| && BeforeRemoval(s.workers[t].pc) :: t in s.registered;
    }
  }

  lemma {:induction false} ClosingRun(s: State, acts: seq<Action>)
    requires Inv(s) && Runs(s, acts) && Closing(s)
    ensures Closing(Final(s, acts))
    decreases |acts|
  {
    if acts != [] {
      StepKeepsInv(s, acts[0]);
      if WorkerAction(acts[0]) {
        ClosingWorker(s, acts[0]);
      } else {
        ClosingController(s, acts[0]);
      }
      ClosingRun(Step(s, acts[0]), acts[1..]);
    }
  }

  // Once stop has cleared the set it is empty and stays so in every interleaving, although a
  // replacement may still be running.
  lemma SetStaysEmpty(acts: seq<Action>)
    requires Runs(INITIAL, acts) && IsCleared(Final(INITIAL, acts).ctl)
    ensures Final(INITIAL, acts).registered == {}
  {
    ClosingRun(INITIAL, acts);
  }

  // ---------------------------------------------------------------- what stop waits for

  ghost predicate Joined(s: State, ts: set<Tid>) {
    forall t | t in ts :: t < |s.workers| && (s.workers[t].pc == Finished || s.workers[t].replaced)
  }

  // The copy and the joins made so far.
  ghost predicate Joins(s: State) {
    match s.ctl
    case Waiting(snapshot, waited) => |snapshot| == THREAD_COUNT && Joined(s, waited)
    case WantClear(snapshot) => |snapshot| == THREAD_COUNT && Joined(s, snapshot)
    case HoldClear(snapshot) => |snapshot| == THREAD_COUNT && Joined(s, snapshot)
    case Cleared(snapshot) => |snapshot| == THREAD_COUNT && Joined(s, snapshot)
    case Released(snapshot) => |snapshot| == THREAD_COUNT && Joined(s, snapshot)
    case _ => true
  }

  lemma JoinedStep(s: State, a: Action, ts: set<Tid>)
    requires Inv(s) && Enabled(s, a) && Joined(s, ts)
    ensures Joined(Step(s, a), ts)
  {
  }

  lemma JoinsStep(s: State, a: Action)
    requires Inv(s) && Enabled(s, a) && Joins(s)
    ensures Joins(Step(s, a))
  {
    match s.ctl
    case Waiting(_, waited) => JoinedStep(s, a, waited);
    case WantClear(snapshot) => JoinedStep(s, a, snapshot);
    case HoldClear(snapshot) => JoinedStep(s, a, snapshot);
    case Cleared(snapshot) => JoinedStep(s, a, snapshot);
    case Released(snapshot) => JoinedStep(s, a, snapshot);
    case _ =>
  }

  lemma {:induction false} JoinsRun(s: State, acts: seq<Action>)
    requires Inv(s) && Runs(s, acts) && Joins(s)
    ensures Joins(Final(s, acts))
    decreases |acts|
  {
    if acts != [] {
      StepKeepsInv(s, acts[0]);
      JoinsStep(s, acts[0]);
      JoinsRun(Step(s, acts[0]), acts[1..]);
    }
  }

  // Stop copies four threads and goes on only when each of them has finished or replaced itself.
  lemma StopJoinsFour(acts: seq<Action>)
    requires Runs(INITIAL, acts)
    ensures Joins(Final(INITIAL, acts))
  {
    JoinsRun(INITIAL, acts);
  }
}
