// What holds over whole runs of the worker threads.
module ThreadingRuns {
  import opened Threading

  // ---------------------------------------------------------------- runs

  ghost predicate Runs(s: State, acts: seq<Action>)
    decreases |acts|
  {
    acts == [] || (Enabled(s, acts[0]) && Runs(Step(s, acts[0]), acts[1..]))
  }

  ghost function Final(s: State, acts: seq<Action>): State
    requires Runs(s, acts)
    decreases |acts|
  {
    if acts == [] then s else Final(Step(s, acts[0]), acts[1..])
  }

  lemma {:induction false} RunKeepsInv(s: State, acts: seq<Action>)
    requires Inv(s) && Runs(s, acts)
    ensures Inv(Final(s, acts))
    decreases |acts|
  {
    if acts != [] {
      StepKeepsInv(s, acts[0]);
      RunKeepsInv(Step(s, acts[0]), acts[1..]);
    }
  }

  lemma {:induction false} RunsConcat(s: State, a: seq<Action>, b: seq<Action>)
    ensures Runs(s, a + b) <==> Runs(s, a) && Runs(Final(s, a), b)
    ensures Runs(s, a + b) ==> Final(s, a + b) == Final(Final(s, a), b)
    decreases |a|
  {
    if a == [] {
      assert a + b == b;
    } else {
      assert (a + b)[1..] == a[1..] + b;
      if Enabled(s, a[0]) {
        RunsConcat(Step(s, a[0]), a[1..], b);
      }
    }
  }

  // ---------------------------------------------------------------- the set

  // start has finished and stop has not yet cleared the set.
  predicate Serving(c: Controller) {
    !c.Idle? && !c.Starting? && !c.StartCreated? && !IsCleared(c)
  }

  // In every interleaving the set holds exactly four threads whenever the lock is free, so the
  // assertion on the copy in stop holds too; and a thread that has ever held the lock, and has not
  // replaced itself, is in the set.
  lemma SetHoldsFour(acts: seq<Action>)
    requires Runs(INITIAL, acts) && Serving(Final(INITIAL, acts).ctl)
    ensures var s := Final(INITIAL, acts);
            && (s.lock == Free || s.ctl == HoldCopy ==> |s.registered| == THREAD_COUNT)
            && (forall t: Tid | t < |s.workers| && !s.workers[t].replaced && s.workers[t].pc != Want(MakeContext) ::
                  t in s.registered)
  {
    RunKeepsInv(INITIAL, acts);
  }

  // ---------------------------------------------------------------- termination

  // A worker that may still create a replacement once the flag is up.
  predicate CanRespawn(pc: Pc) {
    pc == Decide || pc == Want(Respawn) || pc == Hold(Respawn) || pc == Removed
  }

  ghost function Respawners(s: State): set<Tid> {
    set t: Tid | 0 <= t < |s.workers| && CanRespawn(s.workers[t].pc)
  }

  lemma FewRespawners(s: State)
    requires Inv(s) && Serving(s.ctl)
    ensures |Respawners(s)| <= THREAD_COUNT
  {
    var all := s.registered + if Swapping(s) then {s.lock.t} else {};
    assert Respawners(s) <= all;
    Contained(Respawners(s), all);
  }

  lemma Contained(a: set<Tid>, b: set<Tid>)
    requires a <= b
    ensures |a| <= |b|
    decreases |a|
  {
    if a != {} {
      var x :| x in a;
      Contained(a - {x}, b - {x});
    }
  }

  lemma RespawnersStep(s: State, a: Action, t: Tid)
    requires Inv(s) && s.terminate && Enabled(s, a) && t in Respawners(Step(s, a))
    ensures t in Respawners(s) && !(a.Create? && a.t == t)
  {
  }

  // With the flag up, each creation uses up a respawner and nothing makes new ones.
  lemma CreationSpends(s: State, a: Action)
    requires Inv(s) && s.terminate && Enabled(s, a)
    ensures Step(s, a).terminate
    ensures |Step(s, a).workers| - |s.workers| <= |Respawners(s)| - |Respawners(Step(s, a))|
  {
    var before, after := Respawners(s), Respawners(Step(s, a));
    forall t | t in after ensures t in before && !(a.Create? && a.t == t) {
      RespawnersStep(s, a, t);
    }
    if a.Create? {
      assert a.t in before;
      Contained(after, before - {a.t});
    } else {
      Contained(after, before);
    }
  }

  lemma {:induction false} CreationsBounded(s: State, acts: seq<Action>)
    requires Inv(s) && s.terminate && Runs(s, acts)
    ensures |Final(s, acts).workers| - |s.workers| <= |Respawners(s)| - |Respawners(Final(s, acts))|
    decreases |acts|
  {
    if acts != [] {
      StepKeepsInv(s, acts[0]);
      CreationSpends(s, acts[0]);
      CreationsBounded(Step(s, acts[0]), acts[1..]);
    }
  }

  // Once the flag is raised at most four more workers are created, however long the run.
  lemma FourMoreWorkers(before: seq<Action>, after: seq<Action>)
    requires Runs(INITIAL, before + [RaiseFlag] + after)
    ensures Runs(INITIAL, before)
    ensures |Final(INITIAL, before + [RaiseFlag] + after).workers| <= |Final(INITIAL, before).workers| + THREAD_COUNT
  {
    RunsConcat(INITIAL, before + [RaiseFlag], after);
    RunsConcat(INITIAL, before, [RaiseFlag]);
    var s := Final(INITIAL, before);
    RunKeepsInv(INITIAL, before);
    StepKeepsInv(s, RaiseFlag);
    var raised := Step(s, RaiseFlag);
    assert Final(s, [RaiseFlag]) == raised;
    FewRespawners(raised);
    CreationsBounded(raised, after);
  }

  // Steps a worker still has to take with the flag up, its replacement's included.
  function Weight(pc: Pc): nat {
    match pc
    case Finished => 0
    case Hold(section) => SectionWeight(section)
    case Want(section) => SectionWeight(section) + 1
    case Created(_) => 3
    case Removed => 16
    case Decide => 19
  }

  function SectionWeight(section: Section): nat {
    match section
    case Cleanup => 1
    case Check => 3
    case Allocate => 5
    case Evaluate => 7
    case MakeScript => 9
    case MakeContext => 11
    case Respawn => 17
  }

  function TotalWeight(workers: seq<Worker>): nat {
    if workers == [] then 0 else TotalWeight(workers[..|workers| - 1]) + Weight(workers[|workers| - 1].pc)
  }

  lemma {:induction false} TotalUpdate(workers: seq<Worker>, t: nat, w: Worker)
    requires t < |workers|
    ensures TotalWeight(workers[t := w]) == TotalWeight(workers) - Weight(workers[t].pc) + Weight(w.pc)
    decreases |workers|
  {
    var n := |workers| - 1;
    if t < n {
      assert workers[t := w][..n] == workers[..n][t := w];
      TotalUpdate(workers[..n], t, w);
    } else {
      assert workers[t := w][..n] == workers[..n];
    }
  }

  lemma TotalAppend(workers: seq<Worker>, w: Worker)
    ensures TotalWeight(workers + [w]) == TotalWeight(workers) + Weight(w.pc)
  {
    assert (workers + [w])[..|workers|] == workers;
  }

  lemma CreatorMoves(s: State, t: Tid)
    requires s.terminate && Enabled(s, Create(t))
    ensures var w := Step(s, Create(t)).workers[t];
            && Step(s, Create(t)).workers == s.workers[t := w] + [NEW_WORKER]
            && Weight(w.pc) + Weight(NEW_WORKER.pc) < Weight(s.workers[t].pc)
  {
  }

  lemma OneWorkerMoves(s: State, a: Action)
    requires s.terminate && Enabled(s, a) && WorkerAction(a) && !a.Create?
    ensures var w := Step(s, a).workers[a.t];
            Step(s, a).workers == s.workers[a.t := w] && Weight(w.pc) < Weight(s.workers[a.t].pc)
  {
  }

  // With the flag up every worker step lowers the total weight and no controller step raises it.
  lemma WorkerStepLowers(s: State, a: Action)
    requires Inv(s) && s.terminate && Enabled(s, a)
    ensures TotalWeight(Step(s, a).workers) + (if WorkerAction(a) then 1 else 0) <= TotalWeight(s.workers)
  {
    if WorkerAction(a) {
      var w := Step(s, a).workers[a.t];
      TotalUpdate(s.workers, a.t, w);
      if a.Create? {
        CreatorMoves(s, a.t);
        TotalAppend(s.workers[a.t := w], NEW_WORKER);
      } else {
        OneWorkerMoves(s, a);
      }
    } else {
      assert Step(s, a).workers == s.workers;
    }
  }

  function WorkerSteps(acts: seq<Action>): nat {
    if acts == [] then 0 else (if WorkerAction(acts[0]) then 1 else 0) + WorkerSteps(acts[1..])
  }

  // Every run with the flag up has at most TotalWeight worker steps: the workers come to an end.
  lemma {:induction false} WorkersEnd(s: State, acts: seq<Action>)
    requires Inv(s) && s.terminate && Runs(s, acts)
    ensures WorkerSteps(acts) + TotalWeight(Final(s, acts).workers) <= TotalWeight(s.workers)
    decreases |acts|
  {
    if acts != [] {
      StepKeepsInv(s, acts[0]);
      CreationSpends(s, acts[0]);
      WorkerStepLowers(s, acts[0]);
      WorkersEnd(Step(s, acts[0]), acts[1..]);
    }
  }

  // Steps the controller still has to take with the flag up.
  ghost function ControllerWeight(c: Controller): nat {
    match c
    case Released(_) => 0
    case Cleared(_) => 1
    case HoldClear(_) => 2
    case WantClear(_) => 3
    case Waiting(snapshot, waited) => 4 + |snapshot - waited|
    case HoldCopy => 5 + THREAD_COUNT
    case _ => 6 + THREAD_COUNT
  }

  lemma WaitingLowers(snapshot: set<Tid>, waited: set<Tid>, t: Tid)
    requires t in snapshot && t !in waited
    ensures ControllerWeight(Waiting(snapshot, waited + {t})) < ControllerWeight(Waiting(snapshot, waited))
  {
    var left := snapshot - waited;
    assert snapshot - (waited + {t}) == left - {t};
  }

  // The copy holds four threads, so the wait starts with four joins to go.
  lemma CopyLowers(s: State)
    requires Inv(s) && s.ctl == HoldCopy
    ensures ControllerWeight(Waiting(s.registered, {})) < ControllerWeight(s.ctl)
  {
    assert s.registered - {} == s.registered;
    assert !Swapping(s);
  }

  lemma ControllerStepLowers(s: State, a: Action)
    requires Inv(s) && s.terminate && Enabled(s, a)
    ensures ControllerWeight(Step(s, a).ctl) + (if WorkerAction(a) then 0 else 1) <= ControllerWeight(s.ctl)
  {
    if a.WaitFor? {
      WaitingLowers(s.ctl.snapshot, s.ctl.waited, a.t);
    } else if a.CopySet? {
      CopyLowers(s);
    }
  }

  // With the flag up every run is finite, whatever the scheduler does.
  lemma {:induction false} RunsEnd(s: State, acts: seq<Action>)
    requires Inv(s) && s.terminate && Runs(s, acts)
    ensures |acts| <= TotalWeight(s.workers) + ControllerWeight(s.ctl)
    decreases |acts|
  {
    if acts != [] {
      StepKeepsInv(s, acts[0]);
      CreationSpends(s, acts[0]);
      WorkerStepLowers(s, acts[0]);
      ControllerStepLowers(s, acts[0]);
      RunsEnd(Step(s, acts[0]), acts[1..]);
    }
  }

  // and a run that cannot go on has released the group and finished every worker.
  lemma StopCompletes(s: State, acts: seq<Action>)
    requires Inv(s) && Runs(s, acts) && forall a :: !Enabled(Final(s, acts), a)
    ensures Final(s, acts).ctl.Released? && AllFinished(Final(s, acts))
  {
    RunKeepsInv(s, acts);
    var r := Final(s, acts);
    if !(r.ctl.Released? && AllFinished(r)) {
      var a := NoDeadlock(r);
    }
  }

  // Some step is possible until the group is released and every worker has finished.
  lemma NoDeadlock(s: State) returns (a: Action)
    requires Inv(s) && !(s.ctl.Released? && AllFinished(s))
    ensures Enabled(s, a)
  {
    match s.lock
    case ByWorker(t) =>
      a := match s.workers[t].pc
           case Removed => Create(t)
           case Created(_) => Add(t)
           case Hold(Respawn) => Remove(t)
           case _ => Work(t);
    case ByController => a := ControllerMove(s);
    case Free =>
      if t: Tid :| t < |s.workers| && s.workers[t].pc != Finished {
        a := if s.workers[t].pc == Decide then Choose(t, false) else Acquire(t);
      } else {
        a := ControllerMove(s);
      }
  }

  ghost predicate AllFinished(s: State) {
    forall t: Tid | t < |s.workers| :: s.workers[t].pc == Finished
  }

  lemma ControllerMove(s: State) returns (a: Action)
    requires Inv(s) && !s.ctl.Released? && (s.lock == ByController || (s.lock == Free && AllFinished(s)))
    ensures Enabled(s, a)
  {
    match s.ctl
    case Idle => a := Start;
    case Starting(k) => a := if k < THREAD_COUNT then StartCreate else StartDone;
    case StartCreated(_, _) => a := StartAdd;
    case Running => a := Stop;
    case WantFlag => a := AcquireFlag;
    case HoldFlag => a := RaiseFlag;
    case WantCopy => a := AcquireCopy;
    case HoldCopy => a := CopySet;
    case Waiting(snapshot, waited) =>
      if t :| t in snapshot && t !in waited {
        a := WaitFor(t);
      } else {
        a := WaitDone;
      }
    case WantClear(_) => a := AcquireClear;
    case HoldClear(_) => a := ClearSet;
    case Cleared(_) => a := ReleaseGroup;
  }
}
