// JavaScriptThreading.cpp as a transition system: workers and the controller that starts and stops
// them, over one lock. Each step is an acquisition of the lock, one access to the shared state made
// under it, or one action made without it.
module Threading {

  type Tid = nat

  const THREAD_COUNT: nat := 4

  // The critical sections of runJavaScriptThread, in the order of its text.
  datatype Section = MakeContext | MakeScript | Evaluate | Allocate | Check | Respawn | Cleanup

  datatype Pc =
    | Want(section: Section)   // about to lock
    | Hold(section: Section)   // holding the lock
    | Decide                   // past the flag check, about to call rand()
    | Removed                  // holding the lock: detached and removed from the set
    | Created(id: Tid)         // holding the lock: replacement created, not yet in the set
    | Finished

  datatype Worker = Worker(pc: Pc, replaced: bool)

  datatype Controller =
    | Idle
    | Starting(k: nat)                         // holding the lock, k workers in the set
    | StartCreated(k: nat, id: Tid)
    | Running
    | WantFlag | HoldFlag
    | WantCopy | HoldCopy
    | Waiting(snapshot: set<Tid>, waited: set<Tid>)
    | WantClear(snapshot: set<Tid>)
    | HoldClear(snapshot: set<Tid>)
    | Cleared(snapshot: set<Tid>)
    | Released(snapshot: set<Tid>)             // the context group is gone

  datatype Lock = Free | ByWorker(t: Tid) | ByController

  datatype State = State(workers: seq<Worker>, registered: set<Tid>, terminate: bool, lock: Lock, ctl: Controller)

  datatype Action =
    | Acquire(t: Tid) | Work(t: Tid) | Choose(t: Tid, respawn: bool) | Remove(t: Tid) | Create(t: Tid) | Add(t: Tid)
    | Start | StartCreate | StartAdd | StartDone
    | Stop | AcquireFlag | RaiseFlag | AcquireCopy | CopySet | WaitFor(t: Tid) | WaitDone | AcquireClear | ClearSet
    | ReleaseGroup

  const INITIAL: State := State([], {}, false, Free, Idle)

  predicate WorkerAction(a: Action) {
    a.Acquire? || a.Work? || a.Choose? || a.Remove? || a.Create? || a.Add?
  }

  // ---------------------------------------------------------------- steps

  predicate Enabled(s: State, a: Action) {
    match a
    case Acquire(t) => t < |s.workers| && s.workers[t].pc.Want? && s.lock == Free
    case Work(t) => t < |s.workers| && s.workers[t].pc.Hold? && s.workers[t].pc.section != Respawn
    case Choose(t, _) => t < |s.workers| && s.workers[t].pc == Decide
    case Remove(t) => t < |s.workers| && s.workers[t].pc == Hold(Respawn)
    case Create(t) => t < |s.workers| && s.workers[t].pc == Removed
    case Add(t) => t < |s.workers| && s.workers[t].pc.Created?
    case Start => s.ctl == Idle && s.lock == Free
    case StartCreate => s.ctl.Starting? && s.ctl.k < THREAD_COUNT
    case StartAdd => s.ctl.StartCreated?
    case StartDone => s.ctl == Starting(THREAD_COUNT)
    case Stop => s.ctl == Running
    case AcquireFlag => s.ctl == WantFlag && s.lock == Free
    case RaiseFlag => s.ctl == HoldFlag
    case AcquireCopy => s.ctl == WantCopy && s.lock == Free
    case CopySet => s.ctl == HoldCopy
    // Joining returns once the thread has finished; on a detached thread it may return at any time.
    case WaitFor(t) =>
      && s.ctl.Waiting? && t in s.ctl.snapshot && t !in s.ctl.waited && t < |s.workers|
      && (s.workers[t].pc == Finished || s.workers[t].replaced)
    case WaitDone => s.ctl.Waiting? && s.ctl.waited == s.ctl.snapshot
    case AcquireClear => s.ctl.WantClear? && s.lock == Free
    case ClearSet => s.ctl.HoldClear?
    case ReleaseGroup => s.ctl.Cleared?
  }

  // Where a worker goes when it leaves a critical section.
  function After(section: Section, terminate: bool): Pc
    requires section != Respawn
  {
    match section
    case MakeContext => Want(MakeScript)
    case MakeScript => Want(Evaluate)
    case Evaluate => Want(Allocate)
    case Allocate => Want(Check)
    case Check => if terminate then Want(Cleanup) else Decide
    case Cleanup => Finished
  }

  function SetPc(s: State, t: Tid, pc: Pc): State
    requires t < |s.workers|
  {
    s.(workers := s.workers[t := s.workers[t].(pc := pc)])
  }

  const NEW_WORKER: Worker := Worker(Want(MakeContext), false)

  function Step(s: State, a: Action): State
    requires Enabled(s, a)
  {
    match a
    case Acquire(t) => SetPc(s, t, Hold(s.workers[t].pc.section)).(lock := ByWorker(t))
    case Work(t) => SetPc(s, t, After(s.workers[t].pc.section, s.terminate)).(lock := Free)
    case Choose(t, respawn) => SetPc(s, t, if respawn then Want(Respawn) else Want(Evaluate))
    case Remove(t) => s.(workers := s.workers[t := Worker(Removed, true)], registered := s.registered - {t})
    case Create(t) =>
      var created := SetPc(s, t, Created(|s.workers|));
      created.(workers := created.workers + [NEW_WORKER])
    case Add(t) => SetPc(s, t, Want(Cleanup)).(registered := s.registered + {s.workers[t].pc.id}, lock := Free)
    case Start => s.(ctl := Starting(0), lock := ByController)
    case StartCreate => s.(ctl := StartCreated(s.ctl.k, |s.workers|), workers := s.workers + [NEW_WORKER])
    case StartAdd => s.(ctl := Starting(s.ctl.k + 1), registered := s.registered + {s.ctl.id})
    case StartDone => s.(ctl := Running, lock := Free)
    case Stop => s.(ctl := WantFlag)
    case AcquireFlag => s.(ctl := HoldFlag, lock := ByController)
    case RaiseFlag => s.(ctl := WantCopy, lock := Free, terminate := true)
    case AcquireCopy => s.(ctl := HoldCopy, lock := ByController)
    case CopySet => s.(ctl := Waiting(s.registered, {}), lock := Free)
    case WaitFor(t) => s.(ctl := Waiting(s.ctl.snapshot, s.ctl.waited + {t}))
    case WaitDone => s.(ctl := WantClear(s.ctl.snapshot))
    case AcquireClear => s.(ctl := HoldClear(s.ctl.snapshot), lock := ByController)
    case ClearSet => s.(ctl := Cleared(s.ctl.snapshot), registered := {}, lock := Free)
    case ReleaseGroup => s.(ctl := Released(s.ctl.snapshot))
  }

  // ---------------------------------------------------------------- invariant

  predicate Holding(pc: Pc) {
    pc.Hold? || pc.Removed? || pc.Created?
  }

  predicate ControllerHolds(c: Controller) {
    c.Starting? || c.StartCreated? || c.HoldFlag? || c.HoldCopy? || c.HoldClear?
  }

  // The set has been cleared by stop.
  predicate IsCleared(c: Controller) {
    c.Cleared? || c.Released?
  }

  // A thread that exists but is not yet in the set.
  predicate Pending(s: State, t: Tid) {
    || (s.ctl.StartCreated? && s.ctl.id == t)
    || (s.lock.ByWorker? && s.lock.t < |s.workers| && s.workers[s.lock.t].pc == Created(t))
  }

  ghost predicate LockInv(s: State) {
    && (forall t: Tid | t < |s.workers| :: Holding(s.workers[t].pc) <==> s.lock == ByWorker(t))
    && (s.lock.ByWorker? ==> s.lock.t < |s.workers|)
    && (ControllerHolds(s.ctl) <==> s.lock == ByController)
  }

  // Whether a worker has replaced itself shows in where it is.
  ghost predicate WorkerInv(w: Worker) {
    && (w.replaced ==>
          w.pc.Removed? || w.pc.Created? || w.pc == Want(Cleanup) || w.pc == Hold(Cleanup) || w.pc == Finished)
    && (w.pc.Removed? || w.pc.Created? ==> w.replaced)
  }

  // The set is exactly the threads that have not replaced themselves, but for one being created.
  ghost predicate SetInv(s: State) {
    && (forall t | t in s.registered :: t < |s.workers| && !s.workers[t].replaced)
    && (forall t: Tid | t < |s.workers| && Pending(s, t) :: t !in s.registered && s.workers[t] == NEW_WORKER)
    && (!IsCleared(s.ctl) ==>
          forall t: Tid | t < |s.workers| && !s.workers[t].replaced :: t in s.registered || Pending(s, t))
    && (s.ctl.StartCreated? ==> s.ctl.id < |s.workers|)
    && (forall t: Tid | t < |s.workers| && s.workers[t].pc.Created? :: s.workers[t].pc.id < |s.workers|)
  }

  // A replacement is under way: one thread has left the set and its successor has not entered it.
  predicate Swapping(s: State) {
    s.lock.ByWorker? && s.lock.t < |s.workers| && (s.workers[s.lock.t].pc.Removed? || s.workers[s.lock.t].pc.Created?)
  }

  ghost predicate CountInv(s: State) {
    match s.ctl
    case Idle => s.registered == {} && s.workers == []
    case Starting(k) => k <= THREAD_COUNT && |s.registered| == k
    case StartCreated(k, _) => k < THREAD_COUNT && |s.registered| == k
    case Cleared(_) => true
    case Released(_) => true
    case _ => |s.registered| == if Swapping(s) then THREAD_COUNT - 1 else THREAD_COUNT
  }

  // The controller has raised the flag.
  predicate Flagged(c: Controller) {
    c.WantCopy? || c.HoldCopy? || c.Waiting? || c.WantClear? || c.HoldClear? || IsCleared(c)
  }

  ghost predicate WaitInv(s: State) {
    s.ctl.Waiting? ==> s.ctl.waited <= s.ctl.snapshot && forall t | t in s.ctl.snapshot :: t < |s.workers|
  }

  ghost predicate Inv(s: State) {
    && WaitInv(s) && (s.terminate <==> Flagged(s.ctl)) && LockInv(s)
    && (forall t: Tid | t < |s.workers| :: WorkerInv(s.workers[t]))
    && SetInv(s) && CountInv(s)
  }

  lemma LockStepWorker(s: State, a: Action)
    requires LockInv(s) && Enabled(s, a) && WorkerAction(a)
    ensures LockInv(Step(s, a))
  {
  }

  lemma LockStepController(s: State, a: Action)
    requires LockInv(s) && Enabled(s, a) && !WorkerAction(a)
    ensures LockInv(Step(s, a))
  {
  }

  lemma WorkerStep(s: State, a: Action)
    requires Inv(s) && Enabled(s, a)
    ensures forall t: Tid | t < |Step(s, a).workers| :: WorkerInv(Step(s, a).workers[t])
  {
  }

  predicate RespawnAction(a: Action) {
    a.Remove? || a.Create? || a.Add?
  }

  lemma SetStepRemove(s: State, t: Tid)
    requires Inv(s) && Enabled(s, Remove(t))
    ensures SetInv(Step(s, Remove(t)))
  {
    assert s.lock == ByWorker(t);
  }

  lemma SetStepCreate(s: State, t: Tid)
    requires Inv(s) && Enabled(s, Create(t))
    ensures SetInv(Step(s, Create(t)))
  {
    assert s.lock == ByWorker(t);
    assert !Pending(s, |s.workers|);
  }

  lemma SetStepAdd(s: State, t: Tid)
    requires Inv(s) && Enabled(s, Add(t))
    ensures SetInv(Step(s, Add(t)))
  {
    assert s.lock == ByWorker(t);
    assert Pending(s, s.workers[t].pc.id);
  }

  lemma SetStepWorker(s: State, a: Action)
    requires Inv(s) && Enabled(s, a) && WorkerAction(a) && !RespawnAction(a)
    ensures SetInv(Step(s, a))
  {
  }

  lemma SetStepController(s: State, a: Action)
    requires Inv(s) && Enabled(s, a) && !WorkerAction(a)
    ensures SetInv(Step(s, a))
  {
  }

  // A replacement takes its thread out of the set first and puts another one in last.
  lemma CountStepRespawn(s: State, a: Action)
    requires Inv(s) && Enabled(s, a) && RespawnAction(a)
    ensures CountInv(Step(s, a))
  {
    assert s.lock == ByWorker(a.t);
    match a
    case Remove(t) => assert s.ctl.Idle? || IsCleared(s.ctl) || t in s.registered;
    case Add(t) => assert s.workers[t].pc.id !in s.registered by { assert Pending(s, s.workers[t].pc.id); }
    case _ =>
  }

  lemma CountStepWorker(s: State, a: Action)
    requires Inv(s) && Enabled(s, a) && WorkerAction(a) && !RespawnAction(a)
    ensures CountInv(Step(s, a))
  {
    assert Swapping(Step(s, a)) == Swapping(s);
  }

  lemma CountStepController(s: State, a: Action)
    requires Inv(s) && Enabled(s, a) && !WorkerAction(a)
    ensures CountInv(Step(s, a))
  {
  }

  lemma FlagStep(s: State, a: Action)
    requires Inv(s) && Enabled(s, a)
    ensures WaitInv(Step(s, a)) && (Step(s, a).terminate <==> Flagged(Step(s, a).ctl))
  {
  }

  lemma LockStep(s: State, a: Action)
    requires Inv(s) && Enabled(s, a)
    ensures LockInv(Step(s, a))
  {
    if WorkerAction(a) {
      LockStepWorker(s, a);
    } else {
      LockStepController(s, a);
    }
  }

  lemma SetStep(s: State, a: Action)
    requires Inv(s) && Enabled(s, a)
    ensures SetInv(Step(s, a))
  {
    match a
    case Remove(t) => SetStepRemove(s, t);
    case Create(t) => SetStepCreate(s, t);
    case Add(t) => SetStepAdd(s, t);
    case _ =>
      if WorkerAction(a) {
        SetStepWorker(s, a);
      } else {
        SetStepController(s, a);
      }
  }

  lemma CountStep(s: State, a: Action)
    requires Inv(s) && Enabled(s, a)
    ensures CountInv(Step(s, a))
  {
    if RespawnAction(a) {
      CountStepRespawn(s, a);
    } else if WorkerAction(a) {
      CountStepWorker(s, a);
    } else {
      CountStepController(s, a);
    }
  }

  // Every step of any thread keeps the invariant.
  lemma StepKeepsInv(s: State, a: Action)
    requires Inv(s) && Enabled(s, a)
    ensures Inv(Step(s, a))
  {
    FlagStep(s, a);
    LockStep(s, a);
    WorkerStep(s, a);
    SetStep(s, a);
    CountStep(s, a);
  }
}
