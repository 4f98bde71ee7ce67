// Whether every worker has finished when stop releases the context group.
module ThreadingStop {
  import opened Threading
  import opened ThreadingRuns

  // Just after stop has copied the set.
  ghost predicate AtSnapshot(s: State) {
    Inv(s) && s.lock == Free && s.ctl == Waiting(s.registered, {})
  }

  // Every worker outside the copy has finished and none in it can still replace itself.
  ghost predicate Clean(s: State) {
    && (forall t: Tid | t < |s.workers| :: t in s.registered || s.workers[t].pc == Finished)
    && Respawners(s) == {}
  }

  ghost predicate HaveFinished(s: State, ts: set<Tid>) {
    forall t | t in ts && t < |s.workers| :: s.workers[t].pc == Finished
  }

  // ---------------------------------------------------------------- a clean copy suffices

  ghost predicate Settled(s: State, snapshot: set<Tid>) {
    && s.terminate
    && (forall t: Tid | t < |s.workers| ::
          var w := s.workers[t];
          (t in snapshot || w.pc == Finished) && !CanRespawn(w.pc) && !w.pc.Created? && (t in snapshot ==> !w.replaced))
    && match s.ctl
       case Waiting(sn, waited) => sn == snapshot && HaveFinished(s, waited)
       case WantClear(sn) => sn == snapshot && AllFinished(s)
       case HoldClear(sn) => sn == snapshot && AllFinished(s)
       case Cleared(sn) => sn == snapshot && AllFinished(s)
       case Released(sn) => sn == snapshot && AllFinished(s)
       case _ => false
  }

  lemma SettledStep(s: State, a: Action, snapshot: set<Tid>)
    requires Inv(s) && Settled(s, snapshot) && Enabled(s, a)
    ensures Settled(Step(s, a), snapshot)
  {
  }

  lemma {:induction false} SettledRun(s: State, acts: seq<Action>, snapshot: set<Tid>)
    requires Inv(s) && Settled(s, snapshot) && Runs(s, acts)
    ensures Settled(Final(s, acts), snapshot)
    decreases |acts|
  {
    if acts != [] {
      StepKeepsInv(s, acts[0]);
      SettledStep(s, acts[0], snapshot);
      SettledRun(Step(s, acts[0]), acts[1..], snapshot);
    }
  }

  lemma CleanIsSettled(s: State)
    requires AtSnapshot(s) && Clean(s)
    ensures Settled(s, s.registered)
  {
    forall t: Tid | t < |s.workers| ensures !CanRespawn(s.workers[t].pc) {
      assert t !in Respawners(s);
    }
  }

  // ---------------------------------------------------------------- an unclean copy does not

  // From s to r only worker t has moved, and perhaps new workers have appeared.
  ghost predicate Alone(s: State, r: State, t: Tid) {
    && Inv(r) && r.terminate == s.terminate && r.lock == Free && r.ctl == s.ctl && |r.workers| >= |s.workers|
    && forall u: Tid | u < |s.workers| && u != t :: r.workers[u] == s.workers[u]
  }

  ghost predicate Idling(s: State, t: Tid) {
    Inv(s) && s.lock == Free && t < |s.workers|
  }

  lemma RunOne(s: State, a: Action)
    requires Inv(s) && Enabled(s, a)
    ensures Runs(s, [a]) && Final(s, [a]) == Step(s, a) && Inv(Step(s, a))
  {
    StepKeepsInv(s, a);
    assert [a][1..] == [] && Runs(Step(s, a), []) && Final(Step(s, a), []) == Step(s, a);
  }

  lemma RunTwo(s: State, a: Action, b: Action)
    requires Inv(s) && Enabled(s, a) && Enabled(Step(s, a), b)
    ensures Runs(s, [a, b]) && Final(s, [a, b]) == Step(Step(s, a), b) && Inv(Step(Step(s, a), b))
  {
    RunOne(s, a);
    RunOne(Step(s, a), b);
    RunsConcat(s, [a], [b]);
    assert [a] + [b] == [a, b];
  }

  lemma PassSection(s: State, t: Tid)
    requires Idling(s, t) && s.workers[t].pc.Want? && s.workers[t].pc.section != Respawn
    ensures var acts := [Acquire(t), Work(t)];
            && Runs(s, acts) && Alone(s, Final(s, acts), t)
            && Final(s, acts).workers[t].pc == After(s.workers[t].pc.section, s.terminate)
  {
    RunTwo(s, Acquire(t), Work(t));
  }

  lemma PassRespawn(s: State, t: Tid)
    requires Idling(s, t) && s.workers[t].pc == Want(Respawn)
    ensures var acts := [Acquire(t), Remove(t)] + [Create(t), Add(t)];
            && Runs(s, acts) && Alone(s, Final(s, acts), t) && Final(s, acts).workers[t].pc == Want(Cleanup)
            && |Final(s, acts).workers| == |s.workers| + 1 && Final(s, acts).workers[|s.workers|] == NEW_WORKER
  {
    RunTwo(s, Acquire(t), Remove(t));
    var m := Step(Step(s, Acquire(t)), Remove(t));
    RunTwo(m, Create(t), Add(t));
    RunsConcat(s, [Acquire(t), Remove(t)], [Create(t), Add(t)]);
  }

  lemma PassChoice(s: State, t: Tid, respawn: bool)
    requires Idling(s, t) && s.workers[t].pc == Decide
    ensures var acts := [Choose(t, respawn)];
            && Runs(s, acts) && Alone(s, Final(s, acts), t)
            && Final(s, acts).workers[t].pc == (if respawn then Want(Respawn) else Want(Evaluate))
  {
    RunOne(s, Choose(t, respawn));
  }

  // The idle lock lets worker t run alone to its end; it may leave a new worker behind.
  lemma {:induction false} Drive(s: State, t: Tid) returns (acts: seq<Action>)
    requires Idling(s, t) && s.terminate
    ensures Runs(s, acts) && Alone(s, Final(s, acts), t) && Final(s, acts).workers[t].pc == Finished
    decreases Weight(s.workers[t].pc)
  {
    var pc := s.workers[t].pc;
    if pc == Finished {
      acts := [];
    } else {
      var first;
      if pc == Decide {
        first := [Choose(t, false)];
        PassChoice(s, t, false);
      } else if pc == Want(Respawn) {
        first := [Acquire(t), Remove(t)] + [Create(t), Add(t)];
        PassRespawn(s, t);
      } else {
        first := [Acquire(t), Work(t)];
        PassSection(s, t);
      }
      var m := Final(s, first);
      var rest := Drive(m, t);
      RunsConcat(s, first, rest);
      acts := first + rest;
    }
  }

  // The workers of a set run to their ends one after the other while all others stand still.
  lemma {:induction false} DriveAll(s: State, ts: set<Tid>) returns (acts: seq<Action>)
    requires Inv(s) && s.terminate && s.lock == Free && forall t | t in ts :: t < |s.workers|
    ensures Runs(s, acts)
    ensures var r := Final(s, acts);
            && Inv(r) && r.lock == Free && r.ctl == s.ctl && |r.workers| >= |s.workers|
            && (forall u: Tid | u < |s.workers| && u !in ts :: r.workers[u] == s.workers[u])
            && (forall t | t in ts :: r.workers[t].pc == Finished)
    decreases |ts|
  {
    if ts == {} {
      acts := [];
    } else {
      var t :| t in ts;
      var first := Drive(s, t);
      var m := Final(s, first);
      var rest := DriveAll(m, ts - {t});
      RunsConcat(s, first, rest);
      acts := first + rest;
    }
  }

  lemma FinishStop(s: State) returns (acts: seq<Action>)
    requires Inv(s) && s.ctl.Waiting? && s.lock == Free && s.ctl.waited == s.ctl.snapshot
    ensures Runs(s, acts) && Inv(Final(s, acts)) && Final(s, acts).workers == s.workers && Final(s, acts).ctl.Released?
  {
    RunTwo(s, WaitDone, AcquireClear);
    RunTwo(Step(Step(s, WaitDone), AcquireClear), ClearSet, ReleaseGroup);
    RunsConcat(s, [WaitDone, AcquireClear], [ClearSet, ReleaseGroup]);
    acts := [WaitDone, AcquireClear] + [ClearSet, ReleaseGroup];
  }

  lemma {:induction false} WaitAll(s: State, left: set<Tid>) returns (acts: seq<Action>)
    requires Inv(s) && s.ctl.Waiting? && s.lock == Free && left == s.ctl.snapshot - s.ctl.waited
    requires forall t | t in s.ctl.snapshot :: s.workers[t].pc == Finished
    ensures Runs(s, acts) && Inv(Final(s, acts)) && Final(s, acts).workers == s.workers && Final(s, acts).ctl.Released?
    decreases |left|
  {
    if left == {} {
      assert s.ctl.waited == s.ctl.snapshot;
      acts := FinishStop(s);
    } else {
      var t :| t in left;
      StepKeepsInv(s, WaitFor(t));
      var rest := WaitAll(Step(s, WaitFor(t)), left - {t});
      acts := [WaitFor(t)] + rest;
      assert acts[1..] == rest;
    }
  }

  // An unfinished worker that stop does not wait for is overtaken by the release.
  lemma Overtaken(s: State, u: Tid) returns (acts: seq<Action>)
    requires Inv(s) && s.terminate && s.lock == Free && s.ctl.Waiting? && s.ctl.waited == {}
    requires u < |s.workers| && u !in s.ctl.snapshot && s.workers[u].pc != Finished
    ensures Runs(s, acts) && Final(s, acts).ctl.Released? && !AllFinished(Final(s, acts))
    ensures u < |Final(s, acts).workers| && Final(s, acts).workers[u] == s.workers[u]
  {
    var first := DriveAll(s, s.ctl.snapshot);
    var m := Final(s, first);
    var rest := WaitAll(m, s.ctl.snapshot);
    RunsConcat(s, first, rest);
    acts := first + rest;
    assert Final(s, acts).workers[u] == s.workers[u];
  }

  // A worker in the copy that can still respawn leaves such a worker behind.
  lemma RespawnThenOvertaken(s: State, u: Tid) returns (acts: seq<Action>)
    requires AtSnapshot(s) && u in Respawners(s)
    ensures Runs(s, acts) && Final(s, acts).ctl.Released? && !AllFinished(Final(s, acts))
    ensures ContextWanted(Final(s, acts))
  {
    var first := [];
    if s.workers[u].pc == Decide {
      first := [Choose(u, true)];
      PassChoice(s, u, true);
    }
    var m := Final(s, first);
    var spawn := [Acquire(u), Remove(u)] + [Create(u), Add(u)];
    PassRespawn(m, u);
    var rest := Overtaken(Final(m, spawn), |m.workers|);
    RunsConcat(m, spawn, rest);
    RunsConcat(s, first, spawn + rest);
    acts := first + (spawn + rest);
  }

  // ---------------------------------------------------------------- late contexts

  // Some worker has still to create its context in the group.
  ghost predicate ContextWanted(s: State) {
    exists t: Tid :: t < |s.workers| && AtContext(s.workers[t].pc)
  }

  predicate AtContext(pc: Pc) {
    pc == Want(MakeContext) || pc == Hold(MakeContext)
  }

  // Nobody can respawn any more, workers outside the copy are past the check for good, and joined
  // ones have finished.
  ghost predicate Quiet(s: State, snapshot: set<Tid>) {
    && s.terminate
    && (forall t: Tid | t < |s.workers| :: QuietWorker(s.workers[t], t in snapshot))
    && match s.ctl
       case Waiting(sn, waited) => sn == snapshot && HaveFinished(s, waited)
       case WantClear(sn) => sn == snapshot && HaveFinished(s, snapshot)
       case HoldClear(sn) => sn == snapshot && HaveFinished(s, snapshot)
       case Cleared(sn) => sn == snapshot && HaveFinished(s, snapshot)
       case Released(sn) => sn == snapshot && HaveFinished(s, snapshot)
       case _ => false
  }

  predicate QuietWorker(w: Worker, copied: bool) {
    && !CanRespawn(w.pc) && !w.pc.Created?
    && if copied then !w.replaced else w.pc == Want(Cleanup) || w.pc == Hold(Cleanup) || w.pc == Finished
  }

  lemma QuietWorkerStep(s: State, a: Action, snapshot: set<Tid>)
    requires Inv(s) && Quiet(s, snapshot) && Enabled(s, a)
    ensures |Step(s, a).workers| == |s.workers| && Step(s, a).terminate
    ensures forall t: Tid | t < |s.workers| :: QuietWorker(Step(s, a).workers[t], t in snapshot)
    ensures forall t: Tid | t < |s.workers| && s.workers[t].pc == Finished :: Step(s, a).workers[t].pc == Finished
  {
  }

  lemma QuietStep(s: State, a: Action, snapshot: set<Tid>)
    requires Inv(s) && Quiet(s, snapshot) && Enabled(s, a)
    ensures Quiet(Step(s, a), snapshot)
  {
    QuietWorkerStep(s, a, snapshot);
  }

  lemma {:induction false} QuietRun(s: State, acts: seq<Action>, snapshot: set<Tid>)
    requires Inv(s) && Quiet(s, snapshot) && Runs(s, acts)
    ensures Quiet(Final(s, acts), snapshot)
    decreases |acts|
  {
    if acts != [] {
      StepKeepsInv(s, acts[0]);
      QuietStep(s, acts[0], snapshot);
      QuietRun(Step(s, acts[0]), acts[1..], snapshot);
    }
  }

  lemma QuietAtSnapshot(s: State)
    requires AtSnapshot(s) && Respawners(s) == {}
    ensures Quiet(s, s.registered)
  {
    forall t: Tid | t < |s.workers| ensures QuietWorker(s.workers[t], t in s.registered) {
      assert t !in Respawners(s);
      assert WorkerInv(s.workers[t]);
    }
  }

  // After the copy, no run reaches the release with a worker still to create its context in the
  // group if and only if, at the copy, no worker was past the flag check.
  lemma NoLateContextIff(s: State)
    requires AtSnapshot(s)
    ensures Respawners(s) == {} <==>
            forall acts | Runs(s, acts) && Final(s, acts).ctl.Released? :: !ContextWanted(Final(s, acts))
  {
    if Respawners(s) == {} {
      QuietAtSnapshot(s);
      forall acts | Runs(s, acts) && Final(s, acts).ctl.Released? ensures !ContextWanted(Final(s, acts)) {
        QuietRun(s, acts, s.registered);
      }
    } else {
      var u :| u in Respawners(s);
      var acts := RespawnThenOvertaken(s, u);
    }
  }

  // ---------------------------------------------------------------- exactly when

  // After the copy, every run that releases the group finds all workers finished if and only if, at
  // the copy, the workers outside it had finished and none inside it had passed the flag check.
  lemma ReleaseFindsAllFinishedIff(s: State)
    requires AtSnapshot(s)
    ensures Clean(s) <==>
            forall acts | Runs(s, acts) && Final(s, acts).ctl.Released? :: AllFinished(Final(s, acts))
  {
    if Clean(s) {
      CleanIsSettled(s);
      forall acts | Runs(s, acts) && Final(s, acts).ctl.Released? ensures AllFinished(Final(s, acts)) {
        SettledRun(s, acts, s.registered);
      }
    } else if u :| u in Respawners(s) {
      var acts := RespawnThenOvertaken(s, u);
    } else {
      var u: Tid :| u < |s.workers| && u !in s.registered && s.workers[u].pc != Finished;
      var acts := Overtaken(s, u);
    }
  }

  // ---------------------------------------------------------------- and the other case does occur

  lemma {:induction false} StartRest(s: State) returns (acts: seq<Action>)
    requires Inv(s) && s.ctl.Starting? && !s.terminate
    ensures Runs(s, acts)
    ensures var r := Final(s, acts);
            && Inv(r) && r.ctl == Running && r.lock == Free && !r.terminate && s.workers <= r.workers
            && (s.ctl.k < THREAD_COUNT ==> |r.workers| > |s.workers| && r.workers[|s.workers|] == NEW_WORKER)
    decreases THREAD_COUNT - s.ctl.k
  {
    if s.ctl.k == THREAD_COUNT {
      RunOne(s, StartDone);
      acts := [StartDone];
    } else {
      RunTwo(s, StartCreate, StartAdd);
      var m := Step(Step(s, StartCreate), StartAdd);
      var rest := StartRest(m);
      RunsConcat(s, [StartCreate, StartAdd], rest);
      acts := [StartCreate, StartAdd] + rest;
    }
  }

  // Without the flag a worker can run alone until it is past the flag check.
  lemma {:induction false} DriveToChoice(s: State, t: Tid) returns (acts: seq<Action>)
    requires Idling(s, t) && !s.terminate
    requires s.workers[t].pc.Want? && s.workers[t].pc.section != Respawn && s.workers[t].pc.section != Cleanup
    ensures Runs(s, acts) && Alone(s, Final(s, acts), t) && Final(s, acts).workers[t].pc == Decide
    decreases Weight(s.workers[t].pc)
  {
    acts := [Acquire(t), Work(t)];
    PassSection(s, t);
    if s.workers[t].pc != Want(Check) {
      var rest := DriveToChoice(Final(s, acts), t);
      RunsConcat(s, acts, rest);
      acts := acts + rest;
    }
  }

  lemma StopToCopy(s: State) returns (acts: seq<Action>)
    requires Inv(s) && s.ctl == Running && s.lock == Free
    ensures Runs(s, acts) && AtSnapshot(Final(s, acts)) && Final(s, acts).workers == s.workers
  {
    RunTwo(s, Stop, AcquireFlag);
    var m := Step(Step(s, Stop), AcquireFlag);
    RunTwo(m, RaiseFlag, AcquireCopy);
    var n := Step(Step(m, RaiseFlag), AcquireCopy);
    RunOne(n, CopySet);
    RunsConcat(m, [RaiseFlag, AcquireCopy], [CopySet]);
    RunsConcat(s, [Stop, AcquireFlag], [RaiseFlag, AcquireCopy] + [CopySet]);
    acts := [Stop, AcquireFlag] + ([RaiseFlag, AcquireCopy] + [CopySet]);
  }

  // From the start, a run in which stop releases the group under a live worker that has still to
  // create its context in it: the first worker passes the flag check just before the flag is raised
  // and replaces itself after the copy.
  lemma ReleaseUnderLiveWorker() returns (acts: seq<Action>)
    ensures Runs(INITIAL, acts) && Final(INITIAL, acts).ctl.Released? && !AllFinished(Final(INITIAL, acts))
    ensures ContextWanted(Final(INITIAL, acts))
  {
    RunOne(INITIAL, Start);
    var s1 := Step(INITIAL, Start);
    var starting := StartRest(s1);
    var s2 := Final(s1, starting);
    var choosing := DriveToChoice(s2, 0);
    var s3 := Final(s2, choosing);
    var stopping := StopToCopy(s3);
    var s4 := Final(s3, stopping);
    assert 0 in Respawners(s4);
    var ending := RespawnThenOvertaken(s4, 0);
    RunsConcat(s3, stopping, ending);
    RunsConcat(s2, choosing, stopping + ending);
    RunsConcat(s1, starting, choosing + (stopping + ending));
    RunsConcat(INITIAL, [Start], starting + (choosing + (stopping + ending)));
    acts := [Start] + (starting + (choosing + (stopping + ending)));
  }
}
