/**
 * Where the update service's promises end: runs that tear a completion, restart only the service process, or
 * fall between the two effects of a callback.
 */
module OtaLimits {
  import opened Wrappers
  import opened Ota

  /** Some run leads from `s` to `t`. */
  ghost predicate Leads(s: State, t: State) { exists es :: Reaches(s, es, t) }

  lemma LeadsOnce(s: State, e: Event)
    requires Enabled(s, e)
    ensures Leads(s, Step(s, e))
  {
    assert Reaches(Step(s, e), [e][1..], Step(s, e));
    assert Reaches(s, [e], Step(s, e));
  }

  lemma LeadsJoin(s: State, t: State, u: State)
    requires Leads(s, t) && Leads(t, u)
    ensures Leads(s, u)
  {
    var a :| Reaches(s, a, t);
    var b :| Reaches(t, b, u);
    ReachesJoin(s, a, t, b, u);
  }

  /** A run is continued by one event. */
  lemma LeadsThen(s: State, t: State, e: Event) returns (u: State)
    requires Leads(s, t) && Enabled(t, e)
    ensures u == Step(t, e) && Leads(s, u)
  {
    u := Step(t, e);
    LeadsOnce(t, e);
    LeadsJoin(s, t, u);
  }

  /** A recorded update is marked and taken by an idle engine. */
  lemma AcceptedRun(s: State, file: StageId)
    requires s.worker == Committed(file) && s.engine.Idle? && file in s.files
    ensures Leads(s, s.(installing := true, engine := Applying(file, s.files[file]), worker := Ready))
  {
    LeadsOnce(s, Work);
    var t := LeadsThen(s, Step(s, Work), Submit(true));
  }

  /** A copied package is checked and recorded. */
  lemma RecordedRun(s: State, file: StageId, package: Package)
    requires s.worker == Copying(file, None)
    requires package.sound && package.meta.sequence > 0 && package.meta.sequence > Current(s)
    ensures Leads(s, s.(files := s.files[file := package], worker := Committed(file), torn := false,
                        prefs := s.prefs.(pending := package.meta.sequence, stage := Some(file))))
  {
    LeadsOnce(s, Copied(package, true));
    var s2 := LeadsThen(s, Step(s, Copied(package, true)), Work);
    var s3 := LeadsThen(s, s2, Work);
  }

  /** A copied package is recorded and submitted. */
  lemma SubmitRun(s: State, file: StageId, package: Package) returns (t: State)
    requires s.worker == Copying(file, None) && s.engine.Idle?
    requires package.sound && package.meta.sequence > 0 && package.meta.sequence > Current(s)
    ensures Leads(s, t)
    ensures t == s.(files := s.files[file := package], installing := true, engine := Applying(file, package),
                    worker := Ready, torn := false,
                    prefs := s.prefs.(pending := package.meta.sequence, stage := Some(file)))
  {
    RecordedRun(s, file, package);
    var s1 := s.(files := s.files[file := package], worker := Committed(file), torn := false,
                 prefs := s.prefs.(pending := package.meta.sequence, stage := Some(file)));
    AcceptedRun(s1, file);
    t := s1.(installing := true, engine := Applying(file, package), worker := Ready);
    LeadsJoin(s, s1, t);
  }

  /** A package is imported and applied after a first start. */
  lemma InstallRun(slot: Boot, package: Package) returns (s: State)
    requires !slot.rollback && package.sound && package.meta.sequence > 1
    requires slot.sequence.Some? ==> package.meta.sequence > slot.sequence.value
    ensures Leads(FirstStart(slot), s) && s.engine == Applying(0, package) && s.worker == Ready
    ensures s.prefs == Prefs(package.meta.sequence, Some(0), false, 0) && s.boot == slot && s.queue == []
  {
    var s0 := FirstStart(slot);
    StartRun(s0);
    var s1 := LeadsThen(s0, s0.(worker := Ready), ApplyOffline(true, 0));
    s := SubmitRun(s1, 0, package);
    LeadsJoin(s0, s1, s);
  }

  /** A reboot between the two commits of a completion leaves the accepted sequence pending. */
  lemma TornCompletion() returns (slot: Boot, es: seq<Event>, s: State)
    ensures Reaches(FirstStart(slot), es, s) && s.prefs.pending == s.prefs.accepted == 2
  {
    slot := Boot(Some(1), true, false);
    var s0 := InstallRun(slot, Package(Metadata(2, 0), true));
    var s1 := LeadsThen(FirstStart(slot), s0, DeviceReboot(Boot(Some(2), true, false)));
    s := LeadsThen(FirstStart(slot), s1, Work);
    es :| Reaches(FirstStart(slot), es, s);
  }

  /** A submission to an engine that already has an update is refused and clears the pending record. */
  lemma RefusedRun(s: State, file: StageId, accepts: bool) returns (es: seq<Event>, t: State)
    requires s.worker == Committed(file) && !s.engine.Idle?
    ensures Reaches(s, es, t) && Submit(accepts) in es
    ensures t.engine == s.engine && t.files == Discard(s.files, s.prefs.stage) && t.prefs.pending == 0
  {
    var s1 := Step(s, Work);
    var s2 := Step(s1, Submit(accepts));
    var s3 := Step(s2, Work);
    t := Step(s3, Work);
    es := [Work, Submit(accepts), Work, Work];
    assert es[1] == Submit(accepts);
    assert Reaches(s3, es[3..], t);
    assert Reaches(s2, es[2..], t);
    assert Reaches(s1, es[1..], t);
  }

  /** A resume with the busy flags down verifies the pending update again, up to its submission. */
  lemma ResumingRun(s: State, file: StageId)
    requires (s.worker.Ready? || s.worker.Resuming?) && Held(s, file) && !Busy(s)
    ensures Leads(s, s.(worker := Committed(file)))
  {
    var s0 := s.(worker := Resuming);
    if s.worker.Ready? {
      LeadsOnce(s, Resume);
    } else {
      assert Reaches(s, [], s0);
    }
    var s1 := LeadsThen(s, s0, Work);
    var s2 := LeadsThen(s, s1, Work);
    var s3 := LeadsThen(s, s2, Work);
  }

  /** With the busy flags down while the engine has an update, a resume resubmits it and discards its file. */
  lemma UnguardedResume(s: State, accepts: bool) returns (es: seq<Event>, t: State)
    requires (s.worker.Ready? || s.worker.Resuming?) && !s.engine.Idle? && Held(s, s.engine.file) && !Busy(s)
    ensures Reaches(s, es, t) && Submit(accepts) in es
    ensures t.engine == s.engine && t.engine.file !in t.files && t.prefs.pending == 0
  {
    var s1 := s.(worker := Committed(s.engine.file));
    ResumingRun(s, s.engine.file);
    var before :| Reaches(s, before, s1);
    var after, u := RefusedRun(s1, s.engine.file, accepts);
    ReachesJoin(s, before, s1, after, u);
    es, t := before + after, u;
    assert Submit(accepts) in after;
  }

  /** A failed command that finds the busy flags down discards the pending file. */
  lemma UnguardedFailure(s: State) returns (t: State)
    requires s.worker.Failing? && s.prefs.stage.Some? && !Busy(s)
    ensures Leads(s, t) && t.engine == s.engine && s.prefs.stage.value !in t.files
  {
    LeadsOnce(s, Work);
    t := LeadsThen(s, Step(s, Work), Work);
  }

  /** A start of the service process up to the first command, when nothing was rolled back or completes. */
  lemma StartRun(s: State)
    requires s.worker.Booting? && !s.boot.rollback && !CanComplete(s)
    ensures Leads(s, s.(worker := Ready))
  {
    LeadsOnce(s, Work);
    var t := LeadsThen(s, Step(s, Work), Work);
  }

  /** The service has lost track of the engine's update: some run from here discards its file. */
  ghost predicate LosesFile(s: State) {
    exists t :: Leads(s, t) && t.engine == s.engine && !t.engine.Idle? && t.engine.file !in t.files
  }

  /**
   * A restart of the service process alone keeps the invariant exactly when the engine has no update or its
   * installation is already recorded; otherwise, unless a rollback is pending, a resume discards the engine's file.
   */
  lemma RestartIff(slot: Boot, before: seq<Event>, s: State)
    requires Reaches(FirstStart(slot), before, s)
    ensures Inv(Restarted(s)) <==> s.engine.Idle? || s.prefs.rebootReady
    ensures !(s.engine.Idle? || s.prefs.rebootReady) && !s.boot.rollback ==> LosesFile(Restarted(s))
  {
    RunKeepsInv(FirstStart(slot), before, s);
    if s.engine.Idle? || s.prefs.rebootReady {
      StepKeepsInv(s, ProcessRestart);
    } else if !s.boot.rollback {
      var s0 := Restarted(s);
      StartRun(s0);
      var es, t := UnguardedResume(s0.(worker := Ready), true);
      LeadsJoin(s0, s0.(worker := Ready), t);
    }
  }

  /**
   * Between the two effects of the callback that reports an installation (flag down, commit outstanding) the
   * service loses the engine's file, wherever the worker stands: to a resume, or to the clean-up of a command
   * that failed.
   */
  lemma SplitCallback(slot: Boot, before: seq<Event>, s: State)
    requires Reaches(FirstStart(slot), before, s) && s.engine.Installed? && !s.prefs.rebootReady
    ensures LosesFile(s.(installing := false))
  {
    RunKeepsInv(FirstStart(slot), before, s);
    var s0 := s.(installing := false);
    if s.worker.Failing? {
      var t := UnguardedFailure(s0);
    } else {
      var es, t := UnguardedResume(s0, true);
    }
  }

  /** A number no stage has. */
  lemma {:induction false} Unused(ids: set<StageId>) returns (id: StageId)
    ensures forall i :: i in ids ==> i < id
  {
    id := 0;
    if i :| i in ids {
      var below := Unused(ids - {i});
      id := Max(below, i + 1);
      assert forall k :: k in ids ==> k in ids - {i} || k == i;
    }
  }

  /** The clean-up of a failed command that finds the busy flags down empties the record. */
  lemma CleanUpRun(s: State) returns (t: State)
    requires s.worker.Failing? && !Busy(s)
    ensures Leads(s, t)
    ensures t.worker == Ready && t.prefs == Cleared(s.prefs) && t.engine == s.engine && t.boot == s.boot && !Busy(t)
  {
    LeadsOnce(s, Work);
    var s2 := LeadsThen(s, Step(s, Work), Work);
    t := LeadsThen(s, s2, Work);
  }

  /** A package newer than slot and accepted sequence is imported, and an idle engine takes it. */
  lemma ImportRun(s: State) returns (t: State)
    requires s.worker.Ready? && !Busy(s) && s.engine.Idle?
    ensures Leads(s, t) && t.engine.Applying? && t.prefs.stage == Some(t.engine.file)
  {
    var id := Unused(s.files.Keys);
    assert id !in s.files;
    LeadsOnce(s, ApplyOffline(true, id));
    var s1 := Step(s, ApplyOffline(true, id));
    t := SubmitRun(s1, id, Package(Metadata(Max(Current(s), 0) + 1, 0), true));
    LeadsJoin(s, s1, t);
  }

  /** With the busy flags down and an idle engine, a resume submits the pending update again. */
  lemma ResubmitRun(s: State, file: StageId) returns (t: State)
    requires (s.worker.Ready? || s.worker.Resuming?) && s.engine.Idle? && Held(s, file) && !Busy(s)
    ensures Leads(s, t) && t.engine.Applying? && t.prefs.stage == Some(t.engine.file)
  {
    var s1 := s.(worker := Committed(file));
    ResumingRun(s, file);
    AcceptedRun(s1, file);
    t := s1.(installing := true, engine := Applying(file, s.files[file]), worker := Ready);
    LeadsJoin(s, s1, t);
  }

  /**
   * Between the two effects of the callback that reports a failure (flag down, clearing outstanding) a new update
   * reaches the engine, wherever the worker stands: by a resume, or by an import once a failed command is cleaned
   * up. What is left of the callback then discards the file the engine is applying, with its record.
   */
  lemma SplitFailure(slot: Boot, before: seq<Event>, s: State)
    requires Reaches(FirstStart(slot), before, s) && s.queue != [] && s.queue[0].Completed? && s.queue[0].code != 0
    ensures exists t :: Leads(s.(installing := false, queue := s.queue[1..]), t)
                        && t.engine.Applying? && t.engine.file !in ClearPending(t).files
                        && ClearPending(t).prefs.pending == 0
  {
    RunKeepsInv(FirstStart(slot), before, s);
    assert s.engine.Idle? && s.prefs.stage.Some?;
    var s0 := s.(installing := false, queue := s.queue[1..]);
    if s.worker.Failing? {
      var s1 := CleanUpRun(s0);
      var t := ImportRun(s1);
      LeadsJoin(s0, s1, t);
    } else {
      var t := ResubmitRun(s0, s.prefs.stage.value);
    }
  }
}
