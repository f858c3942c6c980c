/**
 * The native update service (UpdateService.java) as steps over service memory, saved preferences, stage
 * files, the update engine and the booted slot. The worker, the engine and device reboots interleave freely:
 * a reboot may fall between any two effects of a command.
 */
module Ota {
  import opened Wrappers

  type StageId = nat

  /** Signed release metadata; `digest` stands for all its fields but the sequence. */
  datatype Metadata = Metadata(sequence: int, digest: nat)

  /** A staged file: `sound` when its entries, signature, hashes and payload offset all check out. */
  datatype Package = Package(meta: Metadata, sound: bool)

  datatype Prefs = Prefs(pending: int, stage: Option<StageId>, rebootReady: bool, accepted: int)

  datatype Engine = Idle | Applying(file: StageId, package: Package) | Installed(file: StageId, package: Package)

  datatype Callback = Progress | NeedReboot | OtherStatus | Completed(code: int)

  /** What the booted slot and the boot loader report. */
  datatype Boot = Boot(sequence: Option<int>, verified: bool, rollback: bool)

  datatype After = ToReady | ToFailing | ToResume | ToRollback

  /** Where the worker (or onCreate) stands. */
  datatype Worker =
    | Ready
    | Booting
    | RollbackCheck
    | Resuming
    | Copying(file: StageId, expected: Option<Metadata>)
    | Verifying(file: StageId, expected: Option<Metadata>)
    | Checked(file: StageId)
    | Committed(file: StageId)
    | Marked(file: StageId)
    | Clearing(discarded: bool, after: After)
    | Failing

  /** `torn`: a completion's first commit is saved and the clearing commit is not. */
  datatype State = State(
    installing: bool, candidate: Option<Metadata>, stageFile: Option<StageId>, prefs: Prefs,
    files: map<StageId, Package>, engine: Engine, queue: seq<Callback>, boot: Boot, worker: Worker, torn: bool)

  function Max(a: int, b: int): int { if a > b then a else b }

  /** The sequence an update must exceed; an unset property counts as 1 here. */
  function Current(s: State): int {
    Max(if s.boot.sequence.Some? then s.boot.sequence.value else 1, s.prefs.accepted)
  }

  /** The pending update is the one that booted and was verified; an unset property counts as 0 here. */
  predicate CanComplete(s: State) {
    && s.prefs.pending > 0
    && (if s.boot.sequence.Some? then s.boot.sequence.value else 0) >= s.prefs.pending
    && s.boot.verified
  }

  predicate Busy(s: State) { s.installing || s.prefs.rebootReady }

  function Discard(files: map<StageId, Package>, f: Option<StageId>): map<StageId, Package> {
    if f.Some? then files - {f.value} else files
  }

  function Cleared(p: Prefs): Prefs { p.(stage := None, pending := 0, rebootReady := false) }

  /** Discarding the pending stage and committing the cleared preferences, as one callback does. */
  function ClearPending(s: State): State {
    s.(files := Discard(s.files, s.prefs.stage), prefs := Cleared(s.prefs), torn := false)
  }

  predicate Acceptable(s: State, file: StageId, expected: Option<Metadata>) {
    && file in s.files && s.files[file].sound
    && (expected.Some? ==> expected.value == s.files[file].meta)
    && s.files[file].meta.sequence > 0
    && s.files[file].meta.sequence > Current(s)
  }

  /** One engine callback, delivered on the main thread. */
  function Delivered(s: State, c: Callback): State {
    match c
    case Progress => s.(installing := true)
    case NeedReboot => s.(installing := false, prefs := s.prefs.(rebootReady := true))
    case OtherStatus => s
    case Completed(code) => if code == 0 then s else ClearPending(s.(installing := false))
  }

  /** What a release check came to; unverifiable metadata is an error unless something newer was found. */
  datatype Releases = Newer(meta: Metadata) | UpToDate | Unverified | Unreachable

  datatype Event =
    | Check(releases: Releases)
    | Install(id: StageId)
    | ApplyOffline(inbox: bool, id: StageId)
    | Resume
    | Reboot
    | Unknown
    | Copied(package: Package, complete: bool)
    | Work
    | Submit(accepts: bool)
    | Deliver
    | EngineReports(progress: bool)
    | EngineFinishes(code: int)
    | BootVerified
    | DeviceReboot(slot: Boot)
    | ProcessRestart

  /** A fresh stage directory for a download or an import, unless the service is busy. */
  function NewStage(s: State, id: StageId, expected: Option<Metadata>): State {
    if Busy(s) || id in s.files then s.(worker := Failing)
    else s.(stageFile := Some(id), files := s.files[id := Package(Metadata(0, 0), false)],
              worker := Copying(id, expected))
  }

  /** The first effect of a command, issued when the worker is idle. */
  function Begin(s: State, e: Event): State {
    match e
    case Check(releases) =>
      if Busy(s) || releases.Unreachable? then s.(worker := Failing)
      else if releases.Newer? && releases.meta.sequence > Current(s) then s.(candidate := Some(releases.meta))
      else s.(candidate := None, worker := if releases.Unverified? then Failing else Ready)
    case Install(id) =>
      if s.candidate.None? then s.(worker := Failing) else NewStage(s, id, s.candidate)
    case ApplyOffline(inbox, id) =>
      if !inbox then s.(worker := Failing) else NewStage(s, id, None)
    case Resume =>
      if CanComplete(s) then
        s.(prefs := s.prefs.(accepted := s.prefs.pending), torn := true, worker := Clearing(false, ToResume))
      else s.(worker := Resuming)
    case Reboot => if s.prefs.rebootReady then s else s.(worker := Failing)
    case _ => s.(worker := Failing)
  }

  predicate IsCommand(e: Event) {
    e.Check? || e.Install? || e.ApplyOffline? || e.Resume? || e.Reboot? || e.Unknown?
  }

  function Continue(after: After): Worker {
    match after
    case ToReady => Ready
    case ToFailing => Failing
    case ToResume => Resuming
    case ToRollback => RollbackCheck
  }

  /** The next effect of the running command or of onCreate. */
  function Worked(s: State): State {
    match s.worker
    case Booting =>
      if CanComplete(s) then
        s.(prefs := s.prefs.(accepted := s.prefs.pending), torn := true, worker := Clearing(false, ToRollback))
      else s.(worker := RollbackCheck)
    case RollbackCheck =>
      if s.boot.rollback then s.(engine := Idle, worker := Clearing(false, ToReady)) else s.(worker := Ready)
    case Resuming =>
      if s.prefs.pending > Current(s) && !s.installing && !s.prefs.rebootReady then
        if s.prefs.stage.Some? then s.(worker := Verifying(s.prefs.stage.value, None)) else s.(worker := Failing)
      else s.(worker := Ready)
    case Verifying(file, expected) =>
      if Acceptable(s, file, expected) then s.(worker := Checked(file)) else s.(worker := Failing)
    case Checked(file) =>
      if file in s.files then
        s.(prefs := s.prefs.(pending := s.files[file].meta.sequence, stage := Some(file)), torn := false,
           worker := Committed(file))
      else s.(worker := Failing)
    case Committed(file) => s.(installing := true, worker := Marked(file))
    case Clearing(discarded, after) =>
      if !discarded then s.(files := Discard(s.files, s.prefs.stage), worker := Clearing(true, after))
      else s.(prefs := Cleared(s.prefs), torn := false, worker := Continue(after))
    case Failing =>
      if Busy(s) then s.(worker := Ready)
      else s.(files := Discard(s.files, s.stageFile), worker := Clearing(false, ToReady))
    case _ => s
  }

  /** The submission itself: a busy engine refuses, and so may an idle one. */
  function Submitted(s: State, file: StageId, accepts: bool): State {
    if accepts && s.engine.Idle? && file in s.files
    then s.(engine := Applying(file, s.files[file]), worker := Ready)
    else s.(installing := false, worker := Clearing(false, ToFailing))
  }

  /** A new service process: its memory and the callbacks it had not seen are gone. */
  function Restarted(s: State): State {
    s.(installing := false, candidate := None, stageFile := None, queue := [], worker := Booting)
  }

  predicate Enabled(s: State, e: Event) {
    match e
    case Copied(_, _) => s.worker.Copying?
    case Work => !s.worker.Ready? && !s.worker.Copying? && !s.worker.Marked?
    case Submit(_) => s.worker.Marked?
    case Deliver => s.queue != []
    case EngineReports(progress) => progress ==> s.engine.Applying?
    case EngineFinishes(_) => s.engine.Applying?
    case BootVerified => true
    case DeviceReboot(_) => true
    case ProcessRestart => s.engine.Idle? || s.prefs.rebootReady
    case _ => s.worker.Ready?
  }

  function Step(s: State, e: Event): State
    requires Enabled(s, e)
  {
    match e
    case Copied(package, complete) =>
      s.(files := s.files[s.worker.file := package],
         worker := if complete then Verifying(s.worker.file, s.worker.expected) else Failing)
    case Work => Worked(s)
    case Submit(accepts) => Submitted(s, s.worker.file, accepts)
    case Deliver => Delivered(s.(queue := s.queue[1..]), s.queue[0])
    case EngineReports(progress) => s.(queue := s.queue + [if progress then Progress else OtherStatus])
    case EngineFinishes(code) =>
      if code == 0 then
        s.(engine := Installed(s.engine.file, s.engine.package), queue := s.queue + [NeedReboot, Completed(0)])
      else s.(engine := Idle, queue := s.queue + [OtherStatus, Completed(code)])
    case BootVerified => s.(boot := s.boot.(verified := true))
    case DeviceReboot(slot) => Restarted(s).(engine := Idle, boot := slot)
    case ProcessRestart => Restarted(s)
    case _ => Begin(s, e)
  }

  /** Every state some interleaving reaches from a first start in slot `slot`. */
  ghost predicate Reaches(s: State, es: seq<Event>, t: State)
    decreases |es|
  {
    if es == [] then s == t else Enabled(s, es[0]) && Reaches(Step(s, es[0]), es[1..], t)
  }

  function FirstStart(slot: Boot): State {
    State(false, None, None, Prefs(0, None, false, 0), map[], Idle, [], slot, Booting, false)
  }

  // ---- The invariant ----------------------------------------------------

  predicate Inert(c: Callback) { c.OtherStatus? || c == Completed(0) }

  predicate Early(c: Callback) { Inert(c) || c.Progress? }

  predicate AllInert(q: seq<Callback>) { forall i :: 0 <= i < |q| ==> Inert(q[i]) }

  predicate AllEarly(q: seq<Callback>) { forall i :: 0 <= i < |q| ==> Early(q[i]) }

  /** Status reports, then the outcome, then nothing that matters. */
  predicate Settles(q: seq<Callback>, success: bool) {
    && q != []
    && ((AllInert(q[1..]) && if success then q[0].NeedReboot? else q[0].Completed? && q[0].code != 0)
        || (Early(q[0]) && Settles(q[1..], success)))
  }

  /** The pending update is `file`, still staged, sound and newer than slot and accepted sequence. */
  predicate Held(s: State, file: StageId) {
    && Acceptable(s, file, None) && s.files[file].meta.sequence == s.prefs.pending
    && s.prefs.stage == Some(file) && !s.torn
  }

  /** Where the worker can stand while the engine has an update. */
  predicate Harmless(s: State) {
    || s.worker.Ready? || s.worker.Failing? || s.worker.Resuming?
    || (s.prefs.rebootReady && (s.worker.Booting? || s.worker.RollbackCheck?))
  }

  predicate EngineBusy(s: State) {
    && Harmless(s)
    && match s.engine
       case Applying(file, package) =>
         Held(s, file) && s.files[file] == package && AllEarly(s.queue) && s.installing && !s.prefs.rebootReady
       case Installed(file, package) =>
         && Held(s, file) && s.files[file] == package
         && (if s.prefs.rebootReady then AllInert(s.queue) && !s.installing else Settles(s.queue, true) && s.installing)
       case Idle =>
         // the engine failed and its report is still on the way
         && s.prefs.stage.Some? && Held(s, s.prefs.stage.value)
         && Settles(s.queue, false) && s.installing && !s.prefs.rebootReady
  }

  /** No update is with the engine; what the worker's position promises. */
  predicate EngineFree(s: State) {
    && s.engine.Idle? && AllInert(s.queue)
    && (s.installing <==> s.worker.Marked?)
    && match s.worker
       case Copying(file, _) => !s.prefs.rebootReady && file in s.files
       case Verifying(file, _) => !s.prefs.rebootReady
       case Checked(file) => !s.prefs.rebootReady && Acceptable(s, file, None)
       case Committed(file) => !s.prefs.rebootReady && Held(s, file)
       case Marked(file) => !s.prefs.rebootReady && Held(s, file)
       case _ => true
  }

  predicate Sequences(s: State) {
    && s.prefs.pending >= 0 && s.prefs.accepted >= 0
    && (s.prefs.pending > 0 ==>
          if s.torn then s.prefs.pending == s.prefs.accepted else s.prefs.pending > s.prefs.accepted)
    && (s.torn ==> s.prefs.pending > 0)
    && (s.prefs.rebootReady ==> s.prefs.pending > 0)
  }

  predicate Inv(s: State) {
    Sequences(s) && (EngineFree(s) || EngineBusy(s))
  }

  lemma {:induction false} SettlesAppend(q: seq<Callback>, c: Callback, success: bool)
    requires Settles(q, success) && Inert(c)
    ensures Settles(q + [c], success)
  {
    assert (q + [c])[1..] == q[1..] + [c];
    if !(AllInert(q[1..]) && if success then q[0].NeedReboot? else q[0].Completed? && q[0].code != 0) {
      SettlesAppend(q[1..], c, success);
    }
  }

  lemma {:induction false} EarlyThenSettles(q: seq<Callback>, rest: seq<Callback>, success: bool)
    requires AllEarly(q) && Settles(rest, success)
    ensures Settles(q + rest, success)
  {
    if q == [] {
      assert q + rest == rest;
    } else {
      EarlyThenSettles(q[1..], rest, success);
      assert (q + rest)[1..] == q[1..] + rest;
    }
  }

  lemma FinishKeepsInv(s: State, code: int)
    requires Inv(s) && s.engine.Applying?
    ensures Inv(Step(s, EngineFinishes(code)))
  {
    if code == 0 {
      EarlyThenSettles(s.queue, [NeedReboot, Completed(0)], true);
    } else {
      var rest := [OtherStatus, Completed(code)];
      assert Settles(rest[1..], false);
      EarlyThenSettles(s.queue, rest, false);
    }
  }

  lemma ReportKeepsInv(s: State, progress: bool)
    requires Inv(s) && Enabled(s, EngineReports(progress))
    ensures Inv(Step(s, EngineReports(progress)))
  {
    if Settles(s.queue, s.engine.Installed?) && !s.engine.Applying? {
      SettlesAppend(s.queue, OtherStatus, s.engine.Installed?);
    }
  }

  /** Work beside an engine that has no update. */
  lemma FreeWorkKeepsInv(s: State)
    requires Sequences(s) && EngineFree(s) && Enabled(s, Work)
    ensures Inv(Step(s, Work))
  {
  }

  /** Work beside an engine that has one. */
  lemma BusyWorkKeepsInv(s: State)
    requires Sequences(s) && EngineBusy(s) && Enabled(s, Work)
    ensures Inv(Step(s, Work))
  {
  }

  lemma WorkKeepsInv(s: State)
    requires Inv(s) && Enabled(s, Work)
    ensures Inv(Step(s, Work))
  {
    if EngineFree(s) {
      FreeWorkKeepsInv(s);
    } else {
      BusyWorkKeepsInv(s);
    }
  }

  lemma BeginKeepsInv(s: State, e: Event)
    requires Inv(s) && Enabled(s, e) && IsCommand(e)
    ensures Inv(Step(s, e))
  {
  }

  lemma DeliverKeepsInv(s: State)
    requires Inv(s) && Enabled(s, Deliver)
    ensures Inv(Step(s, Deliver))
  {
  }

  /** What every step keeps. */
  lemma StepKeepsInv(s: State, e: Event)
    requires Inv(s) && Enabled(s, e)
    ensures Inv(Step(s, e))
  {
    if IsCommand(e) {
      BeginKeepsInv(s, e);
    } else {
      match e
      case EngineFinishes(code) => FinishKeepsInv(s, code);
      case EngineReports(progress) => ReportKeepsInv(s, progress);
      case Work => WorkKeepsInv(s);
      case Deliver => DeliverKeepsInv(s);
      case _ =>
    }
  }

  /** Accepted sequences never go down. */
  lemma AcceptedGrows(s: State, e: Event)
    requires Inv(s) && Enabled(s, e)
    ensures Step(s, e).prefs.accepted >= s.prefs.accepted
  {
  }

  lemma {:induction false} RunKeepsInv(s: State, es: seq<Event>, t: State)
    requires Inv(s) && Reaches(s, es, t)
    ensures Inv(t) && t.prefs.accepted >= s.prefs.accepted
    decreases |es|
  {
    if es != [] {
      StepKeepsInv(s, es[0]);
      AcceptedGrows(s, es[0]);
      RunKeepsInv(Step(s, es[0]), es[1..], t);
    }
  }

  // ---- Main results -----------------------------------------------------

  /**
   * In every run, a payload is submitted only to an idle engine, with nothing installed and waiting for a
   * restart and no outcome on its way; its sequence exceeds the booted slot's and every accepted one, and
   * its record is already saved.
   */
  lemma SubmissionIsAlone(slot: Boot, es: seq<Event>, s: State)
    requires Reaches(FirstStart(slot), es, s) && s.worker.Marked?
    ensures s.engine.Idle? && AllInert(s.queue) && !s.prefs.rebootReady
    ensures s.worker.file in s.files && s.files[s.worker.file].sound
    ensures s.prefs.pending == s.files[s.worker.file].meta.sequence > s.prefs.accepted >= 0
    ensures s.prefs.pending > (if s.boot.sequence.Some? then s.boot.sequence.value else 1)
    ensures s.prefs.stage == Some(s.worker.file)
  {
    RunKeepsInv(FirstStart(slot), es, s);
  }

  /**
   * In every state of every run in which the engine has an update, that update's sequence is pending, its
   * stage file still holds exactly what was submitted, and new submissions are refused.
   */
  lemma EngineUpdateIsKept(slot: Boot, es: seq<Event>, s: State)
    requires Reaches(FirstStart(slot), es, s) && !s.engine.Idle?
    ensures s.prefs.pending == s.engine.package.meta.sequence > 0
    ensures s.prefs.stage == Some(s.engine.file)
    ensures s.engine.file in s.files && s.files[s.engine.file] == s.engine.package
    ensures Busy(s)
  {
    RunKeepsInv(FirstStart(slot), es, s);
  }

  /** No package at or below a sequence accepted earlier is ever submitted, whatever slot is booted since. */
  lemma NeverDowngrades(slot: Boot, before: seq<Event>, s: State, after: seq<Event>, t: State)
    requires Reaches(FirstStart(slot), before, s) && Reaches(s, after, t) && t.worker.Marked?
    ensures t.worker.file in t.files && t.files[t.worker.file].meta.sequence > s.prefs.accepted
  {
    RunKeepsInv(FirstStart(slot), before, s);
    RunKeepsInv(s, after, t);
  }

  /** Nothing pending, or something newer than accepted, except between the two commits of a completion. */
  lemma PendingIsNewer(slot: Boot, es: seq<Event>, s: State)
    requires Reaches(FirstStart(slot), es, s)
    ensures (s.prefs.pending == 0 || s.prefs.pending > s.prefs.accepted) <==> !s.torn
    ensures s.torn ==> s.prefs.pending == s.prefs.accepted > 0
  {
    RunKeepsInv(FirstStart(slot), es, s);
  }

  /** A step completes the pending update. */
  predicate Completes(s: State, e: Event) {
    CanComplete(s) && ((e.Resume? && s.worker.Ready?) || (e.Work? && s.worker.Booting?))
  }

  /** A completion strictly raises the accepted sequence exactly when it does not repeat a torn one. */
  lemma CompletionRaises(slot: Boot, es: seq<Event>, s: State, e: Event)
    requires Reaches(FirstStart(slot), es, s) && Completes(s, e)
    ensures Enabled(s, e) && Step(s, e).prefs.accepted == s.prefs.pending
    ensures Step(s, e).prefs.accepted > s.prefs.accepted <==> !s.torn
  {
    RunKeepsInv(FirstStart(slot), es, s);
  }

  lemma {:induction false} ReachesJoin(s: State, a: seq<Event>, t: State, b: seq<Event>, u: State)
    requires Reaches(s, a, t) && Reaches(t, b, u)
    ensures Reaches(s, a + b, u)
    decreases |a|
  {
    if a == [] {
      assert a + b == b;
    } else {
      ReachesJoin(Step(s, a[0]), a[1..], t, b, u);
      assert (a + b)[1..] == a[1..] + b;
    }
  }
}
